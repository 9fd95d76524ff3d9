# bp: a verified model of the archive naming, grouping and selection layer

`bp` is a small command-line wrapper around the `tarsnap` archiver. It keeps
dated snapshots of backup sets under names of the form `YYYY-MM-DD_name`.
It can list the sets with their versions (`print`), create today's snapshot of
some paths (`add`), extract the newest or a given version of some sets
(`get`), and delete all but the newest snapshot of each set (`drop_old`).

This project models that layer in Dafny:

- `archive.dfy` (module `Archives`) is the archive-name parser of
  `BP::Archive` and its two argument vectors.
- `store.dfy` (module `Store`) is `BP::Store`. Each operation is split the way
  the source is:
  - a pure selection pipeline (`map`, `filter`, `group_by`, `sort_by`, `find`,
    `max_by`) is a function;
  - the trailing `.each` loop is a method that accumulates, in order, the
    effects the source would have.
- An effect is one of:
  - `Say` (`puts`), `Warn` (`warn`), `Abort` (`abort`);
  - `Run` (`system`), or `Show` (the `p` of a command under dry-run).
- Messages are structured values. `Store.Text` spells out their exact wording.
- `dates.dfy` (module `Dates`) holds the calendar dates: Gregorian validity,
  their order, and the `%Y-%m-%d` format together with the digit reading
  that parses it back.
- `sorting.dfy` (module `Sorting`) holds the `sort_by` on dates.
- `wrappers.dfy` holds `Option` and `Result`.

The model follows the code:

- The underscore after the date is optional: `2021-01-01notes` names `notes`.
- At most one underscore is consumed: `2021-01-01__x` names `_x`.
- When nothing (or nothing without a line break) follows, the name is nil,
  not the empty string.
- The name is padded on the right (`ljust`).

`Store.Add` follows the code also where the code is evidently wrong (see
"## Findings"). The corrected behaviour is the separate `Store.AddEffectsIntended`.

## Model

| member | source | states |
|---|---|---|
| Archives.Parse | lib/bp/archive.rb:10-16 | `BP::Archive.new`: `None` where the constructor raises; its contract is stated by the `Archives.Parse*` lemmas below |
| Archives.Remainder | lib/bp/archive.rb:14 | `skip(/_/)` consumes at most one underscore right after the date |
| Archives.ScanName | lib/bp/archive.rb:15 | the name is present exactly when the rest is non-empty and has no line break, and is then the whole rest |
| Archives.ParseSucceedsIff | lib/bp/archive.rb:10-16 | parsing succeeds exactly on strings starting with a date-shaped prefix that is a calendar date, and keeps the raw name and that date |
| Archives.ParseSeparated | lib/bp/archive.rb:12-15 | `D_rest` parses to the date of `D` and the name `rest` |
| Archives.ParseUnseparated | lib/bp/archive.rb:14-15 | the separator is optional: `Drest` gives the name `rest` |
| Archives.ParseKeepsSecondUnderscore | lib/bp/archive.rb:14-15 | `D__x` gives the name `_x` |
| Archives.ParseWithoutName | lib/bp/archive.rb:15 | a date alone, or followed by one underscore, gives no name (nil, not "") |
| Archives.ParseRejectsShape | lib/bp/archive.rb:13 | a string without the `\d{4}-\d{2}-\d{2}` prefix does not parse (`Date.parse(nil)` raises) |
| Archives.ParseRejectsMonth13 | lib/bp/archive.rb:13 | month 13 is rejected though shaped like a date |
| Archives.ParseRejectsFebruary30 | lib/bp/archive.rb:13 | the 30th of February is rejected |
| Archives.ParseLeapDay | lib/bp/archive.rb:13 | a date-shaped `YYYY-02-29` parses exactly when the year is a leap year; 2000 and 2020 are leap years, 1900 is not |
| Archives.DropCmd | lib/bp/archive.rb:18-20 | four words ending in the raw name |
| Archives.ExtractCmd | lib/bp/archive.rb:22-24 | four words ending in the raw name |
| Archives.CommandsNameTheArchive | lib/bp/archive.rb:18-24 | the commands start `tarsnap -d -f` and `tarsnap -x -f`; two parsed archives get the same command exactly when they are the same archive |
| Archives.FormatRoundTrip | lib/bp/archive.rb:13-15 | for `D_name` with a name, `format(date) + "_" + name` is the raw name and reparses to the same record |
| Archives.ParseFormatted | lib/bp/archive.rb:13-15 | a valid date written `%Y-%m-%d` and followed by `_name` parses back to that date and name |
| Dates.Valid | lib/bp/archive.rb:13 | the dates `Date.parse` accepts: month 1 to 12 and a day within the month; `Archives.ParseLeapDay` and `Archives.ParseRejectsMonth13` state it through the parser |
| Dates.DaysInMonth | lib/bp/archive.rb:13 | month lengths of the Gregorian calendar lie between 28 and 31 |
| Dates.LessEqIsTotalOrder | lib/bp/store.rb:17-18 | the date order used by `sort_by` and `max` is a total order |
| Dates.Latest | lib/bp/store.rb:18 | `max` of a group's dates is one of them and no date is after it |
| Dates.Format | lib/bp/store.rb:20 | `strftime('%Y-%m-%d')`: at least ten characters; `Dates.FormatReadsBack` and `Dates.FormatInjective` state what it means |
| Dates.FormatYear | lib/bp/store.rb:20 | the year has at least four digits, exactly four below 10000, and reads back as the year |
| Dates.NumberOfPadded | lib/bp/store.rb:20 | zero-padding a number to a width and reading the digits back gives the number |
| Dates.ShapeDate | lib/bp/archive.rb:13 | the date read from the prefix has a four-digit year and two-digit month and day |
| Dates.FormatReadsBack | lib/bp/archive.rb:13 | a valid date's `%Y-%m-%d` text, followed by anything, is date-shaped and reads back as that date |
| Dates.FormatOfShape | lib/bp/store.rb:67 | formatting a date read from a prefix gives back the prefix |
| Dates.FormatInjective | lib/bp/store.rb:67 | two valid dates with four-digit years format alike exactly when they are equal, so a version string names one date |
| Sorting.SortBy | lib/bp/store.rb:17 | `sort_by`: the result is ordered by the key and is a permutation of the input |
| Store.Join | lib/bp/store.rb:20 | `join`: the parts with the separator between them; used for the versions column and the prune report |
| Store.Text | lib/bp/store.rb:21 | the wording of every message (lines 21, 32, 74-76, 107-109); `Store.ListingLineLayout` states the listing line's layout and `Store.ResolvedSingle` which not-found message is warned |
| Store.Load | lib/bp/store.rb:8-12 | loading succeeds exactly when every line parses; then archive `i` is the parse of line `i` |
| Store.Keys | lib/bp/store.rb:17 | the keys of `group_by(&:name)` are distinct, and every archive's name is a key |
| Store.Group | lib/bp/store.rb:95 | a group holds exactly the archives with that name |
| Store.GroupsPartition | lib/bp/store.rb:17 | the group sizes add up to the number of archives |
| Store.Width | lib/bp/store.rb:16 | the width is the length of a longest name |
| Store.PadRight | lib/bp/store.rb:21 | `ljust`: the name, then spaces up to the width |
| Store.ListingLines | lib/bp/store.rb:19-22 | one line per name of the order, in that order |
| Store.ListEach | lib/bp/store.rb:19-22 | the loop writes exactly the listing lines |
| Store.Listing | lib/bp/store.rb:16-22 | the lines `print` writes, or `None` where `max_by` raises; `Store.ListingSpec` and `Store.ListingOrderSpec` state its contract |
| Store.Print | lib/bp/store.rb:15-23 | `print` writes exactly the listing, or raises on a nameless archive |
| Store.ListingSpec | lib/bp/store.rb:15-23 | the listing fails exactly on a missing name; otherwise one line per name, line `i` for the `i`-th name in order; an empty store lists nothing |
| Store.ListingOrderSpec | lib/bp/store.rb:17-19 | every name is listed exactly once, groups in non-decreasing order of their latest date, which is a date of the group that no date of the group is after |
| Store.ListingLineLayout | lib/bp/store.rb:21 | each line is the name padded with spaces to the longest name's length, a tab in that column, then the versions column |
| Store.VersionListSorted | lib/bp/store.rb:20 | the versions column is the group's dates in ascending order, each as often as it occurs, written out and joined by `, ` |
| Store.LastSlash | lib/bp/store.rb:35 | the position of the last `/`, absent exactly when there is none |
| Store.TrimSlashes | lib/bp/store.rb:91 | a prefix of the path without a trailing `/`, having dropped only slashes |
| Store.Basename | lib/bp/store.rb:35 | `File.basename`: `/` or free of `/`, empty only for "", and the last component when the path does not end in `/` |
| Store.TrailingSlashIgnored | lib/bp/store.rb:91 | `File.basename` ignores a trailing slash |
| Store.BasenameOfComponent | lib/bp/store.rb:91 | a non-empty path without `/` is its own base name |
| Store.Dirname | lib/bp/store.rb:39 | `File.dirname` of an expanded path; `Store.PathSplit` states it together with the base name |
| Store.ComponentSplit | lib/bp/store.rb:35-39 | the last component has no `/`; directory, `/` and last component give back the path |
| Store.PathSplit | lib/bp/store.rb:35-39 | for a path not ending in `/`, the base name has no `/`, and directory, `/` and base name give back the path |
| Store.LastSlashTopLevel | lib/bp/store.rb:39 | a top-level path `/base` has its only `/` at the front, so its directory is `/` |
| Store.BasenameAfterSlash | lib/bp/store.rb:35 | the base name of `dir/base` is `base` when `base` is non-empty and has no `/` |
| Store.Sanitize | lib/bp/store.rb:36 | `gsub('-', '_')`: same length, dashes become underscores, nothing else changes, no dash remains |
| Store.SanitizeSpec | lib/bp/store.rb:36 | sanitizing is idempotent, the identity on names without dashes, and adds no line break |
| Store.FirstOther | lib/bp/store.rb:30-33 | finds the first path that is neither a regular file nor a directory, absent exactly when there is none |
| Store.CreateCommand | lib/bp/store.rb:35-47 | the directory and argv of one path's create command; `Store.CreateCommandSpec` states what they mean |
| Store.CreateCommands | lib/bp/store.rb:30-47 | one create command per path, in order, run in that path's directory |
| Store.CreateCommandSpec | lib/bp/store.rb:35-47 | `tarsnap -c -f <today>_<clean base name> <base name>` run in the path's directory, so directory, `/` and the named base name give back the path; a top-level path runs in `/` |
| Store.CreateCommandTopLevel | lib/bp/store.rb:35-47 | a top-level path `/base` (as `bp add /etc` expands to) runs `tarsnap -c -f <today>_<clean base> base` in `/` |
| Store.AddPlan | lib/bp/store.rb:28-47 | the `map` fails exactly when some path is invalid, and then with the first invalid path; otherwise it gives the create commands |
| Store.AddEffects | lib/bp/store.rb:25-59 | what `add` prints and runs, pruning with the filter built from the paths as given; `Store.AddSpec` states its contract |
| Store.Add | lib/bp/store.rb:25-59 | `add` has exactly the effects of `AddEffects`, with the prune scoped by the paths as given (line 58 passes `options` unchanged to line 91) |
| Store.AddSpec | lib/bp/store.rb:28-58 | an invalid path aborts with the first such path's message and runs nothing; otherwise one create command per path, then one drop per archive the pruning drops under the filter of the given paths; under dry-run nothing runs |
| Store.NewArchiveReparses | lib/bp/store.rb:26-44 | the name `add` creates parses back to today's date and the sanitized base name |
| Store.NameFilter | lib/bp/store.rb:91 | the filter is each given path's `File.basename`, sanitized |
| Store.NameFilterTrailingSlash | lib/bp/store.rb:91 | a directory given as `name/` scopes the pruning to `name` |
| Store.AddEffectsIntended | lib/bp/store.rb:58 | corrected `add`: the pruning is scoped by the expanded paths; `Store.IntendedAddPrunesAddedNames` states what that gains |
| Store.AddedNamesInPruneScope | lib/bp/store.rb:58 | corrected scope: every archive named after an added path is inside the filter |
| Store.GroupSnoc | lib/bp/store.rb:95 | appending an archive extends only its own name's group |
| Store.GroupOfScoped | lib/bp/store.rb:93-95 | a filter that keeps every archive of a name leaves that name's group whole |
| Store.ScopedNone | lib/bp/store.rb:93-94 | a filter that selects no archive leaves nothing |
| Store.IntendedAddPrunesAddedNames | lib/bp/store.rb:58 | corrected `add --drop-old`: every created name with two or more archives in the new listing is pruned |
| Store.AddAsIntendedWhenBasenamesAgree | lib/bp/store.rb:58 | when every given path has the base name of its expansion, `add` and the corrected `add` have the same effects |
| Store.DotPathEscapesPruneAsWritten | lib/bp/store.rb:91 | with the paths as given, a path `.` puts the archive it created outside the prune filter, while the corrected filter includes it |
| Store.DotPathPrunesNothing | lib/bp/store.rb:58 | `add --drop-old .` prunes nothing unless an archive is named `.` |
| Store.DotPathExample | lib/bp/store.rb:29-36 | `/home/user/notes` has the sanitized base name `notes` |
| Store.FindVersion | lib/bp/store.rb:66-68 | `versions.find`; `Store.FindVersionSpec` states its contract |
| Store.FindVersionSpec | lib/bp/store.rb:66-68 | `find` gives nothing exactly when no archive has that name and formatted date, and otherwise the first one in load order |
| Store.Newest | lib/bp/store.rb:70 | `max_by(&:date)` gives an archive of the list that none is newer than |
| Store.Select | lib/bp/store.rb:63-71 | the version `get` selects for one request; `Store.SelectSpec` states its contract |
| Store.SelectSpec | lib/bp/store.rb:63-71 | `get` selects nothing exactly when no archive has that name (and that version); otherwise an archive of that name, the first with the version or a newest one |
| Store.Selections | lib/bp/store.rb:62-80 | one selection per request |
| Store.SelectionsSpec | lib/bp/store.rb:62-80 | selection `i` is that of request `i` |
| Store.Compact | lib/bp/store.rb:81 | `compact` keeps at most as many archives as selections |
| Store.MissingWarningsSpec | lib/bp/store.rb:73-81 | one warning per miss and one archive per hit, and only warnings |
| Store.ExtractCommands | lib/bp/store.rb:81 | one extract command per resolved archive, in order |
| Store.SelectEach | lib/bp/store.rb:62-80 | the `map` loop gives the selections and, in order, the warnings of the misses |
| Store.ResolvedAppend | lib/bp/store.rb:62-81 | requests are served independently and in order |
| Store.ResolvedSingle | lib/bp/store.rb:62-80 | one request gives its archive and no warning, or no archive and a warning naming the request and version |
| Store.MissingRequestSkipped | lib/bp/store.rb:73-81 | a request that matches nothing adds one warning and no command; the others are served as if it were absent |
| Store.GetEffects | lib/bp/store.rb:61-88 | what `get` warns and runs; `Store.GetSpec` states its contract |
| Store.Get | lib/bp/store.rb:61-88 | `get` has exactly the effects of `GetEffects`: the warnings, then the extractions |
| Store.GetSpec | lib/bp/store.rb:61-88 | one command per resolved request, resolved plus warned equals requested, nothing run under dry-run |
| Store.Dispatch | lib/bp/store.rb:82-86 | the command itself is shown under dry-run and run otherwise |
| Store.DispatchedSpec | lib/bp/store.rb:81-87 | each command is dispatched once at its own position; under dry-run all are shown |
| Store.DispatchAll | lib/bp/store.rb:111-117 | the loop over commands dispatches each in order |
| Store.Scoped | lib/bp/store.rb:93-94 | the filter keeps exactly the archives whose name is in a non-empty filter, or all when it is empty |
| Store.PruningOf | lib/bp/store.rb:96-98 | `(*old, latest) = sort_by(&:date)`: a permutation of the group in date order, skipped for a single archive |
| Store.PlanForSpec | lib/bp/store.rb:95-99 | each pruning is of a listed name with two or more archives, and is that group sorted |
| Store.PlanForCovers | lib/bp/store.rb:95-99 | every listed name with two or more archives is pruned |
| Store.PrunePlan | lib/bp/store.rb:93-99 | the filter, `group_by` and split pipeline of `drop_old`; `Store.PrunePlanSpec` and `Store.PruneCount` state its contract |
| Store.PrunePlanSpec | lib/bp/store.rb:91-99 | the kept archive is a newest of its group; kept plus dropped is exactly the group; drops ascend; only in-scope archives are dropped; every multi-version name is pruned |
| Store.PruningFacts | lib/bp/store.rb:97 | a sorted split keeps a newest archive and drops the rest in ascending order |
| Store.PruneCount | lib/bp/store.rb:93-117 | the number of drops is the number of archives in scope minus the number of names in scope |
| Store.PruneReport | lib/bp/store.rb:101-109 | the three lines printed for one name: header, the dropped versions ascending, the kept version |
| Store.DropCommands | lib/bp/store.rb:111 | one drop command per older archive |
| Store.PruneEffects | lib/bp/store.rb:100-118 | the report and the dispatched drops of each pruning, in plan order; `Store.PruneEffectsCommands` states its command count |
| Store.PruneEffectsCommands | lib/bp/store.rb:100-117 | `drop_old` issues exactly one command per dropped archive; under dry-run none is run |
| Store.PruneEach | lib/bp/store.rb:100-118 | the loop writes each report, then each drop |
| Store.DropOld | lib/bp/store.rb:90-119 | `drop_old` has exactly the effects of its plan |

## Left out

- The `tarsnap` subprocesses are not executed:
  - `IO.popen` of the listing (lib/bp/store.rb:9) is not modelled. `Load` takes the listed lines, already chomped.
  - `system` becomes a `Run` effect. Exit statuses are never inspected by the source.
- `Dir.chdir` (lib/bp/store.rb:49) is not performed. A command carries the directory it runs in.
- `File.expand_path`, `File.file?` and `File.directory?` are inputs. Each path comes as a `Target`: the path as given, its expansion, and its kind.
- `Date.today` is the `today` parameter.
- Output text:
  - `puts`, `warn` and `abort` become effects carrying structured messages. `Text` gives their wording, without the trailing newline.
  - `abort` ends the run, so it is the only effect of a failed `add`.
  - `p` of a command becomes `Show` of that command, not Ruby's `inspect` text.
- Calendar:
  - Ruby's `Date` applies Julian rules before its default 1582 reform date. The model uses the proleptic Gregorian calendar throughout.
  - `Dates.FormatReadsBack`, `Dates.FormatInjective` and `Archives.ParseFormatted` are stated only for years below 10000, the only years the parser reads.
- Tie-breaks: `sort_by` and `max_by` are not stable in Ruby. The model sorts stably and takes the first maximum.
  - `Store.ListingOrderSpec` states only the ordering of groups, not their order among equal latest dates.
  - `Store.PrunePlanSpec` states only that a newest archive is kept, not which one among equal dates.
  - `Store.Newest` states only that its result is a newest archive, not which one Ruby returns among equal dates.
- Store.Dirname does not trim trailing slashes as `File.dirname` does. It is applied only to expanded paths, which end in `/` only when they are the root, where both give `/`.
- Store.CreateCommandSpec and Store.PathSplit are stated for paths that contain a `/` and do not end in one, which every expanded path but the root satisfies.
- The not-found message of `get` (lib/bp/store.rb:74-76) appends with `<<` to an interpolated literal under `frozen_string_literal: true`. Before Ruby 3.0 such a literal is frozen, so the first miss raises `FrozenError`. `Store.Warnings`, `Store.ResolvedSingle` and `Store.MissingRequestSkipped` describe Ruby 3.0 or later, where the literal is a fresh string.
- A nameless archive makes `print` raise before it writes anything. `Listing` returns `None` for that case rather than modelling the exception.

## Findings

| source | as written | input that shows it | evidently intended | confidence | as-written member | corrected member |
|---|---|---|---|---|---|---|
| lib/bp/store.rb:58 | `add --drop-old` prunes with the name filter built from `options[:files]`: the paths as given, not the expanded ones. The new archives are named after the expanded ones (lines 29, 35). | `bp add --drop-old .` run in `/home/user/notes` creates `<today>_notes`, but the prune filter is `["."]`, so no old version of `notes` is dropped | the filter holds the sanitized base names the new archives were created under, so prune-after-add drops the older versions of exactly those names | not executed | Store.DotPathPrunesNothing | Store.IntendedAddPrunesAddedNames |
