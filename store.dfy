/**
 * The archive store: the archives tarsnap lists, parsed once, and the four
 * operations over them. Each operation is split the way the source is: a
 * pure selection pipeline (a function here) followed by a loop that prints
 * or runs what was selected (a method here that accumulates the effects it
 * would have, in order, instead of performing them).
 */
module Store {
  import opened Wrappers
  import opened Dates
  import opened Sorting
  import opened Archives

  // =====================================================================
  // What the operations do to the outside world
  // =====================================================================

  /** An argument vector for `system`, with the directory it runs in (`None`: the caller's). */
  datatype Command = Command(dir: Option<string>, argv: seq<string>)

  /**
   * The messages the operations write. Each carries the values it is made
   * of; `Text` spells out the exact wording.
   */
  datatype Message =
    | ListingEntry(name: string, width: nat, dates: seq<Date>)
    | NotAddable(path: string)
    | NotFound(request: string, version: Option<string>)
    | PruneHeader(archiveName: Option<string>)
    | PruneRemoving(dates: seq<Date>)
    | PruneRemaining(date: Date)

  /**
   * One observable step: `puts` (Say), `warn` (Warn), `abort` (Abort),
   * `system` (Run), or `p` of the command under dry-run (Show).
   */
  datatype Effect = Say(msg: Message) | Warn(msg: Message) | Abort(msg: Message) | Run(cmd: Command) | Show(cmd: Command)

  /** Under dry-run a command is shown instead of run. */
  function Dispatch(c: Command, dryRun: bool): (e: Effect)
    ensures e.Run? || e.Show?
    ensures e.Run? <==> !dryRun
    ensures e.cmd == c
  {
    if dryRun then Show(c) else Run(c)
  }

  /** The effects of a `cmds.each` loop that runs or shows every command, in order. */
  function Dispatched(cs: seq<Command>, dryRun: bool): (es: seq<Effect>)
    ensures |es| == |cs|
  {
    if cs == [] then [] else Dispatched(cs[..|cs| - 1], dryRun) + [Dispatch(cs[|cs| - 1], dryRun)]
  }

  /** Every command is dispatched once, at its own position, and under dry-run none is run. */
  lemma {:induction false} DispatchedSpec(cs: seq<Command>, dryRun: bool)
    ensures forall i :: 0 <= i < |cs| ==> Dispatched(cs, dryRun)[i] == Dispatch(cs[i], dryRun)
    ensures dryRun ==> forall e :: e in Dispatched(cs, dryRun) ==> e.Show?
  {
    if cs != [] {
      var init := cs[..|cs| - 1];
      DispatchedSpec(init, dryRun);
      assert forall i :: 0 <= i < |init| ==> cs[i] == init[i];
    }
  }

  /** How many commands (run or shown) a list of effects holds. */
  function CommandCount(es: seq<Effect>): nat {
    if es == [] then 0
    else CommandCount(es[..|es| - 1]) + (if es[|es| - 1].Run? || es[|es| - 1].Show? then 1 else 0)
  }

  lemma {:induction false} CommandCountAppend(a: seq<Effect>, b: seq<Effect>)
    ensures CommandCount(a + b) == CommandCount(a) + CommandCount(b)
  {
    if b != [] {
      assert (a + b)[..|a + b| - 1] == a + b[..|b| - 1];
      assert (a + b)[|a + b| - 1] == b[|b| - 1];
      CommandCountAppend(a, b[..|b| - 1]);
    } else {
      assert a + b == a;
    }
  }

  /** A list of messages holds no command. */
  lemma {:induction false} MessagesOnly(es: seq<Effect>)
    requires forall e :: e in es ==> e.Say? || e.Warn? || e.Abort?
    ensures CommandCount(es) == 0
  {
    if es != [] {
      assert forall e :: e in es[..|es| - 1] ==> e in es;
      assert es[|es| - 1] in es;
      MessagesOnly(es[..|es| - 1]);
    }
  }

  lemma {:induction false} DispatchedCount(cs: seq<Command>, dryRun: bool)
    ensures CommandCount(Dispatched(cs, dryRun)) == |cs|
  {
    if cs != [] {
      DispatchedCount(cs[..|cs| - 1], dryRun);
    }
  }

  /** `cmds.each { |cmd| dry_run ? p(cmd) : system(*cmd) }`: every command, in order. */
  method DispatchAll(cmds: seq<Command>, dryRun: bool) returns (effects: seq<Effect>)
    ensures effects == Dispatched(cmds, dryRun)
  {
    effects := [];
    for i := 0 to |cmds|
      invariant effects == Dispatched(cmds[..i], dryRun)
    {
      assert cmds[..i + 1][..i] == cmds[..i];
      effects := effects + [Dispatch(cmds[i], dryRun)];
    }
    assert cmds[..|cmds|] == cmds;
  }

  // =====================================================================
  // Text helpers
  // =====================================================================

  /** `Array#join(sep)`. */
  function Join(parts: seq<string>, sep: string): string {
    if parts == [] then ""
    else if |parts| == 1 then parts[0]
    else parts[0] + sep + Join(parts[1..], sep)
  }

  /** `String#ljust(width)`: pad on the right with spaces up to `width` characters. */
  function PadRight(s: string, width: nat): (r: string)
    ensures |r| == if |s| < width then width else |s|
    ensures r[..|s|] == s
    ensures forall i :: |s| <= i < |r| ==> r[i] == ' '
  {
    if |s| < width then s + seq(width - |s|, _ => ' ') else s
  }

  /** Every date of a list written `YYYY-MM-DD`. */
  function FormatAll(ds: seq<Date>): (r: seq<string>)
    ensures |r| == |ds|
    ensures forall i :: 0 <= i < |ds| ==> r[i] == Format(ds[i])
  {
    seq(|ds|, i requires 0 <= i < |ds| => Format(ds[i]))
  }

  function DatesOf(s: seq<Archive>): (ds: seq<Date>)
    ensures |ds| == |s|
    ensures forall i :: 0 <= i < |s| ==> ds[i] == s[i].date
  {
    seq(|s|, i requires 0 <= i < |s| => s[i].date)
  }

  /** `"#{name}"`: a missing name interpolates as the empty string. */
  function NameText(name: Option<string>): string {
    match name case Some(n) => n case None => ""
  }

  /** The line each message writes, word for word. */
  function Text(m: Message): string {
    match m
    case ListingEntry(name, width, ds) => PadRight(name, width) + "\t" + VersionList(ds)
    case NotAddable(path) => "'" + path + "' is not a regular file or directory"
    case NotFound(request, version) =>
      "Archive '" + request + "'"
      + (match version case Some(v) => " of version " + v case None => "")
      + " does not exist"
    case PruneHeader(name) => "Archive '" + NameText(name) + "'"
    case PruneRemoving(ds) => "\tversions that are going to be removed: " + Join(FormatAll(ds), ", ")
    case PruneRemaining(d) => "\tremaining version: " + Format(d)
  }

  // =====================================================================
  // Loading
  // =====================================================================

  /**
   * `BP::Store.new` after the listing has been read and chomped: every line
   * is parsed, in order; one line that does not parse makes the whole load
   * fail, and no archive is skipped.
   */
  function Load(lines: seq<string>): (r: Option<seq<Archive>>)
    ensures r.Some? <==> forall i :: 0 <= i < |lines| ==> Parse(lines[i]).Some?
    ensures r.Some? ==> |r.value| == |lines|
    ensures r.Some? ==> forall i :: 0 <= i < |lines| ==> Parse(lines[i]) == Some(r.value[i])
  {
    if lines == [] then Some([])
    else
      match Parse(lines[0])
      case None => None
      case Some(a) =>
        match Load(lines[1..])
        case None =>
          var k :| 0 <= k < |lines[1..]| && Parse(lines[1..][k]).None?;
          assert Parse(lines[k + 1]).None?;
          None
        case Some(rest) => Some([a] + rest)
  }

  // =====================================================================
  // Grouping by name (`group_by(&:name)`)
  // =====================================================================

  /** The distinct names, in order of first occurrence: the keys of `group_by(&:name)`. */
  function Keys(s: seq<Archive>): (ks: seq<Option<string>>)
    ensures forall i, j :: 0 <= i < j < |ks| ==> ks[i] != ks[j]
    ensures forall a :: a in s ==> a.name in ks
    ensures forall k :: k in ks ==> exists a :: a in s && a.name == k
    ensures (forall a :: a in s ==> a.name.Some?) ==> forall k :: k in ks ==> k.Some?
  {
    if s == [] then []
    else
      var init, a := s[..|s| - 1], s[|s| - 1];
      assert s == init + [a];
      var ks := Keys(init);
      if a.name in ks then ks else ks + [a.name]
  }

  /** The archives of one name, in load order. */
  function Group(s: seq<Archive>, k: Option<string>): (g: seq<Archive>)
    ensures forall a :: a in g <==> a in s && a.name == k
    ensures |g| <= |s|
    ensures (forall a :: a in s ==> a.name != k) ==> g == []
  {
    if s == [] then []
    else
      var init, a := s[..|s| - 1], s[|s| - 1];
      assert s == init + [a];
      Group(init, k) + (if a.name == k then [a] else [])
  }

  lemma GroupOfKey(s: seq<Archive>, k: Option<string>)
    requires k in Keys(s)
    ensures Group(s, k) != []
  {
    var a :| a in s && a.name == k;
    assert a in Group(s, k);
  }

  /** Sum of the group sizes over a list of names. */
  function GroupSizes(s: seq<Archive>, ks: seq<Option<string>>): nat {
    if ks == [] then 0 else GroupSizes(s, ks[..|ks| - 1]) + |Group(s, ks[|ks| - 1])|
  }

  /** Number of times `x` occurs in `ks`. */
  function Occurrences(ks: seq<Option<string>>, x: Option<string>): nat {
    if ks == [] then 0 else Occurrences(ks[..|ks| - 1], x) + (if ks[|ks| - 1] == x then 1 else 0)
  }

  lemma {:induction false} OccurrencesDistinct(ks: seq<Option<string>>, x: Option<string>)
    requires forall i, j :: 0 <= i < j < |ks| ==> ks[i] != ks[j]
    ensures Occurrences(ks, x) == if x in ks then 1 else 0
  {
    if ks != [] {
      var init := ks[..|ks| - 1];
      assert ks == init + [ks[|ks| - 1]];
      OccurrencesDistinct(init, x);
      assert forall i :: 0 <= i < |init| ==> init[i] != ks[|ks| - 1] by {
        forall i | 0 <= i < |init| ensures init[i] != ks[|ks| - 1] {
          assert init[i] == ks[i];
        }
      }
    }
  }

  lemma {:induction false} GroupSizesSnoc(s: seq<Archive>, a: Archive, ks: seq<Option<string>>)
    ensures GroupSizes(s + [a], ks) == GroupSizes(s, ks) + Occurrences(ks, a.name)
  {
    var t := s + [a];
    assert t[..|t| - 1] == s;
    if ks != [] {
      GroupSizesSnoc(s, a, ks[..|ks| - 1]);
    }
  }

  lemma {:induction false} GroupSizesAppendKey(s: seq<Archive>, ks: seq<Option<string>>, k: Option<string>)
    ensures GroupSizes(s, ks + [k]) == GroupSizes(s, ks) + |Group(s, k)|
  {
    assert (ks + [k])[..|ks|] == ks;
  }

  /** The groups partition the archives: their sizes add up to the number of archives. */
  lemma {:induction false} GroupsPartition(s: seq<Archive>)
    ensures GroupSizes(s, Keys(s)) == |s|
  {
    if s != [] {
      var init, a := s[..|s| - 1], s[|s| - 1];
      assert s == init + [a];
      GroupsPartition(init);
      var ks := Keys(init);
      GroupSizesSnoc(init, a, ks);
      OccurrencesDistinct(ks, a.name);
      if a.name !in ks {
        GroupSizesAppendKey(s, ks, a.name);
        GroupSizesSnoc(init, a, ks + [a.name]);
        GroupSizesAppendKey(init, ks, a.name);
        assert Group(init, a.name) == [];
        assert Occurrences(ks + [a.name], a.name) == Occurrences(ks, a.name) + 1 by {
          assert (ks + [a.name])[..|ks|] == ks;
        }
      }
    }
  }

  // =====================================================================
  // print: one line per name, groups ordered by their latest date
  // =====================================================================

  predicate AllNamed(s: seq<Archive>) {
    forall a :: a in s ==> a.name.Some?
  }

  /** The latest date of the group of `k`; the fallback is never used for a key of `s`. */
  function LatestOf(s: seq<Archive>, k: Option<string>): Date {
    var g := Group(s, k);
    if g == [] then Date(0, 0, 0) else Latest(DatesOf(g))
  }

  /** The names in the order `print` lists them: ascending by the latest date of their group. */
  function ListingOrder(s: seq<Archive>): seq<Option<string>> {
    SortBy(Keys(s), k => LatestOf(s, k))
  }

  /** `longest_name.length`: the length of the longest name (0 when there is none). */
  function Width(s: seq<Archive>): (w: nat)
    requires AllNamed(s)
    ensures forall a :: a in s ==> |a.name.value| <= w
    ensures s != [] ==> exists a :: a in s && |a.name.value| == w
  {
    if s == [] then 0
    else
      var init, a := s[..|s| - 1], s[|s| - 1];
      assert s == init + [a];
      var w := Width(init);
      if |a.name.value| > w then |a.name.value| else w
  }

  /** The versions column: the dates ascending, written out and joined with ", ". */
  function VersionList(ds: seq<Date>): string {
    Join(FormatAll(SortBy(ds, d => d)), ", ")
  }

  /** The line of the listing for one name: the name, the common width and the dates of its group. */
  function ListingLine(s: seq<Archive>, k: Option<string>, width: nat): Effect {
    Say(ListingEntry(NameText(k), width, DatesOf(Group(s, k))))
  }

  /** The lines for the names of `order`, in that order. */
  function ListingLines(s: seq<Archive>, order: seq<Option<string>>, width: nat): (lines: seq<Effect>)
    ensures |lines| == |order|
    ensures forall i :: 0 <= i < |order| ==> lines[i] == ListingLine(s, order[i], width)
  {
    seq(|order|, i requires 0 <= i < |order| => ListingLine(s, order[i], width))
  }

  /**
   * What `BP::Store#print` writes. `None` stands for the `NoMethodError`
   * that `max_by(&:length)` raises on a missing name (`nil.length`), before
   * any line is written. On an empty store the widest name is nil too, but
   * the loop that would ask for its length never runs.
   */
  function Listing(s: seq<Archive>): Option<seq<Effect>> {
    if !AllNamed(s) then None
    else Some(ListingLines(s, ListingOrder(s), Width(s)))
  }

  /** The `each` of `print`: one line per name of `order`. */
  method ListEach(s: seq<Archive>, order: seq<Option<string>>, width: nat) returns (lines: seq<Effect>)
    ensures lines == ListingLines(s, order, width)
  {
    lines := [];
    for i := 0 to |order|
      invariant |lines| == i
      invariant forall j :: 0 <= j < i ==> lines[j] == ListingLine(s, order[j], width)
    {
      lines := lines + [ListingLine(s, order[i], width)];
    }
  }

  /** `BP::Store#print`, line by line. */
  method Print(s: seq<Archive>) returns (r: Option<seq<Effect>>)
    ensures r == Listing(s)
  {
    if !AllNamed(s) {
      return None;
    }
    var lines := ListEach(s, ListingOrder(s), Width(s));
    r := Some(lines);
  }

  /**
   * The listing fails exactly when an archive has no name; otherwise it has
   * one line per name, and line `i` is the line of the `i`-th name in listing
   * order. An empty store lists nothing.
   */
  lemma ListingSpec(s: seq<Archive>)
    ensures Listing(s).None? <==> exists a :: a in s && a.name.None?
    ensures Listing(s).Some? ==> |Listing(s).value| == |Keys(s)|
    ensures Listing(s).Some? ==> forall i :: 0 <= i < |Keys(s)| ==>
      var k := ListingOrder(s)[i];
      k.Some? && Listing(s).value[i] == Say(ListingEntry(k.value, Width(s), DatesOf(Group(s, k))))
    ensures s == [] ==> Listing(s) == Some([])
  {
    if AllNamed(s) {
      ListedNamesPresent(s);
    }
  }

  lemma ListedNamesPresent(s: seq<Archive>)
    requires AllNamed(s)
    ensures |ListingOrder(s)| == |Keys(s)|
    ensures forall k :: k in ListingOrder(s) ==> k.Some?
  {
    forall k | k in ListingOrder(s) ensures k.Some? {
      assert k in multiset(Keys(s));
    }
  }

  /** A list whose multiset equals that of a list without repeats has no repeats either. */
  lemma NoRepeatsByMultiset<T>(a: seq<T>, b: seq<T>)
    requires multiset(a) == multiset(b)
    requires forall i, j :: 0 <= i < j < |b| ==> b[i] != b[j]
    ensures forall i, j :: 0 <= i < j < |a| ==> a[i] != a[j]
  {
    forall i, j | 0 <= i < j < |a| ensures a[i] != a[j] {
      var x := a[i];
      AtMostOnce(b, x);
      assert a == a[..j] + a[j..];
      assert x in a[..j];
      assert a[j..][0] == a[j];
      assert multiset(a[j..])[a[j]] >= 1;
    }
  }

  lemma {:induction false} AtMostOnce<T>(b: seq<T>, x: T)
    requires forall i, j :: 0 <= i < j < |b| ==> b[i] != b[j]
    ensures multiset(b)[x] <= 1
  {
    if b != [] {
      assert b == [b[0]] + b[1..];
      AtMostOnce(b[1..], x);
      assert forall k :: 0 <= k < |b[1..]| ==> b[1..][k] != b[0] by {
        forall k | 0 <= k < |b[1..]| ensures b[1..][k] != b[0] {
          assert b[1..][k] == b[k + 1];
        }
      }
    }
  }

  /**
   * The listing names every name exactly once, and the groups come in
   * non-decreasing order of their latest date, which is a date of the group
   * no date of the group is after. An empty store lists nothing.
   */
  lemma ListingOrderSpec(s: seq<Archive>)
    ensures var order := ListingOrder(s);
      && multiset(order) == multiset(Keys(s))
      && (forall i, j :: 0 <= i < j < |order| ==> order[i] != order[j])
      && (forall a :: a in s ==> a.name in order)
      && (forall i, j :: 0 <= i < j < |order| ==> LessEq(LatestOf(s, order[i]), LatestOf(s, order[j])))
      && (forall i :: 0 <= i < |order| ==>
            var ds := DatesOf(Group(s, order[i]));
            LatestOf(s, order[i]) in ds && forall d :: d in ds ==> LessEq(d, LatestOf(s, order[i])))
      && (s == [] ==> order == [])
  {
    var order := ListingOrder(s);
    NoRepeatsByMultiset(order, Keys(s));
    forall a | a in s ensures a.name in order {
      assert a.name in multiset(Keys(s));
    }
    forall i | 0 <= i < |order|
      ensures var ds := DatesOf(Group(s, order[i]));
        LatestOf(s, order[i]) in ds && forall d :: d in ds ==> LessEq(d, LatestOf(s, order[i]))
    {
      assert order[i] in multiset(Keys(s));
      GroupOfKey(s, order[i]);
    }
  }

  /**
   * Every listing line puts its name, padded with spaces to the width of the
   * longest name, before a tab; what follows the tab is the versions column.
   * So all tabs stand in one column.
   */
  lemma ListingLineLayout(s: seq<Archive>, a: Archive)
    requires AllNamed(s) && a in s
    ensures var line := Text(ListingEntry(a.name.value, Width(s), DatesOf(Group(s, a.name))));
      && |line| > Width(s)
      && line[..|a.name.value|] == a.name.value
      && (forall i :: |a.name.value| <= i < Width(s) ==> line[i] == ' ')
      && line[Width(s)] == '\t'
      && line[Width(s) + 1..] == VersionList(DatesOf(Group(s, a.name)))
  {
    PaddedColumn(a.name.value, Width(s), VersionList(DatesOf(Group(s, a.name))));
  }

  /** A name padded to `w`, a tab, then `v`: the tab stands in column `w`. */
  lemma PaddedColumn(n: string, w: nat, v: string)
    requires |n| <= w
    ensures var line := PadRight(n, w) + "\t" + v;
      && |line| > w
      && line[..|n|] == n
      && (forall i :: |n| <= i < w ==> line[i] == ' ')
      && line[w] == '\t'
      && line[w + 1..] == v
  {
    var p := PadRight(n, w);
    var line := p + "\t" + v;
    assert line[..|n|] == p[..|n|];
    assert line[w + 1..] == v;
  }

  /** The versions column lists the group's dates in ascending order, each as often as it occurs. */
  lemma VersionListSorted(ds: seq<Date>)
    ensures exists sorted: seq<Date> ::
      && multiset(sorted) == multiset(ds)
      && (forall i, j :: 0 <= i < j < |sorted| ==> LessEq(sorted[i], sorted[j]))
      && VersionList(ds) == Join(FormatAll(sorted), ", ")
  {
    var sorted := SortBy(ds, d => d);
    assert forall i, j :: 0 <= i < j < |sorted| ==> LessEq(sorted[i], sorted[j]);
  }

  // =====================================================================
  // add: one create command per path, after every path has been checked
  // =====================================================================

  datatype Kind = RegularFile | Directory | Other

  /** A path as given on the command line, its `File.expand_path`, and what the filesystem says it is. */
  datatype Target = Target(given: string, path: string, kind: Kind)

  /** Index of the last `/` in a path. */
  function LastSlash(p: string): (r: Option<nat>)
    ensures r.None? <==> '/' !in p
    ensures r.Some? ==> r.value < |p| && p[r.value] == '/' && '/' !in p[r.value + 1..]
  {
    if p == [] then None
    else if p[|p| - 1] == '/' then Some(|p| - 1)
    else
      var r := LastSlash(p[..|p| - 1]);
      assert p == p[..|p| - 1] + [p[|p| - 1]];
      if r.Some? then
        assert p[r.value + 1..] == p[..|p| - 1][r.value + 1..] + [p[|p| - 1]];
        r
      else r
  }

  /** What follows the last `/`: the last component of a path that does not end in `/`. */
  function LastComponent(p: string): string {
    match LastSlash(p)
    case None => p
    case Some(i) => p[i + 1..]
  }

  /** The path without its trailing slashes. */
  function TrimSlashes(p: string): (q: string)
    ensures q <= p
    ensures q == [] || q[|q| - 1] != '/'
    ensures forall i :: |q| <= i < |p| ==> p[i] == '/'
  {
    if p != [] && p[|p| - 1] == '/' then TrimSlashes(p[..|p| - 1]) else p
  }

  /**
   * `File.basename`: the last component once trailing slashes are ignored,
   * `/` for a path made of slashes only, and "" for "".
   */
  function Basename(p: string): (b: string)
    ensures b == "/" || '/' !in b
    ensures b == [] <==> p == []
    ensures p == [] || p[|p| - 1] != '/' ==> b == LastComponent(p)
  {
    var q := TrimSlashes(p);
    if q == [] then (if p == [] then [] else "/")
    else
      assert q[|q| - 1] != '/';
      LastComponent(q)
  }

  /** A trailing slash, as shell completion leaves after a directory, does not change the base name. */
  lemma TrailingSlashIgnored(p: string)
    requires p != []
    ensures Basename(p + "/") == Basename(p)
  {
    assert (p + "/")[..|p|] == p;
  }

  /**
   * `File.dirname` of a path that does not end in `/`: what precedes the
   * last `/` (`/` for a top-level path, `.` without a slash).
   */
  function Dirname(p: string): string {
    match LastSlash(p)
    case None => "."
    case Some(i) => if i == 0 then "/" else p[..i]
  }

  /** The last component holds no `/`, and directory, `/` and last component give back the path. */
  lemma ComponentSplit(p: string)
    requires '/' in p
    ensures '/' !in LastComponent(p)
    ensures LastSlash(p).value == 0 ==> Dirname(p) == "/" && p == "/" + LastComponent(p)
    ensures LastSlash(p).value > 0 ==> p == Dirname(p) + "/" + LastComponent(p)
  {
    var i := LastSlash(p).value;
    assert p == p[..i] + "/" + p[i + 1..];
  }

  /** The base name holds no `/`, and directory, `/` and base name put back together give the path. */
  lemma PathSplit(p: string)
    requires '/' in p && p[|p| - 1] != '/'
    ensures '/' !in Basename(p)
    ensures LastSlash(p).value == 0 ==> Dirname(p) == "/" && p == "/" + Basename(p)
    ensures LastSlash(p).value > 0 ==> p == Dirname(p) + "/" + Basename(p)
  {
    ComponentSplit(p);
  }

  /** A path without any `/` is its own base name. */
  lemma BasenameOfComponent(p: string)
    requires p != [] && '/' !in p
    ensures Basename(p) == p
  {
  }

  /** `gsub('-', '_')`. */
  function Sanitize(s: string): (r: string)
    ensures |r| == |s|
    ensures forall i :: 0 <= i < |s| ==> r[i] == (if s[i] == '-' then '_' else s[i])
    ensures '-' !in r
  {
    if s == [] then []
    else [if s[0] == '-' then '_' else s[0]] + Sanitize(s[1..])
  }

  /** Sanitizing twice changes nothing more, and only dashes are touched. */
  lemma SanitizeSpec(s: string)
    ensures Sanitize(Sanitize(s)) == Sanitize(s)
    ensures '-' !in s ==> Sanitize(s) == s
    ensures '\n' !in s ==> '\n' !in Sanitize(s)
  {
    if '\n' !in s {
      assert forall i :: 0 <= i < |s| ==> Sanitize(s)[i] != '\n';
    }
  }

  /** The archive name `add` gives a path: today's date, `_`, the sanitized base name. */
  function NewArchiveName(path: string, today: Date): string {
    Format(today) + "_" + Sanitize(Basename(path))
  }

  /** The create command for one path: run in its directory, naming only its base name. */
  function CreateCommand(path: string, today: Date): Command {
    Command(Some(Dirname(path)), ["tarsnap", "-c", "-f", NewArchiveName(path, today), Basename(path)])
  }

  /**
   * The create command names the path relative to the directory it runs in:
   * that directory, a `/` and the named base name give back the path (the
   * root directory `/` for a top-level path such as `/etc`). It creates the
   * archive named after the base name.
   */
  lemma CreateCommandSpec(path: string, today: Date)
    requires '/' in path && path[|path| - 1] != '/'
    ensures var c := CreateCommand(path, today);
      && c.dir.Some? && |c.argv| == 5
      && c.argv[..3] == ["tarsnap", "-c", "-f"]
      && c.argv[3] == Format(today) + "_" + Sanitize(c.argv[4])
    ensures var c := CreateCommand(path, today);
      LastSlash(path).value == 0 ==> c.dir == Some("/") && path == "/" + c.argv[4]
    ensures var c := CreateCommand(path, today);
      LastSlash(path).value > 0 ==> c.dir.value + "/" + c.argv[4] == path
  {
    PathSplit(path);
  }

  /** A top-level path such as `/etc` is archived from the root directory under its own name. */
  lemma CreateCommandTopLevel(base: string, today: Date)
    requires base != [] && '/' !in base
    ensures CreateCommand("/" + base, today)
      == Command(Some("/"), ["tarsnap", "-c", "-f", Format(today) + "_" + Sanitize(base), base])
  {
    assert "/" + base == "" + "/" + base;
    LastSlashTopLevel(base);
    BasenameAfterSlash("", base);
  }

  /** `targets[i]` is the first path that is neither a regular file nor a directory. */
  predicate FirstInvalid(targets: seq<Target>, i: int) {
    0 <= i < |targets| && targets[i].kind == Other && forall j :: 0 <= j < i ==> targets[j].kind != Other
  }

  /** Where the check of `self.add` stops: the first path that is neither a regular file nor a directory. */
  function FirstOther(targets: seq<Target>): (r: Option<nat>)
    ensures r.None? <==> forall i :: 0 <= i < |targets| ==> targets[i].kind != Other
    ensures r.Some? ==> FirstInvalid(targets, r.value)
  {
    if targets == [] then None
    else if targets[0].kind == Other then Some(0)
    else
      assert forall j :: 1 <= j < |targets| ==> targets[j] == targets[1..][j - 1];
      match FirstOther(targets[1..])
      case None => None
      case Some(i) => Some(i + 1)
  }

  /** The create command of every path, in the order given. */
  function CreateCommands(targets: seq<Target>, today: Date): (cs: seq<Command>)
    ensures |cs| == |targets|
    ensures forall i :: 0 <= i < |targets| ==> cs[i] == CreateCommand(targets[i].path, today)
  {
    seq(|targets|, i requires 0 <= i < |targets| => CreateCommand(targets[i].path, today))
  }

  /**
   * The `map` of `self.add`: every path is checked before anything runs; the
   * first path that is neither a regular file nor a directory aborts the
   * whole operation, and the failure carries that (expanded) path.
   */
  function AddPlan(targets: seq<Target>, today: Date): (r: Result<seq<Command>, string>)
    ensures r.Failure? <==> exists i :: 0 <= i < |targets| && targets[i].kind == Other
    ensures r.Failure? ==> exists i :: FirstInvalid(targets, i) && r.error == targets[i].path
    ensures r.Success? ==> r.value == CreateCommands(targets, today)
  {
    match FirstOther(targets)
    case Some(i) => Failure(targets[i].path)
    case None => Success(CreateCommands(targets, today))
  }

  function GivenPaths(targets: seq<Target>): (r: seq<string>)
    ensures |r| == |targets| && forall i :: 0 <= i < |targets| ==> r[i] == targets[i].given
  {
    seq(|targets|, i requires 0 <= i < |targets| => targets[i].given)
  }

  function ExpandedPaths(targets: seq<Target>): (r: seq<string>)
    ensures |r| == |targets| && forall i :: 0 <= i < |targets| ==> r[i] == targets[i].path
  {
    seq(|targets|, i requires 0 <= i < |targets| => targets[i].path)
  }

  /** The paths whose base names scope the pruning that follows `add`: the paths as given. */
  function AddPruneScope(targets: seq<Target>): seq<string> {
    GivenPaths(targets)
  }

  /** The evidently intended scope: the expanded paths, whose base names the new archives carry. */
  function IntendedPruneScope(targets: seq<Target>): seq<string> {
    ExpandedPaths(targets)
  }

  /**
   * Validate every path, then run (or show, under dry-run) one create
   * command per path, each in that path's directory; then, when `dropOld` is
   * set, prune the freshly listed archives `reloaded` with the name filter
   * built from `scope`. An invalid path aborts before any command.
   */
  function AddEffectsWith(targets: seq<Target>, today: Date, dryRun: bool, dropOld: bool, reloaded: seq<Archive>, scope: seq<string>): seq<Effect> {
    match AddPlan(targets, today)
    case Failure(path) => [Abort(NotAddable(path))]
    case Success(cmds) =>
      Dispatched(cmds, dryRun)
      + (if dropOld then PruneEffects(PrunePlan(reloaded, NameFilter(scope)), dryRun) else [])
  }

  /** What `BP::Store.add` does: the pruning is scoped by the paths as given. */
  function AddEffects(targets: seq<Target>, today: Date, dryRun: bool, dropOld: bool, reloaded: seq<Archive>): seq<Effect> {
    AddEffectsWith(targets, today, dryRun, dropOld, reloaded, AddPruneScope(targets))
  }

  /** `add` with the pruning scoped by the expanded paths, the names the new archives carry. */
  function AddEffectsIntended(targets: seq<Target>, today: Date, dryRun: bool, dropOld: bool, reloaded: seq<Archive>): seq<Effect> {
    AddEffectsWith(targets, today, dryRun, dropOld, reloaded, IntendedPruneScope(targets))
  }

  /** `BP::Store.add`, step by step. */
  method Add(targets: seq<Target>, today: Date, dryRun: bool, dropOld: bool, reloaded: seq<Archive>)
    returns (effects: seq<Effect>)
    ensures effects == AddEffects(targets, today, dryRun, dropOld, reloaded)
  {
    var plan := AddPlan(targets, today);
    if plan.Failure? {
      effects := [Abort(NotAddable(plan.error))];
      return;
    }
    effects := DispatchAll(plan.value, dryRun);
    if dropOld {
      var pruning := DropOld(reloaded, AddPruneScope(targets), dryRun);
      effects := effects + pruning;
    }
  }

  /**
   * An invalid path makes `add` abort with that path's message and run
   * nothing, not even the pruning; otherwise it issues one create command per
   * path, then one drop command per archive the pruning (scoped by the paths
   * as given) drops. Under dry-run nothing is run.
   */
  lemma AddSpec(targets: seq<Target>, today: Date, dryRun: bool, dropOld: bool, reloaded: seq<Archive>)
    ensures var effects := AddEffects(targets, today, dryRun, dropOld, reloaded);
      (exists i :: 0 <= i < |targets| && targets[i].kind == Other) ==>
        exists i :: FirstInvalid(targets, i) && effects == [Abort(NotAddable(targets[i].path))]
    ensures var effects := AddEffects(targets, today, dryRun, dropOld, reloaded);
      (forall i :: 0 <= i < |targets| ==> targets[i].kind != Other) ==>
        CommandCount(effects)
        == |targets| + (if dropOld then DroppedCount(PrunePlan(reloaded, NameFilter(GivenPaths(targets)))) else 0)
    ensures dryRun ==> forall e :: e in AddEffects(targets, today, dryRun, dropOld, reloaded) ==> !e.Run?
  {
    var plan := AddPlan(targets, today);
    var filter := NameFilter(GivenPaths(targets));
    if plan.Success? {
      var pruning := PruneEffects(PrunePlan(reloaded, filter), dryRun);
      DispatchedCount(plan.value, dryRun);
      DispatchedSpec(plan.value, dryRun);
      PruneEffectsCommands(PrunePlan(reloaded, filter), dryRun);
      CommandCountAppend(Dispatched(plan.value, dryRun), if dropOld then pruning else []);
      if !dropOld {
        assert CommandCount([]) == 0;
      }
    }
  }

  /**
   * The name `add` creates reparses, with the archive parser, to today's
   * date and the sanitized base name.
   */
  lemma NewArchiveReparses(path: string, today: Date)
    requires Valid(today) && today.year < 10000
    requires Basename(path) != [] && '\n' !in Basename(path)
    ensures Parse(NewArchiveName(path, today))
      == Some(Archive(NewArchiveName(path, today), today, Some(Sanitize(Basename(path)))))
  {
    SanitizeSpec(Basename(path));
    ParseFormatted(today, Sanitize(Basename(path)));
  }

  /** With the intended scope, an archive named after one of the added paths is inside the filter. */
  lemma AddedNamesInPruneScope(targets: seq<Target>, i: nat, a: Archive)
    requires i < |targets|
    requires a.name == Some(Sanitize(Basename(targets[i].path)))
    ensures InScope(a, NameFilter(IntendedPruneScope(targets)))
  {
    assert NameFilter(IntendedPruneScope(targets))[i] == a.name.value;
  }

  /** Appending an archive extends its own group only. */
  lemma GroupSnoc(s: seq<Archive>, a: Archive, k: Option<string>)
    ensures Group(s + [a], k) == Group(s, k) + (if a.name == k then [a] else [])
  {
    assert (s + [a])[..|s|] == s;
  }

  /** Filtering by a scope that holds every archive of a name leaves that name's group whole. */
  lemma {:induction false} GroupOfScoped(s: seq<Archive>, filter: seq<string>, k: Option<string>)
    requires forall a :: a in s && a.name == k ==> InScope(a, filter)
    ensures Group(Scoped(s, filter), k) == Group(s, k)
  {
    if s != [] {
      var init, a := s[..|s| - 1], s[|s| - 1];
      assert s == init + [a];
      GroupOfScoped(init, filter, k);
      GroupSnoc(init, a, k);
      if InScope(a, filter) {
        assert Scoped(s, filter) == Scoped(init, filter) + [a];
        GroupSnoc(Scoped(init, filter), a, k);
      } else {
        assert Scoped(s, filter) == Scoped(init, filter);
        assert a.name != k;
      }
    }
  }

  /** A scope that selects none of the archives leaves nothing. */
  lemma {:induction false} ScopedNone(s: seq<Archive>, filter: seq<string>)
    requires forall a :: a in s ==> !InScope(a, filter)
    ensures Scoped(s, filter) == []
  {
    if s != [] {
      var init := s[..|s| - 1];
      assert s == init + [s[|s| - 1]];
      ScopedNone(init, filter);
    }
  }

  /**
   * With the intended scope, the pruning after `add --drop-old` reaches every
   * name just created: each such name with two or more archives in the
   * relisted store is pruned down to its newest archive.
   */
  lemma IntendedAddPrunesAddedNames(targets: seq<Target>, i: nat, reloaded: seq<Archive>)
    requires i < |targets|
    ensures var k := Some(Sanitize(Basename(targets[i].path)));
      |Group(reloaded, k)| >= 2 ==>
        exists p :: p in PrunePlan(reloaded, NameFilter(IntendedPruneScope(targets))) && p.name == k
  {
    var k := Some(Sanitize(Basename(targets[i].path)));
    var filter := NameFilter(IntendedPruneScope(targets));
    if |Group(reloaded, k)| >= 2 {
      forall a | a in reloaded && a.name == k ensures InScope(a, filter) {
        AddedNamesInPruneScope(targets, i, a);
      }
      GroupOfScoped(reloaded, filter, k);
      var scoped := Scoped(reloaded, filter);
      assert Group(scoped, k)[0] in scoped;
      PrunePlanSpec(reloaded, filter);
    }
  }

  /** When every given path has the base name of its expansion, `add` already behaves as intended. */
  lemma AddAsIntendedWhenBasenamesAgree(targets: seq<Target>, today: Date, dryRun: bool, dropOld: bool, reloaded: seq<Archive>)
    requires forall i :: 0 <= i < |targets| ==> Basename(targets[i].given) == Basename(targets[i].path)
    ensures AddEffects(targets, today, dryRun, dropOld, reloaded) == AddEffectsIntended(targets, today, dryRun, dropOld, reloaded)
  {
    assert NameFilter(AddPruneScope(targets)) == NameFilter(IntendedPruneScope(targets));
  }

  /** A top-level path has its only `/` at the front. */
  lemma LastSlashTopLevel(base: string)
    requires '/' !in base
    ensures LastSlash("/" + base) == Some(0)
  {
    var p := "/" + base;
    forall j | 0 < j < |p| ensures p[j] != '/' {
      assert p[j] == base[j - 1];
    }
  }

  /** A path whose last component is non-empty and holds no `/` has that component as its base name. */
  lemma BasenameAfterSlash(dir: string, base: string)
    requires base != [] && '/' !in base
    ensures Basename(dir + "/" + base) == base
  {
    var p := dir + "/" + base;
    assert p[|p| - 1] == base[|base| - 1];
    var i := LastSlash(p).value;
    assert p[|dir|] == '/';
    assert forall j :: i < j < |p| ==> p[j] != '/' by {
      forall j | i < j < |p| ensures p[j] != '/' {
        assert p[j] == p[i + 1..][j - i - 1];
      }
    }
    assert forall j :: |dir| < j < |p| ==> p[j] != '/' by {
      forall j | |dir| < j < |p| ensures p[j] != '/' {
        assert p[j] == base[j - |dir| - 1];
      }
    }
    assert i == |dir|;
    assert p[|dir| + 1..] == base;
  }

  /**
   * The source's scope misses the new archive when a path is given as `.`:
   * the filter holds `.`, while the archive is named after the base name of
   * the directory `.` expands to.
   */
  lemma DotPathEscapesPruneAsWritten(t: Target, a: Archive)
    requires t.given == "."
    requires a.name == Some(Sanitize(Basename(t.path)))
    requires Sanitize(Basename(t.path)) != "."
    ensures InScope(a, NameFilter(IntendedPruneScope([t])))
    ensures !InScope(a, NameFilter(AddPruneScope([t])))
  {
    assert AddPruneScope([t]) == ["."];
    assert Basename(".") == ".";
    SanitizeSpec(".");
    assert NameFilter(["."]) == ["."];
    assert NameFilter(IntendedPruneScope([t]))[0] == a.name.value;
  }

  /** `add --drop-old .` prunes nothing at all unless some archive is literally named `.`. */
  lemma DotPathPrunesNothing(t: Target, reloaded: seq<Archive>)
    requires t.given == "."
    requires forall a :: a in reloaded ==> a.name != Some(".")
    ensures PrunePlan(reloaded, NameFilter(AddPruneScope([t]))) == []
  {
    assert Basename(".") == ".";
    SanitizeSpec(".");
    var filter := NameFilter(AddPruneScope([t]));
    assert filter == ["."];
    ScopedNone(reloaded, filter);
    assert Keys([]) == [];
  }

  /** `.` run from `/home/user/notes` names the archive `notes`, so the as-written scope misses it. */
  lemma DotPathExample()
    ensures Sanitize(Basename("/home/user/notes")) == "notes"
  {
    assert "/home/user/notes" == "/home/user" + "/" + "notes";
    BasenameAfterSlash("/home/user", "notes");
    SanitizeSpec("notes");
  }

  /** The name filter the source builds for prune: every path's base name, sanitized. */
  function NameFilter(files: seq<string>): (f: seq<string>)
    ensures |f| == |files| && forall i :: 0 <= i < |files| ==> f[i] == Sanitize(Basename(files[i]))
  {
    seq(|files|, i requires 0 <= i < |files| => Sanitize(Basename(files[i])))
  }

  /**
   * A directory given with a trailing slash, as shell completion leaves it
   * (`notes/`), scopes the pruning to its name (`notes`).
   */
  lemma NameFilterTrailingSlash(name: string)
    requires name != [] && '/' !in name
    ensures NameFilter([name + "/"]) == [Sanitize(name)]
  {
    TrailingSlashIgnored(name);
    BasenameOfComponent(name);
  }

  // =====================================================================
  // get: one extract command per request that resolves
  // =====================================================================

  predicate HasVersion(a: Archive, name: string, version: string) {
    a.name == Some(name) && Format(a.date) == version
  }

  /** `s[i]` is the first archive of `s` with that name and that formatted date. */
  predicate FirstWithVersion(s: seq<Archive>, i: int, name: string, version: string) {
    0 <= i < |s| && HasVersion(s[i], name, version) && forall j :: 0 <= j < i ==> !HasVersion(s[j], name, version)
  }

  /** `versions.find { ... }`: the first archive, in load order, of that name and that formatted date. */
  function FindVersion(s: seq<Archive>, name: string, version: string): Option<Archive> {
    if s == [] then None
    else if HasVersion(s[0], name, version) then Some(s[0])
    else FindVersion(s[1..], name, version)
  }

  /** The find contract: nothing exactly when no archive matches, otherwise the first match. */
  lemma {:induction false} FindVersionSpec(s: seq<Archive>, name: string, version: string)
    ensures FindVersion(s, name, version).None? <==> forall i :: 0 <= i < |s| ==> !HasVersion(s[i], name, version)
    ensures FindVersion(s, name, version).Some? ==>
      exists i :: FirstWithVersion(s, i, name, version) && s[i] == FindVersion(s, name, version).value
  {
    if s != [] && !HasVersion(s[0], name, version) {
      FindVersionSpec(s[1..], name, version);
      assert forall i :: 1 <= i < |s| ==> s[i] == s[1..][i - 1];
      var r := FindVersion(s[1..], name, version);
      if r.Some? {
        var i :| FirstWithVersion(s[1..], i, name, version) && s[1..][i] == r.value;
        assert FirstWithVersion(s, i + 1, name, version);
      }
    }
  }

  /** `max_by(&:date)`: an archive of the list that no other archive of the list is newer than. */
  function Newest(vs: seq<Archive>): (a: Archive)
    requires vs != []
    ensures a in vs
    ensures forall b :: b in vs ==> LessEq(b.date, a.date)
  {
    if |vs| == 1 then vs[0]
    else
      var rest := Newest(vs[1..]);
      assert vs == [vs[0]] + vs[1..];
      if Before(vs[0].date, rest.date) then rest else vs[0]
  }

  /** The archive `get` picks for one requested name: the exact version, or the newest. */
  function Select(s: seq<Archive>, name: string, version: Option<string>): Option<Archive> {
    match version
    case Some(v) => FindVersion(s, name, v)
    case None =>
      var vs := Group(s, Some(name));
      if vs == [] then None else Some(Newest(vs))
  }

  /**
   * What `get` selects: nothing exactly when no archive of that name (and
   * of that version, when one is asked for) exists; otherwise an archive of
   * that name which is either the first in load order with the asked-for
   * version or one that no archive of that name is newer than.
   */
  lemma SelectSpec(s: seq<Archive>, name: string, version: Option<string>)
    ensures version.None? ==>
      (Select(s, name, version).None? <==> forall a :: a in s ==> a.name != Some(name))
    ensures version.Some? ==>
      (Select(s, name, version).None? <==> forall a :: a in s ==> !HasVersion(a, name, version.value))
    ensures Select(s, name, version).Some? ==>
      var a := Select(s, name, version).value; a in s && a.name == Some(name)
    ensures Select(s, name, version).Some? && version.None? ==>
      forall b :: b in s && b.name == Some(name) ==> LessEq(b.date, Select(s, name, version).value.date)
    ensures Select(s, name, version).Some? && version.Some? ==>
      exists i :: FirstWithVersion(s, i, name, version.value) && s[i] == Select(s, name, version).value
  {
    if version.None? {
      var vs := Group(s, Some(name));
      if vs != [] {
        assert vs[0] in vs;
      }
    } else {
      FindVersionSpec(s, name, version.value);
      if Select(s, name, version).None? {
        forall a | a in s ensures !HasVersion(a, name, version.value) {
          var i :| 0 <= i < |s| && s[i] == a;
        }
      }
    }
  }

  /** `options[:get].map { ... }`: the selection of every request, in request order. */
  function Selections(s: seq<Archive>, requests: seq<string>, version: Option<string>): (sel: seq<Option<Archive>>)
    ensures |sel| == |requests|
  {
    if requests == [] then []
    else Selections(s, requests[..|requests| - 1], version) + [Select(s, requests[|requests| - 1], version)]
  }

  /** `.compact`: the selected archives, in order, without the misses. */
  function Compact(sel: seq<Option<Archive>>): (r: seq<Archive>)
    ensures |r| <= |sel|
  {
    if sel == [] then []
    else Compact(sel[..|sel| - 1]) + (match sel[|sel| - 1] case Some(a) => [a] case None => [])
  }

  /** The `warn` of every request whose selection is nil, in request order. */
  function MissingWarnings(requests: seq<string>, sel: seq<Option<Archive>>, version: Option<string>): (w: seq<Effect>)
    requires |sel| == |requests|
  {
    if sel == [] then []
    else
      var n := |sel| - 1;
      MissingWarnings(requests[..n], sel[..n], version)
      + (if sel[n].None? then [Warn(NotFound(requests[n], version))] else [])
  }

  /** The archives `get` extracts, in request order. */
  function Resolved(s: seq<Archive>, requests: seq<string>, version: Option<string>): seq<Archive> {
    Compact(Selections(s, requests, version))
  }

  /** The warnings `get` writes, in request order. */
  function Warnings(s: seq<Archive>, requests: seq<string>, version: Option<string>): seq<Effect> {
    MissingWarnings(requests, Selections(s, requests, version), version)
  }

  function ExtractCommands(archives: seq<Archive>): (cs: seq<Command>)
    ensures |cs| == |archives|
    ensures forall i :: 0 <= i < |archives| ==> cs[i] == Command(None, ExtractCmd(archives[i]))
  {
    seq(|archives|, i requires 0 <= i < |archives| => Command(None, ExtractCmd(archives[i])))
  }

  /** Each request gets its own selection, at its own position. */
  lemma {:induction false} SelectionsSpec(s: seq<Archive>, requests: seq<string>, version: Option<string>)
    ensures forall i :: 0 <= i < |requests| ==> Selections(s, requests, version)[i] == Select(s, requests[i], version)
  {
    if requests != [] {
      var init := requests[..|requests| - 1];
      SelectionsSpec(s, init, version);
      var sel := Selections(s, requests, version);
      assert sel == Selections(s, init, version) + [Select(s, requests[|requests| - 1], version)];
      forall i | 0 <= i < |init| ensures sel[i] == Select(s, requests[i], version) {
        assert requests[i] == init[i];
      }
    }
  }

  lemma {:induction false} SelectionsAppend(s: seq<Archive>, r1: seq<string>, r2: seq<string>, version: Option<string>)
    ensures Selections(s, r1 + r2, version) == Selections(s, r1, version) + Selections(s, r2, version)
  {
    if r2 == [] {
      assert r1 + r2 == r1;
    } else {
      var init := r2[..|r2| - 1];
      assert (r1 + r2)[..|r1 + r2| - 1] == r1 + init;
      assert (r1 + r2)[|r1 + r2| - 1] == r2[|r2| - 1];
      SelectionsAppend(s, r1, init, version);
    }
  }

  lemma {:induction false} CompactAppend(a: seq<Option<Archive>>, b: seq<Option<Archive>>)
    ensures Compact(a + b) == Compact(a) + Compact(b)
  {
    if b == [] {
      assert a + b == a;
    } else {
      assert (a + b)[..|a + b| - 1] == a + b[..|b| - 1];
      assert (a + b)[|a + b| - 1] == b[|b| - 1];
      CompactAppend(a, b[..|b| - 1]);
    }
  }

  lemma {:induction false} MissingWarningsAppend(ra: seq<string>, a: seq<Option<Archive>>, rb: seq<string>, b: seq<Option<Archive>>, version: Option<string>)
    requires |ra| == |a| && |rb| == |b|
    ensures MissingWarnings(ra + rb, a + b, version) == MissingWarnings(ra, a, version) + MissingWarnings(rb, b, version)
  {
    if b == [] {
      assert a + b == a && ra + rb == ra;
    } else {
      var n := |b| - 1;
      var tail := if b[n].None? then [Warn(NotFound(rb[n], version))] else [];
      assert (a + b)[..|a + b| - 1] == a + b[..n];
      assert (ra + rb)[..|a + b| - 1] == ra + rb[..n];
      assert (a + b)[|a + b| - 1] == b[n] && (ra + rb)[|a + b| - 1] == rb[n];
      calc {
        MissingWarnings(ra + rb, a + b, version);
        MissingWarnings(ra + rb[..n], a + b[..n], version) + tail;
        { MissingWarningsAppend(ra, a, rb[..n], b[..n], version); }
        MissingWarnings(ra, a, version) + MissingWarnings(rb[..n], b[..n], version) + tail;
        MissingWarnings(ra, a, version) + MissingWarnings(rb, b, version);
      }
    }
  }

  /** One warning per miss and one archive per hit; nothing but warnings. */
  lemma {:induction false} MissingWarningsSpec(requests: seq<string>, sel: seq<Option<Archive>>, version: Option<string>)
    requires |sel| == |requests|
    ensures |MissingWarnings(requests, sel, version)| + |Compact(sel)| == |sel|
    ensures forall e :: e in MissingWarnings(requests, sel, version) ==> e.Warn?
  {
    if sel != [] {
      var n := |sel| - 1;
      MissingWarningsSpec(requests[..n], sel[..n], version);
    }
  }

  /** Requests are served independently and in order: concatenating requests concatenates what they give. */
  lemma ResolvedAppend(s: seq<Archive>, r1: seq<string>, r2: seq<string>, version: Option<string>)
    ensures Resolved(s, r1 + r2, version) == Resolved(s, r1, version) + Resolved(s, r2, version)
    ensures Warnings(s, r1 + r2, version) == Warnings(s, r1, version) + Warnings(s, r2, version)
  {
    SelectionsAppend(s, r1, r2, version);
    CompactAppend(Selections(s, r1, version), Selections(s, r2, version));
    MissingWarningsAppend(r1, Selections(s, r1, version), r2, Selections(s, r2, version), version);
  }

  /**
   * One request gives the archive it selects and no warning, or, when it
   * selects nothing, no archive and the warning that names the request
   * (and the version asked for).
   */
  lemma ResolvedSingle(s: seq<Archive>, name: string, version: Option<string>)
    ensures Resolved(s, [name], version) == (match Select(s, name, version) case Some(a) => [a] case None => [])
    ensures Warnings(s, [name], version)
      == (if Select(s, name, version).None? then [Warn(NotFound(name, version))] else [])
  {
    var x := Select(s, name, version);
    assert [name][..0] == [];
    assert Selections(s, [name], version) == [x];
    assert [x][..0] == [];
    assert Compact([x]) == Compact([]) + (match x case Some(a) => [a] case None => []);
    assert MissingWarnings([name], [x], version)
      == MissingWarnings([], [], version) + (if x.None? then [Warn(NotFound(name, version))] else []);
  }

  /**
   * A request that matches nothing adds one warning and no command, and the
   * requests around it are served as if it were not there.
   */
  lemma MissingRequestSkipped(s: seq<Archive>, r1: seq<string>, name: string, r2: seq<string>, version: Option<string>)
    requires Select(s, name, version).None?
    ensures Resolved(s, r1 + [name] + r2, version) == Resolved(s, r1, version) + Resolved(s, r2, version)
    ensures Warnings(s, r1 + [name] + r2, version)
      == Warnings(s, r1, version) + [Warn(NotFound(name, version))] + Warnings(s, r2, version)
  {
    ResolvedAppend(s, r1 + [name], r2, version);
    ResolvedAppend(s, r1, [name], version);
    ResolvedSingle(s, name, version);
    calc {
      Resolved(s, r1 + [name] + r2, version);
      Resolved(s, r1, version) + Resolved(s, [name], version) + Resolved(s, r2, version);
      Resolved(s, r1, version) + [] + Resolved(s, r2, version);
    }
  }


  /** Everything `BP::Store#get` writes and runs: the warnings first, then the extractions. */
  function GetEffects(s: seq<Archive>, requests: seq<string>, version: Option<string>, dryRun: bool): seq<Effect> {
    Warnings(s, requests, version) + Dispatched(ExtractCommands(Resolved(s, requests, version)), dryRun)
  }

  /**
   * `get` issues one extract command per request that resolves and one
   * warning per request that does not; under dry-run nothing is run.
   */
  lemma GetSpec(s: seq<Archive>, requests: seq<string>, version: Option<string>, dryRun: bool)
    ensures CommandCount(GetEffects(s, requests, version, dryRun)) == |Resolved(s, requests, version)|
    ensures |Resolved(s, requests, version)| + |Warnings(s, requests, version)| == |requests|
    ensures dryRun ==> forall e :: e in GetEffects(s, requests, version, dryRun) ==> !e.Run?
  {
    var warnings := Warnings(s, requests, version);
    var cmds := ExtractCommands(Resolved(s, requests, version));
    MissingWarningsSpec(requests, Selections(s, requests, version), version);
    MessagesOnly(warnings);
    CommandCountAppend(warnings, Dispatched(cmds, dryRun));
    DispatchedCount(cmds, dryRun);
    DispatchedSpec(cmds, dryRun);
  }

  /** The `map` of `get`: select for every request in turn, warning about each miss as it happens. */
  method SelectEach(s: seq<Archive>, requests: seq<string>, version: Option<string>)
    returns (selections: seq<Option<Archive>>, warnings: seq<Effect>)
    ensures selections == Selections(s, requests, version)
    ensures warnings == MissingWarnings(requests, selections, version)
  {
    selections := [];
    warnings := [];
    for i := 0 to |requests|
      invariant selections == Selections(s, requests[..i], version)
      invariant warnings == MissingWarnings(requests[..i], selections, version)
    {
      var choice := Select(s, requests[i], version);
      SelectionStep(s, requests, i, version);
      if choice.None? {
        warnings := warnings + [Warn(NotFound(requests[i], version))];
      }
      selections := selections + [choice];
    }
    assert requests[..|requests|] == requests;
  }

  /** One more request adds its selection, and its warning when it selects nothing. */
  lemma SelectionStep(s: seq<Archive>, requests: seq<string>, i: nat, version: Option<string>)
    requires i < |requests|
    ensures Selections(s, requests[..i + 1], version) == Selections(s, requests[..i], version) + [Select(s, requests[i], version)]
    ensures MissingWarnings(requests[..i + 1], Selections(s, requests[..i + 1], version), version)
      == MissingWarnings(requests[..i], Selections(s, requests[..i], version), version)
        + (if Select(s, requests[i], version).None? then [Warn(NotFound(requests[i], version))] else [])
  {
    var before := Selections(s, requests[..i], version);
    var after := Selections(s, requests[..i + 1], version);
    assert requests[..i + 1][..i] == requests[..i] && requests[..i + 1][i] == requests[i];
    assert after[..i] == before && after[i] == Select(s, requests[i], version);
  }

  /** `BP::Store#get`, step by step: select and warn, drop the misses, extract. */
  method Get(s: seq<Archive>, requests: seq<string>, version: Option<string>, dryRun: bool)
    returns (effects: seq<Effect>)
    ensures effects == GetEffects(s, requests, version, dryRun)
  {
    var selections, warnings := SelectEach(s, requests, version);
    var extractions := DispatchAll(ExtractCommands(Compact(selections)), dryRun);
    effects := warnings + extractions;
  }

  // =====================================================================
  // drop_old: keep the newest archive of each name, drop the others
  // =====================================================================

  /** Whether an archive is a candidate: an empty filter selects everything. */
  predicate InScope(a: Archive, filter: seq<string>) {
    filter == [] || (a.name.Some? && a.name.value in filter)
  }

  /** The archives the filter selects, in load order. */
  function Scoped(s: seq<Archive>, filter: seq<string>): (r: seq<Archive>)
    ensures forall a :: a in r <==> a in s && InScope(a, filter)
    ensures |r| <= |s|
  {
    if s == [] then []
    else
      var init, a := s[..|s| - 1], s[|s| - 1];
      assert s == init + [a];
      Scoped(init, filter) + (if InScope(a, filter) then [a] else [])
  }

  /** The pruning of one name: the archives to drop (older first) and the one to keep. */
  datatype Pruning = Pruning(name: Option<string>, older: seq<Archive>, latest: Archive)

  /** `(*older, latest) = archives.sort_by(&:date)`, or nothing when there is only one archive. */
  function PruningOf(g: seq<Archive>, k: Option<string>): (r: Option<Pruning>)
    ensures |g| <= 1 ==> r.None?
    ensures |g| >= 2 ==> r.Some?
    ensures r.Some? ==> r.value.name == k
    ensures r.Some? ==> multiset(r.value.older + [r.value.latest]) == multiset(g)
    ensures r.Some? ==> |r.value.older| == |g| - 1
    ensures r.Some? ==> SortedBy(r.value.older + [r.value.latest], (a: Archive) => a.date)
  {
    var sorted := SortBy(g, (a: Archive) => a.date);
    if |sorted| <= 1 then None
    else
      assert sorted == sorted[..|sorted| - 1] + [sorted[|sorted| - 1]];
      Some(Pruning(k, sorted[..|sorted| - 1], sorted[|sorted| - 1]))
  }

  /** The prunings of the listed names, in order, skipping names with a single archive. */
  function PlanFor(s: seq<Archive>, ks: seq<Option<string>>): seq<Pruning> {
    if ks == [] then []
    else
      PlanFor(s, ks[..|ks| - 1])
      + (match PruningOf(Group(s, ks[|ks| - 1]), ks[|ks| - 1]) case Some(p) => [p] case None => [])
  }

  /** The pipeline of `drop_old`: filter, `group_by(&:name)`, split each group, reject single versions. */
  function PrunePlan(s: seq<Archive>, filter: seq<string>): seq<Pruning> {
    var scoped := Scoped(s, filter);
    PlanFor(scoped, Keys(scoped))
  }

  /** Number of archives a plan drops. */
  function DroppedCount(plan: seq<Pruning>): nat {
    if plan == [] then 0 else DroppedCount(plan[..|plan| - 1]) + |plan[|plan| - 1].older|
  }

  lemma {:induction false} PlanForSpec(s: seq<Archive>, ks: seq<Option<string>>)
    ensures forall p :: p in PlanFor(s, ks) ==> PlannedFrom(s, ks, p)
  {
    if ks != [] {
      var init, k := ks[..|ks| - 1], ks[|ks| - 1];
      assert ks == init + [k];
      PlanForSpec(s, init);
      var last := PruningOf(Group(s, k), k);
      var plan := PlanFor(s, ks);
      assert plan == PlanFor(s, init) + (match last case Some(p) => [p] case None => []);
      forall p | p in plan ensures PlannedFrom(s, ks, p) {
        if p !in PlanFor(s, init) {
          assert p == last.value;
        }
      }
    }
  }

  /** What one pruning of a plan built over the names `ks` satisfies. */
  predicate PlannedFrom(s: seq<Archive>, ks: seq<Option<string>>, p: Pruning) {
    && p.name in ks
    && p.older != []
    && |Group(s, p.name)| >= 2
    && multiset(p.older + [p.latest]) == multiset(Group(s, p.name))
    && SortedBy(p.older + [p.latest], (a: Archive) => a.date)
  }

  lemma {:induction false} PlanForCovers(s: seq<Archive>, ks: seq<Option<string>>)
    ensures forall k :: k in ks && |Group(s, k)| >= 2 ==> exists p :: p in PlanFor(s, ks) && p.name == k
  {
    if ks != [] {
      var init, k := ks[..|ks| - 1], ks[|ks| - 1];
      assert ks == init + [k];
      PlanForCovers(s, init);
      var last := PruningOf(Group(s, k), k);
      var plan := PlanFor(s, ks);
      assert plan == PlanFor(s, init) + (match last case Some(p) => [p] case None => []);
      forall x | x in ks && |Group(s, x)| >= 2 ensures exists p :: p in plan && p.name == x {
        if x == k {
          assert last.value in plan;
        } else {
          assert x in init;
          var p :| p in PlanFor(s, init) && p.name == x;
          assert p in plan;
        }
      }
    }
  }

  lemma {:induction false} DroppedCountAppend(a: seq<Pruning>, b: seq<Pruning>)
    ensures DroppedCount(a + b) == DroppedCount(a) + DroppedCount(b)
  {
    if b != [] {
      assert (a + b)[..|a + b| - 1] == a + b[..|b| - 1];
      assert (a + b)[|a + b| - 1] == b[|b| - 1];
      DroppedCountAppend(a, b[..|b| - 1]);
    } else {
      assert a + b == a;
    }
  }

  lemma {:induction false} PlanForCount(s: seq<Archive>, ks: seq<Option<string>>)
    requires forall k :: k in ks ==> Group(s, k) != []
    ensures DroppedCount(PlanFor(s, ks)) + |ks| == GroupSizes(s, ks)
  {
    if ks != [] {
      var init, k := ks[..|ks| - 1], ks[|ks| - 1];
      assert forall x :: x in init ==> x in ks;
      PlanForCount(s, init);
      var tail := match PruningOf(Group(s, k), k) case Some(p) => [p] case None => [];
      DroppedCountAppend(PlanFor(s, init), tail);
      if tail != [] {
        assert tail[..0] == [];
        var p := tail[0];
        assert |multiset(p.older + [p.latest])| == |multiset(Group(s, k))|;
      }
    }
  }

  /**
   * What the prune plan keeps and drops. Each pruning is about a name in
   * scope with at least two archives; the dropped archives and the kept one
   * are exactly that name's archives; the kept one is at least as new as
   * every archive of that name in scope, and the dropped ones come in
   * ascending date order. A name with two or more archives in scope is
   * pruned, and no archive outside a non-empty filter is ever dropped.
   */
  lemma PrunePlanSpec(s: seq<Archive>, filter: seq<string>)
    ensures var scoped := Scoped(s, filter);
      forall p :: p in PrunePlan(s, filter) ==>
        && p.older != []
        && |Group(scoped, p.name)| >= 2
        && multiset(p.older + [p.latest]) == multiset(Group(scoped, p.name))
        && (forall b :: b in Group(scoped, p.name) ==> LessEq(b.date, p.latest.date))
        && (forall i, j :: 0 <= i < j < |p.older| ==> LessEq(p.older[i].date, p.older[j].date))
        && (forall a :: a in p.older ==> a in s && InScope(a, filter))
    ensures var scoped := Scoped(s, filter);
      forall k :: k in Keys(scoped) && |Group(scoped, k)| >= 2 ==>
        exists p :: p in PrunePlan(s, filter) && p.name == k
  {
    var scoped := Scoped(s, filter);
    PlanForSpec(scoped, Keys(scoped));
    PlanForCovers(scoped, Keys(scoped));
    forall p | p in PrunePlan(s, filter)
      ensures forall b :: b in Group(scoped, p.name) ==> LessEq(b.date, p.latest.date)
      ensures forall i, j :: 0 <= i < j < |p.older| ==> LessEq(p.older[i].date, p.older[j].date)
      ensures forall a :: a in p.older ==> a in s && InScope(a, filter)
    {
      PruningFacts(p, Group(scoped, p.name));
    }
  }

  /** A pruning that sorts a group keeps its newest archive and drops the rest in ascending order. */
  lemma PruningFacts(p: Pruning, g: seq<Archive>)
    requires multiset(p.older + [p.latest]) == multiset(g)
    requires SortedBy(p.older + [p.latest], (a: Archive) => a.date)
    ensures forall b :: b in g ==> LessEq(b.date, p.latest.date)
    ensures forall i, j :: 0 <= i < j < |p.older| ==> LessEq(p.older[i].date, p.older[j].date)
    ensures forall a :: a in p.older ==> a in g
  {
    var all := p.older + [p.latest];
    forall b | b in g ensures LessEq(b.date, p.latest.date) {
      assert b in multiset(all);
      var i :| 0 <= i < |all| && all[i] == b;
      if i < |all| - 1 {
        assert LessEq(all[i].date, all[|all| - 1].date);
      }
    }
    forall i, j | 0 <= i < j < |p.older| ensures LessEq(p.older[i].date, p.older[j].date) {
      assert all[i] == p.older[i] && all[j] == p.older[j];
    }
    forall a | a in p.older ensures a in g {
      assert a in multiset(all);
    }
  }

  /** The number of archives dropped is the number in scope minus the number of names in scope. */
  lemma PruneCount(s: seq<Archive>, filter: seq<string>)
    ensures DroppedCount(PrunePlan(s, filter)) == |Scoped(s, filter)| - |Keys(Scoped(s, filter))|
  {
    var scoped := Scoped(s, filter);
    forall k | k in Keys(scoped) ensures Group(scoped, k) != [] {
      GroupOfKey(scoped, k);
    }
    PlanForCount(scoped, Keys(scoped));
    GroupsPartition(scoped);
  }

  /** The three lines `drop_old` prints about one name. */
  function PruneReport(p: Pruning): seq<Effect> {
    [Say(PruneHeader(p.name)), Say(PruneRemoving(DatesOf(p.older))), Say(PruneRemaining(p.latest.date))]
  }

  function DropCommands(older: seq<Archive>): (cs: seq<Command>)
    ensures |cs| == |older|
    ensures forall i :: 0 <= i < |older| ==> cs[i] == Command(None, DropCmd(older[i]))
  {
    seq(|older|, i requires 0 <= i < |older| => Command(None, DropCmd(older[i])))
  }

  /** Everything `drop_old` prints and runs for a plan, name after name. */
  function PruneEffects(plan: seq<Pruning>, dryRun: bool): seq<Effect> {
    if plan == [] then []
    else
      var p := plan[|plan| - 1];
      PruneEffects(plan[..|plan| - 1], dryRun) + PruneReport(p) + Dispatched(DropCommands(p.older), dryRun)
  }

  /** `drop_old` issues one drop command per dropped archive; under dry-run none is run. */
  lemma {:induction false} PruneEffectsCommands(plan: seq<Pruning>, dryRun: bool)
    ensures CommandCount(PruneEffects(plan, dryRun)) == DroppedCount(plan)
    ensures dryRun ==> forall e :: e in PruneEffects(plan, dryRun) ==> !e.Run?
  {
    if plan != [] {
      var p := plan[|plan| - 1];
      var before := PruneEffects(plan[..|plan| - 1], dryRun);
      PruneEffectsCommands(plan[..|plan| - 1], dryRun);
      var report := PruneReport(p);
      var cmds := Dispatched(DropCommands(p.older), dryRun);
      CommandCountAppend(before + report, cmds);
      CommandCountAppend(before, report);
      MessagesOnly(report);
      DispatchedCount(DropCommands(p.older), dryRun);
      DispatchedSpec(DropCommands(p.older), dryRun);
    }
  }

  /**
   * The `each` of `drop_old`: for each name to prune, print the report, then
   * run (or show, under dry-run) the drop command of every older archive.
   */
  method PruneEach(plan: seq<Pruning>, dryRun: bool) returns (effects: seq<Effect>)
    ensures effects == PruneEffects(plan, dryRun)
  {
    effects := [];
    for i := 0 to |plan|
      invariant effects == PruneEffects(plan[..i], dryRun)
    {
      var p := plan[i];
      assert plan[..i + 1][..i] == plan[..i];
      var drops := DispatchAll(DropCommands(p.older), dryRun);
      effects := effects + PruneReport(p) + drops;
    }
    assert plan[..|plan|] == plan;
  }

  /** `BP::Store#drop_old`: build the prune plan, then carry it out. */
  method DropOld(s: seq<Archive>, files: seq<string>, dryRun: bool) returns (effects: seq<Effect>)
    ensures effects == PruneEffects(PrunePlan(s, NameFilter(files)), dryRun)
  {
    effects := PruneEach(PrunePlan(s, NameFilter(files)), dryRun);
  }
}
