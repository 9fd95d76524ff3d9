/**
 * One archive known to tarsnap, identified by its raw name
 * `YYYY-MM-DD[_]name`: the parser that splits the raw name into a date and a
 * logical name, and the two argument vectors that name the archive verbatim.
 */
module Archives {
  import opened Wrappers
  import opened Dates

  /**
   * `raw` is the name tarsnap knows the archive by; `date` and `name` are
   * read from it. `name` is absent when nothing (or nothing matching `.+\z`)
   * follows the date and the optional underscore.
   */
  datatype Archive = Archive(raw: string, date: Date, name: Option<string>)

  /** The text that follows the date and at most one underscore. */
  function Remainder(raw: string): (rest: string)
    requires |raw| >= 10
    ensures rest == raw[10..] || (|raw| > 10 && raw[10] == '_' && rest == raw[11..])
  {
    if |raw| > 10 && raw[10] == '_' then raw[11..] else raw[10..]
  }

  /** `scan(/.+\z/)`: the whole remainder, when it is non-empty and holds no line break. */
  function ScanName(rest: string): (name: Option<string>)
    ensures name.Some? <==> rest != [] && '\n' !in rest
    ensures name.Some? ==> name.value == rest
  {
    if rest != [] && '\n' !in rest then Some(rest) else None
  }

  /**
   * `BP::Archive.new(raw)`: `None` stands for the exception the source raises
   * when the string does not start with a date-shaped prefix (`scan` yields
   * nil and `Date.parse(nil)` raises) or when that prefix is not a date of
   * the calendar (`Date.parse` raises).
   */
  function Parse(raw: string): (r: Option<Archive>)
  {
    if !HasDateShape(raw) then None
    else if !Valid(ShapeDate(raw)) then None
    else Some(Archive(raw, ShapeDate(raw), ScanName(Remainder(raw))))
  }

  /** `drop_cmd`: delete this exact archive. */
  function DropCmd(a: Archive): (argv: seq<string>)
    ensures |argv| == 4 && argv[3] == a.raw
  {
    ["tarsnap", "-d", "-f", a.raw]
  }

  /** `extract_cmd`: extract this exact archive into the current directory. */
  function ExtractCmd(a: Archive): (argv: seq<string>)
    ensures |argv| == 4 && argv[3] == a.raw
  {
    ["tarsnap", "-x", "-f", a.raw]
  }

  // ---------------------------------------------------------------------
  // Properties of the parser
  // ---------------------------------------------------------------------

  /** Parsing succeeds exactly on strings that start with a valid date, and keeps the raw name. */
  lemma ParseSucceedsIff(raw: string)
    ensures Parse(raw).Some? <==> HasDateShape(raw) && Valid(ShapeDate(raw))
    ensures Parse(raw).Some? ==> Parse(raw).value.raw == raw && Parse(raw).value.date == ShapeDate(raw)
  {
  }

  /** `D_rest` parses to the date of `D` and the name `rest`; a second underscore stays in the name. */
  lemma ParseSeparated(ds: string, rest: string)
    requires |ds| == 10 && HasDateShape(ds) && Valid(ShapeDate(ds))
    requires rest != [] && '\n' !in rest
    ensures Parse(ds + "_" + rest) == Some(Archive(ds + "_" + rest, ShapeDate(ds), Some(rest)))
  {
    var raw := ds + "_" + rest;
    assert raw[..4] == ds[..4] && raw[5..7] == ds[5..7] && raw[8..10] == ds[8..10];
    assert raw[10] == '_' && raw[11..] == rest;
  }

  /** The underscore is optional: `Drest` with `rest` not starting with `_` gives the name `rest`. */
  lemma ParseUnseparated(ds: string, rest: string)
    requires |ds| == 10 && HasDateShape(ds) && Valid(ShapeDate(ds))
    requires rest != [] && rest[0] != '_' && '\n' !in rest
    ensures Parse(ds + rest) == Some(Archive(ds + rest, ShapeDate(ds), Some(rest)))
  {
    var raw := ds + rest;
    assert raw[..4] == ds[..4] && raw[5..7] == ds[5..7] && raw[8..10] == ds[8..10];
    assert raw[10] == rest[0] && raw[10..] == rest;
  }

  /** Only one underscore is consumed: `D__x` gives the name `_x`. */
  lemma ParseKeepsSecondUnderscore(ds: string, x: string)
    requires |ds| == 10 && HasDateShape(ds) && Valid(ShapeDate(ds))
    requires '\n' !in x
    ensures Parse(ds + "__" + x).Some?
    ensures Parse(ds + "__" + x).value.name == Some("_" + x)
  {
    assert ds + "__" + x == ds + "_" + ("_" + x);
    ParseSeparated(ds, "_" + x);
  }

  /** A valid date followed by nothing, or by a lone underscore, has no name (nil, not ""). */
  lemma ParseWithoutName(raw: string)
    requires HasDateShape(raw) && Valid(ShapeDate(raw))
    requires |raw| == 10 || (|raw| == 11 && raw[10] == '_')
    ensures Parse(raw).Some? && Parse(raw).value.name == None
  {
  }

  /** A string without the date-shaped prefix does not parse. */
  lemma ParseRejectsShape(raw: string)
    requires !HasDateShape(raw)
    ensures Parse(raw) == None
  {
  }

  /** Month 13 is rejected although the string has the date shape. */
  lemma ParseRejectsMonth13()
    ensures Parse("2021-13-01_x") == None
  {
    var raw := "2021-13-01_x";
    assert HasDateShape(raw);
    assert raw[5..7] == "13";
    assert Number("13") == 13 by {
      assert "13"[..1] == "1" && "1"[..0] == "";
    }
  }

  /** The 30th of February is rejected. */
  lemma ParseRejectsFebruary30()
    ensures Parse("2021-02-30_x") == None
  {
    var raw := "2021-02-30_x";
    assert HasDateShape(raw);
    assert raw[5..7] == "02" && raw[8..10] == "30";
    assert Number("02") == 2 by {
      assert "02"[..1] == "0" && "0"[..0] == "";
    }
    assert Number("30") == 30 by {
      assert "30"[..1] == "3" && "3"[..0] == "";
    }
  }

  /**
   * The 29th of February parses exactly in leap years: years divisible by
   * 4, except century years not divisible by 400 (2000 and 2020 are leap
   * years, 1900 is not).
   */
  lemma ParseLeapDay(raw: string)
    requires HasDateShape(raw) && ShapeDate(raw).month == 2 && ShapeDate(raw).day == 29
    ensures Parse(raw).Some? <==> IsLeapYear(ShapeDate(raw).year)
    ensures IsLeapYear(2000) && IsLeapYear(2020) && !IsLeapYear(1900)
  {
  }

  /**
   * Round trip with the date formatter: when the raw name carries the `_`
   * separator and a name, it is exactly `format(date) + "_" + name`, and
   * that string parses back to the same record.
   */
  lemma FormatRoundTrip(raw: string)
    requires Parse(raw).Some?
    requires |raw| > 10 && raw[10] == '_'
    requires Parse(raw).value.name.Some?
    ensures var a := Parse(raw).value;
      Format(a.date) + "_" + a.name.value == raw && Parse(Format(a.date) + "_" + a.name.value) == Some(a)
  {
    FormatOfShape(raw);
    assert raw == raw[..10] + "_" + raw[11..];
  }

  /** A valid date with a four-digit year, written out and followed by `_name`, parses back to that date and name. */
  lemma ParseFormatted(d: Date, name: string)
    requires Valid(d) && d.year < 10000
    requires name != [] && '\n' !in name
    ensures Parse(Format(d) + "_" + name) == Some(Archive(Format(d) + "_" + name, d, Some(name)))
  {
    var raw := Format(d) + "_" + name;
    FormatReadsBack(d, "_" + name);
    assert raw == Format(d) + ("_" + name);
    assert raw[10] == '_' && raw[11..] == name;
  }

  /**
   * Both commands carry tarsnap's delete or extract flags and the raw name
   * verbatim, so two archives read from the listing get the same command
   * only when they are the same archive.
   */
  lemma CommandsNameTheArchive(raw1: string, raw2: string)
    requires Parse(raw1).Some? && Parse(raw2).Some?
    ensures DropCmd(Parse(raw1).value)[..3] == ["tarsnap", "-d", "-f"]
    ensures ExtractCmd(Parse(raw1).value)[..3] == ["tarsnap", "-x", "-f"]
    ensures DropCmd(Parse(raw1).value) == DropCmd(Parse(raw2).value) <==> Parse(raw1) == Parse(raw2)
    ensures ExtractCmd(Parse(raw1).value) == ExtractCmd(Parse(raw2).value) <==> Parse(raw1) == Parse(raw2)
  {
  }
}
