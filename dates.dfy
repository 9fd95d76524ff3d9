/**
 * Calendar dates as the archive names carry them: a (year, month, day)
 * triple, its validity in the Gregorian calendar, its chronological order,
 * and the zero-padded `YYYY-MM-DD` text that `strftime('%Y-%m-%d')` produces
 * and that the archive-name parser reads back.
 */
module Dates {

  datatype Date = Date(year: nat, month: nat, day: nat)

  // ---------------------------------------------------------------------
  // Validity and order
  // ---------------------------------------------------------------------

  predicate IsLeapYear(y: nat) {
    y % 4 == 0 && (y % 100 != 0 || y % 400 == 0)
  }

  function DaysInMonth(y: nat, m: nat): (n: nat)
    requires 1 <= m <= 12
    ensures 28 <= n <= 31
  {
    if m == 2 then (if IsLeapYear(y) then 29 else 28)
    else if m == 4 || m == 6 || m == 9 || m == 11 then 30
    else 31
  }

  /** A date that exists in the (proleptic) Gregorian calendar. */
  predicate Valid(d: Date) {
    1 <= d.month <= 12 && 1 <= d.day <= DaysInMonth(d.year, d.month)
  }

  /** Chronological order: year first, then month, then day. */
  predicate Before(a: Date, b: Date) {
    a.year < b.year
    || (a.year == b.year && (a.month < b.month || (a.month == b.month && a.day < b.day)))
  }

  predicate LessEq(a: Date, b: Date) {
    a == b || Before(a, b)
  }

  lemma LessEqIsTotalOrder(a: Date, b: Date, c: Date)
    ensures LessEq(a, a)
    ensures LessEq(a, b) || LessEq(b, a)
    ensures LessEq(a, b) && LessEq(b, a) ==> a == b
    ensures LessEq(a, b) && LessEq(b, c) ==> LessEq(a, c)
  {
  }

  /** The latest of a non-empty list of dates (Ruby's `Array#max`). */
  function Latest(ds: seq<Date>): (m: Date)
    requires ds != []
    ensures m in ds
    ensures forall i :: 0 <= i < |ds| ==> LessEq(ds[i], m)
  {
    if |ds| == 1 then ds[0]
    else
      var rest := Latest(ds[1..]);
      assert forall i :: 1 <= i < |ds| ==> ds[i] == ds[1..][i - 1];
      if LessEq(ds[0], rest) then rest else ds[0]
  }

  // ---------------------------------------------------------------------
  // Decimal digits
  // ---------------------------------------------------------------------

  predicate IsDigit(c: char) {
    '0' <= c <= '9'
  }

  predicate AllDigits(s: string) {
    forall i :: 0 <= i < |s| ==> IsDigit(s[i])
  }

  function DigitValue(c: char): (n: nat)
    requires IsDigit(c)
    ensures n < 10
  {
    c as int - '0' as int
  }

  function DigitChar(n: nat): (c: char)
    requires n < 10
    ensures IsDigit(c) && DigitValue(c) == n
  {
    (n + '0' as int) as char
  }

  function Pow10(w: nat): (p: nat)
    ensures p >= 1
  {
    if w == 0 then 1 else 10 * Pow10(w - 1)
  }

  /** The number a string of decimal digits denotes (most significant first). */
  function Number(s: string): nat
    requires AllDigits(s)
  {
    if s == [] then 0 else 10 * Number(s[..|s| - 1]) + DigitValue(s[|s| - 1])
  }

  /** The last `w` decimal digits of `n`, zero-padded on the left. */
  function Padded(n: nat, w: nat): (s: string)
    ensures |s| == w && AllDigits(s)
  {
    if w == 0 then [] else Padded(n / 10, w - 1) + [DigitChar(n % 10)]
  }

  /** All decimal digits of `n`, without padding. */
  function Decimal(n: nat): (s: string)
    ensures |s| >= 1 && AllDigits(s)
    ensures n >= 10 ==> |s| >= 2
    ensures n >= 100 ==> |s| >= 3
    ensures n >= 1000 ==> |s| >= 4
  {
    if n < 10 then [DigitChar(n)] else Decimal(n / 10) + [DigitChar(n % 10)]
  }

  lemma {:induction false} NumberBound(s: string)
    requires AllDigits(s)
    ensures Number(s) < Pow10(|s|)
  {
    if s != [] {
      NumberBound(s[..|s| - 1]);
    }
  }

  /** Reading back a zero-padded number gives the number, when it fits. */
  lemma {:induction false} NumberOfPadded(n: nat, w: nat)
    requires n < Pow10(w)
    ensures Number(Padded(n, w)) == n
  {
    if w > 0 {
      var s := Padded(n, w);
      assert s[..|s| - 1] == Padded(n / 10, w - 1);
      NumberOfPadded(n / 10, w - 1);
    }
  }

  /** Printing a digit string's number with the string's width gives the string back. */
  lemma {:induction false} PaddedOfNumber(s: string)
    requires AllDigits(s)
    ensures Padded(Number(s), |s|) == s
  {
    if s != [] {
      var init := s[..|s| - 1];
      var d := DigitValue(s[|s| - 1]);
      PaddedOfNumber(init);
      assert (10 * Number(init) + d) / 10 == Number(init);
      assert (10 * Number(init) + d) % 10 == d;
      assert s == init + [s[|s| - 1]];
    }
  }

  // ---------------------------------------------------------------------
  // The YYYY-MM-DD text of a date
  // ---------------------------------------------------------------------

  /**
   * `strftime('%Y')`: at least four digits, zero-padded; a year beyond 9999
   * is printed with all of its digits.
   */
  function FormatYear(y: nat): (s: string)
    ensures |s| >= 4 && AllDigits(s)
    ensures y < 10000 ==> |s| == 4 && Number(s) == y
  {
    if y < 10000 then
      NumberOfPadded(y, 4);
      Padded(y, 4)
    else Decimal(y)
  }

  /** `strftime('%Y-%m-%d')`. */
  function Format(d: Date): (s: string)
    ensures |s| >= 10
  {
    FormatYear(d.year) + "-" + Padded(d.month, 2) + "-" + Padded(d.day, 2)
  }

  /** A string that starts with four digits, a dash, two digits, a dash and two digits. */
  predicate HasDateShape(s: string) {
    && |s| >= 10
    && AllDigits(s[..4]) && s[4] == '-'
    && AllDigits(s[5..7]) && s[7] == '-'
    && AllDigits(s[8..10])
  }

  /** The triple written in the first ten characters of a date-shaped string. */
  function ShapeDate(s: string): (d: Date)
    requires HasDateShape(s)
    ensures d.year < 10000 && d.month < 100 && d.day < 100
  {
    NumberBound(s[..4]);
    NumberBound(s[5..7]);
    NumberBound(s[8..10]);
    Date(Number(s[..4]), Number(s[5..7]), Number(s[8..10]))
  }

  /** The formatted text of a valid four-digit-year date has the date shape and reads back as that date. */
  lemma FormatReadsBack(d: Date, rest: string)
    requires Valid(d) && d.year < 10000
    ensures |Format(d)| == 10
    ensures HasDateShape(Format(d) + rest)
    ensures ShapeDate(Format(d) + rest) == d
  {
    var s := Format(d) + rest;
    var y, m, dd := Padded(d.year, 4), Padded(d.month, 2), Padded(d.day, 2);
    assert s == y + "-" + m + "-" + dd + rest;
    assert s[..4] == y;
    assert s[5..7] == m;
    assert s[8..10] == dd;
    NumberOfPadded(d.month, 2);
    NumberOfPadded(d.day, 2);
  }

  /** The first ten characters of a date-shaped string are the formatted text of the date they denote. */
  lemma FormatOfShape(s: string)
    requires HasDateShape(s)
    ensures Format(ShapeDate(s)) == s[..10]
  {
    var d := ShapeDate(s);
    PaddedOfNumber(s[..4]);
    PaddedOfNumber(s[5..7]);
    PaddedOfNumber(s[8..10]);
    assert FormatYear(d.year) == s[..4];
    assert s[..10] == s[..4] + [s[4]] + s[5..7] + [s[7]] + s[8..10];
  }

  /** Two valid dates with four-digit years print alike exactly when they are equal. */
  lemma FormatInjective(a: Date, b: Date)
    requires Valid(a) && a.year < 10000 && Valid(b) && b.year < 10000
    ensures Format(a) == Format(b) <==> a == b
  {
    if Format(a) == Format(b) {
      FormatReadsBack(a, []);
      FormatReadsBack(b, []);
      assert Format(a) + [] == Format(b) + [];
    }
  }
}
