/**
 * Due dates as text: the "YYYY-MM-DD" layout the export writes and the add
 * command reads, and the layout the CSV import actually passes to the date
 * parser, which reads the month twice and never the day.
 */
module Dates {
  import opened TodoTypes
  import opened Text

  predicate IsLeap(year: int) {
    year % 4 == 0 && (year % 100 != 0 || year % 400 == 0)
  }

  function DaysIn(month: int, year: int): int
    requires 1 <= month <= 12
  {
    if month == 2 then (if IsLeap(year) then 29 else 28)
    else if month == 4 || month == 6 || month == 9 || month == 11 then 30
    else 31
  }

  /** A real calendar day. */
  predicate ValidDate(d: Date) {
    1 <= d.month <= 12 && 1 <= d.day <= DaysIn(d.month, d.year)
  }

  /** A date "2006-01-02" can write and read back: a year of at most four digits. */
  predicate Formattable(d: Date) {
    ValidDate(d) && 0 <= d.year <= 9999
  }

  /** `t1.Before(t2)` for two dates at midnight: chronological order. */
  predicate Before(x: Date, y: Date)
    ensures Before(x, y) ==> x != y && x.year <= y.year
  {
    x.year < y.year
    || (x.year == y.year && x.month < y.month)
    || (x.year == y.year && x.month == y.month && x.day < y.day)
  }

  /** A strict total order: irreflexive, transitive, and any two different dates compare. */
  lemma BeforeIsStrictOrder(x: Date, y: Date, z: Date)
    ensures !Before(x, x)
    ensures Before(x, y) && Before(y, z) ==> Before(x, z)
    ensures x != y ==> Before(x, y) || Before(y, x)
  {
  }

  function Pow10(w: nat): (p: nat)
    ensures p >= 1
  {
    if w == 0 then 1 else 10 * Pow10(w - 1)
  }

  /** `w` digits are worth less than 10 to the `w`. */
  lemma {:induction false} DigitsValueBelow(s: string)
    requires AllDigits(s)
    ensures DigitsValue(s) < Pow10(|s|)
  {
    if s != [] {
      DigitsValueBelow(s[..|s| - 1]);
    }
  }

  /** The last `w` decimal digits of `n`, zero-padded on the left. */
  function FixedDigits(n: nat, w: nat): (r: string)
    ensures |r| == w && AllDigits(r)
  {
    if w == 0 then "" else FixedDigits(n / 10, w - 1) + [DigitChar(n % 10)]
  }

  lemma {:induction false} DigitsValueOfFixedDigits(n: nat, w: nat)
    requires n < Pow10(w)
    ensures DigitsValue(FixedDigits(n, w)) == n
  {
    if w > 0 {
      DigitsValueOfFixedDigits(n / 10, w - 1);
      var s := FixedDigits(n, w);
      assert s[..|s| - 1] == FixedDigits(n / 10, w - 1);
    }
  }

  /**
   * The time package's zero-padded number: a sign for negatives, then the
   * digits padded with zeros to width `w` (longer numbers are not cut).
   */
  function PadInt(x: int, w: nat): (r: string)
    requires w >= 1
    ensures |r| >= 1 && '-' !in r[1..] && ',' !in r && '\n' !in r && '\r' !in r
  {
    var u: nat := if x < 0 then -x else x;
    var digits := if u < Pow10(w) then FixedDigits(u, w) else NatToString(u);
    var r := (if x < 0 then "-" else "") + digits;
    assert forall i :: 0 <= i < |digits| ==> IsDigit(digits[i]);
    r
  }

  /** `t.Format("2006-01-02")`. */
  function FormatDate(d: Date): (r: string)
    ensures ',' !in r && '\n' !in r && '\r' !in r
  {
    PadInt(d.year, 4) + "-" + PadInt(d.month, 2) + "-" + PadInt(d.day, 2)
  }

  /**
   * The "2006" field: four characters, the first a digit, read as a number,
   * so four digits and no sign.
   */
  function ParseYear(s: string): (r: Option<int>)
    requires |s| == 4
    ensures r.Some? <==> AllDigits(s)
    ensures r.Some? ==> 0 <= r.value <= 9999
  {
    if AllDigits(s) then
      DigitsValueBelow(s);
      assert Pow10(4) == 10000;
      Some(DigitsValue(s))
    else None
  }

  /** A two-digit field such as "01" or "02": exactly two digits. */
  function ParseTwoDigits(s: string): Option<int>
    requires |s| == 2
  {
    if AllDigits(s) then Some(DigitsValue(s)) else None
  }

  /** `time.Parse("2006-01-02", s)`, the layout the export and the add command use. */
  function ParseDate(s: string): (r: Option<Date>)
    ensures r.Some? ==> Formattable(r.value)
  {
    if |s| != 10 || s[4] != '-' || s[7] != '-' then None
    else
      var year := ParseYear(s[..4]);
      var month := ParseTwoDigits(s[5..7]);
      var day := ParseTwoDigits(s[8..]);
      if year.None? || month.None? || day.None? then None
      else if !(1 <= month.value <= 12) then None
      else
        var d := Date(year.value, month.value, day.value);
        if ValidDate(d) then Some(d) else None
  }

  /**
   * `time.Parse("2006-01-01", s)`, the layout the CSV import passes: both
   * two-digit fields are months, the second one wins and the day is 1.
   */
  function ParseDateAsWritten(s: string): (r: Option<Date>)
    ensures r.Some? ==> Formattable(r.value) && r.value.day == 1
  {
    if |s| != 10 || s[4] != '-' || s[7] != '-' then None
    else
      var year := ParseYear(s[..4]);
      var first := ParseTwoDigits(s[5..7]);
      var second := ParseTwoDigits(s[8..]);
      if year.None? || first.None? || second.None? then None
      else if !(1 <= first.value <= 12) || !(1 <= second.value <= 12) then None
      else Some(Date(year.value, second.value, 1))
  }

  lemma {:induction false} FormatDateShape(d: Date)
    requires Formattable(d)
    ensures var s := FormatDate(d);
      |s| == 10 && s[4] == '-' && s[7] == '-'
      && s[..4] == FixedDigits(d.year, 4)
      && s[5..7] == FixedDigits(d.month, 2)
      && s[8..] == FixedDigits(d.day, 2)
  {
    assert d.year < Pow10(4) && d.month < Pow10(2) && d.day < Pow10(2);
  }

  /** The three fields of a written date, as the parsers read them. */
  lemma FieldsOfFormatDate(d: Date)
    requires Formattable(d)
    ensures var s := FormatDate(d);
      && |s| == 10 && s[4] == '-' && s[7] == '-'
      && ParseYear(s[..4]) == Some(d.year)
      && ParseTwoDigits(s[5..7]) == Some(d.month)
      && ParseTwoDigits(s[8..]) == Some(d.day)
  {
    var s := FormatDate(d);
    FormatDateShape(d);
    assert ParseYear(s[..4]) == Some(d.year) by {
      assert Pow10(4) == 10000;
      DigitsValueOfFixedDigits(d.year, 4);
    }
    assert ParseTwoDigits(s[5..7]) == Some(d.month) by {
      assert Pow10(2) == 100;
      DigitsValueOfFixedDigits(d.month, 2);
    }
    assert ParseTwoDigits(s[8..]) == Some(d.day) by {
      assert Pow10(2) == 100;
      DigitsValueOfFixedDigits(d.day, 2);
    }
  }

  /** Every date the export writes is read back unchanged by the "2006-01-02" layout. */
  lemma ParseFormatDate(d: Date)
    requires Formattable(d)
    ensures ParseDate(FormatDate(d)) == Some(d)
  {
    FieldsOfFormatDate(d);
  }

  /**
   * What the import's layout makes of an exported date: the day of the
   * month becomes the month and the day becomes 1, or, for a day after the
   * 12th, the parse fails.
   */
  lemma ParseFormatDateAsWritten(d: Date)
    requires Formattable(d)
    ensures d.day <= 12 ==> ParseDateAsWritten(FormatDate(d)) == Some(Date(d.year, d.day, 1))
    ensures d.day > 12 ==> ParseDateAsWritten(FormatDate(d)) == None
  {
    FieldsOfFormatDate(d);
  }

  /** A signed year is no year for either layout: the parse fails. */
  lemma SignedYearRejected()
    ensures ParseDateAsWritten("-001-03-05") == None
    ensures ParseDate("+025-03-05") == None
  {
    var a, b := "-001-03-05", "+025-03-05";
    assert a[..4][0] == '-' && b[..4][0] == '+';
  }

  /** 15 March 2025 is exported and then imported as the zero date. */
  lemma ImportLayoutLosesMarch15()
    ensures ParseDateAsWritten(FormatDate(Date(2025, 3, 15))).GetOr(ZERO_DATE) == Date(1, 1, 1)
    ensures ParseDate(FormatDate(Date(2025, 3, 15))) == Some(Date(2025, 3, 15))
  {
    ParseFormatDateAsWritten(Date(2025, 3, 15));
    ParseFormatDate(Date(2025, 3, 15));
  }
}
