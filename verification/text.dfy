/**
 * The string primitives the to-do list relies on: ASCII lower-casing,
 * substring search, splitting and joining on a one-character separator,
 * and decimal integer formatting and parsing.
 */
module Text {
  import opened TodoTypes

  // ---------------------------------------------------------------- case

  function LowerChar(c: char): char {
    if 'A' <= c <= 'Z' then (c as int - 'A' as int + 'a' as int) as char else c
  }

  /** Lower-cases the ASCII letters of `s` and keeps every other character. */
  function Lower(s: string): (r: string)
    ensures |r| == |s|
    ensures forall i :: 0 <= i < |s| ==> r[i] == LowerChar(s[i])
  {
    if s == [] then [] else [LowerChar(s[0])] + Lower(s[1..])
  }

  lemma {:induction false} LowerIdempotent(s: string)
    ensures Lower(Lower(s)) == Lower(s)
  {
    var l := Lower(s);
    assert forall i :: 0 <= i < |l| ==> LowerChar(l[i]) == l[i];
  }

  /** Two strings equal up to ASCII case. */
  predicate EqualFold(a: string, b: string) {
    Lower(a) == Lower(b)
  }

  // ---------------------------------------------------------- substrings

  predicate IsPrefix(p: string, s: string) {
    |p| <= |s| && s[..|p|] == p
  }

  /** `sub` occurs in `s` at some position (strings.Contains); a prefix, the empty text included, does. */
  predicate Contains(s: string, sub: string)
    ensures Contains(s, sub) ==> |sub| <= |s|
    ensures IsPrefix(sub, s) ==> Contains(s, sub)
  {
    assert s[0..] == s;
    exists i :: 0 <= i <= |s| - |sub| && IsPrefix(sub, s[i..])
  }

  lemma ContainsAt(s: string, sub: string, i: int)
    requires 0 <= i <= |s| - |sub| && s[i..i + |sub|] == sub
    ensures Contains(s, sub)
  {
    assert IsPrefix(sub, s[i..]);
  }

  // --------------------------------------------------------- split / join

  /** Occurrences of `c` in `s`. */
  function Count(s: string, c: char): nat {
    if s == [] then 0 else (if s[0] == c then 1 else 0) + Count(s[1..], c)
  }

  lemma {:induction false} CountZero(s: string, c: char)
    ensures Count(s, c) == 0 <==> c !in s
  {
    if s != [] {
      CountZero(s[1..], c);
      assert s == [s[0]] + s[1..];
    }
  }

  /**
   * strings.Split with a one-character separator: the pieces between the
   * separators, one more piece than there are separators.
   */
  function Split(s: string, c: char): (r: seq<string>)
    ensures |r| == Count(s, c) + 1
    ensures forall i :: 0 <= i < |r| ==> c !in r[i]
  {
    if s == [] then [""]
    else
      var rest := Split(s[1..], c);
      if s[0] == c then [""] + rest
      else [[s[0]] + rest[0]] + rest[1..]
  }

  /** Occurrences add up over a concatenation. */
  lemma {:induction false} CountAppend(a: string, b: string, c: char)
    ensures Count(a + b, c) == Count(a, c) + Count(b, c)
  {
    if a == [] {
      assert a + b == b;
    } else {
      CountAppend(a[1..], b, c);
      assert (a + b)[0] == a[0] && (a + b)[1..] == a[1..] + b;
    }
  }

  /**
   * strings.Join with a one-character separator: one separator between each
   * two pieces, so pieces free of it give one fewer separator than pieces.
   */
  function Join(xs: seq<string>, c: char): (r: string)
    ensures (forall i :: 0 <= i < |xs| ==> c !in xs[i]) ==>
      Count(r, c) == if |xs| == 0 then 0 else |xs| - 1
  {
    if |xs| == 0 then ""
    else
      CountZero(xs[0], c);
      if |xs| == 1 then xs[0]
      else
        var rest := Join(xs[1..], c);
        CountAppend(xs[0], [c], c);
        CountAppend(xs[0] + [c], rest, c);
        xs[0] + [c] + rest
  }

  lemma {:induction false} SplitNoSeparator(s: string, c: char)
    requires c !in s
    ensures Split(s, c) == [s]
  {
    if s != [] {
      SplitNoSeparator(s[1..], c);
      assert [s[0]] + s[1..] == s;
    }
  }

  /** Splitting at the first separator: the part before it, then the rest split. */
  lemma {:induction false} SplitFirst(a: string, b: string, c: char)
    requires c !in a
    ensures Split(a + [c] + b, c) == [a] + Split(b, c)
  {
    if a == [] {
      assert a + [c] + b == [c] + b;
      assert ([c] + b)[1..] == b;
    } else {
      SplitFirst(a[1..], b, c);
      var s := a + [c] + b;
      assert s[0] == a[0] && s[1..] == a[1..] + [c] + b;
      assert [a[0]] + a[1..] == a;
    }
  }

  /** Joining pieces free of the separator and splitting again gives them back. */
  lemma {:induction false} SplitJoin(xs: seq<string>, c: char)
    requires |xs| >= 1
    requires forall i :: 0 <= i < |xs| ==> c !in xs[i]
    ensures Split(Join(xs, c), c) == xs
  {
    if |xs| == 1 {
      SplitNoSeparator(xs[0], c);
    } else {
      SplitJoin(xs[1..], c);
      SplitFirst(xs[0], Join(xs[1..], c), c);
      assert [xs[0]] + xs[1..] == xs;
    }
  }

  /** Joining and splitting the empty list gives one empty piece, not none. */
  lemma JoinEmptySplitsToOneEmpty(c: char)
    ensures Split(Join([], c), c) == [""]
  {
  }

  lemma {:induction false} JoinFree(xs: seq<string>, c: char, d: char)
    requires c != d
    requires forall i :: 0 <= i < |xs| ==> d !in xs[i]
    ensures d !in Join(xs, c)
  {
    if |xs| > 1 {
      JoinFree(xs[1..], c, d);
    }
  }

  /**
   * strings.SplitN(s, sep, 2) with a one-character separator: the text
   * before the first separator and everything after it, or `s` alone.
   */
  function SplitFirstOnly(s: string, c: char): (r: seq<string>)
    ensures 1 <= |r| <= 2
    ensures |r| == 2 <==> c in s
    ensures |r| == 2 ==> c !in r[0] && r[0] + [c] + r[1] == s
    ensures |r| == 1 ==> r[0] == s
  {
    if s == [] then [s]
    else if s[0] == c then ["", s[1..]]
    else
      var rest := SplitFirstOnly(s[1..], c);
      if |rest| == 2 then [[s[0]] + rest[0], rest[1]] else [s]
  }

  /** Text without the separator, the separator, then anything: SplitN cuts right there. */
  lemma {:induction false} SplitFirstOnlyAt(a: string, b: string, c: char)
    requires c !in a
    ensures SplitFirstOnly(a + [c] + b, c) == [a, b]
  {
    var s := a + [c] + b;
    if a == [] {
      assert s == [c] + b;
    } else {
      SplitFirstOnlyAt(a[1..], b, c);
      assert s[1..] == a[1..] + [c] + b;
      assert [s[0]] + a[1..] == a;
    }
  }

  // ------------------------------------------------------------- integers

  predicate IsDigit(c: char) {
    '0' <= c <= '9'
  }

  predicate AllDigits(s: string) {
    forall i :: 0 <= i < |s| ==> IsDigit(s[i])
  }

  function DigitChar(d: nat): (c: char)
    requires d < 10
    ensures IsDigit(c)
  {
    ('0' as int + d) as char
  }

  /** The value of a string of decimal digits, read most significant first. */
  function DigitsValue(s: string): nat
    requires AllDigits(s)
  {
    if s == [] then 0
    else DigitsValue(s[..|s| - 1]) * 10 + (s[|s| - 1] as int - '0' as int)
  }

  /** The decimal digits of `n`, without leading zeros. */
  function NatToString(n: nat): (r: string)
    ensures |r| >= 1 && AllDigits(r)
  {
    if n < 10 then [DigitChar(n)] else NatToString(n / 10) + [DigitChar(n % 10)]
  }

  /** strconv.Itoa and the %d verb. */
  function Itoa(n: int): (r: string)
    ensures |r| >= 1 && ',' !in r && '|' !in r && '\n' !in r && '\r' !in r
  {
    if n < 0 then "-" + NatToString(-n) else NatToString(n)
  }

  lemma {:induction false} DigitsValueOfNatToString(n: nat)
    ensures DigitsValue(NatToString(n)) == n
  {
    if n >= 10 {
      DigitsValueOfNatToString(n / 10);
      var s := NatToString(n / 10) + [DigitChar(n % 10)];
      assert s[..|s| - 1] == NatToString(n / 10);
    }
  }

  /**
   * strconv.Atoi on a base-10 string: an optional sign and at least one
   * digit, or a syntax error.
   */
  function ParseInt(s: string): (r: Option<int>)
    ensures r.Some? <==>
      || (|s| >= 1 && AllDigits(s))
      || (|s| >= 2 && (s[0] == '-' || s[0] == '+') && AllDigits(s[1..]))
    ensures r.Some? && r.value < 0 ==> s[0] == '-'
  {
    if |s| == 0 then None
    else if s[0] == '-' || s[0] == '+' then
      if |s| >= 2 && AllDigits(s[1..]) then
        var v: int := DigitsValue(s[1..]);
        Some(if s[0] == '-' then -v else v)
      else None
    else if AllDigits(s) then Some(DigitsValue(s))
    else None
  }

  /** `n, _ := strconv.Atoi(s)`: the error is dropped and 0 stands in. */
  function Atoi(s: string): (n: int)
    ensures ParseInt(s).Some? ==> n == ParseInt(s).value
    ensures ParseInt(s).None? ==> n == 0
  {
    ParseInt(s).GetOr(0)
  }

  /** Formatting an integer and parsing it back gives the same integer. */
  lemma ParseIntOfItoa(n: int)
    ensures ParseInt(Itoa(n)) == Some(n)
  {
    var s := Itoa(n);
    if n < 0 {
      var digits := NatToString(-n);
      assert s == "-" + digits && s[1..] == digits;
      DigitsValueOfNatToString(-n);
      var v: int := DigitsValue(digits);
      assert ParseInt(s) == Some(-v);
    } else {
      assert s == NatToString(n) && IsDigit(s[0]);
      DigitsValueOfNatToString(n);
    }
  }
}
