/**
 * The string primitives the converter relies on: str.strip(), str.lower(),
 * str.isdigit() and int() on a string, restricted to ASCII.
 */
module Text {
  import opened Wrappers

  /** Whitespace as str.strip() sees it, restricted to ASCII: tab, line feed,
      vertical tab, form feed, carriage return, the separators 0x1C-0x1F and space. */
  predicate IsSpace(c: char) {
    c == ' ' || '\U{9}' <= c <= '\U{D}' || '\U{1C}' <= c <= '\U{1F}'
  }

  predicate AllSpace(s: string) {
    forall i :: 0 <= i < |s| ==> IsSpace(s[i])
  }

  /** Neither end of s is whitespace. */
  predicate Trimmed(s: string) {
    s == [] || (!IsSpace(s[0]) && !IsSpace(s[|s| - 1]))
  }

  /** str.strip(): leading whitespace is dropped, then trailing whitespace. */
  function Trim(s: string): (r: string)
    ensures Trimmed(r) && |r| <= |s|
  {
    if s != [] && IsSpace(s[0]) then Trim(s[1..])
    else if s != [] && IsSpace(s[|s| - 1]) then Trim(s[..|s| - 1])
    else s
  }

  /** r sits at offset a in s with only whitespace around it. */
  predicate PaddedAt(s: string, a: int, r: string) {
    0 <= a <= |s| - |r| && s[a..a + |r|] == r && AllSpace(s[..a]) && AllSpace(s[a + |r|..])
  }

  lemma PaddedAtFront(s: string, a: int, r: string)
    requires s != [] && IsSpace(s[0]) && PaddedAt(s[1..], a, r)
    ensures PaddedAt(s, a + 1, r)
  {
    assert s[a + 1..a + 1 + |r|] == s[1..][a..a + |r|];
    assert s[..a + 1] == [s[0]] + s[1..][..a];
    assert s[a + 1 + |r|..] == s[1..][a + |r|..];
  }

  lemma PaddedAtBack(s: string, a: int, r: string)
    requires s != [] && IsSpace(s[|s| - 1]) && PaddedAt(s[..|s| - 1], a, r)
    ensures PaddedAt(s, a, r)
  {
    var t := s[..|s| - 1];
    assert s[a..a + |r|] == t[a..a + |r|];
    assert s[..a] == t[..a];
    assert s[a + |r|..] == t[a + |r|..] + [s[|s| - 1]];
  }

  /** Where Trim(s) starts inside s. */
  lemma {:induction false} TrimOffset(s: string) returns (a: int)
    ensures PaddedAt(s, a, Trim(s))
  {
    if s != [] && IsSpace(s[0]) {
      var b := TrimOffset(s[1..]);
      PaddedAtFront(s, b, Trim(s));
      a := b + 1;
    } else if s != [] && IsSpace(s[|s| - 1]) {
      a := TrimOffset(s[..|s| - 1]);
      PaddedAtBack(s, a, Trim(s));
    } else {
      a := 0;
      assert s[0..|s|] == s;
    }
  }

  /** What strip() removes is whitespace, at the two ends only: s is whitespace,
      then Trim(s), then whitespace. */
  lemma TrimRemovesOnlyEdges(s: string)
    ensures exists a :: PaddedAt(s, a, Trim(s))
  {
    var a := TrimOffset(s);
  }

  /** Whatever whitespace surrounds a trimmed string, strip() gives that string back. */
  lemma {:induction false} TrimPadded(w1: string, t: string, w2: string)
    requires AllSpace(w1) && AllSpace(w2) && Trimmed(t)
    ensures Trim(w1 + t + w2) == t
    decreases |w1| + |w2|
  {
    var s := w1 + t + w2;
    if w1 != [] {
      assert s[0] == w1[0];
      assert s[1..] == w1[1..] + t + w2;
      TrimPadded(w1[1..], t, w2);
    } else if w2 != [] {
      assert s == t + w2;
      if t == [] {
        assert s[0] == w2[0];
        assert s[1..] == [] + [] + w2[1..];
        TrimPadded([], [], w2[1..]);
      } else {
        assert s[0] == t[0] && s[|s| - 1] == w2[|w2| - 1];
        assert s[..|s| - 1] == [] + t + w2[..|w2| - 1];
        TrimPadded([], t, w2[..|w2| - 1]);
      }
    } else {
      assert s == t;
    }
  }

  lemma TrimTrimmed(s: string)
    requires Trimmed(s)
    ensures Trim(s) == s
  {
  }

  /** str.lower() on one ASCII character. */
  function LowerChar(c: char): char {
    if 'A' <= c <= 'Z' then (c as int - 'A' as int + 'a' as int) as char else c
  }

  /** str.lower(), ASCII letters only. */
  function Lower(s: string): (r: string)
    ensures |r| == |s|
    ensures forall i :: 0 <= i < |s| ==> r[i] == LowerChar(s[i])
  {
    if s == [] then [] else [LowerChar(s[0])] + Lower(s[1..])
  }

  predicate IsDigit(c: char) {
    '0' <= c <= '9'
  }

  /** str.isdigit() over ASCII: at least one character, and all of them decimal digits. */
  predicate IsDigits(s: string) {
    |s| > 0 && forall i :: 0 <= i < |s| ==> IsDigit(s[i])
  }

  /** The value of a string of decimal digits, leading zeros allowed. */
  function DigitsValue(s: string): nat
    requires forall i :: 0 <= i < |s| ==> IsDigit(s[i])
  {
    if s == [] then 0
    else
      assert IsDigit(s[|s| - 1]);
      DigitsValue(s[..|s| - 1]) * 10 + (s[|s| - 1] as int - '0' as int)
  }

  function DigitChar(d: nat): char
    requires d < 10
  {
    ('0' as int + d) as char
  }

  /** str(n) for a non-negative int: its decimal numeral, without leading zeros. */
  function Decimal(n: nat): (s: string)
    ensures IsDigits(s)
    ensures |s| > 1 ==> s[0] != '0'
  {
    if n < 10 then [DigitChar(n)] else Decimal(n / 10) + [DigitChar(n % 10)]
  }

  /** str(n) for any int. */
  function IntDecimal(n: int): string {
    if n < 0 then "-" + Decimal(-n) else Decimal(n)
  }

  /** int(s) on a string already stripped: an optional '+' or '-' and then one or more
      decimal digits; anything else is a ValueError, modelled as None. */
  function ParseInt(s: string): (r: Option<int>)
    ensures r.Some? <==> IsDigits(s) || (|s| > 1 && (s[0] == '+' || s[0] == '-') && IsDigits(s[1..]))
    ensures IsDigits(s) ==> r == Some(DigitsValue(s))
    ensures r.Some? && !IsDigits(s) ==>
      r.value == (if s[0] == '-' then -(DigitsValue(s[1..]) as int) else DigitsValue(s[1..]))
  {
    if |s| > 0 && (s[0] == '+' || s[0] == '-') then
      if IsDigits(s[1..]) then
        var magnitude: int := DigitsValue(s[1..]);
        Some(if s[0] == '-' then -magnitude else magnitude)
      else
        None
    else if IsDigits(s) then
      Some(DigitsValue(s))
    else
      None
  }

  lemma {:induction false} DecimalRoundTrip(n: nat)
    ensures DigitsValue(Decimal(n)) == n
  {
    if n >= 10 {
      var s := Decimal(n);
      assert s[..|s| - 1] == Decimal(n / 10);
      DecimalRoundTrip(n / 10);
    }
  }

  /** A numeral has no whitespace at either end. */
  lemma DecimalTrimmed(n: nat)
    ensures Trimmed(Decimal(n)) && Trimmed("-" + Decimal(n))
  {
    var d := Decimal(n);
    assert IsDigit(d[0]) && IsDigit(d[|d| - 1]);
    assert ("-" + d)[|"-" + d| - 1] == d[|d| - 1];
  }

  /** A minus sign before a numeral is read as its negation. */
  lemma ParseNegative(n: nat)
    ensures ParseInt("-" + Decimal(n)) == Some(-(n as int))
  {
    var s := "-" + Decimal(n);
    assert s[0] == '-' && s[1..] == Decimal(n);
    DecimalRoundTrip(n);
  }

  /** int(str(n)) == n for every integer n. */
  lemma ParseIntRoundTrip(n: int)
    ensures Trimmed(IntDecimal(n))
    ensures ParseInt(IntDecimal(n)) == Some(n)
  {
    if n < 0 {
      DecimalTrimmed(-n);
      ParseNegative(-n);
    } else {
      DecimalTrimmed(n);
      DecimalRoundTrip(n);
    }
  }
}
