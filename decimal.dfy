/** Decimal integers as `printf("%d")` writes them and `sscanf("%d")` reads them. */
module Decimal {
  import opened CText

  predicate IsDigit(c: char)
  {
    '0' <= c <= '9'
  }

  function DigitChar(d: nat): (c: char)
    requires d < 10
    ensures IsDigit(c)
  {
    ('0' as int + d) as char
  }

  function DigitValue(c: char): (d: nat)
    requires IsDigit(c)
    ensures d < 10 && DigitChar(d) == c
  {
    (c as int - '0' as int)
  }

  /** The decimal digits of `n`, most significant first, without leading zeros. */
  function NatToString(n: nat): (s: string)
    ensures s != [] && forall k :: 0 <= k < |s| ==> IsDigit(s[k])
    decreases n
  {
    if n < 10 then [DigitChar(n)] else NatToString(n / 10) + [DigitChar(n % 10)]
  }

  /** `%d`: a minus sign for negative values, then the digits of the magnitude. */
  function IntToString(i: int): (s: string)
    ensures s != [] && IsDigit(s[|s| - 1])
    ensures forall k :: 0 <= k < |s| ==> IsDigit(s[k]) || (k == 0 && s[k] == '-')
  {
    if i < 0 then "-" + NatToString(-i) else NatToString(i)
  }

  /** The value of a string of digits. */
  function DigitsValue(s: string): nat
    requires forall k :: 0 <= k < |s| ==> IsDigit(s[k])
    decreases |s|
  {
    if s == [] then 0 else 10 * DigitsValue(s[..|s| - 1]) + DigitValue(s[|s| - 1])
  }

  /** Number of leading digits of `s`. */
  function DigitRun(s: string): (n: nat)
    ensures n <= |s|
    ensures forall k :: 0 <= k < n ==> IsDigit(s[k])
    ensures n < |s| ==> !IsDigit(s[n])
    decreases |s|
  {
    if s != [] && IsDigit(s[0]) then 1 + DigitRun(s[1..]) else 0
  }

  /** `%d` conversion: skip white space, an optional sign, at least one
      digit; the value and the text after the digits. */
  function ScanInt(s: string): (r: Option<(int, string)>)
    ensures r.Some? ==> |r.value.1| < |s|
    ensures r.Some? ==> r.value.1 == [] || !IsDigit(r.value.1[0])
  {
    var t := s[SpaceRun(s)..];
    var negative := t != [] && t[0] == '-';
    var u := if t != [] && (t[0] == '-' || t[0] == '+') then t[1..] else t;
    var n := DigitRun(u);
    if n == 0 then None
    else
      var magnitude: int := DigitsValue(u[..n]);
      Some((if negative then -magnitude else magnitude, u[n..]))
  }

  /** Reading the digits of `n` back gives `n`. */
  lemma {:induction false} NatToStringValue(n: nat)
    ensures DigitsValue(NatToString(n)) == n
    decreases n
  {
    var s := NatToString(n);
    if n >= 10 {
      NatToStringValue(n / 10);
      assert s[..|s| - 1] == NatToString(n / 10);
    }
  }

  lemma DigitRunOf(digits: string, rest: string)
    requires forall k :: 0 <= k < |digits| ==> IsDigit(digits[k])
    requires rest == [] || !IsDigit(rest[0])
    ensures DigitRun(digits + rest) == |digits|
    ensures (digits + rest)[..|digits|] == digits && (digits + rest)[|digits|..] == rest
  {
    DigitRunOfFrom(digits, rest);
  }

  lemma {:induction false} DigitRunOfFrom(digits: string, rest: string)
    requires forall k :: 0 <= k < |digits| ==> IsDigit(digits[k])
    requires rest == [] || !IsDigit(rest[0])
    ensures DigitRun(digits + rest) == |digits|
    decreases |digits|
  {
    if digits == [] {
      assert digits + rest == rest;
    } else {
      var s := digits + rest;
      assert s[0] == digits[0] && s[1..] == digits[1..] + rest;
      DigitRunOfFrom(digits[1..], rest);
    }
  }

  /** `sscanf("%d")` reads back what `printf("%d")` wrote, and stops at the
      first character that is not a digit. */
  lemma ScanIntToString(i: int, rest: string)
    requires rest == [] || !IsDigit(rest[0])
    ensures ScanInt(IntToString(i) + rest) == Some((i, rest))
  {
    if i < 0 {
      ScanNegative(-i, rest);
    } else {
      ScanNonNegative(i, rest);
    }
  }

  lemma ScanNonNegative(m: nat, rest: string)
    requires rest == [] || !IsDigit(rest[0])
    ensures ScanInt(NatToString(m) + rest) == Some((m, rest))
  {
    var digits := NatToString(m);
    NatToStringValue(m);
    DigitRunOf(digits, rest);
    var s := digits + rest;
    assert s[0] == digits[0];
    assert SpaceRun(s) == 0 && s[0..] == s;
  }

  lemma ScanNegative(m: nat, rest: string)
    requires rest == [] || !IsDigit(rest[0])
    ensures ScanInt("-" + NatToString(m) + rest) == Some((-(m as int), rest))
  {
    var digits := NatToString(m);
    NatToStringValue(m);
    DigitRunOf(digits, rest);
    ScanMinus(digits, rest);
  }

  /** A leading '-' is the sign of the digits after it. */
  lemma ScanMinus(digits: string, rest: string)
    ensures var u := digits + rest; var n := DigitRun(u);
      ScanInt("-" + digits + rest) == if n == 0 then None else Some((-(DigitsValue(u[..n]) as int), u[n..]))
  {
    var s := "-" + digits + rest;
    AppendAssoc("-", digits, rest);
    assert s[0] == '-' && s[1..] == digits + rest;
    assert SpaceRun(s) == 0;
    assert s[0..] == s;
  }

  function Pow10(k: nat): (p: nat)
    ensures p >= 1
  {
    if k == 0 then 1 else 10 * Pow10(k - 1)
  }

  /** A number below 10^k has at most k digits. */
  lemma {:induction false} NatToStringLength(n: nat, k: nat)
    requires 1 <= k && n < Pow10(k)
    ensures |NatToString(n)| <= k
    decreases k
  {
    if n >= 10 {
      assert Pow10(1) == 10;
      NatToStringLength(n / 10, k - 1);
    }
  }

  /** A 32-bit `int` prints in at most 11 characters. */
  lemma Int32Length(i: int)
    requires -0x8000_0000 <= i < 0x8000_0000
    ensures |IntToString(i)| <= 11
  {
    assert Pow10(10) == 10_000_000_000;
    NatToStringLength(if i < 0 then -i else i, 10);
  }
}
