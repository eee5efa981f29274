/** atoi (lib/stdlib.c) and the number that a run of digits denotes. */
module Numerals {

  const INT_MAX: int := 0x7fff_ffff
  const INT_MIN: int := -0x8000_0000

  predicate IsSpace(c: char) {
    c == ' ' || c as int == 12 || c == '\n' || c == '\r' || c == '\t' || c as int == 11
  }

  /** White space is the space and the characters with the codes 9 to 13. */
  lemma SpaceCodes(c: char)
    ensures IsSpace(c) <==> c as int == 32 || 9 <= c as int <= 13
  {
    assert '\t' as int == 9 && '\n' as int == 10 && '\r' as int == 13;
  }

  predicate IsDigit(c: char) { '0' <= c <= '9' }

  function DigitOf(c: char): (d: nat)
    requires IsDigit(c)
    ensures d < 10
  {
    (c - '0') as int
  }

  /** s without its leading white space. */
  ghost function SkipSpace(s: string): (t: string) {
    if s != [] && IsSpace(s[0]) then SkipSpace(s[1..]) else s
  }

  /** The digits that s starts with. */
  ghost function Lead(s: string): (t: string)
    ensures |t| <= |s| && t == s[..|t|] && forall c :: c in t ==> IsDigit(c)
  {
    if s == [] || !IsDigit(s[0]) then [] else [s[0]] + Lead(s[1..])
  }

  /** The number that decimal digits denote. */
  ghost function Decimal(t: string): (n: nat)
    requires forall c :: c in t ==> IsDigit(c)
  {
    if t == [] then 0 else 10 * Decimal(t[..|t|-1]) + DigitOf(t[|t|-1])
  }

  ghost predicate HasSign(s: string) { s != [] && (s[0] == '-' || s[0] == '+') }

  ghost function Unsigned(s: string): (t: string) { if HasSign(s) then s[1..] else s }

  ghost predicate Negative(s: string) { s != [] && s[0] == '-' }

  /** The magnitude and the value that s denotes. */
  ghost function Magnitude(s: string): (n: nat) { Decimal(Lead(Unsigned(SkipSpace(s)))) }

  ghost function Value(s: string): (v: int) {
    if Negative(SkipSpace(s)) then 0 - Magnitude(s) else Magnitude(s)
  }

  /** A digit string's prefixes denote no more than it does. */
  lemma {:induction false} PrefixSmaller(t: string, i: nat)
    requires i <= |t| && forall c :: c in t ==> IsDigit(c)
    ensures Decimal(t[..i]) <= Decimal(t)
  {
    if i < |t| {
      var n := |t| - 1;
      PrefixSmaller(t[..n], i);
      assert t[..n][..i] == t[..i];
    } else {
      assert t[..i] == t;
    }
  }

  /** Every character of Lead is a digit and the next one is not. */
  lemma {:induction false} LeadAt(s: string, i: nat)
    requires i <= |Lead(s)|
    ensures i < |Lead(s)| <==> i < |s| && IsDigit(s[i])
  {
    if i > 0 { LeadAt(s[1..], i - 1); }
  }

  lemma DecimalNext(t: string, k: nat)
    requires k < |t| && forall c :: c in t ==> IsDigit(c)
    ensures Decimal(t[..k+1]) == 10 * Decimal(t[..k]) + DigitOf(t[k])
  {
    assert t[..k+1][..k] == t[..k];
  }

  /** atoi's second loop. The accumulation is negative throughout, and no step of it
      leaves the range of int if the magnitude is at most that of INT_MIN. */
  method ParseDigits(s: string, first: nat) returns (value: int)
    requires first <= |s| && Decimal(Lead(s[first..])) <= -INT_MIN
    ensures value == 0 - Decimal(Lead(s[first..]))
  {
    hide Decimal, Lead, DigitOf, IsDigit;
    ghost var t := s[first..];
    ghost var digits := Lead(t);
    value := 0;
    var i := first;
    LeadAt(t, 0);
    assert Decimal(digits[..0]) == 0 by { DecimalEmpty(); }
    while i < |s| && IsDigit(s[i])
      invariant first <= i <= |s| && i - first <= |digits|
      invariant value == 0 - Decimal(digits[..i - first])
      invariant i - first < |digits| <==> i < |s| && IsDigit(s[i])
    {
      ghost var k := i - first;
      DecimalNext(digits, k);
      PrefixSmaller(digits, k + 1);
      LeadAt(t, k + 1);
      assert INT_MIN <= value * 10 - DigitOf(s[i]) <= value * 10 <= 0;
      value := value * 10 - DigitOf(s[i]);
      i := i + 1;
    }
    assert digits[..i - first] == digits;
  }

  lemma DecimalEmpty()
    ensures Decimal([]) == 0
  {
  }

  /** atoi, on every string whose value is an int. */
  method Atoi(s: string) returns (value: int)
    requires INT_MIN <= Value(s) <= INT_MAX
    ensures value == Value(s)
  {
    var i := 0;
    while i < |s| && IsSpace(s[i])
      invariant 0 <= i <= |s| && SkipSpace(s[i..]) == SkipSpace(s)
    {
      assert s[i..][1..] == s[i+1..];
      i := i + 1;
    }
    assert SkipSpace(s) == s[i..];
    var negative := false;
    if i < |s| && s[i] == '+' {
      i := i + 1;
    } else if i < |s| && s[i] == '-' {
      negative := true;
      i := i + 1;
    }
    assert Unsigned(SkipSpace(s)) == s[i..];
    value := ParseDigits(s, i);
    if !negative {
      value := -value;
    }
  }
}
