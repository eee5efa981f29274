/** The parts of a ustar header (lib/ustar.c): octal fields and file names. */
module UstarFields {
  import opened Bits
  import opened Numerals
  import opened Printf
  import opened PrintfParse

  // ---- Octal numerals ----------------------------------------------------------------

  const ULONG_MAX: nat := 0xffff_ffff

  predicate IsOctal(c: char) { '0' <= c <= '7' }

  function OctalDigit(c: char): (d: nat)
    requires IsOctal(c)
    ensures d < 8
  {
    (c - '0') as int
  }

  ghost predicate AllOctal(s: string) { forall c :: c in s ==> IsOctal(c) }

  /** The number that octal digits denote. */
  ghost function Octal(t: string): (n: nat)
    requires AllOctal(t)
  {
    if t == [] then 0 else 8 * Octal(t[..|t|-1]) + OctalDigit(t[|t|-1])
  }

  /** The octal digits that s starts with. */
  ghost function OctalLead(s: string): (t: string)
    ensures |t| <= |s| && t == s[..|t|] && AllOctal(t)
  {
    if s == [] || !IsOctal(s[0]) then [] else [s[0]] + OctalLead(s[1..])
  }

  /** What an octal field denotes: at least one digit, then a space or a null within
      the field, and a value that fits an unsigned long. */
  ghost function OctalField(s: string): (r: Option<nat>) {
    var t := OctalLead(s);
    if 0 < |t| < |s| && (s[|t|] == ' ' || s[|t|] == '\0') && Octal(t) <= ULONG_MAX then Some(Octal(t)) else None
  }

  lemma {:induction false} OctalLeadAt(s: string, i: nat)
    requires i <= |OctalLead(s)|
    ensures i < |OctalLead(s)| <==> i < |s| && IsOctal(s[i])
  {
    if i > 0 { OctalLeadAt(s[1..], i - 1); }
  }

  lemma OctalNext(t: string, k: nat)
    requires k < |t| && AllOctal(t)
    ensures Octal(t[..k+1]) == 8 * Octal(t[..k]) + OctalDigit(t[k])
  {
    assert t[..k+1][..k] == t[..k];
  }

  lemma {:induction false} OctalPrefix(t: string, i: nat)
    requires i <= |t| && AllOctal(t)
    ensures Octal(t[..i]) <= Octal(t)
  {
    if i < |t| {
      var n := |t| - 1;
      OctalPrefix(t[..n], i);
      assert t[..n][..i] == t[..i];
    } else {
      assert t[..i] == t;
    }
  }

  lemma OctalNone()
    ensures Octal([]) == 0
  {
  }

  /** parse_octal_field. Its overflow test rejects a digit exactly when the value would
      no longer fit, and no partial value ever exceeds an unsigned long. */
  method ParseOctalField(s: string) returns (r: Option<nat>)
    ensures r == OctalField(s)
  {
    hide Octal, OctalLead, IsOctal, OctalDigit;
    ghost var digits := OctalLead(s);
    var value, ofs := 0, 0;
    OctalNone();
    OctalLeadAt(s, 0);
    assert digits[..0] == [];
    while ofs < |s|
      invariant 0 <= ofs <= |digits| && value == Octal(digits[..ofs]) <= ULONG_MAX
      invariant ofs < |digits| <==> ofs < |s| && IsOctal(s[ofs])
    {
      if IsOctal(s[ofs]) {
        OctalNext(digits, ofs);
        OctalPrefix(digits, ofs + 1);
        OctalLeadAt(s, ofs + 1);
        if value > ULONG_MAX / 8 {
          return None;
        }
        value := OctalDigit(s[ofs]) + value * 8;
      } else {
        assert digits[..ofs] == digits;
        return if (s[ofs] == ' ' || s[ofs] == '\0') && ofs > 0 then Some(value) else None;
      }
      ofs := ofs + 1;
    }
    return None;
  }

  // ---- What snprintf prints into an octal field ---------------------------------------

  /** The conversion that "%0<width>o" asks for. */
  function ZeroPadded(width: nat): (c: Conversion) {
    Conversion(false, false, false, false, true, false, width, -1)
  }

  /** What parse_conversion makes of the two octal formats. */
  lemma OctalFormats(args: seq<int>)
    ensures Means("07o", args, 1, 2, 2, ZeroPadded(7)) && Means("011o", args, 1, 3, 3, ZeroPadded(11))
  {
    assert "07o"[1..2] == "7" && "7"[..0] == "" && "011o"[1..3] == "11" && "11"[..1] == "1" && "1"[..0] == "";
    assert Decimal("1") == 1 && Decimal("11") == 11 && Decimal("7") == 7;
    assert "07o"[..1] == "0" && "011o"[..1] == "0";
    assert FlagRun("07o", 0, 1) && DigitRun("07o", 1, 2);
    assert FlagRun("011o", 0, 1) && DigitRun("011o", 1, 3);
  }

  ghost function FormatO(v: nat, width: nat): (s: string) {
    Rendered(v, false, false, BASE_O, ZeroPadded(width))
  }

  lemma LastOctal(v: nat)
    ensures IsOctal(LastDigit(v, BASE_O)) && OctalDigit(LastDigit(v, BASE_O)) == v % 8
  {
    var k := v % 8;
    assert BASE_O.digits[k] == '0' + (k as char);
  }

  lemma {:induction false} OctalDigitsDenote(v: nat, cnt: nat)
    ensures var s := Digits(v, BASE_O, false, cnt); AllOctal(s) && Octal(s) == v
  {
    if v > 0 {
      hide LastDigit;
      var q, d := Shifted(v, BASE_O), LastDigit(v, BASE_O);
      OctalDigitsDenote(q, cnt + 1);
      LastOctal(v);
      var s := Digits(q, BASE_O, false, cnt + 1);
      assert Digits(v, BASE_O, false, cnt) == s + [d];
      assert (s + [d])[..|s|] == s;
    }
  }

  lemma {:induction false} OctalDigitCount(v: nat, cnt: nat, n: nat)
    requires v < Eights(n)
    ensures |Digits(v, BASE_O, false, cnt)| <= n
  {
    if v > 0 {
      OneDigitLess(v, BASE_O, n);
      OctalDigitCount(Shifted(v, BASE_O), cnt + 1, n - 1);
    }
  }

  lemma {:induction false} OctalZeros(n: nat, t: string)
    requires AllOctal(t)
    ensures AllOctal(Repeat('0', n) + t) && Octal(Repeat('0', n) + t) == Octal(t)
    decreases |t|, n
  {
    var s := Repeat('0', n) + t;
    if t != [] {
      var m := |t| - 1;
      OctalZeros(n, t[..m]);
      assert s[..|s|-1] == Repeat('0', n) + t[..m];
    } else if n > 0 {
      OctalZeros(n - 1, t);
      assert s == Repeat('0', n);
      assert s[..|s|-1] == Repeat('0', n - 1) + t;
    }
  }

  /** A number that fits is printed as exactly width octal digits that denote it. */
  lemma FormatODenotes(v: nat, width: nat)
    requires width > 0 && v < Eights(width)
    ensures var s := FormatO(v, width); |s| == width && AllOctal(s) && Octal(s) == v
  {
    hide AllOctal, Octal, Digits, Eights;
    var d, c := Digits(v, BASE_O, false, 0), ZeroPadded(width);
    OctalDigitsDenote(v, 0);
    OctalDigitCount(v, 0, width);
    var body := Body(v, BASE_O, c);
    assert body == Repeat('0', 1 - |d|) + d;
    var k := if |d| == 0 then 1 else 0;
    assert Repeat('0', 1 - |d|) == Repeat('0', k);
    OctalZeros(k, d);
    OctalZeros(width - |body|, body);
    assert FormatO(v, width) == Repeat('0', width - |body|) + body;
  }

  lemma {:induction false} OctalLeadWhole(s: string, ch: char, rest: string)
    requires AllOctal(s) && !IsOctal(ch)
    ensures OctalLead(s + [ch] + rest) == s
  {
    var t := s + [ch] + rest;
    if s == [] {
      assert t[0] == ch;
    } else {
      assert t[0] == s[0] && s[0] in s && t[1..] == s[1..] + [ch] + rest;
      OctalLeadWhole(s[1..], ch, rest);
    }
  }

  /** Printing and parsing an octal field. */
  lemma OctalRoundTrip(v: nat, width: nat)
    requires width > 0 && v < Eights(width) && v <= ULONG_MAX
    ensures OctalField(FormatO(v, width) + ['\0']) == Some(v)
  {
    hide FormatO, Octal, Eights;
    FormatODenotes(v, width);
    var s := FormatO(v, width);
    OctalLeadWhole(s, '\0', []);
    assert s + ['\0'] + [] == s + ['\0'];
  }

  // ---- File names --------------------------------------------------------------------

  /** A C string, without its null, of bytes. */
  ghost predicate IsName(s: string) { forall c :: c in s ==> 0 < c as int < 256 }

  /** s starts with "/", "./" or "../". */
  predicate Antisocial(s: string) {
    || At(s, 0) == '/'
    || (At(s, 0) == '.' && At(s, 1) == '/')
    || (At(s, 0) == '.' && At(s, 1) == '.' && At(s, 2) == '/')
  }

  lemma AntisocialIs(s: string)
    ensures Antisocial(s) <==> "/" <= s || "./" <= s || "../" <= s
  {
    assert |s| >= 1 ==> s[..1] == [s[0]];
    assert |s| >= 2 ==> s[..2] == [s[0], s[1]];
    assert |s| >= 3 ==> s[..3] == [s[0], s[1], s[2]];
  }

  /** The number of characters before the first slash. */
  ghost function SlashAt(s: string): (n: nat) {
    if s == "" || s[0] == '/' then 0 else 1 + SlashAt(s[1..])
  }

  /** The length of the prefix that one round of the loop drops. */
  ghost function PrefixLength(s: string): (n: nat)
    requires Antisocial(s)
    ensures 0 < n <= |s| && n == SlashAt(s) + 1 && s[n-1] == '/'
  {
    assert At(s, 0) == '.' ==> SlashAt(s) == 1 + SlashAt(s[1..]);
    assert At(s, 0) == '.' && At(s, 1) == '.' ==> SlashAt(s[1..]) == 1 + SlashAt(s[1..][1..]);
    if At(s, 0) == '/' then 1 else if At(s, 1) == '/' then 2 else 3
  }

  function Harmless(s: string): (t: string) { if s == "" || s == ".." then "." else s }

  ghost function Stripped(s: string): (t: string) {
    if Antisocial(s) then Stripped(s[PrefixLength(s)..]) else Harmless(s)
  }

  /** strchr (s, '/') + 1, for a string with a slash in it. */
  method AfterSlash(s: string) returns (t: string)
    requires SlashAt(s) < |s|
    ensures t == s[SlashAt(s) + 1..]
  {
    var n := 0;
    while s[n] != '/'
      invariant 0 <= n < |s| && SlashAt(s) == n + SlashAt(s[n..]) < |s|
      decreases |s| - n
    {
      assert s[n..][1..] == s[n+1..];
      n := n + 1;
    }
    return s[n+1..];
  }

  /** strip_antisocial_prefixes */
  method StripPrefixes(fileName: string) returns (t: string)
    ensures t == Stripped(fileName)
  {
    t := fileName;
    while Antisocial(t)
      invariant Stripped(t) == Stripped(fileName)
      decreases |t|
    {
      ghost var n := PrefixLength(t);
      t := AfterSlash(t);
    }
    t := Harmless(t);
  }

  /** A name that extraction may use as it stands. */
  predicate Safe(s: string) { s != "" && s != ".." && !Antisocial(s) }

  /** s is a run of "/", "./" and "../". */
  ghost predicate AllDropped(s: string) {
    s == "" || (Antisocial(s) && AllDropped(s[PrefixLength(s)..]))
  }

  /** Stripping gives a safe name: what is left of the name behind its longest run of
      antisocial prefixes, or ".". */
  lemma {:induction false} StrippedIs(s: string) returns (k: nat)
    ensures Safe(Stripped(s))
    ensures k <= |s| && AllDropped(s[..k]) && !Antisocial(s[k..])
    ensures Stripped(s) == if s[k..] == "" || s[k..] == ".." then "." else s[k..]
    decreases |s|
  {
    if Antisocial(s) {
      var n := PrefixLength(s);
      var j := StrippedIs(s[n..]);
      k := n + j;
      assert s[..k][n..] == s[n..][..j] && s[n..][j..] == s[k..];
      DroppedMore(s, k);
    } else {
      k := 0;
      assert s[..0] == "" && s[0..] == s;
      HarmlessSafe(s);
    }
  }

  lemma HarmlessSafe(s: string)
    requires !Antisocial(s)
    ensures Safe(Harmless(s))
  {}

  lemma DroppedMore(s: string, k: nat)
    requires Antisocial(s) && PrefixLength(s) <= k <= |s|
    ensures Antisocial(s[..k]) && PrefixLength(s[..k]) == PrefixLength(s)
  {
    hide SlashAt;
  }

  /** Exactly the safe names are left alone; so stripping twice is stripping once. */
  lemma StrippedFixpoint(s: string)
    ensures Stripped(s) == s <==> Safe(s)
    ensures Stripped(Stripped(s)) == Stripped(s)
  {
    var _ := StrippedIs(s);
  }

  lemma {:induction false} StrippedName(s: string)
    requires IsName(s)
    ensures IsName(Stripped(s))
    decreases |s|
  {
    if Antisocial(s) {
      var t := s[PrefixLength(s)..];
      forall c | c in t ensures 0 < c as int < 256 { assert c in s; }
      StrippedName(t);
    }
  }
}
