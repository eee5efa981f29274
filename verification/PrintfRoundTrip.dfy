/** atoi reads back what snprintf's %d printed (lib/stdlib.c, lib/stdio.c). */
module PrintfRoundTrip {
  import opened Bits
  import opened Numerals
  import opened Printf
  import Arithmetic

  ghost predicate AllDigits(s: string) { forall c :: c in s ==> IsDigit(c) }

  // ---- Digit strings -----------------------------------------------------------------

  lemma {:induction false} LeadSplit(d: string, t: string)
    requires AllDigits(d)
    ensures Lead(d + t) == d + Lead(t)
  {
    if d == [] {
      assert d + t == t;
    } else {
      LeadSplit(d[1..], t);
      assert (d + t)[1..] == d[1..] + t && (d + t)[0] == d[0] && d[0] in d;
      assert Lead(d + t) == [d[0]] + Lead(d[1..] + t);
      assert [d[0]] + (d[1..] + Lead(t)) == d + Lead(t);
    }
  }

  /** What follows a character that is no digit does not matter. */
  lemma {:induction false} LeadStops(s: string, t: string)
    requires !AllDigits(s)
    ensures Lead(s + t) == Lead(s)
  {
    assert s != [];
    assert (s + t)[0] == s[0];
    if IsDigit(s[0]) {
      assert s == [s[0]] + s[1..];
      LeadStops(s[1..], t);
      assert (s + t)[1..] == s[1..] + t;
    }
  }

  lemma {:induction false} DecimalZeros(n: nat, t: string)
    requires AllDigits(t)
    ensures AllDigits(Repeat('0', n) + t) && Decimal(Repeat('0', n) + t) == Decimal(t)
    decreases |t|, n
  {
    var s := Repeat('0', n) + t;
    if t != [] {
      var m := |t| - 1;
      DecimalZeros(n, t[..m]);
      assert s[..|s|-1] == Repeat('0', n) + t[..m];
    } else if n > 0 {
      DecimalZeros(n - 1, t);
      assert s == Repeat('0', n);
      assert s[..|s|-1] == Repeat('0', n - 1) + t;
    }
  }

  lemma TenDigits(v: nat)
    ensures IsDigit(LastDigit(v, BASE_D)) && DigitOf(LastDigit(v, BASE_D)) == v % 10
  {
    var k := v % 10;
    assert BASE_D.digits[k] == '0' + (k as char);
  }

  /** Without commas the digits denote the number. */
  lemma {:induction false} DigitsDenote(v: nat, cnt: nat)
    ensures AllDigits(Digits(v, BASE_D, false, cnt)) && Decimal(Digits(v, BASE_D, false, cnt)) == v
  {
    if v > 0 {
      hide LastDigit;
      var q, d := Shifted(v, BASE_D), LastDigit(v, BASE_D);
      DigitsDenote(q, cnt + 1);
      TenDigits(v);
      var s := Digits(q, BASE_D, false, cnt + 1);
      assert Digits(v, BASE_D, false, cnt) == s + [d];
      assert (s + [d])[..|s|] == s;
    }
  }

  /** One more digit, and a comma or not, after digits that have no comma. */
  lemma LeadExtend(a: string, d: char, comma: string)
    requires AllDigits(a) && IsDigit(d) && (comma == [] || comma == [','])
    ensures Lead(a) == a && Lead(a + ([d] + comma)) == a + [d]
    ensures Decimal(a + [d]) == 10 * Decimal(a) + DigitOf(d)
  {
    hide IsDigit, DigitOf;
    assert Lead(comma) == [] by { assert !IsDigit(',') by { CommaIsNoDigit(); } }
    LeadSplit(a, [d] + comma);
    LeadSplit([d], comma);
    LeadSplit(a, []);
    assert a + [] == a && (a + [d])[..|a|] == a;
  }

  lemma CommaIsNoDigit()
    ensures !IsDigit(',')
  {
  }

  /** With commas the leading digits denote no more. */
  lemma {:induction false} LeadBound(v: nat, cnt: nat)
    ensures Decimal(Lead(Digits(v, BASE_D, true, cnt))) <= v
  {
    if v > 0 {
      hide LastDigit, Decimal, Lead, AllDigits, IsDigit, DigitOf, Digits, Shifted, CommaAfter;
      var q, d := Shifted(v, BASE_D), LastDigit(v, BASE_D);
      var a, comma := Digits(q, BASE_D, true, cnt + 1), if CommaAfter(BASE_D, true, cnt) then [','] else [];
      LeadBound(q, cnt + 1);
      DigitsStep(v, BASE_D, true, cnt, []);
      assert Digits(v, BASE_D, true, cnt) + [] == Digits(v, BASE_D, true, cnt) && [d] + comma + [] == [d] + comma;
      if AllDigits(a) {
        TenDigits(v);
        ShiftedTen(v);
        LeadExtend(a, d, comma);
      } else {
        ShiftedTen(v);
        LeadStops(a, [d] + comma);
      }
    } else {
      NoDigits(BASE_D, true, cnt);
    }
  }

  lemma ShiftedTen(v: nat)
    ensures Shifted(v, BASE_D) * 10 + v % 10 == v
  {
  }

  lemma ThreeShifts(v: nat)
    requires v >= 1000
    ensures var v1 := Shifted(v, BASE_D); var v2 := Shifted(v1, BASE_D);
            v1 > 0 && v2 > 0 && 0 < Shifted(v2, BASE_D) <= v / 1000
  {
  }

  /** The fourth digit from the right has a comma behind it. */
  lemma CommaBehindFourth(v: nat)
    requires v > 0
    ensures !AllDigits(Digits(v, BASE_D, true, 3))
  {
    hide LastDigit, Shifted;
    var s := Digits(v, BASE_D, true, 3);
    assert s == Digits(Shifted(v, BASE_D), BASE_D, true, 4) + [LastDigit(v, BASE_D)] + [','];
    assert s[|s|-1] == ',' && s[|s|-1] in s;
  }

  /** From 1000 on there is a comma, with at most v / 1000 before it. */
  lemma Thousands(v: nat, t: string)
    requires v >= 1000
    ensures Decimal(Lead(Digits(v, BASE_D, true, 0) + t)) <= v / 1000
  {
    hide LastDigit, Shifted, Digits, Decimal, Lead, AllDigits, CommaAfter;
    var b := BASE_D;
    var v1 := Shifted(v, b);
    var v2 := Shifted(v1, b);
    var v3 := Shifted(v2, b);
    ThreeShifts(v);
    DigitsStep(v, b, true, 0, t);
    var r1 := [LastDigit(v, b)] + (if CommaAfter(b, true, 0) then [','] else []) + t;
    DigitsStep(v1, b, true, 1, r1);
    var r2 := [LastDigit(v1, b)] + (if CommaAfter(b, true, 1) then [','] else []) + r1;
    DigitsStep(v2, b, true, 2, r2);
    var r3 := [LastDigit(v2, b)] + (if CommaAfter(b, true, 2) then [','] else []) + r2;
    CommaBehindFourth(v3);
    LeadBound(v3, 3);
    LeadStops(Digits(v3, b, true, 3), r3);
  }

  lemma NoComma(v: nat)
    requires v < 1000
    ensures Digits(v, BASE_D, true, 0) == Digits(v, BASE_D, false, 0)
  {
    hide LastDigit;
    var v1 := Shifted(v, BASE_D);
    var v2 := Shifted(v1, BASE_D);
    assert Shifted(v2, BASE_D) == 0;
    assert Digits(v2, BASE_D, true, 2) == Digits(v2, BASE_D, false, 2);
    assert Digits(v1, BASE_D, true, 1) == Digits(v1, BASE_D, false, 1);
  }

  // ---- The printed field ---------------------------------------------------------------

  lemma {:induction false} SkipSpaces(n: nat, t: string)
    ensures SkipSpace(Repeat(' ', n) + t) == SkipSpace(t)
  {
    if n == 0 {
      assert Repeat(' ', n) + t == t;
    } else {
      RepeatFront(' ', n - 1);
      assert (Repeat(' ', n) + t)[1..] == Repeat(' ', n - 1) + t;
      SkipSpaces(n - 1, t);
    }
  }

  lemma LeadSpaces(n: int)
    ensures Lead(Repeat(' ', n)) == []
  {
    if n > 0 { RepeatFront(' ', n - 1); }
  }

  /** The digits of the field, with the zeros on their left: a run of zeros and the
      number's own digits. */
  lemma ZerosAndDigits(v: nat, c: Conversion, pad: int)
    ensures exists n: nat :: PadIf(c.zero, '0', pad) + Body(v, BASE_D, c) == Repeat('0', n) + Digits(v, BASE_D, c.group, 0)
  {
    hide Digits;
    var d := Digits(v, BASE_D, c.group, 0);
    var p := if c.precision < 0 then 1 else c.precision;
    var m := (if p < 63 then p else 63) - |d|;
    var k := if c.zero then pad else 0;
    var m', k' := if m < 0 then 0 else m, if k < 0 then 0 else k;
    assert PadIf(c.zero, '0', pad) == Repeat('0', k') && Padded(d, c) == Repeat('0', m') + d by {
      RepeatNone('0', m);
      RepeatNone('0', k);
      RepeatNone('0', m');
      RepeatNone('0', k');
    }
    ZerosAdd(k', m', d);
  }

  lemma ZerosAdd(k: nat, m: nat, d: string)
    ensures Repeat('0', k) + (Repeat('0', m) + d) == Repeat('0', k + m) + d
  {
    RepeatSum('0', k, m);
  }

  lemma {:induction false} RepeatSum(ch: char, a: nat, b: nat)
    ensures Repeat(ch, a) + Repeat(ch, b) == Repeat(ch, a + b)
  {
    if b > 0 { RepeatSum(ch, a, b - 1); }
  }

  ghost predicate SignOk(sign: string) { sign == "" || sign == " " || sign == "+" || sign == "-" }

  /** Past the white space, a sign if there is one, and then rest. */
  lemma SkipSign(sign: string, rest: string)
    requires SignOk(sign)
    requires rest != [] && IsSpace(rest[0]) ==> SkipSpace(rest) == []
    requires rest != [] ==> IsDigit(rest[0]) || IsSpace(rest[0])
    ensures var t := SkipSpace(sign + rest);
            && (Negative(t) <==> sign == "-")
            && (Unsigned(t) == rest || (SkipSpace(rest) == [] && Unsigned(t) == []))
  {
    if sign == "" {
      assert sign + rest == rest;
    } else {
      assert (sign + rest)[0] == sign[0] && (sign + rest)[1..] == rest;
    }
  }

  /** atoi of sign, digits and trailing spaces. */
  lemma ValueOfField(lead: int, sign: string, digits: string, trail: int)
    requires SignOk(sign) && (digits != [] ==> IsDigit(digits[0]))
    ensures var s := Repeat(' ', lead) + (sign + (digits + Repeat(' ', trail)));
            && Magnitude(s) == Decimal(Lead(digits + Repeat(' ', trail)))
            && (Negative(SkipSpace(s)) <==> sign == "-")
  {
    hide Decimal, Lead, Repeat, IsDigit, IsSpace, SkipSpace, Negative, Unsigned, SignOk;
    var blank := Repeat(' ', trail);
    var rest := digits + blank;
    var n: nat := if lead < 0 then 0 else lead;
    RepeatNone(' ', lead);
    RepeatNone(' ', n);
    SkipSpaces(n, sign + rest);
    BlankField(trail);
    if digits == [] {
      assert rest == blank;
      SpaceStart(trail);
    } else {
      assert rest[0] == digits[0];
      DigitNotSpace(rest[0]);
    }
    SkipSign(sign, rest);
    if digits != [] { DigitStart(rest); }
  }

  lemma SpaceStart(n: int)
    ensures Repeat(' ', n) != [] ==> IsSpace(Repeat(' ', n)[0])
  {
    if n > 0 { RepeatFront(' ', n - 1); }
  }

  lemma DigitNotSpace(ch: char)
    requires IsDigit(ch)
    ensures !IsSpace(ch)
  {
  }

  lemma DigitStart(s: string)
    requires s != [] && IsDigit(s[0])
    ensures SkipSpace(s) != []
  {
  }

  lemma BlankField(n: int)
    ensures SkipSpace(Repeat(' ', n)) == [] && Lead(Repeat(' ', n)) == [] && Lead([]) == []
  {
    LeadSpaces(n);
    if n > 0 {
      SkipSpaces(n, []);
      assert Repeat(' ', n) + [] == Repeat(' ', n);
    }
  }

  /** What snprintf writes for %d. */
  ghost function FormatD(v: int, c: Conversion): (s: string) {
    Rendered(Arithmetic.Abs(v), true, v < 0, BASE_D, c)
  }

  /** The magnitude that atoi reads is that of the field's leading digits. */
  lemma FieldMagnitude(v: int, c: Conversion) returns (n: nat, trail: int)
    ensures var d := Digits(Arithmetic.Abs(v), BASE_D, c.group, 0);
            && Magnitude(FormatD(v, c)) == Decimal(Lead(Repeat('0', n) + d + Repeat(' ', trail)))
            && (Negative(SkipSpace(FormatD(v, c))) <==> v < 0)
  {
    hide Decimal, Lead, Digits, Body, Magnitude, Repeat, SkipSpace, Negative, FormatD;
    var m := Arithmetic.Abs(v);
    var sign, body := Sign(true, v < 0, c), Body(m, BASE_D, c);
    var pad := c.width - |body| - |sign|;
    FieldParts(v, c, pad);
    ZerosAndDigits(m, c, pad);
    var d := Digits(m, BASE_D, c.group, 0);
    n :| PadIf(c.zero, '0', pad) + body == Repeat('0', n) + d;
    trail := if c.minus then pad else 0;
    RepeatNone(' ', 0);
    FirstIsDigit(n, m, c.group);
    ValueOfField(if !c.minus && !c.zero then pad else 0, sign, Repeat('0', n) + d, trail);
  }

  /** The field as padding, sign, digits and padding. */
  lemma FieldParts(v: int, c: Conversion, pad: int)
    requires pad == c.width - |Body(Arithmetic.Abs(v), BASE_D, c)| - |Sign(true, v < 0, c)|
    ensures FormatD(v, c) == PadIf(!c.minus && !c.zero, ' ', pad) +
              (Sign(true, v < 0, c) + ((PadIf(c.zero, '0', pad) + Body(Arithmetic.Abs(v), BASE_D, c)) + PadIf(c.minus, ' ', pad)))
  {
    hide Digits, Body, Repeat, PadIf, Sign;
    Regroup(PadIf(!c.minus && !c.zero, ' ', pad), Sign(true, v < 0, c), PadIf(c.zero, '0', pad),
            Body(Arithmetic.Abs(v), BASE_D, c), PadIf(c.minus, ' ', pad));
  }

  lemma Regroup(a: string, sign: string, z: string, b: string, t: string)
    ensures a + sign + [] + z + b + t == a + (sign + ((z + b) + t))
  {
  }

  lemma {:induction false} DigitsStart(v: nat, grouped: bool, cnt: nat)
    ensures var d := Digits(v, BASE_D, grouped, cnt); d != [] ==> IsDigit(d[0])
  {
    hide LastDigit, CommaAfter;
    if v > 0 {
      DigitsStart(Shifted(v, BASE_D), grouped, cnt + 1);
      TenDigits(v);
    }
  }

  lemma FirstIsDigit(n: nat, v: nat, grouped: bool)
    ensures var s := Repeat('0', n) + Digits(v, BASE_D, grouped, 0); s != [] ==> IsDigit(s[0])
  {
    hide Digits;
    DigitsStart(v, grouped, 0);
    RepeatNone('0', n);
    if n > 0 { assert Repeat('0', n)[0] in Repeat('0', n); }
  }

  /** atoi undoes %d, for every int, width, precision and set of flags, unless the '
      flag puts a comma into the number: that is, unless it is given and the magnitude
      is 1000 or more. */
  lemma PrintThenParse(v: int, c: Conversion)
    ensures Value(FormatD(v, c)) == v <==> !(c.group && Arithmetic.Abs(v) >= 1000)
  {
    hide Digits, Decimal, Lead, Rendered, Repeat;
    var n, trail := FieldMagnitude(v, c);
    var d, t := Digits(Arithmetic.Abs(v), BASE_D, c.group, 0), Repeat(' ', trail);
    assert Repeat('0', n) + d + t == Repeat('0', n) + (d + t);
    LeadSplit(Repeat('0', n), d + t);
    DecimalZeros(n, Lead(d + t));
    if c.group && Arithmetic.Abs(v) >= 1000 {
      Thousands(Arithmetic.Abs(v), t);
    } else {
      if c.group { NoComma(Arithmetic.Abs(v)); }
      DigitsDenote(Arithmetic.Abs(v), 0);
      LeadSplit(d, t);
      LeadSpaces(trail);
      assert d + [] == d;
    }
  }

  // ---- Through a buffer ------------------------------------------------------------------

  lemma {:induction false} DigitsNoNull(v: nat, b: Base, grouped: bool, cnt: nat)
    requires BaseOk(b) && '\0' !in b.digits
    ensures '\0' !in Digits(v, b, grouped, cnt)
  {
    hide LastDigit, Shifted;
    if v > 0 { DigitsNoNull(Shifted(v, b), b, grouped, cnt + 1); }
  }

  lemma RenderedNoNull(v: nat, signed: bool, negative: bool, b: Base, c: Conversion)
    requires BaseOk(b) && '\0' !in b.digits && b.x != Some('\0')
    ensures '\0' !in Rendered(v, signed, negative, b, c)
  {
    hide Digits, Repeat;
    DigitsNoNull(v, b, c.group, 0);
  }

  /** Any int, printed with %d into a buffer that is large enough, is what atoi reads. */
  method PrintAndParse(v: int, c: Conversion, size: nat) returns (r: int)
    requires INT_MIN <= v <= INT_MAX && size > |FormatD(v, c)|
    requires !(c.group && Arithmetic.Abs(v) >= 1000)
    ensures r == v
  {
    hide Rendered;
    var buffer := new char[size];
    var n := SnprintfInteger(buffer, if v < 0 then -v else v, true, v < 0, BASE_D, c);
    ghost var s := FormatD(v, c);
    RenderedNoNull(Arithmetic.Abs(v), true, v < 0, BASE_D, c);
    assert s[..n] == s;
    CStringIs(buffer[..], n);
    PrintThenParse(v, c);
    r := Atoi(CString(buffer[..]));
  }
}
