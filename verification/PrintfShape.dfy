/** What the parts of an integer conversion mean (lib/stdio.c): the number that its
    digits denote in any base, where the commas stand, and what each flag adds. */
module PrintfShape {
  import opened Bits
  import opened Printf
  import Arithmetic

  // ---- Digits ------------------------------------------------------------------------

  /** What a digit character is worth. */
  function DigitValue(ch: char): (d: nat) {
    if '0' <= ch <= '9' then (ch - '0') as int
    else if 'a' <= ch <= 'f' then 10 + (ch - 'a') as int
    else if 'A' <= ch <= 'F' then 10 + (ch - 'A') as int
    else 16
  }

  /** The number that s denotes in the given base. */
  ghost function Numeral(s: string, base: nat): (n: nat) {
    if s == [] then 0 else base * Numeral(s[..|s|-1], base) + DigitValue(s[|s|-1])
  }

  ghost predicate UsualBase(b: Base) { b in {BASE_D, BASE_O, BASE_LOWER_X, BASE_UPPER_X} }

  lemma DigitAt(b: Base, k: nat)
    requires UsualBase(b) && k < b.base
    ensures |b.digits| == b.base && DigitValue(b.digits[k]) == k && (b.digits[k] == '0' <==> k == 0)
  {
    assert k < 10 ==> b.digits[k] == '0' + (k as char);
    assert k >= 10 ==> b.digits[k] == (if b == BASE_LOWER_X then 'a' else 'A') + ((k - 10) as char);
  }

  lemma UsualOk(b: Base)
    requires UsualBase(b)
    ensures BaseOk(b)
  {
  }

  lemma LastDigitIn(v: nat, b: Base)
    requires UsualBase(b)
    ensures BaseOk(b) && b.base * Shifted(v, b) + DigitValue(LastDigit(v, b)) == v
    ensures Shifted(v, b) == 0 && v > 0 ==> LastDigit(v, b) != '0'
  {
    hide DigitValue, UsualBase;
    UsualOk(b);
    Arithmetic.DivBounds(v, b.base);
    DigitAt(b, v % b.base);
  }

  lemma NumeralNext(s: string, ch: char, base: nat)
    ensures Numeral(s + [ch], base) == base * Numeral(s, base) + DigitValue(ch)
  {
    assert (s + [ch])[..|s|] == s;
  }

  /** In each of the four bases, the digits without commas denote the number, and the
      first is not 0. */
  lemma {:induction false} DigitsDenoteIn(v: nat, b: Base, cnt: nat)
    requires UsualBase(b)
    ensures BaseOk(b)
    ensures var d := Digits(v, b, false, cnt);
            Numeral(d, b.base) == v && (d == [] <==> v == 0) && (d != [] ==> d[0] != '0')
    decreases v
  {
    LastDigitIn(v, b);
    hide UsualBase, LastDigit, Shifted, DigitValue, BaseOk, Numeral;
    if v > 0 {
      DigitsDenoteIn(Shifted(v, b), b, cnt + 1);
      var s, ch := Digits(Shifted(v, b), b, false, cnt + 1), LastDigit(v, b);
      assert Digits(v, b, false, cnt) == s + [ch];
      NumeralNext(s, ch, b.base);
    } else {
      NoNumeral(b.base);
    }
  }

  lemma NoNumeral(base: nat)
    ensures Numeral([], base) == 0
  {
  }

  // ---- Commas ------------------------------------------------------------------------

  /** v without its last n digits. */
  ghost function Without(v: nat, b: Base, n: nat): (r: nat)
    requires BaseOk(b)
    ensures r <= v
  {
    if n == 0 then v else Without(if v == 0 then 0 else Shifted(v, b), b, n - 1)
  }

  lemma CommaAgain(b: Base, cnt: nat)
    requires b.group > 0 && cnt > 0
    ensures CommaAfter(b, true, cnt + b.group) <==> CommaAfter(b, true, cnt)
  {
    var g := b.group;
    assert (cnt + g) % g == cnt % g by { RemainderAgain(cnt, g); }
  }

  lemma RemainderAgain(a: nat, g: nat)
    requires g > 0
    ensures (a + g) % g == a % g
  {
    Arithmetic.DivBounds(a, g);
    Arithmetic.DivUnique(a + g, g, a / g + 1);
  }

  /** Commas come at regular distances. */
  lemma {:induction false} Periodic(v: nat, b: Base, cnt: nat, again: nat)
    requires BaseOk(b) && cnt > 0 && again == cnt + b.group
    ensures Digits(v, b, true, again) == Digits(v, b, true, cnt)
    decreases v
  {
    CommaAgain(b, cnt);
    hide LastDigit, Shifted, CommaAfter;
    if v > 0 {
      Periodic(Shifted(v, b), b, cnt + 1, again + 1);
    }
  }

  /** v's last n digits, or all of them if it has fewer. */
  ghost function Last(v: nat, b: Base, n: nat): (s: string)
    requires BaseOk(b)
    ensures |s| <= n && (Without(v, b, n) > 0 ==> |s| == n)
  {
    if n == 0 || v == 0 then [] else Last(Shifted(v, b), b, n - 1) + [LastDigit(v, b)]
  }

  lemma {:induction false} PlainSplit(v: nat, b: Base, cnt: nat, n: nat)
    requires BaseOk(b)
    ensures Digits(v, b, false, cnt) == Digits(Without(v, b, n), b, false, cnt + n) + Last(v, b, n)
    decreases n
  {
    hide LastDigit, Shifted;
    if n > 0 {
      PlainSplit(if v == 0 then 0 else Shifted(v, b), b, cnt + 1, n - 1);
    }
  }

  lemma {:induction false} PlainAnywhere(v: nat, b: Base, cnt: nat)
    requires BaseOk(b)
    ensures Digits(v, b, false, cnt) == Digits(v, b, false, 0)
    decreases v
  {
    hide LastDigit, Shifted;
    if v > 0 {
      PlainAnywhere(Shifted(v, b), b, cnt + 1);
      PlainAnywhere(Shifted(v, b), b, 1);
    }
  }

  lemma NoCommaBefore(b: Base, cnt: nat)
    requires cnt < b.group
    ensures !CommaAfter(b, true, cnt)
  {
  }

  /** The last group has no comma in it. */
  lemma {:induction false} LastGroup(v: nat, b: Base, cnt: nat, n: nat)
    requires BaseOk(b) && cnt + n == b.group
    ensures Digits(v, b, true, cnt) == Digits(Without(v, b, n), b, true, b.group) + Last(v, b, n)
    decreases n
  {
    hide LastDigit, Shifted, CommaAfter;
    if n > 0 {
      NoCommaBefore(b, cnt);
      LastGroup(if v == 0 then 0 else Shifted(v, b), b, cnt + 1, n - 1);
    }
  }

  /** The last digit of the other groups has a comma behind it. */
  lemma CommaBehind(w: nat, b: Base)
    requires BaseOk(b) && w > 0
    ensures Digits(w, b, true, b.group) == Digits(w, b, true, 0) + [',']
  {
    hide LastDigit, Shifted, Digits;
    DigitsOpen(w, b, b.group);
    DigitsOpen(w, b, 0);
    Periodic(Shifted(w, b), b, 1, b.group + 1);
    assert b.group % b.group == 0 by { RemainderAgain(0, b.group); }
  }

  lemma DigitsOpen(v: nat, b: Base, cnt: nat)
    requires BaseOk(b) && v > 0
    ensures Digits(v, b, true, cnt) ==
            Digits(Shifted(v, b), b, true, cnt + 1) + [LastDigit(v, b)] + if CommaAfter(b, true, cnt) then [','] else []
  {
  }

  /** Where the commas of the ' flag stand: none in a number of at most one group of digits;
      otherwise the last one is ahead of the last group, and what is ahead of it is the
      rest of the number with its own commas. */
  lemma Grouped(v: nat, b: Base)
    requires BaseOk(b)
    ensures var w, last := Without(v, b, b.group), Last(v, b, b.group);
            && Digits(v, b, false, 0) == Digits(w, b, false, 0) + last
            && (w == 0 ==> Digits(v, b, true, 0) == Digits(v, b, false, 0) && |Digits(v, b, false, 0)| <= b.group)
            && (w > 0 ==> Digits(v, b, true, 0) == Digits(w, b, true, 0) + [','] + last && |last| == b.group)
  {
    hide Digits, Without, Last;
    var w, last := Without(v, b, b.group), Last(v, b, b.group);
    PlainSplit(v, b, 0, b.group);
    PlainAnywhere(w, b, b.group);
    LastGroup(v, b, 0, b.group);
    if w > 0 {
      CommaBehind(w, b);
    } else {
      NoDigits(b, true, b.group);
      NoDigits(b, false, 0);
    }
  }

  // ---- Flags, width and precision -----------------------------------------------------

  /** A sign character is output for a signed conversion only: - for a negative number,
      and for another + if the flag asks for it, or else a space if that flag does. */
  lemma SignMeans(signed: bool, negative: bool, c: Conversion)
    ensures var s := Sign(signed, negative, c);
            && (s == "-" <==> signed && negative)
            && (s == "+" <==> signed && !negative && c.plus)
            && (s == " " <==> signed && !negative && !c.plus && c.space)
            && (s == "" <==> !signed || !(negative || c.plus || c.space))
  {
  }

  /** # marks hexadecimal numbers other than 0, in the case of their digits. */
  lemma PrefixMeans(v: nat, b: Base, c: Conversion)
    requires UsualBase(b)
    ensures var s := Prefix(v, b, c);
            && (s == "0x" <==> b == BASE_LOWER_X && c.pound && v != 0)
            && (s == "0X" <==> b == BASE_UPPER_X && c.pound && v != 0)
            && (s == "" <==> b == BASE_D || b == BASE_O || !c.pound || v == 0)
  {
  }

  /** At least so many digits: 1 unless a precision is given, and never more than 63. */
  function Least(c: Conversion): (n: nat) {
    if c.precision < 0 then 1 else if c.precision > 63 then 63 else c.precision
  }

  lemma PaddedMeans(d: string, c: Conversion) returns (zeros: nat)
    ensures Padded(d, c) == Repeat('0', zeros) + d && Least(c) <= zeros + |d|
    ensures zeros > 0 ==> zeros + |d| == Least(c) && Padded(d, c)[0] == '0'
  {
    RepeatNone('0', Least(c) - |d|);
    zeros := if Least(c) < |d| then 0 else Least(c) - |d|;
    assert Padded(d, c) == Repeat('0', zeros) + d;
    assert zeros > 0 ==> Repeat('0', zeros)[0] in Repeat('0', zeros);
  }

  /** The zeros ahead of the digits bring them to the precision, and # makes an octal number
      begin with one. */
  lemma BodyMeans(v: nat, b: Base, c: Conversion) returns (zeros: nat)
    requires BaseOk(b)
    ensures var d, body, octal := Digits(v, b, c.group, 0), Body(v, b, c), c.pound && b.base == 8;
            && body == Repeat('0', zeros) + d && Least(c) <= |body|
            && (zeros > 0 ==> |body| == Least(c) || (octal && zeros == 1))
            && (octal ==> body != [] && body[0] == '0')
  {
    hide Digits, Padded, Repeat, Least;
    zeros := PaddedMeans(Digits(v, b, c.group, 0), c);
    if Body(v, b, c) != Padded(Digits(v, b, c.group, 0), c) {
      RepeatFront('0', zeros);
      zeros := zeros + 1;
    }
  }

  /** The whole conversion: spaces, sign, prefix, zeros, body and spaces, in this order. Spaces
      ahead are there only without - and 0, zeros only with 0, and spaces behind only
      with -. */
  lemma RenderedMeans(v: nat, signed: bool, negative: bool, b: Base, c: Conversion) returns (lead: nat, fill: nat, trail: nat)
    requires BaseOk(b)
    ensures Rendered(v, signed, negative, b, c) ==
            Repeat(' ', lead) + Sign(signed, negative, c) + Prefix(v, b, c) + Repeat('0', fill) + Body(v, b, c) + Repeat(' ', trail)
    ensures (lead > 0 ==> !c.minus && !c.zero) && (fill > 0 ==> c.zero) && (trail > 0 ==> c.minus)
    ensures !(c.minus && c.zero) ==> |Rendered(v, signed, negative, b, c)| >= c.width
    ensures |Rendered(v, signed, negative, b, c)| > c.width && !(c.minus && c.zero) ==> lead == fill == trail == 0
  {
    hide Body, Sign, Prefix, Repeat;
    var pad := c.width - |Body(v, b, c)| - |Prefix(v, b, c)| - |Sign(signed, negative, c)|;
    var n := if pad < 0 then 0 else pad;
    RepeatNone(' ', pad);
    RepeatNone('0', pad);
    RepeatNone(' ', 0);
    RepeatNone('0', 0);
    lead, fill, trail := if !c.minus && !c.zero then n else 0, if c.zero then n else 0, if c.minus then n else 0;
  }
}
