/** Integer conversions of printf and the bounded output of snprintf (lib/stdio.c). */
module Printf {
  import opened Bits
  import opened Numerals
  import Arithmetic

  datatype Base = Base(base: nat, digits: string, x: Option<char>, group: nat)

  const BASE_D := Base(10, "0123456789", None, 3)
  const BASE_O := Base(8, "01234567", None, 3)
  const BASE_LOWER_X := Base(16, "0123456789abcdef", Some('x'), 4)
  const BASE_UPPER_X := Base(16, "0123456789ABCDEF", Some('X'), 4)

  predicate BaseOk(b: Base) {
    8 <= b.base == |b.digits| && b.group > 0
  }

  /** precision is -1 when none was given. */
  datatype Conversion =
    Conversion(minus: bool, plus: bool, space: bool, pound: bool, zero: bool, group: bool, width: nat, precision: int)

  // ---- What a conversion prints ----------------------------------------------------

  ghost function Repeat(ch: char, n: int): (s: string)
    ensures |s| == if n < 0 then 0 else n
    ensures forall c :: c in s ==> c == ch
  {
    if n <= 0 then [] else Repeat(ch, n - 1) + [ch]
  }

  /** A comma follows the digit with cnt digits to its right. */
  ghost predicate CommaAfter(b: Base, grouped: bool, cnt: nat)
    requires b.group > 0
  {
    grouped && cnt > 0 && cnt % b.group == 0
  }

  /** v's last digit, and v without it. */
  function LastDigit(v: nat, b: Base): (ch: char)
    requires BaseOk(b)
    ensures ch in b.digits
  {
    b.digits[v % b.base]
  }

  function Shifted(v: nat, b: Base): (r: nat)
    requires BaseOk(b)
    ensures v > 0 ==> r < v
  {
    Arithmetic.DivAntitone(v, 8, b.base);
    v / b.base
  }

  /** v's digits, most significant first; cnt digits stand to the right of them. */
  ghost function Digits(v: nat, b: Base, grouped: bool, cnt: nat): (s: string)
    requires BaseOk(b)
  {
    if v == 0 then [] else
    Digits(Shifted(v, b), b, grouped, cnt + 1) + [LastDigit(v, b)] + if CommaAfter(b, grouped, cnt) then [','] else []
  }

  ghost function Padded(d: string, c: Conversion): (s: string) {
    var precision := if c.precision < 0 then 1 else c.precision;
    Repeat('0', (if precision < 63 then precision else 63) - |d|) + d
  }

  /** The digits with the zeros that precision and # call for. */
  ghost function Body(v: nat, b: Base, c: Conversion): (s: string)
    requires BaseOk(b)
  {
    var d := Padded(Digits(v, b, c.group, 0), c);
    if c.pound && b.base == 8 && (d == [] || d[0] != '0') then ['0'] + d else d
  }

  ghost function Sign(signed: bool, negative: bool, c: Conversion): (s: string) {
    if !signed then []
    else if c.plus then if negative then ['-'] else ['+']
    else if c.space then if negative then ['-'] else [' ']
    else if negative then ['-'] else []
  }

  ghost function Prefix(v: nat, b: Base, c: Conversion): (s: string) {
    if c.pound && v != 0 && b.x.Some? then ['0', b.x.value] else []
  }

  ghost function Rendered(v: nat, signed: bool, negative: bool, b: Base, c: Conversion): (s: string)
    requires BaseOk(b)
  {
    var sign, prefix, body := Sign(signed, negative, c), Prefix(v, b, c), Body(v, b, c);
    Laid(sign, prefix, body, c.width - |body| - |prefix| - |sign|, c)
  }

  /** The parts of a conversion with pad characters of padding. */
  ghost function Laid(sign: string, prefix: string, body: string, pad: int, c: Conversion): (s: string) {
    PadIf(!c.minus && !c.zero, ' ', pad) + sign + prefix + PadIf(c.zero, '0', pad) + body + PadIf(c.minus, ' ', pad)
  }

  ghost function PadIf(cond: bool, ch: char, n: int): (s: string) {
    if cond then Repeat(ch, n) else []
  }

  /** The output fills the field width and exceeds it only if it must, unless the field
      is padded on both sides, as it is when - and 0 are both in force. */
  lemma RenderedLength(v: nat, signed: bool, negative: bool, b: Base, c: Conversion)
    requires BaseOk(b)
    ensures var core := |Sign(signed, negative, c)| + |Prefix(v, b, c)| + |Body(v, b, c)|;
            var n := if core < c.width then c.width else core;
            |Rendered(v, signed, negative, b, c)| == n <==> !(c.minus && c.zero && core < c.width)
  {
    hide Digits, Repeat;
  }

  // ---- Output into a buffer ----------------------------------------------------------

  /** vsnprintf's auxiliary data; all is everything output so far. */
  class Sink {
    const buffer: array<char>
    const maxLength: nat
    var p: nat
    var length: nat
    ghost var all: string

    ghost predicate Valid()
      reads this, buffer
    {
      && maxLength == (if buffer.Length > 0 then buffer.Length - 1 else 0)
      && length == |all|
      && p == (if |all| < maxLength then |all| else maxLength)
      && buffer[..p] == all[..p]
    }

    constructor (buffer: array<char>)
      ensures Valid() && this.buffer == buffer && all == []
    {
      this.buffer := buffer;
      maxLength := if buffer.Length > 0 then buffer.Length - 1 else 0;
      p, length, all := 0, 0, [];
    }

    /** vsnprintf_helper */
    method Put(ch: char)
      requires Valid()
      modifies this, buffer
      ensures Valid() && all == old(all) + [ch]
    {
      ghost var was := buffer[..];
      all := all + [ch];
      length := length + 1;
      if length - 1 < maxLength {
        buffer[p] := ch;
        p := p + 1;
        assert buffer[..p] == was[..p-1] + [ch];
      }
    }

    /** output_dup */
    method Dup(ch: char, cnt: nat)
      requires Valid()
      modifies this, buffer
      ensures Valid() && all == old(all) + Repeat(ch, cnt)
    {
      var n := 0;
      while n < cnt
        invariant 0 <= n <= cnt && Valid() && all == old(all) + Repeat(ch, n)
      {
        Put(ch);
        n := n + 1;
      }
    }

    method DupIf(cond: bool, ch: char, cnt: nat)
      requires Valid()
      modifies this, buffer
      ensures Valid() && all == old(all) + PadIf(cond, ch, cnt)
    {
      if cond {
        Dup(ch, cnt);
      }
    }

    method PutAll(s: string)
      requires Valid()
      modifies this, buffer
      ensures Valid() && all == old(all) + s
    {
      var i := 0;
      while i < |s|
        invariant 0 <= i <= |s| && Valid() && all == old(all) + s[..i]
      {
        Put(s[i]);
        i := i + 1;
      }
      assert s[..i] == s;
    }

    /** The end of vsnprintf: at most buffer.Length - 1 characters and a null. */
    method Finish() returns (n: nat)
      requires Valid()
      modifies buffer
      ensures n == |all|
      ensures buffer.Length > 0 ==> buffer[p] == '\0' && buffer[..p] == all[..p]
    {
      if buffer.Length > 0 {
        ghost var was := buffer[..];
        buffer[p] := '\0';
        assert buffer[..p] == was[..p];
      }
      return length;
    }
  }

  // ---- format_integer ----------------------------------------------------------------

  ghost function Backwards(s: string): (r: string)
    ensures |r| == |s|
  {
    if s == [] then [] else [s[|s|-1]] + Backwards(s[..|s|-1])
  }

  lemma BackwardsMore(s: string, ch: char)
    ensures Backwards(s + [ch]) == [ch] + Backwards(s)
  {
    assert (s + [ch])[..|s|] == s;
  }

  ghost function Eights(n: nat): (e: nat)
    ensures e > 0
  {
    if n == 0 then 1 else 8 * Eights(n - 1)
  }

  lemma OneDigitLess(v: nat, b: Base, n: nat)
    requires BaseOk(b) && 0 < v < Eights(n)
    ensures n > 0 && Shifted(v, b) < Eights(n - 1)
  {
    Arithmetic.DivAntitone(v, 8, b.base);
  }

  /** One digit, after the comma that may precede it in the buffer. */
  method PutDigit(value: nat, b: Base, grouped: bool, digitCnt: nat, buf: array<char>, cp0: nat) returns (cp: nat)
    requires BaseOk(b) && value > 0 && cp0 + 2 <= buf.Length
    modifies buf
    ensures cp0 < cp <= cp0 + 2
    ensures Backwards(buf[..cp]) ==
            [LastDigit(value, b)] + (if CommaAfter(b, grouped, digitCnt) then [','] else []) + Backwards(old(buf[..cp0]))
  {
    hide LastDigit, Shifted, Backwards;
    cp := cp0;
    ghost var s := buf[..cp];
    if grouped && digitCnt > 0 && digitCnt % b.group == 0 {
      buf[cp] := ',';
      cp := cp + 1;
      assert buf[..cp] == s + [','];
      BackwardsMore(s, ',');
    }
    ghost var t := buf[..cp];
    buf[cp] := LastDigit(value, b);
    cp := cp + 1;
    assert buf[..cp] == t + [LastDigit(value, b)];
    BackwardsMore(t, LastDigit(value, b));
  }

  lemma DigitsStep(v: nat, b: Base, grouped: bool, cnt: nat, rest: string)
    requires BaseOk(b) && v > 0
    ensures Digits(v, b, grouped, cnt) + rest ==
            Digits(Shifted(v, b), b, grouped, cnt + 1)
            + ([LastDigit(v, b)] + (if CommaAfter(b, grouped, cnt) then [','] else []) + rest)
  {
  }

  /** The first loop of format_integer: the digits go into the buffer backwards, and
      with their commas they take at most 44 of its 64 places. */
  method Accumulate(v: nat, b: Base, grouped: bool, buf: array<char>) returns (cp: nat)
    requires BaseOk(b) && v < 0x1_0000_0000_0000_0000 && buf.Length == 64
    modifies buf
    ensures cp <= 44 && Backwards(buf[..cp]) == Digits(v, b, grouped, 0)
  {
    hide Digits, Eights, Backwards, CommaAfter, LastDigit, Shifted;
    cp := 0;
    var value: nat, digitCnt: nat := v, 0;
    TwentyTwo();
    assert Backwards(buf[..0]) == [];
    while value > 0
      invariant digitCnt <= 22 && value < Eights(22 - digitCnt)
      invariant cp <= 2 * digitCnt
      invariant Digits(value, b, grouped, digitCnt) + Backwards(buf[..cp]) == Digits(v, b, grouped, 0)
    {
      OneDigitLess(value, b, 22 - digitCnt);
      DigitsStep(value, b, grouped, digitCnt, Backwards(buf[..cp]));
      cp := PutDigit(value, b, grouped, digitCnt, buf, cp);
      value := Shifted(value, b);
      digitCnt := digitCnt + 1;
    }
    NoDigits(b, grouped, digitCnt);
  }

  lemma NoDigits(b: Base, grouped: bool, cnt: nat)
    requires BaseOk(b)
    ensures Digits(0, b, grouped, cnt) == []
  {
  }

  lemma TwentyTwo()
    ensures Eights(22) >= 0x1_0000_0000_0000_0000
  {
    assert Eights(4) == 4096;
    assert Eights(8) == 4096 * Eights(4);
    assert Eights(12) == 4096 * Eights(8);
    assert Eights(16) == 4096 * Eights(12);
    assert Eights(20) == 4096 * Eights(16);
    assert Eights(22) == 64 * Eights(20);
  }

  lemma {:induction false} RepeatFront(ch: char, n: nat)
    ensures [ch] + Repeat(ch, n) == Repeat(ch, n + 1)
  {
    if n > 0 { RepeatFront(ch, n - 1); }
  }

  /** The loop that pads to the precision. */
  method PadToPrecision(buf: array<char>, cp0: nat, ghost d: string, c: Conversion) returns (cp: nat)
    requires buf.Length == 64 && cp0 <= 44 && Backwards(buf[..cp0]) == d
    modifies buf
    ensures cp <= 63 && Backwards(buf[..cp]) == Padded(d, c)
  {
    hide Backwards, Repeat;
    var precision := if c.precision < 0 then 1 else c.precision;
    cp := cp0;
    assert Repeat('0', 0) == [] && |d| == cp0;
    while cp < precision && cp < 63
      invariant cp0 <= cp <= 63 && (cp == cp0 || cp <= precision)
      invariant Backwards(buf[..cp]) == Repeat('0', cp - cp0) + d
    {
      ghost var s := buf[..cp];
      buf[cp] := '0';
      assert buf[..cp+1] == s + ['0'];
      BackwardsMore(s, '0');
      RepeatFront('0', cp - cp0);
      cp := cp + 1;
    }
    RepeatNone('0', (if precision < 63 then precision else 63) - |d|);
  }

  /** The second loop of format_integer, and the zero that # adds in base 8. */
  method FillZeros(buf: array<char>, cp0: nat, ghost d: string, b: Base, c: Conversion) returns (cp: nat)
    requires buf.Length == 64 && cp0 <= 44 && Backwards(buf[..cp0]) == d
    modifies buf
    ensures cp <= 64
    ensures Backwards(buf[..cp]) ==
            var s := Padded(d, c); if c.pound && b.base == 8 && (s == [] || s[0] != '0') then ['0'] + s else s
  {
    hide Backwards, Padded;
    cp := PadToPrecision(buf, cp0, d, c);
    FirstIsLast(buf[..cp]);
    if c.pound && b.base == 8 && (cp == 0 || buf[cp - 1] != '0') {
      ghost var s := buf[..cp];
      buf[cp] := '0';
      cp := cp + 1;
      assert buf[..cp] == s + ['0'];
      BackwardsMore(s, '0');
    }
  }

  lemma RepeatNone(ch: char, n: int)
    ensures n <= 0 ==> Repeat(ch, n) == []
  {
  }

  lemma FirstIsLast(s: string)
    ensures s != [] ==> Backwards(s)[0] == s[|s|-1]
  {
  }

  /** The digits come out of the buffer in the reverse of the order they went in. */
  method Drain(buf: array<char>, cp0: nat, sink: Sink)
    requires sink.Valid() && buf != sink.buffer && cp0 <= buf.Length
    modifies sink, sink.buffer
    ensures sink.Valid() && sink.all == old(sink.all) + Backwards(buf[..cp0])
  {
    hide Backwards;
    var cp := cp0;
    while cp > 0
      invariant 0 <= cp <= cp0 && sink.Valid() && buf[..] == old(buf[..])
      invariant sink.all + Backwards(buf[..cp]) == old(sink.all) + Backwards(buf[..cp0])
    {
      cp := cp - 1;
      assert buf[..cp+1] == buf[..cp] + [buf[cp]];
      BackwardsMore(buf[..cp], buf[cp]);
      sink.Put(buf[cp]);
    }
    NoneBackwards();
  }

  lemma NoneBackwards()
    ensures Backwards([]) == []
  {
  }

  /** The output part of format_integer. */
  method Emit(sign: string, prefix: string, padCnt: nat, buf: array<char>, cp: nat, c: Conversion, sink: Sink)
    requires sink.Valid() && buf != sink.buffer && cp <= buf.Length
    modifies sink, sink.buffer
    ensures sink.Valid() && sink.all == old(sink.all) + Laid(sign, prefix, Backwards(buf[..cp]), padCnt, c)
  {
    hide Backwards, PadIf;
    sink.DupIf(!c.minus && !c.zero, ' ', padCnt);
    sink.PutAll(sign);
    sink.PutAll(prefix);
    sink.DupIf(c.zero, '0', padCnt);
    assert buf[..] == old(buf[..]);
    Drain(buf, cp, sink);
    sink.DupIf(c.minus, ' ', padCnt);
    Together(old(sink.all), PadIf(!c.minus && !c.zero, ' ', padCnt), sign, prefix, PadIf(c.zero, '0', padCnt),
             Backwards(buf[..cp]), PadIf(c.minus, ' ', padCnt));
  }

  lemma Together(o: string, a: string, b: string, c: string, d: string, e: string, f: string)
    ensures o + (a + b + c + d + e + f) == o + a + b + c + d + e + f
  {
  }

  /** Negative padding is none. */
  lemma LaidAtLeast(sign: string, prefix: string, body: string, pad: int, c: Conversion)
    requires pad < 0
    ensures Laid(sign, prefix, body, pad, c) == Laid(sign, prefix, body, 0, c)
  {
  }

  method SignAndPrefix(value: nat, signed: bool, negative: bool, b: Base, c: Conversion) returns (sign: string, prefix: string)
    ensures sign == Sign(signed, negative, c) && prefix == Prefix(value, b, c)
  {
    sign := "";
    if signed {
      if c.plus {
        sign := if negative then "-" else "+";
      } else if c.space {
        sign := if negative then "-" else " ";
      } else if negative {
        sign := "-";
      }
    }
    prefix := if c.pound && value != 0 && b.x.Some? then ['0', b.x.value] else [];
  }

  /** format_integer */
  method FormatInteger(value: nat, signed: bool, negative: bool, b: Base, c: Conversion, sink: Sink)
    requires sink.Valid() && BaseOk(b) && value < 0x1_0000_0000_0000_0000
    modifies sink, sink.buffer
    ensures sink.Valid() && sink.all == old(sink.all) + Rendered(value, signed, negative, b, c)
  {
    hide Backwards, Repeat, Digits, Padded, Laid, PadIf;
    var sign, prefix := SignAndPrefix(value, signed, negative, b, c);
    hide Sign, Prefix;
    var buf := new char[64];
    var cp := Accumulate(value, b, c.group, buf);
    cp := FillZeros(buf, cp, Digits(value, b, c.group, 0), b, c);
    assert Backwards(buf[..cp]) == Body(value, b, c);
    var padCnt := c.width - cp - |prefix| - |sign|;
    if padCnt < 0 {
      LaidAtLeast(sign, prefix, Body(value, b, c), padCnt, c);
      padCnt := 0;
    }
    Emit(sign, prefix, padCnt, buf, cp, c, sink);
  }

  /** The null-terminated string that a buffer holds. */
  function CString(s: seq<char>): (t: string)
    ensures '\0' !in t && |t| <= |s| && t == s[..|t|]
  {
    if s == [] || s[0] == '\0' then [] else [s[0]] + CString(s[1..])
  }

  lemma {:induction false} CStringIs(s: seq<char>, p: nat)
    requires p < |s| && s[p] == '\0' && '\0' !in s[..p]
    ensures CString(s) == s[..p]
  {
    if p > 0 {
      assert s[0] == s[..p][0] && s[0] in s[..p];
      assert s[1..][..p-1] == s[..p][1..];
      CStringIs(s[1..], p - 1);
    }
  }

  /** snprintf with one integer conversion: the output, cut to fit, and a null; the
      length is that of the whole output. */
  method SnprintfInteger(buffer: array<char>, value: nat, signed: bool, negative: bool, b: Base, c: Conversion)
    returns (n: nat)
    requires BaseOk(b) && value < 0x1_0000_0000_0000_0000
    modifies buffer
    ensures var s := Rendered(value, signed, negative, b, c);
            var p := if |s| < buffer.Length - 1 then |s| else buffer.Length - 1;
            n == |s| && (buffer.Length > 0 ==> buffer[..p] == s[..p] && buffer[p] == '\0')
  {
    hide Rendered, Repeat, Digits;
    var sink := new Sink(buffer);
    FormatInteger(value, signed, negative, b, c, sink);
    assert sink.all == Rendered(value, signed, negative, b, c);
    n := sink.Finish();
  }
}
