/** parse_conversion (lib/stdio.c): what the text between % and the conversion
    character means. */
module PrintfParse {
  import opened Bits
  import opened Numerals
  import opened Printf

  /** The character at i; a format ends in a null. */
  function At(format: string, i: nat): (ch: char) {
    if i < |format| then format[i] else '\0'
  }

  predicate IsFlag(ch: char) {
    ch == '-' || ch == '+' || ch == ' ' || ch == '#' || ch == '0' || ch == '\''
  }

  /** format[i..j] is the longest run of flag characters at i. */
  ghost predicate FlagRun(format: string, i: nat, j: nat) {
    i <= j <= |format| && (forall k :: i <= k < j ==> IsFlag(format[k])) && !IsFlag(At(format, j))
  }

  /** format[i..j] is the longest run of digits at i. */
  ghost predicate DigitRun(format: string, i: nat, j: nat) {
    i <= j <= |format| && (forall k :: i <= k < j ==> IsDigit(format[k])) && !IsDigit(At(format, j))
  }

  /** A number that starts at i, or * for the next argument, ends at j. */
  ghost predicate NumberEnds(format: string, i: nat, j: nat) {
    i <= |format| && if At(format, i) == '*' then j == i + 1 else DigitRun(format, i, j)
  }

  ghost function NumberIs(format: string, args: seq<int>, i: nat, j: nat): (n: int)
    requires NumberEnds(format, i, j) && (At(format, i) == '*' ==> args != [])
  {
    if At(format, i) == '*' then args[0] else Decimal(format[i..j])
  }

  /** The arguments that are left after the number. */
  ghost function Unused(format: string, args: seq<int>, i: nat): (left: seq<int>) {
    if At(format, i) == '*' && args != [] then args[1..] else args
  }

  /** A width of n: a negative one asks for - and the width without its sign. */
  ghost predicate WidthIs(n: int, given: bool, width: nat, minus: bool) {
    width == (if n < 0 then -n else n) && (minus <==> given || n < 0)
  }

  ghost predicate FlagIn(format: string, j: nat, ch: char)
    requires j <= |format|
  {
    ch in format[..j]
  }

  /** What the text in format up to i2 means: flags up to i0, a width up to i1, a
      precision up to i2. */
  ghost predicate Means(format: string, args: seq<int>, i0: nat, i1: nat, i2: nat, c: Conversion) {
    && FlagRun(format, 0, i0) && NumberEnds(format, i0, i1) && (At(format, i0) == '*' ==> args != [])
    && WidthIs(NumberIs(format, args, i0, i1), FlagIn(format, i0, '-'), c.width, c.minus)
    && PrecisionIs(format, Unused(format, args, i0), i1, i2, c.precision)
    && FlagsAre(format, i0, c)
  }

  ghost predicate FlagsAre(format: string, i0: nat, c: Conversion)
    requires i0 <= |format|
  {
    && (c.plus <==> FlagIn(format, i0, '+'))
    && (c.space <==> FlagIn(format, i0, ' ') && !c.plus)
    && (c.pound <==> FlagIn(format, i0, '#'))
    && (c.zero <==> FlagIn(format, i0, '0') && !FlagIn(format, i0, '-') && c.precision < 0)
    && (c.group <==> FlagIn(format, i0, '\''))
  }

  ghost predicate PrecisionIs(format: string, args: seq<int>, i: nat, j: nat, precision: int) {
    if At(format, i) != '.' then j == i && precision == -1 else
    && NumberEnds(format, i + 1, j) && (At(format, i + 1) == '*' ==> args != [])
    && precision == if NumberIs(format, args, i + 1, j) < 0 then -1 else NumberIs(format, args, i + 1, j)
  }

  /** c has the flags of format[..i] and no others. */
  ghost predicate RawFlags(format: string, i: nat, c: Conversion)
    requires i <= |format|
  {
    && c.minus == FlagIn(format, i, '-') && c.plus == FlagIn(format, i, '+') && c.space == FlagIn(format, i, ' ')
    && c.pound == FlagIn(format, i, '#') && c.zero == FlagIn(format, i, '0') && c.group == FlagIn(format, i, '\'')
  }

  /** One flag character. */
  function WithFlag(c: Conversion, ch: char): (r: Conversion)
    requires IsFlag(ch)
  {
    match ch
    case '-' => c.(minus := true)
    case '+' => c.(plus := true)
    case ' ' => c.(space := true)
    case '#' => c.(pound := true)
    case '0' => c.(zero := true)
    case _ => c.(group := true)
  }

  lemma FlagNext(format: string, i: nat, c: Conversion)
    requires i < |format| && IsFlag(format[i]) && RawFlags(format, i, c)
    ensures RawFlags(format, i + 1, WithFlag(c, format[i]))
  {
    assert format[..i+1] == format[..i] + [format[i]];
    assert forall ch :: FlagIn(format, i + 1, ch) <==> FlagIn(format, i, ch) || ch == format[i];
  }

  method ParseFlags(format: string) returns (c: Conversion, i: nat)
    ensures i <= |format| && FlagRun(format, 0, i) && RawFlags(format, i, c) && c.precision == -1
  {
    hide FlagIn, WithFlag;
    c := Conversion(false, false, false, false, false, false, 0, -1);
    i := 0;
    assert RawFlags(format, 0, c) by { NoFlags(format); }
    while IsFlag(At(format, i))
      invariant i <= |format| && (forall k :: 0 <= k < i ==> IsFlag(format[k]))
      invariant RawFlags(format, i, c) && c.precision == -1
      decreases |format| - i
    {
      FlagNext(format, i, c);
      SamePrecision(c, format[i]);
      c := WithFlag(c, format[i]);
      i := i + 1;
    }
  }

  lemma NoFlags(format: string)
    ensures forall ch :: !FlagIn(format, 0, ch)
  {
  }

  lemma SamePrecision(c: Conversion, ch: char)
    requires IsFlag(ch)
    ensures WithFlag(c, ch).precision == c.precision
  {
  }

  /** A field width's or a precision's digits, or the argument that * stands for. */
  method ParseNumber(format: string, args: seq<int>, i: nat) returns (n: int, j: nat, left: seq<int>)
    requires i <= |format| && (At(format, i) == '*' ==> args != [])
    ensures NumberEnds(format, i, j) && j <= |format|
    ensures n == NumberIs(format, args, i, j) && left == Unused(format, args, i)
  {
    j := i;
    if At(format, i) == '*' {
      return args[0], i + 1, args[1..];
    }
    n := 0;
    while IsDigit(At(format, j))
      invariant i <= j <= |format| && (forall k :: i <= k < j ==> IsDigit(format[k])) && n == Decimal(format[i..j])
      decreases |format| - j
    {
      assert format[i..j+1][..j-i] == format[i..j];
      n := n * 10 + DigitOf(format[j]);
      j := j + 1;
    }
    left := args;
  }

  method ParsePrecision(format: string, args: seq<int>, i: nat) returns (precision: int, j: nat)
    requires i <= |format| && (At(format, i) == '.' && At(format, i + 1) == '*' ==> args != [])
    ensures j <= |format| && PrecisionIs(format, args, i, j, precision)
  {
    hide NumberIs, NumberEnds;
    precision, j := -1, i;
    if At(format, i) == '.' {
      var n, k, left := ParseNumber(format, args, i + 1);
      precision, j := if n < 0 then -1 else n, k;
    }
  }

  /** With an argument for every star, the width's star finds one, and the precision's
      finds another. */
  lemma Stars(format: string, args: seq<int>, a: nat, b: nat)
    requires multiset(format)['*'] <= |args| && a < b
    ensures At(format, a) == '*' ==> args != []
    ensures At(format, b) == '*' ==> Unused(format, args, a) != []
  {
    if At(format, a) == '*' {
      assert format[a] in multiset(format);
    }
    if At(format, b) == '*' {
      assert format == format[..b] + format[b..];
      assert format[b..][0] == '*' && '*' in multiset(format[b..]);
      if At(format, a) == '*' {
        assert format[..b][a] == '*' && '*' in multiset(format[..b]);
      }
    }
  }

  /** parse_conversion up to the type. There is an argument for every star. */
  method ParseOptions(format: string, args: seq<int>)
    returns (c: Conversion, pos: nat, i0: nat, i1: nat)
    requires multiset(format)['*'] <= |args|
    ensures pos <= |format| && Means(format, args, i0, i1, pos, c)
  {
    hide FlagIn, FlagRun, NumberIs, NumberEnds, PrecisionIs, At, Unused;
    var i;
    c, i := ParseFlags(format);
    i0 := i;
    Stars(format, args, i0, i0 + 1);
    if c.minus {
      c := c.(zero := false);
    }
    if c.plus {
      c := c.(space := false);
    }
    var width, j, left := ParseNumber(format, args, i);
    i1 := j;
    NumberForward(format, i0, i1);
    Stars(format, args, i0, i1 + 1);
    if width < 0 {
      width := -width;
      c := c.(minus := true);
    }
    var precision;
    precision, pos := ParsePrecision(format, left, j);
    c := c.(width := width, precision := precision);
    if c.precision >= 0 {
      c := c.(zero := false);
    }
  }

  datatype IntType = Char | Short | Int | IntMax | Long | LongLong | PtrDiffT | SizeT

  /** The letters that ask for a type. */
  ghost function Letters(ty: IntType): (s: string) {
    match ty
    case Char => "hh"
    case Short => "h"
    case Int => ""
    case IntMax => "j"
    case Long => "l"
    case LongLong => "ll"
    case PtrDiffT => "t"
    case SizeT => "z"
  }

  /** The letters at i, up to j, ask for ty, and no longer ones stand there. */
  ghost predicate TypeIs(format: string, i: nat, j: nat, ty: IntType) {
    && i <= j <= |format| && format[i..j] == Letters(ty)
    && forall u: IntType :: Letters(u) <= format[i..] ==> |Letters(u)| <= |Letters(ty)|
  }

  method ParseType(format: string, i: nat) returns (ty: IntType, j: nat)
    requires i <= |format|
    ensures TypeIs(format, i, j, ty)
  {
    assert forall k :: i <= k && At(format, k) != '\0' ==> k < |format| && format[k] == At(format, k);
    match At(format, i) {
      case 'h' => if At(format, i + 1) == 'h' { ty, j := Char, i + 2; } else { ty, j := Short, i + 1; }
      case 'j' => ty, j := IntMax, i + 1;
      case 'l' => if At(format, i + 1) == 'l' { ty, j := LongLong, i + 2; } else { ty, j := Long, i + 1; }
      case 't' => ty, j := PtrDiffT, i + 1;
      case 'z' => ty, j := SizeT, i + 1;
      case _ => ty, j := Int, i;
    }
    assert format[i..j] == if j == i then [] else if j == i + 1 then [format[i]] else [format[i], format[i+1]];
    LongestLetters(format, i, j, ty);
  }

  lemma LongestLetters(format: string, i: nat, j: nat, ty: IntType)
    requires i <= j <= |format| && format[i..j] == Letters(ty)
    requires ty == Int ==> At(format, i) !in "hjltz"
    requires ty == Short ==> At(format, i + 1) != 'h'
    requires ty == Long ==> At(format, i + 1) != 'l'
    ensures TypeIs(format, i, j, ty)
  {
    forall u: IntType | Letters(u) <= format[i..] ensures |Letters(u)| <= |Letters(ty)| {
      assert |Letters(u)| > 0 ==> At(format, i) == Letters(u)[0];
      assert |Letters(u)| > 1 ==> At(format, i + 1) == Letters(u)[1];
      assert |Letters(ty)| > 0 ==> format[i] == Letters(ty)[0];
    }
  }

  /** parse_conversion. There is an argument for every star. */
  method ParseConversion(format: string, args: seq<int>)
    returns (c: Conversion, ty: IntType, pos: nat, i0: nat, i1: nat, i2: nat)
    requires multiset(format)['*'] <= |args|
    ensures Means(format, args, i0, i1, i2, c) && TypeIs(format, i2, pos, ty)
  {
    hide Means, TypeIs;
    c, i2, i0, i1 := ParseOptions(format, args);
    ty, pos := ParseType(format, i2);
  }

  lemma NumberForward(format: string, i: nat, j: nat)
    requires NumberEnds(format, i, j)
    ensures i <= j
  {}

  // ---- One meaning -------------------------------------------------------------------

  lemma FlagRunUnique(format: string, i: nat, j: nat, k: nat)
    requires FlagRun(format, i, j) && FlagRun(format, i, k)
    ensures j == k
  {}

  lemma NumberUnique(format: string, i: nat, j: nat, k: nat)
    requires NumberEnds(format, i, j) && NumberEnds(format, i, k)
    ensures j == k
  {}

  /** With two stars the width is the first argument and the precision the second. */
  lemma TwoStars(format: string, args: seq<int>, i0: nat, i1: nat, i2: nat, c: Conversion)
    requires Means(format, args, i0, i1, i2, c) && At(format, i0) == '*' && At(format, i1) == '.' && At(format, i1 + 1) == '*'
    ensures |args| >= 2 && c.width == (if args[0] < 0 then -args[0] else args[0])
    ensures c.precision == if args[1] < 0 then -1 else args[1]
  {
  }

  /** The text of a conversion has one meaning and one end. */
  lemma MeansOnce(format: string, args: seq<int>, i0: nat, i1: nat, i2: nat, c: Conversion,
                  j0: nat, j1: nat, j2: nat, d: Conversion)
    requires Means(format, args, i0, i1, i2, c) && Means(format, args, j0, j1, j2, d)
    ensures c == d && i2 == j2
  {
    FlagRunUnique(format, 0, i0, j0);
    hide FlagRun, FlagIn;
    NumberUnique(format, i0, i1, j1);
    if At(format, i1) == '.' {
      NumberUnique(format, i1 + 1, i2, j2);
    }
    hide NumberEnds, NumberIs;
  }

  lemma TypeOnce(format: string, i: nat, j: nat, ty: IntType, k: nat, u: IntType)
    requires TypeIs(format, i, j, ty) && TypeIs(format, i, k, u)
    ensures ty == u && j == k
  {
    assert Letters(ty) <= format[i..] && Letters(u) <= format[i..];
    assert |Letters(ty)| == |Letters(u)|;
    assert |Letters(ty)| > 0 ==> Letters(ty)[0] == format[i] == Letters(u)[0];
  }

  /** A conversion that has both - and 0 in force, and so pads on both sides: in %0*d the
      argument -5 adds the -, and 7 comes out nine characters wide. */
  lemma PaddedTwice()
    ensures var c := Conversion(true, false, false, false, true, false, 5, -1);
            Means("0*d", [-5], 1, 2, 2, c) && |Rendered(7, true, false, BASE_D, c)| == 9
  {
    var c := Conversion(true, false, false, false, true, false, 5, -1);
    assert "0*d"[..1] == "0";
    OneDigit(7, c);
  }

  lemma OneDigit(v: nat, c: Conversion)
    requires 0 < v < 10 && !c.group && !c.pound && c.precision < 0
    ensures |Body(v, BASE_D, c)| == 1
  {
    hide LastDigit, Repeat;
    assert Shifted(v, BASE_D) == 0;
    assert Digits(0, BASE_D, c.group, 1) == [];
    assert Digits(v, BASE_D, c.group, 0) == [LastDigit(v, BASE_D)];
  }
}
