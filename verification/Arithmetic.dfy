/**
  64-bit division out of the 32-bit divide instruction (lib/arithmetic.c).
  Machine words are integers in range; every operation that can wrap says so.
 */
module Arithmetic {

  const B32: int := 0x1_0000_0000
  const B64: int := 0x1_0000_0000_0000_0000

  type U32 = x: int | 0 <= x < 0x1_0000_0000
  type U64 = x: int | 0 <= x < 0x1_0000_0000_0000_0000
  type I32 = x: int | -0x8000_0000 <= x < 0x8000_0000
  type I64 = x: int | -0x8000_0000_0000_0000 <= x < 0x8000_0000_0000_0000

  function Pow2(n: nat): (r: nat)
    ensures r >= 1
  {
    if n == 0 then 1 else 2 * Pow2(n - 1)
  }

  lemma {:induction false} Pow2Add(a: nat, b: nat)
    ensures Pow2(a + b) == Pow2(a) * Pow2(b)
  {
    if a > 0 {
      Pow2Add(a - 1, b);
    }
  }

  // Conversions and shifts as the machine does them.

  function Low32(x: int): (r: U32) { x % B32 }
  function Low64(x: int): (r: U64) { x % B64 }
  function Shl64(x: U64, s: nat): (r: U64) { Low64(x * Pow2(s)) }

  function Shr64(x: U64, s: nat): (r: U64)
    ensures r <= x
  {
    ShrBound(x, Pow2(s));
    x / Pow2(s)
  }

  lemma ShrBound(x: nat, p: nat)
    requires p >= 1
    ensures 0 <= x / p <= x
  {
    assert x / p * p <= x;
  }

  function AsI64(x: U64): (r: I64) { if x < 0x8000_0000_0000_0000 then x else x - B64 }
  function AsI32(x: int): (r: I32) { var y := Low32(x); if y < 0x8000_0000 then y else y - B32 }

  // ---- nlz -----------------------------------------------------------------

  /** One step of nlz: if the top k bits are clear, shift them out. `word` is the
      word nlz was called with; x is that word already shifted left n bits. */
  function NlzStep(ghost word: U32, n: nat, x: U32, k: nat, m: nat): (r: (nat, U32))
    requires x == word * Pow2(n) && m == Pow2(k) && m > 0 && B32 % m == 0
    requires x * m >= B32 / m
    ensures r.1 == word * Pow2(r.0) && r.1 >= B32 / m && n <= r.0 <= n + k
  {
    if x <= B32 / m - 1 then
      Scaled(word, n, k);
      assert x * m <= (B32 / m - 1) * m < B32;
      (n + k, x * m)
    else (n, x)
  }

  lemma SmallPowers()
    ensures Pow2(0) == 1 && Pow2(1) == 2 && Pow2(2) == 4 && Pow2(4) == 16 && Pow2(8) == 256 && Pow2(16) == 65536
  {
    assert Pow2(8) == 256;
  }

  lemma LargePowers()
    ensures Pow2(31) == 0x8000_0000 && Pow2(32) == B32
  {
    SmallPowers();
    Pow2Add(16, 16);
    Pow2Add(31, 1);
  }

  /** nlz: the shift that brings a nonzero word's leading one to bit 31. */
  function Nlz(x: U32): (n: nat)
    requires x != 0
    ensures n <= 31 && 0x8000_0000 <= x * Pow2(n) < B32
  {
    SmallPowers();
    var (n1, x1) := NlzStep(x, 0, x, 16, 65536);
    var (n2, x2) := NlzStep(x, n1, x1, 8, 256);
    var (n3, x3) := NlzStep(x, n2, x2, 4, 16);
    var (n4, x4) := NlzStep(x, n3, x3, 2, 4);
    var (n5, _) := NlzStep(x, n4, x4, 1, 2);
    n5
  }

  lemma Scaled(x: int, n: nat, k: nat)
    ensures x * Pow2(n + k) == x * Pow2(n) * Pow2(k)
  {
    Pow2Add(n, k);
  }

  // ---- Division facts ------------------------------------------------------

  lemma MulMono(a: int, b: int, c: int)
    requires c >= 0
    ensures a <= b ==> a * c <= b * c
  {}

  lemma MulLess(a: int, b: int, c: int)
    requires c > 0 && a * c < b * c
    ensures a < b
  {
    MulMono(b, a, c);
  }

  lemma DivBounds(n: int, d: int)
    requires d > 0
    ensures n / d * d <= n < (n / d + 1) * d
  {}

  lemma DivUnique(n: int, d: int, q: int)
    requires d > 0 && q * d <= n < (q + 1) * d
    ensures n / d == q
  {
    DivBounds(n, d);
    MulLess(q, n / d + 1, d);
    MulLess(n / d, q + 1, d);
  }

  lemma DivDiv(n: nat, a: nat, b: nat)
    requires a > 0 && b > 0
    ensures a * b > 0 && n / a / b == n / (a * b)
  {
    var u := n / a;
    var q := u / b;
    DivBounds(u, b);
    DivBounds(n, a);
    MulMono(q * b, u, a);
    MulMono(u + 1, (q + 1) * b, a);
    Regroup(q, a, b);
    Regroup(q + 1, a, b);
    DivUnique(n, a * b, q);
  }

  lemma Regroup(q: int, a: int, b: int)
    ensures q * (a * b) == q * b * a
  {}

  /** A smaller divisor cannot give a smaller quotient. */
  lemma DivAntitone(n: nat, small: nat, d: nat)
    requires 0 < small <= d
    ensures n / d <= n / small
  {
    DivBounds(n, d);
    DivBounds(n, small);
    QuotientsOrdered(n, small, d, n / d, n / small);
  }

  lemma QuotientsOrdered(n: nat, small: nat, d: nat, q: int, r: int)
    requires 0 < small <= d && q * d <= n < (r + 1) * small
    ensures q <= r
  {
    if q >= 0 {
      MulMono(small, d, q);
      assert q * small == small * q && q * d == d * q;
      MulLess(q, r + 1, small);
    } else {
      MulLess(0, r + 1, small);
    }
  }

  // ---- The normalised estimate ---------------------------------------------

  /** What dividing by the top 32 bits of the normalised divisor amounts to: p is
      2^(31-s), e is 2^s, v is those top bits. The divisor d is approximated from
      below by 2vp. */
  lemma DivisorApproximation(d: nat, e: nat, p: nat, v: nat)
    requires e * p == 0x8000_0000 && e >= 1 && p >= 1
    requires v == d * e / B32
    requires 0x8000_0000_0000_0000 <= d * e < B64
    ensures 0x8000_0000 <= v < B32
    ensures 2 * v * p <= d <= 2 * v * p + 2 * p - 1
  {
    DivBounds(d * e, B32);
    var m := 2 * v * p;
    assert m * e == v * B32 by { assert m * e == 2 * v * (e * p); }
    assert (m + 2 * p) * e == (v + 1) * B32 by { assert (m + 2 * p) * e == m * e + 2 * (e * p); }
    assert (d + 1) * e == d * e + e;
    MulLess(m, d + 1, e);
    MulLess(d, m + 2 * p, e);
  }

  lemma SquareBound(p: nat)
    requires p >= 1
    ensures 2 * p - 1 <= p * p
  {
    assert (p - 1) * (p - 1) == p * p - 2 * p + 1;
    assert (p - 1) * (p - 1) >= 0;
  }

  /** The heart of the second branch: the product bound that keeps the estimate
      within one of the quotient; it comes down to (p - 1)^2 >= 0. */
  lemma EstimateError(n: nat, d: nat, m: nat, p: nat)
    requires n < B64 && p >= 1 && B32 * p <= m <= d <= m + 2 * p - 1
    ensures n * (d - m) < d * m
  {
    SquareBound(p);
    var b := B32 * p;
    assert n * (d - m) <= (B64 - 1) * (2 * p - 1) by {
      MulMono(n, B64 - 1, d - m);
      MulMono(d - m, 2 * p - 1, B64 - 1);
    }
    assert b * b == B64 * (p * p) by { BigSquare(p); }
    assert b * b <= d * m by {
      MulMono(b, d, b);
      MulMono(b, m, d);
    }
  }

  lemma BigSquare(p: nat)
    ensures (B32 * p) * (B32 * p) == B64 * (p * p)
  {}

  lemma EstimateWithinOne(n: nat, d: nat, m: nat)
    requires 0 < m <= d && n * (d - m) < d * m
    ensures n / d <= n / m <= n / d + 1
  {
    DivAntitone(n, m, d);
    var k := n / m;
    DivBounds(n, m);
    DivBounds(n, d);
    assert n * d < (n + d) * m by { assert n * (d - m) == n * d - n * m; }
    MulMono(k * m, n, d);
    assert (k * d) * m == (k * m) * d;
    MulLess(k * d, n + d, m);
    assert (k - 1) * d == k * d - d;
    MulLess(k - 1, n / d + 1, d);
  }

  // ---- udiv64, umod64, sdiv64, smod64 --------------------------------------

  /** The divl instruction; it traps if the quotient does not fit in 32 bits. */
  function Divl(n: U64, d: U32): (q: U32)
    requires d != 0 && n / d < B32
  {
    n / d
  }

  /** The divisor that the estimate divides by: the top word of d << s. */
  function TopWord(d: U64, s: nat): (v: U32) {
    Shl64(d, s) / B32
  }

  /** The normalised estimate is the quotient or one more, and neither shift wraps
      nor divl traps on the way to it. */
  lemma Estimate(n: U64, d: U64, s: nat)
    requires d / B32 != 0 && s == Nlz(d / B32)
    ensures TopWord(d, s) != 0 && n / 2 / TopWord(d, s) < B32
    ensures n / d <= n / 2 / TopWord(d, s) / Pow2(31 - s) <= n / d + 1
  {
    hide Pow2, Nlz, TopWord;
    EstimateScale(d, s);
    DivisorApproximation(d, Pow2(s), Pow2(31 - s), TopWord(d, s));
    EstimateBy(n, d, TopWord(d, s), Pow2(31 - s));
  }

  lemma EstimateBy(n: U64, d: nat, v: nat, p: nat)
    requires p >= 1 && 0x8000_0000 <= v && 2 * v * p <= d <= 2 * v * p + 2 * p - 1
    ensures n / 2 / v < B32
    ensures n / d <= n / 2 / v / p <= n / d + 1
  {
    var m := 2 * v * p;
    assert B32 * p <= m by { MulMono(0x8000_0000, v, p); assert m == 2 * (v * p); }
    EstimateError(n, d, m, p);
    EstimateWithinOne(n, d, m);
    assert n / 2 / v / p == n / m by {
      DivDiv(n, 2, v);
      DivDiv(n, 2 * v, p);
    }
    DivAntitone(n / 2, 0x8000_0000, v);
  }

  lemma EstimateScale(d: U64, s: nat)
    requires d / B32 != 0 && s == Nlz(d / B32)
    ensures Pow2(s) * Pow2(31 - s) == 0x8000_0000
    ensures 0x8000_0000_0000_0000 <= d * Pow2(s) < B64
    ensures TopWord(d, s) == d * Pow2(s) / B32
  {
    hide Pow2, Nlz;
    var h := d / B32;
    Pow2Add(s, 31 - s);
    LargePowers();
    NormalisedCeiling(h, s);
    ScaleWords(d, h, Pow2(s));
  }

  lemma ScaleWords(d: nat, h: nat, e: nat)
    requires h * B32 <= d < (h + 1) * B32 && 0x8000_0000 <= h * e && (h + 1) * e <= B32 && e >= 1
    ensures 0x8000_0000_0000_0000 <= d * e < B64
  {
    MulMono(h * B32, d, e);
    MulMono(d + 1, (h + 1) * B32, e);
    assert (h * B32) * e == (h * e) * B32;
    assert ((h + 1) * B32) * e == ((h + 1) * e) * B32;
    assert (d + 1) * e == d * e + e;
  }

  /** Nothing above bit 31 appears even if every lower bit carries. */
  lemma NormalisedCeiling(h: nat, s: nat)
    requires s <= 31 && h * Pow2(s) < B32
    ensures (h + 1) * Pow2(s) <= B32
  {
    hide Pow2;
    Pow2Add(s, 32 - s);
    LargePowers();
    MultipleBelow(h, Pow2(s), Pow2(32 - s));
  }

  lemma MultipleBelow(h: nat, e: nat, f: nat)
    requires e >= 1 && h * e < e * f
    ensures (h + 1) * e <= e * f
  {
    assert e * f == f * e;
    MulLess(h, f, e);
    MulMono(h + 1, f, e);
  }

  /** udiv64 for a divisor that fits in 32 bits. */
  function UDivShort(n: U64, d: U64): (q: U64)
    requires 0 < d < B32
    ensures q == n / d
  {
    var n1: U32, n0: U32 := n / B32, Low32(n);
    ShortDivision(n, d);
    ShrBound(n, d);
    Divl(B32 * (n1 % d) + n0, d) + B32 * (n1 / d)
  }

  /** udiv64 for a divisor that does not: estimate and correct. */
  function UDivLong(n: U64, d: U64): (q: U64)
    requires B32 <= d <= n
    ensures q == n / d
  {
    var s := Nlz(d / B32);
    Estimate(n, d, s);
    var q: U64 := Shr64(Divl(n / 2, TopWord(d, s)), 31 - s);
    Correction(n, d, q);
    if Low64(n - Low64((q - 1) * d)) < d then q - 1 else q
  }

  /** udiv64: the quotient, for every 64-bit numerator and nonzero divisor. */
  function UDiv64(n: U64, d: U64): (q: U64)
    requires d != 0
    ensures q == n / d
  {
    if d / B32 == 0 then UDivShort(n, d)
    else if n < d then DivUnique(n, d, 0); 0
    else UDivLong(n, d)
  }

  /** The first branch, proved on paper in the source's comment. */
  lemma ShortDivision(n: U64, d: U64)
    requires 0 < d < B32
    ensures var n1, n0 := n / B32, n % B32;
            && 0 <= B32 * (n1 % d) + n0 < B64
            && (B32 * (n1 % d) + n0) / d < B32
            && (B32 * (n1 % d) + n0) / d + B32 * (n1 / d) == n / d
  {
    var n1, n0 := n / B32, n % B32;
    var x, t := B32 * (n1 % d) + n0, B32 * (n1 / d);
    assert n == x + t * d by { assert n1 == n1 / d * d + n1 % d; assert B32 * (n1 / d * d) == t * d; }
    DivBounds(x, d);
    var q := x / d;
    assert (q + t) * d == q * d + t * d;
    assert (q + t + 1) * d == (q + 1) * d + t * d;
    DivUnique(n, d, q + t);
    assert x < B32 * d by { assert B32 * (n1 % d) <= B32 * (d - 1); }
    MulLess(q, B32, d);
  }

  /** The final comparison picks the quotient out of the estimate and its
      predecessor, with no wrap-around in between. */
  lemma Correction(n: U64, d: U64, q: int)
    requires 0 < d <= n && n / d <= q <= n / d + 1
    ensures q >= 1
    ensures Low64(n - Low64((q - 1) * d)) < d <==> q == n / d + 1
  {
    var t := n / d;
    DivBounds(n, d);
    MulLess(0, t + 1, d);
    assert t != 0;
    MulMono(q - 1, t, d);
    assert q == t ==> (q - 1) * d == t * d - d;
    assert 0 <= (q - 1) * d <= n by { MulMono(0, q - 1, d); }
    InRange((q - 1) * d);
    InRange(n - (q - 1) * d);
  }

  lemma InRange(x: int)
    requires 0 <= x < B64
    ensures Low64(x) == x
  {}

  /** umod64: its result is cut to 32 bits, so it is the remainder exactly when
      the remainder fits. */
  function UMod64(n: U64, d: U64): (r: U32)
    requires d != 0
    ensures r == n % d % B32
  {
    RemainderFromQuotient(n, d);
    Low32(Low64(n - Low64(d * UDiv64(n, d))))
  }

  lemma RemainderFromQuotient(n: U64, d: U64)
    requires d != 0
    ensures Low64(n - Low64(d * (n / d))) == n % d
  {
    DivBounds(n, d);
    assert d * (n / d) == n / d * d;
    assert n == d * (n / d) + n % d;
    MulLess(-1, n / d, d);
    MulMono(0, n / d, d);
    InRange(d * (n / d));
    InRange(n % d);
  }

  lemma UMod64Exact(n: U64, d: U64)
    requires d != 0
    ensures UMod64(n, d) == n % d <==> n % d < B32
    ensures d <= B32 ==> UMod64(n, d) == n % d
  {
    hide UMod64;
    var r := n % d;
    assert UMod64(n, d) == r % B32 && 0 <= r < d;
    CutOnce(r);
  }

  lemma CutOnce(r: nat)
    ensures r % B32 == r <==> r < B32
  {}

  ghost function Abs(x: int): (r: nat) { if x < 0 then -x else x }

  /** q is n divided by d and truncated toward zero: the remainder is smaller than
      the divisor and never has the sign opposite to n's. */
  ghost predicate Truncates(n: int, d: int, q: int) {
    var r := n - d * q;
    Abs(r) < Abs(d) && (n >= 0 ==> r >= 0) && (n <= 0 ==> r <= 0)
  }

  lemma TruncatedMagnitude(n: int, d: int, q: int)
    requires d != 0 && q == if (n < 0) == (d < 0) then Abs(n) / Abs(d) else -(Abs(n) / Abs(d))
    ensures Truncates(n, d, q)
  {
    var a := Abs(n) / Abs(d);
    DivBounds(Abs(n), Abs(d));
    assert a * Abs(d) == if n < 0 then -(d * q) else d * q;
  }

  lemma TruncatesUnique(n: int, d: int, q: int, q': int)
    requires d != 0 && Truncates(n, d, q) && Truncates(n, d, q')
    ensures q == q'
  {
    var r, r' := n - d * q, n - d * q';
    assert d * (q - q') == r' - r;
    SmallMultiple(d, q - q');
  }

  lemma SmallMultiple(d: int, k: int)
    requires d != 0 && Abs(d * k) < Abs(d)
    ensures k == 0
  {
    assert Abs(d * k) == Abs(d) * Abs(k);
    assert Abs(d) * Abs(k) == Abs(k) * Abs(d);
    MulLess(Abs(k), 1, Abs(d));
  }

  const MIN64: int := -0x8000_0000_0000_0000

  function Magnitude(n: int): (r: U64)
    requires MIN64 <= n < -MIN64
    ensures r == Abs(n)
  {
    if n >= 0 then n else Low64(-n)
  }

  /** sdiv64. The quotient of its magnitudes is negated as a 64-bit word. */
  function SDiv64(n: I64, d: I64): (q: I64)
    requires d != 0
    ensures q == if n == MIN64 && d == -1 then MIN64
                 else if (n < 0) == (d < 0) then Abs(n) / Abs(d) else -(Abs(n) / Abs(d))
  {
    MagnitudeQuotient(n, d);
    var a := UDiv64(Magnitude(n), Magnitude(d));
    if (n < 0) == (d < 0) then AsI64(a) else Negated(AsI64(a))
  }

  function Negated(x: int): (r: I64)
    requires MIN64 <= x < -MIN64
    ensures r == if x == MIN64 then x else -x
  {
    AsI64(Low64(-x))
  }

  lemma MagnitudeQuotient(n: int, d: int)
    requires MIN64 <= n < -MIN64 && MIN64 <= d < -MIN64 && d != 0
    ensures var a := Abs(n) / Abs(d);
            0 <= a <= -MIN64 && (a == -MIN64 ==> n == MIN64 && (d == 1 || d == -1))
  {
    ShrBound(Abs(n), Abs(d));
    if Abs(d) >= 2 {
      DivAntitone(Abs(n), 2, Abs(d));
    }
  }

  /** sdiv64 truncates toward zero for every pair of arguments but one. */
  lemma SDiv64Exact(n: I64, d: I64)
    requires d != 0
    ensures Truncates(n, d, SDiv64(n, d)) <==> !(n == MIN64 && d == -1)
  {
    if !(n == MIN64 && d == -1) {
      TruncatedMagnitude(n, d, SDiv64(n, d));
    }
  }

  /** smod64: the remainder cut to 32 bits. */
  function SMod64(n: I64, d: I64): (r: I32)
    requires d != 0
  {
    AsI32(n - d * SDiv64(n, d))
  }

  /** It is the remainder if and only if the remainder fits in an int. */
  lemma SMod64Exact(n: I64, d: I64, q: int)
    requires d != 0 && Truncates(n, d, q)
    ensures SMod64(n, d) == n - d * q <==> -0x8000_0000 <= n - d * q < 0x8000_0000
  {
    if n == MIN64 && d == -1 {
      TruncatesUnique(n, d, q, -MIN64);
    } else {
      hide AsI32, Truncates, SDiv64;
      SDiv64Exact(n, d);
      TruncatesUnique(n, d, q, SDiv64(n, d));
      AsI32Exact(n - d * q);
    }
  }

  lemma AsI32Exact(x: int)
    ensures AsI32(x) == x <==> -0x8000_0000 <= x < 0x8000_0000
  {}

  /** An unsigned and a signed remainder that do not survive the cut. */
  lemma RemaindersCut()
    ensures UMod64(0x1_0000_0000, 0x2_0000_0000) == 0 != 0x1_0000_0000 % 0x2_0000_0000
    ensures Truncates(0x8000_0000, 0x1_0000_0000, 0) && SMod64(0x8000_0000, 0x1_0000_0000) == -0x8000_0000
  {}
}
