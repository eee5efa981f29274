/**
  Bitwise AND on naturals, and the power-of-two arithmetic of the hash table
  (lib/kernel/hash.c): masks, and clearing the lowest one bit.
 */
module PowerOfTwo {
  import Arithmetic

  function And(a: nat, b: nat): (r: nat)
    ensures r <= a && r <= b
  {
    if a == 0 || b == 0 then 0 else (if a % 2 == 1 && b % 2 == 1 then 1 else 0) + 2 * And(a / 2, b / 2)
  }

  predicate IsPow2(x: nat) {
    x == 1 || (x > 1 && x % 2 == 0 && IsPow2(x / 2))
  }

  /** The largest power of two that is at most x. */
  function Floor2(x: nat): (r: nat)
    requires x > 0
    ensures r <= x < 2 * r && IsPow2(r)
  {
    if x == 1 then 1 else 2 * Floor2(x / 2)
  }

  /** A power of two less one is a mask: AND with it is the remainder. */
  lemma {:induction false} MaskIsRemainder(h: nat, c: nat)
    requires IsPow2(c)
    ensures And(h, c - 1) == h % c
    decreases c
  {
    if c > 1 {
      MaskIsRemainder(h / 2, c / 2);
      assert (c - 1) / 2 == c / 2 - 1 && (c - 1) % 2 == 1;
      HalfRemainder(h, c / 2);
    }
  }

  lemma HalfRemainder(h: nat, d: nat)
    requires d > 0
    ensures h % (2 * d) == h % 2 + 2 * (h / 2 % d)
  {
    var q, r := h / 2 / d, h / 2 % d;
    assert h / 2 == d * q + r;
    assert h == 2 * d * q + (h % 2 + 2 * r);
    RemainderUnique(h, 2 * d, q, h % 2 + 2 * r);
  }

  lemma RemainderUnique(h: nat, m: nat, q: nat, r: nat)
    requires h == m * q + r && r < m
    ensures h % m == r
  {
    assert q * m == m * q && (q + 1) * m == m * q + m;
    Arithmetic.DivUnique(h, m, q);
  }

  lemma {:induction false} AndSelf(x: nat)
    ensures And(x, x) == x
  {
    if x > 0 { AndSelf(x / 2); }
  }

  /** is_power_of_2's test is exact. */
  lemma {:induction false} PowerTest(x: nat)
    requires x > 0
    ensures And(x, x - 1) == 0 <==> IsPow2(x)
  {
    if x % 2 == 1 {
      AndSelf(x / 2);
      assert (x - 1) / 2 == x / 2;
    } else {
      PowerTest(x / 2);
      assert (x - 1) / 2 == x / 2 - 1;
    }
  }

  /** turn_off_least_1bit keeps the highest one bit of a number that has others. */
  lemma {:induction false} TurnOffKeepsTop(x: nat)
    requires x > 0 && !IsPow2(x)
    ensures 0 < And(x, x - 1) < x && Floor2(And(x, x - 1)) == Floor2(x)
  {
    if x % 2 == 1 {
      TurnOffOdd(x);
    } else {
      TurnOffKeepsTop(x / 2);
      TurnOffEven(x);
      FloorDouble(And(x / 2, x / 2 - 1));
      hide And;
    }
  }

  lemma TurnOffEven(x: nat)
    requires x > 1 && x % 2 == 0
    ensures And(x, x - 1) == 2 * And(x / 2, x / 2 - 1)
  {
    assert (x - 1) / 2 == x / 2 - 1;
  }

  lemma FloorDouble(y: nat)
    requires y > 0
    ensures Floor2(2 * y) == 2 * Floor2(y)
  {
    assert 2 * y / 2 == y;
  }

  lemma TurnOffOdd(x: nat)
    requires x > 1 && x % 2 == 1
    ensures And(x, x - 1) == x - 1 && Floor2(x - 1) == Floor2(x)
  {
    assert (x - 1) / 2 == x / 2;
    AndSelf(x / 2);
  }

  lemma {:induction false} FloorOfPower(x: nat)
    requires IsPow2(x)
    ensures Floor2(x) == x
  {
    if x > 1 { FloorOfPower(x / 2); }
  }
}
