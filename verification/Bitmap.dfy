/**
  The word-packed bitmap (lib/kernel/bitmap.c). `View` is the sequence of bits it
  stands for; every method is proved against it.
 */
module BitmapWords {
  import opened Bits

  const ELEM_BITS: nat := 32

  function ElemIdx(i: nat): (r: nat) { i / ELEM_BITS }

  // The three word operations, and what one mask does to another's bit.

  function AndWord(w: bv32, m: bv32): (r: bv32) { w & m }
  function OrWord(w: bv32, m: bv32): (r: bv32) { w | m }
  function NotWord(m: bv32): (r: bv32) { !m }

  lemma DisjointMasks(w: bv32, m: bv32, n: bv32)
    requires m & n == 0
    ensures (w | m) & n == w & n
  {}

  lemma SetElsewhere(w: bv32, m: bv32, n: bv32)
    requires AndWord(m, n) == 0
    ensures AndWord(OrWord(w, m), n) == AndWord(w, n)
  {
    assert m & n == 0;
    DisjointMasks(w, m, n);
    assert OrWord(w, m) == w | m;
    assert AndWord(w | m, n) == (w | m) & n;
  }

  lemma AndAssociative(a: bv32, b: bv32, c: bv32)
    ensures AndWord(AndWord(a, b), c) == AndWord(a, AndWord(b, c))
  {}

  lemma NotElsewhere(m: bv32, n: bv32)
    requires AndWord(m, n) == 0
    ensures AndWord(NotWord(m), n) == n
  {}

  lemma ClearedElsewhere(w: bv32, m: bv32, n: bv32)
    requires AndWord(m, n) == 0
    ensures AndWord(AndWord(w, NotWord(m)), n) == AndWord(w, n)
  {
    hide AndWord, NotWord;
    AndAssociative(w, NotWord(m), n);
    NotElsewhere(m, n);
  }

  lemma MaskedHere(w: bv32, m: bv32)
    ensures AndWord(OrWord(w, m), m) == m && AndWord(AndWord(w, NotWord(m)), m) == 0
  {}

  lemma ShiftRoundTrip(k: nat)
    requires k < 32
    ensures (k as bv6) as int == k
  {}

  function Shifted(a: bv6): (m: bv32)
    requires a < 32
  {
    (1 as bv32) << a
  }

  lemma ShiftedApart(a: bv6, b: bv6)
    requires a < 32 && b < 32 && a != b
    ensures AndWord(Shifted(a), Shifted(b)) == 0
  {}

  lemma ShiftedNonzero(a: bv6)
    requires a < 32
    ensures Shifted(a) != 0
  {}

  /** bit_mask */
  function BitMask(i: nat): (m: bv32) {
    ShiftRoundTrip(i % 32);
    Shifted((i % ELEM_BITS) as bv6) }

  lemma MasksApart(i: nat, j: nat)
    ensures BitMask(i) != 0
    ensures i % 32 != j % 32 ==> AndWord(BitMask(i), BitMask(j)) == 0
    ensures i % 32 == j % 32 ==> BitMask(i) == BitMask(j)
  {
    hide Shifted, AndWord;
    var a, b := (i % 32) as bv6, (j % 32) as bv6;
    ShiftRoundTrip(i % 32);
    ShiftRoundTrip(j % 32);
    ShiftedNonzero(a);
    if i % 32 != j % 32 {
      ShiftedApart(a, b);
    }
  }

  predicate TestBit(w: bv32, i: nat) { AndWord(w, BitMask(i)) != 0 }
  function SetBit(w: bv32, i: nat): (r: bv32) { OrWord(w, BitMask(i)) }
  function ClearBit(w: bv32, i: nat): (r: bv32) { AndWord(w, NotWord(BitMask(i))) }

  /** Setting or clearing one bit of a word leaves its other bits alone. */
  lemma OneBit(w: bv32, i: nat, j: nat)
    ensures TestBit(SetBit(w, i), j) == (i % 32 == j % 32 || TestBit(w, j))
    ensures TestBit(ClearBit(w, i), j) == (i % 32 != j % 32 && TestBit(w, j))
  {
    hide BitMask, AndWord, OrWord, NotWord;
    MasksApart(i, j);
    if i % 32 == j % 32 {
      MaskedHere(w, BitMask(i));
    } else {
      SetElsewhere(w, BitMask(i), BitMask(j));
      ClearedElsewhere(w, BitMask(i), BitMask(j));
    }
  }

  // ---- Whole words -----------------------------------------------------------

  /** The bits of an array of words. */
  ghost function Spread(ws: seq<bv32>): (v: seq<bool>)
    ensures |v| == 32 * |ws|
  {
    seq(32 * |ws|, i requires 0 <= i < 32 * |ws| => TestBit(ws[ElemIdx(i)], i))
  }

  /** last_mask: the bits of the last word that are in use. */
  function LastMask(bitCnt: nat): (m: bv32) {
    if bitCnt % ELEM_BITS == 0 then 0xffff_ffff else Lower(BitMask(bitCnt))
  }

  function Lower(m: bv32): (r: bv32) { m - 1 }

  lemma LowerMask(a: bv6, b: bv6)
    requires a < 32 && b < 32
    ensures AndWord(Lower(Shifted(a)), Shifted(b)) == if b < a then Shifted(b) else 0
  {}

  lemma AndNothing(w: bv32)
    ensures AndWord(w, 0) == 0
  {}

  lemma LowerBits(a: bv6, b: bv6, w: bv32)
    requires a < 32 && b < 32
    ensures AndWord(AndWord(w, Lower(Shifted(a))), Shifted(b)) == if b < a then AndWord(w, Shifted(b)) else 0
  {
    hide AndWord, Lower, Shifted;
    AndAssociative(w, Lower(Shifted(a)), Shifted(b));
    LowerMask(a, b);
    AndNothing(w);
  }

  lemma ShiftOrder(i: nat, j: nat)
    requires i < 32 && j < 32
    ensures (i as bv6) < 32 && (j as bv6) < 32
    ensures (j as bv6) < (i as bv6) <==> j < i
  {}

  lemma AllBits(w: bv32)
    ensures AndWord(w, 0xffff_ffff) == w
  {}

  /** Masking the last word clears the bits past the end and no others. */
  lemma LastMasked(w: bv32, bitCnt: nat, j: nat)
    ensures TestBit(AndWord(w, LastMask(bitCnt)), j) == (TestBit(w, j) && (bitCnt % 32 == 0 || j % 32 < bitCnt % 32))
  {
    hide AndWord, Shifted, Lower;
    if bitCnt % 32 == 0 {
      AllBits(w);
    } else {
      ShiftOrder(bitCnt % 32, j % 32);
      LowerBits((bitCnt % 32) as bv6, (j % 32) as bv6, w);
    }
  }

  class Bitmap {
    const bitCnt: nat
    const bits: array<bv32>

    ghost predicate Valid() {
      bits.Length == (bitCnt + ELEM_BITS - 1) / ELEM_BITS
    }

    ghost function View(): (v: seq<bool>)
      requires Valid()
      reads bits
      ensures |v| == bitCnt
    {
      Spread(bits[..])[..bitCnt]
    }

    /** bitmap_create: the words come uninitialised and every bit is then cleared. */
    constructor (n: nat)
      ensures Valid() && bitCnt == n && fresh(bits)
      ensures forall i :: 0 <= i < n ==> !View()[i]
    {
      bitCnt := n;
      bits := new bv32[(n + ELEM_BITS - 1) / ELEM_BITS];
      new;
      SetMultiple(0, n, false);
    }

    /** bitmap_set, through bitmap_mark and bitmap_reset */
    method Set(idx: nat, value: bool)
      requires Valid() && idx < bitCnt
      modifies bits
      ensures View() == old(View())[idx := value]
    {
      hide TestBit, SetBit, ClearBit;
      ghost var v := Spread(bits[..]);
      var k := ElemIdx(idx);
      ghost var w := bits[k];
      if value {
        bits[k] := SetBit(bits[k], idx);
      } else {
        bits[k] := ClearBit(bits[k], idx);
      }
      forall i | 0 <= i < |v| ensures Spread(bits[..])[i] == v[idx := value][i] {
        OneBit(w, idx, i);
      }
      assert Spread(bits[..]) == v[idx := value];
    }

    /** bitmap_read: the words that the file holds, without the bits past the end. */
    method Load(ws: seq<bv32>)
      requires Valid() && |ws| == bits.Length
      modifies bits
      ensures View() == Spread(ws)[..bitCnt]
      ensures forall i :: bitCnt <= i < 32 * |ws| ==> !Spread(bits[..])[i]
    {
      hide TestBit, LastMask;
      for i := 0 to bits.Length
        invariant forall k :: 0 <= k < i ==> bits[k] == ws[k]
      {
        bits[i] := ws[i];
      }
      if bitCnt > 0 {
        var last := bits.Length - 1;
        bits[last] := AndWord(bits[last], LastMask(bitCnt));
        ghost var v := Spread(bits[..]);
        forall i | 0 <= i < |v| ensures v[i] == (i < bitCnt && Spread(ws)[i]) {
          if ElemIdx(i) == last {
            LastMasked(ws[last], bitCnt, i);
          }
        }
      }
    }

    /** bitmap_test */
    method Test(idx: nat) returns (b: bool)
      requires Valid() && idx < bitCnt
      ensures b == View()[idx]
    {
      b := TestBit(bits[ElemIdx(idx)], idx);
    }

    /** bitmap_set_multiple */
    method SetMultiple(start: nat, cnt: nat, value: bool)
      requires Valid() && start + cnt <= bitCnt
      modifies bits
      ensures View() == SetRun(old(View()), start, cnt, value)
    {
      hide Bitmap.View;
      ghost var v := View();
      var i := 0;
      assert View() == SetRun(v, start, 0, value);
      while i < cnt
        invariant 0 <= i <= cnt && View() == SetRun(v, start, i, value)
      {
        Set(start + i, value);
        i := i + 1;
        assert View() == SetRun(v, start, i, value);
      }
    }

    /** bitmap_contains */
    method Contains(start: nat, cnt: nat, value: bool) returns (b: bool)
      requires Valid() && start + cnt <= bitCnt
      ensures b <==> exists j :: start <= j < start + cnt && View()[j] == value
    {
      var i := 0;
      while i < cnt
        invariant 0 <= i <= cnt && forall j :: start <= j < start + i ==> View()[j] != value
      {
        var t := Test(start + i);
        if t == value {
          return true;
        }
        i := i + 1;
      }
      return false;
    }

    /** bitmap_scan: exact first fit. */
    method Scan(start: nat, cnt: nat, value: bool) returns (r: Option<nat>)
      requires Valid() && start <= bitCnt
      ensures FirstFit(View(), start, cnt, value, r)
    {
      if cnt <= bitCnt {
        var i := start;
        while i <= bitCnt - cnt
          invariant start <= i && forall j :: start <= j < i ==> !RunAt(View(), j, cnt, value)
          decreases bitCnt - i
        {
          var c := Contains(i, cnt, !value);
          if !c {
            return Some(i);
          }
          i := i + 1;
        }
      }
      return None;
    }

    /** bitmap_scan_and_flip */
    method ScanAndFlip(start: nat, cnt: nat, value: bool) returns (r: Option<nat>)
      requires Valid() && start <= bitCnt
      modifies bits
      ensures FirstFit(old(View()), start, cnt, value, r)
      ensures View() == match r case Some(i) => SetRun(old(View()), i, cnt, !value) case None => old(View())
    {
      r := Scan(start, cnt, value);
      if r.Some? {
        SetMultiple(r.value, cnt, !value);
      }
    }
  }
}
