/**
  Sequences of bits: what the kernel's bitmap (lib/kernel/bitmap.c) promises,
  free of how it packs them into words.
 */
module Bits {

  datatype Option<+T> = None | Some(value: T)

  /** bits[i..i+cnt] lies inside the bitmap and is all v. */
  ghost predicate RunAt(bits: seq<bool>, i: nat, cnt: nat, v: bool) {
    i + cnt <= |bits| && forall j :: i <= j < i + cnt ==> bits[j] == v
  }

  /** r is the least start, at or after `start`, of cnt bits that are all v; None
      if there is no such group. */
  ghost predicate FirstFit(bits: seq<bool>, start: nat, cnt: nat, v: bool, r: Option<nat>) {
    match r
    case Some(i) => start <= i && RunAt(bits, i, cnt, v) && forall j :: start <= j < i ==> !RunAt(bits, j, cnt, v)
    case None => forall j :: start <= j ==> !RunAt(bits, j, cnt, v)
  }

  /** bits with bits[start..start+cnt] set to v. */
  ghost function SetRun(bits: seq<bool>, start: nat, cnt: nat, v: bool): (r: seq<bool>)
    requires start + cnt <= |bits|
  {
    seq(|bits|, i requires 0 <= i < |bits| => if start <= i < start + cnt then v else bits[i])
  }

  /** The number of clear bits. */
  ghost function FreeCount(bits: seq<bool>): (n: nat) {
    if bits == [] then 0
    else FreeCount(bits[..|bits|-1]) + if bits[|bits|-1] then 0 else 1
  }

  lemma {:induction false} MarkOne(bits: seq<bool>, s: nat)
    requires s < |bits| && !bits[s]
    ensures FreeCount(bits[s := true]) == FreeCount(bits) - 1
  {
    var n := |bits| - 1;
    if s < n {
      MarkOne(bits[..n], s);
      assert bits[s := true][..n] == bits[..n][s := true];
    } else {
      assert bits[s := true][..n] == bits[..n];
    }
  }

  lemma {:induction false} SomeFree(bits: seq<bool>)
    ensures FreeCount(bits) > 0 <==> exists s :: 0 <= s < |bits| && !bits[s]
  {
    if bits != [] {
      var n := |bits| - 1;
      SomeFree(bits[..n]);
      if FreeCount(bits[..n]) > 0 {
        var s :| 0 <= s < n && !bits[..n][s];
        assert !bits[s];
      }
      assert forall s :: 0 <= s < n ==> bits[..n][s] == bits[s];
    }
  }
}
