/**
  inode_deallocate (filesys/inode.c): which sectors a removed file gives back, and
  which it does not.
 */
module InodeFree {
  import opened Order
  import opened Bits
  import opened BitmapWords
  import opened InodeLayout
  import opened InodeGrowth
  import opened InodeBytes
  import opened MapFile
  import opened FileSystem
  import opened Inodes
  import opened InodeIO

  /** The free map with the sectors xs given back. */
  ghost function Released(used: seq<bool>, xs: seq<nat>): (r: seq<bool>)
    ensures |r| == |used| && forall s :: 0 <= s < |used| ==> r[s] == (used[s] && s !in xs)
  {
    seq(|used|, s requires 0 <= s < |used| => used[s] && s !in xs)
  }

  lemma ReleasedOne(used: seq<bool>, xs: seq<nat>, s: nat)
    requires s < |used|
    ensures Released(used, xs)[s := false] == Released(used, xs + [s])
  {}

  /** A run of single-sector releases gives back what it should: each sector is
      still marked when its turn comes, so free_map_release's assertion holds. */
  lemma ReleaseNext(used: seq<bool>, xs: seq<nat>, k: nat)
    requires Holds(used, xs) && k < |xs|
    ensures xs[k] < |used| && Released(used, xs[..k])[xs[k]]
    ensures Released(used, xs[..k])[xs[k] := false] == Released(used, xs[..k+1])
  {
    ReleasedOne(used, xs[..k], xs[k]);
    assert xs[..k] + [xs[k]] == xs[..k+1];
  }

  /** The order in which inode_deallocate gives sectors back: the single-indirect
      block between the sectors it lists and the rest, the double-indirect block
      last. The inner index blocks are not in it. */
  ghost function Returned(ptr: seq<Word>, flat: seq<nat>): (xs: seq<nat>)
    requires |ptr| == DIRECT_BLOCK_SIZE
  {
    if |flat| <= 10 then flat
    else if |flat| <= 138 then flat + [ptr[10]]
    else flat[..138] + [ptr[10]] + flat[138..] + [ptr[11]]
  }

  lemma HoldsInsert(used: seq<bool>, xs: seq<nat>, k: nat, s: nat)
    requires Holds(used, xs) && k <= |xs| && s < |used| && used[s] && s !in xs
    ensures Holds(used, xs[..k] + [s] + xs[k..])
  {}

  lemma ReturnedHeld(disk: seq<Sector>, used: seq<bool>, ptr: seq<Word>, flat: seq<nat>, inner: seq<nat>)
    requires Laid(disk, used, ptr, flat, inner)
    ensures Holds(used, Returned(ptr, flat))
  {
    hide Decode, SingleOk, OuterOk, InnersOk, DirectOk, Holds;
    IndexBlocks(disk, used, ptr, flat, inner);
    hide Laid, Separate;
    if 10 < |flat| <= 138 {
      HoldsInsert(used, flat, |flat|, ptr[10]);
      assert flat[..|flat|] + [ptr[10]] + flat[|flat|..] == flat + [ptr[10]];
    } else if |flat| > 138 {
      HoldsInsert(used, flat, 138, ptr[10]);
      var ys := flat[..138] + [ptr[10]] + flat[138..];
      HoldsInsert(used, ys, |ys|, ptr[11]);
      assert ys[..|ys|] + [ptr[11]] + ys[|ys|..] == ys + [ptr[11]];
    }
  }

  lemma IndexBlocks(disk: seq<Sector>, used: seq<bool>, ptr: seq<Word>, flat: seq<nat>, inner: seq<nat>)
    requires Laid(disk, used, ptr, flat, inner)
    ensures |ptr| == DIRECT_BLOCK_SIZE && Holds(used, flat)
    ensures |flat| > 10 ==> ptr[10] < |used| && used[ptr[10]] && ptr[10] !in flat
    ensures |flat| > 138 ==> ptr[11] < |used| && used[ptr[11]] && ptr[11] !in flat && ptr[11] != ptr[10]
  {
    hide Decode, SingleOk, OuterOk, InnersOk, DirectOk;
    var m := Meta(ptr, |flat|, inner);
    if |flat| > 10 { assert m[0] == ptr[10]; }
    if |flat| > 138 { assert m[1] == ptr[11]; }
  }

  /** A deallocation of the inode, from the device d, that has given back the first k
      of the sectors it returns. */
  ghost predicate Freeing(inode: Inode, fs: FileSys, d: Snap, k: nat)
    reads inode, fs, fs.freeMap.bits
  {
    && fs.Valid() && fs.mapFile == d.mf && d.mf != [] && Rewritten(d.disk, fs.disk, d.mf)
    && Laid(d.disk, d.used, inode.ptr, inode.flat, inode.inner)
    && d.flat == inode.flat && d.meta == Meta(inode.ptr, |inode.flat|, inode.inner) && Apart(d)
    && k <= |Returned(inode.ptr, inode.flat)|
    && fs.Used() == Released(d.used, Returned(inode.ptr, inode.flat)[..k])
  }

  /** The same, and whether the last release could write the map. */
  ghost predicate Freed(inode: Inode, fs: FileSys, d: Snap, k: nat, saved: bool)
    reads inode, fs, fs.freeMap.bits
  {
    Freeing(inode, fs, d, k) && (saved ==> fs.Saved())
  }

  lemma FreeingFacts(inode: Inode, fs: FileSys, d: Snap, k: nat)
    requires Freeing(inode, fs, d, k)
    ensures |inode.ptr| == DIRECT_BLOCK_SIZE && |fs.disk| == |d.disk| && |inode.flat| <= CAPACITY && fs.Valid()
    ensures Laid(d.disk, d.used, inode.ptr, inode.flat, inode.inner)
    ensures forall t :: t in Meta(inode.ptr, |inode.flat|, inode.inner) && t < |d.disk| ==> fs.disk[t] == d.disk[t]
  {
    hide Bitmap.View, Released, InStep, MapLaid, Returned, Meta, InnersOk, Decode;
  }

  /** free_map_release of the next sector. `saved` says whether the map could be
      written. */
  method ReleaseStep(inode: Inode, fs: FileSys, s: nat, ghost d: Snap, ghost k: nat) returns (saved: bool)
    requires Freeing(inode, fs, d, k)
    requires k < |Returned(inode.ptr, inode.flat)| && s == Returned(inode.ptr, inode.flat)[k]
    modifies fs`disk, fs.freeMap.bits
    ensures Freed(inode, fs, d, k + 1, saved)
  {
    hide Bitmap.View, Released, Laid, InStep, MapLaid, Returned, Apart, Meta;
    FreeingFacts(inode, fs, d, k);
    ghost var xs := Returned(inode.ptr, inode.flat);
    ReturnedHeld(d.disk, d.used, inode.ptr, inode.flat, inode.inner);
    ReleaseNext(d.used, xs, k);
    ghost var u := fs.Used();
    assert SetRun(u, s, 1, false) == u[s := false];
    saved := *;
    fs.FreeMapRelease(s, 1, saved);
  }

  /** The loop of inode_deallocate over the direct pointers. */
  method DirectDealloc(inode: Inode, fs: FileSys, size0: nat, ghost d: Snap) returns (size: nat, saved: bool)
    requires Freeing(inode, fs, d, 0) && size0 > 0 && |inode.flat| == Capped(size0)
    modifies fs`disk, fs.freeMap.bits
    ensures var n := if size0 < 10 then size0 else 10;
            size == size0 - n && Freed(inode, fs, d, n, saved)
  {
    hide Freeing, Returned, Laid, Meta, FileSys.Saved;
    FreeingFacts(inode, fs, d, 0);
    ReturnedFacts(d.disk, d.used, inode.ptr, inode.flat, inode.inner);
    size, saved := size0, false;
    var index := 0;
    while index < FIRST_LEV_INDEX
      invariant 0 <= index <= 10 && size == size0 - index && size > 0
      invariant Freed(inode, fs, d, index, saved)
    {
      saved := ReleaseStep(inode, fs, inode.ptr[index], d, index);
      FreeingFacts(inode, fs, d, index + 1);
      index, size := index + 1, size - 1;
      if size == 0 {
        return;
      }
    }
  }

  /** first_level_dealloc */
  method FirstLevelDealloc(inode: Inode, fs: FileSys, size0: nat, ghost d: Snap) returns (size: nat, saved: bool)
    requires Freeing(inode, fs, d, 10) && size0 > 0 && |inode.flat| == Capped(10 + size0)
    modifies fs`disk, fs.freeMap.bits
    ensures var n := if size0 < 128 then size0 else 128;
            size == size0 - n && Freed(inode, fs, d, 10 + n, saved)
  {
    hide Freeing, Decode, Returned, Laid, FileSys.Saved;
    FreeingFacts(inode, fs, d, 10);
    MetaHead(inode.ptr, |inode.flat|, inode.inner);
    LookupSingle(d.disk, d.used, inode.ptr, inode.flat, inode.inner, 10);
    var block := Decode(fs.disk[inode.ptr[FIRST_LEV_INDEX]]);
    size, saved := size0, false;
    var index := 0;
    while index < INDEX_BLOCK_SIZE
      invariant 0 <= index <= 128 && size == size0 - index && size > 0
      invariant Freed(inode, fs, d, 10 + index, saved)
    {
      LookupSingle(d.disk, d.used, inode.ptr, inode.flat, inode.inner, 10 + index);
      ReturnedLow(inode.ptr, inode.flat, 10 + index);
      saved := ReleaseStep(inode, fs, block[index], d, 10 + index);
      FreeingFacts(inode, fs, d, 11 + index);
      index, size := index + 1, size - 1;
      if size == 0 {
        return;
      }
    }
  }

  lemma MetaHead(ptr: seq<Word>, n: nat, inner: seq<nat>)
    requires |ptr| == DIRECT_BLOCK_SIZE
    ensures n > FIRST_LEV_INDEX ==> ptr[FIRST_LEV_INDEX] in Meta(ptr, n, inner)
    ensures n > SINGLE_END ==> ptr[SECOND_LEV_INDEX] in Meta(ptr, n, inner)
    ensures n > SINGLE_END ==> forall j :: 0 <= j < |inner| ==> inner[j] in Meta(ptr, n, inner)
  {
    var m := Meta(ptr, n, inner);
    if n > FIRST_LEV_INDEX { assert m[0] == ptr[FIRST_LEV_INDEX]; }
    if n > SINGLE_END {
      assert m[1] == ptr[SECOND_LEV_INDEX];
      forall j | 0 <= j < |inner| ensures inner[j] in m {
        assert m[j+2] == inner[j];
      }
    }
  }

  lemma ReturnedLow(ptr: seq<Word>, flat: seq<nat>, i: nat)
    requires |ptr| == DIRECT_BLOCK_SIZE && i < |flat| && i < 138
    ensures i < |Returned(ptr, flat)| && Returned(ptr, flat)[i] == flat[i]
  {}

  lemma ReturnedAt(ptr: seq<Word>, flat: seq<nat>, i: nat)
    requires |ptr| == DIRECT_BLOCK_SIZE && 138 <= i < |flat|
    ensures var xs := Returned(ptr, flat); |xs| == |flat| + 2 && xs[i + 1] == flat[i]
  {}

  /** second_level_dealloc_deep: the data sectors of inner index block j. */
  method SecondLevelDeallocDeep(inode: Inode, fs: FileSys, size0: nat, j: nat, secondBlock: Block, ghost d: Snap)
      returns (size: nat, saved: bool)
    requires Freeing(inode, fs, d, 139 + 128 * j) && size0 > 0 && j < 128 && |inode.flat| == Capped(138 + 128 * j + size0)
    requires |inode.ptr| == 12 && inode.ptr[11] < |d.disk| && secondBlock == Decode(d.disk[inode.ptr[11]])
    modifies fs`disk, fs.freeMap.bits
    ensures var n := if size0 < 128 then size0 else 128;
            size == size0 - n && Freed(inode, fs, d, 139 + 128 * j + n, saved)
  {
    hide Freeing, Decode, Returned, Laid, Meta, FileSys.Saved;
    FreeingFacts(inode, fs, d, 139 + 128 * j);
    InnerInMeta(d.disk, d.used, inode.ptr, inode.flat, inode.inner, j);
    var firstBlock := Decode(fs.disk[secondBlock[j]]);
    size, saved := size0, false;
    var count := 0;
    while count < INDEX_BLOCK_SIZE
      invariant 0 <= count <= 128 && size == size0 - count && size > 0
      invariant Freed(inode, fs, d, 139 + 128 * j + count, saved)
    {
      ghost var i := 138 + 128 * j + count;
      LookupDouble(d.disk, d.used, inode.ptr, inode.flat, inode.inner, i);
      ReturnedAt(inode.ptr, inode.flat, i);
      saved := ReleaseStep(inode, fs, firstBlock[count], d, i + 1);
      FreeingFacts(inode, fs, d, i + 2);
      size, count := size - 1, count + 1;
      if size == 0 {
        return;
      }
    }
  }

  lemma InnerInMeta(disk: seq<Sector>, used: seq<bool>, ptr: seq<Word>, flat: seq<nat>, inner: seq<nat>, j: nat)
    requires Laid(disk, used, ptr, flat, inner) && 138 + 128 * j < |flat|
    ensures ptr[11] < |disk| && j < 128
    ensures var b := Decode(disk[ptr[11]])[j]; b < |disk| && b in Meta(ptr, |flat|, inner)
  {
    hide Decode, InnersOk, SingleOk;
    LookupDouble(disk, used, ptr, flat, inner, 138 + 128 * j);
    MetaHead(ptr, |flat|, inner);
    assert j < |inner|;
  }

  /** second_level_dealloc */
  method SecondLevelDealloc(inode: Inode, fs: FileSys, size0: nat, ghost d: Snap) returns (saved: bool)
    requires Freeing(inode, fs, d, 139) && size0 > 0 && |inode.flat| == Capped(138 + size0)
    modifies fs`disk, fs.freeMap.bits
    ensures Freed(inode, fs, d, |inode.flat| + 1, saved)
  {
    hide Freeing, Decode, Returned, Laid, FileSys.Saved;
    FreeingFacts(inode, fs, d, 139);
    LookupDouble(d.disk, d.used, inode.ptr, inode.flat, inode.inner, 138);
    MetaHead(inode.ptr, |inode.flat|, inode.inner);
    hide Meta;
    var secondBlock := Decode(fs.disk[inode.ptr[SECOND_LEV_INDEX]]);
    var size, index := size0, 0;
    saved := false;
    while index < INDEX_BLOCK_SIZE
      invariant 0 <= index <= 128 && size == size0 - 128 * index && size > 0
      invariant Freed(inode, fs, d, 139 + 128 * index, saved)
    {
      size, saved := SecondLevelDeallocDeep(inode, fs, size, index, secondBlock, d);
      index := index + 1;
      if size == 0 {
        return;
      }
      FreeingFacts(inode, fs, d, 139 + 128 * index);
    }
  }

  lemma ReturnedFacts(disk: seq<Sector>, used: seq<bool>, ptr: seq<Word>, flat: seq<nat>, inner: seq<nat>)
    requires Laid(disk, used, ptr, flat, inner)
    ensures var xs := Returned(ptr, flat);
            && |xs| == |flat| + (if |flat| > 10 then 1 else 0) + (if |flat| > 138 then 1 else 0)
            && (forall k :: 0 <= k < |flat| && k < 10 ==> xs[k] == ptr[k])
            && (|flat| > 10 ==> xs[if |flat| < 138 then |flat| else 138] == ptr[10])
            && (|flat| > 138 ==> xs[|flat| + 1] == ptr[11])
  {
    hide Decode, SingleOk, OuterOk, InnersOk, Separate, Meta;
  }

  /** inode_deallocate: gives back every data sector, the single-indirect block and
      the double-indirect block, each once, and nothing else, also for an inode that was
      created longer than it can address. It writes to the free map's file alone, which
      at the end holds the map if the last release could write it. */
  method Deallocate(inode: Inode, fs: FileSys) returns (saved: bool)
    requires FileIndexed(inode, fs) && Apart(inode.Own(fs)) && fs.mapFile != []
    modifies fs`disk, fs.freeMap.bits
    ensures fs.Valid() && fs.Used() == Released(old(fs.Used()), Returned(inode.ptr, inode.flat))
    ensures Rewritten(old(fs.disk), fs.disk, fs.mapFile)
    ensures saved ==> fs.Saved()
  {
    hide Freeing, Released, Returned, Meta, Laid, Apart, FileSys.Saved, Inode.Indexed, Inode.Own, OnDisk;
    BackingLength(inode, fs);
    FreeingStart(inode, fs);
    ghost var flat, d := inode.flat, inode.Own(fs);
    FreeingFacts(inode, fs, d, 0);
    ReturnedFacts(d.disk, d.used, inode.ptr, flat, inode.inner);
    var size := BytesToSectors(inode.length);
    saved := false;
    if size == 0 {
      FreeingEnd(inode, fs, d);
      return;
    }
    size, saved := DirectDealloc(inode, fs, size, d);
    if size == 0 {
      FreeingEnd(inode, fs, d);
      return;
    }
    size, saved := FirstLevelDealloc(inode, fs, size, d);
    saved := ReleaseStep(inode, fs, inode.ptr[FIRST_LEV_INDEX], d, if |flat| < 138 then |flat| else 138);
    if size == 0 {
      FreeingEnd(inode, fs, d);
      return;
    }
    saved := SecondLevelDealloc(inode, fs, size, d);
    saved := ReleaseStep(inode, fs, inode.ptr[SECOND_LEV_INDEX], d, |flat| + 1);
    FreeingEnd(inode, fs, d);
  }

  lemma FreeingStart(inode: Inode, fs: FileSys)
    requires FileIndexed(inode, fs) && Apart(inode.Own(fs)) && fs.mapFile != []
    ensures inode.Own(fs).disk == fs.disk && inode.Own(fs).used == fs.Used() && inode.Own(fs).mf == fs.mapFile
    ensures Freeing(inode, fs, inode.Own(fs), 0)
  {
    hide Bitmap.View, Released, CursorsFor, OnDisk, Apart, MapLaid;
    assert Returned(inode.ptr, inode.flat)[..0] == [];
    ReleasedNone(fs.Used());
  }

  lemma FreeingEnd(inode: Inode, fs: FileSys, d: Snap)
    requires |inode.ptr| == DIRECT_BLOCK_SIZE && Freeing(inode, fs, d, |Returned(inode.ptr, inode.flat)|)
    ensures fs.Valid() && fs.mapFile == d.mf && Rewritten(d.disk, fs.disk, d.mf)
    ensures fs.Used() == Released(d.used, Returned(inode.ptr, inode.flat))
  {
    hide Bitmap.View, Released, Returned, Apart, MapLaid, Laid, Meta;
    var xs := Returned(inode.ptr, inode.flat);
    assert xs[..|xs|] == xs;
  }

  lemma ReleasedNone(used: seq<bool>)
    ensures Released(used, []) == used
  {}

  // ---- Conservation --------------------------------------------------------

  lemma {:induction false} ReleasedCount(used: seq<bool>, xs: seq<nat>)
    requires Holds(used, xs)
    ensures FreeCount(Released(used, xs)) == FreeCount(used) + |xs|
  {
    if xs == [] {
      ReleasedNone(used);
    } else {
      var k := |xs| - 1;
      ReleasedCount(used, xs[..k]);
      ReleaseNext(used, xs, k);
      assert xs[..k+1] == xs;
      var u := Released(used, xs);
      MarkOne(u, xs[k]);
      assert u[xs[k] := true] == Released(used, xs[..k]);
    }
  }

  /** What deallocation gives back falls short of what the file owned by exactly the
      inner index blocks, which stay marked: none up to 138 sectors, and one for each
      128 data sectors, or part of them, after that. */
  lemma DeallocationLeaks(disk: seq<Sector>, used: seq<bool>, ptr: seq<Word>, flat: seq<nat>, inner: seq<nat>)
    requires Laid(disk, used, ptr, flat, inner)
    ensures var after := Released(used, Returned(ptr, flat));
            var a := Snap(disk, used, flat, Meta(ptr, |flat|, inner), []);
            && FreeCount(after) + InnerCount(|flat|) == Room(a)
            && (forall j :: 0 <= j < |inner| ==> inner[j] < |used| && after[inner[j]])
            && (forall s :: 0 <= s < |used| && used[s] && !after[s] ==> s in flat || s in Meta(ptr, |flat|, inner))
            && (FreeCount(after) == Room(a) <==> |flat| <= 138)
  {
    hide Decode, SingleOk, OuterOk, InnersOk, Returned, FreeCount, Separate;
    ReturnedHeld(disk, used, ptr, flat, inner);
    ReturnedFacts(disk, used, ptr, flat, inner);
    ReleasedCount(used, Returned(ptr, flat));
    MetaCountIs(ptr, |flat|, inner);
    LeakedBlocks(disk, used, ptr, flat, inner);
  }

  lemma LeakedBlocks(disk: seq<Sector>, used: seq<bool>, ptr: seq<Word>, flat: seq<nat>, inner: seq<nat>)
    requires Laid(disk, used, ptr, flat, inner)
    ensures forall j :: 0 <= j < |inner| ==> inner[j] < |used| && used[inner[j]] && inner[j] !in Returned(ptr, flat)
    ensures forall s :: s in Returned(ptr, flat) ==> s in flat || s in Meta(ptr, |flat|, inner)
  {
    hide Decode, SingleOk, OuterOk, InnersOk;
    var xs, m := Returned(ptr, flat), Meta(ptr, |flat|, inner);
    if |flat| > 10 { assert m[0] == ptr[10]; }
    if |flat| > 138 {
      assert m[1] == ptr[11];
      forall j | 0 <= j < |inner| ensures inner[j] < |used| && used[inner[j]] && inner[j] !in xs {
        assert m[j+2] == inner[j];
      }
    }
  }
}
