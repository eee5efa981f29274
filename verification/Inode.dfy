/**
  Inodes (filesys/inode.c): growth through the three levels of index blocks,
  reading, writing and deallocation.
 */
module Inodes {
  import opened Order
  import opened Bits
  import opened BitmapWords
  import opened InodeLayout
  import opened InodeGrowth
  import opened InodeBytes
  import opened MapFile
  import opened FileSystem

  /** The three cursor fields are the mixed-radix form of the number n of data
      sectors; first_level_index counts entries of the single-indirect block while
      direct_level_index is 10, and inner index blocks once it is 11. */
  ghost predicate CursorsFor(n: nat, direct: nat, first: nat, second: nat) {
    if n < FIRST_LEV_INDEX then direct == n && first == 0 && second == 0
    else if n < SINGLE_END then direct == FIRST_LEV_INDEX && first == n - FIRST_LEV_INDEX && second == 0
    else
      && direct == SECOND_LEV_INDEX
      && first == (n - SINGLE_END) / INDEX_BLOCK_SIZE
      && second == (n - SINGLE_END) % INDEX_BLOCK_SIZE
  }

  lemma CursorsDouble(n: nat, j: nat, k: nat)
    requires n == 138 + 128 * j + k && k < 128
    ensures CursorsFor(n, 11, j, k)
  {}

  lemma DoubleCursors(n: nat, direct: nat, j: nat, k: nat)
    requires n >= 138 && CursorsFor(n, direct, j, k)
    ensures n == 138 + 128 * j + k && k < 128 && direct == 11
  {}

  ghost function Capped(n: nat): (m: nat) { if n < CAPACITY then n else CAPACITY }

  /** The device has room for n data sectors, or as many as an inode can address,
      and the index sectors they need. */
  ghost predicate Fits(n: nat, a: Snap) {
    Capped(n) + MetaCount(Capped(n)) <= Room(a)
  }

  /** Room is all that growth can need: a file that has grown to n sectors found it. */
  lemma GrownFits(a: Snap, b: Snap, ptr: seq<Word>, inner: seq<nat>, n: nat)
    requires Grown(a, b) && Laid(b.disk, b.used, ptr, b.flat, inner) && b.meta == Meta(ptr, |b.flat|, inner)
    requires |b.flat| == Capped(n)
    ensures Fits(n, a)
  {
    hide InStep, Decode, FreeCount, MetaCount, Meta;
    MetaCountIs(ptr, |b.flat|, inner);
  }

  lemma FitsPart(n: nat, m: nat, a: Snap)
    requires n <= m && Fits(m, a)
    ensures Fits(n, a)
  {
    MetaCountMono(Capped(n), Capped(m));
  }

  class Inode {
    var length: int
    var ptr: seq<Word>
    var direct: nat
    var first: nat
    var second: nat
    var denyWriteCnt: int
    ghost var flat: seq<nat>
    ghost var inner: seq<nat>

    /** inode_allocate's scratch inode: no sectors yet, pointers uninitialised. */
    constructor (garbage: seq<Word>)
      requires |garbage| == DIRECT_BLOCK_SIZE
      ensures length == 0 && ptr == garbage && direct == first == second == 0 && denyWriteCnt == 0
      ensures flat == [] && inner == []
    {
      length, ptr, direct, first, second, denyWriteCnt := 0, garbage, 0, 0, 0, 0;
      flat, inner := [], [];
    }

    /** The inode's sectors on the device. */
    ghost function Own(fs: FileSys): (a: Snap)
      requires fs.Valid() && |ptr| == DIRECT_BLOCK_SIZE
      reads this, fs, fs.freeMap.bits
    {
      Snap(fs.disk, fs.Used(), flat, Meta(ptr, |flat|, inner), fs.mapFile)
    }

    ghost predicate Indexed(fs: FileSys)
      reads this, fs, fs.freeMap.bits
    {
      && fs.Valid()
      && Laid(fs.disk, fs.Used(), ptr, flat, inner)
      && CursorsFor(|flat|, direct, first, second)
    }

    /** Indexed, and grown from the device and inode that a describes. */
    ghost predicate Growing(fs: FileSys, a: Snap)
      reads this, fs, fs.freeMap.bits
    {
      && fs.Valid() && fs.mapFile == a.mf
      && LaidStage(a, fs.disk, fs.Used(), ptr, flat, inner)
      && CursorsFor(|flat|, direct, first, second)
    }

    /** The loop of inode_grow over the direct pointers. */
    method DirectAlloc(fs: FileSys, sectors: nat, ghost a: Snap) returns (left: nat)
      requires Growing(fs, a)
      requires Fits(|flat| + sectors, a)
      modifies this`ptr, this`direct, this`flat, fs`disk, fs.freeMap.bits
      ensures Growing(fs, a)
      ensures |flat| + left == |old(flat)| + sectors
      ensures left == 0 || |flat| >= FIRST_LEV_INDEX
      ensures |old(flat)| <= FIRST_LEV_INDEX ==> |flat| <= FIRST_LEV_INDEX
      ensures |old(flat)| >= FIRST_LEV_INDEX ==> flat == old(flat) && ptr == old(ptr)
    {
      hide LaidStage, MetaCount, Room, FreeCount, Bitmap.View, Zeros, InStep, MapLaid;
      ghost var total, target := |flat| + sectors, Capped(|flat| + sectors);
      left := sectors;
      LaidStageFacts(a, fs.disk, fs.Used(), ptr, flat, inner, target);
      var index := direct;
      while index < FIRST_LEV_INDEX && left != 0
        invariant fs.Valid() && LaidStage(a, fs.disk, fs.Used(), ptr, flat, inner)
        invariant |flat| + left == total
        invariant if index < FIRST_LEV_INDEX then |flat| == index else CursorsFor(|flat|, index, first, second)
        invariant if |old(flat)| < FIRST_LEV_INDEX then |flat| <= FIRST_LEV_INDEX else flat == old(flat) && ptr == old(ptr)
        invariant first == second == 0 || |flat| >= FIRST_LEV_INDEX
        decreases left
      {
        LaidStageFacts(a, fs.disk, fs.Used(), ptr, flat, inner, target);
        ghost var disk, used := fs.disk, fs.Used();
        var s, mid := fs.AllocateZeroed(ptr[index], true);
        DirectStageStep(a, disk, mid, used, ptr, flat, s);
        ptr := ptr[index := s];
        flat := flat + [s];
        index, left := index + 1, left - 1;
      }
      direct := index;
    }
  
    /** The loop of first_indir_alloc, from entry `from` of the block in memory. */
    method FillSingle(fs: FileSys, sectors: nat, from: nat, block0: Block, ghost a: Snap)
        returns (left: nat, index: nat, block: Block)
      requires fs.Valid() && fs.mapFile == a.mf && SingleStage(a, fs.disk, fs.Used(), ptr, flat, block0)
      requires |flat| == 10 + from && from < 128 && sectors > 0 && Fits(|flat| + sectors, a)
      modifies this`flat, fs`disk, fs.freeMap.bits
      ensures fs.Valid() && SingleStage(a, fs.disk, fs.Used(), ptr, flat, block)
      ensures |flat| == 10 + index && from < index <= 128 && index - from == sectors - left && left <= sectors
      ensures left == 0 || index == 128
    {
      hide SingleStage, MetaCount, Room, FreeCount, Bitmap.View, Zeros, InStep, MapLaid;
      ghost var target := Capped(|flat| + sectors);
      left, index, block := sectors, from, block0;
      while index < INDEX_BLOCK_SIZE && left != 0
        invariant fs.Valid() && SingleStage(a, fs.disk, fs.Used(), ptr, flat, block)
        invariant |flat| == 10 + index && from <= index <= 128 && index - from == sectors - left
        decreases left
      {
        SingleStageFacts(a, fs.disk, fs.Used(), ptr, flat, block, target);
        ghost var disk, used := fs.disk, fs.Used();
        var s, mid := fs.AllocateZeroed(block[index], true);
        SingleStageStep(a, disk, mid, used, ptr, flat, block, s);
        block := block[index := s];
        flat := flat + [s];
        index, left := index + 1, left - 1;
      }
    }

    /** The single-indirect block that first_indir_alloc fills: a new one, or the one
        that is not full yet. */
    method SingleBlock(fs: FileSys, ghost a: Snap) returns (block: Block)
      requires Growing(fs, a) && FIRST_LEV_INDEX <= |flat| < SINGLE_END && Fits(|flat| + 1, a)
      modifies this`ptr, fs`disk, fs.freeMap.bits
      ensures fs.Valid() && SingleStage(a, fs.disk, fs.Used(), ptr, flat, block)
    {
      hide LaidStage, SingleStage, MetaCount, Room, FreeCount, Decode, Bitmap.View, InStep, MapLaid;
      LaidStageFacts(a, fs.disk, fs.Used(), ptr, flat, inner, Capped(|flat| + 1));
      ghost var disk, used := fs.disk, fs.Used();
      block := *;
      if first == 0 {
        var s := fs.AllocateOne(ptr[FIRST_LEV_INDEX], true);
        SingleStageNew(a, disk, fs.disk, used, ptr, flat, s, block);
        ptr := ptr[FIRST_LEV_INDEX := s];
      } else {
        SingleStageOld(a, disk, used, ptr, flat);
        block := Decode(fs.disk[ptr[FIRST_LEV_INDEX]]);
      }
    }

    /** first_indir_alloc */
    method FirstIndirAlloc(fs: FileSys, sectors: nat, ghost a: Snap) returns (left: nat)
      requires Growing(fs, a) && sectors > 0
      requires FIRST_LEV_INDEX <= |flat| < SINGLE_END
      requires Fits(|flat| + sectors, a)
      modifies this`ptr, this`direct, this`first, this`flat, fs`disk, fs.freeMap.bits
      ensures Growing(fs, a)
      ensures |flat| + left == |old(flat)| + sectors
      ensures if left == 0 then |flat| <= SINGLE_END else |flat| == SINGLE_END
    {
      hide LaidStage, SingleStage, Encode, Bitmap.View, InStep, MapLaid, Fits;
      LaidStageFacts(a, fs.disk, fs.Used(), ptr, flat, inner, 0);
      FitsPart(|flat| + 1, |flat| + sectors, a);
      var block := SingleBlock(fs, a);
      var index;
      left, index, block := FillSingle(fs, sectors, first, block, a);
      first := index;
      SingleStageFacts(a, fs.disk, fs.Used(), ptr, flat, block, 0);
      SingleStageFinish(a, fs.disk, fs.Used(), ptr, flat, block);
      fs.BlockWrite(ptr[FIRST_LEV_INDEX], Encode(block));
      if first == INDEX_BLOCK_SIZE {
        first := 0;
        direct := direct + 1;
        CursorsDouble(|flat|, 0, 0);
      }
    }

    /** The loop of second_indir_alloc_deep over the last inner index block. */
    method FillInner(fs: FileSys, sectors: nat, from: nat, outer: Block, block0: Block, ghost a: Snap)
        returns (left: nat, index: nat, block: Block)
      requires fs.Valid() && fs.mapFile == a.mf && InnerStage(a, fs.disk, fs.Used(), ptr, flat, inner, outer, block0)
      requires |flat| == 138 + 128 * (|inner| - 1) + from && from < 128 && sectors > 0 && Fits(|flat| + sectors, a)
      modifies this`flat, fs`disk, fs.freeMap.bits
      ensures fs.Valid() && InnerStage(a, fs.disk, fs.Used(), ptr, flat, inner, outer, block)
      ensures |flat| == 138 + 128 * (|inner| - 1) + index && from < index <= 128
      ensures index - from == sectors - left && left < sectors
      ensures left == 0 || index == 128
    {
      hide InnerStage, MetaCount, Room, FreeCount, Bitmap.View, Zeros, InStep, MapLaid;
      ghost var target := Capped(|flat| + sectors);
      left, index, block := sectors, from, block0;
      while index < INDEX_BLOCK_SIZE && left != 0
        invariant fs.Valid() && InnerStage(a, fs.disk, fs.Used(), ptr, flat, inner, outer, block)
        invariant |flat| == 138 + 128 * (|inner| - 1) + index && from <= index <= 128
        invariant index - from == sectors - left
        decreases left
      {
        InnerStageFacts(a, fs.disk, fs.Used(), ptr, flat, inner, outer, block, target);
        ghost var disk, used := fs.disk, fs.Used();
        var s, mid := fs.AllocateZeroed(block[index], true);
        InnerStageStep(a, disk, mid, used, ptr, flat, inner, outer, block, index, s);
        block := block[index := s];
        flat := flat + [s];
        index, left := index + 1, left - 1;
      }
    }

    /** The inner index block that second_indir_alloc_deep fills: a new one, or the one
        that is not full yet. `outer` is the double-indirect block in memory. */
    method InnerBlock(fs: FileSys, outer: Block, ghost a: Snap) returns (outer': Block, block: Block)
      requires fs.Valid() && fs.mapFile == a.mf && DoubleStage(a, fs.disk, fs.Used(), ptr, flat, inner, outer)
      requires |flat| == 138 + 128 * first + second && second < 128 && first < 128
      requires Fits(|flat| + 1, a)
      modifies this`inner, fs`disk, fs.freeMap.bits
      ensures fs.Valid() && InnerStage(a, fs.disk, fs.Used(), ptr, flat, inner, outer', block)
      ensures |inner| == first + 1
    {
      hide DoubleStage, InnerStage, MetaCount, Room, FreeCount, Decode, Bitmap.View, InStep, MapLaid;
      DoubleStageFacts(a, fs.disk, fs.Used(), ptr, flat, inner, outer, Capped(|flat| + 1));
      ghost var disk, used := fs.disk, fs.Used();
      outer' := outer;
      block := *;
      if second == 0 {
        var s := fs.AllocateOne(outer[first], true);
        InnerStageNew(a, disk, fs.disk, used, ptr, flat, inner, outer, s, block);
        outer' := outer[first := s];
        inner := inner + [s];
      } else {
        InnerStageOld(a, disk, used, ptr, flat, inner, outer);
        block := Decode(fs.disk[outer[first]]);
      }
    }

    /** second_indir_alloc_deep */
    method SecondIndirAllocDeep(fs: FileSys, sectors: nat, outer: Block, ghost a: Snap) returns (left: nat, outer': Block)
      requires fs.Valid() && fs.mapFile == a.mf && DoubleStage(a, fs.disk, fs.Used(), ptr, flat, inner, outer)
      requires CursorsFor(|flat|, direct, first, second) && SINGLE_END <= |flat|
      requires sectors > 0 && first < INDEX_BLOCK_SIZE && Fits(|flat| + sectors, a)
      modifies this`first, this`second, this`flat, this`inner, fs`disk, fs.freeMap.bits
      ensures fs.Valid() && DoubleStage(a, fs.disk, fs.Used(), ptr, flat, inner, outer')
      ensures CursorsFor(|flat|, direct, first, second)
      ensures |flat| + left == |old(flat)| + sectors && left < sectors
      ensures left == 0 || first == old(first) + 1
    {
      hide DoubleStage, InnerStage, Encode, Bitmap.View, InStep, MapLaid, Fits;
      DoubleCursors(|flat|, direct, first, second);
      hide CursorsFor;
      FitsPart(|flat| + 1, |flat| + sectors, a);
      var block;
      outer', block := InnerBlock(fs, outer, a);
      var index;
      left, index, block := FillInner(fs, sectors, second, outer', block, a);
      second := index;
      InnerStageFacts(a, fs.disk, fs.Used(), ptr, flat, inner, outer', block, 0);
      InnerStageFinish(a, fs.disk, fs.Used(), ptr, flat, inner, outer', block);
      fs.BlockWrite(outer'[first], Encode(block));
      if second == INDEX_BLOCK_SIZE {
        first := first + 1;
        second := 0;
      }
      CursorsDouble(|flat|, first, second);
    }

    /** second_indir_alloc */
    method SecondIndirAlloc(fs: FileSys, sectors: nat, ghost a: Snap) returns (left: nat)
      requires Growing(fs, a) && sectors > 0
      requires SINGLE_END <= |flat| && Fits(|flat| + sectors, a)
      modifies this`ptr, this`first, this`second, this`flat, this`inner, fs`disk, fs.freeMap.bits
      ensures Growing(fs, a)
      ensures |flat| + left == |old(flat)| + sectors
      ensures |flat| == Capped(|old(flat)| + sectors)
    {
      hide LaidStage, DoubleStage, MetaCount, Room, FreeCount, Decode, Encode, Bitmap.View, InStep, MapLaid;
      LaidStageFacts(a, fs.disk, fs.Used(), ptr, flat, inner, Capped(|flat| + sectors));
      DoubleCursors(|flat|, direct, first, second);
      ghost var disk, used := fs.disk, fs.Used();
      var outer: Block := *;
      left := sectors;
      if first == 0 && second == 0 {
        var s := fs.AllocateOne(ptr[SECOND_LEV_INDEX], true);
        DoubleStageNew(a, disk, fs.disk, used, ptr, flat, s, outer);
        ptr := ptr[SECOND_LEV_INDEX := s];
      } else {
        DoubleStageOld(a, disk, used, ptr, flat, inner);
        outer := Decode(fs.disk[ptr[SECOND_LEV_INDEX]]);
      }
      while first < INDEX_BLOCK_SIZE
        invariant fs.Valid() && DoubleStage(a, fs.disk, fs.Used(), ptr, flat, inner, outer)
        invariant CursorsFor(|flat|, direct, first, second) && SINGLE_END <= |flat|
        invariant |flat| + left == |old(flat)| + sectors && left > 0
        decreases 128 - first
      {
        left, outer := SecondIndirAllocDeep(fs, left, outer, a);
        if left == 0 {
          break;
        }
      }
      DoubleStageFacts(a, fs.disk, fs.Used(), ptr, flat, inner, outer, 0);
      DoubleCursors(|flat|, direct, first, second);
      DoubleStageFinish(a, fs.disk, fs.Used(), ptr, flat, inner, outer);
      fs.BlockWrite(ptr[SECOND_LEV_INDEX], Encode(outer));
    }

    /** inode_grow. Past 16522 sectors the returned length falls short of the one
        asked for by whole sectors. */
    method Grow(fs: FileSys, diskLength: nat) returns (r: int)
      requires Indexed(fs) && Apart(Own(fs)) && 0 <= length && |flat| == BytesToSectors(length)
      requires length <= diskLength && Fits(BytesToSectors(diskLength), Own(fs))
      modifies this`ptr, this`direct, this`first, this`second, this`flat, this`inner, fs`disk, fs.freeMap.bits
      ensures Indexed(fs) && Grown(old(Own(fs)), Own(fs))
      ensures |flat| == Capped(BytesToSectors(diskLength))
      ensures r == diskLength - 512 * (BytesToSectors(diskLength) - |flat|)
    {
      ghost var a := Own(fs);
      GrownRefl(a);
      assert LaidStage(a, fs.disk, fs.Used(), ptr, flat, inner);
      hide Laid, Grown, MetaCount, Room, FreeCount, Bitmap.View, Meta;
      BytesToSectorsMono(length, diskLength);
      var sectors: nat := BytesToSectors(diskLength) - BytesToSectors(length);
      if sectors == 0 {
        return diskLength;
      }
      sectors := Extend(fs, sectors, a);
      return diskLength - sectors * SECTOR_SIZE;
    }

    /** The three levels of inode_grow in turn; returns the sectors left over. */
    method Extend(fs: FileSys, sectors: nat, ghost a: Snap) returns (left: nat)
      requires Growing(fs, a) && sectors > 0 && Fits(|flat| + sectors, a)
      modifies this`ptr, this`direct, this`first, this`second, this`flat, this`inner, fs`disk, fs.freeMap.bits
      ensures Growing(fs, a)
      ensures |flat| == Capped(|old(flat)| + sectors) && |flat| + left == |old(flat)| + sectors
    {
      hide LaidStage, MetaCount, Room, FreeCount, Bitmap.View, InStep, MapLaid;
      LaidStageFacts(a, fs.disk, fs.Used(), ptr, flat, inner, 0);
      left := DirectAlloc(fs, sectors, a);
      if left == 0 {
        return;
      }
      if direct == FIRST_LEV_INDEX {
        left := FirstIndirAlloc(fs, left, a);
        if left == 0 {
          return;
        }
      }
      if direct == SECOND_LEV_INDEX {
        left := SecondIndirAlloc(fs, left, a);
      }
    }
  }

  /** Exactly when inode_grow returns the length it was asked for, what it returns
      otherwise, and exactly when that is below the inode's old length: the file then
      loses its end. */
  lemma GrowResult(length: nat, diskLength: nat, r: int)
    requires length <= diskLength && BytesToSectors(length) <= CAPACITY
    requires r == diskLength - 512 * (BytesToSectors(diskLength) - Capped(BytesToSectors(diskLength)))
    ensures r == diskLength <==> diskLength <= 512 * CAPACITY
    ensures diskLength > 512 * CAPACITY ==> r == 512 * (CAPACITY - 1) + (diskLength - 1) % 512 + 1
    ensures BytesToSectors(r) == Capped(BytesToSectors(diskLength))
    ensures r < length <==> diskLength > 512 * CAPACITY && 512 * (CAPACITY - 1) + (diskLength - 1) % 512 + 1 < length
  {}
}
