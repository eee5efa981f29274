/**
  Reading and writing through an inode (filesys/inode.c): the file is one flat
  byte string.
 */
module InodeIO {
  import opened Order
  import opened Bits
  import opened BitmapWords
  import opened InodeLayout
  import opened InodeGrowth
  import opened InodeBytes
  import opened MapFile
  import opened BitmapBytes
  import opened FileSystem
  import opened Inodes

  /** How many bytes the sectors of a file of n bytes hold. */
  ghost function Span(n: nat): (k: nat) {
    512 * Capped(BytesToSectors(n))
  }

  /** How many of its n bytes have a sector: all, but for an inode that was created
      longer than it can address. */
  ghost function Reach(n: nat): (k: nat)
    ensures k <= Span(n) && (k == n <==> n <= 512 * CAPACITY)
  {
    if n <= 512 * CAPACITY then n else 512 * CAPACITY
  }

  /** The index is sound and there is a sector for every byte, as far as an inode can
      address them. */
  ghost predicate FileIndexed(inode: Inode, fs: FileSys)
    reads inode, fs, fs.freeMap.bits
  {
    && inode.Indexed(fs)
    && 0 <= inode.length && |inode.flat| == Capped(BytesToSectors(inode.length))
    && OnDisk(fs.disk, inode.flat)
  }

  /** Everything that the data sectors hold, which past the end of the file is not
      part of it. */
  ghost function Backing(inode: Inode, fs: FileSys): (s: seq<Byte>)
    requires FileIndexed(inode, fs)
    reads inode, fs, fs.freeMap.bits
  {
    Contents(fs.disk, inode.flat, 512 * |inode.flat|)
  }

  /** The bytes of the file. */
  ghost function FileBytes(inode: Inode, fs: FileSys): (s: seq<Byte>)
    requires FileIndexed(inode, fs)
    reads inode, fs, fs.freeMap.bits
    ensures s == Backing(inode, fs)[..Reach(inode.length)]
  {
    Contents(fs.disk, inode.flat, Reach(inode.length))
  }

  /** byte_to_sector: entry pos / 512 of the flat sector sequence, or -1. It returns
      nothing for a byte of the file that an inode cannot address. */
  method ByteToSector(inode: Inode, fs: FileSys, pos0: nat) returns (s: int)
    requires FileIndexed(inode, fs) && (pos0 < Reach(inode.length) || inode.length <= pos0)
    ensures pos0 < inode.length ==> pos0 / 512 < |inode.flat|
    ensures s == if pos0 < inode.length then inode.flat[pos0 / 512] else -1
  {
    hide Decode, Bitmap.View;
    if pos0 >= inode.length {
      return -1;
    }
    var pos := pos0 / SECTOR_SIZE;
    ghost var i := pos;
    if pos < FIRST_LEV_INDEX {
      return inode.ptr[pos];
    }
    pos := pos - FIRST_LEV_INDEX;
    if pos < INDEX_BLOCK_SIZE {
      LookupSingle(fs.disk, fs.Used(), inode.ptr, inode.flat, inode.inner, i);
      var block := Decode(fs.disk[inode.ptr[FIRST_LEV_INDEX]]);
      return block[pos];
    }
    pos := pos - INDEX_BLOCK_SIZE;
    LookupDouble(fs.disk, fs.Used(), inode.ptr, inode.flat, inode.inner, i);
    var off := pos % INDEX_BLOCK_SIZE;
    pos := pos / INDEX_BLOCK_SIZE;
    var secondBlock := Decode(fs.disk[inode.ptr[SECOND_LEV_INDEX]]);
    var block := Decode(fs.disk[secondBlock[pos]]);
    return block[off];
  }

  /** The bytes of one chunk, as they stand on disk. */
  lemma ChunkBytes(disk: seq<Sector>, flat: seq<nat>, n: nat, at: nat, k: nat)
    requires OnDisk(disk, flat) && n <= 512 * |flat| && at + k <= n && at % 512 + k <= 512 && at < n
    ensures disk[flat[at / 512]][at % 512..at % 512 + k] == Contents(disk, flat, n)[at..at + k]
  {
    var x, y := disk[flat[at / 512]][at % 512..at % 512 + k], Contents(disk, flat, n)[at..at + k];
    forall q | 0 <= q < k ensures x[q] == y[q] {
      SameSector(at, at + q, k);
    }
  }

  /** The buffer holds the bytes of the file from offset `at` on. */
  ghost predicate SliceAt(file: seq<Byte>, at: nat, buffer: seq<Byte>) {
    buffer == [] || (at + |buffer| <= |file| && buffer == file[at..at + |buffer|])
  }

  /** Reading the next bytes from the sector that they are in. */
  lemma ReadNext(disk: seq<Sector>, flat: seq<nat>, n: nat, at: nat, buffer: seq<Byte>, p: nat, k: nat)
    requires OnDisk(disk, flat) && n <= 512 * |flat| && SliceAt(Contents(disk, flat, n), at, buffer) && k > 0
    requires p == at + |buffer| && p + k <= n && p % 512 + k <= 512
    ensures p / 512 < |flat| && flat[p / 512] < |disk|
    ensures SliceAt(Contents(disk, flat, n), at, buffer + disk[flat[p / 512]][p % 512..p % 512 + k])
  {
    hide ByteAt;
    var file := Contents(disk, flat, n);
    ChunkBytes(disk, flat, n, p, k);
    assert file[at..p] + file[p..p + k] == file[at..p + k];
  }

  /** How many bytes of the current sector a read or write moves. */
  function ChunkSize(size: nat, offset: nat, length: int): (k: int)
    ensures k > 0 ==> offset % 512 + k <= 512 && offset + k <= length && k <= size
    ensures k <= 0 <==> size == 0 || length <= offset
  {
    var sectorOfs := offset % SECTOR_SIZE;
    var inodeLeft := length - offset;
    var sectorLeft := SECTOR_SIZE - sectorOfs;
    var minLeft := if inodeLeft < sectorLeft then inodeLeft else sectorLeft;
    if size < minLeft then size else minLeft
  }

  /** How many of size bytes at offset are moved to or from a file of n bytes: those
      below n; without memory for a bounce buffer, only the whole sectors of them. */
  function Moved(size: nat, offset: nat, n: nat, memory: bool): (k: nat)
    ensures k <= size && (k == 0 || offset + k <= n)
  {
    var k := if n <= offset then 0 else if n - offset < size then n - offset else size;
    if memory then k else if offset % SECTOR_SIZE != 0 then 0 else k - k % SECTOR_SIZE
  }

  /** A transfer that has moved `done` bytes so far. */
  ghost predicate Moving(done: nat, size: nat, offset: nat, n: nat, memory: bool) {
    && done <= size && (done == 0 || offset + done <= n)
    && (memory || (done % 512 == 0 && (done == 0 || offset % 512 == 0)))
  }

  lemma MovingNone(size: nat, offset: nat, n: nat, memory: bool)
    ensures Moving(0, size, offset, n, memory)
  {}

  lemma MovingStep(done: nat, size: nat, offset: nat, n: nat, memory: bool)
    requires Moving(done, size, offset, n, memory)
    ensures var k := ChunkSize(size - done, offset + done, n);
            if k > 0 && (((offset + done) % 512 == 0 && k == 512) || memory) then Moving(done + k, size, offset, n, memory)
            else done == Moved(size, offset, n, memory)
  {
    var k := ChunkSize(size - done, offset + done, n);
    if !memory && k > 0 && !((offset + done) % 512 == 0 && k == 512) {
      MovingStops(done, size, offset, n);
    }
  }

  lemma MovingStops(done: nat, size: nat, offset: nat, n: nat)
    requires Moving(done, size, offset, n, false) && done < size && offset + done < n
    requires (offset + done) % 512 != 0 || size - done < 512 || n - offset - done < 512
    ensures done == Moved(size, offset, n, false)
  {}

  /** An over-long file is read and written only where its inode can address it. */
  ghost predicate InReach(size: nat, offset: nat, n: nat) {
    n <= 512 * CAPACITY || offset + size <= 512 * CAPACITY
  }

  lemma MovedReach(size: nat, offset: nat, n: nat, memory: bool)
    requires InReach(size, offset, n)
    ensures Moved(size, offset, n, memory) == Moved(size, offset, Reach(n), memory)
  {}

  lemma ReachNext(done: nat, size: nat, offset: nat, n: nat)
    requires InReach(size, offset, n) && done < size
    ensures var at := offset + done;
            var k := ChunkSize(size - done, at, n);
            && (at < Reach(n) || n <= at)
            && (k > 0 ==> at < n && at % 512 + k <= 512 && at + k <= Reach(n) && done + k <= size)
  {}

  /** inode_read_at: the clipped slice. `memory` says whether the bounce buffer can
      be allocated; if not, reading stops at the first partial sector. */
  method ReadAt(inode: Inode, fs: FileSys, size: nat, offset0: nat, memory: bool) returns (buffer: seq<Byte>)
    requires FileIndexed(inode, fs) && InReach(size, offset0, inode.length)
    ensures var k := Moved(size, offset0, Reach(inode.length), memory);
            buffer == if k == 0 then [] else FileBytes(inode, fs)[offset0..offset0 + k]
  {
    hide FileIndexed, FileBytes, Contents, ChunkSize, Moved, Moving, Reach, SliceAt, OnDisk;
    FileFacts(inode, fs);
    var offset := offset0;
    ghost var file := FileBytes(inode, fs);
    SliceNone(file, offset0);
    MovedReach(size, offset0, inode.length, memory);
    MovingNone(size, offset0, inode.length, memory);
    buffer := [];
    while |buffer| < size
      invariant Moving(|buffer|, size, offset0, inode.length, memory) && |buffer| <= size && offset == offset0 + |buffer|
      invariant SliceAt(file, offset0, buffer)
    {
      ReachNext(|buffer|, size, offset0, inode.length);
      var sectorIdx := ByteToSector(inode, fs, offset);
      var sectorOfs, chunk := offset % SECTOR_SIZE, ChunkSize(size - |buffer|, offset, inode.length);
      MovingStep(|buffer|, size, offset0, inode.length, memory);
      if chunk <= 0 {
        break;
      }
      if !(sectorOfs == 0 && chunk == SECTOR_SIZE) && !memory {
        break;
      }
      ReadNext(fs.disk, inode.flat, Reach(inode.length), offset0, buffer, offset, chunk);
      buffer := buffer + fs.disk[sectorIdx][sectorOfs..sectorOfs + chunk];
      offset := offset + chunk;
    }
    MovingStep(|buffer|, size, offset0, inode.length, memory);
    SliceIs(file, offset0, buffer);
  }

  lemma FileFacts(inode: Inode, fs: FileSys)
    requires FileIndexed(inode, fs)
    ensures 0 <= inode.length && OnDisk(fs.disk, inode.flat) && Reach(inode.length) <= 512 * |inode.flat|
    ensures FileBytes(inode, fs) == Contents(fs.disk, inode.flat, Reach(inode.length))
  {
    hide Laid, CursorsFor, Bitmap.View, MapLaid;
  }

  lemma SliceNone(file: seq<Byte>, at: nat)
    ensures SliceAt(file, at, [])
  {}

  lemma SliceIs(file: seq<Byte>, at: nat, buffer: seq<Byte>)
    requires SliceAt(file, at, buffer)
    ensures |buffer| == 0 || (at + |buffer| <= |file| && buffer == file[at..at + |buffer|])
  {}

  /** The loop of inode_write_at. A whole sector is written straight from the buffer; a
      part is merged with what is there. */
  method WriteLoop(inode: Inode, fs: FileSys, buffer: seq<Byte>, offset0: nat, memory: bool) returns (written: nat)
    requires FileIndexed(inode, fs) && InReach(|buffer|, offset0, inode.length)
    modifies fs`disk
    ensures FileIndexed(inode, fs) && written == Moved(|buffer|, offset0, Reach(inode.length), memory)
    ensures Patched(old(fs.disk), fs.disk, inode.flat, offset0, buffer[..written])
  {
    hide Laid, Bitmap.View, CursorsFor, ChunkSize, Patched, Distinct, PutChunk, Moved, Moving, MapLaid, BytesToSectors, Capped, Reach;
    ghost var disk0, flat := fs.disk, inode.flat;
    LaidOnDisk(disk0, fs.Used(), inode.ptr, flat, inode.inner);
    MovedReach(|buffer|, offset0, inode.length, memory);
    MovingNone(|buffer|, offset0, inode.length, memory);
    var offset := offset0;
    written := 0;
    PatchedNone(disk0, flat, offset0);
    assert buffer[..0] == [];
    while written < |buffer|
      invariant Moving(written, |buffer|, offset0, inode.length, memory) && written <= |buffer| && offset == offset0 + written
      invariant FileIndexed(inode, fs)
      invariant Patched(disk0, fs.disk, flat, offset0, buffer[..written])
    {
      ReachNext(written, |buffer|, offset0, inode.length);
      var sectorIdx := ByteToSector(inode, fs, offset);
      var sectorOfs, chunk := offset % SECTOR_SIZE, ChunkSize(|buffer| - written, offset, inode.length);
      MovingStep(written, |buffer|, offset0, inode.length, memory);
      if chunk <= 0 {
        break;
      }
      if !(sectorOfs == 0 && chunk == SECTOR_SIZE) && !memory {
        break;
      }
      var v := PutChunk(fs.disk[sectorIdx], sectorOfs, buffer[written..written + chunk]);
      NextChunk(disk0, fs.disk, flat, offset0, buffer, written, offset, chunk);
      LaidDataWrite(fs.disk, fs.Used(), inode.ptr, flat, inode.inner, offset / 512, v);
      fs.BlockWrite(sectorIdx, v);
      offset, written := offset + chunk, written + chunk;
    }
    MovingStep(written, |buffer|, offset0, inode.length, memory);
  }

  method WriteChunks(inode: Inode, fs: FileSys, buffer: seq<Byte>, offset0: nat, memory: bool) returns (written: nat)
    requires FileIndexed(inode, fs) && Apart(inode.Own(fs)) && InReach(|buffer|, offset0, inode.length)
    modifies fs`disk
    ensures FileIndexed(inode, fs) && written == Moved(|buffer|, offset0, Reach(inode.length), memory)
    ensures Backing(inode, fs) == Overwritten(old(Backing(inode, fs)), offset0, buffer[..written])
    ensures Untouched(old(inode.Own(fs)), inode.Own(fs)) && Room(inode.Own(fs)) == old(Room(inode.Own(fs)))
  {
    ghost var a := inode.Own(fs);
    hide Laid, Bitmap.View, CursorsFor, Patched, Untouched, Room, Meta, Overwritten, Contents, Moved, Apart, MapLaid;
    written := WriteLoop(inode, fs, buffer, offset0, memory);
    PatchedContents(a.disk, fs.disk, a.flat, offset0, buffer[..written]);
    PatchedUntouched(a, fs.disk, offset0, buffer[..written]);
    assert inode.Own(fs) == a.(disk := fs.disk);
  }

  lemma PatchedUntouched(a: Snap, disk: seq<Sector>, at: nat, d: seq<Byte>)
    requires |a.used| == |a.disk| && Apart(a) && Patched(a.disk, disk, a.flat, at, d)
    ensures Untouched(a, a.(disk := disk)) && Room(a) == Room(a.(disk := disk))
  {}

  /** The length that inode_write_at gives a file of `length` bytes when it writes up to
      `end`. Past the capacity of an inode it is short of `end` by whole sectors. */
  function LengthAfter(length: nat, end: nat): (n: nat)
    ensures end <= 512 * CAPACITY ==> n == if end > length then end else length
  {
    if end <= length then length
    else if end <= 512 * CAPACITY then end
    else 512 * (CAPACITY - 1) + (end - 1) % 512 + 1
  }

  /** inode_write_at on a device with room: the data sectors are padded with zero
      sectors up to the new length and then overwritten. */
  method WriteAt(inode: Inode, fs: FileSys, buffer: seq<Byte>, offset: nat, memory: bool) returns (written: nat)
    requires FileIndexed(inode, fs) && Apart(inode.Own(fs)) && InReach(|buffer|, offset, inode.length)
    requires Fits(BytesToSectors(offset + |buffer|), inode.Own(fs))
    modifies inode`length, inode`ptr, inode`direct, inode`first, inode`second, inode`flat, inode`inner
    modifies fs`disk, fs.freeMap.bits
    ensures FileIndexed(inode, fs)
    ensures inode.denyWriteCnt != 0 ==>
              written == 0 && inode.length == old(inode.length) && Backing(inode, fs) == old(Backing(inode, fs))
    ensures inode.denyWriteCnt == 0 ==>
              var n := LengthAfter(old(inode.length), offset + |buffer|);
              && inode.length == n && written == Moved(|buffer|, offset, Reach(n), memory)
              && Backing(inode, fs) == Stored(old(Backing(inode, fs)), n, offset, buffer[..written])
    ensures Untouched(old(inode.Own(fs)), inode.Own(fs)) && Apart(inode.Own(fs))
    ensures Room(inode.Own(fs)) == old(Room(inode.Own(fs)))
    ensures old(fs.Saved()) ==> fs.Saved()
  {
    hide FileIndexed, Backing, Fits, Room, Extended, Overwritten, Untouched, Bitmap.View, BytesToSectors, Inode.Own;
    hide Apart, InStep, Moved, Span, Reach, FileSys.Saved;
    BackingLength(inode, fs);
    ghost var a := inode.Own(fs);
    OwnUntouched(inode, fs);
    OwnSaved(inode, fs);
    ExtendedWhole(Backing(inode, fs));
    written := 0;
    if inode.denyWriteCnt != 0 {
      return;
    }
    if offset + |buffer| > inode.length {
      GrowFor(inode, fs, offset + |buffer|);
      BackingLength(inode, fs);
    }
    ghost var b := inode.Own(fs);
    UntouchedApart(a, b);
    written := WriteChunks(inode, fs, buffer, offset, memory);
    BackingLength(inode, fs);
    UntouchedTrans(a, b, inode.Own(fs));
    UntouchedApart(a, inode.Own(fs));
    OwnSaved(inode, fs);
  }

  lemma OwnUntouched(inode: Inode, fs: FileSys)
    requires FileIndexed(inode, fs)
    ensures |inode.ptr| == DIRECT_BLOCK_SIZE && Untouched(inode.Own(fs), inode.Own(fs))
  {
    hide CursorsFor, Bitmap.View, Meta;
    UntouchedRefl(inode.Own(fs));
  }

  lemma OwnSaved(inode: Inode, fs: FileSys)
    requires FileIndexed(inode, fs)
    ensures var a := inode.Own(fs); fs.Saved() <==> InStep(a.disk, a.used, a.mf)
  {
    hide CursorsFor, Bitmap.View, Meta, InStep;
  }

  /** The data sectors of a file of n bytes that had b in its sectors, after d is
      written at `at`. */
  ghost function Stored(b: seq<Byte>, n: nat, at: nat, d: seq<Byte>): (r: seq<Byte>)
    requires at + |d| <= Span(n) || d == []
    ensures |r| == Span(n)
  {
    Overwritten(Extended(b, Span(n)), at, d)
  }

  /** Exactly when a write that leaves n bytes acts on the file as on a flat byte
      string, padded with zeros (or cut) and then overwritten: when the bytes that its
      sectors hold behind the old end l and below n are zero or overwritten. And
      exactly when nothing but zeros is behind the new end. */
  lemma FlatWrite(b: seq<Byte>, l: nat, n: nat, at: nat, d: seq<Byte>)
    requires l <= |b| && (at + |d| <= n || d == []) && n <= Span(n)
    ensures Stored(b, n, at, d)[..n] == Overwritten(Extended(b[..l], n), at, d) <==>
            forall p :: l <= p < |b| && p < n && !(at <= p < at + |d|) ==> b[p] == 0
    ensures |b| <= Span(n) ==>
            (ZerosFrom(Stored(b, n, at, d), n) <==> ZerosFrom(b, n))
  {
    var r, t := Stored(b, n, at, d), Overwritten(Extended(b[..l], n), at, d);
    StoredAt(b, n, at, d);
    FlatAt(b, l, n, at, d);
    hide Stored, Overwritten, Extended;
    if r[..n] == t {
      forall p | l <= p < |b| && p < n && !(at <= p < at + |d|) ensures b[p] == 0 {
        assert r[..n][p] == t[p];
      }
    }
    if |b| <= |r| && ZerosFrom(r, n) {
      forall p | n <= p < |b| ensures b[p] == 0 {
        assert r[p] == 0;
      }
    }
  }

  lemma StoredAt(b: seq<Byte>, n: nat, at: nat, d: seq<Byte>)
    requires at + |d| <= Span(n) || d == []
    ensures var r := Stored(b, n, at, d);
            forall p :: 0 <= p < |r| ==> r[p] == if at <= p < at + |d| then d[p - at] else if p < |b| then b[p] else 0
  {
    hide Span;
  }

  lemma FlatAt(b: seq<Byte>, l: nat, n: nat, at: nat, d: seq<Byte>)
    requires l <= |b| && (at + |d| <= n || d == [])
    ensures var t := Overwritten(Extended(b[..l], n), at, d);
            forall p :: 0 <= p < n ==> t[p] == if at <= p < at + |d| then d[p - at] else if p < l then b[p] else 0
  {}

  /** Exactly the writes that lose the end of a file: they go past the capacity of an
      inode, and end in their sector before the file ends in its last one. */
  lemma WriteShrinks(length: nat, end: nat)
    requires length <= 512 * CAPACITY
    ensures LengthAfter(length, end) < length <==>
            end > 512 * CAPACITY && length > 512 * (CAPACITY - 1) && (end - 1) % 512 < (length - 1) % 512
  {
    if 512 * (CAPACITY - 1) < length {
      assert length == 512 * (CAPACITY - 1) + (length - 1) % 512 + 1;
    }
  }

  /** One such write: a byte at offset 512 * 16522 of a file that has all its sectors
      full leaves 511 bytes fewer, and does not write the byte. */
  lemma WriteShrinksExample()
    ensures var full := 512 * CAPACITY; LengthAfter(full, full + 1) == full - 511
  {
  }

  lemma ExtendedWhole(s: seq<Byte>)
    ensures Extended(s, |s|) == s
  {}

  /** Sectors in use that the inode did not own stay in use, and keep their bytes if they
      are not the free map's file's. Those keep their bytes if no sector changed hands,
      and otherwise hold the new map. */
  ghost predicate Untouched(a: Snap, b: Snap) {
    && |a.used| == |a.disk| == |b.disk| == |b.used| && b.mf == a.mf
    && (forall t :: 0 <= t < |a.used| && a.used[t] ==> b.used[t])
    && (forall t :: 0 <= t < |a.used| && a.used[t] && t !in a.flat && t !in a.meta ==>
          t !in b.flat && t !in b.meta && (t in a.mf || b.disk[t] == a.disk[t]))
    && (if b.used == a.used then SameOn(a.disk, b.disk, a.mf) else InStep(b.disk, b.used, b.mf))
  }

  /** So the inode stays off the free map's file, and the file in step. */
  lemma UntouchedApart(a: Snap, b: Snap)
    requires Untouched(a, b) && Apart(a)
    ensures Apart(b) && (InStep(a.disk, a.used, a.mf) ==> InStep(b.disk, b.used, b.mf))
  {
    hide InStep;
    if b.used == a.used && InStep(a.disk, a.used, a.mf) {
      InStepKept(a.disk, b.disk, a.used, a.mf);
    }
  }

  /** The growth step of inode_write_at. */
  method GrowFor(inode: Inode, fs: FileSys, end: nat)
    requires FileIndexed(inode, fs) && Apart(inode.Own(fs)) && inode.length < end && inode.length <= 512 * CAPACITY
    requires Fits(BytesToSectors(end), inode.Own(fs))
    modifies inode`length, inode`ptr, inode`direct, inode`first, inode`second, inode`flat, inode`inner
    modifies fs`disk, fs.freeMap.bits
    ensures FileIndexed(inode, fs) && inode.length == LengthAfter(old(inode.length), end)
    ensures Backing(inode, fs) == Extended(old(Backing(inode, fs)), Span(inode.length))
    ensures Untouched(old(inode.Own(fs)), inode.Own(fs))
    ensures Room(inode.Own(fs)) == old(Room(inode.Own(fs)))
  {
    hide Laid, Bitmap.View, CursorsFor, Grown, Untouched, Meta, Contents, Extended, Fits, Room, Apart, MapLaid;
    BackingLength(inode, fs);
    ghost var a, m := inode.Own(fs), inode.length;
    LaidSeparate(a.disk, a.used, inode.ptr, a.flat, inode.inner);
    inode.length := inode.Grow(fs, end);
    LaidOnDisk(fs.disk, fs.Used(), inode.ptr, inode.flat, inode.inner);
    ghost var b := inode.Own(fs);
    GrowResult(m, end, inode.length);
    GrownContents(a, b);
    GrownUntouched(a, b);
    GrownRoom(a, b);
  }

  lemma GrownRoom(a: Snap, b: Snap)
    requires Grown(a, b)
    ensures Room(a) == Room(b)
  {}

  lemma LaidSeparate(disk: seq<Sector>, used: seq<bool>, ptr: seq<Word>, flat: seq<nat>, inner: seq<nat>)
    requires Laid(disk, used, ptr, flat, inner)
    ensures Separate(used, flat, Meta(ptr, |flat|, inner)) && |flat| <= CAPACITY
  {}

  lemma GrownUntouched(a: Snap, b: Snap)
    requires Grown(a, b)
    ensures Untouched(a, b)
  {
  }

  /** The device, before there is a file on it that the caller owns. */
  ghost function Bare(fs: FileSys): (a: Snap)
    requires fs.Valid()
    reads fs, fs.freeMap.bits
  {
    Snap(fs.disk, fs.Used(), [], [], fs.mapFile)
  }

  /** inode_create's allocation: a new file of n zero bytes, or as many of them as an
      inode can address. The length it writes to the inode is the one asked for, not the
      one that inode_grow returns. */
  method Create(fs: FileSys, n: nat, garbage: seq<Word>) returns (inode: Inode)
    requires fs.Valid() && |garbage| == DIRECT_BLOCK_SIZE && Apart(Bare(fs))
    requires Fits(BytesToSectors(n), Bare(fs))
    modifies fs`disk, fs.freeMap.bits
    ensures fresh(inode) && FileIndexed(inode, fs) && inode.length == n && inode.denyWriteCnt == 0
    ensures FileBytes(inode, fs) == Extended([], Reach(n)) && ZerosFrom(Backing(inode, fs), 0)
    ensures Untouched(old(Bare(fs)), inode.Own(fs)) && Apart(inode.Own(fs))
    ensures Room(inode.Own(fs)) == old(Room(Bare(fs)))
    ensures old(fs.Saved()) ==> fs.Saved()
  {
    hide Laid, Bitmap.View, CursorsFor, Grown, Untouched, Meta, Contents, Extended, ZerosFrom, Fits, Room, Apart, InStep, MapLaid;
    hide Reach, FileBytes, Backing;
    inode := new Inode(garbage);
    EmptyIndexed(inode, fs);
    ghost var a := Bare(fs);
    var _ := inode.Grow(fs, n);
    inode.length := n;
    NewFile(inode, fs, a);
  }

  lemma EmptyIndexed(inode: Inode, fs: FileSys)
    requires fs.Valid() && |inode.ptr| == DIRECT_BLOCK_SIZE && inode.flat == [] && inode.inner == []
    requires inode.direct == inode.first == inode.second == 0
    ensures inode.Indexed(fs) && inode.Own(fs) == Bare(fs)
  {
    hide Bitmap.View, MapLaid;
  }

  lemma NewFile(inode: Inode, fs: FileSys, a: Snap)
    requires inode.Indexed(fs) && inode.length >= 0 && |inode.flat| == Capped(BytesToSectors(inode.length))
    requires Grown(a, inode.Own(fs)) && Apart(a) && a.flat == [] && a.meta == []
    ensures FileIndexed(inode, fs)
    ensures FileBytes(inode, fs) == Extended([], Reach(inode.length)) && ZerosFrom(Backing(inode, fs), 0)
    ensures var b := inode.Own(fs);
            && Untouched(a, b) && Apart(b) && Room(b) == Room(a)
            && (InStep(a.disk, a.used, a.mf) ==> InStep(b.disk, b.used, b.mf))
  {
    hide Laid, Bitmap.View, CursorsFor, Grown, Untouched, Meta, Extended, ZerosFrom, Room, Apart, InStep, MapLaid;
    LaidOnDisk(fs.disk, fs.Used(), inode.ptr, inode.flat, inode.inner);
    var b := inode.Own(fs);
    assert Contents(a.disk, [], 0) == [];
    GrownContents(a, b);
    ZeroPrefix(512 * |b.flat|, Reach(inode.length));
    GrownUntouched(a, b);
    UntouchedApart(a, b);
    GrownRoom(a, b);
  }

  lemma ZeroPrefix(m: nat, n: nat)
    ensures ZerosFrom(Extended([], m), 0)
    ensures n <= m ==> Extended([], m)[..n] == Extended([], n)
  {}

  // ---- Runs of writes ------------------------------------------------------

  /** A write, and whether it finds memory for its bounce buffer. */
  datatype Write = Write(offset: nat, data: seq<Byte>, memory: bool)

  /** A file as its sectors hold it. */
  datatype File = File(backing: seq<Byte>, length: nat)

  ghost predicate FileOk(f: File) {
    |f.backing| == Span(f.length)
  }

  /** What a write leaves of a file; a write past the capacity of an inode is cut. */
  ghost function AfterWrite(f: File, w: Write): (g: File)
    ensures FileOk(g)
  {
    var n := LengthAfter(f.length, w.offset + |w.data|);
    File(Stored(f.backing, n, w.offset, w.data[..Moved(|w.data|, w.offset, Reach(n), w.memory)]), n)
  }

  ghost function AfterWrites(f: File, ws: seq<Write>): (g: File) {
    if ws == [] then f else AfterWrite(AfterWrites(f, ws[..|ws|-1]), ws[|ws|-1])
  }

  /** What the same writes leave of a flat byte string. */
  ghost function FlatWrites(s: seq<Byte>, ws: seq<Write>): (r: seq<Byte>) {
    if ws == [] then s else FlatOne(FlatWrites(s, ws[..|ws|-1]), ws[|ws|-1])
  }

  ghost function FlatOne(t: seq<Byte>, w: Write): (r: seq<Byte>) {
    var n := if w.offset + |w.data| > |t| then w.offset + |w.data| else |t|;
    Overwritten(Extended(t, n), w.offset, w.data[..Moved(|w.data|, w.offset, n, w.memory)])
  }

  /** A file below the capacity of an inode, with nothing but zeros behind its end. */
  ghost predicate FileClean(f: File) {
    FileOk(f) && f.length <= 512 * CAPACITY && ZerosFrom(f.backing, f.length)
  }

  lemma OneIsFlat(f: File, w: Write)
    requires FileClean(f) && w.offset + |w.data| <= 512 * CAPACITY
    ensures var g := AfterWrite(f, w);
            FileClean(g) && g.backing[..g.length] == FlatOne(f.backing[..f.length], w)
  {
    hide Moved, Overwritten, Extended, Span;
    var n := LengthAfter(f.length, w.offset + |w.data|);
    SpanMono(f.length, n);
    assert Reach(n) == n && Reach(f.length) == f.length;
    hide Stored;
    FlatWrite(f.backing, f.length, n, w.offset, w.data[..Moved(|w.data|, w.offset, n, w.memory)]);
  }

  lemma SpanMono(n: nat, m: nat)
    requires n <= m
    ensures Span(n) <= Span(m)
  {
    BytesToSectorsMono(n, m);
  }

  /** Any run of writes that stay below the capacity of an inode acts on a file with
      nothing but zeros behind its end as on a flat byte string. */
  lemma {:induction false} RunIsFlat(f: File, ws: seq<Write>)
    requires FileClean(f)
    requires forall i :: 0 <= i < |ws| ==> ws[i].offset + |ws[i].data| <= 512 * CAPACITY
    ensures var g := AfterWrites(f, ws);
            FileClean(g) && g.backing[..g.length] == FlatWrites(f.backing[..f.length], ws)
  {
    hide FileClean, FlatOne, AfterWrite;
    if ws != [] {
      RunIsFlat(f, ws[..|ws|-1]);
      OneIsFlat(AfterWrites(f, ws[..|ws|-1]), ws[|ws|-1]);
    }
  }

  lemma FitsLess(n: nat, m: nat, a: Snap)
    requires n <= m && Fits(BytesToSectors(m), a)
    ensures Fits(BytesToSectors(n), a)
  {
    BytesToSectorsMono(n, m);
    MetaCountMono(Capped(BytesToSectors(n)), Capped(BytesToSectors(m)));
  }

  ghost function TheFile(inode: Inode, fs: FileSys): (f: File)
    requires FileIndexed(inode, fs)
    reads inode, fs, fs.freeMap.bits
    ensures FileOk(f) && FileBytes(inode, fs) == f.backing[..Reach(f.length)]
  {
    File(Backing(inode, fs), inode.length)
  }

  /** The file is what the writes `done` leave of f, the device still has room for
      n bytes, and nothing else on it has changed since a. */
  ghost predicate Running(inode: Inode, fs: FileSys, a: Snap, f: File, done: seq<Write>, n: nat)
    reads inode, fs, fs.freeMap.bits
  {
    && FileIndexed(inode, fs) && inode.denyWriteCnt == 0 && TheFile(inode, fs) == AfterWrites(f, done)
    && Fits(BytesToSectors(n), inode.Own(fs)) && InReach(0, n, inode.length)
    && Apart(inode.Own(fs)) && Untouched(a, inode.Own(fs))
  }

  method WriteStep(inode: Inode, fs: FileSys, w: Write, ghost a: Snap, ghost f: File, ghost done: seq<Write>, ghost n: nat)
    requires Running(inode, fs, a, f, done, n) && w.offset + |w.data| <= n
    modifies inode`length, inode`ptr, inode`direct, inode`first, inode`second, inode`flat, inode`inner
    modifies fs`disk, fs.freeMap.bits
    ensures Running(inode, fs, a, f, done + [w], n)
  {
    hide Backing, Fits, Room, BytesToSectors, Stored, AfterWrites, Untouched, Bitmap.View, Inode.Own, FileIndexed;
    hide FileOk, FileBytes, Apart, FileSys.Saved, Moved, Reach, Span;
    BackingLength(inode, fs);
    ghost var b := inode.Own(fs);
    FitsLess(w.offset + |w.data|, n, b);
    AfterOne(f, done, w);
    var _ := WriteAt(inode, fs, w.data, w.offset, w.memory);
    BackingLength(inode, fs);
    FitsRoom(n, b, inode.Own(fs));
    UntouchedTrans(a, b, inode.Own(fs));
  }

  /** Any run of writes below n, on a device with room for n bytes: the file is what
      the run leaves of it, and sectors it did not own are as they were, but for those
      of the free map's file. */
  method WriteAll(inode: Inode, fs: FileSys, ws: seq<Write>, ghost n: nat)
    requires FileIndexed(inode, fs) && inode.denyWriteCnt == 0 && Apart(inode.Own(fs))
    requires Fits(BytesToSectors(n), inode.Own(fs)) && InReach(0, n, inode.length)
    requires forall i :: 0 <= i < |ws| ==> ws[i].offset + |ws[i].data| <= n
    modifies inode`length, inode`ptr, inode`direct, inode`first, inode`second, inode`flat, inode`inner
    modifies fs`disk, fs.freeMap.bits
    ensures FileIndexed(inode, fs) && Apart(inode.Own(fs))
    ensures TheFile(inode, fs) == AfterWrites(old(TheFile(inode, fs)), ws)
    ensures n <= 512 * CAPACITY && old(FileClean(TheFile(inode, fs))) ==>
              FileBytes(inode, fs) == FlatWrites(old(FileBytes(inode, fs)), ws)
    ensures Untouched(old(inode.Own(fs)), inode.Own(fs))
  {
    BackingLength(inode, fs);
    ghost var a, f := inode.Own(fs), TheFile(inode, fs);
    RunningStart(inode, fs, n);
    WriteEach(inode, fs, ws, a, f, n);
    if n <= 512 * CAPACITY && FileClean(f) {
      RunIsFlat(f, ws);
    }
    hide Laid, CursorsFor, Bitmap.View, Contents, Meta, Fits, AfterWrites, FlatWrites, ZerosFrom, Untouched, Apart, MapLaid;
  }

  /** The writes in turn. */
  method WriteEach(inode: Inode, fs: FileSys, ws: seq<Write>, ghost a: Snap, ghost f: File, ghost n: nat)
    requires Running(inode, fs, a, f, [], n)
    requires forall i :: 0 <= i < |ws| ==> ws[i].offset + |ws[i].data| <= n
    modifies inode`length, inode`ptr, inode`direct, inode`first, inode`second, inode`flat, inode`inner
    modifies fs`disk, fs.freeMap.bits
    ensures Running(inode, fs, a, f, ws, n)
  {
    hide Running;
    assert ws[..0] == [] && ws[..|ws|] == ws;
    for i := 0 to |ws|
      invariant Running(inode, fs, a, f, ws[..i], n)
    {
      assert ws[..i+1] == ws[..i] + [ws[i]];
      WriteStep(inode, fs, ws[i], a, f, ws[..i], n);
    }
  }

  lemma RunningStart(inode: Inode, fs: FileSys, n: nat)
    requires FileIndexed(inode, fs) && inode.denyWriteCnt == 0 && Apart(inode.Own(fs))
    requires Fits(BytesToSectors(n), inode.Own(fs)) && InReach(0, n, inode.length)
    ensures Running(inode, fs, inode.Own(fs), TheFile(inode, fs), [], n)
  {
    hide CursorsFor, Bitmap.View, Contents, Meta, Fits, MapLaid;
    OwnUntouched(inode, fs);
  }

  lemma BackingLength(inode: Inode, fs: FileSys)
    requires FileIndexed(inode, fs)
    ensures 0 <= inode.length && |Backing(inode, fs)| == Span(inode.length) && |inode.ptr| == 12 && fs.Valid()
  {}

  lemma FitsRoom(n: nat, a: Snap, b: Snap)
    requires Fits(BytesToSectors(n), a) && Room(a) == Room(b)
    ensures Fits(BytesToSectors(n), b)
  {}

  lemma AfterOne(f: File, ws: seq<Write>, w: Write)
    ensures AfterWrites(f, ws + [w]) == AfterWrite(AfterWrites(f, ws), w)
  {
    assert (ws + [w])[..|ws|] == ws;
  }

  lemma UntouchedRefl(a: Snap)
    requires |a.used| == |a.disk|
    ensures Untouched(a, a)
  {}

  lemma UntouchedTrans(a: Snap, b: Snap, c: Snap)
    requires Untouched(a, b) && Untouched(b, c)
    ensures Untouched(a, c)
  {
    hide InStep;
    if c.used == a.used {
      assert b.used == a.used;
    } else if c.used == b.used {
      InStepKept(b.disk, c.disk, b.used, b.mf);
    }
  }

  /** A file on sectors that neither the writer nor the free map's file owns keeps its
      index, its bytes and its sectors. */
  lemma OtherFileUntouched(a: Snap, b: Snap, ptr: seq<Word>, flat: seq<nat>, inner: seq<nat>, n: nat)
    requires Untouched(a, b) && Laid(a.disk, a.used, ptr, flat, inner) && n <= 512 * |flat| && OnDisk(a.disk, flat)
    requires forall t :: t in flat || t in Meta(ptr, |flat|, inner) ==> t !in a.flat && t !in a.meta && t !in a.mf
    ensures Laid(b.disk, b.used, ptr, flat, inner) && OnDisk(b.disk, flat)
    ensures Contents(b.disk, flat, n) == Contents(a.disk, flat, n)
    ensures forall t :: t in flat || t in Meta(ptr, |flat|, inner) ==> t !in b.flat && t !in b.meta
  {
    hide InStep;
    forall i | 0 <= i < |flat| ensures b.used[flat[i]] && b.disk[flat[i]] == a.disk[flat[i]] && flat[i] !in b.flat && flat[i] !in b.meta {
      assert flat[i] in flat;
    }
    var m := Meta(ptr, |flat|, inner);
    forall t | t in m
      ensures t < |b.used| && b.used[t] && b.disk[t] == a.disk[t] && t !in b.flat && t !in b.meta
    {
      var k :| 0 <= k < |m| && m[k] == t;
    }
    LaidElsewhere(a.disk, a.used, b.disk, b.used, ptr, flat, inner);
  }

  /** The free map's own file keeps its bytes exactly if no sector changed hands. */
  lemma MapFileKept(a: Snap, b: Snap)
    requires Untouched(a, b) && Apart(a) && a.mf != [] && InStep(a.disk, a.used, a.mf)
    ensures InStep(b.disk, b.used, b.mf)
    ensures MapContents(b.disk, b.mf, |b.used|) == MapContents(a.disk, a.mf, |a.used|) <==> b.used == a.used
  {
    hide MapBits;
    UntouchedApart(a, b);
    if b.used == a.used {
      SectorsHold(MapSize(|a.used|));
      SameContents(a.disk, b.disk, a.mf, MapSize(|a.used|));
    } else {
      OtherMapOtherBytes(a.disk, b.disk, a.used, b.used, a.mf);
    }
  }
}
