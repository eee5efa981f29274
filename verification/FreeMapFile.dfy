/**
  The free map's file as a file like any other (filesys/free-map.c): made by
  inode_create, written by inode_write_at, read back when the file system is mounted.
 */
module FreeMapFile {
  import opened Order
  import opened Bits
  import opened BitmapWords
  import opened BitmapBytes
  import opened InodeLayout
  import opened InodeBytes
  import opened InodeGrowth
  import opened MapFile
  import opened FileSystem
  import opened Inodes
  import opened InodeIO

  /** The bytes of a file and what is on other sectors determine the device. */
  lemma PatchedOnce(disk: seq<Sector>, disk1: seq<Sector>, disk2: seq<Sector>, flat: seq<nat>, at: nat, d: seq<Byte>)
    requires Patched(disk, disk1, flat, at, d) && Patched(disk, disk2, flat, at, d)
    ensures disk1 == disk2
  {
    forall t | 0 <= t < |disk| ensures disk1[t] == disk2[t] {
      if t in flat {
        var i :| 0 <= i < |flat| && flat[i] == t;
        forall q | 0 <= q < 512 ensures disk1[t][q] == disk2[t][q] {
          assert (512 * i + q) / 512 == i && (512 * i + q) % 512 == q;
          assert ByteAt(disk1, flat, 512 * i + q) == ByteAt(disk2, flat, 512 * i + q);
        }
      }
    }
  }

  /** The inode is that of the free map's file. */
  ghost predicate MapInode(inode: Inode, fs: FileSys)
    reads inode, fs, fs.freeMap.bits
  {
    && FileIndexed(inode, fs) && inode.length == MapSize(fs.freeMap.bitCnt) <= 512 * CAPACITY
    && inode.flat == fs.mapFile
  }

  /** bitmap_write, through inode_write_at on the map's inode. By PatchedOnce it leaves
      the device as FileSys.WriteMap does. */
  method WriteThrough(inode: Inode, fs: FileSys, memory: bool) returns (ok: bool)
    requires MapInode(inode, fs)
    modifies fs`disk
    ensures MapInode(inode, fs) && (fs.mapFile != [] ==> ok == fs.Savable(memory))
    ensures var s := MapBytes(fs.freeMap.bits[..]); Patched(old(fs.disk), fs.disk, fs.mapFile, 0, s[..SavedBytes(|s|, memory)])
  {
    hide Laid, Bitmap.View, CursorsFor, MapLaid, Patched, MapBytes;
    var buffer := MapBytes(fs.freeMap.bits[..]);
    var written := WriteLoop(inode, fs, buffer, 0, memory);
    ok := written == |buffer|;
  }

  /** The data sectors of a file, as byte_to_sector finds them. */
  method SectorsOf(inode: Inode, fs: FileSys) returns (sectors: seq<nat>)
    requires FileIndexed(inode, fs) && inode.length <= 512 * CAPACITY
    ensures sectors == inode.flat
  {
    hide Laid, Bitmap.View, CursorsFor, MapLaid;
    sectors := [];
    while |sectors| < BytesToSectors(inode.length)
      invariant |sectors| <= |inode.flat| && sectors == inode.flat[..|sectors|]
      decreases BytesToSectors(inode.length) - |sectors|
    {
      var s := ByteToSector(inode, fs, SECTOR_SIZE * |sectors|);
      sectors := sectors + [s];
    }
  }

  /** free_map_create: a file for the map, which then holds it, the sectors of the file
      among those in use. When it cannot be written the kernel panics. */
  method FreeMapCreate(fs: FileSys, garbage: seq<Word>, memory: bool) returns (ok: bool, inode: Inode)
    requires fs.Valid() && fs.mapFile == [] && |garbage| == DIRECT_BLOCK_SIZE && fs.freeMap.bitCnt > 0
    requires var n := MapSize(fs.freeMap.bitCnt); n <= 512 * CAPACITY && Fits(BytesToSectors(n), Bare(fs))
    modifies fs, fs.freeMap.bits
    ensures fs.Valid() && fresh(inode) && MapInode(inode, fs) && fs.mapFile != [] && ok == fs.Savable(memory)
    ensures ok ==> fs.Saved()
    ensures Apart(Bare(fs))
    ensures forall s :: 0 <= s < |old(fs.Used())| && old(fs.Used())[s] ==> fs.Used()[s] && fs.disk[s] == old(fs.disk[s])
  {
    hide Laid, Bitmap.View, CursorsFor, Fits, Room, Extended, ZerosFrom, MapBits, Torn, MapBytes, Apart, Untouched;
    BareApart(fs);
    ghost var a := Bare(fs);
    inode := Create(fs, MapSize(fs.freeMap.bitCnt), garbage);
    BackingLength(inode, fs);
    ghost var disk, b := fs.disk, inode.Own(fs);
    LaidHolds(disk, fs.Used(), inode.ptr, inode.flat, inode.inner);
    var sectors := SectorsOf(inode, fs);
    fs.mapFile := sectors;
    hide Patched;
    ok := fs.WriteMap(memory);
    LaidRewritten(disk, fs.disk, fs.Used(), inode.ptr, inode.flat, inode.inner);
    BareApart(fs);
    KeptElsewhere(a, b, fs.disk);
  }

  lemma KeptElsewhere(a: Snap, b: Snap, disk: seq<Sector>)
    requires Untouched(a, b) && a.flat == a.meta == a.mf == [] && Rewritten(b.disk, disk, b.flat)
    ensures forall s :: 0 <= s < |a.used| && a.used[s] ==> b.used[s] && disk[s] == a.disk[s]
  {
    hide InStep;
  }

  lemma BareApart(fs: FileSys)
    requires fs.Valid() && forall s :: s in fs.mapFile ==> s < |fs.Used()| && fs.Used()[s]
    ensures Apart(Bare(fs))
  {}

  lemma LaidHolds(disk: seq<Sector>, used: seq<bool>, ptr: seq<Word>, flat: seq<nat>, inner: seq<nat>)
    requires Laid(disk, used, ptr, flat, inner)
    ensures Holds(used, flat)
  {}

  lemma LaidRewritten(disk: seq<Sector>, disk': seq<Sector>, used: seq<bool>, ptr: seq<Word>, flat: seq<nat>, inner: seq<nat>)
    requires Laid(disk, used, ptr, flat, inner) && Rewritten(disk, disk', flat)
    ensures Laid(disk', used, ptr, flat, inner)
  {
    hide Decode;
    var m := Meta(ptr, |flat|, inner);
    forall t | t in m ensures t < |used| && used[t] && disk'[t] == disk[t] {
      var k :| 0 <= k < |m| && m[k] == t;
    }
    LaidElsewhere(disk, used, disk', used, ptr, flat, inner);
  }

  /** Mounting the device again: free_map_init and free_map_open find the map that was
      last saved. */
  method Remount(fs: FileSys, freeMapSector: nat, rootDirSector: nat, memory: bool) returns (ok: bool, next: FileSys)
    requires fs.Valid() && fs.mapFile != [] && fs.Saved() && freeMapSector < |fs.disk| && rootDirSector < |fs.disk|
    ensures fresh(next) && next.Valid() && next.disk == fs.disk && next.mapFile == fs.mapFile && ok == fs.Savable(memory)
    ensures ok ==> next.Used() == fs.Used()
  {
    hide Bitmap.View, MapBits, MapLaid;
    next := new FileSys(fs.disk, freeMapSector, rootDirSector);
    ok := next.FreeMapOpen(fs.mapFile, memory);
  }

  /** What a writer does to any other file: it keeps its bytes exactly if it is not the
      free map's file, or no sector changed hands. */
  lemma OtherFileKept(a: Snap, b: Snap, ptr: seq<Word>, flat: seq<nat>, inner: seq<nat>, n: nat)
    requires Untouched(a, b) && Apart(a) && a.mf != [] && InStep(a.disk, a.used, a.mf)
    requires Laid(a.disk, a.used, ptr, flat, inner) && OnDisk(a.disk, flat) && n <= 512 * |flat|
    requires forall t :: t in flat || t in Meta(ptr, |flat|, inner) ==> t !in a.flat && t !in a.meta
    requires (flat == a.mf && n == MapSize(|a.used|)) || forall t :: t in flat || t in Meta(ptr, |flat|, inner) ==> t !in a.mf
    ensures OnDisk(b.disk, flat)
    ensures Contents(b.disk, flat, n) == Contents(a.disk, flat, n) <==> flat != a.mf || b.used == a.used
  {
    if flat == a.mf && n == MapSize(|a.used|) {
      hide Laid, MapBits, Untouched, Apart;
      MapFileKept(a, b);
    } else {
      assert a.mf[0] in a.mf;
      hide Laid, InStep, Untouched;
      OtherFileUntouched(a, b, ptr, flat, inner, n);
    }
  }

  /** A byte written to a new file always changes the free map's file. */
  method FirstByte(fs: FileSys, b: Byte, garbage: seq<Word>) returns (inode: Inode)
    requires fs.Valid() && fs.mapFile != [] && fs.Saved() && Apart(Bare(fs)) && |garbage| == DIRECT_BLOCK_SIZE
    requires Fits(1, Bare(fs))
    modifies fs`disk, fs.freeMap.bits
    ensures FileIndexed(inode, fs) && FileBytes(inode, fs) == [b]
    ensures fs.Valid() && fs.Saved()
    ensures var n := fs.freeMap.bitCnt;
            MapContents(fs.disk, fs.mapFile, n) != old(MapContents(fs.disk, fs.mapFile, n))
  {
    hide FileIndexed, Backing, FileBytes, Fits, Room, Untouched, Bitmap.View, Inode.Own, Apart, InStep, MapContents, MapLaid, MapBits;
    hide Stored, ZerosFrom, Extended;
    ghost var a := Bare(fs);
    FitsPart(0, 1, a);
    inode := Create(fs, 0, garbage);
    BackingLength(inode, fs);
    ghost var c := inode.Own(fs);
    FitsRoom(1, a, c);
    var written := WriteAt(inode, fs, [b], 0, true);
    BackingLength(inode, fs);
    assert written == 1 && [b][..1] == [b];
    UntouchedTrans(a, c, inode.Own(fs));
    OneByteFile(inode, fs, b);
    OneSectorMore(a, inode.Own(fs));
  }

  lemma OneByteFile(inode: Inode, fs: FileSys, b: Byte)
    requires FileIndexed(inode, fs) && inode.length == 1 && Backing(inode, fs) == Stored([], 1, 0, [b])
    ensures FileBytes(inode, fs) == [b] && |inode.ptr| == DIRECT_BLOCK_SIZE
    ensures inode.Own(fs) == Bare(fs).(flat := inode.flat) && |inode.flat| == 1
  {
    hide Laid, Bitmap.View, CursorsFor, MapLaid;
    BackingLength(inode, fs);
  }

  /** Whatever took a sector changed the free map's file. */
  lemma OneSectorMore(a: Snap, b: Snap)
    requires Untouched(a, b) && Apart(a) && a.mf != [] && InStep(a.disk, a.used, a.mf)
    requires Room(a) == Room(b) && |b.flat| + |b.meta| > |a.flat| + |a.meta|
    ensures InStep(b.disk, b.used, b.mf)
    ensures MapContents(b.disk, b.mf, |b.used|) != MapContents(a.disk, a.mf, |a.used|)
  {
    hide InStep, MapContents;
    MapFileKept(a, b);
  }
}
