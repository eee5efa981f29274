/**
  The file system device and its free map (filesys/free-map.c over
  lib/kernel/bitmap.c). Reading and writing a sector are primitives.
 */
module FileSystem {
  import opened Order
  import opened Bits
  import opened BitmapWords
  import opened BitmapBytes
  import opened InodeLayout
  import opened InodeBytes
  import opened MapFile

  /** How many bytes of a map file of `size` bytes bitmap_write writes: without memory
      for a bounce buffer, only the whole sectors. */
  function SavedBytes(size: nat, memory: bool): (k: nat)
    ensures k <= size && (k == size <==> memory || size % SECTOR_SIZE == 0)
  {
    if memory then size else size - size % SECTOR_SIZE
  }

  lemma WholeSectors(size: nat, written: nat)
    requires written % 512 == 0 && written <= size < written + 512
    ensures written == SavedBytes(size, false)
  {}

  class FileSys {
    var disk: seq<Sector>
    const freeMap: Bitmap
    /** The data sectors of the free map's file; none while it is not open. */
    var mapFile: seq<nat>

    ghost predicate Valid()
      reads this
    {
      && freeMap.Valid() && |disk| == freeMap.bitCnt <= 0x1_0000_0000
      && (mapFile == [] || MapLaid(disk, mapFile, freeMap.bitCnt))
    }

    ghost function Used(): (u: seq<bool>)
      requires freeMap.Valid()
      reads freeMap.bits
      ensures |u| == freeMap.bitCnt
    {
      freeMap.View()
    }

    /** The free map's file, if it is open, holds the free map. */
    ghost predicate Saved()
      requires Valid()
      reads this, freeMap.bits
    {
      InStep(disk, Used(), mapFile)
    }

    /** Whether the whole map gets written to its file. */
    predicate Savable(memory: bool)
      reads this`mapFile
    {
      mapFile == [] || memory || MapSize(freeMap.bitCnt) % SECTOR_SIZE == 0
    }

    /** free_map_init: only the free map's and the root directory's sectors are in
        use. */
    constructor (sectors: seq<Sector>, freeMapSector: nat, rootDirSector: nat)
      requires freeMapSector < |sectors| && rootDirSector < |sectors| <= 0x1_0000_0000
      ensures Valid() && disk == sectors && mapFile == [] && fresh(freeMap) && fresh(freeMap.bits)
      ensures forall s :: 0 <= s < |sectors| ==> Used()[s] == (s == freeMapSector || s == rootDirSector)
    {
      disk := sectors;
      mapFile := [];
      freeMap := new Bitmap(|sectors|);
      new;
      freeMap.Set(freeMapSector, true);
      freeMap.Set(rootDirSector, true);
    }

    /** block_write */
    method BlockWrite(sector: nat, data: Sector)
      requires Valid() && sector < |disk|
      modifies this`disk
      ensures Valid() && disk == old(disk)[sector := data]
    {
      disk := disk[sector := data];
    }

    /** The loop of inode_write_at, from the start of a file on the sectors flat. */
    method WriteSectors(flat: seq<nat>, buffer: seq<Byte>, memory: bool) returns (written: nat)
      requires OnDisk(disk, flat) && Distinct(flat) && |buffer| <= 512 * |flat|
      modifies this`disk
      ensures |disk| == |old(disk)| && written == SavedBytes(|buffer|, memory)
      ensures Patched(old(disk), disk, flat, 0, buffer[..written])
    {
      hide Patched, Distinct, PutChunk, OnDisk, SavedBytes;
      ghost var disk0 := disk;
      written := 0;
      PatchedNone(disk0, flat, 0);
      assert buffer[..0] == [];
      while written < |buffer|
        invariant |disk| == |disk0| && written <= |buffer| && (written < |buffer| ==> written % 512 == 0)
        invariant written == |buffer| && !memory ==> |buffer| % 512 == 0
        invariant Patched(disk0, disk, flat, 0, buffer[..written])
      {
        var chunk := if |buffer| - written < SECTOR_SIZE then |buffer| - written else SECTOR_SIZE;
        if chunk != SECTOR_SIZE && !memory {
          WholeSectors(|buffer|, written);
          return;
        }
        NextChunk(disk0, disk, flat, 0, buffer, written, written, chunk);
        var sector := flat[written / SECTOR_SIZE];
        disk := disk[sector := PutChunk(disk[sector], 0, buffer[written..written + chunk])];
        written := written + chunk;
      }
    }

    /** bitmap_write to the free map's file. */
    method WriteMap(memory: bool) returns (ok: bool)
      requires Valid() && mapFile != []
      modifies this`disk
      ensures Valid() && Rewritten(old(disk), disk, mapFile) && ok == Savable(memory)
      ensures var s := MapBytes(freeMap.bits[..]); Patched(old(disk), disk, mapFile, 0, s[..SavedBytes(|s|, memory)])
      ensures var n := freeMap.bitCnt;
              MapBits(disk, mapFile, n) == if ok then Used() else Torn(old(MapBits(disk, mapFile, n)), Used(), WholeBits(n))
    {
      hide Patched, MapBytes, MapBits, Spread, Torn;
      var buffer := MapBytes(freeMap.bits[..]);
      SectorsHold(|buffer|);
      var written := WriteSectors(mapFile, buffer, memory);
      ok := written == |buffer|;
      WrittenBits(old(disk), disk, mapFile, freeMap.bitCnt, freeMap.bits[..], ok);
    }

    /** free_map_allocate. If the map cannot be written to its file the bits are put
        back, but the sectors of the file that were written are not: the file then holds
        the map only if the run is past them. `fit` is the run that the scan found. */
    method FreeMapAllocate(cnt: nat, memory: bool) returns (r: Option<nat>, ghost fit: Option<nat>)
      requires Valid()
      modifies this`disk, freeMap.bits
      ensures Valid() && Rewritten(old(disk), disk, mapFile)
      ensures FirstFit(old(Used()), 0, cnt, false, fit) && r == if Savable(memory) then fit else None
      ensures Used() == match r case Some(s) => SetRun(old(Used()), s, cnt, true) case None => old(Used())
      ensures fit.None? ==> disk == old(disk)
      ensures r.Some? ==> Saved()
      ensures r.None? && old(Saved()) ==> (Saved() <==> fit.None? || cnt == 0 || WholeBits(freeMap.bitCnt) <= fit.value)
    {
      hide Bitmap.View, MapBits, Torn, MapLaid;
      ghost var u := Used();
      r := freeMap.ScanAndFlip(0, cnt, false);
      fit := r;
      if r.Some? && mapFile != [] {
        ghost var v := Used();
        var ok := WriteMap(memory);
        if !ok {
          freeMap.SetMultiple(r.value, cnt, false);
          assert Used() == u;
          TornAllocate(u, fit.value, cnt, WholeBits(freeMap.bitCnt));
          r := None;
        }
      }
    }

    /** free_map_release; its assertion is the precondition, and so is that the file is
        open. Nothing is put back: the file holds the map again only if it could all be
        written, or the run is in the part that was. */
    method FreeMapRelease(sector: nat, cnt: nat, memory: bool)
      requires Valid() && mapFile != [] && RunAt(Used(), sector, cnt, true)
      modifies this`disk, freeMap.bits
      ensures Valid() && Rewritten(old(disk), disk, mapFile)
      ensures Used() == SetRun(old(Used()), sector, cnt, false)
      ensures old(Saved()) || Savable(memory) ==>
                (Saved() <==> Savable(memory) || cnt == 0 || sector + cnt <= WholeBits(freeMap.bitCnt))
    {
      hide Bitmap.View, MapBits, Torn, MapLaid;
      ghost var u := Used();
      freeMap.SetMultiple(sector, cnt, false);
      TornRelease(u, sector, cnt, WholeBits(freeMap.bitCnt));
      var _ := WriteMap(memory);
    }

    /** free_map_open: the map is what the file holds. When the file cannot be read the
        kernel panics. */
    method FreeMapOpen(sectors: seq<nat>, memory: bool) returns (ok: bool)
      requires Valid() && sectors != [] && MapLaid(disk, sectors, freeMap.bitCnt)
      modifies this`mapFile, freeMap.bits
      ensures Valid() && mapFile == sectors && ok == Savable(memory)
      ensures ok ==> Used() == MapBits(disk, sectors, freeMap.bitCnt) && Saved()
    {
      mapFile := sectors;
      ok := memory || MapSize(freeMap.bitCnt) % SECTOR_SIZE == 0;
      if ok {
        var bytes := ReadSectors(sectors, MapSize(freeMap.bitCnt));
        hide Contents, Spread, MapWords;
        freeMap.Load(MapWords(bytes));
      }
    }

    /** The loop of inode_read_at, from the start of a file on the sectors flat. */
    method ReadSectors(flat: seq<nat>, size: nat) returns (buffer: seq<Byte>)
      requires OnDisk(disk, flat) && size <= 512 * |flat|
      ensures buffer == Contents(disk, flat, size)
    {
      buffer := [];
      while |buffer| < size
        invariant |buffer| <= size && (|buffer| < size ==> |buffer| % 512 == 0)
        invariant buffer == Contents(disk, flat, |buffer|)
        decreases size - |buffer|
      {
        var chunk := if size - |buffer| < SECTOR_SIZE then size - |buffer| else SECTOR_SIZE;
        buffer := buffer + disk[flat[|buffer| / SECTOR_SIZE]][..chunk];
      }
    }

    /** free_map_allocate (1, &p), where p was `stale`: the first free sector. On a full
        device, or if the map cannot be written, p stays as it was. */
    method AllocateOne(stale: Word, memory: bool) returns (s: Word)
      requires Valid()
      modifies this`disk, freeMap.bits
      ensures Valid() && Rewritten(old(disk), disk, mapFile)
      ensures Savable(memory) && FreeCount(old(Used())) > 0 ==>
                && s < |old(Used())| && !old(Used())[s] && Used() == old(Used())[s := true]
                && (forall t :: 0 <= t < s ==> old(Used())[t]) && Saved()
      ensures !(Savable(memory) && FreeCount(old(Used())) > 0) ==> s == stale && Used() == old(Used())
      ensures FreeCount(old(Used())) == 0 ==> disk == old(disk)
    {
      hide Bitmap.View, FreeCount, MapLaid, MapBits, InStep;
      ghost var u := Used();
      SomeFree(u);
      var r, fit := FreeMapAllocate(1, memory);
      FirstFree(u, fit);
      s := if r.Some? then r.value else stale;
    }

    /** Allocating a data sector and filling it with zeros. On a full device it is the
        sector that the pointer happened to name that is filled, whoever owns it.
        `mid` is the device in between. */
    method AllocateZeroed(stale: Word, memory: bool) returns (s: Word, ghost mid: seq<Sector>)
      requires Valid() && ((Savable(memory) && FreeCount(Used()) > 0) || stale < |disk|)
      modifies this`disk, freeMap.bits
      ensures Valid() && Rewritten(old(disk), mid, mapFile) && s < |mid| && disk == mid[s := Zeros()]
      ensures Savable(memory) && FreeCount(old(Used())) > 0 ==>
                !old(Used())[s] && Used() == old(Used())[s := true] && InStep(mid, Used(), mapFile)
      ensures !(Savable(memory) && FreeCount(old(Used())) > 0) ==> s == stale && Used() == old(Used())
      ensures FreeCount(old(Used())) == 0 ==> disk == old(disk)[stale := Zeros()]
    {
      hide Bitmap.View, Zeros, FreeCount, MapBits;
      s := AllocateOne(stale, memory);
      mid := disk;
      disk := disk[s := Zeros()];
    }
  }

  /** The map and the file, after an allocation that could not be written in full. */
  lemma TornAllocate(u: seq<bool>, s: nat, cnt: nat, k: nat)
    requires RunAt(u, s, cnt, false)
    ensures Torn(u, SetRun(u, s, cnt, true), k) == u <==> cnt == 0 || k <= s
  {
    var v := Torn(u, SetRun(u, s, cnt, true), k);
    if cnt > 0 && s < k {
      assert v[s] != u[s];
    }
  }

  lemma TornRelease(u: seq<bool>, s: nat, cnt: nat, k: nat)
    requires RunAt(u, s, cnt, true)
    ensures var v := SetRun(u, s, cnt, false); Torn(u, v, k) == v <==> cnt == 0 || s + cnt <= k
  {
    var v := SetRun(u, s, cnt, false);
    if cnt > 0 && k < s + cnt {
      assert Torn(u, v, k)[s + cnt - 1] != v[s + cnt - 1];
    }
  }

  lemma FirstFree(u: seq<bool>, fit: Option<nat>)
    requires FirstFit(u, 0, 1, false, fit)
    ensures fit.Some? <==> exists t :: 0 <= t < |u| && !u[t]
    ensures fit.Some? ==> fit.value < |u| && !u[fit.value] && forall t :: 0 <= t < fit.value ==> u[t]
    ensures fit.Some? ==> SetRun(u, fit.value, 1, true) == u[fit.value := true]
  {
    assert forall t :: 0 <= t < |u| ==> RunAt(u, t, 1, false) == !u[t];
  }

  lemma SavedWords(size: nat)
    ensures SavedBytes(size, true) == size && SavedBytes(size, false) == 512 * (size / 512)
  {}

  lemma WrittenBits(disk: seq<Sector>, disk': seq<Sector>, mf: seq<nat>, n: nat, ws: seq<bv32>, ok: bool)
    requires MapLaid(disk, mf, n) && 4 * |ws| == MapSize(n)
    requires Patched(disk, disk', mf, 0, MapBytes(ws)[..SavedBytes(4 * |ws|, ok)])
    ensures Rewritten(disk, disk', mf) && MapLaid(disk', mf, n)
    ensures MapBits(disk', mf, n) == if ok then Spread(ws)[..n] else Torn(MapBits(disk, mf, n), Spread(ws)[..n], WholeBits(n))
  {
    hide MapBytes, MapBits, Spread, ByteAt, SavedBytes, MapLaid;
    var k := if ok then |ws| else 128 * (MapSize(n) / 512);
    SavedWords(4 * |ws|);
    PartBits(disk, disk', mf, n, ws, k);
  }
}
