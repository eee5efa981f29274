/**
  The file that the free map is kept in (filesys/free-map.c): which sectors it takes,
  what map its bytes stand for, and when it is in step with the map in memory.
 */
module MapFile {
  import opened Order
  import opened Bits
  import opened BitmapWords
  import opened BitmapBytes
  import opened InodeLayout
  import opened InodeBytes

  /** bitmap_file_size for n bits. */
  function MapSize(n: nat): (k: nat)
    ensures k % 4 == 0 && n <= 8 * k
  {
    WordsHold(n);
    4 * ((n + ELEM_BITS - 1) / ELEM_BITS)
  }

  lemma WordsHold(n: nat)
    ensures n <= 32 * ((n + 31) / 32)
  {}

  /** The sectors in `mf` are those of a file for the map of n sectors. */
  ghost predicate MapLaid(disk: seq<Sector>, mf: seq<nat>, n: nat) {
    OnDisk(disk, mf) && Distinct(mf) && |mf| == BytesToSectors(MapSize(n))
  }

  lemma SectorsHold(size: nat)
    ensures 512 * BytesToSectors(size) - 511 <= size <= 512 * BytesToSectors(size) || size == BytesToSectors(size) == 0
  {}

  /** The bytes of the file. */
  ghost function MapContents(disk: seq<Sector>, mf: seq<nat>, n: nat): (s: seq<Byte>)
    requires MapLaid(disk, mf, n)
    ensures |s| == MapSize(n)
  {
    SectorsHold(MapSize(n));
    Contents(disk, mf, MapSize(n))
  }

  /** The map that they stand for. */
  ghost function MapBits(disk: seq<Sector>, mf: seq<nat>, n: nat): (v: seq<bool>)
    requires MapLaid(disk, mf, n)
    ensures |v| == n
  {
    Spread(MapWords(MapContents(disk, mf, n)))[..n]
  }

  /** How many bits of a map of n are in whole sectors of its file. */
  function WholeBits(n: nat): (k: nat) {
    4096 * (MapSize(n) / SECTOR_SIZE)
  }

  /** The map of a file of which only the first k bits have been brought up to date. */
  ghost function Torn(was: seq<bool>, now: seq<bool>, k: nat): (v: seq<bool>)
    requires |was| == |now|
    ensures |v| == |was|
  {
    seq(|was|, j requires 0 <= j < |was| => if j < k then now[j] else was[j])
  }

  /** The file, if it is open, holds the map. */
  ghost predicate InStep(disk: seq<Sector>, used: seq<bool>, mf: seq<nat>) {
    mf == [] || (MapLaid(disk, mf, |used|) && MapBits(disk, mf, |used|) == used)
  }

  /** Only sectors of `mf` may differ. */
  ghost predicate Rewritten(disk: seq<Sector>, disk': seq<Sector>, mf: seq<nat>) {
    |disk'| == |disk| && forall s :: 0 <= s < |disk| && s !in mf ==> disk'[s] == disk[s]
  }

  ghost predicate SameOn(disk: seq<Sector>, disk': seq<Sector>, mf: seq<nat>) {
    |disk'| == |disk| && forall s :: s in mf && s < |disk| ==> disk'[s] == disk[s]
  }

  lemma SameContents(disk: seq<Sector>, disk': seq<Sector>, flat: seq<nat>, n: nat)
    requires SameOn(disk, disk', flat) && OnDisk(disk, flat) && n <= 512 * |flat|
    ensures OnDisk(disk', flat) && Contents(disk', flat, n) == Contents(disk, flat, n)
  {
    forall p | 0 <= p < n ensures ByteAt(disk', flat, p) == ByteAt(disk, flat, p) {
      assert flat[p / 512] in flat;
    }
  }

  lemma InStepKept(disk: seq<Sector>, disk': seq<Sector>, used: seq<bool>, mf: seq<nat>)
    requires SameOn(disk, disk', mf) && InStep(disk, used, mf)
    ensures InStep(disk', used, mf)
  {
    if mf != [] {
      SectorsHold(MapSize(|used|));
      SameContents(disk, disk', mf, MapSize(|used|));
    }
  }

  /** The file's bytes can stay the same only if the map does. */
  lemma OtherMapOtherBytes(disk: seq<Sector>, disk': seq<Sector>, used: seq<bool>, used': seq<bool>, mf: seq<nat>)
    requires mf != [] && |used| == |used'| && InStep(disk, used, mf) && InStep(disk', used', mf) && used != used'
    ensures MapContents(disk, mf, |used|) != MapContents(disk', mf, |used|)
  {}

  lemma WordLocal(s: seq<Byte>, t: seq<Byte>, w: nat)
    requires |s| == |t| && |s| % 4 == 0 && 4 * w + 4 <= |s| && s[4*w..4*w+4] == t[4*w..4*w+4]
    ensures MapWords(s)[w] == MapWords(t)[w]
  {
    hide Joined, FromByte;
    var x, y := s[4*w..4*w+4], t[4*w..4*w+4];
    assert s[4*w] == x[0] && s[4*w+1] == x[1] && s[4*w+2] == x[2] && s[4*w+3] == x[3];
    assert t[4*w] == y[0] && t[4*w+1] == y[1] && t[4*w+2] == y[2] && t[4*w+3] == y[3];
  }

  /** Word w of the file's map, after k words of ws are written over it. */
  lemma PartWord(s: seq<Byte>, s': seq<Byte>, ws: seq<bv32>, k: nat, w: nat)
    requires |s| == |s'| == 4 * |ws| && k <= |ws| && w < |ws|
    requires forall p :: 0 <= p < |s| ==> s'[p] == if p < 4 * k then MapBytes(ws)[p] else s[p]
    ensures MapWords(s')[w] == if w < k then ws[w] else MapWords(s)[w]
  {
    hide MapBytes, MapWords;
    MapRoundTrip(ws);
    WordLocal(s', if w < k then MapBytes(ws) else s, w);
  }

  lemma PartContents(disk: seq<Sector>, disk': seq<Sector>, mf: seq<nat>, n: nat, d: seq<Byte>)
    requires MapLaid(disk, mf, n) && Patched(disk, disk', mf, 0, d) && |d| <= MapSize(n)
    ensures MapLaid(disk', mf, n)
    ensures var s, s' := MapContents(disk, mf, n), MapContents(disk', mf, n);
            forall p :: 0 <= p < MapSize(n) ==> s'[p] == if p < |d| then d[p] else s[p]
  {
    hide ByteAt;
    SectorsHold(MapSize(n));
  }

  /** The map in the file, after k words of ws are written to it: those words, and what
      was there. */
  lemma PartBits(disk: seq<Sector>, disk': seq<Sector>, mf: seq<nat>, n: nat, ws: seq<bv32>, k: nat)
    requires MapLaid(disk, mf, n) && 4 * |ws| == MapSize(n) && k <= |ws|
    requires Patched(disk, disk', mf, 0, MapBytes(ws)[..4 * k])
    ensures MapLaid(disk', mf, n)
    ensures forall j :: 0 <= j < n ==>
              MapBits(disk', mf, n)[j] == if j < 32 * k then Spread(ws)[j] else MapBits(disk, mf, n)[j]
  {
    hide MapBytes, MapWords, MapContents, Patched, TestBit;
    PartContents(disk, disk', mf, n, MapBytes(ws)[..4 * k]);
    hide MapLaid;
    forall j | 0 <= j < n
      ensures MapBits(disk', mf, n)[j] == if j < 32 * k then Spread(ws)[j] else MapBits(disk, mf, n)[j]
    {
      PartWord(MapContents(disk, mf, n), MapContents(disk', mf, n), ws, k, j / 32);
    }
  }
}
