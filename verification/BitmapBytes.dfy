/**
  A bitmap as the bytes of a file (bitmap_read and bitmap_write of
  lib/kernel/bitmap.c): its words, least significant byte first.
 */
module BitmapBytes {
  import opened InodeLayout
  import opened BitmapWords

  function Low(w: bv32): (b: bv8) { (w & 0xff) as bv8 }

  function Down(w: bv32, a: bv6): (r: bv32)
    requires a <= 24
  {
    w >> a
  }

  /** The first bit of a word that byte k of it holds. */
  function FirstOf(k: nat): (a: bv6)
    requires k < 4
    ensures a <= 24
  {
    if k == 0 then 0 else if k == 1 then 8 else if k == 2 then 16 else 24
  }

  function Piece(w: bv32, k: nat): (b: bv8)
    requires k < 4
  {
    Low(Down(w, FirstOf(k)))
  }

  function Joined(a: bv8, b: bv8, c: bv8, d: bv8): (w: bv32) {
    (a as bv32) | ((b as bv32) << 8) | ((c as bv32) << 16) | ((d as bv32) << 24)
  }

  lemma JoinPieces(w: bv32)
    ensures Joined(Piece(w, 0), Piece(w, 1), Piece(w, 2), Piece(w, 3)) == w
  {}

  function ToByte(b: bv8): (r: Byte) { b as int }

  function FromByte(b: Byte): (r: bv8) { b as bv8 }

  lemma ByteRoundTrip(b: bv8)
    ensures FromByte(ToByte(b)) == b
  {}

  /** The bytes of an array of words. */
  function MapBytes(ws: seq<bv32>): (s: seq<Byte>)
    ensures |s| == 4 * |ws|
  {
    seq(4 * |ws|, i requires 0 <= i < 4 * |ws| => ToByte(Piece(ws[i / 4], i % 4)))
  }

  function MapWords(s: seq<Byte>): (ws: seq<bv32>)
    requires |s| % 4 == 0
    ensures |ws| == |s| / 4
  {
    seq(|s| / 4, k requires 0 <= k < |s| / 4 =>
      Joined(FromByte(s[4*k]), FromByte(s[4*k+1]), FromByte(s[4*k+2]), FromByte(s[4*k+3])))
  }

  lemma WordAt(ws: seq<bv32>, k: nat, i: nat)
    requires k < |ws| && i < 4
    ensures FromByte(MapBytes(ws)[4 * k + i]) == Piece(ws[k], i)
  {
    hide Piece, ToByte, FromByte;
    assert (4 * k + i) / 4 == k && (4 * k + i) % 4 == i;
    ByteRoundTrip(Piece(ws[k], i));
  }

  /** What is written is what is read back. */
  lemma MapRoundTrip(ws: seq<bv32>)
    ensures MapWords(MapBytes(ws)) == ws
  {
    hide MapBytes, MapWords;
    forall k | 0 <= k < |ws| ensures MapWords(MapBytes(ws))[k] == ws[k] {
      OneWord(ws, k);
    }
  }

  lemma OneWord(ws: seq<bv32>, k: nat)
    requires k < |ws|
    ensures MapWords(MapBytes(ws))[k] == ws[k]
  {
    hide Piece, FromByte, Joined, MapBytes;
    WordAt(ws, k, 0);
    WordAt(ws, k, 1);
    WordAt(ws, k, 2);
    WordAt(ws, k, 3);
    JoinPieces(ws[k]);
  }

  // ---- Which bit is where --------------------------------------------------

  predicate BitOf(b: bv8, j: bv6)
    requires j < 8
  {
    b & ((1 as bv8) << j) != 0
  }

  lemma LowBit(w: bv32, j: bv6)
    requires j < 8
    ensures BitOf(Low(w), j) <==> AndWord(w, Shifted(j)) != 0
  {}

  lemma DownBit(w: bv32, a: bv6, j: bv6)
    requires a <= 24 && j < 8
    ensures a + j < 32 && (AndWord(Down(w, a), Shifted(j)) != 0 <==> AndWord(w, Shifted(a + j)) != 0)
  {}

  lemma PieceBit(w: bv32, k: nat, j: bv6)
    requires k < 4 && j < 8
    ensures BitOf(Piece(w, k), j) <==> AndWord(w, Shifted(FirstOf(k) + j)) != 0
  {
    hide BitOf, Low, AndWord, Shifted, Down, FirstOf;
    DownBit(w, FirstOf(k), j);
    LowBit(Down(w, FirstOf(k)), j);
  }

  lemma SameBit(k: nat, j: nat)
    requires k < 4 && j < 8
    ensures (j as bv6) < 8 && (8 * k + j) as bv6 == FirstOf(k) + (j as bv6)
  {}

  /** Bit 8 * i + j of the map is bit j of byte i of its file. */
  lemma BitInFile(ws: seq<bv32>, i: nat, j: nat)
    requires i < 4 * |ws| && j < 8
    ensures (j as bv6) < 8 && Spread(ws)[8 * i + j] == BitOf(FromByte(MapBytes(ws)[i]), j as bv6)
  {
    hide BitOf, Piece, AndWord, Shifted, FirstOf, FromByte, ToByte;
    var w, k := i / 4, i % 4;
    WordAt(ws, w, k);
    SameBit(k, j);
    PieceBit(ws[w], k, j as bv6);
    assert (8 * i + j) / 32 == w && (8 * i + j) % 32 == 8 * k + j;
    ShiftRoundTrip(8 * k + j);
  }
}
