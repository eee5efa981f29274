/** What a byte of a file is after any number of writes (filesys/inode.c): what the last
    write that reached it put there. */
module FileHistory {
  import opened InodeLayout
  import opened InodeBytes
  import opened InodeIO

  /** How many of its bytes a write stores: all, or whole sectors only without a bounce
      buffer, and those only from a sector boundary on. */
  ghost function Put(w: Write): (n: nat)
    ensures n <= |w.data|
  {
    if w.memory then |w.data| else if w.offset % SECTOR_SIZE != 0 then 0 else |w.data| - |w.data| % SECTOR_SIZE
  }

  ghost predicate Covers(w: Write, p: nat) { w.offset <= p < w.offset + Put(w) }

  ghost function Longer(a: nat, b: nat): (n: nat) { if a > b then a else b }

  /** One write. */
  lemma OneWrite(t: seq<Byte>, w: Write, p: nat)
    ensures |FlatOne(t, w)| == Longer(|t|, w.offset + |w.data|)
    ensures p < |FlatOne(t, w)| ==>
              FlatOne(t, w)[p] == if Covers(w, p) then w.data[p - w.offset] else if p < |t| then t[p] else 0
  {
    var n := Longer(|t|, w.offset + |w.data|);
    assert Moved(|w.data|, w.offset, n, w.memory) == Put(w);
    assert FlatOne(t, w) == Overwritten(Extended(t, n), w.offset, w.data[..Put(w)]);
  }

  /** The file is as long as its furthest write, or as it was. */
  lemma {:induction false} LengthAfterWrites(s: seq<Byte>, ws: seq<Write>)
    ensures var n := |FlatWrites(s, ws)|;
            && |s| <= n && (forall i :: 0 <= i < |ws| ==> ws[i].offset + |ws[i].data| <= n)
            && (n == |s| || exists i :: 0 <= i < |ws| && n == ws[i].offset + |ws[i].data|)
  {
    if ws != [] {
      var m := |ws| - 1;
      LengthAfterWrites(s, ws[..m]);
      OneWrite(FlatWrites(s, ws[..m]), ws[m], 0);
      assert forall i :: 0 <= i < m ==> ws[..m][i] == ws[i];
    }
  }

  /** A byte is what the last write that covers it put there. */
  lemma {:induction false} LastWriteWins(s: seq<Byte>, ws: seq<Write>, i: nat, p: nat)
    requires i < |ws| && Covers(ws[i], p) && forall j :: i < j < |ws| ==> !Covers(ws[j], p)
    ensures p < |FlatWrites(s, ws)| && FlatWrites(s, ws)[p] == ws[i].data[p - ws[i].offset]
    decreases |ws|
  {
    hide Put, FlatOne;
    var m := |ws| - 1;
    OneWrite(FlatWrites(s, ws[..m]), ws[m], p);
    if i < m {
      assert ws[..m][i] == ws[i];
      LastWriteWins(s, ws[..m], i, p);
    }
  }

  /** A byte that no write covers is what it was, or 0 where the file has grown. */
  lemma {:induction false} NeverWritten(s: seq<Byte>, ws: seq<Write>, p: nat)
    requires (forall j :: 0 <= j < |ws| ==> !Covers(ws[j], p)) && p < |FlatWrites(s, ws)|
    ensures FlatWrites(s, ws)[p] == if p < |s| then s[p] else 0
    decreases |ws|
  {
    if ws != [] {
      var m := |ws| - 1;
      OneWrite(FlatWrites(s, ws[..m]), ws[m], p);
      if p < |FlatWrites(s, ws[..m])| {
        NeverWritten(s, ws[..m], p);
      } else {
        LengthAfterWrites(s, ws[..m]);
      }
    }
  }

  /** So it is with the sectors of a file, after any run of writes within its capacity. */
  lemma FileReadsLastWrite(f: File, ws: seq<Write>, i: nat, p: nat)
    requires FileClean(f) && forall j :: 0 <= j < |ws| ==> ws[j].offset + |ws[j].data| <= 512 * CAPACITY
    requires i < |ws| && Covers(ws[i], p) && forall j :: i < j < |ws| ==> !Covers(ws[j], p)
    ensures var g := AfterWrites(f, ws); p < g.length <= |g.backing| && g.backing[p] == ws[i].data[p - ws[i].offset]
  {
    hide FlatWrites, AfterWrites, Covers, Put;
    RunIsFlat(f, ws);
    LastWriteWins(f.backing[..f.length], ws, i, p);
    var g := AfterWrites(f, ws);
    assert g.backing[..g.length][p] == g.backing[p];
  }
}
