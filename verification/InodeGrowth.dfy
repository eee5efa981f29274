/**
  What growing an inode does to the device (filesys/inode.c): it only adds sectors,
  zeroes the new data sectors, and rewrites no sector that was in use except the
  inode's own index blocks and the free map's file.
 */
module InodeGrowth {
  import opened Order
  import opened Bits
  import opened InodeLayout
  import opened InodeBytes
  import opened MapFile

  /** A device, its free map, the sectors one inode owns on it, and the sectors of the
      free map's own file if it is open. */
  datatype Snap = Snap(disk: seq<Sector>, used: seq<bool>, flat: seq<nat>, meta: seq<nat>, mf: seq<nat>)

  /** The free map's file is on sectors in use, none of them the inode's. */
  ghost predicate Apart(a: Snap) {
    forall s :: s in a.mf ==> s < |a.used| && a.used[s] && s !in a.flat && s !in a.meta
  }

  ghost predicate Grown(a: Snap, b: Snap) {
    && |a.disk| == |a.used| == |b.used| == |b.disk|
    && a.flat <= b.flat && b.mf == a.mf
    && (forall s :: 0 <= s < |a.used| && a.used[s] ==>
          b.used[s] && (s in a.meta || s in a.mf || b.disk[s] == a.disk[s]))
    && (forall s :: 0 <= s < |a.used| && b.used[s] ==> a.used[s] || s in b.flat || s in b.meta)
    && (forall s :: s in b.meta ==> s in a.meta || (s < |a.used| && !a.used[s]))
    && (forall s :: s in a.meta ==> s in b.meta)
    && (forall i :: |a.flat| <= i < |b.flat| ==>
          b.flat[i] < |a.used| && !a.used[b.flat[i]] && b.disk[b.flat[i]] == Zeros())
    && FreeCount(b.used) + |b.flat| + |b.meta| == FreeCount(a.used) + |a.flat| + |a.meta|
    && (if b.used == a.used then SameOn(a.disk, b.disk, a.mf) else InStep(b.disk, b.used, b.mf))
  }

  lemma GrownRefl(a: Snap)
    requires |a.disk| == |a.used|
    ensures Grown(a, a)
  {
    hide InStep;
  }

  /** Growth leaves the inode's sectors apart from those of the free map's file, and the
      file in step. */
  lemma GrownApart(a: Snap, b: Snap)
    requires Grown(a, b) && Apart(a)
    ensures Apart(b) && (InStep(a.disk, a.used, a.mf) ==> InStep(b.disk, b.used, b.mf))
  {
    hide InStep;
    forall i | 0 <= i < |b.flat| ensures b.flat[i] !in a.mf {
      if i < |a.flat| {
        assert a.flat[i] == b.flat[i];
      }
    }
    if b.used == a.used && InStep(a.disk, a.used, a.mf) {
      InStepKept(a.disk, b.disk, a.used, a.mf);
    }
  }

  /** A data sector is allocated, the free map's file is rewritten, and the sector is
      zeroed. */
  lemma GrownData(a: Snap, b: Snap, s: nat, disk: seq<Sector>)
    requires Grown(a, b) && s < |b.used| && !b.used[s] && Separate(b.used, b.flat, b.meta) && Apart(a)
    requires Rewritten(b.disk, disk, a.mf) && InStep(disk, b.used[s := true], a.mf)
    ensures Grown(a, Snap(disk[s := Zeros()], b.used[s := true], b.flat + [s], b.meta, b.mf))
  {
    hide InStep;
    MarkOne(b.used, s);
    var c := Snap(disk[s := Zeros()], b.used[s := true], b.flat + [s], b.meta, b.mf);
    assert c.flat[|b.flat|] == s && c.used[s] && !a.used[s] && s !in a.mf;
    InStepKept(disk, c.disk, c.used, a.mf);
    NewZeros(a, b, s, disk);
    forall t | 0 <= t < |a.used| && c.used[t] ensures a.used[t] || t in c.flat || t in c.meta {
      assert t != s ==> b.used[t];
    }
    hide FreeCount, Separate;
  }

  lemma NewZeros(a: Snap, b: Snap, s: nat, disk: seq<Sector>)
    requires Grown(a, b) && s < |b.used| && !b.used[s] && Holds(b.used, b.flat) && Apart(a) && Rewritten(b.disk, disk, a.mf)
    ensures var flat, disk' := b.flat + [s], disk[s := Zeros()];
            forall i :: |a.flat| <= i < |flat| ==> flat[i] < |a.used| && !a.used[flat[i]] && disk'[flat[i]] == Zeros()
  {
    hide InStep, FreeCount;
    var flat, disk' := b.flat + [s], disk[s := Zeros()];
    forall i | |a.flat| <= i < |flat| ensures flat[i] < |a.used| && !a.used[flat[i]] && disk'[flat[i]] == Zeros() {
      if i < |b.flat| {
        assert b.flat[i] !in a.mf && b.flat[i] != s;
      }
    }
  }

  /** An index sector is allocated. */
  lemma GrownMeta(a: Snap, b: Snap, s: nat, disk: seq<Sector>)
    requires Grown(a, b) && s < |b.used| && !b.used[s] && Apart(a)
    requires Rewritten(b.disk, disk, a.mf) && InStep(disk, b.used[s := true], a.mf)
    ensures Grown(a, Snap(disk, b.used[s := true], b.flat, b.meta + [s], b.mf))
  {
    hide InStep;
    MarkOne(b.used, s);
    assert b.used[s := true][s] && !a.used[s];
    forall i | |a.flat| <= i < |b.flat| ensures disk[b.flat[i]] == Zeros() {
      assert b.flat[i] !in a.mf;
    }
  }

  /** An index sector is written. */
  lemma GrownWrite(a: Snap, b: Snap, m: nat, v: Sector)
    requires Grown(a, b) && m in b.meta && m < |b.disk| && Separate(b.used, b.flat, b.meta) && Apart(a)
    ensures Grown(a, Snap(b.disk[m := v], b.used, b.flat, b.meta, b.mf))
  {
    hide InStep;
    var k :| 0 <= k < |b.meta| && b.meta[k] == m;
    assert m !in a.mf;
    if b.used != a.used {
      InStepKept(b.disk, b.disk[m := v], b.used, a.mf);
    }
  }

  /** Sectors free or owned by the inode: growth moves them from one to the other. */
  ghost function Room(a: Snap): (n: nat) {
    FreeCount(a.used) + |a.flat| + |a.meta|
  }

  // ---- The stages of inode_grow, from the device a it started on ------------

  ghost predicate LaidStage(a: Snap, disk: seq<Sector>, used: seq<bool>, ptr: seq<Word>, flat: seq<nat>, inner: seq<nat>) {
    && Laid(disk, used, ptr, flat, inner)
    && Apart(a) && Grown(a, Snap(disk, used, flat, Meta(ptr, |flat|, inner), a.mf))
  }

  ghost predicate SingleStage(a: Snap, disk: seq<Sector>, used: seq<bool>, ptr: seq<Word>, flat: seq<nat>, block: Block) {
    && SingleBuilding(disk, used, ptr, flat, block)
    && Apart(a) && Grown(a, Snap(disk, used, flat, [ptr[FIRST_LEV_INDEX]], a.mf))
  }

  ghost predicate DoubleStage(a: Snap, disk: seq<Sector>, used: seq<bool>, ptr: seq<Word>, flat: seq<nat>, inner: seq<nat>,
                              outer: Block)
  {
    && DoubleBuilding(disk, used, ptr, flat, inner, outer)
    && Apart(a) && Grown(a, Snap(disk, used, flat, [ptr[FIRST_LEV_INDEX], ptr[SECOND_LEV_INDEX]] + inner, a.mf))
  }

  ghost predicate InnerStage(a: Snap, disk: seq<Sector>, used: seq<bool>, ptr: seq<Word>, flat: seq<nat>, inner: seq<nat>,
                             outer: Block, block: Block)
  {
    && InnerBuilding(disk, used, ptr, flat, inner, outer, block)
    && Apart(a) && Grown(a, Snap(disk, used, flat, [ptr[FIRST_LEV_INDEX], ptr[SECOND_LEV_INDEX]] + inner, a.mf))
  }

  lemma MetaCountIs(ptr: seq<Word>, n: nat, inner: seq<nat>)
    requires |ptr| == DIRECT_BLOCK_SIZE && |inner| == InnerCount(n)
    ensures |Meta(ptr, n, inner)| == MetaCount(n)
  {}

  lemma MetaCountMono(n: nat, m: nat)
    requires n <= m
    ensures MetaCount(n) <= MetaCount(m)
    ensures m > FIRST_LEV_INDEX ==> MetaCount(m) >= 1
    ensures m > SINGLE_END ==> MetaCount(m) == 2 + InnerCount(m) && InnerCount(m) >= InnerCount(n)
  {}

  lemma LaidStageFacts(a: Snap, disk: seq<Sector>, used: seq<bool>, ptr: seq<Word>, flat: seq<nat>, inner: seq<nat>, target: nat)
    requires LaidStage(a, disk, used, ptr, flat, inner)
    ensures |ptr| == DIRECT_BLOCK_SIZE && |disk| == |used| && |flat| <= CAPACITY && |inner| == InnerCount(|flat|)
    ensures |flat| <= SINGLE_END ==> inner == []
    ensures |flat| > FIRST_LEV_INDEX ==> ptr[FIRST_LEV_INDEX] < |disk|
    ensures |flat| > SINGLE_END ==> ptr[SECOND_LEV_INDEX] < |disk|
    ensures |flat| < target && target + MetaCount(target) <= Room(a) ==> FreeCount(used) > 0
  {
    MetaCountIs(ptr, |flat|, inner);
    if |flat| <= target {
      MetaCountMono(|flat|, target);
    }
  }

  /** What an allocation does: sector s was free, is marked, and the free map's file may
      have been rewritten. */
  ghost predicate Marked(a: Snap, disk: seq<Sector>, disk': seq<Sector>, used: seq<bool>, s: Word) {
    s < |used| && !used[s] && Rewritten(disk, disk', a.mf) && InStep(disk', used[s := true], a.mf)
  }

  /** Rewriting the free map's file disturbs no index block. */
  lemma MarkedElsewhere(a: Snap, b: Snap, disk': seq<Sector>, s: Word)
    requires Apart(a) && Grown(a, b) && Marked(a, b.disk, disk', b.used, s)
    ensures |disk'| == |b.disk| && forall t :: t in b.meta && t < |b.disk| ==> disk'[t] == b.disk[t]
  {
    hide InStep;
  }

  lemma LaidMarked(a: Snap, disk: seq<Sector>, disk': seq<Sector>, used: seq<bool>, ptr: seq<Word>, flat: seq<nat>, inner: seq<nat>, s: Word)
    requires LaidStage(a, disk, used, ptr, flat, inner) && Marked(a, disk, disk', used, s)
    ensures Laid(disk', used, ptr, flat, inner)
  {
    hide InStep, Grown, Decode;
    var m := Meta(ptr, |flat|, inner);
    MarkedElsewhere(a, Snap(disk, used, flat, m, a.mf), disk', s);
    forall t | t in m ensures t < |used| && used[t] && disk'[t] == disk[t] {
      var k :| 0 <= k < |m| && m[k] == t;
    }
    LaidElsewhere(disk, used, disk', used, ptr, flat, inner);
  }

  lemma DirectStageStep(a: Snap, disk: seq<Sector>, disk': seq<Sector>, used: seq<bool>, ptr: seq<Word>, flat: seq<nat>, s: Word)
    requires LaidStage(a, disk, used, ptr, flat, []) && |flat| < FIRST_LEV_INDEX && Marked(a, disk, disk', used, s)
    ensures LaidStage(a, disk'[s := Zeros()], used[s := true], ptr[|flat| := s], flat + [s], [])
  {
    hide Grown, InStep;
    LaidMarked(a, disk, disk', used, ptr, flat, [], s);
    LaidDirectStep(disk', used, ptr, flat, s);
    GrownData(a, Snap(disk, used, flat, [], a.mf), s, disk');
  }

  lemma SingleStageNew(a: Snap, disk: seq<Sector>, disk': seq<Sector>, used: seq<bool>, ptr: seq<Word>, flat: seq<nat>, s: Word, block: Block)
    requires LaidStage(a, disk, used, ptr, flat, []) && |flat| == FIRST_LEV_INDEX && Marked(a, disk, disk', used, s)
    ensures SingleStage(a, disk', used[s := true], ptr[FIRST_LEV_INDEX := s], flat, block)
  {
    hide Grown, InStep;
    LaidMarked(a, disk, disk', used, ptr, flat, [], s);
    SingleStartNew(disk', used, ptr, flat, s, block);
    GrownMeta(a, Snap(disk, used, flat, [], a.mf), s, disk');
    assert [] + [s] == [s];
  }

  lemma SingleStageOld(a: Snap, disk: seq<Sector>, used: seq<bool>, ptr: seq<Word>, flat: seq<nat>)
    requires LaidStage(a, disk, used, ptr, flat, []) && FIRST_LEV_INDEX < |flat| < SINGLE_END
    ensures ptr[FIRST_LEV_INDEX] < |disk|
    ensures SingleStage(a, disk, used, ptr, flat, Decode(disk[ptr[FIRST_LEV_INDEX]]))
  {
    hide Grown, Decode;
    SingleStartOld(disk, used, ptr, flat);
  }

  lemma SingleStageStep(a: Snap, disk: seq<Sector>, disk': seq<Sector>, used: seq<bool>, ptr: seq<Word>, flat: seq<nat>, block: Block, s: Word)
    requires SingleStage(a, disk, used, ptr, flat, block) && |flat| < SINGLE_END && Marked(a, disk, disk', used, s)
    ensures SingleStage(a, disk'[s := Zeros()], used[s := true], ptr, flat + [s], block[|flat| - FIRST_LEV_INDEX := s])
  {
    hide Grown, InStep;
    SingleStep(disk', used, ptr, flat, block, s);
    GrownData(a, Snap(disk, used, flat, [ptr[FIRST_LEV_INDEX]], a.mf), s, disk');
  }

  lemma SingleStageFacts(a: Snap, disk: seq<Sector>, used: seq<bool>, ptr: seq<Word>, flat: seq<nat>, block: Block, target: nat)
    requires SingleStage(a, disk, used, ptr, flat, block)
    ensures |ptr| == DIRECT_BLOCK_SIZE && |disk| == |used| && ptr[FIRST_LEV_INDEX] < |disk|
    ensures FIRST_LEV_INDEX <= |flat| <= SINGLE_END
    ensures |flat| < target && target + MetaCount(target) <= Room(a) ==> FreeCount(used) > 0
  {
    assert [ptr[FIRST_LEV_INDEX]][0] == ptr[FIRST_LEV_INDEX];
  }

  lemma SingleStageFinish(a: Snap, disk: seq<Sector>, used: seq<bool>, ptr: seq<Word>, flat: seq<nat>, block: Block)
    requires SingleStage(a, disk, used, ptr, flat, block) && |flat| > FIRST_LEV_INDEX
    ensures ptr[FIRST_LEV_INDEX] < |disk|
    ensures LaidStage(a, disk[ptr[FIRST_LEV_INDEX] := Encode(block)], used, ptr, flat, [])
  {
    hide Grown, Encode;
    SingleFinish(disk, used, ptr, flat, block);
    GrownWrite(a, Snap(disk, used, flat, [ptr[FIRST_LEV_INDEX]], a.mf), ptr[FIRST_LEV_INDEX], Encode(block));
  }

  lemma DoubleStageNew(a: Snap, disk: seq<Sector>, disk': seq<Sector>, used: seq<bool>, ptr: seq<Word>, flat: seq<nat>, s: Word, outer: Block)
    requires LaidStage(a, disk, used, ptr, flat, []) && |flat| == SINGLE_END && Marked(a, disk, disk', used, s)
    ensures DoubleStage(a, disk', used[s := true], ptr[SECOND_LEV_INDEX := s], flat, [], outer)
  {
    hide Grown, InStep;
    LaidMarked(a, disk, disk', used, ptr, flat, [], s);
    DoubleStartNew(disk', used, ptr, flat, s, outer);
    GrownMeta(a, Snap(disk, used, flat, [ptr[FIRST_LEV_INDEX]], a.mf), s, disk');
    assert [ptr[FIRST_LEV_INDEX]] + [s] == [ptr[FIRST_LEV_INDEX], s] + [];
  }

  lemma DoubleStageOld(a: Snap, disk: seq<Sector>, used: seq<bool>, ptr: seq<Word>, flat: seq<nat>, inner: seq<nat>)
    requires LaidStage(a, disk, used, ptr, flat, inner) && |flat| > SINGLE_END
    ensures ptr[SECOND_LEV_INDEX] < |disk|
    ensures DoubleStage(a, disk, used, ptr, flat, inner, Decode(disk[ptr[SECOND_LEV_INDEX]]))
  {
    hide Grown, Decode;
    DoubleStartOld(disk, used, ptr, flat, inner);
  }

  lemma DoubleStageFacts(a: Snap, disk: seq<Sector>, used: seq<bool>, ptr: seq<Word>, flat: seq<nat>, inner: seq<nat>,
                         outer: Block, target: nat)
    requires DoubleStage(a, disk, used, ptr, flat, inner, outer)
    ensures |ptr| == DIRECT_BLOCK_SIZE && |disk| == |used| && ptr[SECOND_LEV_INDEX] < |disk|
    ensures SINGLE_END <= |flat| <= CAPACITY && |inner| == InnerCount(|flat|)
    ensures |flat| < target && target + MetaCount(target) <= Room(a) ==> FreeCount(used) > 0
  {
    var m := [ptr[FIRST_LEV_INDEX], ptr[SECOND_LEV_INDEX]] + inner;
    assert m[1] == ptr[SECOND_LEV_INDEX];
    if |flat| <= target {
      MetaCountMono(|flat|, target);
    }
  }

  lemma InnerStageNew(a: Snap, disk: seq<Sector>, disk': seq<Sector>, used: seq<bool>, ptr: seq<Word>, flat: seq<nat>, inner: seq<nat>,
                      outer: Block, s: Word, block: Block)
    requires DoubleStage(a, disk, used, ptr, flat, inner, outer) && |flat| < CAPACITY && Marked(a, disk, disk', used, s)
    requires (|flat| - SINGLE_END) % INDEX_BLOCK_SIZE == 0
    ensures |inner| == (|flat| - SINGLE_END) / INDEX_BLOCK_SIZE < INDEX_BLOCK_SIZE
    ensures InnerStage(a, disk', used[s := true], ptr, flat, inner + [s], outer[|inner| := s], block)
  {
    hide Grown, InStep;
    var m := [ptr[FIRST_LEV_INDEX], ptr[SECOND_LEV_INDEX]];
    var b := Snap(disk, used, flat, m + inner, a.mf);
    hide DoubleBase;
    MarkedElsewhere(a, b, disk', s);
    DoubleElsewhere(disk, disk', used, ptr, flat, inner, outer, |inner|);
    InnerStartNew(disk', used, ptr, flat, inner, outer, s, block);
    GrownMeta(a, b, s, disk');
    assert m + inner + [s] == m + (inner + [s]);
  }

  lemma InnerStageOld(a: Snap, disk: seq<Sector>, used: seq<bool>, ptr: seq<Word>, flat: seq<nat>, inner: seq<nat>, outer: Block)
    requires DoubleStage(a, disk, used, ptr, flat, inner, outer)
    requires (|flat| - SINGLE_END) % INDEX_BLOCK_SIZE != 0
    ensures |inner| - 1 == (|flat| - SINGLE_END) / INDEX_BLOCK_SIZE < INDEX_BLOCK_SIZE && outer[|inner|-1] < |disk|
    ensures InnerStage(a, disk, used, ptr, flat, inner, outer, Decode(disk[outer[|inner|-1]]))
  {
    hide Grown, Decode;
    InnerStartOld(disk, used, ptr, flat, inner, outer);
  }

  lemma InnerStageStep(a: Snap, disk: seq<Sector>, disk': seq<Sector>, used: seq<bool>, ptr: seq<Word>, flat: seq<nat>, inner: seq<nat>,
                       outer: Block, block: Block, i: nat, s: Word)
    requires InnerStage(a, disk, used, ptr, flat, inner, outer, block) && Marked(a, disk, disk', used, s)
    requires |flat| < CAPACITY && |flat| == SINGLE_END + INDEX_BLOCK_SIZE * (|inner| - 1) + i && i < INDEX_BLOCK_SIZE
    ensures InnerStage(a, disk'[s := Zeros()], used[s := true], ptr, flat + [s], inner, outer, block[i := s])
  {
    hide Grown, InStep;
    var b := Snap(disk, used, flat, [ptr[FIRST_LEV_INDEX], ptr[SECOND_LEV_INDEX]] + inner, a.mf);
    MarkedElsewhere(a, b, disk', s);
    DoubleElsewhere(disk, disk', used, ptr, flat, inner, outer, |inner| - 1);
    InnerStep(disk', used, ptr, flat, inner, outer, block, s);
    hide InnerBuilding;
    InnerSeparate(disk, used, ptr, flat, inner, outer, block);
    GrownData(a, b, s, disk');
  }

  lemma InnerSeparate(disk: seq<Sector>, used: seq<bool>, ptr: seq<Word>, flat: seq<nat>, inner: seq<nat>, outer: Block, block: Block)
    requires InnerBuilding(disk, used, ptr, flat, inner, outer, block)
    ensures |ptr| == DIRECT_BLOCK_SIZE && Separate(used, flat, [ptr[FIRST_LEV_INDEX], ptr[SECOND_LEV_INDEX]] + inner)
  {}

  lemma InnerStageFacts(a: Snap, disk: seq<Sector>, used: seq<bool>, ptr: seq<Word>, flat: seq<nat>, inner: seq<nat>,
                        outer: Block, block: Block, target: nat)
    requires InnerStage(a, disk, used, ptr, flat, inner, outer, block)
    ensures |disk| == |used| && |ptr| == DIRECT_BLOCK_SIZE && 0 < |inner| <= INDEX_BLOCK_SIZE && outer[|inner|-1] < |disk|
    ensures SINGLE_END + INDEX_BLOCK_SIZE * (|inner| - 1) <= |flat| <= SINGLE_END + INDEX_BLOCK_SIZE * |inner|
    ensures |flat| < target && target + MetaCount(target) <= Room(a) ==> FreeCount(used) > 0
  {
    hide MetaCount, InStep, Decode, FreeCount;
    var m := [ptr[FIRST_LEV_INDEX], ptr[SECOND_LEV_INDEX]] + inner;
    assert m[|inner|+1] == inner[|inner|-1] == outer[|inner|-1];
    if |flat| < target {
      MetaCountMono(|flat| + 1, target);
      InnerRoom(|flat|, |inner|, target);
    }
  }

  lemma InnerRoom(n: nat, inner: nat, target: nat)
    requires inner > 0 && SINGLE_END + INDEX_BLOCK_SIZE * (inner - 1) <= n < target
    ensures n + 2 + inner < target + MetaCount(target)
  {
    MetaCountMono(n + 1, target);
  }

  lemma InnerStageFinish(a: Snap, disk: seq<Sector>, used: seq<bool>, ptr: seq<Word>, flat: seq<nat>, inner: seq<nat>,
                         outer: Block, block: Block)
    requires InnerStage(a, disk, used, ptr, flat, inner, outer, block)
    requires |flat| > SINGLE_END + INDEX_BLOCK_SIZE * (|inner| - 1)
    ensures outer[|inner|-1] < |disk|
    ensures DoubleStage(a, disk[outer[|inner|-1] := Encode(block)], used, ptr, flat, inner, outer)
  {
    hide Grown, Encode;
    InnerFinish(disk, used, ptr, flat, inner, outer, block);
    var m := [ptr[FIRST_LEV_INDEX], ptr[SECOND_LEV_INDEX]] + inner;
    assert m[|inner|+1] == inner[|inner|-1] == outer[|inner|-1];
    GrownWrite(a, Snap(disk, used, flat, m, a.mf), outer[|inner|-1], Encode(block));
  }

  lemma DoubleStageFinish(a: Snap, disk: seq<Sector>, used: seq<bool>, ptr: seq<Word>, flat: seq<nat>, inner: seq<nat>,
                          outer: Block)
    requires DoubleStage(a, disk, used, ptr, flat, inner, outer) && |flat| > SINGLE_END
    ensures ptr[SECOND_LEV_INDEX] < |disk|
    ensures LaidStage(a, disk[ptr[SECOND_LEV_INDEX] := Encode(outer)], used, ptr, flat, inner)
  {
    hide Grown, Encode;
    DoubleFinish(disk, used, ptr, flat, inner, outer);
    var m := [ptr[FIRST_LEV_INDEX], ptr[SECOND_LEV_INDEX]] + inner;
    assert m[1] == ptr[SECOND_LEV_INDEX];
    GrownWrite(a, Snap(disk, used, flat, m, a.mf), ptr[SECOND_LEV_INDEX], Encode(outer));
  }

  // ---- What growth does to the file's bytes --------------------------------

  /** Growing a file appends zero sectors to those it has. */
  lemma GrownContents(a: Snap, b: Snap)
    requires Grown(a, b) && Apart(a) && Separate(a.used, a.flat, a.meta) && OnDisk(a.disk, a.flat) && OnDisk(b.disk, b.flat)
    ensures Contents(b.disk, b.flat, 512 * |b.flat|) == Extended(Contents(a.disk, a.flat, 512 * |a.flat|), 512 * |b.flat|)
  {
    forall p | 0 <= p < 512 * |b.flat|
      ensures ByteAt(b.disk, b.flat, p) == if p < 512 * |a.flat| then ByteAt(a.disk, a.flat, p) else 0
    {
      GrownByte(a, b, p);
    }
    hide ByteAt, Grown, Separate;
  }

  lemma GrownByte(a: Snap, b: Snap, p: nat)
    requires Grown(a, b) && Apart(a) && Separate(a.used, a.flat, a.meta) && OnDisk(a.disk, a.flat) && OnDisk(b.disk, b.flat)
    requires p < 512 * |b.flat|
    ensures ByteAt(b.disk, b.flat, p) == if p < 512 * |a.flat| then ByteAt(a.disk, a.flat, p) else 0
  {
    var i := p / 512;
    if i < |a.flat| {
      assert a.flat[i] == b.flat[i];
    }
  }
}
