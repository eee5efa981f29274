/**
  How an inode's data sectors are reached (filesys/inode.c, filesys/inode.h): ten
  direct pointers, one single-indirect and one double-indirect index block. `flat`
  is the sequence of data sectors in file order; `inner` the index blocks that the
  double-indirect block points to.
 */
module InodeLayout {
  import opened Order
  import opened Bits
  import Arithmetic

  const SECTOR_SIZE: nat := 512
  const FIRST_LEV_INDEX: nat := 10
  const SECOND_LEV_INDEX: nat := 11
  const DIRECT_BLOCK_SIZE: nat := 12
  const INDEX_BLOCK_SIZE: nat := 128
  const SINGLE_END: nat := 138
  const CAPACITY: nat := 16522

  type Byte = x: int | 0 <= x < 256
  type Word = x: int | 0 <= x < 0x1_0000_0000
  type Sector = s: seq<Byte> | |s| == 512 witness seq(512, i => 0)
  type Block = b: seq<Word> | |b| == 128 witness seq(128, i => 0)

  function Zeros(): (s: Sector)
    ensures forall i :: 0 <= i < 512 ==> s[i] == 0
  {
    seq(512, i => 0)
  }

  /** bytes_to_sectors */
  function BytesToSectors(size: nat): (n: nat) {
    (size + SECTOR_SIZE - 1) / SECTOR_SIZE
  }

  lemma BytesToSectorsMono(n: nat, m: nat)
    requires n <= m
    ensures BytesToSectors(n) <= BytesToSectors(m)
  {}

  // ---- Index blocks as sectors ---------------------------------------------

  function ByteOf(w: Word, i: nat): (b: Byte) {
    if i == 0 then w % 256 else if i == 1 then w / 256 % 256
    else if i == 2 then w / 65536 % 256 else w / 16777216 % 256
  }

  /** The bytes of a struct indexed_block, least significant byte first. */
  function Encode(b: Block): (s: Sector) {
    seq(512, i requires 0 <= i < 512 => ByteOf(b[i / 4], i % 4))
  }

  function Decode(s: Sector): (b: Block) {
    seq(128, k requires 0 <= k < 128 => WordOf(s[4*k], s[4*k+1], s[4*k+2], s[4*k+3]))
  }

  function WordOf(a: int, b: int, c: int, d: int): (w: Word)
    requires 0 <= a < 256 && 0 <= b < 256 && 0 <= c < 256 && 0 <= d < 256
  {
    a + 256 * b + 65536 * c + 16777216 * d
  }

  lemma DecodeEncode(b: Block)
    ensures Decode(Encode(b)) == b
  {
    forall k | 0 <= k < 128 ensures Decode(Encode(b))[k] == b[k] {
      EncodedWord(b, k);
      WordBytes(b[k]);
    }
  }

  lemma EncodedWord(b: Block, k: nat)
    requires k < 128
    ensures var s := Encode(b);
            && s[4*k] == ByteOf(b[k], 0) && s[4*k+1] == ByteOf(b[k], 1)
            && s[4*k+2] == ByteOf(b[k], 2) && s[4*k+3] == ByteOf(b[k], 3)
  {
    hide ByteOf;
  }

  lemma WordBytes(w: Word)
    ensures w == WordOf(ByteOf(w, 0), ByteOf(w, 1), ByteOf(w, 2), ByteOf(w, 3))
  {
    DivTwice(w, 256);
    DivTwice(w, 65536);
    var a, b, c := w / 256, w / 65536, w / 16777216;
    assert w == 256 * a + w % 256 && a == 256 * b + a % 256 && b == 256 * c + b % 256 && c < 256;
  }

  lemma DivTwice(w: Word, m: nat)
    requires m == 256 || m == 65536
    ensures w / m / 256 == w / (256 * m)
  {
    var a := w / m;
    var b := a / 256;
    assert w == m * a + w % m && a == 256 * b + a % 256;
    Arithmetic.DivUnique(w, 256 * m, b);
  }

  // ---- Ownership -----------------------------------------------------------

  /** Distinct sectors, all marked in the free map. */
  ghost predicate Holds(used: seq<bool>, xs: seq<nat>) {
    Distinct(xs) && forall i :: 0 <= i < |xs| ==> xs[i] < |used| && used[xs[i]]
  }

  ghost predicate Separate(used: seq<bool>, xs: seq<nat>, ys: seq<nat>) {
    Holds(used, xs) && Holds(used, ys) && forall i, j :: 0 <= i < |xs| && 0 <= j < |ys| ==> xs[i] != ys[j]
  }

  lemma SeparateGrowLeft(used: seq<bool>, xs: seq<nat>, ys: seq<nat>, s: nat)
    requires Separate(used, xs, ys) && s < |used| && !used[s]
    ensures Separate(used[s := true], xs + [s], ys)
  {}

  lemma SeparateGrowRight(used: seq<bool>, xs: seq<nat>, ys: seq<nat>, s: nat)
    requires Separate(used, xs, ys) && s < |used| && !used[s]
    ensures Separate(used[s := true], xs, ys + [s])
  {}

  // ---- The layout ----------------------------------------------------------

  ghost function InnerCount(n: nat): (k: nat) {
    if n <= SINGLE_END then 0 else (n - SINGLE_END + INDEX_BLOCK_SIZE - 1) / INDEX_BLOCK_SIZE
  }

  /** The index sectors of an inode with n data sectors. */
  ghost function Meta(ptr: seq<Word>, n: nat, inner: seq<nat>): (m: seq<nat>)
    requires |ptr| == DIRECT_BLOCK_SIZE
  {
    if n <= FIRST_LEV_INDEX then []
    else if n <= SINGLE_END then [ptr[FIRST_LEV_INDEX]]
    else [ptr[FIRST_LEV_INDEX], ptr[SECOND_LEV_INDEX]] + inner
  }

  ghost function MetaCount(n: nat): (k: nat) {
    if n <= FIRST_LEV_INDEX then 0 else if n <= SINGLE_END then 1 else 2 + InnerCount(n)
  }

  ghost predicate DirectOk(ptr: seq<Word>, flat: seq<nat>)
    requires |ptr| == DIRECT_BLOCK_SIZE
  {
    forall i :: 0 <= i < |flat| && i < FIRST_LEV_INDEX ==> ptr[i] == flat[i]
  }

  /** The block lists the data sectors that the single-indirect block serves. */
  ghost predicate SingleOk(block: Block, flat: seq<nat>) {
    forall i :: FIRST_LEV_INDEX <= i < |flat| && i < SINGLE_END ==> block[i - FIRST_LEV_INDEX] == flat[i]
  }

  /** The block lists the data sectors that inner index block j serves. */
  ghost predicate InnerOk(block: Block, flat: seq<nat>, j: nat) {
    forall k :: 0 <= k < INDEX_BLOCK_SIZE && SINGLE_END + INDEX_BLOCK_SIZE * j + k < |flat| ==>
      block[k] == flat[SINGLE_END + INDEX_BLOCK_SIZE * j + k]
  }

  ghost predicate OuterOk(block: Block, inner: seq<nat>) {
    |inner| <= INDEX_BLOCK_SIZE && forall j :: 0 <= j < |inner| ==> block[j] == inner[j]
  }

  /** The first `upto` inner index blocks are on disk. */
  ghost predicate InnersOk(disk: seq<Sector>, flat: seq<nat>, inner: seq<nat>, upto: nat)
    requires upto <= |inner|
  {
    forall j :: 0 <= j < upto ==> inner[j] < |disk| && InnerOk(Decode(disk[inner[j]]), flat, j)
  }

  /** The whole index structure is on disk and consistent. */
  ghost predicate Laid(disk: seq<Sector>, used: seq<bool>, ptr: seq<Word>, flat: seq<nat>, inner: seq<nat>) {
    && |disk| == |used| && |ptr| == DIRECT_BLOCK_SIZE && |flat| <= CAPACITY
    && |inner| == InnerCount(|flat|)
    && Separate(used, flat, Meta(ptr, |flat|, inner))
    && DirectOk(ptr, flat)
    && (|flat| > FIRST_LEV_INDEX ==>
          ptr[FIRST_LEV_INDEX] < |disk| && SingleOk(Decode(disk[ptr[FIRST_LEV_INDEX]]), flat))
    && (|flat| > SINGLE_END ==>
          ptr[SECOND_LEV_INDEX] < |disk| && OuterOk(Decode(disk[ptr[SECOND_LEV_INDEX]]), inner))
    && InnersOk(disk, flat, inner, |inner|)
  }

  lemma LaidDirectStep(disk: seq<Sector>, used: seq<bool>, ptr: seq<Word>, flat: seq<nat>, s: Word)
    requires Laid(disk, used, ptr, flat, []) && |flat| < FIRST_LEV_INDEX && s < |used| && !used[s]
    ensures Laid(disk[s := Zeros()], used[s := true], ptr[|flat| := s], flat + [s], [])
  {
    SeparateGrowLeft(used, flat, [], s);
  }

  // ---- Growing through the single-indirect block ---------------------------

  /** The single-indirect block is in memory, not yet written back. */
  ghost predicate SingleBuilding(disk: seq<Sector>, used: seq<bool>, ptr: seq<Word>, flat: seq<nat>, block: Block) {
    && |disk| == |used| && |ptr| == DIRECT_BLOCK_SIZE && FIRST_LEV_INDEX <= |flat| <= SINGLE_END
    && Separate(used, flat, [ptr[FIRST_LEV_INDEX]])
    && DirectOk(ptr, flat)
    && SingleOk(block, flat)
  }

  lemma SingleStartNew(disk: seq<Sector>, used: seq<bool>, ptr: seq<Word>, flat: seq<nat>, s: Word, block: Block)
    requires Laid(disk, used, ptr, flat, []) && |flat| == FIRST_LEV_INDEX && s < |used| && !used[s]
    ensures SingleBuilding(disk, used[s := true], ptr[FIRST_LEV_INDEX := s], flat, block)
  {
    SeparateGrowRight(used, flat, [], s);
    assert [] + [s] == [s];
  }

  lemma SingleStartOld(disk: seq<Sector>, used: seq<bool>, ptr: seq<Word>, flat: seq<nat>)
    requires Laid(disk, used, ptr, flat, []) && FIRST_LEV_INDEX < |flat| < SINGLE_END
    ensures SingleBuilding(disk, used, ptr, flat, Decode(disk[ptr[FIRST_LEV_INDEX]]))
  {}

  lemma SingleStep(disk: seq<Sector>, used: seq<bool>, ptr: seq<Word>, flat: seq<nat>, block: Block, s: Word)
    requires SingleBuilding(disk, used, ptr, flat, block) && |flat| < SINGLE_END && s < |used| && !used[s]
    ensures SingleBuilding(disk[s := Zeros()], used[s := true], ptr, flat + [s], block[|flat| - FIRST_LEV_INDEX := s])
  {
    SeparateGrowLeft(used, flat, [ptr[FIRST_LEV_INDEX]], s);
  }

  lemma SingleFinish(disk: seq<Sector>, used: seq<bool>, ptr: seq<Word>, flat: seq<nat>, block: Block)
    requires SingleBuilding(disk, used, ptr, flat, block) && |flat| > FIRST_LEV_INDEX
    ensures ptr[FIRST_LEV_INDEX] < |disk|
    ensures Laid(disk[ptr[FIRST_LEV_INDEX] := Encode(block)], used, ptr, flat, [])
  {
    DecodeEncode(block);
    assert [ptr[FIRST_LEV_INDEX]][0] == ptr[FIRST_LEV_INDEX];
  }

  // ---- Growing through the double-indirect block ---------------------------

  /** What the two double-indirect stages share; `upto` inner blocks are on disk. */
  ghost predicate DoubleBase(disk: seq<Sector>, used: seq<bool>, ptr: seq<Word>, flat: seq<nat>, inner: seq<nat>,
                             outer: Block, upto: nat)
  {
    && |disk| == |used| && |ptr| == DIRECT_BLOCK_SIZE && SINGLE_END <= |flat| <= CAPACITY
    && upto <= |inner|
    && Separate(used, flat, [ptr[FIRST_LEV_INDEX], ptr[SECOND_LEV_INDEX]] + inner)
    && DirectOk(ptr, flat)
    && ptr[FIRST_LEV_INDEX] < |disk| && SingleOk(Decode(disk[ptr[FIRST_LEV_INDEX]]), flat)
    && OuterOk(outer, inner)
    && InnersOk(disk, flat, inner, upto)
  }

  /** The double-indirect block is in memory, not yet written back. */
  ghost predicate DoubleBuilding(disk: seq<Sector>, used: seq<bool>, ptr: seq<Word>, flat: seq<nat>, inner: seq<nat>,
                                 outer: Block)
  {
    DoubleBase(disk, used, ptr, flat, inner, outer, |inner|) && |inner| == InnerCount(|flat|)
  }

  /** So is the last inner index block. */
  ghost predicate InnerBuilding(disk: seq<Sector>, used: seq<bool>, ptr: seq<Word>, flat: seq<nat>, inner: seq<nat>,
                                outer: Block, block: Block)
  {
    && |inner| > 0
    && DoubleBase(disk, used, ptr, flat, inner, outer, |inner| - 1)
    && SINGLE_END + INDEX_BLOCK_SIZE * (|inner| - 1) <= |flat| <= SINGLE_END + INDEX_BLOCK_SIZE * |inner|
    && InnerOk(block, flat, |inner| - 1)
  }

  lemma DoubleStartNew(disk: seq<Sector>, used: seq<bool>, ptr: seq<Word>, flat: seq<nat>, s: Word, outer: Block)
    requires Laid(disk, used, ptr, flat, []) && |flat| == SINGLE_END && s < |used| && !used[s]
    ensures DoubleBuilding(disk, used[s := true], ptr[SECOND_LEV_INDEX := s], flat, [], outer)
  {
    SeparateGrowRight(used, flat, [ptr[FIRST_LEV_INDEX]], s);
    assert [ptr[FIRST_LEV_INDEX]] + [s] == [ptr[FIRST_LEV_INDEX], s] + [];
  }

  lemma DoubleStartOld(disk: seq<Sector>, used: seq<bool>, ptr: seq<Word>, flat: seq<nat>, inner: seq<nat>)
    requires Laid(disk, used, ptr, flat, inner) && |flat| > SINGLE_END
    ensures DoubleBuilding(disk, used, ptr, flat, inner, Decode(disk[ptr[SECOND_LEV_INDEX]]))
  {}

  lemma InnerStartNew(disk: seq<Sector>, used: seq<bool>, ptr: seq<Word>, flat: seq<nat>, inner: seq<nat>,
                      outer: Block, s: Word, block: Block)
    requires DoubleBuilding(disk, used, ptr, flat, inner, outer) && |flat| < CAPACITY && s < |used| && !used[s]
    requires (|flat| - SINGLE_END) % INDEX_BLOCK_SIZE == 0
    ensures |inner| == (|flat| - SINGLE_END) / INDEX_BLOCK_SIZE < INDEX_BLOCK_SIZE
    ensures InnerBuilding(disk, used[s := true], ptr, flat, inner + [s], outer[|inner| := s], block)
  {
    var m := [ptr[FIRST_LEV_INDEX], ptr[SECOND_LEV_INDEX]];
    SeparateGrowRight(used, flat, m + inner, s);
    assert m + inner + [s] == m + (inner + [s]);
  }

  lemma InnerStartOld(disk: seq<Sector>, used: seq<bool>, ptr: seq<Word>, flat: seq<nat>, inner: seq<nat>, outer: Block)
    requires DoubleBuilding(disk, used, ptr, flat, inner, outer)
    requires (|flat| - SINGLE_END) % INDEX_BLOCK_SIZE != 0
    ensures |inner| - 1 == (|flat| - SINGLE_END) / INDEX_BLOCK_SIZE < INDEX_BLOCK_SIZE && outer[|inner|-1] < |disk|
    ensures InnerBuilding(disk, used, ptr, flat, inner, outer, Decode(disk[outer[|inner|-1]]))
  {
    assert inner[|inner|-1] < |disk|;
  }

  lemma InnerStep(disk: seq<Sector>, used: seq<bool>, ptr: seq<Word>, flat: seq<nat>, inner: seq<nat>,
                  outer: Block, block: Block, s: Word)
    requires InnerBuilding(disk, used, ptr, flat, inner, outer, block) && s < |used| && !used[s]
    requires |flat| < CAPACITY && |flat| < SINGLE_END + INDEX_BLOCK_SIZE * |inner|
    ensures InnerBuilding(disk[s := Zeros()], used[s := true], ptr, flat + [s], inner, outer,
                          block[|flat| - SINGLE_END - INDEX_BLOCK_SIZE * (|inner| - 1) := s])
  {
    var m := [ptr[FIRST_LEV_INDEX], ptr[SECOND_LEV_INDEX]] + inner;
    SeparateGrowLeft(used, flat, m, s);
    assert m[0] == ptr[FIRST_LEV_INDEX];
    forall j | 0 <= j < |inner| - 1
      ensures inner[j] < |disk| && InnerOk(Decode(disk[s := Zeros()][inner[j]]), flat + [s], j)
    {
      assert m[j+2] == inner[j] && inner[j] != s;
      assert SINGLE_END + INDEX_BLOCK_SIZE * (j + 1) <= |flat|;
    }
  }

  lemma InnerFinish(disk: seq<Sector>, used: seq<bool>, ptr: seq<Word>, flat: seq<nat>, inner: seq<nat>,
                    outer: Block, block: Block)
    requires InnerBuilding(disk, used, ptr, flat, inner, outer, block)
    requires |flat| > SINGLE_END + INDEX_BLOCK_SIZE * (|inner| - 1)
    ensures outer[|inner|-1] < |disk|
    ensures DoubleBuilding(disk[outer[|inner|-1] := Encode(block)], used, ptr, flat, inner, outer)
  {
    hide Encode, Decode;
    var m, t := [ptr[FIRST_LEV_INDEX], ptr[SECOND_LEV_INDEX]] + inner, |inner| - 1;
    DecodeEncode(block);
    assert m[t+2] == inner[t] == outer[t] && m[0] == ptr[FIRST_LEV_INDEX];
    forall j | 0 <= j < |inner|
      ensures inner[j] < |disk| && InnerOk(Decode(disk[inner[t] := Encode(block)][inner[j]]), flat, j)
    {
      assert m[j+2] == inner[j];
    }
  }

  lemma DoubleFinish(disk: seq<Sector>, used: seq<bool>, ptr: seq<Word>, flat: seq<nat>, inner: seq<nat>, outer: Block)
    requires DoubleBuilding(disk, used, ptr, flat, inner, outer) && |flat| > SINGLE_END
    ensures ptr[SECOND_LEV_INDEX] < |disk|
    ensures Laid(disk[ptr[SECOND_LEV_INDEX] := Encode(outer)], used, ptr, flat, inner)
  {
    hide Encode, Decode;
    var m := [ptr[FIRST_LEV_INDEX], ptr[SECOND_LEV_INDEX]] + inner;
    DecodeEncode(outer);
    assert m[0] == ptr[FIRST_LEV_INDEX] && m[1] == ptr[SECOND_LEV_INDEX];
    forall j | 0 <= j < |inner|
      ensures inner[j] < |disk| && InnerOk(Decode(disk[ptr[SECOND_LEV_INDEX] := Encode(outer)][inner[j]]), flat, j)
    {
      assert m[j+2] == inner[j];
    }
  }

  // ---- Writing elsewhere ---------------------------------------------------

  /** An index structure whose index blocks are untouched, and whose sectors are all
      still in use, stays laid out. */
  lemma LaidElsewhere(disk: seq<Sector>, used: seq<bool>, disk': seq<Sector>, used': seq<bool>,
                      ptr: seq<Word>, flat: seq<nat>, inner: seq<nat>)
    requires Laid(disk, used, ptr, flat, inner) && |disk'| == |disk| == |used'|
    requires forall i :: 0 <= i < |flat| ==> used'[flat[i]]
    requires forall t :: t in Meta(ptr, |flat|, inner) ==> t < |used'| && used'[t] && disk'[t] == disk[t]
    ensures Laid(disk', used', ptr, flat, inner)
  {
    hide Decode;
    var m := Meta(ptr, |flat|, inner);
    forall i | 0 <= i < |m| ensures m[i] in m {}
    if |flat| > 10 { assert m[0] == ptr[10]; }
    if |flat| > 138 {
      assert m[1] == ptr[11];
      forall j | 0 <= j < |inner| ensures inner[j] < |disk'| && InnerOk(Decode(disk'[inner[j]]), flat, j) {
        assert m[j+2] == inner[j];
      }
    }
  }

  /** So does one whose double-indirect block is in memory. */
  lemma DoubleElsewhere(disk: seq<Sector>, disk': seq<Sector>, used: seq<bool>, ptr: seq<Word>, flat: seq<nat>, inner: seq<nat>,
                        outer: Block, upto: nat)
    requires DoubleBase(disk, used, ptr, flat, inner, outer, upto) && |disk'| == |disk|
    requires forall t :: t in [ptr[FIRST_LEV_INDEX], ptr[SECOND_LEV_INDEX]] + inner && t < |disk| ==> disk'[t] == disk[t]
    ensures DoubleBase(disk', used, ptr, flat, inner, outer, upto)
  {
    hide Decode;
    var m := [ptr[FIRST_LEV_INDEX], ptr[SECOND_LEV_INDEX]] + inner;
    assert m[0] == ptr[FIRST_LEV_INDEX] && m[0] in m;
    forall j | 0 <= j < upto ensures inner[j] < |disk'| && InnerOk(Decode(disk'[inner[j]]), flat, j) {
      assert m[j+2] == inner[j] && m[j+2] in m;
    }
  }
}
