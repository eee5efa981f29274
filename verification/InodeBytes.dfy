/**
  The byte string that an inode's data sectors hold, and what reading, growing and
  writing do to it (filesys/inode.c).
 */
module InodeBytes {
  import opened Order
  import opened Bits
  import opened InodeLayout

  ghost predicate OnDisk(disk: seq<Sector>, flat: seq<nat>) {
    forall i :: 0 <= i < |flat| ==> flat[i] < |disk|
  }

  ghost function ByteAt(disk: seq<Sector>, flat: seq<nat>, p: nat): (b: Byte)
    requires OnDisk(disk, flat) && p < SECTOR_SIZE * |flat|
  {
    disk[flat[p / SECTOR_SIZE]][p % SECTOR_SIZE]
  }

  /** The first n bytes of the file. */
  ghost function Contents(disk: seq<Sector>, flat: seq<nat>, n: nat): (s: seq<Byte>)
    requires OnDisk(disk, flat) && n <= SECTOR_SIZE * |flat|
    ensures |s| == n && forall p :: 0 <= p < n ==> s[p] == ByteAt(disk, flat, p)
  {
    seq(n, p requires 0 <= p < n => ByteAt(disk, flat, p))
  }

  /** s cut or padded with zeros to n bytes, and then overwritten at `at` by d. */
  ghost function Extended(s: seq<Byte>, n: nat): (r: seq<Byte>)
    ensures |r| == n
  {
    seq(n, p requires 0 <= p < n => if p < |s| then s[p] else 0)
  }

  ghost function Overwritten(s: seq<Byte>, at: nat, d: seq<Byte>): (r: seq<Byte>)
    requires at + |d| <= |s| || d == []
    ensures |r| == |s|
  {
    if d == [] then s else s[..at] + d + s[at + |d|..]
  }

  /** The bytes of s from m on are all zero. */
  ghost predicate ZerosFrom(s: seq<Byte>, m: nat) {
    forall p :: m <= p < |s| ==> s[p] == 0
  }

  lemma LaidOnDisk(disk: seq<Sector>, used: seq<bool>, ptr: seq<Word>, flat: seq<nat>, inner: seq<nat>)
    requires Laid(disk, used, ptr, flat, inner)
    ensures |ptr| == DIRECT_BLOCK_SIZE && OnDisk(disk, flat) && Distinct(flat)
  {}

  // ---- Finding a sector ----------------------------------------------------

  lemma LookupSingle(disk: seq<Sector>, used: seq<bool>, ptr: seq<Word>, flat: seq<nat>, inner: seq<nat>, i: nat)
    requires Laid(disk, used, ptr, flat, inner) && 10 <= i < |flat| && i < 138
    ensures ptr[10] < |disk| && Decode(disk[ptr[10]])[i - 10] == flat[i]
  {
    hide Decode;
  }

  lemma LookupDouble(disk: seq<Sector>, used: seq<bool>, ptr: seq<Word>, flat: seq<nat>, inner: seq<nat>, i: nat)
    requires Laid(disk, used, ptr, flat, inner) && 138 <= i < |flat|
    ensures ptr[11] < |disk| && (i - 138) / 128 < 128
    ensures var b := Decode(disk[ptr[11]])[(i - 138) / 128];
            b < |disk| && Decode(disk[b])[(i - 138) % 128] == flat[i]
  {
    hide Decode;
    var j, k := (i - 138) / 128, (i - 138) % 128;
    assert j < |inner|;
    assert InnerOk(Decode(disk[inner[j]]), flat, j);
    assert i == 138 + 128 * j + k;
  }

  // ---- Writing into a data sector ------------------------------------------

  lemma WriteChunk(disk: seq<Sector>, flat: seq<nat>, at: nat, d: seq<Byte>, v: Sector)
    requires OnDisk(disk, flat) && Distinct(flat) && at < SECTOR_SIZE * |flat| && at % 512 + |d| <= 512
    requires var was := disk[flat[at / 512]];
             forall q :: 0 <= q < 512 ==> v[q] == if at % 512 <= q < at % 512 + |d| then d[q - at % 512] else was[q]
    ensures var disk' := disk[flat[at / 512] := v];
            && OnDisk(disk', flat)
            && forall p :: 0 <= p < 512 * |flat| ==>
                 ByteAt(disk', flat, p) == if at <= p < at + |d| then d[p - at] else ByteAt(disk, flat, p)
  {
    var disk' := disk[flat[at / 512] := v];
    forall p | 0 <= p < 512 * |flat|
      ensures ByteAt(disk', flat, p) == if at <= p < at + |d| then d[p - at] else ByteAt(disk, flat, p)
    {
      SameSector(at, p, |d|);
    }
  }

  lemma SameSector(at: nat, p: nat, n: nat)
    requires at % 512 + n <= 512
    ensures at <= p < at + n ==> p / 512 == at / 512
    ensures p / 512 == at / 512 ==> p % 512 - at % 512 == p - at
  {}

  /** Rewriting a data sector disturbs no index block. */
  lemma LaidDataWrite(disk: seq<Sector>, used: seq<bool>, ptr: seq<Word>, flat: seq<nat>, inner: seq<nat>, i: nat, v: Sector)
    requires Laid(disk, used, ptr, flat, inner) && i < |flat|
    ensures flat[i] < |disk| && Laid(disk[flat[i] := v], used, ptr, flat, inner)
  {
    LaidElsewhere(disk, used, disk[flat[i] := v], used, ptr, flat, inner);
  }

  /** What inode_write_at writes to a sector that holds s for the bytes d at offset
      o: the bytes themselves if they fill it, else s, or zeros, with d copied in. */
  function PutChunk(s: Sector, o: nat, d: seq<Byte>): (v: Sector)
    requires o + |d| <= 512
    ensures forall q :: 0 <= q < 512 ==> v[q] == if o <= q < o + |d| then d[q - o] else s[q]
  {
    if o == 0 && |d| == SECTOR_SIZE then d
    else
      var bounce := if o > 0 || |d| < SECTOR_SIZE - o then s else Zeros();
      bounce[..o] + d + bounce[o + |d|..]
  }

  /** disk' differs from disk, byte by byte of the file, by d written at `at`. */
  ghost predicate Patched(disk: seq<Sector>, disk': seq<Sector>, flat: seq<nat>, at: nat, d: seq<Byte>) {
    && |disk'| == |disk| && OnDisk(disk, flat)
    && (forall p :: 0 <= p < 512 * |flat| ==>
          ByteAt(disk', flat, p) == if at <= p < at + |d| then d[p - at] else ByteAt(disk, flat, p))
    && (forall t :: 0 <= t < |disk| && t !in flat ==> disk'[t] == disk[t])
  }

  lemma PatchedNone(disk: seq<Sector>, flat: seq<nat>, at: nat)
    requires OnDisk(disk, flat)
    ensures Patched(disk, disk, flat, at, [])
  {}

  lemma PatchedMore(disk: seq<Sector>, disk': seq<Sector>, flat: seq<nat>, at: nat, d: seq<Byte>, e: seq<Byte>, p: nat, v: Sector)
    requires Patched(disk, disk', flat, at, d) && Distinct(flat)
    requires p == at + |d| && p < 512 * |flat| && p % 512 + |e| <= 512
    requires var was, o := disk'[flat[p / 512]], p % 512;
             forall q :: 0 <= q < 512 ==> v[q] == if o <= q < o + |e| then e[q - o] else was[q]
    ensures Patched(disk, disk'[flat[p / 512] := v], flat, at, d + e)
  {
    WriteChunk(disk', flat, p, e, v);
  }

  lemma PatchedFits(disk: seq<Sector>, disk': seq<Sector>, flat: seq<nat>, at: nat, d: seq<Byte>, p: nat)
    requires Patched(disk, disk', flat, at, d) && p < 512 * |flat|
    ensures p / 512 < |flat| && flat[p / 512] < |disk'|
  {
    hide ByteAt;
  }

  /** Writing the next bytes of a buffer into the sector that they go to. */
  lemma NextChunk(disk: seq<Sector>, disk': seq<Sector>, flat: seq<nat>, at: nat, buffer: seq<Byte>, done: nat, p: nat, k: nat)
    requires done + k <= |buffer| && k > 0 && p == at + done && p % 512 + k <= 512 && p + k <= 512 * |flat|
    requires Patched(disk, disk', flat, at, buffer[..done]) && Distinct(flat)
    ensures p / 512 < |flat| && flat[p / 512] < |disk'|
    ensures var t := flat[p / 512];
            var v := PutChunk(disk'[t], p % 512, buffer[done..done + k]);
            Patched(disk, disk'[t := v], flat, at, buffer[..done + k])
  {
    hide Patched, Distinct, ByteAt, PutChunk;
    var d, e := buffer[..done], buffer[done..done + k];
    PatchedFits(disk, disk', flat, at, d, p);
    PatchedMore(disk, disk', flat, at, d, e, p, PutChunk(disk'[flat[p / 512]], p % 512, e));
    assert d + e == buffer[..done + k];
  }

  lemma PatchedContents(disk: seq<Sector>, disk': seq<Sector>, flat: seq<nat>, at: nat, d: seq<Byte>)
    requires Patched(disk, disk', flat, at, d) && (at + |d| <= 512 * |flat| || d == [])
    ensures OnDisk(disk', flat)
    ensures Contents(disk', flat, 512 * |flat|) == Overwritten(Contents(disk, flat, 512 * |flat|), at, d)
  {
    hide ByteAt;
    var s, t := Contents(disk, flat, 512 * |flat|), Contents(disk', flat, 512 * |flat|);
    forall p | 0 <= p < 512 * |flat| ensures t[p] == Overwritten(s, at, d)[p] {
      assert t[p] == ByteAt(disk', flat, p);
    }
  }
}
