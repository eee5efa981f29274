/**
  Virtual addresses and page-table entries as the x86 lays them out
  (threads/vaddr.h, threads/pte.h).
 */
module PageBits {

  const PHYS_BASE: bv32 := 0xc000_0000
  const PTE_ADDR: bv32 := 0xffff_f000
  const PTE_P: bv32 := 0x1
  const PTE_W: bv32 := 0x2
  const PTE_U: bv32 := 0x4
  const PTE_A: bv32 := 0x20
  const PTE_D: bv32 := 0x40

  function PgOfs(va: bv32): (r: bv32) { va & 0xfff }
  function PgNo(va: bv32): (r: bv32) { va >> 12 }
  function PgRoundDown(va: bv32): (r: bv32) { va & !0xfff }
  function PgRoundUp(va: bv32): (r: bv32) { (va + 0xfff) & !0xfff }
  function PtNo(va: bv32): (r: bv10) { ((va & 0x3f_f000) >> 12) as bv10 }
  function PdNo(va: bv32): (r: bv10) { (va >> 22) as bv10 }

  /** The address with the given directory index, table index and offset. */
  function Address(d: bv10, t: bv10, ofs: bv32): (va: bv32) {
    ((d as bv32) << 22) | ((t as bv32) << 12) | ofs
  }

  predicate IsUser(va: bv32) { va < PHYS_BASE }

  /** The three parts of an address determine it, */
  lemma AddressWhole(va: bv32)
    ensures Address(PdNo(va), PtNo(va), PgOfs(va)) == va
    ensures PgOfs(va) < 4096
  {
  }

  /** and are determined by it. */
  lemma AddressParts(d: bv10, t: bv10, ofs: bv32)
    requires ofs < 4096
    ensures var va := Address(d, t, ofs); PdNo(va) == d && PtNo(va) == t && PgOfs(va) == ofs
  {
  }

  predicate SamePage(va: bv32, vb: bv32) { PgNo(va) == PgNo(vb) }

  function HighPart(n: bv32): (d: bv10) { ((n >> 10) & 0x3ff) as bv10 }
  function LowPart(n: bv32): (t: bv10) { (n & 0x3ff) as bv10 }
  function Joined(d: bv10, t: bv10): (n: bv32) { ((d as bv32) << 10) | (t as bv32) }

  lemma PageNumber(va: bv32)
    ensures PgNo(va) == Joined(PdNo(va), PtNo(va))
    ensures PdNo(va) == HighPart(PgNo(va)) && PtNo(va) == LowPart(PgNo(va))
  {
  }

  lemma SamePageIs(va: bv32, vb: bv32)
    ensures SamePage(va, vb) <==> PdNo(va) == PdNo(vb) && PtNo(va) == PtNo(vb)
  {
    hide PgNo, PdNo, PtNo, HighPart, LowPart, Joined;
    PageNumber(va);
    PageNumber(vb);
  }

  /** Rounding down is exact; rounding up wraps to 0 just above the last boundary. */
  lemma RoundDown(va: bv32)
    ensures PgRoundDown(va) <= va && PgOfs(PgRoundDown(va)) == 0 && va - PgRoundDown(va) == PgOfs(va)
  {
  }

  lemma RoundUp(va: bv32)
    ensures PgOfs(PgRoundUp(va)) == 0
    ensures va <= PgRoundUp(va) <==> va <= 0xffff_f000
    ensures va > 0xffff_f000 ==> PgRoundUp(va) == 0
    ensures PgRoundUp(va) - va < 4096
  {
  }

  function Ptov(pa: bv32): (va: bv32) { pa + PHYS_BASE }
  function Vtop(va: bv32): (pa: bv32) { va - PHYS_BASE }

  /** ptov and vtop are inverse; ptov gives a kernel address just for the first
      gigabyte, although its assertion admits three. */
  lemma PtovVtop(a: bv32)
    ensures Vtop(Ptov(a)) == a && Ptov(Vtop(a)) == a
    ensures !IsUser(Ptov(a)) <==> a < 0x4000_0000
  {
  }

  // ---- Entries -------------------------------------------------------------------

  function PdeCreate(pt: bv32): (e: bv32) { Vtop(pt) | PTE_U | PTE_P | PTE_W }
  function PdeGetPt(pde: bv32): (pt: bv32) { Ptov(pde & PTE_ADDR) }
  function PteCreateUser(page: bv32, writable: bool): (e: bv32) {
    Vtop(page) | PTE_P | (if writable then PTE_W else 0) | PTE_U
  }
  function PteGetPage(pte: bv32): (page: bv32) { Ptov(pte & PTE_ADDR) }

  /** The address in page that has va's offset. */
  function AtOffset(page: bv32, va: bv32): (r: bv32) { page + PgOfs(va) }

  predicate Has(e: bv32, bit: bv32) { e & bit != 0 }
  function With(e: bv32, bit: bv32, on: bool): (r: bv32) { if on then e | bit else e & !bit }

  lemma HasZero(bit: bv32)
    ensures !Has(0, bit)
  {
  }

  lemma PdeRoundTrip(pt: bv32)
    requires PgOfs(pt) == 0
    ensures PdeGetPt(PdeCreate(pt)) == pt && PdeCreate(pt) != 0
    ensures Has(PdeCreate(pt), PTE_P) && Has(PdeCreate(pt), PTE_U) && Has(PdeCreate(pt), PTE_W)
  {
  }

  lemma PteRoundTrip(page: bv32, writable: bool)
    requires PgOfs(page) == 0
    ensures var e := PteCreateUser(page, writable);
            && PteGetPage(e) == page && Has(e, PTE_P) && Has(e, PTE_U) && (Has(e, PTE_W) <==> writable)
            && !Has(e, PTE_A) && !Has(e, PTE_D)
  {
  }

  /** A frame starts on a page boundary, */
  lemma FrameAligned(pte: bv32)
    ensures PgOfs(PteGetPage(pte)) == 0
  {
  }

  /** so the address in it with va's offset has the frame's page and va's offset. */
  lemma AtOffsetParts(page: bv32, va: bv32)
    requires PgOfs(page) == 0
    ensures PgRoundDown(AtOffset(page, va)) == page && PgOfs(AtOffset(page, va)) == PgOfs(va)
  {
  }

  /** One of the five flags. */
  predicate Flag(bit: bv32) { bit in {PTE_P, PTE_W, PTE_U, PTE_A, PTE_D} }

  /** Changing a flag changes that flag only. */
  lemma WithOnly(e: bv32, bit: bv32, on: bool, other: bv32)
    requires Flag(bit) && Flag(other)
    ensures Has(With(e, bit, on), other) <==> if other == bit then on else Has(e, other)
    ensures PteGetPage(With(e, bit, on)) == PteGetPage(e)
  {
  }

  // ---- Indices -------------------------------------------------------------------

  function Index(x: bv10): (i: nat)
    ensures i < 1024
  {
    x as nat
  }

  lemma IndexOnce(a: bv10, b: bv10)
    ensures Index(a) == Index(b) <==> a == b
  {
  }

  function Halves(a: bv5, b: bv5): (x: bv10) { ((a as bv10) << 5) | (b as bv10) }

  lemma HalvesIndex(a: bv5, b: bv5)
    ensures Index(Halves(a, b)) == 32 * (a as int) + (b as int)
  {
  }

  lemma SmallRoundTrip(i: nat)
    requires i < 32
    ensures (i as bv5) as int == i
  {
  }

  /** The index i as it stands in an address. */
  function AtIndex(i: nat): (x: bv10)
    requires i < 1024
    ensures Index(x) == i
  {
    SmallRoundTrip(i / 32);
    SmallRoundTrip(i % 32);
    HalvesIndex((i / 32) as bv5, (i % 32) as bv5);
    Halves((i / 32) as bv5, (i % 32) as bv5)
  }

  /** User addresses are those of the first 768 tables: pd_no (PHYS_BASE) is 768. */
  lemma UserTables(va: bv32)
    ensures IsUser(va) <==> Index(PdNo(va)) < 768
  {
    assert IsUser(va) <==> PdNo(va) < 768;
  }
}
