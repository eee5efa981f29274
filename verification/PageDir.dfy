/**
  Page directories (userprog/pagedir.c): a two-level table that stands for a map
  from user pages to frames. Page addresses are kernel virtual addresses.
 */
module PageDirs {
  import opened Bits
  import opened Order
  import opened PageBits

  const ENTRIES: nat := 1024

  /** pd_no (PHYS_BASE) */
  const USER_TABLES: nat := 768

  /** The address of a page that holds a page table or a directory. */
  datatype Pointer = Pointer(addr: bv32)

  function PtOf(pde: bv32): (at: Pointer) { Pointer(PdeGetPt(pde)) }

  /** The page tables and directories in memory. */
  type Tables = map<Pointer, seq<bv32>>

  ghost predicate TableAt(ts: Tables, at: Pointer) {
    at in ts && |ts[at]| == ENTRIES
  }

  /** Entry d of the directory is absent or leads to a table that no other leads to. */
  ghost predicate DirOk(ts: Tables, pd: Pointer) {
    && TableAt(ts, pd)
    && (forall d :: 0 <= d < ENTRIES && ts[pd][d] != 0 ==>
          Has(ts[pd][d], PTE_P) && PtOf(ts[pd][d]) != pd && TableAt(ts, PtOf(ts[pd][d])))
    && (forall d, c :: 0 <= d < c < ENTRIES && ts[pd][d] != 0 && ts[pd][c] != 0 ==>
          PtOf(ts[pd][d]) != PtOf(ts[pd][c]))
  }

  /** The page-table entry for va; 0 where there is no table. */
  ghost function EntryAt(ts: Tables, pd: Pointer, va: bv32): (e: bv32)
    requires DirOk(ts, pd)
  {
    var pde := ts[pd][Index(PdNo(va))];
    if pde == 0 then 0 else ts[PtOf(pde)][Index(PtNo(va))]
  }

  datatype Mapping = Mapping(frame: bv32, writable: bool)

  /** Where va's page is mapped: the map that the directory stands for. */
  ghost function Mapped(ts: Tables, pd: Pointer, va: bv32): (m: Option<Mapping>)
    requires DirOk(ts, pd)
  {
    var e := EntryAt(ts, pd, va);
    if Has(e, PTE_P) then Some(Mapping(PteGetPage(e), Has(e, PTE_W))) else None
  }

  /** va's entry is now e and every other page's entry is as it was. */
  ghost predicate Updated(ts: Tables, ts': Tables, pd: Pointer, va: bv32, e: bv32)
    requires DirOk(ts, pd) && DirOk(ts', pd)
  {
    forall vb {:trigger EntryAt(ts', pd, vb)} ::
      EntryAt(ts', pd, vb) == if SamePage(va, vb) then e else EntryAt(ts, pd, vb)
  }

  /** va's page is now mapped to m and every other page is mapped as it was. */
  ghost predicate MappedTo(ts: Tables, ts': Tables, pd: Pointer, va: bv32, m: Option<Mapping>)
    requires DirOk(ts, pd) && DirOk(ts', pd)
  {
    forall vb {:trigger Mapped(ts', pd, vb)} ::
      Mapped(ts', pd, vb) == if SamePage(va, vb) then m else Mapped(ts, pd, vb)
  }

  /** Writing one word of one table. */
  ghost function Stored(ts: Tables, at: Pointer, i: nat, e: bv32): (r: Tables)
    requires TableAt(ts, at) && i < ENTRIES
  {
    ts[at := ts[at][i := e]]
  }

  lemma StoredEntry(ts: Tables, pd: Pointer, va: bv32, e: bv32)
    requires DirOk(ts, pd) && ts[pd][Index(PdNo(va))] != 0
    ensures var r := Stored(ts, PtOf(ts[pd][Index(PdNo(va))]), Index(PtNo(va)), e);
            DirOk(r, pd) && Updated(ts, r, pd, va, e)
  {
    hide Index, PdNo, PtNo, SamePage, Has, PtOf;
    var d, t := Index(PdNo(va)), Index(PtNo(va));
    var r := Stored(ts, PtOf(ts[pd][d]), t, e);
    assert r[pd] == ts[pd];
    forall vb
      ensures EntryAt(r, pd, vb) == if SamePage(va, vb) then e else EntryAt(ts, pd, vb)
    {
      SamePageIs(va, vb);
      IndexOnce(PdNo(va), PdNo(vb));
      IndexOnce(PtNo(va), PtNo(vb));
    }
  }

  /** A new, zeroed table in an empty slot changes no entry. */
  lemma NewTable(ts: Tables, pd: Pointer, d: nat, pt: Pointer)
    requires DirOk(ts, pd) && d < ENTRIES && ts[pd][d] == 0 && PgOfs(pt.addr) == 0 && pt !in ts
    ensures var r := Stored(ts[pt := seq(ENTRIES, i => 0)], pd, d, PdeCreate(pt.addr));
            DirOk(r, pd) && r[pd][d] != 0 && PtOf(r[pd][d]) == pt && forall vb :: EntryAt(r, pd, vb) == EntryAt(ts, pd, vb)
  {
    hide Index, PdNo, PtNo, Has, PdeGetPt, PdeCreate, PgOfs;
    var r := Stored(ts[pt := seq(ENTRIES, i => 0)], pd, d, PdeCreate(pt.addr));
    PdeRoundTrip(pt.addr);
    assert forall c :: 0 <= c < ENTRIES && c != d ==> r[pd][c] == ts[pd][c];
    assert forall c :: 0 <= c < ENTRIES && ts[pd][c] != 0 ==> PtOf(ts[pd][c]) != pt;
    assert DirOk(r, pd);
  }

  ghost predicate SameEntries(ts: Tables, ts': Tables, pd: Pointer)
    requires DirOk(ts, pd) && DirOk(ts', pd)
  {
    forall vb {:trigger EntryAt(ts', pd, vb)} :: EntryAt(ts', pd, vb) == EntryAt(ts, pd, vb)
  }

  /** The pages that a change to va's entry may write. */
  ghost function Touched(ts: Tables, pd: Pointer, va: bv32): (s: set<Pointer>)
    requires DirOk(ts, pd)
  {
    var pde := ts[pd][Index(PdNo(va))];
    if pde == 0 then {pd} else {pd, PtOf(pde)}
  }

  ghost predicate Kept(ts: Tables, ts': Tables, touched: set<Pointer>) {
    forall at :: at in ts && at !in touched ==> at in ts' && ts'[at] == ts[at]
  }

  /** A directory that shares none of the written pages is undisturbed. */
  lemma OtherDirectory(ts: Tables, ts': Tables, touched: set<Pointer>, pd: Pointer)
    requires DirOk(ts, pd) && Kept(ts, ts', touched) && pd !in touched
    requires forall d :: 0 <= d < ENTRIES && ts[pd][d] != 0 ==> PtOf(ts[pd][d]) !in touched
    ensures DirOk(ts', pd) && SameEntries(ts, ts', pd)
  {
    hide Index, PdNo, PtNo, Has, PdeGetPt;
    assert ts'[pd] == ts[pd];
  }

  lemma UpdatedMapped(ts: Tables, ts': Tables, pd: Pointer, va: bv32, e: bv32, vb: bv32)
    requires DirOk(ts, pd) && DirOk(ts', pd) && Updated(ts, ts', pd, va, e)
    ensures Mapped(ts', pd, vb) ==
            if !SamePage(va, vb) then Mapped(ts, pd, vb)
            else if Has(e, PTE_P) then Some(Mapping(PteGetPage(e), Has(e, PTE_W))) else None
  {
    hide Has, PteGetPage, SamePage;
    assert EntryAt(ts', pd, vb) == if SamePage(va, vb) then e else EntryAt(ts, pd, vb);
  }

  lemma SamePageEntry(ts: Tables, pd: Pointer, va: bv32, vb: bv32)
    requires DirOk(ts, pd) && SamePage(va, vb)
    ensures EntryAt(ts, pd, va) == EntryAt(ts, pd, vb)
  {
    hide PdNo, PtNo, SamePage, PdeGetPt;
    SamePageIs(va, vb);
  }

  class PageTables {
    var ts: Tables

    /** lookup_page: where va's entry is; page is what the allocator would return. */
    method LookupPage(pd: Pointer, va: bv32, create: bool, page: Option<Pointer>) returns (slot: Option<(Pointer, nat)>)
      requires DirOk(ts, pd) && (create ==> IsUser(va))
      requires page.Some? ==> PgOfs(page.value.addr) == 0 && page.value !in ts
      modifies this
      ensures DirOk(ts, pd) && SameEntries(old(ts), ts, pd)
      ensures slot.None? <==> old(ts)[pd][Index(PdNo(va))] == 0 && (!create || page.None?)
      ensures slot.None? || !create || old(ts)[pd][Index(PdNo(va))] != 0 ==> ts == old(ts)
      ensures slot.Some? && old(ts)[pd][Index(PdNo(va))] == 0 ==> slot.value.0 == page.value
      ensures slot.Some? ==> ts[pd][Index(PdNo(va))] != 0
                             && slot.value == (PtOf(ts[pd][Index(PdNo(va))]), Index(PtNo(va)))
      ensures Kept(old(ts), ts, {pd}) && forall at :: at in ts ==> at in old(ts) || page == Some(at)
    {
      hide Index, PdNo, PtNo, Has, PdeGetPt, PdeCreate;
      var d := Index(PdNo(va));
      if ts[pd][d] == 0 {
        if !create || page.None? {
          return None;
        }
        var pt := page.value;
        NewTable(ts, pd, d, pt);
        ts := ts[pt := seq(ENTRIES, i => 0)];
        ts := ts[pd := ts[pd][d := PdeCreate(pt.addr)]];
      }
      return Some((PtOf(ts[pd][d]), Index(PtNo(va))));
    }

    /** *pte = e */
    method Store(pd: Pointer, ghost va: bv32, at: Pointer, i: nat, e: bv32)
      requires DirOk(ts, pd) && ts[pd][Index(PdNo(va))] != 0
      requires at == PtOf(ts[pd][Index(PdNo(va))]) && i == Index(PtNo(va))
      modifies this
      ensures DirOk(ts, pd) && Updated(old(ts), ts, pd, va, e) && Kept(old(ts), ts, Touched(old(ts), pd, va))
      ensures ts.Keys == old(ts).Keys
    {
      StoredEntry(ts, pd, va, e);
      ts := ts[at := ts[at][i := e]];
    }

    /** pagedir_create: a directory with the entries of the kernel's, or none if there is
        no page for it. */
    method Create(init: Pointer, page: Option<Pointer>) returns (pd: Option<Pointer>)
      requires DirOk(ts, init) && (page.Some? ==> page.value !in ts)
      modifies this
      ensures pd == page && (pd.None? ==> ts == old(ts))
      ensures pd.Some? ==> DirOk(ts, pd.value) && forall va :: EntryAt(ts, pd.value, va) == EntryAt(old(ts), init, va)
      ensures Kept(old(ts), ts, {})
    {
      hide Index, PdNo, PtNo, Has, PdeGetPt;
      if page.Some? {
        ts := ts[page.value := ts[init]];
        assert ts[page.value] == old(ts)[init];
      }
      return page;
    }

    /** pagedir_set_page */
    method SetPage(pd: Pointer, upage: bv32, kpage: bv32, writable: bool, page: Option<Pointer>) returns (ok: bool)
      requires DirOk(ts, pd) && PgOfs(upage) == 0 && PgOfs(kpage) == 0 && IsUser(upage) && !IsUser(kpage)
      requires page.Some? ==> PgOfs(page.value.addr) == 0 && page.value !in ts
      requires Mapped(ts, pd, upage).None?
      modifies this
      ensures DirOk(ts, pd) && Kept(old(ts), ts, Touched(old(ts), pd, upage))
      ensures forall at :: at in ts ==> at in old(ts) || page == Some(at)
      ensures ok ==> MappedTo(old(ts), ts, pd, upage, Some(Mapping(kpage, writable)))
      ensures !ok ==> ts == old(ts) && page.None?
    {
      hide Index, PdNo, PtNo, Has, PdeGetPt, PteCreateUser, SamePage, PgOfs, PteGetPage, EntryAt;
      var slot := LookupPage(pd, upage, true, page);
      if slot.None? {
        return false;
      }
      ghost var mid := ts;
      var e := PteCreateUser(kpage, writable);
      PteRoundTrip(kpage, writable);
      Store(pd, upage, slot.value.0, slot.value.1, e);
      forall vb
        ensures Mapped(ts, pd, vb) ==
                (if SamePage(upage, vb) then Some(Mapping(kpage, writable)) else Mapped(old(ts), pd, vb))
      {
        UpdatedMapped(mid, ts, pd, upage, e, vb);
        assert EntryAt(mid, pd, vb) == EntryAt(old(ts), pd, vb);
      }
      return true;
    }

    /** pagedir_get_page */
    method GetPage(pd: Pointer, uaddr: bv32) returns (r: Option<bv32>)
      requires DirOk(ts, pd) && IsUser(uaddr)
      modifies this
      ensures ts == old(ts)
      ensures match Mapped(ts, pd, uaddr)
              case Some(m) => r == Some(AtOffset(m.frame, uaddr)) && PgRoundDown(r.value) == m.frame && PgOfs(r.value) == PgOfs(uaddr)
              case None => r.None?
    {
      hide Index, PdNo, PtNo, PdeGetPt, PteGetPage, AtOffset, Has, SamePage, IsUser, PgOfs, PgRoundDown;
      HasZero(PTE_P);
      var slot := LookupPage(pd, uaddr, false, None);
      if slot.Some? && Has(ts[slot.value.0][slot.value.1], PTE_P) {
        var page := PteGetPage(ts[slot.value.0][slot.value.1]);
        FrameAligned(ts[slot.value.0][slot.value.1]);
        AtOffsetParts(page, uaddr);
        return Some(AtOffset(page, uaddr));
      }
      return None;
    }

    /** pagedir_clear_page: the page is unmapped and no other is. */
    method ClearPage(pd: Pointer, upage: bv32)
      requires DirOk(ts, pd) && PgOfs(upage) == 0 && IsUser(upage)
      modifies this
      ensures DirOk(ts, pd) && Kept(old(ts), ts, Touched(old(ts), pd, upage))
      ensures Updated(old(ts), ts, pd, upage, With(EntryAt(old(ts), pd, upage), PTE_P, false))
      ensures MappedTo(old(ts), ts, pd, upage, None)
    {
      hide Index, PdNo, PtNo, PdeGetPt, PteGetPage, SamePage, PgOfs, Has, With;
      var slot := LookupPage(pd, upage, false, None);
      ghost var e := EntryAt(ts, pd, upage);
      HasZero(PTE_P);
      WithOnly(e, PTE_P, false, PTE_P);
      if slot.Some? && Has(ts[slot.value.0][slot.value.1], PTE_P) {
        Store(pd, upage, slot.value.0, slot.value.1, With(ts[slot.value.0][slot.value.1], PTE_P, false));
      } else {
        NothingToClear(ts, pd, upage);
      }
      forall vb
        ensures Mapped(ts, pd, vb) == (if SamePage(upage, vb) then None else Mapped(old(ts), pd, vb))
      {
        UpdatedMapped(old(ts), ts, pd, upage, With(e, PTE_P, false), vb);
      }
    }

    /** pagedir_set_dirty and pagedir_set_accessed */
    method SetFlag(pd: Pointer, vpage: bv32, bit: bv32, on: bool)
      requires DirOk(ts, pd) && bit in {PTE_A, PTE_D}
      modifies this
      ensures DirOk(ts, pd) && Kept(old(ts), ts, Touched(old(ts), pd, vpage))
      ensures old(ts)[pd][Index(PdNo(vpage))] == 0 ==> ts == old(ts)
      ensures old(ts)[pd][Index(PdNo(vpage))] != 0 ==>
                Updated(old(ts), ts, pd, vpage, With(EntryAt(old(ts), pd, vpage), bit, on))
      ensures forall vb :: Mapped(ts, pd, vb) == Mapped(old(ts), pd, vb)
    {
      hide Index, PdNo, PtNo, PdeGetPt, PteGetPage, SamePage, Has, With, IsUser;
      var slot := LookupPage(pd, vpage, false, None);
      if slot.Some? {
        Store(pd, vpage, slot.value.0, slot.value.1, With(ts[slot.value.0][slot.value.1], bit, on));
        forall vb
          ensures Mapped(ts, pd, vb) == Mapped(old(ts), pd, vb)
        {
          FlagUnmapped(old(ts), ts, pd, vpage, bit, on, vb);
        }
      }
    }

    /** pagedir_is_dirty and pagedir_is_accessed */
    method IsFlag(pd: Pointer, vpage: bv32, bit: bv32) returns (on: bool)
      requires DirOk(ts, pd) && bit in {PTE_A, PTE_D}
      modifies this
      ensures ts == old(ts) && on == Has(EntryAt(ts, pd, vpage), bit)
    {
      hide Index, PdNo, PtNo, PdeGetPt, PteGetPage, SamePage, Has, IsUser;
      HasZero(bit);
      var slot := LookupPage(pd, vpage, false, None);
      on := slot.Some? && Has(ts[slot.value.0][slot.value.1], bit);
    }

    /** The inner loop of pagedir_destroy: the present pages of table d. */
    method FreePages(pt: Pointer, freed0: seq<Pointer>, ghost items0: seq<Item>, ghost was: Tables, ghost pd: Pointer, ghost d: nat)
      returns (freed: seq<Pointer>, ghost items: seq<Item>)
      requires DirOk(was, pd) && d < USER_TABLES && was[pd][d] != 0 && Frees(was, pd, items0, freed0)
      requires pt == PtOf(was[pd][d]) && pt in ts && ts[pt] == was[pt]
      requires forall it :: it in items0 <==> Live(was, pd, it) && Before(it, d, 0)
      ensures Frees(was, pd, items, freed)
      ensures forall it :: it in items <==> Live(was, pd, it) && Before(it, d, ENTRIES)
    {
      hide Has, PdeGetPt, PteGetPage, Frees;
      freed, items := freed0, items0;
      var t := 0;
      while t < ENTRIES
        invariant 0 <= t <= ENTRIES && Frees(was, pd, items, freed)
        invariant forall it :: it in items <==> Live(was, pd, it) && Before(it, d, t)
      {
        ghost var it := Frame(d, t);
        assert Live(was, pd, it) <==> Has(ts[pt][t], PTE_P);
        if Has(ts[pt][t], PTE_P) {
          FreesMore(was, pd, items, freed, it);
          freed, items := freed + [Pointer(PteGetPage(ts[pt][t]))], items + [it];
        }
        t := t + 1;
      }
    }

    /** One iteration of pagedir_destroy: table d, if there is one, and its pages. */
    method FreeTable(pd: Pointer, d: nat, freed0: seq<Pointer>, ghost items0: seq<Item>, ghost was: Tables)
      returns (freed: seq<Pointer>, ghost items: seq<Item>)
      requires DirOk(was, pd) && d < USER_TABLES && Walked(was, pd, d, ts, items0, freed0)
      modifies this
      ensures Walked(was, pd, d + 1, ts, items, freed)
    {
      hide Has, PdeGetPt, PteGetPage, Frees;
      assert !TableBelow(was, pd, d, pd);
      TableNext(was, pd, d);
      freed, items := freed0, items0;
      if Has(ts[pd][d], PTE_P) {
        var pt := PtOf(ts[pd][d]);
        freed, items := FreePages(pt, freed, items, was, pd, d);
        FreesMore(was, pd, items, freed, Table(d));
        freed, items := freed + [pt], items + [Table(d)];
        ts := ts - {pt};
      }
    }

    /** pagedir_destroy; freed lists the calls of palloc_free_page. Every present user
        page, every user page table and the directory is freed once, and nothing else;
        no table is read after it is freed. */
    method Destroy(pd: Pointer) returns (freed: seq<Pointer>, ghost items: seq<Item>)
      requires DirOk(ts, pd)
      modifies this
      ensures Frees(old(ts), pd, items, freed) && forall it :: it in items <==> Live(old(ts), pd, it)
      ensures forall at :: at in ts <==> at in old(ts) && at != pd && !TableBelow(old(ts), pd, USER_TABLES, at)
      ensures forall at :: at in ts ==> ts[at] == old(ts)[at]
    {
      hide Walked, Frees, Live, TableBelow, DirOk;
      ghost var was := ts;
      freed, items := [], [];
      var d := 0;
      NoneFreed(was, pd);
      while d < USER_TABLES
        invariant 0 <= d <= USER_TABLES && Walked(was, pd, d, ts, items, freed)
      {
        freed, items := FreeTable(pd, d, freed, items, was);
        d := d + 1;
      }
      WalkedAll(was, pd, ts, items, freed);
      freed, items := freed + [pd], items + [Dir];
      ts := ts - {pd};
    }
  }

  // ---- The accessed and dirty bits ---------------------------------------------------

  /** Flag bits other than present and writable do not show in the map. */
  lemma FlagUnmapped(ts: Tables, ts': Tables, pd: Pointer, va: bv32, bit: bv32, on: bool, vb: bv32)
    requires DirOk(ts, pd) && DirOk(ts', pd) && bit in {PTE_A, PTE_D}
    requires Updated(ts, ts', pd, va, With(EntryAt(ts, pd, va), bit, on))
    ensures Mapped(ts', pd, vb) == Mapped(ts, pd, vb)
  {
    hide SamePage, Has, With, PteGetPage, EntryAt;
    var e := EntryAt(ts, pd, va);
    UpdatedMapped(ts, ts', pd, va, With(e, bit, on), vb);
    OtherFlags(e, bit, on);
    if SamePage(va, vb) { SamePageEntry(ts, pd, va, vb); }
  }

  lemma OtherFlags(e: bv32, bit: bv32, on: bool)
    requires bit in {PTE_A, PTE_D}
    ensures Has(With(e, bit, on), PTE_P) == Has(e, PTE_P) && Has(With(e, bit, on), PTE_W) == Has(e, PTE_W)
    ensures PteGetPage(With(e, bit, on)) == PteGetPage(e)
    ensures Has(With(e, bit, on), bit) == on
  {
    hide Has, With, PteGetPage;
    WithOnly(e, bit, on, PTE_P);
    WithOnly(e, bit, on, PTE_W);
    WithOnly(e, bit, on, bit);
  }

  // ---- What pagedir_destroy frees ------------------------------------------------------

  /** A present user page, a user page table, or the directory itself. */
  datatype Item = Frame(d: nat, t: nat) | Table(d: nat) | Dir

  ghost predicate Live(ts: Tables, pd: Pointer, it: Item)
    requires DirOk(ts, pd)
  {
    match it
    case Frame(d, t) => d < USER_TABLES && ts[pd][d] != 0 && t < ENTRIES && Has(ts[PtOf(ts[pd][d])][t], PTE_P)
    case Table(d) => d < USER_TABLES && ts[pd][d] != 0
    case Dir => true
  }

  ghost function PageOfItem(ts: Tables, pd: Pointer, it: Item): (p: Pointer)
    requires DirOk(ts, pd) && Live(ts, pd, it)
  {
    match it
    case Frame(d, t) => Pointer(PteGetPage(ts[PtOf(ts[pd][d])][t]))
    case Table(d) => PtOf(ts[pd][d])
    case Dir => pd
  }

  /** it comes before entry t of table d in the walk. */
  ghost predicate Before(it: Item, d: nat, t: nat) {
    match it
    case Frame(c, u) => c < d || (c == d && u < t)
    case Table(c) => c < d
    case Dir => false
  }

  /** freed are the pages of items, which are distinct and live. */
  ghost predicate Frees(ts: Tables, pd: Pointer, items: seq<Item>, freed: seq<Pointer>)
    requires DirOk(ts, pd)
  {
    && |items| == |freed| && Distinct(items)
    && forall i :: 0 <= i < |items| ==> Live(ts, pd, items[i]) && freed[i] == PageOfItem(ts, pd, items[i])
  }

  lemma FreesMore(ts: Tables, pd: Pointer, items: seq<Item>, freed: seq<Pointer>, it: Item)
    requires DirOk(ts, pd) && Frees(ts, pd, items, freed) && it !in items && Live(ts, pd, it)
    ensures Frees(ts, pd, items + [it], freed + [PageOfItem(ts, pd, it)])
    ensures forall x :: x in items + [it] <==> x in items || x == it
  {
    hide Live, PageOfItem;
  }

  /** One of the first n directory entries leads to at. */
  ghost predicate TableBelow(ts: Tables, pd: Pointer, n: nat, at: Pointer)
    requires DirOk(ts, pd) && n <= ENTRIES
  {
    exists d :: 0 <= d < n && ts[pd][d] != 0 && PtOf(ts[pd][d]) == at
  }

  /** pagedir_destroy has dealt with the first d directory entries. */
  ghost predicate Walked(was: Tables, pd: Pointer, d: nat, ts: Tables, items: seq<Item>, freed: seq<Pointer>)
    requires DirOk(was, pd) && d <= ENTRIES
  {
    && Frees(was, pd, items, freed)
    && (forall it :: it in items <==> Live(was, pd, it) && Before(it, d, 0))
    && (forall at :: at in ts <==> at in was && !TableBelow(was, pd, d, at))
    && (forall at :: at in ts ==> ts[at] == was[at])
  }

  lemma WalkedAll(was: Tables, pd: Pointer, ts: Tables, items: seq<Item>, freed: seq<Pointer>)
    requires DirOk(was, pd) && Walked(was, pd, USER_TABLES, ts, items, freed)
    ensures Frees(was, pd, items + [Dir], freed + [pd]) && forall it :: it in items + [Dir] <==> Live(was, pd, it)
    ensures forall at :: at in ts <==> at in was && !TableBelow(was, pd, USER_TABLES, at)
    ensures forall at :: at in ts ==> ts[at] == was[at]
  {
    hide Has, PdeGetPt, PteGetPage, Frees;
    FreesMore(was, pd, items, freed, Dir);
  }

  lemma NoneFreed(ts: Tables, pd: Pointer)
    requires DirOk(ts, pd)
    ensures Walked(ts, pd, 0, ts, [], [])
  {
  }

  /** The next table is none of those before; a zero entry has no present bit. */
  lemma TableNext(ts: Tables, pd: Pointer, d: nat)
    requires DirOk(ts, pd) && d < USER_TABLES
    ensures Has(ts[pd][d], PTE_P) <==> ts[pd][d] != 0
    ensures ts[pd][d] != 0 ==> !TableBelow(ts, pd, d, PtOf(ts[pd][d]))
    ensures forall at :: TableBelow(ts, pd, d + 1, at) <==> TableBelow(ts, pd, d, at) || (ts[pd][d] != 0 && at == PtOf(ts[pd][d]))
  {
    hide Has, PdeGetPt;
    HasZero(PTE_P);
  }

  /** The frames that are freed are those that user addresses are mapped to. */
  lemma FrameIsMapped(ts: Tables, pd: Pointer, va: bv32)
    requires DirOk(ts, pd) && IsUser(va)
    ensures var it := Frame(Index(PdNo(va)), Index(PtNo(va)));
            && (Mapped(ts, pd, va).Some? <==> Live(ts, pd, it))
            && (Live(ts, pd, it) ==> PageOfItem(ts, pd, it) == Pointer(Mapped(ts, pd, va).value.frame))
  {
    hide Has, PdeGetPt, PteGetPage, Index, PdNo, PtNo, IsUser;
    UserTables(va);
    HasZero(PTE_P);
  }

  lemma ItemsOnce(ts: Tables, pd: Pointer, items: seq<Item>, freed: seq<Pointer>)
    requires DirOk(ts, pd) && Frees(ts, pd, items, freed) && forall it :: it in items <==> Live(ts, pd, it)
    ensures Distinct(freed) <==>
              forall a, b :: Live(ts, pd, a) && Live(ts, pd, b) && a != b ==> PageOfItem(ts, pd, a) != PageOfItem(ts, pd, b)
  {
    hide Live, PageOfItem;
    if Distinct(freed) {
      forall a, b | Live(ts, pd, a) && Live(ts, pd, b) && a != b
        ensures PageOfItem(ts, pd, a) != PageOfItem(ts, pd, b)
      {
        var i :| 0 <= i < |items| && items[i] == a;
        var j :| 0 <= j < |items| && items[j] == b;
        assert freed[i] != freed[j];
      }
    }
  }

  /** The user address va is mapped to the frame f. */
  ghost predicate UserFrame(ts: Tables, pd: Pointer, va: bv32, f: Pointer)
    requires DirOk(ts, pd)
  {
    IsUser(va) && Mapped(ts, pd, va).Some? && f == Pointer(Mapped(ts, pd, va).value.frame)
  }

  /** User addresses on different pages are mapped to different frames, */
  ghost predicate OwnFrames(ts: Tables, pd: Pointer)
    requires DirOk(ts, pd)
  {
    forall va, vb, f :: UserFrame(ts, pd, va, f) && UserFrame(ts, pd, vb, f) ==> SamePage(va, vb)
  }

  /** and none of these is the directory or a table of it. */
  ghost predicate FramesOnly(ts: Tables, pd: Pointer)
    requires DirOk(ts, pd)
  {
    forall va, f :: UserFrame(ts, pd, va, f) ==> f != pd && !TableBelow(ts, pd, USER_TABLES, f)
  }

  /** Every present page is that of a user address. */
  lemma FrameAddress(ts: Tables, pd: Pointer, d: nat, t: nat) returns (va: bv32)
    requires DirOk(ts, pd) && Live(ts, pd, Frame(d, t))
    ensures UserFrame(ts, pd, va, PageOfItem(ts, pd, Frame(d, t))) && Index(PdNo(va)) == d && Index(PtNo(va)) == t
  {
    hide Has, PdeGetPt, PteGetPage, Index, AtIndex, PdNo, PtNo, IsUser, Address, PgOfs;
    va := Address(AtIndex(d), AtIndex(t), 0);
    AddressParts(AtIndex(d), AtIndex(t), 0);
    UserTables(va);
    FrameIsMapped(ts, pd, va);
  }

  lemma SameIndices(va: bv32, vb: bv32)
    ensures SamePage(va, vb) <==> Index(PdNo(va)) == Index(PdNo(vb)) && Index(PtNo(va)) == Index(PtNo(vb))
  {
    hide Index, PdNo, PtNo, SamePage;
    SamePageIs(va, vb);
    IndexOnce(PdNo(va), PdNo(vb));
    IndexOnce(PtNo(va), PtNo(vb));
  }

  /** A shared page among the items shows in the map. */
  lemma SharedShows(ts: Tables, pd: Pointer, a: Item, b: Item)
    requires DirOk(ts, pd) && OwnFrames(ts, pd) && FramesOnly(ts, pd) && Live(ts, pd, a) && Live(ts, pd, b)
    requires a.Frame? && PageOfItem(ts, pd, a) == PageOfItem(ts, pd, b)
    ensures a == b
  {
    hide Mapped, Has, PdeGetPt, PteGetPage, Index, PdNo, PtNo, IsUser, SamePage;
    var va := FrameAddress(ts, pd, a.d, a.t);
    if b.Frame? {
      var vb := FrameAddress(ts, pd, b.d, b.t);
      SameIndices(va, vb);
    }
  }

  lemma OnceShows(ts: Tables, pd: Pointer, va: bv32, f: Pointer)
    requires DirOk(ts, pd) && UserFrame(ts, pd, va, f)
    requires forall a, b :: Live(ts, pd, a) && Live(ts, pd, b) && a != b ==> PageOfItem(ts, pd, a) != PageOfItem(ts, pd, b)
    ensures f != pd && !TableBelow(ts, pd, USER_TABLES, f)
    ensures forall vb :: UserFrame(ts, pd, vb, f) ==> SamePage(va, vb)
  {
    hide Mapped, Has, PdeGetPt, PteGetPage, Index, PdNo, PtNo, IsUser, SamePage;
    FrameIsMapped(ts, pd, va);
    var a := Frame(Index(PdNo(va)), Index(PtNo(va)));
    assert Live(ts, pd, a) && PageOfItem(ts, pd, a) == f;
    assert Live(ts, pd, Dir) && PageOfItem(ts, pd, Dir) == pd;
    forall d | 0 <= d < USER_TABLES && ts[pd][d] != 0 ensures PtOf(ts[pd][d]) != f {
      assert Live(ts, pd, Table(d)) && PageOfItem(ts, pd, Table(d)) == PtOf(ts[pd][d]);
    }
    forall vb | UserFrame(ts, pd, vb, f) ensures SamePage(va, vb) {
      FrameIsMapped(ts, pd, vb);
      var b := Frame(Index(PdNo(vb)), Index(PtNo(vb)));
      assert Live(ts, pd, b) && PageOfItem(ts, pd, b) == f;
      SameIndices(va, vb);
    }
  }

  /** pagedir_destroy frees no page twice if and only if user addresses on different pages
      are mapped to different frames, none of them the directory or one of its tables. */
  lemma FreedOnce(ts: Tables, pd: Pointer, items: seq<Item>, freed: seq<Pointer>)
    requires DirOk(ts, pd) && Frees(ts, pd, items, freed) && forall it :: it in items <==> Live(ts, pd, it)
    ensures Distinct(freed) <==> OwnFrames(ts, pd) && FramesOnly(ts, pd)
  {
    ItemsOnce(ts, pd, items, freed);
    hide Frees, Distinct, UserFrame;
    if OwnFrames(ts, pd) && FramesOnly(ts, pd) {
      forall a, b | Live(ts, pd, a) && Live(ts, pd, b) && a != b ensures PageOfItem(ts, pd, a) != PageOfItem(ts, pd, b) {
        if PageOfItem(ts, pd, a) == PageOfItem(ts, pd, b) {
          SharedTables(ts, pd, a, b);
          if a.Frame? { SharedShows(ts, pd, a, b); } else { SharedShows(ts, pd, b, a); }
        }
      }
    }
    if Distinct(freed) {
      hide Live, PageOfItem;
      forall va, f | UserFrame(ts, pd, va, f)
        ensures f != pd && !TableBelow(ts, pd, USER_TABLES, f) && forall vb :: UserFrame(ts, pd, vb, f) ==> SamePage(va, vb)
      {
        OnceShows(ts, pd, va, f);
      }
    }
  }

  /** Tables and the directory are pages of their own. */
  lemma SharedTables(ts: Tables, pd: Pointer, a: Item, b: Item)
    requires DirOk(ts, pd) && Live(ts, pd, a) && Live(ts, pd, b) && a != b && PageOfItem(ts, pd, a) == PageOfItem(ts, pd, b)
    ensures a.Frame? || b.Frame?
  {
    hide Has, PdeGetPt;
  }

  /** Two pages mapped to one frame, as pagedir_set_page lets them be: pagedir_destroy frees
      the frame twice. */
  method MapTwice(pt: PageTables, pd: Pointer, ua: bv32, ub: bv32, kpage: bv32, pa: Option<Pointer>, pb: Option<Pointer>)
      returns (ok: bool, freed: seq<Pointer>)
    requires DirOk(pt.ts, pd) && PgOfs(ua) == 0 && PgOfs(ub) == 0 && PgOfs(kpage) == 0
    requires IsUser(ua) && IsUser(ub) && !IsUser(kpage) && !SamePage(ua, ub)
    requires Mapped(pt.ts, pd, ua).None? && Mapped(pt.ts, pd, ub).None?
    requires pa.Some? ==> PgOfs(pa.value.addr) == 0 && pa.value !in pt.ts
    requires pb.Some? ==> PgOfs(pb.value.addr) == 0 && pb.value !in pt.ts && pb != pa
    modifies pt
    ensures ok ==> !Distinct(freed)
  {
    hide Mapped, PgOfs, IsUser, Has, SamePage, Index, PdNo, PtNo, Frees, Live, Distinct;
    freed := [];
    ghost var items;
    ok := pt.SetPage(pd, ua, kpage, true, pa);
    if !ok {
      return;
    }
    assert Mapped(pt.ts, pd, ub).None?;
    ok := pt.SetPage(pd, ub, kpage, true, pb);
    if !ok {
      return;
    }
    ghost var ts := pt.ts;
    SamePageRefl(ua, ub);
    SamePageRefl(ub, ua);
    assert UserFrame(ts, pd, ub, Pointer(kpage)) && UserFrame(ts, pd, ua, Pointer(kpage));
    freed, items := pt.Destroy(pd);
    FreedOnce(ts, pd, items, freed);
  }

  lemma SamePageRefl(va: bv32, vb: bv32)
    ensures SamePage(va, va) && (SamePage(va, vb) <==> SamePage(vb, va))
  {}

  lemma NothingToClear(ts: Tables, pd: Pointer, va: bv32)
    requires DirOk(ts, pd) && !Has(EntryAt(ts, pd, va), PTE_P)
    ensures Updated(ts, ts, pd, va, With(EntryAt(ts, pd, va), PTE_P, false))
  {
    hide SamePage, EntryAt;
    ClearClear(EntryAt(ts, pd, va));
    forall vb | SamePage(va, vb)
      ensures EntryAt(ts, pd, vb) == EntryAt(ts, pd, va)
    {
      SamePageEntry(ts, pd, va, vb);
    }
  }

  lemma ClearClear(e: bv32)
    requires !Has(e, PTE_P)
    ensures With(e, PTE_P, false) == e
  {
  }
}
