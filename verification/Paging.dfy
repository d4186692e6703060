/**
 The paging half of kernel/mem/mem.c: tables taken from the low page manager, frames from the
 main one, and the mappings the kernel makes of them.
 */
module Paging {
  import opened Common
  import opened Machine
  import opened PageTables
  import opened Pgm
  import opened TableCount

  const PHYS_TOP: nat := 0x1_0000_0000_0000   // 2^48

  /** The n pages from `base` on. */
  ghost function Pages(base: nat, n: nat): (s: set<nat>)
    ensures forall q :: q in s <==> base <= q < base + n
  {
    Range(base, base + n)
  }

  /** The pages from `base` on whose number is not free. */
  ghost function UsedOf(base: nat, n: nat, free: set<nat>): set<nat> {
    set q | q in Pages(base, n) && q - base !in free
  }

  lemma UsedAdds(base: nat, n: nat, free: set<nat>, p: nat)
    requires p < n && p in free
    ensures base + p !in UsedOf(base, n, free) && UsedOf(base, n, free - {p}) == UsedOf(base, n, free) + {base + p}
  {
    hide Pages;
    var a, b := UsedOf(base, n, free - {p}), UsedOf(base, n, free) + {base + p};
    forall q
      ensures q in a <==> q in b
    {
      if q >= base { assert q == base + p <==> q - base == p; }
    }
  }

  /** The page numbers a manager has handed out. */
  ghost function InUse(pm: PageManager): set<nat>
    requires pm.memPages <= 64 * pm.dir.Length
    reads pm, pm.dir
  {
    UsedOf(pm.memPtr / PAGE, pm.memPages, pm.Free())
  }

  /** The address of the first byte of the page: mem_prev_page_addr_4k and mem_prev_page_addr_2m. */
  function PrevPage4K(addr: u64): u64 { addr / 0x1000 % FRAMES * 0x1000 }

  function PrevPage2M(addr: u64): u64 { addr / 0x20_0000 % 0x800_0000 * 0x20_0000 }

  predicate SamePageAs(va: u64, vb: u64, large: bool) {
    if large then PageNo2M(va) == PageNo2M(vb) else PageNo4K(va) == PageNo4K(vb)
  }

  /** The physical address a mapping of page_addr gives vb. */
  function Target(pa: u64, large: bool, vb: u64): nat {
    if large then PageNo2M(pa) * 0x20_0000 + vb % 0x20_0000 else PageNo4K(pa) * 0x1000 + vb % 0x1000
  }

  /** The level of the table a leaf goes into. */
  function LeafLevel(large: bool): (k: nat) { if large then 2 else 1 }

  /** Every address of virtual page v translates into frame f. */
  ghost predicate Maps(m: Phys, v: nat, f: nat) {
    forall va: u64 :: PageNo4K(va) == v ==> Walk(m, PML4, 4, va) == Some(f * 4096 + va % 4096)
  }

  /** The pages mapped on demand have frames of their own. */
  ghost predicate Private(m: Phys, anon: map<nat, nat>, frames: set<nat>) {
    && (forall v :: v in anon ==> Maps(m, v, anon[v]) && anon[v] in frames)
    && (forall v, w :: v in anon && w in anon && v != w ==> anon[v] != anon[w])
  }

  class AddressSpace {
    var phys: Phys
    const low: PageManager     // _mem_low_pgm_handle: page tables
    const main: PageManager    // _mem_main_pgm_handle: page frames
    ghost var tree: Tree
    ghost var leaked: set<nat>        // tables cut off by a 2M leaf
    ghost var anon: map<nat, nat>     // pages mapped by page faults and mem_allocate_range, and their frames

    ghost predicate Managers()
      reads this, low, low.dir, main, main.dir
    {
      && low.Valid() && main.Valid() && low != main && low.dir != main.dir
      && low.memPtr / PAGE + low.memPages <= FRAMES && (low.memPtr / PAGE + low.memPages) * WORDS <= |phys|
      && main.memPtr / PAGE + main.memPages <= FRAMES
    }

    ghost predicate Valid()
      reads this, low, low.dir, main, main.dir
    {
      && Managers()
      && WellFormed(phys, tree) && tree.root == PML4
      && InUse(low) == tree.level.Keys + leaked && tree.level.Keys !! leaked
      && Private(phys, anon, InUse(main))
    }

    constructor (phys: Phys, low: PageManager, main: PageManager, ghost tree: Tree)
      requires low.Valid() && main.Valid() && low != main && low.dir != main.dir
      requires low.memPtr / PAGE + low.memPages <= FRAMES && (low.memPtr / PAGE + low.memPages) * WORDS <= |phys|
      requires main.memPtr / PAGE + main.memPages <= FRAMES
      requires WellFormed(phys, tree) && tree.root == PML4 && InUse(low) == tree.level.Keys
      ensures Valid() && this.phys == phys && this.low == low && this.main == main
      ensures this.tree == tree && leaked == {} && anon == map[]
    {
      this.phys := phys;
      this.low := low;
      this.main := main;
      this.tree := tree;
      leaked := {};
      anon := map[];
    }

    /** The page-table words from i on are cleared: memset(page, 0, PAGE_SIZE_4K). */
    method ClearPage(q: nat)
      requires (q + 1) * WORDS <= |phys|
      modifies this`phys
      ensures phys == ZeroPage(old(phys), q)
    {
      var i := 0;
      while i < WORDS
        invariant 0 <= i <= WORDS && |phys| == |old(phys)|
        invariant forall j :: 0 <= j < |phys| ==> phys[j] == if q * WORDS <= j < q * WORDS + i then 0 else old(phys)[j]
      {
        phys := phys[q * WORDS + i := 0];
        i := i + 1;
      }
      assert phys == ZeroPage(old(phys), q);
    }

    /** allocate_page: a page of the low manager that was not in use, cleared. */
    method AllocateTable() returns (q: nat)
      requires Managers() && low.Free() != {}
      modifies this`phys, low, low.dir
      ensures Managers() && q !in old(InUse(low)) && InUse(low) == old(InUse(low)) + {q}
      ensures low.freePages == old(low.freePages) - 1
      ensures 0 < q < FRAMES && (q + 1) * WORDS <= |phys| && phys == ZeroPage(old(phys), q)
      ensures InUse(main) == old(InUse(main)) && main.freePages == old(main.freePages)
    {
      q := TakePage(low);
      ClearPage(q);
    }

    /**
     `if (*entry == 0) *entry = allocate_page() | PTE_PAGE_PRESENT | PTE_PAGE_WRITE;` and the
     pointer to the next table: entry (p, i) is the one of level k + 1 on the way of va.
     */
    method EnsureTable(p: nat, i: nat, ghost va: u64, ghost k: nat) returns (q: nat)
      requires Valid() && 1 <= k <= 3 && Passes(phys, PML4, 4, va, k + 1) == Some(p) && i == Index(va, k + 1)
      requires k == 1 ==> !UnderLarge(phys, PML4, va)
      requires Passes(phys, PML4, 4, va, k).None? ==> low.freePages > 0
      modifies this`phys, this`tree, low, low.dir
      ensures Valid() && Passes(phys, PML4, 4, va, k) == Some(q)
      ensures forall vb: u64 :: Walk(phys, PML4, 4, vb) == Walk(old(phys), PML4, 4, vb)
      ensures forall vb: u64 :: UnderLarge(phys, PML4, vb) == UnderLarge(old(phys), PML4, vb)
      ensures forall j :: 1 <= j < k ==> Passes(phys, PML4, 4, va, j).None? == Passes(old(phys), PML4, 4, va, j).None?
      ensures low.freePages == old(low.freePages) - if Passes(old(phys), PML4, 4, va, k).None? then 1 else 0
      ensures Passes(old(phys), PML4, 4, va, k).Some? ==> phys == old(phys)
      ensures Added(old(phys), phys, va, k, k)
    {
      hide Walk, WellFormed, UnderLarge, Private, SetEntry, ZeroPage, InUse, Passes, Located, Added;
      OnTheWay(phys, tree, va, k, p);
      if Entry(phys, p, i) == 0 {
        ghost var m0 := phys;
        q := AllocateTable();
        phys := SetEntry(phys, p, i, TableEntry(q));
        ghost var t := tree;
        tree := Grown(tree, p, i, q);
        GrowAll(m0, t, p, i, q, va, k, anon, InUse(main));
      } else {
        q := FrameNo(Entry(phys, p, i));
        PresentAdds(phys, va, k);
      }
    }

    /** The last store of mem_map_page, into the table p of the leaf's level. */
    method WriteLeaf(p: nat, ghost k: nat, va: u64, pa: u64, large: bool)
      requires Valid() && k == (if large then 2 else 1) && Passes(phys, PML4, 4, va, k) == Some(p)
      modifies this`phys, this`tree, this`leaked, this`anon
      ensures Valid() && Remapped(old(phys), phys, va, pa, large)
      ensures leaked == old(leaked) + CutOff(old(phys), va, large)
      ensures anon == Surviving(old(anon), va, large)
      ensures !large ==> SameLarge(old(phys), phys)
      ensures KeptFrom(old(phys), phys, k)
    {
      hide Walk, WellFormed, UnderLarge, Private, SetEntry, InUse, Passes, Surviving, Leaf4K, Leaf2M, Pruned, CutOff,
        Remapped, SameLarge, KeptFrom;
      LeafInPlace(phys, tree, va, p, k);
      ghost var m, t := phys, tree;
      if large {
        phys := SetEntry(phys, p, Index(va, 2), Leaf2M(pa));
      } else {
        phys := SetEntry(phys, p, Index(va, 1), Leaf4K(pa));
      }
      LeafAll(m, t, va, p, k, pa, large, anon, InUse(main));
      tree := Pruned(m, t, p, Index(va, k));
      leaked := leaked + CutOff(m, va, large);
      anon := Surviving(anon, va, large);
      PrunedKeys(m, t, va, p, k, large);
    }

    /**
     mem_map_page.  The manager of the tables must not run out, and a 4K mapping must not lead
     through a 2M leaf.
     */
    method MapPage(va: u64, pa: u64, large: bool)
      requires Valid() && low.freePages >= TablesNeeded(phys, va, LeafLevel(large))
      requires large || !UnderLarge(phys, PML4, va)
      modifies this`phys, this`tree, this`leaked, this`anon, low, low.dir
      ensures Valid() && Remapped(old(phys), phys, va, pa, large)
      ensures low.freePages == old(low.freePages) - TablesNeeded(old(phys), va, LeafLevel(large))
      ensures leaked == old(leaked) + CutOff(old(phys), va, large)
      ensures anon == Surviving(old(anon), va, large)
      ensures !large ==> SameLarge(old(phys), phys)
      ensures Provided(old(phys), phys, va, LeafLevel(large))
    {
      hide Valid, Walk, UnderLarge, Passes, Surviving, Added, KeptFrom, Provided;
      ghost var m0 := phys;
      AtRoot(phys, va);
      NoneAdded(phys, va);
      var pdpt := EnsureTable(PML4, Index(va, 4), va, 3);
      AddedTrans(m0, m0, phys, va, 3);
      ghost var m := phys;
      var pdt := EnsureTable(pdpt, Index(va, 3), va, 2);
      AddedTrans(m0, m, phys, va, 2);
      m := phys;
      if large {
        SameCutOff(m0, m, va);
        WriteLeaf(pdt, 2, va, pa, true);
        AddedThenKept(m0, m, phys, va, 2);
      } else {
        var pt := EnsureTable(pdt, Index(va, 2), va, 1);
        AddedTrans(m0, m, phys, va, 1);
        m := phys;
        WriteLeaf(pt, 1, va, pa, false);
        AddedThenKept(m0, m, phys, va, 1);
      }
    }

    /** mem_map_range_4k: the range maps to itself, and takes exactly the tables missing for it. */
    method MapRange4K(pa: u64, va: u64, size: u64) returns (ok: bool)
      requires Valid() && PrevPage4K(pa) == pa && PrevPage4K(va) == pa && size % 0x1000 == 0
      requires pa + size <= PHYS_TOP && va + size < TWO_64
      requires forall vb: u64 :: pa <= vb % PHYS_TOP < pa + size ==> !UnderLarge(phys, PML4, vb)
      requires low.freePages >= |MissingOn(phys, va, size / 0x1000, 1)|
      modifies this`phys, this`tree, this`leaked, this`anon, low, low.dir
      ensures ok && Valid() && SelfMapped(old(phys), phys, pa, pa + size)
      ensures leaked == old(leaked)
      ensures low.freePages == old(low.freePages) - |MissingOn(old(phys), va, size / 0x1000, 1)|
    {
      hide Valid, Walk, UnderLarge, Passes, Surviving, Remapped, SelfMapped, SameLarge, PrevPage4K, TablesNeeded,
        MissingOn, Provided;
      ghost var m0, rest := phys, old(low.freePages) - |MissingOn(phys, va, size / 0x1000, 1)|;
      var p, v, n := pa, va, 0;
      NothingMapped(m0, pa);
      while p < pa + size
        invariant 0 <= n <= size / 0x1000 && p == pa + n * 0x1000 && v == va + n * 0x1000
        invariant Valid() && SelfMapped(m0, phys, pa, p) && SameLarge(m0, phys)
        invariant low.freePages == rest + |MissingOn(phys, v, size / 0x1000 - n, 1)| && leaked == old(leaked)
        decreases size / 0x1000 - n
      {
        OnItself4K(pa, va, n);
        LargeSame(m0, phys, v);
        ghost var m := phys;
        FirstNeeds(m, v, size / 0x1000 - n, 1);
        MapPage(v, p, false);
        MissingStep(m, phys, v, size / 0x1000 - n, 1);
        LargeTrans(m0, m, phys);
        SelfStep(m0, m, phys, pa, p, v, false);
        p := p + 0x1000;
        v := v + 0x1000;
        n := n + 1;
      }
      NoPages(phys, v, 1);
      ok := true;
    }

    /**
     mem_map_range_2m: pages of 2M as long as they start inside the range.  The check of `size`
     only tells even from odd, so the last page can reach beyond the range.
     */
    method MapRange2M(pa: u64, va: u64, size: u64) returns (ok: bool)
      requires Valid() && PrevPage2M(pa) == pa && PrevPage2M(va) == pa && size % 2 * 1024 * 1024 == 0
      requires pa + RoundUp2M(size) <= PHYS_TOP && va + RoundUp2M(size) < TWO_64
      requires low.freePages >= |MissingOn(phys, va, RoundUp2M(size) / 0x20_0000, 2)|
      modifies this`phys, this`tree, this`leaked, this`anon, low, low.dir
      ensures ok && Valid() && SelfMapped(old(phys), phys, pa, pa + RoundUp2M(size))
      ensures low.freePages == old(low.freePages) - |MissingOn(old(phys), va, RoundUp2M(size) / 0x20_0000, 2)|
    {
      hide Valid, Walk, UnderLarge, Passes, Surviving, Remapped, SelfMapped, SameLarge, PrevPage2M, CutOff,
        TablesNeeded, MissingOn, Provided;
      ghost var m0, rest := phys, old(low.freePages) - |MissingOn(phys, va, RoundUp2M(size) / 0x20_0000, 2)|;
      var p, v, n := pa, va, 0;
      NothingMapped(m0, pa);
      while p < pa + size
        invariant 0 <= n <= RoundUp2M(size) / 0x20_0000 && p == pa + n * 0x20_0000 && v == va + n * 0x20_0000
        invariant Valid() && SelfMapped(m0, phys, pa, p)
        invariant low.freePages == rest + |MissingOn(phys, v, RoundUp2M(size) / 0x20_0000 - n, 2)|
        decreases RoundUp2M(size) / 0x20_0000 - n
      {
        OnItself2M(pa, va, n);
        ghost var m := phys;
        FirstNeeds(m, v, RoundUp2M(size) / 0x20_0000 - n, 2);
        MapPage(v, p, true);
        MissingStep(m, phys, v, RoundUp2M(size) / 0x20_0000 - n, 2);
        SelfStep(m0, m, phys, pa, p, v, true);
        p := p + 0x20_0000;
        v := v + 0x20_0000;
        n := n + 1;
      }
      NoPages(phys, v, 2);
      ok := true;
    }

    lemma Facts()
      requires Valid()
      ensures main.Valid() && low != main && low.dir != main.dir && Private(phys, anon, InUse(main))
    {
    }

    /** pgm_allocate_page(_mem_main_pgm_handle) */
    method TakeFrame() returns (f: nat)
      requires Valid() && main.freePages > 0
      modifies main, main.dir
      ensures Valid() && f !in old(InUse(main)) && InUse(main) == old(InUse(main)) + {f} && f < FRAMES
      ensures Private(phys, anon, old(InUse(main))) && main.freePages == old(main.freePages) - 1
    {
      hide WellFormed, Private, InUse;
      ghost var frames := InUse(main);
      f := TakePage(main);
      MoreFrames(phys, anon, frames, InUse(main));
    }

    /** The page of va has the frame f from now on. */
    ghost method Note(va: u64, f: nat)
      requires Valid() && Private(phys, anon[PageNo4K(va) := f], InUse(main))
      modifies this`anon
      ensures Valid() && anon == old(anon)[PageNo4K(va) := f]
    {
      hide WellFormed, Private, InUse;
      anon := anon[PageNo4K(va) := f];
    }

    /** mem_map_page(va, pgm_allocate_page(_mem_main_pgm_handle), false) */
    method MapFresh(va: u64) returns (ghost f: nat)
      requires Valid() && main.freePages > 0 && low.freePages >= TablesNeeded(phys, va, 1)
      requires !UnderLarge(phys, PML4, va)
      modifies this`phys, this`tree, this`leaked, this`anon, low, low.dir, main, main.dir
      ensures Valid() && f !in old(InUse(main)) && InUse(main) == old(InUse(main)) + {f}
      ensures anon == old(anon)[PageNo4K(va) := f] && leaked == old(leaked)
      ensures ElsewhereSame(old(phys), phys, PageNo4K(va), PageNo4K(va) + 1)
      ensures SameLarge(old(phys), phys)
      ensures main.freePages == old(main.freePages) - 1
      ensures low.freePages == old(low.freePages) - TablesNeeded(old(phys), va, 1)
      ensures Provided(old(phys), phys, va, 1)
    {
      hide Valid, Managers, Walk, UnderLarge, Passes, WellFormed, Private, Remapped, SameLarge, ElsewhereSame,
        TablesNeeded, InUse, Surviving, CutOff, Provided;
      NoCutOff(phys, va);
      Facts();
      ghost var m0, frames := phys, InUse(main);
      var frame := TakeFrame();
      f := frame;
      MapPage(va, frame * 0x1000, false);
      Facts();
      FreshPrivate(m0, phys, old(anon), anon, frames, InUse(main), va, f);
      Note(va, f);
    }

    /** mem_page_fault_handler for the faulting address cr2 */
    method PageFault(cr2: u64)
      requires Valid() && main.freePages > 0 && low.freePages >= TablesNeeded(phys, PrevPage4K(cr2), 1)
      requires !UnderLarge(phys, PML4, PrevPage4K(cr2))
      modifies this`phys, this`tree, this`leaked, this`anon, low, low.dir, main, main.dir
      ensures Valid() && PageNo4K(cr2) in anon && anon == old(anon)[PageNo4K(cr2) := anon[PageNo4K(cr2)]]
      ensures anon[PageNo4K(cr2)] !in old(InUse(main)) && leaked == old(leaked)
      ensures ElsewhereSame(old(phys), phys, PageNo4K(cr2), PageNo4K(cr2) + 1)
    {
      hide Valid, Walk, UnderLarge, Passes, ElsewhereSame, TablesNeeded;
      PageOfPrev(cr2);
      ghost var f := MapFresh(PrevPage4K(cr2));
    }

    /** mem_allocate_range: every page of the range gets a frame of its own. */
    method AllocateRange(va: u64, size: u64) returns (ok: bool)
      requires Valid() && PrevPage4K(va) == va && size % 0x1000 == 0 && va + size <= PHYS_TOP
      requires main.freePages >= size / 0x1000 && low.freePages >= |MissingOn(phys, va, size / 0x1000, 1)|
      requires forall vb: u64 :: va <= vb % PHYS_TOP < va + size ==> !UnderLarge(phys, PML4, vb)
      modifies this`phys, this`tree, this`leaked, this`anon, low, low.dir, main, main.dir
      ensures ok && Valid() && leaked == old(leaked)
      ensures Extended(old(anon), old(InUse(main)), anon, va / 0x1000, (va + size) / 0x1000)
      ensures ElsewhereSame(old(phys), phys, va / 0x1000, (va + size) / 0x1000)
      ensures main.freePages == old(main.freePages) - size / 0x1000
      ensures low.freePages == old(low.freePages) - |MissingOn(old(phys), va, size / 0x1000, 1)|
    {
      hide WellFormed, Private, InUse, Walk, UnderLarge, Passes, ElsewhereSame, SameLarge, TablesNeeded, PrevPage4K,
        PageNo4K, Extended, MissingOn, Provided;
      ghost var rest := low.freePages - |MissingOn(phys, va, size / 0x1000, 1)|;
      ghost var m0, first, anon0, frames0 := phys, va / 0x1000, anon, InUse(main);
      var addr, n := va, 0;
      NoneExtended(anon, InUse(main), first);
      AllSame(m0, first);
      while addr < va + size
        invariant 0 <= n <= size / 0x1000 && addr == va + n * 0x1000
        invariant Valid() && leaked == old(leaked) && SameLarge(m0, phys)
        invariant main.freePages == old(main.freePages) - n
        invariant low.freePages == rest + |MissingOn(phys, addr, size / 0x1000 - n, 1)|
        invariant frames0 <= InUse(main) && Extended(anon0, frames0, anon, first, first + n)
        invariant ElsewhereSame(m0, phys, first, first + n)
        decreases size / 0x1000 - n
      {
        PageAt(va, n);
        LargeSame(m0, phys, addr);
        ghost var m, before := phys, anon;
        FirstNeeds(m, addr, size / 0x1000 - n, 1);
        ghost var f := MapFresh(addr);
        MissingStep(m, phys, addr, size / 0x1000 - n, 1);
        LargeTrans(m0, m, phys);
        ElsewhereTrans(m0, m, phys, first, first + n);
        ExtendStep(anon0, frames0, before, anon, first, first + n, f);
        addr := addr + 0x1000;
        n := n + 1;
      }
      NoPages(phys, addr, 1);
      ok := true;
    }
  }

  /** Addresses whose low 48 bits lie in [a, b) translate to them; all other translations are as before. */
  ghost predicate SelfMapped(m: Phys, m': Phys, a: nat, b: nat) {
    forall vb: u64 :: Walk(m', PML4, 4, vb) ==
                      if a <= vb % PHYS_TOP < b then Some(vb % PHYS_TOP) else Walk(m, PML4, 4, vb)
  }

  /** No translation outside the virtual pages [a, b) differs. */
  ghost predicate ElsewhereSame(m: Phys, m': Phys, a: nat, b: nat) {
    forall vb: u64 :: !(a <= PageNo4K(vb) < b) ==> Walk(m', PML4, 4, vb) == Walk(m, PML4, 4, vb)
  }

  /** anon is anon0 with the pages [a, b) mapped to frames that were not in `frames`. */
  ghost predicate Extended(anon0: map<nat, nat>, frames: set<nat>, anon: map<nat, nat>, a: nat, b: nat) {
    && anon.Keys == anon0.Keys + Range(a, b)
    && (forall v :: v in Range(a, b) ==> anon[v] !in frames)
    && (forall v :: v in anon0 && v !in Range(a, b) ==> anon[v] == anon0[v])
  }

  /** size rounded up to whole 2M pages */
  function RoundUp2M(size: u64): nat { (size + 0x1F_FFFF) / 0x20_0000 * 0x20_0000 }

  /** Every address in the page of va translates into the page of pa; no other translation differs. */
  ghost predicate Remapped(m: Phys, m': Phys, va: u64, pa: u64, large: bool) {
    forall vb: u64 :: Walk(m', PML4, 4, vb) ==
                      if SamePageAs(va, vb, large) then Some(Target(pa, large, vb)) else Walk(m, PML4, 4, vb)
  }

  ghost predicate SameLarge(m: Phys, m': Phys) {
    forall vb: u64 :: UnderLarge(m', PML4, vb) == UnderLarge(m, PML4, vb)
  }

  /** The page table that a 2M mapping of va cuts off. */
  ghost function CutOff(m: Phys, va: u64, large: bool): set<nat> {
    if large && Passes(m, PML4, 4, va, 1).Some? then {Passes(m, PML4, 4, va, 1).value} else {}
  }

  lemma NoCutOff(m: Phys, va: u64)
    ensures CutOff(m, va, false) == {}
  {
  }

  /** The on-demand pages that a mapping of va leaves alone. */
  ghost function Surviving(anon: map<nat, nat>, va: u64, large: bool): map<nat, nat> {
    map v | v in anon && !(if large then v / 512 == PageNo2M(va) else v == PageNo4K(va)) :: anon[v]
  }

  /** pgm_allocate_page of a manager that is not exhausted, by page number. */
  method TakePage(pm: PageManager) returns (q: nat)
    requires pm.Valid() && pm.Free() != {}
    modifies pm, pm.dir
    ensures pm.Valid() && q !in old(InUse(pm)) && InUse(pm) == old(InUse(pm)) + {q}
    ensures pm.memPtr / PAGE <= q < pm.memPtr / PAGE + pm.memPages && q > 0
    ensures pm.freePages == old(pm.freePages) - 1
  {
    hide UsedOf, Least;
    ghost var base, free := pm.memPtr / PAGE, pm.Free();
    var addr := pm.AllocatePage();
    q := addr / PAGE;
    TakenPage(pm.memPtr, addr);
    LeastIn(free, pm.PageOf(addr));
    UsedAdds(base, pm.memPages, free, pm.PageOf(addr));
    OneLess(free, pm.PageOf(addr));
  }

  lemma OneLess(s: set<nat>, p: nat)
    requires p in s
    ensures |s - {p}| == |s| - 1
  {
  }

  lemma TakenPage(base: nat, addr: nat)
    requires base % PAGE == 0 && 0 < base <= addr && (addr - base) % PAGE == 0
    ensures addr / PAGE == base / PAGE + (addr - base) / PAGE && addr / PAGE > 0
  {
  }

  /** What a walk finds at the table of level k + 1. */
  lemma OnTheWay(m: Phys, t: Tree, va: u64, k: nat, p: nat)
    requires WellFormed(m, t) && t.root == PML4 && 1 <= k <= 3 && Passes(m, PML4, 4, va, k + 1) == Some(p)
    requires k == 1 ==> !UnderLarge(m, PML4, va)
    ensures p in t.level && t.level[p] == k + 1 && (p + 1) * WORDS <= |m|
    ensures var e := Entry(m, p, Index(va, k + 1));
            if e == 0 then forall j :: 1 <= j <= k ==> Passes(m, PML4, 4, va, j).None?
            else Points(e) && Passes(m, PML4, 4, va, k) == Some(FrameNo(e))
  {
    PassesTable(m, t, PML4, 4, va, k + 1);
    assert EntryOK(m, t, p, Index(va, k + 1));
    PassesStep(m, PML4, 4, va, k);
    if k > 1 { PassesStep(m, PML4, 4, va, k - 1); }
    if k > 2 { PassesStep(m, PML4, 4, va, k - 2); }
  }

  lemma GrowAll(m: Phys, t: Tree, p: nat, i: nat, q: nat, va: u64, k: nat, anon: map<nat, nat>, frames: set<nat>)
    requires WellFormed(m, t) && t.root == PML4 && 1 <= k <= 3 && Passes(m, PML4, 4, va, k + 1) == Some(p)
    requires p in t.level && t.level[p] == k + 1 && i == Index(va, k + 1) && Entry(m, p, i) == 0
    requires q !in t.level && 0 < q < FRAMES && (q + 1) * WORDS <= |m| && (p + 1) * WORDS <= |m|
    requires Private(m, anon, frames)
    ensures var m' := SetEntry(ZeroPage(m, q), p, i, TableEntry(q));
            && WellFormed(m', Grown(t, p, i, q)) && Passes(m', PML4, 4, va, k) == Some(q)
            && (forall vb: u64 :: Walk(m', PML4, 4, vb) == Walk(m, PML4, 4, vb))
            && (forall vb: u64 :: UnderLarge(m', PML4, vb) == UnderLarge(m, PML4, vb))
            && (forall j :: 1 <= j < k ==> Passes(m', PML4, 4, va, j).None?)
            && Private(m', anon, frames) && Added(m, m', va, k, k)
  {
    hide Walk, UnderLarge, Private, SetEntry, ZeroPage, Added;
    var m' := WithTable(m, p, i, q);
    assert m' == SetEntry(ZeroPage(m, q), p, i, TableEntry(q));
    assert CanGrow(m, t, p, i, q);
    hide WithTable, CanGrow;
    GrownWellFormed(m, t, p, i, q);
    forall vb: u64
      ensures Walk(m', PML4, 4, vb) == Walk(m, PML4, 4, vb) && UnderLarge(m', PML4, vb) == UnderLarge(m, PML4, vb)
    {
      GrownWalk(m, t, p, i, q, vb);
      GrownLarge(m, t, p, i, q, vb);
    }
    GrownWalk(m, t, p, i, q, va);
    GrownEntries(m, t, p, i, q);
    EmptyBelow(m', va, k, q);
    GrowAdds(m, t, p, i, q, va, k);
    SamePrivate(m, m', anon, frames);
  }

  /** Pages keep their private frames when no translation changes. */
  lemma SamePrivate(m: Phys, m': Phys, anon: map<nat, nat>, frames: set<nat>)
    requires Private(m, anon, frames) && forall va: u64 :: Walk(m', PML4, 4, va) == Walk(m, PML4, 4, va)
    ensures Private(m', anon, frames)
  {
    hide Walk;
    forall v | v in anon
      ensures Maps(m', v, anon[v])
    {
      assert Maps(m, v, anon[v]);
    }
  }

  /** When the page table is there, no table had to be added, and it is the one cut off. */
  lemma SameCutOff(m0: Phys, m: Phys, va: u64)
    requires Passes(m, PML4, 4, va, 1).None? == Passes(m0, PML4, 4, va, 1).None?
    requires Passes(m0, PML4, 4, va, 3).Some? && Passes(m0, PML4, 4, va, 2).Some? ==> m == m0
    ensures CutOff(m, va, true) == CutOff(m0, va, true)
  {
    PassesStep(m0, PML4, 4, va, 1);
    PassesStep(m0, PML4, 4, va, 2);
  }

  lemma AtRoot(m: Phys, va: u64)
    ensures Passes(m, PML4, 4, va, 4) == Some(PML4)
  {
  }

  lemma LeafInPlace(m: Phys, t: Tree, va: u64, p: nat, k: nat)
    requires WellFormed(m, t) && t.root == PML4 && 1 <= k <= 4 && Passes(m, PML4, 4, va, k) == Some(p)
    ensures p in t.level && t.level[p] == k && (p + 1) * WORDS <= |m|
  {
    PassesTable(m, t, PML4, 4, va, k);
  }

  /** Everything the final store of mem_map_page does. */
  lemma LeafAll(m: Phys, t: Tree, va: u64, p: nat, k: nat, pa: u64, large: bool, anon: map<nat, nat>, frames: set<nat>)
    requires WellFormed(m, t) && t.root == PML4 && k == (if large then 2 else 1) && Passes(m, PML4, 4, va, k) == Some(p)
    requires p in t.level && t.level[p] == k && (p + 1) * WORDS <= |m| && Private(m, anon, frames)
    ensures var m' := SetEntry(m, p, Index(va, k), if large then Leaf2M(pa) else Leaf4K(pa));
            && WellFormed(m', Pruned(m, t, p, Index(va, k)))
            && Remapped(m, m', va, pa, large)
            && (!large ==> SameLarge(m, m'))
            && Private(m', Surviving(anon, va, large), frames) && KeptFrom(m, m', k)
  {
    hide Walk, WellFormed, UnderLarge, Private, SetEntry, Passes, Leaf4K, Leaf2M, Pruned, KeptFrom;
    LeafKeeps(m, t, p, Index(va, k), if large then Leaf2M(pa) else Leaf4K(pa));
    var i, e := Index(va, k), if large then Leaf2M(pa) else Leaf4K(pa);
    var m' := SetEntry(m, p, i, e);
    EntryFields(0, pa);
    LeafWellFormed(m, t, p, i, e);
    forall vb: u64
      ensures Walk(m', PML4, 4, vb) ==
              if SamePageAs(va, vb, large) then Some(Target(pa, large, vb)) else Walk(m, PML4, 4, vb)
    {
      LeafWalk(m, t, p, i, e, va, vb);
      SamePage(va, vb);
      LeafTarget(pa, large, vb);
    }
    forall vb: u64 | !large
      ensures UnderLarge(m', PML4, vb) == UnderLarge(m, PML4, vb)
    {
      LeafLarge(m, t, p, i, e, vb);
    }
    SurvivingPrivate(m, m', anon, frames, va, large);
  }

  lemma LeafTarget(pa: u64, large: bool, vb: u64)
    ensures Translate(if large then Leaf2M(pa) else Leaf4K(pa), if large then 2 else 1, vb) == Target(pa, large, vb)
  {
    hide Leaf4K, Leaf2M;
    EntryFields(0, pa);
    if large { DivModUnique(PageNo2M(pa) * 512 * 4096, 0x20_0000, PageNo2M(pa), 0); }
  }

  lemma Page2MOf4K(va: u64)
    ensures PageNo4K(va) / 512 == PageNo2M(va)
  {
    SplitDigit(va / 0x1000, 0x800_0000);
    assert va / 0x1000 / 512 == va / 0x20_0000;
  }

  lemma SurvivingPrivate(m: Phys, m': Phys, anon: map<nat, nat>, frames: set<nat>, va: u64, large: bool)
    requires Private(m, anon, frames)
    requires forall vb: u64 :: !SamePageAs(va, vb, large) ==> Walk(m', PML4, 4, vb) == Walk(m, PML4, 4, vb)
    ensures Private(m', Surviving(anon, va, large), frames)
  {
    hide Walk;
    forall v | v in Surviving(anon, va, large)
      ensures Maps(m', v, anon[v])
    {
      assert Maps(m, v, anon[v]);
      forall vb: u64 | PageNo4K(vb) == v
        ensures Walk(m', PML4, 4, vb) == Some(anon[v] * 4096 + vb % 4096)
      {
        Page2MOf4K(vb);
      }
    }
  }

  /** The tables in use are those of the tree and those cut off. */
  lemma PrunedKeys(m: Phys, t: Tree, va: u64, p: nat, k: nat, large: bool)
    requires WellFormed(m, t) && t.root == PML4 && k == (if large then 2 else 1) && Passes(m, PML4, 4, va, k) == Some(p)
    requires p in t.level && t.level[p] == k
    ensures Pruned(m, t, p, Index(va, k)).level.Keys + CutOff(m, va, large) == t.level.Keys
    ensures Pruned(m, t, p, Index(va, k)).level.Keys !! CutOff(m, va, large)
    ensures Pruned(m, t, p, Index(va, k)).root == PML4
  {
    if large {
      PassesStep(m, PML4, 4, va, 1);
      assert EntryOK(m, t, p, Index(va, 2));
    }
  }

  /** mem_map_range_2m accepts every even size, and maps exactly the range only for multiples of 2M. */
  lemma SizeCheckIsParity(size: u64)
    ensures size % 2 * 1024 * 1024 == 0 <==> size % 2 == 0
    ensures RoundUp2M(size) == size <==> size % 0x20_0000 == 0
    ensures size <= RoundUp2M(size) < size + 0x20_0000
  {
  }

  lemma TwoBytesMapTwoMegabytes()
    ensures 2 % 2 * 1024 * 1024 == 0 && RoundUp2M(2) == 0x20_0000
  {
  }

  /**
   Why a 4K mapping must not lead through a 2M leaf: mem_map_page does not look at the size bit, so
   it takes the leaf's frame f for a page table and stores the entry there.  No translation changes,
   so the mapping is in force exactly when pa is the frame that the leaf already gives the page of va.
   */
  lemma UnderLargeIsLost(m: Phys, t: Tree, va: u64, pa: u64, f: nat)
    requires WellFormed(m, t) && t.root == PML4 && UnderLarge(m, PML4, va)
    requires f == FrameNo(Entry(m, Passes(m, PML4, 4, va, 2).value, Index(va, 2)))
    requires f !in t.level && (f + 1) * WORDS <= |m|
    ensures var m' := SetEntry(m, f, Index(va, 1), Leaf4K(pa));
            && WellFormed(m', t) && (forall vb: u64 :: Walk(m', PML4, 4, vb) == Walk(m, PML4, 4, vb))
            && (Remapped(m, m', va, pa, false) <==> PageNo4K(pa) == f / 512 * 512 + Index(va, 1))
  {
    hide Walk, Passes, SetEntry, UnderLarge, Leaf4K, WellFormed, PageNo4K;
    StrayStore(m, t, f, Index(va, 1), Leaf4K(pa));
    var m' := SetEntry(m, f, Index(va, 1), Leaf4K(pa));
    forall vb: u64 | SamePageAs(va, vb, false)
      ensures Walk(m, PML4, 4, vb) == Some((f / 512 * 512 + Index(va, 1)) * 0x1000 + vb % 0x1000)
    {
      LargeWalk(m, t, va, vb, f);
    }
    if Remapped(m, m', va, pa, false) {
      assert Walk(m', PML4, 4, va) == Some(Target(pa, false, va));
    }
  }

  /** A store to a page that is no table changes no translation. */
  lemma StrayStore(m: Phys, t: Tree, f: nat, i: nat, e: u64)
    requires WellFormed(m, t) && t.root == PML4 && f !in t.level && (f + 1) * WORDS <= |m| && i < ENTRIES
    ensures WellFormed(SetEntry(m, f, i, e), t)
    ensures forall vb: u64 :: Walk(SetEntry(m, f, i, e), PML4, 4, vb) == Walk(m, PML4, 4, vb)
  {
    hide Walk, Passes, SetEntry;
    var m' := SetEntry(m, f, i, e);
    forall q: nat, j | q in t.level && 0 <= j < ENTRIES
      ensures Entry(m', q, j) == Entry(m, q, j)
    {
      EntryAfterSet(m, f, i, e, q, j);
    }
    forall q | q in t.level
      ensures ParentOK(m', t, q)
    {
      assert ParentOK(m, t, q);
    }
    forall q, j | q in t.level && 0 <= j < ENTRIES
      ensures EntryOK(m', t, q, j)
    {
      assert EntryOK(m, t, q, j);
    }
    forall vb: u64
      ensures Walk(m', PML4, 4, vb) == Walk(m, PML4, 4, vb)
    {
      var other := if Index(vb, 4) == 0 then 1 else 0;
      PassesSelf(m, PML4, vb);
      WalkUnseen(m, m', t, PML4, 4, vb, PML4, other);
    }
  }

  /** Under the 2M leaf of va, an address in the 4K page of va walks to the same 4K frame. */
  lemma LargeWalk(m: Phys, t: Tree, va: u64, vb: u64, f: nat)
    requires WellFormed(m, t) && t.root == PML4 && UnderLarge(m, PML4, va) && PageNo4K(va) == PageNo4K(vb)
    requires f == FrameNo(Entry(m, Passes(m, PML4, 4, va, 2).value, Index(va, 2)))
    ensures Walk(m, PML4, 4, vb) == Some((f / 512 * 512 + Index(va, 1)) * 0x1000 + vb % 0x1000)
  {
    hide Passes, WellFormed, PageNo4K;
    var p := Passes(m, PML4, 4, va, 2).value;
    SamePage(va, vb);
    AgreeSameTable(m, PML4, 4, va, vb, 2);
    PassesRoot(m, t, va, 2);
    WalkFromTable(m, t, PML4, 4, vb, 2);
    assert Walk(m, p, 2, vb) == Some(f * 4096 / 0x20_0000 * 0x20_0000 + vb % 0x20_0000);
    FrameInLarge(f, va, vb);
  }

  lemma PassesRoot(m: Phys, t: Tree, va: u64, k: nat)
    requires WellFormed(m, t) && t.root == PML4 && 1 <= k <= 4
    ensures PML4 in t.level && t.level[PML4] == 4
    ensures var r := Passes(m, PML4, 4, va, k); r.Some? ==> r.value in t.level && t.level[r.value] == k
  {
    PassesTable(m, t, PML4, 4, va, k);
  }

  lemma FrameInLarge(f: nat, va: u64, vb: u64)
    requires Index(va, 1) == Index(vb, 1)
    ensures f * 4096 / 0x20_0000 * 0x20_0000 + vb % 0x20_0000 == (f / 512 * 512 + Index(va, 1)) * 0x1000 + vb % 0x1000
  {
    var g, r := f / 512, f % 512;
    DivModUnique(f * 4096, 0x20_0000, g, r * 4096);
    DivModUnique(vb, 0x20_0000, vb / 0x20_0000, Index(vb, 1) * 0x1000 + vb % 0x1000);
  }

  /** Three tables, and one leaf that maps the first 2M to themselves. */
  function LeafMemory(): (m: Phys)
    ensures |m| == 6 * WORDS
  {
    seq<u64>(6 * WORDS, i requires 0 <= i < 6 * WORDS => LeafWord(i))
  }

  function LeafWord(i: nat): u64 {
    if i == 3 * WORDS then TableEntry(4)
    else if i == 4 * WORDS then TableEntry(5)
    else if i == 5 * WORDS then Leaf2M(0)
    else 0
  }

  const LEAF_TREE := Tree(3, map[3 := 4, 4 := 3, 5 := 2], map[4 := (3, 0), 5 := (4, 0)])

  /** mem_map_page(0, 0x5000, false) below that leaf leaves address 0 where it was. */
  lemma MappingLost()
    ensures var m := LeafMemory();
            var m' := SetEntry(m, 0, Index(0, 1), Leaf4K(0x5000));
            && WellFormed(m, LEAF_TREE) && UnderLarge(m, PML4, 0)
            && Walk(m', PML4, 4, 0) == Walk(m, PML4, 4, 0) == Some(0) && !Remapped(m, m', 0, 0x5000, false)
  {
    hide Remapped, WellFormed, Walk, Passes, UnderLarge, Entry, FrameNo, Leaf4K, SetEntry, PageNo4K;
    var m := LeafMemory();
    LeafTreeWellFormed(m);
    LeafWalks(m);
    FifthPage();
    UnderLargeIsLost(m, LEAF_TREE, 0, 0x5000, 0);
  }

  lemma FifthPage()
    ensures PageNo4K(0x5000) == 5
  {
  }

  lemma LeafEntries(m: Phys)
    requires m == LeafMemory()
    ensures forall p, i :: 3 <= p <= 5 && 0 <= i < ENTRIES ==>
                             Entry(m, p, i) ==
                             if i > 0 then 0
                             else if p == 3 then TableEntry(4) else if p == 4 then TableEntry(5) else Leaf2M(0)
  {
  }

  lemma LeafTreeWellFormed(m: Phys)
    requires m == LeafMemory()
    ensures WellFormed(m, LEAF_TREE)
  {
    hide LeafMemory, Entry, Present, Large, FrameNo, Leaf2M, TableEntry;
    LeafEntries(m);
    EntryFields(4, 0);
    EntryFields(5, 0);
  }

  lemma LeafWalks(m: Phys)
    requires m == LeafMemory()
    ensures UnderLarge(m, PML4, 0) && Passes(m, PML4, 4, 0, 2) == Some(5) && Walk(m, PML4, 4, 0) == Some(0)
    ensures FrameNo(Entry(m, 5, 0)) == 0 && Index(0, 2) == 0 == Index(0, 1)
  {
    hide LeafMemory, Entry, Present, Large, FrameNo, Leaf2M, TableEntry;
    LeafEntries(m);
    EntryFields(4, 0);
    EntryFields(5, 0);
    assert Index(0, 4) == Index(0, 3) == Index(0, 2) == Index(0, 1) == 0;
    assert Passes(m, 4, 3, 0, 2) == Some(5);
  }

  lemma PassesSelf(m: Phys, p: nat, va: u64)
    ensures Passes(m, p, 4, va, 4) == Some(p)
  {
  }

  // ---- lemmas of the range loops ----

  lemma NothingMapped(m: Phys, a: nat)
    ensures SelfMapped(m, m, a, a) && SameLarge(m, m)
  {
  }

  lemma AllSame(m: Phys, a: nat)
    ensures ElsewhereSame(m, m, a, a) && SameLarge(m, m)
  {
  }

  lemma LargeSame(m: Phys, m': Phys, va: u64)
    requires SameLarge(m, m')
    ensures UnderLarge(m', PML4, va) == UnderLarge(m, PML4, va)
  {
  }

  lemma LargeTrans(m0: Phys, m1: Phys, m2: Phys)
    requires SameLarge(m0, m1) && SameLarge(m1, m2)
    ensures SameLarge(m0, m2)
  {
    hide UnderLarge;
  }

  /** An address is its page number and its offset, modulo 2^48. */
  lemma Low48(vb: u64)
    ensures vb % PHYS_TOP == PageNo4K(vb) * 0x1000 + vb % 0x1000
    ensures vb % PHYS_TOP == PageNo2M(vb) * 0x20_0000 + vb % 0x20_0000
  {
    DivModUnique(vb, PHYS_TOP, vb / 0x1000 / FRAMES, PageNo4K(vb) * 0x1000 + vb % 0x1000);
    DivModUnique(vb, PHYS_TOP, vb / 0x20_0000 / 0x800_0000, PageNo2M(vb) * 0x20_0000 + vb % 0x20_0000);
  }

  /** Page n of a range that maps to itself. */
  lemma OnItself4K(pa: u64, va: u64, n: nat)
    requires PrevPage4K(pa) == pa && PrevPage4K(va) == pa && pa + n * 0x1000 < PHYS_TOP && va + n * 0x1000 < TWO_64
    ensures PrevPage4K(va + n * 0x1000) == pa + n * 0x1000 == PrevPage4K(pa + n * 0x1000)
    ensures (pa + n * 0x1000) % 0x1000 == 0 && (va + n * 0x1000) % PHYS_TOP / 0x1000 * 0x1000 == pa + n * 0x1000
  {
    var a := pa / 0x1000;
    assert pa == a * 0x1000;
    assert (pa + n * 0x1000) / 0x1000 == a + n;
    assert (va + n * 0x1000) / 0x1000 == va / 0x1000 + n;
    DivModUnique(va / 0x1000 + n, FRAMES, va / 0x1000 / FRAMES, a + n);
    Low48(va + n * 0x1000);
  }

  lemma OnItself2M(pa: u64, va: u64, n: nat)
    requires PrevPage2M(pa) == pa && PrevPage2M(va) == pa && pa + n * 0x20_0000 < PHYS_TOP
             && va + n * 0x20_0000 < TWO_64
    ensures PrevPage2M(va + n * 0x20_0000) == pa + n * 0x20_0000 == PrevPage2M(pa + n * 0x20_0000)
    ensures (pa + n * 0x20_0000) % 0x20_0000 == 0
  {
    var a := pa / 0x20_0000;
    assert pa == a * 0x20_0000;
    assert (pa + n * 0x20_0000) / 0x20_0000 == a + n;
    assert (va + n * 0x20_0000) / 0x20_0000 == va / 0x20_0000 + n;
    DivModUnique(va / 0x20_0000 + n, 0x800_0000, va / 0x20_0000 / 0x800_0000, a + n);
  }

  /** One more page mapped to itself. */
  lemma SelfStep(m0: Phys, m: Phys, m': Phys, pa: nat, p: u64, v: u64, large: bool)
    requires SelfMapped(m0, m, pa, p) && Remapped(m, m', v, p, large) && pa <= p < PHYS_TOP
    requires if large then PrevPage2M(v) == p == PrevPage2M(p) else PrevPage4K(v) == p == PrevPage4K(p)
    ensures SelfMapped(m0, m', pa, p + if large then 0x20_0000 else 0x1000)
  {
    hide Walk;
    var q := p + if large then 0x20_0000 else 0x1000;
    forall vb: u64
      ensures Walk(m', PML4, 4, vb) == if pa <= vb % PHYS_TOP < q then Some(vb % PHYS_TOP) else Walk(m0, PML4, 4, vb)
    {
      Low48(vb);
      SelfPage(p, v, vb, large);
    }
  }

  lemma SelfPage(p: u64, v: u64, vb: u64, large: bool)
    requires if large then PrevPage2M(v) == p == PrevPage2M(p) else PrevPage4K(v) == p == PrevPage4K(p)
    ensures SamePageAs(v, vb, large) <==> p <= vb % PHYS_TOP < p + if large then 0x20_0000 else 0x1000
    ensures SamePageAs(v, vb, large) ==> Target(p, large, vb) == vb % PHYS_TOP
  {
    Low48(vb);
  }

  lemma MoreFrames(m: Phys, anon: map<nat, nat>, frames: set<nat>, frames': set<nat>)
    requires Private(m, anon, frames) && frames <= frames'
    ensures Private(m, anon, frames')
  {
    hide Maps;
  }

  /** A page mapped to a frame nobody had keeps all frames private. */
  lemma FreshPrivate(m: Phys, m': Phys, anon: map<nat, nat>, anon': map<nat, nat>, frames: set<nat>,
                     frames': set<nat>, va: u64, f: nat)
    requires Private(m, anon, frames) && frames' == frames + {f} && f !in frames && f < FRAMES
    requires Remapped(m, m', va, f * 0x1000, false) && anon' == Surviving(anon, va, false)
             && Private(m', anon', frames')
    ensures Private(m', anon'[PageNo4K(va) := f], frames')
    ensures anon'[PageNo4K(va) := f] == anon[PageNo4K(va) := f]
    ensures ElsewhereSame(m, m', PageNo4K(va), PageNo4K(va) + 1)
  {
    hide Walk;
    DivModUnique(f * 0x1000, 0x1000, f, 0);
    DivModUnique(f, FRAMES, 0, f);
    assert Maps(m', PageNo4K(va), f);
  }

  lemma PageOfPrev(va: u64)
    ensures PageNo4K(PrevPage4K(va)) == PageNo4K(va)
  {
    var n := PageNo4K(va);
    DivModUnique(n * 0x1000, 0x1000, n, 0);
    DivModUnique(n, FRAMES, 0, n);
  }

  lemma PageAt(va: u64, n: nat)
    requires PrevPage4K(va) == va && va + n * 0x1000 < PHYS_TOP
    ensures PageNo4K(va + n * 0x1000) == va / 0x1000 + n && (va + n * 0x1000) % PHYS_TOP == va + n * 0x1000
  {
    assert (va + n * 0x1000) / 0x1000 == va / 0x1000 + n;
    DivModUnique(va + n * 0x1000, PHYS_TOP, 0, va + n * 0x1000);
    DivModUnique(va / 0x1000 + n, FRAMES, 0, va / 0x1000 + n);
  }

  lemma NoneExtended(anon: map<nat, nat>, frames: set<nat>, a: nat)
    ensures Extended(anon, frames, anon, a, a)
  {
  }

  lemma ExtendStep(anon0: map<nat, nat>, frames: set<nat>, anon: map<nat, nat>, anon': map<nat, nat>, a: nat, b: nat,
                   f: nat)
    requires Extended(anon0, frames, anon, a, b) && a <= b && anon' == anon[b := f] && f !in frames
    ensures Extended(anon0, frames, anon', a, b + 1)
  {
    hide Range;
  }

  lemma ElsewhereTrans(m0: Phys, m1: Phys, m2: Phys, a: nat, b: nat)
    requires ElsewhereSame(m0, m1, a, b) && ElsewhereSame(m1, m2, b, b + 1) && a <= b
    ensures ElsewhereSame(m0, m2, a, b + 1)
  {
    hide Walk, PageNo4K;
  }

  /** Two addresses in different pages mapped on demand are never translated into the same frame. */
  lemma DifferentFrames(m: Phys, anon: map<nat, nat>, frames: set<nat>, va: u64, vb: u64)
    requires Private(m, anon, frames) && PageNo4K(va) in anon && PageNo4K(vb) in anon && PageNo4K(va) != PageNo4K(vb)
    ensures var (x, y) := (Walk(m, PML4, 4, va), Walk(m, PML4, 4, vb));
            x.Some? && y.Some? && x.value / 4096 != y.value / 4096
  {
    hide Walk, PageNo4K;
    assert Maps(m, PageNo4K(va), anon[PageNo4K(va)]) && Maps(m, PageNo4K(vb), anon[PageNo4K(vb)]);
  }
}
