/**
 4-level x86-64 page tables in physical memory (Intel SDM volume 3A, section 4.5), and the
 edits kernel/mem/mem.c makes to them.  Tables and frames are named by their page number.
 */
module PageTables {
  import opened Common
  import opened Machine

  const ENTRIES := 512
  const WORDS := 512                     // 64-bit words in a page
  const FRAMES: nat := 0x10_0000_0000    // 2^36 page numbers in bits 12 to 47

  /** Physical memory, word by word. */
  type Phys = seq<u64>

  // ---- entries ----

  function Entry(m: Phys, page: nat, i: nat): u64 {
    if page * WORDS + i < |m| then m[page * WORDS + i] else 0
  }

  function SetEntry(m: Phys, page: nat, i: nat, e: u64): (m': Phys)
    requires page * WORDS + i < |m|
    ensures |m'| == |m|
  {
    m[page * WORDS + i := e]
  }

  predicate Present(e: u64) { e % 2 == 1 }

  predicate Large(e: u64) { e / 128 % 2 == 1 }

  /** PTE_PAGE_WRITE */
  predicate Writable(e: u64) { e / 2 % 2 == 1 }

  /** The frame or table an entry names: bits 12 to 47. */
  function FrameNo(e: u64): (f: nat)
    ensures f < FRAMES
  {
    e / 4096 % FRAMES
  }

  /** The entry is a pointer to a table of the next level. */
  predicate Points(e: u64) { Present(e) && !Large(e) }

  /** PTE_PAGE_PRESENT | PTE_PAGE_WRITE on a page number. */
  function TableEntry(page: nat): u64
    requires page < FRAMES
  {
    page * 4096 + 3
  }

  /** (page_addr & PTE_PAGE_NUMBER_MASK_4K) | PTE_PAGE_PRESENT | PTE_PAGE_WRITE */
  function Leaf4K(addr: u64): u64 { addr / 4096 % FRAMES * 4096 + 3 }

  /** (page_addr & PTE_PAGE_NUMBER_MASK_2M) | PTE_PAGE_PRESENT | PTE_PAGE_WRITE | PTE_PAGE_SIZE_2M */
  function Leaf2M(addr: u64): u64 { addr / 0x20_0000 % 0x800_0000 * 0x20_0000 + 0x83 }

  lemma EntryFields(page: nat, addr: u64)
    requires page < FRAMES
    ensures Points(TableEntry(page)) && FrameNo(TableEntry(page)) == page && TableEntry(page) != 0
    ensures Points(Leaf4K(addr)) && FrameNo(Leaf4K(addr)) == addr / 4096 % FRAMES
    ensures Present(Leaf2M(addr)) && Large(Leaf2M(addr)) && FrameNo(Leaf2M(addr)) == addr / 0x20_0000 % 0x800_0000 * 512
    ensures Writable(TableEntry(page)) && Writable(Leaf4K(addr)) && Writable(Leaf2M(addr))
  {
    EntriesWritable(page, addr);
    SmallEntry(page);
    SmallEntry(addr / 4096 % FRAMES);
    LargeEntry(addr / 0x20_0000 % 0x800_0000);
  }

  lemma EntriesWritable(page: nat, addr: u64)
    requires page < FRAMES
    ensures TableEntry(page) / 2 % 2 == 1 && Leaf4K(addr) / 2 % 2 == 1 && Leaf2M(addr) / 2 % 2 == 1
  {
    SmallWritable(page);
    SmallWritable(addr / 4096 % FRAMES);
    var e := Leaf2M(addr);
    var g := addr / 0x20_0000 % 0x800_0000;
    DivModUnique(e, 2, g * 0x10_0000 + 0x41, 1);
    DivModUnique(g * 0x10_0000 + 0x41, 2, g * 0x8_0000 + 0x20, 1);
  }

  lemma SmallWritable(f: nat)
    ensures (f * 4096 + 3) / 2 % 2 == 1
  {
    DivModUnique(f * 4096 + 3, 2, f * 2048 + 1, 1);
    DivModUnique(f * 2048 + 1, 2, f * 1024, 1);
  }

  lemma SmallEntry(f: nat)
    requires f < FRAMES
    ensures Points(f * 4096 + 3) && FrameNo(f * 4096 + 3) == f
  {
    var e := f * 4096 + 3;
    DivModUnique(e, 4096, f, 3);
    DivModUnique(e, 128, f * 32, 3);
    DivModUnique(e, 2, f * 2048 + 1, 1);
  }

  lemma LargeEntry(g: nat)
    requires g < 0x800_0000
    ensures Present(g * 0x20_0000 + 0x83) && Large(g * 0x20_0000 + 0x83) && FrameNo(g * 0x20_0000 + 0x83) == g * 512
  {
    LargeFlags(g);
    LargeFrame(g);
  }

  lemma LargeFlags(g: nat)
    requires g < 0x800_0000
    ensures Present(g * 0x20_0000 + 0x83) && Large(g * 0x20_0000 + 0x83)
  {
    DivModUnique(g * 0x20_0000 + 0x83, 128, g * 16384 + 1, 3);
    DivModUnique(g * 0x20_0000 + 0x83, 2, g * 0x10_0000 + 0x41, 1);
    DivModUnique(g * 16384 + 1, 2, g * 8192, 1);
  }

  lemma LargeFrame(g: nat)
    requires g < 0x800_0000
    ensures FrameNo(g * 0x20_0000 + 0x83) == g * 512
  {
    DivModUnique(g * 0x20_0000 + 0x83, 4096, g * 512, 0x83);
    DivModUnique(g * 512, FRAMES, 0, g * 512);
  }

  // ---- the walk ----

  /** The bytes an entry of a table of this level spans. */
  function Span(level: nat): nat
    requires 1 <= level <= 4
  {
    if level == 1 then 0x1000 else if level == 2 then 0x20_0000 else if level == 3 then 0x4000_0000 else 0x80_0000_0000
  }

  /** The index into the table of this level: pt_index, pdt_index, pdpt_index, pml4t_index. */
  function Index(va: u64, level: nat): (i: nat)
    requires 1 <= level <= 4
    ensures i < ENTRIES
  {
    va / Span(level) % ENTRIES
  }

  /** The physical address va translates to, walking from a table of the given level. */
  function Walk(m: Phys, table: nat, level: nat, va: u64): Option<nat>
    requires 1 <= level <= 4
    decreases level
  {
    var e := Entry(m, table, Index(va, level));
    if !Present(e) then None
    else if level == 1 then Some(FrameNo(e) * 4096 + va % 4096)
    else if level < 4 && Large(e) then Some(FrameNo(e) * 4096 / Span(level) * Span(level) + va % Span(level))
    else Walk(m, FrameNo(e), level - 1, va)
  }

  /** The table of level k the walk of va passes, coming from a table of level l. */
  function Passes(m: Phys, table: nat, l: nat, va: u64, k: nat): Option<nat>
    requires 1 <= k <= l <= 4
    decreases l
  {
    if k == l then Some(table)
    else
      var e := Entry(m, table, Index(va, l));
      if Points(e) then Passes(m, FrameNo(e), l - 1, va, k) else None
  }

  // ---- well-formed trees ----

  /**
   level: the tables and their levels; parent: for each table but the root, the table and index of the entry that
   points to it.
   */
  datatype Tree = Tree(root: nat, level: map<nat, nat>, parent: map<nat, (nat, nat)>)

  ghost predicate Located(m: Phys, t: Tree) {
    && t.root in t.level && t.level[t.root] == 4
    && forall p :: p in t.level ==> 1 <= t.level[p] <= 4 && 0 < p < FRAMES && (p + 1) * WORDS <= |m|
  }

  ghost predicate EntryOK(m: Phys, t: Tree, p: nat, i: nat)
    requires p in t.level
  {
    var e := Entry(m, p, i);
    || t.level[p] == 1
    || e == 0
    || (t.level[p] == 2 && Present(e) && Large(e))
    || (Points(e) && FrameNo(e) in t.level && t.level[FrameNo(e)] + 1 == t.level[p]
        && FrameNo(e) in t.parent && t.parent[FrameNo(e)] == (p, i))
  }

  ghost predicate ParentOK(m: Phys, t: Tree, q: nat)
    requires q in t.level
  {
    q != t.root ==>
      && q in t.parent && t.parent[q].0 in t.level && t.parent[q].1 < ENTRIES
      && t.level[t.parent[q].0] == t.level[q] + 1
      && Points(Entry(m, t.parent[q].0, t.parent[q].1)) && FrameNo(Entry(m, t.parent[q].0, t.parent[q].1)) == q
  }

  /** Every table but the root hangs on exactly one entry, of a table one level up; nothing else is in the tables. */
  ghost predicate WellFormed(m: Phys, t: Tree) {
    && Located(m, t)
    && (forall p, i :: p in t.level && 0 <= i < ENTRIES ==> EntryOK(m, t, p, i))
    && (forall q :: q in t.level ==> ParentOK(m, t, q))
  }

  /** Below the entry at (p, i), p of level k, lie exactly the addresses that agree with va on the indices from k up. */
  ghost predicate Agree(va: u64, vb: u64, k: nat)
    requires 1 <= k <= 4
  {
    forall l :: k <= l <= 4 ==> Index(va, l) == Index(vb, l)
  }

  lemma EntryAfterSet(m: Phys, p: nat, i: nat, e: u64, q: nat, j: nat)
    requires (p + 1) * WORDS <= |m| && i < ENTRIES && j < ENTRIES
    ensures Entry(SetEntry(m, p, i, e), q, j) == if q == p && j == i then e else Entry(m, q, j)
  {
  }

  /** On a well-formed tree the walk stays on tables of the right level. */
  lemma {:induction false} PassesTable(m: Phys, t: Tree, table: nat, l: nat, va: u64, k: nat)
    requires WellFormed(m, t) && table in t.level && t.level[table] == l && 1 <= k <= l
    ensures var r := Passes(m, table, l, va, k); r.Some? ==> r.value in t.level && t.level[r.value] == k
    decreases l
  {
    if k < l {
      var e := Entry(m, table, Index(va, l));
      assert EntryOK(m, t, table, Index(va, l));
      if Points(e) { PassesTable(m, t, FrameNo(e), l - 1, va, k); }
    }
  }

  lemma {:induction false} PassesStep(m: Phys, table: nat, l: nat, va: u64, k: nat)
    requires 1 <= k < l <= 4
    ensures var up := Passes(m, table, l, va, k + 1);
            Passes(m, table, l, va, k) ==
            if up.Some? && Points(Entry(m, up.value, Index(va, k + 1)))
            then Some(FrameNo(Entry(m, up.value, Index(va, k + 1)))) else None
    decreases l
  {
    if k + 1 < l {
      var e := Entry(m, table, Index(va, l));
      if Points(e) { PassesStep(m, FrameNo(e), l - 1, va, k); }
    }
  }

  /** Two addresses whose walks pass the same table of level k agree on all indices above k. */
  lemma {:induction false} SameTableAgree(m: Phys, t: Tree, va: u64, vb: u64, k: nat)
    requires WellFormed(m, t) && 1 <= k <= 4
    requires Passes(m, t.root, 4, va, k).Some? && Passes(m, t.root, 4, va, k) == Passes(m, t.root, 4, vb, k)
    ensures forall l :: k < l <= 4 ==> Index(va, l) == Index(vb, l)
    decreases 4 - k
  {
    if k < 4 {
      PassesStep(m, t.root, 4, va, k);
      PassesStep(m, t.root, 4, vb, k);
      PassesTable(m, t, t.root, 4, va, k + 1);
      PassesTable(m, t, t.root, 4, vb, k + 1);
      var p, q := Passes(m, t.root, 4, va, k + 1).value, Passes(m, t.root, 4, vb, k + 1).value;
      assert EntryOK(m, t, p, Index(va, k + 1)) && EntryOK(m, t, q, Index(vb, k + 1));
      SameTableAgree(m, t, va, vb, k + 1);
    }
  }

  /** Conversely, agreeing indices lead to the same table. */
  lemma {:induction false} AgreeSameTable(m: Phys, table: nat, l: nat, va: u64, vb: u64, k: nat)
    requires 1 <= k <= l <= 4 && forall j :: k < j <= l ==> Index(va, j) == Index(vb, j)
    ensures Passes(m, table, l, va, k) == Passes(m, table, l, vb, k)
    decreases l
  {
    if k < l {
      var e := Entry(m, table, Index(va, l));
      if Points(e) { AgreeSameTable(m, FrameNo(e), l - 1, va, vb, k); }
    }
  }

  // ---- what an edit does to a walk ----

  /** A walk that does not read entry (p, i) does not see it change. */
  lemma {:induction false} WalkUnseen(m: Phys, m': Phys, t: Tree, table: nat, l: nat, va: u64, p: nat, i: nat)
    requires WellFormed(m, t) && table in t.level && t.level[table] == l && p in t.level && i < ENTRIES
    requires forall q, j :: q in t.level && 0 <= j < ENTRIES && (q, j) != (p, i) ==> Entry(m', q, j) == Entry(m, q, j)
    requires t.level[p] <= l ==> !(Passes(m, table, l, va, t.level[p]) == Some(p) && Index(va, t.level[p]) == i)
    ensures Walk(m', table, l, va) == Walk(m, table, l, va)
    ensures forall k :: 1 <= k <= l ==> Passes(m', table, l, va, k) == Passes(m, table, l, va, k)
    decreases l
  {
    var e := Entry(m, table, Index(va, l));
    assert EntryOK(m, t, table, Index(va, l));
    assert Entry(m', table, Index(va, l)) == e;
    if l > 1 && Points(e) {
      WalkUnseen(m, m', t, FrameNo(e), l - 1, va, p, i);
    }
  }

  /** Where a walk arrives at a table of level k, what remains of it is the walk from there. */
  lemma {:induction false} WalkFromTable(m: Phys, t: Tree, table: nat, l: nat, va: u64, k: nat)
    requires WellFormed(m, t) && table in t.level && t.level[table] == l && 1 <= k <= l
    requires Passes(m, table, l, va, k).Some?
    ensures Walk(m, table, l, va) == Walk(m, Passes(m, table, l, va, k).value, k, va)
    decreases l
  {
    if k < l {
      var e := Entry(m, table, Index(va, l));
      assert EntryOK(m, t, table, Index(va, l));
      WalkFromTable(m, t, FrameNo(e), l - 1, va, k);
    }
  }

  /** Tables at level k and above are reached as before when only an entry at or below level k changed. */
  lemma {:induction false} PassesKept(m: Phys, m': Phys, t: Tree, table: nat, l: nat, va: u64, k: nat, p: nat, i: nat)
    requires WellFormed(m, t) && table in t.level && t.level[table] == l && p in t.level && t.level[p] <= k
             && 1 <= k <= l
    requires forall q, j :: q in t.level && 0 <= j < ENTRIES && (q, j) != (p, i) ==> Entry(m', q, j) == Entry(m, q, j)
    ensures Passes(m', table, l, va, k) == Passes(m, table, l, va, k)
    decreases l
  {
    if k < l {
      var e := Entry(m, table, Index(va, l));
      assert EntryOK(m, t, table, Index(va, l));
      assert Entry(m', table, Index(va, l)) == e;
      if Points(e) { PassesKept(m, m', t, FrameNo(e), l - 1, va, k, p, i); }
    }
  }

  // ---- allocate_page and a new table ----

  function ZeroPage(m: Phys, q: nat): (m': Phys)
    requires (q + 1) * WORDS <= |m|
    ensures |m'| == |m|
  {
    m[..q * WORDS] + seq(WORDS, _ => 0) + m[(q + 1) * WORDS..]
  }

  lemma ZeroPageEntry(m: Phys, q: nat, p: nat, i: nat)
    requires (q + 1) * WORDS <= |m| && i < ENTRIES
    ensures Entry(ZeroPage(m, q), p, i) == if p == q then 0 else Entry(m, p, i)
  {
  }

  /** Memory and tree after entry (p, i) was pointed at the cleared page q. */
  function WithTable(m: Phys, p: nat, i: nat, q: nat): (m': Phys)
    requires (p + 1) * WORDS <= |m| && (q + 1) * WORDS <= |m| && i < ENTRIES && q < FRAMES
    ensures |m'| == |m|
  {
    SetEntry(ZeroPage(m, q), p, i, TableEntry(q))
  }

  ghost function Grown(t: Tree, p: nat, i: nat, q: nat): Tree
    requires p in t.level && t.level[p] > 1
  {
    Tree(t.root, t.level[q := (t.level[p] - 1) as nat], t.parent[q := (p, i)])
  }

  /** What hanging an empty table on an empty entry requires. */
  ghost predicate CanGrow(m: Phys, t: Tree, p: nat, i: nat, q: nat) {
    && WellFormed(m, t) && p in t.level && t.level[p] > 1 && i < ENTRIES && Entry(m, p, i) == 0
    && q !in t.level && 0 < q < FRAMES && (q + 1) * WORDS <= |m|
  }

  lemma GrownEntries(m: Phys, t: Tree, p: nat, i: nat, q: nat)
    requires CanGrow(m, t, p, i, q)
    ensures var m' := WithTable(m, p, i, q);
            forall a, j :: 0 <= j < ENTRIES ==>
                             Entry(m', a, j) ==
                             if a == p && j == i then TableEntry(q) else if a == q then 0 else Entry(m, a, j)
  {
    forall a: nat, j | 0 <= j < ENTRIES
      ensures Entry(WithTable(m, p, i, q), a, j) ==
              if a == p && j == i then TableEntry(q) else if a == q then 0 else Entry(m, a, j)
    {
      ZeroPageEntry(m, q, a, j);
      EntryAfterSet(ZeroPage(m, q), p, i, TableEntry(q), a, j);
    }
  }

  lemma GrownWellFormed(m: Phys, t: Tree, p: nat, i: nat, q: nat)
    requires CanGrow(m, t, p, i, q)
    ensures WellFormed(WithTable(m, p, i, q), Grown(t, p, i, q))
  {
    hide WithTable;
    var m', t' := WithTable(m, p, i, q), Grown(t, p, i, q);
    GrownEntries(m, t, p, i, q);
    EntryFields(q, 0);
    forall a, j | a in t'.level && 0 <= j < ENTRIES
      ensures EntryOK(m', t', a, j)
    {
      if a != q { assert EntryOK(m, t, a, j); }
    }
    forall a | a in t'.level
      ensures ParentOK(m', t', a)
    {
      if a != q { assert ParentOK(m, t, a); }
    }
  }

  /** A new empty table changes no translation; addresses whose walk ended at the empty entry now pass it. */
  lemma GrownWalk(m: Phys, t: Tree, p: nat, i: nat, q: nat, va: u64)
    requires CanGrow(m, t, p, i, q)
    ensures var m' := WithTable(m, p, i, q);
            Walk(m', t.root, 4, va) == Walk(m, t.root, 4, va)
    ensures var (m', k) := (WithTable(m, p, i, q), t.level[p]);
            && (forall j :: k <= j <= 4 ==> Passes(m', t.root, 4, va, j) == Passes(m, t.root, 4, va, j))
            && (Passes(m, t.root, 4, va, k) == Some(p) && Index(va, k) == i ==>
                  Passes(m', t.root, 4, va, k - 1) == Some(q))
  {
    hide WithTable;
    var m', t', k := WithTable(m, p, i, q), Grown(t, p, i, q), t.level[p];
    GrownWellFormed(m, t, p, i, q);
    GrownEntries(m, t, p, i, q);
    EntryFields(q, 0);
    forall j | k <= j <= 4
      ensures Passes(m', t.root, 4, va, j) == Passes(m, t.root, 4, va, j)
    {
      PassesKept(m, m', t, t.root, 4, va, j, p, i);
    }
    if Passes(m, t.root, 4, va, k) == Some(p) && Index(va, k) == i {
      WalkFromTable(m, t, t.root, 4, va, k);
      WalkFromTable(m', t', t.root, 4, va, k);
      PassesStep(m', t.root, 4, va, (k - 1) as nat);
    } else {
      WalkUnseen(m, m', t, t.root, 4, va, p, i);
    }
  }

  // ---- writing a leaf ----

  /** The tree after entry (p, i) became a leaf: a table the entry pointed to is cut off. */
  ghost function Pruned(m: Phys, t: Tree, p: nat, i: nat): Tree
    requires p in t.level
  {
    var e := Entry(m, p, i);
    if t.level[p] == 2 && Points(e) then Tree(t.root, t.level - {FrameNo(e)}, t.parent - {FrameNo(e)}) else t
  }

  /** e is a leaf for a table of level k: anything at level 1, a 2M page at level 2. */
  ghost predicate LeafFor(k: nat, e: u64) {
    Present(e) && (k == 1 || (k == 2 && Large(e)))
  }

  lemma LeafWellFormed(m: Phys, t: Tree, p: nat, i: nat, e: u64)
    requires WellFormed(m, t) && p in t.level && i < ENTRIES && LeafFor(t.level[p], e)
    ensures WellFormed(SetEntry(m, p, i, e), Pruned(m, t, p, i))
  {
    var m', t' := SetEntry(m, p, i, e), Pruned(m, t, p, i);
    assert EntryOK(m, t, p, i);
    forall a, j | a in t'.level && 0 <= j < ENTRIES
      ensures EntryOK(m', t', a, j)
    {
      EntryAfterSet(m, p, i, e, a, j);
      assert EntryOK(m, t, a, j);
    }
    forall a | a in t'.level
      ensures ParentOK(m', t', a)
    {
      assert ParentOK(m, t, a);
      if a != t.root { EntryAfterSet(m, p, i, e, t.parent[a].0, t.parent[a].1); }
    }
  }

  /** The translation a leaf of level k gives to the addresses below it. */
  function Translate(e: u64, k: nat, va: u64): nat
    requires 1 <= k <= 2
  {
    if k == 1 then FrameNo(e) * 4096 + va % 4096 else FrameNo(e) * 4096 / Span(2) * Span(2) + va % Span(2)
  }

  lemma TreeLevels(m: Phys, t: Tree, p: nat)
    requires WellFormed(m, t)
    ensures t.root in t.level && t.level[t.root] == 4
    ensures p in t.level ==> 1 <= t.level[p] <= 4 && 0 < p < FRAMES && (p + 1) * WORDS <= |m|
  {
  }

  lemma LeafLevels(k: nat, e: u64)
    requires LeafFor(k, e)
    ensures 1 <= k <= 2
  {
  }

  lemma AgreeIndices(va: u64, vb: u64, k: nat)
    requires 1 <= k <= 4 && Agree(va, vb, k)
    ensures forall l :: k <= l <= 4 ==> Index(va, l) == Index(vb, l)
  {
  }

  /** A walk that reads a leaf ends with its translation. */
  lemma LeafReached(m: Phys, p: nat, k: nat, e: u64, vb: u64)
    requires LeafFor(k, e) && 1 <= k <= 2 && Entry(m, p, Index(vb, k)) == e
    ensures Walk(m, p, k, vb) == Some(Translate(e, k, vb))
  {
    hide Entry, Index, Present, Large, FrameNo;
  }

  /** Every address that agrees with va reads the leaf. */
  lemma LeafHit(m: Phys, t: Tree, p: nat, i: nat, e: u64, va: u64, vb: u64)
    requires WellFormed(m, t) && p in t.level && i < ENTRIES && LeafFor(t.level[p], e)
    requires 1 <= t.level[p] <= 2 && (p + 1) * WORDS <= |m|
    requires Passes(m, t.root, 4, va, t.level[p]) == Some(p) && Index(va, t.level[p]) == i && Agree(va, vb, t.level[p])
    ensures Walk(SetEntry(m, p, i, e), t.root, 4, vb) == Some(Translate(e, t.level[p], vb))
  {
    hide WellFormed, Passes, Walk, Pruned, Translate, SetEntry, LeafFor, Agree, Entry, Index;
    var m', t', k := SetEntry(m, p, i, e), Pruned(m, t, p, i), t.level[p];
    TreeLevels(m, t, p);
    LeafWellFormed(m, t, p, i, e);
    TreeLevels(m', t', p);
    PrunedRoot(m, t, p, i);
    forall q: nat, j | 0 <= j < ENTRIES
      ensures Entry(m', q, j) == if q == p && j == i then e else Entry(m, q, j)
    {
      EntryAfterSet(m, p, i, e, q, j);
    }
    AgreeIndices(va, vb, k);
    AgreeSameTable(m, t.root, 4, va, vb, k);
    PassesKept(m, m', t, t.root, 4, vb, k, p, i);
    WalkFromTable(m', t', t.root, 4, vb, k);
    LeafReached(m', p, k, e, vb);
  }

  lemma PrunedRoot(m: Phys, t: Tree, p: nat, i: nat)
    requires p in t.level
    ensures Pruned(m, t, p, i).root == t.root
  {
  }

  /** No other address sees it. */
  lemma LeafMissed(m: Phys, t: Tree, p: nat, i: nat, e: u64, va: u64, vb: u64)
    requires WellFormed(m, t) && p in t.level && i < ENTRIES && 1 <= t.level[p] <= 2 && (p + 1) * WORDS <= |m|
    requires Passes(m, t.root, 4, va, t.level[p]) == Some(p) && Index(va, t.level[p]) == i && !Agree(va, vb, t.level[p])
    ensures Walk(SetEntry(m, p, i, e), t.root, 4, vb) == Walk(m, t.root, 4, vb)
  {
    hide WellFormed, Passes, Walk, SetEntry, Entry, Index;
    var m', k := SetEntry(m, p, i, e), t.level[p];
    TreeLevels(m, t, p);
    forall q: nat, j | 0 <= j < ENTRIES
      ensures Entry(m', q, j) == if q == p && j == i then e else Entry(m, q, j)
    {
      EntryAfterSet(m, p, i, e, q, j);
    }
    if Passes(m, t.root, 4, vb, k) == Some(p) && Index(vb, k) == i {
      SameTableAgree(m, t, va, vb, k);
    }
    WalkUnseen(m, m', t, t.root, 4, vb, p, i);
  }

  /** After a leaf is written, exactly the addresses that agree with va from its level up get the leaf's translation. */
  lemma LeafWalk(m: Phys, t: Tree, p: nat, i: nat, e: u64, va: u64, vb: u64)
    requires WellFormed(m, t) && p in t.level && i < ENTRIES && LeafFor(t.level[p], e)
    requires Passes(m, t.root, 4, va, t.level[p]) == Some(p) && Index(va, t.level[p]) == i
    ensures Walk(SetEntry(m, p, i, e), t.root, 4, vb) ==
            if Agree(va, vb, t.level[p]) then Some(Translate(e, t.level[p], vb)) else Walk(m, t.root, 4, vb)
  {
    hide WellFormed, Passes, Walk, Translate, SetEntry, LeafFor, Agree, Index;
    TreeLevels(m, t, p);
    LeafLevels(t.level[p], e);
    if Agree(va, vb, t.level[p]) {
      LeafHit(m, t, p, i, e, va, vb);
    } else {
      LeafMissed(m, t, p, i, e, va, vb);
    }
  }

  // ---- page numbers ----

  function PageNo4K(va: u64): nat { va / 0x1000 % FRAMES }

  function PageNo2M(va: u64): nat { va / 0x20_0000 % 0x800_0000 }

  /** Agreeing on the top indices is being in the same page. */
  lemma SamePage(va: u64, vb: u64)
    ensures Agree(va, vb, 1) <==> PageNo4K(va) == PageNo4K(vb)
    ensures Agree(va, vb, 2) <==> PageNo2M(va) == PageNo2M(vb)
  {
    hide Agree;
    AgreeExpand(va, vb);
    LowDigits(va);
    LowDigits(vb);
    LowDigit(va / 0x4000_0000, vb / 0x4000_0000, 512);
    LowDigit(va / 0x20_0000, vb / 0x20_0000, 0x4_0000);
    LowDigit(va / 0x1000, vb / 0x1000, 0x800_0000);
  }

  lemma AgreeExpand(va: u64, vb: u64)
    ensures Agree(va, vb, 2) <==>
            Index(va, 2) == Index(vb, 2) && Index(va, 3) == Index(vb, 3) && Index(va, 4) == Index(vb, 4)
    ensures Agree(va, vb, 1) <==> Agree(va, vb, 2) && Index(va, 1) == Index(vb, 1)
  {
  }

  lemma LowDigits(va: u64)
    ensures va / 0x1000 / 512 == va / 0x20_0000
    ensures va / 0x20_0000 / 512 == va / 0x4000_0000
    ensures va / 0x4000_0000 / 512 == va / 0x80_0000_0000
  {
  }

  /** The fields of a virtual address: an offset of 12 bits, and four indices of 9 bits, the one of level 4 on top. */
  lemma AddressFields(va: u64)
    ensures va % 0x1_0000_0000_0000 ==
            Index(va, 4) * 0x80_0000_0000 + Index(va, 3) * 0x4000_0000 + Index(va, 2) * 0x20_0000
            + Index(va, 1) * 0x1000 + va % 0x1000
  {
    LowDigits(va);
    var top := va / 0x80_0000_0000;
    DivModUnique(va, 0x1_0000_0000_0000, top / 512, va - top / 512 * 0x1_0000_0000_0000);
  }

  /** HEAP_VIRTUAL_ADDR */
  lemma HeapAddress()
    ensures var va := 0x100_0000_0000;
            Index(va, 4) == 2 && Index(va, 3) == Index(va, 2) == Index(va, 1) == 0
  {
  }

  lemma WalkTop(m: Phys, t: nat, va: u64)
    ensures Walk(m, t, 4, va) ==
            var e := Entry(m, t, va / 0x80_0000_0000 % 512);
            if e % 2 == 0 then None else Walk(m, e / 0x1000 % 0x10_0000_0000, 3, va)
  {
    hide Entry;
  }

  lemma WalkThird(m: Phys, t: nat, va: u64)
    ensures Walk(m, t, 3, va) ==
            var e := Entry(m, t, va / 0x4000_0000 % 512);
            var f := e / 0x1000 % 0x10_0000_0000;
            if e % 2 == 0 then None
            else if e / 0x80 % 2 == 1 then Some(f * 0x1000 / 0x4000_0000 * 0x4000_0000 + va % 0x4000_0000)
            else Walk(m, f, 2, va)
  {
    hide Entry;
  }

  lemma WalkSecond(m: Phys, t: nat, va: u64)
    ensures Walk(m, t, 2, va) ==
            var e := Entry(m, t, va / 0x20_0000 % 512);
            var f := e / 0x1000 % 0x10_0000_0000;
            if e % 2 == 0 then None
            else if e / 0x80 % 2 == 1 then Some(f * 0x1000 / 0x20_0000 * 0x20_0000 + va % 0x20_0000)
            else Walk(m, f, 1, va)
  {
    hide Entry;
  }

  lemma WalkFirst(m: Phys, t: nat, va: u64)
    ensures Walk(m, t, 1, va) ==
            var e := Entry(m, t, va / 0x1000 % 512);
            if e % 2 == 0 then None else Some(e / 0x1000 % 0x10_0000_0000 * 0x1000 + va % 0x1000)
  {
    hide Entry;
  }

  /** The walk from the root, with the bits it looks at. */
  lemma WalkFields(m: Phys, root: nat, va: u64)
    ensures Walk(m, root, 4, va) ==
            var e4 := Entry(m, root, va / 0x80_0000_0000 % 512);
            if e4 % 2 == 0 then None else
            var e3 := Entry(m, e4 / 0x1000 % 0x10_0000_0000, va / 0x4000_0000 % 512);
            if e3 % 2 == 0 then None
            else if e3 / 0x80 % 2 == 1 then Some(e3 / 0x1000 % 0x10_0000_0000 * 0x1000 / 0x4000_0000 * 0x4000_0000
                                                 + va % 0x4000_0000) else
              var e2 := Entry(m, e3 / 0x1000 % 0x10_0000_0000, va / 0x20_0000 % 512);
              if e2 % 2 == 0 then None
              else if e2 / 0x80 % 2 == 1 then Some(e2 / 0x1000 % 0x10_0000_0000 * 0x1000 / 0x20_0000 * 0x20_0000
                                                   + va % 0x20_0000) else
                var e1 := Entry(m, e2 / 0x1000 % 0x10_0000_0000, va / 0x1000 % 512);
                if e1 % 2 == 0 then None else Some(e1 / 0x1000 % 0x10_0000_0000 * 0x1000 + va % 0x1000)
  {
    hide Walk, Entry;
    var e4 := Entry(m, root, va / 0x80_0000_0000 % 512);
    var t3 := e4 / 0x1000 % 0x10_0000_0000;
    var e3 := Entry(m, t3, va / 0x4000_0000 % 512);
    var t2 := e3 / 0x1000 % 0x10_0000_0000;
    var e2 := Entry(m, t2, va / 0x20_0000 % 512);
    WalkTop(m, root, va);
    WalkThird(m, t3, va);
    WalkSecond(m, t2, va);
    WalkFirst(m, e2 / 0x1000 % 0x10_0000_0000, va);
  }

  lemma LowDigit(x: nat, y: nat, n: nat)
    requires n > 0
    ensures x % (512 * n) == y % (512 * n) <==> x % 512 == y % 512 && x / 512 % n == y / 512 % n
  {
    SplitDigit(x, n);
    SplitDigit(y, n);
  }

  lemma SplitDigit(x: nat, n: nat)
    requires n > 0
    ensures x % (512 * n) == 512 * (x / 512 % n) + x % 512
  {
    var q, d, h := x / 512 / n, x / 512 % n, x / 512;
    assert h == n * q + d;
    assert 512 * h == (512 * n) * q + 512 * d by {
      assert 512 * (n * q) == (512 * n) * q;
    }
    DivModUnique(x, 512 * n, q, 512 * d + x % 512);
  }

  // ---- 2M leaves on the way of a walk ----

  /** The walk of va ends at a 2M leaf. */
  ghost predicate UnderLarge(m: Phys, root: nat, va: u64) {
    var p := Passes(m, root, 4, va, 2);
    p.Some? && Present(Entry(m, p.value, Index(va, 2))) && Large(Entry(m, p.value, Index(va, 2)))
  }

  lemma GrownLarge(m: Phys, t: Tree, p: nat, i: nat, q: nat, va: u64)
    requires CanGrow(m, t, p, i, q)
    ensures UnderLarge(WithTable(m, p, i, q), t.root, va) <==> UnderLarge(m, t.root, va)
  {
    hide WithTable, CanGrow;
    CanGrowTree(m, t, p, i, q);
    var m' := WithTable(m, p, i, q);
    GrownEntries(m, t, p, i, q);
    GrownWalk(m, t, p, i, q, va);
    EntryFields(q, 0);
    PassesTable(m, t, t.root, 4, va, 2);
    if t.level[p] > 2 {
      GrownPasses2(m, t, p, i, q, va);
    }
  }

  lemma CanGrowTree(m: Phys, t: Tree, p: nat, i: nat, q: nat)
    requires CanGrow(m, t, p, i, q)
    ensures WellFormed(m, t) && p in t.level && 1 < t.level[p] <= 4 && q !in t.level && i < ENTRIES
    ensures (p + 1) * WORDS <= |m| && (q + 1) * WORDS <= |m| && q < FRAMES && t.root in t.level && t.level[t.root] == 4
    ensures Entry(m, p, i) == 0
  {
  }

  /** Below the new table there is nothing yet. */
  lemma GrownPasses2(m: Phys, t: Tree, p: nat, i: nat, q: nat, va: u64)
    requires CanGrow(m, t, p, i, q) && t.level[p] > 2
    ensures var (r, r') := (Passes(m, t.root, 4, va, 2), Passes(WithTable(m, p, i, q), t.root, 4, va, 2));
            r' == r || (r.None? && r' == Some(q))
  {
    hide WithTable, CanGrow;
    CanGrowTree(m, t, p, i, q);
    var m', k := WithTable(m, p, i, q), t.level[p];
    GrownEntries(m, t, p, i, q);
    GrownWalk(m, t, p, i, q, va);
    if Passes(m, t.root, 4, va, k) == Some(p) && Index(va, k) == i {
      PassesStep(m, t.root, 4, va, 2);
      PassesStep(m', t.root, 4, va, 2);
      if k == 4 {
        PassesStep(m, t.root, 4, va, 3);
      }
    } else {
      forall a, j | a in t.level && 0 <= j < ENTRIES && (a, j) != (p, i)
        ensures Entry(m', a, j) == Entry(m, a, j)
      {
      }
      WalkUnseen(m, m', t, t.root, 4, va, p, i);
    }
  }

  lemma LeafLarge(m: Phys, t: Tree, p: nat, i: nat, e: u64, va: u64)
    requires WellFormed(m, t) && p in t.level && i < ENTRIES && t.level[p] == 1
    ensures UnderLarge(SetEntry(m, p, i, e), t.root, va) <==> UnderLarge(m, t.root, va)
  {
    hide SetEntry;
    var m' := SetEntry(m, p, i, e);
    forall q: nat, j | 0 <= j < ENTRIES
      ensures Entry(m', q, j) == if q == p && j == i then e else Entry(m, q, j)
    {
      EntryAfterSet(m, p, i, e, q, j);
    }
    PassesKept(m, m', t, t.root, 4, va, 2, p, i);
    PassesTable(m, t, t.root, 4, va, 2);
  }
}
