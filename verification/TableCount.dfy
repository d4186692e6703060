/** Which page tables a mapping finds missing, and how many a range of mappings takes. */
module TableCount {
  import opened Common
  import opened Machine
  import opened PageTables

  const PML4 := 3                        // PML4T_START / PAGE_SIZE_4K

  /** The walk of va does not get to a table of level k. */
  predicate Missing(m: Phys, va: u64, k: nat)
    requires 1 <= k <= 3
  {
    Passes(m, PML4, 4, va, k).None?
  }

  /** The indices that lead to the table of level k. */
  function Path(va: u64, k: nat): (s: seq<nat>)
    requires 1 <= k <= 3
    ensures |s| == 4 - k
    decreases 3 - k
  {
    if k == 3 then [Index(va, 4)] else Path(va, k + 1) + [Index(va, k + 1)]
  }

  lemma {:induction false} PathAgree(va: u64, vb: u64, k: nat)
    requires 1 <= k <= 3
    ensures Path(va, k) == Path(vb, k) <==> Agree(va, vb, k + 1)
    decreases 3 - k
  {
    if k < 3 {
      PathAgree(va, vb, k + 1);
      var s, t, i, j := Path(va, k + 1), Path(vb, k + 1), Index(va, k + 1), Index(vb, k + 1);
      assert (s + [i])[..|s|] == s && (t + [j])[..|t|] == t && (s + [i])[|s|] == i && (t + [j])[|t|] == j;
    }
  }

  /** The tables of the levels lo to hi on the way of va are there, all others as before. */
  ghost predicate Added(m: Phys, m': Phys, va: u64, lo: nat, hi: nat) {
    forall vb: u64, j :: 1 <= j <= 3 ==>
                           (Missing(m', vb, j) <==> Missing(m, vb, j) && !(lo <= j <= hi && Path(va, j) == Path(vb, j)))
  }

  lemma NoneBelow(m: Phys, va: u64, k: nat)
    requires 1 <= k <= 3 && Missing(m, va, k)
    ensures forall j :: 1 <= j <= k ==> Missing(m, va, j)
  {
    if k > 1 { PassesStep(m, PML4, 4, va, k - 1); }
    if k > 2 { PassesStep(m, PML4, 4, va, k - 2); }
  }

  /** The walk of va does not get past a table without entries. */
  lemma EmptyBelow(m: Phys, va: u64, k: nat, q: nat)
    requires 1 <= k <= 3 && Passes(m, PML4, 4, va, k) == Some(q)
    requires forall j :: 0 <= j < ENTRIES ==> Entry(m, q, j) == 0
    ensures forall j :: 1 <= j < k ==> Missing(m, va, j)
  {
    if k > 1 {
      PassesStep(m, PML4, 4, va, k - 1);
      NoneBelow(m, va, k - 1);
    }
  }

  /** A new table of level k on the way of va is the only one added. */
  lemma GrowAdds(m: Phys, t: Tree, p: nat, i: nat, q: nat, va: u64, k: nat)
    requires CanGrow(m, t, p, i, q) && t.root == PML4 && 1 <= k <= 3 && t.level[p] == k + 1
    requires Passes(m, PML4, 4, va, k + 1) == Some(p) && Index(va, k + 1) == i
    ensures Added(m, WithTable(m, p, i, q), va, k, k)
  {
    var m' := WithTable(m, p, i, q);
    hide WithTable, Passes, Path;
    forall vb: u64, j | 1 <= j <= 3
      ensures Missing(m', vb, j) <==> Missing(m, vb, j) && !(j == k && Path(va, j) == Path(vb, j))
    {
      GrowMissing(m, t, p, i, q, va, vb, k, j);
    }
  }

  lemma GrowMissing(m: Phys, t: Tree, p: nat, i: nat, q: nat, va: u64, vb: u64, k: nat, j: nat)
    requires CanGrow(m, t, p, i, q) && t.root == PML4 && 1 <= k <= 3 && 1 <= j <= 3 && t.level[p] == k + 1
    requires Passes(m, PML4, 4, va, k + 1) == Some(p) && Index(va, k + 1) == i
    ensures Missing(WithTable(m, p, i, q), vb, j) <==> Missing(m, vb, j) && !(j == k && Path(va, j) == Path(vb, j))
  {
    hide WithTable, CanGrow, Passes, Path;
    CanGrowTree(m, t, p, i, q);
    var m' := WithTable(m, p, i, q);
    GrownWalk(m, t, p, i, q, vb);
    PathAgree(va, vb, k);
    if j <= k {
      if Agree(va, vb, k + 1) {
        AgreeSameTable(m, PML4, 4, va, vb, k + 1);
        PassesStep(m, PML4, 4, vb, k);
        NoneBelow(m, vb, k);
        GrownEntries(m, t, p, i, q);
        EmptyBelow(m', vb, k, q);
      } else {
        ElsewhereMissing(m, t, p, i, q, va, vb, k, j);
      }
    }
  }

  lemma ElsewhereMissing(m: Phys, t: Tree, p: nat, i: nat, q: nat, va: u64, vb: u64, k: nat, j: nat)
    requires CanGrow(m, t, p, i, q) && t.root == PML4 && 1 <= k <= 3 && 1 <= j <= 3 && t.level[p] == k + 1
    requires Passes(m, PML4, 4, va, k + 1) == Some(p) && Index(va, k + 1) == i && !Agree(va, vb, k + 1)
    ensures Missing(WithTable(m, p, i, q), vb, j) == Missing(m, vb, j)
  {
    hide WithTable, CanGrow, Passes;
    CanGrowTree(m, t, p, i, q);
    GrownEntries(m, t, p, i, q);
    var m' := WithTable(m, p, i, q);
    forall a, b | a in t.level && 0 <= b < ENTRIES && (a, b) != (p, i)
      ensures Entry(m', a, b) == Entry(m, a, b)
    {
    }
    if Passes(m, PML4, 4, vb, k + 1) == Some(p) && Index(vb, k + 1) == i {
      SameTableAgree(m, t, va, vb, k + 1);
    }
    WalkUnseen(m, m', t, PML4, 4, vb, p, i);
  }

  lemma PresentAdds(m: Phys, va: u64, k: nat)
    requires 1 <= k <= 3 && !Missing(m, va, k)
    ensures Added(m, m, va, k, k)
  {
    hide Passes, Path;
    forall vb: u64 | Path(va, k) == Path(vb, k)
      ensures !Missing(m, vb, k)
    {
      PathAgree(va, vb, k);
      AgreeSameTable(m, PML4, 4, va, vb, k);
    }
  }

  lemma NoneAdded(m: Phys, va: u64)
    ensures Added(m, m, va, 4, 3)
  {
  }

  lemma AddedTrans(m0: Phys, m1: Phys, m2: Phys, va: u64, k: nat)
    requires 1 <= k <= 3 && Added(m0, m1, va, k + 1, 3) && Added(m1, m2, va, k, k)
    ensures Added(m0, m2, va, k, 3)
  {
    hide Missing, Path;
  }

  /** From level k up, the tables on the way of va are there, all others as before. */
  ghost predicate Provided(m: Phys, m': Phys, va: u64, k: nat)
    requires k >= 1
  {
    forall vb: u64, j :: k <= j <= 3 ==> (Missing(m', vb, j) <==> Missing(m, vb, j) && Path(va, j) != Path(vb, j))
  }

  /** No table of level k or above comes or goes. */
  ghost predicate KeptFrom(m: Phys, m': Phys, k: nat)
    requires k >= 1
  {
    forall vb: u64, j :: k <= j <= 3 ==> Missing(m', vb, j) == Missing(m, vb, j)
  }

  lemma LeafKeeps(m: Phys, t: Tree, p: nat, i: nat, e: u64)
    requires WellFormed(m, t) && t.root == PML4 && p in t.level && i < ENTRIES && 1 <= t.level[p] <= 3
             && (p + 1) * WORDS <= |m|
    ensures KeptFrom(m, SetEntry(m, p, i, e), t.level[p])
  {
    hide Passes, SetEntry;
    var m' := SetEntry(m, p, i, e);
    forall q: nat, j | 0 <= j < ENTRIES
      ensures Entry(m', q, j) == if q == p && j == i then e else Entry(m, q, j)
    {
      EntryAfterSet(m, p, i, e, q, j);
    }
    forall vb: u64, j | t.level[p] <= j <= 3
      ensures Missing(m', vb, j) == Missing(m, vb, j)
    {
      PassesKept(m, m', t, PML4, 4, vb, j, p, i);
    }
  }

  lemma AddedThenKept(m0: Phys, m1: Phys, m2: Phys, va: u64, k: nat)
    requires 1 <= k <= 3 && Added(m0, m1, va, k, 3) && KeptFrom(m1, m2, k)
    ensures Provided(m0, m2, va, k)
  {
    hide Missing, Path;
  }

  // ---- counting ----

  /** The tables a mapping of va has to add, k being the level of its leaf's table. */
  function TablesNeeded(m: Phys, va: u64, k: nat): (n: nat)
    requires 1 <= k <= 2
    ensures n <= 4 - k
  {
    (if Missing(m, va, 3) then 1 else 0) + (if Missing(m, va, 2) then 1 else 0)
    + (if k == 1 && Missing(m, va, 1) then 1 else 0)
  }

  /** Their paths. */
  function MissingAt(m: Phys, va: u64, k: nat): (s: set<seq<nat>>)
    requires 1 <= k <= 2
    ensures |s| == TablesNeeded(m, va, k)
  {
    Only(Missing(m, va, 3), Path(va, 3)) + Only(Missing(m, va, 2), Path(va, 2))
    + Only(k == 1 && Missing(m, va, 1), Path(va, 1))
  }

  function Only(b: bool, s: seq<nat>): set<seq<nat>> { if b then {s} else {} }

  /** The bytes a leaf in a table of level k maps. */
  function PageSize(k: nat): nat { if k == 1 then 0x1000 else 0x20_0000 }

  /** `count` pages from va on do not reach the end of the address space. */
  predicate InSpace(va: nat, count: nat, k: nat) {
    if k == 1 then va + count * 0x1000 < TWO_64 else va + count * 0x20_0000 < TWO_64
  }

  /** The paths of all tables missing for `count` pages from va on. */
  function MissingOn(m: Phys, va: u64, count: nat, k: nat): set<seq<nat>>
    requires 1 <= k <= 2 && InSpace(va, count, k)
    decreases count
  {
    if count == 0 then {} else MissingAt(m, va, k) + MissingOn(m, va + PageSize(k), count - 1, k)
  }

  lemma MissingAtMember(m: Phys, va: u64, k: nat, s: seq<nat>)
    requires 1 <= k <= 2
    ensures s in MissingAt(m, va, k) <==> k <= 4 - |s| <= 3 && s == Path(va, 4 - |s|) && Missing(m, va, 4 - |s|)
  {
    hide Passes, Path;
  }

  lemma SamePathMissing(m: Phys, va: u64, vb: u64, k: nat)
    requires 1 <= k <= 3 && Path(va, k) == Path(vb, k)
    ensures Missing(m, va, k) == Missing(m, vb, k)
  {
    hide Passes, Path;
    PathAgree(va, vb, k);
    AgreeSameTable(m, PML4, 4, va, vb, k);
  }

  /** What is missing elsewhere once va is mapped. */
  lemma MissingAfter(m: Phys, m': Phys, va: u64, vb: u64, k: nat)
    requires 1 <= k <= 2 && Provided(m, m', va, k)
    ensures MissingAt(m', vb, k) == MissingAt(m, vb, k) - MissingAt(m, va, k)
  {
    hide Missing, Path, MissingAt;
    forall s
      ensures s in MissingAt(m', vb, k) <==> s in MissingAt(m, vb, k) && s !in MissingAt(m, va, k)
    {
      MissingAtMember(m', vb, k, s);
      MissingAtMember(m, vb, k, s);
      MissingAtMember(m, va, k, s);
      if k <= 4 - |s| <= 3 && Path(va, 4 - |s|) == Path(vb, 4 - |s|) { SamePathMissing(m, va, vb, 4 - |s|); }
    }
  }

  lemma MissingOnSplit(m: Phys, va: u64, count: nat, k: nat)
    requires 1 <= k <= 2 && count > 0 && InSpace(va, count, k)
    ensures va + PageSize(k) < TWO_64 && InSpace(va + PageSize(k), count - 1, k)
    ensures MissingOn(m, va, count, k) == MissingAt(m, va, k) + MissingOn(m, va + PageSize(k), count - 1, k)
  {
  }

  lemma NoPages(m: Phys, va: u64, k: nat)
    requires 1 <= k <= 2
    ensures InSpace(va, 0, k) && MissingOn(m, va, 0, k) == {}
  {
  }

  lemma {:induction false} MissingOnAfter(m: Phys, m': Phys, va: u64, vb: u64, count: nat, k: nat)
    requires 1 <= k <= 2 && Provided(m, m', va, k) && InSpace(vb, count, k)
    ensures MissingOn(m', vb, count, k) == MissingOn(m, vb, count, k) - MissingAt(m, va, k)
    decreases count
  {
    hide MissingAt, MissingOn, Provided, PageSize, InSpace;
    if count == 0 {
      NoPages(m, vb, k);
      NoPages(m', vb, k);
    } else {
      MissingAfter(m, m', va, vb, k);
      MissingOnSplit(m, vb, count, k);
      MissingOnSplit(m', vb, count, k);
      var next := vb + PageSize(k);
      MissingOnAfter(m, m', va, next, count - 1, k);
      UnionMinus(MissingAt(m, vb, k), MissingOn(m, next, count - 1, k), MissingAt(m, va, k));
    }
  }

  lemma UnionMinus(a: set<seq<nat>>, b: set<seq<nat>>, x: set<seq<nat>>)
    ensures (a - x) + (b - x) == (a + b) - x
  {
  }

  /** Mapping the first page of a range takes its missing tables off those of the range. */
  lemma MissingStep(m: Phys, m': Phys, va: u64, count: nat, k: nat)
    requires 1 <= k <= 2 && Provided(m, m', va, k) && count > 0 && InSpace(va, count, k)
    ensures va + PageSize(k) < TWO_64 && InSpace(va + PageSize(k), count - 1, k)
    ensures |MissingOn(m', va + PageSize(k), count - 1, k)| == |MissingOn(m, va, count, k)| - TablesNeeded(m, va, k)
  {
    hide MissingAt, MissingOn, TablesNeeded, Provided, PageSize, InSpace;
    MissingOnSplit(m, va, count, k);
    MissingOnAfter(m, m', va, va + PageSize(k), count - 1, k);
    SetSplit(MissingAt(m, va, k), MissingOn(m, va + PageSize(k), count - 1, k));
  }

  lemma SetSplit(a: set<seq<nat>>, b: set<seq<nat>>)
    ensures |b - a| == |a + b| - |a|
  {
    assert a + b == a + (b - a);
  }

  /** A range needs at least the tables its first page needs. */
  lemma FirstNeeds(m: Phys, va: u64, count: nat, k: nat)
    requires 1 <= k <= 2 && count > 0 && InSpace(va, count, k)
    ensures TablesNeeded(m, va, k) <= |MissingOn(m, va, count, k)|
  {
    hide MissingAt, MissingOn, TablesNeeded, PageSize, InSpace;
    MissingOnSplit(m, va, count, k);
    SetSplit(MissingAt(m, va, k), MissingOn(m, va + PageSize(k), count - 1, k));
  }
}
