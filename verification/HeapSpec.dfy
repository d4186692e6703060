/**
 The heap of kernel/mem/heap.c seen as values: the chunks in address order, the 32 free
 lists ("bins"), and the three counters.  The class in Heap.dfy keeps the same things in
 a byte memory; its methods are specified by the functions here.
 */
module HeapSpec {
  import opened Machine

  const HEADER := 24     // offset of the payload inside a heap_chunk
  const CHUNK := 40      // sizeof(heap_chunk): header and one free-list node
  const MIN_SIZE := 16   // sizeof(dlist)
  const ALIGN := 4
  const NUM_SIZES := 32

  datatype Chunk = Chunk(addr: nat, size: nat, used: bool) {
    function Payload(): nat { addr + HEADER }
    function End(): nat { addr + HEADER + size }
  }

  datatype State = State(
    lo: nat, hi: nat, chunks: seq<Chunk>, bins: seq<seq<nat>>,
    memFree: u64, memUsed: u64, memMeta: u64)

  // ---- sizes and bins ----

  /** The request after rounding up to ALIGN in 64-bit arithmetic and raising to MIN_SIZE. */
  function Rounded(request: u64): (r: nat)
    ensures MIN_SIZE <= r < TWO_64 && r % ALIGN == 0
    ensures request <= TWO_64 - ALIGN ==>
              request <= r <= request + MIN_SIZE && (r < request + ALIGN || r == MIN_SIZE)
    ensures request > TWO_64 - ALIGN ==> r == MIN_SIZE
  {
    var s := Wrap(request + ALIGN - 1) / ALIGN * ALIGN;
    if s < MIN_SIZE then MIN_SIZE else s
  }

  /** floor(log2 size), and -1 for 0. */
  function Slot(size: nat): (n: int)
    ensures n >= -1
    ensures n == -1 <==> size == 0
  {
    if size == 0 then -1 else 1 + Slot(size / 2)
  }

  lemma {:induction false} SlotIsLog2(size: nat)
    requires size > 0
    ensures Pow2(Slot(size)) <= size < Pow2(Slot(size) + 1)
  {
    if size > 1 { SlotIsLog2(size / 2); }
  }

  lemma SlotBounds(size: nat, k: nat)
    requires size > 0
    ensures size < Pow2(k) <==> Slot(size) < k
  {
    SlotIsLog2(size);
    if Slot(size) < k {
      Pow2Monotone(Slot(size) + 1, k);
    } else {
      Pow2Monotone(k, Slot(size));
    }
  }

  /** A size whose bin is above the bin of r - 1 is at least r. */
  lemma HigherBinFits(r: nat, size: nat)
    requires r > 1 && Slot(size) >= Slot(r - 1) + 1
    ensures r <= size
  {
    SlotIsLog2(r - 1);
    SlotBounds(size, Slot(r - 1) + 1);
  }

  /** The lowest bin from n on that is not empty, or NUM_SIZES. */
  function Fit(bins: seq<seq<nat>>, n: nat): (k: nat)
    requires |bins| == NUM_SIZES
    ensures k <= NUM_SIZES
    ensures k < NUM_SIZES ==> n <= k && bins[k] != []
    ensures forall j :: n <= j < k ==> bins[j] == []
    decreases NUM_SIZES - n
  {
    if n >= NUM_SIZES then NUM_SIZES
    else if bins[n] != [] then n
    else Fit(bins, n + 1)
  }

  ghost predicate NoDup(s: seq<nat>) {
    forall i, j :: 0 <= i < j < |s| ==> s[i] != s[j]
  }

  function Without(s: seq<nat>, a: nat): seq<nat> {
    if s == [] then [] else if s[0] == a then s[1..] else [s[0]] + Without(s[1..], a)
  }

  lemma NoDupRest(s: seq<nat>, j: nat)
    requires NoDup(s) && 0 < j < |s|
    ensures NoDup(s[1..]) && s[j] == s[1..][j - 1] && s[0] != s[j]
  {
  }

  lemma WithoutRest(s: seq<nat>, a: nat)
    requires s != [] && s[0] != a
    ensures Without(s, a) == [s[0]] + Without(s[1..], a)
  {
  }

  lemma JoinRest(s: seq<nat>, j: nat)
    requires 0 < j < |s|
    ensures [s[0]] + (s[1..][..j - 1] + s[1..][j..]) == s[..j] + s[j + 1..]
  {
  }

  lemma {:induction false} WithoutAt(s: seq<nat>, j: nat)
    requires j < |s| && NoDup(s)
    ensures Without(s, s[j]) == s[..j] + s[j + 1..]
  {
    hide NoDup, Without;
    if j == 0 {
      WithoutFirst(s);
    } else {
      NoDupRest(s, j);
      WithoutRest(s, s[j]);
      WithoutAt(s[1..], j - 1);
      JoinRest(s, j);
    }
  }

  lemma WithoutFirst(s: seq<nat>)
    requires s != []
    ensures Without(s, s[0]) == s[..0] + s[1..]
  {
  }

  lemma RemovedMembers(s: seq<nat>, j: nat)
    requires NoDup(s) && j < |s|
    ensures var t := s[..j] + s[j + 1..];
            NoDup(t) && forall x :: x in t <==> x in s && x != s[j]
  {
    var t := s[..j] + s[j + 1..];
    forall x | x in s && x != s[j]
      ensures x in t
    {
      var i :| 0 <= i < |s| && s[i] == x;
      assert t[if i < j then i else i - 1] == x;
    }
  }

  lemma WithoutMembers(s: seq<nat>, a: nat)
    requires NoDup(s) && a in s
    ensures NoDup(Without(s, a))
    ensures forall x :: x in Without(s, a) <==> x in s && x != a
  {
    hide NoDup, Without;
    var j :| 0 <= j < |s| && s[j] == a;
    WithoutAt(s, j);
    RemovedMembers(s, j);
  }

  // ---- the invariant ----

  ghost predicate Tiled(lo: nat, hi: nat, cs: seq<Chunk>) {
    && |cs| > 0 && cs[0].addr == lo && cs[|cs| - 1].End() == hi
    && (forall i :: 0 <= i < |cs| ==> cs[i].size >= MIN_SIZE)
    && (forall i, j :: 0 <= i && j == i + 1 && j < |cs| ==> cs[i].End() == cs[j].addr)
  }

  ghost predicate Aligned(cs: seq<Chunk>) {
    forall i :: 0 <= i < |cs| ==> cs[i].addr % ALIGN == 0 && cs[i].size % ALIGN == 0
  }

  /** No two neighbouring chunks are both free. */
  ghost predicate Coalesced(cs: seq<Chunk>) {
    forall i, j :: 0 <= i && j == i + 1 && j < |cs| ==> cs[i].used || cs[j].used
  }

  /** There is a free chunk at address a whose size belongs to bin k. */
  ghost predicate FreeAt(cs: seq<Chunk>, a: nat, k: int) {
    exists i :: 0 <= i < |cs| && cs[i].addr == a && !cs[i].used && Slot(cs[i].size) == k
  }

  /** The bins hold exactly the free chunks, each once, in the bin of its size. */
  ghost predicate BinsOK(cs: seq<Chunk>, bins: seq<seq<nat>>)
    requires |bins| == NUM_SIZES
  {
    && (forall k :: 0 <= k < NUM_SIZES ==> NoDup(bins[k]))
    && (forall k, a :: 0 <= k < NUM_SIZES ==> (a in bins[k] <==> FreeAt(cs, a, k)))
  }

  ghost predicate Bounds(lo: nat, hi: nat) {
    CHUNK < lo && lo + HEADER + MIN_SIZE <= hi <= TWO_64 - CHUNK && hi - lo - HEADER < TWO_32
  }

  ghost predicate Inv(h: State) {
    && Bounds(h.lo, h.hi)
    && Tiled(h.lo, h.hi, h.chunks) && Aligned(h.chunks)
    && Coalesced(h.chunks) && |h.bins| == NUM_SIZES && BinsOK(h.chunks, h.bins)
  }

  lemma {:induction false} Ascending(lo: nat, hi: nat, cs: seq<Chunk>, i: nat, j: nat)
    requires Tiled(lo, hi, cs) && i < j < |cs|
    ensures cs[i].End() <= cs[j].addr
    decreases j
  {
    if i + 1 < j { Ascending(lo, hi, cs, i, j - 1); }
  }

  lemma Within(lo: nat, hi: nat, cs: seq<Chunk>, i: nat)
    requires Tiled(lo, hi, cs) && i < |cs|
    ensures lo <= cs[i].addr && cs[i].End() <= hi && cs[i].size <= hi - lo - HEADER
  {
    if 0 < i { Ascending(lo, hi, cs, 0, i); }
    if i < |cs| - 1 { Ascending(lo, hi, cs, i, |cs| - 1); }
  }

  lemma UniqueAddr(lo: nat, hi: nat, cs: seq<Chunk>, i: nat, j: nat)
    requires Tiled(lo, hi, cs) && i < |cs| && j < |cs| && cs[i].addr == cs[j].addr
    ensures i == j
  {
    if i < j { Ascending(lo, hi, cs, i, j); }
    if j < i { Ascending(lo, hi, cs, j, i); }
  }

  /** Every size a chunk can have has a bin. */
  lemma SlotInRange(lo: nat, hi: nat, cs: seq<Chunk>, i: nat)
    requires Bounds(lo, hi) && Tiled(lo, hi, cs) && i < |cs|
    ensures 0 <= Slot(cs[i].size) < NUM_SIZES
  {
    Within(lo, hi, cs, i);
    Pow2Values();
    SlotBounds(cs[i].size, NUM_SIZES);
  }

  // ---- the chunk edits that kmalloc and kfree are made of ----

  function SetUsed(cs: seq<Chunk>, i: nat, used: bool): (ds: seq<Chunk>)
    requires i < |cs|
    ensures |ds| == |cs|
  {
    cs[i := cs[i].(used := used)]
  }

  function Split(cs: seq<Chunk>, i: nat, r: nat): seq<Chunk>
    requires i < |cs| && r + HEADER <= cs[i].size
  {
    cs[..i]
    + [Chunk(cs[i].addr, r, cs[i].used), Chunk(cs[i].Payload() + r, cs[i].size - r - HEADER, false)]
    + cs[i + 1..]
  }

  /** Chunks l..r, with the headers between them, become one chunk. */
  function Fuse(cs: seq<Chunk>, l: nat, r: nat, used: bool): (ds: seq<Chunk>)
    requires l <= r < |cs| && cs[l].addr + HEADER <= cs[r].End()
    ensures |ds| == |cs| - (r - l)
  {
    cs[..l] + [Chunk(cs[l].addr, cs[r].End() - cs[l].Payload(), used)] + cs[r + 1..]
  }

  function Push(bins: seq<seq<nat>>, k: nat, a: nat): (r: seq<seq<nat>>)
    requires k < |bins|
    ensures |r| == |bins|
  {
    bins[k := [a] + bins[k]]
  }

  function Drop(bins: seq<seq<nat>>, k: nat, a: nat): (r: seq<seq<nat>>)
    requires k < |bins|
    ensures |r| == |bins|
  {
    bins[k := Without(bins[k], a)]
  }

  /** The part of the invariant every single edit keeps. */
  ghost predicate Core(lo: nat, hi: nat, cs: seq<Chunk>, bins: seq<seq<nat>>) {
    Bounds(lo, hi) && Tiled(lo, hi, cs) && Aligned(cs) && |bins| == NUM_SIZES && BinsOK(cs, bins)
  }

  lemma BinsPushed(cs: seq<Chunk>, ds: seq<Chunk>, bins: seq<seq<nat>>, k0: nat, b: nat)
    requires |bins| == NUM_SIZES && BinsOK(cs, bins) && k0 < NUM_SIZES && !FreeAt(cs, b, k0)
    requires forall k, a :: FreeAt(ds, a, k) <==> FreeAt(cs, a, k) || (a == b && k == k0)
    ensures BinsOK(ds, Push(bins, k0, b))
  {
    hide FreeAt;
  }

  lemma BinsDropped(cs: seq<Chunk>, ds: seq<Chunk>, bins: seq<seq<nat>>, k0: nat, b: nat)
    requires |bins| == NUM_SIZES && BinsOK(cs, bins) && k0 < NUM_SIZES && b in bins[k0]
    requires forall k :: 0 <= k < NUM_SIZES && k != k0 ==> !FreeAt(cs, b, k)
    requires forall k, a :: FreeAt(ds, a, k) <==> FreeAt(cs, a, k) && a != b
    ensures BinsOK(ds, Drop(bins, k0, b))
  {
    hide FreeAt, Without, NoDup;
    WithoutMembers(bins[k0], b);
  }

  /** The chunk at an address is free in at most one size. */
  lemma FreeAtOne(lo: nat, hi: nat, cs: seq<Chunk>, i: nat, k: int)
    requires Tiled(lo, hi, cs) && i < |cs|
    ensures FreeAt(cs, cs[i].addr, k) <==> !cs[i].used && k == Slot(cs[i].size)
  {
    hide Tiled, Slot;
    if FreeAt(cs, cs[i].addr, k) {
      var j :| 0 <= j < |cs| && cs[j].addr == cs[i].addr && !cs[j].used && Slot(cs[j].size) == k;
      UniqueAddr(lo, hi, cs, i, j);
    }
  }

  /** Marking chunk i changes what is free at its address only. */
  lemma FreeElsewhere(lo: nat, hi: nat, cs: seq<Chunk>, i: nat, used: bool, a: nat, k: int)
    requires Tiled(lo, hi, cs) && i < |cs| && a != cs[i].addr
    ensures FreeAt(SetUsed(cs, i, used), a, k) <==> FreeAt(cs, a, k)
  {
    hide Tiled, Slot;
    var ds := SetUsed(cs, i, used);
    if FreeAt(ds, a, k) {
      var j :| 0 <= j < |ds| && ds[j].addr == a && !ds[j].used && Slot(ds[j].size) == k;
      assert cs[j] == ds[j];
    }
    if FreeAt(cs, a, k) {
      var j :| 0 <= j < |cs| && cs[j].addr == a && !cs[j].used && Slot(cs[j].size) == k;
      assert ds[j] == cs[j];
    }
  }

  lemma SetUsedTiled(lo: nat, hi: nat, cs: seq<Chunk>, i: nat, used: bool)
    requires Tiled(lo, hi, cs) && Aligned(cs) && i < |cs|
    ensures Tiled(lo, hi, SetUsed(cs, i, used)) && Aligned(SetUsed(cs, i, used))
  {
    var ds := SetUsed(cs, i, used);
    assert forall j :: 0 <= j < |ds| ==> ds[j].addr == cs[j].addr && ds[j].size == cs[j].size;
  }

  lemma SetUsedAt(cs: seq<Chunk>, i: nat, used: bool)
    requires i < |cs|
    ensures SetUsed(cs, i, used)[i] == cs[i].(used := used)
  {
  }

  /** Taking a free chunk off its bin. */
  lemma Grab(lo: nat, hi: nat, cs: seq<Chunk>, bins: seq<seq<nat>>, i: nat)
    requires Core(lo, hi, cs, bins) && i < |cs| && !cs[i].used
    ensures 0 <= Slot(cs[i].size) < NUM_SIZES && cs[i].addr in bins[Slot(cs[i].size)]
    ensures Core(lo, hi, SetUsed(cs, i, true), Drop(bins, Slot(cs[i].size), cs[i].addr))
  {
    hide Tiled, Aligned, FreeAt, Slot, SetUsed, Drop, Bounds;
    var c, k0, ds := cs[i], Slot(cs[i].size), SetUsed(cs, i, true);
    SlotInRange(lo, hi, cs, i);
    FreeAtOne(lo, hi, cs, i, k0);
    SetUsedTiled(lo, hi, cs, i, true);
    SetUsedAt(cs, i, true);
    forall k, a
      ensures FreeAt(ds, a, k) <==> FreeAt(cs, a, k) && a != c.addr
    {
      if a == c.addr { FreeAtOne(lo, hi, ds, i, k); } else { FreeElsewhere(lo, hi, cs, i, true, a, k); }
    }
    forall k | 0 <= k < NUM_SIZES && k != k0
      ensures !FreeAt(cs, c.addr, k)
    {
      FreeAtOne(lo, hi, cs, i, k);
    }
    BinsDropped(cs, ds, bins, k0, c.addr);
  }

  /** Putting a chunk on the bin of its size. */
  lemma Release(lo: nat, hi: nat, cs: seq<Chunk>, bins: seq<seq<nat>>, i: nat)
    requires Core(lo, hi, cs, bins) && i < |cs| && cs[i].used
    ensures 0 <= Slot(cs[i].size) < NUM_SIZES
    ensures Core(lo, hi, SetUsed(cs, i, false), Push(bins, Slot(cs[i].size), cs[i].addr))
  {
    hide Tiled, Aligned, BinsOK, FreeAt, Slot, SetUsed, Push, Bounds;
    var c, k0, ds := cs[i], Slot(cs[i].size), SetUsed(cs, i, false);
    SlotInRange(lo, hi, cs, i);
    FreeAtOne(lo, hi, cs, i, k0);
    SetUsedTiled(lo, hi, cs, i, false);
    SetUsedAt(cs, i, false);
    forall k, a
      ensures FreeAt(ds, a, k) <==> FreeAt(cs, a, k) || (a == c.addr && k == k0)
    {
      if a == c.addr {
        FreeAtOne(lo, hi, ds, i, k);
        FreeAtOne(lo, hi, cs, i, k);
      } else {
        FreeElsewhere(lo, hi, cs, i, false, a, k);
      }
    }
    BinsPushed(cs, ds, bins, k0, c.addr);
  }

  lemma SplitFree(cs: seq<Chunk>, i: nat, r: nat, a: nat, k: int)
    requires i < |cs| && r + HEADER <= cs[i].size && cs[i].used
    ensures FreeAt(Split(cs, i, r), a, k) <==>
            FreeAt(cs, a, k) || (a == cs[i].Payload() + r && k == Slot(cs[i].size - r - HEADER))
  {
    var ds := Split(cs, i, r);
    if FreeAt(ds, a, k) {
      var j :| 0 <= j < |ds| && ds[j].addr == a && !ds[j].used && Slot(ds[j].size) == k;
      if j < i { assert cs[j] == ds[j]; } else if j > i + 1 { assert cs[j - 1] == ds[j]; }
    }
    if FreeAt(cs, a, k) {
      var j :| 0 <= j < |cs| && cs[j].addr == a && !cs[j].used && Slot(cs[j].size) == k;
      assert ds[if j < i then j else j + 1] == cs[j];
    }
    assert ds[i + 1] == Chunk(cs[i].Payload() + r, cs[i].size - r - HEADER, false);
  }

  lemma SplitTiled(lo: nat, hi: nat, cs: seq<Chunk>, i: nat, r: nat)
    requires Tiled(lo, hi, cs) && Aligned(cs) && i < |cs|
    requires MIN_SIZE <= r && r % ALIGN == 0 && r + CHUNK <= cs[i].size
    ensures Tiled(lo, hi, Split(cs, i, r)) && Aligned(Split(cs, i, r))
  {
    var ds := Split(cs, i, r);
    forall j | 0 <= j < |ds|
      ensures ds[j].size >= MIN_SIZE && ds[j].addr % ALIGN == 0 && ds[j].size % ALIGN == 0
      ensures j < i ==> ds[j] == cs[j]
      ensures j > i + 1 ==> ds[j] == cs[j - 1]
    {
    }
  }

  /** Cutting the tail off a used chunk and putting it on its bin. */
  lemma SplitCore(lo: nat, hi: nat, cs: seq<Chunk>, bins: seq<seq<nat>>, i: nat, r: nat)
    requires Core(lo, hi, cs, bins) && i < |cs| && cs[i].used
    requires MIN_SIZE <= r && r % ALIGN == 0 && r + CHUNK <= cs[i].size
    ensures 0 <= Slot(cs[i].size - r - HEADER) < NUM_SIZES
    ensures Core(lo, hi, Split(cs, i, r), Push(bins, Slot(cs[i].size - r - HEADER), cs[i].Payload() + r))
  {
    hide Tiled, Aligned, BinsOK, FreeAt, Slot, Push, Bounds, Split;
    var ds, k0, b := Split(cs, i, r), Slot(cs[i].size - r - HEADER), cs[i].Payload() + r;
    SplitTiled(lo, hi, cs, i, r);
    SplitRest(cs, i, r);
    SlotInRange(lo, hi, ds, i + 1);
    forall k, a
      ensures FreeAt(ds, a, k) <==> FreeAt(cs, a, k) || (a == b && k == k0)
    {
      SplitFree(cs, i, r, a, k);
    }
    NoneInside(lo, hi, cs, i, b, k0);
    BinsPushed(cs, ds, bins, k0, b);
  }

  lemma SplitRest(cs: seq<Chunk>, i: nat, r: nat)
    requires i < |cs| && r + HEADER <= cs[i].size
    ensures |Split(cs, i, r)| == |cs| + 1 && Split(cs, i, r)[i + 1].size == cs[i].size - r - HEADER
  {
  }

  /** No chunk begins inside another one. */
  lemma NoneInside(lo: nat, hi: nat, cs: seq<Chunk>, i: nat, b: nat, k: int)
    requires Tiled(lo, hi, cs) && i < |cs| && cs[i].addr < b < cs[i].End()
    ensures !FreeAt(cs, b, k)
  {
    hide Tiled, Slot;
    if FreeAt(cs, b, k) {
      var j :| 0 <= j < |cs| && cs[j].addr == b && !cs[j].used && Slot(cs[j].size) == k;
      if j < i { Ascending(lo, hi, cs, j, i); } else { Ascending(lo, hi, cs, i, j); }
    }
  }

  lemma Spanning(lo: nat, hi: nat, cs: seq<Chunk>, l: nat, r: nat)
    requires Tiled(lo, hi, cs) && Aligned(cs) && l <= r < |cs|
    ensures cs[l].Payload() + MIN_SIZE <= cs[r].End() && cs[r].End() % ALIGN == 0
  {
    if l < r { Ascending(lo, hi, cs, l, r); }
  }

  lemma FuseTiled(lo: nat, hi: nat, cs: seq<Chunk>, l: nat, r: nat)
    requires Tiled(lo, hi, cs) && Aligned(cs) && l <= r < |cs|
    ensures cs[l].addr + HEADER <= cs[r].End()
    ensures Tiled(lo, hi, Fuse(cs, l, r, true)) && Aligned(Fuse(cs, l, r, true))
  {
    Spanning(lo, hi, cs, l, r);
    var ds := Fuse(cs, l, r, true);
    assert ds[l] == Chunk(cs[l].addr, cs[r].End() - cs[l].Payload(), true);
    assert forall j :: 0 <= j < l ==> ds[j] == cs[j];
    assert forall j :: l < j < |ds| ==> ds[j] == cs[j + r - l];
    hide Fuse;
    forall i, j | 0 <= i && j == i + 1 && j < |ds|
      ensures ds[i].End() == ds[j].addr
    {
      if i < l { assert cs[i].End() == cs[i + 1].addr; } else { assert cs[i + r - l].End() == cs[j + r - l].addr; }
    }
  }

  lemma FuseFree(cs: seq<Chunk>, l: nat, r: nat, a: nat, k: int)
    requires l <= r < |cs| && cs[l].addr + HEADER <= cs[r].End()
    requires forall j :: l <= j <= r ==> cs[j].used
    ensures FreeAt(Fuse(cs, l, r, true), a, k) <==> FreeAt(cs, a, k)
  {
    var ds := Fuse(cs, l, r, true);
    if FreeAt(ds, a, k) {
      var j :| 0 <= j < |ds| && ds[j].addr == a && !ds[j].used && Slot(ds[j].size) == k;
      assert cs[if j < l then j else j + r - l] == ds[j];
    }
    if FreeAt(cs, a, k) {
      var j :| 0 <= j < |cs| && cs[j].addr == a && !cs[j].used && Slot(cs[j].size) == k;
      assert ds[if j < l then j else j - r + l] == cs[j];
    }
  }

  /** Merging neighbours none of which is on a bin. */
  lemma FuseCore(lo: nat, hi: nat, cs: seq<Chunk>, bins: seq<seq<nat>>, l: nat, r: nat)
    requires Core(lo, hi, cs, bins) && l <= r < |cs|
    requires forall j :: l <= j <= r ==> cs[j].used
    ensures cs[l].addr + HEADER <= cs[r].End()
    ensures Core(lo, hi, Fuse(cs, l, r, true), bins)
  {
    FuseTiled(lo, hi, cs, l, r);
    forall k, a
      ensures FreeAt(Fuse(cs, l, r, true), a, k) <==> FreeAt(cs, a, k)
    {
      FuseFree(cs, l, r, a, k);
    }
  }
}
