/** kmalloc, kfree and krealloc of kernel/mem/heap.c as functions on HeapSpec.State, and what every call does. */
module HeapOps {
  import opened Machine
  import opened HeapSpec

  /** The counters are size_t variables. */
  function Add(x: u64, d: int): u64 { Wrap(x + d) }

  function Sub(x: u64, d: int): u64 { Wrap(x - d) }

  /** The index of the chunk at address a, or the number of chunks. */
  function Find(cs: seq<Chunk>, a: nat): (i: nat)
    ensures i <= |cs|
    ensures i < |cs| ==> cs[i].addr == a
    ensures forall j :: 0 <= j < i ==> cs[j].addr != a
  {
    if cs == [] then 0 else if cs[0].addr == a then 0 else 1 + Find(cs[1..], a)
  }

  lemma FindAt(lo: nat, hi: nat, cs: seq<Chunk>, i: nat)
    requires Tiled(lo, hi, cs) && i < |cs|
    ensures Find(cs, cs[i].addr) == i
  {
    var j := Find(cs, cs[i].addr);
    if j < |cs| { UniqueAddr(lo, hi, cs, i, j); }
  }

  // ---- initialisation ----

  function InitialBins(lo: nat, hi: nat): seq<seq<nat>>
    requires Bounds(lo, hi)
  {
    var len := hi - lo - HEADER;
    SizeHasSlot(len);
    seq(NUM_SIZES, k => if k == Slot(len) then [lo] else [])
  }

  lemma SizeHasSlot(size: nat)
    requires 0 < size < TWO_32
    ensures 0 <= Slot(size) < NUM_SIZES
  {
    Pow2Values();
    SlotBounds(size, NUM_SIZES);
  }

  /** mrvn_heap_init with `head` at lo - CHUNK and `tail` at hi. */
  function Init(lo: nat, hi: nat): State
    requires Bounds(lo, hi)
  {
    var len := hi - lo - HEADER;
    State(lo, hi, [Chunk(lo, len, false)], InitialBins(lo, hi), Wrap(len - HEADER), 0, 2 * CHUNK + HEADER)
  }

  lemma InitInv(lo: nat, hi: nat)
    requires Bounds(lo, hi) && lo % ALIGN == 0 && hi % ALIGN == 0
    ensures Inv(Init(lo, hi))
  {
    hide Slot;
    var h, len := Init(lo, hi), hi - lo - HEADER;
    SizeHasSlot(len);
    assert h.chunks == [Chunk(lo, len, false)];
    forall k, a | 0 <= k < NUM_SIZES
      ensures a in h.bins[k] <==> FreeAt(h.chunks, a, k)
    {
      assert h.bins[k] == if k == Slot(len) then [lo] else [];
      assert h.chunks[0].addr == lo && !h.chunks[0].used && h.chunks[0].size == len;
    }
  }

  // ---- kmalloc ----

  /** Chunk i leaves bin k and is handed out with payload at least r; its tail is given back if it can be a chunk. */
  function Allocate(h: State, k: nat, i: nat, r: nat): State
    requires Inv(h) && k < NUM_SIZES && h.bins[k] != [] && i < |h.chunks|
    requires !h.chunks[i].used && MIN_SIZE <= r <= h.chunks[i].size
  {
    var c := h.chunks[i];
    var popped := h.bins[k := h.bins[k][1..]];
    var taken := SetUsed(h.chunks, i, true);
    if r + CHUNK <= c.size then
      var len := c.size - r - HEADER;
      RestHasSlot(h, i, r);
      h.(chunks := Split(taken, i, r),
      bins := Push(popped, Slot(len), c.Payload() + r),
      memMeta := Add(h.memMeta, HEADER),
      memFree := Sub(Add(h.memFree, len - HEADER), c.size),
      memUsed := Add(h.memUsed, c.size - len - HEADER))
    else
      h.(chunks := taken,
      bins := popped,
      memFree := Sub(h.memFree, c.size),
      memUsed := Add(h.memUsed, c.size - HEADER))
  }

  lemma RestHasSlot(h: State, i: nat, r: nat)
    requires Inv(h) && i < |h.chunks| && r + CHUNK <= h.chunks[i].size
    ensures 0 <= Slot(h.chunks[i].size - r - HEADER) < NUM_SIZES
  {
    Within(h.lo, h.hi, h.chunks, i);
    SizeHasSlot(h.chunks[i].size - r - HEADER);
  }

  /** The bin kmalloc starts searching at: sizes in it are at least 2^ceil(log2 r). */
  function StartBin(r: nat): (n: nat)
    requires r >= MIN_SIZE
  {
    Slot(r - 1) + 1
  }

  function Malloc(h: State, request: u64): (State, nat)
    requires Inv(h)
  {
    var r := Rounded(request);
    var k := Fit(h.bins, StartBin(r));
    if k >= NUM_SIZES then (h, 0)
    else
      var i := Find(h.chunks, h.bins[k][0]);
      HeadFits(h, r);
      (Allocate(h, k, i, r), h.chunks[i].Payload())
  }

  /** The head of the bin that Fit chose is a free chunk of that bin, and large enough. */
  lemma HeadFits(h: State, r: nat)
    requires Inv(h) && r >= MIN_SIZE && Fit(h.bins, StartBin(r)) < NUM_SIZES
    ensures var k := Fit(h.bins, StartBin(r));
            var i := Find(h.chunks, h.bins[k][0]);
            i < |h.chunks| && !h.chunks[i].used && Slot(h.chunks[i].size) == k && r <= h.chunks[i].size
  {
    hide Tiled, Coalesced, Aligned, Slot;
    var k := Fit(h.bins, StartBin(r));
    var a := h.bins[k][0];
    assert FreeAt(h.chunks, a, k);
    var j :| 0 <= j < |h.chunks| && h.chunks[j].addr == a && !h.chunks[j].used && Slot(h.chunks[j].size) == k;
    FindAt(h.lo, h.hi, h.chunks, j);
    HigherBinFits(r, h.chunks[j].size);
  }

  lemma AllocateInv(h: State, k: nat, i: nat, r: nat)
    requires Inv(h) && k < NUM_SIZES && h.bins[k] != [] && i < |h.chunks|
    requires !h.chunks[i].used && MIN_SIZE <= r <= h.chunks[i].size && r % ALIGN == 0
    requires h.bins[k][0] == h.chunks[i].addr && Slot(h.chunks[i].size) == k
    ensures Inv(Allocate(h, k, i, r))
  {
    hide Tiled, BinsOK, Aligned;
    Grab(h.lo, h.hi, h.chunks, h.bins, i);
    assert Drop(h.bins, k, h.chunks[i].addr) == h.bins[k := h.bins[k][1..]];
    var taken := SetUsed(h.chunks, i, true);
    if r + CHUNK <= h.chunks[i].size {
      SplitCore(h.lo, h.hi, taken, h.bins[k := h.bins[k][1..]], i, r);
      SplitCoalesced(h.chunks, i, r);
    }
  }

  lemma SplitCoalesced(cs: seq<Chunk>, i: nat, r: nat)
    requires i < |cs| && r + HEADER <= cs[i].size && Coalesced(cs) && !cs[i].used
    ensures Coalesced(Split(SetUsed(cs, i, true), i, r))
  {
    var ds := Split(SetUsed(cs, i, true), i, r);
    forall a, b | 0 <= a && b == a + 1 && b < |ds|
      ensures ds[a].used || ds[b].used
    {
      if b < i { assert ds[a] == cs[a] && ds[b] == cs[b]; }
      if a > i { assert ds[b] == cs[a]; if a > i + 1 { assert ds[a] == cs[a - 1]; } }
    }
  }

  /** A used chunk of cs, as seen by a client: its address, its capacity and the fact that it is live. */
  ghost predicate LiveBlock(h: State, c: Chunk) { c.used && c in h.chunks }

  ghost predicate Live(h: State, p: nat) {
    exists c :: c in h.chunks && c.used && c.Payload() == p
  }

  /**
   What a kmalloc call does: the invariant survives; on success exactly one live block b is
   added, at a fresh 4-aligned address, with capacity at least the rounded request and less
   than 40 bytes more; on failure nothing changes.
   */
  lemma MallocAddsOneBlock(h: State, request: u64) returns (b: Chunk)
    requires Inv(h)
    ensures var (h', p) := Malloc(h, request);
            && Inv(h') && h'.lo == h.lo && h'.hi == h.hi
            && (p == 0 ==> h' == h)
            && (p != 0 ==>
                  && !Live(h, p) && p % ALIGN == 0
                  && b.used && b.Payload() == p && Rounded(request) <= b.size < Rounded(request) + CHUNK
                  && forall c: Chunk :: LiveBlock(h', c) <==> LiveBlock(h, c) || c == b)
  {
    hide Tiled, Coalesced, BinsOK, Slot, Pow2;
    var r := Rounded(request);
    var k := Fit(h.bins, StartBin(r));
    b := Chunk(0, 0, true);
    if k < NUM_SIZES {
      HeadFits(h, r);
      b := HandsOut(h, k, Find(h.chunks, h.bins[k][0]), r);
    }
  }

  lemma HandsOut(h: State, k: nat, i: nat, r: nat) returns (b: Chunk)
    requires Inv(h) && k < NUM_SIZES && h.bins[k] != [] && i < |h.chunks|
    requires !h.chunks[i].used && MIN_SIZE <= r <= h.chunks[i].size && r % ALIGN == 0
    requires h.bins[k][0] == h.chunks[i].addr && Slot(h.chunks[i].size) == k
    ensures var (h', p) := (Allocate(h, k, i, r), h.chunks[i].Payload());
            && Inv(h') && h'.lo == h.lo && h'.hi == h.hi
            && !Live(h, p) && p % ALIGN == 0
            && b.used && b.Payload() == p && r <= b.size < r + CHUNK
            && forall c: Chunk :: LiveBlock(h', c) <==> LiveBlock(h, c) || c == b
  {
    hide Inv, Slot, Allocate, Live, LiveBlock, Handed;
    AllocateInv(h, k, i, r);
    NotLive(h, i);
    b := Handed(h, i, r);
    HandedFacts(h, i, r);
    AllocateRegion(h, k, i, r);
    forall c: Chunk
      ensures LiveBlock(Allocate(h, k, i, r), c) <==> LiveBlock(h, c) || c == b
    {
      AllocateLive(h, k, i, r, c);
    }
  }

  lemma AllocateRegion(h: State, k: nat, i: nat, r: nat)
    requires Inv(h) && k < NUM_SIZES && h.bins[k] != [] && i < |h.chunks|
    requires !h.chunks[i].used && MIN_SIZE <= r <= h.chunks[i].size
    ensures Allocate(h, k, i, r).lo == h.lo && Allocate(h, k, i, r).hi == h.hi
  {
    hide Inv, Slot;
  }

  lemma HandedFacts(h: State, i: nat, r: nat)
    requires Inv(h) && i < |h.chunks| && r <= h.chunks[i].size
    ensures var (b, p) := (Handed(h, i, r), h.chunks[i].Payload());
            b.used && b.Payload() == p && r <= b.size < r + CHUNK && p % ALIGN == 0
  {
    hide Tiled, Coalesced, BinsOK, Bounds;
  }

  lemma NotLive(h: State, i: nat)
    requires Inv(h) && i < |h.chunks| && !h.chunks[i].used
    ensures !Live(h, h.chunks[i].Payload())
  {
    forall c | c in h.chunks && c.used
      ensures c.Payload() != h.chunks[i].Payload()
    {
      var j :| 0 <= j < |h.chunks| && h.chunks[j] == c;
      if c.addr == h.chunks[i].addr { UniqueAddr(h.lo, h.hi, h.chunks, i, j); }
    }
  }

  /** The block handed out from chunk i. */
  function Handed(h: State, i: nat, r: nat): Chunk
    requires i < |h.chunks|
  {
    var c := h.chunks[i];
    if r + CHUNK <= c.size then Chunk(c.addr, r, true) else c.(used := true)
  }

  /** Replacing one chunk by others changes the members by these. */
  lemma ReplacedMembers(cs: seq<Chunk>, i: nat, n: seq<Chunk>, c: Chunk)
    requires i < |cs|
    ensures c in cs[..i] + n + cs[i + 1..] <==> c in cs[..i] || c in n || c in cs[i + 1..]
    ensures c in cs <==> c in cs[..i] || c == cs[i] || c in cs[i + 1..]
  {
    assert cs == cs[..i] + [cs[i]] + cs[i + 1..];
  }

  /** What stands in the place of chunk i after an allocation. */
  function Halves(h: State, i: nat, r: nat): seq<Chunk>
    requires i < |h.chunks|
  {
    var c := h.chunks[i];
    if r + CHUNK <= c.size then [Chunk(c.addr, r, true), Chunk(c.Payload() + r, c.size - r - HEADER, false)]
    else [c.(used := true)]
  }

  lemma AllocatedHalves(h: State, k: nat, i: nat, r: nat)
    requires Inv(h) && k < NUM_SIZES && h.bins[k] != [] && i < |h.chunks|
    requires !h.chunks[i].used && MIN_SIZE <= r <= h.chunks[i].size
    ensures Allocate(h, k, i, r).chunks == h.chunks[..i] + Halves(h, i, r) + h.chunks[i + 1..]
  {
    hide Tiled, Aligned, Coalesced, BinsOK, Slot, Wrap;
  }

  lemma AllocateLive(h: State, k: nat, i: nat, r: nat, c: Chunk)
    requires Inv(h) && k < NUM_SIZES && h.bins[k] != [] && i < |h.chunks|
    requires !h.chunks[i].used && MIN_SIZE <= r <= h.chunks[i].size
    ensures LiveBlock(Allocate(h, k, i, r), c) <==> LiveBlock(h, c) || c == Handed(h, i, r)
  {
    hide Inv, Allocate;
    AllocatedHalves(h, k, i, r);
    ReplacedMembers(h.chunks, i, Halves(h, i, r), c);
  }

  /** The index of the chunk a successful kmalloc takes. */
  function Chosen(h: State, request: u64): (i: nat)
    requires Inv(h) && Malloc(h, request).1 != 0
    ensures i < |h.chunks| && !h.chunks[i].used && Rounded(request) <= h.chunks[i].size
  {
    HeadFits(h, Rounded(request));
    Find(h.chunks, h.bins[Fit(h.bins, StartBin(Rounded(request)))][0])
  }

  /** kmalloc fails exactly when no free chunk has at least 2^ceil(log2 r) payload bytes. */
  lemma MallocFailsIff(h: State, request: u64)
    requires Inv(h)
    ensures var r := Rounded(request);
            && Pow2(StartBin(r) - 1) < r <= Pow2(StartBin(r))
            && (Malloc(h, request).1 == 0 <==>
                forall c :: c in h.chunks && !c.used ==> c.size < Pow2(StartBin(r)))
  {
    hide Tiled, Aligned, Coalesced, Rounded, Allocate, Slot, Pow2;
    var r := Rounded(request);
    var n := StartBin(r);
    var k := Fit(h.bins, n);
    SlotIsLog2(r - 1);
    if k < NUM_SIZES {
      HeadFits(h, r);
      var c := h.chunks[Find(h.chunks, h.bins[k][0])];
      SlotBounds(c.size, n);
      assert c in h.chunks;
    } else {
      forall c | c in h.chunks && !c.used
        ensures c.size < Pow2(n)
      {
        var i :| 0 <= i < |h.chunks| && h.chunks[i] == c;
        SlotInRange(h.lo, h.hi, h.chunks, i);
        SlotBounds(c.size, n);
        assert FreeAt(h.chunks, c.addr, Slot(c.size));
      }
    }
  }

  // ---- kfree ----

  /** The chunks that become one when chunk i is freed: i and each free neighbour. */
  function Left(cs: seq<Chunk>, i: nat): (l: nat)
    requires i < |cs|
    ensures i - 1 <= l <= i
  {
    if i > 0 && !cs[i - 1].used then i - 1 else i
  }

  function Right(cs: seq<Chunk>, i: nat): (r: nat)
    requires i < |cs|
    ensures i <= r < |cs| && r <= i + 1
  {
    if i + 1 < |cs| && !cs[i + 1].used then i + 1 else i
  }

  /** The bins once the free neighbours l and r of chunk i have left them. */
  function Detached(cs: seq<Chunk>, bins: seq<seq<nat>>, l: nat, i: nat, r: nat): seq<seq<nat>>
    requires l <= i <= r < |cs| && |bins| == NUM_SIZES
    requires forall j | j == l || j == r :: 0 <= Slot(cs[j].size) < NUM_SIZES
  {
    var without := if r > i then Drop(bins, Slot(cs[r].size), cs[r].addr) else bins;
    if l < i then Drop(without, Slot(cs[l].size), cs[l].addr) else without
  }

  lemma NeighbourSlots(h: State, i: nat)
    requires Inv(h) && i < |h.chunks|
    ensures var (l, r) := (Left(h.chunks, i), Right(h.chunks, i));
            && h.chunks[l].Payload() <= h.chunks[r].End()
            && (forall j | j == l || j == r :: 0 <= Slot(h.chunks[j].size) < NUM_SIZES)
            && 0 <= Slot(h.chunks[r].End() - h.chunks[l].Payload()) < NUM_SIZES
  {
    hide Tiled, Aligned, Coalesced, BinsOK, Slot;
    var l, r := Left(h.chunks, i), Right(h.chunks, i);
    SlotInRange(h.lo, h.hi, h.chunks, l);
    SlotInRange(h.lo, h.hi, h.chunks, r);
    FuseTiled(h.lo, h.hi, h.chunks, l, r);
    SlotInRange(h.lo, h.hi, Fuse(h.chunks, l, r, true), l);
  }

  function FreeIndex(h: State, i: nat): State
    requires Inv(h) && i < |h.chunks| && h.chunks[i].used
  {
    var (l, r) := (Left(h.chunks, i), Right(h.chunks, i));
    NeighbourSlots(h, i);
    var size := h.chunks[r].End() - h.chunks[l].Payload();
    h.(chunks := Fuse(h.chunks, l, r, false),
    bins := Push(Detached(h.chunks, h.bins, l, i, r), Slot(size), h.chunks[l].addr),
    memFree := Wrap(h.memFree
                    - (if r > i then h.chunks[r].size - HEADER else 0)
                    - (if l < i then h.chunks[l].size - HEADER else 0)
                    + (size - HEADER) + HEADER * (r - l)),
    memUsed := Sub(h.memUsed, h.chunks[i].size),
    memMeta := Sub(h.memMeta, HEADER * (r - l)))
  }

  /** kfree of the pointer p. */
  function Free(h: State, p: nat): State
    requires Inv(h) && Live(h, p)
  {
    FindLive(h, p);
    FreeIndex(h, Find(h.chunks, p - HEADER))
  }

  lemma FindLive(h: State, p: nat)
    requires Inv(h) && Live(h, p)
    ensures p >= HEADER
    ensures var i := Find(h.chunks, p - HEADER);
            i < |h.chunks| && h.chunks[i].used && h.chunks[i].Payload() == p
  {
    hide Tiled, Aligned, Coalesced, BinsOK;
    var c :| c in h.chunks && c.used && c.Payload() == p;
    var j :| 0 <= j < |h.chunks| && h.chunks[j] == c;
    FindAt(h.lo, h.hi, h.chunks, j);
  }

  /** The chunks with the neighbours l and r of i marked used, as they are once off their bins. */
  function Held(cs: seq<Chunk>, l: nat, r: nat): (ds: seq<Chunk>)
    requires l < |cs| && r < |cs|
    ensures |ds| == |cs|
  {
    SetUsed(SetUsed(cs, r, true), l, true)
  }

  lemma DetachedCore(h: State, i: nat)
    requires Inv(h) && i < |h.chunks| && h.chunks[i].used
    ensures var (l, r) := (Left(h.chunks, i), Right(h.chunks, i));
            && (forall j | j == l || j == r :: 0 <= Slot(h.chunks[j].size) < NUM_SIZES)
            && Core(h.lo, h.hi, Held(h.chunks, l, r), Detached(h.chunks, h.bins, l, i, r))
  {
    hide Tiled, Coalesced, Aligned, BinsOK, Slot;
    var l, r := Left(h.chunks, i), Right(h.chunks, i);
    var cs, bins := h.chunks, h.bins;
    NeighbourSlots(h, i);
    if r > i {
      Grab(h.lo, h.hi, cs, bins, r);
      bins := Drop(bins, Slot(cs[r].size), cs[r].addr);
    } else {
      assert SetUsed(cs, i, true) == cs;
    }
    cs := SetUsed(cs, r, true);
    assert cs[i].used;
    if l < i {
      assert cs[l] == h.chunks[l];
      Grab(h.lo, h.hi, cs, bins, l);
    } else {
      assert SetUsed(cs, i, true) == cs;
    }
  }

  lemma HeldFused(cs: seq<Chunk>, l: nat, r: nat)
    requires l <= r < |cs| && cs[l].Payload() <= cs[r].End()
    ensures Held(cs, l, r)[l].Payload() <= Held(cs, l, r)[r].End()
    ensures var fused := Fuse(Held(cs, l, r), l, r, true);
            && fused[l].used && fused[l].addr == cs[l].addr && fused[l].size == cs[r].End() - cs[l].Payload()
            && SetUsed(fused, l, false) == Fuse(cs, l, r, false)
  {
  }

  lemma FreeIndexInv(h: State, i: nat)
    requires Inv(h) && i < |h.chunks| && h.chunks[i].used
    ensures Inv(FreeIndex(h, i))
  {
    hide Tiled, Coalesced, Aligned, BinsOK, Slot, Fuse, SetUsed, Push, Detached;
    var l, r := Left(h.chunks, i), Right(h.chunks, i);
    NeighbourSlots(h, i);
    DetachedCore(h, i);
    HeldUsed(h.chunks, l, i, r);
    var held, bins := Held(h.chunks, l, r), Detached(h.chunks, h.bins, l, i, r);
    FuseCore(h.lo, h.hi, held, bins, l, r);
    HeldFused(h.chunks, l, r);
    Release(h.lo, h.hi, Fuse(held, l, r, true), bins, l);
    NeighboursUsed(h, i);
    FreedCoalesced(h.chunks, l, r);
  }

  lemma HeldUsed(cs: seq<Chunk>, l: nat, i: nat, r: nat)
    requires i - 1 <= l <= i <= r <= i + 1 && r < |cs| && cs[i].used
    ensures forall j :: l <= j <= r ==> Held(cs, l, r)[j].used
  {
  }

  lemma NeighboursUsed(h: State, i: nat)
    requires Inv(h) && i < |h.chunks|
    ensures Left(h.chunks, i) > 0 ==> h.chunks[Left(h.chunks, i) - 1].used
    ensures Right(h.chunks, i) + 1 < |h.chunks| ==> h.chunks[Right(h.chunks, i) + 1].used
  {
  }

  lemma FreedCoalesced(cs: seq<Chunk>, l: nat, r: nat)
    requires Coalesced(cs) && l <= r < |cs| && cs[l].Payload() <= cs[r].End()
    requires l > 0 ==> cs[l - 1].used
    requires r + 1 < |cs| ==> cs[r + 1].used
    ensures Coalesced(Fuse(cs, l, r, false))
  {
    var ds := Fuse(cs, l, r, false);
    forall a, b | 0 <= a && b == a + 1 && b < |ds|
      ensures ds[a].used || ds[b].used
    {
      assert a < l ==> ds[a] == cs[a];
      assert b < l ==> ds[b] == cs[b];
      assert a > l ==> ds[a] == cs[a + r - l];
      assert b > l ==> ds[b] == cs[b + r - l];
    }
  }

  /** What a kfree call does: the invariant survives, and exactly the freed block stops being live. */
  lemma FreeRemovesOneBlock(h: State, p: nat)
    requires Inv(h) && Live(h, p)
    ensures var h' := Free(h, p);
            && Inv(h') && h'.lo == h.lo && h'.hi == h.hi
            && forall c: Chunk :: LiveBlock(h', c) <==> LiveBlock(h, c) && c.Payload() != p
  {
    hide Tiled, BinsOK, Coalesced, Aligned;
    FindLive(h, p);
    var i := Find(h.chunks, p - HEADER);
    FreeIndexInv(h, i);
    forall c: Chunk | c.used
      ensures LiveBlock(FreeIndex(h, i), c) <==> LiveBlock(h, c) && c.Payload() != p
    {
      FreedLive(h, i, c);
    }
  }

  lemma FreedMembers(h: State, i: nat)
    requires Inv(h) && i < |h.chunks| && h.chunks[i].used
    ensures var (cs, l, r) := (h.chunks, Left(h.chunks, i), Right(h.chunks, i));
            && cs[l].Payload() <= cs[r].End()
            && FreeIndex(h, i).chunks ==
               cs[..l] + [Chunk(cs[l].addr, cs[r].End() - cs[l].Payload(), false)] + cs[r + 1..]
            && (forall j :: l <= j <= r && j != i ==> !cs[j].used)
  {
    hide Tiled, Aligned, Coalesced, BinsOK, Slot, Detached, Push, Wrap;
    NeighbourSlots(h, i);
  }

  lemma FreedLive(h: State, i: nat, c: Chunk)
    requires Inv(h) && i < |h.chunks| && h.chunks[i].used && c.used
    ensures c in FreeIndex(h, i).chunks <==> c in h.chunks && c.Payload() != h.chunks[i].Payload()
  {
    hide Inv, FreeIndex, Left, Right;
    var cs, l, r := h.chunks, Left(h.chunks, i), Right(h.chunks, i);
    FreedMembers(h, i);
    if c in cs && c.Payload() != cs[i].Payload() {
      var j :| 0 <= j < |cs| && cs[j] == c;
      assert if j < l then cs[..l][j] == c else cs[r + 1..][j - r - 1] == c;
    }
    if c in cs[..l] || c in cs[r + 1..] {
      var j :| 0 <= j < |cs| && cs[j] == c && (j < l || j > r);
      OtherAddr(h, i, j);
    }
  }

  lemma OtherAddr(h: State, i: nat, j: nat)
    requires Inv(h) && i < |h.chunks| && j < |h.chunks| && i != j
    ensures h.chunks[i].addr != h.chunks[j].addr
  {
    if h.chunks[i].addr == h.chunks[j].addr { UniqueAddr(h.lo, h.hi, h.chunks, i, j); }
  }

  /** Two live blocks never overlap, and every live payload lies inside the region. */
  lemma LiveBlocksDisjoint(h: State, c: Chunk, d: Chunk)
    requires Inv(h) && LiveBlock(h, c) && LiveBlock(h, d) && c != d
    ensures h.lo <= c.addr && c.End() <= h.hi
    ensures c.End() <= d.addr || d.End() <= c.addr
  {
    var i :| 0 <= i < |h.chunks| && h.chunks[i] == c;
    var j :| 0 <= j < |h.chunks| && h.chunks[j] == d;
    Within(h.lo, h.hi, h.chunks, i);
    if i < j { Ascending(h.lo, h.hi, h.chunks, i, j); } else { Ascending(h.lo, h.hi, h.chunks, j, i); }
  }

  // ---- krealloc ----

  /** The payload size of the live block at p. */
  function Capacity(h: State, p: nat): (n: nat)
    requires Inv(h) && Live(h, p)
    ensures exists c :: LiveBlock(h, c) && c.Payload() == p && c.size == n
  {
    FindLive(h, p);
    assert LiveBlock(h, h.chunks[Find(h.chunks, p - HEADER)]);
    h.chunks[Find(h.chunks, p - HEADER)].size
  }

  function Realloc(h: State, p: nat, size: u64): (State, nat)
    requires Inv(h) && (Live(h, p) || (p == 0 && size != 0))
  {
    if size == 0 then (Free(h, p), 0)
    else if p == 0 then Malloc(h, size)
    else if size <= Capacity(h, p) then (h, p)
    else
      var (h1, q) := Malloc(h, size);
      MallocKeepsLive(h, size, p);
      if q != 0 then (Free(h1, p), q) else (h1, 0)
  }

  lemma MallocKeepsLive(h: State, request: u64, p: nat)
    requires Inv(h)
    ensures Inv(Malloc(h, request).0) && (Live(h, p) ==> Live(Malloc(h, request).0, p))
  {
    hide Malloc, Tiled, BinsOK, Coalesced, Aligned;
    var b := MallocAddsOneBlock(h, request);
    if Live(h, p) {
      var c :| c in h.chunks && c.used && c.Payload() == p;
      assert LiveBlock(h, c);
      assert Malloc(h, request).1 != 0 ==> LiveBlock(Malloc(h, request).0, c);
    }
  }

  lemma NullNotLive(h: State)
    ensures !Live(h, 0)
  {
  }

  /**
    * What a krealloc call does to the live blocks. Size 0 is a kfree; a block that is large enough stays. Otherwise,
    * on success, the block at p, if there is one, is replaced by b at the pointer returned, and on failure
    * nothing changes.
    */
  lemma ReallocBlocks(h: State, p: nat, size: u64) returns (b: Chunk)
    requires Inv(h) && (Live(h, p) || (p == 0 && size != 0))
    ensures var (h', q) := Realloc(h, p, size);
            var stays := p != 0 && size != 0 && size <= Capacity(h, p);
            && Inv(h') && h'.lo == h.lo && h'.hi == h.hi
            && (q == 0 <==> size == 0 || (!stays && Malloc(h, size).1 == 0))
            && (size != 0 && q == 0 ==> h' == h)
            && (stays ==> q == p && h' == h)
            && (size == 0 ==> forall c: Chunk :: LiveBlock(h', c) <==> LiveBlock(h, c) && c.Payload() != p)
            && (q != 0 && !stays ==>
                  && !Live(h, q) && q % ALIGN == 0
                  && b.used && b.Payload() == q && Rounded(size) <= b.size < Rounded(size) + CHUNK
                  && forall c: Chunk :: LiveBlock(h', c) <==> (LiveBlock(h, c) && c.Payload() != p) || c == b)
  {
    hide Inv, Malloc, Free, Live, Capacity, Rounded;
    b := MallocAddsOneBlock(h, size);
    NullNotLive(h);
    if size == 0 {
      FreeRemovesOneBlock(h, p);
    } else if p != 0 && size > Capacity(h, p) {
      MallocKeepsLive(h, size, p);
      var (h1, q) := Malloc(h, size);
      if q != 0 {
        FreeRemovesOneBlock(h1, p);
      }
    }
  }
}
