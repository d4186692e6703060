/** Laws of whole runs of kmalloc, kfree and krealloc. */
module HeapRuns {
  import opened Machine
  import opened HeapSpec
  import opened HeapOps

  // ---- a call undone, and a heap emptied ----

  /**
   kfree directly after a successful kmalloc restores the chunk list and every bin, in its
   original order.  The two byte counters come back exactly when the chunk kmalloc took was
   large enough to be split; otherwise each has lost one header.
   */
  lemma MallocThenFree(h: State, request: u64)
    requires Inv(h) && Malloc(h, request).1 != 0
    ensures var (h1, p) := Malloc(h, request);
            && Inv(h1) && Live(h1, p)
            && var h2 := Free(h1, p);
            var lost := if Rounded(request) + CHUNK <= h.chunks[Chosen(h, request)].size then 0 else HEADER;
            && h2.chunks == h.chunks && h2.bins == h.bins
            && h2.memMeta == h.memMeta
            && h2.memFree == Sub(h.memFree, lost) && h2.memUsed == Sub(h.memUsed, lost)
  {
    hide Tiled, Aligned, Coalesced, BinsOK, Slot, FreeIndex, Allocate;
    var r := Rounded(request);
    var k := Fit(h.bins, StartBin(r));
    HeadFits(h, r);
    var i := Find(h.chunks, h.bins[k][0]);
    var h1 := Allocate(h, k, i, r);
    AllocateInv(h, k, i, r);
    AllocatedChunk(h, k, i, r);
    assert h1.chunks[i] in h1.chunks;
    FindAt(h1.lo, h1.hi, h1.chunks, i);
    if r + CHUNK <= h.chunks[i].size {
      UndoSplit(h, k, i, r);
    } else {
      UndoWhole(h, k, i, r);
    }
  }

  /** The block a successful kmalloc returns: the chosen chunk, or its front when the rest can be a chunk. */
  lemma CapacityIs(h: State, request: u64)
    requires Inv(h) && Malloc(h, request).1 != 0
    ensures var (h1, p) := Malloc(h, request);
            && Inv(h1) && Live(h1, p)
            && Capacity(h1, p) == Handed(h, Chosen(h, request), Rounded(request)).size
  {
    hide Tiled, Coalesced, Aligned, BinsOK, Slot, Capacity;
    var r := Rounded(request);
    var k := Fit(h.bins, StartBin(r));
    HeadFits(h, r);
    var i := Find(h.chunks, h.bins[k][0]);
    var h1 := Allocate(h, k, i, r);
    AllocateInv(h, k, i, r);
    var b := Handed(h, i, r);
    AllocateLive(h, k, i, r, b);
    CapacityOf(h1, b);
  }

  lemma CapacityOf(h: State, b: Chunk)
    requires Inv(h) && LiveBlock(h, b)
    ensures Live(h, b.Payload()) && Capacity(h, b.Payload()) == b.size
  {
    hide Inv, Capacity;
    assert Live(h, b.Payload());
    var c: Chunk :| LiveBlock(h, c) && c.Payload() == b.Payload() && c.size == Capacity(h, b.Payload());
    if c != b { LiveBlocksDisjoint(h, b, c); }
  }

  /**
   A successful kmalloc returns the front of the chosen chunk, of the rounded size when a header and the links of
   another chunk fit behind it, and otherwise all of it. The chunk is less than twice as large as any other one that
   is large enough.
   */
  lemma MallocTakesFront(h: State, request: u64)
    requires Inv(h) && Malloc(h, request).1 != 0
    ensures var (h1, p) := Malloc(h, request);
            var c, r := h.chunks[Chosen(h, request)], Rounded(request);
            && Inv(h1) && Live(h1, p) && p == c.addr + 24
            && Capacity(h1, p) == (if r + 40 <= c.size then r else c.size)
            && forall d :: d in h.chunks && !d.used && d.size >= Pow2(StartBin(r)) ==> c.size < 2 * d.size
  {
    hide Inv, Slot, Pow2, Capacity, Allocate, Live, StartBin;
    var r := Rounded(request);
    HeadFits(h, r);
    CapacityIs(h, request);
    forall d | d in h.chunks && !d.used && d.size >= Pow2(StartBin(r))
      ensures h.chunks[Chosen(h, request)].size < 2 * d.size
    {
      GoodFit(h, StartBin(r), h.chunks[Chosen(h, request)].size, d);
    }
  }

  /** The lowest bin that is not empty has the smallest chunks, up to a factor of two. */
  lemma GoodFit(h: State, n: nat, size: nat, d: Chunk)
    requires Inv(h) && d in h.chunks && !d.used && d.size >= Pow2(n) && size > 0 && Slot(size) == Fit(h.bins, n)
    ensures size < 2 * d.size
  {
    hide Tiled, Aligned, Coalesced, Slot, Pow2;
    var i :| 0 <= i < |h.chunks| && h.chunks[i] == d;
    SlotInRange(h.lo, h.hi, h.chunks, i);
    SlotBounds(d.size, n);
    assert FreeAt(h.chunks, d.addr, Slot(d.size));
    assert Slot(size) <= Slot(d.size);
    SlotIsLog2(size);
    SlotIsLog2(d.size);
    Pow2Monotone(Slot(size) + 1, Slot(d.size) + 1);
    DoublePower(Slot(d.size));
  }

  lemma DoublePower(n: nat)
    ensures Pow2(n + 1) == 2 * Pow2(n)
  {
  }

  /**
   The block a successful kmalloc returns covers the request exactly when rounding the request
   up does not wrap; the last three requests get a block of the smallest size class.
   */
  lemma CapacityCoversIff(h: State, request: u64)
    requires Inv(h) && Malloc(h, request).1 != 0
    ensures var (h1, p) := Malloc(h, request);
            && Inv(h1) && Live(h1, p)
            && (request <= Capacity(h1, p) <==> request <= TWO_64 - ALIGN)
            && (request <= TWO_64 - ALIGN ==> Capacity(h1, p) <= request + MIN_SIZE + CHUNK)
  {
    hide Inv, Malloc, Capacity, Chosen, Live;
    CapacityIs(h, request);
  }

  /** A chunk of the heap has fewer than 2^32 bytes. */
  lemma CapacityBelow(h: State, p: nat)
    requires Inv(h) && Live(h, p)
    ensures Capacity(h, p) < TWO_32
  {
    hide Tiled, Coalesced, Aligned, BinsOK;
    FindLive(h, p);
    Within(h.lo, h.hi, h.chunks, Find(h.chunks, p - HEADER));
  }

  /**
   The block of a successful kcalloc covers the nmemb * size bytes asked for exactly when neither
   the product nor its rounding wraps.
   */
  lemma CallocCoversIff(h: State, nmemb: u64, size: u64)
    requires Inv(h) && Malloc(h, Wrap(nmemb * size)).1 != 0
    ensures var (h1, p) := Malloc(h, Wrap(nmemb * size));
            && Inv(h1) && Live(h1, p)
            && (nmemb * size <= Capacity(h1, p) <==> nmemb * size <= TWO_64 - ALIGN)
  {
    hide Inv, Malloc, Capacity, Live, Wrap;
    var product := nmemb * size;
    CapacityCoversIff(h, Wrap(product));
    var (h1, p) := Malloc(h, Wrap(product));
    CapacityBelow(h1, p);
    if product < TWO_64 { WrapWithin(product); }
  }

  /**
   A move of the block at p, if krealloc(p, size) makes one, does not copy more than the new block holds: the size does
   not wrap, the old block is of the smallest class, or the chunk that kmalloc chooses is not split and large enough.
   */
  ghost predicate MoveFits(h: State, p: nat, size: u64)
    requires Inv(h)
  {
    Live(h, p) && Capacity(h, p) < size && Malloc(h, size).1 != 0 ==>
      var c := h.chunks[Chosen(h, size)];
      || size <= TWO_64 - ALIGN || Capacity(h, p) <= MIN_SIZE
      || (c.size < MIN_SIZE + CHUNK && Capacity(h, p) <= c.size)
  }

  /**
   When krealloc moves a block, its old contents fit the new one exactly under that condition.
   */
  lemma ReallocFitsIff(h: State, p: nat, size: u64)
    requires Inv(h) && Live(h, p) && Capacity(h, p) < size && Malloc(h, size).1 != 0
    ensures var (h1, q) := Malloc(h, size);
            && Inv(h1) && Live(h1, q)
            && (Capacity(h, p) <= Capacity(h1, q) <==> MoveFits(h, p, size))
  {
    hide Inv, Malloc, Capacity, Chosen, Live;
    CapacityIs(h, size);
    if size > TWO_64 - ALIGN { assert Rounded(size) == MIN_SIZE; }
  }

  lemma AllocatedChunk(h: State, k: nat, i: nat, r: nat)
    requires Inv(h) && k < NUM_SIZES && h.bins[k] != [] && i < |h.chunks|
    requires !h.chunks[i].used && MIN_SIZE <= r <= h.chunks[i].size
    ensures var h1 := Allocate(h, k, i, r);
            && i < |h1.chunks| && h1.chunks[i].used && h1.chunks[i].addr == h.chunks[i].addr
            && h1.lo == h.lo && h1.hi == h.hi
            && (|h1.chunks| == |h.chunks| <==> r + CHUNK > h.chunks[i].size)
  {
  }

  lemma UndoWhole(h: State, k: nat, i: nat, r: nat)
    requires Inv(h) && k < NUM_SIZES && h.bins[k] != [] && i < |h.chunks|
    requires !h.chunks[i].used && MIN_SIZE <= r <= h.chunks[i].size && r % ALIGN == 0
    requires h.bins[k][0] == h.chunks[i].addr && Slot(h.chunks[i].size) == k
    requires r + CHUNK > h.chunks[i].size
    requires Inv(Allocate(h, k, i, r)) && Allocate(h, k, i, r).chunks[i].used
    ensures var h2 := FreeIndex(Allocate(h, k, i, r), i);
            && h2.chunks == h.chunks && h2.bins == h.bins && h2.memMeta == h.memMeta
            && h2.memFree == Sub(h.memFree, HEADER) && h2.memUsed == Sub(h.memUsed, HEADER)
  {
    hide Tiled, Aligned, BinsOK, Slot, Wrap;
    var h1 := Allocate(h, k, i, r);
    assert Left(h1.chunks, i) == i == Right(h1.chunks, i);
    assert FreeIndex(h1, i).chunks == h.chunks;
    assert [h.bins[k][0]] + h.bins[k][1..] == h.bins[k];
    assert FreeIndex(h1, i).bins == h.bins;
    WrapAdd(h.memFree - h.chunks[i].size, h.chunks[i].size - HEADER);
    WrapAdd(h.memUsed + h.chunks[i].size - HEADER, 0 - h.chunks[i].size);
    WrapWithin(h.memMeta);
  }

  lemma UndoSplit(h: State, k: nat, i: nat, r: nat)
    requires Inv(h) && k < NUM_SIZES && h.bins[k] != [] && i < |h.chunks|
    requires !h.chunks[i].used && MIN_SIZE <= r <= h.chunks[i].size && r % ALIGN == 0
    requires h.bins[k][0] == h.chunks[i].addr && Slot(h.chunks[i].size) == k
    requires r + CHUNK <= h.chunks[i].size
    requires Inv(Allocate(h, k, i, r)) && Allocate(h, k, i, r).chunks[i].used
    ensures var h2 := FreeIndex(Allocate(h, k, i, r), i);
            && h2.chunks == h.chunks && h2.bins == h.bins && h2.memMeta == h.memMeta
            && h2.memFree == h.memFree && h2.memUsed == h.memUsed
  {
    hide Tiled, Aligned, BinsOK, Slot, Coalesced, Fuse, Split, SetUsed, Push, Drop, Left, Right, Wrap;
    var h1, c := Allocate(h, k, i, r), h.chunks[i];
    var len := c.size - r - HEADER;
    UndoSplitChunks(h, i, r);
    RestHasSlot(h, i, r);
    var k2, b := Slot(len), c.Payload() + r;
    UndoBins(h.bins, k, k2, c.addr, b);
    SplitCounters(h, c.size, len);
  }

  lemma UndoBins(bins: seq<seq<nat>>, k: nat, k2: nat, a: nat, b: nat)
    requires k < |bins| && k2 < |bins| && bins[k] != [] && bins[k][0] == a
    ensures var popped := bins[k := bins[k][1..]];
            Push(Drop(Push(popped, k2, b), k2, b), k, a) == bins
  {
    var popped := bins[k := bins[k][1..]];
    assert Drop(Push(popped, k2, b), k2, b) == popped;
    assert [a] + bins[k][1..] == bins[k];
  }

  lemma UndoSplitChunks(h: State, i: nat, r: nat)
    requires Inv(h) && i < |h.chunks| && !h.chunks[i].used && r + CHUNK <= h.chunks[i].size
    ensures var cs := Split(SetUsed(h.chunks, i, true), i, r);
            && Left(cs, i) == i && Right(cs, i) == i + 1 && cs[i].addr == h.chunks[i].addr && cs[i].size == r
            && cs[i + 1] == Chunk(h.chunks[i].Payload() + r, h.chunks[i].size - r - HEADER, false)
            && cs[i + 1].End() == h.chunks[i].End()
            && Fuse(cs, i, i + 1, false) == h.chunks
  {
    hide Tiled, Aligned, BinsOK, Slot;
    var cs := Split(SetUsed(h.chunks, i, true), i, r);
    assert i > 0 ==> cs[i - 1] == h.chunks[i - 1];
  }

  lemma SplitCounters(h: State, size: int, len: int)
    ensures Wrap(Sub(Add(h.memFree, len - HEADER), size) - (len - HEADER) + (size - HEADER) + HEADER) == h.memFree
    ensures Sub(Add(h.memUsed, size - len - HEADER), size - len - HEADER) == h.memUsed
    ensures Sub(Add(h.memMeta, HEADER), HEADER) == h.memMeta
  {
    WrapAdd(h.memFree + len - HEADER, -size);
    WrapAdd(h.memFree + len - HEADER - size, -(len - HEADER) + (size - HEADER) + HEADER);
    WrapAdd(h.memUsed + size - len - HEADER, -(size - len - HEADER));
    WrapAdd(h.memMeta + HEADER, -HEADER);
  }

  lemma NoneLive(h: State)
    requires Inv(h) && forall c :: c in h.chunks ==> !c.used
    ensures h.chunks == Init(h.lo, h.hi).chunks && h.bins == Init(h.lo, h.hi).bins
  {
    hide Slot;
    OneChunk(h.chunks);
    var c := h.chunks[0];
    assert c == Chunk(h.lo, h.hi - h.lo - HEADER, false);
    SlotInRange(h.lo, h.hi, h.chunks, 0);
    forall k | 0 <= k < NUM_SIZES
      ensures h.bins[k] == InitialBins(h.lo, h.hi)[k]
    {
      OnlyBin(h, k);
    }
  }

  lemma OneChunk(cs: seq<Chunk>)
    requires Coalesced(cs)
    ensures |cs| > 1 ==> exists c :: c in cs && c.used
  {
    if |cs| > 1 {
      var c := if cs[0].used then cs[0] else cs[1];
      assert c in cs && c.used;
    }
  }

  lemma AllEqual(s: seq<nat>, x: nat)
    requires NoDup(s)
    ensures (forall j :: 0 <= j < |s| ==> s[j] == x) ==> s == [] || s == [x]
  {
    if |s| > 1 {
      assert s[0] != s[1];
    }
  }

  lemma OnlyBin(h: State, k: nat)
    requires Inv(h) && k < NUM_SIZES && |h.chunks| == 1 && !h.chunks[0].used
    ensures h.bins[k] == if k == Slot(h.chunks[0].size) then [h.chunks[0].addr] else []
  {
    hide Slot, Tiled, Aligned;
    var c, bin := h.chunks[0], h.bins[k];
    forall j | 0 <= j < |bin|
      ensures bin[j] == c.addr && k == Slot(c.size)
    {
      assert FreeAt(h.chunks, bin[j], k);
    }
    AllEqual(bin, c.addr);
    assert bin != [] ==> bin[0] == c.addr && k == Slot(c.size);
    if k == Slot(c.size) {
      assert FreeAt(h.chunks, c.addr, k);
      assert c.addr in bin;
    }
  }

  lemma FreeLive(h: State, p: nat, q: nat)
    requires Inv(h) && Live(h, p)
    ensures Inv(Free(h, p)) && Free(h, p).lo == h.lo && Free(h, p).hi == h.hi
    ensures Live(Free(h, p), q) <==> Live(h, q) && q != p
  {
    hide Inv, Free;
    FreeRemovesOneBlock(h, p);
    var h' := Free(h, p);
    if Live(h, q) && q != p {
      var c :| c in h.chunks && c.used && c.Payload() == q;
      assert LiveBlock(h, c) && LiveBlock(h', c);
    }
    if Live(h', q) {
      var c :| c in h'.chunks && c.used && c.Payload() == q;
      assert LiveBlock(h', c) && LiveBlock(h, c);
    }
  }

  /** All the pointers of ps freed one after the other; each is live when its turn comes. */
  ghost predicate CanFreeAll(h: State, ps: seq<nat>)
    decreases |ps|
  {
    Inv(h) && (ps != [] ==> Live(h, ps[0]) && CanFreeAll(Free(h, ps[0]), ps[1..]))
  }

  function FreeAll(h: State, ps: seq<nat>): State
    requires CanFreeAll(h, ps)
    decreases |ps|
  {
    if ps == [] then h else FreeAll(Free(h, ps[0]), ps[1..])
  }

  /** Freeing every live block, in any order, leaves the chunk list and the bins of a new heap. */
  lemma {:induction false} FreeAllRestoresInit(h: State, ps: seq<nat>)
    requires Inv(h) && NoDup(ps) && forall p :: p in ps <==> Live(h, p)
    ensures CanFreeAll(h, ps)
    ensures FreeAll(h, ps).chunks == Init(h.lo, h.hi).chunks
    ensures FreeAll(h, ps).bins == Init(h.lo, h.hi).bins
    decreases |ps|
  {
    hide Tiled, Aligned, Coalesced, BinsOK, Free, Init, Bounds;
    if ps == [] {
      forall c | c in h.chunks
        ensures !c.used
      {
        assert c.used ==> Live(h, c.Payload());
        assert c.Payload() !in ps;
      }
      NoneLive(h);
    } else {
      assert ps[0] in ps;
      var h' := Free(h, ps[0]);
      FreeLive(h, ps[0], ps[0]);
      forall p
        ensures p in ps[1..] <==> Live(h', p)
      {
        FreeLive(h, ps[0], p);
        assert p in ps <==> p == ps[0] || p in ps[1..];
      }
      FreeAllRestoresInit(h', ps[1..]);
    }
  }

  // ---- heaps on which the promises fail ----

  /** On a new heap kmalloc succeeds exactly when its one chunk has 2^ceil(log2 r) payload bytes. */
  lemma InitMalloc(lo: nat, hi: nat, request: u64)
    requires Bounds(lo, hi) && lo % ALIGN == 0 && hi % ALIGN == 0
    ensures Inv(Init(lo, hi))
    ensures Malloc(Init(lo, hi), request).1 != 0 <==> Pow2(StartBin(Rounded(request))) <= hi - lo - HEADER
    ensures Malloc(Init(lo, hi), request).1 != 0 ==> Chosen(Init(lo, hi), request) == 0
  {
    hide Inv, Malloc, Slot, Rounded;
    InitInv(lo, hi);
    var h := Init(lo, hi);
    MallocFailsIff(h, request);
    assert h.chunks[0] in h.chunks;
  }

  lemma StartBins()
    ensures Rounded(0) == MIN_SIZE == Rounded(TWO_64 - 1) && StartBin(MIN_SIZE) == 4 && StartBin(20) == 5
            && Rounded(20) == 20
    ensures Pow2(4) == 16 && Pow2(5) == 32
  {
    assert Slot(1) == 0 && Slot(3) == 1 && Slot(7) == 2 && Slot(15) == 3;
    assert Slot(4) == 2 && Slot(9) == 3 && Slot(19) == 4;
  }

  /** Any new heap hands out a small block for 2^64 - 1 bytes. */
  lemma WrappedRequest(lo: nat, hi: nat)
    requires Bounds(lo, hi) && lo % ALIGN == 0 && hi % ALIGN == 0
    ensures Inv(Init(lo, hi))
    ensures var (h1, p) := Malloc(Init(lo, hi), TWO_64 - 1); p != 0 && Inv(h1) && Live(h1, p) && Capacity(h1, p) < 56
  {
    hide Inv, Malloc, Capacity, Init, Live;
    StartBins();
    InitMalloc(lo, hi, TWO_64 - 1);
    CapacityIs(Init(lo, hi), TWO_64 - 1);
  }

  /** kmalloc(20) refuses a free chunk of 28 bytes. */
  lemma FittingChunkRefused()
    ensures Bounds(64, 116) && Inv(Init(64, 116))
    ensures Init(64, 116).chunks == [Chunk(64, 28, false)] && Malloc(Init(64, 116), 20).1 == 0
  {
    hide Inv, Malloc;
    StartBins();
    InitMalloc(64, 116, 20);
  }

  /** kmalloc(16) and kfree on a heap of 16 bytes leave mem_used at -24. */
  lemma HeaderLost()
    ensures Bounds(64, 104) && Inv(Init(64, 104))
    ensures var (h1, p) := Malloc(Init(64, 104), 16);
            && p != 0 && Inv(h1) && Live(h1, p)
            && Free(h1, p).chunks == Init(64, 104).chunks
            && Init(64, 104).memUsed == 0 && Free(h1, p).memUsed == TWO_64 - HEADER
  {
    hide Inv, Malloc, Free, Live;
    StartBins();
    assert Rounded(16) == 16;
    InitMalloc(64, 104, 16);
    MallocThenFree(Init(64, 104), 16);
  }

  /** kcalloc(2^32, 2^32) succeeds on any new heap, with fewer than 56 bytes. */
  lemma WrappedProduct(lo: nat, hi: nat)
    requires Bounds(lo, hi) && lo % ALIGN == 0 && hi % ALIGN == 0
    ensures Wrap(TWO_32 * TWO_32) == 0 && Inv(Init(lo, hi))
    ensures var (h1, p) := Malloc(Init(lo, hi), 0); p != 0 && Inv(h1) && Live(h1, p) && Capacity(h1, p) < 56
  {
    hide Inv, Malloc, Capacity, Init, Live;
    StartBins();
    InitMalloc(lo, hi, 0);
    CapacityIs(Init(lo, hi), 0);
  }

  /** Here kmalloc(100) gives a block of 100 bytes, and krealloc to 2^64 - 1 would copy them into a smaller one. */
  lemma ReallocOverruns()
    ensures Bounds(64, 1088) && Inv(Init(64, 1088))
    ensures var (h1, p) := Malloc(Init(64, 1088), 100);
            && p != 0 && Inv(h1) && Live(h1, p) && Capacity(h1, p) == 100
            && var (h2, q) := Malloc(h1, TWO_64 - 1);
            q != 0 && Inv(h2) && Live(h2, q) && Capacity(h2, q) < 56 && !MoveFits(h1, p, TWO_64 - 1)
  {
    hide Inv, Malloc, Capacity, Live, Slot, Rounded;
    StartBins();
    HundredBytes();
    var h := Init(64, 1088);
    InitMalloc(64, 1088, 100);
    CapacityIs(h, 100);
    var (h1, p) := Malloc(h, 100);
    MallocFailsIff(h1, TWO_64 - 1);
    SplitLeavesRest(h);
    CapacityIs(h1, TWO_64 - 1);
    ReallocFitsIff(h1, p, TWO_64 - 1);
  }

  lemma HundredBytes()
    ensures Rounded(100) == 100 && StartBin(100) == 7 && Pow2(7) == 128
  {
    assert Slot(3) == 1 && Slot(12) == 3 && Slot(49) == 5 && Slot(99) == 6;
    assert Pow2(4) == 16;
  }

  lemma SplitLeavesRest(h: State)
    requires Inv(h) && h == Init(64, 1088) && Rounded(100) == 100 && Malloc(h, 100).1 != 0 && Chosen(h, 100) == 0
    ensures Chunk(188, 876, false) in Malloc(h, 100).0.chunks
  {
    hide Slot, Inv, Rounded;
    HeadFits(h, 100);
    var cs := Malloc(h, 100).0.chunks;
    assert cs[1] == Chunk(188, 876, false);
  }
}
