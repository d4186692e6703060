/** What the three counters of the heap count, over every run of kmalloc, kfree and krealloc. */
module HeapAccounts {
  import opened Machine
  import opened HeapSpec
  import opened HeapOps

  // ---- sums over the chunks ----

  function Sum(cs: seq<Chunk>, w: Chunk -> int): int {
    if cs == [] then 0 else w(cs[0]) + Sum(cs[1..], w)
  }

  lemma {:induction false} SumConcat(a: seq<Chunk>, b: seq<Chunk>, w: Chunk -> int)
    ensures Sum(a + b, w) == Sum(a, w) + Sum(b, w)
  {
    if a == [] {
      assert a + b == b;
    } else {
      assert (a + b)[1..] == a[1..] + b;
      SumConcat(a[1..], b, w);
    }
  }

  /** Replacing the stretch m between a and b changes the sum by the difference of the stretches. */
  lemma SumReplace(a: seq<Chunk>, m: seq<Chunk>, n: seq<Chunk>, b: seq<Chunk>, w: Chunk -> int)
    ensures Sum(a + n + b, w) == Sum(a + m + b, w) - Sum(m, w) + Sum(n, w)
  {
    SumConcat(a + n, b, w);
    SumConcat(a, n, w);
    SumConcat(a + m, b, w);
    SumConcat(a, m, w);
  }

  const SIZE: Chunk -> int := (c: Chunk) => c.size
  const LIVE_SIZE: Chunk -> int := (c: Chunk) => if c.used then c.size else 0
  const FREE_SIZE: Chunk -> int := (c: Chunk) => if c.used then 0 else c.size
  const FREE_ONE: Chunk -> int := (c: Chunk) => if c.used then 0 else 1

  lemma {:induction false} TilingSum(lo: nat, hi: nat, cs: seq<Chunk>)
    requires Tiled(lo, hi, cs)
    ensures HEADER * |cs| + Sum(cs, SIZE) == hi - lo
    decreases |cs|
  {
    if |cs| > 1 {
      TilingSum(cs[1].addr, hi, cs[1..]);
    } else {
      assert cs == [cs[0]];
    }
  }

  // ---- the accounts ----

  /**
   With N chunks, F of them free, and `kept` the number of allocations so far that handed out
   a whole chunk: the counters hold these amounts, modulo 2^64.
   */
  ghost predicate Accounts(h: State, kept: nat) {
    && h.memMeta == Wrap(2 * CHUNK + HEADER * |h.chunks|)
    && h.memUsed == Wrap(Sum(h.chunks, LIVE_SIZE) - HEADER * kept)
    && h.memFree == Wrap(Sum(h.chunks, FREE_SIZE) - HEADER * Sum(h.chunks, FREE_ONE)
                         - HEADER * (|h.chunks| - 1) - HEADER * kept)
  }

  /** The metadata counter is exact: with all payload bytes it makes up the region from head to the end of tail. */
  lemma MetaIsExact(h: State, kept: nat)
    requires Inv(h) && Accounts(h, kept)
    ensures h.memMeta == 2 * CHUNK + HEADER * |h.chunks|
    ensures h.memMeta + Sum(h.chunks, SIZE) == (h.hi + CHUNK) - (h.lo - CHUNK)
  {
    TilingSum(h.lo, h.hi, h.chunks);
    SumNonNegative(h.chunks);
  }

  lemma {:induction false} SumNonNegative(cs: seq<Chunk>)
    ensures Sum(cs, SIZE) >= 0
  {
    if cs != [] { SumNonNegative(cs[1..]); }
  }

  lemma InitAccounts(lo: nat, hi: nat)
    requires Bounds(lo, hi)
    ensures Accounts(Init(lo, hi), 0)
  {
    var c := Chunk(lo, hi - lo - HEADER, false);
    assert [c][1..] == [];
    assert Sum([c], LIVE_SIZE) == LIVE_SIZE(c) + 0;
    assert Sum([c], FREE_SIZE) == FREE_SIZE(c) + 0;
    assert Sum([c], FREE_ONE) == FREE_ONE(c) + 0;
  }

  /** A counter that agrees with an account agrees after both changed by d. */
  lemma Shift(x: u64, account: int, d: int)
    requires x == Wrap(account)
    ensures Wrap(x + d) == Wrap(account + d)
  {
    WrapAdd(account, d);
  }

  lemma AllocateSums(h: State, k: nat, i: nat, r: nat, w: Chunk -> int)
    requires Inv(h) && k < NUM_SIZES && h.bins[k] != [] && i < |h.chunks|
    requires !h.chunks[i].used && MIN_SIZE <= r <= h.chunks[i].size
    ensures var c := h.chunks[i];
            Sum(Allocate(h, k, i, r).chunks, w) == Sum(h.chunks, w) - w(c) +
            (if r + CHUNK <= c.size
             then w(Chunk(c.addr, r, true)) + w(Chunk(c.Payload() + r, c.size - r - HEADER, false))
             else w(c.(used := true)))
  {
    hide Tiled, Aligned, Coalesced, BinsOK, Slot;
    var cs, c := h.chunks, h.chunks[i];
    var n := if r + CHUNK <= c.size
    then [Chunk(c.addr, r, true), Chunk(c.Payload() + r, c.size - r - HEADER, false)]
    else [c.(used := true)];
    assert cs == cs[..i] + [c] + cs[i + 1..];
    assert Allocate(h, k, i, r).chunks == cs[..i] + n + cs[i + 1..];
    SumReplace(cs[..i], [c], n, cs[i + 1..], w);
    assert Sum(n, w) == w(n[0]) + Sum(n[1..], w);
  }

  lemma AllocateAccounts(h: State, k: nat, i: nat, r: nat, kept: nat)
    requires Inv(h) && k < NUM_SIZES && h.bins[k] != [] && i < |h.chunks|
    requires !h.chunks[i].used && MIN_SIZE <= r <= h.chunks[i].size
    requires Accounts(h, kept)
    ensures Accounts(Allocate(h, k, i, r), if r + CHUNK <= h.chunks[i].size then kept else kept + 1)
  {
    hide Tiled, Aligned, Coalesced, BinsOK, Slot, Wrap;
    var c, h1 := h.chunks[i], Allocate(h, k, i, r);
    AllocateSums(h, k, i, r, LIVE_SIZE);
    AllocateSums(h, k, i, r, FREE_SIZE);
    AllocateSums(h, k, i, r, FREE_ONE);
    var used := Sum(h.chunks, LIVE_SIZE) - HEADER * kept;
    var free := Sum(h.chunks, FREE_SIZE) - HEADER * Sum(h.chunks, FREE_ONE) - HEADER * (|h.chunks| - 1) - HEADER * kept;
    if r + CHUNK <= c.size {
      var len := c.size - r - HEADER;
      Shift(h.memMeta, 2 * CHUNK + HEADER * |h.chunks|, HEADER);
      Shift(h.memUsed, used, r);
      Shift(h.memFree, free, len - HEADER);
      Shift(Add(h.memFree, len - HEADER), free + (len - HEADER), 0 - c.size);
    } else {
      Shift(h.memUsed, used, c.size - HEADER);
      Shift(h.memFree, free, 0 - c.size);
    }
  }

  lemma FreeSums(h: State, i: nat, w: Chunk -> int)
    requires Inv(h) && i < |h.chunks| && h.chunks[i].used
    ensures var cs := h.chunks;
            var (l, r) := (Left(cs, i), Right(cs, i));
            cs[l].Payload() <= cs[r].End() &&
            Sum(FreeIndex(h, i).chunks, w) == Sum(cs, w) - w(cs[i])
            - (if l < i then w(cs[l]) else 0) - (if r > i then w(cs[r]) else 0)
            + w(Chunk(cs[l].addr, cs[r].End() - cs[l].Payload(), false))
  {
    hide Tiled, Aligned, Coalesced, BinsOK, Slot;
    NeighbourSlots(h, i);
    var cs := h.chunks;
    var l, r := Left(cs, i), Right(cs, i);
    var n := [Chunk(cs[l].addr, cs[r].End() - cs[l].Payload(), false)];
    var before := if l < i then [cs[l]] else [];
    var after := if r > i then [cs[r]] else [];
    assert cs == cs[..l] + (before + [cs[i]] + after) + cs[r + 1..];
    assert FreeIndex(h, i).chunks == cs[..l] + n + cs[r + 1..];
    SumReplace(cs[..l], before + [cs[i]] + after, n, cs[r + 1..], w);
    SumConcat(before + [cs[i]], after, w);
    SumConcat(before, [cs[i]], w);
    assert Sum([cs[i]], w) == w(cs[i]) && Sum(n, w) == w(n[0]);
  }

  lemma FreeAccounts(h: State, i: nat, kept: nat)
    requires Inv(h) && i < |h.chunks| && h.chunks[i].used && Accounts(h, kept)
    ensures Accounts(FreeIndex(h, i), kept)
  {
    hide Tiled, Aligned, Coalesced, BinsOK, Slot, Wrap, Fuse, Push, Detached;
    FreeSums(h, i, LIVE_SIZE);
    FreeSums(h, i, FREE_SIZE);
    FreeSums(h, i, FREE_ONE);
    FusedSize(h, i);
    var cs := h.chunks;
    var l, r := Left(cs, i), Right(cs, i);
    var d := HEADER * (r - l);
    Shift(h.memMeta, 2 * CHUNK + HEADER * |cs|, 0 - d);
    Shift(h.memUsed, Sum(cs, LIVE_SIZE) - HEADER * kept, 0 - cs[i].size);
    Shift(h.memFree,
          Sum(cs, FREE_SIZE) - HEADER * Sum(cs, FREE_ONE) - HEADER * (|cs| - 1) - HEADER * kept,
          cs[i].size - HEADER + 3 * d);
  }

  lemma FusedSize(h: State, i: nat)
    requires Inv(h) && i < |h.chunks| && h.chunks[i].used
    ensures var cs := h.chunks;
            var (l, r) := (Left(cs, i), Right(cs, i));
            && cs[r].End() - cs[l].Payload()
               == cs[i].size + (if l < i then cs[l].size + HEADER else 0) + (if r > i then cs[r].size + HEADER else 0)
            && |FreeIndex(h, i).chunks| == |cs| - (r - l)
            && FreeIndex(h, i).memFree == Wrap(h.memFree + (cs[i].size - HEADER + 3 * (HEADER * (r - l))))
  {
    hide Wrap, BinsOK, Slot;
  }

  // ---- runs ----

  datatype Op = Kmalloc(size: u64) | Kfree(p: nat) | Krealloc(p: nat, size: u64)

  /** A heap and the number of allocations so far that handed out a whole chunk. */
  datatype Ledger = Ledger(heap: State, kept: nat)

  /** What a caller must respect: freed pointers are live, and krealloc gets a live pointer or NULL. */
  ghost predicate Legal(h: State, op: Op)
    requires Inv(h)
  {
    match op
    case Kmalloc(_) => true
    case Kfree(p) => Live(h, p)
    case Krealloc(p, size) => Live(h, p) || (p == 0 && size != 0)
  }

  function Whole(h: State, request: u64): (n: nat)
    requires Inv(h)
  {
    var (h', p) := Malloc(h, request);
    if p != 0 && |h'.chunks| == |h.chunks| then 1 else 0
  }

  function Apply(g: Ledger, op: Op): Ledger
    requires Inv(g.heap) && Legal(g.heap, op)
  {
    match op
    case Kmalloc(size) => Ledger(Malloc(g.heap, size).0, g.kept + Whole(g.heap, size))
    case Kfree(p) => Ledger(Free(g.heap, p), g.kept)
    case Krealloc(p, size) =>
      var stays := size == 0 || (p != 0 && size <= Capacity(g.heap, p));
      Ledger(Realloc(g.heap, p, size).0, g.kept + if stays then 0 else Whole(g.heap, size))
  }

  lemma MallocAccounts(h: State, request: u64, kept: nat)
    requires Inv(h) && Accounts(h, kept)
    ensures Accounts(Malloc(h, request).0, kept + Whole(h, request))
  {
    hide Tiled, Aligned, Coalesced, BinsOK, Slot, Accounts, Rounded;
    var r := Rounded(request);
    var k := Fit(h.bins, StartBin(r));
    if k < NUM_SIZES {
      HeadFits(h, r);
      AllocateAccounts(h, k, Find(h.chunks, h.bins[k][0]), r, kept);
    }
  }

  lemma FreePointerAccounts(h: State, p: nat, kept: nat)
    requires Inv(h) && Accounts(h, kept) && Live(h, p)
    ensures Accounts(Free(h, p), kept)
  {
    hide Tiled, Aligned, Coalesced, BinsOK, Accounts;
    FindLive(h, p);
    FreeAccounts(h, Find(h.chunks, p - HEADER), kept);
  }

  /** Every operation keeps the heap invariant, the region and the accounts. */
  lemma ApplyKeeps(g: Ledger, op: Op)
    requires Inv(g.heap) && Legal(g.heap, op) && Accounts(g.heap, g.kept)
    ensures var g' := Apply(g, op);
            Inv(g'.heap) && Accounts(g'.heap, g'.kept) && g'.heap.lo == g.heap.lo && g'.heap.hi == g.heap.hi
  {
    hide Inv, Accounts, Malloc, Free, Capacity;
    var h := g.heap;
    match op
    case Kmalloc(size) =>
      var b := MallocAddsOneBlock(h, size);
      MallocAccounts(h, size, g.kept);
    case Kfree(p) =>
      FreeRemovesOneBlock(h, p);
      FreePointerAccounts(h, p, g.kept);
    case Krealloc(p, size) =>
      if size == 0 {
        FreeRemovesOneBlock(h, p);
        FreePointerAccounts(h, p, g.kept);
      } else if p == 0 || size > Capacity(h, p) {
        var b := MallocAddsOneBlock(h, size);
        MallocAccounts(h, size, g.kept);
        var (h1, q) := Malloc(h, size);
        if p != 0 && q != 0 {
          MallocKeepsLive(h, size, p);
          FreeRemovesOneBlock(h1, p);
          FreePointerAccounts(h1, p, g.kept + Whole(h, size));
        }
      }
  }

  ghost predicate Run(g: Ledger, ops: seq<Op>)
    decreases |ops|
  {
    Inv(g.heap) && (ops != [] ==> Legal(g.heap, ops[0]) && Run(Apply(g, ops[0]), ops[1..]))
  }

  function After(g: Ledger, ops: seq<Op>): Ledger
    requires Run(g, ops)
    decreases |ops|
  {
    if ops == [] then g else After(Apply(g, ops[0]), ops[1..])
  }

  /** Over every run from a new heap, the invariant and the accounts hold. */
  lemma {:induction false} RunKeeps(g: Ledger, ops: seq<Op>)
    requires Run(g, ops) && Accounts(g.heap, g.kept)
    ensures var g' := After(g, ops);
            Inv(g'.heap) && Accounts(g'.heap, g'.kept) && g'.heap.lo == g.heap.lo && g'.heap.hi == g.heap.hi
    decreases |ops|
  {
    hide Inv, Accounts, Apply;
    if ops != [] {
      ApplyKeeps(g, ops[0]);
      RunKeeps(Apply(g, ops[0]), ops[1..]);
    }
  }

  lemma RunFromInit(lo: nat, hi: nat, ops: seq<Op>)
    requires Bounds(lo, hi) && lo % ALIGN == 0 && hi % ALIGN == 0
    requires Run(Ledger(Init(lo, hi), 0), ops)
    ensures var g := After(Ledger(Init(lo, hi), 0), ops);
            Inv(g.heap) && Accounts(g.heap, g.kept) && g.heap.lo == lo && g.heap.hi == hi
  {
    hide Inv, Accounts;
    InitInv(lo, hi);
    InitAccounts(lo, hi);
    RunKeeps(Ledger(Init(lo, hi), 0), ops);
  }
}
