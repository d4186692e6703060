/**
 kernel/mem/heap.c: the allocator over its byte memory.  Every method does to the memory what
 the C function does, and is specified by the function of the same name in HeapOps.
 */
module Heap {
  import opened Common
  import opened Machine
  import opened HeapSpec
  import opened HeapOps
  import opened HeapRuns
  import opened FlatMemory
  import opened HeapLayout
  import opened HeapLists
  import opened HeapShape

  /** The first and the last multiple of ALIGN in [addr, addr + size]. */
  function RegionStart(addr: u64): (a: nat)
    ensures addr <= a < addr + ALIGN && a % ALIGN == 0
  {
    (addr + ALIGN - 1) / ALIGN * ALIGN
  }

  function RegionEnd(addr: u64, size: u64): (a: nat)
    ensures addr + size - ALIGN < a <= addr + size && a % ALIGN == 0
  {
    (addr + size) / ALIGN * ALIGN
  }

  lemma RegionAligned(addr: u64, size: u64)
    ensures addr <= RegionStart(addr) && RegionEnd(addr, size) <= addr + size
    ensures (RegionStart(addr) + CHUNK) % ALIGN == 0 && (RegionEnd(addr, size) - CHUNK) % ALIGN == 0
  {
  }

  class Heap {
    const arena: Arena
    var memFree: u64
    var memUsed: u64
    var memMeta: u64
    var head: nat
    var tail: nat
    ghost var state: State

    ghost predicate Valid()
      reads this, arena, arena.freeChunk
    {
      && Inv(state) && arena.Shaped(ShapeOf(state)) && state.hi + CHUNK <= |arena.mem|
      && head == state.lo - CHUNK && tail == state.hi
      && memFree == state.memFree && memUsed == state.memUsed && memMeta == state.memMeta
    }

    /**
     mrvn_heap_init: the region [addr, addr + size), cut to whole words, becomes a heap with one
     free chunk between the sentinels `head` and `tail`.
     */
    constructor (space: Memory, addr: u64, size: u64)
      requires |space| <= TWO_64 && addr + size <= |space|
      requires var lo, hi := RegionStart(addr) + CHUNK, RegionEnd(addr, size) - CHUNK; hi >= 0 && Bounds(lo, hi)
      ensures Valid() && fresh(arena) && fresh(arena.freeChunk)
      ensures state == Init(RegionStart(addr) + CHUNK, RegionEnd(addr, size) - CHUNK)
      ensures |arena.mem| == |space|
      ensures forall b :: 0 <= b < |space| && (b < addr || addr + size <= b) ==> arena.mem[b] == space[b]
    {
      hide Slot, Ring, Untouched, Holds, Wrap, Grid, Fits, Inv, Init, ShapeOf, InitialBins, RegionStart, RegionEnd;
      RegionAligned(addr, size);
      head := RegionStart(addr);
      tail := RegionEnd(addr, size) - CHUNK;
      memFree := 0;
      memUsed := 0;
      memMeta := 0;
      state := Init(RegionStart(addr) + CHUNK, RegionEnd(addr, size) - CHUNK);
      arena := new Arena(space);
      new;
      var first := head + CHUNK;
      ghost var grid, idle := [head, first, tail], {head, first, tail};
      InitGrid(space, head, tail);
      arena.InitChunks(head, first, tail, idle);
      ghost var p, m := Shape(grid, map[head := true, first := false, tail := true], NoBins(), grid, idle), arena.mem;
      var len := arena.HeapChunkSize(first, p, 1);
      var n := HeapChunkSlot(len);
      SizeHasSlot(len);
      arena.PushFree(n, first, p);
      memFree := Sub(len, HEADER);
      memMeta := CHUNK * 2 + HEADER;
      UntouchedTrans(space, m, arena.mem, grid, idle);
      InitDone(space, arena.mem, arena.freeChunk[..], first, tail, p.(bins := Push(p.bins, n, first)));
    }

    /** heap_chunk_slot */
    method HeapChunkSlot(size: nat) returns (n: int)
      ensures n == Slot(size)
    {
      n := -1;
      var s := size;
      while s > 0
        invariant n + 1 + Slot(s) == Slot(size)
      {
        n := n + 1;
        s := s / 2;
      }
    }

    /** heap_remove_free; c is element i of the `all` list and element j of its bin. */
    method HeapRemoveFree(c: nat, ghost size: nat, ghost p: Shape, ghost i: nat, ghost j: nat)
      requires arena.Shaped(p) && i + 1 < |p.all| && p.all[i] == c && c + HEADER + size == p.all[i + 1]
      requires 0 <= Slot(size) < NUM_SIZES && j < |p.bins[Slot(size)]| && p.bins[Slot(size)][j] == c
      modifies this`memFree, arena`mem, arena.freeChunk
      ensures arena.Shaped(p.(bins := Drop(p.bins, Slot(size), c)))
      ensures Untouched(old(arena.mem), arena.mem, p.grid, p.idle) && Ring(arena.mem, [c + HEADER])
      ensures forall k :: 0 <= k < |p.bins| ==> c !in Drop(p.bins, Slot(size), c)[k]
      ensures memFree == Sub(old(memFree), size - HEADER)
    {
      hide Holds, Slot, Ring, Untouched, Wrap;
      var len := arena.HeapChunkSize(c, p, i);
      var n := HeapChunkSlot(len);
      arena.RemoveFree(n, c, p, j);
      memFree := Sub(memFree, len - HEADER);
    }

    /** heap_push_free; c is element i of the `all` list. */
    method HeapPushFree(c: nat, ghost size: nat, ghost p: Shape, ghost i: nat)
      requires arena.Shaped(p) && i + 1 < |p.all| && p.all[i] == c && c + HEADER + size == p.all[i + 1]
      requires 0 <= Slot(size) < NUM_SIZES && c in p.grid && c in p.idle && Ring(arena.mem, [c + HEADER])
      requires forall k :: 0 <= k < |p.bins| ==> c !in p.bins[k]
      modifies this`memFree, arena`mem, arena.freeChunk
      ensures |p.bins| == NUM_SIZES
      ensures arena.Shaped(p.(bins := Push(p.bins, Slot(size), c)))
      ensures Untouched(old(arena.mem), arena.mem, p.grid, p.idle)
      ensures memFree == Add(old(memFree), size - HEADER)
    {
      hide Slot, Ring, Untouched, Wrap, BinsAt, FlagsAt, Fits, Grid, Scattered;
      var len := arena.HeapChunkSize(c, p, i);
      var n := HeapChunkSlot(len);
      arena.PushFree(n, c, p);
      memFree := Add(memFree, len - HEADER);
    }

    /**
     The second half of kmalloc's split: what lies behind the first `size` bytes of the payload
     of chunk i becomes a chunk of its own, on its bin.  q is the shape of the arena, with the
     grid of the new state.
     */
    method SplitChunk(chunk: nat, size: nat, ghost h: State, ghost k: nat, ghost i: nat, ghost q: Shape)
      returns (len: nat)
      requires Inv(h) && k < NUM_SIZES && h.bins[k] != [] && i < |h.chunks| && !h.chunks[i].used
      requires chunk == h.chunks[i].addr && MIN_SIZE <= size && size + CHUNK <= h.chunks[i].size
      requires Inv(Allocate(h, k, i, size)) && arena.Shaped(q)
      requires |q.bins| == NUM_SIZES && q.all == Addrs(h) && q.grid == Addrs(Allocate(h, k, i, size))
      requires chunk + HEADER + size in q.idle && OffList(q, chunk + HEADER + size)
      requires memMeta == h.memMeta && memFree == h.memFree
      modifies this`memFree, this`memMeta, arena`mem, arena.freeChunk
      ensures len == h.chunks[i].size - size - HEADER && 0 <= Slot(len) < NUM_SIZES
      ensures var c2 := chunk + HEADER + size;
              arena.Shaped(Shape(Addrs(Allocate(h, k, i, size)), q.flags[c2 := false],
                                 Push(q.bins, Slot(len), c2), q.grid, q.idle))
      ensures Untouched(old(arena.mem), arena.mem, q.grid, q.idle)
      ensures memMeta == Add(h.memMeta, HEADER) && memFree == Add(h.memFree, len - HEADER)
    {
      hide Inv, Slot, Ring, Untouched, Wrap, Holds, Allocate, Addrs, InsertAt;
      SplitShape(h, k, i, size);
      SplitNext(h, k, i, size);
      RestHasSlot(h, i, size);
      var chunk2: nat := chunk + HEADER + size;
      assert q.grid[i + 2] == chunk2;
      ghost var m0 := arena.mem;
      arena.HeapChunkInit(chunk2, q);
      ghost var q1, m1 := q.(flags := q.flags[chunk2 := false]), arena.mem;
      arena.InsertChunkAfter(chunk, chunk2, q1, i + 1);
      ghost var q2, m2 := q1.(all := InsertAt(q1.all, i + 2, chunk2)), arena.mem;
      len := arena.HeapChunkSize(chunk2, q2, i + 2);
      var slot := HeapChunkSlot(len);
      arena.PushFree(slot, chunk2, q2);
      memMeta := Add(memMeta, HEADER);
      memFree := Add(memFree, len - HEADER);
      UntouchedTrans(m0, m1, m2, q.grid, q.idle);
      UntouchedTrans(m0, m2, arena.mem, q.grid, q.idle);
    }

    /** kmalloc's search for the first bin large enough and not empty; NUM_SIZES stands for its `return NULL`. */
    method FirstBin(size: nat) returns (n: nat)
      requires Valid() && size >= MIN_SIZE && |state.bins| == NUM_SIZES
      ensures n == Fit(state.bins, StartBin(size))
    {
      hide Inv, Slot, Holds, ShapeOf;
      var slot := HeapChunkSlot(size - 1);
      n := slot + 1;
      if n >= NUM_SIZES {
        return NUM_SIZES;
      }
      while arena.freeChunk[n] == NULL
        invariant 0 <= n < NUM_SIZES
        invariant Fit(state.bins, StartBin(size)) == Fit(state.bins, n)
        decreases NUM_SIZES - n
      {
        BinEmpty(arena.mem, arena.freeChunk[..], state, n);
        n := n + 1;
        if n >= NUM_SIZES {
          return NUM_SIZES;
        }
      }
      BinEmpty(arena.mem, arena.freeChunk[..], state, n);
    }

    /** kmalloc.  A NULL result is 0. */
    method Kmalloc(request: u64) returns (ptr: nat)
      requires Valid()
      modifies this, arena, arena.freeChunk
      ensures Valid() && (state, ptr) == Malloc(old(state), request)
      ensures Preserved(old(state), old(arena.mem), state, arena.mem)
    {
      hide Inv, Slot, Wrap, Holds, Allocate, ShapeOf, Preserved;
      var size := Wrap(request + ALIGN - 1) / ALIGN * ALIGN;
      if size < MIN_SIZE {
        size := MIN_SIZE;
      }
      assert size == Rounded(request);
      InvBins(state);
      var n := FirstBin(size);
      if n >= NUM_SIZES {
        PreservedSame(state, arena.mem);
        return NULL;
      }
      ghost var i := Find(state.chunks, state.bins[n][0]);
      HeadFits(state, size);
      AllocateInv(state, n, i, size);
      ptr := Take(n, size, i);
    }

    /** The part of kmalloc behind the search: chunk i, the first of bin n, is handed out. */
    method Take(n: nat, size: nat, ghost i: nat) returns (ptr: nat)
      requires Valid() && n < NUM_SIZES && |state.bins| == NUM_SIZES && state.bins[n] != [] && i < |state.chunks|
      requires !state.chunks[i].used && MIN_SIZE <= size <= state.chunks[i].size
      requires state.bins[n][0] == state.chunks[i].addr && Inv(Allocate(state, n, i, size))
      modifies this, arena, arena.freeChunk
      ensures Valid() && state == Allocate(old(state), n, i, size) && ptr == old(state).chunks[i].Payload()
      ensures Preserved(old(state), old(arena.mem), state, arena.mem)
    {
      hide Inv, Slot, Ring, Untouched, Wrap, Holds, Preserved, Addrs, FreeAddr, Split, SetUsed;
      ghost var h, m0 := state, arena.mem;
      ghost var c, popped, p := h.chunks[i], h.bins[n := h.bins[n][1..]], ShapeOf(h);
      AddrAt(h, i);
      NextAddr(h, i);
      AddrOf(h, i);
      FitsOf(arena.mem, arena.freeChunk[..], p);
      var chunk := arena.PopFree(n, p);
      ghost var p1, m1 := p.(bins := popped), arena.mem;
      var size2 := arena.HeapChunkSize(chunk, p1, i + 1);
      UntouchedSize(m0, m1, p.grid, p.idle);
      var len; ghost var pd;
      len, pd := CutChunk(chunk, size, size2, h, n, i);
      CutWider(h, n, i, size);
      UntouchedWider(m0, m1, p.grid, p.idle, pd.grid, pd.idle);
      UntouchedTrans(m0, m1, arena.mem, pd.grid, pd.idle);
      ghost var m2 := arena.mem;
      arena.SetUsedFlag(chunk, true, pd);
      UntouchedTrans(m0, m2, arena.mem, pd.grid, pd.idle);
      memFree := Sub(memFree, size2);
      memUsed := Add(memUsed, size2 - len - HEADER);
      ptr := chunk + HEADER;
      state := Allocate(h, n, i, size);
      ghost var pe := pd.(flags := pd.flags[chunk := true]);
      if size + CHUNK <= c.size {
        SplitDone(h, n, i, size, m0, arena.mem, arena.freeChunk[..], pe);
      } else {
        WholeDone(h, n, i, size, m0, arena.mem, arena.freeChunk[..], pe);
      }
    }

    /** kmalloc's test whether the rest of the chunk can be one, and the split. pd is the shape of the arena then. */
    method CutChunk(chunk: nat, size: nat, size2: nat, ghost h: State, ghost n: nat, ghost i: nat)
      returns (len: nat, ghost pd: Shape)
      requires Inv(h) && n < NUM_SIZES && |h.bins| == NUM_SIZES && h.bins[n] != [] && i < |h.chunks|
      requires !h.chunks[i].used && MIN_SIZE <= size <= h.chunks[i].size && Inv(Allocate(h, n, i, size))
      requires chunk == h.chunks[i].addr && size2 == h.chunks[i].size && h.hi + CHUNK <= |arena.mem| <= TWO_64
      requires arena.Shaped(ShapeOf(h).(bins := h.bins[n := h.bins[n][1..]]))
      requires memFree == h.memFree && memMeta == h.memMeta
      modifies this`memFree, this`memMeta, arena`mem, arena.freeChunk
      ensures arena.Shaped(pd) && Untouched(old(arena.mem), arena.mem, pd.grid, pd.idle)
      ensures pd == CutShape(h, n, i, size) && memMeta == Allocate(h, n, i, size).memMeta
      ensures len == if size + CHUNK <= size2 then size2 - size - HEADER else 0
      ensures memFree == if size + CHUNK <= size2 then Add(h.memFree, len - HEADER) else h.memFree
    {
      hide Inv, Slot, Ring, Untouched, Wrap, Holds, Addrs, FreeAddr, Split, SetUsed;
      len := 0;
      if size + CHUNK <= size2 {
        SplitRegrid(h, n, i, size, arena.mem, arena.freeChunk[..]);
        ghost var q := SplitGrid(h, n, i, size);
        SplitShape(h, n, i, size);
        len := SplitChunk(chunk, size, h, n, i, q);
      } else {
        UntouchedSelf(arena.mem, ShapeOf(h).grid, ShapeOf(h).idle);
      }
      pd := CutShape(h, n, i, size);
    }

    /** kfree's merge with the right neighbour of chunk i. */
    method MergeNext(chunk: nat, next: nat, ghost h: State, ghost i: nat)
      requires Inv(h) && i < |h.chunks| && h.chunks[i].used && Right(h.chunks, i) == i + 1
      requires |h.bins| == NUM_SIZES && 0 <= Slot(h.chunks[i + 1].size) < NUM_SIZES
      requires arena.Shaped(FreeGrid(h, i)) && chunk == h.chunks[i].addr && next == h.chunks[i + 1].addr
      modifies this`memFree, this`memMeta, arena`mem, arena.freeChunk
      ensures arena.Shaped(AfterNext(h, i))
      ensures Untouched(old(arena.mem), arena.mem, FreeGrid(h, i).grid, FreeGrid(h, i).idle)
      ensures memFree == Add(Sub(old(memFree), h.chunks[i + 1].size - HEADER), HEADER)
      ensures memMeta == Sub(old(memMeta), HEADER)
    {
      hide Inv, Slot, Ring, Untouched, Wrap, Holds, Addrs, FreeAddr, Drop;
      FreeFacts(h, i);
      ghost var q, m0 := FreeGrid(h, i), arena.mem;
      ghost var j := InBin(h, i + 1);
      HeapRemoveFree(next, h.chunks[i + 1].size, q, i + 2, j);
      ghost var q1, m1 := q.(bins := Drop(q.bins, Slot(h.chunks[i + 1].size), next)), arena.mem;
      arena.RemoveChunk(next, q1, i + 2);
      UntouchedTrans(m0, m1, arena.mem, q.grid, q.idle);
      memMeta := Sub(memMeta, HEADER);
      memFree := Add(memFree, HEADER);
    }

    /** kfree when the left neighbour of chunk i is free: chunk i is merged into it. */
    method MergePrev(chunk: nat, prev: nat, ghost h: State, ghost i: nat)
      requires Inv(h) && i < |h.chunks| && h.chunks[i].used && Left(h.chunks, i) < i
      requires |h.bins| == NUM_SIZES && (Right(h.chunks, i) > i ==> 0 <= Slot(h.chunks[i + 1].size) < NUM_SIZES)
      requires arena.Shaped(AfterNext(h, i)) && chunk == h.chunks[i].addr && prev == h.chunks[i - 1].addr
      modifies this`memFree, this`memMeta, arena`mem, arena.freeChunk
      ensures arena.Shaped(FreedFinal(h, i))
      ensures Untouched(old(arena.mem), arena.mem, FreeGrid(h, i).grid, FreeGrid(h, i).idle)
      ensures memFree == Add(Add(Sub(old(memFree), h.chunks[i - 1].size - HEADER), FreedSize(h, i) - HEADER), HEADER)
      ensures memMeta == Sub(old(memMeta), HEADER)
    {
      hide Inv, Slot, Ring, Untouched, Wrap, Holds, Addrs, FreeAddr, Drop, Push, FreeIndex, Left, Right, AfterNext,
        FreedFinal, FreedSize, FreeGrid, Add, Sub;
      InvBins(h);
      ghost var s, m0 := AfterNext(h, i), arena.mem;
      FreedFinalUnfold(h, i);
      AfterNextFacts(h, i);
      AfterNextLeft(h, i);
      FreedBins(h, i);
      ghost var j := PrevInBin(h, i);
      HeapRemoveFree(prev, h.chunks[i - 1].size, s, i, j);
      ghost var s1, m1 := s.(bins := Drop(s.bins, Slot(h.chunks[i - 1].size), prev)), arena.mem;
      arena.RemoveChunk(chunk, s1, i + 1);
      ghost var s2, m2 := s1.(all := RemoveAt(s1.all, i + 1)), arena.mem;
      HeapPushFree(prev, FreedSize(h, i), s2, i);
      UntouchedTrans(m0, m1, m2, s.grid, s.idle);
      UntouchedTrans(m0, m2, arena.mem, s.grid, s.idle);
      memMeta := Sub(memMeta, HEADER);
      memFree := Add(memFree, HEADER);
    }

    /** kfree when the left neighbour of chunk i is in use: chunk i goes on its bin. */
    method ReleaseChunk(chunk: nat, ghost h: State, ghost i: nat)
      requires Inv(h) && i < |h.chunks| && h.chunks[i].used && Left(h.chunks, i) == i
      requires |h.bins| == NUM_SIZES && (Right(h.chunks, i) > i ==> 0 <= Slot(h.chunks[i + 1].size) < NUM_SIZES)
      requires arena.Shaped(AfterNext(h, i)) && chunk == h.chunks[i].addr
      modifies this`memFree, arena`mem, arena.freeChunk
      ensures arena.Shaped(FreedFinal(h, i))
      ensures Untouched(old(arena.mem), arena.mem, FreeGrid(h, i).grid, FreeGrid(h, i).idle)
      ensures memFree == Add(old(memFree), FreedSize(h, i) - HEADER)
    {
      hide Inv, Slot, Ring, Untouched, Wrap, Holds, Addrs, FreeAddr, Drop, Push, FreeIndex, Left, Right;
      ghost var s, m0 := AfterNext(h, i), arena.mem;
      AfterNextFacts(h, i);
      AfterNextSelf(h, i);
      arena.SetUsedFlag(chunk, false, s);
      ghost var s1, m1 := s.(flags := s.flags[chunk := false]), arena.mem;
      arena.InitFreeNode(chunk, s1);
      ghost var m2 := arena.mem;
      HeapPushFree(chunk, FreedSize(h, i), s1, i + 1);
      UntouchedTrans(m0, m1, m2, s.grid, s.idle);
      UntouchedTrans(m0, m2, arena.mem, s.grid, s.idle);
    }

    /** kfree */
    method Kfree(ptr: nat)
      requires Valid() && Live(state, ptr)
      modifies this, arena, arena.freeChunk
      ensures Valid() && state == Free(old(state), ptr)
      ensures Preserved(old(state), old(arena.mem), state, arena.mem)
    {
      hide Inv, Slot, Ring, Untouched, Wrap, Holds, Addrs, FreeAddr, FreeIndex, Preserved, FreeGrid, AfterNext,
        FreedFinal, FreedSize, FreedMemFree, FreedMemMeta, ShapeOf, Left, Right;
      FindLive(state, ptr);
      InvBins(state);
      ghost var h, m0, i := state, arena.mem, Find(state.chunks, ptr - HEADER);
      FreeReads(h, i, arena.mem, arena.freeChunk[..]);
      var chunk := ptr - HEADER;
      var next := Next(arena.mem, chunk);
      var prev := Prev(arena.mem, chunk);
      memUsed := Sub(memUsed, next - chunk - HEADER);
      FreeRegrid(h, i, arena.mem, arena.freeChunk[..]);
      Merge(chunk, next, prev, h, i);
      FreeFinish(h, i, m0, arena.mem, arena.freeChunk[..]);
      state := FreeIndex(h, i);
    }

    /** The part of kfree behind the counter: the free neighbours of chunk i are merged with it. */
    method Merge(chunk: nat, next: nat, prev: nat, ghost h: State, ghost i: nat)
      requires Inv(h) && i < |h.chunks| && h.chunks[i].used && |h.bins| == NUM_SIZES && h.lo >= CHUNK
      requires chunk == h.chunks[i].addr
      requires Right(h.chunks, i) > i ==> 0 <= Slot(h.chunks[i + 1].size) < NUM_SIZES
      requires arena.Shaped(FreeGrid(h, i)) && memFree == h.memFree && memMeta == h.memMeta
      requires var flags := ShapeOf(h).flags;
               && next in flags && (flags[next] <==> Right(h.chunks, i) == i)
               && prev in flags && (flags[prev] <==> Left(h.chunks, i) == i)
      requires Right(h.chunks, i) > i ==> next == h.chunks[i + 1].addr
      requires Left(h.chunks, i) < i ==> prev == h.chunks[i - 1].addr
      modifies this`memFree, this`memMeta, arena`mem, arena.freeChunk
      ensures arena.Shaped(FreedFinal(h, i))
      ensures Untouched(old(arena.mem), arena.mem, FreeGrid(h, i).grid, FreeGrid(h, i).idle)
      ensures memFree == FreedMemFree(h, i) && memMeta == FreedMemMeta(h, i)
    {
      hide Inv, Slot, Ring, Untouched, Wrap, Holds, Addrs, FreeAddr, FreeIndex, FreeGrid, AfterNext, FreedFinal,
        FreedSize, ShapeOf;
      ghost var m0 := arena.mem;
      AfterNextUnfold(h, i);
      var nextUsed := arena.IsUsed(next, FreeGrid(h, i));
      if !nextUsed {
        MergeNext(chunk, next, h, i);
      } else {
        UntouchedSelf(arena.mem, FreeGrid(h, i).grid, FreeGrid(h, i).idle);
      }
      ghost var m1 := arena.mem;
      var prevUsed := arena.IsUsed(prev, AfterNext(h, i));
      if !prevUsed {
        MergePrev(chunk, prev, h, i);
      } else {
        ReleaseChunk(chunk, h, i);
      }
      UntouchedTrans(m0, m1, arena.mem, FreeGrid(h, i).grid, FreeGrid(h, i).idle);
    }

    /** A client writes byte a of its live block c. */
    method WritePayload(a: nat, v: byte, ghost c: Chunk)
      requires Valid() && InBlock(state, c, a)
      modifies arena`mem
      ensures Valid() && a < |old(arena.mem)| && arena.mem == old(arena.mem)[a := v]
    {
      hide Inv, Holds, ShapeOf, LiveBlock;
      BlockInMemory(state, c, a);
      ghost var m0 := arena.mem;
      arena.mem := arena.mem[a := v];
      PayloadWritten(m0, arena.mem, arena.freeChunk[..], ShapeOf(state));
    }

    /** memcpy into the first n bytes of the live block c. */
    method Memcpy(dst: nat, src: nat, n: nat, ghost c: Chunk)
      requires Valid() && LiveBlock(state, c) && dst == c.Payload() && n <= c.size
      requires src + n <= |arena.mem| && (src + n <= dst || dst + n <= src)
      modifies arena`mem
      ensures Valid() && Copied(old(arena.mem), arena.mem, dst, src, n)
    {
      hide Inv, Holds, ShapeOf, LiveBlock;
      var i := 0;
      while i < n
        invariant 0 <= i <= n && Valid() && state == old(state) && Copied(old(arena.mem), arena.mem, dst, src, i)
      {
        WritePayload(dst + i, arena.mem[src + i], c);
        i := i + 1;
      }
    }

    /** memset of the first n bytes of the live block c. */
    method Memset(dst: nat, v: byte, n: nat, ghost c: Chunk)
      requires Valid() && LiveBlock(state, c) && dst == c.Payload() && n <= c.size
      modifies arena`mem
      ensures Valid() && |arena.mem| == |old(arena.mem)|
      ensures forall b :: 0 <= b < |arena.mem| ==>
                            arena.mem[b] == if dst <= b < dst + n then v else old(arena.mem)[b]
    {
      hide Inv, Holds, ShapeOf, LiveBlock;
      var i := 0;
      while i < n
        invariant 0 <= i <= n && Valid() && state == old(state) && |arena.mem| == |old(arena.mem)|
        invariant forall b :: 0 <= b < |arena.mem| ==>
                                arena.mem[b] == if dst <= b < dst + i then v else old(arena.mem)[b]
      {
        WritePayload(dst + i, v, c);
        i := i + 1;
      }
    }

    /**
     kcalloc: on success the first nmemb * size bytes of the block, taken modulo 2^64, are zero. They are all the
     bytes asked for, and in the block, exactly when the product does not wrap.
     */
    method Kcalloc(nmemb: u64, size: u64) returns (ptr: nat)
      requires Valid() && (Malloc(state, Wrap(nmemb * size)).1 != NULL ==> Wrap(nmemb * size) <= TWO_64 - ALIGN)
      modifies this, arena, arena.freeChunk
      ensures Valid() && (state, ptr) == Malloc(old(state), Wrap(nmemb * size))
      ensures Preserved(old(state), old(arena.mem), state, arena.mem)
      ensures ptr != NULL ==> forall b :: ptr <= b < ptr + Wrap(nmemb * size) ==> b < |arena.mem| && arena.mem[b] == 0
      ensures ptr != NULL ==> Live(state, ptr) && (nmemb * size <= Capacity(state, ptr) <==> nmemb * size < TWO_64)
    {
      hide Inv, Holds, ShapeOf, LiveBlock, Live, Wrap, Preserved, Malloc, Rounded, Capacity;
      ghost var h, m0 := state, arena.mem;
      var allocSize := Wrap(nmemb * size);
      if Malloc(state, allocSize).1 != NULL { CallocCovers(state, nmemb, size); }
      ptr := Kmalloc(allocSize);
      if ptr != NULL {
        ghost var b := MallocAddsOneBlock(h, allocSize);
        ghost var m1 := arena.mem;
        RoundedCovers(allocSize);
        NewBlockIsLive(h, state, b);
        BlockFits(state, b, arena.mem);
        Memset(ptr, 0, allocSize, b);
        WriteNewPreserves(h, m0, m1, state, b, arena.mem);
      }
    }

    /** krealloc */
    method Krealloc(ptr: nat, size: u64) returns (newPtr: nat)
      requires Valid() && (Live(state, ptr) || (ptr == NULL && size != 0)) && MoveFits(state, ptr, size)
      modifies this, arena, arena.freeChunk
      ensures Valid() && (state, newPtr) == Realloc(old(state), ptr, size)
      ensures Preserved(old(state), old(arena.mem), state, arena.mem)
      // the contents move along
      ensures ptr != NULL && newPtr != NULL ==>
                SameBytes(old(arena.mem), ptr, arena.mem, newPtr, Min(Capacity(old(state), ptr), size))
      // and a failing call changes nothing
      ensures size != 0 && newPtr == NULL ==> state == old(state)
    {
      hide Inv, Holds, ShapeOf, LiveBlock, Live, Malloc, Free, Capacity, Wrap, MoveFits;
      ghost var h, m0 := state, arena.mem;
      if size == 0 {
        Kfree(ptr);
        newPtr := NULL;
      } else if ptr == NULL {
        NullNotLive(h);
        newPtr := Kmalloc(size);
        ghost var nb := MallocAddsOneBlock(h, size);
      } else {
        PreservedSame(h, m0);
        ghost var c := BlockAt(h, ptr, m0);
        var oldSize := BlockSize(ptr);
        if size <= oldSize {
          newPtr := ptr;
        } else {
          newPtr := Move(ptr, size, oldSize);
        }
      }
    }

    /** heap_chunk_size of the chunk of a live pointer. */
    method BlockSize(ptr: nat) returns (n: nat)
      requires Valid() && Live(state, ptr)
      ensures n == Capacity(state, ptr)
    {
      hide Inv, Holds, ShapeOf, Live, Addrs;
      FindLive(state, ptr);
      ghost var i := Find(state.chunks, ptr - HEADER);
      ShapeAll(state);
      AddrAt(state, i);
      NextAddr(state, i);
      n := arena.HeapChunkSize(ptr - HEADER, ShapeOf(state), i + 1);
    }

    /** krealloc's move of a live block to a larger one. */
    method Move(ptr: nat, size: u64, oldSize: nat) returns (newPtr: nat)
      requires Valid() && Live(state, ptr) && oldSize == Capacity(state, ptr) < size && MoveFits(state, ptr, size)
      modifies this, arena, arena.freeChunk
      ensures Valid() && newPtr == Malloc(old(state), size).1
      ensures Inv(Malloc(old(state), size).0) && Live(Malloc(old(state), size).0, ptr)
      ensures newPtr == NULL ==> state == Malloc(old(state), size).0 == old(state)
      ensures newPtr != NULL ==> state == Free(Malloc(old(state), size).0, ptr)
      ensures Preserved(old(state), old(arena.mem), state, arena.mem)
      ensures newPtr != NULL ==> SameBytes(old(arena.mem), ptr, arena.mem, newPtr, oldSize)
    {
      hide Inv, Holds, ShapeOf, LiveBlock, Live, Preserved, Malloc, Free, Capacity, Rounded, Wrap, MoveFits;
      ghost var h, m0 := state, arena.mem;
      ghost var c := BlockAt(h, ptr, m0);
      ghost var nb := MallocAddsOneBlock(h, size);
      MallocKeepsLive(h, size, ptr);
      newPtr := Kmalloc(size);
      if newPtr != NULL {
        ghost var h1, m1 := state, arena.mem;
        ReallocFitsIff(h, ptr, size);
        NewBlockIsLive(h, h1, nb);
        CapacityOf(h1, nb);
        OldBlockDiffers(h, h1, c, nb);
        LiveBlocksDisjoint(h1, c, nb);
        BlockFits(h1, c, m1);
        BlockFits(h1, nb, m1);
        Memcpy(newPtr, ptr, oldSize, nb);
        ghost var m2 := arena.mem;
        FreeRemovesOneBlock(h1, ptr);
        Kfree(ptr);
        MovePreserves(h, m0, h1, m1, m2, state, arena.mem, c, nb);
      }
    }
  }

  /** m' is m with the n bytes at src copied to dst. */
  ghost predicate Copied(m: Memory, m': Memory, dst: nat, src: nat, n: nat)
    requires src + n <= |m|
  {
    |m'| == |m| && forall b {:trigger m'[b]} ::
      0 <= b < |m| ==> m'[b] == if dst <= b < dst + n then m[src + (b - dst)] else m[b]
  }

  /** The n bytes at a in m are those at a' in m'. */
  ghost predicate SameBytes(m: Memory, a: nat, m': Memory, a': nat, n: nat) {
    a + n <= |m| && a' + n <= |m'| && m'[a'..a' + n] == m[a..a + n]
  }

  lemma SameByBytes(m: Memory, a: nat, m': Memory, a': nat, n: nat)
    requires a + n <= |m| && a' + n <= |m'|
    requires forall b {:trigger m'[b]} :: a' <= b < a' + n ==> m'[b] == m[a + (b - a')]
    ensures SameBytes(m, a, m', a', n)
  {
    var s, t := m[a..a + n], m'[a'..a' + n];
    forall k | 0 <= k < n
      ensures t[k] == s[k]
    {
      assert m'[a' + k] == m[a + k];
    }
  }

  /** The size of the free chunk that freeing chunk i makes. */
  ghost function FreedSize(h: State, i: nat): int
    requires i < |h.chunks|
  {
    h.chunks[Right(h.chunks, i)].End() - h.chunks[Left(h.chunks, i)].Payload()
  }

  /** The shape at the end of kfree. */
  ghost function FreedFinal(h: State, i: nat): Shape
    requires Inv(h) && i < |h.chunks| && h.chunks[i].used
  {
    var q := FreeGrid(h, i);
    q.(all := FreedAddrs(h, i), bins := FreeIndex(h, i).bins,
    flags := if Left(h.chunks, i) < i then q.flags else q.flags[h.chunks[i].addr := false])
  }

  lemma UntouchedSelf(m: Memory, grid: seq<nat>, idle: set<nat>)
    ensures Untouched(m, m, grid, idle)
  {
  }

  /** The shape kfree has reached once the right neighbour of chunk i is dealt with. */
  ghost function AfterNext(h: State, i: nat): Shape
    requires h.lo >= CHUNK && i < |h.chunks| && |h.bins| == NUM_SIZES
    requires Right(h.chunks, i) > i ==> 0 <= Slot(h.chunks[i + 1].size) < NUM_SIZES
  {
    if Right(h.chunks, i) > i
    then FreeGrid(h, i).(all := RemoveAt(Addrs(h), i + 2),
            bins := Drop(h.bins, Slot(h.chunks[i + 1].size), h.chunks[i + 1].addr))
    else FreeGrid(h, i)
  }

  lemma PreservedSame(h: State, m: Memory)
    ensures Preserved(h, m, h, m)
  {
  }

  lemma UntouchedSize(m: Memory, m': Memory, grid: seq<nat>, idle: set<nat>)
    requires Untouched(m, m', grid, idle)
    ensures |m'| == |m|
  {
  }

  lemma FitsOf(m: Memory, heads: seq<nat>, p: Shape)
    requires Holds(m, heads, p)
    ensures |m| <= TWO_64 && |p.bins| == NUM_SIZES && |heads| == NUM_SIZES
  {
  }

  /** free_chunk[k] is NULL exactly when bin k is empty. */
  lemma BinEmpty(m: Memory, heads: seq<nat>, h: State, k: nat)
    requires Inv(h) && Holds(m, heads, ShapeOf(h)) && k < NUM_SIZES
    ensures heads[k] == NULL <==> h.bins[k] == []
  {
    hide Inv, Ring, Scattered, Grid, FlagsAt;
    BinHead(m, heads[k], h.bins[k], Addrs(h));
  }

  lemma InitGrid(m: Memory, head: nat, tail: nat)
    requires 0 < head && head + 2 * CHUNK <= tail && tail + CHUNK <= |m| <= TWO_64
    ensures Grid([head, head + CHUNK, tail]) && Fits(m, [head, head + CHUNK, tail])
  {
  }

  lemma InitShape(first: nat, tail: nat, p: Shape)
    requires Bounds(first, tail) && 0 <= Slot(tail - first - HEADER) < NUM_SIZES
    requires p.all == [first - CHUNK, first, tail] && p.bins == Push(NoBins(), Slot(tail - first - HEADER), first)
    requires p.flags == map[first - CHUNK := true, first := false, tail := true]
    ensures var h := Init(first, tail);
            && h.lo == first && h.hi == tail && h.memFree == Sub(tail - first - HEADER, HEADER)
            && h.memUsed == 0 && h.memMeta == CHUNK * 2 + HEADER
            && p.all == Addrs(h) && p.bins == h.bins
            && forall i :: 0 <= i < |Addrs(h)| ==>
                             Addrs(h)[i] in p.flags && p.flags[Addrs(h)[i]] == !FreeAddr(h.chunks, Addrs(h)[i])
  {
    hide Slot;
    var h := Init(first, tail);
    assert h.chunks[0] == Chunk(first, tail - first - HEADER, false);
    assert FreeAddr(h.chunks, first);
    assert p.all == Addrs(h);
    forall k | 0 <= k < NUM_SIZES
      ensures p.bins[k] == InitialBins(first, tail)[k]
    {
    }
  }

  lemma InitDone(m: Memory, m': Memory, heads: seq<nat>, first: nat, tail: nat, p: Shape)
    requires Bounds(first, tail) && first % ALIGN == 0 && tail % ALIGN == 0 && tail + CHUNK <= |m|
    requires 0 <= Slot(tail - first - HEADER) < NUM_SIZES
    requires Holds(m', heads, p) && Untouched(m, m', p.grid, p.idle)
    requires p.all == p.grid == [first - CHUNK, first, tail]
             && p.bins == Push(NoBins(), Slot(tail - first - HEADER), first)
    requires p.flags == map[first - CHUNK := true, first := false, tail := true]
    ensures var h := Init(first, tail);
            && Inv(h) && h.lo == first && h.hi == tail && h.memFree == Sub(tail - first - HEADER, HEADER)
            && h.memUsed == 0 && h.memMeta == CHUNK * 2 + HEADER
            && Holds(m', heads, ShapeOf(h)) && |m'| == |m|
            && forall b :: 0 <= b < |m| && (b < first - CHUNK || tail + CHUNK <= b) ==> m'[b] == m[b]
  {
    hide Slot, Untouched, Holds, FreeAddr, Inv, Init, Addrs, ShapeOf;
    InitInv(first, tail);
    InitShape(first, tail, p);
    InitOuter(Init(first, tail), m, m', p.idle);
    Settle(m', heads, p, Init(first, tail));
  }

  lemma InitOuter(h: State, m: Memory, m': Memory, idle: set<nat>)
    requires Inv(h) && Untouched(m, m', Addrs(h), idle)
    ensures |m'| == |m|
    ensures forall b :: 0 <= b < |m| && (b < h.lo - CHUNK || h.hi + CHUNK <= b) ==> m'[b] == m[b]
  {
    hide Inv, Outside;
    forall b | 0 <= b < |m| && (b < h.lo - CHUNK || h.hi + CHUNK <= b)
      ensures m'[b] == m[b]
    {
      OuterBytesOutside(h, b, idle);
    }
  }

  lemma SplitNext(h: State, k: nat, i: nat, r: nat)
    requires Inv(h) && k < NUM_SIZES && h.bins[k] != [] && i < |h.chunks| && !h.chunks[i].used
    requires MIN_SIZE <= r && r + CHUNK <= h.chunks[i].size && Inv(Allocate(h, k, i, r))
    ensures var s := Addrs(Allocate(h, k, i, r));
            && |s| > i + 3 && s[i + 1] == h.chunks[i].addr && s[i + 2] == h.chunks[i].Payload() + r
            && s[i + 3] == h.chunks[i].End() && Addrs(h)[i + 1] == h.chunks[i].addr
  {
    hide Inv, Allocate, Addrs;
    SplitShape(h, k, i, r);
    NextAddr(h, i);
    AddrAt(h, i);
  }

  lemma AddrAt(h: State, i: nat)
    requires Inv(h) && i < |h.chunks|
    ensures |Addrs(h)| == |h.chunks| + 2 && Addrs(h)[i + 1] == h.chunks[i].addr
  {
  }

  /** What kfree finds in the memory around chunk i. */
  lemma FreeReads(h: State, i: nat, m: Memory, heads: seq<nat>)
    requires Inv(h) && i < |h.chunks| && h.chunks[i].used && Holds(m, heads, ShapeOf(h))
    ensures |h.bins| == NUM_SIZES && (Right(h.chunks, i) > i ==> 0 <= Slot(h.chunks[i + 1].size) < NUM_SIZES)
    ensures |m| <= TWO_64 && h.chunks[i].addr + CHUNK <= |m|
    ensures var (a, cs, flags) := (h.chunks[i].addr, h.chunks, ShapeOf(h).flags);
            var (l, r) := (Left(cs, i), Right(cs, i));
            && Next(m, a) == a + HEADER + cs[i].size && Next(m, a) in flags && (flags[Next(m, a)] <==> r == i)
            && (r > i ==> Next(m, a) == cs[i + 1].addr)
            && Prev(m, a) in flags && (flags[Prev(m, a)] <==> l == i)
            && (l < i ==> Prev(m, a) == cs[i - 1].addr)
  {
    hide Inv, Slot, Load, FreeAddr, Scattered, BinsAt, FlagsAt;
    FreeFacts(h, i);
    NeighbourSlots(h, i);
    InvBins(h);
    RingFields(m, Addrs(h), i + 1);
    FitsAt(m, Addrs(h), i + 1);
  }

  lemma FitsAt(m: Memory, grid: seq<nat>, i: nat)
    requires Fits(m, grid) && i < |grid|
    ensures grid[i] + CHUNK <= |m|
  {
  }

  lemma AfterNextUnfold(h: State, i: nat)
    requires Inv(h) && i < |h.chunks| && h.chunks[i].used && |h.bins| == NUM_SIZES
    requires Right(h.chunks, i) > i ==> 0 <= Slot(h.chunks[i + 1].size) < NUM_SIZES
    ensures Right(h.chunks, i) == i ==> AfterNext(h, i) == FreeGrid(h, i)
    ensures AfterNext(h, i).flags == FreeGrid(h, i).flags == ShapeOf(h).flags
  {
  }

  lemma FreedFinalUnfold(h: State, i: nat)
    requires Inv(h) && i < |h.chunks| && h.chunks[i].used
    ensures var (p, q) := (FreedFinal(h, i), FreeGrid(h, i));
            && p.all == FreedAddrs(h, i) && p.grid == q.grid && p.idle == q.idle && p.bins == FreeIndex(h, i).bins
            && p.flags == if Left(h.chunks, i) < i then q.flags else q.flags[h.chunks[i].addr := false]
  {
    hide FreeIndex, FreeGrid;
  }

  lemma AfterNextFacts(h: State, i: nat)
    requires Inv(h) && i < |h.chunks| && h.chunks[i].used && |h.bins| == NUM_SIZES
    requires Right(h.chunks, i) > i ==> 0 <= Slot(h.chunks[i + 1].size) < NUM_SIZES
    ensures var (s, cs, l, r) := (AfterNext(h, i), h.chunks, Left(h.chunks, i), Right(h.chunks, i));
            && l <= i && 0 <= Slot(FreedSize(h, i)) < NUM_SIZES && FreedSize(h, i) >= 0
            && |s.bins| == NUM_SIZES && |s.all| >= i + 3 && i + 1 < |cs| + 1
            && s.grid == FreeGrid(h, i).grid && s.idle == FreeGrid(h, i).idle && s.flags == FreeGrid(h, i).flags
            && s.all[i + 1] == cs[i].addr && s.all[i + 2] == cs[l].Payload() + FreedSize(h, i)
            && cs[i].addr in s.grid && cs[i].addr in s.idle
            && (forall k :: 0 <= k < NUM_SIZES ==> cs[i].addr !in s.bins[k])
  {
    hide Inv, Slot, FreeAddr, Drop, Push, Fuse, Addrs;
    FreeFacts(h, i);
    NeighbourSlots(h, i);
    var cs, r := h.chunks, Right(h.chunks, i);
    if r > i {
      var j := InBin(h, r);
      assert h.bins[Slot(cs[r].size)][j] in h.bins[Slot(cs[r].size)];
      UsedOffBins(h, cs[i].addr, Slot(cs[r].size), cs[r].addr);
    } else {
      UsedOffAllBins(h, cs[i].addr);
    }
  }

  lemma AfterNextLeft(h: State, i: nat)
    requires Inv(h) && i < |h.chunks| && h.chunks[i].used && |h.bins| == NUM_SIZES && Left(h.chunks, i) < i
    requires Right(h.chunks, i) > i ==> 0 <= Slot(h.chunks[i + 1].size) < NUM_SIZES
    ensures var (s, cs, l) := (AfterNext(h, i), h.chunks, Left(h.chunks, i));
            && i > 0 && |s.all| >= i + 3 && s.all[i] == cs[l].addr && cs[l].End() == cs[i].addr && l == i - 1
            && cs[l].addr in s.grid && cs[l].addr in s.idle
            && FreedAddrs(h, i) == RemoveAt(s.all, i + 1)
            && s.all[i + 2] == cs[l].Payload() + FreedSize(h, i)
  {
    hide Inv, Slot, FreeAddr, Drop, Push, Fuse, Addrs, FreeIndex;
    FreeFacts(h, i);
  }

  lemma FreedBins(h: State, i: nat)
    requires Inv(h) && i < |h.chunks| && h.chunks[i].used && |h.bins| == NUM_SIZES && Left(h.chunks, i) < i
    requires Right(h.chunks, i) > i ==> 0 <= Slot(h.chunks[i + 1].size) < NUM_SIZES
    ensures var (s, cs, l) := (AfterNext(h, i), h.chunks, Left(h.chunks, i));
            && 0 <= Slot(cs[l].size) < NUM_SIZES && 0 <= Slot(FreedSize(h, i)) < NUM_SIZES && |s.bins| == NUM_SIZES
            && FreeIndex(h, i).bins ==
               Push(Drop(s.bins, Slot(cs[l].size), cs[l].addr), Slot(FreedSize(h, i)), cs[l].addr)
  {
    hide Inv, Slot, FreeAddr, Drop, Push, Fuse, Addrs;
    NeighbourSlots(h, i);
  }

  lemma AfterNextSelf(h: State, i: nat)
    requires Inv(h) && i < |h.chunks| && h.chunks[i].used && |h.bins| == NUM_SIZES && Left(h.chunks, i) == i
    requires Right(h.chunks, i) > i ==> 0 <= Slot(h.chunks[i + 1].size) < NUM_SIZES
    ensures var s := AfterNext(h, i);
            && |s.bins| == NUM_SIZES && 0 <= Slot(FreedSize(h, i)) < NUM_SIZES
            && FreedAddrs(h, i) == s.all
            && FreeIndex(h, i).bins == Push(s.bins, Slot(FreedSize(h, i)), h.chunks[i].addr)
  {
    hide Inv, Slot, FreeAddr, Drop, Push, Fuse, Addrs;
    NeighbourSlots(h, i);
  }

  lemma PrevInBin(h: State, i: nat) returns (j: nat)
    requires Inv(h) && i < |h.chunks| && h.chunks[i].used && Left(h.chunks, i) < i && |h.bins| == NUM_SIZES
    requires Right(h.chunks, i) > i ==> 0 <= Slot(h.chunks[i + 1].size) < NUM_SIZES
    ensures 0 <= Slot(h.chunks[i - 1].size) < NUM_SIZES
    ensures var bin := AfterNext(h, i).bins[Slot(h.chunks[i - 1].size)]; j < |bin| && bin[j] == h.chunks[i - 1].addr
  {
    hide Inv, Slot, Drop, Addrs, FreeAddr;
    if Right(h.chunks, i) > i {
      var k, a := Slot(h.chunks[i + 1].size), h.chunks[i + 1].addr;
      var j0 := InBin(h, i + 1);
      assert h.bins[k][j0] in h.bins[k];
      PrevBelow(h, i);
      j := InBinAfterDrop(h, i - 1, k, a);
    } else {
      j := InBin(h, i - 1);
    }
  }

  lemma PrevBelow(h: State, i: nat)
    requires Inv(h) && 0 < i && i + 1 < |h.chunks|
    ensures h.chunks[i - 1].addr < h.chunks[i + 1].addr
  {
    Ascending(h.lo, h.hi, h.chunks, i - 1, i + 1);
  }

  lemma FreeFinish(h: State, i: nat, m: Memory, m': Memory, heads: seq<nat>)
    requires Inv(h) && i < |h.chunks| && h.chunks[i].used && h.hi + CHUNK <= |m|
    requires Holds(m', heads, FreedFinal(h, i)) && Untouched(m, m', FreeGrid(h, i).grid, FreeGrid(h, i).idle)
    ensures var (cs, l, r, h') := (h.chunks, Left(h.chunks, i), Right(h.chunks, i), FreeIndex(h, i));
            && Inv(h') && Holds(m', heads, ShapeOf(h')) && |m'| == |m| && Preserved(h, m, h', m')
            && h'.memUsed == Sub(h.memUsed, cs[i].size)
            && h'.memFree == FreedMemFree(h, i) && h'.memMeta == FreedMemMeta(h, i)
            && h'.lo == h.lo && h'.hi == h.hi
  {
    hide Inv, FreeIndex, Holds, FreedFinal, FreeGrid, Untouched, Preserved, ShapeOf;
    FreeCounters(h, i);
    FreeIndexInv(h, i);
    FreedFinalUnfold(h, i);
    FreeDone(h, i, m, m', heads, FreedFinal(h, i));
  }

  /** What the steps of kfree make of mem_free and mem_meta. */
  ghost function FreedMemFree(h: State, i: nat): u64
    requires i < |h.chunks|
  {
    var cs, l, r := h.chunks, Left(h.chunks, i), Right(h.chunks, i);
    var f := if r > i then Add(Sub(h.memFree, cs[r].size - HEADER), HEADER) else h.memFree;
    if l < i then Add(Add(Sub(f, cs[l].size - HEADER), FreedSize(h, i) - HEADER), HEADER)
    else Add(f, FreedSize(h, i) - HEADER)
  }

  ghost function FreedMemMeta(h: State, i: nat): u64
    requires i < |h.chunks|
  {
    var m := if Right(h.chunks, i) > i then Sub(h.memMeta, HEADER) else h.memMeta;
    if Left(h.chunks, i) < i then Sub(m, HEADER) else m
  }

  /** The counter updates of kfree, one after the other, add up to those of FreeIndex. */
  lemma FreeCounters(h: State, i: nat)
    requires Inv(h) && i < |h.chunks| && h.chunks[i].used
    ensures var h' := FreeIndex(h, i);
            && h'.memUsed == Sub(h.memUsed, h.chunks[i].size)
            && h'.memFree == FreedMemFree(h, i) && h'.memMeta == FreedMemMeta(h, i)
            && h'.lo == h.lo && h'.hi == h.hi
  {
    hide Tiled, Aligned, Coalesced, BinsOK, Slot, Fuse, Detached, Push, Wrap, Left, Right;
    var cs, l, r := h.chunks, Left(h.chunks, i), Right(h.chunks, i);
    var nr := if r > i then cs[r].size - HEADER else 0;
    var nl := if l < i then cs[l].size - HEADER else 0;
    FreeAddsUp(h.memFree, nr, nl, FreedSize(h, i) - HEADER, r > i, l < i);
    MetaAddsUp(h.memMeta, r > i, l < i);
  }

  lemma FreeAddsUp(f: u64, nr: int, nl: int, size: int, right: bool, left: bool)
    ensures var g := if right then Add(Sub(f, nr), HEADER) else f;
            (if left then Add(Add(Sub(g, nl), size), HEADER) else Add(g, size)) ==
            Wrap(f - (if right then nr else 0) - (if left then nl else 0) + size
                 + (if right then HEADER else 0) + (if left then HEADER else 0))
  {
    hide Wrap;
    WrapWithin(f);
    var n := if right then HEADER - nr else 0;
    if right { WrapAdd(f - nr, HEADER); }
    if left {
      WrapAdd(f + n, -nl);
      WrapAdd(f + n - nl, size);
      WrapAdd(f + n - nl + size, HEADER);
    } else {
      WrapAdd(f + n, size);
    }
  }

  lemma MetaAddsUp(x: u64, right: bool, left: bool)
    ensures var g := if right then Sub(x, HEADER) else x;
            (if left then Sub(g, HEADER) else g) ==
            Wrap(x - (if right then HEADER else 0) - (if left then HEADER else 0))
  {
    hide Wrap;
    WrapWithin(x);
    if right && left { WrapAdd(x - HEADER, -HEADER); }
  }

  lemma BlockInMemory(h: State, c: Chunk, a: nat)
    requires Inv(h) && InBlock(h, c, a)
    ensures a < h.hi && Outside(a, ShapeOf(h).grid, ShapeOf(h).idle)
  {
    hide BinsOK, Coalesced, Aligned, Tiled, Outside;
    LiveNotFree(h, c);
    ClientBytesOutside(h, c, a, ShapeOf(h).idle);
    var i :| 0 <= i < |h.chunks| && h.chunks[i] == c;
    Within(h.lo, h.hi, h.chunks, i);
  }

  lemma BlockFits(h: State, c: Chunk, m: Memory)
    requires Inv(h) && LiveBlock(h, c) && h.hi + CHUNK <= |m|
    ensures c.End() <= |m|
  {
    hide BinsOK, Coalesced, Aligned, Tiled;
    var i :| 0 <= i < |h.chunks| && h.chunks[i] == c;
    Within(h.lo, h.hi, h.chunks, i);
  }

  lemma CallocCovers(h: State, nmemb: u64, size: u64)
    requires Inv(h) && Malloc(h, Wrap(nmemb * size)).1 != NULL && Wrap(nmemb * size) <= TWO_64 - ALIGN
    ensures var (h1, p) := Malloc(h, Wrap(nmemb * size));
            && Inv(h1) && Live(h1, p)
            && (nmemb * size <= Capacity(h1, p) <==> nmemb * size < TWO_64)
  {
    hide Inv, Malloc, Capacity, Live, Wrap;
    CallocCoversIff(h, nmemb, size);
    if nmemb * size < TWO_64 { WrapWithin(nmemb * size); }
  }

  lemma RoundedCovers(request: u64)
    requires request <= TWO_64 - ALIGN
    ensures request <= Rounded(request)
  {
  }

  lemma NewBlockIsLive(h: State, h': State, b: Chunk)
    requires forall c: Chunk :: LiveBlock(h', c) <==> LiveBlock(h, c) || c == b
    ensures LiveBlock(h', b)
  {
  }

  lemma BlockAt(h: State, p: nat, m: Memory) returns (c: Chunk)
    requires Inv(h) && Live(h, p) && h.hi + CHUNK <= |m|
    ensures LiveBlock(h, c) && c.Payload() == p && c.size == Capacity(h, p) && c.End() <= |m| && p != NULL
  {
    hide Inv;
    c :| LiveBlock(h, c) && c.Payload() == p && c.size == Capacity(h, p);
    BlockFits(h, c, m);
  }

  /** The shape of the arena after kmalloc's split, if there is one. */
  ghost function CutShape(h: State, n: nat, i: nat, size: nat): Shape
    requires Inv(h) && n < NUM_SIZES && |h.bins| == NUM_SIZES && h.bins[n] != [] && i < |h.chunks|
    requires !h.chunks[i].used && MIN_SIZE <= size <= h.chunks[i].size
  {
    var popped, p, c2 := h.bins[n := h.bins[n][1..]], ShapeOf(h), h.chunks[i].Payload() + size;
    if size + CHUNK <= h.chunks[i].size then
      RestHasSlot(h, i, size);
      var q := SplitGrid(h, n, i, size);
      Shape(q.grid, q.flags[c2 := false], Push(popped, Slot(h.chunks[i].size - size - HEADER), c2), q.grid, q.idle)
    else p.(bins := popped)
  }

  lemma CutWider(h: State, n: nat, i: nat, size: nat)
    requires Inv(h) && n < NUM_SIZES && |h.bins| == NUM_SIZES && h.bins[n] != [] && i < |h.chunks|
    requires !h.chunks[i].used && MIN_SIZE <= size <= h.chunks[i].size && Inv(Allocate(h, n, i, size))
    ensures var p, pd := ShapeOf(h), CutShape(h, n, i, size);
            && p.idle <= pd.idle && (forall a :: a in p.grid ==> a in pd.grid)
            && h.chunks[i].addr in pd.grid
  {
    hide Inv, Addrs, Allocate, FreeAddr;
    AddrOf(h, i);
    if size + CHUNK <= h.chunks[i].size { SplitShape(h, n, i, size); }
  }

  lemma ShapeAll(h: State)
    requires Inv(h)
    ensures ShapeOf(h).all == Addrs(h)
  {
  }

  lemma OldBlockDiffers(h: State, h1: State, c: Chunk, nb: Chunk)
    requires LiveBlock(h, c) && !Live(h, nb.Payload())
             && (forall d: Chunk :: LiveBlock(h1, d) <==> LiveBlock(h, d) || d == nb)
    ensures LiveBlock(h1, c) && c != nb
  {
  }

  /** Writing into the block kmalloc has just added keeps what kmalloc kept. */
  lemma WriteNewPreserves(h: State, m0: Memory, m1: Memory, h1: State, nb: Chunk, m2: Memory)
    requires Inv(h) && Inv(h1) && Preserved(h, m0, h1, m1) && |m2| == |m1| && h1.lo == h.lo && h1.hi == h.hi
    requires !Live(h, nb.Payload()) && (forall d: Chunk :: LiveBlock(h1, d) <==> LiveBlock(h, d) || d == nb)
    requires forall b :: 0 <= b < |m1| && !(nb.Payload() <= b < nb.End()) ==> m2[b] == m1[b]
    ensures Preserved(h, m0, h1, m2)
  {
    hide Inv, LiveBlock, Live;
    NewBlockIsLive(h, h1, nb);
    forall c, b: nat | InBlock(h, c, b) && LiveBlock(h1, c) && b < |m0|
      ensures m2[b] == m0[b]
    {
      OldBlockDiffers(h, h1, c, nb);
      LiveBlocksDisjoint(h1, c, nb);
    }
    BlockBounds(h1, nb);
  }

  lemma BlockBounds(h: State, c: Chunk)
    requires Inv(h) && LiveBlock(h, c)
    ensures h.lo - CHUNK <= c.addr && c.End() <= h.hi + CHUNK
  {
    hide BinsOK, Coalesced, Aligned, Tiled;
    var i :| 0 <= i < |h.chunks| && h.chunks[i] == c;
    Within(h.lo, h.hi, h.chunks, i);
  }

  lemma MovePreserves(h: State, m0: Memory, h1: State, m1: Memory, m2: Memory, h2: State, m3: Memory, c: Chunk,
                      nb: Chunk)
    requires Inv(h) && Inv(h1) && Preserved(h, m0, h1, m1) && h1.lo == h.lo && h1.hi == h.hi
    requires LiveBlock(h, c) && !Live(h, nb.Payload())
             && (forall d: Chunk :: LiveBlock(h1, d) <==> LiveBlock(h, d) || d == nb)
    requires c.size <= nb.size && c.End() <= |m1| && nb.End() <= |m1|
    requires Copied(m1, m2, nb.Payload(), c.Payload(), c.size)
    requires Preserved(h1, m2, h2, m3)
    requires forall d: Chunk :: LiveBlock(h2, d) <==> LiveBlock(h1, d) && d.Payload() != c.Payload()
    ensures Preserved(h, m0, h2, m3)
    ensures SameBytes(m0, c.Payload(), m3, nb.Payload(), c.size)
  {
    hide Inv, LiveBlock, Live;
    WriteNewPreserves(h, m0, m1, h1, nb, m2);
    OldBlockDiffers(h, h1, c, nb);
    NewBlockIsLive(h, h1, nb);
    LiveBlocksDisjoint(h1, c, nb);
    forall d, b: nat | InBlock(h, d, b) && LiveBlock(h2, d) && b < |m0|
      ensures m3[b] == m0[b]
    {
      assert InBlock(h1, d, b);
    }
    forall b | nb.Payload() <= b < nb.Payload() + c.size
      ensures m3[b] == m0[c.Payload() + (b - nb.Payload())]
    {
      assert InBlock(h1, nb, b) && LiveBlock(h2, nb);
      assert InBlock(h, c, c.Payload() + (b - nb.Payload()));
    }
    SameByBytes(m0, c.Payload(), m3, nb.Payload(), c.size);
  }
}
