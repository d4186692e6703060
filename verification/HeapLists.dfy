/**
 The list helpers of kernel/mem/heap.c (lines 15-143) and the free_chunk array, acting in
 place on the memory.
 */
module HeapLists {
  import opened Common
  import opened Machine
  import opened HeapSpec
  import opened FlatMemory
  import opened HeapLayout

  /** The address of a dlist or heap_chunk that is not there. */
  const NULL := 0

  /** `mem` is the address space, `freeChunk` the array free_chunk. */
  class Arena {
    var mem: Memory
    const freeChunk: array<nat>

    constructor (space: Memory)
      ensures mem == space && fresh(freeChunk) && freeChunk.Length == NUM_SIZES
      ensures forall k :: 0 <= k < NUM_SIZES ==> freeChunk[k] == NULL
    {
      mem := space;
      freeChunk := new nat[NUM_SIZES](_ => NULL);
    }

    // ---- dlist ----

    method DlistInit(d: nat)
      requires d + NODE <= |mem| <= TWO_64
      modifies this`mem
      ensures Ring(mem, [d]) && SameOutside(old(mem), mem, [d])
    {
      SelfLinked(mem, d);
      mem := Store(mem, d, 8, d);
      mem := Store(mem, d + 8, 8, d);
    }

    /** d1 is element i of the ring s, and d2 a ring of its own. */
    method DlistInsertAfter(d1: nat, d2: nat, ghost s: seq<nat>, ghost i: nat)
      requires Ring(mem, s) && i < |s| && s[i] == d1 && Ring(mem, [d2])
      requires forall j :: 0 <= j < |s| ==> Distinct(s[j], d2)
      modifies this`mem
      ensures Ring(mem, InsertAt(s, i + 1, d2)) && SameOutside(old(mem), mem, s + [d2])
    {
      hide Load, Store, Ring, InsertAt, SameOutside;
      LoneFields(mem, d2);
      RingInsert(mem, s, i + 1, d2);
      RingFields(mem, s, i);
      var n1 := Next(mem, d1);
      var e2 := Prev(mem, d2);
      mem := Store(mem, d1, 8, d2);
      mem := Store(mem, d2 + 8, 8, d1);
      mem := Store(mem, e2, 8, n1);
      mem := Store(mem, n1 + 8, 8, e2);
    }

    method DlistInsertBefore(d1: nat, d2: nat, ghost s: seq<nat>, ghost i: nat)
      requires Ring(mem, s) && i < |s| && s[i] == d1 && Ring(mem, [d2])
      requires forall j :: 0 <= j < |s| ==> Distinct(s[j], d2)
      modifies this`mem
      ensures Ring(mem, InsertAt(s, i, d2)) && SameOutside(old(mem), mem, s + [d2])
    {
      hide Load, Store, Ring, InsertAt, SameOutside;
      LoneFields(mem, d2);
      RingInsert(mem, s, i, d2);
      RingFields(mem, s, i);
      var e1 := Prev(mem, d1);
      var e2 := Prev(mem, d2);
      mem := Store(mem, e1, 8, d2);
      mem := Store(mem, d2 + 8, 8, e1);
      mem := Store(mem, e2, 8, d1);
      mem := Store(mem, d1 + 8, 8, e2);
    }

    /** d is element j of the ring s. */
    method DlistRemove(d: nat, ghost s: seq<nat>, ghost j: nat)
      requires Ring(mem, s) && j < |s| && s[j] == d
      modifies this`mem
      ensures Ring(mem, [d]) && SameOutside(old(mem), mem, s)
      ensures |s| > 1 ==> Ring(mem, RemoveAt(s, j))
    {
      hide Load, Store, Ring, RemoveAt, SameOutside;
      RingRemove(mem, s, j);
      RingFields(mem, s, j);
      ghost var e, n := Prev(mem, d), Next(mem, d);
      UnlinkReads(mem, s, j);
      mem := Store(mem, Prev(mem, d), 8, Next(mem, d));
      mem := Store(mem, Next(mem, d) + 8, 8, Prev(mem, d));
      mem := Store(mem, d, 8, d);
      mem := Store(mem, d + 8, 8, d);
    }

    /** Makes d2 the first element of the list whose first element is `first`. */
    method DlistPush(first: nat, d2: nat, ghost s: seq<nat>) returns (first': nat)
      requires Ring(mem, [d2]) && (forall j :: 0 <= j < |s| ==> Distinct(s[j], d2))
      requires if s == [] then first == NULL else first == s[0] && first != NULL && Ring(mem, s)
      modifies this`mem
      ensures first' == d2 && Ring(mem, [d2] + s) && SameOutside(old(mem), mem, s + [d2])
    {
      if first != NULL {
        DlistInsertBefore(first, d2, s, 0);
        assert InsertAt(s, 0, d2) == [d2] + s;
      } else {
        assert [d2] + s == [d2];
      }
      first' := d2;
    }

    method DlistPop(first: nat, ghost s: seq<nat>) returns (first': nat, d1: nat)
      requires Ring(mem, s) && first == s[0]
      modifies this`mem
      ensures d1 == first && Ring(mem, [d1]) && SameOutside(old(mem), mem, s)
      ensures if |s| == 1 then first' == NULL else first' == s[1] && Ring(mem, s[1..])
    {
      d1 := first;
      RingFields(mem, s, 0);
      var d2 := Next(mem, d1);
      DlistRemove(d1, s, 0);
      if d1 == d2 {
        first' := NULL;
      } else {
        first' := d2;
      }
      SecondDiffers(s);
      if |s| > 1 { assert RemoveAt(s, 0) == s[1..]; }
    }

    method DlistRemoveFrom(first: nat, d2: nat, ghost s: seq<nat>, ghost j: nat) returns (first': nat)
      requires Ring(mem, s) && first == s[0] && j < |s| && s[j] == d2
      modifies this`mem
      ensures Ring(mem, [d2]) && SameOutside(old(mem), mem, s)
      ensures if |s| == 1 then first' == NULL else first' == RemoveAt(s, j)[0] && Ring(mem, RemoveAt(s, j))
    {
      SameElement(s, 0, j);
      if first == d2 {
        var d1;
        first', d1 := DlistPop(first, s);
        if |s| > 1 { assert RemoveAt(s, 0) == s[1..]; }
      } else {
        DlistRemove(d2, s, j);
        first' := first;
      }
    }

    // ---- the DLIST macros on chunks, and heap_chunk_init ----

    ghost predicate Shaped(p: Shape)
      reads this`mem, freeChunk
    {
      freeChunk.Length == NUM_SIZES && Holds(mem, freeChunk[..], p)
    }

    /** heap_chunk_init */
    method HeapChunkInit(c: nat, ghost p: Shape)
      requires Shaped(p) && c in p.grid && c in p.idle && OffList(p, c)
      modifies this`mem
      ensures Shaped(p.(flags := p.flags[c := false])) && Untouched(old(mem), mem, p.grid, p.idle)
      ensures Ring(mem, [c]) && Ring(mem, [c + HEADER])
      ensures LonesKept(old(mem), mem, p.grid, [c])
    {
      hide Load, Ring, WellPlaced, BinsAt, FlagsAt, SameOutside, Untouched, Grid;
      InMem(mem, p.grid, c);
      ghost var m0 := mem;
      DlistInit(c);
      LoneUpdated(m0, mem, freeChunk[..], p, c, c);
      FlagUpdated(mem, freeChunk[..], p, c, false);
      LoneByFlag(mem, p, c, false);
      ghost var m1 := mem;
      mem := Store(mem, c + USED, 4, 0);
      UntouchedTrans(m0, m1, mem, p.grid, p.idle);
      ghost var q, m2 := p.(flags := p.flags[c := false]), mem;
      DlistInit(c + HEADER);
      LoneUpdated(m2, mem, freeChunk[..], q, c, c + HEADER);
      LoneKept(m2, mem, c, c + HEADER);
      UntouchedTrans(m0, m2, mem, p.grid, p.idle);
      LonesKeptByInit(m0, m1, m2, mem, p, c);
    }

    /** heap_chunk_init of the first chunk of an arena without lists; its `all` ring becomes the `all` list. */
    method HeapChunkInitFirst(c: nat, ghost grid: seq<nat>, ghost idle: set<nat>)
      requires freeChunk.Length == NUM_SIZES && forall k :: 0 <= k < NUM_SIZES ==> freeChunk[k] == NULL
      requires Grid(grid) && Fits(mem, grid) && c in grid && c in idle
      modifies this`mem
      ensures Shaped(Shape([c], map[c := false], NoBins(), grid, idle))
      ensures Untouched(old(mem), mem, grid, idle)
    {
      hide Load, Ring, BinsAt, FlagsAt, SameOutside, Untouched, Grid;
      InMem(mem, grid, c);
      ghost var m0 := mem;
      DlistInit(c);
      ghost var p := Shape([c], map[], NoBins(), grid, idle);
      FirstShape(m0, mem, freeChunk[..], p, c);
      AllTouched(m0, mem, p, [c]);
      FlagUpdated(mem, freeChunk[..], p, c, false);
      ghost var m1 := mem;
      mem := Store(mem, c + USED, 4, 0);
      UntouchedTrans(m0, m1, mem, p.grid, p.idle);
      ghost var q, m2 := p.(flags := p.flags[c := false]), mem;
      DlistInit(c + HEADER);
      assert Nodes([c]) == [c + HEADER];
      NoBinUpdate(freeChunk[..], q);
      BinUpdated(m2, mem, freeChunk[..], freeChunk[..], q, 0, [], [c]);
      UntouchedTrans(m0, m2, mem, p.grid, p.idle);
    }

    /** The chunk set-up of mrvn_heap_init: head, first and tail initialised, linked, and the sentinels marked used. */
    method InitChunks(head: nat, first: nat, tail: nat, ghost idle: set<nat>)
      requires freeChunk.Length == NUM_SIZES && forall k :: 0 <= k < NUM_SIZES ==> freeChunk[k] == NULL
      requires Grid([head, first, tail]) && Fits(mem, [head, first, tail]) && idle == {head, first, tail}
      modifies this`mem
      ensures Shaped(Shape([head, first, tail], map[head := true, first := false, tail := true], NoBins(),
                           [head, first, tail], idle))
      ensures Untouched(old(mem), mem, [head, first, tail], idle) && Ring(mem, [first + HEADER])
    {
      hide Ring, Untouched, BinsAt, FlagsAt, Fits, Scattered, Load, LonesKept;
      ghost var m, grid := mem, [head, first, tail];
      assert grid[0] == head && grid[1] == first && grid[2] == tail;
      assert head < first < tail;
      HeapChunkInitFirst(head, grid, idle);
      ghost var p0, m0 := Shape([head], map[head := false], NoBins(), grid, idle), mem;
      HeapChunkInit(first, p0);
      ghost var p1, m1 := p0.(flags := p0.flags[first := false]), mem;
      HeapChunkInit(tail, p1);
      ghost var p2, m2 := p1.(flags := p1.flags[tail := false]), mem;
      LonesStep(m1, m2, grid, [tail], first);
      DlistInsertFirstTwo(head, first, tail, p2);
      ghost var m4 := mem;
      MarkEnds(head, first, tail, p2.(all := grid));
      UntouchedTrans(m, m0, m1, grid, idle);
      UntouchedTrans(m, m1, m2, grid, idle);
      UntouchedTrans(m, m2, m4, grid, idle);
      UntouchedTrans(m, m4, mem, grid, idle);
    }

    /** The sentinels marked used, so that they are never merged. */
    method MarkEnds(head: nat, first: nat, tail: nat, ghost p: Shape)
      requires Shaped(p) && p.flags == map[head := false, first := false, tail := false]
               && p.grid == [head, first, tail]
      requires head < first < tail && head in p.idle && tail in p.idle && Ring(mem, [first + HEADER])
      modifies this`mem
      ensures Shaped(p.(flags := map[head := true, first := false, tail := true]))
      ensures Untouched(old(mem), mem, p.grid, p.idle) && Ring(mem, [first + HEADER])
    {
      hide Ring, Untouched, Holds, Load;
      ghost var m := mem;
      assert p.grid[0] == head && p.grid[1] == first && p.grid[2] == tail;
      assert first in p.grid;
      SetUsedFlag(head, true, p);
      ghost var q, m' := p.(flags := p.flags[head := true]), mem;
      assert first in q.grid;
      SetUsedFlag(tail, true, q);
      assert q.flags[tail := true] == map[head := true, first := false, tail := true];
      UntouchedTrans(m, m', mem, p.grid, p.idle);
    }

    method DlistInsertFirstTwo(head: nat, first: nat, tail: nat, ghost p: Shape)
      requires Shaped(p) && p.all == [head] && p.grid == [head, first, tail]
      requires Ring(mem, [first]) && Ring(mem, [tail]) && Ring(mem, [first + HEADER])
      modifies this`mem
      ensures Shaped(p.(all := [head, first, tail])) && Untouched(old(mem), mem, p.grid, p.idle)
      ensures Ring(mem, [first + HEADER])
    {
      hide Ring, Untouched, BinsAt, FlagsAt, Fits, Scattered, Load, LonesKept;
      ghost var m := mem;
      assert p.grid[0] == head && p.grid[1] == first && p.grid[2] == tail;
      InsertChunkAfter(head, first, p, 0);
      ghost var q, m' := p.(all := InsertAt(p.all, 1, first)), mem;
      assert InsertAt(p.all, 1, first) == [head, first];
      LonesStep(m, m', p.grid, p.all + [first], tail);
      InsertChunkAfter(first, tail, q, 1);
      assert InsertAt(q.all, 2, tail) == [head, first, tail];
      UntouchedTrans(m, m', mem, p.grid, p.idle);
    }

    /** DLIST_PUSH(&free_chunk[n], v, free) */
    method PushFree(n: nat, v: nat, ghost p: Shape)
      requires Shaped(p) && n < NUM_SIZES && v in p.grid && v in p.idle && Ring(mem, [v + HEADER])
      requires forall k :: 0 <= k < |p.bins| ==> v !in p.bins[k]
      modifies this`mem, freeChunk
      ensures Shaped(p.(bins := Push(p.bins, n, v))) && Untouched(old(mem), mem, p.grid, p.idle)
    {
      hide Load, Ring, FlagsAt, SameOutside, Untouched, Grid, Scattered, Fits;
      ghost var bin, m0, heads0 := p.bins[n], mem, freeChunk[..];
      InMem(mem, p.grid, v);
      BinHead(mem, freeChunk[n], bin, p.grid);
      NodesDistinct(p.grid, bin, v);
      var first := if freeChunk[n] == NULL then NULL else freeChunk[n] + HEADER;
      first := DlistPush(first, v + HEADER, Nodes(bin));
      freeChunk[n] := first - HEADER;
      assert freeChunk[..] == heads0[n := freeChunk[n]];
      assert Nodes([v] + bin) == [v + HEADER] + Nodes(bin);
      assert Nodes(bin + [v]) == Nodes(bin) + [v + HEADER];
      PushNoDup(p, n, v);
      BinUpdated(m0, mem, heads0, freeChunk[..], p, n, [v] + bin, bin + [v]);
    }

    /** DLIST_INIT(c, free) */
    method InitFreeNode(c: nat, ghost p: Shape)
      requires Shaped(p) && c in p.grid && c in p.idle && forall k :: 0 <= k < |p.bins| ==> c !in p.bins[k]
      modifies this`mem
      ensures Shaped(p) && Untouched(old(mem), mem, p.grid, p.idle) && Ring(mem, [c + HEADER])
    {
      hide Load, Ring, WellPlaced, BinsAt, FlagsAt, SameOutside, Untouched, Grid;
      InMem(mem, p.grid, c);
      ghost var m0 := mem;
      DlistInit(c + HEADER);
      LoneUpdated(m0, mem, freeChunk[..], p, c, c + HEADER);
    }

    method IsUsed(c: nat, ghost p: Shape) returns (used: bool)
      requires Shaped(p) && c in p.flags
      ensures used == p.flags[c]
    {
      hide Load, Ring, WellPlaced, BinsAt, Grid;
      used := Load(mem, c + USED, 4) != 0;
    }

    /** DLIST_REMOVE_FROM(&free_chunk[n], v, free); v is element j of the list. */
    method RemoveFree(n: nat, v: nat, ghost p: Shape, ghost j: nat)
      requires Shaped(p) && n < NUM_SIZES && j < |p.bins[n]| && p.bins[n][j] == v
      modifies this`mem, freeChunk
      ensures Shaped(p.(bins := Drop(p.bins, n, v))) && Untouched(old(mem), mem, p.grid, p.idle)
      ensures Ring(mem, [v + HEADER]) && forall k :: 0 <= k < |p.bins| ==> v !in Drop(p.bins, n, v)[k]
    {
      hide Load, Ring, FlagsAt, SameOutside, Untouched, Grid, Scattered, Fits;
      ghost var bin, m0, heads0 := p.bins[n], mem, freeChunk[..];
      BinHead(mem, freeChunk[n], bin, p.grid);
      var first := DlistRemoveFrom(freeChunk[n] + HEADER, v + HEADER, Nodes(bin), j);
      DropNoDup(p, n, j);
      NodesRemoveAt(bin, j);
      freeChunk[n] := if first == NULL then NULL else first - HEADER;
      assert freeChunk[..] == heads0[n := freeChunk[n]];
      BinUpdated(m0, mem, heads0, freeChunk[..], p, n, Without(bin, v), bin);
    }

    /** DLIST_POP(&free_chunk[n], free) */
    method PopFree(n: nat, ghost p: Shape) returns (v: nat)
      requires Shaped(p) && n < NUM_SIZES && p.bins[n] != []
      modifies this`mem, freeChunk
      ensures v == p.bins[n][0]
      ensures Shaped(p.(bins := p.bins[n := p.bins[n][1..]])) && Untouched(old(mem), mem, p.grid, p.idle)
    {
      hide Load, Ring, FlagsAt, SameOutside, Untouched, Grid, Scattered, Fits;
      ghost var bin, m0, heads0 := p.bins[n], mem, freeChunk[..];
      BinHead(mem, freeChunk[n], bin, p.grid);
      var first, res := DlistPop(freeChunk[n] + HEADER, Nodes(bin));
      DropNoDup(p, n, 0);
      NodesTail(bin);
      freeChunk[n] := if first == NULL then NULL else first - HEADER;
      assert freeChunk[..] == heads0[n := freeChunk[n]];
      v := res - HEADER;
      BinUpdated(m0, mem, heads0, freeChunk[..], p, n, bin[1..], bin);
    }

    /** dlist_insert_after on the `all` fields; c1 is element i of the list. */
    method InsertChunkAfter(c1: nat, c2: nat, ghost p: Shape, ghost i: nat)
      requires Shaped(p) && i < |p.all| && p.all[i] == c1
      requires c2 in p.grid && c2 !in p.all && Ring(mem, [c2])
      modifies this`mem
      ensures Shaped(p.(all := InsertAt(p.all, i + 1, c2))) && Untouched(old(mem), mem, p.grid, p.idle)
      ensures forall d :: d in p.grid && Ring(old(mem), [d + HEADER]) ==> Ring(mem, [d + HEADER])
      ensures LonesKept(old(mem), mem, p.grid, p.all + [c2])
    {
      hide Load, Ring, FlagsAt, Untouched, Grid, Scattered, BinsAt, Fits;
      ghost var m0 := mem;
      AllDistinct(p.grid, p.all, c2);
      DlistInsertAfter(c1, c2, p.all, i);
      AllUpdated(m0, mem, freeChunk[..], p, InsertAt(p.all, i + 1, c2), p.all + [c2]);
      LoneNodesKept(m0, mem, p.grid, p.all + [c2]);
      LonesKeptByAll(m0, mem, p.grid, p.all + [c2]);
    }

    /** dlist_remove on the `all` field of the chunk v, element j of the list. */
    method RemoveChunk(v: nat, ghost p: Shape, ghost j: nat)
      requires Shaped(p) && j < |p.all| && p.all[j] == v && |p.all| > 1
      modifies this`mem
      ensures Shaped(p.(all := RemoveAt(p.all, j))) && Untouched(old(mem), mem, p.grid, p.idle)
      ensures forall d :: d in p.grid && Ring(old(mem), [d + HEADER]) ==> Ring(mem, [d + HEADER])
    {
      hide Load, Ring, FlagsAt, Untouched, Grid, Scattered, BinsAt, Fits;
      ghost var m0 := mem;
      DlistRemove(v, p.all, j);
      AllUpdated(m0, mem, freeChunk[..], p, RemoveAt(p.all, j), p.all);
      LoneNodesKept(m0, mem, p.grid, p.all);
    }

    method SetUsedFlag(v: nat, used: bool, ghost p: Shape)
      requires Shaped(p) && v in p.grid
      modifies this`mem
      ensures Shaped(p.(flags := p.flags[v := used])) && Untouched(old(mem), mem, p.grid, p.idle)
      ensures forall d :: d in p.grid && Ring(old(mem), [d + HEADER]) ==> Ring(mem, [d + HEADER])
    {
      hide Load, Ring, FlagsAt, SameOutside, Untouched, Grid, Scattered, BinsAt;
      InMem(mem, p.grid, v);
      FlagUpdated(mem, freeChunk[..], p, v, used);
      ghost var m0 := mem;
      forall d | d in p.grid && Ring(m0, [d + HEADER])
        ensures Ring(Store(m0, v + USED, 4, if used then 1 else 0), [d + HEADER])
      {
        InMem(m0, p.grid, d);
      }
      mem := Store(mem, v + USED, 4, if used then 1 else 0);
    }

    /** heap_chunk_size of element i of the `all` list, which is not the last. */
    method HeapChunkSize(c: nat, ghost p: Shape, ghost i: nat) returns (size: nat)
      requires Shaped(p) && i + 1 < |p.all| && p.all[i] == c && c + HEADER <= p.all[i + 1]
      ensures size == p.all[i + 1] - c - HEADER
    {
      RingFields(mem, p.all, i);
      size := Next(mem, c) - c - HEADER;
    }
  }

  function NoBins(): (bins: seq<seq<nat>>)
    ensures |bins| == NUM_SIZES && forall k :: 0 <= k < NUM_SIZES ==> bins[k] == []
  {
    seq(NUM_SIZES, _ => [])
  }

  lemma FirstShape(m0: Memory, m: Memory, heads: seq<nat>, p: Shape, c: nat)
    requires p.all == [c] && p.flags == map[] && p.bins == NoBins() && Grid(p.grid) && Fits(m0, p.grid) && c in p.grid
    requires |heads| == NUM_SIZES && (forall k :: 0 <= k < NUM_SIZES ==> heads[k] == NULL)
    requires Ring(m, [c]) && SameOutside(m0, m, [c])
    ensures Holds(m, heads, p) && On(p.grid, [c])
  {
    FitsSame(m0, m, p.grid);
  }

  lemma NoBinUpdate(heads: seq<nat>, p: Shape)
    requires p.bins == NoBins()
    ensures p.(bins := p.bins[0 := []]) == p
  {
    assert p.bins[0 := []] == p.bins;
  }

  lemma InMem(m: Memory, grid: seq<nat>, c: nat)
    requires Fits(m, grid) && c in grid
    ensures 0 < c && c + CHUNK <= |m| <= TWO_64
  {
  }

  lemma UntouchedTrans(m0: Memory, m1: Memory, m2: Memory, grid: seq<nat>, idle: set<nat>)
    requires Untouched(m0, m1, grid, idle) && Untouched(m1, m2, grid, idle)
    ensures Untouched(m0, m2, grid, idle)
  {
    hide Outside;
  }

  /** Lone nodes of chunks not in `touched` stay lone. */
  ghost predicate LonesKept(m: Memory, m': Memory, grid: seq<nat>, touched: seq<nat>) {
    forall d :: d in grid && d !in touched ==>
                  && (Ring(m, [d]) ==> Ring(m', [d]))
                  && (Ring(m, [d + HEADER]) ==> Ring(m', [d + HEADER]))
  }

  lemma LonesKeptByInit(m0: Memory, m1: Memory, m2: Memory, m3: Memory, p: Shape, c: nat)
    requires WellPlaced(p) && Fits(m0, p.grid) && c in p.grid && SameOutside(m0, m1, [c])
    requires c + CHUNK <= |m1| && m2 == Store(m1, c + USED, 4, 0) && SameOutside(m2, m3, [c + HEADER])
    ensures LonesKept(m0, m3, p.grid, [c])
  {
    hide Store, Load;
    forall d, x | d in p.grid && d !in [c] && (x == d || x == d + HEADER) && Ring(m0, [x])
      ensures Ring(m3, [x])
    {
      GridApart(p.grid, d, c);
      assert [c + HEADER][0] == c + HEADER && [c][0] == c && [x][0] == x;
      forall b | x <= b < x + NODE
        ensures m3[b] == m0[b]
      {
      }
      RingSame(m0, m3, [x]);
    }
  }

  lemma LonesStep(m: Memory, m': Memory, grid: seq<nat>, touched: seq<nat>, c: nat)
    requires LonesKept(m, m', grid, touched) && c in grid && c !in touched
    ensures (Ring(m, [c]) ==> Ring(m', [c])) && (Ring(m, [c + HEADER]) ==> Ring(m', [c + HEADER]))
  {
  }

  lemma LonesKeptByAll(m: Memory, m': Memory, grid: seq<nat>, touched: seq<nat>)
    requires Grid(grid) && On(grid, touched) && SameOutside(m, m', touched)
    ensures LonesKept(m, m', grid, touched)
  {
    forall d, x | d in grid && d !in touched && (x == d || x == d + HEADER) && Ring(m, [x])
      ensures Ring(m', [x])
    {
      forall i, j | 0 <= i < |[x]| && 0 <= j < |touched|
        ensures Distinct([x][i], touched[j])
      {
        GridApart(grid, d, touched[j]);
      }
      RingKept(m, m', touched, [x]);
    }
  }

  lemma LoneKept(m: Memory, m': Memory, c: nat, x: nat)
    requires Ring(m, [c]) && SameOutside(m, m', [x]) && Distinct(c, x)
    ensures Ring(m', [c])
  {
    assert [c][0] == c && [x][0] == x;
    RingKept(m, m', [x], [c]);
  }

  lemma LoneByFlag(m: Memory, p: Shape, c: nat, used: bool)
    requires WellPlaced(p) && c in p.grid && c + CHUNK <= |m| && Ring(m, [c])
    ensures Ring(Store(m, c + USED, 4, if used then 1 else 0), [c])
  {
    RingKeptByFlag(p.grid, m, c, used, [c]);
  }

  /** What the free_chunk entry of a bin is. */
  lemma BinHead(m: Memory, first: nat, bin: seq<nat>, grid: seq<nat>)
    requires BinAt(m, first, bin) && On(grid, bin) && Fits(m, grid)
    ensures bin == [] <==> first == NULL
    ensures bin != [] ==> first == bin[0] && Ring(m, Nodes(bin)) && Nodes(bin)[0] == first + HEADER
  {
    if bin != [] { InMem(m, grid, bin[0]); }
  }

  lemma NodesDistinct(grid: seq<nat>, bin: seq<nat>, v: nat)
    requires Grid(grid) && On(grid, bin) && v in grid && v !in bin
    ensures forall j :: 0 <= j < |bin| ==> Distinct(Nodes(bin)[j], v + HEADER)
  {
    forall j | 0 <= j < |bin|
      ensures Distinct(Nodes(bin)[j], v + HEADER)
    {
      GridApart(grid, bin[j], v);
    }
  }

  lemma AllDistinct(grid: seq<nat>, all: seq<nat>, c: nat)
    requires Grid(grid) && On(grid, all) && c in grid && c !in all
    ensures forall j :: 0 <= j < |all| ==> Distinct(all[j], c)
  {
    forall j | 0 <= j < |all|
      ensures Distinct(all[j], c)
    {
      GridApart(grid, all[j], c);
    }
  }

  lemma PushNoDup(p: Shape, n: nat, v: nat)
    requires WellPlaced(p) && n < NUM_SIZES && v in p.grid && v in p.idle
    requires forall k :: 0 <= k < |p.bins| ==> v !in p.bins[k]
    ensures var touched := p.bins[n] + [v];
            && NoDup([v] + p.bins[n]) && On(p.grid, touched)
            && (forall i :: 0 <= i < |touched| ==> touched[i] in p.idle)
            && (forall k, i :: 0 <= k < NUM_SIZES && k != n && 0 <= i < |p.bins[k]| ==> p.bins[k][i] !in touched)
            && (forall i :: 0 <= i < |[v] + p.bins[n]| ==> ([v] + p.bins[n])[i] in touched)
  {
    forall k, i | 0 <= k < NUM_SIZES && k != n && 0 <= i < |p.bins[k]|
      ensures p.bins[k][i] !in p.bins[n] + [v]
    {
      assert p.bins[k][i] in p.bins[k];
    }
  }

  lemma DropNoDup(p: Shape, n: nat, j: nat)
    requires WellPlaced(p) && n < NUM_SIZES && j < |p.bins[n]|
    ensures var bin := p.bins[n];
            && (forall k :: 0 <= k < NUM_SIZES ==> bin[j] !in Drop(p.bins, n, bin[j])[k])
            && Without(bin, bin[j]) == RemoveAt(bin, j) && NoDup(RemoveAt(bin, j))
            && (j == 0 ==> RemoveAt(bin, j) == bin[1..])
            && (forall i :: 0 <= i < |RemoveAt(bin, j)| ==> RemoveAt(bin, j)[i] in bin)
            && (forall k, i :: 0 <= k < NUM_SIZES && k != n && 0 <= i < |p.bins[k]| ==> p.bins[k][i] !in bin)
  {
    WithoutAt(p.bins[n], j);
    assert p.bins[n][j] in p.bins[n];
    WithoutMembers(p.bins[n], p.bins[n][j]);
    forall k, i | 0 <= k < NUM_SIZES && k != n && 0 <= i < |p.bins[k]|
      ensures p.bins[k][i] !in p.bins[n]
    {
      assert p.bins[k][i] in p.bins[k];
    }
  }

  lemma NodesTail(bin: seq<nat>)
    requires bin != []
    ensures Nodes(bin)[1..] == Nodes(bin[1..])
  {
  }

  lemma NodesRemoveAt(bin: seq<nat>, j: nat)
    requires j < |bin|
    ensures Nodes(RemoveAt(bin, j)) == RemoveAt(Nodes(bin), j)
  {
  }

  lemma LoneNodesKept(m: Memory, m': Memory, grid: seq<nat>, touched: seq<nat>)
    requires Grid(grid) && On(grid, touched) && SameOutside(m, m', touched)
    ensures forall d :: d in grid && Ring(m, [d + HEADER]) ==> Ring(m', [d + HEADER])
  {
    forall d | d in grid && Ring(m, [d + HEADER])
      ensures Ring(m', [d + HEADER])
    {
      assert Nodes([d]) == [d + HEADER];
      BinKeptByAll(grid, m, m', touched, [d]);
    }
  }

  lemma LoneFields(m: Memory, d: nat)
    requires Ring(m, [d])
    ensures d + NODE <= |m| && Next(m, d) == d && Prev(m, d) == d
  {
    assert [d][0] == d;
  }

  lemma RingFields(m: Memory, s: seq<nat>, i: nat)
    requires Ring(m, s) && i < |s|
    ensures s[i] + NODE <= |m| && s[IndexAfter(i, |s|)] + NODE <= |m| && s[IndexBefore(i, |s|)] + NODE <= |m|
    ensures Next(m, s[i]) == s[IndexAfter(i, |s|)] && Prev(m, s[i]) == s[IndexBefore(i, |s|)]
  {
  }

  lemma SameElement(s: seq<nat>, i: nat, j: nat)
    requires Spaced(s) && i < |s| && j < |s|
    ensures s[i] == s[j] <==> i == j
  {
  }

  lemma SecondDiffers(s: seq<nat>)
    requires Spaced(s) && s != []
    ensures s[IndexAfter(0, |s|)] == s[0] <==> |s| == 1
  {
    SameElement(s, 0, IndexAfter(0, |s|));
  }

  /** dlist_remove reads the links of d again after its first store; they are still the same. */
  lemma UnlinkReads(m: Memory, s: seq<nat>, j: nat)
    requires Ring(m, s) && j < |s|
    ensures var (e, d, n) := (s[IndexBefore(j, |s|)], s[j], s[IndexAfter(j, |s|)]);
            && e + NODE <= |m| && d + NODE <= |m|
            && var m1 := Store(m, e, 8, n);
            Next(m1, d) == n && Prev(m1, d) == e
  {
    RingFields(m, s, j);
    UnlinkedOk(s, j);
    hide Load, Store, Ring;
    var e, d, n := s[IndexBefore(j, |s|)], s[j], s[IndexAfter(j, |s|)];
    assert |m| <= TWO_64;
    StorePointer(m, e, n);
  }
}
