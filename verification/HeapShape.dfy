/** The memory shape of a heap state, and which bytes belong to its clients. */
module HeapShape {
  import opened Common
  import opened Machine
  import opened HeapSpec
  import opened HeapOps
  import opened FlatMemory
  import opened HeapLayout

  /** The `all` list: head, the chunks in address order, tail. */
  function AddrList(head: nat, tail: nat, cs: seq<Chunk>): (s: seq<nat>)
    ensures |s| == |cs| + 2 && s[0] == head && s[|cs| + 1] == tail
    ensures forall i {:trigger s[i]} :: 1 <= i <= |cs| ==> s[i] == cs[i - 1].addr
  {
    [head] + seq(|cs|, i requires 0 <= i < |cs| => cs[i].addr) + [tail]
  }

  function Addrs(h: State): (s: seq<nat>)
    requires h.lo >= CHUNK
    ensures |s| == |h.chunks| + 2 && s[0] == h.lo - CHUNK && s[|h.chunks| + 1] == h.hi
    ensures forall i {:trigger s[i]} :: 1 <= i <= |h.chunks| ==> s[i] == h.chunks[i - 1].addr
  {
    AddrList(h.lo - CHUNK, h.hi, h.chunks)
  }

  ghost predicate FreeAddr(cs: seq<Chunk>, a: nat) {
    exists i :: 0 <= i < |cs| && cs[i].addr == a && !cs[i].used
  }

  ghost function ShapeOf(h: State): Shape
    requires h.lo >= CHUNK
  {
    Shape(Addrs(h),
          map a | a in Addrs(h) :: !FreeAddr(h.chunks, a),
          h.bins,
          Addrs(h),
          set a | a in Addrs(h) && FreeAddr(h.chunks, a))
  }

  lemma AddrsGrid(h: State)
    requires Inv(h)
    ensures Grid(Addrs(h))
  {
    hide BinsOK, Coalesced, Aligned;
    var s := Addrs(h);
    forall i, j | 0 <= i < j < |s|
      ensures s[i] + CHUNK <= s[j]
    {
      if 0 < i { Within(h.lo, h.hi, h.chunks, i - 1); }
      if 0 < j <= |h.chunks| { Within(h.lo, h.hi, h.chunks, j - 1); }
      if 0 < i && j <= |h.chunks| { Ascending(h.lo, h.hi, h.chunks, i - 1, j - 1); }
    }
  }

  lemma AddrsFit(h: State, m: Memory)
    requires Inv(h) && h.hi + CHUNK <= |m| <= TWO_64
    ensures Fits(m, Addrs(h))
  {
    hide BinsOK, Coalesced, Aligned, Tiled;
    forall i | 0 <= i < |Addrs(h)|
      ensures 0 < Addrs(h)[i] && Addrs(h)[i] + CHUNK <= |m|
    {
      if 1 <= i <= |h.chunks| { Within(h.lo, h.hi, h.chunks, i - 1); }
    }
  }

  lemma BinFree(h: State, k: nat, a: nat)
    requires Inv(h) && k < NUM_SIZES && a in h.bins[k]
    ensures FreeAddr(h.chunks, a) && a in Addrs(h)
    ensures forall j :: 0 <= j < NUM_SIZES && a in h.bins[j] ==> j == k
  {
    hide Coalesced, Aligned, Tiled, Slot;
    var i := BinIndex(h, k, a);
    assert Addrs(h)[i + 1] == a;
    forall j | 0 <= j < NUM_SIZES && a in h.bins[j]
      ensures j == k
    {
      var i' := BinIndex(h, j, a);
      UniqueAddr(h.lo, h.hi, h.chunks, i, i');
    }
  }

  lemma BinIndex(h: State, k: nat, a: nat) returns (i: nat)
    requires Inv(h) && k < NUM_SIZES && a in h.bins[k]
    ensures i < |h.chunks| && h.chunks[i].addr == a && !h.chunks[i].used && Slot(h.chunks[i].size) == k
  {
    assert FreeAt(h.chunks, a, k);
    i :| 0 <= i < |h.chunks| && h.chunks[i].addr == a && !h.chunks[i].used && Slot(h.chunks[i].size) == k;
  }

  lemma Placed(h: State)
    requires Inv(h)
    ensures WellPlaced(ShapeOf(h))
  {
    hide Coalesced, Aligned, Tiled, Slot, FreeAddr;
    AddrsGrid(h);
    forall k, a | 0 <= k < NUM_SIZES && a in h.bins[k]
      ensures FreeAddr(h.chunks, a) && a in Addrs(h)
      ensures forall j :: 0 <= j < NUM_SIZES && a in h.bins[j] ==> j == k
    {
      BinFree(h, k, a);
    }
    forall k, i | 0 <= k < NUM_SIZES && 0 <= i < |h.bins[k]|
      ensures h.bins[k][i] in Addrs(h) && h.bins[k][i] in ShapeOf(h).idle
    {
      assert h.bins[k][i] in h.bins[k];
    }
  }

  /** An arena with the lists and flags of h has the shape of h, whatever grid it was reached with. */
  lemma Settle(m: Memory, heads: seq<nat>, p: Shape, h: State)
    requires Inv(h) && Holds(m, heads, p) && h.hi + CHUNK <= |m|
    requires p.all == Addrs(h) && p.bins == h.bins
    requires forall i :: 0 <= i < |Addrs(h)| ==>
                           Addrs(h)[i] in p.flags && p.flags[Addrs(h)[i]] == !FreeAddr(h.chunks, Addrs(h)[i])
    ensures Holds(m, heads, ShapeOf(h))
  {
    hide Inv, WellPlaced, Load, Ring, BinsAt, FreeAddr, Addrs;
    Placed(h);
    AddrsFit(h, m);
  }

  // ---- the bytes of the clients ----

  /** Byte b belongs to the payload of the live block c. */
  ghost predicate InBlock(h: State, c: Chunk, b: nat) {
    LiveBlock(h, c) && c.Payload() <= b < c.End()
  }

  lemma ClientBytesOutside(h: State, c: Chunk, b: nat, idle: set<nat>)
    requires Inv(h) && InBlock(h, c, b) && c.addr !in idle
    ensures Outside(b, Addrs(h), idle)
  {
    hide BinsOK, Coalesced, Aligned, Slot, Tiled;
    var i :| 0 <= i < |h.chunks| && h.chunks[i] == c;
    Within(h.lo, h.hi, h.chunks, i);
    forall a | a in Addrs(h)
      ensures (b < a || a + USED + 4 <= b) && (a in idle ==> b < a + HEADER || a + CHUNK <= b)
    {
      var j :| 0 <= j < |Addrs(h)| && Addrs(h)[j] == a;
      if 1 <= j <= |h.chunks| { ChunkOrder(h, i, j - 1); }
    }
  }

  lemma ChunkOrder(h: State, i: nat, j: nat)
    requires Inv(h) && i < |h.chunks| && j < |h.chunks|
    ensures i == j || h.chunks[i].End() <= h.chunks[j].addr || h.chunks[j].addr + CHUNK <= h.chunks[i].addr
  {
    hide BinsOK, Coalesced, Aligned;
    if i < j { Ascending(h.lo, h.hi, h.chunks, i, j); }
    if j < i { Ascending(h.lo, h.hi, h.chunks, j, i); }
  }

  lemma OuterBytesOutside(h: State, b: nat, idle: set<nat>)
    requires Inv(h) && (b < h.lo - CHUNK || h.hi + CHUNK <= b)
    ensures Outside(b, Addrs(h), idle)
  {
    hide BinsOK, Coalesced, Aligned, Slot, Tiled;
    forall a | a in Addrs(h)
      ensures h.lo - CHUNK <= a <= h.hi
    {
      var j :| 0 <= j < |Addrs(h)| && Addrs(h)[j] == a;
      if 1 <= j <= |h.chunks| { Within(h.lo, h.hi, h.chunks, j - 1); }
    }
  }

  /**
   What every call promises about the memory: every block live before and after keeps all
   its bytes, and so does everything outside the heap region.
   */
  ghost predicate Preserved(h: State, m: Memory, h': State, m': Memory) {
    && |m'| == |m|
    && (forall c, b: nat :: InBlock(h, c, b) && LiveBlock(h', c) && b < |m| ==> m'[b] == m[b])
    && (forall b :: 0 <= b < |m| && (b < h.lo - CHUNK || h.hi + CHUNK <= b) ==> m'[b] == m[b])
  }

  /** `h0` is the state whose chunks make up the grid: the one before a kfree, the one after a kmalloc. */
  lemma UntouchedPreserves(h: State, m: Memory, h': State, m': Memory, h0: State, idle: set<nat>)
    requires Inv(h0) && Untouched(m, m', Addrs(h0), idle) && h0.lo == h.lo && h0.hi == h.hi
    requires forall c :: LiveBlock(h, c) && LiveBlock(h', c) ==> LiveBlock(h0, c) && c.addr !in idle
    ensures Preserved(h, m, h', m')
  {
    hide Inv, Outside, Addrs;
    forall c, b: nat | InBlock(h, c, b) && LiveBlock(h', c) && b < |m|
      ensures m'[b] == m[b]
    {
      assert LiveBlock(h, c) && LiveBlock(h0, c) && InBlock(h0, c, b);
      ClientBytesOutside(h0, c, b, idle);
    }
    forall b | 0 <= b < |m| && (b < h.lo - CHUNK || h.hi + CHUNK <= b)
      ensures m'[b] == m[b]
    {
      OuterBytesOutside(h0, b, idle);
    }
  }

  lemma UntouchedWider(m: Memory, m': Memory, grid: seq<nat>, idle: set<nat>, grid': seq<nat>, idle': set<nat>)
    requires Untouched(m, m', grid, idle) && idle <= idle' && forall a :: a in grid ==> a in grid'
    ensures Untouched(m, m', grid', idle')
  {
    assert forall b :: Outside(b, grid', idle') ==> Outside(b, grid, idle);
  }

  lemma LiveNotFree(h: State, c: Chunk)
    requires Inv(h) && LiveBlock(h, c)
    ensures !FreeAddr(h.chunks, c.addr) && c.addr in Addrs(h)
  {
    hide BinsOK, Coalesced, Aligned, Tiled;
    var i :| 0 <= i < |h.chunks| && h.chunks[i] == c;
    assert Addrs(h)[i + 1] == c.addr;
    if FreeAddr(h.chunks, c.addr) {
      var j :| 0 <= j < |h.chunks| && h.chunks[j].addr == c.addr && !h.chunks[j].used;
      UniqueAddr(h.lo, h.hi, h.chunks, i, j);
    }
  }

  /** Which elements of the `all` list are free chunks. */
  lemma FreeAddrAt(h: State, j: nat)
    requires Inv(h) && j < |Addrs(h)|
    ensures FreeAddr(h.chunks, Addrs(h)[j]) <==> 1 <= j <= |h.chunks| && !h.chunks[j - 1].used
  {
    hide BinsOK, Coalesced, Aligned, Tiled;
    if FreeAddr(h.chunks, Addrs(h)[j]) {
      var i :| 0 <= i < |h.chunks| && h.chunks[i].addr == Addrs(h)[j] && !h.chunks[i].used;
      Within(h.lo, h.hi, h.chunks, i);
      if 1 <= j <= |h.chunks| { UniqueAddr(h.lo, h.hi, h.chunks, i, j - 1); }
    }
  }

  /** On the `all` list, the distance to the next element is the size of a chunk and a header. */
  lemma NextAddr(h: State, i: nat)
    requires Inv(h) && i < |h.chunks|
    ensures Addrs(h)[i + 2] == h.chunks[i].End()
  {
    hide BinsOK, Coalesced, Aligned;
  }

  // ---- how kmalloc and kfree change the shape ----

  lemma SplitShape(h: State, k: nat, i: nat, r: nat)
    requires Inv(h) && k < NUM_SIZES && h.bins[k] != [] && i < |h.chunks|
    requires !h.chunks[i].used && MIN_SIZE <= r && r + CHUNK <= h.chunks[i].size
    requires Inv(Allocate(h, k, i, r))
    ensures var h' := Allocate(h, k, i, r);
            var c2 := h.chunks[i].Payload() + r;
            && Addrs(h') == InsertAt<nat>(Addrs(h), i + 2, c2) && h'.lo == h.lo && h'.hi == h.hi
            && c2 !in Addrs(h)
            && (forall a :: a in Addrs(h) ==> a in Addrs(h'))
            && (forall a :: FreeAddr(h'.chunks, a) <==> a == c2 || (FreeAddr(h.chunks, a) && a != h.chunks[i].addr))
  {
    hide BinsOK, Coalesced, Aligned, Slot, Tiled, Addrs, FreeAddr, Grid;
    var h' := Allocate(h, k, i, r);
    var c2 := h.chunks[i].Payload() + r;
    var s, t := Addrs(h), Addrs(h');
    SplitAddrs(h, k, i, r);
    AddrsGrid(h');
    GridDistinct(t);
    forall j | 0 <= j < |s|
      ensures s[j] != c2 && s[j] in t
    {
      assert s[j] == t[if j < i + 2 then j else j + 1] && t[i + 2] == c2;
    }
    forall a
      ensures FreeAddr(h'.chunks, a) <==> a == c2 || (FreeAddr(h.chunks, a) && a != h.chunks[i].addr)
    {
      SplitFreeAddr(h, i, r, a);
    }
  }

  lemma SplitAddrs(h: State, k: nat, i: nat, r: nat)
    requires Inv(h) && k < NUM_SIZES && h.bins[k] != [] && i < |h.chunks|
    requires !h.chunks[i].used && MIN_SIZE <= r && r + CHUNK <= h.chunks[i].size
    ensures var h' := Allocate(h, k, i, r);
            Addrs(h') == InsertAt<nat>(Addrs(h), i + 2, h.chunks[i].Payload() + r) && h'.lo == h.lo && h'.hi == h.hi
  {
    hide BinsOK, Coalesced, Aligned, Slot, Tiled;
    var ds := Allocate(h, k, i, r).chunks;
    assert |ds| == |h.chunks| + 1;
    assert forall j :: 0 <= j < |ds| ==>
                         ds[j].addr ==
                         if j <= i then h.chunks[j].addr
                         else if j == i + 1 then h.chunks[i].Payload() + r
                         else h.chunks[j - 1].addr;
  }

  lemma GridDistinct(grid: seq<nat>)
    requires Grid(grid)
    ensures forall i, j :: 0 <= i < |grid| && 0 <= j < |grid| && i != j ==> grid[i] != grid[j]
  {
  }

  lemma SplitFreeAddr(h: State, i: nat, r: nat, a: nat)
    requires Inv(h) && i < |h.chunks| && r + CHUNK <= h.chunks[i].size
    ensures FreeAddr(Split(SetUsed(h.chunks, i, true), i, r), a)
       <==> a == h.chunks[i].Payload() + r || (FreeAddr(h.chunks, a) && a != h.chunks[i].addr)
  {
    hide BinsOK, Coalesced, Aligned, Slot, Tiled;
    var cs, ds := h.chunks, Split(SetUsed(h.chunks, i, true), i, r);
    assert !ds[i + 1].used && ds[i + 1].addr == cs[i].Payload() + r;
    if FreeAddr(ds, a) {
      var j :| 0 <= j < |ds| && ds[j].addr == a && !ds[j].used;
      if j != i + 1 {
        var j' := if j < i then j else j - 1;
        assert cs[j'] == ds[j];
        if a == cs[i].addr { UniqueAddr(h.lo, h.hi, cs, i, j'); }
      } else if a == cs[i].addr {
        assert false;
      }
    }
    if FreeAddr(cs, a) && a != cs[i].addr {
      var j :| 0 <= j < |cs| && cs[j].addr == a && !cs[j].used;
      assert ds[if j < i then j else j + 1] == cs[j];
    }
  }

  lemma WholeShape(h: State, k: nat, i: nat, r: nat)
    requires Inv(h) && k < NUM_SIZES && h.bins[k] != [] && i < |h.chunks|
    requires !h.chunks[i].used && MIN_SIZE <= r <= h.chunks[i].size < r + CHUNK
    ensures var h' := Allocate(h, k, i, r);
            && Addrs(h') == Addrs(h) && h'.lo == h.lo && h'.hi == h.hi
            && (forall a :: FreeAddr(h'.chunks, a) <==> FreeAddr(h.chunks, a) && a != h.chunks[i].addr)
  {
    hide BinsOK, Coalesced, Aligned, Slot, Tiled;
    var cs, ds := h.chunks, SetUsed(h.chunks, i, true);
    forall a
      ensures FreeAddr(ds, a) <==> FreeAddr(cs, a) && a != cs[i].addr
    {
      if FreeAddr(ds, a) {
        var j :| 0 <= j < |ds| && ds[j].addr == a && !ds[j].used;
        assert cs[j] == ds[j];
        if a == cs[i].addr { UniqueAddr(h.lo, h.hi, cs, i, j); }
      }
      if FreeAddr(cs, a) && a != cs[i].addr {
        var j :| 0 <= j < |cs| && cs[j].addr == a && !cs[j].used;
        assert ds[j] == cs[j];
      }
    }
    assert Addrs(Allocate(h, k, i, r)) == Addrs(h);
  }

  /** The `all` list s after chunk i, element i + 1, was freed and merged with the chunks l..r. */
  function Merged(s: seq<nat>, l: nat, i: nat, r: nat): (t: seq<nat>)
    requires i - 1 <= l <= i <= r <= i + 1 && r + 2 < |s|
    ensures |t| == |s| - (r - l)
    ensures forall j {:trigger t[j]} :: 0 <= j < |t| ==> t[j] == s[if j <= l + 1 then j else j + r - l]
  {
    var t := if r > i then RemoveAt(s, i + 2) else s;
    if l < i then RemoveAt(t, i + 1) else t
  }

  function FreedAddrs(h: State, i: nat): seq<nat>
    requires Inv(h) && i < |h.chunks|
  {
    Merged(Addrs(h), Left(h.chunks, i), i, Right(h.chunks, i))
  }

  lemma FreedShape(h: State, i: nat)
    requires Inv(h) && i < |h.chunks| && h.chunks[i].used
    ensures var h' := FreeIndex(h, i);
            && Addrs(h') == FreedAddrs(h, i) && h'.lo == h.lo && h'.hi == h.hi
            && (forall a :: a in Addrs(h') ==> a in Addrs(h))
            && (forall a :: a in Addrs(h') ==>
                              (FreeAddr(h'.chunks, a) <==>
                               a == h.chunks[Left(h.chunks, i)].addr || FreeAddr(h.chunks, a)))
  {
    hide BinsOK, Coalesced, Aligned, Slot, Tiled, Addrs, FreeAddr, FreeIndex;
    var h' := FreeIndex(h, i);
    FreedAddrList(h, i);
    forall j | 0 <= j < |Addrs(h')|
      ensures var a := Addrs(h')[j];
              a in Addrs(h) && (FreeAddr(h'.chunks, a) <==>
                                a == h.chunks[Left(h.chunks, i)].addr || FreeAddr(h.chunks, a))
    {
      FreedFreeAddr(h, i, j);
    }
  }

  /** Address and use of the chunks after a merge. */
  lemma FusedChunks(cs: seq<Chunk>, l: nat, r: nat)
    requires l <= r < |cs| && cs[l].Payload() <= cs[r].End()
    ensures var ds := Fuse(cs, l, r, false);
            && |ds| == |cs| - (r - l)
            && (forall j :: 0 <= j < |ds| ==> ds[j].addr == cs[if j <= l then j else j + r - l].addr)
            && (forall j :: 0 <= j < |ds| && j != l ==> ds[j].used == cs[if j <= l then j else j + r - l].used)
            && !ds[l].used
  {
  }

  lemma FusedAddrs(lo: nat, hi: nat, cs: seq<Chunk>, l: nat, i: nat, r: nat)
    requires i - 1 <= l <= i <= r <= i + 1 && r < |cs| && cs[l].Payload() <= cs[r].End()
    ensures AddrList(lo, hi, Fuse(cs, l, r, false)) == Merged(AddrList(lo, hi, cs), l, i, r)
  {
    hide Fuse, AddrList;
    var ds := Fuse(cs, l, r, false);
    FusedChunks(cs, l, r);
    var s, t := AddrList(lo, hi, cs), AddrList(lo, hi, ds);
    forall j | 0 <= j < |t|
      ensures t[j] == s[if j <= l + 1 then j else j + r - l]
    {
      if 1 <= j <= |ds| { assert t[j] == ds[j - 1].addr; }
    }
  }

  lemma FreedFields(h: State, i: nat)
    requires Inv(h) && i < |h.chunks| && h.chunks[i].used
    ensures var (l, r) := (Left(h.chunks, i), Right(h.chunks, i));
            && h.chunks[l].Payload() <= h.chunks[r].End()
            && FreeIndex(h, i).chunks == Fuse(h.chunks, l, r, false)
            && FreeIndex(h, i).lo == h.lo && FreeIndex(h, i).hi == h.hi
            && FreedAddrs(h, i) == Merged(Addrs(h), l, i, r)
  {
    hide Tiled, Aligned, Coalesced, BinsOK, Fuse, Detached, Push, Slot, Addrs, Merged;
    NeighbourSlots(h, i);
  }

  lemma FreedAddrList(h: State, i: nat)
    requires Inv(h) && i < |h.chunks| && h.chunks[i].used
    ensures Addrs(FreeIndex(h, i)) == FreedAddrs(h, i) && FreeIndex(h, i).lo == h.lo && FreeIndex(h, i).hi == h.hi
  {
    hide Tiled, Aligned, Coalesced, BinsOK, Fuse, FreeIndex, FreedAddrs, AddrList, Merged;
    FreedFields(h, i);
    FusedAddrs(h.lo - CHUNK, h.hi, h.chunks, Left(h.chunks, i), i, Right(h.chunks, i));
  }

  /** Where element j of the list after a merge was before it. */
  function Origin(j: nat, l: nat, r: nat): nat
    requires l <= r
  {
    if j <= l + 1 then j else j + r - l
  }

  lemma OriginUsed(h: State, h': State, l: nat, r: nat, j: nat)
    requires l <= r < |h.chunks| && h.chunks[l].Payload() <= h.chunks[r].End()
    requires h'.chunks == Fuse(h.chunks, l, r, false) && j != l + 1
    ensures var o := Origin(j, l, r);
            1 <= j <= |h'.chunks| && !h'.chunks[j - 1].used <==> 1 <= o <= |h.chunks| && !h.chunks[o - 1].used
  {
    hide Fuse;
    FusedChunks(h.chunks, l, r);
  }

  lemma LeftAddr(h: State, l: nat, o: nat)
    requires Inv(h) && l < |h.chunks| && o < |Addrs(h)|
    ensures Addrs(h)[o] == h.chunks[l].addr <==> o == l + 1
  {
    hide Inv, Grid;
    InvTiled(h);
    AddrsGrid(h);
    GridDistinct(Addrs(h));
    assert Addrs(h)[l + 1] == h.chunks[l].addr;
  }

  lemma InvTiled(h: State)
    requires Inv(h)
    ensures h.lo >= CHUNK
  {
  }

  lemma FreedFreeAddr(h: State, i: nat, j: nat)
    requires Inv(h) && i < |h.chunks| && h.chunks[i].used && j < |Addrs(FreeIndex(h, i))|
    ensures var a := Addrs(FreeIndex(h, i))[j];
            a in Addrs(h) &&
            (FreeAddr(FreeIndex(h, i).chunks, a) <==> a == h.chunks[Left(h.chunks, i)].addr || FreeAddr(h.chunks, a))
  {
    hide Inv, FreeAddr, FreeIndex, Fuse, Addrs, FreedAddrs, Merged, Left, Right;
    var h', l, r := FreeIndex(h, i), Left(h.chunks, i), Right(h.chunks, i);
    FreeIndexInv(h, i);
    FreedFields(h, i);
    FreedAddrList(h, i);
    var o := Origin(j, l, r);
    assert Addrs(h')[j] == Addrs(h)[o];
    FreeAddrAt(h', j);
    FreeAddrAt(h, o);
    LeftAddr(h, l, o);
    if o == l + 1 {
      FusedChunks(h.chunks, l, r);
    } else {
      OriginUsed(h, h', l, r, j);
    }
  }

  // ---- kmalloc and kfree end in the shape of their new state ----

  /** The shape kmalloc works in when it splits chunk i: the grid and the idle set grow by the new chunk. */
  ghost function SplitGrid(h: State, k: nat, i: nat, r: nat): Shape
    requires Inv(h) && k < NUM_SIZES && h.bins[k] != [] && i < |h.chunks|
    requires !h.chunks[i].used && MIN_SIZE <= r && r + CHUNK <= h.chunks[i].size
  {
    var c2 := h.chunks[i].Payload() + r;
    Shape(Addrs(h), ShapeOf(h).flags, h.bins[k := h.bins[k][1..]], Addrs(Allocate(h, k, i, r)), ShapeOf(h).idle + {c2})
  }

  lemma SplitRegrid(h: State, k: nat, i: nat, r: nat, m: Memory, heads: seq<nat>)
    requires Inv(h) && k < NUM_SIZES && h.bins[k] != [] && i < |h.chunks|
    requires !h.chunks[i].used && MIN_SIZE <= r && r + CHUNK <= h.chunks[i].size
    requires Inv(Allocate(h, k, i, r)) && h.hi + CHUNK <= |m| <= TWO_64
    requires Holds(m, heads, ShapeOf(h).(bins := h.bins[k := h.bins[k][1..]]))
    ensures var q := SplitGrid(h, k, i, r);
            Holds(m, heads, q) && OffList(q, h.chunks[i].Payload() + r)
  {
    hide Inv, Tiled, BinsOK, Allocate, Ring, BinsAt, FlagsAt, FreeAddr, Addrs, Fits, Grid, Scattered;
    SplitShape(h, k, i, r);
    AddrsGrid(Allocate(h, k, i, r));
    AddrsFit(Allocate(h, k, i, r), m);
    InvBins(h);
    Regrid(m, heads, ShapeOf(h).(bins := h.bins[k := h.bins[k][1..]]), SplitGrid(h, k, i, r));
  }

  lemma InvBins(h: State)
    requires Inv(h)
    ensures |h.bins| == NUM_SIZES && h.lo >= CHUNK
  {
  }

  /** The flags after a split say which elements of the list are free. */
  lemma SplitFlags(h: State, k: nat, i: nat, r: nat)
    requires Inv(h) && k < NUM_SIZES && h.bins[k] != [] && i < |h.chunks|
    requires !h.chunks[i].used && MIN_SIZE <= r && r + CHUNK <= h.chunks[i].size
    requires Inv(Allocate(h, k, i, r))
    ensures var h' := Allocate(h, k, i, r);
            var flags := ShapeOf(h).flags[h.chunks[i].Payload() + r := false][h.chunks[i].addr := true];
            forall j :: 0 <= j < |Addrs(h')| ==>
                          Addrs(h')[j] in flags && flags[Addrs(h')[j]] == !FreeAddr(h'.chunks, Addrs(h')[j])
  {
    hide Inv, Allocate, FreeAddr, Addrs, ShapeOf;
    InvBins(h);
    var h', c2, a := Allocate(h, k, i, r), h.chunks[i].Payload() + r, h.chunks[i].addr;
    SplitShape(h, k, i, r);
    AddrOf(h, i);
    ShapeFlags(h);
    var s, t := Addrs(h), Addrs(h');
    var flags := ShapeOf(h).flags[c2 := false][a := true];
    forall j | 0 <= j < |t|
      ensures t[j] in flags && flags[t[j]] == !FreeAddr(h'.chunks, t[j])
    {
      if j != i + 2 { assert t[j] == s[if j < i + 2 then j else j - 1]; }
    }
  }

  lemma ShapeFlags(h: State)
    requires h.lo >= CHUNK
    ensures forall a :: a in Addrs(h) ==> a in ShapeOf(h).flags && ShapeOf(h).flags[a] == !FreeAddr(h.chunks, a)
  {
    hide Addrs, FreeAddr;
  }

  lemma SplitDone(h: State, k: nat, i: nat, r: nat, m: Memory, m': Memory, heads: seq<nat>, p: Shape)
    requires Inv(h) && k < NUM_SIZES && h.bins[k] != [] && i < |h.chunks|
    requires !h.chunks[i].used && MIN_SIZE <= r && r + CHUNK <= h.chunks[i].size
    requires Inv(Allocate(h, k, i, r)) && h.hi + CHUNK <= |m|
    requires var q := SplitGrid(h, k, i, r);
             && p.all == q.grid == p.grid && p.idle == q.idle && p.bins == Allocate(h, k, i, r).bins
             && p.flags == q.flags[h.chunks[i].Payload() + r := false][h.chunks[i].addr := true]
    requires Holds(m', heads, p) && Untouched(m, m', p.grid, p.idle)
    ensures Holds(m', heads, ShapeOf(Allocate(h, k, i, r))) && |m'| == |m|
    ensures Preserved(h, m, Allocate(h, k, i, r), m')
  {
    hide Inv, Allocate, Holds, FreeAddr, Outside, Addrs, Preserved;
    var h' := Allocate(h, k, i, r);
    SplitShape(h, k, i, r);
    AddrOf(h, i);
    SplitFlags(h, k, i, r);
    Settle(m', heads, p, h');
    forall c | LiveBlock(h, c) && LiveBlock(h', c)
      ensures c.addr !in p.idle
    {
      LiveNotFree(h, c);
    }
    UntouchedPreserves(h, m, h', m', h', p.idle);
  }

  lemma AddrOf(h: State, i: nat)
    requires Inv(h) && i < |h.chunks|
    ensures h.chunks[i].addr in Addrs(h)
  {
    assert Addrs(h)[i + 1] == h.chunks[i].addr;
  }

  lemma WholeDone(h: State, k: nat, i: nat, r: nat, m: Memory, m': Memory, heads: seq<nat>, p: Shape)
    requires Inv(h) && k < NUM_SIZES && h.bins[k] != [] && i < |h.chunks|
    requires !h.chunks[i].used && MIN_SIZE <= r <= h.chunks[i].size < r + CHUNK
    requires Inv(Allocate(h, k, i, r)) && h.hi + CHUNK <= |m|
    requires var q := ShapeOf(h);
             p == Shape(q.all, q.flags[h.chunks[i].addr := true], Allocate(h, k, i, r).bins, q.grid, q.idle)
    requires Holds(m', heads, p) && Untouched(m, m', p.grid, p.idle)
    ensures Holds(m', heads, ShapeOf(Allocate(h, k, i, r))) && |m'| == |m|
    ensures Preserved(h, m, Allocate(h, k, i, r), m')
  {
    hide Inv, Allocate, Holds, FreeAddr, Outside;
    var h' := Allocate(h, k, i, r);
    WholeShape(h, k, i, r);
    Settle(m', heads, p, h');
    forall c | LiveBlock(h, c) && LiveBlock(h', c)
      ensures c.addr !in p.idle
    {
      LiveNotFree(h, c);
    }
    UntouchedPreserves(h, m, h', m', h, p.idle);
  }

  /** q is the shape kfree works in: the shape of h with the freed chunk idle too. */
  ghost function FreeGrid(h: State, i: nat): Shape
    requires h.lo >= CHUNK && i < |h.chunks|
  {
    ShapeOf(h).(idle := ShapeOf(h).idle + {h.chunks[i].addr})
  }

  lemma FreeRegrid(h: State, i: nat, m: Memory, heads: seq<nat>)
    requires Inv(h) && i < |h.chunks| && Holds(m, heads, ShapeOf(h))
    ensures Holds(m, heads, FreeGrid(h, i))
  {
    hide Inv, Ring, BinsAt, FlagsAt, FreeAddr, Addrs, Fits, Grid, Scattered;
    Regrid(m, heads, ShapeOf(h), FreeGrid(h, i));
  }

  lemma FreeDone(h: State, i: nat, m: Memory, m': Memory, heads: seq<nat>, p: Shape)
    requires Inv(h) && i < |h.chunks| && h.chunks[i].used && h.hi + CHUNK <= |m|
    requires Inv(FreeIndex(h, i))
    requires var q := FreeGrid(h, i);
             && p.all == FreedAddrs(h, i) && p.grid == q.grid && p.idle == q.idle && p.bins == FreeIndex(h, i).bins
             && p.flags == if Left(h.chunks, i) < i then q.flags else q.flags[h.chunks[i].addr := false]
    requires Holds(m', heads, p) && Untouched(m, m', p.grid, p.idle)
    ensures Holds(m', heads, ShapeOf(FreeIndex(h, i))) && |m'| == |m|
    ensures Preserved(h, m, FreeIndex(h, i), m')
  {
    hide Inv, FreeIndex, Holds, FreeAddr, Outside, FreedAddrs;
    var h' := FreeIndex(h, i);
    FreedShape(h, i);
    LeftFree(h, i);
    Settle(m', heads, p, h');
    forall c | LiveBlock(h, c) && LiveBlock(h', c)
      ensures LiveBlock(h, c) && c.addr !in p.idle
    {
      LiveNotFree(h, c);
      FreedLive(h, i, c);
    }
    UntouchedPreserves(h, m, h', m', h, p.idle);
  }

  lemma LeftFree(h: State, i: nat)
    requires Inv(h) && i < |h.chunks|
    ensures Left(h.chunks, i) < i ==> FreeAddr(h.chunks, h.chunks[Left(h.chunks, i)].addr)
    ensures h.chunks[i].used ==> !FreeAddr(h.chunks, h.chunks[i].addr)
  {
    if h.chunks[i].used { LiveNotFree(h, h.chunks[i]); }
  }

  /** Where chunk i and its neighbours are on the `all` list, and which of them kfree merges. */
  lemma FreeFacts(h: State, i: nat)
    requires Inv(h) && i < |h.chunks| && h.chunks[i].used
    ensures var (cs, s, l, r) := (h.chunks, Addrs(h), Left(h.chunks, i), Right(h.chunks, i));
            && s[i + 1] == cs[i].addr && s[i + 2] == cs[i].End() && s[r + 2] == cs[r].End() && r < |cs|
            && (r > i ==> s[i + 2] == cs[r].addr) && (l < i ==> s[i] == cs[l].addr && cs[l].End() == cs[i].addr)
            && (FreeAddr(cs, s[i + 2]) <==> r > i) && (FreeAddr(cs, s[i]) <==> l < i)
            && !FreeAddr(cs, cs[i].addr)
            && s[i] in s && s[i + 1] in s && s[i + 2] in s
  {
    hide BinsOK, Coalesced, Aligned, FreeAddr, Slot;
    NextAddr(h, i);
    NextAddr(h, Right(h.chunks, i));
    FreeAddrAt(h, i);
    FreeAddrAt(h, i + 1);
    FreeAddrAt(h, i + 2);
  }

  lemma InBin(h: State, i: nat) returns (j: nat)
    requires Inv(h) && i < |h.chunks| && !h.chunks[i].used
    ensures 0 <= Slot(h.chunks[i].size) < NUM_SIZES
    ensures j < |h.bins[Slot(h.chunks[i].size)]| && h.bins[Slot(h.chunks[i].size)][j] == h.chunks[i].addr
  {
    hide Coalesced, Aligned, Tiled, Slot;
    SlotInRange(h.lo, h.hi, h.chunks, i);
    assert FreeAt(h.chunks, h.chunks[i].addr, Slot(h.chunks[i].size));
    j :| 0 <= j < |h.bins[Slot(h.chunks[i].size)]| && h.bins[Slot(h.chunks[i].size)][j] == h.chunks[i].addr;
  }

  /** The same for the left neighbour once the right one has left its bin. */
  lemma InBinAfterDrop(h: State, i: nat, k: nat, a: nat) returns (j: nat)
    requires Inv(h) && i < |h.chunks| && !h.chunks[i].used && k < NUM_SIZES && a in h.bins[k] && a != h.chunks[i].addr
    ensures 0 <= Slot(h.chunks[i].size) < NUM_SIZES
    ensures var bin := Drop(h.bins, k, a)[Slot(h.chunks[i].size)];
            j < |bin| && bin[j] == h.chunks[i].addr
  {
    hide Coalesced, Aligned, Tiled, Slot;
    var j0 := InBin(h, i);
    WithoutMembers(h.bins[k], a);
    var bin := Drop(h.bins, k, a)[Slot(h.chunks[i].size)];
    assert h.chunks[i].addr in bin;
    j :| 0 <= j < |bin| && bin[j] == h.chunks[i].addr;
  }

  /** A chunk in use is on no bin, before and after others left their bins. */
  lemma UsedOffBins(h: State, a: nat, k: nat, b: nat)
    requires Inv(h) && !FreeAddr(h.chunks, a) && k < NUM_SIZES && b in h.bins[k]
    ensures forall n :: 0 <= n < NUM_SIZES ==> a !in h.bins[n] && a !in Drop(h.bins, k, b)[n]
  {
    hide Coalesced, Aligned, Tiled, Slot, FreeAddr;
    WithoutMembers(h.bins[k], b);
    forall n | 0 <= n < NUM_SIZES
      ensures a !in h.bins[n]
    {
      if a in h.bins[n] { BinFree(h, n, a); }
    }
  }

  lemma UsedOffAllBins(h: State, a: nat)
    requires Inv(h) && !FreeAddr(h.chunks, a)
    ensures forall n :: 0 <= n < NUM_SIZES ==> a !in h.bins[n]
  {
    hide Coalesced, Aligned, Tiled, Slot, FreeAddr;
    forall n | 0 <= n < NUM_SIZES
      ensures a !in h.bins[n]
    {
      if a in h.bins[n] { BinFree(h, n, a); }
    }
  }
}
