/**
 How chunks, free lists and `used` flags lie in the flat memory, and why an update of one
 of them leaves the others alone.
 */
module HeapLayout {
  import opened Machine
  import opened HeapSpec
  import opened FlatMemory

  const USED := 16   // offset of `used` (an int) in a heap_chunk

  /**
   all    the chunk addresses on the `all` list, sentinels included, in list order
   flags  the `used` field of chunks
   bins   the chunk addresses on each free list, in list order
   grid   addresses, ascending, that hold or may come to hold a chunk
   idle   those of the grid whose payload no client owns
   */
  datatype Shape = Shape(all: seq<nat>, flags: map<nat, bool>, bins: seq<seq<nat>>, grid: seq<nat>, idle: set<nat>)

  /** Chunks are at least CHUNK bytes apart, so their headers and free-list nodes never overlap. */
  ghost predicate Grid(grid: seq<nat>) {
    forall i, j :: 0 <= i < j < |grid| ==> grid[i] + CHUNK <= grid[j]
  }

  ghost predicate Fits(m: Memory, grid: seq<nat>) {
    |m| <= TWO_64 && forall i :: 0 <= i < |grid| ==> 0 < grid[i] && grid[i] + CHUNK <= |m|
  }

  /** The addresses of the `free` fields. */
  function Nodes(bin: seq<nat>): (ns: seq<nat>)
    ensures |ns| == |bin|
    ensures forall i {:trigger ns[i]} :: 0 <= i < |bin| ==> ns[i] == bin[i] + HEADER
  {
    seq(|bin|, i requires 0 <= i < |bin| => bin[i] + HEADER)
  }

  ghost predicate On(grid: seq<nat>, s: seq<nat>) {
    forall i :: 0 <= i < |s| ==> s[i] in grid
  }

  /** No chunk is on two bins, or twice on one. */
  ghost predicate Scattered(bins: seq<seq<nat>>) {
    && (forall k :: 0 <= k < |bins| ==> NoDup(bins[k]))
    && (forall j, k, a :: 0 <= j < |bins| && 0 <= k < |bins| && a in bins[j] && a in bins[k] ==> j == k)
  }

  ghost predicate WellPlaced(p: Shape) {
    && Grid(p.grid) && On(p.grid, p.all) && |p.bins| == NUM_SIZES && Scattered(p.bins)
    && (forall a :: a in p.flags ==> a in p.grid)
    && (forall k :: 0 <= k < NUM_SIZES ==> On(p.grid, p.bins[k]))
    && (forall k, i :: 0 <= k < NUM_SIZES && 0 <= i < |p.bins[k]| ==> p.bins[k][i] in p.idle)
  }

  /** The list of one bin: NULL, or a pointer to the first chunk of a circular list of its `free` fields. */
  ghost predicate BinAt(m: Memory, first: nat, bin: seq<nat>) {
    if bin == [] then first == 0 else first == bin[0] && Ring(m, Nodes(bin))
  }

  ghost predicate BinsAt(m: Memory, heads: seq<nat>, bins: seq<seq<nat>>)
    requires |heads| == |bins|
  {
    forall k :: 0 <= k < |bins| ==> BinAt(m, heads[k], bins[k])
  }

  ghost predicate FlagsAt(m: Memory, flags: map<nat, bool>) {
    forall a :: a in flags ==> a + CHUNK <= |m| && Load(m, a + USED, 4) == if flags[a] then 1 else 0
  }

  /** The memory and the array free_chunk hold exactly this shape. */
  ghost predicate Holds(m: Memory, heads: seq<nat>, p: Shape) {
    && WellPlaced(p) && Fits(m, p.grid) && |heads| == NUM_SIZES
    && Ring(m, p.all) && BinsAt(m, heads, p.bins) && FlagsAt(m, p.flags)
  }

  // ---- what an update may touch ----

  /** Byte b is in no header of the grid and in no free-list node of an idle chunk. */
  ghost predicate Outside(b: nat, grid: seq<nat>, idle: set<nat>) {
    forall a :: a in grid ==>
                  && (b < a || a + USED + 4 <= b)
                  && (a in idle ==> b < a + HEADER || a + CHUNK <= b)
  }

  ghost predicate Untouched(m: Memory, m': Memory, grid: seq<nat>, idle: set<nat>) {
    |m'| == |m| && forall b :: 0 <= b < |m| && Outside(b, grid, idle) ==> m'[b] == m[b]
  }

  lemma GridApart(grid: seq<nat>, a: nat, b: nat)
    requires Grid(grid) && a in grid && b in grid
    ensures a == b || a + CHUNK <= b || b + CHUNK <= a
  {
    var i :| 0 <= i < |grid| && grid[i] == a;
    var j :| 0 <= j < |grid| && grid[j] == b;
  }

  /** Nodes at offset 0 or HEADER of chunks of the grid. */
  ghost predicate NodesOn(grid: seq<nat>, ns: seq<nat>) {
    forall i :: 0 <= i < |ns| ==> ns[i] in grid || (ns[i] >= HEADER && ns[i] - HEADER in grid)
  }

  /** Touching list nodes of the grid changes no `used` flag. */
  lemma FlagsKept(m: Memory, m': Memory, p: Shape, ns: seq<nat>)
    requires WellPlaced(p) && Fits(m, p.grid) && FlagsAt(m, p.flags)
    requires SameOutside(m, m', ns) && NodesOn(p.grid, ns)
    ensures FlagsAt(m', p.flags)
  {
    hide Scattered, On, Load;
    forall a | a in p.flags
      ensures Load(m', a + USED, 4) == Load(m, a + USED, 4)
    {
      forall b | a + USED <= b < a + USED + 4
        ensures Clear(b, ns)
      {
        forall i | 0 <= i < |ns|
          ensures b < ns[i] || ns[i] + NODE <= b
        {
          GridApart(p.grid, a, if ns[i] in p.grid then ns[i] else ns[i] - HEADER);
        }
      }
      LoadSame(m, m', a + USED, 4);
    }
  }

  /** A ring of free-list nodes disjoint from the touched free-list nodes stays. */
  lemma BinKept(grid: seq<nat>, m: Memory, m': Memory, touched: seq<nat>, bin: seq<nat>)
    requires Grid(grid) && On(grid, touched) && On(grid, bin)
    requires forall i :: 0 <= i < |bin| ==> bin[i] !in touched
    requires SameOutside(m, m', Nodes(touched))
    requires bin != [] ==> Ring(m, Nodes(bin))
    ensures bin != [] ==> Ring(m', Nodes(bin))
  {
    if bin != [] {
      var ns, ms := Nodes(touched), Nodes(bin);
      forall i, j | 0 <= i < |ms| && 0 <= j < |ns|
        ensures Distinct(ms[i], ns[j])
      {
        GridApart(grid, bin[i], touched[j]);
      }
      RingKept(m, m', ns, ms);
    }
  }

  /** Free-list updates leave the `all` list alone. */
  lemma AllKept(grid: seq<nat>, m: Memory, m': Memory, touched: seq<nat>, all: seq<nat>)
    requires Grid(grid) && On(grid, touched) && On(grid, all)
    requires SameOutside(m, m', Nodes(touched)) && Ring(m, all)
    ensures Ring(m', all)
  {
    var ns := Nodes(touched);
    forall i, j | 0 <= i < |all| && 0 <= j < |ns|
      ensures Distinct(all[i], ns[j])
    {
      GridApart(grid, all[i], touched[j]);
    }
    RingKept(m, m', ns, all);
  }

  /** `all` list updates leave the free lists alone. */
  lemma BinKeptByAll(grid: seq<nat>, m: Memory, m': Memory, touched: seq<nat>, bin: seq<nat>)
    requires Grid(grid) && On(grid, touched) && On(grid, bin)
    requires SameOutside(m, m', touched)
    requires bin != [] ==> Ring(m, Nodes(bin))
    ensures bin != [] ==> Ring(m', Nodes(bin))
  {
    if bin != [] {
      var ms := Nodes(bin);
      forall i, j | 0 <= i < |ms| && 0 <= j < |touched|
        ensures Distinct(ms[i], touched[j])
      {
        GridApart(grid, bin[i], touched[j]);
      }
      RingKept(m, m', touched, ms);
    }
  }

  /** The lists and flags after bin n, and free-list nodes of `touched` only, changed. */
  lemma BinUpdated(m: Memory, m': Memory, heads: seq<nat>, heads': seq<nat>, p: Shape, n: nat, bin': seq<nat>,
                   touched: seq<nat>)
    requires Holds(m, heads, p) && n < NUM_SIZES && |m'| == |m|
    requires On(p.grid, touched) && SameOutside(m, m', Nodes(touched))
    requires forall i :: 0 <= i < |touched| ==> touched[i] in p.idle
    requires forall k, i :: 0 <= k < NUM_SIZES && k != n && 0 <= i < |p.bins[k]| ==> p.bins[k][i] !in touched
    requires NoDup(bin') && forall i :: 0 <= i < |bin'| ==> bin'[i] in touched
    requires |heads'| == NUM_SIZES && forall k :: 0 <= k < NUM_SIZES && k != n ==> heads'[k] == heads[k]
    requires BinAt(m', heads'[n], bin')
    ensures Holds(m', heads', p.(bins := p.bins[n := bin'])) && Untouched(m, m', p.grid, p.idle)
  {
    hide Grid, NoDup, Load, Ring, SameOutside, FlagsAt, Fits;
    var p' := p.(bins := p.bins[n := bin']);
    TouchedNodes(p.grid, touched);
    FlagsKept(m, m', p, Nodes(touched));
    AllKept(p.grid, m, m', touched, p.all);
    forall k | 0 <= k < NUM_SIZES
      ensures BinAt(m', heads'[k], p'.bins[k])
    {
      if k != n { BinKept(p.grid, m, m', touched, p.bins[k]); }
    }
    FitsSame(m, m', p.grid);
    BinTouched(m, m', p, touched);
    ScatteredUpdate(p.bins, n, bin', touched);
  }

  lemma FitsSame(m: Memory, m': Memory, grid: seq<nat>)
    requires Fits(m, grid) && |m'| == |m|
    ensures Fits(m', grid)
  {
  }

  lemma ScatteredUpdate(bins: seq<seq<nat>>, n: nat, bin': seq<nat>, touched: seq<nat>)
    requires Scattered(bins) && n < |bins| && NoDup(bin')
    requires forall i :: 0 <= i < |bin'| ==> bin'[i] in touched
    requires forall k, i :: 0 <= k < |bins| && k != n && 0 <= i < |bins[k]| ==> bins[k][i] !in touched
    ensures Scattered(bins[n := bin'])
  {
    assert forall a :: a in bin' ==> a in touched;
    assert forall k, a :: 0 <= k < |bins| && k != n && a in bins[k] ==> a !in touched;
  }

  lemma TouchedNodes(grid: seq<nat>, touched: seq<nat>)
    requires On(grid, touched)
    ensures NodesOn(grid, Nodes(touched))
  {
  }

  lemma BinTouched(m: Memory, m': Memory, p: Shape, touched: seq<nat>)
    requires On(p.grid, touched) && SameOutside(m, m', Nodes(touched))
    requires forall i :: 0 <= i < |touched| ==> touched[i] in p.idle
    ensures Untouched(m, m', p.grid, p.idle)
  {
    forall b | 0 <= b < |m| && Outside(b, p.grid, p.idle)
      ensures Clear(b, Nodes(touched))
    {
      forall i | 0 <= i < |touched|
        ensures b < Nodes(touched)[i] || Nodes(touched)[i] + NODE <= b
      {
        assert touched[i] in p.grid && touched[i] in p.idle;
      }
    }
  }

  /** The lists and flags after the `all` list changed to all'. */
  lemma AllUpdated(m: Memory, m': Memory, heads: seq<nat>, p: Shape, all': seq<nat>, touched: seq<nat>)
    requires Holds(m, heads, p) && |m'| == |m|
    requires On(p.grid, touched) && SameOutside(m, m', touched)
    requires On(p.grid, all') && Ring(m', all')
    ensures Holds(m', heads, p.(all := all')) && Untouched(m, m', p.grid, p.idle)
  {
    hide Grid, Load, Ring, SameOutside, FlagsAt, Scattered;
    FlagsKept(m, m', p, touched);
    forall k | 0 <= k < NUM_SIZES
      ensures BinAt(m', heads[k], p.bins[k])
    {
      BinKeptByAll(p.grid, m, m', touched, p.bins[k]);
    }
    AllTouched(m, m', p, touched);
  }

  lemma AllTouched(m: Memory, m': Memory, p: Shape, touched: seq<nat>)
    requires On(p.grid, touched) && SameOutside(m, m', touched)
    ensures Untouched(m, m', p.grid, p.idle)
  {
    forall b | 0 <= b < |m| && Outside(b, p.grid, p.idle)
      ensures Clear(b, touched)
    {
      forall i | 0 <= i < |touched|
        ensures b < touched[i] || touched[i] + NODE <= b
      {
        assert touched[i] in p.grid;
      }
    }
  }

  /** The lists and flags after the `used` field of chunk a was written. */
  lemma FlagUpdated(m: Memory, heads: seq<nat>, p: Shape, a: nat, used: bool)
    requires Holds(m, heads, p) && a in p.grid && a + CHUNK <= |m|
    ensures var m' := Store(m, a + USED, 4, if used then 1 else 0);
            && Holds(m', heads, p.(flags := p.flags[a := used])) && Untouched(m, m', p.grid, p.idle)
            && (forall d | d in p.grid && d + CHUNK <= |m| && Ring(m, [d + HEADER]) :: Ring(m', [d + HEADER]))
  {
    hide Load, Scattered, Ring, Grid;
    var m' := Store(m, a + USED, 4, if used then 1 else 0);
    StoreInt(m, a + USED, if used then 1 else 0);
    forall b | b in p.flags && b != a
      ensures b + CHUNK <= |m| && Load(m', b + USED, 4) == Load(m, b + USED, 4)
    {
      GridApart(p.grid, a, b);
      LoadSame(m, m', b + USED, 4);
    }
    RingKeptByFlag(p.grid, m, a, used, p.all);
    forall k | 0 <= k < NUM_SIZES
      ensures BinAt(m', heads[k], p.bins[k])
    {
      if p.bins[k] != [] { RingKeptByFlag(p.grid, m, a, used, Nodes(p.bins[k])); }
    }
    forall d | d in p.grid && d + CHUNK <= |m| && Ring(m, [d + HEADER])
      ensures Ring(m', [d + HEADER])
    {
      RingKeptByFlag(p.grid, m, a, used, [d + HEADER]);
    }
  }

  lemma RingKeptByFlag(grid: seq<nat>, m: Memory, a: nat, used: bool, s: seq<nat>)
    requires Grid(grid) && a in grid && a + CHUNK <= |m| && Ring(m, s) && NodesOn(grid, s)
    ensures Ring(Store(m, a + USED, 4, if used then 1 else 0), s)
  {
    hide Store, Load, Ring, Grid;
    var m' := Store(m, a + USED, 4, if used then 1 else 0);
    forall i, b | 0 <= i < |s| && s[i] <= b < s[i] + NODE
      ensures b < |m| && m'[b] == m[b]
    {
      RingInMemory(m, s, i);
      GridApart(grid, a, if s[i] in grid then s[i] else s[i] - HEADER);
    }
    RingSame(m, m', s);
  }

  lemma RingInMemory(m: Memory, s: seq<nat>, i: nat)
    requires Ring(m, s) && i < |s|
    ensures s[i] + NODE <= |m|
  {
  }

  ghost predicate OffList(p: Shape, c: nat) {
    c !in p.all && forall k :: 0 <= k < |p.bins| ==> c !in p.bins[k]
  }

  /** Writing the list node of a chunk that is not on that list disturbs no list and no flag. */
  lemma LoneUpdated(m: Memory, m': Memory, heads: seq<nat>, p: Shape, c: nat, x: nat)
    requires Holds(m, heads, p) && c in p.grid && c in p.idle
    requires (x == c && c !in p.all) || x == c + HEADER
    requires forall k :: 0 <= k < |p.bins| ==> c !in p.bins[k]
    requires SameOutside(m, m', [x])
    ensures Holds(m', heads, p) && Untouched(m, m', p.grid, p.idle)
  {
    hide Grid, Load, Ring, FlagsAt, Scattered, Fits;
    assert [x][0] == x && [c][0] == c;
    FlagsKept(m, m', p, [x]);
    FitsSame(m, m', p.grid);
    forall i | 0 <= i < |p.all|
      ensures Distinct(p.all[i], x)
    {
      GridApart(p.grid, p.all[i], c);
    }
    RingKept(m, m', [x], p.all);
    forall k | 0 <= k < NUM_SIZES
      ensures BinAt(m', heads[k], p.bins[k])
    {
      if p.bins[k] != [] {
        forall i | 0 <= i < |p.bins[k]|
          ensures Distinct(Nodes(p.bins[k])[i], x)
        {
          GridApart(p.grid, p.bins[k][i], c);
        }
        RingKept(m, m', [x], Nodes(p.bins[k]));
      }
    }
    if x == c {
      AllTouched(m, m', p, [c]);
    } else {
      assert Nodes([c]) == [x];
      BinTouched(m, m', p, [c]);
    }
  }

  /** Holds depends on the grid and the idle set only through the placement. */
  lemma Regrid(m: Memory, heads: seq<nat>, p: Shape, q: Shape)
    requires Holds(m, heads, p) && q.all == p.all && q.flags == p.flags && q.bins == p.bins
    requires WellPlaced(q) && Fits(m, q.grid)
    ensures Holds(m, heads, q)
  {
  }

  /** Writes outside all headers and idle nodes keep the whole shape. */
  lemma PayloadWritten(m: Memory, m': Memory, heads: seq<nat>, p: Shape)
    requires Holds(m, heads, p) && |m'| == |m|
    requires forall b :: 0 <= b < |m| && !Outside(b, p.grid, p.idle) ==> m'[b] == m[b]
    ensures Holds(m', heads, p)
  {
    hide Load, Scattered;
    FitsSame(m, m', p.grid);
    forall a | a in p.flags
      ensures Load(m', a + USED, 4) == Load(m, a + USED, 4)
    {
      assert forall b :: a + USED <= b < a + USED + 4 ==> !Outside(b, p.grid, p.idle);
      LoadSame(m, m', a + USED, 4);
    }
    assert forall i, b :: 0 <= i < |p.all| && p.all[i] <= b < p.all[i] + NODE ==> !Outside(b, p.grid, p.idle);
    RingSame(m, m', p.all);
    forall k | 0 <= k < NUM_SIZES
      ensures BinAt(m', heads[k], p.bins[k])
    {
      if p.bins[k] != [] {
        forall i, b | 0 <= i < |p.bins[k]| && Nodes(p.bins[k])[i] <= b < Nodes(p.bins[k])[i] + NODE
          ensures !Outside(b, p.grid, p.idle)
        {
          assert p.bins[k][i] in p.grid && p.bins[k][i] in p.idle;
        }
        RingSame(m, m', Nodes(p.bins[k]));
      }
    }
  }
}
