/** The physical memory map of kernel/mem/mem.c: ranges kept in address order in a doubly linked list. */
module MemMap {
  import opened Common
  import opened Machine
  import opened Dll

  /** A mem_range whose end does not wrap. */
  datatype AnyRange = MemRange(phys: u64, virt: u64, size: u64, kind: nat) {
    function End(): nat { phys + size }
    predicate Covers(addr: nat) { phys <= addr < End() }
  }

  type MemRange = r: AnyRange | r.End() < TWO_64 witness MemRange(0, 0, 0, 0)

  // ---- the map as a sequence ----

  /** mem_contains */
  predicate Contains(r: MemRange, x: MemRange) { x.phys >= r.phys && x.End() <= r.End() }

  /** mem_intersect: the first byte of x, or the byte behind its last one, is in r. */
  predicate Intersects(r: MemRange, x: MemRange) {
    (x.phys >= r.phys && x.phys < r.End()) || (x.End() >= r.phys && x.End() < r.End())
  }

  ghost predicate Disjoint(r: MemRange, x: MemRange) { r.End() <= x.phys || x.End() <= r.phys }

  function Prefix(r: MemRange, x: MemRange): seq<MemRange>
    requires Contains(r, x)
  {
    if x.phys > r.phys then [MemRange(r.phys, r.virt, x.phys - r.phys, r.kind)] else []
  }

  function Suffix(r: MemRange, x: MemRange): seq<MemRange>
    requires Contains(r, x)
  {
    if r.End() > x.End() then [MemRange(x.End(), r.virt, r.End() - x.End(), r.kind)] else []
  }

  /** What is left of r on both sides of x, and x between. */
  function Pieces(r: MemRange, x: MemRange): seq<MemRange>
    requires Contains(r, x)
  {
    Prefix(r, x) + [x] + Suffix(r, x)
  }

  /** The first range x intersects, or the length of the map. */
  function FirstHit(rs: seq<MemRange>, x: MemRange): (i: nat)
    ensures i <= |rs| && (i < |rs| ==> Intersects(rs[i], x)) && forall j :: 0 <= j < i ==> !Intersects(rs[j], x)
  {
    if rs == [] || Intersects(rs[0], x) then 0 else 1 + FirstHit(rs[1..], x)
  }

  /** The first range that begins at or behind the end of x, or the length of the map. */
  function FirstBehind(rs: seq<MemRange>, x: MemRange): (i: nat)
    ensures i <= |rs| && (i < |rs| ==> x.End() <= rs[i].phys) && forall j :: 0 <= j < i ==> x.End() > rs[j].phys
  {
    if rs == [] || x.End() <= rs[0].phys then 0 else 1 + FirstBehind(rs[1..], x)
  }

  /** mem_update_range returns, or panics because x is only partly in the range it intersects. */
  datatype Outcome = Panic | Done(ranges: seq<MemRange>, result: bool)

  function Update(rs: seq<MemRange>, x: MemRange): Outcome {
    var i := FirstHit(rs, x);
    if i < |rs| then
      if Contains(rs[i], x) then Done(rs[..i] + Pieces(rs[i], x) + rs[i + 1..], true) else Panic
    else
      var j := FirstBehind(rs, x);
      Done(rs[..j] + [x] + rs[j..], j < |rs|)
  }

  /** The first range that covers addr. */
  function Find(rs: seq<MemRange>, addr: nat): Option<MemRange> {
    if rs == [] then None else if rs[0].Covers(addr) then Some(rs[0]) else Find(rs[1..], addr)
  }

  // ---- what an update means ----

  /** Ranges are not empty, in address order, and disjoint. */
  ghost predicate Sorted(rs: seq<MemRange>) {
    && (forall i :: 0 <= i < |rs| ==> rs[i].size > 0)
    && (forall i, j :: 0 <= i < j < |rs| ==> rs[i].End() <= rs[j].phys)
  }

  /** x lies in one range of the map, or apart from all of them without ending where one begins. */
  ghost predicate Fitting(rs: seq<MemRange>, x: MemRange) {
    || (exists i :: 0 <= i < |rs| && Contains(rs[i], x))
    || (forall i :: 0 <= i < |rs| ==> Disjoint(rs[i], x) && x.End() != rs[i].phys)
  }

  lemma {:induction false} FindCovering(rs: seq<MemRange>, i: nat, addr: nat)
    requires Sorted(rs) && i < |rs| && rs[i].Covers(addr)
    ensures Find(rs, addr) == Some(rs[i])
  {
    if i > 0 {
      assert rs[0].End() <= rs[i].phys;
      FindCovering(rs[1..], i - 1, addr);
    }
  }

  lemma {:induction false} FindMissing(rs: seq<MemRange>, addr: nat)
    requires forall i :: 0 <= i < |rs| ==> !rs[i].Covers(addr)
    ensures Find(rs, addr) == None
  {
    if rs != [] { FindMissing(rs[1..], addr); }
  }

  lemma FindInvert(rs: seq<MemRange>, addr: nat) returns (i: nat)
    requires Sorted(rs)
    ensures if Find(rs, addr) == None then forall j :: 0 <= j < |rs| ==> !rs[j].Covers(addr)
            else i < |rs| && rs[i].Covers(addr) && Find(rs, addr) == Some(rs[i])
  {
    i := 0;
    if exists j :: 0 <= j < |rs| && rs[j].Covers(addr) {
      i :| 0 <= i < |rs| && rs[i].Covers(addr);
      FindCovering(rs, i, addr);
    } else {
      FindMissing(rs, addr);
    }
  }

  /** In a sorted map, a fitting range is handled at the range that contains it, or put in its gap. */
  lemma FittingCases(rs: seq<MemRange>, x: MemRange)
    requires Sorted(rs) && x.size > 0 && Fitting(rs, x)
    ensures var i := FirstHit(rs, x);
            if i < |rs| then Contains(rs[i], x) else forall k :: 0 <= k < |rs| ==> Disjoint(rs[k], x)
  {
    var i := FirstHit(rs, x);
    if k :| 0 <= k < |rs| && Contains(rs[k], x) {
      assert Intersects(rs[k], x);
      forall j | 0 <= j < k
        ensures !Intersects(rs[j], x)
      {
        assert rs[j].End() <= rs[k].phys;
      }
    }
  }

  lemma PieceBounds(r: MemRange, x: MemRange)
    requires x.size > 0 && Contains(r, x)
    ensures Sorted(Pieces(r, x)) && forall p :: 0 <= p < |Pieces(r, x)| ==> Contains(r, Pieces(r, x)[p])
  {
  }

  /** Replacing a range by ranges inside it keeps the order. */
  lemma ReplacedOrder(rs: seq<MemRange>, i: nat, ps: seq<MemRange>, a: nat, b: nat)
    requires Sorted(rs) && Sorted(ps) && i < |rs| && forall p :: 0 <= p < |ps| ==> Contains(rs[i], ps[p])
    requires a < b < |rs| + |ps| - 1
    ensures var ts := rs[..i] + ps + rs[i + 1..]; ts[a].End() <= ts[b].phys && ts[a].size > 0 && ts[b].size > 0
  {
    var ts := rs[..i] + ps + rs[i + 1..];
    assert ts[a] == if a < i then rs[a] else if a < i + |ps| then ps[a - i] else rs[a - |ps| + 1];
    assert ts[b] == if b < i then rs[b] else if b < i + |ps| then ps[b - i] else rs[b - |ps| + 1];
  }

  lemma ReplacedSorted(rs: seq<MemRange>, i: nat, x: MemRange)
    requires Sorted(rs) && i < |rs| && x.size > 0 && Contains(rs[i], x)
    ensures Sorted(rs[..i] + Pieces(rs[i], x) + rs[i + 1..])
  {
    hide Contains;
    var ps := Pieces(rs[i], x);
    PieceBounds(rs[i], x);
    var ts := rs[..i] + ps + rs[i + 1..];
    forall a, b | 0 <= a < b < |ts|
      ensures ts[a].End() <= ts[b].phys && ts[a].size > 0 && ts[b].size > 0
    {
      ReplacedOrder(rs, i, ps, a, b);
    }
    if |ts| == 1 { assert ts == ps; }
  }

  /** A range disjoint from all others splits the map at its place. */
  lemma Gap(rs: seq<MemRange>, x: MemRange)
    requires Sorted(rs) && x.size > 0 && forall k :: 0 <= k < |rs| ==> Disjoint(rs[k], x)
    ensures var j := FirstBehind(rs, x);
            && (forall k :: 0 <= k < j ==> rs[k].End() <= x.phys)
            && (forall k :: j <= k < |rs| ==> x.End() <= rs[k].phys)
  {
    var j := FirstBehind(rs, x);
    forall k | j <= k < |rs|
      ensures x.End() <= rs[k].phys
    {
      if j < k { assert rs[j].End() <= rs[k].phys; }
    }
  }

  lemma InsertedOrder(rs: seq<MemRange>, x: MemRange, j: nat, a: nat, b: nat)
    requires Sorted(rs) && x.size > 0 && j <= |rs| && a < b <= |rs|
    requires forall k :: 0 <= k < j ==> rs[k].End() <= x.phys
    requires forall k :: j <= k < |rs| ==> x.End() <= rs[k].phys
    ensures var ts := rs[..j] + [x] + rs[j..];
            ts[a].End() <= ts[b].phys && ts[a].size > 0 && ts[b].size > 0
  {
    var ts := rs[..j] + [x] + rs[j..];
    assert ts[a] == if a < j then rs[a] else if a == j then x else rs[a - 1];
    assert ts[b] == if b < j then rs[b] else if b == j then x else rs[b - 1];
  }

  lemma InsertedSorted(rs: seq<MemRange>, x: MemRange)
    requires Sorted(rs) && x.size > 0 && forall k :: 0 <= k < |rs| ==> Disjoint(rs[k], x)
    ensures var j := FirstBehind(rs, x); Sorted(rs[..j] + [x] + rs[j..])
  {
    hide Disjoint;
    var j := FirstBehind(rs, x);
    Gap(rs, x);
    var ts := rs[..j] + [x] + rs[j..];
    forall a, b | 0 <= a < b < |ts|
      ensures ts[a].End() <= ts[b].phys && ts[a].size > 0 && ts[b].size > 0
    {
      InsertedOrder(rs, x, j, a, b);
    }
    if |ts| == 1 { assert ts == [x]; }
  }

  /** Type and virtual address found for an address. */
  function Attributes(r: Option<MemRange>): Option<(u64, nat)> {
    match r
    case None => None
    case Some(r) => Some((r.virt, r.kind))
  }

  /** A fitting range is a pointwise update of a sorted map, and leaves it sorted. */
  lemma UpdateIsPointwise(rs: seq<MemRange>, x: MemRange, addr: nat)
    requires Sorted(rs) && x.size > 0 && Fitting(rs, x)
    ensures Update(rs, x).Done? && Sorted(Update(rs, x).ranges)
    ensures Attributes(Find(Update(rs, x).ranges, addr)) ==
            if x.Covers(addr) then Some((x.virt, x.kind)) else Attributes(Find(rs, addr))
  {
    FittingCases(rs, x);
    var i := FirstHit(rs, x);
    if i < |rs| {
      ReplacedSorted(rs, i, x);
      ReplacedFind(rs, i, x, addr);
    } else {
      InsertedSorted(rs, x);
      InsertedFind(rs, x, addr);
    }
  }

  /** What stands at place a of a map in which ps took the place of range i. */
  lemma ReplacedAt(rs: seq<MemRange>, i: nat, ps: seq<MemRange>, a: nat)
    requires i < |rs| && a < |rs| + |ps| - 1
    ensures (rs[..i] + ps + rs[i + 1..])[a] ==
            if a < i then rs[a] else if a < i + |ps| then ps[a - i] else rs[a - |ps| + 1]
  {
  }

  /** The piece that covers an address of the replaced range. */
  lemma CoveringPiece(r: MemRange, x: MemRange, addr: nat) returns (p: nat)
    requires x.size > 0 && Contains(r, x) && r.Covers(addr)
    ensures var ps := Pieces(r, x);
            && p < |ps| && ps[p].Covers(addr)
            && (if x.Covers(addr) then ps[p] == x else ps[p].virt == r.virt && ps[p].kind == r.kind)
  {
    var ps, front := Pieces(r, x), if x.phys > r.phys then 1 else 0;
    assert ps[front] == x;
    p := if addr < x.phys then 0 else if x.Covers(addr) then front else front + 1;
  }

  lemma CoversWithin(r: MemRange, x: MemRange, addr: nat)
    requires Contains(r, x) && x.Covers(addr)
    ensures r.Covers(addr)
  {
  }

  lemma ReplacedFind(rs: seq<MemRange>, i: nat, x: MemRange, addr: nat)
    requires Sorted(rs) && i < |rs| && x.size > 0 && Contains(rs[i], x)
    ensures var ts := rs[..i] + Pieces(rs[i], x) + rs[i + 1..];
            Attributes(Find(ts, addr)) == if x.Covers(addr) then Some((x.virt, x.kind)) else Attributes(Find(rs, addr))
  {
    hide Sorted, Contains, Pieces, Find, AnyRange.Covers;
    var ps, r := Pieces(rs[i], x), rs[i];
    var ts := rs[..i] + ps + rs[i + 1..];
    ReplacedSorted(rs, i, x);
    PieceBounds(r, x);
    var k := FindInvert(rs, addr);
    if x.Covers(addr) { CoversWithin(r, x, addr); }
    if r.Covers(addr) {
      FindCovering(rs, i, addr);
      var p := CoveringPiece(r, x, addr);
      ReplacedAt(rs, i, ps, i + p);
      FindCovering(ts, i + p, addr);
    } else if Find(rs, addr) == None {
      forall a | 0 <= a < |ts|
        ensures !ts[a].Covers(addr)
      {
        ReplacedAt(rs, i, ps, a);
        if i <= a < i + |ps| && ps[a - i].Covers(addr) { CoversWithin(r, ps[a - i], addr); }
      }
      FindMissing(ts, addr);
    } else {
      var a := if k < i then k else k + |ps| - 1;
      ReplacedAt(rs, i, ps, a);
      FindCovering(ts, a, addr);
    }
  }

  lemma InsertedFind(rs: seq<MemRange>, x: MemRange, addr: nat)
    requires Sorted(rs) && x.size > 0 && forall k :: 0 <= k < |rs| ==> Disjoint(rs[k], x)
    ensures var j := FirstBehind(rs, x);
            var ts := rs[..j] + [x] + rs[j..];
            Find(ts, addr) == if x.Covers(addr) then Some(x) else Find(rs, addr)
  {
    hide Find, FirstBehind, Sorted;
    var j := FirstBehind(rs, x);
    var ts := rs[..j] + [x] + rs[j..];
    InsertedSorted(rs, x);
    var k := FindInvert(rs, addr);
    if x.Covers(addr) {
      InsertedAt(rs, j, x, j);
      FindCovering(ts, j, addr);
    } else if Find(rs, addr) == None {
      forall a | 0 <= a < |ts|
        ensures !ts[a].Covers(addr)
      {
        InsertedAt(rs, j, x, a);
      }
      FindMissing(ts, addr);
    } else {
      var a := if k < j then k else k + 1;
      InsertedAt(rs, j, x, a);
      FindCovering(ts, a, addr);
    }
  }

  lemma InsertedAt(rs: seq<MemRange>, j: nat, x: MemRange, a: nat)
    requires j <= |rs| && a <= |rs|
    ensures (rs[..j] + [x] + rs[j..])[a] == if a < j then rs[a] else if a == j then x else rs[a - 1]
  {
  }

  /** The map after a run of updates from the empty map, unless one of them panics. */
  function MapAfter(xs: seq<MemRange>): Option<seq<MemRange>> {
    if xs == [] then Some([]) else
    match MapAfter(xs[..|xs| - 1])
    case None => None
    case Some(rs) =>
      match Update(rs, xs[|xs| - 1])
      case Panic => None
      case Done(ts, _) => Some(ts)
  }

  /** Every range of the run fits the map it is given to. */
  ghost predicate AllFit(xs: seq<MemRange>) {
    xs != [] ==>
      var init, x := xs[..|xs| - 1], xs[|xs| - 1];
      AllFit(init) && x.size > 0 && MapAfter(init).Some? && Fitting(MapAfter(init).value, x)
  }

  /** The attributes an address was last given. */
  function LastGiven(xs: seq<MemRange>, addr: nat): Option<(u64, nat)> {
    if xs == [] then None
    else if xs[|xs| - 1].Covers(addr) then Some((xs[|xs| - 1].virt, xs[|xs| - 1].kind))
    else LastGiven(xs[..|xs| - 1], addr)
  }

  /** Over a run of fitting updates the map stays sorted and every address has what it was last given. */
  lemma {:induction false} LastUpdateWins(xs: seq<MemRange>, addr: nat)
    requires AllFit(xs)
    ensures MapAfter(xs).Some? && Sorted(MapAfter(xs).value)
    ensures Attributes(Find(MapAfter(xs).value, addr)) == LastGiven(xs, addr)
  {
    if xs != [] {
      LastUpdateWins(xs[..|xs| - 1], addr);
      UpdateIsPointwise(MapAfter(xs[..|xs| - 1]).value, xs[|xs| - 1], addr);
    }
  }

  /** Exactly the fitting ranges are updates: any other one panics or leaves overlapping ranges behind. */
  lemma UpdateSoundIff(rs: seq<MemRange>, x: MemRange)
    requires Sorted(rs) && x.size > 0
    ensures Update(rs, x).Done? && Sorted(Update(rs, x).ranges) <==> Fitting(rs, x)
  {
    if Fitting(rs, x) {
      UpdateIsPointwise(rs, x, 0);
    }
    var i := FirstHit(rs, x);
    if i == |rs| && Sorted(Update(rs, x).ranges) {
      var j := FirstBehind(rs, x);
      var ts := rs[..j] + [x] + rs[j..];
      forall k | 0 <= k < |rs|
        ensures Disjoint(rs[k], x) && x.End() != rs[k].phys
      {
        assert ts[j] == x && ts[if k < j then k else k + 1] == rs[k];
      }
    }
  }

  lemma HitIff(rs: seq<MemRange>, x: MemRange)
    ensures FirstHit(rs, x) < |rs| <==>
            exists i :: 0 <= i < |rs| && (rs[i].phys <= x.phys < rs[i].phys + rs[i].size
                                          || rs[i].phys <= x.phys + x.size < rs[i].phys + rs[i].size)
  {
    var n := FirstHit(rs, x);
    if n < |rs| {
      assert Intersects(rs[n], x);
    } else {
      forall i | 0 <= i < |rs|
        ensures !(rs[i].phys <= x.phys < rs[i].phys + rs[i].size
                  || rs[i].phys <= x.phys + x.size < rs[i].phys + rs[i].size)
      {
        assert !Intersects(rs[i], x);
      }
    }
  }

  lemma InsideIff(rs: seq<MemRange>, x: MemRange)
    requires Sorted(rs) && x.size > 0
    ensures var n := FirstHit(rs, x);
            n < |rs| && Contains(rs[n], x) <==>
            exists i :: 0 <= i < |rs| && rs[i].phys <= x.phys && x.phys + x.size <= rs[i].phys + rs[i].size
  {
    var n := FirstHit(rs, x);
    if n < |rs| && Contains(rs[n], x) {
      assert rs[n].phys <= x.phys && x.phys + x.size <= rs[n].phys + rs[n].size;
    }
    if i :| 0 <= i < |rs| && rs[i].phys <= x.phys && x.phys + x.size <= rs[i].phys + rs[i].size {
      assert Contains(rs[i], x) && Intersects(rs[i], x);
      FittingCases(rs, x);
    }
  }

  /**
    * mem_update_range panics exactly when the range begins or ends in another one, or ends where another begins,
    * and lies in none. Otherwise the result is true when it lies in a range or in front of one, and false when it
    * is added at the end.
    */
  lemma UpdateOutcomes(rs: seq<MemRange>, x: MemRange)
    requires Sorted(rs) && x.size > 0
    ensures var a, b := x.phys, x.phys + x.size;
            var inside := exists i :: 0 <= i < |rs| && rs[i].phys <= a && b <= rs[i].phys + rs[i].size;
            var touching := exists i :: 0 <= i < |rs| && (rs[i].phys <= a < rs[i].phys + rs[i].size
                                                          || rs[i].phys <= b < rs[i].phys + rs[i].size);
            var before := exists i :: 0 <= i < |rs| && b <= rs[i].phys;
            && (Update(rs, x) == Panic <==> touching && !inside)
            && (Update(rs, x).Done? ==> (Update(rs, x).result <==> inside || before))
            && (Update(rs, x).Done? && !Update(rs, x).result ==> Update(rs, x).ranges == rs + [x])
  {
    hide Sorted, Contains, Pieces, FirstHit, FirstBehind;
    HitIff(rs, x);
    InsideIff(rs, x);
    BehindIff(rs, x);
    assert rs[..|rs|] + [x] + rs[|rs|..] == rs + [x];
  }

  lemma BehindIff(rs: seq<MemRange>, x: MemRange)
    ensures FirstBehind(rs, x) < |rs| <==> exists i :: 0 <= i < |rs| && x.phys + x.size <= rs[i].phys
  {
  }

  /** A range that ends where another begins is not accepted, although the two are disjoint. */
  lemma TouchingRangePanics()
    ensures var (r, x) := (MemRange(0x2000, 0, 0x1000, 1), MemRange(0x1000, 0, 0x1000, 2));
            Sorted([r]) && Disjoint(r, x) && Update([r], x) == Panic
  {
  }

  /** A range that covers another one is stored beside it. */
  lemma CoveringRangeOverlaps()
    ensures var (r, x) := (MemRange(0x2000, 0, 0x1000, 1), MemRange(0x1000, 0, 0x3000, 2));
            Sorted([r]) && Update([r], x) == Done([r, x], false) && !Sorted([r, x])
  {
    var r, x: MemRange := MemRange(0x2000, 0, 0x1000, 1), MemRange(0x1000, 0, 0x3000, 2);
    assert [r][1..] == [];
    assert FirstHit([r], x) == 1 && FirstBehind([r], x) == 1;
    assert [r, x][0].End() > [r, x][1].phys;
  }

  // ---- the list ----

  ghost function Values(nodes: seq<Node<MemRange>>): (rs: seq<MemRange>)
    ensures |rs| == |nodes| && forall i {:trigger rs[i]} {:trigger nodes[i]} :: 0 <= i < |rs| ==> rs[i] == nodes[i].val
  {
    seq(|nodes|, i requires 0 <= i < |nodes| => nodes[i].val)
  }

  lemma FirstHitIs(rs: seq<MemRange>, x: MemRange, i: nat)
    requires i <= |rs| && (forall j :: 0 <= j < i ==> !Intersects(rs[j], x)) && (i < |rs| ==> Intersects(rs[i], x))
    ensures FirstHit(rs, x) == i
  {
  }

  lemma FirstBehindIs(rs: seq<MemRange>, x: MemRange, i: nat)
    requires i <= |rs| && (forall j :: 0 <= j < i ==> x.End() > rs[j].phys) && (i < |rs| ==> x.End() <= rs[i].phys)
    ensures FirstBehind(rs, x) == i
  {
  }

  /** The map with ps behind range i. */
  ghost function Behind(rs: seq<MemRange>, i: nat, ps: seq<MemRange>): seq<MemRange>
    requires i < |rs|
  {
    rs[..i + 1] + ps + rs[i + 1..]
  }

  lemma BehindTwice(rs: seq<MemRange>, i: nat, ps: seq<MemRange>, qs: seq<MemRange>)
    requires i < |rs|
    ensures Behind(rs, i, []) == rs && Behind(Behind(rs, i, ps), i, qs) == Behind(rs, i, qs + ps)
  {
  }

  lemma BehindRemoved(rs: seq<MemRange>, i: nat, ps: seq<MemRange>)
    requires i < |rs|
    ensures RemoveAt(Behind(rs, i, ps), i) == rs[..i] + ps + rs[i + 1..]
  {
  }

  class MemoryMap {
    const ranges: List<MemRange>

    constructor ()
      ensures fresh(ranges) && Valid() && Contents() == []
    {
      ranges := new List();
    }

    ghost predicate Valid()
      reads ranges, ranges.nodes
    {
      ranges.Valid()
    }

    ghost function Contents(): (rs: seq<MemRange>)
      reads ranges
    {
      Values(ranges.nodes)
    }

    /** mem_find_range */
    method FindRange(addr: u64) returns (r: Option<MemRange>)
      requires Valid()
      ensures r == Find(Contents(), addr)
    {
      var n := ranges.head;
      ghost var i := 0;
      while n != null
        invariant 0 <= i <= |ranges.nodes|
        invariant n == if i < |ranges.nodes| then ranges.nodes[i] else null
        invariant Find(Contents(), addr) == Find(Contents()[i..], addr)
        decreases |ranges.nodes| - i
      {
        if n.val.phys <= addr < n.val.phys + n.val.size {
          return Some(n.val);
        }
        assert Contents()[i..][1..] == Contents()[i + 1..];
        n, i := n.next, i + 1;
      }
      r := None;
    }

    /** mem_update_range */
    method UpdateRange(x: MemRange) returns (panicked: bool, result: bool)
      requires Valid() && |ranges.nodes| + 3 < SIZE_LIMIT
      modifies ranges, ranges.nodes
      ensures Valid()
      ensures match Update(old(Contents()), x)
              case Panic => panicked && Contents() == old(Contents())
              case Done(rs, b) => !panicked && result == b && Contents() == rs
    {
      var n := ranges.head;
      ghost var rs := Contents();
      ghost var i := 0;
      while n != null
        invariant 0 <= i <= |ranges.nodes|
        invariant n == if i < |ranges.nodes| then ranges.nodes[i] else null
        invariant forall j :: 0 <= j < i ==> !Intersects(rs[j], x)
        decreases |ranges.nodes| - i
      {
        if Intersects(n.val, x) {
          FirstHitIs(rs, x, i);
          if !Contains(n.val, x) {
            return true, false;
          }
          SplitRange(n, x, i);
          return false, true;
        }
        n, i := n.next, i + 1;
      }
      FirstHitIs(rs, x, i);
      panicked := false;
      result := Place(x);
    }

    /** A new range behind range i. */
    method NewAfter(n: Node<MemRange>, x: MemRange, ghost i: nat)
      requires Valid() && |ranges.nodes| + 1 < SIZE_LIMIT && i < |ranges.nodes| && ranges.nodes[i] == n
      modifies ranges, ranges.nodes
      ensures Valid() && fresh(set m <- ranges.nodes | m !in old(ranges.nodes))
      ensures |ranges.nodes| == |old(ranges.nodes)| + 1 && ranges.nodes[i] == n
      ensures Contents() == Behind(old(Contents()), i, [x])
    {
      hide List.Valid;
      ghost var rs := Contents();
      var nr := new Node<MemRange>(x);
      AddAfter(n, nr, ranges, i);
      assert Contents() == InsertAt(rs, i + 1, x);
    }

    /** The branch of mem_update_range for a range that contains x. */
    method SplitRange(n: Node<MemRange>, x: MemRange, ghost i: nat)
      requires Valid() && |ranges.nodes| + 3 < SIZE_LIMIT && i < |ranges.nodes| && ranges.nodes[i] == n
               && Contains(n.val, x)
      modifies ranges, ranges.nodes
      ensures Valid()
      ensures Contents() == var rs := old(Contents()); rs[..i] + Pieces(rs[i], x) + rs[i + 1..]
    {
      hide List.Valid, RemoveAt, Behind;
      ghost var rs := Contents();
      var r := n.val;
      BehindTwice(rs, i, [], []);
      if r.End() > x.End() {
        NewAfter(n, MemRange(x.End(), r.virt, r.End() - x.End(), r.kind), i);
      }
      assert Contents() == Behind(rs, i, Suffix(r, x));
      BehindTwice(rs, i, Suffix(r, x), [x]);
      NewAfter(n, x, i);
      BehindTwice(rs, i, [x] + Suffix(r, x), Prefix(r, x));
      if x.phys > r.phys {
        NewAfter(n, MemRange(r.phys, r.virt, x.phys - r.phys, r.kind), i);
      } else {
        BehindTwice(Contents(), i, [], []);
      }
      assert Contents() == Behind(rs, i, Pieces(r, x)) by {
        assert Prefix(r, x) + ([x] + Suffix(r, x)) == Pieces(r, x);
      }
      BehindRemoved(rs, i, Pieces(r, x));
      RemoveRange(n, i);
    }

    /** dll_remove of range i. */
    method RemoveRange(n: Node<MemRange>, ghost i: nat)
      requires Valid() && i < |ranges.nodes| && ranges.nodes[i] == n
      modifies ranges, ranges.nodes
      ensures Valid() && Contents() == RemoveAt(old(Contents()), i)
    {
      hide List.Valid;
      ghost var rs := Contents();
      var _ := Remove(n, ranges, i);
      assert Contents() == RemoveAt(rs, i);
    }

    /** The second loop of mem_update_range. */
    method Place(x: MemRange) returns (result: bool)
      requires Valid() && |ranges.nodes| + 1 < SIZE_LIMIT
      modifies ranges, ranges.nodes
      ensures Valid()
      ensures var rs := old(Contents());
              var j := FirstBehind(rs, x);
              Contents() == rs[..j] + [x] + rs[j..] && result == (j < |rs|)
    {
      var n := ranges.head;
      ghost var rs := Contents();
      ghost var i := 0;
      while n != null && x.End() > n.val.phys
        invariant 0 <= i <= |ranges.nodes|
        invariant n == if i < |ranges.nodes| then ranges.nodes[i] else null
        invariant forall j :: 0 <= j < i ==> x.End() > rs[j].phys
        decreases |ranges.nodes| - i
      {
        n, i := n.next, i + 1;
      }
      FirstBehindIs(rs, x, i);
      result := n != null;
      if n != null {
        NewBefore(n, x, i);
      } else {
        NewTail(x);
        assert rs[i..] == [];
      }
    }

    /** A new range in front of range i. */
    method NewBefore(n: Node<MemRange>, x: MemRange, ghost i: nat)
      requires Valid() && |ranges.nodes| + 1 < SIZE_LIMIT && i < |ranges.nodes| && ranges.nodes[i] == n
      modifies ranges, ranges.nodes
      ensures Valid() && Contents() == old(Contents())[..i] + [x] + old(Contents())[i..]
    {
      hide List.Valid;
      ghost var rs := Contents();
      var nr := new Node<MemRange>(x);
      AddBefore(n, nr, ranges, i);
      assert Contents() == InsertAt(rs, i, x);
    }

    /** A new range behind all others. */
    method NewTail(x: MemRange)
      requires Valid() && |ranges.nodes| + 1 < SIZE_LIMIT
      modifies ranges, ranges.nodes
      ensures Valid() && Contents() == old(Contents()) + [x]
    {
      hide List.Valid;
      var nr := new Node<MemRange>(x);
      ranges.AddTail(nr);
    }
  }
}
