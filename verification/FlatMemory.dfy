/** A flat memory of bytes, with little-endian words, and the circular lists that live in it. */
module FlatMemory {
  import opened Common
  import opened Machine

  type Memory = seq<byte>

  function LittleEndian(bs: seq<byte>): nat {
    if bs == [] then 0 else bs[0] + 256 * LittleEndian(bs[1..])
  }

  function Bytes(v: nat, n: nat): (bs: seq<byte>)
    ensures |bs| == n
  {
    if n == 0 then [] else [v % 256] + Bytes(v / 256, n - 1)
  }

  lemma BytePowers()
    ensures Power(256, 8) == TWO_64 && Power(256, 4) == TWO_32
  {
    assert Power(256, 4) == TWO_32;
    assert Power(256, 6) == 0x1_0000_0000_0000;
  }

  lemma {:induction false} ValueOfBytes(v: nat, n: nat)
    requires v < Power(256, n)
    ensures LittleEndian(Bytes(v, n)) == v
  {
    if n > 0 {
      assert Bytes(v, n)[1..] == Bytes(v / 256, n - 1);
      ValueOfBytes(v / 256, n - 1);
    }
  }

  /** The unsigned n-byte integer at address a. */
  function Load(m: Memory, a: nat, n: nat): nat
    requires a + n <= |m|
  {
    LittleEndian(m[a..a + n])
  }

  function Store(m: Memory, a: nat, n: nat, v: nat): (m': Memory)
    requires a + n <= |m|
    ensures |m'| == |m|
    ensures forall b :: 0 <= b < |m| && (b < a || a + n <= b) ==> m'[b] == m[b]
  {
    m[..a] + Bytes(v, n) + m[a + n..]
  }

  lemma LoadSame(m: Memory, m': Memory, a: nat, n: nat)
    requires |m'| == |m| && a + n <= |m|
    requires forall b :: a <= b < a + n ==> m'[b] == m[b]
    ensures Load(m', a, n) == Load(m, a, n)
  {
    assert m'[a..a + n] == m[a..a + n];
  }

  /** What a pointer store does to every pointer field that does not straddle it. */
  lemma StorePointer(m: Memory, a: nat, v: nat)
    requires a + 8 <= |m| && v < TWO_64
    ensures Load(Store(m, a, 8, v), a, 8) == v
    ensures forall f {:trigger Load(Store(m, a, 8, v), f, 8)} | 0 <= f && f + 8 <= |m| && (f + 8 <= a || a + 8 <= f) ::
              Load(Store(m, a, 8, v), f, 8) == Load(m, f, 8)
  {
    BytePowers();
    ValueOfBytes(v, 8);
    assert Store(m, a, 8, v)[a..a + 8] == Bytes(v, 8);
    forall f | 0 <= f && f + 8 <= |m| && (f + 8 <= a || a + 8 <= f)
      ensures Load(Store(m, a, 8, v), f, 8) == Load(m, f, 8)
    {
      LoadSame(m, Store(m, a, 8, v), f, 8);
    }
  }

  lemma StoreInt(m: Memory, a: nat, v: nat)
    requires a + 4 <= |m| && v < TWO_32
    ensures Load(Store(m, a, 4, v), a, 4) == v
  {
    BytePowers();
    ValueOfBytes(v, 4);
    assert Store(m, a, 4, v)[a..a + 4] == Bytes(v, 4);
  }

  // ---- circular doubly linked lists of dlist nodes: `next` at offset 0, `prev` at offset 8 ----

  const NODE := 16

  function Next(m: Memory, x: nat): nat
    requires x + NODE <= |m|
  {
    Load(m, x, 8)
  }

  function Prev(m: Memory, x: nat): nat
    requires x + NODE <= |m|
  {
    Load(m, x + 8, 8)
  }

  function IndexAfter(i: nat, n: nat): nat { if i + 1 == n then 0 else i + 1 }

  function IndexBefore(i: nat, n: nat): nat
    requires n > 0
  {
    if i == 0 then n - 1 else i - 1
  }

  ghost predicate Spaced(s: seq<nat>) {
    forall i, j :: 0 <= i < j < |s| ==> s[i] + NODE <= s[j] || s[j] + NODE <= s[i]
  }

  ghost predicate InMemory(m: Memory, s: seq<nat>) {
    |m| <= TWO_64 && forall i :: 0 <= i < |s| ==> s[i] + NODE <= |m|
  }

  /** The nodes at the addresses of s, in this order, form one circular list. */
  ghost predicate Ring(m: Memory, s: seq<nat>) {
    && s != [] && Spaced(s) && InMemory(m, s)
    && (forall i {:trigger Next(m, s[i])} :: 0 <= i < |s| ==> Next(m, s[i]) == s[IndexAfter(i, |s|)])
    && (forall i {:trigger Prev(m, s[i])} :: 0 <= i < |s| ==> Prev(m, s[i]) == s[IndexBefore(i, |s|)])
  }

  /** No byte outside the nodes at the addresses of ns differs. */
  ghost predicate SameOutside(m: Memory, m': Memory, ns: seq<nat>) {
    |m'| == |m| && forall b :: 0 <= b < |m| && Clear(b, ns) ==> m'[b] == m[b]
  }

  ghost predicate Clear(b: nat, ns: seq<nat>) {
    forall i :: 0 <= i < |ns| ==> b < ns[i] || ns[i] + NODE <= b
  }

  /** The four stores that put node d between e and n. */
  function Linked(m: Memory, e: nat, d: nat, n: nat): (m': Memory)
    requires e + NODE <= |m| && d + NODE <= |m| && n + NODE <= |m|
    ensures |m'| == |m|
  {
    Store(Store(Store(Store(m, e, 8, d), d + 8, 8, e), d, 8, n), n + 8, 8, d)
  }

  /** The four stores that take node d out from between e and n and close it on itself. */
  function Unlinked(m: Memory, e: nat, d: nat, n: nat): (m': Memory)
    requires e + NODE <= |m| && d + NODE <= |m| && n + NODE <= |m|
    ensures |m'| == |m|
  {
    Store(Store(Store(Store(m, e, 8, n), n + 8, 8, e), d, 8, d), d + 8, 8, d)
  }

  ghost predicate Distinct(a: nat, b: nat) { a + NODE <= b || b + NODE <= a }

  ghost predicate Apart(a: nat, b: nat) { a == b || Distinct(a, b) }

  lemma LinkedFields(m: Memory, e: nat, d: nat, n: nat)
    requires |m| <= TWO_64 && e + NODE <= |m| && d + NODE <= |m| && n + NODE <= |m|
    requires Distinct(e, d) && Distinct(n, d) && (e == n || Distinct(e, n))
    ensures var m' := Linked(m, e, d, n);
            && Next(m', e) == d && Next(m', d) == n && Prev(m', n) == d && Prev(m', d) == e
            && (forall x {:trigger Next(m', x)} |
                  0 <= x && x + NODE <= |m| && Distinct(x, d) && Distinct(x, e) && Apart(x, n) ::
                  Next(m', x) == Next(m, x))
            && (forall x {:trigger Prev(m', x)} |
                  0 <= x && x + NODE <= |m| && Distinct(x, d) && Distinct(x, n) && Apart(x, e) ::
                  Prev(m', x) == Prev(m, x))
            && SameOutside(m, m', [e, d, n])
  {
    hide Load, Store;
    var m1 := Store(m, e, 8, d);
    var m2 := Store(m1, d + 8, 8, e);
    var m3 := Store(m2, d, 8, n);
    StorePointer(m, e, d);
    StorePointer(m1, d + 8, e);
    StorePointer(m2, d, n);
    StorePointer(m3, n + 8, d);
    forall b | 0 <= b < |m| && Clear(b, [e, d, n])
      ensures Linked(m, e, d, n)[b] == m[b]
    {
      assert [e, d, n][0] == e && [e, d, n][1] == d && [e, d, n][2] == n;
    }
  }

  lemma UnlinkedFields(m: Memory, e: nat, d: nat, n: nat)
    requires |m| <= TWO_64 && e + NODE <= |m| && d + NODE <= |m| && n + NODE <= |m|
    requires e == d == n || (Distinct(e, d) && Distinct(n, d) && (e == n || Distinct(e, n)))
    ensures var m' := Unlinked(m, e, d, n);
            && Next(m', d) == d && Prev(m', d) == d
            && (e != d ==> Next(m', e) == n && Prev(m', n) == e)
            && (forall x {:trigger Next(m', x)} |
                  0 <= x && x + NODE <= |m| && Distinct(x, d) && Distinct(x, e) && Apart(x, n) ::
                  Next(m', x) == Next(m, x))
            && (forall x {:trigger Prev(m', x)} |
                  0 <= x && x + NODE <= |m| && Distinct(x, d) && Distinct(x, n) && Apart(x, e) ::
                  Prev(m', x) == Prev(m, x))
            && SameOutside(m, m', [e, d, n])
  {
    hide Load, Store;
    var m1 := Store(m, e, 8, n);
    var m2 := Store(m1, n + 8, 8, e);
    var m3 := Store(m2, d, 8, d);
    StorePointer(m, e, n);
    StorePointer(m1, n + 8, e);
    StorePointer(m2, d, d);
    StorePointer(m3, d + 8, d);
    forall b | 0 <= b < |m| && Clear(b, [e, d, n])
      ensures Unlinked(m, e, d, n)[b] == m[b]
    {
      assert [e, d, n][0] == e && [e, d, n][1] == d && [e, d, n][2] == n;
    }
  }

  /** The position after the gap at j, around the end of the ring. */
  function Gap(j: nat, n: nat): nat { if j == n then 0 else j }

  /** The fields of ring node o once d is linked in at position j. */
  lemma LinkedAt(m: Memory, s: seq<nat>, j: nat, d: nat, o: nat)
    requires Ring(m, s) && j <= |s| && d + NODE <= |m| && o < |s|
    requires forall i :: 0 <= i < |s| ==> Distinct(s[i], d)
    ensures var m' := Linked(m, s[IndexBefore(j, |s|)], d, s[Gap(j, |s|)]);
            && Next(m', s[o]) == (if o == IndexBefore(j, |s|) then d else s[IndexAfter(o, |s|)])
            && Prev(m', s[o]) == (if o == Gap(j, |s|) then d else s[IndexBefore(o, |s|)])
  {
    hide Next, Prev, Linked, Spaced;
    SpacedApart(s, IndexBefore(j, |s|), Gap(j, |s|));
    SpacedApart(s, o, IndexBefore(j, |s|));
    SpacedApart(s, o, Gap(j, |s|));
    LinkedFields(m, s[IndexBefore(j, |s|)], d, s[Gap(j, |s|)]);
  }

  lemma InsertedField(m: Memory, s: seq<nat>, j: nat, d: nat, i: nat)
    requires Ring(m, s) && j <= |s| && d + NODE <= |m| && i <= |s|
    requires forall i :: 0 <= i < |s| ==> Distinct(s[i], d)
    ensures var m', t := Linked(m, s[IndexBefore(j, |s|)], d, s[Gap(j, |s|)]), InsertAt(s, j, d);
            && t[i] + NODE <= |m|
            && Next(m', t[i]) == t[IndexAfter(i, |t|)] && Prev(m', t[i]) == t[IndexBefore(i, |t|)]
  {
    hide Next, Prev, Linked, SameOutside, Spaced;
    if i == j {
      SpacedApart(s, IndexBefore(j, |s|), Gap(j, |s|));
      LinkedFields(m, s[IndexBefore(j, |s|)], d, s[Gap(j, |s|)]);
    } else {
      LinkedAt(m, s, j, d, if i < j then i else i - 1);
    }
  }

  lemma InsertSpaced(s: seq<nat>, j: nat, d: nat)
    requires Spaced(s) && j <= |s|
    requires forall i :: 0 <= i < |s| ==> Distinct(s[i], d)
    ensures Spaced(InsertAt(s, j, d))
  {
  }

  /** Linking a lone node d in at position j of a ring. */
  lemma RingInsert(m: Memory, s: seq<nat>, j: nat, d: nat)
    requires Ring(m, s) && j <= |s| && d + NODE <= |m|
    requires forall i :: 0 <= i < |s| ==> Distinct(s[i], d)
    ensures var m' := Linked(m, s[IndexBefore(j, |s|)], d, s[Gap(j, |s|)]);
            Ring(m', InsertAt(s, j, d)) && SameOutside(m, m', s + [d])
  {
    hide Next, Prev, Linked, SameOutside, Spaced;
    InsertSpaced(s, j, d);
    var e, n := s[IndexBefore(j, |s|)], s[Gap(j, |s|)];
    var m', t := Linked(m, e, d, n), InsertAt(s, j, d);
    SpacedApart(s, IndexBefore(j, |s|), Gap(j, |s|));
    LinkedFields(m, e, d, n);
    SameWider(m, m', [e, d, n], s + [d], [IndexBefore(j, |s|), |s|, Gap(j, |s|)]);
    forall i | 0 <= i < |t|
      ensures t[i] + NODE <= |m|
      ensures Next(m', t[i]) == t[IndexAfter(i, |t|)] && Prev(m', t[i]) == t[IndexBefore(i, |t|)]
    {
      InsertedField(m, s, j, d, i);
    }
  }

  lemma SpacedApart(s: seq<nat>, i: nat, j: nat)
    requires Spaced(s) && i < |s| && j < |s|
    ensures if i == j then s[i] == s[j] else Distinct(s[i], s[j])
  {
  }

  /** at[i] says where in ns the i-th element of few is. */
  lemma SameWider(m: Memory, m': Memory, few: seq<nat>, ns: seq<nat>, at: seq<nat>)
    requires SameOutside(m, m', few) && |at| == |few|
    requires forall i :: 0 <= i < |few| ==> at[i] < |ns| && ns[at[i]] == few[i]
    ensures SameOutside(m, m', ns)
  {
    forall b | 0 <= b < |m| && Clear(b, ns)
      ensures Clear(b, few)
    {
    }
  }

  lemma LoneRing(m: Memory, d: nat)
    requires d + NODE <= |m| <= TWO_64 && Next(m, d) == d && Prev(m, d) == d
    ensures Ring(m, [d])
  {
  }

  /** The fields of another ring node o once node j is unlinked. */
  lemma UnlinkedAt(m: Memory, s: seq<nat>, j: nat, o: nat)
    requires Ring(m, s) && j < |s| && o < |s| && o != j
    ensures var m' := Unlinked(m, s[IndexBefore(j, |s|)], s[j], s[IndexAfter(j, |s|)]);
            && Next(m', s[o]) == (if o == IndexBefore(j, |s|) then s[IndexAfter(j, |s|)] else s[IndexAfter(o, |s|)])
            && Prev(m', s[o]) == (if o == IndexAfter(j, |s|) then s[IndexBefore(j, |s|)] else s[IndexBefore(o, |s|)])
  {
    hide Next, Prev, Unlinked, Spaced;
    UnlinkedOk(s, j);
    SpacedApart(s, o, j);
    SpacedApart(s, o, IndexBefore(j, |s|));
    SpacedApart(s, o, IndexAfter(j, |s|));
    UnlinkedFields(m, s[IndexBefore(j, |s|)], s[j], s[IndexAfter(j, |s|)]);
  }

  lemma UnlinkedOk(s: seq<nat>, j: nat)
    requires Spaced(s) && j < |s|
    ensures var (e, d, n) := (s[IndexBefore(j, |s|)], s[j], s[IndexAfter(j, |s|)]);
            if |s| == 1 then e == d == n else Distinct(e, d) && Distinct(n, d) && Apart(e, n)
  {
    SpacedApart(s, IndexBefore(j, |s|), j);
    SpacedApart(s, IndexAfter(j, |s|), j);
    SpacedApart(s, IndexBefore(j, |s|), IndexAfter(j, |s|));
  }

  lemma RemovedField(m: Memory, s: seq<nat>, j: nat, i: nat)
    requires Ring(m, s) && j < |s| && i < |s| - 1
    ensures var m', t := Unlinked(m, s[IndexBefore(j, |s|)], s[j], s[IndexAfter(j, |s|)]), RemoveAt(s, j);
            && t[i] + NODE <= |m|
            && Next(m', t[i]) == t[IndexAfter(i, |t|)] && Prev(m', t[i]) == t[IndexBefore(i, |t|)]
  {
    hide Next, Prev, Unlinked, SameOutside, Spaced;
    UnlinkedAt(m, s, j, if i < j then i else i + 1);
  }

  /** Unlinking node j of a ring. */
  lemma RingRemove(m: Memory, s: seq<nat>, j: nat)
    requires Ring(m, s) && j < |s|
    ensures var m' := Unlinked(m, s[IndexBefore(j, |s|)], s[j], s[IndexAfter(j, |s|)]);
            && Ring(m', [s[j]]) && SameOutside(m, m', s)
            && (|s| > 1 ==> Ring(m', RemoveAt(s, j)))
  {
    hide Next, Prev, Unlinked, SameOutside;
    var e, n := s[IndexBefore(j, |s|)], s[IndexAfter(j, |s|)];
    var m', t := Unlinked(m, e, s[j], n), RemoveAt(s, j);
    UnlinkedOk(s, j);
    UnlinkedFields(m, e, s[j], n);
    LoneRing(m', s[j]);
    SameWider(m, m', [e, s[j], n], s, [IndexBefore(j, |s|), j, IndexAfter(j, |s|)]);
    forall i | 0 <= i < |t|
      ensures t[i] + NODE <= |m|
      ensures Next(m', t[i]) == t[IndexAfter(i, |t|)] && Prev(m', t[i]) == t[IndexBefore(i, |t|)]
    {
      RemovedField(m, s, j, i);
    }
  }

  /** The two stores that close node d on itself. */
  lemma SelfLinked(m: Memory, d: nat)
    requires d + NODE <= |m| <= TWO_64
    ensures var m' := Store(Store(m, d, 8, d), d + 8, 8, d);
            Ring(m', [d]) && SameOutside(m, m', [d])
  {
    hide Load, Store;
    var m1 := Store(m, d, 8, d);
    var m' := Store(m1, d + 8, 8, d);
    StorePointer(m, d, d);
    StorePointer(m1, d + 8, d);
    LoneRing(m', d);
    forall b | 0 <= b < |m| && Clear(b, [d])
      ensures m'[b] == m[b]
    {
      assert [d][0] == d;
    }
  }

  /** A ring whose bytes are all kept stays. */
  lemma RingSame(m: Memory, m': Memory, s: seq<nat>)
    requires Ring(m, s) && |m'| == |m|
    requires forall i, b :: 0 <= i < |s| && s[i] <= b < s[i] + NODE ==> m'[b] == m[b]
    ensures Ring(m', s)
  {
    hide Next, Prev;
    forall i | 0 <= i < |s|
      ensures Next(m', s[i]) == Next(m, s[i]) && Prev(m', s[i]) == Prev(m, s[i])
    {
      NodeSame(m, m', s[i]);
    }
  }

  lemma NodeSame(m: Memory, m': Memory, x: nat)
    requires |m'| == |m| && x + NODE <= |m| && forall b {:trigger m'[b]} :: x <= b < x + NODE ==> m'[b] == m[b]
    ensures Next(m', x) == Next(m, x) && Prev(m', x) == Prev(m, x)
  {
    hide Load;
    LoadSame(m, m', x, 8);
    LoadSame(m, m', x + 8, 8);
  }

  /** A ring none of whose nodes is touched stays. */
  lemma RingKept(m: Memory, m': Memory, ns: seq<nat>, s: seq<nat>)
    requires Ring(m, s) && SameOutside(m, m', ns)
    requires forall i, j :: 0 <= i < |s| && 0 <= j < |ns| ==> Distinct(s[i], ns[j])
    ensures Ring(m', s)
  {
    forall i, b | 0 <= i < |s| && s[i] <= b < s[i] + NODE
      ensures m'[b] == m[b]
    {
      assert forall j :: 0 <= j < |ns| ==> Distinct(s[i], ns[j]);
      assert Clear(b, ns);
    }
    RingSame(m, m', s);
  }
}
