/** libc/sys/circ_buf.c: a deque of byte blocks in a ring that overwrites the other end when it is full. */
module CircBuf {
  import opened Common
  import opened Machine

  // ---- bounded deques ----

  /** The newest block at the tail; the oldest at the head gives way when there is no room. */
  function PushTail<T>(s: seq<T>, x: T, capacity: nat): (t: seq<T>)
    requires |s| <= capacity && capacity > 0
    ensures |t| <= capacity
  {
    (if |s| == capacity then s[1..] else s) + [x]
  }

  function PushHead<T>(s: seq<T>, x: T, capacity: nat): (t: seq<T>)
    requires |s| <= capacity && capacity > 0
    ensures |t| <= capacity
  {
    [x] + if |s| == capacity then s[..|s| - 1] else s
  }

  function PushAll<T>(s: seq<T>, xs: seq<T>, capacity: nat): (t: seq<T>)
    requires |s| <= capacity && capacity > 0
    ensures |t| <= capacity
    decreases |xs|
  {
    if xs == [] then s else PushAll(PushTail(s, xs[0], capacity), xs[1..], capacity)
  }

  /** After any number of pushes at the tail, the deque holds the last ones, in order. */
  lemma {:induction false} PushAllKeepsLast<T>(s: seq<T>, xs: seq<T>, capacity: nat)
    requires |s| <= capacity && capacity > 0
    ensures var all := s + xs;
            PushAll(s, xs, capacity) == if |all| <= capacity then all else all[|all| - capacity..]
    decreases |xs|
  {
    if xs == [] {
      assert s + xs == s;
    } else {
      var t := PushTail(s, xs[0], capacity);
      PushAllKeepsLast(t, xs[1..], capacity);
      var all := s + xs;
      assert t + xs[1..] == if |s| == capacity then all[1..] else all;
    }
  }

  function PushHeads<T>(s: seq<T>, xs: seq<T>, capacity: nat): (t: seq<T>)
    requires |s| <= capacity && capacity > 0
    ensures |t| <= capacity
    decreases |xs|
  {
    if xs == [] then s else PushHeads(PushHead(s, xs[0], capacity), xs[1..], capacity)
  }

  /** After any number of pushes at the head, the deque holds the last ones, the very last in front. */
  lemma {:induction false} PushHeadsKeepLast<T>(s: seq<T>, xs: seq<T>, capacity: nat)
    requires |s| <= capacity && capacity > 0
    ensures var all := Reversed(xs) + s;
            PushHeads(s, xs, capacity) == if |all| <= capacity then all else all[..capacity]
    decreases |xs|
  {
    hide PushHead;
    if xs == [] {
      assert Reversed(xs) + s == s;
    } else {
      var t := PushHead(s, xs[0], capacity);
      PushHeadsKeepLast(t, xs[1..], capacity);
      FirstPushed(s, xs[0], Reversed(xs[1..]), capacity);
      assert Reversed(xs) == Reversed(xs[1..]) + [xs[0]];
    }
  }

  lemma FirstPushed<T>(s: seq<T>, x: T, rest: seq<T>, capacity: nat)
    requires |s| <= capacity && capacity > 0
    ensures var all, more := rest + [x] + s, rest + PushHead(s, x, capacity);
            && (|all| <= capacity ==> more == all)
            && (|all| > capacity ==> |more| >= capacity && more[..capacity] == all[..capacity])
  {
  }

  // ---- places in the ring ----

  /** The place i blocks behind head. */
  function Place(head: nat, i: nat, capacity: nat): (p: nat)
    requires head < capacity && i <= capacity
    ensures p < capacity
  {
    if head + i < capacity then head + i else head + i - capacity
  }

  /** Place is addition modulo the capacity. */
  lemma PlaceIsModulo(head: nat, i: nat, capacity: nat)
    requires head < capacity && i <= capacity
    ensures Place(head, i, capacity) == (head + i) % capacity
  {
    if head + i < capacity {
      DivModUnique(head + i, capacity, 0, head + i);
    } else {
      DivModUnique(head + i, capacity, 1, head + i - capacity);
    }
  }

  /** The sums of two places and the capacity fit a size_t. */
  predicate SumsFit(capacity: nat) { 2 * capacity <= TWO_64 }

  /** What circ_buf_decrement_head and circ_buf_decrement_tail compute, in 64-bit arithmetic. */
  function Decremented(p: nat, capacity: nat): (q: nat)
    requires p < capacity
    ensures q < capacity
  {
    Wrap(p + capacity - 1) % capacity
  }

  /** It is one step back exactly when the sum does not wrap. */
  lemma DecrementedIff(p: nat, capacity: nat)
    requires p < capacity < TWO_64
    ensures Decremented(p, capacity) == (if p == 0 then capacity - 1 else p - 1) <==> p + capacity <= TWO_64
  {
    if p + capacity > TWO_64 {
      DivModUnique(p + capacity - 1, TWO_64, 1, p + capacity - 1 - TWO_64);
      DivModUnique(p + capacity - 1 - TWO_64, capacity, 0, p + capacity - 1 - TWO_64);
    } else if p == 0 {
      DivModUnique(capacity - 1, capacity, 0, capacity - 1);
    } else {
      DivModUnique(p + capacity - 1, capacity, 1, p - 1);
    }
  }

  /** One step back from place 2 in a ring of 2^64 - 1 places is place 0. */
  lemma DecrementWraps()
    ensures Decremented(2, TWO_64 - 1) == 0
  {
    DivModUnique(TWO_64, TWO_64, 1, 0);
  }

  function Previous(p: nat, capacity: nat): (q: nat)
    requires p < capacity && SumsFit(capacity)
    ensures q == if p == 0 then capacity - 1 else p - 1
  {
    DecrementedIff(p, capacity);
    Decremented(p, capacity)
  }

  /** What circ_buf_increment_head and circ_buf_increment_tail compute; the sum never wraps. */
  function Next(p: nat, capacity: nat): (q: nat)
    requires p < capacity < TWO_64
    ensures q == if p == capacity - 1 then 0 else p + 1
  {
    PlaceIsModulo(p, 1, capacity);
    Wrap(p + 1) % capacity
  }

  // ---- blocks in the buffer ----

  lemma BlockFits(p: nat, capacity: nat, g: nat)
    requires p < capacity
    ensures p * g + g <= capacity * g
  {
    assert (p + 1) * g <= capacity * g;
  }

  /** Block p of a buffer of `capacity` blocks of g bytes. */
  function Block(bytes: seq<byte>, p: nat, capacity: nat, g: nat): (b: seq<byte>)
    requires p < capacity && |bytes| == capacity * g
    ensures |b| == g
  {
    BlockFits(p, capacity, g);
    bytes[p * g..p * g + g]
  }

  lemma BlockAt(bytes: seq<byte>, p: nat, capacity: nat, g: nat)
    requires p < capacity && |bytes| == capacity * g
    ensures p * g + g <= |bytes| && Block(bytes, p, capacity, g) == bytes[p * g..p * g + g]
  {
    BlockFits(p, capacity, g);
  }

  /** The `size` blocks from head on. */
  function Blocks(bytes: seq<byte>, head: nat, size: nat, capacity: nat, g: nat): (s: seq<seq<byte>>)
    requires head < capacity && size <= capacity && |bytes| == capacity * g
    ensures |s| == size && forall i :: 0 <= i < |s| ==> s[i] == Block(bytes, Place(head, i, capacity), capacity, g)
  {
    seq(size, i requires 0 <= i < size => Block(bytes, Place(head, i, capacity), capacity, g))
  }

  /** Block p is val, and the other blocks are as before. */
  ghost predicate Written(before: seq<byte>, after: seq<byte>, p: nat, val: seq<byte>, capacity: nat, g: nat) {
    && p < capacity && |before| == |after| == capacity * g
    && Block(after, p, capacity, g) == val
    && forall q :: 0 <= q < capacity && q != p ==> Block(after, q, capacity, g) == Block(before, q, capacity, g)
  }

  lemma Apart(p: nat, q: nat, g: nat)
    requires p < q
    ensures p * g + g <= q * g
  {
    assert (p + 1) * g <= q * g;
  }

  /** Writing block p changes no other block. */
  lemma BlockWritten(before: seq<byte>, after: seq<byte>, p: nat, q: nat, capacity: nat, g: nat)
    requires p < capacity && q < capacity && p != q && |before| == |after| == capacity * g
    requires p * g + g <= |before| && after[..p * g] == before[..p * g] && after[p * g + g..] == before[p * g + g..]
    ensures Block(after, q, capacity, g) == Block(before, q, capacity, g)
  {
    hide Block;
    BlockAt(before, q, capacity, g);
    BlockAt(after, q, capacity, g);
    if q < p { Apart(q, p, g); } else { Apart(p, q, g); }
    SliceKept(before, after, p * g, q * g, g);
  }

  /** Bytes apart from the n bytes at i are kept when only these change. */
  lemma SliceKept(before: seq<byte>, after: seq<byte>, i: nat, j: nat, n: nat)
    requires |before| == |after| && i + n <= |before| && j + n <= |before| && (j + n <= i || i + n <= j)
    requires after[..i] == before[..i] && after[i + n..] == before[i + n..]
    ensures after[j..j + n] == before[j..j + n]
  {
    if j + n <= i {
      SliceOf(before, after, 0, i, j, n);
    } else {
      SliceOf(before, after, i + n, |before|, j, n);
    }
  }

  lemma SliceOf(before: seq<byte>, after: seq<byte>, a: nat, b: nat, i: nat, n: nat)
    requires |before| == |after| && a <= i && i + n <= b <= |before| && after[a..b] == before[a..b]
    ensures after[i..i + n] == before[i..i + n]
  {
    forall k | i <= k < i + n
      ensures after[k] == before[k]
    {
      assert after[a..b][k - a] == before[a..b][k - a];
    }
  }

  lemma CopiedIsWritten(before: seq<byte>, after: seq<byte>, p: nat, val: seq<byte>, capacity: nat, g: nat)
    requires p < capacity && |before| == capacity * g && |val| == g && p * g + g <= |before|
    requires after == before[..p * g] + val + before[p * g + g..]
    ensures Written(before, after, p, val, capacity, g)
  {
    forall q | 0 <= q < capacity && q != p
      ensures Block(after, q, capacity, g) == Block(before, q, capacity, g)
    {
      BlockWritten(before, after, p, q, capacity, g);
    }
  }

  /** A block written in front of head, which then is the new head, is a push at the head. */
  lemma WrittenHead(before: seq<byte>, after: seq<byte>, head: nat, size: nat, val: seq<byte>, capacity: nat, g: nat)
    requires head < capacity && size <= capacity && SumsFit(capacity)
    requires Written(before, after, Previous(head, capacity), val, capacity, g)
    ensures Blocks(after, Previous(head, capacity), if size < capacity then size + 1 else size, capacity, g)
         == PushHead(Blocks(before, head, size, capacity, g), val, capacity)
  {
    hide Block;
    var h := Previous(head, capacity);
    var s := Blocks(after, h, if size < capacity then size + 1 else size, capacity, g);
    forall i | 0 <= i < |s|
      ensures s[i] == PushHead(Blocks(before, head, size, capacity, g), val, capacity)[i]
    {
      if i > 0 { assert Place(h, i, capacity) == Place(head, i - 1, capacity) != h; }
    }
  }

  /** A block written at the tail is a push there; head moves on when the ring is full. */
  lemma WrittenTail(before: seq<byte>, after: seq<byte>, head: nat, size: nat, val: seq<byte>, capacity: nat, g: nat)
    requires head < capacity && size <= capacity && SumsFit(capacity)
    requires Written(before, after, Place(head, size, capacity), val, capacity, g)
    ensures (if size < capacity then Blocks(after, head, size + 1, capacity, g)
             else Blocks(after, Next(head, capacity), size, capacity, g))
         == PushTail(Blocks(before, head, size, capacity, g), val, capacity)
  {
    hide Block;
    var t := Place(head, size, capacity);
    if size < capacity {
      forall i | 0 <= i < size
        ensures Place(head, i, capacity) != t
      {
      }
    } else {
      var h := Next(head, capacity);
      forall i | 0 <= i < size - 1
        ensures Place(h, i, capacity) == Place(head, i + 1, capacity) != t
      {
      }
      assert Place(h, size - 1, capacity) == t;
    }
  }

  // ---- the functions that look at the tail ----

  /** The place circ_buf_peekn_tail looks at, in 64-bit arithmetic. */
  function PeekedPlace(tail: nat, n: nat, capacity: nat): nat
    requires capacity > 0
  {
    Wrap(Wrap(tail - n - 1) % capacity + capacity) % capacity
  }

  /** A wrapped place is the right one exactly when 2^64 leaves no remainder. */
  lemma WrappedPlace(y: nat, capacity: nat)
    requires y < capacity < TWO_64
    ensures (TWO_64 + y - capacity) % capacity == y <==> TWO_64 % capacity == 0
  {
    var q, r := TWO_64 / capacity, TWO_64 % capacity;
    assert TWO_64 == q * capacity + r;
    assert TWO_64 + y - capacity == y + r + (q - 1) * capacity;
    ModShift(y + r, q - 1, capacity);
    var carry := if y + r < capacity then 0 else 1;
    DivModUnique(y + r, capacity, carry, y + r - carry * capacity);
  }

  /** What the rest of the computation makes of the place in front, when the subtraction did not wrap. */
  lemma PlainPeek(y: nat, capacity: nat)
    requires y < capacity < TWO_64
    ensures Wrap(y % capacity + capacity) % capacity == y <==> y + capacity < TWO_64
  {
    DivModUnique(y, capacity, 0, y);
    if y + capacity < TWO_64 {
      DivModUnique(y + capacity, capacity, 1, y);
    } else {
      DivModUnique(y + capacity, TWO_64, 1, y + capacity - TWO_64);
      DivModUnique(y + capacity - TWO_64, capacity, 0, y + capacity - TWO_64);
    }
  }

  /** And when it did, in a ring whose sums fit. */
  lemma WrappedPeekFits(y: nat, capacity: nat)
    requires y < capacity && SumsFit(capacity)
    ensures Wrap((TWO_64 + y - capacity) % capacity + capacity) % capacity == y <==> TWO_64 % capacity == 0
  {
    hide Wrap;
    var r := (TWO_64 + y - capacity) % capacity;
    WrappedPlace(y, capacity);
    WrapWithin(r + capacity);
    DivModUnique(r + capacity, capacity, 1, r);
  }

  /** And in a larger one. */
  lemma WrappedPeekLarge(y: nat, capacity: nat)
    requires y < capacity < TWO_64 && !SumsFit(capacity)
    ensures Wrap((TWO_64 + y - capacity) % capacity + capacity) % capacity == y <==> TWO_64 + y < 2 * capacity
    ensures TWO_64 % capacity != 0
  {
    hide Wrap;
    var w := TWO_64 + y - capacity;
    DivModUnique(TWO_64, capacity, 1, TWO_64 - capacity);
    if w < capacity {
      DivModUnique(w, capacity, 0, w);
      WrapOver(w + capacity);
      DivModUnique(y, capacity, 0, y);
    } else {
      DivModUnique(w, capacity, 1, w - capacity);
      WrapWithin(w);
    }
  }

  lemma WrapOver(x: nat)
    requires TWO_64 <= x < 2 * TWO_64
    ensures Wrap(x) == x - TWO_64
  {
  }

  /**
   For every capacity: it is the n-th block from the tail exactly when neither sum nor difference wraps, or the
   difference does and the capacity divides 2^64, or both wrap and make up for each other.
   */
  lemma PeekedPlaceIff(head: nat, size: nat, n: nat, capacity: nat)
    requires head < capacity && n < size <= capacity < TWO_64
    ensures var tail := Place(head, size, capacity);
            var y := Place(head, size - 1 - n, capacity);
            PeekedPlace(tail, n, capacity) == y <==>
            if n < tail then y + capacity < TWO_64 else TWO_64 % capacity == 0 || TWO_64 + y < 2 * capacity
  {
    hide Wrap, Place;
    var tail := Place(head, size, capacity);
    var y := Place(head, size - 1 - n, capacity);
    PlacesApart(head, size, n, capacity);
    if n < tail {
      WrapWithin(tail - n - 1);
      assert tail - n - 1 == y;
      PlainPeek(y, capacity);
    } else {
      WrapOnce(tail - n - 1);
      assert tail - n - 1 == y - capacity;
      if SumsFit(capacity) { WrappedPeekFits(y, capacity); } else { WrappedPeekLarge(y, capacity); }
    }
  }

  lemma PlacesApart(head: nat, size: nat, n: nat, capacity: nat)
    requires head < capacity && n < size <= capacity
    ensures var tail := Place(head, size, capacity);
            Place(head, size - 1 - n, capacity) == if n < tail then tail - n - 1 else tail - n - 1 + capacity
  {
  }

  lemma WrapOnce(x: int)
    requires -TWO_64 <= x < 0
    ensures Wrap(x) == TWO_64 + x
  {
  }

  /** Where sums fit: unless the subtraction wraps and the capacity does not divide 2^64. */
  lemma PeekedPlaceFits(head: nat, size: nat, n: nat, capacity: nat)
    requires head < capacity && n < size <= capacity && SumsFit(capacity)
    ensures var tail := Place(head, size, capacity);
            PeekedPlace(tail, n, capacity) == Place(head, size - 1 - n, capacity) <==>
            n < tail || TWO_64 % capacity == 0
  {
    PeekedPlaceIff(head, size, n, capacity);
  }

  /** The offset circ_buf_peek_tail adds to the buffer. */
  function PeekedOffset(tail: nat, g: nat): u64 {
    Wrap(Wrap(tail - 1) * g)
  }

  /** It is the last block unless the tail is at the start of the buffer. */
  lemma PeekedOffsetIff(head: nat, size: nat, capacity: nat, g: nat)
    requires head < capacity && 0 < size <= capacity && 0 < g && capacity * g < TWO_64
    ensures var tail := Place(head, size, capacity);
            PeekedOffset(tail, g) == Place(head, size - 1, capacity) * g <==> tail > 0
  {
    hide PeekedOffset;
    var tail, last := Place(head, size, capacity), Place(head, size - 1, capacity);
    BlockFits(last, capacity, g);
    if tail > 0 {
      assert last == tail - 1;
      PeekedBack(tail, g);
    } else {
      PeekedWraps(g);
    }
  }

  lemma PeekedBack(tail: nat, g: nat)
    requires 0 < tail && 0 < g && (tail - 1) * g + g < TWO_64
    ensures PeekedOffset(tail, g) == (tail - 1) * g
  {
    hide Wrap;
    TimesAtLeast(tail - 1, g);
    WrapWithin(tail - 1);
    WrapWithin((tail - 1) * g);
  }

  lemma TimesAtLeast(x: nat, g: nat)
    requires g > 0
    ensures x <= x * g
  {
  }

  /** In a full ring of three blocks that begins at 0, both functions miss the last block. */
  lemma BothPeeksMiss(g: nat)
    requires 0 < g < 1000
    ensures Place(0, 3, 3) == 0 && Place(0, 2, 3) == 2
    ensures PeekedPlace(0, 0, 3) != 2 && PeekedOffset(0, g) != 2 * g
  {
    hide PeekedPlace, PeekedOffset;
    PeekedPlaceFits(0, 3, 0, 3);
    PeekedOffsetIff(0, 3, 3, g);
  }

  lemma PeekedWraps(g: nat)
    requires 0 < g < TWO_64
    ensures PeekedOffset(0, g) == TWO_64 - g
  {
    assert Wrap(-1) * g == (g - 1) * TWO_64 + (TWO_64 - g);
    DivModUnique(Wrap(-1) * g, TWO_64, g - 1, TWO_64 - g);
  }

  class Ring {
    const buf: array<byte>
    const capacity: nat
    const granularity: nat
    var head: nat
    var tail: nat
    var size: nat

    /** circ_buf_init */
    constructor (buf: array<byte>, capacity: nat, granularity: nat)
      requires capacity > 0 && SumsFit(capacity) && buf.Length == capacity * granularity < TWO_64
      ensures Valid() && Contents() == [] && this.buf == buf && this.capacity == capacity
              && this.granularity == granularity
    {
      this.buf, this.capacity, this.granularity := buf, capacity, granularity;
      head, tail, size := 0, 0, 0;
    }

    ghost predicate Valid()
      reads this, buf
    {
      && capacity > 0 && SumsFit(capacity) && buf.Length == capacity * granularity < TWO_64
      && head < capacity && size <= capacity && tail == Place(head, size, capacity)
    }

    /** The blocks from head to tail. */
    ghost function Contents(): (s: seq<seq<byte>>)
      requires Valid()
      reads this, buf
      ensures |s| == size
    {
      Blocks(buf[..], head, size, capacity, granularity)
    }

    /** The copying loop of both enqueue functions: block p gets the value. */
    method Fill(p: nat, val: seq<byte>)
      requires capacity > 0 && buf.Length == capacity * granularity && p < capacity && |val| == granularity
      modifies buf
      ensures Written(old(buf[..]), buf[..], p, val, capacity, granularity)
    {
      hide Written, Block;
      BlockFits(p, capacity, granularity);
      ghost var before := buf[..];
      CopyTo(p * granularity, val);
      CopiedIsWritten(before, buf[..], p, val, capacity, granularity);
    }

    /** The loop: the bytes of val go to buf + base. */
    method CopyTo(base: nat, val: seq<byte>)
      requires base + |val| <= buf.Length
      modifies buf
      ensures buf[..] == old(buf[..base]) + val + old(buf[base + |val|..])
    {
      ghost var before := buf[..];
      var i := 0;
      while i < |val|
        invariant 0 <= i <= |val|
        invariant buf[..] == before[..base] + val[..i] + before[base + i..]
      {
        buf[base + i] := val[i];
        i := i + 1;
      }
    }

    /** circ_buf_enqueue_head */
    method EnqueueHead(val: seq<byte>)
      requires Valid() && |val| == granularity
      modifies this, buf
      ensures Valid() && Contents() == PushHead(old(Contents()), val, capacity)
    {
      hide Previous, Written, Block, Blocks, PushHead;
      ghost var before := buf[..];
      ghost var h := head;
      head := Previous(head, capacity);
      Fill(head, val);
      WrittenHead(before, buf[..], h, size, val, capacity, granularity);
      if size < capacity {
        size := size + 1;
      } else {
        tail := Previous(tail, capacity);
      }
    }

    /** circ_buf_enqueue_tail */
    method EnqueueTail(val: seq<byte>)
      requires Valid() && |val| == granularity
      modifies this, buf
      ensures Valid() && Contents() == PushTail(old(Contents()), val, capacity)
    {
      hide Next, Written, Block, Blocks, PushTail;
      ghost var before := buf[..];
      Fill(tail, val);
      WrittenTail(before, buf[..], head, size, val, capacity, granularity);
      tail := Next(tail, capacity);
      if size < capacity {
        size := size + 1;
      } else {
        head := Next(head, capacity);
      }
    }

    /** circ_buf_dequeue_head: the offset of the block, or None for NULL. */
    method DequeueHead() returns (ok: bool, at: nat)
      requires Valid()
      modifies this
      ensures Valid() && ok == (old(size) > 0)
      ensures ok ==> at + granularity <= buf.Length && buf[at..at + granularity] == old(Contents()[0])
      ensures Contents() == if ok then old(Contents())[1..] else old(Contents())
    {
      hide Next, Block;
      if size > 0 {
        BlockFits(head, capacity, granularity);
        ok, at := true, head * granularity;
        BlockAt(buf[..], head, capacity, granularity);
        head := Next(head, capacity);
        size := size - 1;
      } else {
        ok, at := false, 0;
      }
    }

    /** circ_buf_dequeue_tail */
    method DequeueTail() returns (ok: bool, at: nat)
      requires Valid()
      modifies this
      ensures Valid() && ok == (old(size) > 0)
      ensures ok ==> at + granularity <= buf.Length && buf[at..at + granularity] == old(Contents()[size - 1])
      ensures Contents() == if ok then old(Contents())[..old(size) - 1] else old(Contents())
    {
      hide Previous, Block;
      if size > 0 {
        tail := Previous(tail, capacity);
        BlockFits(tail, capacity, granularity);
        ok, at := true, tail * granularity;
        BlockAt(buf[..], tail, capacity, granularity);
        size := size - 1;
      } else {
        ok, at := false, 0;
      }
    }

    /** circ_buf_peekn_head */
    method PeekNHead(n: nat) returns (at: nat)
      requires Valid() && n < size
      ensures at + granularity <= buf.Length && buf[at..at + granularity] == Contents()[n]
    {
      PlaceIsModulo(head, n, capacity);
      var offset := Wrap(head + n) % capacity;
      BlockFits(offset, capacity, granularity);
      at := offset * granularity;
      assert buf[at..at + granularity] == Block(buf[..], offset, capacity, granularity);
    }
  }
}
