/** kernel/mem/pgm.c: the bitmap page allocator with its moving hint. */
module Pgm {
  import opened Common
  import opened Machine
  import opened Bits

  const PAGE := 4096
  const HEADER_BYTES := 48   // sizeof(pgm_header)

  // ---- geometry ----

  /** Pages of the directory of a region of `pages` pages. */
  function DirPages(pages: nat): nat { ((pages + 7) / 8 + PAGE - 1) / PAGE }

  function MemPages(pages: nat): int { pages - DirPages(pages) }

  /** 64-bit words between the header and the end of the directory. */
  function DirWords(pages: nat): int { (DirPages(pages) * PAGE - HEADER_BYTES) / 8 }

  /** Every managed page has a bit in the directory. */
  predicate Covered(pages: nat) { MemPages(pages) <= 64 * DirWords(pages) }

  /**
   The directory is sized without its header, so it does not always cover the managed pages:
   it fails exactly when the last page of the directory stands for more than
   32384 + DirPages(pages) pages.
   */
  lemma CoveredIff(pages: nat)
    requires pages > 0
    ensures 32768 * (DirPages(pages) - 1) < pages <= 32768 * DirPages(pages)
    ensures Covered(pages) <==> pages - 32768 * (DirPages(pages) - 1) <= 32384 + DirPages(pages)
  {
    var d := DirPages(pages);
    assert DirWords(pages) == d * 512 - 6;
  }

  /** A full directory page, 128 MB, is not covered: 32767 pages, 32384 bits. */
  lemma NotCovered()
    ensures MemPages(32768) == 32767 && 64 * DirWords(32768) == 32384 && !Covered(32768)
  {
  }

  lemma Geometry(base: nat, pages: nat)
    requires base % PAGE == 0 && 0 < pages
    ensures MemPages(pages) >= 0 && DirWords(pages) > 0 && DirPages(pages) > 0
    ensures (base + DirPages(pages) * PAGE) % PAGE == 0
    ensures base + DirPages(pages) * PAGE + MemPages(pages) * PAGE == base + pages * PAGE
  {
    assert DirWords(pages) == DirPages(pages) * 512 - 6;
  }

  // ---- the directory as a set of pages ----

  predicate PageBit(words: seq<u64>, p: nat)
    requires p < 64 * |words|
  {
    Bit(words[p / 64], p % 64)
  }

  /** The free pages: those below `pages` whose bit is set. */
  function FreeSet(words: seq<u64>, pages: nat): set<nat>
    requires pages <= 64 * |words|
  {
    set p: nat | p < pages && PageBit(words, p)
  }

  function Range(lo: nat, hi: nat): (s: set<nat>)
    ensures forall p :: p in s <==> lo <= p < hi
    decreases hi - lo
  {
    if lo >= hi then {} else {lo} + Range(lo + 1, hi)
  }

  ghost predicate Least(s: set<nat>, p: nat) {
    p in s && forall q :: q in s ==> p <= q
  }

  lemma LeastIn(s: set<nat>, p: nat)
    requires Least(s, p)
    ensures p in s
  {
  }

  /** pgm_first_one: the number of trailing zeros by halving the distance, and -1 for 0. */
  method FirstOne(word: u64) returns (i: int)
    ensures i == -1 <==> word == 0
    ensures word != 0 ==> 0 <= i < 64 && TrailingZeros(word, i)
  {
    var x: nat := word;
    i := 0;
    SmallPowers();
    x, i := ShiftIfLow(word, i, x, 32, 0x1_0000_0000);
    x, i := ShiftIfLow(word, i, x, 16, 0x1_0000);
    x, i := ShiftIfLow(word, i, x, 8, 0x100);
    x, i := ShiftIfLow(word, i, x, 4, 0x10);
    x, i := ShiftIfLow(word, i, x, 2, 4);
    x, i := ShiftIfLow(word, i, x, 1, 2);
    if x == 0 {
      i := -1;
    } else {
      ShiftedOut(word, i);
    }
  }

  /** One stanza of pgm_first_one: if the low d bits of x are all zero, shift them out.  p is 1 << d. */
  method ShiftIfLow(ghost word: nat, i: nat, x: nat, d: nat, p: nat) returns (x': nat, i': nat)
    requires LowZeros(word, i) && x == Shr(word, i) && p == Pow2(d)
    requires word != 0 ==> x % (p * p) != 0
    requires word == 0 ==> x == 0
    ensures LowZeros(word, i') && x' == Shr(word, i') && i <= i' <= i + d
    ensures word != 0 ==> x' % p != 0
    ensures word == 0 ==> x' == 0
  {
    x', i' := x, i;
    if x % p == 0 {
      ShiftIsDivision(x, d);
      ShiftMore(word, i, d);
      QuotientNotLow(x, p);
      x' := x / p;
      i' := i + d;
    }
  }

  lemma QuotientNotLow(x: nat, p: nat)
    requires p > 0 && x % p == 0
    ensures x == 0 ==> x / p == 0
    ensures x % (p * p) != 0 ==> (x / p) % p != 0
  {
    var q := x / p;
    assert x == p * q;
    if q % p == 0 {
      var t := q / p;
      assert x == (p * p) * t by {
        assert q == p * t;
        assert p * (p * t) == (p * p) * t;
      }
      DivModUnique(x, p * p, t, 0);
    }
  }

  /** The directory with the bit of page p flipped. */
  function FlipPage(words: seq<u64>, p: nat): (r: seq<u64>)
    requires p < 64 * |words|
    ensures |r| == |words|
  {
    FlipFits(words[p / 64], p % 64);
    words[p / 64 := Flip(words[p / 64], p % 64)]
  }

  lemma FlipFits(w: u64, i: nat)
    requires i < 64
    ensures Flip(w, i) < TWO_64
  {
    Pow2Values();
    FlipBounded(w, i, 64);
  }

  lemma FlipPageBits(words: seq<u64>, p: nat, q: nat)
    requires p < 64 * |words| && q < 64 * |words|
    ensures PageBit(FlipPage(words, p), q) <==> if p == q then !PageBit(words, q) else PageBit(words, q)
  {
    if q / 64 == p / 64 { FlipBit(words[p / 64], p % 64, q % 64); }
  }

  lemma FlipPageSet(words: seq<u64>, pages: nat, p: nat)
    requires p < pages <= 64 * |words|
    ensures FreeSet(FlipPage(words, p), pages) ==
            if p in FreeSet(words, pages) then FreeSet(words, pages) - {p} else FreeSet(words, pages) + {p}
  {
    forall q | 0 <= q < pages
      ensures PageBit(FlipPage(words, p), q) <==> if p == q then !PageBit(words, q) else PageBit(words, q)
    {
      FlipPageBits(words, p, q);
    }
  }

  /** The first set bit of the first non-zero word is the least free page. */
  lemma FirstBitIsLeast(words: seq<u64>, pages: nat, w: nat, bit: nat)
    requires pages <= 64 * |words| && w < |words| && bit < 64 && TrailingZeros(words[w], bit)
    requires forall i :: 0 <= i < w ==> words[i] == 0
    requires FreeSet(words, pages) != {}
    ensures w * 64 + bit < pages && Least(FreeSet(words, pages), w * 64 + bit)
  {
    var p := w * 64 + bit;
    forall q | q in FreeSet(words, pages)
      ensures p <= q
    {
      ZeroHasNoBit(q % 64);
    }
    var q :| q in FreeSet(words, pages);
    assert p / 64 == w && p % 64 == bit;
  }

  /** Where a free page lies, the words up to there are not all zero. */
  lemma FreeWordNotZero(words: seq<u64>, pages: nat, q: nat)
    requires pages <= 64 * |words| && q in FreeSet(words, pages)
    ensures words[q / 64] != 0
  {
    ZeroHasNoBit(q % 64);
  }

  class PageManager {
    const dir: array<u64>    // the words behind the header
    const memPtr: nat        // address of the first managed page
    const memPages: nat
    var freePages: nat
    var ptr: nat             // index of the word the hint points to

    ghost predicate Valid()
      reads this, dir
    {
      && memPages <= 64 * dir.Length
      && 0 < memPtr && memPtr % PAGE == 0 && memPtr + memPages * PAGE <= TWO_64
      && freePages == |Free()|
      && ptr <= dir.Length && (forall i :: 0 <= i < ptr ==> dir[i] == 0)
    }

    ghost function Free(): set<nat>
      reads this, dir
      requires memPages <= 64 * dir.Length
    {
      FreeSet(dir[..], memPages)
    }

    /** The number of the page at addr. */
    function PageOf(addr: nat): nat
      requires addr >= memPtr
    {
      (addr - memPtr) / PAGE
    }

    predicate IsPage(addr: nat) {
      memPtr <= addr && (addr - memPtr) % PAGE == 0 && PageOf(addr) < memPages
    }

    /** pgm_init: every bit of the directory set, every page free. */
    constructor (base: nat, pages: nat)
      requires base % PAGE == 0 && 0 < pages && base + pages * PAGE <= TWO_64
      requires Covered(pages)
      ensures Valid() && memPtr == base + DirPages(pages) * PAGE && memPages == MemPages(pages)
      ensures Free() == Range(0, memPages)
      ensures freePages == memPages && fresh(dir)
    {
      hide DirPages, MemPages, DirWords, FreeSet, PageBit, Bit;
      Geometry(base, pages);
      memPtr := base + DirPages(pages) * PAGE;
      memPages := MemPages(pages);
      freePages := MemPages(pages);
      ptr := 0;
      dir := new u64[DirWords(pages)](_ => TWO_64 - 1);
      new;
      AllSet(dir[..], memPages);
    }

    /** pgm_allocate_page: the lowest free page, or 0 when there is none. */
    method AllocatePage() returns (addr: nat)
      requires Valid()
      modifies this, dir
      ensures Valid()
      ensures old(Free()) == {} ==> addr == 0 && Free() == {}
      ensures old(Free()) != {} ==> addr > 0 && IsPage(addr) && addr == memPtr + PageOf(addr) * 4096
      ensures old(Free()) != {} ==> Least(old(Free()), PageOf(addr)) && Free() == old(Free()) - {PageOf(addr)}
      ensures AllocateOnce(Directory(old(dir[..]), old(freePages))) == Some(Directory(dir[..], freePages))
    {
      hide FlipPage, PageBit, Bit, FreeSet, AllocateOnce, LowestBit, TrailingZeros, Least, PageOf, IsPage;
      StepOf(dir[..], freePages, 0, 0);
      if freePages == 0 {
        return 0;
      }
      SkipZeros();
      var bit := FirstOne(dir[ptr]);
      FirstBitIsLeast(dir[..], memPages, ptr, bit);
      ghost var p := ptr * 64 + bit;
      PageAt(p);
      FlipPageSet(dir[..], memPages, p);
      LeastIn(Free(), p);
      StepOf(dir[..], freePages, ptr, bit);
      ToggleBit(ptr, bit);
      freePages := freePages - 1;
      var bytes := ptr * 8;
      addr := memPtr + (bytes * 8 + bit) * PAGE;
      assert bytes * 8 + bit == p;
    }

    /** The address of page p. */
    lemma PageAt(p: nat)
      requires p < memPages && memPtr > 0
      ensures var addr := memPtr + p * PAGE; addr > 0 && IsPage(addr) && PageOf(addr) == p
    {
      DivModUnique(p * PAGE, PAGE, p, 0);
    }

    /** `*ptr ^= 1L << bit` */
    method ToggleBit(word: nat, bit: nat)
      requires word < dir.Length && bit < 64
      modifies dir
      ensures dir[..] == FlipPage(old(dir[..]), word * 64 + bit)
      ensures forall i :: 0 <= i < dir.Length && i != word ==> dir[i] == old(dir[i])
    {
      FlipFits(dir[word], bit);
      assert (word * 64 + bit) / 64 == word && (word * 64 + bit) % 64 == bit;
      ghost var flipped := FlipPage(dir[..], word * 64 + bit);
      dir[word] := Flip(dir[word], bit);
      assert dir[..] == flipped;
    }

    /** The hint moves to the first word with a set bit; there is one, so it stays inside the directory. */
    method SkipZeros()
      requires Valid() && Free() != {}
      modifies this`ptr
      ensures Valid() && ptr < dir.Length && dir[ptr] != 0
    {
      ghost var q :| q in Free();
      FreeWordNotZero(dir[..], memPages, q);
      while dir[ptr] == 0
        invariant 0 <= ptr <= q / 64
        invariant forall i :: 0 <= i < ptr ==> dir[i] == 0
        decreases q / 64 - ptr
      {
        ptr := ptr + 1;
      }
    }

    /** pgm_free_page of a page that is out. */
    method FreePage(addr: nat)
      requires Valid() && IsPage(addr) && PageOf(addr) !in Free()
      modifies this, dir
      ensures Valid() && Free() == old(Free()) + {PageOf(addr)}
    {
      var pageIndex := (addr - memPtr) / PAGE;
      var word := pageIndex / 64;
      var bitIndex := pageIndex % 64;
      FlipPageSet(dir[..], memPages, pageIndex);
      ToggleBit(word, bitIndex);
      if word < ptr {
        ptr := word;
      }
      freePages := freePages + 1;
    }

    /** pgm_used_pages */
    method UsedPages() returns (n: nat)
      requires Valid()
      ensures n == memPages - |Free()| && n == |Range(0, memPages) - Free()|
    {
      RangeSize(0, memPages);
      assert Free() <= Range(0, memPages);
      UsedCount(Free(), memPages);
      n := memPages - freePages;
    }
  }

  lemma {:induction false} RangeSize(lo: nat, hi: nat)
    requires lo <= hi
    ensures |Range(lo, hi)| == hi - lo
    decreases hi - lo
  {
    if lo < hi { RangeSize(lo + 1, hi); }
  }

  /** A directory of ones has every page free. */
  lemma AllSet(words: seq<u64>, n: nat)
    requires n <= 64 * |words| && forall i :: 0 <= i < |words| ==> words[i] == TWO_64 - 1
    ensures FreeSet(words, n) == Range(0, n) && |FreeSet(words, n)| == n
  {
    forall p | 0 <= p < n
      ensures PageBit(words, p)
    {
      Pow2Values();
      AllOnes(64, p % 64);
    }
    assert FreeSet(words, n) == Range(0, n);
    RangeSize(0, n);
  }

  lemma UsedCount(free: set<nat>, n: nat)
    requires free <= Range(0, n)
    ensures |free| <= n && |Range(0, n) - free| == n - |free|
  {
    RangeSize(0, n);
    var all := Range(0, n);
    assert all == free + (all - free);
  }

  // ---- sequences of calls ----

  /** The free pages after an allocation, and the page it returned. */
  ghost function AllocateFrom(free: set<nat>): (r: (set<nat>, nat))
    requires free != {}
    ensures Least(free, r.1) && r.0 == free - {r.1}
  {
    var p := LeastOf(free);
    (free - {p}, p)
  }

  ghost function LeastOf(s: set<nat>): (p: nat)
    requires s != {}
    ensures Least(s, p)
  {
    HasLeast(s);
    var p :| Least(s, p);
    p
  }

  lemma {:induction false} HasLeast(s: set<nat>)
    requires s != {}
    ensures exists p :: Least(s, p)
    decreases |s|
  {
    var x :| x in s;
    if s == {x} {
      assert Least(s, x);
    } else {
      var t := s - {x};
      HasLeast(t);
      var y :| Least(t, y);
      assert forall q :: q in s ==> q == x || q in t;
      assert Least(s, if x < y then x else y);
    }
  }

  lemma LeastUnique(s: set<nat>, p: nat, q: nat)
    requires Least(s, p) && Least(s, q)
    ensures p == q
  {
  }

  /** A page freed and then allocated comes back, and the manager with it, exactly when it was below all free pages. */
  lemma FreeThenAllocate(free: set<nat>, p: nat)
    requires p !in free
    ensures AllocateFrom(free + {p}) == (free, p) <==> forall q :: q in free ==> p < q
  {
    var r := AllocateFrom(free + {p});
    assert free + {p} - {p} == free;
    if forall q :: q in free ==> p < q {
      LeastUnique(free + {p}, p, r.1);
    }
    assert forall q :: q in free ==> q in free + {p};
  }

  /** The pages k allocations in a row return. */
  ghost function AllocateMany(free: set<nat>, k: nat): (ps: seq<nat>)
    requires k <= |free|
    ensures |ps| == k
  {
    if k == 0 then []
    else
      var (rest, p) := AllocateFrom(free);
      [p] + AllocateMany(rest, k - 1)
  }

  /** From a new manager, the k-th allocation returns the k-th page. */
  lemma {:induction false} AllocateInOrder(lo: nat, hi: nat, k: nat, i: nat)
    requires lo + k <= hi && i < k
    ensures k <= |Range(lo, hi)|
    ensures AllocateMany(Range(lo, hi), k)[i] == lo + i
    decreases k
  {
    RangeSize(lo, hi);
    assert Least(Range(lo, hi), lo);
    LeastUnique(Range(lo, hi), lo, AllocateFrom(Range(lo, hi)).1);
    assert Range(lo, hi) - {lo} == Range(lo + 1, hi);
    if i > 0 {
      AllocateInOrder(lo + 1, hi, k - 1, i - 1);
    }
  }

  // ---- runs of allocations and frees ----

  datatype Event = Got(page: nat) | Gave(page: nat)

  /** A run: every allocation takes the least free page, every free gives back a page that is out. */
  ghost predicate History(free: set<nat>, es: seq<Event>, free': set<nat>)
    decreases |es|
  {
    if es == [] then free' == free
    else match es[0]
         case Got(p) => Least(free, p) && History(free - {p}, es[1..], free')
         case Gave(p) => p !in free && History(free + {p}, es[1..], free')
  }

  /** A page that is out stays out, and is not handed out, until it is given back. */
  lemma {:induction false} StaysOut(free: set<nat>, es: seq<Event>, free': set<nat>, p: nat)
    requires History(free, es, free') && p !in free && Gave(p) !in es
    ensures p !in free' && Got(p) !in es
    decreases |es|
  {
    if es != [] {
      assert es == [es[0]] + es[1..];
      match es[0]
      case Got(q) => StaysOut(free - {q}, es[1..], free', p);
      case Gave(q) => StaysOut(free + {q}, es[1..], free', p);
    }
  }

  /** No page is handed out twice without being given back in between. */
  lemma NeverOutTwice(free: set<nat>, before: seq<Event>, p: nat, between: seq<Event>, free': set<nat>)
    requires History(free, before + [Got(p)] + between + [Got(p)], free')
    ensures Gave(p) in between
  {
    var rest := between + [Got(p)];
    assert before + [Got(p)] + between + [Got(p)] == (before + [Got(p)]) + rest;
    var mid := HistorySplit(free, before + [Got(p)], rest, free');
    var start := HistorySplit(free, before, [Got(p)], mid);
    assert [Got(p)][1..] == [];
    if Gave(p) !in between {
      assert Got(p) in rest && Gave(p) !in rest;
      StaysOut(mid, rest, free', p);
    }
  }

  lemma {:induction false} HistorySplit(free: set<nat>, a: seq<Event>, b: seq<Event>, free': set<nat>)
    returns (mid: set<nat>)
    requires History(free, a + b, free')
    ensures History(free, a, mid) && History(mid, b, free')
    decreases |a|
  {
    if a == [] {
      assert a + b == b;
      mid := free;
    } else {
      assert (a + b)[1..] == a[1..] + b;
      match a[0]
      case Got(q) => mid := HistorySplit(free - {q}, a[1..], b, free');
      case Gave(q) => mid := HistorySplit(free + {q}, a[1..], b, free');
    }
  }

  // ---- a directory that does not cover its pages ----

  /** A directory of w words, all set by pgm_init, after k allocations. */
  function Drained(w: nat, k: nat): (words: seq<u64>)
    requires k <= 64 * w
    ensures |words| == w
  {
    if k == 0 then seq<u64>(w, i requires 0 <= i < w => TWO_64 - 1) else FlipPage(Drained(w, k - 1), k - 1)
  }

  lemma {:induction false} DrainedBits(w: nat, k: nat, q: nat)
    requires k <= 64 * w && q < 64 * w
    ensures PageBit(Drained(w, k), q) <==> q >= k
  {
    hide FlipPage;
    if k == 0 {
      Pow2Values();
      AllOnes(64, q % 64);
    } else {
      DrainedBits(w, k - 1, q);
      FlipPageBits(Drained(w, k - 1), k - 1, q);
    }
  }

  lemma DrainedWordBits(w: nat, k: nat, i: nat, bit: nat)
    requires k <= 64 * w && i < w && bit < 64
    ensures Bit(Drained(w, k)[i], bit) <==> i * 64 + bit >= k
  {
    hide Drained, Bit;
    DrainedBits(w, k, i * 64 + bit);
    assert (i * 64 + bit) / 64 == i && (i * 64 + bit) % 64 == bit;
  }

  lemma WordIsZero(w: nat, k: nat, i: nat)
    requires k <= 64 * w && i < w && (i + 1) * 64 <= k
    ensures Drained(w, k)[i] == 0
  {
    hide Drained;
    forall bit | 0 <= bit < 64
      ensures !Bit(Drained(w, k)[i], bit)
    {
      DrainedWordBits(w, k, i, bit);
    }
    Pow2Values();
    NoBitIsZero(Drained(w, k)[i], 64);
  }

  /** Each of these steps is an allocation: the words in front are zero, and the bit is the first one of its word. */
  lemma DrainedIsAllocation(w: nat, k: nat)
    requires k < 64 * w
    ensures (forall i :: 0 <= i < k / 64 ==> Drained(w, k)[i] == 0) && TrailingZeros(Drained(w, k)[k / 64], k % 64)
    ensures Drained(w, k + 1) == FlipPage(Drained(w, k), k)
  {
    hide Bit, FlipPage;
    forall i | 0 <= i < k / 64
      ensures Drained(w, k)[i] == 0
    {
      WordIsZero(w, k, i);
    }
    forall bit | 0 <= bit < 64
      ensures Bit(Drained(w, k)[k / 64], bit) <==> bit >= k % 64
    {
      DrainedWordBits(w, k, k / 64, bit);
    }
  }

  /** The words of a directory and free_pages, whether or not they agree. */
  datatype Directory = Directory(words: seq<u64>, free: nat)

  /** The first word that is not zero, or the number of words: where the scan stops, or that it leaves the directory. */
  function FirstNonZero(words: seq<u64>): (i: nat)
    ensures i <= |words| && (i < |words| ==> words[i] != 0) && forall j :: 0 <= j < i ==> words[j] == 0
  {
    if words == [] || words[0] != 0 then 0 else 1 + FirstNonZero(words[1..])
  }

  /** What pgm_first_one computes. */
  function LowestBit(w: nat): nat
    requires w > 0
  {
    if w % 2 == 1 then 0 else 1 + LowestBit(w / 2)
  }

  lemma {:induction false} LowestBitIs(w: nat, i: nat)
    requires TrailingZeros(w, i)
    ensures w > 0 && LowestBit(w) == i
  {
    if i == 0 {
    } else {
      assert !Bit(w, 0) && Bit(w / 2, i - 1);
      forall j | 0 <= j < i - 1
        ensures !Bit(w / 2, j)
      {
        assert !Bit(w, j + 1);
      }
      LowestBitIs(w / 2, i - 1);
    }
  }

  /** pgm_allocate_page on any directory; None when the scan leaves it. */
  function AllocateOnce(d: Directory): Option<Directory> {
    if d.free == 0 then Some(d)
    else
      var i := FirstNonZero(d.words);
      if i == |d.words| then None
      else
        LowestBitFits(d.words[i]);
        Some(Directory(FlipPage(d.words, i * 64 + LowestBit(d.words[i])), d.free - 1))
  }

  lemma LowestBitFits(w: u64)
    requires w > 0
    ensures LowestBit(w) < 64
  {
    Pow2Values();
    LowestBitBelow(w, 64);
  }

  lemma {:induction false} LowestBitBelow(w: nat, n: nat)
    requires 0 < w < Pow2(n)
    ensures LowestBit(w) < n
  {
    if w % 2 == 0 { LowestBitBelow(w / 2, n - 1); }
  }

  /** k allocations in a row. */
  function AllocateTimes(d: Directory, k: nat): Option<Directory> {
    if k == 0 then Some(d) else
    match AllocateTimes(d, k - 1)
    case None => None
    case Some(e) => AllocateOnce(e)
  }

  lemma DrainedStep(w: nat, k: nat, free: nat)
    requires k < 64 * w && free > 0
    ensures AllocateOnce(Directory(Drained(w, k), free)) == Some(Directory(Drained(w, k + 1), free - 1))
  {
    hide Drained, FlipPage, LowestBit, TrailingZeros;
    DrainedIsAllocation(w, k);
    var words, i := Drained(w, k), k / 64;
    LowestBitIs(words[i], k % 64);
    assert FirstNonZero(words) == i;
    assert i * 64 + k % 64 == k;
  }

  /** Up to the number of bits, k allocations clear the first k of them. */
  lemma {:induction false} DrainedSteps(w: nat, k: nat, free: nat)
    requires k <= 64 * w && k <= free
    ensures AllocateTimes(Directory(Drained(w, 0), free), k) == Some(Directory(Drained(w, k), free - k))
  {
    hide Drained, AllocateOnce;
    if k > 0 {
      DrainedSteps(w, k - 1, free);
      DrainedStep(w, k - 1, free - (k - 1));
    }
  }

  lemma AllZero(w: nat)
    ensures FirstNonZero(Drained(w, 64 * w)) == w
  {
    hide Drained;
    forall i | 0 <= i < w
      ensures Drained(w, 64 * w)[i] == 0
    {
      WordIsZero(w, 64 * w, i);
    }
  }

  lemma {:induction false} ExhaustedStays(d: Directory, n: nat, k: nat)
    requires n <= k && AllocateTimes(d, n).Some? && AllocateTimes(d, n).value.free == 0
    ensures AllocateTimes(d, k) == AllocateTimes(d, n)
    decreases k - n
  {
    if n < k { ExhaustedStays(d, n, k - 1); }
  }

  /**
   From a new manager, some run of allocations leaves the directory exactly when the region is not covered: then every
   word is zero after as many allocations as there are bits, free_pages is still positive, and the next call's scan
   finds no bit. On a covered region no run does.
   */
  lemma DrainedIff(pages: nat)
    requires pages > 0
    ensures MemPages(pages) >= 0 && DirWords(pages) >= 0
    ensures var (w, free) := (DirWords(pages), MemPages(pages));
            var start := Directory(Drained(w, 0), free);
            if Covered(pages) then forall k :: AllocateTimes(start, k).Some?
            else
              && AllocateTimes(start, 64 * w) == Some(Directory(Drained(w, 64 * w), free - 64 * w))
              && FirstNonZero(Drained(w, 64 * w)) == w && free - 64 * w > 0
              && AllocateTimes(start, 64 * w + 1) == None
  {
    hide DirWords, MemPages, Drained, AllocateOnce, FirstNonZero;
    Geometry(0, pages);
    var w: nat, free: nat := DirWords(pages), MemPages(pages);
    var start := Directory(Drained(w, 0), free);
    if Covered(pages) {
      forall k: nat
        ensures AllocateTimes(start, k).Some?
      {
        DrainedSteps(w, Min(k, free), free);
        if k > free { ExhaustedStays(start, free, k); }
      }
    } else {
      DrainedSteps(w, 64 * w, free);
      AllZero(w);
      StepLeaves(Drained(w, 64 * w), free - 64 * w);
    }
  }

  /** A step from the word and the bit where the scan and the search end. */
  lemma StepOf(words: seq<u64>, free: nat, w: nat, bit: nat)
    ensures free == 0 ==> AllocateOnce(Directory(words, free)) == Some(Directory(words, 0))
    ensures free > 0 && w < |words| && bit < 64 && TrailingZeros(words[w], bit)
            && (forall i :: 0 <= i < w ==> words[i] == 0) ==>
              AllocateOnce(Directory(words, free)) == Some(Directory(FlipPage(words, w * 64 + bit), free - 1))
  {
    hide FlipPage, LowestBit, Bit;
    if w < |words| && TrailingZeros(words[w], bit) && forall i :: 0 <= i < w ==> words[i] == 0 {
      LowestBitIs(words[w], bit);
      assert FirstNonZero(words) == w;
    }
  }

  lemma StepLeaves(words: seq<u64>, free: nat)
    requires FirstNonZero(words) == |words| && free > 0
    ensures AllocateOnce(Directory(words, free)) == None
  {
  }
}
