/**
 kmalloc for every 32-bit request (kernel/kernel/heap.c), with all its sums modulo 2^32: what it does to the sequence
 of blocks and to the end of the heap, and exactly which requests leave the heap in order.
 */
module HeapMalloc {
  import opened HeapSpec

  function PageUp(x: nat): (y: nat)
    ensures x <= y < x + 4096 && y % 4096 == 0
  {
    (x + 4095) / 4096 * 4096
  }

  // ---------------------------------------------------------------- heap_expand

  /** The pages that heap_expand maps from the end of the heap up to a new end. */
  function PagesTo(heapEnd: nat, newEnd: nat): nat {
    if PageUp(newEnd) <= heapEnd then 0 else (PageUp(newEnd) - heapEnd + 4095) / 4096
  }

  /** The pages that begin at or above a and below b. */
  function Span(a: nat, b: nat): set<nat> { set p | 0 <= p < b && a <= 4096 * p < b }

  lemma {:induction false} SpanSize(a: nat, b: nat)
    requires a % 4096 == 0
    ensures |Span(a, b)| == PagesTo(a, b)
    decreases b
  {
    if b <= a {
      assert Span(a, b) == {};
      PageUpBelow(a, b);
    } else {
      var last := (b - 1) / 4096;
      SpanSize(a, 4096 * last);
      assert Span(a, b) == Span(a, 4096 * last) + {last};
      PageUpIs(b, last);
    }
  }

  lemma PagesToIs(a: nat, b: nat)
    requires a % 4096 == 0
    ensures if PageUp(b) <= a then PagesTo(a, b) == 0 else a + 4096 * PagesTo(a, b) == PageUp(b)
  {
  }

  lemma PageUpIs(b: nat, last: nat)
    requires b > 0 && last == (b - 1) / 4096
    ensures PageUp(b) == 4096 * last + 4096 && PageUp(4096 * last) == 4096 * last
  {
  }

  lemma PageUpBelow(a: nat, b: nat)
    requires a % 4096 == 0 && b <= a
    ensures PageUp(b) <= a
  {
  }

  /** Up to a new end one needs the pages below the old one and those in between. */
  lemma SpanTo(start: nat, a: nat, b: nat)
    requires a % 4096 == 0
    ensures Span(start, PageUp(b)) <= Span(start, a) + Span(a, b)
  {
  }

  /** Every byte between page boundaries lies on a page of the span. */
  lemma SpanHolds(a: nat, b: nat, x: nat)
    requires a % 4096 == 0 && a <= x < b
    ensures x / 4096 in Span(a, b)
  {
  }

  /** The end that kmalloc asks for. */
  function NewEnd(heapEnd: nat, s: nat): nat { (heapEnd + (s + HEADER_SIZE) % U32) % U32 }

  /** heap_expand accepts the new end, with so many pages to be had. */
  predicate Expands(heapEnd: nat, s: nat, pages: nat) {
    NewEnd(heapEnd, s) <= HEAP_MAX && PagesTo(heapEnd, NewEnd(heapEnd, s)) <= pages
  }

  /** The new end is the sum of its parts, or 2^32 less. */
  lemma NewEndIs(heapEnd: nat, s: nat)
    requires heapEnd <= HEAP_MAX && s < U32
    ensures var e := heapEnd + s + HEADER_SIZE; NewEnd(heapEnd, s) == if e < U32 then e else e - U32
  {
  }

  lemma PageUpLimit(x: nat)
    requires x <= HEAP_MAX
    ensures PageUp(x) <= HEAP_MAX
  {
  }

  // ---------------------------------------------------------------- kmalloc

  datatype Outcome = Outcome(ptr: nat, blocks: seq<Block>, heapEnd: nat)

  /** How often kmalloc can still come back to the last block: zero when a block fits, and for a free last block its
      size, which shrinks when the sum wraps, or the room above the heap, when the sum with a header wraps. */
  function Rank(b: seq<Block>, heapEnd: nat, s: nat): nat
    requires b != [] && heapEnd <= HEAP_MAX
  {
    if FirstFit(b, 0, s) < |b| then 0
    else if !b[|b| - 1].free then 1
    else if s + HEADER_SIZE < U32 then 1 + b[|b| - 1].size
    else 1 + HEAP_MAX - heapEnd
  }

  lemma GrowRank(b: seq<Block>, heapEnd: nat, s: nat)
    requires b != [] && heapEnd <= HEAP_MAX && s < U32 && s % 8 == 0
    requires FirstFit(b, 0, s) == |b| && NewEnd(heapEnd, s) <= HEAP_MAX
    ensures PageUp(NewEnd(heapEnd, s)) <= HEAP_MAX
    ensures Rank(Grow(b, s), PageUp(NewEnd(heapEnd, s)), s) < Rank(b, heapEnd, s)
  {
    hide NewEnd;
    hide PageUp;
    hide FirstFit;
    PageUpLimit(NewEnd(heapEnd, s));
    var c, n := Grow(b, s), |b| - 1;
    if !b[n].free {
      assert c[n + 1] == Block(s, true);
    } else {
      assert b[n].size < s;
      if s + HEADER_SIZE < U32 { TailSum(b[n].size, s); } else { EndRises(heapEnd, s); }
    }
  }

  /** When the header alone makes the sum wrap, the end of the heap rises by a page. */
  lemma EndRises(heapEnd: nat, s: nat)
    requires heapEnd <= HEAP_MAX && s < U32 && s % 8 == 0 && s + HEADER_SIZE >= U32
    ensures PageUp(NewEnd(heapEnd, s)) > heapEnd
  {
    NewEndIs(heapEnd, s);
    hide NewEnd;
    hide PageUp;
  }

  /** A free last block after growth: large enough, or smaller than before, or the header alone made the sum wrap. */
  lemma TailSum(size: nat, s: nat)
    requires size < s < U32
    ensures var grown := (size + s + HEADER_SIZE) % U32;
            s + HEADER_SIZE < U32 ==> grown >= s || grown == size + s + HEADER_SIZE - U32 < size
  {
  }

  /** kmalloc of s bytes, s a multiple of 8: first fit, or growth at the last block and another pass. */
  function Malloc(b: seq<Block>, heapEnd: nat, s: nat, pages: nat): (o: Outcome)
    requires b != [] && heapEnd <= HEAP_MAX && s < U32 && s % 8 == 0
    ensures o.blocks != [] && o.heapEnd <= HEAP_MAX
    decreases Rank(b, heapEnd, s)
  {
    var k := FirstFit(b, 0, s);
    if k < |b| then Outcome(Payload(b, k), Take(b, k, s), heapEnd)
    else if !Expands(heapEnd, s, pages) then Outcome(0, b, heapEnd)
    else
      var newEnd := NewEnd(heapEnd, s);
      GrowRank(b, heapEnd, s);
      Malloc(Grow(b, s), PageUp(newEnd), s, pages - PagesTo(heapEnd, newEnd))
  }

  /** kmalloc of any number of bytes. */
  function KMallocOutcome(b: seq<Block>, heapEnd: nat, size: nat, pages: nat): Outcome
    requires b != [] && heapEnd <= HEAP_MAX
  {
    if size == 0 then Outcome(0, b, heapEnd) else Malloc(b, heapEnd, AlignUp(size), pages)
  }

  // ---------------------------------------------------------------- which requests keep the heap in order

  /** The blocks end inside the heap, and no two free ones are neighbours. */
  predicate Inside(b: seq<Block>, heapEnd: nat) {
    && b != [] && Coalesced(b)
    && Addr(b, |b|) <= heapEnd <= HEAP_MAX && heapEnd % 4096 == 0
  }

  /** A request kmalloc can handle: a block fits, or heap_expand refuses, or the end of the heap does not wrap, or the
      header alone wraps and the last block is free. */
  predicate Contained(b: seq<Block>, heapEnd: nat, s: nat, pages: nat)
    requires b != []
  {
    || FirstFit(b, 0, s) < |b|
    || !Expands(heapEnd, s, pages)
    || heapEnd + s + HEADER_SIZE < U32
    || (s + HEADER_SIZE >= U32 && b[|b| - 1].free)
  }

  lemma TakeInside(b: seq<Block>, k: nat, s: nat, heapEnd: nat)
    requires k < |b| && b[k].free && b[k].size >= s && Inside(b, heapEnd)
    ensures Inside(Take(b, k, s), heapEnd)
  {
    hide Addr;
    TakeEnd(b, k, s);
    TakeCoalesced(b, k, s);
  }

  /** Blocks inside the heap are smaller than it. */
  lemma SizeInside(b: seq<Block>, k: nat)
    requires k < |b| && Addr(b, |b|) <= HEAP_MAX
    ensures HEADER_SIZE + b[k].size <= HEAP_MAX - HEAP_START
  {
    hide Addr;
    AddrOrder(b, k, |b|);
  }

  /** Growth that does not wrap is what is meant: the tail is taken, and the heap ends behind it. */
  lemma GrowthMeant(b: seq<Block>, heapEnd: nat, s: nat, pages: nat)
    requires Inside(b, heapEnd) && s < U32 && s % 8 == 0 && FirstFit(b, 0, s) == |b|
    requires Expands(heapEnd, s, pages) && heapEnd + s + HEADER_SIZE < U32
    ensures var g := Grow(b, s);
            && FirstFit(g, 0, s) == |g| - 1 && Inside(g, PageUp(heapEnd + s + HEADER_SIZE))
            && Malloc(b, heapEnd, s, pages)
               == Outcome(Payload(g, |g| - 1), Take(g, |g| - 1, s), PageUp(heapEnd + s + HEADER_SIZE))
  {
    hide Addr;
    hide Grow;
    hide Take;
    NewEndIs(heapEnd, s);
    PageUpLimit(heapEnd + s + HEADER_SIZE);
    SizeInside(b, |b| - 1);
    GrowFits(b, s);
    GrowKeeps(b, s);
  }

  /** With the header alone wrapping, a free last block gains a few bytes for every page until heap_expand refuses. */
  lemma {:induction false} Creep(b: seq<Block>, heapEnd: nat, s: nat, pages: nat)
    requires Inside(b, heapEnd) && s < U32 && s % 8 == 0 && s + HEADER_SIZE >= U32 && b[|b| - 1].free
    ensures FirstFit(b, 0, s) == |b|
    ensures var o := Malloc(b, heapEnd, s, pages); o.ptr == 0 && Inside(o.blocks, o.heapEnd)
    decreases HEAP_MAX - heapEnd
  {
    hide Addr;
    var n := |b| - 1;
    if FirstFit(b, 0, s) < |b| { SizeInside(b, FirstFit(b, 0, s)); }
    if Expands(heapEnd, s, pages) {
      var newEnd, g := NewEnd(heapEnd, s), Grow(b, s);
      NewEndIs(heapEnd, s);
      PageUpLimit(newEnd);
      SizeInside(b, n);
      GrowKeeps(b, s);
      assert g[n].size == b[n].size + (s + HEADER_SIZE - U32);
      CreepEnd(b, s);
      Creep(g, PageUp(newEnd), s, pages - PagesTo(heapEnd, newEnd));
    }
  }

  lemma CreepEnd(b: seq<Block>, s: nat)
    requires b != [] && b[|b| - 1].free && U32 <= s + HEADER_SIZE && b[|b| - 1].size + s + HEADER_SIZE < 2 * U32
    ensures var g := Grow(b, s); Addr(g, |g|) == Addr(b, |b|) + (s + HEADER_SIZE - U32)
  {
    AddrSame(b, Grow(b, s), |b| - 1);
  }

  /** With the end of the heap wrapping, a used last block is followed by one that leaves the heap. */
  lemma Overrun(b: seq<Block>, heapEnd: nat, s: nat, pages: nat)
    requires b != [] && heapEnd <= HEAP_MAX && s < U32 && s % 8 == 0 && FirstFit(b, 0, s) == |b| && !b[|b| - 1].free
    requires Expands(heapEnd, s, pages) && heapEnd + s + HEADER_SIZE >= U32
    ensures var o := Malloc(b, heapEnd, s, pages); o.ptr != 0 && Addr(o.blocks, |o.blocks|) > HEAP_MAX
  {
    hide Take;
    var g := Grow(b, s);
    assert g[|b|] == Block(s, true);
    GrowRank(b, heapEnd, s);
    AddrSame(b, g, |b|);
    TakeEnd(g, |b|, s);
  }

  /** With the end of the heap wrapping, a free last block shrinks until its sum no longer wraps, and is then handed
      out with a size that leaves the heap, whatever pages there are. */
  lemma {:induction false} Runaway(b: seq<Block>, heapEnd: nat, s: nat, pages: nat)
    requires b != [] && heapEnd <= HEAP_MAX && heapEnd % 4096 == 0 && s % 8 == 0
    requires s + HEADER_SIZE < U32 <= HEAP_MAX + s + HEADER_SIZE && FirstFit(b, 0, s) == |b| && b[|b| - 1].free
    requires heapEnd + s + HEADER_SIZE >= U32
    requires b[|b| - 1].size + s + HEADER_SIZE >= U32 ==> heapEnd >= b[|b| - 1].size + (U32 - s - HEADER_SIZE)
    ensures Expands(heapEnd, s, pages)
    ensures var o := Malloc(b, heapEnd, s, pages); o.ptr != 0 && Addr(o.blocks, |o.blocks|) > HEAP_MAX
    decreases b[|b| - 1].size
  {
    hide Addr;
    var n, newEnd, g := |b| - 1, NewEnd(heapEnd, s), Grow(b, s);
    NewEndIs(heapEnd, s);
    AlignedBelow(newEnd, heapEnd);
    GrowRank(b, heapEnd, s);
    TailSum(b[n].size, s);
    if g[n].size >= s {
      assert FirstFit(g, 0, s) == n;
      hide Grow;
      TakeEnd(g, n, s);
      AddrOrder(g, n, n + 1);
    } else {
      assert g[n].size == b[n].size + s + HEADER_SIZE - U32;
      Runaway(g, PageUp(newEnd), s, pages);
    }
  }

  lemma AlignedBelow(x: nat, end: nat)
    requires x < end && end % 4096 == 0
    ensures PageUp(x) <= end
  {
  }

  /** After kmalloc the blocks are inside the heap exactly when the request is one it can handle. */
  lemma MallocContained(b: seq<Block>, heapEnd: nat, s: nat, pages: nat)
    requires Inside(b, heapEnd) && s < U32 && s % 8 == 0
    ensures var o := Malloc(b, heapEnd, s, pages); Inside(o.blocks, o.heapEnd) <==> Contained(b, heapEnd, s, pages)
  {
    hide Addr;
    hide Take;
    hide Grow;
    hide Coalesced;
    var k, n := FirstFit(b, 0, s), |b| - 1;
    if k < |b| {
      TakeInside(b, k, s, heapEnd);
    } else if Expands(heapEnd, s, pages) {
      SizeInside(b, n);
      if heapEnd + s + HEADER_SIZE < U32 {
        GrowthMeant(b, heapEnd, s, pages);
        var g := Grow(b, s);
        TakeInside(g, |g| - 1, s, PageUp(heapEnd + s + HEADER_SIZE));
      } else if !b[n].free {
        Overrun(b, heapEnd, s, pages);
      } else if s + HEADER_SIZE >= U32 {
        Creep(b, heapEnd, s, pages);
      } else {
        Runaway(b, heapEnd, s, pages);
      }
    }
  }

  /** One growth that makes room. */
  lemma MallocOnce(b: seq<Block>, heapEnd: nat, s: nat, pages: nat)
    requires b != [] && heapEnd <= HEAP_MAX && s < U32 && s % 8 == 0
    requires FirstFit(b, 0, s) == |b| && Expands(heapEnd, s, pages) && FirstFit(Grow(b, s), 0, s) < |Grow(b, s)|
    ensures var g := Grow(b, s);
            var k := FirstFit(g, 0, s);
            Malloc(b, heapEnd, s, pages) == Outcome(Payload(g, k), Take(g, k, s), PageUp(NewEnd(heapEnd, s)))
  {
    hide Grow;
    hide Take;
    hide NewEnd;
    hide PageUp;
    hide PagesTo;
    GrowRank(b, heapEnd, s);
  }

  // ---------------------------------------------------------------- the block that is handed out

  /** The list and the end of the heap when kmalloc stops walking, and whether it has found a block. */
  datatype Choice = Choice(found: bool, blocks: seq<Block>, heapEnd: nat)

  function Choose(b: seq<Block>, heapEnd: nat, s: nat, pages: nat): (c: Choice)
    requires b != [] && heapEnd <= HEAP_MAX && s < U32 && s % 8 == 0
    ensures c.blocks != [] && (c.found ==> FirstFit(c.blocks, 0, s) < |c.blocks|)
    decreases Rank(b, heapEnd, s)
  {
    if FirstFit(b, 0, s) < |b| then Choice(true, b, heapEnd)
    else if !Expands(heapEnd, s, pages) then Choice(false, b, heapEnd)
    else
      var newEnd := NewEnd(heapEnd, s);
      GrowRank(b, heapEnd, s);
      Choose(Grow(b, s), PageUp(newEnd), s, pages - PagesTo(heapEnd, newEnd))
  }

  /** kmalloc takes the first fit of the list it has chosen. */
  lemma {:induction false} MallocChoice(b: seq<Block>, heapEnd: nat, s: nat, pages: nat)
    requires b != [] && heapEnd <= HEAP_MAX && s < U32 && s % 8 == 0
    ensures var c := Choose(b, heapEnd, s, pages);
            var k := FirstFit(c.blocks, 0, s);
            Malloc(b, heapEnd, s, pages)
            == if c.found then Outcome(Payload(c.blocks, k), Take(c.blocks, k, s), c.heapEnd)
               else Outcome(0, c.blocks, c.heapEnd)
    decreases Rank(b, heapEnd, s)
  {
    hide Take;
    hide Payload;
    hide Grow;
    hide Rank;
    hide NewEnd;
    hide PagesTo;
    hide PageUp;
    if FirstFit(b, 0, s) == |b| && Expands(heapEnd, s, pages) {
      var newEnd := NewEnd(heapEnd, s);
      GrowRank(b, heapEnd, s);
      MallocChoice(Grow(b, s), PageUp(newEnd), s, pages - PagesTo(heapEnd, newEnd));
    }
  }

  /** No block is larger than 32 bits can say. */
  predicate Narrow(b: seq<Block>) { forall j :: 0 <= j < |b| ==> b[j].size < U32 }

  lemma GrowNarrow(b: seq<Block>, s: nat)
    requires b != [] && Narrow(b) && s < U32
    ensures Narrow(Grow(b, s))
  {
  }

  lemma {:induction false} ChoiceNarrow(b: seq<Block>, heapEnd: nat, s: nat, pages: nat)
    requires b != [] && heapEnd <= HEAP_MAX && s < U32 && s % 8 == 0 && Narrow(b)
    ensures Narrow(Choose(b, heapEnd, s, pages).blocks)
    decreases Rank(b, heapEnd, s)
  {
    hide Rank;
    hide NewEnd;
    hide PagesTo;
    hide PageUp;
    hide Grow;
    hide Narrow;
    if FirstFit(b, 0, s) == |b| && Expands(heapEnd, s, pages) {
      var newEnd := NewEnd(heapEnd, s);
      GrowRank(b, heapEnd, s);
      GrowNarrow(b, s);
      ChoiceNarrow(Grow(b, s), PageUp(newEnd), s, pages - PagesTo(heapEnd, newEnd));
    }
  }

  /** Growing, however often, changes no live payload. */
  lemma {:induction false} ChoiceLive(b: seq<Block>, heapEnd: nat, s: nat, pages: nat, p: nat, n: nat)
    requires b != [] && heapEnd <= HEAP_MAX && s < U32 && s % 8 == 0
    ensures Live(Choose(b, heapEnd, s, pages).blocks, p, n) <==> Live(b, p, n)
    decreases Rank(b, heapEnd, s)
  {
    hide Rank;
    hide NewEnd;
    hide PagesTo;
    hide PageUp;
    hide Live;
    hide Grow;
    if FirstFit(b, 0, s) == |b| && Expands(heapEnd, s, pages) {
      var newEnd := NewEnd(heapEnd, s);
      GrowRank(b, heapEnd, s);
      GrowLive(b, s, p, n);
      ChoiceLive(Grow(b, s), PageUp(newEnd), s, pages - PagesTo(heapEnd, newEnd), p, n);
    }
  }

  lemma {:induction false} ChoiceCoalesced(b: seq<Block>, heapEnd: nat, s: nat, pages: nat)
    requires b != [] && heapEnd <= HEAP_MAX && s < U32 && s % 8 == 0 && Coalesced(b)
    ensures Coalesced(Choose(b, heapEnd, s, pages).blocks)
    decreases Rank(b, heapEnd, s)
  {
    hide Rank;
    hide NewEnd;
    hide PagesTo;
    hide PageUp;
    hide Coalesced;
    hide Grow;
    if FirstFit(b, 0, s) == |b| && Expands(heapEnd, s, pages) {
      var newEnd := NewEnd(heapEnd, s);
      GrowRank(b, heapEnd, s);
      GrowKeeps(b, s);
      ChoiceCoalesced(Grow(b, s), PageUp(newEnd), s, pages - PagesTo(heapEnd, newEnd));
    }
  }
}
