/**
 The kernel heap (kernel/kernel/heap.c): a doubly linked list of headers in memory, addressed by number, with
 0 for NULL.  split_block has the guard its comments describe; see HeapRuns for the code without it.
 */
module Heap {
  import opened HeapSpec
  import opened HeapMalloc

  const HEAP_MAGIC := 0xDEAD_BEEF

  datatype Header = Header(magic: nat, size: nat, free: bool, next: nat, prev: nat)

  type Headers = map<nat, Header>

  /** The header of block i when the list represents b. */
  function HeaderOf(b: seq<Block>, i: nat): Header
    requires i < |b|
  {
    Header(HEAP_MAGIC, b[i].size, b[i].free,
           if i + 1 < |b| then Addr(b, i + 1) else 0,
           if i > 0 then Addr(b, i - 1) else 0)
  }

  /** Memory holds the doubly linked list for b. */
  ghost predicate Linked(h: Headers, b: seq<Block>) {
    forall i :: 0 <= i < |b| ==> Addr(b, i) in h && h[Addr(b, i)] == HeaderOf(b, i)
  }

  ghost predicate IsHeader(b: seq<Block>, a: nat) { exists i :: 0 <= i < |b| && Addr(b, i) == a }

  /** Memory is written only where one of the two lists has a header. */
  ghost predicate WritesHeaders(h: Headers, b: seq<Block>, h': Headers, b': seq<Block>) {
    forall a :: a in h' && (a !in h || h[a] != h'[a]) ==> IsHeader(b, a) || IsHeader(b', a)
  }

  /** Headers lie outside the bytes a caller holds. */
  lemma HeaderMissesLive(b: seq<Block>, a: nat, p: nat, size: nat)
    requires IsHeader(b, a) && Live(b, p, size)
    ensures a + HEADER_SIZE <= p || p + size <= a
  {
    var i :| 0 <= i < |b| && Addr(b, i) == a;
    var j :| 0 <= j < |b| && !b[j].free && Payload(b, j) == p && b[j].size == size;
    if i != j { PayloadsDisjoint(b, i, j); }
  }

  /** So what a caller keeps is never written. */
  lemma LiveUntouched(h: Headers, b: seq<Block>, h': Headers, b': seq<Block>, p: nat, size: nat, a: nat)
    requires WritesHeaders(h, b, h', b') && Live(b, p, size) && Live(b', p, size)
    requires a in h' && (a !in h || h[a] != h'[a])
    ensures a + HEADER_SIZE <= p || p + size <= a
  {
    if IsHeader(b, a) { HeaderMissesLive(b, a, p, size); } else { HeaderMissesLive(b', a, p, size); }
  }

  lemma AddrInjective(b: seq<Block>, i: nat, j: nat)
    requires i < j <= |b|
    ensures Addr(b, i) < Addr(b, j)
  {
    AddrOrder(b, i, j);
  }

  // ---------------------------------------------------------------- relinking

  lemma LinkedAt(h: Headers, b: seq<Block>, i: nat)
    requires Linked(h, b) && i < |b|
    ensures Addr(b, i) in h && h[Addr(b, i)] == HeaderOf(b, i)
  {
  }

  /** A header before the replaced blocks stays as it is. */
  lemma HeaderBefore(b: seq<Block>, i: nat, j: nat, c: seq<Block>, k: nat, x: nat)
    requires Replaced(b, i, j, c, k) && x < i < j && i < k
    ensures Addr(c, x) == Addr(b, x) && HeaderOf(c, x) == HeaderOf(b, x) && Addr(b, x) < Addr(b, i)
  {
    ReplacedAddr(b, i, j, c, k, x);
    ReplacedAddr(b, i, j, c, k, x + 1);
    if x > 0 { ReplacedAddr(b, i, j, c, k, x - 1); }
    assert c[x] == c[..i][x] && b[x] == b[..i][x];
    AddrInjective(b, x, i);
  }

  /** Behind them only the back link of the first changes. */
  lemma HeaderAfter(b: seq<Block>, i: nat, j: nat, c: seq<Block>, k: nat, m: nat)
    requires Replaced(b, i, j, c, k) && i < j && i < k && m < |b| - j
    ensures Addr(c, k + m) == Addr(b, j + m)
    ensures HeaderOf(c, k + m) == if m == 0 then HeaderOf(b, j).(prev := Addr(c, k - 1)) else HeaderOf(b, j + m)
    ensures m > 0 ==> Addr(b, j) < Addr(b, j + m)
  {
    ReplacedAddr(b, i, j, c, k, m);
    if m + 1 < |b| - j { ReplacedAddr(b, i, j, c, k, m + 1); }
    if m > 0 {
      ReplacedAddr(b, i, j, c, k, m - 1);
      AddrInjective(b, j, j + m);
    }
    assert c[k + m] == c[k..][m] && b[j + m] == b[j..][m];
  }

  /** Memory that holds the new headers, the one back link, and everything else as before, holds the new list. */
  lemma Relinked(h: Headers, b: seq<Block>, i: nat, j: nat, h': Headers, c: seq<Block>, k: nat)
    requires Linked(h, b) && Replaced(b, i, j, c, k) && i < j && i < k
    requires forall y :: i <= y < k ==> Addr(c, y) in h' && h'[Addr(c, y)] == HeaderOf(c, y)
    requires j < |b| ==> Addr(b, j) in h' && h'[Addr(b, j)] == h[Addr(b, j)].(prev := Addr(c, k - 1))
    requires forall a :: a in h && (a < Addr(b, i) || Addr(b, j) < a) ==> a in h' && h'[a] == h[a]
    ensures Linked(h', c)
  {
    hide HeaderOf;
    forall y | 0 <= y < |c|
      ensures Addr(c, y) in h' && h'[Addr(c, y)] == HeaderOf(c, y)
    {
      if y < i {
        HeaderBefore(b, i, j, c, k, y);
      } else if y >= k {
        HeaderAfter(b, i, j, c, k, y - k);
      }
    }
  }

  // ---------------------------------------------------------------- split_block

  function SplitHeaders(h: Headers, a: nat, s: nat): Headers
    requires a in h && h[a].size >= s + HEADER_SIZE && (h[a].next != 0 ==> h[a].next in h)
  {
    var n := a + HEADER_SIZE + s;
    var h1 := h[n := Header(HEAP_MAGIC, h[a].size - s - HEADER_SIZE, true, h[a].next, a)];
    var h2 := if h[a].next != 0 then h1[h[a].next := h1[h[a].next].(prev := n)] else h1;
    h2[a := h2[a].(next := n, size := s)]
  }

  lemma SplitLinked(h: Headers, b: seq<Block>, k: nat, s: nat)
    requires Linked(h, b) && k < |b| && b[k].size >= s + HEADER_SIZE + MIN_BLOCK_SIZE
    ensures Linked(SplitHeaders(h, Addr(b, k), s), Split(b, k, s))
    ensures WritesHeaders(h, b, SplitHeaders(h, Addr(b, k), s), Split(b, k, s))
  {
    hide Linked;
    hide Addr;
    hide Split;
    LinkedAt(h, b, k);
    if k + 1 < |b| { LinkedAt(h, b, k + 1); }
    var c := Split(b, k, s);
    var a := Addr(b, k);
    var h' := SplitHeaders(h, a, s);
    SplitAddrs(b, k, s);
    AddrInjective(b, k, k + 1);
    SplitWritten(h, a, s, if k + 1 < |b| then Addr(b, k + 1) else 0);
    hide SplitHeaders;
    Relinked(h, b, k, k + 1, h', c, k + 2);
    assert IsHeader(c, Addr(c, k + 1)) && IsHeader(b, a);
    if k + 1 < |b| { assert IsHeader(b, Addr(b, k + 1)); }
  }

  lemma SplitWritten(h: Headers, a: nat, s: nat, next: nat)
    requires a in h && h[a].size >= s + HEADER_SIZE && h[a].next == next
    requires next != 0 ==> next in h && a + HEADER_SIZE + s < next
    ensures var h', n := SplitHeaders(h, a, s), a + HEADER_SIZE + s;
            && a in h' && h'[a] == h[a].(next := n, size := s)
            && n in h' && h'[n] == Header(HEAP_MAGIC, h[a].size - s - HEADER_SIZE, true, next, a)
            && (next != 0 ==> next in h' && h'[next] == h[next].(prev := n))
            && (forall x :: x in h && x != a && x != n && (x != next || next == 0) ==> x in h' && h'[x] == h[x])
            && (forall x :: x in h' && x !in h ==> x == n)
  {
  }

  lemma SplitAddrs(b: seq<Block>, k: nat, s: nat)
    requires k < |b| && b[k].size >= s + HEADER_SIZE + MIN_BLOCK_SIZE
    ensures var c := Split(b, k, s);
            && Replaced(b, k, k + 1, c, k + 2)
            && Addr(c, k) == Addr(b, k) && (k > 0 ==> Addr(c, k - 1) == Addr(b, k - 1))
            && Addr(c, k + 1) == Addr(b, k) + HEADER_SIZE + s
            && Addr(c, k + 2) == Addr(b, k + 1) == Addr(b, k) + HEADER_SIZE + b[k].size
            && |c| == |b| + 1 && c[k] == Block(s, b[k].free) && c[k + 1] == Block(b[k].size - s - HEADER_SIZE, true)
  {
    var c := Split(b, k, s);
    AddrSame(b, c, k);
    if k > 0 { AddrSame(b, c, k - 1); }
    assert Addr(c, k + 1) == Addr(c, k) + HEADER_SIZE + c[k].size;
    assert Addr(c, k + 2) == Addr(c, k + 1) + HEADER_SIZE + c[k + 1].size;
  }

  // ---------------------------------------------------------------- merge_free_blocks

  /** Absorb the next block: the two halves of merge_free_blocks both do this, one from the block, one from its
      predecessor. */
  function JoinHeaders(h: Headers, a: nat): Headers
    requires a in h && h[a].next in h && (h[h[a].next].next != 0 ==> h[h[a].next].next in h)
  {
    var n := h[h[a].next].next;
    var h1 := h[a := h[a].(size := h[a].size + HEADER_SIZE + h[h[a].next].size, next := n)];
    if n != 0 then h1[n := h1[n].(prev := a)] else h1
  }

  lemma JoinLinked(h: Headers, b: seq<Block>, k: nat)
    requires Linked(h, b) && k + 1 < |b| && b[k].free && b[k + 1].free
    ensures var a := Addr(b, k);
            && a in h && h[a].next == Addr(b, k + 1) && h[a].next in h
            && (h[h[a].next].next != 0 ==> h[h[a].next].next in h)
            && Linked(JoinHeaders(h, a), Join(b, k))
            && WritesHeaders(h, b, JoinHeaders(h, a), b)
  {
    hide Linked;
    hide Addr;
    hide Join;
    LinkedAt(h, b, k);
    LinkedAt(h, b, k + 1);
    if k + 2 < |b| { LinkedAt(h, b, k + 2); }
    var c := Join(b, k);
    var a := Addr(b, k);
    JoinAddrs(b, k);
    AddrInjective(b, k, k + 1);
    AddrInjective(b, k + 1, k + 2);
    if k + 2 < |b| { assert IsHeader(b, Addr(b, k + 2)); }
    var h' := JoinHeaders(h, a);
    assert forall x :: x in h && x != a && x != Addr(b, k + 2) ==> x in h' && h'[x] == h[x];
    hide JoinHeaders;
    Relinked(h, b, k, k + 2, h', c, k + 1);
    assert IsHeader(b, a);
  }

  lemma JoinAddrs(b: seq<Block>, k: nat)
    requires k + 1 < |b|
    ensures var c := Join(b, k);
            && Replaced(b, k, k + 2, c, k + 1)
            && Addr(c, k) == Addr(b, k) && (k > 0 ==> Addr(c, k - 1) == Addr(b, k - 1))
            && Addr(c, k + 1) == Addr(b, k + 2)
            && |c| == |b| - 1 && c[k] == Block(b[k].size + HEADER_SIZE + b[k + 1].size, true)
  {
    var c := Join(b, k);
    AddrSame(b, c, k);
    if k > 0 { AddrSame(b, c, k - 1); }
    assert Addr(c, k + 1) == Addr(c, k) + HEADER_SIZE + c[k].size;
    assert Addr(b, k + 2) == Addr(b, k + 1) + HEADER_SIZE + b[k + 1].size;
  }

  // ---------------------------------------------------------------- the free flag and growth

  lemma MarkLinked(h: Headers, b: seq<Block>, k: nat, free: bool)
    requires Linked(h, b) && k < |b|
    ensures Linked(h[Addr(b, k) := h[Addr(b, k)].(free := free)], b[k := Block(b[k].size, free)])
    ensures WritesHeaders(h, b, h[Addr(b, k) := h[Addr(b, k)].(free := free)], b)
    ensures forall i :: 0 <= i <= |b| ==> Addr(b[k := Block(b[k].size, free)], i) == Addr(b, i)
  {
    var c := b[k := Block(b[k].size, free)];
    forall i | 0 <= i <= |b|
      ensures Addr(c, i) == Addr(b, i)
      ensures i < |b| && i != k ==> Addr(b, i) != Addr(b, k)
    {
      AddrSame(b, c, i);
      if i < k { AddrInjective(b, i, k); } else if k < i { AddrInjective(b, k, i); }
    }
    assert IsHeader(b, Addr(b, k));
  }

  /** The tail of kmalloc after a successful heap_expand. */
  function GrowHeaders(h: Headers, a: nat, s: nat): Headers
    requires a in h
  {
    if h[a].free then h[a := h[a].(size := (h[a].size + s + HEADER_SIZE) % U32)]
    else
      var n := a + HEADER_SIZE + h[a].size;
      h[n := Header(HEAP_MAGIC, s, true, 0, a)][a := h[a].(next := n)]
  }

  lemma GrowLinked(h: Headers, b: seq<Block>, s: nat)
    requires Linked(h, b) && b != []
    ensures Linked(GrowHeaders(h, Addr(b, |b| - 1), s), Grow(b, s))
    ensures WritesHeaders(h, b, GrowHeaders(h, Addr(b, |b| - 1), s), Grow(b, s))
  {
    hide Addr;
    hide Linked;
    var n, c := |b| - 1, Grow(b, s);
    LinkedAt(h, b, n);
    var h' := GrowHeaders(h, Addr(b, n), s);
    GrowAddrs(b, s);
    forall i | 0 <= i < |c|
      ensures Addr(c, i) in h' && h'[Addr(c, i)] == HeaderOf(c, i)
    {
      if i <= n { LinkedAt(h, b, i); }
    }
    LinkedAll(h', c);
    assert IsHeader(b, Addr(b, n));
    if !b[n].free { assert IsHeader(c, Addr(c, n + 1)); }
  }

  lemma LinkedAll(h: Headers, b: seq<Block>)
    requires forall i :: 0 <= i < |b| ==> Addr(b, i) in h && h[Addr(b, i)] == HeaderOf(b, i)
    ensures Linked(h, b)
  {
    hide HeaderOf;
  }

  lemma GrowAddrs(b: seq<Block>, s: nat)
    requires b != []
    ensures var n, c := |b| - 1, Grow(b, s);
            && (forall i :: 0 <= i <= n ==> Addr(c, i) == Addr(b, i))
            && (forall i :: 0 <= i < n ==> Addr(b, i) < Addr(b, n))
            && (!b[n].free ==> Addr(c, n + 1) == Addr(b, n) + HEADER_SIZE + b[n].size)
  {
    var n, c := |b| - 1, Grow(b, s);
    forall i | 0 <= i <= n
      ensures Addr(c, i) == Addr(b, i)
      ensures i < n ==> Addr(b, i) < Addr(b, n)
    {
      AddrSame(b, c, i);
      if i < n { AddrInjective(b, i, n); }
    }
  }

  // ---------------------------------------------------------------- the allocator

  /** kmalloc at block k of its walk: the memory holds the list b, which has grown from b0, no block before k fits, and
      the walk from here ends as kmalloc ends on b0. */
  ghost predicate Scanning(h0: Headers, b0: seq<Block>, end0: nat, h: Headers, b: seq<Block>, end: nat,
                           s: nat, pages: nat, left: nat, k: nat, current: nat) {
    && b0 != [] && end0 <= HEAP_MAX && end <= HEAP_MAX && s < U32 && s % 8 == 0
    && k < |b| && current == Addr(b, k) && Linked(h, b) && WritesHeaders(h0, b0, h, b)
    && UsedCount(b) == UsedCount(b0)
    && (forall j :: 0 <= j < |b| ==> b[j].size < U32)
    && (forall j :: 0 <= j < k ==> !(b[j].free && b[j].size >= s))
    && Malloc(b, end, s, left) == Malloc(b0, end0, s, pages)
  }

  lemma ScanStarts(h: Headers, b: seq<Block>, end: nat, s: nat, pages: nat)
    requires Inside(b, end) && s < U32 && s % 8 == 0 && Linked(h, b)
    ensures Scanning(h, b, end, h, b, end, s, pages, pages, 0, HEAP_START)
  {
    hide Addr;
    hide Linked;
    hide Malloc;
    NoWrites(h, b);
    FirstAddr(b);
    forall j | 0 <= j < |b|
      ensures b[j].size < U32
    {
      SizeInside(b, j);
    }
  }

  /** What the walk sees at block k. */
  lemma ScanSees(h0: Headers, b0: seq<Block>, end0: nat, h: Headers, b: seq<Block>, end: nat,
                 s: nat, pages: nat, left: nat, k: nat, current: nat)
    requires Scanning(h0, b0, end0, h, b, end, s, pages, left, k, current)
    ensures k < |b| && current == Addr(b, k) && Linked(h, b) && end <= HEAP_MAX && b[k].size < U32
    ensures current in h && h[current] == HeaderOf(b, k)
    ensures b[k].free && b[k].size >= s ==>
      FirstFit(b, 0, s) == k && Malloc(b0, end0, s, pages) == Outcome(Payload(b, k), Take(b, k, s), end)
    ensures !(b[k].free && b[k].size >= s) && k + 1 == |b| ==> FirstFit(b, 0, s) == |b|
    ensures !(b[k].free && b[k].size >= s) && k + 1 == |b| && !Expands(end, s, left) ==>
      Malloc(b0, end0, s, pages) == Outcome(0, b, end)
  {
    hide Addr;
    hide Linked;
    hide WritesHeaders;
    hide UsedCount;
    hide Take;
    hide Grow;
    hide Expands;
    LinkedAt(h, b, k);
    assert b[k].free && b[k].size >= s ==> FirstFit(b, 0, s) == k;
  }

  lemma ScanNext(h0: Headers, b0: seq<Block>, end0: nat, h: Headers, b: seq<Block>, end: nat,
                 s: nat, pages: nat, left: nat, k: nat, current: nat)
    requires Scanning(h0, b0, end0, h, b, end, s, pages, left, k, current)
    requires !(b[k].free && b[k].size >= s) && k + 1 < |b|
    ensures Scanning(h0, b0, end0, h, b, end, s, pages, left, k + 1, Addr(b, k + 1))
  {
    hide Addr;
    hide Linked;
    hide WritesHeaders;
    hide UsedCount;
    hide Malloc;
  }

  /** The walk after growth: the same block again. */
  lemma ScanGrows(h0: Headers, b0: seq<Block>, end0: nat, h: Headers, b: seq<Block>, end: nat,
                  s: nat, pages: nat, left: nat, k: nat, current: nat, h': Headers)
    requires Scanning(h0, b0, end0, h, b, end, s, pages, left, k, current)
    requires k == |b| - 1 && FirstFit(b, 0, s) == |b| && Expands(end, s, left)
    requires Linked(h', Grow(b, s)) && WritesHeaders(h, b, h', Grow(b, s))
    ensures PageUp(NewEnd(end, s)) <= HEAP_MAX
    ensures Scanning(h0, b0, end0, h', Grow(b, s), PageUp(NewEnd(end, s)), s, pages,
                     left - PagesTo(end, NewEnd(end, s)), k, current)
    ensures Rank(Grow(b, s), PageUp(NewEnd(end, s)), s) < Rank(b, end, s)
  {
    hide Addr;
    hide Linked;
    hide WritesHeaders;
    hide UsedCount;
    hide Take;
    hide NewEnd;
    hide Rank;
    hide PageUp;
    hide PagesTo;
    GrowRank(b, end, s);
    GrowKeeps(b, s);
    GrowAddrs(b, s);
    GrowKeepsHeaders(b, s);
    ThenWrites(h0, b0, h, b, h', Grow(b, s));
  }

  lemma GrowKeepsHeaders(b: seq<Block>, s: nat)
    requires b != []
    ensures forall a :: IsHeader(b, a) ==> IsHeader(Grow(b, s), a)
  {
    hide Addr;
    GrowAddrs(b, s);
    forall a | IsHeader(b, a)
      ensures IsHeader(Grow(b, s), a)
    {
      var i :| 0 <= i < |b| && Addr(b, i) == a;
      assert Addr(Grow(b, s), i) == a;
    }
  }

  /** Every header but the last leads on. */
  lemma NextHeader(b: seq<Block>, k: nat)
    requires k < |b|
    ensures HeaderOf(b, k).next == 0 <==> k + 1 == |b|
    ensures k + 1 < |b| ==> HeaderOf(b, k).next == Addr(b, k + 1)
  {
  }

  lemma BlockEnd(b: seq<Block>, k: nat)
    requires k < |b|
    ensures Addr(b, k) + HEADER_SIZE + b[k].size <= Addr(b, |b|)
  {
    AddrOrder(b, k, |b|);
  }

  class KernelHeap {
    var hdr: Headers
    var heapEnd: nat
    var totalAllocs: nat
    var totalFrees: nat
    var mapped: set<nat>
    ghost var blocks: seq<Block>

    ghost predicate Valid()
      reads this
    {
      && Linked(hdr, blocks) && Inside(blocks, heapEnd) && Span(HEAP_START, heapEnd) <= mapped
      && (totalAllocs - totalFrees) % U32 == UsedCount(blocks) % U32
    }

    /** heap_init, the first expansion having succeeded. */
    constructor ()
      ensures Valid() && blocks == [Block(HEAP_INITIAL - HEADER_SIZE, true)] && heapEnd == HEAP_START + HEAP_INITIAL
      ensures mapped == Span(HEAP_START, heapEnd)
    {
      hdr := map[HEAP_START := Header(HEAP_MAGIC, HEAP_INITIAL - HEADER_SIZE, true, 0, 0)];
      heapEnd := HEAP_START + HEAP_INITIAL;
      totalAllocs, totalFrees := 0, 0;
      mapped := Span(HEAP_START, HEAP_START + HEAP_INITIAL);
      blocks := [Block(HEAP_INITIAL - HEADER_SIZE, true)];
      new;
      assert Addr(blocks, 1) == Addr(blocks, 0) + HEADER_SIZE + blocks[0].size;
      UsedCount12(blocks[0], blocks[0]);
    }

    /** heap_expand, for any 32-bit end; `pages` is how many frames can still be allocated and mapped.  Success maps the
        pages from the old end to the new one, a frame each; failure for want of a frame has used up all of them. */
    method HeapExpand(newEnd: nat, pages: nat) returns (ok: bool, left: nat)
      requires heapEnd <= HEAP_MAX && heapEnd % 4096 == 0 && newEnd < U32
      modifies this`heapEnd, this`mapped
      ensures ok <==> newEnd <= HEAP_MAX && |Span(old(heapEnd), newEnd)| <= pages
      ensures ok ==> heapEnd == PageUp(newEnd) <= HEAP_MAX
      ensures ok ==> mapped == old(mapped) + Span(old(heapEnd), newEnd) && left + |Span(old(heapEnd), newEnd)| == pages
      ensures !ok ==> heapEnd == old(heapEnd)
      ensures !ok && newEnd > HEAP_MAX ==> mapped == old(mapped) && left == pages
      ensures !ok && newEnd <= HEAP_MAX ==> mapped == old(mapped) + Span(heapEnd, heapEnd + 4096 * pages) && left == 0
    {
      hide Span;
      hide PagesTo;
      hide PageUp;
      left := pages;
      if newEnd > HEAP_MAX { return false, left; }
      ExpandFacts(heapEnd, newEnd);
      var end := PageUp(newEnd);
      var addr := heapEnd;
      ghost var n: nat := 0;
      while addr < end
        invariant heapEnd == old(heapEnd) && addr == heapEnd + 4096 * n && n + left == pages
        invariant n <= PagesTo(heapEnd, newEnd) && mapped == old(mapped) + Span(heapEnd, heapEnd + 4096 * n)
      {
        if left == 0 { return false, left; }
        left := left - 1;
        NextSpan(heapEnd, n);
        mapped := mapped + {addr / 4096};
        n := n + 1;
        addr := addr + 4096;
      }
      EndSpan(heapEnd, newEnd);
      assert n == PagesTo(heapEnd, newEnd);
      heapEnd := end;
      return true, left;
    }

    /** split_block with its guard: the remainder is a 32-bit difference, and the new block's address a 32-bit sum. */
    method SplitBlock(block: nat, size: nat, ghost k: nat)
      requires Linked(hdr, blocks) && k < |blocks| && block == Addr(blocks, k) && blocks[k].size < U32
      modifies this`hdr, this`blocks
      ensures blocks == Split(old(blocks), k, size) && block in hdr
      ensures Addr(old(blocks), |old(blocks)|) <= HEAP_MAX ==>
        Linked(hdr, blocks) && WritesHeaders(old(hdr), old(blocks), hdr, blocks)
    {
      hide Addr;
      hide Linked;
      hide WritesHeaders;
      LinkedAt(hdr, blocks, k);
      if k + 1 < |blocks| { LinkedAt(hdr, blocks, k + 1); }
      NoWrites(hdr, blocks);
      if hdr[block].size < size + HEADER_SIZE { return; }
      var remaining := (hdr[block].size - size - HEADER_SIZE) % U32;
      if remaining < MIN_BLOCK_SIZE { return; }
      SplitLinked(hdr, blocks, k, size);
      BlockEnd(blocks, k);
      var next := hdr[block].next;
      var newBlock := (block + HEADER_SIZE + size) % U32;
      hdr := hdr[newBlock := Header(HEAP_MAGIC, remaining, true, next, block)];
      if next != 0 { hdr := hdr[next := hdr[next].(prev := newBlock)]; }
      hdr := hdr[block := hdr[block].(next := newBlock, size := size)];
      blocks := Split(blocks, k, size);
    }

    /** Hand out block k: split it, and mark it used. */
    method TakeBlock(block: nat, size: nat, ghost k: nat)
      requires Linked(hdr, blocks) && k < |blocks| && block == Addr(blocks, k) && blocks[k].size < U32
      requires blocks[k].free && blocks[k].size >= size
      modifies this`hdr, this`blocks, this`totalAllocs
      ensures blocks == Take(old(blocks), k, size)
      ensures Addr(old(blocks), |old(blocks)|) <= HEAP_MAX ==>
        Linked(hdr, blocks) && WritesHeaders(old(hdr), old(blocks), hdr, blocks)
      ensures totalAllocs == (old(totalAllocs) + 1) % U32
    {
      hide Addr;
      hide Linked;
      hide WritesHeaders;
      SplitAddrsAt(blocks, k, size);
      SplitBlock(block, size, k);
      ghost var h1, b1 := hdr, blocks;
      ghost var sound := Addr(old(blocks), |old(blocks)|) <= HEAP_MAX;
      if sound {
        LinkedAt(hdr, blocks, k);
        MarkLinked(hdr, blocks, k, false);
      }
      hdr := hdr[block := hdr[block].(free := false)];
      blocks := blocks[k := Block(blocks[k].size, false)];
      totalAllocs := (totalAllocs + 1) % U32;
      if sound { MarkWrites(old(hdr), old(blocks), h1, b1, hdr, blocks, k); }
    }

    /** kmalloc, for every 32-bit request.  After growing it passes over the same block again, and it always ends; a
        request it can handle leaves the list in order. */
    method KMalloc(size: nat, pages: nat) returns (ptr: nat, left: nat)
      requires Valid() && size < U32
      modifies this
      ensures Outcome(ptr, blocks, heapEnd) == KMallocOutcome(old(blocks), old(heapEnd), size, pages)
      ensures size == 0 || Contained(old(blocks), old(heapEnd), AlignUp(size), pages) ==>
        Valid() && WritesHeaders(old(hdr), old(blocks), hdr, blocks)
      // frames: none without growth; growth that does not wrap takes one for each page between the ends, or fails
      ensures size != 0 ==>
        FramesUsed(old(blocks), old(heapEnd), AlignUp(size), pages, old(mapped), ptr, left, mapped)
      ensures totalFrees == old(totalFrees)
      ensures totalAllocs == if ptr == 0 then old(totalAllocs) else (old(totalAllocs) + 1) % U32
    {
      hide Scanning;
      hide Linked;
      hide Addr;
      hide WritesHeaders;
      hide UsedCount;
      hide Take;
      hide Grow;
      hide Malloc;
      hide Rank;
      hide NewEnd;
      hide PagesTo;
      hide PageUp;
      hide Contained;
      hide Inside;
      hide AlignUp;
      hide FirstFit;
      hide Span;
      hide Mapping;
      hide FramesUsed;
      hide Expands;
      NoWrites(hdr, blocks);
      InsideFacts(blocks, heapEnd);
      if size == 0 { return 0, pages; }
      var s := AlignUp(size);
      var current: nat := HEAP_START;
      left := pages;
      ghost var h0, b0, end0, map0, k, n := hdr, blocks, heapEnd, mapped, 0, 0;
      MapStarts(blocks, heapEnd, pages, mapped, s);
      ScanStarts(hdr, blocks, heapEnd, s, pages);
      while current != 0
        invariant Scanning(h0, b0, end0, hdr, blocks, heapEnd, s, pages, left, k, current)
        invariant heapEnd <= HEAP_MAX && heapEnd % 4096 == 0 && k < |blocks|
        invariant Mapping(b0, end0, pages, map0, blocks, heapEnd, left, mapped, s, n)
        invariant totalAllocs == old(totalAllocs) && totalFrees == old(totalFrees)
        decreases Rank(blocks, heapEnd, s), |blocks| - k
      {
        ScanSees(h0, b0, end0, hdr, blocks, heapEnd, s, pages, left, k, current);
        NextHeader(blocks, k);
        assert hdr[current].magic == HEAP_MAGIC;
        if hdr[current].free && hdr[current].size >= s {
          MapFound(b0, end0, pages, map0, blocks, heapEnd, left, mapped, s, n);
          HandOut(current, s, k, h0, b0, end0, pages, left);
          return current + HEADER_SIZE, left;
        }
        if hdr[current].next == 0 {
          ghost var h, b, end := hdr, blocks, heapEnd;
          ghost var before := mapped;
          MapMeant(b0, end0, pages, map0, blocks, heapEnd, left, mapped, s, n);
          var ok, rest := GrowTail(current, s, left);
          if !ok {
            Refused(h0, b0, end0, s, pages, left, k, current);
            return 0, rest;
          }
          MapGrows(b0, end0, pages, map0, b, end, left, before, s, n, mapped);
          n := n + 1;
          ScanGrows(h0, b0, end0, h, b, end, s, pages, left, k, current, hdr);
          left := rest;
          continue;
        }
        ScanNext(h0, b0, end0, hdr, blocks, heapEnd, s, pages, left, k, current);
        current := hdr[current].next;
        k := k + 1;
      }
      assert false by { ScanSees(h0, b0, end0, hdr, blocks, heapEnd, s, pages, left, k, current); }
    }

    /** The end of a kmalloc that heap_expand refused. */
    lemma Refused(h0: Headers, b0: seq<Block>, end0: nat, s: nat, pages: nat, left: nat, k: nat, current: nat)
      requires Scanning(h0, b0, end0, hdr, blocks, heapEnd, s, pages, left, k, current) && Inside(b0, end0)
      requires Malloc(b0, end0, s, pages) == Outcome(0, blocks, heapEnd)
      requires (totalAllocs - totalFrees) % U32 == UsedCount(b0) % U32 && Span(HEAP_START, heapEnd) <= mapped
      ensures Contained(b0, end0, s, pages) ==> Valid() && WritesHeaders(h0, b0, hdr, blocks)
    {
      hide Addr;
      hide Linked;
      hide WritesHeaders;
      hide Malloc;
      hide Inside;
      hide Contained;
      hide Span;
      MallocContained(b0, end0, s, pages);
    }

    /** The successful end of kmalloc: block k is taken, after whatever the call has written before. */
    method HandOut(current: nat, s: nat, ghost k: nat, ghost h0: Headers, ghost b0: seq<Block>, ghost end0: nat,
                   ghost pages: nat, ghost left: nat)
      requires Scanning(h0, b0, end0, hdr, blocks, heapEnd, s, pages, left, k, current) && Inside(b0, end0)
      requires k < |blocks| && blocks[k].free && blocks[k].size >= s
      requires (totalAllocs - totalFrees) % U32 == UsedCount(b0) % U32 && Span(HEAP_START, heapEnd) <= mapped
      modifies this`hdr, this`blocks, this`totalAllocs
      ensures Outcome(current + HEADER_SIZE, blocks, heapEnd) == Malloc(b0, end0, s, pages)
      ensures Contained(b0, end0, s, pages) ==> Valid() && WritesHeaders(h0, b0, hdr, blocks)
      ensures totalAllocs == (old(totalAllocs) + 1) % U32
    {
      hide Scanning;
      hide Addr;
      hide Linked;
      hide WritesHeaders;
      hide UsedCount;
      hide Take;
      hide Malloc;
      hide Inside;
      hide Contained;
      hide Span;
      ghost var h1, b1 := hdr, blocks;
      ScanSees(h0, b0, end0, hdr, blocks, heapEnd, s, pages, left, k, current);
      ScanCounts(h0, b0, end0, hdr, blocks, heapEnd, s, pages, left, k, current);
      TakeBlock(current, s, k);
      TakeKeepsHeaders(b1, k, s);
      TakeEnd(b1, k, s);
      TakeCount(b1, k, s);
      CountUp(old(totalAllocs), totalFrees, UsedCount(b1));
      InsideFacts(b0, end0);
      MallocContained(b0, end0, s, pages);
      if Contained(b0, end0, s, pages) {
        InsideFacts(blocks, heapEnd);
        ThenWrites(h0, b0, h1, b1, hdr, blocks);
      }
    }

    /** The call of heap_expand in kmalloc. */
    method ExpandBy(ghost s: nat, needed: nat, pages: nat) returns (ok: bool, left: nat)
      requires heapEnd <= HEAP_MAX && heapEnd % 4096 == 0 && s < U32 && needed == (s + HEADER_SIZE) % U32
      modifies this`heapEnd, this`mapped
      ensures ok <==> Expands(old(heapEnd), s, pages)
      ensures ok ==> heapEnd == PageUp(NewEnd(old(heapEnd), s)) <= HEAP_MAX && heapEnd % 4096 == 0
      ensures ok ==> left == pages - PagesTo(old(heapEnd), NewEnd(old(heapEnd), s))
      ensures ok ==> mapped == old(mapped) + Span(old(heapEnd), NewEnd(old(heapEnd), s))
      ensures !ok ==> heapEnd == old(heapEnd) && old(mapped) <= mapped
      ensures Span(HEAP_START, old(heapEnd)) <= old(mapped) ==> Span(HEAP_START, heapEnd) <= mapped
    {
      hide Span;
      hide PagesTo;
      hide PageUp;
      var newEnd := (heapEnd + needed) % U32;
      SpanSize(heapEnd, newEnd);
      SpanTo(HEAP_START, heapEnd, newEnd);
      ok, left := HeapExpand(newEnd, pages);
    }

    /** kmalloc at the last block: expand the heap, then extend the block or append a new one. */
    method GrowTail(current: nat, s: nat, pages: nat) returns (ok: bool, left: nat)
      requires blocks != [] && current == Addr(blocks, |blocks| - 1) && Linked(hdr, blocks)
      requires heapEnd <= HEAP_MAX && heapEnd % 4096 == 0 && s < U32
      modifies this`hdr, this`blocks, this`heapEnd, this`mapped
      ensures ok <==> Expands(old(heapEnd), s, pages)
      ensures heapEnd % 4096 == 0 && old(mapped) <= mapped
      ensures Span(HEAP_START, old(heapEnd)) <= old(mapped) ==> Span(HEAP_START, heapEnd) <= mapped
      ensures ok ==> mapped == old(mapped) + Span(old(heapEnd), NewEnd(old(heapEnd), s))
      ensures !ok ==> hdr == old(hdr) && blocks == old(blocks) && heapEnd == old(heapEnd)
      ensures ok ==> blocks == Grow(old(blocks), s) && heapEnd == PageUp(NewEnd(old(heapEnd), s)) <= HEAP_MAX
      ensures ok ==> left == pages - PagesTo(old(heapEnd), NewEnd(old(heapEnd), s))
      ensures ok ==> Linked(hdr, blocks) && WritesHeaders(old(hdr), old(blocks), hdr, blocks)
    {
      hide Addr;
      hide Linked;
      hide WritesHeaders;
      hide Grow;
      hide PagesTo;
      hide Span;
      hide NewEnd;
      hide Expands;
      hide PageUp;
      LinkedAt(hdr, blocks, |blocks| - 1);
      var needed := (s + HEADER_SIZE) % U32;
      ok, left := ExpandBy(s, needed, pages);
      if !ok { return; }
      GrowLinked(hdr, blocks, s);
      NeededSum(hdr[current].size, s);
      if hdr[current].free {
        hdr := hdr[current := hdr[current].(size := (hdr[current].size + needed) % U32)];
      } else {
        var newBlock := current + HEADER_SIZE + hdr[current].size;
        hdr := hdr[newBlock := Header(HEAP_MAGIC, (needed - HEADER_SIZE) % U32, true, 0, current)]
                  [current := hdr[current].(next := newBlock)];
      }
      assert hdr == GrowHeaders(old(hdr), current, s);
      blocks := Grow(blocks, s);
    }

    /** merge_free_blocks. */
    method MergeFreeBlocks(block: nat, ghost k: nat)
      requires Linked(hdr, blocks) && k < |blocks| && block == Addr(blocks, k) && blocks[k].free
      modifies this`hdr, this`blocks
      ensures blocks == Merge(old(blocks), k) && Linked(hdr, blocks)
      ensures WritesHeaders(old(hdr), old(blocks), hdr, old(blocks))
    {
      hide Addr;
      hide Linked;
      hide WritesHeaders;
      hide Join;
      NoWrites(hdr, blocks);
      LinkedAt(hdr, blocks, k);
      if k + 1 < |blocks| { LinkedAt(hdr, blocks, k + 1); }
      var next := hdr[block].next;
      if next != 0 && hdr[next].free {
        JoinLinked(hdr, blocks, k);
        JoinBlocks(blocks, k);
        JoinAddrs(blocks, k);
        hdr := hdr[block := hdr[block].(size := hdr[block].size + HEADER_SIZE + hdr[next].size,
                                        next := hdr[next].next)];
        next := hdr[block].next;
        if next != 0 { hdr := hdr[next := hdr[next].(prev := block)]; }
        blocks := Join(blocks, k);
      }
      ghost var h1, b1 := hdr, blocks;
      LinkedAt(hdr, blocks, k);
      if k > 0 { LinkedAt(hdr, blocks, k - 1); }
      var prev := hdr[block].prev;
      if prev != 0 && hdr[prev].free {
        JoinLinked(hdr, blocks, k - 1);
        hdr := hdr[prev := hdr[prev].(size := hdr[prev].size + HEADER_SIZE + hdr[block].size, next := hdr[block].next)];
        next := hdr[block].next;
        if next != 0 { hdr := hdr[next := hdr[next].(prev := prev)]; }
        blocks := Join(blocks, k - 1);
        JoinKeepsWithin(old(blocks), b1, k);
        ThenWritesOld(old(hdr), old(blocks), h1, hdr, b1);
      }
    }

    /** kfree of NULL or of a pointer into the list; freeing a free block is refused. */
    method KFree(ptr: nat, ghost k: nat)
      requires Valid() && (ptr != 0 ==> k < |blocks| && ptr == Payload(blocks, k))
      modifies this
      ensures Valid() && heapEnd == old(heapEnd) && mapped == old(mapped) && totalAllocs == old(totalAllocs)
      ensures totalFrees == if ptr == 0 || old(blocks)[k].free then old(totalFrees) else (old(totalFrees) + 1) % U32
      ensures blocks == if ptr == 0 || old(blocks)[k].free then old(blocks) else Release(old(blocks), k)
      ensures WritesHeaders(old(hdr), old(blocks), hdr, old(blocks))
    {
      hide Addr;
      hide Linked;
      hide WritesHeaders;
      hide Merge;
      NoWrites(hdr, blocks);
      if ptr == 0 { return; }
      var block := ptr - HEADER_SIZE;
      LinkedAt(hdr, blocks, k);
      assert hdr[block].magic == HEAP_MAGIC;
      if hdr[block].free { return; }
      MarkLinked(hdr, blocks, k, true);
      ReleaseCoalesced(blocks, k);
      ReleaseFacts(blocks, k, 0, 0);
      ReleaseEnd(blocks, k);
      hdr := hdr[block := hdr[block].(free := true)];
      blocks := blocks[k := Block(blocks[k].size, true)];
      CountDown(totalAllocs, totalFrees, UsedCount(old(blocks)));
      totalFrees := (totalFrees + 1) % U32;
      ghost var h1, b1 := hdr, blocks;
      MergeFreeBlocks(block, k);
      SameHeaders(old(blocks), b1);
      ThenWritesOld(old(hdr), old(blocks), h1, hdr, b1);
    }
  }

  lemma InsideFacts(b: seq<Block>, heapEnd: nat)
    requires Inside(b, heapEnd)
    ensures b != [] && Coalesced(b) && Addr(b, |b|) <= heapEnd <= HEAP_MAX && heapEnd % 4096 == 0
  {
  }

  lemma ScanCounts(h0: Headers, b0: seq<Block>, end0: nat, h: Headers, b: seq<Block>, end: nat,
                   s: nat, pages: nat, left: nat, k: nat, current: nat)
    requires Scanning(h0, b0, end0, h, b, end, s, pages, left, k, current)
    ensures UsedCount(b) == UsedCount(b0) && WritesHeaders(h0, b0, h, b) && s < U32 && s % 8 == 0
  {
    hide Malloc;
    hide UsedCount;
    hide WritesHeaders;
  }

  // ---------------------------------------------------------------- frames for growth

  /** What a request for s bytes does to the frames and the mapped pages of the heap. */
  ghost predicate FramesUsed(b: seq<Block>, end: nat, s: nat, pages: nat, map0: set<nat>, ptr: nat, left: nat,
                             map1: set<nat>) {
    var newEnd := end + s + HEADER_SIZE;
    && map0 <= map1
    && (FirstFit(b, 0, s) < |b| ==> ptr != 0 && map1 == map0 && left == pages)
    && (FirstFit(b, 0, s) == |b| && newEnd < U32 ==>
          && (ptr != 0 <==> newEnd <= HEAP_MAX && |Span(end, newEnd)| <= pages)
          && (ptr != 0 ==> map1 == map0 + Span(end, newEnd) && left + |Span(end, newEnd)| == pages))
  }

  /** In the middle of kmalloc, after n growths. */
  ghost predicate Mapping(b0: seq<Block>, end0: nat, pages: nat, map0: set<nat>, b: seq<Block>, end: nat, left: nat,
                          map1: set<nat>, s: nat, n: nat) {
    && b0 != [] && map0 <= map1 && Span(HEAP_START, end) <= map1
    && (n == 0 ==> b == b0 && end == end0 && left == pages && map1 == map0)
    && (n > 0 ==> FirstFit(b0, 0, s) == |b0| && Expands(end0, s, pages))
    && (n == 1 ==> b == Grow(b0, s) && map1 == map0 + Span(end0, NewEnd(end0, s))
                   && left + |Span(end0, NewEnd(end0, s))| == pages)
    && (n > 1 ==> end0 + s + HEADER_SIZE >= U32)
  }

  lemma MapStarts(b: seq<Block>, end: nat, pages: nat, mapped: set<nat>, s: nat)
    requires b != [] && Span(HEAP_START, end) <= mapped
    ensures Mapping(b, end, pages, mapped, b, end, pages, mapped, s, 0)
  {
    hide Span;
  }

  /** Once grown without wrapping, kmalloc does not grow again. */
  lemma MapMeant(b0: seq<Block>, end0: nat, pages: nat, map0: set<nat>, b: seq<Block>, end: nat, left: nat,
                 map1: set<nat>, s: nat, n: nat)
    requires Mapping(b0, end0, pages, map0, b, end, left, map1, s, n) && Inside(b0, end0) && s < U32 && s % 8 == 0
    requires FirstFit(b, 0, s) == |b|
    ensures n > 0 ==> end0 + s + HEADER_SIZE >= U32
    ensures Span(HEAP_START, end) <= map1
    ensures !Expands(end, s, left) ==>
      forall m, rest :: map1 <= m ==> FramesUsed(b0, end0, s, pages, map0, 0, rest, m)
  {
    hide Span;
    hide Grow;
    hide Malloc;
    hide Inside;
    hide NewEnd;
    if n > 0 && end0 + s + HEADER_SIZE < U32 { GrowthMeant(b0, end0, s, pages); }
    if n == 0 && end0 + s + HEADER_SIZE < U32 {
      InsideFacts(b0, end0);
      NewEndIs(end0, s);
      SpanSize(end0, end0 + s + HEADER_SIZE);
    }
  }

  lemma MapGrows(b0: seq<Block>, end0: nat, pages: nat, map0: set<nat>, b: seq<Block>, end: nat, left: nat,
                 map1: set<nat>, s: nat, n: nat, map2: set<nat>)
    requires Mapping(b0, end0, pages, map0, b, end, left, map1, s, n) && (n > 0 ==> end0 + s + HEADER_SIZE >= U32)
    requires b != [] && FirstFit(b, 0, s) == |b| && Expands(end, s, left) && end % 4096 == 0
    requires map2 == map1 + Span(end, NewEnd(end, s)) && Span(HEAP_START, PageUp(NewEnd(end, s))) <= map2
    ensures Mapping(b0, end0, pages, map0, Grow(b, s), PageUp(NewEnd(end, s)),
                    left - PagesTo(end, NewEnd(end, s)), map2, s, n + 1)
  {
    hide Span;
    hide Grow;
    hide NewEnd;
    hide PageUp;
    hide PagesTo;
    SpanSize(end, NewEnd(end, s));
  }

  lemma MapFound(b0: seq<Block>, end0: nat, pages: nat, map0: set<nat>, b: seq<Block>, end: nat, left: nat,
                 map1: set<nat>, s: nat, n: nat)
    requires Mapping(b0, end0, pages, map0, b, end, left, map1, s, n) && Inside(b0, end0)
    requires s < U32 && FirstFit(b, 0, s) < |b|
    ensures Span(HEAP_START, end) <= map1
    ensures forall ptr :: ptr != 0 ==> FramesUsed(b0, end0, s, pages, map0, ptr, left, map1)
  {
    hide Span;
    hide Grow;
    hide NewEnd;
    InsideFacts(b0, end0);
    hide Inside;
    if end0 + s + HEADER_SIZE < U32 {
      NewEndIs(end0, s);
      SpanSize(end0, end0 + s + HEADER_SIZE);
    }
  }

  /** Every byte of a block's payload lies on a mapped page. */
  lemma PayloadMapped(heap: KernelHeap, k: nat, x: nat)
    requires heap.Valid() && k < |heap.blocks|
    requires Payload(heap.blocks, k) <= x < Payload(heap.blocks, k) + heap.blocks[k].size
    ensures x / 4096 in heap.mapped
  {
    hide Linked;
    AddrOrder(heap.blocks, k, |heap.blocks|);
    if k > 0 { AddrOrder(heap.blocks, 0, k); }
    FirstAddr(heap.blocks);
    hide Addr;
    SpanHolds(HEAP_START, heap.heapEnd, x);
    hide Span;
  }

  lemma ExpandFacts(a: nat, newEnd: nat)
    requires a % 4096 == 0 && newEnd <= HEAP_MAX
    ensures PageUp(newEnd) <= HEAP_MAX && |Span(a, newEnd)| == PagesTo(a, newEnd) && Span(a, a) == {}
    ensures if PageUp(newEnd) <= a then PagesTo(a, newEnd) == 0 else a + 4096 * PagesTo(a, newEnd) == PageUp(newEnd)
  {
    PageUpLimit(newEnd);
    SpanSize(a, newEnd);
    PagesToIs(a, newEnd);
  }

  lemma NextSpan(a: nat, n: nat)
    requires a % 4096 == 0
    ensures Span(a, a + 4096 * (n + 1)) == Span(a, a + 4096 * n) + {(a + 4096 * n) / 4096}
  {
  }

  /** The loop of heap_expand stops behind the new end. */
  lemma EndSpan(a: nat, newEnd: nat)
    requires a % 4096 == 0
    ensures Span(a, a + 4096 * PagesTo(a, newEnd)) == Span(a, newEnd)
  {
    PagesToIs(a, newEnd);
  }

  /** The 32-bit sums of kmalloc at the last block. */
  lemma NeededSum(size: nat, s: nat)
    requires s < U32
    ensures var needed := (s + HEADER_SIZE) % U32;
            (size + needed) % U32 == (size + s + HEADER_SIZE) % U32 && (needed - HEADER_SIZE) % U32 == s
  {
    var e := s + HEADER_SIZE;
    if e >= U32 {
      ModShift(size + e, -1);
      ModShift(s, -1);
    }
  }

  lemma CountUp(allocs: nat, frees: nat, used: nat)
    requires (allocs - frees) % U32 == used % U32
    ensures ((allocs + 1) % U32 - frees) % U32 == (used + 1) % U32
  {
    ModAdd(allocs - frees, used, 1);
    ModAdd((allocs + 1) % U32, allocs + 1, 0 - frees);
  }

  lemma CountDown(allocs: nat, frees: nat, used: nat)
    requires (allocs - frees) % U32 == used % U32 && used > 0
    ensures (allocs - (frees + 1) % U32) % U32 == (used - 1) % U32
  {
    ModAdd(allocs - frees, used, -1);
    var q := (frees + 1) / U32;
    assert allocs - (frees + 1) % U32 == allocs - frees - 1 + q * U32;
    ModShift(allocs - frees - 1, q);
  }

  lemma ModAdd(x: int, y: int, d: int)
    requires x % U32 == y % U32
    ensures (x + d) % U32 == (y + d) % U32
  {
    var q := x / U32 - y / U32;
    assert x == y + q * U32;
    ModShift(y + d, q);
  }

  lemma {:induction false} ModShift(x: int, q: int)
    ensures (x + q * U32) % U32 == x % U32
    decreases if q < 0 then -q else q
  {
    if q > 0 { ModShift(x, q - 1); } else if q < 0 { ModShift(x, q + 1); }
  }

  lemma TakeKeepsHeaders(b: seq<Block>, k: nat, s: nat)
    requires k < |b| && b[k].size >= s
    ensures forall a :: IsHeader(b, a) ==> IsHeader(Take(b, k, s), a)
  {
    hide Addr;
    hide Take;
    var c := Take(b, k, s);
    TakeReplaced(b, k, s);
    forall a | IsHeader(b, a)
      ensures IsHeader(c, a)
    {
      var i :| 0 <= i < |b| && Addr(b, i) == a;
      if i <= k {
        ReplacedAddr(b, k, k + 1, c, k + |c| - |b| + 1, i);
        assert Addr(c, i) == a;
      } else {
        ReplacedAddr(b, k, k + 1, c, k + |c| - |b| + 1, i - k - 1);
        assert Addr(c, i + |c| - |b|) == a;
      }
    }
  }

  lemma ThenWrites(h0: Headers, b0: seq<Block>, h1: Headers, b1: seq<Block>, h2: Headers, b2: seq<Block>)
    requires WritesHeaders(h0, b0, h1, b1) && WritesHeaders(h1, b1, h2, b2)
    requires forall a :: IsHeader(b1, a) ==> IsHeader(b2, a)
    ensures WritesHeaders(h0, b0, h2, b2)
  {
    hide IsHeader;
  }

  lemma ThenWritesOld(h0: Headers, b0: seq<Block>, h1: Headers, h2: Headers, b1: seq<Block>)
    requires WritesHeaders(h0, b0, h1, b0) && WritesHeaders(h1, b1, h2, b1)
    requires forall a :: IsHeader(b1, a) ==> IsHeader(b0, a)
    ensures WritesHeaders(h0, b0, h2, b0)
  {
    hide IsHeader;
  }

  lemma JoinKeepsWithin(b0: seq<Block>, b1: seq<Block>, k: nat)
    requires b1 == b0 || (k + 1 < |b0| && b1 == Join(b0, k))
    ensures forall a :: IsHeader(b1, a) ==> IsHeader(b0, a)
  {
    if b1 != b0 {
      JoinAddrs(b0, k);
      forall a | IsHeader(b1, a)
        ensures IsHeader(b0, a)
      {
        var i :| 0 <= i < |b1| && Addr(b1, i) == a;
        if i <= k {
          ReplacedAddr(b0, k, k + 2, b1, k + 1, i);
          assert Addr(b0, i) == a;
        } else {
          ReplacedAddr(b0, k, k + 2, b1, k + 1, i - k - 1);
          assert Addr(b0, i + 1) == a;
        }
      }
    }
  }

  lemma SameHeaders(b0: seq<Block>, b1: seq<Block>)
    requires |b0| == |b1| && forall i :: 0 <= i <= |b0| ==> Addr(b1, i) == Addr(b0, i)
    ensures forall a :: IsHeader(b1, a) ==> IsHeader(b0, a)
  {
    hide Addr;
  }

  lemma JoinEnd(b: seq<Block>, k: nat)
    requires k + 1 < |b|
    ensures Join(b, k) != [] && Addr(Join(b, k), |Join(b, k)|) == Addr(b, |b|)
  {
    JoinAddrs(b, k);
    ReplacedAddr(b, k, k + 2, Join(b, k), k + 1, |b| - k - 2);
  }

  lemma ReleaseEnd(b: seq<Block>, k: nat)
    requires k < |b|
    ensures var c := Release(b, k); c != [] && Addr(c, |c|) == Addr(b, |b|)
  {
    hide Addr;
    hide Join;
    var c := b[k := Block(b[k].size, true)];
    AddrSame(b, c, |b|);
    var d := if k + 1 < |c| && c[k + 1].free then Join(c, k) else c;
    if k + 1 < |c| && c[k + 1].free {
      JoinEnd(c, k);
      JoinBlocks(c, k);
    }
    if k > 0 && d[k - 1].free { JoinEnd(d, k - 1); }
  }

  lemma FirstAddr(b: seq<Block>)
    ensures Addr(b, 0) == HEAP_START
  {
  }

  lemma NoWrites(h: Headers, b: seq<Block>)
    ensures WritesHeaders(h, b, h, b)
  {
  }

  lemma SplitAddrsAt(b: seq<Block>, k: nat, s: nat)
    requires k < |b|
    ensures k < |Split(b, k, s)| && Addr(Split(b, k, s), k) == Addr(b, k)
  {
    AddrSame(b, Split(b, k, s), k);
  }

  /** Flipping a flag after other writes still writes headers only. */
  lemma MarkWrites(h0: Headers, b0: seq<Block>, h1: Headers, b1: seq<Block>, h2: Headers, b2: seq<Block>, k: nat)
    requires WritesHeaders(h0, b0, h1, b1) && k < |b1| == |b2|
    requires forall i :: 0 <= i <= |b1| ==> Addr(b2, i) == Addr(b1, i)
    requires forall a :: a in h2 && a != Addr(b1, k) ==> a in h1 && h2[a] == h1[a]
    ensures WritesHeaders(h0, b0, h2, b2)
  {
    hide Addr;
    forall a | a in h2 && (a !in h0 || h0[a] != h2[a])
      ensures IsHeader(b0, a) || IsHeader(b2, a)
    {
      if a == Addr(b1, k) {
        assert Addr(b2, k) == a;
      } else if IsHeader(b1, a) {
        var i :| 0 <= i < |b1| && Addr(b1, i) == a;
        assert Addr(b2, i) == a;
      }
    }
  }
}
