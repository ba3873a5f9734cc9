/**
 What callers of the kernel heap can rely on, over single calls and over whole runs, exactly when they can, and where
 the code as written departs from it.
 */
module HeapRuns {
  import opened HeapSpec
  import opened HeapMalloc
  import opened Heap

  // ---------------------------------------------------------------- one allocation

  /** The bytes a successful kmalloc sets aside. */
  function Given(b: seq<Block>, heapEnd: nat, s: nat, pages: nat): nat
    requires b != [] && heapEnd <= HEAP_MAX && s < U32 && s % 8 == 0
    requires Choose(b, heapEnd, s, pages).found
  {
    var c := Choose(b, heapEnd, s, pages).blocks;
    TakeSize(c, FirstFit(c, 0, s), s)
  }

  /** The size of block k once it is handed out: the request, or the whole block when the rest is too small. */
  function TakeSize(b: seq<Block>, k: nat, s: nat): (n: nat)
    requires k < |b| && b[k].size >= s
    ensures s <= n <= b[k].size
  {
    TakeReplaced(b, k, s);
    Take(b, k, s)[k].size
  }

  /** A pointer that is not NULL is a new allocation, and nothing else changes; NULL changes no allocation. */
  lemma MallocAllocates(b: seq<Block>, heapEnd: nat, s: nat, pages: nat, p: nat, n: nat)
    requires b != [] && heapEnd <= HEAP_MAX && s < U32 && s % 8 == 0
    ensures var o := Malloc(b, heapEnd, s, pages);
            && (o.ptr != 0 <==> Choose(b, heapEnd, s, pages).found)
            && (o.ptr == 0 ==> (Live(o.blocks, p, n) <==> Live(b, p, n)))
            && (o.ptr != 0 ==> !Live(b, o.ptr, n) && Given(b, heapEnd, s, pages) >= s)
            && (o.ptr != 0 ==>
                  (Live(o.blocks, p, n) <==> Live(b, p, n) || (p == o.ptr && n == Given(b, heapEnd, s, pages))))
  {
    hide Live;
    hide Take;
    hide Addr;
    hide Malloc;
    hide Choose;
    MallocChoice(b, heapEnd, s, pages);
    ChoiceLive(b, heapEnd, s, pages, p, n);
    var c := Choose(b, heapEnd, s, pages);
    if c.found {
      var k := FirstFit(c.blocks, 0, s);
      ChoiceLive(b, heapEnd, s, pages, Payload(c.blocks, k), n);
      TakeLive(c.blocks, k, s, p, n);
    }
  }

  /** kmalloc served the caller: the blocks are inside the heap, and the pointer is NULL or leads to bytes enough. */
  ghost predicate Served(o: Outcome, size: nat) {
    Inside(o.blocks, o.heapEnd) && (o.ptr != 0 ==> exists n: nat :: n >= size && Live(o.blocks, o.ptr, n))
  }

  /** kmalloc serves every 32-bit request exactly when it can handle the size rounded up, and the rounding does not
      wrap or nothing is handed out. */
  lemma ServedExactly(b: seq<Block>, heapEnd: nat, size: nat, pages: nat)
    requires Inside(b, heapEnd) && 0 < size < U32
    ensures Served(KMallocOutcome(b, heapEnd, size, pages), size) <==>
      && Contained(b, heapEnd, AlignUp(size), pages)
      && (size + 7 < U32 || (FirstFit(b, 0, AlignUp(size)) == |b| && !Expands(heapEnd, AlignUp(size), pages)))
  {
    hide Live;
    hide Addr;
    hide Malloc;
    hide Contained;
    hide Inside;
    hide Given;
    InsideFacts(b, heapEnd);
    var s := AlignUp(size);
    var o := Malloc(b, heapEnd, s, pages);
    MallocContained(b, heapEnd, s, pages);
    MallocAllocates(b, heapEnd, s, pages, o.ptr, 0);
    if o.ptr != 0 {
      var n := Given(b, heapEnd, s, pages);
      MallocAllocates(b, heapEnd, s, pages, o.ptr, n);
    }
    if size + 7 >= U32 {
      TinyRequest(b, heapEnd, size, pages);
    }
  }

  /** The largest requests round up to zero, and whatever is handed out is too small. */
  lemma TinyRequest(b: seq<Block>, heapEnd: nat, size: nat, pages: nat)
    requires Inside(b, heapEnd) && size < U32 <= size + 7
    ensures var s := AlignUp(size);
            var o := Malloc(b, heapEnd, s, pages);
            && s == 0 && Inside(o.blocks, o.heapEnd)
            && (o.ptr == 0 <==> FirstFit(b, 0, s) == |b| && !Expands(heapEnd, s, pages))
            && forall n: nat :: Live(o.blocks, o.ptr, n) ==> n < size
  {
    hide Addr;
    hide Malloc;
    var s := AlignUp(size);
    assert s == 0;
    var o := Malloc(b, heapEnd, s, pages);
    MallocContained(b, heapEnd, s, pages);
    ZeroOutcome(b, heapEnd, pages);
    forall n: nat | Live(o.blocks, o.ptr, n)
      ensures n < size
    {
      var i :| 0 <= i < |o.blocks| && !o.blocks[i].free && Payload(o.blocks, i) == o.ptr && o.blocks[i].size == n;
      SizeInside(o.blocks, i);
    }
  }

  lemma ZeroOutcome(b: seq<Block>, heapEnd: nat, pages: nat)
    requires Inside(b, heapEnd)
    ensures Malloc(b, heapEnd, 0, pages).ptr == 0 <==> FirstFit(b, 0, 0) == |b| && !Expands(heapEnd, 0, pages)
  {
    hide Addr;
    hide Take;
    hide Grow;
    if FirstFit(b, 0, 0) == |b| && Expands(heapEnd, 0, pages) { GrowthMeant(b, heapEnd, 0, pages); }
  }

  // ---------------------------------------------------------------- runs

  datatype Op = Allocate(size: nat, pages: nat) | Free(ptr: nat)

  datatype State = State(blocks: seq<Block>, heapEnd: nat, allocs: nat, frees: nat)

  /** The block whose payload starts at p, |b| if there is none. */
  function BlockAt(b: seq<Block>, p: nat, i: nat): (k: nat)
    requires i <= |b|
    ensures i <= k <= |b| && (k < |b| ==> Payload(b, k) == p)
    ensures forall j :: i <= j < k ==> Payload(b, j) != p
    decreases |b| - i
  {
    if i == |b| || Payload(b, i) == p then i else BlockAt(b, p, i + 1)
  }

  /** A call a C program may make: any 32-bit size, and kfree of NULL or of the payload of a listed block. */
  predicate Legal(st: State, op: Op) {
    && st.blocks != [] && st.heapEnd <= HEAP_MAX
    && (op.Allocate? ==> op.size < U32)
    && (op.Free? ==> op.ptr == 0 || BlockAt(st.blocks, op.ptr, 0) < |st.blocks|)
  }

  function Step(st: State, op: Op): State
    requires Legal(st, op)
  {
    match op
    case Allocate(size, pages) =>
      var o := KMallocOutcome(st.blocks, st.heapEnd, size, pages);
      State(o.blocks, o.heapEnd, if o.ptr != 0 then st.allocs + 1 else st.allocs, st.frees)
    case Free(ptr) => FreeStep(st, ptr)
  }

  function FreeStep(st: State, ptr: nat): State
    requires Legal(st, Free(ptr))
  {
    if ptr == 0 then st else
    var k := BlockAt(st.blocks, ptr, 0);
    if st.blocks[k].free then st else State(Release(st.blocks, k), st.heapEnd, st.allocs, st.frees + 1)
  }

  /** Every kfree is handled; a kmalloc is as Contained says. */
  predicate Handled(st: State, op: Op)
    requires st.blocks != []
  {
    op.Allocate? && op.size > 0 ==> Contained(st.blocks, st.heapEnd, AlignUp(op.size), op.pages)
  }

  ghost predicate Good(st: State) {
    Inside(st.blocks, st.heapEnd) && st.allocs - st.frees == UsedCount(st.blocks)
  }

  /** A call keeps the heap in order exactly when it is handled. */
  lemma StepGood(st: State, op: Op)
    requires Good(st) && Legal(st, op)
    ensures Good(Step(st, op)) <==> Handled(st, op)
  {
    hide Addr;
    hide Take;
    hide Release;
    hide UsedCount;
    hide Malloc;
    hide Contained;
    hide Inside;
    match op
    case Allocate(size, pages) =>
      if size > 0 {
        MallocContained(st.blocks, st.heapEnd, AlignUp(size), pages);
        MallocCount(st.blocks, st.heapEnd, AlignUp(size), pages);
      }
    case Free(ptr) =>
      if ptr != 0 {
        var k := BlockAt(st.blocks, ptr, 0);
        if !st.blocks[k].free { ReleaseInside(st.blocks, st.heapEnd, k); }
      }
  }

  lemma {:induction false} MallocCount(b: seq<Block>, heapEnd: nat, s: nat, pages: nat)
    requires b != [] && heapEnd <= HEAP_MAX && s < U32 && s % 8 == 0
    ensures var o := Malloc(b, heapEnd, s, pages);
            UsedCount(o.blocks) == UsedCount(b) + (if o.ptr != 0 then 1 else 0)
    decreases Rank(b, heapEnd, s)
  {
    hide UsedCount;
    hide Take;
    hide Grow;
    hide Addr;
    hide Rank;
    hide NewEnd;
    hide PagesTo;
    hide PageUp;
    var k := FirstFit(b, 0, s);
    if k < |b| {
      TakeCount(b, k, s);
    } else if Expands(heapEnd, s, pages) {
      var newEnd := NewEnd(heapEnd, s);
      GrowRank(b, heapEnd, s);
      GrowKeeps(b, s);
      MallocCount(Grow(b, s), PageUp(newEnd), s, pages - PagesTo(heapEnd, newEnd));
    }
  }

  lemma ReleaseInside(b: seq<Block>, heapEnd: nat, k: nat)
    requires Inside(b, heapEnd) && k < |b| && !b[k].free
    ensures Inside(Release(b, k), heapEnd) && UsedCount(Release(b, k)) + 1 == UsedCount(b)
  {
    hide Addr;
    hide Release;
    hide UsedCount;
    ReleaseCoalesced(b, k);
    ReleaseFacts(b, k, 0, 0);
    ReleaseEnd(b, k);
  }

  /** Consecutive states of a run of legal calls. */
  ghost predicate IsTrace(states: seq<State>, ops: seq<Op>) {
    && |states| == |ops| + 1
    && forall i :: 0 <= i < |ops| ==> Legal(states[i], ops[i]) && states[i + 1] == Step(states[i], ops[i])
  }

  /** The heap after heap_init. */
  function Fresh(): (st: State)
    ensures Good(st)
  {
    var st := State([Block(HEAP_INITIAL - HEADER_SIZE, true)], HEAP_START + HEAP_INITIAL, 0, 0);
    assert Addr(st.blocks, 1) == Addr(st.blocks, 0) + HEADER_SIZE + st.blocks[0].size;
    UsedCount12(st.blocks[0], st.blocks[0]);
    st
  }

  /** Over every run of calls from a good heap, such as the one after heap_init: the heap is in order all the way
      exactly when every call is one the code handles. */
  lemma EveryRun(states: seq<State>, ops: seq<Op>)
    requires IsTrace(states, ops) && Good(states[0])
    ensures (forall i :: 0 <= i < |states| ==> Good(states[i]))
       <==> (forall i :: 0 <= i < |ops| ==> Handled(states[i], ops[i]))
  {
    hide Good;
    hide Handled;
    if forall i :: 0 <= i < |ops| ==> Handled(states[i], ops[i]) {
      forall i | 0 <= i < |states|
        ensures Good(states[i])
      {
        GoodUpTo(states, ops, i);
      }
    }
    if forall i :: 0 <= i < |states| ==> Good(states[i]) {
      forall i | 0 <= i < |ops|
        ensures Handled(states[i], ops[i])
      {
        assert Good(states[i]) && Good(states[i + 1]);
        StepGood(states[i], ops[i]);
      }
    }
  }

  lemma {:induction false} GoodUpTo(states: seq<State>, ops: seq<Op>, i: nat)
    requires IsTrace(states, ops) && Good(states[0]) && i < |states|
    requires forall j :: 0 <= j < i ==> Handled(states[j], ops[j])
    ensures Good(states[i])
  {
    hide Good;
    hide Handled;
    if i > 0 {
      GoodUpTo(states, ops, i - 1);
      assert Handled(states[i - 1], ops[i - 1]);
      StepGood(states[i - 1], ops[i - 1]);
    }
  }

  /** In a good heap payloads meet neither each other nor a header, and lie inside the heap. */
  lemma GoodPayloads(st: State, i: nat, j: nat)
    requires Good(st)
    ensures i < j < |st.blocks| ==> Payload(st.blocks, i) + st.blocks[i].size <= Addr(st.blocks, j)
    ensures i < |st.blocks| ==> Payload(st.blocks, i) + st.blocks[i].size <= st.heapEnd
  {
    hide Addr;
    if i < j < |st.blocks| { AddrOrder(st.blocks, i, j); }
    if i < |st.blocks| { AddrOrder(st.blocks, i, |st.blocks|); }
  }

  /** A payload stays live, with its size, over every call but its own kfree. */
  lemma StepLive(st: State, op: Op, p: nat, n: nat)
    requires Good(st) && Legal(st, op) && Live(st.blocks, p, n) && op != Free(p)
    ensures Live(Step(st, op).blocks, p, n)
  {
    hide Live;
    hide Addr;
    hide Release;
    hide UsedCount;
    hide Malloc;
    hide Given;
    match op
    case Allocate(size, pages) =>
      if size > 0 { MallocAllocates(st.blocks, st.heapEnd, AlignUp(size), pages, p, n); }
    case Free(ptr) =>
      if ptr != 0 {
        var k := BlockAt(st.blocks, ptr, 0);
        if !st.blocks[k].free { ReleaseFacts(st.blocks, k, p, n); }
      }
  }

  /** Over every run of handled calls: what a caller was given stays his, with its size, until he frees it. */
  lemma {:induction false} LiveUntilFreed(states: seq<State>, ops: seq<Op>, i: nat, j: nat, p: nat, n: nat)
    requires IsTrace(states, ops) && Good(states[0]) && i <= j < |states|
    requires forall m :: 0 <= m < |ops| ==> Handled(states[m], ops[m])
    requires Live(states[i].blocks, p, n) && forall m :: i <= m < j ==> ops[m] != Free(p)
    ensures Live(states[j].blocks, p, n)
    decreases j
  {
    hide Live;
    hide Good;
    if i < j {
      LiveUntilFreed(states, ops, i, j - 1, p, n);
      GoodUpTo(states, ops, j - 1);
      StepLive(states[j - 1], ops[j - 1], p, n);
    }
  }

  // ---------------------------------------------------------------- runs on the linked headers

  /** The linked headers hold the state of a run, the counters modulo 2^32. */
  ghost predicate Holds(heap: KernelHeap, st: State)
    reads heap
  {
    && heap.blocks == st.blocks && heap.heapEnd == st.heapEnd
    && heap.totalAllocs == st.allocs % U32 && heap.totalFrees == st.frees % U32
  }

  /** A handled call, carried out on the linked headers, is the step of the run. */
  method Perform(heap: KernelHeap, op: Op, ghost st: State)
    requires heap.Valid() && Holds(heap, st) && Legal(st, op) && Handled(st, op)
    modifies heap
    ensures heap.Valid() && Holds(heap, Step(st, op))
    ensures WritesHeaders(old(heap.hdr), st.blocks, heap.hdr, st.blocks)
      || WritesHeaders(old(heap.hdr), st.blocks, heap.hdr, heap.blocks)
  {
    hide KernelHeap.Valid;
    hide Malloc;
    hide Release;
    hide Payload;
    hide WritesHeaders;
    CountNext(st.allocs);
    CountNext(st.frees);
    match op
    case Allocate(size, pages) => var ptr, left := heap.KMalloc(size, pages);
    case Free(ptr) => heap.KFree(ptr, if ptr == 0 then 0 else BlockAt(st.blocks, ptr, 0));
  }

  lemma CountNext(n: nat)
    ensures (n % U32 + 1) % U32 == (n + 1) % U32
  {
    ModAdd(n % U32, n, 1);
  }

  /** A whole run of handled calls on the linked headers ends in the last state of its trace. */
  method Carry(heap: KernelHeap, ops: seq<Op>, ghost states: seq<State>)
    requires heap.Valid() && IsTrace(states, ops) && Holds(heap, states[0])
    requires forall i :: 0 <= i < |ops| ==> Handled(states[i], ops[i])
    modifies heap
    ensures heap.Valid() && Holds(heap, states[|ops|])
  {
    hide KernelHeap.Valid;
    hide Holds;
    hide Handled;
    for i := 0 to |ops|
      invariant heap.Valid() && Holds(heap, states[i])
    {
      Perform(heap, ops[i], states[i]);
    }
  }

  /** Every byte that a caller holds lies on a mapped page. */
  lemma LiveMapped(heap: KernelHeap, st: State, p: nat, n: nat, x: nat)
    requires heap.Valid() && Holds(heap, st) && Live(st.blocks, p, n) && p <= x < p + n
    ensures x / 4096 in heap.mapped
  {
    hide KernelHeap.Valid;
    var k :| 0 <= k < |st.blocks| && !st.blocks[k].free && Payload(st.blocks, k) == p && st.blocks[k].size == n;
    PayloadMapped(heap, k, x);
  }

  // ---------------------------------------------------------------- freeing undoes allocating

  lemma BlockAtPayload(b: seq<Block>, k: nat)
    requires k < |b|
    ensures BlockAt(b, Payload(b, k), 0) == k
  {
    hide Addr;
    var j := BlockAt(b, Payload(b, k), 0);
    if j < k { AddrOrder(b, j, k); }
  }

  /** kfree of what kmalloc has just given restores the blocks as they were, but for growth of the heap; and kmalloc
      gives less than 44 bytes more than was asked for. */
  lemma FreeUndoesMalloc(st: State, size: nat, pages: nat)
    requires Good(st) && 0 < size && size + 7 < U32
    requires KMallocOutcome(st.blocks, st.heapEnd, size, pages).ptr != 0
    ensures var ptr, st' := KMallocOutcome(st.blocks, st.heapEnd, size, pages).ptr, Step(st, Allocate(size, pages));
            var s := AlignUp(size);
            && Legal(st', Free(ptr))
            && Step(st', Free(ptr)).blocks == Choose(st.blocks, st.heapEnd, s, pages).blocks
            && (FirstFit(st.blocks, 0, s) < |st.blocks| ==> Step(st', Free(ptr)).blocks == st.blocks)
            && exists n :: size <= n < size + 44 && Live(st'.blocks, ptr, n)
  {
    hide Malloc;
    hide Take;
    hide Release;
    hide Addr;
    hide Coalesced;
    var s := AlignUp(size);
    var c := Choose(st.blocks, st.heapEnd, s, pages);
    var k := FirstFit(c.blocks, 0, s);
    MallocChoice(st.blocks, st.heapEnd, s, pages);
    ChoiceCoalesced(st.blocks, st.heapEnd, s, pages);
    MallocAllocates(st.blocks, st.heapEnd, s, pages, 0, 0);
    TakeWaste(c.blocks, k, s);
    TakeKeepsPayload(c.blocks, k, s);
    ReleaseTake(c.blocks, k, s);
    var t := Take(c.blocks, k, s);
    BlockAtPayload(t, k);
    assert Live(t, Payload(t, k), t[k].size);
  }

  lemma TakeKeepsPayload(b: seq<Block>, k: nat, s: nat)
    requires k < |b| && b[k].size >= s
    ensures var t := Take(b, k, s); k < |t| && Payload(t, k) == Payload(b, k) && !t[k].free
  {
    var t := Take(b, k, s);
    AddrSame(b, t, k);
  }

  // ---------------------------------------------------------------- requests that break the heap

  const FIRST := Block(HEAP_INITIAL - HEADER_SIZE, true)

  lemma FreshIs()
    ensures Fresh() == State([FIRST], HEAP_START + HEAP_INITIAL, 0, 0) && Good(Fresh())
  {
  }

  /** kmalloc(0x30000000) on the first block: the sum for the new end wraps to 0x10014. */
  lemma OversizeNumbers(pages: nat)
    ensures var s, end := 0x3000_0000, HEAP_START + HEAP_INITIAL;
            && AlignUp(s) == s && FirstFit([FIRST], 0, s) == 1 && NewEnd(end, s) == 0x1_0014
            && PageUp(0x1_0014) == 0x1_1000 && Expands(end, s, pages)
            && FirstFit(Grow([FIRST], s), 0, s) == 0 && end + s + HEADER_SIZE >= U32
  {
    var s := 0x3000_0000;
    assert Grow([FIRST], s) == [Block(HEAP_INITIAL - HEADER_SIZE + s + HEADER_SIZE, true)];
  }

  /** From the heap after heap_init, kmalloc(0x30000000) hands out a block that leaves the heap, and sets the end of the
      heap to 0x11000. */
  lemma OversizeBreaks(pages: nat)
    ensures var op := Allocate(0x3000_0000, pages);
            && Legal(Fresh(), op) && !Handled(Fresh(), op) && !Good(Step(Fresh(), op))
            && Step(Fresh(), op).heapEnd == 0x1_1000 && Step(Fresh(), op).allocs == 1
  {
    hide Fresh;
    hide AlignUp;
    hide FirstFit;
    hide Grow;
    hide Take;
    hide NewEnd;
    hide PageUp;
    hide PagesTo;
    hide Malloc;
    hide Good;
    hide Addr;
    FreshIs();
    OversizeNumbers(pages);
    MallocOnce([FIRST], HEAP_START + HEAP_INITIAL, 0x3000_0000, pages);
    StepGood(Fresh(), Allocate(0x3000_0000, pages));
  }

  /** kmalloc(0xFFFFFFFF) hands out no bytes at all. */
  lemma LargestRequestEmpty(pages: nat)
    ensures TooLittle(Fresh(), 0xFFFF_FFFF, pages)
  {
    hide Fresh;
    hide TooLittle;
    hide Good;
    hide Inside;
    hide FirstFit;
    FreshIs();
    InsideFresh();
    assert [FIRST][0].free;
    TinyTooLittle(Fresh(), 0xFFFF_FFFF, pages);
  }

  /** The caller of kmalloc gets a pointer, but not to the bytes he asked for. */
  ghost predicate TooLittle(st: State, size: nat, pages: nat) {
    && Legal(st, Allocate(size, pages))
    && var o := KMallocOutcome(st.blocks, st.heapEnd, size, pages);
       o.ptr != 0 && !Served(o, size)
  }

  lemma TinyTooLittle(st: State, size: nat, pages: nat)
    requires Inside(st.blocks, st.heapEnd) && size < U32 <= size + 7 && FirstFit(st.blocks, 0, 0) < |st.blocks|
    ensures TooLittle(st, size, pages)
  {
    hide Malloc;
    hide FirstFit;
    hide Expands;
    hide Contained;
    hide Addr;
    TinyRequest(st.blocks, st.heapEnd, size, pages);
    ServedExactly(st.blocks, st.heapEnd, size, pages);
  }

  lemma InsideFresh()
    ensures Inside([FIRST], HEAP_START + HEAP_INITIAL)
  {
    FreshIs();
  }

  // ---------------------------------------------------------------- the split without its guard

  /** The list that split_block builds from its 32-bit remainder, without a guard. */
  function LiteralSplit(b: seq<Block>, k: nat, s: nat): (c: seq<Block>)
    requires k < |b|
    ensures k < |c|
  {
    var remaining := (b[k].size - s - HEADER_SIZE) % U32;
    if remaining < MIN_BLOCK_SIZE then b
    else b[..k] + [Block(s, b[k].free), Block(remaining, true)] + b[k + 1..]
  }

  function LiteralTake(b: seq<Block>, k: nat, s: nat): seq<Block>
    requires k < |b|
  {
    var c := LiteralSplit(b, k, s);
    c[k := Block(c[k].size, false)]
  }

  /** kmalloc as written. */
  function LiteralMalloc(b: seq<Block>, heapEnd: nat, s: nat, pages: nat): Outcome
    requires b != [] && heapEnd <= HEAP_MAX && s < U32 && s % 8 == 0
  {
    var c := Choose(b, heapEnd, s, pages);
    var k := FirstFit(c.blocks, 0, s);
    if c.found then Outcome(Payload(c.blocks, k), LiteralTake(c.blocks, k, s), c.heapEnd)
    else Outcome(0, c.blocks, c.heapEnd)
  }

  /** The block kmalloc picks, if any, has room for the request and a header. */
  predicate Roomy(b: seq<Block>, heapEnd: nat, s: nat, pages: nat)
    requires b != [] && heapEnd <= HEAP_MAX && s < U32 && s % 8 == 0
  {
    var c := Choose(b, heapEnd, s, pages);
    c.found ==> c.blocks[FirstFit(c.blocks, 0, s)].size >= s + HEADER_SIZE
  }

  lemma Remainder(size: nat, s: nat)
    requires s <= size < U32
    ensures (size - s - HEADER_SIZE) % U32 ==
      if size >= s + HEADER_SIZE then size - s - HEADER_SIZE else size - s - HEADER_SIZE + U32
  {
  }

  /** A block with room for a header is split as meant; otherwise the list becomes 4 GB longer. */
  lemma LiteralSplitAgrees(b: seq<Block>, k: nat, s: nat)
    requires k < |b| && s <= b[k].size < U32
    ensures b[k].size >= s + HEADER_SIZE ==> LiteralTake(b, k, s) == Take(b, k, s)
    ensures b[k].size < s + HEADER_SIZE ==>
      var c := LiteralTake(b, k, s); Addr(c, |c|) >= U32
  {
    Remainder(b[k].size, s);
    if b[k].size < s + HEADER_SIZE {
      var c := LiteralTake(b, k, s);
      hide Addr;
      AddrOrder(c, k + 1, |c|);
    }
  }

  /** The code as written keeps the blocks inside the heap exactly when the request is one kmalloc can handle and the
      block it picks has room for another header; then it does what is meant. */
  lemma LiteralExact(b: seq<Block>, heapEnd: nat, s: nat, pages: nat)
    requires Inside(b, heapEnd) && s < U32 && s % 8 == 0
    ensures var o := LiteralMalloc(b, heapEnd, s, pages);
            Inside(o.blocks, o.heapEnd) <==> Contained(b, heapEnd, s, pages) && Roomy(b, heapEnd, s, pages)
    ensures Roomy(b, heapEnd, s, pages) ==> LiteralMalloc(b, heapEnd, s, pages) == Malloc(b, heapEnd, s, pages)
  {
    hide Addr;
    hide Take;
    hide LiteralTake;
    hide Malloc;
    hide Choose;
    hide Contained;
    MallocChoice(b, heapEnd, s, pages);
    MallocContained(b, heapEnd, s, pages);
    forall j | 0 <= j < |b|
      ensures b[j].size < U32
    {
      SizeInside(b, j);
    }
    ChoiceNarrow(b, heapEnd, s, pages);
    var c := Choose(b, heapEnd, s, pages);
    if c.found { LiteralSplitAgrees(c.blocks, FirstFit(c.blocks, 0, s), s); }
  }

  /** A call of the code as written. */
  function LiteralStep(st: State, op: Op): State
    requires Legal(st, op)
  {
    match op
    case Allocate(size, pages) =>
      if size == 0 then st else
      var o := LiteralMalloc(st.blocks, st.heapEnd, AlignUp(size), pages);
      State(o.blocks, o.heapEnd, if o.ptr != 0 then st.allocs + 1 else st.allocs, st.frees)
    case Free(ptr) => FreeStep(st, ptr)
  }

  /** The block a call picks has room for another header. */
  predicate RoomyCall(st: State, op: Op)
    requires Legal(st, op)
  {
    op.Allocate? && op.size > 0 ==> Roomy(st.blocks, st.heapEnd, AlignUp(op.size), op.pages)
  }

  /** A call of the code as written keeps the heap in order exactly when it is handled and the block it picks has room;
      and then it is the call of the guarded code. */
  lemma LiteralStepExact(st: State, op: Op)
    requires Good(st) && Legal(st, op)
    ensures Good(LiteralStep(st, op)) <==> Handled(st, op) && RoomyCall(st, op)
    ensures Good(LiteralStep(st, op)) ==> LiteralStep(st, op) == Step(st, op)
  {
    hide Addr;
    hide UsedCount;
    hide Malloc;
    hide LiteralMalloc;
    hide Choose;
    hide Inside;
    hide Contained;
    hide Release;
    hide Roomy;
    StepGood(st, op);
    if op.Allocate? && op.size > 0 { LiteralExact(st.blocks, st.heapEnd, AlignUp(op.size), op.pages); }
  }

  ghost predicate LiteralTrace(states: seq<State>, ops: seq<Op>) {
    && |states| == |ops| + 1
    && forall i :: 0 <= i < |ops| ==> Legal(states[i], ops[i]) && states[i + 1] == LiteralStep(states[i], ops[i])
  }

  /** Over every run of the code as written: the heap is in order all the way exactly when every call is handled and
      every block it picks has room for another header. */
  lemma EveryLiteralRun(states: seq<State>, ops: seq<Op>)
    requires LiteralTrace(states, ops) && Good(states[0])
    ensures (forall i :: 0 <= i < |states| ==> Good(states[i]))
       <==> (forall i :: 0 <= i < |ops| ==> Handled(states[i], ops[i]) && RoomyCall(states[i], ops[i]))
  {
    hide Good;
    hide Handled;
    hide RoomyCall;
    hide LiteralStep;
    if forall i :: 0 <= i < |ops| ==> Handled(states[i], ops[i]) && RoomyCall(states[i], ops[i]) {
      forall i | 0 <= i < |states|
        ensures Good(states[i])
      {
        LiteralGoodUpTo(states, ops, i);
      }
    }
    if forall i :: 0 <= i < |states| ==> Good(states[i]) {
      forall i | 0 <= i < |ops|
        ensures Handled(states[i], ops[i]) && RoomyCall(states[i], ops[i])
      {
        assert Good(states[i]) && Good(states[i + 1]);
        LiteralStepExact(states[i], ops[i]);
      }
    }
  }

  lemma {:induction false} LiteralGoodUpTo(states: seq<State>, ops: seq<Op>, i: nat)
    requires LiteralTrace(states, ops) && Good(states[0]) && i < |states|
    requires forall j :: 0 <= j < |ops| ==> Handled(states[j], ops[j]) && RoomyCall(states[j], ops[j])
    ensures Good(states[i])
  {
    hide Good;
    hide Handled;
    hide RoomyCall;
    hide LiteralStep;
    if i > 0 {
      LiteralGoodUpTo(states, ops, i - 1);
      LiteralStepExact(states[i - 1], ops[i - 1]);
    }
  }

  /** kmalloc(8) as written, when block k is the first fit. */
  lemma EightBytes(st: State, pages: nat, k: nat)
    requires st.blocks != [] && st.heapEnd <= HEAP_MAX && k < |st.blocks| && FirstFit(st.blocks, 0, 8) == k
    ensures AlignUp(8) == 8
    ensures LiteralStep(st, Allocate(8, pages))
         == State(LiteralTake(st.blocks, k, 8), st.heapEnd, st.allocs + 1, st.frees)
    ensures Roomy(st.blocks, st.heapEnd, 8, pages) <==> st.blocks[k].size >= 8 + HEADER_SIZE
    ensures Handled(st, Allocate(8, pages))
  {
    hide LiteralTake;
  }

  /** The states of a run that asks for 8 bytes twice and frees the first: the heap after heap_init, and the blocks
      after each call. */
  function AfterOne(): State {
    State([Block(8, false), Block(HEAP_INITIAL - 48, true)], HEAP_START + HEAP_INITIAL, 1, 0)
  }

  function AfterTwo(): State {
    State([Block(8, false), Block(8, false), Block(HEAP_INITIAL - 76, true)], HEAP_START + HEAP_INITIAL, 2, 0)
  }

  function AfterFree(): State {
    State([Block(8, true), Block(8, false), Block(HEAP_INITIAL - 76, true)], HEAP_START + HEAP_INITIAL, 2, 1)
  }

  ghost predicate LiteralGives(st: State, op: Op, st': State) { Legal(st, op) && LiteralStep(st, op) == st' }

  lemma FirstEight(pages: nat)
    ensures LiteralGives(Fresh(), Allocate(8, pages), AfterOne()) && Good(AfterOne())
  {
    hide Fresh;
    hide LiteralStep;
    hide Good;
    hide Roomy;
    FreshIs();
    assert FirstFit([FIRST], 0, 8) == 0;
    EightBytes(Fresh(), pages, 0);
    assert LiteralTake([FIRST], 0, 8) == AfterOne().blocks;
    LiteralStepExact(Fresh(), Allocate(8, pages));
  }

  lemma SecondEight(pages: nat)
    requires Good(AfterOne())
    ensures LiteralStep(AfterOne(), Allocate(8, pages)) == AfterTwo() && Good(AfterTwo())
  {
    hide LiteralStep;
    hide Good;
    hide Roomy;
    var b := AfterOne().blocks;
    assert FirstFit(b, 0, 8) == FirstFit(b, 1, 8) == 1;
    EightBytes(AfterOne(), pages, 1);
    assert LiteralTake(b, 1, 8) == AfterTwo().blocks;
    LiteralStepExact(AfterOne(), Allocate(8, pages));
  }

  lemma FreeFirst()
    ensures Legal(AfterTwo(), Free(HEAP_START + HEADER_SIZE))
    ensures LiteralStep(AfterTwo(), Free(HEAP_START + HEADER_SIZE)) == AfterFree()
  {
    var b := AfterTwo().blocks;
    assert BlockAt(b, HEAP_START + HEADER_SIZE, 0) == 0;
    assert Release(b, 0) == AfterFree().blocks;
  }

  lemma FreeGood()
    requires Good(AfterTwo())
    ensures Good(AfterFree())
  {
    hide LiteralStep;
    hide Good;
    hide Roomy;
    FreeFirst();
    LiteralStepExact(AfterTwo(), Free(HEAP_START + HEADER_SIZE));
  }

  lemma ThirdEight(pages: nat)
    requires Good(AfterFree())
    ensures Legal(AfterFree(), Allocate(8, pages)) && !Good(LiteralStep(AfterFree(), Allocate(8, pages)))
  {
    hide LiteralStep;
    hide Good;
    hide Roomy;
    assert FirstFit(AfterFree().blocks, 0, 8) == 0;
    EightBytes(AfterFree(), pages, 0);
    LiteralStepExact(AfterFree(), Allocate(8, pages));
  }

  ghost predicate GoodBut(states: seq<State>) {
    states != [] && (forall i :: 0 <= i < |states| - 1 ==> Good(states[i])) && !Good(states[|states| - 1])
  }

  /** A run of the code as written from heap_init whose last call, and no other, takes the heap out of order. */
  ghost predicate BreaksAtLast(states: seq<State>, ops: seq<Op>) {
    GoodBut(states) && states[0] == Fresh() && LiteralTrace(states, ops)
  }

  function Eights(pages: nat): (ops: seq<Op>)
    ensures |ops| == 4
  {
    [Allocate(8, pages), Allocate(8, pages), Free(HEAP_START + HEADER_SIZE), Allocate(8, pages)]
  }

  /** A free block of exactly the requested size is enough to break the heap of the code as written: from heap_init two
      allocations of 8 bytes, the first one freed, and 8 bytes again. */
  lemma LiteralSplitBreaks(pages: nat)
    ensures exists states: seq<State> :: BreaksAtLast(states, Eights(pages))
  {
    hide Fresh;
    hide LiteralStep;
    hide Good;
    hide Legal;
    hide AfterOne;
    hide AfterTwo;
    hide AfterFree;
    FreshIs();
    FirstEight(pages);
    SecondEight(pages);
    FreeFirst();
    FreeGood();
    ThirdEight(pages);
    EightLegal(pages);
    var states := [Fresh(), AfterOne(), AfterTwo(), AfterFree(), LiteralStep(AfterFree(), Allocate(8, pages))];
    assert LiteralTrace(states, Eights(pages));
    assert GoodBut(states);
    assert BreaksAtLast(states, Eights(pages));
  }

  lemma EightLegal(pages: nat)
    ensures Legal(AfterOne(), Allocate(8, pages))
  {
  }
}
