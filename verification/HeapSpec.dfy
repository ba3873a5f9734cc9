/**
 The kernel heap as a sequence of blocks laid end to end (kernel/kernel/heap.c): what allocation and freeing
 do to the sequence, independent of the linked headers that represent it.
 */
module HeapSpec {

  const HEADER_SIZE := 20        // magic, size, free (padded), next, prev
  const MIN_BLOCK_SIZE := 16
  const HEAP_START := 0xD000_0000
  const HEAP_INITIAL := 0x1_0000
  const HEAP_MAX := 0xD100_0000
  const U32 := 0x1_0000_0000

  datatype Block = Block(size: nat, free: bool)

  /** The address of the header of block i; Addr(b, |b|) is where the last block ends. */
  function Addr(b: seq<Block>, i: nat): (a: nat)
    requires i <= |b|
    ensures a >= HEAP_START
  {
    if i == 0 then HEAP_START else Addr(b, i - 1) + HEADER_SIZE + b[i - 1].size
  }

  function Payload(b: seq<Block>, i: nat): nat
    requires i < |b|
  {
    Addr(b, i) + HEADER_SIZE
  }

  lemma {:induction false} AddrOrder(b: seq<Block>, i: nat, j: nat)
    requires i < j <= |b|
    ensures Addr(b, i) + HEADER_SIZE + b[i].size <= Addr(b, j)
  {
    if i + 1 < j { AddrOrder(b, i, j - 1); }
  }

  lemma {:induction false} AddrSame(b: seq<Block>, c: seq<Block>, n: nat)
    requires n <= |b| && n <= |c| && forall j :: 0 <= j < n ==> b[j].size == c[j].size
    ensures Addr(b, n) == Addr(c, n)
  {
    if n > 0 { AddrSame(b, c, n - 1); }
  }

  lemma {:induction false} AddrShift(b: seq<Block>, i: nat, c: seq<Block>, k: nat, m: nat)
    requires i + m <= |b| && k + m <= |c| && Addr(b, i) == Addr(c, k)
    requires b[i..i + m] == c[k..k + m]
    ensures Addr(b, i + m) == Addr(c, k + m)
  {
    if m > 0 {
      assert b[i..i + m - 1] == b[i..i + m][..m - 1] == c[k..k + m - 1];
      assert b[i + m - 1] == b[i..i + m][m - 1] == c[k + m - 1];
      AddrShift(b, i, c, k, m - 1);
    }
  }

  /** Payloads of different blocks do not meet, and no header lies in a payload. */
  lemma PayloadsDisjoint(b: seq<Block>, i: nat, j: nat)
    requires i < |b| && j < |b| && i != j
    ensures Payload(b, i) + b[i].size <= Addr(b, j) || Payload(b, j) + b[j].size <= Addr(b, i)
  {
    if i < j { AddrOrder(b, i, j); } else { AddrOrder(b, j, i); }
  }

  /** No two neighbouring blocks are both free. */
  predicate Coalesced(b: seq<Block>) {
    forall i :: 0 <= i < |b| - 1 ==> !(b[i].free && b[i + 1].free)
  }

  function UsedCount(b: seq<Block>): nat {
    if b == [] then 0 else UsedCount(b[..|b| - 1]) + (if b[|b| - 1].free then 0 else 1)
  }

  lemma {:induction false} UsedCountAppend(a: seq<Block>, b: seq<Block>)
    ensures UsedCount(a + b) == UsedCount(a) + UsedCount(b)
  {
    if b == [] {
      assert a + b == a;
    } else {
      assert (a + b)[..|a + b| - 1] == a + b[..|b| - 1];
      UsedCountAppend(a, b[..|b| - 1]);
    }
  }

  lemma UsedCount3(a: seq<Block>, m: seq<Block>, z: seq<Block>)
    ensures UsedCount(a + m + z) == UsedCount(a) + UsedCount(m) + UsedCount(z)
  {
    UsedCountAppend(a + m, z);
    UsedCountAppend(a, m);
  }

  lemma UsedCount12(x: Block, y: Block)
    ensures UsedCount([x]) == if x.free then 0 else 1
    ensures UsedCount([x, y]) == UsedCount([x]) + UsedCount([y])
  {
    assert [x, y][..1] == [x] && [x][..0] == [];
  }

  // ---------------------------------------------------------------- live allocations

  /** A caller holds `size` bytes at address p. */
  ghost predicate Live(b: seq<Block>, p: nat, size: nat) {
    exists i :: 0 <= i < |b| && !b[i].free && Payload(b, i) == p && b[i].size == size
  }

  /** Replacing the blocks from i on that lie before address Addr(b, j) by others of the same total extent moves
      nothing else. */
  ghost predicate Replaced(b: seq<Block>, i: nat, j: nat, c: seq<Block>, k: nat) {
    && i <= j <= |b| && i <= k <= |c| && |c| - k == |b| - j
    && c[..i] == b[..i] && c[k..] == b[j..]
    && Addr(c, k) == Addr(b, j)
  }

  lemma ReplacedAddr(b: seq<Block>, i: nat, j: nat, c: seq<Block>, k: nat, m: nat)
    requires Replaced(b, i, j, c, k)
    ensures m <= i ==> Addr(c, m) == Addr(b, m)
    ensures m <= |b| - j ==> Addr(c, k + m) == Addr(b, j + m)
  {
    forall x | 0 <= x < i
      ensures c[x] == b[x]
    {
      assert c[x] == c[..i][x] && b[x] == b[..i][x];
    }
    if m <= i { AddrSame(b, c, m); }
    if m <= |b| - j {
      assert b[j..j + m] == b[j..][..m] == c[k..k + m];
      AddrShift(b, j, c, k, m);
    }
  }

  /** What is live after a replacement: what was live outside it, and what is live inside it now. */
  lemma ReplacedLive(b: seq<Block>, i: nat, j: nat, c: seq<Block>, k: nat, p: nat, size: nat)
    requires Replaced(b, i, j, c, k)
    ensures Live(c, p, size) <==>
      || (exists x :: 0 <= x < |b| && !(i <= x < j) && !b[x].free && Payload(b, x) == p && b[x].size == size)
      || (exists y :: i <= y < k && !c[y].free && Payload(c, y) == p && c[y].size == size)
  {
    hide Addr;
    hide Payload;
    if Live(c, p, size) {
      var y :| 0 <= y < |c| && !c[y].free && Payload(c, y) == p && c[y].size == size;
      if y < i {
        ReplacedBlock(b, i, j, c, k, y);
      } else if y >= k {
        ReplacedBlock(b, i, j, c, k, y - k + j);
      }
    }
    forall x | 0 <= x < |b| && !(i <= x < j) && !b[x].free && Payload(b, x) == p && b[x].size == size
      ensures Live(c, p, size)
    {
      ReplacedBlock(b, i, j, c, k, x);
    }
  }

  /** A block outside the replacement, and where it is afterwards. */
  lemma ReplacedBlock(b: seq<Block>, i: nat, j: nat, c: seq<Block>, k: nat, x: nat)
    requires Replaced(b, i, j, c, k) && x < |b| && !(i <= x < j)
    ensures var y := if x < i then x else x - j + k; y < |c| && Payload(c, y) == Payload(b, x) && c[y] == b[x]
  {
    hide Addr;
    if x < i {
      ReplacedAddr(b, i, j, c, k, x);
      assert c[x] == c[..i][x] && b[x] == b[..i][x];
    } else {
      ReplacedAddr(b, i, j, c, k, x - j);
      assert c[k..][x - j] == b[j..][x - j];
    }
  }

  // ---------------------------------------------------------------- kmalloc

  /** ALIGN_UP in 32 bits. */
  function AlignUp(size: nat): (s: nat)
    ensures s % 8 == 0 && s < U32
    ensures size + 7 < U32 ==> size <= s < size + 8
  {
    (size + 7) % U32 / 8 * 8
  }

  /** The first free block that is large enough, |b| if there is none. */
  function FirstFit(b: seq<Block>, i: nat, s: nat): (k: nat)
    requires i <= |b|
    ensures i <= k <= |b|
    ensures k < |b| ==> b[k].free && b[k].size >= s
    ensures forall j :: i <= j < k ==> !(b[j].free && b[j].size >= s)
    decreases |b| - i
  {
    if i == |b| || (b[i].free && b[i].size >= s) then i else FirstFit(b, i + 1, s)
  }

  /** split_block as it is meant: only when the rest can hold a header and 16 bytes. */
  function Split(b: seq<Block>, k: nat, s: nat): seq<Block>
    requires k < |b|
  {
    if b[k].size >= s + HEADER_SIZE + MIN_BLOCK_SIZE then
      b[..k] + [Block(s, b[k].free), Block(b[k].size - s - HEADER_SIZE, true)] + b[k + 1..]
    else b
  }

  /** Block k is handed out for s bytes. */
  function Take(b: seq<Block>, k: nat, s: nat): seq<Block>
    requires k < |b|
  {
    var c := Split(b, k, s);
    c[k := Block(c[k].size, false)]
  }

  /** The heap has grown by s bytes and a header: the last block is extended, by a 32-bit sum, or a new one follows
      it. */
  function Grow(b: seq<Block>, s: nat): (c: seq<Block>)
    requires b != []
    ensures |b| <= |c| && c[..|b| - 1] == b[..|b| - 1] && c[|c| - 1].free
  {
    var n := |b| - 1;
    if b[n].free then b[n := Block((b[n].size + s + HEADER_SIZE) % U32, true)] else b + [Block(s, true)]
  }

  lemma TakeReplaced(b: seq<Block>, k: nat, s: nat)
    requires k < |b| && b[k].size >= s
    ensures |b| <= |Take(b, k, s)| <= |b| + 1
    ensures var c := Take(b, k, s); Replaced(b, k, k + 1, c, k + |c| - |b| + 1)
    ensures Take(b, k, s)[k].size >= s && !Take(b, k, s)[k].free
    ensures k + 1 < k + |Take(b, k, s)| - |b| + 1 ==> Take(b, k, s)[k + 1].free
  {
    var c := Take(b, k, s);
    AddrSame(b, c, k);
    if |c| > |b| {
      assert Addr(c, k + 2) == Addr(c, k + 1) + HEADER_SIZE + c[k + 1].size;
      assert Addr(c, k + 1) == Addr(c, k) + HEADER_SIZE + c[k].size;
    }
  }

  /** Handing out a free block adds one live allocation at its payload and keeps all others. */
  lemma TakeLive(b: seq<Block>, k: nat, s: nat, p: nat, size: nat)
    requires k < |b| && b[k].free && b[k].size >= s
    ensures Live(Take(b, k, s), p, size) <==> Live(b, p, size) || (p == Payload(b, k) && size == Take(b, k, s)[k].size)
    ensures !Live(b, Payload(b, k), size)
  {
    var c := Take(b, k, s);
    TakeReplaced(b, k, s);
    ReplacedLive(b, k, k + 1, c, k + |c| - |b| + 1, p, size);
    AddrSame(b, c, k);
    forall x | 0 <= x < |b| && x != k
      ensures Payload(b, x) != Payload(b, k)
    {
      PayloadsDisjoint(b, x, k);
    }
    if p == Payload(b, k) && size == c[k].size { assert !c[k].free && Payload(c, k) == p; }
  }

  lemma TakeEnd(b: seq<Block>, k: nat, s: nat)
    requires k < |b| && b[k].size >= s
    ensures var c := Take(b, k, s); c != [] && Addr(c, |c|) == Addr(b, |b|)
  {
    hide Addr;
    hide Take;
    var c := Take(b, k, s);
    TakeReplaced(b, k, s);
    ReplacedAddr(b, k, k + 1, c, k + |c| - |b| + 1, |b| - k - 1);
  }

  lemma TakeCoalesced(b: seq<Block>, k: nat, s: nat)
    requires k < |b| && b[k].free && b[k].size >= s && Coalesced(b)
    ensures Coalesced(Take(b, k, s))
  {
  }

  lemma TakeCount(b: seq<Block>, k: nat, s: nat)
    requires k < |b| && b[k].free && b[k].size >= s
    ensures UsedCount(Take(b, k, s)) == UsedCount(b) + 1
  {
    hide UsedCount;
    TakeParts(b, k, s);
    var mid := TakenPart(b, k, s);
    hide Take;
    UsedCount3(b[..k], [b[k]], b[k + 1..]);
    UsedCount3(b[..k], mid, b[k + 1..]);
    UsedCount12(b[k], b[k]);
    UsedCount12(mid[0], mid[|mid| - 1]);
    UsedCount12(mid[|mid| - 1], mid[0]);
  }

  /** What stands for block k once it is taken: itself, or its first part and the rest. */
  function TakenPart(b: seq<Block>, k: nat, s: nat): (mid: seq<Block>)
    requires k < |b| && b[k].free && b[k].size >= s
    ensures 1 <= |mid| <= 2 && !mid[0].free && (|mid| == 2 ==> mid == [mid[0], mid[1]] && mid[1].free)
    ensures |mid| == 1 ==> mid == [mid[0]]
  {
    var c := Take(b, k, s);
    if |c| > |b| then [c[k], c[k + 1]] else [c[k]]
  }

  lemma TakeParts(b: seq<Block>, k: nat, s: nat)
    requires k < |b| && b[k].free && b[k].size >= s
    ensures b == b[..k] + [b[k]] + b[k + 1..]
    ensures Take(b, k, s) == b[..k] + TakenPart(b, k, s) + b[k + 1..]
  {
  }

  /** Growth keeps the used blocks, and leaves no free neighbours. */
  lemma GrowKeeps(b: seq<Block>, s: nat)
    requires b != []
    ensures Coalesced(b) ==> Coalesced(Grow(b, s))
    ensures UsedCount(Grow(b, s)) == UsedCount(b)
  {
    var c, n := Grow(b, s), |b| - 1;
    assert b[..n] == c[..n];
    if b[n].free {
      assert c[..|c| - 1] == b[..|b| - 1];
    } else {
      assert c[..|c| - 1] == b;
    }
  }

  /** Growth that does not wrap: the tail, and no block before it, is then large enough. */
  lemma GrowFits(b: seq<Block>, s: nat)
    requires b != [] && FirstFit(b, 0, s) == |b| && b[|b| - 1].size + s + HEADER_SIZE < U32
    ensures var c := Grow(b, s);
            FirstFit(c, 0, s) == |c| - 1 && Addr(c, |c|) == Addr(b, |b|) + s + HEADER_SIZE
  {
    var c, n := Grow(b, s), |b| - 1;
    AddrSame(b, c, n);
  }

  lemma GrowLive(b: seq<Block>, s: nat, p: nat, size: nat)
    requires b != []
    ensures Live(Grow(b, s), p, size) <==> Live(b, p, size)
  {
    var c, n := Grow(b, s), |b| - 1;
    forall x | 0 <= x <= n
      ensures Payload(c, x) == Payload(b, x)
    {
      AddrSame(b, c, x);
    }
    forall x | 0 <= x <= n && !b[x].free
      ensures c[x] == b[x]
    {
    }
    if Live(b, p, size) {
      var x :| 0 <= x < |b| && !b[x].free && Payload(b, x) == p && b[x].size == size;
      assert !c[x].free && Payload(c, x) == p && c[x].size == size;
    }
  }

  // ---------------------------------------------------------------- kfree

  /** Blocks k and k + 1 become one. */
  function Join(b: seq<Block>, k: nat): seq<Block>
    requires k + 1 < |b|
  {
    b[..k] + [Block(b[k].size + HEADER_SIZE + b[k + 1].size, true)] + b[k + 2..]
  }

  /** merge_free_blocks: with the next block if it is free, then with the previous one. */
  function Merge(b: seq<Block>, k: nat): seq<Block>
    requires k < |b|
  {
    var c := if k + 1 < |b| && b[k + 1].free then Join(b, k) else b;
    if k > 0 && c[k - 1].free then Join(c, k - 1) else c
  }

  function Release(b: seq<Block>, k: nat): seq<Block>
    requires k < |b|
  {
    Merge(b[k := Block(b[k].size, true)], k)
  }

  lemma JoinLive(b: seq<Block>, k: nat, p: nat, size: nat)
    requires k + 1 < |b| && b[k].free && b[k + 1].free
    ensures Replaced(b, k, k + 2, Join(b, k), k + 1)
    ensures Live(Join(b, k), p, size) <==> Live(b, p, size)
  {
    var c := Join(b, k);
    AddrSame(b, c, k);
    assert Addr(b, k + 2) == Addr(b, k + 1) + HEADER_SIZE + b[k + 1].size;
    ReplacedLive(b, k, k + 2, c, k + 1, p, size);
  }

  lemma JoinCount(b: seq<Block>, k: nat)
    requires k + 1 < |b| && b[k].free && b[k + 1].free
    ensures UsedCount(Join(b, k)) == UsedCount(b)
  {
    hide UsedCount;
    var x := Block(b[k].size + HEADER_SIZE + b[k + 1].size, true);
    assert b == b[..k] + [b[k], b[k + 1]] + b[k + 2..];
    UsedCount3(b[..k], [b[k], b[k + 1]], b[k + 2..]);
    UsedCount3(b[..k], [x], b[k + 2..]);
    UsedCount12(b[k], b[k + 1]);
    UsedCount12(b[k + 1], x);
    UsedCount12(x, x);
  }

  /** Freeing a used block removes its allocation alone and leaves no free neighbours. */
  lemma ReleaseFacts(b: seq<Block>, k: nat, p: nat, size: nat)
    requires k < |b| && !b[k].free && Coalesced(b)
    ensures UsedCount(Release(b, k)) + 1 == UsedCount(b)
    ensures Live(Release(b, k), p, size) <==> Live(b, p, size) && p != Payload(b, k)
  {
    hide Join;
    hide UsedCount;
    hide Live;
    hide Payload;
    var c := b[k := Block(b[k].size, true)];
    MarkFree(b, k, p, size);
    var joined := k + 1 < |c| && c[k + 1].free;
    var d := if joined then Join(c, k) else c;
    if joined {
      JoinLive(c, k, p, size);
      JoinCount(c, k);
      JoinBlocks(c, k);
    }
    if k > 0 && d[k - 1].free {
      JoinLive(d, k - 1, p, size);
      JoinCount(d, k - 1);
    }
  }

  lemma ReleaseCoalesced(b: seq<Block>, k: nat)
    requires k < |b| && !b[k].free && Coalesced(b)
    ensures Coalesced(Release(b, k))
  {
    hide Join;
    var c := b[k := Block(b[k].size, true)];
    var d := if k + 1 < |c| && c[k + 1].free then Join(c, k) else c;
    if k + 1 < |c| && c[k + 1].free { JoinBlocks(c, k); }
    if k > 0 && d[k - 1].free { JoinBlocks(d, k - 1); }
  }

  /** The blocks after a merge: the two neighbours are one free block, the rest moves up. */
  lemma JoinBlocks(b: seq<Block>, k: nat)
    requires k + 1 < |b|
    ensures |Join(b, k)| == |b| - 1 && Join(b, k)[k].free
    ensures forall i :: 0 <= i < k ==> Join(b, k)[i] == b[i]
    ensures forall i :: k < i < |b| - 1 ==> Join(b, k)[i] == b[i + 1]
  {
  }

  lemma MarkFree(b: seq<Block>, k: nat, p: nat, size: nat)
    requires k < |b| && !b[k].free
    ensures var c := b[k := Block(b[k].size, true)];
            && UsedCount(c) + 1 == UsedCount(b)
            && (Live(c, p, size) <==> Live(b, p, size) && p != Payload(b, k))
  {
    var c := b[k := Block(b[k].size, true)];
    assert b == b[..k] + [b[k]] + b[k + 1..] && c == b[..k] + [c[k]] + b[k + 1..];
    UsedCount3(b[..k], [b[k]], b[k + 1..]);
    UsedCount3(b[..k], [c[k]], b[k + 1..]);
    UsedCount12(b[k], c[k]);
    UsedCount12(c[k], b[k]);
    forall x | 0 <= x < |b|
      ensures Payload(c, x) == Payload(b, x)
    {
      AddrSame(b, c, x);
    }
    forall x | 0 <= x < |b| && x != k
      ensures Payload(b, x) != Payload(b, k) && c[x] == b[x]
    {
      PayloadsDisjoint(b, x, k);
    }
  }

  /** Block k is split exactly when what is left has room for a header and 16 bytes; so less than 36 bytes are
      wasted. */
  lemma TakeWaste(b: seq<Block>, k: nat, s: nat)
    requires k < |b| && b[k].size >= s
    ensures |Take(b, k, s)| == |b| + 1 <==> b[k].size - s >= 36
    ensures |Take(b, k, s)| == |b| + 1 || |Take(b, k, s)| == |b|
    ensures s <= Take(b, k, s)[k].size < s + 36
  {
  }

  /** Freeing a block that was just handed out restores the blocks. */
  lemma ReleaseTake(b: seq<Block>, k: nat, s: nat)
    requires k < |b| && Coalesced(b) && b[k].free && b[k].size >= s
    ensures k < |Take(b, k, s)| && Release(Take(b, k, s), k) == b
  {
    var c := Take(b, k, s);
    TakeParts(b, k, s);
    var d := c[k := Block(c[k].size, true)];
    assert k > 0 ==> !b[k - 1].free && d[k - 1] == b[k - 1];
    if |c| > |b| {
      assert Join(d, k) == b;
    } else {
      assert d == b;
      assert k + 1 < |b| ==> !b[k + 1].free;
    }
  }
}
