/**
 The physical frame allocator (kernel/kernel/pmm.c): one bit per 4 KiB frame, set when the
 frame is in use.  A byte of the bitmap is modelled as its eight bits, lowest bit first.
 */
module Pmm {

  const PAGE_SIZE := 4096
  const MAX_PAGES := 1024 * 1024
  const BITMAP_SIZE := MAX_PAGES / 8
  const U32 := 0x1_0000_0000

  type Bits8 = b: seq<bool> | |b| == 8 witness seq(8, i => false)

  /** A region of the boot memory map; `available` is type 1 of the multiboot map. */
  datatype Region = Region(base: nat, length: nat, available: bool)

  /** Highest end of an available region, as memory_map.c accumulates it. */
  function HighestAddress(regions: seq<Region>): (h: nat)
    ensures forall i :: 0 <= i < |regions| && regions[i].available ==> regions[i].base + regions[i].length <= h
    ensures h == 0 || exists i :: 0 <= i < |regions| && regions[i].available && regions[i].base + regions[i].length == h
  {
    if regions == [] then 0
    else
      var n := |regions| - 1;
      var h := HighestAddress(regions[..n]);
      var r := regions[n];
      assert forall i :: 0 <= i < n ==> regions[i] == regions[..n][i];
      if r.available && r.base + r.length > h then r.base + r.length else h
  }

  /** total_pages as pmm_init computes it. */
  function TotalPages(regions: seq<Region>): (n: nat)
    ensures n <= MAX_PAGES && n * PAGE_SIZE <= HighestAddress(regions)
    ensures HighestAddress(regions) < U32 ==> HighestAddress(regions) < (n + 1) * PAGE_SIZE
    ensures HighestAddress(regions) >= U32 ==> n == MAX_PAGES
  {
    var highest := HighestAddress(regions);
    if highest > MAX_PAGES * PAGE_SIZE then MAX_PAGES else highest / PAGE_SIZE
  }

  /** The 32-bit length pmm_init hands to pmm_mark_region_free: whatever the clip and the wrap do, the end
      the callee computes stays inside the region. */
  function ClippedLength(r: Region): (length: nat)
    requires r.base < U32
    ensures length < U32 && (r.base + length) % U32 <= r.base + r.length
  {
    if r.base + r.length > U32 then
      var length := (0xFFF_FFFF - r.base) % U32;
      assert (r.base + length) % U32 == 0xFFF_FFFF;
      length
    else r.length % U32
  }

  /** Frame f lies wholly inside an available region. */
  ghost predicate InsideAvailable(regions: seq<Region>, f: int) {
    exists i :: 0 <= i < |regions| && regions[i].available
             && regions[i].base <= f * PAGE_SIZE && (f + 1) * PAGE_SIZE <= regions[i].base + regions[i].length
  }

  /** The first frame that starts at or above an address. */
  function CeilFrame(addr: nat): (f: nat)
    ensures addr <= f * PAGE_SIZE < addr + PAGE_SIZE
  {
    (addr + PAGE_SIZE - 1) / PAGE_SIZE
  }

  function FrameToAddr(frame: nat): (addr: nat)
    requires frame < MAX_PAGES
    ensures addr < U32 && AddrToFrame(addr) == frame
  {
    frame * PAGE_SIZE
  }

  function AddrToFrame(addr: nat): (frame: nat)
    requires addr < U32
    ensures frame < MAX_PAGES && frame * PAGE_SIZE <= addr < (frame + 1) * PAGE_SIZE
  {
    addr / PAGE_SIZE
  }

  /** The frame that holds an address. */
  function FloorFrame(addr: nat): (f: nat)
    ensures f * PAGE_SIZE <= addr < f * PAGE_SIZE + PAGE_SIZE
  {
    addr / PAGE_SIZE
  }

  /** The frame numbers below n. */
  ghost function Below(n: nat): (s: set<nat>)
    ensures |s| == n && forall f: nat :: f in s <==> f < n
  {
    if n == 0 then {} else Below(n - 1) + {n - 1}
  }

  class FrameAllocator {
    const bitmap: array<Bits8>
    var totalPages: nat
    var usedPages: nat
    ghost var free: set<nat>

    /** The bitmap describes `free`, bit by bit; nothing is said about the counters. */
    ghost predicate Shaped()
      reads this, bitmap
    {
      && bitmap.Length == BITMAP_SIZE
      && totalPages <= MAX_PAGES
      && (forall f: nat :: f in free ==> f < MAX_PAGES)
      && (forall i, bit :: 0 <= i < BITMAP_SIZE && 0 <= bit < 8 ==> (!bitmap[i][bit] <==> i * 8 + bit in free))
    }

    /** The counter agrees with the set bits below total_pages. */
    ghost predicate Counted()
      reads this
    {
      usedPages == |Below(totalPages) - free|
    }

    ghost predicate Valid()
      reads this, bitmap
    {
      && Shaped()
      && Counted()
      && (forall f: nat :: f in free ==> f < totalPages)
    }

    method BitmapSet(frame: nat)
      requires Shaped() && frame < MAX_PAGES
      modifies this`free, bitmap
      ensures Shaped() && free == old(free) - {frame}
    {
      bitmap[frame / 8] := bitmap[frame / 8][frame % 8 := true];
      free := free - {frame};
    }

    method BitmapClear(frame: nat)
      requires Shaped() && frame < MAX_PAGES
      modifies this`free, bitmap
      ensures Shaped() && free == old(free) + {frame}
    {
      bitmap[frame / 8] := bitmap[frame / 8][frame % 8 := false];
      free := free + {frame};
    }

    function BitmapTest(frame: nat): (used: bool)
      requires Shaped() && frame < MAX_PAGES
      reads this, bitmap
      ensures used <==> frame !in free
    {
      bitmap[frame / 8][frame % 8]
    }

    /** The body of the loop in pmm_mark_region_free. */
    method Release(frame: nat)
      requires Valid() && frame < totalPages
      modifies this`free, this`usedPages, bitmap
      ensures Valid() && free == old(free) + {frame}
    {
      if BitmapTest(frame) {
        CountChange(free, totalPages, frame);
        BitmapClear(frame);
        usedPages := usedPages - 1;
      }
    }

    /** The body of the loop in pmm_mark_region_used. */
    method Reserve(frame: nat)
      requires Valid() && frame < MAX_PAGES
      modifies this`free, this`usedPages, bitmap
      ensures Valid() && free == old(free) - {frame}
    {
      if !BitmapTest(frame) {
        hide Below;
        CountTaken(free, totalPages, frame);
        BitmapSet(frame);
        usedPages := usedPages + 1;
      }
    }

    /** pmm_mark_region_free: base and length are 32-bit, and so is their sum. */
    method MarkRegionFree(base: nat, length: nat)
      requires Valid() && base < U32 && length < U32
      requires FloorFrame((base + length) % U32) <= totalPages
      modifies this, bitmap
      ensures Valid() && totalPages == old(totalPages)
      ensures forall f: nat :: f in free <==>
        f in old(free) || CeilFrame(base) <= f < FloorFrame((base + length) % U32)
    {
      var start := FloorFrame(base);
      var end := FloorFrame((base + length) % U32);
      if base % PAGE_SIZE != 0 { start := start + 1; }
      assert start == CeilFrame(base);
      var frame := start;
      while frame < end
        invariant start <= frame && (frame <= end || frame == start)
        invariant Valid() && totalPages == old(totalPages)
        invariant forall f: nat :: f in free <==> f in old(free) || start <= f < frame
      {
        Release(frame);
        frame := frame + 1;
      }
    }

    /** pmm_mark_region_used. */
    method MarkRegionUsed(base: nat, length: nat)
      requires Valid() && base + length + PAGE_SIZE - 1 < U32
      modifies this, bitmap
      ensures Valid() && totalPages == old(totalPages)
      ensures forall f: nat :: f in free <==>
        f in old(free) && !(FloorFrame(base) <= f < CeilFrame(base + length))
    {
      var start := FloorFrame(base);
      var end := CeilFrame(base + length);
      var frame := start;
      while frame < end
        invariant start <= frame && (frame <= end || frame == start)
        invariant Valid() && totalPages == old(totalPages)
        invariant forall f: nat :: f in free <==> f in old(free) && !(start <= f < frame)
      {
        Reserve(frame);
        frame := frame + 1;
      }
    }

    /** pmm_init over a memory map whose region ends fit in 64 bits.  The image is [kernelStart, kernelEnd). */
    constructor (regions: seq<Region>, kernelStart: nat, kernelEnd: nat)
      requires forall i :: 0 <= i < |regions| ==> regions[i].base + regions[i].length < U32 * U32
      requires kernelStart <= kernelEnd && kernelEnd + PAGE_SIZE <= U32
      ensures Valid() && fresh(bitmap)
      ensures totalPages == TotalPages(regions)
      ensures forall f :: f in free ==>
        InsideAvailable(regions, f) && f < totalPages && f != 0
        && ((f + 1) * PAGE_SIZE <= kernelStart || kernelEnd <= f * PAGE_SIZE)
      // exactly the frames some region releases, but for frame 0 and the image
      ensures forall f: nat :: f in free <==> ReleasedBy(regions, |regions|, f) && Permitted(kernelStart, kernelEnd, f)
    {
      bitmap := new Bits8[BITMAP_SIZE](i => AllOnes());
      free := {};
      totalPages := TotalPages(regions);
      usedPages := TotalPages(regions);
      new;
      hide FrameAllocator.Valid;
      hide InsideAvailable;
      hide ReleasedBy;
      hide Permitted;
      AllUsed();
      Populate(regions, kernelStart, kernelEnd);
    }

    /** pmm_init once every bit has been set. */
    method Populate(regions: seq<Region>, kernelStart: nat, kernelEnd: nat)
      requires Valid() && free == {} && totalPages == TotalPages(regions)
      requires kernelStart <= kernelEnd && kernelEnd + PAGE_SIZE <= U32
      modifies this, bitmap
      ensures Valid() && totalPages == old(totalPages)
      ensures forall f :: f in free ==>
        InsideAvailable(regions, f) && f < totalPages && f != 0
        && ((f + 1) * PAGE_SIZE <= kernelStart || kernelEnd <= f * PAGE_SIZE)
      ensures forall f: nat :: f in free <==> ReleasedBy(regions, |regions|, f) && Permitted(kernelStart, kernelEnd, f)
    {
      hide FrameAllocator.Valid;
      hide InsideAvailable;
      hide ReleasedBy;
      ReleaseRegions(regions);
      MarkRegionUsed(0, PAGE_SIZE);
      MarkRegionUsed(kernelStart, kernelEnd - kernelStart);
      forall f: nat
        ensures f in free ==> f < totalPages
        ensures f in free <==> ReleasedBy(regions, |regions|, f) && Permitted(kernelStart, kernelEnd, f)
      {
        if f in free { FreeBelow(f); }
        OutsideImage(kernelStart, kernelEnd, f);
      }
    }

    lemma AllUsed()
      requires bitmap.Length == BITMAP_SIZE && totalPages <= MAX_PAGES && usedPages == totalPages && free == {}
      requires forall i :: 0 <= i < bitmap.Length ==> bitmap[i] == AllOnes()
      ensures Valid()
    {
      assert Below(totalPages) - free == Below(totalPages);
    }

    lemma FreeBelow(f: nat)
      requires Valid() && f in free
      ensures f < totalPages
    {
    }

    /** The loop of pmm_init over the memory map. */
    method ReleaseRegions(regions: seq<Region>)
      requires Valid() && free == {} && totalPages == TotalPages(regions)
      modifies this, bitmap
      ensures Valid() && totalPages == old(totalPages)
      ensures forall f :: f in free ==> InsideAvailable(regions, f)
      ensures forall f: nat :: f in free <==> ReleasedBy(regions, |regions|, f)
    {
      hide FrameAllocator.Valid;
      hide InsideAvailable;
      hide TotalPages;
      hide ReleasedBy;
      hide Yields;
      NoneReleased(regions);
      for i := 0 to |regions|
        invariant Valid() && totalPages == TotalPages(regions)
        invariant forall f: nat :: f in free <==> ReleasedBy(regions, i, f)
      {
        var r := regions[i];
        ghost var was := free;
        NextReleased(regions, i);
        ReleasedRange(r);
        if r.available && r.base < U32 {
          var length := ClippedLength(r);
          assert r.base + r.length <= HighestAddress(regions);
          MarkRegionFree(r.base, length);
        }
        forall f: nat
          ensures f in free <==> ReleasedBy(regions, i + 1, f)
        {
          assert f in free <==> f in was || Yields(r, f);
          assert ReleasedBy(regions, i + 1, f) <==> ReleasedBy(regions, i, f) || Yields(r, f);
        }
      }
      forall f | f in free
        ensures InsideAvailable(regions, f)
      {
        ReleasedInside(regions, f);
      }
    }

    /** The frames pmm_alloc_page looks at: whole bitmap bytes below total_pages. */
    function Scanned(): (n: nat)
      reads this
      ensures n <= totalPages < n + 8 && n % 8 == 0
    {
      totalPages / 8 * 8
    }

    /** The scan of pmm_alloc_page: full bytes are skipped, -1 means that nothing was found. */
    method FirstFree() returns (frame: int)
      requires Valid()
      ensures frame == -1 || (frame in free && 0 <= frame < Scanned() && forall g :: g in free ==> frame <= g)
      ensures frame == -1 ==> forall g :: g in free ==> Scanned() <= g
    {
      hide FrameAllocator.Valid;
      for i := 0 to totalPages / 8
        invariant forall g :: g in free ==> 8 * i <= g
      {
        ByteInRange(i);
        if bitmap[i] == AllOnes() {
          FullByte(i);
          continue;
        }
        var bit := LowestClear(bitmap[i]);
        LowestFrame(i, bit);
        return i * 8 + bit;
      }
      return -1;
    }

    /** pmm_alloc_page: the address of the lowest free scanned frame, or 0. */
    method AllocPage() returns (addr: nat)
      requires Valid()
      modifies this`free, this`usedPages, bitmap
      ensures Valid() && addr < U32 && addr == FrameToAddr(AddrToFrame(addr))
      ensures if exists f :: f in old(free) && f < Scanned() then
                && AddrToFrame(addr) in old(free) && free == old(free) - {AddrToFrame(addr)}
                && forall g :: g in old(free) ==> AddrToFrame(addr) <= g
              else addr == 0 && free == old(free)
    {
      var frame := FirstFree();
      if frame == -1 { return 0; }
      Reserve(frame);
      addr := FrameToAddr(frame);
    }

    lemma ByteInRange(i: nat)
      requires Valid() && i < totalPages / 8
      ensures i < bitmap.Length == BITMAP_SIZE
    {
    }

    /** A byte of all ones holds no free frame. */
    lemma FullByte(i: nat)
      requires Valid() && i < BITMAP_SIZE && bitmap[i] == AllOnes()
      ensures forall g :: g in free && 8 * i <= g ==> 8 * (i + 1) <= g
    {
      forall g | g in free && 8 * i <= g
        ensures 8 * (i + 1) <= g
      {
        assert !BitmapTest(g);
      }
    }

    /** The lowest clear bit of byte i is the lowest free frame from 8 * i on. */
    lemma LowestFrame(i: nat, bit: nat)
      requires Valid() && i < BITMAP_SIZE && bit < 8 && !bitmap[i][bit]
      requires forall j :: 0 <= j < bit ==> bitmap[i][j]
      ensures i * 8 + bit in free
      ensures forall g :: g in free && 8 * i <= g ==> i * 8 + bit <= g
    {
      hide Counted;
      forall g | g in free && 8 * i <= g
        ensures i * 8 + bit <= g
      {
        if g < 8 * i + 8 {
          var j := g - 8 * i;
          assert !bitmap[i][j] <==> i * 8 + j in free;
        }
      }
    }

    /** pmm_free_page.  `warned` says that the double-free warning was printed. */
    method FreePage(addr: nat) returns (warned: bool)
      requires Valid() && addr < U32
      modifies this`free, this`usedPages, bitmap
      ensures Shaped() && free == old(free) + {AddrToFrame(addr)}
      ensures warned <==> AddrToFrame(addr) in old(free)
      ensures AddrToFrame(addr) < totalPages ==> Valid()
      // the counter stays right exactly when the frame is one of those counted
      ensures Counted() <==> AddrToFrame(addr) < totalPages
    {
      var frame := AddrToFrame(addr);
      if frame < totalPages {
        warned := !BitmapTest(frame);
        Release(frame);
      } else {
        warned := false;
        BitmapClear(frame);
        usedPages := (usedPages - 1) % U32;
        assert Below(totalPages) - free == Below(totalPages) - old(free);
      }
    }
  }

  /** The bit loop of pmm_alloc_page. */
  method LowestClear(b: Bits8) returns (bit: nat)
    requires b != AllOnes()
    ensures bit < 8 && !b[bit] && forall j :: 0 <= j < bit ==> b[j]
  {
    bit := 0;
    while bit < 8
      invariant bit <= 8 && forall j :: 0 <= j < bit ==> b[j]
    {
      if !b[bit] { return; }
      bit := bit + 1;
    }
    assert false;
  }

  function AllOnes(): Bits8 {
    [true, true, true, true, true, true, true, true]
  }

  /** The frames pmm_init releases for a region. */
  predicate Yields(r: Region, f: nat) {
    && r.available && r.base < U32
    && CeilFrame(r.base) <= f < FloorFrame((r.base + ClippedLength(r)) % U32)
  }

  predicate ReleasedBy(regions: seq<Region>, n: nat, f: nat)
    requires n <= |regions|
  {
    exists i :: 0 <= i < n && Yields(regions[i], f)
  }

  lemma NoneReleased(regions: seq<Region>)
    ensures forall f: nat :: !ReleasedBy(regions, 0, f)
  {
  }

  lemma NextReleased(regions: seq<Region>, i: nat)
    requires i < |regions|
    ensures forall f: nat :: ReleasedBy(regions, i + 1, f) <==> ReleasedBy(regions, i, f) || Yields(regions[i], f)
  {
    hide Yields;
    forall f: nat
      ensures ReleasedBy(regions, i + 1, f) <==> ReleasedBy(regions, i, f) || Yields(regions[i], f)
    {
      if ReleasedBy(regions, i, f) {
        var j :| 0 <= j < i && Yields(regions[j], f);
        assert 0 <= j < i + 1 && Yields(regions[j], f);
      }
    }
  }

  lemma ReleasedRange(r: Region)
    ensures !(r.available && r.base < U32) ==> forall f: nat :: !Yields(r, f)
    ensures r.available && r.base < U32 ==>
      forall f: nat :: Yields(r, f) <==> CeilFrame(r.base) <= f < FloorFrame((r.base + ClippedLength(r)) % U32)
  {
  }

  /** Every frame released for a region lies inside it. */
  lemma ReleasedInside(regions: seq<Region>, f: nat)
    requires ReleasedBy(regions, |regions|, f)
    ensures InsideAvailable(regions, f)
  {
    var i :| 0 <= i < |regions| && Yields(regions[i], f);
    var r := regions[i];
    assert r.base <= f * PAGE_SIZE && (f + 1) * PAGE_SIZE <= r.base + r.length;
  }

  /** Exactly which frames a region yields: all its whole frames if it ends below 4 GB, none if it ends at 4 GB, and
      those below the clip constant, 256 MB less one byte, if it reaches beyond. */
  lemma ReleasedExact(r: Region, f: nat)
    requires r.available && r.base < U32 && r.length > 0
    ensures Yields(r, f) <==>
      && r.base <= f * PAGE_SIZE
      && (if r.base + r.length < U32 then (f + 1) * PAGE_SIZE <= r.base + r.length
          else r.base + r.length > U32 && (f + 1) * PAGE_SIZE <= 0xFFF_FFFF)
  {
    var end := (r.base + ClippedLength(r)) % U32;
    ClippedEnd(r);
    assert CeilFrame(r.base) <= f <==> r.base <= f * PAGE_SIZE;
    assert f < FloorFrame(end) <==> (f + 1) * PAGE_SIZE <= end;
  }

  lemma ClippedEnd(r: Region)
    requires r.base < U32 && r.length > 0
    ensures (r.base + ClippedLength(r)) % U32 ==
      if r.base + r.length < U32 then r.base + r.length else if r.base + r.length == U32 then 0 else 0xFFF_FFFF
  {
  }

  /** Neither frame 0 nor a frame that meets the kernel image. */
  predicate Permitted(kernelStart: nat, kernelEnd: nat, f: nat) {
    f != 0 && ((f + 1) * PAGE_SIZE <= kernelStart || kernelEnd <= f * PAGE_SIZE)
  }

  lemma OutsideImage(kernelStart: nat, kernelEnd: nat, f: nat)
    requires kernelStart <= kernelEnd
    ensures Permitted(kernelStart, kernelEnd, f) <==>
      !(FloorFrame(0) <= f < CeilFrame(PAGE_SIZE)) && !(FloorFrame(kernelStart) <= f < CeilFrame(kernelEnd))
  {
  }

  /** Freeing one more frame below n lowers the count of used frames by one. */
  lemma CountChange(free: set<nat>, n: nat, frame: nat)
    requires frame !in free && frame < n
    ensures |Below(n) - free| == |Below(n) - (free + {frame})| + 1
  {
    assert Below(n) - free == (Below(n) - (free + {frame})) + {frame};
  }

  /** Taking a free frame below n raises the count of used frames by one. */
  lemma CountTaken(free: set<nat>, n: nat, frame: nat)
    requires frame in free && frame < n
    ensures |Below(n) - (free - {frame})| == |Below(n) - free| + 1
  {
    CountChange(free - {frame}, n, frame);
    assert free - {frame} + {frame} == free;
  }
}
