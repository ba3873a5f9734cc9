/**
 The ELF loader (kernel/kernel/elf.c): validating the file header, and loading the PT_LOAD segments of a program
 into an address space.  An address space is the map of its user pages to their bytes.
 TIS ELF Specification 1.2, Book I, program header section.
 */
module Elf {
  import opened Checksum

  const PAGE: nat := 4096
  const KERNEL_BASE: nat := 0xC000_0000
  const EHDR: nat := 52
  const PHDR: nat := 32
  const PT_LOAD: nat := 1

  type Directory = nat
  type Page = p: seq<Byte> | |p| == 4096 witness seq<Byte>(4096, i => 0)
  type Image = map<nat, Page>

  /** What the allocators answer for one new page: no frame, no page table, or a frame with whatever it held. */
  datatype Grant = NoFrame | NoTable | Fresh(junk: Page)

  function ZeroPage(): Page { seq<Byte>(4096, i => 0) }

  // ---------------------------------------------------------------- headers

  function Le16(f: seq<Byte>, i: nat): Half
    requires i + 2 <= |f|
  {
    Join(f[i + 1], f[i])
  }

  function Le32(f: seq<Byte>, i: nat): Word
    requires i + 4 <= |f|
  {
    Le16(f, i + 2) * 0x10000 + Le16(f, i)
  }

  function Entry(f: seq<Byte>): Word
    requires |f| >= EHDR
  {
    Le32(f, 24)
  }

  function PhOff(f: seq<Byte>): Word
    requires |f| >= EHDR
  {
    Le32(f, 28)
  }

  function PhNum(f: seq<Byte>): Half
    requires |f| >= EHDR
  {
    Le16(f, 44)
  }

  /** elf_validate. */
  predicate Validate(f: seq<Byte>)
    requires |f| >= EHDR
  {
    && f[0] == 0x7F && f[1] == 0x45 && f[2] == 0x4C && f[3] == 0x46
    && f[4] == 1 && f[5] == 1
    && Le16(f, 16) == 2 && Le16(f, 18) == 3
    && PhNum(f) != 0 && Le16(f, 42) == PHDR
    && Entry(f) < KERNEL_BASE
  }

  datatype Phdr = Phdr(ptype: Word, offset: Word, vaddr: Word, filesz: Word, memsz: Word)

  /** Where the i-th program header lies, in 32-bit arithmetic. */
  function PhPos(f: seq<Byte>, i: nat): Word
    requires |f| >= EHDR
  {
    (PhOff(f) + i * PHDR) % WRAP
  }

  /** A read of the header there succeeds. */
  predicate Readable(f: seq<Byte>, i: nat)
    requires |f| >= EHDR
  {
    PhPos(f, i) + PHDR <= |f|
  }

  /** The i-th program header; one that cannot be read loads nothing. */
  function Header(f: seq<Byte>, i: nat): Phdr
    requires |f| >= EHDR
  {
    if !Readable(f, i) then Phdr(0, 0, 0, 0, 0) else
    var p := PhPos(f, i);
    Phdr(Le32(f, p), Le32(f, p + 4), Le32(f, p + 8), Le32(f, p + 16), Le32(f, p + 20))
  }

  function Headers(f: seq<Byte>): seq<Phdr>
    requires |f| >= EHDR
  {
    seq(PhNum(f), i requires 0 <= i => Header(f, i))
  }

  predicate IsLoad(h: Phdr) { h.ptype == PT_LOAD && h.memsz != 0 }

  /** The checks on a segment, with the sums wrapping as the code's do. */
  predicate Fits(f: seq<Byte>, h: Phdr) {
    && h.vaddr < KERNEL_BASE && (h.vaddr + h.memsz) % WRAP <= KERNEL_BASE && h.filesz <= h.memsz
    && (h.offset + h.filesz) % WRAP <= |f|
  }

  /** The sums of a segment do not wrap. */
  predicate Plain(h: Phdr) { h.vaddr + h.memsz < WRAP && h.offset + h.filesz < WRAP }

  predicate HeaderOk(f: seq<Byte>, i: nat)
    requires |f| >= EHDR
  {
    Readable(f, i) && (IsLoad(Header(f, i)) ==> Fits(f, Header(f, i)))
  }

  predicate HeadersOk(f: seq<Byte>, n: nat)
    requires |f| >= EHDR
  {
    forall i: nat :: i < n ==> HeaderOk(f, i)
  }

  /** What elf_load accepts, memory permitting. */
  predicate Accepted(f: seq<Byte>) {
    && |f| >= EHDR && Validate(f) && (PhOff(f) + PhNum(f) * PHDR) % WRAP <= |f|
    && HeadersOk(f, PhNum(f))
  }

  predicate NoWraps(f: seq<Byte>) {
    |f| >= EHDR ==> forall i: nat :: i < PhNum(f) && IsLoad(Header(f, i)) ==> Plain(Header(f, i))
  }

  // ---------------------------------------------------------------- the image a program asks for

  function PageOf(x: nat): nat { x / PAGE }

  function InPage(x: nat): (o: nat)
    ensures o < 4096
  {
    x % PAGE
  }

  function Put(img: Image, p: nat, page: Page): Image { img[p := page] }

  function FirstPage(h: Phdr): nat { PageOf(h.vaddr) }

  function EndPage(h: Phdr): nat { PageOf(h.vaddr + h.memsz + PAGE - 1) }

  function PageRange(first: nat, end: nat): (r: set<nat>)
    ensures forall p :: p in r <==> first <= p < end
  {
    if end <= first then {} else PageRange(first, end - 1) + {end - 1}
  }

  function PagesOf(h: Phdr): set<nat> {
    if IsLoad(h) then PageRange(FirstPage(h), EndPage(h)) else {}
  }

  /** The pages touched by the first n headers. */
  function Touched(hs: seq<Phdr>, n: nat): set<nat>
    requires n <= |hs|
  {
    if n == 0 then {} else Touched(hs, n - 1) + PagesOf(hs[n - 1])
  }

  /** The address lies where the segment's file bytes go. */
  predicate Covers(h: Phdr, x: nat) { IsLoad(h) && h.vaddr <= x < h.vaddr + h.filesz }

  function ByteAt(img: Image, x: nat): Byte
    requires PageOf(x) in img
  {
    img[PageOf(x)][InPage(x)]
  }

  /** A segment whose bytes lie in the file and in its memory. */
  predicate Sound(f: seq<Byte>, h: Phdr) { IsLoad(h) ==> h.filesz <= h.memsz && h.offset + h.filesz <= |f| }

  predicate AllSound(f: seq<Byte>, hs: seq<Phdr>, n: nat)
    requires n <= |hs|
  {
    forall i :: 0 <= i < n ==> Sound(f, hs[i])
  }

  /** The byte at x after the first n headers: the file's, from the last segment that brings one, or what was there. */
  function Expect(f: seq<Byte>, hs: seq<Phdr>, n: nat, base: Image, x: nat): Byte
    requires n <= |hs| && AllSound(f, hs, n)
  {
    if n == 0 then (if PageOf(x) in base then ByteAt(base, x) else 0) else
    var h := hs[n - 1];
    assert Sound(f, h);
    if Covers(h, x) then f[h.offset + (x - h.vaddr)] else Expect(f, hs, n - 1, base, x)
  }

  ghost predicate Loaded(f: seq<Byte>, hs: seq<Phdr>, n: nat, base: Image, img: Image)
    requires n <= |hs| && AllSound(f, hs, n)
  {
    && img.Keys == base.Keys + Touched(hs, n)
    && forall x: nat :: PageOf(x) in img ==> ByteAt(img, x) == Expect(f, hs, n, base, x)
  }

  /** New pages are zero, old ones as they were. */
  ghost predicate Mapped(a: Image, b: Image, pages: set<nat>) {
    b.Keys == a.Keys + pages && forall p :: p in b ==> b[p] == if p in a then a[p] else ZeroPage()
  }

  ghost predicate Copied(a: Image, b: Image, f: seq<Byte>, off: nat, n: nat, v: nat)
    requires off + n <= |f|
  {
    && b.Keys == a.Keys
    && forall x: nat :: PageOf(x) in b ==> ByteAt(b, x) == if v <= x < v + n then f[off + (x - v)] else ByteAt(a, x)
  }

  lemma CoveredPage(h: Phdr, x: nat)
    requires h.vaddr <= x < h.vaddr + h.memsz
    ensures FirstPage(h) <= PageOf(x) < EndPage(h)
  {
    DivMono(h.vaddr, x);
    DivMono(x + PAGE, h.vaddr + h.memsz + PAGE - 1);
    NextPage(x);
  }

  lemma DivMono(a: nat, b: nat)
    requires a <= b
    ensures PageOf(a) <= PageOf(b)
  {
  }

  lemma NextPage(x: nat)
    ensures PageOf(x + PAGE) == PageOf(x) + 1
  {
  }

  /** Where no page is touched, no file byte is asked for. */
  lemma {:induction false} ExpectUntouched(f: seq<Byte>, hs: seq<Phdr>, n: nat, base: Image, x: nat)
    requires n <= |hs| && AllSound(f, hs, n) && PageOf(x) !in base && PageOf(x) !in Touched(hs, n)
    ensures Expect(f, hs, n, base, x) == 0
  {
    hide PageOf;
    hide FirstPage;
    hide EndPage;
    if n > 0 {
      var h := hs[n - 1];
      assert Sound(f, h);
      if Covers(h, x) { CoveredPage(h, x); }
      ExpectUntouched(f, hs, n - 1, base, x);
    }
  }

  lemma ZeroByte(x: nat)
    ensures ZeroPage()[InPage(x)] == 0
  {
  }

  lemma ExpectStep(f: seq<Byte>, hs: seq<Phdr>, n: nat, base: Image, x: nat)
    requires n < |hs| && AllSound(f, hs, n + 1)
    ensures AllSound(f, hs, n) && Sound(f, hs[n])
    ensures Covers(hs[n], x) ==> Expect(f, hs, n + 1, base, x) == f[hs[n].offset + (x - hs[n].vaddr)]
    ensures !Covers(hs[n], x) ==> Expect(f, hs, n + 1, base, x) == Expect(f, hs, n, base, x)
  {
    assert Sound(f, hs[n]);
  }

  /** One more segment, mapped and copied, gives the image of one more header. */
  lemma SegmentLoaded(f: seq<Byte>, hs: seq<Phdr>, n: nat, base: Image, img: Image, mid: Image, img': Image)
    requires n < |hs| && AllSound(f, hs, n) && AllSound(f, hs, n + 1) && Loaded(f, hs, n, base, img)
    requires IsLoad(hs[n]) && Mapped(img, mid, PagesOf(hs[n])) && hs[n].offset + hs[n].filesz <= |f|
    requires Copied(mid, img', f, hs[n].offset, hs[n].filesz, hs[n].vaddr)
    ensures Loaded(f, hs, n + 1, base, img')
  {
    hide PageOf;
    hide InPage;
    hide PagesOf;
    hide ZeroPage;
    hide Expect;
    hide AllSound;
    forall x: nat | PageOf(x) in img'
      ensures ByteAt(img', x) == Expect(f, hs, n + 1, base, x)
    {
      ExpectStep(f, hs, n, base, x);
      if !Covers(hs[n], x) {
        assert ByteAt(img', x) == ByteAt(mid, x);
        if PageOf(x) in img {
          assert ByteAt(img, x) == Expect(f, hs, n, base, x);
        } else {
          ExpectUntouched(f, hs, n, base, x);
          ZeroByte(x);
        }
      }
    }
  }

  lemma SkippedLoaded(f: seq<Byte>, hs: seq<Phdr>, n: nat, base: Image, img: Image)
    requires n < |hs| && AllSound(f, hs, n) && AllSound(f, hs, n + 1) && Loaded(f, hs, n, base, img) && !IsLoad(hs[n])
    ensures Loaded(f, hs, n + 1, base, img)
  {
    hide PageOf;
    hide InPage;
    forall x: nat | PageOf(x) in img
      ensures ByteAt(img, x) == Expect(f, hs, n + 1, base, x)
    {
      ExpectStep(f, hs, n, base, x);
      assert ByteAt(img, x) == Expect(f, hs, n, base, x);
    }
  }

  /** In a fresh space, where no other segment brings a byte to x: the byte is segment j's, and zero if j brings none,
      even on a page that several segments share. */
  lemma {:induction false} DisjointImage(f: seq<Byte>, hs: seq<Phdr>, n: nat, x: nat, j: nat)
    requires n <= |hs| && AllSound(f, hs, n) && forall i :: 0 <= i < n && i != j ==> !Covers(hs[i], x)
    ensures j < n && Covers(hs[j], x) ==>
      Sound(f, hs[j]) && Expect(f, hs, n, map[], x) == f[hs[j].offset + (x - hs[j].vaddr)]
    ensures !(j < n && Covers(hs[j], x)) ==> Expect(f, hs, n, map[], x) == 0
  {
    if n > 0 {
      assert Sound(f, hs[n - 1]);
      DisjointImage(f, hs, n - 1, x, j);
    }
  }

  /** The memory ranges of the loaded segments do not overlap (they may share pages). */
  predicate Disjoint(hs: seq<Phdr>) {
    forall i, j :: 0 <= i < j < |hs| && IsLoad(hs[i]) && IsLoad(hs[j]) ==>
      hs[i].vaddr + hs[i].memsz <= hs[j].vaddr || hs[j].vaddr + hs[j].memsz <= hs[i].vaddr
  }

  /** A program with disjoint segments in a fresh space: exactly the touched pages are mapped, every byte of a segment's
      file range is the file's, and every other mapped byte is zero. */
  lemma ProgramImage(f: seq<Byte>, hs: seq<Phdr>, img: Image, x: nat)
    requires AllSound(f, hs, |hs|) && Disjoint(hs) && Loaded(f, hs, |hs|, map[], img)
    ensures img.Keys == Touched(hs, |hs|)
    ensures PageOf(x) in img && (forall j :: 0 <= j < |hs| ==> !Covers(hs[j], x)) ==> ByteAt(img, x) == 0
    ensures forall j :: 0 <= j < |hs| && Covers(hs[j], x) ==>
      && Sound(f, hs[j]) && PageOf(x) in img && ByteAt(img, x) == f[hs[j].offset + (x - hs[j].vaddr)]
  {
    hide PageOf;
    hide InPage;
    if PageOf(x) in img { assert ByteAt(img, x) == Expect(f, hs, |hs|, map[], x); }
    if forall j :: 0 <= j < |hs| ==> !Covers(hs[j], x) {
      DisjointImage(f, hs, |hs|, x, |hs|);
    }
    forall j | 0 <= j < |hs| && Covers(hs[j], x)
      ensures Sound(f, hs[j]) && PageOf(x) in img && ByteAt(img, x) == f[hs[j].offset + (x - hs[j].vaddr)]
    {
      assert Sound(f, hs[j]);
      OnlyOne(f, hs, x, j);
      DisjointImage(f, hs, |hs|, x, j);
      CoveredPage(hs[j], x);
      TouchedAt(hs, |hs|, j, PageOf(x));
      assert ByteAt(img, x) == Expect(f, hs, |hs|, map[], x);
    }
  }

  lemma OnlyOne(f: seq<Byte>, hs: seq<Phdr>, x: nat, j: nat)
    requires AllSound(f, hs, |hs|) && Disjoint(hs) && j < |hs| && Covers(hs[j], x)
    ensures forall i :: 0 <= i < |hs| && i != j ==> !Covers(hs[i], x)
  {
    forall i | 0 <= i < |hs| && i != j
      ensures !Covers(hs[i], x)
    {
      assert Sound(f, hs[i]) && Sound(f, hs[j]);
    }
  }

  lemma {:induction false} TouchedAt(hs: seq<Phdr>, n: nat, j: nat, p: nat)
    requires j < n <= |hs| && p in PagesOf(hs[j])
    ensures p in Touched(hs, n)
  {
    if j < n - 1 { TouchedAt(hs, n - 1, j, p); }
  }

  /** No page of an accepted program lies in the kernel half. */
  lemma {:induction false} UserHalfOnly(f: seq<Byte>, n: nat)
    requires Accepted(f) && NoWraps(f) && n <= PhNum(f)
    ensures forall p :: p in Touched(Headers(f), n) ==> p < 0xC_0000
  {
    hide PhNum;
    hide Validate;
    hide PhOff;
    hide Readable;
    hide Header;
    if n > 0 {
      UserHalfOnly(f, n - 1);
      assert HeaderOk(f, n - 1);
      hide HeadersOk;
      hide NoWraps;
      SegmentBelowKernel(f, Header(f, n - 1));
    }
  }

  lemma SegmentBelowKernel(f: seq<Byte>, h: Phdr)
    requires IsLoad(h) ==> Fits(f, h) && Plain(h)
    ensures forall p :: p in PagesOf(h) ==> p < 0xC_0000
  {
  }

  // ---------------------------------------------------------------- loading

  /** The allocators grant the next n pages. */
  predicate Enough(frames: seq<Grant>, n: int) {
    n <= |frames| && forall k :: 0 <= k < n ==> frames[k].Fresh?
  }

  /** How many pages are missing. */
  function Missing(base: Image, pages: set<nat>): int { |base.Keys + pages| - |base.Keys| }

  /** From `before` on, n fresh frames were used up. */
  ghost predicate Used(before: seq<Grant>, frames: seq<Grant>, n: int) {
    n >= 0 && |before| - |frames| == n && frames == before[n..] && Enough(before, n)
  }

  /** At most the space pd has changed. */
  ghost predicate SameElsewhere(was: map<Directory, Image>, now: map<Directory, Image>, pd: Directory) {
    now.Keys == was.Keys && forall q :: q in was && q != pd ==> now[q] == was[q]
  }

  class Loader {
    var spaces: map<Directory, Image>
    var cr3: Directory
    var frames: seq<Grant>

    /** Allocate, map and wipe one page. */
    method FreshPage(v: nat) returns (ok: bool)
      requires cr3 in spaces
      modifies this`spaces, this`frames
      ensures ok <==> old(frames) != [] && old(frames)[0].Fresh?
      ensures cr3 in spaces && SameElsewhere(old(spaces), spaces, cr3)
      ensures frames == if old(frames) == [] then [] else old(frames)[1..]
      ensures spaces[cr3] == if ok then Put(old(spaces)[cr3], v, ZeroPage()) else old(spaces)[cr3]
    {
      hide ZeroPage;
      if frames == [] { return false; }
      var grant := frames[0];
      frames := frames[1..];
      if !grant.Fresh? { return false; }
      spaces := spaces[cr3 := Put(spaces[cr3], v, grant.junk)];
      spaces := spaces[cr3 := Put(spaces[cr3], v, ZeroPage())];
      assert spaces[cr3] == Put(old(spaces)[cr3], v, ZeroPage());
      return true;
    }

    /** The page loop: every page of the range that is not mapped gets a fresh frame and is wiped. */
    method MapRange(first: nat, end: nat) returns (ok: bool)
      requires cr3 in spaces
      modifies this`spaces, this`frames
      ensures cr3 in spaces && SameElsewhere(old(spaces), spaces, cr3)
      ensures ok ==> Mapped(old(spaces[cr3]), spaces[cr3], PageRange(first, end))
      ensures ok ==> Used(old(frames), frames, |spaces[cr3].Keys| - |old(spaces[cr3]).Keys|)
      ensures ok <==> Enough(old(frames), Missing(old(spaces[cr3]), PageRange(first, end)))
    {
      hide Mapping;
      hide Mapped;
      hide Enough;
      hide Used;
      hide PageRange;
      hide ZeroPage;
      hide Put;
      hide SameElsewhere;
      hide Missing;
      ghost var base, before := spaces[cr3], frames;
      MappingStart(base, first, before);
      SameSpaces(spaces, cr3);
      var v := first;
      while v < end
        invariant first <= v && (first <= end ==> v <= end) && (end < first ==> v == first)
        invariant cr3 in spaces && SameElsewhere(old(spaces), spaces, cr3)
        invariant Mapping(base, spaces[cr3], first, v, before, frames)
      {
        MappingStep(base, spaces[cr3], first, v, end, before, frames);
        if v !in spaces[cr3] {
          ghost var was := spaces;
          ok := FreshPage(v);
          SameTwice(old(spaces), was, spaces, cr3);
          if !ok { return false; }
        }
        v := v + 1;
      }
      MappingEnd(base, spaces[cr3], first, v, end, before, frames);
      return true;
    }

    /** vfs_read into user memory: the bytes go to v, one after the other. */
    method ReadInto(f: seq<Byte>, off: nat, n: nat, v: nat)
      requires cr3 in spaces && off + n <= |f|
      requires forall x: nat :: v <= x < v + n ==> PageOf(x) in spaces[cr3]
      modifies this`spaces
      ensures cr3 in spaces && SameElsewhere(old(spaces), spaces, cr3)
      ensures Copied(old(spaces[cr3]), spaces[cr3], f, off, n, v)
    {
      hide PageOf;
      hide InPage;
      hide Copied;
      ghost var base := spaces[cr3];
      CopiedNone(base, f, off, v);
      var i := 0;
      while i < n
        invariant 0 <= i <= n && cr3 in spaces && SameElsewhere(old(spaces), spaces, cr3)
        invariant spaces[cr3].Keys == base.Keys && Copied(base, spaces[cr3], f, off, i, v)
      {
        assert PageOf(v + i) in base;
        CopiedStep(base, spaces[cr3], f, off, i, v);
        var p, o := PageOf(v + i), InPage(v + i);
        spaces := spaces[cr3 := Put(spaces[cr3], p, SetByte(spaces[cr3][p], o, f[off + i]))];
        i := i + 1;
      }
    }

    /** Map and fill one segment that has passed the checks. */
    method PlaceSegment(f: seq<Byte>, h: Phdr, ghost hs: seq<Phdr>, ghost n: nat, ghost base: Image) returns (ok: bool)
      requires cr3 in spaces && n < |hs| && hs[n] == h && IsLoad(h)
      requires AllSound(f, hs, n) && AllSound(f, hs, n + 1) && Loaded(f, hs, n, base, spaces[cr3])
      modifies this`spaces, this`frames
      ensures cr3 in spaces && SameElsewhere(old(spaces), spaces, cr3)
      ensures ok ==> Loaded(f, hs, n + 1, base, spaces[cr3])
      ensures ok ==> Used(old(frames), frames, |spaces[cr3].Keys| - |old(spaces[cr3]).Keys|)
      ensures ok <==> Enough(old(frames), Missing(old(spaces[cr3]), PagesOf(h)))
    {
      hide Loaded;
      hide Mapped;
      hide Copied;
      hide PageRange;
      hide Enough;
      hide Used;
      hide PageOf;
      hide FirstPage;
      hide EndPage;
      hide AllSound;
      hide Missing;
      hide PagesOf;
      hide SameElsewhere;
      PagesIs(h);
      SoundAt(f, hs, n);
      ghost var img := spaces[cr3];
      var start, end := FirstPage(h), EndPage(h);
      ghost var was := spaces;
      ok := MapRange(start, end);
      if !ok { return; }
      ghost var between := spaces;
      ghost var mid := spaces[cr3];
      SegmentMapped(img, mid, h);
      if h.filesz > 0 {
        ReadInto(f, h.offset, h.filesz, h.vaddr);
      } else {
        CopiedNone(mid, f, h.offset, h.vaddr);
        SameSpaces(spaces, cr3);
      }
      SameTwice(was, between, spaces, cr3);
      CopiedKeys(mid, spaces[cr3], f, h.offset, h.filesz, h.vaddr);
      SegmentLoaded(f, hs, n, base, img, mid, spaces[cr3]);
    }

    /** One round of the loop over the program headers. */
    method LoadSegment(f: seq<Byte>, h: Phdr, ghost hs: seq<Phdr>, ghost n: nat, ghost base: Image) returns (ok: bool)
      requires |f| < WRAP && cr3 in spaces && n < |hs| && hs[n] == h && (IsLoad(h) ==> Plain(h))
      requires AllSound(f, hs, n) && Loaded(f, hs, n, base, spaces[cr3])
      modifies this`spaces, this`frames
      ensures cr3 in spaces && SameElsewhere(old(spaces), spaces, cr3)
      ensures ok <==> (IsLoad(h) ==> Fits(f, h) && Enough(old(frames), Missing(old(spaces[cr3]), PagesOf(h))))
      ensures ok ==> AllSound(f, hs, n + 1) && Loaded(f, hs, n + 1, base, spaces[cr3])
      ensures ok ==> Used(old(frames), frames, |spaces[cr3].Keys| - |old(spaces[cr3]).Keys|)
    {
      hide Loaded;
      hide Enough;
      hide Used;
      hide AllSound;
      hide PagesOf;
      hide Missing;
      hide SameElsewhere;
      SameSpaces(spaces, cr3);
      if h.ptype != PT_LOAD || h.memsz == 0 {
        SkippedSound(f, hs, n);
        SkippedLoaded(f, hs, n, base, spaces[cr3]);
        UsedNone(frames);
        return true;
      }
      if h.vaddr >= KERNEL_BASE || (h.vaddr + h.memsz) % WRAP > KERNEL_BASE || h.filesz > h.memsz {
        return false;
      }
      if (h.offset + h.filesz) % WRAP > |f| {
        return false;
      }
      FitsSound(f, hs, n);
      ok := PlaceSegment(f, h, hs, n, base);
    }

    /** elf_load.  On every path the caller's address space is current again; the load succeeds exactly when the file is
        acceptable and the allocators grant a frame for each missing page, and then the space is the program's image. */
    method ElfLoad(f: seq<Byte>, pd: Directory) returns (entry: Word, ghost ok: bool)
      requires |f| < WRAP && NoWraps(f) && pd in spaces && cr3 in spaces
      modifies this
      ensures cr3 == old(cr3) && pd in spaces && SameElsewhere(old(spaces), spaces, pd)
      ensures ok <==> Accepted(f) && Enough(old(frames), Missing(old(spaces[pd]), Touched(Headers(f), PhNum(f))))
      ensures entry == if ok then Entry(f) else 0
      ensures ok ==> AllSound(f, Headers(f), PhNum(f)) && Loaded(f, Headers(f), PhNum(f), old(spaces[pd]), spaces[pd])
    {
      hide Validate;
      hide HeaderOk;
      hide Header;
      hide Loaded;
      hide Enough;
      hide Used;
      hide Readable;
      hide HeadersOk;
      hide Headers;
      hide AllSound;
      hide NoWraps;
      hide Touched;
      hide PhOff;
      hide PhNum;
      hide Fits;
      hide PagesOf;
      hide Missing;
      entry, ok := 0, false;
      if |f| < EHDR { return; }
      if !Validate(f) { return; }
      if (PhOff(f) + PhNum(f) * PHDR) % WRAP > |f| { return; }
      var saved := cr3;
      cr3 := pd;
      ghost var base, before, hs := spaces[pd], frames, Headers(f);
      LoadedNone(f, hs, base);
      HeadersNone(f);
      UsedNone(frames);
      var i := 0;
      var good := true;
      while i < PhNum(f) && good
        invariant 0 <= i <= PhNum(f) == |hs| && cr3 == pd && pd in spaces && SameElsewhere(old(spaces), spaces, pd)
        invariant good ==> HeadersOk(f, i) && AllSound(f, hs, i) && Loaded(f, hs, i, base, spaces[pd])
        invariant good ==> Used(before, frames, |spaces[pd].Keys| - |base.Keys|)
        invariant !good ==> !(HeadersOk(f, PhNum(f)) && Enough(before, Missing(base, Touched(hs, |hs|))))
        decreases PhNum(f) - i, good
      {
        if !Readable(f, i) {
          BadHeader(f, i);
          good := false;
        } else {
          ghost var img, left := spaces[pd], frames;
          HeaderPlain(f, i);
          good := LoadSegment(f, Header(f, i), hs, i, base);
          if !good {
            RoundFailed(f, hs, i, base, img, before, left);
          } else {
            HeaderDone(f, i);
            UsedTwice(before, left, frames, base, img, spaces[pd]);
            i := i + 1;
          }
        }
      }
      cr3 := saved;
      ok := good;
      if good {
        entry := Entry(f);
        AllGranted(f, hs, base, spaces[pd], before, frames);
      }
    }
  }

  function SetByte(p: Page, o: nat, b: Byte): Page
    requires o < 4096
  {
    p[o := b]
  }

  lemma CopiedNone(a: Image, f: seq<Byte>, off: nat, v: nat)
    requires off <= |f|
    ensures Copied(a, a, f, off, 0, v)
  {
  }

  lemma CopiedKeys(a: Image, b: Image, f: seq<Byte>, off: nat, n: nat, v: nat)
    requires off + n <= |f| && Copied(a, b, f, off, n, v)
    ensures a.Keys == b.Keys
  {
  }

  lemma OneByte(img: Image, a: nat, b: Byte, x: nat)
    requires PageOf(a) in img && PageOf(x) in img
    ensures var img' := Put(img, PageOf(a), SetByte(img[PageOf(a)], InPage(a), b));
            PageOf(x) in img' && ByteAt(img', x) == if x == a then b else ByteAt(img, x)
  {
    hide PageOf;
    hide InPage;
    if PageOf(x) == PageOf(a) && InPage(x) == InPage(a) { SameAddress(x, a); }
  }

  lemma SameAddress(x: nat, a: nat)
    requires PageOf(x) == PageOf(a) && InPage(x) == InPage(a)
    ensures x == a
  {
  }

  lemma CopiedStep(base: Image, img: Image, f: seq<Byte>, off: nat, i: nat, v: nat)
    requires off + i < |f| && Copied(base, img, f, off, i, v) && PageOf(v + i) in img
    ensures Copied(base, Put(img, PageOf(v + i), SetByte(img[PageOf(v + i)], InPage(v + i), f[off + i])),
                   f, off, i + 1, v)
  {
    hide PageOf;
    hide InPage;
    hide SetByte;
    var a := v + i;
    var img' := Put(img, PageOf(a), SetByte(img[PageOf(a)], InPage(a), f[off + i]));
    forall x: nat | PageOf(x) in img'
      ensures ByteAt(img', x) == if v <= x < v + (i + 1) then f[off + (x - v)] else ByteAt(base, x)
    {
      OneByte(img, a, f[off + i], x);
      assert ByteAt(img, x) == if v <= x < v + i then f[off + (x - v)] else ByteAt(base, x);
    }
  }

  lemma UsedNone(frames: seq<Grant>)
    ensures Used(frames, frames, 0)
  {
  }

  lemma SameTwice(a: map<Directory, Image>, b: map<Directory, Image>, c: map<Directory, Image>, pd: Directory)
    requires SameElsewhere(a, b, pd) && SameElsewhere(b, c, pd)
    ensures SameElsewhere(a, c, pd)
  {
  }

  lemma PagesIs(h: Phdr)
    requires IsLoad(h)
    ensures PagesOf(h) == PageRange(FirstPage(h), EndPage(h))
  {
  }

  lemma SameSpaces(spaces: map<Directory, Image>, pd: Directory)
    ensures SameElsewhere(spaces, spaces, pd)
  {
  }

  lemma SoundAt(f: seq<Byte>, hs: seq<Phdr>, n: nat)
    requires n < |hs| && AllSound(f, hs, n + 1) && IsLoad(hs[n])
    ensures hs[n].filesz <= hs[n].memsz && hs[n].offset + hs[n].filesz <= |f|
  {
    assert Sound(f, hs[n]);
  }

  lemma SkippedSound(f: seq<Byte>, hs: seq<Phdr>, n: nat)
    requires n < |hs| && AllSound(f, hs, n) && !IsLoad(hs[n])
    ensures AllSound(f, hs, n + 1)
  {
  }

  lemma FitsSound(f: seq<Byte>, hs: seq<Phdr>, n: nat)
    requires n < |hs| && AllSound(f, hs, n) && IsLoad(hs[n]) && Fits(f, hs[n]) && Plain(hs[n])
    ensures AllSound(f, hs, n + 1) && hs[n].offset + hs[n].filesz <= |f| && hs[n].filesz <= hs[n].memsz
  {
  }

  /** The mapped range holds every address the file bytes go to. */
  lemma SegmentMapped(img: Image, mid: Image, h: Phdr)
    requires IsLoad(h) && h.filesz <= h.memsz && Mapped(img, mid, PageRange(FirstPage(h), EndPage(h)))
    ensures Mapped(img, mid, PagesOf(h)) && forall x: nat :: h.vaddr <= x < h.vaddr + h.filesz ==> PageOf(x) in mid
  {
    hide PageOf;
    hide FirstPage;
    hide EndPage;
    hide ZeroPage;
    forall x: nat | h.vaddr <= x < h.vaddr + h.filesz
      ensures PageOf(x) in mid
    {
      CoveredPage(h, x);
    }
  }

  lemma LoadedNone(f: seq<Byte>, hs: seq<Phdr>, base: Image)
    ensures AllSound(f, hs, 0) && Loaded(f, hs, 0, base, base)
  {
    hide PageOf;
  }

  lemma HeadersNone(f: seq<Byte>)
    requires |f| >= EHDR
    ensures HeadersOk(f, 0) && |Headers(f)| == PhNum(f)
  {
  }

  lemma BadHeader(f: seq<Byte>, i: nat)
    requires |f| >= EHDR && i < PhNum(f) && (!Readable(f, i) || !HeaderOk(f, i))
    ensures !HeadersOk(f, PhNum(f))
  {
    hide Header;
    assert !HeaderOk(f, i);
  }

  lemma HeaderPlain(f: seq<Byte>, i: nat)
    requires |f| >= EHDR && NoWraps(f) && i < PhNum(f)
    ensures Headers(f)[i] == Header(f, i) && (IsLoad(Header(f, i)) ==> Plain(Header(f, i)))
  {
    hide Header;
  }

  lemma HeaderDone(f: seq<Byte>, i: nat)
    requires |f| >= EHDR && HeadersOk(f, i) && Readable(f, i) && (IsLoad(Header(f, i)) ==> Fits(f, Header(f, i)))
    ensures HeadersOk(f, i + 1)
  {
    hide Header;
    assert HeaderOk(f, i);
  }

  /** A round fails because its header is bad, or because memory does not reach. */
  lemma RoundFailed(f: seq<Byte>, hs: seq<Phdr>, i: nat, base: Image, img: Image, before: seq<Grant>, left: seq<Grant>)
    requires |f| >= EHDR && hs == Headers(f) && i < |hs| && Readable(f, i) && AllSound(f, hs, i)
    requires Loaded(f, hs, i, base, img)
    requires Used(before, left, |img.Keys| - |base.Keys|)
    requires IsLoad(hs[i]) && !(Fits(f, hs[i]) && Enough(left, Missing(img, PagesOf(hs[i]))))
    ensures !(HeadersOk(f, PhNum(f)) && Enough(before, Missing(base, Touched(hs, |hs|))))
  {
    hide Header;
    hide Enough;
    hide Missing;
    hide Used;
    hide PagesOf;
    hide Loaded;
    if Fits(f, hs[i]) {
      LoadedKeys(f, hs, i, base, img);
      TouchedGrows(hs, i + 1, |hs|);
      StillMissing(base, img, Touched(hs, i), PagesOf(hs[i]), Touched(hs, |hs|), before, left);
    } else {
      assert hs[i] == Header(f, i);
      assert !HeaderOk(f, i);
    }
  }

  lemma LoadedKeys(f: seq<Byte>, hs: seq<Phdr>, n: nat, base: Image, img: Image)
    requires n <= |hs| && AllSound(f, hs, n) && Loaded(f, hs, n, base, img)
    ensures img.Keys == base.Keys + Touched(hs, n)
  {
    hide Expect;
  }

  lemma AllGranted(f: seq<Byte>, hs: seq<Phdr>, base: Image, img: Image, before: seq<Grant>, frames: seq<Grant>)
    requires AllSound(f, hs, |hs|) && Loaded(f, hs, |hs|, base, img) && Used(before, frames, |img.Keys| - |base.Keys|)
    ensures Enough(before, Missing(base, Touched(hs, |hs|)))
  {
    hide Expect;
  }

  lemma {:induction false} TouchedGrows(hs: seq<Phdr>, a: nat, b: nat)
    requires a <= b <= |hs|
    ensures Touched(hs, a) <= Touched(hs, b)
  {
    if a < b { TouchedGrows(hs, a, b - 1); }
  }

  lemma StillMissing(base: Image, img: Image, done: set<nat>, pages: set<nat>, all: set<nat>, before: seq<Grant>,
                     left: seq<Grant>)
    requires img.Keys == base.Keys + done && done + pages <= all && Used(before, left, |img.Keys| - |base.Keys|)
    requires !Enough(left, Missing(img, pages))
    ensures !Enough(before, Missing(base, all))
  {
    NotLarger(img.Keys + pages, base.Keys + all);
    var n, m := |img.Keys| - |base.Keys|, Missing(img, pages);
    if m <= |left| {
      var k :| 0 <= k < m && !left[k].Fresh?;
      assert before[n + k] == left[k];
    }
  }

  lemma UsedTwice(before: seq<Grant>, left: seq<Grant>, now: seq<Grant>, base: Image, img: Image, img': Image)
    requires Used(before, left, |img.Keys| - |base.Keys|) && Used(left, now, |img'.Keys| - |img.Keys|)
    ensures Used(before, now, |img'.Keys| - |base.Keys|)
  {
    var m := |img.Keys| - |base.Keys|;
    forall k | 0 <= k < |img'.Keys| - |base.Keys|
      ensures before[k].Fresh?
    {
      if k >= m { assert before[k] == left[k - m]; }
    }
  }

  lemma MappedStep(base: Image, img: Image, first: nat, v: nat)
    requires Mapped(base, img, PageRange(first, v)) && first <= v
    ensures v in img ==> Mapped(base, img, PageRange(first, v + 1))
    ensures v !in img ==> Mapped(base, Put(img, v, ZeroPage()), PageRange(first, v + 1))
  {
    hide ZeroPage;
    assert PageRange(first, v + 1) == PageRange(first, v) + {v};
  }

  /** The page loop before page v. */
  ghost predicate Mapping(base: Image, img: Image, first: nat, v: nat, before: seq<Grant>, frames: seq<Grant>) {
    Mapped(base, img, PageRange(first, v)) && Used(before, frames, |img.Keys| - |base.Keys|)
  }

  lemma MappingStart(base: Image, first: nat, frames: seq<Grant>)
    ensures Mapping(base, base, first, first, frames, frames)
  {
    MapStarts(base, first, frames);
  }

  lemma MappingStep(base: Image, img: Image, first: nat, v: nat, end: nat, before: seq<Grant>, frames: seq<Grant>)
    requires Mapping(base, img, first, v, before, frames) && first <= v < end
    ensures v in img ==> Mapping(base, img, first, v + 1, before, frames)
    ensures v !in img && frames != [] && frames[0].Fresh? ==>
      Mapping(base, Put(img, v, ZeroPage()), first, v + 1, before, frames[1..])
    ensures v !in img && !(frames != [] && frames[0].Fresh?) ==> !Enough(before, Missing(base, PageRange(first, end)))
  {
    hide Mapped;
    hide Enough;
    hide Used;
    hide PageRange;
    hide ZeroPage;
    MappedStep(base, img, first, v);
    if v !in img {
      if frames != [] && frames[0].Fresh? {
        UsedOne(before, frames, img, base, v);
      } else {
        TooFew(base, img, first, v, end, before, frames);
      }
    }
  }

  lemma MappingEnd(base: Image, img: Image, first: nat, v: nat, end: nat, before: seq<Grant>, frames: seq<Grant>)
    requires Mapping(base, img, first, v, before, frames) && (v == end || (end < first && v == first))
    ensures Mapped(base, img, PageRange(first, end)) && Used(before, frames, |img.Keys| - |base.Keys|)
    ensures Enough(before, Missing(base, PageRange(first, end)))
  {
    if v != end { SameRange(first, v, end); }
    hide PageRange;
    hide ZeroPage;
  }

  lemma MapStarts(base: Image, first: nat, frames: seq<Grant>)
    ensures Mapped(base, base, PageRange(first, first)) && Used(frames, frames, |base.Keys| - |base.Keys|)
  {
  }

  lemma SameRange(first: nat, v: nat, end: nat)
    requires end < first && v == first
    ensures PageRange(first, v) == PageRange(first, end)
  {
  }

  /** A fresh grant pays for page v. */
  lemma UsedOne(before: seq<Grant>, frames: seq<Grant>, img: Image, base: Image, v: nat)
    requires frames != [] && frames[0].Fresh? && Used(before, frames, |img.Keys| - |base.Keys|) && v !in img
    ensures Used(before, frames[1..], |Put(img, v, ZeroPage()).Keys| - |base.Keys|)
  {
    hide ZeroPage;
    assert Put(img, v, ZeroPage()).Keys == img.Keys + {v};
    assert before[|before| - |frames|] == frames[0];
  }

  /** Without one, what is granted does not reach to the end. */
  lemma TooFew(base: Image, img: Image, first: nat, v: nat, end: nat, before: seq<Grant>, frames: seq<Grant>)
    requires Mapped(base, img, PageRange(first, v)) && first <= v < end && v !in img
    requires (frames == [] || !frames[0].Fresh?) && Used(before, frames, |img.Keys| - |base.Keys|)
    ensures !Enough(before, Missing(base, PageRange(first, end)))
  {
    hide ZeroPage;
    Smaller(img.Keys, base.Keys + PageRange(first, end), v);
    if frames != [] { assert before[|before| - |frames|] == frames[0]; }
  }

  lemma Smaller(a: set<nat>, b: set<nat>, x: nat)
    requires a <= b && x in b && x !in a
    ensures |a| < |b|
  {
    NotLarger(a + {x}, b);
  }

  lemma NotLarger(a: set<nat>, b: set<nat>)
    requires a <= b
    ensures |a| <= |b|
  {
    var d := b - a;
    assert b == a + d;
  }
}
