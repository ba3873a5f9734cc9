/**
 Executable files written byte by byte, as kernel/kernel/elf.h and the TIS ELF Specification 1.2 (Book I, ELF header and
 program header) lay them out, and what loading one does: the entry point comes back, and memory holds the segments.
 */
module ElfFile {
  import opened Checksum
  import opened Elf

  /** The file header. */
  datatype Ehdr = Ehdr(ident: seq<Byte>, etype: Half, machine: Half, version: Word, entry: Word, phoff: Word,
                       shoff: Word, flags: Word, ehsize: Half, phentsize: Half, phnum: Half, shentsize: Half,
                       shnum: Half, shstrndx: Half)

  function FourLow(w: Word): (b: seq<Byte>)
    ensures |b| == 4
  {
    [w % 256, w / 256 % 256, w / 0x1_0000 % 256, w / 0x100_0000]
  }

  function EncodeEhdr(h: Ehdr): (b: seq<Byte>)
    requires |h.ident| == 16
    ensures |b| == 52
  {
    h.ident + LowFirst(h.etype) + LowFirst(h.machine) + FourLow(h.version) + FourLow(h.entry) + FourLow(h.phoff)
    + FourLow(h.shoff) + FourLow(h.flags) + LowFirst(h.ehsize) + LowFirst(h.phentsize) + LowFirst(h.phnum)
    + LowFirst(h.shentsize) + LowFirst(h.shnum) + LowFirst(h.shstrndx)
  }

  /** A program header; the loader looks at neither the physical address nor the flags nor the alignment. */
  function EncodePhdr(h: Phdr, paddr: Word, flags: Word, align: Word): (b: seq<Byte>)
    ensures |b| == 32
  {
    FourLow(h.ptype) + FourLow(h.offset) + FourLow(h.vaddr) + FourLow(paddr) + FourLow(h.filesz) + FourLow(h.memsz)
    + FourLow(flags) + FourLow(align)
  }

  // ---------------------------------------------------------------- reading what was written

  lemma ReadHalf(f: seq<Byte>, i: nat, h: Half)
    requires i + 2 <= |f| && f[i..i + 2] == LowFirst(h)
    ensures Le16(f, i) == h
  {
    assert f[i] == f[i..i + 2][0] && f[i + 1] == f[i..i + 2][1];
  }

  lemma ReadWord(f: seq<Byte>, i: nat, w: Word)
    requires i + 4 <= |f| && f[i..i + 4] == FourLow(w)
    ensures Le32(f, i) == w
  {
    var b := f[i..i + 4];
    assert f[i] == b[0] && f[i + 1] == b[1] && f[i + 2] == b[2] && f[i + 3] == b[3];
    WordOf(w);
  }

  lemma WordOf(w: Word)
    ensures w / 0x100_0000 * 0x100_0000 + w / 0x1_0000 % 256 * 0x1_0000 + w / 256 % 256 * 256 + w % 256 == w
  {
    assert w / 256 / 256 == w / 0x1_0000 && w / 0x1_0000 / 256 == w / 0x100_0000;
  }

  lemma EhdrParts(h: Ehdr, f: seq<Byte>)
    requires |h.ident| == 16 && EncodeEhdr(h) <= f
    ensures |f| >= 52 && f[..16] == h.ident && f[16..18] == LowFirst(h.etype) && f[18..20] == LowFirst(h.machine)
    ensures f[24..28] == FourLow(h.entry) && f[28..32] == FourLow(h.phoff)
    ensures f[42..44] == LowFirst(h.phentsize) && f[44..46] == LowFirst(h.phnum)
  {
    hide LowFirst;
    hide FourLow;
    var b := EncodeEhdr(h);
    assert b[..16] == h.ident && b[16..18] == LowFirst(h.etype) && b[18..20] == LowFirst(h.machine);
    assert b[24..28] == FourLow(h.entry) && b[28..32] == FourLow(h.phoff);
    assert b[42..44] == LowFirst(h.phentsize) && b[44..46] == LowFirst(h.phnum);
    hide EncodeEhdr;
    SliceOfPrefix(b, f, 0, 16);
    SliceOfPrefix(b, f, 16, 18);
    SliceOfPrefix(b, f, 18, 20);
    SliceOfPrefix(b, f, 24, 28);
    SliceOfPrefix(b, f, 28, 32);
    SliceOfPrefix(b, f, 42, 44);
    SliceOfPrefix(b, f, 44, 46);
  }

  lemma SliceOfPrefix(b: seq<Byte>, f: seq<Byte>, i: nat, j: nat)
    requires b <= f && i <= j <= |b|
    ensures f[i..j] == b[i..j]
  {
  }

  /** What the loader reads from a file header is what was written, and it accepts exactly a 32-bit little-endian
      executable for the i386 with program headers of 32 bytes and an entry point below the kernel. */
  lemma EhdrRead(h: Ehdr, f: seq<Byte>)
    requires |h.ident| == 16 && EncodeEhdr(h) <= f
    ensures |f| >= EHDR && Entry(f) == h.entry && PhOff(f) == h.phoff && PhNum(f) == h.phnum
    ensures Validate(f) <==>
      && h.ident[..6] == [0x7F, 'E' as int, 'L' as int, 'F' as int, 1, 1] && h.etype == 2 && h.machine == 3
      && h.phnum != 0 && h.phentsize == 32 && h.entry < 0xC000_0000
  {
    hide EncodeEhdr;
    hide FourLow;
    hide Le16;
    hide Le32;
    EhdrParts(h, f);
    ReadWord(f, 24, h.entry);
    ReadWord(f, 28, h.phoff);
    ReadHalf(f, 44, h.phnum);
    ReadHalf(f, 16, h.etype);
    ReadHalf(f, 18, h.machine);
    ReadHalf(f, 42, h.phentsize);
    hide LowFirst;
    var magic := [0x7F, 'E' as int, 'L' as int, 'F' as int, 1, 1];
    FirstSix(f, h.ident, magic);
  }

  lemma FirstSix(f: seq<Byte>, ident: seq<Byte>, magic: seq<int>)
    requires |f| >= 16 && f[..16] == ident && |magic| == 6
    ensures ident[..6] == magic <==>
      && f[0] == magic[0] && f[1] == magic[1] && f[2] == magic[2]
      && f[3] == magic[3] && f[4] == magic[4] && f[5] == magic[5]
  {
    assert forall i :: 0 <= i < 6 ==> ident[..6][i] == f[i];
  }

  /** The loader reads back a program header from the place the file header says. */
  lemma PhdrRead(f: seq<Byte>, i: nat, h: Phdr, paddr: Word, flags: Word, align: Word)
    requires |f| >= EHDR && PhOff(f) + 32 * i + 32 <= |f| < WRAP
    requires f[PhOff(f) + 32 * i..PhOff(f) + 32 * i + 32] == EncodePhdr(h, paddr, flags, align)
    ensures Readable(f, i) && Header(f, i) == h
  {
    hide FourLow;
    hide PhOff;
    hide Le32;
    var p := PhOff(f) + 32 * i;
    WrapUnique(p, 0, p);
    assert PhPos(f, i) == p;
    var b := EncodePhdr(h, paddr, flags, align);
    assert b[0..4] == FourLow(h.ptype) && b[4..8] == FourLow(h.offset) && b[8..12] == FourLow(h.vaddr);
    assert b[16..20] == FourLow(h.filesz) && b[20..24] == FourLow(h.memsz);
    hide EncodePhdr;
    PhdrWord(f, p, b, 0, h.ptype);
    PhdrWord(f, p, b, 4, h.offset);
    PhdrWord(f, p, b, 8, h.vaddr);
    PhdrWord(f, p, b, 16, h.filesz);
    PhdrWord(f, p, b, 20, h.memsz);
  }

  lemma SliceOfSlice(f: seq<Byte>, p: nat, q: nat, i: nat, j: nat)
    requires p <= q <= |f| && i <= j <= q - p
    ensures f[p..q][i..j] == f[p + i..p + j]
  {
    var a, b := f[p..q][i..j], f[p + i..p + j];
    forall k | 0 <= k < |a|
      ensures a[k] == b[k]
    {
    }
  }

  lemma PhdrWord(f: seq<Byte>, p: nat, b: seq<Byte>, k: nat, w: Word)
    requires p + 32 <= |f| && f[p..p + 32] == b && k + 4 <= 32 && b[k..k + 4] == FourLow(w)
    ensures Le32(f, p + k) == w
  {
    hide FourLow;
    SliceOfSlice(f, p, p + 32, k, k + 4);
    ReadWord(f, p + k, w);
  }

  // ---------------------------------------------------------------- programs

  /** A segment of a program: its bytes go to vaddr, and zeros follow up to memsz. */
  datatype Part = Part(vaddr: Word, bytes: seq<Byte>, memsz: Word)

  datatype Program = Program(entry: Word, parts: seq<Part>)

  /** The first n of some byte strings, one after the other. */
  function Flat(xs: seq<seq<Byte>>, n: nat): seq<Byte>
    requires n <= |xs|
  {
    if n == 0 then [] else Flat(xs, n - 1) + xs[n - 1]
  }

  function Datas(p: Program): (xs: seq<seq<Byte>>)
    ensures |xs| == |p.parts| && forall i :: 0 <= i < |xs| ==> xs[i] == p.parts[i].bytes
  {
    seq(|p.parts|, i requires 0 <= i < |p.parts| => p.parts[i].bytes)
  }

  /** Where the bytes of part i lie in the file. */
  function DataOffset(p: Program, i: nat): nat
    requires i <= |p.parts|
  {
    52 + 32 * |p.parts| + |Flat(Datas(p), i)|
  }

  /** Programs the format has room for, in the user half, whose parts do not overlap in memory. */
  predicate WellFormed(p: Program) {
    && p.entry < KERNEL_BASE && 0 < |p.parts| < 0x10000 && DataOffset(p, |p.parts|) < WRAP
    && (forall i :: 0 <= i < |p.parts| ==> PartOk(p.parts[i]))
    && (forall i, j :: 0 <= i < j < |p.parts| ==> Apart(p.parts[i], p.parts[j]))
  }

  predicate PartOk(a: Part) { a.vaddr < KERNEL_BASE && a.vaddr + a.memsz <= KERNEL_BASE && |a.bytes| <= a.memsz }

  predicate Apart(a: Part, b: Part) { a.vaddr + a.memsz <= b.vaddr || b.vaddr + b.memsz <= a.vaddr }

  /** The program header of part i. */
  function PhdrOf(p: Program, i: nat): Phdr
    requires i < |p.parts| && DataOffset(p, i) < WRAP && |p.parts[i].bytes| < WRAP
  {
    Phdr(1, DataOffset(p, i), p.parts[i].vaddr, |p.parts[i].bytes|, p.parts[i].memsz)
  }

  lemma PartFits(p: Program, i: nat)
    requires WellFormed(p) && i < |p.parts|
    ensures PartOk(p.parts[i]) && DataOffset(p, i) + |p.parts[i].bytes| <= DataOffset(p, |p.parts|) < WRAP
  {
    FlatGrows(Datas(p), i + 1, |p.parts|);
  }

  lemma {:induction false} FlatGrows(xs: seq<seq<Byte>>, a: nat, b: nat)
    requires a <= b <= |xs|
    ensures Flat(xs, a) <= Flat(xs, b)
  {
    if a < b { FlatGrows(xs, a, b - 1); }
  }

  function PhdrBytes(p: Program): (xs: seq<seq<Byte>>)
    requires WellFormed(p)
    ensures |xs| == |p.parts|
  {
    seq(|p.parts|, i requires 0 <= i < |p.parts| =>
      PartFits(p, i);
      EncodePhdr(PhdrOf(p, i), 0, 7, 4096))
  }

  function EhdrOf(p: Program): Ehdr
    requires |p.parts| < 0x10000
  {
    Ehdr([0x7F, 'E' as int, 'L' as int, 'F' as int, 1, 1, 1, 0, 0, 0, 0, 0, 0, 0, 0, 0],
         2, 3, 1, p.entry, 52, 0, 0, 52, 32, |p.parts|, 0, 0, 0)
  }

  /** The file: header, program headers, data. */
  function Build(p: Program): seq<Byte>
    requires WellFormed(p)
  {
    EncodeEhdr(EhdrOf(p)) + Flat(PhdrBytes(p), |p.parts|) + Flat(Datas(p), |p.parts|)
  }

  /** Piece i of the concatenation lies behind the pieces before it. */
  lemma FlatAt(xs: seq<seq<Byte>>, i: nat)
    requires i < |xs|
    ensures |Flat(xs, i)| + |xs[i]| <= |Flat(xs, |xs|)|
    ensures Flat(xs, |xs|)[|Flat(xs, i)|..|Flat(xs, i)| + |xs[i]|] == xs[i]
  {
    FlatGrows(xs, i + 1, |xs|);
    var a, b := Flat(xs, i + 1), Flat(xs, |xs|);
    SliceOfPrefix(a, b, |Flat(xs, i)|, |a|);
  }

  lemma {:induction false} FlatEven(xs: seq<seq<Byte>>, n: nat)
    requires n <= |xs| && forall i :: 0 <= i < |xs| ==> |xs[i]| == 32
    ensures |Flat(xs, n)| == 32 * n
  {
    if n > 0 { FlatEven(xs, n - 1); }
  }

  lemma SliceOfMiddle(a: seq<Byte>, b: seq<Byte>, c: seq<Byte>, i: nat, j: nat)
    requires i <= j <= |b|
    ensures (a + b + c)[|a| + i..|a| + j] == b[i..j]
  {
  }

  /** The file read by the loader: its header is accepted, and its program headers are those of the parts. */
  lemma BuildRead(p: Program)
    requires WellFormed(p)
    ensures var f := Build(p);
            && EHDR <= |f| == DataOffset(p, |p.parts|) && Entry(f) == p.entry && PhOff(f) == 52
            && PhNum(f) == |p.parts| && Validate(f)
  {
    hide LowFirst;
    hide FourLow;
    hide PhdrBytes;
    var f := Build(p);
    TableLength(p);
    hide Flat;
    EhdrRead(EhdrOf(p), f);
  }

  lemma TableLength(p: Program)
    requires WellFormed(p)
    ensures |Flat(PhdrBytes(p), |p.parts|)| == 32 * |p.parts|
  {
    hide EncodePhdr;
    FlatEven(PhdrBytes(p), |p.parts|);
  }

  lemma BuildHeader(p: Program, i: nat)
    requires WellFormed(p) && i < |p.parts|
    ensures DataOffset(p, i) < WRAP && |p.parts[i].bytes| < WRAP
    ensures |Build(p)| >= EHDR && Readable(Build(p), i) && Header(Build(p), i) == PhdrOf(p, i)
  {
    hide Build;
    hide PhOff;
    hide Header;
    hide Readable;
    hide EncodePhdr;
    hide WellFormed;
    hide PhdrOf;
    BuildRead(p);
    PartFits(p, i);
    BuildTable(p, i);
    hide DataOffset;
    PhdrRead(Build(p), i, PhdrOf(p, i), 0, 7, 4096);
  }

  /** The i-th program header in the file. */
  lemma BuildTable(p: Program, i: nat)
    requires WellFormed(p) && i < |p.parts| && DataOffset(p, i) < WRAP && |p.parts[i].bytes| < WRAP
    ensures 52 + 32 * i + 32 <= |Build(p)|
    ensures Build(p)[52 + 32 * i..52 + 32 * i + 32] == EncodePhdr(PhdrOf(p, i), 0, 7, 4096)
  {
    hide EncodeEhdr;
    hide EncodePhdr;
    hide DataOffset;
    var e, xs, d := EncodeEhdr(EhdrOf(p)), PhdrBytes(p), Flat(Datas(p), |p.parts|);
    assert xs[i] == EncodePhdr(PhdrOf(p, i), 0, 7, 4096);
    FlatEven(xs, i);
    FlatAt(xs, i);
    TableLength(p);
    hide PhdrBytes;
    hide Flat;
    SliceOfMiddle(e, Flat(xs, |xs|), d, 32 * i, 32 * i + 32);
  }

  lemma BuildData(p: Program, i: nat)
    requires WellFormed(p) && i < |p.parts|
    ensures DataOffset(p, i) + |p.parts[i].bytes| <= |Build(p)|
    ensures Build(p)[DataOffset(p, i)..DataOffset(p, i) + |p.parts[i].bytes|] == p.parts[i].bytes
  {
    hide LowFirst;
    hide FourLow;
    hide EncodeEhdr;
    hide PhdrBytes;
    TableLength(p);
    var e, t, xs := EncodeEhdr(EhdrOf(p)), Flat(PhdrBytes(p), |p.parts|), Datas(p);
    FlatAt(xs, i);
    SliceOfMiddle(e + t, Flat(xs, |xs|), [], |Flat(xs, i)|, |Flat(xs, i)| + |xs[i]|);
    assert e + t + Flat(xs, |xs|) + [] == Build(p);
  }

  function PartPhdrs(p: Program): (hs: seq<Phdr>)
    requires WellFormed(p)
    ensures |hs| == |p.parts|
  {
    seq(|p.parts|, i requires 0 <= i < |p.parts| =>
      PartFits(p, i);
      PhdrOf(p, i))
  }

  lemma PartPhdr(p: Program, i: nat)
    requires WellFormed(p) && i < |p.parts|
    ensures var h := PartPhdrs(p)[i];
            && h.ptype == PT_LOAD && h.offset == DataOffset(p, i) && h.vaddr == p.parts[i].vaddr
            && h.filesz == |p.parts[i].bytes| && h.memsz == p.parts[i].memsz && PartOk(p.parts[i])
            && h.offset + h.filesz <= DataOffset(p, |p.parts|) < WRAP
  {
    PartFits(p, i);
  }

  /** The loader accepts the file. */
  lemma BuildAccepted(p: Program)
    requires WellFormed(p)
    ensures var f := Build(p);
            && Accepted(f) && NoWraps(f) && |f| < WRAP && Headers(f) == PartPhdrs(p)
            && AllSound(f, PartPhdrs(p), |p.parts|) && Disjoint(PartPhdrs(p))
  {
    hide Build;
    hide Validate;
    hide Header;
    hide Readable;
    hide PhNum;
    hide PhOff;
    hide WellFormed;
    var f := Build(p);
    BuildRead(p);
    forall i: nat | i < |p.parts|
      ensures Header(f, i) == PartPhdrs(p)[i] && Readable(f, i) && PhdrFits(f, PartPhdrs(p)[i])
    {
      BuildHeader(p, i);
      PartPhdr(p, i);
    }
    hide PartPhdrs;
    assert Headers(f) == PartPhdrs(p);
    TableEnds(p);
    PhdrsDisjoint(p);
  }

  predicate PhdrFits(f: seq<Byte>, h: Phdr) { Plain(h) && Fits(f, h) && Sound(f, h) }

  lemma TableEnds(p: Program)
    requires WellFormed(p)
    ensures (52 + |p.parts| * PHDR) % WRAP <= DataOffset(p, |p.parts|) < WRAP
  {
  }

  lemma PhdrsDisjoint(p: Program)
    requires WellFormed(p)
    ensures Disjoint(PartPhdrs(p))
  {
    hide PartPhdrs;
    forall i | 0 <= i < |p.parts|
      ensures PartPhdrs(p)[i].vaddr == p.parts[i].vaddr && PartPhdrs(p)[i].memsz == p.parts[i].memsz
    {
      PartPhdr(p, i);
    }
    assert forall i, j :: 0 <= i < j < |p.parts| ==> Apart(p.parts[i], p.parts[j]);
  }

  // ---------------------------------------------------------------- programs in memory

  /** Some byte of the part lies on the page. */
  predicate Meets(a: Part, page: nat) {
    a.memsz > 0 && 4096 * page < a.vaddr + a.memsz && a.vaddr < 4096 * (page + 1)
  }

  /** The pages of the first n parts. */
  ghost function PagesMet(p: Program, n: nat): set<nat>
    requires n <= |p.parts|
  {
    set page | 0 <= page < 0xC_0000 && MetBy(p, n, page)
  }

  ghost predicate MetBy(p: Program, n: nat, page: nat)
    requires n <= |p.parts|
  {
    exists i :: 0 <= i < n && Meets(p.parts[i], page)
  }

  lemma PageMet(h: Phdr, a: Part, page: nat)
    requires h.ptype == PT_LOAD && h.vaddr == a.vaddr && h.memsz == a.memsz && PartOk(a)
    ensures page in PagesOf(h) <==> Meets(a, page)
    ensures Meets(a, page) ==> page < 0xC_0000
  {
  }

  lemma {:induction false} TouchedIs(p: Program, n: nat)
    requires WellFormed(p) && n <= |p.parts|
    ensures Touched(PartPhdrs(p), n) == PagesMet(p, n)
  {
    hide WellFormed;
    hide Meets;
    hide PagesOf;
    hide PartPhdrs;
    if n > 0 {
      TouchedIs(p, n - 1);
      PartPhdr(p, n - 1);
      PagesMetStep(p, n, PartPhdrs(p)[n - 1]);
    }
  }

  lemma PagesMetStep(p: Program, n: nat, h: Phdr)
    requires 0 < n <= |p.parts| && PartOk(p.parts[n - 1])
    requires h.ptype == PT_LOAD && h.vaddr == p.parts[n - 1].vaddr && h.memsz == p.parts[n - 1].memsz
    ensures PagesMet(p, n) == PagesMet(p, n - 1) + PagesOf(h)
  {
    hide Meets;
    hide PagesOf;
    forall page: nat
      ensures page in PagesMet(p, n) <==> page in PagesMet(p, n - 1) || page in PagesOf(h)
    {
      PageMet(h, p.parts[n - 1], page);
      assert MetBy(p, n, page) <==> MetBy(p, n - 1, page) || Meets(p.parts[n - 1], page);
    }
  }

  function At(img: Image, x: nat): Byte
    requires x / 4096 in img
  {
    img[x / 4096][x % 4096]
  }

  /** Memory holds the program: the pages that meet a part, the bytes of each part and zeros behind them, and zeros
      everywhere else on those pages. */
  ghost predicate InMemory(p: Program, img: Image) {
    && img.Keys == PagesMet(p, |p.parts|)
    && (forall i :: 0 <= i < |p.parts| ==> PartInMemory(p.parts[i], img))
    && (forall x: nat :: x / 4096 in img && NoPartAt(p, x) ==> At(img, x) == 0)
  }

  ghost predicate PartInMemory(a: Part, img: Image) {
    forall k :: 0 <= k < a.memsz ==> Holds(img, a.vaddr + k, PartByte(a, k))
  }

  function PartByte(a: Part, k: nat): Byte { if k < |a.bytes| then a.bytes[k] else 0 }

  /** The byte at address x. */
  predicate Holds(img: Image, x: nat, b: Byte) { x / 4096 in img && At(img, x) == b }

  predicate NoPartAt(p: Program, x: nat) {
    forall i :: 0 <= i < |p.parts| ==> !(p.parts[i].vaddr <= x < p.parts[i].vaddr + p.parts[i].memsz)
  }

  lemma CoversIs(p: Program, i: nat, x: nat)
    requires WellFormed(p) && i < |p.parts|
    ensures Covers(PartPhdrs(p)[i], x) <==> p.parts[i].vaddr <= x < p.parts[i].vaddr + |p.parts[i].bytes|
    ensures PartOk(p.parts[i])
  {
    PartPhdr(p, i);
    hide PartPhdrs;
    hide DataOffset;
  }

  lemma ByteLoaded(p: Program, img: Image, i: nat, k: nat)
    requires WellFormed(p) && i < |p.parts| && k < |p.parts[i].bytes|
    requires AllSound(Build(p), PartPhdrs(p), |p.parts|) && Loaded(Build(p), PartPhdrs(p), |p.parts|, map[], img)
    ensures Holds(img, p.parts[i].vaddr + k, p.parts[i].bytes[k])
  {
    hide Build;
    hide PartPhdrs;
    hide WellFormed;
    hide AllSound;
    hide Loaded;
    hide Disjoint;
    hide Covers;
    hide DataOffset;
    hide PhNum;
    var x := p.parts[i].vaddr + k;
    BuildAccepted(p);
    ProgramImage(Build(p), PartPhdrs(p), img, x);
    PartPhdr(p, i);
    CoversIs(p, i, x);
    BuildData(p, i);
    DataByte(Build(p), DataOffset(p, i), p.parts[i].bytes, k);
  }

  lemma TailLoaded(p: Program, img: Image, i: nat, k: nat)
    requires WellFormed(p) && i < |p.parts| && |p.parts[i].bytes| <= k < p.parts[i].memsz
    requires AllSound(Build(p), PartPhdrs(p), |p.parts|) && Loaded(Build(p), PartPhdrs(p), |p.parts|, map[], img)
    ensures Holds(img, p.parts[i].vaddr + k, 0)
  {
    hide Build;
    hide PartPhdrs;
    hide WellFormed;
    hide AllSound;
    hide Loaded;
    hide Disjoint;
    hide Covers;
    hide DataOffset;
    hide PhNum;
    var x, hs := p.parts[i].vaddr + k, PartPhdrs(p);
    BuildAccepted(p);
    ProgramImage(Build(p), hs, img, x);
    TouchedIs(p, |p.parts|);
    OnPage(p, i, x);
    forall j | 0 <= j < |hs|
      ensures !Covers(hs[j], x)
    {
      CoversIs(p, j, x);
      PartsApart(p, i, j, x);
    }
  }

  lemma DataByte(f: seq<Byte>, off: nat, d: seq<Byte>, k: nat)
    requires off + |d| <= |f| && f[off..off + |d|] == d && k < |d|
    ensures f[off + k] == d[k]
  {
  }

  lemma OnPage(p: Program, i: nat, x: nat)
    requires WellFormed(p) && i < |p.parts| && p.parts[i].vaddr <= x < p.parts[i].vaddr + p.parts[i].memsz
    ensures x / 4096 in PagesMet(p, |p.parts|)
  {
    assert PartOk(p.parts[i]);
    assert Meets(p.parts[i], x / 4096);
  }

  lemma PartsApart(p: Program, i: nat, j: nat, x: nat)
    requires WellFormed(p) && i < |p.parts| && j < |p.parts|
    requires p.parts[i].vaddr + |p.parts[i].bytes| <= x < p.parts[i].vaddr + p.parts[i].memsz
    ensures !(p.parts[j].vaddr <= x < p.parts[j].vaddr + |p.parts[j].bytes|)
  {
    assert PartOk(p.parts[i]) && PartOk(p.parts[j]);
    if i < j { assert Apart(p.parts[i], p.parts[j]); }
    if j < i { assert Apart(p.parts[j], p.parts[i]); }
  }

  lemma ZeroLoaded(p: Program, img: Image, x: nat)
    requires WellFormed(p) && x / 4096 in img && NoPartAt(p, x)
    requires AllSound(Build(p), PartPhdrs(p), |p.parts|) && Loaded(Build(p), PartPhdrs(p), |p.parts|, map[], img)
    ensures At(img, x) == 0
  {
    hide Build;
    hide PartPhdrs;
    hide WellFormed;
    hide AllSound;
    hide Loaded;
    hide Disjoint;
    hide Covers;
    hide PhNum;
    var hs := PartPhdrs(p);
    BuildAccepted(p);
    ProgramImage(Build(p), hs, img, x);
    forall j | 0 <= j < |hs|
      ensures !Covers(hs[j], x)
    {
      CoversIs(p, j, x);
    }
  }

  lemma PartLoaded(p: Program, img: Image, i: nat)
    requires WellFormed(p) && i < |p.parts|
    requires AllSound(Build(p), PartPhdrs(p), |p.parts|) && Loaded(Build(p), PartPhdrs(p), |p.parts|, map[], img)
    ensures PartInMemory(p.parts[i], img)
  {
    hide Build;
    hide PartPhdrs;
    hide WellFormed;
    hide AllSound;
    hide Loaded;
    hide Holds;
    var a := p.parts[i];
    forall k | 0 <= k < a.memsz
      ensures Holds(img, a.vaddr + k, PartByte(a, k))
    {
      if k < |a.bytes| { ByteLoaded(p, img, i, k); } else { TailLoaded(p, img, i, k); }
    }
  }

  lemma KeysLoaded(p: Program, img: Image)
    requires WellFormed(p)
    requires AllSound(Build(p), PartPhdrs(p), |p.parts|) && Loaded(Build(p), PartPhdrs(p), |p.parts|, map[], img)
    ensures img.Keys == PagesMet(p, |p.parts|)
  {
    hide Build;
    hide PartPhdrs;
    hide WellFormed;
    hide AllSound;
    hide Loaded;
    hide PagesMet;
    hide Disjoint;
    hide Covers;
    TouchedIs(p, |p.parts|);
    BuildAccepted(p);
    ProgramImage(Build(p), PartPhdrs(p), img, 0);
  }

  lemma ImageIs(p: Program, img: Image)
    requires WellFormed(p)
    requires AllSound(Build(p), PartPhdrs(p), |p.parts|) && Loaded(Build(p), PartPhdrs(p), |p.parts|, map[], img)
    ensures InMemory(p, img)
  {
    hide Build;
    hide PartPhdrs;
    hide WellFormed;
    hide AllSound;
    hide Loaded;
    hide PagesMet;
    hide NoPartAt;
    hide At;
    hide PartInMemory;
    KeysLoaded(p, img);
    forall i | 0 <= i < |p.parts|
      ensures PartInMemory(p.parts[i], img)
    {
      PartLoaded(p, img, i);
    }
    forall x: nat | x / 4096 in img && NoPartAt(p, x)
      ensures At(img, x) == 0
    {
      ZeroLoaded(p, img, x);
    }
  }

  /** Loading the file of any program into a fresh space: it succeeds exactly when a frame is granted for each page the
      program meets; the entry point is then the program's, and memory holds the program. */
  method LoadProgram(loader: Loader, p: Program, pd: Directory) returns (entry: Word, ghost ok: bool)
    requires WellFormed(p) && pd in loader.spaces && loader.cr3 in loader.spaces && loader.spaces[pd] == map[]
    modifies loader
    ensures ok <==> Enough(old(loader.frames), |PagesMet(p, |p.parts|)|)
    ensures entry == if ok then p.entry else 0
    ensures ok ==> pd in loader.spaces && InMemory(p, loader.spaces[pd])
  {
    hide Build;
    hide WellFormed;
    hide AllSound;
    hide Loaded;
    hide InMemory;
    hide Enough;
    hide PagesMet;
    hide SameElsewhere;
    BuildAccepted(p);
    BuildRead(p);
    TouchedIs(p, |p.parts|);
    hide PartPhdrs;
    hide Accepted;
    hide Headers;
    hide NoWraps;
    hide PhNum;
    entry, ok := loader.ElfLoad(Build(p), pd);
    MissingAll(PagesMet(p, |p.parts|));
    if ok { ImageIs(p, loader.spaces[pd]); }
  }

  lemma MissingAll(pages: set<nat>)
    ensures Missing(map[], pages) == |pages|
  {
    var none: Image := map[];
    assert none.Keys + pages == pages;
  }
}
