/**
 The bytes of PumpsFS (kernel/kernel/pfs.h, pfs.c): 512-byte sectors, bitmaps, packed inodes and directory
 entries, and the typed file system they encode.
 */
module PfsLayout {

  const PFS_MAGIC := 0x50465321
  const BLOCK_SIZE := 512
  const TOTAL_BLOCKS := 32768
  const TOTAL_INODES := 4096
  const DIRECT_BLOCKS := 12
  const MAX_FILE := 6144          // DIRECT_BLOCKS * BLOCK_SIZE

  const SUPERBLOCK_SEC := 0
  const INODE_BITMAP_SEC := 1
  const BLOCK_BITMAP_SEC := 2
  const INODE_TABLE_SEC := 10
  const DATA_START_SEC := 522
  const DISK_SECTORS := 522 + 32768

  const TYPE_FILE := 1
  const TYPE_DIR := 2

  type Byte = n: nat | n < 256
  type U32 = n: nat | n < 0x1_0000_0000
  type Sector = s: seq<Byte> | |s| == 512 witness seq(512, i => 0)
  type Disk = d: seq<Sector> | |d| == 522 + 32768 witness seq<Sector>(522 + 32768, i => ZeroSector())

  function ZeroSector(): Sector { seq(512, i => 0) }

  // ---------------------------------------------------------------- 32-bit words, little endian

  function ByteOf(v: U32, k: nat): Byte
    requires k < 4
  {
    if k == 0 then v % 256 else if k == 1 then v / 256 % 256 else if k == 2 then v / 65536 % 256 else v / 16777216
  }

  function Compose(a: int, b: int, c: int, d: int): int {
    a + 256 * b + 65536 * c + 16777216 * d
  }

  function Word(s: Sector, at: nat): U32
    requires at + 4 <= 512
  {
    Compose(s[at], s[at + 1], s[at + 2], s[at + 3])
  }

  lemma WordOfBytes(v: U32)
    ensures Compose(ByteOf(v, 0), ByteOf(v, 1), ByteOf(v, 2), ByteOf(v, 3)) == v
  {
    var a, b := v / 256, v / 65536;
    assert v == a * 256 + v % 256 && a == b * 256 + a % 256 && b == v / 16777216 * 256 + b % 256;
  }

  // ---------------------------------------------------------------- bits of a bitmap

  /** 1 << k */
  function Pow2(k: nat): (p: nat)
    ensures p > 0
  {
    if k == 0 then 1 else 2 * Pow2(k - 1)
  }

  /** (b >> k) & 1 */
  predicate BitOf(b: nat, k: nat) {
    if k == 0 then b % 2 == 1 else BitOf(b / 2, k - 1)
  }

  /** b |= 1 << k */
  function WithBit(b: Byte, k: nat): Byte
    requires k < 8
  {
    Pow2Of8();
    if BitOf(b, k) then b else AddBitFits(b, k, 8); b + Pow2(k)
  }

  /** Setting bit k changes bit k alone. */
  lemma WithBitBits(b: Byte, k: nat, j: nat)
    requires k < 8
    ensures BitOf(WithBit(b, k), j) <==> j == k || BitOf(b, j)
  {
    if !BitOf(b, k) { AddBit(b, k, j); }
  }

  lemma {:induction false} AddBit(b: nat, k: nat, j: nat)
    requires !BitOf(b, k)
    ensures BitOf(b + Pow2(k), j) <==> j == k || BitOf(b, j)
  {
    if k == 0 {
      assert (b + 1) / 2 == b / 2;
    } else if j > 0 {
      assert (b + 2 * Pow2(k - 1)) / 2 == b / 2 + Pow2(k - 1);
      AddBit(b / 2, k - 1, j - 1);
    }
  }

  lemma {:induction false} AddBitFits(b: nat, k: nat, n: nat)
    requires k < n && b < Pow2(n) && !BitOf(b, k)
    ensures b + Pow2(k) < Pow2(n)
  {
    if k > 0 {
      AddBitFits(b / 2, k - 1, n - 1);
    } else {
      assert Pow2(n) % 2 == 0;
    }
  }

  lemma Pow2Of8()
    ensures Pow2(8) == 256
  {
    assert Pow2(8) == 2 * Pow2(7) == 4 * Pow2(6) == 8 * Pow2(5) == 16 * Pow2(4);
  }

  /** Bit i of a bitmap sector. */
  predicate SectorBit(s: Sector, i: nat)
    requires i < 4096
  {
    BitOf(s[i / 8], i % 8)
  }

  function SetSectorBit(s: Sector, i: nat): (t: Sector)
    requires i < 4096
  {
    s[i / 8 := WithBit(s[i / 8], i % 8)]
  }

  lemma SetSectorBitBits(s: Sector, i: nat, j: nat)
    requires i < 4096 && j < 4096
    ensures SectorBit(SetSectorBit(s, i), j) <==> j == i || SectorBit(s, j)
  {
    if i / 8 == j / 8 { WithBitBits(s[i / 8], i % 8, j % 8); }
  }

  // ---------------------------------------------------------------- inodes

  type Slots = b: seq<U32> | |b| == 12 witness seq(12, i => 0)

  datatype Inode = Inode(kind: U32, size: U32, blocks: Slots, reserved0: U32, reserved1: U32)

  function EmptyFile(): Inode { Inode(TYPE_FILE, 0, seq(12, i => 0), 0, 0) }

  /** The sixteen words of an inode record. */
  function InodeWords(n: Inode): (w: seq<U32>)
    ensures |w| == 16
  {
    [n.kind, n.size] + n.blocks + [n.reserved0, n.reserved1]
  }

  /** Record k of an inode-table sector. */
  function DecodeInode(s: Sector, k: nat): Inode
    requires k < 8
  {
    Inode(Word(s, 64 * k), Word(s, 64 * k + 4), seq(12, j requires 0 <= j < 12 => Word(s, 64 * k + 8 + 4 * j)),
          Word(s, 64 * k + 56), Word(s, 64 * k + 60))
  }

  /** memcpy of an inode over record k. */
  function EncodeInode(s: Sector, k: nat, n: Inode): Sector
    requires k < 8
  {
    seq(512, i requires 0 <= i < 512 => EncodedByte(s, k, n, i))
  }

  function EncodedByte(s: Sector, k: nat, n: Inode, i: nat): Byte
    requires k < 8 && i < 512
  {
    if 64 * k <= i < 64 * k + 64 then ByteOf(InodeWords(n)[(i - 64 * k) / 4], (i - 64 * k) % 4) else s[i]
  }

  lemma EncodedWord(s: Sector, k: nat, n: Inode, j: nat)
    requires k < 8 && j < 16
    ensures Word(EncodeInode(s, k, n), 64 * k + 4 * j) == InodeWords(n)[j]
  {
    WordOfBytes(InodeWords(n)[j]);
    forall i | 0 <= i < 4
      ensures EncodedByte(s, k, n, 64 * k + 4 * j + i) == ByteOf(InodeWords(n)[j], i)
    {
      Position(j, i);
    }
    hide EncodedByte;
    hide InodeWords;
    hide ByteOf;
  }

  lemma Position(j: nat, i: nat)
    requires i < 4
    ensures (4 * j + i) / 4 == j && (4 * j + i) % 4 == i
  {
  }

  /** Record k reads back as written, every other record as it was. */
  lemma InodeRoundTrip(s: Sector, k: nat, n: Inode, m: nat)
    requires k < 8 && m < 8
    ensures DecodeInode(EncodeInode(s, k, n), m) == if m == k then n else DecodeInode(s, m)
  {
    if m == k { SameRecord(s, k, n); } else { OtherRecord(s, k, n, m); }
  }

  /** Where the fields of an inode stand among its words. */
  lemma InodeFields(n: Inode)
    ensures InodeWords(n)[0] == n.kind && InodeWords(n)[1] == n.size
    ensures forall j :: 0 <= j < 12 ==> InodeWords(n)[j + 2] == n.blocks[j]
    ensures InodeWords(n)[14] == n.reserved0 && InodeWords(n)[15] == n.reserved1
  {
  }

  lemma SameRecord(s: Sector, k: nat, n: Inode)
    requires k < 8
    ensures DecodeInode(EncodeInode(s, k, n), k) == n
  {
    hide EncodeInode;
    hide Word;
    var t := EncodeInode(s, k, n);
    InodeFields(n);
    hide InodeWords;
    EncodedWord(s, k, n, 0);
    EncodedWord(s, k, n, 1);
    EncodedWord(s, k, n, 14);
    EncodedWord(s, k, n, 15);
    forall j | 0 <= j < 12
      ensures DecodeInode(t, k).blocks[j] == n.blocks[j]
    {
      EncodedWord(s, k, n, j + 2);
    }
    assert DecodeInode(t, k).blocks == n.blocks;
  }

  lemma OtherRecord(s: Sector, k: nat, n: Inode, m: nat)
    requires k < 8 && m < 8 && m != k
    ensures DecodeInode(EncodeInode(s, k, n), m) == DecodeInode(s, m)
  {
    hide DecodeInode;
    hide ByteOf;
    var t := EncodeInode(s, k, n);
    assert s[64 * m..64 * m + 64] == t[64 * m..64 * m + 64];
    assert 64 * m / 64 == m;
    SameBytes(s, t, 64 * m);
  }

  /** An inode record depends on its own 64 bytes alone. */
  lemma SameBytes(s: Sector, t: Sector, at: nat)
    requires at + 64 <= 512 && at % 64 == 0 && s[at..at + 64] == t[at..at + 64]
    ensures DecodeInode(t, at / 64) == DecodeInode(s, at / 64)
  {
    forall i | at <= i < at + 64
      ensures s[i] == t[i]
    {
      assert s[i] == s[at..at + 64][i - at] && t[i] == t[at..at + 64][i - at];
    }
    assert DecodeInode(t, at / 64).blocks == DecodeInode(s, at / 64).blocks;
  }

  // ---------------------------------------------------------------- the format on the disk

  /** The bytes at `at` are the 32-bit number v, lowest byte first. */
  predicate LittleEndian(s: Sector, at: nat, v: U32)
    requires at + 4 <= 512
  {
    s[at] == v % 256 && s[at + 1] == v / 0x100 % 256 && s[at + 2] == v / 0x1_0000 % 256 && s[at + 3] == v / 0x100_0000
  }

  /** The 64 bytes of an inode: type at 0, size at 4, the twelve blocks from 8 on. */
  lemma InodeFormat(s: Sector, k: nat, n: Inode)
    requires k < 8
    ensures var t := EncodeInode(s, k, n);
            && LittleEndian(t, 64 * k, n.kind) && LittleEndian(t, 64 * k + 4, n.size)
            && forall j :: 0 <= j < 12 ==> LittleEndian(t, 64 * k + 8 + 4 * j, n.blocks[j])
  {
    InodeFields(n);
    hide InodeWords;
    WordFormat(s, k, n, 0);
    WordFormat(s, k, n, 1);
    hide EncodeInode;
    forall j | 0 <= j < 12
      ensures LittleEndian(EncodeInode(s, k, n), 64 * k + 8 + 4 * j, n.blocks[j])
    {
      WordFormat(s, k, n, j + 2);
    }
  }

  lemma WordFormat(s: Sector, k: nat, n: Inode, j: nat)
    requires k < 8 && j < 16
    ensures LittleEndian(EncodeInode(s, k, n), 64 * k + 4 * j, InodeWords(n)[j])
  {
    forall i | 0 <= i < 4
      ensures EncodedByte(s, k, n, 64 * k + 4 * j + i) == ByteOf(InodeWords(n)[j], i)
    {
      Position(j, i);
    }
    hide EncodedByte;
    hide InodeWords;
    var t, w := EncodeInode(s, k, n), InodeWords(n)[j];
    assert t[64 * k + 4 * j] == ByteOf(w, 0) && t[64 * k + 4 * j + 1] == ByteOf(w, 1);
    assert t[64 * k + 4 * j + 2] == ByteOf(w, 2) && t[64 * k + 4 * j + 3] == ByteOf(w, 3);
    hide EncodeInode;
  }

  /** The 32 bytes of a directory entry: the inode number, then the characters of the name and zeros. */
  lemma EntryFormat(s: Sector, e: nat, inode: U32, name: seq<Byte>)
    requires e < 16
    ensures var t := EncodeEntry(s, e, inode, name);
            && LittleEndian(t, 32 * e, inode)
            && forall i :: 0 <= i < 28 ==> t[32 * e + 4 + i] == if i < |name| && i < 27 then name[i] else 0
  {
    EncodedEntry(s, e, inode, name);
    var t := EncodeEntry(s, e, inode, name);
    hide EncodeEntry;
    forall i | 0 <= i < 28
      ensures t[32 * e + 4 + i] == if i < |name| && i < 27 then name[i] else 0
    {
      assert NameBuffer(name)[i] == if i < |name| && i < 27 then name[i] else 0;
    }
  }

  /** Bit i of a bitmap is bit i mod 8, counted from the lowest, of byte i / 8. */
  lemma BitmapFormat(s: Sector, i: nat)
    requires i < 4096 && !SectorBit(s, i)
    ensures SetSectorBit(s, i)[i / 8] - s[i / 8] == [1, 2, 4, 8, 16, 32, 64, 128][i % 8]
  {
    var k := i % 8;
    PowersOf2();
    assert Pow2(k) == [1, 2, 4, 8, 16, 32, 64, 128][k];
  }

  lemma PowersOf2()
    ensures Pow2(0) == 1 && Pow2(1) == 2 && Pow2(2) == 4 && Pow2(3) == 8
    ensures Pow2(4) == 16 && Pow2(5) == 32 && Pow2(6) == 64 && Pow2(7) == 128
  {
    assert Pow2(4) == 2 * Pow2(3) && Pow2(3) == 2 * Pow2(2);
    assert Pow2(6) == 2 * Pow2(5) && Pow2(5) == 2 * Pow2(4);
  }

  // ---------------------------------------------------------------- directory entries

  /** The characters of a C string held in a buffer. */
  function CString(b: seq<Byte>): seq<Byte> {
    if b == [] || b[0] == 0 then [] else [b[0]] + CString(b[1..])
  }

  predicate IsName(name: seq<Byte>) { forall i :: 0 <= i < |name| ==> name[i] != 0 }

  /** strncpy(e.name, name, 28); e.name[27] = 0 keeps at most 27 characters. */
  function Truncated(name: seq<Byte>): seq<Byte> {
    if |name| <= 27 then name else name[..27]
  }

  function NameBuffer(name: seq<Byte>): (b: seq<Byte>)
    ensures |b| == 28
  {
    Truncated(name) + seq<Byte>(28 - |Truncated(name)|, i => 0)
  }

  function EntryInode(s: Sector, e: nat): U32
    requires e < 16
  {
    Word(s, 32 * e)
  }

  function EntryBytes(s: Sector, e: nat): (b: seq<Byte>)
    requires e < 16
    ensures |b| == 28
  {
    s[32 * e + 4..32 * e + 32]
  }

  function EntryName(s: Sector, e: nat): seq<Byte>
    requires e < 16
  {
    CString(EntryBytes(s, e))
  }

  function EncodeEntry(s: Sector, e: nat, inode: U32, name: seq<Byte>): Sector
    requires e < 16
  {
    s[..32 * e] + [ByteOf(inode, 0), ByteOf(inode, 1), ByteOf(inode, 2), ByteOf(inode, 3)] + NameBuffer(name)
    + s[32 * e + 32..]
  }

  lemma {:induction false} CStringOfPadded(name: seq<Byte>, zeros: seq<Byte>)
    requires IsName(name) && (forall i :: 0 <= i < |zeros| ==> zeros[i] == 0)
    ensures CString(name + zeros) == name
  {
    if name != [] {
      assert (name + zeros)[1..] == name[1..] + zeros;
      CStringOfPadded(name[1..], zeros);
    }
  }

  /** The entry reads back with its name cut to 27 characters; the other entries are as they were. */
  lemma EntryRoundTrip(s: Sector, e: nat, inode: U32, name: seq<Byte>, d: nat)
    requires e < 16 && d < 16 && IsName(name)
    ensures EntryInode(EncodeEntry(s, e, inode, name), d) == if d == e then inode else EntryInode(s, d)
    ensures EntryBytes(EncodeEntry(s, e, inode, name), d) == if d == e then NameBuffer(name) else EntryBytes(s, d)
    ensures EntryName(EncodeEntry(s, e, inode, name), d) == if d == e then Truncated(name) else EntryName(s, d)
  {
    hide EncodeEntry;
    hide CString;
    hide ByteOf;
    hide Truncated;
    var t := EncodeEntry(s, e, inode, name);
    if d == e {
      WordOfBytes(inode);
      EncodedEntry(s, e, inode, name);
      hide Compose;
      PaddedName(name);
      hide NameBuffer;
      assert EntryBytes(t, e) == NameBuffer(name);
    } else {
      hide NameBuffer;
      forall i | 32 * d <= i < 32 * d + 32
        ensures t[i] == s[i]
      {
        OutsideEntry(s, e, inode, name, i);
      }
      assert EntryBytes(t, d) == EntryBytes(s, d);
    }
  }

  lemma PaddedName(name: seq<Byte>)
    requires IsName(name)
    ensures CString(NameBuffer(name)) == Truncated(name)
  {
    CStringOfPadded(Truncated(name), seq<Byte>(28 - |Truncated(name)|, i => 0));
  }

  /** The 32 bytes of a written entry. */
  lemma EncodedEntry(s: Sector, e: nat, inode: U32, name: seq<Byte>)
    requires e < 16
    ensures var t := EncodeEntry(s, e, inode, name);
            && t[32 * e] == ByteOf(inode, 0) && t[32 * e + 1] == ByteOf(inode, 1)
            && t[32 * e + 2] == ByteOf(inode, 2) && t[32 * e + 3] == ByteOf(inode, 3)
            && t[32 * e + 4..32 * e + 32] == NameBuffer(name)
  {
    hide ByteOf;
    hide NameBuffer;
  }

  lemma OutsideEntry(s: Sector, e: nat, inode: U32, name: seq<Byte>, i: nat)
    requires e < 16 && i < 512 && !(32 * e <= i < 32 * e + 32)
    ensures EncodeEntry(s, e, inode, name)[i] == s[i]
  {
    hide ByteOf;
    hide NameBuffer;
  }

  // ---------------------------------------------------------------- the typed file system

  datatype Fs0 = Fs(ibits: seq<bool>, bbits: seq<bool>, inodes: seq<Inode>, data: seq<Sector>)

  type Fs = f: Fs0 | |f.ibits| == 4096 && |f.bbits| == 32768 && |f.inodes| == 4096 && |f.data| == 32768
    witness Fs(seq(4096, i => false), seq(32768, i => false), seq<Inode>(4096, i => EmptyFile()),
               seq<Sector>(32768, i => ZeroSector()))

  /** Where each record lives: the five regions of the disk do not meet. */
  function InodeSector(n: nat): (sec: nat)
    requires n < TOTAL_INODES
    ensures INODE_TABLE_SEC <= sec < DATA_START_SEC
  {
    INODE_TABLE_SEC + n / 8
  }

  function BlockBitmapSector(b: nat): (sec: nat)
    requires b < TOTAL_BLOCKS
    ensures BLOCK_BITMAP_SEC <= sec < INODE_TABLE_SEC
  {
    BLOCK_BITMAP_SEC + b / 4096
  }

  function DataSector(b: nat): (sec: nat)
    requires b < TOTAL_BLOCKS
    ensures DATA_START_SEC <= sec < DISK_SECTORS
  {
    DATA_START_SEC + b
  }

  /** The disk holds the typed file system fs, sector by sector. */
  ghost predicate Holds(d: Disk, fs: Fs) {
    && (forall n :: 0 <= n < 4096 ==> fs.ibits[n] == SectorBit(d[INODE_BITMAP_SEC], n))
    && (forall b :: 0 <= b < 32768 ==> fs.bbits[b] == SectorBit(d[BlockBitmapSector(b)], b % 4096))
    && (forall n :: 0 <= n < 4096 ==> fs.inodes[n] == DecodeInode(d[InodeSector(n)], n % 8))
    && (forall b :: 0 <= b < 32768 ==> fs.data[b] == d[DataSector(b)])
  }

  lemma HoldsInode(d: Disk, fs: Fs, n: nat, node: Inode)
    requires Holds(d, fs) && n < 4096
    ensures Holds(d[InodeSector(n) := EncodeInode(d[InodeSector(n)], n % 8, node)], fs.(inodes := fs.inodes[n := node]))
  {
    hide EncodeInode;
    hide DecodeInode;
    hide SectorBit;
    var sec := InodeSector(n);
    var d' := d[sec := EncodeInode(d[sec], n % 8, node)];
    forall m | 0 <= m < 4096
      ensures fs.inodes[n := node][m] == DecodeInode(d'[InodeSector(m)], m % 8)
    {
      if m / 8 == n / 8 { InodeRoundTrip(d[sec], n % 8, node, m % 8); }
    }
  }

  lemma HoldsInodeBit(d: Disk, fs: Fs, n: nat)
    requires Holds(d, fs) && n < 4096
    ensures Holds(d[INODE_BITMAP_SEC := SetSectorBit(d[INODE_BITMAP_SEC], n)], fs.(ibits := fs.ibits[n := true]))
  {
    forall m | 0 <= m < 4096
      ensures fs.ibits[n := true][m] == SectorBit(SetSectorBit(d[INODE_BITMAP_SEC], n), m)
    {
      SetSectorBitBits(d[INODE_BITMAP_SEC], n, m);
    }
  }

  lemma HoldsBlockBit(d: Disk, fs: Fs, b: nat)
    requires Holds(d, fs) && b < 32768
    ensures Holds(d[BlockBitmapSector(b) := SetSectorBit(d[BlockBitmapSector(b)], b % 4096)],
                  fs.(bbits := fs.bbits[b := true]))
  {
    var sec := BlockBitmapSector(b);
    var d' := d[sec := SetSectorBit(d[sec], b % 4096)];
    forall c | 0 <= c < 32768
      ensures fs.bbits[b := true][c] == SectorBit(d'[BlockBitmapSector(c)], c % 4096)
    {
      if c / 4096 == b / 4096 { SetSectorBitBits(d[sec], b % 4096, c % 4096); }
    }
  }

  lemma HoldsData(d: Disk, fs: Fs, b: nat, s: Sector)
    requires Holds(d, fs) && b < 32768
    ensures Holds(d[DataSector(b) := s], fs.(data := fs.data[b := s]))
  {
  }

  // ---------------------------------------------------------------- reading a disk back, and a fresh one

  /** What any disk holds. */
  function Decoded(d: Disk): (fs: Fs) {
    Fs(seq(4096, n requires 0 <= n < 4096 => SectorBit(d[INODE_BITMAP_SEC], n)),
       seq(32768, b requires 0 <= b < 32768 => SectorBit(d[BlockBitmapSector(b)], b % 4096)),
       seq<Inode>(4096, n requires 0 <= n < 4096 => DecodeInode(d[InodeSector(n)], n % 8)),
       seq<Sector>(32768, b requires 0 <= b < 32768 => d[DataSector(b)]))
  }

  lemma DecodedHolds(d: Disk)
    ensures Holds(d, Decoded(d))
  {
    hide SectorBit;
    hide DecodeInode;
  }

  function PutWord(s: Sector, at: nat, v: U32): Sector
    requires at + 4 <= 512
  {
    s[at := ByteOf(v, 0)][at + 1 := ByteOf(v, 1)][at + 2 := ByteOf(v, 2)][at + 3 := ByteOf(v, 3)]
  }

  lemma PutWordAt(s: Sector, at: nat, v: U32, b: nat)
    requires at + 4 <= 512 && b + 4 <= 512 && (at == b || at + 4 <= b || b + 4 <= at)
    ensures Word(PutWord(s, at, v), b) == if b == at then v else Word(s, b)
  {
    WordOfBytes(v);
  }

  lemma {:induction false} ZeroBits(k: nat)
    ensures !BitOf(0, k)
  {
    if k > 0 { ZeroBits(k - 1); }
  }

  /** A zeroed bitmap whose first byte is v holds the bits of v alone. */
  lemma FirstByteBits(v: Byte, i: nat)
    requires i < 4096
    ensures SectorBit(ZeroSector()[0 := v], i) <==> i < 8 && BitOf(v, i)
  {
    hide BitOf;
    ZeroBits(i % 8);
    if i < 8 {
      assert i / 8 == 0 && i % 8 == i;
    } else {
      assert i / 8 > 0;
    }
  }
}
