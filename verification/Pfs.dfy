/**
 PumpsFS (kernel/kernel/pfs.c, pfs_vfs.c) over an array of 512-byte sectors.  The disk is reliable:
 ata_read_sector and ata_write_sector succeed.
 */
module Pfs {
  import opened PfsLayout
  import opened PfsSpec
  import opened PfsWrite
  import opened PfsGap
  import opened Wrappers

  datatype Superblock = Superblock(magic: U32, totalBlocks: U32, totalInodes: U32, inodeBitmapSec: U32,
                                   blockBitmapSec: U32, inodeTableSec: U32, dataStartSec: U32, rootInode: U32)

  const GEOMETRY := Superblock(PFS_MAGIC, TOTAL_BLOCKS, TOTAL_INODES, INODE_BITMAP_SEC, BLOCK_BITMAP_SEC,
                               INODE_TABLE_SEC, DATA_START_SEC, 1)

  function SuperblockAt(s: Sector): Superblock {
    Superblock(Word(s, 0), Word(s, 4), Word(s, 8), Word(s, 12), Word(s, 16), Word(s, 20), Word(s, 24), Word(s, 28))
  }

  class PumpsFs {
    var disk: Disk
    var sb: Superblock
    ghost var fs: Fs

    /** The disk carries fs and the superblock in memory is the one mkfs wrote. */
    ghost predicate Mounted()
      reads this
    {
      Holds(disk, fs) && sb == GEOMETRY && SuperblockAt(disk[SUPERBLOCK_SEC]) == GEOMETRY
    }

    method ReadInode(n: U32) returns (ok: bool, node: Inode)
      requires Mounted()
      ensures ok <==> n < TOTAL_INODES
      ensures ok ==> node == fs.inodes[n]
    {
      hide DecodeInode;
      hide SectorBit;
      node := EmptyFile();
      if n >= TOTAL_INODES { return false, node; }
      assert sb.inodeTableSec + n / 8 == InodeSector(n);
      var sector := disk[sb.inodeTableSec + n / 8];
      return true, DecodeInode(sector, n % 8);
    }

    method WriteInode(n: U32, node: Inode) returns (ok: bool)
      requires Mounted()
      modifies this`disk, this`fs
      ensures Mounted() && (ok <==> n < TOTAL_INODES)
      ensures fs == if ok then old(fs).(inodes := old(fs).inodes[n := node]) else old(fs)
    {
      hide Holds;
      if n >= TOTAL_INODES { return false; }
      HoldsInode(disk, fs, n, node);
      var sec := sb.inodeTableSec + n / 8;
      assert sec == InodeSector(n);
      disk := disk[sec := EncodeInode(disk[sec], n % 8, node)];
      fs := fs.(inodes := fs.inodes[n := node]);
      return true;
    }

    method AllocInode() returns (i: int)
      requires Mounted()
      modifies this`disk, this`fs
      ensures Mounted() && -1 <= i < TOTAL_INODES
      ensures i == -1 ==> fs == old(fs) && forall n :: 0 <= n < TOTAL_INODES ==> fs.ibits[n]
      ensures i >= 0 ==> !old(fs).ibits[i] && forall n :: 0 <= n < i ==> old(fs).ibits[n]
      ensures i >= 0 ==> fs == old(fs).(ibits := old(fs).ibits[i := true])
    {
      hide SectorBit;
      hide DecodeInode;
      hide SuperblockAt;
      var bitmap := disk[sb.inodeBitmapSec];
      for k := 0 to TOTAL_INODES
        invariant forall n :: 0 <= n < k ==> fs.ibits[n]
      {
        if !SectorBit(bitmap, k) {
          HoldsInodeBit(disk, fs, k);
          disk := disk[sb.inodeBitmapSec := SetSectorBit(bitmap, k)];
          fs := fs.(ibits := fs.ibits[k := true]);
          return k;
        }
      }
      return -1;
    }

    method AllocBlock() returns (blk: int)
      requires Mounted()
      modifies this`disk, this`fs
      ensures Mounted() && -1 <= blk < TOTAL_BLOCKS
      ensures blk == -1 ==> fs == old(fs) && forall b :: 0 <= b < TOTAL_BLOCKS ==> fs.bbits[b]
      ensures blk >= 0 ==> !old(fs).bbits[blk] && forall b :: 0 <= b < blk ==> old(fs).bbits[b]
      ensures blk >= 0 ==> fs == old(fs).(bbits := old(fs).bbits[blk := true])
    {
      hide SectorBit;
      hide DecodeInode;
      hide SuperblockAt;
      for s := 0 to 8
        invariant forall b :: 0 <= b < 4096 * s ==> fs.bbits[b]
      {
        var bitmap := disk[sb.blockBitmapSec + s];
        for i := 0 to 4096
          invariant forall b :: 0 <= b < 4096 * s + i ==> fs.bbits[b]
        {
          var global := s * 512 * 8 + i;
          assert global % 4096 == i && BlockBitmapSector(global) == sb.blockBitmapSec + s;
          if !SectorBit(bitmap, i) {
            HoldsBlockBit(disk, fs, global);
            disk := disk[sb.blockBitmapSec + s := SetSectorBit(bitmap, i)];
            fs := fs.(bbits := fs.bbits[global := true]);
            return global;
          }
        }
      }
      return -1;
    }

    /** ata_read_sector and ata_write_sector of data block b. */
    method ReadBlock(b: U32) returns (sector: Sector)
      requires Mounted() && b < TOTAL_BLOCKS
      ensures sector == fs.data[b]
    {
      hide DecodeInode;
      hide SectorBit;
      assert sb.dataStartSec + b == DataSector(b);
      sector := disk[sb.dataStartSec + b];
    }

    method WriteBlock(b: U32, sector: Sector)
      requires Mounted() && b < TOTAL_BLOCKS
      modifies this`disk, this`fs
      ensures Mounted() && fs == old(fs).(data := old(fs).data[b := sector])
    {
      hide Holds;
      HoldsData(disk, fs, b, sector);
      disk := disk[sb.dataStartSec + b := sector];
      fs := fs.(data := fs.data[b := sector]);
    }

    /** pfs_dir_add into the root directory: false when it has no free entry. */
    method DirAdd(dirInode: U32, name: seq<Byte>, inode: U32) returns (ok: bool)
      requires Mounted() && RootOk(fs) && dirInode == 1
      modifies this`disk, this`fs
      ensures Mounted() && (ok <==> FreeEntry(old(fs).data[0], 0) < 16)
      ensures fs == if ok then WithEntry(old(fs), inode, name) else old(fs)
    {
      hide Holds;
      hide EntryInode;
      hide EncodeEntry;
      var found, dir := ReadInode(dirInode);
      if !found || dir.kind != TYPE_DIR {
        assert false;
      }
      var sector := ReadBlock(dir.blocks[0]);
      for i := 0 to 16
        invariant forall e :: 0 <= e < i ==> Used(sector, e)
      {
        if EntryInode(sector, i) == 0 {
          assert !Used(sector, i);
          assert FreeEntry(sector, 0) == i;
          WriteBlock(dir.blocks[0], EncodeEntry(sector, i, inode, name));
          return true;
        }
      }
      assert FreeEntry(sector, 0) == 16;
      return false;
    }

    /** pfs_create: a new empty file, or -1 for want of an inode or of a directory entry.  In the second case
        the inode stays allocated, but no name leads to it. */
    method Create(name: seq<Byte>) returns (ino: int)
      requires Mounted() && FsOk(fs) && IsName(name)
      modifies this`disk, this`fs
      ensures Mounted() && FsOk(fs) && (old(Dense(fs)) ==> Dense(fs))
      ensures -1 <= ino < TOTAL_INODES
      ensures ino == -1 <==>
        (forall n :: 0 <= n < TOTAL_INODES ==> old(fs).ibits[n]) || FreeEntry(old(fs).data[0], 0) == 16
      ensures ino >= 0 ==> !old(fs).ibits[ino] && IsFile(fs, ino) && fs.inodes[ino] == EmptyFile()
      ensures fs.bbits == old(fs).bbits
      ensures FileMap(fs) == if ino >= 0 && LookupName(old(fs).data[0], Truncated(name)) < 0
                             then old(FileMap(fs))[Truncated(name) := []] else old(FileMap(fs))
      ensures LookupName(fs.data[0], name) == if ino >= 0 && |name| <= 27 && LookupName(old(fs).data[0], name) < 0
                                              then ino else LookupName(old(fs).data[0], name)
    {
      hide Holds;
      hide FsOk;
      hide FileMap;
      hide LookupName;
      hide Dense;
      hide FreeEntry;
      hide Truncated;
      RootFacts(fs);
      ino := AllocInode();
      if ino < 1 { return -1; }
      var ok := WriteInode(ino, EmptyFile());
      NewInode(old(fs), ino);
      if old(Dense(fs)) { NewInodeDense(old(fs), ino); }
      assert fs == WithInode(old(fs), ino);
      Unnamed(old(fs), ino);
      RootFacts(fs);
      ghost var mid := fs;
      ok := DirAdd(sb.rootInode, name, ino);
      if !ok { return -1; }
      CreateEntry(old(fs), mid, ino, name);
    }

    /** pfs_lookup. */
    method Lookup(name: seq<Byte>) returns (ino: int)
      requires Mounted() && RootOk(fs)
      ensures ino == LookupName(fs.data[0], name)
    {
      hide Holds;
      hide EntryInode;
      hide EntryName;
      var found, root := ReadInode(sb.rootInode);
      var sector := ReadBlock(root.blocks[0]);
      for i := 0 to 16
        invariant forall e :: 0 <= e < i ==> !(Used(sector, e) && EntryName(sector, e) == name)
      {
        if EntryInode(sector, i) != 0 && EntryName(sector, i) == name {
          assert FindEntry(sector, name, 0) == i;
          return EntryInode(sector, i);
        }
      }
      assert FindEntry(sector, name, 0) == 16;
      return -1;
    }

    /** pfs_vfs_create: refuses a name that exists. */
    method VfsCreate(name: seq<Byte>) returns (ino: int)
      requires Mounted() && FsOk(fs) && IsName(name)
      modifies this`disk, this`fs
      ensures Mounted() && FsOk(fs) && (old(Dense(fs)) ==> Dense(fs))
      ensures LookupName(old(fs).data[0], name) >= 0 ==> ino == -1 && fs == old(fs)
      ensures ino < 0 ==> FileMap(fs) == old(FileMap(fs))
      ensures ino >= 0 && |name| <= 27 ==>
        name !in old(FileMap(fs)) && FileMap(fs) == old(FileMap(fs))[name := []] && LookupName(fs.data[0], name) == ino
      // a name of more than 27 characters is created, but never found again
      ensures ino >= 0 && |name| > 27 ==> LookupName(fs.data[0], name) == -1
    {
      hide Holds;
      hide FsOk;
      hide Dense;
      hide FileMap;
      hide LookupName;
      RootFacts(fs);
      NotFound(fs, name);
      var known := Lookup(name);
      if known >= 0 { return -1; }
      ino := Create(name);
    }

    /** pfs_vfs_readdir: the index-th used entry, None past the end. */
    method Readdir(index: U32) returns (entry: Option<(seq<Byte>, U32)>)
      requires Mounted() && RootOk(fs)
      ensures var used := UsedEntries(fs.data[0], 16);
              entry ==
              if index < |used| then
                Some((Truncated(EntryName(fs.data[0], used[index])), EntryInode(fs.data[0], used[index])))
              else
                None
    {
      hide Holds;
      hide EntryInode;
      hide EntryName;
      hide Truncated;
      var found, root := ReadInode(sb.rootInode);
      var sector := ReadBlock(root.blocks[0]);
      var count := 0;
      for i := 0 to 16
        invariant count <= index && count == |UsedEntries(sector, i)|
      {
        if EntryInode(sector, i) != 0 {
          UsedPrefix(sector, i + 1, 16);
          if count == index { return Some((Truncated(EntryName(sector, i)), EntryInode(sector, i))); }
          count := count + 1;
        }
      }
      return None;
    }

    /** The caller holds a number that names no stale record: file-typed inodes it passes are allocated. */
    ghost predicate FileArgument(ino: U32)
      reads this
    {
      ino < TOTAL_INODES && fs.inodes[ino].kind == TYPE_FILE ==> fs.ibits[ino]
    }

    /** pfs_read_file: -1 unless ino is a file, else as much of its content as fits in max bytes. */
    method ReadFile(ino: U32, max: U32) returns (n: int, out: seq<Byte>)
      requires Mounted() && FsOk(fs) && FileArgument(ino)
      ensures !IsFile(fs, ino) ==> n == -1
      ensures IsFile(fs, ino) ==> n == |out| && Backed(fs, fs.inodes[ino])
      ensures IsFile(fs, ino) ==>
        var c := Content(fs, fs.inodes[ino]); out == if max < |c| then c[..max] else c
    {
      hide Mounted;
      hide FsOk;
      hide Readable;
      out := [];
      var ok, node := ReadInode(ino);
      if !ok || node.kind != TYPE_FILE { return -1, out; }
      FileBacked(fs, ino);
      var toRead := node.size;
      if toRead > max { toRead := max; }
      var b := 0;
      while b < DIRECT_BLOCKS && |out| < toRead
        invariant b <= DIRECT_BLOCKS && |out| <= toRead
        invariant |out| == 512 * b || |out| == toRead <= 512 * b
        invariant forall j :: 0 <= j < b ==> node.blocks[j] != 0
        invariant forall p :: 0 <= p < |out| ==>
          p < MAX_FILE && node.blocks[p / 512] != 0 && out[p] == ByteAt(fs, node, p)
      {
        if node.blocks[b] == 0 { break; }
        var sector := ReadBlock(node.blocks[b]);
        var chunk := toRead - |out|;
        if chunk > BLOCK_SIZE { chunk := BLOCK_SIZE; }
        out := ReadChunk(node, b, out, sector, chunk);
        b := b + 1;
      }
      ReadWhole(node, b, |out|, toRead, max);
      return |out|, out;
    }

    /** memcpy of the start of one sector behind what has been read. */
    method ReadChunk(node: Inode, b: nat, out: seq<Byte>, sector: Sector, chunk: nat) returns (r: seq<Byte>)
      requires Backed(fs, node) && b < DIRECT_BLOCKS && node.blocks[b] != 0 && sector == fs.data[node.blocks[b]]
      requires |out| == 512 * b && 0 < chunk <= 512
      requires forall p :: 0 <= p < |out| ==> p < MAX_FILE && node.blocks[p / 512] != 0 && out[p] == ByteAt(fs, node, p)
      ensures |r| == |out| + chunk
      ensures forall p :: 0 <= p < |r| ==> p < MAX_FILE && node.blocks[p / 512] != 0 && r[p] == ByteAt(fs, node, p)
    {
      r := out + sector[..chunk];
      forall p | |out| <= p < |r|
        ensures p < MAX_FILE && node.blocks[p / 512] != 0 && r[p] == ByteAt(fs, node, p)
      {
        assert p / 512 == b && p % 512 == p - 512 * b;
      }
    }

    /** "if (node.blocks[j] == 0) allocate": false when no block is free. */
    method EnsureBlock(ghost fs0: Fs, ghost ino: nat, node: Inode, j: nat) returns (ok: bool, node': Inode)
      requires Mounted() && FsOk(fs0) && IsFile(fs0, ino) && Writing(fs0, fs, ino, node) && j < DIRECT_BLOCKS
      modifies this`disk, this`fs
      ensures Mounted() && Writing(fs0, fs, ino, node') && fs.data == old(fs).data
      ensures ok ==> node'.blocks[j] != 0 && node' == node.(blocks := node.blocks[j := node'.blocks[j]])
      ensures ok && node.blocks[j] != 0 ==> node' == node
      ensures !ok ==> node' == node && node.blocks[j] == 0 && fs == old(fs)
                      && forall b :: 0 <= b < TOTAL_BLOCKS ==> fs.bbits[b]
    {
      hide Holds;
      hide Writing;
      hide FsOk;
      node' := node;
      if node.blocks[j] == 0 {
        var blk := AllocBlock();
        if blk < 0 { return false, node; }
        WritingAlloc(fs0, old(fs), ino, node, j, blk);
        node' := node.(blocks := node.blocks[j := blk]);
      }
      return true, node';
    }

    /** ata_write_sector of the block in slot j. */
    method StoreSlot(ghost fs0: Fs, ghost ino: nat, node: Inode, j: nat, sector: Sector)
      requires Mounted() && FsOk(fs0) && IsFile(fs0, ino) && Writing(fs0, fs, ino, node)
      requires j < DIRECT_BLOCKS && node.blocks[j] != 0
      modifies this`disk, this`fs
      ensures Mounted() && Writing(fs0, fs, ino, node) && node.blocks[j] < TOTAL_BLOCKS
      ensures fs == old(fs).(data := old(fs).data[node.blocks[j] := sector])
    {
      hide Holds;
      hide Writing;
      hide FsOk;
      WritingStore(fs0, fs, ino, node, j, sector);
      WriteBlock(node.blocks[j], sector);
    }

    /** pfs_write_file: the whole file becomes `data`.  When blocks run out half way it returns false with the
        size unchanged, but what fits in the old size has been overwritten. */
    method WriteFile(ino: U32, data: seq<Byte>) returns (ok: bool)
      requires Mounted() && FsOk(fs) && FileArgument(ino) && |data| + 511 < 0x1_0000_0000
      modifies this`disk, this`fs
      ensures Mounted() && FsOk(fs)
      ensures !IsFile(old(fs), ino) || |data| > MAX_FILE ==> !ok && fs == old(fs)
      ensures IsFile(old(fs), ino) ==> Confined(old(fs), fs, ino) && Backed(fs, fs.inodes[ino])
      ensures ok ==> Content(fs, fs.inodes[ino]) == data && NodeDense(fs.inodes[ino])
      ensures ok ==> forall name :: LookupName(old(fs).data[0], name) == ino ==>
        FileMap(fs) == old(FileMap(fs))[name := data]
      ensures !ok ==> fs.inodes == old(fs).inodes
      ensures !ok && IsFile(old(fs), ino) && |data| <= MAX_FILE ==> forall b :: 0 <= b < TOTAL_BLOCKS ==> fs.bbits[b]
      ensures !ok && IsFile(old(fs), ino) && |data| <= MAX_FILE && NodeDense(old(fs).inodes[ino]) ==>
        fs.inodes[ino].size < |data| && Content(fs, fs.inodes[ino]) == data[..fs.inodes[ino].size]
    {
      hide Holds;
      hide FsOk;
      hide Writing;
      hide Wrote;
      hide FileMap;
      hide LookupName;
      hide Confined;
      hide Backed;
      hide NodeDense;
      hide Content;
      var found, node := ReadInode(ino);
      if !found || node.kind != TYPE_FILE { return false; }
      var needed := (|data| + BLOCK_SIZE - 1) / BLOCK_SIZE;
      FileBacked(fs, ino);
      SameFs(fs, ino);
      if needed > DIRECT_BLOCKS { return false; }
      WritingStart(fs, ino);
      ghost var b: nat;
      ok, node, b := WriteBlocks(fs, ino, node, data);
      WritingFacts(old(fs), fs, ino, node);
      if !ok {
        WritingAbort(old(fs), fs, ino, node);
        FileBacked(fs, ino);
        if NodeDense(old(fs).inodes[ino]) { WroteSome(old(fs), fs, ino, node, data, b); }
        return false;
      }
      SizeBacked(fs, node, |data|);
      WroteAll(fs, node, data);
      WritingDone(old(fs), fs, ino, node, |data|);
      ghost var before := fs;
      ok := WriteInode(ino, node.(size := |data|));
      SameData(before, fs, node.(size := |data|));
      FileWritten(old(fs), fs, ino, data);
    }

    /** The loop of pfs_write_file. */
    method WriteBlocks(ghost fs0: Fs, ghost ino: nat, node0: Inode, data: seq<Byte>)
      returns (ok: bool, node: Inode, ghost b: nat)
      requires Mounted() && FsOk(fs0) && IsFile(fs0, ino) && Writing(fs0, fs, ino, node0) && |data| <= MAX_FILE
      modifies this`disk, this`fs
      ensures Mounted() && Writing(fs0, fs, ino, node) && Backed(fs, node)
      ensures ok ==> Wrote(fs, node, data, (|data| + 511) / 512)
      ensures !ok ==> 512 * b < |data| && node.blocks[b] == 0 && Wrote(fs, node, data, b)
      ensures !ok ==> forall c :: 0 <= c < TOTAL_BLOCKS ==> fs.bbits[c]
    {
      hide Holds;
      hide FsOk;
      hide Writing;
      hide Wrote;
      node, b := node0, 0;
      WritingFacts(fs0, fs, ino, node);
      NothingWrote(fs, node, data);
      for k := 0 to (|data| + BLOCK_SIZE - 1) / BLOCK_SIZE
        invariant Mounted() && Writing(fs0, fs, ino, node) && Backed(fs, node) && Wrote(fs, node, data, k)
      {
        ok, node := WriteStep(fs0, ino, node, data, k);
        if !ok { return ok, node, k; }
      }
      return true, node, b;
    }

    /** The body of the loop of pfs_write_file. */
    method WriteStep(ghost fs0: Fs, ghost ino: nat, node: Inode, data: seq<Byte>, b: nat)
      returns (ok: bool, node': Inode)
      requires Mounted() && FsOk(fs0) && IsFile(fs0, ino) && Writing(fs0, fs, ino, node) && Backed(fs, node)
      requires b < DIRECT_BLOCKS && 512 * b < |data| <= MAX_FILE && Wrote(fs, node, data, b)
      modifies this`disk, this`fs
      ensures Mounted() && Writing(fs0, fs, ino, node') && Backed(fs, node')
      ensures ok ==> Wrote(fs, node', data, b + 1)
      ensures !ok ==> node'.blocks[b] == 0 && Wrote(fs, node', data, b)
                      && forall c :: 0 <= c < TOTAL_BLOCKS ==> fs.bbits[c]
    {
      hide Holds;
      hide FsOk;
      hide Writing;
      hide Wrote;
      ok, node' := EnsureBlock(fs0, ino, node, b);
      WritingFacts(fs0, fs, ino, node');
      if !ok { return; }
      WroteMoved(old(fs), node, fs, node', data, b);
      WroteBlock(fs, node', data, b);
      StoreSlot(fs0, ino, node', b, Chunk(data, b));
      WritingFacts(fs0, fs, ino, node');
    }

    /** pfs_write_file_at: `data` goes to offset off; off and off + len are 32-bit and do not wrap. */
    method WriteFileAt(ino: U32, off: U32, data: seq<Byte>) returns (ok: bool)
      requires Mounted() && FsOk(fs) && FileArgument(ino) && off + |data| < 0x1_0000_0000
      modifies this`disk, this`fs
      ensures Mounted() && FsOk(fs)
      ensures !IsFile(old(fs), ino) || off + |data| > MAX_FILE ==> !ok && fs == old(fs)
      ensures IsFile(old(fs), ino) ==>
        Confined(old(fs), fs, ino) && Backed(old(fs), old(fs).inodes[ino]) && Backed(fs, fs.inodes[ino])
      ensures ok ==> SplicedFile(old(fs), fs, ino, off, data)
      ensures ok ==>
        fs.inodes[ino].size ==
        if off + |data| > old(fs).inodes[ino].size then off + |data| else old(fs).inodes[ino].size
      ensures ok && NodeDense(old(fs).inodes[ino]) && off <= old(fs).inodes[ino].size ==>
        forall name :: LookupName(old(fs).data[0], name) == ino ==>
          FileMap(fs) == old(FileMap(fs))[name := Splice(Content(old(fs), old(fs).inodes[ino]), off, data)]
      ensures !ok ==> fs.inodes == old(fs).inodes
      ensures !ok && IsFile(old(fs), ino) && off + |data| <= MAX_FILE ==> CutFile(old(fs), fs, ino, off, data)
    {
      hide Holds;
      hide FsOk;
      hide Writing;
      hide Spliced;
      hide FileMap;
      hide LookupName;
      hide Confined;
      hide Backed;
      hide NodeDense;
      hide Content;
      hide SplicedFile;
      hide CutFile;
      var found, node := ReadInode(ino);
      if !found || node.kind != TYPE_FILE { return false; }
      FileBacked(fs, ino);
      SameFs(fs, ino);
      var end := off + |data|;
      if end > DIRECT_BLOCKS * BLOCK_SIZE { return false; }
      WritingStart(fs, ino);
      ghost var w: nat;
      ok, node, w := SpliceBlocks(fs, ino, node, off, data);
      WritingFacts(old(fs), fs, ino, node);
      if !ok {
        WritingAbort(old(fs), fs, ino, node);
        FileBacked(fs, ino);
        WriteAtCut(old(fs), fs, ino, node, off, data, w);
        return false;
      }
      ghost var before := fs;
      var node' := node.(size := if end > node.size then end else node.size);
      ok := WriteInode(ino, node');
      WriteAtDone(old(fs), before, fs, ino, node, node', off, data);
    }

    /** The loop of pfs_write_file_at. */
    method SpliceBlocks(ghost fs0: Fs, ghost ino: nat, node0: Inode, off: U32, data: seq<Byte>)
      returns (ok: bool, node: Inode, ghost w: nat)
      requires Mounted() && FsOk(fs0) && IsFile(fs0, ino) && fs == fs0 && node0 == fs0.inodes[ino]
      requires off + |data| <= MAX_FILE
      modifies this`disk, this`fs
      ensures Mounted() && Writing(fs0, fs, ino, node) && Backed(fs0, node0) && Backed(fs, node) && w <= |data|
      ensures Spliced(fs0, node0, fs, node, off, data, w) && SlotsBelow(node0, node, off, data)
      ensures Untouched(fs0, fs, node, off, w)
      ensures ok ==> w == |data|
      ensures !ok ==> w < |data| && node.blocks[(off + w) / 512] == 0
      ensures !ok ==> forall c :: 0 <= c < TOTAL_BLOCKS ==> fs.bbits[c]
    {
      hide Holds;
      hide FsOk;
      hide Writing;
      hide Spliced;
      hide Backed;
      node := node0;
      WritingStart(fs, ino);
      WritingFacts(fs0, fs, ino, node);
      NothingSpliced(fs, node, off, data);
      UntouchedStart(fs, node, off);
      hide Untouched;
      var written := 0;
      while written < |data|
        invariant written <= |data| && Mounted() && Writing(fs0, fs, ino, node) && Backed(fs0, node0)
          && Backed(fs, node)
        invariant Spliced(fs0, node0, fs, node, off, data, written) && SlotsBelow(node0, node, off, data)
        invariant Untouched(fs0, fs, node, off, written)
      {
        var n: nat;
        ok, node, n := SpliceStep(fs0, ino, node0, node, off, data, written);
        if !ok { return false, node, written; }
        written := written + n;
      }
      return true, node, written;
    }

    /** The body of the loop: allocate if need be, read, patch, write back. */
    method SpliceStep(ghost fs0: Fs, ghost ino: nat, ghost node0: Inode, node: Inode, off: U32, data: seq<Byte>, w: nat)
      returns (ok: bool, node': Inode, n: nat)
      requires Mounted() && FsOk(fs0) && IsFile(fs0, ino) && node0 == fs0.inodes[ino] && Writing(fs0, fs, ino, node)
      requires Backed(fs0, node0) && Backed(fs, node) && w < |data| && off + |data| <= MAX_FILE
      requires Spliced(fs0, node0, fs, node, off, data, w) && SlotsBelow(node0, node, off, data)
      requires Untouched(fs0, fs, node, off, w)
      modifies this`disk, this`fs
      ensures Mounted() && Writing(fs0, fs, ino, node') && Backed(fs, node') && SlotsBelow(node0, node', off, data)
      ensures ok ==> 0 < n && w + n <= |data| && Spliced(fs0, node0, fs, node', off, data, w + n)
      ensures ok ==> Untouched(fs0, fs, node', off, w + n)
      ensures !ok ==> node'.blocks[(off + w) / 512] == 0 && Spliced(fs0, node0, fs, node', off, data, w)
      ensures !ok ==> Untouched(fs0, fs, node', off, w)
      ensures !ok ==> forall c :: 0 <= c < TOTAL_BLOCKS ==> fs.bbits[c]
    {
      hide Holds;
      hide FsOk;
      hide Writing;
      hide Spliced;
      hide Backed;
      hide Untouched;
      n := 0;
      var pos := off + w;
      var k, at := pos / BLOCK_SIZE, pos % BLOCK_SIZE;
      ok, node' := EnsureBlock(fs0, ino, node, k);
      WritingFacts(fs0, fs, ino, node');
      if !ok { return; }
      SplicedMoved(fs0, node0, old(fs), node, fs, node', off, data, w, k);
      UntouchedAlloc(fs0, old(fs), node, fs, node', off, w, k);
      SlotInRange(fs, node', k);
      var sector := ReadBlock(node'.blocks[k]);
      n := BLOCK_SIZE - at;
      if n > |data| - w { n := |data| - w; }
      SplicedStep(fs0, node0, fs, node', off, data, w, n);
      UntouchedPatch(fs0, fs, node', off, data, w, n);
      StoreSlot(fs0, ino, node', k, Patch(sector, at, data[w..w + n]));
      WritingFacts(fs0, fs, ino, node');
    }

    /** pfs_vfs_read: at most `size` bytes of the content from `offset` on. */
    method VfsRead(ino: U32, offset: U32, size: U32) returns (buffer: seq<Byte>)
      requires Mounted() && FsOk(fs) && FileArgument(ino)
      ensures !IsFile(fs, ino) ==> buffer == []
      ensures IsFile(fs, ino) ==> Backed(fs, fs.inodes[ino])
      ensures IsFile(fs, ino) ==>
        buffer == Slice(Content(fs, fs.inodes[ino]), offset, size)
    {
      hide Holds;
      hide FsOk;
      hide Content;
      hide Backed;
      hide Slice;
      hide Readable;
      var n, tmp := ReadFile(ino, MAX_FILE);
      if n < 0 { return []; }
      ContentLimit(fs, fs.inodes[ino]);
      buffer := CopyOut(tmp, offset, size);
    }

    /** The end of pfs_vfs_read: what of the file lies in the range. */
    method CopyOut(tmp: seq<Byte>, offset: U32, size: U32) returns (buffer: seq<Byte>)
      ensures buffer == Slice(tmp, offset, size)
    {
      if offset >= |tmp| { return []; }
      var avail := |tmp| - offset;
      var toCopy := if size < avail then size else avail;
      return tmp[offset..offset + toCopy];
    }

    /** pfs_mkfs on any disk: an empty file system, with the root directory in block 0. */
    method Mkfs()
      modifies this`disk, this`fs
      ensures Holds(disk, fs) && SuperblockAt(disk[SUPERBLOCK_SEC]) == GEOMETRY
      ensures FsOk(fs) && Dense(fs) && FileMap(fs) == map[]
      ensures forall n :: 0 <= n < TOTAL_INODES ==> (fs.ibits[n] <==> n < 2)
      ensures forall b :: 0 <= b < TOTAL_BLOCKS ==> (fs.bbits[b] <==> b == 0)
      ensures fs.data[0] == RootDirectory()
    {
      hide PutWord;
      hide EncodeInode;
      hide EncodeEntry;
      hide SuperblockAt;
      var sector := SuperblockSector();
      disk := disk[SUPERBLOCK_SEC := sector];
      disk := disk[INODE_BITMAP_SEC := ZeroSector()[0 := 3]];
      disk := disk[BLOCK_BITMAP_SEC := ZeroSector()[0 := 1]];
      for i := 1 to 8
        invariant disk[SUPERBLOCK_SEC] == sector && disk[INODE_BITMAP_SEC] == ZeroSector()[0 := 3]
        invariant disk[BLOCK_BITMAP_SEC] == ZeroSector()[0 := 1]
        invariant forall sec :: BLOCK_BITMAP_SEC < sec < BLOCK_BITMAP_SEC + i ==> disk[sec] == ZeroSector()
      {
        disk := disk[BLOCK_BITMAP_SEC + i := ZeroSector()];
      }
      disk := disk[INODE_TABLE_SEC := EncodeInode(ZeroSector(), 1, RootInode())];
      disk := disk[DATA_START_SEC := RootDirectory()];
      SuperblockRoundTrip();
      fs := Decoded(disk);
      DecodedHolds(disk);
      hide Holds;
      hide Decoded;
      FreshBitmaps(disk, fs);
      FreshFs(disk, fs);
      RootBlock(disk, fs);
    }

    /** pfs_mount: takes over the superblock and looks at its magic number. */
    method Mount() returns (ok: bool)
      modifies this`sb
      ensures sb == SuperblockAt(disk[SUPERBLOCK_SEC]) && (ok <==> sb.magic == PFS_MAGIC)
    {
      sb := SuperblockAt(disk[SUPERBLOCK_SEC]);
      return sb.magic == PFS_MAGIC;
    }

    /** One operation of a run: whatever happens the file system stays sound, and without gaps it does to the finite
        map what the operation says. */
    method Step(op: Op)
      requires Mounted() && FsOk(fs)
      modifies this
      ensures Mounted() && FsOk(fs)
      ensures old(Dense(fs)) && NoGap(op, old(FileMap(fs))) ==> Dense(fs) && MapStep(old(FileMap(fs)), op, FileMap(fs))
    {
      hide Holds;
      hide FsOk;
      hide SuperblockAt;
      hide LookupName;
      hide Confined;
      hide Dense;
      hide SplicedFile;
      hide FileMap;
      hide MapStep;
      hide NoGap;
      hide Backed;
      hide Content;
      RootFacts(fs);
      ghost var m := FileMap(fs);
      match op
      case Format =>
        Mkfs();
        var ok := Mount();
        FormatStep(m, FileMap(fs));
      case Remount =>
        var ok := Mount();
        RemountStep(m);
      case Make(name) =>
        ghost var was := fs;
        var made := false;
        if IsName(name) {
          var ino := Create(name);
          made := ino >= 0;
        }
        MakeStep(was, name, made, FileMap(fs));
      case Whole(name, data) => WriteWhole(name, data);
      case Part(name, off, data) => WritePart(name, off, data);
    }

    method WriteWhole(name: seq<Byte>, data: seq<Byte>)
      requires Mounted() && FsOk(fs)
      modifies this
      ensures Mounted() && FsOk(fs)
      ensures old(Dense(fs)) ==> Dense(fs) && MapStep(old(FileMap(fs)), Whole(name, data), FileMap(fs))
    {
      hide Holds;
      hide FsOk;
      hide SuperblockAt;
      hide LookupName;
      hide Confined;
      hide Dense;
      hide FileMap;
      hide MapStep;
      hide Content;
      ghost var was := fs;
      RootFacts(fs);
      var ino := Lookup(name);
      NamedArgument(fs, name);
      if ino < 0 || |data| + 511 >= 0x1_0000_0000 {
        WholeRefused(fs, name, data);
        return;
      }
      var ok := WriteFile(ino, data);
      if old(Dense(fs)) {
        DenseFile(was, ino);
        if IsFile(was, ino) { DenseAfter(was, fs, ino); }
        WholeStep(was, fs, ino, name, data, ok);
      }
    }

    method WritePart(name: seq<Byte>, off: U32, data: seq<Byte>)
      requires Mounted() && FsOk(fs)
      modifies this
      ensures Mounted() && FsOk(fs)
      ensures old(Dense(fs)) && NoGap(Part(name, off, data), old(FileMap(fs))) ==>
        Dense(fs) && MapStep(old(FileMap(fs)), Part(name, off, data), FileMap(fs))
    {
      hide Holds;
      hide FsOk;
      hide SuperblockAt;
      hide LookupName;
      hide Confined;
      hide Dense;
      hide FileMap;
      hide MapStep;
      hide NoGap;
      hide Content;
      hide SplicedFile;
      hide CutFile;
      ghost var was := fs;
      RootFacts(fs);
      var ino := Lookup(name);
      NamedArgument(fs, name);
      if ino < 0 || off + |data| >= 0x1_0000_0000 {
        PartRefused(fs, name, off, data);
        return;
      }
      var ok := WriteFileAt(ino, off, data);
      if old(Dense(fs)) && NoGap(Part(name, off, data), old(FileMap(fs))) {
        DenseFile(was, ino);
        if IsFile(was, ino) {
          GapSize(was, ino, name, off, data);
          if ok { PartDense(was, fs, ino, off, data); }
          DenseAfter(was, fs, ino);
        }
        PartStep(was, fs, ino, name, off, data, ok);
      }
    }

    /** Any run of format, mount, create and write calls, successful or not, from a mounted disk: the file system stays
        sound, and up to the first write that leaves a gap the finite maps along the run are those of its operations. */
    method Run(ops: seq<Op>) returns (ghost maps: seq<map<seq<Byte>, seq<Byte>>>)
      requires Mounted() && FsOk(fs)
      modifies this
      ensures Mounted() && FsOk(fs)
      ensures |maps| == |ops| + 1 && maps[0] == old(FileMap(fs)) && maps[|ops|] == FileMap(fs)
      ensures old(Dense(fs)) ==> MapRun(maps, ops, |ops|)
    {
      hide Mounted;
      hide FsOk;
      hide FileMap;
      hide Dense;
      hide MapStep;
      maps := [FileMap(fs)];
      for i := 0 to |ops|
        invariant Mounted() && FsOk(fs)
        invariant |maps| == i + 1 && maps[0] == old(FileMap(fs)) && maps[i] == FileMap(fs)
        invariant old(Dense(fs)) && NoGaps(maps, ops, i) ==> Dense(fs)
        invariant old(Dense(fs)) ==> MapRun(maps, ops, i)
      {
        ghost var before := maps;
        Step(ops[i]);
        maps := maps + [FileMap(fs)];
        RunStep(before, maps, ops, i, old(Dense(fs)));
      }
    }
  }

  /** No write among the first n operations starts beyond the end of its file. */
  ghost predicate NoGaps(maps: seq<map<seq<Byte>, seq<Byte>>>, ops: seq<Op>, n: nat)
    requires n <= |ops| && n <= |maps|
  {
    forall j :: 0 <= j < n ==> NoGap(ops[j], maps[j])
  }

  ghost predicate MapRun(maps: seq<map<seq<Byte>, seq<Byte>>>, ops: seq<Op>, n: nat)
    requires n <= |ops| && n < |maps|
  {
    forall i :: 0 <= i < n && NoGaps(maps, ops, i + 1) ==> MapStep(maps[i], ops[i], maps[i + 1])
  }

  lemma RunStep(before: seq<map<seq<Byte>, seq<Byte>>>, maps: seq<map<seq<Byte>, seq<Byte>>>, ops: seq<Op>, i: nat,
                dense: bool)
    requires i < |ops| && |before| == i + 1 && |maps| == i + 2 && maps[..i + 1] == before
    requires dense ==> MapRun(before, ops, i)
    requires dense && NoGaps(before, ops, i) && NoGap(ops[i], before[i]) ==> MapStep(before[i], ops[i], maps[i + 1])
    ensures NoGaps(maps, ops, i + 1) ==> NoGaps(before, ops, i) && NoGap(ops[i], before[i])
    ensures dense ==> MapRun(maps, ops, i + 1)
  {
    hide MapStep;
    hide NoGap;
    assert forall j :: 0 <= j <= i ==> maps[j] == before[j] by {
      assert forall j :: 0 <= j <= i ==> maps[j] == maps[..i + 1][j];
    }
    if dense {
      forall k | 0 <= k < i + 1 && NoGaps(maps, ops, k + 1)
        ensures MapStep(maps[k], ops[k], maps[k + 1])
      {
        assert forall j :: 0 <= j < k + 1 ==> NoGap(ops[j], before[j]);
        if k < i {
          assert NoGaps(before, ops, k + 1);
        } else {
          assert NoGaps(before, ops, i);
        }
      }
    }
  }

  datatype Op = Format | Remount | Make(name: seq<Byte>) | Whole(name: seq<Byte>, data: seq<Byte>)
              | Part(name: seq<Byte>, off: U32, data: seq<Byte>)

  /** A write at an offset starts inside or right behind the file. */
  predicate NoGap(op: Op, m: map<seq<Byte>, seq<Byte>>) {
    op.Part? && op.name in m ==> op.off <= |m[op.name]|
  }

  /** What the operations mean for the finite map from names to bytes.  A write that finds no free block keeps the
      length of the file. */
  predicate MapStep(m: map<seq<Byte>, seq<Byte>>, op: Op, m': map<seq<Byte>, seq<Byte>>)
    requires NoGap(op, m)
  {
    match op
    case Format => m' == map[]
    case Remount => m' == m
    case Make(name) => m' == m || (Truncated(name) !in m && m' == m[Truncated(name) := []])
    case Whole(name, data) =>
      if name !in m || |data| > MAX_FILE then m' == m
      else m' == m[name := data] || (|m[name]| < |data| && m' == m[name := data[..|m[name]|]])
    case Part(name, off, data) =>
      if name !in m || off + |data| > MAX_FILE then m' == m
      else
        var spliced := Splice(m[name], off, data);
        m' == m[name := spliced] || m' == m[name := spliced[..|m[name]|]]
  }

  lemma FormatStep(m: map<seq<Byte>, seq<Byte>>, m': map<seq<Byte>, seq<Byte>>)
    requires m' == map[]
    ensures NoGap(Format, m) && MapStep(m, Format, m')
  {
  }

  lemma RemountStep(m: map<seq<Byte>, seq<Byte>>)
    ensures NoGap(Remount, m) && MapStep(m, Remount, m)
  {
  }

  lemma MakeStep(fs: Fs, name: seq<Byte>, made: bool, m': map<seq<Byte>, seq<Byte>>)
    requires FsOk(fs)
    requires m' ==
      if made && LookupName(fs.data[0], Truncated(name)) < 0 then FileMap(fs)[Truncated(name) := []] else FileMap(fs)
    ensures NoGap(Make(name), FileMap(fs)) && MapStep(FileMap(fs), Make(name), m')
  {
    hide FileMap;
    hide FsOk;
    FileMapAt(fs, Truncated(name));
  }

  lemma WholeRefused(fs: Fs, name: seq<Byte>, data: seq<Byte>)
    requires FsOk(fs) && (LookupName(fs.data[0], name) < 0 || |data| > MAX_FILE)
    ensures NoGap(Whole(name, data), FileMap(fs)) && MapStep(FileMap(fs), Whole(name, data), FileMap(fs))
  {
    hide FileMap;
    hide FsOk;
    FileMapAt(fs, name);
  }

  lemma PartRefused(fs: Fs, name: seq<Byte>, off: U32, data: seq<Byte>)
    requires FsOk(fs) && (LookupName(fs.data[0], name) < 0 || off + |data| > MAX_FILE)
    ensures NoGap(Part(name, off, data), FileMap(fs)) ==> MapStep(FileMap(fs), Part(name, off, data), FileMap(fs))
  {
    hide FileMap;
    hide FsOk;
    FileMapAt(fs, name);
  }

  lemma DenseFile(fs: Fs, ino: nat)
    requires Dense(fs) && ino < TOTAL_INODES
    ensures IsFile(fs, ino) ==> NodeDense(fs.inodes[ino])
  {
  }

  /** A whole-file write on a dense file system does to the map what the operation says. */
  lemma WholeStep(fs: Fs, fs': Fs, ino: nat, name: seq<Byte>, data: seq<Byte>, ok: bool)
    requires FsOk(fs) && FsOk(fs') && ino < TOTAL_INODES && LookupName(fs.data[0], name) == ino
    requires IsFile(fs, ino) ==> NodeDense(fs.inodes[ino]) && Confined(fs, fs', ino) && Backed(fs', fs'.inodes[ino])
    requires !IsFile(fs, ino) || |data| > MAX_FILE ==> !ok && fs' == fs
    requires ok ==> FileMap(fs') == FileMap(fs)[name := data]
    requires !ok && IsFile(fs, ino) && |data| <= MAX_FILE ==>
      fs'.inodes == fs.inodes && fs'.inodes[ino].size < |data|
      && Content(fs', fs'.inodes[ino]) == data[..fs'.inodes[ino].size]
    ensures NoGap(Whole(name, data), FileMap(fs)) && MapStep(FileMap(fs), Whole(name, data), FileMap(fs'))
  {
    hide FileMap;
    hide FsOk;
    hide Confined;
    hide LookupName;
    FileMapAt(fs, name);
    if IsFile(fs, ino) && |data| <= MAX_FILE {
      ContentSize(fs, fs.inodes[ino]);
      if !ok { MapUpdate(fs, fs', ino, name); }
    }
  }

  /** The condition on the map is the condition on the inode. */
  lemma GapSize(fs: Fs, ino: nat, name: seq<Byte>, off: U32, data: seq<Byte>)
    requires FsOk(fs) && ino < TOTAL_INODES && IsFile(fs, ino) && LookupName(fs.data[0], name) == ino
    requires NodeDense(fs.inodes[ino])
    ensures NoGap(Part(name, off, data), FileMap(fs)) <==> off <= fs.inodes[ino].size
  {
    hide FileMap;
    hide FsOk;
    hide Content;
    FileMapAt(fs, name);
    ContentSize(fs, fs.inodes[ino]);
  }

  /** A write at an offset on a dense file system, without a gap, does to the map what the operation says. */
  lemma PartStep(fs: Fs, fs': Fs, ino: nat, name: seq<Byte>, off: U32, data: seq<Byte>, ok: bool)
    requires FsOk(fs) && FsOk(fs') && ino < TOTAL_INODES && LookupName(fs.data[0], name) == ino
    requires NoGap(Part(name, off, data), FileMap(fs))
    requires IsFile(fs, ino) ==> NodeDense(fs.inodes[ino]) && Confined(fs, fs', ino)
    requires IsFile(fs, ino) ==> Backed(fs, fs.inodes[ino]) && Backed(fs', fs'.inodes[ino])
    requires !IsFile(fs, ino) || off + |data| > MAX_FILE ==> !ok && fs' == fs
    requires ok ==> SplicedFile(fs, fs', ino, off, data)
    requires !ok && IsFile(fs, ino) && off + |data| <= MAX_FILE ==> CutFile(fs, fs', ino, off, data)
    ensures MapStep(FileMap(fs), Part(name, off, data), FileMap(fs'))
  {
    hide FileMap;
    hide FsOk;
    hide Confined;
    hide LookupName;
    hide Content;
    FileMapAt(fs, name);
    if IsFile(fs, ino) && off + |data| <= MAX_FILE {
      ContentSize(fs, fs.inodes[ino]);
      MapUpdate(fs, fs', ino, name);
    }
  }

  /** A number found in the directory is the root's or an allocated file's. */
  lemma NamedArgument(fs: Fs, name: seq<Byte>)
    requires FsOk(fs)
    ensures -1 <= LookupName(fs.data[0], name) < TOTAL_INODES
    ensures LookupName(fs.data[0], name) >= 0 ==>
      LookupName(fs.data[0], name) == 1 || IsFile(fs, LookupName(fs.data[0], name))
    ensures fs.inodes[1].kind == TYPE_DIR
  {
  }

  lemma DenseAfter(fs: Fs, fs': Fs, ino: nat)
    requires IsFile(fs, ino) && Confined(fs, fs', ino)
    ensures Dense(fs) && (NodeDense(fs'.inodes[ino]) || fs'.inodes == fs.inodes) ==> Dense(fs')
  {
    assert forall m: nat :: IsFile(fs', m) <==> IsFile(fs, m);
  }

  lemma PartDense(fs: Fs, fs': Fs, ino: nat, off: nat, data: seq<Byte>)
    requires IsFile(fs, ino) && Dense(fs) && off <= fs.inodes[ino].size && ino < TOTAL_INODES
    requires Backed(fs, fs.inodes[ino]) && Backed(fs', fs'.inodes[ino]) && SplicedFile(fs, fs', ino, off, data)
    ensures NodeDense(fs'.inodes[ino])
  {
  }

  function RootInode(): Inode { Inode(TYPE_DIR, 512, seq(12, i => 0), 0, 0) }

  function RootDirectory(): Sector {
    EncodeEntry(EncodeEntry(ZeroSector(), 0, 1, [46]), 1, 1, [46, 46])
  }

  function SuperblockSector(): Sector {
    var s0 := PutWord(ZeroSector(), 0, PFS_MAGIC);
    var s1 := PutWord(s0, 4, TOTAL_BLOCKS);
    var s2 := PutWord(s1, 8, TOTAL_INODES);
    var s3 := PutWord(s2, 12, INODE_BITMAP_SEC);
    var s4 := PutWord(s3, 16, BLOCK_BITMAP_SEC);
    var s5 := PutWord(s4, 20, INODE_TABLE_SEC);
    var s6 := PutWord(s5, 24, DATA_START_SEC);
    PutWord(s6, 28, 1)
  }

  lemma SuperblockRoundTrip()
    ensures SuperblockAt(SuperblockSector()) == GEOMETRY
  {
    hide PutWord;
    hide Word;
    forall s: Sector, at: nat, v: U32, b: nat | at + 4 <= 512 && b + 4 <= 512 && (at == b || at + 4 <= b || b + 4 <= at)
      ensures Word(PutWord(s, at, v), b) == if b == at then v else Word(s, b)
    {
      PutWordAt(s, at, v, b);
    }
  }

  /** A formatted disk lists "." and "..", both of them inode 1, and nothing else. */
  lemma RootListing()
    ensures UsedEntries(RootDirectory(), 16) == [0, 1]
    ensures EntryName(RootDirectory(), 0) == [46] && EntryName(RootDirectory(), 1) == [46, 46]
    ensures EntryInode(RootDirectory(), 0) == 1 && EntryInode(RootDirectory(), 1) == 1
  {
    var s := EncodeEntry(ZeroSector(), 0, 1, [46]);
    var t := RootDirectory();
    hide EntryBytes;
    hide EncodeEntry;
    hide EntryName;
    hide EntryInode;
    forall d | 0 <= d < 16
      ensures EntryInode(t, d) == if d < 2 then 1 else 0
    {
      RootEntry(d);
    }
    EntryRoundTrip(s, 1, 1, [46, 46], 0);
    EntryRoundTrip(s, 1, 1, [46, 46], 1);
    EntryRoundTrip(ZeroSector(), 0, 1, [46], 0);
    TwoEntries(t, 16);
  }

  lemma ZeroEntry(d: nat)
    requires d < 16
    ensures EntryInode(ZeroSector(), d) == 0
  {
  }

  lemma {:induction false} TwoEntries(s: Sector, n: nat)
    requires 2 <= n <= 16 && forall d :: 0 <= d < 16 ==> EntryInode(s, d) == if d < 2 then 1 else 0
    ensures UsedEntries(s, n) == [0, 1]
  {
    hide EntryInode;
    if n > 2 {
      TwoEntries(s, n - 1);
    } else {
      assert UsedEntries(s, 0) == [] && UsedEntries(s, 1) == [0];
    }
  }

  /** The first sector of a formatted disk, number by number. */
  lemma SuperblockFormat()
    ensures var s := SuperblockSector();
            && Word(s, 0) == 0x50465321 && Word(s, 4) == 32768 && Word(s, 8) == 4096 && Word(s, 12) == 1
            && Word(s, 16) == 2 && Word(s, 20) == 10 && Word(s, 24) == 522 && Word(s, 28) == 1
  {
    SuperblockRoundTrip();
    hide SuperblockSector;
    hide Word;
  }

  lemma FreshBitmaps(d: Disk, fs: Fs)
    requires Holds(d, fs) && d[INODE_BITMAP_SEC] == ZeroSector()[0 := 3] && d[BLOCK_BITMAP_SEC] == ZeroSector()[0 := 1]
    requires forall sec :: BLOCK_BITMAP_SEC < sec < INODE_TABLE_SEC ==> d[sec] == ZeroSector()
    ensures forall n :: 0 <= n < TOTAL_INODES ==> (fs.ibits[n] <==> n < 2)
    ensures forall b :: 0 <= b < TOTAL_BLOCKS ==> (fs.bbits[b] <==> b == 0)
  {
    hide SectorBit;
    hide DecodeInode;
    forall n | 0 <= n < TOTAL_INODES
      ensures fs.ibits[n] <==> n < 2
    {
      FirstByteBits(3, n);
      ThreeBits(n);
    }
    forall b | 0 <= b < TOTAL_BLOCKS
      ensures fs.bbits[b] <==> b == 0
    {
      FreshBlockBit(b);
      if b >= 4096 { assert BlockBitmapSector(b) > BLOCK_BITMAP_SEC; }
    }
  }

  lemma FreshBlockBit(b: nat)
    ensures SectorBit(ZeroSector()[0 := 1], b % 4096) <==> b % 4096 == 0
    ensures !SectorBit(ZeroSector(), b % 4096)
  {
    FirstByteBits(1, b % 4096);
    ZeroBits(b % 4096 % 8);
    if 0 < b % 4096 < 8 { ZeroBits(b % 4096 - 1); }
  }

  lemma ThreeBits(k: nat)
    ensures BitOf(3, k) <==> k < 2
  {
    if k >= 2 {
      ZeroBits(k - 2);
      assert BitOf(3, k) == BitOf(1, k - 1) == BitOf(0, k - 2);
    } else {
      assert BitOf(3, 1) == BitOf(1, 0);
    }
  }

  lemma FreshFs(d: Disk, fs: Fs)
    requires Holds(d, fs) && d[INODE_TABLE_SEC] == EncodeInode(ZeroSector(), 1, RootInode())
    requires d[DATA_START_SEC] == RootDirectory()
    requires (forall n :: 0 <= n < TOTAL_INODES ==> (fs.ibits[n] <==> n < 2)) && fs.bbits[0]
    ensures FsOk(fs) && Dense(fs) && FileMap(fs) == map[]
  {
    hide SectorBit;
    hide DecodeInode;
    hide EncodeInode;
    hide DirectoryOk;
    hide RootDirectory;
    hide EntryInode;
    FreshInodes(d, fs);
    FreshDirectory();
    assert DataSector(0) == DATA_START_SEC;
    assert fs.data[0] == RootDirectory();
    assert forall n: nat :: !IsFile(fs, n);
    NoFiles(fs);
  }

  lemma RootBlock(d: Disk, fs: Fs)
    requires Holds(d, fs)
    ensures fs.data[0] == d[DATA_START_SEC]
  {
    hide SectorBit;
    hide DecodeInode;
    assert DataSector(0) == DATA_START_SEC;
  }

  lemma NoFiles(fs: Fs)
    requires FsOk(fs) && forall n: nat :: !IsFile(fs, n)
    ensures FileMap(fs) == map[]
  {
    hide FsOk;
    hide LookupName;
    hide FileMap;
    forall name
      ensures name !in FileMap(fs)
    {
      FileMapAt(fs, name);
    }
  }

  lemma FreshInodes(d: Disk, fs: Fs)
    requires Holds(d, fs) && d[INODE_TABLE_SEC] == EncodeInode(ZeroSector(), 1, RootInode())
    ensures fs.inodes[0].kind == 0 && fs.inodes[1] == RootInode()
  {
    hide SectorBit;
    hide EncodeInode;
    hide DecodeInode;
    assert InodeSector(0) == INODE_TABLE_SEC && InodeSector(1) == INODE_TABLE_SEC;
    InodeRoundTrip(ZeroSector(), 1, RootInode(), 0);
    InodeRoundTrip(ZeroSector(), 1, RootInode(), 1);
    ZeroInode();
  }

  lemma ZeroInode()
    ensures DecodeInode(ZeroSector(), 0).kind == 0
  {
  }

  lemma FreshDirectory()
    ensures DirectoryOk(RootDirectory())
    ensures forall e :: 0 <= e < 16 && Used(RootDirectory(), e) ==> EntryInode(RootDirectory(), e) == 1
  {
    hide RootDirectory;
    hide EntryBytes;
    hide EntryInode;
    forall e | 0 <= e < 16
      ensures EntryInode(RootDirectory(), e) == if e < 2 then 1 else 0
      ensures e < 2 ==> EntryBytes(RootDirectory(), e)[27] == 0
    {
      RootEntry(e);
    }
  }

  lemma RootEntry(e: nat)
    requires e < 16
    ensures EntryInode(RootDirectory(), e) == if e < 2 then 1 else 0
    ensures e < 2 ==> EntryBytes(RootDirectory(), e)[27] == 0
  {
    hide EncodeEntry;
    hide EntryBytes;
    hide EntryName;
    hide EntryInode;
    var s, t := ZeroSector(), EncodeEntry(ZeroSector(), 0, 1, [46]);
    EntryRoundTrip(s, 0, 1, [46], e);
    EntryRoundTrip(t, 1, 1, [46, 46], e);
    ZeroEntry(e);
  }

  /** A successful write at an offset: with no gap the file is the splice; beyond the end it reads as GapFile says; and
      it stays dense exactly when the blocks that lie wholly before the offset were there. */
  ghost predicate SplicedFile(fs: Fs, fs': Fs, ino: nat, off: nat, data: seq<Byte>)
    requires ino < TOTAL_INODES && Backed(fs, fs.inodes[ino]) && Backed(fs', fs'.inodes[ino])
  {
    NodeDense(fs.inodes[ino]) ==>
      && |Content(fs, fs.inodes[ino])| == fs.inodes[ino].size
      && (off <= fs.inodes[ino].size ==>
            NodeDense(fs'.inodes[ino])
            && Content(fs', fs'.inodes[ino]) == Splice(Content(fs, fs.inodes[ino]), off, data))
      && (data != [] ==>
            (NodeDense(fs'.inodes[ino]) <==>
              forall j :: 0 <= j < DIRECT_BLOCKS && 512 * (j + 1) <= off ==> fs.inodes[ino].blocks[j] != 0))
      && (off > fs.inodes[ino].size ==> GapFile(fs, fs.inodes[ino], fs', fs'.inodes[ino], off, data))
  }

  /** A write that ran out of blocks: every block is in use, it took at most as many as an inode has slots, and a dense
      file keeps its size. */
  ghost predicate CutFile(fs: Fs, fs': Fs, ino: nat, off: nat, data: seq<Byte>)
    requires ino < TOTAL_INODES && Backed(fs, fs.inodes[ino]) && Backed(fs', fs'.inodes[ino])
  {
    && (forall b :: 0 <= b < TOTAL_BLOCKS ==> fs'.bbits[b])
    && (exists node: Inode :: NewlyNamed(fs, fs', node))
    && (NodeDense(fs.inodes[ino]) && off <= fs.inodes[ino].size ==>
          && |Content(fs, fs.inodes[ino])| == fs.inodes[ino].size
          && Content(fs', fs'.inodes[ino]) == Splice(Content(fs, fs.inodes[ino]), off, data)[..fs.inodes[ino].size])
  }

  lemma WriteAtCut(fs0: Fs, fs: Fs, ino: nat, node: Inode, off: nat, data: seq<Byte>, w: nat)
    requires FsOk(fs0) && IsFile(fs0, ino) && Writing(fs0, fs, ino, node) && off + |data| <= MAX_FILE && w < |data|
    requires Backed(fs0, fs0.inodes[ino]) && Backed(fs, fs.inodes[ino]) && fs.inodes == fs0.inodes && Backed(fs, node)
    requires Spliced(fs0, fs0.inodes[ino], fs, node, off, data, w) && node.blocks[(off + w) / 512] == 0
    requires forall b :: 0 <= b < TOTAL_BLOCKS ==> fs.bbits[b]
    ensures CutFile(fs0, fs, ino, off, data)
  {
    hide FsOk;
    hide Writing;
    hide Spliced;
    hide Content;
    hide NodeDense;
    hide Backed;
    AllNewlyNamed(fs0, fs, ino, node);
    hide NewlyNamed;
    if NodeDense(fs0.inodes[ino]) && off <= fs0.inodes[ino].size { SplicedSome(fs0, fs, ino, node, off, data, w); }
  }

  lemma AllNewlyNamed(fs0: Fs, fs: Fs, ino: nat, node: Inode)
    requires ino < TOTAL_INODES && Writing(fs0, fs, ino, node)
    ensures NewlyNamed(fs0, fs, node)
  {
  }

  lemma WriteAtDone(fs0: Fs, fs: Fs, fs': Fs, ino: nat, node: Inode, node': Inode, off: nat, data: seq<Byte>)
    requires FsOk(fs0) && IsFile(fs0, ino) && off + |data| <= MAX_FILE
    requires Backed(fs0, fs0.inodes[ino]) && Backed(fs, node) && Writing(fs0, fs, ino, node)
    requires Spliced(fs0, fs0.inodes[ino], fs, node, off, data, |data|) && SlotsBelow(fs0.inodes[ino], node, off, data)
    requires Untouched(fs0, fs, node, off, |data|)
    requires node' == node.(size := if off + |data| > node.size then off + |data| else node.size)
    requires fs' == fs.(inodes := fs.inodes[ino := node'])
    ensures FsOk(fs') && Confined(fs0, fs', ino) && Backed(fs', node') && SplicedFile(fs0, fs', ino, off, data)
    ensures NodeDense(fs0.inodes[ino]) && off <= fs0.inodes[ino].size ==>
      forall name :: LookupName(fs0.data[0], name) == ino ==>
        FileMap(fs') == FileMap(fs0)[name := Splice(Content(fs0, fs0.inodes[ino]), off, data)]
  {
    hide FsOk;
    hide Writing;
    hide Spliced;
    hide FileMap;
    hide LookupName;
    hide Content;
    hide Backed;
    hide Confined;
    var node0 := fs0.inodes[ino];
    WritingFacts(fs0, fs, ino, node);
    WritingDone(fs0, fs, ino, node, node'.size);
    SizeBacked(fs, node, node'.size);
    SameData(fs, fs', node');
    if NodeDense(node0) {
      ContentSize(fs0, node0);
      GapDense(fs0, node0, fs, node, off, data, node');
      if off <= node0.size {
        SplicedAll(fs0, node0, fs, node, off, data, node');
        FileWritten(fs0, fs', ino, Splice(Content(fs0, node0), off, data));
      } else {
        KeptSlots(fs0, fs, ino, node);
        GapRead(fs0, node0, fs, node, off, data, node');
        GapSame(fs0, node0, fs, fs', node', off, data);
      }
    }
  }

  lemma KeptSlots(fs0: Fs, fs: Fs, ino: nat, node: Inode)
    requires ino < TOTAL_INODES && Writing(fs0, fs, ino, node)
    ensures forall j :: 0 <= j < DIRECT_BLOCKS && fs0.inodes[ino].blocks[j] != 0 ==>
      node.blocks[j] == fs0.inodes[ino].blocks[j]
  {
  }

  lemma GapSame(fs0: Fs, node0: Inode, fs: Fs, fs': Fs, done: Inode, off: nat, data: seq<Byte>)
    requires Backed(fs0, node0) && Backed(fs, done) && Backed(fs', done) && Content(fs', done) == Content(fs, done)
    requires GapFile(fs0, node0, fs, done, off, data)
    ensures GapFile(fs0, node0, fs', done, off, data)
  {
    hide Content;
    hide Backed;
  }

  /** At most `size` elements from `offset` on. */
  function Slice(c: seq<Byte>, offset: nat, size: nat): (r: seq<Byte>)
    ensures offset >= |c| ==> r == []
    ensures offset < |c| ==>
      offset + |r| <= |c| && r == c[offset..offset + |r|] && |r| <= size && (|r| == size || offset + |r| == |c|)
  {
    if offset >= |c| then [] else c[offset..if offset + size < |c| then offset + size else |c|]
  }

  lemma ContentLimit(fs: Fs, node: Inode)
    requires Backed(fs, node)
    ensures |Content(fs, node)| <= MAX_FILE
  {
  }

  lemma ContentSize(fs: Fs, node: Inode)
    requires Backed(fs, node) && NodeDense(node)
    ensures |Content(fs, node)| == node.size
  {
    DenseReadable(node);
  }

  /** Density after a write at any offset, gap or not. */
  lemma GapDense(fs0: Fs, node0: Inode, fs: Fs, node: Inode, off: nat, data: seq<Byte>, done: Inode)
    requires Backed(fs0, node0) && Backed(fs, node) && NodeDense(node0) && off + |data| <= MAX_FILE
    requires Spliced(fs0, node0, fs, node, off, data, |data|) && SlotsBelow(node0, node, off, data)
    requires done == node.(size := if off + |data| > node0.size then off + |data| else node0.size)
    ensures data != [] ==>
      (NodeDense(done) <==> forall j :: 0 <= j < DIRECT_BLOCKS && 512 * (j + 1) <= off ==> node0.blocks[j] != 0)
  {
    if data != [] && forall j :: 0 <= j < DIRECT_BLOCKS && 512 * (j + 1) <= off ==> node0.blocks[j] != 0 {
      forall j | 0 <= j < DIRECT_BLOCKS && 512 * j < done.size
        ensures node.blocks[j] != 0
      {
        var p := if off > 512 * j then off else 512 * j;
        if 512 * j >= node0.size && 512 * (j + 1) > off {
          assert p / 512 == j;
          assert ByteAt(fs, node, p) == data[p - off];
        } else if 512 * j < node0.size {
          KeptSlot(fs0, node0, fs, node, off, data, j);
        }
      }
    }
  }

  lemma KeptSlot(fs0: Fs, node0: Inode, fs: Fs, node: Inode, off: nat, data: seq<Byte>, j: nat)
    requires Backed(fs0, node0) && Backed(fs, node) && j < DIRECT_BLOCKS && node0.blocks[j] != 0
    requires off + |data| <= MAX_FILE
    requires Spliced(fs0, node0, fs, node, off, data, |data|)
    ensures node.blocks[j] != 0
  {
    var p := 512 * j;
    assert p / 512 == j;
    if off <= p < off + |data| { assert ByteAt(fs, node, p) == data[p - off]; }
    else { assert ByteAt(fs, node, p) == ByteAt(fs0, node0, p); }
  }

  lemma NothingSpliced(fs: Fs, node: Inode, off: nat, data: seq<Byte>)
    requires Backed(fs, node)
    ensures Spliced(fs, node, fs, node, off, data, 0)
  {
  }

  lemma SlotInRange(fs: Fs, node: Inode, k: nat)
    requires Backed(fs, node) && k < DIRECT_BLOCKS && node.blocks[k] != 0
    ensures node.blocks[k] < TOTAL_BLOCKS
  {
  }

  /** Filling an empty slot moves no byte the file already had. */
  lemma SplicedMoved(fs0: Fs, node0: Inode, fs: Fs, node: Inode, fs': Fs, node': Inode, off: nat, data: seq<Byte>,
                     w: nat, k: nat)
    requires Backed(fs0, node0) && Backed(fs, node) && Backed(fs', node') && w <= |data| && k < DIRECT_BLOCKS
    requires Spliced(fs0, node0, fs, node, off, data, w) && fs'.data == fs.data
    requires forall j :: 0 <= j < DIRECT_BLOCKS && (j != k || node.blocks[j] != 0) ==> node'.blocks[j] == node.blocks[j]
    ensures Spliced(fs0, node0, fs', node', off, data, w)
  {
    forall p | 0 <= p < MAX_FILE && node.blocks[p / 512] != 0
      ensures node'.blocks[p / 512] != 0 && ByteAt(fs', node', p) == ByteAt(fs, node, p)
    {
    }
  }

  lemma SameFs(fs: Fs, ino: nat)
    requires FsOk(fs) && IsFile(fs, ino)
    ensures Confined(fs, fs, ino)
  {
  }

  /** Whatever name leads to the file, the map changes at that name alone. */
  lemma FileWritten(fs: Fs, fs': Fs, ino: nat, data: seq<Byte>)
    requires FsOk(fs) && FsOk(fs') && IsFile(fs, ino) && Confined(fs, fs', ino)
    requires Backed(fs', fs'.inodes[ino]) && Content(fs', fs'.inodes[ino]) == data
    ensures forall name :: LookupName(fs.data[0], name) == ino ==> FileMap(fs') == FileMap(fs)[name := data]
  {
    hide FsOk;
    hide FileMap;
    hide LookupName;
    hide Confined;
    forall name | LookupName(fs.data[0], name) == ino
      ensures FileMap(fs') == FileMap(fs)[name := data]
    {
      MapUpdate(fs, fs', ino, name);
    }
  }

  /** Content depends on the block bitmap and the data blocks alone. */
  lemma SameData(fs: Fs, fs': Fs, node: Inode)
    requires fs'.data == fs.data && fs'.bbits == fs.bbits && Backed(fs, node)
    ensures Backed(fs', node) && Content(fs', node) == Content(fs, node)
  {
  }

  lemma SizeBacked(fs: Fs, node: Inode, size: U32)
    requires Backed(fs, node)
    ensures Backed(fs, node.(size := size))
  {
  }

  lemma WritingFacts(fs0: Fs, fs: Fs, ino: nat, node: Inode)
    requires ino < TOTAL_INODES && Writing(fs0, fs, ino, node)
    ensures Backed(fs, node) && Distinct(node) && fs.inodes == fs0.inodes && fs.ibits == fs0.ibits
    ensures node.size == fs0.inodes[ino].size
  {
  }

  lemma NothingWrote(fs: Fs, node: Inode, data: seq<Byte>)
    requires Backed(fs, node)
    ensures Wrote(fs, node, data, 0)
  {
  }

  /** Filling slot b leaves the blocks before it where they were. */
  lemma WroteMoved(fs: Fs, node: Inode, fs': Fs, node': Inode, data: seq<Byte>, b: nat)
    requires Backed(fs, node) && Backed(fs', node') && Wrote(fs, node, data, b) && b < DIRECT_BLOCKS
    requires fs'.data == fs.data && forall j :: 0 <= j < DIRECT_BLOCKS && j != b ==> node'.blocks[j] == node.blocks[j]
    ensures Wrote(fs', node', data, b)
  {
    forall p | 0 <= p < |data| && p < 512 * b && p < MAX_FILE
      ensures node'.blocks[p / 512] != 0 && ByteAt(fs', node', p) == data[p]
    {
      assert p / 512 < b && ByteAt(fs, node, p) == data[p];
    }
  }

  /** Where the loop of pfs_read_file ends is where the content ends, or max. */
  lemma ReadWhole(node: Inode, b: nat, n: nat, toRead: nat, max: nat)
    requires b <= DIRECT_BLOCKS && n <= toRead && toRead == (if node.size > max then max else node.size)
    requires n == 512 * b || n == toRead <= 512 * b
    requires forall j :: 0 <= j < b ==> node.blocks[j] != 0
    requires n < toRead ==> b == DIRECT_BLOCKS || node.blocks[b] == 0
    ensures n == if max < Readable(node) then max else Readable(node)
  {
    var f := Filled(node, 0);
    assert f >= b || f == DIRECT_BLOCKS;
    if n < toRead {
      assert f == b;
    }
  }

  /** The numbers of the used entries below e, in order. */
  function UsedEntries(s: Sector, e: nat): (u: seq<nat>)
    requires e <= 16
    ensures forall i :: 0 <= i < |u| ==> u[i] < e
  {
    if e == 0 then [] else if Used(s, e - 1) then UsedEntries(s, e - 1) + [e - 1] else UsedEntries(s, e - 1)
  }

  /** The list holds exactly the used entries, each once, in directory order. */
  lemma {:induction false} UsedEntriesExact(s: Sector, e: nat)
    requires e <= 16
    ensures forall i :: 0 <= i < |UsedEntries(s, e)| ==> Used(s, UsedEntries(s, e)[i])
    ensures forall i, j :: 0 <= i < j < |UsedEntries(s, e)| ==> UsedEntries(s, e)[i] < UsedEntries(s, e)[j]
    ensures forall d :: 0 <= d < e && Used(s, d) ==> d in UsedEntries(s, e)
  {
    hide Used;
    if e > 0 { UsedEntriesExact(s, e - 1); }
  }

  lemma {:induction false} UsedPrefix(s: Sector, d: nat, e: nat)
    requires d <= e <= 16
    ensures UsedEntries(s, d) <= UsedEntries(s, e)
  {
    if d < e { UsedPrefix(s, d, e - 1); }
  }

  lemma RootFacts(fs: Fs)
    requires FsOk(fs)
    ensures RootOk(fs)
  {
  }

  lemma NotFound(fs: Fs, name: seq<Byte>)
    requires FsOk(fs)
    ensures LookupName(fs.data[0], name) >= -1
    ensures LookupName(fs.data[0], name) < 0 ==> name !in FileMap(fs)
    ensures |name| <= 27 ==> Truncated(name) == name
  {
    FileMapAt(fs, name);
  }

  /** No directory entry names an inode that is not allocated. */
  lemma Unnamed(fs: Fs, n: nat)
    requires FsOk(fs) && n < TOTAL_INODES && !fs.ibits[n]
    ensures n > 1 && forall e :: 0 <= e < 16 && Used(fs.data[0], e) ==> EntryInode(fs.data[0], e) != n
  {
    hide EntryInode;
  }

  lemma CreateEntry(fs: Fs, mid: Fs, n: nat, name: seq<Byte>)
    requires FsOk(fs) && FsOk(mid) && IsName(name) && 0 < n < TOTAL_INODES && !fs.ibits[n] && mid == WithInode(fs, n)
    requires forall e :: 0 <= e < 16 && Used(fs.data[0], e) ==> EntryInode(fs.data[0], e) != n
    requires FileMap(mid) == FileMap(fs) && FreeEntry(fs.data[0], 0) < 16
    ensures FsOk(WithEntry(mid, n, name)) && IsFile(WithEntry(mid, n, name), n)
    ensures Dense(mid) ==> Dense(WithEntry(mid, n, name))
    ensures FileMap(WithEntry(mid, n, name)) == if LookupName(fs.data[0], Truncated(name)) < 0
                                                then FileMap(fs)[Truncated(name) := []] else FileMap(fs)
    ensures LookupName(WithEntry(mid, n, name).data[0], name)
         == if |name| <= 27 && LookupName(fs.data[0], name) < 0 then n else LookupName(fs.data[0], name)
  {
    hide FsOk;
    hide FileMap;
    hide LookupName;
    hide EntryInode;
    hide EncodeEntry;
    NewEntry(mid, n, name);
    NewEntryLookup(mid, n, name, name);
    FileBacked(mid, n);
    assert Content(mid, mid.inodes[n]) == [];
    assert forall m: nat :: IsFile(WithEntry(mid, n, name), m) <==> IsFile(mid, m);
  }
}
