/** A run of PumpsFS, from formatting on, that leaves a file whose bytes can no longer be read. */
module PfsWitness {
  import opened PfsLayout
  import opened PfsSpec
  import opened PfsWrite
  import opened PfsGap
  import opened Pfs

  lemma RootHasRoom()
    ensures FreeEntry(RootDirectory(), 0) < 16
  {
    hide EncodeEntry;
    hide EntryInode;
    hide EntryBytes;
    hide EntryName;
    hide NameBuffer;
    hide ZeroSector;
    hide FreeEntry;
    var s, t := ZeroSector(), EncodeEntry(ZeroSector(), 0, 1, [46]);
    EntryRoundTrip(s, 0, 1, [46], 2);
    EntryRoundTrip(t, 1, 1, [46, 46], 2);
    ZeroEntry();
    FreeAt(RootDirectory(), 0, 2);
  }

  lemma ZeroEntry()
    ensures EntryInode(ZeroSector(), 2) == 0
  {
  }

  lemma {:induction false} FreeAt(s: Sector, e: nat, f: nat)
    requires e <= f < 16 && !Used(s, f)
    ensures FreeEntry(s, e) <= f
    decreases f - e
  {
    if e < f { FreeAt(s, e + 1, f); }
  }

  /** An inode has slots for twelve blocks, so a write cannot have taken thirteen. */
  lemma NotAllTaken(fs0: Fs, fs: Fs, node: Inode)
    requires NewlyNamed(fs0, fs, node) && forall b :: 1 <= b <= 13 ==> !fs0.bbits[b]
    ensures exists b :: 0 <= b < TOTAL_BLOCKS && !fs.bbits[b]
  {
    var named := set j | 0 <= j < 12 :: node.blocks[j];
    SlotsFew(node, 12);
    var thirteen := {1, 2, 3, 4, 5, 6, 7, 8, 9, 10, 11, 12, 13};
    if forall b :: 1 <= b <= 13 ==> fs.bbits[b] {
      forall b: nat | b in thirteen
        ensures b in named
      {
        assert Names(node, b);
      }
      NotMore(thirteen, named);
    }
  }

  lemma {:induction false} SlotsFew(node: Inode, n: nat)
    requires n <= 12
    ensures |set j | 0 <= j < n :: node.blocks[j]| <= n
  {
    if n > 0 {
      SlotsFew(node, n - 1);
      assert (set j | 0 <= j < n :: node.blocks[j]) ==
        (set j | 0 <= j < n - 1 :: node.blocks[j]) + {node.blocks[n - 1]};
    }
  }

  lemma NotMore(a: set<nat>, b: set<U32>)
    requires forall x :: x in a ==> x in b
    ensures |a| <= |b|
  {
    var d := set x | x in b && x !in a;
    assert b == a + d;
  }

  lemma EmptyRead(fs: Fs, node: Inode, fs': Fs, done: Inode)
    requires node == EmptyFile() && Backed(fs, node) && Backed(fs', done) && GapFile(fs, node, fs', done, 1024, [7])
    ensures Content(fs', done) == []
  {
    assert node.blocks[0] == 0;
    assert !Bridged(node, 1024, [7]);
    assert Filled(node, 0) == 0;
  }

  lemma EmptyDense()
    ensures NodeDense(EmptyFile())
  {
  }

  /** Format, mount, and create a file. */
  method NewFile(disk: PumpsFs) returns (ino: int)
    modifies disk
    ensures disk.Mounted() && FsOk(disk.fs) && 0 <= ino < TOTAL_INODES && IsFile(disk.fs, ino)
    ensures disk.fs.inodes[ino] == EmptyFile() && forall b :: 1 <= b <= 13 ==> !disk.fs.bbits[b]
  {
    hide Holds;
    hide FsOk;
    hide Dense;
    hide FileMap;
    hide LookupName;
    hide SuperblockAt;
    hide RootDirectory;
    hide FreeEntry;
    hide EmptyFile;
    disk.Mkfs();
    var mounted := disk.Mount();
    ghost var formatted := disk.fs;
    RootHasRoom();
    ino := disk.Create([97]);
    assert !formatted.ibits[2];
  }

  /** One byte written at offset 1024 of an empty file. */
  method MakeHole(disk: PumpsFs, ino: U32)
    requires disk.Mounted() && FsOk(disk.fs) && ino < TOTAL_INODES && IsFile(disk.fs, ino)
    requires disk.fs.inodes[ino] == EmptyFile() && forall b :: 1 <= b <= 13 ==> !disk.fs.bbits[b]
    modifies disk
    ensures disk.Mounted() && FsOk(disk.fs) && IsFile(disk.fs, ino) && disk.fs.inodes[ino].size == 1025
    ensures Backed(disk.fs, disk.fs.inodes[ino]) && Content(disk.fs, disk.fs.inodes[ino]) == []
  {
    hide FsOk;
    hide FileMap;
    hide LookupName;
    hide Content;
    hide Backed;
    hide GapFile;
    hide NodeDense;
    hide PumpsFs.Mounted;
    hide NewlyNamed;
    ghost var before := disk.fs;
    EmptyDense();
    var ok := disk.WriteFileAt(ino, 1024, [7]);
    StillFile(before, disk.fs, ino);
    if !ok {
      ghost var node: Inode :| NewlyNamed(before, disk.fs, node);
      NotAllTaken(before, disk.fs, node);
    }
    EmptySize();
    EmptyRead(before, before.inodes[ino], disk.fs, disk.fs.inodes[ino]);
  }

  lemma StillFile(fs: Fs, fs': Fs, ino: nat)
    requires ino < TOTAL_INODES && IsFile(fs, ino) && Confined(fs, fs', ino)
    ensures IsFile(fs', ino)
  {
  }

  lemma EmptySize()
    ensures EmptyFile().size == 0
  {
  }

  /** Format, create a file, write one byte at offset 1024: the file has 1025 bytes, and none can be read. */
  method UnreadableFile(disk: PumpsFs) returns (ino: int, n: int)
    modifies disk
    ensures 0 <= ino < TOTAL_INODES && IsFile(disk.fs, ino) && disk.fs.inodes[ino].size == 1025 && n == 0
  {
    hide FsOk;
    hide Content;
    hide Backed;
    hide PumpsFs.Mounted;
    ino := NewFile(disk);
    MakeHole(disk, ino);
    var bytes;
    n, bytes := disk.ReadFile(ino, MAX_FILE);
  }
}
