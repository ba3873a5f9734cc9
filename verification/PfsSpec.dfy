/**
 What PumpsFS means: which blocks belong to which file, what a file holds, and the map from names to bytes
 that the directory and the inodes represent.
 */
module PfsSpec {
  import opened PfsLayout

  predicate IsFile(fs: Fs, n: nat) {
    n < TOTAL_INODES && fs.ibits[n] && fs.inodes[n].kind == TYPE_FILE
  }

  /** Every block an inode names is a real block, marked used. */
  ghost predicate Backed(fs: Fs, node: Inode) {
    forall j :: 0 <= j < DIRECT_BLOCKS && node.blocks[j] != 0 ==>
      node.blocks[j] < TOTAL_BLOCKS && fs.bbits[node.blocks[j]]
  }

  ghost predicate Distinct(node: Inode) {
    forall i, j :: 0 <= i < j < DIRECT_BLOCKS && node.blocks[i] != 0 ==> node.blocks[i] != node.blocks[j]
  }

  /** Two inodes name no block in common. */
  ghost predicate Apart(a: Inode, b: Inode) {
    forall i, j :: 0 <= i < DIRECT_BLOCKS && 0 <= j < DIRECT_BLOCKS && a.blocks[i] != 0 ==> a.blocks[i] != b.blocks[j]
  }

  ghost predicate Names(node: Inode, b: nat) { exists j :: 0 <= j < DIRECT_BLOCKS && node.blocks[j] == b }

  /** Each block slot of each allocated file is in range, marked used, and the only reference to its block. */
  ghost predicate BlocksOk(fs: Fs) {
    && (forall n: nat :: IsFile(fs, n) ==> Backed(fs, fs.inodes[n]) && Distinct(fs.inodes[n]))
    && (forall n: nat, m: nat :: IsFile(fs, n) && IsFile(fs, m) && n != m ==> Apart(fs.inodes[n], fs.inodes[m]))
  }

  /** The reserved records, and the one directory block: its entries name allocated files, each only once. */
  ghost predicate RootOk(fs: Fs) {
    && fs.ibits[0] && fs.ibits[1] && fs.bbits[0]
    && fs.inodes[0].kind != TYPE_FILE
    && fs.inodes[1].kind == TYPE_DIR && fs.inodes[1].blocks[0] == 0
  }

  predicate Used(s: Sector, e: nat) requires e < 16 { EntryInode(s, e) != 0 }

  /** The used entries come first, their names end inside the buffer, and only the root is named twice. */
  ghost predicate DirectoryOk(s: Sector) {
    && (forall d, e :: 0 <= d < e < 16 && Used(s, e) ==> Used(s, d))
    && (forall e :: 0 <= e < 16 && Used(s, e) ==> EntryBytes(s, e)[27] == 0)
    && (forall d, e :: 0 <= d < e < 16 && Used(s, d) && Used(s, e) && EntryInode(s, d) == EntryInode(s, e) ==>
          EntryInode(s, d) == 1)
  }

  ghost predicate EntriesOk(fs: Fs) {
    && DirectoryOk(fs.data[0])
    && (forall e :: 0 <= e < 16 && Used(fs.data[0], e) ==>
          EntryInode(fs.data[0], e) == 1 || IsFile(fs, EntryInode(fs.data[0], e)))
  }

  ghost predicate FsOk(fs: Fs) { RootOk(fs) && BlocksOk(fs) && EntriesOk(fs) }

  /** Every block slot below the size of the file is filled, and the size fits. */
  ghost predicate NodeDense(node: Inode) {
    && node.size <= MAX_FILE
    && forall j :: 0 <= j < DIRECT_BLOCKS && 512 * j < node.size ==> node.blocks[j] != 0
  }

  ghost predicate Dense(fs: Fs) { forall n: nat :: IsFile(fs, n) ==> NodeDense(fs.inodes[n]) }

  // ---------------------------------------------------------------- contents

  /** How many leading slots are filled: pfs_read_file stops at the first empty one. */
  function Filled(node: Inode, j: nat): (n: nat)
    requires j <= DIRECT_BLOCKS
    ensures j <= n <= DIRECT_BLOCKS
    ensures forall i :: j <= i < n ==> node.blocks[i] != 0
    ensures n < DIRECT_BLOCKS ==> node.blocks[n] == 0
    decreases DIRECT_BLOCKS - j
  {
    if j == DIRECT_BLOCKS || node.blocks[j] == 0 then j else Filled(node, j + 1)
  }

  function Readable(node: Inode): (n: nat)
    ensures n <= node.size && n <= MAX_FILE
  {
    if node.size <= 512 * Filled(node, 0) then node.size else 512 * Filled(node, 0)
  }

  /** Byte p of a file: position p % 512 of the block in slot p / 512. */
  function ByteAt(fs: Fs, node: Inode, p: nat): Byte
    requires p < MAX_FILE && node.blocks[p / 512] < TOTAL_BLOCKS
  {
    fs.data[node.blocks[p / 512]][p % 512]
  }

  ghost function Content(fs: Fs, node: Inode): (c: seq<Byte>)
    requires Backed(fs, node)
    ensures |c| == Readable(node)
    ensures forall p :: 0 <= p < |c| ==> node.blocks[p / 512] != 0 && c[p] == ByteAt(fs, node, p)
  {
    seq(Readable(node), p requires 0 <= p < Readable(node) => ByteAt(fs, node, p))
  }

  lemma DenseReadable(node: Inode)
    requires NodeDense(node)
    ensures Readable(node) == node.size
  {
    var n := Filled(node, 0);
    if n < DIRECT_BLOCKS { assert !(512 * n < node.size); }
  }

  // ---------------------------------------------------------------- names

  /** The first used entry at or after e that holds the name, 16 if there is none. */
  function FindEntry(s: Sector, name: seq<Byte>, e: nat): (d: nat)
    requires e <= 16
    ensures e <= d <= 16
    ensures d < 16 ==> Used(s, d) && EntryName(s, d) == name
    ensures forall i :: e <= i < d ==> !(Used(s, i) && EntryName(s, i) == name)
    decreases 16 - e
  {
    if e == 16 then 16 else if Used(s, e) && EntryName(s, e) == name then e else FindEntry(s, name, e + 1)
  }

  /** pfs_lookup: the inode number, or -1. */
  function LookupName(s: Sector, name: seq<Byte>): int {
    var e := FindEntry(s, name, 0);
    if e < 16 then EntryInode(s, e) else -1
  }

  ghost function NamesOf(s: Sector): set<seq<Byte>> {
    set e | 0 <= e < 16 && Used(s, e) :: EntryName(s, e)
  }

  lemma NamesFound(s: Sector, name: seq<Byte>)
    ensures name in NamesOf(s) <==> FindEntry(s, name, 0) < 16
  {
  }

  /** The map from names to bytes that the disk represents; "." and ".." are not files. */
  ghost function FileMap(fs: Fs): map<seq<Byte>, seq<Byte>>
    requires FsOk(fs)
  {
    map name | name in NamesOf(fs.data[0]) && HasFile(fs, name) :: Content(fs, fs.inodes[LookupName(fs.data[0], name)])
  }

  predicate HasFile(fs: Fs, name: seq<Byte>) {
    LookupName(fs.data[0], name) >= 0 && IsFile(fs, LookupName(fs.data[0], name))
  }

  lemma FileMapAt(fs: Fs, name: seq<Byte>)
    requires FsOk(fs)
    ensures name in FileMap(fs) <==> HasFile(fs, name)
    ensures HasFile(fs, name) ==>
      var node := fs.inodes[LookupName(fs.data[0], name)]; Backed(fs, node) && FileMap(fs)[name] == Content(fs, node)
  {
    NamesFound(fs.data[0], name);
  }

  // ---------------------------------------------------------------- one file changes

  /** Only file ino, its blocks and free blocks may differ. */
  ghost predicate Confined(fs: Fs, fs': Fs, ino: nat)
    requires ino < TOTAL_INODES
  {
    && fs'.ibits == fs.ibits
    && (forall b :: 0 <= b < TOTAL_BLOCKS && fs.bbits[b] ==> fs'.bbits[b])
    && (forall m :: 0 <= m < TOTAL_INODES && m != ino ==> fs'.inodes[m] == fs.inodes[m])
    && fs'.inodes[ino].kind == fs.inodes[ino].kind
    && (forall b :: 0 <= b < TOTAL_BLOCKS && fs.bbits[b] && (b == 0 || !Names(fs.inodes[ino], b)) ==>
        fs'.data[b] == fs.data[b])
  }

  lemma OthersSame(fs: Fs, fs': Fs, ino: nat, m: nat)
    requires FsOk(fs) && IsFile(fs, ino) && Confined(fs, fs', ino) && IsFile(fs, m) && m != ino
    ensures Backed(fs, fs.inodes[m]) && Backed(fs', fs.inodes[m])
    ensures Content(fs', fs.inodes[m]) == Content(fs, fs.inodes[m])
  {
    var node := fs.inodes[m];
    assert Apart(fs.inodes[m], fs.inodes[ino]);
    forall j | 0 <= j < DIRECT_BLOCKS && node.blocks[j] != 0
      ensures fs'.data[node.blocks[j]] == fs.data[node.blocks[j]]
    {
      assert !Names(fs.inodes[ino], node.blocks[j]);
    }
  }

  /** A write to the file called name, and to nothing else, is one update of the map. */
  lemma MapUpdate(fs: Fs, fs': Fs, ino: nat, name: seq<Byte>)
    requires FsOk(fs) && FsOk(fs') && IsFile(fs, ino) && Confined(fs, fs', ino)
    requires LookupName(fs.data[0], name) == ino
    ensures FileMap(fs') == FileMap(fs)[name := Content(fs', fs'.inodes[ino])]
  {
    hide LookupName;
    hide FileMap;
    hide FsOk;
    hide Confined;
    SameRoot(fs, fs', ino);
    FileBacked(fs', ino);
    forall n
      ensures n in FileMap(fs') <==> n == name || n in FileMap(fs)
      ensures n in FileMap(fs') ==>
        FileMap(fs')[n] == if n == name then Content(fs', fs'.inodes[ino]) else FileMap(fs)[n]
    {
      MapUpdateAt(fs, fs', ino, name, n);
    }
  }

  lemma MapUpdateAt(fs: Fs, fs': Fs, ino: nat, name: seq<Byte>, n: seq<Byte>)
    requires FsOk(fs) && FsOk(fs') && IsFile(fs, ino) && Confined(fs, fs', ino)
    requires LookupName(fs.data[0], name) == ino
    ensures n in FileMap(fs') <==> n == name || n in FileMap(fs)
    ensures n in FileMap(fs') ==>
      FileMap(fs')[n] == if n == name then Content(fs', fs'.inodes[ino]) else FileMap(fs)[n]
  {
    hide LookupName;
    hide FileMap;
    hide FsOk;
    SameRoot(fs, fs', ino);
    FileMapAt(fs, n);
    FileMapAt(fs', n);
    if n != name && HasFile(fs, n) {
      OneInodeOneName(fs, name, n);
      OthersSame(fs, fs', ino, LookupName(fs.data[0], n));
    }
  }

  lemma FileBacked(fs: Fs, n: nat)
    requires FsOk(fs) && IsFile(fs, n)
    ensures Backed(fs, fs.inodes[n])
  {
  }

  lemma SameRoot(fs: Fs, fs': Fs, ino: nat)
    requires FsOk(fs) && IsFile(fs, ino) && Confined(fs, fs', ino)
    ensures fs'.data[0] == fs.data[0]
    ensures forall m: nat :: IsFile(fs', m) <==> IsFile(fs, m)
  {
  }

  lemma OneInodeOneName(fs: Fs, a: seq<Byte>, b: seq<Byte>)
    requires FsOk(fs) && a != b
    requires LookupName(fs.data[0], a) >= 0 && IsFile(fs, LookupName(fs.data[0], a))
    ensures LookupName(fs.data[0], a) != LookupName(fs.data[0], b)
  {
    var d, e := FindEntry(fs.data[0], a, 0), FindEntry(fs.data[0], b, 0);
    if d < 16 && e < 16 {
      assert Used(fs.data[0], d) && Used(fs.data[0], e) && d != e;
    }
  }

  // ---------------------------------------------------------------- creating a file

  /** pfs_create up to the directory: inode n is allocated as an empty file. */
  function WithInode(fs: Fs, n: nat): Fs
    requires n < TOTAL_INODES
  {
    Fs(fs.ibits[n := true], fs.bbits, fs.inodes[n := EmptyFile()], fs.data)
  }

  /** An inode that no entry names leaves the map as it is. */
  lemma NewInode(fs: Fs, n: nat)
    requires FsOk(fs) && n < TOTAL_INODES && !fs.ibits[n]
    ensures FsOk(WithInode(fs, n)) && FileMap(WithInode(fs, n)) == FileMap(fs)
  {
    hide FileMap;
    hide FsOk;
    hide WithInode;
    NewInodeOk(fs, n);
    forall name
      ensures name in FileMap(WithInode(fs, n)) <==> name in FileMap(fs)
      ensures name in FileMap(fs) ==> FileMap(WithInode(fs, n))[name] == FileMap(fs)[name]
    {
      NewInodeAt(fs, n, name);
    }
  }

  lemma NewInodeAt(fs: Fs, n: nat, name: seq<Byte>)
    requires FsOk(fs) && n < TOTAL_INODES && !fs.ibits[n] && FsOk(WithInode(fs, n))
    ensures name in FileMap(WithInode(fs, n)) <==> name in FileMap(fs)
    ensures name in FileMap(fs) ==> FileMap(WithInode(fs, n))[name] == FileMap(fs)[name]
  {
    hide FileMap;
    hide FsOk;
    hide LookupName;
    FileMapAt(fs, name);
    FileMapAt(WithInode(fs, n), name);
    NotNamed(fs, n, name);
  }

  lemma NewInodeDense(fs: Fs, n: nat)
    requires Dense(fs) && n < TOTAL_INODES && !fs.ibits[n]
    ensures Dense(WithInode(fs, n))
  {
    forall m: nat | IsFile(WithInode(fs, n), m)
      ensures NodeDense(WithInode(fs, n).inodes[m])
    {
      if m != n { assert IsFile(fs, m); }
    }
  }

  lemma NewInodeOk(fs: Fs, n: nat)
    requires FsOk(fs) && n < TOTAL_INODES && !fs.ibits[n]
    ensures FsOk(WithInode(fs, n))
  {
    hide EntryInode;
    hide EntryBytes;
    var fs' := WithInode(fs, n);
    assert forall m: nat :: IsFile(fs', m) <==> m == n || IsFile(fs, m);
  }

  lemma NotNamed(fs: Fs, n: nat, name: seq<Byte>)
    requires FsOk(fs) && n < TOTAL_INODES && !fs.ibits[n]
    ensures LookupName(fs.data[0], name) != n
  {
  }

  function FreeEntry(s: Sector, e: nat): (d: nat)
    requires e <= 16
    ensures e <= d <= 16 && (d < 16 ==> !Used(s, d)) && forall i :: e <= i < d ==> Used(s, i)
    decreases 16 - e
  {
    if e == 16 || !Used(s, e) then e else FreeEntry(s, e + 1)
  }

  /** pfs_dir_add: the entry goes into the first free slot. */
  function WithEntry(fs: Fs, n: U32, name: seq<Byte>): Fs
    requires FreeEntry(fs.data[0], 0) < 16
  {
    fs.(data := fs.data[0 := EncodeEntry(fs.data[0], FreeEntry(fs.data[0], 0), n, name)])
  }

  /** Entering file n under a name adds that name, cut to 27 characters, unless an earlier entry has it. */
  lemma NewEntry(fs: Fs, n: nat, name: seq<Byte>)
    requires FsOk(fs) && n > 0 && IsFile(fs, n) && IsName(name) && FreeEntry(fs.data[0], 0) < 16
    requires forall e :: 0 <= e < 16 && Used(fs.data[0], e) ==> EntryInode(fs.data[0], e) != n
    ensures FsOk(WithEntry(fs, n, name))
    ensures FileMap(WithEntry(fs, n, name))
         == if LookupName(fs.data[0], Truncated(name)) >= 0 then FileMap(fs)
            else FileMap(fs)[Truncated(name) := Content(fs, fs.inodes[n])]
  {
    hide FileMap;
    hide FsOk;
    hide LookupName;
    hide WithEntry;
    hide FreeEntry;
    hide Used;
    hide Content;
    hide Truncated;
    hide EntryInode;
    hide Backed;
    NewEntryOk(fs, n, name);
    FileBacked(fs, n);
    var m, m' := FileMap(fs), FileMap(WithEntry(fs, n, name));
    var added := LookupName(fs.data[0], Truncated(name)) < 0;
    forall k
      ensures k in m' <==> k in m || (k == Truncated(name) && added)
      ensures k in m' ==> m'[k] == if k == Truncated(name) && added then Content(fs, fs.inodes[n]) else m[k]
    {
      NewEntryAt(fs, n, name, k);
    }
    OneMore(m, m', Truncated(name), Content(fs, fs.inodes[n]), added);
  }

  /** A map that differs from another in one new binding at most. */
  lemma OneMore(m: map<seq<Byte>, seq<Byte>>, m': map<seq<Byte>, seq<Byte>>, key: seq<Byte>, value: seq<Byte>,
                added: bool)
    requires forall k :: k in m' <==> k in m || (k == key && added)
    requires forall k :: k in m' ==> m'[k] == if k == key && added then value else m[k]
    ensures m' == if added then m[key := value] else m
  {
  }

  ghost predicate NewEntryView(fs: Fs, fs': Fs, n: nat, name: seq<Byte>, k: seq<Byte>)
    requires FsOk(fs) && FsOk(fs') && IsFile(fs, n) && Backed(fs, fs.inodes[n])
  {
    var added := k == Truncated(name) && LookupName(fs.data[0], k) < 0;
    && (k in FileMap(fs') <==> k in FileMap(fs) || added)
    && (k in FileMap(fs') ==> FileMap(fs')[k] == if added then Content(fs, fs.inodes[n]) else FileMap(fs)[k])
  }

  lemma NewEntryAt(fs: Fs, n: nat, name: seq<Byte>, k: seq<Byte>)
    requires FsOk(fs) && IsFile(fs, n) && Backed(fs, fs.inodes[n]) && IsName(name) && FreeEntry(fs.data[0], 0) < 16
    requires FsOk(WithEntry(fs, n, name)) && n > 0
    ensures NewEntryView(fs, WithEntry(fs, n, name), n, name, k)
  {
    hide FileMap;
    hide FsOk;
    hide LookupName;
    hide Content;
    var fs' := WithEntry(fs, n, name);
    NewEntryLookup(fs, n, name, k);
    FileMapAt(fs, k);
    FileMapAt(fs', k);
    SameContents(fs, fs', n);
    if HasFile(fs, k) { SameContents(fs, fs', LookupName(fs.data[0], k)); }
  }

  lemma SameContents(fs: Fs, fs': Fs, m: nat)
    requires FsOk(fs) && IsFile(fs, m) && fs'.inodes == fs.inodes && fs'.bbits == fs.bbits
    requires forall b :: 0 < b < TOTAL_BLOCKS ==> fs'.data[b] == fs.data[b]
    ensures Backed(fs, fs.inodes[m]) && Backed(fs', fs.inodes[m])
    ensures Content(fs', fs.inodes[m]) == Content(fs, fs.inodes[m])
  {
  }

  lemma NewEntryOk(fs: Fs, n: nat, name: seq<Byte>)
    requires FsOk(fs) && n > 0 && IsFile(fs, n) && IsName(name) && FreeEntry(fs.data[0], 0) < 16
    requires forall e :: 0 <= e < 16 && Used(fs.data[0], e) ==> EntryInode(fs.data[0], e) != n
    ensures FsOk(WithEntry(fs, n, name))
  {
    hide Backed;
    hide Apart;
    hide EncodeEntry;
    hide DirectoryOk;
    hide EntryInode;
    NewEntryDirectory(fs.data[0], n, name);
    BlocksSame(fs, WithEntry(fs, n, name));
    assert forall m: nat :: IsFile(WithEntry(fs, n, name), m) <==> IsFile(fs, m);
  }

  lemma NewEntryDirectory(s: Sector, n: U32, name: seq<Byte>)
    requires DirectoryOk(s) && n > 0 && IsName(name) && FreeEntry(s, 0) < 16
    requires forall e :: 0 <= e < 16 && Used(s, e) ==> EntryInode(s, e) != n
    ensures var t := EncodeEntry(s, FreeEntry(s, 0), n, name);
            && DirectoryOk(t)
            && forall d :: 0 <= d < 16 ==> EntryInode(t, d) == if d == FreeEntry(s, 0) then n else EntryInode(s, d)
  {
    hide EncodeEntry;
    hide EntryInode;
    hide EntryBytes;
    var e := FreeEntry(s, 0);
    var t := EncodeEntry(s, e, n, name);
    forall d | 0 <= d < 16
      ensures EntryInode(t, d) == if d == e then n else EntryInode(s, d)
      ensures EntryBytes(t, d) == if d == e then NameBuffer(name) else EntryBytes(s, d)
    {
      EntryRoundTrip(s, e, n, name, d);
    }
    assert NameBuffer(name)[27] == 0;
    forall c, d | 0 <= c < d < 16 && Used(t, d)
      ensures Used(t, c)
    {
      assert d == e || Used(s, d);
    }
  }

  lemma BlocksSame(fs: Fs, fs': Fs)
    requires BlocksOk(fs) && fs'.ibits == fs.ibits && fs'.inodes == fs.inodes
    requires forall b :: 0 <= b < TOTAL_BLOCKS && fs.bbits[b] ==> fs'.bbits[b]
    ensures BlocksOk(fs')
  {
    assert forall m: nat :: IsFile(fs', m) <==> IsFile(fs, m);
  }

  lemma NewEntryLookup(fs: Fs, n: nat, name: seq<Byte>, k: seq<Byte>)
    requires FsOk(fs) && 0 < n < TOTAL_INODES && IsName(name) && FreeEntry(fs.data[0], 0) < 16
    ensures LookupName(WithEntry(fs, n, name).data[0], k)
         == if k == Truncated(name) && LookupName(fs.data[0], k) < 0 then n else LookupName(fs.data[0], k)
  {
    hide EncodeEntry;
    hide EntryInode;
    hide EntryName;
    hide BlocksOk;
    var s, e := fs.data[0], FreeEntry(fs.data[0], 0);
    var t := EncodeEntry(s, e, n, name);
    forall d | 0 <= d < 16
      ensures EntryInode(t, d) == if d == e then n else EntryInode(s, d)
      ensures EntryName(t, d) == if d == e then Truncated(name) else EntryName(s, d)
    {
      EntryRoundTrip(s, e, n, name, d);
    }
    FoundAfterInsert(s, t, e, Truncated(name), k);
  }

  /** Filling the first free entry, which comes after all used ones, changes no successful search. */
  lemma FoundAfterInsert(s: Sector, t: Sector, e: nat, name: seq<Byte>, k: seq<Byte>)
    requires e < 16 && !Used(s, e) && Used(t, e) && EntryName(t, e) == name
    requires forall d :: 0 <= d < 16 && d != e ==> (Used(t, d) <==> Used(s, d)) && EntryName(t, d) == EntryName(s, d)
    requires forall c, d :: 0 <= c < d < 16 && Used(s, d) ==> Used(s, c)
    ensures FindEntry(t, k, 0) == if FindEntry(s, k, 0) < 16 then FindEntry(s, k, 0) else if k == name then e else 16
  {
    hide EntryName;
    hide Used;
    var f, g := FindEntry(s, k, 0), FindEntry(t, k, 0);
    if f < 16 {
      assert f < e;
      assert g == f;
    } else if k == name {
      assert g == e;
    }
  }
}
