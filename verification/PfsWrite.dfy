/**
 The steps of the two write paths of PumpsFS, on the typed file system: what holds between two sectors of a
 write, and what a finished or abandoned write leaves behind.
 */
module PfsWrite {
  import opened PfsLayout
  import opened PfsSpec

  /** The in-memory inode could be stored as inode ino. */
  ghost predicate Fits(fs: Fs, ino: nat, node: Inode) {
    && Backed(fs, node)
    && Distinct(node)
    && (forall m: nat :: IsFile(fs, m) && m != ino ==> Apart(node, fs.inodes[m]) && Apart(fs.inodes[m], node))
  }

  /** A write to file ino that started in fs0 has reached fs, with `node` in memory. */
  ghost predicate Writing(fs0: Fs, fs: Fs, ino: nat, node: Inode)
    requires ino < TOTAL_INODES
  {
    var node0 := fs0.inodes[ino];
    && fs.ibits == fs0.ibits && fs.inodes == fs0.inodes
    && (forall b :: 0 <= b < TOTAL_BLOCKS && fs0.bbits[b] ==> fs.bbits[b])
    && (forall b :: 0 <= b < TOTAL_BLOCKS && fs0.bbits[b] && (b == 0 || !Names(node0, b)) ==> fs.data[b] == fs0.data[b])
    && node.kind == node0.kind && node.size == node0.size
    && Fits(fs, ino, node)
    && (forall j :: 0 <= j < DIRECT_BLOCKS && node0.blocks[j] != 0 ==> node.blocks[j] == node0.blocks[j])
    && (forall j :: 0 <= j < DIRECT_BLOCKS && node0.blocks[j] == 0 && node.blocks[j] != 0 ==>
        !fs0.bbits[node.blocks[j]])
    && NewlyNamed(fs0, fs, node)
  }

  /** Every block marked meanwhile is in a slot of the inode. */
  ghost predicate NewlyNamed(fs0: Fs, fs: Fs, node: Inode) {
    forall b :: 0 <= b < TOTAL_BLOCKS && fs.bbits[b] && !fs0.bbits[b] ==> Names(node, b)
  }

  lemma NamesAlloc(fs0: Fs, fs: Fs, node: Inode, j: nat, blk: nat)
    requires NewlyNamed(fs0, fs, node) && j < DIRECT_BLOCKS && node.blocks[j] == 0 && blk < TOTAL_BLOCKS
    requires fs0.bbits[0]
    ensures NewlyNamed(fs0, fs.(bbits := fs.bbits[blk := true]), node.(blocks := node.blocks[j := blk]))
  {
    var node' := node.(blocks := node.blocks[j := blk]);
    forall b | 0 <= b < TOTAL_BLOCKS && fs.bbits[blk := true][b] && !fs0.bbits[b]
      ensures Names(node', b)
    {
      if b == blk {
        assert node'.blocks[j] == b;
      } else {
        var i :| 0 <= i < DIRECT_BLOCKS && node.blocks[i] == b;
        assert node'.blocks[i] == b;
      }
    }
  }

  lemma WritingStart(fs: Fs, ino: nat)
    requires FsOk(fs) && IsFile(fs, ino)
    ensures Writing(fs, fs, ino, fs.inodes[ino])
  {
  }

  /** A block fresh from the bitmap goes into an empty slot. */
  lemma WritingAlloc(fs0: Fs, fs: Fs, ino: nat, node: Inode, j: nat, blk: nat)
    requires FsOk(fs0) && IsFile(fs0, ino) && Writing(fs0, fs, ino, node)
    requires j < DIRECT_BLOCKS && node.blocks[j] == 0 && blk < TOTAL_BLOCKS && !fs.bbits[blk]
    ensures blk != 0 && Writing(fs0, fs.(bbits := fs.bbits[blk := true]), ino, node.(blocks := node.blocks[j := blk]))
  {
    var fs', node' := fs.(bbits := fs.bbits[blk := true]), node.(blocks := node.blocks[j := blk]);
    NamesAlloc(fs0, fs, node, j, blk);
    hide NewlyNamed;
    forall m: nat | IsFile(fs', m) && m != ino
      ensures Apart(node', fs.inodes[m]) && Apart(fs.inodes[m], node')
    {
      assert IsFile(fs0, m) && Backed(fs0, fs.inodes[m]);
      assert Apart(node, fs.inodes[m]) && Apart(fs.inodes[m], node);
    }
  }

  /** A sector of the file is stored. */
  lemma WritingStore(fs0: Fs, fs: Fs, ino: nat, node: Inode, j: nat, s: Sector)
    requires FsOk(fs0) && IsFile(fs0, ino) && Writing(fs0, fs, ino, node)
    requires j < DIRECT_BLOCKS && node.blocks[j] != 0
    ensures node.blocks[j] < TOTAL_BLOCKS && Writing(fs0, fs.(data := fs.data[node.blocks[j] := s]), ino, node)
  {
    var fs' := fs.(data := fs.data[node.blocks[j] := s]);
    assert forall m: nat :: IsFile(fs', m) <==> IsFile(fs, m);
    assert fs0.bbits[node.blocks[j]] ==> Names(fs0.inodes[ino], node.blocks[j]);
  }

  /** An abandoned write leaves a good file system, in which only this file's bytes may differ. */
  lemma WritingAbort(fs0: Fs, fs: Fs, ino: nat, node: Inode)
    requires FsOk(fs0) && IsFile(fs0, ino) && Writing(fs0, fs, ino, node)
    ensures FsOk(fs) && Confined(fs0, fs, ino)
  {
    hide EntryInode;
    hide EntryBytes;
    assert forall m: nat :: IsFile(fs, m) <==> IsFile(fs0, m);
    BlocksSame(fs0, fs);
  }

  /** Storing the inode ends a write. */
  lemma WritingDone(fs0: Fs, fs: Fs, ino: nat, node: Inode, size: U32)
    requires FsOk(fs0) && IsFile(fs0, ino) && Writing(fs0, fs, ino, node)
    ensures FsOk(fs.(inodes := fs.inodes[ino := node.(size := size)]))
    ensures Confined(fs0, fs.(inodes := fs.inodes[ino := node.(size := size)]), ino)
  {
    var fs' := fs.(inodes := fs.inodes[ino := node.(size := size)]);
    hide EntryInode;
    hide EntryBytes;
    assert forall m: nat :: IsFile(fs', m) <==> IsFile(fs0, m);
    WritingBlocks(fs0, fs, ino, node, size);
  }

  lemma WritingBlocks(fs0: Fs, fs: Fs, ino: nat, node: Inode, size: U32)
    requires FsOk(fs0) && IsFile(fs0, ino) && Writing(fs0, fs, ino, node)
    ensures BlocksOk(fs.(inodes := fs.inodes[ino := node.(size := size)]))
  {
    var fs' := fs.(inodes := fs.inodes[ino := node.(size := size)]);
    hide EntriesOk;
    forall n: nat | IsFile(fs', n)
      ensures Backed(fs', fs'.inodes[n]) && Distinct(fs'.inodes[n])
    {
      assert IsFile(fs0, n);
    }
    forall n: nat, m: nat | IsFile(fs', n) && IsFile(fs', m) && n != m
      ensures Apart(fs'.inodes[n], fs'.inodes[m])
    {
      assert IsFile(fs0, n) && IsFile(fs0, m) && IsFile(fs, n) && IsFile(fs, m);
      if n == ino {
        assert Apart(node, fs.inodes[m]);
      } else if m == ino {
        assert Apart(fs.inodes[n], node);
      } else {
        assert Apart(fs0.inodes[n], fs0.inodes[m]);
      }
    }
  }

  // ---------------------------------------------------------------- whole-file write

  /** Block b of the data, padded with zeros: memset, then memcpy of the chunk. */
  function Chunk(data: seq<Byte>, b: nat): Sector
    requires 512 * b < |data|
  {
    if 512 * b + 512 <= |data| then data[512 * b..512 * b + 512]
    else data[512 * b..] + seq<Byte>(512 * b + 512 - |data|, i => 0)
  }

  /** The first b blocks of the data are in place. */
  ghost predicate Wrote(fs: Fs, node: Inode, data: seq<Byte>, b: nat)
    requires Backed(fs, node)
  {
    forall p :: 0 <= p < |data| && p < 512 * b && p < MAX_FILE ==>
      node.blocks[p / 512] != 0 && ByteAt(fs, node, p) == data[p]
  }

  lemma WroteBlock(fs: Fs, node: Inode, data: seq<Byte>, b: nat)
    requires Backed(fs, node) && Distinct(node) && Wrote(fs, node, data, b)
    requires 512 * b < |data| <= MAX_FILE && node.blocks[b] != 0
    ensures Wrote(fs.(data := fs.data[node.blocks[b] := Chunk(data, b)]), node, data, b + 1)
  {
    var fs' := fs.(data := fs.data[node.blocks[b] := Chunk(data, b)]);
    forall p | 0 <= p < |data| && p < 512 * (b + 1) && p < MAX_FILE
      ensures node.blocks[p / 512] != 0 && ByteAt(fs', node, p) == data[p]
    {
      if p < 512 * b {
        assert ByteAt(fs, node, p) == data[p] && p / 512 < b;
      } else {
        assert p / 512 == b && p % 512 == p - 512 * b;
      }
    }
  }

  /** After the last block the file reads back as the data. */
  lemma WroteAll(fs: Fs, node: Inode, data: seq<Byte>)
    requires Backed(fs, node) && |data| <= MAX_FILE && Wrote(fs, node, data, (|data| + 511) / 512)
    ensures NodeDense(node.(size := |data|))
    ensures Content(fs, node.(size := |data|)) == data
  {
    var done := node.(size := |data|);
    assert |data| <= 512 * ((|data| + 511) / 512);
    forall j | 0 <= j < DIRECT_BLOCKS && 512 * j < |data|
      ensures done.blocks[j] != 0
    {
      assert ByteAt(fs, node, 512 * j) == data[512 * j];
    }
    DenseReadable(done);
    forall p | 0 <= p < |data|
      ensures Content(fs, done)[p] == data[p]
    {
      assert ByteAt(fs, done, p) == ByteAt(fs, node, p);
    }
  }

  /** If block b could not be had, the file keeps its size and holds the start of the data. */
  lemma WroteSome(fs0: Fs, fs: Fs, ino: nat, node: Inode, data: seq<Byte>, b: nat)
    requires FsOk(fs0) && IsFile(fs0, ino) && Writing(fs0, fs, ino, node) && NodeDense(fs0.inodes[ino])
    requires 512 * b < |data| <= MAX_FILE && node.blocks[b] == 0 && Wrote(fs, node, data, b)
    ensures Backed(fs, fs.inodes[ino]) && fs.inodes[ino].size < |data|
    ensures Content(fs, fs.inodes[ino]) == data[..fs.inodes[ino].size]
  {
    var node0 := fs0.inodes[ino];
    assert !(512 * b < node0.size);
    DenseReadable(node0);
    forall p | 0 <= p < node0.size
      ensures Content(fs, node0)[p] == data[p]
    {
      assert ByteAt(fs, node0, p) == ByteAt(fs, node, p);
    }
  }

  // ---------------------------------------------------------------- write at an offset

  function Splice(prior: seq<Byte>, off: nat, data: seq<Byte>): (r: seq<Byte>)
    requires off <= |prior|
    ensures |r| == if off + |data| <= |prior| then |prior| else off + |data|
  {
    prior[..off] + data + (if off + |data| <= |prior| then prior[off + |data|..] else [])
  }

  /** The first w bytes of the data are in place at off, everything else the file had is as it was. */
  ghost predicate Spliced(fs0: Fs, node0: Inode, fs: Fs, node: Inode, off: nat, data: seq<Byte>, w: nat)
    requires Backed(fs0, node0) && Backed(fs, node) && w <= |data|
  {
    && (forall p :: off <= p < off + w && p < MAX_FILE ==>
        node.blocks[p / 512] != 0 && ByteAt(fs, node, p) == data[p - off])
    && (forall p :: 0 <= p < MAX_FILE && (p < off || off + w <= p) && node0.blocks[p / 512] != 0 ==>
          node.blocks[p / 512] != 0 && ByteAt(fs, node, p) == ByteAt(fs0, node0, p))
  }

  /** read, memcpy(sector + off, data, n), write */
  function Patch(s: Sector, at: nat, data: seq<Byte>): Sector
    requires at + |data| <= 512
  {
    s[..at] + data + s[at + |data|..]
  }

  lemma SplicedStep(fs0: Fs, node0: Inode, fs: Fs, node: Inode, off: nat, data: seq<Byte>, w: nat, n: nat)
    requires Backed(fs0, node0) && Backed(fs, node) && Distinct(node) && w + n <= |data| && off + |data| <= MAX_FILE
    requires Spliced(fs0, node0, fs, node, off, data, w) && 0 < n && w < |data|
    requires (off + w) % 512 + n <= 512 && node.blocks[(off + w) / 512] != 0
    ensures var b := node.blocks[(off + w) / 512];
            var fs' := fs.(data := fs.data[b := Patch(fs.data[b], (off + w) % 512, data[w..w + n])]);
            Backed(fs', node) && Spliced(fs0, node0, fs', node, off, data, w + n)
  {
    var pos := off + w;
    var k, at := pos / 512, pos % 512;
    var b := node.blocks[k];
    var fs' := fs.(data := fs.data[b := Patch(fs.data[b], at, data[w..w + n])]);
    forall p | 0 <= p < MAX_FILE && node.blocks[p / 512] != 0
      ensures ByteAt(fs', node, p) == if pos <= p < pos + n then data[p - off] else ByteAt(fs, node, p)
    {
      PatchByte(fs, fs', node, k, at, data[w..w + n], p);
    }
    forall p | pos <= p < pos + n
      ensures node.blocks[p / 512] != 0
    {
      assert p / 512 == k;
    }
  }

  lemma PatchByte(fs: Fs, fs': Fs, node: Inode, k: nat, at: nat, data: seq<Byte>, p: nat)
    requires Backed(fs, node) && Distinct(node) && k < DIRECT_BLOCKS && node.blocks[k] != 0
    requires at + |data| <= 512 && p < MAX_FILE && node.blocks[p / 512] != 0
    requires fs' == fs.(data := fs.data[node.blocks[k] := Patch(fs.data[node.blocks[k]], at, data)])
    ensures ByteAt(fs', node, p)
         == if 512 * k + at <= p < 512 * k + at + |data| then data[p - 512 * k - at] else ByteAt(fs, node, p)
  {
    var j := p / 512;
    if j == k {
      assert p == 512 * k + p % 512;
    } else {
      assert node.blocks[j] != node.blocks[k];
    }
  }

  /** The whole of the data is in place: the file is the splice. */
  lemma SplicedAll(fs0: Fs, node0: Inode, fs: Fs, node: Inode, off: nat, data: seq<Byte>, done: Inode)
    requires Backed(fs0, node0) && Backed(fs, node) && NodeDense(node0) && off <= node0.size && off + |data| <= MAX_FILE
    requires Spliced(fs0, node0, fs, node, off, data, |data|)
    requires done == node.(size := if off + |data| > node0.size then off + |data| else node0.size)
    ensures NodeDense(done) && Backed(fs, done) && |Content(fs0, node0)| == node0.size
    ensures Content(fs, done) == Splice(Content(fs0, node0), off, data)
  {
    hide ByteAt;
    hide Spliced;
    DenseReadable(node0);
    forall j | 0 <= j < DIRECT_BLOCKS && 512 * j < done.size
      ensures done.blocks[j] != 0
    {
      SlotFilled(fs0, node0, fs, node, off, data, |data|, j);
    }
    DenseReadable(done);
    forall p | 0 <= p < done.size
      ensures Content(fs, done)[p] == Splice(Content(fs0, node0), off, data)[p]
    {
      SplicedByte(fs0, node0, fs, node, off, data, done, p);
    }
  }

  lemma SplicedByte(fs0: Fs, node0: Inode, fs: Fs, node: Inode, off: nat, data: seq<Byte>, done: Inode, p: nat)
    requires Backed(fs0, node0) && Backed(fs, node) && NodeDense(node0) && off <= node0.size && off + |data| <= MAX_FILE
    requires Spliced(fs0, node0, fs, node, off, data, |data|)
    requires done == node.(size := if off + |data| > node0.size then off + |data| else node0.size)
    requires p < done.size && NodeDense(done) && Readable(done) == done.size && Readable(node0) == node0.size
    ensures Content(fs, done)[p] == Splice(Content(fs0, node0), off, data)[p]
  {
    assert Content(fs, done)[p] == ByteAt(fs, done, p) == ByteAt(fs, node, p);
    if p < off || off + |data| <= p { assert Content(fs0, node0)[p] == ByteAt(fs0, node0, p); }
  }

  lemma SlotFilled(fs0: Fs, node0: Inode, fs: Fs, node: Inode, off: nat, data: seq<Byte>, w: nat, j: nat)
    requires Backed(fs0, node0) && Backed(fs, node) && NodeDense(node0) && off <= node0.size && off + |data| <= MAX_FILE
    requires w <= |data| && Spliced(fs0, node0, fs, node, off, data, w) && j < DIRECT_BLOCKS
    requires 512 * j < off + w || 512 * j < node0.size
    ensures node.blocks[j] != 0
  {
    if 512 * j < node0.size {
      var p := 512 * j;
      assert p / 512 == j && node0.blocks[j] != 0;
      if off <= p < off + w { assert ByteAt(fs, node, p) == data[p - off]; }
      else { assert ByteAt(fs, node, p) == ByteAt(fs0, node0, p); }
    } else {
      var p := 512 * j;
      assert off <= p < off + w && p / 512 == j;
      assert ByteAt(fs, node, p) == data[p - off];
    }
  }

  /** If the next block could not be had, the file keeps its size and holds the splice cut to that size. */
  lemma SplicedSome(fs0: Fs, fs: Fs, ino: nat, node: Inode, off: nat, data: seq<Byte>, w: nat)
    requires FsOk(fs0) && IsFile(fs0, ino) && Writing(fs0, fs, ino, node) && NodeDense(fs0.inodes[ino])
    requires off <= fs0.inodes[ino].size && off + |data| <= MAX_FILE && w < |data|
    requires Backed(fs0, fs0.inodes[ino]) && Spliced(fs0, fs0.inodes[ino], fs, node, off, data, w)
    requires node.blocks[(off + w) / 512] == 0
    ensures Backed(fs, fs0.inodes[ino]) && |Content(fs0, fs0.inodes[ino])| == fs0.inodes[ino].size
    ensures Content(fs, fs0.inodes[ino]) == Splice(Content(fs0, fs0.inodes[ino]), off, data)[..fs0.inodes[ino].size]
  {
    hide ByteAt;
    hide EntriesOk;
    hide Fits;
    var node0 := fs0.inodes[ino];
    var pos := off + w;
    assert node0.blocks[pos / 512] == 0;
    assert node0.size <= 512 * (pos / 512) <= pos;
    hide NodeDense;
    DenseReadable(node0);
    WritingKeepsBacked(fs0, fs, ino, node);
    forall p | 0 <= p < node0.size
      ensures Content(fs, node0)[p] == Splice(Content(fs0, node0), off, data)[p]
    {
      SplicedSomeByte(fs0, node0, fs, node, off, data, w, p);
    }
  }

  lemma WritingKeepsBacked(fs0: Fs, fs: Fs, ino: nat, node: Inode)
    requires ino < TOTAL_INODES && Writing(fs0, fs, ino, node) && Backed(fs0, fs0.inodes[ino])
    ensures Backed(fs, fs0.inodes[ino]) && Backed(fs, node)
    ensures forall j :: 0 <= j < DIRECT_BLOCKS && fs0.inodes[ino].blocks[j] != 0 ==>
      node.blocks[j] == fs0.inodes[ino].blocks[j]
  {
  }

  lemma SplicedSomeByte(fs0: Fs, node0: Inode, fs: Fs, node: Inode, off: nat, data: seq<Byte>, w: nat, p: nat)
    requires Backed(fs0, node0) && Backed(fs, node) && Backed(fs, node0) && w <= |data|
    requires forall j :: 0 <= j < DIRECT_BLOCKS && node0.blocks[j] != 0 ==> node.blocks[j] == node0.blocks[j]
    requires Spliced(fs0, node0, fs, node, off, data, w) && off <= node0.size && off + |data| <= MAX_FILE
    requires p < node0.size <= off + w && Readable(node0) == node0.size
    ensures Content(fs, node0)[p] == Splice(Content(fs0, node0), off, data)[p]
  {
    assert Content(fs, node0)[p] == ByteAt(fs, node0, p) == ByteAt(fs, node, p);
    if p < off { assert Content(fs0, node0)[p] == ByteAt(fs0, node0, p); }
  }
}
