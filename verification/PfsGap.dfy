/**
 A write that starts beyond the end of a file (kernel/kernel/pfs_vfs.c): what the file reads as afterwards, in the gap
 and behind it.
 */
module PfsGap {
  import opened PfsLayout
  import opened PfsSpec
  import opened PfsWrite

  /** Outside the w bytes written at off the blocks of the inode hold what the disk held, and so do all other blocks. */
  ghost predicate Untouched(fs0: Fs, fs: Fs, node: Inode, off: nat, w: nat)
    requires Backed(fs, node)
  {
    && (forall p :: 0 <= p < MAX_FILE && (p < off || off + w <= p) && node.blocks[p / 512] != 0 ==>
          ByteAt(fs, node, p) == ByteAt(fs0, node, p))
    && (forall b :: 0 <= b < TOTAL_BLOCKS && (b == 0 || !Names(node, b)) ==> fs.data[b] == fs0.data[b])
  }

  lemma UntouchedStart(fs: Fs, node: Inode, off: nat)
    requires Backed(fs, node)
    ensures Untouched(fs, fs, node, off, 0)
  {
  }

  /** A block taken for an empty slot comes with whatever it held. */
  lemma UntouchedAlloc(fs0: Fs, fs: Fs, node: Inode, fs': Fs, node': Inode, off: nat, w: nat, k: nat)
    requires Backed(fs, node) && Backed(fs', node') && Distinct(node') && k < DIRECT_BLOCKS && fs'.data == fs.data
    requires node' == node
      || (node.blocks[k] == 0 && node'.blocks[k] != 0 && node'.blocks == node.blocks[k := node'.blocks[k]])
    requires Untouched(fs0, fs, node, off, w)
    ensures Untouched(fs0, fs', node', off, w)
  {
    if node' != node {
      forall p | 0 <= p < MAX_FILE && (p < off || off + w <= p) && node'.blocks[p / 512] != 0
        ensures ByteAt(fs', node', p) == ByteAt(fs0, node', p)
      {
        if p / 512 != k {
          assert ByteAt(fs, node, p) == ByteAt(fs0, node, p);
        } else {
          NotYetNamed(node, node', k);
        }
      }
      forall b | 0 <= b < TOTAL_BLOCKS && (b == 0 || !Names(node', b))
        ensures fs'.data[b] == fs0.data[b]
      {
        if b != 0 { KeepsName(node, node', k, b); }
      }
    }
  }

  lemma NotYetNamed(node: Inode, node': Inode, k: nat)
    requires Distinct(node') && k < DIRECT_BLOCKS && node.blocks[k] == 0 && node'.blocks[k] != 0
    requires node'.blocks == node.blocks[k := node'.blocks[k]]
    ensures !Names(node, node'.blocks[k])
  {
    forall j | 0 <= j < DIRECT_BLOCKS
      ensures node.blocks[j] != node'.blocks[k]
    {
      if j != k { assert node'.blocks[j] == node.blocks[j]; }
    }
  }

  lemma KeepsName(node: Inode, node': Inode, k: nat, b: nat)
    requires k < DIRECT_BLOCKS && node.blocks[k] == 0 && node'.blocks == node.blocks[k := node'.blocks[k]] && b != 0
    ensures Names(node, b) ==> Names(node', b)
  {
    if Names(node, b) {
      var j :| 0 <= j < DIRECT_BLOCKS && node.blocks[j] == b;
      assert node'.blocks[j] == b;
    }
  }

  /** Patching n bytes of a block of the inode. */
  lemma UntouchedPatch(fs0: Fs, fs: Fs, node: Inode, off: nat, data: seq<Byte>, w: nat, n: nat)
    requires Backed(fs, node) && Distinct(node) && w + n <= |data| && off + |data| <= MAX_FILE && 0 < n && w < |data|
    requires Untouched(fs0, fs, node, off, w)
    requires (off + w) % 512 + n <= 512 && node.blocks[(off + w) / 512] != 0
    ensures var b := node.blocks[(off + w) / 512];
            var fs' := fs.(data := fs.data[b := Patch(fs.data[b], (off + w) % 512, data[w..w + n])]);
            Backed(fs', node) && Untouched(fs0, fs', node, off, w + n)
  {
    var pos := off + w;
    var k, at := pos / 512, pos % 512;
    var b := node.blocks[k];
    var fs' := fs.(data := fs.data[b := Patch(fs.data[b], at, data[w..w + n])]);
    forall p | 0 <= p < MAX_FILE && (p < off || off + (w + n) <= p) && node.blocks[p / 512] != 0
      ensures ByteAt(fs', node, p) == ByteAt(fs0, node, p)
    {
      PatchByte(fs, fs', node, k, at, data[w..w + n], p);
    }
    assert Names(node, b);
  }

  // ---------------------------------------------------------------- reading it back

  /** The blocks that the gap needs are there: those wholly before the offset, and for an empty write the last too. */
  predicate Bridged(node0: Inode, off: nat, data: seq<Byte>) {
    forall j :: 0 <= j < DIRECT_BLOCKS && 512 * j < off && (512 * (j + 1) <= off || data == []) ==> node0.blocks[j] != 0
  }

  /** Slots that lie wholly before the offset are as they were, and all of them if nothing is written. */
  ghost predicate SlotsBelow(node0: Inode, node: Inode, off: nat, data: seq<Byte>) {
    forall j :: 0 <= j < DIRECT_BLOCKS && (512 * (j + 1) <= off || data == []) ==> node.blocks[j] == node0.blocks[j]
  }

  /** The file after a successful write of `data` at `off`, beyond its end: the old contents, then in the gap whatever
      the blocks held before, then the data; but if a block of the gap is missing, reads end at the first such block,
      before the gap is over. */
  ghost predicate GapFile(fs0: Fs, node0: Inode, fs: Fs, done: Inode, off: nat, data: seq<Byte>)
    requires Backed(fs0, node0) && Backed(fs, done)
  {
    var c := Content(fs, done);
    && |c| == (if Bridged(node0, off, data) then off + |data| else 512 * Filled(node0, 0))
    && (!Bridged(node0, off, data) ==> |c| < off && |c| < done.size)
    && |Content(fs0, node0)| == node0.size <= |c| && c[..node0.size] == Content(fs0, node0)
    && (forall p :: off <= p < |c| ==> c[p] == data[p - off])
    && (forall p :: 0 <= p < |c| && p < off ==>
        done.blocks[p / 512] != 0 && c[p] == fs0.data[done.blocks[p / 512]][p % 512])
  }

  lemma GapRead(fs0: Fs, node0: Inode, fs: Fs, node: Inode, off: nat, data: seq<Byte>, done: Inode)
    requires Backed(fs0, node0) && Backed(fs, node) && NodeDense(node0) && off + |data| <= MAX_FILE && node0.size < off
    requires Spliced(fs0, node0, fs, node, off, data, |data|) && Untouched(fs0, fs, node, off, |data|)
    requires SlotsBelow(node0, node, off, data) && done == node.(size := off + |data|)
    requires forall j :: 0 <= j < DIRECT_BLOCKS && node0.blocks[j] != 0 ==> node.blocks[j] == node0.blocks[j]
    ensures Backed(fs, done) && GapFile(fs0, node0, fs, done, off, data)
  {
    DenseReadable(node0);
    GapLength(fs0, node0, fs, node, off, data, done);
    var c := Content(fs, done);
    assert forall p :: off <= p < |c| ==> ByteAt(fs, node, p) == data[p - off];
    forall p | 0 <= p < |c| && p < off
      ensures c[p] == fs0.data[done.blocks[p / 512]][p % 512]
    {
      assert ByteAt(fs, node, p) == ByteAt(fs0, node, p);
    }
    forall p | 0 <= p < node0.size
      ensures c[p] == Content(fs0, node0)[p]
    {
      assert done.blocks[p / 512] == node0.blocks[p / 512];
      assert Content(fs0, node0)[p] == ByteAt(fs0, node0, p);
    }
  }

  /** How far a read gets. */
  lemma GapLength(fs0: Fs, node0: Inode, fs: Fs, node: Inode, off: nat, data: seq<Byte>, done: Inode)
    requires Backed(fs0, node0) && Backed(fs, node) && NodeDense(node0) && off + |data| <= MAX_FILE && node0.size < off
    requires Spliced(fs0, node0, fs, node, off, data, |data|)
    requires SlotsBelow(node0, node, off, data) && done == node.(size := off + |data|)
    requires forall j :: 0 <= j < DIRECT_BLOCKS && node0.blocks[j] != 0 ==> node.blocks[j] == node0.blocks[j]
    ensures Readable(done) == (if Bridged(node0, off, data) then off + |data| else 512 * Filled(node0, 0))
    ensures !Bridged(node0, off, data) ==> 512 * Filled(node0, 0) < off
    ensures node0.size <= Readable(done)
  {
    hide Spliced;
    var f := Filled(node0, 0);
    if Bridged(node0, off, data) {
      forall j | 0 <= j < DIRECT_BLOCKS && 512 * j < done.size
        ensures done.blocks[j] != 0
      {
        if !(512 * j < off && (512 * (j + 1) <= off || data == [])) {
          var p := if off > 512 * j then off else 512 * j;
          assert p / 512 == j;
          DataSlot(fs0, node0, fs, node, off, data, p);
        }
      }
      DenseReadable(done);
    } else {
      var j :| 0 <= j < DIRECT_BLOCKS && 512 * j < off && (512 * (j + 1) <= off || data == []) && node0.blocks[j] == 0;
      assert f <= j;
      assert done.blocks[f] == 0;
      SameFilled(node0, done, f);
      assert 512 * f >= node0.size;
    }
  }

  lemma DataSlot(fs0: Fs, node0: Inode, fs: Fs, node: Inode, off: nat, data: seq<Byte>, p: nat)
    requires Backed(fs0, node0) && Backed(fs, node) && Spliced(fs0, node0, fs, node, off, data, |data|)
    requires off <= p < off + |data| <= MAX_FILE
    ensures node.blocks[p / 512] != 0
  {
    assert ByteAt(fs, node, p) == data[p - off];
  }

  lemma SameFilled(a: Inode, b: Inode, f: nat)
    requires f == Filled(a, 0) < DIRECT_BLOCKS && b.blocks[f] == 0
    requires forall j :: 0 <= j < DIRECT_BLOCKS && a.blocks[j] != 0 ==> b.blocks[j] == a.blocks[j]
    ensures Filled(b, 0) == f
  {
    assert forall j :: 0 <= j < f ==> b.blocks[j] != 0;
  }
}
