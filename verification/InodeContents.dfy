/** File contents as byte sequences, and how allocating blocks and copying bytes change them. */
module InodeContents {
  import opened InodeBlocks

  /** The bytes of file i. */
  ghost function FileBytes(g: Geo, fs: Fs, i: nat): (s: seq<nat>)
    requires Inv(g, fs) && i < |fs.inodes|
    ensures |s| == fs.inodes[i].size
  {
    Prefix(g, fs, i, fs.inodes[i].size)
  }

  ghost function Prefix(g: Geo, fs: Fs, i: nat, n: nat): (s: seq<nat>)
    requires Inv(g, fs) && i < |fs.inodes| && n <= fs.inodes[i].size
    ensures |s| == n
  {
    if n == 0 then []
    else
      InFile(g, fs, i, n - 1);
      Prefix(g, fs, i, n - 1) + [ByteAt(g, fs, i, n - 1)]
  }

  lemma {:induction false} InFile(g: Geo, fs: Fs, i: nat, p: nat)
    requires Inv(g, fs) && i < |fs.inodes| && p < fs.inodes[i].size
    ensures p < MAXFILE * BSIZE && HasBlock(g, fs, i, p / BSIZE)
  {
    assert NoHoles(g, fs, i);
  }

  lemma {:induction false} PrefixAt(g: Geo, fs: Fs, i: nat, n: nat, p: nat)
    requires Inv(g, fs) && i < |fs.inodes| && p < n <= fs.inodes[i].size
    ensures p < MAXFILE * BSIZE && HasBlock(g, fs, i, p / BSIZE) && Prefix(g, fs, i, n)[p] == ByteAt(g, fs, i, p)
  {
    InFile(g, fs, i, p);
    if p < n - 1 { PrefixAt(g, fs, i, n - 1, p); }
  }

  lemma {:induction false} FileByte(g: Geo, fs: Fs, i: nat, p: nat)
    requires Inv(g, fs) && i < |fs.inodes| && p < fs.inodes[i].size
    ensures p < MAXFILE * BSIZE && HasBlock(g, fs, i, p / BSIZE) && FileBytes(g, fs, i)[p] == ByteAt(g, fs, i, p)
  {
    PrefixAt(g, fs, i, fs.inodes[i].size, p);
  }

  /** Where byte p of a file is: in one of twelve direct blocks, or in a block that the indirect block names. */
  lemma {:induction false} OnDisk(g: Geo, fs: Fs, i: nat, p: nat)
    requires Inv(g, fs) && i < |fs.inodes| && p < fs.inodes[i].size
    ensures p < 268 * 1024 && |fs.inodes[i].addrs| == 13
    ensures p / 1024 < 12 ==>
              && fs.inodes[i].addrs[p / 1024] < |fs.blocks| && |fs.blocks[fs.inodes[i].addrs[p / 1024]]| == 1024
              && FileBytes(g, fs, i)[p] == fs.blocks[fs.inodes[i].addrs[p / 1024]][p % 1024]
    ensures p / 1024 >= 12 ==>
              && fs.inodes[i].addrs[12] < |fs.blocks| && |fs.blocks[fs.inodes[i].addrs[12]]| == 1024
              && var b := Entry(fs.blocks[fs.inodes[i].addrs[12]], p / 1024 - 12);
              && b < |fs.blocks| && |fs.blocks[b]| == 1024 && FileBytes(g, fs, i)[p] == fs.blocks[b][p % 1024]
  {
    FileByte(g, fs, i, p);
    assert SlotOk(g, fs, i, SlotOf(p / BSIZE)) && SlotOk(g, fs, i, NDIRECT);
    assert IsBlock(fs.blocks[BlockAt(fs, i, SlotOf(p / BSIZE))]);
    if p / 1024 >= 12 { assert IsBlock(fs.blocks[fs.inodes[i].addrs[12]]); }
  }

  /** Writing bytes s over c at offset off, extending it if needed. */
  function SpliceFile(c: seq<nat>, off: nat, s: seq<nat>): seq<nat>
    requires off <= |c|
  {
    c[..off] + s + (if off + |s| < |c| then c[off + |s|..] else [])
  }

  /** Byte by byte: the new bytes from off on, the old ones elsewhere; the file grows only if it must. */
  lemma {:induction false} SpliceBytes(c: seq<nat>, off: nat, s: seq<nat>)
    requires off <= |c|
    ensures |SpliceFile(c, off, s)| == if off + |s| > |c| then off + |s| else |c|
    ensures forall p :: 0 <= p < |SpliceFile(c, off, s)| ==>
              SpliceFile(c, off, s)[p] == if off <= p < off + |s| then s[p - off] else c[p]
  {
  }

  // ----- allocation changes no contents ----------------------------------------------------

  /** r has the same files as fs; it may own more blocks. */
  ghost predicate Grown(g: Geo, fs: Fs, r: Fs) {
    && Ownership(g, fs) && Ownership(g, r) && |r.inodes| == |fs.inodes|
    && (forall j :: 0 <= j < |fs.inodes| ==> r.inodes[j].size == fs.inodes[j].size)
    && (forall j, f :: 0 <= j < |fs.inodes| && 0 <= f < MAXFILE ==> SameBytes(g, fs, r, j, f))
    && (forall j, k :: 0 <= j < |fs.inodes| && 0 <= k < NSLOT ==> SlotKept(g, fs, r, j, k))
  }

  lemma {:induction false} GrownSelf(g: Geo, fs: Fs)
    requires Ownership(g, fs)
    ensures Grown(g, fs, fs)
  {
    forall j, f | 0 <= j < |fs.inodes| && 0 <= f < MAXFILE ensures SameBytes(g, fs, fs, j, f) {
      assert SlotOk(g, fs, j, SlotOf(f));
    }
  }

  lemma {:induction false} GrownByFill(g: Geo, fs: Fs, i: nat, k: nat, b: nat)
    requires Fillable(g, fs, i, k, b)
    ensures k > NDIRECT ==> fs.inodes[i].addrs[NDIRECT] < g.size
    ensures Grown(g, fs, Filled(g, fs, i, k, b))
  {
    FilledOwnership(g, fs, i, k, b);
    forall j, f | 0 <= j < |fs.inodes| && 0 <= f < MAXFILE ensures SameBytes(g, fs, Filled(g, fs, i, k, b), j, f) {
      FilledBytes(g, fs, i, k, b, j, f);
    }
    forall j, l | 0 <= j < |fs.inodes| && 0 <= l < NSLOT ensures SlotKept(g, fs, Filled(g, fs, i, k, b), j, l) {
      FilledSlots(g, fs, i, k, b, j, l);
    }
  }

  lemma {:induction false} GrownTwice(g: Geo, fs: Fs, m: Fs, r: Fs)
    requires Grown(g, fs, m) && Grown(g, m, r)
    ensures Grown(g, fs, r)
  {
    forall j, f | 0 <= j < |fs.inodes| && 0 <= f < MAXFILE ensures SameBytes(g, fs, r, j, f) {
      assert SameBytes(g, fs, m, j, f) && SameBytes(g, m, r, j, f);
    }
    forall j, k | 0 <= j < |fs.inodes| && 0 <= k < NSLOT ensures SlotKept(g, fs, r, j, k) {
      assert SlotKept(g, fs, m, j, k) && SlotKept(g, m, r, j, k);
    }
  }

  lemma {:induction false} GrownInv(g: Geo, fs: Fs, r: Fs)
    requires Inv(g, fs) && Grown(g, fs, r)
    ensures Inv(g, r)
  {
    forall j | 0 <= j < |r.inodes| ensures NoHoles(g, r, j) {
      assert NoHoles(g, fs, j);
      forall f | 0 <= f < MAXFILE && f * BSIZE < r.inodes[j].size ensures HasBlock(g, r, j, f) {
        assert HasBlock(g, fs, j, f) && SameBytes(g, fs, r, j, f);
      }
    }
  }

  // ----- the state of a write in progress ------------------------------------------------------

  /** Byte p of file i: already written from src, or as it was before the write. */
  ghost predicate ByteDone(g: Geo, fs0: Fs, fs: Fs, i: nat, off0: nat, off: nat, src: seq<nat>, p: nat)
    requires Ownership(g, fs0) && Ownership(g, fs) && i < |fs0.inodes| && i < |fs.inodes|
    requires off - off0 <= |src| && p < MAXFILE * BSIZE
  {
    if off0 <= p < off then HasBlock(g, fs, i, p / BSIZE) && ByteAt(g, fs, i, p) == src[p - off0]
    else HasBlock(g, fs0, i, p / BSIZE) ==>
           HasBlock(g, fs, i, p / BSIZE) && ByteAt(g, fs, i, p) == ByteAt(g, fs0, i, p)
  }

  /** src[..off - off0] has been written to file i at off0; no size has changed yet. */
  ghost predicate Progress(g: Geo, fs0: Fs, fs: Fs, i: nat, off0: nat, off: nat, src: seq<nat>) {
    && Inv(g, fs0) && Inv(g, fs) && i < |fs0.inodes| == |fs.inodes| && off0 <= off && off - off0 <= |src|
    && (forall j :: 0 <= j < |fs0.inodes| ==> fs.inodes[j].size == fs0.inodes[j].size)
    && (forall j, f :: 0 <= j < |fs0.inodes| && j != i && 0 <= f < MAXFILE ==> SameBytes(g, fs0, fs, j, f))
    && (forall p :: 0 <= p < MAXFILE * BSIZE ==> ByteDone(g, fs0, fs, i, off0, off, src, p))
    && (forall j, k :: 0 <= j < |fs0.inodes| && 0 <= k < NSLOT ==> SlotKept(g, fs0, fs, j, k))
  }

  lemma {:induction false} ProgressStart(g: Geo, fs: Fs, i: nat, off: nat, src: seq<nat>)
    requires Inv(g, fs) && i < |fs.inodes|
    ensures Progress(g, fs, fs, i, off, off, src)
  {
    GrownSelf(g, fs);
  }

  lemma {:induction false} ProgressGrown(g: Geo, fs0: Fs, fs: Fs, r: Fs, i: nat, off0: nat, off: nat, src: seq<nat>)
    requires Progress(g, fs0, fs, i, off0, off, src) && Grown(g, fs, r)
    ensures Progress(g, fs0, r, i, off0, off, src)
  {
    GrownInv(g, fs, r);
    forall j, f | 0 <= j < |fs0.inodes| && j != i && 0 <= f < MAXFILE ensures SameBytes(g, fs0, r, j, f) {
      assert SameBytes(g, fs0, fs, j, f) && SameBytes(g, fs, r, j, f);
    }
    forall p | 0 <= p < MAXFILE * BSIZE ensures ByteDone(g, fs0, r, i, off0, off, src, p) {
      assert ByteDone(g, fs0, fs, i, off0, off, src, p) && SameBytes(g, fs, r, i, p / BSIZE);
    }
    forall j, k | 0 <= j < |fs0.inodes| && 0 <= k < NSLOT ensures SlotKept(g, fs0, r, j, k) {
      assert SlotKept(g, fs0, fs, j, k) && SlotKept(g, fs, r, j, k);
    }
  }

  /** One copy of the writei loop. */
  lemma {:induction false} ProgressPatch(g: Geo, fs0: Fs, fs: Fs, i: nat, off0: nat, off: nat, src: seq<nat>, m: nat)
    requires Progress(g, fs0, fs, i, off0, off, src) && Bytes(src)
    requires off - off0 + m <= |src| && off % BSIZE + m <= BSIZE && off < MAXFILE * BSIZE
    requires HasBlock(g, fs, i, off / BSIZE)
    ensures Progress(g, fs0, Patched(g, fs, i, off / BSIZE, off % BSIZE, src[off - off0..off - off0 + m]),
                     i, off0, off + m, src)
  {
    var f, bytes, end := off / BSIZE, src[off - off0..off - off0 + m], off + m;
    var r := Patched(g, fs, i, f, off % BSIZE, bytes);
    PatchedOwnership(g, fs, i, f, off % BSIZE, bytes);
    forall j | 0 <= j < |r.inodes| ensures NoHoles(g, r, j) { assert NoHoles(g, fs, j); }
    forall j, h | 0 <= j < |fs0.inodes| && j != i && 0 <= h < MAXFILE ensures SameBytes(g, fs0, r, j, h) {
      assert SameBytes(g, fs0, fs, j, h);
      PatchedSlots(g, fs, i, f, off % BSIZE, bytes, j, SlotOf(h));
    }
    forall p | 0 <= p < MAXFILE * BSIZE ensures ByteDone(g, fs0, r, i, off0, end, src, p) {
      assert ByteDone(g, fs0, fs, i, off0, off, src, p);
      PatchedByte(g, fs, i, off, bytes, p);
    }
    forall j, k | 0 <= j < |fs0.inodes| && 0 <= k < NSLOT ensures SlotKept(g, fs0, r, j, k) {
      assert SlotKept(g, fs0, fs, j, k);
      PatchedSlots(g, fs, i, f, off % BSIZE, bytes, j, k);
    }
  }

  /** The effect of one copy on byte p of the same file. */
  lemma {:induction false} PatchedByte(g: Geo, fs: Fs, i: nat, off: nat, bytes: seq<nat>, p: nat)
    requires Ownership(g, fs) && i < |fs.inodes| && off < MAXFILE * BSIZE && HasBlock(g, fs, i, off / BSIZE)
    requires off % BSIZE + |bytes| <= BSIZE && Bytes(bytes) && p < MAXFILE * BSIZE
    ensures var r := Patched(g, fs, i, off / BSIZE, off % BSIZE, bytes);
            && Ownership(g, r) && (HasBlock(g, r, i, p / BSIZE) <==> HasBlock(g, fs, i, p / BSIZE))
            && (off <= p < off + |bytes| ==> HasBlock(g, r, i, p / BSIZE) && ByteAt(g, r, i, p) == bytes[p - off])
            && (!(off <= p < off + |bytes|) && HasBlock(g, fs, i, p / BSIZE) ==>
                  ByteAt(g, r, i, p) == ByteAt(g, fs, i, p))
  {
    var f := off / BSIZE;
    var r := Patched(g, fs, i, f, off % BSIZE, bytes);
    PatchedOwnership(g, fs, i, f, off % BSIZE, bytes);
    PatchedSlots(g, fs, i, f, off % BSIZE, bytes, i, SlotOf(p / BSIZE));
    SameBlock(off, |bytes|, p);
    assert SlotOk(g, fs, i, SlotOf(f)) && SlotOk(g, fs, i, SlotOf(p / BSIZE));
    assert IsBlock(fs.blocks[BlockAt(fs, i, SlotOf(f))]);
    assert r.blocks[BlockAt(fs, i, SlotOf(f))] == Splice(fs.blocks[BlockAt(fs, i, SlotOf(f))], off % BSIZE, bytes);
  }

  /** Bytes off..off+m-1 lie in one block; p is among them exactly if it is at the same place of that block. */
  lemma {:induction false} SameBlock(off: nat, m: nat, p: nat)
    requires off % BSIZE + m <= BSIZE
    ensures off <= p < off + m <==> p / BSIZE == off / BSIZE && off % BSIZE <= p % BSIZE < off % BSIZE + m
    ensures off <= p < off + m ==> p - off == p % BSIZE - off % BSIZE
  {
  }

  /** The file system when writei has set the new size of inode i. */
  ghost function Resized(fs: Fs, i: nat, size: nat): Fs
    requires i < |fs.inodes|
  {
    fs.(inodes := fs.inodes[i := fs.inodes[i].(size := size)])
  }

  function Max(a: nat, b: nat): nat { if a > b then a else b }

  /** The file has no hole below its new size. */
  lemma {:induction false} WriteInv(g: Geo, fs0: Fs, fs: Fs, i: nat, off0: nat, off: nat, src: seq<nat>)
    requires Progress(g, fs0, fs, i, off0, off, src) && off0 <= fs0.inodes[i].size && off <= MAXFILE * BSIZE
    ensures Inv(g, Resized(fs, i, Max(off, fs0.inodes[i].size)))
  {
    var size := Max(off, fs0.inodes[i].size);
    var r := Resized(fs, i, size);
    ResizedOwnership(g, fs, i, size);
    assert NoHoles(g, fs0, i);
    forall f | 0 <= f < MAXFILE && f * BSIZE < size ensures HasBlock(g, r, i, f) {
      assert ByteDone(g, fs0, fs, i, off0, off, src, f * BSIZE);
      if f * BSIZE < fs0.inodes[i].size || f * BSIZE < off0 { assert HasBlock(g, fs0, i, f); }
    }
    forall j | 0 <= j < |r.inodes| && j != i ensures NoHoles(g, r, j) {
      assert NoHoles(g, fs, j);
      forall f | 0 <= f < MAXFILE && f * BSIZE < r.inodes[j].size ensures HasBlock(g, r, j, f) {
        assert HasBlock(g, fs, j, f);
      }
    }
  }

  /** Setting the new size at the end of writei gives exactly the spliced file, and changes no other file. */
  lemma {:induction false} WriteResult(g: Geo, fs0: Fs, fs: Fs, i: nat, off0: nat, off: nat, src: seq<nat>)
    requires Progress(g, fs0, fs, i, off0, off, src) && off0 <= fs0.inodes[i].size && off <= MAXFILE * BSIZE
    ensures var r := Resized(fs, i, Max(off, fs0.inodes[i].size));
            && Inv(g, r)
            && FileBytes(g, r, i) == SpliceFile(FileBytes(g, fs0, i), off0, src[..off - off0])
            && forall j :: 0 <= j < |fs0.inodes| && j != i ==> FileBytes(g, r, j) == FileBytes(g, fs0, j)
  {
    WriteInv(g, fs0, fs, i, off0, off, src);
    var size := Max(off, fs0.inodes[i].size);
    var r := Resized(fs, i, size);
    ResizedOwnership(g, fs, i, size);
    var c, d := FileBytes(g, fs0, i), FileBytes(g, r, i);
    forall p | 0 <= p < size ensures d[p] == SpliceFile(c, off0, src[..off - off0])[p] {
      FileByte(g, r, i, p);
      if p < fs0.inodes[i].size { FileByte(g, fs0, i, p); }
      assert ByteDone(g, fs0, fs, i, off0, off, src, p);
      assert ByteAt(g, r, i, p) == ByteAt(g, fs, i, p);
    }
    forall j | 0 <= j < |fs0.inodes| && j != i ensures FileBytes(g, r, j) == FileBytes(g, fs0, j) {
      forall f | 0 <= f < MAXFILE ensures SameBytes(g, fs0, r, j, f) { assert SameBytes(g, fs0, fs, j, f); }
      OtherFile(g, fs0, r, j);
    }
  }

  lemma {:induction false} OtherFile(g: Geo, fs0: Fs, r: Fs, j: nat)
    requires Inv(g, fs0) && Inv(g, r) && j < |fs0.inodes| == |r.inodes| && r.inodes[j].size == fs0.inodes[j].size
    requires forall f :: 0 <= f < MAXFILE ==> SameBytes(g, fs0, r, j, f)
    ensures FileBytes(g, r, j) == FileBytes(g, fs0, j)
  {
    var c, d := FileBytes(g, fs0, j), FileBytes(g, r, j);
    forall p | 0 <= p < |c| ensures c[p] == d[p] {
      FileByte(g, fs0, j, p);
      FileByte(g, r, j, p);
      assert SameBytes(g, fs0, r, j, p / BSIZE);
    }
  }

  /** Sizes play no part in ownership. */
  lemma {:induction false} ResizedOwnership(g: Geo, fs: Fs, i: nat, size: nat)
    requires Ownership(g, fs) && i < |fs.inodes|
    ensures Ownership(g, Resized(fs, i, size))
    ensures forall j, k :: 0 <= j < |fs.inodes| && 0 <= k < NSLOT ==>
              BlockAt(Resized(fs, i, size), j, k) == BlockAt(fs, j, k)
  {
    var r := Resized(fs, i, size);
    forall j, k | 0 <= j < |r.inodes| && 0 <= k < NSLOT ensures SlotOk(g, r, j, k) { assert SlotOk(g, fs, j, k); }
    forall j, l, m, n | 0 <= j < |r.inodes| && 0 <= l < NSLOT && 0 <= m < |r.inodes| && 0 <= n < NSLOT
      ensures Apart(g, r, j, l, m, n)
    {
      assert Apart(g, fs, j, l, m, n);
    }
    forall c | 0 <= c < g.size ensures BitOk(g, r, c) {
      assert BitOk(g, fs, c);
      if c >= g.dataStart && fs.bits[c] {
        var j, l :| Owns(g, fs, j, l, c);
        assert Owns(g, r, j, l, c);
      }
    }
  }
}
