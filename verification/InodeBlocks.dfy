/**
 * Who owns which disk block (kernel/fs.c): the free map, the inodes' direct slots, the indirect
 * pointer and the entries of the indirect block, which are four-byte little-endian words in block bytes.
 */
module InodeBlocks {

  const BSIZE: nat := 1024
  const NDIRECT: nat := 12
  const NINDIRECT: nat := 256
  const MAXFILE: nat := NDIRECT + NINDIRECT
  /** Slots of one inode: the direct ones, the indirect pointer, the indirect entries. */
  const NSLOT: nat := NDIRECT + 1 + NINDIRECT
  const UINT32: nat := 0x1_0000_0000

  type Block = seq<nat>

  ghost predicate IsBlock(b: Block) {
    |b| == BSIZE && forall i :: 0 <= i < |b| ==> b[i] < 256
  }

  // ----- words inside a block ------------------------------------------------------------

  function Entry(b: Block, j: nat): nat
    requires 4 * j + 3 < |b|
  {
    b[4 * j] + 0x100 * b[4 * j + 1] + 0x1_0000 * b[4 * j + 2] + 0x100_0000 * b[4 * j + 3]
  }

  function PutEntry(b: Block, j: nat, v: nat): (r: Block)
    requires 4 * j + 3 < |b|
    ensures |r| == |b| && r[4 * j] == v % 0x100 && r[4 * j + 3] == v / 0x100_0000 % 0x100
  {
    b[4 * j := v % 0x100][4 * j + 1 := v / 0x100 % 0x100]
     [4 * j + 2 := v / 0x1_0000 % 0x100][4 * j + 3 := v / 0x100_0000 % 0x100]
  }

  /** Storing a word and reading it back; all other words keep their values. */
  lemma {:induction false} EntryPut(b: Block, j: nat, v: nat, i: nat)
    requires IsBlock(b) && j < NINDIRECT && i < NINDIRECT && v < UINT32
    ensures IsBlock(PutEntry(b, j, v))
    ensures Entry(PutEntry(b, j, v), i) == if i == j then v else Entry(b, i)
  {
    var r := PutEntry(b, j, v);
    if i == j {
      WordBytes(v);
    } else {
      assert forall x :: 4 * i <= x <= 4 * i + 3 ==> r[x] == b[x];
    }
  }

  lemma {:induction false} WordBytes(v: nat)
    requires v < UINT32
    ensures v == v % 0x100 + 0x100 * (v / 0x100 % 0x100)
                 + 0x1_0000 * (v / 0x1_0000 % 0x100) + 0x100_0000 * (v / 0x100_0000 % 0x100)
  {
    assert v / 0x1_0000 == v / 0x100 / 0x100;
    assert v / 0x100_0000 == v / 0x1_0000 / 0x100;
  }

  function Zeros(): (b: Block)
    ensures IsBlock(b) && forall i :: 0 <= i < |b| ==> b[i] == 0
  {
    seq(BSIZE, _ => 0)
  }

  // ----- the file system state --------------------------------------------------------------

  datatype Inode = Inode(addrs: seq<nat>, size: nat)

  datatype Fs = Fs(bits: seq<bool>, blocks: seq<Block>, inodes: seq<Inode>)

  /** From the superblock: `size` blocks, data blocks from `dataStart` on. */
  datatype Geo = Geo(size: nat, dataStart: nat)

  ghost predicate Shape(g: Geo, fs: Fs) {
    && 0 < g.dataStart <= g.size < UINT32 && |fs.bits| == |fs.blocks| == g.size
    && (forall b :: 0 <= b < g.size ==> IsBlock(fs.blocks[b]))
    && (forall i :: 0 <= i < |fs.inodes| ==> |fs.inodes[i].addrs| == NDIRECT + 1)
  }

  /** The block in slot k of inode i; 0 if the slot is empty. */
  ghost function BlockAt(fs: Fs, i: nat, k: nat): nat
    requires i < |fs.inodes| && |fs.inodes[i].addrs| == NDIRECT + 1 && k < NSLOT
    requires forall b :: 0 <= b < |fs.blocks| ==> IsBlock(fs.blocks[b])
  {
    if k <= NDIRECT then fs.inodes[i].addrs[k]
    else
      var ind := fs.inodes[i].addrs[NDIRECT];
      if ind == 0 || ind >= |fs.blocks| then 0
      else assert IsBlock(fs.blocks[ind]); Entry(fs.blocks[ind], k - NDIRECT - 1)
  }

  ghost predicate SlotOk(g: Geo, fs: Fs, i: nat, k: nat)
    requires Shape(g, fs) && i < |fs.inodes| && k < NSLOT
  {
    var b := BlockAt(fs, i, k);
    b != 0 ==> g.dataStart <= b < g.size && fs.bits[b]
  }

  /** Two slots never share a block. */
  ghost predicate Apart(g: Geo, fs: Fs, i: nat, k: nat, j: nat, l: nat)
    requires Shape(g, fs) && i < |fs.inodes| && k < NSLOT && j < |fs.inodes| && l < NSLOT
  {
    (i, k) != (j, l) && BlockAt(fs, i, k) != 0 ==> BlockAt(fs, i, k) != BlockAt(fs, j, l)
  }

  ghost predicate Owns(g: Geo, fs: Fs, i: int, k: int, b: nat)
    requires Shape(g, fs)
  {
    0 <= i < |fs.inodes| && 0 <= k < NSLOT && BlockAt(fs, i, k) == b
  }

  /** The bit of b is set exactly for metadata blocks and blocks in some slot. */
  ghost predicate BitOk(g: Geo, fs: Fs, b: nat)
    requires Shape(g, fs) && b < g.size
  {
    && (b < g.dataStart ==> fs.bits[b])
    && (b >= g.dataStart && fs.bits[b] ==> exists i, k :: Owns(g, fs, i, k, b))
  }

  /** The slot of file block f. */
  function SlotOf(f: nat): nat {
    if f < NDIRECT then f else f + 1
  }

  ghost predicate HasBlock(g: Geo, fs: Fs, i: nat, f: nat)
    requires Shape(g, fs) && i < |fs.inodes| && f < MAXFILE
  {
    BlockAt(fs, i, SlotOf(f)) != 0
  }

  ghost predicate NoHoles(g: Geo, fs: Fs, i: nat)
    requires Shape(g, fs) && i < |fs.inodes|
  {
    fs.inodes[i].size <= MAXFILE * BSIZE
    && forall f :: 0 <= f < MAXFILE && f * BSIZE < fs.inodes[i].size ==> HasBlock(g, fs, i, f)
  }

  /** Ownership without the size condition: slots valid and apart, bits exact. */
  ghost predicate Ownership(g: Geo, fs: Fs) {
    && Shape(g, fs)
    && (forall i, k :: 0 <= i < |fs.inodes| && 0 <= k < NSLOT ==> SlotOk(g, fs, i, k))
    && (forall i, k, j, l :: 0 <= i < |fs.inodes| && 0 <= k < NSLOT && 0 <= j < |fs.inodes| && 0 <= l < NSLOT
          ==> Apart(g, fs, i, k, j, l))
    && (forall b :: 0 <= b < g.size ==> BitOk(g, fs, b))
  }

  ghost predicate Inv(g: Geo, fs: Fs) {
    Ownership(g, fs) && forall i :: 0 <= i < |fs.inodes| ==> NoHoles(g, fs, i)
  }

  lemma {:induction false} SlotsApart(g: Geo, fs: Fs, i: nat, k: nat, j: nat, l: nat)
    requires Ownership(g, fs) && i < |fs.inodes| && k < NSLOT && j < |fs.inodes| && l < NSLOT
    ensures (i, k) != (j, l) && BlockAt(fs, i, k) != 0 ==> BlockAt(fs, i, k) != BlockAt(fs, j, l)
    ensures BlockAt(fs, i, k) != 0 ==> g.dataStart <= BlockAt(fs, i, k) < g.size && fs.bits[BlockAt(fs, i, k)]
  {
    assert SlotOk(g, fs, i, k) && Apart(g, fs, i, k, j, l);
  }

  // ----- filling a slot with a fresh block ------------------------------------------------------

  /** balloc: mark the block used and zero it. */
  ghost function Taken(fs: Fs, b: nat): Fs
    requires b < |fs.bits| == |fs.blocks|
  {
    fs.(bits := fs.bits[b := true], blocks := fs.blocks[b := Zeros()])
  }

  /** balloc and the store of the new block number into slot k of inode i. */
  ghost function Filled(g: Geo, fs: Fs, i: nat, k: nat, b: nat): Fs
    requires Shape(g, fs) && i < |fs.inodes| && k < NSLOT && b < g.size
    requires k > NDIRECT ==> fs.inodes[i].addrs[NDIRECT] < g.size
  {
    var t := Taken(fs, b);
    if k <= NDIRECT then
      t.(inodes := t.inodes[i := t.inodes[i].(addrs := t.inodes[i].addrs[k := b])])
    else
      var ind := fs.inodes[i].addrs[NDIRECT];
      t.(blocks := t.blocks[ind := PutEntry(t.blocks[ind], k - NDIRECT - 1, b)])
  }

  /** A free block may go into an empty slot. */
  ghost predicate Fillable(g: Geo, fs: Fs, i: nat, k: nat, b: nat) {
    && Ownership(g, fs) && i < |fs.inodes| && k < NSLOT && b < g.size && !fs.bits[b]
    && BlockAt(fs, i, k) == 0 && (k > NDIRECT ==> BlockAt(fs, i, NDIRECT) != 0)
  }

  /** Filling one slot changes no other slot, and no contents except the new block's and the pointer block's. */
  lemma {:induction false} FilledSlots(g: Geo, fs: Fs, i: nat, k: nat, b: nat, j: nat, l: nat)
    requires Fillable(g, fs, i, k, b) && j < |fs.inodes| && l < NSLOT
    ensures k > NDIRECT ==> fs.inodes[i].addrs[NDIRECT] < g.size
    ensures Shape(g, Filled(g, fs, i, k, b)) && g.dataStart <= b
    ensures BlockAt(Filled(g, fs, i, k, b), j, l) == if (j, l) == (i, k) then b else BlockAt(fs, j, l)
    ensures BlockAt(fs, j, l) != 0 && l != NDIRECT ==>
              && BlockAt(fs, j, l) < g.size
              && Filled(g, fs, i, k, b).blocks[BlockAt(fs, j, l)] == fs.blocks[BlockAt(fs, j, l)]
  {
    assert BitOk(g, fs, b);
    assert SlotOk(g, fs, i, NDIRECT) && SlotOk(g, fs, j, NDIRECT) && SlotOk(g, fs, j, l);
    assert Apart(g, fs, i, NDIRECT, j, NDIRECT) && Apart(g, fs, i, NDIRECT, j, l);
    FilledShape(g, fs, i, k, b);
    var r := Filled(g, fs, i, k, b);
    if l > NDIRECT {
      var ind := fs.inodes[j].addrs[NDIRECT];
      if k > NDIRECT && j == i {
        EntryPut(fs.blocks[ind], k - NDIRECT - 1, b, l - NDIRECT - 1);
      } else if k == NDIRECT && j == i {
        assert Entry(Zeros(), l - NDIRECT - 1) == 0;
      }
    }
  }

  lemma {:induction false} FilledShape(g: Geo, fs: Fs, i: nat, k: nat, b: nat)
    requires Shape(g, fs) && i < |fs.inodes| && k < NSLOT && b < g.size
    requires k > NDIRECT ==> fs.inodes[i].addrs[NDIRECT] < g.size
    ensures Shape(g, Filled(g, fs, i, k, b))
  {
    if k > NDIRECT {
      var ind := fs.inodes[i].addrs[NDIRECT];
      EntryPut(Taken(fs, b).blocks[ind], k - NDIRECT - 1, b, 0);
    }
  }

  /** Filling an empty slot with a free block keeps ownership exact. */
  lemma {:induction false} FilledOwnership(g: Geo, fs: Fs, i: nat, k: nat, b: nat)
    requires Fillable(g, fs, i, k, b)
    ensures k > NDIRECT ==> fs.inodes[i].addrs[NDIRECT] < g.size
    ensures Ownership(g, Filled(g, fs, i, k, b))
    ensures forall j :: 0 <= j < |fs.inodes| && NoHoles(g, fs, j) ==> NoHoles(g, Filled(g, fs, i, k, b), j)
  {
    FilledSlots(g, fs, i, k, b, i, k);
    var r := Filled(g, fs, i, k, b);
    forall j, l | 0 <= j < |r.inodes| && 0 <= l < NSLOT ensures SlotOk(g, r, j, l) {
      assert SlotOk(g, fs, j, l);
      FilledSlots(g, fs, i, k, b, j, l);
    }
    forall j, l, m, n | 0 <= j < |r.inodes| && 0 <= l < NSLOT && 0 <= m < |r.inodes| && 0 <= n < NSLOT
      ensures Apart(g, r, j, l, m, n)
    {
      assert SlotOk(g, fs, j, l) && SlotOk(g, fs, m, n) && Apart(g, fs, j, l, m, n);
      FilledSlots(g, fs, i, k, b, j, l);
      FilledSlots(g, fs, i, k, b, m, n);
    }
    forall c | 0 <= c < g.size ensures BitOk(g, r, c) {
      assert BitOk(g, fs, c);
      FilledBit(g, fs, i, k, b, c);
    }
    forall j | 0 <= j < |fs.inodes| && NoHoles(g, fs, j) ensures NoHoles(g, r, j) {
      forall f | 0 <= f < MAXFILE && f * BSIZE < r.inodes[j].size ensures HasBlock(g, r, j, f) {
        assert HasBlock(g, fs, j, f);
        FilledSlots(g, fs, i, k, b, j, SlotOf(f));
      }
    }
  }

  lemma {:induction false} FilledBit(g: Geo, fs: Fs, i: nat, k: nat, b: nat, c: nat)
    requires Fillable(g, fs, i, k, b) && c < g.size && BitOk(g, fs, c)
    ensures k > NDIRECT ==> fs.inodes[i].addrs[NDIRECT] < g.size
    ensures Shape(g, Filled(g, fs, i, k, b)) && BitOk(g, Filled(g, fs, i, k, b), c)
  {
    FilledSlots(g, fs, i, k, b, i, k);
    var r := Filled(g, fs, i, k, b);
    if c == b {
      assert Owns(g, r, i, k, b);
    } else if c >= g.dataStart && fs.bits[c] {
      var j, l :| Owns(g, fs, j, l, c);
      FilledSlots(g, fs, i, k, b, j, l);
      assert Owns(g, r, j, l, c);
    }
  }

  // ----- contents ---------------------------------------------------------------------------------

  /** Byte p of file i. */
  ghost function ByteAt(g: Geo, fs: Fs, i: nat, p: nat): nat
    requires Ownership(g, fs) && i < |fs.inodes| && p < MAXFILE * BSIZE && HasBlock(g, fs, i, p / BSIZE)
  {
    assert SlotOk(g, fs, i, SlotOf(p / BSIZE));
    assert IsBlock(fs.blocks[BlockAt(fs, i, SlotOf(p / BSIZE))]);
    fs.blocks[BlockAt(fs, i, SlotOf(p / BSIZE))][p % BSIZE]
  }

  /** A block, once in a slot, stays there. */
  ghost predicate SlotKept(g: Geo, fs: Fs, r: Fs, j: nat, k: nat)
    requires Shape(g, fs) && Shape(g, r) && j < |fs.inodes| && j < |r.inodes| && k < NSLOT
  {
    BlockAt(fs, j, k) != 0 ==> BlockAt(r, j, k) == BlockAt(fs, j, k)
  }

  /** File block f of inode j, if present in fs, is present in r with the same contents. */
  ghost predicate SameBytes(g: Geo, fs: Fs, r: Fs, j: nat, f: nat)
    requires Ownership(g, fs) && Ownership(g, r) && j < |fs.inodes| && j < |r.inodes| && f < MAXFILE
  {
    HasBlock(g, fs, j, f) ==>
      && HasBlock(g, r, j, f) && BlockAt(fs, j, SlotOf(f)) < g.size && BlockAt(r, j, SlotOf(f)) < g.size
      && r.blocks[BlockAt(r, j, SlotOf(f))] == fs.blocks[BlockAt(fs, j, SlotOf(f))]
  }

  lemma {:induction false} FilledBytes(g: Geo, fs: Fs, i: nat, k: nat, b: nat, j: nat, f: nat)
    requires Fillable(g, fs, i, k, b) && j < |fs.inodes| && f < MAXFILE
    ensures k > NDIRECT ==> fs.inodes[i].addrs[NDIRECT] < g.size
    ensures Ownership(g, Filled(g, fs, i, k, b)) && SameBytes(g, fs, Filled(g, fs, i, k, b), j, f)
  {
    FilledOwnership(g, fs, i, k, b);
    FilledSlots(g, fs, i, k, b, j, SlotOf(f));
    assert SlotOk(g, fs, j, SlotOf(f));
  }

  function Splice(block: Block, o: nat, bytes: seq<nat>): (r: Block)
    requires o + |bytes| <= |block|
    ensures |r| == |block|
    ensures forall x :: 0 <= x < |r| ==> r[x] == if o <= x < o + |bytes| then bytes[x - o] else block[x]
  {
    block[..o] + bytes + block[o + |bytes|..]
  }

  /** writei's copy of bytes into file block f of inode i, at offset o of the block. */
  ghost function Patched(g: Geo, fs: Fs, i: nat, f: nat, o: nat, bytes: seq<nat>): Fs
    requires Ownership(g, fs) && i < |fs.inodes| && f < MAXFILE && HasBlock(g, fs, i, f) && o + |bytes| <= BSIZE
  {
    assert SlotOk(g, fs, i, SlotOf(f));
    var b := BlockAt(fs, i, SlotOf(f));
    assert IsBlock(fs.blocks[b]);
    fs.(blocks := fs.blocks[b := Splice(fs.blocks[b], o, bytes)])
  }

  ghost predicate Bytes(bytes: seq<nat>) {
    forall x :: 0 <= x < |bytes| ==> bytes[x] < 256
  }

  /** The copy moves no slot; only file block f of inode i has new contents. */
  lemma {:induction false} PatchedSlots(g: Geo, fs: Fs, i: nat, f: nat, o: nat, bytes: seq<nat>, j: nat, l: nat)
    requires Ownership(g, fs) && i < |fs.inodes| && f < MAXFILE && HasBlock(g, fs, i, f) && o + |bytes| <= BSIZE
    requires Bytes(bytes) && j < |fs.inodes| && l < NSLOT
    ensures Shape(g, Patched(g, fs, i, f, o, bytes))
    ensures BlockAt(Patched(g, fs, i, f, o, bytes), j, l) == BlockAt(fs, j, l)
    ensures BlockAt(fs, j, l) != 0 && (j, l) != (i, SlotOf(f)) ==>
              BlockAt(fs, j, l) < g.size
              && Patched(g, fs, i, f, o, bytes).blocks[BlockAt(fs, j, l)] == fs.blocks[BlockAt(fs, j, l)]
  {
    assert SlotOk(g, fs, i, SlotOf(f)) && SlotOk(g, fs, j, l);
    assert Apart(g, fs, i, SlotOf(f), j, NDIRECT) && Apart(g, fs, i, SlotOf(f), j, l);
    var b := BlockAt(fs, i, SlotOf(f));
    assert IsBlock(fs.blocks[b]);
    assert IsBlock(Splice(fs.blocks[b], o, bytes));
  }

  lemma {:induction false} PatchedOwnership(g: Geo, fs: Fs, i: nat, f: nat, o: nat, bytes: seq<nat>)
    requires Ownership(g, fs) && i < |fs.inodes| && f < MAXFILE && HasBlock(g, fs, i, f) && o + |bytes| <= BSIZE
    requires Bytes(bytes)
    ensures Ownership(g, Patched(g, fs, i, f, o, bytes))
    ensures forall j :: 0 <= j < |fs.inodes| && NoHoles(g, fs, j) ==> NoHoles(g, Patched(g, fs, i, f, o, bytes), j)
  {
    var r := Patched(g, fs, i, f, o, bytes);
    PatchedSlots(g, fs, i, f, o, bytes, i, 0);
    SameSlots(g, fs, r, i, f, o, bytes);
  }

  lemma {:induction false} SameSlots(g: Geo, fs: Fs, r: Fs, i: nat, f: nat, o: nat, bytes: seq<nat>)
    requires Ownership(g, fs) && i < |fs.inodes| && f < MAXFILE && HasBlock(g, fs, i, f) && o + |bytes| <= BSIZE
    requires Bytes(bytes) && r == Patched(g, fs, i, f, o, bytes) && Shape(g, r)
    ensures Ownership(g, r) && forall j :: 0 <= j < |fs.inodes| && NoHoles(g, fs, j) ==> NoHoles(g, r, j)
  {
    forall j, l | 0 <= j < |r.inodes| && 0 <= l < NSLOT ensures SlotOk(g, r, j, l) {
      assert SlotOk(g, fs, j, l);
      PatchedSlots(g, fs, i, f, o, bytes, j, l);
    }
    forall j, l, m, n | 0 <= j < |r.inodes| && 0 <= l < NSLOT && 0 <= m < |r.inodes| && 0 <= n < NSLOT
      ensures Apart(g, r, j, l, m, n)
    {
      assert Apart(g, fs, j, l, m, n);
      PatchedSlots(g, fs, i, f, o, bytes, j, l);
      PatchedSlots(g, fs, i, f, o, bytes, m, n);
    }
    forall c | 0 <= c < g.size ensures BitOk(g, r, c) {
      assert BitOk(g, fs, c);
      if c >= g.dataStart && fs.bits[c] {
        var j, l :| Owns(g, fs, j, l, c);
        PatchedSlots(g, fs, i, f, o, bytes, j, l);
        assert Owns(g, r, j, l, c);
      }
    }
    forall j | 0 <= j < |fs.inodes| && NoHoles(g, fs, j) ensures NoHoles(g, r, j) {
      forall h | 0 <= h < MAXFILE && h * BSIZE < r.inodes[j].size ensures HasBlock(g, r, j, h) {
        assert HasBlock(g, fs, j, h);
        PatchedSlots(g, fs, i, f, o, bytes, j, SlotOf(h));
      }
    }
  }

  // ----- emptying an inode --------------------------------------------------------------------------

  /** b is in a slot of inode i that is listed in `done`. */
  ghost predicate FreedBy(g: Geo, fs: Fs, i: nat, done: set<nat>, b: nat)
    requires Shape(g, fs)
  {
    b != 0 && exists k :: k in done && Owns(g, fs, i, k, b)
  }

  /** The bits after the blocks in the slots `done` of inode i have been freed. */
  ghost predicate BitsWithout(g: Geo, fs: Fs, i: nat, done: set<nat>, bits: seq<bool>)
    requires Shape(g, fs)
  {
    |bits| == g.size && forall b :: 0 <= b < g.size ==> (bits[b] <==> fs.bits[b] && !FreedBy(g, fs, i, done, b))
  }

  /** Each block of the inode is still marked used when its turn comes, so bfree never finds it free. */
  lemma {:induction false} FreeNext(g: Geo, fs: Fs, i: nat, done: set<nat>, bits: seq<bool>, k: nat)
    requires Ownership(g, fs) && i < |fs.inodes| && k < NSLOT && k !in done && BitsWithout(g, fs, i, done, bits)
    ensures BlockAt(fs, i, k) == 0 ==> BitsWithout(g, fs, i, done + {k}, bits)
    ensures BlockAt(fs, i, k) != 0 ==>
              var b := BlockAt(fs, i, k);
              0 < b < g.size && bits[b] && BitsWithout(g, fs, i, done + {k}, bits[b := false])
  {
    assert SlotOk(g, fs, i, k);
    var b := BlockAt(fs, i, k);
    forall c | 0 <= c < g.size
      ensures FreedBy(g, fs, i, done + {k}, c) <==> FreedBy(g, fs, i, done, c) || (c == b && b != 0)
    {
      if c == b && b != 0 { assert k in done + {k} && Owns(g, fs, i, k, c); }
      if FreedBy(g, fs, i, done, c) { var l :| l in done && Owns(g, fs, i, l, c); assert l in done + {k}; }
    }
    if b != 0 && FreedBy(g, fs, i, done, b) {
      var l :| l in done && Owns(g, fs, i, l, b);
      SlotsApart(g, fs, i, k, i, l);
      assert false;
    }
  }

  /** The slots 0..n-1. */
  ghost function SlotsBelow(n: nat): (s: set<nat>)
    ensures forall k: nat :: k in s <==> k < n
  {
    if n == 0 then {} else SlotsBelow(n - 1) + {n - 1}
  }

  ghost function AllSlots(): (s: set<nat>)
    ensures forall k: nat :: k in s <==> k < NSLOT
  {
    SlotsBelow(NSLOT)
  }

  /** The inode table with inode i emptied. */
  ghost function Emptied(inodes: seq<Inode>, i: nat): (r: seq<Inode>)
    requires i < |inodes|
    ensures |r| == |inodes|
  {
    inodes[i := Inode(seq(NDIRECT + 1, _ => 0), 0)]
  }

  /** itrunc's result: inode i owns nothing, its blocks are free, everything else is as before. */
  lemma {:induction false} TruncatedInv(g: Geo, fs: Fs, i: nat, bits: seq<bool>)
    requires Ownership(g, fs) && i < |fs.inodes| && BitsWithout(g, fs, i, AllSlots(), bits)
    ensures Ownership(g, Fs(bits, fs.blocks, Emptied(fs.inodes, i)))
    ensures NoHoles(g, Fs(bits, fs.blocks, Emptied(fs.inodes, i)), i)
    ensures forall j :: 0 <= j < |fs.inodes| && NoHoles(g, fs, j) ==>
              NoHoles(g, Fs(bits, fs.blocks, Emptied(fs.inodes, i)), j)
    ensures forall j, k :: 0 <= j < |fs.inodes| && 0 <= k < NSLOT ==>
              BlockAt(Fs(bits, fs.blocks, Emptied(fs.inodes, i)), j, k) == if j == i then 0 else BlockAt(fs, j, k)
  {
    var r := Fs(bits, fs.blocks, Emptied(fs.inodes, i));
    forall j, k | 0 <= j < |r.inodes| && 0 <= k < NSLOT ensures SlotOk(g, r, j, k) {
      assert SlotOk(g, fs, j, k);
      if j != i { OtherKept(g, fs, i, j, k); }
    }
    forall j, l, m, n | 0 <= j < |r.inodes| && 0 <= l < NSLOT && 0 <= m < |r.inodes| && 0 <= n < NSLOT
      ensures Apart(g, r, j, l, m, n)
    {
      assert Apart(g, fs, j, l, m, n);
    }
    forall c | 0 <= c < g.size ensures BitOk(g, r, c) {
      assert BitOk(g, fs, c);
      TruncatedBit(g, fs, r, i, c);
    }
    forall j | 0 <= j < |fs.inodes| && NoHoles(g, fs, j) ensures NoHoles(g, r, j) {
      forall f | 0 <= f < MAXFILE && f * BSIZE < r.inodes[j].size ensures HasBlock(g, r, j, f) {
        assert HasBlock(g, fs, j, f);
      }
    }
  }

  lemma {:induction false} OtherKept(g: Geo, fs: Fs, i: nat, j: nat, k: nat)
    requires Ownership(g, fs) && i < |fs.inodes| && j < |fs.inodes| && j != i && k < NSLOT
    ensures !FreedBy(g, fs, i, AllSlots(), BlockAt(fs, j, k))
  {
    var b := BlockAt(fs, j, k);
    if FreedBy(g, fs, i, AllSlots(), b) {
      var l :| l in AllSlots() && Owns(g, fs, i, l, b);
      SlotsApart(g, fs, j, k, i, l);
      assert false;
    }
  }

  lemma {:induction false} TruncatedBit(g: Geo, fs: Fs, r: Fs, i: nat, c: nat)
    requires Ownership(g, fs) && i < |fs.inodes| && BitsWithout(g, fs, i, AllSlots(), r.bits)
    requires r == Fs(r.bits, fs.blocks, Emptied(fs.inodes, i)) && Shape(g, r) && c < g.size && BitOk(g, fs, c)
    ensures BitOk(g, r, c)
  {
    if c < g.dataStart {
      if FreedBy(g, fs, i, AllSlots(), c) {
        var l :| l in AllSlots() && Owns(g, fs, i, l, c);
        SlotsApart(g, fs, i, l, i, l);
        assert false;
      }
    } else if r.bits[c] {
      var j, k :| Owns(g, fs, j, k, c);
      if j == i { assert false; }
      assert Owns(g, r, j, k, c);
    }
  }
}
