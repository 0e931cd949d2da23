/** balloc, bfree, bmap, itrunc, readi and writei of kernel/fs.c, and the chunking loop of filewrite. */
module InodeFile {
  import opened InodeBlocks
  import opened InodeContents
  import GroupCommit

  const IPB: nat := BSIZE / 64      // inodes per block
  const MAXOPBLOCKS: nat := GroupCommit.MAXOPBLOCKS

  /** A change to block b, or to its bit, is covered by the logged blocks. */
  ghost predicate ChangeLogged(fs: Fs, r: Fs, log: set<nat>, bpb: nat, bmapStart: nat, b: nat)
    requires bpb > 0 && b < |fs.blocks| == |r.blocks| == |fs.bits| == |r.bits|
  {
    && (fs.blocks[b] != r.blocks[b] ==> b in log)
    && (fs.bits[b] != r.bits[b] ==> bmapStart + b / bpb in log)
    && (!fs.bits[b] && r.bits[b] ==> b in log)
  }

  /** Every block that differs between fs and r, free map included, has been passed to log_write. */
  ghost predicate Recorded(fs: Fs, r: Fs, log: set<nat>, bpb: nat, bmapStart: nat) {
    && bpb > 0 && |fs.blocks| == |r.blocks| == |fs.bits| == |r.bits|
    && forall b :: 0 <= b < |fs.blocks| ==> ChangeLogged(fs, r, log, bpb, bmapStart, b)
  }

  lemma {:induction false} RecordedTwice(fs: Fs, m: Fs, r: Fs, log0: set<nat>, log1: set<nat>, bpb: nat, bmapStart: nat)
    requires Recorded(fs, m, log0, bpb, bmapStart) && Recorded(m, r, log1, bpb, bmapStart) && log0 <= log1
    ensures Recorded(fs, r, log1, bpb, bmapStart)
  {
    forall b | 0 <= b < |fs.blocks| ensures ChangeLogged(fs, r, log1, bpb, bmapStart, b) {
      assert ChangeLogged(fs, m, log0, bpb, bmapStart, b) && ChangeLogged(m, r, log1, bpb, bmapStart, b);
    }
  }

  /** The disk layout of mkfs: inode blocks, then the free map, then the data blocks. */
  ghost predicate LaidOut(g: Geo, bpb: nat, bmapStart: nat, inodeStart: nat, ninodes: nat) {
    && bpb > 0 && inodeStart + ninodes / IPB < bmapStart
    && bmapStart + g.size / bpb < g.dataStart
  }

  lemma {:induction false} SlotIs(g: Geo, fs: Fs, i: nat, f: nat)
    requires Ownership(g, fs) && i < |fs.inodes| && f < MAXFILE
    ensures |fs.inodes[i].addrs| == 13
    ensures f < 12 ==> BlockAt(fs, i, SlotOf(f)) == fs.inodes[i].addrs[f]
    ensures f >= 12 && fs.inodes[i].addrs[12] == 0 ==> BlockAt(fs, i, SlotOf(f)) == 0
    ensures f >= 12 && fs.inodes[i].addrs[12] != 0 ==>
              && fs.inodes[i].addrs[12] < |fs.blocks| && |fs.blocks[fs.inodes[i].addrs[12]]| == 1024
              && BlockAt(fs, i, SlotOf(f)) == Entry(fs.blocks[fs.inodes[i].addrs[12]], f - 12)
  {
    assert SlotOk(g, fs, i, NDIRECT);
    if fs.inodes[i].addrs[12] != 0 { assert IsBlock(fs.blocks[fs.inodes[i].addrs[12]]); }
  }

  lemma {:induction false} FreedBits(g: Geo, fs: Fs, i: nat, bits: seq<bool>)
    requires Ownership(g, fs) && i < |fs.inodes| && BitsWithout(g, fs, i, AllSlots(), bits)
    ensures |bits| == |fs.bits|
    ensures forall b :: 0 <= b < |bits| ==> (bits[b] <==> fs.bits[b] && KeepsBit(fs, i, b))
  {
    forall b | 0 <= b < |bits| ensures bits[b] <==> fs.bits[b] && KeepsBit(fs, i, b) {
      if FreedBy(g, fs, i, AllSlots(), b) {
        assert !KeepsBit(fs, i, b);
      } else if !KeepsBit(fs, i, b) {
        var k :| 0 <= k < NSLOT && BlockAt(fs, i, k) == b;
        assert Owns(g, fs, i, k, b);
        assert FreedBy(g, fs, i, AllSlots(), b);
      }
    }
  }

  /** Block b is the boot block or in none of the 269 slots of inode i. */
  ghost predicate KeepsBit(fs: Fs, i: nat, b: nat)
    requires i < |fs.inodes| && |fs.inodes[i].addrs| == 13 && forall b :: 0 <= b < |fs.blocks| ==> IsBlock(fs.blocks[b])
  {
    b == 0 || forall k :: 0 <= k < 269 ==> BlockAt(fs, i, k) != b
  }

  class FileSystem {
    const g: Geo
    const bpb: nat            // free-map bits per block (BPB, 8 * BSIZE in the source)
    const bmapStart: nat
    const inodeStart: nat
    var bits: seq<bool>
    var blocks: seq<Block>
    var inodes: seq<Inode>
    /** Block numbers passed to log_write in the current transaction: in order, and as a set. */
    ghost var writes: seq<nat>
    ghost var logged: set<nat>

    constructor (
      g: Geo, bpb: nat, bmapStart: nat, inodeStart: nat, bits: seq<bool>, blocks: seq<Block>, inodes: seq<Inode>)
      requires LaidOut(g, bpb, bmapStart, inodeStart, |inodes|) && Inv(g, Fs(bits, blocks, inodes))
      ensures Valid() && this.g == g && this.bpb == bpb && this.bmapStart == bmapStart && this.inodeStart == inodeStart
      ensures View() == Fs(bits, blocks, inodes) && writes == []
    {
      this.g, this.bpb, this.bmapStart, this.inodeStart := g, bpb, bmapStart, inodeStart;
      this.bits, this.blocks, this.inodes, writes, logged := bits, blocks, inodes, [], {};
    }

    ghost function View(): Fs
      reads this
    {
      Fs(bits, blocks, inodes)
    }

    /** The disk is laid out as mkfs does it, and `logged` is what has been written. */
    ghost predicate Ready()
      reads this
    {
      LaidOut(g, bpb, bmapStart, inodeStart, |inodes|) && logged == GroupCommit.Elems(writes)
    }

    ghost predicate Valid()
      reads this
    {
      Ready() && Inv(g, View())
    }

    /** The call of log_write for block b. */
    method LogBlock(b: nat)
      requires Ready()
      modifies this`logged, this`writes
      ensures Ready() && logged == old(logged) + {b} && writes == old(writes) + [b]
    {
      logged, writes := logged + {b}, writes + [b];
    }

    /** Everything changed since fs (when log0 was logged) has been logged. */
    ghost predicate Covered(fs: Fs, log0: set<nat>)
      reads this
    {
      log0 <= logged && Recorded(fs, View(), logged, bpb, bmapStart)
    }

    /** Every change to the free map since bits0 has been logged. */
    ghost predicate MapLogged(bits0: seq<bool>)
      reads this
    {
      && bpb > 0 && |bits0| == |bits|
      && forall b :: 0 <= b < |bits| && bits[b] != bits0[b] ==> bmapStart + b / bpb in logged
    }

    /** Every block is in use. */
    ghost predicate Full()
      reads this
    {
      |bits| == g.size && forall c :: 0 <= c < g.size ==> bits[c]
    }

    /** Block of the free map that holds the bit for b. */
    function Bblock(b: nat): nat
      requires bpb > 0
    {
      bmapStart + b / bpb
    }

    /** Block of the inode table that holds inode i. */
    function Iblock(i: nat): (b: nat)
      ensures b == inodeStart + i / 16
    {
      inodeStart + i / IPB
    }

    /** balloc: the first free block, marked used and zeroed; 0 if there is none. */
    method Balloc() returns (b: nat)
      requires Ready() && Ownership(g, View())
      modifies this`bits, this`blocks, this`logged, this`writes
      ensures Ready() && (b == 0 ==> View() == old(View()) && logged == old(logged) && Full())
      ensures b != 0 ==>
                && g.dataStart <= b < g.size && !old(bits)[b] && (forall c :: 0 <= c < b ==> old(bits)[c])
                && View() == Taken(old(View()), b)
                && bits == old(bits)[b := true] && inodes == old(inodes)
                && blocks == old(blocks)[b := blocks[b]] && |blocks[b]| == 1024
                && (forall x :: 0 <= x < 1024 ==> blocks[b][x] == 0)
                && logged == old(logged) + {Bblock(b), b}
      ensures Covered(old(View()), old(logged))
    {
      var base := 0;
      while base < g.size
        invariant 0 <= base && View() == old(View()) && logged == old(logged)
        invariant forall c :: 0 <= c < base && c < g.size ==> bits[c]
      {
        var bi := 0;
        while bi < bpb && base + bi < g.size
          invariant 0 <= bi <= bpb && View() == old(View()) && logged == old(logged)
          invariant forall c :: 0 <= c < base + bi && c < g.size ==> bits[c]
        {
          if !bits[base + bi] {
            b := base + bi;
            assert BitOk(g, View(), b);
            bits := bits[b := true];
            LogBlock(Bblock(b));
            blocks := blocks[b := Zeros()];
            LogBlock(b);
            return;
          }
          bi := bi + 1;
        }
        base := base + bpb;
      }
      b := 0;
    }

    /** bfree; the source panics on a block that is already free. */
    method Bfree(b: nat)
      requires Ready() && b < |bits| && bits[b]
      modifies this`bits, this`logged, this`writes
      ensures Ready() && bits == old(bits)[b := false] && logged == old(logged) + {Bblock(b)}
    {
      bits := bits[b := false];
      LogBlock(Bblock(b));
    }

    /** The blocks that using the indirect block of inode i can add to a transaction. */
    ghost function PointerBlocks(i: nat): set<nat>
      requires bpb > 0 && i < |inodes| && |inodes[i].addrs| == NDIRECT + 1
      reads this
    {
      var ind := inodes[i].addrs[NDIRECT];
      if ind == 0 then {} else {ind, Bblock(ind)}
    }

    /** Fill the empty slot k of inode i with a new block, as bmap does in three places. */
    method FillSlot(i: nat, k: nat) returns (b: nat)
      requires Valid() && i < |inodes| && k < NSLOT && BlockAt(View(), i, k) == 0
      requires k > NDIRECT ==> BlockAt(View(), i, NDIRECT) != 0
      modifies this`bits, this`blocks, this`inodes, this`logged, this`writes
      ensures Valid() && Grown(g, old(View()), View()) && |inodes| == |old(inodes)|
      ensures forall j, l :: 0 <= j < |inodes| && 0 <= l < NSLOT ==>
                BlockAt(View(), j, l) == if (j, l) == (i, k) then b else BlockAt(old(View()), j, l)
      ensures b == 0 ==> View() == old(View()) && logged == old(logged) && Full()
      ensures b != 0 ==>
                && logged == old(logged) + {Bblock(b), b} + (if k > NDIRECT then {inodes[i].addrs[NDIRECT]} else {})
      ensures Covered(old(View()), old(logged))
    {
      ghost var fs := View();
      b := Balloc();
      if b == 0 {
        GrownSelf(g, fs);
        return;
      }
      GrownByFill(g, fs, i, k, b);
      GrownInv(g, fs, Filled(g, fs, i, k, b));
      if k <= NDIRECT {
        inodes := inodes[i := inodes[i].(addrs := inodes[i].addrs[k := b])];
      } else {
        var ind := inodes[i].addrs[NDIRECT];
        assert SlotOk(g, fs, i, NDIRECT) && IsBlock(blocks[ind]);
        blocks := blocks[ind := PutEntry(blocks[ind], k - NDIRECT - 1, b)];
        LogBlock(ind);
      }
      assert View() == Filled(g, fs, i, k, b);
      forall c | 0 <= c < g.size ensures ChangeLogged(fs, View(), logged, bpb, bmapStart, c) { }
      forall j, l | 0 <= j < |inodes| && 0 <= l < NSLOT
        ensures BlockAt(View(), j, l) == if (j, l) == (i, k) then b else BlockAt(fs, j, l)
      {
        FilledSlots(g, fs, i, k, b, j, l);
      }
    }

    /**
     * bmap: the block of file block f of inode i, allocated if missing; 0 if the disk is full.
     * `fresh` says whether a block for f was allocated.
     */
    method Bmap(i: nat, f: nat) returns (addr: nat, ghost isNew: bool)
      requires Valid() && i < |inodes| && f < MAXFILE
      modifies this`bits, this`blocks, this`inodes, this`logged, this`writes
      ensures Valid() && Grown(g, old(View()), View()) && |inodes| == |old(inodes)|
      ensures addr == BlockAt(View(), i, SlotOf(f))
      ensures f < 12 ==> addr == inodes[i].addrs[f]
      ensures f >= 12 && inodes[i].addrs[12] == 0 ==> addr == 0
      ensures f >= 12 && inodes[i].addrs[12] != 0 ==>
                && inodes[i].addrs[12] < |blocks| && |blocks[inodes[i].addrs[12]]| == 1024
                && addr == Entry(blocks[inodes[i].addrs[12]], f - 12)
      ensures HasBlock(g, old(View()), i, f) ==> View() == old(View()) && logged == old(logged) && !isNew
      ensures old(inodes)[i].addrs[NDIRECT] != 0 ==> inodes[i].addrs[NDIRECT] == old(inodes)[i].addrs[NDIRECT]
      ensures logged <= old(logged) + (if isNew then {Bblock(addr), addr} else {}) + PointerBlocks(i)
      ensures addr == 0 ==> Full() && !isNew
      ensures Covered(old(View()), old(logged))
    {
      ghost var fs := View();
      GrownSelf(g, fs);
      isNew := false;
      if f < NDIRECT {
        addr := inodes[i].addrs[f];
        if addr == 0 {
          addr := FillSlot(i, f);
          isNew := addr != 0;
          assert BlockAt(View(), i, NDIRECT) == BlockAt(fs, i, NDIRECT);
        }
        SlotIs(g, View(), i, f);
        return;
      }
      addr := inodes[i].addrs[NDIRECT];
      if addr == 0 {
        addr := FillSlot(i, NDIRECT);
        assert BlockAt(View(), i, NDIRECT) == addr;
        if addr == 0 {
          assert BlockAt(View(), i, SlotOf(f)) == BlockAt(fs, i, SlotOf(f)) == 0;
          return;
        }
      }
      ghost var mid, log1 := View(), logged;
      addr, isNew := IndirectEntry(i, f);
      GrownTwice(g, fs, mid, View());
      RecordedTwice(fs, mid, View(), log1, logged, bpb, bmapStart);
      SlotIs(g, View(), i, f);
    }

    /** The second half of bmap: entry f of the indirect block, which exists. */
    method IndirectEntry(i: nat, f: nat) returns (addr: nat, ghost isNew: bool)
      requires Valid() && i < |inodes| && NDIRECT <= f < MAXFILE && BlockAt(View(), i, NDIRECT) != 0
      modifies this`bits, this`blocks, this`inodes, this`logged, this`writes
      ensures Valid() && Grown(g, old(View()), View()) && |inodes| == |old(inodes)|
      ensures addr == BlockAt(View(), i, SlotOf(f))
      ensures HasBlock(g, old(View()), i, f) ==> View() == old(View()) && logged == old(logged) && !isNew
      ensures inodes[i].addrs[NDIRECT] == old(inodes)[i].addrs[NDIRECT]
      ensures logged <= old(logged) + (if isNew then {Bblock(addr), addr} else {}) + PointerBlocks(i)
      ensures addr == 0 ==> Full() && !isNew
      ensures Covered(old(View()), old(logged))
    {
      ghost var fs := View();
      GrownSelf(g, fs);
      isNew := false;
      var ind := inodes[i].addrs[NDIRECT];
      assert SlotOk(g, fs, i, NDIRECT) && IsBlock(blocks[ind]);
      addr := Entry(blocks[ind], f - NDIRECT);
      if addr == 0 {
        addr := FillSlot(i, SlotOf(f));
        isNew := addr != 0;
        assert BlockAt(View(), i, NDIRECT) == BlockAt(fs, i, NDIRECT);
      }
    }

    /** itrunc: every block of inode i is freed exactly once; no other inode is affected. */
    method Itrunc(i: nat)
      requires Valid() && i < |inodes|
      modifies this`bits, this`inodes, this`logged, this`writes
      ensures Valid() && inodes == Emptied(old(inodes), i) && FileBytes(g, View(), i) == []
      ensures inodes == old(inodes)[i := inodes[i]] && inodes[i].size == 0 && |inodes[i].addrs| == 13
      ensures forall k :: 0 <= k < 13 ==> inodes[i].addrs[k] == 0
      ensures BitsWithout(g, old(View()), i, AllSlots(), bits)
      ensures |bits| == |old(bits)|
      ensures forall b :: 0 <= b < |bits| ==> (bits[b] <==> old(bits)[b] && KeepsBit(old(View()), i, b))
      ensures MapLogged(old(bits)) && old(logged) <= logged && inodeStart + i / 16 in logged
      ensures forall j, k :: 0 <= j < |inodes| && 0 <= k < NSLOT ==>
                BlockAt(View(), j, k) == if j == i then 0 else BlockAt(old(View()), j, k)
    {
      ghost var fs := View();
      DropBlocks(i);
      inodes := inodes[i := inodes[i].(size := 0)];
      LogBlock(Iblock(i));
      assert inodes[i].addrs == seq(NDIRECT + 1, _ => 0);
      assert inodes == Emptied(fs.inodes, i);
      TruncatedInv(g, fs, i, bits);
      FreedBits(g, fs, i, bits);
    }

    /** itrunc up to the new size. */
    method DropBlocks(i: nat)
      requires Valid() && i < |inodes|
      modifies this`bits, this`inodes, this`logged, this`writes
      ensures Ready() && BitsWithout(g, old(View()), i, AllSlots(), bits)
      ensures MapLogged(old(bits)) && old(logged) <= logged
      ensures |inodes| == |old(inodes)| && inodes == old(inodes)[i := inodes[i]]
      ensures |inodes[i].addrs| == NDIRECT + 1 && forall k :: 0 <= k <= NDIRECT ==> inodes[i].addrs[k] == 0
    {
      ghost var fs := View();
      FreeDirect(i);
      if inodes[i].addrs[NDIRECT] != 0 {
        FreeIndirect(i, fs);
        inodes := inodes[i := inodes[i].(addrs := inodes[i].addrs[NDIRECT := 0])];
      } else {
        NoIndirect(g, fs, i, bits);
      }
    }

    /** Free the block of slot k of inode i of fs, if there is one; bfree's panic cannot happen. */
    method FreeSlot(b: nat, ghost i: nat, ghost k: nat, ghost fs: Fs, ghost done: set<nat>)
      requires Ready() && Ownership(g, fs) && i < |fs.inodes| && k < NSLOT && k !in done && b == BlockAt(fs, i, k)
      requires BitsWithout(g, fs, i, done, bits) && MapLogged(fs.bits)
      modifies this`bits, this`logged, this`writes
      ensures Ready() && BitsWithout(g, fs, i, done + {k}, bits) && MapLogged(fs.bits) && old(logged) <= logged
    {
      FreeNext(g, fs, i, done, bits, k);
      if b != 0 {
        Bfree(b);
      }
    }

    /** The direct part of itrunc. */
    method FreeDirect(i: nat)
      requires Valid() && i < |inodes|
      modifies this`bits, this`inodes, this`logged, this`writes
      ensures Ready() && BitsWithout(g, old(View()), i, SlotsBelow(NDIRECT), bits)
      ensures MapLogged(old(bits)) && old(logged) <= logged
      ensures inodes == old(inodes)[i := old(inodes)[i].(addrs := ZeroFirst(old(inodes)[i].addrs, NDIRECT))]
    {
      ghost var fs := View();
      var k := 0;
      NothingFreed(g, fs, i);
      assert ZeroFirst(fs.inodes[i].addrs, 0) == fs.inodes[i].addrs;
      while k < NDIRECT
        invariant 0 <= k <= NDIRECT && Ready() && blocks == fs.blocks && BitsWithout(g, fs, i, SlotsBelow(k), bits)
        invariant MapLogged(fs.bits) && old(logged) <= logged
        invariant inodes == fs.inodes[i := fs.inodes[i].(addrs := ZeroFirst(fs.inodes[i].addrs, k))]
      {
        FreeSlot(inodes[i].addrs[k], i, k, fs, SlotsBelow(k));
        inodes := inodes[i := inodes[i].(addrs := inodes[i].addrs[k := 0])];
        ZeroNext(fs.inodes[i].addrs, k);
        k := k + 1;
      }
    }

    /** The indirect part of itrunc: all entries, then the indirect block itself. */
    method FreeIndirect(i: nat, ghost fs: Fs)
      requires Ready() && Ownership(g, fs) && i < |fs.inodes| == |inodes| && |inodes[i].addrs| == NDIRECT + 1
      requires blocks == fs.blocks && inodes[i].addrs[NDIRECT] == fs.inodes[i].addrs[NDIRECT] != 0
      requires BitsWithout(g, fs, i, SlotsBelow(NDIRECT), bits) && MapLogged(fs.bits)
      modifies this`bits, this`logged, this`writes
      ensures Ready() && BitsWithout(g, fs, i, AllSlots(), bits) && MapLogged(fs.bits) && old(logged) <= logged
    {
      var ind := inodes[i].addrs[NDIRECT];
      assert SlotOk(g, fs, i, NDIRECT) && IsBlock(blocks[ind]);
      var j := 0;
      while j < NINDIRECT
        invariant 0 <= j <= NINDIRECT && Ready() && BitsWithout(g, fs, i, EntriesBelow(j), bits)
        invariant MapLogged(fs.bits) && old(logged) <= logged
      {
        EntriesNext(j);
        FreeSlot(Entry(blocks[ind], j), i, NDIRECT + 1 + j, fs, EntriesBelow(j));
        j := j + 1;
      }
      EntriesAll();
      FreeSlot(ind, i, NDIRECT, fs, EntriesBelow(NINDIRECT));
    }

    /** readi of n bytes at off: exactly the file's bytes there; nothing is allocated. */
    method Readi(i: nat, off: nat, n: nat) returns (dst: seq<nat>)
      requires Valid() && i < |inodes| && off < UINT32 && n < UINT32
      modifies this`bits, this`blocks, this`inodes, this`logged, this`writes
      ensures Valid() && View() == old(View()) && logged == old(logged)
      ensures off > inodes[i].size || off + n >= UINT32 ==> dst == []
      ensures off <= inodes[i].size && off + n < UINT32 ==>
                var end := if off + n > inodes[i].size then inodes[i].size else off + n;
                dst == FileBytes(g, View(), i)[off..end]
    {
      dst := [];
      if off > inodes[i].size || off + n >= UINT32 {
        return;
      }
      var len := n;
      if off + len > inodes[i].size {
        len := inodes[i].size - off;
      }
      dst := ReadBytes(i, off, len);
    }

    /** The loop of readi. */
    method ReadBytes(i: nat, off: nat, len: nat) returns (dst: seq<nat>)
      requires Valid() && i < |inodes| && off + len <= inodes[i].size
      modifies this`bits, this`blocks, this`inodes, this`logged, this`writes
      ensures Ready() && View() == old(View()) && logged == old(logged)
      ensures dst == FileBytes(g, View(), i)[off..off + len]
    {
      dst := [];
      ghost var fs := View();
      ghost var all := FileBytes(g, fs, i);
      var tot := 0;
      while tot < len
        invariant 0 <= tot <= len && Ready() && View() == fs && logged == old(logged)
        invariant dst == all[off..off + tot]
      {
        var m := Min(len - tot, BSIZE - (off + tot) % BSIZE);
        var piece := ReadPiece(i, off + tot, m);
        Glue(all, off, off + tot, off + tot + m);
        dst := dst + piece;
        tot := tot + m;
      }
    }

    /** One turn of the readi loop: m bytes from one block. */
    method ReadPiece(i: nat, cur: nat, m: nat) returns (piece: seq<nat>)
      requires Valid() && i < |inodes| && 0 < m && cur + m <= inodes[i].size && cur % BSIZE + m <= BSIZE
      modifies this`bits, this`blocks, this`inodes, this`logged, this`writes
      ensures Ready() && View() == old(View()) && logged == old(logged)
      ensures piece == FileBytes(g, View(), i)[cur..cur + m]
    {
      PieceOf(g, View(), i, cur, m);
      InFile(g, View(), i, cur);
      ghost var isNew;
      var addr;
      addr, isNew := Bmap(i, cur / BSIZE);
      piece := blocks[addr][cur % BSIZE..cur % BSIZE + m];
    }

    /**
     * writei of src at off: fails on a bad range, else writes a prefix of src (all of it unless the disk
     * is full), and the file is exactly its old contents with that prefix spliced in.
     */
    method Writei(i: nat, off: nat, src: seq<nat>) returns (r: int)
      requires Valid() && i < |inodes| && off < UINT32 && |src| < UINT32 && Bytes(src)
      modifies this`bits, this`blocks, this`inodes, this`logged, this`writes
      ensures Valid() && |inodes| == |old(inodes)|
      ensures r == -1 <==> off > old(inodes)[i].size || off + |src| >= 0x1_0000_0000 || off + |src| > 268 * 1024
      ensures r == -1 ==> View() == old(View()) && logged == old(logged)
      ensures r != -1 ==>
                && 0 <= r <= |src| && (r < |src| ==> Full() && !HasBlock(g, View(), i, (off + r) / BSIZE))
                && FileBytes(g, View(), i) == SpliceFile(FileBytes(g, old(View()), i), off, src[..r])
                && forall j :: 0 <= j < |inodes| && j != i ==> FileBytes(g, View(), j) == FileBytes(g, old(View()), j)
      ensures old(writes) == [] && |src| <= 3 * BSIZE ==> |logged| <= MAXOPBLOCKS && GroupCommit.InBudget(writes)
      ensures r != -1 ==> Covered(old(View()), {}) && Iblock(i) in logged
      ensures forall j, k :: 0 <= j < |inodes| && 0 <= k < NSLOT ==> SlotKept(g, old(View()), View(), j, k)
    {
      if off > inodes[i].size || off + |src| >= UINT32 {
        return -1;
      }
      if off + |src| > MAXFILE * BSIZE {
        return -1;
      }
      ghost var fs := View();
      var tot;
      ghost var t, a;
      tot, t, a := WriteBlocks(i, off, src);
      ghost var mid, log1, writes1 := View(), logged, writes;
      SetSize(i, off, tot, src, fs);
      forall c | 0 <= c < g.size ensures ChangeLogged(mid, View(), logged, bpb, bmapStart, c) { }
      RecordedTwice(fs, mid, View(), log1, logged, bpb, bmapStart);
      forall j, k | 0 <= j < |inodes| && 0 <= k < NSLOT ensures SlotKept(g, fs, View(), j, k) {
        assert SlotKept(g, fs, mid, j, k);
      }
      if old(writes) == [] && |src| <= 3 * BSIZE {
        Cost(off, |src|, t, a);
        assert writes[..|writes| - 1] == writes1;
      }
      return tot;
    }

    /** The end of writei: the new size, and iupdate. */
    method SetSize(i: nat, off: nat, tot: nat, ghost src: seq<nat>, ghost fs: Fs)
      requires Ready() && Progress(g, fs, View(), i, off, off + tot, src) && off <= fs.inodes[i].size
      requires off + tot <= MAXFILE * BSIZE
      modifies this`inodes, this`logged, this`writes
      ensures Valid() && |inodes| == |fs.inodes|
      ensures FileBytes(g, View(), i) == SpliceFile(FileBytes(g, fs, i), off, src[..tot])
      ensures forall j :: 0 <= j < |inodes| && j != i ==> FileBytes(g, View(), j) == FileBytes(g, fs, j)
      ensures logged == old(logged) + {Iblock(i)} && writes == old(writes) + [Iblock(i)]
      ensures bits == old(bits) && blocks == old(blocks)
      ensures forall j, k :: 0 <= j < |inodes| && 0 <= k < NSLOT ==> BlockAt(View(), j, k) == BlockAt(old(View()), j, k)
    {
      WriteResult(g, fs, View(), i, off, off + tot, src);
      ResizedOwnership(g, View(), i, Max(off + tot, fs.inodes[i].size));
      ghost var r := Resized(View(), i, Max(off + tot, fs.inodes[i].size));
      var size := if off + tot > inodes[i].size then off + tot else inodes[i].size;
      inodes := inodes[i := inodes[i].(size := size)];
      assert View() == r;
      LogBlock(Iblock(i));
    }

    /**
     * The loop of writei. t file blocks are touched and a of them are newly allocated; the transaction
     * gains at most t data blocks, a free-map blocks, and two for the indirect block.
     */
    method WriteBlocks(i: nat, off: nat, src: seq<nat>) returns (tot: nat, ghost t: nat, ghost a: nat)
      requires Valid() && i < |inodes| && Bytes(src) && off <= inodes[i].size && off + |src| <= MAXFILE * BSIZE
      modifies this`bits, this`blocks, this`inodes, this`logged, this`writes
      ensures Ready() && tot <= |src| && Progress(g, old(View()), View(), i, off, off + tot, src)
      ensures tot < |src| ==> Full() && !HasBlock(g, View(), i, (off + tot) / BSIZE)
      ensures Touched(off, |src|, t, a)
      ensures old(logged) == {} ==> |logged| <= t + a + 2
      ensures Covered(old(View()), {})
    {
      ghost var fs := View();
      ProgressStart(g, fs, i, off, src);
      forall c | 0 <= c < g.size ensures ChangeLogged(fs, View(), logged, bpb, bmapStart, c) { }
      ghost var data, maps: set<nat> := {}, {};
      tot, t, a := 0, 0, 0;
      ghost var count := logged == {};
      var full := false;
      while tot < |src| && !full
        invariant tot <= |src| && LoopOk(fs, i, off, tot, src, t, a, data, maps, count)
        invariant tot < |src| ==> AtBlock(off, tot, t)
        invariant full ==> tot < |src| && Full() && !HasBlock(g, View(), i, (off + tot) / BSIZE)
        decreases !full, |src| - tot
      {
        var m := Min(|src| - tot, BSIZE - (off + tot) % BSIZE);
        full, t, a, data, maps := WriteTurn(i, off, tot, m, src, fs, t, a, data, maps, count);
        tot := if full then tot else tot + m;
      }
      if count {
        CardThree(logged, data, maps, PointerBlocks(i));
      }
    }

    /** The invariant of the writei loop: contents so far, and what the transaction has been charged. */
    ghost predicate LoopOk(fs: Fs, i: nat, off: nat, tot: nat, src: seq<nat>, t: nat, a: nat,
                           data: set<nat>, maps: set<nat>, count: bool)
      reads this
    {
      && Ready() && Progress(g, fs, View(), i, off, off + tot, src)
      && Touched(off, |src|, t, a)
      && (count ==> Charged(logged, data, maps, PointerBlocks(i), t, a))
      && Covered(fs, {})
    }

    /** One turn of the writei loop with its accounting. */
    method WriteTurn(i: nat, off: nat, tot: nat, m: nat, src: seq<nat>, ghost fs: Fs, ghost t0: nat, ghost a0: nat,
                     ghost data0: set<nat>, ghost maps0: set<nat>, ghost count: bool)
      returns (full: bool, ghost t: nat, ghost a: nat, ghost data: set<nat>, ghost maps: set<nat>)
      requires LoopOk(fs, i, off, tot, src, t0, a0, data0, maps0, count) && AtBlock(off, tot, t0)
      requires tot < |src| && m == Min(|src| - tot, BSIZE - (off + tot) % BSIZE)
      requires Bytes(src) && off + |src| <= MAXFILE * BSIZE && off <= fs.inodes[i].size
      modifies this`bits, this`blocks, this`inodes, this`logged, this`writes
      ensures full ==> Full() && LoopOk(fs, i, off, tot, src, t, a, data, maps, count) && t == t0
      ensures full ==> !HasBlock(g, View(), i, (off + tot) / BSIZE)
      ensures !full ==>
          LoopOk(fs, i, off, tot + m, src, t, a, data, maps, count) && (tot + m < |src| ==> AtBlock(off, tot + m, t))
    {
      ghost var log0, ptr0, now := logged, PointerBlocks(i), View();
      if tot == 0 && off % BSIZE != 0 { FirstExists(g, View(), i, off); }
      var addr;
      ghost var isNew;
      addr, isNew := WriteBlock(i, off, tot, m, src, fs);
      RecordedTwice(fs, now, View(), log0, logged, bpb, bmapStart);
      if count {
        ChargeNext(log0, logged, data0, maps0, ptr0, PointerBlocks(i), addr, Bblock(addr), isNew, t0, a0);
      }
      t, a, data, maps := t0, a0, data0, maps0;
      full := addr == 0;
      if !full {
        TouchNext(off, |src|, tot, t, a, m, isNew);
        data, maps := data + {addr}, if isNew then maps + {Bblock(addr)} else maps;
        t, a := t + 1, if isNew then a + 1 else a;
      }
    }

    /** One turn of the writei loop: m bytes into one block; 0 if no block could be allocated. */
    method WriteBlock(
      i: nat, off: nat, tot: nat, m: nat, src: seq<nat>, ghost fs: Fs) returns (addr: nat, ghost isNew: bool)
      requires Ready() && Progress(g, fs, View(), i, off, off + tot, src) && Bytes(src)
      requires off + |src| <= MAXFILE * BSIZE
      requires 0 < m && tot + m <= |src| && (off + tot) % BSIZE + m <= BSIZE
      modifies this`bits, this`blocks, this`inodes, this`logged, this`writes
      ensures addr == 0 ==>
          Progress(g, fs, View(), i, off, off + tot, src) && Full() && !HasBlock(g, View(), i, (off + tot) / BSIZE)
      ensures addr != 0 ==> Progress(g, fs, View(), i, off, off + tot + m, src)
      ensures Ready() && (HasBlock(g, old(View()), i, (off + tot) / BSIZE) ==> !isNew)
      ensures old(PointerBlocks(i)) <= PointerBlocks(i)
      ensures logged <= old(logged) + (if addr != 0 then {addr} else {}) + (if isNew then {Bblock(addr)} else {})
                        + PointerBlocks(i)
      ensures isNew ==> addr != 0
      ensures Covered(old(View()), old(logged))
    {
      ghost var now := View();
      var cur := off + tot;
      addr, isNew := Bmap(i, cur / BSIZE);
      ProgressGrown(g, fs, now, View(), i, off, cur, src);
      if addr == 0 {
        return;
      }
      ghost var mid, log1 := View(), logged;
      assert HasBlock(g, mid, i, cur / BSIZE);
      ProgressPatch(g, fs, mid, i, off, cur, src, m);
      assert SlotOk(g, mid, i, SlotOf(cur / BSIZE)) && IsBlock(blocks[addr]);
      blocks := blocks[addr := Splice(blocks[addr], cur % BSIZE, src[tot..tot + m])];
      LogBlock(addr);
      assert View() == Patched(g, mid, i, cur / BSIZE, cur % BSIZE, src[cur - off..cur - off + m]);
      forall c | 0 <= c < g.size ensures ChangeLogged(mid, View(), logged, bpb, bmapStart, c) { }
      RecordedTwice(now, mid, View(), log1, logged, bpb, bmapStart);
    }
  }

  function Min(a: nat, b: nat): nat { if a < b then a else b }

  /** The largest chunk of one transaction in filewrite. */
  const CHUNK: nat := (MAXOPBLOCKS - 1 - 1 - 2) / 2 * BSIZE

  /** The number of transactions filewrite uses: one per chunk, the one that fails included. */
  function Chunks(n: nat, done: nat): nat
    requires done <= n
  {
    if done == n then (n + CHUNK - 1) / CHUNK else done / CHUNK + 1
  }

  /** After c turns of the loop of filewrite. */
  ghost predicate Counted(len: nat, n: nat, c: nat, failed: bool) {
    && n <= len && (failed ==> n < len && c > 0 && (c - 1) * CHUNK <= n < c * CHUNK)
    && (!failed ==> n == Min(len, c * CHUNK) && (c > 0 ==> (c - 1) * CHUNK < len))
  }

  lemma {:induction false} CountNext(len: nat, n: nat, c: nat, n1: nat, r: int)
    requires Counted(len, n, c, false) && n < len && n1 == Min(len - n, CHUNK) && -1 <= r <= n1
    ensures Counted(len, if r > 0 then n + r else n, c + 1, r != n1)
  {
  }

  lemma {:induction false} CountDone(len: nat, n: nat, c: nat, failed: bool)
    requires Counted(len, n, c, failed) && (failed || n == len)
    ensures c == Chunks(len, n) == if n == len then (len + 3071) / 3072 else n / 3072 + 1
  {
    if failed {
      Quotient(n, c - 1);
    } else if c > 0 {
      Quotient(len + CHUNK - 1, c);
    }
  }

  lemma {:induction false} Quotient(n: nat, q: nat)
    requires q * CHUNK <= n < (q + 1) * CHUNK
    ensures n / CHUNK == q
  {
  }

  /** One transaction: the blocks passed to log_write, in order, and the file system before and after it. */
  datatype Trans = Trans(writes: seq<nat>, before: Fs, after: Fs)

  /** It stays in the budget of one operation, and every change it makes has been logged. */
  ghost predicate TransOk(t: Trans, bpb: nat, bmapStart: nat) {
    && GroupCommit.InBudget(t.writes) && |GroupCommit.Elems(t.writes)| <= MAXOPBLOCKS
    && Recorded(t.before, t.after, GroupCommit.Elems(t.writes), bpb, bmapStart)
  }

  /** The transactions lead from one state of the file system to another. */
  ghost predicate Transactions(ts: seq<Trans>, bpb: nat, bmapStart: nat, before: Fs, after: Fs) {
    && (forall k :: 0 <= k < |ts| ==> TransOk(ts[k], bpb, bmapStart))
    && (forall k :: 0 <= k < |ts| ==> ts[k].before == if k == 0 then before else ts[k - 1].after)
    && after == if ts == [] then before else ts[|ts| - 1].after
  }

  lemma {:induction false} OneMoreTrans(ts: seq<Trans>, t: Trans, bpb: nat, bmapStart: nat, before: Fs, mid: Fs)
    requires Transactions(ts, bpb, bmapStart, before, mid) && TransOk(t, bpb, bmapStart) && t.before == mid
    ensures Transactions(ts + [t], bpb, bmapStart, before, t.after)
  {
    var us := ts + [t];
    forall k | 0 <= k < |us| ensures TransOk(us[k], bpb, bmapStart) { if k < |ts| { assert us[k] == ts[k]; } }
  }

  /**
   * The inode branch of filewrite at file offset off: one transaction per chunk, each within the budget of an
   * operation; together the chunks write a prefix of src, and all of it exactly when the result is |src|.
   */
  method FileWrite(
    fs: FileSystem, i: nat, off: nat, src: seq<nat>) returns (ret: int, newOff: nat, ghost ts: seq<Trans>)
    requires fs.Valid() && i < |fs.inodes| && off < UINT32 && |src| < 0x8000_0000 && Bytes(src)
    modifies fs
    ensures fs.Valid() && |fs.inodes| == |old(fs.inodes)| && off <= newOff <= off + |src|
    ensures ret == (if newOff == off + |src| then |src| else -1)
    ensures off > old(fs.inodes)[i].size ==> fs.View() == old(fs.View()) && newOff == off
    ensures off <= old(fs.inodes)[i].size ==>
              FileBytes(fs.g, fs.View(), i) == SpliceFile(FileBytes(fs.g, old(fs.View()), i), off, src[..newOff - off])
    ensures forall j :: 0 <= j < |fs.inodes| && j != i ==>
              FileBytes(fs.g, fs.View(), j) == FileBytes(fs.g, old(fs.View()), j)
    ensures |ts| == if newOff - off == |src| then (|src| + 3071) / 3072 else (newOff - off) / 3072 + 1
    ensures |ts| == Chunks(|src|, newOff - off) && Transactions(ts, fs.bpb, fs.bmapStart, old(fs.View()), fs.View())
    ensures newOff < off + |src| ==> fs.Full() || off + |src| > MAXFILE * BSIZE || off > old(fs.inodes)[i].size
  {
    var n;
    ghost var failed;
    n, failed, ts := WriteChunks(fs, i, off, src);
    CountDone(|src|, n, |ts|, failed);
    newOff := off + n;
    ret := if n == |src| then n else -1;
  }

  /** The loop of filewrite. */
  method WriteChunks(fs: FileSystem, i: nat, off: nat, src: seq<nat>)
    returns (n: nat, ghost failed: bool, ghost ts: seq<Trans>)
    requires fs.Valid() && i < |fs.inodes| && off < UINT32 && |src| < 0x8000_0000 && Bytes(src)
    modifies fs
    ensures n <= |src| && Written(fs, old(fs.View()), i, off, src[..n])
    ensures Counted(|src|, n, |ts|, failed) && (failed || n == |src|)
    ensures Transactions(ts, fs.bpb, fs.bmapStart, old(fs.View()), fs.View())
    ensures failed ==> n < |src| && (fs.Full() || off + |src| > MAXFILE * BSIZE || off > old(fs.inodes)[i].size)
  {
    ghost var before := fs.View();
    ts := [];
    n := 0;
    var stop := false;
    assert src[..0] == [];
    while n < |src| && !stop
      invariant 0 <= n <= |src| && Written(fs, before, i, off, src[..n])
      invariant Counted(|src|, n, |ts|, stop)
      invariant Transactions(ts, fs.bpb, fs.bmapStart, before, fs.View())
      invariant stop ==> n < |src| && (fs.Full() || off + |src| > MAXFILE * BSIZE || off > before.inodes[i].size)
      decreases !stop, |src| - n
    {
      var n1 := Min(|src| - n, CHUNK);
      ghost var mid := fs.View();
      var r := WriteChunk(fs, i, off, src, n, n1, before);
      ghost var t := Trans(fs.writes, mid, fs.View());
      OneMoreTrans(ts, t, fs.bpb, fs.bmapStart, before, mid);
      CountNext(|src|, n, |ts|, n1, r);
      ts := ts + [t];
      n := if r > 0 then n + r else n;
      stop := r != n1;
    }
    failed := stop;
  }

  /** Like WrittenSoFar; and if the offset was refused nothing has changed. */
  ghost predicate Written(fs: FileSystem, before: Fs, i: nat, off: nat, done: seq<nat>)
    reads fs
  {
    && fs.Valid() && Inv(fs.g, before) && i < |fs.inodes| == |before.inodes|
    && if off <= before.inodes[i].size then WrittenSoFar(fs, before, i, off, done)
       else fs.View() == before && done == []
  }

  /**
   * No log_write of such a transaction panics, whatever other processes do: after any interleaving in which p
   * has made the first k of its writes, the next one is carried out.
   */
  lemma {:induction false} TransNeverPanics(t: Trans, bpb: nat, bmapStart: nat, s: GroupCommit.State, logSize: nat,
                                            steps: seq<GroupCommit.Step>, u: GroupCommit.State, p: nat, k: nat)
    requires TransOk(t, bpb, bmapStart) && k < |t.writes| && logSize > GroupCommit.LOGSIZE
    requires GroupCommit.Inv(s) && p < |s.procs| && s.procs[p] == GroupCommit.Active(MAXOPBLOCKS)
    requires GroupCommit.Path(s, logSize, steps, u) && GroupCommit.Inside(steps, p)
    requires GroupCommit.WritesOf(steps, p) == t.writes[..k]
    ensures GroupCommit.Enabled(u, GroupCommit.Write(p, t.writes[k]))
    ensures GroupCommit.AfterWrite(u, logSize, p, t.writes[k]).Next?
  {
    GroupCommit.InBudgetNeverPanics(s, logSize, steps, u, p, t.writes, k);
  }

  /** `done` has been written to file i at off since `before`; no other file has changed. */
  ghost predicate WrittenSoFar(fs: FileSystem, before: Fs, i: nat, off: nat, done: seq<nat>)
    reads fs
  {
    && fs.Valid() && Inv(fs.g, before) && i < |fs.inodes| == |before.inodes| && off <= before.inodes[i].size
    && FileBytes(fs.g, fs.View(), i) == SpliceFile(FileBytes(fs.g, before, i), off, done)
    && forall j :: 0 <= j < |fs.inodes| && j != i ==> FileBytes(fs.g, fs.View(), j) == FileBytes(fs.g, before, j)
  }

  /** One transaction of filewrite: at most CHUNK bytes, within the budget of one operation. */
  method WriteChunk(fs: FileSystem, i: nat, off: nat, src: seq<nat>, n: nat, n1: nat, ghost before: Fs) returns (r: int)
    requires n + n1 <= |src| < 0x8000_0000 && off < UINT32 && 0 < n1 <= CHUNK && Bytes(src)
    requires Written(fs, before, i, off, src[..n])
    modifies fs
    ensures -1 <= r <= n1 && Written(fs, before, i, off, src[..if r > 0 then n + r else n])
    ensures TransOk(Trans(fs.writes, old(fs.View()), fs.View()), fs.bpb, fs.bmapStart)
    ensures r != n1 ==> fs.Full() || off + n + n1 > MAXFILE * BSIZE || off > before.inodes[i].size
  {
    ghost var mid := fs.View();
    ChunkStart(fs.g, mid, before, i, off, src, n);
    fs.logged, fs.writes := {}, [];
    r := fs.Writei(i, off + n, src[n..n + n1]);
    if off <= before.inodes[i].size {
      ChunkDone(fs.g, fs.View(), mid, before, i, off, src, n, n1, r);
    }
    if r == -1 { SameRecorded(mid, fs.bpb, fs.bmapStart); }
  }

  /** Where a chunk starts. */
  lemma {:induction false} ChunkStart(g: Geo, mid: Fs, before: Fs, i: nat, off: nat, src: seq<nat>, n: nat)
    requires Inv(g, mid) && Inv(g, before) && i < |mid.inodes| == |before.inodes| && n <= |src|
    requires if off <= before.inodes[i].size
             then FileBytes(g, mid, i) == SpliceFile(FileBytes(g, before, i), off, src[..n])
             else mid == before && src[..n] == []
    ensures off > before.inodes[i].size ==> n == 0
    ensures off <= before.inodes[i].size ==> off + n <= mid.inodes[i].size && off + n < UINT32
  {
    assert NoHoles(g, mid, i) && NoHoles(g, before, i);
    assert |FileBytes(g, mid, i)| == mid.inodes[i].size;
  }

  /** What a chunk adds to what the chunks before it have written. */
  lemma {:induction false} ChunkDone(
    g: Geo, now: Fs, mid: Fs, before: Fs, i: nat, off: nat, src: seq<nat>, n: nat, n1: nat, r: int)
    requires Inv(g, now) && Inv(g, mid) && Inv(g, before) && i < |now.inodes| == |mid.inodes| == |before.inodes|
    requires off <= before.inodes[i].size && n + n1 <= |src| && -1 <= r <= n1
    requires FileBytes(g, mid, i) == SpliceFile(FileBytes(g, before, i), off, src[..n])
    requires if r == -1 then now == mid
             else FileBytes(g, now, i) == SpliceFile(FileBytes(g, mid, i), off + n, src[n..n + n1][..r])
    ensures FileBytes(g, now, i) == SpliceFile(FileBytes(g, before, i), off, src[..if r > 0 then n + r else n])
  {
    if r >= 0 {
      assert src[n..n + n1][..r] == src[n..n + r];
      SpliceTwice(FileBytes(g, before, i), off, src, n, r);
    }
  }

  lemma {:induction false} SameRecorded(fs: Fs, bpb: nat, bmapStart: nat)
    requires bpb > 0 && |fs.blocks| == |fs.bits|
    ensures Recorded(fs, fs, {}, bpb, bmapStart)
  {
    forall b | 0 <= b < |fs.blocks| ensures ChangeLogged(fs, fs, {}, bpb, bmapStart, b) { }
  }

  lemma {:induction false} SpliceTwice(c: seq<nat>, off: nat, src: seq<nat>, n: nat, r: nat)
    requires off <= |c| && n + r <= |src|
    ensures off + n <= |SpliceFile(c, off, src[..n])|
    ensures SpliceFile(SpliceFile(c, off, src[..n]), off + n, src[n..n + r]) == SpliceFile(c, off, src[..n + r])
  {
    assert src[..n + r] == src[..n] + src[n..n + r];
  }

  ghost function ZeroFirst(addrs: seq<nat>, k: nat): seq<nat>
    requires k <= |addrs|
  {
    seq(k, _ => 0) + addrs[k..]
  }

  lemma {:induction false} Glue(s: seq<nat>, a: nat, b: nat, c: nat)
    requires a <= b <= c <= |s|
    ensures s[a..b] + s[b..c] == s[a..c]
  {
  }

  lemma {:induction false} ZeroNext(addrs: seq<nat>, k: nat)
    requires k < |addrs|
    ensures ZeroFirst(addrs, k)[k := 0] == ZeroFirst(addrs, k + 1)
  {
  }

  lemma {:induction false} NothingFreed(g: Geo, fs: Fs, i: nat)
    requires Ownership(g, fs)
    ensures BitsWithout(g, fs, i, SlotsBelow(0), fs.bits)
  {
  }

  lemma {:induction false} EntriesNext(j: nat)
    ensures EntriesBelow(j + 1) == EntriesBelow(j) + {NDIRECT + 1 + j} && NDIRECT + 1 + j !in EntriesBelow(j)
  {
  }

  lemma {:induction false} EntriesAll()
    ensures EntriesBelow(NINDIRECT) + {NDIRECT} == AllSlots() && NDIRECT !in EntriesBelow(NINDIRECT)
  {
  }

  /** The direct slots and the first j entry slots. */
  ghost function EntriesBelow(j: nat): (s: set<nat>)
    ensures forall k: nat :: k in s <==> k < NDIRECT || NDIRECT < k <= NDIRECT + j
  {
    if j == 0 then SlotsBelow(NDIRECT) else EntriesBelow(j - 1) + {NDIRECT + j}
  }

  lemma {:induction false} NoIndirect(g: Geo, fs: Fs, i: nat, bits: seq<bool>)
    requires Ownership(g, fs) && i < |fs.inodes| && BlockAt(fs, i, NDIRECT) == 0
    requires BitsWithout(g, fs, i, SlotsBelow(NDIRECT), bits)
    ensures BitsWithout(g, fs, i, AllSlots(), bits)
  {
    forall b | 0 <= b < g.size
      ensures FreedBy(g, fs, i, AllSlots(), b) <==> FreedBy(g, fs, i, SlotsBelow(NDIRECT), b)
    {
      if FreedBy(g, fs, i, AllSlots(), b) {
        var k :| k in AllSlots() && Owns(g, fs, i, k, b);
        assert k in SlotsBelow(NDIRECT);
      }
      if FreedBy(g, fs, i, SlotsBelow(NDIRECT), b) {
        var k :| k in SlotsBelow(NDIRECT) && Owns(g, fs, i, k, b);
        assert k in AllSlots();
      }
    }
  }

  /** m bytes of file i inside one block are a slice of that block. */
  lemma {:induction false} PieceOf(g: Geo, fs: Fs, i: nat, cur: nat, m: nat)
    requires Inv(g, fs) && i < |fs.inodes| && cur + m <= fs.inodes[i].size && cur % BSIZE + m <= BSIZE && 0 < m
    ensures cur < MAXFILE * BSIZE && BlockAt(fs, i, SlotOf(cur / BSIZE)) < g.size
    ensures |fs.blocks[BlockAt(fs, i, SlotOf(cur / BSIZE))]| == BSIZE
    ensures fs.blocks[BlockAt(fs, i, SlotOf(cur / BSIZE))][cur % BSIZE..cur % BSIZE + m] ==
            FileBytes(g, fs, i)[cur..cur + m]
  {
    var all := FileBytes(g, fs, i);
    InFile(g, fs, i, cur);
    assert SlotOk(g, fs, i, SlotOf(cur / BSIZE));
    var b := fs.blocks[BlockAt(fs, i, SlotOf(cur / BSIZE))];
    assert IsBlock(b);
    var piece, part := b[cur % BSIZE..cur % BSIZE + m], all[cur..cur + m];
    forall x | 0 <= x < m ensures piece[x] == part[x] {
      SameBlock(cur, m, cur + x);
      FileByte(g, fs, i, cur + x);
    }
  }

  /**
   * t blocks touched from off on, all starting before off + n; a of them allocated. If off is inside a
   * block, that first block existed already, because the file has no holes below its size.
   */
  ghost predicate Touched(off: nat, n: nat, t: nat, a: nat) {
    && (t > 0 ==> (off / BSIZE + t - 1) * BSIZE < off + n)
    && a <= t && (t > 0 && off % BSIZE != 0 ==> a < t)
  }

  /** A write that has more to do stands at off itself or at the start of its next block. */
  ghost predicate AtBlock(off: nat, tot: nat, t: nat) {
    (tot == 0 && t == 0) || (t > 0 && off + tot == (off / BSIZE + t) * BSIZE)
  }

  lemma {:induction false} TouchNext(off: nat, n: nat, tot: nat, t: nat, a: nat, m: nat, isNew: bool)
    requires Touched(off, n, t, a) && AtBlock(off, tot, t) && tot < n
    requires m == Min(n - tot, BSIZE - (off + tot) % BSIZE)
    requires tot == 0 && off % BSIZE != 0 ==> !isNew
    ensures Touched(off, n, t + 1, if isNew then a + 1 else a)
    ensures tot + m < n ==> AtBlock(off, tot + m, t + 1)
  {
    if t > 0 {
      assert (off + tot) % BSIZE == 0;
    }
  }

  /** The file block that a write starts inside already exists. */
  lemma {:induction false} FirstExists(g: Geo, fs: Fs, i: nat, off: nat)
    requires Inv(g, fs) && i < |fs.inodes| && off <= fs.inodes[i].size && off % BSIZE != 0
    ensures off - 1 >= 0 && off / BSIZE < MAXFILE && HasBlock(g, fs, i, off / BSIZE)
  {
    InFile(g, fs, i, off - 1);
    assert (off - 1) / BSIZE == off / BSIZE;
  }

  /** What the transaction has been charged for t touched and a allocated blocks. */
  ghost predicate Charged(logged: set<nat>, data: set<nat>, maps: set<nat>, pointer: set<nat>, t: nat, a: nat) {
    logged <= data + maps + pointer && |data| <= t && |maps| <= a
  }

  lemma {:induction false} ChargeNext(
    log0: set<nat>, log1: set<nat>, data: set<nat>, maps: set<nat>, ptr0: set<nat>, ptr1: set<nat>,
    addr: nat, bit: nat, isNew: bool, t: nat, a: nat)
    requires Charged(log0, data, maps, ptr0, t, a) && ptr0 <= ptr1 && (isNew ==> addr != 0)
    requires log1 <= log0 + (if addr != 0 then {addr} else {}) + (if isNew then {bit} else {}) + ptr1
    ensures addr == 0 ==> Charged(log1, data, maps, ptr1, t, a)
    ensures addr != 0 ==>
              Charged(log1, data + {addr}, if isNew then maps + {bit} else maps, ptr1, t + 1,
                      if isNew then a + 1 else a)
  {
  }

  lemma {:induction false} CardThree(s: set<nat>, a: set<nat>, b: set<nat>, c: set<nat>)
    requires s <= a + b + c
    ensures |s| <= |a| + |b| + |c|
  {
    CardLe(s, a + b + c);
    assert |a + b + c| <= |a + b| + |c|;
  }

  lemma {:induction false} CardLe(s: set<nat>, t: set<nat>)
    requires s <= t
    ensures |s| <= |t|
  {
    assert t == s + (t - s);
  }

  /** Three blocks' worth of bytes cost at most ten blocks, counting the inode block. */
  lemma {:induction false} Cost(off: nat, n: nat, t: nat, a: nat)
    requires Touched(off, n, t, a) && n <= 3 * BSIZE
    ensures t + a + 2 + 1 <= MAXOPBLOCKS
  {
  }
}
