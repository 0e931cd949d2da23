/** The bound of MAXOPBLOCKS logged blocks per chunk of filewrite is attained on a disk as mkfs lays it out. */
module InodeTight {
  import opened InodeBlocks
  import opened InodeContents
  import opened InodeFile

  /** Free-map bits per block, as in the source. */
  const BPB: nat := 8 * BSIZE

  // 32 blocks for boot block, superblock and log; then the inodes, the free map and the data.
  const INODES: nat := 3 * BPB
  const INODE_START: nat := 32
  const BMAP_START: nat := 1569
  const DATA_START: nat := 1573
  /** The first free block; each of the four free blocks has its bit in a free-map block of its own. */
  const FREE: nat := DATA_START + NDIRECT
  const GEO: Geo := Geo(FREE + 3 * BPB + 1, DATA_START)
  /** The file to be written fills its twelve direct blocks but for one byte. */
  const SIZE: nat := NDIRECT * BSIZE - 1

  predicate IsFree(b: nat) { b >= FREE && (b - FREE) % BPB == 0 }

  /** Inode 0 is the file. Inode j owns the block j places after the first free one, unless that is free too. */
  function InodeAt(j: nat): Inode {
    if j == 0 then Inode(seq(NDIRECT + 1, k => if k < NDIRECT then DATA_START + k else 0), SIZE)
    else if j % BPB == 0 then Inode(seq(NDIRECT + 1, _ => 0), 0)
    else Inode(seq(NDIRECT + 1, k => if k == 0 then FREE + j else 0), 1)
  }

  function StartState(): Fs {
    Fs(seq(GEO.size, b requires b >= 0 => !IsFree(b)), seq(GEO.size, _ => Zeros()),
       seq(INODES, j requires j >= 0 => InodeAt(j)))
  }

  /** The block in slot k of inode j at the start. */
  function StartSlot(j: nat, k: nat): nat {
    if j == 0 && k < NDIRECT then DATA_START + k
    else if j % BPB != 0 && k == 0 then FREE + j
    else 0
  }

  lemma {:induction false} StartSlots(j: nat, k: nat)
    requires j < INODES && k < NSLOT
    ensures Shape(GEO, StartState()) && BlockAt(StartState(), j, k) == StartSlot(j, k)
  {
  }

  /** Who owns block b at the start. */
  lemma {:induction false} StartOwner(b: nat) returns (j: nat, k: nat)
    requires DATA_START <= b < GEO.size && !IsFree(b)
    ensures j < INODES && k < NSLOT && StartSlot(j, k) == b
  {
    if b < FREE {
      j, k := 0, b - DATA_START;
    } else {
      j, k := b - FREE, 0;
    }
  }

  lemma {:induction false} StartInv()
    ensures Inv(GEO, StartState())
  {
    var fs := StartState();
    StartSlots(0, 0);
    forall i, k | 0 <= i < |fs.inodes| && 0 <= k < NSLOT ensures SlotOk(GEO, fs, i, k) { StartSlots(i, k); }
    forall i, k, j, l | 0 <= i < |fs.inodes| && 0 <= k < NSLOT && 0 <= j < |fs.inodes| && 0 <= l < NSLOT
      ensures Apart(GEO, fs, i, k, j, l)
    {
      StartSlots(i, k);
      StartSlots(j, l);
    }
    forall b | 0 <= b < GEO.size ensures BitOk(GEO, fs, b) {
      if DATA_START <= b && !IsFree(b) {
        var j, k := StartOwner(b);
        StartSlots(j, k);
        assert Owns(GEO, fs, j, k, b);
      }
    }
    forall i | 0 <= i < |fs.inodes| ensures NoHoles(GEO, fs, i) { StartNoHoles(i); }
  }

  lemma {:induction false} StartNoHoles(i: nat)
    requires i < INODES
    ensures Shape(GEO, StartState()) && NoHoles(GEO, StartState(), i)
  {
    var fs := StartState();
    StartSlots(i, 0);
    forall f | 0 <= f < MAXFILE && f * BSIZE < fs.inodes[i].size ensures HasBlock(GEO, fs, i, f) {
      StartSlots(i, SlotOf(f));
    }
  }

  /**
   * A full chunk that starts inside the last direct block and needs three new blocks and the indirect block,
   * each with its bit in a different free-map block, logs exactly MAXOPBLOCKS blocks.
   */
  method TenBlocks() returns (fs: FileSystem, r: int)
    ensures fresh(fs) && fs.Valid() && fs.bpb == BPB == 8192 && r > 0 && |fs.logged| == MAXOPBLOCKS == 10
  {
    StartInv();
    var st := StartState();
    fs := new FileSystem(GEO, BPB, BMAP_START, INODE_START, st.bits, st.blocks, st.inodes);
    var src := seq(CHUNK, _ => 1);
    r := fs.Writei(0, SIZE, src);
    ghost var now := fs.View();
    FirstWritten(now, r, src);
    AllTaken(now, r);
    TenLogged(st, now, fs.logged);
  }

  /** Every slot in use at the start is in use as it was. */
  ghost predicate StillOwned(now: Fs) {
    && Inv(GEO, now) && |now.inodes| == INODES
    && forall j, k :: 0 <= j < INODES && 0 <= k < NSLOT ==> SlotKept(GEO, StartState(), now, j, k)
  }

  lemma {:induction false} SlotStays(now: Fs, j: nat, k: nat)
    requires StillOwned(now) && j < INODES && k < NSLOT && StartSlot(j, k) != 0
    ensures BlockAt(now, j, k) == StartSlot(j, k)
  {
    StartSlots(j, k);
    assert SlotKept(GEO, StartState(), now, j, k);
  }

  /** The byte at SIZE, in the last direct block, changed from 0 to 1. */
  lemma {:induction false} FirstWritten(now: Fs, r: int, src: seq<nat>)
    requires StillOwned(now) && Inv(GEO, StartState())
    requires 0 <= r <= |src| == CHUNK && forall x :: 0 <= x < |src| ==> src[x] == 1
    requires r < |src| ==> !HasBlock(GEO, now, 0, (SIZE + r) / BSIZE)
    requires FileBytes(GEO, now, 0) == SpliceFile(FileBytes(GEO, StartState(), 0), SIZE, src[..r])
    ensures r > 0 && now.blocks[FREE - 1] != StartState().blocks[FREE - 1]
    ensures now.inodes[0].size == SIZE + r
  {
    SlotStays(now, 0, NDIRECT - 1);
    assert |FileBytes(GEO, now, 0)| == SIZE + r;
    assert HasBlock(GEO, now, 0, NDIRECT - 1) && SIZE / BSIZE == NDIRECT - 1;
    FileByte(GEO, now, 0, SIZE);
    assert FileBytes(GEO, now, 0)[SIZE] == 1;
    assert ByteAt(GEO, now, 0, SIZE) == now.blocks[FREE - 1][BSIZE - 1];
  }

  /** All four free blocks end up in use: one for the indirect block and one for each new file block. */
  lemma {:induction false} AllTaken(now: Fs, r: int)
    requires StillOwned(now) && 0 < r <= CHUNK && now.inodes[0].size == SIZE + r
    requires r < CHUNK ==> forall b :: 0 <= b < GEO.size ==> now.bits[b]
    ensures forall x :: 0 <= x < 4 ==> now.bits[FREE + x * BPB]
  {
    if r == CHUNK {
      assert NoHoles(GEO, now, 0);
      assert HasBlock(GEO, now, 0, 12) && HasBlock(GEO, now, 0, 13) && HasBlock(GEO, now, 0, 14);
      var a := NewSlot(now, 12);
      var b := NewSlot(now, 13);
      var c := NewSlot(now, 14);
      var d := NewSlot(now, 15);
      SlotsApart(GEO, now, 0, 12, 0, 13);
      SlotsApart(GEO, now, 0, 12, 0, 14);
      SlotsApart(GEO, now, 0, 12, 0, 15);
      SlotsApart(GEO, now, 0, 13, 0, 14);
      SlotsApart(GEO, now, 0, 13, 0, 15);
      SlotsApart(GEO, now, 0, 14, 0, 15);
      Four(now.bits, a, b, c, d);
    }
  }

  lemma {:induction false} Four(bits: seq<bool>, a: nat, b: nat, c: nat, d: nat)
    requires |bits| == GEO.size && a < 4 && b < 4 && c < 4 && d < 4
    requires a != b && a != c && a != d && b != c && b != d && c != d
    requires bits[FREE + a * BPB] && bits[FREE + b * BPB] && bits[FREE + c * BPB] && bits[FREE + d * BPB]
    ensures forall x :: 0 <= x < 4 ==> bits[FREE + x * BPB]
  {
    forall x | 0 <= x < 4 ensures bits[FREE + x * BPB] { assert x == a || x == b || x == c || x == d; }
  }

  /** A slot beyond the direct ones that is in use holds one of the blocks that were free. */
  lemma {:induction false} NewSlot(now: Fs, k: nat) returns (x: nat)
    requires StillOwned(now) && NDIRECT <= k < NSLOT && BlockAt(now, 0, k) != 0
    ensures x < 4 && BlockAt(now, 0, k) == FREE + x * BPB && now.bits[FREE + x * BPB]
  {
    var b := BlockAt(now, 0, k);
    SlotsApart(GEO, now, 0, k, 0, 0);
    if !IsFree(b) {
      var j, l := StartOwner(b);
      SlotStays(now, j, l);
      SlotsApart(GEO, now, 0, k, j, l);
      assert false;
    }
    x := (b - FREE) / BPB;
  }

  lemma {:induction false} FreshLogged(st: Fs, now: Fs, logged: set<nat>, b: nat)
    requires st == StartState() && Recorded(st, now, logged, BPB, BMAP_START) && b < GEO.size && IsFree(b)
    requires now.bits[b]
    ensures b in logged && BMAP_START + b / BPB in logged
  {
    assert ChangeLogged(st, now, logged, BPB, BMAP_START, b);
  }

  lemma {:induction false} TenLogged(st: Fs, now: Fs, logged: set<nat>)
    requires st == StartState() && Inv(GEO, now) && |logged| <= MAXOPBLOCKS
    requires Recorded(st, now, logged, BPB, BMAP_START) && INODE_START in logged
    requires now.blocks[FREE - 1] != st.blocks[FREE - 1] && forall x :: 0 <= x < 4 ==> now.bits[FREE + x * BPB]
    ensures |logged| == MAXOPBLOCKS
  {
    assert ChangeLogged(st, now, logged, BPB, BMAP_START, FREE - 1);
    forall x | 0 <= x < 4 ensures FREE + x * BPB in logged && BMAP_START + x in logged {
      assert now.bits[FREE + x * BPB];
      FreshLogged(st, now, logged, FREE + x * BPB);
    }
    assert FREE + 0 * BPB in logged && FREE + 1 * BPB in logged && FREE + 2 * BPB in logged && FREE + 3 * BPB in logged;
    assert BMAP_START + 0 in logged && BMAP_START + 1 in logged && BMAP_START + 2 in logged && BMAP_START + 3 in logged;
    CardLe({32, 1569, 1570, 1571, 1572, 1584, 1585, 9777, 17969, 26161}, logged);
  }
}
