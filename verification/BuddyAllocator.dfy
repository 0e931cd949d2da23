/** The allocator over all trees: buddy_init, buddy_alloc, buddy_free and the size check. */
module BuddyAllocator {
  import opened PowersOfTwo
  import opened BuddyTree
  import opened BuddyCounters
  import opened BuddySpec
  import opened BuddyBlock
  import opened BuddyHistory

  const PHYSTOP: nat := 0x8000_0000 + 128 * 1024 * 1024
  const UINT32: nat := 0x1_0000_0000

  // ----- checker_cnt_page --------------------------------------------------------

  ghost predicate IsPow2(n: nat) {
    exists k: nat :: n == Pow2(k)
  }

  lemma {:induction false} HalvePow2(n: nat)
    requires n > 0 && n % 2 == 0
    ensures IsPow2(n) <==> IsPow2(n / 2)
  {
    if k: nat :| n == Pow2(k) {
      assert k > 0 && n / 2 == Pow2(k - 1);
    }
    if k: nat :| n / 2 == Pow2(k) {
      assert n == Pow2(k + 1);
    }
  }

  lemma {:induction false} OddPow2(n: nat)
    requires n % 2 == 1
    ensures IsPow2(n) <==> n == 1
  {
    if k: nat :| n == Pow2(k) {
      assert k == 0;
    }
    if n == 1 { assert n == Pow2(0); }
  }

  /**
   * checker_cnt_page on a nonzero 32-bit count (on 0 its loop would not end). The doubling wraps:
   * it accepts the powers of two up to one tree, and also 2^31.
   */
  method CheckerCntPage(cnt: nat, levels: nat) returns (ok: bool)
    requires 0 < cnt < UINT32 && 2 <= levels < 31
    ensures ok <==> IsPow2(cnt) && (cnt <= Pow2(levels - 1) || cnt == 0x8000_0000)
  {
    Pow2Monotone(levels, 30);
    LargePowers();
    if (2 * cnt) % UINT32 > Pow2(levels) {
      return false;
    }
    var c := cnt;
    while c % 2 == 0
      invariant 0 < c <= cnt && (IsPow2(c) <==> IsPow2(cnt))
      decreases c
    {
      HalvePow2(c);
      c := c / 2;
    }
    OddPow2(c);
    if cnt > 0x8000_0000 && IsPow2(cnt) {
      NoPow2Between(cnt);
    }
    return c == 1;
  }

  lemma {:induction false} LargePowers()
    ensures Pow2(30) == 0x4000_0000 && Pow2(31) == 0x8000_0000 && Pow2(32) == UINT32
  {
    assert Pow2(5) == 32;
    Pow2Sum(5, 5);
    Pow2Sum(10, 10);
    Pow2Sum(20, 10);
  }

  lemma {:induction false} NoPow2Between(n: nat)
    requires 0x8000_0000 < n < UINT32
    ensures !IsPow2(n)
  {
    if k: nat :| n == Pow2(k) {
      LargePowers();
      if k <= 31 { Pow2Monotone(k, 31); } else { Pow2Monotone(32, k); }
    }
  }

  /** The wrap-around at work: a request for 2^31 pages passes the test whatever the size of a tree. */
  method WrappedCountAccepted(levels: nat) returns (ok: bool)
    requires 2 <= levels < 31
    ensures ok && 0x8000_0000 > Pow2(levels - 1)
  {
    LargePowers();
    Pow2Monotone(levels - 1, 30);
    assert IsPow2(0x8000_0000);
    ok := CheckerCntPage(0x8000_0000, levels);
  }

  lemma {:induction false} SameSize(levels: nat, d: nat, e: nat)
    requires d < levels && e < levels && SizeAt(levels, d) == SizeAt(levels, e)
    ensures d == e
  {
    if d < e { Pow2Monotone(levels - 1 - e, levels - 1 - d); }
    if e < d { Pow2Monotone(levels - 1 - d, levels - 1 - e); }
  }

  /** An accepted count below 2^31 is the block size of exactly one level. */
  lemma {:induction false} SizeLevel(cnt: nat, levels: nat) returns (d: nat)
    requires levels >= 1 && IsPow2(cnt) && cnt <= Pow2(levels - 1)
    ensures forall e :: 0 <= e < levels ==> (cnt == SizeAt(levels, e) <==> e == d)
    ensures d < levels
  {
    var k: nat :| cnt == Pow2(k);
    if k > levels - 1 { Pow2Monotone(levels - 1, k); }
    d := levels - 1 - k;
    forall e | 0 <= e < levels && cnt == SizeAt(levels, e) ensures e == d { SameSize(levels, d, e); }
  }

  // ----- the trees ------------------------------------------------------------------

  /** Start address of node i of tree k. */
  ghost function Start(levels: nat, memSeparator: nat, k: nat, i: nat): nat
    requires levels >= 1 && 1 <= i && Depth(i) < levels
  {
    memSeparator + (k * Pow2(levels - 1) + Offset(levels, i)) * PGSIZE
  }

  /** Tree k as buddy_init lays it out, with all its caches right. */
  ghost predicate TreeOk(b: BlockMem, levels: nat, memSeparator: nat, k: nat)
    requires levels >= 2
    reads b, b.nodes, b.freeBySize
  {
    b.levels == levels && b.base == memSeparator + k * Pow2(levels - 1) * PGSIZE && b.Valid()
  }

  ghost function Used(b: BlockMem): (u: seq<bool>)
    reads b.nodes
    ensures |u| == b.nodes.Length
  {
    UsedOf(b.nodes[..])
  }

  /** Two trees share no memory. */
  ghost predicate Disjoint(b: BlockMem, c: BlockMem) {
    b != c && b.nodes != c.nodes && b.freeBySize != c.freeBySize
  }

  ghost predicate AllDisjoint(bs: seq<BlockMem>) {
    forall k, l :: 0 <= k < |bs| && 0 <= l < |bs| && k != l ==> Disjoint(bs[k], bs[l])
  }

  ghost function NodesOf(bs: seq<BlockMem>): (s: set<array<MemNode>>)
    ensures forall b :: b in bs ==> b.nodes in s
  {
    set b | b in bs :: b.nodes
  }

  ghost function CountsOf(bs: seq<BlockMem>): (s: set<array<int>>)
    ensures forall b :: b in bs ==> b.freeBySize in s
  {
    set b | b in bs :: b.freeBySize
  }

  ghost predicate TreesOk(bs: seq<BlockMem>, levels: nat, memSeparator: nat)
    requires levels >= 2
    reads bs, NodesOf(bs), CountsOf(bs)
  {
    forall k :: 0 <= k < |bs| ==> TreeOk(bs[k], levels, memSeparator, k)
  }

  /** The used bits of all trees: the abstract state of the allocator. */
  ghost function State(bs: seq<BlockMem>): (st: seq<seq<bool>>)
    reads NodesOf(bs)
    ensures |st| == |bs| && forall k :: 0 <= k < |bs| ==> st[k] == Used(bs[k])
  {
    seq(|bs|, k requires 0 <= k < |bs| reads NodesOf(bs) => Used(bs[k]))
  }

  /** Tree l, node i of the state st is a block of level d that could be handed out. */
  ghost predicate CanGive(st: seq<seq<bool>>, d: nat, l: int, i: int) {
    0 <= l < |st| && 1 <= i < |st[l]| && Depth(i) == d && Available(st[l], i)
  }

  /** alloc_in_block on tree i leaves all other trees alone. */
  method AllocInTree(bs: seq<BlockMem>, levels: nat, memSeparator: nat, i: nat, cnt: nat, ghost d: nat)
    returns (pa: nat, ghost p: nat)
    requires levels >= 2 && memSeparator > 0 && i < |bs| && AllDisjoint(bs) && TreesOk(bs, levels, memSeparator)
    requires d < levels && cnt == SizeAt(levels, d)
    modifies bs[i], bs[i].nodes, bs[i].freeBySize
    ensures TreesOk(bs, levels, memSeparator)
    ensures pa == 0 ==> State(bs) == old(State(bs)) && forall j :: !CanGive(old(State(bs)), d, i, j)
    ensures pa != 0 ==>
              && CanGive(old(State(bs)), d, i, p)
              && State(bs) == old(State(bs))[i := old(State(bs))[i][p := true]]
              && pa == Start(levels, memSeparator, i, p)
  {
    ghost var st := State(bs);
    assert TreeOk(bs[i], levels, memSeparator, i);
    pa, p := bs[i].AllocInBlock(cnt, d);
    forall k | 0 <= k < |bs| && k != i ensures Used(bs[k]) == st[k] { assert Disjoint(bs[k], bs[i]); }
    assert State(bs) == st[i := Used(bs[i])];
    forall k | 0 <= k < |bs| ensures TreeOk(bs[k], levels, memSeparator, k) {
      assert old(TreeOk(bs[k], levels, memSeparator, k));
      assert k != i ==> Disjoint(bs[k], bs[i]);
    }
  }

  /** check_addr_in_block and free_in_block on tree i: clear exactly the used node that starts at pa. */
  method FreeInTree(bs: seq<BlockMem>, levels: nat, memSeparator: nat, i: nat, pa: nat)
    requires levels >= 2 && i < |bs| && AllDisjoint(bs) && TreesOk(bs, levels, memSeparator)
    requires pa % PGSIZE == 0 && memSeparator % PGSIZE == 0
    modifies bs[i], bs[i].nodes, bs[i].freeBySize
    ensures TreesOk(bs, levels, memSeparator)
    ensures State(bs) == old(State(bs))[i := Used(bs[i])]
    ensures Cleared(levels, memSeparator, old(State(bs))[i], State(bs)[i], pa, i)
  {
    ghost var st := State(bs);
    assert TreeOk(bs[i], levels, memSeparator, i);
    PointersInside(levels, bs[i].base, bs[i].nodes[..], 1);
    assert Static(levels, bs[i].base, bs[i].nodes[1], 1);
    var root := bs[i].nodes[1];
    StartAligned(levels, memSeparator, i, pa);
    if root.startPtr <= pa && pa < root.startPtr + root.cntPage * PGSIZE {
      ghost var page := (pa - root.startPtr) / PGSIZE;
      assert pa == bs[i].base + page * PGSIZE;
      bs[i].FreeInBlock(pa, page);
      forall k | 0 <= k < |bs| ensures TreeOk(bs[k], levels, memSeparator, k) {
        assert old(TreeOk(bs[k], levels, memSeparator, k));
        assert k != i ==> Disjoint(bs[k], bs[i]);
      }
      ClearedByFree(levels, memSeparator, st[i], Used(bs[i]), pa, i, page);
    } else {
      ClearedOutside(levels, memSeparator, st[i], pa, i);
    }
    forall k | 0 <= k < |bs| && k != i ensures Used(bs[k]) == st[k] { assert Disjoint(bs[k], bs[i]); }
    assert State(bs) == st[i := Used(bs[i])];
  }

  /** In tree l, exactly the used nodes that start at pa have been cleared. */
  ghost predicate Cleared(levels: nat, memSeparator: nat, u: seq<bool>, u': seq<bool>, pa: nat, l: nat) {
    && |u| == |u'| && levels >= 1
    && forall i :: 1 <= i < |u| ==>
         Depth(i) < levels && (u'[i] <==> u[i] && Start(levels, memSeparator, l, i) != pa)
  }

  lemma {:induction false} ClearedByFree(
    levels: nat, memSeparator: nat, u: seq<bool>, u': seq<bool>, pa: nat, l: nat, page: nat)
    requires Shape(levels, u) && |u'| == |u|
    requires pa == memSeparator + l * Pow2(levels - 1) * PGSIZE + page * PGSIZE
    requires forall i :: 1 <= i < |u| ==> Depth(i) < levels && (u'[i] <==> u[i] && Offset(levels, i) != page)
    ensures Cleared(levels, memSeparator, u, u', pa, l)
  {
    forall i | 1 <= i < |u|
      ensures Depth(i) < levels && (u'[i] <==> u[i] && Start(levels, memSeparator, l, i) != pa)
    {
      assert Depth(i) < levels;
    }
  }

  lemma {:induction false} ClearedOutside(levels: nat, memSeparator: nat, u: seq<bool>, pa: nat, l: nat)
    requires Shape(levels, u)
    requires var base := memSeparator + l * Pow2(levels - 1) * PGSIZE;
             pa < base || base + Pow2(levels - 1) * PGSIZE <= pa
    ensures Cleared(levels, memSeparator, u, u, pa, l)
  {
    forall i | 1 <= i < |u| ensures Depth(i) < levels && Start(levels, memSeparator, l, i) != pa {
      InTree(levels, i);
      Aligned(levels, i);
    }
  }

  lemma {:induction false} StartAligned(levels: nat, memSeparator: nat, i: nat, pa: nat)
    requires levels >= 1 && memSeparator % PGSIZE == 0 && pa % PGSIZE == 0
    ensures (memSeparator + i * Pow2(levels - 1) * PGSIZE) % PGSIZE == 0
    ensures pa >= memSeparator + i * Pow2(levels - 1) * PGSIZE ==>
              pa == memSeparator + i * Pow2(levels - 1) * PGSIZE
                    + (pa - (memSeparator + i * Pow2(levels - 1) * PGSIZE)) / PGSIZE * PGSIZE
  {
    var n := i * Pow2(levels - 1);
    assert (memSeparator + n * PGSIZE) % PGSIZE == 0;
  }

  class Buddy {
    const levels: nat
    const memSeparator: nat
    const end: nat
    const blocks: seq<BlockMem>

    ghost predicate Valid()
      reads blocks, NodesOf(blocks), CountsOf(blocks)
    {
      && 2 <= levels < 31 && memSeparator > 0 && memSeparator % PGSIZE == 0 && end <= memSeparator
      && AllDisjoint(blocks) && TreesOk(blocks, levels, memSeparator)
    }

    /** buddy_init: the trees tile one contiguous range that starts at mem_separator. */
    constructor (levels: nat, count: nat, memSeparator: nat, end: nat)
      requires 2 <= levels < 31 && memSeparator > 0 && memSeparator % PGSIZE == 0 && end <= memSeparator
      requires memSeparator + count * Pow2(levels - 1) * PGSIZE <= PHYSTOP + 1
      ensures Valid() && |blocks| == count
      ensures forall k :: 0 <= k < count ==> fresh(blocks[k]) && fresh(blocks[k].nodes) && fresh(blocks[k].freeBySize)
      ensures this.levels == levels && this.memSeparator == memSeparator && this.end == end
      ensures forall k :: 0 <= k < count ==> State(blocks)[k] == AllFree(levels)
    {
      var bs := BuildTrees(levels, count, memSeparator);
      this.levels, this.memSeparator, this.end := levels, memSeparator, end;
      blocks := bs;
    }

    /**
     * buddy_alloc for 0 < cnt < 2^31. It fails exactly when cnt is not a power of two that fits a tree,
     * or no tree has a block of that size that is wholly free and inside no live block. Otherwise the block
     * comes from the first tree that has one.
     */
    method BuddyAlloc(cnt: nat) returns (pa: nat, ghost d: nat, ghost k: nat, ghost p: nat)
      requires Valid() && 0 < cnt < 0x8000_0000
      modifies blocks, NodesOf(blocks), CountsOf(blocks)
      ensures Valid()
      ensures pa == 0 <==>
                !exists e, l, i :: 0 <= e < levels && SizeAt(levels, e) == cnt && CanGive(old(State(blocks)), e, l, i)
      ensures pa == 0 ==> State(blocks) == old(State(blocks))
      ensures pa != 0 ==>
                && d < levels && SizeAt(levels, d) == cnt && CanGive(old(State(blocks)), d, k, p)
                && (forall l, i :: l < k ==> !CanGive(old(State(blocks)), d, l, i))
                && pa == Start(levels, memSeparator, k, p)
                && State(blocks) == old(State(blocks))[k := old(State(blocks))[k][p := true]]
    {
      d, k, p := 0, 0, 1;
      var ok := CheckerCntPage(cnt, levels);
      if !ok {
        forall e | 0 <= e < levels ensures SizeAt(levels, e) != cnt {
          Pow2Monotone(levels - 1 - e, levels - 1);
        }
        return 0, 0, 0, 1;
      }
      d := SizeLevel(cnt, levels);
      pa, k, p := ScanTrees(blocks, levels, memSeparator, cnt, d);
    }

    /**
     * buddy_free: panics on an address that is unaligned or out of range; otherwise it releases
     * precisely the live block that starts at pa, in whichever tree, or changes nothing.
     */
    method BuddyFree(pa: nat) returns (panicked: bool)
      requires Valid()
      modifies blocks, NodesOf(blocks), CountsOf(blocks)
      ensures Valid()
      ensures panicked <==> pa % 4096 != 0 || pa < end || pa >= 0x8800_0000
      ensures panicked ==> State(blocks) == old(State(blocks))
      ensures !panicked ==> ClearedUpTo(levels, memSeparator, old(State(blocks)), State(blocks), pa, |blocks|)
      ensures !panicked ==> forall l, i :: 0 <= l < |blocks| && 1 <= i < |State(blocks)[l]| ==>
                Depth(i) < levels && |State(blocks)[l]| == |old(State(blocks))[l]| &&
                (State(blocks)[l][i] <==>
                 old(State(blocks))[l][i] && Start(levels, memSeparator, l, i) != pa)
    {
      if pa % PGSIZE != 0 || pa < end || pa >= PHYSTOP {
        return true;
      }
      FreeInTrees(blocks, levels, memSeparator, pa);
      return false;
    }
  }

  /** The loop of buddy_free: every tree is asked, only the one that holds pa can change. */
  method FreeInTrees(bs: seq<BlockMem>, levels: nat, memSeparator: nat, pa: nat)
    requires levels >= 2 && AllDisjoint(bs) && TreesOk(bs, levels, memSeparator)
    requires pa % PGSIZE == 0 && memSeparator % PGSIZE == 0
    modifies bs, NodesOf(bs), CountsOf(bs)
    ensures TreesOk(bs, levels, memSeparator)
    ensures ClearedUpTo(levels, memSeparator, old(State(bs)), State(bs), pa, |bs|)
  {
    ghost var st := State(bs);
    var n := 0;
    while n < |bs|
      invariant 0 <= n <= |bs| && TreesOk(bs, levels, memSeparator)
      invariant ClearedUpTo(levels, memSeparator, st, State(bs), pa, n)
    {
      ghost var before := State(bs);
      FreeInTree(bs, levels, memSeparator, n, pa);
      ClearNext(levels, memSeparator, st, before, State(bs), pa, n);
      n := n + 1;
    }
  }

  /** The first n trees have been cleared of pa, the others are as before. */
  ghost predicate ClearedUpTo(
    levels: nat, memSeparator: nat, st: seq<seq<bool>>, st': seq<seq<bool>>, pa: nat, n: nat)
  {
    && |st| == |st'| && n <= |st|
    && (forall l :: 0 <= l < n ==> Cleared(levels, memSeparator, st[l], st'[l], pa, l))
    && (forall l :: n <= l < |st| ==> st'[l] == st[l])
  }

  lemma {:induction false} ClearNext(levels: nat, memSeparator: nat, st: seq<seq<bool>>, before: seq<seq<bool>>,
                                     after: seq<seq<bool>>, pa: nat, n: nat)
    requires ClearedUpTo(levels, memSeparator, st, before, pa, n) && n < |st| == |after|
    requires Cleared(levels, memSeparator, before[n], after[n], pa, n)
    requires after == before[n := after[n]]
    ensures ClearedUpTo(levels, memSeparator, st, after, pa, n + 1)
  {
    forall l | 0 <= l < n + 1 ensures Cleared(levels, memSeparator, st[l], after[l], pa, l) {
      if l < n { assert Cleared(levels, memSeparator, st[l], before[l], pa, l); }
    }
  }

  /** The loop of buddy_init. */
  method BuildTrees(levels: nat, count: nat, memSeparator: nat) returns (bs: seq<BlockMem>)
    requires levels >= 2
    ensures |bs| == count && AllDisjoint(bs) && TreesOk(bs, levels, memSeparator)
    ensures forall k :: 0 <= k < |bs| ==> fresh(bs[k]) && fresh(bs[k].nodes) && fresh(bs[k].freeBySize)
    ensures forall k :: 0 <= k < |bs| ==> Used(bs[k]) == AllFree(levels)
  {
    bs := [];
    var freeRoot := 0;
    while |bs| < count
      invariant |bs| <= count && freeRoot == Slot(levels, |bs|)
      invariant forall k :: 0 <= k < |bs| ==> fresh(bs[k]) && fresh(bs[k].nodes) && fresh(bs[k].freeBySize)
      invariant AllDisjoint(bs) && TreesOk(bs, levels, memSeparator)
      invariant forall k :: 0 <= k < |bs| ==> Used(bs[k]) == AllFree(levels)
    {
      SlotStart(|bs|, levels);
      bs := AddTree(bs, levels, freeRoot, memSeparator);
      freeRoot := freeRoot + Pow2(levels);
    }
  }

  /** One turn of buddy_init's loop: a fresh tree after the ones already there. */
  method AddTree(bs: seq<BlockMem>, levels: nat, slot: nat, memSeparator: nat) returns (r: seq<BlockMem>)
    requires levels >= 2 && AllDisjoint(bs) && TreesOk(bs, levels, memSeparator)
    requires PGSIZE * slot / 2 == |bs| * Pow2(levels - 1) * PGSIZE
    ensures |r| == |bs| + 1 && r[..|bs|] == bs && fresh(r[|bs|]) && fresh(r[|bs|].nodes) && fresh(r[|bs|].freeBySize)
    ensures AllDisjoint(r) && TreesOk(r, levels, memSeparator)
    ensures forall k :: 0 <= k < |bs| ==> Used(r[k]) == old(Used(bs[k]))
    ensures Used(r[|bs|]) == AllFree(levels)
  {
    var b := new BlockMem(levels, slot, memSeparator);
    r := bs + [b];
    forall k | 0 <= k < |bs| ensures Disjoint(bs[k], b) { assert bs[k] in bs; }
    forall k | 0 <= k < |r| ensures TreeOk(r[k], levels, memSeparator, k) {
      if k < |bs| { assert old(TreeOk(bs[k], levels, memSeparator, k)); }
    }
  }

  /** The loop of buddy_alloc: the first tree that can give a block of level d gives one. */
  method ScanTrees(bs: seq<BlockMem>, levels: nat, memSeparator: nat, cnt: nat, ghost d: nat)
    returns (pa: nat, ghost k: nat, ghost p: nat)
    requires levels >= 2 && memSeparator > 0 && AllDisjoint(bs) && TreesOk(bs, levels, memSeparator)
    requires d < levels && cnt == SizeAt(levels, d)
    modifies bs, NodesOf(bs), CountsOf(bs)
    ensures TreesOk(bs, levels, memSeparator)
    ensures pa == 0 ==> State(bs) == old(State(bs)) && forall l, i :: !CanGive(old(State(bs)), d, l, i)
    ensures pa != 0 ==>
              && CanGive(old(State(bs)), d, k, p) && (forall l, i :: l < k ==> !CanGive(old(State(bs)), d, l, i))
              && pa == Start(levels, memSeparator, k, p)
              && State(bs) == old(State(bs))[k := old(State(bs))[k][p := true]]
  {
    pa, k, p := 0, 0, 1;
    ghost var st := State(bs);
    var n := 0;
    while n < |bs|
      invariant 0 <= n <= |bs| && TreesOk(bs, levels, memSeparator) && State(bs) == st
      invariant forall l, i :: l < n ==> !CanGive(st, d, l, i)
    {
      pa, p := AllocInTree(bs, levels, memSeparator, n, cnt, d);
      if pa != 0 {
        k := n;
        return;
      }
      n := n + 1;
    }
    pa := 0;
  }

  /** Over all trees together, live blocks never overlap. */
  lemma {:induction false} AllLiveApart(
    levels: nat, memSeparator: nat, u: seq<bool>, v: seq<bool>, k: nat, l: nat, i: nat, j: nat)
    requires Shape(levels, u) && Shape(levels, v) && Antichain(u) && (k == l ==> u == v)
    requires 1 <= i < |u| && 1 <= j < |v| && u[i] && v[j] && (k, i) != (l, j)
    ensures Depth(i) < levels && Depth(j) < levels
    ensures Start(levels, memSeparator, k, i) + Pages(levels, i) * PGSIZE <= Start(levels, memSeparator, l, j)
         || Start(levels, memSeparator, l, j) + Pages(levels, j) * PGSIZE <= Start(levels, memSeparator, k, i)
  {
    InTree(levels, i);
    InTree(levels, j);
    if k == l {
      LiveBlocksApart(levels, u, i, j);
    } else {
      Aligned(levels, i);
      Aligned(levels, j);
      if k < l { TreesInOrder(k, l, Pow2(levels - 1)); } else { TreesInOrder(l, k, Pow2(levels - 1)); }
    }
  }

  lemma {:induction false} TreesInOrder(k: nat, l: nat, size: nat)
    requires k < l
    ensures k * size + size <= l * size
  {
    assert (l - k - 1) * size >= 0;
    assert l * size == k * size + size + (l - k - 1) * size;
  }

  /** Index in nodes_mem where the slice of tree k starts. */
  ghost function Slot(levels: nat, k: nat): nat {
    if k == 0 then 0 else Slot(levels, k - 1) + Pow2(levels)
  }

  /** PGSIZE * slot / 2 bytes for a slot that starts k trees of 2^levels nodes along. */
  lemma {:induction false} SlotStart(k: nat, levels: nat)
    requires levels >= 1
    ensures PGSIZE * Slot(levels, k) / 2 == k * Pow2(levels - 1) * PGSIZE
  {
    SlotProduct(k, levels);
  }

  lemma {:induction false} SlotProduct(k: nat, levels: nat)
    requires levels >= 1
    ensures Slot(levels, k) == 2 * (k * Pow2(levels - 1))
  {
    if k > 0 {
      SlotProduct(k - 1, levels);
      assert k * Pow2(levels - 1) == (k - 1) * Pow2(levels - 1) + Pow2(levels - 1);
    }
  }
}
