/**
 * One tree of the buddy allocator (struct BlockMem and its slice of nodes_mem).
 * A node pointer is the node's heap index in the slice; index 0 stands for the null pointer.
 */
module BuddyBlock {
  import opened PowersOfTwo
  import opened BuddyTree
  import opened BuddyCounters
  import opened BuddySum
  import opened BuddySpec

  const PGSIZE: nat := 4096

  datatype MemNode = MemNode(
    leftChild: nat, rightChild: nat, head: nat, depth: nat, startPtr: nat,
    maxFreePage: nat, cntPage: nat, isUsed: bool)

  // ----- what a tree's memory says -------------------------------------------

  /** The fields of node i that never change after init_block. */
  ghost predicate Static(levels: nat, base: nat, node: MemNode, i: nat)
    requires 1 <= i < Pow2(levels)
  {
    InTree(levels, i);
    && node.leftChild == (if 2 * i < Pow2(levels) then 2 * i else 0)
    && node.rightChild == (if 2 * i < Pow2(levels) then 2 * i + 1 else 0)
    && node.head == i / 2
    && node.depth == Depth(i)
    && node.cntPage == Pages(levels, i)
    && node.startPtr == base + Offset(levels, i) * PGSIZE
  }

  ghost predicate Laid(levels: nat, base: nat, ns: seq<MemNode>) {
    && levels >= 2 && |ns| == Pow2(levels) && ns[0] == MemNode(0, 0, 0, 0, 0, 0, 0, false)
    && forall i {:trigger Static(levels, base, ns[i], i)} :: 1 <= i < |ns| ==> Static(levels, base, ns[i], i)
  }

  ghost function UsedOf(ns: seq<MemNode>): (u: seq<bool>)
    ensures |u| == |ns| && forall i :: 0 <= i < |ns| ==> u[i] == ns[i].isUsed
  {
    seq(|ns|, i requires 0 <= i < |ns| => ns[i].isUsed)
  }

  /** The cached maximum of j is right for `used`, or for `before` if j is n or an ancestor of n. */
  ghost predicate MaxOk(levels: nat, ns: seq<MemNode>, used: seq<bool>, before: seq<bool>, n: nat, j: nat)
    requires levels >= 1 && |ns| == |used| == |before| == Pow2(levels) && 1 <= j < |ns|
  {
    ns[j].maxFreePage == MaxFree(levels, if n != 0 && Anc(j, n) then before else used, j)
  }

  /** Every cached maximum is right for `used`, except that n and its ancestors still show `before`. */
  ghost predicate MaxUpTo(levels: nat, ns: seq<MemNode>, used: seq<bool>, before: seq<bool>, n: nat)
    requires levels >= 1 && |ns| == |used| == |before| == Pow2(levels)
  {
    forall j :: 1 <= j < |ns| ==> MaxOk(levels, ns, used, before, n, j)
  }

  lemma {:induction false} MaxAt(levels: nat, ns: seq<MemNode>, used: seq<bool>, before: seq<bool>, n: nat, j: nat)
    requires levels >= 1 && |ns| == |used| == |before| == Pow2(levels) && 1 <= j < |ns|
    requires MaxUpTo(levels, ns, used, before, n)
    ensures ns[j].maxFreePage == MaxFree(levels, if n != 0 && Anc(j, n) then before else used, j)
  {
    assert MaxOk(levels, ns, used, before, n, j);
  }

  /** What free_by_size ought to be: the number of maximal free blocks of every level. */
  ghost function Counts(levels: nat, used: seq<bool>): (c: seq<int>)
    ensures |c| == levels
  {
    seq(levels, d requires d >= 0 => |MaximalFreeAt(used, d)|)
  }

  /** The number of levels from the root down to n. */
  ghost function Levels(n: nat): nat {
    if n == 0 then 0 else Depth(n) + 1
  }

  /** All caches of the tree are the functions of its used bits that they should be. */
  ghost predicate Consistent(levels: nat, base: nat, ns: seq<MemNode>, counts: seq<int>, total: int, free: int) {
    && Laid(levels, base, ns)
    && Antichain(UsedOf(ns))
    && MaxUpTo(levels, ns, UsedOf(ns), UsedOf(ns), 0)
    && counts == Counts(levels, UsedOf(ns))
    && total == Pow2(levels - 1)
    && free == FreePages(levels, UsedOf(ns), 1)
  }

  /** check_node_block_counting: the node is wholly free while its parent is not. */
  function CheckNode(ns: seq<MemNode>, i: nat): (c: int)
    requires i < |ns| && ns[i].head < |ns|
    ensures c == 0 || c == 1
  {
    if ns[i].maxFreePage == ns[i].cntPage then
      if ns[i].depth == 0 then 1
      else if ns[ns[i].head].maxFreePage != ns[ns[i].head].cntPage then 1 else 0
    else 0
  }

  /** The code's test on the caches, for a node whose parent is not covered and whose caches show `u`. */
  lemma {:induction false} CheckMeaning(levels: nat, base: nat, ns: seq<MemNode>, u: seq<bool>, i: nat)
    requires Laid(levels, base, ns) && |u| == |ns| && 1 <= i < |ns|
    requires i == 1 || !Covered(u, i / 2)
    requires ns[i].maxFreePage == MaxFree(levels, u, i)
    requires i > 1 ==> ns[i / 2].maxFreePage == MaxFree(levels, u, i / 2)
    ensures ns[i].head < |ns| && CheckNode(ns, i) == Bit(MaximalFree(u, i))
  {
    assert Static(levels, base, ns[i], i);
    TestMeaning(levels, u, i);
    if i > 1 { assert Static(levels, base, ns[i / 2], i / 2); }
  }

  /** What the two tests below head h see, where the caches there are up to date. */
  lemma {:induction false} PairChecks(levels: nat, base: nat, ns: seq<MemNode>, u: seq<bool>, h: nat, l: nat, r: nat)
    requires Laid(levels, base, ns) && |ns| == |u| && 1 <= h && l == 2 * h && r == l + 1 < |u| && !Covered(u, h)
    requires ns[h].maxFreePage == MaxFree(levels, u, h)
    requires ns[l].maxFreePage == MaxFree(levels, u, l) && ns[r].maxFreePage == MaxFree(levels, u, r)
    ensures ns[l].head < |ns| && ns[r].head < |ns|
    ensures CheckNode(ns, l) == Bit(MaximalFree(u, l)) && CheckNode(ns, r) == Bit(MaximalFree(u, r))
  {
    CheckMeaning(levels, base, ns, u, l);
    CheckMeaning(levels, base, ns, u, r);
  }

  lemma {:induction false} PointersInside(levels: nat, base: nat, ns: seq<MemNode>, i: nat)
    requires Laid(levels, base, ns) && 1 <= i < |ns|
    ensures ns[i].head == i / 2 && ns[i].depth == Depth(i) < levels && ns[i].cntPage == Pages(levels, i)
    ensures ns[i].depth == levels - 1 <==> 2 * i >= |ns|
    ensures 2 * i < |ns| ==> ns[i].leftChild == 2 * i && ns[i].rightChild == 2 * i + 1 < |ns|
    ensures 2 * i >= |ns| ==> ns[i].leftChild == 0 && ns[i].rightChild == 0
    ensures i > 1 ==> i / 2 * 2 + 1 < |ns| && ns[i / 2].leftChild == i / 2 * 2 && ns[i / 2].rightChild == i / 2 * 2 + 1
    ensures i > 1 ==> ns[i / 2 * 2].head == i / 2 && ns[i / 2 * 2 + 1].head == i / 2
  {
    InTree(levels, i);
    assert Static(levels, base, ns[i], i);
    PairFits(levels, UsedOf(ns), i);
    if i > 1 {
      assert Static(levels, base, ns[i / 2], i / 2);
      assert Static(levels, base, ns[i / 2 * 2], i / 2 * 2);
      assert Static(levels, base, ns[i / 2 * 2 + 1], i / 2 * 2 + 1);
    }
  }

  /** Caches right for u in the pair of n and in its parent. */
  ghost predicate PairShows(levels: nat, ns: seq<MemNode>, u: seq<bool>, n: nat)
    requires levels >= 1 && |ns| == |u| == Pow2(levels) && 1 <= n < |ns| && (n == 1 || n / 2 * 2 + 1 < |ns|)
  {
    if n == 1 then ns[1].maxFreePage == MaxFree(levels, u, 1)
    else
      && ns[n / 2].maxFreePage == MaxFree(levels, u, n / 2)
      && ns[n / 2 * 2].maxFreePage == MaxFree(levels, u, n / 2 * 2)
      && ns[n / 2 * 2 + 1].maxFreePage == MaxFree(levels, u, n / 2 * 2 + 1)
  }

  lemma {:induction false} PairShown(levels: nat, ns: seq<MemNode>, before: seq<bool>, used: seq<bool>, m: nat, n: nat)
    requires levels >= 1 && |ns| == |used| == Pow2(levels) && Flip(before, used, m)
    requires 1 <= n < m && Anc(n, m) && (n == 1 || n / 2 * 2 + 1 < |ns|)
    requires MaxUpTo(levels, ns, used, before, n)
    ensures PairShows(levels, ns, before, n)
  {
    assert Anc(n, n);
    MaxAt(levels, ns, used, before, n, n);
    if n > 1 {
      assert Anc(n / 2, n);
      MaxAt(levels, ns, used, before, n, n / 2);
      SiblingShown(levels, ns, before, used, m, n, if n % 2 == 0 then n + 1 else n - 1);
    }
  }

  lemma {:induction false} SiblingShown(
    levels: nat, ns: seq<MemNode>, before: seq<bool>, used: seq<bool>, m: nat, n: nat, b: nat)
    requires levels >= 1 && |ns| == |used| == Pow2(levels) && Flip(before, used, m)
    requires 2 <= n < m && Anc(n, m) && 2 <= b < |ns| && b != n && b / 2 == n / 2
    requires MaxUpTo(levels, ns, used, before, n)
    ensures ns[b].maxFreePage == MaxFree(levels, before, b)
  {
    SiblingsNotAnc(n, b);
    if Anc(b, m) { AncAtLevel(b, n, m); assert false; }
    MaxAt(levels, ns, used, before, n, b);
    MaxSame(levels, before, used, m, b);
  }

  // ----- the state that init_block builds ----------------------------------------

  ghost function AllFree(levels: nat): (u: seq<bool>)
    ensures |u| == Pow2(levels) && forall i :: 0 <= i < |u| ==> !u[i]
  {
    seq(Pow2(levels), i => false)
  }

  /** Node i as init_block leaves it. */
  ghost predicate Fresh(levels: nat, base: nat, node: MemNode, i: nat)
    requires 1 <= i < Pow2(levels)
  {
    Static(levels, base, node, i) && node.maxFreePage == node.cntPage && !node.isUsed
  }

  /** The numbers init_block computes for node i from its parent's. */
  lemma {:induction false} LayOut(levels: nat, i: nat, depth: nat)
    requires levels >= 2 && 2 <= i < Pow2(levels) && Pow2(depth) <= i < Pow2(depth + 1)
    ensures Depth(i) == depth < levels && Depth(i / 2) < levels
    ensures depth < levels - 1 <==> 2 * i < Pow2(levels)
    ensures Pages(levels, i / 2) / 2 == Pages(levels, i)
    ensures Offset(levels, i) == Offset(levels, i / 2) + (if i % 2 == 0 then 0 else Pages(levels, i))
  {
    DepthOf(i, depth);
    InTree(levels, i);
    InTree(levels, i / 2);
  }

  /** An all-free tree has one maximal free block, the root, and all its pages free. */
  lemma {:induction false} AllFreeCaches(levels: nat)
    requires levels >= 1
    ensures Antichain(AllFree(levels))
    ensures forall i :: 1 <= i < Pow2(levels) ==> WhollyFree(AllFree(levels), i)
    ensures FreePages(levels, AllFree(levels), 1) == Pow2(levels - 1)
    ensures Counts(levels, AllFree(levels)) == seq(levels, d => if d == 0 then 1 else 0)
  {
    var u := AllFree(levels);
    FreePagesWhole(levels, u, 1);
    forall d | 0 <= d < levels ensures Counts(levels, u)[d] == if d == 0 then 1 else 0 {
      RootLevel(u);
      if d > 0 {
        forall i: nat | Pow2(d) <= i < Pow2(d + 1) && i < |u| ensures !MaximalFree(u, i) {
          assert Pow2(d) >= 2 && WhollyFree(u, i / 2);
        }
        assert MaximalFreeAt(u, d) == {};
      } else {
        assert !Covered(u, 1) && MaximalFree(u, 1);
      }
    }
  }

  lemma {:induction false} AllFresh(levels: nat, base: nat, ns: seq<MemNode>)
    requires levels >= 2 && |ns| == Pow2(levels) && ns[0] == MemNode(0, 0, 0, 0, 0, 0, 0, false)
    requires FreshUpTo(levels, base, ns, |ns|)
    ensures Laid(levels, base, ns) && UsedOf(ns) == AllFree(levels)
    ensures Antichain(UsedOf(ns)) && MaxUpTo(levels, ns, UsedOf(ns), UsedOf(ns), 0)
    ensures FreePages(levels, UsedOf(ns), 1) == Pow2(levels - 1)
  {
    forall i | 1 <= i < |ns| ensures Static(levels, base, ns[i], i) && !ns[i].isUsed {
      assert Fresh(levels, base, ns[i], i);
    }
    AllFreeCaches(levels);
    forall j | 1 <= j < |ns| ensures MaxOk(levels, ns, UsedOf(ns), UsedOf(ns), 0, j) {
      assert Fresh(levels, base, ns[j], j);
      MaxFreeBound(levels, UsedOf(ns), j);
    }
  }

  /** Node i of a tree as init_block computes it from its parent. */
  function ChildOf(levels: nat, parent: MemNode, i: nat, depth: nat): MemNode {
    var inner, pages := depth + 1 < levels, parent.cntPage / 2;
    MemNode(if inner then 2 * i else 0, if inner then 2 * i + 1 else 0, i / 2, depth,
            parent.startPtr + (if i % 2 == 0 then 0 else pages) * PGSIZE, pages, pages, false)
  }

  lemma {:induction false} ChildFresh(levels: nat, base: nat, parent: MemNode, i: nat, depth: nat)
    requires levels >= 2 && 2 <= i < Pow2(levels) && Pow2(depth) <= i < Pow2(depth + 1)
    requires Fresh(levels, base, parent, i / 2)
    ensures Fresh(levels, base, ChildOf(levels, parent, i, depth), i)
  {
    LayOut(levels, i, depth);
  }

  /** The node loop of init_block: the level counter follows the index, each node follows its parent. */
  method LayOutNodes(levels: nat, base: nat, nodes: array<MemNode>)
    requires levels >= 2 && nodes.Length == Pow2(levels)
    modifies nodes
    ensures nodes[0] == old(nodes[0])
    ensures FreshUpTo(levels, base, nodes[..], nodes.Length)
  {
    Pow2Monotone(2, levels);
    var rootPages := Pow2(levels - 1);
    nodes[1] := MemNode(2, 3, 0, 0, base, rootPages, rootPages, false);
    assert Fresh(levels, base, nodes[..][1], 1) by { InTree(levels, 1); }
    var depth, i := 1, 2;
    while i < Pow2(levels)
      invariant 2 <= i <= Pow2(levels) && Pow2(depth) <= i <= Pow2(depth + 1)
      invariant nodes[0] == old(nodes[0]) && FreshUpTo(levels, base, nodes[..], i)
    {
      if i == Pow2(depth + 1) {
        depth := depth + 1;
      }
      LayOutNode(levels, base, nodes, i, depth);
      i := i + 1;
    }
  }

  /** One turn of that loop. */
  method LayOutNode(levels: nat, base: nat, nodes: array<MemNode>, i: nat, depth: nat)
    requires levels >= 2 && nodes.Length == Pow2(levels) && 2 <= i < Pow2(levels) && Pow2(depth) <= i < Pow2(depth + 1)
    requires FreshUpTo(levels, base, nodes[..], i)
    modifies nodes
    ensures nodes[0] == old(nodes[0]) && FreshUpTo(levels, base, nodes[..], i + 1)
  {
    ghost var done := nodes[..];
    assert Fresh(levels, base, done[i / 2], i / 2);
    ChildFresh(levels, base, done[i / 2], i, depth);
    nodes[i] := ChildOf(levels, nodes[i / 2], i, depth);
    FreshMore(levels, base, done, i, nodes[i], nodes[..]);
  }

  lemma {:induction false} AddTwice(c: seq<int>, d: nat, x: int, y: int, z: int)
    requires d < |c| && z == x + y
    ensures c[d := c[d] + x][d := c[d := c[d] + x][d] + y] == c[d := c[d] + z]
  {
  }

  /** Nodes 1..n-1 are laid out. */
  ghost predicate FreshUpTo(levels: nat, base: nat, ns: seq<MemNode>, n: nat) {
    |ns| == Pow2(levels) && n <= |ns| && forall k :: 1 <= k < n ==> Fresh(levels, base, ns[k], k)
  }

  lemma {:induction false} FreshMore(levels: nat, base: nat, ns: seq<MemNode>, n: nat, node: MemNode, ns': seq<MemNode>)
    requires 1 <= n < |ns| && FreshUpTo(levels, base, ns, n) && Fresh(levels, base, node, n) && ns' == ns[n := node]
    ensures FreshUpTo(levels, base, ns', n + 1)
  {
    forall k | 1 <= k < n + 1 ensures Fresh(levels, base, ns'[k], k) {
      if k < n { assert Fresh(levels, base, ns[k], k); }
    }
  }

  class BlockMem {
    const levels: nat
    const base: nat
    const nodes: array<MemNode>
    const freeBySize: array<int>
    var total: int
    var free: int

    ghost predicate Valid()
      reads this, nodes, freeBySize
    {
      Consistent(levels, base, nodes[..], freeBySize[..], total, free)
    }

    /**
     * init_block for the tree whose slice of nodes_mem starts at index `slot`:
     * lay out the nodes level by level, all of them free.
     */
    constructor (levels: nat, slot: nat, memSeparator: nat)
      requires levels >= 2
      ensures Valid() && fresh(nodes) && fresh(freeBySize)
      ensures this.levels == levels && base == PGSIZE * slot / 2 + memSeparator == 4096 * slot / 2 + memSeparator
      ensures UsedOf(nodes[..]) == AllFree(levels)
    {
      this.levels := levels;
      base := PGSIZE * slot / 2 + memSeparator;
      nodes := new MemNode[Pow2(levels)](_ => MemNode(0, 0, 0, 0, 0, 0, 0, false));
      freeBySize := new int[levels](i => if i == 0 then 1 else 0);
      total, free := Pow2(levels - 1), Pow2(levels - 1);
      new;
      LayOutNodes(levels, base, nodes);
      AllFresh(levels, base, nodes[..]);
      AllFreeCaches(levels);
      assert freeBySize[..] == Counts(levels, AllFree(levels));
    }

    /** The counting half of update_node_free_cnt at node n: move free_by_size by sign times the pair's tests. */
    method CountPair(n: nat, sign: int, ghost u: seq<bool>)
      requires Laid(levels, base, nodes[..]) && freeBySize.Length == levels
      requires 1 <= n < nodes.Length == |u| && (n == 1 || n / 2 * 2 + 1 < |u|)
      requires n == 1 || !Covered(u, n / 2)
      requires PairShows(levels, nodes[..], u, n) && Levels(n) <= levels
      modifies freeBySize
      ensures freeBySize[..] == old(freeBySize[..])[Depth(n) := old(freeBySize[..])[Depth(n)] + sign * Pair(u, n)]
    {
      PointersInside(levels, base, nodes[..], n);
      if nodes[n].head != 0 {
        PairChecks(levels, base, nodes[..], u, n / 2, n / 2 * 2, n / 2 * 2 + 1);
        var h := nodes[n].head;
        var left, right := CheckNode(nodes[..], nodes[h].leftChild), CheckNode(nodes[..], nodes[h].rightChild);
        ghost var c0 := freeBySize[..];
        AddCount(nodes[n].depth, sign * left);
        AddCount(nodes[n].depth, sign * right);
        Distribute(left, right, sign);
        AddTwice(c0, nodes[n].depth, sign * left, sign * right, sign * Pair(u, n));
      } else {
        CheckMeaning(levels, base, nodes[..], u, 1);
        AddCount(nodes[n].depth, sign * CheckNode(nodes[..], n));
      }
    }

    method AddCount(d: nat, x: int)
      requires d < freeBySize.Length
      modifies freeBySize
      ensures freeBySize[..] == old(freeBySize[..])[d := old(freeBySize[..])[d] + x]
    {
      freeBySize[d] := freeBySize[d] + x;
    }

    /** The caching half: recompute maxFreePage of n from its children. */
    method RefreshMax(n: nat, ghost u: seq<bool>)
      requires Laid(levels, base, nodes[..]) && |u| == nodes.Length
      requires 1 <= n && 2 * n + 1 < nodes.Length && !u[n]
      requires nodes[2 * n].maxFreePage == MaxFree(levels, u, 2 * n)
      requires nodes[2 * n + 1].maxFreePage == MaxFree(levels, u, 2 * n + 1)
      modifies nodes
      ensures nodes[..] == old(nodes[..])[n := old(nodes[n]).(maxFreePage := MaxFree(levels, u, n))]
    {
      PointersInside(levels, base, nodes[..], n);
      if nodes[n].depth != levels - 1 {
        var left := nodes[nodes[n].leftChild].maxFreePage;
        var right := nodes[nodes[n].rightChild].maxFreePage;
        if left + right == nodes[n].cntPage {
          nodes[n] := nodes[n].(maxFreePage := nodes[n].cntPage);
        } else {
          nodes[n] := nodes[n].(maxFreePage := if left < right then right else left);
        }
      }
    }

    /** The part of update_node_free_cnt before its recursive call. */
    method DetachAndRefresh(n: nat, ghost m: nat, ghost before: seq<bool>)
      requires Laid(levels, base, nodes[..]) && freeBySize.Length == levels
      requires Flip(before, UsedOf(nodes[..]), m)
      requires 1 <= n < m && Anc(n, m) && n < nodes.Length && Levels(n) <= levels
      requires (n == 1 || n / 2 * 2 + 1 < |before|)
      requires MaxUpTo(levels, nodes[..], UsedOf(nodes[..]), before, n)
      modifies nodes, freeBySize
      ensures Laid(levels, base, nodes[..])
      ensures UsedOf(nodes[..]) == old(UsedOf(nodes[..]))
      ensures MaxUpTo(levels, nodes[..], UsedOf(nodes[..]), before, n / 2)
      ensures freeBySize[..] == old(freeBySize[..])[Depth(n) := old(freeBySize[..])[Depth(n)] + -1 * Pair(before, n)]
    {
      ghost var used := UsedOf(nodes[..]);
      UpdateReady(levels, nodes[..], before, used, m, n);
      CountPair(n, -1, before);
      RefreshMax(n, used);
      RefreshedMax(levels, base, old(nodes[..]), nodes[..], before, used, m, n);
    }

    /** The part of update_node_free_cnt after its recursive call. */
    method Reattach(n: nat, ghost m: nat, ghost before: seq<bool>, ghost c0: seq<int>, ghost c1: seq<int>)
      requires Laid(levels, base, nodes[..]) && freeBySize.Length == levels == |c0| == |c1|
      requires Flip(before, UsedOf(nodes[..]), m)
      requires 1 <= n < m && Anc(n, m) && n < nodes.Length && (n == 1 || n / 2 * 2 + 1 < |before|)
      requires Levels(n / 2) == Depth(n) < Levels(n) <= levels
      requires MaxUpTo(levels, nodes[..], UsedOf(nodes[..]), before, 0)
      requires c0[..Levels(n)] == Counts(levels, before)[..Levels(n)]
      requires c1 == c0[Depth(n) := c0[Depth(n)] + -1 * Pair(before, n)]
      requires freeBySize[..] == Counts(levels, UsedOf(nodes[..]))[..Levels(n / 2)] + c1[Levels(n / 2)..]
      modifies freeBySize
      ensures freeBySize[..] == Counts(levels, UsedOf(nodes[..]))[..Levels(n)] + c0[Levels(n)..]
    {
      ghost var used := UsedOf(nodes[..]);
      UpdateDone(levels, nodes[..], before, used, m, n);
      CountPair(n, 1, used);
      CountsRise(levels, c0, c1, old(freeBySize[..]), freeBySize[..], before, used, m, n);
    }

    /** update_node_free_cnt: repair the caches from n up to the root after bit m was flipped below n. */
    method UpdateNodeFreeCnt(n: nat, ghost m: nat, ghost before: seq<bool>)
      requires Laid(levels, base, nodes[..]) && freeBySize.Length == levels
      requires Flip(before, UsedOf(nodes[..]), m)
      requires n < nodes.Length && (n != 0 ==> n < m && Anc(n, m)) && Levels(n) <= levels
      requires MaxUpTo(levels, nodes[..], UsedOf(nodes[..]), before, n)
      requires freeBySize[..][..Levels(n)] == Counts(levels, before)[..Levels(n)]
      modifies nodes, freeBySize
      ensures Laid(levels, base, nodes[..])
      ensures UsedOf(nodes[..]) == old(UsedOf(nodes[..]))
      ensures MaxUpTo(levels, nodes[..], UsedOf(nodes[..]), before, 0)
      ensures freeBySize[..] == Counts(levels, UsedOf(nodes[..]))[..Levels(n)] + old(freeBySize[..])[Levels(n)..]
      decreases n
    {
      if n == 0 {
        return;
      }
      PairFits(levels, before, n);
      DetachAndRefresh(n, m, before);
      ghost var c1 := freeBySize[..];
      CountsFall(levels, old(freeBySize[..]), c1, before, m, n);
      PointersInside(levels, base, nodes[..], n);
      UpdateNodeFreeCnt(nodes[n].head, m, before);
      Reattach(n, m, before, old(freeBySize[..]), c1);
    }

    /** The stores of alloc_in_node at the node it takes, before it repairs the ancestors. */
    method MarkTaken(m: nat, ghost u0: seq<bool>, ghost u1: seq<bool>)
      requires Valid() && u0 == UsedOf(nodes[..]) && Flip(u0, u1, m) && u1[m]
      modifies this`free, nodes, freeBySize
      ensures Laid(levels, base, nodes[..]) && UsedOf(nodes[..]) == u1
      ensures MaxUpTo(levels, nodes[..], u1, u0, m / 2)
      ensures Levels(m / 2) == Depth(m) < levels && freeBySize.Length == levels
      ensures freeBySize[..] == Counts(levels, u0)[Depth(m) := Counts(levels, u1)[Depth(m)]]
      ensures free == FreePages(levels, u1, 1)
    {
      ghost var n0 := nodes[..];
      CountTaken(m, u0, u1);
      nodes[m] := nodes[m].(maxFreePage := 0, isUsed := true);
      FlippedNode(levels, base, n0, nodes[..], u0, u1, m);
    }

    /** The counters when alloc_in_node takes m. */
    method CountTaken(m: nat, ghost u0: seq<bool>, ghost u1: seq<bool>)
      requires Valid() && u0 == UsedOf(nodes[..]) && Flip(u0, u1, m) && u1[m]
      modifies this`free, freeBySize
      ensures Depth(m) < levels && freeBySize.Length == levels
      ensures freeBySize[..] == Counts(levels, u0)[Depth(m) := Counts(levels, u1)[Depth(m)]]
      ensures free == FreePages(levels, u1, 1)
    {
      PointersInside(levels, base, nodes[..], m);
      NumbersAtFlip(levels, u0, u1, m);
      CheckAtFlip(levels, base, nodes[..], u0, u1, m);
      AddCount(nodes[m].depth, if CheckNode(nodes[..], m) != 0 then -1 else 1);
      free := free - nodes[m].maxFreePage;
    }

    /** The branch of alloc_in_node that takes node m. */
    method Take(m: nat)
      requires Valid() && 1 <= m < nodes.Length && Available(UsedOf(nodes[..]), m)
      modifies this`free, nodes, freeBySize
      ensures Valid()
      ensures UsedOf(nodes[..]) == old(UsedOf(nodes[..]))[m := true]
    {
      ghost var u0 := UsedOf(nodes[..]);
      ghost var u1 := u0[m := true];
      TakeKeepsAntichain(u0, m);
      MarkTaken(m, u0, u1);
      ghost var c1 := freeBySize[..];
      PointersInside(levels, base, nodes[..], m);
      HeadAbove(levels, c1, u0, u1, u1, m);
      UpdateNodeFreeCnt(nodes[m].head, m, u0);
      SettledMax(levels, nodes[..], u1, u0);
      CountsAround(levels, c1, freeBySize[..], u0, u1, m);
    }

    /** The stores of free_in_node at the node it releases, before it repairs the ancestors. */
    method MarkReleased(m: nat, ghost u0: seq<bool>, ghost u1: seq<bool>)
      requires Valid() && u0 == UsedOf(nodes[..]) && Flip(u0, u1, m) && u0[m]
      modifies this`free, nodes
      ensures Laid(levels, base, nodes[..]) && UsedOf(nodes[..]) == u1
      ensures MaxUpTo(levels, nodes[..], u1, u0, m / 2)
      ensures Levels(m / 2) == Depth(m) < levels
      ensures free == FreePages(levels, u1, 1)
    {
      ghost var n0 := nodes[..];
      PointersInside(levels, base, nodes[..], m);
      NumbersAtFlip(levels, u1, u0, m);
      nodes[m] := nodes[m].(isUsed := false, maxFreePage := nodes[m].cntPage);
      free := free + nodes[m].maxFreePage;
      FlippedNode(levels, base, n0, nodes[..], u0, u1, m);
    }

    /** The branch of free_in_node that releases node m. */
    method Release(m: nat)
      requires Valid() && 1 <= m < nodes.Length && UsedOf(nodes[..])[m]
      modifies this`free, nodes, freeBySize
      ensures Valid()
      ensures UsedOf(nodes[..]) == old(UsedOf(nodes[..]))[m := false]
    {
      ghost var u0 := UsedOf(nodes[..]);
      ghost var u1 := u0[m := false];
      ReleaseKeepsAntichain(u0, m);
      assert Flip(u1, u0, m);
      MarkReleased(m, u0, u1);
      PointersInside(levels, base, nodes[..], m);
      HeadAbove(levels, freeBySize[..], u0, u0, u1, m);
      UpdateNodeFreeCnt(nodes[m].head, m, u0);
      SettledMax(levels, nodes[..], u1, u0);
      CountReleased(m, u0, u1);
    }

    /** The last step of free_in_node at the released node: count it, or count its merged buddy out. */
    method CountReleased(m: nat, ghost u0: seq<bool>, ghost u1: seq<bool>)
      requires Laid(levels, base, nodes[..]) && UsedOf(nodes[..]) == u1 && freeBySize.Length == levels
      requires MaxUpTo(levels, nodes[..], u1, u1, 0)
      requires Flip(u0, u1, m) && Flip(u1, u0, m) && u0[m]
      requires Levels(m / 2) == Depth(m) < levels
      requires freeBySize[..] == Counts(levels, u1)[..Levels(m / 2)] + Counts(levels, u0)[Levels(m / 2)..]
      modifies freeBySize
      ensures freeBySize[..] == Counts(levels, u1)
    {
      ghost var c1 := freeBySize[..];
      PointersInside(levels, base, nodes[..], m);
      CheckAtFlip(levels, base, nodes[..], u1, u0, m);
      NumbersAtFlip(levels, u1, u0, m);
      var change := if CheckNode(nodes[..], m) != 0 then 1 else -1;
      freeBySize[nodes[m].depth] := freeBySize[nodes[m].depth] + change;
      CountsAfterRelease(levels, c1, freeBySize[..], u0, u1, m);
    }

    /** alloc_in_node: descend to a free block of the requested size and take it. */
    method AllocInNode(i: nat, size: nat, ghost d: nat) returns (pa: nat, ghost p: nat)
      requires Valid() && 1 <= i < nodes.Length && Depth(i) <= d < levels
      requires !Covered(UsedOf(nodes[..]), i)
      requires size == SizeAt(levels, d) <= MaxFree(levels, UsedOf(nodes[..]), i)
      modifies this`free, nodes, freeBySize
      ensures Valid() && 1 <= p < nodes.Length && Depth(p) < levels
      ensures p == Place(levels, old(UsedOf(nodes[..])), i, d)
      ensures UsedOf(nodes[..]) == old(UsedOf(nodes[..]))[p := true]
      ensures pa == base + Offset(levels, p) * PGSIZE
      decreases d - Depth(i)
    {
      PointersInside(levels, base, nodes[..], i);
      AllocStep(levels, base, nodes[..], UsedOf(nodes[..]), i, d);
      if nodes[i].maxFreePage == size && nodes[i].cntPage == size {
        pa, p := nodes[i].startPtr, i;
        Take(i);
      } else {
        var child := if nodes[nodes[i].leftChild].maxFreePage >= size then nodes[i].leftChild else nodes[i].rightChild;
        pa, p := AllocInNode(child, size, d);
      }
    }

    /** alloc_in_block: refuse if the root has no room, else allocate from the root. */
    method AllocInBlock(size: nat, ghost d: nat) returns (pa: nat, ghost p: nat)
      requires Valid() && base > 0 && d < levels && size == SizeAt(levels, d)
      modifies this`free, nodes, freeBySize
      ensures Valid()
      ensures pa == 0 <==> !exists i :: 1 <= i < nodes.Length && Depth(i) == d && Available(old(UsedOf(nodes[..])), i)
      ensures UsedOf(nodes[..]) == Step(levels, old(UsedOf(nodes[..])), Alloc(d))
      ensures pa == 0 ==> UsedOf(nodes[..]) == old(UsedOf(nodes[..]))
      ensures pa != 0 ==>
                && 1 <= p < nodes.Length && Depth(p) == d && Available(old(UsedOf(nodes[..])), p)
                && UsedOf(nodes[..]) == old(UsedOf(nodes[..]))[p := true]
                && pa == base + Offset(levels, p) * PGSIZE
    {
      ghost var used := UsedOf(nodes[..]);
      RoomIffAvailable(levels, used, d);
      MaxAt(levels, nodes[..], used, used, 0, 1);
      p := 1;
      if nodes[1].maxFreePage < size {
        return 0, 1;
      }
      assert !used[1] && !Covered(used, 1);
      PlaceIsAvailable(levels, used, 1, d);
      pa, p := AllocInNode(1, size, d);
    }

    /** free_in_node: release the used node that starts at startPtr, and go on descending. */
    method FreeInNode(i: nat, startPtr: nat, ghost page: nat)
      requires Valid() && 1 <= i < nodes.Length && startPtr == base + page * PGSIZE
      modifies this`free, nodes, freeBySize
      ensures Valid()
      ensures var t := Target(levels, old(UsedOf(nodes[..])), i, page);
              UsedOf(nodes[..]) ==
                if 0 < t < nodes.Length then old(UsedOf(nodes[..]))[t := false] else old(UsedOf(nodes[..]))
      decreases nodes.Length - i
    {
      PointersInside(levels, base, nodes[..], i);
      assert Static(levels, base, nodes[i], i);
      if nodes[i].startPtr == startPtr && nodes[i].isUsed {
        Release(i);
        ReleasedBelow(levels, old(UsedOf(nodes[..])), i, page);
        PointersInside(levels, base, nodes[..], i);
        assert Static(levels, base, nodes[i], i);
      }
      if nodes[i].leftChild == 0 || nodes[i].rightChild == 0 {
        return;
      }
      Halves(levels, nodes.Length, i);
      if nodes[i].startPtr + nodes[i].cntPage * PGSIZE / 2 <= startPtr {
        FreeInNode(nodes[i].rightChild, startPtr, page);
      } else {
        FreeInNode(nodes[i].leftChild, startPtr, page);
      }
    }

    /** free_in_block: releases precisely the live block that starts at startPtr, or changes nothing. */
    method FreeInBlock(startPtr: nat, ghost page: nat)
      requires Valid() && startPtr == base + page * PGSIZE
      modifies this`free, nodes, freeBySize
      ensures Valid()
      ensures UsedOf(nodes[..]) == Step(levels, old(UsedOf(nodes[..])), Free(page))
      ensures forall i :: 1 <= i < nodes.Length ==>
                Depth(i) < levels &&
                (UsedOf(nodes[..])[i] <==> old(UsedOf(nodes[..]))[i] && Offset(levels, i) != page)
    {
      ghost var used := UsedOf(nodes[..]);
      FreeInNode(1, startPtr, page);
      forall i | 1 <= i < nodes.Length
        ensures Depth(i) < levels && (UsedOf(nodes[..])[i] <==> used[i] && Offset(levels, i) != page)
      {
        FreeMeaning(levels, used, page, i);
      }
    }
  }

  /** After the release nothing below i is used, so the rest of the descent finds nothing. */
  lemma {:induction false} ReleasedBelow(levels: nat, used: seq<bool>, i: nat, page: nat)
    requires Shape(levels, used) && Antichain(used) && 1 <= i < |used| && used[i]
    ensures 2 * i + 1 < |used| ==>
              && Target(levels, used[i := false], 2 * i, page) == 0
              && Target(levels, used[i := false], 2 * i + 1, page) == 0
  {
    ReleaseKeepsAntichain(used, i);
    MaxAtFlip(levels, used, used[i := false], i);
    if 2 * i + 1 < |used| {
      WhollyFreeSplit(used[i := false], i);
      NoTargetInFree(levels, used[i := false], 2 * i, page);
      NoTargetInFree(levels, used[i := false], 2 * i + 1, page);
    }
  }

  /** What alloc_in_node sees at node i: stop exactly at level d, else a child with room. */
  lemma {:induction false} AllocStep(levels: nat, base: nat, ns: seq<MemNode>, used: seq<bool>, i: nat, d: nat)
    requires Laid(levels, base, ns) && |used| == |ns| && MaxUpTo(levels, ns, used, used, 0)
    requires 1 <= i < |ns| && Depth(i) <= d < levels && !Covered(used, i)
    requires SizeAt(levels, d) <= MaxFree(levels, used, i)
    ensures ns[i].maxFreePage == SizeAt(levels, d) && ns[i].cntPage == SizeAt(levels, d) <==> Depth(i) == d
    ensures ns[i].startPtr == base + Offset(levels, i) * PGSIZE
    ensures Depth(i) == d ==> Available(used, i) && Place(levels, used, i, d) == i
    ensures Depth(i) < d ==>
              && 2 * i + 1 < |ns| && Depth(2 * i) == Depth(i) + 1 == Depth(2 * i + 1)
              && ns[2 * i].maxFreePage == MaxFree(levels, used, 2 * i)
    ensures Depth(i) < d ==>
              if MaxFree(levels, used, 2 * i) >= SizeAt(levels, d)
              then !Covered(used, 2 * i) && Place(levels, used, i, d) == Place(levels, used, 2 * i, d)
              else SizeAt(levels, d) <= MaxFree(levels, used, 2 * i + 1) && !Covered(used, 2 * i + 1)
                   && Place(levels, used, i, d) == Place(levels, used, 2 * i + 1, d)
  {
    assert Static(levels, base, ns[i], i);
    PlaceIsAvailable(levels, used, i, d);
    MaxAt(levels, ns, used, used, 0, i);
    MaxFreeBound(levels, used, i);
    SizeIsDepth(levels, i, d);
    InTree(levels, i);
    if Depth(i) < d {
      DescendStep(levels, used, i, d);
      MaxAt(levels, ns, used, used, 0, 2 * i);
    }
  }

  lemma {:induction false} SizeIsDepth(levels: nat, i: nat, d: nat)
    requires 1 <= i && Depth(i) < levels && d < levels
    ensures Pages(levels, i) == SizeAt(levels, d) <==> Depth(i) == d
    ensures Pages(levels, i) > SizeAt(levels, d) <==> Depth(i) < d
  {
    if Depth(i) < d {
      Pow2Monotone(levels - 1 - d, levels - 1 - Depth(i));
    } else if d < Depth(i) {
      Pow2Monotone(levels - 1 - Depth(i), levels - 1 - d);
    }
  }

  lemma {:induction false} SettledMax(levels: nat, ns: seq<MemNode>, used: seq<bool>, before: seq<bool>)
    requires levels >= 1 && |ns| == |used| == |before| == Pow2(levels)
    requires MaxUpTo(levels, ns, used, before, 0)
    ensures MaxUpTo(levels, ns, used, used, 0)
  {
    forall j | 1 <= j < |ns| ensures MaxOk(levels, ns, used, used, 0, j) {
      MaxAt(levels, ns, used, before, 0, j);
    }
  }

  lemma {:induction false} CountsAfterRelease(
    levels: nat, c1: seq<int>, c2: seq<int>, u0: seq<bool>, u1: seq<bool>, m: nat)
    requires Flip(u0, u1, m) && Levels(m / 2) == Depth(m) < levels
    requires c1 == Counts(levels, u1)[..Levels(m / 2)] + Counts(levels, u0)[Levels(m / 2)..]
    requires c2 == c1[Depth(m) := Counts(levels, u1)[Depth(m)]]
    ensures c2 == Counts(levels, u1)
  {
    forall d | 0 <= d < levels ensures c2[d] == Counts(levels, u1)[d] {
      if d > Depth(m) { LowerLevelsSame(u0, u1, m, d); }
    }
  }

  lemma {:induction false} HeadAbove(levels: nat, c1: seq<int>, u0: seq<bool>, u: seq<bool>, u1: seq<bool>, m: nat)
    requires Shape(levels, u0) && Flip(u0, u1, m) && Levels(m / 2) == Depth(m) < levels
    requires c1 == Counts(levels, u0)[Depth(m) := Counts(levels, u)[Depth(m)]]
    ensures m / 2 != 0 ==> Anc(m / 2, m)
    ensures c1[..Levels(m / 2)] == Counts(levels, u0)[..Levels(m / 2)]
  {
  }

  /** How the two counters move when m is taken. */
  lemma {:induction false} NumbersAtFlip(levels: nat, u0: seq<bool>, u1: seq<bool>, m: nat)
    requires Shape(levels, u0) && Flip(u0, u1, m) && u1[m]
    ensures Depth(m) < levels
    ensures Counts(levels, u1)[Depth(m)] == Counts(levels, u0)[Depth(m)] + (if MaximalFree(u0, m) then -1 else 1)
    ensures FreePages(levels, u1, 1) == FreePages(levels, u0, 1) - Pages(levels, m)
  {
    InTree(levels, m);
    OwnLevelDelta(levels, u0, u1, m);
    RootIsAnc(m);
    FreePagesDelta(levels, u0, u1, m, 1);
  }

  /** The test at m before it is taken, and the room it has. */
  lemma {:induction false} CheckAtFlip(levels: nat, base: nat, ns: seq<MemNode>, used: seq<bool>, u1: seq<bool>, m: nat)
    requires Laid(levels, base, ns) && |used| == |ns| && MaxUpTo(levels, ns, used, used, 0)
    requires (Flip(used, u1, m) && u1[m]) || (Flip(u1, used, m) && u1[m])
    ensures ns[m].head < |ns| && CheckNode(ns, m) == Bit(MaximalFree(used, m))
    ensures Depth(m) < levels && ns[m].maxFreePage == Pages(levels, m)
  {
    if Flip(used, u1, m) {
      if m > 1 { PathClear(used, u1, m, m / 2); }
      MaxAtFlip(levels, used, u1, m);
    } else {
      if m > 1 { PathClear(u1, used, m, m / 2); }
      MaxAtFlip(levels, u1, used, m);
    }
    MaxAt(levels, ns, used, used, 0, m);
    if m > 1 { MaxAt(levels, ns, used, used, 0, m / 2); }
    CheckMeaning(levels, base, ns, used, m);
    MaxFreeBound(levels, used, m);
  }

  /** Writing the used bit and the maximum of m leaves only m's ancestors to be repaired. */
  lemma {:induction false} FlippedNode(levels: nat, base: nat, ns: seq<MemNode>, ns': seq<MemNode>,
                                       u0: seq<bool>, u1: seq<bool>, m: nat)
    requires Laid(levels, base, ns) && UsedOf(ns) == u0 && Flip(u0, u1, m)
    requires MaxUpTo(levels, ns, u0, u0, 0)
    requires Depth(m) < levels
    requires ns' == ns[m := ns[m].(maxFreePage := if u1[m] then 0 else Pages(levels, m), isUsed := u1[m])]
    ensures Laid(levels, base, ns') && UsedOf(ns') == u1
    ensures MaxUpTo(levels, ns', u1, u0, m / 2)
    ensures m / 2 != 0 ==> Anc(m / 2, m)
    ensures Levels(m / 2) == Depth(m)
  {
    forall i | 1 <= i < |ns'| ensures Static(levels, base, ns'[i], i) {
      assert Static(levels, base, ns[i], i);
    }
    forall j | 1 <= j < |ns'| ensures MaxOk(levels, ns', u1, u0, m / 2, j) {
      MaxAt(levels, ns, u0, u0, 0, j);
      if j == m {
        MaxAtFlip(levels, u0, u1, m);
      } else if !Anc(j, m) {
        MaxSame(levels, u0, u1, m, j);
      }
    }
  }

  /** Counts after the repair: above m by update_node_free_cnt, at m by the +-1, below m unchanged. */
  lemma {:induction false} CountsAround(levels: nat, c1: seq<int>, c2: seq<int>, u0: seq<bool>, u1: seq<bool>, m: nat)
    requires Flip(u0, u1, m) && Levels(m / 2) == Depth(m) < levels == |c1|
    requires c1 == Counts(levels, u0)[Depth(m) := Counts(levels, u1)[Depth(m)]]
    requires c2 == Counts(levels, u1)[..Levels(m / 2)] + c1[Levels(m / 2)..]
    ensures c2 == Counts(levels, u1)
  {
    forall d | 0 <= d < levels ensures c2[d] == Counts(levels, u1)[d] {
      if d > Depth(m) { LowerLevelsSame(u0, u1, m, d); }
    }
  }

  lemma {:induction false} CountsFall(levels: nat, c0: seq<int>, c1: seq<int>, before: seq<bool>, m: nat, n: nat)
    requires 1 <= n < |before| && Levels(n) <= |c0| == levels && Anc(n, m) && (n == 1 || n / 2 * 2 + 1 < |before|)
    requires c0[..Levels(n)] == Counts(levels, before)[..Levels(n)]
    requires c1 == c0[Depth(n) := c0[Depth(n)] + -1 * Pair(before, n)]
    ensures Levels(n / 2) == Depth(n) && c1[..Levels(n / 2)] == Counts(levels, before)[..Levels(n / 2)]
    ensures n > 1 ==> Anc(n / 2, m)
  {
    if n > 1 {
      assert Anc(n / 2, n);
      AncTrans(n / 2, n, m);
    }
    var d := Depth(n);
    assert c1[..d] == c0[..Levels(n)][..d] == Counts(levels, before)[..Levels(n)][..d] == Counts(levels, before)[..d];
  }

  /** The two moves of free_by_size around the recursion leave the right count at the level of n. */
  lemma {:induction false} CountsRise(levels: nat, c0: seq<int>, c1: seq<int>, c2: seq<int>, c3: seq<int>,
                                      before: seq<bool>, used: seq<bool>, m: nat, n: nat)
    requires Flip(before, used, m) && Shape(levels, used) && 1 <= n < m && Anc(n, m)
    requires (n == 1 || n / 2 * 2 + 1 < |used|)
    requires |c0| == levels && Levels(n / 2) == Depth(n) < Levels(n) <= levels
    requires c0[..Levels(n)] == Counts(levels, before)[..Levels(n)]
    requires c1 == c0[Depth(n) := c0[Depth(n)] + -1 * Pair(before, n)]
    requires c2 == Counts(levels, used)[..Levels(n / 2)] + c1[Levels(n / 2)..]
    requires c3 == c2[Depth(n) := c2[Depth(n)] + 1 * Pair(used, n)]
    ensures c3 == Counts(levels, used)[..Levels(n)] + c0[Levels(n)..]
  {
    var d := Depth(n);
    LevelDelta(levels, before, used, m, n);
    assert c0[d] == c0[..Levels(n)][d] == Counts(levels, before)[..Levels(n)][d] == Counts(levels, before)[d];
    assert Counts(levels, before)[d] == |MaximalFreeAt(before, d)|;
    assert Counts(levels, used)[d] == |MaximalFreeAt(used, d)|;
  }

  lemma {:induction false} UpdateDone(levels: nat, ns: seq<MemNode>, before: seq<bool>, used: seq<bool>, m: nat, n: nat)
    requires levels >= 1 && |ns| == |used| == Pow2(levels) && Flip(before, used, m)
    requires 1 <= n < m && n < |ns| && Anc(n, m) && (n == 1 || n / 2 * 2 + 1 < |ns|)
    requires MaxUpTo(levels, ns, used, before, 0)
    ensures PairShows(levels, ns, used, n) && (n == 1 || !Covered(used, n / 2))
  {
    PathClear(before, used, m, n);
    MaxAt(levels, ns, used, before, 0, n);
    if n > 1 {
      MaxAt(levels, ns, used, before, 0, n / 2);
      MaxAt(levels, ns, used, before, 0, n / 2 * 2);
      MaxAt(levels, ns, used, before, 0, n / 2 * 2 + 1);
    }
  }

  /** Before node n is refreshed: its children are already right, its pair still shows the old state. */
  lemma {:induction false} UpdateReady(
    levels: nat, ns: seq<MemNode>, before: seq<bool>, used: seq<bool>, m: nat, n: nat)
    requires levels >= 1 && |ns| == |used| == Pow2(levels) && Flip(before, used, m)
    requires 1 <= n < m && Anc(n, m)
    requires MaxUpTo(levels, ns, used, before, n)
    ensures 2 * n + 1 < |ns| && !used[n] && !Covered(used, n) && !Covered(before, n)
    ensures n == 1 || (n / 2 * 2 + 1 < |ns| && !Covered(used, n / 2) && !Covered(before, n / 2))
    ensures PairShows(levels, ns, before, n)
    ensures ns[2 * n].maxFreePage == MaxFree(levels, used, 2 * n)
    ensures ns[2 * n + 1].maxFreePage == MaxFree(levels, used, 2 * n + 1)
  {
    AncBelow(n, m);
    PathClear(before, used, m, n);
    SiblingsFit(|ns|, levels, n);
    PairFits(levels, used, n);
    PairShown(levels, ns, before, used, m, n);
    MaxAt(levels, ns, used, before, n, 2 * n);
    MaxAt(levels, ns, used, before, n, 2 * n + 1);
  }

  lemma {:induction false} RefreshedMax(levels: nat, base: nat, ns: seq<MemNode>, ns': seq<MemNode>,
                                        before: seq<bool>, used: seq<bool>, m: nat, n: nat)
    requires Laid(levels, base, ns) && |ns| == |used| && Flip(before, used, m) && used == UsedOf(ns)
    requires 1 <= n < m && n < |ns| && Anc(n, m)
    requires MaxUpTo(levels, ns, used, before, n)
    requires ns' == ns[n := ns[n].(maxFreePage := MaxFree(levels, used, n))]
    ensures Laid(levels, base, ns') && UsedOf(ns') == used
    ensures MaxUpTo(levels, ns', used, before, n / 2)
  {
    forall i | 1 <= i < |ns'| ensures Static(levels, base, ns'[i], i) {
      assert Static(levels, base, ns[i], i);
    }
    forall j | 1 <= j < |ns'| ensures MaxOk(levels, ns', used, before, n / 2, j) {
      MaxAt(levels, ns, used, before, n, j);
    }
  }
}
