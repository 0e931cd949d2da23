/**
 * The mathematics of one buddy tree: a perfect binary tree of `depth` levels stored
 * in heap order (root 1, children 2i and 2i + 1), described by its used bits alone.
 * Everything the allocator caches is defined here as a function of those bits.
 */
module BuddyTree {
  import opened PowersOfTwo

  // ----- geometry -----------------------------------------------------------

  /** Level of heap index i; the root is at level 0. */
  function Depth(i: nat): nat
    requires i >= 1
  {
    if i == 1 then 0 else 1 + Depth(i / 2)
  }

  /** Number of pages under node i of a tree with `depth` levels. */
  function Pages(depth: nat, i: nat): (p: nat)
    requires 1 <= i && Depth(i) < depth
    ensures p >= 1
  {
    Pow2(depth - 1 - Depth(i))
  }

  /** First page of node i, counted from the first page of its tree. */
  function Offset(depth: nat, i: nat): nat
    requires 1 <= i && Depth(i) < depth
  {
    if i == 1 then 0 else Offset(depth, i / 2) + (if i % 2 == 0 then 0 else Pages(depth, i))
  }

  /** i is j or an ancestor of j. */
  predicate Anc(i: nat, j: nat)
    requires i >= 1
    decreases j
  {
    i == j || (j > i && Anc(i, j / 2))
  }

  lemma {:induction false} DepthBounds(i: nat)
    requires i >= 1
    ensures Pow2(Depth(i)) <= i < Pow2(Depth(i) + 1)
  {
    if i > 1 {
      DepthBounds(i / 2);
    }
  }

  lemma {:induction false} DepthOf(i: nat, d: nat)
    requires Pow2(d) <= i < Pow2(d + 1)
    ensures Depth(i) == d
  {
    DepthBounds(i);
    if Depth(i) < d {
      Pow2Monotone(Depth(i) + 1, d);
    } else if Depth(i) > d {
      Pow2Monotone(d + 1, Depth(i));
    }
  }

  /** Index bounds and level bounds agree, and the leaves are the last level. */
  lemma {:induction false} InTree(depth: nat, i: nat)
    requires i >= 1
    ensures i < Pow2(depth) <==> Depth(i) < depth
    ensures depth >= 1 && i < Pow2(depth) ==> (2 * i >= Pow2(depth) <==> Depth(i) == depth - 1)
    ensures Depth(2 * i) == Depth(i) + 1 && Depth(2 * i + 1) == Depth(i) + 1
  {
    DepthBounds(i);
    if Depth(i) < depth {
      Pow2Monotone(Depth(i) + 1, depth);
      if Depth(i) < depth - 1 {
        Pow2Monotone(Depth(i) + 2, depth);
      }
    } else {
      Pow2Monotone(depth, Depth(i));
    }
  }

  lemma {:induction false} AncTrans(i: nat, j: nat, k: nat)
    requires i >= 1 && j >= 1 && Anc(i, j) && Anc(j, k)
    ensures Anc(i, k)
    decreases k
  {
    if j < k {
      AncTrans(i, j, k / 2);
    }
  }

  /** A strict descendant lies below exactly one child. */
  lemma {:induction false} AncBelow(i: nat, j: nat)
    requires i >= 1
    ensures Anc(i, j) <==> i == j || Anc(2 * i, j) || Anc(2 * i + 1, j)
    ensures !(Anc(2 * i, j) && Anc(2 * i + 1, j))
    decreases j
  {
    if j > 2 * i + 1 {
      AncBelow(i, j / 2);
    } else if j > i {
      assert j / 2 == i || j / 2 < i;
    }
  }

  /** Depths along a path of ancestors, and at most one ancestor per level. */
  lemma {:induction false} AncDepth(i: nat, j: nat)
    requires i >= 1 && j >= 1 && Anc(i, j)
    ensures Depth(i) <= Depth(j)
    ensures Depth(i) == Depth(j) ==> i == j
    decreases j
  {
    if i < j {
      AncDepth(i, j / 2);
    }
  }

  lemma {:induction false} AncAtLevel(i: nat, j: nat, k: nat)
    requires i >= 1 && j >= 1 && k >= 1 && Anc(i, k) && Anc(j, k) && Depth(i) <= Depth(j)
    ensures Anc(i, j)
    decreases k
  {
    if i == k {
      AncDepth(j, k);
    } else if j < k {
      AncAtLevel(i, j, k / 2);
    }
  }

  /** The pages of a descendant lie inside those of its ancestor, at a multiple of its own size. */
  lemma {:induction false} Inside(depth: nat, i: nat, j: nat)
    requires 1 <= i && 1 <= j && Depth(j) < depth && Anc(i, j)
    ensures Depth(i) < depth
    ensures Offset(depth, i) <= Offset(depth, j)
    ensures Offset(depth, j) + Pages(depth, j) <= Offset(depth, i) + Pages(depth, i)
    decreases j
  {
    AncDepth(i, j);
    if i < j {
      Inside(depth, i, j / 2);
    }
  }

  /** Node i is the (i - 2^d)-th block of its level: aligned to its own size and within the tree. */
  lemma {:induction false} Aligned(depth: nat, i: nat)
    requires 1 <= i && Depth(i) < depth
    ensures 0 <= i - Pow2(Depth(i)) < Pow2(Depth(i))
    ensures Offset(depth, i) == (i - Pow2(Depth(i))) * Pages(depth, i)
    ensures Offset(depth, i) + Pages(depth, i) <= Pow2(depth - 1)
  {
    DepthBounds(i);
    if i > 1 {
      Aligned(depth, i / 2);
      var p, s := Pages(depth, i), i / 2 - Pow2(Depth(i / 2));
      assert Pages(depth, i / 2) == 2 * p;
      assert i - Pow2(Depth(i)) == 2 * s + i % 2;
      HalfSlot(s, p);
    }
  }

  lemma {:induction false} HalfSlot(s: nat, p: nat)
    ensures s * (2 * p) == (2 * s) * p
    ensures (2 * s + 1) * p == (2 * s) * p + p
  {
  }

  /** Two nodes, neither an ancestor of the other, own disjoint page ranges. */
  lemma {:induction false} Apart(depth: nat, i: nat, j: nat)
    requires 1 <= i && 1 <= j && Depth(i) < depth && Depth(j) < depth
    requires !Anc(i, j) && !Anc(j, i)
    ensures Offset(depth, i) + Pages(depth, i) <= Offset(depth, j)
         || Offset(depth, j) + Pages(depth, j) <= Offset(depth, i)
    decreases i + j
  {
    if i / 2 == j / 2 {
      assert Depth(i) == 1 + Depth(i / 2) == Depth(j);
    } else if i / 2 > 0 && !Anc(i / 2, j) && !Anc(j, i / 2) {
      Apart(depth, i / 2, j);
      Inside(depth, i / 2, i);
    } else if j / 2 > 0 && !Anc(i, j / 2) && !Anc(j / 2, i) {
      Apart(depth, i, j / 2);
      Inside(depth, j / 2, j);
    } else {
      RootIsAnc(i);
      RootIsAnc(j);
      ParentsMeet(i, j);
    }
  }

  lemma {:induction false} RootIsAnc(i: nat)
    requires i >= 1
    ensures Anc(1, i)
  {
    if i > 1 { RootIsAnc(i / 2); }
  }

  lemma {:induction false} ParentsMeet(i: nat, j: nat)
    requires i >= 2 && j >= 2 && !Anc(i, j) && !Anc(j, i)
    requires Anc(i / 2, j) || Anc(j, i / 2)
    requires Anc(i, j / 2) || Anc(j / 2, i)
    ensures i / 2 == j / 2
  {
    if Anc(j, i / 2) { assert false; }
    if Anc(i, j / 2) { assert false; }
    assert Anc(i / 2, j / 2);
    assert Anc(j / 2, i / 2);
    AncDepth(i / 2, j / 2);
    AncDepth(j / 2, i / 2);
  }

  // ----- the state: one used bit per node -----------------------------------

  predicate Shape(depth: nat, used: seq<bool>) {
    depth >= 1 && |used| == Pow2(depth)
  }

  /** Node i or one of its ancestors is used. */
  predicate Covered(used: seq<bool>, i: nat)
    requires 1 <= i < |used|
  {
    used[i] || (i > 1 && Covered(used, i / 2))
  }

  /** If node i is used then nothing above it is. */
  predicate AloneOnPath(used: seq<bool>, i: nat)
    requires 2 <= i < |used|
  {
    used[i] ==> !Covered(used, i / 2)
  }

  /** The used nodes form an antichain: no used node lies below another. */
  ghost predicate Antichain(used: seq<bool>) {
    forall i :: 2 <= i < |used| ==> AloneOnPath(used, i)
  }

  /** No node in the subtree of i is used. */
  ghost predicate WhollyFree(used: seq<bool>, i: nat)
    requires i >= 1
  {
    forall j {:trigger Anc(i, j)} :: i <= j < |used| && Anc(i, j) ==> !used[j]
  }

  /** Node i can be handed out: wholly free and not inside a used block. */
  ghost predicate Available(used: seq<bool>, i: nat)
    requires 1 <= i < |used|
  {
    WhollyFree(used, i) && !Covered(used, i)
  }

  /** A block that `free_by_size` should count: available, while its parent is not. */
  ghost predicate MaximalFree(used: seq<bool>, i: nat)
    requires 1 <= i < |used|
  {
    Available(used, i) && (i == 1 || !WhollyFree(used, i / 2))
  }

  ghost function MaximalFreeAt(used: seq<bool>, d: nat): set<nat> {
    set i: nat | Pow2(d) <= i < Pow2(d + 1) && i < |used| && MaximalFree(used, i)
  }

  /** Pages of the subtree of i that lie in no used block at or below i. */
  function FreePages(depth: nat, used: seq<bool>, i: nat): nat
    requires Shape(depth, used) && 1 <= i < |used|
    decreases |used| - i
  {
    if used[i] then 0
    else if 2 * i >= |used| then 1
    else FreePages(depth, used, 2 * i) + FreePages(depth, used, 2 * i + 1)
  }

  function Merge(l: nat, r: nat, pages: nat): nat {
    if l + r == pages then pages else if l < r then r else l
  }

  /** What the cached `maxFreePage` of node i ought to be. */
  function MaxFree(depth: nat, used: seq<bool>, i: nat): nat
    requires Shape(depth, used) && 1 <= i < |used|
    decreases |used| - i
  {
    InTree(depth, i);
    if used[i] then 0
    else if 2 * i >= |used| then 1
    else Merge(MaxFree(depth, used, 2 * i), MaxFree(depth, used, 2 * i + 1), Pages(depth, i))
  }

  // ----- what MaxFree means ---------------------------------------------------

  lemma {:induction false} MaxFreeBound(depth: nat, used: seq<bool>, i: nat)
    requires Shape(depth, used) && 1 <= i < |used|
    ensures Depth(i) < depth
    ensures MaxFree(depth, used, i) <= Pages(depth, i)
    ensures MaxFree(depth, used, i) == Pages(depth, i) <==> WhollyFree(used, i)
    decreases |used| - i
  {
    InTree(depth, i);
    if used[i] {
      assert Anc(i, i);
    } else if 2 * i >= |used| {
      forall j | i <= j < |used| && Anc(i, j) ensures j == i { AncBelow(i, j); }
    } else {
      MaxFreeBound(depth, used, 2 * i);
      MaxFreeBound(depth, used, 2 * i + 1);
      assert Pages(depth, i) == 2 * Pages(depth, 2 * i) == 2 * Pages(depth, 2 * i + 1);
      WhollyFreeSplit(used, i);
    }
  }

  lemma {:induction false} WhollyFreeSplit(used: seq<bool>, i: nat)
    requires 1 <= i && 2 * i + 1 < |used|
    ensures WhollyFree(used, i) <==> !used[i] && WhollyFree(used, 2 * i) && WhollyFree(used, 2 * i + 1)
  {
    forall j ensures Anc(i, j) <==> i == j || Anc(2 * i, j) || Anc(2 * i + 1, j) { AncBelow(i, j); }
    assert Anc(i, i);
    if WhollyFree(used, i) {
      forall j | 2 * i <= j < |used| && Anc(2 * i, j) ensures !used[j] { assert Anc(i, j); }
      forall j | 2 * i + 1 <= j < |used| && Anc(2 * i + 1, j) ensures !used[j] { assert Anc(i, j); }
    }
  }

  /** `maxFreePage` is the size of the largest wholly free node below: nothing larger exists ... */
  lemma {:induction false} MaxFreeUpper(depth: nat, used: seq<bool>, i: nat, j: nat)
    requires Shape(depth, used) && 1 <= i <= j < |used| && Anc(i, j)
    requires WhollyFree(used, j) && forall k :: i <= k < j && Anc(i, k) && Anc(k, j) ==> !used[k]
    ensures Depth(j) < depth && Pages(depth, j) <= MaxFree(depth, used, i)
    decreases |used| - i
  {
    InTree(depth, i);
    InTree(depth, j);
    if i == j {
      MaxFreeBound(depth, used, i);
    } else {
      AncBelow(i, j);
      var c := if Anc(2 * i, j) then 2 * i else 2 * i + 1;
      assert Anc(i, c) by { assert Anc(i, c / 2); }
      forall k | c <= k < j && Anc(c, k) && Anc(k, j) ensures !used[k] { AncTrans(i, c, k); }
      assert Anc(i, i) && !used[i];
      MaxFreeUpper(depth, used, c, j);
      ChildMax(depth, used, i, c);
    }
  }

  lemma {:induction false} ChildMax(depth: nat, used: seq<bool>, i: nat, c: nat)
    requires Shape(depth, used) && 1 <= i < c < |used| && c / 2 == i && !used[i]
    ensures MaxFree(depth, used, c) <= MaxFree(depth, used, i)
  {
    SiblingsFit(|used|, depth, i);
    InTree(depth, i);
    var l, r := MaxFree(depth, used, 2 * i), MaxFree(depth, used, 2 * i + 1);
    assert MaxFree(depth, used, i) == Merge(l, r, Pages(depth, i));
    MaxFreeBound(depth, used, 2 * i);
    MaxFreeBound(depth, used, 2 * i + 1);
  }

  /** A tree has an even number of slots, so children come in pairs. */
  lemma {:induction false} SiblingsFit(size: nat, depth: nat, i: nat)
    requires depth >= 1 && size == Pow2(depth) && 2 * i < size
    ensures 2 * i + 1 < size
  {
  }

  /** Size of the blocks at level d. */
  function SizeAt(depth: nat, d: nat): (p: nat)
    requires d < depth
    ensures p >= 1
  {
    Pow2(depth - 1 - d)
  }

  /** ... and a block of any smaller size is found by descending to a child that has room. */
  lemma {:induction false} DescendStep(depth: nat, used: seq<bool>, i: nat, d: nat)
    requires Shape(depth, used) && 1 <= i < |used| && Depth(i) < d < depth
    requires SizeAt(depth, d) <= MaxFree(depth, used, i)
    ensures 2 * i + 1 < |used| && !used[i]
    ensures MaxFree(depth, used, 2 * i) >= SizeAt(depth, d) || MaxFree(depth, used, 2 * i + 1) >= SizeAt(depth, d)
  {
    InTree(depth, i);
    assert 2 * i < |used|;
    SiblingsFit(|used|, depth, i);
    var l, r := MaxFree(depth, used, 2 * i), MaxFree(depth, used, 2 * i + 1);
    assert MaxFree(depth, used, i) == if used[i] then 0 else Merge(l, r, Pages(depth, i));
    MaxFreeBound(depth, used, 2 * i);
    MaxFreeBound(depth, used, 2 * i + 1);
    Pow2Monotone(depth - 1 - d, depth - 1 - Depth(2 * i));
  }
}
