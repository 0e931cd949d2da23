/** `info.free` is the sum of `free_by_size[d]` times the block size of level d. */
module BuddySum {
  import opened PowersOfTwo
  import opened BuddyTree
  import opened BuddyCounters

  /** Maximal free nodes of level d inside the subtree of i. */
  ghost function Below(used: seq<bool>, i: nat, d: nat): set<nat>
    requires i >= 1
  {
    set j | j in MaximalFreeAt(used, d) && Anc(i, j)
  }

  /** Pages in the maximal free nodes below i, summed over the levels d, d + 1, ... */
  ghost function Weight(depth: nat, used: seq<bool>, i: nat, d: nat): nat
    requires i >= 1 && d <= depth
    decreases depth - d
  {
    if d == depth then 0
    else |Below(used, i, d)| * SizeAt(depth, d) + Weight(depth, used, i, d + 1)
  }

  /** The sum a reader of `free_by_size` would form. */
  ghost function SumBySize(depth: nat, counts: seq<int>, d: nat): int
    requires d <= depth == |counts|
    decreases depth - d
  {
    if d == depth then 0 else counts[d] * SizeAt(depth, d) + SumBySize(depth, counts, d + 1)
  }

  lemma {:induction false} WeightOfNothing(depth: nat, used: seq<bool>, i: nat, d: nat)
    requires i >= 1 && d <= depth && forall e :: d <= e < depth ==> Below(used, i, e) == {}
    ensures Weight(depth, used, i, d) == 0
    decreases depth - d
  {
    if d < depth { WeightOfNothing(depth, used, i, d + 1); }
  }

  lemma {:induction false} WeightOfOne(depth: nat, used: seq<bool>, i: nat, d: nat)
    requires i >= 1 && d <= Depth(i) < depth && Below(used, i, Depth(i)) == {i}
    requires forall e :: d <= e < depth && e != Depth(i) ==> Below(used, i, e) == {}
    ensures Weight(depth, used, i, d) == Pages(depth, i)
    decreases depth - d
  {
    if d < Depth(i) {
      WeightOfOne(depth, used, i, d + 1);
    } else {
      WeightOfNothing(depth, used, i, d + 1);
    }
  }

  lemma {:induction false} WeightSplit(depth: nat, used: seq<bool>, i: nat, d: nat)
    requires 1 <= i && d <= depth && i < |used| && !MaximalFree(used, i)
    ensures Weight(depth, used, i, d) == Weight(depth, used, 2 * i, d) + Weight(depth, used, 2 * i + 1, d)
    decreases depth - d
  {
    if d < depth {
      WeightSplit(depth, used, i, d + 1);
      BelowSplit(used, i, d);
      Distribute(|Below(used, 2 * i, d)|, |Below(used, 2 * i + 1, d)|, SizeAt(depth, d));
    }
  }

  lemma {:induction false} BelowSplit(used: seq<bool>, i: nat, d: nat)
    requires 1 <= i < |used| && !MaximalFree(used, i)
    ensures |Below(used, i, d)| == |Below(used, 2 * i, d)| + |Below(used, 2 * i + 1, d)|
  {
    var l, r := Below(used, 2 * i, d), Below(used, 2 * i + 1, d);
    forall j | j in MaximalFreeAt(used, d)
      ensures j in Below(used, i, d) <==> j in l || j in r
      ensures !(j in l && j in r)
    {
      AncBelow(i, j);
    }
    assert Below(used, i, d) == l + r;
    assert l !! r;
  }

  lemma {:induction false} Distribute(a: int, b: int, c: int)
    ensures (a + b) * c == a * c + b * c
  {
  }

  lemma {:induction false} NothingInsideUsed(used: seq<bool>, i: nat, d: nat)
    requires 1 <= i < |used| && used[i]
    ensures Below(used, i, d) == {}
  {
    assert Covered(used, i);
    forall j | j in MaximalFreeAt(used, d) && Anc(i, j) ensures false {
      CoveredBelow(used, i, j);
    }
  }

  lemma {:induction false} OnlyTopOfFree(used: seq<bool>, i: nat, d: nat)
    requires 1 <= i < |used| && MaximalFree(used, i)
    ensures Below(used, i, d) == if d == Depth(i) then {i} else {}
  {
    forall j | j in MaximalFreeAt(used, d) && Anc(i, j) ensures j == i && d == Depth(i) {
      DepthOf(j, d);
      if j != i {
        assert Anc(i, j / 2);
        forall k | j / 2 <= k < |used| && Anc(j / 2, k) ensures !used[k] { AncTrans(i, j / 2, k); }
        assert false;
      }
    }
    DepthBounds(i);
    assert Anc(i, i);
  }

  lemma {:induction false} LeafIsFree(used: seq<bool>, i: nat)
    requires 1 <= i < |used| && !used[i] && !WhollyFree(used, i)
    ensures 2 * i < |used|
  {
    if 2 * i >= |used| {
      forall j | i <= j < |used| && Anc(i, j) ensures !used[j] { AncBelow(i, j); }
      assert false;
    }
  }

  lemma {:induction false} WeightIsFree(depth: nat, used: seq<bool>, i: nat)
    requires Shape(depth, used) && Antichain(used) && 1 <= i < |used|
    requires i == 1 || (!Covered(used, i / 2) && !WhollyFree(used, i / 2))
    ensures Weight(depth, used, i, 0) == FreePages(depth, used, i)
    decreases |used| - i
  {
    InTree(depth, i);
    if used[i] {
      forall e | 0 <= e < depth ensures Below(used, i, e) == {} { NothingInsideUsed(used, i, e); }
      WeightOfNothing(depth, used, i, 0);
    } else if WhollyFree(used, i) {
      assert MaximalFree(used, i) by { assert Anc(i, i); }
      forall e: nat ensures Below(used, i, e) == if e == Depth(i) then {i} else {} { OnlyTopOfFree(used, i, e); }
      WeightOfOne(depth, used, i, 0);
      FreePagesWhole(depth, used, i);
    } else {
      LeafIsFree(used, i);
      assert !Covered(used, i);
      SiblingsFit(|used|, depth, i);
      WeightIsFree(depth, used, 2 * i);
      WeightIsFree(depth, used, 2 * i + 1);
      WeightSplit(depth, used, i, 0);
    }
  }

  lemma {:induction false} WeightIsSum(depth: nat, used: seq<bool>, counts: seq<int>, d: nat)
    requires d <= depth == |counts|
    requires forall e :: 0 <= e < depth ==> counts[e] == |MaximalFreeAt(used, e)|
    ensures Weight(depth, used, 1, d) == SumBySize(depth, counts, d)
    decreases depth - d
  {
    if d < depth {
      WeightIsSum(depth, used, counts, d + 1);
      forall j | j in MaximalFreeAt(used, d) ensures Anc(1, j) { RootIsAnc(j); }
      assert Below(used, 1, d) == MaximalFreeAt(used, d);
    }
  }

  /** The two counters agree: free pages are the free blocks weighted by size. */
  lemma {:induction false} FreeIsSumBySize(depth: nat, used: seq<bool>, counts: seq<int>)
    requires Shape(depth, used) && Antichain(used) && |counts| == depth
    requires forall e :: 0 <= e < depth ==> counts[e] == |MaximalFreeAt(used, e)|
    ensures FreePages(depth, used, 1) == SumBySize(depth, counts, 0)
  {
    WeightIsFree(depth, used, 1);
    WeightIsSum(depth, used, counts, 0);
  }
}
