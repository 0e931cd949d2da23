/** Which node the allocator takes and which one it releases, as functions of the used bits. */
module BuddySpec {
  import opened PowersOfTwo
  import opened BuddyTree
  import opened BuddyCounters

  /** The node of level d that alloc_in_node reaches from i. */
  ghost function Place(levels: nat, used: seq<bool>, i: nat, d: nat): (p: nat)
    requires Shape(levels, used) && 1 <= i < |used| && Depth(i) <= d < levels
    requires SizeAt(levels, d) <= MaxFree(levels, used, i)
    decreases d - Depth(i)
  {
    if Depth(i) == d then i
    else
      DescendStep(levels, used, i, d);
      InTree(levels, i);
      if MaxFree(levels, used, 2 * i) >= SizeAt(levels, d) then Place(levels, used, 2 * i, d)
      else Place(levels, used, 2 * i + 1, d)
  }

  /** It is a block of the requested size that is wholly free and inside no used block. */
  lemma {:induction false} PlaceIsAvailable(levels: nat, used: seq<bool>, i: nat, d: nat)
    requires Shape(levels, used) && 1 <= i < |used| && Depth(i) <= d < levels
    requires SizeAt(levels, d) <= MaxFree(levels, used, i)
    requires i == 1 || !Covered(used, i / 2)
    ensures var p := Place(levels, used, i, d);
            1 <= p < |used| && Depth(p) == d && Anc(i, p) && Available(used, p)
    decreases d - Depth(i)
  {
    MaxFreeBound(levels, used, i);
    if Depth(i) == d {
      assert Anc(i, i);
    } else {
      var c := PlaceStep(levels, used, i, d);
      PlaceIsAvailable(levels, used, c, d);
      AncTrans(i, c, Place(levels, used, c, d));
    }
  }

  /** The child that alloc_in_node goes on with. */
  lemma {:induction false} PlaceStep(levels: nat, used: seq<bool>, i: nat, d: nat) returns (c: nat)
    requires Shape(levels, used) && 1 <= i < |used| && Depth(i) < d < levels
    requires SizeAt(levels, d) <= MaxFree(levels, used, i) && (i == 1 || !Covered(used, i / 2))
    ensures 1 < c < |used| && Depth(c) == Depth(i) + 1 && Anc(i, c) && !Covered(used, c / 2)
    ensures SizeAt(levels, d) <= MaxFree(levels, used, c) && Place(levels, used, i, d) == Place(levels, used, c, d)
  {
    MaxFreeBound(levels, used, i);
    DescendStep(levels, used, i, d);
    InTree(levels, i);
    c := if MaxFree(levels, used, 2 * i) >= SizeAt(levels, d) then 2 * i else 2 * i + 1;
    assert Anc(i, c);
  }

  /** The root's cached maximum decides exactly whether a level-d block is available. */
  lemma {:induction false} RoomIffAvailable(levels: nat, used: seq<bool>, d: nat)
    requires Shape(levels, used) && d < levels
    ensures SizeAt(levels, d) <= MaxFree(levels, used, 1)
            <==> exists p :: 1 <= p < |used| && Depth(p) == d && Available(used, p)
  {
    if SizeAt(levels, d) <= MaxFree(levels, used, 1) {
      PlaceIsAvailable(levels, used, 1, d);
    }
    if p :| 1 <= p < |used| && Depth(p) == d && Available(used, p) {
      RootIsAnc(p);
      forall k | 1 <= k < p && Anc(1, k) && Anc(k, p) ensures !used[k] {
        if used[k] { assert Covered(used, k); CoveredBelow(used, k, p); assert false; }
      }
      MaxFreeUpper(levels, used, 1, p);
    }
  }

  /** The used node that free_in_node finds on its way down from i to `page`; 0 if there is none. */
  ghost function Target(levels: nat, used: seq<bool>, i: nat, page: nat): nat
    requires Shape(levels, used) && 1 <= i < |used|
    decreases |used| - i
  {
    InTree(levels, i);
    if Offset(levels, i) == page && used[i] then i
    else if 2 * i >= |used| then 0
    else if Offset(levels, i) + Pages(levels, i) / 2 <= page then
      SiblingsFit(|used|, levels, i); Target(levels, used, 2 * i + 1, page)
    else Target(levels, used, 2 * i, page)
  }

  /** Halves of an inner node. */
  lemma {:induction false} Halves(levels: nat, size: nat, i: nat)
    requires levels >= 1 && size == Pow2(levels) && 1 <= i && 2 * i + 1 < size
    ensures Depth(i) + 1 < levels
    ensures Depth(2 * i) == Depth(2 * i + 1) == Depth(i) + 1
    ensures Pages(levels, i) / 2 == Pages(levels, 2 * i) == Pages(levels, 2 * i + 1)
    ensures Pages(levels, i) == 2 * Pages(levels, 2 * i)
    ensures Offset(levels, 2 * i) == Offset(levels, i)
    ensures Offset(levels, 2 * i + 1) == Offset(levels, i) + Pages(levels, 2 * i)
  {
    InTree(levels, i);
    InTree(levels, 2 * i);
  }

  /** The search finds the live block starting at `page` exactly if there is one. */
  lemma {:induction false} TargetFound(levels: nat, used: seq<bool>, i: nat, page: nat, j: nat)
    requires Shape(levels, used) && Antichain(used) && 1 <= i <= j < |used| && Anc(i, j)
    requires used[j] && Depth(j) < levels && Offset(levels, j) == page
    ensures Target(levels, used, i, page) == j
    decreases |used| - i
  {
    InTree(levels, i);
    if i == j {
    } else {
      AncBelow(i, j);
      assert AloneOnPath(used, j);
      if used[i] { assert Covered(used, i); CoveredBelow(used, i, j / 2); assert false; }
      SiblingsFit(|used|, levels, i);
      Halves(levels, |used|, i);
      var c := if Anc(2 * i, j) then 2 * i else 2 * i + 1;
      Inside(levels, c, j);
      TargetFound(levels, used, c, page, j);
    }
  }

  lemma {:induction false} TargetIsLive(levels: nat, used: seq<bool>, i: nat, page: nat)
    requires Shape(levels, used) && 1 <= i < |used|
    ensures var t := Target(levels, used, i, page);
            t != 0 ==> i <= t < |used| && used[t] && Depth(t) < levels && Offset(levels, t) == page
    decreases |used| - i
  {
    InTree(levels, i);
    if Offset(levels, i) == page && used[i] {
    } else if 2 * i < |used| {
      SiblingsFit(|used|, levels, i);
      TargetIsLive(levels, used, 2 * i, page);
      TargetIsLive(levels, used, 2 * i + 1, page);
    }
  }

  /** Inside a wholly free subtree the search finds nothing: descending on after a release is harmless. */
  lemma {:induction false} NoTargetInFree(levels: nat, used: seq<bool>, i: nat, page: nat)
    requires Shape(levels, used) && 1 <= i < |used| && WhollyFree(used, i)
    ensures Target(levels, used, i, page) == 0
    decreases |used| - i
  {
    assert Anc(i, i);
    if 2 * i < |used| {
      SiblingsFit(|used|, levels, i);
      WhollyFreeSplit(used, i);
      NoTargetInFree(levels, used, 2 * i, page);
      NoTargetInFree(levels, used, 2 * i + 1, page);
    }
  }

  /** Taking an available node and releasing a used one both keep the used blocks apart. */
  lemma {:induction false} TakeKeepsAntichain(u0: seq<bool>, m: nat)
    requires Antichain(u0) && 1 <= m < |u0| && Available(u0, m)
    ensures Flip(u0, u0[m := true], m)
  {
    var u1 := u0[m := true];
    assert !u0[m] by { assert Anc(m, m); }
    forall i | 2 <= i < |u1| ensures AloneOnPath(u1, i) {
      assert AloneOnPath(u0, i);
      if u1[i] && i == m {
        CoveredApart(u0, u1, m, i / 2);
      } else if u1[i] {
        assert !Anc(m, i);
        CoveredApart(u0, u1, m, i / 2);
      }
    }
  }

  lemma {:induction false} CoveredApart(u0: seq<bool>, u1: seq<bool>, m: nat, i: nat)
    requires 1 <= m < |u0| == |u1| && 1 <= i < |u0| && !Anc(m, i)
    requires forall j :: 0 <= j < |u0| && j != m ==> u0[j] == u1[j]
    ensures Covered(u0, i) == Covered(u1, i)
    decreases i
  {
    if i > 1 { CoveredApart(u0, u1, m, i / 2); }
  }

  lemma {:induction false} ReleaseKeepsAntichain(u0: seq<bool>, m: nat)
    requires Antichain(u0) && 1 <= m < |u0| && u0[m]
    ensures Flip(u0, u0[m := false], m)
  {
    var u1 := u0[m := false];
    forall i | 2 <= i < |u1| ensures AloneOnPath(u1, i) {
      assert AloneOnPath(u0, i);
      CoveredLess(u0, u1, i / 2);
    }
  }

  lemma {:induction false} CoveredLess(u0: seq<bool>, u1: seq<bool>, i: nat)
    requires 1 <= i < |u0| == |u1| && forall j :: 0 <= j < |u0| ==> u1[j] ==> u0[j]
    ensures Covered(u1, i) ==> Covered(u0, i)
    decreases i
  {
    if i > 1 { CoveredLess(u0, u1, i / 2); }
  }

  // ----- one tree as a machine over its used bits -----------------------------------

  datatype Op = Alloc(level: nat) | Free(page: nat)

  /** The effect of one request: take the place found, release the target found, or nothing. */
  ghost function Step(levels: nat, used: seq<bool>, op: Op): (r: seq<bool>)
    requires Shape(levels, used)
    ensures |r| == |used|
  {
    match op
    case Alloc(d) =>
      if d < levels && SizeAt(levels, d) <= MaxFree(levels, used, 1) then
        var p := Place(levels, used, 1, d);
        if p < |used| then used[p := true] else used
      else used
    case Free(page) =>
      var t := Target(levels, used, 1, page);
      if 0 < t < |used| then used[t := false] else used
  }

  ghost function Run(levels: nat, used: seq<bool>, ops: seq<Op>): (r: seq<bool>)
    requires Shape(levels, used)
    ensures |r| == |used|
    decreases |ops|
  {
    if ops == [] then used else Run(levels, Step(levels, used, ops[0]), ops[1..])
  }

  /** Every run keeps the used blocks apart. */
  lemma {:induction false} RunKeepsAntichain(levels: nat, used: seq<bool>, ops: seq<Op>)
    requires Shape(levels, used) && Antichain(used)
    ensures Antichain(Run(levels, used, ops))
    decreases |ops|
  {
    if ops != [] {
      StepKeepsAntichain(levels, used, ops[0]);
      RunKeepsAntichain(levels, Step(levels, used, ops[0]), ops[1..]);
    }
  }

  lemma {:induction false} StepKeepsAntichain(levels: nat, used: seq<bool>, op: Op)
    requires Shape(levels, used) && Antichain(used)
    ensures Antichain(Step(levels, used, op))
  {
    match op
    case Alloc(d) =>
      if d < levels && SizeAt(levels, d) <= MaxFree(levels, used, 1) {
        PlaceIsAvailable(levels, used, 1, d);
        TakeKeepsAntichain(used, Place(levels, used, 1, d));
      }
    case Free(page) =>
      TargetIsLive(levels, used, 1, page);
      var t := Target(levels, used, 1, page);
      if 0 < t < |used| { ReleaseKeepsAntichain(used, t); }
  }

  /** A release clears exactly the used nodes that start at `page`. */
  lemma {:induction false} FreeMeaning(levels: nat, used: seq<bool>, page: nat, i: nat)
    requires Shape(levels, used) && Antichain(used) && 1 <= i < |used|
    ensures Depth(i) < levels
    ensures Step(levels, used, Free(page))[i] <==> used[i] && Offset(levels, i) != page
  {
    InTree(levels, i);
    RootIsAnc(i);
    if used[i] && Offset(levels, i) == page { TargetFound(levels, used, 1, page, i); }
    TargetIsLive(levels, used, 1, page);
  }

  /** Freeing what was just allocated restores the exact state. */
  lemma {:induction false} AllocThenFree(levels: nat, used: seq<bool>, d: nat)
    requires Shape(levels, used) && Antichain(used) && d < levels
    requires SizeAt(levels, d) <= MaxFree(levels, used, 1)
    ensures var p := Place(levels, used, 1, d);
            1 <= p < |used| && Depth(p) < levels && Run(levels, used, [Alloc(d), Free(Offset(levels, p))]) == used
  {
    PlaceIsAvailable(levels, used, 1, d);
    var p := Place(levels, used, 1, d);
    var u1 := used[p := true];
    TakeKeepsAntichain(used, p);
    RootIsAnc(p);
    TargetFound(levels, u1, 1, Offset(levels, p), p);
    assert Step(levels, used, Alloc(d)) == u1;
    assert Step(levels, u1, Free(Offset(levels, p))) == used;
    RunTwo(levels, used, Alloc(d), Free(Offset(levels, p)));
  }

  lemma {:induction false} RunTwo(levels: nat, used: seq<bool>, a: Op, b: Op)
    requires Shape(levels, used)
    ensures Run(levels, used, [a, b]) == Step(levels, Step(levels, used, a), b)
  {
    var u := Step(levels, used, a);
    assert [a, b][1..] == [b] && [b][1..] == [];
    assert Run(levels, used, [a, b]) == Run(levels, u, [b]);
    assert Run(levels, u, [b]) == Run(levels, Step(levels, u, b), []);
  }

  ghost predicate Frees(ops: seq<Op>) {
    forall k :: 0 <= k < |ops| ==> ops[k].Free?
  }

  /** Freeing every live block, in any order and with any repetitions, leaves the tree all free. */
  lemma {:induction false} FreeEverything(levels: nat, used: seq<bool>, ops: seq<Op>, i: nat)
    requires Shape(levels, used) && Antichain(used) && Frees(ops) && 1 <= i < |used|
    requires Depth(i) < levels && (used[i] ==> Free(Offset(levels, i)) in ops)
    ensures !Run(levels, used, ops)[i]
    decreases |ops|
  {
    if ops != [] {
      var u1 := Step(levels, used, ops[0]);
      FreeMeaning(levels, used, ops[0].page, i);
      StepKeepsAntichain(levels, used, ops[0]);
      FreeEverything(levels, u1, ops[1..], i);
    }
  }
}
