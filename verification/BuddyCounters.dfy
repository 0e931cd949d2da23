/**
 * How the caches of a buddy tree change when one node m is taken or released:
 * `maxFreePage` only on the path from m to the root, `free_by_size` only inside the
 * sibling pairs along that path, `free` by exactly the pages of m.
 */
module BuddyCounters {
  import opened PowersOfTwo
  import opened BuddyTree

  /** u1 is u0 with the used bit of m flipped, both being legal states. */
  ghost predicate Flip(u0: seq<bool>, u1: seq<bool>, m: nat) {
    && |u1| == |u0| && 1 <= m < |u0|
    && u1 == u0[m := !u0[m]]
    && Antichain(u0) && Antichain(u1)
  }

  // ----- who is covered -------------------------------------------------------

  lemma {:induction false} CoveredBelow(used: seq<bool>, i: nat, j: nat)
    requires 1 <= i <= j < |used| && Anc(i, j) && Covered(used, i)
    ensures Covered(used, j)
    decreases j
  {
    if i < j { CoveredBelow(used, i, j / 2); }
  }

  /** Strict ancestors of m are not covered before or after the flip. */
  lemma {:induction false} PathClear(u0: seq<bool>, u1: seq<bool>, m: nat, i: nat)
    requires Flip(u0, u1, m) && 1 <= i < m && Anc(i, m)
    ensures !Covered(u0, i) && !Covered(u1, i)
  {
    assert Anc(i, m / 2);
    assert AloneOnPath(u0, m) && AloneOnPath(u1, m);
    if u0[m] {
      if Covered(u0, i) { CoveredBelow(u0, i, m / 2); assert false; }
    } else {
      if Covered(u1, i) { CoveredBelow(u1, i, m / 2); assert false; }
    }
    CoveredSame(u0, u1, m, i);
  }

  lemma {:induction false} CoveredSame(u0: seq<bool>, u1: seq<bool>, m: nat, j: nat)
    requires Flip(u0, u1, m) && 1 <= j < |u0| && !Anc(m, j)
    ensures Covered(u0, j) == Covered(u1, j)
    decreases j
  {
    if j > 1 {
      CoveredSame(u0, u1, m, j / 2);
    }
  }

  /** Strict descendants of m are unused before and after. */
  lemma {:induction false} BelowClear(u0: seq<bool>, u1: seq<bool>, m: nat, j: nat)
    requires Flip(u0, u1, m) && m < j < |u0| && Anc(m, j)
    ensures !u0[j] && !u1[j]
  {
    var u := if u0[m] then u0 else u1;
    assert Covered(u, m);
    assert AloneOnPath(u0, j) && AloneOnPath(u1, j);
    CoveredBelow(u, m, j / 2);
  }

  // ----- maxFreePage ------------------------------------------------------------

  lemma {:induction false} MaxSame(depth: nat, u0: seq<bool>, u1: seq<bool>, m: nat, i: nat)
    requires Flip(u0, u1, m) && Shape(depth, u0) && 1 <= i < |u0| && !Anc(i, m)
    ensures MaxFree(depth, u0, i) == MaxFree(depth, u1, i)
    decreases |u0| - i
  {
    if 2 * i < |u0| && !u0[i] {
      AncBelow(i, m);
      SiblingsFit(|u0|, depth, i);
      MaxSame(depth, u0, u1, m, 2 * i);
      MaxSame(depth, u0, u1, m, 2 * i + 1);
    }
  }

  lemma {:induction false} FreeSame(u0: seq<bool>, u1: seq<bool>, m: nat, i: nat)
    requires Flip(u0, u1, m) && 1 <= i < |u0| && !Anc(i, m)
    ensures WhollyFree(u0, i) == WhollyFree(u1, i)
  {
  }

  /** Releasing m makes all of it free; taking it leaves nothing of it. */
  lemma {:induction false} MaxAtFlip(depth: nat, u0: seq<bool>, u1: seq<bool>, m: nat)
    requires Flip(u0, u1, m) && Shape(depth, u0)
    ensures Depth(m) < depth
    ensures u1[m] ==> MaxFree(depth, u1, m) == 0 && WhollyFree(u0, m)
    ensures !u1[m] ==> MaxFree(depth, u1, m) == Pages(depth, m) && WhollyFree(u1, m)
  {
    InTree(depth, m);
    var u := if u1[m] then u0 else u1;
    forall j | m <= j < |u| && Anc(m, j) ensures !u[j] {
      if j > m { BelowClear(u0, u1, m, j); }
    }
    MaxFreeBound(depth, u, m);
  }

  // ----- free ---------------------------------------------------------------------

  lemma {:induction false} FreePagesSame(depth: nat, u0: seq<bool>, u1: seq<bool>, m: nat, i: nat)
    requires Flip(u0, u1, m) && Shape(depth, u0) && 1 <= i < |u0| && !Anc(i, m)
    ensures FreePages(depth, u0, i) == FreePages(depth, u1, i)
    decreases |u0| - i
  {
    if 2 * i < |u0| && !u0[i] {
      AncBelow(i, m);
      SiblingsFit(|u0|, depth, i);
      FreePagesSame(depth, u0, u1, m, 2 * i);
      FreePagesSame(depth, u0, u1, m, 2 * i + 1);
    }
  }

  lemma {:induction false} FreePagesWhole(depth: nat, used: seq<bool>, i: nat)
    requires Shape(depth, used) && 1 <= i < |used| && WhollyFree(used, i)
    ensures Depth(i) < depth && FreePages(depth, used, i) == Pages(depth, i)
    decreases |used| - i
  {
    InTree(depth, i);
    assert Anc(i, i);
    if 2 * i < |used| {
      SiblingsFit(|used|, depth, i);
      WhollyFreeSplit(used, i);
      FreePagesWhole(depth, used, 2 * i);
      FreePagesWhole(depth, used, 2 * i + 1);
    }
  }

  /** `free` moves by exactly the pages of m, seen from any ancestor. */
  lemma {:induction false} FreePagesDelta(depth: nat, u0: seq<bool>, u1: seq<bool>, m: nat, i: nat)
    requires Flip(u0, u1, m) && Shape(depth, u0) && 1 <= i <= m && Anc(i, m)
    ensures Depth(m) < depth
    ensures u1[m] ==> FreePages(depth, u1, i) + Pages(depth, m) == FreePages(depth, u0, i)
    ensures !u1[m] ==> FreePages(depth, u1, i) == FreePages(depth, u0, i) + Pages(depth, m)
    decreases |u0| - i
  {
    MaxAtFlip(depth, u0, u1, m);
    if i == m {
      FreePagesWhole(depth, if u1[m] then u0 else u1, m);
    } else {
      PathClear(u0, u1, m, i);
      AncBelow(i, m);
      SiblingsFit(|u0|, depth, i);
      var c := if Anc(2 * i, m) then 2 * i else 2 * i + 1;
      FreePagesDelta(depth, u0, u1, m, c);
      FreePagesSame(depth, u0, u1, m, 4 * i + 1 - c);
    }
  }

  // ----- free_by_size ---------------------------------------------------------------

  ghost function Bit(b: bool): int { if b then 1 else 0 }

  /** Maximal free nodes in the sibling pair of n (the root has no sibling). */
  ghost function Pair(used: seq<bool>, n: nat): int
    requires 1 <= n < |used| && (n == 1 || n / 2 * 2 + 1 < |used|)
  {
    if n == 1 then Bit(MaximalFree(used, 1))
    else Bit(MaximalFree(used, n / 2 * 2)) + Bit(MaximalFree(used, n / 2 * 2 + 1))
  }

  lemma {:induction false} PairFits(depth: nat, used: seq<bool>, n: nat)
    requires Shape(depth, used) && 1 <= n < |used|
    ensures n == 1 || n / 2 * 2 + 1 < |used|
  {
    if n > 1 { SiblingsFit(|used|, depth, n / 2); }
  }

  /** Outside the pair of n, no node of n's level changes. */
  lemma {:induction false} OthersSame(u0: seq<bool>, u1: seq<bool>, m: nat, n: nat, j: nat)
    requires Flip(u0, u1, m) && 1 <= n <= m && Anc(n, m)
    requires 1 <= j < |u0| && Depth(j) == Depth(n) && j / 2 != n / 2
    ensures MaximalFree(u0, j) == MaximalFree(u1, j)
  {
    AncDepth(n, m);
    if Anc(j, m) { AncAtLevel(j, n, m); AncDepth(j, n); assert false; }
    if Anc(m, j) { AncDepth(m, j); AncDepth(n, m); assert false; }
    CoveredSame(u0, u1, m, j);
    FreeSame(u0, u1, m, j);
    if j > 1 {
      if Anc(j / 2, m) {
        assert Depth(j / 2) == Depth(n / 2);
        assert Anc(n / 2, m) by { assert Anc(n / 2, n); AncTrans(n / 2, n, m); }
        AncAtLevel(j / 2, n / 2, m);
        AncDepth(j / 2, n / 2);
        assert false;
      }
      FreeSame(u0, u1, m, j / 2);
    }
  }

  lemma {:induction false} PairSets(s0: set<nat>, s1: set<nat>, a: nat, b: nat)
    requires a != b && s0 - {a, b} == s1 - {a, b}
    ensures |s1| - |s0| == Bit(a in s1) + Bit(b in s1) - Bit(a in s0) - Bit(b in s0)
  {
    CardMinusTwo(s0, a, b);
    CardMinusTwo(s1, a, b);
  }

  lemma {:induction false} CardMinusTwo(s: set<nat>, a: nat, b: nat)
    requires a != b
    ensures |s - {a, b}| == |s| - Bit(a in s) - Bit(b in s)
  {
    assert s - {a, b} == (s - {a}) - {b};
    CardMinus(s, a);
    CardMinus(s - {a}, b);
  }

  lemma {:induction false} CardMinus(s: set<nat>, a: nat)
    ensures |s - {a}| == |s| - Bit(a in s)
  {
    if a !in s { assert s - {a} == s; }
  }

  lemma {:induction false} PairInLevel(used: seq<bool>, n: nat)
    requires 2 <= n < |used| && n / 2 * 2 + 1 < |used|
    ensures Pair(used, n) == Bit(n / 2 * 2 in MaximalFreeAt(used, Depth(n)))
                           + Bit(n / 2 * 2 + 1 in MaximalFreeAt(used, Depth(n)))
  {
    var a := n / 2 * 2;
    assert Depth(a) == Depth(n) && Depth(a + 1) == Depth(n);
    DepthBounds(a);
    DepthBounds(a + 1);
  }

  /** The number of maximal free nodes of a level changes by what changes in the pair on the path. */
  lemma {:induction false} LevelDelta(depth: nat, u0: seq<bool>, u1: seq<bool>, m: nat, n: nat)
    requires Flip(u0, u1, m) && Shape(depth, u0) && 1 <= n <= m && Anc(n, m)
    requires n == 1 || n / 2 * 2 + 1 < |u0|
    ensures |MaximalFreeAt(u1, Depth(n))| - |MaximalFreeAt(u0, Depth(n))| == Pair(u1, n) - Pair(u0, n)
  {
    var d := Depth(n);
    var s0, s1 := MaximalFreeAt(u0, d), MaximalFreeAt(u1, d);
    if n == 1 {
      RootLevel(u0);
      RootLevel(u1);
    } else {
      var a := n / 2 * 2;
      PairInLevel(u0, n);
      PairInLevel(u1, n);
      LevelOthers(u0, u1, m, n);
      PairSets(s0, s1, a, a + 1);
    }
  }

  lemma {:induction false} RootLevel(used: seq<bool>)
    requires |used| > 1
    ensures |MaximalFreeAt(used, 0)| == Bit(MaximalFree(used, 1))
  {
    assert Pow2(0) == 1 && Pow2(1) == 2;
    var s := MaximalFreeAt(used, 0);
    assert s == if MaximalFree(used, 1) then {1} else {};
  }

  lemma {:induction false} LevelOthers(u0: seq<bool>, u1: seq<bool>, m: nat, n: nat)
    requires Flip(u0, u1, m) && 2 <= n <= m && Anc(n, m)
    ensures MaximalFreeAt(u0, Depth(n)) - {n / 2 * 2, n / 2 * 2 + 1}
         == MaximalFreeAt(u1, Depth(n)) - {n / 2 * 2, n / 2 * 2 + 1}
  {
    var d := Depth(n);
    forall j: nat | Pow2(d) <= j < Pow2(d + 1) && j < |u0| && j / 2 != n / 2
      ensures MaximalFree(u0, j) == MaximalFree(u1, j)
    {
      DepthOf(j, d);
      OthersSame(u0, u1, m, n, j);
    }
  }

  /** Levels strictly below m do not change at all. */
  lemma {:induction false} LowerLevelsSame(u0: seq<bool>, u1: seq<bool>, m: nat, d: nat)
    requires Flip(u0, u1, m) && d > Depth(m)
    ensures MaximalFreeAt(u0, d) == MaximalFreeAt(u1, d)
  {
    forall j: nat | Pow2(d) <= j < Pow2(d + 1) && j < |u0|
      ensures MaximalFree(u0, j) == MaximalFree(u1, j)
    {
      DepthOf(j, d);
      LowerSame(u0, u1, m, j);
    }
  }

  lemma {:induction false} LowerSame(u0: seq<bool>, u1: seq<bool>, m: nat, j: nat)
    requires Flip(u0, u1, m) && 1 <= j < |u0| && Depth(j) > Depth(m)
    ensures MaximalFree(u0, j) == MaximalFree(u1, j)
  {
    if Anc(j, m) { AncDepth(j, m); assert false; }
    FreeSame(u0, u1, m, j);
    if Anc(m, j) {
      var taken, released := if u0[m] then u0 else u1, if u0[m] then u1 else u0;
      assert Covered(taken, m);
      CoveredBelow(taken, m, j);
      assert Anc(m, j / 2);
      forall k | j / 2 <= k < |released| && Anc(j / 2, k) ensures !released[k] {
        AncTrans(m, j / 2, k);
        if k > m { BelowClear(u0, u1, m, k); }
      }
      assert WhollyFree(released, j / 2);
    } else {
      CoveredSame(u0, u1, m, j);
      if Anc(j / 2, m) { AncDepth(j / 2, m); assert false; }
      FreeSame(u0, u1, m, j / 2);
    }
  }

  /** On an uncovered node the code's test on the caches is exactly MaximalFree. */
  lemma {:induction false} TestMeaning(depth: nat, used: seq<bool>, i: nat)
    requires Shape(depth, used) && 1 <= i < |used| && (i == 1 || !Covered(used, i / 2))
    ensures Depth(i) < depth && (i > 1 ==> Depth(i / 2) < depth)
    ensures MaximalFree(used, i) <==>
            MaxFree(depth, used, i) == Pages(depth, i)
            && (i == 1 || MaxFree(depth, used, i / 2) != Pages(depth, i / 2))
  {
    MaxFreeBound(depth, used, i);
    if i > 1 { MaxFreeBound(depth, used, i / 2); }
    assert Anc(i, i);
  }

  /**
   * At m itself: if m is a counted block of the state where it is free, the level
   * loses (gains) one block when m is taken (released); otherwise its buddy appears (merges away).
   */
  lemma {:induction false} OwnLevelDelta(depth: nat, u0: seq<bool>, u1: seq<bool>, m: nat)
    requires Flip(u0, u1, m) && Shape(depth, u0) && u1[m]
    ensures |MaximalFreeAt(u1, Depth(m))| ==
            |MaximalFreeAt(u0, Depth(m))| + (if MaximalFree(u0, m) then -1 else 1)
  {
    PairFits(depth, u0, m);
    LevelDelta(depth, u0, u1, m, m);
    OwnPairDelta(depth, u0, u1, m);
  }

  lemma {:induction false} OwnPairDelta(depth: nat, u0: seq<bool>, u1: seq<bool>, m: nat)
    requires Flip(u0, u1, m) && Shape(depth, u0) && u1[m]
    requires m == 1 || m / 2 * 2 + 1 < |u0|
    ensures Pair(u1, m) - Pair(u0, m) == if MaximalFree(u0, m) then -1 else 1
  {
    MaxAtFlip(depth, u0, u1, m);
    assert !MaximalFree(u1, m) by { assert Covered(u1, m); }
    if m > 1 {
      var b := if m % 2 == 0 then m + 1 else m - 1;
      BuddyAtFlip(u0, u1, m, b);
    } else {
      assert !Covered(u0, 1);
    }
  }

  /** The buddy b of m is counted only while m is taken, and then exactly if it is wholly free. */
  lemma {:induction false} BuddyAtFlip(u0: seq<bool>, u1: seq<bool>, m: nat, b: nat)
    requires Flip(u0, u1, m) && u1[m] && WhollyFree(u0, m)
    requires m > 1 && 1 < b < |u0| && b / 2 == m / 2 && b != m
    ensures !MaximalFree(u0, b) || !MaximalFree(u0, m)
    ensures MaximalFree(u1, b) <==> WhollyFree(u0, b)
    ensures WhollyFree(u0, b) ==> !MaximalFree(u0, b)
    ensures MaximalFree(u0, m) <==> !WhollyFree(u0, b)
  {
    var h := m / 2;
    assert Anc(h, m) by { assert Anc(h, m / 2); }
    PathClear(u0, u1, m, h);
    WhollyFreeSplit(u0, h);
    WhollyFreeSplit(u1, h);
    assert !WhollyFree(u1, m) by { assert Anc(m, m) && u1[m]; }
    SiblingsNotAnc(m, b);
    FreeSame(u0, u1, m, b);
    assert Anc(b, b);
    assert WhollyFree(u0, h) <==> WhollyFree(u0, b);
  }

  lemma {:induction false} SiblingsNotAnc(a: nat, b: nat)
    requires a >= 2 && b >= 2 && a != b && a / 2 == b / 2
    ensures !Anc(a, b) && !Anc(b, a)
  {
    if Anc(a, b) { AncDepth(a, b); assert false; }
    if Anc(b, a) { AncDepth(b, a); assert false; }
  }
}
