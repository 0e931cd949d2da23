/**
 * History independence of one tree: the whole memory of a tree (every node, every counter)
 * is a function of its set of live blocks, whatever requests led there.
 */
module BuddyHistory {
  import opened PowersOfTwo
  import opened BuddyTree
  import opened BuddyCounters
  import opened BuddySum
  import opened BuddySpec
  import opened BuddyBlock

  datatype Block = Block(offset: nat, pages: nat)

  /** The blocks handed out and not yet returned. */
  ghost function Live(levels: nat, used: seq<bool>): set<Block> {
    set i: nat | 1 <= i < |used| && Depth(i) < levels && used[i] :: Block(Offset(levels, i), Pages(levels, i))
  }

  /** A block determines its node. */
  lemma {:induction false} BlockNode(levels: nat, i: nat, j: nat)
    requires 1 <= i && 1 <= j && Depth(i) < levels && Depth(j) < levels
    requires Offset(levels, i) == Offset(levels, j) && Pages(levels, i) == Pages(levels, j)
    ensures i == j
  {
    SizeIsDepth(levels, i, Depth(j));
    if i != j {
      if Anc(i, j) { AncDepth(i, j); }
      if Anc(j, i) { AncDepth(j, i); }
      Apart(levels, i, j);
    }
  }

  lemma {:induction false} LiveDetermines(levels: nat, u: seq<bool>, v: seq<bool>, i: nat)
    requires Shape(levels, u) && Shape(levels, v) && Live(levels, u) == Live(levels, v) && 1 <= i < |u|
    ensures u[i] ==> v[i]
  {
    InTree(levels, i);
    if u[i] {
      var b := Block(Offset(levels, i), Pages(levels, i));
      assert b in Live(levels, u);
      assert b in Live(levels, v);
      var j: nat :| 1 <= j < |v| && Depth(j) < levels && v[j] && b == Block(Offset(levels, j), Pages(levels, j));
      BlockNode(levels, i, j);
    }
  }

  /** Same live blocks, same memory: every node and all of info agree. */
  lemma {:induction false} HistoryIndependence(
    levels: nat, base: nat,
    ns: seq<MemNode>, counts: seq<int>, total: int, free: int,
    ns': seq<MemNode>, counts': seq<int>, total': int, free': int)
    requires Consistent(levels, base, ns, counts, total, free)
    requires Consistent(levels, base, ns', counts', total', free')
    requires Live(levels, UsedOf(ns)) == Live(levels, UsedOf(ns'))
    ensures ns == ns' && counts == counts' && total == total' && free == free'
  {
    var u, v := UsedOf(ns), UsedOf(ns');
    forall i | 0 <= i < |u| ensures u[i] == v[i] {
      if i > 0 {
        LiveDetermines(levels, u, v, i);
        LiveDetermines(levels, v, u, i);
      }
    }
    assert u == v;
    forall i | 0 <= i < |ns| ensures ns[i] == ns'[i] {
      if i > 0 {
        assert Static(levels, base, ns[i], i) && Static(levels, base, ns'[i], i);
        MaxAt(levels, ns, u, u, 0, i);
        MaxAt(levels, ns', v, v, 0, i);
        assert u[i] == v[i];
      }
    }
  }

  /** Live blocks of one tree never overlap. */
  lemma {:induction false} LiveBlocksApart(levels: nat, used: seq<bool>, i: nat, j: nat)
    requires Shape(levels, used) && Antichain(used)
    requires 1 <= i < |used| && 1 <= j < |used| && i != j && used[i] && used[j]
    ensures Depth(i) < levels && Depth(j) < levels
    ensures Offset(levels, i) + Pages(levels, i) <= Offset(levels, j)
         || Offset(levels, j) + Pages(levels, j) <= Offset(levels, i)
  {
    InTree(levels, i);
    InTree(levels, j);
    NotBelow(used, i, j);
    NotBelow(used, j, i);
    Apart(levels, i, j);
  }

  lemma {:induction false} NotBelow(used: seq<bool>, i: nat, j: nat)
    requires Antichain(used) && 1 <= i < |used| && 1 <= j < |used| && i != j && used[i] && used[j]
    ensures !Anc(i, j)
  {
    if Anc(i, j) {
      assert Covered(used, i);
      assert AloneOnPath(used, j);
      assert Anc(i, j / 2) && i <= j / 2;
      CoveredBelow(used, i, j / 2);
      assert false;
    }
  }

  /** In a consistent tree the counters say what their names promise. */
  lemma {:induction false} CountersMean(
    levels: nat, base: nat, ns: seq<MemNode>, counts: seq<int>, total: int, free: int)
    requires Consistent(levels, base, ns, counts, total, free)
    ensures |counts| == levels && free == SumBySize(levels, counts, 0)
    ensures forall d :: 0 <= d < levels ==> 0 <= counts[d] == |MaximalFreeAt(UsedOf(ns), d)| <= Pow2(d)
    ensures 0 <= free <= total
  {
    CountersOfTree(levels, UsedOf(ns), counts);
    FreeAtMost(levels, UsedOf(ns));
  }

  lemma {:induction false} FreeAtMost(levels: nat, used: seq<bool>)
    requires Shape(levels, used) && levels >= 1
    ensures FreePages(levels, used, 1) <= Pow2(levels - 1)
  {
    Pow2Monotone(1, levels);
    FreePagesBound(levels, used, 1);
  }

  lemma {:induction false} CountersOfTree(levels: nat, used: seq<bool>, counts: seq<int>)
    requires Shape(levels, used) && Antichain(used) && counts == Counts(levels, used)
    ensures FreePages(levels, used, 1) == SumBySize(levels, counts, 0)
    ensures forall d :: 0 <= d < levels ==> 0 <= counts[d] == |MaximalFreeAt(used, d)| <= Pow2(d)
  {
    FreeIsSumBySize(levels, used, counts);
    forall d | 0 <= d < levels ensures counts[d] == |MaximalFreeAt(used, d)| <= Pow2(d) {
      LevelBound(used, d);
    }
  }

  lemma {:induction false} FreePagesBound(levels: nat, used: seq<bool>, i: nat)
    requires Shape(levels, used) && 1 <= i < |used|
    ensures Depth(i) < levels && FreePages(levels, used, i) <= Pages(levels, i)
    decreases |used| - i
  {
    InTree(levels, i);
    if 2 * i < |used| && !used[i] {
      SiblingsFit(|used|, levels, i);
      Halves(levels, |used|, i);
      FreePagesBound(levels, used, 2 * i);
      FreePagesBound(levels, used, 2 * i + 1);
    }
  }

  lemma {:induction false} LevelBound(used: seq<bool>, d: nat)
    ensures |MaximalFreeAt(used, d)| <= Pow2(d)
  {
    RangeCard(MaximalFreeAt(used, d), Pow2(d), Pow2(d + 1));
  }

  lemma {:induction false} RangeCard(s: set<nat>, lo: nat, hi: nat)
    requires lo <= hi && forall x :: x in s ==> lo <= x < hi
    ensures |s| <= hi - lo
    decreases hi - lo
  {
    if lo < hi {
      var t := s - {lo};
      RangeCard(t, lo + 1, hi);
      CardMinus(s, lo);
    } else {
      assert s == {};
    }
  }

  lemma {:induction false} LiveNode(levels: nat, used: seq<bool>, i: nat)
    requires Shape(levels, used) && 1 <= i < |used|
    ensures Depth(i) < levels && (used[i] ==> Block(Offset(levels, i), Pages(levels, i)) in Live(levels, used))
  {
    InTree(levels, i);
  }

  /** Whatever the requests, a run that leaves no live block leaves every node unused. */
  lemma {:induction false} EmptyIsInitial(levels: nat, used: seq<bool>, ops: seq<Op>)
    requires Shape(levels, used) && Antichain(used) && !used[0]
    requires Live(levels, Run(levels, used, ops)) == {}
    ensures Run(levels, used, ops) == AllFree(levels)
  {
    var r := Run(levels, used, ops);
    NullUntouched(levels, used, ops);
    forall i | 0 <= i < |r| ensures !r[i] {
      if i > 0 { LiveNode(levels, r, i); }
    }
  }

  /**
   * The whole memory of the tree comes back: if a run that began in the state init_block leaves (or in any
   * other consistent one) leaves no live block, then every node and all of info are as init_block left them.
   */
  lemma {:induction false} EmptyMemoryIsInitial(
    levels: nat, base: nat, used: seq<bool>, ops: seq<Op>,
    ns: seq<MemNode>, counts: seq<int>, total: int, free: int,
    ns': seq<MemNode>, counts': seq<int>, total': int, free': int)
    requires Shape(levels, used) && Antichain(used) && !used[0]
    requires Consistent(levels, base, ns, counts, total, free) && UsedOf(ns) == AllFree(levels)
    requires Consistent(levels, base, ns', counts', total', free') && UsedOf(ns') == Run(levels, used, ops)
    requires Live(levels, UsedOf(ns')) == {}
    ensures ns' == ns && counts' == counts && total' == total && free' == free
  {
    EmptyIsInitial(levels, used, ops);
    HistoryIndependence(levels, base, ns', counts', total', free', ns, counts, total, free);
  }

  /** In particular freeing all live blocks, in any order and with any repetitions, does this. */
  lemma {:induction false} FreeAllIsInitial(levels: nat, used: seq<bool>, ops: seq<Op>)
    requires Shape(levels, used) && Antichain(used) && !used[0] && Frees(ops)
    requires forall b :: b in Live(levels, used) ==> Free(b.offset) in ops
    ensures Run(levels, used, ops) == AllFree(levels)
  {
    var r := Run(levels, used, ops);
    forall b | b in Live(levels, r) ensures false {
      var i: nat :| 1 <= i < |r| && Depth(i) < levels && r[i] && b == Block(Offset(levels, i), Pages(levels, i));
      LiveNode(levels, used, i);
      FreeEverything(levels, used, ops, i);
      assert false;
    }
    assert Live(levels, r) == {};
    EmptyIsInitial(levels, used, ops);
  }

  lemma {:induction false} NullUntouched(levels: nat, used: seq<bool>, ops: seq<Op>)
    requires Shape(levels, used) && Antichain(used)
    ensures Run(levels, used, ops)[0] == used[0]
    decreases |ops|
  {
    if ops != [] {
      var op := ops[0];
      if op.Alloc? && op.level < levels && SizeAt(levels, op.level) <= MaxFree(levels, used, 1) {
        PlaceIsAvailable(levels, used, 1, op.level);
      }
      StepKeepsAntichain(levels, used, op);
      NullUntouched(levels, Step(levels, used, op), ops[1..]);
    }
  }
}
