/**
 * The free list of user/umalloc.c on values: blocks of header-sized units, kept in address order and never
 * touching. The list proper is a cycle of headers through `base`.
 */
module FreeList {

  /** A header and the units it governs, header included. */
  datatype Block = Block(addr: nat, size: nat)

  /** Where `base` lies: below everything sbrk returns. Address 0 is null. */
  const BASE: nat := 1

  function End(b: Block): nat { b.addr + b.size }

  // ----- the units of a block -------------------------------------------------------------------

  ghost function Units(b: Block): set<nat>
    decreases b.size
  {
    if b.size == 0 then {} else Units(Block(b.addr, b.size - 1)) + {b.addr + b.size - 1}
  }

  lemma {:induction false} UnitsAre(b: Block)
    ensures forall u :: u in Units(b) <==> b.addr <= u < End(b)
    ensures |Units(b)| == b.size
    decreases b.size
  {
    if b.size > 0 { UnitsAre(Block(b.addr, b.size - 1)); }
  }

  ghost function Cover(s: seq<Block>): set<nat> {
    if s == [] then {} else Cover(s[..|s| - 1]) + Units(s[|s| - 1])
  }

  lemma {:induction false} CoverConcat(s: seq<Block>, t: seq<Block>)
    ensures Cover(s + t) == Cover(s) + Cover(t)
  {
    if t == [] {
      assert s + t == s;
    } else {
      CoverConcat(s, t[..|t| - 1]);
      assert (s + t)[..|s + t| - 1] == s + t[..|t| - 1];
    }
  }

  lemma {:induction false} CoverOne(b: Block)
    ensures Cover([b]) == Units(b)
  {
    assert [b][..0] == [];
  }

  lemma {:induction false} CoverAt(s: seq<Block>, i: nat)
    requires i < |s|
    ensures Units(s[i]) <= Cover(s)
  {
    if i < |s| - 1 { CoverAt(s[..|s| - 1], i); }
  }

  /** Blocks that share no unit lie one after the other. */
  lemma {:induction false} DisjointUnits(a: Block, b: Block)
    requires Units(a) !! Units(b) && a.size > 0 && b.size > 0
    ensures End(a) <= b.addr || End(b) <= a.addr
  {
    UnitsAre(a);
    UnitsAre(b);
    assert a.addr in Units(a) && b.addr in Units(b);
  }

  /** Two blocks that touch make one. */
  lemma {:induction false} JoinUnits(a: Block, b: Block)
    requires End(a) == b.addr
    ensures Units(Block(a.addr, a.size + b.size)) == Units(a) + Units(b) && Units(a) !! Units(b)
  {
    UnitsAre(a);
    UnitsAre(b);
    UnitsAre(Block(a.addr, a.size + b.size));
  }

  lemma {:induction false} UnitsApart(a: Block, b: Block)
    requires End(a) <= b.addr || End(b) <= a.addr
    ensures Units(a) !! Units(b)
  {
    UnitsAre(a);
    UnitsAre(b);
  }

  // ----- address order -----------------------------------------------------------------------------

  /** a lies below b with a gap between. */
  ghost predicate Under(s: seq<Block>, i: nat, j: nat)
    requires i < |s| && j < |s|
  {
    End(s[i]) < s[j].addr
  }

  ghost predicate BlockOk(b: Block) { b.size > 0 && b.addr > BASE }

  /** Address-ordered, non-empty, never touching. */
  ghost predicate Sorted(s: seq<Block>) {
    (forall i :: 0 <= i < |s| ==> BlockOk(s[i])) && (forall i: nat, j: nat :: i < j < |s| ==> Under(s, i, j))
  }

  /** i blocks lie below b, the others above. */
  ghost predicate Between(s: seq<Block>, i: nat, b: Block) {
    i <= |s| && (forall k :: 0 <= k < i ==> End(s[k]) <= b.addr) && (forall k :: i <= k < |s| ==> End(b) <= s[k].addr)
  }

  /** What free(b) makes of the list: b joins a neighbour it touches. */
  ghost function AfterJoined(s: seq<Block>, i: nat, b: Block): (r: (Block, seq<Block>))
    requires i <= |s|
  {
    if i < |s| && End(b) == s[i].addr then (Block(b.addr, b.size + s[i].size), s[i + 1..]) else (b, s[i..])
  }

  ghost function Insert(s: seq<Block>, i: nat, b: Block): seq<Block>
    requires i <= |s|
  {
    var (c, rest) := AfterJoined(s, i, b);
    if i > 0 && End(s[i - 1]) == b.addr
    then s[..i - 1] + [Block(s[i - 1].addr, s[i - 1].size + c.size)] + rest
    else s[..i] + [c] + rest
  }

  lemma {:induction false} SplitAt(s: seq<Block>, i: nat)
    requires i < |s|
    ensures s == s[..i] + [s[i]] + s[i + 1..] && Cover(s) == Cover(s[..i]) + Units(s[i]) + Cover(s[i + 1..])
  {
    assert s == s[..i] + [s[i]] + s[i + 1..];
    CoverConcat(s[..i] + [s[i]], s[i + 1..]);
    CoverConcat(s[..i], [s[i]]);
    CoverOne(s[i]);
  }

  lemma {:induction false} CoverThree(s: seq<Block>, b: Block, t: seq<Block>)
    ensures Cover(s + [b] + t) == Cover(s) + Units(b) + Cover(t)
  {
    CoverConcat(s + [b], t);
    CoverConcat(s, [b]);
    CoverOne(b);
  }

  lemma {:induction false} CoverCut(s: seq<Block>, i: nat)
    requires i <= |s|
    ensures Cover(s) == Cover(s[..i]) + Cover(s[i..])
  {
    assert s == s[..i] + s[i..];
    CoverConcat(s[..i], s[i..]);
  }

  lemma {:induction false} JoinedCover(s: seq<Block>, i: nat, b: Block)
    requires i <= |s|
    ensures var (c, rest) := AfterJoined(s, i, b);
            Units(c) + Cover(rest) == Units(b) + Cover(s[i..]) && c.addr == b.addr
  {
    if i < |s| && End(b) == s[i].addr {
      JoinUnits(b, s[i]);
      SplitAt(s[i..], 0);
      assert s[i..][1..] == s[i + 1..] && s[i..][..0] == [];
    }
  }

  /** The free units after free(b) are those before and those of b. */
  lemma {:induction false} InsertCover(s: seq<Block>, i: nat, b: Block)
    requires i <= |s|
    ensures Cover(Insert(s, i, b)) == Cover(s) + Units(b)
  {
    JoinedCover(s, i, b);
    CoverCut(s, i);
    if i > 0 && End(s[i - 1]) == b.addr { LeftCover(s, i, b); } else { PlainCover(s, i, b); }
  }

  lemma {:induction false} PlainCover(s: seq<Block>, i: nat, b: Block)
    requires i <= |s|
    ensures var (c, rest) := AfterJoined(s, i, b);
            Cover(s[..i] + [c] + rest) == Cover(s[..i]) + Cover(s[i..]) + Units(b)
  {
    var (c, rest) := AfterJoined(s, i, b);
    JoinedCover(s, i, b);
    CoverThree(s[..i], c, rest);
    RegroupPlain(Cover(s[..i]), Units(c), Cover(rest), Units(b), Cover(s[i..]));
  }

  lemma {:induction false} LeftCover(s: seq<Block>, i: nat, b: Block)
    requires 0 < i <= |s| && End(s[i - 1]) == b.addr
    ensures var (c, rest) := AfterJoined(s, i, b);
            Cover(s[..i - 1] + [Block(s[i - 1].addr, s[i - 1].size + c.size)] + rest) ==
            Cover(s[..i]) + Cover(s[i..]) + Units(b)
  {
    var (c, rest) := AfterJoined(s, i, b);
    JoinedCover(s, i, b);
    CoverThree(s[..i - 1], Block(s[i - 1].addr, s[i - 1].size + c.size), rest);
    JoinUnits(s[i - 1], c);
    LastCover(s, i);
    Regroup(Cover(s[..i - 1]), Units(s[i - 1]), Units(c), Cover(rest), Units(b), Cover(s[i..]));
  }

  lemma {:induction false} LastCover(s: seq<Block>, i: nat)
    requires 0 < i <= |s|
    ensures Cover(s[..i]) == Cover(s[..i - 1]) + Units(s[i - 1])
  {
    assert s[..i][..i - 1] == s[..i - 1];
  }

  lemma {:induction false} RegroupPlain(a: set<nat>, c: set<nat>, r: set<nat>, b: set<nat>, t: set<nat>)
    requires c + r == b + t
    ensures a + c + r == a + t + b
  {
    assert a + c + r == a + (c + r);
  }

  lemma {:induction false} Regroup(a: set<nat>, x: set<nat>, c: set<nat>, r: set<nat>, b: set<nat>, t: set<nat>)
    requires c + r == b + t
    ensures a + (x + c) + r == (a + x) + t + b
  {
    assert a + (x + c) + r == a + x + (c + r);
  }

  /** A block with gaps to everything below and above keeps the order. */
  lemma {:induction false} SpliceSorted(pre: seq<Block>, x: Block, rest: seq<Block>)
    requires Sorted(pre) && Sorted(rest) && BlockOk(x)
    requires forall k :: 0 <= k < |pre| ==> End(pre[k]) < x.addr
    requires forall k :: 0 <= k < |rest| ==> End(x) < rest[k].addr
    ensures Sorted(pre + [x] + rest)
  {
    var s := pre + [x] + rest;
    forall i: nat, j: nat | i < j < |s| ensures Under(s, i, j) {
      if j < |pre| { assert Under(pre, i, j); }
      if i > |pre| { assert Under(rest, i - |pre| - 1, j - |pre| - 1); }
    }
  }

  lemma {:induction false} SubSorted(s: seq<Block>, lo: nat, hi: nat)
    requires Sorted(s) && lo <= hi <= |s|
    ensures Sorted(s[lo..hi])
  {
    forall i: nat, j: nat | i < j < hi - lo ensures Under(s[lo..hi], i, j) { assert Under(s, lo + i, lo + j); }
  }

  lemma {:induction false} JoinedSorted(s: seq<Block>, i: nat, b: Block)
    requires Sorted(s) && Between(s, i, b) && BlockOk(b)
    ensures var (c, rest) := AfterJoined(s, i, b);
            Sorted(rest) && BlockOk(c) && c.addr == b.addr && forall k :: 0 <= k < |rest| ==> End(c) < rest[k].addr
  {
    SubSorted(s, i, |s|);
    assert s[i..|s|] == s[i..];
    if i < |s| {
      SubSorted(s, i + 1, |s|);
      assert s[i + 1..|s|] == s[i + 1..];
      forall k | i < k < |s| ensures End(s[i]) < s[k].addr && End(b) < s[k].addr { assert Under(s, i, k); }
    }
  }

  /** free keeps the list in address order without touching blocks. */
  lemma {:induction false} InsertSorted(s: seq<Block>, i: nat, b: Block)
    requires Sorted(s) && Between(s, i, b) && BlockOk(b)
    ensures Sorted(Insert(s, i, b))
  {
    var (c, rest) := AfterJoined(s, i, b);
    JoinedSorted(s, i, b);
    SubSorted(s, 0, i);
    assert s[0..i] == s[..i];
    if i > 0 && End(s[i - 1]) == b.addr {
      SubSorted(s, 0, i - 1);
      assert s[0..i - 1] == s[..i - 1];
      forall k | 0 <= k < i - 1 ensures End(s[k]) < s[i - 1].addr { assert Under(s, k, i - 1); }
      SpliceSorted(s[..i - 1], Block(s[i - 1].addr, s[i - 1].size + c.size), rest);
    } else {
      forall k | 0 <= k < i ensures End(s[k]) < b.addr { if k < i - 1 { assert Under(s, k, i - 1); } }
      SpliceSorted(s[..i], c, rest);
    }
  }

  // ----- taking from a block -----------------------------------------------------------------------

  /** malloc takes n units from the end of block t, or all of it. */
  ghost function Carve(s: seq<Block>, t: nat, n: nat): seq<Block>
    requires t < |s| && n <= s[t].size
  {
    if s[t].size == n then s[..t] + s[t + 1..] else s[..t] + [Block(s[t].addr, s[t].size - n)] + s[t + 1..]
  }

  function Carved(b: Block, n: nat): Block
    requires n <= b.size
  {
    Block(b.addr + b.size - n, n)
  }

  lemma {:induction false} CarveCover(s: seq<Block>, t: nat, n: nat)
    requires Sorted(s) && t < |s| && 0 < n <= s[t].size
    ensures Cover(Carve(s, t, n)) + Units(Carved(s[t], n)) == Cover(s)
    ensures Cover(Carve(s, t, n)) !! Units(Carved(s[t], n))
  {
    SplitAt(s, t);
    AroundApart(s, t);
    if s[t].size == n {
      CoverConcat(s[..t], s[t + 1..]);
      assert Carved(s[t], n) == s[t];
      TakeWhole(Cover(s[..t]), Units(s[t]), Cover(s[t + 1..]));
    } else {
      var b := Block(s[t].addr, s[t].size - n);
      CoverThree(s[..t], b, s[t + 1..]);
      JoinUnits(b, Carved(s[t], n));
      TakeOut(Cover(s[..t]), Units(b), Units(Carved(s[t], n)), Cover(s[t + 1..]));
    }
  }

  lemma {:induction false} TakeWhole(a: set<nat>, c: set<nat>, d: set<nat>)
    requires a !! c && d !! c
    ensures a + d + c == a + c + d && (a + d) !! c
  {
  }

  lemma {:induction false} TakeOut(a: set<nat>, b: set<nat>, c: set<nat>, d: set<nat>)
    requires a !! (b + c) && d !! (b + c) && b !! c
    ensures a + b + d + c == a + (b + c) + d && (a + b + d) !! c
  {
  }

  /** The blocks around t share no unit with it. */
  lemma {:induction false} AroundApart(s: seq<Block>, t: nat)
    requires Sorted(s) && t < |s|
    ensures Cover(s[..t]) !! Units(s[t]) && Cover(s[t + 1..]) !! Units(s[t])
  {
    var below, above := s[..t], s[t + 1..];
    forall k | 0 <= k < |below| ensures Units(below[k]) !! Units(s[t]) {
      assert Under(s, k, t);
      UnitsApart(below[k], s[t]);
    }
    CoverApart(below, s[t]);
    forall k | 0 <= k < |above| ensures Units(above[k]) !! Units(s[t]) {
      assert Under(s, t, t + 1 + k);
      UnitsApart(above[k], s[t]);
    }
    CoverApart(above, s[t]);
  }

  lemma {:induction false} CoverApart(s: seq<Block>, b: Block)
    requires forall k :: 0 <= k < |s| ==> Units(s[k]) !! Units(b)
    ensures Cover(s) !! Units(b)
  {
    if s != [] {
      var p := s[..|s| - 1];
      forall k | 0 <= k < |p| ensures Units(p[k]) !! Units(b) { assert p[k] == s[k]; }
      CoverApart(p, b);
    }
  }

  lemma {:induction false} CarveSorted(s: seq<Block>, t: nat, n: nat)
    requires Sorted(s) && t < |s| && 0 < n <= s[t].size
    ensures Sorted(Carve(s, t, n))
  {
    if s[t].size == n {
      var r := s[..t] + s[t + 1..];
      forall i: nat, j: nat | i < j < |r| ensures Under(r, i, j) {
        assert Under(s, if i < t then i else i + 1, if j < t then j else j + 1);
      }
    } else {
      SubSorted(s, 0, t);
      SubSorted(s, t + 1, |s|);
      assert s[0..t] == s[..t] && s[t + 1..|s|] == s[t + 1..];
      forall k | 0 <= k < t ensures End(s[k]) < s[t].addr { assert Under(s, k, t); }
      forall k | t < k < |s| ensures End(s[t]) < s[k].addr { assert Under(s, t, k); }
      SpliceSorted(s[..t], Block(s[t].addr, s[t].size - n), s[t + 1..]);
    }
  }

  // ----- counting units --------------------------------------------------------------------------------

  ghost function Total(s: seq<Block>): nat {
    if s == [] then 0 else Total(s[..|s| - 1]) + s[|s| - 1].size
  }

  /** The blocks are pairwise disjoint. */
  ghost predicate AllApart(s: seq<Block>) {
    forall i: nat, j: nat :: i < j < |s| ==> PairApart(s, i, j)
  }

  ghost predicate PairApart(s: seq<Block>, i: nat, j: nat)
    requires i < |s| && j < |s|
  {
    Units(s[i]) !! Units(s[j])
  }

  lemma {:induction false} SortedApart(s: seq<Block>)
    requires Sorted(s)
    ensures AllApart(s)
  {
    forall i: nat, j: nat | i < j < |s| ensures PairApart(s, i, j) { assert Under(s, i, j); UnitsApart(s[i], s[j]); }
  }

  /** Disjoint blocks hold as many units as their sizes add up to. */
  lemma {:induction false} CountUnits(s: seq<Block>)
    requires AllApart(s)
    ensures |Cover(s)| == Total(s)
  {
    if s != [] {
      var p := s[..|s| - 1];
      forall i: nat, j: nat | i < j < |p| ensures PairApart(p, i, j) { assert PairApart(s, i, j); }
      CountUnits(p);
      forall k | 0 <= k < |p| ensures Units(p[k]) !! Units(s[|s| - 1]) { assert PairApart(s, k, |s| - 1); }
      CoverApart(p, s[|s| - 1]);
      UnitsAre(s[|s| - 1]);
    }
  }
}
