/** freewalk and uvmfree: every table and leaf page of an address space goes back exactly once. */
module PageRelease {
  import opened PageTree
  import opened PagePrivate
  import opened PageTable

  /** p is a table of level l in a well-formed forest. */
  ghost predicate IsTable(f: Forest, p: nat, l: nat) {
    Ok(f) && p in f.mem && p in f.level && f.level[p] == l && |f.mem[p]| == 512
  }

  lemma {:induction false} ChildTable(f: Forest, p: nat, l: nat, i: nat)
    requires IsTable(f, p, l) && i < 512 && l > 0 && IsValid(f.mem[p][i])
    ensures IsTable(f, Target(f.mem[p][i]), l - 1)
  {
    assert TableOk(f, p) && EntryOk(f, p, i) && TableOk(f, Target(f.mem[p][i]));
  }

  /** The tables under the first n entries of p. */
  ghost function Below(f: Forest, p: nat, l: nat, n: nat): set<nat>
    requires IsTable(f, p, l) && n <= 512
    decreases l, n
  {
    if n == 0 || l == 0 then {} else
      Below(f, p, l, n - 1)
      + if IsValid(f.mem[p][n - 1]) then ChildTable(f, p, l, n - 1); Tree(f, Target(f.mem[p][n - 1]), l - 1) else {}
  }

  /** p and the tables below it. */
  ghost function Tree(f: Forest, p: nat, l: nat): set<nat>
    requires IsTable(f, p, l)
    decreases l, 513
  {
    {p} + Below(f, p, l, 512)
  }

  lemma {:induction false} BelowLevel(f: Forest, p: nat, l: nat, n: nat)
    requires IsTable(f, p, l) && n <= 512
    ensures forall q :: q in Below(f, p, l, n) ==> q in f.mem && q in f.level && f.level[q] < l
    decreases l, n
  {
    if n > 0 && l > 0 {
      BelowLevel(f, p, l, n - 1);
      if IsValid(f.mem[p][n - 1]) {
        ChildTable(f, p, l, n - 1);
        BelowLevel(f, Target(f.mem[p][n - 1]), l - 1, 512);
      }
    }
  }

  /** The tree under entry i of p shares nothing with what hangs from other entries of the same level. */
  lemma {:induction false} BranchApart(f: Forest, p: nat, i: nat, q: nat, m: nat, l: nat)
    requires IsTable(f, p, l) && IsTable(f, q, l) && l > 0 && i < 512 && m <= 512 && (p != q || m <= i)
    requires IsValid(f.mem[p][i])
    ensures IsTable(f, Target(f.mem[p][i]), l - 1)
    ensures Tree(f, Target(f.mem[p][i]), l - 1) !! Below(f, q, l, m)
    decreases l, 0, m
  {
    ChildTable(f, p, l, i);
    if m > 0 {
      BranchApart(f, p, i, q, m - 1, l);
      if IsValid(f.mem[q][m - 1]) {
        ChildTable(f, q, l, m - 1);
        assert TableOk(f, p) && TableOk(f, q) && SoleParent(f, p, i, q, m - 1);
        TreesApart(f, Target(f.mem[p][i]), Target(f.mem[q][m - 1]), l - 1);
      }
    }
  }

  /** Distinct tables of one level have disjoint trees. */
  lemma {:induction false} TreesApart(f: Forest, p: nat, q: nat, l: nat)
    requires IsTable(f, p, l) && IsTable(f, q, l) && p != q
    ensures Tree(f, p, l) !! Tree(f, q, l)
    decreases l, 2, 0
  {
    BelowApart(f, p, 512, q, l);
    BelowLevel(f, p, l, 512);
    BelowLevel(f, q, l, 512);
  }

  lemma {:induction false} BelowApart(f: Forest, p: nat, n: nat, q: nat, l: nat)
    requires IsTable(f, p, l) && IsTable(f, q, l) && p != q && n <= 512
    ensures Below(f, p, l, n) !! Below(f, q, l, 512)
    decreases l, 1, n
  {
    if n > 0 && l > 0 {
      BelowApart(f, p, n - 1, q, l);
      if IsValid(f.mem[p][n - 1]) { BranchApart(f, p, n - 1, q, 512, l); }
    }
  }

  // ----- no leaf is left --------------------------------------------------------------------------

  /** No leaf entry below p: otherwise freewalk panics. */
  ghost predicate Bare(f: Forest, p: nat, l: nat)
    requires IsTable(f, p, l)
    decreases l, 1
  {
    forall i: nat :: i < 512 ==> BareAt(f, p, l, i)
  }

  ghost predicate BareAt(f: Forest, p: nat, l: nat, i: nat)
    requires IsTable(f, p, l) && i < 512
    decreases l, 0
  {
    IsValid(f.mem[p][i]) ==> l > 0 && (ChildTable(f, p, l, i); Bare(f, Target(f.mem[p][i]), l - 1))
  }

  /** An address space that maps nothing has no leaf entries. */
  lemma {:induction false} EmptyIsBare(f: Forest, r: nat)
    requires IsTable(f, r, 2) && Unmapped(f, r, 0, MAXVPN)
    ensures Bare(f, r, 2)
  {
    forall i: nat | i < 512 ensures BareAt(f, r, 2, i) {
      if IsValid(f.mem[r][i]) {
        assert TableOk(f, r) && EntryOk(f, r, i);
        ChildTable(f, r, 2, i);
        MiddleIsBare(f, r, i);
      }
    }
  }

  lemma {:induction false} MiddleIsBare(f: Forest, r: nat, i: nat)
    requires IsTable(f, r, 2) && Unmapped(f, r, 0, MAXVPN) && i < 256 && IsValid(f.mem[r][i])
    ensures IsTable(f, Target(f.mem[r][i]), 1) && Bare(f, Target(f.mem[r][i]), 1)
  {
    ChildTable(f, r, 2, i);
    var m := Target(f.mem[r][i]);
    forall j: nat | j < 512 ensures BareAt(f, m, 1, j) {
      if IsValid(f.mem[m][j]) {
        ChildTable(f, m, 1, j);
        LastIsBare(f, r, i, m, j);
      }
    }
  }

  lemma {:induction false} LastIsBare(f: Forest, r: nat, i: nat, m: nat, j: nat)
    requires IsTable(f, r, 2) && Unmapped(f, r, 0, MAXVPN) && i < 256 && IsValid(f.mem[r][i])
    requires m == Target(f.mem[r][i])
    requires IsTable(f, m, 1) && j < 512 && IsValid(f.mem[m][j])
    ensures IsTable(f, Target(f.mem[m][j]), 0) && Bare(f, Target(f.mem[m][j]), 0)
  {
    ChildTable(f, m, 1, j);
    var t := Target(f.mem[m][j]);
    forall k: nat | k < 512 ensures BareAt(f, t, 0, k) {
      var v := (i * 512 + j) * 512 + k;
      PathOf(i, j, k, v);
      assert TableOk(f, m) && TableOk(f, t);
      assert NoEntry(f, r, v) && Middle(f, r, v) == m && Last(f, r, v) == t;
    }
  }

  lemma {:induction false} PathOf(i: nat, j: nat, k: nat, v: nat)
    requires i < 256 && j < 512 && k < 512 && v == (i * 512 + j) * 512 + k
    ensures v < MAXVPN && Px2(v) == i && Px1(v) == j && Px0(v) == k
  {
    assert v / 512 == i * 512 + j;
  }

  // ----- freewalk ---------------------------------------------------------------------------------

  /** Memory still holds the tables ts of f, and none of them is free. */
  ghost predicate Holds(f: Forest, ts: set<nat>, mem: map<nat, seq<nat>>, free: set<nat>) {
    ts !! free && forall q :: q in ts ==> q in f.mem && q in mem && mem[q] == f.mem[q]
  }

  /** The first i entries of p have been dealt with: their tables are gone, nothing else but p has changed. */
  ghost predicate Walked(f: Forest, p: nat, l: nat, i: nat, mem0: map<nat, seq<nat>>, free0: set<nat>,
                         mem: map<nat, seq<nat>>, free: set<nat>)
    requires IsTable(f, p, l)
  {
    && i <= 512 && mem.Keys == mem0.Keys - Below(f, p, l, i) && free == free0 + Below(f, p, l, i)
    && p in mem && |mem[p]| == 512 && (forall q :: q in mem && q != p ==> mem[q] == mem0[q])
    && forall k :: i <= k < 512 ==> mem[p][k] == f.mem[p][k]
  }

  /** The tree of the next child is untouched by the walk so far. */
  lemma {:induction false} ChildHeld(f: Forest, p: nat, l: nat, i: nat, mem0: map<nat, seq<nat>>, free0: set<nat>,
                                     mem: map<nat, seq<nat>>, free: set<nat>)
    requires IsTable(f, p, l) && l > 0 && i < 512 && IsValid(f.mem[p][i])
    requires Holds(f, Tree(f, p, l), mem0, free0) && Walked(f, p, l, i, mem0, free0, mem, free)
    ensures IsTable(f, Target(f.mem[p][i]), l - 1)
    ensures Holds(f, Tree(f, Target(f.mem[p][i]), l - 1), mem, free)
    ensures Below(f, p, l, i + 1) == Below(f, p, l, i) + Tree(f, Target(f.mem[p][i]), l - 1)
    ensures p !in Tree(f, Target(f.mem[p][i]), l - 1)
  {
    BranchApart(f, p, i, p, i, l);
    BelowLevel(f, p, l, i + 1);
    BelowGrows(f, p, l, i + 1, 512);
  }

  lemma {:induction false} BelowGrows(f: Forest, p: nat, l: nat, m: nat, n: nat)
    requires IsTable(f, p, l) && m <= n <= 512
    ensures Below(f, p, l, m) <= Below(f, p, l, n)
    decreases n
  {
    if m < n && l > 0 { BelowGrows(f, p, l, m, n - 1); }
  }

  /** In a tree without leaves a valid entry points to a smaller such tree. */
  lemma {:induction false} BareEntry(f: Forest, p: nat, l: nat, i: nat)
    requires IsTable(f, p, l) && Bare(f, p, l) && i < 512 && IsValid(f.mem[p][i])
    ensures l > 0 && !IsLeaf(f.mem[p][i]) && IsTable(f, Target(f.mem[p][i]), l - 1)
    ensures Bare(f, Target(f.mem[p][i]), l - 1)
  {
    assert BareAt(f, p, l, i) && TableOk(f, p) && EntryOk(f, p, i);
    ChildTable(f, p, l, i);
    FlagsNotLeaf(f.mem[p][i]);
  }

  /** The child's tree has been freed and its entry cleared. */
  lemma {:induction false} WalkedChild(
    f: Forest, p: nat, l: nat, i: nat, mem0: map<nat, seq<nat>>, free0: set<nat>,
    mem: map<nat, seq<nat>>, free: set<nat>, mem': map<nat, seq<nat>>, free': set<nat>, ts: set<nat>)
    requires IsTable(f, p, l) && i < 512 && Walked(f, p, l, i, mem0, free0, mem, free)
    requires Below(f, p, l, i + 1) == Below(f, p, l, i) + ts && p !in ts && free' == free + ts
    requires mem'.Keys == mem.Keys - ts && mem'[p] == mem[p][i := 0]
    requires forall q :: q in mem' && q != p ==> mem'[q] == mem[q]
    ensures Walked(f, p, l, i + 1, mem0, free0, mem', free')
  {
  }

  /** freewalk: frees p and every table below it, once each. It panics on a leaf entry. */
  method FreeWalk(vm: VM, p: nat, ghost f: Forest, ghost l: nat)
    requires IsTable(f, p, l) && Bare(f, p, l) && Holds(f, Tree(f, p, l), vm.mem, vm.free)
    modifies vm`mem, vm`free, vm`level
    ensures vm.mem == old(vm.mem) - Tree(f, p, l) && vm.free == old(vm.free) + Tree(f, p, l)
    ensures vm.level == old(vm.level)
    decreases l, 1
  {
    ghost var mem0, free0 := vm.mem, vm.free;
    assert vm.mem[p] == f.mem[p];
    BelowLevel(f, p, l, 512);
    var i := 0;
    while i < 512
      invariant 0 <= i <= 512 && Walked(f, p, l, i, mem0, free0, vm.mem, vm.free) && vm.level == old(vm.level)
    {
      FreeEntry(vm, p, i, f, l, mem0, free0);
      i := i + 1;
    }
    vm.mem := vm.mem - {p};
    vm.free := vm.free + {p};
  }

  /** One turn of freewalk's loop. */
  method FreeEntry(
    vm: VM, p: nat, i: nat, ghost f: Forest, ghost l: nat, ghost mem0: map<nat, seq<nat>>, ghost free0: set<nat>)
    requires IsTable(f, p, l) && Bare(f, p, l) && i < 512 && Holds(f, Tree(f, p, l), mem0, free0)
    requires Walked(f, p, l, i, mem0, free0, vm.mem, vm.free)
    modifies vm`mem, vm`free, vm`level
    ensures Walked(f, p, l, i + 1, mem0, free0, vm.mem, vm.free) && vm.level == old(vm.level)
    decreases l, 0
  {
    var pte := vm.mem[p][i];
    if IsValid(pte) {
      BareEntry(f, p, l, i);
      ghost var mem, free := vm.mem, vm.free;
      ChildHeld(f, p, l, i, mem0, free0, mem, free);
      FreeWalk(vm, Target(pte), f, l - 1);
      var row: seq<nat> := vm.mem[p][i := 0];
      vm.mem := vm.mem[p := row];
      WalkedChild(f, p, l, i, mem0, free0, mem, free, vm.mem, vm.free, Tree(f, Target(pte), l - 1));
    } else {
      BelowSame(f, p, l, i);
    }
  }

  lemma {:induction false} BelowSame(f: Forest, p: nat, l: nat, i: nat)
    requires IsTable(f, p, l) && i < 512 && !IsValid(f.mem[p][i])
    ensures Below(f, p, l, i + 1) == Below(f, p, l, i)
  {
  }

  /** An entry that points to a table has no other flag. */
  lemma {:induction false} FlagsNotLeaf(pte: nat)
    requires Flags(pte) == 1
    ensures !IsLeaf(pte)
  {
    var q := pte / 1024;
    assert pte == q * 1024 + 1;
    assert pte / 2 == 8 * (q * 64);
  }

  // ----- what remains ---------------------------------------------------------------------------------

  /** Table t points to q. */
  ghost predicate Points(f: Forest, t: nat, i: nat, q: nat) {
    && t in f.mem && t in f.level && f.level[t] > 0 && i < |f.mem[t]| && i < 512
    && IsValid(f.mem[t][i]) && Target(f.mem[t][i]) == q
  }

  /** A table below p is pointed to from p or from below p. */
  lemma {:induction false} ParentInside(f: Forest, p: nat, l: nat, n: nat, q: nat) returns (t: nat, i: nat)
    requires IsTable(f, p, l) && n <= 512 && q in Below(f, p, l, n)
    ensures Points(f, t, i, q) && (t == p || t in Below(f, p, l, n))
    decreases l, n
  {
    if q in Below(f, p, l, n - 1) {
      t, i := ParentInside(f, p, l, n - 1, q);
    } else {
      ChildTable(f, p, l, n - 1);
      var c := Target(f.mem[p][n - 1]);
      if q == c {
        t, i := p, n - 1;
      } else {
        t, i := ParentInside(f, c, l - 1, 512, q);
      }
    }
  }

  lemma {:induction false} OneParent(f: Forest, t: nat, i: nat, u: nat, j: nat, q: nat)
    requires Ok(f) && Points(f, t, i, q) && Points(f, u, j, q)
    ensures (t, i) == (u, j)
  {
    assert TableOk(f, t) && TableOk(f, u) && SoleParent(f, t, i, u, j);
  }

  /** A table outside the tree of root r points to none inside. */
  lemma {:induction false} OutsideStays(f: Forest, r: nat, t: nat, i: nat)
    requires IsTable(f, r, 2) && t in f.mem && t !in Tree(f, r, 2) && i < 512
    requires |f.mem[t]| == 512 && t in f.level && f.level[t] > 0 && IsValid(f.mem[t][i])
    ensures Target(f.mem[t][i]) !in Tree(f, r, 2)
  {
    var c := Target(f.mem[t][i]);
    assert TableOk(f, t) && EntryOk(f, t, i);
    if c in Below(f, r, 2, 512) {
      var u, j := ParentInside(f, r, 2, 512, c);
      OneParent(f, t, i, u, j, c);
    }
  }

  /** f without the tables ts. */
  ghost function Without(f: Forest, ts: set<nat>): Forest {
    Forest(f.mem - ts, f.level - ts)
  }

  lemma {:induction false} PrunedOk(f: Forest, r: nat)
    requires IsTable(f, r, 2)
    ensures Ok(Without(f, Tree(f, r, 2)))
  {
    var ts := Tree(f, r, 2);
    var h := Without(f, ts);
    forall t | t in h.mem ensures TableOk(h, t) { assert TableOk(f, t); }
    forall t, k | t in h.mem && 0 <= k < 512 ensures EntryOk(h, t, k) {
      assert TableOk(f, t) && EntryOk(f, t, k);
      if f.level[t] > 0 && IsValid(f.mem[t][k]) { OutsideStays(f, r, t, k); }
    }
    forall a, k, b, m | a in h.mem && 0 <= k < 512 && b in h.mem && 0 <= m < 512 ensures SoleParent(h, a, k, b, m) {
      assert SoleParent(f, a, k, b, m);
    }
  }

  /** Every other root keeps its whole map. */
  lemma {:induction false} PrunedSame(f: Forest, r: nat, s: nat, v: nat)
    requires IsTable(f, r, 2) && IsRoot(f, s) && s != r && v < MAXVPN
    ensures Ok(Without(f, Tree(f, r, 2))) && IsRoot(Without(f, Tree(f, r, 2)), s)
    ensures Get(Without(f, Tree(f, r, 2)), s, v) == Get(f, s, v)
  {
    PrunedOk(f, r);
    BelowLevel(f, r, 2, 512);
    assert TableOk(f, s) && EntryOk(f, s, Px2(v));
    if Middle(f, s, v) != 0 {
      OutsideStays(f, r, s, Px2(v));
      var m := Middle(f, s, v);
      assert TableOk(f, m) && EntryOk(f, m, Px1(v));
      if Last(f, s, v) != 0 { OutsideStays(f, r, m, Px1(v)); }
    }
  }

  /** Root s maps v in h as it does in f. */
  ghost predicate Kept(f: Forest, h: Forest, s: nat, v: nat) {
    Ok(f) && Ok(h) && IsRoot(f, s) && IsRoot(h, s) && v < MAXVPN && Get(h, s, v) == Get(f, s, v)
  }

  /** The tables of root r have been freed out of f, and every other root keeps its whole map. */
  ghost predicate Dropped(f: Forest, h: Forest, r: nat) {
    Ok(f) && Ok(h) && r !in h.mem && forall s: nat, v: nat :: IsRoot(f, s) && s != r && v < MAXVPN ==> Kept(f, h, s, v)
  }

  /** Unmapping pages of r and then freeing its tables. */
  lemma {:induction false} UnmapThenDrop(f: Forest, g: Forest, r: nat, n: nat)
    requires SameOutside(f, g, r, 0, n) && IsTable(g, r, 2)
    ensures Dropped(f, Without(g, Tree(g, r, 2)), r)
  {
    var h := Without(g, Tree(g, r, 2));
    PrunedOk(g, r);
    forall s: nat, v: nat | IsRoot(f, s) && s != r && v < MAXVPN ensures Kept(f, h, s, v) {
      assert SameAt(f, g, s, v);
      PrunedSame(g, r, s, v);
    }
  }

  /** The same tables hang below p if only last-level entries differ. */
  lemma {:induction false} BelowKept(f: Forest, g: Forest, p: nat, l: nat, n: nat)
    requires IsTable(f, p, l) && Ok(g) && InnerSame(f, g) && n <= 512
    ensures IsTable(g, p, l) && Below(g, p, l, n) == Below(f, p, l, n)
    decreases l, n
  {
    assert InnerAt(f, g, p) && TableOk(g, p);
    if n > 0 && l > 0 {
      BelowKept(f, g, p, l, n - 1);
      if IsValid(f.mem[p][n - 1]) {
        ChildTable(f, p, l, n - 1);
        BelowKept(f, g, Target(f.mem[p][n - 1]), l - 1, 512);
      }
    }
  }

  /** t is root r or one of the second- or last-level tables on the path of some page. */
  ghost predicate TableOf(f: Forest, r: nat, t: nat) {
    Ok(f) && IsRoot(f, r) && (t == r || (t != 0 && exists v: nat :: OnPath(f, r, t, v)))
  }

  ghost predicate OnPath(f: Forest, r: nat, t: nat, v: nat) {
    Ok(f) && IsRoot(f, r) && v < MAXVPN && (t == Middle(f, r, v) || t == Last(f, r, v))
  }

  lemma {:induction false} BelowHas(f: Forest, p: nat, l: nat, n: nat, i: nat)
    requires IsTable(f, p, l) && l > 0 && i < n <= 512 && IsValid(f.mem[p][i])
    ensures IsTable(f, Target(f.mem[p][i]), l - 1) && Tree(f, Target(f.mem[p][i]), l - 1) <= Below(f, p, l, n)
  {
    ChildTable(f, p, l, i);
    if i < n - 1 { BelowHas(f, p, l, n - 1, i); }
  }

  lemma {:induction false} BelowFrom(f: Forest, p: nat, l: nat, n: nat, t: nat) returns (i: nat)
    requires IsTable(f, p, l) && n <= 512 && t in Below(f, p, l, n)
    ensures l > 0 && i < n && IsValid(f.mem[p][i])
    ensures IsTable(f, Target(f.mem[p][i]), l - 1) && t in Tree(f, Target(f.mem[p][i]), l - 1)
    decreases n
  {
    if t in Below(f, p, l, n - 1) {
      i := BelowFrom(f, p, l, n - 1, t);
    } else {
      i := n - 1;
      ChildTable(f, p, l, i);
    }
  }

  /** The tree that freewalk frees is exactly the root and the tables that translations through it visit. */
  lemma {:induction false} TreeIsPaths(f: Forest, r: nat, t: nat)
    requires IsTable(f, r, 2)
    ensures t in Tree(f, r, 2) <==> TableOf(f, r, t)
  {
    if t in Tree(f, r, 2) && t != r { TreeHasPath(f, r, t); }
    if TableOf(f, r, t) && t != r {
      var v: nat :| OnPath(f, r, t, v);
      PathInTree(f, r, v);
    }
  }

  lemma {:induction false} TreeHasPath(f: Forest, r: nat, t: nat)
    requires IsTable(f, r, 2) && t in Below(f, r, 2, 512)
    ensures TableOf(f, r, t)
  {
    var i := BelowFrom(f, r, 2, 512, t);
    assert EntryOk(f, r, i);
    var m := Target(f.mem[r][i]);
    assert TableOk(f, t) by { BelowLevel(f, r, 2, 512); }
    if t == m {
      var v := (i * 512 + 0) * 512 + 0;
      PathOf(i, 0, 0, v);
      assert OnPath(f, r, t, v);
    } else {
      var j := BelowFrom(f, m, 1, 512, t);
      assert Below(f, Target(f.mem[m][j]), 0, 512) == {};
      var v := (i * 512 + j) * 512 + 0;
      PathOf(i, j, 0, v);
      assert EntryOk(f, m, j);
      assert OnPath(f, r, t, v);
    }
  }

  lemma {:induction false} PathInTree(f: Forest, r: nat, v: nat)
    requires IsTable(f, r, 2) && v < MAXVPN
    ensures Middle(f, r, v) != 0 ==> Middle(f, r, v) in Tree(f, r, 2)
    ensures Last(f, r, v) != 0 ==> Last(f, r, v) in Tree(f, r, 2)
  {
    var m := Middle(f, r, v);
    if m != 0 {
      BelowHas(f, r, 2, 512, Px2(v));
      if Last(f, r, v) != 0 { BelowHas(f, m, 1, 512, Px1(v)); }
    }
  }

  /** uvmfree: frees the pages of sz and all tables of root, each once. The source panics if a page is left above sz. */
  method UvmFree(vm: VM, root: nat, sz: nat)
    requires vm.Valid() && IsTable(vm.View(), root, 2) && PagesFor(sz) <= MAXVPN
    requires OwnPages(vm.View(), vm.Pool(), root, 0, PagesFor(sz)) && Unmapped(vm.View(), root, PagesFor(sz), MAXVPN)
    modifies vm`mem, vm`free, vm`level
    ensures vm.Valid() && Dropped(old(vm.View()), vm.View(), root)
    ensures vm.mem.Keys == old(vm.mem.Keys) - Tree(old(vm.View()), root, 2)
    ensures vm.free == old(vm.free) + PagesOf(old(vm.View()), root, 0, PagesFor(sz)) + Tree(old(vm.View()), root, 2)
    ensures forall t :: TableOf(old(vm.View()), root, t) ==> t in vm.free && t !in vm.mem
    ensures forall t :: t in old(vm.mem) && t !in vm.mem ==> TableOf(old(vm.View()), root, t)
    ensures forall v: nat :: v < PagesFor(sz) ==> Get(old(vm.View()), root, v) / 1024 * 4096 in vm.free
  {
    AllReturned(vm.View(), root, PagesFor(sz));
    FreeSpace(vm, root, sz);
  }

  lemma {:induction false} AllReturned(f: Forest, root: nat, n: nat)
    requires IsTable(f, root, 2) && n <= MAXVPN
    ensures forall t :: t in Tree(f, root, 2) <==> TableOf(f, root, t)
    ensures forall v: nat :: v < n ==> Get(f, root, v) / 1024 * 4096 in PagesOf(f, root, 0, n)
  {
    forall t: nat ensures t in Tree(f, root, 2) <==> TableOf(f, root, t) { TreeIsPaths(f, root, t); }
    forall v: nat | v < n ensures Get(f, root, v) / 1024 * 4096 in PagesOf(f, root, 0, n) {
      assert MapsTo(f, root, v, Get(f, root, v) / 1024 * 4096);
      PagesOfAre(f, root, 0, n, Get(f, root, v) / 1024 * 4096);
    }
  }

  /** The two halves of uvmfree. */
  method FreeSpace(vm: VM, root: nat, sz: nat)
    requires vm.Valid() && IsTable(vm.View(), root, 2) && PagesFor(sz) <= MAXVPN
    requires OwnPages(vm.View(), vm.Pool(), root, 0, PagesFor(sz)) && Unmapped(vm.View(), root, PagesFor(sz), MAXVPN)
    modifies vm`mem, vm`free, vm`level
    ensures vm.Valid() && Dropped(old(vm.View()), vm.View(), root)
    ensures vm.mem.Keys == old(vm.mem.Keys) - Tree(old(vm.View()), root, 2)
    ensures vm.free == old(vm.free) + PagesOf(old(vm.View()), root, 0, PagesFor(sz)) + Tree(old(vm.View()), root, 2)
  {
    ghost var f := vm.View();
    UnmapAll(vm, root, sz);
    ghost var g := vm.View();
    BelowKept(f, g, root, 2, 512);
    BelowLevel(g, root, 2, 512);
    EmptyIsBare(g, root);
    FreeWalk(vm, root, g, 2);
    vm.level := vm.level - Tree(g, root, 2);
    UnmapThenDrop(f, g, root, PagesFor(sz));
    assert vm.View() == Without(g, Tree(g, root, 2));
  }

  /** The first half of uvmfree: unmap and free the pages of sz. */
  method UnmapAll(vm: VM, root: nat, sz: nat)
    requires vm.Valid() && IsTable(vm.View(), root, 2) && PagesFor(sz) <= MAXVPN
    requires OwnPages(vm.View(), vm.Pool(), root, 0, PagesFor(sz)) && Unmapped(vm.View(), root, PagesFor(sz), MAXVPN)
    modifies vm`mem, vm`free, vm`level
    ensures vm.Valid() && InnerSame(old(vm.View()), vm.View())
    ensures SameOutside(old(vm.View()), vm.View(), root, 0, PagesFor(sz))
    ensures Unmapped(vm.View(), root, 0, MAXVPN) && vm.mem.Keys == old(vm.mem.Keys)
    ensures vm.free == old(vm.free) + PagesOf(old(vm.View()), root, 0, PagesFor(sz))
  {
    ghost var f := vm.View();
    Rounded(sz, sz);
    SameMapsSelf(f);
    SameMapsOutside(f, f, root, 0, 0);
    if sz > 0 {
      vm.UvmUnmap(root, 0, RoundUp(sz) / PGSIZE, true);
    }
    AllUnmapped(f, vm.View(), root, PagesFor(sz));
  }

  lemma {:induction false} AllUnmapped(f: Forest, g: Forest, root: nat, n: nat)
    requires SameOutside(f, g, root, 0, n) && Unmapped(g, root, 0, n) && Unmapped(f, root, n, MAXVPN)
    requires IsRoot(f, root)
    ensures Unmapped(g, root, 0, MAXVPN)
  {
    forall v: nat | v < MAXVPN ensures NoEntry(g, root, v) {
      if v >= n { assert NoEntry(f, root, v) && SameAt(f, g, root, v); }
    }
  }
}
