/** Namespaces in kernel/proc.c: is_heir, namespace_malloc, namespace_free, fork, clone, exit, and whole runs. */
module Namespaces {
  import opened NamespaceTree
  import opened NamespaceSteps

  // ----- part of a path ------------------------------------------------------------------------------------

  /** The first c nodes of the path from n to the root have been changed by dc and dl. */
  ghost predicate PartAt(nodes: seq<Node>, nodes': seq<Node>, n: nat, c: nat, a: nat, dc: int, dl: nat) {
    n < |nodes| && a < |nodes| && a < |nodes'| ==>
      nodes'[a] == if Heir(nodes, n, a) && nodes[n].depth - nodes[a].depth < c
                   then nodes[a].(cnt := nodes[a].cnt + dc, last := nodes[a].last + dl) else nodes[a]
  }

  ghost predicate Part(nodes: seq<Node>, nodes': seq<Node>, n: nat, c: nat, dc: int, dl: nat) {
    |nodes'| == |nodes| && forall a: nat :: PartAt(nodes, nodes', n, c, a, dc, dl)
  }

  lemma {:induction false} PartMore(
    used: seq<bool>, nodes: seq<Node>, nodes': seq<Node>, n: nat, c: nat, dc: int, dl: nat, m: nat,
    nodes'': seq<Node>)
    requires TreeOk(used, nodes) && n < NNODE && used[n] && c <= nodes[n].depth && Part(nodes, nodes', n, c, dc, dl)
    requires m == Up(nodes, n, c) && m < |nodes|
    requires nodes'' == nodes'[m := nodes'[m].(cnt := nodes'[m].cnt + dc, last := nodes'[m].last + dl)]
    ensures Part(nodes, nodes'', n, c + 1, dc, dl)
  {
    UpUsed(used, nodes, n, c);
    var c1 := c + 1;
    forall a: nat ensures PartAt(nodes, nodes'', n, c1, a, dc, dl) {
      assert PartAt(nodes, nodes', n, c, a, dc, dl);
    }
  }

  lemma {:induction false} PartWhole(nodes: seq<Node>, nodes': seq<Node>, n: nat, dc: int, dl: nat)
    requires n < |nodes| && Part(nodes, nodes', n, nodes[n].depth + 1, dc, dl)
    ensures Bumped(nodes, nodes', n, dc, dl)
  {
    forall a: nat ensures BumpedAt(nodes, nodes', n, a, dc, dl) {
      assert PartAt(nodes, nodes', n, nodes[n].depth + 1, a, dc, dl);
    }
  }

  /** Node m, next on the path, has not been changed yet, and this is what its head is. */
  lemma {:induction false} PartNext(
    used: seq<bool>, nodes: seq<Node>, nodes': seq<Node>, n: nat, c: nat, dc: int, dl: nat)
    requires TreeOk(used, nodes) && n < NNODE && used[n] && c <= nodes[n].depth && Part(nodes, nodes', n, c, dc, dl)
    ensures var m := Up(nodes, n, c);
            m < NNODE && used[m] && nodes'[m] == nodes[m] && nodes[m].depth == nodes[n].depth - c
            && (c < nodes[n].depth ==> nodes[m].head == Up(nodes, n, c + 1))
  {
    UpUsed(used, nodes, n, c);
    assert PartAt(nodes, nodes', n, c, Up(nodes, n, c), dc, dl);
    if c < nodes[n].depth { UpOne(used, nodes, n, c); }
  }

  // ----- releasing empty namespaces ---------------------------------------------------------------------------

  /** Where empty namespaces can be: only above n, with counts not falling on the way up. */
  ghost predicate ZeroAt(used: seq<bool>, nodes: seq<Node>, n: nat, a: nat) {
    a < |used| && a < |nodes| && used[a] ==>
      && nodes[a].cnt >= 0 && (a != ROOT && !Heir(nodes, n, a) ==> nodes[a].cnt > 0)
      && (a != ROOT ==> nodes[a].head < |nodes| && nodes[a].cnt <= nodes[nodes[a].head].cnt)
  }

  ghost predicate Zeros(used: seq<bool>, nodes: seq<Node>, n: nat) {
    forall a: nat :: ZeroAt(used, nodes, n, a)
  }

  /** The first c namespaces from n up, all empty, have been released. */
  ghost predicate FreedAt(used: seq<bool>, used': seq<bool>, nodes: seq<Node>, n: nat, c: nat, a: nat) {
    n < |nodes| && a < |used| && a < |used'| && a < |nodes| ==>
      && (used'[a] <==> used[a] && !(Heir(nodes, n, a) && nodes[n].depth - nodes[a].depth < c))
      && (Heir(nodes, n, a) && nodes[n].depth - nodes[a].depth < c ==> a != ROOT && nodes[a].cnt == 0)
  }

  ghost predicate Freed(used: seq<bool>, used': seq<bool>, nodes: seq<Node>, n: nat, c: nat) {
    |used'| == |used| && forall a: nat :: FreedAt(used, used', nodes, n, c, a)
  }

  lemma {:induction false} FreedMore(used: seq<bool>, used': seq<bool>, nodes: seq<Node>, n: nat, c: nat, m: nat)
    requires TreeOk(used, nodes) && n < NNODE && used[n] && c < nodes[n].depth && Freed(used, used', nodes, n, c)
    requires m == Up(nodes, n, c) && m < |nodes| && nodes[m].cnt == 0
    ensures Freed(used, used'[m := false], nodes, n, c + 1)
  {
    UpUsed(used, nodes, n, c);
    assert NodeOk(used, nodes, m);
    var c1, u := c + 1, used'[m := false];
    forall a: nat ensures FreedAt(used, u, nodes, n, c1, a) { assert FreedAt(used, used', nodes, n, c, a); }
  }

  /** Above a namespace that is not empty none is. */
  lemma {:induction false} AboveFull(used: seq<bool>, nodes: seq<Node>, n: nat, m: nat, a: nat)
    requires TreeOk(used, nodes) && Zeros(used, nodes, n) && m < NNODE && used[m] && nodes[m].cnt > 0
    requires Heir(nodes, m, a)
    ensures nodes[a].cnt > 0
    decreases nodes[m].depth
  {
    assert NodeOk(used, nodes, m) && ZeroAt(used, nodes, n, m);
    if m != a {
      HeirStep(used, nodes, m, a);
      AboveFull(used, nodes, n, nodes[m].head, a);
    }
  }

  /** When the loop of clean_node stops, exactly the empty namespaces other than the root are gone. */
  lemma {:induction false} FreedAll(used: seq<bool>, used': seq<bool>, nodes: seq<Node>, n: nat, c: nat, a: nat)
    requires TreeOk(used, nodes) && Zeros(used, nodes, n) && n < NNODE && used[n] && c <= nodes[n].depth
    requires Freed(used, used', nodes, n, c)
    requires Up(nodes, n, c) < NNODE && (nodes[Up(nodes, n, c)].depth == 0 || nodes[Up(nodes, n, c)].cnt != 0)
    ensures a < NNODE ==> (used'[a] <==> used[a] && (a == ROOT || nodes[a].cnt > 0))
  {
    var m := Up(nodes, n, c);
    UpUsed(used, nodes, n, c);
    assert FreedAt(used, used', nodes, n, c, a) && ZeroAt(used, nodes, n, a) && ZeroAt(used, nodes, n, m);
    assert NodeOk(used, nodes, a);
    if a < NNODE && used[a] && a != ROOT && Heir(nodes, n, a) && nodes[n].depth - nodes[a].depth >= c {
      HeirSelf(nodes, m);
      AboveNested(used, nodes, n, m, a);
      if nodes[m].depth > 0 { AboveFull(used, nodes, n, m, a); }
    }
  }

  class Procs {
    var used: seq<bool>
    var nodes: seq<Node>
    var procs: seq<Proc>

    ghost function View(): State
      reads this
    {
      State(used, nodes, procs)
    }

    ghost predicate Valid()
      reads this
    {
      Inv(View())
    }

    /** is_heir: whether namespace one lies in namespace other. */
    method IsHeir(one: nat, other: nat) returns (r: bool)
      requires TreeOk(used, nodes) && one < NNODE && used[one] && other < NNODE && used[other]
      ensures r <==> Heir(nodes, one, other)
    {
      var local := one;
      assert NodeOk(used, nodes, local);
      while nodes[local].depth > 0
        invariant 0 <= local < NNODE && used[local] && (Heir(nodes, one, other) <==> Heir(nodes, local, other))
        decreases nodes[local].depth
      {
        assert NodeOk(used, nodes, local);
        HeirStep(used, nodes, local, other);
        if local == other {
          return true;
        }
        local := nodes[local].head;
      }
      return local == other;
    }

    /** namespace_malloc: the first node not in use, or NIL. */
    method NamespaceMalloc() returns (m: nat)
      requires |used| == NNODE
      modifies this`used
      ensures m <= NNODE == 64 && (forall k :: 0 <= k < m ==> old(used)[k])
      ensures m < NNODE ==> !old(used)[m] && used == old(used)[m := true]
      ensures m == NNODE ==> used == old(used)
    {
      m := 0;
      while m < NNODE
        invariant m <= NNODE && used == old(used) && forall k :: 0 <= k < m ==> used[k]
      {
        if !used[m] {
          used := used[m := true];
          return;
        }
        m := m + 1;
      }
    }

    /** namespace_free. */
    method NamespaceFree(node: nat)
      requires |used| == NNODE && node < NNODE
      modifies this`used
      ensures used == old(used)[node := false]
    {
      var i := 0;
      while i < NNODE
        invariant 0 <= i <= NNODE && used == if node < i then old(used)[node := false] else old(used)
      {
        if i == node {
          used := used[i := false];
        }
        i := i + 1;
      }
    }

    /** clean_node: releases exactly the empty namespaces. */
    method CleanNode(n: nat)
      requires TreeOk(used, nodes) && Zeros(used, nodes, n) && n < NNODE && used[n]
      modifies this`used
      ensures |used| == NNODE
      ensures forall a: nat :: a < NNODE ==> (used[a] <==> old(used)[a] && (a == ROOT || nodes[a].cnt > 0))
    {
      ghost var used0 := used;
      ghost var c: nat := 0;
      var node := n;
      assert NodeOk(used, nodes, n);
      while nodes[node].depth != 0 && nodes[node].cnt == 0
        invariant c <= nodes[n].depth && node == Up(nodes, n, c) && node < NNODE
        invariant nodes[node].depth == nodes[n].depth - c
        invariant Freed(used0, used, nodes, n, c)
        decreases nodes[node].depth
      {
        UpOne(used0, nodes, n, c);
        UpUsed(used0, nodes, n, c + 1);
        FreedMore(used0, used, nodes, n, c, node);
        var forDelete := node;
        node := nodes[node].head;
        NamespaceFree(forDelete);
        c := c + 1;
      }
      forall a: nat | a < NNODE ensures used[a] <==> used0[a] && (a == ROOT || nodes[a].cnt > 0) {
        FreedAll(used0, used, nodes, n, c, a);
      }
    }

    /** The loop shared by fork and clone: count the child in and give it the next pid all the way up from n. */
    method Enter(n: nat, pids: seq<nat>) returns (pids': seq<nat>)
      requires TreeOk(used, nodes) && n < NNODE && used[n] && |pids| == MAXDEPTH
      modifies this`nodes
      ensures Bumped(old(nodes), nodes, n, 1, 1) && |pids'| == MAXDEPTH
      ensures forall d: nat :: PidAt(old(nodes), n, pids', d)
    {
      ghost var nodes0 := nodes;
      ghost var c: nat := 0;
      assert NodeOk(used, nodes, n);
      var i, local := nodes[n].depth as int, n;
      pids' := pids;
      while i >= 0
        invariant -1 <= i && c == nodes0[n].depth - i && c <= nodes0[n].depth + 1 && |pids'| == MAXDEPTH
        invariant i >= 0 ==> local == Up(nodes0, n, c)
        invariant Part(nodes0, nodes, n, c, 1, 1)
        invariant forall d: nat :: d > i ==> PidAt(nodes0, n, pids', d)
      {
        PartNext(used, nodes0, nodes, n, c, 1, 1);
        ghost var nodes1 := nodes;
        nodes := nodes[local := nodes[local].(cnt := nodes[local].cnt + 1, last := nodes[local].last + 1)];
        PartMore(used, nodes0, nodes1, n, c, 1, 1, local, nodes);
        ghost var pids1 := pids';
        pids' := pids'[nodes[local].depth := nodes[local].last - 1];
        forall d: nat | d > i - 1 ensures PidAt(nodes0, n, pids', d) {
          if d > i { assert PidAt(nodes0, n, pids1, d); }
        }
        local := nodes[local].head;
        i, c := i - 1, c + 1;
      }
      PartWhole(nodes0, nodes, n, 1, 1);
    }

    /** The loop of exit: count the process out all the way up from n. */
    method Leave(n: nat)
      requires TreeOk(used, nodes) && n < NNODE && used[n]
      modifies this`nodes
      ensures Bumped(old(nodes), nodes, n, -1, 0)
    {
      ghost var nodes0 := nodes;
      ghost var c: nat := 0;
      assert NodeOk(used, nodes, n);
      var i, local := nodes[n].depth as int, n;
      while i >= 0
        invariant -1 <= i && c == nodes0[n].depth - i && c <= nodes0[n].depth + 1
        invariant i >= 0 ==> local == Up(nodes0, n, c)
        invariant Part(nodes0, nodes, n, c, -1, 0)
      {
        PartNext(used, nodes0, nodes, n, c, -1, 0);
        ghost var nodes1 := nodes;
        nodes := nodes[local := nodes[local].(cnt := nodes[local].cnt - 1)];
        PartMore(used, nodes0, nodes1, n, c, -1, 0, local, nodes);
        local := nodes[local].head;
        i, c := i - 1, c + 1;
      }
      PartWhole(nodes0, nodes, n, -1, 0);
    }

    /** fork of p into the unused slot np, as far as namespaces go. */
    method Fork(p: nat, np: nat) returns (ghost pids: seq<nat>)
      requires Valid() && LiveAt(View(), p) && np < NPROC && procs[np].status == Unused
      modifies this
      ensures Valid() && Forked(old(View()), View(), p, np, pids)
      ensures used == old(used) && procs == old(procs)[np := Proc(Live, old(procs)[p].node, pids, p)]
      ensures forall a: nat :: CountedInAt(old(nodes), nodes, old(procs)[p].node, pids, a)
    {
      ghost var s := View();
      assert HomeOk(s, p);
      var n := procs[p].node;
      var pids' := Enter(n, procs[np].pids);
      pids := pids';
      procs := procs[np := Proc(Live, n, pids', p)];
      ForkInv(s, View(), p, np, pids);
      ForkMeans(s, View(), p, np, pids);
    }

    ghost function Depth(n: nat): nat
      reads this
    {
      if n < |nodes| then nodes[n].depth else 0
    }

    /**
     * clone of p into the unused slot np. It faults exactly if no node is free (a write through a null node) or
     * the parent is seven levels deep (a write past the array of pids); the source checks neither.
     */
    method Clone(p: nat, np: nat) returns (faulted: bool, ghost m: nat, ghost pids: seq<nat>)
      requires Valid() && LiveAt(View(), p) && np < NPROC && procs[np].status == Unused
      modifies this
      ensures faulted <==> false !in old(used) || old(Depth(procs[p].node)) + 1 >= 8
      ensures !faulted ==> Valid() && Cloned(old(View()), View(), p, np, m, pids)
      ensures !faulted ==> && m < NNODE && !old(used)[m] && used == old(used)[m := true]
                           && procs == old(procs)[np := Proc(Live, m, pids, p)]
                           && nodes[m] == Node(1, 2, np, old(procs)[p].node, old(Depth(procs[p].node)) + 1)
    {
      ghost var s := View();
      assert HomeOk(s, p);
      pids := [];
      var h := procs[p].node;
      var node := NamespaceMalloc();
      m := node;
      faulted := node == NNODE || nodes[h].depth + 1 >= MAXDEPTH;
      if faulted {
        return;
      }
      nodes := nodes[node := Node(0, 1, np, h, nodes[h].depth + 1)];
      assert View() == WithNode(s, node, h, np);
      AddTree(s, node, h, np);
      var pids' := Enter(node, procs[np].pids);
      pids := pids';
      procs := procs[np := Proc(Live, node, pids', p)];
      CloneInv(s, View(), p, np, m, pids);
      CloneMeans(s, View(), p, np, m, pids);
    }

    /** reparent, first part: the init of the nearest namespace around p that still has one. */
    method FindInit(n: nat, ghost used0: seq<bool>) returns (r: nat)
      requires TreeOk(used0, nodes) && n < NNODE && used0[n] && nodes[ROOT].init == INIT
      ensures exists k: nat :: k <= nodes[n].depth && NearestInit(nodes, n, k, r)
    {
      r := INIT;
      var local := n;
      ghost var k: nat := 0;
      assert NodeOk(used0, nodes, n);
      while local != NIL
        invariant k <= nodes[n].depth && local == Up(nodes, n, k) && local < NNODE && r == INIT
        invariant forall j: nat :: j < k ==> InitGone(nodes, n, j)
        decreases nodes[n].depth - k
      {
        if nodes[local].init != NIL {
          r := nodes[local].init;
          assert NearestInit(nodes, n, k, r);
          return;
        }
        UpUsed(used0, nodes, n, k);
        assert NodeOk(used0, nodes, local) && InitGone(nodes, n, k);
        UpOne(used0, nodes, n, k);
        UpUsed(used0, nodes, n, k + 1);
        local := nodes[local].head;
        k := k + 1;
      }
    }

    /** reparent, second part: hand the children of p over to r. */
    method HandOver(p: nat, r: nat)
      requires |procs| == NPROC
      modifies this`procs
      ensures |procs| == NPROC
      ensures forall i :: 0 <= i < NPROC ==>
                procs[i] == old(procs)[i].(parent := if old(procs)[i].parent == p then r else old(procs)[i].parent)
    {
      var i := 0;
      while i < NPROC
        invariant 0 <= i <= NPROC && |procs| == NPROC
        invariant forall j :: 0 <= j < i ==>
                    procs[j] == old(procs)[j].(parent := if old(procs)[j].parent == p then r else old(procs)[j].parent)
        invariant forall j :: i <= j < NPROC ==> procs[j] == old(procs)[j]
      {
        if procs[i].parent == p {
          procs := procs[i := procs[i].(parent := r)];
        }
        i := i + 1;
      }
    }

    /** reparent: children of p get the init of the nearest namespace that still has one. */
    method Reparent(p: nat, n: nat, ghost used0: seq<bool>) returns (ghost r: nat, ghost k: nat)
      requires TreeOk(used0, nodes) && n < NNODE && used0[n] && nodes[ROOT].init == INIT && p != INIT
      requires |procs| == NPROC
      modifies this`nodes, this`procs
      ensures nodes == (if old(nodes)[n].init == p then old(nodes)[n := old(nodes)[n].(init := NIL)] else old(nodes))
      ensures k <= old(nodes)[n].depth && NearestInit(nodes, n, k, r) && |procs| == NPROC == 64
      ensures Up(nodes, n, k) < NNODE && nodes[Up(nodes, n, k)].init == r && r != NIL
      ensures forall j: nat :: j < k ==> Up(nodes, n, j) < NNODE && nodes[Up(nodes, n, j)].init == NIL
      ensures forall i :: 0 <= i < NPROC ==>
                procs[i] == old(procs)[i].(parent := if old(procs)[i].parent == p then r else old(procs)[i].parent)
    {
      if nodes[n].init == p {
        nodes := nodes[n := nodes[n].(init := NIL)];
        ClearedTree(used0, old(nodes), nodes, n);
      }
      var newInit := FindInit(n, used0);
      k :| k <= nodes[n].depth && NearestInit(nodes, n, k, newInit);
      r := newInit;
      forall j: nat | j < k ensures Up(nodes, n, j) < NNODE && nodes[Up(nodes, n, j)].init == NIL {
        assert InitGone(nodes, n, j);
      }
      HandOver(p, newInit);
    }

    /** exit of p; the first process may not exit. */
    method Exit(p: nat) returns (ghost nodes1: seq<Node>, ghost k: nat, ghost r: nat)
      requires Valid() && LiveAt(View(), p) && p != INIT
      modifies this
      ensures Valid() && Exited(old(View()), View(), p, nodes1, k, r)
      ensures NearestOther(old(View()), p, k, r) && |procs| == NPROC && procs[p].status == Zombie
      ensures forall i :: 0 <= i < NPROC && i != p ==>
                procs[i] == old(procs)[i].(parent := if old(procs)[i].parent == p then r else old(procs)[i].parent)
    {
      ghost var s := View();
      assert HomeOk(s, p);
      var n := procs[p].node;
      Leave(n);
      nodes1 := nodes;
      BumpedTree(used, s.nodes, nodes1, n, -1, 0);
      ExitZeros(s, p, nodes1);
      CleanNode(n);
      assert BumpedAt(s.nodes, nodes1, n, ROOT, -1, 0);
      r, k := Reparent(p, n, s.used);
      procs := procs[p := procs[p].(status := Zombie)];
      assert BumpedAt(s.nodes, nodes1, n, n, -1, 0);
      ExitIs(s, View(), p, nodes1, k, r);
      ExitInv(s, View(), p, nodes1, k, r);
      OrphansAdopted(s, View(), p, nodes1, k, r);
    }
  }

  lemma {:induction false} ClearedTree(used: seq<bool>, nodes: seq<Node>, nodes': seq<Node>, n: nat)
    requires TreeOk(used, nodes) && n < NNODE && nodes' == nodes[n := nodes[n].(init := NIL)]
    ensures TreeOk(used, nodes')
  {
    forall a: nat ensures NodeOk(used, nodes', a) { assert NodeOk(used, nodes, a); }
  }

  /** Once p has been counted out, only namespaces around it can be empty. */
  lemma {:induction false} ExitZeros(s: State, p: nat, nodes1: seq<Node>)
    requires Inv(s) && LiveAt(s, p) && UsedAt(s, s.procs[p].node) && Bumped(s.nodes, nodes1, s.procs[p].node, -1, 0)
    ensures Zeros(s.used, nodes1, s.procs[p].node)
  {
    var n := s.procs[p].node;
    BumpedTree(s.used, s.nodes, nodes1, n, -1, 0);
    forall a: nat ensures ZeroAt(s.used, nodes1, n, a) {
      if UsedAt(s, a) {
        assert NodeOk(s.used, s.nodes, a) && NeededOk(s, a) && BumpedAt(s.nodes, nodes1, n, a, -1, 0);
        CountedOut(s, p, nodes1, a);
        HeirSame(s.used, s.nodes, nodes1, n, a);
        if a != ROOT {
          var h := s.nodes[a].head;
          CountedOut(s, p, nodes1, h);
          HeirStep(s.used, s.nodes, a, h);
          HeirSelf(s.nodes, h);
          WithoutHomes(s, p);
          CountUp(s, Without(s, p), a, h);
        }
      }
    }
  }

  lemma {:induction false} CountedOut(s: State, p: nat, nodes1: seq<Node>, a: nat)
    requires Inv(s) && LiveAt(s, p) && UsedAt(s, s.procs[p].node) && Bumped(s.nodes, nodes1, s.procs[p].node, -1, 0)
    requires UsedAt(s, a)
    ensures nodes1[a].cnt == Count(s.nodes, Without(s, p), a)
  {
    assert BumpedAt(s.nodes, nodes1, s.procs[p].node, a, -1, 0) && CountOk(s, a);
    CountSet(s.nodes, s.procs, a, p, s.procs[p].(status := Zombie));
  }

  lemma {:induction false} ExitIs(s: State, s': State, p: nat, nodes1: seq<Node>, k: nat, r: nat)
    requires Inv(s) && LiveAt(s, p) && p != INIT && UsedAt(s, s.procs[p].node)
    requires Bumped(s.nodes, nodes1, s.procs[p].node, -1, 0)
    requires var n := s.procs[p].node;
             && s'.nodes == (if nodes1[n].init == p then nodes1[n := nodes1[n].(init := NIL)] else nodes1)
             && k <= s.nodes[n].depth && NearestInit(s'.nodes, n, k, r)
    requires |s'.used| == NNODE
    requires forall a: nat :: a < NNODE ==> (s'.used[a] <==> s.used[a] && (a == ROOT || nodes1[a].cnt > 0))
    requires |s'.procs| == NPROC && forall i :: 0 <= i < NPROC ==> s'.procs[i] == AfterDeath(s.procs[i], i, p, r)
    ensures Exited(s, s', p, nodes1, k, r)
  {
    forall a: nat ensures ReleasedAt(s, s', nodes1, a) { }
    forall i: nat ensures DeathAt(s, s', p, r, i) { }
  }

  // ----- whole runs -----------------------------------------------------------------------------------------

  /** After userinit. */
  ghost predicate Booted(s: State) {
    && Sizes(s) && s.used[ROOT] && (forall n: nat :: 0 < n < NNODE ==> !s.used[n])
    && s.nodes[ROOT] == Node(1, 2, INIT, NIL, 0)
    && s.procs[INIT].status == Live && s.procs[INIT].node == ROOT && s.procs[INIT].pids[0] == 1
    && forall i: nat :: 0 < i < NPROC ==> s.procs[i].status == Unused
  }

  lemma {:induction false} BootInv(s: State)
    requires Booted(s)
    ensures Inv(s)
  {
    HeirSelf(s.nodes, ROOT);
    OnlyFirst(s.nodes, s.procs, NPROC);
    assert s.procs[..NPROC] == s.procs;
    forall n: nat ensures NodeOk(s.used, s.nodes, n) { }
  }

  lemma {:induction false} OnlyFirst(nodes: seq<Node>, procs: seq<Proc>, n: nat)
    requires 0 < n <= |procs| && Inside(nodes, procs[0], ROOT)
    requires forall i: nat :: 0 < i < n ==> procs[i].status == Unused
    ensures Count(nodes, procs[..n], ROOT) == 1
  {
    assert procs[..n][..n - 1] == procs[..n - 1];
    if n > 1 { OnlyFirst(nodes, procs, n - 1); }
  }

  datatype Step =
    | ForkStep(p: nat, np: nat, pids: seq<nat>)
    | CloneStep(p: nat, np: nat, m: nat, pids: seq<nat>)
    | ExitStep(p: nat, nodes1: seq<Node>, k: nat, r: nat)
    | ReapStep(z: nat)

  /** The reaping end of wait: a zombie's slot becomes free. */
  ghost predicate Reaped(s: State, s': State, z: nat) {
    && z < |s.procs| && s.procs[z].status == Zombie
    && s' == s.(procs := s.procs[z := s.procs[z].(status := Unused, parent := NIL)])
  }

  ghost predicate Next(s: State, step: Step, s': State) {
    match step
    case ForkStep(p, np, pids) => Forked(s, s', p, np, pids)
    case CloneStep(p, np, m, pids) => Cloned(s, s', p, np, m, pids)
    case ExitStep(p, nodes1, k, r) => Exited(s, s', p, nodes1, k, r)
    case ReapStep(z) => Reaped(s, s', z)
  }

  lemma {:induction false} ReapInv(s: State, s': State, z: nat)
    requires Inv(s) && Reaped(s, s', z)
    ensures Inv(s')
  {
    forall a: nat ensures CountOk(s', a) && LastOk(s', a) && NeededOk(s', a) && InitOk(s', a) {
      assert CountOk(s, a) && LastOk(s, a) && NeededOk(s, a) && InitOk(s, a);
      CountSet(s.nodes, s.procs, a, z, s'.procs[z]);
    }
    forall i: nat ensures HomeOk(s', i) && ParentOk(s', i) { assert HomeOk(s, i) && ParentOk(s, i); }
    forall i: nat, a: nat ensures PidOk(s', i, a) { assert PidOk(s, i, a); }
    forall i: nat, j: nat, a: nat ensures PidsDiffer(s', i, j, a) { assert PidsDiffer(s, i, j, a); }
  }

  ghost predicate Run(run: seq<State>, steps: seq<Step>) {
    |run| == |steps| + 1 && Booted(run[0]) && forall i :: 0 <= i < |steps| ==> Next(run[i], steps[i], run[i + 1])
  }

  /** Every state of every run of fork, clone, exit and wait satisfies the invariant. */
  lemma {:induction false} RunKeepsInv(run: seq<State>, steps: seq<Step>, i: nat)
    requires Run(run, steps) && i < |run|
    ensures Inv(run[i])
  {
    if i == 0 {
      BootInv(run[0]);
    } else {
      RunKeepsInv(run, steps, i - 1);
      var s, s' := run[i - 1], run[i];
      match steps[i - 1]
      case ForkStep(p, np, pids) => ForkInv(s, s', p, np, pids);
      case CloneStep(p, np, m, pids) => CloneInv(s, s', p, np, m, pids);
      case ExitStep(p, nodes1, k, r) => ExitInv(s, s', p, nodes1, k, r);
      case ReapStep(z) => ReapInv(s, s', z);
    }
  }
}
