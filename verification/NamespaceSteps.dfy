/** What fork, clone and exit do to the namespaces, and what every run of them keeps. */
module NamespaceSteps {
  import opened NamespaceTree

  // ----- the invariant -----------------------------------------------------------------------------------

  ghost predicate LiveAt(s: State, i: nat) { i < |s.procs| && s.procs[i].status == Live }

  ghost predicate UsedAt(s: State, a: nat) { a < |s.used| && a < |s.nodes| && s.used[a] }

  /** A non-exited process is in a namespace in use. */
  ghost predicate HomeOk(s: State, i: nat) { LiveAt(s, i) ==> UsedAt(s, s.procs[i].node) }

  /** cnt_proc is the number of non-exited processes at or below the node. */
  ghost predicate CountOk(s: State, a: nat) { UsedAt(s, a) ==> s.nodes[a].cnt == Count(s.nodes, s.procs, a) }

  /** In every namespace around it a process has a pid the namespace has already handed out. */
  ghost predicate PidOk(s: State, i: nat, a: nat)
    requires Sizes(s)
  {
    LiveAt(s, i) && UsedAt(s, a) && Heir(s.nodes, s.procs[i].node, a) && s.nodes[a].depth < MAXDEPTH ==>
      0 < s.procs[i].pids[s.nodes[a].depth] < s.nodes[a].last
  }

  /** Two processes never share a pid in a namespace that holds both. */
  ghost predicate PidsDiffer(s: State, i: nat, j: nat, a: nat)
    requires Sizes(s)
  {
    LiveAt(s, i) && LiveAt(s, j) && i != j && UsedAt(s, a) && s.nodes[a].depth < MAXDEPTH
    && Heir(s.nodes, s.procs[i].node, a) && Heir(s.nodes, s.procs[j].node, a) ==>
      s.procs[i].pids[s.nodes[a].depth] != s.procs[j].pids[s.nodes[a].depth]
  }

  /** last_pid starts at 1. */
  ghost predicate LastOk(s: State, a: nat) { UsedAt(s, a) ==> s.nodes[a].last > 0 }

  ghost predicate Core(s: State) {
    && Sizes(s) && TreeOk(s.used, s.nodes) && (forall a: nat :: LastOk(s, a))
    && (forall i: nat :: HomeOk(s, i)) && (forall a: nat :: CountOk(s, a))
    && (forall i: nat, a: nat :: PidOk(s, i, a)) && (forall i: nat, j: nat, a: nat :: PidsDiffer(s, i, j, a))
  }

  /** A namespace other than the root is in use only while it has processes. */
  ghost predicate NeededOk(s: State, a: nat) { UsedAt(s, a) && a != ROOT ==> s.nodes[a].cnt > 0 }

  /** The init of a namespace, if it still has one, is a non-exited process in it. */
  ghost predicate InitOk(s: State, a: nat) {
    UsedAt(s, a) && s.nodes[a].init != NIL ==> LiveAt(s, s.nodes[a].init) && s.procs[s.nodes[a].init].node == a
  }

  /** Every non-exited process but the first has a non-exited parent. */
  ghost predicate ParentOk(s: State, i: nat) { LiveAt(s, i) && i != INIT ==> LiveAt(s, s.procs[i].parent) }

  ghost predicate FirstOk(s: State) {
    LiveAt(s, INIT) && UsedAt(s, ROOT) && s.procs[INIT].node == ROOT && s.nodes[ROOT].init == INIT
  }

  ghost predicate Inv(s: State) {
    && Core(s) && FirstOk(s) && (forall a: nat :: NeededOk(s, a)) && (forall a: nat :: InitOk(s, a))
    && (forall i: nat :: ParentOk(s, i))
  }

  // ----- a process joins a namespace ----------------------------------------------------------------------

  /** On the path from n to the root cnt_proc changes by dc and last_pid by dl; other nodes stay. */
  ghost predicate BumpedAt(nodes: seq<Node>, nodes': seq<Node>, n: nat, a: nat, dc: int, dl: nat) {
    a < |nodes| && a < |nodes'| ==>
      nodes'[a] ==
        if Heir(nodes, n, a) then nodes[a].(cnt := nodes[a].cnt + dc, last := nodes[a].last + dl) else nodes[a]
  }

  ghost predicate Bumped(nodes: seq<Node>, nodes': seq<Node>, n: nat, dc: int, dl: nat) {
    |nodes'| == |nodes| && forall a: nat :: BumpedAt(nodes, nodes', n, a, dc, dl)
  }

  /** In the namespace at depth d around n the pid is the next one there. */
  ghost predicate PidAt(nodes: seq<Node>, n: nat, pids: seq<nat>, d: nat)
    requires n < |nodes|
  {
    d <= nodes[n].depth ==> d < |pids| && Up(nodes, n, nodes[n].depth - d) < |nodes|
                            && pids[d] == nodes[Up(nodes, n, nodes[n].depth - d)].last
  }

  /** Process np starts in namespace n with fresh pids. */
  ghost predicate Joined(s: State, s': State, np: nat, n: nat, parent: nat, pids: seq<nat>) {
    && np < |s.procs| && n < |s.nodes| && s'.used == s.used && Bumped(s.nodes, s'.nodes, n, 1, 1)
    && s'.procs == s.procs[np := Proc(Live, n, pids, parent)] && |pids| == MAXDEPTH
    && forall d: nat :: PidAt(s.nodes, n, pids, d)
  }

  lemma {:induction false} BumpedTree(used: seq<bool>, nodes: seq<Node>, nodes': seq<Node>, n: nat, dc: int, dl: nat)
    requires TreeOk(used, nodes) && Bumped(nodes, nodes', n, dc, dl)
    ensures TreeOk(used, nodes') && SameTree(used, nodes, nodes')
  {
    forall a: nat ensures NodeOk(used, nodes', a) {
      assert NodeOk(used, nodes, a) && BumpedAt(nodes, nodes', n, a, dc, dl);
      if a < NNODE && used[a] && a != ROOT { assert BumpedAt(nodes, nodes', n, nodes[a].head, dc, dl); }
    }
    forall a: nat | a < |used| && used[a] ensures SamePlace(nodes, nodes', a) {
      assert BumpedAt(nodes, nodes', n, a, dc, dl);
    }
  }

  /** In the joined namespaces the new pid is the old last_pid. */
  lemma {:induction false} JoinPid(s: State, s': State, np: nat, n: nat, parent: nat, pids: seq<nat>, a: nat)
    requires Core(s) && Joined(s, s', np, n, parent, pids) && UsedAt(s, n) && UsedAt(s, a) && Heir(s.nodes, n, a)
    ensures s.nodes[a].depth < MAXDEPTH && pids[s.nodes[a].depth] == s.nodes[a].last
  {
    assert NodeOk(s.used, s.nodes, a) && PidAt(s.nodes, n, pids, s.nodes[a].depth);
  }

  lemma {:induction false} JoinHeir(s: State, s': State, np: nat, n: nat, parent: nat, pids: seq<nat>, i: nat, a: nat)
    requires Core(s) && Joined(s, s', np, n, parent, pids) && UsedAt(s, n) && LiveAt(s', i) && UsedAt(s, a)
    ensures UsedAt(s, s'.procs[i].node) && (Heir(s'.nodes, s'.procs[i].node, a) <==> Heir(s.nodes, s'.procs[i].node, a))
    ensures s'.nodes[a].depth == s.nodes[a].depth && s'.nodes[a].depth < MAXDEPTH
    ensures s'.nodes[a].last == s.nodes[a].last + if Heir(s.nodes, n, a) then 1 else 0
    ensures i != np ==> s'.procs[i] == s.procs[i] && LiveAt(s, i)
  {
    BumpedTree(s.used, s.nodes, s'.nodes, n, 1, 1);
    assert HomeOk(s, i) && BumpedAt(s.nodes, s'.nodes, n, a, 1, 1) && NodeOk(s.used, s.nodes, a);
    HeirSame(s.used, s.nodes, s'.nodes, s'.procs[i].node, a);
  }

  lemma {:induction false} JoinCount(s: State, s': State, np: nat, n: nat, parent: nat, pids: seq<nat>, a: nat)
    requires Core(s) && Joined(s, s', np, n, parent, pids) && UsedAt(s, n) && !LiveAt(s, np)
    ensures CountOk(s', a)
  {
    if UsedAt(s, a) {
      BumpedTree(s.used, s.nodes, s'.nodes, n, 1, 1);
      assert BumpedAt(s.nodes, s'.nodes, n, a, 1, 1) && CountOk(s, a);
      CountSet(s.nodes, s.procs, a, np, Proc(Live, n, pids, parent));
      forall i: nat | i < NPROC ensures Inside(s.nodes, s'.procs[i], a) <==> Inside(s'.nodes, s'.procs[i], a) {
        if LiveAt(s', i) { JoinHeir(s, s', np, n, parent, pids, i, a); }
      }
      CountMore(s.nodes, s'.procs, a, s'.nodes, s'.procs, a);
      CountMore(s'.nodes, s'.procs, a, s.nodes, s'.procs, a);
    }
  }

  lemma {:induction false} JoinPidOk(s: State, s': State, np: nat, n: nat, parent: nat, pids: seq<nat>, i: nat, a: nat)
    requires Core(s) && Joined(s, s', np, n, parent, pids) && UsedAt(s, n) && !LiveAt(s, np) && Sizes(s')
    ensures PidOk(s', i, a)
  {
    if LiveAt(s', i) && UsedAt(s, a) {
      JoinHeir(s, s', np, n, parent, pids, i, a);
      if i == np {
        if Heir(s.nodes, n, a) { JoinPid(s, s', np, n, parent, pids, a); }
        assert LastOk(s, a);
      } else {
        assert PidOk(s, i, a);
      }
    }
  }

  lemma {:induction false} JoinDiffer(
    s: State, s': State, np: nat, n: nat, parent: nat, pids: seq<nat>, i: nat, j: nat, a: nat)
    requires Core(s) && Joined(s, s', np, n, parent, pids) && UsedAt(s, n) && !LiveAt(s, np) && Sizes(s')
    ensures PidsDiffer(s', i, j, a)
  {
    if LiveAt(s', i) && LiveAt(s', j) && UsedAt(s, a) {
      JoinHeir(s, s', np, n, parent, pids, i, a);
      JoinHeir(s, s', np, n, parent, pids, j, a);
      assert PidsDiffer(s, i, j, a) && PidOk(s, i, a) && PidOk(s, j, a);
      if Heir(s.nodes, n, a) { JoinPid(s, s', np, n, parent, pids, a); }
    }
  }

  /** Joining a namespace keeps the core of the invariant. */
  lemma {:induction false} JoinCore(s: State, s': State, np: nat, n: nat, parent: nat, pids: seq<nat>)
    requires Core(s) && Joined(s, s', np, n, parent, pids) && UsedAt(s, n) && !LiveAt(s, np)
    ensures Core(s')
  {
    BumpedTree(s.used, s.nodes, s'.nodes, n, 1, 1);
    forall i: nat ensures HomeOk(s', i) { assert HomeOk(s, i); }
    forall a: nat ensures CountOk(s', a) { JoinCount(s, s', np, n, parent, pids, a); }
    forall i: nat, a: nat ensures PidOk(s', i, a) { JoinPidOk(s, s', np, n, parent, pids, i, a); }
    forall i: nat, j: nat, a: nat ensures PidsDiffer(s', i, j, a) { JoinDiffer(s, s', np, n, parent, pids, i, j, a); }
    forall a: nat ensures LastOk(s', a) { assert LastOk(s, a) && BumpedAt(s.nodes, s'.nodes, n, a, 1, 1); }
  }

  // ----- fork and clone --------------------------------------------------------------------------------------

  /** fork: the child np joins the namespace of p. */
  ghost predicate Forked(s: State, s': State, p: nat, np: nat, pids: seq<nat>) {
    LiveAt(s, p) && np < |s.procs| && s.procs[np].status == Unused && Joined(s, s', np, s.procs[p].node, p, pids)
  }

  lemma {:induction false} JoinRest(s: State, s': State, np: nat, n: nat, p: nat, pids: seq<nat>)
    requires Core(s) && Core(s') && Joined(s, s', np, n, p, pids) && UsedAt(s, n) && !LiveAt(s, np) && LiveAt(s, p)
    requires FirstOk(s) && forall i: nat :: ParentOk(s, i)
    ensures FirstOk(s') && forall i: nat :: ParentOk(s', i)
  {
    assert BumpedAt(s.nodes, s'.nodes, n, ROOT, 1, 1);
    forall i: nat ensures ParentOk(s', i) { assert ParentOk(s, i); }
  }

  lemma {:induction false} ForkInv(s: State, s': State, p: nat, np: nat, pids: seq<nat>)
    requires Inv(s) && Forked(s, s', p, np, pids)
    ensures Inv(s')
  {
    var n := s.procs[p].node;
    assert HomeOk(s, p);
    JoinCore(s, s', np, n, p, pids);
    JoinRest(s, s', np, n, p, pids);
    forall a: nat ensures NeededOk(s', a) && InitOk(s', a) {
      assert NeededOk(s, a) && InitOk(s, a) && BumpedAt(s.nodes, s'.nodes, n, a, 1, 1);
    }
  }

  /** clone's new namespace m below the one of p, before anyone is in it. */
  ghost function WithNode(s: State, m: nat, h: nat, np: nat): State
    requires m < |s.used| && m < |s.nodes| && h < |s.nodes|
  {
    s.(used := s.used[m := true], nodes := s.nodes[m := Node(0, 1, np, h, s.nodes[h].depth + 1)])
  }

  ghost predicate CanAdd(s: State, m: nat, h: nat) {
    Core(s) && m < NNODE && !s.used[m] && UsedAt(s, h) && s.nodes[h].depth + 1 < MAXDEPTH
  }

  lemma {:induction false} AddTree(s: State, m: nat, h: nat, np: nat)
    requires CanAdd(s, m, h)
    ensures SameTree(s.used, s.nodes, WithNode(s, m, h, np).nodes)
    ensures TreeOk(WithNode(s, m, h, np).used, WithNode(s, m, h, np).nodes)
  {
    var s' := WithNode(s, m, h, np);
    forall n: nat | n < NNODE && s.used[n] ensures SamePlace(s.nodes, s'.nodes, n) { }
    forall n: nat ensures NodeOk(s'.used, s'.nodes, n) {
      assert NodeOk(s.used, s.nodes, n) && NodeOk(s.used, s.nodes, h);
    }
  }

  /** For processes that exist already nothing changes; none of them is in the new namespace. */
  lemma {:induction false} AddHeir(s: State, m: nat, h: nat, np: nat, i: nat, a: nat)
    requires CanAdd(s, m, h) && LiveAt(s, i) && a < NNODE && (a == m || s.used[a])
    ensures Heir(WithNode(s, m, h, np).nodes, s.procs[i].node, a) <==> a != m && Heir(s.nodes, s.procs[i].node, a)
  {
    AddTree(s, m, h, np);
    var s', n := WithNode(s, m, h, np), s.procs[i].node;
    assert HomeOk(s, i);
    if a == m {
      var d := s.nodes[h].depth + 1;
      if d <= s.nodes[n].depth {
        UpSame(s.used, s.nodes, s'.nodes, n, s.nodes[n].depth - d);
        UpUsed(s.used, s.nodes, n, s.nodes[n].depth - d);
      }
    } else {
      HeirSame(s.used, s.nodes, s'.nodes, n, a);
    }
  }

  lemma {:induction false} NoneInside(nodes: seq<Node>, procs: seq<Proc>, a: nat)
    requires forall i: nat :: i < |procs| ==> !Inside(nodes, procs[i], a)
    ensures Count(nodes, procs, a) == 0
  {
    if procs != [] {
      var q := procs[..|procs| - 1];
      forall i: nat | i < |q| ensures !Inside(nodes, q[i], a) { assert q[i] == procs[i]; }
      NoneInside(nodes, q, a);
    }
  }

  lemma {:induction false} AddCount(s: State, m: nat, h: nat, np: nat, a: nat)
    requires CanAdd(s, m, h)
    ensures CountOk(WithNode(s, m, h, np), a)
  {
    var s' := WithNode(s, m, h, np);
    if a < NNODE && (a == m || s.used[a]) {
      forall i: nat | i < NPROC ensures Inside(s'.nodes, s.procs[i], a) <==> a != m && Inside(s.nodes, s.procs[i], a) {
        if LiveAt(s, i) { AddHeir(s, m, h, np, i, a); }
      }
      if a == m {
        NoneInside(s'.nodes, s.procs, m);
      } else {
        assert CountOk(s, a);
        CountMore(s.nodes, s.procs, a, s'.nodes, s.procs, a);
        CountMore(s'.nodes, s.procs, a, s.nodes, s.procs, a);
      }
    }
  }

  lemma {:induction false} AddCore(s: State, m: nat, h: nat, np: nat)
    requires CanAdd(s, m, h)
    ensures Core(WithNode(s, m, h, np))
  {
    var s' := WithNode(s, m, h, np);
    AddTree(s, m, h, np);
    forall i: nat ensures HomeOk(s', i) { assert HomeOk(s, i); }
    forall a: nat ensures CountOk(s', a) && LastOk(s', a) { AddCount(s, m, h, np, a); assert LastOk(s, a); }
    forall i: nat, a: nat ensures PidOk(s', i, a) {
      assert PidOk(s, i, a);
      if LiveAt(s, i) && UsedAt(s', a) { AddHeir(s, m, h, np, i, a); }
    }
    forall i: nat, j: nat, a: nat ensures PidsDiffer(s', i, j, a) {
      assert PidsDiffer(s, i, j, a);
      if LiveAt(s, i) && UsedAt(s', a) { AddHeir(s, m, h, np, i, a); }
      if LiveAt(s, j) && UsedAt(s', a) { AddHeir(s, m, h, np, j, a); }
    }
  }

  /** clone: the child np starts a namespace m of its own below that of p. */
  ghost predicate Cloned(s: State, s': State, p: nat, np: nat, m: nat, pids: seq<nat>) {
    && LiveAt(s, p) && np < |s.procs| && s.procs[np].status == Unused && CanAdd(s, m, s.procs[p].node)
    && Joined(WithNode(s, m, s.procs[p].node, np), s', np, m, p, pids)
  }

  lemma {:induction false} CloneInv(s: State, s': State, p: nat, np: nat, m: nat, pids: seq<nat>)
    requires Inv(s) && Cloned(s, s', p, np, m, pids)
    ensures Inv(s')
    ensures s'.nodes[m].depth < MAXDEPTH && s'.nodes[m].init == np && pids[s'.nodes[m].depth] == 1
    ensures s'.nodes[m].cnt == 1
  {
    var h := s.procs[p].node;
    var s1 := WithNode(s, m, h, np);
    AddCore(s, m, h, np);
    JoinCore(s1, s', np, m, p, pids);
    forall i: nat ensures ParentOk(s1, i) { assert ParentOk(s, i); }
    JoinRest(s1, s', np, m, p, pids);
    HeirSelf(s1.nodes, m);
    assert PidAt(s1.nodes, m, pids, s1.nodes[m].depth);
    forall a: nat ensures NeededOk(s', a) && InitOk(s', a) {
      assert NeededOk(s, a) && InitOk(s, a) && BumpedAt(s1.nodes, s'.nodes, m, a, 1, 1);
    }
    assert BumpedAt(s1.nodes, s'.nodes, m, m, 1, 1);
  }

  // ----- exit ---------------------------------------------------------------------------------------------

  /** r is the init of the nearest namespace at or above n that has one: k steps up. */
  ghost predicate NearestInit(nodes: seq<Node>, n: nat, k: nat, r: nat) {
    && Up(nodes, n, k) < |nodes| && nodes[Up(nodes, n, k)].init == r && r != NIL
    && forall j: nat :: j < k ==> InitGone(nodes, n, j)
  }

  ghost predicate InitGone(nodes: seq<Node>, n: nat, j: nat) {
    Up(nodes, n, j) < |nodes| && nodes[Up(nodes, n, j)].init == NIL
  }

  /** A process whose parent was p gets parent r; p itself becomes a zombie. */
  ghost function AfterDeath(proc: Proc, i: nat, p: nat, r: nat): Proc {
    proc.(parent := if proc.parent == p then r else proc.parent, status := if i == p then Zombie else proc.status)
  }

  ghost predicate DeathAt(s: State, s': State, p: nat, r: nat, i: nat) {
    i < |s.procs| && i < |s'.procs| ==> s'.procs[i] == AfterDeath(s.procs[i], i, p, r)
  }

  /** Namespace a stays in use iff it is the root or still has processes. */
  ghost predicate ReleasedAt(s: State, s': State, nodes1: seq<Node>, a: nat) {
    a < |s.used| && a < |s'.used| && a < |nodes1| ==> (s'.used[a] <==> s.used[a] && (a == ROOT || nodes1[a].cnt > 0))
  }

  /** exit of p, in namespace n: nodes1 are the nodes after the counts have gone down. */
  ghost predicate Exited(s: State, s': State, p: nat, nodes1: seq<Node>, k: nat, r: nat) {
    && LiveAt(s, p) && p != INIT && p < NPROC && s.procs[p].node < |s.nodes|
    && var n := s.procs[p].node;
    && Bumped(s.nodes, nodes1, n, -1, 0) && n < |nodes1|
    && s'.nodes == (if nodes1[n].init == p then nodes1[n := nodes1[n].(init := NIL)] else nodes1)
    && |s'.used| == |s.used| && (forall a: nat :: ReleasedAt(s, s', nodes1, a))
    && k <= s.nodes[n].depth && NearestInit(s'.nodes, n, k, r)
    && |s'.procs| == |s.procs| && forall i: nat :: DeathAt(s, s', p, r, i)
  }

  /** The processes of s with p gone. */
  ghost function Without(s: State, p: nat): seq<Proc>
    requires p < |s.procs|
  {
    s.procs[p := s.procs[p].(status := Zombie)]
  }

  lemma {:induction false} ExitCount(s: State, s': State, p: nat, nodes1: seq<Node>, k: nat, r: nat, a: nat)
    requires Inv(s) && Exited(s, s', p, nodes1, k, r) && UsedAt(s, a)
    ensures nodes1[a].cnt == Count(s.nodes, Without(s, p), a)
    ensures s'.nodes[a].cnt == nodes1[a].cnt && s'.nodes[a].last == s.nodes[a].last && SamePlace(s.nodes, s'.nodes, a)
  {
    assert BumpedAt(s.nodes, nodes1, s.procs[p].node, a, -1, 0) && CountOk(s, a);
    CountSet(s.nodes, s.procs, a, p, s.procs[p].(status := Zombie));
  }

  /** Whoever is inside a namespace is inside the one above it, so counts do not fall on the way up. */
  lemma {:induction false} CountUp(s: State, procs: seq<Proc>, m: nat, a: nat)
    requires TreeOk(s.used, s.nodes) && Heir(s.nodes, m, a)
    requires forall i: nat :: i < |procs| && procs[i].status == Live ==> UsedAt(s, procs[i].node)
    ensures Count(s.nodes, procs, m) <= Count(s.nodes, procs, a)
  {
    forall i: nat | i < |procs| && Inside(s.nodes, procs[i], m) ensures Inside(s.nodes, procs[i], a) {
      HeirTrans(s.used, s.nodes, procs[i].node, m, a);
    }
    CountMore(s.nodes, procs, m, s.nodes, procs, a);
  }

  lemma {:induction false} WithoutHomes(s: State, p: nat)
    requires Core(s) && p < |s.procs|
    ensures forall i: nat :: i < |Without(s, p)| && Without(s, p)[i].status == Live ==> UsedAt(s, Without(s, p)[i].node)
  {
    forall i: nat | i < |Without(s, p)| && Without(s, p)[i].status == Live ensures UsedAt(s, Without(s, p)[i].node) {
      assert HomeOk(s, i);
    }
  }

  lemma {:induction false} ExitTree(s: State, s': State, p: nat, nodes1: seq<Node>, k: nat, r: nat)
    requires Inv(s) && Exited(s, s', p, nodes1, k, r)
    ensures SameTree(s.used, s.nodes, s'.nodes) && TreeOk(s'.used, s'.nodes)
  {
    forall a: nat | a < |s.used| && s.used[a] ensures SamePlace(s.nodes, s'.nodes, a) {
      ExitCount(s, s', p, nodes1, k, r, a);
    }
    forall a: nat ensures NodeOk(s'.used, s'.nodes, a) {
      assert NodeOk(s.used, s.nodes, a) && ReleasedAt(s, s', nodes1, a);
      if UsedAt(s', a) && a != ROOT {
        var h := s.nodes[a].head;
        assert ReleasedAt(s, s', nodes1, h);
        ExitCount(s, s', p, nodes1, k, r, a);
        ExitCount(s, s', p, nodes1, k, r, h);
        HeirStep(s.used, s.nodes, a, h);
        HeirSelf(s.nodes, h);
        WithoutHomes(s, p);
        CountUp(s, Without(s, p), a, h);
      }
    }
    assert ReleasedAt(s, s', nodes1, ROOT);
  }

  lemma {:induction false} ExitHome(s: State, s': State, p: nat, nodes1: seq<Node>, k: nat, r: nat, i: nat)
    requires Inv(s) && Exited(s, s', p, nodes1, k, r)
    ensures HomeOk(s', i)
  {
    assert DeathAt(s, s', p, r, i) && HomeOk(s, i);
    if LiveAt(s', i) {
      var n := s.procs[i].node;
      ExitCount(s, s', p, nodes1, k, r, n);
      HeirSelf(s.nodes, n);
      assert Without(s, p)[i] == s.procs[i];
      CountSome(s.nodes, Without(s, p), n, i);
      assert ReleasedAt(s, s', nodes1, n);
    }
  }

  /** For whoever is left nothing changes but perhaps the parent. */
  lemma {:induction false} ExitHeir(s: State, s': State, p: nat, nodes1: seq<Node>, k: nat, r: nat, i: nat, a: nat)
    requires Inv(s) && Exited(s, s', p, nodes1, k, r) && UsedAt(s', a)
    ensures UsedAt(s, a) && (LiveAt(s', i) <==> LiveAt(s, i) && i != p)
    ensures LiveAt(s', i) ==> s'.procs[i].node == s.procs[i].node && s'.procs[i].pids == s.procs[i].pids
                              && (Heir(s'.nodes, s.procs[i].node, a) <==> Heir(s.nodes, s.procs[i].node, a))
  {
    assert DeathAt(s, s', p, r, i) && HomeOk(s, i) && ReleasedAt(s, s', nodes1, a);
    ExitTree(s, s', p, nodes1, k, r);
    if LiveAt(s', i) { HeirSame(s.used, s.nodes, s'.nodes, s.procs[i].node, a); }
  }

  lemma {:induction false} ExitCountOk(s: State, s': State, p: nat, nodes1: seq<Node>, k: nat, r: nat, a: nat)
    requires Inv(s) && Exited(s, s', p, nodes1, k, r)
    ensures CountOk(s', a)
  {
    if UsedAt(s', a) {
      assert ReleasedAt(s, s', nodes1, a);
      ExitCount(s, s', p, nodes1, k, r, a);
      forall i: nat | i < NPROC ensures Inside(s.nodes, Without(s, p)[i], a) <==> Inside(s'.nodes, s'.procs[i], a) {
        ExitHeir(s, s', p, nodes1, k, r, i, a);
        assert DeathAt(s, s', p, r, i);
      }
      CountMore(s.nodes, Without(s, p), a, s'.nodes, s'.procs, a);
      CountMore(s'.nodes, s'.procs, a, s.nodes, Without(s, p), a);
    }
  }

  lemma {:induction false} ExitSizes(s: State, s': State, p: nat, nodes1: seq<Node>, k: nat, r: nat)
    requires Inv(s) && Exited(s, s', p, nodes1, k, r)
    ensures Sizes(s')
  {
    forall i: nat | i < NPROC ensures |s'.procs[i].pids| == MAXDEPTH { assert DeathAt(s, s', p, r, i); }
  }

  lemma {:induction false} ExitCore(s: State, s': State, p: nat, nodes1: seq<Node>, k: nat, r: nat)
    requires Inv(s) && Exited(s, s', p, nodes1, k, r)
    ensures Core(s')
  {
    ExitSizes(s, s', p, nodes1, k, r);
    ExitTree(s, s', p, nodes1, k, r);
    forall i: nat ensures HomeOk(s', i) { ExitHome(s, s', p, nodes1, k, r, i); }
    forall a: nat ensures CountOk(s', a) && LastOk(s', a) {
      ExitCountOk(s, s', p, nodes1, k, r, a);
      ExitKeeps(s, s', p, nodes1, k, r, a);
      assert LastOk(s, a);
    }
    forall i: nat, a: nat ensures PidOk(s', i, a) {
      ExitKeeps(s, s', p, nodes1, k, r, a);
      if UsedAt(s', a) { ExitHeir(s, s', p, nodes1, k, r, i, a); }
      assert PidOk(s, i, a);
    }
    forall i: nat, j: nat, a: nat ensures PidsDiffer(s', i, j, a) {
      ExitKeeps(s, s', p, nodes1, k, r, a);
      if UsedAt(s', a) { ExitHeir(s, s', p, nodes1, k, r, i, a); ExitHeir(s, s', p, nodes1, k, r, j, a); }
      assert PidsDiffer(s, i, j, a);
    }
  }

  /** A node still in use keeps its place and its pid supply. */
  lemma {:induction false} ExitKeeps(s: State, s': State, p: nat, nodes1: seq<Node>, k: nat, r: nat, a: nat)
    requires Inv(s) && Exited(s, s', p, nodes1, k, r)
    ensures UsedAt(s', a) ==>
        UsedAt(s, a) && s'.nodes[a].last == s.nodes[a].last && s'.nodes[a].depth == s.nodes[a].depth
  {
    assert ReleasedAt(s, s', nodes1, a);
    if UsedAt(s', a) { ExitCount(s, s', p, nodes1, k, r, a); }
  }

  /** The new parent is a non-exited process other than p, in the namespace whose init it is. */
  lemma {:induction false} HeirOfOrphans(s: State, s': State, p: nat, nodes1: seq<Node>, k: nat, r: nat)
    requires Inv(s) && Exited(s, s', p, nodes1, k, r)
    ensures LiveAt(s, r) && r != p && s.procs[r].node == Up(s.nodes, s.procs[p].node, k)
    ensures Heir(s.nodes, s.procs[p].node, s.procs[r].node)
  {
    var n := s.procs[p].node;
    assert HomeOk(s, p);
    ExitTree(s, s', p, nodes1, k, r);
    UpSame(s.used, s.nodes, s'.nodes, n, k);
    UpUsed(s.used, s.nodes, n, k);
    var m := Up(s.nodes, n, k);
    assert BumpedAt(s.nodes, nodes1, n, m, -1, 0) && BumpedAt(s.nodes, nodes1, n, n, -1, 0) && InitOk(s, m);
  }

  /** exit keeps the invariant. */
  lemma {:induction false} ExitInv(s: State, s': State, p: nat, nodes1: seq<Node>, k: nat, r: nat)
    requires Inv(s) && Exited(s, s', p, nodes1, k, r)
    ensures Inv(s')
  {
    ExitCore(s, s', p, nodes1, k, r);
    HeirOfOrphans(s, s', p, nodes1, k, r);
    forall i: nat ensures ParentOk(s', i) {
      assert ParentOk(s, i) && DeathAt(s, s', p, r, i) && DeathAt(s, s', p, r, r);
      assert i < |s.procs| ==> DeathAt(s, s', p, r, s.procs[i].parent);
    }
    forall a: nat ensures NeededOk(s', a) && InitOk(s', a) {
      assert ReleasedAt(s, s', nodes1, a);
      ExitInitOk(s, s', p, nodes1, k, r, a);
    }
    assert DeathAt(s, s', p, r, INIT) && ReleasedAt(s, s', nodes1, ROOT);
    assert BumpedAt(s.nodes, nodes1, s.procs[p].node, ROOT, -1, 0);
  }

  lemma {:induction false} ExitInitOk(s: State, s': State, p: nat, nodes1: seq<Node>, k: nat, r: nat, a: nat)
    requires Inv(s) && Exited(s, s', p, nodes1, k, r)
    ensures InitOk(s', a)
  {
    assert ReleasedAt(s, s', nodes1, a);
    if UsedAt(s', a) {
      assert InitOk(s, a) && BumpedAt(s.nodes, nodes1, s.procs[p].node, a, -1, 0);
      assert DeathAt(s, s', p, r, s'.nodes[a].init);
    }
  }

  /** A namespace other than the root is released by an exit exactly when nobody is left at or below it. */
  lemma {:induction false} ReleasedIffEmpty(s: State, s': State, p: nat, nodes1: seq<Node>, k: nat, r: nat, a: nat)
    requires Inv(s) && Exited(s, s', p, nodes1, k, r) && UsedAt(s, a) && a != ROOT
    ensures !UsedAt(s', a) <==> Count(s.nodes, Without(s, p), a) == 0
  {
    ExitCount(s, s', p, nodes1, k, r, a);
    assert ReleasedAt(s, s', nodes1, a);
  }

  // ----- what the steps mean, in the states before and after -------------------------------------------------

  /** Namespace a lost one process if n lies in it; its place and its pid supply stay. */
  ghost predicate CountedOutAt(s: State, s': State, n: nat, a: nat) {
    a < |s.nodes| && a < |s'.nodes| ==>
      && s'.nodes[a].cnt == s.nodes[a].cnt - (if Heir(s.nodes, n, a) then 1 else 0)
      && s'.nodes[a].last == s.nodes[a].last && s'.nodes[a].head == s.nodes[a].head
      && s'.nodes[a].depth == s.nodes[a].depth
  }

  /** Counting out, releasing and clearing the init, with no intermediate state. */
  lemma {:induction false} ExitMeans(s: State, s': State, p: nat, nodes1: seq<Node>, k: nat, r: nat, a: nat)
    requires Inv(s) && Exited(s, s', p, nodes1, k, r) && a < NNODE
    ensures |s'.nodes| == |s'.used| == NNODE && CountedOutAt(s, s', s.procs[p].node, a)
    ensures s'.nodes[a].init ==
            if a == s.procs[p].node && s.nodes[a].init == p then NIL else s.nodes[a].init
    ensures s'.used[a] <==> s.used[a] && (a == ROOT || s'.nodes[a].cnt > 0)
  {
    var n := s.procs[p].node;
    assert HomeOk(s, p);
    assert BumpedAt(s.nodes, nodes1, n, a, -1, 0) && BumpedAt(s.nodes, nodes1, n, n, -1, 0);
    assert ReleasedAt(s, s', nodes1, a);
  }

  /** k steps above n the init is r, and every namespace below that on the way has none but perhaps p. */
  ghost predicate NearestOther(s: State, p: nat, k: nat, r: nat) {
    && p < |s.procs| && Up(s.nodes, s.procs[p].node, k) < |s.nodes|
    && s.nodes[Up(s.nodes, s.procs[p].node, k)].init == r && r != NIL && r != p
    && forall j: nat :: j < k ==> NoOther(s, p, j)
  }

  ghost predicate NoOther(s: State, p: nat, j: nat) {
    && p < |s.procs| && Up(s.nodes, s.procs[p].node, j) < |s.nodes|
    && (s.nodes[Up(s.nodes, s.procs[p].node, j)].init == NIL || s.nodes[Up(s.nodes, s.procs[p].node, j)].init == p)
  }

  /**
   * exit hands every child of p to the init of the nearest namespace around p whose init is another process;
   * everybody else keeps their parent, and only p becomes a zombie.
   */
  lemma {:induction false} OrphansAdopted(s: State, s': State, p: nat, nodes1: seq<Node>, k: nat, r: nat)
    requires Inv(s) && Exited(s, s', p, nodes1, k, r)
    ensures k <= s.nodes[s.procs[p].node].depth && NearestOther(s, p, k, r) && |s'.procs| == |s.procs|
    ensures forall i :: 0 <= i < |s.procs| && i != p ==>
              s'.procs[i] == s.procs[i].(parent := if s.procs[i].parent == p then r else s.procs[i].parent)
    ensures s'.procs[p].status == Zombie
  {
    var n := s.procs[p].node;
    assert HomeOk(s, p);
    HeirOfOrphans(s, s', p, nodes1, k, r);
    ExitTree(s, s', p, nodes1, k, r);
    forall j: nat | j <= k ensures Up(s'.nodes, n, j) == Up(s.nodes, n, j) && Up(s.nodes, n, j) < NNODE {
      UpSame(s.used, s.nodes, s'.nodes, n, j);
      UpUsed(s.used, s.nodes, n, j);
    }
    ExitMeans(s, s', p, nodes1, k, r, Up(s.nodes, n, k));
    forall j: nat | j < k ensures NoOther(s, p, j) {
      assert InitGone(s'.nodes, n, j);
      ExitMeans(s, s', p, nodes1, k, r, Up(s.nodes, n, j));
    }
    assert DeathAt(s, s', p, r, p);
    forall i | 0 <= i < |s.procs| && i != p
      ensures s'.procs[i] == s.procs[i].(parent := if s.procs[i].parent == p then r else s.procs[i].parent)
    {
      assert DeathAt(s, s', p, r, i);
    }
  }

  /** Namespace a gained a process if n lies in it, and gave it the next pid. */
  ghost predicate CountedInAt(nodes: seq<Node>, nodes': seq<Node>, n: nat, pids: seq<nat>, a: nat) {
    a < |nodes| && a < |nodes'| && nodes[a].depth < |pids| && Heir(nodes, n, a) ==>
      && nodes'[a] == nodes[a].(cnt := nodes[a].cnt + 1, last := nodes[a].last + 1)
      && pids[nodes[a].depth] == nodes[a].last
  }

  /** fork: the child is live, in the caller's namespace, the caller is its parent, and its pids are the next ones. */
  lemma {:induction false} ForkMeans(s: State, s': State, p: nat, np: nat, pids: seq<nat>)
    requires Inv(s) && Forked(s, s', p, np, pids)
    ensures s'.used == s.used && s'.procs == s.procs[np := Proc(Live, s.procs[p].node, pids, p)]
    ensures |s'.nodes| == |s.nodes| && forall a: nat :: CountedInAt(s.nodes, s'.nodes, s.procs[p].node, pids, a)
    ensures forall a: nat :: a < |s.nodes| && !Heir(s.nodes, s.procs[p].node, a) ==> s'.nodes[a] == s.nodes[a]
  {
    assert HomeOk(s, p);
    JoinMeans(s, s', np, s.procs[p].node, p, pids);
  }

  lemma {:induction false} JoinMeans(s: State, s': State, np: nat, n: nat, parent: nat, pids: seq<nat>)
    requires Joined(s, s', np, n, parent, pids)
    ensures forall a: nat :: CountedInAt(s.nodes, s'.nodes, n, pids, a)
    ensures forall a: nat :: a < |s.nodes| && !Heir(s.nodes, n, a) ==> s'.nodes[a] == s.nodes[a]
  {
    forall a: nat ensures CountedInAt(s.nodes, s'.nodes, n, pids, a) {
      assert BumpedAt(s.nodes, s'.nodes, n, a, 1, 1);
      if a < |s.nodes| { assert PidAt(s.nodes, n, pids, s.nodes[a].depth); }
    }
    forall a: nat | a < |s.nodes| && !Heir(s.nodes, n, a) ensures s'.nodes[a] == s.nodes[a] {
      assert BumpedAt(s.nodes, s'.nodes, n, a, 1, 1);
    }
  }

  /**
   * clone: the child is live with the caller as parent, in a node m that was unused and now hangs below the
   * caller's, with the child as its init and its first pid; in every namespace around it has the next pid.
   */
  lemma {:induction false} CloneMeans(s: State, s': State, p: nat, np: nat, m: nat, pids: seq<nat>)
    requires Inv(s) && Cloned(s, s', p, np, m, pids)
    ensures m < NNODE && !s.used[m] && s'.used == s.used[m := true] && |s'.nodes| == |s.nodes| == NNODE
    ensures s'.procs == s.procs[np := Proc(Live, m, pids, p)] && s.procs[p].node < NNODE
    ensures s'.nodes[m] == Node(1, 2, np, s.procs[p].node, s.nodes[s.procs[p].node].depth + 1)
    ensures s'.nodes[m].depth < |pids| && pids[s'.nodes[m].depth] == 1
    ensures forall a: nat :: a < NNODE && s.used[a] ==> CountedInAt(s.nodes, s'.nodes, s.procs[p].node, pids, a)
    ensures forall a: nat :: a < NNODE && s.used[a] && !Heir(s.nodes, s.procs[p].node, a) ==> s'.nodes[a] == s.nodes[a]
  {
    var h := s.procs[p].node;
    var s1 := WithNode(s, m, h, np);
    AddTree(s, m, h, np);
    JoinMeans(s1, s', np, m, p, pids);
    HeirSelf(s1.nodes, m);
    assert CountedInAt(s1.nodes, s'.nodes, m, pids, m) && PidAt(s1.nodes, m, pids, s1.nodes[m].depth);
    forall a: nat | a < NNODE && s.used[a]
      ensures CountedInAt(s.nodes, s'.nodes, h, pids, a)
      ensures !Heir(s.nodes, h, a) ==> s'.nodes[a] == s.nodes[a]
    {
      HeirStep(s1.used, s1.nodes, m, a);
      HeirSame(s.used, s.nodes, s1.nodes, h, a);
      assert CountedInAt(s1.nodes, s'.nodes, m, pids, a);
    }
  }
}
