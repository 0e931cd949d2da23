/** The process namespaces of kernel/proc.c: a tree of nodes with per-node counts and pid supplies. */
module NamespaceTree {

  /** Namespace nodes and processes; NIL stands for the null pointer. */
  const NNODE: nat := 64
  const NPROC: nat := 64
  const NIL: nat := 64
  const MAXDEPTH: nat := 8
  /** The first namespace and the first process. */
  const ROOT: nat := 0
  const INIT: nat := 0

  datatype Node = Node(cnt: int, last: nat, init: nat, head: nat, depth: nat)

  datatype Status = Unused | Live | Zombie

  datatype Proc = Proc(status: Status, node: nat, pids: seq<nat>, parent: nat)

  datatype State = State(used: seq<bool>, nodes: seq<Node>, procs: seq<Proc>)

  ghost predicate Sizes(s: State) {
    && |s.used| == NNODE && |s.nodes| == NNODE && |s.procs| == NPROC
    && forall i: nat :: i < NPROC ==> |s.procs[i].pids| == MAXDEPTH
  }

  // ----- the tree --------------------------------------------------------------------------------------

  /** A node in use is the root or hangs one level below another node in use. */
  ghost predicate NodeOk(used: seq<bool>, nodes: seq<Node>, n: nat) {
    n < |used| && n < |nodes| && used[n] ==>
      && nodes[n].depth < MAXDEPTH && (nodes[n].depth == 0 <==> n == ROOT)
      && (n == ROOT ==> nodes[n].head == NIL)
      && (n != ROOT ==>
            && nodes[n].head < NNODE && nodes[n].head < |used| && nodes[n].head < |nodes| && used[nodes[n].head]
            && nodes[nodes[n].head].depth == nodes[n].depth - 1)
  }

  ghost predicate TreeOk(used: seq<bool>, nodes: seq<Node>) {
    |used| == NNODE && |nodes| == NNODE && used[ROOT] && forall n: nat :: NodeOk(used, nodes, n)
  }

  /** k steps up from n. */
  function Up(nodes: seq<Node>, n: nat, k: nat): nat
    decreases k
  {
    if k == 0 || n >= |nodes| then n else Up(nodes, nodes[n].head, k - 1)
  }

  /** Namespace n lies in namespace a: a is n or an ancestor of it. */
  ghost predicate Heir(nodes: seq<Node>, n: nat, a: nat) {
    n < |nodes| && a < |nodes| && nodes[a].depth <= nodes[n].depth && Up(nodes, n, nodes[n].depth - nodes[a].depth) == a
  }

  lemma {:induction false} UpUsed(used: seq<bool>, nodes: seq<Node>, n: nat, k: nat)
    requires TreeOk(used, nodes) && n < NNODE && used[n] && k <= nodes[n].depth
    ensures Up(nodes, n, k) < NNODE && used[Up(nodes, n, k)] && nodes[Up(nodes, n, k)].depth == nodes[n].depth - k
    decreases k
  {
    assert NodeOk(used, nodes, n);
    if k > 0 { UpUsed(used, nodes, nodes[n].head, k - 1); }
  }

  lemma {:induction false} UpOne(used: seq<bool>, nodes: seq<Node>, n: nat, k: nat)
    requires TreeOk(used, nodes) && n < NNODE && used[n] && k < nodes[n].depth
    ensures Up(nodes, n, k) < NNODE && Up(nodes, n, k + 1) == nodes[Up(nodes, n, k)].head
    decreases k
  {
    UpUsed(used, nodes, n, k);
    assert NodeOk(used, nodes, n);
    if k > 0 { UpOne(used, nodes, nodes[n].head, k - 1); }
  }

  lemma {:induction false} UpUp(nodes: seq<Node>, n: nat, j: nat, k: nat)
    requires n < |nodes| && forall i: nat :: i <= j ==> Up(nodes, n, i) < |nodes|
    ensures Up(nodes, Up(nodes, n, j), k) == Up(nodes, n, j + k)
    decreases j
  {
    if j > 0 {
      assert Up(nodes, n, 1) < |nodes|;
      forall i: nat | i <= j - 1 ensures Up(nodes, nodes[n].head, i) < |nodes| { assert Up(nodes, n, i + 1) < |nodes|; }
      UpUp(nodes, nodes[n].head, j - 1, k);
    }
  }

  lemma {:induction false} HeirSelf(nodes: seq<Node>, n: nat)
    requires n < |nodes|
    ensures Heir(nodes, n, n)
  {
  }

  /** is_heir's step: a is above n iff it is n or above n's head. */
  lemma {:induction false} HeirStep(used: seq<bool>, nodes: seq<Node>, n: nat, a: nat)
    requires TreeOk(used, nodes) && n < NNODE && used[n] && a < NNODE && nodes[n].depth > 0
    ensures nodes[n].head < NNODE && (Heir(nodes, n, a) <==> n == a || Heir(nodes, nodes[n].head, a))
  {
    assert NodeOk(used, nodes, n);
    var k := nodes[n].depth - nodes[a].depth;
    if k > 0 { assert Up(nodes, n, k) == Up(nodes, nodes[n].head, k - 1); }
  }

  lemma {:induction false} HeirTrans(used: seq<bool>, nodes: seq<Node>, n: nat, m: nat, a: nat)
    requires TreeOk(used, nodes) && n < NNODE && used[n] && Heir(nodes, n, m) && Heir(nodes, m, a)
    ensures Heir(nodes, n, a)
  {
    var j := nodes[n].depth - nodes[m].depth;
    forall i: nat | i <= j ensures Up(nodes, n, i) < |nodes| { UpUsed(used, nodes, n, i); }
    UpUp(nodes, n, j, nodes[m].depth - nodes[a].depth);
  }

  /** Two namespaces above n are nested. */
  lemma {:induction false} AboveNested(used: seq<bool>, nodes: seq<Node>, n: nat, m: nat, a: nat)
    requires TreeOk(used, nodes) && n < NNODE && used[n] && Heir(nodes, n, m) && Heir(nodes, n, a)
    requires nodes[a].depth <= nodes[m].depth
    ensures Heir(nodes, m, a)
  {
    var j := nodes[n].depth - nodes[m].depth;
    forall i: nat | i <= j ensures Up(nodes, n, i) < |nodes| { UpUsed(used, nodes, n, i); }
    UpUp(nodes, n, j, nodes[m].depth - nodes[a].depth);
  }

  /** Node n keeps its place. */
  ghost predicate SamePlace(nodes: seq<Node>, nodes': seq<Node>, n: nat) {
    n < |nodes| && n < |nodes'| ==> nodes'[n].head == nodes[n].head && nodes'[n].depth == nodes[n].depth
  }

  /** Nodes in use keep their places. */
  ghost predicate SameTree(used: seq<bool>, nodes: seq<Node>, nodes': seq<Node>) {
    |nodes'| == |nodes| && forall n: nat :: n < |used| && used[n] ==> SamePlace(nodes, nodes', n)
  }

  lemma {:induction false} UpSame(used: seq<bool>, nodes: seq<Node>, nodes': seq<Node>, n: nat, k: nat)
    requires TreeOk(used, nodes) && SameTree(used, nodes, nodes') && n < NNODE && used[n] && k <= nodes[n].depth
    ensures Up(nodes', n, k) == Up(nodes, n, k)
    decreases k
  {
    assert NodeOk(used, nodes, n) && SamePlace(nodes, nodes', n);
    if k > 0 { UpSame(used, nodes, nodes', nodes[n].head, k - 1); }
  }

  lemma {:induction false} HeirSame(used: seq<bool>, nodes: seq<Node>, nodes': seq<Node>, n: nat, a: nat)
    requires TreeOk(used, nodes) && SameTree(used, nodes, nodes') && n < NNODE && used[n] && a < NNODE && used[a]
    ensures Heir(nodes', n, a) <==> Heir(nodes, n, a)
  {
    assert SamePlace(nodes, nodes', n) && SamePlace(nodes, nodes', a);
    if nodes[a].depth <= nodes[n].depth { UpSame(used, nodes, nodes', n, nodes[n].depth - nodes[a].depth); }
  }

  // ----- counting processes --------------------------------------------------------------------------------

  /** A non-exited process at or below namespace a. */
  ghost predicate Inside(nodes: seq<Node>, p: Proc, a: nat) { p.status == Live && Heir(nodes, p.node, a) }

  ghost function Count(nodes: seq<Node>, procs: seq<Proc>, a: nat): nat {
    if procs == [] then 0
    else Count(nodes, procs[..|procs| - 1], a) + if Inside(nodes, procs[|procs| - 1], a) then 1 else 0
  }

  lemma {:induction false} CountSet(nodes: seq<Node>, procs: seq<Proc>, a: nat, i: nat, p: Proc)
    requires i < |procs|
    ensures Count(nodes, procs[i := p], a) ==
            Count(nodes, procs, a) + (if Inside(nodes, p, a) then 1 else 0)
            - (if Inside(nodes, procs[i], a) then 1 else 0)
  {
    var n := |procs| - 1;
    if i < n {
      CountSet(nodes, procs[..n], a, i, p);
      assert procs[i := p][..n] == procs[..n][i := p];
    } else {
      assert procs[i := p][..n] == procs[..n];
    }
  }

  /** If whoever is inside a in procs is inside b in procs', there are as many or more of the latter. */
  lemma {:induction false} CountMore(
    nodes: seq<Node>, procs: seq<Proc>, a: nat, nodes': seq<Node>, procs': seq<Proc>, b: nat)
    requires |procs| == |procs'|
    requires forall i: nat :: i < |procs| && Inside(nodes, procs[i], a) ==> Inside(nodes', procs'[i], b)
    ensures Count(nodes, procs, a) <= Count(nodes', procs', b)
  {
    if procs != [] {
      var n := |procs| - 1;
      var q, q' := procs[..n], procs'[..n];
      forall i: nat | i < n && Inside(nodes, q[i], a) ensures Inside(nodes', q'[i], b) {
        assert q[i] == procs[i] && q'[i] == procs'[i];
      }
      CountMore(nodes, q, a, nodes', q', b);
    }
  }

  lemma {:induction false} CountSome(nodes: seq<Node>, procs: seq<Proc>, a: nat, i: nat)
    requires i < |procs| && Inside(nodes, procs[i], a)
    ensures Count(nodes, procs, a) > 0
  {
    if i < |procs| - 1 { CountSome(nodes, procs[..|procs| - 1], a, i); }
  }
}
