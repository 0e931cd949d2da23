/**
 * The doubly linked list of kernel/bio.c: buffers 0..n-1 and a list head with index n, linked through
 * `next` and `prev`. The ghost `order` lists the buffers from head.next (most recently used) on.
 */
module BufferList {

  /** Element j of the ring: the head at both ends, the buffers in between. */
  ghost function At(n: nat, order: seq<nat>, j: int): int
    requires 0 <= j <= |order| + 1
  {
    if j == 0 || j == |order| + 1 then n else order[j - 1]
  }

  ghost predicate Members(n: nat, order: seq<nat>) {
    && (forall j :: 0 <= j < |order| ==> order[j] < n)
    && (forall i, j :: 0 <= i < j < |order| ==> order[i] != order[j])
  }

  ghost predicate LinkOk(next: seq<nat>, prev: seq<nat>, n: nat, order: seq<nat>, j: int)
    requires |next| == |prev| == n + 1 && Members(n, order) && 0 <= j <= |order|
  {
    next[At(n, order, j)] == At(n, order, j + 1) && prev[At(n, order, j + 1)] == At(n, order, j)
  }

  /** next and prev spell out the ring in both directions. */
  ghost predicate Ring(next: seq<nat>, prev: seq<nat>, n: nat, order: seq<nat>) {
    && |next| == |prev| == n + 1 && Members(n, order)
    && forall j :: 0 <= j <= |order| ==> LinkOk(next, prev, n, order, j)
  }

  /** Two ring positions hold the same node only if they are the same position, or both the head. */
  lemma {:induction false} AtInjective(n: nat, order: seq<nat>, i: int, j: int)
    requires Members(n, order) && 0 <= i < j <= |order| + 1 && At(n, order, i) == At(n, order, j)
    ensures i == 0 && j == |order| + 1
  {
  }

  ghost function Without(order: seq<nat>, k: nat): seq<nat>
    requires k < |order|
  {
    order[..k] + order[k + 1..]
  }

  lemma {:induction false} WithoutAt(n: nat, order: seq<nat>, k: nat, j: int)
    requires k < |order| && 0 <= j <= |order|
    ensures At(n, Without(order, k), j) == At(n, order, if j <= k then j else j + 1)
  {
  }

  /** b->next->prev = b->prev; b->prev->next = b->next; for the buffer at position k of the order. */
  method Unlink(next: array<nat>, prev: array<nat>, n: nat, b: nat, ghost order: seq<nat>, ghost k: nat)
    requires next != prev && Ring(next[..], prev[..], n, order) && k < |order| && order[k] == b
    modifies next, prev
    ensures Ring(next[..], prev[..], n, Without(order, k))
  {
    ghost var nx, pv := next[..], prev[..];
    assert LinkOk(nx, pv, n, order, k) && LinkOk(nx, pv, n, order, k + 1);
    assert At(n, order, k + 1) == b;
    prev[next[b]] := prev[b];
    next[prev[b]] := next[b];
    ghost var rest := Without(order, k);
    assert next[..] == nx[At(n, order, k) := At(n, order, k + 2) as nat];
    assert prev[..] == pv[At(n, order, k + 2) := At(n, order, k) as nat];
    forall j | 0 <= j <= |rest| ensures LinkOk(next[..], prev[..], n, rest, j) {
      UnlinkedAt(nx, pv, n, order, k, j);
    }
  }

  lemma {:induction false} UnlinkedAt(nx: seq<nat>, pv: seq<nat>, n: nat, order: seq<nat>, k: nat, j: int)
    requires Ring(nx, pv, n, order) && k < |order| && 0 <= j <= |order| - 1
    ensures At(n, order, k) >= 0 && At(n, order, k + 2) >= 0
    ensures 0 <= At(n, order, k) <= n && 0 <= At(n, order, k + 2) <= n
    ensures Members(n, Without(order, k))
    ensures LinkOk(nx[At(n, order, k) := At(n, order, k + 2) as nat], pv[At(n, order, k + 2) := At(n, order, k) as nat],
                   n, Without(order, k), j)
  {
    WithoutAt(n, order, k, j);
    WithoutAt(n, order, k, j + 1);
    if j != k {
      var i := if j < k then j else j + 1;
      assert LinkOk(nx, pv, n, order, i);
      if At(n, order, i) == At(n, order, k) {
        if i < k { AtInjective(n, order, i, k); } else { AtInjective(n, order, k, i); }
      }
      if At(n, order, i + 1) == At(n, order, k + 2) {
        if i + 1 < k + 2 { AtInjective(n, order, i + 1, k + 2); } else { AtInjective(n, order, k + 2, i + 1); }
      }
    }
  }

  /** The four stores that put b right after the head. */
  method PushFront(next: array<nat>, prev: array<nat>, n: nat, b: nat, ghost order: seq<nat>)
    requires next != prev && Ring(next[..], prev[..], n, order) && b < n && b !in order
    modifies next, prev
    ensures Ring(next[..], prev[..], n, [b] + order)
  {
    ghost var nx, pv := next[..], prev[..];
    assert LinkOk(nx, pv, n, order, 0);
    next[b] := next[n];
    prev[b] := n;
    prev[next[n]] := b;
    next[n] := b;
    ghost var all := [b] + order;
    forall j | 0 <= j <= |all| ensures LinkOk(next[..], prev[..], n, all, j) {
      if j > 0 {
        assert LinkOk(nx, pv, n, order, j - 1);
        assert At(n, all, j + 1) == At(n, order, j);
        assert j > 1 ==> At(n, all, j) == At(n, order, j - 1);
      }
    }
  }

  // ----- the list is a permutation ----------------------------------------------------------

  ghost function Below(n: nat): (s: set<nat>)
    ensures |s| == n && forall x: nat :: x in s <==> x < n
  {
    if n == 0 then {} else Below(n - 1) + {n - 1}
  }

  ghost function Elements(order: seq<nat>): (s: set<nat>)
    ensures forall x :: x in s <==> x in order
  {
    if order == [] then {} else Elements(order[..|order| - 1]) + {order[|order| - 1]}
  }

  lemma {:induction false} ElementsCard(n: nat, order: seq<nat>)
    requires Members(n, order)
    ensures |Elements(order)| == |order|
  {
    if order != [] {
      ElementsCard(n, order[..|order| - 1]);
    }
  }

  lemma {:induction false} CardSubset(a: set<nat>, b: set<nat>)
    requires a <= b
    ensures |a| <= |b|
    decreases |a|
  {
    if x :| x in a {
      CardSubset(a - {x}, b - {x});
    }
  }

  /** A list of n distinct buffers below n contains every one of them. */
  lemma {:induction false} OnList(n: nat, order: seq<nat>, i: nat)
    requires Members(n, order) && |order| == n && i < n
    ensures i in order
  {
    if i !in order {
      ElementsCard(n, order);
      CardSubset(Elements(order), Below(n) - {i});
    }
  }
}
