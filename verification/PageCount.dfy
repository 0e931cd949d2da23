/** How many table pages a run of pages still needs: what decides whether uvmalloc and uvmcopy succeed. */
module PageCount {
  import opened PageTree

  ghost predicate HasMiddle(f: Forest, r: nat, v: nat) {
    Ok(f) && IsRoot(f, r) && v < MAXVPN && Middle(f, r, v) != 0
  }

  ghost predicate HasLast(f: Forest, r: nat, v: nat) {
    Ok(f) && IsRoot(f, r) && v < MAXVPN && Last(f, r, v) != 0
  }

  /** Tables on the path of page v that do not exist yet. */
  ghost function Missing(f: Forest, r: nat, v: nat): nat {
    (if HasMiddle(f, r, v) then 0 else 1) + (if HasLast(f, r, v) then 0 else 1)
  }

  /** Pages v and w lie under the same second-level table. */
  predicate NearMiddle(v: nat, w: nat) { v / 512 / 512 == w / 512 / 512 }

  /** Pages v and w lie under the same last-level table. */
  predicate NearLast(v: nat, w: nat) { v / 512 == w / 512 }

  lemma {:induction false} NearSame(f: Forest, r: nat, v: nat, w: nat)
    requires v < MAXVPN && w < MAXVPN
    ensures NearMiddle(v, w) ==> (HasMiddle(f, r, v) <==> HasMiddle(f, r, w))
    ensures NearLast(v, w) ==> (HasLast(f, r, v) <==> HasLast(f, r, w))
  {
  }

  ghost predicate MiddlesAdded(f: Forest, g: Forest, r: nat, v: nat, built: bool) {
    forall w: nat :: w < MAXVPN ==> (HasMiddle(g, r, w) <==> HasMiddle(f, r, w) || (built && NearMiddle(v, w)))
  }

  ghost predicate LastsAdded(f: Forest, g: Forest, r: nat, v: nat, built: bool) {
    forall w: nat :: w < MAXVPN ==> (HasLast(g, r, w) <==> HasLast(f, r, w) || (built && NearLast(v, w)))
  }

  /** From f to g the path of page v has been completed down to `level`, and no other table was added to r. */
  ghost predicate Built(f: Forest, g: Forest, r: nat, v: nat, level: nat) {
    MiddlesAdded(f, g, r, v, level <= 1) && LastsAdded(f, g, r, v, level == 0)
  }

  /** One turn of walk at `level`. */
  ghost predicate Deeper(f: Forest, g: Forest, r: nat, v: nat, level: nat) {
    MiddlesAdded(f, g, r, v, level == 2) && LastsAdded(f, g, r, v, level == 1)
  }

  lemma {:induction false} BuiltDeeper(f: Forest, g: Forest, h: Forest, r: nat, v: nat, level: nat)
    requires 1 <= level <= 2 && Built(f, g, r, v, level) && Deeper(g, h, r, v, level)
    ensures Built(f, h, r, v, level - 1)
  {
  }

  /** The table is there already. */
  lemma {:induction false} NothingAdded(f: Forest, r: nat, v: nat, level: nat)
    requires v < MAXVPN && (level == 2 ==> HasMiddle(f, r, v)) && (level == 1 ==> HasLast(f, r, v))
    ensures Deeper(f, f, r, v, level)
  {
    forall w: nat | w < MAXVPN
      ensures HasMiddle(f, r, w) <==> HasMiddle(f, r, w) || (level == 2 && NearMiddle(v, w))
      ensures HasLast(f, r, w) <==> HasLast(f, r, w) || (level == 1 && NearLast(v, w))
    {
      NearSame(f, r, v, w);
    }
  }

  lemma {:induction false} MiddleAdded(f: Forest, r: nat, v: nat, q: nat)
    requires v < MAXVPN && IsRoot(f, r) && CanAdd(f, r, Px2(v), q)
    ensures Deeper(f, WithTable(f, r, Px2(v), q), r, v, 2)
  {
    var h := WithTable(f, r, Px2(v), q);
    forall w: nat | w < MAXVPN
      ensures HasMiddle(h, r, w) <==> HasMiddle(f, r, w) || NearMiddle(v, w)
      ensures HasLast(h, r, w) <==> HasLast(f, r, w)
    {
      WithTableGet(f, r, Px2(v), q, r, w);
      MadePte(q, 0);
    }
  }

  lemma {:induction false} LastAdded(f: Forest, r: nat, v: nat, q: nat)
    requires v < MAXVPN && HasMiddle(f, r, v) && CanAdd(f, Middle(f, r, v), Px1(v), q)
    ensures Deeper(f, WithTable(f, Middle(f, r, v), Px1(v), q), r, v, 1)
  {
    var t := Middle(f, r, v);
    var h := WithTable(f, t, Px1(v), q);
    forall w: nat | w < MAXVPN
      ensures HasMiddle(h, r, w) <==> HasMiddle(f, r, w)
      ensures HasLast(h, r, w) <==> HasLast(f, r, w) || NearLast(v, w)
    {
      WithTableGet(f, t, Px1(v), q, r, w);
      MadePte(q, 0);
      assert TableOk(f, r) && SoleParent(f, r, Px2(v), r, Px2(w));
    }
  }

  // ----- runs of pages -----------------------------------------------------------------------------

  /** One past the last group of `size` pages that pages first..first+n-1 touch. */
  function Past(first: nat, n: nat, size: nat): nat
    requires size > 0
  {
    if n == 0 then first / size else (first + n - 1) / size + 1
  }

  const MIDDLE: nat := 512 * 512

  /** The t-th last-level table of root r does not exist. */
  ghost predicate LastLacks(f: Forest, r: nat, t: nat) { !HasLast(f, r, t * 512) }

  /** The t-th second-level table of root r does not exist. */
  ghost predicate MiddleLacks(f: Forest, r: nat, t: nat) { !HasMiddle(f, r, t * MIDDLE) }

  /** The last-level tables that root r lacks for pages first..first+n-1. */
  ghost function LastsMissing(f: Forest, r: nat, first: nat, n: nat): set<nat> {
    set t: nat | first / 512 <= t < Past(first, n, 512) && LastLacks(f, r, t)
  }

  /** The second-level tables that root r lacks for pages first..first+n-1. */
  ghost function MiddlesMissing(f: Forest, r: nat, first: nat, n: nat): set<nat> {
    set t: nat | first / MIDDLE <= t < Past(first, n, MIDDLE) && MiddleLacks(f, r, t)
  }

  /** How many tables root r lacks for pages first..first+n-1. */
  ghost function Tables(f: Forest, r: nat, first: nat, n: nat): nat {
    |LastsMissing(f, r, first, n)| + |MiddlesMissing(f, r, first, n)|
  }

  /** The tables of pages first..first+n-1 have been completed, and no others. */
  ghost predicate BuiltRun(f: Forest, g: Forest, r: nat, first: nat, n: nat) {
    forall w: nat :: first <= w < MAXVPN ==> BuiltAt(f, g, r, first, n, w)
  }

  ghost predicate BuiltAt(f: Forest, g: Forest, r: nat, first: nat, n: nat, w: nat) {
    && (HasMiddle(g, r, w) <==> HasMiddle(f, r, w) || w / MIDDLE < Past(first, n, MIDDLE))
    && (HasLast(g, r, w) <==> HasLast(f, r, w) || w / 512 < Past(first, n, 512))
  }

  lemma {:induction false} NotBuilt(f: Forest, r: nat, first: nat)
    ensures BuiltRun(f, f, r, first, 0)
  {
    forall w: nat | first <= w < MAXVPN ensures BuiltAt(f, f, r, first, 0, w) { Ordered(first, w); }
  }

  lemma {:induction false} Ordered(a: nat, b: nat)
    requires a <= b
    ensures a / 512 <= b / 512 && a / MIDDLE <= b / MIDDLE && a / 512 / 512 == a / MIDDLE
    ensures (a + 1) / 512 <= a / 512 + 1 && (a + 1) / MIDDLE <= a / MIDDLE + 1
  {
  }

  lemma {:induction false} BuiltNext(f: Forest, g: Forest, h: Forest, r: nat, first: nat, n: nat)
    requires BuiltRun(f, g, r, first, n) && Built(g, h, r, first + n, 0)
    ensures BuiltRun(f, h, r, first, n + 1)
  {
    var m := n + 1;
    forall w: nat | first <= w < MAXVPN ensures BuiltAt(f, h, r, first, m, w) {
      assert BuiltAt(f, g, r, first, n, w);
      Near(first, n, w);
    }
  }

  /** The groups that n + 1 pages touch: those that n pages touch and that of the last page. */
  lemma {:induction false} Near(first: nat, n: nat, w: nat)
    requires first <= w
    ensures w / 512 < Past(first, n + 1, 512) <==> w / 512 < Past(first, n, 512) || NearLast(first + n, w)
    ensures w / MIDDLE < Past(first, n + 1, MIDDLE) <==> w / MIDDLE < Past(first, n, MIDDLE) || NearMiddle(first + n, w)
  {
    Ordered(first, w);
    Ordered(first + n, first + n);
    Ordered(w, w);
    if n > 0 { Ordered(first + n - 1, first + n); }
  }

  /** One more page takes the tables still missing on its path. */
  lemma {:induction false} TablesNext(f: Forest, g: Forest, r: nat, first: nat, n: nat)
    requires BuiltRun(f, g, r, first, n) && first + n < MAXVPN
    ensures Tables(f, r, first, n + 1) == Tables(f, r, first, n) + Missing(g, r, first + n)
  {
    var v := first + n;
    assert BuiltAt(f, g, r, first, n, v);
    LastsNext(f, r, first, n);
    MiddlesNext(f, r, first, n);
  }

  lemma {:induction false} LastsNext(f: Forest, r: nat, first: nat, n: nat)
    requires first + n < MAXVPN
    ensures |LastsMissing(f, r, first, n + 1)| ==
            |LastsMissing(f, r, first, n)|
            + if HasLast(f, r, first + n) || (first + n) / 512 < Past(first, n, 512) then 0 else 1
  {
    var v := first + n;
    GroupOf(v, 512);
    NearSame(f, r, v, v / 512 * 512);
    Groups(first, n, 512);
    OneMore(LastsMissing(f, r, first, n), LastsMissing(f, r, first, n + 1), v / 512);
  }

  lemma {:induction false} MiddlesNext(f: Forest, r: nat, first: nat, n: nat)
    requires first + n < MAXVPN
    ensures |MiddlesMissing(f, r, first, n + 1)| ==
            |MiddlesMissing(f, r, first, n)|
            + if HasMiddle(f, r, first + n) || (first + n) / MIDDLE < Past(first, n, MIDDLE) then 0 else 1
  {
    var v := first + n;
    GroupOf(v, MIDDLE);
    NearSame(f, r, v, v / MIDDLE * MIDDLE);
    Groups(first, n, MIDDLE);
    OneMore(MiddlesMissing(f, r, first, n), MiddlesMissing(f, r, first, n + 1), v / MIDDLE);
  }

  lemma {:induction false} OneMore(a: set<nat>, b: set<nat>, t: nat)
    requires forall u :: u in b <==> u in a || (u == t && t in b)
    ensures |b| == |a| + if t in b && t !in a then 1 else 0
  {
    if t in b && t !in a {
      assert b == a + {t};
    } else {
      assert b == a;
    }
  }

  /** The first page of v's group. */
  lemma {:induction false} GroupOf(v: nat, size: nat)
    requires v < MAXVPN && (size == 512 || size == MIDDLE)
    ensures v / size * size <= v
    ensures size == 512 ==> NearLast(v, v / size * size)
    ensures size == MIDDLE ==> NearMiddle(v, v / size * size)
  {
  }

  lemma {:induction false} Groups(first: nat, n: nat, size: nat)
    requires size == 512 || size == MIDDLE
    ensures first / size <= (first + n) / size <= Past(first, n, size)
    ensures Past(first, n, size) <= Past(first, n + 1, size) == (first + n) / size + 1
  {
  }

  lemma {:induction false} TablesGrow(f: Forest, r: nat, first: nat, n: nat, m: nat)
    requires n <= m
    ensures Tables(f, r, first, n) <= Tables(f, r, first, m)
    decreases m
  {
    if n < m {
      TablesGrow(f, r, first, n, m - 1);
      Groups(first, m - 1, 512);
      Groups(first, m - 1, MIDDLE);
      Fewer(LastsMissing(f, r, first, m - 1), LastsMissing(f, r, first, m));
      Fewer(MiddlesMissing(f, r, first, m - 1), MiddlesMissing(f, r, first, m));
    }
  }

  lemma {:induction false} Fewer(a: set<nat>, b: set<nat>)
    requires a <= b
    ensures |a| <= |b|
  {
    assert b == a + (b - a);
  }

  // ----- counting pages ----------------------------------------------------------------------------

  /** What a page, or a run of n pages, takes from the pool: the missing tables, and with `own` the pages too. */
  ghost function CostOne(f: Forest, r: nat, v: nat, own: bool): nat {
    (if own then 1 else 0) + Missing(f, r, v)
  }

  ghost function Cost(f: Forest, r: nat, first: nat, n: nat, own: bool): nat {
    (if own then n else 0) + Tables(f, r, first, n)
  }

  /** Mapping page v succeeds exactly if k0 free pages are enough, and leaves k of them. */
  ghost predicate Counted(f: Forest, k0: nat, g: Forest, k: nat, r: nat, v: nat, own: bool, ok: bool) {
    && (ok <==> k0 >= CostOne(f, r, v, own))
    && (ok ==> Built(f, g, r, v, 0) && k + CostOne(f, r, v, own) == k0)
  }

  /** First the page itself, then its tables. */
  lemma {:induction false} OwnCounted(f: Forest, k0: nat, g: Forest, k: nat, k': nat, r: nat, v: nat, ok: bool)
    requires Counted(f, k0, g, k, r, v, false, ok) && (ok ==> k' == k)
    ensures Counted(f, k0 + 1, g, k', r, v, true, ok)
  {
  }

  /** Of k0 free pages k are left after n of `goal` pages; the run has failed only if k0 do not suffice for all. */
  ghost predicate RunCounted(
    f: Forest, k0: nat, g: Forest, k: nat, r: nat, first: nat, n: nat, goal: nat, own: bool, ok: bool)
  {
    && (ok ==> BuiltRun(f, g, r, first, n) && k + Cost(f, r, first, n, own) == k0)
    && (!ok ==> k0 < Cost(f, r, first, goal, own))
  }

  lemma {:induction false} RunStart(f: Forest, k0: nat, r: nat, first: nat, goal: nat, own: bool)
    ensures RunCounted(f, k0, f, k0, r, first, 0, goal, own, true)
  {
    NotBuilt(f, r, first);
    NoTables(f, r, first);
  }

  lemma {:induction false} NoTables(f: Forest, r: nat, first: nat)
    ensures Tables(f, r, first, 0) == 0
  {
    assert LastsMissing(f, r, first, 0) == {} && MiddlesMissing(f, r, first, 0) == {};
  }

  lemma {:induction false} RunNext(
    f: Forest, k0: nat, g: Forest, k: nat, h: Forest, k': nat, r: nat, first: nat, n: nat, v: nat, goal: nat, own: bool,
    ok: bool)
    requires RunCounted(f, k0, g, k, r, first, n, goal, own, true) && n < goal && v == first + n < MAXVPN
    requires Counted(g, k, h, k', r, v, own, ok)
    ensures RunCounted(f, k0, h, k', r, first, if ok then n + 1 else n, goal, own, ok)
  {
    TablesNext(f, g, r, first, n);
    TablesGrow(f, r, first, n + 1, goal);
    if ok { BuiltNext(f, g, h, r, first, n); }
  }
}
