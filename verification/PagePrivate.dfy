/** Runs of pages that one root maps to pages of its own: what can be freed together with its mapping. */
module PagePrivate {
  import opened PageTree

  /** The physical pages behind pages lo..lo+n-1. */
  ghost function PagesOf(f: Forest, root: nat, lo: nat, n: nat): set<nat>
    requires Ok(f) && IsRoot(f, root) && lo + n <= MAXVPN
  {
    if n == 0 then {} else PagesOf(f, root, lo, n - 1) + {Target(Get(f, root, lo + n - 1))}
  }

  /** Exactly the pages that some of lo..lo+n-1 map to. */
  lemma {:induction false} PagesOfAre(f: Forest, root: nat, lo: nat, n: nat, q: nat)
    requires Ok(f) && IsRoot(f, root) && lo + n <= MAXVPN
    ensures q in PagesOf(f, root, lo, n) <==> exists v: nat :: lo <= v < lo + n && MapsTo(f, root, v, q)
  {
    if n > 0 {
      PagesOfAre(f, root, lo, n - 1, q);
      if q == Target(Get(f, root, lo + n - 1)) { assert MapsTo(f, root, lo + n - 1, q); }
    }
  }

  ghost predicate MapsTo(f: Forest, root: nat, v: nat, q: nat) {
    Ok(f) && IsRoot(f, root) && v < MAXVPN && Get(f, root, v) / 1024 * 4096 == q
  }

  /** Page lo+k is mapped to a real page that is neither in the pool nor behind lo..lo+k-1. */
  ghost predicate OwnPage(f: Forest, pool: set<nat>, root: nat, lo: nat, k: nat)
    requires Ok(f) && IsRoot(f, root) && lo + k < MAXVPN
  {
    var e := Get(f, root, lo + k);
    IsValid(e) && Target(e) > 0 && Target(e) !in pool && Target(e) !in PagesOf(f, root, lo, k)
  }

  /** All of lo..lo+n-1 are mapped, to distinct pages outside the pool. */
  ghost predicate OwnPages(f: Forest, pool: set<nat>, root: nat, lo: nat, n: nat)
    requires Ok(f) && IsRoot(f, root) && lo + n <= MAXVPN
  {
    forall k: nat :: k < n ==> OwnPage(f, pool, root, lo, k)
  }

  lemma {:induction false} PagesSame(f: Forest, h: Forest, root: nat, lo: nat, n: nat)
    requires Ok(f) && Ok(h) && IsRoot(f, root) && IsRoot(h, root) && lo + n <= MAXVPN
    requires forall v: nat :: lo <= v < lo + n ==> SameAt(f, h, root, v)
    ensures PagesOf(h, root, lo, n) == PagesOf(f, root, lo, n)
  {
    if n > 0 {
      PagesSame(f, h, root, lo, n - 1);
      assert SameAt(f, h, root, lo + n - 1);
    }
  }

  /** Ownership survives changes elsewhere and a shrinking pool. */
  lemma {:induction false} OwnSame(f: Forest, h: Forest, pool: set<nat>, pool': set<nat>, root: nat, lo: nat, n: nat)
    requires Ok(f) && Ok(h) && IsRoot(f, root) && IsRoot(h, root) && lo + n <= MAXVPN && pool' <= pool
    requires forall v: nat :: lo <= v < lo + n ==> SameAt(f, h, root, v)
    requires OwnPages(f, pool, root, lo, n)
    ensures OwnPages(h, pool', root, lo, n) && PagesOf(h, root, lo, n) == PagesOf(f, root, lo, n)
  {
    PagesSame(f, h, root, lo, n);
    forall k: nat | k < n ensures OwnPage(h, pool', root, lo, k) {
      assert OwnPage(f, pool, root, lo, k) && SameAt(f, h, root, lo + k);
      PagesSame(f, h, root, lo, k);
    }
  }

  lemma {:induction false} OwnOutsidePool(f: Forest, pool: set<nat>, root: nat, lo: nat, n: nat)
    requires Ok(f) && IsRoot(f, root) && lo + n <= MAXVPN && OwnPages(f, pool, root, lo, n)
    ensures PagesOf(f, root, lo, n) !! pool
  {
    if n > 0 {
      assert OwnPage(f, pool, root, lo, n - 1);
      forall k: nat | k < n - 1 ensures OwnPage(f, pool, root, lo, k) { }
      OwnOutsidePool(f, pool, root, lo, n - 1);
    }
  }

  /** One more page of its own at the end of a run. */
  lemma {:induction false} OwnMore(f: Forest, pool: set<nat>, root: nat, lo: nat, n: nat)
    requires Ok(f) && IsRoot(f, root) && lo + n < MAXVPN
    requires OwnPages(f, pool, root, lo, n) && OwnPage(f, pool, root, lo, n)
    ensures OwnPages(f, pool, root, lo, n + 1)
    ensures PagesOf(f, root, lo, n + 1) == PagesOf(f, root, lo, n) + {Target(Get(f, root, lo + n))}
  {
    forall k: nat | k < n + 1 ensures OwnPage(f, pool, root, lo, k) {
      if k < n { assert OwnPage(f, pool, root, lo, k); }
    }
  }
}
