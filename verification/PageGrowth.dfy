/** Runs of pages that uvmalloc and uvmcopy add to a page table, and take away again when memory runs out. */
module PageGrowth {
  import opened PageTree
  import opened PagePrivate
  import opened PageCount
  import opened PageTable

  /** The permissions mappages records: those asked for, and PTE_V. */
  function WithV(perm: nat): nat { if perm % 2 == 1 then perm else perm + 1 }

  /** Root maps v with the permissions perm. */
  ghost predicate FlagsAt(f: Forest, root: nat, v: nat, perm: nat) {
    Ok(f) && IsRoot(f, root) && v < MAXVPN && IsValid(Get(f, root, v)) && Flags(Get(f, root, v)) == WithV(perm)
  }

  /** Permissions that make a leaf entry. */
  ghost predicate LeafPerm(perm: nat) { perm < 1024 && perm / 2 % 8 != 0 }

  /**
   * From f with free and table pages pool0, root has been given pages first..first+|perms|-1 with these
   * permissions, each a page of its own taken from pool0; the rest of pool0 is still there, and every other
   * mapping of every root is as it was.
   */
  ghost predicate Grown(f: Forest, pool0: set<nat>, g: Forest, pool: set<nat>, root: nat, first: nat, perms: seq<nat>) {
    && SameOutside(f, g, root, first, first + |perms|) && IsRoot(f, root) && IsRoot(g, root)
    && first + |perms| <= MAXVPN
    && OwnPages(g, pool, root, first, |perms|)
    && pool + PagesOf(g, root, first, |perms|) == pool0
    && forall k: nat :: k < |perms| ==> FlagsAt(g, root, first + k, perms[k])
  }

  lemma {:induction false} NotGrown(f: Forest, pool: set<nat>, root: nat, first: nat)
    requires Ok(f) && IsRoot(f, root) && first <= MAXVPN
    ensures Grown(f, pool, f, pool, root, first, [])
  {
    SameMapsSelf(f);
    SameMapsOutside(f, f, root, first, first);
  }

  /** Page p from the pool has been mapped next. */
  lemma {:induction false} GrownMore(
    f: Forest, pool0: set<nat>, g: Forest, pool: set<nat>, root: nat, first: nat, perms: seq<nat>,
    h: Forest, p: nat, perm: nat)
    requires Grown(f, pool0, g, pool, root, first, perms) && first + |perms| < MAXVPN && p in pool && PageAddr(p)
    requires LeafPerm(perm)
    requires SameOutside(g, h, root, first + |perms|, first + |perms| + 1)
    requires HasEntry(h, root, first + |perms|, MakePte(p, perm))
    ensures Grown(f, pool0, h, pool - {p}, root, first, perms + [perm])
  {
    var n := |perms|;
    MadePte(p, perm);
    SameOutsideTwice(f, g, h, root, first, first + n, first + n, first + n + 1);
    OwnSame(g, h, pool, pool - {p}, root, first, n);
    OwnOutsidePool(g, pool, root, first, n);
    OwnMore(h, pool - {p}, root, first, n);
    forall k: nat | k < n + 1 ensures FlagsAt(h, root, first + k, (perms + [perm])[k]) {
      if k < n { assert FlagsAt(g, root, first + k, perms[k]) && SameAt(g, h, root, first + k); }
    }
  }

  /** Only interior tables have been added. */
  lemma {:induction false} GrownSame(
    f: Forest, pool0: set<nat>, g: Forest, pool: set<nat>, root: nat, first: nat, perms: seq<nat>, h: Forest)
    requires Grown(f, pool0, g, pool, root, first, perms) && SameMaps(g, h)
    ensures Grown(f, pool0, h, pool, root, first, perms)
  {
    var n := |perms|;
    SameMapsOutside(g, h, root, first + n, first + n);
    SameOutsideTwice(f, g, h, root, first, first + n, first + n, first + n);
    OwnSame(g, h, pool, pool, root, first, n);
    forall k: nat | k < n ensures FlagsAt(h, root, first + k, perms[k]) {
      assert FlagsAt(g, root, first + k, perms[k]) && SameAt(g, h, root, first + k);
    }
  }

  /** Mapping unmapped pages and unmapping them again leaves the flat maps as they were. */
  lemma {:induction false} Restored(f: Forest, g: Forest, h: Forest, root: nat, first: nat, n: nat)
    requires SameOutside(f, g, root, first, first + n) && SameOutside(g, h, root, first, first + n)
    requires Unmapped(f, root, first, first + n) && Unmapped(h, root, first, first + n)
    ensures SameMaps(f, h)
  {
    SameOutsideTwice(f, g, h, root, first, first + n, first, first + n);
    forall s: nat, v: nat ensures SameAt(f, h, s, v) {
      if s == root && first <= v < first + n {
        assert NoEntry(f, root, v) && NoEntry(h, root, v);
      }
    }
  }

  /** A page that f does not map is still unmapped after the run before it has been added. */
  lemma {:induction false} NextUnmapped(
    f: Forest, pool0: set<nat>, g: Forest, pool: set<nat>, root: nat, first: nat, perms: seq<nat>)
    requires Grown(f, pool0, g, pool, root, first, perms) && first + |perms| < MAXVPN
    requires NoEntry(f, root, first + |perms|)
    ensures NoEntry(g, root, first + |perms|)
  {
    assert SameAt(f, g, root, first + |perms|);
  }

  // ----- contents ------------------------------------------------------------------------------------

  type PageData = map<nat, seq<nat>>

  function ZeroPage(): (page: seq<nat>)
    ensures |page| == 4096 && forall k :: 0 <= k < 4096 ==> page[k] == 0
  {
    seq(PGSIZE, _ => 0)
  }

  /** Page v of root holds 4096 zeros. */
  ghost predicate ZeroAt(f: Forest, root: nat, v: nat, data: PageData) {
    && Ok(f) && IsRoot(f, root) && v < MAXVPN && Target(Get(f, root, v)) in data
    && |data[Target(Get(f, root, v))]| == 4096
    && forall k :: 0 <= k < 4096 ==> data[Target(Get(f, root, v))][k] == 0
  }

  ghost predicate SameData(d: PageData, e: PageData, q: nat) {
    (q in d <==> q in e) && (q in d && q in e ==> e[q] == d[q])
  }

  /** Only pages of the pool may have new contents. */
  ghost predicate Untouched(d: PageData, e: PageData, pool: set<nat>) {
    forall q: nat :: q !in pool ==> SameData(d, e, q)
  }

  /** The page behind v holds these contents. */
  ghost predicate FilledAt(f: Forest, root: nat, v: nat, data: PageData, c: seq<nat>) {
    Ok(f) && IsRoot(f, root) && v < MAXVPN && Target(Get(f, root, v)) in data && data[Target(Get(f, root, v))] == c
  }

  ghost predicate Filled(f: Forest, root: nat, first: nat, fills: seq<seq<nat>>, data: PageData) {
    forall k: nat :: k < |fills| ==> FilledAt(f, root, first + k, data, fills[k])
  }

  lemma {:induction false} UntouchedTwice(d: PageData, e: PageData, e': PageData, pool: set<nat>, pool': set<nat>)
    requires Untouched(d, e, pool) && Untouched(e, e', pool') && pool' <= pool
    ensures Untouched(d, e', pool)
  {
    forall q: nat | q !in pool ensures SameData(d, e', q) { assert SameData(d, e, q) && SameData(e, e', q); }
  }

  /** Pages of one's own keep their contents while only the pool changes. */
  lemma {:induction false} StillFilled(
    f: Forest, h: Forest, pool: set<nat>, root: nat, first: nat, fills: seq<seq<nat>>, d: PageData, e: PageData)
    requires Ok(f) && Ok(h) && IsRoot(f, root) && IsRoot(h, root) && first + |fills| <= MAXVPN
    requires Filled(f, root, first, fills, d) && OwnPages(f, pool, root, first, |fills|) && Untouched(d, e, pool)
    requires forall v: nat :: first <= v < first + |fills| ==> SameAt(f, h, root, v)
    ensures Filled(h, root, first, fills, e)
  {
    forall k: nat | k < |fills| ensures FilledAt(h, root, first + k, e, fills[k]) {
      assert FilledAt(f, root, first + k, d, fills[k]) && OwnPage(f, pool, root, first, k);
      assert SameAt(f, h, root, first + k);
      assert SameData(d, e, Target(Get(f, root, first + k)));
    }
  }

  // ----- growing -------------------------------------------------------------------------------------

  /** The tables, the pages that are free or tables, how many are free, and what the others hold. */
  datatype State = State(f: Forest, pool: set<nat>, k: nat, data: PageData)

  ghost function StateOf(vm: VM): State
    reads vm
  {
    State(vm.View(), vm.Pool(), |vm.free|, vm.data)
  }

  /**
   * From s0 to s the run has grown by |perms| of `goal` pages with these contents, and nothing outside the pool
   * was written; if it has failed, there were not enough pages for all of it.
   */
  ghost predicate Growing(
    s0: State, s: State, root: nat, first: nat, perms: seq<nat>, fills: seq<seq<nat>>, goal: nat, ok: bool)
  {
    && Grown(s0.f, s0.pool, s.f, s.pool, root, first, perms) && |fills| == |perms|
    && Filled(s.f, root, first, fills, s.data) && Untouched(s0.data, s.data, s0.pool)
    && RunCounted(s0.f, s0.k, s.f, s.k, root, first, |perms|, goal, true, ok)
  }

  lemma {:induction false} GrowingNone(s: State, root: nat, first: nat, goal: nat)
    requires Ok(s.f) && IsRoot(s.f, root) && first <= MAXVPN
    ensures Growing(s, s, root, first, [], [], goal, true)
  {
    NotGrown(s.f, s.pool, root, first);
    RunStart(s.f, s.k, root, first, goal, true);
  }

  /** What one turn of the loops of uvmalloc and uvmcopy does. */
  ghost predicate OneGrown(s: State, t: State, root: nat, v: nat, perm: nat, fill: seq<nat>, p: nat, ok: bool) {
    && Counted(s.f, s.k, t.f, t.k, root, v, true, ok)
    && (!ok ==> t.pool == s.pool && SameMaps(s.f, t.f) && Untouched(s.data, t.data, s.pool))
    && (ok ==> && p in s.pool && PageAddr(p) && t.pool == s.pool - {p} && t.data == s.data[p := fill]
               && OnlyMapped(s.f, t.f, root, v, p, perm))
  }

  lemma {:induction false} GrowingNext(
    s0: State, s: State, t: State, root: nat, first: nat, v: nat, perms: seq<nat>, fills: seq<seq<nat>>, goal: nat,
    perm: nat, fill: seq<nat>, p: nat)
    requires Growing(s0, s, root, first, perms, fills, goal, true) && |perms| < goal && v == first + |perms| < MAXVPN
    requires LeafPerm(perm) && OneGrown(s, t, root, v, perm, fill, p, true)
    ensures Growing(s0, t, root, first, perms + [perm], fills + [fill], goal, true)
  {
    var n := |perms|;
    GrownMore(s0.f, s0.pool, s.f, s.pool, root, first, perms, t.f, p, perm);
    RunNext(s0.f, s0.k, s.f, s.k, t.f, t.k, root, first, n, v, goal, true, true);
    FilledNext(s.f, t.f, s.pool, root, first, v, fills, s.data, perm, fill, p);
    UntouchedTwice(s0.data, s.data, t.data, s0.pool, s.pool);
  }

  lemma {:induction false} FilledNext(
    f: Forest, h: Forest, pool: set<nat>, root: nat, first: nat, v: nat, fills: seq<seq<nat>>, d: PageData,
    perm: nat, fill: seq<nat>, p: nat)
    requires Ok(f) && IsRoot(f, root) && v == first + |fills| < MAXVPN && LeafPerm(perm) && p in pool && PageAddr(p)
    requires Filled(f, root, first, fills, d) && OwnPages(f, pool, root, first, |fills|)
    requires SameOutside(f, h, root, v, v + 1) && HasEntry(h, root, v, MakePte(p, perm))
    ensures Filled(h, root, first, fills + [fill], d[p := fill]) && Untouched(d, d[p := fill], pool)
  {
    var e := d[p := fill];
    MadePte(p, perm);
    StillFilled(f, h, pool, root, first, fills, d, e);
    forall k: nat | k < |fills| + 1 ensures FilledAt(h, root, first + k, e, (fills + [fill])[k]) {
      if k < |fills| { assert FilledAt(h, root, first + k, e, fills[k]); }
    }
  }

  lemma {:induction false} GrowingStops(
    s0: State, s: State, t: State, root: nat, first: nat, v: nat, perms: seq<nat>, fills: seq<seq<nat>>, goal: nat,
    perm: nat, fill: seq<nat>, p: nat)
    requires Growing(s0, s, root, first, perms, fills, goal, true) && |perms| < goal && v == first + |perms| < MAXVPN
    requires OneGrown(s, t, root, v, perm, fill, p, false)
    ensures Growing(s0, t, root, first, perms, fills, goal, false)
  {
    GrownSame(s0.f, s0.pool, s.f, s.pool, root, first, perms, t.f);
    RunNext(s0.f, s0.k, s.f, s.k, t.f, t.k, root, first, |perms|, v, goal, true, false);
    StillFilled(s.f, t.f, s.pool, root, first, fills, s.data, t.data);
    UntouchedTwice(s0.data, s.data, t.data, s0.pool, s.pool);
  }

  lemma {:induction false} NoPage(s: State, root: nat, v: nat, perm: nat, fill: seq<nat>, p: nat)
    requires Ok(s.f) && s.k == 0
    ensures OneGrown(s, s, root, v, perm, fill, p, false)
  {
    SameMapsSelf(s.f);
  }

  /** Page p has been taken and filled. */
  ghost predicate Taken(s: State, m: State, p: nat, fill: seq<nat>) {
    && p in s.pool && PageAddr(p) && m.f == s.f && m.pool == s.pool - {p} && m.k + 1 == s.k
    && m.data == s.data[p := fill]
  }

  /** What mappages of the page p, and kfree if it fails, do. */
  ghost predicate MapOutcome(m: State, t: State, root: nat, v: nat, perm: nat, p: nat, ok: bool) {
    && Counted(m.f, m.k, t.f, t.k, root, v, false, ok) && t.data == m.data
    && (ok ==> OnlyMapped(m.f, t.f, root, v, p, perm) && t.pool == m.pool)
    && (!ok ==> SameMaps(m.f, t.f) && t.pool == m.pool + {p})
  }

  /** Page v of root, and nothing else, has been mapped to p. */
  ghost predicate OnlyMapped(f: Forest, g: Forest, root: nat, v: nat, p: nat, perm: nat) {
    SameOutside(f, g, root, v, v + 1) && HasEntry(g, root, v, MakePte(p, perm))
  }

  lemma {:induction false} PageMapped(
    s: State, m: State, t: State, root: nat, v: nat, perm: nat, fill: seq<nat>, p: nat, ok: bool)
    requires Taken(s, m, p, fill) && MapOutcome(m, t, root, v, perm, p, ok)
    ensures OneGrown(s, t, root, v, perm, fill, p, ok)
  {
    OwnCounted(m.f, m.k, t.f, t.k, t.k, root, v, ok);
  }

  /** kalloc and filling the page. */
  method TakePage(vm: VM, fill: seq<nat>) returns (page: nat)
    requires vm.Valid()
    modifies vm`free, vm`data
    ensures vm.Valid()
    ensures page == 0 ==> StateOf(vm) == old(StateOf(vm)) && vm.free == {}
    ensures page != 0 ==> Taken(old(StateOf(vm)), StateOf(vm), page, fill)
  {
    page := vm.Kalloc();
    if page == 0 {
      assert vm.free == {};
      return;
    }
    assert PageAddr(page);
    vm.data := vm.data[page := fill];
  }

  lemma {:induction false} Returned(m: State, t: State, t': State, root: nat, v: nat, perm: nat, p: nat)
    requires MapFailed(m, t, root, v) && t'.f == t.f && t'.data == t.data && t'.pool == t.pool + {p}
    ensures MapOutcome(m, t', root, v, perm, p, false)
  {
  }

  /** mappages has failed and has left only tables behind. */
  ghost predicate MapFailed(m: State, t: State, root: nat, v: nat) {
    Counted(m.f, m.k, t.f, t.k, root, v, false, false) && SameMaps(m.f, t.f) && t.pool == m.pool && t.data == m.data
  }

  /** mappages of a page just taken, which goes back if mappages fails. */
  method MapTaken(vm: VM, root: nat, vpn: nat, perm: nat, page: nat) returns (ok: bool)
    requires vm.Valid() && vpn < MAXVPN && NoEntry(vm.View(), root, vpn) && LeafPerm(perm)
    requires PageAddr(page) && page !in vm.Pool()
    modifies vm`mem, vm`free, vm`level
    ensures vm.Valid() && MapOutcome(old(StateOf(vm)), StateOf(vm), root, vpn, perm, page, ok)
    ensures !ok ==> |vm.free| <= 1
  {
    ghost var m := StateOf(vm);
    ok := vm.MapPage(root, vpn, page, perm);
    if !ok {
      GiveBack(vm, root, vpn, perm, page, m);
    }
  }

  method GiveBack(vm: VM, root: nat, vpn: nat, perm: nat, page: nat, ghost m: State)
    requires vm.Valid() && vm.free == {} && PageAddr(page) && page !in m.pool && MapFailed(m, StateOf(vm), root, vpn)
    modifies vm`free
    ensures vm.Valid() && MapOutcome(m, StateOf(vm), root, vpn, perm, page, false) && |vm.free| <= 1
  {
    ghost var t := StateOf(vm);
    assert page !in vm.Pool();
    vm.Kfree(page);
    assert vm.free == {page};
    Returned(m, t, StateOf(vm), root, vpn, perm, page);
  }

  /** kalloc, filling the page, and mappages. */
  method GrowOne(vm: VM, root: nat, vpn: nat, perm: nat, fill: seq<nat>) returns (ok: bool, ghost p: nat)
    requires vm.Valid() && vpn < MAXVPN && NoEntry(vm.View(), root, vpn) && LeafPerm(perm)
    modifies vm
    ensures vm.Valid() && OneGrown(old(StateOf(vm)), StateOf(vm), root, vpn, perm, fill, p, ok)
    ensures !ok ==> |vm.free| <= 1
  {
    ghost var s := StateOf(vm);
    var page := TakePage(vm, fill);
    p := page;
    if page == 0 {
      NoPage(s, root, vpn, perm, fill, p);
      return false, p;
    }

    ghost var m := StateOf(vm);
    ok := MapTaken(vm, root, vpn, perm, page);
    PageMapped(s, m, StateOf(vm), root, vpn, perm, fill, p, ok);
  }

  /** One turn of the loops of uvmalloc and uvmcopy. */
  method Grow(vm: VM, root: nat, vpn: nat, perm: nat, fill: seq<nat>, ghost s0: State, ghost first: nat,
              ghost perms: seq<nat>, ghost fills: seq<seq<nat>>, ghost goal: nat) returns (ok: bool)
    requires vm.Valid() && Growing(s0, StateOf(vm), root, first, perms, fills, goal, true)
    requires vpn == first + |perms| < MAXVPN && |perms| < goal && NoEntry(s0.f, root, vpn) && LeafPerm(perm)
    modifies vm
    ensures vm.Valid() && (!ok ==> |vm.free| <= 1)
    ensures if ok then Growing(s0, StateOf(vm), root, first, perms + [perm], fills + [fill], goal, true)
            else Growing(s0, StateOf(vm), root, first, perms, fills, goal, false)
  {
    ghost var s := StateOf(vm);
    NextUnmapped(s0.f, s0.pool, s.f, s.pool, root, first, perms);
    ghost var p;
    ok, p := GrowOne(vm, root, vpn, perm, fill);
    if ok {
      GrowingNext(s0, s, StateOf(vm), root, first, vpn, perms, fills, goal, perm, fill, p);
    } else {
      GrowingStops(s0, s, StateOf(vm), root, first, vpn, perms, fills, goal, perm, fill, p);
    }
  }

  /** Unmapping and freeing the whole run undoes it. */
  lemma {:induction false} RolledBack(
    f: Forest, pool0: set<nat>, g: Forest, pool: set<nat>, root: nat, first: nat, perms: seq<nat>,
    h: Forest, free: set<nat>, free': set<nat>)
    requires Grown(f, pool0, g, pool, root, first, perms) && Unmapped(f, root, first, first + |perms|)
    requires SameOutside(g, h, root, first, first + |perms|) && Unmapped(h, root, first, first + |perms|)
    requires h.mem.Keys == g.mem.Keys && pool == free + g.mem.Keys && free' == free + PagesOf(g, root, first, |perms|)
    ensures SameMaps(f, h) && free' + h.mem.Keys == pool0 && |free'| <= |free| + |perms|
  {
    Restored(f, g, h, root, first, |perms|);
    JoinCount(free, PagesOf(g, root, first, |perms|));
    PagesCount(g, root, first, |perms|);
  }

  lemma {:induction false} PagesCount(f: Forest, root: nat, lo: nat, n: nat)
    requires Ok(f) && IsRoot(f, root) && lo + n <= MAXVPN
    ensures |PagesOf(f, root, lo, n)| <= n
  {
    if n > 0 { PagesCount(f, root, lo, n - 1); }
  }

  lemma {:induction false} JoinCount(a: set<nat>, b: set<nat>)
    ensures |a + b| <= |a| + |b|
  {
    assert |a + b| == |a| + |b| - |a * b|;
  }

  ghost predicate IsSame<T>(s: seq<T>, x: T) { forall k :: 0 <= k < |s| ==> s[k] == x }

  lemma {:induction false} SameMore<T>(s: seq<T>, x: T)
    requires IsSame(s, x)
    ensures IsSame(s + [x], x)
  {
  }

  /** n copies of x. */
  ghost function Same<T>(x: T, n: nat): (s: seq<T>)
    ensures |s| == n && forall k :: 0 <= k < n ==> s[k] == x
  {
    if n == 0 then [] else Same(x, n - 1) + [x]
  }

  /**
   * The pages are added with zeros in them, each a page of its own, exactly if there were enough free pages for
   * them and for the tables missing; otherwise every map is as before and the pages taken are back.
   */
  ghost predicate AllOrNone(s0: State, s: State, root: nat, first: nat, npages: nat, perm: nat, ok: bool) {
    && Untouched(s0.data, s.data, s0.pool) && (ok <==> s0.k >= npages + Tables(s0.f, root, first, npages))
    && (ok ==> && Grown(s0.f, s0.pool, s.f, s.pool, root, first, Same(perm, npages))
               && Filled(s.f, root, first, Same(ZeroPage(), npages), s.data))
    && (!ok ==> SameMaps(s0.f, s.f) && s.pool == s0.pool && s.k <= npages)
  }

  /**
   * uvmalloc: it succeeds exactly if there are free pages enough for the new pages and for the tables that are
   * missing, and then the pages of newsz are mapped as well, filled with zeros; otherwise every map is as before
   * and every leaf page taken is back. Pages in use keep their contents either way.
   */
  method UvmAlloc(vm: VM, root: nat, oldsz: nat, newsz: nat, xperm: nat) returns (sz: nat)
    requires vm.Valid() && IsRoot(vm.View(), root) && newsz <= MAXVA && LeafPerm(18 + xperm)
    requires oldsz <= newsz ==> Unmapped(vm.View(), root, PagesFor(oldsz), PagesFor(newsz))
    modifies vm
    ensures vm.Valid()
    ensures newsz < oldsz ==>
        sz == oldsz && vm.View() == old(vm.View()) && vm.free == old(vm.free) && vm.data == old(vm.data)
    ensures newsz >= oldsz ==>
              && PagesFor(oldsz) <= PagesFor(newsz) && (sz == newsz || sz == 0)
              && AllOrNone(old(StateOf(vm)), StateOf(vm), root, PagesFor(oldsz), PagesFor(newsz) - PagesFor(oldsz),
                           18 + xperm, sz == newsz)
    ensures newsz >= oldsz && sz == newsz ==>
              forall v: nat :: PagesFor(oldsz) <= v < PagesFor(newsz) ==> ZeroAt(vm.View(), root, v, vm.data)
  {
    if newsz < oldsz {
      return oldsz;
    }
    Rounded(oldsz, newsz);
    var first := PagesFor(oldsz);
    var npages := PagesFor(newsz) - first;
    var ok := GrowOrShrink(vm, root, oldsz, first, npages, 18 + xperm);
    sz := if ok then newsz else 0;
    assert sz == newsz <==> ok;
    if ok { AllZero(vm.View(), root, first, npages, vm.data); }
  }

  lemma {:induction false} AllZero(f: Forest, root: nat, first: nat, n: nat, data: PageData)
    requires Filled(f, root, first, Same(ZeroPage(), n), data)
    ensures forall v: nat :: first <= v < first + n ==> ZeroAt(f, root, v, data)
  {
    forall v: nat | first <= v < first + n ensures ZeroAt(f, root, v, data) {
      assert FilledAt(f, root, first + (v - first), data, Same(ZeroPage(), n)[v - first]);
    }
  }

  /** The loop of uvmalloc and its way out. */
  method GrowOrShrink(vm: VM, root: nat, oldsz: nat, first: nat, npages: nat, perm: nat) returns (ok: bool)
    requires vm.Valid() && IsRoot(vm.View(), root) && first == PagesFor(oldsz) && first + npages <= MAXVPN
    requires LeafPerm(perm)
    requires Unmapped(vm.View(), root, first, first + npages)
    modifies vm
    ensures vm.Valid() && AllOrNone(old(StateOf(vm)), StateOf(vm), root, first, npages, perm, ok)
    ensures (npages == 0 ==> ok)
  {
    ghost var s0 := StateOf(vm);
    var n;
    ghost var perms, fills;
    ok, n, perms, fills := GrowRun(vm, root, first, npages, perm);
    if ok {
      GotAll(s0, StateOf(vm), root, first, npages, perm, perms, fills);
    } else {
      UndoGrowth(vm, root, oldsz, first, n, s0, npages, perm, perms, fills);
    }
  }

  method UndoGrowth(
    vm: VM, root: nat, oldsz: nat, first: nat, n: nat,
    ghost s0: State, ghost npages: nat, ghost perm: nat, ghost perms: seq<nat>, ghost fills: seq<seq<nat>>)
    requires vm.Valid() && Growing(s0, StateOf(vm), root, first, perms, fills, npages, false)
    requires first == PagesFor(oldsz) && n == |perms| < npages && Unmapped(s0.f, root, first, first + npages)
    requires |vm.free| <= 1
    modifies vm`mem, vm`free, vm`level
    ensures vm.Valid() && AllOrNone(s0, StateOf(vm), root, first, npages, perm, false)
  {
    ghost var s := StateOf(vm);
    UnmappedPart(s0.f, root, first, first + n, first + npages);
    ShrinkBack(vm, root, oldsz, first, n, s0.f, s0.pool, perms);
    GotNone(s0, s, StateOf(vm), root, first, npages, perm, perms, fills);
  }

  lemma {:induction false} GotAll(
    s0: State, s: State, root: nat, first: nat, npages: nat, perm: nat, perms: seq<nat>, fills: seq<seq<nat>>)
    requires Growing(s0, s, root, first, perms, fills, npages, true) && |perms| == npages
    requires IsSame(perms, perm) && IsSame(fills, ZeroPage())
    ensures AllOrNone(s0, s, root, first, npages, perm, true)
  {
    assert perms == Same(perm, npages) && fills == Same(ZeroPage(), npages);
  }

  lemma {:induction false} GotNone(
    s0: State, s: State, t: State, root: nat, first: nat, npages: nat, perm: nat, perms: seq<nat>, fills: seq<seq<nat>>)
    requires Growing(s0, s, root, first, perms, fills, npages, false) && t.data == s.data
    requires SameMaps(s0.f, t.f) && t.pool == s0.pool && t.k <= npages
    ensures AllOrNone(s0, t, root, first, npages, perm, false)
  {
  }

  /** The loop of uvmalloc: n pages have been added when it ends. */
  method GrowRun(vm: VM, root: nat, first: nat, npages: nat, perm: nat)
    returns (ok: bool, n: nat, ghost perms: seq<nat>, ghost fills: seq<seq<nat>>)
    requires vm.Valid() && IsRoot(vm.View(), root) && first + npages <= MAXVPN && LeafPerm(perm)
    requires Unmapped(vm.View(), root, first, first + npages)
    modifies vm
    ensures vm.Valid() && n <= npages && (if ok then n == npages else n < npages && |vm.free| <= 1)
    ensures Growing(old(StateOf(vm)), StateOf(vm), root, first, perms, fills, npages, ok)
    ensures |perms| == n && IsSame(perms, perm) && IsSame(fills, ZeroPage())
  {
    ghost var s0 := StateOf(vm);
    n, ok, perms, fills := 0, true, [], [];
    GrowingNone(s0, root, first, npages);
    while ok && n < npages
      invariant n <= npages && vm.Valid() && (!ok ==> n < npages && |vm.free| <= 1)
      invariant |perms| == n && IsSame(perms, perm) && IsSame(fills, ZeroPage())
      invariant Growing(s0, StateOf(vm), root, first, perms, fills, npages, ok)
      decreases ok, npages - n
    {
      assert NoEntry(s0.f, root, first + n);
      ok := Grow(vm, root, first + n, perm, ZeroPage(), s0, first, perms, fills, npages);
      if ok {
        SameMore(perms, perm);
        SameMore(fills, ZeroPage());
        n, perms, fills := n + 1, perms + [perm], fills + [ZeroPage()];
      }
    }
  }

  /** uvmalloc's way out: uvmdealloc down to oldsz. */
  method ShrinkBack(
    vm: VM, root: nat, oldsz: nat, first: nat, n: nat, ghost f: Forest, ghost pool0: set<nat>, ghost perms: seq<nat>)
    requires vm.Valid() && Grown(f, pool0, vm.View(), vm.Pool(), root, first, perms) && first == PagesFor(oldsz)
    requires n == |perms| && Unmapped(f, root, first, first + n)
    modifies vm`mem, vm`free, vm`level
    ensures vm.Valid() && SameMaps(f, vm.View()) && vm.Pool() == pool0 && |vm.free| <= old(|vm.free|) + n
  {
    ghost var g, pool, free := vm.View(), vm.Pool(), vm.free;
    DeallocRun(vm, root, oldsz, first, n);
    RolledBack(f, pool0, g, pool, root, first, perms, vm.View(), free, vm.free);
  }

  lemma {:induction false} WholePages(oldsz: nat, n: nat)
    requires PagesFor(oldsz) <= n
    ensures PagesFor(n * PGSIZE) == n && oldsz <= n * PGSIZE
  {
  }

  /** uvmdealloc of n whole pages above oldsz. */
  method DeallocRun(vm: VM, root: nat, oldsz: nat, first: nat, n: nat)
    requires vm.Valid() && IsRoot(vm.View(), root) && first == PagesFor(oldsz) && first + n <= MAXVPN
    requires OwnPages(vm.View(), vm.Pool(), root, first, n)
    modifies vm`mem, vm`free, vm`level
    ensures vm.Valid() && vm.mem.Keys == old(vm.mem).Keys
    ensures SameOutside(old(vm.View()), vm.View(), root, first, first + n)
    ensures Unmapped(vm.View(), root, first, first + n)
    ensures vm.free == old(vm.free) + PagesOf(old(vm.View()), root, first, n)
  {
    var a := (first + n) * PGSIZE;
    WholePages(oldsz, first + n);
    SameMapsSelf(vm.View());
    SameMapsOutside(vm.View(), vm.View(), root, first, first);
    var sz := vm.UvmDealloc(root, a, oldsz);
  }

  /** uvmcopy's way out: uvmunmap from address 0. */
  method UnmapBack(vm: VM, root: nat, n: nat, ghost f: Forest, ghost pool0: set<nat>, ghost perms: seq<nat>)
    requires vm.Valid() && Grown(f, pool0, vm.View(), vm.Pool(), root, 0, perms)
    requires n == |perms| && Unmapped(f, root, 0, n)
    modifies vm`mem, vm`free, vm`level
    ensures vm.Valid() && SameMaps(f, vm.View()) && vm.Pool() == pool0 && |vm.free| <= old(|vm.free|) + n
  {
    ghost var g, pool, free := vm.View(), vm.Pool(), vm.free;
    vm.UvmUnmap(root, 0, n, true);
    RolledBack(f, pool0, g, pool, root, 0, perms, vm.View(), free, vm.free);
  }

  /** The flags of the parent's pages v..n-1. */
  ghost function FlagsOf(f: Forest, root: nat, n: nat): (s: seq<nat>)
    requires Ok(f) && IsRoot(f, root) && n <= MAXVPN
    ensures |s| == n && forall v :: 0 <= v < n ==> s[v] == Flags(Get(f, root, v))
  {
    if n == 0 then [] else FlagsOf(f, root, n - 1) + [Flags(Get(f, root, n - 1))]
  }

  /** These are the contents of the parent's pages, as far as they are pages in use. */
  ghost predicate Copies(s0: State, parent: nat, fills: seq<seq<nat>>) {
    forall v: nat :: v < |fills| ==> CopyAt(s0, parent, v, fills[v])
  }

  ghost predicate CopyAt(s0: State, parent: nat, v: nat, fill: seq<nat>) {
    && Ok(s0.f) && IsRoot(s0.f, parent) && v < MAXVPN
    && (Target(Get(s0.f, parent, v)) !in s0.pool && Target(Get(s0.f, parent, v)) in s0.data ==>
          fill == s0.data[Target(Get(s0.f, parent, v))])
  }

  /** The child's page v holds what the parent's page v held, if that is a page in use. */
  ghost predicate Copied(s0: State, parent: nat, s: State, child: nat, v: nat) {
    && Ok(s0.f) && IsRoot(s0.f, parent) && v < MAXVPN
    && (Target(Get(s0.f, parent, v)) !in s0.pool && Target(Get(s0.f, parent, v)) in s0.data ==>
          FilledAt(s.f, child, v, s.data, s0.data[Target(Get(s0.f, parent, v))]))
  }

  /**
   * uvmcopy: it succeeds exactly if there are free pages enough for the copies and for the tables that are
   * missing, and then the child has pages of its own with the parent's flags and contents; otherwise every map is
   * as before and every leaf page taken is back. The parent must have all its pages.
   */
  method UvmCopy(vm: VM, parent: nat, child: nat, sz: nat) returns (ok: bool)
    requires vm.Valid() && IsRoot(vm.View(), parent) && IsRoot(vm.View(), child) && parent != child && sz <= MAXVA
    requires Unmapped(vm.View(), child, 0, PagesFor(sz))
    requires forall v: nat :: v < PagesFor(sz) ==> Present(vm.View(), parent, v)
    modifies vm
    ensures vm.Valid() && PagesFor(sz) <= MAXVPN && Untouched(old(vm.data), vm.data, old(vm.Pool()))
    ensures ok <==> old(|vm.free|) >= PagesFor(sz) + Tables(old(vm.View()), child, 0, PagesFor(sz))
    ensures ok ==> Grown(old(vm.View()), old(vm.Pool()), vm.View(), vm.Pool(), child, 0,
                         FlagsOf(old(vm.View()), parent, PagesFor(sz)))
    ensures ok ==> forall v: nat :: v < PagesFor(sz) ==> Copied(old(StateOf(vm)), parent, StateOf(vm), child, v)
    ensures !ok ==> SameMaps(old(vm.View()), vm.View()) && vm.Pool() == old(vm.Pool()) && |vm.free| <= PagesFor(sz)
  {
    ghost var s0 := StateOf(vm);
    var n;
    ghost var fills;
    ok, n, fills := CopyRun(vm, parent, child, sz);
    if ok {
      AllCopied(s0, parent, StateOf(vm), child, fills);
    } else {
      UnmapBack(vm, child, n, s0.f, s0.pool, FlagsOf(s0.f, parent, n));
    }
  }

  lemma {:induction false} AllCopied(s0: State, parent: nat, s: State, child: nat, fills: seq<seq<nat>>)
    requires Copies(s0, parent, fills) && Filled(s.f, child, 0, fills, s.data)
    ensures forall v: nat :: v < |fills| ==> Copied(s0, parent, s, child, v)
  {
    forall v: nat | v < |fills| ensures Copied(s0, parent, s, child, v) {
      assert CopyAt(s0, parent, v, fills[v]) && FilledAt(s.f, child, 0 + v, s.data, fills[v]);
    }
  }

  /** The loop of uvmcopy: n pages have been copied when it ends. */
  method CopyRun(vm: VM, parent: nat, child: nat, sz: nat) returns (ok: bool, n: nat, ghost fills: seq<seq<nat>>)
    requires vm.Valid() && IsRoot(vm.View(), parent) && IsRoot(vm.View(), child) && parent != child && sz <= MAXVA
    requires Unmapped(vm.View(), child, 0, PagesFor(sz))
    requires forall v: nat :: v < PagesFor(sz) ==> Present(vm.View(), parent, v)
    modifies vm
    ensures vm.Valid() && PagesFor(sz) <= MAXVPN
    ensures (if ok then n == PagesFor(sz) else n < PagesFor(sz) && |vm.free| <= 1)
    ensures Growing(old(StateOf(vm)), StateOf(vm), child, 0, FlagsOf(old(vm.View()), parent, n), fills,
                    PagesFor(sz), ok)
    ensures Copies(old(StateOf(vm)), parent, fills)
  {
    ghost var s0 := StateOf(vm);
    n, ok, fills := 0, true, [];
    GrowingNone(s0, child, 0, PagesFor(sz));
    while ok && n * PGSIZE < sz
      invariant n <= PagesFor(sz) && PagesFor(sz) <= MAXVPN && vm.Valid()
      invariant (!ok ==> n < PagesFor(sz) && |vm.free| <= 1)
      invariant Growing(s0, StateOf(vm), child, 0, FlagsOf(s0.f, parent, n), fills, PagesFor(sz), ok)
      invariant Copies(s0, parent, fills)
      decreases ok, PagesFor(sz) - n
    {
      assert NoEntry(s0.f, child, n) && Present(s0.f, parent, n);
      ok, fills := CopyOne(vm, parent, child, n, s0, fills, PagesFor(sz));
      if ok {
        n := n + 1;
      }
    }
  }

  lemma {:induction false} CopiesMore(s0: State, parent: nat, fills: seq<seq<nat>>, fill: seq<nat>)
    requires Copies(s0, parent, fills) && CopyAt(s0, parent, |fills|, fill)
    ensures Copies(s0, parent, fills + [fill])
  {
    var more := fills + [fill];
    forall v: nat | v < |more| ensures CopyAt(s0, parent, v, more[v]) {
      if v < |fills| { assert CopyAt(s0, parent, v, fills[v]); }
    }
  }

  /** One turn of uvmcopy's loop. */
  method CopyOne(vm: VM, parent: nat, child: nat, n: nat, ghost s0: State, ghost fills: seq<seq<nat>>, ghost goal: nat)
    returns (ok: bool, ghost fills': seq<seq<nat>>)
    requires vm.Valid() && n < goal <= MAXVPN && parent != child && NoEntry(s0.f, child, n) && Present(s0.f, parent, n)
    requires Growing(s0, StateOf(vm), child, 0, FlagsOf(s0.f, parent, n), fills, goal, true)
    requires Copies(s0, parent, fills)
    modifies vm
    ensures vm.Valid() && (!ok ==> |vm.free| <= 1) && Copies(s0, parent, fills')
    ensures Growing(s0, StateOf(vm), child, 0, FlagsOf(s0.f, parent, if ok then n + 1 else n), fills', goal, ok)
  {
    assert SameAt(s0.f, vm.View(), parent, n);
    var flags, pa := ReadPage(vm, parent, n);
    var fill := if pa in vm.data then vm.data[pa] else [];
    assert CopyAt(s0, parent, n, fill) by { assert pa !in s0.pool ==> SameData(s0.data, vm.data, pa); }
    fills' := fills;
    ok := Grow(vm, child, n, flags, fill, s0, 0, FlagsOf(s0.f, parent, n), fills, goal);
    if ok {
      CopiesMore(s0, parent, fills, fill);
      fills' := fills + [fill];
    }
  }

  /** walk to a page that must be there: its flags and its physical page. */
  method ReadPage(vm: VM, root: nat, v: nat) returns (flags: nat, pa: nat)
    requires vm.Valid() && Present(vm.View(), root, v)
    modifies vm`mem, vm`free, vm`level
    ensures vm.View() == old(vm.View()) && vm.free == old(vm.free)
    ensures flags == Flags(Get(vm.View(), root, v)) && LeafPerm(flags) && pa == Target(Get(vm.View(), root, v))
  {
    var t := vm.Walk(root, v * PGSIZE, false);
    LeafFlags(vm.View(), root, v);
    flags := Flags(vm.mem[t][Px(0, v)]);
    pa := Target(vm.mem[t][Px(0, v)]);
  }

  lemma {:induction false} LeafFlags(f: Forest, root: nat, v: nat)
    requires Present(f, root, v)
    ensures Last(f, root, v) != 0 && |f.mem[Last(f, root, v)]| == 512
    ensures f.mem[Last(f, root, v)][Px0(v)] == Get(f, root, v)
    ensures LeafPerm(Flags(Get(f, root, v)))
  {
    var t := Last(f, root, v);
    assert TableOk(f, t) && EntryOk(f, t, Px0(v));
    Fields(Get(f, root, v) / 1024, Flags(Get(f, root, v)), Get(f, root, v));
  }
}
