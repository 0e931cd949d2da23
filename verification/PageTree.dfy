/**
 * Sv39 page tables (section 4.4 of the RISC-V Privileged Architecture manual) as words in memory:
 * a forest of table pages, and the flat map from virtual page numbers to page-table entries it spells out.
 */
module PageTree {

  const PGSIZE: nat := 4096
  /** MAXVA / PGSIZE: one bit less than Sv39 allows. */
  const MAXVPN: nat := 256 * 512 * 512

  // ----- page-table entries -----------------------------------------------------------------

  /** PTE_V. */
  predicate IsValid(pte: nat) { pte % 2 == 1 }

  /** PTE2PA. */
  function Target(pte: nat): nat { pte / 1024 * 4096 }

  /** PTE_FLAGS. */
  function Flags(pte: nat): nat { pte % 1024 }

  /** One of PTE_R, PTE_W, PTE_X is set. */
  predicate IsLeaf(pte: nat) { pte / 2 % 8 != 0 }

  /** PA2PTE(pa) | perm | PTE_V. */
  function MakePte(pa: nat, perm: nat): nat {
    pa / 4096 * 1024 + (if perm % 2 == 1 then perm else perm + 1)
  }

  lemma {:induction false} MadePte(pa: nat, perm: nat)
    requires pa % 4096 == 0 && perm < 1024
    ensures var pte := MakePte(pa, perm);
            IsValid(pte) && Target(pte) == pa && Flags(pte) == (if perm % 2 == 1 then perm else perm + 1)
            && pte / 1024 * 4096 == pa && pte % 1024 == (if perm % 2 == 1 then perm else perm + 1)
            && (IsLeaf(pte) <==> perm / 2 % 8 != 0)
  {
    var f := if perm % 2 == 1 then perm else perm + 1;
    Fields(pa / 4096, f, MakePte(pa, perm));
    assert f / 2 == perm / 2;
  }

  /** The page number and the flags of the entry q * 1024 + f. */
  lemma {:induction false} Fields(q: nat, f: nat, e: nat)
    requires f < 1024 && e == q * 1024 + f
    ensures e / 1024 == q && e % 1024 == f && e % 2 == f % 2 && e / 2 % 8 == f / 2 % 8
  {
    var a, b := f / 2, e / 2;
    assert b == q * 512 + a;
    SameLowBits(q * 64, a, b);
  }

  lemma {:induction false} SameLowBits(m: nat, a: nat, b: nat)
    requires b == 8 * m + a
    ensures a % 8 == b % 8
  {
  }

  // ----- the forest ------------------------------------------------------------------------------

  /** Table pages by address, 512 words each, and the level of each table (2 for a root). */
  datatype Forest = Forest(mem: map<nat, seq<nat>>, level: map<nat, nat>)

  ghost predicate TableOk(f: Forest, p: nat)
    requires p in f.mem
  {
    p in f.level && f.level[p] <= 2 && |f.mem[p]| == 512 && p > 0 && p % PGSIZE == 0
  }

  /**
   * An entry is zero or valid. A valid entry of an inner table points to a table one level down;
   * one of a last-level table is a leaf. The half of a root above MAXVA is empty.
   */
  ghost predicate EntryOk(f: Forest, p: nat, i: nat)
    requires p in f.mem && TableOk(f, p) && i < 512
  {
    var e := f.mem[p][i];
    && (IsValid(e) ==>
          if f.level[p] == 0 then IsLeaf(e)
          else Flags(e) == 1 && Target(e) in f.mem && Target(e) in f.level && f.level[Target(e)] == f.level[p] - 1)
    && (!IsValid(e) ==> e == 0)
    && (f.level[p] == 2 && i >= 256 ==> e == 0)
  }

  /** A table hangs in at most one place. */
  ghost predicate SoleParent(f: Forest, p: nat, i: nat, q: nat, j: nat)
    requires p in f.mem && TableOk(f, p) && i < 512 && q in f.mem && TableOk(f, q) && j < 512
  {
    (f.level[p] > 0 && f.level[q] > 0 && IsValid(f.mem[p][i]) && IsValid(f.mem[q][j]) && (p, i) != (q, j))
    ==> Target(f.mem[p][i]) != Target(f.mem[q][j])
  }

  ghost predicate Ok(f: Forest) {
    && f.mem.Keys == f.level.Keys
    && (forall p :: p in f.mem ==> TableOk(f, p))
    && (forall p, i :: p in f.mem && 0 <= i < 512 ==> EntryOk(f, p, i))
    && (forall p, i, q, j :: p in f.mem && 0 <= i < 512 && q in f.mem && 0 <= j < 512 ==> SoleParent(f, p, i, q, j))
  }

  ghost predicate IsRoot(f: Forest, r: nat) {
    r in f.mem && r in f.level && f.level[r] == 2
  }

  // ----- the flat map --------------------------------------------------------------------------------

  /** PX(level, va) for the virtual page number vpn. */
  function Px2(vpn: nat): (i: nat) requires vpn < MAXVPN ensures i < 256 { vpn / 512 / 512 }
  function Px1(vpn: nat): (i: nat) ensures i < 512 { vpn / 512 % 512 }
  function Px0(vpn: nat): (i: nat) ensures i < 512 { vpn % 512 }

  lemma {:induction false} PxInjective(v: nat, w: nat)
    requires v < MAXVPN && w < MAXVPN && Px2(v) == Px2(w) && Px1(v) == Px1(w) && Px0(v) == Px0(w)
    ensures v == w
  {
  }

  /** The second-level table for vpn below root r, or 0. */
  ghost function Middle(f: Forest, r: nat, vpn: nat): (t: nat)
    requires Ok(f) && IsRoot(f, r) && vpn < MAXVPN
    ensures t != 0 ==> t in f.mem && f.level[t] == 1
  {
    assert TableOk(f, r) && EntryOk(f, r, Px2(vpn));
    var e := f.mem[r][Px2(vpn)];
    if IsValid(e) then Target(e) else 0
  }

  /** The last-level table for vpn below root r, or 0. */
  ghost function Last(f: Forest, r: nat, vpn: nat): (t: nat)
    requires Ok(f) && IsRoot(f, r) && vpn < MAXVPN
    ensures t != 0 ==> t in f.mem && f.level[t] == 0 && Middle(f, r, vpn) != 0
  {
    var m := Middle(f, r, vpn);
    if m == 0 then 0
    else
      assert TableOk(f, m) && EntryOk(f, m, Px1(vpn));
      var e := f.mem[m][Px1(vpn)];
      if IsValid(e) then Target(e) else 0
  }

  /** The entry for vpn; 0 if no last-level table exists. */
  ghost function Get(f: Forest, r: nat, vpn: nat): nat
    requires Ok(f) && IsRoot(f, r) && vpn < MAXVPN
  {
    var t := Last(f, r, vpn);
    if t == 0 then 0 else assert TableOk(f, t); f.mem[t][Px0(vpn)]
  }

  /**
   * The address translation of the hardware, written out: nine bits of the page number select the entry at each
   * level, and the page number of a valid entry without permissions is that of the next table.
   */
  lemma {:induction false} Translation(f: Forest, r: nat, v: nat)
    requires Ok(f) && IsRoot(f, r) && v < 0x400_0000 && Get(f, r, v) != 0
    ensures |f.mem[r]| == 512 && f.mem[r][v / 0x4_0000] % 1024 == 1
    ensures var t1 := f.mem[r][v / 0x4_0000] / 1024 * 4096;
            && t1 in f.mem && |f.mem[t1]| == 512 && f.mem[t1][v / 512 % 512] % 1024 == 1
            && var t0 := f.mem[t1][v / 512 % 512] / 1024 * 4096;
            && t0 in f.mem && |f.mem[t0]| == 512 && Get(f, r, v) == f.mem[t0][v % 512]
  {
    assert v / 0x4_0000 == v / 512 / 512;
    assert TableOk(f, r) && EntryOk(f, r, Px2(v));
    var m := Middle(f, r, v);
    assert TableOk(f, m) && EntryOk(f, m, Px1(v));
    assert TableOk(f, Last(f, r, v));
  }

  /** Distinct pages, or pages of distinct roots, never share an entry slot. */
  lemma {:induction false} SlotsDistinct(f: Forest, r: nat, v: nat, s: nat, w: nat)
    requires Ok(f) && IsRoot(f, r) && IsRoot(f, s) && v < MAXVPN && w < MAXVPN && (r, v) != (s, w)
    ensures Last(f, r, v) != 0 ==> (Last(f, r, v), Px0(v)) != (Last(f, s, w), Px0(w))
  {
    var t := Last(f, r, v);
    if t != 0 && t == Last(f, s, w) && Px0(v) == Px0(w) {
      var m, n := Middle(f, r, v), Middle(f, s, w);
      assert TableOk(f, m) && TableOk(f, n) && SoleParent(f, m, Px1(v), n, Px1(w));
      assert TableOk(f, r) && TableOk(f, s) && SoleParent(f, r, Px2(v), s, Px2(w));
      PxInjective(v, w);
    }
  }

  // ----- changing one entry -------------------------------------------------------------------------------

  /** walk creates an empty table q under entry i of p. */
  ghost function WithTable(f: Forest, p: nat, i: nat, q: nat): Forest
    requires p in f.mem && p in f.level && f.level[p] > 0 && i < |f.mem[p]|
  {
    Forest(f.mem[q := seq(512, _ => 0)][p := f.mem[p][i := MakePte(q, 0)]], f.level[q := f.level[p] - 1])
  }

  ghost predicate CanAdd(f: Forest, p: nat, i: nat, q: nat) {
    && Ok(f) && p in f.mem && p in f.level && f.level[p] > 0 && i < 512 && |f.mem[p]| == 512 && !IsValid(f.mem[p][i])
    && (f.level[p] == 2 ==> i < 256) && q !in f.mem && q > 0 && q % PGSIZE == 0
  }

  lemma {:induction false} WithTableOk(f: Forest, p: nat, i: nat, q: nat)
    requires CanAdd(f, p, i, q)
    ensures Ok(WithTable(f, p, i, q))
    ensures WithTable(f, p, i, q).mem.Keys == f.mem.Keys + {q}
  {
    var h := WithTable(f, p, i, q);
    MadePte(q, 0);
    forall t | t in h.mem ensures TableOk(h, t) { if t != q { assert TableOk(f, t); } else { assert TableOk(f, p); } }
    forall t, k | t in h.mem && 0 <= k < 512 ensures EntryOk(h, t, k) { if t != q { assert EntryOk(f, t, k); } }
    forall t, k, u, l | t in h.mem && 0 <= k < 512 && u in h.mem && 0 <= l < 512 ensures SoleParent(h, t, k, u, l) {
      if t != q && u != q {
        assert SoleParent(f, t, k, u, l) && EntryOk(f, t, k) && EntryOk(f, u, l);
      }
    }
  }

  /** An empty interior table changes nothing in the flat map. */
  lemma {:induction false} WithTableGet(f: Forest, p: nat, i: nat, q: nat, r: nat, v: nat)
    requires CanAdd(f, p, i, q) && IsRoot(f, r) && v < MAXVPN
    ensures Ok(WithTable(f, p, i, q)) && IsRoot(WithTable(f, p, i, q), r)
    ensures Get(WithTable(f, p, i, q), r, v) == Get(f, r, v)
    ensures Last(f, r, v) != 0 ==> Last(WithTable(f, p, i, q), r, v) == Last(f, r, v)
    ensures Middle(f, r, v) != 0 ==> Middle(WithTable(f, p, i, q), r, v) == Middle(f, r, v)
  {
    WithTableOk(f, p, i, q);
    MadePte(q, 0);
    assert TableOk(f, r) && EntryOk(f, r, Px2(v));
    var m := Middle(f, r, v);
    if m != 0 { assert TableOk(f, m) && EntryOk(f, m, Px1(v)); }
  }

  /** uvmcreate adds an empty root q. */
  ghost function WithRoot(f: Forest, q: nat): Forest {
    Forest(f.mem[q := seq(512, _ => 0)], f.level[q := 2])
  }

  lemma {:induction false} WithRootOk(f: Forest, q: nat)
    requires Ok(f) && q !in f.mem && q > 0 && q % PGSIZE == 0
    ensures Ok(WithRoot(f, q)) && IsRoot(WithRoot(f, q), q)
  {
    var h := WithRoot(f, q);
    forall t | t in h.mem ensures TableOk(h, t) { if t != q { assert TableOk(f, t); } }
    forall t, k | t in h.mem && 0 <= k < 512 ensures EntryOk(h, t, k) { if t != q { assert EntryOk(f, t, k); } }
    forall t, k, u, l | t in h.mem && 0 <= k < 512 && u in h.mem && 0 <= l < 512 ensures SoleParent(h, t, k, u, l) {
      if t != q && u != q { assert SoleParent(f, t, k, u, l); }
    }
  }

  /** The new root maps nothing and every other root maps what it did. */
  lemma {:induction false} WithRootGet(f: Forest, q: nat, r: nat, v: nat)
    requires Ok(f) && q !in f.mem && q > 0 && q % PGSIZE == 0 && v < MAXVPN && (r == q || IsRoot(f, r))
    ensures Ok(WithRoot(f, q)) && IsRoot(WithRoot(f, q), r)
    ensures Get(WithRoot(f, q), r, v) == if r == q then 0 else Get(f, r, v)
  {
    WithRootOk(f, q);
    if r != q {
      assert TableOk(f, r) && EntryOk(f, r, Px2(v));
      var m := Middle(f, r, v);
      if m != 0 { assert TableOk(f, m) && EntryOk(f, m, Px1(v)); }
    }
  }

  /** mappages and uvmunmap store an entry in a last-level table. */
  ghost function WithEntry(f: Forest, t: nat, i: nat, pte: nat): Forest
    requires t in f.mem && i < |f.mem[t]|
  {
    var row: seq<nat> := f.mem[t][i := pte];
    f.(mem := f.mem[t := row])
  }

  lemma {:induction false} WithEntryOk(f: Forest, r: nat, v: nat, pte: nat)
    requires Ok(f) && IsRoot(f, r) && v < MAXVPN && Last(f, r, v) != 0 && (pte == 0 || (IsValid(pte) && IsLeaf(pte)))
    ensures |f.mem[Last(f, r, v)]| == 512 && Ok(WithEntry(f, Last(f, r, v), Px0(v), pte))
    ensures WithEntry(f, Last(f, r, v), Px0(v), pte).mem.Keys == f.mem.Keys
  {
    var t := Last(f, r, v);
    assert TableOk(f, t);
    var h := WithEntry(f, t, Px0(v), pte);
    forall u | u in h.mem ensures TableOk(h, u) { assert TableOk(f, u); }
    forall u, k | u in h.mem && 0 <= k < 512 ensures EntryOk(h, u, k) { assert EntryOk(f, u, k); }
    forall a, k, b, l | a in h.mem && 0 <= k < 512 && b in h.mem && 0 <= l < 512 ensures SoleParent(h, a, k, b, l) {
      assert SoleParent(f, a, k, b, l);
    }
  }

  /** Storing the entry of (r, v) changes the flat map there and nowhere else. */
  lemma {:induction false} WithEntryGet(f: Forest, r: nat, v: nat, pte: nat, s: nat, w: nat)
    requires Ok(f) && IsRoot(f, r) && v < MAXVPN && Last(f, r, v) != 0 && (pte == 0 || (IsValid(pte) && IsLeaf(pte)))
    requires IsRoot(f, s) && w < MAXVPN
    ensures |f.mem[Last(f, r, v)]| == 512 && Ok(WithEntry(f, Last(f, r, v), Px0(v), pte))
    ensures IsRoot(WithEntry(f, Last(f, r, v), Px0(v), pte), s)
    ensures Last(WithEntry(f, Last(f, r, v), Px0(v), pte), s, w) == Last(f, s, w)
    ensures Get(WithEntry(f, Last(f, r, v), Px0(v), pte), s, w) == if (s, w) == (r, v) then pte else Get(f, s, w)
  {
    WithEntryOk(f, r, v, pte);
    var h := WithEntry(f, Last(f, r, v), Px0(v), pte);
    assert TableOk(f, s) && EntryOk(f, s, Px2(w));
    var m := Middle(f, s, w);
    if m != 0 { assert TableOk(f, m) && EntryOk(f, m, Px1(w)); }
    if (s, w) != (r, v) { SlotsDistinct(f, r, v, s, w); }
  }

  // ----- comparing two forests ------------------------------------------------------------------------------

  /** Root r maps v in h as it does in f. */
  ghost predicate SameAt(f: Forest, h: Forest, r: nat, v: nat)
    requires Ok(f) && Ok(h)
  {
    IsRoot(f, r) && v < MAXVPN ==> IsRoot(h, r) && Get(h, r, v) == Get(f, r, v)
  }

  /** h has all tables of f and the same flat maps; it may have more interior tables. */
  ghost predicate SameMaps(f: Forest, h: Forest) {
    Ok(f) && Ok(h) && f.mem.Keys <= h.mem.Keys && (forall r: nat, v: nat :: SameAt(f, h, r, v))
    && (forall r :: IsRoot(f, r) ==> IsRoot(h, r))
  }

  lemma {:induction false} SameMapsSelf(f: Forest)
    requires Ok(f)
    ensures SameMaps(f, f)
  {
  }

  lemma {:induction false} SameMapsTwice(f: Forest, g: Forest, h: Forest)
    requires SameMaps(f, g) && SameMaps(g, h)
    ensures SameMaps(f, h)
  {
    forall r: nat, v: nat ensures SameAt(f, h, r, v) { assert SameAt(f, g, r, v) && SameAt(g, h, r, v); }
  }

  lemma {:induction false} WithTableSame(f: Forest, p: nat, i: nat, q: nat)
    requires CanAdd(f, p, i, q)
    ensures SameMaps(f, WithTable(f, p, i, q))
  {
    WithTableOk(f, p, i, q);
    forall r: nat, v: nat ensures SameAt(f, WithTable(f, p, i, q), r, v) {
      if IsRoot(f, r) && v < MAXVPN { WithTableGet(f, p, i, q, r, v); }
    }
  }

  lemma {:induction false} WithRootSame(f: Forest, q: nat)
    requires Ok(f) && q !in f.mem && q > 0 && q % PGSIZE == 0
    ensures SameMaps(f, WithRoot(f, q))
  {
    WithRootOk(f, q);
    forall r: nat, v: nat ensures SameAt(f, WithRoot(f, q), r, v) {
      if IsRoot(f, r) && v < MAXVPN { WithRootGet(f, q, r, v); }
    }
  }

  /** h differs from f only in the entries of root r for pages lo..hi-1, and by interior tables. */
  ghost predicate SameOutside(f: Forest, h: Forest, r: nat, lo: nat, hi: nat) {
    Ok(f) && Ok(h) && f.mem.Keys <= h.mem.Keys && (forall s :: IsRoot(f, s) ==> IsRoot(h, s))
    && (forall s: nat, v: nat :: (s != r || v < lo || v >= hi) ==> SameAt(f, h, s, v))
  }

  lemma {:induction false} SameOutsideTwice(
    f: Forest, g: Forest, h: Forest, r: nat, lo: nat, mid: nat, lo2: nat, hi: nat)
    requires SameOutside(f, g, r, lo, mid) && SameOutside(g, h, r, lo2, hi) && lo <= lo2 && mid <= hi
    ensures SameOutside(f, h, r, lo, hi)
  {
    forall s: nat, v: nat | s != r || v < lo || v >= hi ensures SameAt(f, h, s, v) {
      assert SameAt(f, g, s, v) && SameAt(g, h, s, v);
    }
  }

  lemma {:induction false} SameMapsOutside(f: Forest, h: Forest, r: nat, lo: nat, hi: nat)
    requires SameMaps(f, h)
    ensures SameOutside(f, h, r, lo, hi)
  {
    forall s: nat, v: nat | s != r || v < lo || v >= hi ensures SameAt(f, h, s, v) { }
  }

  lemma {:induction false} WithEntryOutside(f: Forest, r: nat, v: nat, pte: nat)
    requires Ok(f) && IsRoot(f, r) && v < MAXVPN && Last(f, r, v) != 0 && (pte == 0 || (IsValid(pte) && IsLeaf(pte)))
    ensures |f.mem[Last(f, r, v)]| == 512
    ensures SameOutside(f, WithEntry(f, Last(f, r, v), Px0(v), pte), r, v, v + 1)
    ensures Get(WithEntry(f, Last(f, r, v), Px0(v), pte), r, v) == pte
  {
    WithEntryOk(f, r, v, pte);
    var h := WithEntry(f, Last(f, r, v), Px0(v), pte);
    forall s: nat, w: nat | s != r || w < v || w >= v + 1 ensures SameAt(f, h, s, w) {
      if IsRoot(f, s) && w < MAXVPN { WithEntryGet(f, r, v, pte, s, w); }
    }
    WithEntryGet(f, r, v, pte, r, v);
  }
}
