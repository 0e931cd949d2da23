/** kernel/vm.c: uvmcreate, walk, mappages, uvmunmap, uvmalloc, uvmdealloc, uvmcopy, freewalk and uvmfree. */
module PageTable {
  import opened PageTree
  import opened PagePrivate
  import opened PageCount

  const MAXVA: nat := MAXVPN * PGSIZE

  /** Number of pages that cover a bytes. */
  function PagesFor(a: nat): (n: nat)
    ensures a <= n * 4096 < a + 4096
  {
    (a + PGSIZE - 1) / PGSIZE
  }

  function RoundUp(a: nat): nat { PagesFor(a) * PGSIZE }

  lemma {:induction false} Rounded(a: nat, b: nat)
    ensures RoundUp(a) / PGSIZE == PagesFor(a) && RoundUp(a) % PGSIZE == 0
    ensures RoundUp(a) < RoundUp(b) <==> PagesFor(a) < PagesFor(b)
    ensures RoundUp(a) <= RoundUp(b) ==> (RoundUp(b) - RoundUp(a)) / PGSIZE == PagesFor(b) - PagesFor(a)
    ensures a <= b ==> PagesFor(a) <= PagesFor(b)
  {
  }

  /** PX(level, va). */
  function Px(level: nat, vpn: nat): (i: nat)
    requires vpn < MAXVPN
    ensures i < 512 && (level == 2 ==> i < 256)
  {
    if level == 2 then Px2(vpn) else if level == 1 then Px1(vpn) else Px0(vpn)
  }

  /** The table that walk has reached when `level` levels are left. */
  ghost function Reached(f: Forest, r: nat, vpn: nat, level: nat): nat
    requires Ok(f) && IsRoot(f, r) && vpn < MAXVPN
  {
    if level >= 2 then r else if level == 1 then Middle(f, r, vpn) else Last(f, r, vpn)
  }

  /** The table just added is the next one on the path. */
  lemma {:induction false} AddedReached(f: Forest, root: nat, vpn: nat, t: nat, l: nat, q: nat)
    requires Ok(f) && IsRoot(f, root) && vpn < MAXVPN && 1 <= l <= 2 && t != 0 && t == Reached(f, root, vpn, l)
    requires t in f.mem && f.level[t] == l && CanAdd(f, t, Px(l, vpn), q)
    ensures Ok(WithTable(f, t, Px(l, vpn), q)) && IsRoot(WithTable(f, t, Px(l, vpn), q), root)
    ensures Reached(WithTable(f, t, Px(l, vpn), q), root, vpn, l - 1) == q
  {
    WithTableGet(f, t, Px(l, vpn), q, root, vpn);
    MadePte(q, 0);
  }

  /** A page kalloc may hand out. */
  ghost predicate PageAddr(p: nat) { p > 0 && p % PGSIZE == 0 }

  class VM {
    var mem: map<nat, seq<nat>>
    /** Pages that kalloc can still hand out. */
    var free: set<nat>
    ghost var level: map<nat, nat>
    /** The contents of the pages that are not tables. */
    var data: map<nat, seq<nat>>

    /** The state after boot: every page that buddy_init covers is free. */
    constructor (pages: set<nat>)
      requires forall p :: p in pages ==> PageAddr(p)
      ensures Valid() && free == pages && mem == map[]
    {
      mem, free, level, data := map[], pages, map[], map[];
    }

    ghost function View(): Forest
      reads this
    {
      Forest(mem, level)
    }

    ghost predicate Valid()
      reads this
    {
      Ok(View()) && free !! mem.Keys && forall p :: p in free ==> PageAddr(p)
    }

    /** All pages that are free or tables. */
    ghost function Pool(): set<nat>
      reads this
    {
      free + mem.Keys
    }

    /** kalloc: some free page, or 0 if there is none. */
    method Kalloc() returns (p: nat)
      modifies this`free
      ensures p == 0 ==> free == old(free) && old(free) - {0} == {}
      ensures p != 0 ==> p in old(free) && free == old(free) - {p}
    {
      if free - {0} == {} {
        return 0;
      }
      p :| p in free && p != 0;
      free := free - {p};
    }

    /** kfree: the page must be in use. */
    method Kfree(p: nat)
      requires Valid() && PageAddr(p) && p !in free && p !in mem
      modifies this`free
      ensures Valid() && free == old(free) + {p} && Pool() == old(Pool()) + {p}
    {
      free := free + {p};
    }

    /** uvmcreate: an empty page table of its own, or 0 exactly if no page is free. */
    method UvmCreate() returns (root: nat)
      requires Valid()
      modifies this`mem, this`free, this`level
      ensures Valid() && SameMaps(old(View()), View()) && Pool() == old(Pool())
      ensures root == 0 <==> old(free) == {}
      ensures root == 0 ==> View() == old(View()) && free == old(free)
      ensures root != 0 ==> root in old(free) && IsRoot(View(), root) && Unmapped(View(), root, 0, MAXVPN)
    {
      root := Kalloc();
      SameMapsSelf(View());
      if root == 0 {
        return;
      }
      ghost var f := View();
      WithRootOk(f, root);
      WithRootSame(f, root);
      mem := mem[root := seq(512, _ => 0)];
      level := level[root := 2];
      assert View() == WithRoot(f, root);
      forall v: nat | v < MAXVPN ensures NoEntry(View(), root, v) { WithRootGet(f, root, root, v); }
    }

    /** Create an empty table under entry i of table p. */
    method AddTable(p: nat, i: nat) returns (q: nat)
      requires Valid() && p in mem && level[p] > 0 && i < 512 && |mem[p]| == 512 && !IsValid(mem[p][i])
      requires level[p] == 2 ==> i < 256
      modifies this`mem, this`free, this`level
      ensures Valid() && SameMaps(old(View()), View()) && Pool() == old(Pool())
      ensures q == 0 ==> View() == old(View()) && free == old(free) && free == {}
      ensures q != 0 ==> q in old(free) && free == old(free) - {q} && View() == WithTable(old(View()), p, i, q)
    {
      q := Kalloc();
      if q == 0 {
        SameMapsSelf(View());
        return;
      }
      ghost var f := View();
      WithTableSame(f, p, i, q);
      WithTableOk(f, p, i, q);
      var zero: seq<nat> := seq(512, _ => 0);
      var row: seq<nat> := mem[p][i := MakePte(q, 0)];
      mem := mem[q := zero];
      mem := mem[p := row];
      level := level[q := level[p] - 1];
      assert View() == WithTable(f, p, i, q);
    }

    /**
     * walk: the last-level table for va (its entry is at index PX(0, va)), or 0. With `alloc` missing
     * tables are created, and 0 means that no page was left. The flat maps never change.
     */
    method Walk(root: nat, va: nat, alloc: bool) returns (t: nat)
      requires Valid() && IsRoot(View(), root) && va < MAXVA
      modifies this`mem, this`free, this`level
      ensures Valid() && SameMaps(old(View()), View()) && Pool() == old(Pool()) && free <= old(free)
      ensures IsRoot(View(), root) && (t != 0 ==> t == Last(View(), root, va / PGSIZE))
      ensures !alloc ==> View() == old(View()) && free == old(free) && t == Last(View(), root, va / PGSIZE)
      ensures alloc && t == 0 ==> free == {}
      ensures alloc ==> Counted(old(View()), |old(free)|, View(), |free|, root, va / PGSIZE, false, t != 0)
    {
      var vpn := va / PGSIZE;
      var l := 2;
      t := root;
      ghost var f, free0 := View(), free;
      SameMapsSelf(View());
      while l > 0
        invariant 0 <= l <= 2 && Valid() && SameMaps(old(View()), View()) && Pool() == old(Pool()) && free <= old(free)
        invariant IsRoot(View(), root) && t != 0 && t == Reached(View(), root, vpn, l) && t in mem && level[t] == l
        invariant !alloc ==> View() == old(View()) && free == old(free)
        invariant alloc ==> Completed(f, free0, View(), free, root, vpn, l)
      {
        ghost var now, freeNow := View(), free;
        t := Descend(root, vpn, t, l, alloc);
        SameMapsTwice(old(View()), now, View());
        if alloc { CompletedDeeper(f, free0, now, freeNow, View(), free, root, vpn, l, t != 0); }
        if t == 0 {
          return;
        }
        l := l - 1;
      }
    }

    /** One turn of walk's loop. */
    method Descend(root: nat, vpn: nat, t: nat, l: nat, alloc: bool) returns (c: nat)
      requires Valid() && IsRoot(View(), root) && vpn < MAXVPN && 1 <= l <= 2
      requires t != 0 && t == Reached(View(), root, vpn, l) && t in mem && level[t] == l
      modifies this`mem, this`free, this`level
      ensures Valid() && SameMaps(old(View()), View()) && Pool() == old(Pool()) && free <= old(free)
      ensures IsRoot(View(), root)
      ensures (c != 0 ==> c == Reached(View(), root, vpn, l - 1) && c in mem && level[c] == l - 1)
      ensures !alloc ==> View() == old(View()) && free == old(free)
      ensures c == 0 ==> if alloc then free == {} == old(free) else Last(View(), root, vpn) == 0
      ensures alloc ==> StepCounted(old(View()), old(free), View(), free, root, vpn, l, c != 0)
    {
      ghost var f := View();
      var i := Px(l, vpn);
      assert TableOk(f, t) && EntryOk(f, t, i);
      SameMapsSelf(f);
      if IsValid(mem[t][i]) {
        c := Target(mem[t][i]);
        assert TableOk(f, c);
        NothingAdded(f, root, vpn, l);
      } else if !alloc {
        c := 0;
      } else {
        c := AddTable(t, i);
        if c != 0 {
          AddedReached(f, root, vpn, t, l, c);
          if l == 2 { MiddleAdded(f, root, vpn, c); } else { LastAdded(f, root, vpn, c); }
        }
      }
    }

    /** Store an entry in the last-level table of vpn. */
    method StoreEntry(root: nat, vpn: nat, t: nat, pte: nat)
      requires Valid() && IsRoot(View(), root) && vpn < MAXVPN && t != 0 && t == Last(View(), root, vpn)
      requires pte == 0 || (IsValid(pte) && IsLeaf(pte))
      modifies this`mem
      ensures Valid() && mem.Keys == old(mem).Keys && SameOutside(old(View()), View(), root, vpn, vpn + 1)
      ensures IsRoot(View(), root) && Get(View(), root, vpn) == pte && InnerSame(old(View()), View())
    {
      ghost var f := View();
      WithEntryOk(f, root, vpn, pte);
      WithEntryOutside(f, root, vpn, pte);
      var row: seq<nat> := mem[t][Px(0, vpn) := pte];
      mem := mem[t := row];
      assert View() == WithEntry(f, t, Px0(vpn), pte);
    }

    /** walkaddr: the physical page of a user address, or 0. */
    method WalkAddr(root: nat, va: nat) returns (pa: nat)
      requires Valid() && IsRoot(View(), root)
      modifies this`mem, this`free, this`level
      ensures View() == old(View()) && free == old(free)
      ensures va >= MAXVA ==> pa == 0
      ensures va < MAXVA ==>
                var pte := Get(View(), root, va / PGSIZE);
                pa == if pte % 2 == 1 && pte / 16 % 2 == 1 then pte / 1024 * 4096 else 0
    {
      if va >= MAXVA {
        return 0;
      }
      var t := Walk(root, va, false);
      if t == 0 {
        return 0;
      }
      assert TableOk(View(), t);
      var pte := mem[t][Px(0, va / PGSIZE)];
      if !IsValid(pte) || pte / 16 % 2 == 0 {
        return 0;
      }
      pa := Target(pte);
    }

    /** One page of mappages. */
    method MapPage(root: nat, vpn: nat, pa: nat, perm: nat) returns (ok: bool)
      requires Valid() && IsRoot(View(), root) && vpn < MAXVPN && Get(View(), root, vpn) == 0
      requires pa % PGSIZE == 0 && perm < 1024 && perm / 2 % 8 != 0
      modifies this`mem, this`free, this`level
      ensures Valid() && Pool() == old(Pool()) && free <= old(free)
      ensures Counted(old(View()), |old(free)|, View(), |free|, root, vpn, false, ok)
      ensures !ok ==> free == {} && SameMaps(old(View()), View())
      ensures ok ==> SameOutside(old(View()), View(), root, vpn, vpn + 1)
                     && IsRoot(View(), root) && Get(View(), root, vpn) == MakePte(pa, perm)
    {
      ghost var f, k0 := View(), |free|;
      var t := Walk(root, vpn * PGSIZE, true);
      if t == 0 {
        return false;
      }
      ghost var g := View();
      assert SameAt(f, g, root, vpn);
      MadePte(pa, perm);
      StoreEntry(root, vpn, t, MakePte(pa, perm));
      StoredAfterWalk(f, k0, g, |free|, View(), root, vpn);
      ok := true;
    }

    /**
     * mappages over the pages of va..va+size-1, none of which may be mapped yet: maps them in order
     * and stops when a table cannot be allocated; `done` pages have been mapped.
     */
    method MapPages(root: nat, va: nat, size: nat, pa: nat, perm: nat) returns (ok: bool, ghost done: nat)
      requires Valid() && IsRoot(View(), root) && size > 0 && va + size <= MAXVA
      requires pa % PGSIZE == 0 && perm < 1024 && perm / 2 % 8 != 0
      requires Unmapped(View(), root, va / PGSIZE, (va + size - 1) / PGSIZE + 1)
      modifies this`mem, this`free, this`level
      ensures Valid() && Pool() == old(Pool()) && free <= old(free)
      ensures done <= (va + size - 1) / PGSIZE - va / PGSIZE + 1
      ensures ok <==> done == (va + size - 1) / PGSIZE - va / PGSIZE + 1
      ensures !ok ==> free == {}
      ensures ok <==> |old(free)| >= Tables(old(View()), root, va / PGSIZE, (va + size - 1) / PGSIZE - va / PGSIZE + 1)
      ensures SameOutside(old(View()), View(), root, va / PGSIZE, va / PGSIZE + done)
      ensures MappedTo(View(), root, va / PGSIZE, done, pa, perm)
    {
      ghost var goal := (va + size - 1) / PGSIZE - va / PGSIZE + 1;
      ok, done := MapRange(root, va / PGSIZE, (va + size - 1) / PGSIZE, pa, perm, goal);
    }

    /** The loop of mappages. */
    method MapRange(
      root: nat, first: nat, last: nat, pa: nat, perm: nat, ghost goal: nat) returns (ok: bool, ghost done: nat)
      requires Valid() && IsRoot(View(), root) && first <= last < MAXVPN && first + goal == last + 1
      requires pa % PGSIZE == 0 && perm < 1024 && perm / 2 % 8 != 0 && Unmapped(View(), root, first, last + 1)
      modifies this`mem, this`free, this`level
      ensures Valid() && Pool() == old(Pool()) && free <= old(free)
      ensures done <= goal && (ok <==> done == goal) && (!ok ==> free == {})
      ensures ok <==> |old(free)| >= Tables(old(View()), root, first, goal)
      ensures SameOutside(old(View()), View(), root, first, first + done)
      ensures MappedTo(View(), root, first, done, pa, perm)
    {
      ghost var f, k0 := View(), |free|;
      var a, p := first, pa;
      done := 0;
      ok := true;
      NothingMapped(f, k0, root, first, goal, pa, perm);
      while ok && a <= last
        invariant a == first + done && done <= goal && (!ok ==> done < goal && free == {})
        invariant p == pa + done * PGSIZE && Valid() && Pool() == old(Pool()) && free <= old(free)
        invariant MappedSoFar(f, k0, View(), |free|, root, first, done, goal, pa, perm, ok)
        decreases ok, last - a
      {
        assert NoEntry(f, root, a);
        ok := MapNext(root, a, p, perm, f, k0, first, done, goal, pa);
        if ok {
          a, p, done := a + 1, p + PGSIZE, done + 1;
        }
      }
      MappedEnough(f, k0, View(), |free|, root, first, done, goal, pa, perm, ok);
    }

    /** One turn of the mappages loop. */
    method MapNext(root: nat, a: nat, p: nat, perm: nat,
                   ghost f: Forest, ghost k0: nat, ghost first: nat, ghost n: nat, ghost goal: nat, ghost pa: nat)
      returns (ok: bool)
      requires Valid() && a == first + n && n < goal && first + goal <= MAXVPN && NoEntry(f, root, a)
      requires pa % PGSIZE == 0 && p == pa + n * PGSIZE && perm < 1024 && perm / 2 % 8 != 0
      requires MappedSoFar(f, k0, View(), |free|, root, first, n, goal, pa, perm, true)
      modifies this`mem, this`free, this`level
      ensures Valid() && Pool() == old(Pool()) && free <= old(free) && (!ok ==> free == {})
      ensures MappedSoFar(f, k0, View(), |free|, root, first, if ok then n + 1 else n, goal, pa, perm, ok)
    {
      ghost var g, k := View(), |free|;
      assert SameAt(f, g, root, a);
      PageAligned(pa, n);
      ok := MapPage(root, a, p, perm);
      MappedNext(f, k0, g, k, View(), |free|, root, first, n, a, goal, pa, p, perm, ok);
    }

    /** One page of uvmunmap; the source panics if it is not mapped. */
    method UnmapPage(root: nat, vpn: nat, doFree: bool) returns (ghost pa: nat)
      requires Valid() && IsRoot(View(), root) && vpn < MAXVPN && IsValid(Get(View(), root, vpn))
      requires doFree ==> Target(Get(View(), root, vpn)) > 0 && Target(Get(View(), root, vpn)) !in Pool()
      modifies this`mem, this`free, this`level
      ensures Valid() && mem.Keys == old(mem).Keys && SameOutside(old(View()), View(), root, vpn, vpn + 1)
      ensures NoEntry(View(), root, vpn) && InnerSame(old(View()), View()) && pa == Target(Get(old(View()), root, vpn))
      ensures free == old(free) + (if doFree then {pa} else {})
    {
      var t := Walk(root, vpn * PGSIZE, false);
      assert TableOk(View(), t);
      var pte := mem[t][Px(0, vpn)];
      pa := Target(pte);
      if doFree {
        Kfree(Target(pte));
      }
      StoreEntry(root, vpn, t, 0);
    }

    /** uvmunmap of npages mapped pages from va on; with doFree each physical page is freed exactly once. */
    method UvmUnmap(root: nat, va: nat, npages: nat, doFree: bool)
      requires Valid() && IsRoot(View(), root) && va % PGSIZE == 0 && va / PGSIZE + npages <= MAXVPN
      requires CanUnmap(View(), Pool(), root, va / PGSIZE, npages, doFree)
      modifies this`mem, this`free, this`level
      ensures Valid() && mem.Keys == old(mem).Keys && InnerSame(old(View()), View())
      ensures SameOutside(old(View()), View(), root, va / PGSIZE, va / PGSIZE + npages)
      ensures Unmapped(View(), root, va / PGSIZE, va / PGSIZE + npages)
      ensures free == old(free) + (if doFree then PagesOf(old(View()), root, va / PGSIZE, npages) else {})
    {
      UnmapRange(root, va / PGSIZE, npages, doFree);
    }

    /** The loop of uvmunmap. */
    method UnmapRange(root: nat, first: nat, npages: nat, doFree: bool)
      requires Valid() && IsRoot(View(), root) && first + npages <= MAXVPN
      requires CanUnmap(View(), Pool(), root, first, npages, doFree)
      modifies this`mem, this`free, this`level
      ensures Valid() && mem.Keys == old(mem).Keys && InnerSame(old(View()), View())
      ensures SameOutside(old(View()), View(), root, first, first + npages)
      ensures Unmapped(View(), root, first, first + npages) && IsRoot(View(), root)
      ensures free == old(free) + (if doFree then PagesOf(old(View()), root, first, npages) else {})
    {
      ghost var f, pool, free0 := View(), Pool(), free;
      var k := 0;
      SameMapsSelf(f);
      SameMapsOutside(f, f, root, first, first);
      while k < npages
        invariant 0 <= k <= npages && Valid() && UnmappedSoFar(f, free0, root, first, k, doFree)
      {
        UnmapNext(root, first, npages, k, doFree, f, pool, free0);
        k := k + 1;
      }
    }

    /** The first k pages have been unmapped since f, and freed if wanted. */
    ghost predicate UnmappedSoFar(f: Forest, free0: set<nat>, root: nat, first: nat, k: nat, doFree: bool)
      requires Ok(f) && IsRoot(f, root) && first + k <= MAXVPN
      reads this
    {
      && mem.Keys == f.mem.Keys && SameOutside(f, View(), root, first, first + k) && IsRoot(View(), root)
      && Unmapped(View(), root, first, first + k) && InnerSame(f, View())
      && free == free0 + (if doFree then PagesOf(f, root, first, k) else {})
    }

    /** One turn of the uvmunmap loop. */
    method UnmapNext(
      root: nat, first: nat, npages: nat, k: nat, doFree: bool, ghost f: Forest, ghost pool: set<nat>,
      ghost free0: set<nat>)
      requires Valid() && Ok(f) && IsRoot(f, root) && first + npages <= MAXVPN && k < npages
      requires pool == free0 + f.mem.Keys
      requires CanUnmap(f, pool, root, first, npages, doFree) && UnmappedSoFar(f, free0, root, first, k, doFree)
      modifies this`mem, this`free, this`level
      ensures Valid() && UnmappedSoFar(f, free0, root, first, k + 1, doFree)
    {
      ghost var g := View();
      UnmapReady(f, g, pool, root, first, npages, k, doFree);
      ghost var pa := UnmapPage(root, first + k, doFree);
      Unmapping(f, g, View(), root, first, k);
      InnerSameTwice(f, g, View());
    }

    /** uvmdealloc: unmap and free the whole pages between newsz and oldsz. */
    method UvmDealloc(root: nat, oldsz: nat, newsz: nat) returns (sz: nat)
      requires Valid() && IsRoot(View(), root) && PagesFor(oldsz) <= MAXVPN
      requires newsz < oldsz ==>
                 && PagesFor(newsz) <= PagesFor(oldsz)
                 && OwnPages(View(), Pool(), root, PagesFor(newsz), PagesFor(oldsz) - PagesFor(newsz))
      modifies this`mem, this`free, this`level
      ensures Valid() && mem.Keys == old(mem).Keys && sz == (if newsz >= oldsz then oldsz else newsz)
      ensures newsz >= oldsz ==> View() == old(View()) && free == old(free)
      ensures newsz < oldsz ==>
                && SameOutside(old(View()), View(), root, PagesFor(newsz), PagesFor(oldsz))
                && Unmapped(View(), root, PagesFor(newsz), PagesFor(oldsz))
                && free == old(free) + PagesOf(old(View()), root, PagesFor(newsz), PagesFor(oldsz) - PagesFor(newsz))
    {
      if newsz >= oldsz {
        return oldsz;
      }
      Rounded(newsz, oldsz);
      if RoundUp(newsz) < RoundUp(oldsz) {
        UvmUnmap(root, RoundUp(newsz), (RoundUp(oldsz) - RoundUp(newsz)) / PGSIZE, true);
      } else {
        SameMapsSelf(View());
        SameMapsOutside(View(), View(), root, PagesFor(newsz), PagesFor(oldsz));
      }
      return newsz;
    }
  }

  /** Whether walk finds no table below level l on the path of page v. */
  ghost function Lacks(f: Forest, r: nat, v: nat, l: nat): nat {
    if (if l == 2 then HasMiddle(f, r, v) else HasLast(f, r, v)) then 0 else 1
  }

  /** The path of page v has been completed down to `level`, at the cost of exactly the tables missing there. */
  ghost predicate Completed(f: Forest, free0: set<nat>, g: Forest, free: set<nat>, r: nat, v: nat, level: nat) {
    && Built(f, g, r, v, level)
    && |free| + (if level <= 1 then Lacks(f, r, v, 2) else 0) + (if level == 0 then Lacks(f, r, v, 1) else 0) == |free0|
  }

  /** One turn of walk takes a page exactly if the next table is missing, and fails exactly if there is none. */
  ghost predicate StepCounted(f: Forest, free0: set<nat>, g: Forest, free: set<nat>, r: nat, v: nat, l: nat, ok: bool) {
    && (ok <==> |free0| >= Lacks(f, r, v, l))
    && (ok ==> Deeper(f, g, r, v, l) && |free| + Lacks(f, r, v, l) == |free0|)
  }

  lemma {:induction false} CompletedDeeper(
    f: Forest, free0: set<nat>, g: Forest, free: set<nat>, h: Forest, free': set<nat>,
    r: nat, v: nat, l: nat, ok: bool)
    requires 1 <= l <= 2 && v < MAXVPN
    requires Completed(f, free0, g, free, r, v, l) && StepCounted(g, free, h, free', r, v, l, ok)
    ensures if ok then Completed(f, free0, h, free', r, v, l - 1) else |free0| < Missing(f, r, v)
  {
    assert HasLast(g, r, v) <==> HasLast(f, r, v);
    if ok { BuiltDeeper(f, g, h, r, v, l); }
    if HasLast(f, r, v) { assert HasMiddle(f, r, v); }
  }

  /** Storing leaf entries creates no table. */
  lemma {:induction false} StillBuilt(f: Forest, g: Forest, h: Forest, r: nat, v: nat)
    requires Built(f, g, r, v, 0) && Ok(g) && Ok(h) && g.mem.Keys == h.mem.Keys && InnerSame(g, h)
    ensures Built(f, h, r, v, 0)
  {
    forall w: nat | w < MAXVPN
      ensures HasMiddle(h, r, w) <==> HasMiddle(g, r, w)
      ensures HasLast(h, r, w) <==> HasLast(g, r, w)
    {
      InnerSameTables(g, h, r, w);
    }
  }

  /** walk and then a store: one entry and the missing tables. */
  lemma {:induction false} StoredAfterWalk(f: Forest, k0: nat, g: Forest, k: nat, h: Forest, r: nat, v: nat)
    requires SameMaps(f, g) && Counted(f, k0, g, k, r, v, false, true)
    requires g.mem.Keys == h.mem.Keys && InnerSame(g, h) && SameOutside(g, h, r, v, v + 1)
    ensures SameOutside(f, h, r, v, v + 1) && Counted(f, k0, h, k, r, v, false, true)
  {
    StillBuilt(f, g, h, r, v);
    SameMapsOutside(f, g, r, v, v + 1);
    SameOutsideTwice(f, g, h, r, v, v + 1, v, v + 1);
  }

  lemma {:induction false} InnerSameTables(g: Forest, h: Forest, r: nat, w: nat)
    requires Ok(g) && Ok(h) && g.mem.Keys == h.mem.Keys && InnerSame(g, h) && w < MAXVPN
    ensures HasMiddle(h, r, w) <==> HasMiddle(g, r, w)
    ensures HasLast(h, r, w) <==> HasLast(g, r, w)
  {
    assert InnerAt(g, h, r);
    if HasMiddle(g, r, w) { assert InnerAt(g, h, Middle(g, r, w)); }
  }

  /** What uvmunmap demands: every page mapped, and to be freed also each to a page of its own. */
  ghost predicate CanUnmap(f: Forest, pool: set<nat>, root: nat, first: nat, npages: nat, doFree: bool)
    requires Ok(f) && IsRoot(f, root) && first + npages <= MAXVPN
  {
    if doFree then OwnPages(f, pool, root, first, npages)
    else forall v: nat :: first <= v < first + npages ==> Present(f, root, v)
  }

  ghost predicate Present(f: Forest, root: nat, v: nat) {
    Ok(f) && IsRoot(f, root) && v < MAXVPN && IsValid(Get(f, root, v))
  }

  lemma {:induction false} UnmapReady(
    f: Forest, g: Forest, pool: set<nat>, root: nat, first: nat, npages: nat, k: nat, doFree: bool)
    requires Ok(f) && IsRoot(f, root) && first + npages <= MAXVPN && k < npages
    requires CanUnmap(f, pool, root, first, npages, doFree)
    requires SameOutside(f, g, root, first, first + k) && IsRoot(g, root)
    ensures Get(g, root, first + k) == Get(f, root, first + k) && IsValid(Get(g, root, first + k))
    ensures doFree ==> Target(Get(g, root, first + k)) > 0 && Target(Get(g, root, first + k)) !in pool
                       && Target(Get(g, root, first + k)) !in PagesOf(f, root, first, k)
    ensures PagesOf(f, root, first, k + 1) == PagesOf(f, root, first, k) + {Target(Get(f, root, first + k))}
  {
    assert SameAt(f, g, root, first + k);
    if doFree { assert OwnPage(f, pool, root, first, k); } else { assert Present(f, root, first + k); }
  }

  lemma {:induction false} Unmapping(f: Forest, g: Forest, h: Forest, r: nat, lo: nat, k: nat)
    requires SameOutside(f, g, r, lo, lo + k) && Unmapped(g, r, lo, lo + k)
    requires SameOutside(g, h, r, lo + k, lo + k + 1) && NoEntry(h, r, lo + k)
    ensures SameOutside(f, h, r, lo, lo + k + 1) && Unmapped(h, r, lo, lo + k + 1)
  {
    SameOutsideTwice(f, g, h, r, lo, lo + k, lo + k, lo + k + 1);
    forall v: nat | lo <= v < lo + k + 1 ensures NoEntry(h, r, v) {
      if v < lo + k { assert NoEntry(g, r, v) && SameAt(g, h, r, v); }
    }
  }

  /** Inner table p is the same in f and g. */
  ghost predicate InnerAt(f: Forest, g: Forest, p: nat) {
    p in f.mem && p in f.level && f.level[p] > 0 ==> p in g.mem && g.mem[p] == f.mem[p]
  }

  /** The same tables, and the inner ones with the same entries. */
  ghost predicate InnerSame(f: Forest, g: Forest) {
    f.level == g.level && forall p: nat :: InnerAt(f, g, p)
  }

  lemma {:induction false} InnerSameTwice(f: Forest, g: Forest, h: Forest)
    requires InnerSame(f, g) && InnerSame(g, h)
    ensures InnerSame(f, h)
  {
    forall p: nat ensures InnerAt(f, h, p) { assert InnerAt(f, g, p) && InnerAt(g, h, p); }
  }

  ghost predicate NoEntry(f: Forest, root: nat, v: nat) {
    Ok(f) && IsRoot(f, root) && v < MAXVPN && Get(f, root, v) == 0
  }

  /** Root maps none of the pages lo..hi-1. */
  ghost predicate Unmapped(f: Forest, root: nat, lo: nat, hi: nat) {
    forall v: nat :: lo <= v < hi ==> NoEntry(f, root, v)
  }

  lemma {:induction false} UnmappedPart(f: Forest, root: nat, lo: nat, mid: nat, hi: nat)
    requires Unmapped(f, root, lo, hi) && mid <= hi
    ensures Unmapped(f, root, lo, mid)
  {
  }

  ghost predicate HasEntry(f: Forest, root: nat, v: nat, pte: nat) {
    Ok(f) && IsRoot(f, root) && v < MAXVPN && Get(f, root, v) == pte
  }

  /** Pages first, first + 1, ... of root map n consecutive physical pages from pa on. */
  ghost predicate MappedTo(f: Forest, root: nat, first: nat, n: nat, pa: nat, perm: nat) {
    Ok(f) && IsRoot(f, root) && forall k: nat :: k < n ==> HasEntry(f, root, first + k, MakePte(pa + k * PGSIZE, perm))
  }

  lemma {:induction false} Remap(f: Forest, g: Forest, h: Forest, r: nat, lo: nat, a: nat, ok: bool, pa: nat, perm: nat)
    requires SameOutside(f, g, r, lo, a) && lo <= a && MappedTo(g, r, lo, a - lo, pa, perm)
    requires if ok then SameOutside(g, h, r, a, a + 1) && HasEntry(h, r, a, MakePte(pa + (a - lo) * PGSIZE, perm))
             else SameMaps(g, h)
    ensures SameOutside(f, h, r, lo, if ok then a + 1 else a)
    ensures MappedTo(h, r, lo, if ok then a + 1 - lo else a - lo, pa, perm)
  {
    StillMapped(g, h, r, lo, a - lo, pa, perm);
    if ok {
      SameOutsideTwice(f, g, h, r, lo, a, a, a + 1);
      OneMoreMapped(h, r, lo, a - lo, pa, perm);
    } else {
      SameMapsOutside(g, h, r, a, a);
      SameOutsideTwice(f, g, h, r, lo, a, a, a);
    }
  }

  /**
   * From f and k0 free pages to g and k, the first n of `goal` pages have been mapped; if the run has failed,
   * k0 pages do not suffice for the tables of all of them.
   */
  ghost predicate MappedSoFar(
    f: Forest, k0: nat, g: Forest, k: nat, root: nat, first: nat, n: nat, goal: nat, pa: nat, perm: nat, ok: bool)
  {
    && SameOutside(f, g, root, first, first + n) && MappedTo(g, root, first, n, pa, perm)
    && RunCounted(f, k0, g, k, root, first, n, goal, false, ok)
  }

  lemma {:induction false} NothingMapped(f: Forest, k0: nat, root: nat, first: nat, goal: nat, pa: nat, perm: nat)
    requires Ok(f) && IsRoot(f, root)
    ensures MappedSoFar(f, k0, f, k0, root, first, 0, goal, pa, perm, true)
  {
    SameMapsSelf(f);
    SameMapsOutside(f, f, root, first, first);
    RunStart(f, k0, root, first, goal, false);
  }

  lemma {:induction false} MappedNext(
    f: Forest, k0: nat, g: Forest, k: nat, h: Forest, k': nat, root: nat, first: nat, n: nat, a: nat, goal: nat,
    pa: nat, p: nat, perm: nat, ok: bool)
    requires MappedSoFar(f, k0, g, k, root, first, n, goal, pa, perm, true) && n < goal && a == first + n < MAXVPN
    requires p == pa + n * PGSIZE
    requires Counted(g, k, h, k', root, a, false, ok)
    requires if ok then SameOutside(g, h, root, a, a + 1) && HasEntry(h, root, a, MakePte(p, perm))
             else SameMaps(g, h)
    ensures MappedSoFar(f, k0, h, k', root, first, if ok then n + 1 else n, goal, pa, perm, ok)
  {
    Remap(f, g, h, root, first, a, ok, pa, perm);
    RunNext(f, k0, g, k, h, k', root, first, n, a, goal, false, ok);
  }

  lemma {:induction false} PageAligned(pa: nat, n: nat)
    requires pa % PGSIZE == 0
    ensures (pa + n * PGSIZE) % PGSIZE == 0
  {
  }

  /** mappages succeeds exactly if there is a page for every table that is missing. */
  lemma {:induction false} MappedEnough(
    f: Forest, k0: nat, g: Forest, k: nat, root: nat, first: nat, n: nat, goal: nat, pa: nat, perm: nat, ok: bool)
    requires MappedSoFar(f, k0, g, k, root, first, n, goal, pa, perm, ok) && (ok ==> n == goal)
    ensures ok <==> k0 >= Tables(f, root, first, goal)
  {
  }

  lemma {:induction false} OneMoreMapped(h: Forest, r: nat, lo: nat, n: nat, pa: nat, perm: nat)
    requires MappedTo(h, r, lo, n, pa, perm) && HasEntry(h, r, lo + n, MakePte(pa + n * PGSIZE, perm))
    ensures MappedTo(h, r, lo, n + 1, pa, perm)
  {
    forall k: nat | k < n + 1 ensures HasEntry(h, r, lo + k, MakePte(pa + k * PGSIZE, perm)) { }
  }

  lemma {:induction false} StillMapped(g: Forest, h: Forest, r: nat, lo: nat, n: nat, pa: nat, perm: nat)
    requires MappedTo(g, r, lo, n, pa, perm) && Ok(h) && IsRoot(h, r)
    requires forall v: nat :: lo <= v < lo + n ==> SameAt(g, h, r, v)
    ensures MappedTo(h, r, lo, n, pa, perm)
  {
    forall k: nat | k < n ensures HasEntry(h, r, lo + k, MakePte(pa + k * PGSIZE, perm)) {
      assert HasEntry(g, r, lo + k, MakePte(pa + k * PGSIZE, perm)) && SameAt(g, h, r, lo + k);
    }
  }
}
