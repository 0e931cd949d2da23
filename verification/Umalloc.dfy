/** user/umalloc.c: malloc and free over a circular list of headers. */
module Umalloc {
  import opened FreeList

  /** s.ptr and s.size of a header. */
  datatype Header = Header(ptr: nat, size: nat)

  // ----- the cycle of headers -------------------------------------------------------------------

  /** Header k of the cycle: base, then the free blocks in address order. */
  function Node(fl: seq<Block>, k: nat): nat
    requires k <= |fl|
  {
    if k == 0 then BASE else fl[k - 1].addr
  }

  function NodeSize(fl: seq<Block>, k: nat): nat
    requires k <= |fl|
  {
    if k == 0 then 0 else fl[k - 1].size
  }

  function Next(fl: seq<Block>, k: nat): nat
    requires k <= |fl|
  {
    if k == |fl| then 0 else k + 1
  }

  ghost predicate NodeOk(mem: map<nat, Header>, fl: seq<Block>, k: nat)
    requires k <= |fl|
  {
    Node(fl, k) in mem && mem[Node(fl, k)] == Header(Node(fl, Next(fl, k)), NodeSize(fl, k))
  }

  /** The headers form one cycle through base in address order. */
  ghost predicate Linked(mem: map<nat, Header>, fl: seq<Block>) {
    forall k: nat :: k <= |fl| ==> NodeOk(mem, fl, k)
  }

  /** Word u of memory is the same. */
  ghost predicate Untouched(mem: map<nat, Header>, mem': map<nat, Header>, u: nat) {
    (u in mem <==> u in mem') && (u in mem ==> mem[u] == mem'[u])
  }

  /** Address order along the cycle: it wraps once, at the last block. */
  lemma {:induction false} NodeOrder(fl: seq<Block>, i: nat, j: nat)
    requires Sorted(fl) && i < j <= |fl|
    ensures Node(fl, i) < Node(fl, j) && (i > 0 ==> Node(fl, i) + NodeSize(fl, i) < Node(fl, j))
  {
    if i > 0 { assert Under(fl, i - 1, j - 1); }
  }

  /** Replacing blocks p..r-1 by the one block x. */
  lemma {:induction false} SpliceLinked(
    mem: map<nat, Header>, mem': map<nat, Header>, fl: seq<Block>, p: nat, r: nat, x: Block)
    requires Linked(mem, fl) && p <= r <= |fl|
    requires x.addr in mem' && mem'[x.addr] == Header(if r == |fl| then BASE else fl[r].addr, x.size)
    requires Node(fl, p) in mem' && mem'[Node(fl, p)] == Header(x.addr, NodeSize(fl, p))
    requires forall k: nat :: k < p || r < k <= |fl| ==> Untouched(mem, mem', Node(fl, k))
    ensures Linked(mem', fl[..p] + [x] + fl[r..])
  {
    var fl' := fl[..p] + [x] + fl[r..];
    forall k: nat | k <= |fl'| ensures NodeOk(mem', fl', k) {
      if k < p {
        assert NodeOk(mem, fl, k) && Untouched(mem, mem', Node(fl, k));
      } else if k > p + 1 {
        var k0 := k - 1 - p + r;
        assert NodeOk(mem, fl, k0) && Untouched(mem, mem', Node(fl, k0));
      }
    }
  }

  /** Unlinking block t. */
  lemma {:induction false} UnlinkLinked(mem: map<nat, Header>, mem': map<nat, Header>, fl: seq<Block>, t: nat)
    requires Linked(mem, fl) && t < |fl|
    requires Node(fl, t) in mem'
    requires mem'[Node(fl, t)] == Header(if t + 1 == |fl| then BASE else fl[t + 1].addr, NodeSize(fl, t))
    requires forall k: nat :: k < t || t + 1 < k <= |fl| ==> Untouched(mem, mem', Node(fl, k))
    ensures Linked(mem', fl[..t] + fl[t + 1..])
  {
    var fl' := fl[..t] + fl[t + 1..];
    forall k: nat | k <= |fl'| ensures NodeOk(mem', fl', k) {
      if k < t {
        assert NodeOk(mem, fl, k) && Untouched(mem, mem', Node(fl, k));
      } else if k > t {
        assert NodeOk(mem, fl, k + 1) && Untouched(mem, mem', Node(fl, k + 1));
      }
    }
  }

  // ----- where a block belongs --------------------------------------------------------------------

  /** Block b lies after header i and before the next one. */
  lemma {:induction false} Position(fl: seq<Block>, b: Block) returns (i: nat)
    requires Sorted(fl) && BlockOk(b) && Cover(fl) !! Units(b)
    ensures Between(fl, i, b)
  {
    i := 0;
    while i < |fl| && fl[i].addr < b.addr
      invariant i <= |fl| && forall k :: 0 <= k < i ==> End(fl[k]) <= b.addr
    {
      CoverAt(fl, i);
      DisjointUnits(fl[i], b);
      i := i + 1;
    }
    if i < |fl| {
      CoverAt(fl, i);
      DisjointUnits(fl[i], b);
      forall k | i <= k < |fl| ensures End(b) <= fl[k].addr { if k > i { assert Under(fl, i, k); } }
    }
  }

  /** The stopping test of the loop in free holds at header i and at no other. */
  lemma {:induction false} StopsAt(fl: seq<Block>, b: Block, i: nat, k: nat)
    requires Sorted(fl) && BlockOk(b) && Between(fl, i, b) && k <= |fl|
    ensures var p, q := Node(fl, k), Node(fl, Next(fl, k));
            ((b.addr > p && b.addr < q) || (p >= q && (b.addr > p || b.addr < q))) <==> k == i
  {
    if k > 0 && k < |fl| { assert Under(fl, k - 1, k); }
  }

  /** The block to insert is not a header of the list. */
  lemma {:induction false} NotANode(fl: seq<Block>, b: Block, i: nat)
    requires Sorted(fl) && BlockOk(b) && Between(fl, i, b)
    ensures forall k: nat :: k <= |fl| ==> Node(fl, k) != b.addr
  {
  }

  /** A header of the list is base or a free unit. */
  lemma {:induction false} NodeIn(fl: seq<Block>, i: nat)
    requires Sorted(fl) && i <= |fl|
    ensures Node(fl, i) == BASE || Node(fl, i) in Cover(fl)
  {
    if i > 0 {
      CoverAt(fl, i - 1);
      UnitsAre(fl[i - 1]);
    }
  }

  /** What the header of b holds once it has joined the block above. */
  ghost predicate JoinedHeader(mem: map<nat, Header>, fl: seq<Block>, b: Block, i: nat)
    requires i <= |fl|
  {
    var (c, rest) := AfterJoined(fl, i, b);
    b.addr in mem && mem[b.addr] == Header(if rest == [] then BASE else rest[0].addr, c.size)
  }

  /** The stores of free make the cycle of Insert. */
  lemma {:induction false} InsertLinked(
    mem: map<nat, Header>, mem1: map<nat, Header>, fl: seq<Block>, b: Block, i: nat, mem2: map<nat, Header>)
    requires Linked(mem, fl) && Sorted(fl) && BlockOk(b) && Between(fl, i, b) && JoinedHeader(mem1, fl, b, i)
    requires forall u: nat :: u != b.addr ==> Untouched(mem, mem1, u)
    requires var p := Node(fl, i);
             mem2 == mem1[p := if p + NodeSize(fl, i) == b.addr
                               then Header(mem1[b.addr].ptr, NodeSize(fl, i) + mem1[b.addr].size)
                               else Header(b.addr, NodeSize(fl, i))]
    ensures Linked(mem2, Insert(fl, i, b))
  {
    var (c, rest) := AfterJoined(fl, i, b);
    var r := |fl| - |rest|;
    assert rest == fl[r..];
    NotANode(fl, b, i);
    forall k: nat | k <= |fl| && k != i ensures Untouched(mem, mem2, Node(fl, k)) {
      if k < i { NodeOrder(fl, k, i); } else { NodeOrder(fl, i, k); }
      assert Untouched(mem, mem1, Node(fl, k));
    }
    if i > 0 && End(fl[i - 1]) == b.addr {
      assert NodeOk(mem, fl, i - 1);
      SpliceLinked(mem, mem2, fl, i - 1, r, Block(fl[i - 1].addr, fl[i - 1].size + c.size));
    } else {
      SpliceLinked(mem, mem2, fl, i, r, c);
    }
  }

  /** The header before b stays where it was in the list. */
  lemma {:induction false} InsertNode(fl: seq<Block>, i: nat, b: Block)
    requires i <= |fl|
    ensures i <= |Insert(fl, i, b)| && Node(Insert(fl, i, b), i) == Node(fl, i)
  {
  }

  // ----- the allocator ----------------------------------------------------------------------------

  /** Units for nbytes bytes, rounded up, and a header. */
  function UnitsFor(nbytes: nat): (n: nat)
    ensures n > 0 && (n - 2) * 16 < nbytes <= (n - 1) * 16
  {
    (nbytes + 15) / 16 + 1
  }

  /** What morecore asks for. */
  function CoreSize(nu: nat): nat { if nu < 4096 then 4096 else nu }

  ghost predicate NoFit(fl: seq<Block>, n: nat) {
    forall k :: 0 <= k < |fl| ==> fl[k].size < n
  }

  /** sbrk fails (0) or hands out memory above base that nobody has yet. */
  ghost predicate Fresh(core: nat, n: nat, owned: set<nat>) {
    core == 0 || (core > BASE && Units(Block(core, n)) !! owned)
  }

  /** Blocks in the program's hands: each header still holds its size. */
  ghost predicate LiveOk(mem: map<nat, Header>, live: seq<Block>) {
    && AllApart(live)
    && forall i :: 0 <= i < |live| ==> BlockOk(live[i]) && live[i].addr in mem && mem[live[i].addr].size == live[i].size
  }

  /** Header i lies between the roving pointer and k, going round: at+1, ..., k-1. */
  ghost predicate Visited(at: nat, k: nat, i: nat) {
    if at < k then at < i < k else i > at || i < k
  }

  ghost function Dropped(live: seq<Block>, k: nat): seq<Block>
    requires k < |live|
  {
    live[..k] + live[k + 1..]
  }

  lemma {:induction false} DroppedApart(live: seq<Block>, k: nat)
    requires AllApart(live) && k < |live|
    ensures AllApart(Dropped(live, k)) && Cover(Dropped(live, k)) !! Units(live[k])
    ensures Cover(live) == Cover(Dropped(live, k)) + Units(live[k])
  {
    var r := Dropped(live, k);
    forall i: nat, j: nat | i < j < |r| ensures PairApart(r, i, j) {
      assert PairApart(live, if i < k then i else i + 1, if j < k then j else j + 1);
    }
    forall j | 0 <= j < |r| ensures Units(r[j]) !! Units(live[k]) {
      if j < k { assert PairApart(live, j, k); } else { assert PairApart(live, k, j + 1); }
    }
    CoverApart(r, live[k]);
    SplitAt(live, k);
    CoverConcat(live[..k], live[k + 1..]);
    Swap(Cover(live[..k]), Units(live[k]), Cover(live[k + 1..]));
  }

  lemma {:induction false} Swap(a: set<nat>, b: set<nat>, c: set<nat>)
    ensures a + b + c == a + c + b
  {
  }

  /** No unit of a live block has been written. */
  ghost predicate LiveKept(mem: map<nat, Header>, mem': map<nat, Header>, live: seq<Block>) {
    forall u: nat :: u in Cover(live) ==> Untouched(mem, mem', u)
  }

  lemma {:induction false} LiveHeaders(mem: map<nat, Header>, mem': map<nat, Header>, live: seq<Block>)
    requires LiveOk(mem, live) && LiveKept(mem, mem', live)
    ensures LiveOk(mem', live)
  {
    forall i | 0 <= i < |live| ensures live[i].addr in mem' && mem'[live[i].addr].size == live[i].size {
      CoverAt(live, i);
      UnitsAre(live[i]);
      assert Untouched(mem, mem', live[i].addr);
    }
  }

  lemma {:induction false} CoverAboveBase(s: seq<Block>)
    requires forall i :: 0 <= i < |s| ==> BlockOk(s[i])
    ensures BASE !in Cover(s)
  {
    if s != [] {
      CoverAboveBase(s[..|s| - 1]);
      UnitsAre(s[|s| - 1]);
    }
  }

  /** Only base, units of fl and bp have been written. */
  ghost predicate WritesOnly(mem: map<nat, Header>, mem': map<nat, Header>, fl: seq<Block>, bp: nat) {
    forall u: nat :: u != bp && u != BASE && u !in Cover(fl) ==> Untouched(mem, mem', u)
  }

  /** Such writes leave live blocks alone. */
  lemma {:induction false} WritesMissLive(
    mem: map<nat, Header>, mem': map<nat, Header>, fl: seq<Block>, live: seq<Block>, bp: nat)
    requires LiveOk(mem, live) && Cover(fl) !! Cover(live) && bp !in Cover(live) && WritesOnly(mem, mem', fl, bp)
    ensures LiveKept(mem, mem', live) && LiveOk(mem', live)
  {
    CoverAboveBase(live);
    forall u: nat | u in Cover(live) ensures Untouched(mem, mem', u) { }
    LiveHeaders(mem, mem', live);
  }

  lemma {:induction false} MoveUnits(f: set<nat>, l: set<nat>, b: set<nat>, owned: set<nat>)
    requires f !! (l + b) && l !! b && f + (l + b) == owned
    ensures (f + b) !! l && f + b + l == owned
  {
  }

  /** Every unit obtained from sbrk is either free or live, and none is both. */
  ghost predicate Parts(fl: seq<Block>, live: seq<Block>, owned: set<nat>) {
    Cover(fl) !! Cover(live) && Cover(fl) + Cover(live) == owned
  }

  lemma {:induction false} LiveBlock(fl: seq<Block>, live: seq<Block>, owned: set<nat>, k: nat)
    requires Parts(fl, live, owned) && AllApart(live) && k < |live| && BlockOk(live[k])
    ensures Cover(fl) !! Units(live[k]) && Cover(fl) !! Cover(Dropped(live, k))
    ensures live[k].addr !in Cover(Dropped(live, k))
    ensures AllApart(Dropped(live, k))
  {
    DroppedApart(live, k);
    UnitsAre(live[k]);
    assert live[k].addr in Units(live[k]);
  }

  lemma {:induction false} FreeParts(fl: seq<Block>, live: seq<Block>, owned: set<nat>, k: nat, i: nat)
    requires Parts(fl, live, owned) && AllApart(live) && k < |live| && i <= |fl|
    ensures Parts(Insert(fl, i, live[k]), Dropped(live, k), owned)
  {
    DroppedApart(live, k);
    InsertCover(fl, i, live[k]);
    MoveUnits(Cover(fl), Cover(Dropped(live, k)), Units(live[k]), owned);
  }

  lemma {:induction false} CoreBlock(fl: seq<Block>, live: seq<Block>, owned: set<nat>, core: nat, n: nat)
    requires Parts(fl, live, owned) && core != 0 && Fresh(core, n, owned) && n > 0
    ensures core !in Cover(fl) && core !in Cover(live) && Cover(fl) !! Units(Block(core, n))
  {
    UnitsAre(Block(core, n));
    assert core in Units(Block(core, n));
  }

  lemma {:induction false} CoreParts(fl: seq<Block>, live: seq<Block>, owned: set<nat>, b: Block, i: nat)
    requires Parts(fl, live, owned) && Units(b) !! owned && i <= |fl|
    ensures Parts(Insert(fl, i, b), live, owned + Units(b))
  {
    InsertCover(fl, i, b);
    AddUnits(Cover(fl), Cover(live), Units(b), owned);
  }

  lemma {:induction false} AddUnits(f: set<nat>, l: set<nat>, b: set<nat>, owned: set<nat>)
    requires f !! l && f + l == owned && b !! owned
    ensures (f + b) !! l && f + b + l == owned + b
  {
  }

  // ----- taking a block --------------------------------------------------------------------------

  function Prev(fl: seq<Block>, k: nat): nat
    requires k <= |fl|
  {
    if k == 0 then |fl| else k - 1
  }

  /** Every header visited on the way from the roving pointer to k is too small. */
  ghost predicate Passed(fl: seq<Block>, at: nat, k: nat, n: nat) {
    forall i: nat :: i <= |fl| && Visited(at, k, i) ==> NodeSize(fl, i) < n
  }

  /** Block t is the first one from the roving pointer on that has n units. */
  ghost predicate FirstFit(fl: seq<Block>, at: nat, t: nat, n: nat) {
    t < |fl| && n <= fl[t].size && Passed(fl, at, t + 1, n)
  }

  lemma {:induction false} PassOn(fl: seq<Block>, at: nat, k: nat, n: nat)
    requires at <= |fl| && k <= |fl| && k != at && Passed(fl, at, k, n) && NodeSize(fl, k) < n
    ensures Passed(fl, at, Next(fl, k), n)
  {
    forall i: nat | i <= |fl| && Visited(at, Next(fl, k), i) ensures NodeSize(fl, i) < n {
      assert i == k || Visited(at, k, i);
    }
  }

  lemma {:induction false} PassStart(fl: seq<Block>, at: nat, n: nat)
    requires at <= |fl|
    ensures Passed(fl, at, Next(fl, at), n)
  {
  }

  /** Back at the roving pointer without a fit, there is none. */
  lemma {:induction false} WentRound(fl: seq<Block>, at: nat, n: nat)
    requires at <= |fl| && Passed(fl, at, at, n) && NodeSize(fl, at) < n
    ensures NoFit(fl, n)
  {
    forall k | 0 <= k < |fl| ensures fl[k].size < n {
      assert k + 1 == at || Visited(at, at, k + 1);
      assert NodeSize(fl, k + 1) < n;
    }
  }

  /** The block from morecore is in the list, perhaps as part of a larger one. */
  lemma {:induction false} InsertFits(fl: seq<Block>, i: nat, b: Block)
    requires i <= |fl|
    ensures !NoFit(Insert(fl, i, b), b.size)
  {
    var k := if i > 0 && End(fl[i - 1]) == b.addr then i - 1 else i;
    assert Insert(fl, i, b)[k].size >= b.size;
  }

  /** The stores of malloc when block t fits exactly: the one before is linked past it. */
  lemma {:induction false} TakeWholeLinked(mem: map<nat, Header>, mem': map<nat, Header>, fl: seq<Block>, t: nat)
    requires Linked(mem, fl) && Sorted(fl) && t < |fl| && fl[t].addr in mem && Node(fl, t) in mem
    requires mem' == mem[Node(fl, t) := Header(mem[fl[t].addr].ptr, mem[Node(fl, t)].size)]
    ensures Linked(mem', fl[..t] + fl[t + 1..]) && WritesOnly(mem, mem', fl, BASE)
    ensures mem'[fl[t].addr].size == fl[t].size
  {
    assert NodeOk(mem, fl, t) && NodeOk(mem, fl, t + 1);
    NodeIn(fl, t);
    NodeOrder(fl, t, t + 1);
    forall k: nat | k < t || t + 1 < k <= |fl| ensures Untouched(mem, mem', Node(fl, k)) {
      if k < t { NodeOrder(fl, k, t); } else { NodeOrder(fl, t, k); }
    }
    UnlinkLinked(mem, mem', fl, t);
  }

  /** The stores of malloc when block t is larger: its tail becomes a block. */
  lemma {:induction false} TakeTailLinked(mem: map<nat, Header>, mem': map<nat, Header>, fl: seq<Block>, t: nat, n: nat)
    requires Linked(mem, fl) && Sorted(fl) && t < |fl| && 0 < n < fl[t].size && fl[t].addr in mem
    requires var q := fl[t].addr + fl[t].size - n;
             q in mem' && mem' == mem[fl[t].addr := Header(mem[fl[t].addr].ptr, fl[t].size - n)][q := mem'[q]]
    ensures Linked(mem', Carve(fl, t, n)) && WritesOnly(mem, mem', fl, BASE)
  {
    assert NodeOk(mem, fl, t) && NodeOk(mem, fl, t + 1);
    var p, q := fl[t].addr, fl[t].addr + fl[t].size - n;
    CoverAt(fl, t);
    UnitsAre(fl[t]);
    assert p in Units(fl[t]) && q in Units(fl[t]);
    forall k: nat | k <= |fl| && k != t + 1 ensures Untouched(mem, mem', Node(fl, k)) {
      if k < t + 1 { NodeOrder(fl, k, t + 1); } else { NodeOrder(fl, t + 1, k); }
    }
    SpliceLinked(mem, mem', fl, t, t + 1, Block(p, fl[t].size - n));
  }

  /** n units move from the free to the live blocks. */
  lemma {:induction false} TakeParts(fl: seq<Block>, live: seq<Block>, owned: set<nat>, t: nat, n: nat)
    requires Parts(fl, live, owned) && Sorted(fl) && t < |fl| && 0 < n <= fl[t].size
    ensures Parts(Carve(fl, t, n), live + [Carved(fl[t], n)], owned)
    ensures Units(Carved(fl[t], n)) !! Cover(live)
  {
    CarveCover(fl, t, n);
    CoverConcat(live, [Carved(fl[t], n)]);
    CoverOne(Carved(fl[t], n));
    GiveUnits(Cover(Carve(fl, t, n)), Units(Carved(fl[t], n)), Cover(live), owned);
  }

  lemma {:induction false} GiveUnits(f: set<nat>, b: set<nat>, l: set<nat>, owned: set<nat>)
    requires f !! b && (f + b) !! l && f + b + l == owned
    ensures f !! (l + b) && f + (l + b) == owned && b !! l
  {
  }

  lemma {:induction false} OneMoreLive(mem: map<nat, Header>, live: seq<Block>, b: Block)
    requires LiveOk(mem, live) && BlockOk(b) && b.addr in mem && mem[b.addr].size == b.size && Units(b) !! Cover(live)
    ensures LiveOk(mem, live + [b])
  {
    var r := live + [b];
    forall i: nat, j: nat | i < j < |r| ensures PairApart(r, i, j) {
      if j < |live| { assert PairApart(live, i, j); } else { CoverAt(live, i); }
    }
  }

  /** The header before block t stays where it was in the list. */
  lemma {:induction false} CarveNode(fl: seq<Block>, t: nat, n: nat)
    requires t < |fl| && n <= fl[t].size
    ensures t <= |Carve(fl, t, n)| && Node(Carve(fl, t, n), t) == Node(fl, t)
  {
  }

  class Heap {
    var mem: map<nat, Header>
    var freep: nat
    ghost var fl: seq<Block>
    ghost var at: nat
    ghost var live: seq<Block>
    ghost var owned: set<nat>

    /** The list is one cycle in address order, and freep points into it. */
    ghost predicate ListOk()
      reads this
    {
      Linked(mem, fl) && Sorted(fl) && at <= |fl| && freep == Node(fl, at)
    }

    ghost predicate Valid()
      reads this
    {
      && (freep == 0 ==> fl == [] && live == [] && owned == {})
      && (freep != 0 ==> ListOk())
      && LiveOk(mem, live) && Parts(fl, live, owned)
    }

    constructor ()
      ensures Valid() && live == [] && owned == {}
    {
      mem, freep, fl, at, live, owned := map[], 0, [], 0, [], {};
    }

    /** The search loop of free: the header after which b belongs. It ends because that header comes round. */
    method FindSpot(bp: nat, ghost b: Block, ghost i: nat) returns (p: nat)
      requires ListOk() && b.addr == bp && BlockOk(b) && Between(fl, i, b)
      ensures p == Node(fl, i)
    {
      p := freep;
      ghost var k := at;
      StopsAt(fl, b, i, k);
      assert NodeOk(mem, fl, k);
      while !(bp > p && bp < mem[p].ptr)
        invariant 0 <= k <= |fl| && p == Node(fl, k) && p in mem && NodeOk(mem, fl, k)
        decreases if k <= i then i - k else |fl| + 1 - k + i
      {
        StopsAt(fl, b, i, k);
        if p >= mem[p].ptr && (bp > p || bp < mem[p].ptr) {
          break;
        }
        p := mem[p].ptr;
        k := Next(fl, k);
        assert NodeOk(mem, fl, k);
      }
      StopsAt(fl, b, i, k);
    }

    /** free(bp + 1) on the list: b is inserted and joined with the neighbours it touches. */
    method InsertBlock(bp: nat, ghost b: Block) returns (ghost i: nat)
      requires ListOk() && b.addr == bp && BlockOk(b) && Cover(fl) !! Units(b) && bp in mem && mem[bp].size == b.size
      modifies this`mem, this`freep, this`fl, this`at
      ensures ListOk() && Between(old(fl), i, b) && fl == Insert(old(fl), i, b) && at == i
      ensures WritesOnly(old(mem), mem, old(fl), bp)
    {
      i := Position(fl, b);
      var p := FindSpot(bp, b, i);
      NodeIn(fl, i);
      Relink(bp, p, b, i);
      freep := p;
      at := i;
      InsertSorted(fl, i, b);
      InsertNode(fl, i, b);
      fl := Insert(fl, i, b);
    }

    /** The stores of free. */
    method Relink(bp: nat, p: nat, ghost b: Block, ghost i: nat)
      requires Linked(mem, fl) && Sorted(fl) && b.addr == bp && BlockOk(b) && Between(fl, i, b) && p == Node(fl, i)
      requires bp in mem && mem[bp].size == b.size
      modifies this`mem
      ensures Linked(mem, Insert(fl, i, b))
      ensures forall u: nat :: u != bp && u != p ==> Untouched(old(mem), mem, u)
    {
      ghost var mem0 := mem;
      assert NodeOk(mem, fl, i) && NodeOk(mem, fl, Next(fl, i));
      NotANode(fl, b, i);
      if bp + mem[bp].size == mem[p].ptr {
        mem := mem[bp := Header(mem[mem[p].ptr].ptr, mem[bp].size + mem[mem[p].ptr].size)];
      } else {
        mem := mem[bp := Header(mem[p].ptr, mem[bp].size)];
      }
      assert JoinedHeader(mem, fl, b, i);
      ghost var mem1 := mem;
      if p + mem[p].size == bp {
        mem := mem[p := Header(mem[bp].ptr, mem[p].size + mem[bp].size)];
      } else {
        mem := mem[p := Header(bp, mem[p].size)];
      }
      InsertLinked(mem0, mem1, fl, b, i, mem);
    }

    /** free(ap): the live block whose data starts at ap joins the free list; other live blocks are not written. */
    method Free(ap: nat, ghost k: nat) returns (ghost i: nat)
      requires Valid() && k < |live| && ap == live[k].addr + 1
      modifies this
      ensures Valid() && live == Dropped(old(live), k) == old(live)[..k] + old(live)[k + 1..] && owned == old(owned)
      ensures Between(old(fl), i, old(live)[k]) && fl == Insert(old(fl), i, old(live)[k]) && at == i
      ensures Total(fl) == Total(old(fl)) + old(live)[k].size
      ensures LiveKept(old(mem), mem, live)
    {
      ghost var b, fl0, live0, mem0 := live[k], fl, live, mem;
      LiveBlock(fl, live, owned, k);
      i := InsertBlock(ap - 1, b);
      live := Dropped(live0, k);
      FreeParts(fl0, live0, owned, k, i);
      WritesMissLive(mem0, mem, fl0, live, b.addr);
      Returned(mem0, fl0, live0, mem, fl, owned, k);
    }

    /** morecore(nu): sbrk's new memory becomes a free block; returns 0 if sbrk fails. */
    method MoreCore(nu: nat, core: nat) returns (p: nat, ghost i: nat)
      requires Valid() && freep != 0 && Fresh(core, if nu < 4096 then 4096 else nu, owned)
      modifies this
      ensures Valid() && freep != 0 && live == old(live) && p == (if core == 0 then 0 else freep)
      ensures core == 0 ==>
          fl == old(fl) && owned == old(owned) && freep == old(freep) && at == old(at) && mem == old(mem)
      ensures core != 0 ==>
                GotCore(old(fl), old(owned), fl, owned, core, nu, i) && at == i
      ensures core != 0 ==>
                && (forall u :: u in owned <==> u in old(owned) || core <= u < core + if nu < 4096 then 4096 else nu)
                && |owned| == |old(owned)| + (if nu < 4096 then 4096 else nu)
                && Total(fl) == Total(old(fl)) + (if nu < 4096 then 4096 else nu)
      ensures LiveKept(old(mem), mem, live)
    {
      i := 0;
      if core == 0 {
        return 0, 0;
      }
      var size := CoreSize(nu);
      ghost var b, fl0, mem0 := Block(core, size), fl, mem;
      CoreBlock(fl, live, owned, core, size);
      var h := Header(0, size);
      NewHeader(mem, mem[core := h], fl, core);
      mem := mem[core := h];
      ghost var mem1 := mem;
      i := InsertBlock(core, b);
      CoreParts(fl0, live, owned, b, i);
      owned := owned + Units(b);
      WritesTwice(mem0, mem1, mem, fl0, core);
      WritesMissLive(mem0, mem, fl0, live, core);
      Grows(mem0, fl0, live, old(owned), mem, fl, owned, b);
      p := freep;
    }

    /** malloc has found p large enough: take its last n units, or unlink it. */
    method Take(prev: nat, p: nat, n: nat, ghost t: nat) returns (q: nat)
      requires Valid() && freep != 0 && t < |fl| && p == fl[t].addr && prev == Node(fl, t) && 0 < n <= fl[t].size
      modifies this
      ensures Valid() && freep != 0 && fl == Carve(old(fl), t, n) && q == Carved(old(fl)[t], n).addr && at == t
      ensures live == old(live) + [Carved(old(fl)[t], n)] && owned == old(owned) && LiveKept(old(mem), mem, old(live))
    {
      ghost var mem0, b := mem, Carved(fl[t], n);
      q := TakeStores(prev, p, n, t);
      freep := prev;
      CarveNode(fl, t, n);
      CarveSorted(fl, t, n);
      TakeParts(fl, live, owned, t, n);
      TakenLive(mem0, mem, fl, live, b, q);
      fl, at, live := Carve(fl, t, n), t, live + [b];
    }

    method TakeStores(prev: nat, p: nat, n: nat, ghost t: nat) returns (q: nat)
      requires Linked(mem, fl) && Sorted(fl) && t < |fl| && p == fl[t].addr && prev == Node(fl, t)
      requires 0 < n <= fl[t].size
      modifies this`mem
      ensures Linked(mem, Carve(fl, t, n)) && WritesOnly(old(mem), mem, fl, BASE)
      ensures q == Carved(fl[t], n).addr && q in mem && mem[q].size == n
    {
      ghost var mem0 := mem;
      assert NodeOk(mem, fl, t) && NodeOk(mem, fl, t + 1);
      q := p;
      if mem[p].size == n {
        mem := mem[prev := Header(mem[p].ptr, mem[prev].size)];
        TakeWholeLinked(mem0, mem, fl, t);
      } else {
        mem := mem[p := Header(mem[p].ptr, mem[p].size - n)];
        q := p + mem[p].size;
        mem := mem[q := Header(if q in mem then mem[q].ptr else 0, n)];
        TakeTailLinked(mem0, mem, fl, t, n);
      }
    }

    /**
     * malloc(nbytes), where core is what sbrk would return (0 if it fails). The block is carved out of the
     * first fit after the roving pointer. Memory is asked for once, and only if no free block is large enough;
     * if that succeeds so does malloc.
     */
    method Malloc(nbytes: nat, core: nat) returns (r: nat, ghost g: seq<Block>, ghost t: nat, ghost i: nat)
      requires Valid() && Fresh(core, if UnitsFor(nbytes) < 4096 then 4096 else UnitsFor(nbytes), owned)
      modifies this
      ensures Valid() && LiveKept(old(mem), mem, old(live))
      ensures r == 0 <==> core == 0 && NoFit(old(fl), UnitsFor(nbytes))
      ensures NoFit(old(fl), UnitsFor(nbytes)) <==>
                forall k :: 0 <= k < |old(fl)| ==> old(fl)[k].size < UnitsFor(nbytes)
      ensures r == 0 ==> live == old(live) && fl == old(fl) && owned == old(owned)
      ensures r == 0 && old(freep) != 0 ==> freep == old(freep)
      ensures r != 0 ==> t < |g| && r - 1 == g[t].addr + g[t].size - UnitsFor(nbytes) && at == t
      ensures r != 0 ==>
                var more := if !NoFit(old(fl), UnitsFor(nbytes)) then 0
                            else if UnitsFor(nbytes) < 4096 then 4096 else UnitsFor(nbytes);
                && |owned| == |old(owned)| + more && Total(fl) + UnitsFor(nbytes) == Total(old(fl)) + more
                && (forall u :: u in owned <==> u in old(owned) || core <= u < core + more)
      ensures r != 0 ==>
                && t < |g| && UnitsFor(nbytes) <= g[t].size && fl == Carve(g, t, UnitsFor(nbytes))
                && r == Carved(g[t], UnitsFor(nbytes)).addr + 1 && live == old(live) + [Block(r - 1, UnitsFor(nbytes))]
      ensures r != 0 && !NoFit(old(fl), UnitsFor(nbytes)) ==>
                g == old(fl) && owned == old(owned) && FirstFit(g, old(at), t, UnitsFor(nbytes))
      ensures r != 0 && NoFit(old(fl), UnitsFor(nbytes)) ==>
                GotCore(old(fl), old(owned), g, owned, core, UnitsFor(nbytes), i) && FirstFit(g, i, t, UnitsFor(nbytes))
    {
      r, g, t, i := MallocUnits(UnitsFor(nbytes), core);
      if r != 0 {
        r := r + 1;
      }
    }

    /** malloc of n units, the header among them. */
    method MallocUnits(n: nat, core: nat) returns (q: nat, ghost g: seq<Block>, ghost t: nat, ghost i: nat)
      requires Valid() && n > 0 && Fresh(core, if n < 4096 then 4096 else n, owned)
      modifies this
      ensures Valid() && LiveKept(old(mem), mem, old(live))
      ensures q == 0 <==> core == 0 && NoFit(old(fl), n)
      ensures q == 0 ==> live == old(live) && fl == old(fl) && owned == old(owned)
      ensures q == 0 && old(freep) != 0 ==> freep == old(freep)
      ensures q != 0 ==>
                && t < |g| && n <= g[t].size && fl == Carve(g, t, n) && at == t
                && Block(q, n) == Carved(g[t], n) && live == old(live) + [Block(q, n)]
      ensures q != 0 && !NoFit(old(fl), n) ==> g == old(fl) && owned == old(owned) && FirstFit(g, old(at), t, n)
      ensures q != 0 && NoFit(old(fl), n) ==> GotCore(old(fl), old(owned), g, owned, core, n, i) && FirstFit(g, i, t, n)
      ensures q != 0 ==>
                var more := if !NoFit(old(fl), n) then 0 else if n < 4096 then 4096 else n;
                && |owned| == |old(owned)| + more && Total(fl) + n == Total(old(fl)) + more
                && (forall u :: u in owned <==> u in old(owned) || core <= u < core + more)
    {
      if freep == 0 {
        freep, at := BASE, 0;
        mem := mem[BASE := Header(BASE, 0)];
      }
      ghost var mem0, fl0, live0, owned0 := mem, fl, live, owned;
      q, g, t, i := Search(n, core);
      if q != 0 {
        Spent(mem0, fl0, live0, owned0, mem, fl, live, owned, g, core, n, i, Block(q, n));
      }
    }

    /** The search has come round to freep without success. */
    method AfterRound(n: nat, core: nat, ghost mem0: map<nat, Header>) returns (p: nat, ghost i: nat)
      requires Valid() && freep != 0 && Fresh(core, CoreSize(n), owned) && NoFit(fl, n) && LiveKept(mem0, mem, live)
      modifies this
      ensures Valid() && freep != 0 && live == old(live) && LiveKept(mem0, mem, live)
      ensures p == 0 ==> core == 0 && fl == old(fl) && owned == old(owned) && at == old(at)
      ensures p != 0 ==>
                && GotCore(old(fl), old(owned), fl, owned, core, n, i) && at == i && !NoFit(fl, n)
                && p == Node(fl, at) && Passed(fl, at, Next(fl, at), n)
    {
      ghost var fl0, owned0, mem1 := fl, owned, mem;
      p, i := MoreCore(n, core);
      KeptTwice(mem0, mem1, mem, live);
      if p != 0 {
        GotFits(fl0, owned0, fl, owned, core, n, i);
        PassStart(fl, at, n);
      }
    }

    /** The loop of malloc. */
    method Search(n: nat, core: nat) returns (q: nat, ghost g: seq<Block>, ghost t: nat, ghost i: nat)
      requires Valid() && freep != 0 && n > 0 && Fresh(core, CoreSize(n), owned)
      modifies this
      ensures Valid() && LiveKept(old(mem), mem, old(live))
      ensures q == 0 <==> core == 0 && NoFit(old(fl), n)
      ensures q == 0 ==> live == old(live) && fl == old(fl) && owned == old(owned) && freep == old(freep)
      ensures q != 0 ==> at == t
      ensures q != 0 ==>
                && t < |g| && n <= g[t].size && fl == Carve(g, t, n)
                && Block(q, n) == Carved(g[t], n) && live == old(live) + [Block(q, n)]
      ensures q != 0 && !NoFit(old(fl), n) ==> g == old(fl) && owned == old(owned) && FirstFit(g, old(at), t, n)
      ensures q != 0 && NoFit(old(fl), n) ==> GotCore(old(fl), old(owned), g, owned, core, n, i) && FirstFit(g, i, t, n)
    {
      ghost var fl0, at0, owned0, live0, mem0 := fl, at, owned, live, mem;
      var prev, p;
      ghost var grew;
      prev, p, t, i, grew := FindFit(n, core);
      g := fl;
      if p == 0 {
        return 0, g, t, i;
      }
      ghost var mem1 := mem;
      q := Take(prev, p, n, t);
      KeptTwice(mem0, mem1, mem, live0);
    }

    /** The search itself: a block that fits and the header before it, or 0 if sbrk has failed. */
    method FindFit(n: nat, core: nat) returns (prev: nat, p: nat, ghost t: nat, ghost i: nat, ghost grew: bool)
      requires Valid() && freep != 0 && n > 0 && Fresh(core, CoreSize(n), owned)
      modifies this
      ensures Since(old(fl), old(at), old(owned), old(live), old(mem), core, n, i, grew)
      ensures p == 0 ==> !grew && core == 0 && NoFit(fl, n) && freep == old(freep)
      ensures p != 0 ==> FirstFit(fl, at, t, n) && p == fl[t].addr && prev == Node(fl, t)
    {
      ghost var fl0, at0, owned0, live0, mem0 := fl, at, owned, live, mem;
      ghost var k: nat := Next(fl, at);
      prev, p := freep, NextOf(freep, at);
      grew, i := false, 0;
      while mem[p].size < n
        invariant OnCycle(k, p, prev) && Passed(fl, at, k, n) && ListOk()
        invariant Since(fl0, at0, owned0, live0, mem0, core, n, i, grew)
        decreases !grew, if k > at then |fl| - k + at + 1 else at - k
      {
        if p == freep {
          NodeIs(fl, k, at);
          WentRound(fl, at, n);
          p, i := AfterRound(n, core, mem0);
          if p == 0 {
            return 0, 0, 0, 0, false;
          }
          grew, k := true, at;
        } else {
          PassOn(fl, at, k, n);
        }
        prev, p := p, NextOf(p, k);
        k := Next(fl, k);
      }
      t := k - 1;
    }

    /** p is header k and prev the one before it. */
    ghost predicate OnCycle(k: nat, p: nat, prev: nat)
      reads this
    {
      k <= |fl| && p == Node(fl, k) && prev == Node(fl, Prev(fl, k)) && NodeOk(mem, fl, k)
    }

    /** p->s.ptr for header k. */
    function NextOf(p: nat, ghost k: nat): (q: nat)
      requires ListOk() && k <= |fl| && p == Node(fl, k)
      reads this
      ensures OnCycle(Next(fl, k), q, p)
    {
      assert NodeOk(mem, fl, k) && NodeOk(mem, fl, Next(fl, k));
      mem[p].ptr
    }

    /** What the search has changed: nothing, or sbrk's memory has joined a list in which nothing fitted. */
    ghost predicate Since(fl0: seq<Block>, at0: nat, owned0: set<nat>, live0: seq<Block>, mem0: map<nat, Header>,
                          core: nat, n: nat, i: nat, grew: bool)
      reads this
    {
      && Valid() && freep != 0 && live == live0 && LiveKept(mem0, mem, live0)
      && (!grew ==> fl == fl0 && at == at0 && owned == owned0)
      && (grew ==> NoFit(fl0, n) && at == i && GotCore(fl0, owned0, fl, owned, core, n, i) && !NoFit(fl, n))
    }
  }

  /** The new memory has been put in the list, at place i. */
  ghost predicate GotCore(fl: seq<Block>, owned: set<nat>, g: seq<Block>, owned': set<nat>, core: nat, n: nat, i: nat) {
    var b := Block(core, CoreSize(n));
    core != 0 && owned' == owned + Units(b) && Between(fl, i, b) && g == Insert(fl, i, b)
  }

  lemma {:induction false} TakenLive(
    mem: map<nat, Header>, mem': map<nat, Header>, fl: seq<Block>, live: seq<Block>, b: Block, q: nat)
    requires LiveOk(mem, live) && Cover(fl) !! Cover(live) && WritesOnly(mem, mem', fl, BASE)
    requires BlockOk(b) && q == b.addr && q in mem' && mem'[q].size == b.size && Units(b) !! Cover(live)
    ensures LiveKept(mem, mem', live) && LiveOk(mem', live + [b])
  {
    CoverAboveBase(live);
    WritesMissLive(mem, mem', fl, live, BASE);
    OneMoreLive(mem', live, b);
  }

  lemma {:induction false} NodeIs(fl: seq<Block>, k: nat, at: nat)
    requires Sorted(fl) && k <= |fl| && at <= |fl| && Node(fl, k) == Node(fl, at)
    ensures k == at
  {
    if k < at { NodeOrder(fl, k, at); } else if at < k { NodeOrder(fl, at, k); }
  }

  lemma {:induction false} GotFits(
    fl: seq<Block>, owned: set<nat>, g: seq<Block>, owned': set<nat>, core: nat, n: nat, i: nat)
    requires GotCore(fl, owned, g, owned', core, n, i)
    ensures !NoFit(g, n)
  {
    InsertFits(fl, i, Block(core, CoreSize(n)));
  }

  lemma {:induction false} KeptTwice(
    mem: map<nat, Header>, mem': map<nat, Header>, mem'': map<nat, Header>, live: seq<Block>)
    requires LiveKept(mem, mem', live) && LiveKept(mem', mem'', live)
    ensures LiveKept(mem, mem'', live)
  {
    forall u: nat | u in Cover(live) ensures Untouched(mem, mem'', u) {
      assert Untouched(mem, mem', u) && Untouched(mem', mem'', u);
    }
  }

  /** A header outside the list does not disturb it. */
  lemma {:induction false} NewHeader(mem: map<nat, Header>, mem': map<nat, Header>, fl: seq<Block>, a: nat)
    requires Linked(mem, fl) && Sorted(fl) && a > BASE && a !in Cover(fl) && a in mem' && mem' == mem[a := mem'[a]]
    ensures Linked(mem', fl)
  {
    forall k: nat | k <= |fl| ensures NodeOk(mem', fl, k) {
      NodeIn(fl, k);
      assert NodeOk(mem, fl, k);
    }
  }

  lemma {:induction false} WritesTwice(
    mem: map<nat, Header>, mem': map<nat, Header>, mem'': map<nat, Header>, fl: seq<Block>, a: nat)
    requires a in mem' && mem' == mem[a := mem'[a]] && WritesOnly(mem', mem'', fl, a)
    ensures WritesOnly(mem, mem'', fl, a)
  {
    forall u: nat | u != a && u != BASE && u !in Cover(fl) ensures Untouched(mem, mem'', u) {
      assert Untouched(mem', mem'', u);
    }
  }

  // ----- conservation and undoing ----------------------------------------------------------------------

  /** Free and live units add up to the units obtained from sbrk. */
  lemma {:induction false} Conservation(mem: map<nat, Header>, fl: seq<Block>, live: seq<Block>, owned: set<nat>)
    requires Sorted(fl) && LiveOk(mem, live) && Parts(fl, live, owned)
    ensures Total(fl) + Total(live) == |owned|
  {
    SortedApart(fl);
    CountUnits(fl);
    CountUnits(live);
  }

  /** The free units grow by exactly the new block. */
  lemma {:induction false} Grows(
    mem: map<nat, Header>, fl: seq<Block>, live: seq<Block>, owned: set<nat>,
    mem': map<nat, Header>, fl': seq<Block>, owned': set<nat>, b: Block)
    requires Sorted(fl) && LiveOk(mem, live) && Parts(fl, live, owned)
    requires Sorted(fl') && LiveOk(mem', live) && Parts(fl', live, owned')
    requires owned' == owned + Units(b) && Units(b) !! owned
    ensures (forall u :: u in owned' <==> u in owned || b.addr <= u < b.addr + b.size)
    ensures |owned'| == |owned| + b.size && Total(fl') == Total(fl) + b.size
  {
    UnitsAre(b);
    Conservation(mem, fl, live, owned);
    Conservation(mem', fl', live, owned');
  }

  lemma {:induction false} Returned(
    mem: map<nat, Header>, fl: seq<Block>, live: seq<Block>, mem': map<nat, Header>, fl': seq<Block>,
    owned: set<nat>, k: nat)
    requires Sorted(fl) && LiveOk(mem, live) && Parts(fl, live, owned) && k < |live|
    requires Sorted(fl') && LiveOk(mem', Dropped(live, k)) && Parts(fl', Dropped(live, k), owned)
    ensures Total(fl') == Total(fl) + live[k].size
  {
    Conservation(mem, fl, live, owned);
    Conservation(mem', fl', Dropped(live, k), owned);
    DroppedTotal(live, k);
  }

  lemma {:induction false} DroppedTotal(live: seq<Block>, k: nat)
    requires k < |live|
    ensures Total(live) == Total(Dropped(live, k)) + live[k].size
    decreases |live|
  {
    var n := |live| - 1;
    if k < n {
      DroppedTotal(live[..n], k);
      assert Dropped(live, k)[..n - 1] == Dropped(live[..n], k);
    } else {
      assert Dropped(live, k) == live[..n];
    }
  }

  /** What malloc takes: the block, out of the old list or out of that and the new memory. */
  lemma {:induction false} Spent(
    mem: map<nat, Header>, fl: seq<Block>, live: seq<Block>, owned: set<nat>,
    mem': map<nat, Header>, fl': seq<Block>, live': seq<Block>, owned': set<nat>,
    g: seq<Block>, core: nat, n: nat, i: nat, b: Block)
    requires Sorted(fl) && LiveOk(mem, live) && Parts(fl, live, owned) && b.size == n
    requires Sorted(fl') && LiveOk(mem', live') && Parts(fl', live', owned') && live' == live + [b]
    requires Fresh(core, if n < 4096 then 4096 else n, owned)
    requires if NoFit(fl, n) then GotCore(fl, owned, g, owned', core, n, i) else owned' == owned
    ensures var more := if !NoFit(fl, n) then 0 else if n < 4096 then 4096 else n;
            && |owned'| == |owned| + more && Total(fl') + n == Total(fl) + more
            && (forall u :: u in owned' <==> u in owned || core <= u < core + more)
  {
    UnitsAre(Block(core, if n < 4096 then 4096 else n));
    Conservation(mem, fl, live, owned);
    Conservation(mem', fl', live', owned');
    assert live'[..|live|] == live;
  }

  /** The first fit, in the order of the list: every block from the roving pointer on, round to t, is too small. */
  lemma {:induction false} FirstFitIs(fl: seq<Block>, at: nat, t: nat, n: nat)
    requires FirstFit(fl, at, t, n) && at <= |fl|
    ensures t < |fl| && fl[t].size >= n
    ensures at <= t ==> forall j :: at <= j < t ==> fl[j].size < n
    ensures at > t ==> forall j :: at <= j < |fl| || 0 <= j < t ==> fl[j].size < n
  {
    forall j | 0 <= j < |fl| && Visited(at, t + 1, j + 1) ensures fl[j].size < n { assert NodeSize(fl, j + 1) < n; }
  }

  lemma {:induction false} OnePlace(s: seq<Block>, b: Block, i: nat, j: nat)
    requires Sorted(s) && BlockOk(b) && Between(s, i, b) && Between(s, j, b)
    ensures i == j
  {
    var k := if i < j then i else j;
    var c := if k < |s| then s[k] else b;
    assert BlockOk(c);
  }

  /** Freeing the block just allocated gives back the free list it was carved from. */
  lemma {:induction false} FreeUndoesMalloc(g: seq<Block>, t: nat, n: nat, i: nat)
    requires Sorted(g) && t < |g| && 0 < n <= g[t].size && Between(Carve(g, t, n), i, Carved(g[t], n))
    ensures Insert(Carve(g, t, n), i, Carved(g[t], n)) == g
  {
    CarveSorted(g, t, n);
    if g[t].size == n { UndoWhole(g, t, i); } else { UndoTail(g, t, n, i); }
  }

  lemma {:induction false} UndoWhole(g: seq<Block>, t: nat, i: nat)
    requires Sorted(g) && t < |g| && Sorted(g[..t] + g[t + 1..]) && Between(g[..t] + g[t + 1..], i, g[t])
    ensures Insert(g[..t] + g[t + 1..], i, g[t]) == g
  {
    var s, b := g[..t] + g[t + 1..], g[t];
    Around(g, t);
    forall k | 0 <= k < |s| ensures if k < t then End(s[k]) < b.addr else End(b) < s[k].addr { }
    OnePlace(s, b, i, t);
    assert g == g[..t] + [g[t]] + g[t + 1..];
    assert s[..t] == g[..t] && s[t..] == g[t + 1..];
  }

  lemma {:induction false} Around(g: seq<Block>, t: nat)
    requires Sorted(g) && t < |g|
    ensures forall k :: 0 <= k < t ==> End(g[k]) < g[t].addr
    ensures forall k :: t < k < |g| ==> End(g[t]) < g[k].addr
  {
    forall k | 0 <= k < t ensures End(g[k]) < g[t].addr { assert Under(g, k, t); }
    forall k | t < k < |g| ensures End(g[t]) < g[k].addr { assert Under(g, t, k); }
  }

  lemma {:induction false} UndoTail(g: seq<Block>, t: nat, n: nat, i: nat)
    requires Sorted(g) && t < |g| && 0 < n < g[t].size && Sorted(Carve(g, t, n))
    requires Between(Carve(g, t, n), i, Carved(g[t], n))
    ensures Insert(Carve(g, t, n), i, Carved(g[t], n)) == g
  {
    var s, b := Carve(g, t, n), Carved(g[t], n);
    Around(g, t);
    forall k | 0 <= k < |s| ensures if k < t + 1 then End(s[k]) <= b.addr else End(b) < s[k].addr { }
    OnePlace(s, b, i, t + 1);
    assert s[..t] == g[..t] && s[t + 1..] == g[t + 1..];
  }
}
