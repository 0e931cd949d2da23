/**
 * The buffer cache of kernel/bio.c. Each call is one atomic step (the code under bcache.lock, or the
 * work of the process that holds a buffer's sleep lock), in any interleaving. The ghost parts say who
 * uses a buffer, which blocks the running transaction has pinned, and what was last released.
 */
module BufferCache {
  import opened BufferList

  type Data = seq<nat>

  datatype Key = Key(dev: nat, blockno: nat)

  datatype Buf = Buf(key: Key, valid: bool, refcnt: nat, locked: bool, data: Data)

  /**
   * users[i]: processes holding or waiting for buffer i; pinned: blocks recorded by log_write and not
   * yet installed; latest: contents most recently released by brelse (initially the disk's).
   */
  datatype Cache = Cache(
    bufs: seq<Buf>, order: seq<nat>, disk: map<Key, Data>,
    users: seq<nat>, pinned: set<Key>, latest: map<Key, Data>)

  // ----- the invariant -------------------------------------------------------------------

  /** Buffer i is unused and everything behind it on the recency list is in use. */
  ghost predicate LeastRecent(c: Cache, order: seq<nat>, i: nat) {
    i < |c.bufs| && c.bufs[i].refcnt == 0
    && exists p :: 0 <= p < |order| && order[p] == i && InUseFrom(c, order, p + 1)
  }

  ghost predicate InUseFrom(c: Cache, order: seq<nat>, p: nat) {
    forall m :: p <= m < |order| ==> order[m] < |c.bufs| && c.bufs[order[m]].refcnt > 0
  }

  ghost predicate Cached(c: Cache, k: Key, i: int) {
    0 <= i < |c.bufs| && c.bufs[i].key == k
  }

  /** Buffer i as bget and brelse keep it. */
  ghost predicate BufOk(c: Cache, i: nat)
    requires i < |c.bufs| == |c.users|
  {
    var b := c.bufs[i];
    && b.refcnt == c.users[i] + (if b.key in c.pinned then 1 else 0)
    && (b.locked ==> c.users[i] >= 1 && b.valid)
    && (b.key in c.pinned ==> b.valid)
    && (b.key.dev != 0 ==> b.key in c.disk)
    && (b.key.dev != 0 && b.valid && !b.locked ==> b.key in c.latest && b.data == c.latest[b.key])
    && (b.key.dev == 0 ==> !b.valid && c.users[i] == 0)
  }

  /** Some process holds the buffer of block k. */
  ghost predicate Held(c: Cache, k: Key) {
    exists i :: Cached(c, k, i) && c.bufs[i].locked
  }

  /** Unless block k is pinned or being held, the disk has what was last released. */
  ghost predicate DiskOk(c: Cache, k: Key) {
    k in c.latest && k in c.disk && (k !in c.pinned && !Held(c, k) ==> c.disk[k] == c.latest[k])
  }

  /** Two buffers never carry the label of the same real block. */
  ghost predicate Differ(c: Cache, i: nat, j: nat)
    requires i < |c.bufs| && j < |c.bufs|
  {
    i != j && c.bufs[i].key.dev != 0 ==> c.bufs[i].key != c.bufs[j].key
  }

  ghost predicate UniqueLabels(c: Cache) {
    forall i, j :: 0 <= i < |c.bufs| && 0 <= j < |c.bufs| ==> Differ(c, i, j)
  }

  lemma {:induction false} LabelsKept(c: Cache, d: Cache)
    requires UniqueLabels(c) && |c.bufs| == |d.bufs|
    requires forall j :: 0 <= j < |c.bufs| ==> c.bufs[j].key == d.bufs[j].key
    ensures UniqueLabels(d)
  {
    forall i, j | 0 <= i < |d.bufs| && 0 <= j < |d.bufs| ensures Differ(d, i, j) { assert Differ(c, i, j); }
  }

  ghost predicate Inv(c: Cache) {
    && |c.order| == |c.bufs| == |c.users| && Members(|c.bufs|, c.order)
    && UniqueLabels(c)
    && (forall i :: 0 <= i < |c.bufs| ==> BufOk(c, i))
    && (forall k :: k in c.pinned ==> k.dev != 0 && exists i :: Cached(c, k, i))
    && c.disk.Keys == c.latest.Keys
    && (forall k :: k in c.disk ==> DiskOk(c, k))
  }

  /** The state binit leaves: every buffer free and labelled (0, 0). */
  ghost predicate Initial(c: Cache) {
    && |c.order| == |c.bufs| == |c.users| && Members(|c.bufs|, c.order)
    && (forall i :: 0 <= i < |c.bufs| ==> c.bufs[i] == Buf(Key(0, 0), false, 0, false, []) && c.users[i] == 0)
    && c.pinned == {} && c.latest == c.disk
  }

  lemma {:induction false} InitialInv(c: Cache)
    requires Initial(c)
    ensures Inv(c)
  {
    forall i | 0 <= i < |c.bufs| ensures BufOk(c, i) { }
    forall k | k in c.disk ensures DiskOk(c, k) { }
  }

  // ----- the steps ---------------------------------------------------------------------------

  /** bget that finds the block cached in buffer i. */
  ghost function Hit(c: Cache, i: nat): Cache
    requires i < |c.bufs| == |c.users|
  {
    c.(bufs := c.bufs[i := c.bufs[i].(refcnt := c.bufs[i].refcnt + 1)], users := c.users[i := c.users[i] + 1])
  }

  /** bget that recycles buffer i for block k. */
  ghost function Recycle(c: Cache, i: nat, k: Key): Cache
    requires i < |c.bufs| == |c.users|
  {
    c.(bufs := c.bufs[i := c.bufs[i].(key := k, valid := false, refcnt := 1)], users := c.users[i := 1])
  }

  /** The rest of bread: take the sleep lock, and fill the buffer from disk if it is not valid. */
  ghost function Acquired(c: Cache, i: nat): Cache
    requires i < |c.bufs| && c.bufs[i].key in c.disk
  {
    var b := c.bufs[i];
    c.(bufs := c.bufs[i := b.(locked := true, valid := true, data := if b.valid then b.data else c.disk[b.key])])
  }

  /** The holder changes the buffer's contents. */
  ghost function Modify(c: Cache, i: nat, data: Data): Cache
    requires i < |c.bufs|
  {
    c.(bufs := c.bufs[i := c.bufs[i].(data := data)])
  }

  ghost function Written(c: Cache, i: nat): Cache
    requires i < |c.bufs|
  {
    c.(disk := c.disk[c.bufs[i].key := c.bufs[i].data])
  }

  /** bpin, called by log_write for a block it records. */
  ghost function Pinned(c: Cache, i: nat): Cache
    requires i < |c.bufs|
  {
    c.(bufs := c.bufs[i := c.bufs[i].(refcnt := c.bufs[i].refcnt + 1)], pinned := c.pinned + {c.bufs[i].key})
  }

  /** bunpin, called by install_trans once the block is home. */
  ghost function Unpinned(c: Cache, i: nat): Cache
    requires i < |c.bufs| && c.bufs[i].refcnt > 0
  {
    c.(bufs := c.bufs[i := c.bufs[i].(refcnt := c.bufs[i].refcnt - 1)], pinned := c.pinned - {c.bufs[i].key})
  }

  /** brelse; at position p of the list, moved to the front if no one else refers to it. */
  ghost function Released(c: Cache, i: nat, p: nat): Cache
    requires i < |c.bufs| == |c.users| && c.bufs[i].refcnt > 0 && c.users[i] > 0 && p < |c.order|
  {
    var b := c.bufs[i];
    c.(bufs := c.bufs[i := b.(locked := false, refcnt := b.refcnt - 1)],
       users := c.users[i := c.users[i] - 1],
       latest := c.latest[b.key := b.data],
       order := if b.refcnt == 1 then [i] + Without(c.order, p) else c.order)
  }

  // ----- every step keeps the invariant --------------------------------------------------------

  /** Only buffer i changed, and its label, lock and the shared parts did not: the rest stays fine. */
  lemma {:induction false} HitInv(c: Cache, i: nat)
    requires Inv(c) && i < |c.bufs| && c.bufs[i].key.dev != 0
    ensures Inv(Hit(c, i))
  {
    var d := Hit(c, i);
    LabelsKept(c, d);
    forall j | 0 <= j < |d.bufs| ensures BufOk(d, j) { assert BufOk(c, j); }
    forall k | k in d.pinned ensures exists j :: Cached(d, k, j) { var j :| Cached(c, k, j); assert Cached(d, k, j); }
    forall k | k in d.disk ensures DiskOk(d, k) { SameHolders(c, d, k); assert DiskOk(c, k); }
  }

  lemma {:induction false} SameHolders(c: Cache, d: Cache, k: Key)
    requires |c.bufs| == |d.bufs|
    requires forall j :: 0 <= j < |c.bufs| ==> c.bufs[j].key == d.bufs[j].key && c.bufs[j].locked == d.bufs[j].locked
    ensures Held(c, k) <==> Held(d, k)
  {
    if Held(c, k) { var i :| Cached(c, k, i) && c.bufs[i].locked; assert Cached(d, k, i); }
    if Held(d, k) { var i :| Cached(d, k, i) && d.bufs[i].locked; assert Cached(c, k, i); }
  }

  /** A free buffer can be relabelled: nothing that was released or recorded is lost. */
  lemma {:induction false} RecycleInv(c: Cache, i: nat, k: Key)
    requires Inv(c) && i < |c.bufs| && c.bufs[i].refcnt == 0
    requires k.dev != 0 && k in c.disk && forall j :: !Cached(c, k, j)
    ensures Inv(Recycle(c, i, k))
    ensures c.bufs[i].key !in c.pinned
  {
    var d := Recycle(c, i, k);
    assert BufOk(c, i);
    assert k !in c.pinned;
    forall j | 0 <= j < |d.bufs| ensures BufOk(d, j) { assert BufOk(c, j); }
    forall a, b | 0 <= a < |d.bufs| && 0 <= b < |d.bufs| ensures Differ(d, a, b) {
      assert Differ(c, a, b) && !Cached(c, k, a) && !Cached(c, k, b);
    }
    forall q | q in d.pinned ensures exists j :: Cached(d, q, j) {
      var j :| Cached(c, q, j);
      assert BufOk(c, j);
      assert Cached(d, q, j);
    }
    forall q | q in d.disk ensures DiskOk(d, q) {
      assert DiskOk(c, q);
      if Held(c, q) {
        var j :| Cached(c, q, j) && c.bufs[j].locked;
        assert BufOk(c, j);
        assert Cached(d, q, j) && d.bufs[j].locked;
      }
    }
  }

  /** bread returns the latest released contents, whether cached or read from disk. */
  lemma {:induction false} AcquireInv(c: Cache, i: nat)
    requires Inv(c) && i < |c.bufs| && c.bufs[i].key.dev != 0 && c.users[i] > 0 && !c.bufs[i].locked
    ensures c.bufs[i].key in c.disk && c.bufs[i].key in c.latest
    ensures Inv(Acquired(c, i))
    ensures Acquired(c, i).bufs[i].data == c.latest[c.bufs[i].key]
  {
    assert BufOk(c, i);
    var d, k := Acquired(c, i), c.bufs[i].key;
    assert DiskOk(c, k);
    LabelsKept(c, d);
    forall j | Cached(c, k, j) ensures j == i { assert Differ(c, i, j); }
    assert !Held(c, k);
    forall j | 0 <= j < |d.bufs| ensures BufOk(d, j) { assert BufOk(c, j); }
    forall q | q in d.pinned ensures exists j :: Cached(d, q, j) { var j :| Cached(c, q, j); assert Cached(d, q, j); }
    forall q | q in d.disk ensures DiskOk(d, q) {
      assert DiskOk(c, q);
      if Held(c, q) { var j :| Cached(c, q, j) && c.bufs[j].locked; assert Cached(d, q, j) && d.bufs[j].locked; }
    }
  }

  /** The holder's changes touch no other block and nothing that was released. */
  lemma {:induction false} HolderInv(c: Cache, i: nat, data: Data)
    requires Inv(c) && i < |c.bufs| && c.bufs[i].locked
    ensures Inv(Modify(c, i, data)) && Inv(Written(c, i))
  {
    var d, e := Modify(c, i, data), Written(c, i);
    assert BufOk(c, i);
    assert Cached(c, c.bufs[i].key, i);
    assert DiskOk(c, c.bufs[i].key);
    LabelsKept(c, d);
    LabelsKept(c, e);
    forall j | 0 <= j < |d.bufs| ensures BufOk(d, j) && BufOk(e, j) { assert BufOk(c, j); }
    forall q | q in d.pinned ensures (exists j :: Cached(d, q, j)) && (exists j :: Cached(e, q, j)) {
      var j :| Cached(c, q, j);
      assert Cached(d, q, j) && Cached(e, q, j);
    }
    forall q | q in d.disk ensures DiskOk(d, q) && DiskOk(e, q) {
      assert DiskOk(c, q);
      SameHolders(c, d, q);
      SameHolders(c, e, q);
    }
    assert e.disk.Keys == e.latest.Keys;
  }

  /** What log_write and install_trans see to before they pin, unpin or release a buffer. */
  ghost predicate Clean(c: Cache, i: nat)
    requires i < |c.bufs|
  {
    c.bufs[i].key in c.disk && c.bufs[i].data == c.disk[c.bufs[i].key]
  }

  ghost predicate CanPin(c: Cache, i: nat)
    requires i < |c.bufs|
  {
    c.bufs[i].valid && c.bufs[i].key.dev != 0 && c.bufs[i].key !in c.pinned
  }

  ghost predicate CanUnpin(c: Cache, i: nat)
    requires i < |c.bufs|
  {
    c.bufs[i].key in c.pinned && (c.bufs[i].locked || Clean(c, i))
  }

  ghost predicate CanRelease(c: Cache, i: nat)
    requires i < |c.bufs|
  {
    c.bufs[i].key in c.pinned || Clean(c, i)
  }

  /** bpin keeps the invariant exactly if the buffer holds a block that is not pinned yet. */
  lemma {:induction false} PinExact(c: Cache, i: nat)
    requires Inv(c) && i < |c.bufs|
    ensures Inv(Pinned(c, i)) <==> CanPin(c, i)
  {
    if CanPin(c, i) { Relabelled(c, Pinned(c, i), i); }
    if Inv(Pinned(c, i)) { PinNeeds(c, i); }
  }

  lemma {:induction false} PinNeeds(c: Cache, i: nat)
    requires Inv(c) && i < |c.bufs| && Inv(Pinned(c, i))
    ensures CanPin(c, i)
  {
    assert BufOk(c, i) && BufOk(Pinned(c, i), i);
    assert c.bufs[i].key in Pinned(c, i).pinned;
  }

  /** bunpin keeps it exactly if the block is pinned, and held or safe on disk. */
  lemma {:induction false} UnpinExact(c: Cache, i: nat)
    requires Inv(c) && i < |c.bufs| && c.bufs[i].refcnt > 0
    ensures Inv(Unpinned(c, i)) <==> CanUnpin(c, i)
  {
    if CanUnpin(c, i) { Relabelled(c, Unpinned(c, i), i); }
    if Inv(Unpinned(c, i)) { UnpinNeeds(c, i); }
  }

  lemma {:induction false} UnpinNeeds(c: Cache, i: nat)
    requires Inv(c) && i < |c.bufs| && c.bufs[i].refcnt > 0 && Inv(Unpinned(c, i))
    ensures CanUnpin(c, i)
  {
    var d, k := Unpinned(c, i), c.bufs[i].key;
    assert BufOk(c, i) && BufOk(d, i);
    assert DiskOk(d, k);
    if Held(d, k) { var j :| Cached(d, k, j) && d.bufs[j].locked; assert Differ(c, i, j); }
  }

  /** Pinning and unpinning: all other buffers and blocks are as before. */
  lemma {:induction false} Relabelled(c: Cache, d: Cache, i: nat)
    requires Inv(c) && i < |c.bufs|
    requires (CanPin(c, i) && d == Pinned(c, i)) || (CanUnpin(c, i) && c.bufs[i].refcnt > 0 && d == Unpinned(c, i))
    ensures Inv(d)
  {
    assert BufOk(c, i);
    assert Cached(d, c.bufs[i].key, i);
    LabelsKept(c, d);
    forall j | 0 <= j < |d.bufs| ensures BufOk(d, j) { assert BufOk(c, j) && Differ(c, i, j); }
    forall q | q in d.pinned ensures q.dev != 0 && exists j :: Cached(d, q, j) {
      if q != c.bufs[i].key { var j :| Cached(c, q, j); assert Cached(d, q, j); }
    }
    forall q | q in d.disk ensures DiskOk(d, q) {
      assert DiskOk(c, q);
      SameHolders(c, d, q);
      if q == c.bufs[i].key && d.bufs[i].locked { assert Cached(d, q, i); }
    }
  }

  /** A buffer may be released when it was written to disk or is pinned by the log. */
  lemma {:induction false} BrelseInv(c: Cache, i: nat, p: nat)
    requires Inv(c) && i < |c.bufs| && c.bufs[i].locked && p < |c.order| && c.order[p] == i && CanRelease(c, i)
    ensures c.bufs[i].refcnt > 0 && c.users[i] > 0 && Inv(Released(c, i, p))
    ensures Released(c, i, p).latest == c.latest[c.bufs[i].key := c.bufs[i].data]
  {
    assert BufOk(c, i);
    var d, k := Released(c, i, p), c.bufs[i].key;
    assert DiskOk(c, k);
    LabelsKept(c, d);
    forall j | 0 <= j < |d.bufs| ensures BufOk(d, j) { assert BufOk(c, j) && Differ(c, i, j); }
    forall q | q in d.pinned ensures exists j :: Cached(d, q, j) { var j :| Cached(c, q, j); assert Cached(d, q, j); }
    forall q | q in d.disk ensures DiskOk(d, q) {
      assert DiskOk(c, q);
      if q != k && Held(c, q) {
        var j :| Cached(c, q, j) && c.bufs[j].locked;
        assert Cached(d, q, j) && d.bufs[j].locked;
      }
    }
    assert d.disk.Keys == d.latest.Keys;
    FrontMembers(|c.bufs|, c.order, p);
  }

  /** And only then: otherwise the last release is neither on disk nor kept for the log. */
  lemma {:induction false} BrelseExact(c: Cache, i: nat, p: nat)
    requires Inv(c) && i < |c.bufs| && c.bufs[i].locked && p < |c.order| && c.order[p] == i
    ensures c.bufs[i].refcnt > 0 && c.users[i] > 0
    ensures Inv(Released(c, i, p)) <==> CanRelease(c, i)
  {
    assert BufOk(c, i);
    if CanRelease(c, i) { BrelseInv(c, i, p); }
    if Inv(Released(c, i, p)) { ReleaseNeeds(c, i, p); }
  }

  lemma {:induction false} ReleaseNeeds(c: Cache, i: nat, p: nat)
    requires Inv(c) && i < |c.bufs| && c.bufs[i].locked && p < |c.order| && c.bufs[i].refcnt > 0 && c.users[i] > 0
    requires Inv(Released(c, i, p))
    ensures CanRelease(c, i)
  {
    var d, k := Released(c, i, p), c.bufs[i].key;
    assert BufOk(c, i) && DiskOk(d, k);
    forall j | Cached(d, k, j) ensures !d.bufs[j].locked { assert Differ(c, i, j); }
  }

  lemma {:induction false} FrontMembers(n: nat, order: seq<nat>, p: nat)
    requires Members(n, order) && p < |order|
    ensures Members(n, [order[p]] + Without(order, p))
  {
  }

  /** A pinned block stays cached: bget finds it, and never recycles its buffer. */
  lemma {:induction false} PinnedStays(c: Cache, k: Key)
    requires Inv(c) && k in c.pinned
    ensures exists i :: Cached(c, k, i) && c.bufs[i].valid && c.bufs[i].refcnt >= 1
  {
    var i :| Cached(c, k, i);
    assert BufOk(c, i);
  }

  // ----- runs ------------------------------------------------------------------------------------

  datatype Op =
    | Get(k: Key, at: nat) | Take(i: nat) | Change(i: nat, data: Data) | Store(i: nat)
    | Pin(i: nat) | Unpin(i: nat) | Release(i: nat, p: nat)

  /** d follows c by one atomic step of some process that uses the interface as documented. */
  ghost predicate Next(c: Cache, op: Op, d: Cache) {
    |c.bufs| == |c.users| &&
    match op
    case Get(k, i) =>
      && k.dev != 0 && k in c.disk && i < |c.bufs|
      && (if exists j :: Cached(c, k, j) then Cached(c, k, i) && d == Hit(c, i)
          else c.bufs[i].refcnt == 0 && d == Recycle(c, i, k))
    case Take(i) =>
      && i < |c.bufs| && c.bufs[i].key.dev != 0 && c.bufs[i].key in c.disk
      && c.users[i] > 0 && !c.bufs[i].locked && d == Acquired(c, i)
    case Change(i, data) => i < |c.bufs| && c.bufs[i].locked && d == Modify(c, i, data)
    case Store(i) => i < |c.bufs| && c.bufs[i].locked && d == Written(c, i)
    case Pin(i) => i < |c.bufs| && c.bufs[i].locked && c.bufs[i].key !in c.pinned && d == Pinned(c, i)
    case Unpin(i) =>
      && i < |c.bufs| && c.bufs[i].locked && c.bufs[i].refcnt > 0 && c.bufs[i].key in c.pinned
      && c.bufs[i].key in c.disk && c.bufs[i].data == c.disk[c.bufs[i].key] && d == Unpinned(c, i)
    case Release(i, p) =>
      && i < |c.bufs| && c.bufs[i].locked && p < |c.order| && c.order[p] == i
      && c.bufs[i].refcnt > 0 && c.users[i] > 0
      && (c.bufs[i].key in c.pinned || (c.bufs[i].key in c.disk && c.bufs[i].data == c.disk[c.bufs[i].key]))
      && d == Released(c, i, p)
  }

  lemma {:induction false} NextKeepsInv(c: Cache, op: Op, d: Cache)
    requires Inv(c) && Next(c, op, d)
    ensures Inv(d)
  {
    match op
    case Get(k, i) =>
      if exists j :: Cached(c, k, j) { HitInv(c, i); } else { RecycleInv(c, i, k); }
    case Take(i) => AcquireInv(c, i);
    case Change(i, data) => HolderInv(c, i, data);
    case Store(i) => HolderInv(c, i, []);
    case Pin(i) => assert BufOk(c, i); PinExact(c, i);
    case Unpin(i) => UnpinExact(c, i);
    case Release(i, p) => BrelseInv(c, i, p);
  }

  ghost predicate Run(cs: seq<Cache>, ops: seq<Op>) {
    |cs| == |ops| + 1 && forall j :: 0 <= j < |ops| ==> Next(cs[j], ops[j], cs[j + 1])
  }

  /** In every state of every run that starts after binit, the invariant holds. */
  lemma {:induction false} RunKeepsInv(cs: seq<Cache>, ops: seq<Op>, j: nat)
    requires Run(cs, ops) && Initial(cs[0]) && j < |cs|
    ensures Inv(cs[j])
  {
    if j == 0 {
      InitialInv(cs[0]);
    } else {
      RunKeepsInv(cs, ops, j - 1);
      assert Next(cs[j - 1], ops[j - 1], cs[j]);
      NextKeepsInv(cs[j - 1], ops[j - 1], cs[j]);
    }
  }

  // ----- what a reader sees --------------------------------------------------------------------------

  /** bwrite puts the held buffer's contents on disk, touches no other block, and makes the buffer releasable. */
  lemma {:induction false} StoreIsClean(c: Cache, i: nat, d: Cache)
    requires Inv(c) && Next(c, Store(i), d)
    ensures d.bufs == c.bufs && c.bufs[i].key in d.disk && d.disk[c.bufs[i].key] == c.bufs[i].data && CanRelease(d, i)
    ensures forall k :: k in c.disk && k != c.bufs[i].key ==> k in d.disk && d.disk[k] == c.disk[k]
  {
  }

  lemma {:induction false} GetIs(c: Cache, k: Key, i: nat, d: Cache)
    requires Inv(c) && Next(c, Get(k, i), d)
    ensures i < |c.bufs|
    ensures c.bufs[i].key == k ==> d.bufs == c.bufs[i := c.bufs[i].(refcnt := c.bufs[i].refcnt + 1)]
    ensures c.bufs[i].key != k ==> d.bufs == c.bufs[i := Buf(k, false, 1, c.bufs[i].locked, c.bufs[i].data)]
  {
    if c.bufs[i].key == k { assert Cached(c, k, i); }
  }

  lemma {:induction false} ReleaseIs(c: Cache, i: nat, p: nat)
    requires i < |c.bufs| == |c.users| && c.bufs[i].refcnt > 0 && c.users[i] > 0 && p < |c.order|
    ensures var d := Released(c, i, p);
            && d.bufs == c.bufs[i := c.bufs[i].(locked := false, refcnt := c.bufs[i].refcnt - 1)]
            && d.latest == c.latest[d.bufs[i].key := d.bufs[i].data]
            && d.order == if d.bufs[i].refcnt == 0 then [i] + c.order[..p] + c.order[p + 1..] else c.order
  {
    assert [i] + (c.order[..p] + c.order[p + 1..]) == [i] + c.order[..p] + c.order[p + 1..];
  }

  /** The last reference released makes the buffer the most recent; the others keep their order. */
  lemma {:induction false} ReleaseIsMostRecent(c: Cache, i: nat, p: nat, d: Cache)
    requires Next(c, Release(i, p), d) && c.bufs[i].refcnt == 1
    ensures |d.order| == |c.order| && d.order[0] == i
    ensures forall m :: 0 <= m < |c.order| && m != p ==> d.order[if m < p then m + 1 else m] == c.order[m]
  {
  }

  /** Step m releases a buffer of block k. */
  ghost predicate ReleasesAt(cs: seq<Cache>, ops: seq<Op>, m: nat, k: Key) {
    m < |ops| && m < |cs| && ops[m].Release? && ops[m].i < |cs[m].bufs| && cs[m].bufs[ops[m].i].key == k
  }

  /** No step from m to j - 1 releases a buffer of block k. */
  ghost predicate NoneReleased(cs: seq<Cache>, ops: seq<Op>, m: nat, j: nat, k: Key) {
    forall l: nat :: m <= l < j ==> !ReleasesAt(cs, ops, l, k)
  }

  /** Before step j, `data` is what block k was last released with, or what the disk held at boot. */
  ghost predicate LastContents(cs: seq<Cache>, ops: seq<Op>, j: nat, k: Key, data: Data) {
    || (exists m: nat :: m < j && ReleasesAt(cs, ops, m, k) && NoneReleased(cs, ops, m + 1, j, k)
                         && data == cs[m].bufs[ops[m].i].data)
    || (NoneReleased(cs, ops, 0, j, k) && |cs| > 0 && k in cs[0].disk && data == cs[0].disk[k])
  }

  lemma {:induction false} LatestIsLast(cs: seq<Cache>, ops: seq<Op>, j: nat, k: Key)
    requires Run(cs, ops) && Initial(cs[0]) && j < |cs| && k in cs[0].disk
    ensures k in cs[j].latest && LastContents(cs, ops, j, k, cs[j].latest[k])
  {
    if j > 0 {
      LatestIsLast(cs, ops, j - 1, k);
      assert Next(cs[j - 1], ops[j - 1], cs[j]);
      OneMoreStep(cs, ops, j, k);
    }
  }

  lemma {:induction false} SameBlocks(cs: seq<Cache>, ops: seq<Op>, j: nat)
    requires Run(cs, ops) && Initial(cs[0]) && j < |cs|
    ensures cs[j].disk.Keys == cs[0].disk.Keys
  {
    if j > 0 {
      SameBlocks(cs, ops, j - 1);
      RunKeepsInv(cs, ops, j - 1);
      assert Next(cs[j - 1], ops[j - 1], cs[j]);
      if ops[j - 1].Store? { assert BufOk(cs[j - 1], ops[j - 1].i); }
    }
  }

  lemma {:induction false} OneMoreStep(cs: seq<Cache>, ops: seq<Op>, j: nat, k: Key)
    requires Run(cs, ops) && 0 < j < |cs| && Next(cs[j - 1], ops[j - 1], cs[j])
    requires k in cs[j - 1].latest && LastContents(cs, ops, j - 1, k, cs[j - 1].latest[k])
    ensures k in cs[j].latest && LastContents(cs, ops, j, k, cs[j].latest[k])
  {
    if ReleasesAt(cs, ops, j - 1, k) {
      assert NoneReleased(cs, ops, j, j, k);
    } else {
      assert cs[j].latest[k] == cs[j - 1].latest[k];
      if NoneReleased(cs, ops, 0, j - 1, k) {
        assert NoneReleased(cs, ops, 0, j, k);
      } else {
        var m: nat :| m < j - 1 && ReleasesAt(cs, ops, m, k) && NoneReleased(cs, ops, m + 1, j - 1, k)
                      && cs[j - 1].latest[k] == cs[m].bufs[ops[m].i].data;
        assert NoneReleased(cs, ops, m + 1, j, k);
      }
    }
  }

  /**
   * Over every run of every number of processes, bread returns what the last brelse of the block released,
   * wherever it comes from: the same buffer, or the disk after the buffer was recycled.
   */
  lemma {:induction false} ReadsLastReleased(cs: seq<Cache>, ops: seq<Op>, j: nat, i: nat)
    requires Run(cs, ops) && Initial(cs[0]) && j < |ops| && ops[j] == Take(i)
    ensures i < |cs[j].bufs| && i < |cs[j + 1].bufs|
    ensures cs[j + 1].bufs[i].locked && cs[j + 1].bufs[i].key == cs[j].bufs[i].key
    ensures LastContents(cs, ops, j, cs[j].bufs[i].key, cs[j + 1].bufs[i].data)
  {
    RunKeepsInv(cs, ops, j);
    assert Next(cs[j], ops[j], cs[j + 1]);
    AcquireInv(cs[j], i);
    SameBlocks(cs, ops, j);
    LatestIsLast(cs, ops, j, cs[j].bufs[i].key);
  }

  // ----- the code -----------------------------------------------------------------------------------

  class Bcache {
    const nbuf: nat
    const next: array<nat>
    const prev: array<nat>
    var bufs: seq<Buf>
    var disk: map<Key, Data>
    ghost var order: seq<nat>
    ghost var users: seq<nat>
    ghost var pinned: set<Key>
    ghost var latest: map<Key, Data>

    ghost function View(): Cache
      reads this
    {
      Cache(bufs, order, disk, users, pinned, latest)
    }

    ghost predicate Linked()
      reads this, next, prev
    {
      next != prev && |bufs| == nbuf && Ring(next[..], prev[..], nbuf, order)
    }

    ghost predicate Valid()
      reads this, next, prev
    {
      Linked() && Inv(View())
    }

    /** binit: push every buffer to the front of an empty ring. */
    constructor (nbuf: nat, disk: map<Key, Data>)
      ensures Valid() && Initial(View()) && this.nbuf == nbuf && this.disk == disk
      ensures fresh(next) && fresh(prev)
    {
      this.nbuf := nbuf;
      next := new nat[nbuf + 1](_ => nbuf);
      prev := new nat[nbuf + 1](_ => nbuf);
      bufs := seq(nbuf, _ => Buf(Key(0, 0), false, 0, false, []));
      users := seq(nbuf, _ => 0);
      this.disk, latest, pinned, order := disk, disk, {}, [];
      new;
      assert LinkOk(next[..], prev[..], nbuf, order, 0);
      var b := 0;
      while b < nbuf
        invariant 0 <= b <= nbuf && |order| == b && (forall j :: 0 <= j < b ==> order[j] < b)
        invariant Ring(next[..], prev[..], nbuf, order) && this.disk == disk && latest == disk && pinned == {}
        invariant bufs == seq(nbuf, _ => Buf(Key(0, 0), false, 0, false, [])) && users == seq(nbuf, _ => 0)
      {
        PushFront(next, prev, nbuf, b, order);
        order := [b] + order;
        b := b + 1;
      }
      InitialInv(View());
    }

    /** bget: the buffer that caches block k, or the least recently used free one relabelled; or a panic. */
    method Bget(k: Key) returns (panicked: bool, i: nat)
      requires Valid() && k.dev != 0 && k in disk
      modifies this`bufs, this`users
      ensures Valid()
      ensures panicked <==> !(exists j :: Cached(old(View()), k, j))
                            && forall j :: 0 <= j < nbuf ==> old(bufs)[j].refcnt > 0
      ensures panicked ==> View() == old(View())
      ensures !panicked ==> Next(old(View()), Get(k, i), View()) && i < |old(bufs)|
      ensures !panicked && old(bufs)[i].key == k ==>
                bufs == old(bufs)[i := old(bufs)[i].(refcnt := old(bufs)[i].refcnt + 1)]
      ensures !panicked && old(bufs)[i].key != k ==>
                bufs == old(bufs)[i := Buf(k, false, 1, old(bufs)[i].locked, old(bufs)[i].data)]
      ensures !panicked && !(exists j :: Cached(old(View()), k, j)) ==> LeastRecent(old(View()), order, i)
    {
      ghost var c := View();
      i := FindCached(k);
      panicked := false;
      if i != nbuf {
        assert Cached(c, k, i);
        Refer(k, i);
      } else {
        panicked, i := Reclaim(k);
      }
      if !panicked { GetIs(c, k, i, View()); }
    }

    /** The first loop of bget: the buffer of block k, or nbuf. */
    method FindCached(k: Key) returns (i: nat)
      requires Valid()
      ensures i <= nbuf && (i < nbuf ==> bufs[i].key == k) && (i == nbuf ==> forall j :: !Cached(View(), k, j))
    {
      i := next[nbuf];
      assert LinkOk(next[..], prev[..], nbuf, order, 0);
      ghost var j := 0;
      while i != nbuf
        invariant 0 <= j <= nbuf && i == At(nbuf, order, j + 1)
        invariant forall m :: 0 <= m < j ==> bufs[order[m]].key != k
        decreases nbuf - j
      {
        if bufs[i].key == k {
          return i;
        }
        assert LinkOk(next[..], prev[..], nbuf, order, j + 1);
        i, j := next[i], j + 1;
      }
      assert j == nbuf;
      forall m | 0 <= m < nbuf ensures !Cached(View(), k, m) { OnList(nbuf, order, m); }
    }

    /** bget on a cached block: one more reference. */
    method Refer(k: Key, i: nat)
      requires Valid() && k.dev != 0 && k in disk && i < nbuf && bufs[i].key == k
      modifies this`bufs, this`users
      ensures Valid() && View() == Hit(old(View()), i)
    {
      ghost var c := View();
      HitInv(c, i);
      bufs := bufs[i := bufs[i].(refcnt := bufs[i].refcnt + 1)];
      users := users[i := users[i] + 1];
      ghost var d := Hit(c, i);
      assert bufs == d.bufs;
      assert users == d.users;
      assert View() == d;
    }

    /** The second loop of bget. */
    method Reclaim(k: Key) returns (panicked: bool, i: nat)
      requires Valid() && k.dev != 0 && k in disk && forall j :: !Cached(View(), k, j)
      modifies this`bufs, this`users
      ensures Valid()
      ensures panicked <==> forall j :: 0 <= j < nbuf ==> old(bufs)[j].refcnt > 0
      ensures panicked ==> View() == old(View())
      ensures !panicked ==> Next(old(View()), Get(k, i), View()) && LeastRecent(old(View()), order, i)
    {
      i := prev[nbuf];
      assert LinkOk(next[..], prev[..], nbuf, order, nbuf);
      ghost var j := nbuf;
      while i != nbuf
        invariant 0 <= j <= nbuf && i == At(nbuf, order, j)
        invariant forall m :: j <= m < nbuf ==> bufs[order[m]].refcnt > 0
        decreases j
      {
        if bufs[i].refcnt == 0 {
          RecycleInv(View(), i, k);
          assert order[j - 1] == i && InUseFrom(View(), order, j);
          assert LeastRecent(View(), order, i);
          bufs := bufs[i := bufs[i].(key := k, valid := false, refcnt := 1)];
          users := users[i := 1];
          return false, i;
        }
        assert LinkOk(next[..], prev[..], nbuf, order, j - 1);
        i, j := prev[i], j - 1;
      }
      forall m | 0 <= m < nbuf ensures bufs[m].refcnt > 0 { OnList(nbuf, order, m); }
      return true, nbuf;
    }

    /** The rest of bread, once the sleep lock is free: the holder sees the latest released contents. */
    method Acquire(i: nat) returns (data: Data)
      requires Valid() && i < nbuf && bufs[i].key.dev != 0 && users[i] > 0 && !bufs[i].locked
      modifies this`bufs
      ensures Valid() && Next(old(View()), Take(i), View())
      ensures bufs[i].key in latest && data == latest[bufs[i].key] == bufs[i].data
      ensures !old(bufs)[i].valid ==> old(bufs)[i].key in disk && data == disk[old(bufs)[i].key]
      ensures bufs == old(bufs)[i := old(bufs)[i].(locked := true, valid := true, data := data)]
    {
      ghost var c := View();
      AcquireInv(c, i);
      bufs := bufs[i := bufs[i].(locked := true)];
      if !bufs[i].valid {
        bufs := bufs[i := bufs[i].(data := disk[bufs[i].key], valid := true)];
      }
      data := bufs[i].data;
      assert bufs == Acquired(c, i).bufs;
      assert View() == Acquired(c, i);
    }

    /** bwrite of a held buffer. */
    method Bwrite(i: nat)
      requires Valid() && i < nbuf && bufs[i].locked
      modifies this`disk
      ensures Valid() && Next(old(View()), Store(i), View())
      ensures disk == old(disk)[bufs[i].key := bufs[i].data] && CanRelease(View(), i)
    {
      HolderInv(View(), i, []);
      disk := disk[bufs[i].key := bufs[i].data];
    }

    /** The list surgery of brelse. */
    method MoveToFront(i: nat, ghost p: nat)
      requires next != prev && Ring(next[..], prev[..], nbuf, order) && p < |order| && order[p] == i
      modifies this`order, next, prev
      ensures Ring(next[..], prev[..], nbuf, order) && order == [i] + Without(old(order), p)
    {
      Unlink(next, prev, nbuf, i, order, p);
      order := Without(order, p);
      PushFront(next, prev, nbuf, i, order);
      order := [i] + order;
    }

    /**
     * brelse: panics on a buffer that is not held; a buffer that no one refers to any more becomes the most
     * recent. The invariant survives exactly if the block was written or is pinned.
     */
    method Brelse(i: nat) returns (panicked: bool, ghost p: nat)
      requires Valid() && i < nbuf
      modifies this`bufs, this`users, this`latest, this`order, next, prev
      ensures panicked <==> !old(bufs)[i].locked
      ensures panicked ==> View() == old(View()) && Valid()
      ensures !panicked ==>
                && p < |old(order)| && old(order)[p] == i && old(bufs)[i].refcnt > 0 && old(users)[i] > 0
                && View() == Released(old(View()), i, p) && (Valid() <==> old(CanRelease(View(), i)))
                && bufs == old(bufs)[i := old(bufs)[i].(locked := false, refcnt := old(bufs)[i].refcnt - 1)]
                && latest == old(latest)[bufs[i].key := bufs[i].data]
                && order == if bufs[i].refcnt == 0 then [i] + old(order)[..p] + old(order)[p + 1..] else old(order)
    {
      p := 0;
      panicked := !bufs[i].locked;
      if !panicked {
        ghost var c := View();
        OnList(nbuf, order, i);
        p :| 0 <= p < |order| && order[p] == i;
        BrelseExact(c, i, p);
        ReleaseIs(c, i, p);
        DropHeld(i, p);
      }
    }

    /** brelse of the held buffer i, at place p of the list. */
    method DropHeld(i: nat, ghost p: nat)
      requires Linked() && i < nbuf == |users| && bufs[i].refcnt > 0 && users[i] > 0 && p < |order| && order[p] == i
      modifies this`bufs, this`users, this`latest, this`order, next, prev
      ensures Linked() && View() == Released(old(View()), i, p)
    {
      ghost var c := View();
      LetGo(i);
      if bufs[i].refcnt == 0 {
        MoveToFront(i, p);
      }
      ghost var d := Released(c, i, p);
      assert order == d.order;
      assert View() == d;
    }

    /** Unlock the buffer and drop one reference. */
    method LetGo(i: nat)
      requires i < |bufs| == |users| && bufs[i].refcnt > 0 && users[i] > 0
      modifies this`bufs, this`users, this`latest
      ensures bufs == old(bufs)[i := old(bufs)[i].(locked := false, refcnt := old(bufs)[i].refcnt - 1)]
      ensures users == old(users)[i := old(users)[i] - 1]
      ensures latest == old(latest)[old(bufs)[i].key := old(bufs)[i].data]
    {
      latest := latest[bufs[i].key := bufs[i].data];
      bufs := bufs[i := bufs[i].(locked := false, refcnt := bufs[i].refcnt - 1)];
      users := users[i := users[i] - 1];
    }

    /** bpin: the invariant survives exactly if the buffer holds a block that is not pinned yet. */
    method Bpin(i: nat)
      requires Valid() && i < nbuf
      modifies this`bufs, this`pinned
      ensures bufs == old(bufs)[i := old(bufs)[i].(refcnt := old(bufs)[i].refcnt + 1)]
      ensures pinned == old(pinned) + {bufs[i].key}
      ensures View() == Pinned(old(View()), i) && (Valid() <==> old(CanPin(View(), i)))
    {
      PinExact(View(), i);
      pinned := pinned + {bufs[i].key};
      bufs := bufs[i := bufs[i].(refcnt := bufs[i].refcnt + 1)];
    }

    /** bunpin of a buffer in use: the invariant survives exactly if its block is pinned, and held or on disk. */
    method Bunpin(i: nat)
      requires Valid() && i < nbuf && bufs[i].refcnt > 0
      modifies this`bufs, this`pinned
      ensures bufs == old(bufs)[i := old(bufs)[i].(refcnt := old(bufs)[i].refcnt - 1)]
      ensures pinned == old(pinned) - {bufs[i].key}
      ensures View() == Unpinned(old(View()), i) && (Valid() <==> old(CanUnpin(View(), i)))
    {
      UnpinExact(View(), i);
      pinned := pinned - {bufs[i].key};
      bufs := bufs[i := bufs[i].(refcnt := bufs[i].refcnt - 1)];
    }
  }
}
