/**
 * The driver and device sides of kernel/virtio_disk.c as atomic steps over one split queue
 * (sections 2.6 and 5.2 of VirtIO 1.1), and what every interleaving of them keeps.
 */
module VirtioQueue {

  /** Descriptors in the queue, and the size of both rings. */
  const NUM: nat := 8
  /** The ring indices are 16 bits wide. */
  const WRAP: nat := 65536
  const BSIZE: nat := 1024

  /** What a descriptor can point to: a command header, the data of a buffer, a status byte. */
  datatype Addr = Null | Command(i: nat) | Data(buf: nat) | Status(i: nat)
  /** VRING_DESC_F_NEXT and VRING_DESC_F_WRITE are `more` and `write`. */
  datatype Desc = Desc(addr: Addr, len: nat, more: bool, write: bool, next: nat)
  datatype Info = Info(b: nat, status: nat)
  datatype Cmd = Cmd(write: bool, sector: nat)

  /**
   * The struct disk, the shared rings, the device's place in the avail ring (availSeen), the set of buffers
   * with b->disk == 1, and the contents of buffers and sectors.
   */
  datatype State = State(
    free: seq<bool>, desc: seq<Desc>,
    availRing: seq<nat>, availIdx: nat, availSeen: nat,
    usedRing: seq<nat>, usedIdx: nat, seenIdx: nat,
    info: seq<Info>, ops: seq<Cmd>,
    busy: set<nat>, data: map<nat, nat>, disk: map<nat, nat>)

  const NO_DESC := Desc(Null, 0, false, false, 0)

  function Look(m: map<nat, nat>, k: nat): nat { if k in m then m[k] else 0 }

  // ----- who has what ------------------------------------------------------------------------------

  /** A request: its chain is its head, i1 and i2. */
  datatype Req = Req(i1: nat, i2: nat, buf: nat, write: bool, sector: nat)

  /**
   * The requests in flight by head: waiting in the avail ring, in the device's hands, waiting in the used
   * ring, or acknowledged by the interrupt handler and not yet cleaned up by the waiting process. For a
   * finished request, moved is the contents that went from its buffer to its sector or back.
   */
  datatype Flight = Flight(
    reqs: map<nat, Req>, pend: seq<nat>, out: set<nat>, done: seq<nat>, acked: set<nat>, moved: map<nat, nat>)

  ghost predicate Sizes(s: State) {
    && |s.free| == NUM && |s.desc| == NUM && |s.availRing| == NUM && |s.usedRing| == NUM && |s.info| == NUM
    && |s.ops| == NUM
    && s.availIdx < WRAP && s.availSeen < WRAP && s.usedIdx < WRAP && s.seenIdx < WRAP
  }

  /** The chain of request r with head h is formatted, belongs to nobody else, and its buffer is recorded. */
  ghost predicate ReqOk(s: State, f: Flight, h: nat)
    requires Sizes(s)
  {
    h in f.reqs ==>
      var r := f.reqs[h];
      && h < NUM && r.i1 < NUM && r.i2 < NUM && h != r.i1 && h != r.i2 && r.i1 != r.i2
      && !s.free[h] && !s.free[r.i1] && !s.free[r.i2]
      && s.desc[h] == Desc(Command(h), 16, true, false, r.i1)
      && s.desc[r.i1] == Desc(Data(r.buf), BSIZE, true, !r.write, r.i2)
      && s.desc[r.i2] == Desc(Status(h), 1, false, true, 0)
      && s.ops[h] == Cmd(r.write, r.sector)
      && s.info[h].b == r.buf && r.buf != 0
      && (r.buf in s.busy <==> h !in f.acked)
      && (h in f.done || h in f.acked ==> s.info[h].status == 0 && h in f.moved && Look(s.data, r.buf) == f.moved[h])
  }

  ghost function Chain(f: Flight, h: nat): set<nat>
    requires h in f.reqs
  {
    {h, f.reqs[h].i1, f.reqs[h].i2}
  }

  /** Two requests share no descriptor and no buffer. */
  ghost predicate Separate(f: Flight, h: nat, g: nat) {
    h in f.reqs && g in f.reqs && h != g ==> Chain(f, h) !! Chain(f, g) && f.reqs[h].buf != f.reqs[g].buf
  }

  /** A request is in exactly one stage. */
  ghost predicate Staged(f: Flight, h: nat) {
    h in f.reqs <==>
      || (h in f.pend && h !in f.out && h !in f.done && h !in f.acked)
      || (h !in f.pend && h in f.out && h !in f.done && h !in f.acked)
      || (h !in f.pend && h !in f.out && h in f.done && h !in f.acked)
      || (h !in f.pend && h !in f.out && h !in f.done && h in f.acked)
  }

  ghost predicate InFlight(f: Flight, h: nat) {
    h in f.pend || h in f.out || h in f.done || h in f.acked ==> h in f.reqs
  }

  ghost predicate Distinct(q: seq<nat>) {
    forall i: nat, j: nat :: i < j < |q| ==> q[i] != q[j]
  }

  /** Slot of the j-th entry after index from, as the code computes it from a 16-bit index. */
  function Slot(from: nat, j: nat): (k: nat)
    ensures k < NUM
  {
    (from + j) % WRAP % NUM
  }

  /** The ring holds exactly the queue q between the two indices. */
  ghost predicate RingHolds(ring: seq<nat>, from: nat, to: nat, q: seq<nat>)
    requires |ring| == NUM
  {
    to == (from + |q|) % WRAP && forall j: nat :: j < |q| ==> ring[Slot(from, j)] == q[j]
  }

  function FreeCount(free: seq<bool>): nat {
    if free == [] then 0 else FreeCount(free[..|free| - 1]) + if free[|free| - 1] then 1 else 0
  }

  /** A free descriptor is blank. */
  ghost predicate Blank(s: State, i: nat)
    requires Sizes(s)
  {
    i < NUM && s.free[i] ==> s.desc[i] == NO_DESC
  }

  ghost predicate Inv(s: State, f: Flight) {
    && Sizes(s) && (forall i: nat :: Blank(s, i))
    && (forall h: nat :: ReqOk(s, f, h))
    && (forall h: nat, g: nat :: Separate(f, h, g))
    && (forall h: nat :: Staged(f, h)) && (forall h: nat :: InFlight(f, h))
    && Distinct(f.pend) && Distinct(f.done)
    && RingHolds(s.availRing, s.availSeen, s.availIdx, f.pend)
    && RingHolds(s.usedRing, s.seenIdx, s.usedIdx, f.done)
    && |f.pend| + |f.out| + |f.done| + |f.acked| == |f.reqs|
    && FreeCount(s.free) + 3 * |f.reqs| == NUM
  }

  // ----- the steps ---------------------------------------------------------------------------------------

  /** The first half of virtio_disk_rw, up to the sleep, with three free descriptors. */
  ghost function Submitted(s: State, b: nat, write: bool, sector: nat, i0: nat, i1: nat, i2: nat): State
    requires Sizes(s) && i0 < NUM && i1 < NUM && i2 < NUM
  {
    s.(free := s.free[i0 := false][i1 := false][i2 := false],
       ops := s.ops[i0 := Cmd(write, sector)],
       desc := s.desc[i0 := Desc(Command(i0), 16, true, false, i1)][i1 := Desc(Data(b), BSIZE, true, !write, i2)]
                     [i2 := Desc(Status(i0), 1, false, true, 0)],
       info := s.info[i0 := Info(b, 0xff)],
       busy := s.busy + {b},
       availRing := s.availRing[s.availIdx % NUM := i0],
       availIdx := (s.availIdx + 1) % WRAP)
  }

  /** The device takes the next entry of the avail ring. */
  ghost function Fetched(s: State): State
    requires Sizes(s)
  {
    s.(availSeen := (s.availSeen + 1) % WRAP)
  }

  /** The device carries out the command of the chain at h, as its descriptors say, and reports it. */
  ghost function Completed(s: State, h: nat): State
    requires Sizes(s) && h < NUM
  {
    var d0 := s.desc[h];
    if d0.next >= NUM || !d0.addr.Command? || d0.addr.i >= NUM then s else
    var c, d1 := s.ops[d0.addr.i], s.desc[d0.next];
    if d1.next >= NUM || !d1.addr.Data? || !d0.more || !d1.more then s else
    var d2 := s.desc[d1.next];
    if !d2.addr.Status? || d2.addr.i >= NUM || d1.write == c.write then s else
    s.(disk := if c.write then s.disk[c.sector := Look(s.data, d1.addr.buf)] else s.disk,
       data := if c.write then s.data else s.data[d1.addr.buf := Look(s.disk, c.sector)],
       info := s.info[d2.addr.i := Info(s.info[d2.addr.i].b, 0)],
       usedRing := s.usedRing[s.usedIdx % NUM := h],
       usedIdx := (s.usedIdx + 1) % WRAP)
  }

  /** One turn of the loop of virtio_disk_intr. */
  ghost function Acked(s: State): State
    requires Sizes(s)
  {
    var id := s.usedRing[s.seenIdx % NUM];
    if id >= NUM then s else
    s.(busy := s.busy - {s.info[id].b}, seenIdx := (s.seenIdx + 1) % WRAP)
  }

  /** The rest of virtio_disk_rw, once b->disk is 0. */
  ghost function Finished(s: State, i0: nat, i1: nat, i2: nat): State
    requires Sizes(s) && i0 < NUM && i1 < NUM && i2 < NUM
  {
    s.(info := s.info[i0 := Info(0, s.info[i0].status)],
       desc := s.desc[i0 := NO_DESC][i1 := NO_DESC][i2 := NO_DESC],
       free := s.free[i0 := true][i1 := true][i2 := true])
  }

  // ----- counting --------------------------------------------------------------------------------------

  lemma {:induction false} FreeCountSet(free: seq<bool>, i: nat, v: bool)
    requires i < |free|
    ensures FreeCount(free[i := v]) == FreeCount(free) + (if v then 1 else 0) - (if free[i] then 1 else 0)
  {
    var n := |free| - 1;
    if i < n {
      FreeCountSet(free[..n], i, v);
      assert free[i := v][..n] == free[..n][i := v];
    } else {
      assert free[i := v][..n] == free[..n];
    }
  }

  lemma {:induction false} FreeCountThree(free: seq<bool>, i: nat, j: nat, k: nat, v: bool)
    requires i < |free| && j < |free| && k < |free| && i != j && i != k && j != k
    requires free[i] == !v && free[j] == !v && free[k] == !v
    ensures FreeCount(free[i := v][j := v][k := v]) == FreeCount(free) + if v then 3 else -3
  {
    FreeCountSet(free, i, v);
    FreeCountSet(free[i := v], j, v);
    FreeCountSet(free[i := v][j := v], k, v);
  }

  // ----- the rings ------------------------------------------------------------------------------------------

  lemma {:induction false} SameSlot(a: nat, b: nat, m: nat)
    requires a == b + NUM * m
    ensures a % NUM == b % NUM
  {
  }

  /** The 16-bit wrap does not disturb slot numbers, since NUM divides WRAP. */
  lemma {:induction false} SlotIs(from: nat, j: nat)
    ensures Slot(from, j) == (from + j) % NUM
  {
    var x := from + j;
    SameSlot(x, x % WRAP, x / WRAP * 8192);
  }

  lemma {:induction false} SlotShift(from: nat, j: nat)
    ensures Slot((from + 1) % WRAP, j) == Slot(from, j + 1)
  {
    var y := from + 1;
    SlotIs(y % WRAP, j);
    SlotIs(from, j + 1);
    SameSlot(y + j, y % WRAP + j, y / WRAP * 8192);
  }

  /** With fewer than NUM entries waiting, the next slot holds none of them. */
  lemma {:induction false} SlotFresh(from: nat, j: nat, n: nat)
    requires j < n < NUM
    ensures Slot(from, j) != Slot(from, n)
  {
    SlotIs(from, j);
    SlotIs(from, n);
    OtherSlot(from + j, n - j);
  }

  lemma {:induction false} OtherSlot(x: nat, d: nat)
    requires 0 < d < NUM
    ensures x % NUM != (x + d) % NUM
  {
  }

  lemma {:induction false} RingPush(ring: seq<nat>, from: nat, to: nat, q: seq<nat>, h: nat)
    requires |ring| == NUM && RingHolds(ring, from, to, q) && |q| < NUM
    ensures RingHolds(ring[to % NUM := h], from, (to + 1) % WRAP, q + [h])
  {
    forall j: nat | j < |q| + 1 ensures ring[to % NUM := h][Slot(from, j)] == (q + [h])[j] {
      if j < |q| { SlotFresh(from, j, |q|); }
    }
    NextIndex(from + |q|);
  }

  lemma {:induction false} NextIndex(x: nat)
    ensures (x % WRAP + 1) % WRAP == (x + 1) % WRAP
  {
  }

  lemma {:induction false} RingPop(ring: seq<nat>, from: nat, to: nat, q: seq<nat>)
    requires |ring| == NUM && RingHolds(ring, from, to, q) && q != [] && from < WRAP
    ensures RingHolds(ring, (from + 1) % WRAP, to, q[1..]) && ring[from % NUM] == q[0]
  {
    SlotIs(from, 0);
    assert ring[Slot(from, 0)] == q[0];
    forall j: nat | j < |q| - 1 ensures ring[Slot((from + 1) % WRAP, j)] == q[1..][j] {
      SlotShift(from, j);
      assert ring[Slot(from, j + 1)] == q[j + 1];
    }
    PopIndex(from, |q|);
  }

  lemma {:induction false} PopIndex(from: nat, n: nat)
    requires n > 0
    ensures ((from + 1) % WRAP + (n - 1)) % WRAP == (from + n) % WRAP
  {
    var q := (from + 1) / WRAP;
    assert from + n == WRAP * q + ((from + 1) % WRAP + (n - 1));
  }
}
