/** Every step of the virtio disk protocol keeps its invariant, so every interleaving does. */
module VirtioProtocol {
  import opened VirtioQueue

  // ----- the stages -----------------------------------------------------------------------------------

  ghost function FSubmit(f: Flight, h: nat, r: Req): Flight { f.(reqs := f.reqs[h := r], pend := f.pend + [h]) }

  ghost function FFetch(f: Flight): Flight
    requires f.pend != []
  {
    f.(pend := f.pend[1..], out := f.out + {f.pend[0]})
  }

  ghost function FComplete(s: State, f: Flight, h: nat): Flight
    requires h in f.reqs
  {
    var r := f.reqs[h];
    f.(out := f.out - {h}, done := f.done + [h],
       moved := f.moved[h := if r.write then Look(s.data, r.buf) else Look(s.disk, r.sector)])
  }

  ghost function FAck(f: Flight): Flight
    requires f.done != []
  {
    f.(done := f.done[1..], acked := f.acked + {f.done[0]})
  }

  ghost function FFinish(f: Flight, h: nat): Flight { f.(reqs := f.reqs - {h}, acked := f.acked - {h}) }

  // ----- submitting -------------------------------------------------------------------------------------

  /** Three free descriptors and a buffer that is not in flight. */
  ghost predicate CanSubmit(s: State, f: Flight, b: nat, i0: nat, i1: nat, i2: nat) {
    && Sizes(s) && i0 < NUM && i1 < NUM && i2 < NUM && i0 != i1 && i0 != i2 && i1 != i2
    && s.free[i0] && s.free[i1] && s.free[i2] && b != 0 && forall h :: h in f.reqs ==> f.reqs[h].buf != b
  }

  /** A head that is free belongs to no request. */
  lemma {:induction false} FreshHead(s: State, f: Flight, i: nat)
    requires Inv(s, f) && i < NUM && s.free[i]
    ensures i !in f.reqs && i !in f.pend && i !in f.out && i !in f.done && i !in f.acked
  {
    assert ReqOk(s, f, i) && InFlight(f, i);
  }

  lemma {:induction false} SubmitReqOk(
    s: State, f: Flight, b: nat, w: bool, sector: nat, i0: nat, i1: nat, i2: nat, h: nat)
    requires Inv(s, f) && CanSubmit(s, f, b, i0, i1, i2)
    ensures Sizes(Submitted(s, b, w, sector, i0, i1, i2))
    ensures ReqOk(Submitted(s, b, w, sector, i0, i1, i2), FSubmit(f, i0, Req(i1, i2, b, w, sector)), h)
  {
    FreshHead(s, f, i0);
    if h != i0 && h in f.reqs {
      SubmitOther(s, f, b, w, sector, i0, i1, i2, h);
    }
  }

  lemma {:induction false} SubmitOther(
    s: State, f: Flight, b: nat, w: bool, sector: nat, i0: nat, i1: nat, i2: nat, h: nat)
    requires Inv(s, f) && CanSubmit(s, f, b, i0, i1, i2) && h in f.reqs && h != i0
    ensures Sizes(Submitted(s, b, w, sector, i0, i1, i2))
    ensures ReqOk(Submitted(s, b, w, sector, i0, i1, i2), FSubmit(f, i0, Req(i1, i2, b, w, sector)), h)
  {
    assert ReqOk(s, f, h);
    var r := f.reqs[h];
    assert {h, r.i1, r.i2} !! {i0, i1, i2};
  }

  lemma {:induction false} SubmitSeparate(
    s: State, f: Flight, b: nat, w: bool, sector: nat, i0: nat, i1: nat, i2: nat, h: nat, g: nat)
    requires Inv(s, f) && CanSubmit(s, f, b, i0, i1, i2)
    ensures Separate(FSubmit(f, i0, Req(i1, i2, b, w, sector)), h, g)
  {
    assert Separate(f, h, g) && ReqOk(s, f, h) && ReqOk(s, f, g);
  }

  lemma {:induction false} SubmitInv(s: State, f: Flight, b: nat, w: bool, sector: nat, i0: nat, i1: nat, i2: nat)
    requires Inv(s, f) && CanSubmit(s, f, b, i0, i1, i2)
    ensures Inv(Submitted(s, b, w, sector, i0, i1, i2), FSubmit(f, i0, Req(i1, i2, b, w, sector)))
  {
    var s', f' := Submitted(s, b, w, sector, i0, i1, i2), FSubmit(f, i0, Req(i1, i2, b, w, sector));
    forall h: nat ensures Sizes(s') && ReqOk(s', f', h) { SubmitReqOk(s, f, b, w, sector, i0, i1, i2, h); }
    forall h: nat, g: nat ensures Separate(f', h, g) { SubmitSeparate(s, f, b, w, sector, i0, i1, i2, h, g); }
    FreeCountThree(s.free, i0, i1, i2, false);
    forall i: nat ensures Blank(s', i) { assert Blank(s, i); }
    RingPush(s.availRing, s.availSeen, s.availIdx, f.pend, i0);
    FreshHead(s, f, i0);
    forall h: nat ensures Staged(f', h) && InFlight(f', h) { assert Staged(f, h) && InFlight(f, h); }
  }

  // ----- the device ----------------------------------------------------------------------------------------

  lemma {:induction false} FetchInv(s: State, f: Flight)
    requires Inv(s, f) && f.pend != []
    ensures Inv(Fetched(s), FFetch(f)) && s.availRing[s.availSeen % NUM] == f.pend[0]
  {
    var s', f' := Fetched(s), FFetch(f);
    forall i: nat ensures Blank(s', i) { assert Blank(s, i); }
    RingPop(s.availRing, s.availSeen, s.availIdx, f.pend);
    var a := f.pend[0];
    assert Staged(f, a) && InFlight(f, a);
    HeadGone(f.pend);
    forall h: nat ensures ReqOk(s', f', h) { assert ReqOk(s, f, h); }
    forall h: nat, g: nat ensures Separate(f', h, g) { assert Separate(f, h, g); }
    forall h: nat ensures Staged(f', h) && InFlight(f', h) { assert Staged(f, h) && InFlight(f, h); }
  }

  lemma {:induction false} HeadGone(q: seq<nat>)
    requires Distinct(q) && q != []
    ensures Distinct(q[1..]) && forall h: nat :: h in q[1..] <==> h in q && h != q[0]
  {
    forall h: nat ensures h in q[1..] <==> h in q && h != q[0] {
      assert q == [q[0]] + q[1..];
    }
  }

  /** The device acts on exactly the sector and buffer of the request, and reports in its own status byte. */
  lemma {:induction false} CompleteOwn(s: State, f: Flight, h: nat)
    requires Inv(s, f) && h in f.out
    ensures h in f.reqs && h < NUM
    ensures var r := f.reqs[h];
            Completed(s, h) ==
            s.(disk := if r.write then s.disk[r.sector := Look(s.data, r.buf)] else s.disk,
               data := if r.write then s.data else s.data[r.buf := Look(s.disk, r.sector)],
               info := s.info[h := Info(r.buf, 0)],
               usedRing := s.usedRing[s.usedIdx % NUM := h], usedIdx := (s.usedIdx + 1) % WRAP)
  {
    assert InFlight(f, h) && ReqOk(s, f, h);
  }

  lemma {:induction false} CompleteInv(s: State, f: Flight, h: nat)
    requires Inv(s, f) && h in f.out
    ensures h < NUM && h in f.reqs && Inv(Completed(s, h), FComplete(s, f, h))
  {
    CompleteOwn(s, f, h);
    var s', f' := Completed(s, h), FComplete(s, f, h);
    forall i: nat ensures Blank(s', i) { assert Blank(s, i); }
    RingPush(s.usedRing, s.seenIdx, s.usedIdx, f.done, h);
    assert Staged(f, h) && ReqOk(s, f, h);
    forall k: nat ensures ReqOk(s', f', k) { assert ReqOk(s, f, k) && Staged(f, k) && Separate(f, k, h); }
    forall k: nat, g: nat ensures Separate(f', k, g) { assert Separate(f, k, g); }
    forall k: nat ensures Staged(f', k) && InFlight(f', k) { assert Staged(f, k) && InFlight(f, k); }
  }

  // ----- the interrupt handler and the waiting process ------------------------------------------------------

  /** The handler finds a finished request, with status 0, and releases that request's buffer. */
  lemma {:induction false} AckOwn(s: State, f: Flight)
    requires Inv(s, f) && f.done != []
    ensures var h := f.done[0];
            && h < NUM && s.usedRing[s.seenIdx % NUM] == h && h in f.reqs && s.info[h].status == 0
            && Acked(s) == s.(busy := s.busy - {f.reqs[h].buf}, seenIdx := (s.seenIdx + 1) % WRAP)
  {
    RingPop(s.usedRing, s.seenIdx, s.usedIdx, f.done);
    assert InFlight(f, f.done[0]) && ReqOk(s, f, f.done[0]);
  }

  lemma {:induction false} AckInv(s: State, f: Flight)
    requires Inv(s, f) && f.done != []
    ensures Inv(Acked(s), FAck(f))
  {
    AckOwn(s, f);
    RingPop(s.usedRing, s.seenIdx, s.usedIdx, f.done);
    var s', f', a := Acked(s), FAck(f), f.done[0];
    forall i: nat ensures Blank(s', i) { assert Blank(s, i); }
    assert Staged(f, a);
    HeadGone(f.done);
    forall h: nat ensures ReqOk(s', f', h) { assert ReqOk(s, f, h) && Separate(f, h, a) && Staged(f, h); }
    forall h: nat, g: nat ensures Separate(f', h, g) { assert Separate(f, h, g); }
    forall h: nat ensures Staged(f', h) && InFlight(f', h) { assert Staged(f, h) && InFlight(f, h); }
  }

  /**
   * A waiter sees b->disk == 0 exactly when its own request has been completed and acknowledged, and then its
   * buffer holds what the device moved for this very request.
   */
  lemma {:induction false} WokenIffAcked(s: State, f: Flight, h: nat)
    requires Inv(s, f) && h in f.reqs
    ensures f.reqs[h].buf !in s.busy <==> h in f.acked
    ensures h in f.acked ==> h in f.moved && Look(s.data, f.reqs[h].buf) == f.moved[h]
  {
    assert ReqOk(s, f, h);
  }

  lemma {:induction false} FinishReqOk(s: State, f: Flight, h: nat, k: nat)
    requires Inv(s, f) && h in f.acked && h in f.reqs && h < NUM && f.reqs[h].i1 < NUM && f.reqs[h].i2 < NUM
    ensures Sizes(Finished(s, h, f.reqs[h].i1, f.reqs[h].i2))
    ensures ReqOk(Finished(s, h, f.reqs[h].i1, f.reqs[h].i2), FFinish(f, h), k)
  {
    assert ReqOk(s, f, k) && Separate(f, k, h);
  }

  lemma {:induction false} FinishInv(s: State, f: Flight, h: nat)
    requires Inv(s, f) && h in f.acked
    ensures h in f.reqs && h < NUM && f.reqs[h].i1 < NUM && f.reqs[h].i2 < NUM
    ensures Inv(Finished(s, h, f.reqs[h].i1, f.reqs[h].i2), FFinish(f, h))
  {
    assert InFlight(f, h) && ReqOk(s, f, h) && Staged(f, h);
    var r := f.reqs[h];
    var s', f' := Finished(s, h, r.i1, r.i2), FFinish(f, h);
    FreeCountThree(s.free, h, r.i1, r.i2, true);
    forall i: nat ensures Blank(s', i) { assert Blank(s, i); }
    forall k: nat ensures ReqOk(s', f', k) { FinishReqOk(s, f, h, k); }
    forall k: nat, g: nat ensures Separate(f', k, g) { assert Separate(f, k, g); }
    forall k: nat ensures Staged(f', k) && InFlight(f', k) { assert Staged(f, k) && InFlight(f, k); }
  }

  // ----- whole runs -------------------------------------------------------------------------------------------

  /** After virtio_disk_init. */
  ghost predicate Init(s: State) {
    && Sizes(s) && s.free == [true, true, true, true, true, true, true, true]
    && (forall i: nat :: Blank(s, i))
    && s.availIdx == 0 && s.availSeen == 0 && s.usedIdx == 0 && s.seenIdx == 0 && s.busy == {}
  }

  const NONE := Flight(map[], [], {}, [], {}, map[])

  lemma {:induction false} InitInv(s: State)
    requires Init(s)
    ensures Inv(s, NONE)
  {
    FreeRun(NUM);
    assert s.free == AllFree(NUM);
  }

  ghost function AllFree(n: nat): (r: seq<bool>)
    ensures |r| == n && forall i :: 0 <= i < n ==> r[i]
  {
    if n == 0 then [] else AllFree(n - 1) + [true]
  }

  lemma {:induction false} FreeRun(n: nat)
    ensures FreeCount(AllFree(n)) == n
  {
    if n > 0 {
      FreeRun(n - 1);
      assert AllFree(n)[..n - 1] == AllFree(n - 1);
    }
  }

  datatype Step =
    | Submit(b: nat, write: bool, sector: nat, i0: nat, i1: nat, i2: nat)
    | Fetch
    | Complete(h: nat)
    | Ack
    | Finish(h: nat)
    | Sleep

  /** Process, device and interrupt steps, when each is possible. A process without three descriptors sleeps. */
  ghost predicate Next(s: State, f: Flight, step: Step, s': State, f': Flight) {
    match step
    case Submit(b, w, sector, i0, i1, i2) =>
      CanSubmit(s, f, b, i0, i1, i2) && s' == Submitted(s, b, w, sector, i0, i1, i2)
      && f' == FSubmit(f, i0, Req(i1, i2, b, w, sector))
    case Fetch => Sizes(s) && s.availSeen != s.availIdx && f.pend != [] && s' == Fetched(s) && f' == FFetch(f)
    case Complete(h) =>
      Sizes(s) && h in f.out && h in f.reqs && h < NUM && s' == Completed(s, h) && f' == FComplete(s, f, h)
    case Ack => Sizes(s) && s.seenIdx != s.usedIdx && f.done != [] && s' == Acked(s) && f' == FAck(f)
    case Finish(h) =>
      Sizes(s) && h in f.reqs && f.reqs[h].buf !in s.busy && h < NUM && f.reqs[h].i1 < NUM && f.reqs[h].i2 < NUM
      && s' == Finished(s, h, f.reqs[h].i1, f.reqs[h].i2) && f' == FFinish(f, h)
    case Sleep => s' == s && f' == f
  }

  lemma {:induction false} NextKeepsInv(s: State, f: Flight, step: Step, s': State, f': Flight)
    requires Inv(s, f) && Next(s, f, step, s', f')
    ensures Inv(s', f')
  {
    match step
    case Submit(b, w, sector, i0, i1, i2) => SubmitInv(s, f, b, w, sector, i0, i1, i2);
    case Fetch => FetchInv(s, f);
    case Complete(h) => CompleteInv(s, f, h);
    case Ack => AckInv(s, f);
    case Finish(h) => WokenIffAcked(s, f, h); FinishInv(s, f, h);
    case Sleep =>
  }

  /** Device and handler are never stuck or misled by the indices: something waits iff the indices differ. */
  lemma {:induction false} IndicesTell(s: State, f: Flight)
    requires Inv(s, f)
    ensures (s.availSeen != s.availIdx <==> f.pend != []) && (s.usedIdx != s.seenIdx <==> f.done != [])
  {
  }

  datatype Config = Config(s: State, f: Flight)

  ghost predicate Run(run: seq<Config>, steps: seq<Step>) {
    && |run| == |steps| + 1 && Init(run[0].s) && run[0].f == NONE
    && forall i :: 0 <= i < |steps| ==> Next(run[i].s, run[i].f, steps[i], run[i + 1].s, run[i + 1].f)
  }

  /** Every configuration of every run satisfies the invariant. */
  lemma {:induction false} RunKeepsInv(run: seq<Config>, steps: seq<Step>, i: nat)
    requires Run(run, steps) && i < |run|
    ensures Inv(run[i].s, run[i].f)
  {
    if i == 0 {
      InitInv(run[0].s);
    } else {
      RunKeepsInv(run, steps, i - 1);
      NextKeepsInv(run[i - 1].s, run[i - 1].f, steps[i - 1], run[i].s, run[i].f);
    }
  }
}
