/** The driver code of kernel/virtio_disk.c; each method carries out one atomic step of the protocol. */
module VirtioDisk {
  import opened VirtioQueue
  import opened VirtioProtocol

  class Disk {
    var free: seq<bool>
    var desc: seq<Desc>
    var availRing: seq<nat>
    var availIdx: nat
    ghost var availSeen: nat
    var usedRing: seq<nat>
    var usedIdx: nat
    var seenIdx: nat
    var info: seq<Info>
    var ops: seq<Cmd>
    var busy: set<nat>
    ghost var data: map<nat, nat>
    ghost var disk: map<nat, nat>
    ghost var flight: Flight

    ghost function View(): State
      reads this
    {
      State(free, desc, availRing, availIdx, availSeen, usedRing, usedIdx, seenIdx, info, ops, busy, data, disk)
    }

    ghost predicate Valid()
      reads this
    {
      Inv(View(), flight)
    }

    constructor ()
      ensures Valid() && flight == NONE
    {
      free := [true, true, true, true, true, true, true, true];
      desc := [NO_DESC, NO_DESC, NO_DESC, NO_DESC, NO_DESC, NO_DESC, NO_DESC, NO_DESC];
      availRing, availIdx, availSeen := [0, 0, 0, 0, 0, 0, 0, 0], 0, 0;
      usedRing, usedIdx, seenIdx := [0, 0, 0, 0, 0, 0, 0, 0], 0, 0;
      var i := Info(0, 0);
      info := [i, i, i, i, i, i, i, i];
      var c := Cmd(false, 0);
      ops := [c, c, c, c, c, c, c, c];
      busy, data, disk, flight := {}, map[], map[], NONE;
      new;
      InitInv(View());
    }

    /** alloc_desc: the first free descriptor, or NUM (-1 in the source) if there is none. */
    method AllocDesc() returns (i: nat)
      requires |free| == NUM
      modifies this`free
      ensures i <= NUM && |free| == NUM && forall k :: 0 <= k < i && k < NUM ==> !old(free)[k]
      ensures i < NUM ==> old(free)[i] && free == old(free)[i := false]
      ensures i == NUM ==> free == old(free) && FreeCount(free) == 0
    {
      i := 0;
      while i < NUM
        invariant i <= NUM && free == old(free) && forall k :: 0 <= k < i ==> !free[k]
      {
        if free[i] {
          free := free[i := false];
          return;
        }
        i := i + 1;
      }
      NoneFree(free);
    }

    /** free_desc: panics unless i is a descriptor in use. */
    method FreeDesc(i: nat)
      requires |free| == NUM && |desc| == NUM && i < NUM && !free[i]
      modifies this`free, this`desc
      ensures free == old(free)[i := true] && desc == old(desc)[i := NO_DESC]
      ensures desc[i] == Desc(Null, 0, false, false, 0)
    {
      desc := desc[i := NO_DESC];
      free := free[i := true];
    }

    /** free_chain of a three-descriptor chain frees each of the three once. */
    method FreeChain(i0: nat, ghost i1: nat, ghost i2: nat)
      requires |free| == NUM && |desc| == NUM && i0 < NUM && i1 < NUM && i2 < NUM && i0 != i1 && i0 != i2 && i1 != i2
      requires !free[i0] && !free[i1] && !free[i2]
      requires desc[i0].more && desc[i0].next == i1 && desc[i1].more && desc[i1].next == i2 && !desc[i2].more
      modifies this`free, this`desc
      ensures free == old(free)[i0 := true][i1 := true][i2 := true]
      ensures desc == old(desc)[i0 := NO_DESC][i1 := NO_DESC][i2 := NO_DESC]
    {
      var i := i0;
      ghost var n := 0;
      ghost var free0, desc0 := free, desc;
      var more := true;
      while more
        invariant 0 <= n <= 3 && (more <==> n < 3)
        invariant n == 0 ==> i == i0 && free == free0 && desc == desc0
        invariant n == 1 ==> i == i1 && free == free0[i0 := true] && desc == desc0[i0 := NO_DESC]
        invariant n == 2 ==>
            i == i2 && free == free0[i0 := true][i1 := true] && desc == desc0[i0 := NO_DESC][i1 := NO_DESC]
        invariant n == 3 ==> free == free0[i0 := true][i1 := true][i2 := true]
                             && desc == desc0[i0 := NO_DESC][i1 := NO_DESC][i2 := NO_DESC]
        decreases 3 - n
      {
        var flag, nxt := desc[i].more, desc[i].next;
        FreeDesc(i);
        if flag {
          i := nxt;
        } else {
          more := false;
        }
        n := n + 1;
      }
    }

    /** alloc3_desc: three free descriptors, or none and no change; it fails only if fewer than three are free. */
    method Alloc3() returns (ok: bool, idx: seq<nat>)
      requires |free| == NUM && |desc| == NUM && Clean(free, desc)
      modifies this`free, this`desc
      ensures ok <==> FreeCount(old(free)) >= 3
      ensures !ok ==> free == old(free)
      ensures desc == old(desc)
      ensures ok ==> |idx| == 3 && AllFrom(old(free), idx) && TakenFrom(old(free), idx, free)
    {
      idx, ok := [], true;
      while |idx| < 3
        invariant |idx| <= 3 && AllFrom(old(free), idx) && TakenFrom(old(free), idx, free) && desc == old(desc)
        invariant FreeCount(free) + |idx| == FreeCount(old(free))
      {
        ghost var free0 := free;
        var i := AllocDesc();
        if i == NUM {
          GiveBack(idx, old(free));
          return false, idx;
        }
        FreeCountSet(free0, i, false);
        idx := idx + [i];
      }
    }

    /** The inner loop of alloc3_desc. */
    method GiveBack(idx: seq<nat>, ghost free0: seq<bool>)
      requires |free| == NUM && |desc| == NUM && |free0| == NUM && Clean(free0, desc)
      requires AllFrom(free0, idx) && TakenFrom(free0, idx, free)
      modifies this`free, this`desc
      ensures free == free0 && desc == old(desc)
    {
      var j := 0;
      while j < |idx|
        invariant 0 <= j <= |idx| && |free| == NUM && desc == old(desc)
        invariant forall k :: 0 <= k < NUM ==> (free[k] <==> free0[k] && k !in idx[j..])
      {
        assert idx[j] in idx[j..] && idx[j..] == [idx[j]] + idx[j + 1..];
        FreeDesc(idx[j]);
        assert desc == old(desc);
        j := j + 1;
      }
    }

    /** The first half of virtio_disk_rw: submit the request, or sleep because fewer than three descriptors are free. */
    method Start(b: nat, blockno: nat, write: bool) returns (ok: bool, head: nat, ghost i1: nat, ghost i2: nat)
      requires Valid() && b != 0 && forall h :: h in flight.reqs ==> flight.reqs[h].buf != b
      modifies this
      ensures Valid() && (ok <==> |old(flight).reqs| <= 1)
      ensures !ok ==> View() == old(View()) && flight == old(flight)
      ensures ok ==> Next(old(View()), old(flight), Submit(b, write, blockno * 2, head, i1, i2), View(), flight)
      ensures ok ==>
                && head < 8 && i1 < 8 && i2 < 8 && |old(desc)| == |old(ops)| == |old(info)| == |old(availRing)| == 8
                && ops == old(ops)[head := Cmd(write, blockno * 2)] && info == old(info)[head := Info(b, 0xff)]
                && desc == old(desc)[head := Desc(Command(head), 16, true, false, i1)]
                                    [i1 := Desc(Data(b), 1024, true, !write, i2)]
                                    [i2 := Desc(Status(head), 1, false, true, 0)]
                && busy == old(busy) + {b} && availRing == old(availRing)[old(availIdx) % 8 := head]
                && availIdx == (old(availIdx) + 1) % 0x1_0000
    {
      ghost var s := View();
      var idx;
      ok, idx := TryAlloc(b);
      head, i1, i2 := 0, 0, 0;
      if !ok {
        return;
      }
      head, i1, i2 := idx[0], idx[1], idx[2];
      Post(b, write, blockno * 2, idx[0], idx[1], idx[2], s);
    }

    /** With the three descriptors marked used, submit. */
    method Post(b: nat, write: bool, sector: nat, i0: nat, i1: nat, i2: nat, ghost s: State)
      requires Inv(s, flight) && CanSubmit(s, flight, b, i0, i1, i2)
      requires View() == s.(free := s.free[i0 := false][i1 := false][i2 := false])
      modifies this
      ensures Valid() && View() == Submitted(s, b, write, sector, i0, i1, i2)
      ensures flight == FSubmit(old(flight), i0, Req(i1, i2, b, write, sector))
    {
      SubmitInv(s, flight, b, write, sector, i0, i1, i2);
      Format(b, write, sector, i0, i1, i2);
      assert View() == Submitted(s, b, write, sector, i0, i1, i2);
      flight := FSubmit(flight, i0, Req(i1, i2, b, write, sector));
    }

    method TryAlloc(b: nat) returns (ok: bool, idx: seq<nat>)
      requires Valid() && b != 0 && forall h :: h in flight.reqs ==> flight.reqs[h].buf != b
      modifies this`free, this`desc
      ensures ok <==> |flight.reqs| <= 1
      ensures Sizes(View()) && desc == old(desc) && (!ok ==> free == old(free))
      ensures ok ==> |idx| == 3 && CanSubmit(old(View()), flight, b, idx[0], idx[1], idx[2])
                     && free == old(free)[idx[0] := false][idx[1] := false][idx[2] := false]
    {
      CleanView();
      ok, idx := Alloc3();
      if ok { TakenThree(old(free), idx, free); }
    }

    /** Fill in the command, the three descriptors and the avail ring. */
    method Format(b: nat, write: bool, sector: nat, i0: nat, i1: nat, i2: nat)
      requires |desc| == NUM && |info| == NUM && |ops| == NUM && |availRing| == NUM && i0 < NUM && i1 < NUM && i2 < NUM
      modifies this`ops, this`desc, this`info, this`busy, this`availRing, this`availIdx
      ensures ops == old(ops)[i0 := Cmd(write, sector)] && info == old(info)[i0 := Info(b, 0xff)]
      ensures busy == old(busy) + {b}
      ensures desc == old(desc)[i0 := Desc(Command(i0), 16, true, false, i1)]
                               [i1 := Desc(Data(b), BSIZE, true, !write, i2)]
                               [i2 := Desc(Status(i0), 1, false, true, 0)]
      ensures availRing == old(availRing)[old(availIdx) % NUM := i0] && availIdx == (old(availIdx) + 1) % WRAP
    {
      ops := ops[i0 := Cmd(write, sector)];
      desc := desc[i0 := Desc(Command(i0), 16, true, false, i1)];
      desc := desc[i1 := Desc(Data(b), BSIZE, true, !write, i2)];
      info := info[i0 := Info(info[i0].b, 0xff)];
      desc := desc[i2 := Desc(Status(i0), 1, false, true, 0)];
      busy := busy + {b};
      info := info[i0 := Info(b, info[i0].status)];
      availRing := availRing[availIdx % NUM := i0];
      availIdx := (availIdx + 1) % WRAP;
    }

    lemma CleanView()
      requires Valid()
      ensures Clean(free, desc) && (FreeCount(free) >= 3 <==> |flight.reqs| <= 1)
    {
      forall i | 0 <= i < |free| && free[i] ensures desc[i] == NO_DESC { assert Blank(View(), i); }
    }

    /** The rest of virtio_disk_rw once b->disk is 0; free_desc cannot panic. */
    method End(head: nat)
      requires Valid() && head in flight.reqs && flight.reqs[head].buf !in busy
      modifies this
      ensures Valid() && Next(old(View()), old(flight), Finish(head), View(), flight)
      ensures |old(info)| == |old(free)| == 8 && head < 8
      ensures info == old(info)[head := Info(0, old(info)[head].status)] && head !in flight.reqs
      ensures var r := old(flight).reqs[head];
              r.i1 < 8 && r.i2 < 8 && free == old(free)[head := true][r.i1 := true][r.i2 := true]
    {
      ghost var s := View();
      WokenIffAcked(s, flight, head);
      FinishInv(s, flight, head);
      assert ReqOk(s, flight, head);
      ghost var r := flight.reqs[head];
      info := info[head := Info(0, info[head].status)];
      FreeChain(head, r.i1, r.i2);
      flight := FFinish(flight, head);
      assert View() == Finished(s, head, r.i1, r.i2);
    }

    /** virtio_disk_intr: acknowledges everything the device has finished; a status other than 0 would be a panic. */
    method Interrupt()
      requires Valid()
      modifies this`busy, this`seenIdx, this`flight
      ensures Valid() && seenIdx == usedIdx && flight == AckMany(old(flight), |old(flight).done|)
      ensures flight.done == [] && forall h :: h in flight.acked <==> h in old(flight).acked || h in old(flight).done
      ensures forall b :: b in busy <==> b in old(busy) && !Served(info, old(flight).done, b)
    {
      ghost var n: nat := 0;
      AckNone(flight);
      Waiting();
      ghost var q := flight.done;
      while seenIdx != usedIdx
        invariant Valid() && n <= |q| && flight == AckMany(old(flight), n) && flight.done == q[n..]
        invariant forall b :: b in busy <==> b in old(busy) && !Served(info, q[..n], b)
        invariant seenIdx != usedIdx <==> flight.done != []
        decreases |flight.done|
      {
        assert q[..n + 1] == q[..n] + [q[n]];
        AckOne();
        AckNext(old(flight), n);
        n := n + 1;
        Waiting();
      }
      assert q[..n] == q;
      HeadsAre(q, n);
    }

    lemma Waiting()
      requires Valid()
      ensures seenIdx != usedIdx <==> flight.done != []
    {
      IndicesTell(View(), flight);
    }

    /** One turn of the loop of virtio_disk_intr. */
    method AckOne()
      requires Valid() && flight.done != []
      modifies this`busy, this`seenIdx, this`flight
      ensures Valid() && View() == Acked(old(View())) && flight == FAck(old(flight))
      ensures old(flight).done[0] < |info| && busy == old(busy) - {info[old(flight).done[0]].b}
    {
      ghost var s := View();
      AckOwn(s, flight);
      AckInv(s, flight);
      var id := usedRing[seenIdx % NUM];
      assert info[id].status == 0;
      busy := busy - {info[id].b};
      seenIdx := (seenIdx + 1) % WRAP;
      flight := FAck(flight);
      assert View() == Acked(s);
    }
  }

  /** The first n finished requests have been acknowledged. */
  ghost function AckMany(f: Flight, n: nat): Flight
    requires n <= |f.done|
  {
    f.(done := f.done[n..], acked := f.acked + Heads(f.done, n))
  }

  lemma {:induction false} AckNone(f: Flight)
    ensures AckMany(f, 0) == f
  {
    assert f.acked + {} == f.acked;
  }

  lemma {:induction false} AckNext(f: Flight, n: nat)
    requires n < |f.done|
    ensures FAck(AckMany(f, n)) == AckMany(f, n + 1)
  {
    assert f.acked + Heads(f.done, n) + {f.done[n]} == f.acked + (Heads(f.done, n) + {f.done[n]});
  }

  /** The first n elements of q. */
  ghost function Heads(q: seq<nat>, n: nat): set<nat>
    requires n <= |q|
  {
    if n == 0 then {} else Heads(q, n - 1) + {q[n - 1]}
  }

  lemma {:induction false} HeadsAre(q: seq<nat>, n: nat)
    requires n <= |q|
    ensures forall h :: h in Heads(q, n) <==> h in q[..n]
  {
    if n > 0 {
      HeadsAre(q, n - 1);
      assert q[..n] == q[..n - 1] + [q[n - 1]];
    }
  }

  /** Buffer b belongs to one of the finished requests. */
  ghost predicate Served(info: seq<Info>, q: seq<nat>, b: nat) {
    exists h :: h in q && h < |info| && info[h].b == b
  }

  /** idx lists distinct descriptors that are free. */
  ghost predicate AllFrom(free: seq<bool>, idx: seq<nat>) {
    Distinct(idx) && forall k :: 0 <= k < |idx| ==> idx[k] < |free| && free[idx[k]]
  }

  /** free' is free without the descriptors in idx. */
  ghost predicate TakenFrom(free: seq<bool>, idx: seq<nat>, free': seq<bool>) {
    |free'| == |free| && forall k :: 0 <= k < |free| ==> (free'[k] <==> free[k] && k !in idx)
  }

  lemma {:induction false} TakenThree(free: seq<bool>, idx: seq<nat>, free': seq<bool>)
    requires |idx| == 3 && AllFrom(free, idx) && TakenFrom(free, idx, free')
    ensures free' == free[idx[0] := false][idx[1] := false][idx[2] := false]
  {
    assert idx == [idx[0], idx[1], idx[2]];
  }

  lemma {:induction false} NoneFree(free: seq<bool>)
    requires forall k :: 0 <= k < |free| ==> !free[k]
    ensures FreeCount(free) == 0
  {
    if free != [] { NoneFree(free[..|free| - 1]); }
  }

  /** Free descriptors are blank. */
  ghost predicate Clean(free: seq<bool>, desc: seq<Desc>)
    requires |free| == |desc|
  {
    forall i :: 0 <= i < |free| && free[i] ==> desc[i] == NO_DESC
  }
}
