/**
 * The commit and recovery code of kernel/log.c. `cache` holds the contents of the valid buffers
 * (a block that is not cached is read from disk); every block write is appended to the ghost `trace`,
 * so that the states a crash can leave are the elements of the trace.
 */
module LogFile {
  import opened WriteAheadLog

  /** Cached blocks other than those of the running transaction agree with the disk. */
  ghost predicate Coherent(cache: map<nat, Data>, disk: Disk, txn: seq<nat>) {
    forall b :: b in cache && b !in txn ==> b < |disk| && cache[b] == disk[b]
  }

  /** The cache holds the transaction's blocks, with these contents. */
  ghost predicate Holds(cache: map<nat, Data>, blocks: seq<nat>, vals: seq<Data>) {
    |vals| == |blocks| && forall i :: 0 <= i < |blocks| ==> blocks[i] in cache && cache[blocks[i]] == vals[i]
  }

  lemma {:induction false} HoldsAcross(
    l: Layout, cache: map<nat, Data>, blocks: seq<nat>, vals: seq<Data>, b: nat, data: Data)
    requires Holds(cache, blocks, vals) && HomesOnly(l, blocks) && !Home(l, b)
    ensures Holds(cache[b := data], blocks, vals)
  {
    forall i | 0 <= i < |blocks| ensures blocks[i] != b { assert Home(l, blocks[i]); }
  }

  lemma {:induction false} CoherentWrite(
    l: Layout, cache: map<nat, Data>, disk: Disk, txn: seq<nat>, b: nat, data: Data)
    requires Coherent(cache, disk, txn) && b < |disk|
    ensures Coherent(cache[b := data], disk[b := data], txn)
  {
  }

  lemma {:induction false} LogTraceNext(l: Layout, d: Disk, vals: seq<Data>, t: nat)
    requires |d| == l.size && ValidLayout(l) && t < |vals| <= l.cap
    ensures LogTrace(l, d, vals, t + 1)[1..] == LogTrace(l, d, vals, t)[1..] + [Logged(l, d, vals, t + 1)]
  {
  }

  lemma {:induction false} InstallTraceNext(l: Layout, d: Disk, blocks: seq<nat>, t: nat)
    requires |d| == l.size && ValidLayout(l) && HomesOnly(l, blocks) && t < |blocks|
    ensures InstallTrace(l, d, blocks, t + 1)[1..] ==
            InstallTrace(l, d, blocks, t)[1..] + [Installed(l, d, blocks, t + 1)]
  {
  }

  /** The first t copies to the log have been made. */
  ghost predicate LogSoFar(l: Layout, d0: Disk, t0: seq<Disk>, vals: seq<Data>, t: nat, d: Disk, trace: seq<Disk>) {
    && |d0| == l.size && ValidLayout(l) && t <= |vals| <= l.cap
    && d == Logged(l, d0, vals, t) && trace == t0 + LogTrace(l, d0, vals, t)[1..]
  }

  lemma {:induction false} LogNext(
    l: Layout, d0: Disk, t0: seq<Disk>, vals: seq<Data>, t: nat, d: Disk, trace: seq<Disk>)
    requires LogSoFar(l, d0, t0, vals, t, d, trace) && t < |vals|
    ensures var d' := d[l.start + t + 1 := vals[t]]; LogSoFar(l, d0, t0, vals, t + 1, d', trace + [d'])
  {
    LogTraceNext(l, d0, vals, t);
  }

  /** Once block b has been written home, it need not be excepted any more. */
  lemma {:induction false} CoherentHome(cache: map<nat, Data>, d: Disk, rest: seq<nat>, b: nat, data: Data)
    requires Coherent(cache, d, [b] + rest) && b < |d|
    ensures Coherent(cache[b := data], d[b := data], rest)
  {
  }

  lemma {:induction false} CoherentLess(cache: map<nat, Data>, d: Disk, blocks: seq<nat>, rest: seq<nat>)
    requires Coherent(cache, d, rest) && forall b :: b in rest ==> b in blocks
    ensures Coherent(cache, d, blocks)
  {
  }

  class Log {
    const layout: Layout
    const block: array<nat>       // lh.block
    var n: nat                    // lh.n
    var disk: Disk
    var cache: map<nat, Data>
    ghost var trace: seq<Disk>

    ghost predicate Sane()
      reads this, block
    {
      ValidLayout(layout) && |disk| == layout.size && |disk[layout.start]| == layout.words
      && n <= block.Length == layout.cap && HomesOnly(layout, block[..n])
      && Coherent(cache, disk, block[..n])
    }

    /** Boot: nothing cached, nothing in the in-memory header. */
    constructor (layout: Layout, disk: Disk)
      requires WellFormed(layout, disk)
      ensures Sane() && this.layout == layout && this.disk == disk && n == 0 && cache == map[] && trace == [disk]
      ensures fresh(block)
    {
      this.layout, this.disk, n, cache, trace := layout, disk, 0, map[], [disk];
      block := new nat[layout.cap](_ => 0);
    }

    /** bread: the cached contents, or the disk's, which are then cached. */
    method Bread(b: nat) returns (data: Data)
      requires b < |disk|
      modifies this`cache
      ensures data == if b in old(cache) then old(cache)[b] else disk[b]
      ensures cache == old(cache)[b := data]
    {
      if b !in cache {
        cache := cache[b := disk[b]];
      }
      data := cache[b];
      assert old(cache)[b := data] == cache;
    }

    /** bwrite of a buffer holding `data`: one atomic block write. */
    method Bwrite(b: nat, data: Data)
      requires b < |disk|
      modifies this`disk, this`cache, this`trace
      ensures disk == old(disk)[b := data] && cache == old(cache)[b := data] && trace == old(trace) + [disk]
    {
      disk, cache := disk[b := data], cache[b := data];
      trace := trace + [disk];
    }

    /** One turn of the write_log loop. */
    method CopyToLog(tail: nat, ghost vals: seq<Data>)
      requires Sane() && tail < n && Holds(cache, block[..n], vals)
      modifies this`disk, this`cache, this`trace
      ensures Sane() && Holds(cache, block[..n], vals)
      ensures disk == old(disk)[layout.start + tail + 1 := vals[tail]] && trace == old(trace) + [disk]
    {
      ghost var blocks := block[..n];
      assert !Home(layout, layout.start + tail + 1) && Home(layout, blocks[tail]);
      var to := Bread(layout.start + tail + 1);
      HoldsAcross(layout, old(cache), blocks, vals, layout.start + tail + 1, to);
      var from := Bread(block[tail]);
      assert blocks[tail] == block[tail] && from == vals[tail];
      assert cache == old(cache)[layout.start + tail + 1 := to];
      CoherentWrite(layout, cache, disk, blocks, layout.start + tail + 1, from);
      HoldsAcross(layout, cache, blocks, vals, layout.start + tail + 1, from);
      Bwrite(layout.start + tail + 1, from);
    }

    /** write_log: copy the modified blocks from the cache to the log. */
    method WriteLog(ghost vals: seq<Data>)
      requires Sane() && Holds(cache, block[..n], vals)
      modifies this`disk, this`cache, this`trace
      ensures Sane() && Holds(cache, block[..n], vals)
      ensures disk == Logged(layout, old(disk), vals, n)
      ensures trace == old(trace) + LogTrace(layout, old(disk), vals, n)[1..]
    {
      var tail := 0;
      ghost var d0, t0 := disk, trace;
      assert LogSoFar(layout, d0, t0, vals, 0, disk, trace);
      while tail < n
        invariant 0 <= tail <= n && Sane() && Holds(cache, block[..n], vals)
        invariant LogSoFar(layout, d0, t0, vals, tail, disk, trace)
      {
        ghost var d, tr := disk, trace;
        CopyToLog(tail, vals);
        LogNext(layout, d0, t0, vals, tail, d, tr);
        tail := tail + 1;
      }
    }

    /** write_head: one write of the header block, listing the first n recorded blocks. */
    method WriteHead()
      requires Sane()
      modifies this`disk, this`cache, this`trace
      ensures Sane()
      ensures disk == old(disk)[layout.start := HeaderWith(old(disk)[layout.start], block[..n])]
      ensures trace == old(trace) + [disk]
      ensures cache == old(cache)[layout.start := disk[layout.start]]
    {
      ghost var blocks := block[..n];
      assert forall i :: 0 <= i < n ==> Home(layout, blocks[i]);
      var header := Bread(layout.start);
      assert header == disk[layout.start];
      header := header[0 := n];
      var i := 0;
      while i < n
        invariant 0 <= i <= n && |header| == layout.words
        invariant header == [n] + block[..i] + old(disk)[layout.start][i + 1..]
      {
        header := header[1 + i := block[i]];
        i := i + 1;
      }
      Bwrite(layout.start, header);
    }

    /** One turn of the install_trans loop. */
    method CopyHome(tail: nat)
      requires Sane() && tail < n && Coherent(cache, disk, block[tail..n])
      modifies this`disk, this`cache, this`trace
      ensures Sane() && Coherent(cache, disk, block[tail + 1..n])
      ensures disk == old(disk)[block[tail] := old(disk)[layout.start + tail + 1]] && trace == old(trace) + [disk]
    {
      ghost var blocks := block[..n];
      assert !Home(layout, layout.start + tail + 1) && Home(layout, blocks[tail]) && blocks[tail] == block[tail];
      var logged := Bread(layout.start + tail + 1);
      assert logged == disk[layout.start + tail + 1];
      var home := Bread(block[tail]);
      ghost var cache1, rest := cache, block[tail + 1..n];
      assert block[tail..n] == [block[tail]] + rest;
      Bwrite(block[tail], logged);
      CoherentHome(cache1, old(disk), rest, block[tail], logged);
      CoherentLess(cache, disk, blocks, rest);
    }

    /** install_trans: copy the logged blocks to their home locations. */
    method InstallTrans()
      requires Sane()
      modifies this`disk, this`cache, this`trace
      ensures Sane() && Coherent(cache, disk, [])
      ensures disk == Installed(layout, old(disk), block[..n], n) && |disk| == |old(disk)|
      ensures trace == old(trace) + InstallTrace(layout, old(disk), block[..n], n)[1..]
    {
      var tail := 0;
      ghost var d0, t0, blocks := disk, trace, block[..n];
      assert block[0..n] == blocks;
      while tail < n
        invariant 0 <= tail <= n && Sane() && blocks == block[..n]
        invariant disk == Installed(layout, d0, blocks, tail)
        invariant trace == t0 + InstallTrace(layout, d0, blocks, tail)[1..]
        invariant Coherent(cache, disk, block[tail..n])
      {
        InstallKeepsLog(layout, d0, blocks, tail, layout.start + tail + 1);
        CopyHome(tail);
        InstallTraceNext(layout, d0, blocks, tail);
        tail := tail + 1;
      }
    }

    /** read_head: load the recorded block numbers from the header block. */
    method ReadHead()
      requires ValidLayout(layout) && WellFormed(layout, disk) && block.Length == layout.cap && cache == map[]
      modifies this`n, this`cache, block
      ensures n == disk[layout.start][0] && block[..n] == disk[layout.start][1..1 + n]
      ensures Sane() && block[..n] == Recorded(layout, disk) && cache == map[layout.start := disk[layout.start]]
    {
      var header := Bread(layout.start);
      n := header[0];
      var i := 0;
      while i < n
        invariant 0 <= i <= n == header[0] && header == disk[layout.start]
        invariant block[..i] == header[1..1 + i] && cache == map[layout.start := disk[layout.start]]
        modifies block
      {
        block[i] := header[1 + i];
        i := i + 1;
      }
    }

    /** The part of commit after the commit point, and all of recovery: install, then clear the header. */
    method InstallAndClear()
      requires Sane() && WellFormed(layout, disk) && block[..n] == Recorded(layout, disk)
      modifies this
      ensures Sane() && n == 0 && Coherent(cache, disk, [])
      ensures disk == Finished(layout, old(disk))
      ensures trace == old(trace) + RecoveryTrace(layout, old(disk))[1..]
    {
      ghost var d, blocks := disk, block[..n];
      InstallTrans();
      InstallKeepsLog(layout, d, blocks, |blocks|, layout.start);
      n := 0;
      assert block[..0] == [];
      WriteHead();
      assert block[..0] == [];
      RecoveryTail(layout, d);
    }

    /** recover_from_log, run at boot on whatever a crash left: its writes are exactly RecoveryTrace. */
    method RecoverFromLog()
      requires WellFormed(layout, disk) && block.Length == layout.cap && cache == map[] && trace == [disk]
      modifies this, block
      ensures Sane() && n == 0
      ensures trace == RecoveryTrace(layout, old(disk)) && disk == Finished(layout, old(disk))
      ensures SameHome(layout, disk, Recovered(layout, old(disk)))
    {
      ReadHead();
      InstallAndClear();
      FinishedMeans(layout, old(disk));
      assert trace == RecoveryTrace(layout, old(disk));
    }

    /** commit of a non-empty transaction: its writes are exactly CommitTrace, and it ends quiet. */
    method Commit(ghost vals: seq<Data>)
      requires Sane() && Quiet(layout, disk) && trace == [disk] && Holds(cache, block[..n], vals)
      requires n > 0 ==> Transaction(layout, block[..n], vals)
      modifies this
      ensures Sane() && Quiet(layout, disk) && n == 0 && Coherent(cache, disk, [])
      ensures old(n) == 0 ==> disk == old(disk) && trace == old(trace)
      ensures old(n) > 0 ==>
                && trace == CommitTrace(layout, old(disk), old(block[..n]), vals)
                && IsPost(layout, old(disk), old(block[..n]), vals, disk)
    {
      if n > 0 {
        ghost var d, blocks := disk, block[..n];
        WriteLog(vals);
        WriteHead();
        CommittedMeans(layout, d, blocks, vals);
        InstallAndClear();
        CommitCompletes(layout, d, blocks, vals);
        CommitTraceParts(layout, d, blocks, vals);
      } else {
        assert block[..0] == [];
      }
    }
  }

  lemma {:induction false} RecoveryTail(l: Layout, d: Disk)
    requires WellFormed(l, d)
    ensures RecoveryTrace(l, d)[1..] == InstallTrace(l, d, Recorded(l, d), |Recorded(l, d)|)[1..] + [Finished(l, d)]
  {
  }

  lemma {:induction false} CommitTraceParts(l: Layout, d: Disk, blocks: seq<nat>, vals: seq<Data>)
    requires Quiet(l, d) && Transaction(l, blocks, vals) && WellFormed(l, Committed(l, d, blocks, vals))
    ensures [d] + LogTrace(l, d, vals, |vals|)[1..] + [Committed(l, d, blocks, vals)]
            + RecoveryTrace(l, Committed(l, d, blocks, vals))[1..] == CommitTrace(l, d, blocks, vals)
  {
  }
}
