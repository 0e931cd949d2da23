/**
 * The write-ahead log of kernel/log.c as disk states: what every single-block write of a commit or of a
 * recovery leaves on disk, and what a recovery started from there would do.
 * A block is a sequence of words; the header block holds the count n in word 0 and the
 * home block numbers in words 1..n.
 */
module WriteAheadLog {

  type Data = seq<nat>
  type Disk = seq<Data>

  /** Where the log lives: header block `start`, then `cap` log blocks; `words` words per block. */
  datatype Layout = Layout(start: nat, cap: nat, size: nat, words: nat)

  ghost predicate ValidLayout(l: Layout) {
    l.start + l.cap < l.size && l.cap + 1 <= l.words
  }

  /** A block outside the log area. */
  predicate Home(l: Layout, b: nat) {
    b < l.size && !(l.start <= b <= l.start + l.cap)
  }

  ghost predicate HomesOnly(l: Layout, blocks: seq<nat>) {
    |blocks| <= l.cap && forall i :: 0 <= i < |blocks| ==> Home(l, blocks[i])
  }

  /** The block numbers recorded in a header. */
  ghost function Recorded(l: Layout, d: Disk): seq<nat>
    requires WellFormed(l, d)
  {
    d[l.start][1..1 + d[l.start][0]]
  }

  /** A disk whose header is readable and names home blocks only. */
  ghost predicate WellFormed(l: Layout, d: Disk) {
    && ValidLayout(l) && |d| == l.size
    && |d[l.start]| == l.words && d[l.start][0] <= l.cap
    && HomesOnly(l, d[l.start][1..1 + d[l.start][0]])
  }

  /** The header block after write_head with these blocks: later words keep their old contents. */
  ghost function HeaderWith(header: Data, blocks: seq<nat>): (h: Data)
    requires |blocks| + 1 <= |header|
    ensures |h| == |header| && h[0] == |blocks| && h[1..1 + |blocks|] == blocks
  {
    [|blocks|] + blocks + header[|blocks| + 1..]
  }

  ghost predicate SameHome(l: Layout, d: Disk, e: Disk) {
    |d| == |e| == l.size && forall b :: 0 <= b < l.size && Home(l, b) ==> d[b] == e[b]
  }

  // ----- the disk states of install_trans, write_log and write_head -------------------

  /** The first t logged blocks copied to their home locations. */
  ghost function Installed(l: Layout, d: Disk, blocks: seq<nat>, t: nat): (r: Disk)
    requires |d| == l.size && ValidLayout(l) && HomesOnly(l, blocks) && t <= |blocks|
    ensures |r| == |d|
  {
    if t == 0 then d else Installed(l, d, blocks, t - 1)[blocks[t - 1] := d[l.start + t]]
  }

  /** The first t new contents copied into the log. */
  ghost function Logged(l: Layout, d: Disk, vals: seq<Data>, t: nat): (r: Disk)
    requires |d| == l.size && ValidLayout(l) && t <= |vals| <= l.cap
    ensures |r| == |d|
  {
    if t == 0 then d else Logged(l, d, vals, t - 1)[l.start + t := vals[t - 1]]
  }

  /** What a completed recovery makes of the home blocks of d. */
  ghost function Recovered(l: Layout, d: Disk): Disk
    requires WellFormed(l, d)
  {
    Installed(l, d, Recorded(l, d), |Recorded(l, d)|)
  }

  // ----- what installing does ------------------------------------------------------------

  /** Content of home block b after t installs: the last logged copy of b, if any. */
  ghost function ValueAt(l: Layout, d: Disk, blocks: seq<nat>, t: nat, b: nat): Data
    requires |d| == l.size && ValidLayout(l) && HomesOnly(l, blocks) && t <= |blocks| && b < l.size
  {
    if t == 0 then d[b]
    else if blocks[t - 1] == b then d[l.start + t]
    else ValueAt(l, d, blocks, t - 1, b)
  }

  lemma {:induction false} InstalledAt(l: Layout, d: Disk, blocks: seq<nat>, t: nat, b: nat)
    requires |d| == l.size && ValidLayout(l) && HomesOnly(l, blocks) && t <= |blocks| && b < l.size
    ensures Installed(l, d, blocks, t)[b] == ValueAt(l, d, blocks, t, b)
  {
    if t > 0 { InstalledAt(l, d, blocks, t - 1, b); }
  }

  /** The log area, header included, is never touched by installing. */
  lemma {:induction false} InstallKeepsLog(l: Layout, d: Disk, blocks: seq<nat>, t: nat, b: nat)
    requires |d| == l.size && ValidLayout(l) && HomesOnly(l, blocks) && t <= |blocks|
    requires l.start <= b <= l.start + l.cap
    ensures Installed(l, d, blocks, t)[b] == d[b]
  {
    if t > 0 {
      InstallKeepsLog(l, d, blocks, t - 1, b);
      assert Home(l, blocks[t - 1]);
    }
  }

  /** Values depend only on the log area and on the home block itself if it is not logged. */
  lemma {:induction false} ValueSame(l: Layout, d: Disk, e: Disk, blocks: seq<nat>, t: nat, b: nat)
    requires |d| == |e| == l.size && ValidLayout(l) && HomesOnly(l, blocks) && t <= |blocks| && b < l.size
    requires forall i :: l.start < i <= l.start + l.cap ==> d[i] == e[i]
    requires d[b] == e[b] || b in blocks[..t]
    ensures ValueAt(l, d, blocks, t, b) == ValueAt(l, e, blocks, t, b)
  {
    if t > 0 && blocks[t - 1] != b {
      assert blocks[..t] == blocks[..t - 1] + [blocks[t - 1]];
      ValueSame(l, d, e, blocks, t - 1, b);
    }
  }

  lemma {:induction false} NotInstalled(l: Layout, d: Disk, blocks: seq<nat>, t: nat, b: nat)
    requires |d| == l.size && ValidLayout(l) && HomesOnly(l, blocks) && t <= |blocks| && b < l.size
    requires b !in blocks[..t]
    ensures ValueAt(l, d, blocks, t, b) == d[b]
  {
    if t > 0 {
      assert blocks[..t] == blocks[..t - 1] + [blocks[t - 1]];
      NotInstalled(l, d, blocks, t - 1, b);
    }
  }

  /** Where the installed blocks come from: the last log block recorded for each. */
  lemma {:induction false} InstalledHomes(l: Layout, d: Disk, blocks: seq<nat>)
    requires |d| == l.size && ValidLayout(l) && HomesOnly(l, blocks)
    ensures forall b :: 0 <= b < |d| && b !in blocks ==> Installed(l, d, blocks, |blocks|)[b] == d[b]
    ensures forall i :: 0 <= i < |blocks| && blocks[i] !in blocks[i + 1..] ==>
              blocks[i] < |d| && Installed(l, d, blocks, |blocks|)[blocks[i]] == d[l.start + 1 + i]
  {
    var n := |blocks|;
    assert blocks[..n] == blocks;
    forall b | 0 <= b < |d| && b !in blocks ensures Installed(l, d, blocks, n)[b] == d[b] {
      InstalledAt(l, d, blocks, n, b);
      NotInstalled(l, d, blocks, n, b);
    }
    forall i | 0 <= i < n && blocks[i] !in blocks[i + 1..]
      ensures blocks[i] < |d| && Installed(l, d, blocks, n)[blocks[i]] == d[l.start + 1 + i]
    {
      assert Home(l, blocks[i]);
      InstalledAt(l, d, blocks, n, blocks[i]);
      FromLast(l, d, blocks, n, i);
    }
  }

  lemma {:induction false} FromLast(l: Layout, d: Disk, blocks: seq<nat>, t: nat, i: nat)
    requires |d| == l.size && ValidLayout(l) && HomesOnly(l, blocks) && i < t <= |blocks| && blocks[i] < l.size
    requires blocks[i] !in blocks[i + 1..]
    ensures ValueAt(l, d, blocks, t, blocks[i]) == d[l.start + 1 + i]
  {
    if i < t - 1 {
      assert blocks[t - 1] in blocks[i + 1..];
      FromLast(l, d, blocks, t - 1, i);
    }
  }

  /** Interrupted installs are harmless: a recovery from any partial install ends where one from d ends. */
  lemma {:induction false} PartialInstall(l: Layout, d: Disk, t: nat)
    requires WellFormed(l, d) && t <= |Recorded(l, d)|
    ensures var e := Installed(l, d, Recorded(l, d), t);
            WellFormed(l, e) && Recorded(l, e) == Recorded(l, d) && SameHome(l, Recovered(l, e), Recovered(l, d))
  {
    var blocks := Recorded(l, d);
    var e := Installed(l, d, blocks, t);
    InstallKeepsLog(l, d, blocks, t, l.start);
    forall i | l.start < i <= l.start + l.cap ensures d[i] == e[i] { InstallKeepsLog(l, d, blocks, t, i); }
    forall b | 0 <= b < l.size && Home(l, b) ensures Recovered(l, e)[b] == Recovered(l, d)[b] {
      var n := |blocks|;
      InstalledAt(l, d, blocks, n, b);
      InstalledAt(l, e, blocks, n, b);
      InstalledAt(l, d, blocks, t, b);
      if b !in blocks[..n] {
        assert b !in blocks[..t];
        NotInstalled(l, d, blocks, t, b);
      }
      ValueSame(l, d, e, blocks, n, b);
    }
  }

  /** With an empty header there is nothing to recover. */
  lemma {:induction false} NothingRecorded(l: Layout, d: Disk)
    requires ValidLayout(l) && |d| == l.size && |d[l.start]| == l.words && d[l.start][0] == 0
    ensures WellFormed(l, d) && Recovered(l, d) == d
  {
    assert d[l.start][1..1] == [];
  }

  // ----- recovery ----------------------------------------------------------------------------

  ghost function Cleared(l: Layout, d: Disk): (r: Disk)
    requires ValidLayout(l) && |d| == l.size && |d[l.start]| == l.words
    ensures |r| == |d|
  {
    d[l.start := HeaderWith(d[l.start], [])]
  }

  /** All disk states of recover_from_log started on d: after each of its block writes, in order. */
  ghost function RecoveryTrace(l: Layout, d: Disk): (tr: seq<Disk>)
    requires WellFormed(l, d)
    ensures |tr| == |Recorded(l, d)| + 2
    ensures tr[0] == d
  {
    InstallTrace(l, d, Recorded(l, d), |Recorded(l, d)|) + [Finished(l, d)]
  }

  ghost function InstallTrace(l: Layout, d: Disk, blocks: seq<nat>, t: nat): (tr: seq<Disk>)
    requires |d| == l.size && ValidLayout(l) && HomesOnly(l, blocks) && t <= |blocks|
    ensures |tr| == t + 1 && forall k :: 0 <= k <= t ==> tr[k] == Installed(l, d, blocks, k)
  {
    if t == 0 then [d] else InstallTrace(l, d, blocks, t - 1) + [Installed(l, d, blocks, t)]
  }

  /** The disk after a completed recovery. */
  ghost function Finished(l: Layout, d: Disk): (r: Disk)
    requires WellFormed(l, d)
    ensures |r| == |d|
  {
    InstallKeepsLog(l, d, Recorded(l, d), |Recorded(l, d)|, l.start);
    Cleared(l, Recovered(l, d))
  }

  lemma {:induction false} FinishedMeans(l: Layout, d: Disk)
    requires WellFormed(l, d)
    ensures WellFormed(l, Finished(l, d)) && Recorded(l, Finished(l, d)) == []
    ensures SameHome(l, Finished(l, d), Recovered(l, d))
    ensures Recovered(l, Finished(l, d)) == Finished(l, d)
  {
    InstallKeepsLog(l, d, Recorded(l, d), |Recorded(l, d)|, l.start);
    NothingRecorded(l, Finished(l, d));
    assert Finished(l, d)[l.start][1..1] == [];
  }

  /** A crash at any point of a recovery does not change what a later recovery would produce. */
  lemma {:induction false} RecoveryCrash(l: Layout, d: Disk, c: nat)
    requires WellFormed(l, d) && c < |RecoveryTrace(l, d)|
    ensures var e := RecoveryTrace(l, d)[c];
            WellFormed(l, e) && SameHome(l, Recovered(l, e), Recovered(l, d))
  {
    if c <= |Recorded(l, d)| {
      PartialInstall(l, d, c);
    } else {
      FinishedMeans(l, d);
    }
  }

  /** Any number of recoveries, each crashing after some write (positions taken modulo the trace). */
  ghost function AfterCrashes(l: Layout, d: Disk, crashes: seq<nat>): (r: Disk)
    requires WellFormed(l, d)
    ensures WellFormed(l, r)
    decreases |crashes|
  {
    if crashes == [] then d
    else
      var c := crashes[0] % |RecoveryTrace(l, d)|;
      RecoveryCrash(l, d, c);
      AfterCrashes(l, RecoveryTrace(l, d)[c], crashes[1..])
  }

  lemma {:induction false} CrashesKeepRecovered(l: Layout, d: Disk, crashes: seq<nat>)
    requires WellFormed(l, d)
    ensures SameHome(l, Recovered(l, AfterCrashes(l, d, crashes)), Recovered(l, d))
    decreases |crashes|
  {
    if crashes != [] {
      var c := crashes[0] % |RecoveryTrace(l, d)|;
      RecoveryCrash(l, d, c);
      CrashesKeepRecovered(l, RecoveryTrace(l, d)[c], crashes[1..]);
    }
  }

  /** Reboot: any number of interrupted recoveries and then one that completes. */
  ghost function Rebooted(l: Layout, d: Disk, crashes: seq<nat>): Disk
    requires WellFormed(l, d)
  {
    Finished(l, AfterCrashes(l, d, crashes))
  }

  // ----- commit ---------------------------------------------------------------------------------

  /** A transaction: distinct home blocks and their new contents. */
  ghost predicate Transaction(l: Layout, blocks: seq<nat>, vals: seq<Data>) {
    && HomesOnly(l, blocks) && |vals| == |blocks| && |blocks| > 0
    && forall i, j :: 0 <= i < j < |blocks| ==> blocks[i] != blocks[j]
  }

  /** A disk between transactions. */
  ghost predicate Quiet(l: Layout, d: Disk) {
    ValidLayout(l) && |d| == l.size && |d[l.start]| == l.words && d[l.start][0] == 0
  }

  /** The home blocks after the transaction: the new contents where logged, the old ones elsewhere. */
  ghost predicate IsPost(l: Layout, d: Disk, blocks: seq<nat>, vals: seq<Data>, e: Disk)
    requires Transaction(l, blocks, vals) && |d| == l.size
  {
    && |e| == l.size
    && (forall i :: 0 <= i < |blocks| ==> e[blocks[i]] == vals[i])
    && (forall b :: 0 <= b < l.size && Home(l, b) && b !in blocks ==> e[b] == d[b])
  }

  /** The disk right after the first write_head: the commit point. */
  ghost function Committed(l: Layout, d: Disk, blocks: seq<nat>, vals: seq<Data>): (r: Disk)
    requires Quiet(l, d) && Transaction(l, blocks, vals)
    ensures |r| == |d|
  {
    var e := Logged(l, d, vals, |vals|);
    LoggedKeeps(l, d, vals, |vals|, l.start);
    e[l.start := HeaderWith(e[l.start], blocks)]
  }

  /** All disk states of commit(), after each of its block writes, in order. */
  ghost function CommitTrace(l: Layout, d: Disk, blocks: seq<nat>, vals: seq<Data>): (tr: seq<Disk>)
    requires Quiet(l, d) && Transaction(l, blocks, vals)
    ensures |tr| == |LogTrace(l, d, vals, |vals|)| + |blocks| + 2
  {
    CommittedMeans(l, d, blocks, vals);
    LogTrace(l, d, vals, |vals|) + RecoveryTrace(l, Committed(l, d, blocks, vals))
  }

  ghost function LogTrace(l: Layout, d: Disk, vals: seq<Data>, t: nat): (tr: seq<Disk>)
    requires |d| == l.size && ValidLayout(l) && t <= |vals| <= l.cap
    ensures |tr| == t + 1 && forall k :: 0 <= k <= t ==> tr[k] == Logged(l, d, vals, k)
  {
    if t == 0 then [d] else LogTrace(l, d, vals, t - 1) + [Logged(l, d, vals, t)]
  }

  lemma {:induction false} LoggedKeeps(l: Layout, d: Disk, vals: seq<Data>, t: nat, b: nat)
    requires |d| == l.size && ValidLayout(l) && t <= |vals| <= l.cap && b < l.size
    requires Home(l, b) || b == l.start
    ensures Logged(l, d, vals, t)[b] == d[b]
  {
    if t > 0 { LoggedKeeps(l, d, vals, t - 1, b); }
  }

  lemma {:induction false} LoggedAt(l: Layout, d: Disk, vals: seq<Data>, t: nat, i: nat)
    requires |d| == l.size && ValidLayout(l) && i < t <= |vals| <= l.cap
    ensures Logged(l, d, vals, t)[l.start + 1 + i] == vals[i]
  {
    if i < t - 1 { LoggedAt(l, d, vals, t - 1, i); }
  }

  /** write_log puts the t-th contents into the t-th log block, and changes nothing else. */
  lemma {:induction false} LoggedIs(l: Layout, d: Disk, vals: seq<Data>, t: nat, b: nat)
    requires |d| == l.size && ValidLayout(l) && t <= |vals| <= l.cap && b < l.size
    ensures Logged(l, d, vals, t)[b] == if l.start < b <= l.start + t then vals[b - l.start - 1] else d[b]
  {
    if t > 0 { LoggedIs(l, d, vals, t - 1, b); }
  }

  lemma {:induction false} CommittedMeans(l: Layout, d: Disk, blocks: seq<nat>, vals: seq<Data>)
    requires Quiet(l, d) && Transaction(l, blocks, vals)
    ensures WellFormed(l, Committed(l, d, blocks, vals))
    ensures Recorded(l, Committed(l, d, blocks, vals)) == blocks
  {
    var c := Committed(l, d, blocks, vals);
    LoggedKeeps(l, d, vals, |vals|, l.start);
    assert c[l.start][1..1 + |blocks|] == blocks;
  }

  /** From the commit point on, recovery produces exactly the post-transaction blocks. */
  lemma {:induction false} CommittedIsPost(l: Layout, d: Disk, blocks: seq<nat>, vals: seq<Data>)
    requires Quiet(l, d) && Transaction(l, blocks, vals)
    ensures WellFormed(l, Committed(l, d, blocks, vals))
    ensures IsPost(l, d, blocks, vals, Recovered(l, Committed(l, d, blocks, vals)))
  {
    CommittedMeans(l, d, blocks, vals);
    var c, n := Committed(l, d, blocks, vals), |blocks|;
    forall i | 0 <= i < n ensures Recovered(l, c)[blocks[i]] == vals[i] {
      assert Home(l, blocks[i]);
      InstalledAt(l, c, blocks, n, blocks[i]);
      LastCopy(l, c, blocks, n, i);
      LoggedAt(l, d, vals, n, i);
    }
    forall b | 0 <= b < l.size && Home(l, b) && b !in blocks ensures Recovered(l, c)[b] == d[b] {
      InstalledAt(l, c, blocks, n, b);
      assert blocks[..n] == blocks;
      NotInstalled(l, c, blocks, n, b);
      LoggedKeeps(l, d, vals, n, b);
    }
  }

  lemma {:induction false} LastCopy(l: Layout, d: Disk, blocks: seq<nat>, t: nat, i: nat)
    requires |d| == l.size && ValidLayout(l) && HomesOnly(l, blocks) && i < t <= |blocks| && blocks[i] < l.size
    requires forall i, j :: 0 <= i < j < |blocks| ==> blocks[i] != blocks[j]
    ensures ValueAt(l, d, blocks, t, blocks[i]) == d[l.start + 1 + i]
  {
    if i < t - 1 { LastCopy(l, d, blocks, t - 1, i); }
  }

  /** Before the commit point, recovery leaves the old blocks. */
  lemma {:induction false} LoggedIsPre(l: Layout, d: Disk, vals: seq<Data>, t: nat)
    requires Quiet(l, d) && t <= |vals| <= l.cap
    ensures WellFormed(l, Logged(l, d, vals, t))
    ensures SameHome(l, Recovered(l, Logged(l, d, vals, t)), d)
  {
    LoggedKeeps(l, d, vals, t, l.start);
    NothingRecorded(l, Logged(l, d, vals, t));
    forall b | 0 <= b < l.size && Home(l, b) ensures Logged(l, d, vals, t)[b] == d[b] { LoggedKeeps(l, d, vals, t, b); }
  }

  /**
   * Crash atomicity. Crash a commit after any of its writes, crash any number of recoveries after any
   * of theirs, then let one complete: the home blocks are exactly the old ones if the crash came before
   * the first header write, and exactly the new ones from that write on.
   */
  lemma {:induction false} CrashAtomicity(
    l: Layout, d: Disk, blocks: seq<nat>, vals: seq<Data>, c: nat, crashes: seq<nat>)
    requires Quiet(l, d) && Transaction(l, blocks, vals) && c < |CommitTrace(l, d, blocks, vals)|
    ensures var e := CommitTrace(l, d, blocks, vals)[c];
            && WellFormed(l, e)
            && (c <= |blocks| ==> SameHome(l, Rebooted(l, e, crashes), d))
            && (c > |blocks| ==> IsPost(l, d, blocks, vals, Rebooted(l, e, crashes)))
            && Quiet(l, Rebooted(l, e, crashes))
  {
    var e := CommitTrace(l, d, blocks, vals)[c];
    if c <= |blocks| {
      LoggedIsPre(l, d, vals, c);
    } else {
      CommittedIsPost(l, d, blocks, vals);
      RecoveryCrash(l, Committed(l, d, blocks, vals), c - |blocks| - 1);
      SameIsPost(l, d, blocks, vals, Recovered(l, Committed(l, d, blocks, vals)), Recovered(l, e));
    }
    CrashesKeepRecovered(l, e, crashes);
    FinishedMeans(l, AfterCrashes(l, e, crashes));
    if c > |blocks| {
      SameIsPost(l, d, blocks, vals, Recovered(l, e), Rebooted(l, e, crashes));
    }
  }

  lemma {:induction false} SameIsPost(l: Layout, d: Disk, blocks: seq<nat>, vals: seq<Data>, e: Disk, f: Disk)
    requires Transaction(l, blocks, vals) && |d| == l.size && IsPost(l, d, blocks, vals, e)
    requires SameHome(l, e, f) || SameHome(l, f, e)
    ensures IsPost(l, d, blocks, vals, f)
  {
    forall i | 0 <= i < |blocks| ensures f[blocks[i]] == vals[i] { assert Home(l, blocks[i]); }
  }

  /** A commit that is not interrupted ends quiet, with the new contents at home. */
  lemma {:induction false} CommitCompletes(l: Layout, d: Disk, blocks: seq<nat>, vals: seq<Data>)
    requires Quiet(l, d) && Transaction(l, blocks, vals)
    ensures var tr := CommitTrace(l, d, blocks, vals);
            var e := tr[|tr| - 1];
            Quiet(l, e) && IsPost(l, d, blocks, vals, e)
  {
    CommittedMeans(l, d, blocks, vals);
    CommittedIsPost(l, d, blocks, vals);
    var c := Committed(l, d, blocks, vals);
    FinishedMeans(l, c);
    SameIsPost(l, d, blocks, vals, Recovered(l, c), Finished(l, c));
  }

  // ----- whole histories ------------------------------------------------------------------------

  /**
   * A commit that runs to its end, or one cut short after its c-th disk state, followed by interrupted
   * recoveries and one that completes.
   */
  datatype Event =
    | Done(blocks: seq<nat>, vals: seq<Data>)
    | Cut(blocks: seq<nat>, vals: seq<Data>, c: nat, crashes: seq<nat>)

  /** A transaction, cut at one of the 2n + 3 disk states its commit goes through. */
  ghost predicate Possible(l: Layout, ev: Event) {
    Transaction(l, ev.blocks, ev.vals) && (ev.Cut? ==> ev.c < 2 * |ev.blocks| + 3)
  }

  ghost predicate AllPossible(l: Layout, evs: seq<Event>) {
    forall k :: 0 <= k < |evs| ==> Possible(l, evs[k])
  }

  /** Whether the event's transaction reached its commit point. */
  predicate Durable(ev: Event) {
    ev.Done? || ev.c > |ev.blocks|
  }

  ghost function After(l: Layout, d: Disk, ev: Event): (r: Disk)
    requires Quiet(l, d) && Possible(l, ev)
    ensures Quiet(l, r)
  {
    var tr := CommitTrace(l, d, ev.blocks, ev.vals);
    if ev.Done? then
      CommitCompletes(l, d, ev.blocks, ev.vals);
      tr[|tr| - 1]
    else
      CrashAtomicity(l, d, ev.blocks, ev.vals, ev.c, ev.crashes);
      Rebooted(l, tr[ev.c], ev.crashes)
  }

  ghost function AfterAll(l: Layout, d: Disk, evs: seq<Event>): (r: Disk)
    requires Quiet(l, d) && AllPossible(l, evs)
    ensures Quiet(l, r)
  {
    if evs == [] then d
    else
      var n := |evs| - 1;
      After(l, AfterAll(l, d, evs[..n]), evs[n])
  }

  /** Some durable event from the k-th on stores block b. */
  ghost predicate StoredFrom(evs: seq<Event>, k: nat, b: nat) {
    exists j :: k <= j < |evs| && Durable(evs[j]) && b in evs[j].blocks
  }

  /** The k-th event is durable and the last to store its i-th block. */
  ghost predicate StoredLast(evs: seq<Event>, k: nat, i: nat)
    requires k < |evs| && i < |evs[k].blocks|
  {
    Durable(evs[k]) && !StoredFrom(evs, k + 1, evs[k].blocks[i])
  }

  /** Every home block of e holds what the last durable event to store it wrote, or else what d had. */
  ghost predicate LastStores(l: Layout, d: Disk, evs: seq<Event>, e: Disk)
    requires AllPossible(l, evs) && |d| == |e| == l.size
  {
    && (forall k, i :: 0 <= k < |evs| && 0 <= i < |evs[k].blocks| && StoredLast(evs, k, i) ==> LastAt(l, evs, e, k, i))
    && (forall b :: 0 <= b < l.size && Home(l, b) && !StoredFrom(evs, 0, b) ==> e[b] == d[b])
  }

  ghost predicate LastAt(l: Layout, evs: seq<Event>, e: Disk, k: nat, i: nat)
    requires AllPossible(l, evs) && |e| == l.size && k < |evs| && i < |evs[k].blocks|
  {
    Possible(l, evs[k]) && Home(l, evs[k].blocks[i]) && e[evs[k].blocks[i]] == evs[k].vals[i]
  }

  lemma {:induction false} OneEvent(l: Layout, d: Disk, ev: Event)
    requires Quiet(l, d) && Possible(l, ev)
    ensures Durable(ev) ==> IsPost(l, d, ev.blocks, ev.vals, After(l, d, ev))
    ensures !Durable(ev) ==> SameHome(l, After(l, d, ev), d)
  {
    if ev.Done? {
      CommitCompletes(l, d, ev.blocks, ev.vals);
    } else {
      CrashAtomicity(l, d, ev.blocks, ev.vals, ev.c, ev.crashes);
    }
  }

  /**
   * Durability over any history of commits, crashes and interrupted recoveries: a block holds what the
   * last transaction to reach its commit point stored there, and no other transaction leaves a trace.
   */
  lemma {:induction false} HistoryDurable(l: Layout, d: Disk, evs: seq<Event>)
    requires Quiet(l, d) && AllPossible(l, evs)
    ensures LastStores(l, d, evs, AfterAll(l, d, evs))
    decreases |evs|
  {
    if evs != [] {
      var n := |evs| - 1;
      var past := evs[..n];
      HistoryDurable(l, d, past);
      var mid := AfterAll(l, d, past);
      OneEvent(l, mid, evs[n]);
      OneMoreEvent(l, d, evs, mid, AfterAll(l, d, evs));
    }
  }

  lemma {:induction false} OneMoreEvent(l: Layout, d: Disk, evs: seq<Event>, mid: Disk, e: Disk)
    requires AllPossible(l, evs) && evs != [] && |d| == |mid| == |e| == l.size
    requires LastStores(l, d, evs[..|evs| - 1], mid)
    requires var ev := evs[|evs| - 1];
             && (Durable(ev) ==> IsPost(l, mid, ev.blocks, ev.vals, e))
             && (!Durable(ev) ==> SameHome(l, e, mid))
    ensures LastStores(l, d, evs, e)
  {
    var n := |evs| - 1;
    var past, ev := evs[..n], evs[n];
    forall k, i | 0 <= k < |evs| && 0 <= i < |evs[k].blocks| && StoredLast(evs, k, i)
      ensures LastAt(l, evs, e, k, i)
    {
      assert Possible(l, evs[k]);
      var b := evs[k].blocks[i];
      assert Home(l, b);
      if k < n {
        NotStoredBefore(evs, k + 1, b);
        assert past[k] == evs[k];
        assert StoredLast(past, k, i);
        assert LastAt(l, past, mid, k, i);
      }
    }
    forall b | 0 <= b < l.size && Home(l, b) && !StoredFrom(evs, 0, b) ensures e[b] == d[b] {
      NotStoredBefore(evs, 0, b);
    }
  }

  lemma {:induction false} NotStoredBefore(evs: seq<Event>, k: nat, b: nat)
    requires k < |evs| && !StoredFrom(evs, k, b)
    ensures !StoredFrom(evs[..|evs| - 1], k, b)
    ensures Durable(evs[|evs| - 1]) ==> b !in evs[|evs| - 1].blocks
  {
    var past := evs[..|evs| - 1];
    forall j | k <= j < |past| ensures Durable(past[j]) ==> b !in past[j].blocks { assert past[j] == evs[j]; }
  }
}
