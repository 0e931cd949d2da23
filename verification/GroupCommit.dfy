/**
 * begin_op, log_write and end_op of kernel/log.c as atomic steps (each runs under log.lock), in every
 * interleaving, with one slot per process and a budget of MAXOPBLOCKS new blocks per operation.
 */
module GroupCommit {
  import WriteAheadLog

  const MAXOPBLOCKS: nat := 10
  const LOGSIZE: nat := 3 * MAXOPBLOCKS

  /** A process outside any operation, or inside one with `left` new blocks still allowed. */
  datatype Slot = Idle | Active(left: nat)

  /** lh.block[0..n], outstanding, committing, and who is inside an operation. */
  datatype State = State(blocks: seq<nat>, outstanding: nat, committing: bool, procs: seq<Slot>)

  datatype Step = Begin(p: nat) | Write(p: nat, b: nat) | End(p: nat) | Done

  datatype Outcome = Next(s: State) | Sleep | Panic

  // ----- the code --------------------------------------------------------------------------

  function AfterBegin(s: State, p: nat): Outcome
    requires p < |s.procs|
  {
    if s.committing then Sleep
    else if |s.blocks| + (s.outstanding + 1) * MAXOPBLOCKS > LOGSIZE then Sleep
    else Next(s.(outstanding := s.outstanding + 1, procs := s.procs[p := Active(MAXOPBLOCKS)]))
  }

  function AfterWrite(s: State, logSize: nat, p: nat, b: nat): Outcome
    requires p < |s.procs| && s.procs[p].Active? && (b !in s.blocks ==> s.procs[p].left > 0)
  {
    if |s.blocks| >= LOGSIZE || |s.blocks| >= logSize - 1 then Panic
    else if s.outstanding < 1 then Panic
    else if b in s.blocks then Next(s)
    else Next(s.(blocks := s.blocks + [b], procs := s.procs[p := Active(s.procs[p].left - 1)]))
  }

  function AfterEnd(s: State, p: nat): Outcome
    requires p < |s.procs| && s.outstanding > 0
  {
    if s.committing then Panic
    else Next(s.(outstanding := s.outstanding - 1, committing := s.outstanding == 1, procs := s.procs[p := Idle]))
  }

  /** The end of commit(), run by the process whose end_op started it. */
  function AfterCommit(s: State): Outcome {
    Next(s.(blocks := [], committing := false))
  }

  /** What processes may attempt: operations are bracketed, and new blocks stay within the budget. */
  predicate Enabled(s: State, step: Step) {
    match step
    case Begin(p) => p < |s.procs| && s.procs[p].Idle?
    case Write(p, b) => p < |s.procs| && s.procs[p].Active? && (b !in s.blocks ==> s.procs[p].left > 0)
    case End(p) => p < |s.procs| && s.procs[p].Active? && s.outstanding > 0
    case Done => s.committing
  }

  function Apply(s: State, logSize: nat, step: Step): Outcome
    requires Enabled(s, step)
  {
    match step
    case Begin(p) => AfterBegin(s, p)
    case Write(p, b) => AfterWrite(s, logSize, p, b)
    case End(p) => AfterEnd(s, p)
    case Done => AfterCommit(s)
  }

  // ----- the invariant -----------------------------------------------------------------------

  ghost function Budget(procs: seq<Slot>): nat {
    if procs == [] then 0 else (if procs[0].Active? then procs[0].left else 0) + Budget(procs[1..])
  }

  ghost function ActiveCount(procs: seq<Slot>): nat {
    if procs == [] then 0 else (if procs[0].Active? then 1 else 0) + ActiveCount(procs[1..])
  }

  ghost predicate Distinct(blocks: seq<nat>) {
    forall i, j :: 0 <= i < j < |blocks| ==> blocks[i] != blocks[j]
  }

  ghost predicate Inv(s: State) {
    && s.outstanding == ActiveCount(s.procs)
    && (s.committing ==> s.outstanding == 0)
    && Distinct(s.blocks)
    && |s.blocks| + Budget(s.procs) <= LOGSIZE
    && Budget(s.procs) <= s.outstanding * MAXOPBLOCKS
    && forall p :: 0 <= p < |s.procs| && s.procs[p].Active? ==> s.procs[p].left <= MAXOPBLOCKS
  }

  function Init(nproc: nat): State {
    State([], 0, false, seq(nproc, p => Idle))
  }

  lemma {:induction false} InitInv(nproc: nat)
    ensures Inv(Init(nproc))
  {
    AllIdle(Init(nproc).procs);
  }

  lemma {:induction false} AllIdle(procs: seq<Slot>)
    requires forall p :: 0 <= p < |procs| ==> procs[p].Idle?
    ensures Budget(procs) == 0 && ActiveCount(procs) == 0
  {
    if procs != [] { AllIdle(procs[1..]); }
  }

  /** Changing one slot moves both sums by the change in that slot. */
  lemma {:induction false} SlotChange(procs: seq<Slot>, p: nat, v: Slot)
    requires p < |procs|
    ensures Budget(procs[p := v]) == Budget(procs)
              - (if procs[p].Active? then procs[p].left else 0) + (if v.Active? then v.left else 0)
    ensures ActiveCount(procs[p := v]) == ActiveCount(procs)
              - (if procs[p].Active? then 1 else 0) + (if v.Active? then 1 else 0)
  {
    if p == 0 {
      assert procs[0 := v][1..] == procs[1..];
    } else {
      SlotChange(procs[1..], p - 1, v);
      assert procs[p := v][1..] == procs[1..][p - 1 := v];
    }
  }

  lemma {:induction false} Bounded(procs: seq<Slot>)
    requires forall p :: 0 <= p < |procs| && procs[p].Active? ==> procs[p].left <= MAXOPBLOCKS
    ensures Budget(procs) <= ActiveCount(procs) * MAXOPBLOCKS
  {
    if procs != [] {
      forall p | 0 <= p < |procs[1..]| && procs[1..][p].Active? ensures procs[1..][p].left <= MAXOPBLOCKS {
        assert procs[1..][p] == procs[p + 1];
      }
      Bounded(procs[1..]);
    }
  }

  /** Every step that is not refused keeps the invariant. */
  lemma {:induction false} StepKeepsInv(s: State, logSize: nat, step: Step)
    requires Inv(s) && Enabled(s, step)
    ensures Apply(s, logSize, step).Next? ==> Inv(Apply(s, logSize, step).s)
  {
    var o := Apply(s, logSize, step);
    match step
    case Begin(p) =>
      SlotChange(s.procs, p, Active(MAXOPBLOCKS));
    case Write(p, b) =>
      if b !in s.blocks && o.Next? {
        SlotChange(s.procs, p, Active(s.procs[p].left - 1));
      }
    case End(p) =>
      SlotChange(s.procs, p, Idle);
      if o.Next? { Bounded(o.s.procs); }
    case Done =>
  }

  /** t is reached from s by these steps; a process that is put to sleep tries again later. */
  ghost predicate Path(s: State, logSize: nat, steps: seq<Step>, t: State)
    decreases |steps|
  {
    if steps == [] then s == t
    else
      && Enabled(s, steps[0])
      && match Apply(s, logSize, steps[0])
         case Next(s') => Path(s', logSize, steps[1..], t)
         case Sleep => Path(s, logSize, steps[1..], t)
         case Panic => false
  }

  /** Every reachable state of every interleaving satisfies the invariant. */
  lemma {:induction false} PathKeepsInv(s: State, logSize: nat, steps: seq<Step>, t: State)
    requires Inv(s) && Path(s, logSize, steps, t)
    ensures Inv(t)
    decreases |steps|
  {
    if steps != [] {
      StepKeepsInv(s, logSize, steps[0]);
      match Apply(s, logSize, steps[0])
      case Next(s') => PathKeepsInv(s', logSize, steps[1..], t);
      case Sleep => PathKeepsInv(s, logSize, steps[1..], t);
      case Panic =>
    }
  }

  // ----- what the log holds ------------------------------------------------------------------------

  ghost predicate NoneDone(steps: seq<Step>, k: nat) { forall j :: k <= j < |steps| ==> !steps[j].Done? }

  /** Step k writes block b, and no commit ends after it. */
  ghost predicate WrittenAt(steps: seq<Step>, k: nat, b: nat) {
    k < |steps| && steps[k].Write? && steps[k].b == b && NoneDone(steps, k + 1)
  }

  ghost predicate WrittenSince(steps: seq<Step>, b: nat) { exists k: nat :: WrittenAt(steps, k, b) }

  /**
   * In every interleaving the log holds exactly the blocks written since the last commit ended. In particular a
   * commit that starts in t is handed every block of every operation it covers, and the log is empty after it.
   */
  lemma {:induction false} LogHoldsWrites(nproc: nat, logSize: nat, steps: seq<Step>, t: State, b: nat)
    requires Path(Init(nproc), logSize, steps, t)
    ensures b in t.blocks <==> WrittenSince(steps, b)
  {
    LogFrom(Init(nproc), logSize, steps, t, b);
  }

  lemma {:induction false} LogFrom(s: State, logSize: nat, steps: seq<Step>, t: State, b: nat)
    requires Path(s, logSize, steps, t)
    ensures b in t.blocks <==> WrittenSince(steps, b) || (b in s.blocks && NoneDone(steps, 0))
    decreases |steps|
  {
    if steps != [] {
      var rest := steps[1..];
      WrittenFirst(steps, b);
      match Apply(s, logSize, steps[0])
      case Next(s') => LogFrom(s', logSize, rest, t, b);
      case Sleep => LogFrom(s, logSize, rest, t, b);
      case Panic =>
    }
  }

  /** The first step of a path counts if it is a write of b and no commit ends later. */
  lemma {:induction false} WrittenFirst(steps: seq<Step>, b: nat)
    requires steps != []
    ensures WrittenSince(steps, b) <==> WrittenAt(steps, 0, b) || WrittenSince(steps[1..], b)
    ensures NoneDone(steps, 0) <==> !steps[0].Done? && NoneDone(steps[1..], 0)
    ensures NoneDone(steps, 1) <==> NoneDone(steps[1..], 0)
  {
    var rest := steps[1..];
    forall k: nat ensures NoneDone(steps, k + 1) <==> NoneDone(rest, k) {
      forall j | k <= j < |rest| ensures rest[j] == steps[j + 1] { }
      if NoneDone(rest, k) {
        forall j | k + 1 <= j < |steps| ensures !steps[j].Done? { assert steps[j] == rest[j - 1]; }
      }
    }
    if k: nat :| WrittenAt(steps, k, b) {
      if k > 0 { assert NoneDone(steps, (k - 1) + 1 + 1) && WrittenAt(rest, k - 1, b); }
    }
    if k: nat :| WrittenAt(rest, k, b) { assert NoneDone(rest, k + 1) && WrittenAt(steps, k + 1, b); }
    if NoneDone(rest, 0) {
      forall j | 1 <= j < |steps| ensures !steps[j].Done? { assert steps[j] == rest[j - 1]; }
    }
  }

  // ----- operations that write a given list of blocks ----------------------------------------------

  ghost function Elems(ws: seq<nat>): set<nat> { set b | b in ws }

  /** All but the last of the writes are of fewer than MAXOPBLOCKS blocks. */
  ghost predicate InBudget(ws: seq<nat>) { ws != [] ==> |Elems(ws[..|ws| - 1])| < MAXOPBLOCKS }

  /** The blocks that process p writes in these steps, in order. */
  ghost function WritesOf(steps: seq<Step>, p: nat): seq<nat> {
    if steps == [] then [] else WriteOf(steps[0], p) + WritesOf(steps[1..], p)
  }

  ghost function WriteOf(step: Step, p: nat): seq<nat> { if step.Write? && step.p == p then [step.b] else [] }

  /** Process p neither begins nor ends an operation. */
  ghost predicate Inside(
    steps: seq<Step>, p: nat) { forall k :: 0 <= k < |steps| ==> steps[k] != Begin(p) && steps[k] != End(p) }

  /** What p has written since its operation began is in the log, and has cost no more than its number of blocks. */
  ghost predicate Spent(s: State, p: nat, ws: seq<nat>) {
    && p < |s.procs| && s.procs[p].Active? && MAXOPBLOCKS <= s.procs[p].left + |Elems(ws)|
    && forall b :: b in ws ==> b in s.blocks
  }

  lemma {:induction false} NotCommitting(s: State, p: nat)
    requires Inv(s) && p < |s.procs| && s.procs[p].Active?
    ensures !s.committing && s.procs[p].left <= Budget(s.procs) && s.outstanding > 0
  {
    SlotChange(s.procs, p, Idle);
  }

  lemma {:induction false} ElemsMore(ws: seq<nat>, b: nat)
    ensures |Elems(ws + [b])| == |Elems(ws)| + if b in ws then 0 else 1
  {
    assert Elems(ws + [b]) == Elems(ws) + {b};
  }

  lemma {:induction false} SpentStep(s: State, logSize: nat, step: Step, p: nat, ws: seq<nat>)
    requires Inv(s) && Enabled(s, step) && Spent(s, p, ws) && step != Begin(p) && step != End(p)
    requires Apply(s, logSize, step).Next?
    ensures Spent(Apply(s, logSize, step).s, p, ws + WriteOf(step, p))
  {
    NotCommitting(s, p);
    if step.Write? && step.p == p {
      ElemsMore(ws, step.b);
    } else {
      assert ws + [] == ws;
    }
  }

  lemma {:induction false} SpentPath(s: State, logSize: nat, steps: seq<Step>, t: State, p: nat, ws: seq<nat>)
    requires Inv(s) && logSize > LOGSIZE && Path(s, logSize, steps, t) && Spent(s, p, ws) && Inside(steps, p)
    ensures Inv(t) && Spent(t, p, ws + WritesOf(steps, p))
    decreases |steps|
  {
    if steps == [] {
      assert ws + [] == ws;
    } else {
      var step, rest := steps[0], steps[1..];
      var ws1 := ws + WriteOf(step, p);
      assert steps == [step] + rest;
      var s1 := SpentNext(s, logSize, step, rest, t, p, ws);
      SpentPath(s1, logSize, rest, t, p, ws1);
      assert ws1 + WritesOf(rest, p) == ws + (WriteOf(step, p) + WritesOf(rest, p));
    }
  }

  /** The first step of a path; whoever is put to sleep has written nothing. */
  lemma {:induction false} SpentNext(
    s: State, logSize: nat, step: Step, rest: seq<Step>, t: State, p: nat, ws: seq<nat>)
    returns (s': State)
    requires Inv(s) && Enabled(s, step) && Spent(s, p, ws) && step != Begin(p) && step != End(p)
    requires Path(s, logSize, [step] + rest, t)
    ensures Inv(s') && Spent(s', p, ws + WriteOf(step, p)) && Path(s', logSize, rest, t)
  {
    assert ([step] + rest)[1..] == rest;
    StepKeepsInv(s, logSize, step);
    match Apply(s, logSize, step)
    case Next(n) =>
      SpentStep(s, logSize, step, p, ws);
      s' := n;
    case Sleep =>
      assert ws + WriteOf(step, p) == ws;
      s' := s;
    case Panic =>
      assert false;
  }

  /**
   * An operation whose writes stay in budget never panics, whatever the other processes do: from the state s
   * where p has just begun, after any interleaving in which p has made the first k of its writes ws, the next
   * one is allowed and is carried out.
   */
  lemma {:induction false} InBudgetNeverPanics(
    s: State, logSize: nat, steps: seq<Step>, t: State, p: nat, ws: seq<nat>, k: nat)
    requires Inv(s) && logSize > LOGSIZE && p < |s.procs| && s.procs[p] == Active(MAXOPBLOCKS)
    requires Path(s, logSize, steps, t) && Inside(steps, p) && InBudget(ws) && k < |ws| && WritesOf(steps, p) == ws[..k]
    ensures Enabled(t, Write(p, ws[k])) && AfterWrite(t, logSize, p, ws[k]).Next?
  {
    assert Elems([]) == {};
    SpentPath(s, logSize, steps, t, p, []);
    assert [] + WritesOf(steps, p) == ws[..k];
    FewerElems(ws[..|ws| - 1], ws[..k]);
    NotCommitting(t, p);
  }

  lemma {:induction false} FewerElems(ws: seq<nat>, vs: seq<nat>)
    requires vs <= ws
    ensures |Elems(vs)| <= |Elems(ws)|
  {
    assert Elems(ws) == Elems(vs) + (Elems(ws) - Elems(vs));
  }

  // ----- what follows in every reachable state ---------------------------------------------------

  /** The end_op panic cannot happen, and a commit starts exactly when the last operation ends. */
  lemma {:induction false} EndNeverPanics(s: State, p: nat)
    requires Inv(s) && p < |s.procs| && s.procs[p].Active?
    ensures s.outstanding > 0 && AfterEnd(s, p).Next?
    ensures AfterEnd(s, p).s.committing <==> (forall q :: 0 <= q < |s.procs| && q != p ==> s.procs[q].Idle?)
  {
    SlotChange(s.procs, p, Idle);
    var rest := s.procs[p := Idle];
    CountZero(rest);
    if forall q :: 0 <= q < |s.procs| && q != p ==> s.procs[q].Idle? {
      AllIdle(rest);
    }
    if ActiveCount(rest) == 0 {
      forall q | 0 <= q < |s.procs| && q != p ensures s.procs[q].Idle? { assert rest[q] == s.procs[q]; }
    }
  }

  lemma {:induction false} CountZero(procs: seq<Slot>)
    ensures ActiveCount(procs) == 0 ==> forall p :: 0 <= p < |procs| ==> procs[p].Idle?
  {
    if procs != [] {
      CountZero(procs[1..]);
      if ActiveCount(procs) == 0 {
        forall p | 0 <= p < |procs| ensures procs[p].Idle? {
          if p > 0 { assert procs[p] == procs[1..][p - 1]; }
        }
      }
    }
  }

  /** A write of a new block within the budget always finds a slot. */
  lemma {:induction false} NewBlockFits(s: State, logSize: nat, p: nat, b: nat)
    requires Inv(s) && logSize > LOGSIZE && Enabled(s, Write(p, b)) && b !in s.blocks
    ensures AfterWrite(s, logSize, p, b).Next?
    ensures AfterWrite(s, logSize, p, b).s.blocks == s.blocks + [b]
  {
    SlotChange(s.procs, p, Idle);
  }

  /**
   * A write within the budget panics exactly when the log is full; it then repeats a block that is
   * already logged and would have needed no slot, because the size test comes before the search.
   */
  lemma {:induction false} WritePanicsIff(s: State, logSize: nat, p: nat, b: nat)
    requires Inv(s) && logSize > LOGSIZE && Enabled(s, Write(p, b))
    ensures AfterWrite(s, logSize, p, b).Panic? <==> |s.blocks| == LOGSIZE
    ensures |s.blocks| == LOGSIZE ==> b in s.blocks && Budget(s.procs) == 0
  {
    SlotChange(s.procs, p, Idle);
  }

  /** The full log is reachable: three operations that spend their whole budgets fill it. */
  lemma {:induction false} FullLogReachable(logSize: nat) returns (steps: seq<Step>, t: State)
    requires logSize > LOGSIZE
    ensures Path(Init(3), logSize, steps, t)
    ensures |t.blocks| == LOGSIZE && Enabled(t, Write(0, t.blocks[0]))
    ensures AfterWrite(t, logSize, 0, t.blocks[0]).Panic?
  {
    InitInv(3);
    var s1 := AfterBegin(Init(3), 0).s;
    var s2 := AfterBegin(s1, 1).s;
    var s3 := AfterBegin(s2, 2).s;
    var begins := [Begin(0), Begin(1), Begin(2)];
    assert begins[1..] == [Begin(1), Begin(2)] && begins[1..][1..] == [Begin(2)] && begins[1..][1..][1..] == [];
    assert Path(Init(3), logSize, begins, s3);
    var w0, t0 := Spend(s3, logSize, 0, 0);
    var w1, t1 := Spend(t0, logSize, 1, 10);
    var w2, t2 := Spend(t1, logSize, 2, 20);
    Join(Init(3), logSize, begins, s3, w0, t0);
    Join(Init(3), logSize, begins + w0, t0, w1, t1);
    Join(Init(3), logSize, begins + w0 + w1, t1, w2, t2);
    steps, t := begins + w0 + w1 + w2, t2;
  }

  /** Process p writes its remaining budget in new blocks numbered from `from`. */
  lemma {:induction false} Spend(s: State, logSize: nat, p: nat, from: nat) returns (steps: seq<Step>, t: State)
    requires logSize > LOGSIZE && p < |s.procs| && s.procs[p].Active? && s.outstanding > 0
    requires |s.blocks| + s.procs[p].left <= LOGSIZE && forall b :: b in s.blocks ==> b < from
    ensures Path(s, logSize, steps, t)
    ensures |t.blocks| == |s.blocks| + s.procs[p].left && forall b :: b in t.blocks ==> b < from + s.procs[p].left
    ensures t.procs == s.procs[p := Active(0)] && t.outstanding == s.outstanding && t.committing == s.committing
    decreases s.procs[p].left
  {
    if s.procs[p].left == 0 {
      steps, t := [], s;
      assert s.procs[p := Active(0)] == s.procs;
    } else {
      var s' := AfterWrite(s, logSize, p, from).s;
      var rest;
      rest, t := Spend(s', logSize, p, from + 1);
      steps := [Write(p, from)] + rest;
      assert steps[1..] == rest;
      assert s'.procs[p := Active(0)] == s.procs[p := Active(0)];
    }
  }

  lemma {:induction false} Join(s: State, logSize: nat, a: seq<Step>, m: State, b: seq<Step>, t: State)
    requires Path(s, logSize, a, m) && Path(m, logSize, b, t)
    ensures Path(s, logSize, a + b, t)
    decreases |a|
  {
    if a == [] {
      assert a + b == b;
    } else {
      assert (a + b)[0] == a[0] && (a + b)[1..] == a[1..] + b;
      match Apply(s, logSize, a[0])
      case Next(s') => Join(s', logSize, a[1..], m, b, t);
      case Sleep => Join(s, logSize, a[1..], m, b, t);
      case Panic =>
    }
  }

  /** What a commit is handed is a transaction the log can take: distinct blocks, no more than fit. */
  lemma {:induction false} CommitReady(s: State, l: WriteAheadLog.Layout, vals: seq<WriteAheadLog.Data>)
    requires Inv(s) && s.committing && s.blocks != [] && LOGSIZE <= l.cap
    requires (forall b :: b in s.blocks ==> WriteAheadLog.Home(l, b)) && |vals| == |s.blocks|
    ensures WriteAheadLog.Transaction(l, s.blocks, vals)
  {
    forall i | 0 <= i < |s.blocks| ensures WriteAheadLog.Home(l, s.blocks[i]) { assert s.blocks[i] in s.blocks; }
  }

  // ----- the code on the log structure ---------------------------------------------------------------

  class Log {
    const block: array<nat>
    const size: nat
    var n: nat
    var outstanding: nat
    var committing: bool
    ghost var procs: seq<Slot>

    ghost predicate Valid()
      reads this, block
    {
      block.Length == LOGSIZE && size > LOGSIZE && n <= LOGSIZE && Inv(View())
    }

    ghost function View(): State
      requires n <= block.Length
      reads this, block
    {
      State(block[..n], outstanding, committing, procs)
    }

    constructor (size: nat, ghost nproc: nat)
      requires size > LOGSIZE
      ensures Valid() && View() == Init(nproc) && fresh(block)
    {
      block := new nat[LOGSIZE](_ => 0);
      this.size, n, outstanding, committing := size, 0, 0, false;
      procs := Init(nproc).procs;
      new;
      InitInv(nproc);
      assert View() == Init(nproc);
    }

    /** One pass of begin_op's loop: either the operation starts or the process must sleep. */
    method BeginOp(ghost p: nat) returns (sleep: bool)
      requires Valid() && p < |procs| && procs[p].Idle?
      modifies this
      ensures Valid()
      ensures sleep <==> old(committing) || old(n) + (old(outstanding) + 1) * 10 > 30
      ensures block[..n] == old(block[..n]) && committing == old(committing)
      ensures outstanding == if sleep then old(outstanding) else old(outstanding) + 1
      ensures sleep <==> AfterBegin(old(View()), p).Sleep?
      ensures View() == if sleep then old(View()) else AfterBegin(old(View()), p).s
    {
      StepKeepsInv(View(), size, Begin(p));
      if committing {
        return true;
      } else if n + (outstanding + 1) * MAXOPBLOCKS > LOGSIZE {
        return true;
      } else {
        outstanding := outstanding + 1;
        procs := procs[p := Active(MAXOPBLOCKS)];
        return false;
      }
    }

    /**
     * log_write of block b, by anybody at any time: a panic if the log is full or no operation is running, else
     * absorbed or appended (and its buffer pinned). Within the budget of p it is the step of the protocol.
     */
    method LogWrite(b: nat, ghost p: nat) returns (panicked: bool, pin: bool)
      requires block.Length == LOGSIZE && n <= LOGSIZE
      modifies this, block
      ensures n <= LOGSIZE && outstanding == old(outstanding) && committing == old(committing)
      ensures panicked <==> old(n) >= LOGSIZE || old(n) + 1 >= size || old(outstanding) < 1
      ensures pin <==> !panicked && b !in old(block[..n])
      ensures block[..n] == old(block[..n]) + if pin then [b] else []
      ensures old(Valid()) && Enabled(old(View()), Write(p, b)) ==>
                && Valid() && (panicked <==> AfterWrite(old(View()), size, p, b).Panic?)
                && View() == if panicked then old(View()) else AfterWrite(old(View()), size, p, b).s
    {
      ghost var s := View();
      ghost var within := Valid() && Enabled(s, Write(p, b));
      if within { StepKeepsInv(s, size, Write(p, b)); }
      if n >= LOGSIZE || n + 1 >= size || outstanding < 1 {
        return true, false;
      }
      var i := 0;
      while i < n && block[i] != b
        invariant 0 <= i <= n && b !in block[..i]
      {
        i := i + 1;
      }
      if i < n { assert b == s.blocks[i]; }
      block[i] := b;
      pin := i == n;
      if pin {
        n := n + 1;
        if within { procs := procs[p := Active(procs[p].left - 1)]; }
        assert block[..n] == s.blocks + [b];
      } else {
        assert block[..n] == s.blocks;
      }
      panicked := false;
    }

    /** end_op up to the point where it calls commit(). */
    method EndOp(ghost p: nat) returns (doCommit: bool)
      requires Valid() && p < |procs| && procs[p].Active?
      modifies this
      ensures Valid()
      ensures block[..n] == old(block[..n]) && outstanding + 1 == old(outstanding)
      ensures committing == doCommit && (doCommit <==> outstanding == 0)
      ensures old(View()).outstanding > 0 && View() == AfterEnd(old(View()), p).s
    {
      EndNeverPanics(View(), p);
      StepKeepsInv(View(), size, End(p));
      outstanding := outstanding - 1;
      assert !committing;
      procs := procs[p := Idle];
      doCommit := false;
      if outstanding == 0 {
        doCommit := true;
        committing := true;
      }
    }

    /** The rest of end_op after commit() has written the transaction and cleared lh.n. */
    method FinishCommit()
      requires Valid() && committing
      modifies this
      ensures n == 0 && !committing && outstanding == old(outstanding)
      ensures Valid() && View() == AfterCommit(old(View())).s
    {
      StepKeepsInv(View(), size, Done);
      n := 0;
      committing := false;
      assert block[..0] == [];
    }
  }
}
