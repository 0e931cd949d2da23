/** Writing a command tree down as tokens from which the grammar derives it. */
module ShellRender {
  import opened ShellParser
  import opened ShellGrammar

  // ----- rendering ------------------------------------------------------------------------------------

  /** Words as items. */
  function ArgItems(args: seq<string>): seq<Item> {
    if args == [] then [] else [Arg(args[0])] + ArgItems(args[1..])
  }

  function RenderWords(args: seq<string>): seq<Tok> { Toks(ArgItems(args)) }

  function RenderRedirs(rs: seq<Redirect>): seq<Tok> { Toks(RedItems(rs)) }

  /** A command without the redirections around it, and these. */
  function Base(c: Cmd): (b: Cmd)
    ensures !b.Redir? && (b == c || b < c)
  {
    if c.Redir? then Base(c.cmd) else c
  }

  function Redirs(c: Cmd): seq<Redirect> {
    if c.Redir? then Redirs(c.cmd) + [c.to] else []
  }

  predicate Simple(c: Cmd) { c.Exec? || c.Redir? }

  /** As an operand of |: simple commands as they are, anything else in parentheses. */
  function RenderExec(c: Cmd): seq<Tok>
    decreases c, if Simple(c) then 0 else 2
  {
    var b := Base(c);
    (if b.Exec? then RenderWords(b.args) else [Open] + RenderLine(b) + [Close]) + RenderRedirs(Redirs(c))
  }

  function RenderPipe(c: Cmd): seq<Tok>
    decreases c, 3
  {
    if c.Pipe? then RenderExec(c.left) + [Bar] + RenderPipe(c.right) else RenderExec(c)
  }

  function RenderBack(c: Cmd): seq<Tok>
    decreases c, 4
  {
    if c.Back? then RenderBack(c.cmd) + [Amp] else RenderPipe(c)
  }

  function RenderLine(c: Cmd): seq<Tok>
    decreases c, 1
  {
    match c
    case List(left, right) => RenderBack(left) + [Semi] + RenderLine(right)
    case Back(cmd) => RenderBack(cmd) + [Amp]
    case Pipe(left, right) => RenderExec(left) + [Bar] + RenderPipe(right)
    case _ => RenderExec(c)
  }

  lemma {:induction false} BaseWraps(c: Cmd)
    ensures Wrap(Base(c), Redirs(c)) == c
  {
    if c.Redir? {
      BaseWraps(c.cmd);
      var rs := Redirs(c);
      assert rs[..|rs| - 1] == Redirs(c.cmd);
    }
  }

  lemma {:induction false} BaseWellFormed(c: Cmd)
    requires WellFormed(c)
    ensures WellFormed(Base(c)) && AreRedirects(Redirs(c))
  {
    if c.Redir? { BaseWellFormed(c.cmd); }
  }

  // ----- what is written is derived --------------------------------------------------------------------

  /** Two token runs with one token between them. */
  lemma {:induction false} InfixAt(ts: seq<Tok>, i: nat, a: seq<Tok>, sep: Tok, b: seq<Tok>, e: nat) returns (m: nat)
    requires At(ts, i, a + [sep] + b, e)
    ensures i <= m < e && At(ts, i, a, m) && ts[m] == sep && At(ts, m + 1, b, e)
  {
    var j := AtSplit(ts, i, a + [sep], b, e, a + [sep] + b);
    m := AtSplit(ts, i, a, [sep], j, a + [sep]);
    AtTok(ts, m, [sep], j, 0);
  }

  lemma {:induction false} ArgItemsAre(args: seq<string>)
    ensures Args(ArgItems(args)) == args && Reds(ArgItems(args)) == [] && ItemsOk(ArgItems(args))
  {
    if args != [] {
      ArgItemsAre(args[1..]);
      ConsItem(Arg(args[0]), ArgItems(args[1..]));
      assert args == [args[0]] + args[1..];
    }
  }

  lemma {:induction false} RedItemsOk(rs: seq<Redirect>)
    requires AreRedirects(rs)
    ensures ItemsOk(RedItems(rs))
  {
    if rs != [] {
      assert IsRedirect(rs[0]);
      RedItemsOk(rs[1..]);
      ConsItem(Red(rs[0]), RedItems(rs[1..]));
    }
  }

  lemma {:induction false} SimpleDerives(ts: seq<Tok>, i: nat, args: seq<string>, rs: seq<Redirect>, e: nat)
    requires |args| < MAXARGS && AreRedirects(rs) && At(ts, i, RenderWords(args) + RenderRedirs(rs), e)
    ensures DerivesSimple(ts, i, e, Wrap(Exec(args), rs))
  {
    var a, b := ArgItems(args), RedItems(rs);
    ArgItemsAre(args);
    RedItemsAre(rs);
    RedItemsOk(rs);
    JoinItems(a, b);
    assert args + [] == args && [] + rs == rs;
    assert SimpleOf(ts, i, e, Wrap(Exec(args), rs), a + b);
  }

  lemma {:induction false} BlockDerives(ts: seq<Tok>, i: nat, b: Cmd, j: nat, rs: seq<Redirect>, e: nat)
    requires i + 1 < j <= |ts| && ts[i] == Open && ts[j - 1] == Close && DerivesLine(ts, i + 1, j - 1, b)
    requires AreRedirects(rs) && At(ts, j, RenderRedirs(rs), e)
    ensures i <= e <= |ts| && DerivesBlock(ts, i, e, Wrap(b, rs))
  {
    RedItemsOk(rs);
    assert DerivesBlock(ts, i, j, b);
    BlockWrapped(ts, i, j, b, rs, e);
  }

  lemma {:induction false} BlockAt(ts: seq<Tok>, i: nat, t: seq<Tok>, j: nat)
    requires At(ts, i, [Open] + t + [Close], j)
    ensures i + 1 < j && ts[i] == Open && At(ts, i + 1, t, j - 1) && ts[j - 1] == Close
  {
    var p2 := AtSplit(ts, i, [Open] + t, [Close], j, [Open] + t + [Close]);
    var p1 := AtSplit(ts, i, [Open], t, p2, [Open] + t);
    AtTok(ts, i, [Open], p1, 0);
    AtTok(ts, p2, [Close], j, 0);
  }

  lemma {:induction false} ExecDerives(ts: seq<Tok>, i: nat, c: Cmd, e: nat)
    requires WellFormed(c) && At(ts, i, RenderExec(c), e)
    ensures DerivesCommand(ts, i, e, c)
    decreases c, if Simple(c) then 0 else 2
  {
    var b, rs := Base(c), Redirs(c);
    BaseWellFormed(c);
    BaseWraps(c);
    if b.Exec? {
      SimpleDerives(ts, i, b.args, rs, e);
    } else {
      ParenDerives(ts, i, b, rs, e, c);
    }
  }

  lemma {:induction false} ParenDerives(ts: seq<Tok>, i: nat, b: Cmd, rs: seq<Redirect>, e: nat, c: Cmd)
    requires WellFormed(b) && AreRedirects(rs) && !Simple(b) && (b == c || b < c)
    requires At(ts, i, [Open] + RenderLine(b) + [Close] + RenderRedirs(rs), e)
    ensures DerivesBlock(ts, i, e, Wrap(b, rs))
    decreases c, if Simple(c) then 0 else 2, 0
  {
    var t := [Open] + RenderLine(b) + [Close];
    var j := AtSplit(ts, i, t, RenderRedirs(rs), e, t + RenderRedirs(rs));
    BlockAt(ts, i, RenderLine(b), j);
    LineDerives(ts, i + 1, b, j - 1);
    BlockDerives(ts, i, b, j, rs, e);
  }

  lemma {:induction false} PipeDerives(ts: seq<Tok>, i: nat, c: Cmd, e: nat)
    requires WellFormed(c) && At(ts, i, RenderPipe(c), e)
    ensures DerivesPipe(ts, i, e, c)
    decreases c, 3
  {
    if c.Pipe? { BarDerived(ts, i, c, e); } else { ExecDerives(ts, i, c, e); }
  }

  lemma {:induction false} BarDerived(ts: seq<Tok>, i: nat, c: Cmd, e: nat)
    requires WellFormed(c) && c.Pipe? && At(ts, i, RenderExec(c.left) + [Bar] + RenderPipe(c.right), e)
    ensures DerivesPipe(ts, i, e, c)
    decreases c, 0
  {
    var m := InfixAt(ts, i, RenderExec(c.left), Bar, RenderPipe(c.right), e);
    ExecDerives(ts, i, c.left, m);
    PipeDerives(ts, m + 1, c.right, e);
    assert BarAt(ts, i, m, e, c);
  }

  lemma {:induction false} BackDerives(ts: seq<Tok>, i: nat, c: Cmd, e: nat)
    requires WellFormed(c) && At(ts, i, RenderBack(c), e)
    ensures DerivesBacks(ts, i, e, c)
    decreases c, 4
  {
    if c.Back? { AmpDerived(ts, i, c, e); } else { PipeDerives(ts, i, c, e); }
  }

  lemma {:induction false} AmpDerived(ts: seq<Tok>, i: nat, c: Cmd, e: nat)
    requires WellFormed(c) && c.Back? && At(ts, i, RenderBack(c.cmd) + [Amp], e)
    ensures DerivesBacks(ts, i, e, c)
    decreases c, 0
  {
    var m := AtSplit(ts, i, RenderBack(c.cmd), [Amp], e, RenderBack(c.cmd) + [Amp]);
    AtTok(ts, m, [Amp], e, 0);
    BackDerives(ts, i, c.cmd, m);
  }

  lemma {:induction false} SemiDerived(ts: seq<Tok>, i: nat, c: Cmd, e: nat)
    requires WellFormed(c) && c.List? && At(ts, i, RenderBack(c.left) + [Semi] + RenderLine(c.right), e)
    ensures DerivesLine(ts, i, e, c)
    decreases c, 0
  {
    var m := InfixAt(ts, i, RenderBack(c.left), Semi, RenderLine(c.right), e);
    BackDerives(ts, i, c.left, m);
    LineDerives(ts, m + 1, c.right, e);
    assert SemiAt(ts, i, m, e, c);
  }

  lemma {:induction false} LineDerives(ts: seq<Tok>, i: nat, c: Cmd, e: nat)
    requires WellFormed(c) && At(ts, i, RenderLine(c), e)
    ensures DerivesLine(ts, i, e, c)
    decreases c, 1
  {
    match c
    case List(left, right) => SemiDerived(ts, i, c, e);
    case Back(cmd) => AmpDerived(ts, i, c, e);
    case Pipe(left, right) => BarDerived(ts, i, c, e);
    case _ => ExecDerives(ts, i, c, e);
  }

  /** Every well-formed command tree, written down as tokens, is derived from them and parses back to itself. */
  lemma {:induction false} RoundTrip(c: Cmd)
    requires WellFormed(c)
    ensures Derives(RenderLine(c), c) && Parse(RenderLine(c)) == Ok(c, |RenderLine(c)|)
  {
    var ts := RenderLine(c);
    assert ts[0..|ts|] == ts;
    LineDerives(ts, 0, c, |ts|);
    ParseIffDerives(ts, c);
  }
}
