/** The command language of user/sh.c on values: command trees and the parser over the tokens of a line. */
module ShellParser {

  datatype Tok = Word(text: string) | Less | Greater | Append | Bar | Amp | Semi | Open | Close

  const MAXARGS: nat := 10

  datatype Redirect = Redirect(sign: Tok, file: string)

  datatype Cmd =
    | Exec(args: seq<string>)
    | Redir(cmd: Cmd, to: Redirect)
    | Pipe(left: Cmd, right: Cmd)
    | List(left: Cmd, right: Cmd)
    | Back(cmd: Cmd)

  /** redircmd around cmd, once for each redirection. */
  function Wrap(cmd: Cmd, rs: seq<Redirect>): Cmd {
    if rs == [] then cmd else Redir(Wrap(cmd, rs[..|rs| - 1]), rs[|rs| - 1])
  }

  // ----- the parser -----------------------------------------------------------------------------------------

  predicate IsSign(t: Tok) { t == Less || t == Greater || t == Append }

  /** The tokens that end a simple command. */
  predicate EndsWords(t: Tok) { t == Bar || t == Close || t == Amp || t == Semi }

  predicate Next(ts: seq<Tok>, i: nat, t: Tok) { i < |ts| && ts[i] == t }

  datatype Redirects = Redirects(rs: seq<Redirect>, pos: nat) | NoFile

  /** parseredirs: the redirections at i. */
  function ParseRedirs(ts: seq<Tok>, i: nat): (r: Redirects)
    requires i <= |ts|
    ensures r.Redirects? ==> i <= r.pos <= |ts|
    decreases |ts| - i
  {
    if i == |ts| || !IsSign(ts[i]) then Redirects([], i)
    else if i + 1 == |ts| || !ts[i + 1].Word? then NoFile
    else
      var more := ParseRedirs(ts, i + 2);
      if more.NoFile? then NoFile else Redirects([Redirect(ts[i], ts[i + 1].text)] + more.rs, more.pos)
  }

  datatype Words = Words(args: seq<string>, rs: seq<Redirect>, pos: nat) | BadWords

  /** The loop of parseexec, n arguments having been read. */
  function ParseWords(ts: seq<Tok>, i: nat, n: nat): (r: Words)
    requires i <= |ts|
    ensures r.Words? ==> i <= r.pos <= |ts| && (n < MAXARGS ==> n + |r.args| < MAXARGS)
    decreases |ts| - i
  {
    if i == |ts| || EndsWords(ts[i]) then Words([], [], i)
    else if !ts[i].Word? || n + 1 >= MAXARGS then BadWords
    else
      var r := ParseRedirs(ts, i + 1);
      if r.NoFile? then BadWords
      else
        var more := ParseWords(ts, r.pos, n + 1);
        if more.BadWords? then BadWords else Words([ts[i].text] + more.args, r.rs + more.rs, more.pos)
  }

  datatype Result = Ok(cmd: Cmd, pos: nat) | Fail

  /** parseexec on a simple command. */
  function ParseSimple(ts: seq<Tok>, i: nat): (res: Result)
    requires i <= |ts|
    ensures res.Ok? ==> i <= res.pos <= |ts|
  {
    var r := ParseRedirs(ts, i);
    if r.NoFile? then Fail
    else
      var w := ParseWords(ts, r.pos, 0);
      if w.BadWords? then Fail else Ok(Wrap(Exec(w.args), r.rs + w.rs), w.pos)
  }

  /** parseblock, once the line inside the parentheses has been read. */
  function BlockRest(ts: seq<Tok>, line: Result): (res: Result)
    requires line.Ok? ==> line.pos <= |ts|
    ensures res.Ok? ==> line.Ok? && line.pos < res.pos <= |ts|
  {
    if line.Fail? || !Next(ts, line.pos, Close) then Fail
    else
      var r := ParseRedirs(ts, line.pos + 1);
      if r.NoFile? then Fail else Ok(Wrap(line.cmd, r.rs), r.pos)
  }

  /** parseexec. */
  function ParseExec(ts: seq<Tok>, i: nat): (r: Result)
    requires i <= |ts|
    ensures r.Ok? ==> i <= r.pos <= |ts|
    decreases |ts| - i, 0
  {
    if Next(ts, i, Open) then BlockRest(ts, ParseLine(ts, i + 1)) else ParseSimple(ts, i)
  }

  /** parsepipe. */
  function ParsePipe(ts: seq<Tok>, i: nat): (r: Result)
    requires i <= |ts|
    ensures r.Ok? ==> i <= r.pos <= |ts|
    decreases |ts| - i, 1
  {
    var left := ParseExec(ts, i);
    if left.Fail? || !Next(ts, left.pos, Bar) then left
    else
      var right := ParsePipe(ts, left.pos + 1);
      if right.Fail? then Fail else Ok(Pipe(left.cmd, right.cmd), right.pos)
  }

  /** The loop of parseline over &. */
  function ParseBack(ts: seq<Tok>, cmd: Cmd, i: nat): (r: Result)
    requires i <= |ts|
    ensures r.Ok? && i <= r.pos <= |ts|
    decreases |ts| - i
  {
    if Next(ts, i, Amp) then ParseBack(ts, Back(cmd), i + 1) else Ok(cmd, i)
  }

  /** parseline. */
  function ParseLine(ts: seq<Tok>, i: nat): (r: Result)
    requires i <= |ts|
    ensures r.Ok? ==> i <= r.pos <= |ts|
    decreases |ts| - i, 2
  {
    var pipe := ParsePipe(ts, i);
    if pipe.Fail? then Fail
    else
      var left := ParseBack(ts, pipe.cmd, pipe.pos);
      if !Next(ts, left.pos, Semi) then left
      else
        var right := ParseLine(ts, left.pos + 1);
        if right.Fail? then Fail else Ok(List(left.cmd, right.cmd), right.pos)
  }

  /** parsecmd: the tokens are one line, with nothing left over. */
  function Parse(ts: seq<Tok>): Result {
    var line := ParseLine(ts, 0);
    if line.Fail? || line.pos != |ts| then Fail else line
  }

  // ----- what the parser accepts ------------------------------------------------------------------------------

  predicate IsSpace(c: char) { c == ' ' || c == '\t' || c == '\r' || c == '\n' || c == '\U{0B}' }

  predicate IsSymbol(c: char) { c == '<' || c == '|' || c == '>' || c == '&' || c == ';' || c == '(' || c == ')' }

  /** Neither white space, nor a symbol, nor the end of the string. */
  predicate IsWordChar(c: char) { !IsSpace(c) && !IsSymbol(c) && c != '\0' }

  predicate IsWord(w: string) { |w| > 0 && forall k :: 0 <= k < |w| ==> IsWordChar(w[k]) }

  /** Every word token is a word. */
  ghost predicate AreTokens(ts: seq<Tok>) { forall k :: 0 <= k < |ts| ==> ts[k].Word? ==> IsWord(ts[k].text) }

  predicate IsRedirect(r: Redirect) { IsSign(r.sign) && IsWord(r.file) }

  predicate AreRedirects(rs: seq<Redirect>) { forall k :: 0 <= k < |rs| ==> IsRedirect(rs[k]) }

  predicate AreWords(args: seq<string>) { forall k :: 0 <= k < |args| ==> IsWord(args[k]) }

  /** Every word is one, and no command has more than nine arguments. */
  predicate WellFormed(c: Cmd) {
    match c
    case Exec(args) => |args| < 10 && AreWords(args)
    case Redir(cmd, to) => WellFormed(cmd) && IsRedirect(to)
    case Pipe(left, right) => WellFormed(left) && WellFormed(right)
    case List(left, right) => WellFormed(left) && WellFormed(right)
    case Back(cmd) => WellFormed(cmd)
  }

  lemma {:induction false} WrapWellFormed(c: Cmd, rs: seq<Redirect>)
    requires WellFormed(c) && AreRedirects(rs)
    ensures WellFormed(Wrap(c, rs))
  {
    if rs != [] { WrapWellFormed(c, rs[..|rs| - 1]); }
  }

  lemma {:induction false} RedirsWellFormed(ts: seq<Tok>, i: nat)
    requires i <= |ts| && AreTokens(ts)
    ensures var r := ParseRedirs(ts, i); r.Redirects? ==> AreRedirects(r.rs)
    decreases |ts| - i
  {
    if i + 1 < |ts| && IsSign(ts[i]) && ts[i + 1].Word? { RedirsWellFormed(ts, i + 2); }
  }

  lemma {:induction false} WordsWellFormed(ts: seq<Tok>, i: nat, n: nat)
    requires i <= |ts| && AreTokens(ts)
    ensures var w := ParseWords(ts, i, n); w.Words? ==> AreWords(w.args) && AreRedirects(w.rs)
    decreases |ts| - i
  {
    if i < |ts| && ts[i].Word? {
      RedirsWellFormed(ts, i + 1);
      var r := ParseRedirs(ts, i + 1);
      if r.Redirects? { WordsWellFormed(ts, r.pos, n + 1); }
    }
  }

  lemma {:induction false} SimpleWellFormed(ts: seq<Tok>, i: nat)
    requires i <= |ts| && AreTokens(ts)
    ensures ParseSimple(ts, i).Ok? ==> WellFormed(ParseSimple(ts, i).cmd)
  {
    RedirsWellFormed(ts, i);
    var r := ParseRedirs(ts, i);
    if r.Redirects? {
      WordsWellFormed(ts, r.pos, 0);
      var w := ParseWords(ts, r.pos, 0);
      if w.Words? { WrapWellFormed(Exec(w.args), r.rs + w.rs); }
    }
  }

  lemma {:induction false} BlockWellFormed(ts: seq<Tok>, line: Result)
    requires AreTokens(ts) && (line.Ok? ==> line.pos <= |ts| && WellFormed(line.cmd))
    ensures BlockRest(ts, line).Ok? ==> WellFormed(BlockRest(ts, line).cmd)
  {
    if line.Ok? && Next(ts, line.pos, Close) {
      RedirsWellFormed(ts, line.pos + 1);
      var r := ParseRedirs(ts, line.pos + 1);
      if r.Redirects? { WrapWellFormed(line.cmd, r.rs); }
    }
  }

  lemma {:induction false} ExecWellFormed(ts: seq<Tok>, i: nat)
    requires i <= |ts| && AreTokens(ts)
    ensures ParseExec(ts, i).Ok? ==> WellFormed(ParseExec(ts, i).cmd)
    decreases |ts| - i, 0
  {
    if Next(ts, i, Open) {
      LineWellFormed(ts, i + 1);
      BlockWellFormed(ts, ParseLine(ts, i + 1));
    } else {
      SimpleWellFormed(ts, i);
    }
  }

  lemma {:induction false} PipeWellFormed(ts: seq<Tok>, i: nat)
    requires i <= |ts| && AreTokens(ts)
    ensures ParsePipe(ts, i).Ok? ==> WellFormed(ParsePipe(ts, i).cmd)
    decreases |ts| - i, 1
  {
    ExecWellFormed(ts, i);
    var left := ParseExec(ts, i);
    if left.Ok? && Next(ts, left.pos, Bar) { PipeWellFormed(ts, left.pos + 1); }
  }

  lemma {:induction false} BackWellFormed(ts: seq<Tok>, cmd: Cmd, i: nat)
    requires i <= |ts| && WellFormed(cmd)
    ensures WellFormed(ParseBack(ts, cmd, i).cmd)
    decreases |ts| - i
  {
    if Next(ts, i, Amp) { BackWellFormed(ts, Back(cmd), i + 1); }
  }

  /** Whatever is accepted is a well-formed command. */
  lemma {:induction false} LineWellFormed(ts: seq<Tok>, i: nat)
    requires i <= |ts| && AreTokens(ts)
    ensures ParseLine(ts, i).Ok? ==> WellFormed(ParseLine(ts, i).cmd)
    decreases |ts| - i, 2
  {
    PipeWellFormed(ts, i);
    var pipe := ParsePipe(ts, i);
    if pipe.Ok? {
      BackWellFormed(ts, pipe.cmd, pipe.pos);
      var left := ParseBack(ts, pipe.cmd, pipe.pos);
      if Next(ts, left.pos, Semi) { LineWellFormed(ts, left.pos + 1); }
    }
  }
}
