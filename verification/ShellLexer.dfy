/** The tokens of a command line, as gettoken in user/sh.c reads them, and their spelling. */
module ShellLexer {
  import opened ShellParser
  import opened ShellGrammar
  import opened ShellRender

  /** The position after the white space at i. */
  function Skip(s: string, i: nat): (j: nat)
    requires i <= |s|
    ensures i <= j <= |s| && (j < |s| ==> !IsSpace(s[j]))
    decreases |s| - i
  {
    if i < |s| && IsSpace(s[i]) then Skip(s, i + 1) else i
  }

  /** The end of the word at i. */
  function WordEnd(s: string, i: nat): (j: nat)
    requires i <= |s|
    ensures i <= j <= |s| && (i < |s| && IsWordChar(s[i]) ==> i < j)
    decreases |s| - i
  {
    if i < |s| && IsWordChar(s[i]) then WordEnd(s, i + 1) else i
  }

  /** The word at i is maximal. */
  lemma {:induction false} WordEndIs(s: string, i: nat)
    requires i <= |s|
    ensures forall k :: i <= k < WordEnd(s, i) ==> IsWordChar(s[k])
    ensures WordEnd(s, i) < |s| ==> !IsWordChar(s[WordEnd(s, i)])
    decreases |s| - i
  {
    if i < |s| && IsWordChar(s[i]) { WordEndIs(s, i + 1); }
  }

  /** The symbol at j. */
  function Symbol(s: string, j: nat): Tok
    requires j < |s| && IsSymbol(s[j])
  {
    match s[j]
    case '<' => Less
    case '|' => Bar
    case '>' => if j + 1 < |s| && s[j + 1] == '>' then Append else Greater
    case '&' => Amp
    case ';' => Semi
    case '(' => Open
    case _ => Close
  }

  function Width(t: Tok): nat { if t == Append then 2 else 1 }

  /** What gettoken finds: the end of the line, or a token with its text at q..eq; then the next position. */
  datatype Lexeme = End(next: nat) | Lexeme(tok: Tok, q: nat, eq: nat, next: nat)

  function GetToken(s: string, i: nat): (t: Lexeme)
    requires i <= |s|
    ensures i <= t.next <= |s| && (t.Lexeme? ==> i <= t.q < t.eq <= t.next)
  {
    var j := Skip(s, i);
    if j == |s| || s[j] == '\0' then End(j)
    else if IsSymbol(s[j]) then
      var t := Symbol(s, j);
      Lexeme(t, j, j + Width(t), Skip(s, j + Width(t)))
    else
      var e := WordEnd(s, j);
      Lexeme(Word(s[j..e]), j, e, Skip(s, e))
  }

  /** The tokens from i on. */
  function Lex(s: string, i: nat): seq<Tok>
    requires i <= |s|
    decreases |s| - i
  {
    var t := GetToken(s, i);
    if t.End? then [] else [t.tok] + Lex(s, t.next)
  }

  lemma {:induction false} LexWords(s: string, i: nat)
    requires i <= |s|
    ensures AreTokens(Lex(s, i))
    decreases |s| - i
  {
    var t := GetToken(s, i);
    if t.Lexeme? {
      LexWords(s, t.next);
      WordEndIs(s, Skip(s, i));
      var ts := Lex(s, i);
      forall k | 0 <= k < |ts| ensures ts[k].Word? ==> IsWord(ts[k].text) {
        if k > 0 { assert ts[k] == Lex(s, t.next)[k - 1]; }
      }
    }
  }

  function Text(t: Tok): string {
    match t
    case Word(text) => text
    case Less => "<"
    case Greater => ">"
    case Append => ">>"
    case Bar => "|"
    case Amp => "&"
    case Semi => ";"
    case Open => "("
    case Close => ")"
  }

  // ----- what the tokens of a line are ----------------------------------------------------------------------

  ghost predicate NoNul(s: string) { forall k :: 0 <= k < |s| ==> s[k] != '\0' }

  /** Only white space from i to j. */
  ghost predicate Blank(s: string, i: nat, j: nat) { i <= j <= |s| && forall k :: i <= k < j ==> IsSpace(s[k]) }

  ghost predicate TextAt(s: string, j: nat, x: string) {
    j + |x| <= |s| && forall k :: 0 <= k < |x| ==> s[j + k] == x[k]
  }

  /** The token t stands at j and is all there is of it: a word does not go on, and > is not the start of >>. */
  ghost predicate Whole(s: string, j: nat, t: Tok) {
    && TextAt(s, j, Text(t)) && (t.Word? ==> IsWord(t.text))
    && (j + |Text(t)| < |s| ==>
          && (t.Word? ==> !IsWordChar(s[j + |Text(t)|]))
          && (t == Greater ==> s[j + |Text(t)|] != '>'))
  }

  ghost predicate TokenAt(s: string, i: nat, j: nat, t: Tok) { Blank(s, i, j) && Whole(s, j, t) }

  /** Where the k-th token may start at the earliest, the others standing at `at`. */
  ghost function From(i: nat, ts: seq<Tok>, at: seq<nat>, k: nat): nat
    requires |at| == |ts| && k <= |ts|
  {
    if k == 0 then i else at[k - 1] + |Text(ts[k - 1])|
  }

  ghost predicate PlacedAt(s: string, i: nat, ts: seq<Tok>, at: seq<nat>, k: nat)
    requires |at| == |ts| && k < |ts|
  {
    TokenAt(s, From(i, ts, at, k), at[k], ts[k])
  }

  /** From i on the line is the tokens ts, standing at `at`, with white space before, between and after them. */
  ghost predicate Layout(s: string, i: nat, ts: seq<Tok>, at: seq<nat>) {
    && |at| == |ts| && (forall k: nat :: k < |ts| ==> PlacedAt(s, i, ts, at, k))
    && Blank(s, From(i, ts, at, |ts|), |s|)
  }

  /** The line is the tokens ts with white space. */
  ghost predicate LaysOut(s: string, ts: seq<Tok>) { exists at: seq<nat> :: Layout(s, 0, ts, at) }

  lemma {:induction false} LayoutCons(s: string, i: nat, j: nat, t: Tok, ts: seq<Tok>, at: seq<nat>)
    requires TokenAt(s, i, j, t) && Layout(s, j + |Text(t)|, ts, at)
    ensures Layout(s, i, [t] + ts, [j] + at)
  {
    var ts', at' := [t] + ts, [j] + at;
    var m := j + |Text(t)|;
    forall k: nat | k < |ts'| ensures PlacedAt(s, i, ts', at', k) {
      if k > 0 {
        assert PlacedAt(s, m, ts, at, k - 1) && From(i, ts', at', k) == From(m, ts, at, k - 1);
      }
    }
    assert From(i, ts', at', |ts'|) == From(m, ts, at, |ts|);
  }

  lemma {:induction false} SkipTo(s: string, i: nat, j: nat)
    requires Blank(s, i, j) && (j < |s| ==> !IsSpace(s[j]))
    ensures Skip(s, i) == j
    decreases j - i
  {
    if i < j { SkipTo(s, i + 1, j); }
  }

  lemma {:induction false} SkipIs(s: string, i: nat)
    requires i <= |s|
    ensures Blank(s, i, Skip(s, i))
    decreases |s| - i
  {
    if i < |s| && IsSpace(s[i]) { SkipIs(s, i + 1); }
  }

  lemma {:induction false} WordEnds(s: string, i: nat, e: nat)
    requires i <= e <= |s| && (forall k :: i <= k < e ==> IsWordChar(s[k])) && (e < |s| ==> !IsWordChar(s[e]))
    ensures WordEnd(s, i) == e
    decreases e - i
  {
    if i < e { WordEnds(s, i + 1, e); }
  }

  /** gettoken at i reads t, which stands at j. */
  ghost predicate Reads(s: string, i: nat, j: nat, t: Tok) {
    i <= |s| && j + |Text(t)| <= |s| && GetToken(s, i) == Lexeme(t, j, j + |Text(t)|, Skip(s, j + |Text(t)|))
  }

  lemma {:induction false} WordReads(s: string, i: nat, j: nat, w: string)
    requires TokenAt(s, i, j, Word(w))
    ensures Reads(s, i, j, Word(w))
  {
    var e := j + |w|;
    forall k | j <= k < e ensures IsWordChar(s[k]) { assert s[j + (k - j)] == w[k - j]; }
    SkipTo(s, i, j);
    WordEnds(s, j, e);
    assert s[j..e] == w;
  }

  lemma {:induction false} SymbolReads(s: string, i: nat, j: nat, t: Tok)
    requires TokenAt(s, i, j, t) && !t.Word?
    ensures Reads(s, i, j, t)
  {
    SymbolAt(s, j, t);
    SkipTo(s, i, j);
  }

  lemma {:induction false} SymbolAt(s: string, j: nat, t: Tok)
    requires Whole(s, j, t) && !t.Word?
    ensures j < |s| && IsSymbol(s[j]) && !IsSpace(s[j]) && Symbol(s, j) == t && Width(t) == |Text(t)|
  {
    assert s[j + 0] == Text(t)[0];
    if t == Append { assert s[j + 1] == Text(t)[1]; }
  }

  /** A whole token that comes next is what gettoken reads. */
  lemma {:induction false} TokenReads(s: string, i: nat, j: nat, t: Tok)
    requires TokenAt(s, i, j, t)
    ensures Reads(s, i, j, t)
  {
    if t.Word? { WordReads(s, i, j, t.text); } else { SymbolReads(s, i, j, t); }
  }

  /** What gettoken reads is a whole token that comes next. */
  lemma {:induction false} ReadsToken(s: string, i: nat)
    requires i <= |s| && GetToken(s, i).Lexeme?
    ensures var t := GetToken(s, i); TokenAt(s, i, t.q, t.tok) && Reads(s, i, t.q, t.tok)
  {
    var j := Skip(s, i);
    SkipIs(s, i);
    if IsSymbol(s[j]) { SymbolWhole(s, j); } else { WordWhole(s, j, WordEnd(s, j)); }
  }

  lemma {:induction false} SymbolWhole(s: string, j: nat)
    requires j < |s| && IsSymbol(s[j])
    ensures Whole(s, j, Symbol(s, j)) && Width(Symbol(s, j)) == |Text(Symbol(s, j))|
  {
    if Symbol(s, j) == Append { assert s[j + 1] == Text(Append)[1]; }
  }

  lemma {:induction false} WordWhole(s: string, j: nat, e: nat)
    requires j < |s| && IsWordChar(s[j]) && e == WordEnd(s, j)
    ensures Whole(s, j, Word(s[j..e]))
  {
    WordEndIs(s, j);
  }

  /** The line is at an end iff only white space is left. */
  lemma {:induction false} EndIs(s: string, i: nat)
    requires i <= |s| && NoNul(s)
    ensures GetToken(s, i).End? <==> Blank(s, i, |s|)
  {
    SkipIs(s, i);
    if Blank(s, i, |s|) { SkipTo(s, i, |s|); }
  }

  lemma {:induction false} LexSkip(s: string, i: nat)
    requires i <= |s|
    ensures Lex(s, Skip(s, i)) == Lex(s, i)
  {
    assert Skip(s, Skip(s, i)) == Skip(s, i);
    assert GetToken(s, Skip(s, i)) == GetToken(s, i);
  }

  lemma {:induction false} LexCons(s: string, i: nat, j: nat, t: Tok)
    requires Reads(s, i, j, t)
    ensures Lex(s, i) == [t] + Lex(s, j + |Text(t)|)
  {
    var l, m := GetToken(s, i), j + |Text(t)|;
    LexNext(s, i, l);
    LexSkip(s, m);
  }

  lemma {:induction false} LexNext(s: string, i: nat, l: Lexeme)
    requires i <= |s| && l == GetToken(s, i) && l.Lexeme?
    ensures Lex(s, i) == [l.tok] + Lex(s, l.next)
  {
  }

  ghost predicate IsLex(s: string, i: nat, left: seq<Tok>) { i <= |s| && left == Lex(s, i) }

  /** From i on the tokens are ts. */
  ghost predicate Lexed(s: string, i: nat, ts: seq<Tok>) {
    i <= |s| && forall left :: IsLex(s, i, left) ==> left == ts
  }

  lemma {:induction false} LexedIs(s: string, i: nat, ts: seq<Tok>)
    requires i <= |s|
    ensures Lexed(s, i, ts) <==> Lex(s, i) == ts
  {
    assert IsLex(s, i, Lex(s, i));
  }

  lemma {:induction false} TokenFirst(s: string, i: nat, j: nat, t: Tok, rest: seq<Tok>)
    requires Reads(s, i, j, t) && Lexed(s, j + |Text(t)|, rest)
    ensures Lexed(s, i, [t] + rest)
  {
    LexCons(s, i, j, t);
    LexedIs(s, j + |Text(t)|, rest);
    LexedIs(s, i, [t] + rest);
  }

  lemma {:induction false} NoTokens(s: string, i: nat)
    requires i <= |s| && NoNul(s) && Blank(s, i, |s|)
    ensures Lexed(s, i, [])
  {
    EndIs(s, i);
    LexedIs(s, i, []);
  }

  /** From the k-th token of a layout on, the other tokens are what is read. */
  lemma {:induction false} LaidOutRead(s: string, i: nat, ts: seq<Tok>, at: seq<nat>, k: nat, p: nat, us: seq<Tok>)
    requires NoNul(s) && Layout(s, i, ts, at) && k <= |ts| && p == From(i, ts, at, k) <= |s| && us == ts[k..]
    ensures Lexed(s, p, us)
    decreases |ts| - k
  {
    if k == |ts| {
      NoTokens(s, p);
    } else {
      assert PlacedAt(s, i, ts, at, k);
      LaidOutRead(s, i, ts, at, k + 1, at[k] + |Text(ts[k])|, ts[k + 1..]);
      TokenStep(s, p, at[k], ts[k], ts[k + 1..], us);
    }
  }

  lemma {:induction false} TokenStep(s: string, i: nat, j: nat, t: Tok, rest: seq<Tok>, ts: seq<Tok>)
    requires TokenAt(s, i, j, t) && Lexed(s, j + |Text(t)|, rest) && ts == [t] + rest
    ensures Lexed(s, i, ts)
  {
    TokenReads(s, i, j, t);
    TokenFirst(s, i, j, t, rest);
  }

  lemma {:induction false} NextToken(s: string, i: nat) returns (j: nat, t: Tok)
    requires i <= |s| && GetToken(s, i).Lexeme?
    ensures TokenAt(s, i, j, t) && Reads(s, i, j, t) && i < j + |Text(t)| <= |s|
  {
    ReadsToken(s, i);
    j, t := GetToken(s, i).q, GetToken(s, i).tok;
  }

  /** What is read is laid out in the line. */
  lemma {:induction false} ReadLaidOut(s: string, i: nat) returns (ts: seq<Tok>, at: seq<nat>)
    requires i <= |s| && NoNul(s)
    ensures Layout(s, i, ts, at) && Lexed(s, i, ts)
    decreases |s| - i
  {
    EndIs(s, i);
    if GetToken(s, i).End? {
      NoTokens(s, i);
      ts, at := [], [];
    } else {
      var j, t := NextToken(s, i);
      var rest, ps := ReadLaidOut(s, j + |Text(t)|);
      LayoutCons(s, i, j, t, rest, ps);
      TokenFirst(s, i, j, t, rest);
      ts, at := [t] + rest, [j] + ps;
    }
  }

  /** The tokens of a line are exactly those it lays out. */
  lemma {:induction false} LexIffLaidOut(s: string, ts: seq<Tok>)
    requires NoNul(s)
    ensures Lex(s, 0) == ts <==> LaysOut(s, ts)
  {
    var us, ps := ReadLaidOut(s, 0);
    LexedIs(s, 0, us);
    LexedIs(s, 0, ts);
    if LaysOut(s, ts) {
      var at :| Layout(s, 0, ts, at);
      LaidOutRead(s, 0, ts, at, 0, 0, ts);
    }
  }

  // ----- spelling ----------------------------------------------------------------------------------------

  /** Every token followed by a space. */
  function Spell(ts: seq<Tok>): string {
    if ts == [] then "" else Text(ts[0]) + " " + Spell(ts[1..])
  }

  lemma {:induction false} PrefixAt(s: string, i: nat, x: string, rest: string, m: nat)
    requires i <= |s| && s[i..] == x + [' '] + rest && m == i + |x| + 1
    ensures TextAt(s, i, x) && m <= |s| && s[m - 1] == ' ' && s[m..] == rest
  {
    var u := x + [' '] + rest;
    assert |u| == |x| + 1 + |rest|;
    assert u[|x|] == ' ' && s[i + |x|] == s[i..][|x|];
    forall k | 0 <= k < |x| ensures s[i + k] == x[k] { assert u[k] == x[k] && s[i..][k] == s[i + k]; }
    assert u[|x| + 1..] == rest;
    assert s[m..] == s[i..][|x| + 1..];
  }

  /** Reading the spelling of tokens gives the tokens. */
  lemma {:induction false} SpellRead(s: string, i: nat, ts: seq<Tok>)
    requires i <= |s| && NoNul(s) && AreTokens(ts) && s[i..] == Spell(ts)
    ensures Lexed(s, i, ts)
    decreases |ts|
  {
    if ts == [] {
      NoTokens(s, i);
    } else {
      var t, rest := ts[0], ts[1..];
      var m := i + |Text(t)| + 1;
      FirstSpelled(s, i, t, Spell(rest), m);
      SpellRead(s, m, rest);
      SpellStep(s, i, t, rest, m);
      assert ts == [t] + rest;
    }
  }

  lemma {:induction false} SpellStep(s: string, i: nat, t: Tok, rest: seq<Tok>, m: nat)
    requires TokenAt(s, i, i, t) && m == i + |Text(t)| + 1 <= |s| && s[m - 1] == ' ' && Lexed(s, m, rest)
    ensures Lexed(s, i, [t] + rest)
  {
    LexBlank(s, m - 1, rest);
    TokenStep(s, i, i, t, rest, [t] + rest);
  }

  lemma {:induction false} LexBlank(s: string, i: nat, ts: seq<Tok>)
    requires i < |s| && s[i] == ' ' && Lexed(s, i + 1, ts)
    ensures Lexed(s, i, ts)
  {
    assert Skip(s, i) == Skip(s, i + 1);
    LexSkip(s, i);
    LexSkip(s, i + 1);
    LexedIs(s, i, ts);
    LexedIs(s, i + 1, ts);
  }

  lemma {:induction false} FirstSpelled(s: string, i: nat, t: Tok, rest: string, m: nat)
    requires i <= |s| && (t.Word? ==> IsWord(t.text)) && s[i..] == Text(t) + [' '] + rest && m == i + |Text(t)| + 1
    ensures TokenAt(s, i, i, t) && m <= |s| && s[m - 1] == ' ' && s[m..] == rest
  {
    PrefixAt(s, i, Text(t), rest, m);
  }

  lemma {:induction false} SpellNoNul(ts: seq<Tok>)
    requires AreTokens(ts)
    ensures NoNul(Spell(ts))
  {
    if ts != [] {
      SpellNoNul(ts[1..]);
      TextNoNul(ts[0]);
    }
  }

  lemma {:induction false} TextNoNul(t: Tok)
    requires t.Word? ==> IsWord(t.text)
    ensures NoNul(Text(t))
  {
  }

  /** Reading the spelling of tokens gives the tokens. */
  lemma {:induction false} LexSpell(ts: seq<Tok>)
    requires AreTokens(ts)
    ensures Lex(Spell(ts), 0) == ts
  {
    var s := Spell(ts);
    assert s[0..] == s;
    SpellNoNul(ts);
    SpellRead(s, 0, ts);
    LexedIs(s, 0, ts);
  }

  // ----- whole lines -------------------------------------------------------------------------------------------

  /** parsecmd on the text of a line. */
  function ParseText(s: string): Result { Parse(Lex(s, 0)) }

  /** The line s, with any white space, is the command c. */
  ghost predicate IsCommand(s: string, c: Cmd) { exists ts :: LaysOut(s, ts) && Derives(ts, c) }

  /** parsecmd accepts a line as c exactly if the line is the command c. */
  lemma {:induction false} ParseTextIff(s: string, c: Cmd)
    requires NoNul(s)
    ensures ParseText(s).Ok? && ParseText(s).cmd == c <==> IsCommand(s, c)
  {
    var ts := Lex(s, 0);
    LexIffLaidOut(s, ts);
    ParseIffDerives(ts, c);
    if IsCommand(s, c) {
      var us :| LaysOut(s, us) && Derives(us, c);
      LexIffLaidOut(s, us);
    }
  }

  /** A command tree as a command line. */
  function Render(c: Cmd): string { Spell(RenderLine(c)) }

  lemma {:induction false} Tokens3(a: seq<Tok>, t: Tok, b: seq<Tok>)
    requires AreTokens(a) && !t.Word? && AreTokens(b)
    ensures AreTokens(a + [t] + b) && AreTokens(a + [t])
  {
  }

  lemma {:induction false} ExecTokens(c: Cmd)
    requires WellFormed(c) && (!Base(c).Exec? ==> AreTokens(RenderLine(Base(c))))
    ensures AreTokens(RenderExec(c))
  {
    BaseWellFormed(c);
    RedirsTokens(Redirs(c));
    var b := Base(c);
    var head := if b.Exec? then RenderWords(b.args) else [Open] + RenderLine(b) + [Close];
    if b.Exec? { WordsTokens(b.args); }
    assert AreTokens(head);
    assert AreTokens(head + RenderRedirs(Redirs(c)));
  }

  lemma {:induction false} RenderTokens(c: Cmd)
    requires WellFormed(c)
    ensures AreTokens(RenderExec(c)) && AreTokens(RenderLine(c)) && AreTokens(RenderBack(c)) && AreTokens(RenderPipe(c))
    decreases c
  {
    match c
    case Exec(args) => ExecTokens(c);
    case Redir(cmd, to) => BaseWellFormed(c); RenderTokens(Base(c)); ExecTokens(c);
    case Pipe(left, right) =>
      RenderTokens(left);
      RenderTokens(right);
      Tokens3(RenderExec(left), Bar, RenderPipe(right));
      ExecTokens(c);
    case List(left, right) =>
      RenderTokens(left);
      RenderTokens(right);
      Tokens3(RenderBack(left), Semi, RenderLine(right));
      ExecTokens(c);
    case Back(cmd) =>
      RenderTokens(cmd);
      Tokens3(RenderBack(cmd), Amp, []);
      ExecTokens(c);
  }

  lemma {:induction false} WordsTokens(args: seq<string>)
    requires AreWords(args)
    ensures AreTokens(RenderWords(args))
  {
    if args != [] {
      WordsTokens(args[1..]);
      ConsItem(Arg(args[0]), ArgItems(args[1..]));
    }
  }

  lemma {:induction false} RedirsTokens(rs: seq<Redirect>)
    requires AreRedirects(rs)
    ensures AreTokens(RenderRedirs(rs))
  {
    if rs != [] {
      RedirsTokens(rs[1..]);
      ConsItem(Red(rs[0]), RedItems(rs[1..]));
      assert IsRedirect(rs[0]);
    }
  }

  /** Every command tree with at most nine arguments per command, rendered as a line, parses back to itself. */
  lemma {:induction false} TextRoundTrip(c: Cmd)
    requires WellFormed(c)
    ensures ParseText(Render(c)).Ok? && ParseText(Render(c)).cmd == c
  {
    var s := Render(c);
    RenderTokens(c);
    LexSpell(RenderLine(c));
    RoundTrip(c);
  }

  /** What the parser accepts is well-formed, and rendering it gives a line that means the same. */
  lemma {:induction false} Reparse(s: string)
    requires ParseText(s).Ok?
    ensures WellFormed(ParseText(s).cmd) && ParseText(Render(ParseText(s).cmd)).Ok?
    ensures ParseText(Render(ParseText(s).cmd)).cmd == ParseText(s).cmd
  {
    LexWords(s, 0);
    LineWellFormed(Lex(s, 0), 0);
    TextRoundTrip(ParseText(s).cmd);
  }
}
