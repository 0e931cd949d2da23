/** The parser of user/sh.c: a cursor over the line, a tree of spans into it, and nulterminate. */
module Shell {
  import opened ShellParser
  import Grammar = ShellGrammar
  import opened ShellLexer

  /** A counted string: what lies between a pointer and its end pointer. */
  datatype Span = Span(q: nat, eq: nat)

  datatype SpanRedirect = SpanRedirect(sign: Tok, file: Span)

  /** The structs that the parser builds. */
  datatype Tree =
    | TExec(args: seq<Span>)
    | TRedir(cmd: Tree, to: SpanRedirect)
    | TPipe(left: Tree, right: Tree)
    | TList(left: Tree, right: Tree)
    | TBack(cmd: Tree)

  function WrapTree(t: Tree, rs: seq<SpanRedirect>): Tree {
    if rs == [] then t else TRedir(WrapTree(t, rs[..|rs| - 1]), rs[|rs| - 1])
  }

  // ----- what a tree means ----------------------------------------------------------------------------

  /** k is a position of the span, or its end. */
  ghost predicate Within(s: string, sp: Span, k: nat) { sp.q <= k <= sp.eq <= |s| }

  /** The span is a maximal word of the line, and reads w. */
  ghost predicate Spelled(s: string, sp: Span, w: string) {
    && sp.q < sp.eq <= |s| && |w| == sp.eq - sp.q
    && forall k: nat :: Within(s, sp, k) ==>
         (k < sp.eq ==> IsWordChar(s[k]) && s[k] == w[k - sp.q]) && (sp.eq == k < |s| ==> !IsWordChar(s[k]))
  }

  ghost predicate AllSpelled(s: string, args: seq<Span>, ws: seq<string>) {
    |args| == |ws| && forall k: nat :: k < |args| ==> Spelled(s, args[k], ws[k])
  }

  ghost predicate RedirectSpelled(
    s: string, r: SpanRedirect, x: Redirect) { r.sign == x.sign && Spelled(s, r.file, x.file) }

  ghost predicate RedirectsSpelled(s: string, rs: seq<SpanRedirect>, xs: seq<Redirect>) {
    |rs| == |xs| && forall k: nat :: k < |rs| ==> RedirectSpelled(s, rs[k], xs[k])
  }

  /** The tree stands for the command c. */
  ghost predicate Means(s: string, t: Tree, c: Cmd) {
    match t
    case TExec(args) => c.Exec? && AllSpelled(s, args, c.args)
    case TRedir(cmd, to) => c.Redir? && Means(s, cmd, c.cmd) && RedirectSpelled(s, to, c.to)
    case TPipe(left, right) => c.Pipe? && Means(s, left, c.left) && Means(s, right, c.right)
    case TList(left, right) => c.List? && Means(s, left, c.left) && Means(s, right, c.right)
    case TBack(cmd) => c.Back? && Means(s, cmd, c.cmd)
  }

  lemma {:induction false} WrapMeans(s: string, t: Tree, c: Cmd, rs: seq<SpanRedirect>, xs: seq<Redirect>)
    requires Means(s, t, c) && RedirectsSpelled(s, rs, xs)
    ensures Means(s, WrapTree(t, rs), Wrap(c, xs))
  {
    if rs != [] {
      var n := |rs| - 1;
      assert RedirectSpelled(s, rs[n], xs[n]);
      WrapMeans(s, t, c, rs[..n], xs[..n]);
    }
  }

  lemma {:induction false} MoreSpelled(s: string, args: seq<Span>, ws: seq<string>, sp: Span, w: string)
    requires AllSpelled(s, args, ws) && Spelled(s, sp, w)
    ensures AllSpelled(s, args + [sp], ws + [w])
  {
  }

  lemma {:induction false} JoinSpelled(
    s: string, rs: seq<SpanRedirect>, xs: seq<Redirect>, rs': seq<SpanRedirect>, xs': seq<Redirect>)
    requires RedirectsSpelled(s, rs, xs) && RedirectsSpelled(s, rs', xs')
    ensures RedirectsSpelled(s, rs + rs', xs + xs')
  {
    forall k: nat | k < |rs + rs'| ensures RedirectSpelled(s, (rs + rs')[k], (xs + xs')[k]) {
      if k < |rs| {
        assert RedirectSpelled(s, rs[k], xs[k]);
      } else {
        assert RedirectSpelled(s, rs'[k - |rs|], xs'[k - |rs|]);
      }
    }
  }

  // ----- the cursor and the tokens -----------------------------------------------------------------------

  /** From i on the line has the tokens of ts from k on. */
  ghost predicate Sees(s: string, i: nat, ts: seq<Tok>, k: nat) {
    i <= |s| && k <= |ts| && forall left :: IsLex(s, i, left) ==> left == ts[k..]
  }

  lemma {:induction false} SeesLex(s: string, i: nat, ts: seq<Tok>, k: nat)
    requires i <= |s| && k <= |ts|
    ensures Sees(s, i, ts, k) <==> Lex(s, i) == ts[k..]
  {
    assert IsLex(s, i, Lex(s, i));
  }

  /** Whether the token starts with the character c. */
  ghost predicate Starts(t: Tok, c: char) {
    match c
    case '<' => t == Less
    case '>' => t == Greater || t == Append
    case '|' => t == Bar
    case '&' => t == Amp
    case ';' => t == Semi
    case '(' => t == Open
    case ')' => t == Close
    case _ => t.Word?
  }

  /** Skipping white space shows whether a token follows and how it starts. */
  lemma {:induction false} Peeked(s: string, i: nat, ts: seq<Tok>, k: nat)
    requires Sees(s, i, ts, k) && NoNul(s)
    ensures Sees(s, Skip(s, i), ts, k) && (Skip(s, i) < |s| <==> k < |ts|)
    ensures k < |ts| ==> Starts(ts[k], s[Skip(s, i)])
  {
    LexSkip(s, i);
    SeesLex(s, i, ts, k);
    SeesLex(s, Skip(s, i), ts, k);
    var t := GetToken(s, i);
    if t.Lexeme? { assert ts[k] == ts[k..][0]; }
  }

  /** gettoken takes the next token. */
  lemma {:induction false} Took(s: string, i: nat, ts: seq<Tok>, k: nat)
    requires Sees(s, i, ts, k) && NoNul(s)
    ensures var t := GetToken(s, i);
            && (t.End? <==> k == |ts|) && (t.End? ==> Sees(s, t.next, ts, k))
            && (t.Lexeme? ==> t.tok == ts[k] && Sees(s, t.next, ts, k + 1))
            && (t.Lexeme? && t.tok.Word? ==> Spelled(s, Span(t.q, t.eq), t.tok.text))
  {
    var t := GetToken(s, i);
    LexSkip(s, i);
    SeesLex(s, i, ts, k);
    WordEndIs(s, Skip(s, i));
    if t.Lexeme? {
      assert ts[k] == ts[k..][0];
      assert Lex(s, t.next) == ts[k..][1..];
      assert ts[k..][1..] == ts[k + 1..];
      SeesLex(s, t.next, ts, k + 1);
    } else {
      SeesLex(s, t.next, ts, k);
    }
  }

  /** The characters that gettoken skips, and those it takes for operators. */
  lemma {:induction false} Classes(c: char)
    ensures IsSpace(c) <==> c in " \t\r\n\U{0B}"
    ensures IsSymbol(c) <==> c in "<|>&;()"
  {
    var space, symbols := " \t\r\n\U{0B}", "<|>&;()";
    assert space[0] == ' ' && space[1] == '\t' && space[2] == '\r' && space[3] == '\n' && space[4] == '\U{0B}';
    assert symbols[0] == '<' && symbols[1] == '|' && symbols[2] == '>' && symbols[3] == '&';
    assert symbols[4] == ';' && symbols[5] == '(' && symbols[6] == ')';
  }

  /** The tokens that start a redirection, and those that end a simple command, by their texts. */
  lemma {:induction false} SignTexts(t: Tok)
    ensures IsSign(t) <==> !t.Word? && (Text(t) == "<" || Text(t) == ">" || Text(t) == ">>")
    ensures EndsWords(t) <==> !t.Word? && (Text(t) == "|" || Text(t) == ")" || Text(t) == "&" || Text(t) == ";")
  {
    assert !t.Word? ==> |Text(t)| == 2 || Text(t)[0] in {'<', '>', '|', '&', ';', '(', ')'};
  }

  /** The operator that stands at t.q, by its characters, or a word as long as it goes on. */
  ghost predicate Stands(s: string, t: Lexeme) {
    && t.Lexeme? && t.q < t.eq <= t.next <= |s|
    && (t.tok == Less <==> s[t.q] == '<') && (t.tok == Bar <==> s[t.q] == '|') && (t.tok == Amp <==> s[t.q] == '&')
    && (t.tok == Semi <==> s[t.q] == ';') && (t.tok == Open <==> s[t.q] == '(') && (t.tok == Close <==> s[t.q] == ')')
    && (t.tok == Append <==> s[t.q] == '>' && t.q + 1 < |s| && s[t.q + 1] == '>')
    && (t.tok == Greater <==> s[t.q] == '>' && !(t.q + 1 < |s| && s[t.q + 1] == '>'))
    && (t.tok == Append ==> t.eq == t.q + 2) && (!t.tok.Word? && t.tok != Append ==> t.eq == t.q + 1)
    && (t.tok.Word? ==>
          && t.tok.text == s[t.q..t.eq] && (forall k :: t.q <= k < t.eq ==> !IsSpace(s[k]) && !IsSymbol(s[k]))
          && (t.eq < |s| ==> IsSpace(s[t.eq]) || IsSymbol(s[t.eq])))
  }

  /** gettoken in characters: white space, then the longest token that stands there, then white space. */
  lemma {:induction false} TokenStands(s: string, i: nat)
    requires i <= |s| && NoNul(s)
    ensures var t := GetToken(s, i);
            && (t.End? ==> t.next == |s| && Blank(s, i, |s|))
            && (t.Lexeme? ==> Stands(s, t) && Blank(s, i, t.q) && Blank(s, t.eq, t.next))
            && (t.next < |s| ==> !IsSpace(s[t.next]))
  {
    var t := GetToken(s, i);
    SkipIs(s, i);
    if t.Lexeme? {
      SkipIs(s, t.eq);
      WordEndIs(s, t.q);
    }
  }

  class Line {
    /** The line with its terminating NUL, and where that is. */
    var mem: seq<char>
    const es: nat
    var pos: nat
    ghost const s: string

    ghost predicate Valid()
      reads this
    {
      mem == s + ['\0'] && es == |s| && pos <= es && NoNul(s)
    }

    constructor (text: string)
      requires NoNul(text)
      ensures Valid() && s == text && pos == 0 && fresh(this)
    {
      mem, es, pos, s := text + ['\0'], |text|, 0, text;
    }

    /** The loops that skip white space. */
    method SkipSpace(i: nat) returns (j: nat)
      requires Valid() && i <= es
      ensures j == Skip(s, i)
    {
      j := i;
      while j < es && IsSpace(mem[j])
        invariant i <= j <= es && Skip(s, j) == Skip(s, i)
      {
        j := j + 1;
      }
    }

    /** The switch of gettoken on a symbol: the token and its end. */
    method SymbolAt(q: nat) returns (tok: Tok, e: nat)
      requires Valid() && q < es && IsSymbol(s[q])
      ensures tok == Symbol(s, q) && e == q + Width(tok) && e <= es
    {
      e := q + 1;
      match mem[q]
      case '|' => tok := Bar;
      case '(' => tok := Open;
      case ')' => tok := Close;
      case ';' => tok := Semi;
      case '&' => tok := Amp;
      case '<' => tok := Less;
      case _ =>
        tok := Greater;
        if mem[e] == '>' {
          tok := Append;
          e := e + 1;
        }
    }

    /** The loop of gettoken over a word. */
    method WordAt(q: nat) returns (e: nat)
      requires Valid() && q < es
      ensures e == WordEnd(s, q)
    {
      e := q;
      while e < es && !IsSpace(mem[e]) && !IsSymbol(mem[e])
        invariant q <= e <= es && WordEnd(s, e) == WordEnd(s, q)
      {
        e := e + 1;
      }
    }

    /** gettoken. */
    method GetTok() returns (t: Lexeme)
      requires Valid()
      modifies this`pos
      ensures Valid() && t == GetToken(s, old(pos)) && pos == t.next
      ensures t.End? ==> pos == |s| && Blank(s, old(pos), |s|)
      ensures t.Lexeme? ==> Stands(s, t) && Blank(s, old(pos), t.q) && Blank(s, t.eq, pos)
      ensures pos < |s| ==> !IsSpace(s[pos])
    {
      TokenStands(s, pos);
      var q := SkipSpace(pos);
      if mem[q] == '\0' {
        t := End(q);
      } else if IsSymbol(mem[q]) {
        var tok, e := SymbolAt(q);
        var next := SkipSpace(e);
        t := Lexeme(tok, q, e, next);
      } else {
        var e := WordAt(q);
        var next := SkipSpace(e);
        assert mem[q..e] == s[q..e];
        t := Lexeme(Word(mem[q..e]), q, e, next);
      }
      pos := t.next;
    }

    /** peek. */
    method Peek(toks: set<char>, ghost ts: seq<Tok>, ghost k: nat) returns (r: bool)
      requires Valid() && Sees(s, pos, ts, k) && '\0' !in toks
      modifies this`pos
      ensures Valid() && Sees(s, pos, ts, k) && (pos < es <==> k < |ts|) && (k < |ts| ==> Starts(ts[k], s[pos]))
      ensures r <==> pos < es && s[pos] in toks
    {
      Peeked(s, pos, ts, k);
      pos := SkipSpace(pos);
      return mem[pos] != '\0' && mem[pos] in toks;
    }

    /** gettoken, as a step along the tokens. */
    method Take(ghost ts: seq<Tok>, ghost k: nat) returns (t: Lexeme)
      requires Valid() && Sees(s, pos, ts, k)
      modifies this`pos
      ensures Valid() && (t.End? <==> k == |ts|) && (t.End? ==> Sees(s, pos, ts, k))
      ensures t.Lexeme? ==> t.tok == ts[k] && Sees(s, pos, ts, k + 1)
      ensures t.Lexeme? && t.tok.Word? ==> Spelled(s, Span(t.q, t.eq), t.tok.text)
    {
      Took(s, pos, ts, k);
      t := GetTok();
    }

    /** peek for < and >. */
    method PeekSign(ghost ts: seq<Tok>, ghost k: nat) returns (r: bool)
      requires Valid() && Sees(s, pos, ts, k)
      modifies this`pos
      ensures Valid() && Sees(s, pos, ts, k) && (r <==> k < |ts| && IsSign(ts[k]))
    {
      r := Peek({'<', '>'}, ts, k);
    }

    /** peek for |, ), & and ;. */
    method PeekEnd(ghost ts: seq<Tok>, ghost k: nat) returns (r: bool)
      requires Valid() && Sees(s, pos, ts, k)
      modifies this`pos
      ensures Valid() && Sees(s, pos, ts, k) && (r <==> k < |ts| && EndsWords(ts[k]))
    {
      r := Peek({'|', ')', '&', ';'}, ts, k);
    }

    /** peek for one symbol. */
    method PeekFor(c: char, ghost tok: Tok, ghost ts: seq<Tok>, ghost k: nat) returns (r: bool)
      requires Valid() && Sees(s, pos, ts, k)
      requires (c, tok) in {('(', Open), (')', Close), ('|', Bar), ('&', Amp), (';', Semi)}
      modifies this`pos
      ensures Valid() && Sees(s, pos, ts, k) && (r <==> Next(ts, k, tok))
    {
      r := Peek({c}, ts, k);
    }

    /** One turn of the loop of parseredirs. */
    method Redirection(ghost ts: seq<Tok>, ghost k: nat) returns (ok: bool, r: SpanRedirect)
      requires Valid() && Sees(s, pos, ts, k) && k < |ts| && IsSign(ts[k])
      modifies this`pos
      ensures Valid() && (ok <==> k + 1 < |ts| && ts[k + 1].Word?)
      ensures ok ==> Sees(s, pos, ts, k + 2) && RedirectSpelled(s, r, Redirect(ts[k], ts[k + 1].text))
    {
      var tok := Take(ts, k);
      var file := Take(ts, k + 1);
      r := SpanRedirect(tok.tok, Span(0, 0));
      if file.End? || !file.tok.Word? {
        return false, r;
      }
      return true, SpanRedirect(tok.tok, Span(file.q, file.eq));
    }

    /** parseredirs: the redirections xs at the cursor, up to token e; false if one has no file. */
    method Redirections(ghost ts: seq<Tok>, ghost k: nat)
      returns (ok: bool, rs: seq<SpanRedirect>, ghost xs: seq<Redirect>, ghost e: nat)
      requires Valid() && Sees(s, pos, ts, k)
      modifies this`pos
      ensures Valid() && IsRedirs(ts, k, if ok then Redirects(xs, e) else NoFile)
      ensures Grammar.RedirectsRead(ts, k, if ok then Redirects(xs, e) else NoFile)
      ensures ok ==> k <= e && Sees(s, pos, ts, e) && RedirectsSpelled(s, rs, xs)
    {
      rs, xs, e := [], [], k;
      ghost var total := ParseRedirs(ts, k);
      ToReadStart(ts, k, total);
      var more := PeekSign(ts, e);
      while more
        invariant Valid() && k <= e && Sees(s, pos, ts, e) && (more <==> e < |ts| && IsSign(ts[e]))
        invariant RedirectsSpelled(s, rs, xs) && ToRead(ts, total, xs, e)
        decreases |ts| - e
      {
        ToReadMore(ts, total, xs, e);
        var r;
        ok, r := Redirection(ts, e);
        if !ok {
          return;
        }
        JoinSpelled(s, rs, xs, [r], [Redirect(ts[e], ts[e + 1].text)]);
        rs, xs := rs + [r], xs + [Redirect(ts[e], ts[e + 1].text)];
        e := e + 2;
        more := PeekSign(ts, e);
      }
      ok := true;
      ToReadEnd(ts, total, xs, e);
    }

    /** The loop of parseexec: words ws and redirections xs up to token e; false on a syntax error or a tenth word. */
    method Arguments(ghost ts: seq<Tok>, ghost k: nat)
      returns (ok: bool, args: seq<Span>, rs: seq<SpanRedirect>,
               ghost ws: seq<string>, ghost xs: seq<Redirect>, ghost e: nat)
      requires Valid() && Sees(s, pos, ts, k)
      modifies this`pos
      ensures Valid() && IsWords(ts, k, 0, if ok then Words(ws, xs, e) else BadWords)
      ensures Grammar.WordsRead(ts, k, if ok then Words(ws, xs, e) else BadWords)
      ensures ok ==> k <= e && Sees(s, pos, ts, e) && AllSpelled(s, args, ws) && RedirectsSpelled(s, rs, xs)
    {
      args, rs, ws, xs, e := [], [], [], [], k;
      ghost var total := ParseWords(ts, k, 0);
      WordsStart(ts, k, total);
      var end := PeekEnd(ts, e);
      while !end
        invariant Valid() && k <= e && Sees(s, pos, ts, e)
        invariant (end ==> e == |ts| || EndsWords(ts[e])) && (!end && e < |ts| ==> !EndsWords(ts[e]))
        invariant AllSpelled(s, args, ws) && RedirectsSpelled(s, rs, xs) && WordsLeft(ts, total, ws, xs, e, |args|)
        decreases |ts| - e, !end
      {
        var tok := Take(ts, e);
        if tok.End? {
          end := true;
        } else if !tok.tok.Word? {
          WordsEnd(ts, total, ws, xs, e, |args|);
          return false, args, rs, ws, xs, e;
        } else {
          MoreSpelled(s, args, ws, Span(tok.q, tok.eq), tok.tok.text);
          args, ws := args + [Span(tok.q, tok.eq)], ws + [tok.tok.text];
          if |args| >= MAXARGS {
            TooMany(ts, total, ws, xs, e);
            return false, args, rs, ws, xs, e;
          }
          ok, rs, xs, e := AfterWord(ts, e, rs, ws, xs, total);
          if !ok {
            return;
          }
          end := PeekEnd(ts, e);
        }
      }
      ok := true;
      WordsEnd(ts, total, ws, xs, e, |args|);
    }

    /** The redirections after a word, which is already in ws. */
    method AfterWord(
      ghost ts: seq<Tok>, ghost e: nat, rs: seq<SpanRedirect>, ghost ws: seq<string>, ghost xs: seq<Redirect>,
      ghost total: Words)
      returns (ok: bool, rs': seq<SpanRedirect>, ghost xs': seq<Redirect>, ghost e': nat)
      requires Valid() && e < |ts| && ts[e].Word? && Sees(s, pos, ts, e + 1) && RedirectsSpelled(s, rs, xs)
      requires 0 < |ws| < MAXARGS
      requires ws[|ws| - 1] == ts[e].text && WordsLeft(ts, total, ws[..|ws| - 1], xs, e, |ws| - 1)
      modifies this`pos
      ensures Valid() && (!ok ==> total.BadWords?)
      ensures ok ==>
          e < e' && Sees(s, pos, ts, e') && RedirectsSpelled(s, rs', xs') && WordsLeft(ts, total, ws, xs', e', |ws|)
    {
      var more;
      ghost var ys;
      ok, more, ys, e' := Redirections(ts, e + 1);
      WordsMore(ts, total, ws, xs, e, if ok then Redirects(ys, e') else NoFile);
      rs', xs' := rs, xs;
      if ok {
        JoinSpelled(s, rs, xs, more, ys);
        rs', xs' := rs + more, xs + ys;
      }
    }

    /** parseexec. */
    method ExecCmd(ghost ts: seq<Tok>, ghost k: nat) returns (ok: bool, t: Tree, ghost c: Cmd, ghost e: nat)
      requires Valid() && Sees(s, pos, ts, k)
      modifies this`pos
      ensures Valid() && IsExec(ts, k, Outcome(ok, c, e)) && (ok ==> k <= e && Sees(s, pos, ts, e) && Means(s, t, c))
      ensures Grammar.CommandRead(ts, k, Outcome(ok, c, e))
      decreases |ts| - k, 1
    {
      var block := PeekFor('(', Open, ts, k);
      if block {
        ok, t, c, e := Block(ts, k);
      } else {
        ok, t, c, e := SimpleCmd(ts, k);
      }
    }

    /** parseexec on anything but a block. */
    method SimpleCmd(ghost ts: seq<Tok>, ghost k: nat) returns (ok: bool, t: Tree, ghost c: Cmd, ghost e: nat)
      requires Valid() && Sees(s, pos, ts, k) && !Next(ts, k, Open)
      modifies this`pos
      ensures Valid() && IsExec(ts, k, Outcome(ok, c, e)) && (ok ==> k <= e && Sees(s, pos, ts, e) && Means(s, t, c))
      ensures Grammar.CommandRead(ts, k, Outcome(ok, c, e))
    {
      t, c, e := TExec([]), Exec([]), k;
      var rs, rs2, args;
      ghost var xs, xs2, ws, m;
      ok, rs, xs, m := Redirections(ts, k);
      if !ok {
        SimpleIs(ts, k, NoFile, BadWords);
        return;
      }
      ok, args, rs2, ws, xs2, e := Arguments(ts, m);
      SimpleIs(ts, k, Redirects(xs, m), if ok then Words(ws, xs2, e) else BadWords);
      if ok {
        t, c := WrapTree(TExec(args), rs + rs2), Wrap(Exec(ws), xs + xs2);
        JoinSpelled(s, rs, xs, rs2, xs2);
        WrapMeans(s, TExec(args), Exec(ws), rs + rs2, xs + xs2);
      }
    }

    /** parseblock. */
    method Block(ghost ts: seq<Tok>, ghost k: nat) returns (ok: bool, t: Tree, ghost c: Cmd, ghost e: nat)
      requires Valid() && Sees(s, pos, ts, k) && Next(ts, k, Open)
      modifies this`pos
      ensures Valid() && IsExec(ts, k, Outcome(ok, c, e)) && (ok ==> k <= e && Sees(s, pos, ts, e) && Means(s, t, c))
      ensures Grammar.CommandRead(ts, k, Outcome(ok, c, e))
      decreases |ts| - k, 0
    {
      var tok := Take(ts, k);
      var line;
      ghost var inner, m;
      ok, line, inner, m := LineCmd(ts, k + 1);
      if ok {
        ok, t, c, e := BlockTail(ts, k, line, inner, m);
      } else {
        BlockIs(ts, k, Fail, NoFile);
        t, c, e := line, inner, m;
      }
    }

    /** The rest of parseblock, once the line inside has been read. */
    method BlockTail(ghost ts: seq<Tok>, ghost k: nat, line: Tree, ghost inner: Cmd, ghost m: nat)
      returns (ok: bool, t: Tree, ghost c: Cmd, ghost e: nat)
      requires Valid() && k < m && Next(ts, k, Open) && IsLine(ts, k + 1, Ok(inner, m))
      requires Sees(s, pos, ts, m) && Means(s, line, inner)
      modifies this`pos
      ensures Valid() && IsExec(ts, k, Outcome(ok, c, e)) && (ok ==> k <= e && Sees(s, pos, ts, e) && Means(s, t, c))
      ensures Grammar.CommandRead(ts, k, Outcome(ok, c, e))
    {
      t, c, e := line, inner, m;
      ok := PeekFor(')', Close, ts, m);
      if !ok {
        BlockIs(ts, k, Ok(inner, m), NoFile);
        return;
      }
      var tok := Take(ts, m);
      var rs;
      ghost var xs;
      ok, rs, xs, e := Redirections(ts, m + 1);
      BlockIs(ts, k, Ok(inner, m), if ok then Redirects(xs, e) else NoFile);
      if ok {
        t, c := WrapTree(line, rs), Wrap(inner, xs);
        WrapMeans(s, line, inner, rs, xs);
      }
    }

    /** parsepipe. */
    method PipeCmd(ghost ts: seq<Tok>, ghost k: nat) returns (ok: bool, t: Tree, ghost c: Cmd, ghost e: nat)
      requires Valid() && Sees(s, pos, ts, k)
      modifies this`pos
      ensures Valid() && IsPipe(ts, k, Outcome(ok, c, e)) && (ok ==> k <= e && Sees(s, pos, ts, e) && Means(s, t, c))
      ensures Grammar.PipeRead(ts, k, Outcome(ok, c, e))
      decreases |ts| - k, 2
    {
      ghost var m, left;
      ok, t, left, m := ExecCmd(ts, k);
      c, e := left, m;
      if !ok {
        PipeIs(ts, k, Fail, Fail);
        return;
      }
      var more := PeekFor('|', Bar, ts, m);
      if more {
        var tok := Take(ts, m);
        var right;
        ghost var rightCmd;
        ok, right, rightCmd, e := PipeCmd(ts, m + 1);
        PipeIs(ts, k, Ok(left, m), Outcome(ok, rightCmd, e));
        t, c := TPipe(t, right), Pipe(left, rightCmd);
      } else {
        PipeIs(ts, k, Ok(left, m), Fail);
      }
    }

    /** parseline. */
    method LineCmd(ghost ts: seq<Tok>, ghost k: nat) returns (ok: bool, t: Tree, ghost c: Cmd, ghost e: nat)
      requires Valid() && Sees(s, pos, ts, k)
      modifies this`pos
      ensures Valid() && IsLine(ts, k, Outcome(ok, c, e)) && (ok ==> k <= e && Sees(s, pos, ts, e) && Means(s, t, c))
      ensures Grammar.LineRead(ts, k, Outcome(ok, c, e))
      decreases |ts| - k, 3
    {
      ghost var m, pipe;
      ok, t, pipe, m := PipeCmd(ts, k);
      c, e := pipe, m;
      if !ok {
        LineFails(ts, k);
        return;
      }
      t, c, e := Backs(ts, m, t, pipe);
      ghost var left, n := c, e;
      var more := PeekFor(';', Semi, ts, e);
      if more {
        var tok := Take(ts, e);
        var right;
        ghost var rightCmd;
        ok, right, rightCmd, e := LineCmd(ts, n + 1);
        LineIs(ts, k, pipe, m, left, n, Outcome(ok, rightCmd, e));
        t, c := TList(t, right), List(left, rightCmd);
      } else {
        LineIs(ts, k, pipe, m, left, n, Fail);
      }
    }

    /** The loop of parseline over &. */
    method Backs(
      ghost ts: seq<Tok>, ghost k: nat, t0: Tree, ghost c0: Cmd) returns (t: Tree, ghost c: Cmd, ghost e: nat)
      requires Valid() && Sees(s, pos, ts, k) && Means(s, t0, c0)
      modifies this`pos
      ensures Valid() && IsBack(ts, c0, k, Ok(c, e)) && k <= e && Sees(s, pos, ts, e) && Means(s, t, c)
    {
      t, c, e := t0, c0, k;
      ghost var total := ParseBack(ts, c0, k);
      var more := PeekFor('&', Amp, ts, e);
      while more
        invariant Valid() && k <= e && Sees(s, pos, ts, e) && Means(s, t, c) && (more <==> Next(ts, e, Amp))
        invariant BackLeft(ts, total, c, e)
        decreases |ts| - e
      {
        var tok := Take(ts, e);
        BackMore(ts, total, c, e);
        t, c, e := TBack(t), Back(c), e + 1;
        more := PeekFor('&', Amp, ts, e);
      }
      BackEnd(ts, total, c, e);
    }

    /** nulterminate: a NUL after every word of the tree, and no other change. */
    method NulTerminate(t: Tree)
      requires Below(Ends(t), |mem|)
      modifies this`mem
      ensures Cut(old(mem), mem, Ends(t))
      decreases t
    {
      ghost var mem0 := mem;
      match t
      case TExec(args) =>
        CutArgs(args);
      case TRedir(cmd, to) =>
        BelowParts(Ends(cmd), {to.file.eq}, |mem|);
        NulTerminate(cmd);
        ghost var mem1 := mem;
        mem := mem[to.file.eq := '\0'];
        CutTwice(mem0, mem1, mem, Ends(cmd), {to.file.eq});
      case TPipe(left, right) =>
        BelowParts(Ends(left), Ends(right), |mem|);
        NulTerminate(left);
        ghost var mem1 := mem;
        NulTerminate(right);
        CutTwice(mem0, mem1, mem, Ends(left), Ends(right));
      case TList(left, right) =>
        BelowParts(Ends(left), Ends(right), |mem|);
        NulTerminate(left);
        ghost var mem1 := mem;
        NulTerminate(right);
        CutTwice(mem0, mem1, mem, Ends(left), Ends(right));
      case TBack(cmd) =>
        NulTerminate(cmd);
    }

    /** The loop of nulterminate over the arguments of a command. */
    method CutArgs(args: seq<Span>)
      requires Below(ArgEnds(args, |args|), |mem|)
      modifies this`mem
      ensures Cut(old(mem), mem, ArgEnds(args, |args|))
    {
      ghost var mem0 := mem;
      var i: nat := 0;
      while i < |args|
        invariant i <= |args| && Cut(mem0, mem, ArgEnds(args, i))
      {
        ArgEndsMore(args, i);
        ghost var mem1 := mem;
        mem := mem[args[i].eq := '\0'];
        CutTwice(mem0, mem1, mem, ArgEnds(args, i), {args[i].eq});
        i := i + 1;
      }
    }

    /** parsecmd: the command of the line, whose words can then be read as strings where they stand. */
    method ParseCmd() returns (ok: bool, t: Tree, ghost c: Cmd)
      requires Valid() && pos == 0
      modifies this
      ensures ok <==> exists d :: IsCommand(s, d)
      ensures ok ==> IsCommand(s, c) && ReadsAs(mem, t, c) && Cut(old(mem), mem, Ends(t))
      ensures !ok ==> mem == old(mem)
    {
      ghost var ts := Lex(s, 0);
      SeesLex(s, 0, ts, 0);
      ghost var e;
      ok, t, c, e := LineCmd(ts, 0);
      TextIs(s, Outcome(ok, c, e));
      if !ok {
        return;
      }
      var r := Peek({}, ts, e);
      if pos != es {
        return false, t, c;
      }
      EndsOk(s, t, c);
      NulTerminate(t);
      AllRead(s, mem, Ends(t), t, c);
    }
  }

  lemma {:induction false} TextIs(s: string, line: Result)
    requires NoNul(s) && IsLine(Lex(s, 0), 0, line)
    ensures if line.Fail? || line.pos != |Lex(s, 0)| then forall d :: !IsCommand(s, d) else IsCommand(s, line.cmd)
  {
    forall d ensures IsCommand(s, d) <==> ParseText(s).Ok? && ParseText(s).cmd == d { ParseTextIff(s, d); }
  }

  // ----- the strings after nulterminate ---------------------------------------------------------------------

  ghost function ArgEnds(args: seq<Span>, n: nat): set<nat>
    requires n <= |args|
  {
    if n == 0 then {} else ArgEnds(args, n - 1) + {args[n - 1].eq}
  }

  /** The ends of all words of a tree. */
  ghost function Ends(t: Tree): set<nat> {
    match t
    case TExec(args) => ArgEnds(args, |args|)
    case TRedir(cmd, to) => Ends(cmd) + {to.file.eq}
    case TPipe(left, right) => Ends(left) + Ends(right)
    case TList(left, right) => Ends(left) + Ends(right)
    case TBack(cmd) => Ends(cmd)
  }

  lemma {:induction false} ArgEndsMore(args: seq<Span>, i: nat)
    requires i < |args|
    ensures ArgEnds(args, i + 1) == ArgEnds(args, i) + {args[i].eq} && args[i].eq in ArgEnds(args, |args|)
    decreases |args| - i
  {
    ArgEndsAll(args, i, |args|);
  }

  lemma {:induction false} ArgEndsAll(args: seq<Span>, i: nat, n: nat)
    requires i < n <= |args|
    ensures args[i].eq in ArgEnds(args, n)
  {
    if i < n - 1 { ArgEndsAll(args, i, n - 1); }
  }

  ghost predicate Below(ends: set<nat>, n: nat) { forall i :: i in ends ==> i < n }

  lemma {:induction false} BelowParts(a: set<nat>, b: set<nat>, n: nat)
    requires Below(a + b, n)
    ensures Below(a, n) && Below(b, n)
  {
    forall i | i in a ensures i < n { assert i in a + b; }
    forall i | i in b ensures i < n { assert i in a + b; }
  }

  ghost predicate CutAt(mem: seq<char>, mem': seq<char>, ends: set<nat>, i: nat) {
    i < |mem| && i < |mem'| ==> mem'[i] == if i in ends then '\0' else mem[i]
  }

  /** mem' is mem with NULs at ends. */
  ghost predicate Cut(mem: seq<char>, mem': seq<char>, ends: set<nat>) {
    |mem'| == |mem| && forall i: nat :: CutAt(mem, mem', ends, i)
  }

  lemma {:induction false} CutTwice(m0: seq<char>, m1: seq<char>, m2: seq<char>, a: set<nat>, b: set<nat>)
    requires Cut(m0, m1, a) && (Cut(m1, m2, b) || exists i: nat :: i < |m1| && b == {i} && m2 == m1[i := '\0'])
    ensures Cut(m0, m2, a + b)
  {
    forall i: nat ensures CutAt(m0, m2, a + b, i) {
      assert CutAt(m0, m1, a, i);
      if Cut(m1, m2, b) { assert CutAt(m1, m2, b, i); }
    }
  }

  /** The string that a C program reads at i. */
  function CString(mem: seq<char>, i: nat): string
    decreases |mem| - i
  {
    if i < |mem| && mem[i] != '\0' then [mem[i]] + CString(mem, i + 1) else ""
  }

  ghost predicate ArgReadsAs(mem: seq<char>, args: seq<Span>, ws: seq<string>, k: nat)
    requires k < |args| && k < |ws|
  {
    CString(mem, args[k].q) == ws[k]
  }

  /** Read through the pointers in it, the tree is the command c. */
  ghost predicate ReadsAs(mem: seq<char>, t: Tree, c: Cmd) {
    match t
    case TExec(args) =>
      c.Exec? && |args| == |c.args| && forall k: nat :: k < |args| ==> ArgReadsAs(mem, args, c.args, k)
    case TRedir(cmd, to) =>
      c.Redir? && ReadsAs(mem, cmd, c.cmd) && to.sign == c.to.sign && CString(mem, to.file.q) == c.to.file
    case TPipe(left, right) => c.Pipe? && ReadsAs(mem, left, c.left) && ReadsAs(mem, right, c.right)
    case TList(left, right) => c.List? && ReadsAs(mem, left, c.left) && ReadsAs(mem, right, c.right)
    case TBack(cmd) => c.Back? && ReadsAs(mem, cmd, c.cmd)
  }

  /** Position i is the end of the line or not part of a word. */
  ghost predicate EndOk(s: string, i: nat) { i <= |s| && (i < |s| ==> !IsWordChar(s[i])) }

  lemma {:induction false} SpelledEnd(s: string, sp: Span, w: string)
    requires Spelled(s, sp, w)
    ensures EndOk(s, sp.eq)
  {
    assert Within(s, sp, sp.eq);
  }

  lemma {:induction false} ArgEndsOk(s: string, args: seq<Span>, ws: seq<string>, n: nat)
    requires AllSpelled(s, args, ws) && n <= |args|
    ensures forall i :: i in ArgEnds(args, n) ==> EndOk(s, i)
  {
    if n > 0 {
      ArgEndsOk(s, args, ws, n - 1);
      SpelledEnd(s, args[n - 1], ws[n - 1]);
    }
  }

  /** No word of the tree ends inside a word. */
  lemma {:induction false} EndsOk(s: string, t: Tree, c: Cmd)
    requires Means(s, t, c)
    ensures forall i :: i in Ends(t) ==> EndOk(s, i)
  {
    match t
    case TExec(args) => ArgEndsOk(s, args, c.args, |args|);
    case TRedir(cmd, to) => EndsOk(s, cmd, c.cmd); SpelledEnd(s, to.file, c.to.file);
    case TPipe(left, right) => EndsOk(s, left, c.left); EndsOk(s, right, c.right);
    case TList(left, right) => EndsOk(s, left, c.left); EndsOk(s, right, c.right);
    case TBack(cmd) => EndsOk(s, cmd, c.cmd);
  }

  /** A word that has been cut at its end reads as itself. */
  lemma {:induction false} SpanReads(s: string, mem: seq<char>, ends: set<nat>, sp: Span, w: string, k: nat)
    requires Spelled(s, sp, w) && Cut(s + ['\0'], mem, ends) && sp.eq in ends && (forall i :: i in ends ==> EndOk(s, i))
    requires sp.q <= k <= sp.eq
    ensures CString(mem, k) == w[k - sp.q..]
    decreases sp.eq - k
  {
    assert CutAt(s + ['\0'], mem, ends, k);
    if k < sp.eq {
      assert Within(s, sp, k);
      SpanReads(s, mem, ends, sp, w, k + 1);
      assert k in ends ==> EndOk(s, k);
      assert w[k - sp.q..] == [w[k - sp.q]] + w[k + 1 - sp.q..];
    }
  }

  lemma {:induction false} SpanReadsAll(s: string, mem: seq<char>, ends: set<nat>, sp: Span, w: string)
    requires Spelled(s, sp, w) && Cut(s + ['\0'], mem, ends) && sp.eq in ends && (forall i :: i in ends ==> EndOk(s, i))
    ensures CString(mem, sp.q) == w
  {
    SpanReads(s, mem, ends, sp, w, sp.q);
    assert w[0..] == w;
  }

  /** After nulterminate every argument and file name reads as the parser saw it. */
  lemma {:induction false} AllRead(s: string, mem: seq<char>, ends: set<nat>, t: Tree, c: Cmd)
    requires Means(s, t, c) && Cut(s + ['\0'], mem, ends) && Ends(t) <= ends && (forall i :: i in ends ==> EndOk(s, i))
    ensures ReadsAs(mem, t, c)
  {
    match t
    case TExec(args) =>
      forall k: nat | k < |args| ensures ArgReadsAs(mem, args, c.args, k) {
        ArgEndsAll(args, k, |args|);
        SpanReadsAll(s, mem, ends, args[k], c.args[k]);
      }
    case TRedir(cmd, to) =>
      AllRead(s, mem, ends, cmd, c.cmd);
      SpanReadsAll(s, mem, ends, to.file, c.to.file);
    case TPipe(left, right) =>
      AllRead(s, mem, ends, left, c.left);
      AllRead(s, mem, ends, right, c.right);
    case TList(left, right) =>
      AllRead(s, mem, ends, left, c.left);
      AllRead(s, mem, ends, right, c.right);
    case TBack(cmd) =>
      AllRead(s, mem, ends, cmd, c.cmd);
  }

  // ----- the descent, step by step --------------------------------------------------------------------------

  ghost function Outcome(ok: bool, c: Cmd, e: nat): Result { if ok then Ok(c, e) else Fail }

  ghost predicate IsExec(ts: seq<Tok>, k: nat, res: Result) { k <= |ts| && res == ParseExec(ts, k) }
  ghost predicate IsPipe(ts: seq<Tok>, k: nat, res: Result) { k <= |ts| && res == ParsePipe(ts, k) }
  ghost predicate IsLine(ts: seq<Tok>, k: nat, res: Result) { k <= |ts| && res == ParseLine(ts, k) }
  ghost predicate IsBack(ts: seq<Tok>, c: Cmd, k: nat, res: Result) { k <= |ts| && res == ParseBack(ts, c, k) }

  lemma {:induction false} SimpleIs(ts: seq<Tok>, k: nat, r: Redirects, w: Words)
    requires k <= |ts| && !Next(ts, k, Open) && IsRedirs(ts, k, r) && (r.Redirects? ==> IsWords(ts, r.pos, 0, w))
    ensures var res := if r.NoFile? || w.BadWords? then Fail else Ok(Wrap(Exec(w.args), r.rs + w.rs), w.pos);
            IsExec(ts, k, res) && Grammar.CommandRead(ts, k, res)
  {
    Grammar.CommandExact(ts, k, ParseExec(ts, k));
  }

  lemma {:induction false} BlockIs(ts: seq<Tok>, k: nat, line: Result, r: Redirects)
    requires Next(ts, k, Open) && IsLine(ts, k + 1, line)
    requires (line.Ok? && Next(ts, line.pos, Close) ==> IsRedirs(ts, line.pos + 1, r))
    ensures var res := if line.Fail? || !Next(ts, line.pos, Close) || r.NoFile? then Fail
                       else Ok(Wrap(line.cmd, r.rs), r.pos);
            IsExec(ts, k, res) && Grammar.CommandRead(ts, k, res)
  {
    Grammar.CommandExact(ts, k, ParseExec(ts, k));
  }

  lemma {:induction false} PipeIs(ts: seq<Tok>, k: nat, left: Result, right: Result)
    requires IsExec(ts, k, left) && (left.Ok? && Next(ts, left.pos, Bar) ==> IsPipe(ts, left.pos + 1, right))
    ensures var res := if left.Fail? || !Next(ts, left.pos, Bar) then left
                       else if right.Fail? then Fail else Ok(Pipe(left.cmd, right.cmd), right.pos);
            IsPipe(ts, k, res) && Grammar.PipeRead(ts, k, res)
  {
    Grammar.PipeExact(ts, k, ParsePipe(ts, k));
  }

  lemma {:induction false} LineFails(ts: seq<Tok>, k: nat)
    requires IsPipe(ts, k, Fail)
    ensures IsLine(ts, k, Fail) && Grammar.LineRead(ts, k, Fail)
  {
    Grammar.LineExact(ts, k, ParseLine(ts, k));
  }

  lemma {:induction false} LineIs(ts: seq<Tok>, k: nat, pipe: Cmd, m: nat, left: Cmd, n: nat, right: Result)
    requires IsPipe(ts, k, Ok(pipe, m)) && IsBack(ts, pipe, m, Ok(left, n))
    requires (Next(ts, n, Semi) ==> IsLine(ts, n + 1, right))
    ensures var res := if !Next(ts, n, Semi) then Ok(left, n)
                       else if right.Fail? then Fail else Ok(List(left, right.cmd), right.pos);
            IsLine(ts, k, res) && Grammar.LineRead(ts, k, res)
  {
    Grammar.LineExact(ts, k, ParseLine(ts, k));
  }

  /** Of the run of & total, c has been read and the rest stands at e. */
  ghost predicate BackLeft(ts: seq<Tok>, total: Result, c: Cmd, e: nat) {
    forall rest :: IsBack(ts, c, e, rest) ==> total == rest
  }

  lemma {:induction false} BackMore(ts: seq<Tok>, total: Result, c: Cmd, e: nat)
    requires BackLeft(ts, total, c, e) && Next(ts, e, Amp)
    ensures BackLeft(ts, total, Back(c), e + 1)
  {
    assert IsBack(ts, c, e, ParseBack(ts, c, e));
  }

  lemma {:induction false} BackEnd(ts: seq<Tok>, total: Result, c: Cmd, e: nat)
    requires BackLeft(ts, total, c, e) && e <= |ts| && !Next(ts, e, Amp)
    ensures total == Ok(c, e)
  {
    assert IsBack(ts, c, e, ParseBack(ts, c, e));
  }

  // ----- the loops, step by step ---------------------------------------------------------------------------

  ghost predicate IsRedirs(ts: seq<Tok>, e: nat, rest: Redirects) { e <= |ts| && rest == ParseRedirs(ts, e) }

  /** Of the redirections total, rs have been read and the rest stands at e. */
  ghost predicate ToRead(ts: seq<Tok>, total: Redirects, rs: seq<Redirect>, e: nat) {
    forall rest :: IsRedirs(ts, e, rest) ==> total == if rest.NoFile? then NoFile else Redirects(rs + rest.rs, rest.pos)
  }

  lemma {:induction false} ToReadStart(ts: seq<Tok>, k: nat, total: Redirects)
    requires IsRedirs(ts, k, total)
    ensures ToRead(ts, total, [], k) && Grammar.RedirectsRead(ts, k, total)
  {
    Grammar.RedirectsExact(ts, k, total);
    if total.Redirects? { assert [] + total.rs == total.rs; }
  }

  lemma {:induction false} ToReadMore(ts: seq<Tok>, total: Redirects, rs: seq<Redirect>, e: nat)
    requires e < |ts| && IsSign(ts[e]) && ToRead(ts, total, rs, e)
    ensures e + 1 == |ts| || !ts[e + 1].Word? ==> total.NoFile?
    ensures e + 1 < |ts| && ts[e + 1].Word? ==> ToRead(ts, total, rs + [Redirect(ts[e], ts[e + 1].text)], e + 2)
  {
    assert IsRedirs(ts, e, ParseRedirs(ts, e));
    if e + 1 < |ts| && ts[e + 1].Word? {
      var x, e2 := Redirect(ts[e], ts[e + 1].text), e + 2;
      forall rest | IsRedirs(ts, e2, rest)
        ensures total == if rest.NoFile? then NoFile else Redirects(rs + [x] + rest.rs, rest.pos)
      {
        OneRedirect(ts, e, rest);
        if rest.Redirects? { assert rs + ([x] + rest.rs) == rs + [x] + rest.rs; }
      }
    }
  }

  lemma {:induction false} OneRedirect(ts: seq<Tok>, e: nat, rest: Redirects)
    requires e + 1 < |ts| && IsSign(ts[e]) && ts[e + 1].Word? && IsRedirs(ts, e + 2, rest)
    ensures IsRedirs(ts, e, if rest.NoFile? then NoFile
                            else Redirects([Redirect(ts[e], ts[e + 1].text)] + rest.rs, rest.pos))
  {
  }

  lemma {:induction false} ToReadEnd(ts: seq<Tok>, total: Redirects, rs: seq<Redirect>, e: nat)
    requires e <= |ts| && (e < |ts| ==> !IsSign(ts[e])) && ToRead(ts, total, rs, e)
    ensures total == Redirects(rs, e)
  {
    assert IsRedirs(ts, e, ParseRedirs(ts, e)) && rs + [] == rs;
  }

  ghost predicate IsWords(ts: seq<Tok>, e: nat, n: nat, rest: Words) { e <= |ts| && rest == ParseWords(ts, e, n) }

  /** Of the words total, the n in args and the redirections rs have been read and the rest stands at e. */
  ghost predicate WordsLeft(ts: seq<Tok>, total: Words, args: seq<string>, rs: seq<Redirect>, e: nat, n: nat) {
    forall rest :: IsWords(ts, e, n, rest) ==>
      total == if rest.BadWords? then BadWords else Words(args + rest.args, rs + rest.rs, rest.pos)
  }

  lemma {:induction false} WordsStart(ts: seq<Tok>, k: nat, total: Words)
    requires IsWords(ts, k, 0, total)
    ensures WordsLeft(ts, total, [], [], k, 0) && Grammar.WordsRead(ts, k, total)
  {
    Grammar.WordsExact(ts, k, total);
    if total.Words? { assert [] + total.args == total.args && [] + total.rs == total.rs; }
  }

  /** The next token is the word that ends ws, and redirections may follow. */
  lemma {:induction false} WordsMore(
    ts: seq<Tok>, total: Words, ws: seq<string>, xs: seq<Redirect>, e: nat, r: Redirects)
    requires e < |ts| && ts[e].Word? && IsRedirs(ts, e + 1, r) && 0 < |ws| < MAXARGS
    requires ws[|ws| - 1] == ts[e].text && WordsLeft(ts, total, ws[..|ws| - 1], xs, e, |ws| - 1)
    ensures r.NoFile? ==> total.BadWords?
    ensures r.Redirects? ==> WordsLeft(ts, total, ws, xs + r.rs, r.pos, |ws|)
  {
    var n := |ws| - 1;
    assert IsWords(ts, e, n, ParseWords(ts, e, n));
    if r.Redirects? {
      var more := ParseWords(ts, r.pos, n + 1);
      if more.Words? {
        assert ws[..n] + ([ts[e].text] + more.args) == ws + more.args;
        assert xs + (r.rs + more.rs) == (xs + r.rs) + more.rs;
      }
    }
  }

  /** A tenth word is too many. */
  lemma {:induction false} TooMany(ts: seq<Tok>, total: Words, ws: seq<string>, xs: seq<Redirect>, e: nat)
    requires e < |ts| && ts[e].Word? && |ws| >= MAXARGS && WordsLeft(ts, total, ws[..|ws| - 1], xs, e, |ws| - 1)
    ensures total.BadWords?
  {
    assert IsWords(ts, e, |ws| - 1, ParseWords(ts, e, |ws| - 1));
  }

  lemma {:induction false} WordsEnd(ts: seq<Tok>, total: Words, args: seq<string>, rs: seq<Redirect>, e: nat, n: nat)
    requires e <= |ts| && (e < |ts| ==> !ts[e].Word?) && WordsLeft(ts, total, args, rs, e, n)
    ensures if e == |ts| || EndsWords(ts[e]) then total == Words(args, rs, e) else total.BadWords?
  {
    assert IsWords(ts, e, n, ParseWords(ts, e, n)) && args + [] == args && rs + [] == rs;
  }
}
