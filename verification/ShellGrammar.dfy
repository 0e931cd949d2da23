/**
 * The command grammar that user/sh.c parses, as a relation between token runs and command trees, and the
 * proof that the parser accepts exactly what it derives.
 *
 *   line    ::= backs | backs ';' line
 *   backs   ::= pipe | backs '&'
 *   pipe    ::= command | command '|' pipe
 *   command ::= (word | redir)* with at most nine words | block
 *   block   ::= '(' line ')' | block redir
 *   redir   ::= ('<' | '>' | '>>') word
 */
module ShellGrammar {
  import opened ShellParser

  // ----- simple commands ----------------------------------------------------------------------------------

  /** A word or a redirection of a simple command. */
  datatype Item = Arg(word: string) | Red(to: Redirect)

  function ItemToks(item: Item): seq<Tok> {
    match item
    case Arg(w) => [Word(w)]
    case Red(r) => [r.sign, Word(r.file)]
  }

  function Toks(items: seq<Item>): seq<Tok> {
    if items == [] then [] else ItemToks(items[0]) + Toks(items[1..])
  }

  /** The words among the items, in order. */
  function Args(items: seq<Item>): seq<string> {
    if items == [] then []
    else (if items[0].Arg? then [items[0].word] else []) + Args(items[1..])
  }

  /** The redirections among the items, in order. */
  function Reds(items: seq<Item>): seq<Redirect> {
    if items == [] then []
    else (if items[0].Red? then [items[0].to] else []) + Reds(items[1..])
  }

  predicate ItemsOk(items: seq<Item>) {
    forall k :: 0 <= k < |items| ==> items[k].Red? ==> IsSign(items[k].to.sign)
  }

  /** The tokens t stand at i..e in ts. */
  ghost predicate At(ts: seq<Tok>, i: nat, t: seq<Tok>, e: nat) {
    i <= e <= |ts| && e - i == |t| && ts[i..e] == t
  }

  /** Tokens i..e spell the items, and the items make the command c. */
  ghost predicate SimpleOf(ts: seq<Tok>, i: nat, e: nat, c: Cmd, items: seq<Item>) {
    && ItemsOk(items) && At(ts, i, Toks(items), e)
    && |Args(items)| < 10 && c == Wrap(Exec(Args(items)), Reds(items))
  }

  ghost predicate DerivesSimple(ts: seq<Tok>, i: nat, e: nat, c: Cmd) {
    exists items :: SimpleOf(ts, i, e, c, items)
  }

  // ----- the grammar ----------------------------------------------------------------------------------------

  /** Tokens i..e-1 form a block: a parenthesised line and redirections after it, each around what comes before. */
  ghost predicate DerivesBlock(ts: seq<Tok>, i: nat, e: nat, c: Cmd)
    requires i <= e <= |ts|
    decreases e - i, 0
  {
    || (i + 1 < e && ts[i] == Open && ts[e - 1] == Close && DerivesLine(ts, i + 1, e - 1, c))
    || (c.Redir? && i + 1 < e && RedirectAt(ts, e - 2, c.to) && DerivesBlock(ts, i, e - 2, c.cmd))
  }

  /** The two tokens at k are the redirection r. */
  ghost predicate RedirectAt(ts: seq<Tok>, k: nat, r: Redirect) {
    k + 1 < |ts| && IsSign(ts[k]) && ts[k + 1].Word? && r == Redirect(ts[k], ts[k + 1].text)
  }

  ghost predicate DerivesCommand(ts: seq<Tok>, i: nat, e: nat, c: Cmd)
    requires i <= e <= |ts|
    decreases e - i, 1
  {
    DerivesSimple(ts, i, e, c) || DerivesBlock(ts, i, e, c)
  }

  /** The first | splits a pipe, which therefore groups to the right. */
  ghost predicate DerivesPipe(ts: seq<Tok>, i: nat, e: nat, c: Cmd)
    requires i <= e <= |ts|
    decreases e - i, 3
  {
    DerivesCommand(ts, i, e, c) || exists m: nat :: BarAt(ts, i, m, e, c)
  }

  ghost predicate BarAt(ts: seq<Tok>, i: nat, m: nat, e: nat, c: Cmd)
    requires i <= e <= |ts|
    decreases e - i, 2
  {
    i <= m < e && ts[m] == Bar && c.Pipe? && DerivesCommand(ts, i, m, c.left) && DerivesPipe(ts, m + 1, e, c.right)
  }

  ghost predicate DerivesBacks(ts: seq<Tok>, i: nat, e: nat, c: Cmd)
    requires i <= e <= |ts|
    decreases e - i, 4
  {
    || DerivesPipe(ts, i, e, c)
    || (c.Back? && i < e && ts[e - 1] == Amp && DerivesBacks(ts, i, e - 1, c.cmd))
  }

  ghost predicate DerivesLine(ts: seq<Tok>, i: nat, e: nat, c: Cmd)
    requires i <= e <= |ts|
    decreases e - i, 6
  {
    DerivesBacks(ts, i, e, c) || exists m: nat :: SemiAt(ts, i, m, e, c)
  }

  ghost predicate SemiAt(ts: seq<Tok>, i: nat, m: nat, e: nat, c: Cmd)
    requires i <= e <= |ts|
    decreases e - i, 5
  {
    i <= m < e && ts[m] == Semi && c.List? && DerivesBacks(ts, i, m, c.left) && DerivesLine(ts, m + 1, e, c.right)
  }

  /** The tokens are one line that stands for the command c. */
  ghost predicate Derives(ts: seq<Tok>, c: Cmd) { DerivesLine(ts, 0, |ts|, c) }

  // ----- token runs -------------------------------------------------------------------------------------------

  lemma {:induction false} AtSplit(ts: seq<Tok>, i: nat, a: seq<Tok>, b: seq<Tok>, e: nat, t: seq<Tok>)
    returns (m: nat)
    requires At(ts, i, t, e) && t == a + b
    ensures m == i + |a| && i <= m <= e && At(ts, i, a, m) && At(ts, m, b, e)
  {
    m := i + |a|;
    assert ts[i..m] == ts[i..e][..|a|];
    assert ts[m..e] == ts[i..e][|a|..];
  }

  lemma {:induction false} AtJoin(ts: seq<Tok>, i: nat, a: seq<Tok>, m: nat, b: seq<Tok>, e: nat)
    requires At(ts, i, a, m) && At(ts, m, b, e)
    ensures At(ts, i, a + b, e)
  {
    assert ts[i..e] == ts[i..m] + ts[m..e];
  }

  lemma {:induction false} AtTok(ts: seq<Tok>, i: nat, t: seq<Tok>, e: nat, k: nat)
    requires At(ts, i, t, e) && k < |t|
    ensures ts[i + k] == t[k]
  {
    assert ts[i..e][k] == ts[i + k];
  }

  /** The end of the line or a token that ends a simple command comes at e. */
  ghost predicate Ends(ts: seq<Tok>, e: nat) { e <= |ts| && (e < |ts| ==> EndsWords(ts[e])) }

  // ----- items in the parser ------------------------------------------------------------------------------------

  /** One redirection and then the others. */
  lemma {:induction false} RedirsStep(ts: seq<Tok>, i: nat)
    requires i + 1 < |ts| && IsSign(ts[i]) && ts[i + 1].Word?
    ensures var more := ParseRedirs(ts, i + 2);
            ParseRedirs(ts, i) == if more.NoFile? then NoFile
                                  else Redirects([Redirect(ts[i], ts[i + 1].text)] + more.rs, more.pos)
  {
  }

  lemma {:induction false} NoRedirs(ts: seq<Tok>, i: nat)
    requires i <= |ts| && (i < |ts| ==> !IsSign(ts[i]))
    ensures ParseRedirs(ts, i) == Redirects([], i)
  {
  }

  /** One word, the redirections r after it, and then the others. */
  lemma {:induction false} WordsStep(ts: seq<Tok>, i: nat, n: nat, r: Redirects, more: Words)
    requires i < |ts| && ts[i].Word? && n + 1 < MAXARGS
    requires r == ParseRedirs(ts, i + 1) && r.Redirects? && more == ParseWords(ts, r.pos, n + 1) && more.Words?
    ensures ParseWords(ts, i, n) == Words([ts[i].text] + more.args, r.rs + more.rs, more.pos)
  {
  }

  lemma {:induction false} NoWords(ts: seq<Tok>, e: nat, n: nat)
    requires Ends(ts, e)
    ensures ParseWords(ts, e, n) == Words([], [], e)
  {
  }

  /** An item in front of others. */
  lemma {:induction false} ConsItem(item: Item, items: seq<Item>)
    ensures Toks([item] + items) == ItemToks(item) + Toks(items)
    ensures Args([item] + items) == (if item.Arg? then [item.word] else []) + Args(items)
    ensures Reds([item] + items) == (if item.Red? then [item.to] else []) + Reds(items)
    ensures ItemsOk([item] + items) <==> ItemsOk(items) && (item.Red? ==> IsSign(item.to.sign))
  {
    var all := [item] + items;
    assert all[1..] == items && all[0] == item;
    if ItemsOk(all) {
      forall k | 0 <= k < |items| ensures items[k].Red? ==> IsSign(items[k].to.sign) { assert all[k + 1] == items[k]; }
    }
    if ItemsOk(items) && (item.Red? ==> IsSign(item.to.sign)) {
      forall k | 0 <= k < |all| ensures all[k].Red? ==> IsSign(all[k].to.sign) {
        if k > 0 { assert all[k] == items[k - 1]; }
      }
    }
  }

  /** Redirections as items. */
  function RedItems(rs: seq<Redirect>): seq<Item> {
    if rs == [] then [] else [Red(rs[0])] + RedItems(rs[1..])
  }

  /** The redirections rs, and nothing but them, stand at i..e. */
  ghost predicate RedirectsAt(ts: seq<Tok>, i: nat, rs: seq<Redirect>, e: nat) {
    ItemsOk(RedItems(rs)) && At(ts, i, Toks(RedItems(rs)), e)
  }

  lemma {:induction false} JoinItems(a: seq<Item>, b: seq<Item>)
    ensures Toks(a + b) == Toks(a) + Toks(b) && Args(a + b) == Args(a) + Args(b) && Reds(a + b) == Reds(a) + Reds(b)
    ensures ItemsOk(a) && ItemsOk(b) ==> ItemsOk(a + b)
  {
    JoinToks(a, b);
    JoinArgs(a, b);
    JoinReds(a, b);
  }

  lemma {:induction false} Assoc<T>(a: seq<T>, b: seq<T>, c: seq<T>)
    ensures (a + b) + c == a + (b + c)
  {
  }

  lemma {:induction false} JoinToks(a: seq<Item>, b: seq<Item>)
    ensures Toks(a + b) == Toks(a) + Toks(b)
  {
    if a == [] {
      assert a + b == b;
    } else {
      JoinToks(a[1..], b);
      assert (a + b)[1..] == a[1..] + b;
      Assoc(ItemToks(a[0]), Toks(a[1..]), Toks(b));
    }
  }

  lemma {:induction false} JoinArgs(a: seq<Item>, b: seq<Item>)
    ensures Args(a + b) == Args(a) + Args(b)
  {
    if a == [] {
      assert a + b == b;
    } else {
      JoinArgs(a[1..], b);
      assert (a + b)[1..] == a[1..] + b;
      Assoc(if a[0].Arg? then [a[0].word] else [], Args(a[1..]), Args(b));
    }
  }

  lemma {:induction false} JoinReds(a: seq<Item>, b: seq<Item>)
    ensures Reds(a + b) == Reds(a) + Reds(b)
  {
    if a == [] {
      assert a + b == b;
    } else {
      JoinReds(a[1..], b);
      assert (a + b)[1..] == a[1..] + b;
      Assoc(if a[0].Red? then [a[0].to] else [], Reds(a[1..]), Reds(b));
    }
  }

  lemma {:induction false} RedItemsAre(rs: seq<Redirect>)
    ensures Args(RedItems(rs)) == [] && Reds(RedItems(rs)) == rs
  {
    if rs != [] {
      RedItemsAre(rs[1..]);
      ConsItem(Red(rs[0]), RedItems(rs[1..]));
      assert rs == [rs[0]] + rs[1..];
    }
  }

  /** Two tokens that are a redirection, in front of the redirections rs. */
  lemma {:induction false} RedirectsCons(ts: seq<Tok>, i: nat, r: Redirect, rs: seq<Redirect>, e: nat)
    ensures RedirectsAt(ts, i, [r] + rs, e) <==> RedirectAt(ts, i, r) && RedirectsAt(ts, i + 2, rs, e)
  {
    var all, t := [r] + rs, ItemToks(Red(r));
    assert all[1..] == rs;
    ConsItem(Red(r), RedItems(rs));
    if RedirectsAt(ts, i, all, e) {
      var m := AtSplit(ts, i, t, Toks(RedItems(rs)), e, Toks(RedItems(all)));
      AtTok(ts, i, t, m, 0);
      AtTok(ts, i, t, m, 1);
    }
    if RedirectAt(ts, i, r) && RedirectsAt(ts, i + 2, rs, e) {
      assert ts[i..i + 2] == t;
      AtJoin(ts, i, t, i + 2, Toks(RedItems(rs)), e);
    }
  }

  lemma {:induction false} NoRedirectsAt(ts: seq<Tok>, i: nat, e: nat)
    ensures RedirectsAt(ts, i, [], e) <==> i == e <= |ts|
  {
  }

  /** What parseredirs reads are the redirections there, up to a token that starts none. */
  lemma {:induction false} RedirsSound(ts: seq<Tok>, i: nat, r: Redirects)
    requires i <= |ts| && r == ParseRedirs(ts, i) && r.Redirects?
    ensures RedirectsAt(ts, i, r.rs, r.pos) && (r.pos < |ts| ==> !IsSign(ts[r.pos]))
    decreases |ts| - i
  {
    if i == |ts| || !IsSign(ts[i]) {
      NoRedirectsAt(ts, i, i);
    } else {
      var more := ParseRedirs(ts, i + 2);
      RedirsStep(ts, i);
      RedirsSound(ts, i + 2, more);
      RedirectsCons(ts, i, Redirect(ts[i], ts[i + 1].text), more.rs, more.pos);
    }
  }

  /** Redirections up to a token that starts none are what parseredirs reads. */
  lemma {:induction false} RedirsComplete(ts: seq<Tok>, i: nat, rs: seq<Redirect>, e: nat)
    requires RedirectsAt(ts, i, rs, e) && (e < |ts| ==> !IsSign(ts[e]))
    ensures ParseRedirs(ts, i) == Redirects(rs, e)
    decreases |rs|
  {
    if rs == [] {
      NoRedirectsAt(ts, i, e);
      NoRedirs(ts, i);
    } else {
      var r, rest := rs[0], rs[1..];
      assert rs == [r] + rest;
      RedirectsCons(ts, i, r, rest, e);
      RedirsComplete(ts, i + 2, rest, e);
      RedirsStep(ts, i);
    }
  }

  /** The items of a simple command stand at i..e. */
  ghost predicate ItemsAt(
    ts: seq<Tok>, i: nat, items: seq<Item>, e: nat) { ItemsOk(items) && At(ts, i, Toks(items), e) }

  /** The words and redirections that the loop of parseexec collects are those of the items there. */
  lemma {:induction false} WordsSound(ts: seq<Tok>, i: nat, n: nat, w: Words) returns (items: seq<Item>)
    requires i <= |ts| && w == ParseWords(ts, i, n) && w.Words?
    ensures ItemsAt(ts, i, items, w.pos) && Args(items) == w.args && Reds(items) == w.rs && Ends(ts, w.pos)
    decreases |ts| - i
  {
    if i == |ts| || EndsWords(ts[i]) {
      items := [];
    } else {
      var r := ParseRedirs(ts, i + 1);
      var more := ParseWords(ts, r.pos, n + 1);
      RedirsSound(ts, i + 1, r);
      var rest := WordsSound(ts, r.pos, n + 1, more);
      items := WordItems(ts, i, r, rest, more.pos);
    }
  }

  /** A word, redirections and further items in a row. */
  lemma {:induction false} WordItems(
    ts: seq<Tok>, i: nat, r: Redirects, rest: seq<Item>, e: nat) returns (items: seq<Item>)
    requires i < |ts| && ts[i].Word? && r.Redirects? && RedirectsAt(ts, i + 1, r.rs, r.pos)
    requires ItemsAt(ts, r.pos, rest, e)
    ensures ItemsAt(ts, i, items, e) && Args(items) == [ts[i].text] + Args(rest) && Reds(items) == r.rs + Reds(rest)
  {
    var reds, w := RedItems(r.rs), Arg(ts[i].text);
    JoinItems(reds, rest);
    ConsItem(w, reds + rest);
    RedItemsAre(r.rs);
    AtJoin(ts, i + 1, Toks(reds), r.pos, Toks(rest), e);
    assert ts[i..i + 1] == ItemToks(w);
    AtJoin(ts, i, ItemToks(w), i + 1, Toks(reds + rest), e);
    items := [w] + (reds + rest);
    assert [] + Args(rest) == Args(rest);
  }

  /** A simple command that parseexec reads is one. */
  lemma {:induction false} SimpleSound(ts: seq<Tok>, i: nat)
    requires i <= |ts| && ParseSimple(ts, i).Ok?
    ensures var res := ParseSimple(ts, i); DerivesSimple(ts, i, res.pos, res.cmd) && Ends(ts, res.pos)
  {
    var r := ParseRedirs(ts, i);
    var w := ParseWords(ts, r.pos, 0);
    RedirsSound(ts, i, r);
    var rest := WordsSound(ts, r.pos, 0, w);
    var reds := RedItems(r.rs);
    JoinItems(reds, rest);
    RedItemsAre(r.rs);
    AtJoin(ts, i, Toks(reds), r.pos, Toks(rest), w.pos);
    assert [] + Args(rest) == Args(rest);
    assert SimpleOf(ts, i, w.pos, ParseSimple(ts, i).cmd, reds + rest);
  }

  /** First item of a run. */
  lemma {:induction false} ItemsCons(ts: seq<Tok>, i: nat, items: seq<Item>, e: nat) returns (k: nat)
    requires ItemsAt(ts, i, items, e) && items != []
    ensures ItemsAt(ts, k, items[1..], e) && i < k <= |ts|
    ensures items[0].Arg? ==> k == i + 1 && ts[i] == Word(items[0].word)
    ensures items[0].Red? ==> k == i + 2 && RedirectAt(ts, i, items[0].to)
    ensures Args(items) == (if items[0].Arg? then [items[0].word] else []) + Args(items[1..])
    ensures Reds(items) == (if items[0].Red? then [items[0].to] else []) + Reds(items[1..])
  {
    var x, rest := items[0], items[1..];
    assert items == [x] + rest;
    ConsItem(x, rest);
    k := AtSplit(ts, i, ItemToks(x), Toks(rest), e, Toks(items));
    AtTok(ts, i, ItemToks(x), k, 0);
    if x.Red? { AtTok(ts, i, ItemToks(x), k, 1); }
  }

  /** Redirections and then the loop of parseexec, together. */
  ghost predicate Collects(ts: seq<Tok>, i: nat, n: nat, args: seq<string>, reds: seq<Redirect>, e: nat) {
    i <= |ts|
    && var r := ParseRedirs(ts, i);
    r.Redirects?
    && var w := ParseWords(ts, r.pos, n);
    w.Words? && w.args == args && r.rs + w.rs == reds && w.pos == e
  }

  lemma {:induction false} CollectArg(ts: seq<Tok>, i: nat, n: nat, args: seq<string>, reds: seq<Redirect>, e: nat)
    requires i < |ts| && ts[i].Word? && n + 1 < MAXARGS && Collects(ts, i + 1, n + 1, args, reds, e)
    ensures Collects(ts, i, n, [ts[i].text] + args, reds, e)
  {
    var r := ParseRedirs(ts, i + 1);
    var w := ParseWords(ts, r.pos, n + 1);
    NoRedirs(ts, i);
    WordsStep(ts, i, n, r, w);
    assert [] + reds == reds;
  }

  lemma {:induction false} CollectRed(
    ts: seq<Tok>, i: nat, n: nat, r: Redirect, args: seq<string>, reds: seq<Redirect>, e: nat)
    requires RedirectAt(ts, i, r) && Collects(ts, i + 2, n, args, reds, e)
    ensures Collects(ts, i, n, args, [r] + reds, e)
  {
    RedirsStep(ts, i);
    var more := ParseRedirs(ts, i + 2);
    var w := ParseWords(ts, more.pos, n);
    assert ([r] + more.rs) + w.rs == [r] + (more.rs + w.rs);
  }

  lemma {:induction false} CollectNone(ts: seq<Tok>, e: nat, n: nat)
    requires Ends(ts, e)
    ensures Collects(ts, e, n, [], [], e)
  {
    NoRedirs(ts, e);
    NoWords(ts, e, n);
  }

  /** Items followed by the end of a simple command are collected in order. */
  lemma {:induction false} ItemsComplete(ts: seq<Tok>, i: nat, items: seq<Item>, n: nat, e: nat)
    requires ItemsAt(ts, i, items, e) && n + |Args(items)| < MAXARGS && Ends(ts, e)
    ensures Collects(ts, i, n, Args(items), Reds(items), e)
    decreases |items|
  {
    if items == [] {
      CollectNone(ts, e, n);
    } else {
      var k := ItemsCons(ts, i, items, e);
      var x, rest := items[0], items[1..];
      if x.Arg? {
        ItemsComplete(ts, k, rest, n + 1, e);
        CollectArg(ts, i, n, Args(rest), Reds(rest), e);
        assert [] + Reds(rest) == Reds(rest);
      } else {
        ItemsComplete(ts, k, rest, n, e);
        CollectRed(ts, i, n, x.to, Args(rest), Reds(rest), e);
        assert [] + Args(rest) == Args(rest);
      }
    }
  }

  /** A simple command does not start with a parenthesis. */
  lemma {:induction false} ItemsStart(ts: seq<Tok>, i: nat, items: seq<Item>, e: nat)
    requires ItemsAt(ts, i, items, e) && Ends(ts, e)
    ensures !Next(ts, i, Open)
  {
    if items != [] { var k := ItemsCons(ts, i, items, e); }
  }

  lemma {:induction false} SimpleComplete(ts: seq<Tok>, i: nat, c: Cmd, e: nat)
    requires i <= e <= |ts| && DerivesSimple(ts, i, e, c) && Ends(ts, e)
    ensures ParseExec(ts, i) == Ok(c, e)
  {
    var items :| SimpleOf(ts, i, e, c, items);
    ItemsStart(ts, i, items, e);
    ItemsComplete(ts, i, items, 0, e);
    SimpleIs(ts, i, Args(items), Reds(items), e);
  }

  lemma {:induction false} SimpleIs(ts: seq<Tok>, i: nat, args: seq<string>, reds: seq<Redirect>, e: nat)
    requires Collects(ts, i, 0, args, reds, e) && !Next(ts, i, Open)
    ensures ParseExec(ts, i) == Ok(Wrap(Exec(args), reds), e)
  {
  }

  // ----- soundness -----------------------------------------------------------------------------------------------

  /** A block with redirections after it. */
  lemma {:induction false} BlockWrapped(ts: seq<Tok>, i: nat, m: nat, c: Cmd, rs: seq<Redirect>, e: nat)
    requires i <= m <= |ts| && DerivesBlock(ts, i, m, c) && RedirectsAt(ts, m, rs, e)
    ensures i <= e <= |ts| && DerivesBlock(ts, i, e, Wrap(c, rs))
    decreases |rs|
  {
    if rs == [] {
      NoRedirectsAt(ts, m, e);
    } else {
      var n := |rs| - 1;
      var k := LastRedirect(ts, m, rs, e);
      BlockWrapped(ts, i, m, c, rs[..n], k);
    }
  }

  /** The last of some redirections. */
  lemma {:induction false} LastRedirect(ts: seq<Tok>, i: nat, rs: seq<Redirect>, e: nat) returns (k: nat)
    requires RedirectsAt(ts, i, rs, e) && rs != []
    ensures k + 2 == e <= |ts| && RedirectsAt(ts, i, rs[..|rs| - 1], k) && RedirectAt(ts, k, rs[|rs| - 1])
    decreases |rs|
  {
    var r, rest := rs[0], rs[1..];
    assert rs == [r] + rest;
    RedirectsCons(ts, i, r, rest, e);
    if rest == [] {
      NoRedirectsAt(ts, i + 2, e);
      NoRedirectsAt(ts, i, i);
      k := i;
    } else {
      k := LastRedirect(ts, i + 2, rest, e);
      RedirectsCons(ts, i, r, rest[..|rest| - 1], k);
      assert rs[..|rs| - 1] == [r] + rest[..|rest| - 1];
    }
  }

  lemma {:induction false} BlockSound(ts: seq<Tok>, i: nat, line: Result, res: Result)
    requires Next(ts, i, Open) && line.Ok? && i + 1 <= line.pos <= |ts| && DerivesLine(ts, i + 1, line.pos, line.cmd)
    requires res == BlockRest(ts, line) && res.Ok?
    ensures i <= res.pos <= |ts| && DerivesBlock(ts, i, res.pos, res.cmd)
  {
    var m := line.pos + 1;
    assert DerivesBlock(ts, i, m, line.cmd);
    var r := ParseRedirs(ts, m);
    RedirsSound(ts, m, r);
    BlockWrapped(ts, i, m, line.cmd, r.rs, r.pos);
  }

  lemma {:induction false} CommandSound(ts: seq<Tok>, i: nat, res: Result)
    requires i <= |ts| && res == ParseExec(ts, i) && res.Ok?
    ensures DerivesCommand(ts, i, res.pos, res.cmd)
    decreases |ts| - i, 0
  {
    if Next(ts, i, Open) {
      var line := ParseLine(ts, i + 1);
      LineSound(ts, i + 1, line);
      BlockSound(ts, i, line, res);
    } else {
      SimpleSound(ts, i);
    }
  }

  lemma {:induction false} PipeSound(ts: seq<Tok>, i: nat, res: Result)
    requires i <= |ts| && res == ParsePipe(ts, i) && res.Ok?
    ensures DerivesPipe(ts, i, res.pos, res.cmd)
    decreases |ts| - i, 1
  {
    var left, right := PipeCases(ts, i, res);
    CommandSound(ts, i, left);
    if Next(ts, left.pos, Bar) {
      PipeSound(ts, left.pos + 1, right);
      BarDerives(ts, i, left, right);
    }
  }

  lemma {:induction false} PipeCases(ts: seq<Tok>, i: nat, res: Result) returns (left: Result, right: Result)
    requires i <= |ts| && res == ParsePipe(ts, i) && res.Ok?
    ensures left == ParseExec(ts, i) && left.Ok? && i <= left.pos <= |ts| && (!Next(ts, left.pos, Bar) ==> res == left)
    ensures Next(ts, left.pos, Bar) ==>
              && right == ParsePipe(ts, left.pos + 1) && right.Ok? && left.pos < right.pos <= |ts|
              && res == Ok(Pipe(left.cmd, right.cmd), right.pos)
  {
    left, right := ParseExec(ts, i), Fail;
    if Next(ts, left.pos, Bar) { right := ParsePipe(ts, left.pos + 1); }
  }

  lemma {:induction false} BarDerives(ts: seq<Tok>, i: nat, left: Result, right: Result)
    requires left.Ok? && right.Ok? && i <= left.pos < right.pos <= |ts| && ts[left.pos] == Bar
    requires DerivesCommand(ts, i, left.pos, left.cmd) && DerivesPipe(ts, left.pos + 1, right.pos, right.cmd)
    ensures DerivesPipe(ts, i, right.pos, Pipe(left.cmd, right.cmd))
  {
    assert BarAt(ts, i, left.pos, right.pos, Pipe(left.cmd, right.cmd));
  }

  lemma {:induction false} BacksSound(ts: seq<Tok>, i: nat, c: Cmd, m: nat, res: Result)
    requires i <= m <= |ts| && DerivesBacks(ts, i, m, c) && res == ParseBack(ts, c, m)
    ensures DerivesBacks(ts, i, res.pos, res.cmd)
    decreases |ts| - m
  {
    if Next(ts, m, Amp) { BacksSound(ts, i, Back(c), m + 1, res); }
  }

  lemma {:induction false} LineSound(ts: seq<Tok>, i: nat, res: Result)
    requires i <= |ts| && res == ParseLine(ts, i) && res.Ok?
    ensures DerivesLine(ts, i, res.pos, res.cmd)
    decreases |ts| - i, 2
  {
    var pipe := ParsePipe(ts, i);
    var left := LineCases(ts, i, pipe, res);
    PipeSound(ts, i, pipe);
    BacksSound(ts, i, pipe.cmd, pipe.pos, left);
    if Next(ts, left.pos, Semi) {
      var right := ParseLine(ts, left.pos + 1);
      LineSound(ts, left.pos + 1, right);
      SemiDerives(ts, i, left, right);
    }
  }

  lemma {:induction false} LineCases(ts: seq<Tok>, i: nat, pipe: Result, res: Result) returns (left: Result)
    requires i <= |ts| && pipe == ParsePipe(ts, i) && res == ParseLine(ts, i) && res.Ok?
    ensures pipe.Ok? && i <= pipe.pos <= |ts| && left == ParseBack(ts, pipe.cmd, pipe.pos) && i <= left.pos <= |ts|
    ensures !Next(ts, left.pos, Semi) ==> res == left
    ensures Next(ts, left.pos, Semi) ==>
              var right := ParseLine(ts, left.pos + 1);
              right.Ok? && res == Ok(List(left.cmd, right.cmd), right.pos)
  {
    left := ParseBack(ts, pipe.cmd, pipe.pos);
  }

  lemma {:induction false} SemiDerives(ts: seq<Tok>, i: nat, left: Result, right: Result)
    requires left.Ok? && right.Ok? && i <= left.pos < right.pos <= |ts| && ts[left.pos] == Semi
    requires DerivesBacks(ts, i, left.pos, left.cmd) && DerivesLine(ts, left.pos + 1, right.pos, right.cmd)
    ensures DerivesLine(ts, i, right.pos, List(left.cmd, right.cmd))
  {
    assert SemiAt(ts, i, left.pos, right.pos, List(left.cmd, right.cmd));
  }

  // ----- completeness -----------------------------------------------------------------------------------------------

  /** A block is a parenthesised line with redirections after it. */
  lemma {:induction false} BlockParts(
    ts: seq<Tok>, i: nat, e: nat, c: Cmd) returns (m: nat, inner: Cmd, rs: seq<Redirect>)
    requires i <= e <= |ts| && DerivesBlock(ts, i, e, c)
    ensures i < m < e && ts[i] == Open && ts[m] == Close && DerivesLine(ts, i + 1, m, inner)
    ensures RedirectsAt(ts, m + 1, rs, e) && c == Wrap(inner, rs)
    decreases e - i
  {
    if i + 1 < e && ts[i] == Open && ts[e - 1] == Close && DerivesLine(ts, i + 1, e - 1, c) {
      m, inner, rs := e - 1, c, [];
      NoRedirectsAt(ts, e, e);
    } else {
      m, inner, rs := BlockParts(ts, i, e - 2, c.cmd);
      RedirectsSnoc(ts, m + 1, rs, e - 2, c.to);
      rs := rs + [c.to];
      assert rs[..|rs| - 1] + [c.to] == rs;
    }
  }

  lemma {:induction false} RedirectsSnoc(ts: seq<Tok>, i: nat, rs: seq<Redirect>, e: nat, r: Redirect)
    requires RedirectsAt(ts, i, rs, e) && RedirectAt(ts, e, r)
    ensures RedirectsAt(ts, i, rs + [r], e + 2)
    decreases |rs|
  {
    NoRedirectsAt(ts, e + 2, e + 2);
    if rs == [] {
      NoRedirectsAt(ts, i, e);
      RedirectsCons(ts, i, r, [], e + 2);
      assert rs + [r] == [r] + [];
    } else {
      var x, rest := rs[0], rs[1..];
      assert rs == [x] + rest && rs + [r] == [x] + (rest + [r]);
      RedirectsCons(ts, i, x, rest, e);
      RedirectsSnoc(ts, i + 2, rest, e, r);
      RedirectsCons(ts, i, x, rest + [r], e + 2);
    }
  }

  lemma {:induction false} BlockIs(ts: seq<Tok>, i: nat, inner: Cmd, m: nat, rs: seq<Redirect>, e: nat)
    requires Next(ts, i, Open) && Next(ts, m, Close)
    ensures ParseLine(ts, i + 1) == Ok(inner, m) && ParseRedirs(ts, m + 1) == Redirects(rs, e) ==>
              ParseExec(ts, i) == Ok(Wrap(inner, rs), e)
  {
  }

  lemma {:induction false} CommandComplete(ts: seq<Tok>, i: nat, e: nat, c: Cmd)
    requires i <= e <= |ts| && DerivesCommand(ts, i, e, c) && Ends(ts, e)
    ensures ParseExec(ts, i) == Ok(c, e)
    decreases e - i, 0
  {
    if DerivesSimple(ts, i, e, c) {
      SimpleComplete(ts, i, c, e);
    } else {
      var m, inner, rs := BlockParts(ts, i, e, c);
      LineComplete(ts, i + 1, m, inner);
      BlockComplete(ts, i, inner, m, rs, e);
    }
  }

  lemma {:induction false} BlockComplete(ts: seq<Tok>, i: nat, inner: Cmd, m: nat, rs: seq<Redirect>, e: nat)
    requires Next(ts, i, Open) && Next(ts, m, Close) && RedirectsAt(ts, m + 1, rs, e) && Ends(ts, e)
    ensures ParseLine(ts, i + 1) == Ok(inner, m) ==> ParseExec(ts, i) == Ok(Wrap(inner, rs), e)
  {
    BlockIs(ts, i, inner, m, rs, e);
    RedirsComplete(ts, m + 1, rs, e);
  }

  /** After e neither a command nor a pipe goes on. */
  ghost predicate EndsPipe(ts: seq<Tok>, e: nat) { Ends(ts, e) && !Next(ts, e, Bar) }

  lemma {:induction false} PipeIs(ts: seq<Tok>, i: nat, left: Cmd, m: nat, right: Cmd, e: nat)
    requires i <= |ts| && Next(ts, m, Bar)
    ensures ParseExec(ts, i) == Ok(left, m) && ParsePipe(ts, m + 1) == Ok(right, e) ==>
              ParsePipe(ts, i) == Ok(Pipe(left, right), e)
  {
  }

  lemma {:induction false} PipeOne(ts: seq<Tok>, i: nat, c: Cmd, e: nat)
    requires i <= |ts| && e <= |ts| && !Next(ts, e, Bar)
    ensures ParseExec(ts, i) == Ok(c, e) ==> ParsePipe(ts, i) == Ok(c, e)
  {
  }

  lemma {:induction false} PipeComplete(ts: seq<Tok>, i: nat, e: nat, c: Cmd)
    requires i <= e <= |ts| && DerivesPipe(ts, i, e, c) && EndsPipe(ts, e)
    ensures ParsePipe(ts, i) == Ok(c, e)
    decreases e - i, 1
  {
    if DerivesCommand(ts, i, e, c) {
      PipeOne(ts, i, c, e);
      CommandComplete(ts, i, e, c);
    } else {
      var m: nat :| BarAt(ts, i, m, e, c);
      PipeIs(ts, i, c.left, m, c.right, e);
      CommandComplete(ts, i, m, c.left);
      PipeComplete(ts, m + 1, e, c.right);
    }
  }

  /** parseline has read c up to p, all but the & and ; that may follow. */
  ghost predicate ReadsBack(ts: seq<Tok>, i: nat, c: Cmd, p: nat) {
    && i <= |ts| && p <= |ts| && ParsePipe(ts, i).Ok?
    && ParseBack(ts, ParsePipe(ts, i).cmd, ParsePipe(ts, i).pos) == ParseBack(ts, c, p)
  }

  lemma {:induction false} BackStep(ts: seq<Tok>, i: nat, c: Cmd, m: nat)
    requires Next(ts, m, Amp) && ReadsBack(ts, i, c, m)
    ensures ReadsBack(ts, i, Back(c), m + 1)
  {
    assert ParseBack(ts, c, m) == ParseBack(ts, Back(c), m + 1);
  }

  lemma {:induction false} BacksComplete(ts: seq<Tok>, i: nat, e: nat, c: Cmd)
    requires i <= e <= |ts| && DerivesBacks(ts, i, e, c) && EndsPipe(ts, e)
    ensures ReadsBack(ts, i, c, e)
    decreases e - i, 2
  {
    if DerivesPipe(ts, i, e, c) {
      PipeComplete(ts, i, e, c);
    } else {
      BacksComplete(ts, i, e - 1, c.cmd);
      BackStep(ts, i, c.cmd, e - 1);
    }
  }

  /** parseline without a ; after it. */
  lemma {:induction false} LineOne(ts: seq<Tok>, i: nat, c: Cmd, e: nat)
    requires ReadsBack(ts, i, c, e) && !Next(ts, e, Amp) && !Next(ts, e, Semi)
    ensures ParseLine(ts, i) == Ok(c, e)
  {
  }

  /** parseline with a ; after it. */
  lemma {:induction false} LineMore(ts: seq<Tok>, i: nat, c: Cmd, m: nat, right: Cmd, e: nat)
    requires i <= |ts| && Next(ts, m, Semi)
    ensures ReadsBack(ts, i, c, m) && ParseLine(ts, m + 1) == Ok(right, e) ==> ParseLine(ts, i) == Ok(List(c, right), e)
  {
    assert ParseBack(ts, c, m) == Ok(c, m);
  }

  /** The line goes up to the end or to a closing parenthesis. */
  ghost predicate EndsLine(ts: seq<Tok>, e: nat) { e <= |ts| && (e < |ts| ==> ts[e] == Close) }

  lemma {:induction false} LineComplete(ts: seq<Tok>, i: nat, e: nat, c: Cmd)
    requires i <= e <= |ts| && DerivesLine(ts, i, e, c) && EndsLine(ts, e)
    ensures ParseLine(ts, i) == Ok(c, e)
    decreases e - i, 3
  {
    if DerivesBacks(ts, i, e, c) {
      BacksComplete(ts, i, e, c);
      LineOne(ts, i, c, e);
    } else {
      var m: nat :| SemiAt(ts, i, m, e, c);
      LineMore(ts, i, c.left, m, c.right, e);
      BacksComplete(ts, i, m, c.left);
      LineComplete(ts, m + 1, e, c.right);
    }
  }

  /** The parser accepts a line as the command c exactly if the grammar derives c from it. */
  lemma {:induction false} ParseIffDerives(ts: seq<Tok>, c: Cmd)
    ensures Parse(ts) == Ok(c, |ts|) <==> Derives(ts, c)
  {
    var line := ParseLine(ts, 0);
    if line.Ok? { LineSound(ts, 0, line); }
    if Derives(ts, c) { LineComplete(ts, 0, |ts|, c); }
  }

  /** The grammar is unambiguous. */
  lemma {:induction false} OneMeaning(ts: seq<Tok>, c: Cmd, d: Cmd)
    requires Derives(ts, c) && Derives(ts, d)
    ensures c == d
  {
    ParseIffDerives(ts, c);
    ParseIffDerives(ts, d);
  }

  // ----- what each part of the parser reads ------------------------------------------------------------------------

  /** Redirections rs stand at k..e and no further one follows. */
  ghost predicate RedirectsThere(ts: seq<Tok>, k: nat, rs: seq<Redirect>, e: nat) {
    RedirectsAt(ts, k, rs, e) && (e < |ts| ==> !IsSign(ts[e]))
  }

  /** res is the one run of redirections at k, or there is none. */
  ghost predicate RedirectsRead(ts: seq<Tok>, k: nat, res: Redirects) {
    && (res.Redirects? ==> RedirectsThere(ts, k, res.rs, res.pos))
    && forall rs, e: nat :: RedirectsThere(ts, k, rs, e) ==> res == Redirects(rs, e)
  }

  lemma {:induction false} RedirectsExact(ts: seq<Tok>, k: nat, res: Redirects)
    requires k <= |ts| && res == ParseRedirs(ts, k)
    ensures RedirectsRead(ts, k, res)
  {
    if res.Redirects? { RedirsSound(ts, k, res); }
    forall rs, e: nat | RedirectsThere(ts, k, rs, e) ensures res == Redirects(rs, e) { RedirsComplete(ts, k, rs, e); }
  }

  /** Items that start with a word stand at k..e, at the end of a simple command, with at most nine words. */
  ghost predicate ItemsThere(ts: seq<Tok>, k: nat, items: seq<Item>, e: nat) {
    ItemsAt(ts, k, items, e) && Ends(ts, e) && |Args(items)| < 10 && (items != [] ==> items[0].Arg?)
  }

  /** res has the words and redirections of the items at k, or there are none that could be read. */
  ghost predicate WordsRead(ts: seq<Tok>, k: nat, res: Words) {
    && (res.Words? ==>
          exists items :: ItemsAt(ts, k, items, res.pos) && Args(items) == res.args && Reds(items) == res.rs)
    && (res.Words? ==> Ends(ts, res.pos))
    && forall items, e: nat :: ItemsThere(ts, k, items, e) ==> res == Words(Args(items), Reds(items), e)
  }

  lemma {:induction false} WordsExact(ts: seq<Tok>, k: nat, res: Words)
    requires k <= |ts| && res == ParseWords(ts, k, 0)
    ensures WordsRead(ts, k, res)
  {
    if res.Words? { var items := WordsSound(ts, k, 0, res); }
    forall items, e: nat | ItemsThere(ts, k, items, e) ensures res == Words(Args(items), Reds(items), e) {
      ItemsComplete(ts, k, items, 0, e);
      FirstNoSign(ts, k, items, e);
      NoRedirs(ts, k);
      assert [] + res.rs == res.rs;
    }
  }

  lemma {:induction false} FirstNoSign(ts: seq<Tok>, k: nat, items: seq<Item>, e: nat)
    requires ItemsThere(ts, k, items, e)
    ensures k <= |ts| && (k < |ts| ==> !IsSign(ts[k]))
  {
    if items != [] { var m := ItemsCons(ts, k, items, e); }
  }

  ghost predicate CommandThere(ts: seq<Tok>, k: nat, c: Cmd, e: nat) {
    k <= e <= |ts| && DerivesCommand(ts, k, e, c) && Ends(ts, e)
  }

  /** res is a command from k on; any command there that ends as commands do is this one. */
  ghost predicate CommandRead(ts: seq<Tok>, k: nat, res: Result) {
    && (res.Ok? ==> k <= res.pos <= |ts| && DerivesCommand(ts, k, res.pos, res.cmd))
    && forall c, e: nat :: CommandThere(ts, k, c, e) ==> res == Ok(c, e)
  }

  lemma {:induction false} CommandExact(ts: seq<Tok>, k: nat, res: Result)
    requires k <= |ts| && res == ParseExec(ts, k)
    ensures CommandRead(ts, k, res)
  {
    if res.Ok? { CommandSound(ts, k, res); }
    forall c, e: nat | CommandThere(ts, k, c, e) ensures res == Ok(c, e) { CommandComplete(ts, k, e, c); }
  }

  ghost predicate PipeThere(ts: seq<Tok>, k: nat, c: Cmd, e: nat) {
    k <= e <= |ts| && DerivesPipe(ts, k, e, c) && EndsPipe(ts, e)
  }

  /** res is a pipe from k on; any pipe there that ends as pipes do is this one. */
  ghost predicate PipeRead(ts: seq<Tok>, k: nat, res: Result) {
    && (res.Ok? ==> k <= res.pos <= |ts| && DerivesPipe(ts, k, res.pos, res.cmd))
    && forall c, e: nat :: PipeThere(ts, k, c, e) ==> res == Ok(c, e)
  }

  lemma {:induction false} PipeExact(ts: seq<Tok>, k: nat, res: Result)
    requires k <= |ts| && res == ParsePipe(ts, k)
    ensures PipeRead(ts, k, res)
  {
    if res.Ok? { PipeSound(ts, k, res); }
    forall c, e: nat | PipeThere(ts, k, c, e) ensures res == Ok(c, e) { PipeComplete(ts, k, e, c); }
  }

  ghost predicate LineThere(ts: seq<Tok>, k: nat, c: Cmd, e: nat) {
    k <= e <= |ts| && DerivesLine(ts, k, e, c) && EndsLine(ts, e)
  }

  /** res is a line from k on; any line there that ends as lines do is this one. */
  ghost predicate LineRead(ts: seq<Tok>, k: nat, res: Result) {
    && (res.Ok? ==> k <= res.pos <= |ts| && DerivesLine(ts, k, res.pos, res.cmd))
    && forall c, e: nat :: LineThere(ts, k, c, e) ==> res == Ok(c, e)
  }

  lemma {:induction false} LineExact(ts: seq<Tok>, k: nat, res: Result)
    requires k <= |ts| && res == ParseLine(ts, k)
    ensures LineRead(ts, k, res)
  {
    if res.Ok? { LineSound(ts, k, res); }
    forall c, e: nat | LineThere(ts, k, c, e) ensures res == Ok(c, e) { LineComplete(ts, k, e, c); }
  }

  // ----- the order of redirections ---------------------------------------------------------------------------------

  /** The redirections around a command, from the innermost to the outermost. */
  function Layers(c: Cmd): seq<Redirect> {
    if c.Redir? then Layers(c.cmd) + [c.to] else []
  }

  /** The command under all its redirections. */
  function Inner(c: Cmd): Cmd {
    if c.Redir? then Inner(c.cmd) else c
  }

  /** A simple command is its words with its redirections around them, the last one outermost. */
  lemma {:induction false} SimpleLayers(ts: seq<Tok>, i: nat, e: nat, c: Cmd, items: seq<Item>)
    requires SimpleOf(ts, i, e, c, items)
    ensures Inner(c) == Exec(Args(items)) && Layers(c) == Reds(items) && |Args(items)| <= 9
  {
    WrapLayers(Exec(Args(items)), Reds(items));
  }

  lemma {:induction false} WrapLayers(cmd: Cmd, rs: seq<Redirect>)
    ensures Inner(Wrap(cmd, rs)) == Inner(cmd) && Layers(Wrap(cmd, rs)) == Layers(cmd) + rs
  {
    if rs != [] {
      var n := |rs| - 1;
      WrapLayers(cmd, rs[..n]);
      assert rs == rs[..n] + [rs[n]];
    }
  }
}
