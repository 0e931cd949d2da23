/** The pattern matcher of user/grep.c, against what its patterns mean. */
module Grep {

  // ----- what a pattern means ----------------------------------------------------------------------------

  /** One character, or any number of them. */
  datatype Item = One(c: char) | Star(c: char)

  /** A dot fits every character, any other character only itself. */
  predicate Fits(c: char, x: char) { c == '.' || c == x }

  predicate PartOk(item: Item, part: string) {
    match item
    case One(c) => |part| == 1 && Fits(c, part[0])
    case Star(c) => forall k :: 0 <= k < |part| ==> Fits(c, part[k])
  }

  predicate IsStar(re: string) { |re| >= 2 && re[1] == '*' }

  /** The items of a pattern; a $ at the very end is none. */
  function Items(re: string): seq<Item> {
    if re == "" || (re == "$") then []
    else if IsStar(re) then [Star(re[0])] + Items(re[2..])
    else [One(re[0])] + Items(re[1..])
  }

  /** Whether the pattern ends with the anchor $. */
  predicate Anchored(re: string) {
    if re == "" then false
    else if IsStar(re) then Anchored(re[2..])
    else re == "$" || Anchored(re[1..])
  }

  function Concat(parts: seq<string>): string {
    if parts == [] then "" else parts[0] + Concat(parts[1..])
  }

  /** One part of the text for each item. */
  ghost predicate Fit(items: seq<Item>, parts: seq<string>) {
    |items| == |parts| && forall k: nat :: k < |items| ==> PartOk(items[k], parts[k])
  }

  ghost predicate Explains(re: string, text: string, parts: seq<string>) {
    Fit(Items(re), parts) && Concat(parts) <= text && (Anchored(re) ==> Concat(parts) == text)
  }

  /** The pattern matches at the beginning of the text. */
  ghost predicate HereAt(re: string, text: string) {
    exists parts: seq<string> :: Explains(re, text, parts)
  }

  /** The pattern matches somewhere in the text, with ^ only at its beginning. */
  ghost predicate MatchesSomewhere(re: string, text: string) {
    if re != "" && re[0] == '^' then HereAt(re[1..], text) else exists i: nat :: i <= |text| && HereAt(re, text[i..])
  }

  // ----- the meaning, case by case ------------------------------------------------------------------------

  lemma {:induction false} HereEmpty(text: string)
    ensures HereAt("", text)
  {
    assert Explains("", text, []);
  }

  lemma {:induction false} HereEnd(text: string)
    ensures HereAt("$", text) <==> text == ""
  {
    if text == "" { assert Explains("$", text, []); }
    if HereAt("$", text) {
      var parts :| Explains("$", text, parts);
      assert parts == [];
    }
  }

  lemma {:induction false} FitCons(item: Item, items: seq<Item>, part: string, parts: seq<string>)
    ensures Fit([item] + items, [part] + parts) <==> PartOk(item, part) && Fit(items, parts)
    ensures Concat([part] + parts) == part + Concat(parts)
  {
    var its, ps := [item] + items, [part] + parts;
    assert ps[1..] == parts;
    if Fit(its, ps) {
      assert PartOk(its[0], ps[0]);
      forall k: nat | k < |items| ensures PartOk(items[k], parts[k]) { assert PartOk(its[k + 1], ps[k + 1]); }
    }
    if PartOk(item, part) && Fit(items, parts) {
      forall k: nat | k < |its| ensures PartOk(its[k], ps[k]) {
        if k > 0 { assert PartOk(items[k - 1], parts[k - 1]); }
      }
    }
  }

  /** A match of a first item takes a prefix of the text, and the rest matches what follows. */
  lemma {:induction false} ExplainCons(
    re: string, item: Item, rest: string, text: string, part: string, parts: seq<string>)
    requires Items(re) == [item] + Items(rest) && Anchored(re) == Anchored(rest)
    ensures Explains(re, text, [part] + parts) <==>
              PartOk(item, part) && part <= text && Explains(rest, text[|part|..], parts)
  {
    FitCons(item, Items(rest), part, parts);
    var all := part + Concat(parts);
    if part <= text {
      var more := text[|part|..];
      assert text == part + more;
      assert all <= text <==> Concat(parts) <= more by {
        if Concat(parts) <= more { assert text == all + more[|Concat(parts)|..]; }
        if all <= text { assert more == Concat(parts) + text[|all|..]; }
      }
      assert all == text <==> Concat(parts) == more by {
        if all == text { assert more == all[|part|..]; }
      }
    }
    PrefixOf(part, Concat(parts), text);
  }

  lemma {:induction false} PrefixOf(a: string, b: string, text: string)
    ensures a + b <= text ==> a <= text
  {
    assert (a + b)[..|a|] == a;
  }

  lemma {:induction false} HereOne(re: string, text: string)
    requires re != "" && !(|re| >= 2 && re[1] == '*') && re != "$"
    ensures HereAt(re, text) <==>
              text != "" && (re[0] == '.' || re[0] == text[0]) && HereAt(re[1..], text[1..])
  {
    if HereAt(re, text) {
      var parts :| Explains(re, text, parts);
      var p, ps := parts[0], parts[1..];
      assert parts == [p] + ps;
      ExplainCons(re, One(re[0]), re[1..], text, p, ps);
      assert p[0] == text[0];
    }
    if text != "" && Fits(re[0], text[0]) && HereAt(re[1..], text[1..]) {
      var ps :| Explains(re[1..], text[1..], ps);
      ExplainCons(re, One(re[0]), re[1..], text, [text[0]], ps);
    }
  }

  /** The first k characters of the text fit c, and the pattern matches after them. */
  ghost predicate StarAt(c: char, re: string, text: string, k: nat) {
    k <= |text| && (forall j :: 0 <= j < k ==> c == '.' || c == text[j]) && HereAt(re, text[k..])
  }

  lemma {:induction false} HereStar(re: string, text: string)
    requires |re| >= 2 && re[1] == '*'
    ensures HereAt(re, text) <==> exists k: nat :: StarAt(re[0], re[2..], text, k)
  {
    if HereAt(re, text) {
      var parts :| Explains(re, text, parts);
      var p, ps := parts[0], parts[1..];
      assert parts == [p] + ps;
      ExplainCons(re, Star(re[0]), re[2..], text, p, ps);
      forall j | 0 <= j < |p| ensures Fits(re[0], text[j]) { assert p[j] == text[j]; }
      assert StarAt(re[0], re[2..], text, |p|);
    }
    if k: nat :| StarAt(re[0], re[2..], text, k) {
      var ps :| Explains(re[2..], text[k..], ps);
      ExplainCons(re, Star(re[0]), re[2..], text, text[..k], ps);
    }
  }

  // ----- the matcher ----------------------------------------------------------------------------------------

  /** match: whether the pattern matches somewhere; the empty suffix is tried too. */
  method Match(re: string, text: string) returns (r: bool)
    ensures r <==> MatchesSomewhere(re, text)
  {
    if re != "" && re[0] == '^' {
      r := MatchHere(re[1..], text);
      return;
    }
    var i: nat := 0;
    while true
      invariant i <= |text| && forall j: nat :: j < i ==> !HereAt(re, text[j..])
      decreases |text| - i
    {
      r := MatchHere(re, text[i..]);
      if r {
        return;
      }
      if i == |text| {
        return false;
      }
      i := i + 1;
    }
  }

  /** matchhere: whether the pattern matches at the beginning of the text. */
  method MatchHere(re: string, text: string) returns (r: bool)
    ensures r <==> HereAt(re, text)
    decreases |re|, 1
  {
    if re == "" {
      HereEmpty(text);
      return true;
    }
    if |re| > 1 && re[1] == '*' {
      HereStar(re, text);
      r := MatchStar(re[0], re[2..], text);
      return;
    }
    if re[0] == '$' && |re| == 1 {
      HereEnd(text);
      assert re == "$";
      return text == "";
    }
    HereOne(re, text);
    if text != "" && (re[0] == '.' || re[0] == text[0]) {
      r := MatchHere(re[1..], text[1..]);
      return;
    }
    return false;
  }

  /** matchstar: whether the pattern matches after some characters that fit c. */
  method MatchStar(c: char, re: string, text: string) returns (r: bool)
    ensures r <==> exists k: nat :: StarAt(c, re, text, k)
    decreases |re|, 2
  {
    var i: nat := 0;
    while true
      invariant i <= |text| && (forall j :: 0 <= j < i ==> c == '.' || c == text[j])
      invariant forall j: nat :: j < i ==> !StarAt(c, re, text, j)
      decreases |text| - i
    {
      r := MatchHere(re, text[i..]);
      if r {
        assert StarAt(c, re, text, i);
        return;
      }
      assert !StarAt(c, re, text, i);
      if i == |text| || !(text[i] == c || c == '.') {
        return false;
      }
      i := i + 1;
    }
  }
}
