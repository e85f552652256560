/** The regular-expression matcher of src/usr/grep.c, sound and complete for the language its patterns denote.

    Strings are sequences without their terminating NUL. */
module Grep {

  /** A pattern is a list of items: a character, a starred character (for both '.' is any character), and a
      final '$'. */
  datatype Item = One(c: char) | Star(c: char) | End

  /** How the matcher reads a pattern: a following '*' is looked for first, then a final '$'. */
  function Items(re: string): seq<Item> {
    if re == [] then []
    else if |re| >= 2 && re[1] == '*' then [Star(re[0])] + Items(re[2..])
    else if re == "$" then [End]
    else [One(re[0])] + Items(re[1..])
  }

  /** Items as a pattern: a star after its character, a final '$' for the end. */
  function Pattern(items: seq<Item>): string {
    if items == [] then []
    else (match items[0]
          case One(c) => [c]
          case Star(c) => [c, '*']
          case End => "$") + Pattern(items[1..])
  }

  /** What a pattern can say: the end only last, a last character '$' means the end, and '*' is a character of its
      own only where it follows none. */
  predicate Sayable(items: seq<Item>) {
    && (forall i :: 0 <= i < |items| && items[i].End? ==> i == |items| - 1)
    && (items != [] ==> items[|items| - 1] != One('$'))
    && (forall i :: 0 <= i < |items| - 1 && items[i].One? ==>
          items[i + 1] != One('*') && items[i + 1] != Star('*'))
  }

  lemma SayableRest(items: seq<Item>)
    requires items != [] && Sayable(items)
    ensures Sayable(items[1..])
  {
    var rest := items[1..];
    assert forall i :: 0 <= i < |rest| ==> rest[i] == items[i + 1];
  }

  /** The reading inverts the writing, */
  lemma {:induction false} ItemsOfPattern(items: seq<Item>)
    requires Sayable(items)
    ensures Items(Pattern(items)) == items
  {
    if items != [] {
      var rest := items[1..];
      SayableRest(items);
      ItemsOfPattern(rest);
      PatternHead(rest);
      assert items == [items[0]] + rest;
      match items[0]
      case One(c) =>
        assert Pattern(items)[1..] == Pattern(rest);
        if rest != [] { assert items[1] == rest[0]; }
      case Star(c) =>
        assert Pattern(items)[2..] == Pattern(rest);
      case End =>
        assert items[0].End? ==> |items| == 1;
    }
  }

  lemma PatternHead(items: seq<Item>)
    ensures items == [] <==> Pattern(items) == []
    ensures items != [] ==> Pattern(items)[0] == if items[0].End? then '$' else items[0].c
  {
  }

  /** and every pattern is the writing of its reading. */
  lemma {:induction false} PatternOfItems(re: string)
    ensures Pattern(Items(re)) == re && Sayable(Items(re))
  {
    if re == [] {
    } else if |re| >= 2 && re[1] == '*' {
      PatternOfItems(re[2..]);
      assert re == [re[0], '*'] + re[2..];
      SayableCons(Star(re[0]), Items(re[2..]));
    } else if re != "$" {
      PatternOfItems(re[1..]);
      assert re == [re[0]] + re[1..];
      PatternHead(Items(re[1..]));
      SayableCons(One(re[0]), Items(re[1..]));
    }
  }

  lemma SayableCons(item: Item, rest: seq<Item>)
    requires Sayable(rest) && !item.End? && (rest == [] ==> item != One('$'))
    requires item.One? && rest != [] ==> rest[0] != One('*') && rest[0] != Star('*')
    ensures Sayable([item] + rest) && ([item] + rest)[1..] == rest
  {
    var items := [item] + rest;
    assert forall i :: 0 < i < |items| ==> items[i] == rest[i - 1];
  }

  predicate Fits(c: char, x: char) { c == '.' || c == x }

  predicate AllFit(c: char, w: string) {
    forall i :: 0 <= i < |w| ==> Fits(c, w[i])
  }

  // ----- the language, by factorisation -----

  function Flatten(ws: seq<string>): string {
    if ws == [] then "" else ws[0] + Flatten(ws[1..])
  }

  /** The word an item may stand for, when `rest` is what follows the whole match. */
  predicate Denotes(item: Item, w: string, rest: string) {
    match item
    case One(c) => |w| == 1 && Fits(c, w[0])
    case Star(c) => AllFit(c, w)
    case End => w == "" && rest == ""
  }

  /** text starts with a concatenation of words, one for each item. */
  ghost predicate Factors(items: seq<Item>, text: string, ws: seq<string>, rest: string) {
    && |ws| == |items| && text == Flatten(ws) + rest
    && forall i :: 0 <= i < |items| ==> Denotes(items[i], ws[i], rest)
  }

  /** A prefix of text is in the language of the items. */
  ghost predicate Matches(items: seq<Item>, text: string) {
    exists ws, rest :: Factors(items, text, ws, rest)
  }

  /** What match is for: a match at the start under '^', else a match at the start of some suffix. */
  ghost predicate Found(re: string, text: string) {
    if re != [] && re[0] == '^' then Matches(Items(re[1..]), text)
    else exists i :: 0 <= i <= |text| && Matches(Items(re), text[i..])
  }

  // ----- the language, item by item -----

  lemma EmptyMatches(text: string)
    ensures Matches([], text)
  {
    assert Factors([], text, [], text);
  }

  lemma EndMatches(text: string)
    ensures Matches([End], text) <==> text == ""
  {
    if Matches([End], text) {
      var ws, rest :| Factors([End], text, ws, rest);
      assert ws == [""] && Flatten(ws) == "";
    }
    if text == "" {
      assert Flatten([""]) == "";
      assert Factors([End], text, [""], "");
    }
  }

  /** Putting a word in front, and taking it off again. */
  lemma FactorsCons(item: Item, items: seq<Item>, w: string, text: string, ws: seq<string>, rest: string)
    requires Factors(items, text, ws, rest) && Denotes(item, w, rest)
    ensures Factors([item] + items, w + text, [w] + ws, rest)
  {
    var items', ws' := [item] + items, [w] + ws;
    assert ws'[1..] == ws;
    assert w + (Flatten(ws) + rest) == (w + Flatten(ws)) + rest;
    forall i | 0 <= i < |items'|
      ensures Denotes(items'[i], ws'[i], rest)
    {
      if i > 0 { assert Denotes(items[i - 1], ws[i - 1], rest); }
    }
  }

  lemma FactorsTail(item: Item, items: seq<Item>, text: string, ws: seq<string>, rest: string)
    requires Factors([item] + items, text, ws, rest)
    ensures |ws| == |items| + 1 && ws[0] <= text && Denotes(item, ws[0], rest)
    ensures Factors(items, text[|ws[0]|..], ws[1..], rest)
  {
    var items' := [item] + items;
    assert Denotes(items'[0], ws[0], rest);
    assert text == ws[0] + (Flatten(ws[1..]) + rest);
    assert text[|ws[0]|..] == Flatten(ws[1..]) + rest;
    forall i | 0 <= i < |items|
      ensures Denotes(items[i], ws[1..][i], rest)
    {
      assert Denotes(items'[i + 1], ws[i + 1], rest);
    }
  }

  lemma OneMatches(c: char, items: seq<Item>, text: string)
    ensures Matches([One(c)] + items, text) <==> text != "" && Fits(c, text[0]) && Matches(items, text[1..])
  {
    if Matches([One(c)] + items, text) {
      var ws, rest :| Factors([One(c)] + items, text, ws, rest);
      FactorsTail(One(c), items, text, ws, rest);
    }
    if text != "" && Fits(c, text[0]) && Matches(items, text[1..]) {
      var ws, rest :| Factors(items, text[1..], ws, rest);
      FactorsCons(One(c), items, [text[0]], text[1..], ws, rest);
      assert [text[0]] + text[1..] == text;
    }
  }

  /** c* then the rest: skip k fitting characters. */
  ghost predicate SkipsTo(c: char, items: seq<Item>, text: string, k: nat) {
    k <= |text| && AllFit(c, text[..k]) && Matches(items, text[k..])
  }

  ghost predicate SkipsSomewhere(c: char, items: seq<Item>, text: string) {
    exists k: nat :: SkipsTo(c, items, text, k)
  }

  lemma StarMatches(c: char, items: seq<Item>, text: string)
    ensures Matches([Star(c)] + items, text) <==> SkipsSomewhere(c, items, text)
  {
    if Matches([Star(c)] + items, text) {
      var ws, rest :| Factors([Star(c)] + items, text, ws, rest);
      FactorsTail(Star(c), items, text, ws, rest);
      assert text[..|ws[0]|] == ws[0];
      assert SkipsTo(c, items, text, |ws[0]|);
    }
    if k: nat :| SkipsTo(c, items, text, k) {
      var ws, rest :| Factors(items, text[k..], ws, rest);
      FactorsCons(Star(c), items, text[..k], text[k..], ws, rest);
      assert text[..k] + text[k..] == text;
    }
  }

  // ----- the matcher -----

  /** match: search for re anywhere in text. */
  method Match(re: string, text: string) returns (found: bool)
    ensures found <==> Found(re, text)
  {
    if re != [] && re[0] == '^' {
      found := MatchHere(re[1..], text);
      return;
    }
    var i := 0;
    while true   // at the end of the text too, where an empty match may still be
      invariant 0 <= i <= |text|
      invariant forall j :: 0 <= j < i ==> !Matches(Items(re), text[j..])
      decreases |text| - i
    {
      var here := MatchHere(re, text[i..]);
      if here {
        return true;
      }
      if i == |text| {
        return false;
      }
      i := i + 1;
    }
  }

  /** matchhere: search for re at the beginning of text. */
  method MatchHere(re: string, text: string) returns (found: bool)
    ensures found <==> Matches(Items(re), text)
    decreases |re|, 0
  {
    if re == [] {
      EmptyMatches(text);
      return true;
    }
    if |re| >= 2 && re[1] == '*' {
      assert Items(re) == [Star(re[0])] + Items(re[2..]);
      StarMatches(re[0], Items(re[2..]), text);
      found := MatchStar(re[0], re[2..], text);
      return;
    }
    if re[0] == '$' && |re| == 1 {
      assert re == "$";
      EndMatches(text);
      return text == "";
    }
    OneMatches(re[0], Items(re[1..]), text);
    if text != "" && (re[0] == '.' || re[0] == text[0]) {
      found := MatchHere(re[1..], text[1..]);
      return;
    }
    return false;
  }

  /** matchstar: search for c*re at the beginning of text. */
  method MatchStar(c: char, re: string, text: string) returns (found: bool)
    ensures found <==> SkipsSomewhere(c, Items(re), text)
    decreases |re|, 1
  {
    var i := 0;
    while true   // i characters have been given to the starred item
      invariant 0 <= i <= |text| && AllFit(c, text[..i])
      invariant forall k: nat :: k < i ==> !SkipsTo(c, Items(re), text, k)
      decreases |text| - i
    {
      var here := MatchHere(re, text[i..]);
      if here {
        assert SkipsTo(c, Items(re), text, i);
        return true;
      }
      if i == |text| {
        return false;
      }
      if !(text[i] == c || c == '.') {
        forall k: nat | k > i
          ensures !SkipsTo(c, Items(re), text, k)
        {
          assert k <= |text| ==> text[..k][i] == text[i];
        }
        return false;
      }
      i := i + 1;
    }
  }
}
