/**
 * What becomes of the tokens of an accepted line (src/usr/sh.c): none is lost, none is used twice, and their order
 * is kept.
 */
module ShLines {
  import opened Wrappers
  import opened Sh
  import opened ShGrammar

  // ----- what a line asks for and what a command holds -----

  /** A word, a redirection, or a symbol that makes a pipe, a list or a background command. */
  datatype Mark<W> = OfWord(word: W) | OfRd(rd: Rd<W>) | OfSym(kind: char)

  predicate IsOp<W>(a: Lex<W>) { a.Sym? && a.kind in "<>+" }

  /** What a token asks for, knowing the ones after it: an operator redirects to the word after it. */
  ghost function Asked<W>(a: Lex<W>, rest: seq<Lex<W>>): multiset<Mark<W>> {
    if a.Name? then multiset{OfWord(a.word)}
    else if IsOp(a) && rest != [] && rest[0].Name? then multiset{OfRd(RdOf(a.kind, rest[0].word))}
    else if a.kind in "|;&" then multiset{OfSym(a.kind)}
    else multiset{}
  }

  ghost function TokMarks<W>(toks: seq<Lex<W>>): multiset<Mark<W>> {
    if toks == [] then multiset{} else Asked(toks[0], toks[1..]) + TokMarks(toks[1..])
  }

  ghost function WordMarks<W>(ws: seq<W>): multiset<Mark<W>> {
    if ws == [] then multiset{} else multiset{OfWord(ws[0])} + WordMarks(ws[1..])
  }

  ghost function Marks<W>(c: Cmd<W>): multiset<Mark<W>> {
    match c
    case Exec(argv) => WordMarks(argv)
    case Redir(d, rd) => Marks(d) + RdMark(rd)
    case Pipe(l, r) => Marks(l) + multiset{OfSym('|')} + Marks(r)
    case List(l, r) => Marks(l) + multiset{OfSym(';')} + Marks(r)
    case Back(d) => Marks(d) + multiset{OfSym('&')}
  }

  ghost function RdMark<W>(rd: Rd<W>): multiset<Mark<W>> { multiset{OfWord(rd.file), OfRd(rd)} }

  ghost function RdMarks<W>(rs: seq<Rd<W>>): multiset<Mark<W>> {
    if rs == [] then multiset{} else RdMark(rs[0]) + RdMarks(rs[1..])
  }

  /** No operator is left without its word at the end. */
  predicate Shut<W>(toks: seq<Lex<W>>) { toks != [] ==> !IsOp(toks[|toks| - 1]) }

  /** The command uses exactly the tokens. */
  ghost predicate Uses<W>(c: Cmd<W>, toks: seq<Lex<W>>) { Marks(c) == TokMarks(toks) && Shut(toks) }

  lemma {:induction false} MarksConcat<W>(a: seq<Lex<W>>, b: seq<Lex<W>>)
    requires Shut(a)
    ensures TokMarks(a + b) == TokMarks(a) + TokMarks(b) && (Shut(b) ==> Shut(a + b))
  {
    if a == [] {
      assert a + b == b;
    } else {
      hide Asked;
      assert (a + b)[1..] == a[1..] + b && (a + b)[0] == a[0];
      MarksConcat(a[1..], b);
      AskedWithin(a, b);
    }
  }

  lemma AskedWithin<W>(a: seq<Lex<W>>, b: seq<Lex<W>>)
    requires a != [] && Shut(a)
    ensures Asked(a[0], a[1..] + b) == Asked(a[0], a[1..])
  {
  }

  lemma OneSym<W>(kind: char)
    requires kind in "|;&()"
    ensures var one: seq<Lex<W>> := [Sym(kind)];
            Shut(one) && TokMarks(one) == if kind in "|;&" then multiset{OfSym(kind)} else multiset{}
  {
  }

  lemma {:induction false} WrapMarks<W>(c: Cmd<W>, rs: seq<Rd<W>>)
    ensures Marks(Wrap(c, rs)) == Marks(c) + RdMarks(rs)
    decreases |rs|
  {
    if rs != [] {
      WrapMarks(Redir(c, rs[0]), rs[1..]);
    }
  }

  lemma TokCons<W>(a: Lex<W>, ts: seq<Lex<W>>)
    ensures TokMarks([a] + ts) == Asked(a, ts) + TokMarks(ts) && (!IsOp(a) && Shut(ts) ==> Shut([a] + ts))
  {
    assert ([a] + ts)[1..] == ts;
  }

  ghost function ItemMark<W>(i: Item<W>): multiset<Mark<W>> {
    if i.Arg? then multiset{OfWord(i.word)} else RdMark(RdOf(i.op, i.file))
  }

  ghost function ItemMarks<W>(items: seq<Item<W>>): multiset<Mark<W>> {
    if items == [] then multiset{} else ItemMark(items[0]) + ItemMarks(items[1..])
  }

  /** The tokens of arguments and redirections. */
  lemma {:induction false} ItemsAsk<W>(items: seq<Item<W>>)
    requires ItemsOk(items)
    ensures TokMarks(FlatItems(items)) == ItemMarks(items) && Shut(FlatItems(items))
  {
    if items != [] {
      var i, rest := items[0], items[1..];
      assert i.Arg? || IsRed(i);
      ItemsAsk(rest);
      var flat := FlatItems(rest);
      hide TokMarks, Shut;
      if i.Arg? {
        TokCons(Name(i.word), flat);
      } else {
        TokCons(Name(i.file), flat);
        RedAsks(i, flat);
        assert FlatItems(items) == [Sym(i.op)] + ([Name(i.file)] + flat);
      }
    }
  }

  lemma RedAsks<W>(i: Item<W>, flat: seq<Lex<W>>)
    requires IsRed(i) && Shut(flat)
    ensures var toks := [Sym(i.op)] + ([Name(i.file)] + flat);
            TokMarks(toks) == ItemMark(i) + TokMarks(flat) && Shut(toks)
  {
    TokCons(Name(i.file), flat);
    TokCons(Sym(i.op), [Name(i.file)] + flat);
    hide TokMarks;
  }

  /** What they hold. */
  lemma {:induction false} ItemsHold<W>(items: seq<Item<W>>)
    ensures WordMarks(ArgsOf(items)) + RdMarks(RedsOf(items)) == ItemMarks(items)
  {
    if items != [] {
      var i, rest := items[0], items[1..];
      ItemsHold(rest);
      FirstHolds(items);
      hide *;
      if i.Arg? {
        WordMarksCons(i.word, ArgsOf(rest));
      } else {
        RdMarksCons(RdOf(i.op, i.file), RedsOf(rest));
      }
    }
  }

  lemma FirstHolds<W>(items: seq<Item<W>>)
    requires items != []
    ensures var i, rest := items[0], items[1..];
            && ItemMarks(items) == ItemMark(i) + ItemMarks(rest)
            && ArgsOf(items) == (if i.Arg? then [i.word] + ArgsOf(rest) else ArgsOf(rest))
            && RedsOf(items) == (if i.Arg? then RedsOf(rest) else [RdOf(i.op, i.file)] + RedsOf(rest))
            && ItemMark(i) == if i.Arg? then multiset{OfWord(i.word)} else RdMark(RdOf(i.op, i.file))
  {
    hide RdMark;
  }

  lemma WordMarksCons<W>(w: W, ws: seq<W>)
    ensures WordMarks([w] + ws) == multiset{OfWord(w)} + WordMarks(ws)
  {
    assert ([w] + ws)[1..] == ws;
  }

  lemma RdMarksCons<W>(rd: Rd<W>, rs: seq<Rd<W>>)
    ensures RdMarks([rd] + rs) == RdMark(rd) + RdMarks(rs)
  {
    assert ([rd] + rs)[1..] == rs;
  }

  lemma {:induction false} ExeUses<W>(x: Exe<W>)
    requires ExeOk(x)
    ensures Uses(Meaning(x), Flat(x))
    decreases x
  {
    hide Wrap, TokMarks, WordMarks, RdMarks, Shut, FlatItems, ArgsOf, RedsOf, FlatLine, LineMeaning;
    match x
    case Simple(items) =>
      ItemsAsk(items);
      ItemsHold(items);
      WrapMarks(Exec(ArgsOf(items)), RedsOf(items));
    case Block(line, reds) =>
      LineUses(line);
      BlockUses(LineMeaning(line), FlatLine(line), reds);
  }

  lemma BlockUses<W>(c: Cmd<W>, toks: seq<Lex<W>>, reds: seq<Item<W>>)
    requires Uses(c, toks) && AllReds(reds)
    ensures Uses(Wrap(c, RedsOf(reds)), [Sym('(')] + toks + [Sym(')')] + FlatItems(reds))
  {
    Enclosed(toks);
    ItemsAsk(reds);
    ItemsHold(reds);
    RedsHaveNoArgs(reds);
    WrapMarks(c, RedsOf(reds));
    assert WordMarks<W>([]) == multiset{};
    MarksConcat([Sym('(')] + toks + [Sym(')')], FlatItems(reds));
    hide Wrap, TokMarks, WordMarks, RdMarks, Shut, FlatItems, ArgsOf, RedsOf, Marks;
  }

  lemma Enclosed<W>(toks: seq<Lex<W>>)
    requires Shut(toks)
    ensures Shut([Sym('(')] + toks + [Sym(')')]) && TokMarks([Sym('(')] + toks + [Sym(')')]) == TokMarks(toks)
  {
    hide TokMarks, Shut;
    OneSym<W>('(');
    OneSym<W>(')');
    MarksConcat([Sym('(')], toks);
    MarksConcat([Sym('(')] + toks, [Sym(')')]);
  }

  lemma TwoUse<W>(c: Cmd<W>, d: Cmd<W>, cd: Cmd<W>, a: seq<Lex<W>>, b: seq<Lex<W>>)
    requires Uses(c, a) && Uses(d, b) && (cd == Pipe(c, d) || cd == List(c, d))
    ensures Uses(cd, a + ([Sym(if cd.Pipe? then '|' else ';')] + b))
  {
    hide TokMarks, Shut;
    var kind := if cd.Pipe? then '|' else ';';
    OneSym<W>(kind);
    MarksConcat([Sym(kind)], b);
    MarksConcat(a, [Sym(kind)] + b);
  }

  lemma {:induction false} PipUses<W>(x: Pip<W>)
    requires PipOk(x)
    ensures Uses(PipMeaning(x), FlatPip(x))
    decreases x
  {
    hide Uses, ExeOk, Meaning, Flat;
    ExeUses(x.exe);
    if x.Bar? {
      PipUses(x.rest);
      TwoUse(Meaning(x.exe), PipMeaning(x.rest), PipMeaning(x), Flat(x.exe), FlatPip(x.rest));
    } else {
      assert FlatPip(x) == Flat(x.exe) + [] == Flat(x.exe);
    }
  }

  lemma {:induction false} BackedUses<W>(n: nat, c: Cmd<W>, toks: seq<Lex<W>>)
    requires Uses(c, toks)
    ensures Uses(Backed(n, c), toks + Amps(n))
    decreases n
  {
    hide Uses;
    if n == 0 {
      assert toks + Amps(n) == toks;
    } else {
      BackUses(c, toks);
      BackedUses(n - 1, Back(c), toks + [Sym('&')]);
      Regroup(toks, [Sym('&')], Amps(n - 1));
    }
  }

  lemma BackUses<W>(c: Cmd<W>, toks: seq<Lex<W>>)
    requires Uses(c, toks)
    ensures Uses(Back(c), toks + [Sym('&')])
  {
    hide TokMarks, Shut;
    OneSym<W>('&');
    MarksConcat(toks, [Sym('&')]);
  }

  lemma {:induction false} LineUses<W>(x: Line<W>)
    requires LineOk(x)
    ensures Uses(LineMeaning(x), FlatLine(x))
    decreases x
  {
    hide Uses, PipOk, PipMeaning, FlatPip, Backed, Amps;
    PipUses(x.pip);
    var c, toks := Backed(x.backs, PipMeaning(x.pip)), FlatPip(x.pip) + Amps(x.backs);
    BackedUses(x.backs, PipMeaning(x.pip), FlatPip(x.pip));
    if x.Semi? {
      LineUses(x.rest);
      TwoUse(c, LineMeaning(x.rest), LineMeaning(x), toks, FlatLine(x.rest));
    } else {
      assert FlatLine(x) == toks + [] == toks;
    }
  }

  /** No token of an accepted line is lost, and none is used twice. */
  lemma NoTokenLost(s: string)
    requires NUL !in s && PCmd(s).Some?
    ensures Uses(PCmd(s).value, WordToks(s, 0))
  {
    hide Uses, PCmd, FlatLine, LineOk, LineMeaning;
    var x := ParseDerives(s);
    LineUses(x);
  }

  /** The words keep their order: arguments, sides of pipes and lists, and redirections, the last one outermost. */
  lemma OrderKept(s: string)
    requires NUL !in s && PCmd(s).Some?
    ensures Found(s, PCmd(s).value, 0, |s|)
  {
    hide Found, PLine, Skip;
    LineWords(s, 0);
    FoundWider(s, PCmd(s).value, 0, PLine(s, 0).next, 0, |s|);
  }
}
