/**
 * Writing commands down for the shell (src/usr/sh.c), with any blanks between the tokens and with or without
 * parentheses: the parser reads back what was written.
 */
module ShPrint {
  import opened Wrappers
  import opened Sh
  import opened ShGrammar

  // ----- tokens written one after the other -----

  predicate LegalWord(w: string) {
    w != [] && forall c :: c in w ==> IsWordChar(c) && c != NUL
  }

  predicate LegalLex(a: Lex<string>) {
    if a.Name? then LegalWord(a.word) else a.kind == '+' || IsSymbol(a.kind)
  }

  predicate AllLegal(ts: seq<Lex<string>>) {
    forall i :: 0 <= i < |ts| ==> LegalLex(ts[i])
  }

  function Spell(a: Lex<string>): string {
    if a.Name? then a.word else if a.kind == '+' then ">>" else [a.kind]
  }

  predicate Blank(g: string) {
    forall i :: 0 <= i < |g| ==> IsSpace(g[i])
  }

  /** Two tokens that would read as one, or as others, with nothing between them. */
  predicate Glue(a: Lex<string>, b: Lex<string>) {
    (a.Name? && b.Name?) || (a == Sym('>') && b in {Sym('>'), Sym('+')})
  }

  /** A blank after each token, which may be empty where the tokens do not glue. */
  predicate Spaced(ts: seq<Lex<string>>, gaps: seq<string>) {
    |gaps| == |ts|
    && forall i :: 0 <= i < |ts| ==>
         Blank(gaps[i]) && (gaps[i] == [] && i + 1 < |ts| ==> !Glue(ts[i], ts[i + 1]))
  }

  function Render(ts: seq<Lex<string>>, gaps: seq<string>): string
    requires |gaps| == |ts|
  {
    if ts == [] then [] else Spell(ts[0]) + gaps[0] + Render(ts[1..], gaps[1..])
  }

  /** A word as its text in the line. */
  function Text(s: string): Word -> string { (w: Word) => if w.q <= w.eq <= |s| then s[w.q..w.eq] else [] }

  lemma {:induction false} SkipOver(s: string, p: nat, g: nat)
    requires p <= g <= |s| && (g < |s| ==> !IsSpace(s[g])) && forall k :: p <= k < g ==> IsSpace(s[k])
    ensures Skip(s, p) == g
    decreases g - p
  {
    if p < g { SkipOver(s, p + 1, g); }
  }

  lemma {:induction false} WordEndAt(s: string, p: nat, e: nat)
    requires p <= e <= |s| && (e < |s| ==> !IsWordChar(s[e])) && forall k :: p <= k < e ==> IsWordChar(s[k])
    ensures WordEnd(s, p) == e
    decreases e - p
  {
    if p < e { WordEndAt(s, p + 1, e); }
  }

  /** a stands at p, and what follows does not run into it. */
  predicate Stands(s: string, p: nat, a: Lex<string>) {
    && p + |Spell(a)| <= |s| && s[p..p + |Spell(a)|] == Spell(a)
    && var c := CharAt(s, p + |Spell(a)|);
       (a.Name? ==> c == NUL || !IsWordChar(c)) && (a == Sym('>') ==> c != '>')
  }

  lemma SpellHead(a: Lex<string>)
    requires LegalLex(a)
    ensures Spell(a) != [] && !IsSpace(Spell(a)[0]) && (Spell(a)[0] == '>' <==> a in {Sym('>'), Sym('+')})
    ensures IsWordChar(Spell(a)[0]) <==> a.Name?
  {
    if a.Name? { assert a.word[0] in a.word; }
  }

  lemma TokSpelled(s: string, p: nat, a: Lex<string>, g: nat)
    requires NUL !in s && LegalLex(a) && Stands(s, p, a) && p + |Spell(a)| <= g <= |s|
    requires (g < |s| ==> !IsSpace(s[g])) && forall k :: p + |Spell(a)| <= k < g ==> IsSpace(s[k])
    ensures var kind := if a.Name? then 'a' else a.kind; Tok(s, p) == Token(kind, Word(p, p + |Spell(a)|), g)
  {
    var e := p + |Spell(a)|;
    SkipOver(s, e, g);
    SpellHead(a);
    assert s[p] == s[p..e][0];
    assert forall k :: p <= k < e ==> s[k] == s[p..e][k - p];
    SkipOver(s, p, p);
    if a.Name? { WordEndAt(s, p, e); }
  }

  /** The text after a token does not run into it. */
  lemma HeadRendered(ts: seq<Lex<string>>, gaps: seq<string>)
    requires |gaps| == |ts| > 0 && AllLegal(ts)
    ensures var r := Render(ts, gaps); r != [] && !IsSpace(r[0]) && (r[0] == '>' <==> ts[0] in {Sym('>'), Sym('+')})
    ensures IsWordChar(Render(ts, gaps)[0]) <==> ts[0].Name?
  {
    SpellHead(ts[0]);
    hide Spell, IsSpace, IsWordChar, LegalLex;
    assert Render(ts, gaps)[0] == Spell(ts[0])[0];
  }

  lemma {:induction false} LexInverts(s: string, p: nat, ts: seq<Lex<string>>, gaps: seq<string>)
    requires p <= |s| && NUL !in s && AllLegal(ts) && Spaced(ts, gaps) && s[p..] == Render(ts, gaps)
    ensures Toks(s, p, Text(s)) == ts
    decreases |ts|
  {
    hide *;
    if ts == [] {
      NothingLeft(s, p, ts, gaps);
    } else {
      var g := LexStep(s, p, ts, gaps);
      LexInverts(s, g, ts[1..], gaps[1..]);
      assert ts == [ts[0]] + ts[1..];
    }
  }

  lemma LexStep(s: string, p: nat, ts: seq<Lex<string>>, gaps: seq<string>) returns (g: nat)
    requires p <= |s| && NUL !in s && ts != [] && AllLegal(ts) && Spaced(ts, gaps) && s[p..] == Render(ts, gaps)
    ensures p < g <= |s| && |gaps| > 0 && AllLegal(ts[1..]) && Spaced(ts[1..], gaps[1..])
    ensures |gaps[1..]| == |ts[1..]| && s[g..] == Render(ts[1..], gaps[1..])
    ensures Toks(s, p, Text(s)) == [ts[0]] + Toks(s, g, Text(s))
  {
    SpacedRest(ts, gaps);
    hide *;
    g := FirstLex(s, p, ts, gaps);
    Unfold(s, p, Text(s));
  }

  lemma NothingLeft(s: string, p: nat, ts: seq<Lex<string>>, gaps: seq<string>)
    requires p <= |s| && NUL !in s && ts == [] && Spaced(ts, gaps) && s[p..] == Render(ts, gaps)
    ensures Toks(s, p, Text(s)) == []
  {
    AtEnd(s, p, Text(s));
    SkipOver(s, p, p);
  }

  lemma SpacedRest(ts: seq<Lex<string>>, gaps: seq<string>)
    requires ts != [] && AllLegal(ts) && Spaced(ts, gaps)
    ensures |gaps| == |ts| && AllLegal(ts[1..]) && Spaced(ts[1..], gaps[1..]) && LegalLex(ts[0]) && Blank(gaps[0])
  {
    hide LegalLex, Blank, Glue;
  }

  lemma FirstLex(s: string, p: nat, ts: seq<Lex<string>>, gaps: seq<string>) returns (g: nat)
    requires p <= |s| && NUL !in s && ts != [] && AllLegal(ts) && Spaced(ts, gaps) && s[p..] == Render(ts, gaps)
    ensures p < g <= |s| && s[g..] == Render(ts[1..], gaps[1..])
    ensures Tok(s, p).next == g && Tok(s, p).word.q == p
    ensures if ts[0].Name? then Tok(s, p).kind == 'a' && Text(s)(Tok(s, p).word) == ts[0].word
            else Tok(s, p).kind == ts[0].kind && ts[0].kind != 'a' && ts[0].kind != NUL
  {
    var a, gap, rest := ts[0], gaps[0], Render(ts[1..], gaps[1..]);
    assert Render(ts, gaps) == Spell(a) + gap + rest;
    SpacedRest(ts, gaps);
    hide *;
    Pieces(s, p, Spell(a), gap, rest);
    Apart(s, p + |Spell(a)|, ts, gaps);
    g := FirstOf(s, p, a, gap, rest);
  }

  lemma FirstOf(s: string, p: nat, a: Lex<string>, gap: string, rest: string) returns (g: nat)
    requires p <= |s| && NUL !in s && LegalLex(a) && Blank(gap) && s[p..] == Spell(a) + gap + rest
    requires var g := p + |Spell(a)| + |gap|; g < |s| ==> !IsSpace(s[g])
    requires var c := CharAt(s, p + |Spell(a)|);
             (a.Name? ==> c == NUL || !IsWordChar(c)) && (a == Sym('>') ==> c != '>')
    ensures p < g <= |s| && s[g..] == rest
    ensures Tok(s, p).next == g && Tok(s, p).word.q == p
    ensures if a.Name? then Tok(s, p).kind == 'a' && Text(s)(Tok(s, p).word) == a.word
            else Tok(s, p).kind == a.kind && a.kind != 'a' && a.kind != NUL
  {
    hide Skip, Tok, Spell, LegalLex, IsSpace, IsWordChar;
    Pieces(s, p, Spell(a), gap, rest);
    g := p + |Spell(a)| + |gap|;
    FirstIs(s, p, a, g);
  }

  lemma FirstIs(s: string, p: nat, a: Lex<string>, g: nat)
    requires NUL !in s && LegalLex(a) && Stands(s, p, a) && p + |Spell(a)| <= g <= |s|
    requires (g < |s| ==> !IsSpace(s[g])) && forall k :: p + |Spell(a)| <= k < g ==> IsSpace(s[k])
    ensures p < g && Tok(s, p).next == g && Tok(s, p).word.q == p
    ensures if a.Name? then Tok(s, p).kind == 'a' && Text(s)(Tok(s, p).word) == a.word
            else Tok(s, p).kind == a.kind && a.kind != 'a' && a.kind != NUL
  {
    hide Skip, Tok;
    SpellHead(a);
    TokSpelled(s, p, a, g);
  }

  lemma Pieces(s: string, p: nat, x: string, y: string, z: string)
    requires p <= |s| && s[p..] == x + y + z
    ensures var e := p + |x|;
            && e + |y| <= |s| && s[p..e] == x && s[e..] == y + z && s[e + |y|..] == z
            && forall k :: e <= k < e + |y| ==> s[k] == y[k - e]
  {
    var t := s[p..];
    assert t[..|x|] == x && t[|x|..] == y + z && t[|x| + |y|..] == z;
    forall k | p + |x| <= k < p + |x| + |y|
      ensures s[k] == y[k - p - |x|]
    {
      assert s[k] == t[k - p];
    }
  }

  /** What comes after the first token, with its blank. */
  lemma Apart(s: string, e: nat, ts: seq<Lex<string>>, gaps: seq<string>)
    requires ts != [] && AllLegal(ts) && Spaced(ts, gaps) && e + |gaps[0]| <= |s|
    requires s[e..] == gaps[0] + Render(ts[1..], gaps[1..])
    requires s[e + |gaps[0]|..] == Render(ts[1..], gaps[1..])
    ensures var g := e + |gaps[0]|; g < |s| ==> !IsSpace(s[g])
    ensures var c := CharAt(s, e);
            (ts[0].Name? ==> c == NUL || !IsWordChar(c)) && (ts[0] == Sym('>') ==> c != '>')
  {
    var g, rest := e + |gaps[0]|, Render(ts[1..], gaps[1..]);
    assert Blank(gaps[0]);
    if |ts| > 1 {
      HeadRendered(ts[1..], gaps[1..]);
      assert s[g] == rest[0];
    }
    if |gaps[0]| > 0 { assert s[e] == gaps[0][0]; }
  }

  lemma {:induction false} NoNul(ts: seq<Lex<string>>, gaps: seq<string>)
    requires AllLegal(ts) && Spaced(ts, gaps)
    ensures NUL !in Render(ts, gaps)
    decreases |ts|
  {
    if ts != [] {
      assert LegalLex(ts[0]) && Blank(gaps[0]);
      NoNul(ts[1..], gaps[1..]);
    }
  }

  /** However its tokens are spaced, a line of the grammar is read as what its tree means. */
  lemma ParseInvertsRender(x: Line<string>, lead: string, gaps: seq<string>)
    requires LineOk(x) && AllLegal(FlatLine(x)) && Blank(lead) && Spaced(FlatLine(x), gaps)
    ensures var s := lead + Render(FlatLine(x), gaps);
            NUL !in s && PCmd(s).Some? && MapCmd(Text(s), PCmd(s).value) == LineMeaning(x)
  {
    hide LineOk, FlatLine, LineMeaning, PCmd, MapCmd;
    var ts := FlatLine(x);
    var s := lead + Render(ts, gaps);
    NoNul(ts, gaps);
    assert s[|lead|..] == Render(ts, gaps);
    LexInverts(s, |lead|, ts, gaps);
    Led(s, lead, ts, gaps);
    HeadIs(s, 0, Text(s));
    ParseReads(s, Text(s), x);
  }

  lemma Led(s: string, lead: string, ts: seq<Lex<string>>, gaps: seq<string>)
    requires AllLegal(ts) && |gaps| == |ts| && Blank(lead) && s == lead + Render(ts, gaps)
    ensures Skip(s, 0) == |lead|
  {
    if ts != [] { HeadRendered(ts, gaps); }
    SkipOver(s, 0, |lead|);
  }

  // ----- every command can be written -----

  /** Commands the grammar can produce. */
  ghost predicate Legal<W>(c: Cmd<W>) {
    match c
    case Exec(argv) => |argv| < MAXARGS
    case Redir(d, rd) => Legal(d) && rd == RdOf(OpOf(rd), rd.file)
    case Pipe(l, r) => Legal(l) && Legal(r)
    case List(l, r) => Legal(l) && Legal(r)
    case Back(d) => Legal(d)
  }

  function ArgItems<W>(ws: seq<W>): seq<Item<W>> {
    if ws == [] then [] else [Arg(ws[0])] + ArgItems(ws[1..])
  }

  function OpOf<W>(rd: Rd<W>): char { if rd.fd == 0 then '<' else '>' }

  function NameToks<W>(ws: seq<W>): seq<Lex<W>> {
    if ws == [] then [] else [Name(ws[0])] + NameToks(ws[1..])
  }

  function Enclosed<W>(toks: seq<Lex<W>>): seq<Lex<W>> { [Sym('(')] + toks + [Sym(')')] }

  /** The command written with parentheses around its parts. */
  function Print<W>(c: Cmd<W>): seq<Lex<W>> {
    match c
    case Exec(argv) => NameToks(argv)
    case Redir(d, rd) => Enclosed(Print(d)) + [Sym(OpOf(rd)), Name(rd.file)]
    case Pipe(l, r) => Enclosed(Print(l)) + [Sym('|')] + Enclosed(Print(r))
    case List(l, r) => Enclosed(Print(l)) + [Sym(';')] + Enclosed(Print(r))
    case Back(d) => Enclosed(Print(d)) + [Sym('&')]
  }

  lemma {:induction false} ArgItemsAre<W>(ws: seq<W>)
    ensures ItemsOk(ArgItems(ws)) && ArgsOf(ArgItems(ws)) == ws && RedsOf(ArgItems(ws)) == []
  {
    if ws != [] { ArgItemsAre(ws[1..]); }
  }

  lemma {:induction false} ArgItemsFlat<W>(ws: seq<W>)
    ensures FlatItems(ArgItems(ws)) == NameToks(ws)
  {
    if ws != [] { ArgItemsFlat(ws[1..]); }
  }

  /** The tree x prints c and means it. */
  ghost predicate Derives<W>(x: Line<W>, c: Cmd<W>) {
    LineOk(x) && FlatLine(x) == Print(c) && LineMeaning(x) == c
  }

  lemma OfExe<W>(x: Exe<W>)
    ensures var p := Last(x); PipMeaning(p) == Meaning(x) && FlatPip(p) == Flat(x) && (PipOk(p) <==> ExeOk(x))
  {
    hide Flat, Meaning, ExeOk;
  }

  lemma OfPip<W>(x: Pip<W>)
    ensures var l := End(x, 0);
            LineMeaning(l) == PipMeaning(x) && FlatLine(l) == FlatPip(x) && (LineOk(l) <==> PipOk(x))
  {
    hide FlatPip, PipMeaning, PipOk;
  }

  lemma Blocked<W>(x: Line<W>, c: Cmd<W>)
    requires Derives(x, c)
    ensures var b := Block(x, []); ExeOk(b) && Meaning(b) == c && Flat(b) == Enclosed(Print(c))
  {
    assert FlatItems<W>([]) == [];
    hide Print, LineOk, FlatLine, LineMeaning;
  }

  lemma ExecDerived<W>(argv: seq<W>)
    requires |argv| < MAXARGS
    ensures Derives(End(Last(Simple(ArgItems(argv))), 0), Exec(argv))
  {
    var x := Simple(ArgItems(argv));
    ArgItemsAre(argv);
    ArgItemsFlat(argv);
    OfExe(x);
    OfPip(Last(x));
    hide PipOk, FlatPip, PipMeaning, LineOk, FlatLine, LineMeaning;
  }

  lemma RedirDerived<W>(x: Line<W>, d: Cmd<W>, rd: Rd<W>)
    requires Derives(x, d) && rd == RdOf(OpOf(rd), rd.file)
    ensures Derives(End(Last(Block(x, [Red(OpOf(rd), rd.file)])), 0), Redir(d, rd))
  {
    var i := Red(OpOf(rd), rd.file);
    var b := Block(x, [i]);
    OneRed(i);
    assert Wrap(d, [rd]) == Wrap(Redir(d, rd), []) == Redir(d, rd);
    OfExe(b);
    OfPip(Last(b));
    hide Wrap, PipOk, FlatPip, PipMeaning, LineOk, FlatLine, LineMeaning, FlatItems, RedsOf;
  }

  lemma OneRed<W>(i: Item<W>)
    requires IsRed(i)
    ensures FlatItems([i]) == [Sym(i.op), Name(i.file)] && RedsOf([i]) == [RdOf(i.op, i.file)] && AllReds([i])
  {
    assert [i][1..] == [];
    assert FlatItems([i]) == [Sym(i.op), Name(i.file)] + FlatItems<W>([]);
    assert RedsOf([i]) == [RdOf(i.op, i.file)] + RedsOf<W>([]);
  }

  lemma PipeDerived<W>(x: Line<W>, l: Cmd<W>, y: Line<W>, r: Cmd<W>)
    requires Derives(x, l) && Derives(y, r)
    ensures Derives(End(Bar(Block(x, []), Last(Block(y, []))), 0), Pipe(l, r))
  {
    Blocked(x, l);
    Blocked(y, r);
    OfExe(Block(y, []));
    var p := Bar(Block(x, []), Last(Block(y, [])));
    OfPip(p);
    hide Flat, Meaning, ExeOk, LineOk, FlatLine, LineMeaning;
    assert FlatPip(p) == Print(Pipe(l, r));
  }

  lemma ListDerived<W>(x: Line<W>, l: Cmd<W>, y: Line<W>, r: Cmd<W>)
    requires Derives(x, l) && Derives(y, r)
    ensures Derives(Semi(Last(Block(x, [])), 0, End(Last(Block(y, [])), 0)), List(l, r))
  {
    Blocked(x, l);
    Blocked(y, r);
    OfExe(Block(x, []));
    OfExe(Block(y, []));
    OfPip(Last(Block(y, [])));
    hide Flat, Meaning, ExeOk, PipOk, FlatPip, PipMeaning;
    assert FlatLine(Semi(Last(Block(x, [])), 0, End(Last(Block(y, [])), 0))) == Print(List(l, r));
  }

  lemma BackDerived<W>(x: Line<W>, d: Cmd<W>)
    requires Derives(x, d)
    ensures Derives(End(Last(Block(x, [])), 1), Back(d))
  {
    Blocked(x, d);
    OfExe(Block(x, []));
    assert Backed(1, d) == Backed(0, Back(d));
    assert Amps<W>(1) == [Sym('&')] + Amps(0);
    hide Flat, Meaning, ExeOk, PipOk, FlatPip, PipMeaning;
  }

  /** Every command the parser can produce has a line of the grammar. */
  lemma {:induction false} Derived<W>(c: Cmd<W>) returns (x: Line<W>)
    requires Legal(c)
    ensures Derives(x, c)
  {
    hide Derives;
    match c
    case Exec(argv) =>
      ExecDerived(argv);
      x := End(Last(Simple(ArgItems(argv))), 0);
    case Redir(d, rd) =>
      var y := Derived(d);
      RedirDerived(y, d, rd);
      x := End(Last(Block(y, [Red(OpOf(rd), rd.file)])), 0);
    case Pipe(l, r) =>
      var y := Derived(l);
      var z := Derived(r);
      PipeDerived(y, l, z, r);
      x := End(Bar(Block(y, []), Last(Block(z, []))), 0);
    case List(l, r) =>
      var y := Derived(l);
      var z := Derived(r);
      ListDerived(y, l, z, r);
      x := Semi(Last(Block(y, [])), 0, End(Last(Block(z, [])), 0));
    case Back(d) =>
      var y := Derived(d);
      BackDerived(y, d);
      x := End(Last(Block(y, [])), 1);
  }

  ghost predicate WordsLegal(c: Cmd<string>) {
    forall w :: w in Words(c) ==> LegalWord(w)
  }

  lemma {:induction false} NamesLegal(ws: seq<string>)
    requires forall w :: w in ws ==> LegalWord(w)
    ensures AllLegal(NameToks(ws))
  {
    if ws != [] { NamesLegal(ws[1..]); }
  }

  lemma {:induction false} PrintLegal(c: Cmd<string>)
    requires WordsLegal(c)
    ensures AllLegal(Print(c))
  {
    hide LegalWord;
    match c
    case Exec(argv) =>
      NamesLegal(argv);
    case Redir(d, rd) =>
      PrintLegal(d);
      assert rd.file in Words(c);
    case Pipe(l, r) =>
      PrintLegal(l);
      PrintLegal(r);
    case List(l, r) =>
      PrintLegal(l);
      PrintLegal(r);
    case Back(d) =>
      PrintLegal(d);
  }

  /** The shell reads a written command back as that command. */
  lemma ParseInvertsPrint(c: Cmd<string>, lead: string, gaps: seq<string>)
    requires Legal(c) && WordsLegal(c) && Blank(lead) && Spaced(Print(c), gaps)
    ensures var s := lead + Render(Print(c), gaps);
            NUL !in s && PCmd(s).Some? && MapCmd(Text(s), PCmd(s).value) == c
  {
    var x := Derived(c);
    hide *;
    PrintLegal(c);
    ParseInvertsRender(x, lead, gaps);
  }

  // ----- and nothing else comes out -----

  lemma {:induction false} WrapLegal<W>(c: Cmd<W>, items: seq<Item<W>>)
    requires Legal(c)
    ensures Legal(Wrap(c, RedsOf(items)))
    decreases |items|
  {
    if items != [] {
      var i, rest := items[0], items[1..];
      if i.Red? {
        var rd := RdOf(i.op, i.file);
        WrapLegal(Redir(c, rd), rest);
        assert RedsOf(items)[1..] == RedsOf(rest);
      } else {
        WrapLegal(c, rest);
        assert RedsOf(items) == RedsOf(rest);
      }
    }
  }

  lemma {:induction false} BackedLegal<W>(n: nat, c: Cmd<W>)
    requires Legal(c)
    ensures Legal(Backed(n, c))
    decreases n
  {
    if n > 0 { BackedLegal(n - 1, Back(c)); }
  }

  lemma {:induction false} ExeLegal<W>(x: Exe<W>)
    requires ExeOk(x)
    ensures Legal(Meaning(x))
    decreases x
  {
    match x
    case Simple(items) =>
      WrapLegal(Exec(ArgsOf(items)), items);
    case Block(line, reds) =>
      LineLegal(line);
      WrapLegal(LineMeaning(line), reds);
  }

  lemma {:induction false} PipLegal<W>(x: Pip<W>)
    requires PipOk(x)
    ensures Legal(PipMeaning(x))
    decreases x
  {
    ExeLegal(x.exe);
    if x.Bar? { PipLegal(x.rest); }
  }

  lemma {:induction false} LineLegal<W>(x: Line<W>)
    requires LineOk(x)
    ensures Legal(LineMeaning(x))
    decreases x
  {
    PipLegal(x.pip);
    BackedLegal(x.backs, PipMeaning(x.pip));
    if x.Semi? { LineLegal(x.rest); }
  }

  lemma {:induction false} MapLegal<V, W>(f: V -> W, c: Cmd<V>)
    requires Legal(c)
    ensures Legal(MapCmd(f, c)) && Words(MapCmd(f, c)) == MapWords(f, Words(c))
  {
    match c
    case Exec(argv) =>
      MapLength(f, argv);
    case Redir(d, rd) =>
      MapLegal(f, d);
      MapAppend(f, Words(d), rd.file);
    case Pipe(l, r) =>
      MapLegal(f, l);
      MapLegal(f, r);
      MapConcat(f, Words(l), Words(r));
    case List(l, r) =>
      MapLegal(f, l);
      MapLegal(f, r);
      MapConcat(f, Words(l), Words(r));
    case Back(d) =>
      MapLegal(f, d);
  }

  lemma {:induction false} MapLength<V, W>(f: V -> W, ws: seq<V>)
    ensures |MapWords(f, ws)| == |ws|
  {
    if ws != [] { MapLength(f, ws[1..]); }
  }

  lemma {:induction false} MapConcat<V, W>(f: V -> W, a: seq<V>, b: seq<V>)
    ensures MapWords(f, a + b) == MapWords(f, a) + MapWords(f, b)
  {
    if a == [] {
      assert a + b == b;
    } else {
      assert (a + b)[1..] == a[1..] + b;
      MapConcat(f, a[1..], b);
    }
  }

  lemma {:induction false} TextsLegal(s: string, ws: seq<Word>)
    requires NUL !in s && forall w :: w in ws ==> WordOk(s, w)
    ensures forall t :: t in MapWords(Text(s), ws) ==> LegalWord(t)
  {
    if ws != [] {
      assert WordOk(s, ws[0]);
      assert LegalWord(s[ws[0].q..ws[0].eq]);
      TextsLegal(s, ws[1..]);
    }
  }

  /** The command t is what the shell reads from some line. */
  ghost predicate Read(t: Cmd<string>) {
    exists s :: ReadFrom(t, s)
  }

  ghost predicate ReadFrom(t: Cmd<string>, s: string) {
    NUL !in s && PCmd(s).Some? && MapCmd(Text(s), PCmd(s).value) == t
  }

  lemma ReadIsLegal(t: Cmd<string>, s: string)
    requires ReadFrom(t, s)
    ensures Legal(t) && WordsLegal(t)
  {
    hide Legal, MapCmd, Words, LegalWord, LineOk, LineMeaning, PLine, Skip, InOrder;
    var c := PCmd(s).value;
    var x := ParseDerives(s);
    LineLegal(x);
    MapLegal(Text(s), c);
    LineWords(s, 0);
    TextsLegal(s, Words(c));
  }

  lemma LegalIsRead(t: Cmd<string>)
    requires Legal(t) && WordsLegal(t)
    ensures Read(t)
  {
    var gaps := seq(|Print(t)|, i => " ");
    assert Spaced(Print(t), gaps);
    hide Legal, MapCmd, PCmd, Print, Render;
    ParseInvertsPrint(t, "", gaps);
    assert ReadFrom(t, "" + Render(Print(t), gaps));
  }

  /** The commands the shell reads are exactly those over legal words, with at most nine arguments each. */
  lemma ReadIff(t: Cmd<string>)
    ensures Read(t) <==> Legal(t) && WordsLegal(t)
  {
    hide Legal, WordsLegal, ReadFrom;
    if Read(t) {
      var s :| ReadFrom(t, s);
      ReadIsLegal(t, s);
    }
    if Legal(t) && WordsLegal(t) { LegalIsRead(t); }
  }
}
