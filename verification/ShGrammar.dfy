/**
 * What the shell's parser accepts.  The grammar is stated by itself, as derivation trees with the tokens they
 * spell and the command they mean; the parser accepts exactly the lines a tree spells, and gives its meaning.
 */
module ShGrammar {
  import opened Wrappers
  import opened Sh

  // ----- the tokens of a line -----

  /** A word, as a value of type W, or a symbol; '+' is the symbol >>. */
  datatype Lex<W> = Name(word: W) | Sym(kind: char)

  /** The tokens of the line from p on, each word w as f(w). */
  function Toks<W>(s: string, p: nat, f: Word -> W): seq<Lex<W>>
    requires p <= |s| && NUL !in s
    decreases |s| - p
  {
    var t := Tok(s, p);
    if t.kind == NUL then []
    else [if t.kind == 'a' then Name(f(t.word)) else Sym(t.kind)] + Toks(s, t.next, f)
  }

  /** The kind of the first token, as gettoken returns it. */
  function Head<W>(toks: seq<Lex<W>>): char {
    if toks == [] then NUL else if toks[0].Name? then 'a' else toks[0].kind
  }

  lemma HeadIs<W>(s: string, p: nat, f: Word -> W)
    requires p <= |s| && NUL !in s
    ensures Head(Toks(s, p, f)) == Tok(s, p).kind && Toks(s, Skip(s, p), f) == Toks(s, p, f)
    ensures Tok(s, p).kind != NUL ==> Tok(s, p).next > p
  {
    SkipFirst(s, p);
  }

  lemma Unfold<W>(s: string, p: nat, f: Word -> W)
    requires p <= |s| && NUL !in s && Tok(s, p).kind != NUL
    ensures var t := Tok(s, p);
            && t.next > p
            && Toks(s, p, f) == [if t.kind == 'a' then Name(f(t.word)) else Sym(t.kind)] + Toks(s, t.next, f)
  {
  }

  /** peek sees the first character of the next token. */
  lemma Ahead<W>(s: string, p: nat, f: Word -> W)
    requires p <= |s| && NUL !in s
    ensures Peeks(s, p, "<>") <==> Head(Toks(s, p, f)) in "<>+"
    ensures Peeks(s, p, "|)&;") <==> Head(Toks(s, p, f)) in "|)&;"
    ensures Peeks(s, p, "(") <==> Head(Toks(s, p, f)) == '('
    ensures Peeks(s, p, ")") <==> Head(Toks(s, p, f)) == ')'
    ensures Peeks(s, p, "|") <==> Head(Toks(s, p, f)) == '|'
    ensures Peeks(s, p, "&") <==> Head(Toks(s, p, f)) == '&'
    ensures Peeks(s, p, ";") <==> Head(Toks(s, p, f)) == ';'
  {
    HeadIs(s, p, f);
  }

  lemma TokenlessEnd<W>(s: string, p: nat, f: Word -> W)
    requires p <= |s| && NUL !in s && Tok(s, p).kind == NUL
    ensures Toks(s, Tok(s, p).next, f) == []
  {
  }

  lemma Regroup<T>(a: seq<T>, b: seq<T>, c: seq<T>)
    ensures a + b + c == a + (b + c)
  {
  }

  // ----- derivation trees -----

  datatype Item<W> = Arg(word: W) | Red(op: char, file: W)

  /** Arguments and redirections in any order, or a line in parentheses with redirections after it. */
  datatype Exe<W> = Simple(items: seq<Item<W>>) | Block(line: Line<W>, items: seq<Item<W>>)

  datatype Pip<W> = Last(exe: Exe<W>) | Bar(exe: Exe<W>, rest: Pip<W>)

  /** A pipeline, a number of ampersands, and perhaps a semicolon and another line. */
  datatype Line<W> = End(pip: Pip<W>, backs: nat) | Semi(pip: Pip<W>, backs: nat, rest: Line<W>)

  predicate IsRed<W>(i: Item<W>) { i.Red? && i.op in "<>+" }

  predicate AllReds<W>(items: seq<Item<W>>) {
    forall i :: 0 <= i < |items| ==> IsRed(items[i])
  }

  predicate ItemsOk<W>(items: seq<Item<W>>) {
    forall i :: 0 <= i < |items| ==> items[i].Arg? || IsRed(items[i])
  }

  predicate ExeOk<W>(x: Exe<W>) {
    match x
    case Simple(items) => ItemsOk(items) && |ArgsOf(items)| < MAXARGS
    case Block(line, reds) => LineOk(line) && AllReds(reds)
  }

  predicate PipOk<W>(x: Pip<W>) {
    ExeOk(x.exe) && (x.Bar? ==> PipOk(x.rest))
  }

  predicate LineOk<W>(x: Line<W>) {
    PipOk(x.pip) && (x.Semi? ==> LineOk(x.rest))
  }

  // ----- the tokens a tree spells -----

  function FlatItems<W>(items: seq<Item<W>>): seq<Lex<W>> {
    if items == [] then [] else FlatItem(items[0]) + FlatItems(items[1..])
  }

  function FlatItem<W>(i: Item<W>): seq<Lex<W>> {
    if i.Arg? then [Name(i.word)] else [Sym(i.op), Name(i.file)]
  }

  function Flat<W>(x: Exe<W>): seq<Lex<W>> {
    match x
    case Simple(items) => FlatItems(items)
    case Block(line, reds) => [Sym('(')] + FlatLine(line) + [Sym(')')] + FlatItems(reds)
  }

  function FlatPip<W>(x: Pip<W>): seq<Lex<W>> {
    Flat(x.exe) + if x.Bar? then [Sym('|')] + FlatPip(x.rest) else []
  }

  function Amps<W>(n: nat): seq<Lex<W>> {
    if n == 0 then [] else [Sym('&')] + Amps(n - 1)
  }

  function FlatLine<W>(x: Line<W>): seq<Lex<W>> {
    FlatPip(x.pip) + Amps(x.backs) + if x.Semi? then [Sym(';')] + FlatLine(x.rest) else []
  }

  // ----- the command a tree means -----

  function ArgsOf<W>(items: seq<Item<W>>): seq<W> {
    if items == [] then [] else (if items[0].Arg? then [items[0].word] else []) + ArgsOf(items[1..])
  }

  /** The redirection an operator asks for; > and >> ask for the same. */
  function RdOf<W>(op: char, file: W): Rd<W> {
    if op == '<' then Rd(file, O_RDONLY, 0) else Rd(file, O_WRONLY_CREATE, 1)
  }

  function RedsOf<W>(items: seq<Item<W>>): seq<Rd<W>> {
    if items == [] then [] else (if items[0].Red? then [RdOf(items[0].op, items[0].file)] else []) + RedsOf(items[1..])
  }

  function Meaning<W>(x: Exe<W>): Cmd<W> {
    match x
    case Simple(items) => Wrap(Exec(ArgsOf(items)), RedsOf(items))
    case Block(line, reds) => Wrap(LineMeaning(line), RedsOf(reds))
  }

  function PipMeaning<W>(x: Pip<W>): Cmd<W> {
    if x.Bar? then Pipe(Meaning(x.exe), PipMeaning(x.rest)) else Meaning(x.exe)
  }

  function Backed<W>(n: nat, c: Cmd<W>): Cmd<W> {
    if n == 0 then c else Backed(n - 1, Back(c))
  }

  function LineMeaning<W>(x: Line<W>): Cmd<W> {
    var c := Backed(x.backs, PipMeaning(x.pip));
    if x.Semi? then List(c, LineMeaning(x.rest)) else c
  }

  lemma {:induction false} FlatConcat<W>(a: seq<Item<W>>, b: seq<Item<W>>)
    ensures FlatItems(a + b) == FlatItems(a) + FlatItems(b)
  {
    if a == [] {
      assert a + b == b;
    } else {
      assert (a + b)[1..] == a[1..] + b && (a + b)[0] == a[0];
      FlatConcat(a[1..], b);
      hide FlatItem;
      Regroup(FlatItem(a[0]), FlatItems(a[1..]), FlatItems(b));
    }
  }

  lemma {:induction false} ItemsConcat<W>(a: seq<Item<W>>, b: seq<Item<W>>)
    ensures FlatItems(a + b) == FlatItems(a) + FlatItems(b)
    ensures ArgsOf(a + b) == ArgsOf(a) + ArgsOf(b) && RedsOf(a + b) == RedsOf(a) + RedsOf(b)
  {
    hide FlatItems;
    FlatConcat(a, b);
    if a == [] {
      assert a + b == b;
    } else {
      assert (a + b)[1..] == a[1..] + b && (a + b)[0] == a[0];
      ItemsConcat(a[1..], b);
      hide RdOf;
      var i := a[0];
      Regroup(if i.Arg? then [i.word] else [], ArgsOf(a[1..]), ArgsOf(b));
      Regroup(if i.Red? then [RdOf(i.op, i.file)] else [], RedsOf(a[1..]), RedsOf(b));
    }
  }

  lemma {:induction false} RedsHaveNoArgs<W>(items: seq<Item<W>>)
    requires AllReds(items)
    ensures ArgsOf(items) == []
  {
    if items != [] { RedsHaveNoArgs(items[1..]); }
  }

  // ----- every line the parser accepts is spelled by a tree -----

  function Ident(): Word -> Word { w => w }

  function WordToks(s: string, p: nat): seq<Lex<Word>>
    requires p <= |s| && NUL !in s
  {
    Toks(s, p, Ident())
  }

  lemma {:induction false} RedirsSound(s: string, p: nat, rs: seq<Rd<Word>>) returns (items: seq<Item<Word>>)
    requires p <= |s| && NUL !in s && Redirs(s, p, rs).Ok?
    ensures AllReds(items) && Redirs(s, p, rs).value == rs + RedsOf(items)
    ensures WordToks(s, p) == FlatItems(items) + WordToks(s, Redirs(s, p, rs).next)
    decreases |s| - p
  {
    hide Skip, Tok, Peeks, Toks;
    HeadIs(s, p, Ident());
    Ahead(s, p, Ident());
    items := [];
    if Peeks(s, p, "<>") {
      var t := Tok(s, p);
      var f := Tok(s, t.next);
      Unfold(s, p, Ident());
      Unfold(s, t.next, Ident());
      var rest := RedirsSound(s, f.next, rs + [RdOf(t.kind, f.word)]);
      items := [Red(t.kind, f.word)] + rest;
      assert items[1..] == rest;
      Regroup(rs, [RdOf(t.kind, f.word)], RedsOf(rest));
      RedPut(t.kind, f.word, FlatItems(rest), WordToks(s, Redirs(s, p, rs).next));
    }
  }

  lemma RedPut<W>(op: char, w: W, a: seq<Lex<W>>, b: seq<Lex<W>>)
    ensures [Sym(op)] + ([Name(w)] + (a + b)) == [Sym(op), Name(w)] + a + b
  {
  }

  /** Where the arguments stop, */
  lemma ArgsHalt(s: string, p: nat, args: seq<Word>, rs: seq<Rd<Word>>)
    requires p <= |s| && NUL !in s && (Peeks(s, p, "|)&;") || Tok(s, p).kind == NUL)
    ensures var r := Args(s, p, args, rs);
            r.Ok? && r.value == Wrap(Exec(args), rs) && WordToks(s, r.next) == WordToks(s, p)
  {
    HeadIs(s, p, Ident());
    Ahead(s, p, Ident());
    if Tok(s, p).kind == NUL { TokenlessEnd(s, p, Ident()); }
    hide Skip, Tok, Peeks, Toks, Wrap;
  }

  /** and where they go on. */
  lemma ArgsGo(s: string, p: nat, args: seq<Word>, rs: seq<Rd<Word>>)
    requires p <= |s| && NUL !in s && !Peeks(s, p, "|)&;") && Tok(s, p).kind != NUL && Args(s, p, args, rs).Ok?
    ensures Tok(s, p).kind == 'a' && |args| + 1 < MAXARGS
    ensures var r := Redirs(s, Tok(s, p).next, rs);
            r.Ok? && r.next > p && Args(s, p, args, rs) == Args(s, r.next, args + [Tok(s, p).word], r.value)
  {
    HeadIs(s, p, Ident());
    hide Skip, Tok, Peeks, Redirs;
  }

  lemma {:induction false} ArgsSound(s: string, p: nat, args: seq<Word>, rs: seq<Rd<Word>>)
    returns (items: seq<Item<Word>>)
    requires p <= |s| && NUL !in s && |args| < MAXARGS && Args(s, p, args, rs).Ok?
    ensures ItemsOk(items) && |args| + |ArgsOf(items)| < MAXARGS
    ensures Args(s, p, args, rs).value == Wrap(Exec(args + ArgsOf(items)), rs + RedsOf(items))
    ensures WordToks(s, p) == FlatItems(items) + WordToks(s, Args(s, p, args, rs).next)
    decreases |s| - p
  {
    var t := Tok(s, p);
    if Peeks(s, p, "|)&;") || t.kind == NUL {
      hide Skip, Tok, Peeks, Args, Wrap, WordToks;
      ArgsHalt(s, p, args, rs);
      items := [];
      assert args + ArgsOf(items) == args && rs + RedsOf(items) == rs;
    } else {
      hide *;
      ArgsGo(s, p, args, rs);
      var r := Redirs(s, t.next, rs);
      var reds := RedirsSound(s, t.next, rs);
      var rest := ArgsSound(s, r.next, args + [t.word], r.value);
      items := [Arg(t.word)] + (reds + rest);
      ArgThenReds(t.word, reds, rest);
      Regroup(args, [t.word], ArgsOf(rest));
      Regroup(rs, RedsOf(reds), RedsOf(rest));
      WordPut(s, p, reds, rest, WordToks(s, Args(s, p, args, rs).next));
    }
  }

  lemma ArgThenReds<W>(w: W, reds: seq<Item<W>>, rest: seq<Item<W>>)
    requires AllReds(reds) && ItemsOk(rest)
    ensures var items := [Arg(w)] + (reds + rest);
            && ItemsOk(items) && ArgsOf(items) == [w] + ArgsOf(rest) && RedsOf(items) == RedsOf(reds) + RedsOf(rest)
            && FlatItems(items) == [Name(w)] + (FlatItems(reds) + FlatItems(rest))
  {
    ItemsConcat(reds, rest);
    RedsHaveNoArgs(reds);
    assert ([Arg(w)] + (reds + rest))[1..] == reds + rest;
  }

  lemma WordPut(s: string, p: nat, reds: seq<Item<Word>>, rest: seq<Item<Word>>, after: seq<Lex<Word>>)
    requires p <= |s| && NUL !in s && Tok(s, p).kind == 'a'
    requires WordToks(s, Tok(s, p).next) == FlatItems(reds) + (FlatItems(rest) + after)
    ensures WordToks(s, p) == [Name(Tok(s, p).word)] + (FlatItems(reds) + FlatItems(rest)) + after
  {
    hide Tok, Toks, FlatItems;
    Unfold(s, p, Ident());
  }

  lemma SimpleSound(s: string, p: nat) returns (x: Exe<Word>)
    requires p <= |s| && NUL !in s && PExec(s, p).Ok? && !Peeks(s, p, "(")
    ensures ExeOk(x) && Meaning(x) == PExec(s, p).value
    ensures WordToks(s, p) == Flat(x) + WordToks(s, PExec(s, p).next)
  {
    hide Skip, Tok, Peeks, Redirs, Args, Wrap, WordToks, FlatItems, ArgsOf, RedsOf, PLine;
    var r := Redirs(s, p, []);
    var reds := RedirsSound(s, p, []);
    var rest := ArgsSound(s, r.next, [], r.value);
    x := Simple(reds + rest);
    ItemsConcat(reds, rest);
    RedsHaveNoArgs(reds);
    Regroup(FlatItems(reds), FlatItems(rest), WordToks(s, PExec(s, p).next));
    assert [] + RedsOf(reds) == RedsOf(reds) && [] + ArgsOf(rest) == ArgsOf(rest);
  }

  lemma BlockPut<W>(a: seq<Lex<W>>, b: seq<Lex<W>>, c: seq<Lex<W>>)
    ensures [Sym('(')] + (a + ([Sym(')')] + (b + c))) == [Sym('(')] + a + [Sym(')')] + b + c
  {
  }

  lemma {:induction false} ExecSound(s: string, p: nat) returns (x: Exe<Word>)
    requires p <= |s| && NUL !in s && PExec(s, p).Ok?
    ensures ExeOk(x) && Meaning(x) == PExec(s, p).value
    ensures WordToks(s, p) == Flat(x) + WordToks(s, PExec(s, p).next)
    decreases |s| - p, 0
  {
    hide Skip, Tok, Peeks, Redirs, Args, Wrap, Toks, FlatItems, PLine, FlatLine, LineMeaning, LineOk;
    HeadIs(s, p, Ident());
    Ahead(s, p, Ident());
    if Peeks(s, p, "(") {
      Unfold(s, p, Ident());
      var p1 := Tok(s, p).next;
      var r := PLine(s, p1);
      var line := LineSound(s, p1);
      HeadIs(s, r.next, Ident());
      Ahead(s, r.next, Ident());
      Unfold(s, r.next, Ident());
      var p2 := Tok(s, r.next).next;
      var reds := RedirsSound(s, p2, []);
      assert [] + RedsOf(reds) == RedsOf(reds);
      x := Block(line, reds);
      BlockPut(FlatLine(line), FlatItems(reds), WordToks(s, PExec(s, p).next));
    } else {
      x := SimpleSound(s, p);
    }
  }

  lemma {:induction false} PipeSound(s: string, p: nat) returns (x: Pip<Word>)
    requires p <= |s| && NUL !in s && PPipe(s, p).Ok?
    ensures PipOk(x) && PipMeaning(x) == PPipe(s, p).value
    ensures WordToks(s, p) == FlatPip(x) + WordToks(s, PPipe(s, p).next)
    decreases |s| - p, 1
  {
    hide Skip, Tok, Peeks, PExec, Meaning, Flat, ExeOk;
    var exe := ExecSound(s, p);
    var q := PExec(s, p).next;
    HeadIs(s, q, Ident());
    Ahead(s, q, Ident());
    if Peeks(s, q, "|") {
      var rest := PipeSound(s, Tok(s, q).next);
      x := Bar(exe, rest);
    } else {
      x := Last(exe);
    }
  }

  lemma {:induction false} BacksSound(s: string, p: nat, c: Cmd<Word>) returns (n: nat)
    requires p <= |s| && NUL !in s
    ensures Backs(s, p, c).0 == Backed(n, c)
    ensures WordToks(s, p) == Amps(n) + WordToks(s, Backs(s, p, c).1)
    decreases |s| - p
  {
    hide Skip, Tok, Peeks;
    HeadIs(s, p, Ident());
    Ahead(s, p, Ident());
    n := 0;
    if Peeks(s, p, "&") {
      var m := BacksSound(s, Tok(s, p).next, Back(c));
      n := m + 1;
    }
  }

  lemma {:induction false} LineSound(s: string, p: nat) returns (x: Line<Word>)
    requires p <= |s| && NUL !in s && PLine(s, p).Ok?
    ensures LineOk(x) && LineMeaning(x) == PLine(s, p).value
    ensures WordToks(s, p) == FlatLine(x) + WordToks(s, PLine(s, p).next)
    decreases |s| - p, 2
  {
    hide Skip, Tok, Peeks, PPipe, Backs, PipMeaning, FlatPip, PipOk;
    var pip := PipeSound(s, p);
    var r := PPipe(s, p);
    var n := BacksSound(s, r.next, r.value);
    var q := Backs(s, r.next, r.value).1;
    HeadIs(s, q, Ident());
    Ahead(s, q, Ident());
    if Peeks(s, q, ";") {
      var rest := LineSound(s, Tok(s, q).next);
      x := Semi(pip, n, rest);
    } else {
      x := End(pip, n);
    }
  }

  // ----- and every line a tree spells is accepted, as what the tree means -----

  function MapRds<V, W>(f: V -> W, rs: seq<Rd<V>>): seq<Rd<W>> {
    if rs == [] then [] else [Rd(f(rs[0].file), rs[0].mode, rs[0].fd)] + MapRds(f, rs[1..])
  }

  function MapWords<V, W>(f: V -> W, ws: seq<V>): seq<W> {
    if ws == [] then [] else [f(ws[0])] + MapWords(f, ws[1..])
  }

  /** The command with each word w as f(w). */
  function MapCmd<V, W>(f: V -> W, c: Cmd<V>): Cmd<W> {
    match c
    case Exec(argv) => Exec(MapWords(f, argv))
    case Redir(d, rd) => Redir(MapCmd(f, d), Rd(f(rd.file), rd.mode, rd.fd))
    case Pipe(l, r) => Pipe(MapCmd(f, l), MapCmd(f, r))
    case List(l, r) => List(MapCmd(f, l), MapCmd(f, r))
    case Back(d) => Back(MapCmd(f, d))
  }

  lemma {:induction false} MapWrap<V, W>(f: V -> W, c: Cmd<V>, rs: seq<Rd<V>>)
    ensures MapCmd(f, Wrap(c, rs)) == Wrap(MapCmd(f, c), MapRds(f, rs))
    decreases |rs|
  {
    if rs != [] {
      MapWrap(f, Redir(c, rs[0]), rs[1..]);
    }
  }

  lemma {:induction false} MapAppend<V, W>(f: V -> W, ws: seq<V>, w: V)
    ensures MapWords(f, ws + [w]) == MapWords(f, ws) + [f(w)]
  {
    if ws != [] {
      MapAppend(f, ws[1..], w);
      assert (ws + [w])[1..] == ws[1..] + [w];
    }
  }

  lemma {:induction false} MapAppendRd<V, W>(f: V -> W, rs: seq<Rd<V>>, rd: Rd<V>)
    ensures MapRds(f, rs + [rd]) == MapRds(f, rs) + [Rd(f(rd.file), rd.mode, rd.fd)]
  {
    if rs != [] {
      MapAppendRd(f, rs[1..], rd);
      assert (rs + [rd])[1..] == rs[1..] + [rd];
    }
  }

  /** One token on. */
  lemma Next<W>(s: string, p: nat, f: Word -> W, a: Lex<W>, ts: seq<Lex<W>>)
    requires p <= |s| && NUL !in s && Toks(s, p, f) == [a] + ts
    ensures Toks(s, Tok(s, p).next, f) == ts && Tok(s, p).next > p
    ensures if a.Name? then Tok(s, p).kind == 'a' && f(Tok(s, p).word) == a.word else Tok(s, p).kind == a.kind != 'a'
  {
    HeadIs(s, p, f);
    hide Skip, Tok;
    assert Toks(s, p, f)[1..] == ts && Toks(s, p, f)[0] == a;
  }

  lemma {:induction false} RedirsComplete<W>(s: string, p: nat, rs: seq<Rd<Word>>, f: Word -> W,
      items: seq<Item<W>>, rest: seq<Lex<W>>)
    requires p <= |s| && NUL !in s && AllReds(items) && Head(rest) !in "<>+"
    requires Toks(s, p, f) == FlatItems(items) + rest
    ensures Redirs(s, p, rs).Ok? && MapRds(f, Redirs(s, p, rs).value) == MapRds(f, rs) + RedsOf(items)
    ensures Toks(s, Redirs(s, p, rs).next, f) == rest
    decreases |items|
  {
    hide Skip, Tok, Peeks, MapRds, Toks;
    HeadIs(s, p, f);
    Ahead(s, p, f);
    if items != [] {
      var t := Tok(s, p);
      var g := Tok(s, t.next);
      assert IsRed(items[0]);
      HeadIs(s, t.next, f);
      var rd := RdOf(t.kind, g.word);
      var after := FlatItems(items[1..]) + rest;
      assert FlatItems(items) + rest == [Sym(items[0].op)] + ([Name(items[0].file)] + after);
      Next(s, p, f, Sym(items[0].op), [Name(items[0].file)] + after);
      Next(s, t.next, f, Name(items[0].file), after);
      RedirsComplete(s, g.next, rs + [rd], f, items[1..], rest);
      MapAppendRd(f, rs, rd);
    }
  }

  predicate ArgFirst<W>(items: seq<Item<W>>) { items == [] || items[0].Arg? }

  /** The redirections at the front, and the rest. */
  lemma {:induction false} Front<W>(items: seq<Item<W>>) returns (reds: seq<Item<W>>, more: seq<Item<W>>)
    requires ItemsOk(items)
    ensures items == reds + more && AllReds(reds) && ItemsOk(more) && ArgFirst(more)
    ensures FlatItems(items) == FlatItems(reds) + FlatItems(more)
    ensures ArgsOf(items) == ArgsOf(more) && RedsOf(items) == RedsOf(reds) + RedsOf(more)
  {
    hide FlatItems, ArgsOf, RedsOf;
    reds, more := [], items;
    if items != [] && items[0].Red? {
      assert IsRed(items[0]);
      var rs, m := Front(items[1..]);
      reds, more := [items[0]] + rs, m;
      assert items == reds + more;
    } else {
      assert items == reds + more;
    }
    ItemsConcat(reds, more);
    RedsHaveNoArgs(reds);
  }

  lemma ArgFirstHead<W>(items: seq<Item<W>>, rest: seq<Lex<W>>)
    requires ArgFirst(items) && Follows(rest)
    ensures Head(FlatItems(items) + rest) !in "<>+("
  {
  }

  lemma ArgsLeft<W>(items: seq<Item<W>>)
    requires items != [] && ItemsOk(items) && ArgFirst(items)
    ensures items[0].Arg? && ItemsOk(items[1..])
  {
  }

  /** A first argument. */
  lemma ArgCons<W>(items: seq<Item<W>>, rest: seq<Lex<W>>)
    requires items != [] && items[0].Arg?
    ensures FlatItems(items) + rest == [Name(items[0].word)] + (FlatItems(items[1..]) + rest)
    ensures ArgsOf(items) == [items[0].word] + ArgsOf(items[1..]) && RedsOf(items) == RedsOf(items[1..])
  {
  }

  /** What can follow a command. */
  predicate Follows<W>(rest: seq<Lex<W>>) { rest == [] || (rest[0].Sym? && rest[0].kind in "|)&;") }

  lemma {:induction false} ArgsComplete<W>(s: string, p: nat, args: seq<Word>, rs: seq<Rd<Word>>, f: Word -> W,
      items: seq<Item<W>>, rest: seq<Lex<W>>)
    requires p <= |s| && NUL !in s && ItemsOk(items) && ArgFirst(items)
    requires |args| + |ArgsOf(items)| < MAXARGS && Follows(rest)
    requires Toks(s, p, f) == FlatItems(items) + rest
    ensures Args(s, p, args, rs).Ok?
    ensures MapCmd(f, Args(s, p, args, rs).value)
            == Wrap(Exec(MapWords(f, args) + ArgsOf(items)), MapRds(f, rs) + RedsOf(items))
    ensures Toks(s, Args(s, p, args, rs).next, f) == rest
    decreases |items|
  {
    if items == [] {
      hide Wrap, MapRds, MapWords, MapCmd, Toks, Args;
      ArgsStop(s, p, args, rs, f, rest);
      assert MapWords(f, args) + ArgsOf(items) == MapWords(f, args);
      assert MapRds(f, rs) + RedsOf(items) == MapRds(f, rs);
    } else {
      hide *;
      ArgsLeft(items);
      var t := Tok(s, p);
      var reds, more := Front(items[1..]);
      var after := FlatItems(more) + rest;
      ArgCons(items, rest);
      Regroup(FlatItems(reds), FlatItems(more), rest);
      Next(s, p, f, Name(items[0].word), FlatItems(reds) + after);
      ArgFirstHead(more, rest);
      RedirsComplete(s, t.next, rs, f, reds, after);
      var r := Redirs(s, t.next, rs);
      ArgsComplete(s, r.next, args + [t.word], r.value, f, more, rest);
      MapAppend(f, args, t.word);
      ArgsOn(s, p, args, rs);
      Regroup(MapWords(f, args), [items[0].word], ArgsOf(more));
      Regroup(MapRds(f, rs), RedsOf(reds), RedsOf(more));
    }
  }

  lemma ArgsStop<W>(s: string, p: nat, args: seq<Word>, rs: seq<Rd<Word>>, f: Word -> W, rest: seq<Lex<W>>)
    requires p <= |s| && NUL !in s && Follows(rest) && Toks(s, p, f) == rest
    ensures Args(s, p, args, rs).Ok? && Toks(s, Args(s, p, args, rs).next, f) == rest
    ensures MapCmd(f, Args(s, p, args, rs).value) == Wrap(Exec(MapWords(f, args)), MapRds(f, rs))
  {
    hide Skip, Tok, Peeks, Redirs, Wrap, MapRds, MapWords, Toks;
    HeadIs(s, p, f);
    Ahead(s, p, f);
    MapWrap(f, Exec(args), rs);
    if rest == [] { TokenlessEnd(s, p, f); }
  }

  lemma ArgsOn(s: string, p: nat, args: seq<Word>, rs: seq<Rd<Word>>)
    requires p <= |s| && NUL !in s && Tok(s, p).kind == 'a' && |args| + 1 < MAXARGS
    requires Redirs(s, Tok(s, p).next, rs).Ok?
    ensures var r := Redirs(s, Tok(s, p).next, rs);
            Args(s, p, args, rs) == Args(s, r.next, args + [Tok(s, p).word], r.value)
  {
    HeadIs(s, p, Ident());
    Ahead(s, p, Ident());
    hide Skip, Tok, Peeks, Redirs;
  }

  lemma SimpleComplete<W>(s: string, p: nat, f: Word -> W, items: seq<Item<W>>, rest: seq<Lex<W>>)
    requires p <= |s| && NUL !in s && ExeOk(Simple(items)) && Follows(rest) && Toks(s, p, f) == FlatItems(items) + rest
    ensures PExec(s, p).Ok? && MapCmd(f, PExec(s, p).value) == Meaning(Simple(items))
    ensures Toks(s, PExec(s, p).next, f) == rest
  {
    hide Skip, Tok, Peeks, Redirs, Args, Wrap, Toks, PLine, FlatItems, ArgsOf, RedsOf, MapCmd;
    Ahead(s, p, f);
    var reds, more := Front(items);
    ArgFirstHead(more, rest);
    NotABlock(reds, FlatItems(more) + rest);
    assert FlatItems(items) + rest == FlatItems(reds) + (FlatItems(more) + rest);
    RedirsComplete(s, p, [], f, reds, FlatItems(more) + rest);
    var r := Redirs(s, p, []);
    ArgsComplete(s, r.next, [], r.value, f, more, rest);
    assert [] + ArgsOf(more) == ArgsOf(items);
    assert [] + RedsOf(reds) + RedsOf(more) == RedsOf(items);
  }

  lemma NotABlock<W>(reds: seq<Item<W>>, rest: seq<Lex<W>>)
    requires AllReds(reds) && Head(rest) != '('
    ensures Head(FlatItems(reds) + rest) != '('
  {
    if reds != [] { assert IsRed(reds[0]); } else { assert FlatItems(reds) + rest == rest; }
  }

  lemma {:induction false} ExecComplete<W>(s: string, p: nat, f: Word -> W, x: Exe<W>, rest: seq<Lex<W>>)
    requires p <= |s| && NUL !in s && ExeOk(x) && Follows(rest) && Toks(s, p, f) == Flat(x) + rest
    ensures PExec(s, p).Ok? && MapCmd(f, PExec(s, p).value) == Meaning(x)
    ensures Toks(s, PExec(s, p).next, f) == rest
    decreases x
  {
    hide Skip, Tok, Peeks, Redirs, Args, Wrap, Toks, PLine, FlatItems, MapCmd;
    match x
    case Simple(items) =>
      SimpleComplete(s, p, f, items, rest);
    case Block(line, reds) =>
      Ahead(s, p, f);
      var p1 := Tok(s, p).next;
      var after := FlatItems(reds) + rest;
      assert Flat(x) + rest == [Sym('(')] + (FlatLine(line) + ([Sym(')')] + after));
      Next(s, p, f, Sym('('), FlatLine(line) + ([Sym(')')] + after));
      LineComplete(s, p1, f, line, [Sym(')')] + after);
      var r := PLine(s, p1);
      Ahead(s, r.next, f);
      Next(s, r.next, f, Sym(')'), after);
      var p2 := Tok(s, r.next).next;
      RedirsComplete(s, p2, [], f, reds, rest);
      MapWrap(f, r.value, Redirs(s, p2, []).value);
      assert MapRds(f, []) + RedsOf(reds) == RedsOf(reds);
  }

  lemma {:induction false} PipeComplete<W>(s: string, p: nat, f: Word -> W, x: Pip<W>, rest: seq<Lex<W>>)
    requires p <= |s| && NUL !in s && PipOk(x) && Follows(rest) && Toks(s, p, f) == FlatPip(x) + rest
    requires rest != [] ==> rest[0].kind != '|'
    ensures PPipe(s, p).Ok? && MapCmd(f, PPipe(s, p).value) == PipMeaning(x)
    ensures Toks(s, PPipe(s, p).next, f) == rest
    decreases x
  {
    hide Skip, Tok, Peeks, PExec, Meaning, Flat, ExeOk, Toks;
    var after := if x.Bar? then [Sym('|')] + (FlatPip(x.rest) + rest) else rest;
    assert Toks(s, p, f) == Flat(x.exe) + after;
    ExecComplete(s, p, f, x.exe, after);
    var q := PExec(s, p).next;
    HeadIs(s, q, f);
    Ahead(s, q, f);
    if x.Bar? {
      Next(s, q, f, Sym('|'), FlatPip(x.rest) + rest);
      PipeComplete(s, Tok(s, q).next, f, x.rest, rest);
    }
  }

  lemma {:induction false} BacksComplete<W>(s: string, p: nat, c: Cmd<Word>, f: Word -> W, n: nat, rest: seq<Lex<W>>)
    requires p <= |s| && NUL !in s && Head(rest) != '&' && Toks(s, p, f) == Amps(n) + rest
    ensures MapCmd(f, Backs(s, p, c).0) == Backed(n, MapCmd(f, c))
    ensures Toks(s, Backs(s, p, c).1, f) == rest
    decreases n
  {
    hide Skip, Tok, Peeks;
    HeadIs(s, p, f);
    Ahead(s, p, f);
    if n > 0 {
      assert Amps(n) + rest == [Sym('&')] + (Amps(n - 1) + rest);
      Next(s, p, f, Sym('&'), Amps(n - 1) + rest);
      BacksComplete(s, Tok(s, p).next, Back(c), f, n - 1, rest);
    }
  }

  lemma {:induction false} LineComplete<W>(s: string, p: nat, f: Word -> W, x: Line<W>, rest: seq<Lex<W>>)
    requires p <= |s| && NUL !in s && LineOk(x) && Toks(s, p, f) == FlatLine(x) + rest
    requires rest == [] || rest[0] == Sym(')')
    ensures PLine(s, p).Ok? && MapCmd(f, PLine(s, p).value) == LineMeaning(x)
    ensures Toks(s, PLine(s, p).next, f) == rest
    decreases x
  {
    hide Skip, Tok, Peeks, PPipe, Backs, PipMeaning, FlatPip, PipOk, Toks;
    var after := if x.Semi? then [Sym(';')] + (FlatLine(x.rest) + rest) else rest;
    assert Toks(s, p, f) == FlatPip(x.pip) + (Amps(x.backs) + after);
    PipeComplete(s, p, f, x.pip, Amps(x.backs) + after);
    var r := PPipe(s, p);
    BacksComplete(s, r.next, r.value, f, x.backs, after);
    var q := Backs(s, r.next, r.value).1;
    HeadIs(s, q, f);
    Ahead(s, q, f);
    if x.Semi? {
      Next(s, q, f, Sym(';'), FlatLine(x.rest) + rest);
      LineComplete(s, Tok(s, q).next, f, x.rest, rest);
    }
  }

  // ----- both ways -----

  /** The tree spells the line. */
  ghost predicate Spells(x: Line<Word>, s: string)
    requires NUL !in s
  {
    LineOk(x) && FlatLine(x) == WordToks(s, 0)
  }

  lemma {:induction false} MapIdent(c: Cmd<Word>)
    ensures MapCmd(Ident(), c) == c
  {
    match c
    case Exec(argv) => MapIdentWords(argv);
    case Redir(d, rd) => MapIdent(d);
    case Pipe(l, r) => MapIdent(l); MapIdent(r);
    case List(l, r) => MapIdent(l); MapIdent(r);
    case Back(d) => MapIdent(d);
  }

  lemma {:induction false} MapIdentWords(ws: seq<Word>)
    ensures MapWords(Ident(), ws) == ws
  {
    if ws != [] { MapIdentWords(ws[1..]); }
  }

  lemma AtEnd<W>(s: string, p: nat, f: Word -> W)
    requires p <= |s| && NUL !in s
    ensures Toks(s, p, f) == [] <==> Skip(s, p) == |s|
  {
  }

  /** A line whose tokens a tree spells, read as words of type W, is accepted as what the tree means. */
  lemma ParseReads<W>(s: string, f: Word -> W, x: Line<W>)
    requires NUL !in s && LineOk(x) && Toks(s, 0, f) == FlatLine(x)
    ensures PCmd(s).Some? && MapCmd(f, PCmd(s).value) == LineMeaning(x)
  {
    hide Skip, Toks, PLine, MapCmd, LineOk;
    assert FlatLine(x) + [] == FlatLine(x);
    LineComplete(s, 0, f, x, []);
    AtEnd(s, PLine(s, 0).next, f);
  }

  lemma ParseMeans(s: string, x: Line<Word>)
    requires NUL !in s && Spells(x, s)
    ensures PCmd(s) == Some(LineMeaning(x))
  {
    ParseReads(s, Ident(), x);
    MapIdent(PCmd(s).value);
  }

  lemma ParseDerives(s: string) returns (x: Line<Word>)
    requires NUL !in s && PCmd(s).Some?
    ensures Spells(x, s) && LineMeaning(x) == PCmd(s).value
  {
    hide Skip, Toks, PLine, MapCmd, LineOk, LineMeaning;
    x := LineSound(s, 0);
    AtEnd(s, PLine(s, 0).next, Ident());
    assert FlatLine(x) + [] == FlatLine(x);
  }

  /** The parser accepts exactly the lines of the grammar, each as what its tree means: no line means two things. */
  lemma ParseIff(s: string)
    requires NUL !in s
    ensures PCmd(s).Some? <==> exists x :: Spells(x, s)
    ensures forall x :: Spells(x, s) ==> PCmd(s) == Some(LineMeaning(x))
  {
    hide Spells, PCmd, LineMeaning;
    if PCmd(s).Some? { var x := ParseDerives(s); }
    forall x | Spells(x, s)
      ensures PCmd(s) == Some(LineMeaning(x))
    {
      ParseMeans(s, x);
    }
  }
}
