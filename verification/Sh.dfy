/**
 * The shell's command parser (src/usr/sh.c): tokens, the recursive descent with its cursor, and the
 * in-place termination of the words it found.  ShGrammar says which lines it accepts, and as what.
 */
module Sh {
  import opened Wrappers

  const MAXARGS := 10
  const NUL := '\0'
  const O_RDONLY := 0
  const O_WRONLY_CREATE := 0x201

  predicate IsSpace(c: char) { c in " \t\r\n\U{000B}" }
  predicate IsSymbol(c: char) { c in "<|>&;()" }
  predicate IsWordChar(c: char) { !IsSpace(c) && !IsSymbol(c) }

  /** A token's place in the line, and the commands over words of type W. */
  datatype Word = Word(q: nat, eq: nat)
  datatype Rd<W> = Rd(file: W, mode: nat, fd: nat)
  datatype Cmd<W> =
    | Exec(argv: seq<W>)
    | Redir(cmd: Cmd<W>, rd: Rd<W>)
    | Pipe(left: Cmd<W>, right: Cmd<W>)
    | List(left: Cmd<W>, right: Cmd<W>)
    | Back(cmd: Cmd<W>)

  datatype Token = Token(kind: char, word: Word, next: nat)
  datatype Parse<T> = Ok(value: T, next: nat) | Fail

  // ----- tokens -----

  function Skip(s: string, p: nat): (r: nat)
    requires p <= |s|
    ensures p <= r <= |s| && (r < |s| ==> !IsSpace(s[r]))
    decreases |s| - p
  {
    if p < |s| && IsSpace(s[p]) then Skip(s, p + 1) else p
  }

  function WordEnd(s: string, p: nat): (r: nat)
    requires p <= |s|
    ensures p <= r <= |s| && (r < |s| ==> !IsWordChar(s[r]))
    ensures forall k :: p <= k < r ==> IsWordChar(s[k])
    decreases |s| - p
  {
    if p < |s| && IsWordChar(s[p]) then WordEnd(s, p + 1) else p
  }

  /** The character at p, or the NUL after the line. */
  function CharAt(s: string, p: nat): char { if p < |s| then s[p] else NUL }

  /** A word's characters are word characters, and the one after it is not: no word can run on past it. */
  predicate WordOk(s: string, w: Word) {
    && w.q < w.eq <= |s| && (w.eq < |s| ==> !IsWordChar(s[w.eq]))
    && forall k :: w.q <= k < w.eq ==> IsWordChar(s[k])
  }

  /** gettoken's result at p. */
  function Tok(s: string, p: nat): (t: Token)
    requires p <= |s| && NUL !in s
    ensures p <= t.word.q <= t.word.eq <= t.next <= |s|
    ensures t.kind == NUL <==> t.word.q == |s|
    ensures t.kind != NUL ==> t.word.q < t.word.eq
    ensures t.kind == 'a' ==> WordOk(s, t.word)
  {
    var q := Skip(s, p);
    var c := CharAt(s, q);
    if c == NUL then Token(NUL, Word(q, q), q)
    else if c == '>' then
      var two := CharAt(s, q + 1) == '>';
      var eq := if two then q + 2 else q + 1;
      Token(if two then '+' else c, Word(q, eq), Skip(s, eq))
    else if IsSymbol(c) then Token(c, Word(q, q + 1), Skip(s, q + 1))
    else
      var eq := WordEnd(s, q);
      Token('a', Word(q, eq), Skip(s, eq))
  }

  function Peeks(s: string, p: nat, toks: string): bool
    requires p <= |s|
  {
    var q := Skip(s, p);
    q < |s| && s[q] in toks
  }

  /** Looking ahead past blanks changes no token. */
  lemma SkipFirst(s: string, p: nat)
    requires p <= |s| && NUL !in s
    ensures Skip(s, Skip(s, p)) == Skip(s, p) && Tok(s, Skip(s, p)) == Tok(s, p) && Tok(s, p).word.q == Skip(s, p)
  {
  }

  // ----- the grammar, as a function of the line and a position in it -----

  function Wrap<W>(c: Cmd<W>, rs: seq<Rd<W>>): Cmd<W>
    decreases |rs|
  {
    if rs == [] then c else Wrap(Redir(c, rs[0]), rs[1..])
  }

  function Redirs(s: string, p: nat, rs: seq<Rd<Word>>): (r: Parse<seq<Rd<Word>>>)
    requires p <= |s| && NUL !in s
    ensures r.Ok? ==> p <= r.next <= |s|
    decreases |s| - p
  {
    if !Peeks(s, p, "<>") then Ok(rs, Skip(s, p))
    else
      var t := Tok(s, p);
      var f := Tok(s, t.next);
      if f.kind != 'a' then Fail
      else Redirs(s, f.next, rs + [if t.kind == '<' then Rd(f.word, O_RDONLY, 0) else Rd(f.word, O_WRONLY_CREATE, 1)])
  }

  lemma RedirsSkip(s: string, p: nat, rs: seq<Rd<Word>>)
    requires p <= |s| && NUL !in s
    ensures Redirs(s, Skip(s, p), rs) == Redirs(s, p, rs)
  {
    SkipFirst(s, p);
  }

  function Args(s: string, p: nat, args: seq<Word>, rs: seq<Rd<Word>>): (r: Parse<Cmd<Word>>)
    requires p <= |s| && NUL !in s
    ensures r.Ok? ==> p <= r.next <= |s|
    decreases |s| - p
  {
    if Peeks(s, p, "|)&;") then Ok(Wrap(Exec(args), rs), Skip(s, p))
    else
      var t := Tok(s, p);
      if t.kind == NUL then Ok(Wrap(Exec(args), rs), t.next)
      else if t.kind != 'a' || |args| + 1 >= MAXARGS then Fail
      else
        match Redirs(s, t.next, rs)
        case Fail => Fail
        case Ok(rs', next) => Args(s, next, args + [t.word], rs')
  }

  function PExec(s: string, p: nat): (r: Parse<Cmd<Word>>)
    requires p <= |s| && NUL !in s
    ensures r.Ok? ==> p <= r.next <= |s|
    decreases |s| - p, 0
  {
    if Peeks(s, p, "(") then
      var t := Tok(s, p);
      match PLine(s, t.next)
      case Fail => Fail
      case Ok(c, next) =>
        if !Peeks(s, next, ")") then Fail
        else
          match Redirs(s, Tok(s, next).next, [])
          case Fail => Fail
          case Ok(rs, next') => Ok(Wrap(c, rs), next')
    else
      match Redirs(s, p, [])
      case Fail => Fail
      case Ok(rs, next) => Args(s, next, [], rs)
  }

  function PPipe(s: string, p: nat): (r: Parse<Cmd<Word>>)
    requires p <= |s| && NUL !in s
    ensures r.Ok? ==> p <= r.next <= |s|
    decreases |s| - p, 1
  {
    match PExec(s, p)
    case Fail => Fail
    case Ok(c, next) =>
      if !Peeks(s, next, "|") then Ok(c, Skip(s, next))
      else
        match PPipe(s, Tok(s, next).next)
        case Fail => Fail
        case Ok(d, next') => Ok(Pipe(c, d), next')
  }

  function Backs(s: string, p: nat, c: Cmd<Word>): (r: (Cmd<Word>, nat))
    requires p <= |s| && NUL !in s
    ensures p <= r.1 <= |s|
    decreases |s| - p
  {
    if !Peeks(s, p, "&") then (c, Skip(s, p)) else Backs(s, Tok(s, p).next, Back(c))
  }

  function PLine(s: string, p: nat): (r: Parse<Cmd<Word>>)
    requires p <= |s| && NUL !in s
    ensures r.Ok? ==> p <= r.next <= |s|
    decreases |s| - p, 2
  {
    match PPipe(s, p)
    case Fail => Fail
    case Ok(c, next) =>
      var (c', next') := Backs(s, next, c);
      if !Peeks(s, next', ";") then Ok(c', Skip(s, next'))
      else
        match PLine(s, Tok(s, next').next)
        case Fail => Fail
        case Ok(d, next'') => Ok(List(c', d), next'')
  }

  /** parsecmd, up to nulterminate: the whole line must be a command. */
  function PCmd(s: string): Option<Cmd<Word>>
    requires NUL !in s
  {
    match PLine(s, 0)
    case Fail => None
    case Ok(c, next) => if Skip(s, next) == |s| then Some(c) else None
  }

  // ----- the parser as it runs, with its cursor -----

  class Parser {
    const s: string
    var ps: nat

    ghost predicate Valid()
      reads this
    {
      ps <= |s| && NUL !in s
    }

    constructor (s: string)
      requires NUL !in s
      ensures Valid() && this.s == s && ps == 0
    {
      this.s, ps := s, 0;
    }

    method SkipSpaces(p: nat) returns (r: nat)
      requires p <= |s|
      ensures r == Skip(s, p)
    {
      r := p;
      while r < |s| && IsSpace(s[r])
        invariant p <= r <= |s| && Skip(s, p) == Skip(s, r)
      {
        r := r + 1;
      }
    }

    method GetToken() returns (ret: char, word: Word)
      requires Valid()
      modifies this
      ensures Valid() && Tok(s, old(ps)) == Token(ret, word, ps)
    {
      var q := SkipSpaces(ps);
      var p := q;
      ret := CharAt(s, p);
      if ret == NUL {
      } else if ret in "|();&<" {
        p := p + 1;
      } else if ret == '>' {
        p := p + 1;
        if CharAt(s, p) == '>' {
          ret := '+';
          p := p + 1;
        }
      } else {
        ret := 'a';
        while p < |s| && IsWordChar(s[p])
          invariant q <= p <= |s| && WordEnd(s, q) == WordEnd(s, p)
        {
          p := p + 1;
        }
      }
      word := Word(q, p);
      ps := SkipSpaces(p);
    }

    method Peek(toks: string) returns (r: bool)
      requires Valid()
      modifies this
      ensures Valid() && ps == Skip(s, old(ps)) && r == Peeks(s, old(ps), toks)
      ensures Skip(s, ps) == ps && (r ==> ps < |s|)
    {
      ps := SkipSpaces(ps);
      r := ps < |s| && s[ps] in toks;
    }

    /** parseredirs, as the redirections to wrap: an exec node is wrapped before its argv is complete. */
    method ParseRedirs(rs: seq<Rd<Word>>) returns (r: Option<seq<Rd<Word>>>)
      requires Valid()
      modifies this
      ensures Valid() && Redirs(s, old(ps), rs) == (if r.Some? then Ok(r.value, ps) else Fail)
    {
      hide Skip, Tok, Peeks;
      var out := rs;
      ghost var p0 := ps;
      var more := Peek("<>");
      while more
        invariant Valid() && p0 <= |s| && ps == Skip(s, p0) && more == Peeks(s, p0, "<>")
        invariant Redirs(s, old(ps), rs) == Redirs(s, p0, out)
        decreases |s| - p0
      {
        SkipFirst(s, p0);
        var tok, _ := GetToken();
        var kind, word := GetToken();
        if kind != 'a' {
          return None;
        }
        out := out + [if tok == '<' then Rd(word, O_RDONLY, 0) else Rd(word, O_WRONLY_CREATE, 1)];
        p0 := ps;
        more := Peek("<>");
      }
      return Some(out);
    }

    method ParseExec() returns (r: Option<Cmd<Word>>)
      requires Valid()
      modifies this
      ensures Valid() && PExec(s, old(ps)) == (if r.Some? then Ok(r.value, ps) else Fail)
      decreases |s| - ps, 1
    {
      hide Skip, Tok, Peeks, Args, Redirs;
      SkipFirst(s, ps);
      var block := Peek("(");
      if block {
        r := ParseBlock(old(ps));
        return;
      }
      RedirsSkip(s, old(ps), []);
      var rr := ParseRedirs([]);
      if rr.None? {
        return None;
      }
      r := ParseArgs(rr.value);
    }

    method ParseArgs(rs: seq<Rd<Word>>) returns (r: Option<Cmd<Word>>)
      requires Valid()
      modifies this
      ensures Valid() && Args(s, old(ps), [], rs) == (if r.Some? then Ok(r.value, ps) else Fail)
    {
      hide Skip, Tok, Peeks, Redirs;
      var argv, rds := [], rs;
      ghost var p0 := ps;
      var stop := Peek("|)&;");
      while !stop
        invariant Valid() && p0 <= |s| && ps == Skip(s, p0) && stop == Peeks(s, p0, "|)&;")
        invariant Args(s, old(ps), [], rs) == Args(s, p0, argv, rds)
        decreases |s| - p0
      {
        SkipFirst(s, p0);
        var tok, word := GetToken();
        if tok == NUL {
          break;
        }
        if tok != 'a' {
          return None;
        }
        argv := argv + [word];
        if |argv| >= MAXARGS {
          return None;
        }
        var rr := ParseRedirs(rds);
        if rr.None? {
          return None;
        }
        rds := rr.value;
        p0 := ps;
        stop := Peek("|)&;");
      }
      return Some(Wrap(Exec(argv), rds));
    }

    method ParseBlock(ghost p0: nat) returns (r: Option<Cmd<Word>>)
      requires Valid() && p0 <= |s| && ps == Skip(s, p0) && ps < |s| && Peeks(s, p0, "(")
      modifies this
      ensures Valid() && PExec(s, p0) == (if r.Some? then Ok(r.value, ps) else Fail)
      decreases |s| - ps, 0
    {
      hide Skip, Tok, Peeks, Args, Redirs;
      SkipFirst(s, p0);
      var tok, _ := GetToken();
      ghost var p1 := ps;
      var c := ParseLine();
      if c.None? {
        return None;
      }
      ghost var p2 := ps;
      var close := Peek(")");
      if !close {
        return None;
      }
      SkipFirst(s, p2);
      var tok2, _ := GetToken();
      var rr := ParseRedirs([]);
      return if rr.None? then None else Some(Wrap(c.value, rr.value));
    }

    method ParsePipe() returns (r: Option<Cmd<Word>>)
      requires Valid()
      modifies this
      ensures Valid() && PPipe(s, old(ps)) == (if r.Some? then Ok(r.value, ps) else Fail)
      decreases |s| - ps, 2
    {
      hide Skip, Tok, Peeks, PExec;
      r := ParseExec();
      if r.None? {
        return;
      }
      SkipFirst(s, ps);
      var bar := Peek("|");
      if bar {
        var tok, _ := GetToken();
        var d := ParsePipe();
        r := if d.None? then None else Some(Pipe(r.value, d.value));
      }
    }

    method ParseLine() returns (r: Option<Cmd<Word>>)
      requires Valid()
      modifies this
      ensures Valid() && PLine(s, old(ps)) == (if r.Some? then Ok(r.value, ps) else Fail)
      decreases |s| - ps, 3
    {
      hide Skip, Tok, Peeks, PPipe;
      r := ParsePipe();
      if r.None? {
        return;
      }
      ghost var p0, p1, c0 := ps, ps, r.value;
      var c := r.value;
      var amp := Peek("&");
      while amp
        invariant Valid() && p1 <= |s| && ps == Skip(s, p1) && amp == Peeks(s, p1, "&")
        invariant Backs(s, p0, c0) == Backs(s, p1, c) && p0 <= p1
        decreases |s| - p1
      {
        SkipFirst(s, p1);
        var tok, _ := GetToken();
        c := Back(c);
        p1 := ps;
        amp := Peek("&");
      }
      SkipFirst(s, p1);
      var semi := Peek(";");
      if semi {
        var tok, _ := GetToken();
        var d := ParseLine();
        return if d.None? then None else Some(List(c, d.value));
      }
      return Some(c);
    }
  }

  // ----- every word of a parsed command is a whole word of the line, and the line's order is kept -----

  function Words<W>(c: Cmd<W>): seq<W> {
    match c
    case Exec(argv) => argv
    case Redir(d, rd) => Words(d) + [rd.file]
    case Pipe(l, r) => Words(l) + Words(r)
    case List(l, r) => Words(l) + Words(r)
    case Back(d) => Words(d)
  }

  function Rds<W>(c: Cmd<W>): seq<Rd<W>> {
    match c
    case Exec(argv) => []
    case Redir(d, rd) => Rds(d) + [rd]
    case Pipe(l, r) => Rds(l) + Rds(r)
    case List(l, r) => Rds(l) + Rds(r)
    case Back(d) => Rds(d)
  }

  ghost predicate WordsOk(s: string, c: Cmd<Word>) {
    forall w :: w in Words(c) ==> WordOk(s, w)
  }

  /** A whole word of the line, from lo on and up to hi. */
  predicate Placed(s: string, w: Word, lo: nat, hi: nat) { WordOk(s, w) && lo <= w.q && w.eq <= hi }

  ghost predicate WordsIn(s: string, c: Cmd<Word>, lo: nat, hi: nat) {
    forall w :: w in Words(c) ==> Placed(s, w, lo, hi)
  }

  ghost predicate RdsIn(s: string, rs: seq<Rd<Word>>, lo: nat, hi: nat) {
    && (forall i :: 0 <= i < |rs| ==> Placed(s, rs[i].file, lo, hi))
    && forall i, j :: 0 <= i < j < |rs| ==> rs[i].file.eq <= rs[j].file.q
  }

  ghost predicate RdsBefore(c: Cmd<Word>, p: nat) {
    forall rd :: rd in Rds(c) ==> rd.file.eq <= p
  }

  ghost predicate Ascending(ws: seq<Word>) {
    forall i, j :: 0 <= i < j < |ws| ==> ws[i].eq <= ws[j].q
  }

  /** Arguments are in line order, left sides stand before right sides, and a later redirection is further out. */
  ghost predicate InOrder(c: Cmd<Word>) {
    match c
    case Exec(argv) => Ascending(argv)
    case Redir(d, rd) => InOrder(d) && RdsBefore(d, rd.file.q)
    case Pipe(l, r) => InOrder(l) && InOrder(r) && Before(l, r)
    case List(l, r) => InOrder(l) && InOrder(r) && Before(l, r)
    case Back(d) => InOrder(d)
  }

  ghost predicate Before(l: Cmd<Word>, r: Cmd<Word>) {
    forall v, w :: v in Words(l) && w in Words(r) ==> v.eq <= w.q
  }

  /** Both, of a command found between lo and hi. */
  ghost predicate Found(s: string, c: Cmd<Word>, lo: nat, hi: nat) { WordsIn(s, c, lo, hi) && InOrder(c) }

  lemma {:induction false} RdsAreWords(c: Cmd<Word>)
    ensures forall rd :: rd in Rds(c) ==> rd.file in Words(c)
  {
    match c
    case Exec(argv) =>
    case Redir(d, rd) => RdsAreWords(d);
    case Pipe(l, r) => RdsAreWords(l); RdsAreWords(r);
    case List(l, r) => RdsAreWords(l); RdsAreWords(r);
    case Back(d) => RdsAreWords(d);
  }

  lemma {:induction false} WrapWords(s: string, c: Cmd<Word>, rs: seq<Rd<Word>>, lo: nat, mid: nat, hi: nat)
    requires lo <= mid && Found(s, c, lo, hi) && RdsIn(s, rs, mid, hi) && RdsBefore(c, mid)
    ensures Found(s, Wrap(c, rs), lo, hi)
    decreases |rs|
  {
    if rs != [] {
      var f := rs[0].file;
      assert Placed(s, f, mid, hi);
      WrapWords(s, Redir(c, rs[0]), rs[1..], lo, f.eq, hi);
    }
  }

  lemma RdsAppend(s: string, rs: seq<Rd<Word>>, rd: Rd<Word>, lo: nat, p: nat, hi: nat)
    requires RdsIn(s, rs, lo, p) && lo <= p <= hi && Placed(s, rd.file, p, hi)
    ensures RdsIn(s, rs + [rd], lo, hi)
  {
  }

  lemma {:induction false} RedirsWords(s: string, p: nat, rs: seq<Rd<Word>>, lo: nat)
    requires lo <= p <= |s| && NUL !in s && RdsIn(s, rs, lo, p)
    ensures var r := Redirs(s, p, rs); r.Ok? ==> RdsIn(s, r.value, lo, r.next)
    decreases |s| - p
  {
    hide Skip, Tok, Peeks, WordOk;
    if Peeks(s, p, "<>") {
      var t := Tok(s, p);
      var f := Tok(s, t.next);
      if f.kind == 'a' {
        PeekMoves(s, p, "<>");
        var r := if t.kind == '<' then Rd(f.word, O_RDONLY, 0) else Rd(f.word, O_WRONLY_CREATE, 1);
        RdsAppend(s, rs, r, lo, p, f.next);
        RedirsWords(s, f.next, rs + [r], lo);
      }
    }
  }

  lemma PeekMoves(s: string, p: nat, toks: string)
    requires p <= |s| && NUL !in s && Peeks(s, p, toks)
    ensures Tok(s, p).next > p
  {
  }

  lemma ArgAppend(s: string, args: seq<Word>, w: Word, lo: nat, p: nat, hi: nat)
    requires Found(s, Exec(args), lo, p) && lo <= p <= hi && Placed(s, w, p, hi)
    ensures Found(s, Exec(args + [w]), lo, hi)
  {
    var ws := args + [w];
    assert Words(Exec(args)) == args && Words(Exec(ws)) == ws;
    forall i | 0 <= i < |args|
      ensures args[i].eq <= w.q
    {
      assert args[i] in Words(Exec(args));
    }
  }

  lemma {:induction false} ArgsWords(s: string, p: nat, args: seq<Word>, rs: seq<Rd<Word>>, lo: nat)
    requires lo <= p <= |s| && NUL !in s && RdsIn(s, rs, lo, p) && Found(s, Exec(args), lo, p)
    ensures var r := Args(s, p, args, rs); r.Ok? ==> Found(s, r.value, lo, r.next)
    decreases |s| - p
  {
    hide Skip, Tok, Peeks, Redirs, Found, RdsIn, Wrap;
    var t := Tok(s, p);
    if Peeks(s, p, "|)&;") || t.kind == NUL {
      ArgsWrapped(s, args, rs, lo, p);
      var next := Args(s, p, args, rs).next;
      FoundWider(s, Wrap(Exec(args), rs), lo, p, lo, next);
    } else if t.kind == 'a' {
      RdsWider(s, rs, lo, p, t.next);
      RedirsWords(s, t.next, rs, lo);
      var r := Redirs(s, t.next, rs);
      if r.Ok? {
        ArgAppend(s, args, t.word, lo, p, r.next);
        ArgsWords(s, r.next, args + [t.word], r.value, lo);
      }
    }
  }

  lemma ArgsWrapped(s: string, args: seq<Word>, rs: seq<Rd<Word>>, lo: nat, p: nat)
    requires RdsIn(s, rs, lo, p) && Found(s, Exec(args), lo, p)
    ensures Found(s, Wrap(Exec(args), rs), lo, p)
  {
    WrapWords(s, Exec(args), rs, lo, lo, p);
  }

  lemma RdsWider(s: string, rs: seq<Rd<Word>>, lo: nat, hi: nat, hi': nat)
    requires RdsIn(s, rs, lo, hi) && hi <= hi'
    ensures RdsIn(s, rs, lo, hi')
  {
  }

  lemma FoundWider(s: string, c: Cmd<Word>, lo: nat, hi: nat, lo': nat, hi': nat)
    requires Found(s, c, lo, hi) && lo' <= lo && hi <= hi'
    ensures Found(s, c, lo', hi')
  {
  }

  lemma {:induction false} ExecWords(s: string, p: nat)
    requires p <= |s| && NUL !in s
    ensures var r := PExec(s, p); r.Ok? ==> Found(s, r.value, p, r.next)
    decreases |s| - p, 0
  {
    hide Skip, Tok, Peeks, Redirs, Args, Found, Wrap;
    if Peeks(s, p, "(") {
      PeekMoves(s, p, "(");
      var p1 := Tok(s, p).next;
      LineWords(s, p1);
      var r := PLine(s, p1);
      if r.Ok? && Peeks(s, r.next, ")") {
        var p2 := Tok(s, r.next).next;
        var rr := Redirs(s, p2, []);
        RedirsWords(s, p2, [], p2);
        if rr.Ok? { BlockWrapped(s, r.value, rr.value, p1, r.next, p2, rr.next, p); }
      }
    } else {
      RedirsWords(s, p, [], p);
      var rr := Redirs(s, p, []);
      if rr.Ok? {
        NoArgs(s, p, rr.next);
        ArgsWords(s, rr.next, [], rr.value, p);
      }
    }
  }

  lemma NoArgs(s: string, lo: nat, hi: nat)
    ensures Found(s, Exec([]), lo, hi)
  {
  }

  lemma BlockWrapped(s: string, c: Cmd<Word>, rs: seq<Rd<Word>>, lo: nat, hi: nat, p: nat, end: nat, lo': nat)
    requires Found(s, c, lo, hi) && hi <= p <= end && RdsIn(s, rs, p, end) && lo' <= lo <= hi
    ensures Found(s, Wrap(c, rs), lo', end)
  {
    RdsAreWords(c);
    FoundWider(s, c, lo, hi, lo', end);
    WrapWords(s, c, rs, lo', p, end);
  }

  lemma TwoFound(s: string, l: Cmd<Word>, r: Cmd<Word>, lo: nat, mid: nat, mid': nat, hi: nat)
    requires Found(s, l, lo, mid) && lo <= mid <= mid' <= hi && Found(s, r, mid', hi)
    ensures Found(s, Pipe(l, r), lo, hi) && Found(s, List(l, r), lo, hi)
  {
  }

  lemma {:induction false} PipeWords(s: string, p: nat)
    requires p <= |s| && NUL !in s
    ensures var r := PPipe(s, p); r.Ok? ==> Found(s, r.value, p, r.next)
    decreases |s| - p, 1
  {
    hide Skip, Tok, Peeks, PExec, Found;
    ExecWords(s, p);
    var r := PExec(s, p);
    if r.Ok? && Peeks(s, r.next, "|") {
      PeekMoves(s, r.next, "|");
      var q := Tok(s, r.next).next;
      PipeWords(s, q);
      if PPipe(s, q).Ok? { TwoFound(s, r.value, PPipe(s, q).value, p, r.next, q, PPipe(s, q).next); }
    } else if r.Ok? {
      FoundWider(s, r.value, p, r.next, p, Skip(s, r.next));
    }
  }

  lemma {:induction false} BacksWords(s: string, p: nat, c: Cmd<Word>, lo: nat)
    requires p <= |s| && NUL !in s && Found(s, c, lo, p)
    ensures var r := Backs(s, p, c); Found(s, r.0, lo, r.1)
    decreases |s| - p
  {
    hide Skip, Tok, Peeks;
    FoundWider(s, c, lo, p, lo, Skip(s, p));
    FoundWider(s, c, lo, p, lo, Tok(s, p).next);
    if Peeks(s, p, "&") {
      PeekMoves(s, p, "&");
      assert Words(Back(c)) == Words(c);
      BacksWords(s, Tok(s, p).next, Back(c), lo);
    }
  }

  /** Every word of a parsed line is a whole word of it, and the line's order is kept. */
  lemma {:induction false} LineWords(s: string, p: nat)
    requires p <= |s| && NUL !in s
    ensures var r := PLine(s, p); r.Ok? ==> Found(s, r.value, p, r.next)
    decreases |s| - p, 2
  {
    hide Skip, Tok, Peeks, PPipe, Backs, Found;
    PipeWords(s, p);
    var r := PPipe(s, p);
    if r.Ok? {
      BacksWords(s, r.next, r.value, p);
      var b := Backs(s, r.next, r.value);
      if Peeks(s, b.1, ";") {
        PeekMoves(s, b.1, ";");
        var q := Tok(s, b.1).next;
        LineWords(s, q);
        if PLine(s, q).Ok? { TwoFound(s, b.0, PLine(s, q).value, p, b.1, q, PLine(s, q).next); }
      } else {
        FoundWider(s, b.0, p, b.1, p, Skip(s, b.1));
      }
    }
  }

  // ----- nulterminate -----

  ghost predicate EndsAt(c: Cmd<Word>, k: int) {
    exists w :: w in Words(c) && w.eq == k
  }

  /** nulterminate writes a NUL after every word of the command, and nothing else. */
  method NulTerminate(b: array<char>, c: Cmd<Word>)
    requires forall w :: w in Words(c) ==> w.eq < b.Length
    modifies b
    ensures forall k :: 0 <= k < b.Length ==> b[k] == if EndsAt(c, k) then NUL else old(b[k])
    decreases c
  {
    match c
    case Exec(argv) =>
      var i := 0;
      while i < |argv|
        invariant 0 <= i <= |argv|
        invariant forall k :: 0 <= k < b.Length ==>
                    b[k] == if exists w :: w in argv[..i] && w.eq == k then NUL else old(b[k])
      {
        assert argv[..i + 1] == argv[..i] + [argv[i]];
        b[argv[i].eq] := NUL;
        i := i + 1;
      }
      assert argv[..i] == argv;
    case Redir(d, rd) =>
      NulTerminate(b, d);
      b[rd.file.eq] := NUL;
    case Pipe(l, r) =>
      NulTerminate(b, l);
      NulTerminate(b, r);
    case List(l, r) =>
      NulTerminate(b, l);
      NulTerminate(b, r);
    case Back(d) =>
      NulTerminate(b, d);
  }

  /** The C string at q. */
  function CString(b: seq<char>, q: nat): string
    decreases |b| - q
  {
    if q < |b| && b[q] != NUL then [b[q]] + CString(b, q + 1) else []
  }

  lemma {:induction false} CStringAt(b: seq<char>, q: nat, e: nat)
    requires q <= e < |b| && b[e] == NUL && forall k :: q <= k < e ==> b[k] != NUL
    ensures CString(b, q) == b[q..e]
    decreases e - q
  {
    if q < e {
      CStringAt(b, q + 1, e);
      assert b[q..e] == [b[q]] + b[q + 1..e];
    }
  }

  /**
   * Termination in place is safe.  The NULs go only where words end, and a word ends at a character that
   * is in no word, so each word still reads as the slice of the line it was parsed from.
   */
  lemma WordReads(s: string, b: seq<char>, c: Cmd<Word>, w: Word)
    requires NUL !in s && |b| == |s| + 1 && WordsOk(s, c) && w in Words(c)
    requires forall k :: 0 <= k < |b| ==> b[k] == if EndsAt(c, k) then NUL else (s + [NUL])[k]
    ensures CString(b, w.q) == s[w.q..w.eq]
  {
    forall k | w.q <= k < w.eq
      ensures b[k] == s[k] && b[k] != NUL
    {
      assert WordOk(s, w) && !EndsAt(c, k);
    }
    CStringAt(b, w.q, w.eq);
  }

  /** parsecmd on the line in b: the command, its words now C strings in b; None is a syntax error. */
  method ParseCmd(b: array<char>) returns (r: Option<Cmd<Word>>)
    requires b.Length > 0 && b[b.Length - 1] == NUL && NUL !in b[..b.Length - 1]
    modifies b
    ensures r == PCmd(old(b[..b.Length - 1]))
    ensures r.None? ==> b[..] == old(b[..])
    ensures r.Some? ==> forall w :: w in Words(r.value) ==>
                          && w.q < w.eq < b.Length
                          && CString(b[..], w.q) == old(b[w.q..w.eq])
  {
    hide Skip, Peeks, PLine, Words;
    var s := b[..b.Length - 1];
    var p := new Parser(s);
    r := p.ParseLine();
    if r.None? {
      return;
    }
    var _ := p.Peek("");
    if p.ps != |s| {
      return None;
    }
    LineWords(s, 0);
    forall w | w in Words(r.value)
      ensures w.q < w.eq < b.Length
    {
      assert WordOk(s, w);
    }
    NulTerminate(b, r.value);
    forall w | w in Words(r.value)
      ensures w.q < w.eq < b.Length && CString(b[..], w.q) == old(b[w.q..w.eq])
    {
      WordReads(s, b[..], r.value, w);
      assert s[w.q..w.eq] == old(b[w.q..w.eq]);
    }
  }
}
