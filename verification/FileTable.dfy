/**
 * Open files (src/file.c, src/sysfile.c, src/pipe.c): the table of file structures, every process's
 * descriptors, and the pipes.  Reference counts are exact and a pipe lives while an end of it is open.
 */
module FileTable {
  import opened Params
  import opened Wrappers

  const NFILE := 100
  const NOFILE := 16

  function Slot(proc: nat, fd: nat): (k: nat)
    requires proc < NPROC && fd < NOFILE
    ensures k < NPROC * NOFILE
  {
    proc * NOFILE + fd
  }

  datatype Kind = Nothing | PipeEnd(pipe: nat, writable: bool) | Inode(inum: nat)
  datatype File = File(ref: nat, kind: Kind)
  datatype Pipe = Pipe(readopen: bool, writeopen: bool)

  ghost function FreeFiles(ftable: seq<File>): set<nat> {
    set f: nat | f < |ftable| && ftable[f].ref == 0
  }

  ghost function FreeFds(ofile: seq<Option<nat>>, proc: nat): set<nat>
    requires |ofile| == NPROC * NOFILE && proc < NPROC
  {
    set k: nat | k < NOFILE && ofile[Slot(proc, k)].None?
  }

  lemma AtLeastTwo(s: set<nat>, a: nat, b: nat)
    requires a in s && b in s && a != b
    ensures |s| >= 2
  {
    assert |s - {a} - {b}| == |s| - 2;
  }

  lemma OnlyOne(s: set<nat>, a: nat)
    requires forall x :: x in s ==> x == a
    ensures |s| <= 1
  {
    if a in s { assert s == {a}; } else { assert s == {}; }
  }

  /** Every reference to a file is a descriptor, or one of the references in flight inside a system call. */
  ghost predicate Counted(ftable: seq<File>, ofile: seq<Option<nat>>, fly: multiset<nat>) {
    && |ftable| == NFILE && |ofile| == NPROC * NOFILE
    && (forall f: nat :: Some(f) in multiset(ofile) || f in fly ==> f < NFILE)
    && (forall f :: 0 <= f < NFILE ==> ftable[f].ref == multiset(ofile)[Some(f)] + fly[f])
  }

  ghost function WithRef(ftable: seq<File>, f: nat, d: int): seq<File>
    requires f < |ftable| && ftable[f].ref + d >= 0
  {
    ftable[f := ftable[f].(ref := ftable[f].ref + d)]
  }

  /** Descriptor k takes over a reference in flight. */
  lemma SlotTakes(ftable: seq<File>, ofile: seq<Option<nat>>, fly: multiset<nat>, k: nat, f: nat)
    requires Counted(ftable, ofile, fly) && k < |ofile| && ofile[k].None? && f in fly
    ensures Counted(ftable, ofile[k := Some(f)], fly - multiset{f})
  {
    forall g: nat
      ensures multiset(ofile[k := Some(f)])[Some(g)] == multiset(ofile)[Some(g)] + (if g == f then 1 else 0)
    {
    }
  }

  lemma TwoSlotsTake(ftable: seq<File>, ofile: seq<Option<nat>>, k: nat, f: nat, l: nat, g: nat)
    requires Counted(ftable, ofile, multiset{f, g}) && k < |ofile| && l < |ofile|
    requires ofile[k].None? && ofile[k := Some(f)][l].None?
    ensures Counted(ftable, ofile[k := Some(f)][l := Some(g)], multiset{})
  {
    hide Counted;
    SlotTakes(ftable, ofile, multiset{f, g}, k, f);
    assert multiset{f, g} - multiset{f} == multiset{g};
    SlotTakes(ftable, ofile[k := Some(f)], multiset{g}, l, g);
    assert multiset{g} - multiset{g} == multiset{};
  }

  /** Descriptor k gives up its reference. */
  lemma SlotDrops(ftable: seq<File>, ofile: seq<Option<nat>>, fly: multiset<nat>, k: nat, f: nat)
    requires Counted(ftable, ofile, fly) && k < |ofile| && ofile[k] == Some(f)
    ensures f < NFILE && ftable[f].ref > 0 && Counted(ftable, ofile[k := None], fly + multiset{f})
  {
    assert ofile[k] in multiset(ofile);
    forall g: nat
      ensures multiset(ofile[k := None])[Some(g)] == multiset(ofile)[Some(g)] - (if g == f then 1 else 0)
    {
    }
  }

  lemma RefUp(ftable: seq<File>, ofile: seq<Option<nat>>, fly: multiset<nat>, f: nat)
    requires Counted(ftable, ofile, fly) && f < NFILE
    ensures Counted(WithRef(ftable, f, 1), ofile, fly + multiset{f})
  {
  }

  lemma RefDown(ftable: seq<File>, ofile: seq<Option<nat>>, fly: multiset<nat>, f: nat, ftable': seq<File>)
    requires Counted(ftable, ofile, fly) && f in fly && f < |ftable| == |ftable'|
    requires ftable' == ftable[f := ftable'[f]] && ftable'[f].ref == ftable[f].ref - 1
    ensures Counted(ftable', ofile, fly - multiset{f})
  {
  }

  lemma InFlight(ftable: seq<File>, ofile: seq<Option<nat>>, fly: multiset<nat>, f: nat)
    requires Counted(ftable, ofile, fly) && f in fly
    ensures f < NFILE == |ftable| && ftable[f].ref >= 1
  {
  }

  /** The file whose last close will close this end of the pipe. */
  /** A file still open is what it was. */
  ghost predicate KindsKept(ftable: seq<File>, ftable': seq<File>) {
    && |ftable'| == |ftable|
    && forall f :: 0 <= f < |ftable| && ftable'[f].ref > 0 ==> ftable[f].ref > 0 && ftable'[f].kind == ftable[f].kind
  }

  ghost predicate EndOk(ftable: seq<File>, ends: map<nat, nat>, writable: bool, p: nat)
    requires p in ends
  {
    ends[p] < |ftable| && ftable[ends[p]].ref > 0 && ftable[ends[p]].kind == PipeEnd(p, writable)
  }

  ghost predicate FileOk(f: File, k: nat, rd: map<nat, nat>, wr: map<nat, nat>) {
    && (f.ref == 0 ==> f.kind == Nothing)
    && match f.kind
       case PipeEnd(p, writable) =>
         var ends := if writable then wr else rd;
         p in ends && ends[p] == k
       case _ => true
  }

  ghost predicate EndsOk(pipes: map<nat, Pipe>, rd: map<nat, nat>, wr: map<nat, nat>) {
    && (forall p :: p in pipes ==> pipes[p].readopen || pipes[p].writeopen)
    && (forall p :: p in rd <==> p in pipes && pipes[p].readopen)
    && (forall p :: p in wr <==> p in pipes && pipes[p].writeopen)
  }

  /** Each open end of a pipe is one file, each such file has its own end, and no pipe is kept unopened. */
  ghost predicate PipesOk(ftable: seq<File>, pipes: map<nat, Pipe>, rd: map<nat, nat>, wr: map<nat, nat>) {
    && EndsOk(pipes, rd, wr)
    && (forall p :: p in rd ==> EndOk(ftable, rd, false, p))
    && (forall p :: p in wr ==> EndOk(ftable, wr, true, p))
    && (forall k :: 0 <= k < |ftable| ==> FileOk(ftable[k], k, rd, wr))
  }

  /** Changing only a count, above zero, keeps the pipes right. */
  lemma RefOnly(ftable: seq<File>, pipes: map<nat, Pipe>, rd: map<nat, nat>, wr: map<nat, nat>, f: nat, ref: nat)
    requires PipesOk(ftable, pipes, rd, wr) && f < |ftable| && ref > 0
    ensures PipesOk(ftable[f := ftable[f].(ref := ref)], pipes, rd, wr)
  {
    var t := ftable[f := ftable[f].(ref := ref)];
    forall p | p in rd ensures EndOk(t, rd, false, p) { assert EndOk(ftable, rd, false, p); }
    forall p | p in wr ensures EndOk(t, wr, true, p) { assert EndOk(ftable, wr, true, p); }
    forall k | 0 <= k < |t| ensures FileOk(t[k], k, rd, wr) { assert FileOk(ftable[k], k, rd, wr); }
  }

  /** The pipes once file f is closed for good. */
  function ClosedPipes(pipes: map<nat, Pipe>, k: Kind): map<nat, Pipe> {
    if k.PipeEnd? && k.pipe in pipes then
      var q := if k.writable then pipes[k.pipe].(writeopen := false) else pipes[k.pipe].(readopen := false);
      if q.readopen || q.writeopen then pipes[k.pipe := q] else pipes - {k.pipe}
    else pipes
  }

  ghost function ClosedEnds(ends: map<nat, nat>, k: Kind, writable: bool): map<nat, nat> {
    if k.PipeEnd? && k.writable == writable then ends - {k.pipe} else ends
  }

  lemma LastClose(ftable: seq<File>, pipes: map<nat, Pipe>, rd: map<nat, nat>, wr: map<nat, nat>, f: nat)
    requires PipesOk(ftable, pipes, rd, wr) && f < |ftable|
    ensures ftable[f].kind.PipeEnd? ==> ftable[f].kind.pipe in pipes
    ensures var k := ftable[f].kind;
            PipesOk(ftable[f := File(0, Nothing)], ClosedPipes(pipes, k),
                    ClosedEnds(rd, k, false), ClosedEnds(wr, k, true))
  {
    var k := ftable[f].kind;
    assert FileOk(ftable[f], f, rd, wr);
    var t, rd', wr' := ftable[f := File(0, Nothing)], ClosedEnds(rd, k, false), ClosedEnds(wr, k, true);
    forall p | p in rd' ensures EndOk(t, rd', false, p) { EndKept(ftable, rd, false, p, f); }
    forall p | p in wr' ensures EndOk(t, wr', true, p) { EndKept(ftable, wr, true, p, f); }
    forall j | 0 <= j < |t| ensures FileOk(t[j], j, rd', wr') { OtherFileKept(ftable, rd, wr, j, f); }
    ClosedEndsOk(pipes, rd, wr, k);
    hide EndOk, FileOk, EndsOk, ClosedPipes, ClosedEnds;
  }

  lemma ClosedEndsOk(pipes: map<nat, Pipe>, rd: map<nat, nat>, wr: map<nat, nat>, k: Kind)
    requires EndsOk(pipes, rd, wr) && (k.PipeEnd? ==> k.pipe in if k.writable then wr else rd)
    ensures EndsOk(ClosedPipes(pipes, k), ClosedEnds(rd, k, false), ClosedEnds(wr, k, true))
  {
  }

  lemma EndKept(ftable: seq<File>, ends: map<nat, nat>, writable: bool, p: nat, f: nat)
    requires f < |ftable| && p in ClosedEnds(ends, ftable[f].kind, writable) && EndOk(ftable, ends, writable, p)
    ensures EndOk(ftable[f := File(0, Nothing)], ClosedEnds(ends, ftable[f].kind, writable), writable, p)
  {
  }

  lemma OtherFileKept(ftable: seq<File>, rd: map<nat, nat>, wr: map<nat, nat>, j: nat, f: nat)
    requires f < |ftable| && j < |ftable| && FileOk(ftable[j], j, rd, wr) && FileOk(ftable[f], f, rd, wr)
    ensures var k := ftable[f].kind;
            FileOk(ftable[f := File(0, Nothing)][j], j, ClosedEnds(rd, k, false), ClosedEnds(wr, k, true))
  {
  }

  /** A new pipe with its two ends. */
  lemma NewPipe(ftable: seq<File>, pipes: map<nat, Pipe>, rd: map<nat, nat>, wr: map<nat, nat>,
                f0: nat, f1: nat, p: nat)
    requires PipesOk(ftable, pipes, rd, wr) && f0 < |ftable| && f1 < |ftable| && f0 != f1 && p !in pipes
    requires ftable[f0] == File(1, Nothing) && ftable[f1] == File(1, Nothing)
    ensures PipesOk(ftable[f0 := File(1, PipeEnd(p, false))][f1 := File(1, PipeEnd(p, true))],
                    pipes[p := Pipe(true, true)], rd[p := f0], wr[p := f1])
  {
    var t := ftable[f0 := File(1, PipeEnd(p, false))][f1 := File(1, PipeEnd(p, true))];
    var rd', wr' := rd[p := f0], wr[p := f1];
    forall q | q in rd' ensures EndOk(t, rd', false, q) { if q != p { assert EndOk(ftable, rd, false, q); } }
    forall q | q in wr' ensures EndOk(t, wr', true, q) { if q != p { assert EndOk(ftable, wr, true, q); } }
    assert EndsOk(pipes[p := Pipe(true, true)], rd', wr');
    forall j | 0 <= j < |t| ensures FileOk(t[j], j, rd', wr') {
      NewEnd(ftable, pipes, rd, wr, f0, f1, p, j);
    }
    hide EndOk, FileOk, EndsOk;
  }

  lemma NewEnd(ftable: seq<File>, pipes: map<nat, Pipe>, rd: map<nat, nat>, wr: map<nat, nat>,
               f0: nat, f1: nat, p: nat, j: nat)
    requires EndsOk(pipes, rd, wr) && f0 < |ftable| && f1 < |ftable| && f0 != f1 && p !in pipes
    requires j < |ftable| && FileOk(ftable[j], j, rd, wr)
    ensures FileOk(ftable[f0 := File(1, PipeEnd(p, false))][f1 := File(1, PipeEnd(p, true))][j], j,
                   rd[p := f0], wr[p := f1])
  {
  }

  /** fileclose on the table, and on the pipes. */
  function Closed(ftable: seq<File>, f: nat): seq<File>
    requires f < |ftable|
  {
    ftable[f := if ftable[f].ref <= 1 then File(0, Nothing) else ftable[f].(ref := ftable[f].ref - 1)]
  }

  function PipesThen(ftable: seq<File>, pipes: map<nat, Pipe>, f: nat): map<nat, Pipe>
    requires f < |ftable|
  {
    if ftable[f].ref <= 1 then ClosedPipes(pipes, ftable[f].kind) else pipes
  }

  class Files {
    var ftable: seq<File>
    var ofile: seq<Option<nat>>   // every process's descriptors, at Slot(proc, fd)
    var pipes: map<nat, Pipe>     // pipes in memory, by address
    ghost var rd: map<nat, nat>
    ghost var wr: map<nat, nat>

    ghost predicate Inv(fly: multiset<nat>)
      reads this
    {
      Counted(ftable, ofile, fly) && PipesOk(ftable, pipes, rd, wr)
    }

    /** Between system calls no reference is in flight. */
    ghost predicate Valid()
      reads this
    {
      Inv(multiset{})
    }

    constructor ()
      ensures Valid() && pipes == map[] && forall k :: 0 <= k < |ofile| ==> ofile[k] == None
    {
      ftable := seq(NFILE, _ => File(0, Nothing));
      ofile := seq(NPROC * NOFILE, _ => None);
      pipes, rd, wr := map[], map[], map[];
      new;
      NoneOpen(ofile);
    }

    static lemma NoneOpen(ofile: seq<Option<nat>>)
      requires forall k :: 0 <= k < |ofile| ==> ofile[k] == None
      ensures forall f: nat :: multiset(ofile)[Some(f)] == 0
    {
      forall f: nat
        ensures Some(f) !in multiset(ofile)
      {
        assert Some(f) !in ofile;
      }
    }

    // ----- file.c -----

    method FileAlloc(ghost fly: multiset<nat>) returns (r: Option<nat>)
      requires Inv(fly)
      modifies this`ftable
      ensures r.None? ==> unchanged(this) && forall f :: 0 <= f < NFILE ==> ftable[f].ref > 0
      ensures r.Some? ==>
                && r.value < NFILE == |ftable| == |old(ftable)| && old(ftable)[r.value] == File(0, Nothing)
                && (forall f :: 0 <= f < r.value ==> old(ftable)[f].ref > 0)
                && ftable == old(ftable)[r.value := File(1, Nothing)] && Inv(fly + multiset{r.value})
    {
      hide PipesOk;
      var f := 0;
      while f < NFILE
        invariant 0 <= f <= NFILE && unchanged(this)
        invariant forall g :: 0 <= g < f ==> ftable[g].ref > 0
      {
        if ftable[f].ref == 0 {
          FreeFile(f);
          RefOnly(ftable, pipes, rd, wr, f, 1);
          ftable := ftable[f := ftable[f].(ref := 1)];
          return Some(f);
        }
        f := f + 1;
      }
      return None;
    }

    lemma FreeFile(f: nat)
      requires PipesOk(ftable, pipes, rd, wr) && f < |ftable| && ftable[f].ref == 0
      ensures ftable[f] == File(0, Nothing)
    {
      assert FileOk(ftable[f], f, rd, wr);
    }

    method FileDup(f: nat)
      requires PipesOk(ftable, pipes, rd, wr) && f < |ftable| && ftable[f].ref >= 1
      modifies this`ftable
      ensures PipesOk(ftable, pipes, rd, wr)
      ensures ftable == old(ftable)[f := old(ftable)[f].(ref := old(ftable)[f].ref + 1)]
    {
      if ftable[f].ref < 1 {
        assert false;
      }
      RefOnly(ftable, pipes, rd, wr, f, ftable[f].ref + 1);
      ftable := ftable[f := ftable[f].(ref := ftable[f].ref + 1)];
    }

    /** fileclose: the last close of an end of a pipe closes that end, and frees the pipe after the other. */
    method FileClose(f: nat)
      requires PipesOk(ftable, pipes, rd, wr) && f < |ftable| && ftable[f].ref >= 1
      modifies this`ftable, this`pipes, this`rd, this`wr
      ensures PipesOk(ftable, pipes, rd, wr)
      ensures ftable == Closed(old(ftable), f) && pipes == PipesThen(old(ftable), old(pipes), f)
    {
      hide PipesOk, ClosedPipes, ClosedEnds;
      if ftable[f].ref < 1 {
        assert false;
      }
      if ftable[f].ref - 1 > 0 {
        RefOnly(ftable, pipes, rd, wr, f, ftable[f].ref - 1);
        ftable := ftable[f := ftable[f].(ref := ftable[f].ref - 1)];
        return;
      }
      var ff := ftable[f];
      LastClose(ftable, pipes, rd, wr, f);
      ftable := ftable[f := File(0, Nothing)];
      if ff.kind.PipeEnd? {
        PipeClose(ff.kind.pipe, ff.kind.writable);
      } else {
        NoPipe(pipes, rd, wr, ff.kind);
      }
      rd, wr := ClosedEnds(rd, ff.kind, false), ClosedEnds(wr, ff.kind, true);
    }

    static lemma NoPipe(pipes: map<nat, Pipe>, rd: map<nat, nat>, wr: map<nat, nat>, k: Kind)
      requires !k.PipeEnd?
      ensures ClosedPipes(pipes, k) == pipes
    {
    }

    method PipeClose(p: nat, writable: bool)
      requires p in pipes
      modifies this`pipes
      ensures pipes == ClosedPipes(old(pipes), PipeEnd(p, writable))
    {
      if writable {
        pipes := pipes[p := pipes[p].(writeopen := false)];
      } else {
        pipes := pipes[p := pipes[p].(readopen := false)];
      }
      if !pipes[p].readopen && !pipes[p].writeopen {
        pipes := pipes - {p};
      }
    }

    // ----- system calls -----

    /** fdalloc: the lowest free descriptor. */
    method FdAlloc(proc: nat, f: nat) returns (fd: Option<nat>)
      requires |ofile| == NPROC * NOFILE && proc < NPROC
      modifies this`ofile
      ensures fd.None? ==> ofile == old(ofile) && forall k :: 0 <= k < NOFILE ==> ofile[Slot(proc, k)].Some?
      ensures fd.Some? ==>
                && fd.value < NOFILE && old(ofile)[Slot(proc, fd.value)].None?
                && (forall k :: 0 <= k < fd.value ==> old(ofile)[Slot(proc, k)].Some?)
                && ofile == old(ofile)[Slot(proc, fd.value) := Some(f)]
    {
      var k := 0;
      while k < NOFILE
        invariant 0 <= k <= NOFILE && ofile == old(ofile)
        invariant forall j :: 0 <= j < k ==> ofile[Slot(proc, j)].Some?
      {
        if ofile[Slot(proc, k)].None? {
          ofile := ofile[Slot(proc, k) := Some(f)];
          return Some(k);
        }
        k := k + 1;
      }
      return None;
    }

    /** argfd. */
    method ArgFd(proc: nat, fd: int) returns (f: Option<nat>)
      requires Valid() && proc < NPROC
      ensures f == if 0 <= fd < NOFILE then ofile[Slot(proc, fd)] else None
      ensures f.Some? ==> f.value < NFILE && ftable[f.value].ref > 0
    {
      hide PipesOk;
      if fd < 0 || fd >= NOFILE {
        return None;
      }
      f := ofile[Slot(proc, fd)];
      if f.Some? {
        Held(ofile, Slot(proc, fd));
      }
    }

    static lemma Held(ofile: seq<Option<nat>>, k: nat)
      requires k < |ofile|
      ensures ofile[k] in multiset(ofile)
    {
      assert ofile[k] in ofile;
    }

    /** sys_dup: fdalloc first, then filedup. */
    method SysDup(proc: nat, fd: int) returns (r: Option<nat>)
      requires Valid() && proc < NPROC
      modifies this`ofile, this`ftable
      ensures Valid()
      ensures r.Some? <==>
                0 <= fd < NOFILE && old(ofile)[Slot(proc, fd)].Some? && FreeFds(old(ofile), proc) != {}
      ensures r.None? ==> unchanged(this)
      ensures r.Some? ==>
                && 0 <= fd < NOFILE && r.value in FreeFds(old(ofile), proc) && old(ofile)[Slot(proc, fd)].Some?
                && (forall k :: k in FreeFds(old(ofile), proc) ==> r.value <= k)
                && ofile == old(ofile)[Slot(proc, r.value) := old(ofile)[Slot(proc, fd)]]
                && var f := old(ofile)[Slot(proc, fd)].value;
                   f < |old(ftable)| && ftable == WithRef(old(ftable), f, 1)
    {
      hide PipesOk;
      var f := ArgFd(proc, fd);
      if f.None? {
        return None;
      }
      RefUp(ftable, ofile, multiset{}, f.value);
      r := FdAlloc(proc, f.value);
      if r.None? {
        return;
      }
      assert r.value in FreeFds(old(ofile), proc);
      SlotTakes(WithRef(ftable, f.value, 1), old(ofile), multiset{f.value}, Slot(proc, r.value), f.value);
      hide Counted;
      FileDup(f.value);
      assert multiset{f.value} - multiset{f.value} == multiset{};
    }

    /** fileclose of a reference in flight. */
    method CloseRef(f: nat, ghost fly: multiset<nat>)
      requires Inv(fly) && f in fly
      modifies this`ftable, this`pipes, this`rd, this`wr
      ensures f < NFILE == |ftable| == |old(ftable)| && Inv(fly - multiset{f})
      ensures ftable == Closed(old(ftable), f) && pipes == PipesThen(old(ftable), old(pipes), f)
    {
      hide PipesOk, Counted, ClosedPipes;
      InFlight(ftable, ofile, fly, f);
      FileClose(f);
      RefDown(old(ftable), ofile, fly, f, ftable);
    }

    /** Closing two files that nobody else holds. */
    method CloseTwo(f0: nat, f1: nat)
      requires f0 != f1 && Inv(multiset{f0, f1}) && f0 < |ftable| && f1 < |ftable|
      requires ftable[f0].ref == 1 == ftable[f1].ref
      modifies this`ftable, this`pipes, this`rd, this`wr
      ensures Valid() && ftable == old(ftable)[f0 := File(0, Nothing)][f1 := File(0, Nothing)]
      ensures pipes == ClosedPipes(ClosedPipes(old(pipes), old(ftable)[f0].kind), old(ftable)[f1].kind)
    {
      hide PipesOk, Counted, ClosedPipes;
      CloseRef(f0, multiset{f0, f1});
      assert multiset{f0, f1} - multiset{f0} == multiset{f1};
      CloseRef(f1, multiset{f1});
      assert multiset{f1} - multiset{f1} == multiset{};
    }

    /** sys_close. */
    method SysClose(proc: nat, fd: int) returns (ok: bool)
      requires Valid() && proc < NPROC
      modifies this
      ensures Valid()
      ensures ok <==> 0 <= fd < NOFILE && old(ofile)[Slot(proc, fd)].Some?
      ensures !ok ==> unchanged(this)
      ensures ok ==>
                && ofile == old(ofile)[Slot(proc, fd) := None]
                && var f := old(ofile)[Slot(proc, fd)].value;
                   && f < |old(ftable)| && ftable == Closed(old(ftable), f)
                   && pipes == PipesThen(old(ftable), old(pipes), f)
    {
      hide PipesOk;
      var f := ArgFd(proc, fd);
      if f.None? {
        return false;
      }
      SlotDrops(ftable, ofile, multiset{}, Slot(proc, fd), f.value);
      hide Counted;
      ofile := ofile[Slot(proc, fd) := None];
      assert multiset{} + multiset{f.value} == multiset{f.value};
      CloseRef(f.value, multiset{f.value});
      assert multiset{f.value} - multiset{f.value} == multiset{};
      return true;
    }

    /** pipealloc; page is what the page allocator returns, None when memory is short. */
    method PipeAlloc(page: Option<nat>) returns (r: Option<(nat, nat)>)
      requires Valid() && (page.Some? ==> page.value !in pipes)
      modifies this
      ensures ofile == old(ofile)
      ensures r.Some? <==> page.Some? && |FreeFiles(old(ftable))| >= 2
      ensures r.None? ==> Valid() && pipes == old(pipes) && ftable == old(ftable)
      ensures r.Some? ==>
                && page.Some? && r.value.0 < NFILE && r.value.1 < NFILE
                && Inv(multiset{r.value.0, r.value.1}) && r.value.0 != r.value.1
                && ftable[r.value.0] == File(1, PipeEnd(page.value, false))
                && ftable[r.value.1] == File(1, PipeEnd(page.value, true))
                && |old(ftable)| == NFILE && old(ftable)[r.value.0] == File(0, Nothing) == old(ftable)[r.value.1]
                && ftable == old(ftable)[r.value.0 := ftable[r.value.0]][r.value.1 := ftable[r.value.1]]
                && pipes == old(pipes)[page.value := Pipe(true, true)]
    {
      hide PipesOk, Counted;
      Lengths(multiset{});
      var f0 := FileAlloc(multiset{});
      if f0.None? {
        OnlyOne(FreeFiles(old(ftable)), 0);
        return None;
      }
      assert multiset{} + multiset{f0.value} == multiset{f0.value};
      var f1 := FileAlloc(multiset{f0.value});
      if f1.None? {
        assert forall f :: 0 <= f < NFILE && f != f0.value ==> ftable[f] == old(ftable)[f];
        OnlyOne(FreeFiles(old(ftable)), f0.value);
        CloseRef(f0.value, multiset{f0.value});
        assert multiset{f0.value} - multiset{f0.value} == multiset{};
        return None;
      }
      assert multiset{f0.value} + multiset{f1.value} == multiset{f0.value, f1.value};
      AtLeastTwo(FreeFiles(old(ftable)), f0.value, f1.value);
      if page.None? {
        CloseTwo(f0.value, f1.value);
        return None;
      }
      SameCounts(ftable, ofile, multiset{f0.value, f1.value}, f0.value, f1.value, page.value);
      NewPipe(ftable, pipes, rd, wr, f0.value, f1.value, page.value);
      ftable := ftable[f0.value := File(1, PipeEnd(page.value, false))][f1.value := File(1, PipeEnd(page.value, true))];
      pipes := pipes[page.value := Pipe(true, true)];
      rd, wr := rd[page.value := f0.value], wr[page.value := f1.value];
      return Some((f0.value, f1.value));
    }

    static lemma SameCounts(ftable: seq<File>, ofile: seq<Option<nat>>, fly: multiset<nat>, f0: nat, f1: nat, p: nat)
      requires Counted(ftable, ofile, fly) && f0 < NFILE && f1 < NFILE && ftable[f0].ref == 1 == ftable[f1].ref
      ensures Counted(ftable[f0 := File(1, PipeEnd(p, false))][f1 := File(1, PipeEnd(p, true))], ofile, fly)
    {
    }

    /** sys_pipe: both descriptors or neither, and then no pipe either. */
    method SysPipe(proc: nat, page: Option<nat>) returns (r: Option<(nat, nat)>)
      requires Valid() && proc < NPROC && (page.Some? ==> page.value !in pipes)
      modifies this
      ensures Valid() && |old(ofile)| == NPROC * NOFILE
      ensures r.Some? <==>
                page.Some? && |FreeFiles(old(ftable))| >= 2 && |FreeFds(old(ofile), proc)| >= 2
      ensures r.None? ==> ofile == old(ofile) && pipes == old(pipes) && ftable == old(ftable)
      ensures r.Some? ==>
                && page.Some? && pipes == old(pipes)[page.value := Pipe(true, true)]
                && r.value.0 < r.value.1 < NOFILE
                && {r.value.0, r.value.1} <= FreeFds(old(ofile), proc)
                && (forall k :: k in FreeFds(old(ofile), proc) - {r.value.0} ==> r.value.0 < r.value.1 <= k)
                && exists f0, f1 :: 0 <= f0 < NFILE && 0 <= f1 < NFILE
                     && ofile == old(ofile)[Slot(proc, r.value.0) := Some(f0)][Slot(proc, r.value.1) := Some(f1)]
                     && f0 != f1 && {f0, f1} <= FreeFiles(old(ftable))
                     && ftable == old(ftable)[f0 := File(1, PipeEnd(page.value, false))]
                                             [f1 := File(1, PipeEnd(page.value, true))]
    {
      hide PipesOk, Counted;
      Lengths(multiset{});
      var ends := PipeAlloc(page);
      if ends.None? {
        return None;
      }
      var (rf, wf) := ends.value;
      Lengths(multiset{rf, wf});
      r := TwoFds(proc, rf, wf);
      if r.None? {
        CloseTwo(rf, wf);
        ClosedBoth(old(pipes), page.value);
        assert ftable == old(ftable);
      }
    }

    /** sys_pipe's two calls of fdalloc; the first descriptor is taken back if the second fails. */
    method TwoFds(proc: nat, rf: nat, wf: nat) returns (r: Option<(nat, nat)>)
      requires Inv(multiset{rf, wf}) && proc < NPROC && |ofile| == NPROC * NOFILE
      modifies this`ofile
      ensures r.Some? <==> |FreeFds(old(ofile), proc)| >= 2
      ensures r.None? ==> ofile == old(ofile)
      ensures r.Some? ==>
                && Valid() && r.value.0 < r.value.1 < NOFILE
                && {r.value.0, r.value.1} <= FreeFds(old(ofile), proc)
                && (forall k :: k in FreeFds(old(ofile), proc) - {r.value.0} ==> r.value.0 < r.value.1 <= k)
                && ofile == old(ofile)[Slot(proc, r.value.0) := Some(rf)][Slot(proc, r.value.1) := Some(wf)]
    {
      hide PipesOk, Counted;
      var fd0 := FdAlloc(proc, rf);
      if fd0.None? {
        OnlyOne(FreeFds(old(ofile), proc), 0);
        return None;
      }
      OtherFds(old(ofile), proc, fd0.value, rf);
      var fd1 := FdAlloc(proc, wf);
      if fd1.None? {
        OnlyOne(FreeFds(old(ofile), proc), fd0.value);
        ofile := ofile[Slot(proc, fd0.value) := None];
        assert ofile == old(ofile);
        return None;
      }
      AtLeastTwo(FreeFds(old(ofile), proc), fd0.value, fd1.value);
      TwoSlotsTake(ftable, old(ofile), Slot(proc, fd0.value), rf, Slot(proc, fd1.value), wf);
      return Some((fd0.value, fd1.value));
    }

    static lemma OtherFds(ofile: seq<Option<nat>>, proc: nat, fd: nat, f: nat)
      requires |ofile| == NPROC * NOFILE && proc < NPROC && fd < NOFILE
      ensures forall k: nat :: k < NOFILE ==>
                ofile[Slot(proc, fd) := Some(f)][Slot(proc, k)] == if k == fd then Some(f) else ofile[Slot(proc, k)]
    {
    }

    lemma Lengths(fly: multiset<nat>)
      requires Inv(fly)
      ensures |ofile| == NPROC * NOFILE && |ftable| == NFILE
    {
    }

    static lemma ClosedBoth(pipes: map<nat, Pipe>, p: nat)
      requires p !in pipes
      ensures ClosedPipes(ClosedPipes(pipes[p := Pipe(true, true)], PipeEnd(p, false)), PipeEnd(p, true)) == pipes
    {
    }

    method CopyFd(from: nat, to: nat)
      requires Valid() && from < |ofile| && to < |ofile| && ofile[from].Some? && ofile[to].None?
      modifies this`ofile, this`ftable
      ensures Valid() && |ofile| == NPROC * NOFILE == |old(ofile)| && ofile == old(ofile)[to := old(ofile)[from]]
      ensures KindsKept(old(ftable), ftable)
    {
      hide PipesOk;
      var f := ofile[from].value;
      SlotDrops(ftable, ofile, multiset{}, from, f);
      RefUp(ftable, ofile, multiset{}, f);
      SlotTakes(WithRef(ftable, f, 1), ofile, multiset{f}, to, f);
      hide Counted;
      FileDup(f);
      ofile := ofile[to := Some(f)];
      assert multiset{f} - multiset{f} == multiset{};
    }

    /** sys_open once the inode is found: a file and a descriptor for it, or neither. */
    method SysOpen(proc: nat, inum: nat) returns (r: Option<nat>)
      requires Valid() && proc < NPROC
      modifies this
      ensures Valid() && pipes == old(pipes) && |old(ofile)| == NPROC * NOFILE
      ensures r.Some? <==> FreeFiles(old(ftable)) != {} && FreeFds(old(ofile), proc) != {}
      ensures r.None? ==> ofile == old(ofile) && ftable == old(ftable)
      ensures r.Some? ==>
                && r.value in FreeFds(old(ofile), proc) && (forall k :: k in FreeFds(old(ofile), proc) ==> r.value <= k)
                && exists f :: 0 <= f < NFILE && ofile == old(ofile)[Slot(proc, r.value) := Some(f)]
                               && f in FreeFiles(old(ftable)) && ftable == old(ftable)[f := File(1, Inode(inum))]
    {
      hide PipesOk, Counted;
      Lengths(multiset{});
      var f := FileAlloc(multiset{});
      if f.None? {
        return None;
      }
      assert f.value in FreeFiles(old(ftable));
      assert multiset{} + multiset{f.value} == multiset{f.value};
      r := FdAlloc(proc, f.value);
      if r.None? {
        CloseRef(f.value, multiset{f.value});
        assert multiset{f.value} - multiset{f.value} == multiset{};
        assert ftable == old(ftable);
        return;
      }
      assert r.value in FreeFds(old(ofile), proc);
      SlotTakes(ftable, old(ofile), multiset{f.value}, Slot(proc, r.value), f.value);
      assert multiset{f.value} - multiset{f.value} == multiset{};
      NewInode(ftable, ofile, pipes, rd, wr, f.value, inum);
      ftable := ftable[f.value := File(1, Inode(inum))];
    }

    static lemma NewInode(ftable: seq<File>, ofile: seq<Option<nat>>, pipes: map<nat, Pipe>, rd: map<nat, nat>,
                          wr: map<nat, nat>, f: nat, inum: nat)
      requires PipesOk(ftable, pipes, rd, wr) && f < |ftable| && ftable[f] == File(1, Nothing)
      requires Counted(ftable, ofile, multiset{})
      ensures PipesOk(ftable[f := File(1, Inode(inum))], pipes, rd, wr)
      ensures Counted(ftable[f := File(1, Inode(inum))], ofile, multiset{})
    {
      var t := ftable[f := File(1, Inode(inum))];
      forall p | p in rd ensures EndOk(t, rd, false, p) { assert EndOk(ftable, rd, false, p); }
      forall p | p in wr ensures EndOk(t, wr, true, p) { assert EndOk(ftable, wr, true, p); }
      forall k | 0 <= k < |t| ensures FileOk(t[k], k, rd, wr) { assert FileOk(ftable[k], k, rd, wr); }
    }

    /** fork's copy of the descriptors into a process slot that has none. */
    method Fork(parent: nat, child: nat)
      requires Valid() && parent < NPROC && child < NPROC && parent != child
      requires forall k :: 0 <= k < NOFILE ==> ofile[Slot(child, k)].None?
      modifies this`ofile, this`ftable
      ensures Valid()
      ensures forall k :: 0 <= k < NOFILE ==> ofile[Slot(child, k)] == old(ofile)[Slot(parent, k)]
      ensures forall p, k :: 0 <= p < NPROC && 0 <= k < NOFILE && p != child ==>
                               ofile[Slot(p, k)] == old(ofile)[Slot(p, k)]
      ensures KindsKept(old(ftable), ftable)
    {
      hide PipesOk;
      var i := 0;
      while i < NOFILE
        invariant 0 <= i <= NOFILE && Valid() && KindsKept(old(ftable), ftable)
        invariant forall k :: 0 <= k < i ==> ofile[Slot(child, k)] == old(ofile)[Slot(parent, k)]
        invariant forall k :: i <= k < NOFILE ==> ofile[Slot(child, k)].None?
        invariant forall p, k :: 0 <= p < NPROC && 0 <= k < NOFILE && p != child ==>
                                   ofile[Slot(p, k)] == old(ofile)[Slot(p, k)]
      {
        var f := ofile[Slot(parent, i)];
        if f.Some? {
          CopyFd(Slot(parent, i), Slot(child, i));
        }
        i := i + 1;
      }
    }

    /** fileclose, and then the descriptor forgets it. */
    method CloseFd(k: nat)
      requires Valid() && k < |ofile| && ofile[k].Some?
      modifies this
      ensures Valid() && |ofile| == NPROC * NOFILE == |old(ofile)| && ofile == old(ofile)[k := None]
      ensures KindsKept(old(ftable), ftable)
    {
      hide PipesOk;
      var f := ofile[k].value;
      SlotDrops(ftable, ofile, multiset{}, k, f);
      assert multiset{} + multiset{f} == multiset{f};
      hide Counted;
      FileClose(f);
      ofile := ofile[k := None];
      RefDown(old(ftable), ofile, multiset{f}, f, ftable);
      assert multiset{f} - multiset{f} == multiset{};
    }

    /** exit's closing of every descriptor. */
    method Exit(proc: nat)
      requires Valid() && proc < NPROC
      modifies this
      ensures Valid()
      ensures forall k :: 0 <= k < NOFILE ==> ofile[Slot(proc, k)].None?
      ensures forall p, k :: 0 <= p < NPROC && 0 <= k < NOFILE && p != proc ==>
                               ofile[Slot(p, k)] == old(ofile)[Slot(p, k)]
      ensures KindsKept(old(ftable), ftable)
    {
      hide PipesOk;
      var fd := 0;
      while fd < NOFILE
        invariant 0 <= fd <= NOFILE && Valid() && KindsKept(old(ftable), ftable)
        invariant forall k :: 0 <= k < fd ==> ofile[Slot(proc, k)].None?
        invariant forall p, k :: 0 <= p < NPROC && 0 <= k < NOFILE && p != proc ==>
                                   ofile[Slot(p, k)] == old(ofile)[Slot(p, k)]
      {
        var f := ofile[Slot(proc, fd)];
        if f.Some? {
          CloseFd(Slot(proc, fd));
        }
        fd := fd + 1;
      }
    }

    /** A pipe is in memory exactly while some descriptor of some process names one of its ends. */
    lemma PipeLivesWhileOpen(p: nat)
      requires Valid()
      ensures p in pipes <==>
              exists k, f :: 0 <= k < |ofile| && 0 <= f < NFILE && ofile[k] == Some(f)
                             && ftable[f].kind.PipeEnd? && ftable[f].kind.pipe == p
    {
      if p in pipes {
        var ends := if pipes[p].readopen then rd else wr;
        assert EndOk(ftable, ends, !pipes[p].readopen, p);
        var f := ends[p];
        assert Some(f) in multiset(ofile);
        assert Some(f) in ofile;
        var k :| 0 <= k < |ofile| && ofile[k] == Some(f);
        assert ftable[f].kind.pipe == p;
      }
      if k, f :| 0 <= k < |ofile| && 0 <= f < NFILE && ofile[k] == Some(f)
                 && ftable[f].kind.PipeEnd? && ftable[f].kind.pipe == p {
        assert FileOk(ftable[f], f, rd, wr);
      }
    }
  }
}
