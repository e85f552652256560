/** The process table of src/proc.c as data: states, the parent tree, and what every step keeps. */
module ProcTable {
  import opened Params

  const NONE := -1

  datatype State = UNUSED | EMBRYO | SLEEPING | RUNNABLE | RUNNING | ZOMBIE

  /** What a process sleeps on: a process's own address (only wait does that), or any other channel. */
  datatype Chan = NoChan | OnProc(p: nat) | OnOther(id: nat)

  datatype Proc = Proc(state: State, pid: nat, parent: int, chan: Chan, killed: bool)

  type Table = t: seq<Proc> | |t| == NPROC witness seq(NPROC, i => Proc(UNUSED, 0, NONE, NoChan, false))

  /** What happens to a slot: fork puts a process in it, kill finds its pid in it, wait frees it. */
  datatype Event = Birth(q: nat, pid: nat) | Hit(q: nat, pid: nat) | Reap(q: nat)

  /** Bookkeeping that the source does not have: an age for each process, how many of its forks and waits
      succeeded, and what has happened to the slots. */
  datatype History = History(births: seq<nat>, forks: seq<nat>, waits: seq<nat>, log: seq<Event>) {
    predicate Sized() { |births| == |forks| == |waits| == NPROC }
  }

  predicate Alive(p: Proc) { p.state == SLEEPING || p.state == RUNNABLE || p.state == RUNNING }

  ghost function Children(t: Table, p: nat): set<nat> {
    set q | 0 <= q < NPROC && t[q].parent == p
  }

  ghost predicate HasZombieChild(t: Table, p: nat) {
    exists q :: 0 <= q < NPROC && t[q].parent == p && t[q].state == ZOMBIE
  }

  predicate WaitsForChild(t: Table, p: nat)
    requires p < NPROC
  {
    t[p].state == SLEEPING && t[p].chan == OnProc(p)
  }

  // ----- the invariant, process by process -----

  /** Only init has no parent; every parent is alive; free slots have no parent. */
  ghost predicate HasPlace(t: Table, init: nat, p: nat)
    requires p < NPROC
  {
    && t[p].state != EMBRYO
    && (t[p].state == UNUSED ==> t[p].parent == NONE)
    && (t[p].state != UNUSED && p != init ==> 0 <= t[p].parent < NPROC && Alive(t[t[p].parent]))
  }

  /** Asleep in wait only with a child and without a zombie child; never asleep on another's address. */
  ghost predicate SleepsRightly(t: Table, p: nat)
    requires p < NPROC
  {
    && (WaitsForChild(t, p) ==> Children(t, p) != {} && !HasZombieChild(t, p))
    && (t[p].state == SLEEPING && t[p].chan.OnProc? ==> t[p].chan.p == p)
  }

  /** Older than its children, younger than init. */
  ghost predicate InAge(t: Table, init: nat, births: seq<nat>, p: nat)
    requires p < NPROC && init < NPROC && |births| == NPROC
  {
    && (t[p].state != UNUSED && p != init ==> births[init] < births[p])
    && (0 <= t[p].parent < NPROC ==> births[t[p].parent] < births[p])
  }

  /** A living process other than init has as many children as successful forks minus successful waits. */
  ghost predicate IsCounted(t: Table, init: nat, h: History, p: nat)
    requires p < NPROC && h.Sized()
  {
    Alive(t[p]) && p != init ==> |Children(t, p)| + h.waits[p] == h.forks[p]
  }

  ghost predicate Family(t: Table, init: nat) {
    && init < NPROC && Alive(t[init]) && t[init].parent == NONE
    && forall p {:trigger HasPlace(t, init, p)} :: 0 <= p < NPROC ==> HasPlace(t, init, p)
  }

  ghost predicate NoLostWakeup(t: Table) {
    forall p {:trigger SleepsRightly(t, p)} :: 0 <= p < NPROC ==> SleepsRightly(t, p)
  }

  ghost predicate Older(t: Table, init: nat, births: seq<nat>) {
    && |births| == NPROC && init < NPROC
    && forall p {:trigger InAge(t, init, births, p)} :: 0 <= p < NPROC ==> InAge(t, init, births, p)
  }

  ghost predicate Counted(t: Table, init: nat, h: History) {
    h.Sized() && forall p {:trigger IsCounted(t, init, h, p)} :: 0 <= p < NPROC ==> IsCounted(t, init, h, p)
  }

  /** At most one process runs. */
  ghost predicate OneRuns(t: Table, current: int) {
    forall p :: 0 <= p < NPROC ==> (t[p].state == RUNNING <==> p == current)
  }

  /** Process ids are unique and below nextpid. */
  ghost predicate Named(t: Table, nextpid: nat) {
    && nextpid > 0
    && (forall p :: 0 <= p < NPROC ==> t[p].pid < nextpid && (t[p].state != UNUSED ==> t[p].pid > 0))
    && (forall p, q :: 0 <= p < q < NPROC && t[p].pid == t[q].pid ==> t[p].pid == 0)
  }

  // ----- who is killed -----

  /** kill has found the slot's pid since the slot was last freed. */
  ghost predicate HitSinceReap(log: seq<Event>, q: nat) {
    log != [] &&
    var e, before := log[|log| - 1], log[..|log| - 1];
    if e == Reap(q) then false else (e.Hit? && e.q == q) || HitSinceReap(before, q)
  }

  /** It had done so before the slot's process was born. */
  ghost predicate HitWhileFree(log: seq<Event>, q: nat) {
    log != [] &&
    var e, before := log[|log| - 1], log[..|log| - 1];
    if e == Reap(q) then false
    else if e.Birth? && e.q == q then HitSinceReap(before, q)
    else HitWhileFree(before, q)
  }

  /** Every pid that kill has found. */
  ghost function HitPids(log: seq<Event>): set<nat> {
    set k | 0 <= k < |log| && log[k].Hit? :: log[k].pid
  }

  /** The flag is set exactly when kill has found the slot since it was freed; for a process in use, exactly when
      kill has found its pid, or found the slot before the process was born. */
  ghost predicate FlagOk(t: Table, log: seq<Event>, p: nat)
    requires p < NPROC
  {
    && (t[p].killed <==> HitSinceReap(log, p))
    && (t[p].state != UNUSED ==> (t[p].killed <==> t[p].pid in HitPids(log) || HitWhileFree(log, p)))
  }

  ghost predicate Flagged(t: Table, nextpid: nat, log: seq<Event>) {
    && (forall pid :: pid in HitPids(log) ==> pid < nextpid)
    && forall p {:trigger FlagOk(t, log, p)} :: 0 <= p < NPROC ==> FlagOk(t, log, p)
  }

  ghost predicate Inv(t: Table, init: nat, current: int, nextpid: nat, h: History) {
    && Family(t, init) && NoLostWakeup(t) && Older(t, init, h.births) && Counted(t, init, h)
    && OneRuns(t, current) && Named(t, nextpid) && Flagged(t, nextpid, h.log)
  }

  /** Over every run, a process whose slot kill did not find free is killed if and only if kill has found its pid;
      the others are killed from birth. */
  lemma KilledIff(t: Table, init: nat, current: int, nextpid: nat, h: History, p: nat)
    requires Inv(t, init, current, nextpid, h) && p < NPROC && t[p].state != UNUSED
    ensures HitWhileFree(h.log, p) ==> t[p].killed
    ensures (t[p].killed <==> t[p].pid in HitPids(h.log)) <==> (HitWhileFree(h.log, p) ==> t[p].pid in HitPids(h.log))
  {
    assert FlagOk(t, h.log, p);
  }

  /** The first process alone. */
  predicate FirstAlone(t: Table) {
    && t[0] == Proc(RUNNABLE, 1, NONE, NoChan, false)
    && forall p :: 1 <= p < NPROC ==> t[p] == Proc(UNUSED, 0, NONE, NoChan, false)
  }

  lemma FirstFlags(t: Table)
    requires FirstAlone(t)
    ensures Flagged(t, 2, [Birth(0, 1)])
  {
    var log := [] + [Birth(0, 1)];
    assert log == [Birth(0, 1)];
    hide HitSinceReap, HitWhileFree, HitPids;
    forall p | 0 <= p < NPROC
      ensures FlagOk(t, log, p)
    {
      NoFlags(p);
    }
    NoFlags(0);
  }

  lemma NoFlags(p: nat)
    ensures var log := [Birth(0, 1)]; !HitSinceReap(log, p) && !HitWhileFree(log, p) && HitPids(log) == {}
  {
    assert [Birth(0, 1)] == [] + [Birth(0, 1)];
    NextEvent([], Birth(0, 1), p);
  }

  lemma FirstInv(t: Table, h: History)
    requires FirstAlone(t) && h.Sized() && h.log == [Birth(0, 1)]
    requires forall p :: 0 <= p < NPROC ==> h.births[p] == p
    ensures Inv(t, 0, NONE, 2, h)
  {
    hide Flagged;
    FirstFlags(t);
    forall p | 0 <= p < NPROC
      ensures HasPlace(t, 0, p) && SleepsRightly(t, p) && InAge(t, 0, h.births, p) && IsCounted(t, 0, h, p)
    {
    }
  }

  lemma NextEvent(log: seq<Event>, e: Event, q: nat)
    ensures HitSinceReap(log + [e], q) <==> e != Reap(q) && ((e.Hit? && e.q == q) || HitSinceReap(log, q))
    ensures HitWhileFree(log + [e], q) <==>
              e != Reap(q) && if e.Birth? && e.q == q then HitSinceReap(log, q) else HitWhileFree(log, q)
    ensures HitPids(log + [e]) == HitPids(log) + (if e.Hit? then {e.pid} else {})
  {
    var l := log + [e];
    assert l[..|log|] == log && l[|log|] == e;
    assert forall k :: 0 <= k < |log| ==> l[k] == log[k];
    forall x | x in HitPids(log) ensures x in HitPids(l) {
      var k :| 0 <= k < |log| && log[k].Hit? && log[k].pid == x;
      assert l[k].pid == x;
    }
  }

  /** A step that neither kills, frees nor names a process in use. */
  lemma FlagsKept(t: Table, t': Table, nextpid: nat, nextpid': nat, log: seq<Event>)
    requires Flagged(t, nextpid, log) && nextpid <= nextpid'
    requires forall p :: 0 <= p < NPROC ==>
               && t'[p].killed == t[p].killed && (t'[p].state == UNUSED <==> t[p].state == UNUSED)
               && (t[p].state == UNUSED || t'[p].pid == t[p].pid)
    ensures Flagged(t', nextpid', log)
  {
    forall p | 0 <= p < NPROC ensures FlagOk(t', log, p) {
      assert FlagOk(t, log, p);
    }
  }

  lemma FlagsBorn(t: Table, c: nat, nextpid: nat, log: seq<Event>, q: nat)
    requires Flagged(t, nextpid, log) && q < NPROC && t[q].state == UNUSED
    ensures Flagged(NewChild(t, c, q, nextpid), nextpid + 1, log + [Birth(q, nextpid)])
  {
    var t', l := NewChild(t, c, q, nextpid), log + [Birth(q, nextpid)];
    forall p | 0 <= p < NPROC ensures FlagOk(t', l, p) {
      NextEvent(log, Birth(q, nextpid), p);
      assert FlagOk(t, log, p);
    }
    NextEvent(log, Birth(q, nextpid), 0);
  }

  lemma FlagsFreed(t: Table, nextpid: nat, log: seq<Event>, q: nat)
    requires Flagged(t, nextpid, log) && q < NPROC
    ensures Flagged(Freed(t, q), nextpid, log + [Reap(q)])
  {
    forall p | 0 <= p < NPROC ensures FlagOk(Freed(t, q), log + [Reap(q)], p) {
      NextEvent(log, Reap(q), p);
      assert FlagOk(t, log, p);
    }
    NextEvent(log, Reap(q), 0);
  }

  // ----- the tree -----

  /** Follow k parent links. */
  ghost function Ancestor(t: Table, p: int, k: nat): int
    decreases k
  {
    if k == 0 || !(0 <= p < NPROC) then p else Ancestor(t, t[p].parent, k - 1)
  }

  /** Parent links form a tree rooted at init: every process in use reaches it. */
  lemma {:induction false} EveryoneDescendsFromInit(t: Table, init: nat, births: seq<nat>, p: nat) returns (k: nat)
    requires Family(t, init) && Older(t, init, births) && p < NPROC && t[p].state != UNUSED
    ensures Ancestor(t, p, k) == init
    decreases births[p]
  {
    if p == init {
      k := 0;
    } else {
      assert HasPlace(t, init, p) && InAge(t, init, births, p);
      k := EveryoneDescendsFromInit(t, init, births, t[p].parent);
      k := k + 1;
    }
  }

  /** Ancestors are older, */
  lemma {:induction false} AncestorsAreOlder(t: Table, init: nat, births: seq<nat>, p: nat, k: nat)
    requires Older(t, init, births) && p < NPROC && k > 0
    ensures var a := Ancestor(t, p, k); 0 <= a < NPROC ==> births[a] < births[p]
    decreases k
  {
    assert InAge(t, init, births, p);
    var q := t[p].parent;
    if 0 <= q < NPROC && k > 1 {
      AncestorsAreOlder(t, init, births, q, k - 1);
    }
  }

  /** so parent links have no cycle. */
  lemma NoCycle(t: Table, init: nat, births: seq<nat>, p: nat, k: nat)
    requires Older(t, init, births) && p < NPROC && Ancestor(t, p, k) == p
    ensures k == 0
  {
    if k > 0 { AncestorsAreOlder(t, init, births, p, k); }
  }

  // ----- steps that leave the family alone -----

  /** Same parents, and the same processes are unused, alive and zombies. */
  ghost predicate SameLives(t: Table, t': Table) {
    forall p :: 0 <= p < NPROC ==>
      && t[p].parent == t'[p].parent && Alive(t[p]) == Alive(t'[p])
      && (t[p].state == UNUSED <==> t'[p].state == UNUSED) && (t[p].state == ZOMBIE <==> t'[p].state == ZOMBIE)
  }

  lemma SameLivesSameFamily(t: Table, t': Table, p: nat)
    requires SameLives(t, t')
    ensures Children(t, p) == Children(t', p) && (HasZombieChild(t, p) <==> HasZombieChild(t', p))
  {
    if HasZombieChild(t, p) {
      var q :| 0 <= q < NPROC && t[q].parent == p && t[q].state == ZOMBIE;
      assert t'[q].parent == p;
    }
    if HasZombieChild(t', p) {
      var q :| 0 <= q < NPROC && t'[q].parent == p && t'[q].state == ZOMBIE;
      assert t[q].parent == p;
    }
  }

  lemma SameLivesKeep(t: Table, t': Table, init: nat, h: History)
    requires SameLives(t, t') && Family(t, init) && Older(t, init, h.births) && Counted(t, init, h)
    ensures Family(t', init) && Older(t', init, h.births) && Counted(t', init, h)
  {
    forall p | 0 <= p < NPROC
      ensures HasPlace(t', init, p) && InAge(t', init, h.births, p) && IsCounted(t', init, h, p)
    {
      SameLivesSameFamily(t, t', p);
      assert HasPlace(t, init, p) && InAge(t, init, h.births, p) && IsCounted(t, init, h, p);
    }
  }

  /** Whoever sleeps in wait afterwards slept there before, or has reason to. */
  lemma SameLivesWaiters(t: Table, t': Table)
    requires SameLives(t, t') && NoLostWakeup(t)
    requires forall p :: 0 <= p < NPROC && t'[p].state == SLEEPING && t'[p].chan.OnProc? ==>
               t'[p] == t[p] || (t'[p].chan.p == p && Children(t, p) != {} && !HasZombieChild(t, p))
    ensures NoLostWakeup(t')
  {
    forall p | 0 <= p < NPROC
      ensures SleepsRightly(t', p)
    {
      SameLivesSameFamily(t, t', p);
      assert SleepsRightly(t, p);
    }
  }

  /** wakeup1(chan) on the table. */
  function Woken(t: Table, chan: Chan): (r: Table)
    ensures forall p :: 0 <= p < NPROC ==>
              r[p] == if t[p].state == SLEEPING && t[p].chan == chan then t[p].(state := RUNNABLE) else t[p]
  {
    seq(NPROC, p requires 0 <= p < NPROC =>
      if t[p].state == SLEEPING && t[p].chan == chan then t[p].(state := RUNNABLE) else t[p])
  }

  lemma WokenKeepsInv(t: Table, init: nat, current: int, nextpid: nat, h: History, chan: Chan)
    requires Inv(t, init, current, nextpid, h)
    ensures Inv(Woken(t, chan), init, current, nextpid, h)
  {
    var t' := Woken(t, chan);
    assert SameLives(t, t');
    SameLivesKeep(t, t', init, h);
    SameLivesWaiters(t, t');
    FlagsKept(t, t', nextpid, nextpid, h.log);
  }

  /** Moving one living process to another living state keeps the invariant, provided it goes to sleep in
      wait only with a child and no zombie child. */
  lemma AliveUpdate(t: Table, init: nat, current: int, nextpid: nat, h: History, p: nat, np: Proc, current': int)
    requires Inv(t, init, current, nextpid, h) && p < NPROC
    requires Alive(t[p]) && Alive(np) && np.pid == t[p].pid && np.parent == t[p].parent && np.killed == t[p].killed
    requires np.state == SLEEPING && np.chan.OnProc? ==>
               np.chan.p == p && Children(t, p) != {} && !HasZombieChild(t, p)
    requires OneRuns(t[p := np], current')
    ensures Inv(t[p := np], init, current', nextpid, h)
  {
    var t' := t[p := np];
    assert SameLives(t, t');
    SameLivesKeep(t, t', init, h);
    SameLivesWaiters(t, t');
    NamedUpdate(t, nextpid, p, np, nextpid);
    FlagsKept(t, t', nextpid, nextpid, h.log);
  }

  lemma NamedUpdate(t: Table, nextpid: nat, p: nat, np: Proc, nextpid': nat)
    requires Named(t, nextpid) && p < NPROC && nextpid <= nextpid' && np.pid < nextpid'
    requires np.state != UNUSED ==> np.pid > 0
    requires np.pid == t[p].pid || np.pid == 0 || np.pid >= nextpid
    ensures Named(t[p := np], nextpid')
  {
  }

  // ----- kill -----

  function Struck(h: History, q: nat, pid: nat): History { h.(log := h.log + [Hit(q, pid)]) }

  /** kill on the slot it finds: the flag, and an end to any sleep. */
  function Marked(t: Table, q: nat): Table
    requires q < NPROC
  {
    t[q := t[q].(killed := true, state := if t[q].state == SLEEPING then RUNNABLE else t[q].state)]
  }

  lemma KillKeepsInv(t: Table, init: nat, current: int, nextpid: nat, h: History, q: nat)
    requires Inv(t, init, current, nextpid, h) && q < NPROC
    ensures Inv(Marked(t, q), init, current, nextpid, Struck(h, q, t[q].pid))
  {
    var t' := Marked(t, q);
    assert SameLives(t, t');
    SameLivesKeep(t, t', init, h);
    CountedLog(t', init, h, Struck(h, q, t[q].pid));
    SameLivesWaiters(t, t');
    NamedUpdate(t, nextpid, q, t'[q], nextpid);
    FlagsStruck(t, nextpid, h.log, q);
  }

  lemma CountedLog(t: Table, init: nat, h: History, h': History)
    requires Counted(t, init, h) && h' == h.(log := h'.log)
    ensures Counted(t, init, h')
  {
    forall p | 0 <= p < NPROC ensures IsCounted(t, init, h', p) {
      assert IsCounted(t, init, h, p);
    }
  }

  lemma FlagsStruck(t: Table, nextpid: nat, log: seq<Event>, q: nat)
    requires Flagged(t, nextpid, log) && Named(t, nextpid) && q < NPROC
    ensures Flagged(Marked(t, q), nextpid, log + [Hit(q, t[q].pid)])
  {
    forall p | 0 <= p < NPROC ensures FlagOk(Marked(t, q), log + [Hit(q, t[q].pid)], p) {
      NextEvent(log, Hit(q, t[q].pid), p);
      assert FlagOk(t, log, p);
    }
    NextEvent(log, Hit(q, t[q].pid), 0);
  }

  /** A slot claimed for a process that could not be set up keeps its pid and is free again. */
  lemma FailedFork(t: Table, init: nat, current: int, nextpid: nat, h: History, q: nat)
    requires Inv(t, init, current, nextpid, h) && q < NPROC && t[q].state == UNUSED
    ensures Inv(t[q := t[q].(pid := nextpid)], init, current, nextpid + 1, h)
  {
    var t' := t[q := t[q].(pid := nextpid)];
    assert SameLives(t, t');
    SameLivesKeep(t, t', init, h);
    SameLivesWaiters(t, t');
    NamedUpdate(t, nextpid, q, t'[q], nextpid + 1);
    FlagsKept(t, t', nextpid, nextpid + 1, h.log);
  }

  // ----- fork -----

  function Born(h: History, c: nat, q: nat, pid: nat): History
    requires h.Sized() && c < NPROC && q < NPROC
  {
    History(h.births[q := h.births[c] + 1], h.forks[c := h.forks[c] + 1][q := 0], h.waits[q := 0],
            h.log + [Birth(q, pid)])
  }

  function NewChild(t: Table, c: nat, q: nat, pid: nat): Table
    requires q < NPROC
  {
    t[q := t[q].(state := RUNNABLE, pid := pid, parent := c)]
  }

  lemma UnusedHasNoChildren(t: Table, init: nat, q: nat)
    requires Family(t, init) && q < NPROC && !Alive(t[q])
    ensures Children(t, q) == {}
  {
    forall p | 0 <= p < NPROC
      ensures t[p].parent != q
    {
      assert HasPlace(t, init, p);
    }
  }

  lemma NewChildChildren(t: Table, c: nat, q: nat, pid: nat, p: nat)
    requires q < NPROC && t[q].parent == NONE
    ensures Children(NewChild(t, c, q, pid), p) == if p == c then Children(t, c) + {q} else Children(t, p)
    ensures q !in Children(t, p)
  {
  }

  lemma NewChildZombies(t: Table, c: nat, q: nat, pid: nat, p: nat)
    requires q < NPROC
    ensures HasZombieChild(NewChild(t, c, q, pid), p) ==> HasZombieChild(t, p)
  {
    var t' := NewChild(t, c, q, pid);
    if HasZombieChild(t', p) {
      var r :| 0 <= r < NPROC && t'[r].parent == p && t'[r].state == ZOMBIE;
      assert t[r].parent == p;
    }
  }

  /** A new child of the running process keeps the invariant, with one more fork counted. */
  lemma ForkKeepsInv(t: Table, init: nat, c: nat, nextpid: nat, h: History, q: nat)
    requires Inv(t, init, c, nextpid, h) && c < NPROC && q < NPROC && t[q].state == UNUSED
    ensures Inv(NewChild(t, c, q, nextpid), init, c, nextpid + 1, Born(h, c, q, nextpid))
  {
    var t', h' := NewChild(t, c, q, nextpid), Born(h, c, q, nextpid);
    assert t[c].state == RUNNING;
    assert HasPlace(t, init, q);
    UnusedHasNoChildren(t, init, q);
    forall p | 0 <= p < NPROC
      ensures HasPlace(t', init, p) && SleepsRightly(t', p) && InAge(t', init, h'.births, p)
              && IsCounted(t', init, h', p)
    {
      ForkedAt(t, init, c, nextpid, h, q, p);
    }
    NamedUpdate(t, nextpid, q, t'[q], nextpid + 1);
    FlagsBorn(t, c, nextpid, h.log, q);
  }

  lemma ForkedAt(t: Table, init: nat, c: nat, nextpid: nat, h: History, q: nat, p: nat)
    requires Inv(t, init, c, nextpid, h) && c < NPROC && q < NPROC && t[q].state == UNUSED && p < NPROC
    requires t[c].state == RUNNING && t[q].parent == NONE && Children(t, q) == {}
    ensures var t', h' := NewChild(t, c, q, nextpid), Born(h, c, q, nextpid);
            && HasPlace(t', init, p) && SleepsRightly(t', p)
            && InAge(t', init, h'.births, p) && IsCounted(t', init, h', p)
  {
    assert HasPlace(t, init, p) && SleepsRightly(t, p) && InAge(t, init, h.births, p) && IsCounted(t, init, h, p);
    assert InAge(t, init, h.births, c);
    NewChildChildren(t, c, q, nextpid, p);
    NewChildZombies(t, c, q, nextpid, p);
    assert p !in Children(t, q);
  }

  // ----- wait reaps a zombie -----

  function Reaped(h: History, c: nat, q: nat): History
    requires h.Sized() && c < NPROC
  {
    h.(waits := h.waits[c := h.waits[c] + 1], log := h.log + [Reap(q)])
  }

  function Freed(t: Table, q: nat): Table
    requires q < NPROC
  {
    t[q := Proc(UNUSED, 0, NONE, t[q].chan, false)]
  }

  /** Reaping a zombie child keeps the invariant, with one more wait counted. */
  lemma ReapKeepsInv(t: Table, init: nat, c: nat, nextpid: nat, h: History, q: nat)
    requires Inv(t, init, c, nextpid, h) && c < NPROC && q < NPROC
    requires t[q].parent == c && t[q].state == ZOMBIE
    ensures Inv(Freed(t, q), init, c, nextpid, Reaped(h, c, q))
  {
    var t', h' := Freed(t, q), Reaped(h, c, q);
    assert t[c].state == RUNNING;
    UnusedHasNoChildren(t, init, q);
    forall p | 0 <= p < NPROC
      ensures HasPlace(t', init, p) && SleepsRightly(t', p) && InAge(t', init, h'.births, p)
              && IsCounted(t', init, h', p)
    {
      ReapedAt(t, init, c, nextpid, h, q, p);
    }
    NamedUpdate(t, nextpid, q, t'[q], nextpid);
    FlagsFreed(t, nextpid, h.log, q);
  }

  lemma ReapedAt(t: Table, init: nat, c: nat, nextpid: nat, h: History, q: nat, p: nat)
    requires Inv(t, init, c, nextpid, h) && c < NPROC && q < NPROC && p < NPROC
    requires t[q].parent == c && t[q].state == ZOMBIE && t[c].state == RUNNING && Children(t, q) == {}
    ensures var t', h' := Freed(t, q), Reaped(h, c, q);
            && HasPlace(t', init, p) && SleepsRightly(t', p)
            && InAge(t', init, h'.births, p) && IsCounted(t', init, h', p)
  {
    assert HasPlace(t, init, p) && SleepsRightly(t, p) && InAge(t, init, h.births, p) && IsCounted(t, init, h, p);
    var t' := Freed(t, q);
    assert Children(t', p) == if p == c then Children(t, p) - {q} else Children(t, p);
    assert q in Children(t, c);
    FreedZombies(t, q, p);
    assert p !in Children(t, q);
  }

  lemma FreedZombies(t: Table, q: nat, p: nat)
    requires q < NPROC
    ensures HasZombieChild(Freed(t, q), p) ==> HasZombieChild(t, p)
  {
    var t' := Freed(t, q);
    if HasZombieChild(t', p) {
      var r :| 0 <= r < NPROC && t'[r].parent == p && t'[r].state == ZOMBIE;
      assert t[r].parent == p;
    }
  }

  // ----- exit -----

  /** Pass the children of c to init. */
  function Reparented(t: Table, c: nat, init: nat): (r: Table)
    ensures forall p :: 0 <= p < NPROC ==> r[p] == if t[p].parent == c then t[p].(parent := init) else t[p]
  {
    seq(NPROC, p requires 0 <= p < NPROC => if t[p].parent == c then t[p].(parent := init) else t[p])
  }

  /** exit on the table: wake the parent, give the children to init, wake init if one of them is a zombie, and
      become a zombie. */
  ghost function Exited(t: Table, c: nat, init: nat): Table
    requires c < NPROC && t[c].parent >= 0
  {
    var a := Woken(t, OnProc(t[c].parent));
    var b := Reparented(a, c, init);
    var d := if HasZombieChild(a, c) then Woken(b, OnProc(init)) else b;
    d[c := d[c].(state := ZOMBIE)]
  }

  /** Where each slot of the table ends up. */
  lemma ExitedAt(t: Table, c: nat, init: nat, p: nat)
    requires c < NPROC && t[c].parent >= 0 && p < NPROC
    ensures var r := Exited(t, c, init)[p];
            && r.pid == t[p].pid && r.chan == t[p].chan && r.killed == t[p].killed
            && r.parent == (if t[p].parent == c then init else t[p].parent)
            && (p == c ==> r.state == ZOMBIE)
            && (p != c ==> r.state == t[p].state || (t[p].state == SLEEPING && r.state == RUNNABLE))
            && (p != c && r.state == SLEEPING ==> t[p].chan != OnProc(t[c].parent))
            && (p != c && r.state == SLEEPING && HasZombieChild(t, c) ==> t[p].chan != OnProc(init))
  {
    var a := Woken(t, OnProc(t[c].parent));
    assert SameLives(t, a);
    SameLivesSameFamily(t, a, c);
  }

  lemma ExitedChildren(t: Table, c: nat, init: nat, p: nat)
    requires c < NPROC && t[c].parent >= 0 && init < NPROC && init != c
    ensures Children(Exited(t, c, init), p) ==
              if p == c then {} else if p == init then Children(t, init) + Children(t, c) else Children(t, p)
  {
    var t' := Exited(t, c, init);
    forall q | 0 <= q < NPROC
      ensures t'[q].parent == (if t[q].parent == c then init else t[q].parent)
    {
      ExitedAt(t, c, init, q);
    }
  }

  /** Nobody left asleep in wait has a zombie child. */
  lemma ExitedWaiter(t: Table, init: nat, c: nat, p: nat, q: nat)
    requires Family(t, init) && NoLostWakeup(t) && c < NPROC && c != init && t[c].parent >= 0 && t[c].parent != c
    requires p < NPROC && q < NPROC && WaitsForChild(Exited(t, c, init), p) && Exited(t, c, init)[q].parent == p
    ensures Exited(t, c, init)[q].state != ZOMBIE
  {
    hide Exited;
    ExitedAt(t, c, init, p);
    ExitedAt(t, c, init, q);
    assert SleepsRightly(t, p);
    ZombieIsAChild(t, q, c);
    ZombieIsAChild(t, q, p);
  }

  lemma ZombieIsAChild(t: Table, q: nat, p: nat)
    requires q < NPROC
    ensures t[q].state == ZOMBIE && t[q].parent == p ==> HasZombieChild(t, p)
  {
  }

  lemma ExitedSleep(t: Table, init: nat, c: nat, p: nat)
    requires Family(t, init) && NoLostWakeup(t) && c < NPROC && c != init && t[c].parent >= 0 && t[c].parent != c
             && p < NPROC
    ensures SleepsRightly(Exited(t, c, init), p)
  {
    hide Exited;
    ExitedAt(t, c, init, p);
    assert SleepsRightly(t, p);
    ExitedChildren(t, c, init, p);
    var t' := Exited(t, c, init);
    if WaitsForChild(t', p) {
      forall q | 0 <= q < NPROC && t'[q].parent == p
        ensures t'[q].state != ZOMBIE
      {
        ExitedWaiter(t, init, c, p, q);
      }
    }
  }

  lemma ExitedPlace(t: Table, init: nat, h: History, c: nat, p: nat)
    requires Family(t, init) && Older(t, init, h.births) && Counted(t, init, h)
    requires c < NPROC && c != init && t[c].state == RUNNING && t[c].parent >= 0 && p < NPROC
    ensures var t' := Exited(t, c, init);
            HasPlace(t', init, p) && InAge(t', init, h.births, p) && IsCounted(t', init, h, p)
  {
    hide Exited;
    ExitedAt(t, c, init, p);
    ExitedAt(t, c, init, init);
    ExitedChildren(t, c, init, p);
    assert HasPlace(t, init, p) && InAge(t, init, h.births, p) && IsCounted(t, init, h, p);
    if t[p].state != UNUSED && p != init && t[p].parent != c { ExitedAt(t, c, init, t[p].parent); }
  }

  /** exit keeps the invariant. */
  lemma ExitKeepsInv(t: Table, init: nat, c: nat, nextpid: nat, h: History)
    requires Inv(t, init, c, nextpid, h) && c < NPROC && c != init
    ensures t[c].parent >= 0 && Inv(Exited(t, c, init), init, NONE, nextpid, h)
  {
    hide Exited;
    assert HasPlace(t, init, c) && InAge(t, init, h.births, c) && t[c].state == RUNNING;
    var t' := Exited(t, c, init);
    forall p | 0 <= p < NPROC
      ensures HasPlace(t', init, p) && SleepsRightly(t', p) && InAge(t', init, h.births, p) && IsCounted(t', init, h, p)
      ensures t'[p].pid == t[p].pid && t'[p].state != RUNNING && (t'[p].state != UNUSED <==> t[p].state != UNUSED)
      ensures t'[p].killed == t[p].killed
    {
      ExitedAt(t, c, init, p);
      ExitedSleep(t, init, c, p);
      ExitedPlace(t, init, h, c, p);
    }
    ExitedAt(t, c, init, init);
    assert t'[init].parent == NONE;
    FlagsKept(t, t', nextpid, nextpid, h.log);
  }
}
