/** The operations of src/proc.c on the process table, each a stretch that holds ptable.lock on the one CPU:
    from being scheduled until giving up the CPU, or until returning from a system call. */
module Proc {
  import opened Params
  import opened ProcTable
  import opened Wrappers

  /** How one pass of wait's loop ends. */
  datatype WaitResult = Reaped(pid: nat) | NoChildren | WaiterSleeps

  lemma InvSized(t: Table, init: nat, current: int, nextpid: nat, h: History)
    requires Inv(t, init, current, nextpid, h)
    ensures h.Sized() && init < NPROC && (0 <= current < NPROC ==> t[current].state == RUNNING)
  {
  }

  // ----- exit's loop over its children -----

  function GivenAway(a: Table, c: nat, init: nat, n: nat): (r: Table)
    ensures forall p :: 0 <= p < NPROC ==>
              r[p] == if p < n && a[p].parent == c then a[p].(parent := init) else a[p]
  {
    seq(NPROC, p requires 0 <= p < NPROC => if p < n && a[p].parent == c then a[p].(parent := init) else a[p])
  }

  ghost predicate ZombieAmong(a: Table, c: nat, n: nat) {
    exists q :: 0 <= q < n && q < NPROC && a[q].parent == c && a[q].state == ZOMBIE
  }

  /** The table after exit has looked at n slots. */
  ghost function PassedOn(a: Table, c: nat, init: nat, n: nat): Table {
    var b := GivenAway(a, c, init, n);
    if ZombieAmong(a, c, n) then Woken(b, OnProc(init)) else b
  }

  lemma PassOnNext(a: Table, c: nat, init: nat, n: nat)
    requires n < NPROC && init < NPROC
    ensures var b := PassedOn(a, c, init, n);
            && b[n].parent == a[n].parent && (b[n].state == ZOMBIE <==> a[n].state == ZOMBIE)
            && (a[n].parent != c ==> PassedOn(a, c, init, n + 1) == b)
            && (a[n].parent == c && a[n].state != ZOMBIE ==>
                  PassedOn(a, c, init, n + 1) == b[n := b[n].(parent := init)])
            && (a[n].parent == c && a[n].state == ZOMBIE ==>
                  PassedOn(a, c, init, n + 1) == Woken(b[n := b[n].(parent := init)], OnProc(init)))
  {
    assert a[n].parent == c && a[n].state == ZOMBIE ==> ZombieAmong(a, c, n + 1);
    assert ZombieAmong(a, c, n) ==> ZombieAmong(a, c, n + 1);
    assert ZombieAmong(a, c, n + 1) && !(a[n].parent == c && a[n].state == ZOMBIE) ==> ZombieAmong(a, c, n);
    PassOnCases(a, c, init, n);
  }

  lemma PassOnCases(a: Table, c: nat, init: nat, n: nat)
    requires n < NPROC && init < NPROC
    requires ZombieAmong(a, c, n + 1) <==> ZombieAmong(a, c, n) || (a[n].parent == c && a[n].state == ZOMBIE)
    ensures var b := PassedOn(a, c, init, n);
            && (a[n].parent != c ==> PassedOn(a, c, init, n + 1) == b)
            && (a[n].parent == c && a[n].state != ZOMBIE ==>
                  PassedOn(a, c, init, n + 1) == b[n := b[n].(parent := init)])
            && (a[n].parent == c && a[n].state == ZOMBIE ==>
                  PassedOn(a, c, init, n + 1) == Woken(b[n := b[n].(parent := init)], OnProc(init)))
  {
    hide ZombieAmong;
  }

  lemma PassedOnAll(a: Table, c: nat, init: nat)
    requires init < NPROC
    ensures PassedOn(a, c, init, NPROC) ==
              if HasZombieChild(a, c) then Woken(Reparented(a, c, init), OnProc(init)) else Reparented(a, c, init)
  {
    assert GivenAway(a, c, init, NPROC) == Reparented(a, c, init);
    if HasZombieChild(a, c) {
      var q :| 0 <= q < NPROC && a[q].parent == c && a[q].state == ZOMBIE;
      assert ZombieAmong(a, c, NPROC);
    }
  }

  // ----- wait's search -----

  lemma KidsFound(t: Table, c: nat, havekids: bool)
    requires havekids <==> exists q :: 0 <= q < NPROC && t[q].parent == c
    requires forall q :: 0 <= q < NPROC && t[q].parent == c ==> t[q].state != ZOMBIE
    ensures havekids <==> Children(t, c) != {}
    ensures !HasZombieChild(t, c)
  {
    if havekids {
      var q :| 0 <= q < NPROC && t[q].parent == c;
      assert q in Children(t, c);
    }
  }

  lemma SleepSelf(t: Table, init: nat, c: nat, nextpid: nat, h: History)
    requires Inv(t, init, c, nextpid, h) && c < NPROC && Children(t, c) != {} && !HasZombieChild(t, c)
    ensures Inv(t[c := t[c].(state := SLEEPING, chan := OnProc(c))], init, NONE, nextpid, h)
  {
    AliveUpdate(t, init, c, nextpid, h, c, t[c].(state := SLEEPING, chan := OnProc(c)), NONE);
  }

  ghost predicate FirstUnused(t: Table, q: nat) {
    q < NPROC && t[q].state == UNUSED && forall p :: 0 <= p < q ==> t[p].state != UNUSED
  }

  /** fork fails: at once without a free slot, else leaving a pid in the first. */
  ghost predicate NoChild(t: Table, t': Table, nextpid: nat, nextpid': nat) {
    if forall q: nat :: !FirstUnused(t, q) then t' == t && nextpid' == nextpid
    else nextpid' == nextpid + 1 && exists q: nat :: FirstUnused(t, q) && t' == t[q := t[q].(pid := nextpid)]
  }

  class Ptable {
    var procs: Table
    var current: int      // the running process, or NONE in the scheduler
    var nextpid: nat
    const initproc: nat

    ghost var h: History

    ghost predicate Valid()
      reads this
    {
      Inv(procs, initproc, current, nextpid, h)
    }

    /** userinit: the first process, and nothing else. */
    constructor ()
      ensures Valid() && current == NONE && initproc == 0 && nextpid == 2 && h.log == [Birth(0, 1)]
      ensures procs[0] == Proc(RUNNABLE, 1, NONE, NoChan, false)
      ensures forall p :: 1 <= p < NPROC ==> procs[p] == Proc(UNUSED, 0, NONE, NoChan, false)
    {
      var t: Table := seq(NPROC, i => Proc(UNUSED, 0, NONE, NoChan, false));
      procs := t[0 := Proc(RUNNABLE, 1, NONE, NoChan, false)];
      current, nextpid, initproc := NONE, 2, 0;
      h := History(seq(NPROC, i => i), seq(NPROC, i => 0), seq(NPROC, i => 0), [Birth(0, 1)]);
      new;
      hide Inv;
      FirstInv(procs, h);
    }

    /** wakeup1's loop over the table. */
    method Wakeup1(chan: Chan)
      modifies this`procs
      ensures procs == Woken(old(procs), chan)
    {
      var p := 0;
      while p < NPROC
        invariant 0 <= p <= NPROC
        invariant forall q :: 0 <= q < NPROC ==> procs[q] == if q < p then Woken(old(procs), chan)[q] else old(procs)[q]
      {
        if procs[p].state == SLEEPING && procs[p].chan == chan {
          procs := procs[p := procs[p].(state := RUNNABLE)];
        }
        p := p + 1;
      }
    }

    /** wakeup of a channel. */
    method Wakeup(chan: Chan)
      requires Valid()
      modifies this`procs
      ensures Valid() && procs == Woken(old(procs), chan)
    {
      hide Inv;
      WokenKeepsInv(procs, initproc, current, nextpid, h, chan);
      Wakeup1(chan);
    }

    /** allocproc's search for a free slot. */
    method FindUnused() returns (r: Option<nat>)
      ensures r.Some? ==> FirstUnused(procs, r.value)
      ensures r.None? ==> forall q :: 0 <= q < NPROC ==> procs[q].state != UNUSED
    {
      var p := 0;
      while p < NPROC
        invariant 0 <= p <= NPROC && forall q :: 0 <= q < p ==> procs[q].state != UNUSED
      {
        if procs[p].state == UNUSED {
          return Some(p);
        }
        p := p + 1;
      }
      return None;
    }

    /** fork: fails without a free slot, or when the kernel stack or the address space cannot be allocated;
        otherwise the running process has one more child, runnable and with a new pid. */
    method Fork(kstackOk: bool, copyOk: bool) returns (pid: Option<nat>)
      requires Valid() && 0 <= current < NPROC
      modifies this`procs, this`nextpid, this`h
      ensures Valid() && current == old(current)
      ensures pid.None? <==> !(kstackOk && copyOk) || forall q :: 0 <= q < NPROC ==> old(procs)[q].state != UNUSED
      ensures pid.Some? ==>
                && pid.value == old(nextpid) && nextpid == old(nextpid) + 1
                && exists q: nat :: FirstUnused(old(procs), q)
                     && procs == NewChild(old(procs), current, q, pid.value) && h == Born(old(h), current, q, pid.value)
      ensures pid.None? ==>
                h == old(h) && NoChild(old(procs), procs, old(nextpid), nextpid)
    {
      hide Inv;
      var slot := FindUnused();
      if slot.None? {
        return None;
      }
      var q := slot.value;
      ghost var t0 := procs;
      procs := procs[q := procs[q].(state := EMBRYO, pid := nextpid)];
      pid := Some(nextpid);
      nextpid := nextpid + 1;
      if !kstackOk || !copyOk {
        FailedFork(t0, initproc, current, nextpid - 1, h, q);
        procs := procs[q := procs[q].(state := UNUSED)];
        assert procs == t0[q := t0[q].(pid := nextpid - 1)];
        return None;
      }
      ForkKeepsInv(t0, initproc, current, nextpid - 1, h, q);
      InvSized(t0, initproc, current, nextpid - 1, h);
      procs := procs[q := procs[q].(parent := current)];
      procs := procs[q := procs[q].(state := RUNNABLE)];
      assert procs == NewChild(t0, current, q, nextpid - 1);
      h := Born(h, current, q, nextpid - 1);
    }

    /** exit of a process other than init: it never runs again until reaped. */
    method Exit()
      requires Valid() && 0 <= current < NPROC && current != initproc
      modifies this`procs, this`current
      ensures Valid() && current == NONE
      ensures old(procs)[old(current)].parent >= 0 && procs == Exited(old(procs), old(current), initproc)
    {
      hide Inv;
      ghost var t0 := procs;
      ExitKeepsInv(procs, initproc, current, nextpid, h);
      InvSized(procs, initproc, current, nextpid, h);
      Wakeup1(OnProc(procs[current].parent));
      PassedOnAll(procs, current, initproc);
      PassOnChildren();
      procs := procs[current := procs[current].(state := ZOMBIE)];
      current := NONE;
    }

    /** exit's loop: pass abandoned children to init. */
    method PassOnChildren()
      requires 0 <= current < NPROC && initproc < NPROC
      modifies this`procs
      ensures procs == PassedOn(old(procs), current, initproc, NPROC)
    {
      ghost var a := procs;
      assert PassedOn(a, current, initproc, 0) == a;
      hide PassedOn;
      var p := 0;
      while p < NPROC
        invariant 0 <= p <= NPROC
        invariant procs == PassedOn(a, current, initproc, p)
      {
        PassOnNext(a, current, initproc, p);
        if procs[p].parent == current {
          procs := procs[p := procs[p].(parent := initproc)];
          if procs[p].state == ZOMBIE {
            Wakeup1(OnProc(initproc));
          }
        }
        p := p + 1;
      }
    }

    /** One pass of wait: reap a zombie child if there is one; return -1 without children, or if killed; else
        sleep on the process's own address. */
    method Wait() returns (r: WaitResult)
      requires Valid() && 0 <= current < NPROC
      modifies this`procs, this`current, this`h
      ensures Valid()
      ensures r.Reaped? <==> HasZombieChild(old(procs), old(current))
      ensures r.NoChildren? <==>
                !r.Reaped? && (Children(old(procs), old(current)) == {} || old(procs)[old(current)].killed)
      ensures match r
              case Reaped(pid) =>
                && current == old(current)
                && exists q :: 0 <= q < NPROC && old(procs)[q].parent == current && old(procs)[q].state == ZOMBIE
                     && pid == old(procs)[q].pid && procs == Freed(old(procs), q)
                     && h == ProcTable.Reaped(old(h), current, q)
              case NoChildren => procs == old(procs) && current == old(current) && h == old(h)
              case WaiterSleeps =>
                && current == NONE && h == old(h)
                && procs == old(procs)[old(current) :=
                     old(procs)[old(current)].(state := SLEEPING, chan := OnProc(old(current)))]
    {
      hide Inv;
      InvSized(procs, initproc, current, nextpid, h);
      var havekids := false;
      var p := 0;
      while p < NPROC
        invariant 0 <= p <= NPROC && procs == old(procs) && h == old(h)
        invariant havekids <==> exists q :: 0 <= q < p && procs[q].parent == current
        invariant forall q :: 0 <= q < p && procs[q].parent == current ==> procs[q].state != ZOMBIE
      {
        if procs[p].parent == current {
          havekids := true;
          if procs[p].state == ZOMBIE {
            ReapKeepsInv(procs, initproc, current, nextpid, h, p);
            var pid := procs[p].pid;
            procs := procs[p := procs[p].(state := UNUSED)];
            procs := procs[p := procs[p].(pid := 0, parent := NONE, killed := false)];
            h := ProcTable.Reaped(h, current, p);
            assert procs == Freed(old(procs), p);
            return WaitResult.Reaped(pid);
          }
        }
        p := p + 1;
      }
      KidsFound(procs, current, havekids);
      if !havekids || procs[current].killed {
        return NoChildren;
      }
      SleepSelf(procs, initproc, current, nextpid, h);
      procs := procs[current := procs[current].(state := SLEEPING, chan := OnProc(current))];
      current := NONE;
      return WaiterSleeps;
    }

    /** The scheduler runs a runnable process, which tidies up the channel it slept on. */
    method Run(p: nat)
      requires Valid() && current == NONE && p < NPROC && procs[p].state == RUNNABLE
      modifies this`procs, this`current
      ensures Valid() && current == p && procs == old(procs)[p := old(procs[p]).(state := RUNNING, chan := NoChan)]
    {
      AliveUpdate(procs, initproc, current, nextpid, h, p, procs[p].(state := RUNNING, chan := NoChan), p);
      procs := procs[p := procs[p].(state := RUNNING, chan := NoChan)];
      current := p;
    }

    /** yield */
    method Yield()
      requires Valid() && 0 <= current < NPROC
      modifies this`procs, this`current
      ensures Valid() && current == NONE && procs == old(procs)[old(current) := old(procs[current]).(state := RUNNABLE)]
    {
      AliveUpdate(procs, initproc, current, nextpid, h, current, procs[current].(state := RUNNABLE), NONE);
      procs := procs[current := procs[current].(state := RUNNABLE)];
      current := NONE;
    }

    /** sleep on a channel that is not a process. */
    method Sleep(id: nat)
      requires Valid() && 0 <= current < NPROC
      modifies this`procs, this`current
      ensures Valid() && current == NONE
      ensures procs == old(procs)[old(current) := old(procs[current]).(state := SLEEPING, chan := OnOther(id))]
    {
      AliveUpdate(procs, initproc, current, nextpid, h, current,
                  procs[current].(state := SLEEPING, chan := OnOther(id)), NONE);
      procs := procs[current := procs[current].(state := SLEEPING, chan := OnOther(id))];
      current := NONE;
    }

    /** kill: the first slot with the pid, a process's or a free one's, is marked, and a sleeper made runnable. */
    method Kill(pid: int) returns (found: bool)
      requires Valid()
      modifies this`procs, this`h
      ensures Valid()
      ensures found <==> exists q :: 0 <= q < NPROC && old(procs)[q].pid == pid
      ensures !found ==> unchanged(this)
      ensures found ==>
                exists q :: 0 <= q < NPROC && old(procs)[q].pid == pid
                  && (forall p :: 0 <= p < q ==> old(procs)[p].pid != pid)
                  && procs == Marked(old(procs), q) && h == Struck(old(h), q, pid)
    {
      hide Inv;
      var p := 0;
      while p < NPROC
        invariant 0 <= p <= NPROC && unchanged(this) && forall q :: 0 <= q < p ==> procs[q].pid != pid
      {
        if procs[p].pid == pid {
          KillKeepsInv(procs, initproc, current, nextpid, h, p);
          procs := procs[p := procs[p].(killed := true)];
          if procs[p].state == SLEEPING {
            procs := procs[p := procs[p].(state := RUNNABLE)];
          }
          assert procs == Marked(old(procs), p);
          h := Struck(h, p, pid);
          return true;
        }
        p := p + 1;
      }
      return false;
    }

    /** A living process: another slot cannot have its pid. */
    lemma OnlyOne(p: nat, q: nat)
      requires Valid() && p < NPROC && q < NPROC && procs[p].state != UNUSED && procs[q].pid == procs[p].pid
      ensures p == q
    {
    }
  }

  /** A process that is killed from birth: its slot kept the pid of a fork that failed, and kill found that. */
  method BornKilled() returns (pt: Ptable, q: nat)
    ensures pt.Valid() && q < NPROC && pt.procs[q].state == RUNNABLE && pt.procs[q].killed
    ensures pt.procs[q].pid !in HitPids(pt.h.log)
  {
    hide Inv, HitPids, HitSinceReap, HitWhileFree;
    pt := new Ptable();
    pt.Run(0);
    ghost var t0 := pt.procs;
    assert FirstUnused(t0, 1);
    var failed := pt.Fork(false, true);
    assert pt.procs == t0[1 := t0[1].(pid := 2)];
    ghost var t1 := pt.procs;
    assert t1[1].pid == 2 && t1[0].pid == 1;
    var found := pt.Kill(2);
    assert pt.procs == Marked(t1, 1);
    ghost var t2 := pt.procs;
    assert FirstUnused(t2, 1);
    var pid := pt.Fork(true, true);
    assert pt.procs == NewChild(t2, 0, 1, 3);
    q := 1;
    assert pt.h.log == [Birth(0, 1)] + [Hit(1, 2)] + [Birth(1, 3)];
    OnlyTwo();
  }

  lemma OnlyTwo()
    ensures HitPids([Birth(0, 1)] + [Hit(1, 2)] + [Birth(1, 3)]) == {2}
  {
    NextEvent([], Birth(0, 1), 0);
    NextEvent([Birth(0, 1)], Hit(1, 2), 0);
    NextEvent([Birth(0, 1)] + [Hit(1, 2)], Birth(1, 3), 0);
  }
}
