/**
 * What a transaction asks of the buffer cache: which sectors it reads into buffers, logs and releases, in order.
 * A buffer cannot be recycled while somebody holds it, nor while its sector is logged and not yet committed.
 */
module BufTrace {
  import opened Params
  import opened LogDisk
  import opened LogCrash

  /** bread of a sector, log_write of a held buffer with its new contents, brelse. */
  datatype Step = Fetch(s: nat) | Put(w: Write) | Drop(s: nat)

  type Trace = seq<Step>

  function LogsOf(t: Trace): Txn {
    if t == [] then []
    else
      var before, st := LogsOf(t[..|t| - 1]), t[|t| - 1];
      if st.Put? then before + [st.w] else before
  }

  function HeldThen(held: set<nat>, st: Step): set<nat> {
    if st.Fetch? then held + {st.s} else if st.Drop? then held - {st.s} else held
  }

  ghost function HeldBy(t: Trace): set<nat> {
    if t == [] then {} else HeldThen(HeldBy(t[..|t| - 1]), t[|t| - 1])
  }

  /** The sectors whose buffers are held or pinned. */
  ghost function TakenUp(t: Trace): set<nat> {
    HeldBy(t) + SectorsOf(LogsOf(t))
  }

  /** No process waits for a buffer it holds itself, and it logs and releases only what it holds. */
  ghost predicate StepOk(held: set<nat>, st: Step) {
    if st.Put? then st.w.sector in held else st.s in held <==> st.Drop?
  }

  ghost predicate Proper(t: Trace) {
    forall k :: 0 <= k < |t| ==> StepOk(HeldBy(t[..k]), t[k])
  }

  /** The buffers that must exist for a step: those taken up, and the one asked for, which is a log block's for
      log_write. */
  ghost predicate StepFits(taken: set<nat>, st: Step, n: nat) {
    if st.Fetch? then |taken + {st.s}| <= n else st.Put? ==> |taken| + 1 <= n
  }

  /** With n buffers bget always finds one. */
  ghost predicate Fits(t: Trace, n: nat) {
    forall k :: 0 <= k < |t| ==> StepFits(TakenUp(t[..k]), t[k], n)
  }

  /** Whenever a buffer is asked for, only sectors of x are taken up. */
  ghost predicate AsksInside(t: Trace, x: set<nat>) {
    forall k :: 0 <= k < |t| && !t[k].Drop? ==> TakenUp(t[..k]) <= x
  }

  /** Nothing is held while a buffer is asked for but what is, or will be, logged. */
  ghost predicate Lean(t: Trace) {
    AsksInside(t, TakenUp(t))
  }

  /** Lean, and reading no sector from hi on. */
  ghost predicate Tame(t: Trace, hi: int) {
    Lean(t) && ReadsBelow(t, hi)
  }

  ghost predicate ReadsBelow(t: Trace, hi: int) {
    forall k :: 0 <= k < |t| && t[k].Fetch? ==> t[k].s < hi
  }

  ghost predicate Tracked(t: Trace, txn: Txn, held: set<nat>) {
    LogsOf(t) == txn && HeldBy(t) == held && Proper(t)
  }

  // ----- one more step -----

  lemma OneStep(t: Trace, st: Step)
    ensures LogsOf(t + [st]) == if st.Put? then LogsOf(t) + [st.w] else LogsOf(t)
    ensures HeldBy(t + [st]) == HeldThen(HeldBy(t), st)
  {
    assert (t + [st])[..|t|] == t;
  }

  lemma ProperNext(t: Trace, st: Step)
    requires Proper(t) && StepOk(HeldBy(t), st)
    ensures Proper(t + [st])
  {
    var t' := t + [st];
    forall k | 0 <= k < |t'| ensures StepOk(HeldBy(t'[..k]), t'[k]) {
      assert t'[..k] == t[..k];
      if k == |t| { assert t[..k] == t; }
    }
  }

  lemma AsksNext(t: Trace, st: Step, x: set<nat>, x': set<nat>)
    requires AsksInside(t, x) && x <= x' && (st.Drop? || TakenUp(t) <= x')
    ensures AsksInside(t + [st], x')
  {
    var t' := t + [st];
    forall k | 0 <= k < |t'| && !t'[k].Drop? ensures TakenUp(t'[..k]) <= x' {
      assert t'[..k] == t[..k];
      if k == |t| { assert t[..k] == t; }
    }
  }

  lemma ReadsJoin(t: Trace, x: Trace, hi: int)
    requires ReadsBelow(t, hi) && ReadsBelow(x, hi)
    ensures ReadsBelow(t + x, hi)
  {
  }

  /** bread and hold. */
  lemma Fetched(t: Trace, txn: Txn, held: set<nat>, s: nat, hi: int)
    requires Tracked(t, txn, held) && s !in held
    ensures Tracked(t + [Fetch(s)], txn, held + {s}) && (Tame(t, hi) && s < hi ==> Tame(t + [Fetch(s)], hi))
  {
    hide HeldBy, LogsOf, Proper, AsksInside, SectorsOf;
    OneStep(t, Fetch(s));
    ProperNext(t, Fetch(s));
    if Lean(t) { AsksNext(t, Fetch(s), TakenUp(t), TakenUp(t + [Fetch(s)])); }
  }

  /** log_write of a held buffer. */
  lemma Noted(t: Trace, txn: Txn, held: set<nat>, w: Write, hi: int)
    requires Tracked(t, txn, held) && w.sector in held
    ensures Tracked(t + [Put(w)], txn + [w], held) && (Tame(t, hi) ==> Tame(t + [Put(w)], hi))
  {
    hide HeldBy, LogsOf, Proper, AsksInside, SectorsOf;
    OneStep(t, Put(w));
    ProperNext(t, Put(w));
    SectorsSnoc(txn, w);
    if Lean(t) { AsksNext(t, Put(w), TakenUp(t), TakenUp(t + [Put(w)])); }
  }

  /** brelse: of a logged buffer it leaves the trace lean. */
  lemma Dropped(t: Trace, txn: Txn, held: set<nat>, s: nat, hi: int)
    requires Tracked(t, txn, held) && s in held
    ensures Tracked(t + [Drop(s)], txn, held - {s})
    ensures Tame(t, hi) && s in SectorsOf(txn) ==> Tame(t + [Drop(s)], hi)
  {
    hide HeldBy, LogsOf, Proper, AsksInside, SectorsOf;
    OneStep(t, Drop(s));
    ProperNext(t, Drop(s));
    if Lean(t) && s in SectorsOf(txn) { AsksNext(t, Drop(s), TakenUp(t), TakenUp(t + [Drop(s)])); }
  }

  /** A sector that is only looked at. */
  function Peek(s: nat): Trace { [Fetch(s), Drop(s)] }

  lemma Peeked(t: Trace, txn: Txn, held: set<nat>, s: nat, hi: int)
    requires Tracked(t, txn, held) && s !in held
    ensures Tracked(t + Peek(s), txn, held) && (Tame(t, hi) && s < hi ==> Tame(t + Peek(s), hi))
  {
    hide HeldBy, LogsOf, Proper, AsksInside, SectorsOf, ReadsBelow;
    var t1 := t + [Fetch(s)];
    OneStep(t, Fetch(s));
    ProperNext(t, Fetch(s));
    OneStep(t1, Drop(s));
    ProperNext(t1, Drop(s));
    assert t + Peek(s) == t1 + [Drop(s)];
    assert held + {s} - {s} == held;
    if Tame(t, hi) && s < hi { TamePeek(t, s, hi); }
  }

  lemma TamePeek(t: Trace, s: nat, hi: int)
    requires Tame(t, hi) && s < hi && s !in HeldBy(t)
    ensures Tame(t + Peek(s), hi)
  {
    hide HeldBy, LogsOf, AsksInside, SectorsOf;
    var t1 := t + [Fetch(s)];
    OneStep(t, Fetch(s));
    OneStep(t1, Drop(s));
    assert t + Peek(s) == t1 + [Drop(s)];
    AsksNext(t, Fetch(s), TakenUp(t), TakenUp(t));
    AsksNext(t1, Drop(s), TakenUp(t), TakenUp(t));
    assert HeldBy(t) + {s} - {s} == HeldBy(t);
    assert ReadsBelow(Peek(s), hi);
    ReadsJoin(t, Peek(s), hi);
  }

  /** A sector that is read, changed, logged and released. */
  function Change(w: Write): Trace { [Fetch(w.sector), Put(w), Drop(w.sector)] }

  lemma Changed(t: Trace, txn: Txn, held: set<nat>, w: Write, hi: int)
    requires Tracked(t, txn, held) && w.sector !in held
    ensures Tracked(t + Change(w), txn + [w], held) && (Tame(t, hi) && w.sector < hi ==> Tame(t + Change(w), hi))
  {
    hide *;
    var s := w.sector;
    var t1 := t + [Fetch(s)];
    var t2 := t1 + [Put(w)];
    Fetched(t, txn, held, s, hi);
    Noted(t1, txn, held + {s}, w, hi);
    Dropped(t2, txn + [w], held + {s}, s, hi);
    LastSector(txn, w);
    assert held + {s} - {s} == held;
    ChangeIs(t, w);
  }

  lemma ChangeIs(t: Trace, w: Write)
    ensures t + Change(w) == t + [Fetch(w.sector)] + [Put(w)] + [Drop(w.sector)]
  {
  }

  lemma LastSector(txn: Txn, w: Write)
    ensures w.sector in SectorsOf(txn + [w])
  {
    SectorsSnoc(txn, w);
  }

  function PeekAll(ss: seq<nat>): Trace {
    if ss == [] then [] else PeekAll(ss[..|ss| - 1]) + Peek(ss[|ss| - 1])
  }

  lemma {:induction false} PeekedAll(t: Trace, txn: Txn, held: set<nat>, ss: seq<nat>, hi: int)
    requires Tracked(t, txn, held) && forall k :: 0 <= k < |ss| ==> ss[k] !in held && ss[k] < hi
    ensures Tracked(t + PeekAll(ss), txn, held) && (Tame(t, hi) ==> Tame(t + PeekAll(ss), hi))
    decreases |ss|
  {
    if ss == [] {
      assert t + [] == t;
    } else {
      var before, s := ss[..|ss| - 1], ss[|ss| - 1];
      hide Tracked, Tame, Peek;
      PeekedAll(t, txn, held, before, hi);
      Peeked(t + PeekAll(before), txn, held, s, hi);
      assert t + PeekAll(ss) == t + PeekAll(before) + Peek(s);
    }
  }

  // ----- how many buffers a lean transaction needs -----

  /** At the last log_write every sector of the transaction is taken up. */
  lemma {:induction false} LastPut(t: Trace) returns (k: nat)
    requires Proper(t) && LogsOf(t) != []
    ensures k < |t| && t[k].Put? && SectorsOf(LogsOf(t)) <= TakenUp(t[..k])
    decreases |t|
  {
    var before, st := t[..|t| - 1], t[|t| - 1];
    assert t == before + [st];
    OneStep(before, st);
    forall j | 0 <= j < |before| ensures before[..j] == t[..j] {
    }
    if st.Put? {
      k := |t| - 1;
      SectorsSnoc(LogsOf(before), st.w);
      assert StepOk(HeldBy(t[..k]), t[k]);
    } else {
      k := LastPut(before);
    }
  }

  /** A transaction that ends with nothing held and holds only what it logs needs exactly one buffer more than it
      logs sectors: "bget: no buffers" is dead if and only if they are fewer than the buffers. */
  lemma LeanNeeds(t: Trace, n: nat)
    requires Proper(t) && Lean(t) && HeldBy(t) == {} && n > 0
    ensures Fits(t, n) <==> |SectorsOf(LogsOf(t))| < n
  {
    var x := SectorsOf(LogsOf(t));
    assert TakenUp(t) == x;
    if |x| < n {
      forall k | 0 <= k < |t| ensures StepFits(TakenUp(t[..k]), t[k], n) {
        if !t[k].Drop? { AskFits(TakenUp(t[..k]), x, t[k], n); }
      }
    } else {
      assert SectorsOf([]) == {};
      var k := LastPut(t);
      Fewer(x, TakenUp(t[..k]));
      assert !StepFits(TakenUp(t[..k]), t[k], n);
    }
  }

  lemma AskFits(taken: set<nat>, x: set<nat>, st: Step, n: nat)
    requires taken <= x && |x| < n
    ensures StepFits(taken, st, n)
  {
    Fewer(taken, x);
    if st.Fetch? && st.s !in taken {
      assert |taken + {st.s}| == |taken| + 1;
    } else if st.Fetch? {
      assert taken + {st.s} == taken;
    }
  }

  /** What has been logged by step k. */
  lemma {:induction false} LogsPrefix(t: Trace, k: nat)
    requires k < |t|
    ensures LogsOf(t[..k]) <= LogsOf(t)
    ensures t[k].Put? ==> |LogsOf(t[..k])| < |LogsOf(t)| && LogsOf(t)[|LogsOf(t[..k])|] == t[k].w
    decreases |t|
  {
    var before := t[..|t| - 1];
    if k == |t| - 1 {
      assert t[..k] == before;
    } else {
      LogsPrefix(before, k);
      assert before[..k] == t[..k];
    }
  }

  lemma CommitFits(t: Trace, n: nat)
    requires Proper(t) && Fits(t, n) && n > 0
    ensures |SectorsOf(LogsOf(t))| < n
  {
    if LogsOf(t) == [] {
      assert SectorsOf([]) == {};
    } else {
      var k := LastPut(t);
      assert StepFits(TakenUp(t[..k]), t[k], n);
      Fewer(SectorsOf(LogsOf(t)), TakenUp(t[..k]));
    }
  }

  // ----- traces for the log -----

  /** A transaction within the log and within the buffers, that leaves no buffer held. */
  ghost predicate GoodTrace(log: Log, d: Disk, t: Trace) {
    && Proper(t) && HeldBy(t) == {} && Fits(t, NBUF) && GoodTxn(log, d, LogsOf(t))
    && forall k :: 0 <= k < |t| && t[k].Fetch? ==> log.IsHome(d, t[k].s)
  }

  ghost predicate GoodTraces(log: Log, d: Disk, ts: seq<Trace>) {
    forall k :: 0 <= k < |ts| ==> GoodTrace(log, d, ts[k])
  }

  lemma SameSizeTrace(log: Log, d: Disk, d': Disk, t: Trace)
    requires GoodTrace(log, d, t) && |d| == |d'|
    ensures GoodTrace(log, d', t)
  {
  }

  function AllLogs(ts: seq<Trace>): (r: seq<Txn>)
    ensures |r| == |ts| && forall k :: 0 <= k < |ts| ==> r[k] == LogsOf(ts[k])
  {
    seq(|ts|, k requires 0 <= k < |ts| => LogsOf(ts[k]))
  }
}
