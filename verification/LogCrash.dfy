/** Crash atomicity of src/log.c over whole runs.

    A transaction is the sequence of its log_write calls.  Its sector writes are: one slot write per
    call (a sector logged before is absorbed into its slot), the header that commits it, the installs,
    and the header that erases it. */
module LogCrash {
  import opened LogDisk

  type Txn = seq<Write>

  // ----- the writes of one transaction -----

  /** The slot log_write's search loop ends at. */
  function SlotOf(lh: seq<int>, s: int): (k: nat)
    ensures k <= |lh| && (k < |lh| ==> lh[k] == s) && (k == |lh| <==> s !in lh)
  {
    if lh == [] then 0 else if lh[0] == s then 0 else 1 + SlotOf(lh[1..], s)
  }

  /** The in-memory header after logging s. */
  function Logged(lh: seq<int>, s: int): seq<int> {
    if s in lh then lh else lh + [s]
  }

  function LhOf(txn: Txn): seq<int> {
    if txn == [] then [] else Logged(LhOf(txn[..|txn| - 1]), txn[|txn| - 1].sector)
  }

  function SlotWrites(log: Log, txn: Txn): (r: seq<Write>)
    ensures |r| == |txn|
  {
    if txn == [] then []
    else
      var before, w := txn[..|txn| - 1], txn[|txn| - 1];
      SlotWrites(log, before) + [Write(log.start + 1 + SlotOf(LhOf(before), w.sector), w.data)]
  }

  // ----- log.lh.n counts distinct sectors -----

  ghost function SectorsOf(txn: Txn): set<nat> {
    set k | 0 <= k < |txn| :: txn[k].sector
  }

  lemma SectorsSnoc(txn: Txn, w: Write)
    ensures SectorsOf(txn + [w]) == SectorsOf(txn) + {w.sector}
  {
    var t := txn + [w];
    assert t[|txn|] == w && forall k :: 0 <= k < |txn| ==> t[k] == txn[k];
    forall s | s in SectorsOf(txn) + {w.sector} ensures s in SectorsOf(t) {
      if s in SectorsOf(txn) {
        var k :| 0 <= k < |txn| && txn[k].sector == s;
        assert t[k].sector == s;
      }
    }
  }

  /** The header names each sector logged once, so its count is the number of distinct ones. */
  lemma {:induction false} LhOfCounts(txn: Txn)
    ensures |LhOf(txn)| == |SectorsOf(txn)| && forall s: nat :: s in LhOf(txn) <==> s in SectorsOf(txn)
    decreases |txn|
  {
    if txn == [] {
      assert SectorsOf(txn) == {};
    } else {
      var before, w := txn[..|txn| - 1], txn[|txn| - 1];
      LhOfCounts(before);
      SectorsSnoc(before, w);
      assert txn == before + [w];
      if w.sector in SectorsOf(before) {
        assert SectorsOf(txn) == SectorsOf(before);
      }
    }
  }

  ghost predicate LastIsNew(txn: Txn) {
    txn != [] ==> txn[|txn| - 1].sector !in SectorsOf(txn[..|txn| - 1])
  }

  /** Every call finds fewer than limit sectors logged if and only if no more than limit are logged in all. */
  lemma RoomAtEveryCall(txn: Txn, limit: nat)
    requires LastIsNew(txn)
    ensures (forall k :: 0 <= k < |txn| ==> |LhOf(txn[..k])| < limit) <==> |SectorsOf(txn)| <= limit
  {
    if txn == [] {
      assert SectorsOf(txn) == {};
    } else {
      var before, w := txn[..|txn| - 1], txn[|txn| - 1];
      assert txn == before + [w];
      SectorsSnoc(before, w);
      LhOfCounts(before);
      forall k | 0 <= k < |txn| ensures |LhOf(txn[..k])| <= |LhOf(before)| {
        LhOfCounts(txn[..k]);
        assert forall j :: 0 <= j < k ==> txn[..k][j] == before[j];
        assert SectorsOf(txn[..k]) <= SectorsOf(before);
        Fewer(SectorsOf(txn[..k]), SectorsOf(before));
      }
    }
  }

  /** A last call for a sector already logged is checked like any other: it needs room for one sector more. */
  lemma RoomForRepeat(txn: Txn, w: Write, limit: nat)
    requires LastIsNew(txn) && w.sector in SectorsOf(txn)
    ensures (forall k :: 0 <= k < |txn + [w]| ==> |LhOf((txn + [w])[..k])| < limit) <==> |SectorsOf(txn)| < limit
  {
    var t := txn + [w];
    RoomAtEveryCall(txn, limit);
    LhOfCounts(txn);
    assert t[..|txn|] == txn;
    hide LhOf, SectorsOf, LastIsNew;
    forall k | 0 <= k < |txn| ensures t[..k] == txn[..k] {
    }
  }

  lemma Fewer(a: set<nat>, b: set<nat>)
    requires a <= b
    ensures |a| <= |b|
  {
    assert b == a + (b - a);
  }

  /** Every call logs a home sector, and finds room as log_write's size check demands. */
  ghost predicate GoodTxn(log: Log, d: Disk, txn: Txn) {
    && log.Fits(d)
    && (forall i :: 0 <= i < |txn| ==> log.IsHome(d, txn[i].sector))
    && (forall i :: 0 <= i < |txn| ==> |LhOf(txn[..i])| < LOGSIZE && |LhOf(txn[..i])| < log.size - 1)
  }

  function HeadWrite(log: Log, d: Disk, lh: seq<int>): Write
    requires log.Fits(d) && |lh| <= LOGSIZE
  {
    Write(log.start, WithHead(d[log.start], lh))
  }

  /** commit_trans on disk d: nothing for an empty transaction; else the committing header, and then
      just what recovery would do on that disk. */
  ghost function CommitWrites(log: Log, d: Disk, lh: seq<int>): (r: seq<Write>)
    requires GoodSectors(log, d, lh)
    ensures InRange(d, r)
  {
    if lh == [] then []
    else [HeadWrite(log, d, lh)] + RecoverWrites(log, d[log.start := HeadWrite(log, d, lh).data])
  }

  // ----- logging touches only slots -----

  /** Part of a transaction is logged: the disk d1 differs from d only in slots, and each slot holds
      the new contents of its sector. */
  ghost predicate LogState(log: Log, d: Disk, d1: Disk, contents: Disk, lh: seq<int>) {
    && GoodSectors(log, d, lh) && |d| == |d1| == |contents|
    && (forall s :: log.IsHome(d, s) || s == log.start ==> d1[s] == d[s])
    && (forall k :: 0 <= k < |lh| ==> d1[log.start + 1 + k] == contents[lh[k]])
    && (forall s :: log.IsHome(d, s) && s !in lh ==> contents[s] == d[s])
  }

  lemma LoggedSectors(log: Log, d: Disk, lh: seq<int>, s: int)
    requires GoodSectors(log, d, lh) && log.IsHome(d, s) && |lh| < LOGSIZE && |lh| < log.size - 1
    ensures GoodSectors(log, d, Logged(lh, s)) && SlotOf(lh, s) < |Logged(lh, s)|
    ensures Logged(lh, s)[SlotOf(lh, s)] == s
    ensures forall k :: 0 <= k < |Logged(lh, s)| && k != SlotOf(lh, s) ==>
              k < |lh| && Logged(lh, s)[k] == lh[k] && lh[k] != s
    ensures forall t :: t in Logged(lh, s) <==> t in lh || t == s
  {
    var slot := SlotOf(lh, s);
    forall k | 0 <= k < |lh| && k != slot
      ensures lh[k] != s
    {
      assert slot == |lh| ==> lh[k] in lh;
    }
  }

  lemma LogStep(log: Log, d: Disk, d1: Disk, contents: Disk, lh: seq<int>, w: Write)
    requires LogState(log, d, d1, contents, lh) && log.IsHome(d, w.sector)
    requires |lh| < LOGSIZE && |lh| < log.size - 1
    ensures LogState(log, d, d1[log.start + 1 + SlotOf(lh, w.sector) := w.data],
                     contents[w.sector := w.data], Logged(lh, w.sector))
  {
    hide SlotOf, Logged, GoodSectors;
    LoggedSectors(log, d, lh, w.sector);
    SlotInArea(log, d, d1, contents, lh, w.sector);
    assert log.Fits(d);
  }

  /** What logging a whole transaction comes to. */
  ghost predicate TxnLogged(log: Log, d: Disk, txn: Txn) {
    && InRange(d, SlotWrites(log, txn)) && InRange(d, txn)
    && LogState(log, d, Applied(d, SlotWrites(log, txn)), Applied(d, txn), LhOf(txn))
  }

  lemma Snoc(log: Log, before: Txn, w: Write)
    ensures LhOf(before + [w]) == Logged(LhOf(before), w.sector)
    ensures SlotWrites(log, before + [w]) ==
              SlotWrites(log, before) + [Write(log.start + 1 + SlotOf(LhOf(before), w.sector), w.data)]
  {
    var txn := before + [w];
    assert txn[..|txn| - 1] == before;
  }

  lemma SlotInArea(log: Log, d: Disk, d1: Disk, contents: Disk, lh: seq<int>, s: int)
    requires LogState(log, d, d1, contents, lh) && |lh| < log.size - 1
    ensures log.start + 1 + SlotOf(lh, s) < |d|
  {
  }

  lemma LogOneMore(log: Log, d: Disk, before: Txn, w: Write)
    requires TxnLogged(log, d, before) && log.Fits(d) && log.IsHome(d, w.sector)
    requires |LhOf(before)| < LOGSIZE && |LhOf(before)| < log.size - 1
    ensures TxnLogged(log, d, before + [w])
  {
    hide Applied, LogState, SlotOf, Logged, LhOf, SlotWrites, InRange;
    var lh := LhOf(before);
    Snoc(log, before, w);
    SlotInArea(log, d, Applied(d, SlotWrites(log, before)), Applied(d, before), lh, w.sector);
    var v := Write(log.start + 1 + SlotOf(lh, w.sector), w.data);
    AppliedLast(d, before, w);
    AppliedLast(d, SlotWrites(log, before), v);
    LogStep(log, d, Applied(d, SlotWrites(log, before)), Applied(d, before), lh, w);
  }

  lemma {:induction false} LogPhase(log: Log, d: Disk, txn: Txn)
    requires GoodTxn(log, d, txn)
    ensures GoodSectors(log, d, LhOf(txn)) && TxnLogged(log, d, txn)
    decreases |txn|
  {
    if txn != [] {
      hide TxnLogged, GoodTxn;
      GoodTxnPrefix(log, d, txn);
      LogPhase(log, d, txn[..|txn| - 1]);
      LogOneMore(log, d, txn[..|txn| - 1], txn[|txn| - 1]);
      assert txn[..|txn| - 1] + [txn[|txn| - 1]] == txn;
      TxnLoggedGood(log, d, txn);
    }
  }

  lemma TxnLoggedGood(log: Log, d: Disk, txn: Txn)
    requires TxnLogged(log, d, txn)
    ensures GoodSectors(log, d, LhOf(txn))
  {
  }

  lemma GoodTxnPrefix(log: Log, d: Disk, txn: Txn)
    requires GoodTxn(log, d, txn) && txn != []
    ensures GoodTxn(log, d, txn[..|txn| - 1]) && log.Fits(d) && log.IsHome(d, txn[|txn| - 1].sector)
    ensures |LhOf(txn[..|txn| - 1])| < LOGSIZE && |LhOf(txn[..|txn| - 1])| < log.size - 1
  {
    var before := txn[..|txn| - 1];
    assert forall i :: 0 <= i < |before| ==> before[..i] == txn[..i];
  }

  /** Once the header is written, the disk means the whole transaction. */
  lemma HeaderCommits(log: Log, d: Disk, txn: Txn)
    requires GoodTxn(log, d, txn)
    ensures GoodSectors(log, d, LhOf(txn)) && InRange(d, SlotWrites(log, txn)) && InRange(d, txn)
    ensures var d1 := Applied(d, SlotWrites(log, txn));
            var d2 := d1[log.start := HeadWrite(log, d1, LhOf(txn)).data];
            && GoodHead(log, d2) && HeadSectors(d2[log.start]) == LhOf(txn)
            && forall s: nat :: log.IsHome(d, s) ==> Meaning(log, d2, s) == Applied(d, txn)[s]
  {
    hide Applied, WithHead, MeaningFrom, LhOf, SlotWrites, HeadSectors, HeadCount;
    LogPhase(log, d, txn);
    var lh := LhOf(txn);
    var d1 := Applied(d, SlotWrites(log, txn));
    var d2 := d1[log.start := HeadWrite(log, d1, lh).data];
    forall s: nat | log.IsHome(d, s)
      ensures Meaning(log, d2, s) == Applied(d, txn)[s]
    {
      if s in lh {
        var k :| 0 <= k < |lh| && lh[k] == s;
        MeaningAtSlot(log, d2, lh, k);
      } else {
        MeaningUnlogged(log, d2, lh, s);
      }
    }
  }

  ghost function TxnWrites(log: Log, d: Disk, txn: Txn): (r: seq<Write>)
    requires GoodTxn(log, d, txn)
    ensures InRange(d, r)
  {
    LogPhase(log, d, txn);
    var d1 := Applied(d, SlotWrites(log, txn));
    SlotWrites(log, txn) + CommitWrites(log, d1, LhOf(txn))
  }

  /** The disk means d's home contents. */
  ghost predicate Means(log: Log, d: Disk, contents: Disk) {
    && GoodHead(log, d) && |d| == |contents|
    && forall s: nat :: log.IsHome(d, s) ==> Meaning(log, d, s) == contents[s]
  }

  lemma QuietMeansItself(log: Log, d: Disk)
    requires Quiet(log, d)
    ensures Means(log, d, d)
  {
    forall s: nat | log.IsHome(d, s)
      ensures Meaning(log, d, s) == d[s]
    {
      MeaningUnlogged(log, d, [], s);
    }
  }

  // ----- a crash inside one transaction -----

  /** While slots are being written the disk means the old contents. */
  lemma CrashWhileLogging(log: Log, d: Disk, txn: Txn, p: nat)
    requires Quiet(log, d) && GoodTxn(log, d, txn) && p <= |txn|
    ensures InRange(d, SlotWrites(log, txn)[..p])
    ensures var d' := Applied(d, SlotWrites(log, txn)[..p]); Quiet(log, d') && Means(log, d', d)
  {
    SlotWritesPrefix(log, d, txn, p);
    LogPhase(log, d, txn[..p]);
    QuietMeansItself(log, Applied(d, SlotWrites(log, txn[..p])));
  }

  lemma {:induction false} SlotWritesPrefix(log: Log, d: Disk, txn: Txn, p: nat)
    requires GoodTxn(log, d, txn) && p <= |txn|
    ensures GoodTxn(log, d, txn[..p]) && SlotWrites(log, txn)[..p] == SlotWrites(log, txn[..p])
  {
    if p == |txn| {
      assert txn[..p] == txn;
    } else {
      var before := txn[..|txn| - 1];
      GoodTxnPrefix(log, d, txn);
      SlotWritesPrefix(log, d, before, p);
      assert before[..p] == txn[..p];
      assert SlotWrites(log, txn)[..p] == SlotWrites(log, before)[..p];
    }
  }

  /** From the committing header on the disk means the new contents. */
  lemma CrashWhileCommitting(log: Log, d: Disk, txn: Txn, q: nat)
    requires GoodTxn(log, d, txn) && LhOf(txn) != []
    requires q < |TxnWrites(log, d, txn)| - |txn|
    ensures InRange(d, txn) && InRange(d, TxnWrites(log, d, txn)[..|txn| + 1 + q])
    ensures Means(log, Applied(d, TxnWrites(log, d, txn)[..|txn| + 1 + q]), Applied(d, txn))
    ensures |txn| + 1 + q == |TxnWrites(log, d, txn)| ==>
              && Quiet(log, Applied(d, TxnWrites(log, d, txn)))
              && forall s :: log.IsHome(d, s) ==> Applied(d, TxnWrites(log, d, txn))[s] == Applied(d, txn)[s]
  {
    hide Applied, WithHead, Meaning, LhOf, SlotWrites, HeadSectors, HeadCount;
    LogPhase(log, d, txn);
    HeaderCommits(log, d, txn);
    var lh := LhOf(txn);
    var d1 := Applied(d, SlotWrites(log, txn));
    var h := HeadWrite(log, d1, lh);
    var d2 := d1[log.start := h.data];
    var rs := RecoverWrites(log, d2);
    var ws := TxnWrites(log, d, txn);
    assert ws == SlotWrites(log, txn) + [h] + rs;
    assert ws[..|txn| + 1 + q] == (SlotWrites(log, txn) + [h]) + rs[..q];
    AppliedLast(d, SlotWrites(log, txn), h);
    AppliedAppend(d, SlotWrites(log, txn) + [h], rs[..q]);
    RecoveryPrefixKeepsMeaning(log, d2, q);
    if q == |rs| {
      assert rs[..q] == rs && ws[..|txn| + 1 + q] == ws;
      InstalledAndErased(log, d2);
    }
  }

  /** The crash theorem for one transaction: after any number of its writes the disk means the old
      contents up to the committing header, and the new contents from it on. */
  lemma CrashInTransaction(log: Log, d: Disk, txn: Txn, p: nat)
    requires Quiet(log, d) && GoodTxn(log, d, txn) && p <= |TxnWrites(log, d, txn)|
    ensures InRange(d, txn) && InRange(d, TxnWrites(log, d, txn)[..p])
    ensures Means(log, Applied(d, TxnWrites(log, d, txn)[..p]), if p <= |txn| then d else Applied(d, txn))
  {
    hide Applied, LhOf, SlotWrites, CommitWrites, Means;
    LogPhase(log, d, txn);
    if p <= |txn| {
      assert TxnWrites(log, d, txn)[..p] == SlotWrites(log, txn)[..p];
      CrashWhileLogging(log, d, txn, p);
    } else {
      EmptyCommit(log, d, txn);
      CrashWhileCommitting(log, d, txn, p - |txn| - 1);
    }
  }

  lemma EmptyCommit(log: Log, d: Disk, txn: Txn)
    requires GoodTxn(log, d, txn)
    ensures LhOf(txn) == [] <==> txn == []
    ensures txn == [] ==> TxnWrites(log, d, txn) == []
    ensures txn != [] ==> |TxnWrites(log, d, txn)| > |txn| + 1
  {
  }

  /** A completed transaction leaves the log quiet and the new contents in place. */
  lemma TransactionCompletes(log: Log, d: Disk, txn: Txn)
    requires Quiet(log, d) && GoodTxn(log, d, txn)
    ensures InRange(d, txn)
    ensures var d' := Applied(d, TxnWrites(log, d, txn));
            && |d'| == |d| && Quiet(log, d')
            && forall s :: log.IsHome(d, s) ==> d'[s] == Applied(d, txn)[s]
  {
    hide LhOf, SlotWrites, CommitWrites, Means, TxnWrites;
    LogPhase(log, d, txn);
    EmptyCommit(log, d, txn);
    assert [] + txn == txn;
    if txn != [] {
      var n := |TxnWrites(log, d, txn)| - |txn| - 1;
      assert TxnWrites(log, d, txn)[..|txn| + 1 + n] == TxnWrites(log, d, txn);
      CrashWhileCommitting(log, d, txn, n);
    }
  }

  // ----- whole runs -----

  ghost predicate GoodTxns(log: Log, d: Disk, txns: seq<Txn>) {
    forall i :: 0 <= i < |txns| ==> GoodTxn(log, d, txns[i])
  }

  ghost predicate TxnsInRange(d: Disk, txns: seq<Txn>) {
    forall i :: 0 <= i < |txns| ==> InRange(d, txns[i])
  }

  lemma TxnsInRangeTail(d: Disk, d': Disk, txns: seq<Txn>)
    requires TxnsInRange(d, txns) && |d| == |d'| && txns != []
    ensures TxnsInRange(d', txns[1..])
  {
    forall i | 0 <= i < |txns[1..]|
      ensures InRange(d', txns[1..][i])
    {
      assert InRange(d, txns[i + 1]);
    }
  }

  lemma GoodTxnsInRange(log: Log, d: Disk, txns: seq<Txn>)
    requires GoodTxns(log, d, txns)
    ensures TxnsInRange(d, txns)
  {
    forall i | 0 <= i < |txns|
      ensures InRange(d, txns[i])
    {
      assert GoodTxn(log, d, txns[i]);
    }
  }

  /** The contents the transactions describe, applied one after the other. */
  ghost function AppliedAll(d: Disk, txns: seq<Txn>): (r: Disk)
    requires TxnsInRange(d, txns)
    ensures |r| == |d|
    decreases |txns|
  {
    if txns == [] then d
    else
      var d' := Applied(d, txns[0]);
      TxnsInRangeTail(d, d', txns);
      AppliedAll(d', txns[1..])
  }

  ghost predicate SameHome(log: Log, d: Disk, d': Disk) {
    |d| == |d'| && forall s :: log.IsHome(d, s) ==> d'[s] == d[s]
  }

  /** Sector writes of a run of complete transactions. */
  ghost function RunWrites(log: Log, d: Disk, txns: seq<Txn>): (r: seq<Write>)
    requires Quiet(log, d) && GoodTxns(log, d, txns)
    ensures InRange(d, r)
    decreases |txns|
  {
    if txns == [] then []
    else
      TransactionCompletes(log, d, txns[0]);
      TxnWrites(log, d, txns[0]) + RunWrites(log, Applied(d, TxnWrites(log, d, txns[0])), txns[1..])
  }

  /** How many transactions have had their committing header written by the first p writes. */
  ghost function Committed(log: Log, d: Disk, txns: seq<Txn>, p: nat): (n: nat)
    requires Quiet(log, d) && GoodTxns(log, d, txns)
    ensures n <= |txns|
    decreases |txns|
  {
    if txns == [] then 0
    else
      var ws := TxnWrites(log, d, txns[0]);
      TransactionCompletes(log, d, txns[0]);
      if p < |ws| then (if p <= |txns[0]| then 0 else 1)
      else 1 + Committed(log, Applied(d, ws), txns[1..], p - |ws|)
  }

  lemma {:induction false} AppliedKeepsHome(log: Log, d: Disk, d': Disk, ws: seq<Write>)
    requires SameHome(log, d, d') && InRange(d, ws)
    ensures SameHome(log, Applied(d, ws), Applied(d', ws))
    decreases |ws|
  {
    if ws != [] {
      AppliedKeepsHome(log, d[ws[0].sector := ws[0].data], d'[ws[0].sector := ws[0].data], ws[1..]);
    }
  }

  lemma {:induction false} AppliedAllKeepsHome(log: Log, d: Disk, d': Disk, txns: seq<Txn>)
    requires SameHome(log, d, d') && TxnsInRange(d, txns) && TxnsInRange(d', txns)
    ensures SameHome(log, AppliedAll(d, txns), AppliedAll(d', txns))
    decreases |txns|
  {
    if txns != [] {
      AppliedKeepsHome(log, d, d', txns[0]);
      TxnsInRangeTail(d, Applied(d, txns[0]), txns);
      TxnsInRangeTail(d', Applied(d', txns[0]), txns);
      AppliedAllKeepsHome(log, Applied(d, txns[0]), Applied(d', txns[0]), txns[1..]);
    }
  }

  /** Crash atomicity of a run: after any number of sector writes the disk means exactly the
      transactions whose committing header was written, in order and nothing else. */
  lemma {:induction false} CrashInRun(log: Log, d: Disk, txns: seq<Txn>, p: nat)
    requires Quiet(log, d) && GoodTxns(log, d, txns) && p <= |RunWrites(log, d, txns)|
    ensures TxnsInRange(d, txns[..Committed(log, d, txns, p)])
    ensures Means(log, Applied(d, RunWrites(log, d, txns)[..p]),
                  AppliedAll(d, txns[..Committed(log, d, txns, p)]))
    decreases |txns|, 1
  {
    hide Means, TxnWrites, Quiet, GoodTxn, Applied, TxnsInRange;
    GoodTxnsPrefix(log, d, txns, Committed(log, d, txns, p));
    if txns == [] {
      QuietMeansItself(log, d);
      AppliedNil(d);
      assert txns[..0] == [];
    } else {
      var t, rest := txns[0], txns[1..];
      var ws := TxnWrites(log, d, t);
      TransactionCompletes(log, d, t);
      if p < |ws| {
        CrashInTransaction(log, d, t, p);
        assert RunWrites(log, d, txns)[..p] == ws[..p];
        OneTxn(d, t);
        assert txns[..1] == [t];
      } else {
        CrashLater(log, d, txns, p);
      }
    }
  }

  lemma OneTxn(d: Disk, t: Txn)
    requires InRange(d, t)
    ensures TxnsInRange(d, [t]) && AppliedAll(d, [t]) == Applied(d, t)
    ensures TxnsInRange(d, []) && AppliedAll(d, []) == d
  {
    assert [t][1..] == [];
  }

  /** The case of CrashInRun where the first transaction has completed. */
  lemma {:induction false} CrashLater(log: Log, d: Disk, txns: seq<Txn>, p: nat)
    requires Quiet(log, d) && GoodTxns(log, d, txns) && p <= |RunWrites(log, d, txns)|
    requires txns != [] && p >= |TxnWrites(log, d, txns[0])|
    ensures TxnsInRange(d, txns[..Committed(log, d, txns, p)])
    ensures Means(log, Applied(d, RunWrites(log, d, txns)[..p]),
                  AppliedAll(d, txns[..Committed(log, d, txns, p)]))
    decreases |txns|, 0
  {
    hide Means, TxnWrites, Quiet, GoodTxn, Applied, TxnsInRange;
    var t, rest := txns[0], txns[1..];
    var ws := TxnWrites(log, d, t);
    TransactionCompletes(log, d, t);
    var d' := Applied(d, ws);
    var q := p - |ws|;
    GoodTxnsSameSize(log, d, d', rest);
    CrashInRun(log, d', rest, q);
    var rs := RunWrites(log, d', rest);
    assert RunWrites(log, d, txns) == ws + rs;
    assert RunWrites(log, d, txns)[..p] == ws + rs[..q];
    InRangeTake(d', rs, q);
    AppliedAppend(d, ws, rs[..q]);
    var c := Committed(log, d', rest, q);
    GoodTxnsPrefix(log, d, txns, 1 + c);
    var ts := txns[..1 + c];
    assert ts[0] == t && ts[1..] == rest[..c];
    TxnsInRangeTail(d, Applied(d, t), ts);
    assert AppliedAll(d, ts) == AppliedAll(Applied(d, t), rest[..c]);
    AppliedAllKeepsHome(log, d', Applied(d, t), rest[..c]);
    MeansHome(log, Applied(d', rs[..q]), AppliedAll(d', rest[..c]), AppliedAll(Applied(d, t), rest[..c]));
  }

  lemma InRangeTake(d: Disk, ws: seq<Write>, q: nat)
    requires InRange(d, ws) && q <= |ws|
    ensures InRange(d, ws[..q])
  {
  }

  lemma GoodTxnsSameSize(log: Log, d: Disk, d': Disk, txns: seq<Txn>)
    requires GoodTxns(log, d, txns) && |d| == |d'|
    ensures GoodTxns(log, d', txns)
  {
    forall i | 0 <= i < |txns|
      ensures GoodTxn(log, d', txns[i])
    {
      assert GoodTxn(log, d, txns[i]);
    }
  }

  lemma GoodTxnsPrefix(log: Log, d: Disk, txns: seq<Txn>, n: nat)
    requires GoodTxns(log, d, txns) && n <= |txns|
    ensures GoodTxns(log, d, txns[..n]) && TxnsInRange(d, txns[..n])
    ensures n > 0 ==> InRange(d, txns[0])
  {
    GoodTxnsInRange(log, d, txns[..n]);
    if n > 0 { assert InRange(d, txns[..n][0]); }
  }

  lemma MeansHome(log: Log, d: Disk, c: Disk, c': Disk)
    requires Means(log, d, c) && SameHome(log, c, c')
    ensures Means(log, d, c')
  {
  }

  // ----- crashes during recovery, and histories of many crashes -----

  /** Boot after boot: each recovery in `cuts` is itself cut short after that many writes (or
      finishes, if it has no more), and the last one completes. */
  ghost function Rebooted(log: Log, d: Disk, cuts: seq<nat>): (r: Disk)
    requires GoodHead(log, d)
    ensures |r| == |d|
    decreases |cuts|
  {
    var ws := RecoverWrites(log, d);
    if cuts == [] then Applied(d, ws)
    else
      var p := if cuts[0] <= |ws| then cuts[0] else |ws|;
      RecoveryPrefixKeepsMeaning(log, d, p);
      Rebooted(log, Applied(d, ws[..p]), cuts[1..])
  }

  /** However often recovery is interrupted, completing it restores exactly what the disk meant. */
  lemma {:induction false} RebootRestores(log: Log, d: Disk, cuts: seq<nat>, contents: Disk)
    requires Means(log, d, contents)
    ensures Quiet(log, Rebooted(log, d, cuts)) && SameHome(log, contents, Rebooted(log, d, cuts))
    decreases |cuts|
  {
    if cuts == [] {
      InstalledAndErased(log, d);
    } else {
      var ws := RecoverWrites(log, d);
      var p := if cuts[0] <= |ws| then cuts[0] else |ws|;
      RecoveryPrefixKeepsMeaning(log, d, p);
      RebootRestores(log, Applied(d, ws[..p]), cuts[1..], contents);
    }
  }

  /** One uptime: transactions are run until the machine crashes after that many sector writes, and
      then it boots, perhaps crashing again during recovery. */
  datatype Uptime = Uptime(txns: seq<Txn>, writes: nat, cuts: seq<nat>)

  ghost predicate GoodUptimes(log: Log, d: Disk, ups: seq<Uptime>) {
    forall i :: 0 <= i < |ups| ==> GoodTxns(log, d, ups[i].txns)
  }

  ghost function CrashPoint(log: Log, d: Disk, up: Uptime): (p: nat)
    requires Quiet(log, d) && GoodTxns(log, d, up.txns)
    ensures p <= |RunWrites(log, d, up.txns)|
  {
    var n := |RunWrites(log, d, up.txns)|; if up.writes <= n then up.writes else n
  }

  /** The disk at the end of one uptime and the boot that follows it. */
  ghost function AfterUptime(log: Log, d: Disk, up: Uptime): (r: Disk)
    requires Quiet(log, d) && GoodTxns(log, d, up.txns)
    ensures |r| == |d| && Quiet(log, r)
  {
    var p := CrashPoint(log, d, up);
    CrashInRun(log, d, up.txns, p);
    var c := AppliedAll(d, up.txns[..Committed(log, d, up.txns, p)]);
    var d1 := Applied(d, RunWrites(log, d, up.txns)[..p]);
    RebootRestores(log, d1, up.cuts, c);
    Rebooted(log, d1, up.cuts)
  }

  ghost function AfterAll(log: Log, d: Disk, ups: seq<Uptime>): (r: Disk)
    requires Quiet(log, d) && GoodUptimes(log, d, ups)
    ensures |r| == |d|
    decreases |ups|
  {
    if ups == [] then d else AfterAll(log, AfterUptime(log, d, ups[0]), ups[1..])
  }

  /** The transactions that committed, uptime by uptime. */
  ghost function Survivors(log: Log, d: Disk, ups: seq<Uptime>): (r: seq<Txn>)
    requires Quiet(log, d) && GoodUptimes(log, d, ups)
    ensures GoodTxns(log, d, r)
    decreases |ups|
  {
    if ups == [] then []
    else
      var p := CrashPoint(log, d, ups[0]);
      ups[0].txns[..Committed(log, d, ups[0].txns, p)] + Survivors(log, AfterUptime(log, d, ups[0]), ups[1..])
  }

  lemma TxnsSameSize(d: Disk, d': Disk, txns: seq<Txn>)
    requires TxnsInRange(d, txns) && |d| == |d'|
    ensures TxnsInRange(d', txns)
  {
    forall i | 0 <= i < |txns|
      ensures InRange(d', txns[i])
    {
      assert InRange(d, txns[i]);
    }
  }

  lemma {:induction false} AppliedAllAppend(d: Disk, ts: seq<Txn>, us: seq<Txn>)
    requires TxnsInRange(d, ts) && TxnsInRange(d, us) && TxnsInRange(AppliedAll(d, ts), us) && TxnsInRange(d, ts + us)
    ensures AppliedAll(d, ts + us) == AppliedAll(AppliedAll(d, ts), us)
    decreases |ts|
  {
    if ts == [] {
      assert ts + us == us;
    } else {
      var d' := Applied(d, ts[0]);
      assert (ts + us)[0] == ts[0] && (ts + us)[1..] == ts[1..] + us;
      TxnsInRangeTail(d, d', ts);
      TxnsInRangeTail(d, d', ts + us);
      TxnsSameSize(d, d', us);
      AppliedAllAppend(d', ts[1..], us);
    }
  }

  /** The main theorem of the log: over any history of runs, crashes and interrupted recoveries, the home
      sectors end up as if exactly the committed transactions had been applied, in order, to a disk
      that never crashed. */
  lemma {:induction false} HistoryIsSerial(log: Log, d: Disk, ups: seq<Uptime>)
    requires Quiet(log, d) && GoodUptimes(log, d, ups)
    ensures TxnsInRange(d, Survivors(log, d, ups))
    ensures SameHome(log, AppliedAll(d, Survivors(log, d, ups)), AfterAll(log, d, ups))
    decreases |ups|
  {
    GoodTxnsInRange(log, d, Survivors(log, d, ups));
    if ups != [] {
      hide RunWrites, Committed, Quiet, GoodTxn, Rebooted, Means, Applied, TxnsInRange;
      var up, rest := ups[0], ups[1..];
      var p := CrashPoint(log, d, up);
      var ts := up.txns[..Committed(log, d, up.txns, p)];
      CrashInRun(log, d, up.txns, p);
      GoodTxnsPrefix(log, d, up.txns, |ts|);
      var c := AppliedAll(d, ts);
      var d1 := Applied(d, RunWrites(log, d, up.txns)[..p]);
      RebootRestores(log, d1, up.cuts, c);
      var d2 := AfterUptime(log, d, up);
      HistoryIsSerial(log, d2, rest);
      var us := Survivors(log, d2, rest);
      TxnsSameSize(d2, c, us);
      TxnsSameSize(d2, d, us);
      AppliedAllKeepsHome(log, c, d2, us);
      AppliedAllAppend(d, ts, us);
    }
  }
}
