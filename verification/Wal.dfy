/** src/log.c over the buffer cache: the in-memory header, and the operations that log, commit and
    recover.  Each operation is proved to make exactly the sector writes that LogCrash reasons about. */
module Wal {
  import opened Params
  import opened LogDisk
  import opened LogCrash
  import opened Bio
  import opened BufTrace

  // ----- cache conditions the log relies on -----

  ghost predicate NoneBusy(bufs: seq<Buf>) {
    forall i :: 0 <= i < |bufs| ==> !bufs[i].busy
  }

  ghost predicate NoneDirty(bufs: seq<Buf>) {
    forall i :: 0 <= i < |bufs| ==> !bufs[i].dirty
  }

  ghost predicate HasSpare(bufs: seq<Buf>) {
    exists i :: 0 <= i < |bufs| && !bufs[i].busy && !bufs[i].dirty
  }

  /** The pinned buffers are exactly those of the logged sectors. */
  ghost predicate Pinned(bufs: seq<Buf>, lh: seq<int>) {
    && (forall i :: 0 <= i < |bufs| && bufs[i].dirty ==> bufs[i].sector in lh)
    && (forall k :: 0 <= k < |lh| ==> DirtyAt(bufs, lh[k]))
  }

  /** The state inside a transaction: the disk has the slots written since `base`, and every pinned
      buffer nobody holds has the contents the transaction gives its sector. */
  ghost predicate LogOk(log: Log, bufs: seq<Buf>, disk: Disk, base: Disk, txn: Txn, lh: seq<int>) {
    && Quiet(log, base) && GoodTxn(log, base, txn) && lh == LhOf(txn)
    && TxnLogged(log, base, txn) && disk == Applied(base, SlotWrites(log, txn))
    && Pinned(bufs, lh)
    && forall i :: 0 <= i < |bufs| && bufs[i].dirty && !bufs[i].busy && bufs[i].sector < |base| ==>
         bufs[i].data == Applied(base, txn)[bufs[i].sector]
  }

  lemma LogOkFacts(log: Log, bufs: seq<Buf>, disk: Disk, base: Disk, txn: Txn, lh: seq<int>)
    requires LogOk(log, bufs, disk, base, txn, lh)
    ensures |disk| == |base| && GoodSectors(log, disk, lh) && Pinned(bufs, lh) && log.Fits(disk)
    ensures HeadCount(disk[log.start]) == 0
    ensures forall s :: DirtyAt(bufs, s) ==> !log.InArea(s)
  {
    forall s | DirtyAt(bufs, s)
      ensures !log.InArea(s)
    {
      var i :| 0 <= i < |bufs| && bufs[i].dirty && bufs[i].sector == s;
    }
  }

  lemma SameDirtySet(bufs: seq<Buf>, bufs': seq<Buf>)
    requires |bufs| == |bufs'|
    requires forall i :: 0 <= i < |bufs| && (bufs[i].dirty || bufs'[i].dirty) ==> bufs'[i] == bufs[i]
    ensures forall s :: DirtyAt(bufs, s) <==> DirtyAt(bufs', s)
  {
    forall s
      ensures DirtyAt(bufs, s) <==> DirtyAt(bufs', s)
    {
      if DirtyAt(bufs, s) { var i :| 0 <= i < |bufs| && bufs[i].dirty && bufs[i].sector == s; assert bufs'[i].dirty; }
      if DirtyAt(bufs', s) { var i :| 0 <= i < |bufs| && bufs'[i].dirty && bufs'[i].sector == s; assert bufs[i].dirty; }
    }
  }

  /** log_write's effect on the log state. */
  lemma LogOkLogged(log: Log, bufs: seq<Buf>, bufs': seq<Buf>, disk: Disk, base: Disk, txn: Txn, lh: seq<int>, i: nat)
    requires LogOk(log, bufs, disk, base, txn, lh) && |bufs| == |bufs'| && i < |bufs|
    requires bufs[i].busy && log.IsHome(disk, bufs[i].sector) && |lh| < LOGSIZE && |lh| < log.size - 1
    requires bufs' [i] == bufs[i].(dirty := true)
    requires forall j :: 0 <= j < |bufs| && j != i && (bufs[j].dirty || bufs'[j].dirty) ==>
               bufs'[j] == bufs[j] && bufs[j].sector != bufs[i].sector
    ensures var w := Write(bufs[i].sector, bufs[i].data);
            var at := log.start + 1 + SlotOf(lh, w.sector);
            at < |disk| && LogOk(log, bufs', disk[at := w.data], base, txn + [w], Logged(lh, w.sector))
  {
    hide Applied, SlotWrites, LhOf, GoodTxn, Pinned, Logged, SlotOf, LogState, GoodSectors;
    var w := Write(bufs[i].sector, bufs[i].data);
    LogOkFacts(log, bufs, disk, base, txn, lh);
    SlotInArea(log, base, disk, Applied(base, txn), lh, w.sector);
    GoodTxnSnoc(log, base, txn, w);
    Snoc(log, txn, w);
    LogOneMore(log, base, txn, w);
    AppliedLast(base, txn, w);
    AppliedLast(base, SlotWrites(log, txn), Write(log.start + 1 + SlotOf(lh, w.sector), w.data));
    PinnedLogged(bufs, bufs', lh, i);
  }

  lemma GoodTxnSnoc(log: Log, d: Disk, txn: Txn, w: Write)
    requires GoodTxn(log, d, txn) && log.IsHome(d, w.sector)
    requires |LhOf(txn)| < LOGSIZE && |LhOf(txn)| < log.size - 1
    ensures GoodTxn(log, d, txn + [w])
  {
    var t := txn + [w];
    forall i | 0 <= i < |t|
      ensures |LhOf(t[..i])| < LOGSIZE && |LhOf(t[..i])| < log.size - 1
    {
      if i < |txn| { assert t[..i] == txn[..i]; } else { assert t[..i] == txn; }
    }
  }

  lemma PinnedLogged(bufs: seq<Buf>, bufs': seq<Buf>, lh: seq<int>, i: nat)
    requires Pinned(bufs, lh) && |bufs| == |bufs'| && i < |bufs| && bufs'[i] == bufs[i].(dirty := true)
    requires forall j :: 0 <= j < |bufs| && j != i && (bufs[j].dirty || bufs'[j].dirty) ==> bufs'[j] == bufs[j]
    ensures Pinned(bufs', Logged(lh, bufs[i].sector))
  {
    var lh' := Logged(lh, bufs[i].sector);
    assert forall t :: t in lh ==> t in lh';
    forall k | 0 <= k < |lh'|
      ensures DirtyAt(bufs', lh'[k])
    {
      if lh'[k] == bufs[i].sector {
        assert bufs'[i].dirty;
      } else {
        assert lh'[k] == lh[k];
        var j :| 0 <= j < |bufs| && bufs[j].dirty && bufs[j].sector == lh[k];
        assert bufs'[j].dirty;
      }
    }
  }

  /** With nothing dirty, the logical disk is the physical one. */
  lemma CleanMeansEqual(bufs: seq<Buf>, disk: Disk, logical: Disk)
    requires IsLogical(bufs, disk, logical) && NoneDirty(bufs)
    ensures logical == disk
  {
    assert forall s :: !DirtyAt(bufs, s);
  }

  /** Buffers change only where they are clean before and after. */
  ghost predicate CleanChange(bufs: seq<Buf>, bufs': seq<Buf>) {
    && |bufs| == |bufs'|
    && forall j :: 0 <= j < |bufs| && (bufs[j].dirty || bufs'[j].dirty) ==> bufs'[j] == bufs[j]
  }

  lemma LogicalAtClean(bufs: seq<Buf>, disk: Disk, logical: Disk, s: nat)
    requires CacheOk(bufs, disk, logical) && s < |disk| && !DirtyAt(bufs, s)
    ensures s < |logical| && logical[s] == disk[s]
  {
  }

  lemma OneBufferEach(bufs: seq<Buf>, disk: Disk, logical: Disk, i: nat)
    requires CacheOk(bufs, disk, logical) && i < NBUF && bufs[i].valid
    ensures forall j :: 0 <= j < NBUF && j != i && bufs[j].dirty ==> bufs[j].sector != bufs[i].sector
  {
  }

  lemma IdleCacheHasSpare(bufs: seq<Buf>)
    requires |bufs| == NBUF && NoneBusy(bufs) && NoneDirty(bufs)
    ensures HasSpare(bufs) && forall s :: !DirtyAt(bufs, s)
  {
    assert !bufs[0].busy && !bufs[0].dirty;
  }

  lemma CleanChangeKeeps(bufs: seq<Buf>, bufs': seq<Buf>, lh: seq<int>)
    requires CleanChange(bufs, bufs') && PinnedOrClean(bufs, lh)
    ensures PinnedOrClean(bufs', lh)
  {
    SameDirtySet(bufs, bufs');
  }

  // ----- whole transactions -----

  /** A fresh transaction on a quiet disk and a clean cache. */
  lemma LogOkStart(log: Log, bufs: seq<Buf>, disk: Disk)
    requires Quiet(log, disk) && NoneDirty(bufs) && log.Fits(disk)
    ensures LogOk(log, bufs, disk, disk, [], [])
  {
    assert GoodTxn(log, disk, []);
    LogPhase(log, disk, []);
  }

  /** What nobody holds, the cache shows as the transaction left it. */
  lemma LogicalIsContents(log: Log, bufs: seq<Buf>, disk: Disk, logical: Disk, base: Disk, txn: Txn, lh: seq<int>)
    requires LogOk(log, bufs, disk, base, txn, lh) && CacheOk(bufs, disk, logical) && NoneBusy(bufs)
    ensures InRange(base, txn) && SameHome(log, logical, Applied(base, txn))
  {
    hide Applied, SlotWrites, LhOf;
    forall s | log.IsHome(logical, s)
      ensures Applied(base, txn)[s] == logical[s]
    {
      if s in lh {
        var k :| 0 <= k < |lh| && lh[k] == s;
        var i :| 0 <= i < |bufs| && bufs[i].dirty && bufs[i].sector == lh[k];
      } else {
        NotPinned(bufs, lh, s);
      }
    }
  }

  /** The three phases of commit_trans add up to the writes LogCrash gives. */
  lemma CommitAddsUp(log: Log, base: Disk, txn: Txn, d1: Disk, d2: Disk, d3: Disk, lh: seq<int>)
    requires GoodTxn(log, base, txn) && txn != [] && TxnLogged(log, base, txn) && lh == LhOf(txn)
    requires d1 == Applied(base, SlotWrites(log, txn)) && GoodSectors(log, d1, lh)
    requires d2 == d1[log.start := HeadWrite(log, d1, lh).data]
    requires d3 == Applied(d2, InstallWrites(log, d2, lh))
    ensures Applied(base, TxnWrites(log, base, txn)) == d3[log.start := HeadWrite(log, d3, []).data]
    ensures TxnWrites(log, base, txn)[|txn|..] ==
              [HeadWrite(log, d1, lh)] + InstallWrites(log, d2, lh) + [HeadWrite(log, d3, [])]
  {
    hide Applied, SlotWrites, LhOf, TxnLogged, WithHead, GoodTxn, InRange;
    EmptyCommit(log, base, txn);
    var h, ws := HeadWrite(log, d1, lh), InstallWrites(log, d2, lh);
    InstallPrefix(log, d2, lh, |lh|);
    assert ws[..|lh|] == ws && lh[..|lh|] == lh;
    assert d3[log.start] == d2[log.start];
    var e := HeadWrite(log, d3, []);
    assert RecoverWrites(log, d2) == ws + [e];
    assert CommitWrites(log, d1, lh) == [h] + (ws + [e]);
    var slots := SlotWrites(log, txn);
    assert TxnWrites(log, base, txn) == slots + ([h] + (ws + [e]));
    TxnLoggedRange(log, base, txn);
    AppliedLast(base, slots, h);
    AppliedAppend(base, slots + [h], ws);
    AppliedLast(base, slots + [h] + ws, e);
    Regroup(slots, [h], ws, [e]);
  }

  /** The phases of recover_from_log add up to RecoverWrites. */
  lemma RecoveryAddsUp(log: Log, d0: Disk, d1: Disk)
    requires GoodHead(log, d0) && d1 == Applied(d0, InstallWrites(log, d0, HeadSectors(d0[log.start])))
    ensures Applied(d0, RecoverWrites(log, d0)) == d1[log.start := HeadWrite(log, d1, []).data]
    ensures RecoverWrites(log, d0) == InstallWrites(log, d0, HeadSectors(d0[log.start])) + [HeadWrite(log, d1, [])]
  {
    hide Applied, WithHead, HeadSectors;
    var lh := HeadSectors(d0[log.start]);
    var ws := InstallWrites(log, d0, lh);
    InstallPrefix(log, d0, lh, |lh|);
    assert ws[..|lh|] == ws && lh[..|lh|] == lh;
    AppliedLast(d0, ws, EraseWrite(log, d0));
  }

  lemma LogOkParts(log: Log, bufs: seq<Buf>, disk: Disk, base: Disk, txn: Txn, lh: seq<int>)
    requires LogOk(log, bufs, disk, base, txn, lh)
    ensures Quiet(log, base) && GoodTxn(log, base, txn) && lh == LhOf(txn) && TxnLogged(log, base, txn)
    ensures InRange(base, SlotWrites(log, txn)) && disk == Applied(base, SlotWrites(log, txn))
    ensures PinnedOrClean(bufs, lh)
    ensures txn == [] ==> disk == base && lh == [] && NoneDirty(bufs)
  {
  }

  lemma GoodSectorsSameSize(log: Log, d: Disk, d': Disk, lh: seq<int>)
    requires GoodSectors(log, d, lh) && |d| == |d'|
    ensures GoodSectors(log, d', lh)
  {
  }

  lemma CleanCacheIsDisk(bufs: seq<Buf>, disk: Disk, logical: Disk)
    requires CacheOk(bufs, disk, logical) && NoneDirty(bufs)
    ensures logical == disk
  {
    CleanMeansEqual(bufs, disk, logical);
  }

  lemma Regroup<T>(a: seq<T>, b: seq<T>, c: seq<T>, d: seq<T>)
    ensures a + (b + (c + d)) == a + b + c + d && b + (c + d) == b + c + d
    ensures (a + (b + (c + d)))[|a|..] == b + c + d
  {
  }

  lemma AppliedNext(d: Disk, ws: seq<Write>, k: nat)
    requires k < |ws| && InRange(d, ws)
    ensures InRange(d, ws[..k]) && InRange(d, ws[..k + 1]) && ws[..k + 1] == ws[..k] + [ws[k]]
    ensures Applied(d, ws[..k + 1]) == Applied(d, ws[..k])[ws[k].sector := ws[k].data]
  {
    assert ws[..k + 1] == ws[..k] + [ws[k]];
    AppliedLast(d, ws[..k], ws[k]);
  }

  lemma TxnLoggedRange(log: Log, d: Disk, txn: Txn)
    requires TxnLogged(log, d, txn)
    ensures InRange(d, SlotWrites(log, txn)) && InRange(d, txn)
  {
  }

  // ----- installing -----

  ghost predicate PinnedOrClean(bufs: seq<Buf>, lh: seq<int>) {
    Pinned(bufs, lh) || NoneDirty(bufs)
  }

  lemma SlotIsClean(log: Log, d0: Disk, bufs: seq<Buf>, lh: seq<int>, tail: nat)
    requires GoodSectors(log, d0, lh) && tail < |lh| && PinnedOrClean(bufs, lh[tail..])
    ensures !DirtyAt(bufs, log.start + tail + 1) && log.start + tail + 1 < |d0| && log.IsHome(d0, lh[tail])
    ensures InRange(d0, InstallWrites(log, d0, lh)[..tail])
    ensures Applied(d0, InstallWrites(log, d0, lh)[..tail])[log.start + tail + 1] == d0[log.start + tail + 1]
  {
    hide Applied, InstallWrites;
    InstallPrefix(log, d0, lh, tail);
    if !NoneDirty(bufs) {
      NotPinned(bufs, lh[tail..], log.start + tail + 1);
    }
  }

  lemma NotPinned(bufs: seq<Buf>, lh: seq<int>, s: int)
    requires (forall i :: 0 <= i < |bufs| && bufs[i].dirty ==> bufs[i].sector in lh) && s !in lh
    ensures !DirtyAt(bufs, s)
  {
  }

  lemma DirtyHere(bufs: seq<Buf>, i: nat)
    requires i < |bufs| && bufs[i].dirty
    ensures DirtyAt(bufs, bufs[i].sector)
  {
  }

  /** While the slot's buffer is held there is still a buffer for the home sector. */
  lemma RoomForHome(log: Log, d0: Disk, bufs0: seq<Buf>, bufs: seq<Buf>, lh: seq<int>, tail: nat, l: nat)
    requires GoodSectors(log, d0, lh) && tail < |lh| && PinnedOrClean(bufs0, lh[tail..])
    requires |bufs0| == |bufs| == NBUF && NoneBusy(bufs0) && l < NBUF && !bufs[l].dirty
    requires bufs[l].sector == log.start + tail + 1
    requires forall j :: 0 <= j < NBUF && j != l ==> bufs[j] == bufs0[j]
    requires forall j :: 0 <= j < NBUF && bufs[j].dirty ==> bufs[j].dev == ROOTDEV
    requires forall s :: DirtyAt(bufs, s) <==> DirtyAt(bufs0, s)
    ensures forall j :: 0 <= j < NBUF && Matches(bufs[j], ROOTDEV, lh[tail]) ==> !bufs[j].busy
    ensures exists j :: 0 <= j < NBUF && !bufs[j].busy && (!bufs[j].dirty || Matches(bufs[j], ROOTDEV, lh[tail]))
  {
    if NoneDirty(bufs0) {
      var j := if l == 0 then 1 else 0;
      assert bufs[j] == bufs0[j];
    } else {
      assert lh[tail..][0] == lh[tail];
      assert DirtyAt(bufs, lh[tail]);
      var j :| 0 <= j < |bufs| && bufs[j].dirty && bufs[j].sector == lh[tail];
      assert j != l;
    }
  }

  lemma InstalledPins(log: Log, d0: Disk, bufs0: seq<Buf>, bufs: seq<Buf>, disk: Disk, logical: Disk,
                      lh: seq<int>, tail: nat, l: nat, d: nat)
    requires GoodSectors(log, d0, lh) && tail < |lh| && PinnedOrClean(bufs0, lh[tail..]) && NoneBusy(bufs0)
    requires CacheOk(bufs, disk, logical) && |bufs0| == NBUF && l < NBUF && d < NBUF
    requires forall j :: 0 <= j < NBUF && j != l && j != d ==> bufs[j] == bufs0[j]
    requires !bufs[l].dirty && !bufs[l].busy && !bufs[d].dirty && !bufs[d].busy
    requires bufs[d].valid && bufs[d].sector == lh[tail]
    requires !bufs0[l].dirty && (bufs0[d].dirty ==> bufs0[d].sector == lh[tail])
    ensures NoneBusy(bufs) && HasSpare(bufs) && PinnedOrClean(bufs, lh[tail + 1..])
  {
    var rest := lh[tail + 1..];
    assert lh[tail..] == [lh[tail]] + rest;
    if Pinned(bufs0, lh[tail..]) {
      forall i | 0 <= i < |bufs| && bufs[i].dirty
        ensures bufs[i].sector in rest
      {
        assert bufs0[i].sector in lh[tail..];
        assert bufs[i].sector != bufs[d].sector;
      }
      forall k | 0 <= k < |rest|
        ensures DirtyAt(bufs, rest[k])
      {
        assert lh[tail..][k + 1] == rest[k] == lh[tail + 1 + k];
        assert DirtyAt(bufs0, rest[k]);
        var j :| 0 <= j < |bufs0| && bufs0[j].dirty && bufs0[j].sector == rest[k];
        assert bufs[j] == bufs0[j];
      }
    }
  }

  // ----- there is always a buffer for the log -----

  /** The buffers somebody holds. */
  ghost function Held(bufs: seq<Buf>): set<nat> {
    set i: nat | i < |bufs| && bufs[i].busy
  }

  /** The pinned ones. */
  ghost function PinnedAt(bufs: seq<Buf>): set<nat> {
    set i: nat | i < |bufs| && bufs[i].dirty
  }

  /** bget finds a buffer to recycle if and only if not all are held or pinned. */
  lemma SpareIff(bufs: seq<Buf>)
    requires |bufs| == NBUF
    ensures HasSpare(bufs) <==> |Held(bufs) + PinnedAt(bufs)| < NBUF
  {
    hide Upto;
    var taken := Held(bufs) + PinnedAt(bufs);
    if HasSpare(bufs) {
      var i :| 0 <= i < |bufs| && !bufs[i].busy && !bufs[i].dirty;
      Fewer(taken + {i}, Upto(NBUF));
    } else {
      assert taken == Upto(NBUF);
    }
  }

  ghost function Upto(n: nat): (r: set<nat>)
    ensures |r| == n && forall i: nat :: i in r <==> i < n
  {
    if n == 0 then {} else Upto(n - 1) + {n - 1}
  }

  /** Buffers of different sectors are no more than the sectors. */
  lemma {:induction false} DistinctFit(bufs: seq<Buf>, at: set<nat>, x: set<nat>)
    requires forall i :: i in at ==> i < |bufs| && bufs[i].sector in x
    requires forall i, j :: i in at && j in at && i != j ==> bufs[i].sector != bufs[j].sector
    ensures |at| <= |x|
    decreases |at|
  {
    if at != {} {
      var i :| i in at;
      DistinctFit(bufs, at - {i}, x - {bufs[i].sector});
    }
  }

  /** The sectors held or logged are as many as the buffers taken up, at least. */
  lemma TakenFit(bufs: seq<Buf>, disk: Disk, logical: Disk, lh: seq<int>, x: set<nat>)
    requires CacheOk(bufs, disk, logical) && Pinned(bufs, lh) && forall s: nat :: s in lh ==> s in x
    requires forall i :: 0 <= i < NBUF && bufs[i].busy ==> bufs[i].valid && bufs[i].sector in x
    ensures |Held(bufs) + PinnedAt(bufs)| <= |x|
  {
    hide IsLogical, DirtyAt;
    DistinctFit(bufs, Held(bufs) + PinnedAt(bufs), x);
  }

  /** write_head's stores into the header block: the count, then each sector number. */
  method EncodeHead(b: Block, lh: seq<int>) returns (r: Block)
    requires |lh| <= LOGSIZE
    ensures r == WithHead(b, lh)
  {
    r := b[0 := |lh|];
    var i := 0;
    while i < |lh|
      invariant 0 <= i <= |lh|
      invariant r == [|lh|] + lh[..i] + b[1 + i..]
    {
      r := r[1 + i := lh[i]];
      i := i + 1;
    }
  }

  /** The buffers held, by sector, and no others; each has the contents the transaction gives its sector. */
  ghost predicate HoldsAt(log: Log, bufs: seq<Buf>, at: map<nat, nat>, contents: Disk) {
    && |bufs| == NBUF
    && (forall s :: s in at ==>
          && at[s] < NBUF && bufs[at[s]].busy && bufs[at[s]].valid && bufs[at[s]].sector == s
          && log.IsHome(contents, s) && bufs[at[s]].data == contents[s])
    && forall j :: 0 <= j < NBUF && bufs[j].busy ==> bufs[j].sector in at && at[bufs[j].sector] == j
  }

  lemma HoldsMore(log: Log, bufs: seq<Buf>, bufs': seq<Buf>, at: map<nat, nat>, contents: Disk, s: nat, i: nat)
    requires HoldsAt(log, bufs, at, contents) && s !in at && log.IsHome(contents, s) && i < NBUF == |bufs'|
    requires !bufs[i].busy && bufs'[i].busy && bufs'[i].valid && bufs'[i].sector == s && bufs'[i].data == contents[s]
    requires forall j :: 0 <= j < NBUF && j != i ==> bufs'[j] == bufs[j]
    ensures HoldsAt(log, bufs', at[s := i], contents) && at[s := i].Keys == at.Keys + {s}
  {
  }

  lemma HoldsPut(log: Log, bufs: seq<Buf>, bufs': seq<Buf>, at: map<nat, nat>, contents: Disk, w: Write)
    requires HoldsAt(log, bufs, at, contents) && w.sector in at && |bufs'| == NBUF
    requires var i := at[w.sector]; bufs'[i] == bufs[i].(data := w.data, dirty := true)
    requires forall j :: 0 <= j < NBUF && bufs[j].busy && j != at[w.sector] ==> bufs'[j] == bufs[j]
    requires forall j :: 0 <= j < NBUF ==> bufs'[j].busy == bufs[j].busy
    ensures HoldsAt(log, bufs', at, contents[w.sector := w.data])
  {
  }

  lemma HoldsLess(log: Log, bufs: seq<Buf>, at: map<nat, nat>, contents: Disk, s: nat)
    requires HoldsAt(log, bufs, at, contents) && s in at
    ensures HoldsAt(log, bufs[at[s] := bufs[at[s]].(busy := false)], at - {s}, contents)
    ensures (at - {s}).Keys == at.Keys - {s}
  {
  }

  lemma SameTaken(bufs: seq<Buf>, bufs': seq<Buf>)
    requires |bufs| == |bufs'|
    requires forall j :: 0 <= j < |bufs| ==> bufs'[j].busy == bufs[j].busy && bufs'[j].dirty == bufs[j].dirty
    ensures Held(bufs') == Held(bufs) && PinnedAt(bufs') == PinnedAt(bufs)
  {
  }

  /** A held clean buffer is the only one of its sector. */
  lemma CleanHere(bufs: seq<Buf>, disk: Disk, logical: Disk, i: nat)
    requires CacheOk(bufs, disk, logical) && i < NBUF && bufs[i].valid && !bufs[i].dirty
    ensures !DirtyAt(bufs, bufs[i].sector)
  {
  }

  class LogDev {
    const log: Log
    const bc: Bcache
    var lh: seq<int>     // in-memory header: the logged sectors
    var busy: bool       // a transaction is active

    ghost var base: Disk // the disk when the transaction began
    ghost var txn: Txn   // the log_write calls since
    ghost var mark: nat  // how many sector writes had been made by then

    ghost predicate Valid()
      reads this, bc
    {
      && bc.Valid() && LogOk(log, bc.bufs, bc.disk, base, txn, lh)
      && (!busy ==> txn == [])
      && mark <= |bc.writes| && bc.writes[mark..] == SlotWrites(log, txn)
    }

    /** One pass of begin_trans under the log lock: take the log, or sleep until it is free. */
    method BeginTrans() returns (entered: bool)
      requires Valid()
      modifies this`busy
      ensures Valid() && busy && entered == !old(busy)
    {
      entered := !busy;
      busy := true;
    }

    /** log_write of a held buffer: its data goes to the slot of its sector, the sector is recorded, and
        the buffer is pinned.  One sector of the logical disk changes, and no home sector of the
        physical one. */
    method LogWrite(i: nat)
      requires Valid() && busy && i < NBUF && bc.bufs[i].busy && bc.bufs[i].valid
      requires log.IsHome(bc.disk, bc.bufs[i].sector) && |lh| < LOGSIZE && |lh| < log.size - 1
      requires forall j :: 0 <= j < NBUF && bc.bufs[j].busy ==> !log.InArea(bc.bufs[j].sector)
      requires |Held(bc.bufs) + PinnedAt(bc.bufs)| < NBUF
      modifies this`lh, this`txn, bc
      ensures Valid()
      ensures var w := Write(old(bc.bufs[i].sector), old(bc.bufs[i].data));
              var v := Write(log.start + 1 + SlotOf(old(lh), w.sector), w.data);
              && txn == old(txn) + [w] && lh == Logged(old(lh), w.sector)
              && bc.writes == old(bc.writes) + [v]
              && v.sector < |old(bc.logical)| && w.sector < |old(bc.logical)|
              && bc.logical == old(bc.logical)[v.sector := v.data][w.sector := w.data]
              && bc.bufs[i] == old(bc.bufs[i]).(dirty := true)
      ensures forall j :: 0 <= j < NBUF && old(bc.bufs[j].busy) && j != i ==> bc.bufs[j] == old(bc.bufs[j])
      ensures forall j :: 0 <= j < NBUF ==> bc.bufs[j].busy == old(bc.bufs[j].busy)
    {
      hide LogOk, CacheOk, Ring, Pinned, GoodSectors, DirtyAt, SlotOf, SlotWrites, LhOf, Held, GoodTxn, TxnLogged,
           Applied, PinnedOrClean, PinnedAt;
      LogOkFacts(log, bc.bufs, bc.disk, base, txn, lh);
      LogOkParts(log, bc.bufs, bc.disk, base, txn, lh);
      CacheShape(bc.bufs, bc.disk, bc.logical);
      SpareIff(bc.bufs);
      var s, data := bc.bufs[i].sector, bc.bufs[i].data;
      ghost var bufs0, disk0, logical0 := bc.bufs, bc.disk, bc.logical;
      var k := FindSlot(s);
      WriteSlot(log.start + k + 1, data);
      bc.MarkDirty(i);
      CacheShape(bc.bufs, bc.disk, bc.logical);
      OneBufferEach(bufs0, disk0, logical0, i);
      LogOkLogged(log, bufs0, bc.bufs, disk0, base, txn, lh, i);
      Snoc(log, txn, Write(s, data));
      assert bc.writes[mark..] == old(bc.writes)[mark..] + [Write(log.start + k + 1, data)];
      if k == |lh| {
        lh := lh + [s];
      }
      txn := txn + [Write(s, data)];
    }

    // ----- what happens between log_writes -----

    /** bread of a home sector inside a transaction: a logged one is in its buffer, another may need a new one. */
    method Read(sector: nat) returns (i: nat)
      requires Valid() && log.IsHome(bc.disk, sector)
      requires DirtyAt(bc.bufs, sector) || |Held(bc.bufs) + PinnedAt(bc.bufs)| < NBUF
      requires forall j :: 0 <= j < NBUF && bc.bufs[j].busy ==> bc.bufs[j].sector != sector
      modifies bc
      ensures Valid() && bc.disk == old(bc.disk) && bc.logical == old(bc.logical) && bc.writes == old(bc.writes)
      ensures i < NBUF && bc.bufs[i].busy && bc.bufs[i].valid && bc.bufs[i].sector == sector
      ensures bc.bufs[i].data == bc.logical[sector] && !old(bc.bufs[i].busy)
      ensures forall j :: 0 <= j < NBUF && j != i ==> bc.bufs[j] == old(bc.bufs[j])
    {
      hide LogOk, CacheOk, Ring, Pinned, SlotWrites, Held, PinnedAt;
      LogOkFacts(log, bc.bufs, bc.disk, base, txn, lh);
      CacheShape(bc.bufs, bc.disk, bc.logical);
      SpareIff(bc.bufs);
      if DirtyAt(bc.bufs, sector) {
        ghost var j :| 0 <= j < |bc.bufs| && bc.bufs[j].dirty && bc.bufs[j].sector == sector;
        assert Matches(bc.bufs[j], ROOTDEV, sector);
      }
      i := bc.Bread(ROOTDEV, sector);
      CacheShape(bc.bufs, bc.disk, bc.logical);
      Grabbed(log, old(bc.bufs), bc.bufs, bc.disk, base, txn, lh, i);
    }

    /** The holder of a buffer stores into it. */
    method Modify(i: nat, data: Block)
      requires Valid() && i < NBUF && bc.bufs[i].busy && bc.bufs[i].valid
      modifies bc
      ensures Valid() && bc.disk == old(bc.disk) && bc.writes == old(bc.writes)
      ensures bc.bufs == old(bc.bufs)[i := old(bc.bufs[i]).(data := data)]
    {
      hide LogOk, CacheOk, Ring, SlotWrites;
      CacheShape(bc.bufs, bc.disk, bc.logical);
      bc.Store(i, data);
      Grabbed(log, old(bc.bufs), bc.bufs, bc.disk, base, txn, lh, i);
    }

    /** brelse: what was changed must have been logged. */
    method Release(i: nat)
      requires Valid() && i < NBUF && bc.bufs[i].busy && bc.bufs[i].valid && bc.bufs[i].sector < |bc.disk|
      requires bc.bufs[i].data == if bc.bufs[i].dirty then Contents()[bc.bufs[i].sector] else bc.disk[bc.bufs[i].sector]
      modifies bc
      ensures Valid() && bc.disk == old(bc.disk) && bc.logical == old(bc.logical) && bc.writes == old(bc.writes)
      ensures bc.bufs == old(bc.bufs)[i := old(bc.bufs[i]).(busy := false)]
    {
      hide LogOk, CacheOk, Ring, SlotWrites;
      CacheShape(bc.bufs, bc.disk, bc.logical);
      LogOkParts(log, bc.bufs, bc.disk, base, txn, lh);
      bc.Brelse(i);
      Released(log, old(bc.bufs), bc.disk, base, txn, lh, i);
    }

    // ----- traces -----

    ghost predicate Holding(at: map<nat, nat>)
      reads this, bc
    {
      Valid() && HoldsAt(log, bc.bufs, at, Contents())
    }

    lemma RoomIn(at: map<nat, nat>)
      requires Holding(at)
      ensures |Held(bc.bufs) + PinnedAt(bc.bufs)| <= |at.Keys + SectorsOf(txn)|
      ensures forall s: nat :: DirtyAt(bc.bufs, s) <==> s in SectorsOf(txn)
    {
      hide Held, PinnedAt, SectorsOf, Applied;
      LogOkFacts(log, bc.bufs, bc.disk, base, txn, lh);
      LogOkParts(log, bc.bufs, bc.disk, base, txn, lh);
      LhOfCounts(txn);
      TakenFit(bc.bufs, bc.disk, bc.logical, lh, at.Keys + SectorsOf(txn));
    }

    /** Nobody's buffer: the cache shows the sector as the transaction leaves it. */
    lemma IdleIsContents(s: nat)
      requires Valid() && log.IsHome(bc.disk, s)
      requires forall j :: 0 <= j < |bc.bufs| && bc.bufs[j].busy ==> bc.bufs[j].sector != s
      ensures s < |bc.logical| && bc.logical[s] == Contents()[s]
    {
      hide Applied, SlotWrites, LhOf;
      if s in lh {
        var k :| 0 <= k < |lh| && lh[k] == s;
        var i :| 0 <= i < |bc.bufs| && bc.bufs[i].dirty && bc.bufs[i].sector == lh[k];
      } else {
        NotPinned(bc.bufs, lh, s);
      }
    }

    lemma CleanIsContents(s: nat)
      requires Valid() && log.IsHome(bc.disk, s) && !DirtyAt(bc.bufs, s)
      ensures bc.disk[s] == Contents()[s]
    {
      hide Applied, SlotWrites, LhOf;
      forall k | 0 <= k < |lh| ensures lh[k] != s {
        assert DirtyAt(bc.bufs, lh[k]);
      }
    }

    /** bread. */
    method FetchStep(at: map<nat, nat>, s: nat) returns (at': map<nat, nat>)
      requires Holding(at) && log.IsHome(bc.disk, s) && StepOk(at.Keys, Fetch(s))
      requires StepFits(at.Keys + SectorsOf(txn), Fetch(s), NBUF)
      modifies bc
      ensures Holding(at') && at'.Keys == HeldThen(at.Keys, Fetch(s)) && |bc.disk| == |old(bc.disk)|
      ensures bc.writes == old(bc.writes)
    {
      hide LogOk, CacheOk, Ring, SlotWrites, Held, PinnedAt, SectorsOf, DirtyAt, Applied, HoldsAt;
      RoomIn(at);
      NotHeld(log, bc.bufs, at, Contents(), s);
      IdleIsContents(s);
      RoomFor(at.Keys + SectorsOf(txn), s);
      ghost var contents := Contents();
      var i := Read(s);
      CacheShape(bc.bufs, bc.disk, bc.logical);
      HoldsMore(log, old(bc.bufs), bc.bufs, at, contents, s, i);
      return at[s := i];
    }

    /** log_write of a held buffer with new contents. */
    method PutStep(at: map<nat, nat>, w: Write)
      requires Holding(at) && busy && StepOk(at.Keys, Put(w)) && StepFits(at.Keys + SectorsOf(txn), Put(w), NBUF)
      requires |lh| < LOGSIZE && |lh| < log.size - 1
      modifies this`lh, this`txn, bc
      ensures Holding(at) && txn == old(txn) + [w] && |bc.disk| == |old(bc.disk)|
      ensures old(bc.writes) <= bc.writes
    {
      hide LogOk, CacheOk, Ring, SlotWrites, Held, PinnedAt, SectorsOf, DirtyAt, Applied, LhOf, SlotOf, HoldsAt;
      RoomIn(at);
      HeldHere(log, bc.bufs, at, Contents(), w.sector);
      LogOkFacts(log, bc.bufs, bc.disk, base, txn, lh);
      ghost var contents := Contents();
      var i := at[w.sector];
      Modify(i, w.data);
      SameTaken(old(bc.bufs), bc.bufs);
      LogWrite(i);
      LogOkFacts(log, bc.bufs, bc.disk, base, txn, lh);
      LogOkParts(log, bc.bufs, bc.disk, base, old(txn) + [w], lh);
      LoggedLast(log, base, old(txn), w);
      CacheShape(bc.bufs, bc.disk, bc.logical);
      HoldsPut(log, old(bc.bufs), bc.bufs, at, contents, w);
    }

    /** brelse. */
    method DropStep(at: map<nat, nat>, s: nat) returns (at': map<nat, nat>)
      requires Holding(at) && StepOk(at.Keys, Drop(s))
      modifies bc
      ensures Holding(at') && at'.Keys == HeldThen(at.Keys, Drop(s)) && |bc.disk| == |old(bc.disk)|
      ensures bc.writes == old(bc.writes)
    {
      hide LogOk, CacheOk, Ring, SlotWrites, Applied, HoldsAt;
      HeldHere(log, bc.bufs, at, Contents(), s);
      ghost var contents := Contents();
      var i := at[s];
      if !bc.bufs[i].dirty {
        CleanHere(bc.bufs, bc.disk, bc.logical, i);
        CleanIsContents(s);
      }
      HoldsLess(log, bc.bufs, at, contents, s);
      Release(i);
      return at - {s};
    }

    static lemma RoomFor(taken: set<nat>, s: nat)
      requires StepFits(taken, Fetch(s), NBUF)
      ensures s in taken || |taken| < NBUF
    {
      if s !in taken { assert |taken + {s}| == |taken| + 1; }
    }

    static lemma NotHeld(log: Log, bufs: seq<Buf>, at: map<nat, nat>, contents: Disk, s: nat)
      requires HoldsAt(log, bufs, at, contents) && s !in at
      ensures |bufs| == NBUF && forall j :: 0 <= j < NBUF && bufs[j].busy ==> bufs[j].sector != s
    {
    }

    static lemma HeldHere(log: Log, bufs: seq<Buf>, at: map<nat, nat>, contents: Disk, s: nat)
      requires HoldsAt(log, bufs, at, contents) && s in at
      ensures |bufs| == NBUF && at[s] < NBUF && bufs[at[s]].busy && bufs[at[s]].valid && bufs[at[s]].sector == s
      ensures log.IsHome(contents, s) && bufs[at[s]].data == contents[s]
      ensures forall j :: 0 <= j < NBUF && bufs[j].busy ==> !log.InArea(bufs[j].sector)
    {
    }

    static lemma LoggedLast(log: Log, base: Disk, txn: Txn, w: Write)
      requires GoodTxn(log, base, txn + [w])
      ensures InRange(base, txn + [w]) && InRange(base, txn) && w.sector < |base|
      ensures Applied(base, txn + [w]) == Applied(base, txn)[w.sector := w.data]
    {
      var t := txn + [w];
      assert t[|txn|] == w;
      assert forall k :: 0 <= k < |txn| ==> t[k] == txn[k];
      AppliedLast(base, txn, w);
    }

    /** A whole transaction, alone on the machine: its sector writes are exactly the modelled ones, and neither
        "bget: no buffers" nor "too big a transaction" is reached. */
    method RunTxn(t: Trace)
      requires Valid() && !busy && NoneBusy(bc.bufs) && GoodTrace(log, bc.disk, t)
      modifies this, bc
      ensures Valid() && !busy && NoneBusy(bc.bufs) && Quiet(log, old(bc.disk))
      ensures bc.writes == old(bc.writes) + TxnWrites(log, old(bc.disk), LogsOf(t))
      ensures bc.disk == Applied(old(bc.disk), TxnWrites(log, old(bc.disk), LogsOf(t)))
      ensures SameHome(log, Applied(old(bc.disk), LogsOf(t)), bc.disk)
    {
      hide LogOk, CacheOk, Ring, SlotWrites, Applied, TxnWrites, LhOf, SectorsOf, LogsOf, HeldBy, Holding, StepOk,
           StepFits, HeldThen;
      LogOkParts(log, bc.bufs, bc.disk, base, txn, lh);
      CacheShape(bc.bufs, bc.disk, bc.logical);
      var _ := BeginTrans();
      ghost var d0 := bc.disk;
      var at: map<nat, nat> := map[];
      var k := 0;
      NoSteps(t);
      NobodyHolds();
      while k < |t|
        invariant 0 <= k <= |t| && Holding(at) && busy && txn == LogsOf(t[..k]) && at.Keys == HeldBy(t[..k])
        invariant base == d0 && |bc.disk| == |d0| && mark == old(mark) == |old(bc.writes)|
        invariant old(bc.writes) <= bc.writes
      {
        NextStep(t, k);
        assert StepOk(HeldBy(t[..k]), t[k]) && StepFits(TakenUp(t[..k]), t[k], NBUF);
        at := RunStep(at, t[k]);
        k := k + 1;
      }
      assert t[..k] == t;
      CommitFits(t, NBUF);
      NobodyHeld(at);
      CommitTrans();
    }

    /** One step of a trace. */
    method RunStep(at: map<nat, nat>, st: Step) returns (at': map<nat, nat>)
      requires Holding(at) && busy && StepOk(at.Keys, st) && StepFits(at.Keys + SectorsOf(txn), st, NBUF)
      requires st.Fetch? ==> log.IsHome(bc.disk, st.s)
      requires st.Put? ==> |LhOf(txn)| < LOGSIZE && |LhOf(txn)| < log.size - 1
      modifies this`lh, this`txn, bc
      ensures Holding(at') && at'.Keys == HeldThen(at.Keys, st) && |bc.disk| == |old(bc.disk)|
      ensures old(bc.writes) <= bc.writes && txn == if st.Put? then old(txn) + [st.w] else old(txn)
    {
      hide LogOk, CacheOk, Ring, SlotWrites, Applied, LhOf, SectorsOf;
      match st {
        case Fetch(s) =>
          at' := FetchStep(at, s);
        case Put(w) =>
          LogOkParts(log, bc.bufs, bc.disk, base, txn, lh);
          PutStep(at, w);
          at' := at;
        case Drop(s) =>
          at' := DropStep(at, s);
      }
    }

    lemma NobodyHolds()
      requires Valid() && NoneBusy(bc.bufs)
      ensures Holding(map[]) && (!busy ==> mark == |bc.writes|)
    {
    }

    lemma NobodyHeld(at: map<nat, nat>)
      requires Holding(at) && at.Keys == {}
      ensures Valid() && NoneBusy(bc.bufs) && |lh| == |SectorsOf(txn)|
    {
      LogOkParts(log, bc.bufs, bc.disk, base, txn, lh);
      LhOfCounts(txn);
    }

    static lemma NoSteps(t: Trace)
      ensures LogsOf(t[..0]) == [] && HeldBy(t[..0]) == {}
    {
    }

    static lemma NextStep(t: Trace, k: nat)
      requires k < |t|
      ensures LogsOf(t[..k + 1]) == if t[k].Put? then LogsOf(t[..k]) + [t[k].w] else LogsOf(t[..k])
      ensures HeldBy(t[..k + 1]) == HeldThen(HeldBy(t[..k]), t[k])
      ensures t[k].Put? ==> |LogsOf(t[..k])| < |LogsOf(t)| && LogsOf(t)[..|LogsOf(t[..k])|] == LogsOf(t[..k])
    {
      assert t[..k + 1] == t[..k] + [t[k]];
      OneStep(t[..k], t[k]);
      LogsPrefix(t, k);
    }

    /** Any list of transactions: the sector writes are those of the crash model's run, in order. */
    method RunTxns(ts: seq<Trace>)
      requires Valid() && !busy && NoneBusy(bc.bufs) && GoodTraces(log, bc.disk, ts)
      modifies this, bc
      ensures Valid() && !busy && NoneBusy(bc.bufs) && Quiet(log, old(bc.disk))
      ensures GoodTxns(log, old(bc.disk), AllLogs(ts))
      ensures bc.writes == old(bc.writes) + RunWrites(log, old(bc.disk), AllLogs(ts))
      ensures bc.disk == Applied(old(bc.disk), RunWrites(log, old(bc.disk), AllLogs(ts)))
    {
      hide LogOk, CacheOk, Ring, Applied, TxnWrites, GoodTxn, LogsOf, HeldBy;
      LogOkParts(log, bc.bufs, bc.disk, base, txn, lh);
      ghost var d0, ws0, txns := bc.disk, bc.writes, AllLogs(ts);
      AppliedNil(d0);
      var k := 0;
      ghost var done := [];
      assert txns[0..] == txns;
      assert GoodTxns(log, d0, txns);
      while k < |ts|
        invariant 0 <= k <= |ts| && Valid() && !busy && NoneBusy(bc.bufs) && |bc.disk| == |d0|
        invariant Quiet(log, bc.disk) && GoodTxns(log, bc.disk, txns[k..])
        invariant bc.writes == ws0 + done && InRange(d0, done) && bc.disk == Applied(d0, done)
        invariant done + RunWrites(log, bc.disk, txns[k..]) == RunWrites(log, d0, txns)
      {
        ghost var d := bc.disk;
        assert txns[k..][0] == txns[k] && txns[k..][1..] == txns[k + 1..];
        assert GoodTxn(log, d, txns[k..][0]);
        TransactionCompletes(log, d, txns[k]);
        SameSizeTrace(log, d0, d, ts[k]);
        RunTxn(ts[k]);
        ghost var ws := TxnWrites(log, d, txns[k]);
        AppliedAppend(d0, done, ws);
        GoodTxnsSameSize(log, d, bc.disk, txns[k + 1..]);
        done := done + ws;
        k := k + 1;
      }
      assert txns[k..] == [] && done + [] == done;
    }

    /** The disk as the transaction so far leaves it. */
    ghost function Contents(): (d: Disk)
      requires Valid()
      reads this, bc
      ensures |d| == |bc.disk|
    {
      LogOkFacts(log, bc.bufs, bc.disk, base, txn, lh);
      LogOkParts(log, bc.bufs, bc.disk, base, txn, lh);
      Applied(base, txn)
    }

    /** A buffer that is held afterwards, and dirty only if it held the same sector dirty before. */
    static lemma Grabbed(log: Log, bufs: seq<Buf>, bufs': seq<Buf>, disk: Disk, base: Disk, txn: Txn, lh: seq<int>,
                         i: nat)
      requires LogOk(log, bufs, disk, base, txn, lh) && |bufs| == |bufs'| && i < |bufs| && bufs'[i].busy
      requires forall j :: 0 <= j < |bufs| && j != i ==> bufs'[j] == bufs[j]
      requires forall s :: DirtyAt(bufs', s) <==> DirtyAt(bufs, s)
      ensures LogOk(log, bufs', disk, base, txn, lh)
    {
      hide GoodTxn, TxnLogged, Applied, SlotWrites, LhOf, Quiet;
      if bufs'[i].dirty {
        assert DirtyAt(bufs', bufs'[i].sector);
        var j :| 0 <= j < |bufs| && bufs[j].dirty && bufs[j].sector == bufs'[i].sector;
      }
    }

    static lemma Released(log: Log, bufs: seq<Buf>, disk: Disk, base: Disk, txn: Txn, lh: seq<int>, i: nat)
      requires LogOk(log, bufs, disk, base, txn, lh) && i < |bufs|
      requires InRange(base, txn)
      requires bufs[i].dirty && bufs[i].sector < |base| ==> bufs[i].data == Applied(base, txn)[bufs[i].sector]
      ensures LogOk(log, bufs[i := bufs[i].(busy := false)], disk, base, txn, lh)
    {
      hide GoodTxn, TxnLogged, Applied, SlotWrites, LhOf, Quiet;
      var bufs' := bufs[i := bufs[i].(busy := false)];
      forall k | 0 <= k < |lh| ensures DirtyAt(bufs', lh[k]) {
        assert DirtyAt(bufs, lh[k]);
        var j :| 0 <= j < |bufs| && bufs[j].dirty && bufs[j].sector == lh[k];
        assert bufs'[j].dirty;
      }
    }

    /** Write a block to a sector of the log that no buffer holds or pins; held buffers stay as they are. */
    method WriteSlot(sector: nat, data: Block)
      requires bc.Valid() && sector < |bc.disk| && HasSpare(bc.bufs) && !DirtyAt(bc.bufs, sector)
      requires forall j :: 0 <= j < NBUF && bc.bufs[j].busy ==> bc.bufs[j].sector != sector
      modifies bc
      ensures bc.Valid() && bc.writes == old(bc.writes) + [Write(sector, data)]
      ensures sector < |old(bc.logical)| && bc.disk == old(bc.disk)[sector := data]
      ensures bc.logical == old(bc.logical)[sector := data] && CleanChange(old(bc.bufs), bc.bufs)
      ensures |bc.bufs| == NBUF && forall j :: 0 <= j < NBUF ==>
                bc.bufs[j].busy == old(bc.bufs[j].busy) && (bc.bufs[j].busy ==> bc.bufs[j] == old(bc.bufs[j]))
    {
      hide CacheOk, Ring, DirtyAt;
      CacheShape(bc.bufs, bc.disk, bc.logical);
      var l := bc.Bread(ROOTDEV, sector);
      if old(bc.bufs[l].dirty) { DirtyHere(old(bc.bufs), l); }
      bc.Overwrite(l, data);
      bc.Brelse(l);
    }

    /** log_write's search loop. */
    method FindSlot(s: nat) returns (k: nat)
      ensures k == SlotOf(lh, s)
    {
      k := 0;
      while k < |lh| && lh[k] != s
        invariant k <= |lh| && SlotOf(lh, s) == k + SlotOf(lh[k..], s)
      {
        k := k + 1;
      }
    }

    /** write_head: the in-memory header goes into the header block and to disk. */
    method WriteHead()
      requires bc.Valid() && log.Fits(bc.disk) && |lh| <= LOGSIZE
      requires NoneBusy(bc.bufs) && HasSpare(bc.bufs) && !DirtyAt(bc.bufs, log.start)
      modifies bc
      ensures bc.Valid() && NoneBusy(bc.bufs) && HasSpare(bc.bufs)
      ensures bc.disk == old(bc.disk)[log.start := HeadWrite(log, old(bc.disk), lh).data]
      ensures bc.writes == old(bc.writes) + [HeadWrite(log, old(bc.disk), lh)]
      ensures CleanChange(old(bc.bufs), bc.bufs)
    {
      hide CacheOk, Ring, WithHead;
      CacheShape(bc.bufs, bc.disk, bc.logical);
      LogicalAtClean(bc.bufs, bc.disk, bc.logical, log.start);
      var b := bc.Bread(ROOTDEV, log.start);
      var data := EncodeHead(bc.bufs[b].data, lh);
      bc.Overwrite(b, data);
      bc.Brelse(b);
      assert !bc.bufs[b].busy && !bc.bufs[b].dirty;
    }

    /** install_trans: copy each slot to its home sector. */
    method InstallTrans()
      requires bc.Valid() && GoodSectors(log, bc.disk, lh) && NoneBusy(bc.bufs) && HasSpare(bc.bufs)
      requires PinnedOrClean(bc.bufs, lh)
      modifies bc
      ensures bc.Valid() && NoneBusy(bc.bufs) && NoneDirty(bc.bufs)
      ensures bc.disk == Applied(old(bc.disk), InstallWrites(log, old(bc.disk), lh))
      ensures bc.writes == old(bc.writes) + InstallWrites(log, old(bc.disk), lh)
    {
      hide CacheOk, Ring, Applied;
      ghost var d0 := bc.disk;
      ghost var ws := InstallWrites(log, d0, lh);
      assert lh[0..] == lh && ws[..0] == [];
      AppliedNil(d0);
      var tail := 0;
      while tail < |lh|
        invariant 0 <= tail <= |lh| && bc.Valid() && NoneBusy(bc.bufs) && HasSpare(bc.bufs)
        invariant InRange(d0, ws[..tail]) && bc.disk == Applied(d0, ws[..tail])
        invariant bc.writes == old(bc.writes) + ws[..tail]
        invariant PinnedOrClean(bc.bufs, lh[tail..])
      {
        InstallOne(tail, d0);
        AppliedNext(d0, ws, tail);
        tail := tail + 1;
      }
      assert ws[..|lh|] == ws && lh[|lh|..] == [];
    }

    /** One round of install_trans. */
    method InstallOne(tail: nat, ghost d0: Disk)
      requires bc.Valid() && NoneBusy(bc.bufs) && HasSpare(bc.bufs) && tail < |lh|
      requires GoodSectors(log, d0, lh) && InRange(d0, InstallWrites(log, d0, lh)[..tail])
      requires bc.disk == Applied(d0, InstallWrites(log, d0, lh)[..tail])
      requires PinnedOrClean(bc.bufs, lh[tail..])
      modifies bc
      ensures bc.Valid() && NoneBusy(bc.bufs) && HasSpare(bc.bufs)
      ensures bc.disk == old(bc.disk)[lh[tail] := d0[log.start + 1 + tail]]
      ensures bc.writes == old(bc.writes) + [InstallWrites(log, d0, lh)[tail]]
      ensures PinnedOrClean(bc.bufs, lh[tail + 1..])
    {
      hide CacheOk, Ring, Applied, InstallWrites, GoodSectors, PinnedOrClean, DirtyAt;
      CacheShape(bc.bufs, bc.disk, bc.logical);
      ghost var bufs0 := bc.bufs;
      SlotIsClean(log, d0, bc.bufs, lh, tail);
      LogicalAtClean(bc.bufs, bc.disk, bc.logical, log.start + tail + 1);
      var l := bc.Bread(ROOTDEV, log.start + tail + 1);
      CacheShape(bc.bufs, bc.disk, bc.logical);
      RoomForHome(log, d0, bufs0, bc.bufs, lh, tail, l);
      if bufs0[l].dirty { DirtyHere(bufs0, l); }
      assert bc.bufs[l].data == d0[log.start + 1 + tail];
      var d := bc.Bread(ROOTDEV, lh[tail]);
      bc.Overwrite(d, bc.bufs[l].data);
      bc.Brelse(l);
      bc.Brelse(d);
      CacheShape(bc.bufs, bc.disk, bc.logical);
      InstalledPins(log, d0, bufs0, bc.bufs, bc.disk, bc.logical, lh, tail, l, d);
    }

    /** commit_trans: exactly the writes LogCrash gives for this transaction.  Afterwards nothing is
        pinned, the physical disk is the logical one, and its home sectors hold the transaction. */
    method CommitTrans()
      requires Valid() && NoneBusy(bc.bufs) && |lh| < NBUF
      modifies this, bc
      ensures Valid() && !busy && lh == [] && txn == [] && base == bc.disk
      ensures NoneBusy(bc.bufs) && NoneDirty(bc.bufs) && bc.logical == bc.disk
      ensures GoodTxn(log, old(base), old(txn))
      ensures bc.disk == Applied(old(base), TxnWrites(log, old(base), old(txn)))
      ensures bc.writes == old(bc.writes)[..old(mark)] + TxnWrites(log, old(base), old(txn))
      ensures SameHome(log, Applied(old(base), old(txn)), bc.disk)
      ensures SameHome(log, old(bc.logical), bc.disk)
    {
      hide LogOk, CacheOk, Ring, Applied, TxnWrites, GoodSectors, PinnedOrClean, TxnLogged, GoodTxn;
      LogOkParts(log, bc.bufs, bc.disk, base, txn, lh);
      LogicalIsContents(log, bc.bufs, bc.disk, bc.logical, base, txn, lh);
      TransactionCompletes(log, base, txn);
      EmptyCommit(log, base, txn);
      AppliedNil(base);
      if |lh| > 0 {
        Commit();
      }
      CleanCacheIsDisk(bc.bufs, bc.disk, bc.logical);
      LogOkStart(log, bc.bufs, bc.disk);
      WholeTxn(log, base, txn, old(bc.writes), mark, bc.writes);
      base, txn, mark := bc.disk, [], |bc.writes|;
      busy := false;
    }

    /** The slot writes since the transaction began, and then the commit, are all its writes. */
    static lemma WholeTxn(log: Log, d: Disk, txn: Txn, ws: seq<Write>, mark: nat, ws': seq<Write>)
      requires GoodTxn(log, d, txn) && mark <= |ws| && ws[mark..] == SlotWrites(log, txn)
      requires ws' == ws + TxnWrites(log, d, txn)[|txn|..]
      ensures ws' == ws[..mark] + TxnWrites(log, d, txn)
    {
      SlotsFirst(log, d, txn);
      Rejoin(ws, mark, TxnWrites(log, d, txn), |txn|);
    }

    static lemma Rejoin<T>(ws: seq<T>, mark: nat, all: seq<T>, n: nat)
      requires mark <= |ws| && n <= |all| && ws[mark..] == all[..n]
      ensures ws + all[n..] == ws[..mark] + all
    {
      assert all == all[..n] + all[n..];
      assert ws == ws[..mark] + ws[mark..];
    }

    static lemma SlotsFirst(log: Log, d: Disk, txn: Txn)
      requires GoodTxn(log, d, txn)
      ensures |txn| <= |TxnWrites(log, d, txn)| && TxnWrites(log, d, txn)[..|txn|] == SlotWrites(log, txn)
    {
      hide CommitWrites, SlotWrites, Applied, LhOf;
    }

    lemma SpareToCommit()
      requires Valid() && NoneBusy(bc.bufs) && |lh| < NBUF
      ensures HasSpare(bc.bufs)
    {
      hide Held, PinnedAt, SectorsOf, LhOf, Applied, GoodTxn, TxnLogged;
      LogOkFacts(log, bc.bufs, bc.disk, base, txn, lh);
      LogOkParts(log, bc.bufs, bc.disk, base, txn, lh);
      CacheShape(bc.bufs, bc.disk, bc.logical);
      SpareIff(bc.bufs);
      LhOfCounts(txn);
      TakenFit(bc.bufs, bc.disk, bc.logical, lh, SectorsOf(txn));
    }

    /** commit_trans when there is something to commit. */
    method Commit()
      requires Valid() && NoneBusy(bc.bufs) && 0 < |lh| < NBUF
      modifies this`lh, bc
      ensures bc.Valid() && lh == [] && NoneBusy(bc.bufs) && NoneDirty(bc.bufs)
      ensures GoodTxn(log, base, txn) && bc.disk == Applied(base, TxnWrites(log, base, txn))
      ensures bc.writes == old(bc.writes) + TxnWrites(log, base, txn)[|txn|..]
    {
      hide LogOk, CacheOk, Ring, Applied, TxnWrites, GoodSectors, PinnedOrClean, TxnLogged, GoodTxn, SectorsOf, LhOf,
           Held, PinnedAt, InstallWrites, SlotWrites;
      LogOkFacts(log, bc.bufs, bc.disk, base, txn, lh);
      LogOkParts(log, bc.bufs, bc.disk, base, txn, lh);
      CacheShape(bc.bufs, bc.disk, bc.logical);
      SpareToCommit();
      ghost var bufs0, d1 := bc.bufs, bc.disk;
      WriteHead();
      ghost var d2 := bc.disk;
      CleanChangeKeeps(bufs0, bc.bufs, lh);
      GoodSectorsSameSize(log, d1, d2, lh);
      InstallTrans();
      ghost var d3 := bc.disk;
      CacheShape(bc.bufs, bc.disk, bc.logical);
      IdleCacheHasSpare(bc.bufs);
      CommitAddsUp(log, base, txn, d1, d2, d3, lh);
      ghost var ws := InstallWrites(log, d2, lh);
      Regroup(old(bc.writes), [HeadWrite(log, d1, lh)], ws, [HeadWrite(log, d3, [])]);
      lh := [];
      WriteHead();
    }

    /** initlog: recover from the log on disk, through a cache that holds nothing dirty. */
    constructor (log: Log, bc: Bcache)
      requires bc.Valid() && NoneBusy(bc.bufs) && NoneDirty(bc.bufs) && GoodHead(log, bc.disk)
      modifies bc
      ensures Valid() && this.log == log && this.bc == bc && !busy && lh == [] && txn == []
      ensures NoneBusy(bc.bufs) && NoneDirty(bc.bufs) && bc.logical == bc.disk
      ensures bc.disk == Applied(old(bc.disk), RecoverWrites(log, old(bc.disk)))
      ensures bc.writes == old(bc.writes) + RecoverWrites(log, old(bc.disk))
    {
      hide LogOk, CacheOk, Ring, Applied;
      this.log, this.bc := log, bc;
      lh, busy, base, txn, mark := [], false, bc.disk, [], 0;
      new;
      ghost var d0 := bc.disk;
      InstalledAndErased(log, d0);
      ReadHead();
      CacheShape(bc.bufs, bc.disk, bc.logical);
      IdleCacheHasSpare(bc.bufs);
      InstallTrans();
      CacheShape(bc.bufs, bc.disk, bc.logical);
      IdleCacheHasSpare(bc.bufs);
      RecoveryAddsUp(log, d0, bc.disk);
      lh := [];
      WriteHead();
      CleanCacheIsDisk(bc.bufs, bc.disk, bc.logical);
      LogOkStart(log, bc.bufs, bc.disk);
      base, mark := bc.disk, |bc.writes|;
    }

    /** read_head: the on-disk header becomes the in-memory one. */
    method ReadHead()
      requires bc.Valid() && NoneBusy(bc.bufs) && NoneDirty(bc.bufs) && GoodHead(log, bc.disk)
      modifies this`lh, bc
      ensures bc.Valid() && NoneBusy(bc.bufs) && NoneDirty(bc.bufs)
      ensures bc.disk == old(bc.disk) && bc.writes == old(bc.writes)
      ensures lh == HeadSectors(bc.disk[log.start])
    {
      hide CacheOk, Ring;
      CacheShape(bc.bufs, bc.disk, bc.logical);
      IdleCacheHasSpare(bc.bufs);
      LogicalAtClean(bc.bufs, bc.disk, bc.logical, log.start);
      var b := bc.Bread(ROOTDEV, log.start);
      var head := bc.bufs[b].data;
      lh := [];
      var i := 0;
      while i < head[0]
        invariant 0 <= i <= head[0] && lh == head[1..1 + i]
        modifies this`lh
      {
        lh := lh + [head[1 + i]];
        i := i + 1;
      }
      bc.Brelse(b);
      assert forall s :: !DirtyAt(bc.bufs, s);
    }
  }
}
