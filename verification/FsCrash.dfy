/**
 * Files on a disk that crashes.  What a file is can be read from the disk's words alone; a write in chunks, each a
 * transaction of the log, is on the disk up to a whole number of chunks wherever the machine stops.
 */
module FsCrash {
  import opened Params
  import opened Wrappers
  import opened FsLayout
  import opened FsDisk
  import opened FsBudget
  import opened FsWrite
  import opened BufTrace
  import L = LogDisk
  import C = LogCrash

  // ----- files on the disk -----

  /** Where the disk has block k of the file of inode d. */
  ghost function BlockNo(disk: L.Disk, d: Dinode, k: nat): nat
    requires |d.addrs| == NDIRECT + 1
  {
    if k < NDIRECT then d.addrs[k]
    else if k < MAXFILE && d.addrs[NDIRECT] < |disk| then Addr(disk[d.addrs[NDIRECT]][k - NDIRECT])
    else 0
  }

  ghost function ByteOn(disk: L.Disk, d: Dinode, x: nat): byte
    requires |d.addrs| == NDIRECT + 1
  {
    var b := BlockNo(disk, d, x / BSIZE);
    if b < |disk| then BlockOn(disk[b])[x % BSIZE] else 0
  }

  /** The file of inode j: its inode, its indirect block and its blocks, all read from the disk. */
  ghost function FileOn(disk: L.Disk, j: nat): seq<byte>
    requires IBlock(j) < |disk|
  {
    var d := InodeOn(disk, j);
    seq(d.size, x requires 0 <= x => ByteOn(disk, d, x))
  }

  ghost predicate Holds(disk: L.Disk, m: Image) {
    OnDisk(m.g, m.bits, m.blk, m.dinode, disk)
  }

  /** The disk of a consistent file system has every file as the kernel sees it. */
  lemma FileReadsBack(m: Image, disk: L.Disk, j: nat)
    requires Consistent(m, {}) && Holds(disk, m) && j < m.g.ninodes
    ensures IBlock(j) < |disk| && FileOn(disk, j) == ContentsOf(m, j)
  {
    InodeFits(m, j);
    var d := m.dinode[j];
    InodeReadsBack(m.g, m.bits, m.blk, m.dinode, disk, j);
    assert AtRest(m.dinode, m.cache, m.files, j);
    var lhs, rhs := FileOn(disk, j), ContentsOf(m, j);
    assert |lhs| == |rhs|;
    forall x: nat | x < |rhs| ensures lhs[x] == rhs[x] {
      BlockOnDisk(m, disk, j, x / BSIZE);
    }
  }

  lemma InodeFits(m: Image, j: nat)
    requires Consistent(m, {}) && j < m.g.ninodes
    ensures InWords(m.dinode[j]) && Cur(m.dinode, m.cache, j) == m.dinode[j]
  {
    assert AtRest(m.dinode, m.cache, m.files, j) && FileOwned(m.own, j, m.files[j]);
    var d, f := m.dinode[j], m.files[j];
    assert Reps(Cur(m.dinode, m.cache, j), m.blk, f);
    forall k | 0 <= k <= NDIRECT ensures d.addrs[k] < UINT {
      if k < NDIRECT { assert d.addrs[k] == Entry(f.data, k); }
    }
  }

  lemma BlockOnDisk(m: Image, disk: L.Disk, j: nat, k: nat)
    requires Consistent(m, {}) && Holds(disk, m) && j < m.g.ninodes && k < |m.files[j].data|
    requires InWords(m.dinode[j]) && Cur(m.dinode, m.cache, j) == m.dinode[j]
    ensures var b := m.files[j].data[k];
            BlockNo(disk, m.dinode[j], k) == b < |disk| && b < |m.blk| && BlockOn(disk[b]) == m.blk[b]
  {
    var d, f := m.dinode[j], m.files[j];
    assert FileOwned(m.own, j, f) && Reps(d, m.blk, f);
    BlockReadsBack(m.g, m.bits, m.blk, m.dinode, disk, f.data[k]);
    if k < NDIRECT {
      assert d.addrs[k] == Entry(f.data, k);
    } else {
      WordOnDisk(m, disk, f.ind, k - NDIRECT);
      assert Word(m.blk[f.ind], k - NDIRECT) == Entry(f.data, NDIRECT + (k - NDIRECT));
    }
  }

  lemma WordOnDisk(m: Image, disk: L.Disk, b: nat, w: nat)
    requires Sized(m) && Holds(disk, m) && m.g.Lo() <= b < m.g.Hi() && w < NINDIRECT
    ensures Addr(disk[b][w]) == Word(m.blk[b], w)
  {
    assert disk[b] == SectorOf(m.g, m.bits, m.blk, m.dinode, b);
  }

  // ----- one chunk in the log -----

  /** A chunk logs no sector of the log itself. */
  lemma ChunkIsHome(m: Image, i: nat, off: nat, n: nat)
    requires ChunkOk(m, i, off, n)
    ensures forall s :: s in ChunkSectors(m, i, off, n) ==> s < m.g.Hi()
  {
    var g, f := m.g, m.files[i];
    var taken := Allocs(m.bits, ToAlloc(|f.data|, Blocks(off + n)));
    AllocsInside(m.bits, ToAlloc(|f.data|, Blocks(off + n)), g.Lo(), g.Hi());
    assert AtRest(m.dinode, m.cache, m.files, i) && FileOwned(m.own, i, f) && Reps(Cur(m.dinode, m.cache, i), m.blk, f);
    BitmapBelowData(g, taken);
    assert IBlock(i) < g.BStart();
    assert forall k :: 0 <= k < |f.data| ==> f.data[k] < g.Hi();
    assert |f.data| > NDIRECT ==> f.ind < g.Hi();
    hide Consistent, Allocs, BitmapOf, OwnOk, Reps, AtRest, FileOwned, HasFree, Sized;
  }

  lemma BitmapBelowData(g: Geom, taken: seq<nat>)
    requires g.Ok() && AllInside(taken, g.Lo(), g.Hi())
    ensures forall s :: s in BitmapOf(taken, g.ninodes) ==> s < g.Lo()
  {
  }

  /** Every log_write of a chunk finds room if and only if the sectors it logs are no more than the log holds. */
  lemma ChunkFitsIff(m: Image, i: nat, off: nat, n: nat, disk: L.Disk, t: C.Txn)
    requires ChunkOk(m, i, off, n) && |disk| == m.g.size
    requires C.SectorsOf(t) == ChunkSectors(m, i, off, n) && C.LastIsNew(t)
    ensures C.GoodTxn(m.g.Log(), disk, t) <==> |ChunkSectors(m, i, off, n)| <= Capacity(m.g)
  {
    ChunkIsHome(m, i, off, n);
    C.RoomAtEveryCall(t, Capacity(m.g));
    hide ChunkOk, ChunkSectors, C.LhOf, C.LastIsNew;
    forall k | 0 <= k < |t| ensures m.g.Log().IsHome(disk, t[k].sector) {
      assert t[k].sector in C.SectorsOf(t);
    }
  }

  /**
   * What a chunk asks of log and cache.  It reads only home sectors and leaves no buffer held; "too big a
   * transaction" is dead if and only if the log holds its sectors, and "bget: no buffers" if and only if they are
   * fewer than the buffers.
   */
  ghost predicate ChunkTrace(m: Image, i: nat, off: nat, n: nat, disk: L.Disk, t: Trace)
    requires Sized(m) && i in m.cache
  {
    && Proper(t) && HeldBy(t) == {} && (forall k :: 0 <= k < |t| && t[k].Fetch? ==> t[k].s < m.g.Hi())
    && C.SectorsOf(LogsOf(t)) == ChunkSectors(m, i, off, n)
    && (C.GoodTxn(m.g.Log(), disk, LogsOf(t)) <==> |ChunkSectors(m, i, off, n)| <= Capacity(m.g))
    && (Fits(t, NBUF) <==> |ChunkSectors(m, i, off, n)| < NBUF)
  }

  lemma IsChunkTrace(m: Image, i: nat, off: nat, n: nat, disk: L.Disk, t: Trace)
    requires ChunkOk(m, i, off, n) && |disk| == m.g.size && Tracked(t, LogsOf(t), {}) && Tame(t, m.g.Hi())
    requires C.SectorsOf(LogsOf(t)) == ChunkSectors(m, i, off, n) && C.LastIsNew(LogsOf(t))
    ensures ChunkTrace(m, i, off, n, disk, t)
  {
    ChunkFitsIff(m, i, off, n, disk, LogsOf(t));
    LeanNeeds(t, NBUF);
  }

  /** The worst chunk fits into the log, and into the buffers. */
  ghost predicate Roomy(g: Geom)
    requires g.Ok()
  {
    6 + Min(|DataBitmap(g)|, 4) <= Capacity(g) && 6 + Min(|DataBitmap(g)|, 4) < NBUF
  }

  lemma RoomyChunk(m: Image, i: nat, off: nat, n: nat, disk: L.Disk, t: Trace)
    requires ChunkOk(m, i, off, n) && |disk| == m.g.size && ChunkTrace(m, i, off, n, disk, t) && Roomy(m.g)
    ensures GoodTrace(m.g.Log(), disk, t)
  {
    ChunkOfImage(m, i, off, n);
    hide ChunkOk, ChunkSectors, Proper, Fits, C.GoodTxn, LogsOf, HeldBy, DataBitmap;
  }

  // ----- a write of many chunks -----

  /**
   * The transactions of a write in chunks and the file systems between them: after k of them the disk holds the
   * k-th, in which k chunks of src have been laid over file i and nothing else has changed.
   */
  ghost predicate ChunkRun(g: Geom, disk: L.Disk, txns: seq<C.Txn>, imgs: seq<Image>, i: nat, off: nat,
                           src: seq<byte>)
  {
    && |imgs| == |txns| + 1 && i < g.ninodes && C.TxnsInRange(disk, txns)
    && forall k :: 0 <= k < |imgs| ==>
         Stage(g, C.AppliedAll(disk, TakeTxns(disk, txns, k)), imgs[0], imgs[k], i, off, src, k)
  }

  ghost function TakeTxns(disk: L.Disk, txns: seq<C.Txn>, k: nat): (r: seq<C.Txn>)
    requires k <= |txns| && C.TxnsInRange(disk, txns)
    ensures r == txns[..k] && C.TxnsInRange(disk, r)
  {
    txns[..k]
  }

  /** How much of n bytes k chunks are. */
  function InChunks(k: nat, n: nat): (b: nat)
    ensures b <= n
  {
    Min(k * CHUNK, n)
  }

  lemma NextChunk(k: nat, n: nat)
    requires InChunks(k, n) < n
    ensures InChunks(k + 1, n) == InChunks(k, n) + Min(n - InChunks(k, n), CHUNK)
  {
  }

  ghost predicate Stage(g: Geom, disk: L.Disk, m0: Image, m: Image, i: nat, off: nat, src: seq<byte>, k: nat) {
    && m0.g == m.g == g && Consistent(m0, {}) && Consistent(m, {}) && Holds(disk, m) && i < g.ninodes
    && Laying(ContentsOf(m0, i), ContentsOf(m, i), off, src, InChunks(k, |src|))
    && forall j :: 0 <= j < g.ninodes && j != i ==> ContentsOf(m, j) == ContentsOf(m0, j)
  }

  /** writei accepts the chunk, and balloc runs out of data blocks on it. */
  ghost predicate NoRoom(m: Image, i: nat, off: nat, n: nat) {
    && i in m.cache && i < |m.files| && WriteOk(m.cache[i].size, off, n)
    && !HasFree(m.bits, ToAlloc(|m.files[i].data|, Blocks(off + n)), m.g.Hi())
  }

  lemma RunStart(m: Image, disk: L.Disk, i: nat, off: nat, src: seq<byte>)
    requires Consistent(m, {}) && Holds(disk, m) && i < m.g.ninodes
    ensures ChunkRun(m.g, disk, [], [m], i, off, src) && C.AppliedAll(disk, []) == disk && InChunks(0, |src|) == 0
  {
    LayNone(ContentsOf(m, i), off, src);
  }

  /** One more chunk. */
  lemma RunNext(g: Geom, disk: L.Disk, txns: seq<C.Txn>, imgs: seq<Image>, i: nat, off: nat, src: seq<byte>,
                t: C.Txn, m: Image)
    requires ChunkRun(g, disk, txns, imgs, i, off, src) && L.InRange(disk, t)
    requires Stage(g, L.Applied(C.AppliedAll(disk, txns), t), imgs[0], m, i, off, src, |txns| + 1)
    ensures ChunkRun(g, disk, txns + [t], imgs + [m], i, off, src)
  {
    var ts, ms := txns + [t], imgs + [m];
    assert forall k :: 0 <= k < |ts| ==> ts[k] == if k < |txns| then txns[k] else t;
    OneMore(disk, txns, t);
    hide Stage, L.Applied, C.AppliedAll;
    forall k | 0 <= k < |ms|
      ensures Stage(g, C.AppliedAll(disk, TakeTxns(disk, ts, k)), ms[0], ms[k], i, off, src, k)
    {
      if k < |imgs| {
        assert TakeTxns(disk, ts, k) == TakeTxns(disk, txns, k);
      } else {
        assert TakeTxns(disk, ts, k) == ts;
      }
    }
  }

  /** From m to m', s is laid over file i at off, and nothing else changes. */
  ghost predicate Wrote(m: Image, m': Image, i: nat, off: nat, s: seq<byte>) {
    && m.g == m'.g && Consistent(m, {}) && Consistent(m', {}) && i < m.g.ninodes && off <= |ContentsOf(m, i)|
    && ContentsOf(m', i) == Spliced(ContentsOf(m, i), off, s)
    && forall j :: 0 <= j < m.g.ninodes && j != i ==> ContentsOf(m', j) == ContentsOf(m, j)
  }

  /** A run that has come to the image m, on disk d, k bytes into src; log and cache took it all if they are roomy. */
  ghost predicate RunTo(disk: L.Disk, ts: seq<Trace>, imgs: seq<Image>, i: nat, off: nat, src: seq<byte>,
                        m: Image, d: L.Disk, k: nat)
  {
    && ChunkRun(m.g, disk, AllLogs(ts), imgs, i, off, src) && imgs[|ts|] == m && C.AppliedAll(disk, AllLogs(ts)) == d
    && k == InChunks(|ts|, |src|) && m.g.Ok() && |disk| == m.g.size
    && (Roomy(m.g) ==> GoodTraces(m.g.Log(), disk, ts))
  }

  lemma CameTo(disk: L.Disk, ts: seq<Trace>, imgs: seq<Image>, i: nat, off: nat, src: seq<byte>,
               m: Image, d: L.Disk, k: nat)
    requires RunTo(disk, ts, imgs, i, off, src, m, d, k)
    ensures |imgs| == |ts| + 1 && imgs[|ts|] == m && C.TxnsInRange(disk, AllLogs(ts))
    ensures C.AppliedAll(disk, AllLogs(ts)) == d
  {
  }

  lemma BeginRun(m: Image, disk: L.Disk, i: nat, off: nat, src: seq<byte>)
    requires Consistent(m, {}) && Holds(disk, m) && i < m.g.ninodes
    ensures RunTo(disk, [], [m], i, off, src, m, disk, 0)
  {
    RunStart(m, disk, i, off, src);
    assert AllLogs([]) == [];
  }

  /** The chunk that writei has just written is one more of the run. */
  lemma AddChunk(disk: L.Disk, ts: seq<Trace>, imgs: seq<Image>, i: nat, off: nat, src: seq<byte>,
                 m: Image, d: L.Disk, k: nat, t: Trace, m': Image, n1: nat)
    requires RunTo(disk, ts, imgs, i, off, src, m, d, k) && k < |src| && n1 == Min(|src| - k, CHUNK)
    requires m.g == m'.g && Wrote(m, m', i, off + k, src[k..k + n1])
    requires L.InRange(d, LogsOf(t)) && Holds(L.Applied(d, LogsOf(t)), m')
    requires ChunkOk(m, i, off + k, n1) && ChunkTrace(m, i, off + k, n1, d, t)
    ensures RunTo(disk, ts + [t], imgs + [m'], i, off, src, m', L.Applied(d, LogsOf(t)), k + n1)
  {
    hide Holds, Stage, Wrote, C.AppliedAll, L.Applied, InChunks, ChunkOk, ChunkTrace, C.GoodTxn, Roomy, LogsOf,
      GoodTrace;
    var txns := AllLogs(ts);
    assert AllLogs(ts + [t]) == txns + [LogsOf(t)];
    assert TakeTxns(disk, txns, |txns|) == txns;
    assert Stage(m.g, d, imgs[0], m, i, off, src, |txns|);
    NextChunk(|txns|, |src|);
    StageNext(m.g, d, L.Applied(d, LogsOf(t)), imgs[0], m, m', i, off, src, |txns|, k, n1);
    RunNext(m.g, disk, txns, imgs, i, off, src, LogsOf(t), m');
    OneMore(disk, txns, LogsOf(t));
    if Roomy(m.g) {
      RoomyChunk(m, i, off + k, n1, d, t);
      OneGood(m.g.Log(), disk, d, ts, t);
    }
  }

  lemma StageNext(g: Geom, d: L.Disk, d': L.Disk, m0: Image, m: Image, m': Image, i: nat, off: nat, src: seq<byte>,
                  k: nat, b: nat, n1: nat)
    requires Stage(g, d, m0, m, i, off, src, k) && Holds(d', m') && 0 < n1 && b + n1 <= |src|
    requires b == InChunks(k, |src|) && b + n1 == InChunks(k + 1, |src|) && Wrote(m, m', i, off + b, src[b..b + n1])
    ensures Stage(g, d', m0, m', i, off, src, k + 1)
  {
    hide Holds, Consistent, ContentsOf, Laying, Spliced, InChunks, Min;
    LayNext(ContentsOf(m0, i), ContentsOf(m, i), off, src, b, n1);
  }

  lemma OneGood(log: L.Log, disk: L.Disk, d: L.Disk, ts: seq<Trace>, t: Trace)
    requires GoodTraces(log, disk, ts) && GoodTrace(log, d, t) && |disk| == |d|
    ensures GoodTraces(log, disk, ts + [t])
  {
    SameSizeTrace(log, d, disk, t);
    var ts' := ts + [t];
    forall k | 0 <= k < |ts'| ensures GoodTrace(log, disk, ts'[k]) {
      if k < |ts| {
        assert ts'[k] == ts[k];
      }
    }
  }

  lemma OneMore(disk: L.Disk, txns: seq<C.Txn>, t: C.Txn)
    requires C.TxnsInRange(disk, txns) && L.InRange(disk, t)
    ensures C.TxnsInRange(disk, txns + [t]) && C.AppliedAll(disk, txns + [t]) == L.Applied(C.AppliedAll(disk, txns), t)
  {
    var d := C.AppliedAll(disk, txns);
    C.OneTxn(d, t);
    C.OneTxn(disk, t);
    C.AppliedAllAppend(disk, txns, [t]);
  }

  /** What a disk holds does not depend on the log area. */
  lemma HoldsHome(m: Image, c: L.Disk, d: L.Disk)
    requires m.g.Ok() && Holds(c, m) && C.SameHome(m.g.Log(), c, d)
    ensures Holds(d, m)
  {
    hide SectorOf;
    forall s: nat | s < m.g.size - m.g.nlog ensures d[s] == SectorOf(m.g, m.bits, m.blk, m.dinode, s) {
      assert m.g.Log().IsHome(c, s);
    }
  }

  /** On d' file i is as on d with the first k bytes of src laid over it, and the other files are as on d. */
  ghost predicate Survived(g: Geom, d: L.Disk, d': L.Disk, i: nat, off: nat, src: seq<byte>, k: nat)
    requires k <= |src|
  {
    && |d| == |d'| && i < g.ninodes && (forall j :: 0 <= j < g.ninodes ==> IBlock(j) < |d|)
    && Laying(FileOn(d, i), FileOn(d', i), off, src, k)
    && forall j :: 0 <= j < g.ninodes && j != i ==> FileOn(d', j) == FileOn(d, j)
  }

  /** The bytes of src in the chunks whose transactions had committed when the machine stopped. */
  ghost function BytesCommitted(log: L.Log, d: L.Disk, up: C.Uptime, n: nat): (k: nat)
    requires L.Quiet(log, d) && C.GoodTxns(log, d, up.txns)
    ensures k <= n
  {
    InChunks(C.Committed(log, d, up.txns, C.CrashPoint(log, d, up)), n)
  }

  /**
   * The machine stops after any number of the sector writes of a write in chunks, and boots, recovery being cut
   * short any number of times: the file on the disk is the old one with a whole number of chunks laid over it,
   * those whose header had been written, and every other file is as it was.
   */
  lemma CrashDuringWrite(g: Geom, d: L.Disk, imgs: seq<Image>, i: nat, off: nat, src: seq<byte>, up: C.Uptime)
    requires g.Ok() && L.Quiet(g.Log(), d) && C.GoodTxns(g.Log(), d, up.txns)
    requires ChunkRun(g, d, up.txns, imgs, i, off, src)
    ensures Survived(g, d, C.AfterUptime(g.Log(), d, up), i, off, src, BytesCommitted(g.Log(), d, up, |src|))
  {
    var log, p := g.Log(), C.CrashPoint(g.Log(), d, up);
    var n := C.Committed(log, d, up.txns, p);
    C.CrashInRun(log, d, up.txns, p);
    var c := C.AppliedAll(d, TakeTxns(d, up.txns, n));
    C.RebootRestores(log, L.Applied(d, C.RunWrites(log, d, up.txns)[..p]), up.cuts, c);
    var d' := C.AfterUptime(log, d, up);
    assert TakeTxns(d, up.txns, 0) == [] && C.AppliedAll(d, []) == d;
    hide L.Applied, C.RunWrites, C.Committed, C.Rebooted, C.AppliedAll, L.Quiet, L.GoodHead, C.GoodTxns, C.CrashPoint,
      C.AfterUptime, C.Means, Stage;
    assert Stage(g, d, imgs[0], imgs[0], i, off, src, 0);
    assert Stage(g, c, imgs[0], imgs[n], i, off, src, n);
    StageSurvives(g, d, c, d', imgs[0], imgs[n], i, off, src, n);
  }

  lemma StageSurvives(g: Geom, d: L.Disk, c: L.Disk, d': L.Disk, m0: Image, m: Image, i: nat, off: nat, src: seq<byte>,
                      n: nat)
    requires g.Ok() && Stage(g, d, m0, m0, i, off, src, 0) && Stage(g, c, m0, m, i, off, src, n)
    requires C.SameHome(g.Log(), c, d') && |d| == |d'|
    ensures Survived(g, d, d', i, off, src, InChunks(n, |src|))
  {
    HoldsHome(m, c, d');
    hide Consistent, Holds, FileOn, ContentsOf, Laying;
    forall j | 0 <= j < g.ninodes
      ensures IBlock(j) < |d| && FileOn(d, j) == ContentsOf(m0, j) && FileOn(d', j) == ContentsOf(m, j)
    {
      FileReadsBack(m0, d, j);
      FileReadsBack(m, d', j);
    }
  }
}
