/** The redo log of src/log.c as sequences of atomic sector writes.

    A disk is a sequence of sectors.  The log area is `size` sectors from `start`: a header block
    with the home sector numbers, then one slot per logged sector.  A crash may strike between any two
    sector writes; recovery may itself be cut short and started again. */
module LogDisk {

  const WORDS := 128      // 512-byte sectors as 32-bit words
  const LOGSIZE := 10

  type Block = b: seq<int> | |b| == WORDS witness seq(WORDS, i => 0)
  type Disk = seq<Block>
  datatype Write = Write(sector: nat, data: Block)

  /** Where the log area lies; the rest of the disk is home to file-system blocks. */
  datatype Log = Log(start: nat, size: nat) {
    predicate InArea(s: int) { start <= s < start + size }
    predicate Fits(d: Disk) { 1 <= size && start + size <= |d| }
    predicate IsHome(d: Disk, s: int) { 0 <= s < |d| && !InArea(s) }
  }

  // ----- writes -----

  function Applied(d: Disk, ws: seq<Write>): (r: Disk)
    requires InRange(d, ws)
    ensures |r| == |d|
    decreases |ws|
  {
    if ws == [] then d else Applied(d[ws[0].sector := ws[0].data], ws[1..])
  }

  ghost predicate InRange(d: Disk, ws: seq<Write>) {
    forall i :: 0 <= i < |ws| ==> ws[i].sector < |d|
  }

  lemma {:induction false} AppliedAppend(d: Disk, ws: seq<Write>, vs: seq<Write>)
    requires InRange(d, ws) && InRange(d, vs)
    ensures InRange(d, ws + vs) && Applied(d, ws + vs) == Applied(Applied(d, ws), vs)
    decreases |ws|
  {
    if ws == [] {
      assert ws + vs == vs;
    } else {
      var d' := d[ws[0].sector := ws[0].data];
      AppliedAppend(d', ws[1..], vs);
      assert (ws + vs)[1..] == ws[1..] + vs;
    }
  }

  lemma AppliedNil(d: Disk)
    ensures InRange(d, []) && Applied(d, []) == d
  {
  }

  lemma AppliedLast(d: Disk, ws: seq<Write>, w: Write)
    requires InRange(d, ws) && w.sector < |d|
    ensures InRange(d, ws + [w])
    ensures Applied(d, ws + [w]) == Applied(d, ws)[w.sector := w.data]
  {
    AppliedAppend(d, ws, [w]);
    assert [w][1..] == [];
  }

  lemma {:induction false} AppliedFrame(d: Disk, ws: seq<Write>, s: nat)
    requires InRange(d, ws) && s < |d| && forall i :: 0 <= i < |ws| ==> ws[i].sector != s
    ensures Applied(d, ws)[s] == d[s]
    decreases |ws|
  {
    if ws != [] { AppliedFrame(d[ws[0].sector := ws[0].data], ws[1..], s); }
  }

  /** With distinct targets, each write is what its sector ends up holding. */
  lemma {:induction false} AppliedDistinct(d: Disk, ws: seq<Write>, k: nat)
    requires InRange(d, ws) && k < |ws|
    requires forall i, j :: 0 <= i < j < |ws| ==> ws[i].sector != ws[j].sector
    ensures Applied(d, ws)[ws[k].sector] == ws[k].data
    decreases |ws|
  {
    var d' := d[ws[0].sector := ws[0].data];
    if k == 0 {
      AppliedFrame(d', ws[1..], ws[0].sector);
    } else {
      AppliedDistinct(d', ws[1..], k - 1);
    }
  }

  // ----- the header block -----

  function HeadCount(b: Block): int { b[0] }

  function HeadSectors(b: Block): (r: seq<int>) {
    if 0 <= HeadCount(b) <= LOGSIZE then b[1..1 + HeadCount(b)] else []
  }

  /** What write_head leaves in the header block: the count and that many sector numbers. */
  function WithHead(b: Block, lh: seq<int>): (r: Block)
    requires |lh| <= LOGSIZE
    ensures HeadCount(r) == |lh| && HeadSectors(r) == lh
  {
    [|lh|] + lh + b[1 + |lh|..]
  }

  /** The logged sectors: distinct, outside the log area, and with a slot each. */
  ghost predicate GoodSectors(log: Log, d: Disk, lh: seq<int>) {
    && log.Fits(d) && |lh| <= LOGSIZE && |lh| <= log.size - 1
    && (forall k :: 0 <= k < |lh| ==> log.IsHome(d, lh[k]))
    && (forall i, j :: 0 <= i < j < |lh| ==> lh[i] != lh[j])
  }

  /** The on-disk header is one the log code can have written. */
  ghost predicate GoodHead(log: Log, d: Disk) {
    && log.Fits(d) && 0 <= HeadCount(d[log.start]) <= LOGSIZE
    && GoodSectors(log, d, HeadSectors(d[log.start]))
  }

  ghost predicate Quiet(log: Log, d: Disk) {
    log.Fits(d) && HeadCount(d[log.start]) == 0
  }

  // ----- what a disk means -----

  /** The contents recovery will give home sector s: its log slot if the header names it, else the
      sector itself. */
  function Meaning(log: Log, d: Disk, s: nat): Block
    requires log.Fits(d) && s < |d| && |HeadSectors(d[log.start])| <= log.size - 1
  {
    MeaningFrom(log, d, HeadSectors(d[log.start]), s)
  }

  function MeaningFrom(log: Log, d: Disk, lh: seq<int>, s: nat): Block
    requires log.Fits(d) && s < |d| && |lh| <= log.size - 1
    decreases |lh|
  {
    if lh == [] then d[s]
    else if lh[|lh| - 1] == s then d[log.start + |lh|]
    else MeaningFrom(log, d, lh[..|lh| - 1], s)
  }

  lemma {:induction false} MeaningAtSlot(log: Log, d: Disk, lh: seq<int>, k: nat)
    requires log.Fits(d) && |lh| <= log.size - 1 && k < |lh| && 0 <= lh[k] < |d|
    requires forall i, j :: 0 <= i < j < |lh| ==> lh[i] != lh[j]
    ensures MeaningFrom(log, d, lh, lh[k]) == d[log.start + 1 + k]
    decreases |lh|
  {
    if k < |lh| - 1 {
      MeaningAtSlot(log, d, lh[..|lh| - 1], k);
    }
  }

  lemma {:induction false} MeaningUnlogged(log: Log, d: Disk, lh: seq<int>, s: nat)
    requires log.Fits(d) && |lh| <= log.size - 1 && s < |d| && s !in lh
    ensures MeaningFrom(log, d, lh, s) == d[s]
    decreases |lh|
  {
    if lh != [] {
      assert lh[|lh| - 1] in lh;
      MeaningUnlogged(log, d, lh[..|lh| - 1], s);
    }
  }

  /** Two disks agree on what every home sector means. */
  ghost predicate SameMeaning(log: Log, d: Disk, d': Disk) {
    && GoodHead(log, d) && GoodHead(log, d') && |d| == |d'|
    && forall s: nat :: log.IsHome(d, s) ==> Meaning(log, d', s) == Meaning(log, d, s)
  }

  // ----- install and recovery -----

  /** install_trans: copy each slot to its home. */
  function InstallWrites(log: Log, d: Disk, lh: seq<int>): (r: seq<Write>)
    requires log.Fits(d) && |lh| <= log.size - 1 && forall k :: 0 <= k < |lh| ==> 0 <= lh[k] < |d|
    ensures |r| == |lh|
    ensures forall k :: 0 <= k < |r| ==> r[k] == Write(lh[k], d[log.start + 1 + k])
  {
    seq(|lh|, k requires 0 <= k < |lh| => Write(lh[k], d[log.start + 1 + k]))
  }

  /** Erase the transaction from the log. */
  function EraseWrite(log: Log, d: Disk): Write
    requires log.Fits(d)
  {
    Write(log.start, WithHead(d[log.start], []))
  }

  /** recover_from_log, as the sector writes it makes. */
  function RecoverWrites(log: Log, d: Disk): (r: seq<Write>)
    requires log.Fits(d) && |HeadSectors(d[log.start])| <= log.size - 1
    requires forall k :: 0 <= k < |HeadSectors(d[log.start])| ==> 0 <= HeadSectors(d[log.start])[k] < |d|
    ensures InRange(d, r)
  {
    InstallWrites(log, d, HeadSectors(d[log.start])) + [EraseWrite(log, d)]
  }

  lemma InstallFrame(log: Log, d: Disk, lh: seq<int>, p: nat, s: nat)
    requires GoodSectors(log, d, lh) && p <= |lh| && s < |d| && s !in lh[..p]
    requires InRange(d, InstallWrites(log, d, lh)[..p])
    ensures Applied(d, InstallWrites(log, d, lh)[..p])[s] == d[s]
  {
    hide Applied;
    var ws := InstallWrites(log, d, lh)[..p];
    forall i | 0 <= i < |ws|
      ensures ws[i].sector != s
    {
      assert ws[i].sector == lh[..p][i];
    }
    AppliedFrame(d, ws, s);
  }

  lemma InstallAt(log: Log, d: Disk, lh: seq<int>, p: nat, k: nat)
    requires GoodSectors(log, d, lh) && k < p <= |lh|
    requires InRange(d, InstallWrites(log, d, lh)[..p])
    ensures Applied(d, InstallWrites(log, d, lh)[..p])[lh[k]] == d[log.start + 1 + k]
  {
    hide Applied;
    var ws := InstallWrites(log, d, lh)[..p];
    assert forall i :: 0 <= i < |ws| ==> ws[i].sector == lh[i];
    assert ws[k].data == d[log.start + 1 + k];
    AppliedDistinct(d, ws, k);
  }

  /** Part-way through installing, nothing but home sectors of the header has changed, and those
      already installed hold their slot. */
  lemma InstallPrefix(log: Log, d: Disk, lh: seq<int>, p: nat)
    requires GoodSectors(log, d, lh) && p <= |lh|
    ensures InRange(d, InstallWrites(log, d, lh)[..p])
    ensures var d' := Applied(d, InstallWrites(log, d, lh)[..p]);
            && (forall s :: 0 <= s < |d| && s !in lh[..p] ==> d'[s] == d[s])
            && (forall k :: 0 <= k < p ==> d'[lh[k]] == d[log.start + 1 + k])
  {
    hide Applied;
    var ws := InstallWrites(log, d, lh)[..p];
    assert forall k :: 0 <= k < |ws| ==> ws[k].sector == lh[k];
    assert InRange(d, ws);
    hide InstallWrites, InRange;
    forall s | 0 <= s < |d| && s !in lh[..p]
      ensures Applied(d, ws)[s] == d[s]
    {
      InstallFrame(log, d, lh, p, s);
    }
    forall k | 0 <= k < p
      ensures Applied(d, ws)[lh[k]] == d[log.start + 1 + k]
    {
      InstallAt(log, d, lh, p, k);
    }
  }

  lemma InstallKeepsOne(log: Log, d: Disk, d': Disk, lh: seq<int>, p: nat, s: nat)
    requires GoodSectors(log, d, lh) && p <= |lh| && |d| == |d'| && log.IsHome(d, s)
    requires forall t :: 0 <= t < |d| && t !in lh[..p] ==> d'[t] == d[t]
    ensures MeaningFrom(log, d', lh, s) == MeaningFrom(log, d, lh, s)
  {
    hide MeaningFrom;
    if s in lh {
      var k :| 0 <= k < |lh| && lh[k] == s;
      MeaningAtSlot(log, d, lh, k);
      MeaningAtSlot(log, d', lh, k);
      assert log.start + 1 + k !in lh[..p];
    } else {
      MeaningUnlogged(log, d, lh, s);
      MeaningUnlogged(log, d', lh, s);
      assert s !in lh[..p];
    }
  }

  /** Installing any part of the header's sectors does not change what the disk means. */
  lemma InstallPrefixKeepsMeaning(log: Log, d: Disk, p: nat)
    requires GoodHead(log, d) && p <= |HeadSectors(d[log.start])|
    ensures InRange(d, InstallWrites(log, d, HeadSectors(d[log.start]))[..p])
    ensures SameMeaning(log, d, Applied(d, InstallWrites(log, d, HeadSectors(d[log.start]))[..p]))
  {
    hide Applied, MeaningFrom, HeadSectors, InstallWrites, InRange;
    var lh := HeadSectors(d[log.start]);
    InstallPrefix(log, d, lh, p);
    var d' := Applied(d, InstallWrites(log, d, lh)[..p]);
    assert log.start !in lh[..p];
    assert d'[log.start] == d[log.start];
    forall s: nat | log.IsHome(d, s)
      ensures Meaning(log, d', s) == Meaning(log, d, s)
    {
      InstallKeepsOne(log, d, d', lh, p, s);
    }
  }

  /** Once everything is installed and the log erased, each home sector holds what it meant. */
  lemma InstalledAndErased(log: Log, d: Disk)
    requires GoodHead(log, d)
    ensures var d' := Applied(d, RecoverWrites(log, d));
            && Quiet(log, d') && SameMeaning(log, d, d')
            && forall s: nat :: log.IsHome(d, s) ==> d'[s] == Meaning(log, d, s)
  {
    hide Applied, WithHead, HeadSectors, HeadCount, MeaningFrom;
    var lh := HeadSectors(d[log.start]);
    var ws := InstallWrites(log, d, lh);
    InstallPrefix(log, d, lh, |lh|);
    assert ws[..|lh|] == ws && lh[..|lh|] == lh;
    AppliedLast(d, ws, EraseWrite(log, d));
    var d1 := Applied(d, ws);
    var d' := Applied(d, RecoverWrites(log, d));
    assert d' == d1[log.start := WithHead(d[log.start], [])];
    assert HeadSectors(d'[log.start]) == [];
    forall s: nat | log.IsHome(d, s)
      ensures d'[s] == Meaning(log, d, s) && Meaning(log, d', s) == d'[s]
    {
      MeaningUnlogged(log, d', [], s);
      if s in lh {
        var k :| 0 <= k < |lh| && lh[k] == s;
        MeaningAtSlot(log, d, lh, k);
      } else {
        MeaningUnlogged(log, d, lh, s);
      }
    }
  }

  /** Recovery cut short after any number of writes leaves a disk that means the same. */
  lemma RecoveryPrefixKeepsMeaning(log: Log, d: Disk, p: nat)
    requires GoodHead(log, d) && p <= |RecoverWrites(log, d)|
    ensures InRange(d, RecoverWrites(log, d)[..p])
    ensures SameMeaning(log, d, Applied(d, RecoverWrites(log, d)[..p]))
  {
    var lh := HeadSectors(d[log.start]);
    if p <= |lh| {
      InstallPrefixKeepsMeaning(log, d, p);
      assert RecoverWrites(log, d)[..p] == InstallWrites(log, d, lh)[..p];
    } else {
      InstalledAndErased(log, d);
      assert RecoverWrites(log, d)[..p] == RecoverWrites(log, d);
    }
  }
}
