/**
 * What fileclose's iput logs when it frees an inode, and the log it needs: an image where a file lies in as many
 * bitmap sectors as one likes shows that no smaller one will do.
 */
module FsFree {
  import opened Wrappers
  import opened FsLayout
  import opened FsDisk
  import opened FsBudget
  import opened FsWrite
  import L = LogDisk
  import C = LogCrash

  /** The sectors logged when inode i is freed: the bitmap sectors of its blocks, and its own. */
  ghost function PutSectors(m: Image, i: nat): set<nat>
    requires i < |m.files|
  {
    FreedSectors(m.files[i], m.g.ninodes) + {IBlock(i)}
  }

  lemma OneBit(g: Geom, b: nat)
    requires g.Ok() && g.Lo() <= b < g.Hi()
    ensures g.BStart() <= BBlock(b, g.ninodes) < g.Lo() && BBlock(b, g.ninodes) in DataBitmap(g)
  {
  }

  lemma OwnSector(m: Image, i: nat)
    requires i < |m.files|
    ensures IBlock(i) in PutSectors(m, i)
  {
  }

  lemma FreedAbove(m: Image, i: nat)
    requires Consistent(m, {}) && i < m.g.ninodes
    ensures m.g.Ok() && |m.files| == m.g.ninodes && IBlock(i) < m.g.BStart() <= m.g.Lo() <= m.g.Hi()
    ensures forall s :: s in FreedSectors(m.files[i], m.g.ninodes) ==> m.g.BStart() <= s < m.g.Lo()
    ensures FreedSectors(m.files[i], m.g.ninodes) <= DataBitmap(m.g)
  {
    var g, f := m.g, m.files[i];
    assert FileOwned(m.own, i, f);
    assert forall b :: b in f.data ==> g.Lo() <= b < g.Hi();
    assert f.ind != 0 ==> g.Lo() <= f.ind < g.Hi();
    hide Consistent, OwnOk, FileOwned, DataBitmap, BBlock;
    forall s | s in FreedSectors(f, g.ninodes) ensures g.BStart() <= s < g.Lo() && s in DataBitmap(g) {
      var b :| (b in f.data || f.ind == b != 0) && s == BBlock(b, g.ninodes);
      OneBit(g, b);
    }
  }

  lemma PutBound(m: Image, i: nat)
    requires Consistent(m, {}) && i < m.g.ninodes
    ensures |PutSectors(m, i)| == |FreedSectors(m.files[i], m.g.ninodes)| + 1 <= |DataBitmap(m.g)| + 1
  {
    FreedAbove(m, i);
    C.Fewer(FreedSectors(m.files[i], m.g.ninodes), DataBitmap(m.g));
    hide FreedSectors, DataBitmap, Consistent;
  }

  /** itrunc's iupdate logs a sector it has not logged before. */
  lemma TruncIsNew(m: Image, i: nat, txn: C.Txn, txn': C.Txn)
    requires Consistent(m, {}) && i < m.g.ninodes && C.SectorsOf(txn) == FreedSectors(m.files[i], m.g.ninodes)
    requires txn <= txn' && |txn'| == |txn| + 1 && txn'[|txn|].sector == IBlock(i)
    ensures C.LastIsNew(txn') && C.SectorsOf(txn') == PutSectors(m, i)
  {
    FreedAbove(m, i);
    assert txn'[..|txn|] == txn && txn' == txn + [txn'[|txn|]];
    C.SectorsSnoc(txn, txn'[|txn|]);
    hide FreedSectors, Consistent, C.SectorsOf;
  }

  /** The second iupdate, of the same sector, still meets the size check: the log takes the transaction if and only if
      it holds one sector more than are logged. */
  lemma PutFitsIff(m: Image, i: nat, disk: L.Disk, txn: C.Txn, w: L.Write)
    requires Consistent(m, {}) && i < m.g.ninodes && |disk| == m.g.size
    requires C.LastIsNew(txn) && C.SectorsOf(txn) == PutSectors(m, i) && w.sector == IBlock(i)
    ensures C.GoodTxn(m.g.Log(), disk, txn + [w]) <==> |PutSectors(m, i)| < Capacity(m.g)
  {
    hide FreedSectors, Consistent, C.LhOf, C.LastIsNew, C.SectorsOf;
    FreedAbove(m, i);
    var t := txn + [w];
    C.RoomForRepeat(txn, w, Capacity(m.g));
    C.SectorsSnoc(txn, w);
    forall k | 0 <= k < |t| ensures m.g.Log().IsHome(disk, t[k].sector) {
      SectorIn(t, k);
    }
  }

  lemma SectorIn(t: C.Txn, k: nat)
    requires k < |t|
    ensures t[k].sector in C.SectorsOf(t)
  {
  }

  // ----- the exact size of log that freeing needs -----

  /** A file without links, loaded in memory. */
  ghost predicate Doomed(m: Image, i: nat) {
    && Consistent(m, {}) && i in m.cache && i > ROOTINO && i < |m.files|
    && m.cache[i].typ == T_FILE && m.cache[i].nlink == 0
  }

  /** A log that holds c sectors takes the freeing of every file on images with at most w bitmap sectors. */
  ghost predicate EveryPutFits(w: nat, c: nat) {
    forall m: Image, i: nat {:trigger PutSectors(m, i)} ::
      Doomed(m, i) && Capacity(m.g) == c && |DataBitmap(m.g)| <= w ==> |PutSectors(m, i)| < c
  }

  const FIRST := ROOTINO + 1     // inode of the file
  const PLACE := 100             // of its blocks in their bitmap sectors

  /** A file of k blocks, one in each of k bitmap sectors, and nothing else but an empty root directory. */
  datatype Strewn = Strewn(k: nat, c: nat) {
    predicate Ok() { k <= NDIRECT && c <= L.LOGSIZE }

    function Sectors(): nat { if k == 0 then 1 else k }

    function G(): Geom { Geom(BPB * (Sectors() - 1) + 200 + c + 1, 2 * IPB, c + 1) }

    predicate Used(b: nat) { b < BPB * k && b % BPB == PLACE }

    function Data(): seq<nat> { seq<nat>(k, j requires 0 <= j => BPB * j + PLACE) }

    function FileAt(j: nat): File { File(if j == FIRST then Data() else [], 0) }

    function Inode(j: nat): Dinode
      requires Ok()
    {
      if j == FIRST then Dinode(T_FILE, 0, 0, 0, k * BSIZE, Data() + seq<nat>(NDIRECT + 1 - k, _ => 0))
      else if j == ROOTINO then Dinode(T_DIR, 0, 0, 1, 0, NoAddrs())
      else Dinode(0, 0, 0, 0, 0, NoAddrs())
    }

    ghost function Img(): Image
      requires Ok()
    {
      var g := G();
      Image(g, seq(g.size, b requires 0 <= b => b < g.Lo() || Used(b)), seq(g.size, _ => ZeroBlock()),
            seq(g.ninodes, j requires 0 <= j => Inode(j)), map[FIRST := Inode(FIRST)],
            seq(g.ninodes, j requires 0 <= j => FileAt(j)),
            map b: nat | b < BPB * k && Used(b) :: Owner.Data(FIRST, b / BPB))
    }
  }

  lemma StrewnPlace(p: Strewn)
    requires p.Ok()
    ensures p.G().Ok() && p.G().Lo() == 5 + p.Sectors() <= PLACE && p.G().Hi() == BPB * (p.Sectors() - 1) + 200
    ensures Capacity(p.G()) == p.c
    ensures forall b: nat :: p.Used(b) ==> p.G().Lo() <= b < p.G().Hi() && b / BPB < p.k && BPB * (b / BPB) + PLACE == b
    ensures forall j :: 0 <= j < p.k ==> p.Used(p.Data()[j]) && p.Data()[j] / BPB == j
  {
    forall b: nat | p.Used(b)
      ensures p.G().Lo() <= b < p.G().Hi() && b / BPB < p.k && BPB * (b / BPB) + PLACE == b
    {
    }
    forall j | 0 <= j < p.k ensures p.Used(p.Data()[j]) && p.Data()[j] / BPB == j {
      var b := p.Data()[j];
      assert b == BPB * j + PLACE;
    }
  }

  lemma StrewnOwned(p: Strewn)
    requires p.Ok()
    ensures var m := p.Img(); OwnOk(m.bits, m.files, m.own, m.g.Lo(), m.g.Hi())
  {
    StrewnPlace(p);
    var m := p.Img();
    forall b | b in m.own ensures m.g.Lo() <= b < m.g.Hi() && Owns(m.files, m.own[b], b) {
      assert p.Used(b);
      assert p.Data()[b / BPB] == b;
    }
    forall j | 0 <= j < |m.files| ensures FileOwned(m.own, j, m.files[j]) {
      assert m.files[j] == p.FileAt(j);
    }
  }

  lemma StrewnReps(p: Strewn)
    requires p.Ok()
    ensures var m := p.Img(); RepsAll(m.blk, m.dinode, m.cache, m.files)
    ensures var m := p.Img(); forall j :: 0 <= j < m.g.ninodes ==> AtRest(m.dinode, m.cache, m.files, j)
  {
    var m := p.Img();
    forall j | 0 <= j < |m.files|
      ensures Reps(Cur(m.dinode, m.cache, j), m.blk, m.files[j]) && AtRest(m.dinode, m.cache, m.files, j)
    {
      assert Cur(m.dinode, m.cache, j) == p.Inode(j);
    }
  }

  lemma StrewnOk(p: Strewn)
    requires p.Ok()
    ensures Doomed(p.Img(), FIRST) && Capacity(p.Img().g) == p.c
  {
    StrewnPlace(p);
    StrewnOwned(p);
    StrewnReps(p);
  }

  function Run(s: nat, k: nat): (r: set<nat>)
    ensures |r| == k && forall x: nat :: x in r <==> s <= x < s + k
  {
    if k == 0 then {} else Run(s, k - 1) + {s + k - 1}
  }

  /** Its bitmap sectors are all of the data area's. */
  lemma StrewnSectors(p: Strewn)
    requires p.Ok()
    ensures FreedSectors(p.FileAt(FIRST), p.G().ninodes) == Run(5, p.k) && DataBitmap(p.G()) == Run(5, p.Sectors())
  {
    StrewnFile(p);
    StrewnArea(p);
  }

  lemma StrewnFile(p: Strewn)
    requires p.Ok()
    ensures BitmapOf(p.Data(), p.G().ninodes) == Run(5, p.k)
  {
    hide Run;
    var n, data := p.G().ninodes, p.Data();
    forall j | 0 <= j < p.k ensures BBlock(data[j], n) == 5 + j {
      assert data[j] == BPB * j + PLACE;
    }
    hide BBlock;
    forall s: nat | s in Run(5, p.k) ensures s in BitmapOf(data, n) {
      assert data[s - 5] in data;
    }
  }

  lemma StrewnArea(p: Strewn)
    requires p.Ok()
    ensures DataBitmap(p.G()) == Run(5, p.Sectors())
  {
    StrewnPlace(p);
    hide Run;
    var g := p.G();
    forall s: nat | s in Run(5, p.Sectors()) ensures s in DataBitmap(g) {
      var b := BPB * (s - 5) + PLACE;
      assert g.Lo() <= b < g.Hi() && BBlock(b, g.ninodes) == s;
    }
    forall s | s in DataBitmap(g) ensures s in Run(5, p.Sectors()) {
      var b: nat :| g.Lo() <= b < g.Hi() && s == BBlock(b, g.ninodes);
      assert b / BPB < p.Sectors();
    }
  }

  /** A log takes the freeing of every file if and only if it holds two sectors more than the data area has bitmap
      sectors. */
  lemma PutRoom(w: nat, c: nat)
    requires w > 0 && c <= L.LOGSIZE
    ensures EveryPutFits(w, c) <==> w + 1 < c
  {
    if w + 1 < c {
      forall m: Image, i: nat | Doomed(m, i) && Capacity(m.g) == c && |DataBitmap(m.g)| <= w
        ensures |PutSectors(m, i)| < c
      {
        PutBound(m, i);
      }
    } else {
      var p := Strewn(if c == 0 then 0 else c - 1, c);
      StrewnOk(p);
      StrewnSectors(p);
      PutBound(p.Img(), FIRST);
      assert p.Img().files[FIRST] == p.FileAt(FIRST);
      assert |PutSectors(p.Img(), FIRST)| >= c;
    }
  }
}
