/**
 * The worst chunk: images on which a filewrite chunk logs six sectors and one bitmap sector for each block it
 * allocates, so that the log size of ChunkRoom is needed as well as enough.
 *
 * After the root directory, which is empty, files of twelve blocks fill the data area from its start, all but four
 * blocks; the chunk extends the first file into exactly those.
 */
module FsWitness {
  import opened Params
  import opened Wrappers
  import opened FsLayout
  import opened FsDisk
  import opened FsBudget
  import L = LogDisk

  const FIRST := ROOTINO + 1     // inode of the first file
  const OFF := 11 * BSIZE + 1    // where the chunk starts in it

  /** A geometry and the four blocks to be left free. */
  datatype Gaps = Gaps(g: Geom, c1: nat, c2: nat, c3: nat, c4: nat) {
    ghost predicate Ok() {
      && g.Ok() && g.Lo() + 12 <= c1 < c2 < c3 < c4 < g.Hi()
      && (c4 - g.Lo() - 3) % 12 == 0 && FIRST + Files() <= g.ninodes
    }

    function Files(): int { (c4 - g.Lo() - 3) / 12 }

    predicate Used(b: int) { g.Lo() <= b < c4 && b != c1 && b != c2 && b != c3 }

    /** The x-th block in use, and the place of a block among them. */
    function Nth(x: nat): nat {
      var y := g.Lo() + x;
      if y < c1 then y else if y + 1 < c2 then y + 1 else if y + 2 < c3 then y + 2 else y + 3
    }

    function Rank(b: int): int {
      b - g.Lo() - (if b > c1 then 1 else 0) - (if b > c2 then 1 else 0) - (if b > c3 then 1 else 0)
    }

    lemma NthRank(x: nat)
      requires Ok() && x < 12 * Files()
      ensures Used(Nth(x)) && Rank(Nth(x)) == x
    {
    }

    lemma RankNth(b: int)
      requires Ok() && Used(b)
      ensures 0 <= Rank(b) < 12 * Files() && Nth(Rank(b)) == b
    {
    }

    predicate IsFile(j: nat) { FIRST <= j < FIRST + Files() }

    function Data(j: nat): seq<nat>
      requires j >= FIRST
    {
      seq<nat>(12, k requires 0 <= k < 12 => Nth(12 * (j - FIRST) + k))
    }

    ghost function FileAt(j: nat): File { if IsFile(j) then File(Data(j), 0) else File([], 0) }

    function Inode(j: nat): Dinode {
      if IsFile(j) then Dinode(T_FILE, 0, 0, 1, 12 * BSIZE, Data(j) + [0])
      else if j == ROOTINO then Dinode(T_DIR, 0, 0, 1, 0, NoAddrs())
      else Dinode(0, 0, 0, 0, 0, NoAddrs())
    }

    ghost function Bits(): seq<bool>
    {
      seq(g.size, b requires 0 <= b < g.size => b < g.Lo() || Used(b))
    }

    ghost function Own(): map<nat, Owner>
      requires Ok()
    {
      map b: nat | g.Lo() <= b < c4 && Used(b) :: Owner.Data(FIRST + Rank(b) / 12, Rank(b) % 12)
    }

    ghost function Img(): Image
      requires Ok()
    {
      Image(g, Bits(), seq(g.size, _ => ZeroBlock()), seq(g.ninodes, j requires 0 <= j => Inode(j)),
            map[FIRST := Inode(FIRST)], seq(g.ninodes, j requires 0 <= j => FileAt(j)), Own())
    }
  }

  lemma BlockOwned(p: Gaps, b: nat)
    requires p.Ok() && p.Used(b)
    ensures Owns(p.Img().files, Owner.Data(FIRST + p.Rank(b) / 12, p.Rank(b) % 12), b)
  {
    p.RankNth(b);
    var r := p.Rank(b);
    assert 12 * (r / 12) + r % 12 == r;
    assert p.Img().files[FIRST + r / 12] == p.FileAt(FIRST + r / 12);
  }

  lemma FileIsOwned(p: Gaps, j: nat)
    requires p.Ok() && j < p.g.ninodes
    ensures FileOwned(p.Own(), j, p.FileAt(j))
  {
    if p.IsFile(j) {
      var f := j - FIRST;
      forall k | 0 <= k < 12 ensures p.Data(j)[k] in p.Own() && p.Own()[p.Data(j)[k]] == Owner.Data(j, k) {
        p.NthRank(12 * f + k);
        assert (12 * f + k) / 12 == f && (12 * f + k) % 12 == k;
      }
    }
  }

  lemma WitnessOwned(p: Gaps)
    requires p.Ok()
    ensures var m := p.Img(); OwnOk(m.bits, m.files, m.own, p.g.Lo(), p.g.Hi())
  {
    hide Owns, FileOwned;
    var m := p.Img();
    forall b | b in m.own ensures p.g.Lo() <= b < p.g.Hi() && Owns(m.files, m.own[b], b) {
      BlockOwned(p, b);
    }
    forall j | 0 <= j < |m.files| ensures FileOwned(m.own, j, m.files[j]) {
      FileIsOwned(p, j);
    }
  }

  lemma WitnessReps(p: Gaps)
    requires p.Ok()
    ensures var m := p.Img(); RepsAll(m.blk, m.dinode, m.cache, m.files)
    ensures var m := p.Img(); forall j :: 0 <= j < p.g.ninodes ==> AtRest(m.dinode, m.cache, m.files, j)
  {
    var m := p.Img();
    forall j | 0 <= j < |m.files|
      ensures Reps(Cur(m.dinode, m.cache, j), m.blk, m.files[j]) && AtRest(m.dinode, m.cache, m.files, j)
    {
      assert Cur(m.dinode, m.cache, j) == p.Inode(j);
    }
  }

  lemma WitnessOk(p: Gaps)
    requires p.Ok()
    ensures Consistent(p.Img(), {})
  {
    WitnessOwned(p);
    WitnessReps(p);
  }

  /** The four blocks left free are the ones handed out. */
  lemma WitnessAllocs(p: Gaps)
    requires p.Ok()
    ensures Allocs(p.Bits(), 4) == [p.c1, p.c2, p.c3, p.c4]
  {
    var b0 := p.Bits();
    ScanIs(b0, p.c1);
    var b1 := b0[p.c1 := true];
    ScanIs(b1, p.c2);
    var b2 := b1[p.c2 := true];
    ScanIs(b2, p.c3);
    var b3 := b2[p.c3 := true];
    ScanIs(b3, p.c4);
    AllocsOne(b3, p.c4);
    hide ScanFrom;
    assert Allocs(b2, 2) == [p.c3] + Allocs(b3, 1);
    assert Allocs(b1, 3) == [p.c2] + Allocs(b2, 2);
    assert Allocs(b0, 4) == [p.c1] + Allocs(b1, 3);
  }

  lemma FourElems(a: nat, b: nat, c: nat, d: nat, ninodes: nat)
    ensures Elems([a, b, c, d]) == {a, b, c, d}
    ensures BitmapOf([a, b, c, d], ninodes) ==
            {BBlock(a, ninodes), BBlock(b, ninodes), BBlock(c, ninodes), BBlock(d, ninodes)}
  {
    hide Elems, BitmapOf, BBlock;
    ConsElems(d, [], ninodes);
    ConsElems(c, [d], ninodes);
    ConsElems(b, [c, d], ninodes);
    ConsElems(a, [b, c, d], ninodes);
    NoElems(ninodes);
    assert [d] + [] == [d] && [c] + [d] == [c, d] && [b] + [c, d] == [b, c, d] && [a] + [b, c, d] == [a, b, c, d];
  }

  lemma NoElems(ninodes: nat)
    ensures Elems([]) == {} && BitmapOf([], ninodes) == {}
  {
  }

  /** The chunk: a full one, starting inside the last block of a file of twelve. */
  lemma WorstChunk(p: Gaps)
    requires p.Ok()
    ensures ChunkOk(p.Img(), FIRST, OFF, CHUNK)
    ensures ChunkSectors(p.Img(), FIRST, OFF, CHUNK) ==
            {p.Nth(11)} + Elems([p.c1, p.c2, p.c3, p.c4]) + BitmapOf([p.c1, p.c2, p.c3, p.c4], p.g.ninodes) +
              {IBlock(FIRST)}
  {
    hide *;
    WitnessOk(p);
    WitnessAllocs(p);
    LastTouched(p);
    FirstFile(p);
    WorstOf(p.Img(), p.Data(FIRST), p.Nth(11), [p.c1, p.c2, p.c3, p.c4]);
  }

  lemma FirstFile(p: Gaps)
    requires p.Ok()
    ensures var m := p.Img();
            && m.g == p.g && m.bits == p.Bits() && m.files[FIRST] == File(p.Data(FIRST), 0) && |p.Data(FIRST)| == 12
            && FIRST in m.cache && m.cache[FIRST].size == 12 * BSIZE
    ensures p.c1 < p.g.Hi() && p.c2 < p.g.Hi() && p.c3 < p.g.Hi() && p.c4 < p.g.Hi()
  {
  }

  lemma WorstOf(m: Image, data: seq<nat>, last: nat, taken: seq<nat>)
    requires Consistent(m, {}) && FIRST in m.cache && m.cache[FIRST].size == 12 * BSIZE
    requires m.files[FIRST] == File(data, 0)
    requires |data| == 12 && OldTouched(data, 11, 15) == {last} && Allocs(m.bits, 4) == taken && |taken| == 4
    requires forall k :: 0 <= k < 4 ==> taken[k] < m.g.Hi()
    ensures ChunkOk(m, FIRST, OFF, CHUNK)
    ensures ChunkSectors(m, FIRST, OFF, CHUNK) == {last} + Elems(taken) + BitmapOf(taken, m.g.ninodes) + {IBlock(FIRST)}
  {
    Numbers();
    WorstSectors(m.bits, data, last, taken, m.g.ninodes);
    hide Allocs, OldTouched, Elems, BitmapOf, Blocks, ToAlloc, WriteSectors, OwnOk, RepsAll, AtRest, WriteOk;
  }

  lemma Numbers()
    ensures OFF / BSIZE == 11 && Blocks(OFF + CHUNK) == 15 && ToAlloc(12, 15) == 4 && WriteOk(12 * BSIZE, OFF, CHUNK)
    ensures 12 * BSIZE < OFF + CHUNK
  {
  }

  lemma LastTouched(p: Gaps)
    ensures OldTouched(p.Data(FIRST), 11, 15) == {p.Nth(11)}
  {
    assert p.Data(FIRST)[11] == p.Nth(11);
  }

  lemma WorstSectors(bits: seq<bool>, data: seq<nat>, last: nat, taken: seq<nat>, ninodes: nat)
    requires |data| == 12 && OldTouched(data, 11, 15) == {last} && Allocs(bits, 4) == taken
    ensures WriteSectors(bits, File(data, 0), 12 * BSIZE, OFF, CHUNK, FIRST, ninodes) ==
            {last} + Elems(taken) + BitmapOf(taken, ninodes) + {IBlock(FIRST)}
  {
    Numbers();
    hide Allocs, OldTouched, Elems, BitmapOf, Blocks, ToAlloc, WriteOk;
  }

  /** It logs six sectors and the bitmap sectors of the four blocks. */
  lemma WorstCount(p: Gaps)
    requires p.Ok()
    ensures |ChunkSectors(p.Img(), FIRST, OFF, CHUNK)| == 6 + |BitmapOf([p.c1, p.c2, p.c3, p.c4], p.g.ninodes)|
  {
    hide *;
    WorstChunk(p);
    InPlace(p);
    var n := p.g.ninodes;
    FourElems(p.c1, p.c2, p.c3, p.c4, n);
    SixAndBitmap({BBlock(p.c1, n), BBlock(p.c2, n), BBlock(p.c3, n), BBlock(p.c4, n)},
                 p.g.Lo(), p.Nth(11), p.c1, p.c2, p.c3, p.c4);
  }

  lemma InPlace(p: Gaps)
    requires p.Ok()
    ensures 2 < p.g.Lo() <= p.Nth(11) && p.Nth(11) !in {p.c1, p.c2, p.c3, p.c4}
    ensures p.g.Lo() <= p.c1 < p.c2 < p.c3 < p.c4
    ensures forall c :: c in {p.c1, p.c2, p.c3, p.c4} ==> 3 <= BBlock(c, p.g.ninodes) < p.g.Lo()
  {
    p.NthRank(11);
  }

  lemma SixAndBitmap(bm: set<nat>, lo: nat, a: nat, c1: nat, c2: nat, c3: nat, c4: nat)
    requires 2 < lo <= a && lo <= c1 < c2 < c3 < c4 && a != c1 && a != c2 && a != c3 && a != c4
    requires forall s :: s in bm ==> 3 <= s < lo
    ensures |{a} + {c1, c2, c3, c4} + bm + {IBlock(FIRST)}| == 6 + |bm|
  {
    var six := {a, c1, c2, c3, c4, IBlock(FIRST)};
    SixDistinct(a, c1, c2, c3, c4);
    DisjointCount(bm, six);
    assert {a} + {c1, c2, c3, c4} + bm + {IBlock(FIRST)} == bm + six;
  }

  lemma SixDistinct(a: nat, c1: nat, c2: nat, c3: nat, c4: nat)
    requires 2 < a && 2 < c1 < c2 < c3 < c4 && a != c1 && a != c2 && a != c3 && a != c4
    ensures |{a, c1, c2, c3, c4, IBlock(FIRST)}| == 6
  {
    AddOne({c1, c2, c3}, c4);
    AddOne({c1, c2, c3, c4}, a);
    AddOne({c1, c2, c3, c4, a}, IBlock(FIRST));
    assert {c1, c2, c3} + {c4} == {c1, c2, c3, c4} && {c1, c2, c3, c4} + {a} == {c1, c2, c3, c4, a};
    assert {c1, c2, c3, c4, a} + {IBlock(FIRST)} == {a, c1, c2, c3, c4, IBlock(FIRST)};
  }

  lemma DisjointCount(s: set<nat>, t: set<nat>)
    requires s !! t
    ensures |s + t| == |s| + |t|
  {
  }

  lemma AddOne(s: set<nat>, x: nat)
    requires x !in s
    ensures |s + {x}| == |s| + 1
  {
  }

  /** For k from 1 to 4: a data area with k bitmap sectors, four free blocks in all k of them, and a log of nlog. */
  function Spread(k: nat, nlog: nat): Gaps {
    if k <= 1 then Gaps(Geom(4016 + nlog, 31968, nlog), 4012, 4013, 4014, 4015)
    else if k == 2 then Gaps(Geom(4105 + nlog, 31960, nlog), 4093, 4094, 4095, 4099)
    else if k == 3 then Gaps(Geom(8210 + nlog, 31952, nlog), 4094, 4095, 8191, 8203)
    else Gaps(Geom(12300 + nlog, 31944, nlog), 4095, 8191, 12287, 12295)
  }

  lemma SpreadOk(k: nat, nlog: nat)
    requires 1 <= k <= 4 && 1 <= nlog <= L.LOGSIZE + 1
    ensures Spread(k, nlog).Ok() && Spread(k, nlog).g.nlog == nlog && |DataBitmap(Spread(k, nlog).g)| == k
    ensures var p := Spread(k, nlog); |BitmapOf([p.c1, p.c2, p.c3, p.c4], p.g.ninodes)| == k
  {
    var p := Spread(k, nlog);
    FourElems(p.c1, p.c2, p.c3, p.c4, p.g.ninodes);
    SpreadSectors(k, nlog);
    SpreadIsOk(k, nlog);
    hide BBlock, Sectors, Spread;
    SpreadBitmap(p.g, k, [p.c1, p.c2, p.c3, p.c4], Sectors(p.g.ninodes / IPB + 3, k));
  }

  lemma SpreadIsOk(k: nat, nlog: nat)
    requires 1 <= k <= 4 && 1 <= nlog <= L.LOGSIZE + 1
    ensures var p := Spread(k, nlog);
            && p.Ok() && p.g.nlog == nlog && p.g.Hi() <= k * BPB
            && AllInside([p.c1, p.c2, p.c3, p.c4], p.g.Lo(), p.g.Hi())
  {
    var p := Spread(k, nlog);
    assert p.g.Lo() == 4000;
    assert k == 1 ==> p.c4 - 4003 == 12 * 1;
    assert k == 2 ==> p.c4 - 4003 == 12 * 8;
    assert k == 3 ==> p.c4 - 4003 == 12 * 350;
    assert k == 4 ==> p.c4 - 4003 == 12 * 691;
  }

  lemma SpreadSectors(k: nat, nlog: nat)
    requires 1 <= k <= 4
    ensures var p := Spread(k, nlog); var n := p.g.ninodes;
            {BBlock(p.c1, n), BBlock(p.c2, n), BBlock(p.c3, n), BBlock(p.c4, n)} == Sectors(n / IPB + 3, k)
  {
    var p := Spread(k, nlog);
    var s0 := p.g.ninodes / IPB + 3;
    if k == 1 {
      assert BBlock(p.c1, p.g.ninodes) == s0 && BBlock(p.c4, p.g.ninodes) == s0;
    } else if k == 2 {
      assert BBlock(p.c1, p.g.ninodes) == s0 && BBlock(p.c4, p.g.ninodes) == s0 + 1;
    } else if k == 3 {
      assert BBlock(p.c1, p.g.ninodes) == s0 && BBlock(p.c3, p.g.ninodes) == s0 + 1
             && BBlock(p.c4, p.g.ninodes) == s0 + 2;
    }
  }

  function Sectors(s0: nat, k: nat): (r: set<nat>)
    requires 1 <= k <= 4
    ensures |r| == k && forall s :: s0 <= s < s0 + k <==> s in r
  {
    if k == 1 then {s0} else Sectors(s0, k - 1) + {s0 + k - 1}
  }

  lemma SpreadBitmap(g: Geom, k: nat, four: seq<nat>, sectors: set<nat>)
    requires 1 <= k <= 4 && sectors == Sectors(g.ninodes / IPB + 3, k) && BitmapOf(four, g.ninodes) == sectors
    requires AllInside(four, g.Lo(), g.Hi()) && g.Hi() <= k * BPB
    ensures DataBitmap(g) == sectors
  {
    forall s | s in sectors ensures s in DataBitmap(g) {
      var b :| b in four && s == BBlock(b, g.ninodes);
    }
    forall s | s in DataBitmap(g) ensures s in sectors {
      var b: nat :| g.Lo() <= b < g.Hi() && s == BBlock(b, g.ninodes);
      assert b / BPB < k;
    }
  }

  /**
   * A log of nlog blocks takes every chunk, on every image with at most w bitmap sectors in its data area, if and
   * only if it holds six sectors and one for each of them, up to four.
   */
  lemma ChunkRoom(w: nat, nlog: nat)
    requires w > 0 && nlog > 0
    ensures EveryChunkFits(w, nlog) <==> Min(L.LOGSIZE, nlog - 1) >= 6 + Min(w, 4)
  {
    if Min(L.LOGSIZE, nlog - 1) >= 6 + Min(w, 4) {
      forall m: Image, i: nat, off: nat, n: nat | FileChunk(m, i, off, n) && m.g.nlog == nlog && |DataBitmap(m.g)| <= w
        ensures |ChunkSectors(m, i, off, n)| <= Capacity(m.g)
      {
        ChunkOfImage(m, i, off, n);
      }
    } else {
      var p := Spread(Min(w, 4), nlog);
      SpreadOk(Min(w, 4), nlog);
      WorstChunk(p);
      WorstCount(p);
      assert FileChunk(p.Img(), FIRST, OFF, CHUNK);
    }
  }

  /** mkfs's log has LOGSIZE blocks: enough for up to three bitmap sectors and no more. */
  lemma MkfsLog(w: nat)
    requires w > 0
    ensures EveryChunkFits(w, L.LOGSIZE) <==> w <= 3
  {
    ChunkRoom(w, L.LOGSIZE);
  }

  /** Every chunk that its image's log takes needs at most n buffers. */
  ghost predicate EveryChunkBuffered(w: nat, n: nat) {
    forall m: Image, i: nat, off: nat, k: nat {:trigger ChunkSectors(m, i, off, k)} ::
      FileChunk(m, i, off, k) && |DataBitmap(m.g)| <= w && |ChunkSectors(m, i, off, k)| <= Capacity(m.g) ==>
        |ChunkSectors(m, i, off, k)| < n
  }

  /** n buffers are enough for every chunk on images with at most w bitmap sectors, by FsCrash.ChunkTrace, if and only
      if they are seven and one for each of them, up to four: a larger log does not help. */
  lemma BufferRoom(w: nat, n: nat)
    requires w > 0
    ensures EveryChunkBuffered(w, n) <==> n >= 7 + Min(w, 4)
  {
    if n >= 7 + Min(w, 4) {
      forall m: Image, i: nat, off: nat, k: nat | FileChunk(m, i, off, k) && |DataBitmap(m.g)| <= w
        ensures |ChunkSectors(m, i, off, k)| < n
      {
        ChunkOfImage(m, i, off, k);
      }
    } else {
      var p := Spread(Min(w, 4), L.LOGSIZE + 1);
      SpreadOk(Min(w, 4), L.LOGSIZE + 1);
      WorstChunk(p);
      WorstCount(p);
      assert FileChunk(p.Img(), FIRST, OFF, CHUNK);
      assert Capacity(p.Img().g) == L.LOGSIZE;
    }
  }

  /** The kernel's NBUF buffers do for up to three bitmap sectors and no more. */
  lemma KernelBuffers(w: nat)
    requires w > 0
    ensures EveryChunkBuffered(w, NBUF) <==> w <= 3
  {
    BufferRoom(w, NBUF);
  }
}
