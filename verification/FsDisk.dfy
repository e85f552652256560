/**
 * The file system's layout on the disk: which sector holds which inodes, bits and data, in the words of the
 * log's disk; and reading it back.
 */
module FsDisk {
  import opened Params
  import opened Wrappers
  import opened FsLayout
  import L = LogDisk
  import B = Bits

  /** The superblock: blocks in the image, inodes, log blocks. */
  datatype Geom = Geom(size: nat, ninodes: nat, nlog: nat) {
    function BStart(): nat { ninodes / IPB + 3 }
    function Lo(): nat { BStart() + size / BPB + 1 }
    function Hi(): int { size - nlog }
    predicate Ok() { size <= UINT && 0 < nlog && Lo() <= Hi() }

    /** The log area, after the data blocks. */
    function Log(): L.Log
      requires Ok()
    {
      L.Log(Hi(), nlog)
    }
  }

  /**
   * A file system at one moment: bitmap, block contents, inodes on disk and in memory; and, for the proofs,
   * which blocks each file has and who owns each block.
   */
  datatype Image = Image(g: Geom, bits: seq<bool>, blk: seq<Block>, dinode: seq<Dinode>, cache: map<nat, Dinode>,
                         files: seq<File>, own: map<nat, Owner>)

  ghost predicate Sized(m: Image) {
    && m.g.Ok() && |m.bits| == m.g.size == |m.blk| && |m.dinode| == m.g.ninodes == |m.files|
    && forall j :: j in m.cache ==> j < m.g.ninodes
  }

  /** Every block accounted for and every inode's map right; inodes outside ex are at rest. */
  ghost predicate Consistent(m: Image, ex: set<nat>) {
    && Sized(m) && OwnOk(m.bits, m.files, m.own, m.g.Lo(), m.g.Hi()) && RepsAll(m.blk, m.dinode, m.cache, m.files)
    && forall j :: 0 <= j < m.g.ninodes && j !in ex ==> AtRest(m.dinode, m.cache, m.files, j)
  }

  /** The bytes of inode j's file. */
  ghost function ContentsOf(m: Image, j: nat): (c: seq<byte>)
    requires Consistent(m, {}) && j < m.g.ninodes
    ensures |c| == Cur(m.dinode, m.cache, j).size
  {
    assert AtRest(m.dinode, m.cache, m.files, j) && FileOwned(m.own, j, m.files[j]);
    Bytes(m.blk, m.files[j].data, Cur(m.dinode, m.cache, j).size)
  }

  // ----- one sector -----

  /** n bits from position from, the first one lowest. */
  function BitsFrom(bits: seq<bool>, from: nat, n: nat): nat
    decreases n
  {
    if n == 0 then 0
    else (if from < |bits| && bits[from] then 1 else 0) + 2 * BitsFrom(bits, from + 1, n - 1)
  }

  function Half(lo: short, hi: short): nat { lo % 0x1_0000 + 0x1_0000 * (hi % 0x1_0000) }

  /** The 16 words of a disk inode. */
  function InodeWord(d: Dinode, k: nat): int {
    if k == 0 then Half(d.typ, d.major)
    else if k == 1 then Half(d.minor, d.nlink)
    else if k == 2 then d.size
    else if k - 3 < |d.addrs| then d.addrs[k - 3] else 0
  }

  function InodeWordAt(dinode: seq<Dinode>, i: nat, k: nat): int {
    if i < |dinode| then InodeWord(dinode[i], k) else 0
  }

  /** What sector s of the image holds. */
  ghost function SectorOf(g: Geom, bits: seq<bool>, blk: seq<Block>, dinode: seq<Dinode>, s: nat): L.Block {
    if s == 0 then seq(L.WORDS, _ => 0)
    else if s == 1 then [g.size, g.Hi() - g.Lo(), g.ninodes, g.nlog] + seq(L.WORDS - 4, _ => 0)
    else if s < g.BStart() then seq(L.WORDS, w requires 0 <= w => InodeWordAt(dinode, (s - 2) * IPB + w / 16, w % 16))
    else if s < g.Lo() then seq(L.WORDS, w requires 0 <= w => BitsFrom(bits, (s - g.BStart()) * BPB + 32 * w, 32))
    else if s < |blk| then seq(L.WORDS, w requires 0 <= w < NINDIRECT => Word(blk[s], w))
    else seq(L.WORDS, _ => 0)
  }

  /** Whole image and disk agree on every sector outside the log. */
  ghost predicate OnDisk(g: Geom, bits: seq<bool>, blk: seq<Block>, dinode: seq<Dinode>, disk: L.Disk) {
    |disk| == g.size && forall s: nat :: s < g.size - g.nlog ==> disk[s] == SectorOf(g, bits, blk, dinode, s)
  }

  /** Applied to the disk, the writes give the image. */
  ghost predicate Reaches(disk: L.Disk, ws: seq<L.Write>, g: Geom, bits: seq<bool>, blk: seq<Block>,
                          dinode: seq<Dinode>)
  {
    |disk| == g.size && L.InRange(disk, ws) && OnDisk(g, bits, blk, dinode, L.Applied(disk, ws))
  }

  /** The disk of an image with an empty log area. */
  ghost function Encode(g: Geom, bits: seq<bool>, blk: seq<Block>, dinode: seq<Dinode>): (disk: L.Disk)
    ensures OnDisk(g, bits, blk, dinode, disk)
  {
    seq(g.size, s requires 0 <= s => SectorOf(g, bits, blk, dinode, s))
  }

  // ----- a change belongs to one sector -----

  lemma {:induction false} BitsFromSame(bits: seq<bool>, b: nat, v: bool, from: nat, n: nat)
    requires b < |bits| && (b < from || from + n <= b)
    ensures BitsFrom(bits[b := v], from, n) == BitsFrom(bits, from, n)
    decreases n
  {
    if n > 0 { BitsFromSame(bits, b, v, from + 1, n - 1); }
  }

  lemma BitIsLocal(g: Geom, bits: seq<bool>, blk: seq<Block>, dinode: seq<Dinode>, b: nat, v: bool, s: nat)
    requires b < |bits| && s != BBlock(b, g.ninodes)
    ensures SectorOf(g, bits[b := v], blk, dinode, s) == SectorOf(g, bits, blk, dinode, s)
  {
    hide BitsFrom, InodeWordAt, Word;
    if g.BStart() <= s < g.Lo() {
      var q := s - g.BStart();
      assert b / BPB != q;
      forall w | 0 <= w < L.WORDS
        ensures BitsFrom(bits[b := v], q * BPB + 32 * w, 32) == BitsFrom(bits, q * BPB + 32 * w, 32)
      {
        FarBit(b, q, w);
        BitsFromSame(bits, b, v, q * BPB + 32 * w, 32);
      }
    }
  }

  lemma FarBit(b: nat, q: nat, w: nat)
    requires b / BPB != q && w < L.WORDS
    ensures b < q * BPB + 32 * w || q * BPB + 32 * w + 32 <= b
  {
  }

  lemma BlkIsLocal(g: Geom, bits: seq<bool>, blk: seq<Block>, dinode: seq<Dinode>, b: nat, x: Block, s: nat)
    requires b < |blk| && s != b
    ensures SectorOf(g, bits, blk[b := x], dinode, s) == SectorOf(g, bits, blk, dinode, s)
  {
  }

  lemma DinodeIsLocal(g: Geom, bits: seq<bool>, blk: seq<Block>, dinode: seq<Dinode>, i: nat, d: Dinode, s: nat)
    requires i < |dinode| && s != IBlock(i)
    ensures SectorOf(g, bits, blk, dinode[i := d], s) == SectorOf(g, bits, blk, dinode, s)
  {
    if 2 <= s < g.BStart() {
      forall w | 0 <= w < L.WORDS
        ensures InodeWordAt(dinode[i := d], (s - 2) * IPB + w / 16, w % 16) ==
                InodeWordAt(dinode, (s - 2) * IPB + w / 16, w % 16)
      {
        assert (s - 2) * IPB + w / 16 != i;
      }
    }
  }

  // ----- reading the disk back -----

  lemma {:induction false} BitOfBits(bits: seq<bool>, from: nat, n: nat, r: nat)
    requires r < n
    ensures B.Bit(BitsFrom(bits, from, n), r) == (from + r < |bits| && bits[from + r])
    decreases n
  {
    if r > 0 { BitOfBits(bits, from + 1, n - 1, r - 1); }
  }

  lemma {:induction false} BitsBound(bits: seq<bool>, from: nat, n: nat)
    ensures BitsFrom(bits, from, n) < B.Pow2(n)
    decreases n
  {
    if n > 0 { BitsBound(bits, from + 1, n - 1); }
  }

  /** The word of its sector, and the place in the word, that hold block b's bit. */
  function BitWord(b: nat): (w: nat)
    ensures w < L.WORDS
  {
    b % BPB / 32
  }

  function BitPos(b: nat): nat { b % 32 }

  ghost function BitOn(g: Geom, disk: L.Disk, b: nat): bool
    requires BBlock(b, g.ninodes) < |disk|
  {
    B.Bit(Addr(disk[BBlock(b, g.ninodes)][BitWord(b)]), BitPos(b))
  }

  function Signed(x: int): short { if x % 0x1_0000 < 0x8000 then x % 0x1_0000 else x % 0x1_0000 - 0x1_0000 }

  function Addr(x: int): nat { x % UINT }

  lemma AddrIs(x: nat)
    requires x < UINT
    ensures Addr(x) == x
  {
  }

  /** The inode in 16 words of a block. */
  function InodeAt(b: L.Block, at: nat): Dinode
    requires at + 16 <= L.WORDS
  {
    Dinode(Signed(b[at]), Signed(b[at] / 0x1_0000), Signed(b[at + 1]), Signed(b[at + 1] / 0x1_0000), Addr(b[at + 2]),
           seq<nat>(NDIRECT + 1, k requires 0 <= k <= NDIRECT => Addr(b[at + 3 + k])))
  }

  ghost function InodeOn(disk: L.Disk, i: nat): Dinode
    requires IBlock(i) < |disk|
  {
    InodeAt(disk[IBlock(i)], i % IPB * 16)
  }

  function ByteOf(w: int, j: nat): byte {
    if j == 0 then w % 0x100 else if j == 1 then w / 0x100 % 0x100 else if j == 2 then w / 0x1_0000 % 0x100
    else w / 0x100_0000 % 0x100
  }

  function BlockOn(b: L.Block): Block {
    seq(BSIZE, x requires 0 <= x < BSIZE => ByteOf(b[x / 4], x % 4))
  }

  predicate InWords(d: Dinode) {
    && d.size < UINT && |d.addrs| == NDIRECT + 1
    && forall k :: 0 <= k <= NDIRECT ==> d.addrs[k] < UINT
  }

  lemma HalfRoundTrip(lo: short, hi: short)
    ensures Signed(Half(lo, hi)) == lo && Signed(Half(lo, hi) / 0x1_0000) == hi
  {
    var l, h := lo % 0x1_0000, hi % 0x1_0000;
    assert Half(lo, hi) % 0x1_0000 == l;
    assert Half(lo, hi) / 0x1_0000 == h;
  }

  lemma WordBytes(b: Block, i: nat)
    requires i < NINDIRECT
    ensures ByteOf(Word(b, i), 0) == b[4 * i] && ByteOf(Word(b, i), 1) == b[4 * i + 1]
    ensures ByteOf(Word(b, i), 2) == b[4 * i + 2] && ByteOf(Word(b, i), 3) == b[4 * i + 3]
  {
    var b0: int, b1: int, b2: int, b3: int := b[4 * i], b[4 * i + 1], b[4 * i + 2], b[4 * i + 3];
    var w := Word(b, i);
    assert w / 0x100 == b1 + 0x100 * b2 + 0x1_0000 * b3;
    assert w / 0x1_0000 == b2 + 0x100 * b3;
    assert w / 0x100_0000 == b3;
  }

  /** The disk determines the bitmap, */
  lemma BitReadsBack(g: Geom, bits: seq<bool>, blk: seq<Block>, dinode: seq<Dinode>, disk: L.Disk, b: nat)
    requires g.Ok() && OnDisk(g, bits, blk, dinode, disk) && b < |bits| == g.size
    ensures BBlock(b, g.ninodes) < |disk| && BitOn(g, disk, b) == bits[b]
  {
    BitPlace(g, b);
    hide SectorOf, BitsFrom, B.Bit, B.Pow2, BBlock, BitWord, BitPos, Addr;
    var s, w, r := BBlock(b, g.ninodes), BitWord(b), BitPos(b);
    var from := b - r;
    assert disk[s] == SectorOf(g, bits, blk, dinode, s);
    WordOfBits(g, bits, blk, dinode, s, w, from);
    BitsBound(bits, from, 32);
    B.WordSize();
    AddrIs(BitsFrom(bits, from, 32));
    BitOfBits(bits, from, 32, r);
  }

  lemma WordOfBits(g: Geom, bits: seq<bool>, blk: seq<Block>, dinode: seq<Dinode>, s: nat, w: nat, from: nat)
    requires g.BStart() <= s < g.Lo() && w < L.WORDS && from == (s - g.BStart()) * BPB + 32 * w
    ensures SectorOf(g, bits, blk, dinode, s)[w] == BitsFrom(bits, from, 32)
  {
    hide BitsFrom;
  }

  lemma BitPlace(g: Geom, b: nat)
    requires g.Ok() && b < g.size
    ensures g.BStart() <= BBlock(b, g.ninodes) < g.Lo() <= g.Hi()
    ensures (BBlock(b, g.ninodes) - g.BStart()) * BPB + 32 * BitWord(b) + BitPos(b) == b && BitPos(b) < 32
  {
  }

  /** the inodes, */
  lemma InodeReadsBack(g: Geom, bits: seq<bool>, blk: seq<Block>, dinode: seq<Dinode>, disk: L.Disk, i: nat)
    requires g.Ok() && OnDisk(g, bits, blk, dinode, disk) && i < |dinode| == g.ninodes && InWords(dinode[i])
    ensures IBlock(i) < |disk| && InodeOn(disk, i) == dinode[i]
  {
    var s, at := IBlock(i), i % IPB * 16;
    assert 2 <= s < g.BStart();
    forall k | 0 <= k < 16 ensures disk[s][at + k] == InodeWord(dinode[i], k) {
      InodeWordOn(g, bits, blk, dinode, disk, i, k);
    }
    hide OnDisk;
    InodeOfWords(disk[s], at, dinode[i]);
  }

  lemma InodeOfWords(b: L.Block, at: nat, d: Dinode)
    requires at + 16 <= L.WORDS && InWords(d)
    requires forall k {:trigger InodeWord(d, k)} :: 0 <= k < 16 ==> b[at + k] == InodeWord(d, k)
    ensures InodeAt(b, at) == d
  {
    assert b[at] == InodeWord(d, 0) && b[at + 1] == InodeWord(d, 1) && b[at + 2] == InodeWord(d, 2);
    HalfRoundTrip(d.typ, d.major);
    HalfRoundTrip(d.minor, d.nlink);
    hide Half, Signed;
    var r := InodeAt(b, at);
    forall k | 0 <= k <= NDIRECT ensures r.addrs[k] == d.addrs[k] {
      assert b[at + 3 + k] == InodeWord(d, 3 + k) == d.addrs[k];
    }
    assert r.addrs == d.addrs;
  }

  lemma InodeWordOn(g: Geom, bits: seq<bool>, blk: seq<Block>, dinode: seq<Dinode>, disk: L.Disk, i: nat, k: nat)
    requires g.Ok() && OnDisk(g, bits, blk, dinode, disk) && i < |dinode| == g.ninodes && k < 16
    ensures 2 <= IBlock(i) < g.BStart() && IBlock(i) < |disk|
            && disk[IBlock(i)][i % IPB * 16 + k] == InodeWord(dinode[i], k)
  {
    var s, at := IBlock(i), i % IPB * 16;
    assert 2 <= s < g.BStart();
    assert disk[s] == SectorOf(g, bits, blk, dinode, s);
    assert (at + k) / 16 == i % IPB && (at + k) % 16 == k && (s - 2) * IPB + i % IPB == i;
    hide InodeWord;
  }

  /** and the data blocks. */
  lemma BlockReadsBack(g: Geom, bits: seq<bool>, blk: seq<Block>, dinode: seq<Dinode>, disk: L.Disk, b: nat)
    requires g.Ok() && OnDisk(g, bits, blk, dinode, disk) && g.Lo() <= b < g.Hi() && |blk| == g.size
    ensures BlockOn(disk[b]) == blk[b]
  {
    assert disk[b] == SectorOf(g, bits, blk, dinode, b);
    var r := BlockOn(disk[b]);
    forall x | 0 <= x < BSIZE ensures r[x] == blk[b][x] {
      WordBytes(blk[b], x / 4);
      assert disk[b][x / 4] == Word(blk[b], x / 4);
      assert 4 * (x / 4) + x % 4 == x;
    }
  }
}
