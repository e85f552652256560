/**
 * The on-disk file system: superblock geometry, blocks, inodes, and who owns which block.
 */
module FsLayout {
  import opened Params
  import opened Wrappers

  const BSIZE := 512
  const NDIRECT := 12
  const NINDIRECT := 128
  const MAXFILE := 140
  const IPB := 8
  const BPB := 4096

  const ROOTINO := 1        // the root directory
  const T_DIR := 1          // inode types
  const T_FILE := 2
  const T_DEV := 3

  type byte = x: int | 0 <= x < 256
  type Block = b: seq<byte> | |b| == BSIZE witness seq(BSIZE, _ => 0)

  function ZeroBlock(): Block { seq(BSIZE, _ => 0) }

  // ----- the 32-bit little-endian words of an indirect block -----

  function Word(b: Block, i: nat): (w: nat)
    requires i < NINDIRECT
    ensures w < UINT
  {
    var b0: int, b1: int, b2: int, b3: int := b[4 * i], b[4 * i + 1], b[4 * i + 2], b[4 * i + 3];
    b0 + 0x100 * b1 + 0x1_0000 * b2 + 0x100_0000 * b3
  }

  function PutWord(b: Block, i: nat, w: nat): Block
    requires i < NINDIRECT && w < UINT
  {
    b[4 * i := w % 0x100][4 * i + 1 := w / 0x100 % 0x100]
    [4 * i + 2 := w / 0x1_0000 % 0x100][4 * i + 3 := w / 0x100_0000]
  }

  lemma BytesOfWord(w: nat)
    requires w < UINT
    ensures w / 0x100_0000 < 0x100
    ensures w == w % 0x100 + 0x100 * (w / 0x100 % 0x100) + 0x1_0000 * (w / 0x1_0000 % 0x100)
                 + 0x100_0000 * (w / 0x100_0000)
  {
    assert w / 0x1_0000 == (w / 0x100) / 0x100;
    assert w / 0x100_0000 == (w / 0x1_0000) / 0x100;
  }

  /** Storing an entry of an indirect block reads back, and leaves the other entries. */
  lemma PutWordRoundTrip(b: Block, i: nat, w: nat, k: nat)
    requires i < NINDIRECT && k < NINDIRECT && w < UINT
    ensures Word(PutWord(b, i, w), k) == if k == i then w else Word(b, k)
  {
    BytesOfWord(w);
  }

  // ----- inodes -----

  type short = x: int | -0x8000 <= x < 0x8000

  datatype Dinode = Dinode(typ: short, major: short, minor: short, nlink: short, size: nat, addrs: seq<nat>)

  /** The blocks of a file: its data blocks in order, and its indirect block (0 if none). */
  datatype File = File(data: seq<nat>, ind: nat)

  /** What a block in use is for: data block k of inode i, or the indirect block of inode i. */
  datatype Owner = Data(i: nat, k: nat) | Ind(i: nat)

  function Entry(data: seq<nat>, k: nat): nat {
    if k < |data| then data[k] else 0
  }

  ghost predicate DirectOk(addrs: seq<nat>, f: File)
    requires |addrs| == NDIRECT + 1
  {
    forall k :: 0 <= k < NDIRECT ==> addrs[k] == Entry(f.data, k)
  }

  ghost predicate IndirectOk(b: Block, f: File) {
    forall k :: 0 <= k < NINDIRECT ==> Word(b, k) == Entry(f.data, NDIRECT + k)
  }

  /** The inode's addrs, with the indirect block, list exactly the blocks of f. */
  ghost predicate Reps(d: Dinode, blk: seq<Block>, f: File) {
    && |d.addrs| == NDIRECT + 1 && |f.data| <= MAXFILE
    && d.addrs[NDIRECT] == f.ind && (|f.data| > NDIRECT ==> f.ind != 0)
    && DirectOk(d.addrs, f)
    && (f.ind != 0 ==> f.ind < |blk| && IndirectOk(blk[f.ind], f))
  }

  function Blocks(size: nat): (n: nat)
    ensures (n - 1) * BSIZE < size <= n * BSIZE
  {
    (size + BSIZE - 1) / BSIZE
  }

  // ----- how large a file can be -----

  /** Where an inode can keep the address of a block: in a slot of addrs, or in four bytes of its indirect block. */
  datatype Place = Direct(slot: nat) | InBlock(byte: nat)

  function PlaceOf(k: nat): Option<Place> {
    if k < NDIRECT then Some(Direct(k))
    else if 4 * (k - NDIRECT) + 4 <= BSIZE then Some(InBlock(4 * (k - NDIRECT)))
    else None
  }

  /** The address there. */
  function AddrAt(d: Dinode, blk: seq<Block>, p: Place): nat
    requires |d.addrs| == NDIRECT + 1 && d.addrs[NDIRECT] < |blk|
    requires if p.Direct? then p.slot < NDIRECT else p.byte % 4 == 0 && p.byte + 4 <= BSIZE
  {
    if p.Direct? then d.addrs[p.slot] else Word(blk[d.addrs[NDIRECT]], p.byte / 4)
  }

  /** Some byte of a file of this size has no place in any inode. */
  ghost predicate TooLarge(size: nat) {
    exists x: nat :: x < size && PlaceOf(x / BSIZE).None?
  }

  /** That is so exactly past MAXFILE blocks, */
  lemma TooLargeIff(size: nat)
    ensures TooLarge(size) <==> size > MAXFILE * BSIZE
  {
    if size > MAXFILE * BSIZE {
      assert PlaceOf(MAXFILE * BSIZE / BSIZE).None?;
    }
  }

  /** and every block of a file is found at its place. */
  lemma FoundAtPlace(d: Dinode, blk: seq<Block>, f: File, k: nat)
    requires Reps(d, blk, f) && k < |f.data| && f.ind < |blk|
    ensures PlaceOf(k).Some? && AddrAt(d, blk, PlaceOf(k).value) == f.data[k]
  {
    if k >= NDIRECT {
      assert Word(blk[f.ind], k - NDIRECT) == Entry(f.data, NDIRECT + (k - NDIRECT));
    }
  }

  /** An inode at rest: blocks up to its size and no further; a free inode has none. */
  ghost predicate SizeOk(d: Dinode, f: File) {
    && d.size <= MAXFILE * BSIZE && |f.data| == Blocks(d.size) && (f.ind != 0 ==> |f.data| > NDIRECT)
    && (d.typ == 0 ==> d.size == 0)
  }

  // ----- ownership -----

  ghost predicate Owns(files: seq<File>, o: Owner, b: nat) {
    match o
    case Data(i, k) => i < |files| && k < |files[i].data| && files[i].data[k] == b
    case Ind(i) => i < |files| && files[i].ind == b
  }

  ghost predicate FileOwned(own: map<nat, Owner>, i: nat, f: File) {
    && (forall k :: 0 <= k < |f.data| ==> f.data[k] in own && own[f.data[k]] == Data(i, k))
    && (f.ind != 0 ==> f.ind in own && own[f.ind] == Ind(i))
  }

  /**
   * Block ownership.  own is a function from blocks to owners and every pointer to a block is one of
   * its values, so no block has two uses; below hi the bitmap is exactly the blocks before the data area
   * and the owned ones.  Of the bits of the log's blocks, from hi on, nothing is said.
   */
  ghost predicate OwnOk(bits: seq<bool>, files: seq<File>, own: map<nat, Owner>, lo: nat, hi: nat) {
    && 0 < lo <= hi <= |bits|
    && (forall b :: b in own ==> lo <= b < hi && Owns(files, own[b], b))
    && (forall i :: 0 <= i < |files| ==> FileOwned(own, i, files[i]))
    && (forall b :: 0 <= b < hi ==> (bits[b] <==> b < lo || b in own))
  }

  /** No block is in two files, nor twice in one. */
  lemma NoSharing(bits: seq<bool>, files: seq<File>, own: map<nat, Owner>, lo: nat, hi: nat,
                  i: nat, k: nat, j: nat, l: nat)
    requires OwnOk(bits, files, own, lo, hi) && i < |files| && j < |files|
    requires k < |files[i].data| && l < |files[j].data|
    ensures files[i].data[k] == files[j].data[l] <==> i == j && k == l
    ensures files[i].data[k] != files[j].ind && (files[i].ind == files[j].ind != 0 ==> i == j)
    ensures bits[files[i].data[k]]
  {
    assert FileOwned(own, i, files[i]) && FileOwned(own, j, files[j]);
  }

  /** No block leaks: one in use in the data area is reachable from some inode. */
  lemma NoLeak(bits: seq<bool>, files: seq<File>, own: map<nat, Owner>, lo: nat, hi: nat, b: nat)
    requires OwnOk(bits, files, own, lo, hi) && lo <= b < hi
    ensures bits[b] <==> exists i :: 0 <= i < |files| && (b in files[i].data || b == files[i].ind)
  {
    if b in own {
      assert Owns(files, own[b], b);
      var i := own[b].i;
      assert b in files[i].data || b == files[i].ind;
    }
    if i :| 0 <= i < |files| && (b in files[i].data || b == files[i].ind) {
      assert FileOwned(own, i, files[i]);
      if b in files[i].data {
        var k :| 0 <= k < |files[i].data| && files[i].data[k] == b;
      }
    }
  }

  // ----- the three ways ownership changes -----

  ghost function WithData(files: seq<File>, i: nat, b: nat): seq<File>
    requires i < |files|
  {
    files[i := File(files[i].data + [b], files[i].ind)]
  }

  lemma AttachData(bits: seq<bool>, files: seq<File>, own: map<nat, Owner>, lo: nat, hi: nat, i: nat, b: nat)
    requires OwnOk(bits, files, own, lo, hi) && i < |files| && b < hi && !bits[b]
    ensures b !in own && lo <= b < hi
    ensures OwnOk(bits[b := true], WithData(files, i, b), own[b := Data(i, |files[i].data|)], lo, hi)
  {
    var files', own' := WithData(files, i, b), own[b := Data(i, |files[i].data|)];
    forall c | c in own'
      ensures lo <= c < hi && Owns(files', own'[c], c)
    {
      if c != b { assert Owns(files, own[c], c); }
    }
    forall j | 0 <= j < |files'|
      ensures FileOwned(own', j, files'[j])
    {
      assert FileOwned(own, j, files[j]);
    }
  }

  lemma AttachInd(bits: seq<bool>, files: seq<File>, own: map<nat, Owner>, lo: nat, hi: nat, i: nat, b: nat)
    requires OwnOk(bits, files, own, lo, hi) && i < |files| && files[i].ind == 0 && b < hi && !bits[b]
    ensures b !in own && lo <= b < hi
    ensures OwnOk(bits[b := true], files[i := files[i].(ind := b)], own[b := Ind(i)], lo, hi)
  {
    var files', own' := files[i := files[i].(ind := b)], own[b := Ind(i)];
    forall c | c in own'
      ensures lo <= c < hi && Owns(files', own'[c], c)
    {
      if c != b { assert Owns(files, own[c], c); }
    }
    forall j | 0 <= j < |files'|
      ensures FileOwned(own', j, files'[j])
    {
      assert FileOwned(own, j, files[j]);
    }
  }

  predicate Uses(f: File, b: nat) { b in f.data || (f.ind != 0 && f.ind == b) }

  /** Clearing the bits of all of a file's blocks. */
  lemma Detach(bits: seq<bool>, bits': seq<bool>, files: seq<File>, own: map<nat, Owner>, lo: nat, hi: nat, i: nat)
    requires OwnOk(bits, files, own, lo, hi) && i < |files| && |bits'| == |bits|
    requires forall b :: 0 <= b < |bits| ==> bits'[b] == (bits[b] && !Uses(files[i], b))
    ensures OwnOk(bits', files[i := File([], 0)], map b | b in own && own[b].i != i :: own[b], lo, hi)
  {
    var files', own' := files[i := File([], 0)], map b | b in own && own[b].i != i :: own[b];
    assert FileOwned(own, i, files[i]);
    forall c | c in own'
      ensures lo <= c < hi && Owns(files', own'[c], c)
    {
      assert Owns(files, own[c], c);
    }
    forall j | 0 <= j < |files'|
      ensures FileOwned(own', j, files'[j])
    {
      assert FileOwned(own, j, files[j]);
    }
    forall b | 0 <= b < hi
      ensures bits'[b] <==> b < lo || b in own'
    {
      UsesIffOwns(bits, files, own, lo, hi, i, b);
    }
  }

  lemma UsesIffOwns(bits: seq<bool>, files: seq<File>, own: map<nat, Owner>, lo: nat, hi: nat, i: nat, b: nat)
    requires OwnOk(bits, files, own, lo, hi) && i < |files|
    ensures Uses(files[i], b) <==> b in own && own[b].i == i
  {
    assert FileOwned(own, i, files[i]);
    if b in own {
      assert Owns(files, own[b], b);
    }
  }

  // ----- an inode's map survives changes to blocks that are not its own -----

  /** Blocks outside the data area of others: every block owned by another inode is as before. */
  ghost predicate KeepsOthers(blk: seq<Block>, blk': seq<Block>, own: map<nat, Owner>, i: nat) {
    && |blk'| == |blk|
    && forall b :: b in own && own[b].i != i && b < |blk| ==> blk'[b] == blk[b]
  }

  lemma RepsOther(d: Dinode, blk: seq<Block>, blk': seq<Block>, bits: seq<bool>, files: seq<File>,
                  own: map<nat, Owner>, lo: nat, hi: nat, i: nat, j: nat)
    requires OwnOk(bits, files, own, lo, hi) && i != j && j < |files| && Reps(d, blk, files[j])
    requires KeepsOthers(blk, blk', own, i)
    ensures Reps(d, blk', files[j])
  {
    assert FileOwned(own, j, files[j]);
  }

  /** The bytes of a file. */
  ghost function Bytes(blk: seq<Block>, data: seq<nat>, size: nat): (s: seq<byte>)
    requires size <= |data| * BSIZE && forall k :: 0 <= k < |data| ==> data[k] < |blk|
    ensures |s| == size
  {
    seq(size, x requires 0 <= x < size => blk[data[x / BSIZE]][x % BSIZE])
  }

  lemma BytesOther(blk: seq<Block>, blk': seq<Block>, bits: seq<bool>, files: seq<File>,
                   own: map<nat, Owner>, lo: nat, hi: nat, i: nat, j: nat, size: nat)
    requires OwnOk(bits, files, own, lo, hi) && i != j && j < |files| && |blk| == |bits|
    requires size <= |files[j].data| * BSIZE && KeepsOthers(blk, blk', own, i)
    ensures forall k :: 0 <= k < |files[j].data| ==> files[j].data[k] < |blk|
    ensures Bytes(blk', files[j].data, size) == Bytes(blk, files[j].data, size)
  {
    assert FileOwned(own, j, files[j]);
  }

  // ----- the whole inode table -----

  /** The inode as the kernel sees it: the in-memory copy if there is a valid one, else the disk's. */
  function Cur(dinode: seq<Dinode>, cache: map<nat, Dinode>, j: nat): Dinode
    requires j < |dinode|
  {
    if j in cache then cache[j] else dinode[j]
  }

  ghost predicate RepsAll(blk: seq<Block>, dinode: seq<Dinode>, cache: map<nat, Dinode>, files: seq<File>) {
    && |dinode| == |files|
    && forall j :: 0 <= j < |files| ==> Reps(Cur(dinode, cache, j), blk, files[j])
  }

  /** Inode j has blocks up to its size and no further, and its in-memory copy matches the disk. */
  ghost predicate AtRest(dinode: seq<Dinode>, cache: map<nat, Dinode>, files: seq<File>, j: nat)
    requires j < |dinode| == |files|
  {
    && SizeOk(Cur(dinode, cache, j), files[j])
    && (j in cache ==> cache[j] == dinode[j] && cache[j].typ != 0)
  }

  function NoAddrs(): seq<nat> { seq(NDIRECT + 1, _ => 0) }

  ghost predicate Extends(own: map<nat, Owner>, own': map<nat, Owner>) {
    forall b :: b in own ==> b in own' && own'[b] == own[b]
  }

  /** Only inode i and blocks that are not another inode's have changed. */
  lemma RepsChange(blk: seq<Block>, blk': seq<Block>, dinode: seq<Dinode>, cache: map<nat, Dinode>,
                   bits: seq<bool>, files: seq<File>, own: map<nat, Owner>, lo: nat, hi: nat,
                   i: nat, d: Dinode, f: File)
    requires OwnOk(bits, files, own, lo, hi) && RepsAll(blk, dinode, cache, files) && i < |files|
    requires KeepsOthers(blk, blk', own, i) && Reps(d, blk', f)
    ensures RepsAll(blk', dinode, cache[i := d], files[i := f])
  {
    forall j | 0 <= j < |files| && j != i
      ensures Reps(Cur(dinode, cache[i := d], j), blk', files[j])
    {
      RepsOther(Cur(dinode, cache, j), blk, blk', bits, files, own, lo, hi, i, j);
    }
  }

  /** A fresh zeroed block becomes inode i's indirect block. */
  lemma RepsInd(d: Dinode, blk: seq<Block>, f: File, b: nat)
    requires Reps(d, blk, f) && f.ind == 0 && 0 < b < |blk|
    ensures Reps(d.(addrs := d.addrs[NDIRECT := b]), blk[b := ZeroBlock()], f.(ind := b))
  {
  }

  /** A fresh block becomes the next direct block. */
  lemma RepsDirect(d: Dinode, blk: seq<Block>, blk': seq<Block>, f: File, b: nat)
    requires Reps(d, blk, f) && |f.data| < NDIRECT && |blk'| == |blk|
    requires f.ind != 0 ==> f.ind < |blk| && blk'[f.ind] == blk[f.ind]
    ensures Reps(d.(addrs := d.addrs[|f.data| := b]), blk', File(f.data + [b], f.ind))
  {
    if f.ind != 0 {
      forall k | 0 <= k < NINDIRECT
        ensures Word(blk'[f.ind], k) == Entry(f.data + [b], NDIRECT + k)
      {
        assert Word(blk[f.ind], k) == Entry(f.data, NDIRECT + k);
      }
    }
  }

  /** A fresh block becomes the next entry of the indirect block. */
  lemma RepsEntry(d: Dinode, blk: seq<Block>, blk': seq<Block>, f: File, b: nat)
    requires Reps(d, blk, f) && NDIRECT <= |f.data| < MAXFILE && f.ind != 0 && |blk'| == |blk| && b < UINT
    requires blk'[f.ind] == PutWord(blk[f.ind], |f.data| - NDIRECT, b)
    ensures Reps(d, blk', File(f.data + [b], f.ind))
  {
    forall k | 0 <= k < NINDIRECT
      ensures Word(blk'[f.ind], k) == Entry(f.data + [b], NDIRECT + k)
    {
      assert Word(blk[f.ind], k) == Entry(f.data, NDIRECT + k);
      PutWordRoundTrip(blk[f.ind], |f.data| - NDIRECT, b, k);
    }
  }

  // ----- sectors -----

  function IBlock(i: nat): nat { i / IPB + 2 }

  function BBlock(b: nat, ninodes: nat): nat { b / BPB + ninodes / IPB + 3 }
}
