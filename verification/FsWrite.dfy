/**
 * The effect of writei's loop and of itrunc's on a file: patches of its bytes, growth of its map, bits cleared.
 */
module FsWrite {
  import opened Wrappers
  import opened FsLayout
  import opened FsDisk
  import opened FsBudget
  import L = LogDisk
  import C = LogCrash

  /** A file's blocks once block bn, no later than the one after the last, has been mapped to b. */
  ghost predicate Grown(data: seq<nat>, bn: nat, b: nat, data': seq<nat>)
    requires bn <= |data|
  {
    if bn < |data| then data' == data && data[bn] == b else data' == data + [b]
  }

  datatype Snap = Snap(files: seq<File>, own: map<nat, Owner>, cache: map<nat, Dinode>, blk: seq<Block>)

  /** A step on inode i that keeps everything of the others, and extends i's map. */
  ghost predicate Framed(s: Snap, t: Snap, i: nat) {
    && i < |s.files| == |t.files| && i in s.cache && i in t.cache
    && t.files == s.files[i := t.files[i]] && Extends(s.own, t.own)
    && t.cache == s.cache[i := s.cache[i].(addrs := t.cache[i].addrs)]
    && KeepsOthers(s.blk, t.blk, s.own, i)
    && s.files[i].data <= t.files[i].data
  }

  lemma FramedTrans(s: Snap, t: Snap, u: Snap, i: nat)
    requires Framed(s, t, i) && Framed(t, u, i)
    ensures Framed(s, u, i)
  {
  }

  /** One that also keeps the contents of i's blocks so far. */
  ghost predicate Kept(s: Snap, t: Snap, i: nat) {
    && Framed(s, t, i)
    && forall k :: 0 <= k < |s.files[i].data| ==>
                     s.files[i].data[k] < |s.blk| && t.blk[s.files[i].data[k]] == s.blk[s.files[i].data[k]]
  }

  lemma KeptTrans(s: Snap, t: Snap, u: Snap, i: nat)
    requires Kept(s, t, i) && Kept(t, u, i)
    ensures Kept(s, u, i) && Extends(s.own, t.own)
  {
  }

  /** Byte x of a file whose blocks are data. */
  ghost function ByteAt(blk: seq<Block>, data: seq<nat>, x: nat): byte
    requires InRange(blk, data) && x / BSIZE < |data|
  {
    blk[data[x / BSIZE]][x % BSIZE]
  }

  ghost predicate InRange(blk: seq<Block>, data: seq<nat>) {
    forall k :: 0 <= k < |data| ==> data[k] < |blk|
  }

  /** The file's bytes from bn * BSIZE + at on are now chunk; its other bytes are as before. */
  ghost predicate Patched(blk: seq<Block>, data: seq<nat>, blk': seq<Block>, data': seq<nat>,
                          from: nat, chunk: seq<byte>)
  {
    && InRange(blk, data) && InRange(blk', data') && |data| <= |data'|
    && forall x: nat {:trigger ByteAt(blk', data', x)} :: x / BSIZE < |data'| ==>
         if from <= x < from + |chunk| then ByteAt(blk', data', x) == chunk[x - from]
         else x / BSIZE < |data| ==> ByteAt(blk', data', x) == ByteAt(blk, data, x)
  }

  function Overlaid(b: Block, at: nat, chunk: seq<byte>): Block
    requires at + |chunk| <= BSIZE
  {
    b[..at] + chunk + b[at + |chunk|..]
  }

  /** memmove into one block of the file is a patch of the file. */
  lemma PatchBlock(s: Snap, t: Snap, i: nat, blk': seq<Block>, bn: nat, at: nat, chunk: seq<byte>, b: nat)
    requires Kept(s, t, i) && FileOwned(t.own, i, t.files[i]) && InRange(t.blk, t.files[i].data)
    requires bn <= |s.files[i].data| && Grown(s.files[i].data, bn, b, t.files[i].data)
    requires at + |chunk| <= BSIZE && b < |t.blk|
    requires blk' == t.blk[b := Overlaid(t.blk[b], at, chunk)]
    ensures Patched(s.blk, s.files[i].data, blk', t.files[i].data, bn * BSIZE + at, chunk)
  {
    var data, data' := s.files[i].data, t.files[i].data;
    forall x: nat | x / BSIZE < |data'|
      ensures if bn * BSIZE + at <= x < bn * BSIZE + at + |chunk|
              then ByteAt(blk', data', x) == chunk[x - bn * BSIZE - at]
              else x / BSIZE < |data| ==> ByteAt(blk', data', x) == ByteAt(s.blk, data, x)
    {
      var k := x / BSIZE;
      assert t.own[data'[k]] == Data(i, k) && t.own[data'[bn]] == Data(i, bn);
      assert data'[k] == b <==> k == bn;
      if k == bn {
        assert x % BSIZE == x - bn * BSIZE;
      }
    }
  }

  /** Patches that follow on from each other are one patch. */
  lemma PatchTrans(blk: seq<Block>, data: seq<nat>, blk1: seq<Block>, data1: seq<nat>,
                   blk2: seq<Block>, data2: seq<nat>, from: nat, chunk1: seq<byte>, chunk2: seq<byte>)
    requires Patched(blk, data, blk1, data1, from, chunk1)
    requires Patched(blk1, data1, blk2, data2, from + |chunk1|, chunk2)
    requires |chunk1| == 0 || (from + |chunk1| - 1) / BSIZE < |data1|
    ensures Patched(blk, data, blk2, data2, from, chunk1 + chunk2)
  {
    var chunk := chunk1 + chunk2;
    forall x: nat | x / BSIZE < |data2|
      ensures if from <= x < from + |chunk| then ByteAt(blk2, data2, x) == chunk[x - from]
              else x / BSIZE < |data| ==> ByteAt(blk2, data2, x) == ByteAt(blk, data, x)
    {
      if x / BSIZE < |data1| {
        assert ByteAt(blk1, data1, x) == ByteAt(blk1, data1, x);
      }
    }
  }

  datatype Outcome = Written(n: nat) | Failed | OutOfBlocks

  function Spliced(s: seq<byte>, off: nat, src: seq<byte>): seq<byte>
    requires off <= |s|
  {
    s[..off] + src + (if off + |src| < |s| then s[off + |src|..] else [])
  }

  /** c is c0 with the first k bytes of src laid over it at off. */
  ghost predicate Laying(c0: seq<byte>, c: seq<byte>, off: nat, src: seq<byte>, k: nat)
    requires k <= |src|
  {
    if k == 0 then c == c0 else off <= |c0| && c == Spliced(c0, off, src[..k])
  }

  lemma LayNone(c: seq<byte>, off: nat, src: seq<byte>)
    ensures Laying(c, c, off, src, 0)
  {
  }

  lemma LayNext(c0: seq<byte>, c: seq<byte>, off: nat, src: seq<byte>, k: nat, m: nat)
    requires k + m <= |src| && m > 0 && Laying(c0, c, off, src, k) && off + k <= |c|
    ensures Laying(c0, Spliced(c, off + k, src[k..k + m]), off, src, k + m)
  {
    assert src[..k] + src[k..k + m] == src[..k + m];
    if k > 0 {
      SplicedTwice(c0, off, src[..k], src[k..k + m]);
    }
  }

  lemma SplicedTwice(s: seq<byte>, off: nat, a: seq<byte>, b: seq<byte>)
    requires off <= |s|
    ensures var t := Spliced(s, off, a); off + |a| <= |t| && Spliced(t, off + |a|, b) == Spliced(s, off, a + b)
  {
    var t := Spliced(s, off, a);
    var lhs, rhs := Spliced(t, off + |a|, b), Spliced(s, off, a + b);
    assert |lhs| == |rhs|;
    forall x | 0 <= x < |lhs|
      ensures lhs[x] == rhs[x]
    {
    }
  }

  lemma PatchedIsSpliced(blk: seq<Block>, data: seq<nat>, size: nat, blk': seq<Block>, data': seq<nat>,
                         off: nat, src: seq<byte>)
    requires Patched(blk, data, blk', data', off, src) && off <= size && size <= |data| * BSIZE
    requires off + |src| <= |data'| * BSIZE
    ensures var size' := if off + |src| > size then off + |src| else size;
            Bytes(blk', data', size') == Spliced(Bytes(blk, data, size), off, src)
  {
    var size' := if off + |src| > size then off + |src| else size;
    var lhs, rhs := Bytes(blk', data', size'), Spliced(Bytes(blk, data, size), off, src);
    forall x: nat | x < size'
      ensures lhs[x] == rhs[x]
    {
      assert lhs[x] == ByteAt(blk', data', x);
      assert x < size ==> Bytes(blk, data, size)[x] == ByteAt(blk, data, x);
    }
  }

  /** How far writei's loop has come: s at its start, t after tot bytes of src. */
  ghost predicate Progress(s: Snap, t: Snap, i: nat, off: nat, src: seq<byte>, tot: nat)
    requires tot <= |src|
  {
    && Framed(s, t, i)
    && |t.files[i].data| == Max(|s.files[i].data|, Blocks(off + tot)) && off <= |s.files[i].data| * BSIZE
    && (Blocks(off + tot) <= |s.files[i].data| ==> t.cache == s.cache && t.files == s.files)
    && Patched(s.blk, s.files[i].data, t.blk, t.files[i].data, off, src[..tot])
  }

  lemma StartProgress(s: Snap, i: nat, off: nat, src: seq<byte>)
    requires i < |s.files| && InRange(s.blk, s.files[i].data) && i in s.cache && off <= |s.files[i].data| * BSIZE
    ensures Progress(s, s, i, off, src, 0)
  {
  }

  /** The loop is at a block of the file or the one after its last. */
  lemma AtBlock(s: Snap, t: Snap, i: nat, off: nat, src: seq<byte>, tot: nat)
    requires tot <= |src| && Progress(s, t, i, off, src, tot)
    ensures (off + tot) / BSIZE <= |t.files[i].data|
  {
  }

  lemma EndProgress(s: Snap, t: Snap, i: nat, off: nat, src: seq<byte>)
    requires Progress(s, t, i, off, src, |src|)
    ensures Framed(s, t, i) && |t.files[i].data| == Max(|s.files[i].data|, Blocks(off + |src|))
    ensures Blocks(off + |src|) <= |s.files[i].data| ==> t.cache == s.cache && t.files == s.files
    ensures Patched(s.blk, s.files[i].data, t.blk, t.files[i].data, off, src)
  {
    assert src[..|src|] == src;
  }

  lemma Turn(s: Snap, t: Snap, u: Snap, i: nat, off: nat, src: seq<byte>, tot: nat, m: nat)
    requires m > 0 && tot + m <= |src| && (off + tot) % BSIZE + m <= BSIZE
    requires Progress(s, t, i, off, src, tot) && Framed(t, u, i)
    requires |u.files[i].data| == Max(|t.files[i].data|, (off + tot) / BSIZE + 1)
    requires (off + tot) / BSIZE < |t.files[i].data| ==> u.cache == t.cache && u.files == t.files
    requires Patched(t.blk, t.files[i].data, u.blk, u.files[i].data,
                     (off + tot) / BSIZE * BSIZE + (off + tot) % BSIZE, src[tot..tot + m])
    ensures Progress(s, u, i, off, src, tot + m) && i < |u.files|
  {
    FramedTrans(s, t, u, i);
    hide Framed, Patched;
    assert (off + tot) / BSIZE * BSIZE + (off + tot) % BSIZE == off + tot;
    PatchTrans(s.blk, s.files[i].data, t.blk, t.files[i].data, u.blk, u.files[i].data,
               off, src[..tot], src[tot..tot + m]);
    assert src[..tot] + src[tot..tot + m] == src[..tot + m];
  }

  /** A file's blocks are distinct, not block 0, and marked in use. */
  ghost predicate InUse(bits: seq<bool>, f: File) {
    && (forall k :: 0 <= k < |f.data| ==> 0 < f.data[k] < |bits| && bits[f.data[k]] && f.data[k] != f.ind)
    && (forall k, l :: 0 <= k < |f.data| && 0 <= l < |f.data| && f.data[k] == f.data[l] ==> k == l)
    && (f.ind != 0 ==> f.ind < |bits| && bits[f.ind])
  }

  /** The bits of the first c of these blocks have been cleared. */
  ghost predicate Freed(bits0: seq<bool>, bits: seq<bool>, data: seq<nat>, c: nat) {
    && |bits| == |bits0|
    && forall b :: 0 <= b < |bits| ==> bits[b] == (bits0[b] && !Among(data, c, b))
  }

  ghost predicate Among(data: seq<nat>, c: nat, b: nat) {
    exists k :: 0 <= k < |data| && k < c && data[k] == b
  }

  lemma NoneFreed(bits: seq<bool>, data: seq<nat>)
    ensures Freed(bits, bits, data, 0)
  {
  }

  /** Freeing the next block, if there is one: it is still marked, and then one more is free. */
  lemma FreeOne(bits0: seq<bool>, bits: seq<bool>, f: File, c: nat)
    requires InUse(bits0, f) && Freed(bits0, bits, f.data, c)
    ensures c >= |f.data| ==> Freed(bits0, bits, f.data, c + 1)
    ensures c < |f.data| ==>
              && 0 < f.data[c] < |bits| && bits[f.data[c]]
              && Freed(bits0, bits[f.data[c] := false], f.data, c + 1)
  {
    if c < |f.data| {
      var bits' := bits[f.data[c] := false];
      forall b | 0 <= b < |bits'|
        ensures bits'[b] == (bits0[b] && !Among(f.data, c + 1, b))
      {
        assert Among(f.data, c + 1, b) <==> Among(f.data, c, b) || b == f.data[c];
      }
    } else {
      forall b | 0 <= b < |bits|
        ensures Among(f.data, c + 1, b) <==> Among(f.data, c, b)
      {
      }
    }
  }

  /** The indirect block is still marked while data blocks are freed. */
  lemma IndInUse(bits0: seq<bool>, bits: seq<bool>, f: File)
    requires InUse(bits0, f) && Freed(bits0, bits, f.data, NDIRECT) && f.ind != 0
    ensures f.ind < |bits| && bits[f.ind]
  {
  }

  lemma AllFreed(bits0: seq<bool>, bits: seq<bool>, f: File, c: nat)
    requires InUse(bits0, f) && Freed(bits0, bits, f.data, c) && |f.data| <= c
    ensures |bits| == |bits0| && (f.ind != 0 ==> bits[f.ind])
    ensures forall b :: 0 <= b < |bits| ==> bits[b] == (bits0[b] && b !in f.data)
  {
    forall b | 0 <= b < |bits|
      ensures Among(f.data, c, b) <==> b in f.data
    {
    }
  }

  /** The bitmap sectors that say which blocks the file had. */
  ghost function FreedSectors(f: File, ninodes: nat): set<nat> {
    BitmapOf(f.data, ninodes) + (if f.ind != 0 then {BBlock(f.ind, ninodes)} else {})
  }

  lemma NoneLogged(data: seq<nat>, ninodes: nat)
    ensures BitmapOf(data[..Min(|data|, 0)], ninodes) == {}
  {
  }

  lemma LoggedOne(data: seq<nat>, k: nat, ninodes: nat)
    ensures k >= |data| ==> data[..Min(|data|, k + 1)] == data[..Min(|data|, k)]
    ensures k < |data| ==> BitmapOf(data[..Min(|data|, k + 1)], ninodes) ==
                           BitmapOf(data[..Min(|data|, k)], ninodes) + {BBlock(data[k], ninodes)}
  {
    if k < |data| {
      var a, b := data[..k], data[..k + 1];
      assert b == a + [data[k]];
      assert forall x :: x in b <==> x in a || x == data[k];
    }
  }

  lemma WholeFile(data: seq<nat>)
    requires |data| <= MAXFILE
    ensures data[..Min(|data|, NDIRECT + NINDIRECT)] == data
  {
  }

  // ----- what a turn of the loop adds to the sectors logged -----

  /** A file that a write has extended to cur blocks, from an image with these bits. */
  ghost predicate FileGrew(f: File, f': File, bits: seq<bool>, cur: nat) {
    && f.data <= f'.data && |f'.data| == Max(|f.data|, cur)
    && (|f.data| > NDIRECT ==> f'.ind == f.ind)
    && (|f.data| <= NDIRECT && f'.ind != 0 ==> f'.ind in Allocs(bits, ToAlloc(|f.data|, cur)))
  }

  /** The blocks logged up to position cur, and those of the turn at cur, are those up to cur + 1. */
  lemma SectorsTurn(bits: seq<bool>, f: File, f': File, first: nat, cur: nat, ninodes: nat)
    requires first <= cur && first <= |f.data| && FileGrew(f, f', bits, cur) && (f'.ind != 0 ==> |f'.data| > NDIRECT)
    requires (|f'.data| > NDIRECT ==> f'.ind != 0) && |Allocs(bits, ToAlloc(|f.data|, cur))| == ToAlloc(|f.data|, cur)
    ensures var m := ToAlloc(|f.data|, cur);
            BlockSectors(bits, f, first, cur + 1, ninodes) ==
            BlockSectors(bits, f, first, cur, ninodes) + BlockSectors(BitsAfter(bits, m), f', cur, cur + 1, ninodes)
  {
    if cur < |f.data| {
      TurnInside(bits, f, f', first, cur, ninodes);
    } else {
      TurnBeyond(bits, f, f', first, cur, ninodes);
    }
  }

  lemma TurnInside(bits: seq<bool>, f: File, f': File, first: nat, cur: nat, ninodes: nat)
    requires first <= cur < |f.data| && f'.data == f.data
    ensures BlockSectors(bits, f, first, cur + 1, ninodes) ==
            BlockSectors(bits, f, first, cur, ninodes) + BlockSectors(bits, f', cur, cur + 1, ninodes)
  {
    hide OldTouched, AllocSectors;
    TouchedTurn(f.data, first, cur);
  }

  lemma TurnBeyond(bits: seq<bool>, f: File, f': File, first: nat, cur: nat, ninodes: nat)
    requires |f.data| <= cur && FileGrew(f, f', bits, cur) && (f'.ind != 0 <==> |f'.data| > NDIRECT)
    requires |Allocs(bits, ToAlloc(|f.data|, cur))| == ToAlloc(|f.data|, cur)
    ensures BlockSectors(bits, f, first, cur + 1, ninodes) ==
            BlockSectors(bits, f, first, cur, ninodes) +
            BlockSectors(BitsAfter(bits, ToAlloc(|f.data|, cur)), f', cur, cur + 1, ninodes)
  {
    hide OldTouched, AllocSectors, Allocs, BitsAfter;
    var nb, m, m' := |f.data|, ToAlloc(|f.data|, cur), ToAlloc(cur, cur + 1);
    assert |f'.data| == cur && ToAlloc(nb, cur + 1) == m + m';
    AllocsSplit(bits, m, m');
    JoinSectors(Allocs(bits, m), Allocs(BitsAfter(bits, m), m'), ninodes);
    NoneTouched(f.data, f'.data, first, cur);
    if nb <= NDIRECT < cur { InSectors(f'.ind, Allocs(bits, m), ninodes); }
    hide ToAlloc;
  }

  lemma InSectors(b: nat, taken: seq<nat>, ninodes: nat)
    requires b in taken
    ensures b in AllocSectors(taken, ninodes)
  {
  }

  lemma TouchedTurn(data: seq<nat>, first: nat, cur: nat)
    requires first <= cur < |data|
    ensures OldTouched(data, first, cur + 1) == OldTouched(data, first, cur) + OldTouched(data, cur, cur + 1)
  {
  }

  lemma NoneTouched(data: seq<nat>, data': seq<nat>, first: nat, cur: nat)
    requires |data| <= cur == |data'|
    ensures OldTouched(data, first, cur + 1) == OldTouched(data, first, cur) && OldTouched(data', cur, cur + 1) == {}
  {
  }

  lemma JoinSectors(a: seq<nat>, b: seq<nat>, ninodes: nat)
    ensures AllocSectors(a + b, ninodes) == AllocSectors(a, ninodes) + AllocSectors(b, ninodes)
  {
    var ab := a + b;
    assert forall x :: x in ab <==> x in a || x in b;
    assert Elems(ab) == Elems(a) + Elems(b);
    assert BitmapOf(ab, ninodes) == BitmapOf(a, ninodes) + BitmapOf(b, ninodes);
  }

  // ----- what bmap takes and logs -----

  /** Mapping block bn took the blocks it needed, and logged them, their bits, and the indirect block. */
  ghost predicate Took(ninodes: nat, bits: seq<bool>, bits': seq<bool>, f: File, f': File,
                       logged: set<nat>, logged': set<nat>, bn: nat)
  {
    var m := ToAlloc(|f.data|, bn + 1);
    && bits' == BitsAfter(bits, m) && FileGrew(f, f', bits, bn + 1)
    && (bn >= |f.data| ==> f'.data[bn] in Allocs(bits, m))
    && logged' == logged + AllocSectors(Allocs(bits, m), ninodes) + IndSector(f, bn + 1)
  }

  lemma BmapCost(nb: nat, bn: nat)
    requires bn <= nb
    ensures ToAlloc(nb, bn + 1) == if bn < nb then 0 else if bn == NDIRECT then 2 else 1
  {
  }

  lemma TookNone(ninodes: nat, bits: seq<bool>, f: File, logged: set<nat>, bn: nat, hi: int)
    requires bn < |f.data| && (f.ind != 0 ==> |f.data| > NDIRECT)
    ensures Took(ninodes, bits, bits, f, f, logged, logged, bn)
    ensures HasFree(bits, ToAlloc(|f.data|, bn + 1), hi)
  {
    assert Allocs(bits, 0) == [] && Elems([]) == {} && BitmapOf([], ninodes) == {};
  }

  /** A direct block. */
  lemma TookOne(ninodes: nat, bits: seq<bool>, f: File, f': File, logged: set<nat>, bn: nat, b: nat)
    requires bn == |f.data| < NDIRECT && f' == File(f.data + [b], f.ind) && f.ind == 0 && ScanFrom(bits, 0) == Some(b)
    ensures Took(ninodes, bits, bits[b := true], f, f', logged, logged + AllocSectors([b], ninodes), bn)
  {
    AllocsOne(bits, b);
    hide AllocSectors;
  }

  /** An entry of the indirect block. */
  lemma TookEntry(ninodes: nat, bits: seq<bool>, f: File, f': File, logged: set<nat>, bn: nat, b: nat)
    requires NDIRECT < bn == |f.data| && f' == File(f.data + [b], f.ind) && ScanFrom(bits, 0) == Some(b)
    ensures Took(ninodes, bits, bits[b := true], f, f', logged, logged + AllocSectors([b], ninodes) + {f.ind}, bn)
  {
    AllocsOne(bits, b);
    hide AllocSectors;
  }

  /** The indirect block and its first entry. */
  lemma TookTwo(ninodes: nat, bits: seq<bool>, f: File, f': File, logged: set<nat>, bn: nat, c: nat, b: nat)
    requires NDIRECT == bn == |f.data| && f' == File(f.data + [b], c) && ScanFrom(bits, 0) == Some(c)
    requires ScanFrom(bits[c := true], 0) == Some(b)
    ensures Took(ninodes, bits, bits[c := true][b := true], f, f', logged,
                 logged + AllocSectors([c], ninodes) + AllocSectors([b], ninodes) + {c}, bn)
  {
    AllocsOne(bits, c);
    AllocsOne(bits[c := true], b);
    AllocsSplit(bits, 1, 1);
    JoinSectors([c], [b], ninodes);
    InSectors(c, [c], ninodes);
    hide AllocSectors, Allocs, BitsAfter;
    assert ToAlloc(|f.data|, bn + 1) == 1 + 1;
    assert c in [c] + [b];
  }

  lemma HasFreeTwo(bits: seq<bool>, hi: int)
    ensures HasFree(bits, 2, hi) ==> HasFree(bits, 1, hi)
    ensures HasFree(bits, 1, hi) ==>
              && ScanFrom(bits, 0).Some?
              && (HasFree(bits, 2, hi) <==> HasFree(bits[ScanFrom(bits, 0).value := true], 1, hi))
  {
    HasFreeLess(bits, 1, 1, hi);
    if HasFree(bits, 1, hi) {
      AllocsOne(bits, ScanFrom(bits, 0).value);
      HasFreeSplit(bits, 1, 1, hi);
    }
  }

  // ----- what writei's loop takes and logs -----

  /** Writing blocks first up to cur: what it took from the bitmap, what the file is now, what it logged. */
  ghost predicate Tally(ninodes: nat, hi: int, bits: seq<bool>, bits': seq<bool>, f: File, f': File,
                        logged: set<nat>, logged': set<nat>, first: nat, cur: nat)
  {
    var m := ToAlloc(|f.data|, cur);
    && HasFree(bits, m, hi) && bits' == BitsAfter(bits, m) && FileGrew(f, f', bits, cur)
    && logged' == logged + BlockSectors(bits, f, first, cur, ninodes)
  }

  /** bmap and the log_write of the block it returned. */
  lemma TallyBlock(ninodes: nat, hi: int, bits: seq<bool>, bits': seq<bool>, f: File, f': File,
                   logged: set<nat>, logged': set<nat>, bn: nat)
    requires Took(ninodes, bits, bits', f, f', logged, logged', bn) && bn <= |f.data|
    requires HasFree(bits, ToAlloc(|f.data|, bn + 1), hi)
    ensures bn < |f'.data| && Tally(ninodes, hi, bits, bits', f, f', logged, logged' + {f'.data[bn]}, bn, bn + 1)
  {
    var taken := Allocs(bits, ToAlloc(|f.data|, bn + 1));
    if bn < |f.data| {
      assert OldTouched(f.data, bn, bn + 1) == {f.data[bn]};
    } else {
      assert OldTouched(f.data, bn, bn + 1) == {};
      InSectors(f'.data[bn], taken, ninodes);
    }
    hide OldTouched, AllocSectors, Allocs, BitsAfter, HasFree, ToAlloc;
  }

  lemma TallyNone(ninodes: nat, hi: int, bits: seq<bool>, f: File, logged: set<nat>, first: nat)
    requires first <= |f.data| && (f.ind != 0 ==> |f.data| > NDIRECT)
    ensures Tally(ninodes, hi, bits, bits, f, f, logged, logged, first, first)
  {
    assert Allocs(bits, 0) == [] && Elems([]) == {} && BitmapOf([], ninodes) == {};
    assert OldTouched(f.data, first, first) == {};
  }

  lemma TallyTurn(ninodes: nat, hi: int, bits: seq<bool>, bits1: seq<bool>, bits2: seq<bool>,
                  f: File, f1: File, f2: File, logged: set<nat>, logged1: set<nat>, logged2: set<nat>,
                  first: nat, cur: nat)
    requires Tally(ninodes, hi, bits, bits1, f, f1, logged, logged1, first, cur) && first <= cur && first <= |f.data|
    requires Tally(ninodes, hi, bits1, bits2, f1, f2, logged1, logged2, cur, cur + 1)
    requires f1.ind != 0 <==> |f1.data| > NDIRECT
    ensures Tally(ninodes, hi, bits, bits2, f, f2, logged, logged2, first, cur + 1)
  {
    hide BlockSectors, Allocs, BitsAfter, FileGrew;
    var m, m1 := ToAlloc(|f.data|, cur), ToAlloc(|f1.data|, cur + 1);
    GrewTurn(bits, f, f1, f2, cur);
    AllocsSplit(bits, m, m1);
    HasFreeSplit(bits, m, m1, hi);
    SectorsTurn(bits, f, f1, first, cur, ninodes);
  }

  lemma GrewTurn(bits: seq<bool>, f: File, f1: File, f2: File, cur: nat)
    requires FileGrew(f, f1, bits, cur) && |Allocs(bits, ToAlloc(|f.data|, cur))| == ToAlloc(|f.data|, cur)
    requires FileGrew(f1, f2, BitsAfter(bits, ToAlloc(|f.data|, cur)), cur + 1)
    requires f1.ind != 0 <==> |f1.data| > NDIRECT
    ensures ToAlloc(|f.data|, cur + 1) == ToAlloc(|f.data|, cur) + ToAlloc(|f1.data|, cur + 1)
    ensures FileGrew(f, f2, bits, cur + 1)
  {
    var m, m1 := ToAlloc(|f.data|, cur), ToAlloc(|f1.data|, cur + 1);
    AllocsSplit(bits, m, m1);
    hide Allocs, BitsAfter;
    assert m + m1 == ToAlloc(|f.data|, cur + 1);
  }

  /** When the next block cannot be had, the whole write could not. */
  lemma TallyFull(ninodes: nat, hi: int, bits: seq<bool>, bits': seq<bool>, f: File, f': File,
                  logged: set<nat>, logged': set<nat>, first: nat, cur: nat, end: nat)
    requires Tally(ninodes, hi, bits, bits', f, f', logged, logged', first, cur) && cur < end
    requires !HasFree(bits', ToAlloc(|f'.data|, cur + 1), hi)
    ensures !HasFree(bits, ToAlloc(|f.data|, end), hi)
  {
    var m, m1 := ToAlloc(|f.data|, cur), ToAlloc(|f'.data|, cur + 1);
    HasFreeSplit(bits, m, m1, hi);
    hide BlockSectors, Allocs, BitsAfter, HasFree;
    assert m + m1 <= ToAlloc(|f.data|, end);
    HasFreeLess(bits, m + m1, ToAlloc(|f.data|, end) - m - m1, hi);
  }

  lemma TallyEnd(ninodes: nat, hi: int, bits: seq<bool>, bits': seq<bool>, f: File, f': File,
                 logged: set<nat>, logged': set<nat>, off: nat, n: nat)
    requires Tally(ninodes, hi, bits, bits', f, f', logged, logged', off / BSIZE, LastBlock(off, n))
    requires off <= |f.data| * BSIZE
    ensures HasFree(bits, ToAlloc(|f.data|, Blocks(off + n)), hi) && LastBlock(off, n) <= Blocks(off + n)
  {
  }

  /** The log_writes of a write inside the file: its blocks, one after the other. */
  ghost predicate InOrder(txn: seq<L.Write>, txn': seq<L.Write>, data: seq<nat>, first: nat, cur: nat) {
    && first <= cur <= |data| && txn <= txn' && |txn'| == |txn| + cur - first
    && forall k :: |txn| <= k < |txn'| ==> txn'[k].sector == data[first + k - |txn|]
  }

  lemma OrderNone(txn: seq<L.Write>, data: seq<nat>, first: nat)
    requires first <= |data|
    ensures InOrder(txn, txn, data, first, first)
  {
  }

  lemma OrderNext(txn: seq<L.Write>, txn1: seq<L.Write>, txn2: seq<L.Write>, data: seq<nat>, first: nat, cur: nat)
    requires InOrder(txn, txn1, data, first, cur) && cur < |data|
    requires txn1 <= txn2 && |txn2| == |txn1| + 1 && txn2[|txn1|].sector == data[cur]
    ensures InOrder(txn, txn2, data, first, cur + 1)
  {
    assert forall k :: 0 <= k < |txn1| ==> txn2[k] == txn1[k];
  }

  /** How much of the current block a turn writes. */
  function Stretch(off: nat, tot: nat, n: nat): (m: nat)
    requires tot < n
    ensures 0 < m <= n - tot && (off + tot) % BSIZE + m <= BSIZE
  {
    if n - tot < BSIZE - (off + tot) % BSIZE then n - tot else BSIZE - (off + tot) % BSIZE
  }

  lemma BlocksOrder(a: nat, b: nat)
    ensures (a <= b ==> Blocks(a) <= Blocks(b)) && (b <= a ==> Blocks(b) <= Blocks(a))
  {
  }

  lemma NoBlock(off: nat)
    ensures LastBlock(off, 0) == off / BSIZE
  {
  }

  lemma NextBlock(off: nat, tot: nat, n: nat)
    requires tot < n && LastBlock(off, tot) == (off + tot) / BSIZE && off + n <= MAXFILE * BSIZE
    ensures var tot' := tot + Stretch(off, tot, n);
            && LastBlock(off, tot') == LastBlock(off, tot) + 1 <= Blocks(off + n)
            && (tot' < n ==> LastBlock(off, tot') == (off + tot') / BSIZE)
    ensures (off + tot) / BSIZE < MAXFILE
  {
  }

  // ----- a write's last log_write is of a sector it has not logged before -----

  /** Inside the file: the last block. */
  lemma BlockIsNew(txn: C.Txn, data: seq<nat>, first: nat, cur: nat)
    requires InOrder([], txn, data, first, cur)
    requires forall k, l :: 0 <= k < |data| && 0 <= l < |data| && data[k] == data[l] ==> k == l
    ensures C.LastIsNew(txn)
  {
    if txn != [] {
      var before := txn[..|txn| - 1];
      forall k | 0 <= k < |before| ensures before[k].sector != txn[|txn| - 1].sector {
        assert before[k].sector == data[first + k];
      }
    }
  }

  /** Growing it: the inode, which no block or bitmap sector shares. */
  lemma InodeIsNew(txn: C.Txn, txn': C.Txn, g: Geom, bits: seq<bool>, f: File, first: nat, end: nat, i: nat)
    requires C.SectorsOf(txn) == BlockSectors(bits, f, first, end, g.ninodes) && i < g.ninodes
    requires txn <= txn' && |txn'| == |txn| + 1 && txn'[|txn|].sector == IBlock(i)
    requires AllInside(Allocs(bits, ToAlloc(|f.data|, end)), g.Lo(), g.Hi())
    requires (forall k :: 0 <= k < |f.data| ==> g.Lo() <= f.data[k]) && (|f.data| > NDIRECT ==> g.Lo() <= f.ind)
    ensures C.LastIsNew(txn')
  {
    assert txn'[..|txn|] == txn;
    forall s | s in BlockSectors(bits, f, first, end, g.ninodes) ensures s >= g.BStart() {
    }
  }
}
