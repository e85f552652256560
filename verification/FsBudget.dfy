/**
 * What a write logs.  First-fit allocation makes the set of sectors a function of the image alone; here it is,
 * with the exact log size that filewrite's chunks need.
 */
module FsBudget {
  import opened Params
  import opened Wrappers
  import opened FsLayout
  import opened FsDisk
  import L = LogDisk
  import C = LogCrash

  /** filewrite's chunk. */
  const CHUNK := (L.LOGSIZE - 1 - 1 - 2) / 2 * 512

  function Min(a: nat, b: nat): nat { if a < b then a else b }

  function Max(a: nat, b: nat): nat { if a < b then b else a }

  // ----- first fit -----

  /** balloc's scan: the lowest clear bit from k on. */
  function ScanFrom(bits: seq<bool>, k: nat): (r: Option<nat>)
    ensures r.Some? ==> k <= r.value < |bits| && !bits[r.value] && forall b :: k <= b < r.value ==> bits[b]
    ensures r.None? ==> forall b :: k <= b < |bits| ==> bits[b]
    decreases |bits| - k
  {
    if k >= |bits| then None else if !bits[k] then Some(k) else ScanFrom(bits, k + 1)
  }

  lemma ScanIs(bits: seq<bool>, b: nat)
    requires b < |bits| && !bits[b] && forall c :: 0 <= c < b ==> bits[c]
    ensures ScanFrom(bits, 0) == Some(b)
  {
    var r := ScanFrom(bits, 0);
  }

  /** The scan stays in the data area if and only if that has a free block; */
  lemma ScanStaysInData(g: Geom, bits: seq<bool>)
    requires g.Ok() && |bits| == g.size && forall b :: 0 <= b < g.Lo() ==> bits[b]
    ensures var r := ScanFrom(bits, 0);
            (r.Some? && g.Lo() <= r.value < g.Hi()) <==> exists b :: g.Lo() <= b < g.Hi() && !bits[b]
  {
    var r := ScanFrom(bits, 0);
    if b :| g.Lo() <= b < g.Hi() && !bits[b] {
      assert r.Some? && r.value <= b;
    }
  }

  /** it hands out a block of the log if and only if the data area is full and a log block is not marked. */
  lemma ScanReachesLog(g: Geom, bits: seq<bool>)
    requires g.Ok() && |bits| == g.size && forall b :: 0 <= b < g.Lo() ==> bits[b]
    ensures var r := ScanFrom(bits, 0);
            (r.Some? && g.Log().InArea(r.value)) <==>
            (forall b :: g.Lo() <= b < g.Hi() ==> bits[b]) && exists b :: g.Hi() <= b < g.size && !bits[b]
  {
    var r := ScanFrom(bits, 0);
    if b :| g.Hi() <= b < g.size && !bits[b] {
      assert r.Some? && r.value <= b;
    }
  }

  /** The blocks n calls of balloc hand out, one after the other; fewer if the disk fills up. */
  function Allocs(bits: seq<bool>, n: nat): (r: seq<nat>)
    ensures |r| <= n && forall k :: 0 <= k < |r| ==> r[k] < |bits|
    decreases n
  {
    if n == 0 then []
    else
      match ScanFrom(bits, 0)
      case None => []
      case Some(b) => [b] + Allocs(bits[b := true], n - 1)
  }

  function BitsAfter(bits: seq<bool>, n: nat): (r: seq<bool>)
    ensures |r| == |bits|
    decreases n
  {
    if n == 0 then bits
    else
      match ScanFrom(bits, 0)
      case None => bits
      case Some(b) => BitsAfter(bits[b := true], n - 1)
  }

  /** n more blocks are free below hi. */
  ghost predicate HasFree(bits: seq<bool>, n: nat, hi: int) {
    |Allocs(bits, n)| == n && forall k :: 0 <= k < n ==> Allocs(bits, n)[k] < hi
  }

  lemma {:induction false} AllocsSplit(bits: seq<bool>, n: nat, m: nat)
    requires |Allocs(bits, n)| == n
    ensures Allocs(bits, n + m) == Allocs(bits, n) + Allocs(BitsAfter(bits, n), m)
    ensures BitsAfter(bits, n + m) == BitsAfter(BitsAfter(bits, n), m)
    decreases n
  {
    if n > 0 {
      var b := ScanFrom(bits, 0).value;
      var bits' := bits[b := true];
      AllocsSplit(bits', n - 1, m);
      var x, y := Allocs(bits', n - 1), Allocs(BitsAfter(bits', n - 1), m);
      assert Allocs(bits, n) == [b] + x && Allocs(bits, n + m) == [b] + (x + y);
      assert [b] + (x + y) == [b] + x + y;
    }
  }

  lemma HasFreeSplit(bits: seq<bool>, n: nat, m: nat, hi: int)
    requires HasFree(bits, n, hi)
    ensures HasFree(bits, n + m, hi) <==> HasFree(BitsAfter(bits, n), m, hi)
  {
    AllocsSplit(bits, n, m);
    hide Allocs, BitsAfter;
    var all, first, rest := Allocs(bits, n + m), Allocs(bits, n), Allocs(BitsAfter(bits, n), m);
    assert forall k :: 0 <= k < |rest| ==> all[n + k] == rest[k];
    assert forall k :: 0 <= k < n ==> all[k] == first[k];
  }

  lemma {:induction false} AllocsPrefix(bits: seq<bool>, n: nat, m: nat)
    ensures Allocs(bits, n) <= Allocs(bits, n + m)
    decreases n
  {
    var r := ScanFrom(bits, 0);
    if n > 0 && r.Some? {
      AllocsPrefix(bits[r.value := true], n - 1, m);
    }
  }

  lemma HasFreeLess(bits: seq<bool>, n: nat, m: nat, hi: int)
    ensures HasFree(bits, n + m, hi) ==> HasFree(bits, n, hi)
  {
    if HasFree(bits, n + m, hi) {
      AllocsPrefix(bits, n, m);
      if |Allocs(bits, n)| < n {
        StoppedEarly(bits, n, m);
      }
    }
  }

  lemma {:induction false} StoppedEarly(bits: seq<bool>, n: nat, m: nat)
    requires |Allocs(bits, n)| < n
    ensures Allocs(bits, n + m) == Allocs(bits, n)
    decreases n
  {
    var r := ScanFrom(bits, 0);
    if r.Some? {
      StoppedEarly(bits[r.value := true], n - 1, m);
    }
  }

  lemma AllocsOne(bits: seq<bool>, b: nat)
    requires ScanFrom(bits, 0) == Some(b)
    ensures Allocs(bits, 1) == [b] && BitsAfter(bits, 1) == bits[b := true]
  {
    assert Allocs(bits[b := true], 0) == [];
  }

  // ----- the sectors of a write -----

  /** Blocks a write of n bytes at off touches, and blocks it makes a file of nb blocks allocate. */
  function Touched(off: nat, n: nat): nat {
    if n == 0 then 0 else (off + n - 1) / BSIZE - off / BSIZE + 1
  }

  /** The block after the last one a write of n bytes at off touches. */
  function LastBlock(off: nat, n: nat): nat {
    if n == 0 then off / BSIZE else Blocks(off + n)
  }

  function ToAlloc(nb: nat, end: nat): nat {
    if end <= nb then 0
    else (end - nb) + (if nb <= NDIRECT < end then 1 else 0)
  }

  /** The blocks of the file at positions first up to end. */
  ghost function OldTouched(data: seq<nat>, first: nat, end: nat): set<nat> {
    set k | first <= k < end && k < |data| :: data[k]
  }

  ghost function Elems(s: seq<nat>): set<nat> { set b | b in s }

  /** The allocated blocks and the bitmap sectors that say so. */
  ghost function AllocSectors(taken: seq<nat>, ninodes: nat): set<nat> {
    Elems(taken) + BitmapOf(taken, ninodes)
  }

  ghost function BitmapOf(taken: seq<nat>, ninodes: nat): set<nat> {
    set b | b in taken :: BBlock(b, ninodes)
  }

  /** The indirect block, if it was there and gets a new entry. */
  function IndSector(f: File, end: nat): set<nat> {
    if NDIRECT < |f.data| < end then {f.ind} else {}
  }

  /** All blocks of file f a write up to block end logs, with their bitmap sectors. */
  ghost function BlockSectors(bits: seq<bool>, f: File, first: nat, end: nat, ninodes: nat): set<nat> {
    OldTouched(f.data, first, end) + AllocSectors(Allocs(bits, ToAlloc(|f.data|, end)), ninodes) + IndSector(f, end)
  }

  /** Everything writei logs: the blocks, and the inode if the file grows. */
  ghost function WriteSectors(bits: seq<bool>, f: File, size: nat, off: nat, n: nat, i: nat, ninodes: nat): set<nat> {
    if n == 0 then {}
    else BlockSectors(bits, f, off / BSIZE, Blocks(off + n), ninodes) + (if off + n > size then {IBlock(i)} else {})
  }

  // ----- how many they are -----

  lemma UnionCount(a: set<nat>, b: set<nat>)
    ensures |a + b| <= |a| + |b|
  {
    assert a + b == a + (b - a);
    C.Fewer(b - a, b);
  }

  lemma {:induction false} OldTouchedCount(data: seq<nat>, first: nat, end: nat)
    ensures |OldTouched(data, first, end)| <= if first < Min(|data|, end) then Min(|data|, end) - first else 0
    decreases end
  {
    if end <= first || |data| <= first {
      assert OldTouched(data, first, end) == {};
    } else {
      OldTouchedCount(data, first, end - 1);
      var last := if end <= |data| then {data[end - 1]} else {};
      assert OldTouched(data, first, end) == OldTouched(data, first, end - 1) + last;
      UnionCount(OldTouched(data, first, end - 1), last);
    }
  }

  lemma {:induction false} AllocCount(taken: seq<nat>, ninodes: nat)
    ensures |Elems(taken)| <= |taken| && |BitmapOf(taken, ninodes)| <= |taken|
    decreases |taken|
  {
    if taken == [] {
      assert Elems(taken) == {} && BitmapOf(taken, ninodes) == {};
    } else {
      var b, rest := taken[0], taken[1..];
      AllocCount(rest, ninodes);
      ConsElems(b, rest, ninodes);
      assert taken == [b] + rest;
      UnionCount({b}, Elems(rest));
      UnionCount({BBlock(b, ninodes)}, BitmapOf(rest, ninodes));
    }
  }

  lemma ConsElems(b: nat, rest: seq<nat>, ninodes: nat)
    ensures Elems([b] + rest) == {b} + Elems(rest)
    ensures BitmapOf([b] + rest, ninodes) == {BBlock(b, ninodes)} + BitmapOf(rest, ninodes)
  {
    var all := [b] + rest;
    assert all[0] == b && forall k :: 0 <= k < |rest| ==> all[k + 1] == rest[k];
    forall c | c in all ensures c == b || c in rest {
    }
    forall c | c == b || c in rest ensures c in all {
      if c in rest {
        var k :| 0 <= k < |rest| && rest[k] == c;
        assert all[k + 1] == c;
      }
    }
  }

  /** The bitmap sectors of the data area. */
  ghost function DataBitmap(g: Geom): set<nat> {
    set b: nat | g.Lo() <= b < g.Hi() :: BBlock(b, g.ninodes)
  }

  ghost predicate AllInside(taken: seq<nat>, lo: int, hi: int) {
    forall b :: b in taken ==> lo <= b < hi
  }

  lemma FiveUnion(a: set<nat>, b: set<nat>, c: set<nat>, d: set<nat>, e: set<nat>)
    ensures |a + b + c + d + e| <= |a| + |b| + |c| + |d| + |e|
  {
    UnionCount(a, b);
    UnionCount(a + b, c);
    UnionCount(a + b + c, d);
    UnionCount(a + b + c + d, e);
  }

  /** Wherever a chunk starts it touches four blocks at most, and allocates four at most. */
  lemma ChunkFits(off: nat, n: nat, size: nat)
    requires n <= CHUNK && off <= size
    ensures Touched(off, n) <= 4 && ToAlloc(Blocks(size), Blocks(off + n)) <= 4
    ensures n > 0 ==> Touched(off, n) == Blocks(off + n) - off / BSIZE
  {
  }

  /** A chunk logs at most six sectors outside the bitmap, and at most four of the data area's bitmap. */
  lemma ChunkBound(g: Geom, bits: seq<bool>, f: File, size: nat, off: nat, n: nat, i: nat)
    requires |f.data| == Blocks(size) && off <= size && n <= CHUNK
    requires AllInside(Allocs(bits, ToAlloc(|f.data|, Blocks(off + n))), g.Lo(), g.Hi())
    ensures |WriteSectors(bits, f, size, off, n, i, g.ninodes)| <= 6 + Min(|DataBitmap(g)|, 4)
  {
    if n > 0 {
      var first, end, nb := off / BSIZE, Blocks(off + n), |f.data|;
      var taken := Allocs(bits, ToAlloc(nb, end));
      ChunkFits(off, n, size);
      OldTouchedCount(f.data, first, end);
      AllocCount(taken, g.ninodes);
      C.Fewer(BitmapOf(taken, g.ninodes), DataBitmap(g));
      hide OldTouched, Elems, BitmapOf, DataBitmap, Allocs, BBlock;
      var inode := if off + n > size then {IBlock(i)} else {};
      FiveUnion(OldTouched(f.data, first, end), Elems(taken), BitmapOf(taken, g.ninodes), IndSector(f, end), inode);
    }
  }

  // ----- the exact size of log that filewrite needs -----

  /** writei's checks: no gap before off, no wrap-around, no file past MAXFILE blocks. */
  predicate WriteOk(size: nat, off: nat, n: nat) {
    off <= size && off + n < UINT && off + n <= MAXFILE * BSIZE
  }

  /** A chunk that writei accepts, on a file system with room for it. */
  ghost predicate ChunkOk(m: Image, i: nat, off: nat, n: nat) {
    && Consistent(m, {}) && i in m.cache && n <= CHUNK && WriteOk(m.cache[i].size, off, n)
    && HasFree(m.bits, ToAlloc(|m.files[i].data|, Blocks(off + n)), m.g.Hi())
  }

  ghost function ChunkSectors(m: Image, i: nat, off: nat, n: nat): set<nat>
    requires Sized(m) && i in m.cache
  {
    WriteSectors(m.bits, m.files[i], m.cache[i].size, off, n, i, m.g.ninodes)
  }

  /** Allocation stays in the data area as long as that has free blocks. */
  lemma {:induction false} AllocsInside(bits: seq<bool>, n: nat, lo: nat, hi: int)
    requires HasFree(bits, n, hi) && lo <= |bits| && forall b :: 0 <= b < lo ==> bits[b]
    ensures AllInside(Allocs(bits, n), lo, hi)
    decreases n
  {
    if n > 0 {
      HasFreeTail(bits, n, hi);
      var b := ScanFrom(bits, 0).value;
      AllocsInside(bits[b := true], n - 1, lo, hi);
      hide HasFree, Allocs, ScanFrom;
    }
  }

  lemma HasFreeTail(bits: seq<bool>, n: nat, hi: int)
    requires HasFree(bits, n, hi) && n > 0
    ensures ScanFrom(bits, 0).Some?
    ensures var b := ScanFrom(bits, 0).value;
            b < hi && HasFree(bits[b := true], n - 1, hi) && Allocs(bits, n) == [b] + Allocs(bits[b := true], n - 1)
  {
    var b := ScanFrom(bits, 0).value;
    var all, rest := Allocs(bits, n), Allocs(bits[b := true], n - 1);
    assert all == [b] + rest;
    assert all[0] == b && forall k :: 0 <= k < |rest| ==> all[k + 1] == rest[k];
  }

  /** How many sectors log_write accepts before it panics. */
  function Capacity(g: Geom): nat
    requires g.Ok()
  {
    Min(L.LOGSIZE, g.nlog - 1)
  }

  /** A chunk of a file, as system calls can reach one: not inode 0, nor the root directory. */
  ghost predicate FileChunk(m: Image, i: nat, off: nat, n: nat) {
    ChunkOk(m, i, off, n) && i > ROOTINO && m.cache[i].typ == T_FILE
  }

  /** Every chunk of every file, on every image with a log of nlog blocks and at most w bitmap sectors in the data
      area, logs at most the sectors the log holds. */
  ghost predicate EveryChunkFits(w: nat, nlog: nat) {
    forall m: Image, i: nat, off: nat, n: nat {:trigger ChunkSectors(m, i, off, n)} ::
      FileChunk(m, i, off, n) && m.g.nlog == nlog && |DataBitmap(m.g)| <= w ==>
        |ChunkSectors(m, i, off, n)| <= Capacity(m.g)
  }

  lemma ChunkOfImage(m: Image, i: nat, off: nat, n: nat)
    requires ChunkOk(m, i, off, n)
    ensures |ChunkSectors(m, i, off, n)| <= 6 + Min(|DataBitmap(m.g)|, 4)
  {
    assert AtRest(m.dinode, m.cache, m.files, i);
    AllocsInside(m.bits, ToAlloc(|m.files[i].data|, Blocks(off + n)), m.g.Lo(), m.g.Hi());
    ChunkBound(m.g, m.bits, m.files[i], m.cache[i].size, off, n, i);
  }

  /** An image of at most BPB blocks has one bitmap sector. */
  lemma OneBitmapSector(g: Geom)
    requires g.size <= BPB && g.nlog <= g.size
    ensures |DataBitmap(g)| <= 1
  {
    var s := g.ninodes / IPB + 3;
    forall x | x in DataBitmap(g) ensures x == s {
    }
    C.Fewer(DataBitmap(g), {s});
  }
}
