/** The buffer cache of src/bio.c over the memory disk of src/memide.c.

    Buffers are numbered; number HEAD is the ring's list head.  The ghost field `logical` is the disk
    the file system believes in: dirty buffers laid over the sectors. */
module Bio {
  import opened Params
  import opened Wrappers
  import opened DList
  import opened LogDisk

  const HEAD := 10
  const NODEV := -1
  const ROOTDEV := 1

  datatype Buf = Buf(busy: bool, valid: bool, dirty: bool, dev: int, sector: nat, data: Block)

  /** How one pass of bget under the cache lock ends. */
  datatype Grab = Got(i: nat) | MustWait(i: nat) | NoBuffers

  // ----- the ring -----

  /** Following next from the head visits every buffer once, most recently released first; prev goes
      the other way round. */
  ghost predicate Ring(prev: seq<nat>, next: seq<nat>, order: seq<nat>) {
    && |prev| == NBUF + 1 && |next| == NBUF + 1
    && Linked(prev[..NBUF], next[..NBUF], next[HEAD], order, HEAD)
    && prev[HEAD] == (if order == [] then HEAD else order[|order| - 1])
  }

  ghost predicate HoldsAll(order: seq<nat>) {
    |order| == NBUF && forall i :: 0 <= i < NBUF ==> i in order
  }

  /** Unlink b, then insert it after the head, as the six assignments of brelse do. */
  function FrontPrev(prev: seq<nat>, next: seq<nat>, b: nat): (r: seq<nat>)
    requires |prev| == |next| == NBUF + 1 && b < NBUF && prev[b] <= HEAD && next[b] <= HEAD && next[HEAD] <= HEAD
    ensures |r| == NBUF + 1
  {
    var prev1 := prev[next[b] := prev[b]];
    var next1 := next[prev[b] := next[b]];
    prev1[b := HEAD][next1[HEAD] := b]
  }

  function FrontNext(prev: seq<nat>, next: seq<nat>, b: nat): (r: seq<nat>)
    requires |prev| == |next| == NBUF + 1 && b < NBUF && prev[b] <= HEAD && next[b] <= HEAD
    ensures |r| == NBUF + 1
  {
    var next1 := next[prev[b] := next[b]];
    next1[b := next1[HEAD]][HEAD := b]
  }

  lemma RingLinks(prev: seq<nat>, next: seq<nat>, order: seq<nat>, j: nat)
    requires Ring(prev, next, order) && j < |order|
    ensures order[j] < NBUF
    ensures prev[order[j]] == Before(order, j, HEAD) && next[order[j]] == After(order, j, HEAD)
    ensures prev[order[j]] <= HEAD && next[order[j]] <= HEAD && next[HEAD] <= HEAD
    ensures next[HEAD] == order[0]
  {
    assert prev[..NBUF][order[j]] == Before(order, j, HEAD);
    assert next[..NBUF][order[j]] == After(order, j, HEAD);
  }

  lemma RingEnd(prev: seq<nat>, next: seq<nat>, order: seq<nat>)
    requires Ring(prev, next, order)
    ensures prev[HEAD] == (if order == [] then HEAD else order[|order| - 1])
    ensures Distinct(order) && forall j :: 0 <= j < |order| ==> order[j] < NBUF
  {
  }

  lemma MoveToFront(prev: seq<nat>, next: seq<nat>, order: seq<nat>, j: nat)
    requires Ring(prev, next, order) && j < |order|
    ensures order[j] < NBUF && prev[order[j]] <= HEAD && next[order[j]] <= HEAD && next[HEAD] <= HEAD
    ensures Ring(FrontPrev(prev, next, order[j]), FrontNext(prev, next, order[j]), [order[j]] + Removed(order, j))
  {
    var b, p, n := order[j], Before(order, j, HEAD), After(order, j, HEAD);
    RingLinks(prev, next, order, j);
    RemovedLinked(prev[..NBUF], next[..NBUF], next[HEAD], order, HEAD, j);
    RemovedMembers(order, j, b);
    var first := if j == 0 then n else next[HEAD];
    var pre1, next1 := RemovedPre(prev[..NBUF], b, p, n, HEAD), RemovedNext(next[..NBUF], b, p, n, HEAD);
    PushedLinked(pre1, next1, first, Removed(order, j), HEAD, b);
    assert FrontPrev(prev, next, b)[..NBUF] == PushedPre(pre1, first, HEAD, b);
    assert FrontNext(prev, next, b)[..NBUF] == next1[b := first];
    FrontOfHead(prev, next, order, j);
  }

  lemma FrontOfHead(prev: seq<nat>, next: seq<nat>, order: seq<nat>, j: nat)
    requires Ring(prev, next, order) && j < |order|
    requires order[j] < NBUF && prev[order[j]] <= HEAD && next[order[j]] <= HEAD && next[HEAD] <= HEAD
    ensures FrontNext(prev, next, order[j])[HEAD] == order[j]
    ensures var l := [order[j]] + Removed(order, j); FrontPrev(prev, next, order[j])[HEAD] == l[|l| - 1]
  {
    RingLinks(prev, next, order, j);
    if |order| > 1 { RingLinks(prev, next, order, 0); }
  }

  lemma PushRing(prev: seq<nat>, next: seq<nat>, order: seq<nat>, b: nat)
    requires Ring(prev, next, order) && b < NBUF && b !in order
    ensures next[HEAD] <= HEAD
    ensures Ring(prev[b := HEAD][next[HEAD] := b], next[b := next[HEAD]][HEAD := b], [b] + order)
  {
    var first := next[HEAD];
    HeadOf(prev[..NBUF], next[..NBUF], first, order, HEAD);
    PushedLinked(prev[..NBUF], next[..NBUF], first, order, HEAD, b);
    var prev', next' := prev[b := HEAD][first := b], next[b := first][HEAD := b];
    assert prev'[..NBUF] == PushedPre(prev[..NBUF], first, HEAD, b);
    assert next'[..NBUF] == next[..NBUF][b := first];
  }

  lemma {:induction false} FrontHoldsAll(order: seq<nat>, j: nat)
    requires HoldsAll(order) && Distinct(order) && j < |order|
    ensures HoldsAll([order[j]] + Removed(order, j))
  {
    forall i | 0 <= i < NBUF
      ensures i in [order[j]] + Removed(order, j)
    {
      RemovedMembers(order, j, i);
    }
  }

  /** i is idle and clean, and every buffer released before it is not. */
  ghost predicate LastSpare(bufs: seq<Buf>, order: seq<nat>, i: nat)
    requires |bufs| == NBUF && forall j :: 0 <= j < |order| ==> order[j] < NBUF
  {
    exists j :: 0 <= j < |order| && order[j] == i && !bufs[i].busy && !bufs[i].dirty &&
      forall q :: j < q < |order| ==> bufs[order[q]].busy || bufs[order[q]].dirty
  }

  lemma PlaceOf(order: seq<nat>, q: nat) returns (p: nat)
    requires HoldsAll(order) && q < NBUF
    ensures p < |order| && order[p] == q
  {
    assert q in order;
    p :| 0 <= p < |order| && order[p] == q;
  }

  // ----- contents -----

  predicate Matches(b: Buf, dev: int, sector: nat) { b.dev == dev && b.sector == sector }

  /** At most one buffer per real (dev, sector). */
  ghost predicate Unique(bufs: seq<Buf>) {
    forall i, j :: 0 <= i < j < |bufs| && bufs[i].dev == bufs[j].dev && bufs[i].sector == bufs[j].sector ==>
      bufs[i].dev == NODEV
  }

  /** Valid buffers are copies of disk sectors; dirty ones are valid; idle clean ones are up to date. */
  ghost predicate Coherent(bufs: seq<Buf>, disk: Disk) {
    forall i :: 0 <= i < |bufs| ==>
      && (bufs[i].valid ==> bufs[i].dev == ROOTDEV && bufs[i].sector < |disk|)
      && (bufs[i].dirty ==> bufs[i].valid)
      && (bufs[i].valid && !bufs[i].busy && !bufs[i].dirty ==> bufs[i].data == disk[bufs[i].sector])
  }

  ghost predicate DirtyAt(bufs: seq<Buf>, s: int) {
    exists i :: 0 <= i < |bufs| && bufs[i].dirty && bufs[i].sector == s
  }

  /** The logical disk: dirty buffers laid over the sectors. */
  ghost predicate IsLogical(bufs: seq<Buf>, disk: Disk, logical: Disk) {
    && |logical| == |disk|
    && (forall i :: 0 <= i < |bufs| && bufs[i].dirty && bufs[i].sector < |disk| ==>
          logical[bufs[i].sector] == bufs[i].data)
    && (forall s :: 0 <= s < |disk| && !DirtyAt(bufs, s) ==> logical[s] == disk[s])
  }

  /** There is only one logical disk. */
  lemma LogicalIsUnique(bufs: seq<Buf>, disk: Disk, l: Disk, l': Disk)
    requires IsLogical(bufs, disk, l) && IsLogical(bufs, disk, l')
    ensures l == l'
  {
    forall s | 0 <= s < |disk|
      ensures l[s] == l'[s]
    {
      if DirtyAt(bufs, s) {
        var i :| 0 <= i < |bufs| && bufs[i].dirty && bufs[i].sector == s;
      }
    }
  }

  ghost predicate CacheOk(bufs: seq<Buf>, disk: Disk, logical: Disk) {
    |bufs| == NBUF && Unique(bufs) && Coherent(bufs, disk) && IsLogical(bufs, disk, logical)
  }

  lemma CacheShape(bufs: seq<Buf>, disk: Disk, logical: Disk)
    requires CacheOk(bufs, disk, logical)
    ensures |bufs| == NBUF && |logical| == |disk|
    ensures forall i :: 0 <= i < NBUF && bufs[i].valid ==> bufs[i].dev == ROOTDEV && bufs[i].sector < |disk|
    ensures forall i :: 0 <= i < NBUF && bufs[i].dirty ==> bufs[i].valid
  {
  }

  lemma DirtyAfterUpdate(bufs: seq<Buf>, i: nat, b: Buf)
    requires i < |bufs|
    ensures forall s :: DirtyAt(bufs, s) && !(bufs[i].dirty && bufs[i].sector == s) ==> DirtyAt(bufs[i := b], s)
    ensures b.dirty ==> DirtyAt(bufs[i := b], b.sector)
  {
    var bufs' := bufs[i := b];
    forall s | DirtyAt(bufs, s) && !(bufs[i].dirty && bufs[i].sector == s)
      ensures DirtyAt(bufs', s)
    {
      var j :| 0 <= j < |bufs| && bufs[j].dirty && bufs[j].sector == s;
      assert bufs'[j].dirty && bufs'[j].sector == s;
    }
    assert bufs'[i] == b;
  }

  /** A change to one buffer that is not dirty before or after leaves the logical disk alone. */
  lemma CleanUpdate(bufs: seq<Buf>, disk: Disk, logical: Disk, i: nat, b: Buf)
    requires CacheOk(bufs, disk, logical) && i < NBUF && !bufs[i].dirty && !b.dirty
    requires b.dev == NODEV || forall j :: 0 <= j < NBUF && j != i ==> !Matches(bufs[j], b.dev, b.sector)
    requires b.valid ==> b.dev == ROOTDEV && b.sector < |disk| && (b.busy || b.data == disk[b.sector])
    ensures CacheOk(bufs[i := b], disk, logical)
  {
    DirtyAfterUpdate(bufs, i, b);
  }

  lemma FillUpdate(bufs: seq<Buf>, disk: Disk, logical: Disk, i: nat)
    requires CacheOk(bufs, disk, logical) && i < NBUF && bufs[i].busy && !bufs[i].valid
    requires bufs[i].dev == ROOTDEV && bufs[i].sector < |disk|
    ensures !bufs[i].dirty
    ensures CacheOk(bufs[i := bufs[i].(data := disk[bufs[i].sector], valid := true)], disk, logical)
  {
    CleanUpdate(bufs, disk, logical, i, bufs[i].(data := disk[bufs[i].sector], valid := true));
  }

  /** A buffer that is valid when grabbed holds the logical contents of its sector. */
  lemma GotFacts(bufs: seq<Buf>, disk: Disk, logical: Disk, i: nat, dev: int, sector: nat)
    requires CacheOk(bufs, disk, logical) && i < NBUF && !bufs[i].busy && dev == ROOTDEV && sector < |disk|
    requires || Matches(bufs[i], dev, sector)
             || (!bufs[i].dirty && forall j :: 0 <= j < NBUF ==> !Matches(bufs[j], dev, sector))
    ensures DirtyAt(bufs, sector) <==> Matches(bufs[i], dev, sector) && bufs[i].dirty
    ensures Matches(bufs[i], dev, sector) && bufs[i].valid ==> bufs[i].data == logical[sector]
    ensures !(Matches(bufs[i], dev, sector) && bufs[i].dirty) ==> logical[sector] == disk[sector]
    ensures bufs[i].dirty ==> bufs[i].valid
  {
    if DirtyAt(bufs, sector) {
      var j :| 0 <= j < |bufs| && bufs[j].dirty && bufs[j].sector == sector;
      assert Matches(bufs[j], dev, sector);
    }
  }

  lemma GrabKeepsDirty(bufs: seq<Buf>, bufs': seq<Buf>, i: nat)
    requires |bufs| == |bufs'| && i < |bufs|
    requires forall j :: 0 <= j < |bufs| && j != i ==> bufs'[j] == bufs[j]
    requires bufs[i].dirty == bufs'[i].dirty && (bufs[i].dirty ==> bufs[i].sector == bufs'[i].sector)
    ensures forall s :: DirtyAt(bufs, s) <==> DirtyAt(bufs', s)
  {
    DirtyAfterUpdate(bufs, i, bufs'[i]);
    DirtyAfterUpdate(bufs', i, bufs[i]);
    assert bufs[i := bufs'[i]] == bufs' && bufs'[i := bufs[i]] == bufs;
  }

  /** Toggling busy on a buffer that is dirty or up to date. */
  lemma BusyUpdate(bufs: seq<Buf>, disk: Disk, logical: Disk, i: nat, busy: bool)
    requires CacheOk(bufs, disk, logical) && i < NBUF
    requires busy || bufs[i].dirty || !bufs[i].valid || bufs[i].data == disk[bufs[i].sector]
    ensures CacheOk(bufs[i := bufs[i].(busy := busy)], disk, logical)
  {
    var bufs' := bufs[i := bufs[i].(busy := busy)];
    SameDirty(bufs, bufs');
  }

  lemma StoreUpdate(bufs: seq<Buf>, disk: Disk, logical: Disk, i: nat, data: Block)
    requires CacheOk(bufs, disk, logical) && i < NBUF && bufs[i].busy && bufs[i].valid
    ensures bufs[i].sector < |disk|
    ensures CacheOk(bufs[i := bufs[i].(data := data)], disk,
                    if bufs[i].dirty then logical[bufs[i].sector := data] else logical)
  {
    if bufs[i].dirty {
      DirtyUpdate(bufs, disk, logical, i, data);
      assert bufs[i].(data := data, dirty := true) == bufs[i].(data := data);
    } else {
      CleanUpdate(bufs, disk, logical, i, bufs[i].(data := data));
    }
  }

  lemma SameDirty(bufs: seq<Buf>, bufs': seq<Buf>)
    requires |bufs| == |bufs'|
    requires forall i :: 0 <= i < |bufs| ==> bufs[i].dirty == bufs'[i].dirty && bufs[i].sector == bufs'[i].sector
    ensures forall s :: DirtyAt(bufs, s) <==> DirtyAt(bufs', s)
  {
    forall s
      ensures DirtyAt(bufs, s) <==> DirtyAt(bufs', s)
    {
      if DirtyAt(bufs, s) { var i :| 0 <= i < |bufs| && bufs[i].dirty && bufs[i].sector == s; assert bufs'[i].dirty; }
      if DirtyAt(bufs', s) { var i :| 0 <= i < |bufs| && bufs'[i].dirty && bufs'[i].sector == s; assert bufs[i].dirty; }
    }
  }

  /** A held buffer gets contents of its own and is marked dirty: one sector of the logical disk
      changes. */
  lemma DirtyUpdate(bufs: seq<Buf>, disk: Disk, logical: Disk, i: nat, data: Block)
    requires CacheOk(bufs, disk, logical) && i < NBUF && bufs[i].valid
    ensures CacheOk(bufs[i := bufs[i].(data := data, dirty := true)], disk, logical[bufs[i].sector := data])
  {
    DirtyAfterUpdate(bufs, i, bufs[i].(data := data, dirty := true));
  }

  /** A buffer is written through: its sector and the logical disk hold its data, and it is clean. */
  lemma WriteThrough(bufs: seq<Buf>, disk: Disk, logical: Disk, i: nat)
    requires CacheOk(bufs, disk, logical) && i < NBUF && bufs[i].dev == ROOTDEV && bufs[i].sector < |disk|
    ensures CacheOk(bufs[i := bufs[i].(dirty := false, valid := true)],
                    disk[bufs[i].sector := bufs[i].data], logical[bufs[i].sector := bufs[i].data])
  {
    DirtyAfterUpdate(bufs, i, bufs[i].(dirty := false, valid := true));
  }

  class Bcache {
    var disk: Disk
    var bufs: seq<Buf>
    var prev: seq<nat>
    var next: seq<nat>

    ghost var order: seq<nat>      // the ring from head.next on
    ghost var logical: Disk
    ghost var writes: seq<Write>   // every sector write so far

    ghost predicate Valid()
      reads this
    {
      CacheOk(bufs, disk, logical) && Ring(prev, next, order) && HoldsAll(order)
    }

    /** binit on a disk image: an empty cache. */
    constructor (image: Disk)
      ensures Valid() && disk == image && logical == image && writes == []
      ensures forall i :: 0 <= i < NBUF ==> !bufs[i].busy && !bufs[i].valid && !bufs[i].dirty
    {
      disk, logical, writes := image, image, [];
      bufs := seq(NBUF, i => Buf(false, false, false, NODEV, 0, seq(WORDS, j => 0)));
      prev, next := seq(NBUF + 1, i => HEAD), seq(NBUF + 1, i => HEAD);
      order := [];
      new;
      assert Linked(prev[..NBUF], next[..NBUF], next[HEAD], [], HEAD);
      var b := 0;
      while b < NBUF
        invariant 0 <= b <= NBUF
        invariant Ring(prev, next, order) && |order| == b
        invariant forall i :: 0 <= i < b ==> i in order
        invariant forall i :: b <= i < NBUF ==> i !in order
        modifies this`prev, this`next, this`order
      {
        PushRing(prev, next, order, b);
        next := next[b := next[HEAD]];
        prev := prev[b := HEAD];
        prev := prev[next[HEAD] := b];
        next := next[HEAD := b];
        order := [b] + order;
        b := b + 1;
      }
    }

    /** One pass of bget under the cache lock: reuse the buffer that holds the sector if it is idle,
        wait for it if it is not, else recycle the least recently released idle clean buffer. */
    method Bget(dev: int, sector: nat) returns (g: Grab)
      requires Valid() && dev != NODEV
      modifies this`bufs
      ensures Valid()
      ensures match g
              case Got(i) =>
                && i < NBUF && !old(bufs[i].busy)
                && if Matches(old(bufs[i]), dev, sector)
                   then bufs == old(bufs)[i := old(bufs[i]).(busy := true)]
                   else
                     && (forall j :: 0 <= j < NBUF ==> !Matches(old(bufs[j]), dev, sector))
                     && LastSpare(old(bufs), order, i)
                     && bufs == old(bufs)[i := Buf(true, false, false, dev, sector, old(bufs[i]).data)]
              case MustWait(i) =>
                i < NBUF && Matches(bufs[i], dev, sector) && bufs[i].busy && bufs == old(bufs)
              case NoBuffers =>
                && bufs == old(bufs)
                && forall j :: 0 <= j < NBUF ==> !Matches(bufs[j], dev, sector) && (bufs[j].busy || bufs[j].dirty)
    {
      hide Ring, CacheOk;
      CacheShape(bufs, disk, logical);
      var found := FindCached(dev, sector);
      if found.Some? {
        var b := found.value;
        if !bufs[b].busy {
          BusyUpdate(bufs, disk, logical, b, true);
          bufs := bufs[b := bufs[b].(busy := true)];
          return Got(b);
        }
        return MustWait(b);
      }
      var spare := FindSpare();
      if spare.Some? {
        var b := spare.value;
        CleanUpdate(bufs, disk, logical, b, Buf(true, false, false, dev, sector, bufs[b].data));
        bufs := bufs[b := Buf(true, false, false, dev, sector, bufs[b].data)];
        return Got(b);
      }
      return NoBuffers;
    }

    /** bget's first loop: forward round the ring, is the sector cached? */
    method FindCached(dev: int, sector: nat) returns (r: Option<nat>)
      requires Valid()
      ensures r.Some? ==> r.value < NBUF && Matches(bufs[r.value], dev, sector)
      ensures r.None? ==> forall q :: 0 <= q < NBUF ==> !Matches(bufs[q], dev, sector)
    {
      hide Linked, CacheOk;
      CacheShape(bufs, disk, logical);
      var b := next[HEAD];
      ghost var j := 0;
      RingLinks(prev, next, order, 0);
      RingEnd(prev, next, order);
      while b != HEAD
        invariant 0 <= j <= NBUF && b == if j < NBUF then order[j] else HEAD
        invariant forall q :: 0 <= q < j ==> !Matches(bufs[order[q]], dev, sector)
        decreases NBUF - j
      {
        RingLinks(prev, next, order, j);
        if Matches(bufs[b], dev, sector) {
          return Some(b);
        }
        b := next[b];
        j := j + 1;
      }
      forall q | 0 <= q < NBUF
        ensures !Matches(bufs[q], dev, sector)
      {
        var p := PlaceOf(order, q);
      }
      return None;
    }

    /** bget's second loop: backward round the ring for an idle clean buffer to recycle. */
    method FindSpare() returns (r: Option<nat>)
      requires Valid()
      ensures r.Some? ==> r.value < NBUF && LastSpare(bufs, order, r.value)
      ensures r.None? ==> forall q :: 0 <= q < NBUF ==> bufs[q].busy || bufs[q].dirty
    {
      hide Linked, CacheOk;
      CacheShape(bufs, disk, logical);
      var b := prev[HEAD];
      ghost var j := NBUF;
      RingEnd(prev, next, order);
      while b != HEAD
        invariant 0 <= j <= NBUF && b == if j > 0 then order[j - 1] else HEAD
        invariant forall q :: j <= q < NBUF ==> bufs[order[q]].busy || bufs[order[q]].dirty
        decreases j
      {
        RingLinks(prev, next, order, j - 1);
        if !bufs[b].busy && !bufs[b].dirty {
          return Some(b);
        }
        b := prev[b];
        j := j - 1;
      }
      forall q | 0 <= q < NBUF
        ensures bufs[q].busy || bufs[q].dirty
      {
        var p := PlaceOf(order, q);
      }
      return None;
    }

    /** iderw: write a dirty buffer to its sector, or fill an invalid one from it. */
    method Iderw(i: nat)
      requires Valid() && i < NBUF && bufs[i].busy && !(bufs[i].valid && !bufs[i].dirty)
      requires bufs[i].dev == ROOTDEV && bufs[i].sector < |disk|
      modifies this`bufs, this`disk, this`logical, this`writes
      ensures Valid()
      ensures bufs == old(bufs)[i := old(bufs[i]).(dirty := false, valid := true, data := bufs[i].data)]
      ensures var s := bufs[i].sector;
              if old(bufs[i].dirty)
              then
                && bufs[i].data == old(bufs[i].data)
                && disk == old(disk)[s := bufs[i].data] && logical == old(logical)[s := bufs[i].data]
                && writes == old(writes) + [Write(s, bufs[i].data)]
              else
                && bufs[i].data == disk[s] && disk == old(disk) && logical == old(logical) && writes == old(writes)
    {
      hide Ring, CacheOk;
      CacheShape(bufs, disk, logical);
      var b := bufs[i];
      if b.dirty {
        WriteThrough(bufs, disk, logical, i);
        disk := disk[b.sector := b.data];
        logical := logical[b.sector := b.data];
        writes := writes + [Write(b.sector, b.data)];
        bufs := bufs[i := b.(dirty := false, valid := true)];
      } else {
        FillUpdate(bufs, disk, logical, i);
        bufs := bufs[i := b.(data := disk[b.sector], valid := true)];
      }
    }

    /** bread: hand out the sector's buffer, busy, holding the logical contents of the sector.  The
        logical disk, the physical disk and every other buffer but a recycled one stay as they are. */
    method Bread(dev: int, sector: nat) returns (i: nat)
      requires Valid() && dev == ROOTDEV && sector < |disk|
      requires forall j :: 0 <= j < NBUF && Matches(bufs[j], dev, sector) ==> !bufs[j].busy
      requires exists j :: 0 <= j < NBUF && !bufs[j].busy && (!bufs[j].dirty || Matches(bufs[j], dev, sector))
      modifies this`bufs, this`disk, this`logical, this`writes
      ensures Valid() && disk == old(disk) && logical == old(logical) && writes == old(writes)
      ensures i < NBUF && Matches(bufs[i], dev, sector) && bufs[i].busy && bufs[i].valid && !old(bufs[i].busy)
      ensures bufs[i].data == logical[sector]
      ensures (bufs[i].dirty <==> DirtyAt(old(bufs), sector))
              && (old(bufs[i].dirty) ==> Matches(old(bufs[i]), dev, sector))
      ensures |bufs| == NBUF && forall j :: 0 <= j < NBUF && j != i ==> bufs[j] == old(bufs[j])
      ensures forall s :: DirtyAt(bufs, s) <==> DirtyAt(old(bufs), s)
    {
      hide Ring, CacheOk;
      CacheShape(bufs, disk, logical);
      ghost var bufs0 := bufs;
      var g := Bget(dev, sector);
      match g
      case Got(b) =>
        i := b;
        CacheShape(bufs, disk, logical);
        GotFacts(bufs0, disk, logical, i, dev, sector);
        if !bufs[i].valid {
          Iderw(i);
        }
        GrabKeepsDirty(bufs0, bufs, i);
      case MustWait(b) => assert false;
      case NoBuffers => assert false;   // "bget: no buffers"
    }

    /** The holder of a buffer stores into b->data. */
    method Store(i: nat, data: Block)
      requires Valid() && i < NBUF && bufs[i].busy && bufs[i].valid
      modifies this`bufs, this`logical
      ensures Valid() && bufs == old(bufs)[i := old(bufs[i]).(data := data)]
      ensures logical == if bufs[i].dirty then old(logical)[bufs[i].sector := data] else old(logical)
    {
      hide Ring, CacheOk;
      CacheShape(bufs, disk, logical);
      StoreUpdate(bufs, disk, logical, i, data);
      if bufs[i].dirty {
        logical := logical[bufs[i].sector := data];
      }
      bufs := bufs[i := bufs[i].(data := data)];
    }

    /** log_write's last step: pin a held buffer. */
    method MarkDirty(i: nat)
      requires Valid() && i < NBUF && bufs[i].busy && bufs[i].valid
      modifies this`bufs, this`logical
      ensures Valid() && bufs == old(bufs)[i := old(bufs[i]).(dirty := true)]
      ensures bufs[i].sector < |logical| && logical == old(logical)[bufs[i].sector := bufs[i].data]
    {
      hide Ring, CacheOk;
      CacheShape(bufs, disk, logical);
      DirtyUpdate(bufs, disk, logical, i, bufs[i].data);
      logical := logical[bufs[i].sector := bufs[i].data];
      assert bufs[i].(data := bufs[i].data, dirty := true) == bufs[i].(dirty := true);
      bufs := bufs[i := bufs[i].(dirty := true)];
    }

    /** bwrite: the held buffer's data becomes the contents of its sector, physically and logically. */
    method Bwrite(i: nat)
      requires Valid() && i < NBUF && bufs[i].busy && bufs[i].valid
      modifies this`bufs, this`disk, this`logical, this`writes
      ensures Valid() && bufs == old(bufs)[i := old(bufs[i]).(dirty := false)]
      ensures var s := bufs[i].sector;
              && s < |old(disk)| && s < |old(logical)|
              && disk == old(disk)[s := bufs[i].data] && logical == old(logical)[s := bufs[i].data]
              && writes == old(writes) + [Write(s, bufs[i].data)]
    {
      MarkDirty(i);
      Iderw(i);
      assert logical == old(logical)[bufs[i].sector := bufs[i].data];
    }

    /** Store new data into a held buffer and write it. */
    method Overwrite(i: nat, data: Block)
      requires Valid() && i < NBUF && bufs[i].busy && bufs[i].valid
      modifies this`bufs, this`disk, this`logical, this`writes
      ensures Valid() && bufs == old(bufs)[i := old(bufs[i]).(data := data, dirty := false)]
      ensures var s := bufs[i].sector;
              && s < |old(disk)| && s < |old(logical)|
              && disk == old(disk)[s := data] && logical == old(logical)[s := data]
              && writes == old(writes) + [Write(s, data)]
    {
      Store(i, data);
      Bwrite(i);
    }

    /** brelse: the buffer moves to the front of the ring and is idle again.  A buffer whose data differs
        from its sector must be dirty, or it would be lost. */
    method Brelse(i: nat)
      requires Valid() && i < NBUF && bufs[i].busy && bufs[i].valid
      requires bufs[i].dirty || bufs[i].data == disk[bufs[i].sector]
      modifies this`bufs, this`prev, this`next, this`order
      ensures Valid() && bufs == old(bufs)[i := old(bufs[i]).(busy := false)]
      ensures exists j :: 0 <= j < |old(order)| && old(order)[j] == i && order == [i] + Removed(old(order), j)
    {
      hide CacheOk, Linked;
      CacheShape(bufs, disk, logical);
      ghost var j := PlaceOf(order, i);
      ghost var prev0, next0 := prev, next;
      MoveToFront(prev, next, order, j);
      RingEnd(prev, next, order);
      RingLinks(prev, next, order, j);
      FrontHoldsAll(order, j);
      prev := prev[next[i] := prev[i]];
      next := next[prev[i] := next[i]];
      next := next[i := next[HEAD]];
      prev := prev[i := HEAD];
      prev := prev[next[HEAD] := i];
      next := next[HEAD := i];
      assert prev == FrontPrev(prev0, next0, i) && next == FrontNext(prev0, next0, i);
      order := [i] + Removed(order, j);
      BusyUpdate(bufs, disk, logical, i, false);
      bufs := bufs[i := bufs[i].(busy := false)];
    }
  }
}
