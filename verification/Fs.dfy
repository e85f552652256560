/**
 * The block and inode layers (src/fs.c) over the logical disk that the buffer cache and the log present.
 * Everything on the disk changes through three steps, each followed by the log_write that the code makes; the
 * transaction they add up to is kept, so that what is logged, and whether it fits, is part of every contract.
 */
module Fs {
  import opened Params
  import opened Wrappers
  import opened FsLayout
  import opened FsDisk
  import opened FsBudget
  import opened FsWrite
  import opened FsCrash
  import opened FsFree
  import opened BufTrace
  import L = LogDisk
  import C = LogCrash

  class FileSystem {
    const g: Geom                   // superblock
    var bits: seq<bool>             // the free bitmap
    var blk: seq<Block>             // contents of every block
    var dinode: seq<Dinode>         // inodes on disk
    var cache: map<nat, Dinode>     // valid in-memory inodes, by inode number

    ghost var files: seq<File>
    ghost var own: map<nat, Owner>
    ghost var disk0: L.Disk         // the disk when the transaction began
    ghost var txn: C.Txn            // its log_writes since
    ghost var steps: Trace          // and all it has asked of the buffer cache
    ghost var held: set<nat>        // the sectors whose buffers it holds

    ghost function Img(): Image
      reads this
    {
      Image(g, bits, blk, dinode, cache, files, own)
    }

    ghost function Now(): Snap
      reads this
    {
      Snap(files, own, cache, blk)
    }

    /** The sectors logged by the current transaction. */
    ghost function Logged(): set<nat>
      reads this
    {
      C.SectorsOf(txn)
    }

    /** The disk with the transaction applied is the file system as it is now. */
    ghost predicate Synced()
      reads this
    {
      Reaches(disk0, txn, g, bits, blk, dinode) && Tracked(steps, txn, held)
    }

    /** Between two steps, perhaps with the buffers of some blocks in use held. */
    ghost predicate Ready()
      reads this
    {
      Sized(Img()) && Synced() && forall s :: s in held ==> g.Lo() <= s < g.size && bits[s]
    }

    /** While asking for a buffer nothing is held but what will be logged, and the log area is not read. */
    ghost predicate Tidy()
      reads this
    {
      Tame(steps, g.Hi())
    }

    /** Every block accounted for, every inode's map right, every change logged; inodes outside ex are at rest. */
    ghost predicate Base(ex: set<nat>)
      reads this
    {
      Consistent(Img(), ex) && Synced() && held == {}
    }

    ghost predicate Valid()
      reads this
    {
      Base({})
    }

    /** The image mkfs starts from, without files: the bits of the log's blocks are clear. */
    constructor (g: Geom)
      requires g.Ok()
      ensures Valid() && txn == [] && steps == [] && cache == map[] && this.g == g
      ensures |bits| == g.size && forall b :: 0 <= b < g.size ==> (bits[b] <==> b < g.Lo())
      ensures |dinode| == g.ninodes && forall i :: 0 <= i < g.ninodes ==> dinode[i].typ == 0
    {
      this.g := g;
      bits := seq(g.size, b => b < g.Lo());
      blk := seq(g.size, _ => ZeroBlock());
      dinode := seq(g.ninodes, _ => Dinode(0, 0, 0, 0, 0, NoAddrs()));
      cache, txn, own := map[], [], map[];
      steps, held := [], {};
      files := seq(g.ninodes, _ => File([], 0));
      new;
      disk0 := Encode(g, bits, blk, dinode);
      L.AppliedNil(disk0);
    }

    // ----- the steps that change the disk, with their log_writes -----

    /** log_write of a buffer read for it, and then released. */
    ghost method LogWrite(s: nat)
      requires s < g.size == |disk0| && L.InRange(disk0, txn) && Tracked(steps, txn, held) && s !in held
      requires forall t: nat :: t < g.size - g.nlog && t != s ==>
                 L.Applied(disk0, txn)[t] == SectorOf(g, bits, blk, dinode, t)
      modifies this`txn, this`steps
      ensures Synced() && txn == old(txn) + [L.Write(s, SectorOf(g, bits, blk, dinode, s))]
      ensures Logged() == old(Logged()) + {s} && (old(Tidy()) && s < g.Hi() ==> Tidy())
    {
      hide L.Applied, SectorOf, C.SectorsOf, Tracked, Tame;
      var w := L.Write(s, SectorOf(g, bits, blk, dinode, s));
      L.AppliedLast(disk0, txn, w);
      C.SectorsSnoc(txn, w);
      Changed(steps, txn, held, w, g.Hi());
      txn, steps := txn + [w], steps + Change(w);
    }

    /** log_write of a buffer that stays held. */
    ghost method LogHeld(s: nat)
      requires s < g.size == |disk0| && L.InRange(disk0, txn) && Tracked(steps, txn, held) && s in held
      requires forall t: nat :: t < g.size - g.nlog && t != s ==>
                 L.Applied(disk0, txn)[t] == SectorOf(g, bits, blk, dinode, t)
      modifies this`txn, this`steps
      ensures Synced() && txn == old(txn) + [L.Write(s, SectorOf(g, bits, blk, dinode, s))]
      ensures Logged() == old(Logged()) + {s} && (old(Tidy()) ==> Tidy())
    {
      hide L.Applied, SectorOf, C.SectorsOf, Tracked, Tame;
      var w := L.Write(s, SectorOf(g, bits, blk, dinode, s));
      L.AppliedLast(disk0, txn, w);
      C.SectorsSnoc(txn, w);
      Noted(steps, txn, held, w, g.Hi());
      txn, steps := txn + [w], steps + [Put(w)];
    }

    /** Sectors that are only read, one after the other. */
    ghost method LookAt(ss: seq<nat>)
      requires Synced() && forall k :: 0 <= k < |ss| ==> ss[k] !in held && ss[k] < g.Hi()
      modifies this`steps
      ensures Synced() && (old(Tidy()) ==> Tidy())
    {
      hide Reaches, Tracked, Tame;
      PeekedAll(steps, txn, held, ss, g.Hi());
      steps := steps + PeekAll(ss);
    }

    /** bread of a block that is held for a while. */
    ghost method Hold(b: nat)
      requires Synced() && b !in held
      modifies this`steps, this`held
      ensures Synced() && held == old(held) + {b} && (old(Tidy()) && b < g.Hi() ==> Tidy())
    {
      hide Reaches, Tracked, Tame;
      Fetched(steps, txn, held, b, g.Hi());
      steps, held := steps + [Fetch(b)], held + {b};
    }

    /** And its brelse. */
    ghost method LetGo(b: nat)
      requires Synced() && b in held
      modifies this`steps, this`held
      ensures Synced() && held == old(held) - {b} && (old(Tidy()) && b in Logged() ==> Tidy())
    {
      hide Reaches, Tracked, Tame, C.SectorsOf;
      Dropped(steps, txn, held, b, g.Hi());
      steps, held := steps + [Drop(b)], held - {b};
    }

    /** Change a bit of the bitmap and log its sector. */
    method SetBit(b: nat, v: bool)
      requires Ready() && b < g.size && (v || b !in held)
      modifies this`bits, this`txn, this`steps
      ensures Ready() && bits == old(bits)[b := v] && Logged() == old(Logged()) + {BBlock(b, g.ninodes)}
      ensures old(Tidy()) ==> Tidy()
      ensures |txn| == |old(txn)| + 1 && old(txn) <= txn && txn[|old(txn)|].sector == BBlock(b, g.ninodes)
    {
      hide L.Applied, SectorOf, Tracked, Tame;
      forall s: nat | s != BBlock(b, g.ninodes)
        ensures SectorOf(g, bits[b := v], blk, dinode, s) == SectorOf(g, bits, blk, dinode, s)
      {
        BitIsLocal(g, bits, blk, dinode, b, v, s);
      }
      BitPlace(g, b);
      bits := bits[b := v];
      LogWrite(BBlock(b, g.ninodes));
    }

    /** Change a block and log it. */
    method SetBlk(b: nat, data: Block)
      requires Ready() && b < g.size && b !in held
      modifies this`blk, this`txn, this`steps
      ensures Ready() && blk == old(blk)[b := data] && Logged() == old(Logged()) + {b}
      ensures |txn| == |old(txn)| + 1 && old(txn) <= txn && txn[|old(txn)|].sector == b
      ensures old(Tidy()) && b < g.Hi() ==> Tidy()
    {
      hide L.Applied, SectorOf, Tracked, Tame;
      OneBlkIsLocal(b, data);
      blk := blk[b := data];
      LogWrite(b);
    }

    /** The same for a block whose buffer is held. */
    method SetHeld(b: nat, data: Block)
      requires Ready() && b in held
      modifies this`blk, this`txn, this`steps
      ensures Ready() && blk == old(blk)[b := data] && Logged() == old(Logged()) + {b} && old(txn) <= txn
      ensures old(Tidy()) ==> Tidy()
    {
      hide L.Applied, SectorOf, Tracked, Tame;
      OneBlkIsLocal(b, data);
      blk := blk[b := data];
      LogHeld(b);
    }

    lemma OneBlkIsLocal(b: nat, data: Block)
      requires b < |blk|
      ensures forall s: nat :: s != b ==>
                SectorOf(g, bits, blk[b := data], dinode, s) == SectorOf(g, bits, blk, dinode, s)
    {
      hide SectorOf;
      forall s: nat | s != b
        ensures SectorOf(g, bits, blk[b := data], dinode, s) == SectorOf(g, bits, blk, dinode, s)
      {
        BlkIsLocal(g, bits, blk, dinode, b, data, s);
      }
    }

    /** Change an inode on disk and log its sector. */
    method SetDinode(i: nat, d: Dinode)
      requires Ready() && i < g.ninodes
      modifies this`dinode, this`txn, this`steps
      ensures Ready() && dinode == old(dinode)[i := d] && Logged() == old(Logged()) + {IBlock(i)}
      ensures old(Tidy()) ==> Tidy()
      ensures |txn| == |old(txn)| + 1 && old(txn) <= txn && txn[|old(txn)|].sector == IBlock(i)
    {
      hide L.Applied, SectorOf, Tracked, Tame;
      forall s: nat | s != IBlock(i)
        ensures SectorOf(g, bits, blk, dinode[i := d], s) == SectorOf(g, bits, blk, dinode, s)
      {
        DinodeIsLocal(g, bits, blk, dinode, i, d, s);
      }
      dinode := dinode[i := d];
      LogWrite(IBlock(i));
    }

    // ----- blocks -----

    /** balloc's scan of the bitmap, block by block: the lowest clear bit. */
    method FindFree() returns (r: Option<nat>)
      requires |bits| == g.size
      ensures r == ScanFrom(bits, 0)
    {
      var b := 0;
      while b < g.size
        invariant forall c :: 0 <= c < b && c < g.size ==> bits[c]
      {
        var bi := 0;
        while bi < BPB && b + bi < g.size
          invariant 0 <= bi <= BPB
          invariant forall c :: 0 <= c < b + bi && c < g.size ==> bits[c]
        {
          if !bits[b + bi] {
            ScanIs(bits, b + bi);
            return Some(b + bi);
          }
          bi := bi + 1;
        }
        b := b + BPB;
      }
      return None;
    }

    /**
     * balloc: the lowest free block, now marked and zero.  None is the panic, when every block of the image is
     * marked.  Nothing keeps it out of the log: that is ScanStaysInData.
     */
    method Balloc() returns (r: Option<nat>)
      requires Ready() && forall b :: 0 <= b < g.Lo() ==> bits[b]
      modifies this`bits, this`blk, this`txn, this`steps
      ensures Ready() && r == ScanFrom(old(bits), 0)
      ensures r.None? ==> unchanged(this`bits, this`blk, this`txn)
      ensures r.Some? ==>
                && g.Lo() <= r.value < g.size && !old(bits)[r.value]
                && bits == old(bits)[r.value := true] && blk == old(blk)[r.value := ZeroBlock()]
                && Logged() == old(Logged()) + AllocSectors([r.value], g.ninodes)
                && old(txn) <= txn && (old(Tidy()) && r.value < g.Hi() ==> Tidy())
    {
      hide Reaches, Tracked, Tame;
      r := FindFree();
      if r.None? {
        return;
      }
      LookAt(ScanReads(g, r.value));
      SetBit(r.value, true);
      SetBlk(r.value, ZeroBlock());
      OneSectors(r.value, g.ninodes);
    }

    /** What balloc reads before the bitmap sector with the clear bit: the superblock, and the full sectors. */
    static function ScanReads(g: Geom, b: nat): (r: seq<nat>)
      requires g.Ok() && b < g.size
      ensures forall k :: 0 <= k < |r| ==> r[k] < g.Lo() <= g.Hi()
    {
      [1] + seq<nat>(b / BPB, k requires 0 <= k < b / BPB => g.BStart() + k)
    }

    static lemma OneSectors(b: nat, ninodes: nat)
      ensures AllocSectors([b], ninodes) == {BBlock(b, ninodes), b}
    {
      assert [b][0] == b;
    }

    // ----- bmap -----

    /** Inode i's file may be growing: its size and its disk copy may lag behind its map. */
    ghost predicate Growing(i: nat)
      reads this
    {
      Base({i}) && i in cache && (files[i].ind != 0 ==> |files[i].data| > NDIRECT)
    }

    /** bmap, on a block of the file or the one after its last.  None: the data area is full. */
    method Bmap(i: nat, bn: nat) returns (r: Option<nat>)
      requires Growing(i) && bn < MAXFILE && bn <= |files[i].data|
      modifies this`bits, this`blk, this`cache, this`txn, this`steps, this`held, this`files, this`own
      ensures r.Some? <==> HasFree(old(bits), ToAlloc(|old(files)[i].data|, bn + 1), g.Hi())
      ensures bn < |old(files)[i].data| ==>
                r.Some? && unchanged(this`bits, this`blk, this`cache, this`txn, this`files, this`own)
      ensures r.Some? && old(Tidy()) ==> Tidy()
      ensures r.Some? ==>
                && Growing(i) && i < |files| && Kept(old(Now()), Now(), i) && old(txn) <= txn
                && Grown(old(files)[i].data, bn, r.value, files[i].data) && r.value < g.size
                && (bn == |old(files)[i].data| ==> r.value !in old(own) && blk[r.value] == ZeroBlock())
                && Took(g.ninodes, old(bits), bits, old(files)[i], files[i], old(Logged()), Logged(), bn)
    {
      hide OwnOk, Kept, Base, Word, Took, HasFree, ToAlloc, Allocs, BitsAfter, AllocSectors, C.SectorsOf, Reaches,
        Tracked, Tame;
      MapAt(i, bn);
      BmapCost(|files[i].data|, bn);
      if bn < |files[i].data| {
        TookNone(g.ninodes, bits, files[i], Logged(), bn, g.Hi());
      }
      ghost var bits0, f0, logged0 := bits, files[i], Logged();
      if bn < NDIRECT {
        var addr := cache[i].addrs[bn];
        if addr == 0 {
          r := AllocDirect(i, bn);
          if r.Some? {
            TookOne(g.ninodes, bits0, f0, files[i], logged0, bn, r.value);
          }
          return;
        }
        return Some(addr);
      }
      var addr := cache[i].addrs[NDIRECT];
      if addr == 0 {
        ghost var s0 := Now();
        var ra := AllocInd(i);
        HasFreeTwo(bits0, g.Hi());
        if ra.None? {
          return None;
        }
        ghost var s1 := Now();
        r := AllocEntry(i, bn);
        if r.Some? {
          KeptTrans(s0, s1, Now(), i);
          TookTwo(g.ninodes, bits0, f0, files[i], logged0, bn, ra.value, r.value);
        }
        return;
      }
      r := Some(Word(blk[addr], bn - NDIRECT));
      if r.value != 0 {
        LookAtInd(i);
      } else {
        r := AllocEntry(i, bn);
        if r.Some? {
          TookEntry(g.ninodes, bits0, f0, files[i], logged0, bn, r.value);
        }
      }
    }

    lemma MapAt(i: nat, bn: nat)
      requires Growing(i) && bn < MAXFILE && bn <= |files[i].data|
      ensures |cache[i].addrs| == NDIRECT + 1 && cache[i].addrs[NDIRECT] == files[i].ind
      ensures files[i].ind != 0 ==> g.Lo() <= files[i].ind < g.size
      ensures bn < |files[i].data| ==> 0 < files[i].data[bn] < g.size && (bn >= NDIRECT ==> files[i].ind != 0)
      ensures bn < NDIRECT ==> cache[i].addrs[bn] == Entry(files[i].data, bn)
      ensures bn >= NDIRECT && files[i].ind != 0 ==>
                files[i].ind < |blk| && Word(blk[files[i].ind], bn - NDIRECT) == Entry(files[i].data, bn)
      ensures i < |files| && (|files[i].data| > NDIRECT ==> files[i].ind != 0)
      ensures Kept(Now(), Now(), i)
    {
      InodeMap(i);
      assert Reps(Cur(dinode, cache, i), blk, files[i]);
      assert FileOwned(own, i, files[i]);
      if bn >= NDIRECT && files[i].ind != 0 {
        var k := bn - NDIRECT;
        assert Word(blk[files[i].ind], k) == Entry(files[i].data, NDIRECT + k);
      }
    }

    /** A block of the data area from balloc, if there is one left. */
    method AllocData() returns (r: Option<nat>)
      requires Ready() && g.Ok() && forall b :: 0 <= b < g.Lo() ==> bits[b]
      modifies this`bits, this`blk, this`txn, this`steps
      ensures Ready() && (r.Some? <==> HasFree(old(bits), 1, g.Hi()))
      ensures r.Some? && old(Tidy()) ==> Tidy()
      ensures r.Some? ==>
                && g.Lo() <= r.value < g.Hi() && !old(bits)[r.value] && r == ScanFrom(old(bits), 0)
                && bits == old(bits)[r.value := true] && blk == old(blk)[r.value := ZeroBlock()]
                && Logged() == old(Logged()) + AllocSectors([r.value], g.ninodes) && old(txn) <= txn
    {
      hide Sized, Reaches, AllocSectors, C.SectorsOf, Tracked, Tame;
      r := Balloc();
      if r.Some? {
        AllocsOne(old(bits), r.value);
        assert Allocs(old(bits), 1)[0] == r.value;
        if r.value >= g.Hi() {
          return None;
        }
      }
    }

    /** The next direct block. */
    method AllocDirect(i: nat, bn: nat) returns (r: Option<nat>)
      requires Growing(i) && bn == |files[i].data| < NDIRECT
      modifies this`bits, this`blk, this`cache, this`txn, this`steps, this`held, this`files, this`own
      ensures r.Some? <==> HasFree(old(bits), 1, g.Hi())
      ensures r.Some? && old(Tidy()) ==> Tidy()
      ensures r.Some? ==>
                && Growing(i) && i < |files| && Kept(old(Now()), Now(), i)
                && files[i].data == old(files)[i].data + [r.value] && files[i].ind == old(files)[i].ind
                && r.value !in old(own) && r.value < g.size && blk[r.value] == ZeroBlock()
                && r == ScanFrom(old(bits), 0) && bits == old(bits)[r.value := true] && old(txn) <= txn
                && Logged() == old(Logged()) + AllocSectors([r.value], g.ninodes)
    {
      hide OwnOk, RepsAll, Reps, AtRest, HasFree, AllocSectors, C.SectorsOf, Reaches, Tracked,
        Tame;
      ghost var bits0, blk0 := bits, blk;
      LowBits(bits, files, own, g.Lo(), g.Hi());
      r := AllocData();
      if r.None? {
        return;
      }
      var b := r.value;
      AttachData(bits0, files, own, g.Lo(), g.Hi(), i, b);
      FreshStep(bits0, blk0, i, b);
      RepsOf(blk0, i);
      RepsDirect(cache[i], blk0, blk, files[i], b);
      RepsChange(blk0, blk, dinode, cache, bits0, files, own, g.Lo(), g.Hi(), i,
                 cache[i].(addrs := cache[i].addrs[bn := b]), File(files[i].data + [b], files[i].ind));
      cache := cache[i := cache[i].(addrs := cache[i].addrs[bn := b])];
      own := own[b := Data(i, bn)];
      files := WithData(files, i, b);
      OthersAtRest(old(Now()), i);
    }

    static lemma LowBits(bits: seq<bool>, files: seq<File>, own: map<nat, Owner>, lo: nat, hi: nat)
      requires OwnOk(bits, files, own, lo, hi)
      ensures forall b :: 0 <= b < lo ==> b < |bits| && bits[b]
    {
    }

    /** The indirect block itself, still empty. */
    method AllocInd(i: nat) returns (r: Option<nat>)
      requires Base({i}) && i in cache && files[i].ind == 0
      modifies this`bits, this`blk, this`cache, this`txn, this`steps, this`held, this`files, this`own
      ensures r.Some? <==> HasFree(old(bits), 1, g.Hi())
      ensures r.Some? && old(Tidy()) ==> Tidy()
      ensures r.Some? ==>
                && Base({i}) && i in cache && i < |files| && Kept(old(Now()), Now(), i)
                && files[i].data == old(files)[i].data && files[i].ind == r.value != 0
                && r == ScanFrom(old(bits), 0) && bits == old(bits)[r.value := true] && old(txn) <= txn
                && Logged() == old(Logged()) + AllocSectors([r.value], g.ninodes)
    {
      hide OwnOk, RepsAll, Reps, AtRest, HasFree, AllocSectors, C.SectorsOf, Reaches, Tracked,
        Tame;
      ghost var bits0, blk0 := bits, blk;
      LowBits(bits, files, own, g.Lo(), g.Hi());
      r := AllocData();
      if r.None? {
        return;
      }
      var b := r.value;
      AttachInd(bits0, files, own, g.Lo(), g.Hi(), i, b);
      FreshStep(bits0, blk0, i, b);
      RepsOf(blk0, i);
      RepsInd(cache[i], blk0, files[i], b);
      RepsChange(blk0, blk, dinode, cache, bits0, files, own, g.Lo(), g.Hi(), i,
                 cache[i].(addrs := cache[i].addrs[NDIRECT := b]), files[i].(ind := b));
      cache := cache[i := cache[i].(addrs := cache[i].addrs[NDIRECT := b])];
      own := own[b := Ind(i)];
      files := files[i := files[i].(ind := b)];
      OthersAtRest(old(Now()), i);
    }

    /** The next entry of the indirect block. */
    method AllocEntry(i: nat, bn: nat) returns (r: Option<nat>)
      requires Base({i}) && i in cache && files[i].ind != 0 && NDIRECT <= bn == |files[i].data| < MAXFILE
      modifies this`bits, this`blk, this`cache, this`txn, this`steps, this`held, this`files, this`own
      ensures r.Some? <==> HasFree(old(bits), 1, g.Hi())
      ensures r.Some? && old(Tidy()) ==> Tidy()
      ensures r.Some? ==>
                && Growing(i) && i < |files| && Kept(old(Now()), Now(), i)
                && files[i].data == old(files)[i].data + [r.value] && files[i].ind == old(files)[i].ind
                && r.value !in old(own) && r.value < g.size && blk[r.value] == ZeroBlock()
                && r == ScanFrom(old(bits), 0) && bits == old(bits)[r.value := true] && old(txn) <= txn
                && Logged() == old(Logged()) + AllocSectors([r.value], g.ninodes) + {files[i].ind}
    {
      hide OwnOk, RepsAll, Reps, AtRest, PutWord, KeepsOthers, HasFree, AllocSectors, C.SectorsOf, Reaches, Tracked,
        Tame;
      ghost var bits0, blk0 := bits, blk;
      LowBits(bits, files, own, g.Lo(), g.Hi());
      InodeMap(i);
      var addr := cache[i].addrs[NDIRECT];
      Hold(addr);
      r := AllocData();
      if r.None? {
        return;
      }
      var b := r.value;
      AttachData(bits0, files, own, g.Lo(), g.Hi(), i, b);
      FreshStep(bits0, blk0, i, b);
      RepsOf(blk0, i);
      SetHeld(addr, PutWord(blk[addr], bn - NDIRECT, b));
      LetGo(addr);
      EntryStep(bits0, blk0, i, b, addr);
      RepsEntry(cache[i], blk0, blk, files[i], b);
      RepsChange(blk0, blk, dinode, cache, bits0, files, own, g.Lo(), g.Hi(), i,
                 cache[i], File(files[i].data + [b], files[i].ind));
      assert cache[i := cache[i]] == cache;
      own := own[b := Data(i, bn)];
      files := WithData(files, i, b);
      OthersAtRest(old(Now()), i);
    }

    /** bmap's look into the indirect block. */
    ghost method LookAtInd(i: nat)
      requires Growing(i) && files[i].ind != 0
      modifies this`steps
      ensures Growing(i) && (old(Tidy()) ==> Tidy())
    {
      hide Reaches, Tracked, Tame;
      InodeMap(i);
      LookAt([files[i].ind]);
    }

    /** readi's look at a data block. */
    ghost method LookAtData(i: nat, bn: nat)
      requires Valid() && i < g.ninodes && bn < |files[i].data|
      modifies this`steps
      ensures Valid() && (old(Tidy()) ==> Tidy())
    {
      hide Reaches, Tracked, Tame;
      DataBlock(i, bn);
      LookAt([files[i].data[bn]]);
    }

    lemma InodeMap(i: nat)
      requires Base({i}) && i in cache
      ensures |cache[i].addrs| == NDIRECT + 1 && cache[i].addrs[NDIRECT] == files[i].ind
      ensures files[i].ind != 0 ==>
                && g.Lo() <= files[i].ind < g.Hi() <= g.size && bits[files[i].ind]
                && files[i].ind in own && own[files[i].ind] == Ind(i)
    {
      assert Reps(Cur(dinode, cache, i), blk, files[i]);
      assert FileOwned(own, i, files[i]);
    }

    /** Writing a pointer to b into the indirect block changes no data block and no other inode's. */
    lemma EntryStep(bits0: seq<bool>, blk0: seq<Block>, i: nat, b: nat, addr: nat)
      requires g.Ok() && OwnOk(bits0, files, own, g.Lo(), g.Hi()) && i < |files| && |bits0| == |blk0| == |blk|
      requires b !in own
      requires addr in own && own[addr] == Ind(i)
      requires forall c :: 0 <= c < |blk| && c != b && c != addr ==> blk[c] == blk0[c]
      ensures KeepsOthers(blk0, blk, own, i)
      ensures forall k :: 0 <= k < |files[i].data| ==>
                            files[i].data[k] < |blk0| && blk[files[i].data[k]] == blk0[files[i].data[k]]
    {
      assert FileOwned(own, i, files[i]);
    }

    /** A fresh block: nobody's block changes. */
    lemma FreshStep(bits0: seq<bool>, blk0: seq<Block>, i: nat, b: nat)
      requires g.Ok() && OwnOk(bits0, files, own, g.Lo(), g.Hi()) && i < |files| && |bits0| == |blk0|
      requires b < |blk0| && b !in own
      requires blk == blk0[b := ZeroBlock()]
      ensures KeepsOthers(blk0, blk, own, i)
      ensures files[i].ind != 0 ==> files[i].ind < |blk0| && blk[files[i].ind] == blk0[files[i].ind]
      ensures forall k :: 0 <= k < |files[i].data| ==>
                            files[i].data[k] < |blk0| && blk[files[i].data[k]] == blk0[files[i].data[k]]
    {
      assert FileOwned(own, i, files[i]);
    }

    lemma RepsOf(blk0: seq<Block>, i: nat)
      requires RepsAll(blk0, dinode, cache, files) && i < |files| && i in cache
      ensures Reps(cache[i], blk0, files[i])
    {
    }

    lemma OthersAtRest(s: Snap, i: nat)
      requires i in s.cache && i in cache && i < |s.files| == |files| == |dinode|
      requires files == s.files[i := files[i]] && cache == s.cache[i := cache[i]]
      requires forall j :: 0 <= j < |dinode| && j != i ==> AtRest(dinode, s.cache, s.files, j)
      ensures forall j :: 0 <= j < |dinode| && j != i ==> AtRest(dinode, cache, files, j)
    {
      forall j | 0 <= j < |dinode| && j != i
        ensures AtRest(dinode, cache, files, j)
      {
        assert AtRest(dinode, s.cache, s.files, j);
      }
    }

    // ----- file contents -----

    /** The bytes of inode j's file. */
    ghost function Contents(j: nat): (c: seq<byte>)
      requires Valid() && j < g.ninodes
      reads this
      ensures |c| == Cur(dinode, cache, j).size
    {
      ContentsOf(Img(), j)
    }

    /** One turn of writei's loop: map the block, copy the bytes in, log it. */
    method WriteBlock(i: nat, bn: nat, at: nat, chunk: seq<byte>) returns (ok: bool)
      requires Growing(i) && bn < MAXFILE && bn <= |files[i].data| && at + |chunk| <= BSIZE
      modifies this`bits, this`blk, this`cache, this`txn, this`steps, this`held, this`files, this`own
      ensures ok <==> HasFree(old(bits), ToAlloc(|old(files)[i].data|, bn + 1), g.Hi())
      ensures ok && old(Tidy()) ==> Tidy()
      ensures ok ==>
                && Growing(i) && i < |files| && Framed(old(Now()), Now(), i)
                && |files[i].data| == Max(|old(files)[i].data|, bn + 1)
                && (bn < |old(files)[i].data| ==>
                      && cache == old(cache) && files == old(files)
                      && |txn| == |old(txn)| + 1 && txn[|old(txn)|].sector == files[i].data[bn])
                && Patched(old(blk), old(files)[i].data, blk, files[i].data, bn * BSIZE + at, chunk)
                && old(txn) <= txn
                && Tally(g.ninodes, g.Hi(), old(bits), bits, old(files)[i], files[i], old(Logged()), Logged(), bn,
                         bn + 1)
    {
      hide OwnOk, RepsAll, AtRest, Kept, Framed, Patched, Overlaid, Grown, Took, HasFree, ToAlloc, Tally, Reaches,
        C.SectorsOf, Tracked, Tame;
      ghost var s, bits0, logged0 := Now(), bits, Logged();
      var r := Bmap(i, bn);
      if r.None? {
        return false;
      }
      ghost var t := Now();
      GrownBlock(i, s.files[i].data, bn, r.value);
      TallyBlock(g.ninodes, g.Hi(), bits0, bits, s.files[i], files[i], logged0, Logged(), bn);
      SetBlk(r.value, Overlaid(blk[r.value], at, chunk));
      PatchBlock(s, t, i, blk, bn, at, chunk, r.value);
      OverlayStep(s, t, bits, i, bn, blk);
      return true;
    }

    /** writei's loop. */
    method WriteBlocks(i: nat, src: seq<byte>, off: nat) returns (ok: bool)
      requires Growing(i) && i < |files| && off <= |files[i].data| * BSIZE && off + |src| <= MAXFILE * BSIZE
      requires InRange(blk, files[i].data)
      modifies this`bits, this`blk, this`cache, this`txn, this`steps, this`held, this`files, this`own
      ensures ok <==> HasFree(old(bits), ToAlloc(|old(files)[i].data|, Blocks(off + |src|)), g.Hi())
      ensures ok && old(Tidy()) ==> Tidy()
      ensures ok ==>
                && Growing(i) && i < |files| && Framed(old(Now()), Now(), i)
                && (var nb, end := |old(files)[i].data|, Blocks(off + |src|);
                    && |files[i].data| == Max(nb, end)
                    && (end <= nb ==>
                          && cache == old(cache) && files == old(files)
                          && InOrder(old(txn), txn, files[i].data, off / BSIZE, LastBlock(off, |src|))))
                && Patched(old(blk), old(files)[i].data, blk, files[i].data, off, src)
                && Tally(g.ninodes, g.Hi(), old(bits), bits, old(files)[i], files[i], old(Logged()), Logged(),
                         off / BSIZE, LastBlock(off, |src|))
    {
      hide Progress, Framed, Patched, ToAlloc, Base, HasFree, Tally, C.SectorsOf, InOrder, Blocks, LastBlock, Tame;
      var n, tot, o := |src|, 0, off;
      ghost var s0, bits0, logged0, txn0 := Now(), bits, Logged(), txn;
      ghost var f0, first, end, cur := files[i], off / BSIZE, Blocks(off + n), off / BSIZE;
      StartProgress(s0, i, off, src);
      OrderNone(txn, f0.data, first);
      NoBlock(off);
      TallyNone(g.ninodes, g.Hi(), bits, f0, Logged(), first);
      while tot < n
        invariant 0 <= tot <= n && o == off + tot && Growing(i) && i < |files|
        invariant cur == LastBlock(off, tot) && (tot < n ==> cur == o / BSIZE)
        invariant Progress(s0, Now(), i, off, src, tot) && (old(Tidy()) ==> Tidy())
        invariant Tally(g.ninodes, g.Hi(), bits0, bits, f0, files[i], logged0, Logged(), first, cur)
        invariant cur <= |f0.data| ==> files[i] == f0 && InOrder(txn0, txn, f0.data, first, cur)
      {
        var m := Stretch(off, tot, n);
        NextBlock(off, tot, n);
        ghost var t, bits1, logged1, txn1 := Now(), bits, Logged(), txn;
        AtBlock(s0, t, i, off, src, tot);
        HasInd(i);
        ok := WriteBlock(i, o / BSIZE, o % BSIZE, src[tot..tot + m]);
        if !ok {
          TallyFull(g.ninodes, g.Hi(), bits0, bits1, f0, t.files[i], logged0, logged1, first, cur, end);
          return;
        }
        Turn(s0, t, Now(), i, off, src, tot, m);
        TallyTurn(g.ninodes, g.Hi(), bits0, bits1, bits, f0, t.files[i], files[i], logged0, logged1, Logged(), first,
                  cur);
        if cur < |f0.data| {
          OrderNext(txn0, txn1, txn, f0.data, first, cur);
        }
        tot, o, cur := tot + m, o + m, cur + 1;
      }
      EndProgress(s0, Now(), i, off, src);
      TallyEnd(g.ninodes, g.Hi(), bits0, bits, f0, files[i], logged0, Logged(), off, n);
      return true;
    }

    lemma HasInd(i: nat)
      requires Growing(i)
      ensures i < |files| && (files[i].ind != 0 <==> |files[i].data| > NDIRECT)
    {
      assert Reps(Cur(dinode, cache, i), blk, files[i]);
    }

    lemma OverlayStep(s: Snap, t: Snap, bits: seq<bool>, i: nat, bn: nat, blk': seq<Block>)
      requires Kept(s, t, i) && g.Ok() && OwnOk(bits, t.files, t.own, g.Lo(), g.Hi())
      requires RepsAll(t.blk, dinode, t.cache, t.files)
      requires |blk'| == |t.blk| && bn < |t.files[i].data|
      requires forall c :: 0 <= c < |blk'| && c != t.files[i].data[bn] ==> blk'[c] == t.blk[c]
      ensures Framed(s, t.(blk := blk'), i) && RepsAll(blk', dinode, t.cache, t.files)
    {
      assert FileOwned(t.own, i, t.files[i]);
      assert Reps(Cur(dinode, t.cache, i), t.blk, t.files[i]);
      assert Reps(t.cache[i], blk', t.files[i]);
      RepsChange(t.blk, blk', dinode, t.cache, bits, t.files, t.own, g.Lo(), g.Hi(), i, t.cache[i], t.files[i]);
      assert t.cache[i := t.cache[i]] == t.cache && t.files[i := t.files[i]] == t.files;
    }

    /** The block bmap returned is file block bn. */
    lemma GrownBlock(i: nat, data: seq<nat>, bn: nat, b: nat)
      requires Base({i}) && i < g.ninodes && bn <= |data| && Grown(data, bn, b, files[i].data)
      ensures bn < |files[i].data| && files[i].data[bn] == b && g.Lo() <= b < g.Hi() <= g.size && b != files[i].ind
      ensures b in own && own[b] == Data(i, bn)
      ensures |files[i].data| == (if bn < |data| then |data| else bn + 1)
      ensures FileOwned(own, i, files[i]) && InRange(blk, files[i].data)
    {
      DataBlock(i, bn);
    }

    lemma DataBlock(i: nat, bn: nat)
      requires Base({i}) && i < g.ninodes && bn < |files[i].data|
      ensures var b := files[i].data[bn];
              g.Lo() <= b < g.Hi() <= g.size && b in own && own[b] == Data(i, bn) && b != files[i].ind
      ensures FileOwned(own, i, files[i]) && InRange(blk, files[i].data)
    {
      assert FileOwned(own, i, files[i]);
    }

    /**
     * writei: the file becomes its old contents with src laid over it at off; no other file changes; the
     * inode on disk again says everything the one in memory does; and exactly WriteSectors is logged.
     */
    method Writei(i: nat, src: seq<byte>, off: nat) returns (r: Outcome)
      requires Valid() && i in cache && cache[i].typ != T_DEV && off < UINT && |src| < UINT
      modifies this`bits, this`blk, this`dinode, this`cache, this`txn, this`steps, this`held, this`files, this`own
      ensures r.Failed? <==> off > old(cache)[i].size || off + |src| >= UINT || TooLarge(off + |src|)
      ensures r.Failed? <==> !WriteOk(old(cache)[i].size, off, |src|)
      ensures r.Failed? ==> unchanged(this)
      ensures r.OutOfBlocks? <==>
                && WriteOk(old(cache)[i].size, off, |src|)
                && !HasFree(old(bits), ToAlloc(|old(files)[i].data|, Blocks(off + |src|)), g.Hi())
      ensures r.Written? ==>
                && r.n == |src| && Valid() && i in cache
                && Contents(i) == Spliced(old(Contents(i)), off, src)
                && cache[i] == old(cache)[i].(size := |Contents(i)|, addrs := cache[i].addrs)
                && cache == old(cache)[i := cache[i]] && dinode == old(dinode)[i := cache[i]]
                && (forall j :: 0 <= j < g.ninodes && j != i ==> Contents(j) == old(Contents(j)))
                && bits == BitsAfter(old(bits), ToAlloc(|old(files)[i].data|, LastBlock(off, |src|)))
                && Logged() == old(Logged()) + ChunkSectors(old(Img()), i, off, |src|)
                && (old(txn) == [] ==> C.LastIsNew(txn)) && (old(Tidy()) ==> Tidy())
    {
      hide OwnOk, RepsAll, AtRest, Framed, Patched, ToAlloc, Base, KeepsOthers, SizeOk, HasFree, Tally, InOrder,
        LastBlock, Consistent, Sized, C.SectorsOf, C.LastIsNew, ContentsOf, Spliced, Blocks, Tame, TooLarge;
      var n := |src|;
      TooLargeIff(off + n);
      if off > cache[i].size || (off + n) % UINT < off {
        return Failed;
      }
      if (off + n) % UINT > MAXFILE * BSIZE {
        return Failed;
      }
      StartWrite(i, off);
      BlocksOrder(off + n, cache[i].size);
      var ok := WriteBlocks(i, src, off);
      if !ok {
        return OutOfBlocks;
      }
      ghost var t, txn1 := Now(), txn;
      FramedInode(old(Now()), t, i);
      if n > 0 && off + n > cache[i].size {
        SetSize(i, off + n);
      } else {
        Settled(i);
      }
      Counted(old(Img()), bits, files[i], old(txn), txn1, txn, i, off, n);
      Laid(old(Img()), t, i, off, src);
      OtherFiles(old(Img()), t, i);
      return Written(n);
    }

    /** The sectors writei logs, and that the last of them is new. */
    static lemma Counted(m: Image, bits: seq<bool>, f: File, txn0: C.Txn, txn1: C.Txn, txn: C.Txn, i: nat, off: nat,
                         n: nat)
      requires Consistent(m, {}) && i in m.cache && off <= m.cache[i].size
      requires Tally(m.g.ninodes, m.g.Hi(), m.bits, bits, m.files[i], f, C.SectorsOf(txn0), C.SectorsOf(txn1),
                     off / BSIZE, LastBlock(off, n))
      requires Blocks(off + n) <= |m.files[i].data| ==>
               InOrder(txn0, txn1, m.files[i].data, off / BSIZE, LastBlock(off, n))
      requires if n > 0 && off + n > m.cache[i].size
               then && txn1 <= txn && |txn| == |txn1| + 1 && txn[|txn1|].sector == IBlock(i)
                    && C.SectorsOf(txn) == C.SectorsOf(txn1) + {IBlock(i)}
               else txn == txn1
      ensures bits == BitsAfter(m.bits, ToAlloc(|m.files[i].data|, LastBlock(off, n)))
      ensures C.SectorsOf(txn) == C.SectorsOf(txn0) + ChunkSectors(m, i, off, n)
      ensures txn0 == [] ==> C.LastIsNew(txn)
    {
      FileFacts(m, i);
      var f0, first, end := m.files[i], off / BSIZE, LastBlock(off, n);
      if n == 0 {
        TallyNone(m.g.ninodes, m.g.Hi(), m.bits, f0, C.SectorsOf(txn0), first);
      }
      hide Consistent, C.SectorsOf, BlockSectors, HasFree, Allocs, C.LastIsNew, InOrder, FileGrew;
      if txn0 == [] {
        assert C.SectorsOf(txn0) == {};
        if n > 0 && off + n > m.cache[i].size {
          AllocsInside(m.bits, ToAlloc(|f0.data|, end), m.g.Lo(), m.g.Hi());
          InodeIsNew(txn1, txn, m.g, m.bits, f0, first, end, i);
        } else {
          BlockIsNew(txn, f0.data, first, end);
        }
      }
    }

    static lemma FileFacts(m: Image, i: nat)
      requires Consistent(m, {}) && i in m.cache
      ensures Sized(m) && i < m.g.ninodes && |m.files[i].data| == Blocks(m.cache[i].size)
      ensures forall b :: 0 <= b < m.g.Lo() ==> m.bits[b]
      ensures forall k :: 0 <= k < |m.files[i].data| ==> m.g.Lo() <= m.files[i].data[k]
      ensures forall k, l :: 0 <= k < |m.files[i].data| && 0 <= l < |m.files[i].data| ==>
                               m.files[i].data[k] == m.files[i].data[l] ==> k == l
      ensures |m.files[i].data| > NDIRECT ==> m.g.Lo() <= m.files[i].ind
      ensures m.files[i].ind != 0 ==> |m.files[i].data| > NDIRECT
    {
      assert AtRest(m.dinode, m.cache, m.files, i) && FileOwned(m.own, i, m.files[i]);
      assert Reps(Cur(m.dinode, m.cache, i), m.blk, m.files[i]);
    }

    lemma StartWrite(i: nat, off: nat)
      requires Valid() && i in cache && off <= cache[i].size
      ensures i < g.ninodes && |files| == |dinode| == g.ninodes && |bits| == |blk|
              && OwnOk(bits, files, own, g.Lo(), g.Hi())
      ensures forall j :: 0 <= j < g.ninodes ==> AtRest(dinode, cache, files, j)
      ensures cache[i].typ != 0 && cache[i] == dinode[i]
      ensures Growing(i) && Framed(Now(), Now(), i) && |files[i].data| == Blocks(cache[i].size)
      ensures InRange(blk, files[i].data) && off <= |files[i].data| * BSIZE && Consistent(Img(), {})
    {
      assert AtRest(dinode, cache, files, i);
      assert FileOwned(own, i, files[i]);
      assert Reps(Cur(dinode, cache, i), blk, files[i]);
    }

    /** iupdate. */
    method Iupdate(i: nat)
      requires Ready() && i in cache
      modifies this`dinode, this`txn, this`steps
      ensures Ready() && dinode == old(dinode)[i := cache[i]] && Logged() == old(Logged()) + {IBlock(i)}
      ensures old(Tidy()) ==> Tidy()
      ensures |txn| == |old(txn)| + 1 && old(txn) <= txn && txn[|old(txn)|].sector == IBlock(i)
    {
      SetDinode(i, cache[i]);
    }

    /** The end of a write that grew the file. */
    method SetSize(i: nat, sz: nat)
      requires Growing(i) && |files[i].data| == Blocks(sz) && sz <= MAXFILE * BSIZE && cache[i].typ != 0
      modifies this`dinode, this`cache, this`txn, this`steps
      ensures Valid() && cache == old(cache)[i := old(cache)[i].(size := sz)] && (old(Tidy()) ==> Tidy())
      ensures dinode == old(dinode)[i := cache[i]] && Logged() == old(Logged()) + {IBlock(i)}
      ensures |txn| == |old(txn)| + 1 && old(txn) <= txn && txn[|old(txn)|].sector == IBlock(i)
    {
      hide OwnOk, Reps, Reaches, C.SectorsOf, Tracked, Tame;
      assert Reps(Cur(dinode, cache, i), blk, files[i]);
      SameAddrs(cache[i], blk, files[i], sz);
      cache := cache[i := cache[i].(size := sz)];
      Iupdate(i);
      OthersSettled(old(blk), old(dinode), old(cache), i);
    }

    lemma SameAddrs(d: Dinode, blk: seq<Block>, f: File, sz: nat)
      requires Reps(d, blk, f)
      ensures Reps(d.(size := sz), blk, f)
    {
    }

    lemma OthersSettled(blk0: seq<Block>, dinode0: seq<Dinode>, cache0: map<nat, Dinode>, i: nat)
      requires i in cache && i < |files| == |dinode0| && dinode == dinode0[i := cache[i]]
               && cache == cache0[i := cache[i]]
      requires RepsAll(blk0, dinode0, cache0, files) && blk == blk0 && Reps(cache[i], blk, files[i])
      requires forall j :: 0 <= j < |dinode0| && j != i ==> AtRest(dinode0, cache0, files, j)
      ensures RepsAll(blk, dinode, cache, files)
      ensures forall j :: 0 <= j < |dinode| && j != i ==> AtRest(dinode, cache, files, j)
    {
      forall j | 0 <= j < |dinode| && j != i
        ensures AtRest(dinode, cache, files, j) && Reps(Cur(dinode, cache, j), blk, files[j])
      {
        assert AtRest(dinode0, cache0, files, j);
        assert Reps(Cur(dinode0, cache0, j), blk, files[j]);
      }
    }

    lemma Settled(i: nat)
      requires Base({i}) && i < g.ninodes && AtRest(dinode, cache, files, i)
      ensures Valid()
    {
    }

    lemma FramedInode(s: Snap, t: Snap, i: nat)
      requires Framed(s, t, i)
      ensures i < |s.files| && i in s.cache && i in t.cache
      ensures t.cache[i] == s.cache[i].(addrs := t.cache[i].addrs)
      ensures t.cache == s.cache[i := t.cache[i]] && t.files == s.files[i := t.files[i]]
    {
    }

    ghost function SnapOf(m: Image): Snap { Snap(m.files, m.own, m.cache, m.blk) }

    /** The written file: its old bytes with src laid over them. */
    lemma Laid(m: Image, t: Snap, i: nat, off: nat, src: seq<byte>)
      requires Valid() && Consistent(m, {}) && m.g == g && i < g.ninodes && i in cache && i in m.cache
      requires files == t.files && blk == t.blk && Framed(SnapOf(m), t, i)
      requires off <= m.cache[i].size && Patched(m.blk, m.files[i].data, blk, files[i].data, off, src)
      requires cache[i].size == if off + |src| > m.cache[i].size then off + |src| else m.cache[i].size
      ensures Contents(i) == Spliced(ContentsOf(m, i), off, src)
    {
      assert AtRest(dinode, cache, files, i) && AtRest(m.dinode, m.cache, m.files, i);
      PatchedIsSpliced(m.blk, m.files[i].data, m.cache[i].size, blk, files[i].data, off, src);
    }

    lemma OtherFiles(m: Image, t: Snap, i: nat)
      requires Valid() && Consistent(m, {}) && m.g == g && i < g.ninodes
      requires files == t.files && blk == t.blk && Framed(SnapOf(m), t, i)
      requires i in cache && cache == m.cache[i := cache[i]] && dinode == m.dinode[i := dinode[i]]
      ensures forall j :: 0 <= j < g.ninodes && j != i ==> Contents(j) == ContentsOf(m, j)
    {
      forall j | 0 <= j < g.ninodes && j != i
        ensures Contents(j) == ContentsOf(m, j)
      {
        assert AtRest(m.dinode, m.cache, m.files, j);
        BytesOther(m.blk, blk, m.bits, m.files, m.own, g.Lo(), g.Hi(), i, j, Cur(m.dinode, m.cache, j).size);
      }
    }

    /** readi: the bytes of the file from off on, at most n of them. */
    method Readi(i: nat, off: nat, n: nat) returns (r: Option<seq<byte>>)
      requires Valid() && i in cache && cache[i].typ != T_DEV && off < UINT && n < UINT
      modifies this`bits, this`blk, this`cache, this`txn, this`steps, this`held, this`files, this`own
      ensures Valid() && unchanged(this`bits, this`blk, this`cache, this`txn, this`files, this`own)
      ensures r.None? <==> off > cache[i].size || off + n >= UINT
      ensures r.Some? ==>
                i < g.ninodes && r.value == Contents(i)[off..if off + n > cache[i].size then cache[i].size else off + n]
    {
      hide OwnOk, RepsAll, AtRest, Base, Bytes, ContentsOf, SizeOk;
      if off > cache[i].size || (off + n) % UINT < off {
        return None;
      }
      StartWrite(i, off);
      var n := if off + n > cache[i].size then cache[i].size - off else n;
      var tot, o, dst := 0, off, [];
      while tot < n
        invariant 0 <= tot <= n && o == off + tot && Valid()
        invariant unchanged(this`bits, this`blk, this`cache, this`txn, this`files, this`own)
        invariant dst == Contents(i)[off..o]
      {
        var m := if n - tot < BSIZE - o % BSIZE then n - tot else BSIZE - o % BSIZE;
        var part := ReadBlock(i, o, m);
        assert Contents(i)[off..o] + Contents(i)[o..o + m] == Contents(i)[off..o + m];
        dst := dst + part;
        tot, o := tot + m, o + m;
      }
      return Some(dst);
    }

    /** One turn of readi's loop. */
    method ReadBlock(i: nat, o: nat, m: nat) returns (part: seq<byte>)
      requires Valid() && i in cache && i < g.ninodes && o + m <= cache[i].size && o % BSIZE + m <= BSIZE && m > 0
      modifies this`bits, this`blk, this`cache, this`txn, this`steps, this`held, this`files, this`own
      ensures Valid() && unchanged(this`bits, this`blk, this`cache, this`txn, this`files, this`own)
      ensures part == Contents(i)[o..o + m]
    {
      hide OwnOk, RepsAll, AtRest, Base, Kept, Bytes, Took, HasFree, ContentsOf, C.SectorsOf, Tracked, Tame, SizeOk;
      BytesOfBlock(i, o, m);
      StartWrite(i, o);
      var b := Bmap(i, o / BSIZE);
      Settled(i);
      LookAtData(i, o / BSIZE);
      return blk[b.value][o % BSIZE..o % BSIZE + m];
    }

    /** A stretch of the file inside one block. */
    lemma BytesOfBlock(i: nat, o: nat, m: nat)
      requires Valid() && i in cache && i < g.ninodes && o + m <= cache[i].size && o % BSIZE + m <= BSIZE && m > 0
      ensures o / BSIZE < |files[i].data| <= MAXFILE && files[i].data[o / BSIZE] < |blk|
      ensures Contents(i)[o..o + m] == blk[files[i].data[o / BSIZE]][o % BSIZE..o % BSIZE + m]
    {
      assert AtRest(dinode, cache, files, i) && FileOwned(own, i, files[i]);
      var lhs, rhs := Contents(i)[o..o + m], blk[files[i].data[o / BSIZE]][o % BSIZE..o % BSIZE + m];
      forall x | 0 <= x < m
        ensures lhs[x] == rhs[x]
      {
        assert (o + x) / BSIZE == o / BSIZE && (o + x) % BSIZE == o % BSIZE + x;
      }
    }

    // ----- freeing -----

    /** bfree. */
    method Bfree(b: nat)
      requires Ready() && b < g.size && bits[b] && b !in held
      modifies this`bits, this`txn, this`steps
      ensures Ready() && bits == old(bits)[b := false] && Logged() == old(Logged()) + {BBlock(b, g.ninodes)}
    {
      hide Reaches, C.SectorsOf, Tracked;
      LookAt([1]);
      if !bits[b] {
        assert false;
      }
      SetBit(b, false);
    }

    /** itrunc: the bits of exactly the file's blocks are cleared, each once, and their sectors logged. */
    method Itrunc(i: nat)
      requires Valid() && i in cache
      modifies this`bits, this`dinode, this`cache, this`txn, this`steps, this`held, this`files, this`own
      ensures Valid() && i < |old(files)|
      ensures forall b :: 0 <= b < g.size ==> bits[b] == (old(bits)[b] && !Uses(old(files)[i], b))
      ensures files == old(files)[i := File([], 0)]
      ensures cache == old(cache)[i := old(cache)[i].(size := 0, addrs := NoAddrs())]
      ensures dinode == old(dinode)[i := cache[i]]
      ensures Logged() == old(Logged()) + PutSectors(old(Img()), i)
      ensures old(txn) == [] ==> C.LastIsNew(txn)
    {
      hide OwnOk, RepsAll, Reps, AtRest, Uses, Reaches, C.SectorsOf, PutSectors, Tracked, C.LastIsNew;
      ghost var own' := map b | b in own && own[b].i != i :: own[b];
      ToFree(i);
      FreeAndClear(i);
      EmptyReps(cache[i], blk);
      Detach(old(bits), bits, files, own, g.Lo(), g.Hi(), i);
      RepsChange(blk, blk, old(dinode), old(cache), old(bits), files, own, g.Lo(), g.Hi(), i, cache[i], File([], 0));
      Emptied(old(dinode), old(cache), i, files[i := File([], 0)]);
      files, own := files[i := File([], 0)], own';
    }

    /** itrunc's steps: free the blocks, then write the empty inode through. */
    method FreeAndClear(i: nat)
      requires Valid() && i in cache && i < |files|
      modifies this`bits, this`dinode, this`cache, this`txn, this`steps, this`held
      ensures Ready() && held == {}
      ensures forall b :: 0 <= b < g.size ==> bits[b] == (old(bits)[b] && !Uses(files[i], b))
      ensures cache == old(cache)[i := old(cache)[i].(size := 0, addrs := NoAddrs())]
      ensures dinode == old(dinode)[i := cache[i]]
      ensures Logged() == old(Logged()) + PutSectors(old(Img()), i)
      ensures old(txn) == [] ==> C.LastIsNew(txn)
    {
      hide Uses, Reaches, C.SectorsOf, FreedSectors, Tracked, C.LastIsNew, Consistent, NoAddrs;
      InMemory(i);
      NothingLogged();
      FreeBlocks(i);
      ghost var txn1 := txn;
      cache := cache[i := cache[i].(size := 0)];
      Iupdate(i);
      if old(txn) == [] {
        TruncIsNew(old(Img()), i, txn1, txn);
      }
    }

    lemma EmptyReps(d: Dinode, blk: seq<Block>)
      requires d.addrs == NoAddrs()
      ensures Reps(d, blk, File([], 0))
    {
    }

    /** The inode table once inode i is empty, in memory and on disk. */
    lemma Emptied(dinode0: seq<Dinode>, cache0: map<nat, Dinode>, i: nat, files': seq<File>)
      requires |files| == |dinode0| && i < |files| && i in cache0 && cache0[i].typ != 0
      requires forall j :: 0 <= j < |dinode0| ==> AtRest(dinode0, cache0, files, j)
      requires cache == cache0[i := cache0[i].(size := 0, addrs := NoAddrs())] && dinode == dinode0[i := cache[i]]
      requires files' == files[i := File([], 0)] && RepsAll(blk, dinode0, cache, files')
      ensures RepsAll(blk, dinode, cache, files')
      ensures forall j :: 0 <= j < |dinode| ==> AtRest(dinode, cache, files', j)
    {
      forall j | 0 <= j < |dinode|
        ensures AtRest(dinode, cache, files', j) && Reps(Cur(dinode, cache, j), blk, files'[j])
      {
        assert AtRest(dinode0, cache0, files, j);
        assert Reps(Cur(dinode0, cache, j), blk, files'[j]);
      }
    }

    /** itrunc's two loops. */
    method FreeBlocks(i: nat)
      requires Valid() && i in cache
      modifies this`bits, this`cache, this`txn, this`steps, this`held
      ensures Ready() && held == {}
      ensures forall b :: 0 <= b < g.size ==> bits[b] == (old(bits)[b] && !Uses(files[i], b))
      ensures cache == old(cache)[i := old(cache)[i].(addrs := NoAddrs())]
      ensures Logged() == old(Logged()) + FreedSectors(files[i], g.ninodes)
    {
      hide OwnOk, RepsAll, Reps, AtRest, Freed, IndirectOk, DirectOk, Reaches, C.SectorsOf, BitmapOf,
        Tracked;
      ghost var f := files[i];
      ToFree(i);
      FreeDirect(i, f);
      if cache[i].addrs[NDIRECT] != 0 {
        FreeIndirect(cache[i].addrs[NDIRECT], old(bits), old(Logged()), f);
        cache := cache[i := cache[i].(addrs := cache[i].addrs[NDIRECT := 0])];
      } else {
        AllFreed(old(bits), bits, f, NDIRECT);
        assert f.data[..Min(|f.data|, NDIRECT)] == f.data;
      }
      assert cache[i].addrs == NoAddrs();
    }

    /** What Itrunc relies on: the inode lists distinct blocks, all in use. */
    lemma ToFree(i: nat)
      requires Valid() && i in cache
      ensures i < |files| && |cache[i].addrs| == NDIRECT + 1 && DirectOk(cache[i].addrs, files[i])
      ensures cache[i].addrs[NDIRECT] == files[i].ind && (files[i].ind != 0 <==> |files[i].data| > NDIRECT)
      ensures files[i].ind != 0 ==> g.Lo() <= files[i].ind < g.size && IndirectOk(blk[files[i].ind], files[i])
      ensures cache[i].typ != 0 && InUse(bits, files[i]) && |files[i].data| <= MAXFILE && i < |files|
              && |bits| == g.size == |blk|
    {
      assert Reps(Cur(dinode, cache, i), blk, files[i]);
      assert AtRest(dinode, cache, files, i);
      assert FileOwned(own, i, files[i]);
    }

    method FreeDirect(i: nat, ghost f: File)
      requires Ready() && i in cache && |cache[i].addrs| == NDIRECT + 1 && DirectOk(cache[i].addrs, f) && InUse(bits, f)
      requires held == {}
      modifies this`bits, this`cache, this`txn, this`steps
      ensures Ready() && Freed(old(bits), bits, f.data, NDIRECT)
      ensures i in cache && |cache[i].addrs| == NDIRECT + 1
      ensures forall k :: 0 <= k < NDIRECT ==> cache[i].addrs[k] == 0
      ensures cache == old(cache)[i := old(cache)[i].(addrs := cache[i].addrs)]
      ensures cache[i].addrs[NDIRECT] == old(cache)[i].addrs[NDIRECT]
      ensures Logged() == old(Logged()) + BitmapOf(f.data[..Min(|f.data|, NDIRECT)], g.ninodes)
    {
      hide Freed, Reaches, C.SectorsOf, BitmapOf, Tracked;
      NoneFreed(bits, f.data);
      NoneLogged(f.data, g.ninodes);
      var k := 0;
      while k < NDIRECT
        invariant 0 <= k <= NDIRECT && i in cache && |cache[i].addrs| == NDIRECT + 1 && Ready()
        invariant forall q :: 0 <= q < k ==> cache[i].addrs[q] == 0
        invariant forall q :: k <= q < NDIRECT ==> cache[i].addrs[q] == Entry(f.data, q)
        invariant cache[i].addrs[NDIRECT] == old(cache)[i].addrs[NDIRECT]
        invariant cache == old(cache)[i := old(cache)[i].(addrs := cache[i].addrs)]
        invariant Freed(old(bits), bits, f.data, k)
        invariant Logged() == old(Logged()) + BitmapOf(f.data[..Min(|f.data|, k)], g.ninodes)
      {
        FreeOne(old(bits), bits, f, k);
        LoggedOne(f.data, k, g.ninodes);
        if cache[i].addrs[k] != 0 {
          Bfree(cache[i].addrs[k]);
          cache := cache[i := cache[i].(addrs := cache[i].addrs[k := 0])];
        }
        k := k + 1;
      }
    }

    method FreeIndirect(ind: nat, ghost bits0: seq<bool>, ghost logged0: set<nat>, ghost f: File)
      requires Ready() && g.Lo() <= ind < g.size && ind == f.ind && IndirectOk(blk[ind], f) && |f.data| <= MAXFILE
      requires InUse(bits0, f) && Freed(bits0, bits, f.data, NDIRECT)
      requires Logged() == logged0 + BitmapOf(f.data[..Min(|f.data|, NDIRECT)], g.ninodes) && held == {}
      modifies this`bits, this`txn, this`steps, this`held
      ensures Ready() && held == {} && |bits0| == g.size
      ensures forall b :: 0 <= b < g.size ==> bits[b] == (bits0[b] && !Uses(f, b))
      ensures Logged() == logged0 + FreedSectors(f, g.ninodes)
    {
      hide Freed, Word, Reaches, C.SectorsOf, BitmapOf, Tracked;
      IndInUse(bits0, bits, f);
      Hold(ind);
      assert held == {ind};
      var j := 0;
      while j < NINDIRECT
        invariant 0 <= j <= NINDIRECT && Ready() && held == {ind}
        invariant Freed(bits0, bits, f.data, NDIRECT + j)
        invariant Logged() == logged0 + BitmapOf(f.data[..Min(|f.data|, NDIRECT + j)], g.ninodes)
      {
        FreeOne(bits0, bits, f, NDIRECT + j);
        LoggedOne(f.data, NDIRECT + j, g.ninodes);
        var w := Word(blk[ind], j);
        assert w == Entry(f.data, NDIRECT + j);
        if w != 0 {
          Bfree(w);
        }
        j := j + 1;
      }
      AllFreed(bits0, bits, f, MAXFILE);
      WholeFile(f.data);
      LetGo(ind);
      assert held == {};
      Bfree(ind);
    }

    /**
     * iput.  When the last reference to an inode without links goes, its blocks are freed, exactly those,
     * and it is free on disk and no longer in memory.  As a transaction of its own the log takes it if and only if
     * it holds one sector more than are logged.
     */
    method Iput(i: nat, last: bool)
      requires Valid() && i < g.ninodes
      modifies this`bits, this`dinode, this`cache, this`txn, this`steps, this`held, this`files, this`own
      ensures Valid()
      ensures if last && i in old(cache) && old(cache)[i].nlink == 0 then
                && i !in cache && dinode[i].typ == 0 && Contents(i) == []
                && (forall b :: 0 <= b < g.size ==> bits[b] == (old(bits)[b] && !Uses(old(files)[i], b)))
                && dinode == old(dinode)[i := dinode[i]] && cache == old(cache) - {i}
                && (forall j :: 0 <= j < g.ninodes && j != i ==> Contents(j) == old(Contents(j)))
                && Logged() == old(Logged()) + PutSectors(old(Img()), i)
                && (old(txn) == [] ==>
                      (C.GoodTxn(g.Log(), disk0, txn) <==> |PutSectors(old(Img()), i)| < Capacity(g)))
              else unchanged(this)
    {
      hide OwnOk, RepsAll, AtRest, Uses, Bytes, Reaches, C.SectorsOf, PutSectors, Tracked, C.GoodTxn;
      if last && i in cache && cache[i].nlink == 0 {
        FreeInode(i);
        OthersKept(old(dinode), old(cache), old(files), old(blk), i);
      }
    }

    /** iput when it frees the inode. */
    method FreeInode(i: nat)
      requires Valid() && i in cache && i < |files|
      modifies this`bits, this`dinode, this`cache, this`txn, this`steps, this`held, this`files, this`own
      ensures Valid() && files == old(files)[i := File([], 0)]
      ensures forall b :: 0 <= b < g.size ==> bits[b] == (old(bits)[b] && !Uses(old(files)[i], b))
      ensures cache == old(cache) - {i} && i < |dinode| == |old(dinode)| && dinode == old(dinode)[i := dinode[i]]
      ensures dinode[i].typ == 0 && dinode[i].size == 0
      ensures Logged() == old(Logged()) + PutSectors(old(Img()), i)
      ensures old(txn) == [] ==> (C.GoodTxn(g.Log(), disk0, txn) <==> |PutSectors(old(Img()), i)| < Capacity(g))
    {
      hide OwnOk, RepsAll, Uses, Reaches, C.SectorsOf, PutSectors, Tracked, C.LastIsNew, C.GoodTxn, NoAddrs, SizeOk,
        Cur, AtRest;
      InMemory(i);
      NothingLogged();
      Itrunc(i);
      ghost var dinode1, cache1, txn1 := dinode, cache, txn;
      cache := cache[i := cache[i].(typ := 0)];
      Iupdate(i);
      assert txn == txn1 + [txn[|txn1|]];
      OwnSector(old(Img()), i);
      if old(txn) == [] {
        PutFitsIff(old(Img()), i, disk0, txn1, txn[|txn1|]);
      }
      cache := cache - {i};
      Unlinked(dinode1, cache1, i);
    }

    /** Dropping a freed inode from memory. */
    lemma Unlinked(dinode1: seq<Dinode>, cache1: map<nat, Dinode>, i: nat)
      requires i in cache1 && i < |dinode1| == |files| && cache1[i].size == 0
      requires RepsAll(blk, dinode1, cache1, files)
      requires forall j :: 0 <= j < |dinode1| ==> AtRest(dinode1, cache1, files, j)
      requires dinode == dinode1[i := cache1[i].(typ := 0)] && cache == cache1 - {i}
      ensures RepsAll(blk, dinode, cache, files)
      ensures forall j :: 0 <= j < |dinode| ==> AtRest(dinode, cache, files, j)
    {
      forall j | 0 <= j < |dinode|
        ensures AtRest(dinode, cache, files, j) && Reps(Cur(dinode, cache, j), blk, files[j])
      {
        assert AtRest(dinode1, cache1, files, j) && Reps(Cur(dinode1, cache1, j), blk, files[j]);
      }
    }

    /** Other files keep their bytes: their inodes, maps and blocks are the same. */
    lemma OthersKept(dinode0: seq<Dinode>, cache0: map<nat, Dinode>, files0: seq<File>, blk0: seq<Block>, i: nat)
      requires Valid() && blk == blk0 && |files0| == |files| == |dinode0| && i < |files0|
      requires files == files0[i := files[i]] && dinode == dinode0[i := dinode[i]]
      requires forall j :: j != i ==> (j in cache <==> j in cache0) && (j in cache ==> cache[j] == cache0[j])
      ensures forall j :: 0 <= j < g.ninodes && j != i ==>
                && Cur(dinode0, cache0, j).size <= |files0[j].data| * BSIZE && InRange(blk0, files0[j].data)
                && Contents(j) == Bytes(blk0, files0[j].data, Cur(dinode0, cache0, j).size)
    {
      forall j | 0 <= j < g.ninodes && j != i
        ensures Cur(dinode0, cache0, j).size <= |files0[j].data| * BSIZE && InRange(blk0, files0[j].data)
      {
        assert AtRest(dinode, cache, files, j) && FileOwned(own, j, files[j]);
      }
    }

    // ----- inodes in memory -----

    /** ilock's load of the inode from disk. */
    method Ilock(i: nat)
      requires Valid() && i < g.ninodes && dinode[i].typ != 0
      modifies this`cache
      ensures Valid() && i in cache && cache == old(cache)[i := dinode[i]]
      ensures forall j :: 0 <= j < g.ninodes ==> Contents(j) == old(Contents(j))
    {
      hide OwnOk, Reps, Bytes, SizeOk, Reaches, Tracked;
      assert AtRest(dinode, cache, files, i);
      if i !in cache {
        cache := cache[i := dinode[i]];
        SameInodes(old(cache));
        if cache[i].typ == 0 {
          assert false;
        }
      }
      assert cache == old(cache)[i := dinode[i]];
    }

    /** iget's recycling of a cache entry: nothing is lost, the disk has it all. */
    method Recycle(i: nat)
      requires Valid()
      modifies this`cache
      ensures Valid() && cache == old(cache) - {i}
      ensures forall j :: 0 <= j < g.ninodes ==> Contents(j) == old(Contents(j))
    {
      hide OwnOk, Reps, Bytes, SizeOk, Reaches, Tracked;
      assert i in cache ==> AtRest(dinode, cache, files, i);
      cache := cache - {i};
      SameInodes(old(cache));
    }

    /**
     * A restart between transactions: memory is lost, and every file is still there.  This is what writing
     * each inode through before its transaction ends is for.
     */
    method Restart()
      requires Valid()
      modifies this`cache
      ensures Valid() && cache == map[]
      ensures forall j :: 0 <= j < g.ninodes ==> Contents(j) == old(Contents(j))
    {
      hide OwnOk, Reps, Bytes, SizeOk, Reaches, Tracked;
      cache := map[];
      forall j | 0 <= j < |dinode|
        ensures Cur(dinode, cache, j) == Cur(dinode, old(cache), j)
      {
        assert AtRest(dinode, old(cache), files, j);
      }
      SameInodes(old(cache));
    }

    lemma EmptyFile(i: nat)
      requires Valid() && i < g.ninodes && Cur(dinode, cache, i).size == 0
      ensures i < |files| && |files[i].data| == 0 && |bits| == g.size
    {
      assert AtRest(dinode, cache, files, i);
    }

    lemma SameInodes(cache0: map<nat, Dinode>)
      requires Sized(Img()) && RepsAll(blk, dinode, cache0, files)
      requires forall j :: 0 <= j < |dinode| ==> AtRest(dinode, cache0, files, j)
      requires forall j :: 0 <= j < |dinode| ==> Cur(dinode, cache, j) == Cur(dinode, cache0, j)
      requires forall j :: j in cache ==> j in cache0 || (cache[j] == dinode[j] && cache[j].typ != 0)
      ensures RepsAll(blk, dinode, cache, files)
      ensures forall j :: 0 <= j < |dinode| ==> AtRest(dinode, cache, files, j)
    {
      forall j | 0 <= j < |dinode|
        ensures AtRest(dinode, cache, files, j) && Reps(Cur(dinode, cache, j), blk, files[j])
      {
        assert AtRest(dinode, cache0, files, j) && Reps(Cur(dinode, cache0, j), blk, files[j]);
      }
    }

    /** ialloc: the lowest free inode, never one in memory; it starts empty.  None is the panic. */
    method Ialloc(typ: short) returns (r: Option<nat>)
      requires Valid() && typ != 0
      modifies this`dinode, this`txn, this`steps
      ensures Valid()
      ensures r.None? ==> unchanged(this`dinode, this`txn) && forall k :: 1 <= k < g.ninodes ==> old(dinode)[k].typ != 0
      ensures r.Some? ==>
                && 1 <= r.value < g.ninodes && r.value !in cache && old(dinode)[r.value].typ == 0
                && (forall k :: 1 <= k < r.value ==> old(dinode)[k].typ != 0)
                && dinode == old(dinode)[r.value := Dinode(typ, 0, 0, 0, 0, NoAddrs())]
                && Contents(r.value) == [] && Logged() == old(Logged()) + {IBlock(r.value)}
                && forall j :: 0 <= j < g.ninodes && j != r.value ==> Contents(j) == old(Contents(j))
    {
      hide OwnOk, Reps, Bytes, SizeOk, RepsAll, Reaches, C.SectorsOf, Tracked;
      var inum := 1;
      while inum < g.ninodes
        invariant 1 <= inum && Valid() && unchanged(this`dinode, this`txn)
        invariant forall k :: 1 <= k < inum && k < g.ninodes ==> dinode[k].typ != 0
      {
        if dinode[inum].typ == 0 {
          FreeIsEmpty(inum, typ);
          SetDinode(inum, Dinode(typ, 0, 0, 0, 0, NoAddrs()));
          OthersKept(old(dinode), cache, files, blk, inum);
          return Some(inum);
        }
        LookAt([IBlock(inum)]);
        inum := inum + 1;
      }
      return None;
    }

    lemma FreeIsEmpty(i: nat, typ: short)
      requires Valid() && i < g.ninodes && dinode[i].typ == 0 && typ != 0
      ensures i !in cache && files[i] == File([], 0)
      ensures var dinode' := dinode[i := Dinode(typ, 0, 0, 0, 0, NoAddrs())];
              && RepsAll(blk, dinode', cache, files)
              && forall j :: 0 <= j < |dinode'| ==> AtRest(dinode', cache, files, j)
    {
      var dinode' := dinode[i := Dinode(typ, 0, 0, 0, 0, NoAddrs())];
      assert AtRest(dinode, cache, files, i);
      forall j | 0 <= j < |dinode'|
        ensures AtRest(dinode', cache, files, j) && Reps(Cur(dinode', cache, j), blk, files[j])
      {
        assert AtRest(dinode, cache, files, j) && Reps(Cur(dinode, cache, j), blk, files[j]);
      }
    }

    // ----- filewrite -----

    /**
     * One transaction of filewrite.  The sectors it logs are determined by the image before it, and with them
     * whether the log and the buffer cache can take it.
     */
    method WriteChunk(i: nat, src: seq<byte>, off: nat) returns (r: Outcome, ghost t: Trace)
      requires Valid() && i in cache && cache[i].typ != T_DEV && off < UINT && |src| <= CHUNK && txn == []
      modifies this`bits, this`blk, this`dinode, this`cache, this`txn, this`steps, this`held, this`files, this`own,
               this`disk0
      ensures r.Failed? <==> !WriteOk(old(cache)[i].size, off, |src|)
      ensures r.Failed? ==> Valid() && txn == [] && Img() == old(Img()) && disk0 == old(disk0)
      ensures r.OutOfBlocks? <==> NoRoom(old(Img()), i, off, |src|)
      ensures r.Written? ==>
                && r.n == |src| && Valid() && txn == [] && i in cache && cache[i].typ != T_DEV
                && Wrote(old(Img()), Img(), i, off, src)
                && L.InRange(old(disk0), LogsOf(t)) && disk0 == L.Applied(old(disk0), LogsOf(t))
                && ChunkOk(old(Img()), i, off, |src|) && ChunkTrace(old(Img()), i, off, |src|, old(disk0), t)
    {
      hide HasFree, ToAlloc, Blocks, WriteOk, Spliced, ContentsOf, ChunkSectors, C.GoodTxn, C.LastIsNew, C.SectorsOf,
        OwnOk, RepsAll, AtRest, Sized, Tame, ChunkTrace, Proper, LogsOf, HeldBy;
      InMemory(i);
      ghost var m := Img();
      steps := [];
      NothingLogged();
      r := Writei(i, src, off);
      t := steps;
      if r.Written? {
        Accepted(old(cache)[i].size, off, |src|);
        forall j | 0 <= j < g.ninodes && j != i ensures ContentsOf(Img(), j) == ContentsOf(m, j) {
          assert Contents(j) == old(Contents(j));
        }
        assert Wrote(m, Img(), i, off, src);
        IsChunkTrace(m, i, off, |src|, disk0, t);
        disk0, txn, steps := L.Applied(disk0, txn), [], [];
        L.AppliedNil(disk0);
      }
    }

    lemma NothingLogged()
      ensures C.SectorsOf([]) == {} && Tracked([], [], {}) && Tame([], g.Hi())
    {
    }

    lemma InMemory(i: nat)
      requires Valid() && i in cache
      ensures i < g.ninodes && i < |files| && |disk0| == g.size && Consistent(Img(), {}) && g.Ok()
      ensures txn == [] ==> Holds(disk0, Img())
    {
    }

    /**
     * filewrite on an inode, one transaction per chunk.  w bytes of src end up in the file, in order, and
     * the offset moves with them; all of them, unless the next chunk is one writei refuses.  The chunks are a
     * ChunkRun, so CrashDuringWrite applies to them, and log and buffer cache take them all if they have room for
     * the worst.
     */
    method Filewrite(i: nat, src: seq<byte>, off: nat)
      returns (r: Outcome, off': nat, ghost w: nat, ghost ts: seq<Trace>, ghost imgs: seq<Image>)
      requires Valid() && i in cache && cache[i].typ != T_DEV && off < UINT && |src| < 0x8000_0000 && txn == []
      modifies this`bits, this`blk, this`dinode, this`cache, this`txn, this`steps, this`held, this`files, this`own,
               this`disk0
      ensures off' == off + w && 0 < |imgs| == |ts| + 1 && imgs[0] == old(Img())
      ensures C.TxnsInRange(old(disk0), AllLogs(ts)) && w <= |src|
      ensures RunTo(old(disk0), ts, imgs, i, off, src, imgs[|ts|], C.AppliedAll(old(disk0), AllLogs(ts)), w)
      ensures r.OutOfBlocks? ==> NoRoom(imgs[|ts|], i, off', Min(|src| - w, CHUNK))
      ensures !r.OutOfBlocks? ==>
                && Valid() && txn == [] && i in cache && Img() == imgs[|ts|]
                && disk0 == C.AppliedAll(old(disk0), AllLogs(ts))
                && (r.Written? <==> w == |src|) && (r.Written? ==> r.n == |src|)
                && (r.Failed? ==> !WriteOk(cache[i].size, off', Min(|src| - w, CHUNK)))
    {
      hide Base, C.AppliedAll, L.Applied, RunTo, Wrote, Holds, Consistent, NoRoom, ChunkOk, ChunkTrace, WriteOk, LogsOf,
        AllLogs;
      var n, k := |src|, 0;
      off' := off;
      ts, imgs := [], [Img()];
      ghost var d0 := disk0;
      InMemory(i);
      BeginRun(Img(), disk0, i, off, src);
      while k < n
        invariant 0 <= k <= n && off' == off + k < UINT && Valid() && i in cache && cache[i].typ != T_DEV && txn == []
        invariant RunTo(d0, ts, imgs, i, off, src, Img(), disk0, k)
        invariant 0 < |imgs| && imgs[0] == old(Img())
      {
        var n1 := Min(n - k, CHUNK);
        ghost var m, d, t := Img(), disk0, [];
        CameTo(d0, ts, imgs, i, off, src, m, d, k);
        r, t := WriteChunk(i, src[k..k + n1], off');
        if r.OutOfBlocks? {
          w := k;
          return;
        }
        if r.Failed? {
          break;
        }
        if r.n != n1 {
          assert false;
        }
        InMemory(i);
        Accepted(m.cache[i].size, off', n1);
        AddChunk(d0, ts, imgs, i, off, src, m, d, k, t, Img(), n1);
        ts, imgs := ts + [t], imgs + [Img()];
        k, off' := k + n1, off' + n1;
      }
      w := k;
      CameTo(d0, ts, imgs, i, off, src, Img(), disk0, k);
      r := if k == n then Written(n) else Failed;
    }

    static lemma Accepted(size: nat, off: nat, n: nat)
      requires WriteOk(size, off, n)
      ensures off <= size && off + n < UINT
    {
    }
  }

  /** mkfs's bitmap once the one data block of a small image is a file's: the next block is the log's header. */
  method FullImage() returns (fs: FileSystem, b: Option<nat>)
    ensures fs.Valid() && fs.g == Geom(16, 8, 10) && fs.g.Log() == L.Log(6, 10)
    ensures forall c :: fs.g.Lo() <= c < fs.g.Hi() ==> fs.bits[c]
    ensures b == ScanFrom(fs.bits, 0) == Some(fs.g.Log().start)
  {
    hide FileSystem.Base, ContentsOf, Spliced, ChunkSectors, C.LastIsNew, HasFree, BitsAfter, ScanFrom;
    fs := new FileSystem(Geom(16, 8, 10));
    ghost var free := fs.dinode[1];
    var i := fs.Ialloc(1);
    fs.Ilock(i.value);
    fs.EmptyFile(i.value);
    OneFree(fs.bits);
    var r := fs.Writei(i.value, [0], 0);
    b := fs.FindFree();
  }

  lemma OneFree(bits: seq<bool>)
    requires |bits| == 16 && forall b :: 0 <= b < 16 ==> (bits[b] <==> b < 5)
    ensures ToAlloc(0, Blocks(1)) == 1 == ToAlloc(0, LastBlock(0, 1)) && HasFree(bits, 1, 6)
    ensures |BitsAfter(bits, 1)| == 16 && BitsAfter(bits, 1)[5] && ScanFrom(BitsAfter(bits, 1), 0) == Some(6)
  {
    ScanIs(bits, 5);
    AllocsOne(bits, 5);
    assert Allocs(bits, 1)[0] == 5;
    ScanIs(bits[5 := true], 6);
  }
}
