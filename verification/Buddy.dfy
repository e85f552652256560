/** The buddy allocator of src/buddy.c: seven orders, each with its own slice of one mark array.

    The class keeps the source's fields.  Its ghost fields are the abstract state: the free blocks
    and the live allocations of every order, and the list each order's head starts. */
module Buddy {
  import opened Params
  import opened Wrappers
  import opened Bits
  import opened DList
  import opened BuddyMarks
  import opened BuddyTiling

  const N_ORD := MAX_ORD - MIN_ORD + 1
  const MARK_SIZE := 8
  const HEAP_MAX := NIL * 2048   // bytes of heap whose marks have 16-bit indices other than NIL

  datatype Order = Order(head: nat, offset: nat)

  /** What a client asks: memory of an order, or to give back the block in one of its slots. */
  datatype Request = Malloc(order: nat) | Free(slot: nat)

  /** align_up(x, 1 << k) */
  function AlignUp(x: nat, k: nat): nat {
    Shl(Shr(x + Pow2(k) - 1, k), k)
  }

  lemma AlignUpBounds(x: nat, k: nat)
    ensures x <= AlignUp(x, k) < x + Pow2(k) && LowBitsZero(AlignUp(x, k), k)
  {
    RoundDown(x + Pow2(k) - 1, k);
    ShrShl(Shr(x + Pow2(k) - 1, k), k);
  }

  /** Byte x is in word w of mark i of an array at start: a mark is two 32-bit words, its links and its bitmap. */
  predicate InWord(start: nat, x: nat, i: nat, w: nat) {
    w < 2 && start + i * MARK_SIZE + 4 * w <= x < start + i * MARK_SIZE + 4 * (w + 1)
  }

  /** The bytes reserved for an array of marks are those of its words, and no two words share one. */
  lemma MarksTile(start: nat, total: nat, x: nat)
    ensures start <= x < start + total * MARK_SIZE <==> exists i: nat, w: nat :: i < total && InWord(start, x, i, w)
    ensures forall i: nat, w: nat, j: nat, v: nat ::
              InWord(start, x, i, w) && InWord(start, x, j, v) ==> i == j && w == v
  {
    if start <= x < start + total * MARK_SIZE {
      var d := x - start;
      assert InWord(start, x, d / MARK_SIZE, d % MARK_SIZE / 4);
    }
  }

  /** Heap block b of level k is below the 2^(TOP - k)-fold of the top-order blocks. */
  lemma {:induction false} BlockBound(top: nat, k: nat, b: nat)
    requires k <= TOP && Up(k, b, TOP) < top
    ensures b < Shl(top, TOP - k)
    decreases TOP - k
  {
    if k < TOP { BlockBound(top, k + 1, b / 2); }
  }

  ghost predicate NilIsNoIndex(top: nat) {
    forall k: nat, b: nat {:trigger Up(k, b, TOP)} :: k <= TOP && Up(k, b, TOP) < top ==> b / 32 < NIL
  }

  /** No block of the heap has a mark with the 16-bit index NIL, or a higher one, if and only if the heap has at most
      NIL * 2048 bytes: a mark of the lowest order describes 32 blocks of 64 bytes. */
  lemma NilIsNoIndexIff(top: nat)
    ensures NilIsNoIndex(top) <==> Shl(top, MAX_ORD) <= HEAP_MAX
  {
    ShlIsTimes(top, MAX_ORD);
    assert Pow2(MAX_ORD) == 4096;
    if top <= 32767 {
      forall k: nat, b: nat | k <= TOP && Up(k, b, TOP) < top ensures b / 32 < NIL {
        BlockBound(top, k, b);
        ShlIsTimes(top, TOP - k);
        Pow2Least(k);
      }
    } else {
      var b := 32 * NIL;
      assert Up(2, b / 2 / 2, TOP) == Up(4, b / 2 / 2 / 2 / 2, TOP) == b / 2 / 2 / 2 / 2 / 2 / 2 == 32767;
      assert Up(0, b, TOP) < top;
    }
  }

  lemma Pow2Least(k: nat)
    requires k <= TOP
    ensures 1 <= Pow2(TOP - k) <= 64
  {
    assert Pow2(6) == 64 && Pow2(5) == 32 && Pow2(4) == 16 && Pow2(3) == 8 && Pow2(2) == 4 && Pow2(1) == 2;
  }

  /** Mark slices of all levels: disjoint, inside the array, */
  ghost predicate Slices(offs: seq<nat>, lens: seq<nat>, total: nat) {
    && |offs| == N_ORD && |lens| == N_ORD
    && (forall k :: 0 <= k <= TOP ==> offs[k] + lens[k] <= total)
    && (forall j, k :: 0 <= j < k <= TOP ==> offs[k] + lens[k] <= offs[j])
  }

  /** and indexable in 16 bits. */
  ghost predicate Layout(offs: seq<nat>, lens: seq<nat>, total: nat) {
    Slices(offs, lens, total) && forall k :: 0 <= k <= TOP ==> lens[k] <= NIL
  }

  /** The marks of a slice that a link can name. */
  function Capped(counts: seq<nat>): (lens: seq<nat>)
    ensures |lens| == |counts| && forall k :: 0 <= k < |lens| ==> lens[k] <= NIL && lens[k] <= counts[k]
  {
    seq<nat>(|counts|, k requires 0 <= k < |counts| => if counts[k] < NIL then counts[k] else NIL)
  }

  /** Every block of the heap has a mark. */
  ghost predicate HaveMarks(lens: seq<nat>, top: nat) {
    && |lens| == N_ORD
    && forall k: nat, b: nat {:trigger Up(k, b, TOP)} :: k <= TOP && Up(k, b, TOP) < top ==> b / 32 < lens[k]
  }

  lemma CappedMarked(counts: seq<nat>, top: nat)
    requires Enough(counts, top) && Shl(top, MAX_ORD) <= HEAP_MAX
    ensures HaveMarks(Capped(counts), top)
  {
    NilIsNoIndexIff(top);
    forall k: nat, b: nat | k <= TOP && Up(k, b, TOP) < top ensures b / 32 < Capped(counts)[k] {
      BlockHasMark(counts, top, k, b);
    }
  }

  /** Each order has twice the marks of the next; the top order has enough for all its blocks. */
  ghost predicate Enough(lens: seq<nat>, top: nat) {
    && |lens| == N_ORD && top <= 32 * lens[TOP]
    && forall k :: 0 <= k < TOP ==> lens[k] == 2 * lens[k + 1]
  }

  /** A block of the heap has a mark. */
  lemma {:induction false} BlockHasMark(lens: seq<nat>, top: nat, k: nat, b: nat)
    requires Enough(lens, top) && k <= TOP && Up(k, b, TOP) < top
    ensures b / 32 < lens[k]
    decreases TOP - k
  {
    if k < TOP { BlockHasMark(lens, top, k + 1, b / 2); }
  }

  /** Slices laid out so far, lowest order first, when `total` marks are used and the next order
      needs `cnt` of them. */
  ghost predicate Stacked(ords: seq<Order>, offs: seq<nat>, lens: seq<nat>, n: nat, total: nat, cnt: nat) {
    && |ords| == |offs| == |lens|
    && (forall q :: 0 <= q < |ords| ==>
          ords[q] == Order(NIL, offs[q]) && offs[q] + lens[q] <= total && 2 * lens[q] <= cnt)
    && (forall p, q :: 0 <= p < q < |ords| ==> offs[q] + lens[q] <= offs[p])
    && (forall q :: 0 <= q < |lens| - 1 ==> lens[q] == 2 * lens[q + 1])
    && (if lens == [] then cnt == n else cnt == 2 * lens[0] && lens[|lens| - 1] == n)
  }

  lemma StackedNext(ords: seq<Order>, offs: seq<nat>, lens: seq<nat>, n: nat, total: nat, cnt: nat)
    requires Stacked(ords, offs, lens, n, total, cnt)
    ensures Stacked([Order(NIL, total)] + ords, [total] + offs, [cnt] + lens, n, total + cnt, 2 * cnt)
  {
    var ords', offs', lens' := [Order(NIL, total)] + ords, [total] + offs, [cnt] + lens;
    forall q | 0 <= q < |ords'|
      ensures ords'[q] == Order(NIL, offs'[q]) && offs'[q] + lens'[q] <= total + cnt && lens'[q] <= cnt
      ensures forall p :: 0 <= p < q ==> offs'[q] + lens'[q] <= offs'[p]
    {
      if q > 0 {
        assert ords'[q] == ords[q - 1] && offs'[q] == offs[q - 1] && lens'[q] == lens[q - 1];
        assert forall p :: 0 < p < q ==> offs'[p] == offs[p - 1];
      }
    }
    forall q | 0 <= q < |lens'| - 1
      ensures lens'[q] == 2 * lens'[q + 1]
    {
      if q > 0 { assert lens[q - 1] == 2 * lens[q]; }
    }
  }

  function TotalMarks(n: nat): nat { 127 * n }

  /** Where kmem_init2 puts the heap: after the marks of all orders, page aligned. */
  function HeapStart(vstart: nat, vend: nat): nat
    requires vstart <= vend
  {
    AlignUp(vstart + TotalMarks(Shr(vend - vstart, MAX_ORD + 5) + 1) * MARK_SIZE, MAX_ORD)
  }

  lemma StackedNone(n: nat)
    ensures Stacked([], [], [], n, 0, n)
  {
  }

  lemma StackedAll(ords: seq<Order>, offs: seq<nat>, lens: seq<nat>, n: nat, total: nat, cnt: nat)
    requires Stacked(ords, offs, lens, n, total, cnt) && |ords| == N_ORD && cnt == Shl(n, N_ORD) == total + n
    ensures Slices(offs, lens, total) && total == TotalMarks(n)
    ensures forall k :: 0 <= k <= TOP ==> ords[k] == Order(NIL, offs[k])
    ensures lens[TOP] == n && forall k :: 0 <= k < TOP ==> lens[k] == 2 * lens[k + 1]
  {
    ShlIsTimes(n, N_ORD);
    assert Pow2(N_ORD) == 128;
  }

  /** The heap that is left after the marks has no more top-order blocks than they can describe. */
  lemma MarksSuffice(len: nat, n: nat, heap: nat)
    requires n == Shr(len, MAX_ORD + 5) + 1 && heap <= len
    ensures Shr(heap, MAX_ORD) <= 32 * n
  {
    hide Shr, Shl;
    RoundDown(len, MAX_ORD + 5);
    ShlIsTimes(n - 1, MAX_ORD + 5);
    RoundDown(heap, MAX_ORD);
    ShlIsTimes(Shr(heap, MAX_ORD), MAX_ORD);
    assert Pow2(MAX_ORD + 5) == 0x2_0000 && Pow2(MAX_ORD) == 0x1000;
  }

  lemma AlignedHeap(startHeap: nat, end: nat)
    requires startHeap <= end && LowBitsZero(startHeap, MAX_ORD) && LowBitsZero(end, MAX_ORD)
    ensures startHeap + Shl(Shr(end - startHeap, MAX_ORD), MAX_ORD) == end
  {
    RoundDown(startHeap, MAX_ORD);
    RoundDown(end, MAX_ORD);
    var s, e := Shr(startHeap, MAX_ORD), Shr(end, MAX_ORD);
    if e < s { ShlStrict(e, s, MAX_ORD); }
    ShlAdd(s, e - s, MAX_ORD);
    ShrShl(e - s, MAX_ORD);
  }

  /** Cleared marks represent an order without free blocks. */
  lemma ClearLevel(m: seq<Mark>)
    requires |m| <= NIL && forall i :: 0 <= i < |m| ==> m[i] == Mark(Lnks(NIL, NIL), 0)
    ensures LevelRep(m, NIL, [], {})
  {
    hide Lnks, PreLnk, NextLnk, Bit;
    LnksRoundTrip(NIL, NIL);
    forall j: nat ensures !Bit(0, j) { ZeroHasNoBit(j); }
    assert Mapped(m, {});
    assert Linked(Pres(m), Nexts(m), NIL, [], NIL);
  }

  // ----- slices of the mark array -----

  lemma StoreInRange<T>(m: seq<T>, off: nat, len: nat, i: nat, v: T)
    requires off + len <= |m| && i < len
    ensures m[off + i := v][off..off + len] == m[off..off + len][i := v]
  {
  }

  lemma StoreOutsideRange<T>(m: seq<T>, off: nat, len: nat, at: nat, v: T)
    requires off + len <= |m| && at < |m| && !(off <= at < off + len)
    ensures m[at := v][off..off + len] == m[off..off + len]
  {
  }

  /** One order: its list is chained through its slice and its bitmaps record its free blocks. */
  ghost predicate LevelRep(m: seq<Mark>, head: nat, list: seq<nat>, free: set<nat>) {
    Chained(m, head, list) && Mapped(m, free)
  }

  // ----- the abstract effect of splitting and merging on the live set -----

  lemma SplitLeavesLowerHalf(live: Levels, k: nat, a: nat)
    requires k < TOP && a !in live[k + 1] && 2 * a + 1 !in live[k]
    ensures Without(Halved(With(live, k + 1, a), k, a), k, 2 * a + 1) == With(live, k, 2 * a)
  {
    var l := Without(Halved(With(live, k + 1, a), k, a), k, 2 * a + 1);
    assert l[k + 1] == live[k + 1];
    assert l[k] == live[k] + {2 * a};
  }

  lemma MergeLeavesNothing(live: Levels, k: nat, b: nat)
    requires k < TOP && b in live[k] && Buddy(b) !in live[k] && b / 2 !in live[k + 1]
    ensures Without(Joined(With(live, k, Buddy(b)), k, b), k + 1, b / 2) == Without(live, k, b)
  {
    var l := Without(Joined(With(live, k, Buddy(b)), k, b), k + 1, b / 2);
    assert l[k + 1] == live[k + 1];
    assert l[k] == live[k] - {b};
  }

  lemma TakeEffect(free: Levels, live: Levels, top: nat, k: nat, b: nat)
    requires Tiled(free, live, top) && k <= TOP && b in free[k]
    ensures Tiled(Without(free, k, b), With(live, k, b), top) && WhollyIn(free, k, b) && b !in live[k]
    ensures forall u: nat :: UnitIn(Without(free, k, b), u) <==> UnitIn(free, u) && Up(0, u, k) != b
  {
    TakeKeepsTiling(free, live, top, k, b);
    TiledFreeNoOverlap(free, live, top);
    forall u: nat
      ensures UnitIn(Without(free, k, b), u) <==> UnitIn(free, u) && Up(0, u, k) != b
    {
      WithoutUnits(free, k, b, u);
    }
  }

  lemma ReleaseEffect(free: Levels, live: Levels, top: nat, k: nat, b: nat)
    requires Tiled(free, live, top) && k <= TOP && b in live[k] && (k == TOP || Buddy(b) !in free[k])
    ensures Tiled(With(free, k, b), Without(live, k, b), top)
    ensures forall u: nat :: UnitIn(With(free, k, b), u) <==> UnitIn(free, u) || Up(0, u, k) == b
  {
    ReleaseKeepsTiling(free, live, top, k, b);
    forall u: nat
      ensures UnitIn(With(free, k, b), u) <==> UnitIn(free, u) || Up(0, u, k) == b
    {
      WithUnits(free, k, b, u);
    }
  }

  /** Merging with a free buddy: take it, and join the two live halves. */
  lemma MergeEffect(free: Levels, live: Levels, top: nat, k: nat, b: nat)
    requires Tiled(free, live, top) && k < TOP && b in live[k] && Buddy(b) in free[k]
    ensures Tiled(Without(free, k, Buddy(b)), Joined(With(live, k, Buddy(b)), k, b), top)
    ensures b / 2 in Joined(With(live, k, Buddy(b)), k, b)[k + 1]
    ensures Without(Joined(With(live, k, Buddy(b)), k, b), k + 1, b / 2) == Without(live, k, b)
  {
    TakeKeepsTiling(free, live, top, k, Buddy(b));
    JoinedKeepsTiling(Without(free, k, Buddy(b)), With(live, k, Buddy(b)), top, k, b);
    JoinedMembers(With(live, k, Buddy(b)), k, b, k + 1, b / 2);
    assert Up(k, b, k + 1) == b / 2;
    MergeLeavesNothing(live, k, b);
  }

  /** Splitting a block just taken: two live halves, of which the upper one is to be released. */
  lemma SplitEffect(free: Levels, live: Levels, top: nat, k: nat, a: nat)
    requires k < TOP && a !in live[k + 1] && Tiled(free, With(live, k + 1, a), top)
    ensures Tiled(free, Halved(With(live, k + 1, a), k, a), top)
    ensures 2 * a + 1 in Halved(With(live, k + 1, a), k, a)[k] && 2 * a !in live[k]
    ensures Without(Halved(With(live, k + 1, a), k, a), k, 2 * a + 1) == With(live, k, 2 * a)
  {
    var l := With(live, k + 1, a);
    HalvesAreNew(free, l, k, a);
    HalvedKeepsTiling(free, l, top, k, a);
    HalvedMembers(l, k, a, k, 2 * a + 1);
    SplitLeavesLowerHalf(live, k, a);
  }

  lemma SplitUnits(free0: Levels, free1: Levels, free2: Levels, k: nat, a: nat)
    requires k < TOP && WhollyIn(free0, k + 1, a)
    requires forall u: nat :: UnitIn(free1, u) <==> UnitIn(free0, u) && Up(0, u, k + 1) != a
    requires forall u: nat :: UnitIn(free2, u) <==> UnitIn(free1, u) || Up(0, u, k) == 2 * a + 1
    ensures WhollyIn(free0, k, 2 * a)
    ensures forall u: nat :: UnitIn(free2, u) <==> UnitIn(free0, u) && Up(0, u, k) != 2 * a
  {
    HalvesAreIn(free0, k + 1, a);
    forall u: nat
      ensures UnitIn(free2, u) <==> UnitIn(free0, u) && Up(0, u, k) != 2 * a
    {
      UpStep(0, u, k);
    }
  }

  lemma MergeUnits(free0: Levels, free1: Levels, free2: Levels, k: nat, b: nat)
    requires k < TOP && NoOverlap(free0) && Buddy(b) in free0[k] && free1 == Without(free0, k, Buddy(b))
    requires forall u: nat :: UnitIn(free2, u) <==> UnitIn(free1, u) || Up(0, u, k + 1) == b / 2
    ensures forall u: nat :: UnitIn(free2, u) <==> UnitIn(free0, u) || Up(0, u, k) == b
  {
    forall u: nat
      ensures UnitIn(free2, u) <==> UnitIn(free0, u) || Up(0, u, k) == b
    {
      UpStep(0, u, k);
      WithoutUnits(free0, k, Buddy(b), u);
      var x := Up(0, u, k);
      assert x / 2 == b / 2 <==> x == b || x == Buddy(b);
    }
  }

  lemma TakenAndReturned(free0: Levels, free2: Levels, k: nat, b: nat)
    requires k <= TOP && WhollyIn(free0, k, b)
    requires forall u: nat :: UnitIn(free2, u) <==> (UnitIn(free0, u) && Up(0, u, k) != b) || Up(0, u, k) == b
    ensures forall u: nat :: UnitIn(free0, u) <==> UnitIn(free2, u)
  {
  }

  lemma {:induction false} ShlMonotone(x: nat, y: nat, k: nat)
    requires x <= y
    ensures Shl(x, k) <= Shl(y, k)
  {
    if k > 0 { ShlMonotone(x, y, k - 1); }
  }

  lemma {:induction false} ShlStrict(x: nat, y: nat, k: nat)
    requires x < y
    ensures Shl(x, k) < Shl(y, k)
  {
    if k > 0 { ShlStrict(x, y, k - 1); }
  }

  lemma BlockIsAligned(startHeap: nat, order: nat, b: nat)
    requires order <= MAX_ORD && LowBitsZero(startHeap, MAX_ORD)
    ensures LowBitsZero(startHeap + Shl(b, order), order)
  {
    hide LowBitsZero, Shl, Shr;
    RoundDown(startHeap, MAX_ORD);
    var s := Shr(startHeap, MAX_ORD);
    ShlComposes(s, MAX_ORD - order, order);
    ShlAdd(Shl(s, MAX_ORD - order), b, order);
    ShrShl(Shl(s, MAX_ORD - order) + b, order);
  }

  predicate SameBitmaps(m: seq<Mark>, m': seq<Mark>) {
    |m| == |m'| && forall i :: 0 <= i < |m| ==> m[i].bitmap == m'[i].bitmap
  }

  lemma LevelRepDeterminesBitmaps(m: seq<Mark>, head: nat, list: seq<nat>,
                                  m': seq<Mark>, head': nat, list': seq<nat>, free: set<nat>)
    requires LevelRep(m, head, list, free) && LevelRep(m', head', list', free) && |m| == |m'|
    ensures SameBitmaps(m, m')
  {
    FreeBlocksDetermineBitmaps(m, m', free);
  }

  // ----- facts about one order's list -----

  lemma ChainedHead(m: seq<Mark>, head: nat, list: seq<nat>)
    requires Chained(m, head, list)
    ensures head != NIL ==> head < |m| && m[head].bitmap != 0
  {
    if list != [] { assert list[0] in list; }
  }

  /** The first mark of a list has a bit set, */
  lemma HeadBit(m: seq<Mark>, head: nat, list: seq<nat>, free: set<nat>) returns (j: nat)
    requires LevelRep(m, head, list, free) && head != NIL
    ensures head < |m| && m[head].bitmap != 0 && Bit(m[head].bitmap, j)
  {
    ChainedHead(m, head, list);
    j := NonZeroHasBit(m[head].bitmap);
  }

  /** and each bit set is a free block, among the 32 of the mark. */
  lemma BitIsFree(m: seq<Mark>, head: nat, list: seq<nat>, free: set<nat>, i: nat)
    requires LevelRep(m, head, list, free) && head < |m| && Bit(m[head].bitmap, i)
    ensures i < 32 && head * 32 + i in free
  {
    var b := head * 32 + i;
    assert i < 32;
    assert b / 32 == head && b % 32 == i;
  }

  lemma LevelFacts(m: seq<Mark>, head: nat, list: seq<nat>, free: set<nat>, b: nat)
    requires LevelRep(m, head, list, free)
    ensures head == NIL <==> free == {}
    ensures b / 32 < |m| ==> (Bit(m[b / 32].bitmap, b % 32) <==> b in free)
  {
    EmptyIffNoneFree(m, head, list, free);
  }

  /** A live block has a mark, is not free, and has a free buddy only if that is not live too. */
  lemma LiveFacts(free: Levels, live: Levels, top: nat, lens: seq<nat>, k: nat, b: nat)
    requires Tiled(free, live, top) && HaveMarks(lens, top) && k <= TOP && b in live[k]
    ensures b / 32 < lens[k] && b !in free[k]
    ensures Buddy(b) in free[k] ==> Buddy(b) !in live[k]
    ensures k < TOP ==> b / 2 !in live[k + 1]
    ensures NoOverlap(free)
  {
    if k < TOP { assert Up(k, b, k + 1) == b / 2; }
  }

  /** What mark_blk leaves behind represents one more free block. */
  lemma MarkEffect(m: seq<Mark>, head: nat, list: seq<nat>, free: set<nat>, b: nat) returns (list': seq<nat>)
    requires LevelRep(m, head, list, free) && b / 32 < |m|
    ensures head == NIL || head < |m|
    ensures LevelRep(Marked(m, head, b), if m[b / 32].bitmap == 0 then b / 32 else head, list', free + {b})
  {
    ChainedHead(m, head, list);
    MarkedMapped(m, head, b, free);
    if m[b / 32].bitmap == 0 {
      PushedChained(m, head, list, b);
      list' := [b / 32] + list;
    } else {
      MarkedAgainChained(m, head, list, b);
      list' := list;
    }
  }

  /** What unmark_blk leaves behind represents one free block fewer. */
  lemma UnmarkEffect(m: seq<Mark>, head: nat, list: seq<nat>, free: set<nat>, b: nat) returns (list': seq<nat>)
    requires LevelRep(m, head, list, free) && b in free
    ensures b / 32 < |m| && LinksInside(m, b / 32) && Bit(m[b / 32].bitmap, b % 32)
    ensures var pre, next := PreLnk(m[b / 32].lnks), NextLnk(m[b / 32].lnks);
            && pre != b / 32 && next != b / 32 && (pre == NIL || pre != next)
            && (pre == NIL ==> head == b / 32)
            && LevelRep(Unmarked(m, b),
                        if pre == NIL && ClearBit(m[b / 32].bitmap, b % 32) == 0 then next else head,
                        list', free - {b})
  {
    ZeroHasNoBit(b % 32);
    var j :| 0 <= j < |list| && list[j] == b / 32;
    LinksOf(m, head, list, j);
    UnmarkedMapped(m, b, free);
    if ClearBit(m[b / 32].bitmap, b % 32) == 0 {
      RemovedChained(m, head, list, j, b);
      list' := Removed(list, j);
    } else {
      UnmarkedStillChained(m, head, list, b);
      list' := list;
    }
  }

  /** The first loop of kmem_init2: one slice per order, highest order first. */
  method LayOut(n: nat) returns (ords: seq<Order>, total: nat, ghost offs: seq<nat>, ghost lens: seq<nat>)
    ensures |ords| == N_ORD && Slices(offs, lens, total) && total == TotalMarks(n)
    ensures forall k :: 0 <= k <= TOP ==> ords[k] == Order(NIL, offs[k])
    ensures lens[TOP] == n && forall k :: 0 <= k < TOP ==> lens[k] == 2 * lens[k + 1]
  {
    hide Stacked;
    ords, offs, lens := [], [], [];
    StackedNone(n);
    var cnt: nat;
    total, cnt := 0, n;
    var i := N_ORD;
    while i > 0
      invariant 0 <= i <= N_ORD && |ords| == N_ORD - i
      invariant Stacked(ords, offs, lens, n, total, cnt)
      invariant cnt == Shl(n, N_ORD - i) == total + n
    {
      i := i - 1;
      StackedNext(ords, offs, lens, n, total, cnt);
      ords, offs, lens := [Order(NIL, total)] + ords, [total] + offs, [cnt] + lens;
      total := total + cnt;
      cnt := 2 * cnt;
    }
    StackedAll(ords, offs, lens, n, total, cnt);
  }

  /** Top-order blocks in the heap. */
  function HeapBlocks(vstart: nat, vend: nat): nat
    requires vstart <= vend
  {
    var heap := HeapStart(vstart, vend);
    if heap < vend then Shr(vend - heap, MAX_ORD) else 0
  }

  /** The marks kmem_init2 lays out end before the heap and do for all its blocks. */
  lemma RoomForMarks(vstart: nat, vend: nat, n: nat, offs: seq<nat>, counts: seq<nat>)
    requires vstart <= vend <= HeapStart(vstart, vend) + HEAP_MAX && LowBitsZero(vend, MAX_ORD)
    requires n == Shr(vend - vstart, MAX_ORD + 5) + 1 && Slices(offs, counts, TotalMarks(n)) && counts[TOP] == n
    requires forall k :: 0 <= k < TOP ==> counts[k] == 2 * counts[k + 1]
    ensures Layout(offs, Capped(counts), TotalMarks(n)) && HaveMarks(Capped(counts), HeapBlocks(vstart, vend))
    ensures vstart + TotalMarks(n) * MARK_SIZE <= HeapStart(vstart, vend)
    ensures LowBitsZero(HeapStart(vstart, vend), MAX_ORD)
    ensures HeapStart(vstart, vend) < vend ==>
              HeapStart(vstart, vend) + Shl(HeapBlocks(vstart, vend), MAX_ORD) == vend
  {
    hide HaveMarks, Shr, Shl, LowBitsZero, AlignUp, Pow2;
    var heap, blocks := HeapStart(vstart, vend), HeapBlocks(vstart, vend);
    AlignUpBounds(vstart + TotalMarks(n) * MARK_SIZE, MAX_ORD);
    if heap < vend {
      MarksSuffice(vend - vstart, n, vend - heap);
      AlignedHeap(heap, vend);
    } else {
      ShlIsTimes(0, MAX_ORD);
    }
    CappedMarked(counts, blocks);
  }

  class Kmem {
    const start: nat        // start of memory for marks
    const startHeap: nat    // start of allocatable memory
    const end: nat
    const marks: array<Mark>
    var orders: seq<Order>

    ghost const offs: seq<nat>   // where each order's slice of the marks starts
    ghost const lens: seq<nat>   // and how many marks it has
    ghost const top: nat         // top-order blocks in the heap
    ghost var free: Levels
    ghost var live: Levels
    ghost var lists: seq<seq<nat>>

    ghost predicate Shape()
      reads this
    {
      && Layout(offs, lens, marks.Length)
      && |orders| == N_ORD && |lists| == N_ORD
      && forall k :: 0 <= k <= TOP ==> orders[k].offset == offs[k]
    }

    /** Level k's slice of the mark array. */
    ghost function Slice(k: nat): (r: seq<Mark>)
      requires Layout(offs, lens, marks.Length) && k <= TOP
      reads marks
      ensures |r| == lens[k]
    {
      marks[offs[k]..offs[k] + lens[k]]
    }

    /** Bitmaps and lists of every order represent the free blocks. */
    ghost predicate Represents()
      reads this, marks
    {
      && Shape()
      && forall k :: 0 <= k <= TOP ==> LevelRep(Slice(k), orders[k].head, lists[k], free[k])
    }

    /** The allocator's invariant: a faithful representation of a merged tiling of the heap. */
    ghost predicate Valid()
      reads this, marks
    {
      && Represents() && HaveMarks(lens, top) && Tiled(free, live, top)
      && LowBitsZero(startHeap, MAX_ORD) && start + marks.Length * MARK_SIZE <= startHeap
    }

    function BlkMem(order: nat, b: nat): nat
    {
      startHeap + Shl(b, order)
    }

    function MemBlk(order: nat, mem: nat): nat
      requires mem >= startHeap
    {
      Shr(mem - startHeap, order)
    }

    /** mem is the address of a live allocation of this order. */
    ghost predicate IsLive(mem: nat, order: nat)
      requires MIN_ORD <= order <= MAX_ORD
      reads this
    {
      exists b :: b in live[order - MIN_ORD] && mem == BlkMem(order, b)
    }

    lemma MemBlkOf(order: nat, b: nat)
      ensures MemBlk(order, BlkMem(order, b)) == b
    {
      ShrShl(b, order);
    }

    /** The upper half of a block is the block that starts half a block further on. */
    lemma HalvesInMemory(order: nat, a: nat)
      ensures BlkMem(order, 2 * a) == BlkMem(order + 1, a)
      ensures BlkMem(order, 2 * a + 1) == BlkMem(order + 1, a) + Pow2(order)
    {
      ShlDouble(a, order);
      ShlAdd(2 * a, 1, order);
      ShlOne(order);
    }

    /** kmem_init2: lay out and clear the marks, then free every top-order block of the heap.
        Afterwards all heap units are free, nothing is live, and the marks end where the heap starts. */
    constructor (vstart: nat, vend: nat)
      requires vstart <= vend <= HeapStart(vstart, vend) + HEAP_MAX && LowBitsZero(vend, MAX_ORD)
      ensures Valid() && fresh(marks) && start == vstart && end == vend && startHeap == HeapStart(vstart, vend)
      ensures live == [{}, {}, {}, {}, {}, {}, {}]
      ensures forall u: nat :: UnitIn(free, u) <==> Up(0, u, TOP) < top
      ensures startHeap < end ==> startHeap + Shl(top, MAX_ORD) == end
      ensures startHeap >= end ==> top == 0
    {
      hide LevelRep, Tiled, Shr, Shl, LowBitsZero, HaveMarks, UnitIn, Up, AlignUp, TotalMarks, Capped, Slices, AllLive,
        Pow2;
      var n := Shr(vend - vstart, MAX_ORD + 5) + 1;
      var ords, total;
      ghost var offsets, counts;
      ords, total, offsets, counts := LayOut(n);
      RoomForMarks(vstart, vend, n, offsets, counts);
      start, end := vstart, vend;
      var heap := AlignUp(vstart + total * MARK_SIZE, MAX_ORD);
      startHeap := heap;
      marks := new Mark[total];
      orders := ords;
      offs, lens := offsets, Capped(counts);
      ghost var blocks := HeapBlocks(vstart, vend);
      top := blocks;
      lists := [[], [], [], [], [], [], []];
      free, live := [{}, {}, {}, {}, {}, {}, {}], AllLive(blocks);
      new;
      ClearMarks();
      AllLiveIsTiled(top);
      FreeHeap();
    }

    /** The inner loop of kmem_init2: all blocks of all orders unavailable. */
    method ClearMarks()
      requires Shape() && forall k :: 0 <= k <= TOP ==> orders[k].head == NIL && lists[k] == [] && free[k] == {}
      modifies marks
      ensures Represents()
    {
      hide LevelRep, Lnks;
      var j := 0;
      while j < marks.Length
        invariant 0 <= j <= marks.Length
        invariant forall c :: 0 <= c < j ==> marks[c] == Mark(Lnks(NIL, NIL), 0)
      {
        marks[j] := Mark(Lnks(NIL, NIL), 0);
        j := j + 1;
      }
      forall k | 0 <= k <= TOP
        ensures LevelRep(Slice(k), orders[k].head, lists[k], free[k])
      {
        ClearLevel(Slice(k));
      }
    }

    /** The last loop of kmem_init2. */
    method FreeHeap()
      requires Valid() && free == [{}, {}, {}, {}, {}, {}, {}] && live == AllLive(top)
      requires if startHeap < end then startHeap + Shl(top, MAX_ORD) == end else top == 0
      modifies this`orders, this`free, this`lists, this`live, marks
      ensures Valid() && live == [{}, {}, {}, {}, {}, {}, {}]
      ensures forall u: nat :: UnitIn(free, u) <==> Up(0, u, TOP) < top
    {
      hide LevelRep, Tiled, Up, HaveMarks, LowBitsZero, UnitIn, Shl, Shr;
      var mem := startHeap;
      ghost var done := 0;
      ShlIsTimes(0, MAX_ORD);
      NoUnitsInEmpty();
      while mem < end
        invariant Valid() && done <= top && mem == BlkMem(MAX_ORD, done)
        invariant forall k :: 0 <= k < TOP ==> live[k] == {}
        invariant forall b: nat :: b in live[TOP] <==> done <= b < top
        invariant forall u: nat :: UnitIn(free, u) <==> Up(0, u, TOP) < done
        decreases end - mem
      {
        assert done in live[TOP];
        MemBlkOf(MAX_ORD, done);
        KFree(mem, MAX_ORD);
        mem := mem + Pow2(MAX_ORD);
        ShlAdd(done, 1, MAX_ORD);
        ShlOne(MAX_ORD);
        done := done + 1;
      }
      if done < top {
        ShlStrict(done, top, MAX_ORD);
      }
      assert live[TOP] == {};
    }

    // ----- get_mark and writes through it -----

    method GetMark(order: nat, idx: nat) returns (mk: Mark)
      requires Shape() && MIN_ORD <= order <= MAX_ORD && idx < lens[order - MIN_ORD]
      ensures mk == Slice(order - MIN_ORD)[idx]
    {
      mk := marks[orders[order - MIN_ORD].offset + idx];
    }

    method SetMark(order: nat, idx: nat, mk: Mark)
      requires Shape() && MIN_ORD <= order <= MAX_ORD && idx < lens[order - MIN_ORD]
      modifies marks
      ensures Slice(order - MIN_ORD) == old(Slice(order - MIN_ORD))[idx := mk]
      ensures forall k :: 0 <= k <= TOP && k != order - MIN_ORD ==> Slice(k) == old(Slice(k))
    {
      var level := order - MIN_ORD;
      ghost var m := marks[..];
      marks[orders[level].offset + idx] := mk;
      assert marks[..] == m[offs[level] + idx := mk];
      StoreInRange(m, offs[level], lens[level], idx, mk);
      forall k | 0 <= k <= TOP && k != level
        ensures Slice(k) == old(Slice(k))
      {
        StoreOutsideRange(m, offs[k], lens[k], offs[level] + idx, mk);
      }
    }

    // ----- mark_blk and unmark_blk -----

    method MarkBlk(order: nat, blkId: nat)
      requires Represents() && MIN_ORD <= order <= MAX_ORD
      requires blkId / 32 < lens[order - MIN_ORD] && blkId !in free[order - MIN_ORD]
      modifies this`orders, this`free, this`lists, marks
      ensures Represents()
      ensures free == With(old(free), order - MIN_ORD, blkId)
    {
      hide LevelRep, Bit, SetBit, Lnks, NextLnk;
      var k, idx := order - MIN_ORD, blkId / 32;
      ghost var m0, head0 := Slice(k), orders[k].head;
      LevelFacts(m0, head0, lists[k], free[k], blkId);
      ghost var list := MarkEffect(m0, head0, lists[k], free[k], blkId);
      var mk := GetMark(order, idx);
      var insert := mk.bitmap == 0;

      if Bit(mk.bitmap, blkId % 32) {
        assert false;   // "double free"
      }

      mk := mk.(bitmap := SetBit(mk.bitmap, blkId % 32));
      SetMark(order, idx, mk);

      if insert {
        Link(order, idx);
      }

      assert Slice(k) == Marked(m0, head0, blkId);
      lists := lists[k := list];
      free := With(free, k, blkId);
    }

    /** The tail of mark_blk: insert a mark at the head of its order's list. */
    method Link(order: nat, idx: nat)
      requires Shape() && MIN_ORD <= order <= MAX_ORD && idx < lens[order - MIN_ORD]
      requires orders[order - MIN_ORD].head == NIL || orders[order - MIN_ORD].head < lens[order - MIN_ORD]
      modifies this`orders, marks
      ensures Shape() && orders[order - MIN_ORD].head == idx
      ensures Slice(order - MIN_ORD) ==
                LinkedIn(old(Slice(order - MIN_ORD)), old(orders[order - MIN_ORD].head), idx)
      ensures forall k :: 0 <= k <= TOP && k != order - MIN_ORD ==>
                Slice(k) == old(Slice(k)) && orders[k] == old(orders[k])
    {
      hide NextLnk, Lnks;
      var k := order - MIN_ORD;
      var mk := GetMark(order, idx);
      SetMark(order, idx, Mark(Lnks(NIL, orders[k].head), mk.bitmap));
      if orders[k].head != NIL {
        var p := GetMark(order, orders[k].head);
        SetMark(order, orders[k].head, Mark(Lnks(idx, NextLnk(p.lnks)), p.bitmap));
      }
      orders := orders[k := orders[k].(head := idx)];
    }

    method UnmarkBlk(order: nat, blkId: nat)
      requires Represents() && MIN_ORD <= order <= MAX_ORD && blkId in free[order - MIN_ORD]
      modifies this`orders, this`free, this`lists, marks
      ensures Represents()
      ensures free == Without(old(free), order - MIN_ORD, blkId)
    {
      hide LevelRep, Bit, ClearBit, PreLnk, NextLnk, Unmarked, LinksInside;
      var k := order - MIN_ORD;
      ghost var list := UnmarkEffect(Slice(k), orders[k].head, lists[k], free[k], blkId);
      ClearMark(order, blkId);
      lists := lists[k := list];
      free := Without(free, k, blkId);
    }

    /** unmark_blk on the marks: clear the bit, and take the mark off the list if it was the last. */
    method ClearMark(order: nat, blkId: nat)
      requires Shape() && MIN_ORD <= order <= MAX_ORD && blkId / 32 < lens[order - MIN_ORD]
      requires LinksInside(Slice(order - MIN_ORD), blkId / 32)
      requires Bit(Slice(order - MIN_ORD)[blkId / 32].bitmap, blkId % 32)
      modifies this`orders, marks
      ensures Shape() && Slice(order - MIN_ORD) == Unmarked(old(Slice(order - MIN_ORD)), blkId)
      ensures forall k :: 0 <= k <= TOP && k != order - MIN_ORD ==>
                Slice(k) == old(Slice(k)) && orders[k] == old(orders[k])
      ensures orders[order - MIN_ORD].head ==
                var mk := old(Slice(order - MIN_ORD))[blkId / 32];
                if ClearBit(mk.bitmap, blkId % 32) == 0 && PreLnk(mk.lnks) == NIL
                   && old(orders[order - MIN_ORD].head) == blkId / 32 then NextLnk(mk.lnks)
                else old(orders[order - MIN_ORD].head)
    {
      hide Bit, ClearBit, PreLnk, NextLnk, Lnks;
      var idx := blkId / 32;
      var mk := GetMark(order, idx);

      if !Bit(mk.bitmap, blkId % 32) {
        assert false;   // "double alloc"
      }

      mk := mk.(bitmap := ClearBit(mk.bitmap, blkId % 32));
      SetMark(order, idx, mk);
      if mk.bitmap == 0 {
        Unlink(order, idx);
      }
    }

    /** The tail of unmark_blk: delete an empty mark from its order's list. */
    method Unlink(order: nat, idx: nat)
      requires Shape() && MIN_ORD <= order <= MAX_ORD && idx < lens[order - MIN_ORD]
      requires LinksInside(Slice(order - MIN_ORD), idx)
      modifies this`orders, marks
      ensures Shape()
      ensures Slice(order - MIN_ORD) == Unlinked(old(Slice(order - MIN_ORD)), idx)
      ensures forall k :: 0 <= k <= TOP && k != order - MIN_ORD ==>
                Slice(k) == old(Slice(k)) && orders[k] == old(orders[k])
      ensures orders[order - MIN_ORD].head ==
                var mk := old(Slice(order - MIN_ORD))[idx];
                if PreLnk(mk.lnks) == NIL && old(orders[order - MIN_ORD].head) == idx then NextLnk(mk.lnks)
                else old(orders[order - MIN_ORD].head)
    {
      hide PreLnk, NextLnk, Lnks;
      var k := order - MIN_ORD;
      var mk := GetMark(order, idx);
      var prev, next := PreLnk(mk.lnks), NextLnk(mk.lnks);

      if prev != NIL {
        var p := GetMark(order, prev);
        SetMark(order, prev, Mark(Lnks(PreLnk(p.lnks), next), p.bitmap));
      } else if orders[k].head == idx {
        orders := orders[k := orders[k].(head := next)];
      }

      if next != NIL {
        var p := GetMark(order, next);
        SetMark(order, next, Mark(Lnks(prev, NextLnk(p.lnks)), p.bitmap));
      }

      mk := GetMark(order, idx);
      SetMark(order, idx, Mark(Lnks(NIL, NIL), mk.bitmap));
    }

    // ----- get_blk, _kmalloc, _kfree -----

    method GetBlk(order: nat) returns (mem: nat, ghost b: nat)
      requires Represents() && MIN_ORD <= order <= MAX_ORD && orders[order - MIN_ORD].head != NIL
      modifies this`orders, this`free, this`lists, marks
      ensures Represents()
      ensures b in old(free)[order - MIN_ORD] && mem == BlkMem(order, b)
      ensures free == Without(old(free), order - MIN_ORD, b)
    {
      hide LevelRep, Bit;
      var k := order - MIN_ORD;
      var head := orders[k].head;
      ghost var j := HeadBit(Slice(k), head, lists[k], free[k]);
      var mk := GetMark(order, head);

      if mk.bitmap == 0 {
        assert false;   // "empty mark in the list"
      }

      var i := 0;
      while !Bit(mk.bitmap, i)
        invariant i <= j
        decreases j - i
      {
        i := i + 1;
      }
      BitIsFree(Slice(k), head, lists[k], free[k], i);
      b := head * 32 + i;
      UnmarkBlk(order, head * 32 + i);
      mem := BlkMem(order, head * 32 + i);
    }

    method Alloc(order: nat) returns (r: Option<nat>, ghost b: nat)
      requires Valid() && MIN_ORD <= order <= MAX_ORD
      modifies this`orders, this`free, this`lists, this`live, marks
      ensures Valid()
      ensures r.None? <==> forall m :: order - MIN_ORD <= m <= TOP ==> old(free)[m] == {}
      ensures r.None? ==> free == old(free) && live == old(live)
      ensures r.Some? ==>
                && r.value == BlkMem(order, b)
                && WhollyIn(old(free), order - MIN_ORD, b) && b !in old(live)[order - MIN_ORD]
                && live == With(old(live), order - MIN_ORD, b)
                && forall u: nat :: UnitIn(free, u) <==> UnitIn(old(free), u) && Up(0, u, order - MIN_ORD) != b
      decreases MAX_ORD - order
    {
      hide LevelRep, Tiled, With, Without, Halved, UnitIn, WhollyIn, HaveMarks, Up;
      hide Shl, Shr, Pow2, LowBitsZero;
      var k := order - MIN_ORD;
      r, b := None, 0;
      LevelFacts(Slice(k), orders[k].head, lists[k], free[k], 0);
      ghost var free0, live0 := free, live;

      if orders[k].head != NIL {
        var mem;
        mem, b := GetBlk(order);
        r := Some(mem);
        TakeEffect(free0, live0, top, k, b);
        live := With(live, k, b);
      } else if order < MAX_ORD {
        ghost var a;
        r, a := Alloc(order + 1);
        if r.Some? {
          SplitEffect(free, live0, top, k, a);
          live := Halved(live, k, a);
          HalvesInMemory(order, a);
          MemBlkOf(order, 2 * a + 1);
          b := 2 * a;
          ghost var free1 := free;
          Release(r.value + Pow2(order), order);
          SplitUnits(free0, free1, free, k, a);
        }
      }
    }

    method Release(mem: nat, order: nat)
      requires Valid() && MIN_ORD <= order <= MAX_ORD && IsLive(mem, order)
      modifies this`orders, this`free, this`lists, this`live, marks
      ensures Valid()
      ensures var b := MemBlk(order, mem);
              && live == Without(old(live), order - MIN_ORD, b)
              && forall u: nat :: UnitIn(free, u) <==> UnitIn(old(free), u) || Up(0, u, order - MIN_ORD) == b
      decreases MAX_ORD - order
    {
      hide LevelRep, Tiled, UnitIn, WhollyIn, Joined, With, Without, NoOverlap, HaveMarks, Up, Buddy;
      hide Bit, Shl, Shr, Pow2, LowBitsZero;
      var k := order - MIN_ORD;
      var blkId := MemBlk(order, mem);
      ghost var free0, live0 := free, live;
      assert blkId in live[k] by {
        var c :| c in live[k] && mem == BlkMem(order, c);
        MemBlkOf(order, c);
      }
      LiveFacts(free, live, top, lens, k, blkId);
      BuddyInSameBitmap(blkId);
      LevelFacts(Slice(k), orders[k].head, lists[k], free[k], blkId);
      LevelFacts(Slice(k), orders[k].head, lists[k], free[k], Buddy(blkId));
      var mk := GetMark(order, blkId / 32);

      if Bit(mk.bitmap, blkId % 32) {
        assert false;   // "kfree: double free"
      }

      var buddyId := Buddy(blkId);
      if !Bit(mk.bitmap, buddyId % 32) || order == MAX_ORD {
        MarkBlk(order, blkId);
        ReleaseEffect(free0, live0, top, k, blkId);
        live := Without(live, k, blkId);
      } else {
        UnmarkBlk(order, buddyId);
        MergeEffect(free0, live0, top, k, blkId);
        live := Joined(With(live, k, buddyId), k, blkId);
        HalvesInMemory(order, blkId / 2);
        MemBlkOf(order + 1, blkId / 2);
        ghost var free1 := free;
        Release(BlkMem(order, blkId - blkId % 2), order + 1);
        MergeUnits(free0, free1, free, k, blkId);
      }
    }

    // ----- the public operations -----

    /** kmalloc: fails exactly when no aligned block of this size is wholly free; otherwise hands out
        such a block, inside the heap, and removes exactly its units from the free memory. */
    method KMalloc(order: nat) returns (r: Option<nat>)
      requires Valid() && MIN_ORD <= order <= MAX_ORD
      modifies this`orders, this`free, this`lists, this`live, marks
      ensures Valid()
      ensures r.None? <==> !SomeWhollyIn(old(free), order - MIN_ORD)
      ensures r.None? ==> free == old(free) && live == old(live)
      ensures r.Some? ==>
                && startHeap <= r.value && LowBitsZero(r.value, order)
                && r.value + Pow2(order) <= startHeap + Shl(top, MAX_ORD)
                && var b := MemBlk(order, r.value);
                && r.value == BlkMem(order, b)
                && WhollyIn(old(free), order - MIN_ORD, b) && b !in old(live)[order - MIN_ORD]
                && live == With(old(live), order - MIN_ORD, b)
                && forall u: nat :: UnitIn(free, u) <==> UnitIn(old(free), u) && Up(0, u, order - MIN_ORD) != b
    {
      hide LevelRep, UnitIn, WhollyIn, SomeWhollyIn, Shl, Shr, LowBitsZero, HaveMarks;
      WhollyFreeIffSomeLevel(free, live, top, order - MIN_ORD);
      ghost var b;
      r, b := Alloc(order);
      if r.Some? {
        MemBlkOf(order, b);
        AddressInHeap(order, b);
      }
    }

    /** kfree of a live block: exactly its units become free. */
    method KFree(mem: nat, order: nat)
      requires Valid() && MIN_ORD <= order <= MAX_ORD && IsLive(mem, order)
      modifies this`orders, this`free, this`lists, this`live, marks
      ensures Valid()
      ensures var b := MemBlk(order, mem);
              && live == Without(old(live), order - MIN_ORD, b)
              && forall u: nat :: UnitIn(free, u) <==> UnitIn(old(free), u) || Up(0, u, order - MIN_ORD) == b
    {
      ghost var b :| b in live[order - MIN_ORD] && mem == BlkMem(order, b);
      AddressInHeap(order, b);
      if !LowBitsZero(mem, order) {
        assert false;   // "memory unaligned"
      }
      Release(mem, order);
    }

    /** A block of the tiling lies in the heap and is aligned to its size. */
    lemma AddressInHeap(order: nat, b: nat)
      requires MIN_ORD <= order <= MAX_ORD && LowBitsZero(startHeap, MAX_ORD)
      requires Up(order - MIN_ORD, b, TOP) < top
      ensures LowBitsZero(BlkMem(order, b), order)
      ensures BlkMem(order, b) + Pow2(order) <= startHeap + Shl(top, MAX_ORD)
    {
      hide LowBitsZero, Shl, Shr, Up, Pow2;
      BlockIsAligned(startHeap, order, b);
      BlockBound(top, order - MIN_ORD, b);
      ShlComposes(top, MAX_ORD - order, order);
      ShlMonotone(b + 1, Shl(top, MAX_ORD - order), order);
      ShlAdd(b, 1, order);
      ShlOne(order);
    }

    /** kfree undoes kmalloc: every bitmap is back to what it was. */
    method KMallocThenKFree(order: nat) returns (served: bool)
      requires Valid() && MIN_ORD <= order <= MAX_ORD
      modifies this`orders, this`free, this`lists, this`live, marks
      ensures Valid() && free == old(free) && live == old(live)
      ensures forall k :: 0 <= k <= TOP ==> SameBitmaps(Slice(k), old(Slice(k)))
    {
      hide LevelRep, UnitIn, WhollyIn, Tiled, HaveMarks, Up, Shl, Shr, Pow2, LowBitsZero, SameBitmaps;
      ghost var free0, live0 := free, live;
      var r := KMalloc(order);
      served := r.Some?;
      if served {
        ghost var b := MemBlk(order, r.value);
        assert b in live[order - MIN_ORD];
        KFree(r.value, order);
        TakenAndReturned(free0, free, order - MIN_ORD, b);
        TiledFreeNoOverlap(free0, live0, top);
        TiledFreeNoOverlap(free, live, top);
        FreeUnitsDetermineBlocks(free0, free);
        assert live[order - MIN_ORD] == live0[order - MIN_ORD];
      }
      forall k | 0 <= k <= TOP
        ensures SameBitmaps(Slice(k), old(Slice(k)))
      {
        LevelRepDeterminesBitmaps(Slice(k), orders[k].head, lists[k],
                                  old(Slice(k)), old(orders[k].head), old(lists[k]), free[k]);
      }
    }

    // ----- whole runs -----

    ghost predicate LiveIn(l: Levels, mem: nat, order: nat)
    {
      MIN_ORD <= order <= MAX_ORD && exists b :: b in l[order - MIN_ORD] && mem == BlkMem(order, b)
    }

    /** held lists exactly the blocks of l, as (address, order), each once. */
    ghost predicate Holds(l: Levels, held: seq<(nat, nat)>)
    {
      && (forall mem: nat, order: nat :: (mem, order) in held <==> LiveIn(l, mem, order))
      && (forall i, j :: 0 <= i < j < |held| ==> held[i] != held[j])
    }

    lemma TakenIsHeld(l: Levels, held: seq<(nat, nat)>, order: nat, b: nat)
      requires Holds(l, held) && MIN_ORD <= order <= MAX_ORD && b !in l[order - MIN_ORD]
      ensures Holds(With(l, order - MIN_ORD, b), held + [(BlkMem(order, b), order)])
    {
      var l', held' := With(l, order - MIN_ORD, b), held + [(BlkMem(order, b), order)];
      if LiveIn(l, BlkMem(order, b), order) {
        var c :| c in l[order - MIN_ORD] && BlkMem(order, b) == BlkMem(order, c);
        MemBlkOf(order, b);
        MemBlkOf(order, c);
      }
      forall mem: nat, o: nat
        ensures (mem, o) in held' <==> LiveIn(l', mem, o)
      {
        assert (mem, o) in held' <==> (mem, o) in held || (mem, o) == (BlkMem(order, b), order);
        if LiveIn(l, mem, o) {
          var c :| c in l[o - MIN_ORD] && mem == BlkMem(o, c);
          assert c in l'[o - MIN_ORD];
        }
        if (mem, o) == (BlkMem(order, b), order) { assert b in l'[o - MIN_ORD]; }
      }
    }

    lemma FreedIsNotHeld(l: Levels, held: seq<(nat, nat)>, slot: nat, b: nat)
      requires Holds(l, held) && slot < |held| && MIN_ORD <= held[slot].1 <= MAX_ORD
      requires held[slot].0 == BlkMem(held[slot].1, b) && b in l[held[slot].1 - MIN_ORD]
      ensures Holds(Without(l, held[slot].1 - MIN_ORD, b), held[..slot] + held[slot + 1..])
    {
      var order := held[slot].1;
      var l', held' := Without(l, order - MIN_ORD, b), held[..slot] + held[slot + 1..];
      forall mem: nat, o: nat
        ensures (mem, o) in held' <==> LiveIn(l', mem, o)
      {
        assert (mem, o) in held' <==> (mem, o) in held && (mem, o) != held[slot] by {
          if (mem, o) in held && (mem, o) != held[slot] {
            var i :| 0 <= i < |held| && held[i] == (mem, o);
            assert held'[if i < slot then i else i - 1] == (mem, o);
          }
        }
        if LiveIn(l, mem, o) && (mem, o) != held[slot] {
          var c :| c in l[o - MIN_ORD] && mem == BlkMem(o, c);
          assert c in l'[o - MIN_ORD];
        }
        if LiveIn(l', mem, o) {
          var c :| c in l'[o - MIN_ORD] && mem == BlkMem(o, c);
          assert c in l[o - MIN_ORD];
          MemBlkOf(o, c);
          MemBlkOf(order, b);
        }
      }
    }

    /** Unit u is in a block of held. */
    ghost predicate HeldUnit(held: seq<(nat, nat)>, u: nat)
    {
      exists k :: 0 <= k <= TOP && (BlkMem(MIN_ORD + k, Up(0, u, k)), MIN_ORD + k) in held
    }

    /** Block b of the order lies in the heap, and no unit of it is held. */
    ghost predicate Fits(held: seq<(nat, nat)>, order: nat, b: nat)
      requires MIN_ORD <= order <= MAX_ORD
    {
      && Up(order - MIN_ORD, b, TOP) < top
      && forall u: nat :: Up(0, u, order - MIN_ORD) == b ==> !HeldUnit(held, u)
    }

    lemma HeldUnits(l: Levels, held: seq<(nat, nat)>, u: nat)
      requires Holds(l, held)
      ensures HeldUnit(held, u) <==> UnitIn(l, u)
    {
      hide Up, BlkMem;
      if HeldUnit(held, u) {
        var k :| 0 <= k <= TOP && (BlkMem(MIN_ORD + k, Up(0, u, k)), MIN_ORD + k) in held;
        assert LiveIn(l, BlkMem(MIN_ORD + k, Up(0, u, k)), MIN_ORD + k);
        var b :| b in l[k] && BlkMem(MIN_ORD + k, Up(0, u, k)) == BlkMem(MIN_ORD + k, b);
        MemBlkOf(MIN_ORD + k, b);
        MemBlkOf(MIN_ORD + k, Up(0, u, k));
      }
      if UnitIn(l, u) {
        var k :| 0 <= k <= TOP && Up(0, u, k) in l[k];
        assert LiveIn(l, BlkMem(MIN_ORD + k, Up(0, u, k)), MIN_ORD + k);
      }
    }

    /** What is wholly free is what nobody holds. */
    lemma FreeIsUnheld(free: Levels, live: Levels, held: seq<(nat, nat)>, order: nat, b: nat)
      requires Tiled(free, live, top) && Holds(live, held) && MIN_ORD <= order <= MAX_ORD
      ensures Fits(held, order, b) <==> WhollyIn(free, order - MIN_ORD, b)
    {
      hide Up, UnitIn, HeldUnit, Holds, BlkMem;
      var k := order - MIN_ORD;
      forall u: nat | Up(0, u, k) == b
        ensures Up(0, u, TOP) == Up(k, b, TOP) && (HeldUnit(held, u) <==> UnitIn(live, u))
        ensures UnitIn(free, u) <==> Up(0, u, TOP) < top && !UnitIn(live, u)
      {
        UnitsMeet(u, k, TOP);
        HeldUnits(live, held, u);
        FreeUnits(free, live, u);
      }
      LowInside(k, b);
    }

    lemma FreeUnits(free: Levels, live: Levels, u: nat)
      requires Tiled(free, live, top)
      ensures UnitIn(free, u) <==> Up(0, u, TOP) < top && !UnitIn(live, u)
    {
      hide Up;
      if UnitIn(free, u) {
        var k :| 0 <= k <= TOP && Up(0, u, k) in free[k];
        UnitsMeet(u, k, TOP);
        if UnitIn(live, u) {
          var j :| 0 <= j <= TOP && Up(0, u, j) in live[j];
          LiveUnitsAreNotFree(free, live, top, j, Up(0, u, j), u);
        }
      }
    }

    /** What the client holds after a request, given the address it got for it, if any. */
    static function After(held: seq<(nat, nat)>, req: Request, mem: Option<nat>): seq<(nat, nat)> {
      match req
      case Malloc(order) => if mem.Some? then held + [(mem.value, order)] else held
      case Free(slot) => if slot < |held| then held[..slot] + held[slot + 1..] else held
    }

    /** What it holds after the whole script. */
    static function Replay(script: seq<Request>, answers: seq<Option<nat>>): seq<(nat, nat)>
      requires |answers| == |script|
    {
      if script == [] then []
      else
        var n := |script| - 1;
        After(Replay(script[..n], answers[..n]), script[n], answers[n])
    }

    /** A request for memory is refused exactly when every block of that order in the heap overlaps what is held. */
    ghost predicate AnswerOk(held: seq<(nat, nat)>, order: nat, mem: Option<nat>)
      requires MIN_ORD <= order <= MAX_ORD
    {
      if mem.None? then forall b: nat :: !Fits(held, order, b)
      else exists b: nat :: Fits(held, order, b) && mem.value == BlkMem(order, b)
    }

    ghost predicate Answered(script: seq<Request>, answers: seq<Option<nat>>)
      requires |answers| == |script|
    {
      forall i :: 0 <= i < |script| && script[i].Malloc? ==>
        && MIN_ORD <= script[i].order <= MAX_ORD
        && AnswerOk(Replay(script[..i], answers[..i]), script[i].order, answers[i])
    }

    lemma AnsweredNext(script: seq<Request>, answers: seq<Option<nat>>, req: Request, mem: Option<nat>)
      requires |answers| == |script| && Answered(script, answers)
      requires req.Malloc? ==> MIN_ORD <= req.order <= MAX_ORD && AnswerOk(Replay(script, answers), req.order, mem)
      ensures Answered(script + [req], answers + [mem])
      ensures Replay(script + [req], answers + [mem]) == After(Replay(script, answers), req, mem)
    {
      hide AnswerOk, After;
      var n, script', answers' := |script|, script + [req], answers + [mem];
      assert script'[..n] == script && answers'[..n] == answers;
      forall i | 0 <= i < |script'| && script'[i].Malloc?
        ensures MIN_ORD <= script'[i].order <= MAX_ORD
        ensures AnswerOk(Replay(script'[..i], answers'[..i]), script'[i].order, answers'[i])
      {
        if i < n { assert script'[..i] == script[..i] && answers'[..i] == answers[..i]; }
      }
    }

    /** kmalloc as a client sees it. */
    method Ask(order: nat, ghost held: seq<(nat, nat)>) returns (r: Option<nat>)
      requires Valid() && MIN_ORD <= order <= MAX_ORD && Holds(live, held)
      modifies this`orders, this`free, this`lists, this`live, marks
      ensures Valid() && AnswerOk(held, order, r) && Holds(live, After(held, Malloc(order), r))
    {
      hide LevelRep, UnitIn, WhollyIn, Tiled, HaveMarks, Up, Shl, Shr, Pow2, LowBitsZero, With, Without, Fits, Holds;
      ghost var free0, live0 := free, live;
      forall b: nat
        ensures Fits(held, order, b) <==> WhollyIn(free0, order - MIN_ORD, b)
      {
        FreeIsUnheld(free0, live0, held, order, b);
      }
      r := KMalloc(order);
      if r.Some? {
        TakenIsHeld(live0, held, order, MemBlk(order, r.value));
      }
    }

    /** Any client that frees only what it holds: whatever it asks for, every answer is right, and the allocator stays
        a merged tiling of the heap whose live blocks are exactly what the client holds. */
    method Serve(script: seq<Request>) returns (held: seq<(nat, nat)>, answers: seq<Option<nat>>)
      requires Valid() && live == [{}, {}, {}, {}, {}, {}, {}]
      requires forall i :: 0 <= i < |script| && script[i].Malloc? ==> MIN_ORD <= script[i].order <= MAX_ORD
      modifies this`orders, this`free, this`lists, this`live, marks
      ensures Valid() && Holds(live, held)
      ensures |answers| == |script| && held == Replay(script, answers) && Answered(script, answers)
    {
      hide LevelRep, UnitIn, WhollyIn, SomeWhollyIn, Tiled, HaveMarks, Up, Shl, Shr, Pow2, LowBitsZero, With, Without;
      hide AnswerOk, Answered;
      held, answers := [], [];
      NothingAsked();
      for i := 0 to |script|
        invariant Valid() && Holds(live, held)
        invariant |answers| == i && held == Replay(script[..i], answers) && Answered(script[..i], answers)
      {
        assert script[..i + 1] == script[..i] + [script[i]];
        var answer := None;
        match script[i] {
        case Malloc(order) =>
          answer := Ask(order, held);
          AnsweredNext(script[..i], answers, script[i], answer);
          if answer.Some? {
            held := held + [(answer.value, order)];
          }
        case Free(slot) =>
          AnsweredNext(script[..i], answers, script[i], answer);
          if slot < |held| {
            var (mem, order) := held[slot];
            assert (mem, order) in held;
            ghost var live0 := live;
            ghost var b :| b in live[order - MIN_ORD] && mem == BlkMem(order, b);
            MemBlkOf(order, b);
            KFree(mem, order);
            FreedIsNotHeld(live0, held, slot, b);
            held := held[..slot] + held[slot + 1..];
          }
        }
        answers := answers + [answer];
      }
      assert script[..|script|] == script;
    }

    lemma NothingAsked()
      ensures Answered([], []) && Replay([], []) == []
    {
    }
  }
}
