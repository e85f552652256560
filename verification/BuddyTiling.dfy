/** Geometry of the buddy allocator: aligned power-of-two blocks as pairs (level, id).

    Level k stands for order MIN_ORD + k.  A level-0 block is one 64-byte unit; the block
    (k, b) is made of the two halves (k-1, 2b) and (k-1, 2b+1).  The allocator's abstract state
    is a pair of level-indexed families: the free blocks and the live allocations. */
module BuddyTiling {
  import opened Params

  const TOP := 6       // level of MAX_ORD

  type Levels = s: seq<set<nat>> | |s| == TOP + 1 witness [{}, {}, {}, {}, {}, {}, {}]

  /** The id of the level-k block that contains block (j, b). */
  function Up(j: nat, b: nat, k: nat): nat
    requires j <= k
    decreases k - j
  {
    if j == k then b else Up(j + 1, b / 2, k)
  }

  /** The first unit of block (k, b). */
  function Low(k: nat, b: nat): nat {
    if k == 0 then b else Low(k - 1, 2 * b)
  }

  /** The other half of the enclosing block: the source's blk_id ^ 1. */
  function Buddy(b: nat): (r: nat)
    ensures r != b && r / 2 == b / 2
  {
    if b % 2 == 0 then b + 1 else b - 1
  }

  lemma BuddyInSameBitmap(b: nat)
    ensures Buddy(b) / 32 == b / 32
  {
    var c := Buddy(b);
    assert c / 32 == c / 2 / 16 && b / 32 == b / 2 / 16;
  }

  /** Unit u lies in some block of the family. */
  ghost predicate UnitIn(f: Levels, u: nat) {
    exists k :: 0 <= k <= TOP && Up(0, u, k) in f[k]
  }

  /** Every unit of block (k, b) lies in some block of the family. */
  ghost predicate WhollyIn(f: Levels, k: nat, b: nat)
    requires k <= TOP
  {
    forall u: nat :: Up(0, u, k) == b ==> UnitIn(f, u)
  }

  /** Some level-k block is wholly in the family. */
  ghost predicate SomeWhollyIn(f: Levels, k: nat)
    requires k <= TOP
  {
    exists b: nat :: WhollyIn(f, k, b)
  }

  /** No block of the family lies inside a bigger block of the family. */
  ghost predicate NoOverlap(f: Levels) {
    forall j, k, b: nat :: 0 <= j < k <= TOP && b in f[j] ==> Up(j, b, k) !in f[k]
  }

  /** No two buddies below the top level are both in the family. */
  ghost predicate Merged(f: Levels) {
    forall k, b: nat :: 0 <= k < TOP && b in f[k] ==> Buddy(b) !in f[k]
  }

  /** No two blocks, free or live, share a unit. */
  ghost predicate Apart(free: Levels, live: Levels) {
    && (forall k :: 0 <= k <= TOP ==> free[k] !! live[k])
    && (forall j, k, b: nat :: 0 <= j < k <= TOP && (b in free[j] || b in live[j])
                          ==> Up(j, b, k) !in free[k] && Up(j, b, k) !in live[k])
  }

  /** All blocks lie in a heap of n top-level blocks. */
  ghost predicate InHeap(f: Levels, n: nat) {
    forall k, b: nat :: 0 <= k <= TOP && b in f[k] ==> Up(k, b, TOP) < n
  }

  /** Every unit of the heap is in a free or a live block. */
  ghost predicate Covering(free: Levels, live: Levels, n: nat) {
    forall u: nat :: Up(0, u, TOP) < n ==> UnitIn(free, u) || UnitIn(live, u)
  }

  /** Free and live blocks together tile the heap of n top-level blocks exactly, and the free
      blocks are fully merged. */
  ghost predicate Tiled(free: Levels, live: Levels, n: nat) {
    Apart(free, live) && InHeap(free, n) && InHeap(live, n) && Covering(free, live, n) && Merged(free)
  }

  // ----- the containment order -----

  lemma {:induction false} UpStep(j: nat, b: nat, k: nat)
    requires j <= k
    ensures Up(j, b, k + 1) == Up(j, b, k) / 2
    decreases k - j
  {
    if j < k {
      UpStep(j + 1, b / 2, k);
    }
  }

  lemma {:induction false} UpTrans(j: nat, b: nat, k: nat, m: nat)
    requires j <= k <= m
    ensures Up(k, Up(j, b, k), m) == Up(j, b, m)
    decreases k - j
  {
    if j < k {
      UpTrans(j + 1, b / 2, k, m);
    }
  }

  lemma {:induction false} LowInside(k: nat, b: nat)
    ensures Up(0, Low(k, b), k) == b
  {
    if k > 0 {
      LowInside(k - 1, 2 * b);
      UpStep(0, Low(k, b), k - 1);
    }
  }

  /** A unit in two blocks of a family shows that one block contains the other. */
  lemma UnitsMeet(u: nat, j: nat, k: nat)
    requires j <= k
    ensures Up(j, Up(0, u, j), k) == Up(0, u, k)
  {
    UpTrans(0, u, j, k);
  }

  /** A wholly free aligned block lies inside one free block: this is where merging pays off. */
  lemma {:induction false} WhollyFreeIsCovered(f: Levels, k: nat, b: nat) returns (m: nat)
    requires k <= TOP && Merged(f) && WhollyIn(f, k, b)
    ensures k <= m <= TOP && Up(k, b, m) in f[m]
  {
    if k == 0 {
      assert UnitIn(f, b);
      m :| 0 <= m <= TOP && Up(0, b, m) in f[m];
    } else {
      HalvesAreIn(f, k, b);
      m := WhollyFreeIsCovered(f, k - 1, 2 * b);
      if m == k - 1 {
        m := WhollyFreeIsCovered(f, k - 1, 2 * b + 1);
        assert m != k - 1 by { assert Buddy(2 * b) == 2 * b + 1; }
      }
    }
  }

  lemma HalvesAreIn(f: Levels, k: nat, b: nat)
    requires 0 < k <= TOP && WhollyIn(f, k, b)
    ensures WhollyIn(f, k - 1, 2 * b) && WhollyIn(f, k - 1, 2 * b + 1)
  {
    forall u: nat
      ensures Up(0, u, k) == Up(0, u, k - 1) / 2
    {
      UpStep(0, u, k - 1);
    }
  }

  /** Canonicity, one inclusion. */
  lemma SameUnitsInclusion(f: Levels, g: Levels, k: nat, b: nat)
    requires NoOverlap(f) && Merged(f) && Merged(g)
    requires forall u: nat :: UnitIn(f, u) <==> UnitIn(g, u)
    requires k <= TOP && b in f[k]
    ensures b in g[k]
  {
    var m := WhollyFreeIsCovered(g, k, b);
    var c := Up(k, b, m);
    assert WhollyIn(f, m, c);
    var p := WhollyFreeIsCovered(f, m, c);
    UpTrans(k, b, m, p);
    assert p == k;
  }

  /** Canonicity: the set of free units determines the free blocks of every order. */
  lemma FreeUnitsDetermineBlocks(f: Levels, g: Levels)
    requires NoOverlap(f) && Merged(f) && NoOverlap(g) && Merged(g)
    requires forall u: nat :: UnitIn(f, u) <==> UnitIn(g, u)
    ensures f == g
  {
    forall k | 0 <= k <= TOP
      ensures f[k] == g[k]
    {
      forall b: nat
        ensures b in f[k] <==> b in g[k]
      {
        if b in f[k] { SameUnitsInclusion(f, g, k, b); }
        if b in g[k] { SameUnitsInclusion(g, f, k, b); }
      }
    }
  }

  lemma TiledFreeNoOverlap(free: Levels, live: Levels, n: nat)
    requires Tiled(free, live, n)
    ensures NoOverlap(free) && NoOverlap(live) && Merged(free)
  {
  }

  /** Completeness: some level-k block is wholly free exactly when some level >= k has a free block. */
  lemma WhollyFreeIffSomeLevel(free: Levels, live: Levels, n: nat, k: nat)
    requires Tiled(free, live, n) && k <= TOP
    ensures SomeWhollyIn(free, k) <==> (exists m :: k <= m <= TOP && free[m] != {})
  {
    if b: nat :| WhollyIn(free, k, b) {
      var m := WhollyFreeIsCovered(free, k, b);
    }
    if m :| k <= m <= TOP && free[m] != {} {
      var c :| c in free[m];
      LowInside(m, c);
      var b := Up(0, Low(m, c), k);
      UpTrans(0, Low(m, c), k, m);
      forall u: nat | Up(0, u, k) == b
        ensures UnitIn(free, u)
      {
        UpTrans(0, u, k, m);
      }
      assert WhollyIn(free, k, b);
    }
  }

  /** Distinct blocks of one tiling share no unit, and no unit is both free and live. */
  lemma UnitHasOneOwner(free: Levels, live: Levels, n: nat, u: nat, j: nat, k: nat)
    requires Tiled(free, live, n) && j <= TOP && k <= TOP
    requires Up(0, u, j) in free[j] || Up(0, u, j) in live[j]
    requires Up(0, u, k) in free[k] || Up(0, u, k) in live[k]
    ensures j == k
  {
    if j < k { UnitsMeet(u, j, k); }
    if k < j { UnitsMeet(u, k, j); }
  }

  lemma LiveUnitsAreNotFree(free: Levels, live: Levels, n: nat, k: nat, b: nat, u: nat)
    requires Tiled(free, live, n) && k <= TOP && b in live[k] && Up(0, u, k) == b
    ensures !UnitIn(free, u)
  {
    if UnitIn(free, u) {
      var j :| 0 <= j <= TOP && Up(0, u, j) in free[j];
      UnitHasOneOwner(free, live, n, u, j, k);
    }
  }

  // ----- the four changes the allocator makes to a tiling -----

  function Without(f: Levels, k: nat, b: nat): Levels
    requires k <= TOP
  {
    f[k := f[k] - {b}]
  }

  function With(f: Levels, k: nat, b: nat): Levels
    requires k <= TOP
  {
    f[k := f[k] + {b}]
  }

  /** Replace block (k+1, a) by its two halves. */
  function Halved(f: Levels, k: nat, a: nat): Levels
    requires k < TOP
  {
    With(With(Without(f, k + 1, a), k, 2 * a), k, 2 * a + 1)
  }

  /** Replace blocks (k, b) and its buddy by the block they form. */
  function Joined(f: Levels, k: nat, b: nat): Levels
    requires k < TOP
  {
    With(Without(Without(f, k, b), k, Buddy(b)), k + 1, b / 2)
  }

  lemma WithUnits(f: Levels, k: nat, b: nat, u: nat)
    requires k <= TOP
    ensures UnitIn(With(f, k, b), u) <==> UnitIn(f, u) || Up(0, u, k) == b
  {
    var g := With(f, k, b);
    if UnitIn(f, u) {
      var j :| 0 <= j <= TOP && Up(0, u, j) in f[j];
      assert Up(0, u, j) in g[j];
    }
    if Up(0, u, k) == b { assert Up(0, u, k) in g[k]; }
    if UnitIn(g, u) {
      var j :| 0 <= j <= TOP && Up(0, u, j) in g[j];
      assert Up(0, u, j) in f[j] || (j == k && Up(0, u, j) == b);
    }
  }

  lemma WithoutUnits(f: Levels, k: nat, b: nat, u: nat)
    requires k <= TOP && NoOverlap(f) && b in f[k]
    ensures UnitIn(Without(f, k, b), u) <==> UnitIn(f, u) && Up(0, u, k) != b
  {
    var g := Without(f, k, b);
    if UnitIn(f, u) && Up(0, u, k) != b {
      var j :| 0 <= j <= TOP && Up(0, u, j) in f[j];
      assert Up(0, u, j) in g[j];
    }
    if UnitIn(g, u) {
      var j :| 0 <= j <= TOP && Up(0, u, j) in g[j];
      if j < k { UnitsMeet(u, j, k); }
      if k < j { UnitsMeet(u, k, j); }
    }
  }

  /** A free block becomes live. */
  lemma TakeKeepsTiling(free: Levels, live: Levels, n: nat, k: nat, b: nat)
    requires Tiled(free, live, n) && k <= TOP && b in free[k]
    ensures Tiled(Without(free, k, b), With(live, k, b), n)
  {
    var f, l := Without(free, k, b), With(live, k, b);
    forall u: nat | Up(0, u, TOP) < n
      ensures UnitIn(f, u) || UnitIn(l, u)
    {
      WithUnits(live, k, b, u);
      WithoutUnits(free, k, b, u);
    }
  }

  /** A live block whose buddy is not free (or which has none) becomes free. */
  lemma ReleaseKeepsTiling(free: Levels, live: Levels, n: nat, k: nat, b: nat)
    requires Tiled(free, live, n) && k <= TOP && b in live[k]
    requires k == TOP || Buddy(b) !in free[k]
    ensures Tiled(With(free, k, b), Without(live, k, b), n)
  {
    var f, l := With(free, k, b), Without(live, k, b);
    forall u: nat | Up(0, u, TOP) < n
      ensures UnitIn(f, u) || UnitIn(l, u)
    {
      WithUnits(free, k, b, u);
      WithoutUnits(live, k, b, u);
    }
    forall j, c: nat | 0 <= j < TOP && c in f[j]
      ensures Buddy(c) !in f[j]
    {
      assert Buddy(Buddy(c)) == c;
    }
  }

  lemma HalvedMembers(live: Levels, k: nat, a: nat, j: nat, b: nat)
    requires k < TOP && j <= TOP
    ensures b in Halved(live, k, a)[j] <==>
            (b in live[j] && !(j == k + 1 && b == a)) || (j == k && b / 2 == a)
  {
  }

  lemma HalvedUnits(live: Levels, k: nat, a: nat, u: nat)
    requires k < TOP && a in live[k + 1]
    ensures UnitIn(Halved(live, k, a), u) <==> UnitIn(live, u)
  {
    var l := Halved(live, k, a);
    UpStep(0, u, k);
    if UnitIn(live, u) {
      var j :| 0 <= j <= TOP && Up(0, u, j) in live[j];
      HalvedMembers(live, k, a, j, Up(0, u, j));
      HalvedMembers(live, k, a, k, Up(0, u, k));
    }
    if UnitIn(l, u) {
      var j :| 0 <= j <= TOP && Up(0, u, j) in l[j];
      HalvedMembers(live, k, a, j, Up(0, u, j));
      if Up(0, u, j) !in live[j] { assert Up(0, u, k + 1) in live[k + 1]; }
    }
  }

  lemma HalvedApart(free: Levels, live: Levels, k: nat, a: nat, j: nat, m: nat, b: nat)
    requires Apart(free, live) && k < TOP && a in live[k + 1]
    requires j < m <= TOP && (b in free[j] || b in Halved(live, k, a)[j])
    ensures Up(j, b, m) !in free[m] && Up(j, b, m) !in Halved(live, k, a)[m]
  {
    HalvedMembers(live, k, a, j, b);
    HalvedMembers(live, k, a, m, Up(j, b, m));
    if b in free[j] || b in live[j] {
      if m == k { UpStep(j, b, k); }
    } else {
      assert Up(k, b, m) == Up(k + 1, a, m);
    }
  }

  lemma HalvesAreNew(free: Levels, live: Levels, k: nat, a: nat)
    requires Apart(free, live) && k < TOP && a in live[k + 1]
    ensures forall b: nat :: b / 2 == a ==> b !in live[k] && b !in free[k]
  {
    forall b: nat | b / 2 == a
      ensures b !in live[k] && b !in free[k]
    {
      assert Up(k, b, k + 1) == a;
    }
  }

  /** A live block is cut into two live halves. */
  lemma HalvedKeepsTiling(free: Levels, live: Levels, n: nat, k: nat, a: nat)
    requires Tiled(free, live, n) && k < TOP && a in live[k + 1]
    ensures Tiled(free, Halved(live, k, a), n)
  {
    var l := Halved(live, k, a);
    HalvesAreNew(free, live, k, a);
    forall j | 0 <= j <= TOP
      ensures free[j] !! l[j]
    {
      forall b: nat | b in l[j]
        ensures b !in free[j]
      {
        HalvedMembers(live, k, a, j, b);
      }
    }
    forall j, m, b: nat | 0 <= j < m <= TOP && (b in free[j] || b in l[j])
      ensures Up(j, b, m) !in free[m] && Up(j, b, m) !in l[m]
    {
      HalvedApart(free, live, k, a, j, m, b);
    }
    forall j, b: nat | 0 <= j <= TOP && b in l[j]
      ensures Up(j, b, TOP) < n
    {
      HalvedMembers(live, k, a, j, b);
      if b !in live[j] { assert Up(k, b, TOP) == Up(k + 1, a, TOP); }
    }
    forall u: nat | Up(0, u, TOP) < n
      ensures UnitIn(free, u) || UnitIn(l, u)
    {
      HalvedUnits(live, k, a, u);
    }
  }

  lemma JoinedMembers(live: Levels, k: nat, b: nat, j: nat, c: nat)
    requires k < TOP && j <= TOP
    ensures c in Joined(live, k, b)[j] <==>
            (c in live[j] && !(j == k && c / 2 == b / 2)) || (j == k + 1 && c == b / 2)
  {
    assert c / 2 == b / 2 ==> c == b || c == Buddy(b);
  }

  lemma JoinedUnits(live: Levels, k: nat, b: nat, u: nat)
    requires k < TOP && b in live[k] && Buddy(b) in live[k]
    ensures UnitIn(Joined(live, k, b), u) <==> UnitIn(live, u)
  {
    var l := Joined(live, k, b);
    UpStep(0, u, k);
    if UnitIn(live, u) {
      var j :| 0 <= j <= TOP && Up(0, u, j) in live[j];
      JoinedMembers(live, k, b, j, Up(0, u, j));
      JoinedMembers(live, k, b, k + 1, Up(0, u, k + 1));
    }
    if UnitIn(l, u) {
      var j :| 0 <= j <= TOP && Up(0, u, j) in l[j];
      JoinedMembers(live, k, b, j, Up(0, u, j));
      if Up(0, u, j) !in live[j] {
        assert Up(0, u, k) == b || Up(0, u, k) == Buddy(b);
        assert Up(0, u, k) in live[k];
      }
    }
  }

  lemma JoinedApart(free: Levels, live: Levels, k: nat, b: nat, j: nat, m: nat, c: nat)
    requires Apart(free, live) && k < TOP && b in live[k] && Buddy(b) in live[k]
    requires j < m <= TOP && (c in free[j] || c in Joined(live, k, b)[j])
    ensures Up(j, c, m) !in free[m] && Up(j, c, m) !in Joined(live, k, b)[m]
  {
    JoinedMembers(live, k, b, j, c);
    JoinedMembers(live, k, b, m, Up(j, c, m));
    if c in free[j] || c in live[j] {
      if m == k + 1 {
        UpStep(j, c, k);
        var x := Up(j, c, k);
        assert x / 2 == b / 2 ==> x == b || x == Buddy(b);
      }
    } else {
      assert Up(k, b, m) == Up(k + 1, c, m);
    }
  }

  /** Two live buddies are joined into one live block. */
  lemma JoinedKeepsTiling(free: Levels, live: Levels, n: nat, k: nat, b: nat)
    requires Tiled(free, live, n) && k < TOP && b in live[k] && Buddy(b) in live[k]
    ensures Tiled(free, Joined(live, k, b), n)
  {
    var l := Joined(live, k, b);
    assert Up(k, b, k + 1) == b / 2;
    forall j, m, c: nat | 0 <= j < m <= TOP && (c in free[j] || c in l[j])
      ensures Up(j, c, m) !in free[m] && Up(j, c, m) !in l[m]
    {
      JoinedApart(free, live, k, b, j, m, c);
    }
    forall j, c: nat | 0 <= j <= TOP && c in l[j]
      ensures Up(j, c, TOP) < n
    {
      JoinedMembers(live, k, b, j, c);
      if c !in live[j] { assert Up(k, b, TOP) == Up(k + 1, c, TOP); }
    }
    forall u: nat | Up(0, u, TOP) < n
      ensures UnitIn(free, u) || UnitIn(l, u)
    {
      JoinedUnits(live, k, b, u);
    }
  }

  lemma NoUnitsInEmpty()
    ensures forall u: nat :: !UnitIn([{}, {}, {}, {}, {}, {}, {}], u)
  {
    var f: Levels := [{}, {}, {}, {}, {}, {}, {}];
    assert forall k :: 0 <= k <= TOP ==> f[k] == {};
  }

  /** The tiling kmem_init2 starts from: every top-level block live, none free yet. */
  ghost function AllLive(n: nat): Levels {
    [{}, {}, {}, {}, {}, {}, Below(n)]
  }

  ghost function Below(n: nat): (r: set<nat>)
    ensures forall b: nat :: b in r <==> b < n
  {
    if n == 0 then {} else Below(n - 1) + {n - 1}
  }

  lemma AllLiveIsTiled(n: nat)
    ensures Tiled([{}, {}, {}, {}, {}, {}, {}], AllLive(n), n)
  {
    var live := AllLive(n);
    assert forall k, b: nat :: 0 <= k <= TOP && b in live[k] ==> k == TOP && b < n;
    forall u: nat | Up(0, u, TOP) < n
      ensures UnitIn(live, u)
    {
      assert Up(0, u, TOP) in live[TOP];
    }
  }
}
