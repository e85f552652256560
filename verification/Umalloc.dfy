/** The allocator of src/usr/umalloc.c: a circular list of free blocks threaded through their headers, in address
    order, searched from freep. */
module Umalloc {
  import opened Wrappers
  import opened FreeList

  const HEADER := 16     // sizeof(Header)
  const MIN_CORE := 4096 // units morecore asks for at least

  function Next(i: nat, n: nat): nat { if i + 1 == n then 0 else i + 1 }

  /** The header of free block i holds its size and points to the next block, the last one back to the first. */
  ghost predicate NodeOk(ptr: map<nat, nat>, size: map<nat, nat>, free: seq<Blk>, i: nat)
    requires i < |free|
  {
    && free[i].a in ptr && free[i].a in size && size[free[i].a] == free[i].s
    && ptr[free[i].a] == free[Next(i, |free|)].a
  }

  ghost predicate Ring(ptr: map<nat, nat>, size: map<nat, nat>, free: seq<Blk>) {
    forall i {:trigger NodeOk(ptr, size, free, i)} :: 0 <= i < |free| ==> NodeOk(ptr, size, free, i)
  }

  ghost predicate InLive(live: map<nat, nat>, u: nat) {
    exists a :: a in live && InBlk(Blk(a, live[a]), u)
  }

  /** Allocated blocks: headers in place, above base, apart from the free blocks and from each other. */
  ghost predicate LiveOk(size: map<nat, nat>, free: seq<Blk>, live: map<nat, nat>, base: nat) {
    && (forall a :: a in live ==> live[a] > 0 && a > base && a in size && size[a] == live[a])
    && (forall a :: a in live ==> ApartFrom(free, Blk(a, live[a])))
    && (forall a, c :: a in live && c in live && a != c ==> a + live[a] <= c || c + live[c] <= a)
  }

  /** The units got from sbrk are those of the free blocks and of the allocated ones. */
  ghost predicate Conserved(free: seq<Blk>, live: map<nat, nat>, obtained: set<nat>) {
    forall u: nat :: u in obtained <==> InList(free, u) || InLive(live, u)
  }

  ghost predicate HeapOk(ptr: map<nat, nat>, size: map<nat, nat>, free: seq<Blk>, live: map<nat, nat>,
                         obtained: set<nat>, base: nat) {
    && Sorted(free) && FromBase(free, base) && Ring(ptr, size, free)
    && LiveOk(size, free, live, base) && Conserved(free, live, obtained)
  }

  // ----- free: where a block belongs -----

  lemma {:induction false} FindPlace(free: seq<Blk>, base: nat, b: Blk) returns (k: nat)
    requires Sorted(free) && FromBase(free, base) && b.a > base && b.s > 0 && ApartFrom(free, b)
    ensures Belongs(free, k, b)
  {
    k := 0;
    while k + 1 < |free| && free[k + 1].a < b.a
      invariant k < |free| && free[k].a < b.a
    {
      k := k + 1;
    }
    if k + 1 < |free| {
      assert free[k + 1].a != b.a;
    }
  }

  /** Steps from position i round the ring to position k: less than one lap. */
  function Distance(i: nat, k: nat, n: nat): nat
    requires i < n && k < n
  {
    if i <= k then k - i else n - i + k
  }

  // ----- free: the header writes -----

  /** The size map after free's writes: b may grow, and p may swallow it. */
  function FreedSize(size: map<nat, nat>, free: seq<Blk>, k: nat, b: Blk): map<nat, nat>
    requires k < |free|
  {
    var g := Grown(free, k, b);
    var size1 := if JoinsUpper(free, k, b) then size[b.a := g.s] else size;
    if JoinsLower(free, k, b) then size1[free[k].a := free[k].s + g.s] else size1
  }

  /** The address that follows b in the ring. */
  function After(free: seq<Blk>, k: nat, b: Blk): nat
    requires k < |free|
  {
    if Above(free, k, b) == [] then free[0].a else Above(free, k, b)[0].a
  }

  function FreedPtr(ptr: map<nat, nat>, free: seq<Blk>, k: nat, b: Blk): map<nat, nat>
    requires k < |free|
  {
    ptr[b.a := After(free, k, b)][free[k].a := if JoinsLower(free, k, b) then After(free, k, b) else b.a]
  }

  /** The new list by position. */
  lemma InsertedAt(free: seq<Blk>, k: nat, b: Blk)
    requires k < |free|
    ensures var r, up, g := Inserted(free, k, b), Above(free, k, b), Grown(free, k, b);
            && |r| - |up| == (if JoinsLower(free, k, b) then k + 1 else k + 2)
            && (forall j :: 0 <= j < k ==> r[j] == free[j])
            && r[k] == (if JoinsLower(free, k, b) then Blk(free[k].a, free[k].s + g.s) else free[k])
            && (!JoinsLower(free, k, b) ==> r[k + 1] == g)
            && (forall j :: 0 <= j < |up| ==> r[|r| - |up| + j] == up[j])
  {
    hide Above, Grown;
  }

  lemma OtherNode(ptr: map<nat, nat>, size: map<nat, nat>, free: seq<Blk>, k: nat, b: Blk, i: nat)
    requires Sorted(free) && Ring(ptr, size, free) && k < |free| && i < |free| && i != k
    requires ApartFrom(free, b) && b.s > 0 && (free[i].s > 0 || free[i].a < b.a)
    ensures free[i].a != b.a && free[i].a != free[k].a
    ensures var p', s' := FreedPtr(ptr, free, k, b), FreedSize(size, free, k, b);
            && free[i].a in p' && free[i].a in s' && s'[free[i].a] == free[i].s
            && p'[free[i].a] == free[Next(i, |free|)].a
  {
    hide Above, Grown, After;
    assert NodeOk(ptr, size, free, i);
  }

  ghost predicate CanInsert(ptr: map<nat, nat>, size: map<nat, nat>, free: seq<Blk>, base: nat, k: nat, b: Blk) {
    && Sorted(free) && FromBase(free, base) && Ring(ptr, size, free)
    && Belongs(free, k, b) && ApartFrom(free, b) && b.s > 0 && b.a in size && size[b.a] == b.s
  }

  /** An old node below the place of b. */
  lemma LowNode(ptr: map<nat, nat>, size: map<nat, nat>, free: seq<Blk>, base: nat, k: nat, b: Blk, j: nat)
    requires CanInsert(ptr, size, free, base, k, b) && j < k
    ensures j < |Inserted(free, k, b)|
    ensures NodeOk(FreedPtr(ptr, free, k, b), FreedSize(size, free, k, b), Inserted(free, k, b), j)
  {
    InsertedAt(free, k, b);
    hide Inserted, FreedPtr, FreedSize, Above, Grown, Ring;
    assert free[j].a < b.a;
    OtherNode(ptr, size, free, k, b, j);
    var r := Inserted(free, k, b);
    assert r[j] == free[j] && r[j + 1].a == free[j + 1].a;
  }

  lemma InsertedUp(free: seq<Blk>, k: nat, b: Blk, q: nat)
    requires k < |free| && q < |Above(free, k, b)|
    ensures var r, up := Inserted(free, k, b), Above(free, k, b);
            && |up| < |r| && |up| + k + 1 <= |free|
            && r[|r| - |up| + q] == up[q] && up[q] == free[|free| - |up| + q] && r[0].a == free[0].a
  {
    InsertedAt(free, k, b);
    AboveAt(free, k, b);
    hide Inserted, Above, Grown;
    if k > 0 { assert Inserted(free, k, b)[0] == free[0]; }
  }

  /** An old node above it. */
  lemma HighNode(ptr: map<nat, nat>, size: map<nat, nat>, free: seq<Blk>, base: nat, k: nat, b: Blk, q: nat)
    requires CanInsert(ptr, size, free, base, k, b) && q < |Above(free, k, b)|
    ensures |Inserted(free, k, b)| >= |Above(free, k, b)|
    ensures NodeOk(FreedPtr(ptr, free, k, b), FreedSize(size, free, k, b), Inserted(free, k, b),
                   |Inserted(free, k, b)| - |Above(free, k, b)| + q)
  {
    hide Inserted, FreedPtr, FreedSize, Above, Grown, Ring, Sorted, ApartFrom;
    InsertedUp(free, k, b, q);
    var r, up := Inserted(free, k, b), Above(free, k, b);
    var i := |free| - |up| + q;
    assert free[i].s > 0;
    OtherNode(ptr, size, free, k, b, i);
    if q + 1 < |up| {
      InsertedUp(free, k, b, q + 1);
    }
  }

  /** The node before b, which may have swallowed it, and b itself. */
  lemma MidNode(ptr: map<nat, nat>, size: map<nat, nat>, free: seq<Blk>, base: nat, k: nat, b: Blk, j: nat)
    requires CanInsert(ptr, size, free, base, k, b)
    requires k <= j < |Inserted(free, k, b)| - |Above(free, k, b)|
    ensures NodeOk(FreedPtr(ptr, free, k, b), FreedSize(size, free, k, b), Inserted(free, k, b), j)
  {
    hide Inserted, Above, Ring, Sorted, ApartFrom, FromBase;
    RingAt(ptr, size, free, k);
    InsertedMid(free, k, b);
    if |Above(free, k, b)| > 0 { InsertedUp(free, k, b, 0); }
  }

  lemma RingAt(ptr: map<nat, nat>, size: map<nat, nat>, free: seq<Blk>, k: nat)
    requires Ring(ptr, size, free) && k < |free|
    ensures NodeOk(ptr, size, free, k)
  {
  }

  lemma InsertedMid(free: seq<Blk>, k: nat, b: Blk)
    requires k < |free|
    ensures var r, up, g := Inserted(free, k, b), Above(free, k, b), Grown(free, k, b);
            && |r| - |up| == (if JoinsLower(free, k, b) then k + 1 else k + 2) && r[0].a == free[0].a
            && r[k] == (if JoinsLower(free, k, b) then Blk(free[k].a, free[k].s + g.s) else free[k])
            && (!JoinsLower(free, k, b) ==> r[k + 1] == g)
  {
    InsertedAt(free, k, b);
    hide Inserted, Above, Grown;
    if k > 0 { assert Inserted(free, k, b)[0] == free[0]; }
  }

  lemma InsertedRing(ptr: map<nat, nat>, size: map<nat, nat>, free: seq<Blk>, base: nat, k: nat, b: Blk)
    requires CanInsert(ptr, size, free, base, k, b)
    ensures Ring(FreedPtr(ptr, free, k, b), FreedSize(size, free, k, b), Inserted(free, k, b))
    ensures k < |Inserted(free, k, b)| && Inserted(free, k, b)[k].a == free[k].a
  {
    hide Inserted, Above, Sorted, ApartFrom, FromBase, FreedPtr, FreedSize, NodeOk, Grown;
    InsertedMid(free, k, b);
    forall j | 0 <= j < |Inserted(free, k, b)|
      ensures NodeOk(FreedPtr(ptr, free, k, b), FreedSize(size, free, k, b), Inserted(free, k, b), j)
    {
      var n := |Inserted(free, k, b)| - |Above(free, k, b)|;
      if j < k {
        LowNode(ptr, size, free, base, k, b, j);
      } else if j < n {
        MidNode(ptr, size, free, base, k, b, j);
      } else {
        HighNode(ptr, size, free, base, k, b, j - n);
      }
    }
  }

  // ----- ownership of units -----

  /** For a block above base, being apart from the list is sharing no unit with it. */
  lemma NoUnitsApart(free: seq<Blk>, base: nat, b: Blk)
    requires FromBase(free, base) && b.a > base && b.s > 0
    requires forall u: nat :: InBlk(b, u) ==> !InList(free, u)
    ensures ApartFrom(free, b)
  {
    forall i | 0 <= i < |free|
      ensures b.a + b.s <= free[i].a || free[i].a + free[i].s <= b.a
    {
      var u := if b.a < free[i].a then free[i].a else b.a;
      InListAt(free, i, u);
    }
  }

  lemma InListAt(free: seq<Blk>, i: nat, u: nat)
    requires i < |free|
    ensures InBlk(free[i], u) ==> InList(free, u)
  {
  }

  lemma ApartNoUnits(free: seq<Blk>, b: Blk, u: nat)
    requires ApartFrom(free, b) && InBlk(b, u)
    ensures !InList(free, u)
  {
  }

  lemma LiveWithout(live: map<nat, nat>, a: nat, u: nat)
    requires a in live && forall c :: c in live && c != a ==> a + live[a] <= c || c + live[c] <= a
    ensures InLive(live - {a}, u) <==> InLive(live, u) && !InBlk(Blk(a, live[a]), u)
  {
    if InLive(live - {a}, u) {
      var c :| c in live - {a} && InBlk(Blk(c, (live - {a})[c]), u);
      assert c in live;
    }
    if InLive(live, u) && !InBlk(Blk(a, live[a]), u) {
      var c :| c in live && InBlk(Blk(c, live[c]), u);
      assert c in live - {a};
    }
  }

  lemma LiveWith(live: map<nat, nat>, b: Blk, u: nat)
    requires b.a !in live
    ensures InLive(live[b.a := b.s], u) <==> InLive(live, u) || InBlk(b, u)
  {
    var l := live[b.a := b.s];
    if InLive(l, u) {
      var c :| c in l && InBlk(Blk(c, l[c]), u);
      assert c == b.a || c in live;
    }
    if InLive(live, u) {
      var c :| c in live && InBlk(Blk(c, live[c]), u);
      assert c in l && l[c] == live[c];
    }
    if InBlk(b, u) { assert b.a in l; }
  }

  /** free on the whole heap. */
  lemma FreeKeepsHeap(ptr: map<nat, nat>, size: map<nat, nat>, free: seq<Blk>, live: map<nat, nat>,
                      obtained: set<nat>, base: nat, k: nat, b: Blk)
    requires HeapOk(ptr, size, free, live, obtained, base)
    requires b.a in live && b.s == live[b.a] && Belongs(free, k, b)
    ensures HeapOk(FreedPtr(ptr, free, k, b), FreedSize(size, free, k, b), Inserted(free, k, b), live - {b.a},
                   obtained, base)
    ensures k < |Inserted(free, k, b)| && Inserted(free, k, b)[k].a == free[k].a
  {
    InsertedSorted(free, k, b);
    InsertedFromBase(free, base, k, b);
    InsertedRing(ptr, size, free, base, k, b);
    FreeKeepsLive(size, free, live, base, k, b);
    forall u: nat
      ensures u in obtained <==> InList(Inserted(free, k, b), u) || InLive(live - {b.a}, u)
    {
      InsertedUnits(free, k, b, u);
      LiveWithout(live, b.a, u);
    }
  }

  lemma FreeKeepsLive(size: map<nat, nat>, free: seq<Blk>, live: map<nat, nat>, base: nat, k: nat, b: Blk)
    requires Sorted(free) && FromBase(free, base) && LiveOk(size, free, live, base)
    requires b.a in live && b.s == live[b.a] && Belongs(free, k, b)
    ensures LiveOk(FreedSize(size, free, k, b), Inserted(free, k, b), live - {b.a}, base)
  {
    InsertedFromBase(free, base, k, b);
    hide Inserted, Sorted;
    var live' := live - {b.a};
    forall a | a in live'
      ensures a in FreedSize(size, free, k, b) && FreedSize(size, free, k, b)[a] == live[a]
      ensures ApartFrom(Inserted(free, k, b), Blk(a, live[a]))
    {
      var c := Blk(a, live[a]);
      assert ApartFrom(free, c) && a != b.a && a != free[k].a;
      forall u: nat | InBlk(c, u)
        ensures !InList(Inserted(free, k, b), u)
      {
        ApartNoUnits(free, c, u);
        InsertedUnits(free, k, b, u);
      }
      NoUnitsApart(Inserted(free, k, b), base, c);
    }
  }

  // ----- malloc: taking a block -----

  function TakenSize(size: map<nat, nat>, free: seq<Blk>, j: nat, n: nat): map<nat, nat>
    requires j < |free| && n <= free[j].s
  {
    if free[j].s == n then size else size[free[j].a := free[j].s - n][Tail(free, j, n).a := n]
  }

  function TakenPtr(ptr: map<nat, nat>, free: seq<Blk>, j: nat, n: nat): map<nat, nat>
    requires 1 <= j < |free| && n <= free[j].s && free[j].a in ptr
  {
    if free[j].s == n then ptr[free[j - 1].a := ptr[free[j].a]] else ptr
  }

  lemma TakenNode(ptr: map<nat, nat>, size: map<nat, nat>, free: seq<Blk>, j: nat, n: nat, i: nat)
    requires Sorted(free) && Ring(ptr, size, free) && 1 <= j < |free| && 0 < n <= free[j].s
    requires i < |Taken(free, j, n)|
    ensures free[j].a in ptr
    ensures NodeOk(TakenPtr(ptr, free, j, n), TakenSize(size, free, j, n), Taken(free, j, n), i)
  {
    RingAt(ptr, size, free, j);
    if free[j].s == n {
      UnlinkedNode(ptr, size, free, j, i);
    } else {
      hide Ring;
      RingAt(ptr, size, free, i);
      TailIsNoNode(free, j, n, i);
    }
  }

  lemma UnlinkedNode(ptr: map<nat, nat>, size: map<nat, nat>, free: seq<Blk>, j: nat, i: nat)
    requires Sorted(free) && Ring(ptr, size, free) && 1 <= j < |free| && 0 < free[j].s
    requires i < |free| - 1
    ensures free[j].a in ptr
    ensures NodeOk(TakenPtr(ptr, free, j, free[j].s), TakenSize(size, free, j, free[j].s),
                   Taken(free, j, free[j].s), i)
  {
    var r := Taken(free, j, free[j].s);
    var q := if i < j then i else i + 1;
    RingAt(ptr, size, free, j);
    RingAt(ptr, size, free, q);
    hide Ring;
    assert r[i] == free[q];
    var x := Next(i, |r|);
    assert r[x] == free[if x < j then x else x + 1];
    assert q != j - 1 ==> free[q].a != free[j - 1].a;
    assert free[q].a != free[j].a;
  }

  lemma TailIsNoNode(free: seq<Blk>, j: nat, n: nat, i: nat)
    requires Sorted(free) && j < |free| && 0 < n < free[j].s && i < |free|
    ensures free[i].a != Tail(free, j, n).a
  {
  }

  lemma TakeKeepsHeap(ptr: map<nat, nat>, size: map<nat, nat>, free: seq<Blk>, live: map<nat, nat>,
                      obtained: set<nat>, base: nat, j: nat, n: nat)
    requires HeapOk(ptr, size, free, live, obtained, base) && 1 <= j < |free| && 0 < n <= free[j].s
    ensures free[j].a in ptr && Tail(free, j, n).a !in live
    ensures HeapOk(TakenPtr(ptr, free, j, n), TakenSize(size, free, j, n), Taken(free, j, n),
                   live[Tail(free, j, n).a := n], obtained, base)
  {
    var t := Tail(free, j, n);
    TakenSorted(free, base, j, n);
    RingAt(ptr, size, free, j);
    forall i | 0 <= i < |Taken(free, j, n)|
      ensures NodeOk(TakenPtr(ptr, free, j, n), TakenSize(size, free, j, n), Taken(free, j, n), i)
    {
      TakenNode(ptr, size, free, j, n, i);
    }
    TakeKeepsLive(size, free, live, base, j, n);
    forall u: nat
      ensures u in obtained <==> InList(Taken(free, j, n), u) || InLive(live[t.a := n], u)
    {
      TakenUnits(free, j, n, u);
      LiveWith(live, t, u);
      InSplit(free, j, u);
    }
  }

  lemma TakeKeepsLive(size: map<nat, nat>, free: seq<Blk>, live: map<nat, nat>, base: nat, j: nat, n: nat)
    requires Sorted(free) && FromBase(free, base) && LiveOk(size, free, live, base)
    requires 1 <= j < |free| && 0 < n <= free[j].s && free[j].a in size && size[free[j].a] == free[j].s
    ensures Tail(free, j, n).a !in live
    ensures LiveOk(TakenSize(size, free, j, n), Taken(free, j, n), live[Tail(free, j, n).a := n], base)
  {
    var t := Tail(free, j, n);
    TakenSorted(free, base, j, n);
    assert free[0].a < free[j].a;
    forall a | a in live
      ensures a != free[j].a && a != t.a && (a + live[a] <= t.a || t.a + n <= a)
    {
      assert ApartFrom(free, Blk(a, live[a]));
    }
    hide Sorted, Taken;
    var live' := live[t.a := n];
    forall a | a in live'
      ensures ApartFrom(Taken(free, j, n), Blk(a, live'[a]))
    {
      var c := Blk(a, live'[a]);
      forall u: nat | InBlk(c, u)
        ensures !InList(Taken(free, j, n), u)
      {
        TakenUnits(free, j, n, u);
        if a != t.a { ApartNoUnits(free, c, u); }
      }
      NoUnitsApart(Taken(free, j, n), base, c);
    }
  }

  // ----- positions relative to freep -----

  /** The e-th block after position f, going round. */
  function Rot(f: nat, e: nat, n: nat): nat
    requires f < n && e < n
  {
    if f + 1 + e < n then f + 1 + e else f + 1 + e - n
  }

  ghost predicate HasFit(free: seq<Blk>, n: nat) {
    exists i :: 0 <= i < |free| && free[i].s >= n
  }

  /** The blocks visited so far on this lap are too small. */
  ghost predicate Passed(free: seq<Blk>, f: nat, e: nat, n: nat)
    requires f < |free| && e <= |free|
  {
    forall q :: 0 <= q < e ==> free[Rot(f, q, |free|)].s < n
  }

  /** A whole lap sees every block. */
  lemma FullLap(free: seq<Blk>, f: nat, n: nat)
    requires f < |free| && Passed(free, f, |free|, n)
    ensures !HasFit(free, n)
  {
    forall i | 0 <= i < |free|
      ensures free[i].s < n
    {
      var q := if i > f then i - f - 1 else |free| - f - 1 + i;
      assert Rot(f, q, |free|) == i;
    }
  }

  ghost function Range(a: nat, n: nat): (r: set<nat>)
    ensures forall u: nat :: u in r <==> a <= u < a + n
  {
    if n == 0 then {} else Range(a, n - 1) + {a + n - 1}
  }

  /** A fresh piece of core joins the heap as an allocated block, ready to be freed. */
  lemma CoreJoins(ptr: map<nat, nat>, size: map<nat, nat>, free: seq<Blk>, live: map<nat, nat>,
                  obtained: set<nat>, base: nat, b: Blk)
    requires HeapOk(ptr, size, free, live, obtained, base)
    requires b.a > base && b.s > 0 && Range(b.a, b.s) !! obtained
    ensures b.a !in live
    ensures HeapOk(ptr, size[b.a := b.s], free, live[b.a := b.s], obtained + Range(b.a, b.s), base)
  {
    forall u: nat | InBlk(b, u)
      ensures !InList(free, u) && !InLive(live, u)
    {
      assert u in Range(b.a, b.s);
    }
    NoUnitsApart(free, base, b);
    forall a | a in live
      ensures a != b.a && (a + live[a] <= b.a || b.a + b.s <= a)
    {
      var u := if a < b.a then b.a else a;
      assert InBlk(Blk(a, live[a]), u) ==> InLive(live, u);
    }
    var size', live' := size[b.a := b.s], live[b.a := b.s];
    forall i | 0 <= i < |free|
      ensures NodeOk(ptr, size', free, i)
    {
      RingAt(ptr, size, free, i);
    }
    forall u: nat
      ensures u in obtained + Range(b.a, b.s) <==> InList(free, u) || InLive(live', u)
    {
      LiveWith(live, b, u);
    }
  }

  class Heap {
    const base: nat
    var freep: nat           // 0 before the first call
    var ptr: map<nat, nat>   // s.ptr and s.size of the header at each address
    var size: map<nat, nat>

    ghost var free: seq<Blk>
    ghost var live: map<nat, nat>
    ghost var obtained: set<nat>

    ghost predicate Started()
      reads this
    {
      && HeapOk(ptr, size, free, live, obtained, base) && base > 0
      && exists f :: 0 <= f < |free| && free[f].a == freep
    }

    ghost predicate Valid()
      reads this
    {
      if freep == 0 then base > 0 && free == [] && live == map[] && obtained == {} else Started()
    }

    constructor (base: nat)
      requires base > 0
      ensures Valid() && live == map[] && obtained == {} && this.base == base
    {
      this.base := base;
      freep, ptr, size, free, live, obtained := 0, map[], map[], [], map[], {};
    }

    /** free's search, from freep: it ends within one lap at the block after which bp belongs. */
    method FindPredecessor(bp: nat) returns (p: nat, ghost k: nat)
      requires Started() && bp in live
      ensures Belongs(free, k, Blk(bp, live[bp])) && p == free[k].a
    {
      ghost var b := Blk(bp, live[bp]);
      k := FindPlace(free, base, b);
      p := freep;
      ghost var i :| 0 <= i < |free| && free[i].a == freep;
      RingAt(ptr, size, free, i);
      while !(bp > p && bp < ptr[p])
        invariant 0 <= i < |free| && p == free[i].a && NodeOk(ptr, size, free, i)
        decreases Distance(i, k, |free|)
      {
        if p >= ptr[p] && (bp > p || bp < ptr[p]) {
          break;
        }
        assert i != k;
        p := ptr[p];
        i := Next(i, |free|);
        RingAt(ptr, size, free, i);
      }
      k := i;
    }

    /** free: the block's units, and no others, become free; it merges with the neighbours it touches. */
    method Free(ap: nat)
      requires Started() && ap > 0 && ap - 1 in live
      modifies this
      ensures Started() && live == old(live) - {ap - 1} && obtained == old(obtained)
      ensures forall u: nat :: InList(free, u) <==> InList(old(free), u) || InBlk(Blk(ap - 1, old(live)[ap - 1]), u)
    {
      hide HeapOk, Above, After, Inserted, InList, InBlk;
      var bp := ap - 1;
      ghost var b := Blk(bp, live[bp]);
      var p;
      ghost var k;
      HeapShape(ptr, size, free, live, obtained, base);
      p, k := FindPredecessor(bp);
      FreeKeepsHeap(ptr, size, free, live, obtained, base, k, b);
      FreeWrites(ptr, size, free, live, obtained, base, k, b);
      ghost var ptr0, size0 := ptr, size;
      var next := ptr[p];
      if bp + size[bp] == next {
        size := size[bp := size[bp] + size[next]];
        ptr := ptr[bp := ptr[next]];
      } else {
        ptr := ptr[bp := next];
      }
      if p + size[p] == bp {
        size := size[p := size[p] + size[bp]];
        ptr := ptr[p := ptr[bp]];
      } else {
        ptr := ptr[p := bp];
      }
      freep := p;
      assert ptr == FreedPtr(ptr0, free, k, b) && size == FreedSize(size0, free, k, b);
      forall u: nat
        ensures InList(Inserted(free, k, b), u) <==> InList(free, u) || InBlk(b, u)
      {
        InsertedUnits(free, k, b, u);
      }
      free := Inserted(free, k, b);
      live := live - {bp};
    }

    /** morecore: ask sbrk for at least MIN_CORE units and free them; afterwards some block has nu units. */
    method Morecore(nu: nat, sbrk: Option<nat>) returns (ok: bool)
      requires Started() && nu > 0 && SbrkOk(nu, sbrk)
      modifies this
      ensures Started() && ok == sbrk.Some? && live == old(live)
      ensures !ok ==> free == old(free) && obtained == old(obtained) && freep == old(freep)
      ensures ok ==> HasFit(free, nu) && obtained == old(obtained) + Range(sbrk.value, Core(nu))
      ensures ok ==> forall u: nat :: InList(free, u) <==> InList(old(free), u) || InBlk(Blk(sbrk.value, Core(nu)), u)
    {
      hide HeapOk, InBlk, InList;
      var n := if nu < MIN_CORE then MIN_CORE else nu;
      if sbrk.None? {
        return false;
      }
      var hp := sbrk.value;
      ghost var b := Blk(hp, n);
      CoreJoins(ptr, size, free, live, obtained, base, b);
      size := size[hp := n];
      live := live[hp := n];
      obtained := obtained + Range(hp, n);
      Free(hp + 1);
      assert live == old(live);
      FitAppears(ptr, size, free, live, obtained, base, b);
      FitMonotone(free, n, nu);
      return true;
    }

    /** sbrk, if it answers, answers with memory above base that it has not given out before. */
    ghost predicate SbrkOk(nu: nat, sbrk: Option<nat>)
      reads this
    {
      sbrk.Some? ==> sbrk.value > base && Range(sbrk.value, Core(nu)) !! obtained
    }

    /** malloc: hands out a block of enough units, taken from the tail of a free block that fits.  It asks
        for more core at most once, only if nothing fits, and fails only if that is refused. */
    method Malloc(nbytes: nat, sbrk: Option<nat>) returns (r: Option<nat>)
      requires Valid() && SbrkOk(Units(nbytes), sbrk)
      modifies this
      ensures Started()
      ensures r.Some? <==> HasFit(old(free), Units(nbytes)) || sbrk.Some?
      ensures var n := Units(nbytes);
              && obtained == (if HasFit(old(free), n) || sbrk.None? then old(obtained)
                              else old(obtained) + Range(sbrk.value, Core(n)))
              && (n - 1) * HEADER >= nbytes
              && (r.Some? ==> r.value > 0 && r.value - 1 !in old(live) && live == old(live)[r.value - 1 := n])
              && (r.None? ==> live == old(live) && forall u: nat :: InList(free, u) <==> InList(old(free), u))
    {
      hide HeapOk, InList, InBlk, HasFit, Passed, Taken, Tail;
      var nunits := Units(nbytes);
      if freep == 0 {
        NoFitInEmpty(base, nunits);
        EmptyHeap(base);
        ptr, size, freep := map[base := base], map[base := 0], base;
        free := [Blk(base, 0)];
        assert free[0].a == freep;
      }
      ghost var free0 := free;
      ghost var grown, e := false, 0;
      var prevp := freep;
      ghost var f :| 0 <= f < |free| && free[f].a == freep;
      StartLap(ptr, size, free, live, obtained, base, f, nunits);
      var p := ptr[prevp];
      while true
        invariant Started() && 0 <= f < |free| && freep == free[f].a && 0 <= e < |free|
        invariant p == free[Rot(f, e, |free|)].a && prevp == free[Prev(Rot(f, e, |free|), |free|)].a
        invariant Passed(free, f, e, nunits) && live == old(live)
        invariant !grown ==> free == free0 && obtained == old(obtained)
        invariant grown ==>
                    && HasFit(free, nunits) && !HasFit(free0, nunits) && sbrk.Some?
                    && obtained == old(obtained) + Range(sbrk.value, Core(nunits))
        decreases !grown, |free| - e
      {
        ghost var j := Rot(f, e, |free|);
        AtNode(ptr, size, free, live, obtained, base, j, nunits);
        if size[p] >= nunits {
          var at := TakeFrom(prevp, p, nunits, j);
          return Some(at + 1);
        }
        LapStep(ptr, size, free, live, obtained, base, f, e, nunits);
        if p == freep {
          var ok := Morecore(nunits, sbrk);
          if !ok {
            return None;
          }
          p := freep;
          grown := true;
          f :| 0 <= f < |free| && free[f].a == freep;
          StartLap(ptr, size, free, live, obtained, base, f, nunits);
          e := 0;
        } else {
          e := e + 1;
        }
        prevp := p;
        p := ptr[p];
      }
    }

    /** malloc's use of the block at p: unlink it if it fits exactly, else cut nunits off its tail. */
    method TakeFrom(prevp: nat, p: nat, nunits: nat, ghost j: nat) returns (at: nat)
      requires Started() && 1 <= j < |free| && p == free[j].a && prevp == free[j - 1].a && 0 < nunits <= free[j].s
      modifies this
      ensures Started() && freep == prevp && obtained == old(obtained)
      ensures free == Taken(old(free), j, nunits) && at == Tail(old(free), j, nunits).a
      ensures at !in old(live) && live == old(live)[at := nunits]
    {
      hide HeapOk;
      TakeKeepsHeap(ptr, size, free, live, obtained, base, j, nunits);
      HeapNode(ptr, size, free, live, obtained, base, j);
      HeapNode(ptr, size, free, live, obtained, base, j - 1);
      at := p;
      if size[p] == nunits {
        ptr := ptr[prevp := ptr[p]];
      } else {
        size := size[p := size[p] - nunits];
        at := p + size[p];
        size := size[at := nunits];
      }
      freep := prevp;
      free, live := Taken(free, j, nunits), live[at := nunits];
      assert free[j - 1].a == freep;
    }
  }

  function Prev(j: nat, n: nat): nat
    requires j < n
  {
    if j == 0 then n - 1 else j - 1
  }

  lemma HeapNode(ptr: map<nat, nat>, size: map<nat, nat>, free: seq<Blk>, live: map<nat, nat>,
                 obtained: set<nat>, base: nat, j: nat)
    requires HeapOk(ptr, size, free, live, obtained, base) && j < |free|
    ensures NodeOk(ptr, size, free, j) && free[0].s == 0
  {
    RingAt(ptr, size, free, j);
  }

  /** The block looked at has its size and its successor in its header, and is not base if it fits. */
  lemma AtNode(ptr: map<nat, nat>, size: map<nat, nat>, free: seq<Blk>, live: map<nat, nat>,
               obtained: set<nat>, base: nat, j: nat, n: nat)
    requires HeapOk(ptr, size, free, live, obtained, base) && j < |free| && n > 0
    ensures NodeOk(ptr, size, free, j) && (free[j].s >= n ==> j >= 1 && HasFit(free, n))
  {
    RingAt(ptr, size, free, j);
  }

  /** A block too small: one more passed.  If it is freep's, the lap is over and nothing fits. */
  lemma LapStep(ptr: map<nat, nat>, size: map<nat, nat>, free: seq<Blk>, live: map<nat, nat>,
                obtained: set<nat>, base: nat, f: nat, e: nat, n: nat)
    requires HeapOk(ptr, size, free, live, obtained, base) && f < |free| && e < |free|
    requires Passed(free, f, e, n) && free[Rot(f, e, |free|)].s < n
    ensures free[Rot(f, e, |free|)].a == free[f].a ==> !HasFit(free, n)
    ensures free[Rot(f, e, |free|)].a != free[f].a ==>
              && e + 1 < |free| && Passed(free, f, e + 1, n)
              && Rot(f, e + 1, |free|) == Next(Rot(f, e, |free|), |free|)
              && Prev(Rot(f, e + 1, |free|), |free|) == Rot(f, e, |free|)
  {
    assert Passed(free, f, e + 1, n);
    if free[Rot(f, e, |free|)].a == free[f].a {
      assert Rot(f, e, |free|) == f;
      FullLap(free, f, n);
    }
  }

  lemma StartLap(ptr: map<nat, nat>, size: map<nat, nat>, free: seq<Blk>, live: map<nat, nat>,
                 obtained: set<nat>, base: nat, f: nat, n: nat)
    requires HeapOk(ptr, size, free, live, obtained, base) && f < |free|
    ensures NodeOk(ptr, size, free, f) && Passed(free, f, 0, n)
    ensures Rot(f, 0, |free|) == Next(f, |free|) && Prev(Rot(f, 0, |free|), |free|) == f
  {
    RingAt(ptr, size, free, f);
  }

  lemma EmptyHeap(base: nat)
    ensures HeapOk(map[base := base], map[base := 0], [Blk(base, 0)], map[], {}, base)
    ensures forall u: nat :: InList([Blk(base, 0)], u) <==> InList([], u)
  {
    assert NodeOk(map[base := base], map[base := 0], [Blk(base, 0)], 0);
  }

  lemma NoFitInEmpty(base: nat, n: nat)
    requires n > 0
    ensures !HasFit([Blk(base, 0)], n) && !HasFit([], n)
  {
  }

  /** Units malloc needs for nbytes, header included: the least number whose others hold nbytes. */
  function Units(nbytes: nat): (n: nat)
    ensures n > 0 && (n - 2) * HEADER < nbytes <= (n - 1) * HEADER
  {
    (nbytes + HEADER - 1) / HEADER + 1
  }

  /** Units morecore asks sbrk for. */
  function Core(nu: nat): (n: nat)
    ensures n >= nu && n >= MIN_CORE && n in {nu, MIN_CORE}
  {
    if nu < MIN_CORE then MIN_CORE else nu
  }

  /** A block all of whose units are free lies in one free block, since free blocks never abut. */
  lemma FitAppears(ptr: map<nat, nat>, size: map<nat, nat>, free: seq<Blk>, live: map<nat, nat>,
                   obtained: set<nat>, base: nat, b: Blk)
    requires HeapOk(ptr, size, free, live, obtained, base) && b.s > 0
    requires forall u: nat :: InBlk(b, u) ==> InList(free, u)
    ensures HasFit(free, b.s)
  {
    assert InBlk(b, b.a);
    var i :| 0 <= i < |free| && InBlk(free[i], b.a);
    StaysInside(free, b, i, b.s - 1);
  }

  lemma FitMonotone(free: seq<Blk>, n: nat, m: nat)
    requires HasFit(free, n) && m <= n
    ensures HasFit(free, m)
  {
    var i :| 0 <= i < |free| && free[i].s >= n;
  }

  lemma {:induction false} StaysInside(free: seq<Blk>, b: Blk, i: nat, d: nat)
    requires Sorted(free) && i < |free| && d < b.s && InBlk(free[i], b.a)
    requires forall u: nat :: InBlk(b, u) ==> InList(free, u)
    ensures InBlk(free[i], b.a + d)
  {
    if d > 0 {
      StaysInside(free, b, i, d - 1);
      var u := b.a + d;
      assert InBlk(b, u);
      var q :| 0 <= q < |free| && InBlk(free[q], u);
    }
  }

  lemma HeapShape(ptr: map<nat, nat>, size: map<nat, nat>, free: seq<Blk>, live: map<nat, nat>,
                  obtained: set<nat>, base: nat)
    requires HeapOk(ptr, size, free, live, obtained, base)
    ensures forall a :: a in live ==> a in size && size[a] == live[a] && live[a] > 0 && a > base
  {
  }

  /** What the headers say around the place of b. */
  lemma FreeWrites(ptr: map<nat, nat>, size: map<nat, nat>, free: seq<Blk>, live: map<nat, nat>,
                   obtained: set<nat>, base: nat, k: nat, b: Blk)
    requires HeapOk(ptr, size, free, live, obtained, base)
    requires b.a in live && b.s == live[b.a] && Belongs(free, k, b)
    ensures free[k].a in ptr && free[k].a in size && size[free[k].a] == free[k].s && free[k].a != b.a
    ensures var next := ptr[free[k].a];
            && next in ptr && next in size && next != b.a
            && (b.a + b.s == next <==> JoinsUpper(free, k, b))
            && (if JoinsUpper(free, k, b) then size[next] == free[k + 1].s && ptr[next] == After(free, k, b)
                else next == After(free, k, b))
  {
    RingAt(ptr, size, free, k);
    RingAt(ptr, size, free, Next(k, |free|));
    assert free[0].a == base && b.a > base;
    assert ApartFrom(free, b);
    AboveAt(free, k, b);
  }
}
