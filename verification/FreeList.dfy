/** The free list of the K&R allocator as a list of blocks in address order.

    Addresses and sizes are counted in headers.  The first block is the empty `base`. */
module FreeList {

  datatype Blk = Blk(a: nat, s: nat)

  predicate InBlk(b: Blk, u: nat) { b.a <= u < b.a + b.s }

  ghost predicate InList(free: seq<Blk>, u: nat) {
    exists i :: 0 <= i < |free| && InBlk(free[i], u)
  }

  /** Address order with a gap between any two neighbours: no two free blocks abut. */
  ghost predicate Sorted(free: seq<Blk>) {
    forall i, j :: 0 <= i < j < |free| ==> free[i].a + free[i].s < free[j].a
  }

  /** Starts with the empty base block; every other block has some units. */
  ghost predicate FromBase(free: seq<Blk>, base: nat) {
    && |free| > 0 && free[0] == Blk(base, 0)
    && forall i :: 1 <= i < |free| ==> free[i].s > 0
  }

  ghost predicate ApartFrom(free: seq<Blk>, b: Blk) {
    forall i :: 0 <= i < |free| ==> b.a + b.s <= free[i].a || free[i].a + free[i].s <= b.a
  }

  /** The block goes right after position k. */
  predicate Belongs(free: seq<Blk>, k: nat, b: Blk) {
    k < |free| && free[k].a < b.a && (k + 1 < |free| ==> b.a < free[k + 1].a)
  }

  predicate JoinsUpper(free: seq<Blk>, k: nat, b: Blk)
    requires k < |free|
  {
    k + 1 < |free| && b.a + b.s == free[k + 1].a
  }

  predicate JoinsLower(free: seq<Blk>, k: nat, b: Blk)
    requires k < |free|
  {
    free[k].a + free[k].s == b.a
  }

  /** b, grown by the block after position k if it reaches it. */
  function Grown(free: seq<Blk>, k: nat, b: Blk): Blk
    requires k < |free|
  {
    if JoinsUpper(free, k, b) then Blk(b.a, b.s + free[k + 1].s) else b
  }

  /** What follows position k once b has swallowed its upper neighbour or not. */
  function Above(free: seq<Blk>, k: nat, b: Blk): seq<Blk>
    requires k < |free|
  {
    if JoinsUpper(free, k, b) then free[k + 2..] else free[k + 1..]
  }

  /** The list after free has put b in, merging with the neighbours it touches. */
  function Inserted(free: seq<Blk>, k: nat, b: Blk): seq<Blk>
    requires k < |free|
  {
    var g := Grown(free, k, b);
    if JoinsLower(free, k, b)
    then free[..k] + [Blk(free[k].a, free[k].s + g.s)] + Above(free, k, b)
    else free[..k + 1] + [g] + Above(free, k, b)
  }

  // ----- inserting keeps the order -----

  lemma AboveAt(free: seq<Blk>, k: nat, b: Blk)
    requires k < |free|
    ensures var up := Above(free, k, b);
            && |up| + k + 1 <= |free| && forall j :: 0 <= j < |up| ==> up[j] == free[|free| - |up| + j]
  {
  }

  lemma AboveSorted(free: seq<Blk>, k: nat, b: Blk)
    requires Sorted(free) && k < |free|
    ensures Sorted(Above(free, k, b))
  {
    AboveAt(free, k, b);
    hide Above;
  }

  lemma GrownFits(free: seq<Blk>, k: nat, b: Blk)
    requires Sorted(free) && Belongs(free, k, b) && ApartFrom(free, b) && b.s > 0
    ensures var g := Grown(free, k, b);
            && g.a == b.a && free[k].a + free[k].s <= g.a && g.s > 0
            && forall j :: 0 <= j < |Above(free, k, b)| ==> g.a + g.s < Above(free, k, b)[j].a
  {
    AboveAt(free, k, b);
    assert k + 1 < |free| ==> b.a + b.s <= free[k + 1].a;
  }

  lemma SortedPrefix(free: seq<Blk>, k: nat)
    requires Sorted(free) && k <= |free|
    ensures Sorted(free[..k])
    ensures k < |free| ==> forall i :: 0 <= i < k ==> free[..k][i].a + free[..k][i].s < free[k].a
  {
  }

  lemma SortedLast(free: seq<Blk>, k: nat, lo: seq<Blk>, m: Blk)
    requires Sorted(free) && k < |free| && lo == free[..k + 1] && free[k].a + free[k].s < m.a
    ensures forall i :: 0 <= i < |lo| ==> lo[i].a + lo[i].s < m.a
  {
  }

  lemma InsertedSorted(free: seq<Blk>, k: nat, b: Blk)
    requires Sorted(free) && Belongs(free, k, b) && ApartFrom(free, b) && b.s > 0
    ensures Sorted(Inserted(free, k, b))
  {
    hide Sorted, Grown, Above;
    GrownFits(free, k, b);
    AboveSorted(free, k, b);
    var g, up := Grown(free, k, b), Above(free, k, b);
    if JoinsLower(free, k, b) {
      SortedPrefix(free, k);
      JoinSorted(free[..k], Blk(free[k].a, free[k].s + g.s), up);
    } else {
      SortedPrefix(free, k + 1);
      SortedLast(free, k, free[..k + 1], g);
      JoinSorted(free[..k + 1], g, up);
    }
  }

  lemma InsertedFromBase(free: seq<Blk>, base: nat, k: nat, b: Blk)
    requires Sorted(free) && FromBase(free, base) && Belongs(free, k, b) && ApartFrom(free, b) && b.s > 0
    ensures FromBase(Inserted(free, k, b), base)
  {
    hide Sorted, Grown, Above;
    GrownFits(free, k, b);
    AboveAt(free, k, b);
    var g, up := Grown(free, k, b), Above(free, k, b);
    var r := Inserted(free, k, b);
    var n := |r| - |up|;
    forall i | 1 <= i < |r|
      ensures r[i].s > 0
    {
      if i < n - 1 { assert r[i] == free[i]; } else if i >= n { assert r[i] == up[i - n]; }
    }
  }

  lemma JoinSorted(lo: seq<Blk>, m: Blk, up: seq<Blk>)
    requires Sorted(lo) && Sorted(up)
    requires forall i :: 0 <= i < |lo| ==> lo[i].a + lo[i].s < m.a
    requires forall j :: 0 <= j < |up| ==> m.a + m.s < up[j].a
    ensures Sorted(lo + [m] + up)
  {
    var r := lo + [m] + up;
    assert forall i :: 0 <= i < |lo| ==> r[i] == lo[i];
    assert r[|lo|] == m;
    assert forall j :: 0 <= j < |up| ==> r[|lo| + 1 + j] == up[j];
    forall i, j | 0 <= i < j < |r|
      ensures r[i].a + r[i].s < r[j].a
    {
      if i < |lo| && j > |lo| {
        assert r[j] == up[j - |lo| - 1];
      } else if i > |lo| {
        assert r[i] == up[i - |lo| - 1] && r[j] == up[j - |lo| - 1];
      }
    }
  }

  // ----- inserting adds exactly the block's units -----

  lemma InAppend(xs: seq<Blk>, ys: seq<Blk>, u: nat)
    ensures InList(xs + ys, u) <==> InList(xs, u) || InList(ys, u)
  {
    var zs := xs + ys;
    if InList(xs, u) { var i :| 0 <= i < |xs| && InBlk(xs[i], u); assert InBlk(zs[i], u); }
    if InList(ys, u) { var i :| 0 <= i < |ys| && InBlk(ys[i], u); assert InBlk(zs[|xs| + i], u); }
    if InList(zs, u) {
      var i :| 0 <= i < |zs| && InBlk(zs[i], u);
      if i < |xs| { assert InBlk(xs[i], u); } else { assert InBlk(ys[i - |xs|], u); }
    }
  }

  lemma InOne(b: Blk, u: nat)
    ensures InList([b], u) <==> InBlk(b, u)
  {
    if InBlk(b, u) { assert InBlk([b][0], u); }
  }

  lemma InSplit(free: seq<Blk>, k: nat, u: nat)
    requires k < |free|
    ensures InList(free, u) <==> InList(free[..k], u) || InBlk(free[k], u) || InList(free[k + 1..], u)
  {
    assert free == free[..k] + ([free[k]] + free[k + 1..]);
    InAppend(free[..k], [free[k]] + free[k + 1..], u);
    InAppend([free[k]], free[k + 1..], u);
    InOne(free[k], u);
  }

  lemma AboveUnits(free: seq<Blk>, k: nat, b: Blk, u: nat)
    requires k < |free|
    ensures InBlk(b, u) || InList(free[k + 1..], u) <==> InBlk(Grown(free, k, b), u) || InList(Above(free, k, b), u)
  {
    if JoinsUpper(free, k, b) {
      InSplit(free[k + 1..], 0, u);
      assert free[k + 1..][1..] == free[k + 2..];
      assert !InList(free[k + 1..][..0], u);
    }
  }

  lemma InsertedUnits(free: seq<Blk>, k: nat, b: Blk, u: nat)
    requires k < |free|
    ensures InList(Inserted(free, k, b), u) <==> InList(free, u) || InBlk(b, u)
  {
    var g, up := Grown(free, k, b), Above(free, k, b);
    InSplit(free, k, u);
    AboveUnits(free, k, b, u);
    if JoinsLower(free, k, b) {
      var m := Blk(free[k].a, free[k].s + g.s);
      InAppend(free[..k] + [m], up, u);
      InAppend(free[..k], [m], u);
      InOne(m, u);
    } else {
      InAppend(free[..k + 1] + [g], up, u);
      InAppend(free[..k + 1], [g], u);
      InOne(g, u);
      assert free[..k + 1] == free[..k] + [free[k]];
      InAppend(free[..k], [free[k]], u);
      InOne(free[k], u);
    }
  }

  // ----- taking a block, whole or from its tail -----

  function Taken(free: seq<Blk>, j: nat, n: nat): seq<Blk>
    requires j < |free| && n <= free[j].s
  {
    if free[j].s == n then free[..j] + free[j + 1..] else free[j := Blk(free[j].a, free[j].s - n)]
  }

  /** The block handed out: the last n units of block j. */
  function Tail(free: seq<Blk>, j: nat, n: nat): Blk
    requires j < |free| && n <= free[j].s
  {
    Blk(free[j].a + (free[j].s - n), n)
  }

  lemma TakenSorted(free: seq<Blk>, base: nat, j: nat, n: nat)
    requires Sorted(free) && FromBase(free, base) && 1 <= j < |free| && 0 < n <= free[j].s
    ensures Sorted(Taken(free, j, n)) && FromBase(Taken(free, j, n), base)
  {
    var r := Taken(free, j, n);
    if free[j].s == n {
      assert forall i :: 0 <= i < |r| ==> r[i] == free[if i < j then i else i + 1];
    }
  }

  lemma TakenUnits(free: seq<Blk>, j: nat, n: nat, u: nat)
    requires Sorted(free) && j < |free| && n <= free[j].s
    ensures InList(Taken(free, j, n), u) <==> InList(free, u) && !InBlk(Tail(free, j, n), u)
  {
    InSplit(free, j, u);
    if InBlk(free[j], u) { OnlyOneBlock(free, j, u); }
    var r := Taken(free, j, n);
    if free[j].s == n {
      InAppend(free[..j], free[j + 1..], u);
    } else {
      InSplit(r, j, u);
      assert r[..j] == free[..j] && r[j + 1..] == free[j + 1..];
    }
  }

  lemma OnlyOneBlock(free: seq<Blk>, j: nat, u: nat)
    requires Sorted(free) && j < |free| && InBlk(free[j], u)
    ensures !InList(free[..j], u) && !InList(free[j + 1..], u)
  {
  }
}
