/**
 * User address spaces (src/vm.c): page tables refining a map from pages to physical pages, with growth
 * that either succeeds or leaves no trace, exact teardown, and copies.
 */
module Vm {
  import opened Wrappers
  import opened VmTree

  const UADDR_SZ := 0x1000_0000
  const UPAGES := UADDR_SZ / PTE_SZ
  const AP_RW_1_0 := 0x40

  type Content = seq<int>

  /** A cleared page. */
  function Zeroes(): (z: Content)
    ensures |z| == PTE_SZ && forall i :: 0 <= i < |z| ==> z[i] == 0
  {
    seq(PTE_SZ, _ => 0)
  }

  /** The place where a physical page is mapped. */
  datatype Where = Where(d: nat, v: nat)

  function PagesFor(sz: nat): (n: nat)
    ensures (n - 1) * PTE_SZ < sz <= n * PTE_SZ
  {
    (sz + PTE_SZ - 1) / PTE_SZ
  }

  /** Roles as before, and no new page directory. */
  ghost predicate Grown(role: map<nat, Role>, role': map<nat, Role>) {
    && (forall t :: t in role ==> t in role' && role'[t] == role[t])
    && (forall t :: t in role' && t !in role ==> !role'[t].Root?)
  }

  ghost predicate InTree(role: map<nat, Role>, d: nat, t: nat) {
    t in role && match role[t]
    case Root => t == d
    case Mid(u, _) => u == d
    case Leaf(m, _) => m in role && role[m].Mid? && role[m].up == d
  }

  /** The new tables are d's. */
  ghost predicate GrownFor(role: map<nat, Role>, role': map<nat, Role>, d: nat) {
    forall t :: t in role' && t !in role ==> InTree(role', d, t)
  }

  lemma GrownForTwice(role: map<nat, Role>, role1: map<nat, Role>, role2: map<nat, Role>, d: nat)
    requires Grown(role1, role2) && GrownFor(role, role1, d) && GrownFor(role1, role2, d)
    ensures GrownFor(role, role2, d)
  {
    forall t | t in role2 && t !in role ensures InTree(role2, d, t) {
      assert t in role1 ==> InTree(role1, d, t);
    }
  }

  /** Translations differ at most for pages lo <= v < hi of d. */
  ghost predicate Within(dir: Dirs, leaf: Leaves, dir': Dirs, leaf': Leaves, role: map<nat, Role>,
                         d: nat, lo: nat, hi: nat)
  {
    forall e: nat, w: nat {:trigger Trans(dir', leaf', e, w)} ::
      IsRoot(role, e) && (e != d || w < lo || hi <= w) ==> Trans(dir', leaf', e, w) == Trans(dir, leaf, e, w)
  }

  lemma NoChange(dir: Dirs, leaf: Leaves, role: map<nat, Role>)
    ensures SameTrans(dir, leaf, dir, leaf, role) && Grown(role, role) && forall d :: GrownFor(role, role, d)
  {
  }

  lemma TransTwice(dir: Dirs, leaf: Leaves, role: map<nat, Role>, dir1: Dirs, leaf1: Leaves, role1: map<nat, Role>,
                   dir2: Dirs, leaf2: Leaves, role2: map<nat, Role>)
    requires SameTrans(dir, leaf, dir1, leaf1, role) && Grown(role, role1)
    requires SameTrans(dir1, leaf1, dir2, leaf2, role1) && Grown(role1, role2)
    ensures SameTrans(dir, leaf, dir2, leaf2, role) && Grown(role, role2)
  {
    forall d: nat, v: nat | IsRoot(role, d)
      ensures Trans(dir2, leaf2, d, v) == Trans(dir, leaf, d, v)
    {
      assert Trans(dir1, leaf1, d, v) == Trans(dir, leaf, d, v);
    }
  }

  lemma WithinTwice(dir: Dirs, leaf: Leaves, role: map<nat, Role>, dir1: Dirs, leaf1: Leaves, role1: map<nat, Role>,
                    dir2: Dirs, leaf2: Leaves, d: nat, lo: nat, mid: nat, hi: nat)
    requires Within(dir, leaf, dir1, leaf1, role, d, lo, mid) && Grown(role, role1) && lo <= mid <= hi
    requires Within(dir1, leaf1, dir2, leaf2, role1, d, mid, hi)
    ensures Within(dir, leaf, dir2, leaf2, role, d, lo, hi)
  {
    forall e: nat, w: nat | IsRoot(role, e) && (e != d || w < lo || hi <= w)
      ensures Trans(dir2, leaf2, e, w) == Trans(dir, leaf, e, w)
    {
      assert Trans(dir1, leaf1, e, w) == Trans(dir, leaf, e, w);
    }
  }

  lemma SameThenWithin(dir: Dirs, leaf: Leaves, role: map<nat, Role>, dir1: Dirs, leaf1: Leaves, role1: map<nat, Role>,
                       leaf2: Leaves, d: nat, lo: nat, hi: nat)
    requires SameTrans(dir, leaf, dir1, leaf1, role) && Grown(role, role1)
    requires Within(dir1, leaf1, dir1, leaf2, role1, d, lo, hi)
    ensures Within(dir, leaf, dir1, leaf2, role, d, lo, hi)
  {
    forall e: nat, w: nat | IsRoot(role, e) && (e != d || w < lo || hi <= w)
      ensures Trans(dir1, leaf2, e, w) == Trans(dir, leaf, e, w)
    {
      assert Trans(dir1, leaf1, e, w) == Trans(dir, leaf, e, w);
    }
  }

  lemma WithinNone(dir: Dirs, leaf: Leaves, role: map<nat, Role>, d: nat, lo: nat)
    ensures Within(dir, leaf, dir, leaf, role, d, lo, lo) && Grown(role, role) && GrownFor(role, role, d)
  {
  }

  lemma GrownTwice(role: map<nat, Role>, role1: map<nat, Role>, role2: map<nat, Role>)
    requires Grown(role, role1) && Grown(role1, role2)
    ensures Grown(role, role2)
  {
  }

  /** Pages first up to end map to successive physical pages from pa. */
  ghost predicate MapsTo(dir: Dirs, leaf: Leaves, d: nat, first: nat, end: nat, pa: nat, ap: nat) {
    forall v: nat {:trigger Trans(dir, leaf, d, v)} :: first <= v < end ==>
      Trans(dir, leaf, d, v) == Some(Pte(pa + (v - first) * PTE_SZ, ap))
  }

  ghost predicate NoneMapped(dir: Dirs, leaf: Leaves, d: nat, lo: nat, hi: nat) {
    forall v: nat {:trigger Trans(dir, leaf, d, v)} :: lo <= v < hi ==> Trans(dir, leaf, d, v) == None
  }

  lemma MapStep(dir: Dirs, leaf: Leaves, dir': Dirs, leaf': Leaves, role: map<nat, Role>,
                d: nat, first: nat, a: nat, end: nat, pa: nat, ap: nat)
    requires IsRoot(role, d) && Within(dir, leaf, dir', leaf', role, d, a, a + 1) && first <= a < end
    requires MapsTo(dir, leaf, d, first, a, pa, ap) && NoneMapped(dir, leaf, d, a, end)
    requires Trans(dir', leaf', d, a) == Some(Pte(pa + (a - first) * PTE_SZ, ap))
    ensures MapsTo(dir', leaf', d, first, a + 1, pa, ap) && NoneMapped(dir', leaf', d, a + 1, end)
  {
    forall v: nat | first <= v < a + 1
      ensures Trans(dir', leaf', d, v) == Some(Pte(pa + (v - first) * PTE_SZ, ap))
    {
      if v < a { assert Trans(dir, leaf, d, v) == Some(Pte(pa + (v - first) * PTE_SZ, ap)); }
    }
    forall v: nat | a + 1 <= v < end ensures Trans(dir', leaf', d, v) == None {
      assert Trans(dir, leaf, d, v) == None;
    }
  }

  // ----- physical pages -----

  ghost predicate MappedAt(dir: Dirs, leaf: Leaves, role: map<nat, Role>, pa: nat, at: Where) {
    && IsRoot(role, at.d) && Trans(dir, leaf, at.d, at.v).Some?
    && Trans(dir, leaf, at.d, at.v).value.pa == pa
  }

  ghost predicate PageOwned(pown: map<nat, Where>, p: Option<Pte>, d: nat, v: nat) {
    p.Some? ==> p.value.pa in pown && pown[p.value.pa] == Where(d, v)
  }

  /** Every mapped page is mapped once, none is on the free list, and every taken page is mapped. */
  ghost predicate PhysOk(dir: Dirs, leaf: Leaves, role: map<nat, Role>, pown: map<nat, Where>, avail: set<nat>) {
    && (forall pa :: pa in pown || pa in avail ==> pa > 0 && pa % PTE_SZ == 0)
    && (forall pa :: pa in pown ==> pa !in avail && MappedAt(dir, leaf, role, pa, pown[pa]))
    && (forall d: nat, v: nat {:trigger Trans(dir, leaf, d, v)} ::
          IsRoot(role, d) ==> PageOwned(pown, Trans(dir, leaf, d, v), d, v))
  }

  /** Page v of d, unmapped so far, gets a free page. */
  lemma PhysMap(dir: Dirs, leaf: Leaves, dir': Dirs, leaf': Leaves, role: map<nat, Role>, role': map<nat, Role>,
                pown: map<nat, Where>, avail: set<nat>, d: nat, v: nat, p: Pte)
    requires PhysOk(dir, leaf, role, pown, avail) && Grown(role, role') && IsRoot(role, d) && p.pa in avail
    requires Within(dir, leaf, dir', leaf', role, d, v, v + 1)
    requires Trans(dir, leaf, d, v) == None && Trans(dir', leaf', d, v) == Some(p)
    ensures PhysOk(dir', leaf', role', pown[p.pa := Where(d, v)], avail - {p.pa})
  {
    var pown' := pown[p.pa := Where(d, v)];
    forall pa | pa in pown' ensures MappedAt(dir', leaf', role', pa, pown'[pa]) {
      if pa != p.pa { assert MappedAt(dir, leaf, role, pa, pown[pa]); }
    }
    forall e: nat, w: nat | IsRoot(role', e)
      ensures PageOwned(pown', Trans(dir', leaf', e, w), e, w)
    {
      assert IsRoot(role, e);
      if e != d || w != v {
        assert Trans(dir', leaf', e, w) == Trans(dir, leaf, e, w);
        assert PageOwned(pown, Trans(dir, leaf, e, w), e, w);
      }
    }
  }

  /** Page v of d gives its page back. */
  lemma PhysUnmap(dir: Dirs, leaf: Leaves, dir': Dirs, leaf': Leaves, role: map<nat, Role>,
                  pown: map<nat, Where>, avail: set<nat>, d: nat, v: nat)
    requires PhysOk(dir, leaf, role, pown, avail) && IsRoot(role, d)
    requires Within(dir, leaf, dir', leaf', role, d, v, v + 1)
    requires Trans(dir, leaf, d, v).Some? && Trans(dir', leaf', d, v) == None
    ensures var pa := Trans(dir, leaf, d, v).value.pa;
            && pa in pown && pa !in avail && pa > 0
            && PhysOk(dir', leaf', role, pown - {pa}, avail + {pa})
  {
    var pa := Trans(dir, leaf, d, v).value.pa;
    assert PageOwned(pown, Trans(dir, leaf, d, v), d, v);
    var pown' := pown - {pa};
    forall q | q in pown' ensures MappedAt(dir', leaf', role, q, pown'[q]) {
      assert MappedAt(dir, leaf, role, q, pown[q]);
    }
    forall e: nat, w: nat | IsRoot(role, e)
      ensures PageOwned(pown', Trans(dir', leaf', e, w), e, w)
    {
      if e != d || w != v {
        assert Trans(dir', leaf', e, w) == Trans(dir, leaf, e, w);
        assert PageOwned(pown, Trans(dir, leaf, e, w), e, w);
      }
    }
  }

  // ----- deallocuvm's walk -----

  /**
   * The pages deallocuvm steps over, starting at from: its jump past a missing page table lands on the first
   * page of the next one, and the loop's own step then passes it.
   */
  predicate Skipped(dir: Dirs, d: nat, from: nat, v: nat) {
    v % PTRS == 0 && v > from && LeafOf(dir, d, v - 1) == None
  }

  function AlignUp(a: nat): (r: nat)
    ensures a <= r < a + PTRS && r % PTRS == 0
  {
    (a + PTRS - 1) / PTRS * PTRS
  }

  /** After the pages from up to a have been walked. */
  ghost predicate Torn(dir: Dirs, leaf: Leaves, leaf': Leaves, d: nat, from: nat, a: nat) {
    forall v: nat {:trigger Trans(dir, leaf', d, v)} :: from <= v < a ==>
      Trans(dir, leaf', d, v) == if Skipped(dir, d, from, v) then Trans(dir, leaf, d, v) else None
  }

  lemma SameTable(dir: Dirs, d: nat, v: nat, w: nat)
    requires v / PTRS == w / PTRS
    ensures LeafOf(dir, d, v) == LeafOf(dir, d, w)
  {
    assert v / PTRS / PTRS == v / (PTRS * PTRS) && w / PTRS / PTRS == w / (PTRS * PTRS);
  }

  /** No page table at a: the pages up to the next table are unmapped, and its first page is skipped. */
  lemma TornGap(dir: Dirs, leaf: Leaves, leaf': Leaves, role: map<nat, Role>, d: nat, from: nat, a: nat)
    requires Torn(dir, leaf, leaf', d, from, a) && Within(dir, leaf, dir, leaf', role, d, from, a)
    requires from <= a && LeafOf(dir, d, a) == None && IsRoot(role, d)
    ensures Torn(dir, leaf, leaf', d, from, AlignUp(a) + 1)
  {
    forall v: nat | from <= v < AlignUp(a) + 1
      ensures Trans(dir, leaf', d, v) == if Skipped(dir, d, from, v) then Trans(dir, leaf, d, v) else None
    {
      if v >= a {
        GapAt(dir, d, from, a, v);
        assert Trans(dir, leaf', d, v) == Trans(dir, leaf, d, v);
      }
      hide AlignUp;
    }
  }

  lemma GapAt(dir: Dirs, d: nat, from: nat, a: nat, v: nat)
    requires from <= a <= v < AlignUp(a) + 1 && LeafOf(dir, d, a) == None
    ensures LeafOf(dir, d, v) == None || Skipped(dir, d, from, v)
  {
    hide LeafOf;
    if v < AlignUp(a) || v == a {
      SameTable(dir, d, a, v);
    } else {
      SameTable(dir, d, a, v - 1);
    }
  }

  ghost predicate NoneSkipped(dir: Dirs, leaf: Leaves, d: nat, from: nat, end: nat) {
    forall v: nat {:trigger Trans(dir, leaf, d, v)} ::
      from <= v < end && Skipped(dir, d, from, v) ==> Trans(dir, leaf, d, v) == None
  }

  /** deallocuvm unmaps the whole range exactly when none of the pages it skips is mapped. */
  lemma TornIsExactIff(dir: Dirs, leaf: Leaves, leaf': Leaves, d: nat, from: nat, end: nat)
    requires Torn(dir, leaf, leaf', d, from, end)
    ensures NoneMapped(dir, leaf', d, from, end) <==> NoneSkipped(dir, leaf, d, from, end)
  {
    forall v: nat | from <= v < end
      ensures Trans(dir, leaf', d, v) == if Skipped(dir, d, from, v) then Trans(dir, leaf, d, v) else None
    {
    }
  }

  /** The mapped pages of the range come first in it. */
  ghost predicate MappedFirst(dir: Dirs, leaf: Leaves, d: nat, from: nat, mid: nat, end: nat) {
    forall w: nat {:trigger Trans(dir, leaf, d, w)} :: from <= w < end ==> (Trans(dir, leaf, d, w).Some? <==> w < mid)
  }

  /** Then nothing skipped is mapped. */
  lemma ContiguousIsExact(dir: Dirs, leaf: Leaves, leaf': Leaves, d: nat, from: nat, mid: nat, end: nat)
    requires MappedFirst(dir, leaf, d, from, mid, end) && Torn(dir, leaf, leaf', d, from, end)
    ensures NoneMapped(dir, leaf', d, from, end)
  {
    ContiguousSkipsNone(dir, leaf, d, from, mid, end);
    TornIsExactIff(dir, leaf, leaf', d, from, end);
  }

  lemma ContiguousSkipsNone(dir: Dirs, leaf: Leaves, d: nat, from: nat, mid: nat, end: nat)
    requires MappedFirst(dir, leaf, d, from, mid, end)
    ensures NoneSkipped(dir, leaf, d, from, end)
  {
    forall v: nat | from <= v < end && Skipped(dir, d, from, v)
      ensures Trans(dir, leaf, d, v) == None
    {
      assert Trans(dir, leaf, d, v - 1) == None;
    }
  }

  lemma TornStep(dir: Dirs, leaf: Leaves, leaf1: Leaves, leaf2: Leaves, role: map<nat, Role>, d: nat, from: nat, a: nat)
    requires Torn(dir, leaf, leaf1, d, from, a) && Within(dir, leaf1, dir, leaf2, role, d, a, a + 1)
    requires IsRoot(role, d) && Trans(dir, leaf2, d, a) == None && from <= a && !Skipped(dir, d, from, a)
    ensures Torn(dir, leaf, leaf2, d, from, a + 1)
  {
    forall v: nat | from <= v < a + 1
      ensures Trans(dir, leaf2, d, v) == if Skipped(dir, d, from, v) then Trans(dir, leaf, d, v) else None
    {
      if v < a { assert Trans(dir, leaf2, d, v) == Trans(dir, leaf1, d, v); }
    }
  }

  lemma WithinWider(dir: Dirs, leaf: Leaves, leaf': Leaves, role: map<nat, Role>, d: nat, lo: nat, hi: nat, hi': nat)
    requires Within(dir, leaf, dir, leaf', role, d, lo, hi) && hi <= hi'
    ensures Within(dir, leaf, dir, leaf', role, d, lo, hi')
  {
  }

  // ----- growing -----

  /** Pages from up to a of d are mapped read-write to zeroed pages of avail. */
  ghost predicate FreshPages(dir: Dirs, leaf: Leaves, d: nat, from: nat, a: nat, avail: set<nat>,
                             page: map<nat, Content>)
  {
    forall v: nat {:trigger Trans(dir, leaf, d, v)} :: from <= v < a ==> FreshPage(Trans(dir, leaf, d, v), avail, page)
  }

  predicate FreshPage(p: Option<Pte>, avail: set<nat>, page: map<nat, Content>) {
    && p.Some? && p.value.ap == AP_RW_1_0 && p.value.pa in avail
    && p.value.pa in page && page[p.value.pa] == Zeroes()
  }

  /** The contents of pages outside avail are the same. */
  ghost predicate PagesKept(page: map<nat, Content>, page': map<nat, Content>, avail: set<nat>) {
    forall pa :: pa !in avail ==> (pa in page <==> pa in page') && (pa in page ==> page'[pa] == page[pa])
  }

  lemma FreshNext(dir: Dirs, leaf: Leaves, dir': Dirs, leaf': Leaves, role: map<nat, Role>, d: nat, from: nat, a: nat,
                  avail0: set<nat>, avail: set<nat>, pown: map<nat, Where>, page: map<nat, Content>, pa: nat)
    requires FreshPages(dir, leaf, d, from, a, avail0, page) && PhysOk(dir, leaf, role, pown, avail)
    requires Within(dir, leaf, dir', leaf', role, d, a, a + 1) && IsRoot(role, d) && pa in avail && pa in avail0
    requires Trans(dir', leaf', d, a) == Some(Pte(pa, AP_RW_1_0))
    ensures FreshPages(dir', leaf', d, from, a + 1, avail0, page[pa := Zeroes()])
  {
    forall v: nat | from <= v < a + 1
      ensures FreshPage(Trans(dir', leaf', d, v), avail0, page[pa := Zeroes()])
    {
      if v < a {
        assert Trans(dir', leaf', d, v) == Trans(dir, leaf, d, v);
        assert FreshPage(Trans(dir, leaf, d, v), avail0, page);
        assert PageOwned(pown, Trans(dir, leaf, d, v), d, v);
      }
    }
  }

  /** The translations fix which physical pages are taken. */
  lemma SameOwners(dir: Dirs, leaf: Leaves, role: map<nat, Role>, pown: map<nat, Where>, avail: set<nat>,
                   dir': Dirs, leaf': Leaves, role': map<nat, Role>, pown': map<nat, Where>, avail': set<nat>)
    requires PhysOk(dir, leaf, role, pown, avail) && PhysOk(dir', leaf', role', pown', avail')
    requires Grown(role, role') && SameTrans(dir, leaf, dir', leaf', role)
    requires avail + pown.Keys == avail' + pown'.Keys
    ensures pown == pown' && avail == avail'
  {
    forall pa | pa in pown ensures pa in pown' && pown'[pa] == pown[pa] {
      var at := pown[pa];
      assert MappedAt(dir, leaf, role, pa, at);
      assert PageOwned(pown', Trans(dir', leaf', at.d, at.v), at.d, at.v);
    }
    forall pa | pa in pown' ensures pa in pown {
      var at := pown'[pa];
      assert MappedAt(dir', leaf', role', pa, at);
      assert Trans(dir', leaf', at.d, at.v) == Trans(dir, leaf, at.d, at.v);
      assert PageOwned(pown, Trans(dir, leaf, at.d, at.v), at.d, at.v);
    }
    assert pown == pown';
    assert forall pa :: pa in avail <==> pa in avail + pown.Keys && pa !in pown;
    assert forall pa :: pa in avail' <==> pa in avail' + pown'.Keys && pa !in pown';
  }

  /** Grown and torn down again. */
  lemma BackAgain(dir: Dirs, leaf: Leaves, role: map<nat, Role>, dir1: Dirs, leaf1: Leaves, role1: map<nat, Role>,
                  leaf2: Leaves, d: nat, from: nat, a: nat, end: nat)
    requires Within(dir, leaf, dir1, leaf1, role, d, from, a) && Within(dir1, leaf1, dir1, leaf2, role1, d, from, end)
    requires Grown(role, role1) && a <= end && IsRoot(role, d)
    requires NoneMapped(dir, leaf, d, from, end) && NoneMapped(dir1, leaf2, d, from, end)
    ensures SameTrans(dir, leaf, dir1, leaf2, role)
  {
    forall e: nat, w: nat | IsRoot(role, e)
      ensures Trans(dir1, leaf2, e, w) == Trans(dir, leaf, e, w)
    {
      if e == d && from <= w < end {
        assert Trans(dir, leaf, e, w) == None;
      } else {
        assert Trans(dir1, leaf1, e, w) == Trans(dir, leaf, e, w);
      }
    }
  }

  // ----- copyuvm -----

  /** Page p, in a copy, has the access bits and the contents of page q, on a page of its own. */
  predicate Copies(q: Option<Pte>, p: Option<Pte>, page: map<nat, Content>, avail: set<nat>) {
    && q.Some? && p.Some? && p.value.ap == q.value.ap && p.value.pa in avail
    && q.value.pa in page && p.value.pa in page && page[p.value.pa] == page[q.value.pa]
  }

  /** Pages 0 up to a of nd copy those of d, as d was mapped by dir0 and leaf0. */
  ghost predicate CopiedTo(dir0: Dirs, leaf0: Leaves, d: nat, dir: Dirs, leaf: Leaves, nd: nat, a: nat,
                           page: map<nat, Content>, avail: set<nat>)
  {
    forall v: nat {:trigger Trans(dir, leaf, nd, v)} :: v < a ==>
      Copies(Trans(dir0, leaf0, d, v), Trans(dir, leaf, nd, v), page, avail)
  }

  lemma CopyNext(dir0: Dirs, leaf0: Leaves, d: nat, dir: Dirs, leaf: Leaves, dir': Dirs, leaf': Leaves,
                 role: map<nat, Role>, nd: nat, a: nat, pown: map<nat, Where>, page: map<nat, Content>,
                 avail: set<nat>, avail0: set<nat>, q: Pte, pa: nat)
    requires CopiedTo(dir0, leaf0, d, dir, leaf, nd, a, page, avail0) && PhysOk(dir, leaf, role, pown, avail)
    requires IsRoot(role, d) && IsRoot(role, nd) && d != nd && pa in avail && pa in avail0
    requires forall v: nat :: v <= a ==> Trans(dir, leaf, d, v) == Trans(dir0, leaf0, d, v)
    requires Trans(dir0, leaf0, d, a) == Some(q) && q.pa in page
    requires Within(dir, leaf, dir', leaf', role, nd, a, a + 1) && Trans(dir', leaf', nd, a) == Some(Pte(pa, q.ap))
    ensures CopiedTo(dir0, leaf0, d, dir', leaf', nd, a + 1, page[pa := page[q.pa]], avail0)
  {
    forall v: nat | v < a + 1
      ensures Copies(Trans(dir0, leaf0, d, v), Trans(dir', leaf', nd, v), page[pa := page[q.pa]], avail0)
    {
      assert Trans(dir, leaf, d, v) == Trans(dir0, leaf0, d, v);
      assert PageOwned(pown, Trans(dir, leaf, d, v), d, v);
      if v < a {
        assert Trans(dir', leaf', nd, v) == Trans(dir, leaf, nd, v);
        assert Copies(Trans(dir0, leaf0, d, v), Trans(dir, leaf, nd, v), page, avail0);
        assert PageOwned(pown, Trans(dir, leaf, nd, v), nd, v);
      }
    }
  }

  /** An address space with nothing mapped leaves: its pages were nobody's. */
  lemma PhysPruned(dir: Dirs, leaf: Leaves, role: map<nat, Role>, dir': Dirs, leaf': Leaves, role': map<nat, Role>,
                   pown: map<nat, Where>, avail: set<nat>, d: nat)
    requires PhysOk(dir, leaf, role, pown, avail) && Unmapped(dir, leaf, d)
    requires SameTrans(dir, leaf, dir', leaf', role')
    requires forall e :: IsRoot(role', e) <==> IsRoot(role, e) && e != d
    ensures PhysOk(dir', leaf', role', pown, avail)
  {
    forall pa | pa in pown ensures MappedAt(dir', leaf', role', pa, pown[pa]) {
      assert MappedAt(dir, leaf, role, pa, pown[pa]);
      assert Trans(dir, leaf, d, pown[pa].v) == None;
    }
    forall e: nat, v: nat | IsRoot(role', e)
      ensures PageOwned(pown, Trans(dir', leaf', e, v), e, v)
    {
      assert Trans(dir', leaf', e, v) == Trans(dir, leaf, e, v);
      assert PageOwned(pown, Trans(dir, leaf, e, v), e, v);
    }
  }

  ghost function Count(s: set<nat>): nat { |s| }

  datatype Snap = Snap(dir: Dirs, leaf: Leaves, role: map<nat, Role>, page: map<nat, Content>, avail: set<nat>,
                       pown: map<nat, Where>)

  class Vmm {
    var dir: Dirs
    var leaf: Leaves
    var kpt: set<nat>              // free table pages
    var brk: nat                   // table pages never used yet: brk and up
    var avail: set<nat>            // free physical pages
    var page: map<nat, Content>    // their contents

    ghost var role: map<nat, Role>
    ghost var pown: map<nat, Where>

    ghost predicate Tables()
      reads this
    {
      && TreeOk(dir, leaf, role) && kpt !! role.Keys
      && (forall t :: t in kpt || t in role ==> t < brk)
    }

    ghost predicate Valid()
      reads this
    {
      Tables() && PhysOk(dir, leaf, role, pown, avail) && pown.Keys <= page.Keys
    }

    /** No address space yet, and the pages of avail free. */
    constructor (avail: set<nat>)
      requires forall pa :: pa in avail ==> pa > 0 && pa % PTE_SZ == 0
      ensures Valid() && role == map[] && this.avail == avail && pown == map[]
    {
      dir, leaf, kpt, brk := map[], map[], {}, 0;
      page, role, pown := map[], map[], map[];
      this.avail := avail;
    }

    /** An address space with a gap: no page table for pages 0 to PTRS - 1, and page PTRS mapped. */
    constructor Gap()
      ensures Valid() && IsRoot(role, 1) && LeafOf(dir, 1, PTRS - 1) == None
      ensures Trans(dir, leaf, 1, PTRS) == Some(Pte(PTE_SZ, AP_RW_1_0))
    {
      dir := map[1 := NoTables(PTRS_PER_PGD)[0 := Some(2)], 2 := NoTables(PTRS)[1 := Some(3)]];
      leaf := map[3 := NoPages()[0 := Some(Pte(PTE_SZ, AP_RW_1_0))]];
      role := map[1 := Root, 2 := Mid(1, 0), 3 := Leaf(2, 1)];
      kpt, brk, avail := {}, 4, {};
      page, pown := map[PTE_SZ := Zeroes()], map[PTE_SZ := Where(1, PTRS)];
      new;
      GapMapsOne(dir, leaf, role);
    }

    static lemma GapMapsOne(dir: Dirs, leaf: Leaves, role: map<nat, Role>)
      requires dir == map[1 := NoTables(PTRS_PER_PGD)[0 := Some(2)], 2 := NoTables(PTRS)[1 := Some(3)]]
      requires leaf == map[3 := NoPages()[0 := Some(Pte(PTE_SZ, AP_RW_1_0))]]
      requires role == map[1 := Root, 2 := Mid(1, 0), 3 := Leaf(2, 1)]
      ensures TreeOk(dir, leaf, role) && LeafOf(dir, 1, PTRS - 1) == None
      ensures forall v: nat :: Trans(dir, leaf, 1, v) == if v == PTRS then Some(Pte(PTE_SZ, AP_RW_1_0)) else None
    {
      forall v: nat ensures Trans(dir, leaf, 1, v) == if v == PTRS then Some(Pte(PTE_SZ, AP_RW_1_0)) else None {
        if PgdIdx(v) == PgdIdx(PTRS) && PmdIdx(v) == PmdIdx(PTRS) && PteIdx(v) == PteIdx(PTRS) {
          SameIndices(v, PTRS);
        }
      }
    }

    /** kpt_alloc: a table page nobody uses. */
    method KptAlloc() returns (x: nat)
      requires Tables()
      modifies this`kpt, this`brk
      ensures x !in role && x !in kpt && kpt == old(kpt) - {x}
      ensures x < brk && forall t :: t in kpt || t in role ==> t < brk
    {
      if kpt != {} {
        x :| x in kpt;
        kpt := kpt - {x};
      } else {
        x, brk := brk, brk + 1;
      }
    }

    /** walkpgdir: the page table of page v, adding empty tables on the way if alloc. */
    method Walk(d: nat, v: nat, alloc: bool) returns (r: Option<nat>)
      requires Tables() && IsRoot(role, d) && v < NPAGES
      modifies this`dir, this`leaf, this`kpt, this`brk, this`role
      ensures Tables() && Grown(old(role), role) && SameTrans(old(dir), old(leaf), dir, leaf, old(role))
      ensures r == LeafOf(dir, d, v) && (alloc ==> r.Some?) && (!alloc ==> unchanged(this))
      ensures GrownFor(old(role), role, d)
    {
      hide TreeOk, SameTrans, Grown, GrownFor;
      RootAt(d);
      NoChange(dir, leaf, role);
      var pmd := dir[d][PgdIdx(v)];
      if pmd.None? {
        if !alloc {
          return None;
        }
        var x := NewMid(d, PgdIdx(v));
        pmd := Some(x);
      }
      MidAt(d, PgdIdx(v), pmd.value);
      r := dir[pmd.value][PmdIdx(v)];
      if r.None? && alloc {
        ghost var dir1, leaf1, role1 := dir, leaf, role;
        var y := NewLeaf(pmd.value, PmdIdx(v));
        TransTwice(old(dir), old(leaf), old(role), dir1, leaf1, role1, dir, leaf, role);
        GrownForTwice(old(role), role1, role, d);
        r := Some(y);
      }
    }

    method NewMid(d: nat, i: nat) returns (x: nat)
      requires Tables() && IsRoot(role, d) && i < PTRS_PER_PGD && Get(dir, d, i) == None
      modifies this`dir, this`kpt, this`brk, this`role
      ensures Tables() && Grown(old(role), role) && IsRoot(role, d) && SameTrans(old(dir), leaf, dir, leaf, old(role))
      ensures Get(dir, d, i) == Some(x) && GrownFor(old(role), role, d)
    {
      hide TreeOk, SameTrans;
      RootAt(d);
      x := KptAlloc();
      AddMid(dir, leaf, role, d, i, x);
      dir := dir[x := NoTables(PTRS)][d := dir[d][i := Some(x)]];
      role := role[x := Mid(d, i)];
    }

    method NewLeaf(m: nat, j: nat) returns (y: nat)
      requires Tables() && m in role && role[m].Mid? && m in dir && |dir[m]| == PTRS && j < PTRS
      requires Get(dir, m, j) == None
      modifies this`dir, this`leaf, this`kpt, this`brk, this`role
      ensures Tables() && Grown(old(role), role) && SameTrans(old(dir), old(leaf), dir, leaf, old(role))
      ensures dir == old(dir)[m := old(dir)[m][j := Some(y)]] && GrownFor(old(role), role, old(role)[m].up)
    {
      hide TreeOk, SameTrans;
      y := KptAlloc();
      AddLeaf(dir, leaf, role, m, j, y);
      dir := dir[m := dir[m][j := Some(y)]];
      leaf := leaf[y := NoPages()];
      role := role[y := Leaf(m, j)];
    }

    lemma RootAt(d: nat)
      requires TreeOk(dir, leaf, role) && IsRoot(role, d)
      ensures d in dir && |dir[d]| == PTRS_PER_PGD
    {
      assert TableOk(dir, leaf, role, d);
    }

    lemma MidAt(d: nat, i: nat, m: nat)
      requires TreeOk(dir, leaf, role) && IsRoot(role, d) && Get(dir, d, i) == Some(m)
      ensures m in role && role[m] == Mid(d, i) && m in dir && |dir[m]| == PTRS && m != d
    {
      assert EntryOk(dir, role, d, i);
      assert TableOk(dir, leaf, role, m);
    }

    /** Write the entry of page v, whose page table is y. */
    method SetEntry(d: nat, v: nat, y: nat, p: Option<Pte>)
      requires Tables() && IsRoot(role, d) && LeafOf(dir, d, v) == Some(y)
      modifies this`leaf
      ensures Tables() && Within(dir, old(leaf), dir, leaf, role, d, v, v + 1) && Trans(dir, leaf, d, v) == p
    {
      hide TreeOk;
      SetPte(dir, leaf, role, d, v, p);
      leaf := leaf[y := leaf[y][PteIdx(v) := p]];
    }

    /** One turn of mappages' loop. */
    method MapPage(d: nat, v: nat, p: Pte)
      requires Tables() && IsRoot(role, d) && v < NPAGES && Trans(dir, leaf, d, v) == None
      modifies this`dir, this`leaf, this`kpt, this`brk, this`role
      ensures Tables() && Grown(old(role), role) && GrownFor(old(role), role, d) && IsRoot(role, d)
      ensures Within(old(dir), old(leaf), dir, leaf, old(role), d, v, v + 1) && Trans(dir, leaf, d, v) == Some(p)
    {
      hide TreeOk, Within, GrownFor;
      var r := Walk(d, v, true);
      var y := r.value;
      LeafAt(d, v, y);
      assert Trans(dir, leaf, d, v) == None;
      if leaf[y][PteIdx(v)].Some? {
        assert false;
      }
      ghost var leaf1 := leaf;
      SetEntry(d, v, y, Some(p));
      SameThenWithin(old(dir), old(leaf), old(role), dir, leaf1, role, leaf, d, v, v + 1);
    }

    lemma LeafAt(d: nat, v: nat, y: nat)
      requires TreeOk(dir, leaf, role) && IsRoot(role, d) && LeafOf(dir, d, v) == Some(y)
      ensures y in leaf && |leaf[y]| == PTRS
    {
      var m := Get(dir, d, PgdIdx(v)).value;
      assert EntryOk(dir, role, d, PgdIdx(v)) && EntryOk(dir, role, m, PmdIdx(v));
      assert TableOk(dir, leaf, role, y);
    }

    /** mappages: exactly the pages that [va, va + size) touches are mapped, and nothing else changes. */
    method MapPages(d: nat, va: nat, size: nat, pa: nat, ap: nat) returns (ok: bool)
      requires Tables() && IsRoot(role, d) && size > 0 && va + size <= NPAGES * PTE_SZ
      requires NoneMapped(dir, leaf, d, va / PTE_SZ, (va + size - 1) / PTE_SZ + 1)
      modifies this`dir, this`leaf, this`kpt, this`brk, this`role
      ensures ok && Tables() && Grown(old(role), role) && GrownFor(old(role), role, d) && IsRoot(role, d)
      ensures var first, end := va / PTE_SZ, (va + size - 1) / PTE_SZ + 1;
              && Within(old(dir), old(leaf), dir, leaf, old(role), d, first, end)
              && MapsTo(dir, leaf, d, first, end, pa, ap)
    {
      hide TreeOk, Within, MapsTo, NoneMapped, Grown, GrownFor, Trans;
      var first, last := va / PTE_SZ, (va + size - 1) / PTE_SZ;
      var a, p := first, pa;
      WithinNone(dir, leaf, role, d, first);
      NothingYet(dir, leaf, d, first, pa, ap);
      while true
        invariant first <= a <= last && p == pa + (a - first) * PTE_SZ && Tables() && IsRoot(role, d)
        invariant Grown(old(role), role) && Within(old(dir), old(leaf), dir, leaf, old(role), d, first, a)
        invariant GrownFor(old(role), role, d)
        invariant MapsTo(dir, leaf, d, first, a, pa, ap) && NoneMapped(dir, leaf, d, a, last + 1)
        decreases last - a
      {
        NextFree(dir, leaf, d, a, last + 1);
        ghost var dir1, leaf1, role1 := dir, leaf, role;
        MapPage(d, a, Pte(p, ap));
        WithinTwice(old(dir), old(leaf), old(role), dir1, leaf1, role1, dir, leaf, d, first, a, a + 1);
        GrownTwice(old(role), role1, role);
        GrownForTwice(old(role), role1, role, d);
        MapStep(dir1, leaf1, dir, leaf, role1, d, first, a, last + 1, pa, ap);
        if a == last {
          break;
        }
        a, p := a + 1, p + PTE_SZ;
      }
      return true;
    }

    static lemma NothingYet(dir: Dirs, leaf: Leaves, d: nat, first: nat, pa: nat, ap: nat)
      ensures MapsTo(dir, leaf, d, first, first, pa, ap)
    {
    }

    static lemma NextFree(dir: Dirs, leaf: Leaves, d: nat, a: nat, end: nat)
      requires NoneMapped(dir, leaf, d, a, end) && a < end
      ensures Trans(dir, leaf, d, a) == None
    {
    }

    /**
     * deallocuvm: every page of the range is unmapped and its physical page freed, except the skipped ones,
     * which stay as they were.
     */
    method DeallocUvm(d: nat, oldsz: nat, newsz: nat) returns (r: nat)
      requires Valid() && IsRoot(role, d) && oldsz <= NPAGES * PTE_SZ
      modifies this`dir, this`leaf, this`kpt, this`brk, this`role, this`avail, this`pown
      ensures dir == old(dir) && kpt == old(kpt) && brk == old(brk) && role == old(role)
      ensures r == (if newsz >= oldsz then oldsz else newsz) && Valid()
      ensures newsz >= oldsz ==> unchanged(this)
      ensures newsz < oldsz ==>
                && Within(dir, old(leaf), dir, leaf, role, d, PagesFor(newsz), PagesFor(oldsz))
                && Torn(dir, old(leaf), leaf, d, PagesFor(newsz), PagesFor(oldsz))
      ensures avail + pown.Keys == old(avail) + old(pown).Keys
    {
      hide TreeOk, PhysOk, Within, Torn, Trans, LeafOf, AlignUp;
      if newsz >= oldsz {
        return oldsz;
      }
      var from, end := PagesFor(newsz), PagesFor(oldsz);
      var a := from;
      ghost var hi := from;   // nothing at or past it has changed
      NothingTorn(dir, leaf, role, d, from);
      while a < end
        invariant dir == old(dir) && kpt == old(kpt) && brk == old(brk) && role == old(role)
        invariant from <= hi <= a && hi <= end && Valid()
        invariant Within(dir, old(leaf), dir, leaf, role, d, from, hi) && Torn(dir, old(leaf), leaf, d, from, a)
        invariant a > from && a % PTRS == 0 ==> LeafOf(dir, d, a - 1).Some?
        invariant avail + pown.Keys == old(avail) + old(pown).Keys
      {
        WithinWider(dir, old(leaf), leaf, role, d, from, hi, a);
        ghost var leaf1 := leaf;
        var y := Walk(d, a, false);
        if y.None? {
          TornGap(dir, old(leaf), leaf, role, d, from, a);
          a := AlignUp(a);
        } else {
          UnmapPage(d, a, y.value);
          WithinTwice(dir, old(leaf), role, dir, leaf1, role, dir, leaf, d, from, a, a + 1);
          TornStep(dir, old(leaf), leaf1, leaf, role, d, from, a);
          hi := a + 1;
        }
        a := a + 1;
      }
      TornLess(dir, old(leaf), leaf, role, d, from, hi, end, a);
      return newsz;
    }

    /** Free the page mapped at v, if any. */
    method UnmapPage(d: nat, v: nat, y: nat)
      requires Valid() && IsRoot(role, d) && LeafOf(dir, d, v) == Some(y)
      modifies this`leaf, this`avail, this`pown
      ensures Valid() && Within(dir, old(leaf), dir, leaf, role, d, v, v + 1) && Trans(dir, leaf, d, v) == None
      ensures avail + pown.Keys == old(avail) + old(pown).Keys && Grown(role, role)
    {
      hide TreeOk, PhysOk, Within;
      LeafAt(d, v, y);
      var pte := leaf[y][PteIdx(v)];
      if pte.Some? {
        var pa := pte.value.pa;
        SetEntry(d, v, y, None);
        PhysUnmap(dir, old(leaf), dir, leaf, role, pown, avail, d, v);
        if pa == 0 {
          assert false;
        }
        avail := avail + {pa};
        pown := pown - {pa};
      } else {
        WithinNone(dir, leaf, role, d, v);
        WithinWider(dir, leaf, leaf, role, d, v, v, v + 1);
      }
    }

    static lemma NothingTorn(dir: Dirs, leaf: Leaves, role: map<nat, Role>, d: nat, from: nat)
      ensures Torn(dir, leaf, leaf, d, from, from) && Within(dir, leaf, dir, leaf, role, d, from, from)
    {
    }

    static lemma TornLess(dir: Dirs, leaf: Leaves, leaf': Leaves, role: map<nat, Role>, d: nat, from: nat,
                          hi: nat, end: nat, a: nat)
      requires Torn(dir, leaf, leaf', d, from, a) && Within(dir, leaf, dir, leaf', role, d, from, hi) && hi <= end <= a
      ensures Torn(dir, leaf, leaf', d, from, end) && Within(dir, leaf, dir, leaf', role, d, from, end)
    {
    }

    method AllocPage() returns (r: Option<nat>)
      ensures r.Some? <==> avail != {}
      ensures r.Some? <==> Count(avail) > 0
      ensures r.Some? ==> r.value in avail
    {
      if avail == {} {
        return None;
      }
      var pa :| pa in avail;
      return Some(pa);
    }

    /**
     * allocuvm.  Either the new pages are all there, zeroed, and no other page has changed, or memory ran out
     * and every translation, the free pages and their owners are as they were.
     */
    method AllocUvm(d: nat, oldsz: nat, newsz: nat) returns (r: nat, ghost ok: bool)
      requires Valid() && IsRoot(role, d) && NoneMapped(dir, leaf, d, PagesFor(oldsz), PagesFor(newsz))
      modifies this
      ensures Valid() && Grown(old(role), role) && PagesKept(old(page), page, old(avail))
      ensures ok <==>
                newsz < UADDR_SZ && (newsz < oldsz || PagesFor(newsz) - PagesFor(oldsz) <= Count(old(avail)))
      ensures ok && newsz < oldsz ==> r == oldsz && unchanged(this)
      ensures ok && newsz >= oldsz ==>
                && r == newsz && Within(old(dir), old(leaf), dir, leaf, old(role), d, PagesFor(oldsz), PagesFor(newsz))
                && FreshPages(dir, leaf, d, PagesFor(oldsz), PagesFor(newsz), old(avail), page)
                && avail + pown.Keys == old(avail) + old(pown).Keys
      ensures !ok ==>
                && r == 0 && SameTrans(old(dir), old(leaf), dir, leaf, old(role))
                && avail == old(avail) && pown == old(pown)
    {
      hide TreeOk, PhysOk, Within, Torn, Trans, NoneMapped, FreshPages, SameTrans, Grown, GrownFor, PagesKept,
           PagesFor, Count;
      NoChange(dir, leaf, role);
      NothingFresh(dir, leaf, role, d, PagesFor(oldsz), avail, page);
      if newsz >= UADDR_SZ {
        return 0, false;
      }
      if newsz < oldsz {
        return oldsz, true;
      }
      PagesOrder(oldsz, newsz);
      var from, end := PagesFor(oldsz), PagesFor(newsz);
      ghost var was := Now();
      var a := from;
      while a < end
        invariant from <= a <= end && Growing(was, d, from, a, end)
      {
        var mem := AllocPage();
        if mem.None? {
          FreshIsFirst(dir, leaf, d, from, a, end, was.avail, page);
          Undo(d, oldsz, newsz, a, was.dir, was.leaf, was.role, was.pown, was.avail);
          return 0, false;
        }
        GrowOne(was, d, from, a, end, mem.value);
        a := a + 1;
      }
      return newsz, true;
    }

    ghost function Now(): Snap
      reads this
    {
      Snap(dir, leaf, role, page, avail, pown)
    }

    /** allocuvm has mapped the pages from up to a. */
    ghost predicate Growing(was: Snap, d: nat, from: nat, a: nat, end: nat)
      reads this
    {
      && Valid() && IsRoot(role, d) && avail <= was.avail && from <= a && Count(avail) + (a - from) == Count(was.avail)
      && Grown(was.role, role) && Within(was.dir, was.leaf, dir, leaf, was.role, d, from, a)
      && FreshPages(dir, leaf, d, from, a, was.avail, page) && NoneMapped(dir, leaf, d, a, end)
      && avail + pown.Keys == was.avail + was.pown.Keys && PagesKept(was.page, page, was.avail)
    }

    /** One turn of allocuvm's loop: a zeroed page is mapped. */
    method GrowOne(ghost was: Snap, d: nat, ghost from: nat, a: nat, end: nat, mem: nat)
      requires Growing(was, d, from, a, end) && a < end <= NPAGES && mem in avail
      modifies this
      ensures Growing(was, d, from, a + 1, end)
    {
      hide TreeOk, PhysOk, Within, Trans, NoneMapped, FreshPages, Grown, GrownFor, PagesKept, Count;
      ghost var t := Now();
      OneLess(avail, mem);
      TakePage(d, a, end, mem, AP_RW_1_0, Zeroes());
      FreshNext(t.dir, t.leaf, dir, leaf, t.role, d, from, a, was.avail, t.avail, t.pown, t.page, mem);
      WithinTwice(was.dir, was.leaf, was.role, t.dir, t.leaf, t.role, dir, leaf, d, from, a, a + 1);
      GrownTwice(was.role, t.role, role);
      KeptNext(was.page, t.page, was.avail, mem, Zeroes());
    }

    static lemma OneLess(s: set<nat>, x: nat)
      requires x in s
      ensures Count(s - {x}) == Count(s) - 1
    {
    }

    static lemma PagesOrder(oldsz: nat, newsz: nat)
      requires oldsz <= newsz < UADDR_SZ
      ensures PagesFor(oldsz) <= PagesFor(newsz) <= NPAGES
    {
    }

    /** Map a free page, holding data, at page v. */
    method TakePage(d: nat, v: nat, end: nat, pa: nat, ap: nat, data: Content)
      requires Valid() && IsRoot(role, d) && v < end <= NPAGES && NoneMapped(dir, leaf, d, v, end) && pa in avail
      modifies this
      ensures Valid() && IsRoot(role, d) && NoneMapped(dir, leaf, d, v + 1, end)
      ensures Grown(old(role), role) && GrownFor(old(role), role, d)
      ensures Within(old(dir), old(leaf), dir, leaf, old(role), d, v, v + 1)
      ensures Trans(dir, leaf, d, v) == Some(Pte(pa, ap)) && page == old(page)[pa := data]
      ensures avail == old(avail) - {pa} && pown == old(pown)[pa := Where(d, v)]
      ensures avail + pown.Keys == old(avail) + old(pown).Keys
    {
      hide TreeOk, PhysOk, Within, NoneMapped, MapsTo, Trans, GrownFor;
      NextFree(dir, leaf, d, v, end);
      OnePage(dir, leaf, d, v, end);
      page := page[pa := data];
      var _ := MapPages(d, v * PTE_SZ, PTE_SZ, pa, ap);
      OneMapped(old(dir), old(leaf), old(role), dir, leaf, d, v, end, pa, ap);
      PhysMap(old(dir), old(leaf), dir, leaf, old(role), role, pown, avail, d, v, Pte(pa, ap));
      avail := avail - {pa};
      pown := pown[pa := Where(d, v)];
    }

    static lemma OnePage(dir: Dirs, leaf: Leaves, d: nat, v: nat, end: nat)
      requires NoneMapped(dir, leaf, d, v, end) && v < end
      ensures NoneMapped(dir, leaf, d, v * PTE_SZ / PTE_SZ, (v * PTE_SZ + PTE_SZ - 1) / PTE_SZ + 1)
    {
    }

    static lemma OneMapped(dir: Dirs, leaf: Leaves, role: map<nat, Role>, dir': Dirs, leaf': Leaves, d: nat, v: nat,
                           end: nat, pa: nat, ap: nat)
      requires NoneMapped(dir, leaf, d, v, end) && IsRoot(role, d)
      requires var first, last := v * PTE_SZ / PTE_SZ, (v * PTE_SZ + PTE_SZ - 1) / PTE_SZ + 1;
               Within(dir, leaf, dir', leaf', role, d, first, last) && MapsTo(dir', leaf', d, first, last, pa, ap)
      ensures Within(dir, leaf, dir', leaf', role, d, v, v + 1) && Trans(dir', leaf', d, v) == Some(Pte(pa, ap))
      ensures NoneMapped(dir', leaf', d, v + 1, end)
    {
      forall w: nat | v + 1 <= w < end ensures Trans(dir', leaf', d, w) == None {
        assert Trans(dir, leaf, d, w) == None;
      }
    }

    static lemma NothingFresh(dir: Dirs, leaf: Leaves, role: map<nat, Role>, d: nat, from: nat, avail: set<nat>,
                              page: map<nat, Content>)
      ensures FreshPages(dir, leaf, d, from, from, avail, page) && PagesKept(page, page, avail)
      ensures Within(dir, leaf, dir, leaf, role, d, from, from)
    {
    }

    static lemma FreshIsFirst(dir: Dirs, leaf: Leaves, d: nat, from: nat, a: nat, end: nat, avail: set<nat>,
                              page: map<nat, Content>)
      requires FreshPages(dir, leaf, d, from, a, avail, page) && NoneMapped(dir, leaf, d, a, end)
      ensures MappedFirst(dir, leaf, d, from, a, end)
    {
      forall w: nat | from <= w < end ensures Trans(dir, leaf, d, w).Some? <==> w < a {
        assert w < a ==> FreshPage(Trans(dir, leaf, d, w), avail, page);
      }
    }

    static lemma KeptNext(page: map<nat, Content>, page1: map<nat, Content>, avail: set<nat>, pa: nat, data: Content)
      requires PagesKept(page, page1, avail) && pa in avail
      ensures PagesKept(page, page1[pa := data], avail)
    {
    }

    /** allocuvm's retreat: deallocuvm over the whole range it was asked for. */
    method Undo(d: nat, oldsz: nat, newsz: nat, ghost a: nat, ghost dir0: Dirs, ghost leaf0: Leaves,
                ghost role0: map<nat, Role>, ghost pown0: map<nat, Where>, ghost avail0: set<nat>)
      requires Valid() && IsRoot(role0, d) && IsRoot(role, d) && oldsz <= newsz <= UADDR_SZ
      requires PagesFor(oldsz) <= a < PagesFor(newsz) && Grown(role0, role)
      requires PhysOk(dir0, leaf0, role0, pown0, avail0) && avail + pown.Keys == avail0 + pown0.Keys
      requires NoneMapped(dir0, leaf0, d, PagesFor(oldsz), PagesFor(newsz))
      requires Within(dir0, leaf0, dir, leaf, role0, d, PagesFor(oldsz), a)
      requires MappedFirst(dir, leaf, d, PagesFor(oldsz), a, PagesFor(newsz))
      modifies this`dir, this`leaf, this`kpt, this`brk, this`role, this`avail, this`pown
      ensures Valid() && role == old(role) && SameTrans(dir0, leaf0, dir, leaf, role0)
      ensures avail == avail0 && pown == pown0
    {
      hide TreeOk, PhysOk, Within, Torn, Trans, NoneMapped, Grown, SameTrans, MappedFirst;
      var _ := DeallocUvm(d, newsz, oldsz);
      ContiguousIsExact(dir, old(leaf), leaf, d, PagesFor(oldsz), a, PagesFor(newsz));
      BackAgain(dir0, leaf0, role0, dir, old(leaf), role, leaf, d, PagesFor(oldsz), a, PagesFor(newsz));
      SameOwners(dir0, leaf0, role0, pown0, avail0, dir, leaf, role, pown, avail);
    }

    // ----- freevm -----

    /** kpt_free of a table page, which is not free already. */
    method KptFree(x: nat)
      requires x !in kpt && (x in dir || x in leaf)
      modifies this`kpt, this`dir, this`leaf
      ensures kpt == old(kpt) + {x} && dir == old(dir) - {x} && leaf == old(leaf) - {x}
    {
      kpt, dir, leaf := kpt + {x}, dir - {x}, leaf - {x};
    }

    /** The tables still there while freevm runs: those not released yet; the rest are on the free list. */
    ghost predicate Releasing(dir0: Dirs, leaf0: Leaves, kpt0: set<nat>, d: nat, j: nat, i: nat)
      reads this
    {
      var gone := ReleasedSet(role, d, j, i);
      dir == dir0 - gone && leaf == leaf0 - gone && kpt == kpt0 + gone
    }

    /** freevm's loops: every table of d is released once. */
    method FreeTables(d: nat)
      requires Tables() && IsRoot(role, d)
      modifies this`kpt, this`dir, this`leaf
      ensures var gone := ReleasedSet(role, d, PTRS_PER_PGD, 0) + {d};
              dir == old(dir) - gone && leaf == old(leaf) - gone && kpt == old(kpt) + gone
    {
      hide TreeOk, ReleasedSet;
      RootAt(d);
      NoneReleased(role, d);
      var j := 0;
      while j < PTRS_PER_PGD
        invariant 0 <= j <= PTRS_PER_PGD && Releasing(old(dir), old(leaf), old(kpt), d, j, 0)
      {
        NotReleased(role, d, j, 0);
        ReleaseMid(old(dir), old(leaf), role, d, j);
        var pmd := dir[d][j];
        if pmd.Some? {
          FreeMid(d, j, pmd.value, old(dir), old(leaf), old(kpt));
        }
        j := j + 1;
      }
      NotReleased(role, d, j, 0);
      KptFree(d);
    }

    method FreeMid(d: nat, j: nat, m: nat, ghost dir0: Dirs, ghost leaf0: Leaves, ghost kpt0: set<nat>)
      requires TreeOk(dir0, leaf0, role) && IsRoot(role, d) && Get(dir0, d, j) == Some(m) && kpt0 !! role.Keys
      requires Releasing(dir0, leaf0, kpt0, d, j, 0)
      modifies this`kpt, this`dir, this`leaf
      ensures Releasing(dir0, leaf0, kpt0, d, j + 1, 0)
    {
      hide TreeOk, ReleasedSet;
      MidIn(dir0, leaf0, role, d, j, m);
      var i := 0;
      while i < PTRS
        invariant 0 <= i <= PTRS && Releasing(dir0, leaf0, kpt0, d, j, i)
      {
        MidNotReleased(role, d, j, i, m);
        ReleaseLeaf(dir0, leaf0, role, d, j, m, i);
        var y := dir[m][i];
        if y.Some? {
          LeafIn(dir0, leaf0, role, m, i, y.value);
          KptFree(y.value);
        }
        i := i + 1;
      }
      ReleaseMid(dir0, leaf0, role, d, j);
      MidNotReleased(role, d, j, i, m);
      KptFree(m);
    }

    static lemma NoneReleased(role: map<nat, Role>, d: nat)
      ensures ReleasedSet(role, d, 0, 0) == {}
    {
    }

    static lemma NotReleased(role: map<nat, Role>, d: nat, j: nat, i: nat)
      requires IsRoot(role, d)
      ensures d !in ReleasedSet(role, d, j, i)
    {
    }

    static lemma MidNotReleased(role: map<nat, Role>, d: nat, j: nat, i: nat, m: nat)
      requires m in role && role[m] == Mid(d, j)
      ensures m !in ReleasedSet(role, d, j, i)
    {
    }

    static lemma MidIn(dir: Dirs, leaf: Leaves, role: map<nat, Role>, d: nat, j: nat, m: nat)
      requires TreeOk(dir, leaf, role) && IsRoot(role, d) && Get(dir, d, j) == Some(m)
      ensures m in role && role[m] == Mid(d, j) && m in dir && |dir[m]| == PTRS
    {
      assert EntryOk(dir, role, d, j);
      assert TableOk(dir, leaf, role, m);
    }

    static lemma LeafIn(dir: Dirs, leaf: Leaves, role: map<nat, Role>, m: nat, i: nat, y: nat)
      requires TreeOk(dir, leaf, role) && m in role && role[m].Mid? && Get(dir, m, i) == Some(y)
      ensures y in role && y in leaf && y !in dir
    {
      assert EntryOk(dir, role, m, i);
      assert TableOk(dir, leaf, role, y);
    }

    /**
     * freevm, on an address space where deallocuvm skips no mapped page: its pages and its tables are free, each
     * released once, and every other address space is untouched.
     */
    method FreeVm(d: nat)
      requires Valid() && IsRoot(role, d) && NoneSkipped(dir, leaf, d, 0, UPAGES)
      requires NoneMapped(dir, leaf, d, UPAGES, NPAGES)
      modifies this`dir, this`leaf, this`kpt, this`brk, this`role, this`avail, this`pown
      ensures Valid() && role == old(role) - (ReleasedSet(old(role), d, PTRS_PER_PGD, 0) + {d})
      ensures kpt == old(kpt) + ReleasedSet(old(role), d, PTRS_PER_PGD, 0) + {d}
      ensures SameTrans(old(dir), old(leaf), dir, leaf, role) && avail + pown.Keys == old(avail) + old(pown).Keys
    {
      hide TreeOk, PhysOk, Within, Torn, NoneMapped, NoneSkipped, ReleasedSet, Trans, SameTrans;
      var _ := DeallocUvm(d, UADDR_SZ, 0);
      TornIsExactIff(dir, old(leaf), leaf, d, 0, UPAGES);
      AllGone(dir, old(leaf), leaf, role, d);
      ghost var dir1, leaf1, role1 := dir, leaf, role;
      ghost var gone := ReleasedSet(role, d, PTRS_PER_PGD, 0) + {d};
      Pruned(dir, leaf, role, d, gone);
      PrunedRoots(role, d);
      PhysPruned(dir, leaf, role, dir - gone, leaf - gone, role - gone, pown, avail, d);
      FreeTables(d);
      role := role - gone;
      OthersSame(dir1, old(leaf), leaf1, role1, dir, leaf, role, d);
    }

    static lemma PrunedRoots(role: map<nat, Role>, d: nat)
      requires IsRoot(role, d)
      ensures var role' := role - (ReleasedSet(role, d, PTRS_PER_PGD, 0) + {d});
              forall e :: IsRoot(role', e) <==> IsRoot(role, e) && e != d
      ensures ReleasedSet(role, d, PTRS_PER_PGD, 0) <= role.Keys
    {
    }

    /** Nothing below UPAGES after deallocuvm, nothing above before, nothing anywhere. */
    static lemma AllGone(dir: Dirs, leaf: Leaves, leaf': Leaves, role: map<nat, Role>, d: nat)
      requires Within(dir, leaf, dir, leaf', role, d, 0, UPAGES) && IsRoot(role, d) && TreeOk(dir, leaf, role)
      requires NoneMapped(dir, leaf', d, 0, UPAGES) && NoneMapped(dir, leaf, d, UPAGES, NPAGES)
      ensures Unmapped(dir, leaf', d)
    {
      forall v: nat ensures Trans(dir, leaf', d, v) == None {
        if UPAGES <= v {
          assert Trans(dir, leaf', d, v) == Trans(dir, leaf, d, v);
          assert TableOk(dir, leaf, role, d);
        }
      }
    }

    static lemma OthersSame(dir: Dirs, leaf: Leaves, leaf1: Leaves, role: map<nat, Role>, dir2: Dirs, leaf2: Leaves,
                            role2: map<nat, Role>, d: nat)
      requires Within(dir, leaf, dir, leaf1, role, d, 0, UPAGES) && SameTrans(dir, leaf1, dir2, leaf2, role2)
      requires forall e :: IsRoot(role2, e) <==> IsRoot(role, e) && e != d
      ensures SameTrans(dir, leaf, dir2, leaf2, role2)
    {
      forall e: nat, v: nat | IsRoot(role2, e)
        ensures Trans(dir2, leaf2, e, v) == Trans(dir, leaf, e, v)
      {
        assert Trans(dir, leaf1, e, v) == Trans(dir, leaf, e, v);
      }
    }

    // ----- copyuvm -----

    /** A new, empty page directory. */
    method NewSpace() returns (nd: nat)
      requires Valid()
      modifies this`dir, this`kpt, this`brk, this`role
      ensures Valid() && nd !in old(role) && role == old(role)[nd := Root] && Unmapped(dir, leaf, nd)
      ensures SameTrans(old(dir), leaf, dir, leaf, old(role))
    {
      hide TreeOk, PhysOk, SameTrans, Unmapped;
      nd := KptAlloc();
      AddRoot(dir, leaf, role, nd);
      dir := dir[nd := NoTables(PTRS_PER_PGD)];
      role := role[nd := Root];
      PhysRoot(old(dir), leaf, dir, old(role), role, pown, avail, nd);
    }

    static lemma PhysRoot(dir: Dirs, leaf: Leaves, dir': Dirs, role: map<nat, Role>, role': map<nat, Role>,
                          pown: map<nat, Where>, avail: set<nat>, nd: nat)
      requires PhysOk(dir, leaf, role, pown, avail) && SameTrans(dir, leaf, dir', leaf, role)
      requires role' == role[nd := Root] && nd !in role && Unmapped(dir', leaf, nd)
      ensures PhysOk(dir', leaf, role', pown, avail)
    {
      forall pa | pa in pown ensures MappedAt(dir', leaf, role', pa, pown[pa]) {
        assert MappedAt(dir, leaf, role, pa, pown[pa]);
      }
      forall e: nat, v: nat | IsRoot(role', e)
        ensures PageOwned(pown, Trans(dir', leaf, e, v), e, v)
      {
        if e != nd {
          assert Trans(dir', leaf, e, v) == Trans(dir, leaf, e, v);
          assert PageOwned(pown, Trans(dir, leaf, e, v), e, v);
        }
      }
    }

    /**
     * copyuvm: a new address space of the same pages with the same access bits and contents, on pages of its
     * own; or, if memory runs out, nothing at all.
     */
    method CopyUvm(d: nat, sz: nat) returns (r: Option<nat>)
      requires Valid() && IsRoot(role, d) && sz <= UADDR_SZ
      requires forall v: nat {:trigger Trans(dir, leaf, d, v)} :: v < PagesFor(sz) ==> Trans(dir, leaf, d, v).Some?
      modifies this
      ensures Valid() && SameTrans(old(dir), old(leaf), dir, leaf, old(role)) && PagesKept(old(page), page, old(avail))
      ensures r.Some? <==> PagesFor(sz) <= Count(old(avail))
      ensures r.None? ==> role == old(role) && avail == old(avail) && pown == old(pown)
      ensures r.Some? ==>
                && r.value !in old(role) && IsRoot(role, r.value)
                && CopiedTo(old(dir), old(leaf), d, dir, leaf, r.value, PagesFor(sz), page, old(avail))
                && NoneMapped(dir, leaf, r.value, PagesFor(sz), NPAGES)
    {
      hide TreeOk, PhysOk, Within, Trans, NoneMapped, SameTrans, Grown, GrownFor, PagesKept, CopiedTo,
           Unmapped, ReleasedSet, Count;
      var nd := NewSpace();
      ghost var dir1, leaf1, role1 := dir, leaf, role;
      var i, n := 0, PagesFor(sz);
      StartCopy(old(dir), old(leaf), d, dir, leaf, role, nd, page, avail);
      while i < n
        invariant 0 <= i <= n && Valid() && IsRoot(role, nd) && IsRoot(role, d) && Grown(role1, role)
        invariant Within(dir1, leaf1, dir, leaf, role1, nd, 0, i) && NoneMapped(dir, leaf, nd, i, NPAGES)
        invariant CopiedTo(old(dir), old(leaf), d, dir, leaf, nd, i, page, old(avail))
        invariant avail <= old(avail) && PagesKept(old(page), page, old(avail)) && GrownFor(role1, role, nd)
        invariant Count(avail) + i == Count(old(avail))
        invariant avail + pown.Keys == old(avail) + old(pown).Keys
      {
        SourceKept(old(dir), old(leaf), old(role), dir1, leaf1, role1, dir, leaf, d, nd, i);
        ghost var dir2, leaf2, role2, page2, avail2, pown2 := dir, leaf, role, page, avail, pown;
        var pte := Source(d, i);
        var mem := AllocPage();
        if mem.None? {
          CopiedFirst(old(dir), old(leaf), d, dir, leaf, nd, i, page, old(avail));
          ContiguousSkipsNone(dir, leaf, nd, 0, i, UPAGES);
          FreeVm(nd);
          r := None;
          Vanished(old(dir), old(leaf), old(role), dir2, leaf2, role2, nd);
          CopyGone(old(dir), old(leaf), old(role), dir1, leaf1, role1, dir2, leaf2, dir, leaf, nd, i);
          SameOwners(old(dir), old(leaf), old(role), old(pown), old(avail), dir, leaf, role, pown, avail);
          return;
        }
        OneLess(avail, mem.value);
        TakePage(nd, i, NPAGES, mem.value, pte.ap, page[pte.pa]);
        CopyNext(old(dir), old(leaf), d, dir2, leaf2, dir, leaf, role2, nd, i, pown2, page2, avail2, old(avail), pte,
                 mem.value);
        WithinTwice(dir1, leaf1, role1, dir2, leaf2, role2, dir, leaf, nd, 0, i, i + 1);
        GrownTwice(role1, role2, role);
        GrownForTwice(role1, role2, role, nd);
        KeptNext(old(page), page2, old(avail), mem.value, page2[pte.pa]);
        i := i + 1;
      }
      CopyDone(old(dir), old(leaf), old(role), dir1, leaf1, role1, dir, leaf, nd, n);
      return Some(nd);
    }

    /** The entry copyuvm reads, and the source's translations so far. */
    method Source(d: nat, v: nat) returns (pte: Pte)
      requires Valid() && IsRoot(role, d) && v < NPAGES && Trans(dir, leaf, d, v).Some?
      modifies this`dir, this`leaf, this`kpt, this`brk, this`role
      ensures unchanged(this) && Trans(dir, leaf, d, v) == Some(pte) && pte.pa in page && pte.pa !in avail
    {
      hide TreeOk;
      var y := Walk(d, v, false);
      if y.None? {
        assert false;
      }
      LeafAt(d, v, y.value);
      var p := leaf[y.value][PteIdx(v)];
      if p.None? {
        assert false;
      }
      assert PageOwned(pown, Trans(dir, leaf, d, v), d, v);
      return p.value;
    }

    static lemma StartCopy(dir0: Dirs, leaf0: Leaves, d: nat, dir: Dirs, leaf: Leaves, role: map<nat, Role>, nd: nat,
                           page: map<nat, Content>, avail: set<nat>)
      requires Unmapped(dir, leaf, nd)
      ensures CopiedTo(dir0, leaf0, d, dir, leaf, nd, 0, page, avail) && NoneMapped(dir, leaf, nd, 0, NPAGES)
      ensures Within(dir, leaf, dir, leaf, role, nd, 0, 0) && Grown(role, role) && GrownFor(role, role, nd)
      ensures PagesKept(page, page, avail)
    {
    }

    static lemma SourceKept(dir0: Dirs, leaf0: Leaves, role0: map<nat, Role>, dir1: Dirs, leaf1: Leaves,
                            role1: map<nat, Role>, dir: Dirs, leaf: Leaves, d: nat, nd: nat, a: nat)
      requires SameTrans(dir0, leaf0, dir1, leaf1, role0) && IsRoot(role0, d) && role1 == role0[nd := Root]
               && nd !in role0
      requires Within(dir1, leaf1, dir, leaf, role1, nd, 0, a)
      ensures forall v: nat {:trigger Trans(dir, leaf, d, v)} :: Trans(dir, leaf, d, v) == Trans(dir0, leaf0, d, v)
    {
      forall v: nat ensures Trans(dir, leaf, d, v) == Trans(dir0, leaf0, d, v) {
        assert Trans(dir1, leaf1, d, v) == Trans(dir0, leaf0, d, v);
      }
    }

    static lemma CopyDone(dir0: Dirs, leaf0: Leaves, role0: map<nat, Role>, dir1: Dirs, leaf1: Leaves,
                          role1: map<nat, Role>, dir: Dirs, leaf: Leaves, nd: nat, a: nat)
      requires SameTrans(dir0, leaf0, dir1, leaf1, role0) && role1 == role0[nd := Root] && nd !in role0
      requires Within(dir1, leaf1, dir, leaf, role1, nd, 0, a)
      ensures SameTrans(dir0, leaf0, dir, leaf, role0)
    {
      forall e: nat, v: nat | IsRoot(role0, e) ensures Trans(dir, leaf, e, v) == Trans(dir0, leaf0, e, v) {
        assert Trans(dir1, leaf1, e, v) == Trans(dir0, leaf0, e, v);
      }
    }

    static lemma CopiedFirst(dir0: Dirs, leaf0: Leaves, d: nat, dir: Dirs, leaf: Leaves, nd: nat, a: nat,
                             page: map<nat, Content>, avail: set<nat>)
      requires CopiedTo(dir0, leaf0, d, dir, leaf, nd, a, page, avail) && NoneMapped(dir, leaf, nd, a, NPAGES)
      requires a <= UPAGES
      ensures MappedFirst(dir, leaf, nd, 0, a, UPAGES) && NoneMapped(dir, leaf, nd, UPAGES, NPAGES)
    {
      forall w: nat | w < UPAGES ensures Trans(dir, leaf, nd, w).Some? <==> w < a {
        assert w < a ==> Copies(Trans(dir0, leaf0, d, w), Trans(dir, leaf, nd, w), page, avail);
      }
      forall w: nat | UPAGES <= w < NPAGES ensures Trans(dir, leaf, nd, w) == None {
      }
    }

    /** Freeing the copy's tables leaves exactly the tables there were. */
    static lemma Vanished(dir0: Dirs, leaf0: Leaves, role0: map<nat, Role>, dir: Dirs, leaf: Leaves,
                          role: map<nat, Role>, nd: nat)
      requires TreeOk(dir0, leaf0, role0) && TreeOk(dir, leaf, role) && nd !in role0
      requires Grown(role0[nd := Root], role) && GrownFor(role0[nd := Root], role, nd)
      ensures role - (ReleasedSet(role, nd, PTRS_PER_PGD, 0) + {nd}) == role0
    {
      var gone := ReleasedSet(role, nd, PTRS_PER_PGD, 0) + {nd};
      forall t | t in role ensures t !in gone <==> t in role0 {
        if t in role0 {
          OldStays(dir0, leaf0, role0, role, nd, t);
        } else if t != nd {
          NewGoes(dir, leaf, role, nd, t);
        }
      }
      hide TreeOk, ReleasedSet, GrownFor;
    }

    static lemma NewGoes(dir: Dirs, leaf: Leaves, role: map<nat, Role>, nd: nat, t: nat)
      requires TreeOk(dir, leaf, role) && InTree(role, nd, t) && t != nd && IsRoot(role, nd)
      ensures Released(role, nd, PTRS_PER_PGD, 0, t)
    {
      assert TableOk(dir, leaf, role, t) && TableOk(dir, leaf, role, nd);
      if role[t].Leaf? { assert TableOk(dir, leaf, role, role[t].up); }
      hide TreeOk;
    }

    static lemma OldStays(dir: Dirs, leaf: Leaves, role0: map<nat, Role>, role: map<nat, Role>, nd: nat, t: nat)
      requires TreeOk(dir, leaf, role0) && t in role0 && nd !in role0 && Grown(role0[nd := Root], role)
      ensures !Released(role, nd, PTRS_PER_PGD, 0, t) && t != nd
    {
      assert TableOk(dir, leaf, role0, t);
      if role0[t].Leaf? { assert TableOk(dir, leaf, role0, role0[t].up); }
      hide TreeOk;
    }

    static lemma CopyGone(dir0: Dirs, leaf0: Leaves, role0: map<nat, Role>, dir1: Dirs, leaf1: Leaves,
                          role1: map<nat, Role>, dir2: Dirs, leaf2: Leaves, dir: Dirs, leaf: Leaves, nd: nat, a: nat)
      requires SameTrans(dir0, leaf0, dir1, leaf1, role0) && role1 == role0[nd := Root] && nd !in role0
      requires Within(dir1, leaf1, dir2, leaf2, role1, nd, 0, a) && SameTrans(dir2, leaf2, dir, leaf, role0)
      ensures SameTrans(dir0, leaf0, dir, leaf, role0) && Grown(role0, role0)
    {
      CopyDone(dir0, leaf0, role0, dir1, leaf1, role1, dir2, leaf2, nd, a);
      forall e: nat, v: nat | IsRoot(role0, e) ensures Trans(dir, leaf, e, v) == Trans(dir0, leaf0, e, v) {
        assert Trans(dir2, leaf2, e, v) == Trans(dir0, leaf0, e, v);
      }
    }
  }

  /** deallocuvm over the gap, down to nothing: page PTRS is still mapped and its physical page still taken. */
  method GapSurvives() returns (vm: Vmm)
    ensures vm.Valid() && Trans(vm.dir, vm.leaf, 1, PTRS) == Some(Pte(PTE_SZ, AP_RW_1_0))
    ensures !NoneMapped(vm.dir, vm.leaf, 1, 0, PTRS + 1) && PTE_SZ in vm.pown && PTE_SZ !in vm.avail
  {
    hide TreeOk, LeafOf;
    vm := new Vmm.Gap();
    var r := vm.DeallocUvm(1, (PTRS + 1) * PTE_SZ, 0);
    assert Skipped(vm.dir, 1, 0, PTRS);
    assert PageOwned(vm.pown, Trans(vm.dir, vm.leaf, 1, PTRS), 1, PTRS);
  }
}
