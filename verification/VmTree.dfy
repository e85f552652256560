/**
 * Three-level page tables (src/vm.c): trees of table pages, the translation they define, and how the
 * three writes walkpgdir and its callers make change it.
 */
module VmTree {
  import opened Wrappers

  const PTE_SZ := 4096
  const PTRS_PER_PGD := 4
  const PTRS := 512                 // PTRS_PER_PMD, PTRS_PER_PTE
  const NPAGES := 4 * 512 * 512     // pages a page directory can map

  /** A valid page-table entry: physical page and access bits. */
  datatype Pte = Pte(pa: nat, ap: nat)

  type Dirs = map<nat, seq<Option<nat>>>
  type Leaves = map<nat, seq<Option<Pte>>>

  /** What a table page is used for: a page directory, or entry i of the table up. */
  datatype Role = Root | Mid(up: nat, i: nat) | Leaf(up: nat, i: nat)

  function Get<X>(m: map<nat, seq<Option<X>>>, t: nat, i: nat): Option<X> {
    if t in m && i < |m[t]| then m[t][i] else None
  }

  function PgdIdx(v: nat): nat { v / (PTRS * PTRS) }
  function PmdIdx(v: nat): nat { v / PTRS % PTRS }
  function PteIdx(v: nat): nat { v % PTRS }

  lemma SameIndices(v: nat, w: nat)
    requires PgdIdx(v) == PgdIdx(w) && PmdIdx(v) == PmdIdx(w) && PteIdx(v) == PteIdx(w)
    ensures v == w
  {
    assert v / PTRS / PTRS == v / (PTRS * PTRS) && w / PTRS / PTRS == w / (PTRS * PTRS);
  }

  /** The page table that holds the entry of page v, if there is one. */
  function LeafOf(dir: Dirs, d: nat, v: nat): Option<nat> {
    match Get(dir, d, PgdIdx(v))
    case None => None
    case Some(m) => Get(dir, m, PmdIdx(v))
  }

  /** The translation of page v in page directory d. */
  function Trans(dir: Dirs, leaf: Leaves, d: nat, v: nat): Option<Pte> {
    match LeafOf(dir, d, v)
    case None => None
    case Some(y) => Get(leaf, y, PteIdx(v))
  }

  /** Table t is there, of the right size, and hung where its role says. */
  ghost predicate TableOk(dir: Dirs, leaf: Leaves, role: map<nat, Role>, t: nat)
    requires t in role
  {
    match role[t]
    case Root => t in dir && |dir[t]| == PTRS_PER_PGD
    case Mid(u, i) => t in dir && |dir[t]| == PTRS && u in role && role[u].Root? && Get(dir, u, i) == Some(t)
    case Leaf(u, i) => t in leaf && |leaf[t]| == PTRS && u in role && role[u].Mid? && Get(dir, u, i) == Some(t)
  }

  /** Entry i of table t leads to a table of the next level that knows it. */
  ghost predicate EntryOk(dir: Dirs, role: map<nat, Role>, t: nat, i: nat) {
    match Get(dir, t, i)
    case None => true
    case Some(x) => t in role && x in role && role[x] == if role[t].Root? then Mid(t, i) else Leaf(t, i)
  }

  ghost predicate TreeOk(dir: Dirs, leaf: Leaves, role: map<nat, Role>) {
    && (forall t :: t in dir <==> t in role && !role[t].Leaf?)
    && (forall t :: t in leaf <==> t in role && role[t].Leaf?)
    && (forall t :: t in role ==> TableOk(dir, leaf, role, t))
    && (forall t: nat, i: nat :: EntryOk(dir, role, t, i))
  }

  ghost predicate IsRoot(role: map<nat, Role>, d: nat) { d in role && role[d].Root? }

  /** No table is shared: a page table serves one stretch of one address space. */
  lemma PathsDiffer(dir: Dirs, leaf: Leaves, role: map<nat, Role>, d: nat, v: nat, e: nat, w: nat)
    requires TreeOk(dir, leaf, role) && IsRoot(role, d) && IsRoot(role, e)
    requires LeafOf(dir, d, v).Some? && LeafOf(dir, d, v) == LeafOf(dir, e, w)
    ensures d == e && PgdIdx(v) == PgdIdx(w) && PmdIdx(v) == PmdIdx(w)
  {
    var m, n := Get(dir, d, PgdIdx(v)).value, Get(dir, e, PgdIdx(w)).value;
    assert EntryOk(dir, role, d, PgdIdx(v)) && EntryOk(dir, role, e, PgdIdx(w));
    assert EntryOk(dir, role, m, PmdIdx(v)) && EntryOk(dir, role, n, PmdIdx(w));
  }

  /** Two states of the tables translate alike, for the page directories of role. */
  ghost predicate SameTrans(dir: Dirs, leaf: Leaves, dir': Dirs, leaf': Leaves, role: map<nat, Role>) {
    forall d: nat, v: nat {:trigger Trans(dir', leaf', d, v)} ::
      IsRoot(role, d) ==> Trans(dir', leaf', d, v) == Trans(dir, leaf, d, v)
  }

  ghost predicate Unmapped(dir: Dirs, leaf: Leaves, d: nat) {
    forall v: nat :: Trans(dir, leaf, d, v) == None
  }

  function NoTables(n: nat): seq<Option<nat>> { seq(n, _ => None) }
  function NoPages(): seq<Option<Pte>> { seq(PTRS, _ => None) }

  // ----- a new page directory -----

  lemma AddRoot(dir: Dirs, leaf: Leaves, role: map<nat, Role>, x: nat)
    requires TreeOk(dir, leaf, role) && x !in role
    ensures TreeOk(dir[x := NoTables(PTRS_PER_PGD)], leaf, role[x := Root])
    ensures SameTrans(dir, leaf, dir[x := NoTables(PTRS_PER_PGD)], leaf, role)
    ensures Unmapped(dir[x := NoTables(PTRS_PER_PGD)], leaf, x)
  {
    var dir', role' := dir[x := NoTables(PTRS_PER_PGD)], role[x := Root];
    forall t | t in role' ensures TableOk(dir', leaf, role', t) {
      if t != x { assert TableOk(dir, leaf, role, t); }
    }
    forall t: nat, i: nat ensures EntryOk(dir', role', t, i) {
      assert EntryOk(dir, role, t, i);
    }
    NewTableUnseen(dir, leaf, role, x, dir');
  }

  /** A table nobody points to yet changes no translation. */
  lemma NewTableUnseen(dir: Dirs, leaf: Leaves, role: map<nat, Role>, x: nat, dir': Dirs)
    requires TreeOk(dir, leaf, role) && x !in role && x in dir' && dir' == dir[x := dir'[x]]
    ensures SameTrans(dir, leaf, dir', leaf, role)
  {
    forall d: nat, v: nat | IsRoot(role, d)
      ensures Trans(dir', leaf, d, v) == Trans(dir, leaf, d, v)
    {
      assert EntryOk(dir, role, d, PgdIdx(v));
    }
  }

  // ----- walkpgdir's two allocations -----

  ghost function WithMid(dir: Dirs, d: nat, i: nat, x: nat): Dirs
    requires d in dir && i < |dir[d]|
  {
    dir[x := NoTables(PTRS)][d := dir[d][i := Some(x)]]
  }

  lemma AddMid(dir: Dirs, leaf: Leaves, role: map<nat, Role>, d: nat, i: nat, x: nat)
    requires TreeOk(dir, leaf, role) && IsRoot(role, d) && i < PTRS_PER_PGD && x !in role
    requires Get(dir, d, i) == None
    ensures d in dir && i < |dir[d]|
    ensures TreeOk(WithMid(dir, d, i, x), leaf, role[x := Mid(d, i)])
    ensures SameTrans(dir, leaf, WithMid(dir, d, i, x), leaf, role)
  {
    assert TableOk(dir, leaf, role, d);
    var dir', role' := WithMid(dir, d, i, x), role[x := Mid(d, i)];
    forall t | t in role' ensures TableOk(dir', leaf, role', t) {
      if t != x { assert TableOk(dir, leaf, role, t); }
    }
    forall t: nat, k: nat ensures EntryOk(dir', role', t, k) {
      assert EntryOk(dir, role, t, k);
    }
    AddMidTrans(dir, leaf, role, d, i, x);
  }

  lemma AddMidTrans(dir: Dirs, leaf: Leaves, role: map<nat, Role>, d: nat, i: nat, x: nat)
    requires TreeOk(dir, leaf, role) && d in dir && i < |dir[d]| && x !in role && Get(dir, d, i) == None
    ensures SameTrans(dir, leaf, WithMid(dir, d, i, x), leaf, role)
  {
    forall e: nat, v: nat | IsRoot(role, e)
      ensures Trans(WithMid(dir, d, i, x), leaf, e, v) == Trans(dir, leaf, e, v)
    {
      AddMidAt(dir, leaf, role, d, i, x, e, v);
    }
  }

  lemma AddMidAt(dir: Dirs, leaf: Leaves, role: map<nat, Role>, d: nat, i: nat, x: nat, e: nat, v: nat)
    requires TreeOk(dir, leaf, role) && d in dir && i < |dir[d]| && x !in role && Get(dir, d, i) == None
    requires IsRoot(role, e)
    ensures Trans(WithMid(dir, d, i, x), leaf, e, v) == Trans(dir, leaf, e, v)
  {
    assert EntryOk(dir, role, e, PgdIdx(v));
    assert EntryOk(dir, role, d, i);
    var n := Get(dir, e, PgdIdx(v));
    if n.Some? { assert EntryOk(dir, role, n.value, PmdIdx(v)) && TableOk(dir, leaf, role, n.value); }
    hide TreeOk;
  }

  ghost function WithLeaf(dir: Dirs, m: nat, j: nat, y: nat): Dirs
    requires m in dir && j < |dir[m]|
  {
    dir[m := dir[m][j := Some(y)]]
  }

  lemma AddLeaf(dir: Dirs, leaf: Leaves, role: map<nat, Role>, m: nat, j: nat, y: nat)
    requires TreeOk(dir, leaf, role) && m in role && role[m].Mid? && j < PTRS && y !in role
    requires Get(dir, m, j) == None
    ensures m in dir && j < |dir[m]|
    ensures TreeOk(WithLeaf(dir, m, j, y), leaf[y := NoPages()], role[y := Leaf(m, j)])
    ensures SameTrans(dir, leaf, WithLeaf(dir, m, j, y), leaf[y := NoPages()], role)
  {
    assert TableOk(dir, leaf, role, m);
    var dir', leaf', role' := WithLeaf(dir, m, j, y), leaf[y := NoPages()], role[y := Leaf(m, j)];
    forall t | t in role' ensures TableOk(dir', leaf', role', t) {
      if t != y { assert TableOk(dir, leaf, role, t); }
    }
    forall t: nat, k: nat ensures EntryOk(dir', role', t, k) {
      assert EntryOk(dir, role, t, k);
    }
    AddLeafTrans(dir, leaf, role, m, j, y);
  }

  lemma AddLeafTrans(dir: Dirs, leaf: Leaves, role: map<nat, Role>, m: nat, j: nat, y: nat)
    requires TreeOk(dir, leaf, role) && m in dir && j < |dir[m]| && y !in role && Get(dir, m, j) == None
    requires m in role && role[m].Mid?
    ensures SameTrans(dir, leaf, WithLeaf(dir, m, j, y), leaf[y := NoPages()], role)
  {
    forall e: nat, v: nat | IsRoot(role, e)
      ensures Trans(WithLeaf(dir, m, j, y), leaf[y := NoPages()], e, v) == Trans(dir, leaf, e, v)
    {
      AddLeafAt(dir, leaf, role, m, j, y, e, v);
    }
  }

  lemma AddLeafAt(dir: Dirs, leaf: Leaves, role: map<nat, Role>, m: nat, j: nat, y: nat, e: nat, v: nat)
    requires TreeOk(dir, leaf, role) && m in dir && j < |dir[m]| && y !in role && Get(dir, m, j) == None
    requires m in role && role[m].Mid? && IsRoot(role, e)
    ensures Trans(WithLeaf(dir, m, j, y), leaf[y := NoPages()], e, v) == Trans(dir, leaf, e, v)
  {
    assert EntryOk(dir, role, e, PgdIdx(v));
    var n := Get(dir, e, PgdIdx(v));
    if n.Some? { assert EntryOk(dir, role, n.value, PmdIdx(v)); }
    hide TreeOk;
  }

  // ----- writing an entry -----

  ghost function WithPte(leaf: Leaves, y: nat, k: nat, p: Option<Pte>): Leaves
    requires y in leaf && k < |leaf[y]|
  {
    leaf[y := leaf[y][k := p]]
  }

  /** Writing the entry of page v in d changes that translation and no other, in any address space. */
  lemma SetPte(dir: Dirs, leaf: Leaves, role: map<nat, Role>, d: nat, v: nat, p: Option<Pte>)
    requires TreeOk(dir, leaf, role) && IsRoot(role, d) && LeafOf(dir, d, v).Some?
    ensures var y := LeafOf(dir, d, v).value; y in leaf && PteIdx(v) < |leaf[y]|
    ensures var leaf' := WithPte(leaf, LeafOf(dir, d, v).value, PteIdx(v), p);
            && TreeOk(dir, leaf', role) && Trans(dir, leaf', d, v) == p
            && forall e: nat, w: nat {:trigger Trans(dir, leaf', e, w)} ::
                 IsRoot(role, e) && (e != d || w != v) ==> Trans(dir, leaf', e, w) == Trans(dir, leaf, e, w)
  {
    var y := LeafOf(dir, d, v).value;
    var m := Get(dir, d, PgdIdx(v)).value;
    assert EntryOk(dir, role, d, PgdIdx(v)) && EntryOk(dir, role, m, PmdIdx(v));
    assert TableOk(dir, leaf, role, y);
    var leaf' := WithPte(leaf, y, PteIdx(v), p);
    forall t | t in role ensures TableOk(dir, leaf', role, t) { assert TableOk(dir, leaf, role, t); }
    forall e: nat, w: nat | IsRoot(role, e) && (e != d || w != v)
      ensures Trans(dir, leaf', e, w) == Trans(dir, leaf, e, w)
    {
      if LeafOf(dir, e, w) == Some(y) {
        PathsDiffer(dir, leaf, role, d, v, e, w);
        if PteIdx(w) == PteIdx(v) { SameIndices(v, w); }
      }
    }
  }

  // ----- freevm's release of the tables -----

  /** Tables of d released once freevm has done directory entries below j, and entries below i of the j-th. */
  predicate Released(role: map<nat, Role>, d: nat, j: nat, i: nat, t: nat) {
    t in role && match role[t]
    case Root => false
    case Mid(u, jj) => u == d && jj < j
    case Leaf(m, ii) =>
      m in role && role[m].Mid? && role[m].up == d && (role[m].i < j || (role[m].i == j && ii < i))
  }

  ghost function ReleasedSet(role: map<nat, Role>, d: nat, j: nat, i: nat): set<nat> {
    set t | t in role && Released(role, d, j, i, t)
  }

  lemma ReleaseLeaf(dir: Dirs, leaf: Leaves, role: map<nat, Role>, d: nat, j: nat, m: nat, i: nat)
    requires TreeOk(dir, leaf, role) && IsRoot(role, d) && Get(dir, d, j) == Some(m)
    ensures match Get(dir, m, i)
            case None => ReleasedSet(role, d, j, i + 1) == ReleasedSet(role, d, j, i)
            case Some(y) => y !in ReleasedSet(role, d, j, i)
                            && ReleasedSet(role, d, j, i + 1) == ReleasedSet(role, d, j, i) + {y}
                            && y in leaf
  {
    assert EntryOk(dir, role, d, j) && EntryOk(dir, role, m, i);
    forall t | t in role && Released(role, d, j, i + 1, t)
      ensures Released(role, d, j, i, t) || Get(dir, m, i) == Some(t)
    {
      assert TableOk(dir, leaf, role, t);
      if !Released(role, d, j, i, t) {
        assert TableOk(dir, leaf, role, role[t].up);
      }
    }
  }

  lemma ReleaseMid(dir: Dirs, leaf: Leaves, role: map<nat, Role>, d: nat, j: nat)
    requires TreeOk(dir, leaf, role) && IsRoot(role, d)
    ensures match Get(dir, d, j)
            case None => ReleasedSet(role, d, j + 1, 0) == ReleasedSet(role, d, j, 0)
            case Some(m) => m !in ReleasedSet(role, d, j, PTRS) && m in dir
                            && ReleasedSet(role, d, j + 1, 0) == ReleasedSet(role, d, j, PTRS) + {m}
  {
    assert EntryOk(dir, role, d, j);
    forall t | t in role && Released(role, d, j + 1, 0, t)
      ensures match Get(dir, d, j)
              case None => Released(role, d, j, 0, t)
              case Some(m) => t == m || Released(role, d, j, PTRS, t)
    {
      assert TableOk(dir, leaf, role, t);
      if role[t].Leaf? {
        assert TableOk(dir, leaf, role, role[t].up);
      }
    }
  }

  /** What is left when all the tables of d are gone: the other trees, as they were. */
  lemma Pruned(dir: Dirs, leaf: Leaves, role: map<nat, Role>, d: nat, gone: set<nat>)
    requires TreeOk(dir, leaf, role) && IsRoot(role, d)
    requires gone == ReleasedSet(role, d, PTRS_PER_PGD, 0) + {d}
    ensures TreeOk(dir - gone, leaf - gone, role - gone)
    ensures SameTrans(dir, leaf, dir - gone, leaf - gone, role - gone)
    ensures forall t :: t in role && t !in gone ==> t in role - gone
  {
    var dir', leaf', role' := dir - gone, leaf - gone, role - gone;
    forall t | t in role' ensures TableOk(dir', leaf', role', t) {
      assert TableOk(dir, leaf, role, t);
      if !role[t].Root? { assert TableOk(dir, leaf, role, role[t].up); }
    }
    forall t: nat, i: nat ensures EntryOk(dir', role', t, i) {
      PrunedEntry(dir, leaf, role, d, gone, t, i);
    }
    forall e: nat, v: nat | IsRoot(role', e)
      ensures Trans(dir', leaf', e, v) == Trans(dir, leaf, e, v)
    {
      PrunedEntry(dir, leaf, role, d, gone, e, PgdIdx(v));
      var n := Get(dir, e, PgdIdx(v));
      if n.Some? {
        PrunedEntry(dir, leaf, role, d, gone, n.value, PmdIdx(v));
      }
    }
  }

  lemma PrunedEntry(dir: Dirs, leaf: Leaves, role: map<nat, Role>, d: nat, gone: set<nat>, t: nat, i: nat)
    requires TreeOk(dir, leaf, role) && IsRoot(role, d)
    requires gone == ReleasedSet(role, d, PTRS_PER_PGD, 0) + {d}
    ensures EntryOk(dir - gone, role - gone, t, i)
    ensures t !in gone && Get(dir, t, i).Some? ==> Get(dir, t, i).value !in gone
  {
    assert EntryOk(dir, role, t, i);
    if Get(dir, t, i).Some? {
      assert TableOk(dir, leaf, role, t);
      var x := Get(dir, t, i).value;
      assert TableOk(dir, leaf, role, x);
    }
  }
}
