/** One order's slice of the mark array: a bitmap per 32 blocks, and the marks with a non-zero
    bitmap chained into a doubly linked list by 16-bit indices packed into one word. */
module BuddyMarks {
  import opened Bits
  import opened DList

  datatype Mark = Mark(lnks: nat, bitmap: nat)

  const NIL := 0xFFFF

  function PreLnk(lnks: nat): nat { lnks / 0x1_0000 }
  function NextLnk(lnks: nat): nat { lnks % 0x1_0000 }
  function Lnks(pre: nat, next: nat): nat { pre * 0x1_0000 % 0x1_0000_0000 + next % 0x1_0000 }

  /** Packing loses nothing as long as both indices fit in 16 bits. */
  lemma LnksRoundTrip(pre: nat, next: nat)
    requires pre <= NIL && next <= NIL
    ensures PreLnk(Lnks(pre, next)) == pre && NextLnk(Lnks(pre, next)) == next
    ensures Lnks(pre, next) < 0x1_0000_0000
  {
    assert pre * 0x1_0000 % 0x1_0000_0000 == pre * 0x1_0000;
    assert Lnks(pre, next) == pre * 0x1_0000 + next;
  }

  ghost function Pres(m: seq<Mark>): (r: seq<nat>)
    ensures |r| == |m| && forall i :: 0 <= i < |m| ==> r[i] == PreLnk(m[i].lnks)
  {
    seq(|m|, i requires 0 <= i < |m| => PreLnk(m[i].lnks))
  }

  ghost function Nexts(m: seq<Mark>): (r: seq<nat>)
    ensures |r| == |m| && forall i :: 0 <= i < |m| ==> r[i] == NextLnk(m[i].lnks)
  {
    seq(|m|, i requires 0 <= i < |m| => NextLnk(m[i].lnks))
  }

  /** The list threaded through the marks from head is exactly `list`, and it holds the marks
      with a non-zero bitmap, once each.  Index NIL is never a mark. */
  ghost predicate Chained(m: seq<Mark>, head: nat, list: seq<nat>) {
    && |m| <= NIL
    && Linked(Pres(m), Nexts(m), head, list, NIL)
    && (forall i :: 0 <= i < |m| ==> (m[i].bitmap != 0 <==> i in list))
  }

  /** The bitmaps record exactly the free blocks of this order, 32 to a word. */
  ghost predicate Mapped(m: seq<Mark>, free: set<nat>) {
    && (forall i :: 0 <= i < |m| ==> FitsIn(m[i].bitmap, WORD_BITS))
    && (forall b: nat :: b in free <==> b / 32 < |m| && Bit(m[b / 32].bitmap, b % 32))
  }

  // ----- marking a block free -----

  /** Put mark i at the front of the chain. */
  function LinkedIn(m: seq<Mark>, head: nat, i: nat): (r: seq<Mark>)
    requires i < |m| && (head == NIL || head < |m|)
    ensures |r| == |m|
  {
    var t := m[i := Mark(Lnks(NIL, head), m[i].bitmap)];
    if head == NIL then t else t[head := Mark(Lnks(i, NextLnk(t[head].lnks)), t[head].bitmap)]
  }

  /** What mark_blk writes into the slice. */
  function Marked(m: seq<Mark>, head: nat, b: nat): (r: seq<Mark>)
    requires b / 32 < |m| && (head == NIL || head < |m|)
    ensures |r| == |m|
  {
    var i := b / 32;
    var t := m[i := m[i].(bitmap := SetBit(m[i].bitmap, b % 32))];
    if m[i].bitmap != 0 then t else LinkedIn(t, head, i)
  }

  lemma MarkedMapped(m: seq<Mark>, head: nat, b: nat, free: set<nat>)
    requires b / 32 < |m| && (head == NIL || head < |m|) && Mapped(m, free)
    ensures Mapped(Marked(m, head, b), free + {b})
  {
    var r := Marked(m, head, b);
    var w := m[b / 32].bitmap;
    forall j: nat
      ensures Bit(SetBit(w, b % 32), j) <==> b % 32 == j || Bit(w, j)
    {
      SetBitAt(w, b % 32, j);
    }
    assert forall i :: 0 <= i < |m| && i != b / 32 ==> r[i].bitmap == m[i].bitmap;
    assert r[b / 32].bitmap == SetBit(w, b % 32);
    forall c: nat
      ensures c in free + {b} <==> c / 32 < |r| && Bit(r[c / 32].bitmap, c % 32)
    {
      assert c / 32 == b / 32 && c % 32 == b % 32 ==> c == b;
    }
  }

  lemma SetBitNotZero(w: nat, i: nat)
    ensures SetBit(w, i) != 0
  {
    SetBitAt(w, i, i);
    ZeroHasNoBit(i);
  }

  lemma MarkedAgainChained(m: seq<Mark>, head: nat, list: seq<nat>, b: nat)
    requires b / 32 < |m| && Chained(m, head, list) && m[b / 32].bitmap != 0
    ensures Chained(Marked(m, head, b), head, list)
  {
    SetBitNotZero(m[b / 32].bitmap, b % 32);
    assert Pres(Marked(m, head, b)) == Pres(m) && Nexts(Marked(m, head, b)) == Nexts(m);
  }

  /** Storing a packed link word stores both links. */
  lemma StoreLinks(m: seq<Mark>, i: nat, pre: nat, next: nat, bitmap: nat)
    requires i < |m| && pre <= NIL && next <= NIL
    ensures var r := m[i := Mark(Lnks(pre, next), bitmap)];
            Pres(r) == Pres(m)[i := pre] && Nexts(r) == Nexts(m)[i := next]
  {
    LnksRoundTrip(pre, next);
  }

  lemma PushedLinks(m: seq<Mark>, head: nat, b: nat)
    requires |m| <= NIL && b / 32 < |m| && m[b / 32].bitmap == 0 && (head == NIL || head < |m|) && head != b / 32
    requires head != NIL ==> Nexts(m)[head] <= NIL
    ensures Pres(Marked(m, head, b)) == PushedPre(Pres(m), head, NIL, b / 32)
    ensures Nexts(Marked(m, head, b)) == Nexts(m)[b / 32 := head]
  {
    hide Lnks, PreLnk, NextLnk, SetBit;
    var i, bitmap := b / 32, SetBit(m[b / 32].bitmap, b % 32);
    var t0 := m[i := m[i].(bitmap := bitmap)];
    StoreLinks(t0, i, NIL, head, bitmap);
    assert Pres(t0) == Pres(m) && Nexts(t0) == Nexts(m);
    var t := t0[i := Mark(Lnks(NIL, head), bitmap)];
    if head != NIL {
      assert Nexts(m)[head] == NextLnk(t[head].lnks);
      assert Nexts(t)[head := NextLnk(t[head].lnks)] == Nexts(t);
      StoreLinks(t, head, i, NextLnk(t[head].lnks), t[head].bitmap);
    }
  }

  lemma MarkedBitmaps(m: seq<Mark>, head: nat, b: nat, c: nat)
    requires b / 32 < |m| && (head == NIL || head < |m|) && c < |m|
    ensures Marked(m, head, b)[c].bitmap == if c == b / 32 then SetBit(m[c].bitmap, b % 32) else m[c].bitmap
  {
  }

  lemma PushedChained(m: seq<Mark>, head: nat, list: seq<nat>, b: nat)
    requires b / 32 < |m| && Chained(m, head, list) && m[b / 32].bitmap == 0
    ensures Chained(Marked(m, head, b), b / 32, [b / 32] + list)
  {
    hide Marked, Lnks, PreLnk, NextLnk, SetBit, Linked;
    SetBitNotZero(m[b / 32].bitmap, b % 32);
    HeadOf(Pres(m), Nexts(m), head, list, NIL);
    if head != NIL { PresBounded(m, head, list, head); }
    PushedLinks(m, head, b);
    PushedLinked(Pres(m), Nexts(m), head, list, NIL, b / 32);
    forall c | 0 <= c < |m|
      ensures Marked(m, head, b)[c].bitmap != 0 <==> c in [b / 32] + list
    {
      MarkedBitmaps(m, head, b, c);
    }
  }

  // ----- marking a block taken -----

  /** The links of mark i, if any, stay inside the slice. */
  predicate LinksInside(m: seq<Mark>, i: nat)
    requires i < |m|
  {
    var pre, next := PreLnk(m[i].lnks), NextLnk(m[i].lnks);
    (pre == NIL || pre < |m|) && (next == NIL || next < |m|)
  }

  /** Take mark i out of the chain. */
  function Unlinked(m: seq<Mark>, i: nat): (r: seq<Mark>)
    requires i < |m| && LinksInside(m, i)
    ensures |r| == |m|
  {
    var pre, next := PreLnk(m[i].lnks), NextLnk(m[i].lnks);
    var t1 := if pre == NIL then m else m[pre := Mark(Lnks(PreLnk(m[pre].lnks), next), m[pre].bitmap)];
    var t2 := if next == NIL then t1 else t1[next := Mark(Lnks(pre, NextLnk(t1[next].lnks)), t1[next].bitmap)];
    t2[i := Mark(Lnks(NIL, NIL), t2[i].bitmap)]
  }

  /** What unmark_blk writes into the slice. */
  function Unmarked(m: seq<Mark>, b: nat): (r: seq<Mark>)
    requires b / 32 < |m| && LinksInside(m, b / 32)
    ensures |r| == |m|
  {
    var i := b / 32;
    var bitmap := ClearBit(m[i].bitmap, b % 32);
    var t := m[i := m[i].(bitmap := bitmap)];
    if bitmap != 0 then t else Unlinked(t, i)
  }

  lemma UnmarkedMapped(m: seq<Mark>, b: nat, free: set<nat>)
    requires b / 32 < |m| && LinksInside(m, b / 32) && Mapped(m, free)
    ensures Mapped(Unmarked(m, b), free - {b})
  {
    var r := Unmarked(m, b);
    var w := m[b / 32].bitmap;
    forall j: nat
      ensures Bit(ClearBit(w, b % 32), j) <==> b % 32 != j && Bit(w, j)
    {
      ClearBitAt(w, b % 32, j);
    }
    assert forall i :: 0 <= i < |m| && i != b / 32 ==> r[i].bitmap == m[i].bitmap;
    assert r[b / 32].bitmap == ClearBit(w, b % 32);
    forall c: nat
      ensures c in free - {b} <==> c / 32 < |r| && Bit(r[c / 32].bitmap, c % 32)
    {
      assert c / 32 == b / 32 && c % 32 == b % 32 ==> c == b;
    }
  }

  lemma UnmarkedStillChained(m: seq<Mark>, head: nat, list: seq<nat>, b: nat)
    requires b / 32 < |m| && LinksInside(m, b / 32) && Chained(m, head, list)
    requires m[b / 32].bitmap != 0 && ClearBit(m[b / 32].bitmap, b % 32) != 0
    ensures Chained(Unmarked(m, b), head, list)
  {
    assert Pres(Unmarked(m, b)) == Pres(m) && Nexts(Unmarked(m, b)) == Nexts(m);
  }

  /** A mark on the list links to its neighbours there. */
  lemma LinksOf(m: seq<Mark>, head: nat, list: seq<nat>, j: nat)
    requires Chained(m, head, list) && j < |list|
    ensures list[j] < |m|
    ensures PreLnk(m[list[j]].lnks) == Before(list, j, NIL) && NextLnk(m[list[j]].lnks) == After(list, j, NIL)
    ensures Before(list, j, NIL) == NIL || Before(list, j, NIL) < |m|
    ensures After(list, j, NIL) == NIL || After(list, j, NIL) < |m|
  {
    assert Pres(m)[list[j]] == Before(list, j, NIL);
    assert Nexts(m)[list[j]] == After(list, j, NIL);
  }

  lemma UnlinkedLinks(m: seq<Mark>, b: nat, pre: nat, next: nat)
    requires b / 32 < |m| && LinksInside(m, b / 32) && |m| <= NIL && ClearBit(m[b / 32].bitmap, b % 32) == 0
    requires pre == PreLnk(m[b / 32].lnks) && next == NextLnk(m[b / 32].lnks)
    requires pre != b / 32 && next != b / 32 && (pre == NIL || pre != next)
    requires forall c :: 0 <= c < |m| ==> Pres(m)[c] <= NIL && Nexts(m)[c] <= NIL
    ensures Pres(Unmarked(m, b)) == RemovedPre(Pres(m), b / 32, pre, next, NIL)
    ensures Nexts(Unmarked(m, b)) == RemovedNext(Nexts(m), b / 32, pre, next, NIL)
  {
    hide Lnks, PreLnk, NextLnk, ClearBit;
    var i := b / 32;
    var t := m[i := m[i].(bitmap := 0)];
    assert Pres(t) == Pres(m) && Nexts(t) == Nexts(m);
    var t1 := if pre == NIL then t else t[pre := Mark(Lnks(PreLnk(t[pre].lnks), next), t[pre].bitmap)];
    if pre != NIL {
      assert Pres(t)[pre] <= NIL && Pres(t)[pre] == PreLnk(t[pre].lnks);
      assert Nexts(t)[i] == next;
      StoreLinks(t, pre, PreLnk(t[pre].lnks), next, t[pre].bitmap);
      assert Pres(t)[pre := PreLnk(t[pre].lnks)] == Pres(t);
    }
    assert Pres(t1) == Pres(m);
    var t2 := if next == NIL then t1 else t1[next := Mark(Lnks(pre, NextLnk(t1[next].lnks)), t1[next].bitmap)];
    if next != NIL {
      assert Pres(t)[i] == pre && Nexts(t1)[next] == NextLnk(t1[next].lnks) && t1[next] == m[next];
      StoreLinks(t1, next, pre, NextLnk(t1[next].lnks), t1[next].bitmap);
      assert Nexts(t1)[next := NextLnk(t1[next].lnks)] == Nexts(t1);
    }
    StoreLinks(t2, i, NIL, NIL, t2[i].bitmap);
  }

  lemma UnmarkedBitmaps(m: seq<Mark>, b: nat, c: nat)
    requires b / 32 < |m| && LinksInside(m, b / 32) && c < |m|
    ensures Unmarked(m, b)[c].bitmap == if c == b / 32 then ClearBit(m[c].bitmap, b % 32) else m[c].bitmap
  {
  }

  lemma PresBounded(m: seq<Mark>, head: nat, list: seq<nat>, c: nat)
    requires Chained(m, head, list) && c < |m|
    ensures Pres(m)[c] <= NIL && Nexts(m)[c] <= NIL
  {
    if c in list {
      var p :| 0 <= p < |list| && list[p] == c;
      LinksOf(m, head, list, p);
    }
  }

  lemma RemovedChained(m: seq<Mark>, head: nat, list: seq<nat>, j: nat, b: nat)
    requires Chained(m, head, list) && j < |list| && list[j] == b / 32
    requires b / 32 < |m| && LinksInside(m, b / 32) && ClearBit(m[b / 32].bitmap, b % 32) == 0
    ensures Chained(Unmarked(m, b), if j == 0 then After(list, 0, NIL) else head, Removed(list, j))
  {
    LinksOf(m, head, list, j);
    forall c | 0 <= c < |m|
      ensures Pres(m)[c] <= NIL && Nexts(m)[c] <= NIL
    {
      PresBounded(m, head, list, c);
    }
    UnlinkedLinks(m, b, Before(list, j, NIL), After(list, j, NIL));
    RemovedLinked(Pres(m), Nexts(m), head, list, NIL, j);
    forall c | 0 <= c < |m|
      ensures Unmarked(m, b)[c].bitmap != 0 <==> c in Removed(list, j)
    {
      RemovedMembers(list, j, c);
      UnmarkedBitmaps(m, b, c);
    }
  }

  // ----- what the representation means -----

  /** prev and next are mutually inverse along the chain. */
  lemma LinksAreInverse(m: seq<Mark>, head: nat, list: seq<nat>, i: nat)
    requires Chained(m, head, list) && i < |m|
    ensures NextLnk(m[i].lnks) != NIL ==>
              NextLnk(m[i].lnks) < |m| && PreLnk(m[NextLnk(m[i].lnks)].lnks) == i
    ensures PreLnk(m[i].lnks) != NIL ==>
              PreLnk(m[i].lnks) < |m| && NextLnk(m[PreLnk(m[i].lnks)].lnks) == i
  {
    if i in list {
      var j :| 0 <= j < |list| && list[j] == i;
      LinksOf(m, head, list, j);
      if j > 0 { LinksOf(m, head, list, j - 1); }
      if j + 1 < |list| { LinksOf(m, head, list, j + 1); }
    } else {
      assert Pres(m)[i] == NIL && Nexts(m)[i] == NIL;
    }
  }

  /** The order's list is empty exactly when it has no free block. */
  lemma EmptyIffNoneFree(m: seq<Mark>, head: nat, list: seq<nat>, free: set<nat>)
    requires Chained(m, head, list) && Mapped(m, free)
    ensures head == NIL <==> free == {}
  {
    if list != [] {
      assert list[0] in list;
      var j := NonZeroHasBit(m[list[0]].bitmap);
      var b := 32 * list[0] + j;
      assert b / 32 == list[0] && b % 32 == j;
      assert b in free;
    }
    if b: nat :| b in free {
      ZeroHasNoBit(b % 32);
    }
  }

  /** The bitmaps of an order are determined by its free blocks. */
  lemma FreeBlocksDetermineBitmaps(m: seq<Mark>, m': seq<Mark>, free: set<nat>)
    requires Mapped(m, free) && Mapped(m', free) && |m| == |m'|
    ensures forall i :: 0 <= i < |m| ==> m[i].bitmap == m'[i].bitmap
  {
    forall i | 0 <= i < |m|
      ensures m[i].bitmap == m'[i].bitmap
    {
      forall j: nat
        ensures Bit(m[i].bitmap, j) <==> Bit(m'[i].bitmap, j)
      {
        var b := 32 * i + j;
        if j < 32 {
          assert b / 32 == i && b % 32 == j;
          assert b in free <==> Bit(m[i].bitmap, j);
        }
      }
      SameBitsSameWord(m[i].bitmap, m'[i].bitmap);
    }
  }
}
