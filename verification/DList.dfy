/** Doubly linked lists threaded through an array of records by index, with a sentinel value
    `nil` for "no neighbour". */
module DList {

  function Before(list: seq<nat>, j: nat, nil: nat): nat
    requires j < |list|
  {
    if j == 0 then nil else list[j - 1]
  }

  function After(list: seq<nat>, j: nat, nil: nat): nat
    requires j < |list|
  {
    if j + 1 == |list| then nil else list[j + 1]
  }

  ghost predicate Distinct(list: seq<nat>) {
    forall i, j :: 0 <= i < j < |list| ==> list[i] != list[j]
  }

  /** Following next from head visits exactly `list`; following prev goes back; records that are
      not on the list have no neighbours. */
  ghost predicate Linked(pre: seq<nat>, next: seq<nat>, head: nat, list: seq<nat>, nil: nat) {
    && |pre| == |next| <= nil
    && Distinct(list)
    && (forall j :: 0 <= j < |list| ==> list[j] < |pre|)
    && head == (if list == [] then nil else list[0])
    && (forall j {:trigger Before(list, j, nil)} :: 0 <= j < |list| ==> pre[list[j]] == Before(list, j, nil))
    && (forall j {:trigger After(list, j, nil)} :: 0 <= j < |list| ==> next[list[j]] == After(list, j, nil))
    && (forall i :: 0 <= i < |pre| && i !in list ==> pre[i] == nil && next[i] == nil)
  }

  lemma HeadOf(pre: seq<nat>, next: seq<nat>, head: nat, list: seq<nat>, nil: nat)
    requires Linked(pre, next, head, list, nil)
    ensures head == nil || (head < |pre| && head in list)
  {
    if list != [] { assert list[0] in list; }
  }

  function PushedPre(pre: seq<nat>, head: nat, nil: nat, i: nat): (r: seq<nat>)
    requires i < |pre| && (head == nil || head < |pre|)
    ensures |r| == |pre|
  {
    if head == nil then pre[i := nil] else pre[i := nil][head := i]
  }

  lemma PushedLinks(pre: seq<nat>, next: seq<nat>, head: nat, list: seq<nat>, nil: nat, i: nat, j: nat)
    requires Linked(pre, next, head, list, nil) && i < |pre| && i !in list && j <= |list|
    ensures var l := [i] + list;
            && PushedPre(pre, head, nil, i)[l[j]] == Before(l, j, nil)
            && next[i := head][l[j]] == After(l, j, nil)
  {
    if j > 0 {
      var l := [i] + list;
      assert l[j] == list[j - 1] && list[j - 1] in list;
      assert pre[list[j - 1]] == Before(list, j - 1, nil);
      assert next[list[j - 1]] == After(list, j - 1, nil);
    }
  }

  lemma PushedOff(pre: seq<nat>, next: seq<nat>, head: nat, list: seq<nat>, nil: nat, i: nat, c: nat)
    requires Linked(pre, next, head, list, nil) && i < |pre| && i !in list
    requires c < |pre| && c != i && c !in list
    ensures PushedPre(pre, head, nil, i)[c] == nil && next[i := head][c] == nil
  {
    HeadOf(pre, next, head, list, nil);
  }

  lemma PushedLinked(pre: seq<nat>, next: seq<nat>, head: nat, list: seq<nat>, nil: nat, i: nat)
    requires Linked(pre, next, head, list, nil) && i < |pre| && i !in list
    ensures Linked(PushedPre(pre, head, nil, i), next[i := head], i, [i] + list, nil)
  {
    hide Before, After, PushedPre;
    var l := [i] + list;
    assert forall c :: c in l <==> c == i || c in list;
    forall j | 0 <= j < |l|
      ensures PushedPre(pre, head, nil, i)[l[j]] == Before(l, j, nil)
      ensures next[i := head][l[j]] == After(l, j, nil)
    {
      PushedLinks(pre, next, head, list, nil, i, j);
    }
    forall c | 0 <= c < |pre| && c !in l
      ensures PushedPre(pre, head, nil, i)[c] == nil && next[i := head][c] == nil
    {
      PushedOff(pre, next, head, list, nil, i, c);
    }
  }

  function Removed(list: seq<nat>, j: nat): seq<nat>
    requires j < |list|
  {
    list[..j] + list[j + 1..]
  }

  function RemovedPre(pre: seq<nat>, i: nat, p: nat, n: nat, nil: nat): seq<nat>
    requires i < |pre| && (n == nil || n < |pre|)
  {
    (if n == nil then pre else pre[n := p])[i := nil]
  }

  function RemovedNext(next: seq<nat>, i: nat, p: nat, n: nat, nil: nat): seq<nat>
    requires i < |next| && (p == nil || p < |next|)
  {
    (if p == nil then next else next[p := n])[i := nil]
  }

  lemma RemovedMembers(list: seq<nat>, j: nat, c: nat)
    requires Distinct(list) && j < |list|
    ensures c in Removed(list, j) <==> c in list && c != list[j]
    ensures Distinct(Removed(list, j))
  {
    var l := Removed(list, j);
    assert forall q :: 0 <= q < |l| ==> l[q] == list[if q < j then q else q + 1];
    if c in list && c != list[j] {
      var p :| 0 <= p < |list| && list[p] == c;
      assert l[if p < j then p else p - 1] == c;
    }
  }

  lemma RemovedLinks(pre: seq<nat>, next: seq<nat>, head: nat, list: seq<nat>, nil: nat, j: nat, q: nat)
    requires Linked(pre, next, head, list, nil) && j < |list| && q + 1 < |list|
    ensures var l := Removed(list, j);
            var p, n := Before(list, j, nil), After(list, j, nil);
            && RemovedPre(pre, list[j], p, n, nil)[l[q]] == Before(l, q, nil)
            && RemovedNext(next, list[j], p, n, nil)[l[q]] == After(l, q, nil)
  {
    var l := Removed(list, j);
    var p := if q < j then q else q + 1;
    assert l[q] == list[p];
    assert pre[list[p]] == Before(list, p, nil) && next[list[p]] == After(list, p, nil);
    assert Before(l, q, nil) == if q == j then Before(list, j, nil) else Before(list, p, nil);
    assert After(l, q, nil) == if q + 1 == j then After(list, j, nil) else After(list, p, nil);
  }

  lemma RemovedLinked(pre: seq<nat>, next: seq<nat>, head: nat, list: seq<nat>, nil: nat, j: nat)
    requires Linked(pre, next, head, list, nil) && j < |list|
    ensures var p, n := Before(list, j, nil), After(list, j, nil);
            Linked(RemovedPre(pre, list[j], p, n, nil), RemovedNext(next, list[j], p, n, nil),
                   if j == 0 then n else head, Removed(list, j), nil)
  {
    var l := Removed(list, j);
    var p, n := Before(list, j, nil), After(list, j, nil);
    var pre', next' := RemovedPre(pre, list[j], p, n, nil), RemovedNext(next, list[j], p, n, nil);
    forall q | 0 <= q < |l|
      ensures l[q] < |pre| && pre'[l[q]] == Before(l, q, nil) && next'[l[q]] == After(l, q, nil)
    {
      assert l[q] == list[if q < j then q else q + 1];
      RemovedLinks(pre, next, head, list, nil, j, q);
    }
    forall i | 0 <= i < |pre| && i !in l
      ensures pre'[i] == nil && next'[i] == nil
    {
      RemovedMembers(list, j, i);
      assert j > 0 ==> list[j - 1] in list;
      assert j + 1 < |list| ==> list[j + 1] in list;
      if i != list[j] {
        assert i !in list;
      }
    }
    RemovedMembers(list, j, 0);
  }
}
