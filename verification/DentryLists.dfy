/**
 The linked structures of the dentry cache as values. A dentry is the index of its slot in the slab;
 NONE stands for a null pointer.
 */
module DentryLists {

  const NONE: int := -1

  /** What a null-terminated chain has at position `k`. */
  function At(list: seq<nat>, k: int): int {
    if 0 <= k < |list| then list[k] else NONE
  }

  ghost predicate Distinct(list: seq<nat>) {
    forall i, j :: 0 <= i < j < |list| ==> list[i] != list[j]
  }

  /** `link` leads from position `k` of the list `d` positions on. */
  ghost predicate Leads(link: seq<int>, list: seq<nat>, k: nat, d: int) {
    k < |list| ==> list[k] < |link| && link[list[k]] == At(list, k + d)
  }

  /** Following `next` from `head` visits `list` and then ends. */
  ghost predicate Chain(next: seq<int>, head: int, list: seq<nat>) {
    head == At(list, 0) && forall k: nat :: Leads(next, list, k, 1)
  }

  lemma ChainFrame(next: seq<int>, next': seq<int>, head: int, list: seq<nat>)
    requires Chain(next, head, list) && |next'| == |next|
    requires forall x :: x in list && x < |next| ==> next'[x] == next[x]
    ensures Chain(next', head, list)
  {
    forall k: nat
      ensures Leads(next', list, k, 1)
    {
      assert Leads(next, list, k, 1);
    }
  }

  lemma ChainPush(next: seq<int>, head: int, list: seq<nat>, d: nat)
    requires Chain(next, head, list) && d < |next| && d !in list
    ensures Chain(next[d := head], d, [d] + list)
  {
    var more, next' := [d] + list, next[d := head];
    forall k: nat
      ensures Leads(next', more, k, 1)
    {
      assert k > 0 ==> Leads(next, list, k - 1, 1);
    }
  }

  lemma ChainPop(next: seq<int>, head: int, list: seq<nat>)
    requires Chain(next, head, list) && Distinct(list) && list != []
    ensures head == list[0] < |next| && Chain(next[list[0] := NONE], next[list[0]], list[1..])
  {
    assert Leads(next, list, 0, 1);
    var rest, next' := list[1..], next[list[0] := NONE];
    forall k: nat
      ensures Leads(next', rest, k, 1)
    {
      assert Leads(next, list, k + 1, 1);
    }
  }

  /** `list` without the element at position `k`. */
  function RemoveAt(list: seq<nat>, k: nat): seq<nat>
    requires k < |list|
  {
    list[..k] + list[k + 1..]
  }

  lemma RemoveAtMember(list: seq<nat>, k: nat, x: nat)
    requires k < |list| && Distinct(list)
    ensures Distinct(RemoveAt(list, k))
    ensures x in RemoveAt(list, k) <==> x in list && x != list[k]
  {
    assert list == list[..k] + [list[k]] + list[k + 1..];
  }

  lemma RemoveAtIndex(list: seq<nat>, k: nat, j: int)
    requires k < |list| && -1 <= j
    ensures At(RemoveAt(list, k), j) == At(list, if j < k then j else j + 1)
  {
  }

  lemma SameIndex(list: seq<nat>, i: nat, j: nat)
    requires Distinct(list) && i < |list| && j < |list| && list[i] == list[j]
    ensures i == j
  {
  }

  /** The link of the neighbour at position `n` of a removed element skips it. */
  ghost predicate Skips(link: seq<int>, link': seq<int>, list: seq<nat>, k: nat, n: int, to: int)
    requires k < |list|
  {
    && |link'| == |link|
    && forall x :: x in list && x < |link| && x != list[k] ==>
                     link'[x] == if 0 <= n < |list| && x == list[n] then At(list, to) else link[x]
  }

  /** A link of the list without position `k`, where position `j` was position `i`. */
  lemma LeadsRemoved(link: seq<int>, link': seq<int>, list: seq<nat>, k: nat, j: nat, n: int, to: int, d: int)
    requires k < |list| && Distinct(list) && Skips(link, link', list, k, n, to) && j < |list| - 1
    requires var i := if j < k then j else j + 1; Leads(link, list, i, d) && (n == i ==> i + d == k)
    requires -1 <= j + d
    requires var i := if j < k then j else j + 1;
             At(RemoveAt(list, k), j + d) == At(list, if n == i then to else i + d)
    ensures Leads(link', RemoveAt(list, k), j, d)
  {
    hide Distinct;
    hide RemoveAt;
    var i := if j < k then j else j + 1;
    RemoveAtIndex(list, k, j);
    assert |RemoveAt(list, k)| == |list| - 1 && RemoveAt(list, k)[j] == list[i] by {
      RemoveAtLength(list, k);
    }
    assert list[i] in list;
    if list[i] == list[k] {
      SameIndex(list, i, k);
    }
    if 0 <= n < |list| && list[i] == list[n] {
      SameIndex(list, i, n);
    }
  }

  lemma RemoveAtLength(list: seq<nat>, k: nat)
    requires k < |list|
    ensures |RemoveAt(list, k)| == |list| - 1
  {
  }

  /** Taking an element out of a chain: its predecessor, or the head, gets its successor. */
  lemma ChainRemove(next: seq<int>, head: int, list: seq<nat>, k: nat, next': seq<int>, head': int)
    requires Chain(next, head, list) && Distinct(list) && k < |list|
    requires head' == if k == 0 then At(list, 1) else head
    requires Skips(next, next', list, k, k - 1, k + 1)
    ensures Chain(next', head', RemoveAt(list, k))
  {
    hide Distinct;
    hide RemoveAt;
    hide Skips;
    hide At;
    RemoveAtLength(list, k);
    RemoveAtIndex(list, k, 0);
    forall j: nat
      ensures Leads(next', RemoveAt(list, k), j, 1)
    {
      if j < |list| - 1 {
        var i := if j < k then j else j + 1;
        assert Leads(next, list, i, 1);
        RemoveAtIndex(list, k, j + 1);
        LeadsRemoved(next, next', list, k, j, k - 1, k + 1, 1);
      }
    }
  }

  // The LRU list

  /** The doubly linked list from `head`, least recently used, to `tail`. */
  ghost predicate LruLinked(prev: seq<int>, next: seq<int>, head: int, tail: int, list: seq<nat>) {
    && Distinct(list) && |prev| == |next|
    && Chain(next, head, list)
    && tail == At(list, |list| - 1)
    && forall k: nat :: Leads(prev, list, k, -1)
  }

  lemma LruRemoved(prev: seq<int>, next: seq<int>, head: int, tail: int, list: seq<nat>, k: nat,
                   prev': seq<int>, next': seq<int>, head': int, tail': int)
    requires LruLinked(prev, next, head, tail, list) && k < |list|
    requires head' == if k == 0 then At(list, 1) else head
    requires tail' == if k == |list| - 1 then At(list, k - 1) else tail
    requires Skips(next, next', list, k, k - 1, k + 1) && Skips(prev, prev', list, k, k + 1, k - 1)
    ensures LruLinked(prev', next', head', tail', RemoveAt(list, k))
  {
    hide Distinct;
    hide RemoveAt;
    hide Skips;
    hide At;
    hide Chain;
    ChainRemove(next, head, list, k, next', head');
    RemoveAtMember(list, k, list[k]);
    RemoveAtLength(list, k);
    RemoveAtIndex(list, k, |list| - 2);
    SkipsLength(next, next', list, k, k - 1, k + 1);
    SkipsLength(prev, prev', list, k, k + 1, k - 1);
    forall j: nat
      ensures Leads(prev', RemoveAt(list, k), j, -1)
    {
      if j < |list| - 1 {
        var i := if j < k then j else j + 1;
        assert Leads(prev, list, i, -1);
        RemoveAtIndex(list, k, j - 1);
        LeadsRemoved(prev, prev', list, k, j, k + 1, k - 1, -1);
      }
    }
  }

  /** The links once the neighbour at position `n` skips the element at position `k` and that one leads nowhere. */
  ghost function Unlink(link: seq<int>, list: seq<nat>, k: nat, n: int, to: int): seq<int>
    requires k < |list| && list[k] < |link| && (0 <= n < |list| ==> list[n] < |link|)
  {
    (if 0 <= n < |list| then link[list[n] := At(list, to)] else link)[list[k] := NONE]
  }

  lemma UnlinkSkips(link: seq<int>, list: seq<nat>, k: nat, n: int, to: int)
    requires k < |list| && list[k] < |link| && (0 <= n < |list| ==> list[n] < |link|)
    ensures Skips(link, Unlink(link, list, k, n, to), list, k, n, to)
  {
  }

  lemma SkipsLength(link: seq<int>, link': seq<int>, list: seq<nat>, k: nat, n: int, to: int)
    requires k < |list| && Skips(link, link', list, k, n, to)
    ensures |link'| == |link|
  {
  }

  lemma LruAppended(prev: seq<int>, next: seq<int>, head: int, tail: int, list: seq<nat>, d: nat,
                    prev': seq<int>, next': seq<int>)
    requires LruLinked(prev, next, head, tail, list) && d < |prev| && d !in list && |prev'| == |next'| == |prev|
    requires prev' == prev[d := tail]
    requires |list| == 0 ==> next' == next[d := NONE]
    requires |list| > 0 ==> list[|list| - 1] < |next| && next' == next[d := NONE][list[|list| - 1] := d]
    ensures LruLinked(prev', next', if head == NONE then d else head, d, list + [d])
  {
    var more := list + [d];
    forall k: nat
      ensures Leads(next', more, k, 1) && Leads(prev', more, k, -1)
    {
      assert Leads(next, list, k, 1) && Leads(prev, list, k, -1);
    }
  }

  // Lists with some elements left out

  /** The elements of `list` that are not in `gone`, in their order. */
  function Minus(list: seq<nat>, gone: set<nat>): seq<nat> {
    if list == [] then []
    else
      var x := list[|list| - 1];
      Minus(list[..|list| - 1], gone) + if x in gone then [] else [x]
  }

  lemma {:induction false} MinusMember(list: seq<nat>, gone: set<nat>, x: nat)
    ensures x in Minus(list, gone) <==> x in list && x !in gone
  {
    if list != [] {
      assert list == list[..|list| - 1] + [list[|list| - 1]];
      MinusMember(list[..|list| - 1], gone, x);
    }
  }

  lemma {:induction false} MinusTwice(list: seq<nat>, a: set<nat>, b: set<nat>)
    ensures Minus(Minus(list, a), b) == Minus(list, a + b)
  {
    if list != [] {
      var was, x := list[..|list| - 1], list[|list| - 1];
      MinusTwice(was, a, b);
      if x !in a {
        assert (Minus(was, a) + [x])[..|Minus(was, a)|] == Minus(was, a);
      } else {
        assert Minus(list, a) == Minus(was, a);
      }
    }
  }

  lemma {:induction false} MinusNone(list: seq<nat>, gone: set<nat>)
    requires forall x :: x in list ==> x !in gone
    ensures Minus(list, gone) == list
  {
    if list != [] {
      assert list[|list| - 1] in list;
      MinusNone(list[..|list| - 1], gone);
    }
  }

  lemma {:induction false} MinusConcat(a: seq<nat>, b: seq<nat>, gone: set<nat>)
    ensures Minus(a + b, gone) == Minus(a, gone) + Minus(b, gone)
  {
    if b == [] {
      assert a + b == a;
    } else {
      assert (a + b)[..|a + b| - 1] == a + b[..|b| - 1];
      MinusConcat(a, b[..|b| - 1], gone);
    }
  }

  lemma MinusAlone(x: nat)
    ensures Minus([x], {x}) == []
  {
    assert Minus([x][..0], {x}) == [];
  }

  lemma MinusOne(list: seq<nat>, k: nat)
    requires k < |list| && Distinct(list)
    ensures Minus(list, {list[k]}) == RemoveAt(list, k)
  {
    hide Minus;
    var a, x, b := list[..k], list[k], list[k + 1..];
    assert list == (a + [x]) + b;
    MinusConcat(a + [x], b, {x});
    MinusConcat(a, [x], {x});
    MinusNone(a, {x});
    MinusNone(b, {x});
    MinusAlone(x);
  }

  /** What is at the end of a list stays there. */
  lemma MinusSuffix(list: seq<nat>, gone: set<nat>, i: nat)
    requires i <= |list| && forall x :: x in list[i..] ==> x !in gone
    ensures |Minus(list, gone)| >= |list| - i
    ensures Minus(list, gone)[|Minus(list, gone)| - (|list| - i)..] == list[i..]
  {
    assert list == list[..i] + list[i..];
    MinusConcat(list[..i], list[i..], gone);
    MinusNone(list[i..], gone);
  }
}
