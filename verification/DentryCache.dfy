/**
 The dentry cache: a slab of entries that are at once on a free list or on the LRU list, in a tree of
 sibling lists, and holders of references to file system nodes.
 */
module DentryCache {
  import opened DentryLists
  import opened DentryTree
  import opened Pigeonhole

  ghost function Project(s: seq<Dentry>): (v: Fields)
    ensures Wide(v, |s|)
  {
    Fields(
      seq(|s|, i requires 0 <= i < |s| => s[i].name),
      seq(|s|, i requires 0 <= i < |s| => s[i].node),
      seq(|s|, i requires 0 <= i < |s| => s[i].hash),
      seq(|s|, i requires 0 <= i < |s| => s[i].lruPrev),
      seq(|s|, i requires 0 <= i < |s| => s[i].lruNext),
      seq(|s|, i requires 0 <= i < |s| => s[i].parent),
      seq(|s|, i requires 0 <= i < |s| => s[i].children),
      seq(|s|, i requires 0 <= i < |s| => s[i].sibNext),
      seq(|s|, i requires 0 <= i < |s| => s[i].slabNext))
  }

  lemma ProjectSet(s: seq<Dentry>, i: nat, e: Dentry)
    requires i < |s|
    ensures var v := Project(s);
            && Project(s[i := e]) == Fields(v.name[i := e.name], v.node[i := e.node], v.hash[i := e.hash],
                                            v.prev[i := e.lruPrev], v.next[i := e.lruNext], v.parent[i := e.parent],
                                            v.children[i := e.children], v.sib[i := e.sibNext],
                                            v.slabNext[i := e.slabNext])
            && v == Fields(v.name[i := s[i].name], v.node[i := s[i].node], v.hash[i := s[i].hash],
                           v.prev[i := s[i].lruPrev], v.next[i := s[i].lruNext], v.parent[i := s[i].parent],
                           v.children[i := s[i].children], v.sib[i := s[i].sibNext],
                           v.slabNext[i := s[i].slabNext])
  {
  }

  /** Every slot is on exactly one of the two lists. */
  ghost predicate Split(n: nat, free: seq<nat>, lru: seq<nat>) {
    && Distinct(free) && Distinct(lru) && |free| + |lru| == n
    && (forall x :: x in free ==> x < n && x !in lru)
    && (forall x :: x in lru ==> x < n)
  }

  lemma SplitCovers(n: nat, free: seq<nat>, lru: seq<nat>, x: nat)
    requires Split(n, free, lru) && x < n
    ensures x in free <==> x !in lru
  {
    if x !in free && x !in lru {
      var all := free + lru + [x];
      assert forall i :: 0 <= i < |free| ==> all[i] == free[i] && free[i] in free;
      assert forall i :: 0 <= i < |lru| ==> all[|free| + i] == lru[i] && lru[i] in lru;
      forall i, j | 0 <= i < j < |all|
        ensures all[i] != all[j] && all[i] < n && all[j] < n
      {
        assert j < |free| + |lru| ==> all[j] in free || all[j] in lru;
      }
      DistinctBound(all, n);
    }
  }

  lemma SplitMove(n: nat, free: seq<nat>, lru: seq<nat>, k: nat)
    requires Split(n, free, lru) && k < |lru|
    ensures lru[k] !in free && Split(n, [lru[k]] + free, RemoveAt(lru, k))
  {
    var d := lru[k];
    assert d in lru;
    forall x: nat
      ensures x in RemoveAt(lru, k) <==> x in lru && x != d
    {
      RemoveAtMember(lru, k, x);
    }
    RemoveAtMember(lru, k, d);
    hide RemoveAt;
    RemoveAtLength(lru, k);
    var free' := [d] + free;
    forall i, j | 0 <= i < j < |free'|
      ensures free'[i] != free'[j]
    {
      assert free'[j] == free[j - 1] && free[j - 1] in free;
    }
  }

  lemma SplitRotate(n: nat, free: seq<nat>, lru: seq<nat>, k: nat)
    requires Split(n, free, lru) && k < |lru|
    ensures Split(n, free, RemoveAt(lru, k) + [lru[k]])
    ensures forall x: nat :: x in RemoveAt(lru, k) + [lru[k]] <==> x in lru
  {
    var d := lru[k];
    forall x: nat
      ensures x in RemoveAt(lru, k) <==> x in lru && x != d
    {
      RemoveAtMember(lru, k, x);
    }
    RemoveAtMember(lru, k, d);
    hide RemoveAt;
    RemoveAtLength(lru, k);
    var less := RemoveAt(lru, k);
    var more := less + [d];
    assert d in lru;
    forall i, j | 0 <= i < j < |more|
      ensures more[i] != more[j]
    {
      assert i < |less| ==> less[i] in less;
    }
  }

  lemma SplitTake(n: nat, free: seq<nat>, lru: seq<nat>, d: nat)
    requires Split(n, [d] + free, lru)
    ensures d < n && d !in lru && d !in free && Split(n, free, lru + [d])
  {
    var all, more := [d] + free, lru + [d];
    assert d in all;
    forall i | 0 <= i < |free|
      ensures free[i] != d && free[i] in all
    {
      assert free[i] == all[i + 1] && all[0] == d;
    }
    assert Distinct(free) by {
      assert forall i :: 0 <= i < |free| ==> free[i] == all[i + 1];
    }
    assert Distinct(more) by {
      assert forall i :: 0 <= i < |lru| ==> more[i] == lru[i] && lru[i] in lru;
    }
  }

  /** The nodes of a list of entries. */
  ghost function Nodes(node: seq<nat>, list: seq<nat>): seq<nat> {
    seq(|list|, i requires 0 <= i < |list| => if list[i] < |node| then node[list[i]] else 0)
  }

  ghost function Held(node: seq<nat>, list: seq<nat>): multiset<nat> {
    multiset(Nodes(node, list))
  }

  lemma HeldRemove(node: seq<nat>, list: seq<nat>, k: nat)
    requires k < |list| && list[k] < |node|
    ensures Held(node, list) == Held(node, RemoveAt(list, k)) + multiset{node[list[k]]}
  {
    var s := Nodes(node, list);
    assert s == s[..k] + [s[k]] + s[k + 1..];
    assert Nodes(node, RemoveAt(list, k)) == s[..k] + s[k + 1..];
  }

  lemma HeldAppend(node: seq<nat>, list: seq<nat>, d: nat)
    requires d < |node|
    ensures Held(node, list + [d]) == Held(node, list) + multiset{node[d]}
  {
    assert Nodes(node, list + [d]) == Nodes(node, list) + [node[d]];
  }

  lemma HeldRotate(node: seq<nat>, list: seq<nat>, k: nat)
    requires k < |list| && list[k] < |node|
    ensures Held(node, RemoveAt(list, k) + [list[k]]) == Held(node, list)
  {
    HeldRemove(node, list, k);
    HeldAppend(node, RemoveAt(list, k), list[k]);
  }

  lemma HeldReplace(node: seq<nat>, list: seq<nat>, k: nat, x: nat)
    requires k < |list| && list[k] < |node| && Distinct(list)
    ensures Held(node[list[k] := x], list) + multiset{node[list[k]]} == Held(node, list) + multiset{x}
  {
    var node' := node[list[k] := x];
    HeldRemove(node, list, k);
    HeldRemove(node', list, k);
    forall y: nat
      ensures y in RemoveAt(list, k) ==> y != list[k]
    {
      RemoveAtMember(list, k, y);
    }
    HeldFrame(node, node', RemoveAt(list, k));
  }

  lemma HeldFrame(node: seq<nat>, node': seq<nat>, list: seq<nat>)
    requires |node'| == |node| && forall x :: x in list && x < |node| ==> node'[x] == node[x]
    ensures Held(node', list) == Held(node, list)
  {
    assert Nodes(node', list) == Nodes(node, list);
  }

  lemma Inhabited(b: seq<nat>)
    requires b != []
    ensures exists x: nat :: x in b
  {
    assert b[0] in b;
  }

  /** Two orders of the same entries hold the same nodes. */
  lemma {:induction false} HeldSame(node: seq<nat>, a: seq<nat>, b: seq<nat>)
    requires Distinct(a) && Distinct(b) && (forall x: nat :: x in a <==> x in b)
    requires forall x :: x in a ==> x < |node|
    ensures Held(node, a) == Held(node, b)
    decreases |a|
  {
    if a == [] {
      if b != [] {
        Inhabited(b);
      }
    } else {
      var k := |a| - 1;
      assert a[k] in a;
      var j :| 0 <= j < |b| && b[j] == a[k];
      HeldRemove(node, a, k);
      HeldRemove(node, b, j);
      RemoveAtMember(a, k, a[k]);
      RemoveAtMember(b, j, a[k]);
      forall x: nat
        ensures x in RemoveAt(a, k) <==> x in RemoveAt(b, j)
        ensures x in RemoveAt(a, k) ==> x in a
      {
        RemoveAtMember(a, k, x);
        RemoveAtMember(b, j, x);
      }
      HeldSame(node, RemoveAt(a, k), RemoveAt(b, j));
    }
  }

  /** An entry that is removed gives up its own node and no other. */
  lemma HeldReleased(v: Fields, v': Fields, n: nat, free: seq<nat>, list: seq<nat>, k: nat)
    requires Split(n, free, list) && k < |list| && Wide(v, n) && Removed(v, v', {list[k]})
    ensures list[k] < n && Held(v.node, list) == Held(v'.node, RemoveAt(list, k)) + multiset{v.node[list[k]]}
  {
    assert list[k] in list;
    HeldRemove(v.node, list, k);
    forall x: nat
      ensures x in RemoveAt(list, k) ==> x != list[k]
    {
      RemoveAtMember(list, k, x);
    }
    HeldFrame(v.node, v'.node, RemoveAt(list, k));
  }

  /** Names, parents and nodes of the entries of a list are the same. */
  ghost predicate Kept(v: Fields, v': Fields, list: seq<nat>) {
    forall x :: x in list && x < |v.name| && x < |v.parent| && x < |v.node| ==>
                  && x < |v'.name| && x < |v'.parent| && x < |v'.node|
                  && v'.name[x] == v.name[x] && v'.parent[x] == v.parent[x] && v'.node[x] == v.node[x]
  }

  lemma RemovedKept(v: Fields, v': Fields, list: seq<nat>, gone: set<nat>)
    requires Removed(v, v', gone)
    ensures Kept(v, v', Minus(list, gone))
  {
    forall x: nat
      ensures x in Minus(list, gone) ==> x !in gone
    {
      MinusMember(list, gone, x);
    }
  }

  lemma SameThenKept(v: Fields, v1: Fields, v2: Fields, list: seq<nat>)
    requires v1.name == v.name && v1.parent == v.parent && v1.node == v.node && Kept(v1, v2, list)
    ensures Kept(v, v2, list)
  {
  }

  lemma KeptThenSame(v: Fields, v1: Fields, v2: Fields, list: seq<nat>)
    requires Kept(v, v1, list) && v2.name == v1.name && v2.parent == v1.parent && v2.node == v1.node
    ensures Kept(v, v2, list)
  {
  }

  lemma KeptSelf(v: Fields, list: seq<nat>)
    ensures Kept(v, v, list)
  {
  }

  /** `anc` are the entries on a path, and the most recently used ones in that order. */
  ghost predicate OnPath(v: Fields, live: seq<nat>, anc: seq<nat>, names: seq<Name>) {
    && Ancestry(v, live, anc) && |anc| == |names|
    && |anc| <= |live| && live[|live| - |anc|..] == anc
    && forall i :: 0 <= i < |anc| ==> anc[i] < |v.name| && v.name[anc[i]] == names[i]
  }

  /** One step further along the path, when none of its entries goes. */
  lemma OnPathStep(
    v: Fields, v': Fields, n: nat, live: seq<nat>, gone: set<nat>, anc: seq<nat>, names: seq<Name>, d: nat, name: Name)
    requires Wide(v, n) && Wide(v', n) && OnPath(v, live, anc, names) && (forall a :: a in anc ==> a !in gone)
    requires Kept(v, v', Minus(live, gone)) && d < n && v'.parent[d] == Last(anc) && v'.name[d] == name
    ensures OnPath(v', Minus(live, gone) + [d], anc + [d], names + [name])
  {
    hide Minus;
    var less, anc' := Minus(live, gone), anc + [d];
    MinusSuffix(live, gone, |live| - |anc|);
    forall a | a in anc
      ensures a in less && a < n && v'.parent[a] == v.parent[a] && v'.name[a] == v.name[a]
    {
      assert a in less[|less| - |anc|..];
      var i :| 0 <= i < |anc| && anc[i] == a;
      assert Leads(v.parent, anc, i, -1);
    }
    assert (less + [d])[|less| + 1 - |anc'|..] == anc';
    forall i: nat
      ensures Leads(v'.parent, anc', i, -1)
    {
      assert Leads(v.parent, anc, i, -1);
      assert i < |anc| ==> anc[i] in anc;
    }
  }

  /** The entry of the next component was there: it is used again and is not on the path so far. */
  lemma HitOnPath(v: Fields, root: int, live: seq<nat>, kids: Kids, depth: seq<nat>, v': Fields,
                  anc: seq<nat>, names: seq<Name>, d: nat, name: Name)
    requires TreeOk(v, root, live, kids, depth) && Wide(v, |depth|) && Wide(v', |depth|) && OnPath(v, live, anc, names)
    requires d in live && d < |depth| && Kept(v, v', live) && v'.parent[d] == Last(anc) && v'.name[d] == name
    ensures OnPath(v', Minus(live, {d}) + [d], anc + [d], names + [name])
  {
    ChildNotAbove(v, root, live, kids, depth, anc, d);
    forall x: nat
      ensures x in Minus(live, {d}) ==> x in live
    {
      MinusMember(live, {d}, x);
    }
    OnPathStep(v, v', |depth|, live, {d}, anc, names, d, name);
  }

  // What a walk finds and what it brings

  ghost function NodeAt(v: Fields, x: nat): nat {
    if x < |v.node| then v.node[x] else 0
  }

  ghost predicate LeadsNowhere(v: Fields, live: seq<nat>, path: seq<Name>) {
    forall t :: !Reaches(v, live, path, t)
  }

  /**
   A walk along `path` that started with the fields `v0` has come to the entries `anc`. The first `k` of
   them were there before, as many as the path led to, and have the nodes they had; the others have
   the nodes that were found.
   */
  ghost predicate Walked(
    v0: Fields, live0: seq<nat>, v: Fields, anc: seq<nat>, path: seq<Name>, found: seq<nat>, k: nat)
  {
    && k <= |anc| <= |path| == |found|
    && (forall j :: 0 <= j < k ==> Reaches(v0, live0, path[..j + 1], anc[j]))
    && (k < |anc| ==> LeadsNowhere(v0, live0, path[..k + 1]))
    && (forall j :: 0 <= j < |anc| ==> NodeAt(v, anc[j]) == if j < k then NodeAt(v0, anc[j]) else found[j])
  }

  ghost predicate Childless(v: Fields, live: seq<nat>, d: int) {
    forall c :: c in live && c < |v.parent| ==> v.parent[c] != d
  }

  /** Up to the first miss nothing has changed but the order of use; behind it there are no children. */
  ghost predicate Walking(
    v0: Fields, live0: seq<nat>, v: Fields, live: seq<nat>, anc: seq<nat>, path: seq<Name>, found: seq<nat>, k: nat)
  {
    && Walked(v0, live0, v, anc, path, found, k)
    && (if k == |anc| then Kept(v0, v, live0) && forall x: nat :: x in live <==> x in live0
        else Childless(v, live, Last(anc)))
  }

  /** The walk is at the entry that the path so far led to before. */
  lemma WalkedHere(
    v0: Fields, live0: seq<nat>, v: Fields, anc: seq<nat>, path: seq<Name>, found: seq<nat>)
    requires Walked(v0, live0, v, anc, path, found, |anc|)
    ensures Reaches(v0, live0, path[..|anc|], Last(anc))
  {
    if anc != [] {
      var j := |anc| - 1;
      assert Reaches(v0, live0, path[..j + 1], anc[j]);
    }
  }

  /** The next component is there. */
  lemma WalkingHit(
    v0: Fields, n: nat, live0: seq<nat>, v: Fields, live: seq<nat>, v': Fields, live': seq<nat>,
    anc: seq<nat>, path: seq<Name>, found: seq<nat>, k: nat, d: nat)
    requires Wide(v0, n) && Wide(v, n) && Wide(v', n) && Walking(v0, live0, v, live, anc, path, found, k)
    requires |anc| < |path| && d in live && d < n && v'.parent[d] == Last(anc) && v'.name[d] == path[|anc|]
    requires Kept(v, v', live) && (forall x: nat :: x in live' <==> x in live)
    requires forall a :: a in anc ==> a in live && a < n
    ensures k == |anc| && v0.node[d] == v'.node[d] && Walking(v0, live0, v', live', anc + [d], path, found, k + 1)
  {
    assert v.parent[d] == Last(anc);
    assert k == |anc|;
    WalkedHere(v0, live0, v, anc, path, found);
    assert v0.name[d] == path[k] && v0.parent[d] == Last(anc);
    assert path[..k + 1][..k] == path[..k];
    assert Reaches(v0, live0, path[..k + 1], d);
    forall j | 0 <= j < |anc + [d]|
      ensures NodeAt(v', (anc + [d])[j]) == NodeAt(v0, (anc + [d])[j])
      ensures Reaches(v0, live0, path[..j + 1], (anc + [d])[j])
    {
      if j < |anc| {
        assert anc[j] in anc;
      }
    }
  }

  /** Where the last name of a path is missing now, and nothing has gone, it was missing before. */
  lemma MissedBefore(
    v0: Fields, root0: int, n: nat, live0: seq<nat>, kids0: Kids, depth0: seq<nat>, v: Fields, live: seq<nat>,
    path: seq<Name>, p: int)
    requires TreeOk(v0, root0, live0, kids0, depth0) && Wide(v0, n) && Wide(v, n)
    requires Kept(v0, v, live0) && (forall x: nat :: x in live <==> x in live0)
    requires path != [] && Reaches(v0, live0, path[..|path| - 1], p) && Absent(v, live, p, path[|path| - 1])
    ensures LeadsNowhere(v0, live0, path)
  {
    forall t
      ensures !Reaches(v0, live0, path, t)
    {
      if Reaches(v0, live0, path, t) {
        ReachesOne(v0, root0, live0, kids0, depth0, path[..|path| - 1], v0.parent[t], p);
      }
    }
  }

  /** The next component is not there. */
  lemma WalkingMiss(
    v0: Fields, root0: int, n: nat, live0: seq<nat>, kids0: Kids, depth0: seq<nat>,
    v: Fields, live: seq<nat>, v': Fields, live': seq<nat>,
    anc: seq<nat>, path: seq<Name>, found: seq<nat>, k: nat, d: nat)
    requires TreeOk(v0, root0, live0, kids0, depth0)
    requires Wide(v0, n) && Wide(v, n) && Wide(v', n) && Walking(v0, live0, v, live, anc, path, found, k)
    requires |anc| < |path| && Absent(v, live, Last(anc), path[|anc|]) && (forall x :: x in live ==> x < n)
    requires d < n && v'.node[d] == found[|anc|] && Childless(v', live', d)
    requires forall a :: a in anc ==> a < n && v'.node[a] == v.node[a]
    ensures Walking(v0, live0, v', live', anc + [d], path, found, k)
  {
    var i := |anc|;
    if k == i {
      WalkedHere(v0, live0, v, anc, path, found);
      assert path[..k + 1][..k] == path[..k];
      MissedBefore(v0, root0, n, live0, kids0, depth0, v, live, path[..k + 1], Last(anc));
    }
    forall j | 0 <= j < |anc + [d]|
      ensures NodeAt(v', (anc + [d])[j]) == if j < k then NodeAt(v0, (anc + [d])[j]) else found[j]
    {
      if j < |anc| {
        assert anc[j] in anc && NodeAt(v, anc[j]) == if j < k then NodeAt(v0, anc[j]) else found[j];
      }
    }
    forall j | 0 <= j < k
      ensures Reaches(v0, live0, path[..j + 1], (anc + [d])[j])
    {
      assert Reaches(v0, live0, path[..j + 1], anc[j]);
    }
  }

  /** A new entry has no children. */
  lemma NewChildless(
    v: Fields, root: int, live: seq<nat>, kids: Kids, depth: seq<nat>, v': Fields, gone: set<nat>, d: nat)
    requires TreeOk(v, root, live, kids, depth) && Wide(v, |depth|) && Wide(v', |depth|) && d < |depth|
    requires Kept(v, v', Minus(live, gone)) && v'.parent[d] != d
    requires d !in live || gone == Subtree(v.parent, depth, live, d)
    ensures Childless(v', Minus(live, gone) + [d], d)
  {
    BelowSelf(v.parent, depth, d);
    forall c | c in live && v.parent[c] == d
      ensures d in live && c in Subtree(v.parent, depth, live, d)
    {
      assert Hangs(v, live, kids, depth, c);
      if c != d {
        BelowParent(v.parent, depth, c, d);
      }
    }
    forall c: nat
      ensures c in Minus(live, gone) ==> c in live && c !in gone
    {
      MinusMember(live, gone, c);
    }
  }

  /** No child of `p` has the name. */
  ghost predicate Absent(v: Fields, live: seq<nat>, p: int, name: Name) {
    forall c :: c in live && c < |v.parent| && c < |v.name| && v.parent[c] == p ==> v.name[c] != name
  }

  lemma AbsentKept(v: Fields, v': Fields, n: nat, live: seq<nat>, gone: set<nat>, p: int, name: Name)
    requires Wide(v, n) && Wide(v', n) && Absent(v, live, p, name) && Kept(v, v', Minus(live, gone))
    ensures Absent(v', Minus(live, gone), p, name)
  {
    forall x: nat
      ensures x in Minus(live, gone) ==> x in live
    {
      MinusMember(live, gone, x);
    }
  }

  lemma UnlinkedFields(v: Fields, root: int, v': Fields, root': int, list: seq<nat>, d: nat, k: nat)
    requires Unlinked(v, root, v', root', list, d, k)
    ensures v'.name == v.name && v'.parent == v.parent && v'.node == v.node
    ensures v' == v.(sib := v'.sib, children := v'.children) && k < |list|
  {
  }

  ghost function Tallest(depth: seq<nat>): (t: nat)
    ensures forall x :: 0 <= x < |depth| ==> depth[x] <= t
  {
    if depth == [] then 0
    else
      var t := Tallest(depth[..|depth| - 1]);
      if depth[|depth| - 1] > t then depth[|depth| - 1] else t
  }

  class DentryCache {
    const slab: array<Dentry>
    var rootChildren: int
    var lruHead: int
    var lruTail: int
    var freeList: int
    var entryCount: nat
    var hitCount: nat
    var missCount: nat

    /** The reference counts of the file system nodes. */
    var refs: multiset<nat>

    ghost var lru: seq<nat>
    ghost var free: seq<nat>
    ghost var kids: Kids
    ghost var depth: seq<nat>

    /** The references that others than the cache hold. */
    ghost var callers: multiset<nat>

    ghost function V(): (v: Fields)
      reads slab
      ensures Wide(v, slab.Length)
    {
      Project(slab[..])
    }

    ghost predicate ListsOk()
      reads `lruHead, `lruTail, `freeList, `entryCount, `lru, `free, slab
    {
      && LruLinked(V().prev, V().next, lruHead, lruTail, lru)
      && Chain(V().slabNext, freeList, free)
      && Split(slab.Length, free, lru)
      && entryCount == |lru|
    }

    // One field of one slot

    method SetPrev(i: nat, x: int)
      requires i < slab.Length
      modifies slab
      ensures V() == old(V()).(prev := old(V()).prev[i := x])
    {
      slab[i] := slab[i].(lruPrev := x);
      ProjectSet(old(slab[..]), i, slab[i]);
      assert slab[..] == old(slab[..])[i := slab[i]];
    }

    method SetNext(i: nat, x: int)
      requires i < slab.Length
      modifies slab
      ensures V() == old(V()).(next := old(V()).next[i := x])
    {
      slab[i] := slab[i].(lruNext := x);
      ProjectSet(old(slab[..]), i, slab[i]);
      assert slab[..] == old(slab[..])[i := slab[i]];
    }

    method SetParent(i: nat, x: int)
      requires i < slab.Length
      modifies slab
      ensures V() == old(V()).(parent := old(V()).parent[i := x])
    {
      slab[i] := slab[i].(parent := x);
      ProjectSet(old(slab[..]), i, slab[i]);
      assert slab[..] == old(slab[..])[i := slab[i]];
    }

    method SetChildren(i: nat, x: int)
      requires i < slab.Length
      modifies slab
      ensures V() == old(V()).(children := old(V()).children[i := x])
    {
      slab[i] := slab[i].(children := x);
      ProjectSet(old(slab[..]), i, slab[i]);
      assert slab[..] == old(slab[..])[i := slab[i]];
    }

    method SetSibling(i: nat, x: int)
      requires i < slab.Length
      modifies slab
      ensures V() == old(V()).(sib := old(V()).sib[i := x])
    {
      slab[i] := slab[i].(sibNext := x);
      ProjectSet(old(slab[..]), i, slab[i]);
      assert slab[..] == old(slab[..])[i := slab[i]];
    }

    method SetSlabNext(i: nat, x: int)
      requires i < slab.Length
      modifies slab
      ensures V() == old(V()).(slabNext := old(V()).slabNext[i := x])
    {
      slab[i] := slab[i].(slabNext := x);
      ProjectSet(old(slab[..]), i, slab[i]);
      assert slab[..] == old(slab[..])[i := slab[i]];
    }

    method SetNode(i: nat, x: nat)
      requires i < slab.Length
      modifies slab
      ensures V() == old(V()).(node := old(V()).node[i := x])
    {
      slab[i] := slab[i].(node := x);
      ProjectSet(old(slab[..]), i, slab[i]);
      assert slab[..] == old(slab[..])[i := slab[i]];
    }

    method SetName(i: nat, x: Name)
      requires i < slab.Length
      modifies slab
      ensures V() == old(V()).(name := old(V()).name[i := x], hash := old(V()).hash[i := Fnv(x)])
    {
      var h := HashName(x);
      slab[i] := slab[i].(name := x, hash := h);
      ProjectSet(old(slab[..]), i, slab[i]);
      assert slab[..] == old(slab[..])[i := slab[i]];
    }

    lemma Slot(i: nat)
      requires i < slab.Length
      ensures V().name[i] == slab[i].name && V().node[i] == slab[i].node && V().hash[i] == slab[i].hash
      ensures V().parent[i] == slab[i].parent && V().children[i] == slab[i].children
      ensures V().sib[i] == slab[i].sibNext && V().slabNext[i] == slab[i].slabNext
    {
    }

    // The LRU list and the free list

    lemma LruAt(k: nat)
      requires LruLinked(V().prev, V().next, lruHead, lruTail, lru) && k < |lru|
      ensures lru[k] < slab.Length && slab[lru[k]].lruPrev == At(lru, k - 1) && slab[lru[k]].lruNext == At(lru, k + 1)
      ensures lruTail == At(lru, |lru| - 1) && lruHead == At(lru, 0)
    {
      assert Leads(V().next, lru, k, 1) && Leads(V().prev, lru, k, -1);
    }

    method LruRemove(d: nat, ghost k: nat)
      requires LruLinked(V().prev, V().next, lruHead, lruTail, lru) && k < |lru| && lru[k] == d
      modifies slab, `lruHead, `lruTail, `lru
      ensures LruLinked(V().prev, V().next, lruHead, lruTail, lru) && lru == RemoveAt(old(lru), k)
      ensures V() == old(V()).(prev := V().prev, next := V().next)
    {
      hide LruLinked;
      hide V;
      hide RemoveAt;
      hide Skips;
      LruAt(k);
      if k > 0 {
        LruAt(k - 1);
      }
      if k + 1 < |lru| {
        LruAt(k + 1);
      }
      ghost var v := V();
      UnlinkSkips(v.next, lru, k, k - 1, k + 1);
      UnlinkSkips(v.prev, lru, k, k + 1, k - 1);
      var p, n := slab[d].lruPrev, slab[d].lruNext;
      if p != NONE {
        SetNext(p, n);
      } else {
        lruHead := n;
      }
      if n != NONE {
        SetPrev(n, p);
      } else {
        lruTail := p;
      }
      SetPrev(d, NONE);
      SetNext(d, NONE);
      assert V().next == Unlink(v.next, lru, k, k - 1, k + 1);
      assert V().prev == Unlink(v.prev, lru, k, k + 1, k - 1);
      LruRemoved(v.prev, v.next, old(lruHead), old(lruTail), lru, k, V().prev, V().next, lruHead, lruTail);
      lru := RemoveAt(lru, k);
    }

    /** `d` becomes the most recently used. */
    method LruAppend(d: nat)
      requires LruLinked(V().prev, V().next, lruHead, lruTail, lru) && d < slab.Length && d !in lru
      modifies slab, `lruHead, `lruTail, `lru
      ensures LruLinked(V().prev, V().next, lruHead, lruTail, lru) && lru == old(lru) + [d]
      ensures V() == old(V()).(prev := V().prev, next := V().next)
    {
      ghost var v := V();
      if lru != [] {
        LruAt(|lru| - 1);
      }
      hide LruLinked;
      hide V;
      SetPrev(d, lruTail);
      SetNext(d, NONE);
      if lruTail != NONE {
        SetNext(lruTail, d);
      } else {
        lruHead := d;
      }
      lruTail := d;
      LruAppended(v.prev, v.next, old(lruHead), old(lruTail), lru, d, V().prev, V().next);
      lru := lru + [d];
    }

    method FreeSlot(d: nat)
      requires Chain(V().slabNext, freeList, free) && d < slab.Length && d !in free
      modifies slab, `freeList, `free
      ensures Chain(V().slabNext, freeList, free) && free == [d] + old(free)
      ensures V() == old(V()).(slabNext := V().slabNext)
    {
      hide V;
      hide Chain;
      ChainPush(V().slabNext, freeList, free, d);
      SetSlabNext(d, freeList);
      freeList := d;
      free := [d] + free;
    }

    /** An entry goes from the LRU list to the free list. */
    method Release(d: nat, ghost k: nat)
      requires ListsOk() && k < |lru| && lru[k] == d
      modifies slab, `lruHead, `lruTail, `freeList, `entryCount, `lru, `free
      ensures ListsOk() && lru == RemoveAt(old(lru), k) && free == [d] + old(free)
      ensures Removed(old(V()), V(), {d})
    {
      hide V;
      hide Chain;
      hide LruLinked;
      hide RemoveAt;
      hide Split;
      SplitMove(slab.Length, free, lru, k);
      RemoveAtLength(lru, k);
      SplitRange(slab.Length, free, lru, k);
      SetChildren(d, NONE);
      LruRemove(d, k);
      SetNode(d, 0);
      entryCount := entryCount - 1;
      FreeSlot(d);
    }

    lemma SplitRange(n: nat, free: seq<nat>, lru: seq<nat>, k: nat)
      requires Split(n, free, lru) && k < |lru|
      ensures lru[k] < n
    {
      assert lru[k] in lru;
    }

    /** What an entry on the LRU list relies on. */
    lemma Parts(d: nat)
      requires ListsOk() && d in lru
      ensures d < slab.Length && |lru| > 0 && Distinct(lru) && Split(slab.Length, free, lru)
      ensures V().children[d] == slab[d].children && V().node[d] == slab[d].node && V().sib[d] == slab[d].sibNext
    {
      Slot(d);
    }

    lemma NotAtEnd(list: seq<nat>, k: nat)
      requires At(list, k) != NONE
      ensures k < |list| && At(list, k) == list[k]
    {
    }

    lemma AtEnd(list: seq<nat>, k: nat)
      requires k <= |list| && At(list, k) == NONE
      ensures k == |list|
    {
    }

    /** The whole subtree of `d` is freed, children first; the nodes it held are returned. */
    method CollectAndFree(d: nat, cap: nat) returns (out: seq<nat>)
      requires ListsOk() && |depth| == slab.Length && SubtreeOk(V(), lru, kids, depth, d) && |lru| <= cap
      modifies slab, `lruHead, `lruTail, `freeList, `entryCount, `lru, `free
      ensures ListsOk()
      ensures lru == Minus(old(lru), Subtree(old(V().parent), depth, old(lru), d))
      ensures Removed(old(V()), V(), Subtree(old(V().parent), depth, old(lru), d))
      ensures free != [] && free[0] == d
      ensures |out| + |lru| == |old(lru)|
      ensures Held(V().node, lru) + multiset(out) == Held(old(V().node), old(lru))
      decreases Tallest(depth) - if d < |depth| then depth[d] else 0
    {
      hide *;
      ghost var v0, lru0 := V(), lru;
      CollectNone(v0, lru0, kids, depth, d);
      SubtreeInRange(v0, lru0, kids, depth, d);
      Parts(d);
      out := [];
      var child := slab[d].children;
      ghost var k := 0;
      while child != NONE
        invariant d in kids && k <= |kids[d]| && child == At(kids[d], k)
        invariant ListsOk() && Collected(v0, lru0, kids, depth, d, k, V(), lru)
        invariant |out| + |lru| == |lru0|
        invariant Held(V().node, lru) + multiset(out) == Held(v0.node, lru0)
        decreases |kids[d]| - k
      {
        NotAtEnd(kids[d], k);
        CollectReady(v0, lru0, kids, depth, d, k, V(), lru);
        SubtreeInRange(V(), lru, kids, depth, child);
        Parts(child);
        var next := slab[child].sibNext;
        if |out| < cap {
          ghost var v, live := V(), lru;
          var more := CollectAndFree(child, cap - |out|);
          CollectStep(v0, lru0, kids, depth, d, k, v, live, V(), lru);
          out := out + more;
        }
        child := next;
        k := k + 1;
      }
      AtEnd(kids[d], k);
      CollectLast(v0, lru0, kids, depth, d, V(), lru);
      ghost var j :| 0 <= j < |lru| && lru[j] == d;
      ghost var v, live, was := V(), lru, free;
      Parts(d);
      var node := slab[d].node;
      Release(d, j);
      CollectDone(v0, lru0, kids, depth, d, v, live, V(), j);
      HeldReleased(v, V(), slab.Length, was, live, j);
      RemoveAtLength(live, j);
      if |out| < cap {
        out := out + [node];
      }
    }

    // Sibling lists

    ghost predicate Linked()
      reads `rootChildren, `lru, `kids, `depth, slab
    {
      |depth| == slab.Length && TreeOk(V(), rootChildren, lru, kids, depth)
    }

    method HeadOf(p: int) returns (h: int)
      requires NONE <= p < slab.Length
      ensures h == Head(V(), rootChildren, p)
    {
      if p != NONE {
        Slot(p);
        h := slab[p].children;
      } else {
        h := rootChildren;
      }
    }

    method SetHead(p: int, x: int)
      requires NONE <= p < slab.Length
      modifies slab, `rootChildren
      ensures p == NONE ==> V() == old(V()) && rootChildren == x
      ensures p != NONE ==> V() == old(V()).(children := old(V()).children[p := x]) && rootChildren == old(rootChildren)
    {
      if p != NONE {
        SetChildren(p, x);
      } else {
        rootChildren := x;
      }
    }

    /** The sibling list of a parent. */
    lemma ListOf(p: int)
      requires Linked() && (p == NONE || (p >= 0 && p in lru))
      ensures NONE <= p < slab.Length && p in kids && Head(V(), rootChildren, p) == At(kids[p], 0)
      ensures Distinct(kids[p]) && ListOk(V(), rootChildren, p, kids[p])
      ensures forall c :: c in kids[p] ==> c in lru && c < slab.Length && V().parent[c] == p
      ensures forall c :: c in lru && c < slab.Length && V().parent[c] == p ==> c in kids[p]
    {
      assert ListOk(V(), rootChildren, p, kids[p]);
      forall c | c in lru && c < slab.Length && V().parent[c] == p
        ensures c in kids[p]
      {
        assert Hangs(V(), lru, kids, depth, c);
      }
    }

    lemma Sibling(p: int, k: nat)
      requires Linked() && p in kids && k < |kids[p]|
      ensures kids[p][k] < slab.Length && slab[kids[p][k]].sibNext == At(kids[p], k + 1)
      ensures EntryOk(V(), kids[p][k])
    {
      assert ListOk(V(), rootChildren, p, kids[p]);
      assert Leads(V().sib, kids[p], k, 1);
      assert kids[p][k] in kids[p];
      Slot(kids[p][k]);
    }

    /** The child with a name, if there is one. */
    method FindChild(p: int, name: Name) returns (r: int)
      requires Linked() && (p == NONE || (p >= 0 && p in lru))
      ensures r == NONE ==> forall c :: c in lru && c < slab.Length && V().parent[c] == p ==> V().name[c] != name
      ensures r != NONE ==> 0 <= r < slab.Length && r in lru && V().parent[r] == p && V().name[r] == name
    {
      ListOf(p);
      hide V;
      hide TreeOk;
      hide ListOk;
      hide Fnv;
      var hash := HashName(name);
      r := HeadOf(p);
      ghost var k := 0;
      while r != NONE
        invariant k <= |kids[p]| && r == At(kids[p], k)
        invariant forall i :: 0 <= i < k ==> kids[p][i] < slab.Length && V().name[kids[p][i]] != name
        decreases |kids[p]| - k
      {
        Sibling(p, k);
        Slot(r);
        assert r in kids[p];
        if slab[r].hash == hash && slab[r].name == name {
          return;
        }
        r := slab[r].sibNext;
        k := k + 1;
      }
    }

    /** The sibling whose link leads to `d`; none if it is the head that does. */
    method FindLinkTo(p: int, d: nat, ghost k: nat) returns (prev: int)
      requires Linked() && (p == NONE || (p >= 0 && p in lru)) && p in kids && k < |kids[p]| && kids[p][k] == d
      ensures prev == At(kids[p], k - 1)
    {
      ListOf(p);
      hide V;
      hide TreeOk;
      hide ListOk;
      hide Distinct;
      prev := NONE;
      var cur := HeadOf(p);
      ghost var i := 0;
      while cur != NONE && cur != d
        invariant i <= k && prev == At(kids[p], i - 1) && cur == At(kids[p], i)
        decreases k - i
      {
        Sibling(p, i);
        prev := cur;
        cur := slab[cur].sibNext;
        i := i + 1;
      }
      SameIndex(kids[p], i, k);
    }

    method UnlinkFromParent(d: nat) returns (ghost k: nat)
      requires Linked() && d in lru
      modifies slab, `rootChildren
      ensures d < slab.Length && old(V()).parent[d] in kids
      ensures Unlinked(old(V()), old(rootChildren), V(), rootChildren, kids[old(V()).parent[d]], d, k)
    {
      hide V;
      hide Linked;
      hide ListOk;
      hide Distinct;
      EntryAt(d);
      ghost var v := V();
      var p := slab[d].parent;
      ListOf(p);
      k := Position(kids[p], d);
      Sibling(p, k);
      if k > 0 {
        Sibling(p, k - 1);
      }
      var prev := FindLinkTo(p, d, k);
      var next := slab[d].sibNext;
      if prev != NONE {
        SetSibling(prev, next);
      } else {
        SetHead(p, next);
      }
      SetSibling(d, NONE);
    }

    lemma EntryAt(d: nat)
      requires Linked() && d in lru
      ensures d < slab.Length && slab[d].parent == V().parent[d]
      ensures (slab[d].parent == NONE || (slab[d].parent >= 0 && slab[d].parent in lru))
      ensures slab[d].parent in kids && d in kids[slab[d].parent]
    {
      assert Hangs(V(), lru, kids, depth, d);
      Slot(d);
    }

    lemma Position(list: seq<nat>, d: nat) returns (k: nat)
      requires d in list
      ensures k < |list| && list[k] == d
    {
      k :| 0 <= k < |list| && list[k] == d;
    }

    // The whole state

    ghost predicate FreeEmpty()
      reads `free, slab
    {
      forall x :: x in free && x < slab.Length ==> V().node[x] == 0
    }

    ghost predicate Valid()
      reads `rootChildren, `lruHead, `lruTail, `freeList, `entryCount, `refs, `lru, `free, `kids, `depth, `callers, slab
    {
      && slab.Length >= 1 && ListsOk() && Linked() && FreeEmpty()
      && refs == Held(V().node, lru) + callers
    }

    /** The references of removed entries are given back one by one. */
    method UnrefAll(out: seq<nat>)
      requires multiset(out) <= refs
      modifies `refs
      ensures refs == old(refs) - multiset(out)
    {
      for i := 0 to |out|
        invariant refs == old(refs) - multiset(out[..i])
      {
        assert out[..i + 1] == out[..i] + [out[i]];
        refs := refs - multiset{out[i]};
      }
      assert out[..|out|] == out;
    }

    lemma FreedAreEmpty(v: Fields, v': Fields, free: seq<nat>, free': seq<nat>, lru: seq<nat>, gone: set<nat>)
      requires Split(slab.Length, free, lru) && Split(slab.Length, free', Minus(lru, gone))
      requires Wide(v, slab.Length) && Wide(v', slab.Length) && Removed(v, v', gone)
      requires forall x :: x in free && x < slab.Length ==> v.node[x] == 0
      ensures forall x :: x in free' && x < slab.Length ==> v'.node[x] == 0
    {
      forall x | x in free' && x < slab.Length
        ensures v'.node[x] == 0
      {
        MinusMember(lru, gone, x);
        SplitCovers(slab.Length, free, lru, x);
      }
    }

    lemma ListsSplit()
      requires ListsOk()
      ensures Split(slab.Length, free, lru) && |lru| <= slab.Length
    {
    }

    /** Taking an entry out of its sibling list leaves the other lists and the nodes alone. */
    twostate lemma ListsAfterUnlink()
      requires old(ListsOk()) && V() == old(V()).(sib := V().sib, children := V().children)
      requires unchanged(`lruHead, `lruTail, `freeList, `entryCount, `lru, `free)
      ensures ListsOk()
    {
    }

    lemma ValidParts()
      requires Valid()
      ensures slab.Length >= 1 && ListsOk() && Linked() && FreeEmpty() && refs == Held(V().node, lru) + callers
      ensures |depth| == slab.Length && TreeOk(V(), rootChildren, lru, kids, depth)
      ensures forall x :: x in free && x < slab.Length ==> V().node[x] == 0
      ensures Split(slab.Length, free, lru) && |lru| <= slab.Length && forall x :: x in lru ==> x < slab.Length
    {
    }

    /** The tree and the lists of the state after the removal of a subtree. */
    method Cut(d: nat) returns (out: seq<nat>)
      requires ListsOk() && Linked() && FreeEmpty() && d in lru
      modifies slab, `rootChildren, `lruHead, `lruTail, `freeList, `entryCount, `lru, `free, `kids
      ensures ListsOk() && Linked() && FreeEmpty()
      ensures lru == Minus(old(lru), Subtree(old(V().parent), depth, old(lru), d))
      ensures Kept(old(V()), V(), lru)
      ensures free != [] && free[0] == d
      ensures Held(V().node, lru) + multiset(out) == Held(old(V().node), old(lru))
    {
      hide *;
      CutParts(d);
      ghost var v, root, live, was := V(), rootChildren, lru, free;
      ghost var gone := Subtree(v.parent, depth, live, d);
      ghost var k := UnlinkFromParent(d);
      ghost var v1, root' := V(), rootChildren;
      UnlinkedFields(v, root, v1, root', kids[v.parent[d]], d, k);
      ListsAfterUnlink();
      UnlinkedSubtree(v, root, live, kids, depth, v1, root', d, k);
      out := CollectAndFree(d, slab.Length);
      TreePruned(v, root, live, kids, depth, v1, root', V(), d, k);
      kids := Pruned(kids, v.parent[d], k, gone);
      ListsSplit();
      FreedAreEmpty(v1, V(), was, free, live, gone);
      RemovedKept(v1, V(), live, gone);
      SameThenKept(v, v1, V(), lru);
      CutWhole();
    }

    lemma CutParts(d: nat)
      requires ListsOk() && Linked() && FreeEmpty() && d in lru
      ensures Split(slab.Length, free, lru) && |lru| <= slab.Length && d < slab.Length == |depth|
      ensures TreeOk(V(), rootChildren, lru, kids, depth) && Wide(V(), |depth|)
      ensures forall x :: x in free && x < slab.Length ==> V().node[x] == 0
    {
    }

    lemma CutWhole()
      requires |depth| == slab.Length && TreeOk(V(), rootChildren, lru, kids, depth)
      requires forall x :: x in free && x < slab.Length ==> V().node[x] == 0
      ensures Linked() && FreeEmpty()
    {
    }

    /** An entry and everything below it go; their nodes are given back. */
    method DropSubtree(d: nat)
      requires Valid() && d in lru
      modifies this, slab
      ensures Valid() && callers == old(callers) && hitCount == old(hitCount) && missCount == old(missCount)
      ensures lru == Minus(old(lru), Subtree(old(V().parent), depth, old(lru), d))
      ensures Kept(old(V()), V(), lru) && depth == old(depth)
      ensures free != [] && free[0] == d
    {
      hide *;
      ValidParts();
      var out := Cut(d);
      GiveBack(Held(V().node, lru), multiset(out), callers);
      UnrefAll(out);
      ValidWhole();
    }

    lemma GiveBack(held: multiset<nat>, out: multiset<nat>, callers: multiset<nat>)
      ensures held + out + callers - out == held + callers && out <= held + out + callers
    {
    }

    lemma ValidWhole()
      requires slab.Length >= 1 && ListsOk() && Linked() && FreeEmpty() && refs == Held(V().node, lru) + callers
      ensures Valid()
    {
    }

    // Taking a slot

    /** Slot `d` has been taken off the free list and is on no list. */
    ghost predicate Taken(d: nat)
      reads `lruHead, `lruTail, `freeList, `entryCount, `lru, `free, slab
    {
      && LruLinked(V().prev, V().next, lruHead, lruTail, lru)
      && Chain(V().slabNext, freeList, free)
      && d < slab.Length && Split(slab.Length, [d] + free, lru)
      && entryCount == |lru|
    }

    method PopFree() returns (d: nat)
      requires ListsOk() && Linked() && FreeEmpty() && free != []
      modifies slab, `freeList, `free
      ensures Linked() && FreeEmpty() && Taken(d) && d == old(free)[0] && free == old(free)[1..]
      ensures V() == old(V()).(slabNext := V().slabNext)
    {
      hide V;
      hide Chain;
      hide LruLinked;
      FreeHead();
      hide TreeOk;
      ghost var v := V();
      ChainPop(V().slabNext, freeList, free);
      d := freeList;
      freeList := slab[d].slabNext;
      SetSlabNext(d, NONE);
      assert [d] + free[1..] == free;
      free := free[1..];
      TreeFrame(v, V(), rootChildren, lru, lru, kids, depth);
    }

    lemma FreeHead()
      requires ListsOk() && free != []
      ensures freeList == free[0] < slab.Length && slab[free[0]].slabNext == V().slabNext[free[0]]
    {
      assert free[0] in free;
      Slot(free[0]);
    }

    /** The least recently used entry goes, with all below it, and its slot is handed back. */
    method EvictLru() returns (slot: int)
      requires Valid()
      modifies this, slab
      ensures callers == old(callers) && hitCount == old(hitCount) && missCount == old(missCount) && depth == old(depth)
      ensures old(lru) == [] ==> slot == NONE && Valid() && lru == []
      ensures old(lru) != [] ==> slot == old(lru)[0] && Taken(slot) && Linked() && FreeEmpty()
      ensures old(lru) != [] ==> lru == Minus(old(lru), Subtree(old(V().parent), depth, old(lru), slot))
      ensures old(lru) != [] ==> Kept(old(V()), V(), lru) && refs == Held(V().node, lru) + callers
    {
      hide *;
      ValidParts();
      VictimIsFirst();
      slot := lruHead;
      if slot == NONE {
        return;
      }
      DropSubtree(slot);
      ValidParts();
      ghost var v := V();
      slot := PopFree();
      KeptThenSame(old(V()), v, V(), lru);
    }

    lemma VictimIsFirst()
      requires ListsOk()
      ensures lruHead == NONE <==> lru == []
      ensures lru != [] ==> lruHead == lru[0] && lru[0] in lru
    {
    }

    // The operations

    /** An entry becomes the most recently used. */
    method Promote(d: nat, ghost k: nat)
      requires ListsOk() && Linked() && FreeEmpty() && k < |lru| && lru[k] == d
      modifies slab, `lruHead, `lruTail, `lru
      ensures ListsOk() && Linked() && FreeEmpty() && lru == RemoveAt(old(lru), k) + [d]
      ensures V() == old(V()).(prev := V().prev, next := V().next)
      ensures Held(V().node, lru) == Held(old(V().node), old(lru))
    {
      hide V;
      hide Chain;
      hide LruLinked;
      hide TreeOk;
      hide Split;
      hide Held;
      ghost var v, list := V(), lru;
      SplitRotate(slab.Length, free, lru, k);
      SplitRange(slab.Length, free, lru, k);
      HeldRotate(v.node, list, k);
      LruAt(k);
      if d == lruTail {
        LastIsTail(k);
        return;
      }
      RemovedNotThere(lru, k);
      LruRemove(d, k);
      LruAppend(d);
      TreeFrame(v, V(), rootChildren, list, lru, kids, depth);
    }

    lemma LastIsTail(k: nat)
      requires ListsOk() && k < |lru| && lru[k] == lruTail
      ensures RemoveAt(lru, k) + [lru[k]] == lru
    {
      SameIndex(lru, k, |lru| - 1);
    }

    lemma RemovedNotThere(list: seq<nat>, k: nat)
      requires ListsOk() && list == lru && k < |list|
      ensures list[k] !in RemoveAt(list, k)
    {
      RemoveAtMember(list, k, list[k]);
    }

    /** The child of a name: its node for the caller, with a reference of its own. */
    method LookupComponent(p: int, name: Name) returns (node: nat, d: int)
      requires Valid() && (p == NONE || (p >= 0 && p in lru))
      modifies this, slab
      ensures Valid() && kids == old(kids) && depth == old(depth) && free == old(free)
      ensures d == NONE ==> node == 0 && V() == old(V()) && lru == old(lru)
      ensures d == NONE ==> callers == old(callers) && refs == old(refs)
      ensures d == NONE && name != [] ==>
                forall c :: c in lru && c < slab.Length && V().parent[c] == p ==> V().name[c] != name
      ensures d != NONE ==>
                && 0 <= d < slab.Length && d in old(lru) && V().parent[d] == p && V().name[d] == name
                && node == V().node[d] && node != 0
                && lru == Minus(old(lru), {d as nat}) + [d] && callers == old(callers) + multiset{node}
      ensures Kept(old(V()), V(), old(lru))
      ensures name != [] ==> if d == NONE then missCount == old(missCount) + 1 && hitCount == old(hitCount)
                             else hitCount == old(hitCount) + 1 && missCount == old(missCount)
    {
      hide *;
      ValidParts();
      KeptSelf(V(), lru);
      if name == [] {
        return 0, NONE;
      }
      d := FindChild(p, name);
      if d == NONE {
        missCount := missCount + 1;
        return 0, NONE;
      }
      hitCount := hitCount + 1;
      ghost var v := V();
      node := Hit(d);
      KeptThenSame(v, v, V(), old(lru));
    }

    method Hit(d: nat) returns (node: nat)
      requires Valid() && d in lru
      modifies slab, `lruHead, `lruTail, `lru, `refs, `callers
      ensures Valid() && lru == Minus(old(lru), {d}) + [d] && callers == old(callers) + multiset{node}
      ensures d < slab.Length && node == V().node[d] && node != 0
      ensures V() == old(V()).(prev := V().prev, next := V().next)
    {
      hide *;
      ValidParts();
      ghost var k := Position(lru, d);
      Promoted(k);
      Promote(d, k);
      Slot(d);
      node := slab[d].node;
      refs := refs + multiset{node};
      callers := callers + multiset{node};
      ValidWhole();
    }

    lemma Promoted(k: nat)
      requires Valid() && k < |lru|
      ensures Minus(lru, {lru[k]}) == RemoveAt(lru, k)
      ensures lru[k] < slab.Length && V().node[lru[k]] != 0
    {
      MinusOne(lru, k);
      assert lru[k] in lru;
      assert EntryOk(V(), lru[k]);
    }

    /** A slot for a new entry, from the free list or by eviction. */
    method Acquire() returns (d: nat, ghost gone: set<nat>)
      requires Valid()
      modifies this, slab
      ensures Taken(d) && Linked() && FreeEmpty() && refs == Held(V().node, lru) + callers
      ensures callers == old(callers) && depth == old(depth) && hitCount == old(hitCount) && missCount == old(missCount)
      ensures lru == Minus(old(lru), gone) && Kept(old(V()), V(), lru)
      ensures old(free) != [] ==> gone == {}
      ensures old(free) == [] ==>
                old(lru) != [] && d == old(lru)[0] && gone == Subtree(old(V().parent), depth, old(lru), d)
    {
      hide *;
      ValidParts();
      FreeListEmpty();
      ghost var v := V();
      if freeList != NONE {
        KeptSelf(v, lru);
        NothingGone(lru);
        d := PopFree();
        KeptThenSame(v, v, V(), lru);
        gone := {};
      } else {
        gone := Subtree(v.parent, depth, lru, lru[0]);
        var slot := EvictLru();
        d := slot;
      }
    }

    lemma FreeListEmpty()
      requires Valid()
      ensures (freeList == NONE <==> free == []) && (free == [] ==> lru != [])
    {
    }

    lemma NothingGone(list: seq<nat>)
      ensures Minus(list, {}) == list
    {
      MinusNone(list, {});
    }

    /** The slot becomes an entry below `p`, the most recently used one, and holds a reference to the node. */
    method Fill(d: nat, p: int, name: Name, node: nat)
      requires Taken(d) && NONE <= p < slab.Length
      modifies slab, `rootChildren, `lruHead, `lruTail, `entryCount, `refs, `lru
      ensures ListsOk() && lru == old(lru) + [d] && refs == old(refs) + multiset{node}
      ensures V().parent[d] == p && V().name[d] == name && V().node[d] == node
      ensures p != d ==> Filled(old(V()), old(rootChildren), V(), rootChildren, d, p, name, node)
      ensures V().node == old(V().node)[d := node] && d !in old(lru) && d !in free
      ensures Kept(old(V()), V(), old(lru))
    {
      hide V;
      hide Chain;
      hide LruLinked;
      hide Split;
      hide Fnv;
      SplitTake(slab.Length, free, lru, d);
      SetName(d, name);
      SetNode(d, node);
      SetParent(d, p);
      SetChildren(d, NONE);
      refs := refs + multiset{node};
      var head := HeadOf(p);
      SetSibling(d, head);
      SetHead(p, d);
      LruAppend(d);
      entryCount := entryCount + 1;
    }

    /** Making room for a new entry does not remove the entry's own parent. */
    ghost predicate Safe(p: int)
      reads `lru, `free, `depth, slab
    {
      free != [] || lru == [] || p < 0 || !Below(V().parent, depth, p, lru[0])
    }

    lemma ParentStays(v: Fields, depth: seq<nat>, free: seq<nat>, live: seq<nat>, gone: set<nat>, p: int)
      requires p >= 0 && p in live && (free != [] ==> gone == {})
      requires free == [] ==> live != [] && gone == Subtree(v.parent, depth, live, live[0])
      ensures p in Minus(live, gone) <==> free != [] || !Below(v.parent, depth, p, live[0])
    {
      MinusMember(live, gone, p);
    }

    /** An entry whose parent is not an entry, or is the entry itself, is not in the tree. */
    lemma NotInTree(r: nat)
      requires r in lru && r < slab.Length && V().parent[r] >= 0 && (V().parent[r] !in lru || V().parent[r] == r)
      ensures !Linked()
    {
      assert Linked() ==> Hangs(V(), lru, kids, depth, r);
    }

    /** The new entry grafted into the tree. */
    ghost method Graft(v: Fields, root: int, live: seq<nat>, d: nat, p: int, name: Name, node: nat)
      requires |depth| == slab.Length && TreeOk(v, root, live, kids, depth) && d < |depth| && d !in live && p in kids
      requires Wide(v, |depth|) && Filled(v, root, V(), rootChildren, d, p, name, node) && node != 0
      requires 0 < |name| < MAX_NAME
      requires Absent(v, live, p, name) && lru == live + [d]
      modifies `kids, `depth
      ensures Linked()
    {
      hide TreeOk;
      hide V;
      hide Filled;
      TreeGrafted(v, root, live, kids, depth, V(), rootChildren, d, p, name, node);
      kids, depth := Grafted(kids, d, p), Deeper(depth, d, p);
    }

    lemma KidsOf(p: int)
      requires Linked()
      ensures p in kids <==> p == NONE || (p >= 0 && p in lru)
      ensures |depth| == slab.Length && TreeOk(V(), rootChildren, lru, kids, depth) && Wide(V(), |depth|)
    {
    }

    /** A taken slot becomes a new entry; it is in the tree just when its parent is. */
    method Attach(d: nat, p: int, name: Name, node: nat)
      requires Taken(d) && Linked() && FreeEmpty() && refs == Held(V().node, lru) + callers && NONE <= p < slab.Length
      requires 0 < |name| < MAX_NAME && node != 0 && Absent(V(), lru, p, name)
      modifies slab, `rootChildren, `lruHead, `lruTail, `entryCount, `refs, `lru, `kids, `depth
      ensures Valid() <==> old(p == NONE || (p >= 0 && p in lru))
      ensures d < slab.Length && V().parent[d] == p && V().name[d] == name && V().node[d] == node
      ensures lru == old(lru) + [d] && Kept(old(V()), V(), old(lru))
    {
      hide *;
      ghost var v, live, root := V(), lru, rootChildren;
      NoneIs();
      KidsOf(p);
      TakenApart(d);
      EmptyNow();
      Fill(d, p, name, node);
      LastOf(live, d);
      if p in kids {
        Graft(v, root, live, d, p, name, node);
        FilledHeld(v.node, live, d, node);
        StillEmpty(v.node, d, node);
        ValidWhole();
      } else {
        NotInTree(d);
        ValidNeedsTree();
      }
    }

    lemma NoneIs()
      ensures NONE == -1
    {
    }

    lemma LastOf(list: seq<nat>, d: nat)
      ensures d in list + [d]
      ensures forall x :: x in list + [d] <==> x in list || x == d
    {
    }

    method InsertNew(p: int, name: Name, node: nat) returns (d: nat, ghost gone: set<nat>)
      requires Valid() && (p == NONE || (p >= 0 && p in lru))
      requires 0 < |name| < MAX_NAME && node != 0 && Absent(V(), lru, p, name)
      modifies this, slab
      ensures Valid() <==> old(Safe(p))
      ensures d < slab.Length && V().parent[d] == p && V().name[d] == name && V().node[d] == node
      ensures lru == Minus(old(lru), gone) + [d] && Kept(old(V()), V(), Minus(old(lru), gone))
      ensures callers == old(callers) && hitCount == old(hitCount) && missCount == old(missCount)
      ensures old(free) != [] ==> gone == {}
      ensures old(free) == [] ==>
                old(lru) != [] && d == old(lru)[0] && gone == Subtree(old(V().parent), old(depth), old(lru), d)
    {
      hide *;
      NoneIs();
      ValidParts();
      SafeMeans(p);
      ghost var v0, live0, free0 := V(), lru, free;
      d, gone := Acquire();
      ghost var v := V();
      WideNow();
      AbsentKept(v0, v, slab.Length, live0, gone, p, name);
      if p >= 0 {
        ParentStays(v0, depth, free0, live0, gone, p);
      }
      Attach(d, p, name, node);
      KeptThenKept(v0, v, V(), Minus(live0, gone));
    }

    lemma SafeMeans(p: int)
      requires Valid()
      ensures Safe(p) <==> free != [] || lru == [] || p < 0 || !Below(V().parent, depth, p, lru[0])
    {
    }

    lemma WideNow()
      ensures Wide(V(), slab.Length) && |V().node| == slab.Length
    {
    }

    lemma TakenApart(d: nat)
      requires Taken(d)
      ensures d < slab.Length && d !in lru
    {
      SplitTake(slab.Length, free, lru, d);
    }

    lemma KeptThenKept(v: Fields, v1: Fields, v2: Fields, list: seq<nat>)
      requires Kept(v, v1, list) && Kept(v1, v2, list)
      ensures Kept(v, v2, list)
    {
    }

    lemma FilledHeld(nodes: seq<nat>, list: seq<nat>, d: nat, node: nat)
      requires d < |nodes| && d !in list
      ensures Held(nodes[d := node], list + [d]) == Held(nodes, list) + multiset{node}
    {
      HeldFrame(nodes, nodes[d := node], list);
      HeldAppend(nodes[d := node], list, d);
    }

    lemma StillEmpty(nodes: seq<nat>, d: nat, node: nat)
      requires |nodes| == slab.Length && d < |nodes| && V().node == nodes[d := node] && d !in free
      requires forall x :: x in free && x < slab.Length ==> nodes[x] == 0
      ensures FreeEmpty()
    {
    }

    lemma ValidNeedsTree()
      ensures Valid() ==> Linked()
    {
    }

    lemma EmptyNow()
      requires FreeEmpty()
      ensures |V().node| == slab.Length && forall x :: x in free && x < slab.Length ==> V().node[x] == 0
    {
    }

    /** An entry gets another node; the reference to the old one is given back. */
    method ReplaceNode(d: nat, node: nat)
      requires Valid() && d in lru && node != 0
      modifies slab, `lruHead, `lruTail, `lru, `refs
      ensures Valid() && lru == Minus(old(lru), {d}) + [d]
      ensures d < slab.Length && V() == old(V()).(node := old(V().node)[d := node], prev := V().prev, next := V().next)
    {
      hide *;
      ValidParts();
      ghost var k := Position(lru, d);
      Promoted(k);
      Slot(d);
      ghost var v, list := V(), lru;
      WideNow();
      ReplacedHeld(v.node, k, node, callers);
      TreeNode(v, rootChildren, lru, kids, depth, d, node);
      var was := slab[d].node;
      SetNode(d, node);
      ListsAfterNode();
      StillLinked(v, d, node);
      refs := refs + multiset{node};
      Promote(d, k);
      refs := refs - multiset{was};
      ValidWhole();
    }

    lemma ReplacedHeld(nodes: seq<nat>, k: nat, node: nat, others: multiset<nat>)
      requires ListsOk() && k < |lru| && lru[k] < |nodes|
      ensures Held(nodes, lru) + others + multiset{node} - multiset{nodes[lru[k]]} ==
              Held(nodes[lru[k] := node], lru) + others
    {
      HeldReplace(nodes, lru, k, node);
      Exchange(Held(nodes, lru), Held(nodes[lru[k] := node], lru), nodes[lru[k]], node, others);
    }

    lemma Exchange(h: multiset<nat>, h': multiset<nat>, was: nat, now: nat, others: multiset<nat>)
      requires h' + multiset{was} == h + multiset{now}
      ensures h + others + multiset{now} - multiset{was} == h' + others
    {
      assert h + others + multiset{now} == (h + multiset{now}) + others;
    }

    twostate lemma ListsAfterNode()
      requires old(ListsOk()) && V() == old(V()).(node := V().node)
      requires unchanged(`lruHead, `lruTail, `freeList, `entryCount, `lru, `free)
      ensures ListsOk()
    {
    }

    lemma StillLinked(v: Fields, d: nat, node: nat)
      requires ListsOk() && d in lru && Wide(v, slab.Length) && |depth| == slab.Length
      requires d < slab.Length && V() == v.(node := v.node[d := node])
      requires TreeOk(V(), rootChildren, lru, kids, depth)
      requires forall x :: x in free && x < slab.Length ==> v.node[x] == 0
      ensures Linked() && FreeEmpty()
    {
    }

    /** insert_component: the child of a name gets the node, in its entry or in a new one. */
    method InsertComponent(p: int, name: Name, node: nat) returns (r: int, ghost gone: set<nat>)
      requires Valid() && (p == NONE || (p >= 0 && p in lru))
      modifies this, slab
      ensures callers == old(callers) && hitCount == old(hitCount) && missCount == old(missCount)
      ensures !(0 < |name| < MAX_NAME && node != 0) ==> r == NONE && Valid() && V() == old(V()) && lru == old(lru)
      ensures 0 < |name| < MAX_NAME && node != 0 ==>
                && 0 <= r < slab.Length && V().parent[r] == p && V().name[r] == name && V().node[r] == node
                && lru == Minus(old(lru), gone) + [r] && Kept(old(V()), V(), Minus(old(lru), gone))
      ensures 0 < |name| < MAX_NAME && node != 0 && !old(Absent(V(), lru, p, name)) ==> Valid() && gone == {r as nat}
      ensures 0 < |name| < MAX_NAME && node != 0 && old(Absent(V(), lru, p, name)) ==>
                && (Valid() <==> old(Safe(p)))
                && (old(free) != [] ==> gone == {})
                && (old(free) == [] ==>
                      && old(lru) != [] && r == old(lru)[0]
                      && gone == Subtree(old(V().parent), old(depth), old(lru), old(lru)[0]))
    {
      hide *;
      gone := {};
      if name == [] || node == 0 {
        return NONE, gone;
      }
      if |name| >= MAX_NAME {
        return NONE, gone;
      }
      NoneIs();
      ValidParts();
      r := FindChild(p, name);
      if r != NONE {
        PresentChild(r);
        ghost var v := V();
        WideNow();
        ReplaceNode(r, node);
        gone := {r as nat};
        KeptBut(v, V(), old(lru), r);
      } else {
        AbsentChild(p, name);
        var d;
        d, gone := InsertNew(p, name, node);
        r := d;
      }
    }

    lemma PresentChild(r: nat)
      requires Valid() && r in lru
      ensures r < slab.Length && !Absent(V(), lru, V().parent[r], V().name[r])
    {
    }

    lemma AbsentChild(p: int, name: Name)
      requires forall c :: c in lru && c < slab.Length && V().parent[c] == p ==> V().name[c] != name
      ensures Absent(V(), lru, p, name)
    {
    }

    lemma KeptBut(v: Fields, v': Fields, list: seq<nat>, d: nat)
      requires d < |v.node| == |v'.node| && v'.name == v.name && v'.parent == v.parent
      requires v'.node == v.node[d := v'.node[d]]
      ensures Kept(v, v', Minus(list, {d}))
    {
      forall x: nat
        ensures x in Minus(list, {d}) ==> x != d
      {
        MinusMember(list, {d}, x);
      }
    }

    // Invalidation

    /** The entry that a path leads to. */
    method FindPath(path: seq<Name>) returns (t: int)
      requires Valid()
      ensures t == NONE && path != [] ==> forall x :: !Reaches(V(), lru, path, x)
      ensures t != NONE ==> t >= 0 && t in lru && Reaches(V(), lru, path, t)
      ensures path == [] ==> t == NONE
    {
      hide *;
      NoneIs();
      ValidParts();
      var parent := NONE;
      RootReached(path);
      for i := 0 to |path|
        invariant (i == 0 ==> parent == NONE) && (i > 0 ==> parent >= 0 && parent in lru)
        invariant Reaches(V(), lru, path[..i], parent)
      {
        if |path[i]| == 0 || |path[i]| >= MAX_NAME {
          NoSuchName(path, i, parent);
          return NONE;
        }
        var d := FindChild(parent, path[i]);
        if d == NONE {
          NoSuchChild(path, i, parent);
          return NONE;
        }
        Reached(path, i, parent, d);
        parent := d;
      }
      Whole(path);
      t := parent;
    }

    lemma RootReached(path: seq<Name>)
      ensures Reaches(V(), lru, path[..0], NONE)
    {
    }

    lemma Whole(path: seq<Name>)
      ensures path[..|path|] == path
    {
    }

    lemma NoSuchName(path: seq<Name>, i: nat, p: int)
      requires Valid() && i < |path| && Reaches(V(), lru, path[..i], p)
      requires |path[i]| == 0 || |path[i]| >= MAX_NAME
      ensures forall x :: !Reaches(V(), lru, path, x)
    {
      forall c | c in lru && c < slab.Length
        ensures V().name[c] != path[i]
      {
        assert EntryOk(V(), c);
      }
      DeadEnd(V(), rootChildren, lru, kids, depth, path, i, p);
    }

    lemma NoSuchChild(path: seq<Name>, i: nat, p: int)
      requires Valid() && i < |path| && Reaches(V(), lru, path[..i], p)
      requires forall c :: c in lru && c < slab.Length && V().parent[c] == p ==> V().name[c] != path[i]
      ensures forall x :: !Reaches(V(), lru, path, x)
    {
      DeadEnd(V(), rootChildren, lru, kids, depth, path, i, p);
    }

    lemma Reached(path: seq<Name>, i: nat, p: int, d: int)
      requires i < |path| && Reaches(V(), lru, path[..i], p)
      requires 0 <= d < slab.Length && d in lru && V().parent[d] == p && V().name[d] == path[i]
      ensures Reaches(V(), lru, path[..i + 1], d)
    {
      assert path[..i + 1][..i] == path[..i];
    }

    /** The entry of a path and everything below it go, and nothing else. */
    method Invalidate(path: seq<Name>) returns (ghost t: int)
      requires Valid()
      modifies this, slab
      ensures Valid() && callers == old(callers) && hitCount == old(hitCount) && missCount == old(missCount)
      ensures t == NONE ==> lru == old(lru) && V() == old(V()) && refs == old(refs)
      ensures t == NONE ==> path == [] || forall x :: !Reaches(old(V()), old(lru), path, x)
      ensures t != NONE ==> t >= 0 && Reaches(old(V()), old(lru), path, t)
      ensures t != NONE ==> lru == Minus(old(lru), Subtree(old(V().parent), old(depth), old(lru), t))
      ensures Kept(old(V()), V(), lru)
    {
      hide *;
      KeptSelf(V(), lru);
      var target := FindPath(path);
      t := target;
      if target == NONE {
        return;
      }
      DropSubtree(target);
    }

    // Emptying the cache

    lemma NumbersChain(next: seq<int>)
      requires forall i :: 0 <= i < |next| ==> next[i] == if i + 1 < |next| then i + 1 else NONE
      ensures Chain(next, if |next| > 0 then 0 else NONE, Numbers(|next|)) && Distinct(Numbers(|next|))
    {
      forall k: nat
        ensures Leads(next, Numbers(|next|), k, 1)
      {
      }
    }

    /** The state in which all slots are free. */
    ghost predicate Empty()
      reads `rootChildren, `lruHead, `lruTail, `freeList, `entryCount, `lru, `free, `kids, `depth, slab
    {
      && slab.Length >= 1 && (forall i :: 0 <= i < slab.Length ==> Blank(slab[i], i, slab.Length))
      && rootChildren == NONE && lruHead == NONE && lruTail == NONE && freeList == 0 && entryCount == 0
      && lru == [] && free == Numbers(slab.Length) && kids == map[NONE := []] && depth == Zeros(slab.Length)
    }

    lemma EmptyValid()
      requires Empty() && refs == callers
      ensures Valid() && lru == [] && entryCount == 0
    {
      forall i | 0 <= i < slab.Length
        ensures V().slabNext[i] == (if i + 1 < slab.Length then i + 1 else NONE) && V().node[i] == 0
      {
        assert Blank(slab[i], i, slab.Length);
        Slot(i);
      }
      NumbersChain(V().slabNext);
      assert ListOk(V(), rootChildren, NONE, []);
      assert Held(V().node, []) == multiset{};
    }

    constructor (n: nat, refs: multiset<nat>)
      requires n >= 1
      ensures Valid() && fresh(slab) && slab.Length == n && lru == [] && this.refs == refs == callers
      ensures hitCount == 0 && missCount == 0
    {
      slab := new Dentry[n](i => Dentry([], 0, 0, NONE, NONE, NONE, NONE, NONE, if i + 1 < n then i + 1 else NONE));
      rootChildren, lruHead, lruTail, freeList := NONE, NONE, NONE, 0;
      entryCount, hitCount, missCount := 0, 0, 0;
      this.refs, callers := refs, refs;
      lru, free, kids, depth := [], Numbers(n), map[NONE := []], Zeros(n);
      new;
      EmptyValid();
    }

    /** The nodes of all slots that have one, in the order of the slab. */
    method AllNodes() returns (out: seq<nat>)
      requires Valid()
      ensures multiset(out) == Held(V().node, lru)
    {
      out := [];
      ghost var list: seq<nat> := [];
      hide V;
      hide TreeOk;
      hide LruLinked;
      hide Chain;
      WideNow();
      for i := 0 to slab.Length
        invariant Distinct(list) && (forall x: nat :: x in list <==> x < i && V().node[x] != 0)
        invariant multiset(out) == Held(V().node, list)
      {
        Slot(i);
        HeldAppend(V().node, list, i);
        if slab[i].node != 0 {
          out := out + [slab[i].node];
          list := list + [i];
        }
      }
      forall x: nat
        ensures x in list <==> x in lru
      {
        NodesLive(x);
      }
      HeldSame(V().node, list, lru);
    }

    /** The slots that have a node are the entries. */
    lemma NodesLive(x: nat)
      requires Valid()
      ensures |V().node| == slab.Length && (x in lru <==> x < slab.Length && V().node[x] != 0)
    {
      if x < slab.Length {
        SplitCovers(slab.Length, free, lru, x);
      }
      assert x in lru ==> EntryOk(V(), x);
    }

    lemma RefsAre()
      requires Valid()
      ensures slab.Length >= 1 && refs == Held(V().node, lru) + callers
    {
    }

    method ClearSlots()
      modifies slab
      ensures forall i :: 0 <= i < slab.Length ==> Blank(slab[i], i, slab.Length)
    {
      for i := 0 to slab.Length
        invariant forall j :: 0 <= j < i ==> Blank(slab[j], j, slab.Length)
      {
        slab[i] := slab[i].(node := 0, lruPrev := NONE, lruNext := NONE, parent := NONE, children := NONE,
                            sibNext := NONE,
          slabNext := if i + 1 < slab.Length then i + 1 else NONE);
      }
    }

    method Reset()
      requires slab.Length >= 1
      modifies slab, `rootChildren, `lruHead, `lruTail, `freeList, `entryCount, `lru, `free, `kids, `depth
      ensures Empty()
    {
      hide Blank;
      hide Numbers;
      rootChildren := NONE;
      ClearSlots();
      freeList, lruHead, lruTail, entryCount := 0, NONE, NONE, 0;
      lru, free, kids, depth := [], Numbers(slab.Length), map[NONE := []], Zeros(slab.Length);
    }

    /** All entries go; the references left are those of others. */
    method Flush()
      requires Valid()
      modifies this, slab
      ensures Valid() && lru == [] && entryCount == 0 && callers == old(callers) && refs == callers
      ensures hitCount == old(hitCount) && missCount == old(missCount)
    {
      hide *;
      RefsAre();
      var out := AllNodes();
      GiveBack(multiset{}, multiset(out), callers);
      Reset();
      UnrefAll(out);
      EmptyValid();
    }

    // Walking a path

    /** With fewer entries on the path than slots, room is never made at the expense of the path. */
    lemma PathIsSafe(anc: seq<nat>, names: seq<Name>)
      requires Valid() && OnPath(V(), lru, anc, names) && |anc| < slab.Length
      ensures Safe(Last(anc))
      ensures free == [] ==> lru != [] && forall a :: a in anc ==> a !in Subtree(V().parent, depth, lru, lru[0])
    {
      if free == [] && anc != [] {
        FirstNotLast(lru, |anc|);
        if Below(V().parent, depth, anc[|anc| - 1], lru[0]) {
          AncestorsOnly(V(), rootChildren, lru, kids, depth, anc, lru[0]);
        }
        forall a | a in anc
          ensures !Below(V().parent, depth, a, lru[0])
        {
          if Below(V().parent, depth, a, lru[0]) {
            BelowAncestor(V(), rootChildren, lru, kids, depth, anc, a, lru[0]);
          }
        }
      }
    }

    lemma StepUp(x: nat, d: nat)
      requires Valid() && x in lru && d in lru && x != d
      ensures x < slab.Length == |depth|
      ensures slab[x].parent == NONE ||
              (0 <= slab[x].parent < |depth| && slab[x].parent in lru && depth[slab[x].parent] < depth[x])
      ensures Below(V().parent, depth, x, d) <==>
              slab[x].parent != NONE && Below(V().parent, depth, slab[x].parent, d)
    {
      assert Hangs(V(), lru, kids, depth, x);
      Slot(x);
      BelowParent(V().parent, depth, x, d);
    }

    lemma IsItself(x: nat)
      requires Valid() && x in lru
      ensures Below(V().parent, depth, x, x)
    {
      BelowSelf(V().parent, depth, x);
    }

    /** Whether room for a child of `p` can be made without evicting `p`: the victim is not on its way to the root. */
    method KeepsParent(p: int) returns (safe: bool)
      requires Valid() && (p == NONE || (p >= 0 && p in lru))
      ensures safe <==> Safe(p)
    {
      hide *;
      NoneIs();
      ValidParts();
      FreeListEmpty();
      SafeMeans(p);
      VictimIsFirst();
      if freeList != NONE {
        return true;
      }
      var x, victim := p, lruHead;
      while x != NONE
        invariant x == NONE || (0 <= x < |depth| && x in lru)
        invariant p >= 0 && Below(V().parent, depth, p, victim) <==> x >= 0 && Below(V().parent, depth, x, victim)
        decreases if 0 <= x < |depth| then depth[x] + 1 else 0
      {
        if x == victim {
          IsItself(x);
          return false;
        }
        StepUp(x, victim);
        x := slab[x].parent;
      }
      safe := true;
    }

    /** An insertion of a new name under the entry of a path would evict that entry. */
    ghost predicate Unsafe(dir: seq<Name>, name: Name)
      reads `lru, `free, `depth, slab
    {
      exists p :: Reaches(V(), lru, dir, p) && Absent(V(), lru, p, name) && !Safe(p)
    }

    /** The entry of a directory's path; `there` is false if the path leads nowhere. */
    method FindDirectory(dir: seq<Name>) returns (there: bool, p: int)
      requires Valid()
      ensures there ==> (p == NONE || (p >= 0 && p in lru)) && Reaches(V(), lru, dir, p)
    {
      hide *;
      RootReached(dir);
      NoneIs();
      if dir == [] {
        assert dir[..0] == dir;
        return true, NONE;
      }
      p := FindPath(dir);
      there := p != NONE;
    }

    /** A lookup of one name in the directory of a path. */
    method LookupIn(dir: seq<Name>, name: Name)
      requires Valid()
      modifies this, slab
      ensures Valid()
    {
      hide *;
      var there, p := FindDirectory(dir);
      if there {
        var node, d := LookupComponent(p, name);
      }
    }

    /** An insertion of one name in the directory of a path, not made when it would evict the directory. */
    method InsertIn(dir: seq<Name>, name: Name, node: nat) returns (made: bool)
      requires Valid()
      modifies this, slab
      ensures Valid() && (!made ==> Unsafe(dir, name))
    {
      hide *;
      made := true;
      var there, p := FindDirectory(dir);
      if !there || !(0 < |name| < MAX_NAME && node != 0) {
        return;
      }
      ValidParts();
      var r := FindChild(p, name);
      if r == NONE {
        AbsentChild(p, name);
        made := KeepsParent(p);
        if !made {
          IsUnsafe(dir, name, p);
          return;
        }
      } else {
        PresentName(p, name, r);
      }
      var d;
      ghost var gone;
      d, gone := InsertComponent(p, name, node);
    }

    lemma IsUnsafe(dir: seq<Name>, name: Name, p: int)
      requires Reaches(V(), lru, dir, p) && Absent(V(), lru, p, name) && !Safe(p)
      ensures Unsafe(dir, name)
    {
    }

    lemma PresentName(p: int, name: Name, r: int)
      requires 0 <= r < slab.Length && r in lru && V().parent[r] == p && V().name[r] == name
      ensures !Absent(V(), lru, p, name)
    {
    }

    lemma FirstNotLast(list: seq<nat>, n: nat)
      requires Distinct(list) && 0 < n < |list|
      ensures list[0] !in list[|list| - n..]
    {
    }

    lemma PathEnd(anc: seq<nat>, names: seq<Name>)
      requires Valid() && OnPath(V(), lru, anc, names)
      ensures Last(anc) == NONE || (Last(anc) >= 0 && Last(anc) in lru)
    {
      assert anc != [] ==> anc[|anc| - 1] in anc;
    }

    /** One component: looked up, or else inserted with the node that the file system found. */
    method WalkStep(cur: int, name: Name, found: nat, ghost anc: seq<nat>, ghost names: seq<Name>)
      returns (d: int, ghost hit: bool, ghost gone: set<nat>)
      requires Valid() && OnPath(V(), lru, anc, names) && |anc| < slab.Length && cur == Last(anc)
      requires 0 < |name| < MAX_NAME && found != 0
      modifies this, slab
      ensures Valid() && 0 <= d < slab.Length && OnPath(V(), lru, anc + [d], names + [name])
      ensures V().parent[d] == cur && V().name[d] == name && lru == Minus(old(lru), gone) + [d]
      ensures hit <==> !old(Absent(V(), lru, cur, name))
      ensures if hit then
                && d in old(lru) && gone == {d as nat} && Kept(old(V()), V(), old(lru))
                && callers == old(callers) + multiset{V().node[d]}
                && hitCount == old(hitCount) + 1 && missCount == old(missCount)
              else
                && Kept(old(V()), V(), Minus(old(lru), gone)) && V().node[d] == found
                && Childless(V(), lru, d) && (forall a :: a in anc ==> a !in gone) && callers == old(callers)
                && hitCount == old(hitCount) && missCount == old(missCount) + 1
    {
      hide *;
      NoneIs();
      ValidParts();
      PathEnd(anc, names);
      WideNow();
      ghost var v, live := V(), lru;
      var node;
      node, d := LookupComponent(cur, name);
      hit := d != NONE;
      WideNow();
      if d != NONE {
        gone := {d as nat};
        HitOnPath(v, old(rootChildren), live, old(kids), old(depth), V(), anc, names, d, name);
        HitPresent(v, V(), live, cur, name, d);
      } else {
        PathIsSafe(anc, names);
        AbsentChild(cur, name);
        ghost var root1, kids1, depth1 := rootChildren, kids, depth;
        ValidParts();
        d, gone := InsertComponent(cur, name, found);
        WideNow();
        ValidParts();
        OnPathStep(v, V(), slab.Length, live, gone, anc, names, d, name);
        OwnParent(d);
        FreshSlot(live, gone, d);
        NewChildless(v, root1, live, kids1, depth1, V(), gone, d);
      }
    }

    lemma HitPresent(v: Fields, v': Fields, live: seq<nat>, p: int, name: Name, d: nat)
      requires d in live && d < |v.parent| && d < |v.name| && d < |v.node| && Kept(v, v', live)
      requires d < |v'.parent| && d < |v'.name| && v'.parent[d] == p && v'.name[d] == name
      ensures !Absent(v, live, p, name)
    {
    }

    /** No entry is its own parent. */
    lemma OwnParent(d: nat)
      requires Valid() && d in lru
      ensures d < slab.Length && V().parent[d] != d
    {
    }

    /** An entry that was not removed before it was added was not there. */
    lemma FreshSlot(live: seq<nat>, gone: set<nat>, d: nat)
      requires lru == Minus(live, gone) + [d] && Distinct(lru)
      ensures d in lru && (d in live ==> d in gone)
    {
      MinusMember(live, gone, d);
      assert lru[|lru| - 1] == d;
    }

    /**
     The walk of a path leaves all its entries in the cache. As many components as the path led to
     before are found, with the nodes they had, and the caller gets a reference to each; the others
     are inserted with the nodes that the file system found.
     */
    method WalkPath(path: seq<Name>, found: seq<nat>) returns (cur: int, ghost anc: seq<nat>, ghost k: nat)
      requires Valid() && |found| == |path| <= slab.Length
      requires forall i :: 0 <= i < |path| ==> 0 < |path[i]| < MAX_NAME && found[i] != 0
      modifies this, slab
      ensures Valid() && OnPath(V(), lru, anc, path) && cur == Last(anc)
      ensures Walked(old(V()), old(lru), V(), anc, path, found, k)
      ensures callers == old(callers) + Held(old(V()).node, anc[..k])
      ensures hitCount == old(hitCount) + k && missCount == old(missCount) + |path| - k
    {
      hide *;
      cur, anc, k := NONE, [], 0;
      WideNow();
      ValidParts();
      PathStart(path);
      WalkStart(path, found);
      for i := 0 to |path|
        invariant Valid() && OnPath(V(), lru, anc, path[..i]) && |anc| == i && cur == Last(anc)
        invariant k <= i && Walking(old(V()), old(lru), V(), lru, anc, path, found, k)
        invariant callers == old(callers) + Held(old(V()).node, anc[..k])
        invariant hitCount == old(hitCount) + k && missCount == old(missCount) + i - k
      {
        ghost var v, live := V(), lru;
        WideNow();
        ValidParts();
        ghost var hit, gone;
        cur, hit, gone := WalkStep(cur, path[i], found[i], anc, path[..i]);
        WideNow();
        PathLive(v, live, anc, path[..i]);
        WalkNext(old(V()), old(rootChildren), old(lru), old(kids), old(depth), v, live, gone,
                 anc, path, found, k, cur, hit);
        LastAdded(anc, cur);
        k := if hit then k + 1 else k;
        anc := anc + [cur];
        assert path[..i] + [path[i]] == path[..i + 1];
      }
      Whole(path);
      WalkEnd(old(V()), old(lru), V(), lru, anc, path, found, k);
    }

    lemma WalkStart(path: seq<Name>, found: seq<nat>)
      requires |path| == |found|
      ensures Walking(V(), lru, V(), lru, [], path, found, 0) && Held(V().node, []) == multiset{}
    {
    }

    lemma WalkEnd(v0: Fields, live0: seq<nat>, v: Fields, live: seq<nat>, anc: seq<nat>, path: seq<Name>,
                  found: seq<nat>, k: nat)
      requires Walking(v0, live0, v, live, anc, path, found, k)
      ensures Walked(v0, live0, v, anc, path, found, k)
    {
    }

    lemma PathLive(v: Fields, live: seq<nat>, anc: seq<nat>, names: seq<Name>)
      requires OnPath(v, live, anc, names)
      ensures forall a :: a in anc ==> a in live
    {
    }

    lemma WalkNext(
      v0: Fields, root0: int, live0: seq<nat>, kids0: Kids, depth0: seq<nat>, v: Fields, live: seq<nat>, gone: set<nat>,
      anc: seq<nat>, path: seq<Name>, found: seq<nat>, k: nat, d: nat, hit: bool)
      requires TreeOk(v0, root0, live0, kids0, depth0) && Wide(v0, slab.Length) && Wide(v, slab.Length)
      requires Walking(v0, live0, v, live, anc, path, found, k) && |anc| < |path| && d < slab.Length
      requires (forall x :: x in live ==> x < slab.Length) && (forall a :: a in anc ==> a in live)
      requires V().parent[d] == Last(anc) && V().name[d] == path[|anc|] && lru == Minus(live, gone) + [d]
      requires if hit then d in live && gone == {d} && Kept(v, V(), live)
               else && Absent(v, live, Last(anc), path[|anc|]) && Kept(v, V(), Minus(live, gone))
                    && V().node[d] == found[|anc|] && Childless(V(), lru, d) && forall a :: a in anc ==> a !in gone
      ensures Walking(v0, live0, V(), lru, anc + [d], path, found, if hit then k + 1 else k)
      ensures Held(v0.node, (anc + [d])[..if hit then k + 1 else k]) ==
              Held(v0.node, anc[..k]) + if hit then multiset{V().node[d]} else multiset{}
    {
      hide Walking;
      hide TreeOk;
      hide Childless;
      hide Absent;
      hide Held;
      WideNow();
      WalkingBound(v0, live0, v, live, anc, path, found, k);
      if hit {
        forall x: nat
          ensures x in lru <==> x in live
        {
          MinusMember(live, {d}, x);
        }
        WalkingHit(v0, slab.Length, live0, v, live, V(), lru, anc, path, found, k, d);
        assert (anc + [d])[..k + 1] == anc[..k] + [d];
        HeldAppend(v0.node, anc[..k], d);
      } else {
        forall a | a in anc
          ensures V().node[a] == v.node[a]
        {
          MinusMember(live, gone, a);
        }
        WalkingMiss(v0, root0, slab.Length, live0, kids0, depth0, v, live, V(), lru, anc, path, found, k, d);
        assert (anc + [d])[..k] == anc[..k];
      }
    }

    lemma WalkingBound(v0: Fields, live0: seq<nat>, v: Fields, live: seq<nat>, anc: seq<nat>, path: seq<Name>,
                       found: seq<nat>, k: nat)
      requires Walking(v0, live0, v, live, anc, path, found, k)
      ensures k <= |anc| <= |path| == |found|
    {
    }

    lemma PathStart(path: seq<Name>)
      ensures OnPath(V(), lru, [], path[..0]) && Last([]) == NONE
    {
    }

    lemma OneSlot()
      requires Valid() && slab.Length == 1 && lru == []
      ensures free != [] && Safe(NONE)
      ensures forall name :: Absent(V(), lru, NONE, name)
    {
    }

    lemma OnlyEntry(d: int, name: Name)
      requires Valid() && slab.Length == 1 && d == 0 && lru == Minus([], {}) + [0] && V().parent[0] == NONE
      ensures lru == [0] && free == [] && Absent(V(), lru, d, name) && !Safe(d)
    {
      MinusNone([], {});
      BelowSelf(V().parent, depth, 0);
    }

    lemma LastAdded(anc: seq<nat>, d: nat)
      ensures Last(anc + [d]) == d
    {
    }
  }

  /** A slot of the empty slab. */
  predicate Blank(e: Dentry, i: nat, n: nat) {
    && e.node == 0 && e.lruPrev == NONE && e.lruNext == NONE
    && e.parent == NONE && e.children == NONE && e.sibNext == NONE
    && e.slabNext == if i + 1 < n then i + 1 else NONE
  }

  function Zeros(n: nat): seq<nat> {
    seq(n, _ => 0)
  }

  function Numbers(n: nat): seq<nat> {
    seq(n, i requires 0 <= i < n => i)
  }

  method HashName(name: Name) returns (h: bv32)
    ensures h == Fnv(name)
  {
    hide Mix;
    h := 0x811c9dc5;
    for i := 0 to |name|
      invariant h == Fnv(name[..i])
    {
      h := Mix(h, name[i]);
      assert name[..i + 1][..i] == name[..i];
    }
    assert name[..|name|] == name;
  }

  // Runs

  datatype Op =
    | Walk(path: seq<Name>, found: seq<nat>)
    | Lookup(dir: seq<Name>, name: Name)
    | Insert(dir: seq<Name>, name: Name, node: nat)
    | Invalidate(gone: seq<Name>)
    | Flush

  /** A path the VFS walks: shorter than the cache, with names that fit and nodes that exist. */
  predicate Walkable(path: seq<Name>, found: seq<nat>, n: nat) {
    && |found| == |path| <= n
    && forall i :: 0 <= i < |path| ==> 0 < |path[i]| < MAX_NAME && found[i] != 0
  }

  /**
   Whatever paths are walked, names looked up and inserted, and paths invalidated, all the structures
   agree and every reference has its holder. A run stops only in front of an insertion that would
   evict its own parent.
   */
  method Run(c: DentryCache, ops: seq<Op>) returns (k: nat)
    requires c.Valid()
    modifies c, c.slab
    ensures c.Valid() && k <= |ops|
    ensures k < |ops| ==> ops[k].Insert? && c.Unsafe(ops[k].dir, ops[k].name)
  {
    hide *;
    k := 0;
    while k < |ops|
      invariant c.Valid() && k <= |ops|
    {
      match ops[k] {
        case Walk(path, found) =>
          if Walkable(path, found, c.slab.Length) {
            WalkableParts(path, found, c.slab.Length);
            var cur, anc, k := c.WalkPath(path, found);
          }
        case Lookup(dir, name) =>
          c.LookupIn(dir, name);
        case Insert(dir, name, node) =>
          var made := c.InsertIn(dir, name, node);
          if !made {
            return;
          }
        case Invalidate(path) =>
          ghost var t := c.Invalidate(path);
        case Flush =>
          c.Flush();
      }
      k := k + 1;
    }
  }

  lemma WalkableParts(path: seq<Name>, found: seq<nat>, n: nat)
    requires Walkable(path, found, n)
    ensures |found| == |path| <= n
    ensures forall i :: 0 <= i < |path| ==> 0 < |path[i]| < MAX_NAME && found[i] != 0
  {
  }

  /** A cache of one slot that makes room for a child by evicting the parent: the child is in no tree. */
  method EvictsOwnParent(name: Name, node: nat) returns (c: DentryCache)
    requires 0 < |name| < MAX_NAME && node != 0
    ensures fresh(c) && !c.Valid()
  {
    c := new DentryCache(1, multiset{});
    c.OneSlot();
    ghost var gone;
    var parent;
    parent, gone := c.InsertComponent(NONE, name, node);
    c.OnlyEntry(parent, name);
    var child;
    child, gone := c.InsertComponent(parent, name, node);
  }
}
