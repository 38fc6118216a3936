/**
 The tree of the dentry cache: every entry hangs in the sibling list of its parent, and an entry's
 subtree is what reaches it by following parent pointers.
 */
module DentryTree {
  import opened DentryLists

  type Name = seq<bv8>

  const MAX_NAME: nat := 64

  /** The 32-bit FNV-1a hash. */
  function Fnv(name: Name): bv32 {
    if name == [] then 0x811c9dc5 else Mix(Fnv(name[..|name| - 1]), name[|name| - 1])
  }

  function Mix(h: bv32, b: bv8): bv32 {
    (h ^ (b as bv32)) * 0x01000193
  }

  /** The values of FNV-1a for no byte and for the byte 0x61. */
  lemma FnvKnown()
    ensures Fnv([]) == 0x811C9DC5 && Fnv([0x61]) == 0xE40C292C
  {
    assert [0x61 as bv8][..0] == [];
  }

  /** A slot of the slab. A node is a number, 0 for none. */
  datatype Dentry = Dentry(name: Name, node: nat, hash: bv32, lruPrev: int, lruNext: int,
                           parent: int, children: int, sibNext: int, slabNext: int)

  /** The slab field by field. */
  datatype Fields = Fields(name: seq<Name>, node: seq<nat>, hash: seq<bv32>, prev: seq<int>, next: seq<int>,
                           parent: seq<int>, children: seq<int>, sib: seq<int>, slabNext: seq<int>)

  ghost predicate Wide(v: Fields, n: nat) {
    && |v.name| == n && |v.node| == n && |v.hash| == n && |v.prev| == n && |v.next| == n
    && |v.parent| == n && |v.children| == n && |v.sib| == n && |v.slabNext| == n
  }

  // Subtrees

  /** The ancestor `k` generations up. */
  ghost function Up(parent: seq<int>, x: int, k: nat): int
    decreases k
  {
    if k == 0 then x else if 0 <= x < |parent| then Up(parent, parent[x], k - 1) else NONE
  }

  /** `x` is `d` or below it. */
  ghost predicate Below(parent: seq<int>, depth: seq<nat>, x: nat, d: nat) {
    x < |depth| && d < |depth| && depth[d] <= depth[x] && Up(parent, x, depth[x] - depth[d]) == d
  }

  lemma BelowSelf(parent: seq<int>, depth: seq<nat>, d: nat)
    requires d < |depth|
    ensures Below(parent, depth, d, d)
  {
  }

  lemma BelowParent(parent: seq<int>, depth: seq<nat>, x: nat, d: nat)
    requires x < |depth| == |parent| && x != d
    requires parent[x] == NONE || (0 <= parent[x] < |depth| && depth[x] == depth[parent[x]] + 1)
    requires parent[x] == NONE ==> depth[x] == 0
    ensures Below(parent, depth, x, d) <==> parent[x] != NONE && Below(parent, depth, parent[x], d)
  {
  }

  /** Subtrees of different entries at one level share nothing. */
  lemma BelowOne(parent: seq<int>, depth: seq<nat>, x: nat, a: nat, b: nat)
    requires Below(parent, depth, x, a) && Below(parent, depth, x, b) && depth[a] == depth[b]
    ensures a == b
  {
  }

  ghost function Subtree(parent: seq<int>, depth: seq<nat>, live: seq<nat>, d: nat): set<nat> {
    set x | x in live && Below(parent, depth, x, d)
  }

  // Sibling lists

  ghost function Head(v: Fields, root: int, p: int): int {
    if 0 <= p < |v.children| then v.children[p] else root
  }

  type Kids = map<int, seq<nat>>

  /** The sibling list of one parent. */
  ghost predicate ListOk(v: Fields, root: int, p: int, list: seq<nat>) {
    && Distinct(list) && Chain(v.sib, Head(v, root, p), list)
    && forall c :: c in list ==> c < |v.parent| && v.parent[c] == p
  }

  /** Where an entry hangs. */
  ghost predicate Hangs(v: Fields, live: seq<nat>, kids: Kids, depth: seq<nat>, c: nat) {
    && c < |v.parent| == |depth|
    && v.parent[c] in kids && c in kids[v.parent[c]]
    && (v.parent[c] == NONE || (v.parent[c] >= 0 && v.parent[c] in live))
    && depth[c] == if 0 <= v.parent[c] < |depth| then depth[v.parent[c]] + 1 else 0
  }

  /** What an entry holds: a node and a proper name with its hash. */
  ghost predicate EntryOk(v: Fields, c: nat) {
    && c < |v.node| == |v.name| == |v.hash|
    && v.node[c] != 0 && 0 < |v.name[c]| < MAX_NAME && v.hash[c] == Fnv(v.name[c])
  }

  ghost predicate SameKey(v: Fields, c: nat, d: nat) {
    && c < |v.parent| && d < |v.parent| && c < |v.name| && d < |v.name|
    && v.parent[c] == v.parent[d] && v.name[c] == v.name[d]
  }

  ghost predicate TreeOk(v: Fields, root: int, live: seq<nat>, kids: Kids, depth: seq<nat>) {
    && (forall x :: x in live ==> x < |depth|)
    && (forall p :: p in kids <==> p == NONE || (p >= 0 && p in live))
    && (forall p :: p in kids ==> ListOk(v, root, p, kids[p]))
    && (forall p, c :: p in kids && c in kids[p] ==> c in live)
    && (forall c :: c in live ==> Hangs(v, live, kids, depth, c))
    && (forall c :: c in live ==> EntryOk(v, c))
    && (forall c, d :: c in live && d in live && SameKey(v, c, d) ==> c == d)
  }

  /** What the removal of the subtree of `d` relies on. */
  ghost predicate SubtreeOk(v: Fields, live: seq<nat>, kids: Kids, depth: seq<nat>, d: nat) {
    && d in live && Wide(v, |depth|)
    && (forall x :: x in live ==> x < |depth|)
    && (forall x :: x in live && Below(v.parent, depth, x, d) ==>
          && x in kids && ListOk(v, NONE, x, kids[x])
          && (x != d ==> Hangs(v, live, kids, depth, x) && v.parent[x] != NONE))
    && (forall x, c :: x in live && Below(v.parent, depth, x, d) && x in kids && c in kids[x] ==>
          c in live && depth[c] == depth[x] + 1)
  }

  lemma TreeSubtree(v: Fields, root: int, live: seq<nat>, kids: Kids, depth: seq<nat>, d: nat)
    requires TreeOk(v, root, live, kids, depth) && d in live && Wide(v, |depth|)
    ensures SubtreeOk(v, live, kids, depth, d)
  {
    forall x | x in live && Below(v.parent, depth, x, d)
      ensures x in kids && ListOk(v, NONE, x, kids[x])
      ensures Hangs(v, live, kids, depth, x) && (x != d ==> v.parent[x] != NONE)
    {
      assert ListOk(v, root, x, kids[x]);
      assert Hangs(v, live, kids, depth, x);
      if x != d {
        BelowParent(v.parent, depth, x, d);
      }
    }
    forall x, c | x in live && x in kids && c in kids[x]
      ensures c in live && depth[c] == depth[x] + 1
    {
      assert ListOk(v, root, x, kids[x]);
      assert Hangs(v, live, kids, depth, c);
    }
  }

  /** Below an entry but not the entry: below one of its children. */
  lemma {:induction false} BelowChild(
    v: Fields, live: seq<nat>, kids: Kids, depth: seq<nat>, x: nat, d: nat) returns (c: nat)
    requires SubtreeOk(v, live, kids, depth, d) && x in live && Below(v.parent, depth, x, d) && x != d
    ensures c in kids[d] && Below(v.parent, depth, x, c)
    decreases depth[x]
  {
    var p := v.parent[x];
    assert Hangs(v, live, kids, depth, x);
    BelowParent(v.parent, depth, x, d);
    if p == d {
      c := x;
      BelowSelf(v.parent, depth, x);
    } else {
      c := BelowChild(v, live, kids, depth, p, d);
      if x != c {
        BelowParent(v.parent, depth, x, c);
      } else {
        BelowSelf(v.parent, depth, x);
      }
    }
  }

  lemma {:induction false} UpOne(parent: seq<int>, x: int, j: nat)
    ensures Up(parent, x, j + 1) == Up(parent, Up(parent, x, j), 1)
    decreases j
  {
    if j > 0 && 0 <= x < |parent| {
      UpOne(parent, parent[x], j - 1);
    }
  }

  lemma BelowTrans(parent: seq<int>, depth: seq<nat>, x: nat, c: nat, d: nat)
    requires Below(parent, depth, x, c) && c < |parent| && parent[c] == d && d < |depth| && depth[c] == depth[d] + 1
    ensures Below(parent, depth, x, d)
  {
    UpOne(parent, x, depth[x] - depth[c]);
    assert Up(parent, c, 1) == Up(parent, parent[c], 0);
  }

  lemma ChildHangs(v: Fields, live: seq<nat>, kids: Kids, depth: seq<nat>, d: nat, c: nat)
    requires SubtreeOk(v, live, kids, depth, d) && d in kids && c in kids[d]
    ensures c in live && c != d && c < |v.parent| && v.parent[c] == d && depth[c] == depth[d] + 1
    ensures Below(v.parent, depth, c, d)
  {
    BelowSelf(v.parent, depth, d);
    assert ListOk(v, NONE, d, kids[d]);
    BelowSelf(v.parent, depth, c);
    BelowTrans(v.parent, depth, c, c, d);
  }

  lemma ChildSubtree(v: Fields, live: seq<nat>, kids: Kids, depth: seq<nat>, d: nat, c: nat)
    requires SubtreeOk(v, live, kids, depth, d) && d in kids && c in kids[d]
    ensures SubtreeOk(v, live, kids, depth, c)
  {
    ChildHangs(v, live, kids, depth, d, c);
    forall x | x in live && Below(v.parent, depth, x, c)
      ensures Below(v.parent, depth, x, d) && x != d
    {
      BelowTrans(v.parent, depth, x, c, d);
    }
  }

  // Removal

  /** From `v` to `v'` the entries in `gone` have been given up. */
  ghost predicate Removed(v: Fields, v': Fields, gone: set<nat>) {
    && v'.parent == v.parent && v'.sib == v.sib && v'.name == v.name && v'.hash == v.hash
    && |v'.children| == |v.children| && |v'.node| == |v.node|
    && (forall x :: 0 <= x < |v.children| && x !in gone ==> v'.children[x] == v.children[x])
    && (forall x :: 0 <= x < |v.node| ==> v'.node[x] == if x in gone then 0 else v.node[x])
  }

  lemma RemovedTrans(v: Fields, v': Fields, v'': Fields, a: set<nat>, b: set<nat>)
    requires Removed(v, v', a) && Removed(v', v'', b)
    ensures Removed(v, v'', a + b)
  {
  }

  lemma SubtreeKept(
    v: Fields, v': Fields, live: seq<nat>, live': seq<nat>, kids: Kids, depth: seq<nat>, d: nat, gone: set<nat>)
    requires SubtreeOk(v, live, kids, depth, d) && Removed(v, v', gone) && Wide(v', |depth|)
    requires live' == Minus(live, gone)
    requires forall x :: x in live && Below(v.parent, depth, x, d) ==> x !in gone
    ensures SubtreeOk(v', live', kids, depth, d)
  {
    hide Minus;
    hide Below;
    hide Chain;
    hide Distinct;
    forall x: nat
      ensures x in live' <==> x in live && x !in gone
    {
      MinusMember(live, gone, x);
    }
    BelowSelf(v.parent, depth, d);
    forall x | x in live' && Below(v'.parent, depth, x, d)
      ensures x in kids && ListOk(v', NONE, x, kids[x])
      ensures x != d ==> Hangs(v', live', kids, depth, x) && v'.parent[x] != NONE
    {
      assert ListOk(v, NONE, x, kids[x]);
      if x != d {
        assert Hangs(v, live, kids, depth, x);
        BelowParent(v.parent, depth, x, d);
      }
    }
    forall x, c | x in live' && Below(v'.parent, depth, x, d) && x in kids && c in kids[x]
      ensures c in live' && depth[c] == depth[x] + 1
    {
      assert ListOk(v, NONE, x, kids[x]);
      BelowSelf(v.parent, depth, c);
      if c != d {
        BelowParent(v.parent, depth, c, d);
      }
    }
  }

  /** The subtrees of several entries. */
  ghost function Subtrees(parent: seq<int>, depth: seq<nat>, live: seq<nat>, cs: seq<nat>): set<nat> {
    set x | x in live && exists j :: 0 <= j < |cs| && Below(parent, depth, x, cs[j])
  }

  /** The subtree of one more child. */
  lemma SubtreesSnoc(v: Fields, live: seq<nat>, kids: Kids, depth: seq<nat>, d: nat, k: nat)
    requires SubtreeOk(v, live, kids, depth, d) && d in kids && k < |kids[d]|
    ensures var gone := Subtrees(v.parent, depth, live, kids[d][..k]);
            var sub := Subtree(v.parent, depth, Minus(live, gone), kids[d][k]);
            && gone + sub == Subtrees(v.parent, depth, live, kids[d][..k + 1])
            && (forall x :: x in live && Below(v.parent, depth, x, kids[d][k]) ==> x !in gone)
  {
    var cs := kids[d];
    var gone := Subtrees(v.parent, depth, live, cs[..k]);
    forall x | x in live && Below(v.parent, depth, x, cs[k])
      ensures x !in gone
    {
      SiblingsApart(v, live, kids, depth, d, k, x);
    }
    forall x: nat
      ensures x in Minus(live, gone) <==> x in live && x !in gone
    {
      MinusMember(live, gone, x);
    }
    forall x | x in Subtrees(v.parent, depth, live, cs[..k + 1])
      ensures x in gone || Below(v.parent, depth, x, cs[k])
    {
      var j :| 0 <= j < k + 1 && Below(v.parent, depth, x, cs[..k + 1][j]);
      assert j < k ==> cs[..k][j] == cs[j];
    }
    forall x | x in gone
      ensures x in Subtrees(v.parent, depth, live, cs[..k + 1])
    {
      var j :| 0 <= j < k && Below(v.parent, depth, x, cs[..k][j]);
      assert cs[..k + 1][j] == cs[j];
    }
    assert cs[..k + 1][k] == cs[k];
  }

  lemma SiblingsApart(v: Fields, live: seq<nat>, kids: Kids, depth: seq<nat>, d: nat, k: nat, x: nat)
    requires SubtreeOk(v, live, kids, depth, d) && d in kids && k < |kids[d]|
    requires Below(v.parent, depth, x, kids[d][k])
    ensures x !in Subtrees(v.parent, depth, live, kids[d][..k])
  {
    var cs := kids[d];
    BelowSelf(v.parent, depth, d);
    assert ListOk(v, NONE, d, cs);
    forall j | 0 <= j < k
      ensures !Below(v.parent, depth, x, cs[..k][j])
    {
      ChildHangs(v, live, kids, depth, d, cs[k]);
      ChildHangs(v, live, kids, depth, d, cs[j]);
      if Below(v.parent, depth, x, cs[j]) {
        BelowOne(v.parent, depth, x, cs[k], cs[j]);
      }
    }
  }

  /** All the children's subtrees and the entry itself: the entry's subtree. */
  lemma SubtreesAll(v: Fields, live: seq<nat>, kids: Kids, depth: seq<nat>, d: nat)
    requires SubtreeOk(v, live, kids, depth, d) && d in kids
    ensures Subtrees(v.parent, depth, live, kids[d]) + {d} == Subtree(v.parent, depth, live, d)
    ensures d !in Subtrees(v.parent, depth, live, kids[d])
  {
    var cs := kids[d];
    BelowSelf(v.parent, depth, d);
    forall x | x in live && x != d && Below(v.parent, depth, x, d)
      ensures x in Subtrees(v.parent, depth, live, cs)
    {
      var c := BelowChild(v, live, kids, depth, x, d);
      var j :| 0 <= j < |cs| && cs[j] == c;
    }
    forall x | x in Subtrees(v.parent, depth, live, cs)
      ensures Below(v.parent, depth, x, d) && x != d
    {
      var j :| 0 <= j < |cs| && Below(v.parent, depth, x, cs[j]);
      ChildHangs(v, live, kids, depth, d, cs[j]);
      BelowTrans(v.parent, depth, x, cs[j], d);
    }
  }

  /** The subtrees of the first `k` children of `d` are gone. */
  ghost predicate Collected(
    v0: Fields, live0: seq<nat>, kids: Kids, depth: seq<nat>, d: nat, k: nat, v: Fields, live: seq<nat>)
  {
    && d in kids && k <= |kids[d]| && Wide(v, |depth|)
    && var gone := Subtrees(v0.parent, depth, live0, kids[d][..k]);
       live == Minus(live0, gone) && Removed(v0, v, gone)
  }

  lemma CollectNone(v: Fields, live: seq<nat>, kids: Kids, depth: seq<nat>, d: nat)
    requires SubtreeOk(v, live, kids, depth, d)
    ensures d in kids && Collected(v, live, kids, depth, d, 0, v, live)
    ensures d < |v.children| && v.children[d] == At(kids[d], 0)
  {
    BelowSelf(v.parent, depth, d);
    assert ListOk(v, NONE, d, kids[d]);
    MinusNone(live, Subtrees(v.parent, depth, live, kids[d][..0]));
  }

  /** The next child is ready to go, and its sibling link still leads to the one after it. */
  lemma CollectReady(
    v0: Fields, live0: seq<nat>, kids: Kids, depth: seq<nat>, d: nat, k: nat, v: Fields, live: seq<nat>)
    requires SubtreeOk(v0, live0, kids, depth, d) && Collected(v0, live0, kids, depth, d, k, v, live) && k < |kids[d]|
    ensures SubtreeOk(v, live, kids, depth, kids[d][k])
    ensures kids[d][k] < |v.sib| && v.sib[kids[d][k]] == At(kids[d], k + 1)
    ensures kids[d][k] < |depth| && d < |depth| && depth[kids[d][k]] == depth[d] + 1
  {
    hide Minus;
    hide Below;
    hide Removed;
    hide SubtreeOk;
    var c := kids[d][k];
    var gone := Subtrees(v0.parent, depth, live0, kids[d][..k]);
    ChildHangs(v0, live0, kids, depth, d, c);
    ChildSubtree(v0, live0, kids, depth, d, c);
    SubtreesSnoc(v0, live0, kids, depth, d, k);
    SubtreeKept(v0, v, live0, live, kids, depth, c, gone);
    ChildLink(v0, live0, kids, depth, d, k);
    RemovedLinks(v0, v, gone);
    SubtreeInRange(v0, live0, kids, depth, d);
  }

  lemma ChildLink(v: Fields, live: seq<nat>, kids: Kids, depth: seq<nat>, d: nat, k: nat)
    requires SubtreeOk(v, live, kids, depth, d) && d in kids && k < |kids[d]|
    ensures kids[d][k] < |v.sib| && v.sib[kids[d][k]] == At(kids[d], k + 1)
  {
    BelowSelf(v.parent, depth, d);
    assert ListOk(v, NONE, d, kids[d]);
    assert Leads(v.sib, kids[d], k, 1);
  }

  lemma RemovedLinks(v: Fields, v': Fields, gone: set<nat>)
    requires Removed(v, v', gone)
    ensures v'.sib == v.sib && v'.parent == v.parent
  {
  }

  lemma SubtreeInRange(v: Fields, live: seq<nat>, kids: Kids, depth: seq<nat>, d: nat)
    requires SubtreeOk(v, live, kids, depth, d)
    ensures d in live && d < |depth| && Wide(v, |depth|)
  {
  }

  lemma CollectStep(v0: Fields, live0: seq<nat>, kids: Kids, depth: seq<nat>, d: nat, k: nat,
                    v: Fields, live: seq<nat>, v': Fields, live': seq<nat>)
    requires SubtreeOk(v0, live0, kids, depth, d) && Collected(v0, live0, kids, depth, d, k, v, live) && k < |kids[d]|
    requires var sub := Subtree(v.parent, depth, live, kids[d][k]);
             Removed(v, v', sub) && live' == Minus(live, sub)
    requires Wide(v', |depth|)
    ensures Collected(v0, live0, kids, depth, d, k + 1, v', live')
  {
    hide Minus;
    hide Below;
    hide SubtreeOk;
    hide Removed;
    var gone := Subtrees(v0.parent, depth, live0, kids[d][..k]);
    RemovedLinks(v0, v, gone);
    var sub := Subtree(v.parent, depth, live, kids[d][k]);
    SubtreesSnoc(v0, live0, kids, depth, d, k);
    MinusTwice(live0, gone, sub);
    RemovedTrans(v0, v, v', gone, sub);
  }

  /** Last the entry itself goes, and with it the whole subtree. */
  lemma CollectDone(v0: Fields, live0: seq<nat>, kids: Kids, depth: seq<nat>, d: nat,
                    v: Fields, live: seq<nat>, v': Fields, j: nat)
    requires SubtreeOk(v0, live0, kids, depth, d) && Distinct(live)
    requires d in kids && Collected(v0, live0, kids, depth, d, |kids[d]|, v, live)
    requires j < |live| && live[j] == d && Removed(v, v', {d})
    ensures var sub := Subtree(v0.parent, depth, live0, d);
            Removed(v0, v', sub) && RemoveAt(live, j) == Minus(live0, sub)
  {
    hide Minus;
    hide Below;
    hide SubtreeOk;
    hide Removed;
    hide Subtree;
    hide Subtrees;
    assert kids[d][..|kids[d]|] == kids[d];
    var gone := Subtrees(v0.parent, depth, live0, kids[d]);
    SubtreesAll(v0, live0, kids, depth, d);
    MinusOne(live, j);
    MinusTwice(live0, gone, {d});
    RemovedTrans(v0, v, v', gone, {d});
  }

  lemma CollectLast(v0: Fields, live0: seq<nat>, kids: Kids, depth: seq<nat>, d: nat, v: Fields, live: seq<nat>)
    requires SubtreeOk(v0, live0, kids, depth, d)
    requires d in kids && Collected(v0, live0, kids, depth, d, |kids[d]|, v, live)
    ensures d in live
  {
    assert kids[d][..|kids[d]|] == kids[d];
    SubtreesAll(v0, live0, kids, depth, d);
    MinusMember(live0, Subtrees(v0.parent, depth, live0, kids[d]), d);
  }

  // The tree without one subtree

  /** From `v` to `v'` entry `d`, at position `k` of its sibling list, has been taken out of the list. */
  ghost predicate Unlinked(v: Fields, root: int, v': Fields, root': int, list: seq<nat>, d: nat, k: nat) {
    && k < |list| && list[k] == d && d < |v.parent|
    && v' == v.(sib := v'.sib, children := v'.children) && |v'.sib| == |v.sib| && |v'.children| == |v.children|
    && (forall x :: 0 <= x < |v.sib| && x != d ==>
          v'.sib[x] == if k > 0 && x == list[k - 1] then At(list, k + 1) else v.sib[x])
    && Head(v', root', v.parent[d]) == (if k == 0 then At(list, 1) else Head(v, root, v.parent[d]))
    && (forall p :: p != v.parent[d] && NONE <= p < |v.children| ==> Head(v', root', p) == Head(v, root, p))
  }

  lemma UnlinkedList(v: Fields, root: int, v': Fields, root': int, list: seq<nat>, d: nat, k: nat)
    requires Unlinked(v, root, v', root', list, d, k) && ListOk(v, root, v.parent[d], list)
    ensures ListOk(v', root', v.parent[d], RemoveAt(list, k))
  {
    ChainRemove(v.sib, Head(v, root, v.parent[d]), list, k, v'.sib, Head(v', root', v.parent[d]));
    forall x: nat
      ensures x in RemoveAt(list, k) ==> x in list
    {
      RemoveAtMember(list, k, x);
    }
    RemoveAtMember(list, k, d);
  }

  lemma UnlinkedOther(
    v: Fields, root: int, v': Fields, root': int, list: seq<nat>, d: nat, k: nat, p: int, other: seq<nat>)
    requires Unlinked(v, root, v', root', list, d, k) && ListOk(v, root, v.parent[d], list)
    requires p != v.parent[d] && NONE <= p < |v.children| && ListOk(v, root, p, other)
    ensures ListOk(v', root', p, other)
  {
    assert d in list && (k > 0 ==> list[k - 1] in list);
    ChainFrame(v.sib, v'.sib, Head(v, root, p), other);
  }

  /** The subtree of an entry is not touched when the entry is taken out of its sibling list. */
  lemma UnlinkedSubtree(
    v: Fields, root: int, live: seq<nat>, kids: Kids, depth: seq<nat>, v': Fields, root': int, d: nat, k: nat)
    requires TreeOk(v, root, live, kids, depth) && d in live && Wide(v, |depth|)
    requires v.parent[d] in kids && Unlinked(v, root, v', root', kids[v.parent[d]], d, k)
    ensures SubtreeOk(v', live, kids, depth, d)
  {
    TreeSubtree(v, root, live, kids, depth, d);
    hide Below;
    hide Chain;
    hide Distinct;
    var p := v.parent[d];
    assert Hangs(v, live, kids, depth, d);
    forall x | x in live && Below(v'.parent, depth, x, d)
      ensures x in kids && ListOk(v', NONE, x, kids[x])
      ensures x != d ==> Hangs(v', live, kids, depth, x) && v'.parent[x] != NONE
    {
      assert ListOk(v, root, x, kids[x]) && ListOk(v, root, p, kids[p]);
      ParentNotBelow(v, live, kids, depth, d);
      UnlinkedOther(v, root, v', root', kids[p], d, k, x, kids[x]);
    }
  }

  lemma ParentNotBelow(v: Fields, live: seq<nat>, kids: Kids, depth: seq<nat>, d: nat)
    requires d < |v.parent| && Hangs(v, live, kids, depth, d)
    ensures v.parent[d] != NONE ==> !Below(v.parent, depth, v.parent[d], d)
  {
  }

  /** The sibling lists of the entries that stay. */
  ghost function Pruned(kids: Kids, p: int, k: nat, gone: set<nat>): Kids
    requires p in kids && k < |kids[p]|
  {
    map q | q in kids && (q < 0 || q !in gone) :: if q == p then RemoveAt(kids[p], k) else kids[q]
  }

  lemma PrunedLists(v: Fields, root: int, live: seq<nat>, kids: Kids, depth: seq<nat>,
                    v1: Fields, root': int, v2: Fields, d: nat, k: nat, gone: set<nat>, q: int)
    requires TreeOk(v, root, live, kids, depth) && d in live && Wide(v, |depth|)
    requires v.parent[d] in kids && Unlinked(v, root, v1, root', kids[v.parent[d]], d, k)
    requires Removed(v1, v2, gone) && q in Pruned(kids, v.parent[d], k, gone)
    ensures ListOk(v2, root', q, Pruned(kids, v.parent[d], k, gone)[q])
  {
    hide Chain;
    hide Distinct;
    var p := v.parent[d];
    assert ListOk(v, root, q, kids[q]) && ListOk(v, root, p, kids[p]);
    if q == p {
      UnlinkedList(v, root, v1, root', kids[p], d, k);
    } else {
      UnlinkedOther(v, root, v1, root', kids[p], d, k, q, kids[q]);
    }
    assert Head(v2, root', q) == Head(v1, root', q);
  }

  /** An entry stays just when its parent does, unless it is the removed one. */
  lemma StaysWithParent(v: Fields, root: int, live: seq<nat>, kids: Kids, depth: seq<nat>, d: nat, c: nat)
    requires TreeOk(v, root, live, kids, depth) && c in live && c != d
    ensures c < |v.parent| == |depth| && (v.parent[c] == NONE || (v.parent[c] >= 0 && v.parent[c] in live))
    ensures c in Subtree(v.parent, depth, live, d) <==>
            v.parent[c] != NONE && v.parent[c] in Subtree(v.parent, depth, live, d)
  {
    assert Hangs(v, live, kids, depth, c);
    BelowParent(v.parent, depth, c, d);
  }

  lemma PrunedHangs(
    v: Fields, root: int, live: seq<nat>, kids: Kids, depth: seq<nat>, d: nat, k: nat, c: nat, v': Fields)
    requires TreeOk(v, root, live, kids, depth) && d in live && d < |v.parent| && v'.parent == v.parent
    requires v.parent[d] in kids && k < |kids[v.parent[d]]| && kids[v.parent[d]][k] == d
    requires var gone := Subtree(v.parent, depth, live, d); c in Minus(live, gone)
    ensures var gone := Subtree(v.parent, depth, live, d);
            Hangs(v', Minus(live, gone), Pruned(kids, v.parent[d], k, gone), depth, c)
  {
    hide Below;
    hide Minus;
    hide RemoveAt;
    var gone := Subtree(v.parent, depth, live, d);
    MinusMember(live, gone, c);
    assert Hangs(v, live, kids, depth, d);
    BelowSelf(v.parent, depth, d);
    StaysWithParent(v, root, live, kids, depth, d, c);
    assert Hangs(v, live, kids, depth, c);
    if v.parent[c] >= 0 {
      MinusMember(live, gone, v.parent[c]);
    }
    assert ListOk(v, root, v.parent[d], kids[v.parent[d]]);
    RemoveAtMember(kids[v.parent[d]], k, c);
  }

  lemma PrunedMember(v: Fields, root: int, live: seq<nat>, kids: Kids, depth: seq<nat>, d: nat, k: nat, q: int, c: nat)
    requires TreeOk(v, root, live, kids, depth) && d in live && d < |v.parent|
    requires v.parent[d] in kids && k < |kids[v.parent[d]]| && kids[v.parent[d]][k] == d
    requires var gone := Subtree(v.parent, depth, live, d);
             q in Pruned(kids, v.parent[d], k, gone) && c in Pruned(kids, v.parent[d], k, gone)[q]
    ensures c in Minus(live, Subtree(v.parent, depth, live, d))
  {
    hide Below;
    hide Minus;
    hide RemoveAt;
    var gone := Subtree(v.parent, depth, live, d);
    MinusMember(live, gone, c);
    assert ListOk(v, root, v.parent[d], kids[v.parent[d]]) && ListOk(v, root, q, kids[q]);
    RemoveAtMember(kids[v.parent[d]], k, c);
    if c != d {
      StaysWithParent(v, root, live, kids, depth, d, c);
    }
  }

  /** The tree after an entry and all that is below it are gone. */
  lemma TreePruned(v: Fields, root: int, live: seq<nat>, kids: Kids, depth: seq<nat>,
                   v1: Fields, root': int, v2: Fields, d: nat, k: nat)
    requires TreeOk(v, root, live, kids, depth) && d in live && Wide(v, |depth|) && Wide(v2, |depth|)
    requires v.parent[d] in kids && Unlinked(v, root, v1, root', kids[v.parent[d]], d, k)
    requires Removed(v1, v2, Subtree(v.parent, depth, live, d))
    ensures var gone := Subtree(v.parent, depth, live, d);
            TreeOk(v2, root', Minus(live, gone), Pruned(kids, v.parent[d], k, gone), depth)
  {
    hide Below;
    hide Minus;
    hide RemoveAt;
    hide ListOk;
    hide Hangs;
    hide Subtree;
    hide Fnv;
    var gone := Subtree(v.parent, depth, live, d);
    var live' := Minus(live, gone);
    var kids' := Pruned(kids, v.parent[d], k, gone);
    forall x: nat
      ensures x in live' <==> x in live && x !in gone
    {
      MinusMember(live, gone, x);
    }
    forall q | q in kids'
      ensures ListOk(v2, root', q, kids'[q])
    {
      PrunedLists(v, root, live, kids, depth, v1, root', v2, d, k, gone, q);
    }
    forall q, c | q in kids' && c in kids'[q]
      ensures c in live'
    {
      PrunedMember(v, root, live, kids, depth, d, k, q, c);
    }
    forall c | c in live'
      ensures Hangs(v2, live', kids', depth, c) && EntryOk(v2, c)
    {
      PrunedHangs(v, root, live, kids, depth, d, k, c, v2);
      assert EntryOk(v, c);
    }
    forall c, e | c in live' && e in live' && SameKey(v2, c, e)
      ensures c == e
    {
      assert SameKey(v, c, e);
    }
  }

  // The tree with one more entry

  /** From `v` to `v'` slot `d` has been filled in and put at the head of the sibling list of `p`. */
  ghost predicate Filled(v: Fields, root: int, v': Fields, root': int, d: nat, p: int, name: Name, node: nat) {
    && d < |v.parent| && Wide(v, |v.parent|) && Wide(v', |v.parent|) && NONE <= p < |v.parent| && p != d
    && v'.name == v.name[d := name] && v'.node == v.node[d := node] && v'.hash == v.hash[d := Fnv(name)]
    && v'.parent == v.parent[d := p] && v'.sib == v.sib[d := Head(v, root, p)]
    && v'.children == (if p == NONE then v.children[d := NONE] else v.children[d := NONE][p := d])
    && root' == (if p == NONE then d else root)
  }

  lemma FilledList(
    v: Fields, root: int, v': Fields, root': int, d: nat, p: int, name: Name, node: nat, q: int, list: seq<nat>)
    requires Filled(v, root, v', root', d, p, name, node) && ListOk(v, root, q, list) && d !in list
    requires NONE <= q < |v.parent| && q != d
    ensures ListOk(v', root', q, if q == p then [d] + list else list)
  {
    if q == p {
      ChainPush(v.sib, Head(v, root, p), list, d);
    } else {
      ChainFrame(v.sib, v'.sib, Head(v, root, q), list);
    }
  }

  /** The sibling lists with the new entry. */
  ghost function Grafted(kids: Kids, d: nat, p: int): Kids
    requires p in kids
  {
    kids[p := [d] + kids[p]][d := []]
  }

  ghost function Deeper(depth: seq<nat>, d: nat, p: int): seq<nat>
    requires d < |depth|
  {
    depth[d := if 0 <= p < |depth| then depth[p] + 1 else 0]
  }

  lemma FilledHangs(v: Fields, root: int, live: seq<nat>, kids: Kids, depth: seq<nat>,
                    v': Fields, root': int, d: nat, p: int, name: Name, node: nat, c: nat)
    requires TreeOk(v, root, live, kids, depth) && Wide(v, |depth|) && d < |depth| && d !in live && p in kids
    requires Filled(v, root, v', root', d, p, name, node) && (c in live || c == d)
    ensures Hangs(v', live + [d], Grafted(kids, d, p), Deeper(depth, d, p), c)
  {
    if c != d {
      assert Hangs(v, live, kids, depth, c);
    }
  }

  lemma TreeGrafted(v: Fields, root: int, live: seq<nat>, kids: Kids, depth: seq<nat>,
                    v': Fields, root': int, d: nat, p: int, name: Name, node: nat)
    requires TreeOk(v, root, live, kids, depth) && Wide(v, |depth|) && d < |depth| && d !in live && p in kids
    requires Filled(v, root, v', root', d, p, name, node) && node != 0 && 0 < |name| < MAX_NAME
    requires forall c :: c in live && c < |v.parent| && v.parent[c] == p ==> v.name[c] != name
    ensures TreeOk(v', root', live + [d], Grafted(kids, d, p), Deeper(depth, d, p))
  {
    hide ListOk;
    hide Hangs;
    hide Fnv;
    var live', kids', depth' := live + [d], Grafted(kids, d, p), Deeper(depth, d, p);
    forall q | q in kids'
      ensures ListOk(v', root', q, kids'[q])
    {
      if q == d {
        EmptyList(v', root', d);
      } else {
        assert ListOk(v, root, q, kids[q]);
        FilledList(v, root, v', root', d, p, name, node, q, kids[q]);
      }
    }
    forall c | c in live'
      ensures Hangs(v', live', kids', depth', c) && EntryOk(v', c)
    {
      FilledHangs(v, root, live, kids, depth, v', root', d, p, name, node, c);
      if c != d {
        assert EntryOk(v, c);
      }
    }
    forall c, e | c in live' && e in live' && SameKey(v', c, e)
      ensures c == e
    {
      if c != d && e != d {
        assert SameKey(v, c, e);
      }
    }
  }

  lemma EmptyList(v: Fields, root: int, d: nat)
    requires d < |v.children| && v.children[d] == NONE
    ensures ListOk(v, root, d, [])
  {
  }

  // What does not matter to the tree

  lemma TreeFrame(v: Fields, v': Fields, root: int, live: seq<nat>, live': seq<nat>, kids: Kids, depth: seq<nat>)
    requires TreeOk(v, root, live, kids, depth)
    requires v' == v.(prev := v'.prev, next := v'.next, slabNext := v'.slabNext)
    requires forall x: nat :: x in live' <==> x in live
    ensures TreeOk(v', root, live', kids, depth)
  {
    forall q | q in kids
      ensures ListOk(v', root, q, kids[q])
    {
      assert ListOk(v, root, q, kids[q]);
    }
    forall c | c in live'
      ensures Hangs(v', live', kids, depth, c) && EntryOk(v', c)
    {
      assert Hangs(v, live, kids, depth, c) && EntryOk(v, c);
    }
    forall c, e | c in live' && e in live' && SameKey(v', c, e)
      ensures c == e
    {
      assert SameKey(v, c, e);
    }
  }

  lemma TreeNode(v: Fields, root: int, live: seq<nat>, kids: Kids, depth: seq<nat>, d: nat, node: nat)
    requires TreeOk(v, root, live, kids, depth) && d < |v.node| && node != 0
    ensures TreeOk(v.(node := v.node[d := node]), root, live, kids, depth)
  {
    var v' := v.(node := v.node[d := node]);
    forall q | q in kids
      ensures ListOk(v', root, q, kids[q])
    {
      assert ListOk(v, root, q, kids[q]);
    }
    forall c | c in live
      ensures Hangs(v', live, kids, depth, c) && EntryOk(v', c)
    {
      assert Hangs(v, live, kids, depth, c) && EntryOk(v, c);
    }
    forall c, e | c in live && e in live && SameKey(v', c, e)
      ensures c == e
    {
      assert SameKey(v, c, e);
    }
  }

  // Paths

  /** The entry that a path leads to from the root; the root itself for the empty path. */
  ghost predicate Reaches(v: Fields, live: seq<nat>, path: seq<Name>, t: int) {
    if path == [] then t == NONE
    else
      && t >= 0 && t in live && t < |v.name| && t < |v.parent|
      && v.name[t] == path[|path| - 1] && Reaches(v, live, path[..|path| - 1], v.parent[t])
  }

  /** A path leads to one entry at most. */
  lemma {:induction false} ReachesOne(
    v: Fields, root: int, live: seq<nat>, kids: Kids, depth: seq<nat>, path: seq<Name>, a: int, b: int)
    requires TreeOk(v, root, live, kids, depth) && Reaches(v, live, path, a) && Reaches(v, live, path, b)
    ensures a == b
  {
    if path != [] {
      ReachesOne(v, root, live, kids, depth, path[..|path| - 1], v.parent[a], v.parent[b]);
      assert SameKey(v, a, b);
    }
  }

  /** Every entry on the way to an entry is reached by its part of the path. */
  lemma {:induction false} ReachesPrefix(v: Fields, live: seq<nat>, path: seq<Name>, x: int, i: nat) returns (y: int)
    requires Reaches(v, live, path, x) && i <= |path|
    ensures Reaches(v, live, path[..i], y)
  {
    if i == |path| {
      assert path[..i] == path;
      y := x;
    } else {
      y := ReachesPrefix(v, live, path[..|path| - 1], v.parent[x], i);
      assert path[..|path| - 1][..i] == path[..i];
    }
  }

  /** Where a step of the path has no entry, the path has none. */
  lemma DeadEnd(v: Fields, root: int, live: seq<nat>, kids: Kids, depth: seq<nat>, path: seq<Name>, i: nat, p: int)
    requires TreeOk(v, root, live, kids, depth) && i < |path| && Reaches(v, live, path[..i], p)
    requires forall c :: c in live && c < |v.parent| && c < |v.name| && v.parent[c] == p ==> v.name[c] != path[i]
    ensures forall x :: !Reaches(v, live, path, x)
  {
    forall x
      ensures !Reaches(v, live, path, x)
    {
      if Reaches(v, live, path, x) {
        var y := ReachesPrefix(v, live, path, x, i + 1);
        assert path[..i + 1][..i] == path[..i];
        ReachesOne(v, root, live, kids, depth, path[..i], p, v.parent[y]);
      }
    }
  }

  // The entries from the root to an entry

  ghost predicate Ancestry(v: Fields, live: seq<nat>, anc: seq<nat>) {
    (forall a :: a in anc ==> a in live) && forall i: nat :: Leads(v.parent, anc, i, -1)
  }

  ghost function Last(anc: seq<nat>): int {
    At(anc, |anc| - 1)
  }

  lemma AncestryInit(v: Fields, live: seq<nat>, anc: seq<nat>)
    requires Ancestry(v, live, anc) && anc != []
    ensures var c, up := anc[|anc| - 1], anc[..|anc| - 1];
            Ancestry(v, live, up) && c in live && c < |v.parent| && v.parent[c] == Last(up)
    ensures forall a :: a in anc ==> a in anc[..|anc| - 1] || a == anc[|anc| - 1]
  {
    var up := anc[..|anc| - 1];
    assert anc == up + [anc[|anc| - 1]];
    assert Leads(v.parent, anc, |up|, -1);
    forall i: nat
      ensures Leads(v.parent, up, i, -1)
    {
      assert Leads(v.parent, anc, i, -1);
    }
  }

  lemma InTree(v: Fields, root: int, live: seq<nat>, kids: Kids, depth: seq<nat>, c: nat)
    requires TreeOk(v, root, live, kids, depth) && c in live
    ensures c < |depth| == |v.parent|
    ensures v.parent[c] == NONE || (0 <= v.parent[c] < |depth| && depth[c] == depth[v.parent[c]] + 1)
    ensures v.parent[c] == NONE ==> depth[c] == 0
  {
    assert Hangs(v, live, kids, depth, c);
  }

  lemma {:induction false} AncestorsOnly(
    v: Fields, root: int, live: seq<nat>, kids: Kids, depth: seq<nat>, anc: seq<nat>, x: nat)
    requires TreeOk(v, root, live, kids, depth) && Ancestry(v, live, anc) && anc != []
    requires Below(v.parent, depth, anc[|anc| - 1], x)
    ensures x in anc
  {
    hide TreeOk;
    hide Ancestry;
    hide Below;
    var c, up := anc[|anc| - 1], anc[..|anc| - 1];
    AncestryInit(v, live, anc);
    InTree(v, root, live, kids, depth, c);
    if c != x {
      BelowParent(v.parent, depth, c, x);
      AncestorsOnly(v, root, live, kids, depth, up, x);
    }
  }

  lemma {:induction false} BelowAncestor(
    v: Fields, root: int, live: seq<nat>, kids: Kids, depth: seq<nat>, anc: seq<nat>, a: nat, x: nat)
    requires TreeOk(v, root, live, kids, depth) && Ancestry(v, live, anc) && a in anc
    requires Below(v.parent, depth, a, x)
    ensures Below(v.parent, depth, anc[|anc| - 1], x)
  {
    hide TreeOk;
    hide Ancestry;
    hide Below;
    var c, up := anc[|anc| - 1], anc[..|anc| - 1];
    AncestryInit(v, live, anc);
    InTree(v, root, live, kids, depth, c);
    if a in up {
      BelowAncestor(v, root, live, kids, depth, up, a, x);
      if c != x {
        BelowParent(v.parent, depth, c, x);
      } else {
        BelowSelf(v.parent, depth, c);
      }
    }
  }

  /** A child is not among the entries above it. */
  lemma ChildNotAbove(v: Fields, root: int, live: seq<nat>, kids: Kids, depth: seq<nat>, anc: seq<nat>, d: nat)
    requires TreeOk(v, root, live, kids, depth) && Ancestry(v, live, anc)
    requires d in live && d < |v.parent| && v.parent[d] == Last(anc)
    ensures d !in anc
  {
    assert Hangs(v, live, kids, depth, d);
    ParentNotBelow(v, live, kids, depth, d);
    if d in anc {
      BelowSelf(v.parent, depth, d);
      BelowAncestor(v, root, live, kids, depth, anc, d, d);
    }
  }
}
