/**
 The extent tree on disk: reading it, and appending blocks to it. Each method is proved against
 the tree functions of Ext4Extents.
 */
module Ext4Trees {
  import opened Ext4Layout
  import opened Ext4Allocator
  import opened Ext4Extents

  ghost function LeafEntries(view: seq<Block>, b: nat): seq<Extent> {
    if b < |view| && view[b].Leaf? then view[b].entries else []
  }

  /** The tree with the contents its leaves have in `view`. */
  ghost function Load(view: seq<Block>, t: Tree): TreeVal {
    match t
    case Inline(es) => InlineV(es)
    case Index(ls) => IndexV(seq(|ls|, i requires 0 <= i < |ls| => LeafEntries(view, ls[i])))
  }

  function Leaves(t: Tree): set<nat> {
    if t.Index? then set b | b in t.leaves else {}
  }

  ghost predicate LeafOk(geo: Geometry, view: seq<Block>, alloc: set<nat>, b: nat) {
    && b < |view| && b !in geo.fixed && geo.InRange(b) && b in alloc
    && view[b].Leaf? && view[b].max == geo.LeafMax()
    && |view[b].entries| <= geo.LeafMax() && RunsBounded(view[b].entries)
  }

  ghost predicate TreeOk(geo: Geometry, view: seq<Block>, alloc: set<nat>, t: Tree) {
    match t
    case Inline(es) => |es| <= MAX_INLINE && RunsBounded(es)
    case Index(ls) =>
      && |ls| <= MAX_INLINE
      && (forall i :: 0 <= i < |ls| ==> LeafOk(geo, view, alloc, ls[i]))
      && (forall i, j :: 0 <= i < j < |ls| ==> ls[i] != ls[j])
  }

  /** Files see no difference on `keep` between the two views. */
  ghost predicate Unchanged(view: seq<Block>, view': seq<Block>, keep: set<nat>) {
    && |view| == |view'|
    && forall b :: b in keep && 0 <= b < |view| ==> view'[b] == view[b]
  }

  ghost predicate SameBut(view: seq<Block>, view': seq<Block>, leaf: nat) {
    && |view| == |view'|
    && forall b :: 0 <= b < |view| && b != leaf ==> view'[b] == view[b]
  }

  method ExtentLeafAppend(a: Allocator, leaf: nat, l: nat, p: nat) returns (ok: bool)
    requires a.Valid() && leaf < |a.cache.view| && leaf !in a.geo.fixed
    modifies a.cache, a.cache.slots
    ensures a.Valid()
    ensures var blk := old(a.cache.view)[leaf];
            && ok == (blk.Leaf? && Fits(blk.entries, l, p, blk.max))
            && a.cache.view == if ok then old(a.cache.view)[leaf := Leaf(AppendRun(blk.entries, l, p), blk.max)]
                               else old(a.cache.view)
  {
    hide a.Valid;
    var blk := a.Read(leaf);
    if !blk.Leaf? {
      return false;
    }
    var es := blk.entries;
    if |es| > 0 {
      var last := es[|es| - 1];
      if last.block + last.Len() == l && last.start + last.Len() == p && !last.Unwritten() && last.Len() < MAX_RUN {
        a.Write(leaf, Leaf(es[|es| - 1 := last.(rawLen := last.rawLen + 1)], blk.max));
        return true;
      }
    }
    if |es| >= blk.max {
      return false;
    }
    a.Write(leaf, Leaf(es + [Extent(l, 1, p)], blk.max));
    return true;
  }

  /** An allocated block formatted as an empty leaf, or 0 when there is no free block. */
  method ExtentAllocLeaf(a: Allocator, near: nat) returns (leaf: nat)
    requires a.Valid() && (near > 0 ==> near >= a.geo.firstData)
    modifies a, a.cache, a.cache.slots
    ensures a.Valid()
    ensures leaf == 0 <==> Exhausted(a.geo, old(a.alloc))
    ensures a.geo.groups > 0 && a.geo.perGroup > 0 && leaf == Pick(a.geo, old(a.alloc), near)
    ensures leaf == 0 ==> a.alloc == old(a.alloc) && a.cache.view == old(a.cache.view)
    ensures leaf != 0 ==> leaf !in old(a.alloc) && a.alloc == old(a.alloc) + {leaf}
    ensures leaf != 0 ==> LeafOk(a.geo, a.cache.view, a.alloc, leaf) && a.cache.view[leaf].entries == []
    ensures leaf != 0 ==> Residual(a.geo, a.alloc, a.geo.groups) == Residual(a.geo, old(a.alloc), a.geo.groups) - 1
    ensures Unchanged(old(a.cache.view), a.cache.view, old(a.alloc) - a.geo.fixed)
  {
    hide Residual;
    hide Pick;
    leaf := a.AllocBlock(near);
    if leaf != 0 {
      a.Write(leaf, Leaf([], a.geo.LeafMax()));
    }
  }

  /** Copies one inline extent into a leaf, block by block, so that runs merge again. */
  method CopyExtent(a: Allocator, leaf: nat, e: Extent)
    requires a.Valid() && LeafOk(a.geo, a.cache.view, a.alloc, leaf)
    requires e.Len() <= MAX_RUN && |a.cache.view[leaf].entries| < a.geo.LeafMax()
    modifies a.cache, a.cache.slots
    ensures a.Valid() && LeafOk(a.geo, a.cache.view, a.alloc, leaf)
    ensures a.cache.view[leaf].entries == PackFrom(old(a.cache.view)[leaf].entries, Run(e))
    ensures SameBut(old(a.cache.view), a.cache.view, leaf)
  {
    hide a.Valid;
    hide Grown;
    ghost var es0 := a.cache.view[leaf].entries;
    GrownEnds(es0, e);
    for b := 0 to e.Len()
      invariant a.Valid() && LeafOk(a.geo, a.cache.view, a.alloc, leaf)
      invariant a.cache.view[leaf].entries == Grown(es0, e, b)
      invariant SameBut(old(a.cache.view), a.cache.view, leaf)
    {
      GrownStep(es0, e, b, a.geo.LeafMax());
      var ok := ExtentLeafAppend(a, leaf, e.block + b, e.start + b);
    }
  }

  /** `es` after the first `b` blocks of `e` have been added. */
  ghost function Grown(es: seq<Extent>, e: Extent, b: nat): seq<Extent>
    requires b <= e.Len()
  {
    PackFrom(es, Run(e)[..b])
  }

  lemma GrownEnds(es: seq<Extent>, e: Extent)
    ensures Grown(es, e, 0) == es && Grown(es, e, e.Len()) == PackFrom(es, Run(e))
  {
    assert Run(e)[..e.Len()] == Run(e);
  }

  lemma GrownStep(es: seq<Extent>, e: Extent, b: nat, max: nat)
    requires b < e.Len() <= MAX_RUN && |es| < max
    ensures Fits(Grown(es, e, b), e.block + b, e.start + b, max)
    ensures Grown(es, e, b + 1) == AppendRun(Grown(es, e, b), e.block + b, e.start + b)
    ensures |Grown(es, e, b + 1)| <= max
    ensures RunsBounded(Grown(es, e, b)) ==> RunsBounded(Grown(es, e, b + 1))
  {
    PackRunShape(es, e, b + 1);
    var ps := Run(e)[..b + 1];
    assert ps[..b] == Run(e)[..b];
    assert ps[b] == (e.block + b, e.start + b);
    AppendBounded(Grown(es, e, b), e.block + b, e.start + b);
  }

  lemma AppendBounded(es: seq<Extent>, l: nat, p: nat)
    ensures RunsBounded(es) ==> RunsBounded(AppendRun(es, l, p))
    ensures |AppendRun(es, l, p)| <= |es| + 1
  {
  }

  lemma PackExtentStep(es: seq<Extent>, i: nat)
    requires i < |es| && RunsBounded(es)
    ensures PackFrom(Pack(Flat(es[..i])), Run(es[i])) == Pack(Flat(es[..i + 1]))
    ensures |Pack(Flat(es[..i + 1]))| <= |Pack(Flat(es[..i]))| + 1
  {
    PackFromConcat([], Flat(es[..i]), Run(es[i]));
    PackRunBound(Pack(Flat(es[..i])), es[i]);
    assert es[..i + 1][..i] == es[..i];
  }

  /** Copies inline extents into an empty leaf. */
  method CopyAll(a: Allocator, leaf: nat, es: seq<Extent>)
    requires a.Valid() && LeafOk(a.geo, a.cache.view, a.alloc, leaf) && a.cache.view[leaf].entries == []
    requires |es| <= MAX_INLINE < a.geo.LeafMax() && RunsBounded(es)
    modifies a.cache, a.cache.slots
    ensures a.Valid() && LeafOk(a.geo, a.cache.view, a.alloc, leaf)
    ensures a.cache.view[leaf].entries == Pack(Flat(es)) && |Pack(Flat(es))| <= |es|
    ensures SameBut(old(a.cache.view), a.cache.view, leaf)
  {
    hide a.Valid;
    hide Pack;
    PackNil();
    for i := 0 to |es|
      invariant a.Valid() && LeafOk(a.geo, a.cache.view, a.alloc, leaf)
      invariant a.cache.view[leaf].entries == Pack(Flat(es[..i])) && |Pack(Flat(es[..i]))| <= i
      invariant SameBut(old(a.cache.view), a.cache.view, leaf)
    {
      PackExtentStep(es, i);
      CopyExtent(a, leaf, es[i]);
    }
    assert es[..|es|] == es;
  }

  lemma PackNil()
    ensures Pack([]) == []
  {
  }

  /** Moves full inline entries to a new leaf and appends there. */
  method Promote(a: Allocator, es: seq<Extent>, l: nat, p: nat) returns (leaf: nat)
    requires a.Valid() && |es| <= MAX_INLINE && RunsBounded(es) && p >= a.geo.firstData
    modifies a, a.cache, a.cache.slots
    ensures a.Valid()
    ensures leaf == 0 <==> Exhausted(a.geo, old(a.alloc))
    ensures a.geo.groups > 0 && a.geo.perGroup > 0 && leaf == Pick(a.geo, old(a.alloc), p)
    ensures leaf == 0 ==> a.alloc == old(a.alloc)
    ensures leaf != 0 ==> leaf !in old(a.alloc) && a.alloc == old(a.alloc) + {leaf}
    ensures leaf != 0 ==> Residual(a.geo, a.alloc, a.geo.groups) == Residual(a.geo, old(a.alloc), a.geo.groups) - 1
    ensures leaf != 0 ==> LeafOk(a.geo, a.cache.view, a.alloc, leaf)
    ensures leaf != 0 ==> a.cache.view[leaf].entries == AppendRun(Pack(Flat(es)), l, p)
    ensures Unchanged(old(a.cache.view), a.cache.view, old(a.alloc) - a.geo.fixed)
  {
    hide Pack;
    hide AppendRun;
    hide Residual;
    hide Pick;
    leaf := ExtentAllocLeaf(a, p);
    if leaf == 0 {
      return;
    }
    CopyAll(a, leaf, es);
    AppendBounded(Pack(Flat(es)), l, p);
    var ok := ExtentLeafAppend(a, leaf, l, p);
  }

  /** What an append does to the tree `t` and to the device. */
  ghost predicate Appended(
    geo: Geometry, view: seq<Block>, alloc: set<nat>, t: Tree, l: nat, p: nat,
    view': seq<Block>, alloc': set<nat>, t': Tree)
  {
    && TreeOk(geo, view', alloc', t')
    && AppendTree(Load(view, t), l, p, geo.LeafMax()) == Some(Load(view', t'))
    && alloc' == alloc + Leaves(t') && alloc * Leaves(t') == Leaves(t)
    && Unchanged(view, view', alloc - geo.fixed - Leaves(t))
  }

  lemma LastLeafAppended(geo: Geometry, view: seq<Block>, alloc: set<nat>, ls: seq<nat>, l: nat, p: nat)
    requires TreeOk(geo, view, alloc, Index(ls)) && ls != []
    requires Fits(view[ls[|ls| - 1]].entries, l, p, geo.LeafMax())
    ensures var b := ls[|ls| - 1];
            var view' := view[b := Leaf(AppendRun(view[b].entries, l, p), geo.LeafMax())];
            Appended(geo, view, alloc, Index(ls), l, p, view', alloc, Index(ls))
  {
    var k := |ls| - 1;
    var es := AppendRun(view[ls[k]].entries, l, p);
    var view' := view[ls[k] := Leaf(es, geo.LeafMax())];
    AppendBounded(view[ls[k]].entries, l, p);
    assert LeafOk(geo, view, alloc, ls[k]);
    var tv := Load(view, Index(ls));
    assert Load(view', Index(ls)).ls == tv.ls[k := es];
    assert alloc + Leaves(Index(ls)) == alloc;
    assert alloc * Leaves(Index(ls)) == Leaves(Index(ls));
  }

  lemma LoadFrame(view: seq<Block>, view': seq<Block>, t: Tree)
    requires Unchanged(view, view', Leaves(t))
    ensures Load(view', t) == Load(view, t)
  {
    if t.Index? {
      assert Load(view', t).ls == Load(view, t).ls;
    }
  }

  lemma NewLeafAppended(
    geo: Geometry, view: seq<Block>, alloc: set<nat>, ls: seq<nat>, l: nat, p: nat, view': seq<Block>, leaf: nat)
    requires TreeOk(geo, view, alloc, Index(ls)) && |ls| < MAX_INLINE
    requires ls == [] || !Fits(view[ls[|ls| - 1]].entries, l, p, geo.LeafMax())
    requires leaf !in alloc && LeafOk(geo, view', alloc + {leaf}, leaf) && view'[leaf].entries == [Extent(l, 1, p)]
    requires Unchanged(view, view', alloc - geo.fixed)
    ensures Appended(geo, view, alloc, Index(ls), l, p, view', alloc + {leaf}, Index(ls + [leaf]))
  {
    var ls' := ls + [leaf];
    var tv := Load(view, Index(ls));
    assert Load(view', Index(ls')).ls == tv.ls + [[Extent(l, 1, p)]];
    assert Leaves(Index(ls')) == Leaves(Index(ls)) + {leaf};
    assert forall i :: 0 <= i < |ls| ==> LeafOk(geo, view, alloc, ls[i]);
  }

  lemma PromotedAppended(
    geo: Geometry, view: seq<Block>, alloc: set<nat>, es: seq<Extent>, l: nat, p: nat, view': seq<Block>, leaf: nat)
    requires !Fits(es, l, p, MAX_INLINE)
    requires leaf !in alloc && LeafOk(geo, view', alloc + {leaf}, leaf)
    requires view'[leaf].entries == AppendRun(Pack(Flat(es)), l, p)
    requires Unchanged(view, view', alloc - geo.fixed)
    ensures Appended(geo, view, alloc, Inline(es), l, p, view', alloc + {leaf}, Index([leaf]))
  {
    assert Load(view', Index([leaf])).ls == [view'[leaf].entries];
    assert Leaves(Index([leaf])) == {leaf};
  }

  /** The tree has room for an entry and, if it needs a leaf for it, the allocator finds a block. */
  ghost predicate Takes(geo: Geometry, alloc: set<nat>, tv: TreeVal, l: nat, p: nat) {
    && AppendTree(tv, l, p, geo.LeafMax()).Some?
    && (NeedsLeaf(tv, l, p, geo.LeafMax()) ==> !Exhausted(geo, alloc))
  }

  ghost predicate Answers(view: seq<Block>, alloc: set<nat>, geo: Geometry, t: Tree, l: nat, p: nat, ok: bool) {
    ok <==> Takes(geo, alloc, Load(view, t), l, p)
  }

  /** The leaf that an append takes, if it needs one. */
  ghost function LeafFor(geo: Geometry, alloc: set<nat>, tv: TreeVal, l: nat, p: nat): set<nat>
    requires geo.groups > 0 && geo.perGroup > 0
  {
    if NeedsLeaf(tv, l, p, geo.LeafMax()) then {Pick(geo, alloc, p)} else {}
  }

  /** What the append has used up: a leaf if it needed one, and so many of the blocks that are sure to be found. */
  ghost predicate Drawn(view: seq<Block>, alloc: set<nat>, geo: Geometry, t: Tree, l: nat, p: nat, alloc': set<nat>) {
    && Residual(geo, alloc', geo.groups) ==
       Residual(geo, alloc, geo.groups) - (if NeedsLeaf(Load(view, t), l, p, geo.LeafMax()) then 1 else 0)
    && geo.groups > 0 && geo.perGroup > 0
    && alloc' == alloc + LeafFor(geo, alloc, Load(view, t), l, p)
  }

  lemma LastLeafTaken(geo: Geometry, view: seq<Block>, alloc: set<nat>, ls: seq<nat>, l: nat, p: nat)
    requires ls != [] && Fits(LeafEntries(view, ls[|ls| - 1]), l, p, geo.LeafMax())
    requires geo.groups > 0 && geo.perGroup > 0
    ensures Answers(view, alloc, geo, Index(ls), l, p, true) && Drawn(view, alloc, geo, Index(ls), l, p, alloc)
  {
    hide Residual;
    assert alloc + {} == alloc;
  }

  lemma NewLeafTaken(geo: Geometry, view: seq<Block>, alloc: set<nat>, ls: seq<nat>, l: nat, p: nat, alloc': set<nat>)
    requires ls == [] || !Fits(LeafEntries(view, ls[|ls| - 1]), l, p, geo.LeafMax())
    requires geo.groups > 0 && geo.perGroup > 0
    ensures |ls| >= MAX_INLINE ==> Answers(view, alloc, geo, Index(ls), l, p, false)
    ensures |ls| < MAX_INLINE ==> Answers(view, alloc, geo, Index(ls), l, p, !Exhausted(geo, alloc))
    ensures |ls| < MAX_INLINE && alloc' == alloc + {Pick(geo, alloc, p)}
            && Residual(geo, alloc', geo.groups) == Residual(geo, alloc, geo.groups) - 1 ==>
              Drawn(view, alloc, geo, Index(ls), l, p, alloc')
  {
    hide Residual;
    hide Exhausted;
    hide Pick;
  }

  /** Depth 1, the last leaf being full: a new leaf, if the root has room for it and a block is found. */
  method AppendNewLeaf(a: Allocator, ls: seq<nat>, l: nat, p: nat) returns (ok: bool, ls': seq<nat>)
    requires a.Valid() && TreeOk(a.geo, a.cache.view, a.alloc, Index(ls)) && p >= a.geo.firstData
    requires ls == [] || !Fits(LeafEntries(a.cache.view, ls[|ls| - 1]), l, p, a.geo.LeafMax())
    modifies a, a.cache, a.cache.slots
    ensures a.Valid()
    ensures ok ==> Appended(a.geo, old(a.cache.view), old(a.alloc), Index(ls), l, p, a.cache.view, a.alloc, Index(ls'))
    ensures !ok ==> ls' == ls && a.alloc == old(a.alloc) && a.cache.view == old(a.cache.view)
    ensures Answers(old(a.cache.view), old(a.alloc), a.geo, Index(ls), l, p, ok)
    ensures ok ==> Drawn(old(a.cache.view), old(a.alloc), a.geo, Index(ls), l, p, a.alloc)
  {
    hide a.Valid;
    hide a.geo.Ok;
    hide Residual;
    hide Pick;
    hide Appended;
    hide Drawn;
    hide Answers;
    hide Exhausted;
    a.Facts();
    ghost var view, alloc := a.cache.view, a.alloc;
    NewLeafTaken(a.geo, view, alloc, ls, l, p, alloc);
    ok, ls' := false, ls;
    if |ls| < MAX_INLINE {
      var leaf := ExtentAllocLeaf(a, p);
      if leaf != 0 {
        ok := ExtentLeafAppend(a, leaf, l, p);
        NewLeafAppended(a.geo, view, alloc, ls, l, p, a.cache.view, leaf);
        NewLeafTaken(a.geo, view, alloc, ls, l, p, a.alloc);
        ls' := ls + [leaf];
      }
    }
  }

  /** Depth 1: the last leaf, or else a new one. */
  method AppendIndexed(a: Allocator, ls: seq<nat>, l: nat, p: nat) returns (ok: bool, ls': seq<nat>)
    requires a.Valid() && TreeOk(a.geo, a.cache.view, a.alloc, Index(ls)) && p >= a.geo.firstData
    modifies a, a.cache, a.cache.slots
    ensures a.Valid()
    ensures ok ==> Appended(a.geo, old(a.cache.view), old(a.alloc), Index(ls), l, p, a.cache.view, a.alloc, Index(ls'))
    ensures !ok ==> ls' == ls && a.alloc == old(a.alloc) && a.cache.view == old(a.cache.view)
    ensures Answers(old(a.cache.view), old(a.alloc), a.geo, Index(ls), l, p, ok)
    ensures ok ==> Drawn(old(a.cache.view), old(a.alloc), a.geo, Index(ls), l, p, a.alloc)
  {
    hide a.Valid;
    hide a.geo.Ok;
    hide Appended;
    hide Drawn;
    hide Answers;
    a.Facts();
    ghost var view, alloc := a.cache.view, a.alloc;
    if |ls| > 0 {
      assert LeafOk(a.geo, view, alloc, ls[|ls| - 1]);
      ok := ExtentLeafAppend(a, ls[|ls| - 1], l, p);
      if ok {
        LastLeafAppended(a.geo, view, alloc, ls, l, p);
        LastLeafTaken(a.geo, view, alloc, ls, l, p);
        return true, ls;
      }
    }
    ok, ls' := AppendNewLeaf(a, ls, l, p);
  }

  lemma InlineAppended(geo: Geometry, view: seq<Block>, alloc: set<nat>, es: seq<Extent>, l: nat, p: nat)
    requires TreeOk(geo, view, alloc, Inline(es)) && Fits(es, l, p, MAX_INLINE)
    requires geo.groups > 0 && geo.perGroup > 0
    ensures Appended(geo, view, alloc, Inline(es), l, p, view, alloc, Inline(AppendRun(es, l, p)))
    ensures Answers(view, alloc, geo, Inline(es), l, p, true) && Drawn(view, alloc, geo, Inline(es), l, p, alloc)
  {
    hide Residual;
    AppendBounded(es, l, p);
    assert alloc + {} == alloc;
  }

  lemma PromotedTaken(
    geo: Geometry, view: seq<Block>, alloc: set<nat>, es: seq<Extent>, l: nat, p: nat, alloc': set<nat>)
    requires !Fits(es, l, p, MAX_INLINE) && geo.groups > 0 && geo.perGroup > 0
    ensures Answers(view, alloc, geo, Inline(es), l, p, !Exhausted(geo, alloc))
    ensures alloc' == alloc + {Pick(geo, alloc, p)}
            && Residual(geo, alloc', geo.groups) == Residual(geo, alloc, geo.groups) - 1 ==>
              Drawn(view, alloc, geo, Inline(es), l, p, alloc')
  {
    hide Residual;
    hide Exhausted;
    hide Pick;
  }

  /** Depth 0: the last run grows, a run is added, or all entries move to a leaf. */
  method AppendInline(a: Allocator, es: seq<Extent>, l: nat, p: nat) returns (ok: bool, t': Tree)
    requires a.Valid() && TreeOk(a.geo, a.cache.view, a.alloc, Inline(es)) && p >= a.geo.firstData
    modifies a, a.cache, a.cache.slots
    ensures a.Valid()
    ensures ok ==> Appended(a.geo, old(a.cache.view), old(a.alloc), Inline(es), l, p, a.cache.view, a.alloc, t')
    ensures !ok ==> t' == Inline(es) && a.alloc == old(a.alloc)
    ensures !ok ==> Unchanged(old(a.cache.view), a.cache.view, old(a.alloc) - a.geo.fixed)
    ensures Answers(old(a.cache.view), old(a.alloc), a.geo, Inline(es), l, p, ok)
    ensures ok ==> Drawn(old(a.cache.view), old(a.alloc), a.geo, Inline(es), l, p, a.alloc)
  {
    hide a.Valid;
    hide a.geo.Ok;
    hide Residual;
    hide Pick;
    hide Appended;
    hide Drawn;
    hide Answers;
    hide Exhausted;
    a.Facts();
    ghost var view, alloc := a.cache.view, a.alloc;
    if |es| > 0 {
      var last := es[|es| - 1];
      if last.block + last.Len() == l && last.start + last.Len() == p && !last.Unwritten() && last.Len() < MAX_RUN {
        InlineAppended(a.geo, view, alloc, es, l, p);
        return true, Inline(es[|es| - 1 := last.(rawLen := last.rawLen + 1)]);
      }
    }
    if |es| < MAX_INLINE {
      InlineAppended(a.geo, view, alloc, es, l, p);
      return true, Inline(es + [Extent(l, 1, p)]);
    }
    PromotedTaken(a.geo, view, alloc, es, l, p, alloc);
    var leaf := Promote(a, es, l, p);
    if leaf == 0 {
      return false, Inline(es);
    }
    PromotedAppended(a.geo, view, alloc, es, l, p, a.cache.view, leaf);
    PromotedTaken(a.geo, view, alloc, es, l, p, a.alloc);
    return true, Index([leaf]);
  }

  method ExtentTreeAppend(a: Allocator, t: Tree, l: nat, p: nat) returns (ok: bool, t': Tree)
    requires a.Valid() && TreeOk(a.geo, a.cache.view, a.alloc, t) && p >= a.geo.firstData
    modifies a, a.cache, a.cache.slots
    ensures a.Valid()
    ensures ok ==> Appended(a.geo, old(a.cache.view), old(a.alloc), t, l, p, a.cache.view, a.alloc, t')
    ensures !ok ==> t' == t && a.alloc == old(a.alloc)
    ensures !ok ==> Unchanged(old(a.cache.view), a.cache.view, old(a.alloc) - a.geo.fixed)
    ensures Answers(old(a.cache.view), old(a.alloc), a.geo, t, l, p, ok)
    ensures ok ==> Drawn(old(a.cache.view), old(a.alloc), a.geo, t, l, p, a.alloc)
  {
    hide a.Valid;
    hide TreeOk;
    hide Appended;
    hide Drawn;
    hide Answers;
    match t
    case Index(ls) =>
      var ls';
      ok, ls' := AppendIndexed(a, ls, l, p);
      t' := Index(ls');
    case Inline(es) =>
      ok, t' := AppendInline(a, es, l, p);
  }

  /** The entries of one node, decoded onto the end of a list. */
  method ParseEntries(es: seq<Extent>, acc: seq<Extent>) returns (ms: seq<Extent>)
    ensures ms == acc + Decode(es)
  {
    ms := acc;
    for i := 0 to |es|
      invariant ms == acc + Decode(es[..i])
    {
      assert es[..i + 1][..i] == es[..i];
      var len := es[i].Len();
      if len != 0 {
        ms := ms + [Extent(es[i].block, len, es[i].start)];
      }
    }
    assert es[..|es|] == es;
  }

  /** parse_extents_raw */
  method ParseExtents(a: Allocator, t: Tree) returns (ms: seq<Extent>)
    requires a.Valid() && TreeOk(a.geo, a.cache.view, a.alloc, t)
    modifies a.cache, a.cache.slots
    ensures a.Valid() && a.cache.view == old(a.cache.view)
    ensures ms == Decode(Entries(Load(a.cache.view, t)))
  {
    hide a.Valid;
    match t
    case Inline(es) =>
      ms := ParseEntries(es, []);
    case Index(ls) =>
      ghost var lv := Load(a.cache.view, t).ls;
      ms := [];
      for i := 0 to |ls|
        invariant a.Valid() && a.cache.view == old(a.cache.view)
        invariant ms == Decode(Concat(lv[..i]))
      {
        assert LeafOk(a.geo, a.cache.view, a.alloc, ls[i]);
        var blk := a.Read(ls[i]);
        ms := ParseEntries(blk.entries, ms);
        assert lv[..i + 1] == lv[..i] + [lv[i]];
        ConcatLast(lv[..i], lv[i]);
        DecodeConcat(Concat(lv[..i]), lv[i]);
      }
      assert lv[..|ls|] == lv;
  }

  lemma {:induction false} ConcatBounded(ls: seq<seq<Extent>>)
    requires forall i :: 0 <= i < |ls| ==> RunsBounded(ls[i])
    ensures RunsBounded(Concat(ls))
  {
    if ls != [] {
      ConcatBounded(ls[..|ls| - 1]);
    }
  }

  lemma EntriesBounded(geo: Geometry, view: seq<Block>, alloc: set<nat>, t: Tree)
    requires TreeOk(geo, view, alloc, t)
    ensures RunsBounded(Entries(Load(view, t)))
  {
    if t.Index? {
      forall i | 0 <= i < |t.leaves|
        ensures RunsBounded(LeafEntries(view, t.leaves[i]))
      {
        assert LeafOk(geo, view, alloc, t.leaves[i]);
      }
      ConcatBounded(Load(view, t).ls);
    }
  }
}
