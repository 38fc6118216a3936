/**
 Truncation at the level of trees: the blocks past the end and all leaves are freed, and the tree
 is built again from the blocks that stay. It never needs more leaves than were just freed, so on a
 volume whose groups have less than 65536 blocks the rebuild cannot fail. On larger groups a count
 may wrap to 0 when a block is freed; what the rebuild then keeps is exactly `Survivors`.
 */
module Ext4Rebuild {
  import opened Ext4Layout
  import opened Ext4Allocator
  import opened Ext4Extents
  import opened Ext4Trees
  import opened Ext4Ownership
  import opened Ext4Content
  import opened Ext4Edits

  /** The physical blocks of the pairs at or past logical block `n`. */
  ghost function PhysFrom(ps: seq<Pair>, n: nat): set<nat> {
    set q | q in ps && q.0 >= n :: q.1
  }

  ghost predicate Freeable(geo: Geometry, view: seq<Block>, bs: set<nat>) {
    forall b :: b in bs ==> geo.InRange(b) && b !in geo.fixed && b < |view|
  }

  /** Frees the blocks of one parsed extent that lie at or past logical block `n`. */
  method FreeExtentFrom(a: Allocator, e: Extent, n: nat)
    requires a.Valid() && Freeable(a.geo, a.cache.view, Phys(Run(e)))
    modifies a, a.cache, a.cache.slots
    ensures a.Valid() && SameFiles(a.geo, old(a.cache.view), a.cache.view)
    ensures a.alloc == old(a.alloc) - PhysFrom(Run(e), n)
  {
    hide a.Valid;
    for i := 0 to e.Len()
      invariant a.Valid() && SameFiles(a.geo, old(a.cache.view), a.cache.view)
      invariant a.alloc == old(a.alloc) - PhysFrom(Run(e)[..i], n)
    {
      assert Run(e)[i] == (e.block + i, e.start + i);
      assert Run(e)[i] in Run(e);
      assert Run(e)[..i + 1] == Run(e)[..i] + [Run(e)[i]];
      if e.block + i >= n {
        a.FreeBlock(e.start + i);
      }
      PhysFromAppend(Run(e)[..i], Run(e)[i], n);
    }
    assert Run(e)[..e.Len()] == Run(e);
  }

  lemma PhysFromAppend(ps: seq<Pair>, q: Pair, n: nat)
    ensures PhysFrom(ps + [q], n) == PhysFrom(ps, n) + if q.0 >= n then {q.1} else {}
  {
    assert q in ps + [q];
    assert forall r :: r in ps ==> r in ps + [q];
  }

  lemma PhysFromConcat(a: seq<Pair>, b: seq<Pair>, n: nat)
    ensures PhysFrom(a + b, n) == PhysFrom(a, n) + PhysFrom(b, n)
  {
    assert forall r :: r in a || r in b <==> r in a + b;
  }

  /** Frees the blocks of a parsed file that lie at or past logical block `n`. */
  method FreeFrom(a: Allocator, ms: seq<Extent>, n: nat)
    requires a.Valid() && Freeable(a.geo, a.cache.view, Phys(Flat(ms)))
    modifies a, a.cache, a.cache.slots
    ensures a.Valid() && SameFiles(a.geo, old(a.cache.view), a.cache.view)
    ensures a.alloc == old(a.alloc) - PhysFrom(Flat(ms), n)
  {
    hide a.Valid;
    hide Run;
    for i := 0 to |ms|
      invariant a.Valid() && SameFiles(a.geo, old(a.cache.view), a.cache.view)
      invariant a.alloc == old(a.alloc) - PhysFrom(Flat(ms[..i]), n)
    {
      assert ms[..i + 1][..i] == ms[..i];
      RunInFlat(ms, i);
      FreeExtentFrom(a, ms[i], n);
      PhysFromConcat(Flat(ms[..i]), Run(ms[i]), n);
    }
    assert ms[..|ms|] == ms;
  }

  lemma RunInFlat(ms: seq<Extent>, i: nat)
    requires i < |ms|
    ensures Phys(Run(ms[i])) <= Phys(Flat(ms))
  {
    forall q | q in Run(ms[i])
      ensures q in Flat(ms)
    {
      FlatMember(ms, q);
    }
  }

  /** Frees the leaves of a tree. */
  method FreeLeaves(a: Allocator, t: Tree)
    requires a.Valid() && Freeable(a.geo, a.cache.view, Leaves(t))
    modifies a, a.cache, a.cache.slots
    ensures a.Valid() && SameFiles(a.geo, old(a.cache.view), a.cache.view)
    ensures a.alloc == old(a.alloc) - Leaves(t)
  {
    hide a.Valid;
    if t.Index? {
      for i := 0 to |t.leaves|
        invariant a.Valid() && SameFiles(a.geo, old(a.cache.view), a.cache.view)
        invariant a.alloc == old(a.alloc) - set b | b in t.leaves[..i]
      {
        a.FreeBlock(t.leaves[i]);
        assert t.leaves[..i + 1] == t.leaves[..i] + [t.leaves[i]];
      }
      assert t.leaves[..|t.leaves|] == t.leaves;
    }
  }

  // The rebuild

  /** `t` holds the pairs `done`, packed; beyond the blocks `base` only its leaves are allocated. */
  ghost predicate Rebuilding(
    geo: Geometry, view0: seq<Block>, base: set<nat>, view: seq<Block>, alloc: set<nat>, t: Tree, done: seq<Pair>)
  {
    && TreeOk(geo, view, alloc, t)
    && Packed(Load(view, t), Pack(done), geo.LeafMax())
    && Pairs(view, t) == done
    && alloc == base + Leaves(t) && base !! Leaves(t)
    && Unchanged(view0, view, base - geo.fixed)
    && Residual(geo, alloc, geo.groups) + LeafCount(Load(view, t)) == Residual(geo, base, geo.groups)
  }

  /** How many leaves a rebuild can have: no more than the root can point to, and than can be found. */
  ghost function Budget(geo: Geometry, base: set<nat>): nat {
    if Residual(geo, base, geo.groups) < MAX_INLINE then Residual(geo, base, geo.groups) else MAX_INLINE
  }

  /** The rebuild after the pairs `seen`: `t` holds those of them that could be added. */
  ghost predicate Rebuilt(
    geo: Geometry, view0: seq<Block>, base: set<nat>, view: seq<Block>, alloc: set<nat>, t: Tree, seen: seq<Pair>)
  {
    geo.LeafMax() > 0 && Rebuilding(geo, view0, base, view, alloc, t, Fitting(seen, Budget(geo, base), geo.LeafMax()))
  }

  lemma RebuildStep(
    geo: Geometry, view0: seq<Block>, base: set<nat>, view: seq<Block>, alloc: set<nat>, t: Tree, done: seq<Pair>,
    l: nat, p: nat, view': seq<Block>, alloc': set<nat>, t': Tree)
    requires geo.LeafMax() > MAX_INLINE && Rebuilding(geo, view0, base, view, alloc, t, done)
    requires Appended(geo, view, alloc, t, l, p, view', alloc', t') && Drawn(view, alloc, geo, t, l, p, alloc')
    ensures Rebuilding(geo, view0, base, view', alloc', t', done + [(l, p)])
  {
    hide TreeOk;
    hide Pack;
    hide Load;
    hide AppendTree;
    hide NeedsLeaf;
    hide LeafNeed;
    hide Packed;
    hide Residual;
    AppendNeed(Load(view, t), done, l, p, geo.LeafMax());
    AppendTreeFlat(Load(view, t), l, p, geo.LeafMax());
    assert alloc' == base + Leaves(t');
  }

  /** An append that fails leaves the rebuild where it was. */
  lemma RebuildFrame(
    geo: Geometry, view0: seq<Block>, base: set<nat>, view: seq<Block>, alloc: set<nat>, t: Tree, done: seq<Pair>,
    view': seq<Block>)
    requires Rebuilding(geo, view0, base, view, alloc, t, done) && Unchanged(view, view', alloc - geo.fixed)
    ensures Rebuilding(geo, view0, base, view', alloc, t, done)
  {
    hide Pack;
    hide Packed;
    hide Residual;
    if t.Index? {
      forall i | 0 <= i < |t.leaves|
        ensures LeafOk(geo, view', alloc, t.leaves[i])
      {
        assert LeafOk(geo, view, alloc, t.leaves[i]);
      }
    }
    LoadFrame(view, view', t);
  }

  /** An append of the rebuild succeeds exactly when the entries so far and this one need no leaf too many. */
  lemma RebuildTaken(
    geo: Geometry, view0: seq<Block>, base: set<nat>, view: seq<Block>, alloc: set<nat>, t: Tree, done: seq<Pair>,
    l: nat, p: nat, ok: bool)
    requires geo.LeafMax() > MAX_INLINE && Rebuilding(geo, view0, base, view, alloc, t, done)
    requires Answers(view, alloc, geo, t, l, p, ok)
    ensures ok <==> LeafNeed(|Pack(done + [(l, p)])|, geo.LeafMax()) <= Budget(geo, base)
  {
    hide TreeOk;
    hide Pack;
    hide Load;
    hide AppendTree;
    hide NeedsLeaf;
    hide LeafNeed;
    hide Packed;
    hide Residual;
    AppendNeed(Load(view, t), done, l, p, geo.LeafMax());
    ResidualExhausted(geo, alloc, geo.groups);
  }

  /** How many blocks of a parsed extent lie below logical block `n`. */
  method CountBelow(e: Extent, n: nat) returns (k: nat)
    requires e.Len() <= MAX_RUN
    ensures k == Cut(e, n).Len()
  {
    k := 0;
    for i := 0 to e.Len()
      invariant k == if n <= e.block then 0 else if n - e.block < i then n - e.block else i
    {
      if e.block + i < n {
        k := k + 1;
      }
    }
  }

  /** Appends the blocks of one parsed extent that lie below logical block `n`. */
  method AppendBelow(
    a: Allocator, ghost view0: seq<Block>, ghost base: set<nat>, t: Tree, ghost seen: seq<Pair>, e: Extent, n: nat)
    returns (t': Tree)
    requires a.Valid() && e.Len() <= MAX_RUN && e.start >= a.geo.firstData
    requires Rebuilt(a.geo, view0, base, a.cache.view, a.alloc, t, seen)
    modifies a, a.cache, a.cache.slots
    ensures a.Valid() && Rebuilt(a.geo, view0, base, a.cache.view, a.alloc, t', seen + Run(Cut(e, n)))
  {
    hide a.Valid;
    hide Rebuilt;
    t' := t;
    var surviving := CountBelow(e, n);
    ghost var run := Run(Cut(e, n));
    assert seen + run[..0] == seen;
    for i := 0 to surviving
      invariant a.Valid() && Rebuilt(a.geo, view0, base, a.cache.view, a.alloc, t', seen + run[..i])
    {
      assert seen + run[..i] + [(e.block + i, e.start + i)] == seen + run[..i + 1];
      t' := AppendOne(a, view0, base, t', seen + run[..i], e.block + i, e.start + i);
    }
    assert run[..surviving] == run;
  }

  /** One append of the rebuild. Its result is not looked at. */
  method AppendOne(
    a: Allocator, ghost view0: seq<Block>, ghost base: set<nat>, t: Tree, ghost seen: seq<Pair>, l: nat, p: nat)
    returns (t': Tree)
    requires a.Valid() && p >= a.geo.firstData
    requires Rebuilt(a.geo, view0, base, a.cache.view, a.alloc, t, seen)
    modifies a, a.cache, a.cache.slots
    ensures a.Valid() && Rebuilt(a.geo, view0, base, a.cache.view, a.alloc, t', seen + [(l, p)])
  {
    hide a.Valid;
    hide a.geo.Ok;
    hide Appended;
    hide Drawn;
    hide Answers;
    hide Rebuilding;
    hide Fitting;
    hide Pack;
    hide LeafNeed;
    hide Budget;
    a.Facts();
    ghost var view, alloc := a.cache.view, a.alloc;
    ghost var done := Fitting(seen, Budget(a.geo, base), a.geo.LeafMax());
    RebuildingTree(a.geo, view0, base, view, alloc, t, done);
    FittingSnoc(seen, (l, p), Budget(a.geo, base), a.geo.LeafMax());
    var ok;
    ok, t' := ExtentTreeAppend(a, t, l, p);
    RebuildTaken(a.geo, view0, base, view, alloc, t, done, l, p, ok);
    if ok {
      RebuildStep(a.geo, view0, base, view, alloc, t, done, l, p, a.cache.view, a.alloc, t');
    } else {
      RebuildFrame(a.geo, view0, base, view, alloc, t, done, a.cache.view);
    }
  }

  lemma RebuildingTree(
    geo: Geometry, view0: seq<Block>, base: set<nat>, view: seq<Block>, alloc: set<nat>, t: Tree, done: seq<Pair>)
    requires Rebuilding(geo, view0, base, view, alloc, t, done)
    ensures TreeOk(geo, view, alloc, t) && Pairs(view, t) == done
  {
  }

  /** Builds the tree of the parsed blocks below logical block `n`, starting from an empty root. */
  method Rebuild(
    a: Allocator, ghost base: set<nat>, ms: seq<Extent>, n: nat) returns (t: Tree)
    requires a.Valid() && a.alloc == base && RunsBounded(ms)
    requires forall i :: 0 <= i < |ms| ==> ms[i].start >= a.geo.firstData
    modifies a, a.cache, a.cache.slots
    ensures a.Valid()
    ensures Rebuilt(a.geo, old(a.cache.view), base, a.cache.view, a.alloc, t, Below(Flat(ms), n))
  {
    ghost var view0 := a.cache.view;
    t := Inline([]);
    a.Facts();
    RebuiltEmpty(a.geo, view0, base);
    BelowEmpty(ms, n);
    hide a.Valid;
    hide Rebuilt;
    hide Flat;
    hide Below;
    for i := 0 to |ms|
      invariant a.Valid()
      invariant Rebuilt(a.geo, view0, base, a.cache.view, a.alloc, t, Below(Flat(ms[..i]), n))
    {
      BelowStep(ms, i, n);
      t := AppendBelow(a, view0, base, t, Below(Flat(ms[..i]), n), ms[i], n);
    }
    assert ms[..|ms|] == ms;
  }

  lemma RebuiltEmpty(geo: Geometry, view: seq<Block>, base: set<nat>)
    requires geo.LeafMax() > 0
    ensures Rebuilt(geo, view, base, view, base, Inline([]), [])
  {
  }

  lemma BelowEmpty(ms: seq<Extent>, n: nat)
    ensures Below(Flat(ms[..0]), n) == []
  {
  }

  /** The survivors of the first `i + 1` extents: those of the first `i`, then those of extent `i`. */
  lemma BelowStep(ms: seq<Extent>, i: nat, n: nat)
    requires i < |ms| && RunsBounded(ms)
    ensures Below(Flat(ms[..i + 1]), n) == Below(Flat(ms[..i]), n) + Run(Cut(ms[i], n))
  {
    assert ms[..i + 1][..i] == ms[..i];
    BelowConcat(Flat(ms[..i]), Run(ms[i]), n);
    BelowRun(ms[i], n);
  }

  // What a truncation means for the file

  lemma {:induction false} BelowMember(ps: seq<Pair>, n: nat, q: Pair)
    ensures q in Below(ps, n) <==> q in ps && q.0 < n
  {
    if ps != [] {
      var k := |ps| - 1;
      BelowMember(ps[..k], n, q);
      assert ps == ps[..k] + [ps[k]];
    }
  }

  lemma {:induction false} BelowDistinct(ps: seq<Pair>, n: nat)
    requires Distinct(ps)
    ensures Distinct(Below(ps, n))
  {
    if ps != [] {
      var k := |ps| - 1;
      var head := Below(ps[..k], n);
      BelowDistinct(ps[..k], n);
      forall i | 0 <= i < |head|
        ensures head[i].0 != ps[k].0 && head[i].1 != ps[k].1
      {
        BelowMember(ps[..k], n, head[i]);
        assert head[i] in head;
        var j :| 0 <= j < k && ps[j] == head[i];
      }
    }
  }

  lemma {:induction false} LookupBelow(ps: seq<Pair>, n: nat, l: nat)
    ensures Lookup(Below(ps, n), l) == if l < n then Lookup(ps, l) else None
  {
    if ps != [] {
      var k := |ps| - 1;
      LookupBelow(ps[..k], n, l);
      if ps[k].0 < n {
        LookupAppend(Below(ps[..k], n), ps[k].0, ps[k].1, l);
        assert Below(ps, n) == Below(ps[..k], n) + [(ps[k].0, ps[k].1)];
      } else {
        assert Below(ps, n) == Below(ps[..k], n);
      }
    }
  }

  /** The first `n` blocks keep their bytes, and everything past them reads as zero. */
  ghost predicate CutAt(view: seq<Block>, ps: seq<Pair>, view': seq<Block>, ps': seq<Pair>, bsize: nat, n: nat)
    requires bsize > 0
  {
    forall off: nat ::
      Content(view', ps', bsize, off) == if off / bsize < n then Content(view, ps, bsize, off) else 0
  }

  /** What truncation leaves allocated before the rebuild: everybody else's blocks and the survivors. */
  ghost function KeptBlocks(d: Disk, n: nat, keep: nat): set<nat>
    requires n < |d.inodes|
  {
    (d.alloc - d.Mine(n)) + Phys(Below(d.File(n), keep))
  }

  lemma PartitionPhys(ps: seq<Pair>, n: nat)
    requires Distinct(ps)
    ensures Phys(ps) == Phys(Below(ps, n)) + PhysFrom(ps, n)
    ensures Phys(Below(ps, n)) !! PhysFrom(ps, n)
  {
    forall q: Pair
      ensures q in Below(ps, n) <==> q in ps && q.0 < n
    {
      BelowMember(ps, n, q);
    }
    forall q, r | q in ps && r in ps && q.1 == r.1
      ensures q == r
    {
      var i :| 0 <= i < |ps| && ps[i] == q;
      var j :| 0 <= j < |ps| && ps[j] == r;
    }
  }

  lemma KeptAfterFree(d: Disk, n: nat, keep: nat)
    requires Consistent(d) && n in d.live
    ensures d.alloc - PhysFrom(d.File(n), keep) - Leaves(d.inodes[n].tree) == KeptBlocks(d, n, keep)
    ensures Phys(Below(d.File(n), keep)) <= d.Mine(n)
  {
    PartitionPhys(d.File(n), keep);
    DataNotLeaf(d.geo, d.view, d.alloc, d.inodes[n].tree);
    OwnedAlloc(d, n);
  }

  /** The blocks that stay need no more entries and no more leaves than the file had. */
  lemma SurvivorsNeed(d: Disk, n: nat, keep: nat)
    requires Consistent(d) && n in d.live && d.geo.LeafMax() > MAX_INLINE
    ensures LeafNeed(|Pack(Below(d.File(n), keep))|, d.geo.LeafMax()) <= MAX_INLINE
    ensures LeafNeed(|Pack(Below(d.File(n), keep))|, d.geo.LeafMax()) <= |Leaves(d.inodes[n].tree)|
  {
    var t := d.inodes[n].tree;
    var es := Entries(Load(d.view, t));
    LiveFile(d, n);
    EntriesBounded(d.geo, d.view, d.alloc, t);
    SurvivorsFit(es, keep);
    EntriesFit(d.geo, d.view, d.alloc, t);
    LeafNeedBounds(|Pack(Below(d.File(n), keep))|, d.geo.LeafMax(), |Leaves(t)|);
    FitsFourLeaves(|Pack(Below(d.File(n), keep))|, d.geo.LeafMax());
  }

  /** What a shrink to `keep` blocks leaves in the file. */
  ghost function Survivors(d: Disk, n: nat, keep: nat): seq<Pair>
    requires n < |d.inodes| && d.geo.LeafMax() > 0
  {
    Fitting(Below(d.File(n), keep), Budget(d.geo, KeptBlocks(d, n, keep)), d.geo.LeafMax())
  }

  /** The blocks that should stay and do not. */
  ghost function Dropped(d: Disk, n: nat, keep: nat): set<nat>
    requires n < |d.inodes| && d.geo.LeafMax() > 0
  {
    Phys(Below(d.File(n), keep)) - Phys(Survivors(d, n, keep))
  }

  /** Before the shrink: for each leaf that the blocks that stay need, a block will be found. */
  ghost predicate Rebuildable(d: Disk, n: nat, keep: nat)
    requires n < |d.inodes| && d.geo.LeafMax() > 0
  {
    LeafNeed(|Pack(Below(d.File(n), keep))|, d.geo.LeafMax()) <= Residual(d.geo, KeptBlocks(d, n, keep), d.geo.groups)
  }

  /** A shrink keeps every block below the cut exactly when it can find its leaves. */
  lemma KeepsAll(d: Disk, n: nat, keep: nat)
    requires Consistent(d) && n in d.live && d.geo.LeafMax() > MAX_INLINE
    ensures Survivors(d, n, keep) == Below(d.File(n), keep) <==> Rebuildable(d, n, keep)
    ensures Rebuildable(d, n, keep) ==> Dropped(d, n, keep) == {}
  {
    hide Pack;
    hide LeafNeed;
    hide Residual;
    hide Fitting;
    SurvivorsNeed(d, n, keep);
    FittingAll(Below(d.File(n), keep), Budget(d.geo, KeptBlocks(d, n, keep)), d.geo.LeafMax());
  }

  /** On a volume whose groups have less than 65536 blocks it always can: it has just freed its old leaves. */
  lemma RebuildCannotFail(d: Disk, n: nat, keep: nat)
    requires Consistent(d) && n in d.live && d.geo.LeafMax() > MAX_INLINE && d.geo.Ok() && d.geo.perGroup < COUNT_WRAP
    ensures Rebuildable(d, n, keep)
  {
    hide d.geo.Ok;
    hide d.geo.InRange;
    hide Pack;
    hide LeafNeed;
    hide Residual;
    var t := d.inodes[n].tree;
    LiveFile(d, n);
    SurvivorsNeed(d, n, keep);
    KeptAfterFree(d, n, keep);
    DataNotLeaf(d.geo, d.view, d.alloc, t);
    PartitionPhys(d.File(n), keep);
    forall b | b in Leaves(t)
      ensures d.geo.InRange(b)
    {
      OwnedOk(d.geo, d.view, d.alloc, t, b);
    }
    ResidualTakeAll(d.geo, KeptBlocks(d, n, keep), Leaves(t));
  }

  lemma {:induction false} DistinctLeavesSize(ls: seq<nat>)
    requires forall i, j :: 0 <= i < j < |ls| ==> ls[i] != ls[j]
    ensures |Leaves(Index(ls))| == |ls|
  {
    if ls != [] {
      var k := |ls| - 1;
      DistinctLeavesSize(ls[..k]);
      assert Leaves(Index(ls)) == Leaves(Index(ls[..k])) + {ls[k]};
    }
  }

  lemma EntriesFit(geo: Geometry, view: seq<Block>, alloc: set<nat>, t: Tree)
    requires TreeOk(geo, view, alloc, t) && geo.LeafMax() > MAX_INLINE
    ensures var k := |Leaves(t)|;
            && |Entries(Load(view, t))| <= MAX_INLINE * geo.LeafMax()
            && |Entries(Load(view, t))| <= if k == 0 then MAX_INLINE else k * geo.LeafMax()
  {
    if t.Index? {
      DistinctLeavesSize(t.leaves);
      LeafEntriesFit(geo, view, alloc, t.leaves);
      ProductOrder(|t.leaves|, MAX_INLINE, geo.LeafMax());
    }
  }

  lemma ProductOrder(x: nat, y: nat, m: nat)
    requires x <= y
    ensures x * m <= y * m
  {
  }

  lemma LeafEntriesFit(geo: Geometry, view: seq<Block>, alloc: set<nat>, leaves: seq<nat>)
    requires TreeOk(geo, view, alloc, Index(leaves))
    ensures |Entries(Load(view, Index(leaves)))| <= |leaves| * geo.LeafMax()
  {
    var ls := Load(view, Index(leaves)).ls;
    forall i | 0 <= i < |ls|
      ensures |ls[i]| <= geo.LeafMax()
    {
      assert LeafOk(geo, view, alloc, leaves[i]);
    }
    SizeBound(ls, geo.LeafMax());
  }

  lemma {:induction false} FittingDistinct(plan: seq<Pair>, budget: nat, max: nat)
    requires max > 0 && Distinct(plan)
    ensures Distinct(Fitting(plan, budget, max))
  {
    hide Pack;
    hide LeafNeed;
    if plan != [] {
      var k := |plan| - 1;
      var head := Fitting(plan[..k], budget, max);
      FittingDistinct(plan[..k], budget, max);
      forall i | 0 <= i < |head|
        ensures head[i].0 != plan[k].0 && head[i].1 != plan[k].1
      {
        FittingMember(plan[..k], budget, max, head[i]);
        var j :| 0 <= j < k && plan[j] == head[i];
      }
    }
  }

  /** The survivors are blocks of the file below the cut, each once. */
  lemma SurvivorsSub(d: Disk, n: nat, keep: nat)
    requires Consistent(d) && n in d.live && d.geo.LeafMax() > 0
    ensures Distinct(Survivors(d, n, keep))
    ensures forall q :: q in Survivors(d, n, keep) ==> q in d.File(n) && q.0 < keep
    ensures Phys(Survivors(d, n, keep)) <= Phys(Below(d.File(n), keep)) <= d.Mine(n)
    ensures forall b :: b in Phys(Survivors(d, n, keep)) ==> DataOk(d.geo, d.view, d.alloc, b)
  {
    hide Fitting;
    hide Budget;
    var below, budget := Below(d.File(n), keep), Budget(d.geo, KeptBlocks(d, n, keep));
    BelowDistinct(d.File(n), keep);
    FittingDistinct(below, budget, d.geo.LeafMax());
    KeptAfterFree(d, n, keep);
    forall q | q in Survivors(d, n, keep)
      ensures q in below && q in d.File(n) && q.0 < keep
    {
      FittingMember(below, budget, d.geo.LeafMax(), q);
      BelowMember(d.File(n), keep, q);
    }
  }

  /** What is still mapped has the bytes it had, and everything else reads as zero. */
  ghost predicate Trimmed(view: seq<Block>, ps: seq<Pair>, view': seq<Block>, ps': seq<Pair>, bsize: nat)
    requires bsize > 0
  {
    forall off: nat ::
      Content(view', ps', bsize, off) == if Lookup(ps', off / bsize).Some? then Content(view, ps, bsize, off) else 0
  }

  lemma TrimContent(view: seq<Block>, ps: seq<Pair>, view': seq<Block>, ps': seq<Pair>, bsize: nat)
    requires bsize > 0 && Distinct(ps) && (forall q :: q in ps' ==> q in ps) && Unchanged(view, view', Phys(ps'))
    ensures Trimmed(view, ps, view', ps', bsize)
  {
    hide Lookup;
    forall off: nat
      ensures Content(view', ps', bsize, off) ==
              if Lookup(ps', off / bsize).Some? then Content(view, ps, bsize, off) else 0
    {
      var l := off / bsize;
      LookupSound(ps', l);
      if Lookup(ps', l).Some? {
        LookupUnique(ps, l, Lookup(ps', l).value);
      }
    }
  }

  lemma TrimmedCut(view: seq<Block>, ps: seq<Pair>, view': seq<Block>, bsize: nat, n: nat)
    requires bsize > 0 && Trimmed(view, ps, view', Below(ps, n), bsize)
    ensures CutAt(view, ps, view', Below(ps, n), bsize, n)
  {
    hide Below;
    forall off: nat
      ensures Content(view', Below(ps, n), bsize, off) == if off / bsize < n then Content(view, ps, bsize, off) else 0
    {
      LookupBelow(ps, n, off / bsize);
    }
  }

  /** The ownership after the shrink of inode `n`. */
  ghost function Shrunk(d: Disk, n: nat, keep: nat, view': seq<Block>, t: Tree): map<nat, nat>
    requires n < |d.inodes| && d.geo.LeafMax() > 0
  {
    Disown(Reassign(d.owner, n, Owned(view', t)), Dropped(d, n, keep))
  }

  lemma SurvivorsRebuilt(
    d: Disk, n: nat, keep: nat, view1: seq<Block>, view': seq<Block>, alloc': set<nat>, t: Tree)
    requires n < |d.inodes| && SameFiles(d.geo, d.view, view1)
    requires Rebuilt(d.geo, view1, KeptBlocks(d, n, keep), view', alloc', t, Below(d.File(n), keep))
    ensures TreeOk(d.geo, view', alloc', t) && Pairs(view', t) == Survivors(d, n, keep)
    ensures alloc' == KeptBlocks(d, n, keep) + Leaves(t) && KeptBlocks(d, n, keep) !! Leaves(t)
    ensures Unchanged(d.view, view', KeptBlocks(d, n, keep) - d.geo.fixed)
  {
    hide Fitting;
    hide Budget;
    hide Residual;
    hide Pack;
    hide Packed;
    hide TreeOk;
    hide KeptBlocks;
    hide Pairs;
  }

  lemma ShrunkFile(d: Disk, n: nat, keep: nat, view': seq<Block>, alloc': set<nat>, t: Tree)
    requires Consistent(d) && n in d.live && d.geo.LeafMax() > 0
    requires TreeOk(d.geo, view', alloc', t) && Pairs(view', t) == Survivors(d, n, keep)
    requires alloc' == KeptBlocks(d, n, keep) + Leaves(t) && KeptBlocks(d, n, keep) !! Leaves(t)
    requires Unchanged(d.view, view', KeptBlocks(d, n, keep) - d.geo.fixed)
    ensures var alloc2 := alloc' - Dropped(d, n, keep);
            && FileOk(d.geo, view', alloc2, t) && Dropped(d, n, keep) <= alloc'
            && alloc2 == (d.alloc - d.Mine(n)) + Owned(view', t)
            && Owned(view', t) !! d.alloc - d.Mine(n)
  {
    hide Survivors;
    hide Consistent;
    hide Pairs;
    hide Below;
    LiveFile(d, n);
    SurvivorsSub(d, n, keep);
    OwnedAlloc(d, n);
    var kept, alloc2 := Survivors(d, n, keep), alloc' - Dropped(d, n, keep);
    forall b | b in Phys(kept)
      ensures DataOk(d.geo, view', alloc2, b)
    {
      assert DataOk(d.geo, d.view, d.alloc, b);
    }
    if t.Index? {
      forall i | 0 <= i < |t.leaves|
        ensures LeafOk(d.geo, view', alloc2, t.leaves[i])
      {
        assert LeafOk(d.geo, view', alloc', t.leaves[i]) && t.leaves[i] in Leaves(t);
      }
    }
  }

  /**
   The rebuilt tree is a well-formed file, and the disk is consistent with it. The blocks that could
   not be added stay allocated and are lost.
   */
  lemma RebuiltConsistent(
    d: Disk, n: nat, keep: nat, view1: seq<Block>, view': seq<Block>, alloc': set<nat>, ino: Inode)
    requires Consistent(d) && n in d.live && d.geo.bsize > 0 && SameFiles(d.geo, d.view, view1)
    requires Rebuilt(d.geo, view1, KeptBlocks(d, n, keep), view', alloc', ino.tree, Below(d.File(n), keep))
    ensures Unchanged(d.view, view', d.alloc - d.geo.fixed - d.Mine(n))
    ensures Pairs(view', ino.tree) == Survivors(d, n, keep)
    ensures Trimmed(d.view, d.File(n), view', Survivors(d, n, keep), d.geo.bsize)
    ensures Consistent(d.(view := view', alloc := alloc', inodes := d.inodes[n := ino],
                          owner := Shrunk(d, n, keep, view', ino.tree)))
    ensures BlocksOf(Shrunk(d, n, keep, view', ino.tree), 0) == BlocksOf(d.owner, 0) + Dropped(d, n, keep)
  {
    hide Fitting;
    hide Budget;
    hide Pack;
    hide Packed;
    hide Residual;
    hide Consistent;
    hide Survivors;
    hide TreeOk;
    LiveFile(d, n);
    var kept, lost := Survivors(d, n, keep), Dropped(d, n, keep);
    SurvivorsRebuilt(d, n, keep, view1, view', alloc', ino.tree);
    SurvivorsSub(d, n, keep);
    OwnedAlloc(d, n);
    TrimContent(d.view, d.File(n), view', kept, d.geo.bsize);
    ShrunkFile(d, n, keep, view', alloc', ino.tree);
    hide FileOk;
    hide Pairs;
    ConsistentUpdate(d, n, ino, view', alloc' - lost);
    ConsistentLose(d.(view := view', alloc := alloc' - lost, inodes := d.inodes[n := ino],
                      owner := Reassign(d.owner, n, Owned(view', ino.tree))), lost);
    assert alloc' - lost + lost == alloc';
  }

  /** The blocks a file may free, and where its parsed extents start. */
  lemma ParsedFreeable(d: Disk, n: nat, ms: seq<Extent>)
    requires Consistent(d) && n in d.live
    requires ms == Decode(Entries(Load(d.view, d.inodes[n].tree)))
    ensures Flat(ms) == d.File(n) && RunsBounded(ms)
    ensures Freeable(d.geo, d.view, d.Mine(n))
    ensures forall i :: 0 <= i < |ms| ==> ms[i].start >= d.geo.firstData
  {
    var t := d.inodes[n].tree;
    LiveFile(d, n);
    EntriesBounded(d.geo, d.view, d.alloc, t);
    DecodeFlat(Entries(Load(d.view, t)));
    forall b | b in d.Mine(n)
      ensures d.geo.InRange(b) && b !in d.geo.fixed && b < |d.view|
    {
      OwnedOk(d.geo, d.view, d.alloc, t, b);
    }
    forall i | 0 <= i < |ms|
      ensures ms[i].start >= d.geo.firstData
    {
      FlatMember(ms, (ms[i].block, ms[i].start));
      assert DataOk(d.geo, d.view, d.alloc, ms[i].start);
    }
  }

  /** Frees what lies past the first `keep` blocks of inode `n`, and all its leaves; rebuilds the tree. */
  method TruncateTree(a: Allocator, ghost d: Disk, ghost n: nat, t: Tree, keep: nat)
    returns (t': Tree, ghost view1: seq<Block>)
    requires a.Valid() && d.geo == a.geo && d.view == a.cache.view && d.alloc == a.alloc
    requires Consistent(d) && n in d.live && d.inodes[n].tree == t
    modifies a, a.cache, a.cache.slots
    ensures a.Valid() && SameFiles(d.geo, d.view, view1)
    ensures Rebuilt(d.geo, view1, KeptBlocks(d, n, keep), a.cache.view, a.alloc, t', Below(d.File(n), keep))
  {
    hide a.Valid;
    hide a.geo.Ok;
    hide Consistent;
    hide FileOk;
    hide Pairs;
    hide Decode;
    hide Flat;
    hide Rebuilt;
    a.Facts();
    LiveFile(d, n);
    FileTreeOk(d.geo, d.view, d.alloc, t);
    var ms := ParseExtents(a, t);
    ParsedFreeable(d, n, ms);
    FreeFrom(a, ms, keep);
    FreeLeaves(a, t);
    KeptAfterFree(d, n, keep);
    view1 := a.cache.view;
    if keep == 0 {
      BelowNone(d.File(n));
      RebuiltEmpty(a.geo, a.cache.view, a.alloc);
      return Inline([]), view1;
    }
    t' := Rebuild(a, a.alloc, ms, keep);
  }

  lemma FileTreeOk(geo: Geometry, view: seq<Block>, alloc: set<nat>, t: Tree)
    requires FileOk(geo, view, alloc, t)
    ensures TreeOk(geo, view, alloc, t)
  {
  }

  lemma {:induction false} BelowNone(ps: seq<Pair>)
    ensures Below(ps, 0) == []
  {
    if ps != [] {
      BelowNone(ps[..|ps| - 1]);
    }
  }

  /** free_blocks_for_inode: every block of inode `n`, data and leaves. */
  method FreeBlocksForInode(a: Allocator, ghost d: Disk, ghost n: nat, t: Tree)
    requires a.Valid() && d.geo == a.geo && d.view == a.cache.view && d.alloc == a.alloc
    requires Consistent(d) && n in d.live && d.inodes[n].tree == t
    modifies a, a.cache, a.cache.slots
    ensures a.Valid() && SameFiles(d.geo, d.view, a.cache.view)
    ensures a.alloc == d.alloc - d.Mine(n)
  {
    hide a.Valid;
    hide a.geo.Ok;
    hide Consistent;
    hide FileOk;
    hide Pairs;
    hide Decode;
    hide Flat;
    LiveFile(d, n);
    FileTreeOk(d.geo, d.view, d.alloc, t);
    var ms := ParseExtents(a, t);
    ParsedFreeable(d, n, ms);
    assert PhysFrom(Flat(ms), 0) == Phys(Flat(ms));
    FreeFrom(a, ms, 0);
    FreeLeaves(a, t);
  }

  /** An inode that gives up all its blocks and is no longer in use. */
  lemma ConsistentRemove(d: Disk, n: nat, view': seq<Block>, inodes': seq<Inode>)
    requires Consistent(d) && n in d.live && SameFiles(d.geo, d.view, view')
    requires |inodes'| == |d.inodes| && forall m :: 0 <= m < |inodes'| && m != n ==> inodes'[m] == d.inodes[m]
    ensures Consistent(d.(view := view', alloc := d.alloc - d.Mine(n), inodes := inodes', live := d.live - {n},
                          owner := Reassign(d.owner, n, {})))
    ensures BlocksOf(Reassign(d.owner, n, {}), 0) == BlocksOf(d.owner, 0)
  {
    hide Owned;
    hide FileOk;
    ReassignKeys(d.owner, n, {});
    ReassignBlocks(d.owner, n, {}, 0);
    forall m | m in d.live && m != n
      ensures FileOk(d.geo, view', d.alloc - d.Mine(n), d.inodes[m].tree)
      ensures Owned(view', d.inodes[m].tree) == BlocksOf(Reassign(d.owner, n, {}), m)
    {
      OtherFile(d, n, m, view', d.alloc - d.Mine(n));
      ReassignBlocks(d.owner, n, {}, m);
    }
  }
}
