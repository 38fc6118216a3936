/**
 How a write will go, told from the state before it: which blocks it will take for the positions that
 have none, and where and why it will stop.
 */
module Ext4Plans {
  import opened Ext4Layout
  import opened Ext4Allocator
  import opened Ext4Extents
  import opened Ext4Trees
  import opened Ext4Content

  /** How an attempt to take a block for a file ends. */
  datatype Status = Taken | NoSpace | TreeFull

  /** What such an attempt depends on: the allocated blocks and the tree of the file. */
  datatype Plan = Plan(alloc: set<nat>, tree: TreeVal)

  datatype Attempt = Attempt(status: Status, plan: Plan, block: nat)

  /** A block for position `l`, which has none. */
  ghost function Taking(geo: Geometry, pl: Plan, l: nat, near: nat): Attempt
    requires geo.groups > 0 && geo.perGroup > 0
  {
    var p := Pick(geo, pl.alloc, near);
    var alloc := pl.alloc + {p};
    if p == 0 then Attempt(NoSpace, pl, 0)
    else if !Takes(geo, alloc, pl.tree, l, p) then Attempt(TreeFull, pl, 0)
    else
      var tree := AppendTree(pl.tree, l, p, geo.LeafMax()).value;
      Attempt(Taken, Plan(alloc + LeafFor(geo, alloc, pl.tree, l, p), tree), p)
  }

  lemma NotTaken(geo: Geometry, pl: Plan, l: nat, near: nat)
    requires geo.groups > 0 && geo.perGroup > 0
    ensures Taking(geo, pl, l, near).status != Taken ==> Taking(geo, pl, l, near).plan == pl
  {
  }

  /** The block of position `l`: the one that is mapped there, or a new one. */
  ghost function Ensuring(geo: Geometry, pl: Plan, l: nat, near: nat): Attempt
    requires geo.groups > 0 && geo.perGroup > 0
  {
    match Lookup(FlatTree(pl.tree), l)
    case Some(p) => Attempt(Taken, pl, p)
    case None => Taking(geo, pl, l, near)
  }

  /** How the positions from `l` to `end` fare: `reached` is the first one without a block, or `end`. */
  datatype Course = Course(status: Status, plan: Plan, reached: nat)

  ghost function Ends(geo: Geometry, pl: Plan, l: nat, end: nat, near: nat): (c: Course)
    requires geo.groups > 0 && geo.perGroup > 0 && l <= end
    ensures l <= c.reached <= end && (c.status == Taken <==> c.reached == end)
    ensures c.reached == l ==> c.plan == pl
    decreases end - l
  {
    if l == end then Course(Taken, pl, l)
    else
      var t := Ensuring(geo, pl, l, near);
      if t.status != Taken then Course(t.status, pl, l) else Ends(geo, t.plan, l + 1, end, t.block)
  }

  lemma TakesMore(geo: Geometry, pl: Plan, l: nat, near: nat)
    requires geo.groups > 0 && geo.perGroup > 0
    ensures var t := Ensuring(geo, pl, l, near);
            if Lookup(FlatTree(pl.tree), l).Some? then t.status == Taken && t.plan == pl
            else t.status == Taken ==> pl.alloc < t.plan.alloc
  {
    hide PickFrom;
    hide Takes;
    hide LeafFor;
    hide AppendTree;
    hide Lookup;
    hide FlatTree;
    PickFree(geo, pl.alloc, Preferred(geo, near), 0);
  }

  /** Every position from `l` to `end` has a block. */
  ghost predicate NoGap(tv: TreeVal, l: nat, end: nat) {
    forall k :: l <= k < end ==> Lookup(FlatTree(tv), k).Some?
  }

  /** A block is taken exactly if a position in front of the one reached had none. */
  lemma {:induction false} UntakenExactly(geo: Geometry, pl: Plan, l: nat, end: nat, near: nat)
    requires geo.groups > 0 && geo.perGroup > 0 && l <= end
    ensures var c := Ends(geo, pl, l, end, near);
            pl.alloc <= c.plan.alloc && (c.plan.alloc == pl.alloc <==> NoGap(pl.tree, l, c.reached))
    decreases end - l
  {
    hide Ensuring;
    hide Lookup;
    hide FlatTree;
    if l < end {
      var t := Ensuring(geo, pl, l, near);
      TakesMore(geo, pl, l, near);
      EndsStep(geo, pl, l, end, near);
      if t.status == Taken {
        UntakenExactly(geo, t.plan, l + 1, end, t.block);
      }
    }
  }

  lemma EndsStep(geo: Geometry, pl: Plan, l: nat, end: nat, near: nat)
    requires geo.groups > 0 && geo.perGroup > 0 && l < end
    ensures var t := Ensuring(geo, pl, l, near);
            Ends(geo, pl, l, end, near) ==
            if t.status != Taken then Course(t.status, pl, l) else Ends(geo, t.plan, l + 1, end, t.block)
  {
  }

  lemma EndsHere(geo: Geometry, pl: Plan, l: nat, near: nat)
    requires geo.groups > 0 && geo.perGroup > 0
    ensures Ends(geo, pl, l, l, near) == Course(Taken, pl, l)
  {
  }
}
