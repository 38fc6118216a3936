/**
 The extent tree as a value. A tree is read as the sequence of (logical, physical) pairs its
 entries cover, in entry order; every operation on trees is described by what it does to that
 sequence.
 */
module Ext4Extents {
  import opened Ext4Layout

  type Pair = (nat, nat)

  /** The root in an inode: inline entries at depth 0, or the blocks of the leaves at depth 1. */
  datatype Tree = Inline(entries: seq<Extent>) | Index(leaves: seq<nat>)

  /** A tree with the contents of its leaves. */
  datatype TreeVal = InlineV(es: seq<Extent>) | IndexV(ls: seq<seq<Extent>>)

  datatype Option<+T> = None | Some(value: T)

  function Run(e: Extent): seq<Pair> {
    seq(e.Len(), i requires 0 <= i < e.Len() => (e.block + i, e.start + i))
  }

  function Flat(es: seq<Extent>): seq<Pair> {
    if es == [] then [] else Flat(es[..|es| - 1]) + Run(es[|es| - 1])
  }

  function Concat(ls: seq<seq<Extent>>): seq<Extent> {
    if ls == [] then [] else Concat(ls[..|ls| - 1]) + ls[|ls| - 1]
  }

  function Entries(tv: TreeVal): seq<Extent> {
    match tv
    case InlineV(es) => es
    case IndexV(ls) => Concat(ls)
  }

  /** The mapping a tree describes. */
  function FlatTree(tv: TreeVal): seq<Pair> {
    Flat(Entries(tv))
  }

  predicate Covers(e: Extent, l: nat) {
    e.block <= l < e.block + e.Len()
  }

  /** A pair is in the mapping exactly when some entry covers it. */
  lemma {:induction false} FlatMember(es: seq<Extent>, q: Pair)
    ensures q in Flat(es) <==>
            exists k :: 0 <= k < |es| && Covers(es[k], q.0) && q.1 == es[k].start + (q.0 - es[k].block)
  {
    if es != [] {
      var m := |es| - 1;
      FlatMember(es[..m], q);
      var e := es[m];
      if Covers(e, q.0) && q.1 == e.start + (q.0 - e.block) {
        assert Run(e)[q.0 - e.block] == q;
      }
      if k :| 0 <= k < m && Covers(es[k], q.0) && q.1 == es[k].start + (q.0 - es[k].block) {
        assert es[..m][k] == es[k];
      }
    }
  }

  /**
   What parse_extents makes of a list of entries: lengths decoded, empty entries dropped. A parsed
   ExtentMap is written as an Extent whose length needs no decoding.
   */
  function Decode(es: seq<Extent>): seq<Extent> {
    if es == [] then []
    else
      var e := es[|es| - 1];
      Decode(es[..|es| - 1]) + if e.Len() == 0 then [] else [Extent(e.block, e.Len(), e.start)]
  }

  lemma {:induction false} DecodeFlat(es: seq<Extent>)
    requires RunsBounded(es)
    ensures Flat(Decode(es)) == Flat(es) && RunsBounded(Decode(es))
    ensures forall i :: 0 <= i < |Decode(es)| ==> !Decode(es)[i].Unwritten() && Decode(es)[i].Len() > 0
    ensures |Decode(es)| <= |es|
  {
    if es != [] {
      var k := |es| - 1;
      var e := es[k];
      DecodeFlat(es[..k]);
      if e.Len() > 0 {
        var d := Extent(e.block, e.Len(), e.start);
        assert (Decode(es[..k]) + [d])[..|Decode(es[..k])|] == Decode(es[..k]);
        assert Run(d) == Run(e);
      } else {
        assert Decode(es) == Decode(es[..k]);
        assert Run(e) == [];
      }
    }
  }

  lemma {:induction false} DecodeConcat(a: seq<Extent>, b: seq<Extent>)
    ensures Decode(a + b) == Decode(a) + Decode(b)
  {
    if b == [] {
      assert a + b == a;
    } else {
      var k := |b| - 1;
      DecodeConcat(a, b[..k]);
      assert (a + b)[..|a + b| - 1] == a + b[..k];
    }
  }

  predicate CanMerge(es: seq<Extent>, l: nat, p: nat) {
    && es != []
    && var last := es[|es| - 1];
       && last.block + last.Len() == l && last.start + last.Len() == p
       && !last.Unwritten() && last.Len() < MAX_RUN
  }

  /** Adds one block to a list of entries: the last run grows, or a run of one block is added. */
  function AppendRun(es: seq<Extent>, l: nat, p: nat): seq<Extent> {
    if CanMerge(es, l, p) then
      var last := es[|es| - 1];
      es[|es| - 1 := last.(rawLen := last.rawLen + 1)]
    else
      es + [Extent(l, 1, p)]
  }

  lemma AppendRunFlat(es: seq<Extent>, l: nat, p: nat)
    ensures Flat(AppendRun(es, l, p)) == Flat(es) + [(l, p)]
  {
    var es' := AppendRun(es, l, p);
    if CanMerge(es, l, p) {
      var k := |es| - 1;
      assert es'[..k] == es[..k];
      assert Run(es'[k]) == Run(es[k]) + [(l, p)];
    } else {
      assert es'[..|es|] == es;
      assert Run(Extent(l, 1, p)) == [(l, p)];
    }
  }

  /** Adds blocks one at a time. */
  function PackFrom(es: seq<Extent>, ps: seq<Pair>): seq<Extent> {
    if ps == [] then es
    else var (l, p) := ps[|ps| - 1]; AppendRun(PackFrom(es, ps[..|ps| - 1]), l, p)
  }

  function Pack(ps: seq<Pair>): seq<Extent> {
    PackFrom([], ps)
  }

  lemma PackSnoc(ps: seq<Pair>, l: nat, p: nat)
    ensures Pack(ps + [(l, p)]) == AppendRun(Pack(ps), l, p)
  {
    assert (ps + [(l, p)])[..|ps|] == ps;
  }

  lemma {:induction false} PackFlat(ps: seq<Pair>)
    ensures Flat(Pack(ps)) == ps
  {
    if ps != [] {
      var k := |ps| - 1;
      var es := Pack(ps[..k]);
      PackFlat(ps[..k]);
      AppendRunFlat(es, ps[k].0, ps[k].1);
      assert ps == ps[..k] + [(ps[k].0, ps[k].1)];
    }
  }

  lemma {:induction false} PackFromConcat(es: seq<Extent>, a: seq<Pair>, b: seq<Pair>)
    ensures PackFrom(es, a + b) == PackFrom(PackFrom(es, a), b)
  {
    if b == [] {
      assert a + b == a;
    } else {
      var k := |b| - 1;
      PackFromConcat(es, a, b[..k]);
      assert (a + b)[..|a + b| - 1] == a + b[..k];
    }
  }

  ghost predicate EndsAt(es: seq<Extent>, l: nat, p: nat) {
    && es != []
    && var last := es[|es| - 1];
       !last.Unwritten() && last.block + last.Len() == l && last.start + last.Len() == p
  }

  /** Where a run of at most 32768 blocks ends up: in the old last entry, or in one new entry. */
  lemma {:induction false} PackRunShape(es: seq<Extent>, e: Extent, n: nat)
    requires n <= e.Len() <= MAX_RUN
    ensures var r := PackFrom(es, Run(e)[..n]);
            && |es| <= |r| <= |es| + 1
            && (n > 0 ==> EndsAt(r, e.block + n, e.start + n))
            && (|r| == |es| + 1 ==> r[|es|].Len() <= n)
  {
    if n > 0 {
      PackRunShape(es, e, n - 1);
      assert Run(e)[..n][..n - 1] == Run(e)[..n - 1];
      var q := PackFrom(es, Run(e)[..n - 1]);
      assert PackFrom(es, Run(e)[..n]) == AppendRun(q, e.block + n - 1, e.start + n - 1);
    }
  }

  lemma PackRunBound(es: seq<Extent>, e: Extent)
    requires e.Len() <= MAX_RUN
    ensures |es| <= |PackFrom(es, Run(e))| <= |es| + 1
  {
    PackRunShape(es, e, e.Len());
    assert Run(e)[..e.Len()] == Run(e);
  }

  ghost predicate RunsBounded(es: seq<Extent>) {
    forall i :: 0 <= i < |es| ==> es[i].Len() <= MAX_RUN
  }

  /** Rebuilding a list of entries block by block never needs more entries than it had. */
  lemma {:induction false} PackBound(es: seq<Extent>)
    requires RunsBounded(es)
    ensures |Pack(Flat(es))| <= |es|
  {
    if es != [] {
      var k := |es| - 1;
      PackBound(es[..k]);
      PackFromConcat([], Flat(es[..k]), Run(es[k]));
      PackRunBound(Pack(Flat(es[..k])), es[k]);
    }
  }

  lemma {:induction false} PackMonotone(ps: seq<Pair>, n: nat)
    requires n <= |ps|
    ensures |Pack(ps[..n])| <= |Pack(ps)|
    decreases |ps| - n
  {
    if n < |ps| {
      PackMonotone(ps, n + 1);
      assert ps[..n + 1][..n] == ps[..n];
    } else {
      assert ps[..n] == ps;
    }
  }

  // Truncation

  /** The pairs whose logical block is below `n`. */
  function Below(ps: seq<Pair>, n: nat): seq<Pair> {
    if ps == [] then []
    else
      var k := |ps| - 1;
      Below(ps[..k], n) + if ps[k].0 < n then [ps[k]] else []
  }

  /** The part of an extent below logical block `n`. */
  function Cut(e: Extent, n: nat): Extent {
    var len := if n <= e.block then 0 else if n - e.block < e.Len() then n - e.block else e.Len();
    Extent(e.block, if len <= MAX_RUN then len else 0, e.start)
  }

  function Cuts(es: seq<Extent>, n: nat): seq<Extent> {
    seq(|es|, i requires 0 <= i < |es| => Cut(es[i], n))
  }

  lemma {:induction false} BelowConcat(a: seq<Pair>, b: seq<Pair>, n: nat)
    ensures Below(a + b, n) == Below(a, n) + Below(b, n)
  {
    if b == [] {
      assert a + b == a;
    } else {
      var k := |b| - 1;
      BelowConcat(a, b[..k], n);
      assert (a + b)[..|a + b| - 1] == a + b[..k];
    }
  }

  lemma {:induction false} BelowPrefix(ps: seq<Pair>, n: nat, k: nat)
    requires k <= |ps|
    requires forall i :: 0 <= i < |ps| ==> (ps[i].0 < n <==> i < k)
    ensures Below(ps, n) == ps[..k]
  {
    if ps != [] {
      var m := |ps| - 1;
      if k == |ps| {
        BelowPrefix(ps[..m], n, m);
      } else {
        BelowPrefix(ps[..m], n, k);
        assert ps[..m][..k] == ps[..k];
      }
    }
  }

  lemma BelowRun(e: Extent, n: nat)
    requires e.Len() <= MAX_RUN
    ensures Below(Run(e), n) == Run(Cut(e, n))
  {
    BelowPrefix(Run(e), n, Cut(e, n).Len());
    assert Run(e)[..Cut(e, n).Len()] == Run(Cut(e, n));
  }

  lemma {:induction false} BelowFlat(es: seq<Extent>, n: nat)
    requires RunsBounded(es)
    ensures Below(Flat(es), n) == Flat(Cuts(es, n))
  {
    if es != [] {
      var k := |es| - 1;
      BelowFlat(es[..k], n);
      BelowConcat(Flat(es[..k]), Run(es[k]), n);
      BelowRun(es[k], n);
      assert Cuts(es, n)[..k] == Cuts(es[..k], n);
    }
  }

  /** The blocks that survive a truncation fit in no more entries than the file had. */
  lemma SurvivorsFit(es: seq<Extent>, n: nat)
    requires RunsBounded(es)
    ensures |Pack(Below(Flat(es), n))| <= |es|
  {
    BelowFlat(es, n);
    PackBound(Cuts(es, n));
  }

  // Appending to a tree

  predicate Fits(es: seq<Extent>, l: nat, p: nat, max: nat) {
    CanMerge(es, l, p) || |es| < max
  }

  /**
   The tree with one more block: the last run or the last leaf grows, a fifth inline entry moves
   the inline entries to a leaf, a full last leaf is followed by a new one. None when four leaves
   are full.
   */
  function AppendTree(tv: TreeVal, l: nat, p: nat, max: nat): Option<TreeVal> {
    match tv
    case InlineV(es) =>
      if Fits(es, l, p, MAX_INLINE) then Some(InlineV(AppendRun(es, l, p)))
      else Some(IndexV([AppendRun(Pack(Flat(es)), l, p)]))
    case IndexV(ls) =>
      if ls != [] && Fits(ls[|ls| - 1], l, p, max) then
        Some(IndexV(ls[|ls| - 1 := AppendRun(ls[|ls| - 1], l, p)]))
      else if |ls| >= MAX_INLINE then None
      else Some(IndexV(ls + [[Extent(l, 1, p)]]))
  }

  /** Whether an append has to allocate a leaf block. */
  predicate NeedsLeaf(tv: TreeVal, l: nat, p: nat, max: nat) {
    match tv
    case InlineV(es) => !Fits(es, l, p, MAX_INLINE)
    case IndexV(ls) => (ls == [] || !Fits(ls[|ls| - 1], l, p, max)) && |ls| < MAX_INLINE
  }

  lemma ConcatLast(ls: seq<seq<Extent>>, es: seq<Extent>)
    ensures Concat(ls + [es]) == Concat(ls) + es
  {
    assert (ls + [es])[..|ls|] == ls;
  }

  lemma {:induction false} FlatConcat(a: seq<Extent>, b: seq<Extent>)
    ensures Flat(a + b) == Flat(a) + Flat(b)
  {
    hide Run;
    if b == [] {
      assert a + b == a;
    } else {
      var k := |b| - 1;
      FlatConcat(a, b[..k]);
      assert (a + b)[..|a + b| - 1] == a + b[..k];
    }
  }

  lemma LastLeafFlat(ls: seq<seq<Extent>>, es: seq<Extent>, l: nat, p: nat)
    ensures Flat(Concat(ls + [AppendRun(es, l, p)])) == Flat(Concat(ls + [es])) + [(l, p)]
  {
    ConcatLast(ls, es);
    ConcatLast(ls, AppendRun(es, l, p));
    FlatConcat(Concat(ls), es);
    FlatConcat(Concat(ls), AppendRun(es, l, p));
    AppendRunFlat(es, l, p);
  }

  lemma NewLeafFlat(ls: seq<seq<Extent>>, l: nat, p: nat)
    ensures Flat(Concat(ls + [[Extent(l, 1, p)]])) == Flat(Concat(ls)) + [(l, p)]
  {
    ConcatLast(ls, [Extent(l, 1, p)]);
    FlatConcat(Concat(ls), [Extent(l, 1, p)]);
    assert Flat([Extent(l, 1, p)]) == [(l, p)] by {
      AppendRunFlat([], l, p);
      assert AppendRun([], l, p) == [Extent(l, 1, p)];
    }
  }

  lemma PromoteFlat(es: seq<Extent>, l: nat, p: nat)
    ensures Flat(Concat([AppendRun(Pack(Flat(es)), l, p)])) == Flat(es) + [(l, p)]
  {
    var packed := Pack(Flat(es));
    PackFlat(Flat(es));
    ConcatLast([], AppendRun(packed, l, p));
    assert [] + [AppendRun(packed, l, p)] == [AppendRun(packed, l, p)];
    assert Concat([]) + AppendRun(packed, l, p) == AppendRun(packed, l, p);
    AppendRunFlat(packed, l, p);
  }

  /** An append that succeeds adds the pair (l, p) to the mapping, and nothing else. */
  lemma AppendTreeFlat(tv: TreeVal, l: nat, p: nat, max: nat)
    requires AppendTree(tv, l, p, max).Some?
    ensures FlatTree(AppendTree(tv, l, p, max).value) == FlatTree(tv) + [(l, p)]
  {
    match tv
    case InlineV(es) =>
      AppendRunFlat(es, l, p);
      PromoteFlat(es, l, p);
    case IndexV(ls) =>
      if ls != [] && Fits(ls[|ls| - 1], l, p, max) {
        var k := |ls| - 1;
        assert ls == ls[..k] + [ls[k]];
        assert ls[k := AppendRun(ls[k], l, p)] == ls[..k] + [AppendRun(ls[k], l, p)];
        LastLeafFlat(ls[..k], ls[k], l, p);
      } else {
        NewLeafFlat(ls, l, p);
      }
  }

  // Trees built by appends alone

  /** `es` laid out with every leaf full except perhaps the last. */
  ghost predicate Packed(tv: TreeVal, es: seq<Extent>, max: nat) {
    match tv
    case InlineV(e) => e == es && |es| <= MAX_INLINE
    case IndexV(ls) =>
      && 1 <= |ls| <= MAX_INLINE < |es|
      && Concat(ls) == es
      && (forall i :: 0 <= i < |ls| - 1 ==> |ls[i]| == max)
      && 1 <= |ls[|ls| - 1]| <= max
  }

  lemma {:induction false} PackedSize(ls: seq<seq<Extent>>, max: nat)
    requires forall i :: 0 <= i < |ls| ==> |ls[i]| == max
    ensures |Concat(ls)| == |ls| * max
  {
    if ls != [] {
      var k := |ls| - 1;
      PackedSize(ls[..k], max);
      assert (k + 1) * max == k * max + max;
    }
  }

  /** A packed tree has no more leaves than its entries need. */
  lemma PackedLeaves(ls: seq<seq<Extent>>, es: seq<Extent>, max: nat)
    requires Packed(IndexV(ls), es, max)
    ensures |es| == (|ls| - 1) * max + |ls[|ls| - 1]|
  {
    PackedSize(ls[..|ls| - 1], max);
  }

  lemma {:induction false} SizeBound(ls: seq<seq<Extent>>, max: nat)
    requires forall i :: 0 <= i < |ls| ==> |ls[i]| <= max
    ensures |Concat(ls)| <= |ls| * max
  {
    if ls != [] {
      var k := |ls| - 1;
      SizeBound(ls[..k], max);
      assert (k + 1) * max == k * max + max;
    }
  }

  function LeafCount(tv: TreeVal): nat {
    if tv.IndexV? then |tv.ls| else 0
  }

  lemma AppendRunTail(a: seq<Extent>, b: seq<Extent>, l: nat, p: nat)
    requires b != []
    ensures CanMerge(a + b, l, p) == CanMerge(b, l, p)
    ensures AppendRun(a + b, l, p) == a + AppendRun(b, l, p)
  {
    var es := a + b;
    assert es[|es| - 1] == b[|b| - 1];
  }

  lemma SplitLast(ls: seq<seq<Extent>>, es: seq<Extent>, l: nat, p: nat)
    requires ls != [] && Concat(ls) == es && ls[|ls| - 1] != []
    ensures var k := |ls| - 1;
            && CanMerge(es, l, p) == CanMerge(ls[k], l, p)
            && Concat(ls[..k] + [AppendRun(ls[k], l, p)]) == AppendRun(es, l, p)
  {
    hide AppendRun;
    hide CanMerge;
    var k := |ls| - 1;
    ConcatLast(ls[..k], AppendRun(ls[k], l, p));
    AppendRunTail(Concat(ls[..k]), ls[k], l, p);
  }

  lemma AppendPackedIndex(ls: seq<seq<Extent>>, es: seq<Extent>, l: nat, p: nat, max: nat)
    requires max > 0 && Packed(IndexV(ls), es, max)
    requires |AppendRun(es, l, p)| <= MAX_INLINE * max
    ensures AppendTree(IndexV(ls), l, p, max).Some?
    ensures Packed(AppendTree(IndexV(ls), l, p, max).value, AppendRun(es, l, p), max)
    ensures NeedsLeaf(IndexV(ls), l, p, max) ==> |AppendRun(es, l, p)| == |ls| * max + 1
  {
    hide Concat;
    var k := |ls| - 1;
    PackedLeaves(ls, es, max);
    SplitLast(ls, es, l, p);
    if Fits(ls[k], l, p, max) {
      assert ls[k := AppendRun(ls[k], l, p)] == ls[..k] + [AppendRun(ls[k], l, p)];
    } else {
      assert (k + 1) * max == k * max + max;
      assert |ls| >= MAX_INLINE ==> |ls| * max == MAX_INLINE * max;
      ConcatLast(ls, [Extent(l, 1, p)]);
    }
  }

  /** Appending to a packed tree keeps it packed, as long as its entries fit in four leaves. */
  lemma AppendPacked(tv: TreeVal, ps: seq<Pair>, l: nat, p: nat, max: nat)
    requires max > MAX_INLINE && Packed(tv, Pack(ps), max)
    requires |Pack(ps + [(l, p)])| <= MAX_INLINE * max
    ensures AppendTree(tv, l, p, max).Some?
    ensures Packed(AppendTree(tv, l, p, max).value, Pack(ps + [(l, p)]), max)
    ensures NeedsLeaf(tv, l, p, max) ==>
              |Pack(ps + [(l, p)])| == if tv.InlineV? then MAX_INLINE + 1 else LeafCount(tv) * max + 1
  {
    hide Pack;
    hide Flat;
    PackSnoc(ps, l, p);
    match tv
    case InlineV(es) =>
      if !Fits(es, l, p, MAX_INLINE) {
        PackFlat(ps);
        ConcatLast([], AppendRun(es, l, p));
      }
    case IndexV(ls) =>
      AppendPackedIndex(ls, Pack(ps), l, p, max);
  }

  /** How many leaves a packed tree of so many entries has. */
  function LeafNeed(entries: nat, max: nat): nat
    requires max > 0
  {
    if entries <= MAX_INLINE then 0 else (entries - 1) / max + 1
  }

  lemma LeafNeedBounds(entries: nat, max: nat, leaves: nat)
    requires max > 0
    ensures entries > MAX_INLINE ==> 0 < LeafNeed(entries, max) && entries <= LeafNeed(entries, max) * max
    ensures (if leaves == 0 then entries <= MAX_INLINE else entries <= leaves * max) ==>
              LeafNeed(entries, max) <= leaves
  {
    if entries > MAX_INLINE {
      var q, r := (entries - 1) / max, (entries - 1) % max;
      assert entries - 1 == q * max + r;
      assert (q + 1) * max == q * max + max;
      assert q >= leaves ==> q * max >= leaves * max;
    }
  }

  lemma LeafNeedMonotone(entries: nat, more: nat, max: nat)
    requires max > 0 && entries <= more
    ensures LeafNeed(entries, max) <= LeafNeed(more, max)
  {
    LeafNeedBounds(entries, max, LeafNeed(more, max));
    LeafNeedBounds(more, max, 0);
  }

  lemma FitsFourLeaves(entries: nat, max: nat)
    requires max > MAX_INLINE
    ensures LeafNeed(entries, max) <= MAX_INLINE <==> entries <= MAX_INLINE * max
  {
    hide LeafNeed;
    LeafNeedBounds(entries, max, MAX_INLINE);
    var need := LeafNeed(entries, max);
    assert need <= MAX_INLINE ==> need * max <= MAX_INLINE * max;
  }

  lemma LeafNeedIs(k: nat, last: nat, max: nat)
    requires 0 < k && 1 <= last <= max && (k - 1) * max + last > MAX_INLINE
    ensures LeafNeed((k - 1) * max + last, max) == k
  {
    var e := (k - 1) * max + last - 1;
    var q, r := e / max, e % max;
    assert e == q * max + r;
    assert q < k - 1 ==> (q + 1) * max <= (k - 1) * max;
    assert q > k - 1 ==> q * max >= k * max;
    assert k * max == (k - 1) * max + max && (q + 1) * max == q * max + max;
  }

  /** A packed tree has exactly the leaves its entries need. */
  lemma PackedNeed(tv: TreeVal, es: seq<Extent>, max: nat)
    requires max > MAX_INLINE && Packed(tv, es, max)
    ensures LeafCount(tv) == LeafNeed(|es|, max)
  {
    if tv.IndexV? {
      hide LeafNeed;
      PackedLeaves(tv.ls, es, max);
      LeafNeedIs(|tv.ls|, |tv.ls[|tv.ls| - 1]|, max);
    }
  }

  lemma AppendFitsFour(tv: TreeVal, es: seq<Extent>, l: nat, p: nat, max: nat)
    requires max > MAX_INLINE && Packed(tv, es, max)
    ensures AppendTree(tv, l, p, max).Some? ==> |AppendRun(es, l, p)| <= MAX_INLINE * max
  {
    hide Pack;
    hide Flat;
    match tv
    case InlineV(_) =>
    case IndexV(ls) =>
      var k := |ls| - 1;
      PackedLeaves(ls, es, max);
      SplitLast(ls, es, l, p);
      assert k < MAX_INLINE - 1 ==> (k + 1) * max <= (MAX_INLINE - 1) * max;
      assert (k + 1) * max == k * max + max;
  }

  /**
   An append to a packed tree fails exactly when its entries would need a fifth leaf. It takes a
   new leaf exactly when they need one more than before.
   */
  lemma AppendNeed(tv: TreeVal, ps: seq<Pair>, l: nat, p: nat, max: nat)
    requires max > MAX_INLINE && Packed(tv, Pack(ps), max)
    ensures var need, r := LeafNeed(|Pack(ps + [(l, p)])|, max), AppendTree(tv, l, p, max);
            && LeafCount(tv) == LeafNeed(|Pack(ps)|, max)
            && (r.Some? <==> need <= MAX_INLINE)
            && (r.Some? ==> Packed(r.value, Pack(ps + [(l, p)]), max) && LeafCount(r.value) == need)
            && (r.Some? ==> need == LeafCount(tv) + if NeedsLeaf(tv, l, p, max) then 1 else 0)
  {
    hide Pack;
    hide Packed;
    hide LeafNeed;
    hide AppendRun;
    hide Flat;
    PackSnoc(ps, l, p);
    var es := Pack(ps + [(l, p)]);
    PackedNeed(tv, Pack(ps), max);
    AppendFitsFour(tv, Pack(ps), l, p, max);
    FitsFourLeaves(|es|, max);
    if |es| <= MAX_INLINE * max {
      AppendPacked(tv, ps, l, p, max);
      PackedNeed(AppendTree(tv, l, p, max).value, es, max);
    }
  }

  /**
   What a rebuild from `plan` keeps when at most `budget` leaves can be had: a pair is left out when
   its entry would need one more.
   */
  function Fitting(plan: seq<Pair>, budget: nat, max: nat): seq<Pair>
    requires max > 0
  {
    if plan == [] then []
    else
      var k := |plan| - 1;
      var done := Fitting(plan[..k], budget, max);
      if LeafNeed(|Pack(done + [plan[k]])|, max) <= budget then done + [plan[k]] else done
  }

  lemma {:induction false} FittingMember(plan: seq<Pair>, budget: nat, max: nat, q: Pair)
    requires max > 0 && q in Fitting(plan, budget, max)
    ensures q in plan
  {
    hide Pack;
    hide LeafNeed;
    if plan != [] {
      var k := |plan| - 1;
      if q in Fitting(plan[..k], budget, max) {
        FittingMember(plan[..k], budget, max, q);
      }
    }
  }

  lemma FittingSnoc(plan: seq<Pair>, q: Pair, budget: nat, max: nat)
    requires max > 0
    ensures var done := Fitting(plan, budget, max);
            Fitting(plan + [q], budget, max) ==
            if LeafNeed(|Pack(done + [q])|, max) <= budget then done + [q] else done
  {
    assert (plan + [q])[..|plan|] == plan;
  }

  /** Nothing is left out exactly when the whole plan's entries need no more leaves than can be had. */
  lemma {:induction false} FittingAll(plan: seq<Pair>, budget: nat, max: nat)
    requires max > 0
    ensures |Fitting(plan, budget, max)| <= |plan|
    ensures Fitting(plan, budget, max) == plan <==> LeafNeed(|Pack(plan)|, max) <= budget
  {
    hide LeafNeed;
    LeafNeedBounds(0, max, 0);
    if plan != [] {
      hide Pack;
      var k := |plan| - 1;
      FittingAll(plan[..k], budget, max);
      PackMonotone(plan, k);
      LeafNeedMonotone(|Pack(plan[..k])|, |Pack(plan)|, max);
      assert plan == plan[..k] + [plan[k]];
    }
  }
}
