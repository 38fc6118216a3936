/**
 A volume on which a shrink loses a block. One group has 65544 blocks of 8192 bytes; a file of six
 scattered blocks keeps its extents in one leaf. Cutting the file to five blocks frees its last
 block and the leaf, which brings the free blocks of the group to 65536: the count reads 0, no leaf
 is found for the fifth extent, and its block stays allocated without an owner.
 */
module Ext4LostBlock {
  import opened Ext4Layout
  import opened Ext4Allocator
  import opened Ext4Extents
  import opened Ext4Trees
  import opened Ext4Ownership
  import opened Ext4Edits
  import opened Ext4Rebuild

  const BLOCKS: nat := 65544
  const LEAF: nat := 4

  ghost function Volume(): Geometry {
    Geometry(8192, 0, BLOCKS, 1, 1, [2], {0, 1, 2})
  }

  ghost function Singles(k: nat): seq<Extent> {
    seq(k, i requires 0 <= i < k => Extent(i, 1, 10 + 2 * i))
  }

  ghost function Scattered(k: nat): seq<Pair> {
    seq(k, i requires 0 <= i < k => (i, 10 + 2 * i))
  }

  lemma {:induction false} SinglesFlat(k: nat)
    ensures Flat(Singles(k)) == Scattered(k)
  {
    if k > 0 {
      SinglesFlat(k - 1);
      assert Singles(k)[..k - 1] == Singles(k - 1);
      assert Run(Singles(k)[k - 1]) == [(k - 1, 10 + 2 * (k - 1))];
    }
  }

  /** No two of the blocks are neighbours: each needs an entry of its own. */
  lemma {:induction false} ScatteredPack(k: nat)
    ensures Pack(Scattered(k)) == Singles(k)
  {
    if k > 0 {
      ScatteredPack(k - 1);
      assert Scattered(k) == Scattered(k - 1) + [(k - 1, 10 + 2 * (k - 1))];
      PackSnoc(Scattered(k - 1), k - 1, 10 + 2 * (k - 1));
    } else {
      PackNil();
    }
  }

  lemma {:induction false} ScatteredBelow(k: nat, n: nat)
    ensures Below(Scattered(k), n) == Scattered(if k < n then k else n)
  {
    if k > 0 {
      ScatteredBelow(k - 1, n);
      assert Scattered(k)[..k - 1] == Scattered(k - 1) && Scattered(k)[k - 1].0 == k - 1;
      assert Scattered(k) == Scattered(k - 1) + [Scattered(k)[k - 1]];
    }
  }

  lemma NextEntry(j: nat, k: nat)
    requires j <= k
    ensures |Pack(Scattered(j) + [(k, 10 + 2 * k)])| == j + 1
  {
    hide Pack;
    ScatteredPack(j);
    PackSnoc(Scattered(j), k, 10 + 2 * k);
  }

  lemma ScatteredMore(k: nat)
    ensures Scattered(k + 1) == Scattered(k) + [(k, 10 + 2 * k)] && Scattered(0) == []
  {
  }

  /** Without a leaf to be had, four entries stay. */
  lemma {:induction false} ScatteredFitting(k: nat, max: nat)
    requires max > 0
    ensures Fitting(Scattered(k), 0, max) == Scattered(if k < MAX_INLINE then k else MAX_INLINE)
  {
    hide Pack;
    hide LeafNeed;
    hide Scattered;
    hide Fitting;
    ScatteredMore(0);
    NothingFits(max);
    if k > 0 {
      var q := (k - 1, 10 + 2 * (k - 1));
      var j := if k - 1 < MAX_INLINE then k - 1 else MAX_INLINE;
      ScatteredFitting(k - 1, max);
      ScatteredMore(k - 1);
      ScatteredMore(j);
      FittingSnoc(Scattered(k - 1), q, 0, max);
      NextFits(j, k - 1, max);
    }
  }

  lemma NothingFits(max: nat)
    requires max > 0
    ensures Fitting([], 0, max) == []
  {
  }

  /** One entry more fits into the inode or not at all. */
  lemma NextFits(j: nat, k: nat, max: nat)
    requires j <= k && max > 0
    ensures LeafNeed(|Pack(Scattered(j) + [(k, 10 + 2 * k)])|, max) <= 0 <==> j + 1 <= MAX_INLINE
  {
    hide Pack;
    hide LeafNeed;
    hide Scattered;
    NextEntry(j, k);
    LeafNeedBounds(j + 1, max, 0);
  }

  /** In a volume of one group, the bits of the blocks that are not allocated are clear. */
  lemma {:induction false} CountOneGroup(geo: Geometry, alloc: set<nat>)
    requires geo.Ok() && geo.groups == 1 && forall b :: b in alloc ==> geo.InRange(b)
    ensures CountClear(GroupBits(geo, alloc, 0)) == geo.perGroup - |alloc|
    decreases |alloc|
  {
    hide geo.Ok;
    hide CountClear;
    if alloc == {} {
      CountClearAll(GroupBits(geo, alloc, 0), false);
    } else {
      var b :| b in alloc;
      var rest := alloc - {b};
      CountOneGroup(geo, rest);
      Groups(geo, b);
      GroupBitsTake(geo, rest, b, 0);
      geo.Locate(b);
      assert rest + {b} == alloc;
      CountClearFlip(GroupBits(geo, rest, 0), geo.IndexOf(b), true);
    }
  }

  ghost function InUse(): set<nat> {
    {0, 1, 2, LEAF, 10, 12, 14, 16, 18, 20}
  }

  ghost function Blocks(): seq<Block> {
    seq(BLOCKS, i =>
      if i == 0 then Super(BLOCKS - 10)
      else if i == 1 then Descriptors([GroupDesc(2, (BLOCKS - 10) % COUNT_WRAP)])
      else if i == 2 then Bitmap(GroupBits(Volume(), InUse(), 0))
      else if i == LEAF then Leaf(Singles(6), Volume().LeafMax())
      else Bytes(seq(8192, _ => 0)))
  }

  ghost function SixBlocks(): Disk {
    Disk(Volume(), Blocks(), InUse(),
         [Inode(true, 0, 0, 0, Inline([])), Inode(true, 6 * 8192, 96, 1, Index([LEAF]))], {1},
         map b | b in InUse() :: if b < 3 then 0 else 1)
  }

  lemma VolumeOk()
    ensures Volume().Ok() && Volume().LeafMax() == 681
  {
  }

  lemma SixBlocksFile()
    ensures SixBlocks().File(1) == Scattered(6)
  {
    hide Flat;
    hide Singles;
    var tv := Load(Blocks(), Index([LEAF]));
    assert tv.ls == [Singles(6)];
    ConcatLast([], Singles(6));
    assert [] + [Singles(6)] == [Singles(6)];
    assert Concat([]) + Singles(6) == Singles(6);
    SinglesFlat(6);
  }

  lemma {:induction false} ScatteredPhys(k: nat)
    ensures Phys(Scattered(k + 1)) == Phys(Scattered(k)) + {10 + 2 * k}
  {
    assert Scattered(k + 1) == Scattered(k) + [(k, 10 + 2 * k)];
    PhysAppend(Scattered(k), k, 10 + 2 * k);
  }

  lemma FivePhys()
    ensures Phys(Scattered(4)) == {10, 12, 14, 16}
    ensures Phys(Scattered(5)) == {10, 12, 14, 16, 18}
    ensures Phys(Scattered(6)) == {10, 12, 14, 16, 18, 20}
  {
    hide Phys;
    assert Phys(Scattered(0)) == {} by {
      PhysNone();
    }
    ScatteredPhys(0);
    ScatteredPhys(1);
    ScatteredPhys(2);
    ScatteredPhys(3);
    ScatteredPhys(4);
    ScatteredPhys(5);
  }

  lemma PhysNone()
    ensures Phys(Scattered(0)) == {}
  {
  }

  lemma SixBlocksTree()
    ensures FileOk(Volume(), Blocks(), InUse(), Index([LEAF]))
  {
    SixBlocksFile();
    FivePhys();
    hide Pairs;
    var view := Blocks();
    assert RunsBounded(Singles(6));
    assert LeafOk(Volume(), view, InUse(), LEAF);
    forall b | b in {10, 12, 14, 16, 18, 20}
      ensures DataOk(Volume(), view, InUse(), b)
    {
    }
  }

  lemma SixBlocksConsistent()
    ensures Consistent(SixBlocks()) && Lost(SixBlocks()) == {}
  {
    SixBlocksTree();
    SixBlocksFile();
    FivePhys();
    hide FileOk;
    hide Pairs;
    hide Phys;
    hide Blocks;
    var d := SixBlocks();
    assert Leaves(Index([LEAF])) == {LEAF};
    assert BlocksOf(d.owner, 0) == {0, 1, 2};
    assert BlocksOf(d.owner, 1) == {LEAF, 10, 12, 14, 16, 18, 20};
  }

  lemma FreeNow()
    ensures CountClear(GroupBits(Volume(), InUse(), 0)) == BLOCKS - 10
  {
    VolumeOk();
    assert |InUse()| == 10;
    CountOneGroup(Volume(), InUse());
  }

  lemma SixBlocksAccounted()
    ensures Volume().Ok() && Accounted(Volume(), Blocks(), InUse(), BLOCKS - 10)
  {
    VolumeOk();
    FreeNow();
    hide CountClear;
    var geo, view := Volume(), Blocks();
    assert Bits(geo, view, 0) == GroupBits(geo, InUse(), 0);
    assert GroupOk(geo, view, InUse(), 0);
    assert SumFree(geo, view, 0) == 0;
    assert SumFree(geo, view, 1) == BLOCKS - 10;
  }

  lemma KeptEight()
    ensures KeptBlocks(SixBlocks(), 1, 5) == {0, 1, 2, 10, 12, 14, 16, 18}
    ensures Below(SixBlocks().File(1), 5) == Scattered(5)
  {
    SixBlocksFile();
    FivePhys();
    ScatteredBelow(6, 5);
    hide Pairs;
    hide Phys;
    hide Below;
    hide Scattered;
    hide Blocks;
    assert Leaves(Index([LEAF])) == {LEAF};
  }

  /** After the cut the group has 65536 free blocks, and its count reads 0. */
  lemma NothingFound()
    ensures Residual(Volume(), KeptBlocks(SixBlocks(), 1, 5), 1) == 0
  {
    VolumeOk();
    KeptEight();
    hide KeptBlocks;
    var kept := KeptBlocks(SixBlocks(), 1, 5);
    assert |kept| == 8;
    CountOneGroup(Volume(), kept);
    hide CountClear;
    assert CountRead(Volume(), kept, 0) == 0;
    assert Residual(Volume(), kept, 0) == 0;
  }

  lemma FourSurvive()
    ensures Volume().LeafMax() > 0 && !Rebuildable(SixBlocks(), 1, 5)
    ensures Survivors(SixBlocks(), 1, 5) == Scattered(4) && Dropped(SixBlocks(), 1, 5) == {18}
  {
    hide KeptBlocks;
    hide Residual;
    hide LeafNeed;
    hide Pack;
    hide Fitting;
    hide Below;
    hide Pairs;
    hide Phys;
    hide Blocks;
    hide Scattered;
    VolumeOk();
    FivePhys();
    KeptEight();
    NothingFound();
    FiveEntries();
    ScatteredFitting(5, 681);
    LeafNeedBounds(5, 681, 0);
  }

  lemma FiveEntries()
    ensures |Pack(Scattered(5))| == 5
  {
    ScatteredPack(5);
  }

  /** A valid volume, a file on it, and a cut that loses the block 18. */
  lemma LosesBlock()
    ensures var d := SixBlocks();
            && d.geo.Ok() && Accounted(d.geo, d.view, d.alloc, BLOCKS - 10) && Consistent(d) && Lost(d) == {}
            && d.geo.LeafMax() > 0 && !Rebuildable(d, 1, 5)
            && Below(d.File(1), 5) == Scattered(5) && Survivors(d, 1, 5) == Scattered(4)
            && Dropped(d, 1, 5) == {18}
  {
    hide Consistent;
    hide Accounted;
    hide Rebuildable;
    hide Survivors;
    hide Dropped;
    hide Below;
    hide Pairs;
    hide Blocks;
    hide Lost;
    SixBlocksConsistent();
    SixBlocksAccounted();
    KeptEight();
    FourSurvive();
  }
}
