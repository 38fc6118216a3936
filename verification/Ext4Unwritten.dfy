/**
 A write that leaves an invalid state behind. The volume has eight blocks of 1024 bytes, two of them
 free, and a file with three scattered blocks. Writing two further blocks takes the first free block
 as a fourth entry. The second one would need a leaf, for which no block is left: write_file returns
 without writing back the inode that holds the fourth entry.
 */
module Ext4Unwritten {
  import opened Ext4Layout
  import opened Ext4Cache
  import opened Ext4Allocator
  import opened Ext4Extents
  import opened Ext4Trees
  import opened Ext4Ownership
  import opened Ext4Content
  import opened Ext4Edits
  import opened Ext4Plans
  import opened Ext4Files

  function Volume(): Geometry {
    Geometry(1024, 1, 8, 1, 1, [3], {1, 2, 3})
  }

  const BITS := [true, true, true, false, true, true, true, false]

  function Blocks(): seq<Block> {
    var data := Bytes(seq(1024, _ => 0));
    [data, Super(2), Descriptors([GroupDesc(3, 2)]), Bitmap(BITS), data, data, data, data, data]
  }

  function Runs(): seq<Extent> {
    [Extent(0, 1, 5), Extent(10, 1, 6), Extent(20, 1, 7)]
  }

  function Inodes(): seq<Inode> {
    [Inode(true, 0, 0, 0, Inline([])), Inode(true, 21 * 1024, 6, 1, Inline(Runs()))]
  }

  ghost function InUse(): set<nat> {
    {1, 2, 3, 5, 6, 7}
  }

  ghost function ThreeBlocks(): Disk {
    Disk(Volume(), Blocks(), InUse(), Inodes(), {1}, map b | b in InUse() :: if b < 4 then 0 else 1)
  }

  lemma VolumeOk()
    ensures Volume().Ok() && Volume().LeafMax() == 84
  {
  }

  lemma OneMore(es: seq<Extent>, l: nat, p: nat)
    ensures Flat(es + [Extent(l, 1, p)]) == Flat(es) + [(l, p)]
  {
    assert (es + [Extent(l, 1, p)])[..|es|] == es;
    assert Ext4Extents.Run(Extent(l, 1, p)) == [(l, p)];
  }

  lemma RunsFlat()
    ensures Flat(Runs()) == [(0, 5), (10, 6), (20, 7)]
    ensures Flat(Runs() + [Extent(30, 1, 4)]) == [(0, 5), (10, 6), (20, 7), (30, 4)]
  {
    hide Flat;
    assert Flat([]) == [] by {
      NoneFlat();
    }
    OneMore([], 0, 5);
    OneMore([Extent(0, 1, 5)], 10, 6);
    OneMore([Extent(0, 1, 5), Extent(10, 1, 6)], 20, 7);
    OneMore(Runs(), 30, 4);
    assert [] + [Extent(0, 1, 5)] == [Extent(0, 1, 5)];
    assert [Extent(0, 1, 5)] + [Extent(10, 1, 6)] == [Extent(0, 1, 5), Extent(10, 1, 6)];
    assert [Extent(0, 1, 5), Extent(10, 1, 6)] + [Extent(20, 1, 7)] == Runs();
  }

  lemma NoneFlat()
    ensures Flat([]) == []
  {
  }

  lemma ThreeBlocksFile()
    ensures ThreeBlocks().File(1) == [(0, 5), (10, 6), (20, 7)] && Phys(ThreeBlocks().File(1)) == {5, 6, 7}
    ensures FileOk(Volume(), Blocks(), InUse(), Inline(Runs()))
  {
    RunsFlat();
    hide Flat;
    assert Phys(ThreeBlocks().File(1)) == {5, 6, 7};
  }

  lemma ThreeBlocksConsistent()
    ensures Consistent(ThreeBlocks())
  {
    ThreeBlocksFile();
    hide FileOk;
    hide Pairs;
    hide Phys;
    hide Blocks;
    var d := ThreeBlocks();
    assert BlocksOf(d.owner, 0) == {1, 2, 3};
    assert BlocksOf(d.owner, 1) == {5, 6, 7};
  }

  lemma BitsAre(alloc: set<nat>, bits: seq<bool>)
    requires |bits| == 8 && forall i :: 0 <= i < 8 ==> bits[i] == (Volume().BlockOf(0, i) in alloc)
    ensures GroupBits(Volume(), alloc, 0) == bits
  {
  }

  lemma TwoClear()
    ensures CountClear(BITS) == 2
  {
    hide CountClear;
    var all := seq(8, _ => true);
    CountClearAll(all, true);
    CountClearFlip(all, 3, false);
    CountClearFlip(all[3 := false], 7, false);
    assert all[3 := false][7 := false] == BITS;
  }

  lemma TwoFree()
    ensures Volume().Ok() && Accounted(Volume(), Blocks(), InUse(), 2)
  {
    TwoClear();
    VolumeOk();
    hide CountClear;
    var geo, view := Volume(), Blocks();
    assert GroupOk(geo, view, InUse(), 0);
    assert SumFree(geo, view, 0) == 0;
  }

  ghost function Before(): Plan {
    Plan(InUse(), InlineV(Runs()))
  }

  ghost function Between(): Plan {
    Plan(InUse() + {4}, InlineV(Runs() + [Extent(30, 1, 4)]))
  }

  lemma Unmapped()
    ensures Lookup(FlatTree(Before().tree), 30) == None
    ensures Lookup(FlatTree(Between().tree), 31) == None
  {
    RunsFlat();
    hide Flat;
    assert [(0, 5), (10, 6), (20, 7), (30, 4)] == [(0, 5), (10, 6), (20, 7)] + [(30, 4)];
    LookupAppend([(0, 5), (10, 6), (20, 7)], 30, 4, 31);
    NotThere(30);
    NotThere(31);
  }

  lemma NotThere(l: nat)
    requires l > 20
    ensures Lookup([(0, 5), (10, 6), (20, 7)], l) == None
  {
    LookupAppend([], 0, 5, l);
    LookupAppend([(0, 5)], 10, 6, l);
    LookupAppend([(0, 5), (10, 6)], 20, 7, l);
    assert [(0, 5)] + [(10, 6)] == [(0, 5), (10, 6)] && [] + [(0, 5)] == [(0, 5)];
    assert [(0, 5), (10, 6)] + [(20, 7)] == [(0, 5), (10, 6), (20, 7)];
  }

  /** In the one group the first free block is found. */
  lemma Found(alloc: set<nat>, near: nat, bits: seq<bool>, i: nat)
    requires GroupBits(Volume(), alloc, 0) == bits && |bits| == 8
    requires i < 8 && !bits[i] && forall j :: 0 <= j < i ==> bits[j]
    ensures Pick(Volume(), alloc, near) == 1 + i
  {
    hide CountClear;
    hide GroupBits;
    CountClearZero(bits);
    IsFirstZero(bits, i);
    PickPass(Volume(), alloc, Preferred(Volume(), near), 0);
  }

  lemma FirstTaken()
    ensures Ensuring(Volume(), Before(), 30, 0) == Attempt(Taken, Between(), 4)
  {
    hide Lookup;
    hide Flat;
    hide Pick;
    Unmapped();
    BitsAre(InUse(), BITS);
    Found(InUse(), 0, BITS, 3);
  }

  lemma SecondRefused()
    ensures Ensuring(Volume(), Between(), 31, 4).status == TreeFull
  {
    hide Lookup;
    hide Flat;
    hide Pick;
    hide Pack;
    hide Exhausted;
    Unmapped();
    var alloc, bits := Between().alloc, BITS[3 := true];
    BitsAre(alloc, bits);
    Found(alloc, 4, bits, 7);
    BitsAre(alloc + {8}, bits[7 := true]);
    NoneLeft(alloc + {8}, bits[7 := true]);
  }

  lemma NoneLeft(alloc: set<nat>, bits: seq<bool>)
    requires GroupBits(Volume(), alloc, 0) == bits && forall i :: 0 <= i < |bits| ==> bits[i]
    ensures Exhausted(Volume(), alloc)
  {
    hide CountClear;
    CountClearZero(bits);
  }

  lemma TheFate()
    ensures Fate(Volume(), Before(), 30 * 1024, 2048) == Course(TreeFull, Between(), 31)
    ensures !StopsAtFirst(Volume(), Before(), 30 * 1024, 2048)
  {
    hide Ensuring;
    hide Flat;
    hide Lookup;
    FirstTaken();
    SecondRefused();
    EndsStep(Volume(), Before(), 30, 32, 0);
    EndsStep(Volume(), Between(), 31, 32, 4);
    Unmapped();
  }

  /** The write ends with the tree exhausted, and the state it leaves behind is not valid. */
  method LeavesInvalid() returns (fs: FileSystem, r: WriteResult)
    ensures fresh(fs) && r == TreeExhausted && !fs.Valid()
  {
    hide Consistent;
    hide Accounted;
    hide Blocks;
    hide Fate;
    hide StopsAtFirst;
    hide Overwritten;
    hide OthersKept;
    TwoFree();
    ThreeBlocksConsistent();
    TheFate();
    var cache := new WriteBackCache<Block>(1, Blocks(), Bytes([]));
    var a := new Allocator(Volume(), cache, 2, InUse());
    fs := new FileSystem(a, 1, Inodes(), {1}, ThreeBlocks().owner);
    assert PlanOf(fs.D(), 1) == Before();
    var ino;
    ghost var w;
    r, ino, w := fs.WriteFile(1, 30 * 1024, seq(2048, _ => 0));
  }
}
