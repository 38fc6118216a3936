/**
 A volume on which no block can be allocated although half of it is free: two groups of 65536 blocks,
 standard for blocks of 8192 bytes, the first full and the second free. Both free counts read 0.
 */
module Ext4Overlooked {
  import opened Ext4Layout
  import opened Ext4Cache
  import opened Ext4Allocator

  function Volume(): Geometry {
    Geometry(8192, 0, COUNT_WRAP, 2, 2, [2, 3], {0, 1, 2, 3})
  }

  function Blocks(): seq<Block> {
    seq(2 * COUNT_WRAP, i =>
      if i == 0 then Super(COUNT_WRAP)
      else if i == 1 then Descriptors([GroupDesc(2, 0), GroupDesc(3, 0)])
      else if i == 2 then Bitmap(seq(COUNT_WRAP, _ => true))
      else if i == 3 then Bitmap(seq(COUNT_WRAP, _ => false))
      else Bytes([]))
  }

  ghost function FirstGroup(): set<nat> {
    set b: nat | b < COUNT_WRAP && Volume().InRange(b)
  }

  lemma GroupsCounted()
    ensures CountClear(Bits(Volume(), Blocks(), 0)) == 0
    ensures CountClear(Bits(Volume(), Blocks(), 1)) == COUNT_WRAP
  {
    CountClearAll(Bits(Volume(), Blocks(), 0), true);
    CountClearAll(Bits(Volume(), Blocks(), 1), false);
  }

  lemma HalfFree()
    ensures Volume().Ok() && Accounted(Volume(), Blocks(), FirstGroup(), COUNT_WRAP)
    ensures Exhausted(Volume(), FirstGroup()) && !Full(Volume(), FirstGroup())
  {
    GroupsCounted();
    hide CountClear;
    var geo, view, alloc := Volume(), Blocks(), FirstGroup();
    assert GroupOk(geo, view, alloc, 0) && GroupOk(geo, view, alloc, 1);
    GroupBitsAre(geo, view, alloc, 0);
    GroupBitsAre(geo, view, alloc, 1);
    assert SumFree(geo, view, 0) == 0 && SumFree(geo, view, 1) == 0;
    assert geo.InRange(COUNT_WRAP) && COUNT_WRAP !in alloc;
  }

  /** The second group is overlooked. */
  method FreeGroupOverlooked() returns (a: Allocator, r: nat)
    ensures fresh(a) && a.Valid() && r == 0 && a.freeBlocks == COUNT_WRAP && !Full(a.geo, a.alloc)
  {
    hide Accounted;
    hide Blocks;
    hide Exhausted;
    HalfFree();
    var cache := new WriteBackCache<Block>(1, Blocks(), Bytes([]));
    a := new Allocator(Volume(), cache, COUNT_WRAP, FirstGroup());
    r := a.AllocBlock(0);
  }
}
