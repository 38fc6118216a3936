/**
 The block allocator: one bitmap per group, and the number of free blocks kept in the group
 descriptor, in the superblock in memory and in the superblock on disk.
 */
module Ext4Allocator {
  import opened Ext4Layout
  import opened Ext4Cache

  /** bg_free_blocks_count_lo has 16 bits. */
  const COUNT_WRAP: nat := 0x1_0000

  type BlockCache = WriteBackCache<Block>

  const SUPERBLOCK_OFFSET: nat := 1024

  /**
   What the superblock fixes. `fixed` are the blocks that hold file system metadata rather than
   belonging to an inode: they are never handed out and never freed.
   */
  datatype Geometry = Geometry(
    bsize: nat, firstData: nat, perGroup: nat, groups: nat,
    descsPerBlock: nat, bitmapOf: seq<nat>, fixed: set<nat>)
  {
    function SuperBlock(): nat
      requires bsize > 0
    {
      SUPERBLOCK_OFFSET / bsize
    }

    function DescBlock(g: nat): nat
      requires descsPerBlock > 0
    {
      (if bsize == 1024 then 2 else 1) + g / descsPerBlock
    }

    /** The group descriptors start in the block behind the superblock and fill block after block. */
    lemma DescPlace(g: nat)
      requires Ok()
      ensures 0 <= g - (DescBlock(g) - SuperBlock() - 1) * descsPerBlock < descsPerBlock
    {
      assert g == (g / descsPerBlock) * descsPerBlock + g % descsPerBlock;
    }

    /** Extent entries that fit in one block after its 12-byte header. */
    function LeafMax(): nat {
      if bsize < 12 then 0 else (bsize - 12) / 12
    }

    lemma LeafFull()
      requires bsize >= 12
      ensures 12 + 12 * LeafMax() <= bsize < 12 + 12 * (LeafMax() + 1)
    {
    }

    ghost predicate Ok() {
      && bsize in {1024, 2048, 4096, 8192, 16384, 32768}
      && 0 < perGroup && perGroup % 8 == 0
      && 0 < groups == |bitmapOf|
      && descsPerBlock > 0
      && (firstData == 0 ==> 0 in fixed)
      && SuperBlock() in fixed
      && (forall g :: 0 <= g < groups ==>
            && DescBlock(g) in fixed && DescBlock(g) != SuperBlock()
            && bitmapOf[g] in fixed && bitmapOf[g] != SuperBlock())
      && (forall g, h :: 0 <= g < groups && 0 <= h < groups ==> bitmapOf[g] != DescBlock(h))
      && (forall g, h :: 0 <= g < h < groups ==> bitmapOf[g] != bitmapOf[h])
    }

    predicate InRange(b: nat) {
      firstData <= b < firstData + groups * perGroup
    }

    function BlockOf(g: nat, i: nat): nat {
      firstData + g * perGroup + i
    }

    function GroupOf(b: nat): nat
      requires InRange(b) && perGroup > 0
    {
      (b - firstData) / perGroup
    }

    function IndexOf(b: nat): nat
      requires InRange(b) && perGroup > 0
    {
      (b - firstData) % perGroup
    }

    /** Block numbers of the groups' range and (group, index) pairs correspond one to one. */
    lemma Locate(b: nat)
      requires InRange(b) && perGroup > 0
      ensures GroupOf(b) < groups && IndexOf(b) < perGroup && BlockOf(GroupOf(b), IndexOf(b)) == b
    {
      var q := b - firstData;
      assert q == (q / perGroup) * perGroup + q % perGroup;
      var d := q / perGroup;
      assert d >= groups ==> d * perGroup >= groups * perGroup;
    }

    lemma Place(g: nat, i: nat)
      requires g < groups && i < perGroup
      ensures InRange(BlockOf(g, i)) && GroupOf(BlockOf(g, i)) == g && IndexOf(BlockOf(g, i)) == i
    {
      assert (g + 1) * perGroup <= groups * perGroup;
      assert (g + 1) * perGroup == g * perGroup + perGroup;
      DivModUnique(g * perGroup + i, perGroup, g, i);
    }
  }

  lemma DivModUnique(q: nat, m: nat, d: nat, r: nat)
    requires m > 0 && r < m && q == d * m + r
    ensures q / m == d && q % m == r
  {
    var e := q / m;
    assert q == e * m + q % m;
    assert d < e ==> (d + 1) * m <= e * m;
    assert e < d ==> (e + 1) * m <= d * m;
  }

  function CountClear(bits: seq<bool>): (n: nat)
    ensures n <= |bits|
  {
    if bits == [] then 0
    else CountClear(bits[..|bits| - 1]) + if bits[|bits| - 1] then 0 else 1
  }

  lemma {:induction false} CountClearFlip(bits: seq<bool>, i: nat, v: bool)
    requires i < |bits| && bits[i] != v
    ensures CountClear(bits[i := v]) == CountClear(bits) + if v then -1 else 1
  {
    var m := |bits| - 1;
    if i < m {
      CountClearFlip(bits[..m], i, v);
      assert bits[i := v][..m] == bits[..m][i := v];
    } else {
      assert bits[i := v][..m] == bits[..m];
    }
  }

  lemma {:induction false} CountClearZero(bits: seq<bool>)
    ensures CountClear(bits) == 0 <==> forall i :: 0 <= i < |bits| ==> bits[i]
  {
    if bits != [] {
      CountClearZero(bits[..|bits| - 1]);
    }
  }

  ghost function Desc(geo: Geometry, view: seq<Block>, g: nat): GroupDesc {
    if geo.descsPerBlock > 0 && geo.DescBlock(g) < |view| && view[geo.DescBlock(g)].Descriptors?
       && |view[geo.DescBlock(g)].descs| == geo.descsPerBlock
    then view[geo.DescBlock(g)].descs[g % geo.descsPerBlock]
    else GroupDesc(0, 0)
  }

  ghost function Bits(geo: Geometry, view: seq<Block>, g: nat): seq<bool> {
    if g < |geo.bitmapOf| && geo.bitmapOf[g] < |view| && view[geo.bitmapOf[g]].Bitmap?
    then view[geo.bitmapOf[g]].bits
    else []
  }

  ghost predicate GroupOk(geo: Geometry, view: seq<Block>, alloc: set<nat>, g: nat)
    requires geo.Ok() && g < geo.groups
  {
    && geo.DescBlock(g) < |view| && geo.bitmapOf[g] < |view|
    && view[geo.DescBlock(g)].Descriptors?
    && |view[geo.DescBlock(g)].descs| == geo.descsPerBlock
    && view[geo.bitmapOf[g]].Bitmap?
    && |Bits(geo, view, g)| == geo.perGroup
    && Desc(geo, view, g).bitmap == geo.bitmapOf[g]
    && Desc(geo, view, g).freeBlocks == CountClear(Bits(geo, view, g)) % COUNT_WRAP
    && (forall i :: 0 <= i < geo.perGroup ==> (Bits(geo, view, g)[i] <==> geo.BlockOf(g, i) in alloc))
  }

  /** The groups' clear bits added up. */
  ghost function SumFree(geo: Geometry, view: seq<Block>, k: nat): nat {
    if k == 0 then 0 else SumFree(geo, view, k - 1) + CountClear(Bits(geo, view, k - 1))
  }

  /** The bitmaps say exactly `alloc`, and the counts agree with the bitmaps, a group's count modulo its width. */
  ghost predicate Accounted(geo: Geometry, view: seq<Block>, alloc: set<nat>, free: nat)
    requires geo.Ok()
  {
    && geo.fixed <= alloc
    && (forall b :: b in alloc ==> b in geo.fixed || geo.InRange(b))
    && (forall b: nat :: geo.InRange(b) && b !in alloc ==> b < |view|)
    && (forall g :: 0 <= g < geo.groups ==> GroupOk(geo, view, alloc, g))
    && free == SumFree(geo, view, geo.groups)
    && geo.SuperBlock() < |view| && view[geo.SuperBlock()] == Super(free)
  }

  /** A bitmap, one descriptor and the superblock written. */
  ghost function Writes(
    geo: Geometry, view: seq<Block>, bitmap: nat, bits: seq<bool>, d: nat, k: nat, gd: GroupDesc, free: nat): seq<Block>
    requires geo.bsize > 0 && bitmap < |view| && d < |view| && geo.SuperBlock() < |view|
    requires view[d].Descriptors? && k < |view[d].descs|
  {
    view[bitmap := Bitmap(bits)]
        [d := Descriptors(view[d].descs[k := gd])]
        [geo.SuperBlock() := Super(free)]
  }

  /** A 16-bit count one lower or one higher. */
  function Step16(n: nat, down: bool): nat {
    if down then (n + COUNT_WRAP - 1) % COUNT_WRAP else (n + 1) % COUNT_WRAP
  }

  lemma Step16Counts(n: nat, down: bool)
    requires down ==> n > 0
    ensures Step16(n % COUNT_WRAP, down) == (if down then n - 1 else n + 1) % COUNT_WRAP
    ensures Step16(Step16(n % COUNT_WRAP, true), false) == n % COUNT_WRAP
  {
  }

  /** `view` after bit `i` of group `g` and the counts that go with it have changed. */
  ghost function Flipped(geo: Geometry, view: seq<Block>, g: nat, i: nat, v: bool, free: nat): seq<Block>
    requires geo.Ok() && g < geo.groups && i < |Bits(geo, view, g)| && geo.SuperBlock() < |view|
    requires geo.DescBlock(g) < |view| && view[geo.DescBlock(g)].Descriptors?
    requires |view[geo.DescBlock(g)].descs| == geo.descsPerBlock
  {
    var d := Desc(geo, view, g);
    var d' := d.(freeBlocks := Step16(d.freeBlocks, v));
    Writes(geo, view, geo.bitmapOf[g], Bits(geo, view, g)[i := v], geo.DescBlock(g), g % geo.descsPerBlock, d', free)
  }

  lemma DescBlocksDiffer(g: nat, h: nat, m: nat)
    requires m > 0 && g != h && g % m == h % m
    ensures g / m != h / m
  {
    assert g == (g / m) * m + g % m;
    assert h == (h / m) * m + h % m;
  }

  lemma FlippedDesc(geo: Geometry, view: seq<Block>, alloc: set<nat>, g: nat, i: nat, v: bool, free: nat, h: nat)
    requires geo.Ok() && g < geo.groups && h < geo.groups && i < geo.perGroup
    requires GroupOk(geo, view, alloc, g) && GroupOk(geo, view, alloc, h)
    requires geo.SuperBlock() < |view| && v != Bits(geo, view, g)[i]
    ensures var view' := Flipped(geo, view, g, i, v, free);
            && Desc(geo, view', h) ==
               (var d := Desc(geo, view, h); if h != g then d else d.(freeBlocks := Step16(d.freeBlocks, v)))
            && Bits(geo, view', h) == (if h != g then Bits(geo, view, h) else Bits(geo, view, g)[i := v])
  {
    hide Step16;
    if h != g && h % geo.descsPerBlock == g % geo.descsPerBlock {
      DescBlocksDiffer(g, h, geo.descsPerBlock);
    }
  }

  lemma FlippedGroup(geo: Geometry, view: seq<Block>, alloc: set<nat>, g: nat, i: nat, v: bool, free: nat, h: nat)
    requires geo.Ok() && g < geo.groups && h < geo.groups && i < geo.perGroup
    requires GroupOk(geo, view, alloc, g) && GroupOk(geo, view, alloc, h)
    requires geo.SuperBlock() < |view| && v != Bits(geo, view, g)[i]
    ensures var b := geo.BlockOf(g, i);
            GroupOk(geo, Flipped(geo, view, g, i, v, free), if v then alloc + {b} else alloc - {b}, h)
  {
    hide Step16;
    FlippedDesc(geo, view, alloc, g, i, v, free, h);
    CountClearFlip(Bits(geo, view, g), i, v);
    Step16Counts(CountClear(Bits(geo, view, g)), v);
    geo.Place(g, i);
    forall j | 0 <= j < geo.perGroup && (h != g || j != i)
      ensures geo.BlockOf(h, j) != geo.BlockOf(g, i)
    {
      geo.Place(h, j);
    }
  }

  lemma {:induction false} FlippedSum(
    geo: Geometry, view: seq<Block>, alloc: set<nat>, g: nat, i: nat, v: bool, free: nat, k: nat)
    requires geo.Ok() && g < geo.groups && k <= geo.groups && i < geo.perGroup
    requires forall h :: 0 <= h < geo.groups ==> GroupOk(geo, view, alloc, h)
    requires GroupOk(geo, view, alloc, g) && geo.SuperBlock() < |view| && v != Bits(geo, view, g)[i]
    ensures SumFree(geo, Flipped(geo, view, g, i, v, free), k) ==
            SumFree(geo, view, k) + if k <= g then 0 else if v then -1 else 1
  {
    hide Step16;
    hide CountClear;
    hide Flipped;
    hide Desc;
    hide Bits;
    CountClearFlip(Bits(geo, view, g), i, v);
    if k > 0 {
      FlippedSum(geo, view, alloc, g, i, v, free, k - 1);
      FlippedDesc(geo, view, alloc, g, i, v, free, k - 1);
    }
  }

  /** Setting or clearing one bit together with its counts keeps the books balanced. */
  lemma FlippedAccounted(geo: Geometry, view: seq<Block>, alloc: set<nat>, free: nat, g: nat, i: nat, v: bool)
    requires geo.Ok() && Accounted(geo, view, alloc, free)
    requires g < geo.groups && i < geo.perGroup && geo.BlockOf(g, i) !in geo.fixed
    requires v != (geo.BlockOf(g, i) in alloc) && geo.BlockOf(g, i) < |view|
    ensures GroupOk(geo, view, alloc, g) && v != Bits(geo, view, g)[i]
    ensures v ==> free > 0
    ensures var b := geo.BlockOf(g, i);
            var free' := if v then free - 1 else free + 1;
            Accounted(geo, Flipped(geo, view, g, i, v, free'), if v then alloc + {b} else alloc - {b}, free')
  {
    hide Step16;
    hide CountClear;
    assert GroupOk(geo, view, alloc, g);
    geo.Place(g, i);
    FlippedSum(geo, view, alloc, g, i, v, 0, geo.groups);
    hide SumFree;
    hide GroupOk;
    var free' := if v then free - 1 else free + 1;
    FlippedSum(geo, view, alloc, g, i, v, free', geo.groups);
    var b := geo.BlockOf(g, i);
    var alloc' := if v then alloc + {b} else alloc - {b};
    forall h | 0 <= h < geo.groups
      ensures GroupOk(geo, Flipped(geo, view, g, i, v, free'), alloc', h)
    {
      FlippedGroup(geo, view, alloc, g, i, v, free', h);
    }
  }

  lemma {:induction false} SumFreeFrame(geo: Geometry, view: seq<Block>, view': seq<Block>, k: nat)
    requires geo.Ok() && k <= geo.groups && |view'| == |view|
    requires forall b :: 0 <= b < |view| && b in geo.fixed ==> view'[b] == view[b]
    ensures SumFree(geo, view', k) == SumFree(geo, view, k)
  {
    if k > 0 {
      SumFreeFrame(geo, view, view', k - 1);
    }
  }

  /** A write outside the fixed metadata leaves the books alone. */
  lemma AccountedFrame(geo: Geometry, view: seq<Block>, view': seq<Block>, alloc: set<nat>, free: nat)
    requires geo.Ok() && Accounted(geo, view, alloc, free) && |view'| == |view|
    requires forall b :: 0 <= b < |view| && b in geo.fixed ==> view'[b] == view[b]
    ensures Accounted(geo, view', alloc, free)
  {
    SumFreeFrame(geo, view, view', geo.groups);
    forall g | 0 <= g < geo.groups
      ensures GroupOk(geo, view', alloc, g)
    {
      assert GroupOk(geo, view, alloc, g);
    }
  }

  /** Freeing the block just allocated restores every block of the device. */
  lemma FreeUndoesAlloc(geo: Geometry, view: seq<Block>, alloc: set<nat>, free: nat, g: nat, i: nat)
    requires geo.Ok() && Accounted(geo, view, alloc, free)
    requires g < geo.groups && i < geo.perGroup && geo.BlockOf(g, i) !in alloc
    ensures GroupOk(geo, view, alloc, g) && free > 0
    ensures Flipped(geo, Flipped(geo, view, g, i, true, free - 1), g, i, false, free) == view
  {
    geo.Place(g, i);
    FlippedAccounted(geo, view, alloc, free, g, i, true);
    FlippedDesc(geo, view, alloc, g, i, true, free - 1, g);
    Step16Counts(CountClear(Bits(geo, view, g)), false);
    var view' := Flipped(geo, view, g, i, true, free - 1);
    assert view[geo.bitmapOf[g]] == Bitmap(Bits(geo, view, g));
    assert Bits(geo, view', g)[i := false] == Bits(geo, view, g);
    var k := g % geo.descsPerBlock;
    assert view'[geo.DescBlock(g)].descs[k := Desc(geo, view, g)] == view[geo.DescBlock(g)].descs;
  }

  /** The views agree outside the fixed metadata. */
  ghost predicate SameFiles(geo: Geometry, view: seq<Block>, view': seq<Block>) {
    && |view| == |view'|
    && forall b :: 0 <= b < |view| && b !in geo.fixed ==> view'[b] == view[b]
  }

  ghost predicate Full(geo: Geometry, alloc: set<nat>) {
    forall b: nat :: geo.InRange(b) ==> b in alloc
  }

  lemma FlippedSameFiles(geo: Geometry, view: seq<Block>, g: nat, i: nat, v: bool, free: nat)
    requires geo.Ok() && g < geo.groups && i < |Bits(geo, view, g)| && geo.SuperBlock() < |view|
    requires geo.DescBlock(g) < |view| && view[geo.DescBlock(g)].Descriptors?
    requires |view[geo.DescBlock(g)].descs| == geo.descsPerBlock
    ensures SameFiles(geo, view, Flipped(geo, view, g, i, v, free))
  {
  }

  /** The bitmap of a group, from the set of allocated blocks. */
  ghost function GroupBits(geo: Geometry, alloc: set<nat>, g: nat): seq<bool> {
    seq(geo.perGroup, i requires 0 <= i < geo.perGroup => geo.BlockOf(g, i) in alloc)
  }

  /** The group's free count as its 16 bits read. */
  ghost function CountRead(geo: Geometry, alloc: set<nat>, g: nat): nat {
    CountClear(GroupBits(geo, alloc, g)) % COUNT_WRAP
  }

  /** The count reads 0, which it does for 65536 free blocks as for none. */
  ghost predicate GroupSpent(geo: Geometry, alloc: set<nat>, g: nat) {
    CountRead(geo, alloc, g) == 0
  }

  /** Every group's free count reads 0. */
  ghost predicate Exhausted(geo: Geometry, alloc: set<nat>) {
    forall g :: 0 <= g < geo.groups ==> GroupSpent(geo, alloc, g)
  }

  lemma GroupBitsAre(geo: Geometry, view: seq<Block>, alloc: set<nat>, g: nat)
    requires geo.Ok() && g < geo.groups && GroupOk(geo, view, alloc, g)
    ensures Bits(geo, view, g) == GroupBits(geo, alloc, g)
    ensures GroupSpent(geo, alloc, g) <==> Desc(geo, view, g).freeBlocks == 0
  {
  }

  ghost predicate GroupFull(geo: Geometry, alloc: set<nat>, g: nat) {
    forall i :: 0 <= i < geo.perGroup ==> geo.BlockOf(g, i) in alloc
  }

  lemma SmallGroupFull(geo: Geometry, alloc: set<nat>, g: nat)
    requires geo.perGroup < COUNT_WRAP
    ensures GroupSpent(geo, alloc, g) <==> GroupFull(geo, alloc, g)
  {
    var bits := GroupBits(geo, alloc, g);
    CountClearZero(bits);
    assert forall i :: 0 <= i < geo.perGroup ==> bits[i] == (geo.BlockOf(g, i) in alloc);
  }

  /** A volume whose groups have less than 65536 blocks is exhausted exactly when it is full. */
  lemma SmallGroupsFull(geo: Geometry, alloc: set<nat>)
    requires geo.Ok() && geo.perGroup < COUNT_WRAP
    ensures Exhausted(geo, alloc) <==> Full(geo, alloc)
  {
    hide Full;
    forall g | 0 <= g < geo.groups
      ensures GroupSpent(geo, alloc, g) <==> GroupFull(geo, alloc, g)
    {
      SmallGroupFull(geo, alloc, g);
    }
    hide GroupSpent;
    FullByGroups(geo, alloc);
  }

  lemma FullByGroups(geo: Geometry, alloc: set<nat>)
    requires geo.Ok()
    ensures Full(geo, alloc) <==> forall g :: 0 <= g < geo.groups ==> GroupFull(geo, alloc, g)
  {
    forall b: nat | geo.InRange(b)
      ensures 0 <= geo.GroupOf(b) < geo.groups && 0 <= geo.IndexOf(b) < geo.perGroup
      ensures geo.BlockOf(geo.GroupOf(b), geo.IndexOf(b)) == b
    {
      geo.Locate(b);
    }
    assert forall b: nat :: geo.InRange(b) && GroupFull(geo, alloc, geo.GroupOf(b)) ==> b in alloc;
    forall g, i | 0 <= g < geo.groups && 0 <= i < geo.perGroup
      ensures geo.InRange(geo.BlockOf(g, i))
    {
      geo.Place(g, i);
    }
  }

  /** The counts as they read, added up: how many blocks are sure to be found. */
  ghost function Residual(geo: Geometry, alloc: set<nat>, k: nat): nat {
    if k == 0 then 0 else Residual(geo, alloc, k - 1) + CountRead(geo, alloc, k - 1)
  }

  lemma {:induction false} ResidualExhausted(geo: Geometry, alloc: set<nat>, k: nat)
    ensures Residual(geo, alloc, k) == 0 <==> forall g :: 0 <= g < k ==> GroupSpent(geo, alloc, g)
  {
    hide CountRead;
    if k > 0 {
      ResidualExhausted(geo, alloc, k - 1);
      assert GroupSpent(geo, alloc, k - 1) <==> CountRead(geo, alloc, k - 1) == 0;
    }
  }

  lemma GroupBitsTake(geo: Geometry, alloc: set<nat>, b: nat, g: nat)
    requires geo.Ok() && geo.InRange(b) && g < geo.groups
    ensures geo.GroupOf(b) < geo.groups && geo.IndexOf(b) < geo.perGroup
    ensures GroupBits(geo, alloc + {b}, g) ==
            if g == geo.GroupOf(b) then GroupBits(geo, alloc, g)[geo.IndexOf(b) := true] else GroupBits(geo, alloc, g)
  {
    geo.Locate(b);
    forall i | 0 <= i < geo.perGroup
      ensures geo.BlockOf(g, i) == b <==> g == geo.GroupOf(b) && i == geo.IndexOf(b)
    {
      geo.Place(g, i);
    }
  }

  lemma Groups(geo: Geometry, b: nat)
    requires geo.Ok() && geo.InRange(b)
    ensures geo.perGroup > 0 && geo.GroupOf(b) < geo.groups && geo.IndexOf(b) < geo.perGroup
  {
    geo.Locate(b);
  }

  lemma OneLess(n: nat)
    requires n > 0
    ensures (n - 1) % COUNT_WRAP >= n % COUNT_WRAP - 1
    ensures n % COUNT_WRAP > 0 ==> (n - 1) % COUNT_WRAP == n % COUNT_WRAP - 1
  {
  }

  lemma CountReadTake(geo: Geometry, alloc: set<nat>, b: nat, g: nat)
    requires geo.Ok() && geo.InRange(b) && b !in alloc && g < geo.groups
    ensures g != geo.GroupOf(b) ==> CountRead(geo, alloc + {b}, g) == CountRead(geo, alloc, g)
    ensures g == geo.GroupOf(b) ==> CountRead(geo, alloc + {b}, g) >= CountRead(geo, alloc, g) - 1
    ensures g == geo.GroupOf(b) && !GroupSpent(geo, alloc, g) ==>
              CountRead(geo, alloc + {b}, g) == CountRead(geo, alloc, g) - 1
  {
    Groups(geo, b);
    GroupBitsTake(geo, alloc, b, g);
    hide CountClear;
    if g == geo.GroupOf(b) {
      var bits, i := GroupBits(geo, alloc, g), geo.IndexOf(b);
      geo.Locate(b);
      assert !bits[i];
      CountClearFlip(bits, i, true);
      OneLess(CountClear(bits));
    }
  }

  /**
   Taking a block lowers what is sure to be found by at most one, and by exactly one when the count
   of its group does not read 0. Otherwise that count wraps.
   */
  lemma {:induction false} ResidualTake(geo: Geometry, alloc: set<nat>, b: nat, k: nat)
    requires geo.Ok() && geo.InRange(b) && b !in alloc && k <= geo.groups
    ensures geo.GroupOf(b) < geo.groups
    ensures Residual(geo, alloc + {b}, k) >= Residual(geo, alloc, k) - if k <= geo.GroupOf(b) then 0 else 1
    ensures !GroupSpent(geo, alloc, geo.GroupOf(b)) ==>
              Residual(geo, alloc + {b}, k) == Residual(geo, alloc, k) - if k <= geo.GroupOf(b) then 0 else 1
  {
    Groups(geo, b);
    hide CountRead;
    hide GroupSpent;
    hide geo.Ok;
    hide geo.InRange;
    if k > 0 {
      ResidualTake(geo, alloc, b, k - 1);
      CountReadTake(geo, alloc, b, k - 1);
    }
  }

  /** In a group of less than 65536 blocks with a free one, the count does not read 0. */
  lemma SmallGroupOpen(geo: Geometry, alloc: set<nat>, b: nat)
    requires geo.Ok() && geo.InRange(b) && b !in alloc && geo.perGroup < COUNT_WRAP
    ensures geo.perGroup > 0 && !GroupSpent(geo, alloc, geo.GroupOf(b))
  {
    geo.Locate(b);
    SmallGroupFull(geo, alloc, geo.GroupOf(b));
  }

  lemma {:induction false} ResidualTakeAll(geo: Geometry, alloc: set<nat>, taken: set<nat>)
    requires geo.Ok() && taken !! alloc && forall b :: b in taken ==> geo.InRange(b)
    ensures Residual(geo, alloc + taken, geo.groups) >= Residual(geo, alloc, geo.groups) - |taken|
    ensures geo.perGroup < COUNT_WRAP ==> Residual(geo, alloc, geo.groups) >= |taken|
    decreases |taken|
  {
    hide geo.Ok;
    hide geo.InRange;
    hide Residual;
    if taken == {} {
      assert alloc + taken == alloc;
    } else {
      var b :| b in taken;
      Groups(geo, b);
      ResidualTake(geo, alloc, b, geo.groups);
      if geo.perGroup < COUNT_WRAP {
        SmallGroupOpen(geo, alloc, b);
      }
      ResidualTakeAll(geo, alloc + {b}, taken - {b});
      assert alloc + {b} + (taken - {b}) == alloc + taken;
    }
  }

  lemma {:induction false} CountClearAll(bits: seq<bool>, v: bool)
    requires forall i :: 0 <= i < |bits| ==> bits[i] == v
    ensures CountClear(bits) == if v then 0 else |bits|
  {
    if bits != [] {
      CountClearAll(bits[..|bits| - 1], v);
    }
  }

  /** The group tried on a given pass. */
  function GroupAt(preferred: nat, pass: nat, groups: nat): (g: nat)
    requires groups > 0
    ensures g < groups
  {
    (preferred + pass) % groups
  }

  lemma RotateMod(p: nat, q: nat, m: nat, g: nat)
    requires m > 0 && g < m
    requires q == if p % m <= g then g - p % m else g + m - p % m
    ensures (p + q) % m == g
  {
    var d := p / m;
    assert p == d * m + p % m;
    if p % m <= g {
      DivModUnique(p + q, m, d, g);
    } else {
      assert (d + 1) * m == d * m + m;
      DivModUnique(p + q, m, d + 1, g);
    }
  }

  /** Starting anywhere, the passes try every group. */
  lemma AllGroupsVisited(geo: Geometry, alloc: set<nat>, preferred: nat)
    requires geo.Ok()
    requires forall q :: 0 <= q < geo.groups ==> GroupSpent(geo, alloc, GroupAt(preferred, q, geo.groups))
    ensures Exhausted(geo, alloc)
  {
    forall g | 0 <= g < geo.groups
      ensures GroupSpent(geo, alloc, g)
    {
      var p := preferred % geo.groups;
      var q := if p <= g then g - p else g + geo.groups - p;
      RotateMod(preferred, q, geo.groups, g);
      assert GroupSpent(geo, alloc, GroupAt(preferred, q, geo.groups));
    }
  }

  lemma SameFilesSelf(geo: Geometry, view: seq<Block>)
    ensures SameFiles(geo, view, view)
  {
  }

  lemma SameFilesLength(geo: Geometry, view: seq<Block>, view': seq<Block>)
    requires SameFiles(geo, view, view')
    ensures |view'| == |view|
  {
  }

  // Which block is found

  /** The first clear bit from `i` on. */
  ghost function FirstZero(bits: seq<bool>, i: nat): (k: nat)
    requires i <= |bits|
    ensures i <= k <= |bits| && (k < |bits| ==> !bits[k]) && forall j :: i <= j < k ==> bits[j]
    decreases |bits| - i
  {
    if i == |bits| || !bits[i] then i else FirstZero(bits, i + 1)
  }

  /** The first block of a group that is not allocated. */
  ghost function PickIn(geo: Geometry, alloc: set<nat>, g: nat): nat {
    geo.BlockOf(g, FirstZero(GroupBits(geo, alloc, g), 0))
  }

  /** The block found from a pass on: that of the first group whose count does not read 0. */
  ghost function PickFrom(geo: Geometry, alloc: set<nat>, preferred: nat, pass: nat): nat
    requires geo.groups > 0
    decreases geo.groups - pass
  {
    if pass >= geo.groups then 0
    else if GroupSpent(geo, alloc, GroupAt(preferred, pass, geo.groups)) then PickFrom(geo, alloc, preferred, pass + 1)
    else PickIn(geo, alloc, GroupAt(preferred, pass, geo.groups))
  }

  /** The block that an allocation near `near` finds, 0 for none. */
  ghost function Pick(geo: Geometry, alloc: set<nat>, near: nat): nat
    requires geo.groups > 0 && geo.perGroup > 0
  {
    PickFrom(geo, alloc, Preferred(geo, near), 0)
  }

  function Preferred(geo: Geometry, near: nat): nat
    requires geo.perGroup > 0
  {
    if near > 0 && near >= geo.firstData then (near - geo.firstData) / geo.perGroup else 0
  }

  lemma PickStarts(geo: Geometry, alloc: set<nat>, near: nat)
    requires geo.groups > 0 && geo.perGroup > 0
    ensures Pick(geo, alloc, near) == PickFrom(geo, alloc, Preferred(geo, near), 0)
    ensures Pick(geo, alloc, near) != 0 && (near == 0 || geo.InRange(near)) ==>
              Nearest(geo, alloc, if near == 0 then 0 else geo.GroupOf(near), Pick(geo, alloc, near))
  {
    hide Nearest;
    if Pick(geo, alloc, near) != 0 && (near == 0 || geo.InRange(near)) {
      PickNearest(geo, alloc, near);
    }
  }

  lemma PickPass(geo: Geometry, alloc: set<nat>, preferred: nat, pass: nat)
    requires geo.groups > 0 && pass < geo.groups
    ensures var g := GroupAt(preferred, pass, geo.groups);
            PickFrom(geo, alloc, preferred, pass) ==
            if GroupSpent(geo, alloc, g) then PickFrom(geo, alloc, preferred, pass + 1) else PickIn(geo, alloc, g)
  {
  }

  lemma PickEnd(geo: Geometry, alloc: set<nat>, preferred: nat)
    requires geo.groups > 0
    ensures PickFrom(geo, alloc, preferred, geo.groups) == 0
  {
  }

  /** What is found was free. */
  lemma {:induction false} PickFree(geo: Geometry, alloc: set<nat>, preferred: nat, pass: nat)
    requires geo.groups > 0
    ensures PickFrom(geo, alloc, preferred, pass) != 0 ==> PickFrom(geo, alloc, preferred, pass) !in alloc
    decreases geo.groups - pass
  {
    hide CountClear;
    if pass < geo.groups {
      var g := GroupAt(preferred, pass, geo.groups);
      CountClearZero(GroupBits(geo, alloc, g));
      PickFree(geo, alloc, preferred, pass + 1);
    }
  }

  /** How many groups on, going round, `g` comes after `start`. */
  ghost function Ahead(start: nat, g: nat, groups: nat): int {
    if start <= g then g - start else g + groups - start
  }

  /** Block `r` is the first free block of its group, and no group nearer to `start` has a count that is not 0. */
  ghost predicate Nearest(geo: Geometry, alloc: set<nat>, start: nat, r: nat) {
    && geo.perGroup > 0 && geo.InRange(r) && r !in alloc
    && (forall b: nat :: geo.InRange(b) && b !in alloc && geo.GroupOf(b) == geo.GroupOf(r) ==> r <= b)
    && (forall g :: 0 <= g < geo.groups && !GroupSpent(geo, alloc, g) ==>
          Ahead(start, geo.GroupOf(r), geo.groups) <= Ahead(start, g, geo.groups))
  }

  /** The pass on which a block is found. */
  lemma {:induction false} FoundOnPass(geo: Geometry, alloc: set<nat>, preferred: nat, pass: nat) returns (q: nat)
    requires geo.groups > 0 && PickFrom(geo, alloc, preferred, pass) != 0
    ensures pass <= q < geo.groups && !GroupSpent(geo, alloc, GroupAt(preferred, q, geo.groups))
    ensures PickFrom(geo, alloc, preferred, pass) == PickIn(geo, alloc, GroupAt(preferred, q, geo.groups))
    ensures forall p :: pass <= p < q ==> GroupSpent(geo, alloc, GroupAt(preferred, p, geo.groups))
    decreases geo.groups - pass
  {
    hide GroupSpent;
    hide PickIn;
    hide GroupAt;
    if GroupSpent(geo, alloc, GroupAt(preferred, pass, geo.groups)) {
      q := FoundOnPass(geo, alloc, preferred, pass + 1);
    } else {
      q := pass;
    }
  }

  /** The block found in a group is its first free one. */
  lemma FirstOfGroup(geo: Geometry, alloc: set<nat>, g: nat)
    requires geo.perGroup > 0 && g < geo.groups && !GroupSpent(geo, alloc, g)
    ensures var r := PickIn(geo, alloc, g);
            && geo.InRange(r) && r !in alloc && geo.GroupOf(r) == g
            && forall b: nat :: geo.InRange(b) && b !in alloc && geo.GroupOf(b) == g ==> r <= b
  {
    hide CountClear;
    var bits := GroupBits(geo, alloc, g);
    var i := FirstZero(bits, 0);
    CountClearZero(bits);
    geo.Place(g, i);
    forall b: nat | geo.InRange(b) && b !in alloc && geo.GroupOf(b) == g
      ensures PickIn(geo, alloc, g) <= b
    {
      geo.Locate(b);
      assert !bits[geo.IndexOf(b)];
    }
  }

  lemma AheadOf(start: nat, q: nat, groups: nat)
    requires start < groups && q < groups
    ensures Ahead(start, GroupAt(start, q, groups), groups) == q
  {
    if start + q < groups {
      DivModUnique(start + q, groups, 0, start + q);
    } else {
      DivModUnique(start + q, groups, 1, start + q - groups);
    }
  }

  /** The search starts at the group of `near`, or at the first group, and finds the nearest. */
  lemma PickNearest(geo: Geometry, alloc: set<nat>, near: nat)
    requires geo.groups > 0 && geo.perGroup > 0 && Pick(geo, alloc, near) != 0 && (near == 0 || geo.InRange(near))
    ensures Nearest(geo, alloc, if near == 0 then 0 else geo.GroupOf(near), Pick(geo, alloc, near))
  {
    hide GroupSpent;
    hide PickIn;
    hide GroupAt;
    hide PickFrom;
    hide Ahead;
    var start := if near == 0 then 0 else geo.GroupOf(near);
    if near != 0 {
      geo.Locate(near);
    }
    assert Preferred(geo, near) == start;
    var q := FoundOnPass(geo, alloc, start, 0);
    FirstOfGroup(geo, alloc, GroupAt(start, q, geo.groups));
    AheadOf(start, q, geo.groups);
    forall g | 0 <= g < geo.groups && !GroupSpent(geo, alloc, g)
      ensures q <= Ahead(start, g, geo.groups)
    {
      PassOf(start, g, geo.groups);
    }
  }

  lemma PassOf(start: nat, g: nat, groups: nat)
    requires start < groups && g < groups
    ensures 0 <= Ahead(start, g, groups) < groups && GroupAt(start, Ahead(start, g, groups), groups) == g
  {
    hide GroupAt;
    var q := if start <= g then g - start else g + groups - start;
    assert q == Ahead(start, g, groups);
    RotateSmall(start, q, groups, g);
  }

  lemma RotateSmall(start: nat, q: nat, groups: nat, g: nat)
    requires start < groups && g < groups && (start + q == g || start + q == g + groups)
    ensures GroupAt(start, q, groups) == g
  {
    if start + q == g {
      DivModUnique(start + q, groups, 0, g);
    } else {
      DivModUnique(start + q, groups, 1, g);
    }
  }

  lemma IsFirstZero(bits: seq<bool>, k: nat)
    requires k < |bits| && !bits[k] && forall j :: 0 <= j < k ==> bits[j]
    ensures FirstZero(bits, 0) == k
  {
  }

  /** The byte-by-byte, bit-by-bit scan of one bitmap. */
  method FirstClear(bits: seq<bool>) returns (i: nat)
    requires |bits| % 8 == 0
    ensures i <= |bits|
    ensures forall k :: 0 <= k < i ==> bits[k]
    ensures i < |bits| ==> !bits[i]
  {
    for byte := 0 to |bits| / 8
      invariant forall k :: 0 <= k < 8 * byte ==> bits[k]
    {
      if forall k :: 8 * byte <= k < 8 * byte + 8 ==> bits[k] {
        continue;
      }
      for bit := 0 to 8
        invariant forall k :: 0 <= k < 8 * byte + bit ==> bits[k]
      {
        if !bits[8 * byte + bit] {
          return 8 * byte + bit;
        }
      }
    }
    i := |bits|;
  }

  class Allocator {
    const geo: Geometry
    const cache: BlockCache
    /** superblock_.s_free_blocks_count_lo in memory. */
    var freeBlocks: nat
    /** The blocks whose bitmap bit is set. */
    ghost var alloc: set<nat>

    ghost predicate Valid()
      reads this, cache, cache.slots
    {
      && geo.Ok()
      && cache.Valid()
      && Accounted(geo, cache.view, alloc, freeBlocks)
    }

    constructor (geo: Geometry, cache: BlockCache, freeBlocks: nat, ghost alloc: set<nat>)
      requires geo.Ok() && cache.Valid() && Accounted(geo, cache.view, alloc, freeBlocks)
      ensures Valid() && this.geo == geo && this.cache == cache
      ensures this.freeBlocks == freeBlocks && this.alloc == alloc
    {
      this.geo, this.cache, this.freeBlocks, this.alloc := geo, cache, freeBlocks, alloc;
    }

    lemma Facts()
      requires Valid()
      ensures geo.Ok() && geo.bsize > 0 && geo.LeafMax() > MAX_INLINE && geo.fixed <= alloc
      ensures geo.groups > 0 && geo.perGroup > 0
    {
    }

    /** read_block, as the file code sees it. */
    method Read(b: nat) returns (blk: Block)
      requires Valid() && b < |cache.view|
      modifies cache, cache.slots
      ensures Valid() && cache.view == old(cache.view) && blk == cache.view[b]
    {
      blk := cache.ReadBlock(b);
    }

    /** Blocks lo to hi straight from the device, after the cache has let go of them. */
    method ReadDevice(lo: nat, hi: nat) returns (blks: seq<Block>)
      requires Valid() && lo <= hi < |cache.view|
      modifies cache, cache.slots
      ensures Valid() && cache.view == old(cache.view) && blks == cache.view[lo..hi + 1]
    {
      cache.Evacuate(lo, hi);
      blks := cache.device[lo..hi + 1];
    }

    /** write_block on a block of a file or of an extent tree. */
    method Write(b: nat, blk: Block)
      requires Valid() && b < |cache.view| && b !in geo.fixed
      modifies cache, cache.slots
      ensures Valid() && cache.view == old(cache.view)[b := blk]
    {
      AccountedFrame(geo, cache.view, cache.view[b := blk], alloc, freeBlocks);
      cache.WriteBlock(b, blk);
    }

    method ReadGroupDesc(g: nat) returns (gd: GroupDesc)
      requires Valid() && g < geo.groups
      modifies cache, cache.slots
      ensures Valid() && cache.view == old(cache.view)
      ensures gd == Desc(geo, cache.view, g)
    {
      assert GroupOk(geo, cache.view, alloc, g);
      var blk := cache.ReadBlock(geo.DescBlock(g));
      gd := blk.descs[g % geo.descsPerBlock];
    }

    /** write_block on the bitmap, write_group_desc (a read-modify-write) and write_superblock. */
    method Commit(bitmap: nat, bits: seq<bool>, d: nat, k: nat, gd: GroupDesc, free: nat, ghost alloc': set<nat>)
      requires geo.Ok() && cache.Valid() && bitmap < |cache.view| && d < |cache.view| && d != bitmap
      requires cache.view[d].Descriptors? && k < |cache.view[d].descs| && geo.SuperBlock() < |cache.view|
      requires Accounted(geo, Writes(geo, cache.view, bitmap, bits, d, k, gd, free), alloc', free)
      modifies this, cache, cache.slots
      ensures Valid() && alloc == alloc' && freeBlocks == free
      ensures cache.view == Writes(geo, old(cache.view), bitmap, bits, d, k, gd, free)
    {
      hide cache.Used;
      hide Accounted;
      hide cache.Valid;
      cache.WriteBlock(bitmap, Bitmap(bits));
      var blk := cache.ReadBlock(d);
      cache.WriteBlock(d, Descriptors(blk.descs[k := gd]));
      freeBlocks, alloc := free, alloc';
      cache.WriteBlock(geo.SuperBlock(), Super(freeBlocks));
    }

    /** The writes that follow a change of one bit: bitmap, group descriptor, superblock. */
    method WriteBit(g: nat, i: nat, gd: GroupDesc, bits: seq<bool>, v: bool)
      requires Valid() && g < geo.groups && i < geo.perGroup
      requires gd == Desc(geo, cache.view, g) && bits == Bits(geo, cache.view, g)
      requires geo.BlockOf(g, i) !in geo.fixed && geo.BlockOf(g, i) < |cache.view|
      requires v != (geo.BlockOf(g, i) in alloc)
      modifies this, cache, cache.slots
      ensures Valid() && SameFiles(geo, old(cache.view), cache.view)
      ensures alloc == if v then old(alloc) + {geo.BlockOf(g, i)} else old(alloc) - {geo.BlockOf(g, i)}
      ensures freeBlocks == if v then old(freeBlocks) - 1 else old(freeBlocks) + 1
    {
      hide Accounted;
      hide CountClear;
      hide SameFiles;
      hide Writes;
      hide cache.Valid;
      ghost var b := geo.BlockOf(g, i);
      FlippedAccounted(geo, cache.view, alloc, freeBlocks, g, i, v);
      var free' := if v then freeBlocks - 1 else freeBlocks + 1;
      var gd' := gd.(freeBlocks := Step16(gd.freeBlocks, v));
      FlippedSameFiles(geo, cache.view, g, i, v, free');
      Commit(gd.bitmap, bits[i := v], geo.DescBlock(g), g % geo.descsPerBlock, gd', free',
             if v then alloc + {b} else alloc - {b});
    }

    /** One pass of the allocation loop: the first clear bit of a group that has one. */
    method TryGroup(g: nat) returns (r: nat)
      requires Valid() && g < geo.groups
      modifies this, cache, cache.slots
      ensures Valid() && SameFiles(geo, old(cache.view), cache.view)
      ensures r == 0 <==> GroupSpent(geo, old(alloc), g)
      ensures r == 0 ==> unchanged(this) && cache.view == old(cache.view)
      ensures r != 0 ==> geo.InRange(r) && r < |cache.view| && r !in old(alloc) && r !in geo.fixed
      ensures r != 0 ==> alloc == old(alloc) + {r} && freeBlocks == old(freeBlocks) - 1
      ensures r != 0 ==> Residual(geo, alloc, geo.groups) == Residual(geo, old(alloc), geo.groups) - 1
      ensures r != 0 ==> r == PickIn(geo, old(alloc), g)
    {
      hide Accounted;
      hide geo.Ok;
      hide GroupSpent;
      hide GroupBits;
      hide CountClear;
      hide Residual;
      hide FirstZero;
      hide SameFiles;
      hide Bits;
      hide Desc;
      hide cache.Valid;
      hide cache.Used;
      GroupFacts(g);
      SameFilesSelf(geo, cache.view);
      var gd := ReadGroupDesc(g);
      if gd.freeBlocks == 0 {
        return 0;
      }
      var blk := cache.ReadBlock(gd.bitmap);
      var i := FirstClear(blk.bits);
      FreeBit(g, i);
      IsFirstZero(blk.bits, i);
      ResidualTake(geo, alloc, geo.BlockOf(g, i), geo.groups);
      ghost var view := cache.view;
      WriteBit(g, i, gd, blk.bits, true);
      SameFilesLength(geo, view, cache.view);
      r := geo.BlockOf(g, i);
    }

    lemma GroupFacts(g: nat)
      requires Valid() && g < geo.groups
      ensures geo.Ok() && g < |geo.bitmapOf| && geo.bitmapOf[g] < |cache.view|
      ensures var bits, gd := Bits(geo, cache.view, g), Desc(geo, cache.view, g);
              && gd.bitmap == geo.bitmapOf[g] && cache.view[gd.bitmap] == Bitmap(bits)
              && bits == GroupBits(geo, alloc, g) && |bits| == geo.perGroup && |bits| % 8 == 0
              && (GroupSpent(geo, alloc, g) <==> gd.freeBlocks == 0)
              && (GroupSpent(geo, alloc, g) || exists i :: 0 <= i < |bits| && !bits[i])
    {
      hide CountClear;
      assert GroupOk(geo, cache.view, alloc, g);
      GroupBitsAre(geo, cache.view, alloc, g);
      CountClearZero(Bits(geo, cache.view, g));
    }

    lemma FreeBit(g: nat, i: nat)
      requires Valid() && g < geo.groups && i < |Bits(geo, cache.view, g)| && !Bits(geo, cache.view, g)[i]
      ensures i < geo.perGroup && geo.perGroup > 0
      ensures var b := geo.BlockOf(g, i);
              geo.InRange(b) && geo.GroupOf(b) == g && b != 0 && b !in alloc && b !in geo.fixed && b < |cache.view|
    {
      hide CountClear;
      assert GroupOk(geo, cache.view, alloc, g);
      geo.Place(g, i);
    }

    method AllocBlock(near: nat) returns (r: nat)
      requires Valid() && (near > 0 ==> near >= geo.firstData)
      modifies this, cache, cache.slots
      ensures Valid() && SameFiles(geo, old(cache.view), cache.view)
      ensures r == 0 <==> Exhausted(geo, old(alloc))
      ensures r == 0 ==> alloc == old(alloc) && freeBlocks == old(freeBlocks) && cache.view == old(cache.view)
      ensures r != 0 ==> geo.InRange(r) && r < |cache.view| && r !in old(alloc) && r !in geo.fixed
      ensures r != 0 ==> alloc == old(alloc) + {r} && freeBlocks == old(freeBlocks) - 1
      ensures r != 0 ==> Residual(geo, alloc, geo.groups) == Residual(geo, old(alloc), geo.groups) - 1
      ensures geo.groups > 0 && geo.perGroup > 0 && r == Pick(geo, old(alloc), near)
      ensures r != 0 && (near == 0 || geo.InRange(near)) ==>
                Nearest(geo, old(alloc), if near == 0 then 0 else geo.GroupOf(near), r)
    {
      hide geo.Ok;
      hide Residual;
      hide Valid;
      hide PickIn;
      hide PickFrom;
      hide GroupSpent;
      hide GroupAt;
      hide SameFiles;
      hide Pick;
      hide Nearest;
      Facts();
      SameFilesSelf(geo, cache.view);
      PickStarts(geo, alloc, near);
      var preferred := Preferred(geo, near);
      for pass := 0 to geo.groups
        invariant Valid() && cache.view == old(cache.view)
        invariant alloc == old(alloc) && freeBlocks == old(freeBlocks)
        invariant forall q :: 0 <= q < pass ==> GroupSpent(geo, old(alloc), GroupAt(preferred, q, geo.groups))
        invariant Pick(geo, old(alloc), near) == PickFrom(geo, old(alloc), preferred, pass)
      {
        PickPass(geo, alloc, preferred, pass);
        r := TryGroup(GroupAt(preferred, pass, geo.groups));
        if r != 0 {
          return;
        }
      }
      r := 0;
      PickEnd(geo, alloc, preferred);
      AllGroupsVisited(geo, alloc, preferred);
    }

    method FreeBlock(b: nat)
      requires Valid() && geo.InRange(b) && b !in geo.fixed && b < |cache.view|
      modifies this, cache, cache.slots
      ensures Valid() && SameFiles(geo, old(cache.view), cache.view)
      ensures alloc == old(alloc) - {b}
      ensures freeBlocks == if b in old(alloc) then old(freeBlocks) + 1 else old(freeBlocks)
      ensures b !in old(alloc) ==> cache.view == old(cache.view)
    {
      hide cache.Valid;
      geo.Locate(b);
      var group, index := (b - geo.firstData) / geo.perGroup, (b - geo.firstData) % geo.perGroup;
      var gd := ReadGroupDesc(group);
      assert GroupOk(geo, cache.view, alloc, group);
      var blk := cache.ReadBlock(gd.bitmap);
      if !blk.bits[index] {
        return;
      }
      WriteBit(group, index, gd, blk.bits, false);
    }
  }
}
