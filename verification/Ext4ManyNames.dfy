/**
 A directory with a name that unlink does not find. 257 files are created in a new directory; the
 listing that unlink looks through ends after 256 entries, and the name behind them does not exist
 for it.
 */
module Ext4ManyNames {
  import opened Ext4Layout
  import opened Ext4Cache
  import opened Ext4DirBlock
  import opened Ext4Directory
  import opened Ext4Content
  import opened Ext4Allocator
  import opened Ext4Plans
  import opened Ext4DirFiles
  import opened Ext4Names
  import Ext4Extents
  import Ext4Trees
  import Ext4Ownership
  import Ext4Files

  const DIRECTORY: nat := 2
  const NAMES: nat := 257

  // The volume

  function Volume(): Geometry {
    Geometry(1024, 1, 512, 1, 1, [3], {1, 2, 3})
  }

  function Used(): seq<bool> {
    seq(512, i => i < 3)
  }

  function Blocks(): seq<Block> {
    seq(513, i =>
      if i == 1 then Super(509)
      else if i == 2 then Descriptors([GroupDesc(3, 509)])
      else if i == 3 then Bitmap(Used())
      else Bytes(seq(1024, _ => 0)))
  }

  function Inodes(): seq<Ext4Ownership.Inode> {
    seq(300, i => Ext4Ownership.Inode(i != DIRECTORY, 0, 0, if i == DIRECTORY then 1 else 0, Ext4Extents.Inline([])))
  }

  ghost function Empty(): Disk {
    Ext4Ownership.Disk(Volume(), Blocks(), {1, 2, 3}, Inodes(), {DIRECTORY}, map[1 := 0, 2 := 0, 3 := 0])
  }

  lemma ThreeUsed()
    ensures CountClear(Used()) == 509
  {
    hide CountClear;
    var none := seq(512, _ => false);
    CountClearAll(none, false);
    CountClearFlip(none, 0, true);
    CountClearFlip(none[0 := true], 1, true);
    CountClearFlip(none[0 := true][1 := true], 2, true);
    assert none[0 := true][1 := true][2 := true] == Used();
  }

  lemma EmptyAccounted()
    ensures Volume().Ok() && Accounted(Volume(), Blocks(), {1, 2, 3}, 509)
  {
    ThreeUsed();
    hide CountClear;
    var geo, view := Volume(), Blocks();
    assert GroupOk(geo, view, {1, 2, 3}, 0);
    assert SumFree(geo, view, 0) == 0;
  }

  lemma EmptyConsistent()
    ensures Ext4Ownership.Consistent(Empty()) && Empty().File(DIRECTORY) == []
  {
    hide Blocks;
    var d := Empty();
    assert Ext4Ownership.BlocksOf(d.owner, 0) == {1, 2, 3};
    assert Ext4Ownership.BlocksOf(d.owner, DIRECTORY) == {};
    assert d.Mine(DIRECTORY) == {};
  }

  lemma EmptyNames()
    ensures NamesOk(Empty(), DIRECTORY, multiset{DIRECTORY}) && DirBlocks(Empty(), DIRECTORY) == []
  {
    EmptyConsistent();
    hide Ext4Ownership.Consistent;
    hide Ext4Ownership.Pairs;
    hide Blocks;
    assert DirBlocks(Empty(), DIRECTORY) == [];
    assert Listed([]) == [] && Total([]) == multiset{};
    forall m: nat
      ensures CountOk(Empty().inodes, Empty().live, [], multiset{DIRECTORY}, m)
    {
    }
  }

  // How the directory grows

  ghost function Upto(k: nat): set<nat>
    ensures forall b :: b in Upto(k) <==> 1 <= b <= k
  {
    if k == 0 then {} else Upto(k - 1) + {k}
  }

  /** The state of a directory that has grown to `g` blocks, one behind the other. */
  ghost function Grown(g: nat): Plan {
    Plan(Upto(3 + g), Ext4Extents.InlineV(if g == 0 then [] else [Extent(0, g, 4)]))
  }

  lemma NextBlock(g: nat)
    requires g < 500
    ensures Pick(Volume(), Upto(3 + g), 0) == 4 + g
  {
    hide CountClear;
    hide Upto;
    var bits := GroupBits(Volume(), Upto(3 + g), 0);
    assert forall i :: 0 <= i < 512 ==> bits[i] == (Volume().BlockOf(0, i) in Upto(3 + g));
    CountClearZero(bits);
    IsFirstZero(bits, 3 + g);
    PickPass(Volume(), Upto(3 + g), 0, 0);
  }

  lemma Grows(g: nat)
    requires g < 500
    ensures Taking(Volume(), Grown(g), g, 0) == Attempt(Taken, Grown(g + 1), 4 + g)
  {
    hide Pick;
    NextBlock(g);
    assert Upto(3 + g) + {4 + g} == Upto(4 + g);
    var es: seq<Extent> := if g == 0 then [] else [Extent(0, g, 4)];
    assert Ext4Extents.AppendRun(es, g, 4 + g) == [Extent(0, g + 1, 4)];
  }

  // The names

  function NameOf(i: nat): Buf
    requires i < 255 * 255
  {
    [1 + i % 255, 1 + i / 255]
  }

  ghost function Number(name: Buf): nat {
    if |name| == 2 && name[0] > 0 && name[1] > 0 then name[0] as int - 1 + 255 * (name[1] as int - 1) else 0
  }

  lemma NumberOf(i: nat)
    requires i < 255 * 255
    ensures Number(NameOf(i)) == i
  {
  }

  /** The names are the first `k` ones. */
  ghost predicate FirstNames(all: multiset<Entry>, k: nat)
    requires k <= NAMES
  {
    && |all| == k
    && (forall e :: e in all ==> Number(e.name) < k && e.name == NameOf(Number(e.name)))
    && (forall j :: 0 <= j < k ==> HasName(all, NameOf(j)))
  }

  lemma NextName(all: multiset<Entry>, k: nat)
    requires k < NAMES && FirstNames(all, k)
    ensures !HasName(all, NameOf(k))
  {
    NumberOf(k);
  }

  lemma OneMoreName(all: multiset<Entry>, k: nat, e: Entry)
    requires k < NAMES && FirstNames(all, k) && e.name == NameOf(k)
    ensures FirstNames(all + multiset{e}, k + 1)
  {
    NumberOf(k);
    var more := all + multiset{e};
    forall j | 0 <= j < k + 1
      ensures HasName(more, NameOf(j))
    {
      if j < k {
        var f :| f in all && f.name == NameOf(j);
        assert f in more;
      } else {
        assert e in more;
      }
    }
  }

  // The run

  /** `k` names have been created. */
  ghost predicate Created(nm: Names, k: nat)
    reads nm.dir.fs, nm.dir.fs.a, nm.dir.fs.a.cache, nm.dir.fs.a.cache.slots
    reads nm.dir.fs.icache, nm.dir.fs.icache.slots, nm.dir.fs.extents
  {
    && nm.Valid() && nm.dir.Valid() && nm.dir.n == DIRECTORY && nm.dir.fs.a.geo == Volume()
    && k <= NAMES && FirstNames(nm.dir.All(), k)
    && |nm.dir.fs.icache.view| == 300 && (forall m :: m in nm.dir.fs.live ==> m < 3 + k)
    && |nm.dir.Blocks()| <= k && Ext4Files.PlanOf(nm.dir.fs.D(), DIRECTORY) == Grown(|nm.dir.Blocks()|)
  }

  method NewDirectory() returns (nm: Names)
    ensures fresh(nm.dir.fs) && fresh(nm.dir.fs.a) && fresh(nm.dir.fs.a.cache) && fresh(nm.dir.fs.a.cache.slots)
    ensures fresh(nm.dir.fs.icache) && fresh(nm.dir.fs.icache.slots) && fresh(nm.dir.fs.extents)
    ensures Created(nm, 0)
  {
    hide Accounted;
    hide Blocks;
    hide Inodes;
    hide NamesOk;
    hide IsDirectory;
    hide DirBlocks;
    hide Ext4Ownership.Consistent;
    EmptyAccounted();
    EmptyConsistent();
    EmptyNames();
    EmptyPlan();
    var cache := new WriteBackCache<Block>(1, Blocks(), Bytes([]));
    var a := new Allocator(Volume(), cache, 509, {1, 2, 3});
    var fs := new Ext4Files.FileSystem(a, 1, Inodes(), {DIRECTORY}, Empty().owner);
    assert fs.D() == Empty();
    var dir := new Directory(fs, DIRECTORY);
    nm := new Names(dir, multiset{DIRECTORY});
  }

  lemma EmptyPlan()
    ensures IsDirectory(Empty(), DIRECTORY) && |Inodes()| == 300
    ensures Ext4Files.PlanOf(Empty(), DIRECTORY) == Grown(0) && FirstNames(Total([]), 0)
  {
    EmptyNames();
    hide Blocks;
    hide NamesOk;
    assert Upto(3) == {1, 2, 3};
  }

  /** One more name; the directory has room for it or can grow. */
  method CreateNext(nm: Names, k: nat)
    requires Created(nm, k) && k < NAMES
    modifies nm.dir.fs, nm.dir.fs.a, nm.dir.fs.a.cache, nm.dir.fs.a.cache.slots
    modifies nm.dir.fs.icache, nm.dir.fs.icache.slots, nm.dir.fs.extents
    ensures Created(nm, k + 1)
  {
    hide NamesOk;
    hide IsDirectory;
    hide DirBlocks;
    hide Total;
    hide AllFull;
    hide MinLen;
    hide HasName;
    hide FirstNames;
    hide Grown;
    hide Taking;
    hide nm.dir.fs.Valid;
    hide Ext4Files.PlanOf;
    ghost var all, g := nm.dir.All(), |nm.dir.Blocks()|;
    NextName(all, k);
    Grows(g);
    var r := nm.Create(NameOf(k), 3 + k, true);
    nm.Facts();
    OneMoreName(all, k, Entry(NameOf(k), 3 + k, KIND_FILE));
  }

  /** The name behind the 256 listed ones. */
  lemma Unlisted(blocks: seq<Buf>) returns (j: nat)
    requires AllTiled(blocks) && FirstNames(Total(blocks), NAMES) && Unique(Total(blocks))
    ensures j < NAMES && !Named(Capped(Listed(blocks)), NameOf(j))
  {
    hide Tiled;
    hide Total;
    hide Listed;
    hide Capped;
    hide Unique;
    ListedTotal(blocks);
    var es := Listed(blocks);
    assert |es| == |multiset(es)|;
    ListedIff(es, 256);
    assert es[256] in multiset(es);
    j := Number(es[256].name);
  }

  method ManyNames() returns (nm: Names)
    ensures fresh(nm.dir.fs) && fresh(nm.dir.fs.a) && fresh(nm.dir.fs.a.cache) && fresh(nm.dir.fs.a.cache.slots)
    ensures fresh(nm.dir.fs.icache) && fresh(nm.dir.fs.icache.slots) && fresh(nm.dir.fs.extents)
    ensures Created(nm, NAMES)
  {
    hide Created;
    nm := NewDirectory();
    for k := 0 to NAMES
      invariant Created(nm, k)
    {
      CreateNext(nm, k);
    }
  }

  method FirstUnlisted(nm: Names, es: seq<Entry>, ghost last: nat) returns (j: nat)
    requires last < NAMES && !Named(es, NameOf(last))
    ensures j < NAMES && !Named(es, NameOf(j))
  {
    hide Named;
    hide NameOf;
    j := 0;
    var i := nm.Search(es, NameOf(0));
    while i < |es|
      invariant j <= last && i <= |es| && (i == |es| <==> !Named(es, NameOf(j)))
      decreases last - j
    {
      j := j + 1;
      i := nm.Search(es, NameOf(j));
    }
  }

  /** A directory, a name in it, and what unlink answers for it. */
  method MissesName() returns (nm: Names, name: Buf, r: Outcome)
    ensures nm.Valid() && nm.dir.Valid() && HasName(nm.dir.All(), name) && r == NoEnt
  {
    hide NamesOk;
    hide IsDirectory;
    hide DirBlocks;
    hide Total;
    hide Listed;
    hide Capped;
    hide Named;
    hide HasName;
    hide Unique;
    hide Grown;
    hide Ext4Files.PlanOf;
    hide nm.dir.fs.Valid;
    nm := ManyNames();
    UniqueNames(nm);
    ghost var last := Unlisted(nm.dir.Blocks());
    var es := nm.dir.List();
    var j := FirstUnlisted(nm, es, last);
    name := NameOf(j);
    ghost var e;
    r, e := nm.Unlink(name);
  }

  lemma UniqueNames(nm: Names)
    requires nm.Valid() && nm.dir.Valid()
    ensures Unique(nm.dir.All())
  {
    hide Counted;
    hide Anchored;
    hide Unique;
    hide nm.dir.fs.Valid;
  }
}
