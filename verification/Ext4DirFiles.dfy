/**
 Directories as files: the blocks of a directory are those of an inode, and it grows by taking a
 block like any other file.
 */
module Ext4DirFiles {
  import opened Ext4Layout
  import opened Ext4DirBlock
  import opened Ext4Directory
  import opened Ext4Content
  import Ext4Allocator
  import Ext4Extents
  import Ext4Trees
  import Ext4Ownership
  import Ext4Edits
  import Ext4Plans
  import Ext4Files

  type Disk = Ext4Ownership.Disk

  /** The bytes of a block of a directory, none where no block is mapped. */
  ghost function BlockAt(d: Disk, n: nat, l: nat): (b: Buf)
    requires n < |d.inodes|
    ensures Lookup(d.File(n), l).None? ==> b == []
    ensures Lookup(d.File(n), l).Some? ==> |b| == d.geo.bsize
  {
    match Lookup(d.File(n), l)
    case None => []
    case Some(p) => seq(d.geo.bsize, k requires 0 <= k < d.geo.bsize => ByteOf(d.view, p, k))
  }

  ghost function Count(d: Disk, n: nat): nat
    requires n < |d.inodes| && d.geo.bsize > 0
  {
    Ext4Files.BlocksFor(d.inodes[n].size, d.geo.bsize)
  }

  ghost function DirBlocks(d: Disk, n: nat): (blocks: seq<Buf>)
    requires n < |d.inodes| && d.geo.bsize > 0
    ensures |blocks| == Count(d, n) && forall l :: 0 <= l < |blocks| ==> blocks[l] == BlockAt(d, n, l)
  {
    seq(Count(d, n), l requires 0 <= l < Count(d, n) => BlockAt(d, n, l))
  }

  /** No block is mapped behind the end. */
  ghost predicate Ended(d: Disk, n: nat)
    requires n < |d.inodes| && d.geo.bsize > 0
  {
    forall l :: l >= Count(d, n) ==> Lookup(d.File(n), l).None?
  }

  /** Inode `n` is a directory whose blocks are covered by records. */
  ghost predicate IsDirectory(d: Disk, n: nat) {
    && n in d.live && n < |d.inodes| && d.geo.bsize > 0 && !d.inodes[n].regular
    && AllTiled(DirBlocks(d, n)) && Ended(d, n)
  }

  /** The mapped block `p` holds the bytes of block `l`. */
  lemma BlockIs(d: Disk, n: nat, l: nat, p: nat)
    requires Ext4Ownership.Consistent(d) && n in d.live && Lookup(d.File(n), l) == Ext4Extents.Some(p)
    ensures n < |d.inodes| && p < |d.view| && d.view[p].Bytes? && BlockAt(d, n, l) == d.view[p].data
    ensures |d.view[p].data| == d.geo.bsize
  {
    hide Lookup;
    hide Ext4Ownership.FileOk;
    hide Ext4Ownership.Pairs;
    hide Ext4Ownership.BlocksOf;
    Ext4Edits.RewriteBlock(d, n, l, p, seq(d.geo.bsize, _ => 0));
  }

  /** A directory that keeps its mapping and its bytes keeps its blocks. */
  lemma SameDirectory(d: Disk, d': Disk, n: nat)
    requires n < |d.inodes| && n < |d'.inodes| && d.geo.bsize > 0 && d'.geo == d.geo
    requires d'.inodes[n].size == d.inodes[n].size && d'.File(n) == d.File(n)
    requires Ext4Edits.SameBytes(d.view, d.File(n), d'.view, d'.File(n), d.geo.bsize)
    ensures DirBlocks(d', n) == DirBlocks(d, n) && (Ended(d', n) <==> Ended(d, n))
  {
    hide Lookup;
    hide Ext4Ownership.Pairs;
    forall l | 0 <= l < Count(d, n)
      ensures BlockAt(d', n, l) == BlockAt(d, n, l)
    {
      SameBlock(d, d', n, l);
    }
  }

  lemma SameBlock(d: Disk, d': Disk, n: nat, l: nat)
    requires n < |d.inodes| && n < |d'.inodes| && d.geo.bsize > 0 && d'.geo == d.geo && d'.File(n) == d.File(n)
    requires Ext4Edits.SameBytes(d.view, d.File(n), d'.view, d'.File(n), d.geo.bsize)
    ensures BlockAt(d', n, l) == BlockAt(d, n, l)
  {
    hide Lookup;
    hide ByteOf;
    hide Ext4Ownership.Pairs;
    var size := d.geo.bsize;
    forall k | 0 <= k < |BlockAt(d, n, l)|
      ensures BlockAt(d', n, l)[k] == BlockAt(d, n, l)[k]
    {
      BlockArith(l * size + k, size, l);
      assert Content(d'.view, d'.File(n), size, l * size + k) == Content(d.view, d.File(n), size, l * size + k);
    }
  }

  /** Writing one mapped block changes that block of the directory and no other. */
  lemma StoredBlock(d: Disk, d': Disk, n: nat, l: nat, p: nat, data: Buf)
    requires n < |d.inodes| && d.geo.bsize > 0 && p < |d.view| && |data| == d.geo.bsize && l < Count(d, n)
    requires d' == d.(view := d.view[p := Bytes(data)]) && d'.File(n) == d.File(n)
    requires Ext4Ownership.Distinct(d.File(n)) && Lookup(d.File(n), l) == Ext4Extents.Some(p)
    ensures DirBlocks(d', n) == DirBlocks(d, n)[l := data] && (Ended(d', n) <==> Ended(d, n))
  {
    hide Lookup;
    hide Ext4Ownership.Pairs;
    LookupSound(d.File(n), l);
    forall k | 0 <= k < Count(d, n)
      ensures BlockAt(d', n, k) == if k == l then data else BlockAt(d, n, k)
    {
      LookupSound(d.File(n), k);
      if k != l && Lookup(d.File(n), k).Some? {
        OtherBlock(d.File(n), l, p, k, Lookup(d.File(n), k).value);
      }
    }
  }

  lemma OtherBlock(ps: seq<Ext4Extents.Pair>, l: nat, p: nat, k: nat, q: nat)
    requires Ext4Ownership.Distinct(ps) && (l, p) in ps && (k, q) in ps && k != l
    ensures q != p
  {
    var i :| 0 <= i < |ps| && ps[i] == (l, p);
    var j :| 0 <= j < |ps| && ps[j] == (k, q);
  }

  lemma OneMore(size: nat, bsize: nat)
    requires bsize > 0
    ensures Ext4Files.BlocksFor(size + bsize, bsize) == Ext4Files.BlocksFor(size, bsize) + 1
  {
    if size == 0 {
      Ext4Allocator.DivModUnique(bsize - 1, bsize, 0, bsize - 1);
    } else {
      var q := (size - 1) / bsize;
      assert size - 1 == q * bsize + (size - 1) % bsize;
      assert (q + 1) * bsize == q * bsize + bsize;
      Ext4Allocator.DivModUnique(size + bsize - 1, bsize, q + 1, (size - 1) % bsize);
    }
  }

  /** A block appended behind the end becomes the last block of the directory. */
  lemma GrownBlocks(d: Disk, d': Disk, n: nat, p: nat, data: Buf)
    requires n < |d.inodes| && n < |d'.inodes| && d.geo.bsize > 0 && d'.geo == d.geo && |data| == d.geo.bsize
    requires d'.File(n) == d.File(n) + [(Count(d, n), p)] && d'.inodes[n].size == d.inodes[n].size + d.geo.bsize
    requires p < |d'.view| && d'.view[p] == Bytes(data)
    requires Ext4Trees.Unchanged(d.view, d'.view, Ext4Ownership.Phys(d.File(n))) && Ended(d, n)
    ensures DirBlocks(d', n) == DirBlocks(d, n) + [data] && Ended(d', n)
  {
    hide Lookup;
    hide Ext4Ownership.Pairs;
    hide Ext4Files.BlocksFor;
    OneMore(d.inodes[n].size, d.geo.bsize);
    forall k: nat
      ensures Lookup(d'.File(n), k) == if k == Count(d, n) then Ext4Extents.Some(p) else Lookup(d.File(n), k)
    {
      LookupAppend(d.File(n), Count(d, n), p, k);
    }
    forall k | 0 <= k < Count(d, n)
      ensures BlockAt(d', n, k) == BlockAt(d, n, k)
    {
      LookupSound(d.File(n), k);
    }
    assert BlockAt(d', n, Count(d, n)) == data;
  }

  /** What an operation on directory `n` leaves alone. */
  ghost predicate OthersSame(d: Disk, d': Disk, n: nat) {
    && d.geo.bsize > 0 && n < |d.inodes| == |d'.inodes|
    && Ext4Edits.OthersKept(d, d', n) && Ext4Ownership.Lost(d') == Ext4Ownership.Lost(d)
    && d'.inodes == d.inodes[n := d'.inodes[n]]
    && d'.inodes[n].regular == d.inodes[n].regular && d'.inodes[n].links == d.inodes[n].links
    && Ext4Files.Unbilled(d'.inodes[n], d'.File(n), d.geo.bsize) ==
       Ext4Files.Unbilled(d.inodes[n], d.File(n), d.geo.bsize)
  }

  /** How the attempt to take a block behind the end will go, from the state before it. */
  ghost function Growth(d: Disk, n: nat): Ext4Plans.Attempt
    requires n < |d.inodes| && d.geo.bsize > 0 && d.geo.groups > 0 && d.geo.perGroup > 0
  {
    Ext4Plans.Taking(d.geo, Ext4Files.PlanOf(d, n), Count(d, n), 0)
  }

  /** The directory can take one more block. */
  ghost predicate CanGrow(d: Disk, n: nat) {
    && n < |d.inodes| && d.geo.bsize > 0 && d.geo.groups > 0 && d.geo.perGroup > 0
    && Growth(d, n).status == Ext4Plans.Taken
  }

  /** An attempt to grow has gone as foretold. */
  ghost predicate GrewAs(d: Disk, d': Disk, n: nat, ok: bool) {
    && n < |d.inodes| && n < |d'.inodes| && d.geo.bsize > 0 && d.geo.groups > 0 && d.geo.perGroup > 0
    && (ok <==> Growth(d, n).status == Ext4Plans.Taken) && Ext4Files.PlanOf(d', n) == Growth(d, n).plan
    && d'.inodes[n].size == d.inodes[n].size + if ok then d.geo.bsize else 0
  }

  /** A mapped block of the directory is written. */
  lemma Stored(d: Disk, d': Disk, n: nat, l: nat, p: nat, data: Buf)
    requires Ext4Ownership.Consistent(d) && IsDirectory(d, n) && l < Count(d, n)
    requires Lookup(d.File(n), l) == Ext4Extents.Some(p) && |data| == d.geo.bsize && Tiled(data, 0)
    requires p < |d.view| && d' == d.(view := d.view[p := Bytes(data)])
    ensures IsDirectory(d', n) && DirBlocks(d', n) == DirBlocks(d, n)[l := data] && OthersSame(d, d', n)
    ensures Ext4Files.PlanOf(d', n) == Ext4Files.PlanOf(d, n)
  {
    hide Tiled;
    hide Lookup;
    hide Ended;
    hide Ext4Ownership.Consistent;
    hide Ext4Ownership.Pairs;
    hide Ext4Trees.Load;
    hide Ext4Edits.OthersKept;
    Ext4Edits.RewriteBlock(d, n, l, p, data);
    StoredBlock(d, d', n, l, p, data);
    Ext4Trees.LoadFrame(d.view, d'.view, d.inodes[n].tree);
    Ext4Edits.OthersKeep(d, d', n);
  }

  /** A block was taken behind the end of the directory. */
  lemma Grown(d: Disk, d': Disk, n: nat, p: nat, data: Buf)
    requires IsDirectory(d, n) && |data| == d.geo.bsize && Tiled(data, 0)
    requires n in d'.live && n < |d'.inodes| && d'.geo == d.geo && !d'.inodes[n].regular
    requires d'.File(n) == d.File(n) + [(Count(d, n), p)] && d'.inodes[n].size == d.inodes[n].size + d.geo.bsize
    requires p < |d'.view| && d'.view[p] == Bytes(data)
    requires Ext4Trees.Unchanged(d.view, d'.view, Ext4Ownership.Phys(d.File(n)))
    ensures IsDirectory(d', n) && DirBlocks(d', n) == DirBlocks(d, n) + [data]
  {
    hide Tiled;
    hide Ended;
    hide Ext4Ownership.Pairs;
    hide Ext4Ownership.Phys;
    hide Ext4Trees.Unchanged;
    GrownBlocks(d, d', n, p, data);
  }

  /** No block was taken, and the directory is as it was. */
  lemma NotGrown(d: Disk, d': Disk, n: nat)
    requires IsDirectory(d, n) && n in d'.live && d'.geo == d.geo && d'.inodes == d.inodes
    requires Ext4Files.PlanOf(d', n) == Ext4Files.PlanOf(d, n)
    requires Ext4Edits.SameBytes(d.view, d.File(n), d'.view, d'.File(n), d.geo.bsize)
    ensures IsDirectory(d', n) && DirBlocks(d', n) == DirBlocks(d, n)
  {
    hide Tiled;
    hide Ended;
    hide Ext4Edits.SameBytes;
    hide Ext4Extents.FlatTree;
    hide Ext4Trees.Load;
    SameDirectory(d, d', n);
  }

  class Directory {
    const fs: Ext4Files.FileSystem
    const n: nat

    ghost predicate Valid()
      reads fs, fs.a, fs.a.cache, fs.a.cache.slots, fs.icache, fs.icache.slots, fs.extents
    {
      fs.Valid() && IsDirectory(fs.D(), n)
    }

    constructor (fs: Ext4Files.FileSystem, n: nat)
      requires fs.Valid() && IsDirectory(fs.D(), n)
      ensures Valid() && this.fs == fs && this.n == n
    {
      this.fs, this.n := fs, n;
    }

    ghost function Blocks(): (blocks: seq<Buf>)
      requires Valid()
      reads fs, fs.a, fs.a.cache, fs.a.cache.slots, fs.icache, fs.icache.slots, fs.extents
      ensures AllTiled(blocks)
    {
      DirBlocks(fs.D(), n)
    }

    ghost function All(): multiset<Entry>
      requires Valid()
      reads fs, fs.a, fs.a.cache, fs.a.cache.slots, fs.icache, fs.icache.slots, fs.extents
    {
      Total(Blocks())
    }

    /** The directory is being read in state `d`, and `ino` is its inode. */
    ghost predicate Reading(d: Disk, ino: Ext4Ownership.Inode)
      reads fs, fs.a, fs.a.cache, fs.a.cache.slots, fs.icache, fs.icache.slots, fs.extents
    {
      fs.Editing(n, ino) && fs.D() == d && IsDirectory(d, n) && ino == d.inodes[n]
    }

    lemma StillValid(d: Disk, ino: Ext4Ownership.Inode)
      requires Reading(d, ino)
      ensures Valid() && n < |d.inodes| && d.geo.bsize > 0 && Blocks() == DirBlocks(d, n) && AllTiled(DirBlocks(d, n))
      ensures Ext4Ownership.Consistent(d)
    {
      hide AllTiled;
      hide Ext4Ownership.Consistent;
      fs.EditingValid(n);
    }

    method Open() returns (ino: Ext4Ownership.Inode, count: nat)
      requires Valid()
      modifies fs.a.cache, fs.a.cache.slots, fs.icache, fs.icache.slots, fs.extents
      ensures Reading(old(fs.D()), ino) && count == |old(Blocks())|
    {
      hide fs.Editing;
      hide AllTiled;
      ino := fs.ReadInode(n);
      count := Ext4Files.BlocksFor(ino.size, fs.a.geo.bsize);
    }

    /** The place and the bytes of a block. */
    method LoadBlock(ghost d: Disk, ino: Ext4Ownership.Inode, l: nat)
      returns (r: Ext4Extents.Option<nat>, buf: array<byte>)
      requires Reading(d, ino) && l < Count(d, n)
      modifies fs.a.cache, fs.a.cache.slots
      ensures Reading(d, ino) && fresh(buf) && r == Lookup(d.File(n), l) && buf[..] == DirBlocks(d, n)[l]
      ensures Tiled(buf[..], 0) && buf.Length == if r.None? then 0 else d.geo.bsize
      ensures MinLen(0xFF) <= d.geo.bsize < 0x1_0000 && d.geo.bsize % 4 == 0
    {
      hide IsDirectory;
      hide fs.Valid;
      hide fs.a.Valid;
      hide fs.icache.Valid;
      hide Ext4Files.SlotsFresh;
      hide Lookup;
      hide Ext4Ownership.Consistent;
      hide Ext4Ownership.Pairs;
      hide BlockAt;
      hide Tiled;
      hide MinLen;
      StillValid(d, ino);
      SizeFits(d, ino);
      assert Tiled(DirBlocks(d, n)[l], 0);
      r := fs.MapLogicalToPhysical(n, ino, l);
      var data := [];
      if r.Some? {
        BlockIs(d, n, l, r.value);
        var blk := fs.a.Read(r.value);
        data := blk.data;
      }
      buf := new byte[|data|](k requires 0 <= k < |data| => data[k]);
    }

    /** Writes a block back to its place. */
    method StoreBlock(ghost d: Disk, ino: Ext4Ownership.Inode, l: nat, p: nat, data: Buf)
      requires Reading(d, ino) && l < Count(d, n) && Lookup(d.File(n), l) == Ext4Extents.Some(p)
      requires |data| == d.geo.bsize && Tiled(data, 0)
      modifies fs.a.cache, fs.a.cache.slots
      ensures Valid() && Blocks() == DirBlocks(d, n)[l := data] && OthersSame(d, fs.D(), n)
      ensures Ext4Files.PlanOf(fs.D(), n) == Ext4Files.PlanOf(d, n) && fs.icache.view == d.inodes
    {
      hide IsDirectory;
      hide DirBlocks;
      hide OthersSame;
      hide fs.Valid;
      hide fs.Editing;
      hide Ext4Ownership.Consistent;
      hide Ext4Ownership.Pairs;
      hide Lookup;
      StillValid(d, ino);
      fs.PatchBlock(n, ino, l, 0, p, data);
      assert Patch(d.view[p].data, 0, data) == data;
      fs.EditingValid(n);
      Stored(d, fs.D(), n, l, p, data);
    }

    /** The end of dir_add_entry: a new block behind the end. */
    method Grow(ghost d: Disk, ino: Ext4Ownership.Inode, data: Buf) returns (ok: bool)
      requires Reading(d, ino) && |data| == d.geo.bsize && Tiled(data, 0)
      modifies fs.a, fs.a.cache, fs.a.cache.slots, fs.icache, fs.icache.slots, fs.extents, fs`owner
      ensures Valid() && Blocks() == DirBlocks(d, n) + if ok then [data] else []
      ensures OthersSame(d, fs.D(), n) && GrewAs(d, fs.D(), n, ok)
    {
      hide Tiled;
      hide Ended;
      hide DirBlocks;
      hide Lookup;
      hide fs.Valid;
      hide fs.Editing;
      hide Ext4Ownership.Consistent;
      hide Ext4Ownership.Pairs;
      hide Ext4Ownership.Owned;
      hide Ext4Ownership.BlocksOf;
      hide Ext4Edits.OthersKept;
      hide Ext4Edits.SameBytes;
      hide Ext4Plans.Taking;
      StillValid(d, ino);
      NoneBehind(d, n);
      var count := Ext4Files.BlocksFor(ino.size, fs.a.geo.bsize);
      var st, ino', p := fs.AddBlock(n, ino, count, 0, data);
      ok := st == Ext4Plans.Taken;
      if ok {
        var grown := ino'.(size := ino.size + fs.a.geo.bsize);
        fs.Restamped(n, ino', grown);
        fs.WriteInode(n, grown);
        Grown(d, fs.D(), n, p, data);
      } else {
        fs.EditingValid(n);
        Ext4Plans.NotTaken(d.geo, Ext4Files.PlanOf(d, n), count, 0);
        NotGrown(d, fs.D(), n);
      }
      Ext4Edits.OthersKeep(d, fs.D(), n);
    }

    /** read_directory: the entries in order, up to a limit. */
    method List() returns (es: seq<Entry>)
      requires Valid()
      modifies fs.a.cache, fs.a.cache.slots, fs.icache, fs.icache.slots, fs.extents
      ensures Valid() && fs.D() == old(fs.D()) && es == Capped(Listed(Blocks()))
    {
      hide Tiled;
      hide Entries;
      hide Capped;
      hide Listed;
      hide Lookup;
      hide IsDirectory;
      hide DirBlocks;
      hide fs.Valid;
      hide fs.Editing;
      hide Ext4Ownership.Consistent;
      hide Ext4Ownership.Pairs;
      ghost var d, blocks := fs.D(), Blocks();
      ListedNone(blocks);
      es := [];
      var ino, count := Open();
      for l := 0 to count
        invariant Reading(d, ino) && AllTiled(blocks[..l]) && es == Capped(Listed(blocks[..l]))
      {
        ListedStep(blocks, l);
        if |es| >= MAX_LISTED {
          StillValid(d, ino);
          return;
        }
        var r, buf := LoadBlock(d, ino, l);
        if r.None? {
          Hole(0);
          CappedSmall(es);
          assert es + [] == es && buf[..] == [];
          continue;
        }
        es := ListBlock(buf, es);
      }
      assert blocks[..count] == blocks;
      StillValid(d, ino);
    }

    /** dir_find_entry */
    method Find(name: Buf) returns (inode: nat)
      requires Valid()
      modifies fs.a.cache, fs.a.cache.slots, fs.icache, fs.icache.slots, fs.extents
      ensures Valid() && fs.D() == old(fs.D())
      ensures inode == 0 <==> !HasName(All(), name)
      ensures inode != 0 ==> exists kind :: Entry(name, inode, kind) in All()
      ensures Unique(All()) ==> forall e :: e in All() && e.name == name ==> inode == e.inode
    {
      hide Tiled;
      hide Entries;
      hide Total;
      hide Lookup;
      hide IsDirectory;
      hide DirBlocks;
      hide fs.Valid;
      hide fs.Editing;
      hide Ext4Ownership.Consistent;
      hide Ext4Ownership.Pairs;
      ghost var d, blocks := fs.D(), Blocks();
      var ino, count := Open();
      for l := 0 to count
        invariant Reading(d, ino)
        invariant forall j :: 0 <= j < l ==> !Named(Entries(blocks[j], 0), name)
      {
        var r, buf := LoadBlock(d, ino, l);
        if r.None? {
          Hole(0);
          continue;
        }
        assert Tiled(blocks[l], 0);
        ghost var e;
        inode, e := FindInBlock(buf, name);
        if inode != 0 {
          TotalMember(blocks, l, e);
          assert Entry(name, inode, e.kind) == e;
          StillValid(d, ino);
          return;
        }
      }
      inode := 0;
      NotInTotal(blocks, name);
      StillValid(d, ino);
    }

    /** The part of dir_add_entry for one block. */
    method AddTo(ghost d: Disk, ino: Ext4Ownership.Inode, l: nat, name: Buf, inode: nat, kind: byte)
      returns (done: bool)
      requires Reading(d, ino) && l < Count(d, n) && 0 < inode < 0x1_0000_0000 && |name| < 0x100
      modifies fs.a.cache, fs.a.cache.slots
      ensures done <==> !NoRoom(DirBlocks(d, n)[l], MinLen(|name|))
      ensures !done ==> Reading(d, ino)
      ensures done ==> Valid() && |Blocks()| == |DirBlocks(d, n)| && OthersSame(d, fs.D(), n)
      ensures done ==> Blocks() == DirBlocks(d, n)[l := Blocks()[l]]
      ensures done ==> Placed(DirBlocks(d, n)[l], Blocks()[l], MinLen(|name|), Entry(name, inode, kind))
      ensures done ==> AllTiled(DirBlocks(d, n)) && All() == Total(DirBlocks(d, n)) + multiset{Entry(name, inode, kind)}
      ensures done ==> Ext4Files.PlanOf(fs.D(), n) == Ext4Files.PlanOf(d, n) && fs.icache.view == d.inodes
    {
      hide Placed;
      hide Reach;
      hide Tight;
      hide Roomy;
      hide RecOk;
      hide Behind;
      hide NoRoom;
      hide Tiled;
      hide Gains;
      hide MinLen;
      hide Total;
      hide Lookup;
      hide IsDirectory;
      hide DirBlocks;
      hide OthersSame;
      hide fs.Valid;
      hide fs.Editing;
      hide Ext4Files.PlanOf;
      hide Ext4Ownership.Consistent;
      hide Ext4Ownership.Pairs;
      StillValid(d, ino);
      var r, buf := LoadBlock(d, ino, l);
      if r.None? {
        Hole(MinLen(|name|));
        assert buf[..] == [];
        return false;
      }
      ghost var o;
      done, o := AddToBlock(buf, inode, name, kind);
      if done {
        IsPlaced(DirBlocks(d, n)[l], buf[..], MinLen(|name|), Entry(name, inode, kind), o);
        TotalGains(DirBlocks(d, n), l, buf[..], Entry(name, inode, kind));
        assert Tiled(DirBlocks(d, n)[l := buf[..]][l], 0);
        StoreBlock(d, ino, l, r.value, buf[..]);
      }
    }

    /** The part of dir_add_entry that needs a new block. */
    method AddBehind(ghost d: Disk, ino: Ext4Ownership.Inode, name: Buf, inode: nat, kind: byte) returns (ok: bool)
      requires Reading(d, ino) && 0 < inode < 0x1_0000_0000 && |name| < 0x100
      modifies fs.a, fs.a.cache, fs.a.cache.slots, fs.icache, fs.icache.slots, fs.extents, fs`owner
      ensures Valid() && OthersSame(d, fs.D(), n) && GrewAs(d, fs.D(), n, ok) && AllTiled(DirBlocks(d, n))
      ensures All() == Total(DirBlocks(d, n)) + if ok then multiset{Entry(name, inode, kind)} else multiset{}
      ensures if ok then
                && |Blocks()| == |DirBlocks(d, n)| + 1 && Blocks()[..|DirBlocks(d, n)|] == DirBlocks(d, n)
                && Entries(Blocks()[|DirBlocks(d, n)|], 0) == [Entry(name, inode, kind)]
              else Blocks() == DirBlocks(d, n)
    {
      hide Tiled;
      hide Entries;
      hide MinLen;
      hide Total;
      hide IsDirectory;
      hide DirBlocks;
      hide OthersSame;
      hide GrewAs;
      hide fs.Valid;
      hide fs.Editing;
      hide Ext4Ownership.Consistent;
      StillValid(d, ino);
      SizeFits(d, ino);
      ghost var blocks := DirBlocks(d, n);
      var b := NewBlock(fs.a.geo.bsize, name, inode, kind);
      AppendTotal(blocks, b, Entry(name, inode, kind));
      ok := Grow(d, ino, b);
      assert blocks + [] == blocks;
    }

    /** dir_add_entry: in the first block with room, or in a new block if the directory can grow. */
    method Add(name: Buf, inode: nat, kind: byte) returns (ok: bool)
      requires Valid() && 0 < inode < 0x1_0000_0000 && |name| < 0x100
      modifies fs.a, fs.a.cache, fs.a.cache.slots, fs.icache, fs.icache.slots, fs.extents, fs`owner
      ensures Valid() && OthersSame(old(fs.D()), fs.D(), n)
      ensures ok <==> !AllFull(old(Blocks()), MinLen(|name|)) || CanGrow(old(fs.D()), n)
      ensures All() == old(All()) + if ok then multiset{Entry(name, inode, kind)} else multiset{}
      ensures !ok ==> Blocks() == old(Blocks())
      ensures if AllFull(old(Blocks()), MinLen(|name|)) then GrewAs(old(fs.D()), fs.D(), n, ok)
              else && Ext4Files.PlanOf(fs.D(), n) == Ext4Files.PlanOf(old(fs.D()), n)
                   && fs.icache.view == old(fs.icache.view)
      ensures |Blocks()| == |old(Blocks())| + if AllFull(old(Blocks()), MinLen(|name|)) && ok then 1 else 0
      ensures ok ==>
                if AllFull(old(Blocks()), MinLen(|name|)) then
                  && Blocks()[..|old(Blocks())|] == old(Blocks())
                  && Entries(Blocks()[|old(Blocks())|], 0) == [Entry(name, inode, kind)]
                else PutFirst(old(Blocks()), Blocks(), MinLen(|name|), Entry(name, inode, kind))
    {
      hide AllFull;
      hide PutFirst;
      hide Placed;
      hide Entries;
      hide NoRoom;
      hide Tiled;
      hide MinLen;
      hide Total;
      hide IsDirectory;
      hide DirBlocks;
      hide OthersSame;
      hide Growth;
      hide fs.Valid;
      hide fs.Editing;
      hide Ext4Files.PlanOf;
      hide Ext4Ownership.Consistent;
      ghost var d, blocks := fs.D(), Blocks();
      var ino, count := Open();
      for l := 0 to count
        invariant Reading(d, ino)
        invariant forall j :: 0 <= j < l ==> NoRoom(blocks[j], MinLen(|name|))
      {
        ok := AddTo(d, ino, l, name, inode, kind);
        if ok {
          IsPutFirst(blocks, Blocks(), MinLen(|name|), Entry(name, inode, kind), l);
          return;
        }
      }
      IsAllFull(blocks, MinLen(|name|));
      ok := AddBehind(d, ino, name, inode, kind);
    }

    lemma SizeFits(d: Disk, ino: Ext4Ownership.Inode)
      requires Reading(d, ino)
      ensures MinLen(0xFF) <= d.geo.bsize < 0x1_0000 && d.geo.bsize % 4 == 0
    {
      hide IsDirectory;
      hide fs.a.Valid;
      hide fs.icache.Valid;
      hide Ext4Files.SlotsFresh;
      hide Ext4Ownership.Consistent;
      hide MinLen;
      hide fs.a.geo.Ok;
      fs.a.Facts();
      SizesFit(d.geo);
    }

    /** The part of dir_remove_entry for one block. */
    method RemoveFrom(ghost d: Disk, ino: Ext4Ownership.Inode, l: nat, name: Buf) returns (done: bool, ghost e: Entry)
      requires Reading(d, ino) && l < Count(d, n)
      modifies fs.a.cache, fs.a.cache.slots
      ensures AllTiled(DirBlocks(d, n)) && (done <==> Named(Entries(DirBlocks(d, n)[l], 0), name))
      ensures !done ==> Reading(d, ino)
      ensures done ==> Valid() && OthersSame(d, fs.D(), n) && Blocks() == DirBlocks(d, n)[l := Blocks()[l]]
      ensures done ==> Drops(DirBlocks(d, n)[l], Blocks()[l], e)
      ensures done ==> e.name == name && Total(DirBlocks(d, n)) == All() + multiset{e}
    {
      hide Tiled;
      hide Entries;
      hide Drops;
      hide Gains;
      hide MinLen;
      hide Total;
      hide Lookup;
      hide IsDirectory;
      hide DirBlocks;
      hide OthersSame;
      hide fs.Valid;
      hide fs.Editing;
      hide Ext4Ownership.Consistent;
      hide Ext4Ownership.Pairs;
      StillValid(d, ino);
      e := Entry([], 0, 0);
      var r, buf := LoadBlock(d, ino, l);
      if r.None? {
        Hole(0);
        assert buf[..] == [];
        return false, e;
      }
      done, e := RemoveFromBlock(buf, name);
      if done {
        TotalLoses(DirBlocks(d, n), l, buf[..], e);
        assert Tiled(DirBlocks(d, n)[l := buf[..]][l], 0);
        StoreBlock(d, ino, l, r.value, buf[..]);
      }
    }

    /** dir_remove_entry */
    method Remove(name: Buf) returns (ok: bool, ghost e: Entry)
      requires Valid()
      modifies fs.a.cache, fs.a.cache.slots, fs.icache, fs.icache.slots, fs.extents
      ensures Valid() && OthersSame(old(fs.D()), fs.D(), n) && (ok <==> old(HasName(All(), name)))
      ensures ok ==> e.name == name && old(All()) == All() + multiset{e} && DroppedFirst(old(Blocks()), Blocks(), e)
      ensures !ok ==> Blocks() == old(Blocks())
    {
      hide DroppedFirst;
      hide Drops;
      hide Tiled;
      hide Entries;
      hide Total;
      hide IsDirectory;
      hide DirBlocks;
      hide OthersSame;
      hide fs.Valid;
      hide fs.Editing;
      hide Ext4Ownership.Consistent;
      ghost var d, blocks := fs.D(), Blocks();
      e := Entry([], 0, 0);
      var ino, count := Open();
      for l := 0 to count
        invariant Reading(d, ino)
        invariant forall j :: 0 <= j < l ==> !Named(Entries(blocks[j], 0), name)
      {
        ok, e := RemoveFrom(d, ino, l, name);
        if ok {
          assert e in All() + multiset{e};
          IsDroppedFirst(blocks, Blocks(), e, l);
          return;
        }
      }
      ok := false;
      NotInTotal(blocks, name);
      StillValid(d, ino);
      NothingDone(d, n);
    }
  }

  lemma SizesFit(geo: Ext4Allocator.Geometry)
    requires geo.Ok()
    ensures MinLen(0xFF) <= geo.bsize < 0x1_0000 && geo.bsize % 4 == 0
  {
  }

  lemma NothingDone(d: Disk, n: nat)
    requires Ext4Ownership.Consistent(d) && IsDirectory(d, n)
    ensures OthersSame(d, d, n)
  {
    hide Ext4Ownership.Consistent;
    hide AllTiled;
    hide Ended;
    Ext4Edits.OthersKeep(d, d, n);
  }

  lemma ListedNone(blocks: seq<Buf>)
    ensures AllTiled(blocks[..0]) && Capped(Listed(blocks[..0])) == []
  {
  }

  lemma IsPutFirst(blocks: seq<Buf>, blocks': seq<Buf>, needed: nat, e: Entry, l: nat)
    requires l < |blocks| == |blocks'| && blocks' == blocks[l := blocks'[l]] && Placed(blocks[l], blocks'[l], needed, e)
    requires (forall j :: 0 <= j < l ==> NoRoom(blocks[j], needed)) && !NoRoom(blocks[l], needed)
    ensures PutFirst(blocks, blocks', needed, e) && !AllFull(blocks, needed)
  {
    hide Placed;
    hide NoRoom;
    assert AllFull(blocks[..l], needed);
  }

  lemma IsAllFull(blocks: seq<Buf>, needed: nat)
    requires forall j :: 0 <= j < |blocks| ==> NoRoom(blocks[j], needed)
    ensures AllFull(blocks, needed)
  {
  }

  lemma IsDroppedFirst(blocks: seq<Buf>, blocks': seq<Buf>, e: Entry, l: nat)
    requires AllTiled(blocks) && l < |blocks| == |blocks'| && blocks' == blocks[l := blocks'[l]]
    requires Drops(blocks[l], blocks'[l], e) && forall j :: 0 <= j < l ==> !Named(Entries(blocks[j], 0), e.name)
    ensures DroppedFirst(blocks, blocks', e)
  {
    hide Drops;
    hide Entries;
    hide Tiled;
    assert NoneNamed(blocks[..l], e.name);
  }

  lemma IsPlaced(b: Buf, b': Buf, needed: nat, e: Entry, o: nat)
    requires PlacedAt(b, b', needed, e, o)
    ensures Placed(b, b', needed, e)
  {
  }

  lemma NoneBehind(d: Disk, n: nat)
    requires IsDirectory(d, n)
    ensures Lookup(d.File(n), Count(d, n)).None?
  {
  }
}
