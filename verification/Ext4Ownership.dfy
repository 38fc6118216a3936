/**
 Who owns which block. Every allocated block is fixed metadata, belongs to exactly one live inode,
 as a data block or as an extent leaf, or has been lost: it is allocated and nobody's.
 */
module Ext4Ownership {
  import opened Ext4Layout
  import opened Ext4Allocator
  import opened Ext4Extents
  import opened Ext4Trees

  datatype Inode = Inode(regular: bool, size: nat, blocks512: nat, links: nat, tree: Tree)

  /** The mapping of a tree whose leaves are read from `view`. */
  ghost function Pairs(view: seq<Block>, t: Tree): seq<Pair> {
    FlatTree(Load(view, t))
  }

  ghost function Phys(ps: seq<Pair>): set<nat> {
    set q | q in ps :: q.1
  }

  ghost function Owned(view: seq<Block>, t: Tree): set<nat> {
    Phys(Pairs(view, t)) + Leaves(t)
  }

  /** No logical block is mapped twice, no physical block is used twice. */
  ghost predicate Distinct(ps: seq<Pair>) {
    forall i, j :: 0 <= i < j < |ps| ==> ps[i].0 != ps[j].0 && ps[i].1 != ps[j].1
  }

  ghost predicate DataOk(geo: Geometry, view: seq<Block>, alloc: set<nat>, b: nat) {
    && b < |view| && b !in geo.fixed && geo.InRange(b) && b in alloc
    && view[b].Bytes? && |view[b].data| == geo.bsize
  }

  ghost predicate FileOk(geo: Geometry, view: seq<Block>, alloc: set<nat>, t: Tree) {
    && TreeOk(geo, view, alloc, t)
    && Distinct(Pairs(view, t))
    && forall b :: b in Phys(Pairs(view, t)) ==> DataOk(geo, view, alloc, b)
  }

  ghost function BlocksOf(owner: map<nat, nat>, n: nat): set<nat> {
    set b | b in owner && owner[b] == n
  }

  /** The blocks, the set bitmap bits, the inodes, which of them are in use, and who owns each block. */
  datatype Disk = Disk(
    geo: Geometry, view: seq<Block>, alloc: set<nat>, inodes: seq<Inode>, live: set<nat>, owner: map<nat, nat>)
  {
    ghost function Mine(n: nat): set<nat>
      requires n < |inodes|
    {
      Owned(view, inodes[n].tree)
    }

    ghost function File(n: nat): seq<Pair>
      requires n < |inodes|
    {
      Pairs(view, inodes[n].tree)
    }
  }

  /** The blocks that are allocated but neither fixed metadata nor anybody's. */
  ghost function Lost(d: Disk): set<nat> {
    BlocksOf(d.owner, 0) - d.geo.fixed
  }

  /** The bitmaps are the fixed metadata, what is lost, and what the live inodes own, all disjoint. */
  ghost predicate Consistent(d: Disk) {
    && d.alloc == d.owner.Keys
    && d.geo.fixed <= BlocksOf(d.owner, 0)
    && (forall b :: b in d.owner ==> d.owner[b] == 0 || d.owner[b] in d.live)
    && (forall n :: n in d.live ==> 0 < n < |d.inodes|)
    && (forall n :: n in d.live ==> FileOk(d.geo, d.view, d.alloc, d.inodes[n].tree))
    && (forall n :: n in d.live ==> d.Mine(n) == BlocksOf(d.owner, n))
  }

  lemma LiveFile(d: Disk, n: nat)
    requires Consistent(d) && n in d.live
    ensures 0 < n < |d.inodes| && FileOk(d.geo, d.view, d.alloc, d.inodes[n].tree)
  {
  }

  lemma OwnedOk(geo: Geometry, view: seq<Block>, alloc: set<nat>, t: Tree, b: nat)
    requires FileOk(geo, view, alloc, t) && b in Owned(view, t)
    ensures b < |view| && b !in geo.fixed && geo.InRange(b) && b in alloc
  {
    if b in Leaves(t) {
      var i :| 0 <= i < |t.leaves| && t.leaves[i] == b;
      assert LeafOk(geo, view, alloc, t.leaves[i]);
    } else {
      assert DataOk(geo, view, alloc, b);
    }
  }

  /** A file whose blocks keep their contents and stay allocated stays as it is. */
  lemma FileFrame(geo: Geometry, view: seq<Block>, alloc: set<nat>, t: Tree, view': seq<Block>, alloc': set<nat>)
    requires FileOk(geo, view, alloc, t)
    requires Owned(view, t) <= alloc' && Unchanged(view, view', Owned(view, t))
    ensures Pairs(view', t) == Pairs(view, t) && FileOk(geo, view', alloc', t)
  {
    LoadFrame(view, view', t);
    if t.Index? {
      forall i | 0 <= i < |t.leaves|
        ensures LeafOk(geo, view', alloc', t.leaves[i])
      {
        assert LeafOk(geo, view, alloc, t.leaves[i]);
        assert t.leaves[i] in Leaves(t);
      }
    }
    forall b | b in Phys(Pairs(view, t))
      ensures DataOk(geo, view', alloc', b)
    {
      assert DataOk(geo, view, alloc, b);
    }
  }

  /** The ownership in which inode `n` owns exactly `blocks`. */
  ghost function Reassign(owner: map<nat, nat>, n: nat, blocks: set<nat>): map<nat, nat> {
    (map b | b in owner && owner[b] != n :: owner[b]) + (map b | b in blocks :: n)
  }

  /**
   One inode changes: it may give up blocks, take blocks nobody owns, and rewrite its own. Every
   other inode keeps its file, and the bitmaps still say exactly who owns what.
   */
  lemma ConsistentUpdate(d: Disk, n: nat, ino: Inode, view': seq<Block>, alloc': set<nat>)
    requires Consistent(d) && n in d.live
    requires FileOk(d.geo, view', alloc', ino.tree)
    requires alloc' == (d.alloc - d.Mine(n)) + Owned(view', ino.tree)
    requires Owned(view', ino.tree) !! d.alloc - d.Mine(n)
    requires Unchanged(d.view, view', d.alloc - d.geo.fixed - d.Mine(n))
    ensures Consistent(d.(view := view', alloc := alloc', inodes := d.inodes[n := ino],
                          owner := Reassign(d.owner, n, Owned(view', ino.tree))))
    ensures BlocksOf(Reassign(d.owner, n, Owned(view', ino.tree)), 0) == BlocksOf(d.owner, 0)
  {
    hide Owned;
    hide FileOk;
    var mine' := Owned(view', ino.tree);
    ReassignKeys(d.owner, n, mine');
    ReassignBlocks(d.owner, n, mine', 0);
    forall m | m in d.live && m != n
      ensures FileOk(d.geo, view', alloc', d.inodes[m].tree)
      ensures Owned(view', d.inodes[m].tree) == BlocksOf(Reassign(d.owner, n, mine'), m)
    {
      OtherFile(d, n, m, view', alloc');
      ReassignBlocks(d.owner, n, mine', m);
    }
    hide Reassign;
    hide BlocksOf;
  }

  lemma ReassignBlocks(owner: map<nat, nat>, n: nat, blocks: set<nat>, m: nat)
    requires blocks !! owner.Keys - BlocksOf(owner, n) && m != n
    ensures BlocksOf(Reassign(owner, n, blocks), m) == BlocksOf(owner, m)
  {
  }

  lemma ReassignKeys(owner: map<nat, nat>, n: nat, blocks: set<nat>)
    requires blocks !! owner.Keys - BlocksOf(owner, n)
    ensures Reassign(owner, n, blocks).Keys == owner.Keys - BlocksOf(owner, n) + blocks
    ensures BlocksOf(Reassign(owner, n, blocks), n) == blocks
  {
    assert BlocksOf(Reassign(owner, n, blocks), n) == blocks;
  }

  lemma OwnedAlloc(d: Disk, n: nat)
    requires Consistent(d) && n in d.live
    ensures d.Mine(n) <= d.alloc - d.geo.fixed
  {
    forall b | b in d.Mine(n)
      ensures b in d.alloc - d.geo.fixed
    {
      OwnedOk(d.geo, d.view, d.alloc, d.inodes[n].tree, b);
    }
  }

  /** No two inodes share a block, and no inode owns fixed metadata. */
  lemma DisjointFiles(d: Disk, n: nat, m: nat)
    requires Consistent(d) && n in d.live && m in d.live && m != n
    ensures d.Mine(m) <= d.alloc - d.geo.fixed - d.Mine(n)
  {
    forall b | b in d.Mine(m)
      ensures b in d.alloc - d.geo.fixed - d.Mine(n)
    {
      OwnedOk(d.geo, d.view, d.alloc, d.inodes[m].tree, b);
      assert b in BlocksOf(d.owner, m);
    }
  }

  /** An inode other than the one being changed keeps its mapping and its blocks. */
  lemma OtherFile(d: Disk, n: nat, m: nat, view': seq<Block>, alloc': set<nat>)
    requires Consistent(d) && n in d.live && m in d.live && m != n
    requires d.alloc - d.Mine(n) <= alloc'
    requires Unchanged(d.view, view', d.alloc - d.geo.fixed - d.Mine(n))
    ensures FileOk(d.geo, view', alloc', d.inodes[m].tree)
    ensures Pairs(view', d.inodes[m].tree) == d.File(m) && Owned(view', d.inodes[m].tree) == d.Mine(m)
    ensures Unchanged(d.view, view', d.Mine(m))
  {
    DisjointFiles(d, n, m);
    FileFrame(d.geo, d.view, d.alloc, d.inodes[m].tree, view', alloc');
  }

  /** A set bitmap bit is fixed metadata, lost, or a block of one live inode, and of no second one. */
  lemma OwnedExactlyOnce(d: Disk, b: nat)
    requires Consistent(d)
    ensures b in d.alloc <==> b in d.geo.fixed || b in Lost(d) || exists n :: n in d.live && b in d.Mine(n)
    ensures forall n, m :: n in d.live && m in d.live && b in d.Mine(n) && b in d.Mine(m) ==> n == m
    ensures forall n :: n in d.live && b in d.Mine(n) ==> b !in d.geo.fixed && b !in Lost(d)
  {
    if b in d.alloc && b !in d.geo.fixed && b !in Lost(d) {
      assert b in BlocksOf(d.owner, d.owner[b]);
      assert b in d.Mine(d.owner[b]);
    }
    forall n | n in d.live && b in d.Mine(n)
      ensures b in d.alloc && d.owner[b] == n && b !in d.geo.fixed
    {
      assert b in BlocksOf(d.owner, n);
      OwnedAlloc(d, n);
    }
  }

  /** The ownership in which the blocks `lost` are nobody's. */
  ghost function Disown(owner: map<nat, nat>, lost: set<nat>): map<nat, nat> {
    owner + map b | b in lost :: 0
  }

  lemma DisownBlocks(owner: map<nat, nat>, lost: set<nat>, n: nat)
    requires lost !! owner.Keys
    ensures BlocksOf(Disown(owner, lost), n) == BlocksOf(owner, n) + if n == 0 then lost else {}
  {
  }

  /** Bits set for nobody keep every file, and are lost. */
  lemma ConsistentLose(d: Disk, lost: set<nat>)
    requires Consistent(d) && lost !! d.alloc
    ensures Consistent(d.(alloc := d.alloc + lost, owner := Disown(d.owner, lost)))
    ensures BlocksOf(Disown(d.owner, lost), 0) == BlocksOf(d.owner, 0) + lost
  {
    hide FileOk;
    DisownBlocks(d.owner, lost, 0);
    forall n | n in d.live
      ensures FileOk(d.geo, d.view, d.alloc + lost, d.inodes[n].tree)
      ensures BlocksOf(Disown(d.owner, lost), n) == BlocksOf(d.owner, n)
    {
      OwnedAlloc(d, n);
      FileFrame(d.geo, d.view, d.alloc, d.inodes[n].tree, d.view, d.alloc + lost);
      DisownBlocks(d.owner, lost, n);
    }
  }

  /** Changes to blocks nobody owns, and to the fixed metadata, change no file. */
  lemma ConsistentFrame(d: Disk, view': seq<Block>)
    requires Consistent(d) && Unchanged(d.view, view', d.alloc - d.geo.fixed)
    ensures Consistent(d.(view := view'))
    ensures forall n :: n in d.live ==> Pairs(view', d.inodes[n].tree) == d.File(n)
  {
    forall n | n in d.live
      ensures FileOk(d.geo, view', d.alloc, d.inodes[n].tree)
      ensures Pairs(view', d.inodes[n].tree) == d.File(n)
    {
      OwnedAlloc(d, n);
      FileFrame(d.geo, d.view, d.alloc, d.inodes[n].tree, view', d.alloc);
    }
  }
}
