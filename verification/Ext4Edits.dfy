/**
 What one change of a file does to the whole disk: the facts about ownership and contents that the
 file operations of Ext4Files are built from.
 */
module Ext4Edits {
  import opened Ext4Layout
  import opened Ext4Allocator
  import opened Ext4Extents
  import opened Ext4Trees
  import opened Ext4Ownership
  import opened Ext4Content

  lemma PhysAppend(ps: seq<Pair>, l: nat, p: nat)
    ensures Phys(ps + [(l, p)]) == Phys(ps) + {p}
  {
    forall b | b in Phys(ps) + {p}
      ensures b in Phys(ps + [(l, p)])
    {
      if b == p {
        assert (l, p) in ps + [(l, p)];
      } else {
        var q :| q in ps && q.1 == b;
        assert q in ps + [(l, p)];
      }
    }
  }

  lemma DistinctAppend(ps: seq<Pair>, l: nat, p: nat)
    requires Distinct(ps) && Lookup(ps, l).None? && p !in Phys(ps)
    ensures Distinct(ps + [(l, p)])
  {
    LookupSound(ps, l);
    forall i | 0 <= i < |ps|
      ensures ps[i].0 != l && ps[i].1 != p
    {
      assert ps[i] in ps;
    }
  }

  /** Data blocks are not leaves. */
  lemma DataNotLeaf(geo: Geometry, view: seq<Block>, alloc: set<nat>, t: Tree)
    requires FileOk(geo, view, alloc, t)
    ensures Phys(Pairs(view, t)) !! Leaves(t)
  {
    forall b | b in Leaves(t)
      ensures b !in Phys(Pairs(view, t))
    {
      var i :| 0 <= i < |t.leaves| && t.leaves[i] == b;
      assert LeafOk(geo, view, alloc, t.leaves[i]);
    }
  }

  /** Taking a free block and zero-filling it leaves every file as it was. */
  lemma BeforeAppend(d: Disk, n: nat, p: nat, view1: seq<Block>, zeros: seq<byte>)
    requires Consistent(d) && n in d.live && p !in d.alloc && p < |view1|
    requires SameFiles(d.geo, d.view, view1)
    ensures var view2 := view1[p := Bytes(zeros)];
            && Unchanged(d.view, view2, d.alloc - d.geo.fixed)
            && FileOk(d.geo, view2, d.alloc + {p}, d.inodes[n].tree)
            && Pairs(view2, d.inodes[n].tree) == d.File(n)
            && Load(view2, d.inodes[n].tree) == Load(d.view, d.inodes[n].tree)
  {
    OwnedAlloc(d, n);
    LoadFrame(d.view, view1[p := Bytes(zeros)], d.inodes[n].tree);
    FileFrame(d.geo, d.view, d.alloc, d.inodes[n].tree, view1[p := Bytes(zeros)], d.alloc + {p});
  }

  /** The file after an append: one more pair, same old blocks, still well formed. */
  lemma AppendFile(
    geo: Geometry, view: seq<Block>, alloc: set<nat>, t: Tree, l: nat, p: nat,
    view': seq<Block>, alloc': set<nat>, t': Tree)
    requires FileOk(geo, view, alloc, t) && Lookup(Pairs(view, t), l).None?
    requires p !in Owned(view, t) && DataOk(geo, view, alloc, p)
    requires Appended(geo, view, alloc, t, l, p, view', alloc', t')
    ensures Pairs(view', t') == Pairs(view, t) + [(l, p)]
    ensures Unchanged(view, view', Phys(Pairs(view, t)) + {p})
    ensures FileOk(geo, view', alloc', t')
    ensures Owned(view', t') == Phys(Pairs(view, t)) + {p} + Leaves(t')
    ensures alloc' == alloc + Leaves(t') && alloc * Leaves(t') == Leaves(t)
    ensures Unchanged(view, view', alloc - geo.fixed - Leaves(t))
  {
    hide AppendTree;
    hide Load;
    hide Flat;
    hide Lookup;
    hide TreeOk;
    var ps := Pairs(view, t);
    AppendTreeFlat(Load(view, t), l, p, geo.LeafMax());
    DistinctAppend(ps, l, p);
    PhysAppend(ps, l, p);
    DataNotLeaf(geo, view, alloc, t);
    forall b | b in Phys(ps) + {p}
      ensures b in alloc - geo.fixed - Leaves(t) && DataOk(geo, view', alloc', b)
    {
      assert DataOk(geo, view, alloc, b);
    }
  }

  /** Giving inode `n` a block at an unmapped position keeps the whole disk consistent. */
  lemma AppendConsistent(
    d: Disk, n: nat, l: nat, p: nat, view2: seq<Block>, view3: seq<Block>, alloc3: set<nat>, ino: Inode)
    requires Consistent(d) && n in d.live && Lookup(d.File(n), l).None?
    requires p !in d.alloc && DataOk(d.geo, view2, d.alloc + {p}, p)
    requires Unchanged(d.view, view2, d.alloc - d.geo.fixed)
    requires FileOk(d.geo, view2, d.alloc + {p}, d.inodes[n].tree) && Pairs(view2, d.inodes[n].tree) == d.File(n)
    requires Appended(d.geo, view2, d.alloc + {p}, d.inodes[n].tree, l, p, view3, alloc3, ino.tree)
    ensures Pairs(view3, ino.tree) == d.File(n) + [(l, p)]
    ensures Unchanged(view2, view3, {p}) && Unchanged(d.view, view3, Phys(d.File(n)))
    ensures Unchanged(d.view, view3, d.alloc - d.geo.fixed - d.Mine(n))
    ensures alloc3 - Owned(view3, ino.tree) == d.alloc - d.Mine(n)
    ensures d.Mine(n) < Owned(view3, ino.tree)
    ensures Consistent(d.(view := view3, alloc := alloc3, inodes := d.inodes[n := ino],
                          owner := Reassign(d.owner, n, Owned(view3, ino.tree))))
    ensures BlocksOf(Reassign(d.owner, n, Owned(view3, ino.tree)), 0) == BlocksOf(d.owner, 0)
  {
    hide Appended;
    hide Lookup;
    var t, t' := d.inodes[n].tree, ino.tree;
    OwnedAlloc(d, n);
    assert d.Mine(n) == Owned(view2, t);
    hide FileOk;
    hide Consistent;
    hide Pairs;
    AppendFile(d.geo, view2, d.alloc + {p}, t, l, p, view3, alloc3, t');
    assert alloc3 == (d.alloc - d.Mine(n)) + Owned(view3, t');
    assert Owned(view3, t') !! d.alloc - d.Mine(n);
    assert p in Owned(view3, t');
    ConsistentUpdate(d, n, ino, view3, alloc3);
  }

  /** The two files have the same bytes everywhere. */
  ghost predicate SameBytes(view: seq<Block>, ps: seq<Pair>, view': seq<Block>, ps': seq<Pair>, bsize: nat)
    requires bsize > 0
  {
    forall off: nat :: Content(view', ps', bsize, off) == Content(view, ps, bsize, off)
  }

  lemma SameBytesAppend(view: seq<Block>, ps: seq<Pair>, view': seq<Block>, l: nat, p: nat, bsize: nat)
    requires bsize > 0 && Unchanged(view, view', Phys(ps)) && Lookup(ps, l).None? && Zeroed(view', p)
    ensures SameBytes(view, ps, view', ps + [(l, p)], bsize)
  {
    forall off: nat
      ensures Content(view', ps + [(l, p)], bsize, off) == Content(view, ps, bsize, off)
    {
      ContentAppend(view, view', ps, l, p, bsize, off);
    }
  }

  lemma SameBytesFrame(view: seq<Block>, ps: seq<Pair>, view': seq<Block>, bsize: nat)
    requires bsize > 0 && Unchanged(view, view', Phys(ps))
    ensures SameBytes(view, ps, view', ps, bsize)
  {
    forall off: nat
      ensures Content(view', ps, bsize, off) == Content(view, ps, bsize, off)
    {
      ContentFrame(view, view', ps, bsize, off);
    }
  }

  /** A change to blocks nobody owns: inode `n` keeps its mapping and its bytes. */
  lemma Untouched(d: Disk, n: nat, view': seq<Block>)
    requires Consistent(d) && n in d.live && d.geo.bsize > 0
    requires Unchanged(d.view, view', d.alloc - d.geo.fixed)
    ensures Consistent(d.(view := view'))
    ensures Pairs(view', d.inodes[n].tree) == d.File(n) && Owned(view', d.inodes[n].tree) == d.Mine(n)
    ensures SameBytes(d.view, d.File(n), view', d.File(n), d.geo.bsize)
    ensures Load(view', d.inodes[n].tree) == Load(d.view, d.inodes[n].tree)
  {
    ConsistentFrame(d, view');
    OwnedAlloc(d, n);
    LoadFrame(d.view, view', d.inodes[n].tree);
    SameBytesFrame(d.view, d.File(n), view', d.geo.bsize);
  }

  /** The bytes `src` stand at `lo`; every other byte of the file is as before. */
  ghost predicate Overwritten(
    view: seq<Block>, ps: seq<Pair>, view': seq<Block>, ps': seq<Pair>, bsize: nat, lo: nat, src: seq<byte>)
    requires bsize > 0
  {
    forall off: nat :: Content(view', ps', bsize, off) ==
      if lo <= off < lo + |src| then src[off - lo] else Content(view, ps, bsize, off)
  }

  lemma OverwrittenPatch(
    view0: seq<Block>, ps0: seq<Pair>, view: seq<Block>, ps: seq<Pair>,
    l: nat, p: nat, at: nat, src: seq<byte>, bsize: nat)
    requires bsize > 0 && Distinct(ps) && (l, p) in ps && SameBytes(view0, ps0, view, ps, bsize)
    requires p < |view| && view[p].Bytes? && |view[p].data| == bsize && at + |src| <= bsize
    ensures Overwritten(view0, ps0, view[p := Bytes(Patch(view[p].data, at, src))], ps, bsize, l * bsize + at, src)
  {
    var view' := view[p := Bytes(Patch(view[p].data, at, src))];
    var lo := l * bsize + at;
    forall off: nat
      ensures Content(view', ps, bsize, off) ==
              if lo <= off < lo + |src| then src[off - lo] else Content(view0, ps0, bsize, off)
    {
      ContentPatch(view, ps, l, p, at, src, bsize, off);
    }
  }

  lemma OverwrittenTrans(
    v0: seq<Block>, ps0: seq<Pair>, v1: seq<Block>, ps1: seq<Pair>, v2: seq<Block>, ps2: seq<Pair>,
    bsize: nat, lo: nat, s1: seq<byte>, s2: seq<byte>)
    requires bsize > 0
    requires Overwritten(v0, ps0, v1, ps1, bsize, lo, s1) && Overwritten(v1, ps1, v2, ps2, bsize, lo + |s1|, s2)
    ensures Overwritten(v0, ps0, v2, ps2, bsize, lo, s1 + s2)
  {
  }

  lemma ReassignSame(owner: map<nat, nat>, n: nat)
    ensures Reassign(owner, n, BlocksOf(owner, n)) == owner
  {
  }

  /** Rewriting a data block of inode `n` keeps every mapping and the ownership of every block. */
  lemma RewriteBlock(d: Disk, n: nat, l: nat, p: nat, data: seq<byte>)
    requires Consistent(d) && n in d.live && Lookup(d.File(n), l) == Some(p) && |data| == d.geo.bsize
    ensures DataOk(d.geo, d.view, d.alloc, p) && Distinct(d.File(n)) && (l, p) in d.File(n) && p in d.Mine(n)
    ensures var view' := d.view[p := Bytes(data)];
            && Consistent(d.(view := view'))
            && Pairs(view', d.inodes[n].tree) == d.File(n) && Owned(view', d.inodes[n].tree) == d.Mine(n)
            && Unchanged(d.view, view', d.alloc - d.geo.fixed - d.Mine(n))
            && Unchanged(d.view, view', Leaves(d.inodes[n].tree))
  {
    var t := d.inodes[n].tree;
    LookupSound(d.File(n), l);
    DataNotLeaf(d.geo, d.view, d.alloc, t);
    assert DataOk(d.geo, d.view, d.alloc, p);
    var view' := d.view[p := Bytes(data)];
    LoadFrame(d.view, view', t);
    RewriteFileOk(d.geo, d.view, d.alloc, t, p, data);
    OwnedAlloc(d, n);
    ConsistentUpdate(d, n, d.inodes[n], view', d.alloc);
    ReassignSame(d.owner, n);
    assert d.inodes[n := d.inodes[n]] == d.inodes;
  }

  lemma RewriteFileOk(geo: Geometry, view: seq<Block>, alloc: set<nat>, t: Tree, p: nat, data: seq<byte>)
    requires FileOk(geo, view, alloc, t) && p in Phys(Pairs(view, t)) && |data| == geo.bsize && p < |view|
    ensures FileOk(geo, view[p := Bytes(data)], alloc, t)
  {
    var view' := view[p := Bytes(data)];
    DataNotLeaf(geo, view, alloc, t);
    LoadFrame(view, view', t);
    if t.Index? {
      forall i | 0 <= i < |t.leaves|
        ensures LeafOk(geo, view', alloc, t.leaves[i])
      {
        assert LeafOk(geo, view, alloc, t.leaves[i]);
        assert t.leaves[i] in Leaves(t);
      }
    }
    forall b | b in Phys(Pairs(view, t))
      ensures DataOk(geo, view', alloc, b)
    {
      assert DataOk(geo, view, alloc, b);
    }
  }

  /** Every inode but `n` keeps its inode record, its mapping and its bytes. */
  ghost predicate OthersKept(d: Disk, d': Disk, n: nat)
    requires d.geo.bsize > 0
  {
    && d'.live == d.live && d'.geo == d.geo && |d'.inodes| == |d.inodes|
    && forall m :: m in d.live && m != n ==>
         && m < |d.inodes| && d'.inodes[m] == d.inodes[m] && d'.File(m) == d.File(m)
         && SameBytes(d.view, d.File(m), d'.view, d'.File(m), d.geo.bsize)
  }

  lemma OthersKeep(d: Disk, d': Disk, n: nat)
    requires Consistent(d) && n in d.live && d.geo.bsize > 0
    requires Unchanged(d.view, d'.view, d.alloc - d.geo.fixed - d.Mine(n))
    requires d'.live == d.live && d'.geo == d.geo && |d'.inodes| == |d.inodes|
    requires forall m :: 0 <= m < |d.inodes| && m != n ==> d'.inodes[m] == d.inodes[m]
    ensures OthersKept(d, d', n)
  {
    forall m | m in d.live && m != n
      ensures m < |d.inodes| && d'.File(m) == d.File(m)
      ensures SameBytes(d.view, d.File(m), d'.view, d'.File(m), d.geo.bsize)
    {
      OtherFile(d, n, m, d'.view, d.alloc);
      SameBytesFrame(d.view, d.File(m), d'.view, d.geo.bsize);
    }
  }

  /** Ownership depends on an inode's tree alone. */
  lemma ConsistentRestamp(d: Disk, n: nat, ino: Inode)
    requires Consistent(d) && n in d.live && n < |d.inodes| && ino.tree == d.inodes[n].tree
    ensures Consistent(d.(inodes := d.inodes[n := ino]))
  {
    hide FileOk;
    hide Owned;
  }

  /** An inode with an empty tree comes into use: it owns nothing. */
  lemma ConsistentAdd(d: Disk, n: nat, ino: Inode)
    requires Consistent(d) && n !in d.live && 0 < n < |d.inodes| && ino.tree == Inline([])
    ensures Consistent(d.(inodes := d.inodes[n := ino], live := d.live + {n})) && Pairs(d.view, ino.tree) == []
  {
    assert Owned(d.view, ino.tree) == {};
    assert BlocksOf(d.owner, n) == {};
    assert FileOk(d.geo, d.view, d.alloc, ino.tree);
    hide FileOk;
    hide Owned;
  }
}
