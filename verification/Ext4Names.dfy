/**
 Names and inodes: creating and unlinking files in a directory. Over every run a link count is the
 number of names that refer to the inode, and an inode is in use exactly while some name does.
 */
module Ext4Names {
  import opened Ext4Layout
  import opened Ext4DirBlock
  import opened Ext4Directory
  import Ext4Extents
  import Ext4Allocator
  import Ext4Ownership
  import Ext4Edits
  import Ext4Files
  import opened Ext4DirFiles

  const NAME_LEN: nat := 255
  const KIND_FILE: byte := 1
  const KIND_DIRECTORY: byte := 2
  const KIND_FIFO: byte := 5

  /** How create_file and unlink end. */
  datatype Outcome = Done | Inval | NameTooLong | Exist | NoSpc | Io | NoEnt | IsDir

  // Counting references

  /** How many entries refer to inode `n`. */
  function Refs(es: seq<Entry>, n: nat): nat {
    if es == [] then 0 else Refs(es[..|es| - 1], n) + if es[|es| - 1].inode == n then 1 else 0
  }

  lemma {:induction false} RefsConcat(a: seq<Entry>, b: seq<Entry>, n: nat)
    ensures Refs(a + b, n) == Refs(a, n) + Refs(b, n)
  {
    if b == [] {
      assert a + b == a;
    } else {
      var k := |b| - 1;
      RefsConcat(a, b[..k], n);
      assert (a + b)[..|a + b| - 1] == a + b[..k];
    }
  }

  lemma RefsWithout(b: seq<Entry>, j: nat, n: nat)
    requires j < |b|
    ensures var rest := b[..j] + b[j + 1..];
            && multiset(b) == multiset(rest) + multiset{b[j]}
            && Refs(b, n) == Refs(rest, n) + if b[j].inode == n then 1 else 0
  {
    var e := b[j];
    assert b == b[..j] + ([e] + b[j + 1..]);
    RefsConcat(b[..j], [e] + b[j + 1..], n);
    RefsConcat([e], b[j + 1..], n);
    RefsConcat(b[..j], b[j + 1..], n);
    RefsOne(e, n);
  }

  lemma {:induction false} RefsSame(a: seq<Entry>, b: seq<Entry>, n: nat)
    requires multiset(a) == multiset(b)
    ensures Refs(a, n) == Refs(b, n)
  {
    if a == [] {
      assert |multiset(b)| == 0;
    } else {
      var k := |a| - 1;
      assert a[k] in multiset(b);
      var j :| 0 <= j < |b| && b[j] == a[k];
      var rest := b[..j] + b[j + 1..];
      RefsWithout(a, k, n);
      RefsWithout(b, j, n);
      assert a[..k] + a[k + 1..] == a[..k];
      SameRest(multiset(a[..k]), multiset(rest), a[k]);
      hide Refs;
      RefsSame(a[..k], rest, n);
    }
  }

  lemma SameRest(a: multiset<Entry>, b: multiset<Entry>, e: Entry)
    requires a + multiset{e} == b + multiset{e}
    ensures a == b
  {
    assert a == (a + multiset{e}) - multiset{e} && b == (b + multiset{e}) - multiset{e};
  }

  lemma RefsOne(e: Entry, n: nat)
    ensures Refs([e], n) == if e.inode == n then 1 else 0
  {
    assert [e][..0] == [];
  }

  /** One entry more is one reference more. */
  lemma RefsGain(a: seq<Entry>, b: seq<Entry>, e: Entry, n: nat)
    requires multiset(b) == multiset(a) + multiset{e}
    ensures Refs(b, n) == Refs(a, n) + if e.inode == n then 1 else 0
  {
    RefsSame(b, a + [e], n);
    RefsConcat(a, [e], n);
    RefsOne(e, n);
  }

  lemma {:induction false} RefsMember(es: seq<Entry>, e: Entry)
    requires e in es
    ensures Refs(es, e.inode) > 0
  {
    var k := |es| - 1;
    if es[k] != e {
      assert es == es[..k] + [es[k]];
      RefsMember(es[..k], e);
    }
  }

  /** The references to an inode from the listed names and from other directories. */
  ghost function AllRefs(es: seq<Entry>, elsewhere: multiset<nat>, n: nat): nat {
    Refs(es, n) + elsewhere[n]
  }

  /** Link counts are reference counts, and an inode is in use exactly while it is referred to. */
  ghost predicate Counted(
    inodes: seq<Ext4Ownership.Inode>, live: set<nat>, es: seq<Entry>, elsewhere: multiset<nat>)
  {
    forall n: nat :: CountOk(inodes, live, es, elsewhere, n)
  }

  ghost predicate CountOk(
    inodes: seq<Ext4Ownership.Inode>, live: set<nat>, es: seq<Entry>, elsewhere: multiset<nat>, n: nat)
  {
    if n in live then n < |inodes| && inodes[n].links == AllRefs(es, elsewhere, n) > 0
    else AllRefs(es, elsewhere, n) == 0
  }

  lemma CountedAt(
    inodes: seq<Ext4Ownership.Inode>, live: set<nat>, es: seq<Entry>, elsewhere: multiset<nat>, n: nat)
    requires Counted(inodes, live, es, elsewhere)
    ensures CountOk(inodes, live, es, elsewhere, n)
  {
  }

  /** One inode gains or loses a name; what is known of the others stays. */
  lemma CountedStep(
    inodes: seq<Ext4Ownership.Inode>, live: set<nat>, es: seq<Entry>, elsewhere: multiset<nat>,
    inodes': seq<Ext4Ownership.Inode>, live': set<nat>, es': seq<Entry>, n: nat)
    requires Counted(inodes, live, es, elsewhere) && CountOk(inodes', live', es', elsewhere, n)
    requires |inodes'| == |inodes|
    requires forall m: nat :: m != n ==> (m in live' <==> m in live) && Refs(es', m) == Refs(es, m)
    requires forall m :: 0 <= m < |inodes| && m != n ==> inodes'[m].links == inodes[m].links
    ensures Counted(inodes', live', es', elsewhere)
  {
    hide Refs;
    forall m: nat
      ensures CountOk(inodes', live', es', elsewhere, m)
    {
      assert CountOk(inodes, live, es, elsewhere, m);
    }
  }

  /** A name is added for an inode that was not in use and now has one link. */
  lemma CountedAdd(
    inodes: seq<Ext4Ownership.Inode>, live: set<nat>, es: seq<Entry>, elsewhere: multiset<nat>,
    inodes': seq<Ext4Ownership.Inode>, es': seq<Entry>, e: Entry)
    requires Counted(inodes, live, es, elsewhere) && multiset(es') == multiset(es) + multiset{e}
    requires e.inode !in live && e.inode < |inodes'| == |inodes| && inodes'[e.inode].links == 1
    requires forall m :: 0 <= m < |inodes| && m != e.inode ==> inodes'[m].links == inodes[m].links
    ensures Counted(inodes', live + {e.inode}, es', elsewhere)
  {
    hide Refs;
    CountedAt(inodes, live, es, elsewhere, e.inode);
    forall m: nat
      ensures Refs(es', m) == Refs(es, m) + if e.inode == m then 1 else 0
    {
      RefsGain(es, es', e, m);
    }
    CountedStep(inodes, live, es, elsewhere, inodes', live + {e.inode}, es', e.inode);
  }

  /** A name is removed, and its inode loses a link, or goes if that was the last one. */
  lemma CountedRemove(
    inodes: seq<Ext4Ownership.Inode>, live: set<nat>, es: seq<Entry>, elsewhere: multiset<nat>,
    inodes': seq<Ext4Ownership.Inode>, live': set<nat>, es': seq<Entry>, e: Entry)
    requires Counted(inodes, live, es, elsewhere) && multiset(es) == multiset(es') + multiset{e}
    requires e.inode in live && e.inode < |inodes'| == |inodes|
    requires if inodes[e.inode].links <= 1 then live' == live - {e.inode}
             else live' == live && inodes'[e.inode].links == inodes[e.inode].links - 1
    requires forall m :: 0 <= m < |inodes| && m != e.inode ==> inodes'[m].links == inodes[m].links
    ensures Counted(inodes', live', es', elsewhere)
  {
    hide Refs;
    CountedAt(inodes, live, es, elsewhere, e.inode);
    forall m: nat
      ensures Refs(es, m) == Refs(es', m) + if e.inode == m then 1 else 0
    {
      RefsGain(es', es, e, m);
    }
    CountedStep(inodes, live, es, elsewhere, inodes', live', es', e.inode);
  }

  /** The directory has a name of its own that unlink cannot take away. */
  ghost predicate Anchored(es: seq<Entry>, elsewhere: multiset<nat>, dn: nat) {
    elsewhere[dn] > 0 || exists f :: f in es && f.inode == dn && f.kind == KIND_DIRECTORY
  }

  lemma AnchoredMore(es: seq<Entry>, es': seq<Entry>, elsewhere: multiset<nat>, dn: nat, e: Entry)
    requires Anchored(es, elsewhere, dn) && multiset(es') == multiset(es) + multiset{e}
    ensures Anchored(es', elsewhere, dn)
  {
    if elsewhere[dn] == 0 {
      var f :| f in es && f.inode == dn && f.kind == KIND_DIRECTORY;
      assert f in multiset(es');
    }
  }

  /** When an entry that is not a directory goes, the directory keeps a reference. */
  lemma AnchoredLess(es: seq<Entry>, es': seq<Entry>, elsewhere: multiset<nat>, dn: nat, e: Entry)
    requires Anchored(es, elsewhere, dn) && multiset(es) == multiset(es') + multiset{e} && e.kind != KIND_DIRECTORY
    ensures Anchored(es', elsewhere, dn) && AllRefs(es', elsewhere, dn) > 0
  {
    if elsewhere[dn] == 0 {
      var f :| f in es && f.inode == dn && f.kind == KIND_DIRECTORY;
      assert f in multiset(es);
      assert f in multiset(es');
      RefsMember(es', f);
    }
  }

  /** The inodes in use, but for some, are as they were, with the same files. */
  ghost predicate FilesKept(d: Disk, d': Disk, but: set<nat>) {
    && d.geo.bsize > 0 && d'.geo == d.geo && |d'.inodes| == |d.inodes|
    && forall m :: m in d.live && m !in but ==> Kept(d, d', m)
  }

  ghost predicate Kept(d: Disk, d': Disk, m: nat)
    requires d.geo.bsize > 0
  {
    && m < |d.inodes| && m < |d'.inodes| && d'.inodes[m] == d.inodes[m] && d'.File(m) == d.File(m)
    && Ext4Edits.SameBytes(d.view, d.File(m), d'.view, d'.File(m), d.geo.bsize)
  }

  lemma FilesKeptBy(d: Disk, d': Disk, n: nat)
    requires d.geo.bsize > 0 && Ext4Edits.OthersKept(d, d'.(live := d.live), n)
    ensures FilesKept(d, d', {n})
  {
    hide Ext4Edits.SameBytes;
    hide Ext4Ownership.Pairs;
  }

  lemma FilesKeptTrans(d: Disk, d1: Disk, d2: Disk, a: set<nat>, b: set<nat>)
    requires FilesKept(d, d1, a) && FilesKept(d1, d2, b) && forall m :: m in d.live && m !in a ==> m in d1.live
    ensures FilesKept(d, d2, a + b)
  {
    hide Ext4Ownership.Pairs;
  }

  /** An inode changes that was not in use, or stops being in use. */
  lemma FilesKeptFresh(d: Disk, d': Disk, n: nat)
    requires d.geo.bsize > 0 && d'.geo == d.geo && |d'.inodes| == |d.inodes| && d'.view == d.view
    requires forall m :: m in d.live ==> m < |d.inodes|
    requires forall m :: 0 <= m < |d.inodes| && m != n ==> d'.inodes[m] == d.inodes[m]
    ensures FilesKept(d, d', {n})
  {
    hide Ext4Ownership.Pairs;
  }

  /** A directory whose file is kept stays one. */
  lemma DirectoryKept(d: Disk, d': Disk, but: set<nat>, n: nat)
    requires FilesKept(d, d', but) && IsDirectory(d, n) && n !in but && n in d'.live
    ensures IsDirectory(d', n) && DirBlocks(d', n) == DirBlocks(d, n)
    ensures d'.inodes[n] == d.inodes[n]
  {
    hide Tiled;
    hide Ended;
    hide Ext4Edits.SameBytes;
    hide Ext4Ownership.Pairs;
    assert Kept(d, d', n);
    SameDirectory(d, d', n);
  }

  /** A directory does not depend on its link count. */
  lemma DirectoryRelinked(d: Disk, d': Disk, n: nat)
    requires IsDirectory(d, n) && n in d'.live && d'.geo == d.geo && d'.view == d.view && n < |d'.inodes|
    requires d'.inodes[n] == d.inodes[n].(links := d'.inodes[n].links)
    ensures IsDirectory(d', n) && DirBlocks(d', n) == DirBlocks(d, n)
  {
    hide Tiled;
    hide Ended;
    hide Ext4Ownership.Pairs;
    SameDirectory(d, d', n);
  }

  /** An inode that was not in use does not count. */
  lemma FilesKeptLess(d: Disk, d': Disk, but: set<nat>, n: nat)
    requires FilesKept(d, d', but) && n !in d.live
    ensures FilesKept(d, d', but - {n})
  {
    hide Kept;
  }

  /** Growing depends on the allocated blocks and on the directory alone. */
  lemma SameGrowth(d: Disk, d': Disk, n: nat)
    requires n < |d.inodes| && n < |d'.inodes| && d.geo.bsize > 0
    requires d'.geo == d.geo && d'.alloc == d.alloc && d'.view == d.view && d'.inodes[n] == d.inodes[n]
    ensures Ext4Files.PlanOf(d', n) == Ext4Files.PlanOf(d, n) && (CanGrow(d', n) <==> CanGrow(d, n))
    ensures forall d2, ok :: GrewAs(d', d2, n, ok) <==> GrewAs(d, d2, n, ok)
  {
  }

  /**
   The names in directory `n` are unique, link counts are the numbers of references, and an inode is
   in use exactly while it is referred to.
   */
  ghost predicate NamesOk(d: Disk, n: nat, elsewhere: multiset<nat>) {
    && IsDirectory(d, n) && Unique(Total(DirBlocks(d, n)))
    && Counted(d.inodes, d.live, Listed(DirBlocks(d, n)), elsewhere)
    && Anchored(Listed(DirBlocks(d, n)), elsewhere, n)
  }

  lemma NamesKept(d: Disk, d': Disk, n: nat, elsewhere: multiset<nat>)
    requires NamesOk(d, n, elsewhere) && IsDirectory(d', n) && DirBlocks(d', n) == DirBlocks(d, n)
    requires d'.live == d.live
    requires forall m :: m in d.live && m < |d.inodes| ==> m < |d'.inodes| && d'.inodes[m].links == d.inodes[m].links
    ensures NamesOk(d', n, elsewhere)
  {
    hide Tiled;
    hide Total;
    hide Listed;
    hide Ended;
    hide DirBlocks;
    hide Anchored;
    hide Refs;
    forall m: nat
      ensures CountOk(d'.inodes, d'.live, Listed(DirBlocks(d, n)), elsewhere, m)
    {
      assert CountOk(d.inodes, d.live, Listed(DirBlocks(d, n)), elsewhere, m);
    }
  }

  /** A name is added for an inode that was not in use and now has one link. */
  lemma NamesAdded(d: Disk, d': Disk, n: nat, elsewhere: multiset<nat>, e: Entry)
    requires NamesOk(d, n, elsewhere) && IsDirectory(d', n) && !HasName(Total(DirBlocks(d, n)), e.name)
    requires Total(DirBlocks(d', n)) == Total(DirBlocks(d, n)) + multiset{e}
    requires e.inode !in d.live && d'.live == d.live + {e.inode}
    requires e.inode < |d'.inodes| == |d.inodes| && d'.inodes[e.inode].links == 1
    requires forall m :: 0 <= m < |d.inodes| && m != e.inode ==> d'.inodes[m].links == d.inodes[m].links
    ensures NamesOk(d', n, elsewhere)
  {
    hide Tiled;
    hide Total;
    hide Listed;
    hide DirBlocks;
    hide Ended;
    hide Counted;
    hide Anchored;
    hide Unique;
    hide HasName;
    var es, es' := Listed(DirBlocks(d, n)), Listed(DirBlocks(d', n));
    ListedTotal(DirBlocks(d, n));
    ListedTotal(DirBlocks(d', n));
    UniqueAdd(Total(DirBlocks(d, n)), e);
    CountedAdd(d.inodes, d.live, es, elsewhere, d'.inodes, es', e);
    AnchoredMore(es, es', elsewhere, n, e);
  }

  /** A name is removed, and its inode loses a link, or goes if that was the last one. */
  lemma NamesRemoved(d: Disk, d': Disk, n: nat, elsewhere: multiset<nat>, e: Entry)
    requires NamesOk(d, n, elsewhere) && IsDirectory(d', n) && e.kind != KIND_DIRECTORY
    requires Total(DirBlocks(d, n)) == Total(DirBlocks(d', n)) + multiset{e}
    requires e.inode in d.live && e.inode < |d'.inodes| == |d.inodes|
    requires if d.inodes[e.inode].links <= 1 then d'.live == d.live - {e.inode}
             else d'.live == d.live && d'.inodes[e.inode].links == d.inodes[e.inode].links - 1
    requires forall m :: 0 <= m < |d.inodes| && m != e.inode ==> d'.inodes[m].links == d.inodes[m].links
    ensures NamesOk(d', n, elsewhere) && !HasName(Total(DirBlocks(d', n)), e.name)
  {
    hide Tiled;
    hide Total;
    hide Listed;
    hide DirBlocks;
    hide Ended;
    hide Counted;
    hide Anchored;
    hide Unique;
    hide HasName;
    var es, es' := Listed(DirBlocks(d, n)), Listed(DirBlocks(d', n));
    ListedTotal(DirBlocks(d, n));
    ListedTotal(DirBlocks(d', n));
    UniqueRemove(Total(DirBlocks(d', n)), e);
    CountedRemove(d.inodes, d.live, es, elsewhere, d'.inodes, d'.live, es', e);
    AnchoredLess(es, es', elsewhere, n, e);
  }

  /** An entry refers to an inode in use, and one of a plain file is not the directory's last reference. */
  lemma EntryLive(d: Disk, n: nat, elsewhere: multiset<nat>, e: Entry)
    requires NamesOk(d, n, elsewhere) && e in Total(DirBlocks(d, n))
    ensures e.inode in d.live && e.inode < |d.inodes| && d.inodes[e.inode].links > 0
    ensures e.inode == n && e.kind != KIND_DIRECTORY ==> d.inodes[n].links > 1
  {
    hide Tiled;
    hide Total;
    hide DirBlocks;
    hide Listed;
    hide Refs;
    hide Unique;
    hide Anchored;
    var es := Listed(DirBlocks(d, n));
    ListedTotal(DirBlocks(d, n));
    assert e in multiset(es);
    RefsMember(es, e);
    CountedAt(d.inodes, d.live, es, elsewhere, e.inode);
    if e.inode == n && e.kind != KIND_DIRECTORY {
      var i :| 0 <= i < |es| && es[i] == e;
      var es' := es[..i] + es[i + 1..];
      RefsWithout(es, i, n);
      AnchoredLess(es, es', elsewhere, n, e);
    }
  }

  class Names {
    const dir: Directory
    /** The references to inodes from other directories. */
    ghost const elsewhere: multiset<nat>

    ghost predicate Valid()
      reads dir.fs, dir.fs.a, dir.fs.a.cache, dir.fs.a.cache.slots, dir.fs.icache, dir.fs.icache.slots, dir.fs.extents
    {
      dir.fs.Valid() && NamesOk(dir.fs.D(), dir.n, elsewhere)
    }

    constructor (dir: Directory, ghost elsewhere: multiset<nat>)
      requires dir.fs.Valid() && NamesOk(dir.fs.D(), dir.n, elsewhere)
      ensures Valid() && this.dir == dir && this.elsewhere == elsewhere
    {
      this.dir, this.elsewhere := dir, elsewhere;
    }

    ghost predicate Proper(name: Buf) {
      0 < |name| <= NAME_LEN
    }

    /** What a valid state is, without the details. */
    lemma Facts()
      requires Valid()
      ensures dir.Valid() && dir.Blocks() == DirBlocks(dir.fs.D(), dir.n) && dir.fs.a.geo.bsize > 0
      ensures dir.n in dir.fs.live && dir.n < |dir.fs.icache.view|
      ensures forall m :: m in dir.fs.live ==> m < |dir.fs.icache.view|
    {
      hide Tiled;
      hide Counted;
      hide Anchored;
      hide Unique;
    }

    /** The end of create_file: an inode, a name for it, and neither if there is no room for the name. */
    method CreateEntry(name: Buf, n: nat, regular: bool) returns (ok: bool)
      requires Valid() && Proper(name) && !HasName(dir.All(), name)
      requires n != 0 && n !in dir.fs.live && n < |dir.fs.icache.view| && n < 0x1_0000_0000
      modifies dir.fs, dir.fs.a, dir.fs.a.cache, dir.fs.a.cache.slots
      modifies dir.fs.icache, dir.fs.icache.slots, dir.fs.extents
      ensures Valid()
      ensures ok <==> !AllFull(old(dir.Blocks()), MinLen(|name|)) || CanGrow(old(dir.fs.D()), dir.n)
      ensures if ok then
                && dir.All() == old(dir.All()) + multiset{Entry(name, n, if regular then KIND_FILE else KIND_FIFO)}
                && dir.fs.live == old(dir.fs.live) + {n} && n < |dir.fs.icache.view|
                && dir.fs.icache.view[n] == Ext4Ownership.Inode(regular, 0, 0, 1, Ext4Extents.Inline([]))
              else dir.Blocks() == old(dir.Blocks()) && dir.fs.live == old(dir.fs.live)
      ensures ok ==>
                if AllFull(old(dir.Blocks()), MinLen(|name|)) then GrewAs(old(dir.fs.D()), dir.fs.D(), dir.n, true)
                else Ext4Files.PlanOf(dir.fs.D(), dir.n) == Ext4Files.PlanOf(old(dir.fs.D()), dir.n)
      ensures ok ==> |dir.Blocks()| ==
                     |old(dir.Blocks())| + if AllFull(old(dir.Blocks()), MinLen(|name|)) then 1 else 0
      ensures FilesKept(old(dir.fs.D()), dir.fs.D(), {dir.n})
      ensures Ext4Ownership.Lost(dir.fs.D()) == old(Ext4Ownership.Lost(dir.fs.D()))
    {
      hide Tiled;
      hide IsDirectory;
      hide DirBlocks;
      hide Total;
      hide Listed;
      hide NamesOk;
      hide HasName;
      hide AllFull;
      hide MinLen;
      hide CanGrow;
      hide GrewAs;
      hide FilesKept;
      hide Ext4Edits.OthersKept;
      hide Ext4Files.Unbilled;
      hide Ext4Ownership.Pairs;
      hide dir.fs.Valid;
      hide Ext4Files.PlanOf;
      hide Ext4Ownership.Lost;
      Facts();
      ghost var d, dn := dir.fs.D(), dir.n;
      dir.fs.InitInode(n, regular);
      ghost var d1 := dir.fs.D();
      FilesKeptFresh(d, d1, n);
      DirectoryKept(d, d1, {n}, dn);
      SameGrowth(d, d1, dn);
      ok := dir.Add(name, n, if regular then KIND_FILE else KIND_FIFO);
      ghost var d2 := dir.fs.D();
      FilesKeptBy(d1, d2, dn);
      FilesKeptTrans(d, d1, d2, {n}, {dn});
      FilesKeptLess(d, d2, {n} + {dn}, n);
      assert {n} + {dn} - {n} == {dn};
      if ok {
        NamesAdded(d, d2, dn, elsewhere, Entry(name, n, if regular then KIND_FILE else KIND_FIFO));
      } else {
        dir.fs.FreeInode(n);
        ghost var d3 := dir.fs.D();
        FilesKeptFresh(d2, d3, n);
        DirectoryKept(d2, d3, {n}, dn);
        FilesKeptTrans(d, d2, d3, {dn}, {n});
        FilesKeptLess(d, d3, {dn} + {n}, n);
        assert {dn} + {n} - {n} == {dn};
        assert d.live + {n} - {n} == d.live;
        NamesKept(d, d3, dn, elsewhere);
      }
    }

    /** create_file; `n` is the number alloc_inode gives, 0 for none. */
    method Create(name: Buf, n: nat, regular: bool) returns (r: Outcome)
      requires Valid()
      requires n != 0 ==> n !in dir.fs.live && n < |dir.fs.icache.view| && n < 0x1_0000_0000
      modifies dir.fs, dir.fs.a, dir.fs.a.cache, dir.fs.a.cache.slots
      modifies dir.fs.icache, dir.fs.icache.slots, dir.fs.extents
      ensures Valid()
      ensures r == Inval <==> name == []
      ensures r == NameTooLong <==> |name| > NAME_LEN
      ensures r == Exist <==> Proper(name) && old(HasName(dir.All(), name))
      ensures r == NoSpc <==> Proper(name) && !old(HasName(dir.All(), name)) && n == 0
      ensures r == Io <==> && Proper(name) && !old(HasName(dir.All(), name)) && n != 0
                           && AllFull(old(dir.Blocks()), MinLen(|name|)) && !CanGrow(old(dir.fs.D()), dir.n)
      ensures r != NoEnt && r != IsDir
      ensures r == Done ==>
                && dir.All() == old(dir.All()) + multiset{Entry(name, n, if regular then KIND_FILE else KIND_FIFO)}
                && dir.fs.live == old(dir.fs.live) + {n} && n < |dir.fs.icache.view|
                && dir.fs.icache.view[n] == Ext4Ownership.Inode(regular, 0, 0, 1, Ext4Extents.Inline([]))
      ensures r == Done ==>
                if AllFull(old(dir.Blocks()), MinLen(|name|)) then GrewAs(old(dir.fs.D()), dir.fs.D(), dir.n, true)
                else Ext4Files.PlanOf(dir.fs.D(), dir.n) == Ext4Files.PlanOf(old(dir.fs.D()), dir.n)
      ensures r == Done ==> |dir.Blocks()| ==
                            |old(dir.Blocks())| + if AllFull(old(dir.Blocks()), MinLen(|name|)) then 1 else 0
      ensures r != Done ==> dir.Blocks() == old(dir.Blocks()) && dir.fs.live == old(dir.fs.live)
      ensures FilesKept(old(dir.fs.D()), dir.fs.D(), {dir.n})
      ensures Ext4Ownership.Lost(dir.fs.D()) == old(Ext4Ownership.Lost(dir.fs.D()))
    {
      hide Tiled;
      hide IsDirectory;
      hide DirBlocks;
      hide Total;
      hide NamesOk;
      hide HasName;
      hide AllFull;
      hide MinLen;
      hide CanGrow;
      hide GrewAs;
      hide FilesKept;
      hide dir.fs.Valid;
      hide Ext4Files.PlanOf;
      hide Ext4Ownership.Lost;
      Facts();
      FilesKeptSelf(dir.fs.D(), {dir.n});
      if name == [] {
        return Inval;
      }
      if |name| > NAME_LEN {
        return NameTooLong;
      }
      var existing := dir.Find(name);
      if existing != 0 {
        return Exist;
      }
      if n == 0 {
        return NoSpc;
      }
      var ok := CreateEntry(name, n, regular);
      r := if ok then Done else Io;
    }

    /** The end of unlink: the entry goes, and then a link of its inode. */
    method UnlinkEntry(e: Entry)
      requires Valid() && e in dir.All() && e.kind != KIND_DIRECTORY
      modifies dir.fs, dir.fs.a, dir.fs.a.cache, dir.fs.a.cache.slots
      modifies dir.fs.icache, dir.fs.icache.slots, dir.fs.extents
      ensures Valid() && old(dir.All()) == dir.All() + multiset{e} && !HasName(dir.All(), e.name)
      ensures e.inode < |old(dir.fs.icache.view)|
      ensures dir.fs.live ==
              old(dir.fs.live) - (if old(dir.fs.icache.view)[e.inode].links <= 1 then {e.inode} else {})
      ensures FilesKept(old(dir.fs.D()), dir.fs.D(), {dir.n, e.inode})
      ensures Ext4Ownership.Lost(dir.fs.D()) == old(Ext4Ownership.Lost(dir.fs.D()))
    {
      hide Tiled;
      hide IsDirectory;
      hide DirBlocks;
      hide Total;
      hide NamesOk;
      hide HasName;
      hide FilesKept;
      hide Ext4Edits.OthersKept;
      hide Ext4Files.Unbilled;
      hide Ext4Ownership.Pairs;
      hide dir.fs.Valid;
      hide Ext4Ownership.Lost;
      Facts();
      ghost var d, dn := dir.fs.D(), dir.n;
      EntryLive(d, dn, elsewhere, e);
      ghost var all := dir.All();
      IsNamed(all, e);
      var ok, removed := dir.Remove(e.name);
      SoleEntry(d, dn, elsewhere, e, removed);
      ghost var d1 := dir.fs.D();
      FilesKeptBy(d, d1, dn);
      var gone := dir.fs.Unlink(e.inode);
      ghost var d2 := dir.fs.D();
      FilesKeptBy(d1, d2, e.inode);
      FilesKeptTrans(d, d1, d2, {dn}, {e.inode});
      assert {dn} + {e.inode} == {dn, e.inode};
      if e.inode == dn {
        DirectoryRelinked(d1, d2, dn);
      } else {
        DirectoryKept(d1, d2, {e.inode}, dn);
      }
      NamesRemoved(d, d2, dn, elsewhere, e);
    }

    /** unlink. The name is looked for in a listing, which is cut off after 256 entries. */
    method Unlink(name: Buf) returns (r: Outcome, ghost e: Entry)
      requires Valid()
      modifies dir.fs, dir.fs.a, dir.fs.a.cache, dir.fs.a.cache.slots
      modifies dir.fs.icache, dir.fs.icache.slots, dir.fs.extents
      ensures Valid()
      ensures r in {Done, NoEnt, IsDir}
      ensures r == NoEnt <==> !Named(Capped(Listed(old(dir.Blocks()))), name)
      ensures r != NoEnt ==> e.name == name && e in old(dir.All()) && (r == IsDir <==> e.kind == KIND_DIRECTORY)
      ensures r == Done ==>
                && old(dir.All()) == dir.All() + multiset{e} && !HasName(dir.All(), name)
                && e.inode < |old(dir.fs.icache.view)|
                && dir.fs.live ==
                   old(dir.fs.live) - (if old(dir.fs.icache.view)[e.inode].links <= 1 then {e.inode} else {})
                && FilesKept(old(dir.fs.D()), dir.fs.D(), {dir.n, e.inode})
      ensures Ext4Ownership.Lost(dir.fs.D()) == old(Ext4Ownership.Lost(dir.fs.D()))
      ensures r != Done ==> dir.fs.D() == old(dir.fs.D())
    {
      hide Tiled;
      hide IsDirectory;
      hide DirBlocks;
      hide Total;
      hide Listed;
      hide Capped;
      hide NamesOk;
      hide HasName;
      hide FilesKept;
      hide dir.fs.Valid;
      hide Ext4Ownership.Lost;
      Facts();
      ListedTotal(dir.Blocks());
      var es := dir.List();
      e := Entry([], 0, 0);
      var found := Search(es, name);
      if found == |es| {
        return NoEnt, e;
      }
      var target := es[found];
      e := target;
      CappedIn(Listed(dir.Blocks()), found);
      assert e in multiset(Listed(dir.Blocks()));
      if target.kind == KIND_DIRECTORY {
        return IsDir, e;
      }
      UnlinkEntry(target);
      r := Done;
    }

    lemma Length()
      requires Valid()
      ensures |dir.fs.icache.view| == |dir.fs.icache.device|
    {
      dir.fs.SameLength();
    }

    /** write_file on an inode in use; `valid` tells whether it left a valid state. */
    method Write(n: nat, offset: nat, src: seq<byte>) returns (valid: bool)
      requires Valid() && n in dir.fs.live
      modifies dir.fs, dir.fs.a, dir.fs.a.cache, dir.fs.a.cache.slots
      modifies dir.fs.icache, dir.fs.icache.slots, dir.fs.extents
      ensures valid <==> Valid()
    {
      hide Tiled;
      hide IsDirectory;
      hide DirBlocks;
      hide NamesOk;
      hide FilesKept;
      hide dir.fs.Valid;
      hide dir.fs.Editing;
      hide dir.fs.Cached;
      hide Ext4Edits.OthersKept;
      hide Ext4Edits.Overwritten;
      hide Ext4Files.Answered;
      hide Ext4Files.StopsAtFirst;
      hide Ext4Ownership.Lost;
      hide Ext4Ownership.Pairs;
      Facts();
      ghost var d, dn := dir.fs.D(), dir.n;
      var was := dir.fs.ReadInode(n);
      var r, now, _ := dir.fs.WriteFile(n, offset, src);
      valid := r != Ext4Files.TreeExhausted || now == was;
      if valid {
        FilesKeptBy(d, dir.fs.D(), n);
        Untouched(d, dir.fs.D(), n);
        NamesKept(d, dir.fs.D(), dn, elsewhere);
      }
    }

    /** A file operation leaves the directory alone: on the directory's own inode, nothing is done. */
    lemma Untouched(d: Disk, d': Disk, n: nat)
      requires NamesOk(d, dir.n, elsewhere) && FilesKept(d, d', {n}) && d'.live == d.live
      requires n == dir.n && n < |d.inodes| && !d.inodes[n].regular ==> d'.view == d.view && d'.inodes == d.inodes
      ensures IsDirectory(d', dir.n) && DirBlocks(d', dir.n) == DirBlocks(d, dir.n)
    {
      hide Tiled;
      hide Ended;
      hide Total;
      hide Listed;
      hide Counted;
      hide Unique;
      hide Anchored;
      if n == dir.n {
        DirectoryRelinked(d, d', n);
      } else {
        hide FilesKept;
        DirectoryKept(d, d', {n}, dir.n);
      }
    }

    /** read_file on an inode in use. */
    method Read(n: nat, offset: nat, size: nat)
      requires Valid() && n in dir.fs.live
      modifies dir.fs.a.cache, dir.fs.a.cache.slots, dir.fs.icache, dir.fs.icache.slots, dir.fs.extents
      ensures Valid() && dir.fs.D() == old(dir.fs.D())
    {
      hide NamesOk;
      hide dir.fs.Valid;
      var _ := dir.fs.ReadFile(n, offset, size, true);
    }

    /** truncate on an inode in use. */
    method Resize(n: nat, size: nat)
      requires Valid() && n in dir.fs.live
      modifies dir.fs, dir.fs.a, dir.fs.a.cache, dir.fs.a.cache.slots
      modifies dir.fs.icache, dir.fs.icache.slots, dir.fs.extents
      ensures Valid()
    {
      hide Tiled;
      hide IsDirectory;
      hide DirBlocks;
      hide NamesOk;
      hide FilesKept;
      hide dir.fs.Valid;
      hide Ext4Edits.OthersKept;
      hide Ext4Files.Shortened;
      hide Ext4Ownership.Lost;
      hide Ext4Ownership.Pairs;
      Facts();
      ghost var d, dn := dir.fs.D(), dir.n;
      var isDir := dir.fs.Truncate(n, size);
      FilesKeptBy(d, dir.fs.D(), n);
      Untouched(d, dir.fs.D(), n);
      NamesKept(d, dir.fs.D(), dn, elsewhere);
    }

    method Sync()
      requires Valid()
      modifies dir.fs.a.cache, dir.fs.a.cache.slots, dir.fs.icache, dir.fs.icache.slots
      ensures Valid() && dir.fs.D() == old(dir.fs.D())
    {
      hide NamesOk;
      hide dir.fs.Valid;
      dir.fs.Sync();
    }

    method Search(es: seq<Entry>, name: Buf) returns (i: nat)
      ensures i <= |es| && (i == |es| <==> !Named(es, name)) && (i < |es| ==> es[i].name == name)
    {
      for k := 0 to |es|
        invariant forall j :: 0 <= j < k ==> es[j].name != name
      {
        if es[k].name == name {
          return k;
        }
      }
      i := |es|;
    }
  }

  lemma IsNamed(all: multiset<Entry>, e: Entry)
    requires e in all
    ensures HasName(all, e.name)
  {
  }

  lemma SoleEntry(d: Disk, n: nat, elsewhere: multiset<nat>, e: Entry, f: Entry)
    requires NamesOk(d, n, elsewhere) && e in Total(DirBlocks(d, n)) && f in Total(DirBlocks(d, n)) && e.name == f.name
    ensures e == f
  {
    hide Tiled;
    hide Total;
    hide Listed;
    hide DirBlocks;
    hide Counted;
    hide Anchored;
  }

  lemma FilesKeptSelf(d: Disk, but: set<nat>)
    requires d.geo.bsize > 0 && forall m :: m in d.live ==> m < |d.inodes|
    ensures FilesKept(d, d, but)
  {
  }

  lemma CappedIn(es: seq<Entry>, i: nat)
    requires i < |Capped(es)|
    ensures Capped(es)[i] in es
  {
  }

  /** Among unique names one is listed exactly when fewer than 256 entries stand in front of it. */
  lemma ListedIff(es: seq<Entry>, i: nat)
    requires Unique(multiset(es)) && i < |es|
    ensures Named(es, es[i].name)
    ensures Named(Capped(es), es[i].name) <==> i < 256
  {
    if i < MAX_LISTED {
      assert Capped(es)[i] == es[i];
    }
    forall j | 0 <= j < |Capped(es)| && es[j].name == es[i].name
      ensures j == i
    {
      assert es[i] in multiset(es) && es[j] in multiset(es);
      if j < i {
        Twice(es, j, i);
      } else if i < j {
        Twice(es, i, j);
      }
    }
  }

  lemma Twice(es: seq<Entry>, i: nat, j: nat)
    requires i < j < |es| && es[i] == es[j]
    ensures multiset(es)[es[i]] >= 2
  {
    assert es == es[..i] + [es[i]] + es[i + 1..j] + [es[j]] + es[j + 1..];
  }

  // Whole runs

  datatype Op =
    | Create(name: Buf, n: nat, regular: bool)
    | Unlink(name: Buf)
    | Write(n: nat, offset: nat, src: seq<byte>)
    | Read(n: nat, offset: nat, size: nat)
    | Resize(n: nat, size: nat)
    | SyncAll

  /**
   Over every run of operations on names and files the file system is valid, names are unique, every
   link count is the number of references, and an inode is in use exactly while it has one. A run
   stops early only at a write that exhausts an extent tree after adding blocks to it.
   */
  method Run(nm: Names, ops: seq<Op>) returns (k: nat)
    requires nm.Valid()
    modifies nm.dir.fs, nm.dir.fs.a, nm.dir.fs.a.cache, nm.dir.fs.a.cache.slots
    modifies nm.dir.fs.icache, nm.dir.fs.icache.slots, nm.dir.fs.extents
    ensures k <= |ops| && (k == |ops| <==> nm.Valid()) && (k < |ops| ==> ops[k].Write?)
  {
    hide *;
    k := 0;
    while k < |ops|
      invariant k <= |ops| && nm.Valid()
    {
      match ops[k] {
        case Create(name, n, regular) =>
          nm.Length();
          if n == 0 || (n !in nm.dir.fs.live && n < |nm.dir.fs.icache.device| && n < 0x1_0000_0000) {
            var _ := nm.Create(name, n, regular);
          }
        case Unlink(name) =>
          var _, _ := nm.Unlink(name);
        case Write(n, offset, src) =>
          if n in nm.dir.fs.live {
            var valid := nm.Write(n, offset, src);
            if !valid {
              return;
            }
          }
        case Read(n, offset, size) =>
          if n in nm.dir.fs.live {
            nm.Read(n, offset, size);
          }
        case Resize(n, size) =>
          if n in nm.dir.fs.live {
            nm.Resize(n, size);
          }
        case SyncAll =>
          nm.Sync();
      }
      k := k + 1;
    }
  }
}
