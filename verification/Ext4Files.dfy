/**
 Files: the inode cache with its parsed extents, and reading, writing, truncating and releasing
 files on top of the extent trees.
 */
module Ext4Files {
  import opened Ext4Layout
  import opened Ext4Cache
  import opened Ext4Allocator
  import opened Ext4Extents
  import opened Ext4Trees
  import opened Ext4Ownership
  import opened Ext4Content
  import opened Ext4Edits
  import opened Ext4Rebuild
  import opened Ext4Read
  import opened Ext4Plans

  /** The number of blocks that hold the first `size` bytes of a file. */
  function BlocksFor(size: nat, bsize: nat): nat
    requires bsize > 0
  {
    if size == 0 then 0 else (size - 1) / bsize + 1
  }

  /** `k` blocks hold `size` bytes, and no fewer do. */
  ghost predicate LeastCover(k: nat, size: nat, bsize: nat) {
    size <= k * bsize && (k > 0 ==> (k - 1) * bsize < size)
  }

  lemma FewerTimes(a: nat, b: nat, m: nat)
    requires a < b
    ensures a * m + m <= b * m
  {
    assert b * m == a * m + m + (b - a - 1) * m;
  }

  lemma BlocksForCovers(size: nat, bsize: nat)
    requires bsize > 0
    ensures LeastCover(BlocksFor(size, bsize), size, bsize)
  {
    if size > 0 {
      var q := (size - 1) / bsize;
      assert size - 1 == q * bsize + (size - 1) % bsize;
      assert (q + 1) * bsize == q * bsize + bsize;
    }
  }

  lemma BlocksForLeast(size: nat, bsize: nat, k: nat)
    requires bsize > 0
    ensures LeastCover(k, size, bsize) <==> k == BlocksFor(size, bsize)
  {
    hide BlocksFor;
    var b := BlocksFor(size, bsize);
    BlocksForCovers(size, bsize);
    if k < b {
      FewerTimes(k, b, bsize);
      OneFewer(b, bsize);
      if k < b - 1 {
        FewerTimes(k, b - 1, bsize);
      }
    } else if b < k {
      OneFewer(k, bsize);
      if b < k - 1 {
        FewerTimes(b, k - 1, bsize);
      }
    }
  }

  lemma OneFewer(k: nat, m: nat)
    requires k > 0
    ensures (k - 1) * m + m == k * m
  {
  }

  /** The i_blocks count of `blocks` blocks. */
  function Sectors(blocks: nat, bsize: nat): nat {
    blocks * (bsize / 512)
  }

  /** How many of `remaining` bytes from `pos` on lie in one block. */
  function ChunkAt(pos: nat, remaining: nat, bsize: nat): nat
    requires bsize > 0
  {
    if remaining < bsize - pos % bsize then remaining else bsize - pos % bsize
  }

  /** The block behind the last of `len` bytes from `offset` on. */
  function EndBlock(offset: nat, len: nat, bsize: nat): (end: nat)
    requires bsize > 0
    ensures offset / bsize <= end
  {
    if len == 0 then offset / bsize
    else
      LastNotBefore(offset, len, bsize);
      (offset + len - 1) / bsize + 1
  }

  lemma LastNotBefore(offset: nat, len: nat, bsize: nat)
    requires bsize > 0 && len > 0
    ensures offset / bsize <= (offset + len - 1) / bsize
  {
    var q, r := offset / bsize, (offset + len - 1) / bsize;
    assert offset == q * bsize + offset % bsize;
    assert offset + len - 1 == r * bsize + (offset + len - 1) % bsize;
    assert r < q ==> (r + 1) * bsize <= q * bsize;
  }

  /** How many of `len` bytes from `offset` on lie in front of block `l`. */
  function BytesBefore(offset: nat, len: nat, bsize: nat, l: nat): nat {
    if l * bsize <= offset then 0 else if l * bsize >= offset + len then len else l * bsize - offset
  }

  /** One chunk reaches to the end of its block or to the end of the bytes. */
  lemma NextChunk(offset: nat, len: nat, bsize: nat, w: nat, l: nat)
    requires bsize > 0 && w < len && (offset + w) / bsize == l
    ensures var w' := w + ChunkAt(offset + w, len - w, bsize);
            && w < w' <= len && w' == BytesBefore(offset, len, bsize, l + 1)
            && (w' < len ==> (offset + w') / bsize == l + 1) && (w' == len ==> EndBlock(offset, len, bsize) == l + 1)
  {
    var pos := offset + w;
    var w' := w + ChunkAt(pos, len - w, bsize);
    assert pos == l * bsize + pos % bsize;
    assert (l + 1) * bsize == l * bsize + bsize;
    if w' < len {
      DivModUnique(offset + w', bsize, l + 1, 0);
    } else {
      DivModUnique(offset + len - 1, bsize, l, offset + len - 1 - l * bsize);
    }
  }

  lemma NotPastEnd(offset: nat, len: nat, bsize: nat, w: nat, l: nat)
    requires bsize > 0 && w <= len && (w < len ==> (offset + w) / bsize == l)
    ensures w < len ==> l < EndBlock(offset, len, bsize)
  {
    if w < len {
      LastNotBefore(offset + w, len - w, bsize);
    }
  }

  lemma FirstChunk(offset: nat, len: nat, bsize: nat)
    requires bsize > 0
    ensures BytesBefore(offset, len, bsize, offset / bsize) == 0
    ensures len == 0 ==> EndBlock(offset, len, bsize) == offset / bsize
  {
    assert offset == (offset / bsize) * bsize + offset % bsize;
  }

  /** How write_file ends: all bytes, some bytes, or an error. */
  datatype WriteResult = Full | Short(count: nat) | NoSpc | TreeExhausted | IsDir

  ghost predicate Fresh(view: seq<Block>, t: Tree, ms: seq<Extent>) {
    ms == Decode(Entries(Load(view, t)))
  }

  /**
   Cached inodes are live and their parsed extents are up to date. When inode n is being changed to
   ino, its slot is excused as long as it holds something else.
   */
  ghost predicate SlotsFresh(
    view: seq<Block>, slots: seq<Slot<Inode>>, ext: seq<seq<Extent>>, live: set<nat>, editing: Option<(nat, Inode)>)
  {
    && |slots| == |ext|
    && forall i :: 0 <= i < |slots| && slots[i].valid ==>
         && slots[i].key in live
         && (|| (editing.Some? && slots[i].key == editing.value.0 && slots[i].data != editing.value.1)
             || Fresh(view, slots[i].data.tree, ext[i]))
  }

  /** The blocks of an inode only become more, and they do when the inode changes. */
  ghost predicate Gained(mine: set<nat>, ino: Inode, mine': set<nat>, ino': Inode) {
    mine <= mine' && (mine' == mine ==> ino' == ino)
  }

  /** What taking blocks for inode `n` depends on. */
  ghost function PlanOf(d: Disk, n: nat): Plan
    requires n < |d.inodes|
  {
    Plan(d.alloc, Load(d.view, d.inodes[n].tree))
  }

  ghost predicate AllZero(data: seq<byte>) {
    forall k :: 0 <= k < |data| ==> data[k] == 0
  }

  /** The block of the byte at `pos` is the one that the plan foretells. */
  ghost predicate OneBlock(geo: Geometry, pl: Plan, pos: nat, near: nat, st: Status, pl': Plan, p: nat) {
    && geo.bsize > 0 && geo.groups > 0 && geo.perGroup > 0
    && Attempt(st, pl', p) == Ensuring(geo, pl, pos / geo.bsize, near)
  }

  /** From byte `w` of `len` on one chunk is done, or none. */
  ghost predicate OneChunk(bsize: nat, offset: nat, len: nat, w: nat, st: Status, w': nat) {
    bsize > 0 && w <= len && w' == w + if st == Taken then ChunkAt(offset + w, len - w, bsize) else 0
  }

  /** How a write of `len` bytes at `offset` fares, from the allocated blocks and the tree before it. */
  ghost function Fate(geo: Geometry, pl: Plan, offset: nat, len: nat): Course
    requires geo.bsize > 0 && geo.groups > 0 && geo.perGroup > 0
  {
    Ends(geo, pl, offset / geo.bsize, EndBlock(offset, len, geo.bsize), 0)
  }

  /** The write of `len` bytes at `offset` has ended as foretold, with `w` bytes written. */
  ghost predicate Foretold(geo: Geometry, pl: Plan, offset: nat, len: nat, st: Status, pl': Plan, w: nat) {
    && geo.bsize > 0 && geo.groups > 0 && geo.perGroup > 0
    && var c := Fate(geo, pl, offset, len);
       st == c.status && pl' == c.plan && w == BytesBefore(offset, len, geo.bsize, c.reached)
  }

  function Answer(st: Status, w: nat): WriteResult {
    match st
    case Taken => Full
    case TreeFull => TreeExhausted
    case NoSpace => if w == 0 then NoSpc else Short(w)
  }

  /** The write has answered as foretold. */
  ghost predicate Answered(geo: Geometry, pl: Plan, offset: nat, len: nat, r: WriteResult, pl': Plan, w: nat) {
    && geo.bsize > 0 && geo.groups > 0 && geo.perGroup > 0
    && var st := Fate(geo, pl, offset, len).status;
       r == Answer(st, w) && Foretold(geo, pl, offset, len, st, pl', w)
  }

  /** The first position of the range without a block is the one at which the write stops. */
  ghost predicate StopsAtFirst(geo: Geometry, pl: Plan, offset: nat, len: nat) {
    && geo.bsize > 0 && geo.groups > 0 && geo.perGroup > 0
    && NoGap(pl.tree, offset / geo.bsize, Fate(geo, pl, offset, len).reached)
  }

  lemma StopsAtFirstIff(geo: Geometry, pl: Plan, offset: nat, len: nat, st: Status, pl': Plan, w: nat)
    requires Foretold(geo, pl, offset, len, st, pl', w)
    ensures StopsAtFirst(geo, pl, offset, len) <==> pl'.alloc == pl.alloc
  {
    hide Ends;
    hide EndBlock;
    hide NoGap;
    UntakenExactly(geo, pl, offset / geo.bsize, EndBlock(offset, len, geo.bsize), 0);
  }

  /** The write has come to block `l` and byte `w`, and what is still to come is as foretold. */
  ghost predicate OnCourse(
    geo: Geometry, pl0: Plan, offset: nat, len: nat, l: nat, near: nat, pl: Plan, w: nat)
  {
    && geo.bsize > 0 && geo.groups > 0 && geo.perGroup > 0
    && var end := EndBlock(offset, len, geo.bsize);
       && w <= len && l <= end && w == BytesBefore(offset, len, geo.bsize, l)
       && (if w < len then l == (offset + w) / geo.bsize < end else l == end)
       && Ends(geo, pl, l, end, near) == Fate(geo, pl0, offset, len)
  }

  lemma CourseStart(geo: Geometry, pl: Plan, offset: nat, len: nat)
    requires geo.bsize > 0 && geo.groups > 0 && geo.perGroup > 0
    ensures OnCourse(geo, pl, offset, len, offset / geo.bsize, 0, pl, 0)
  {
    hide Ends;
    FirstChunk(offset, len, geo.bsize);
    NotPastEnd(offset, len, geo.bsize, 0, offset / geo.bsize);
  }

  lemma CourseStep(
    geo: Geometry, pl0: Plan, offset: nat, len: nat, l: nat, near: nat, pl: Plan, w: nat,
    st: Status, pl': Plan, p: nat, w': nat)
    requires OnCourse(geo, pl0, offset, len, l, near, pl, w) && w < len
    requires OneBlock(geo, pl, offset + w, near, st, pl', p) && OneChunk(geo.bsize, offset, len, w, st, w')
    requires st != Taken ==> pl' == pl
    ensures if st == Taken then OnCourse(geo, pl0, offset, len, l + 1, p, pl', w')
            else Foretold(geo, pl0, offset, len, st, pl', w')
  {
    hide Ensuring;
    hide Ends;
    hide EndBlock;
    hide BytesBefore;
    hide ChunkAt;
    EndsStep(geo, pl, l, EndBlock(offset, len, geo.bsize), near);
    NextChunk(offset, len, geo.bsize, w, l);
    if st == Taken {
      NotPastEnd(offset, len, geo.bsize, w', l + 1);
    }
  }

  lemma CourseEnd(geo: Geometry, pl0: Plan, offset: nat, len: nat, l: nat, near: nat, pl: Plan)
    requires OnCourse(geo, pl0, offset, len, l, near, pl, len)
    ensures Foretold(geo, pl0, offset, len, Taken, pl, len)
  {
    hide EndBlock;
    EndsHere(geo, pl, l, near);
  }

  /** The sectors an inode counts beyond those of its mapped blocks. */
  ghost function Unbilled(ino: Inode, ps: seq<Pair>, bsize: nat): int {
    ino.blocks512 - |ps| * (bsize / 512)
  }

  lemma BilledOne(ino: Inode, ps: seq<Pair>, q: Pair, bsize: nat, ino': Inode)
    requires ino'.blocks512 == ino.blocks512 + bsize / 512
    ensures Unbilled(ino', ps + [q], bsize) == Unbilled(ino, ps, bsize)
  {
    assert (|ps| + 1) * (bsize / 512) == |ps| * (bsize / 512) + bsize / 512;
  }

  /** A block with `data` for position `l`, where inode `n` has none. */
  method TakeBlock(a: Allocator, ghost d: Disk, ghost n: nat, ino: Inode, l: nat, near: nat, data: seq<byte>)
    returns (st: Status, ino': Inode, p: nat, ghost d': Disk)
    requires a.Valid() && d.geo == a.geo && d.view == a.cache.view && d.alloc == a.alloc
    requires Consistent(d) && n in d.live && d.inodes[n] == ino && |data| == a.geo.bsize
    requires Lookup(d.File(n), l).None? && (near > 0 ==> near >= a.geo.firstData)
    modifies a, a.cache, a.cache.slots
    ensures a.Valid() && Consistent(d')
    ensures d' == d.(view := a.cache.view, alloc := a.alloc, inodes := d.inodes[n := ino'], owner := d'.owner)
    ensures d'.alloc - d'.Mine(n) == d.alloc - d.Mine(n)
    ensures Unchanged(d.view, d'.view, d.alloc - d.geo.fixed - d.Mine(n))
    ensures d.geo.bsize > 0
    ensures st != Taken || AllZero(data) ==> SameBytes(d.view, d.File(n), d'.view, d'.File(n), d.geo.bsize)
    ensures st == Taken ==> ino' == ino.(blocks512 := ino.blocks512 + a.geo.bsize / 512, tree := ino'.tree)
    ensures st == Taken ==> d'.File(n) == d.File(n) + [(l, p)] && d.Mine(n) < d'.Mine(n)
    ensures st == Taken ==> p < |d'.view| && d'.view[p] == Bytes(data) && Unchanged(d.view, d'.view, Phys(d.File(n)))
    ensures st != Taken ==> d'.Mine(n) == d.Mine(n)
    ensures Lost(d') == Lost(d)
    ensures st != Taken ==> d' == d.(view := a.cache.view) && Unchanged(d.view, d'.view, d.alloc - d.geo.fixed)
    ensures d.geo.groups > 0 && d.geo.perGroup > 0
    ensures Attempt(st, PlanOf(d', n), p) == Taking(d.geo, PlanOf(d, n), l, near)
    ensures Unbilled(ino', d'.File(n), d.geo.bsize) == Unbilled(ino, d.File(n), d.geo.bsize)
  {
    hide a.Valid;
    hide d.geo.Ok;
    hide Consistent;
    hide FileOk;
    hide Pairs;
    hide Appended;
    hide BlocksOf;
    hide Reassign;
    hide Residual;
    hide Exhausted;
    hide Pick;
    hide LeafFor;
    hide Takes;
    hide AppendTree;
    hide SameBytes;
    hide Lookup;
    hide Load;
    hide Unbilled;
    a.Facts();
    LiveFile(d, n);
    p := a.AllocBlock(near);
    if p == 0 {
      Untouched(d, n, a.cache.view);
      return NoSpace, ino, 0, d.(view := a.cache.view);
    }
    ghost var view1 := a.cache.view;
    BeforeAppend(d, n, p, view1, data);
    a.Write(p, Bytes(data));
    var ok, t' := ExtentTreeAppend(a, ino.tree, l, p);
    if !ok {
      a.FreeBlock(p);
      assert a.alloc == d.alloc;
      Untouched(d, n, a.cache.view);
      return TreeFull, ino, 0, d.(view := a.cache.view);
    }
    ino' := ino.(tree := t', blocks512 := ino.blocks512 + a.geo.bsize / 512);
    BilledOne(ino, d.File(n), (l, p), a.geo.bsize, ino');
    AppendedLoad(d.geo, view1[p := Bytes(data)], d.alloc + {p}, ino.tree, l, p, a.cache.view, a.alloc, t');
    AppendConsistent(d, n, l, p, view1[p := Bytes(data)], a.cache.view, a.alloc, ino');
    if AllZero(data) {
      SameBytesAppend(d.view, d.File(n), a.cache.view, l, p, a.geo.bsize);
    }
    d' := d.(view := a.cache.view, alloc := a.alloc, inodes := d.inodes[n := ino'],
             owner := Reassign(d.owner, n, Owned(a.cache.view, t')));
    st := Taken;
  }

  lemma AppendedLoad(
    geo: Geometry, view: seq<Block>, alloc: set<nat>, t: Tree, l: nat, p: nat,
    view': seq<Block>, alloc': set<nat>, t': Tree)
    requires Appended(geo, view, alloc, t, l, p, view', alloc', t')
    ensures AppendTree(Load(view, t), l, p, geo.LeafMax()) == Some(Load(view', t'))
  {
  }

  /**
   The shrink of inode `n` to `keep` blocks, from `d` to `d'`. Every block below the cut stays exactly
   when the leaves of the new tree can be found beforehand; what does not stay is lost.
   */
  ghost predicate Shortened(d: Disk, d': Disk, n: nat, keep: nat)
    requires d.geo.bsize > 0 && d.geo.LeafMax() > 0 && n < |d.inodes| == |d'.inodes|
  {
    && d'.File(n) == Survivors(d, n, keep)
    && Trimmed(d.view, d.File(n), d'.view, d'.File(n), d.geo.bsize)
    && Lost(d') == Lost(d) + (Phys(Below(d.File(n), keep)) - Phys(d'.File(n)))
    && (d'.File(n) == Below(d.File(n), keep) <==> Rebuildable(d, n, keep))
    && (Rebuildable(d, n, keep) ==> Lost(d') == Lost(d))
    && (Rebuildable(d, n, keep) ==> CutAt(d.view, d.File(n), d'.view, d'.File(n), d.geo.bsize, keep))
  }

  lemma ShortenedIs(d: Disk, d': Disk, n: nat, keep: nat)
    requires Consistent(d) && n in d.live && d.geo.bsize > 0 && d.geo.LeafMax() > MAX_INLINE
    requires n < |d.inodes| == |d'.inodes| && d'.geo == d.geo && d'.File(n) == Survivors(d, n, keep)
    requires Trimmed(d.view, d.File(n), d'.view, d'.File(n), d.geo.bsize)
    requires BlocksOf(d'.owner, 0) == BlocksOf(d.owner, 0) + Dropped(d, n, keep)
    ensures Shortened(d, d', n, keep)
  {
    hide Consistent;
    hide Survivors;
    hide Rebuildable;
    hide Trimmed;
    hide CutAt;
    hide Below;
    hide Pairs;
    hide BlocksOf;
    SurvivorsSub(d, n, keep);
    OwnedAlloc(d, n);
    KeepsAll(d, n, keep);
    if Rebuildable(d, n, keep) {
      TrimmedCut(d.view, d.File(n), d'.view, d.geo.bsize, keep);
    }
  }

  /**
   The cut of inode `n` to `newSize` bytes, from `d` to `d'`. No block behind the new end is mapped, the
   sectors are those of as few blocks as hold the bytes, and if the leaves of the new tree can be found
   every block and every byte in front of the new end is as it was.
   */
  ghost predicate CutTo(d: Disk, d': Disk, n: nat, newSize: nat) {
    && d.geo.bsize > 0 && d.geo.LeafMax() > 0 && n < |d.inodes| == |d'.inodes|
    && (forall l: nat :: Lookup(d'.File(n), l).Some? ==> l * d.geo.bsize < newSize)
    && (forall keep: nat :: LeastCover(keep, newSize, d.geo.bsize) ==>
          && d'.inodes[n].blocks512 * 512 == keep * d.geo.bsize
          && (Rebuildable(d, n, keep) ==> KeptTo(d, d', n, newSize)))
  }

  ghost predicate KeptTo(d: Disk, d': Disk, n: nat, newSize: nat)
    requires d.geo.bsize > 0 && n < |d.inodes| == |d'.inodes|
  {
    && (forall l: nat :: l * d.geo.bsize < newSize ==> Lookup(d'.File(n), l) == Lookup(d.File(n), l))
    && (forall off: nat :: off < newSize ==>
          Content(d'.view, d'.File(n), d.geo.bsize, off) == Content(d.view, d.File(n), d.geo.bsize, off))
  }

  lemma InFront(l: nat, size: nat, bsize: nat)
    requires bsize > 0
    ensures l < BlocksFor(size, bsize) <==> l * bsize < size
  {
    hide BlocksFor;
    var b := BlocksFor(size, bsize);
    BlocksForCovers(size, bsize);
    if l < b {
      OneFewer(b, bsize);
      FewerTimes(l, b, bsize);
    } else if b < l {
      FewerTimes(b, l, bsize);
    }
  }

  lemma ShortenedCut(d: Disk, d': Disk, n: nat, newSize: nat)
    requires Consistent(d) && n in d.live && d.geo.Ok() && d.geo.LeafMax() > 0 && n < |d.inodes| == |d'.inodes|
    requires Shortened(d, d', n, BlocksFor(newSize, d.geo.bsize))
    requires d'.inodes[n].blocks512 == Sectors(BlocksFor(newSize, d.geo.bsize), d.geo.bsize)
    ensures CutTo(d, d', n, newSize)
  {
    hide Consistent;
    hide Survivors;
    hide Rebuildable;
    hide Trimmed;
    hide Content;
    hide Lookup;
    hide Pairs;
    hide BlocksFor;
    hide KeptTo;
    var bsize, keep := d.geo.bsize, BlocksFor(newSize, d.geo.bsize);
    SurvivorsSub(d, n, keep);
    forall l: nat | Lookup(d'.File(n), l).Some?
      ensures l * bsize < newSize
    {
      LookupSound(d'.File(n), l);
      InFront(l, newSize, bsize);
    }
    forall k: nat
      ensures LeastCover(k, newSize, bsize) <==> k == keep
    {
      BlocksForLeast(newSize, bsize, k);
    }
    WholeSectors(keep, bsize);
    if Rebuildable(d, n, keep) {
      CutKeeps(d, d', n, newSize);
    }
  }

  lemma WholeSectors(blocks: nat, bsize: nat)
    requires bsize % 512 == 0
    ensures Sectors(blocks, bsize) * 512 == blocks * bsize
  {
    var q := bsize / 512;
    assert bsize == 512 * q;
    assert blocks * (512 * q) == blocks * q * 512;
  }

  lemma CutKeeps(d: Disk, d': Disk, n: nat, newSize: nat)
    requires d.geo.bsize > 0 && n < |d.inodes| == |d'.inodes|
    requires d'.File(n) == Below(d.File(n), BlocksFor(newSize, d.geo.bsize))
    requires CutAt(d.view, d.File(n), d'.view, d'.File(n), d.geo.bsize, BlocksFor(newSize, d.geo.bsize))
    ensures KeptTo(d, d', n, newSize)
  {
    hide Content;
    hide Lookup;
    hide Pairs;
    hide BlocksFor;
    hide Below;
    var bsize, keep := d.geo.bsize, BlocksFor(newSize, d.geo.bsize);
    forall l: nat | l * bsize < newSize
      ensures Lookup(d'.File(n), l) == Lookup(d.File(n), l)
    {
      InFront(l, newSize, bsize);
      LookupBelow(d.File(n), keep, l);
    }
    forall off: nat | off < newSize
      ensures Content(d'.view, d'.File(n), bsize, off) == Content(d.view, d.File(n), bsize, off)
    {
      BlockArith(off, bsize, off / bsize);
      InFront(off / bsize, newSize, bsize);
    }
  }

  class FileSystem {
    const a: Allocator
    const icache: WriteBackCache<Inode>
    /** The parsed extents beside each inode cache slot. */
    const extents: array<seq<Extent>>
    /** The inodes in use: those whose bit is set in the inode bitmaps. */
    var live: set<nat>
    /** The inode each allocated block belongs to, 0 for fixed metadata. */
    ghost var owner: map<nat, nat>

    ghost predicate Apart() {
      && a.cache as object != icache
      && a.cache.slots as object != icache.slots
      && extents as object != a.cache.slots
      && extents as object != icache.slots
      && extents.Length == icache.slots.Length
    }

    /** The abstract state. */
    ghost function D(): Disk
      reads this, a, a.cache, icache
    {
      Disk(a.geo, a.cache.view, a.alloc, icache.view, live, owner)
    }

    /**
     Inode `n` is being changed and is now `ino`, which may not be in the cache yet. The extents
     cached for `n` may be out of date once `ino` differs from the cached inode.
     */
    ghost predicate Editing(n: nat, ino: Inode)
      reads this, a, a.cache, a.cache.slots, icache, icache.slots, extents
    {
      && Apart() && a.Valid() && icache.Valid()
      && n in live && n < |icache.view|
      && Consistent(D().(inodes := icache.view[n := ino]))
      && SlotsFresh(a.cache.view, icache.slots[..], extents[..], live, Some((n, ino)))
    }

    ghost predicate Valid()
      reads this, a, a.cache, a.cache.slots, icache, icache.slots, extents
    {
      && Apart() && a.Valid() && icache.Valid()
      && Consistent(D())
      && SlotsFresh(a.cache.view, icache.slots[..], extents[..], live, None)
    }

    /** Inode `n` is in the cache, beside the extents its tree has in `view`. */
    ghost predicate Cached(view: seq<Block>, n: nat)
      reads icache, icache.slots, extents
    {
      && n in icache.home && icache.home[n] < icache.slots.Length == extents.Length && n < |icache.view|
      && icache.slots[icache.home[n]].valid && icache.slots[icache.home[n]].key == n
      && Fresh(view, icache.view[n].tree, extents[icache.home[n]])
    }

    constructor (a: Allocator, n: nat, table: seq<Inode>, live: set<nat>, ghost owner: map<nat, nat>)
      requires a.Valid() && n >= 1
      requires Consistent(Disk(a.geo, a.cache.view, a.alloc, table, live, owner))
      ensures Valid() && this.a == a && fresh(icache) && fresh(icache.slots) && fresh(extents)
      ensures icache.view == table && this.live == live && this.owner == owner
    {
      this.a := a;
      icache := new WriteBackCache<Inode>(n, table, Inode(false, 0, 0, 0, Inline([])));
      extents := new seq<Extent>[n](_ => []);
      this.live, this.owner := live, owner;
    }

    method ReadInode(n: nat) returns (ino: Inode)
      requires Valid() && n in live
      modifies a.cache, a.cache.slots, icache, icache.slots, extents
      ensures Valid() && a.cache.view == old(a.cache.view) && icache.view == old(icache.view)
      ensures D() == old(D())
      ensures ino == icache.view[n] && Editing(n, ino) && Cached(a.cache.view, n)
    {
      hide a.Valid;
      hide icache.Valid;
      hide Consistent;
      hide SlotsFresh;
      hide FileOk;
      hide TreeOk;
      LiveFile(D(), n);
      FileTreeOk(a.geo, a.cache.view, a.alloc, icache.view[n].tree);
      ghost var slots, ext := icache.slots[..], extents[..];
      var hit, i := icache.Fetch(n);
      ino := icache.slots[i].data;
      assert icache.slots[..] == slots[i := icache.slots[i]];
      if !hit {
        var ms := ParseExtents(a, ino.tree);
        assert icache.slots[..] == slots[i := icache.slots[i]];
        extents[i] := ms;
        assert extents[..] == ext[i := ms];
      } else {
        assert extents[..] == ext[i := ext[i]];
      }
      SlotsFreshSet(a.cache.view, slots, ext, live, i, icache.slots[i], extents[i]);
      SlotFresh(a.cache.view, icache.slots[..], extents[..], live, i);
      assert icache.view[n := ino] == icache.view;
    }

    method WriteInode(n: nat, ino: Inode)
      requires Editing(n, ino)
      modifies a.cache, a.cache.slots, icache, icache.slots, extents
      ensures Valid() && a.cache.view == old(a.cache.view) && icache.view == old(icache.view)[n := ino]
    {
      hide a.Valid;
      hide icache.Valid;
      hide Consistent;
      hide SlotsFresh;
      hide FileOk;
      hide TreeOk;
      LiveFile(D().(inodes := icache.view[n := ino]), n);
      FileTreeOk(a.geo, a.cache.view, a.alloc, ino.tree);
      ghost var slots, ext := icache.slots[..], extents[..];
      var i := icache.Put(n, ino);
      ghost var slots' := icache.slots[..];
      assert slots' == slots[i := icache.slots[i]];
      var ms := ParseExtents(a, ino.tree);
      assert icache.slots[..] == slots';
      extents[i] := ms;
      assert extents[..] == ext[i := ms];
      SlotsFreshPut(a.cache.view, slots, ext, live, i, slots'[i], ms, ino);
    }

    /** What the file operations on inode `n` leave alone: the blocks of everyone else. */
    ghost function Others(ino: Inode): set<nat>
      reads a, a.cache
    {
      a.alloc - Owned(a.cache.view, ino.tree)
    }

    /** The byte at `off` of the file of an inode. */
    ghost function ByteAt(ino: Inode, off: nat): byte
      requires a.geo.bsize > 0
      reads a.cache
    {
      Content(a.cache.view, Pairs(a.cache.view, ino.tree), a.geo.bsize, off)
    }

    /** The sectors an inode counts beyond those of its mapped blocks. */
    ghost function Extra(ino: Inode): int
      reads a, a.cache
    {
      Unbilled(ino, Pairs(a.cache.view, ino.tree), a.geo.bsize)
    }

    /** What taking blocks for an inode depends on. */
    ghost function Now(ino: Inode): Plan
      reads a, a.cache
    {
      Plan(a.alloc, Load(a.cache.view, ino.tree))
    }

    /** A block with `data` for position `l`, where inode `n` has none. */
    method AddBlock(n: nat, ino: Inode, l: nat, near: nat, data: seq<byte>)
      returns (st: Status, ino': Inode, p: nat)
      requires Editing(n, ino) && icache.view[n].blocks512 <= ino.blocks512 && |data| == a.geo.bsize
      requires Lookup(Pairs(a.cache.view, ino.tree), l).None? && (near > 0 ==> near >= a.geo.firstData)
      modifies a, a.cache, a.cache.slots, `owner
      ensures Editing(n, ino') && icache.view[n].blocks512 <= ino'.blocks512
      ensures ino' == ino.(blocks512 := ino'.blocks512, tree := ino'.tree)
      ensures Others(ino') == old(Others(ino)) && Lost(D()) == old(Lost(D())) && Extra(ino') == old(Extra(ino))
      ensures Unchanged(old(a.cache.view), a.cache.view, old(Others(ino)) - a.geo.fixed)
      ensures Gained(old(Owned(a.cache.view, ino.tree)), ino, Owned(a.cache.view, ino'.tree), ino')
      ensures st == Taken ==>
                && Pairs(a.cache.view, ino'.tree) == old(Pairs(a.cache.view, ino.tree)) + [(l, p)]
                && p < |a.cache.view| && a.cache.view[p] == Bytes(data)
                && Unchanged(old(a.cache.view), a.cache.view, Phys(old(Pairs(a.cache.view, ino.tree))))
      ensures st != Taken ==> ino' == ino
      ensures a.geo.bsize > 0
      ensures st != Taken || AllZero(data) ==>
                SameBytes(old(a.cache.view), old(Pairs(a.cache.view, ino.tree)),
                          a.cache.view, Pairs(a.cache.view, ino'.tree), a.geo.bsize)
      ensures a.geo.groups > 0 && a.geo.perGroup > 0
      ensures Attempt(st, Now(ino'), p) == Taking(a.geo, old(Now(ino)), l, near)
    {
      hide a.Valid;
      hide a.geo.Ok;
      hide icache.Valid;
      hide Consistent;
      hide FileOk;
      hide Pairs;
      hide SlotsFresh;
      hide BlocksOf;
      hide Lookup;
      hide Load;
      hide Leaves;
      hide Taking;
      hide SameBytes;
      ghost var d := D().(inodes := icache.view[n := ino]);
      ghost var slots, ext := icache.slots[..], extents[..];
      icache.Agrees();
      a.Facts();
      LiveFile(d, n);
      ghost var d';
      st, ino', p, d' := TakeBlock(a, d, n, ino, l, near, data);
      if st != Taken {
        SlotsFreshFrame(d, n, slots, ext, icache.view, a.cache.view);
      } else {
        owner := d'.owner;
        SlotsFreshEdit(d, n, slots, ext, icache.view, ino', a.cache.view);
      }
      assert d'.inodes == icache.view[n := ino'];
    }

    /** The block of position `l`: the one mapped there, or a new zero-filled one. */
    method EnsureBlock(n: nat, ino: Inode, l: nat, near: nat) returns (st: Status, ino': Inode, p: nat)
      requires Editing(n, ino) && icache.view[n].blocks512 <= ino.blocks512
      requires near > 0 ==> near >= a.geo.firstData
      modifies a, a.cache, a.cache.slots, `owner
      ensures Editing(n, ino') && icache.view[n].blocks512 <= ino'.blocks512
      ensures ino' == ino.(blocks512 := ino'.blocks512, tree := ino'.tree)
      ensures Others(ino') == old(Others(ino)) && Lost(D()) == old(Lost(D())) && Extra(ino') == old(Extra(ino))
      ensures Unchanged(old(a.cache.view), a.cache.view, old(Others(ino)) - a.geo.fixed)
      ensures Gained(old(Owned(a.cache.view, ino.tree)), ino, Owned(a.cache.view, ino'.tree), ino')
      ensures st == Taken ==> Lookup(Pairs(a.cache.view, ino'.tree), l) == Some(p)
      ensures st != Taken ==> ino' == ino
      ensures a.geo.bsize > 0
      ensures SameBytes(old(a.cache.view), old(Pairs(a.cache.view, ino.tree)),
                        a.cache.view, Pairs(a.cache.view, ino'.tree), a.geo.bsize)
      ensures a.geo.groups > 0 && a.geo.perGroup > 0
      ensures Attempt(st, Now(ino'), p) == Ensuring(a.geo, old(Now(ino)), l, near)
      ensures st != Taken ==> Now(ino') == old(Now(ino))
    {
      hide Editing;
      hide Owned;
      hide Lookup;
      hide Load;
      hide Taking;
      hide Lost;
      EditingFacts(n, ino);
      var r := MapLogicalToPhysical(n, ino, l);
      if r.Some? {
        return Taken, ino, r.value;
      }
      ghost var ps := Pairs(a.cache.view, ino.tree);
      st, ino', p := AddBlock(n, ino, l, near, seq(a.geo.bsize, _ => 0));
      LookupAppend(ps, l, p, l);
      NotTaken(a.geo, old(Now(ino)), l, near);
    }

    lemma EditingFacts(n: nat, ino: Inode)
      requires Editing(n, ino)
      ensures a.geo.bsize > 0 && a.geo.groups > 0 && a.geo.perGroup > 0 && n < |icache.view|
    {
      a.Facts();
    }

    /** One chunk of write_file: find or take the block, read it unless it is replaced whole, patch it. */
    method WriteChunk(n: nat, ino: Inode, pos: nat, chunk: seq<byte>, near: nat)
      returns (st: Status, ino': Inode, p: nat)
      requires Editing(n, ino) && icache.view[n].blocks512 <= ino.blocks512
      requires a.geo.bsize > 0 && pos % a.geo.bsize + |chunk| <= a.geo.bsize
      requires near > 0 ==> near >= a.geo.firstData
      modifies a, a.cache, a.cache.slots, `owner
      ensures Editing(n, ino') && icache.view[n].blocks512 <= ino'.blocks512
      ensures ino' == ino.(blocks512 := ino'.blocks512, tree := ino'.tree)
      ensures Others(ino') == old(Others(ino)) && Lost(D()) == old(Lost(D())) && Extra(ino') == old(Extra(ino))
      ensures Unchanged(old(a.cache.view), a.cache.view, old(Others(ino)) - a.geo.fixed)
      ensures Gained(old(Owned(a.cache.view, ino.tree)), ino, Owned(a.cache.view, ino'.tree), ino')
      ensures a.geo.bsize > 0 && (st == Taken ==> p >= a.geo.firstData) && (st != Taken ==> ino' == ino)
      ensures Overwritten(old(a.cache.view), old(Pairs(a.cache.view, ino.tree)),
                          a.cache.view, Pairs(a.cache.view, ino'.tree), a.geo.bsize,
                          pos, if st == Taken then chunk else [])
      ensures OneBlock(a.geo, old(Now(ino)), pos, near, st, Now(ino'), p)
      ensures st != Taken ==> Now(ino') == old(Now(ino))
    {
      hide a.Valid;
      hide a.geo.Ok;
      hide icache.Valid;
      hide Consistent;
      hide FileOk;
      hide Pairs;
      hide SlotsFresh;
      hide BlocksOf;
      hide Owned;
      hide Load;
      hide Ensuring;
      var l, at := pos / a.geo.bsize, pos % a.geo.bsize;
      BlockArith(pos, a.geo.bsize, l);
      ghost var view0, ps0 := a.cache.view, Pairs(a.cache.view, ino.tree);
      st, ino', p := EnsureBlock(n, ino, l, near);
      if st != Taken {
        return;
      }
      ghost var view1, ps1 := a.cache.view, Pairs(a.cache.view, ino'.tree);
      PatchBlock(n, ino', l, at, p, chunk);
      OverwrittenPatch(view0, ps0, view1, ps1, l, p, at, chunk, a.geo.bsize);
    }

    /** Writes `chunk` into the block mapped at `l`; the block is read first unless it is replaced whole. */
    method PatchBlock(n: nat, ino: Inode, l: nat, at: nat, p: nat, chunk: seq<byte>)
      requires Editing(n, ino) && at + |chunk| <= a.geo.bsize
      requires Lookup(Pairs(a.cache.view, ino.tree), l) == Some(p)
      modifies a.cache, a.cache.slots
      ensures Editing(n, ino) && Others(ino) == old(Others(ino)) && p >= a.geo.firstData && Now(ino) == old(Now(ino))
      ensures Pairs(a.cache.view, ino.tree) == old(Pairs(a.cache.view, ino.tree))
      ensures Owned(a.cache.view, ino.tree) == old(Owned(a.cache.view, ino.tree))
      ensures Distinct(Pairs(a.cache.view, ino.tree)) && (l, p) in Pairs(a.cache.view, ino.tree)
      ensures p < |old(a.cache.view)| && old(a.cache.view)[p].Bytes? && |old(a.cache.view)[p].data| == a.geo.bsize
      ensures a.cache.view == old(a.cache.view)[p := Bytes(Patch(old(a.cache.view)[p].data, at, chunk))]
      ensures Unchanged(old(a.cache.view), a.cache.view, old(Others(ino)) - a.geo.fixed)
    {
      hide a.Valid;
      hide a.geo.Ok;
      hide icache.Valid;
      hide Consistent;
      hide FileOk;
      hide Pairs;
      hide SlotsFresh;
      hide Lookup;
      hide Load;
      ghost var d := D().(inodes := icache.view[n := ino]);
      ghost var slots, ext := icache.slots[..], extents[..];
      icache.Agrees();
      var buf := seq(a.geo.bsize, _ => 0);
      RewriteBlock(d, n, l, p, buf);
      if at != 0 || |chunk| != a.geo.bsize {
        var blk := a.Read(p);
        buf := blk.data;
      }
      var data := Patch(buf, at, chunk);
      assert data == Patch(d.view[p].data, at, chunk);
      RewriteBlock(d, n, l, p, data);
      a.Write(p, Bytes(data));
      LoadFrame(d.view, a.cache.view, ino.tree);
      SlotsFreshData(d, n, slots, ext, icache.view, a.cache.view);
    }

    /** A change that was abandoned before it touched the inode. */
    lemma EditingValid(n: nat)
      requires n < |icache.view| && Editing(n, icache.view[n])
      ensures Valid()
    {
      hide a.Valid;
      hide Consistent;
      hide Fresh;
      assert icache.view[n := icache.view[n]] == icache.view;
      assert forall i :: 0 <= i < icache.slots.Length ==> icache.slots[..][i] == icache.slots[i];
    }

    /** In a valid state whose cached extents of inode `n` are those of `d`, the inode owns what it owned in `d`. */
    lemma CachedMine(d: Disk, n: nat)
      requires Valid() && n in live && Consistent(d) && n in d.live && d.inodes == icache.view && Cached(d.view, n)
      ensures n < |icache.view| && BlocksOf(owner, n) == d.Mine(n)
    {
      hide a.Valid;
      hide icache.Valid;
      hide SlotsFresh;
      hide Load;
      hide Flat;
      hide Decode;
      hide FileOk;
      hide BlocksOf;
      icache.Agrees();
      LiveFile(D(), n);
      LiveFile(d, n);
      var i, t := icache.home[n], icache.view[n].tree;
      assert icache.slots[..][i] == icache.slots[i] && extents[..][i] == extents[i];
      SlotFresh(a.cache.view, icache.slots[..], extents[..], live, i);
      ParsedPairs(a.geo, a.cache.view, a.alloc, t);
      ParsedPairs(d.geo, d.view, d.alloc, t);
    }

    /** An abandoned change of inode `n` leaves a valid state exactly when there was none. */
    lemma WhenValid(d: Disk, n: nat, ino: Inode)
      requires Consistent(d) && n in d.live && n < |d.inodes| && icache.view == d.inodes && live == d.live
      requires Cached(d.view, n)
      requires Editing(n, ino) && Gained(d.Mine(n), d.inodes[n], Owned(a.cache.view, ino.tree), ino)
      requires Others(ino) == d.alloc - d.Mine(n)
      ensures (Valid() <==> ino == d.inodes[n]) && (Valid() <==> a.alloc == d.alloc)
    {
      hide a.Valid;
      hide icache.Valid;
      hide SlotsFresh;
      hide Cached;
      hide BlocksOf;
      hide Owned;
      hide FileOk;
      OwnedAlloc(d, n);
      OwnedAlloc(D().(inodes := icache.view[n := ino]), n);
      if ino == d.inodes[n] {
        EditingValid(n);
      }
      if Valid() {
        CachedMine(d, n);
      }
      ghost var mine, mine' := d.Mine(n), Owned(a.cache.view, ino.tree);
      assert a.alloc == (d.alloc - mine) + mine';
      assert mine' == a.alloc - (d.alloc - mine) && mine == d.alloc - (d.alloc - mine);
    }

    /** Fields other than the tree may change freely, as long as the inode is not the cached one again. */
    lemma Restamped(n: nat, ino: Inode, ino': Inode)
      requires Editing(n, ino) && ino'.tree == ino.tree && ino' != icache.view[n]
      ensures Editing(n, ino')
    {
      hide a.Valid;
      hide icache.Valid;
      hide Consistent;
      hide SlotsFresh;
      icache.Agrees();
      var d := D().(inodes := icache.view[n := ino]);
      ConsistentRestamp(d, n, ino');
      assert d.inodes[n := ino'] == icache.view[n := ino'];
      SlotsFreshRestamp(a.cache.view, icache.slots[..], extents[..], live, n, ino, icache.view, ino');
    }

    /**
     write_file, started in state `d`, has written the bytes `done` at `offset` so far. The inode in
     hand is `ino`; its growing block count keeps it apart from the cached one.
     */
    ghost predicate Writing(d: Disk, n: nat, ino: Inode, offset: nat, done: seq<byte>)
      reads this, a, a.cache, a.cache.slots, icache, icache.slots, extents
    {
      && a.geo.bsize > 0 && n < |d.inodes| && Editing(n, ino)
      && icache.view == d.inodes && live == d.live && a.geo == d.geo
      && ino == d.inodes[n].(blocks512 := ino.blocks512, tree := ino.tree)
      && d.inodes[n].blocks512 <= ino.blocks512 && Extra(ino) == Unbilled(d.inodes[n], d.File(n), a.geo.bsize)
      && Others(ino) == d.alloc - d.Mine(n) && Lost(D()) == Lost(d)
      && Gained(d.Mine(n), d.inodes[n], Owned(a.cache.view, ino.tree), ino)
      && Unchanged(d.view, a.cache.view, d.alloc - d.geo.fixed - d.Mine(n))
      && Overwritten(d.view, d.File(n), a.cache.view, Pairs(a.cache.view, ino.tree), a.geo.bsize, offset, done)
    }

    /** One turn of the loop of write_file. */
    method WriteStep(ghost d: Disk, n: nat, ino: Inode, offset: nat, src: seq<byte>, w: nat, near: nat)
      returns (st: Status, ino': Inode, p: nat, w': nat)
      requires w < |src| && Writing(d, n, ino, offset, src[..w]) && (near > 0 ==> near >= a.geo.firstData)
      modifies a, a.cache, a.cache.slots, `owner
      ensures w' <= |src| && Writing(d, n, ino', offset, src[..w'])
      ensures st == Taken ==> w < w' && p >= a.geo.firstData
      ensures st != Taken ==> w' == w && ino' == ino
      ensures OneBlock(a.geo, old(Now(ino)), offset + w, near, st, Now(ino'), p)
      ensures OneChunk(a.geo.bsize, offset, |src|, w, st, w')
      ensures st != Taken ==> Now(ino') == old(Now(ino))
    {
      hide Ensuring;
      hide Load;
      hide Editing;
      hide Pairs;
      hide Overwritten;
      hide Owned;
      hide BlocksOf;
      var at := (offset + w) % a.geo.bsize;
      var chunk := ChunkAt(offset + w, |src| - w, a.geo.bsize);
      ghost var view1, ps1 := a.cache.view, Pairs(a.cache.view, ino.tree);
      var part := src[w..w + chunk];
      st, ino', p := WriteChunk(n, ino, offset + w, part, near);
      OverwrittenTrans(d.view, d.File(n), view1, ps1, a.cache.view, Pairs(a.cache.view, ino'.tree), a.geo.bsize,
                       offset, src[..w], if st == Taken then part else []);
      w' := if st == Taken then w + chunk else w;
      assert src[..w'] == src[..w] + if st == Taken then part else [];
    }

    /** One turn of the loop of write_file, as the plan `pl0` foretells it. */
    method WriteOn(
      ghost d: Disk, n: nat, ino: Inode, offset: nat, src: seq<byte>, w: nat, near: nat, ghost pl0: Plan, ghost l: nat)
      returns (st: Status, ino': Inode, p: nat, w': nat)
      requires w < |src| && Writing(d, n, ino, offset, src[..w]) && (near > 0 ==> near >= a.geo.firstData)
      requires OnCourse(a.geo, pl0, offset, |src|, l, near, Now(ino), w)
      modifies a, a.cache, a.cache.slots, `owner
      ensures w <= w' <= |src| && Writing(d, n, ino', offset, src[..w'])
      ensures st == Taken ==> w < w' && p >= a.geo.firstData
      ensures st != Taken ==> w' == w && ino' == ino
      ensures if st == Taken then OnCourse(a.geo, pl0, offset, |src|, l + 1, p, Now(ino'), w')
              else Foretold(a.geo, pl0, offset, |src|, st, Now(ino'), w')
    {
      hide Writing;
      hide OnCourse;
      hide OneBlock;
      hide OneChunk;
      hide Foretold;
      hide Now;
      ghost var pl := Now(ino);
      st, ino', p, w' := WriteStep(d, n, ino, offset, src, w, near);
      CourseStep(a.geo, pl0, offset, |src|, l, near, pl, w, st, Now(ino'), p, w');
    }

    /** The loop of write_file. */
    method WriteBytes(ghost d: Disk, n: nat, ino: Inode, offset: nat, src: seq<byte>)
      returns (st: Status, ino': Inode, w: nat)
      requires Writing(d, n, ino, offset, [])
      modifies a, a.cache, a.cache.slots, `owner
      ensures w <= |src| && Writing(d, n, ino', offset, src[..w])
      ensures (st == Taken <==> w == |src|) && (w == 0 ==> ino' == ino)
      ensures Foretold(a.geo, old(Now(ino)), offset, |src|, st, Now(ino'), w)
    {
      hide *;
      WritingFacts(d, n, ino, offset, []);
      w, ino', st := 0, ino, Taken;
      var near: nat, p: nat := 0, 0;
      assert src[..0] == [];
      ghost var plan, l: nat := Now(ino), offset / a.geo.bsize;
      CourseStart(a.geo, plan, offset, |src|);
      while w < |src|
        invariant w <= |src| && Writing(d, n, ino', offset, src[..w])
        invariant (near > 0 ==> near >= a.geo.firstData) && (w == 0 ==> ino' == ino)
        invariant OnCourse(a.geo, plan, offset, |src|, l, near, Now(ino'), w)
      {
        st, ino', p, w := WriteOn(d, n, ino', offset, src, w, near, plan, l);
        if st != Taken {
          return;
        }
        near, l := p, l + 1;
      }
      CourseEnd(a.geo, plan, offset, |src|, l, near, Now(ino'));
      st := Taken;
    }

    lemma WritingFacts(d: Disk, n: nat, ino: Inode, offset: nat, done: seq<byte>)
      requires Writing(d, n, ino, offset, done)
      ensures a.geo.bsize > 0 && a.geo.groups > 0 && a.geo.perGroup > 0
    {
      a.Facts();
    }

    /**
     Writes `src` at `offset`. How it ends follows from the allocated blocks and the tree before it.
     The exit for an exhausted extent tree does not write the inode back: the disk is then consistent
     with `ino'`, and the state is valid exactly when that is still the inode in the cache, which it is
     if and only if the first position of the range without a block was already refused.
     */
    method WriteFile(n: nat, offset: nat, src: seq<byte>) returns (r: WriteResult, ino': Inode, ghost w: nat)
      requires Valid() && n in live
      modifies a, a.cache, a.cache.slots, icache, icache.slots, extents, `owner
      ensures live == old(live) && a.geo.bsize > 0 && n < |old(icache.view)| && w <= |src|
      ensures r == IsDir <==> !old(icache.view)[n].regular
      ensures (r == Full ==> w == |src|) && (r.Short? ==> 0 < w == r.count < |src|)
      ensures r == NoSpc || r == IsDir ==> w == 0 && ino' == old(icache.view)[n]
      ensures r == IsDir ==> a.cache.view == old(a.cache.view)
      ensures var was := old(icache.view)[n];
              && ino' == was.(size := ino'.size, blocks512 := ino'.blocks512, tree := ino'.tree)
              && Extra(ino') == old(Extra(icache.view[n]))
              && ino'.size == if r == Full && offset + |src| > was.size then offset + |src| else was.size
      ensures if r == TreeExhausted then Editing(n, ino') && icache.view == old(icache.view)
              else Valid() && icache.view == old(icache.view)[n := ino']
      ensures r != IsDir ==>
                Answered(a.geo, PlanOf(old(D()), n), offset, |src|, r, Now(ino'), w)
      ensures r == TreeExhausted ==>
                && (Valid() <==> ino' == old(icache.view)[n])
                && (Valid() <==> StopsAtFirst(a.geo, PlanOf(old(D()), n), offset, |src|))
      ensures Lost(D()) == old(Lost(D()))
      ensures Overwritten(old(a.cache.view), old(D()).File(n),
                          a.cache.view, Pairs(a.cache.view, ino'.tree), a.geo.bsize, offset, src[..w])
      ensures OthersKept(old(D()), D(), n)
    {
      hide a.Valid;
      hide a.geo.Ok;
      hide icache.Valid;
      hide Consistent;
      hide FileOk;
      hide Pairs;
      hide SlotsFresh;
      hide OthersKept;
      hide Cached;
      hide BlocksOf;
      hide Owned;
      a.Facts();
      LiveFile(D(), n);
      ghost var d := D();
      var ino := ReadInode(n);
      assert Overwritten(d.view, d.File(n), a.cache.view, d.File(n), a.geo.bsize, offset, []);
      if !ino.regular {
        OthersKeep(d, D(), n);
        assert src[..0] == [];
        assert d.inodes[n := ino] == d.inodes;
        return IsDir, ino, 0;
      }
      var st, count;
      st, ino, count := WriteBytes(d, n, ino, offset, src);
      w := count;
      StopsAtFirstIff(a.geo, PlanOf(d, n), offset, |src|, st, Now(ino), w);
      r := FinishWrite(d, n, ino, offset, src, st, count);
      ino' := if r == Full && offset + |src| > ino.size then ino.(size := offset + |src|) else ino;
    }

    /** The exits of write_file: which of them write the inode back. */
    method FinishWrite(ghost d: Disk, n: nat, ino: Inode, offset: nat, src: seq<byte>, st: Status, w: nat)
      returns (r: WriteResult)
      requires w <= |src| && Writing(d, n, ino, offset, src[..w]) && (st == Taken <==> w == |src|)
      requires Consistent(d) && n in d.live && n < |d.inodes| && (w == 0 ==> ino == d.inodes[n])
      requires Cached(d.view, n)
      modifies a.cache, a.cache.slots, icache, icache.slots, extents
      ensures a.cache.view == old(a.cache.view) && live == d.live && a.geo.bsize > 0 && r != IsDir
      ensures r == Answer(st, w)
      ensures var ino' := if r == Full && offset + |src| > ino.size then ino.(size := offset + |src|) else ino;
              if r == TreeExhausted then Editing(n, ino') && icache.view == d.inodes
              else Valid() && icache.view == d.inodes[n := ino']
      ensures r == TreeExhausted ==> (Valid() <==> ino == d.inodes[n]) && (Valid() <==> a.alloc == d.alloc)
      ensures Lost(D()) == Lost(d) && OthersKept(d, D(), n)
    {
      hide a.Valid;
      hide icache.Valid;
      hide Consistent;
      hide Overwritten;
      hide SlotsFresh;
      hide OthersKept;
      hide Cached;
      hide BlocksOf;
      hide Owned;
      if st == TreeFull {
        WhenValid(d, n, ino);
        OthersKeep(d, D(), n);
        return TreeExhausted;
      }
      if st == NoSpace && w == 0 {
        EditingValid(n);
        assert d.inodes[n := ino] == d.inodes;
        OthersKeep(d, D(), n);
        return NoSpc;
      }
      var ino' := ino;
      r := Short(w);
      if st == Taken {
        r := Full;
        if offset + |src| > ino.size {
          ino' := ino.(size := offset + |src|);
          Restamped(n, ino, ino');
        }
      }
      WriteInode(n, ino');
      OthersKeep(d, D(), n);
    }

    /**
     Truncates or extends a file. Shrinking keeps the blocks of the first `newSize` bytes, in order,
     and frees every other block of the file, exactly if the leaves of the new tree can be found.
     Otherwise the blocks that found no place in it are lost. Growing changes the size alone.
     */
    method Truncate(n: nat, newSize: nat) returns (isDir: bool)
      requires Valid() && n in live
      modifies a, a.cache, a.cache.slots, icache, icache.slots, extents, `owner
      ensures Valid() && live == old(live) && n < |old(icache.view)| && a.geo.bsize > 0
      ensures isDir == !old(icache.view)[n].regular
      ensures isDir ==> icache.view == old(icache.view) && a.cache.view == old(a.cache.view)
      ensures !isDir ==> icache.view == old(icache.view)[n := icache.view[n]]
      ensures !isDir ==>
                var ino := icache.view[n];
                ino == old(icache.view)[n].(size := newSize, blocks512 := ino.blocks512, tree := ino.tree)
      ensures !isDir && newSize >= old(icache.view)[n].size ==>
                icache.view[n] == old(icache.view)[n].(size := newSize) && a.cache.view == old(a.cache.view)
      ensures isDir || newSize >= old(icache.view)[n].size ==> Lost(D()) == old(Lost(D()))
      ensures a.geo.perGroup < COUNT_WRAP ==> Lost(D()) == old(Lost(D()))
      ensures !isDir && newSize < old(icache.view)[n].size ==>
                && a.geo.LeafMax() > 0 && Shortened(old(D()), D(), n, BlocksFor(newSize, a.geo.bsize))
                && icache.view[n].blocks512 == Sectors(BlocksFor(newSize, a.geo.bsize), a.geo.bsize)
      ensures !isDir && newSize < old(icache.view)[n].size ==> CutTo(old(D()), D(), n, newSize)
      ensures OthersKept(old(D()), D(), n)
    {
      hide a.Valid;
      hide a.geo.Ok;
      hide icache.Valid;
      hide Consistent;
      hide FileOk;
      hide Pairs;
      hide SlotsFresh;
      hide OthersKept;
      hide Cached;
      hide BlocksOf;
      hide Shortened;
      hide CutTo;
      hide BlocksFor;
      hide Sectors;
      a.Facts();
      LiveFile(D(), n);
      ghost var d := D();
      var ino := ReadInode(n);
      assert d.inodes[n := ino] == d.inodes;
      OthersKeep(d, D(), n);
      if !ino.regular || newSize == ino.size {
        return !ino.regular;
      }
      isDir := false;
      var ino' := ino.(size := newSize);
      if newSize < ino.size {
        ino' := Shrink(n, ino, newSize);
      } else {
        Restamped(n, ino, ino');
      }
      WriteInode(n, ino');
      OthersKeep(d, D(), n);
      if newSize < ino.size {
        ShortenedCut(d, D(), n, newSize);
      }
    }

    /** On a volume whose groups have less than 65536 blocks no shrink loses a block. */
    lemma SmallKeeps(n: nat, newSize: nat)
      requires Valid() && n in live
      ensures n < |icache.view| && a.geo.bsize > 0 && a.geo.LeafMax() > 0
      ensures a.geo.perGroup < COUNT_WRAP ==> Rebuildable(D(), n, BlocksFor(newSize, a.geo.bsize))
    {
      hide a.Valid;
      hide a.geo.Ok;
      hide Consistent;
      hide Rebuildable;
      hide BlocksFor;
      a.Facts();
      LiveFile(D(), n);
      if a.geo.perGroup < COUNT_WRAP {
        RebuildCannotFail(D(), n, BlocksFor(newSize, a.geo.bsize));
      }
    }

    /** The shrinking branch of truncate, up to the point where the inode is written back. */
    method Shrink(n: nat, ino: Inode, newSize: nat) returns (ino': Inode)
      requires Editing(n, ino) && ino == icache.view[n] && newSize < ino.size
      modifies a, a.cache, a.cache.slots, `owner
      ensures Editing(n, ino') && a.geo.bsize > 0
      ensures ino' == ino.(size := newSize, tree := ino'.tree,
                           blocks512 := Sectors(BlocksFor(newSize, a.geo.bsize), a.geo.bsize))
      ensures var d := old(D());
              && Unchanged(d.view, a.cache.view, d.alloc - d.geo.fixed - d.Mine(n))
              && a.geo.LeafMax() > 0
              && Shortened(d, D().(inodes := d.inodes[n := ino']), n, BlocksFor(newSize, a.geo.bsize))
      ensures a.geo.perGroup < COUNT_WRAP ==> Lost(D()) == old(Lost(D()))
    {
      hide a.Valid;
      hide a.geo.Ok;
      hide icache.Valid;
      hide Consistent;
      hide FileOk;
      hide Pairs;
      hide SlotsFresh;
      hide Rebuilt;
      hide Survivors;
      hide Dropped;
      hide KeptBlocks;
      hide Trimmed;
      hide Shrunk;
      hide Rebuildable;
      hide Below;
      hide BlocksFor;
      hide Sectors;
      hide BlocksOf;
      a.Facts();
      icache.Agrees();
      EditingValid(n);
      SmallKeeps(n, newSize);
      ghost var d := D();
      ghost var slots, ext := icache.slots[..], extents[..];
      assert icache.view[n := ino] == icache.view;
      var keep := BlocksFor(newSize, a.geo.bsize);
      var t', view1 := TruncateTree(a, d, n, ino.tree, keep);
      ino' := ino.(size := newSize, tree := t', blocks512 := Sectors(keep, a.geo.bsize));
      RebuiltConsistent(d, n, keep, view1, a.cache.view, a.alloc, ino');
      owner := Shrunk(d, n, keep, a.cache.view, t');
      ShortenedIs(d, D().(inodes := d.inodes[n := ino']), n, keep);
      SlotsFreshEdit(d, n, slots, ext, icache.view, ino', a.cache.view);
    }

    /** The bytes of inode `n` from `offset` on. */
    ghost predicate HoldsBytes(n: nat, offset: nat, out: seq<byte>)
      requires n < |icache.view|
      reads this, a, a.cache, icache
    {
      && a.geo.bsize > 0
      && forall k :: 0 <= k < |out| ==> out[k] == Content(a.cache.view, D().File(n), a.geo.bsize, offset + k)
    }

    /** One chunk of the block-by-block path: bytes of one block, or zeros where none is mapped. */
    method ReadChunk(ghost n: nat, ino: Inode, pos: nat, chunk: nat) returns (part: seq<byte>)
      requires Editing(n, ino) && a.geo.bsize > 0 && pos % a.geo.bsize + chunk <= a.geo.bsize
      modifies a.cache, a.cache.slots
      ensures Editing(n, ino) && a.cache.view == old(a.cache.view) && |part| == chunk
      ensures forall k :: 0 <= k < chunk ==> part[k] == ByteAt(ino, pos + k)
    {
      hide a.Valid;
      hide a.geo.Ok;
      hide icache.Valid;
      hide Consistent;
      hide FileOk;
      hide Pairs;
      hide SlotsFresh;
      hide Lookup;
      ghost var view := a.cache.view;
      LiveFile(D().(inodes := icache.view[n := ino]), n);
      var l, at := pos / a.geo.bsize, pos % a.geo.bsize;
      part := seq(chunk, _ => 0);
      var r := MapLogicalToPhysical(n, ino, l);
      if r.Some? {
        FileBlock(a.geo, view, a.alloc, ino.tree, l, r.value);
        var blk := a.Read(r.value);
        part := blk.data[at..at + chunk];
      }
      forall k | 0 <= k < chunk
        ensures part[k] == Content(view, Pairs(view, ino.tree), a.geo.bsize, pos + k)
      {
        InBlock(pos, k, a.geo.bsize);
      }
    }

    /** The block-by-block path of read_file. */
    method ReadBlocks(n: nat, ino: Inode, offset: nat, size: nat) returns (out: seq<byte>)
      requires Editing(n, ino) && ino == icache.view[n]
      modifies a.cache, a.cache.slots
      ensures Editing(n, ino) && a.cache.view == old(a.cache.view)
      ensures |out| == size && HoldsBytes(n, offset, out)
    {
      hide a.Valid;
      hide a.geo.Ok;
      hide icache.Valid;
      hide Consistent;
      hide FileOk;
      hide Pairs;
      hide SlotsFresh;
      hide Content;
      a.Facts();
      ghost var d := D();
      out := [];
      while |out| < size
        invariant Editing(n, ino) && a.cache.view == d.view && |out| <= size
        invariant HoldsBytes(n, offset, out)
      {
        var pos, remaining := offset + |out|, size - |out|;
        var at := pos % a.geo.bsize;
        var chunk := if remaining < a.geo.bsize - at then remaining else a.geo.bsize - at;
        var part := ReadChunk(n, ino, pos, chunk);
        BytesExtend(d.view, d.File(n), a.geo.bsize, offset, out, part);
        out := out + part;
      }
    }

    /**
     Reads up to `size` bytes at `offset`; None for a directory. The batched path and the
     block-by-block path return the same bytes, those of `Content`.
     */
    method ReadFile(n: nat, offset: nat, size: nat, updateAtime: bool) returns (r: Option<seq<byte>>)
      requires Valid() && n in live
      modifies a.cache, a.cache.slots, icache, icache.slots, extents
      ensures Valid() && a.cache.view == old(a.cache.view) && icache.view == old(icache.view) && n < |icache.view|
      ensures D() == old(D())
      ensures r.None? <==> !icache.view[n].regular
      ensures r.Some? ==> HoldsBytes(n, offset, r.value)
      ensures r.Some? ==> |r.value| <= size && (r.value != [] ==> offset + |r.value| <= icache.view[n].size)
      ensures r.Some? ==> |r.value| == size || offset + |r.value| >= icache.view[n].size
    {
      hide a.Valid;
      hide a.geo.Ok;
      hide icache.Valid;
      hide Consistent;
      hide FileOk;
      hide Pairs;
      hide SlotsFresh;
      hide Readable;
      a.Facts();
      ghost var d := D();
      LiveFile(d, n);
      var ino := ReadInode(n);
      if !ino.regular {
        return None;
      }
      if offset >= ino.size {
        return Some([]);
      }
      var count := if offset + size > ino.size then ino.size - offset else size;
      var ms := CachedExtents(n, ino);
      var out;
      if ms == [] {
        out := ReadBlocks(n, ino, offset, count);
      } else {
        ParsedReadable(d, n, ms);
        out := ReadExtents(a, ms, offset, count);
      }
      EditingValid(n);
      if updateAtime {
        WriteInode(n, ino);
        assert d.inodes[n := ino] == d.inodes;
      }
      r := Some(out);
    }

    /** The extents cached beside inode `n`. */
    method CachedExtents(n: nat, ghost ino: Inode) returns (ms: seq<Extent>)
      requires Editing(n, ino) && ino == icache.view[n]
      ensures ms == [] || ms == Decode(Entries(Load(a.cache.view, ino.tree)))
    {
      icache.Agrees();
      hide a.Valid;
      hide icache.Valid;
      hide Consistent;
      ms := [];
      for i := 0 to icache.slots.Length
        invariant ms == []
      {
        if icache.slots[i].valid && icache.slots[i].key == n {
          assert icache.slots[..][i] == icache.slots[i];
          return extents[i];
        }
      }
    }

    /** What a full write stores, a read of the same range returns. */
    method WriteThenRead(n: nat, offset: nat, src: seq<byte>) returns (r: WriteResult, got: Option<seq<byte>>)
      requires Valid() && n in live
      modifies a, a.cache, a.cache.slots, icache, icache.slots, extents, `owner
      ensures r == Full ==> Valid() && got == Some(src)
    {
      hide a.Valid;
      hide icache.Valid;
      hide Consistent;
      hide SlotsFresh;
      hide Content;
      hide OthersKept;
      got := None;
      var ino';
      ghost var w;
      r, ino', w := WriteFile(n, offset, src);
      if r == Full {
        assert src[..w] == src;
        got := ReadFile(n, offset, |src|, false);
        assert got.value == src;
      }
    }

    /**
     The end of unlink, once the directory entry is gone: the last link takes the inode's blocks
     with it and the inode leaves the cache without being written back.
     */
    method Unlink(n: nat) returns (gone: bool)
      requires Valid() && n in live
      modifies a, a.cache, a.cache.slots, icache, icache.slots, extents, `owner, `live
      ensures Valid() && n < |old(icache.view)| && a.geo.bsize > 0
      ensures gone <==> old(icache.view)[n].links <= 1
      ensures gone ==> live == old(live) - {n} && a.alloc == old(a.alloc) - old(D()).Mine(n)
      ensures !gone ==> live == old(live) && a.alloc == old(a.alloc) && a.cache.view == old(a.cache.view)
      ensures !gone ==>
                icache.view == old(icache.view)[n := old(icache.view)[n].(links := old(icache.view)[n].links - 1)]
      ensures |icache.view| == |old(icache.view)|
      ensures forall m :: 0 <= m < |icache.view| && m != n ==> icache.view[m] == old(icache.view)[m]
      ensures Lost(D()) == old(Lost(D())) && OthersKept(old(D()), D().(live := old(live)), n)
    {
      hide a.Valid;
      hide a.geo.Ok;
      hide icache.Valid;
      hide Consistent;
      hide FileOk;
      hide Pairs;
      hide SlotsFresh;
      hide OthersKept;
      a.Facts();
      ghost var d := D();
      LiveFile(d, n);
      var ino := ReadInode(n);
      if ino.links > 1 {
        Restamped(n, ino, ino.(links := ino.links - 1));
        WriteInode(n, ino.(links := ino.links - 1));
        OthersKeep(d, D().(live := d.live), n);
        return false;
      }
      ReleaseInode(n, ino);
      OthersKeep(d, D().(live := d.live), n);
      gone := true;
    }

    /** The last link: blocks are freed, the inode is written to the cache and dropped from it. */
    method ReleaseInode(n: nat, ino: Inode)
      requires Valid() && n in live && n < |icache.view| && ino == icache.view[n]
      modifies a, a.cache, a.cache.slots, icache, icache.slots, `owner, `live
      ensures Valid() && live == old(live) - {n} && a.alloc == old(a.alloc) - old(D()).Mine(n)
      ensures SameFiles(a.geo, old(a.cache.view), a.cache.view) && |icache.view| == |old(icache.view)|
      ensures Lost(D()) == old(Lost(D()))
      ensures forall m :: 0 <= m < |icache.view| && m != n ==> icache.view[m] == old(icache.view)[m]
    {
      hide a.Valid;
      hide a.geo.Ok;
      hide icache.Valid;
      hide Consistent;
      hide FileOk;
      hide Pairs;
      hide SlotsFresh;
      ghost var d := D();
      ghost var slots, ext := icache.slots[..], extents[..];
      icache.Agrees();
      FreeBlocksForInode(a, d, n, ino.tree);
      icache.PutThenDrop(n, ino.(links := 0));
      ConsistentRemove(d, n, a.cache.view, icache.view);
      SlotsFreshRemove(d, n, slots, ext, a.cache.view, icache.slots[..]);
      live, owner := live - {n}, Reassign(owner, n, {});
    }

    /** free_inode on an inode that owns nothing: it leaves the cache without being written back. */
    method FreeInode(n: nat)
      requires Valid() && n in live && n < |icache.view| && icache.view[n].tree == Inline([])
      modifies icache, icache.slots, `owner, `live
      ensures Valid() && live == old(live) - {n} && |icache.view| == |old(icache.view)|
      ensures forall m :: 0 <= m < |icache.view| && m != n ==> icache.view[m] == old(icache.view)[m]
      ensures Lost(D()) == old(Lost(D()))
    {
      hide a.Valid;
      hide icache.Valid;
      hide Consistent;
      hide SlotsFresh;
      hide BlocksOf;
      ghost var d := D();
      ghost var slots, ext := icache.slots[..], extents[..];
      icache.Agrees();
      icache.Drop(n);
      NothingOwned(d, n);
      ConsistentRemove(d, n, a.cache.view, icache.view);
      SlotsFreshRemove(d, n, slots, ext, a.cache.view, icache.slots[..]);
      live, owner := live - {n}, Reassign(owner, n, {});
    }

    /** init_inode on an inode number that is not in use: an empty file. */
    method InitInode(n: nat, regular: bool)
      requires Valid() && n !in live && 0 < n < |icache.view|
      modifies a.cache, a.cache.slots, icache, icache.slots, extents, `live
      ensures Valid() && live == old(live) + {n} && a.cache.view == old(a.cache.view)
      ensures icache.view == old(icache.view)[n := Inode(regular, 0, 0, 1, Inline([]))]
      ensures D().File(n) == [] && Lost(D()) == old(Lost(D()))
    {
      hide a.Valid;
      hide a.geo.Ok;
      hide icache.Valid;
      hide Consistent;
      hide SlotsFresh;
      hide Fresh;
      hide Pairs;
      var ino := Inode(regular, 0, 0, 1, Inline([]));
      ConsistentAdd(D(), n, ino);
      FreshEmpty(a.cache.view);
      ghost var slots, ext := icache.slots[..], extents[..];
      var i := icache.Put(n, ino);
      extents[i] := [];
      assert icache.slots[..] == slots[i := icache.slots[i]] && extents[..] == ext[i := []];
      SlotsFreshInsert(a.cache.view, slots, ext, live, i, icache.slots[i], []);
      live := live + {n};
    }

    lemma SameLength()
      requires Valid()
      ensures |icache.view| == |icache.device|
    {
    }

    /** sync: inodes first, then blocks. Nothing is left dirty and both devices hold what callers see. */
    method Sync()
      requires Valid()
      modifies a.cache, a.cache.slots, icache, icache.slots
      ensures Valid() && D() == old(D())
      ensures a.cache.device == a.cache.view && icache.device == icache.view
      ensures forall i :: 0 <= i < a.cache.slots.Length && a.cache.slots[i].valid ==> !a.cache.slots[i].dirty
      ensures forall i :: 0 <= i < icache.slots.Length && icache.slots[i].valid ==> !icache.slots[i].dirty
    {
      hide a.cache.Valid;
      hide Consistent;
      hide Fresh;
      ghost var slots := icache.slots[..];
      icache.Flush();
      assert forall i :: 0 <= i < |slots| ==> icache.slots[..][i].(dirty := false) == slots[i].(dirty := false);
      a.cache.Flush();
    }

    /** map_logical_to_physical for the inode being changed. */
    method MapLogicalToPhysical(ghost n: nat, ino: Inode, l: nat) returns (r: Option<nat>)
      requires Editing(n, ino)
      modifies a.cache, a.cache.slots
      ensures Editing(n, ino) && a.cache.view == old(a.cache.view)
      ensures r == Lookup(Pairs(a.cache.view, ino.tree), l)
    {
      hide a.Valid;
      hide icache.Valid;
      hide Consistent;
      hide Decode;
      hide Flat;
      hide Lookup;
      hide Pairs;
      ghost var view := a.cache.view;
      LiveFile(D().(inodes := icache.view[n := ino]), n);
      ParsedPairs(a.geo, view, a.alloc, ino.tree);
      for i := 0 to icache.slots.Length {
        if icache.slots[i].valid && icache.slots[i].data == ino {
          assert icache.slots[..][i] == icache.slots[i];
          r := Search(extents[i], l);
          return;
        }
      }
      var ms := ParseExtents(a, ino.tree);
      r := Search(ms, l);
    }
  }

  /** Parsed extents describe the mapping of the tree they come from. */
  lemma ParsedPairs(geo: Geometry, view: seq<Block>, alloc: set<nat>, t: Tree)
    requires FileOk(geo, view, alloc, t)
    ensures var ms := Decode(Entries(Load(view, t)));
            Flat(ms) == Pairs(view, t) && Distinct(Flat(ms)) && RunsBounded(ms)
  {
    EntriesBounded(geo, view, alloc, t);
    DecodeFlat(Entries(Load(view, t)));
  }

  /** A mapped block is a whole block of file bytes. */
  lemma FileBlock(geo: Geometry, view: seq<Block>, alloc: set<nat>, t: Tree, l: nat, p: nat)
    requires FileOk(geo, view, alloc, t) && Lookup(Pairs(view, t), l) == Some(p)
    ensures DataOk(geo, view, alloc, p)
  {
    LookupSound(Pairs(view, t), l);
  }

  lemma BytesExtend(view: seq<Block>, ps: seq<Pair>, bsize: nat, offset: nat, out: seq<byte>, part: seq<byte>)
    requires bsize > 0
    requires forall k :: 0 <= k < |out| ==> out[k] == Content(view, ps, bsize, offset + k)
    requires forall k :: 0 <= k < |part| ==> part[k] == Content(view, ps, bsize, offset + |out| + k)
    ensures forall k :: 0 <= k < |out + part| ==> (out + part)[k] == Content(view, ps, bsize, offset + k)
  {
    forall k | |out| <= k < |out + part|
      ensures (out + part)[k] == Content(view, ps, bsize, offset + k)
    {
      assert (out + part)[k] == part[k - |out|];
      assert offset + |out| + (k - |out|) == offset + k;
    }
  }

  lemma ParsedReadable(d: Disk, n: nat, ms: seq<Extent>)
    requires Consistent(d) && n in d.live
    requires ms == Decode(Entries(Load(d.view, d.inodes[n].tree)))
    ensures Flat(ms) == d.File(n) && Distinct(Flat(ms))
    ensures forall i :: 0 <= i < |ms| ==> Readable(d.geo, d.view, ms[i])
  {
    hide Decode;
    hide Load;
    hide Flat;
    hide Consistent;
    LiveFile(d, n);
    ParsedPairs(d.geo, d.view, d.alloc, d.inodes[n].tree);
    forall i, b | 0 <= i < |ms| && ms[i].start <= b < ms[i].start + ms[i].Len()
      ensures WholeBlock(d.geo, d.view, b)
    {
      FlatMember(ms, (ms[i].block + (b - ms[i].start), b));
      assert DataOk(d.geo, d.view, d.alloc, b);
    }
  }

  lemma SlotFresh(view: seq<Block>, slots: seq<Slot<Inode>>, ext: seq<seq<Extent>>, live: set<nat>, i: nat)
    requires SlotsFresh(view, slots, ext, live, None) && i < |slots| && slots[i].valid
    ensures i < |ext| && Fresh(view, slots[i].data.tree, ext[i])
  {
  }

  /** One slot of the inode cache is filled. */
  lemma SlotsFreshSet(
    view: seq<Block>, slots: seq<Slot<Inode>>, ext: seq<seq<Extent>>, live: set<nat>,
    i: nat, slot: Slot<Inode>, ms: seq<Extent>)
    requires SlotsFresh(view, slots, ext, live, None) && i < |slots| && slot.key in live
    requires Fresh(view, slot.data.tree, ms) || (slots[i].valid && slots[i].data == slot.data && ms == ext[i])
    ensures SlotsFresh(view, slots[i := slot], ext[i := ms], live, None)
    ensures SlotsFresh(view, slots[i := slot], ext[i := ms], live, Some((slot.key, slot.data)))
  {
  }

  /** The slot of the inode being changed receives its new value. */
  lemma SlotsFreshPut(
    view: seq<Block>, slots: seq<Slot<Inode>>, ext: seq<seq<Extent>>, live: set<nat>,
    i: nat, slot: Slot<Inode>, ms: seq<Extent>, ino: Inode)
    requires SlotsFresh(view, slots, ext, live, Some((slot.key, ino))) && i < |slots| && slot.key in live
    requires Fresh(view, slot.data.tree, ms)
    requires forall k :: 0 <= k < |slots| && k != i && slots[k].valid ==> slots[k].key != slot.key
    ensures SlotsFresh(view, slots[i := slot], ext[i := ms], live, None)
  {
  }

  ghost predicate Agree(slots: seq<Slot<Inode>>, inodes: seq<Inode>) {
    forall i :: 0 <= i < |slots| && slots[i].valid ==> slots[i].key < |inodes| && slots[i].data == inodes[slots[i].key]
  }

  /** Inode `n` takes the value `ino`: the extents cached for everyone else stay up to date. */
  lemma SlotsFreshEdit(
    d: Disk, n: nat, slots: seq<Slot<Inode>>, ext: seq<seq<Extent>>, cached: seq<Inode>, ino: Inode, view': seq<Block>)
    requires Consistent(d) && n in d.live && n < |cached| && d.inodes == cached[n := d.inodes[n]]
    requires SlotsFresh(d.view, slots, ext, d.live, Some((n, d.inodes[n]))) && Agree(slots, cached)
    requires Unchanged(d.view, view', d.alloc - d.geo.fixed - d.Mine(n)) && cached[n] != ino
    ensures SlotsFresh(view', slots, ext, d.live, Some((n, ino)))
  {
    forall i | 0 <= i < |slots| && slots[i].valid && slots[i].key != n
      ensures Fresh(view', slots[i].data.tree, ext[i])
    {
      var m := slots[i].key;
      assert d.inodes[m] == slots[i].data;
      DisjointFiles(d, n, m);
      LoadFrame(d.view, view', slots[i].data.tree);
    }
  }

  /** A change that no file notices keeps every cached list of extents up to date. */
  lemma SlotsFreshFrame(
    d: Disk, n: nat, slots: seq<Slot<Inode>>, ext: seq<seq<Extent>>, cached: seq<Inode>, view': seq<Block>)
    requires Consistent(d) && n in d.live && n < |cached| && d.inodes == cached[n := d.inodes[n]]
    requires SlotsFresh(d.view, slots, ext, d.live, Some((n, d.inodes[n]))) && Agree(slots, cached)
    requires Unchanged(d.view, view', d.alloc - d.geo.fixed)
    ensures SlotsFresh(view', slots, ext, d.live, Some((n, d.inodes[n])))
  {
    forall i | 0 <= i < |slots| && slots[i].valid && (slots[i].key != n || slots[i].data == d.inodes[n])
      ensures Fresh(view', slots[i].data.tree, ext[i])
    {
      var m := slots[i].key;
      assert d.inodes[m] == slots[i].data;
      OwnedAlloc(d, m);
      LoadFrame(d.view, view', slots[i].data.tree);
    }
  }

  /** Data blocks of inode `n` change, its leaves do not: every cached list of extents stays up to date. */
  lemma SlotsFreshData(
    d: Disk, n: nat, slots: seq<Slot<Inode>>, ext: seq<seq<Extent>>, cached: seq<Inode>, view': seq<Block>)
    requires Consistent(d) && n in d.live && n < |cached| && d.inodes == cached[n := d.inodes[n]]
    requires SlotsFresh(d.view, slots, ext, d.live, Some((n, d.inodes[n]))) && Agree(slots, cached)
    requires Unchanged(d.view, view', d.alloc - d.geo.fixed - d.Mine(n))
    requires Unchanged(d.view, view', Leaves(d.inodes[n].tree))
    ensures SlotsFresh(view', slots, ext, d.live, Some((n, d.inodes[n])))
  {
    forall i | 0 <= i < |slots| && slots[i].valid && (slots[i].key != n || slots[i].data == d.inodes[n])
      ensures Fresh(view', slots[i].data.tree, ext[i])
    {
      var m := slots[i].key;
      assert d.inodes[m] == slots[i].data;
      if m != n {
        DisjointFiles(d, n, m);
      }
      LoadFrame(d.view, view', slots[i].data.tree);
    }
  }

  lemma SlotsFreshRestamp(
    view: seq<Block>, slots: seq<Slot<Inode>>, ext: seq<seq<Extent>>, live: set<nat>, n: nat, ino: Inode,
    cached: seq<Inode>, ino': Inode)
    requires SlotsFresh(view, slots, ext, live, Some((n, ino))) && Agree(slots, cached)
    requires n < |cached| && cached[n] != ino'
    ensures SlotsFresh(view, slots, ext, live, Some((n, ino')))
  {
  }

  /** An inode leaves the cache and gives up its blocks: everyone else's cached extents stay up to date. */
  lemma SlotsFreshRemove(
    d: Disk, n: nat, slots: seq<Slot<Inode>>, ext: seq<seq<Extent>>, view': seq<Block>, slots': seq<Slot<Inode>>)
    requires Consistent(d) && n in d.live && SameFiles(d.geo, d.view, view')
    requires SlotsFresh(d.view, slots, ext, d.live, None) && Agree(slots, d.inodes) && |slots'| == |slots|
    requires forall i :: 0 <= i < |slots| && slots'[i].valid ==> slots'[i] == slots[i] && slots[i].key != n
    ensures SlotsFresh(view', slots', ext, d.live - {n}, None)
  {
    forall i | 0 <= i < |slots'| && slots'[i].valid
      ensures Fresh(view', slots'[i].data.tree, ext[i])
    {
      OwnedAlloc(d, slots[i].key);
      LoadFrame(d.view, view', slots[i].data.tree);
    }
  }

  lemma NothingOwned(d: Disk, n: nat)
    requires n < |d.inodes| && d.inodes[n].tree == Inline([])
    ensures d.Mine(n) == {} && d.alloc - d.Mine(n) == d.alloc && SameFiles(d.geo, d.view, d.view)
  {
  }

  lemma FreshEmpty(view: seq<Block>)
    ensures Fresh(view, Inline([]), [])
  {
  }

  /** A new inode enters the cache. */
  lemma SlotsFreshInsert(
    view: seq<Block>, slots: seq<Slot<Inode>>, ext: seq<seq<Extent>>, live: set<nat>,
    i: nat, slot: Slot<Inode>, ms: seq<Extent>)
    requires SlotsFresh(view, slots, ext, live, None) && i < |slots| && Fresh(view, slot.data.tree, ms)
    ensures SlotsFresh(view, slots[i := slot], ext[i := ms], live + {slot.key}, None)
  {
  }

  // Whole runs

  datatype Op =
    | Create(n: nat, regular: bool)
    | Write(n: nat, offset: nat, src: seq<byte>)
    | Read(n: nat, offset: nat, size: nat)
    | Resize(n: nat, size: nat)
    | Remove(n: nat)
    | SyncAll

  /**
   Any sequence of operations keeps the file system valid. A run stops early only at a write that
   exhausts an extent tree after it has added blocks to it, and exactly then the state is not valid.
   On a volume whose groups have less than 65536 blocks no run loses a block.
   */
  method Run(fs: FileSystem, ops: seq<Op>) returns (k: nat)
    requires fs.Valid()
    modifies fs, fs.a, fs.a.cache, fs.a.cache.slots, fs.icache, fs.icache.slots, fs.extents
    ensures k <= |ops| && (k == |ops| <==> fs.Valid()) && (k < |ops| ==> ops[k].Write?)
    ensures fs.a.geo.perGroup < COUNT_WRAP ==> Lost(fs.D()) == old(Lost(fs.D()))
  {
    hide *;
    k := 0;
    while k < |ops|
      invariant k <= |ops| && fs.Valid()
      invariant fs.a.geo.perGroup < COUNT_WRAP ==> Lost(fs.D()) == old(Lost(fs.D()))
    {
      match ops[k] {
        case Create(n, regular) =>
          if n !in fs.live && 0 < n < |fs.icache.device| {
            fs.SameLength();
            fs.InitInode(n, regular);
          }
        case Write(n, offset, src) =>
          if n in fs.live {
            var was := fs.ReadInode(n);
            var r, now, _ := fs.WriteFile(n, offset, src);
            if r == TreeExhausted && now != was {
              return;
            }
          }
        case Read(n, offset, size) =>
          if n in fs.live {
            var _ := fs.ReadFile(n, offset, size, true);
          }
        case Resize(n, size) =>
          if n in fs.live {
            var _ := fs.Truncate(n, size);
          }
        case Remove(n) =>
          if n in fs.live {
            var _ := fs.Unlink(n);
          }
        case SyncAll =>
          fs.Sync();
      }
      k := k + 1;
    }
  }
}
