/**
 The batched read of one extent: an unaligned head, a run of whole blocks straight from the device,
 and an unaligned tail.
 */
module Ext4Read {
  import opened Ext4Layout
  import opened Ext4Allocator
  import opened Ext4Extents
  import opened Ext4Trees
  import opened Ext4Ownership
  import opened Ext4Content

  ghost predicate WholeBlock(geo: Geometry, view: seq<Block>, b: nat) {
    b < |view| && view[b].Bytes? && |view[b].data| == geo.bsize
  }

  /** The blocks of a parsed extent are whole blocks of file bytes. */
  ghost predicate Readable(geo: Geometry, view: seq<Block>, e: Extent) {
    forall b :: e.start <= b < e.start + e.Len() ==> WholeBlock(geo, view, b)
  }

  function Quo(x: nat, m: nat): nat
    requires m > 0
  {
    x / m
  }

  function Rem(x: nat, m: nat): nat
    requires m > 0
  {
    x % m
  }

  function Mul(x: nat, m: nat): nat {
    x * m
  }

  /** The byte at file offset `off`, for an extent that covers it. */
  ghost function ExtentByte(view: seq<Block>, e: Extent, bsize: nat, off: nat): byte
    requires bsize > 0
  {
    if off / bsize < e.block then 0 else ByteOf(view, e.start + (off / bsize - e.block), off % bsize)
  }

  /** `s` holds the bytes of the extent from file offset `lo` on. */
  ghost predicate Filled(view: seq<Block>, e: Extent, bsize: nat, lo: nat, s: seq<byte>)
    requires bsize > 0
  {
    forall k :: 0 <= k < |s| ==> s[k] == ExtentByte(view, e, bsize, lo + k)
  }

  lemma FilledConcat(view: seq<Block>, e: Extent, bsize: nat, lo: nat, s: seq<byte>, s': seq<byte>)
    requires bsize > 0 && Filled(view, e, bsize, lo, s) && Filled(view, e, bsize, lo + |s|, s')
    ensures Filled(view, e, bsize, lo, s + s')
  {
    forall k | 0 <= k < |s + s'|
      ensures (s + s')[k] == ExtentByte(view, e, bsize, lo + k)
    {
      if k >= |s| {
        assert (s + s')[k] == s'[k - |s|];
        assert lo + |s| + (k - |s|) == lo + k;
      }
    }
  }

  /** Part of one block, through the cache. */
  method ReadPart(a: Allocator, e: Extent, cur: nat, len: nat) returns (s: seq<byte>)
    requires a.Valid() && a.geo.bsize > 0 && Readable(a.geo, a.cache.view, e)
    requires Rem(cur, a.geo.bsize) + len <= a.geo.bsize && Covers(e, Quo(cur, a.geo.bsize))
    modifies a.cache, a.cache.slots
    ensures a.Valid() && a.cache.view == old(a.cache.view)
    ensures |s| == len && Filled(a.cache.view, e, a.geo.bsize, cur, s)
  {
    hide a.Valid;
    var lb, at := Quo(cur, a.geo.bsize), Rem(cur, a.geo.bsize);
    assert WholeBlock(a.geo, a.cache.view, e.start + (lb - e.block));
    var blk := a.Read(e.start + (lb - e.block));
    s := blk.data[at..at + len];
    forall k | 0 <= k < len
      ensures s[k] == ExtentByte(a.cache.view, e, a.geo.bsize, cur + k)
    {
      InBlock(cur, k, a.geo.bsize);
    }
  }

  lemma InBlock(cur: nat, k: nat, bsize: nat)
    requires bsize > 0 && cur % bsize + k < bsize
    ensures (cur + k) / bsize == cur / bsize && (cur + k) % bsize == cur % bsize + k
  {
    assert cur == (cur / bsize) * bsize + cur % bsize;
    DivModUnique(cur + k, bsize, cur / bsize, cur % bsize + k);
  }

  /** `count` whole blocks starting at block `l` of the file, straight from the device. */
  method ReadRun(a: Allocator, e: Extent, l: nat, count: nat) returns (s: seq<byte>)
    requires a.Valid() && a.geo.bsize > 0 && Readable(a.geo, a.cache.view, e)
    requires count > 0 && e.block <= l && l + count <= e.block + e.Len()
    modifies a.cache, a.cache.slots
    ensures a.Valid() && a.cache.view == old(a.cache.view)
    ensures |s| == Mul(count, a.geo.bsize) && Filled(a.cache.view, e, a.geo.bsize, Mul(l, a.geo.bsize), s)
  {
    hide a.Valid;
    hide Filled;
    hide Mul;
    var bsize := a.geo.bsize;
    var phys := e.start + (l - e.block);
    assert WholeBlock(a.geo, a.cache.view, phys + count - 1);
    var blks := a.ReadDevice(phys, phys + count - 1);
    ghost var view := a.cache.view;
    s := [];
    FilledNone(view, e, bsize, Mul(l, bsize));
    MulZero(bsize);
    for j := 0 to count
      invariant a.Valid() && a.cache.view == view
      invariant |s| == Mul(j, bsize) && Filled(view, e, bsize, Mul(l, bsize), s)
    {
      assert WholeBlock(a.geo, view, phys + j) && blks[j] == view[phys + j];
      BlockFilled(view, e, bsize, l + j);
      MulAdd(l, j, bsize);
      MulAdd(j, 1, bsize);
      FilledConcat(view, e, bsize, Mul(l, bsize), s, blks[j].data);
      s := s + blks[j].data;
    }
  }

  lemma MulZero(m: nat)
    ensures Mul(0, m) == 0 && Mul(1, m) == m
  {
  }

  lemma MulAdd(x: nat, y: nat, m: nat)
    ensures Mul(x + y, m) == Mul(x, m) + Mul(y, m) && Mul(1, m) == m
  {
  }

  lemma BlockFilled(view: seq<Block>, e: Extent, bsize: nat, l: nat)
    requires bsize > 0 && Covers(e, l) && e.start + (l - e.block) < |view|
    requires var b := e.start + (l - e.block); view[b].Bytes? && |view[b].data| == bsize
    ensures Filled(view, e, bsize, Mul(l, bsize), view[e.start + (l - e.block)].data)
  {
    var data := view[e.start + (l - e.block)].data;
    forall k | 0 <= k < bsize
      ensures data[k] == ExtentByte(view, e, bsize, l * bsize + k)
    {
      DivModUnique(l * bsize + k, bsize, l, k);
    }
  }

  /** The bytes of an extent from offset `lo` to offset `hi`: head, run and tail. */
  method ReadOverlap(a: Allocator, e: Extent, lo: nat, hi: nat) returns (s: seq<byte>)
    requires a.Valid() && a.geo.bsize > 0 && Readable(a.geo, a.cache.view, e)
    requires Mul(e.block, a.geo.bsize) <= lo < hi <= Mul(e.block + e.Len(), a.geo.bsize)
    modifies a.cache, a.cache.slots
    ensures a.Valid() && a.cache.view == old(a.cache.view)
    ensures |s| == hi - lo && Filled(a.cache.view, e, a.geo.bsize, lo, s)
  {
    hide a.Valid;
    hide Filled;
    hide Readable;
    hide Mul;
    hide Quo;
    hide Rem;
    var bsize := a.geo.bsize;
    var cur := lo;
    s := [];
    FilledNone(a.cache.view, e, bsize, lo);
    Euclid(lo, bsize);
    Euclid(hi, bsize);
    if Rem(cur, bsize) != 0 {
      var len := if bsize - Rem(cur, bsize) < hi - cur then bsize - Rem(cur, bsize) else hi - cur;
      CoversOffset(e, bsize, cur);
      s := ReadPart(a, e, cur, len);
      HeadArith(bsize, cur, len);
      cur := cur + len;
    }
    var alignedEnd := Mul(Quo(hi, bsize), bsize);
    if alignedEnd > cur {
      var l := Quo(cur, bsize);
      RunArith(e, bsize, cur, hi);
      var run := ReadRun(a, e, l, Quo(hi, bsize) - l);
      FilledConcat(a.cache.view, e, bsize, lo, s, run);
      s := s + run;
      cur := alignedEnd;
      Multiple(Quo(hi, bsize), bsize);
    }
    if cur < hi {
      CoversOffset(e, bsize, cur);
      var tail := ReadPart(a, e, cur, hi - cur);
      FilledConcat(a.cache.view, e, bsize, lo, s, tail);
      s := s + tail;
    }
  }

  lemma FilledNone(view: seq<Block>, e: Extent, bsize: nat, lo: nat)
    requires bsize > 0
    ensures Filled(view, e, bsize, lo, [])
  {
  }

  lemma Euclid(x: nat, m: nat)
    requires m > 0
    ensures x == Mul(Quo(x, m), m) + Rem(x, m) && Rem(x, m) < m
  {
  }

  lemma Multiple(q: nat, m: nat)
    requires m > 0
    ensures Rem(Mul(q, m), m) == 0 && Quo(Mul(q, m), m) == q
  {
    DivModUnique(q * m, m, q, 0);
  }

  lemma MulOrder(x: nat, y: nat, m: nat)
    ensures x <= y ==> Mul(x, m) <= Mul(y, m)
  {
  }

  /** An offset inside the extent's byte range lies in a block the extent covers. */
  lemma CoversOffset(e: Extent, bsize: nat, off: nat)
    requires bsize > 0 && Mul(e.block, bsize) <= off < Mul(e.block + e.Len(), bsize)
    ensures Covers(e, Quo(off, bsize))
  {
    hide Mul;
    hide Quo;
    hide Rem;
    var q := Quo(off, bsize);
    Euclid(off, bsize);
    MulAdd(q, 1, bsize);
    MulOrder(q + 1, e.block, bsize);
    MulOrder(e.block + e.Len(), q, bsize);
  }

  /** After the head the position is block aligned, or the range is finished. */
  lemma HeadArith(bsize: nat, cur: nat, len: nat)
    requires bsize > 0 && Rem(cur, bsize) + len <= bsize
    ensures Rem(cur, bsize) + len == bsize ==> Rem(cur + len, bsize) == 0
    ensures Rem(cur, bsize) + len < bsize ==> Quo(cur + len, bsize) == Quo(cur, bsize)
  {
    hide Mul;
    hide Quo;
    hide Rem;
    Euclid(cur, bsize);
    MulAdd(Quo(cur, bsize), 1, bsize);
    if Rem(cur, bsize) + len == bsize {
      Multiple(Quo(cur, bsize) + 1, bsize);
    } else {
      SameBlock(cur, len, bsize);
    }
  }

  lemma SameBlock(cur: nat, k: nat, bsize: nat)
    requires bsize > 0 && Rem(cur, bsize) + k < bsize
    ensures Quo(cur + k, bsize) == Quo(cur, bsize)
  {
    InBlock(cur, k, bsize);
  }

  lemma RunArith(e: Extent, bsize: nat, cur: nat, hi: nat)
    requires bsize > 0 && Mul(e.block, bsize) <= cur <= hi <= Mul(e.block + e.Len(), bsize)
    requires Mul(Quo(hi, bsize), bsize) > cur && Rem(cur, bsize) == 0
    ensures var l, h := Quo(cur, bsize), Quo(hi, bsize);
            && e.block <= l < h <= e.block + e.Len()
            && cur == Mul(l, bsize) && Mul(h - l, bsize) == Mul(h, bsize) - cur
  {
    hide Mul;
    hide Quo;
    hide Rem;
    var l, h := Quo(cur, bsize), Quo(hi, bsize);
    Euclid(cur, bsize);
    Euclid(hi, bsize);
    MulOrder(h, l, bsize);
    MulAdd(l, h - l, bsize);
    CoversOffset(e, bsize, cur);
    MulAdd(e.block + e.Len(), 1, bsize);
    MulOrder(e.block + e.Len() + 1, h, bsize);
  }

  // Reading a file extent by extent

  /** Adding one more extent to a mapping: the blocks it covers, and no others. */
  lemma {:induction false} LookupRun(ps: seq<Pair>, e: Extent, n: nat, l: nat)
    requires n <= e.Len()
    ensures Lookup(ps + Run(e)[..n], l) ==
            if e.block <= l < e.block + n then Some(e.start + (l - e.block)) else Lookup(ps, l)
  {
    if n == 0 {
      assert ps + Run(e)[..0] == ps;
    } else {
      LookupRun(ps, e, n - 1, l);
      assert ps + Run(e)[..n] == ps + Run(e)[..n - 1] + [(e.block + n - 1, e.start + n - 1)];
      LookupAppend(ps + Run(e)[..n - 1], e.block + n - 1, e.start + n - 1, l);
    }
  }

  lemma LookupSnoc(ms: seq<Extent>, i: nat, l: nat)
    requires i < |ms|
    ensures Lookup(Flat(ms[..i + 1]), l) ==
            if Covers(ms[i], l) then Some(ms[i].start + (l - ms[i].block)) else Lookup(Flat(ms[..i]), l)
  {
    assert ms[..i + 1][..i] == ms[..i];
    assert Run(ms[i])[..ms[i].Len()] == Run(ms[i]);
    LookupRun(Flat(ms[..i]), ms[i], ms[i].Len(), l);
  }

  /** `out` holds the file's bytes from `offset` on, for the file made of the first `i` extents. */
  ghost predicate ReadSoFar(view: seq<Block>, ms: seq<Extent>, i: nat, bsize: nat, offset: nat, out: seq<byte>)
    requires bsize > 0 && i <= |ms|
  {
    forall k :: 0 <= k < |out| ==> out[k] == Content(view, Flat(ms[..i]), bsize, offset + k)
  }

  /** Whether an offset lies in the byte range of an extent. */
  lemma InRangeIffCovered(e: Extent, bsize: nat, off: nat)
    requires bsize > 0
    ensures Covers(e, off / bsize) <==> Mul(e.block, bsize) <= off < Mul(e.block + e.Len(), bsize)
  {
    hide Mul;
    hide Quo;
    hide Rem;
    if Mul(e.block, bsize) <= off < Mul(e.block + e.Len(), bsize) {
      CoversOffset(e, bsize, off);
      assert Quo(off, bsize) == off / bsize by { QuoIs(off, bsize); }
    }
    if Covers(e, off / bsize) {
      var q := off / bsize;
      QuoIs(off, bsize);
      Euclid(off, bsize);
      MulOrder(e.block, q, bsize);
      MulOrder(q + 1, e.block + e.Len(), bsize);
      MulAdd(q, 1, bsize);
    }
  }

  lemma QuoIs(x: nat, m: nat)
    requires m > 0
    ensures Quo(x, m) == x / m
  {
  }

  /** Copying the overlap of the next extent into place extends the file by that extent. */
  lemma ReadNext(
    view: seq<Block>, ms: seq<Extent>, i: nat, bsize: nat, offset: nat, out: seq<byte>, lo: nat, hi: nat, s: seq<byte>)
    requires bsize > 0 && i < |ms| && ReadSoFar(view, ms, i, bsize, offset, out)
    requires Overlap(ms[i], bsize, offset, |out|, lo, hi) && |s| == hi - lo
    requires Filled(view, ms[i], bsize, lo, s)
    ensures ReadSoFar(view, ms, i + 1, bsize, offset, Patch(out, lo - offset, s))
  {
    hide Lookup;
    hide Flat;
    var out' := Patch(out, lo - offset, s);
    forall k | 0 <= k < |out'|
      ensures out'[k] == Content(view, Flat(ms[..i + 1]), bsize, offset + k)
    {
      LookupSnoc(ms, i, (offset + k) / bsize);
      if Between(lo, offset + k, hi) {
        assert out'[k] == s[offset + k - lo];
        assert lo + (offset + k - lo) == offset + k;
      } else {
        assert out'[k] == out[k];
      }
    }
  }

  // Counting the bytes copied

  ghost predicate Mapped(ms: seq<Extent>, i: nat, bsize: nat, off: nat) {
    i <= |ms| && bsize > 0 && Lookup(Flat(ms[..i]), off / bsize).Some?
  }

  /** The offsets among the `size` from `offset` on that the first `i` extents cover. */
  ghost function MappedSet(ms: seq<Extent>, i: nat, bsize: nat, offset: nat, size: nat): set<nat> {
    set off: nat | off < offset + size && Between(offset, off, offset + size) && Mapped(ms, i, bsize, off)
  }

  ghost predicate Between(lo: nat, k: nat, hi: nat) {
    lo <= k < hi
  }

  ghost function Interval(lo: nat, hi: nat): set<nat> {
    set k: nat | k < hi && Between(lo, k, hi)
  }

  lemma {:induction false} IntervalSize(lo: nat, hi: nat)
    requires lo <= hi
    ensures |Interval(lo, hi)| == hi - lo
    decreases hi
  {
    if lo < hi {
      IntervalSize(lo, hi - 1);
      assert Interval(lo, hi) == Interval(lo, hi - 1) + {hi - 1};
    } else {
      assert Interval(lo, hi) == {};
    }
  }

  lemma DistinctConcat(a: seq<Pair>, b: seq<Pair>)
    requires Distinct(a + b)
    ensures forall x, y :: x in a && y in b ==> x.0 != y.0
  {
    forall x, y | x in a && y in b
      ensures x.0 != y.0
    {
      var i :| 0 <= i < |a| && a[i] == x;
      var j :| 0 <= j < |b| && b[j] == y;
      assert (a + b)[i] == x && (a + b)[|a| + j] == y;
    }
  }

  /** Extents of a well-formed file do not overlap. */
  lemma NoneCovered(ms: seq<Extent>, i: nat, l: nat)
    requires Distinct(Flat(ms)) && i < |ms| && Covers(ms[i], l)
    ensures Lookup(Flat(ms[..i]), l).None?
  {
    assert ms == ms[..i] + ms[i..];
    FlatConcat(ms[..i], ms[i..]);
    DistinctConcat(Flat(ms[..i]), Flat(ms[i..]));
    assert ms[i..][0] == ms[i];
    FlatMember(ms[i..], (l, ms[i].start + (l - ms[i].block)));
    LookupSound(Flat(ms[..i]), l);
  }

  lemma MappedNext(ms: seq<Extent>, i: nat, bsize: nat, off: nat)
    requires bsize > 0 && i < |ms| && Distinct(Flat(ms))
    ensures Mapped(ms, i + 1, bsize, off) <==> Mapped(ms, i, bsize, off) || Covers(ms[i], off / bsize)
    ensures Mapped(ms, i, bsize, off) ==> !Covers(ms[i], off / bsize)
  {
    LookupSnoc(ms, i, off / bsize);
    if Covers(ms[i], off / bsize) {
      NoneCovered(ms, i, off / bsize);
    }
  }

  /** The overlap of extent `e` with the bytes from `offset` to `offset + size` is lo to hi. */
  ghost predicate Overlap(e: Extent, bsize: nat, offset: nat, size: nat, lo: nat, hi: nat)
    requires bsize > 0
  {
    && offset <= lo <= hi <= offset + size
    && forall off :: offset <= off < offset + size ==> (Between(lo, off, hi) <==> Covers(e, off / bsize))
  }

  /** One more extent adds exactly the positions of its overlap, none of them covered before. */
  lemma MappedSetNext(ms: seq<Extent>, i: nat, bsize: nat, offset: nat, size: nat, lo: nat, hi: nat)
    requires bsize > 0 && i < |ms| && Distinct(Flat(ms)) && Overlap(ms[i], bsize, offset, size, lo, hi)
    ensures |MappedSet(ms, i + 1, bsize, offset, size)| == |MappedSet(ms, i, bsize, offset, size)| + (hi - lo)
  {
    var s, s' := MappedSet(ms, i, bsize, offset, size), MappedSet(ms, i + 1, bsize, offset, size);
    var added := Interval(lo, hi);
    forall off: nat | off < offset + size && Between(offset, off, offset + size)
      ensures Mapped(ms, i + 1, bsize, off) <==> Mapped(ms, i, bsize, off) || Between(lo, off, hi)
      ensures Mapped(ms, i, bsize, off) ==> !Between(lo, off, hi)
    {
      MappedNext(ms, i, bsize, off);
    }
    hide Mapped;
    assert s' == s + added;
    assert s !! added;
    IntervalSize(lo, hi);
  }

  lemma AllMapped(ms: seq<Extent>, i: nat, bsize: nat, offset: nat, size: nat, off: nat)
    requires |MappedSet(ms, i, bsize, offset, size)| >= size && Between(offset, off, offset + size)
    ensures Mapped(ms, i, bsize, off)
  {
    hide Mapped;
    var s, all := MappedSet(ms, i, bsize, offset, size), Interval(offset, offset + size);
    assert s <= all;
    IntervalSize(offset, offset + size);
    FullSubset(s, all);
    assert off in all;
  }

  /** When every position has been copied, the remaining extents do not matter. */
  lemma AllCovered(view: seq<Block>, ms: seq<Extent>, i: nat, bsize: nat, offset: nat, out: seq<byte>)
    requires bsize > 0 && i <= |ms| && Distinct(Flat(ms)) && ReadSoFar(view, ms, i, bsize, offset, out)
    requires |MappedSet(ms, i, bsize, offset, |out|)| >= |out|
    ensures ReadSoFar(view, ms, |ms|, bsize, offset, out)
  {
    hide MappedSet;
    hide Mapped;
    hide Distinct;
    hide Content;
    forall k | 0 <= k < |out|
      ensures out[k] == Content(view, Flat(ms[..|ms|]), bsize, offset + k)
    {
      AllMapped(ms, i, bsize, offset, |out|, offset + k);
      SameByte(view, ms, i, bsize, offset + k);
    }
  }

  lemma SameByte(view: seq<Block>, ms: seq<Extent>, i: nat, bsize: nat, off: nat)
    requires bsize > 0 && i <= |ms| && Distinct(Flat(ms)) && Mapped(ms, i, bsize, off)
    ensures Content(view, Flat(ms[..|ms|]), bsize, off) == Content(view, Flat(ms[..i]), bsize, off)
  {
    hide Lookup;
    hide Flat;
    hide Distinct;
    var l := off / bsize;
    RestIrrelevant(ms, i, l);
  }

  lemma RestIrrelevant(ms: seq<Extent>, i: nat, l: nat)
    requires i <= |ms| && Distinct(Flat(ms)) && Lookup(Flat(ms[..i]), l).Some?
    ensures Lookup(Flat(ms[..|ms|]), l) == Lookup(Flat(ms[..i]), l)
  {
    LookupSound(Flat(ms[..i]), l);
    assert ms == ms[..i] + ms[i..] && ms[..|ms|] == ms;
    FlatConcat(ms[..i], ms[i..]);
    LookupUnique(Flat(ms), l, Lookup(Flat(ms[..i]), l).value);
  }

  lemma FullSubset(s: set<nat>, t: set<nat>)
    requires s <= t && |s| >= |t|
    ensures s == t
  {
    assert t == s + (t - s);
  }

  /** The overlap of an extent's byte range with the bytes asked for. */
  method ClipExtent(e: Extent, bsize: nat, offset: nat, size: nat) returns (lo: nat, hi: nat)
    requires bsize > 0
    ensures Overlap(e, bsize, offset, size, lo, hi)
    ensures lo < hi ==> Mul(e.block, bsize) <= lo && hi <= Mul(e.block + e.Len(), bsize)
  {
    var start, end := Mul(e.block, bsize), Mul(e.block + e.Len(), bsize);
    forall off: nat | offset <= off < offset + size
      ensures Covers(e, off / bsize) <==> start <= off < end
    {
      InRangeIffCovered(e, bsize, off);
    }
    hide Mul;
    if end <= offset || start >= offset + size {
      return offset, offset;
    }
    lo := if offset > start then offset else start;
    hi := if offset + size < end then offset + size else end;
    if hi < lo {
      hi := lo;
    }
  }

  /** The batched path of read_file: `size` bytes from `offset`, zeros where no extent reaches. */
  method ReadExtents(a: Allocator, ms: seq<Extent>, offset: nat, size: nat) returns (out: seq<byte>)
    requires a.Valid() && a.geo.bsize > 0 && Distinct(Flat(ms))
    requires forall i :: 0 <= i < |ms| ==> Readable(a.geo, a.cache.view, ms[i])
    modifies a.cache, a.cache.slots
    ensures a.Valid() && a.cache.view == old(a.cache.view)
    ensures |out| == size
    ensures forall k :: 0 <= k < size ==> out[k] == Content(a.cache.view, Flat(ms), a.geo.bsize, offset + k)
  {
    hide a.Valid;
    hide Readable;
    hide Filled;
    hide Overlap;
    hide MappedSet;
    ghost var view := a.cache.view;
    out := seq(size, _ => 0);
    ReadNothing(view, ms, a.geo.bsize, offset, out);
    hide ReadSoFar;
    var ei, bytesRead := 0, 0;
    while ei < |ms| && bytesRead < size
      invariant a.Valid() && a.cache.view == view && ei <= |ms| && |out| == size
      invariant ReadSoFar(view, ms, ei, a.geo.bsize, offset, out)
      invariant bytesRead == |MappedSet(ms, ei, a.geo.bsize, offset, size)|
    {
      var e := ms[ei];
      var lo, hi := ClipExtent(e, a.geo.bsize, offset, size);
      OverlapBounds(e, a.geo.bsize, offset, size, lo, hi);
      var s: seq<byte> := [];
      FilledNone(view, e, a.geo.bsize, lo);
      if lo < hi {
        s := ReadOverlap(a, e, lo, hi);
      }
      ReadNext(view, ms, ei, a.geo.bsize, offset, out, lo, hi, s);
      MappedSetNext(ms, ei, a.geo.bsize, offset, size, lo, hi);
      out := Patch(out, lo - offset, s);
      bytesRead := bytesRead + (hi - lo);
      ei := ei + 1;
    }
    if ei < |ms| {
      AllCovered(view, ms, ei, a.geo.bsize, offset, out);
    }
    ReadAll(view, ms, a.geo.bsize, offset, out);
  }

  lemma OverlapBounds(e: Extent, bsize: nat, offset: nat, size: nat, lo: nat, hi: nat)
    requires bsize > 0 && Overlap(e, bsize, offset, size, lo, hi)
    ensures offset <= lo <= hi <= offset + size
  {
  }

  lemma ReadNothing(view: seq<Block>, ms: seq<Extent>, bsize: nat, offset: nat, out: seq<byte>)
    requires bsize > 0 && forall k :: 0 <= k < |out| ==> out[k] == 0
    ensures ReadSoFar(view, ms, 0, bsize, offset, out) && MappedSet(ms, 0, bsize, offset, |out|) == {}
  {
    assert Flat(ms[..0]) == [];
  }

  lemma ReadAll(view: seq<Block>, ms: seq<Extent>, bsize: nat, offset: nat, out: seq<byte>)
    requires bsize > 0 && ReadSoFar(view, ms, |ms|, bsize, offset, out)
    ensures forall k :: 0 <= k < |out| ==> out[k] == Content(view, Flat(ms), bsize, offset + k)
  {
    assert ms[..|ms|] == ms;
  }
}
