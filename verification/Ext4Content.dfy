/**
 The bytes of a file, one at a time: what a read at any offset is meant to return. Holes read as
 zero.
 */
module Ext4Content {
  import opened Ext4Layout
  import opened Ext4Allocator
  import opened Ext4Extents
  import opened Ext4Trees
  import opened Ext4Ownership

  function Lookup(ps: seq<Pair>, l: nat): Option<nat> {
    if ps == [] then None
    else if ps[|ps| - 1].0 == l then Some(ps[|ps| - 1].1)
    else Lookup(ps[..|ps| - 1], l)
  }

  lemma LookupAppend(ps: seq<Pair>, l: nat, p: nat, x: nat)
    ensures Lookup(ps + [(l, p)], x) == if x == l then Some(p) else Lookup(ps, x)
  {
    assert (ps + [(l, p)])[..|ps|] == ps;
  }

  lemma {:induction false} LookupSound(ps: seq<Pair>, l: nat)
    ensures Lookup(ps, l).Some? ==> (l, Lookup(ps, l).value) in ps
    ensures Lookup(ps, l).None? ==> forall q :: q in ps ==> q.0 != l
  {
    if ps != [] {
      LookupSound(ps[..|ps| - 1], l);
      assert ps == ps[..|ps| - 1] + [ps[|ps| - 1]];
    }
  }

  lemma LookupUnique(ps: seq<Pair>, l: nat, p: nat)
    requires Distinct(ps) && (l, p) in ps
    ensures Lookup(ps, l) == Some(p)
  {
    LookupSound(ps, l);
    var i :| 0 <= i < |ps| && ps[i] == (l, p);
    var j :| 0 <= j < |ps| && ps[j] == (l, Lookup(ps, l).value);
  }

  ghost function ByteOf(view: seq<Block>, p: nat, k: nat): byte {
    if p < |view| && view[p].Bytes? && k < |view[p].data| then view[p].data[k] else 0
  }

  /** The byte at `off` of a file with the mapping `ps`. */
  ghost function Content(view: seq<Block>, ps: seq<Pair>, bsize: nat, off: nat): byte
    requires bsize > 0
  {
    match Lookup(ps, off / bsize)
    case None => 0
    case Some(p) => ByteOf(view, p, off % bsize)
  }

  /** Blocks that keep their contents give a file the same bytes. */
  lemma ContentFrame(view: seq<Block>, view': seq<Block>, ps: seq<Pair>, bsize: nat, off: nat)
    requires bsize > 0 && Unchanged(view, view', Phys(ps))
    ensures Content(view', ps, bsize, off) == Content(view, ps, bsize, off)
  {
    LookupSound(ps, off / bsize);
  }

  ghost predicate Zeroed(view: seq<Block>, p: nat) {
    p < |view| && view[p].Bytes? && forall k :: 0 <= k < |view[p].data| ==> view[p].data[k] == 0
  }

  /** Mapping a zero-filled block where there was a hole changes no byte. */
  lemma ContentAppend(
    view: seq<Block>, view': seq<Block>, ps: seq<Pair>, l: nat, p: nat, bsize: nat, off: nat)
    requires bsize > 0 && Unchanged(view, view', Phys(ps))
    requires Lookup(ps, l).None? && Zeroed(view', p)
    ensures Content(view', ps + [(l, p)], bsize, off) == Content(view, ps, bsize, off)
  {
    LookupAppend(ps, l, p, off / bsize);
    LookupSound(ps, off / bsize);
  }

  /** `d` with the bytes `src` copied in at position `at`. */
  function Patch(d: seq<byte>, at: nat, src: seq<byte>): seq<byte>
    requires at + |src| <= |d|
  {
    d[..at] + src + d[at + |src|..]
  }

  lemma BlockArith(off: nat, bsize: nat, l: nat)
    requires bsize > 0
    ensures off / bsize == l <==> l * bsize <= off < l * bsize + bsize
    ensures off / bsize == l ==> off % bsize == off - l * bsize
  {
    assert off == (off / bsize) * bsize + off % bsize;
    if l * bsize <= off < l * bsize + bsize {
      DivModUnique(off, bsize, l, off - l * bsize);
    }
  }

  /** Rewriting part of one mapped block changes the bytes there, and no other byte of the file. */
  lemma ContentPatch(view: seq<Block>, ps: seq<Pair>, l: nat, p: nat, at: nat, src: seq<byte>, bsize: nat, off: nat)
    requires bsize > 0 && Distinct(ps) && (l, p) in ps
    requires p < |view| && view[p].Bytes? && |view[p].data| == bsize && at + |src| <= bsize
    ensures var view' := view[p := Bytes(Patch(view[p].data, at, src))];
            var lo := l * bsize + at;
            Content(view', ps, bsize, off) ==
            if lo <= off < lo + |src| then src[off - lo] else Content(view, ps, bsize, off)
  {
    BlockArith(off, bsize, l);
    LookupUnique(ps, l, p);
    LookupSound(ps, off / bsize);
    if off / bsize != l && Lookup(ps, off / bsize).Some? {
      var i :| 0 <= i < |ps| && ps[i] == (l, p);
      var j :| 0 <= j < |ps| && ps[j] == (off / bsize, Lookup(ps, off / bsize).value);
    }
  }

  /** The scan of parsed extents for the one that covers `l`. */
  method Search(ms: seq<Extent>, l: nat) returns (r: Option<nat>)
    requires Distinct(Flat(ms))
    ensures r == Lookup(Flat(ms), l)
  {
    for k := 0 to |ms|
      invariant forall j :: 0 <= j < k ==> !Covers(ms[j], l)
    {
      if ms[k].block <= l && l < ms[k].block + ms[k].Len() {
        var p := ms[k].start + (l - ms[k].block);
        FlatMember(ms, (l, p));
        LookupUnique(Flat(ms), l, p);
        return Some(p);
      }
    }
    LookupSound(Flat(ms), l);
    if Lookup(Flat(ms), l).Some? {
      FlatMember(ms, (l, Lookup(Flat(ms), l).value));
    }
    return None;
  }
}
