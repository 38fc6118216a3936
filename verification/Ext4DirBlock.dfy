/**
 One block of an ext4 directory, byte by byte: records of variable length follow each other, each
 with an inode number, its own length, the length of its name, a file type and the name.
 */
module Ext4DirBlock {
  import opened Ext4Layout

  const HEADER: nat := 8

  type Buf = seq<byte>

  /** The bytes a record needs for a name, rounded up to a multiple of 4. */
  function MinLen(nameLen: nat): (n: nat)
    ensures HEADER + nameLen <= n < HEADER + nameLen + 4 && n % 4 == 0
  {
    (HEADER + nameLen + 3) / 4 * 4
  }

  // Fields

  function U16(b: Buf, o: nat): nat
    requires o + 2 <= |b|
  {
    b[o] as int + 0x100 * b[o + 1] as int
  }

  function U32(b: Buf, o: nat): nat
    requires o + 4 <= |b|
  {
    b[o] as int + 0x100 * b[o + 1] as int + 0x1_0000 * b[o + 2] as int + 0x100_0000 * b[o + 3] as int
  }

  function Low(v: nat): byte {
    v % 0x100
  }

  function Bytes16(v: nat): (b: Buf)
    ensures |b| == 2
  {
    [Low(v), Low(v / 0x100)]
  }

  function Bytes32(v: nat): (b: Buf)
    ensures |b| == 4
  {
    [Low(v), Low(v / 0x100), Low(v / 0x1_0000), Low(v / 0x100_0000)]
  }

  lemma ReadsBack16(v: nat)
    requires v < 0x1_0000
    ensures U16(Bytes16(v), 0) == v
  {
  }

  lemma ReadsBack32(v: nat)
    requires v < 0x1_0000_0000
    ensures U32(Bytes32(v), 0) == v
  {
    var q := v / 0x100;
    var r := q / 0x100;
    assert v / 0x1_0000 == r && v / 0x100_0000 == r / 0x100;
    assert v == Low(v) + 0x100 * q && q == Low(q) + 0x100 * r && r == Low(r) + 0x100 * (r / 0x100);
    assert r / 0x100 < 0x100;
  }

  lemma WritesBack16(b: Buf, o: nat)
    requires o + 2 <= |b|
    ensures U16(b, o) < 0x1_0000 && Bytes16(U16(b, o)) == [b[o], b[o + 1]]
  {
    assert U16(b, o) / 0x100 == b[o + 1];
  }

  function RecLen(b: Buf, o: nat): nat
    requires o + HEADER <= |b|
  {
    U16(b, o + 4)
  }

  function Inode(b: Buf, o: nat): nat
    requires o + HEADER <= |b|
  {
    U32(b, o)
  }

  function NameLen(b: Buf, o: nat): nat
    requires o + HEADER <= |b|
  {
    b[o + 6]
  }

  /** A record that lies within the block and has room for its name. */
  ghost predicate RecOk(b: Buf, o: nat) {
    o + HEADER <= |b| && MinLen(NameLen(b, o)) <= RecLen(b, o) && RecLen(b, o) % 4 == 0 && o + RecLen(b, o) <= |b|
  }

  datatype Entry = Entry(name: Buf, inode: nat, kind: byte)

  /** The entry in a record; a record with inode 0 holds none. */
  ghost function Here(b: Buf, o: nat): seq<Entry>
    requires RecOk(b, o)
  {
    if Inode(b, o) == 0 then []
    else [Entry(b[o + HEADER..o + HEADER + NameLen(b, o)], Inode(b, o), b[o + 7])]
  }

  // The whole block

  /** From `o` on the block is covered by records without gaps. */
  ghost predicate Tiled(b: Buf, o: nat)
    decreases |b| - o
  {
    o == |b| || (RecOk(b, o) && Tiled(b, o + RecLen(b, o)))
  }

  ghost function Entries(b: Buf, o: nat): seq<Entry>
    requires Tiled(b, o)
    decreases |b| - o
  {
    if o == |b| then [] else Here(b, o) + Entries(b, o + RecLen(b, o))
  }

  /** Records lead from `from` to `o`. */
  ghost predicate Reach(b: Buf, from: nat, o: nat)
    decreases o - from
  {
    from == o || (from < o && RecOk(b, from) && from + RecLen(b, from) <= o && Reach(b, from + RecLen(b, from), o))
  }

  /** The entries in front of `o`. */
  ghost function Before(b: Buf, from: nat, o: nat): seq<Entry>
    requires Reach(b, from, o)
    decreases o - from
  {
    if from == o then [] else Here(b, from) + Before(b, from + RecLen(b, from), o)
  }

  lemma RecFits(b: Buf, o: nat)
    requires RecOk(b, o)
    ensures o + HEADER <= o + RecLen(b, o) <= |b|
  {
  }

  lemma {:induction false} Whole(b: Buf, from: nat, o: nat)
    requires Reach(b, from, o) && Tiled(b, o)
    ensures Tiled(b, from) && Entries(b, from) == Before(b, from, o) + Entries(b, o)
    decreases o - from
  {
    hide RecOk;
    hide Here;
    hide RecLen;
    if from < o {
      RecFits(b, from);
      Whole(b, from + RecLen(b, from), o);
    }
  }

  lemma {:induction false} ReachNext(b: Buf, from: nat, o: nat)
    requires Reach(b, from, o) && RecOk(b, o)
    ensures Reach(b, from, o + RecLen(b, o))
    ensures Before(b, from, o + RecLen(b, o)) == Before(b, from, o) + Here(b, o)
    decreases o - from
  {
    hide RecOk;
    hide Here;
    hide RecLen;
    RecFits(b, o);
    if from < o {
      RecFits(b, from);
      ReachNext(b, from + RecLen(b, from), o);
    } else {
      assert Reach(b, o + RecLen(b, o), o + RecLen(b, o));
      assert Before(b, o + RecLen(b, o), o + RecLen(b, o)) == [];
    }
  }

  /** Two blocks have the same bytes from `lo` to `hi`. */
  ghost predicate Same(b: Buf, b': Buf, lo: nat, hi: nat) {
    |b'| == |b| && forall i :: lo <= i < hi && i < |b| ==> b'[i] == b[i]
  }

  lemma RecFrame(b: Buf, b': Buf, o: nat, hi: nat)
    requires RecOk(b, o) && o + RecLen(b, o) <= hi && Same(b, b', o, hi)
    ensures RecOk(b', o) && RecLen(b', o) == RecLen(b, o) && Here(b', o) == Here(b, o)
  {
    assert b'[o..o + RecLen(b, o)] == b[o..o + RecLen(b, o)];
    assert b'[o + HEADER..o + HEADER + NameLen(b, o)] == b[o + HEADER..o + HEADER + NameLen(b, o)];
  }

  lemma {:induction false} TailFrame(b: Buf, b': Buf, o: nat)
    requires Tiled(b, o) && Same(b, b', o, |b|)
    ensures Tiled(b', o) && Entries(b', o) == Entries(b, o)
    decreases |b| - o
  {
    if o < |b| {
      RecFrame(b, b', o, |b|);
      TailFrame(b, b', o + RecLen(b, o));
    }
  }

  lemma {:induction false} FrontFrame(b: Buf, b': Buf, from: nat, o: nat)
    requires Reach(b, from, o) && Same(b, b', from, o)
    ensures Reach(b', from, o) && Before(b', from, o) == Before(b, from, o)
    decreases o - from
  {
    if from < o {
      RecFrame(b, b', from, o);
      FrontFrame(b, b', from + RecLen(b, from), o);
    }
  }

  // Writing records

  /** `b` with a record at `o`: header and name, and nothing behind the name. */
  ghost function PutRec(b: Buf, o: nat, inode: nat, rec: nat, name: Buf, kind: byte): (b': Buf)
    requires o + HEADER + |name| <= |b| && |name| < 0x100
    ensures |b'| == |b|
  {
    b[..o] + Bytes32(inode) + Bytes16(rec) + [|name|, kind] + name + b[o + HEADER + |name|..]
  }

  lemma PutRecFields(b: Buf, o: nat, inode: nat, rec: nat, name: Buf, kind: byte)
    requires o + HEADER + |name| <= |b| && |name| < 0x100 && inode < 0x1_0000_0000 && rec < 0x1_0000
    ensures var b' := PutRec(b, o, inode, rec, name, kind);
            && Inode(b', o) == inode && RecLen(b', o) == rec && NameLen(b', o) == |name| && b'[o + 7] == kind
            && b'[o + HEADER..o + HEADER + |name|] == name
            && Same(b, b', 0, o) && Same(b, b', o + HEADER + |name|, |b|)
  {
    var b' := PutRec(b, o, inode, rec, name, kind);
    var i, r := Bytes32(inode), Bytes16(rec);
    assert b'[o] == i[0] && b'[o + 1] == i[1] && b'[o + 2] == i[2] && b'[o + 3] == i[3];
    assert b'[o + 4] == r[0] && b'[o + 5] == r[1];
    ReadsBack32(inode);
    ReadsBack16(rec);
  }

  /** `b` with the length of the record at `o` replaced. */
  ghost function PutLen(b: Buf, o: nat, rec: nat): (b': Buf)
    requires o + HEADER <= |b|
    ensures |b'| == |b|
  {
    b[o + 4 := Low(rec)][o + 5 := Low(rec / 0x100)]
  }

  lemma PutLenFields(b: Buf, o: nat, rec: nat)
    requires o + HEADER <= |b| && rec < 0x1_0000
    ensures var b' := PutLen(b, o, rec);
            && RecLen(b', o) == rec && Inode(b', o) == Inode(b, o)
            && NameLen(b', o) == NameLen(b, o) && b'[o + 7] == b[o + 7]
            && Same(b, b', 0, o) && Same(b, b', o + HEADER, |b|)
  {
    ReadsBack16(rec);
  }

  /** `b` with the inode number of the record at `o` set to 0. */
  ghost function PutNone(b: Buf, o: nat): (b': Buf)
    requires o + HEADER <= |b|
    ensures |b'| == |b|
  {
    b[o := 0][o + 1 := 0][o + 2 := 0][o + 3 := 0]
  }

  // What a change does to the block

  lemma HereSame(b: Buf, b': Buf, o: nat)
    requires RecOk(b, o) && RecOk(b', o) && |b'| == |b| && Inode(b', o) == Inode(b, o)
    requires NameLen(b', o) == NameLen(b, o)
    requires b'[o + 7] == b[o + 7] && Same(b, b', o + HEADER, o + HEADER + NameLen(b, o))
    ensures Here(b', o) == Here(b, o)
  {
    assert b'[o + HEADER..o + HEADER + NameLen(b, o)] == b[o + HEADER..o + HEADER + NameLen(b, o)];
  }

  /** The record at `o` has this length and holds these entries, at most one. */
  ghost predicate RecAt(b: Buf, o: nat, rec: nat, es: seq<Entry>) {
    RecOk(b, o) && RecLen(b, o) == rec && Here(b, o) == es
  }

  lemma OneRecord(b: Buf, o: nat, rec: nat, es: seq<Entry>)
    requires RecAt(b, o, rec, es)
    ensures Reach(b, o, o + rec) && Before(b, o, o + rec) == es
  {
    assert Reach(b, o, o);
    ReachNext(b, o, o);
  }

  lemma TwoRecords(b: Buf, o: nat, rec: nat, es: seq<Entry>, rec2: nat, es2: seq<Entry>)
    requires RecAt(b, o, rec, es) && RecAt(b, o + rec, rec2, es2)
    ensures Reach(b, o, o + rec + rec2) && Before(b, o, o + rec + rec2) == es + es2
  {
    OneRecord(b, o, rec, es);
    hide RecOk;
    hide Here;
    hide Reach;
    hide Before;
    ReachNext(b, o, o + rec);
  }

  /** The records from `o` to `o2` are replaced, and no other byte. */
  ghost predicate Replaced(b: Buf, b': Buf, o: nat, o2: nat, was: seq<Entry>, now: seq<Entry>) {
    && Same(b, b', 0, o) && Same(b, b', o2, |b|)
    && Reach(b, o, o2) && Before(b, o, o2) == was && Reach(b', o, o2) && Before(b', o, o2) == now
  }

  lemma ReplacedParts(b: Buf, b': Buf, o: nat, o2: nat, was: seq<Entry>, now: seq<Entry>)
    requires Replaced(b, b', o, o2, was, now)
    ensures Same(b, b', 0, o) && Same(b, b', o2, |b|)
    ensures Reach(b, o, o2) && Before(b, o, o2) == was && Reach(b', o, o2) && Before(b', o, o2) == now
  {
  }

  /** What follows for the block: its other entries stay. */
  lemma Replacement(b: Buf, b': Buf, o: nat, o2: nat, was: seq<Entry>, now: seq<Entry>)
    requires Reach(b, 0, o) && o <= o2 && Tiled(b, o2) && Replaced(b, b', o, o2, was, now)
    ensures Tiled(b, 0) && Tiled(b', 0)
    ensures Entries(b, 0) == Before(b, 0, o) + was + Entries(b, o2)
    ensures Entries(b', 0) == Before(b, 0, o) + now + Entries(b, o2)
  {
    hide *;
    ReplacedParts(b, b', o, o2, was, now);
    FrontFrame(b, b', 0, o);
    TailFrame(b, b', o2);
    Whole(b, o, o2);
    Whole(b, 0, o);
    Whole(b', o, o2);
    Whole(b', 0, o);
  }

  /** The block has one more entry, or one less. */
  ghost predicate Gains(b: Buf, b': Buf, e: Entry) {
    Tiled(b, 0) && Tiled(b', 0) && multiset(Entries(b', 0)) == multiset(Entries(b, 0)) + multiset{e}
  }

  /** The new entry stands behind the entries `was` of the records from `o` to `o2`, and all keep their order. */
  ghost predicate Behind(b: Buf, b': Buf, o: nat, o2: nat, was: seq<Entry>, e: Entry) {
    && Reach(b, 0, o) && Tiled(b, o2) && Tiled(b', 0)
    && Entries(b', 0) == Before(b, 0, o) + was + [e] + Entries(b, o2)
  }

  /** Entry `e` goes, and all others keep their order. */
  ghost predicate Drops(b: Buf, b': Buf, e: Entry) {
    && Tiled(b, 0) && Tiled(b', 0)
    && exists i :: 0 <= i < |Entries(b, 0)| && Entries(b, 0)[i] == e
                   && Entries(b', 0) == Entries(b, 0)[..i] + Entries(b, 0)[i + 1..]
  }

  lemma GainsOne(b: Buf, b': Buf, o: nat, o2: nat, was: seq<Entry>, e: Entry)
    requires Reach(b, 0, o) && o <= o2 && Tiled(b, o2) && Replaced(b, b', o, o2, was, was + [e])
    ensures Gains(b, b', e) && Behind(b, b', o, o2, was, e)
  {
    hide RecOk;
    hide Here;
    hide Replaced;
    hide Entries;
    hide Before;
    Replacement(b, b', o, o2, was, was + [e]);
    var front, tail := Before(b, 0, o), Entries(b, o2);
    assert front + (was + [e]) + tail == front + was + [e] + tail;
  }

  lemma LosesOne(b: Buf, b': Buf, o: nat, o2: nat, now: seq<Entry>, e: Entry)
    requires Reach(b, 0, o) && o <= o2 && Tiled(b, o2) && Replaced(b, b', o, o2, now + [e], now)
    ensures Gains(b', b, e) && Drops(b, b', e)
  {
    hide RecOk;
    hide Here;
    hide Replaced;
    hide Entries;
    hide Before;
    Replacement(b, b', o, o2, now + [e], now);
    var front, tail := Before(b, 0, o) + now, Entries(b, o2);
    assert Before(b, 0, o) + (now + [e]) + tail == front + [e] + tail;
    var es := Entries(b, 0);
    assert es[|front|] == e && es[..|front|] == front && es[|front| + 1..] == tail;
  }

  lemma SameTrans(b: Buf, b1: Buf, b2: Buf, lo: nat, hi: nat, lo': nat, hi': nat)
    requires Same(b, b1, lo, hi) && Same(b1, b2, lo', hi')
    ensures forall x: nat, y: nat :: lo <= x && lo' <= x && y <= hi && y <= hi' ==> Same(b, b2, x, y)
    ensures |b2| == |b1| == |b|
  {
  }

  lemma SameSelf(b: Buf)
    ensures Same(b, b, 0, |b|)
  {
  }

  lemma IsReplaced(b: Buf, b': Buf, o: nat, o2: nat, was: seq<Entry>, now: seq<Entry>)
    requires Same(b, b', 0, o) && Same(b, b', o2, |b|)
    requires Reach(b, o, o2) && Before(b, o, o2) == was && Reach(b', o, o2) && Before(b', o, o2) == now
    ensures Replaced(b, b', o, o2, was, now)
  {
  }

  // The four changes

  lemma PutRecAt(b: Buf, o: nat, inode: nat, rec: nat, name: Buf, kind: byte)
    requires o + rec <= |b| && MinLen(|name|) <= rec < 0x1_0000 && rec % 4 == 0 && |name| < 0x100
    requires 0 < inode < 0x1_0000_0000
    ensures var b' := PutRec(b, o, inode, rec, name, kind);
            RecAt(b', o, rec, [Entry(name, inode, kind)]) && Same(b, b', 0, o) && Same(b, b', o + rec, |b|)
  {
    PutRecFields(b, o, inode, rec, name, kind);
  }

  lemma RoomForName(len: nat)
    ensures HEADER + len <= MinLen(len)
  {
  }

  /** An empty record takes the entry. */
  lemma Reused(b: Buf, o: nat, rec: nat, inode: nat, name: Buf, kind: byte)
    requires Reach(b, 0, o) && RecAt(b, o, rec, []) && Tiled(b, o + rec)
    requires 0 < inode < 0x1_0000_0000 && |name| < 0x100 && MinLen(|name|) <= rec
    ensures o + rec <= |b| && Gains(b, PutRec(b, o, inode, rec, name, kind), Entry(name, inode, kind))
    ensures Behind(b, PutRec(b, o, inode, rec, name, kind), o, o + rec, [], Entry(name, inode, kind))
  {
    hide *;
    RecAtFits(b, o, rec, []);
    RoomForName(|name|);
    var b' := PutRec(b, o, inode, rec, name, kind);
    var e := Entry(name, inode, kind);
    PutRecAt(b, o, inode, rec, name, kind);
    OneRecord(b, o, rec, []);
    OneRecord(b', o, rec, [e]);
    assert [] + [e] == [e];
    IsReplaced(b, b', o, o + rec, [], [] + [e]);
    GainsOne(b, b', o, o + rec, [], e);
  }

  lemma ShortenedAt(b: Buf, o: nat, rec: nat, m: nat, es: seq<Entry>)
    requires RecAt(b, o, rec, es) && o + HEADER <= |b| && MinLen(NameLen(b, o)) <= m < 0x1_0000 && m % 4 == 0
    requires o + m <= |b|
    ensures var b' := PutLen(b, o, m); RecAt(b', o, m, es) && Same(b, b', 0, o) && Same(b, b', o + HEADER, |b|)
  {
    PutLenFields(b, o, m);
    HereSame(b, PutLen(b, o, m), o);
  }

  lemma RecAtFrame(b: Buf, b': Buf, o: nat, rec: nat, es: seq<Entry>, hi: nat)
    requires RecAt(b, o, rec, es) && o + rec <= hi && Same(b, b', 0, hi)
    ensures RecAt(b', o, rec, es)
  {
    RecFrame(b, b', o, hi);
  }

  lemma RecAtFits(b: Buf, o: nat, rec: nat, es: seq<Entry>)
    requires RecAt(b, o, rec, es)
    ensures o + HEADER <= o + rec <= |b| && rec < 0x1_0000 && rec % 4 == 0 && MinLen(NameLen(b, o)) <= rec
    ensures RecLen(b, o) == rec
  {
    WritesBack16(b, o + 4);
  }

  /** A record gives what it does not need to a new record behind it. */
  lemma SplitOff(b: Buf, b': Buf, o: nat, rec: nat, es: seq<Entry>, m: nat, inode: nat, name: Buf, kind: byte)
    requires Reach(b, 0, o) && RecAt(b, o, rec, es) && Tiled(b, o + rec)
    requires 0 < inode < 0x1_0000_0000 && |name| < 0x100
    requires o + HEADER <= |b| && m == MinLen(NameLen(b, o)) && MinLen(|name|) <= rec - m && o + rec <= |b|
    requires b' == PutRec(PutLen(b, o, m), o + m, inode, rec - m, name, kind)
    ensures Gains(b, b', Entry(name, inode, kind)) && Behind(b, b', o, o + rec, es, Entry(name, inode, kind))
  {
    hide *;
    HeaderIs();
    var b1 := PutLen(b, o, m);
    var e := Entry(name, inode, kind);
    RecAtFits(b, o, rec, es);
    ShortenedAt(b, o, rec, m, es);
    PutRecAt(b1, o + m, inode, rec - m, name, kind);
    RecAtFrame(b1, b', o, m, es, o + m);
    OneRecord(b, o, rec, es);
    TwoRecords(b', o, m, es, rec - m, [e]);
    assert o + m + (rec - m) == o + rec;
    SameTrans(b, b1, b', 0, o, 0, o + m);
    SameTrans(b, b1, b', o + HEADER, |b|, o + rec, |b|);
    IsReplaced(b, b', o, o + rec, es, es + [e]);
    GainsOne(b, b', o, o + rec, es, e);
  }

  lemma HeaderIs()
    ensures HEADER == 8
  {
  }

  /** The record in front takes over the space of the removed one. */
  lemma Merged(b: Buf, b': Buf, q: nat, rec: nat, es: seq<Entry>, rec2: nat, e: Entry)
    requires Reach(b, 0, q) && RecAt(b, q, rec, es) && RecAt(b, q + rec, rec2, [e]) && Tiled(b, q + rec + rec2)
    requires |b| < 0x1_0000
    requires q + HEADER <= |b| && b' == PutLen(b, q, rec + rec2)
    ensures Gains(b', b, e) && Drops(b, b', e)
  {
    hide *;
    HeaderIs();
    RecAtFits(b, q, rec, es);
    RecAtFits(b, q + rec, rec2, [e]);
    ShortenedAt(b, q, rec, rec + rec2, es);
    OneRecord(b', q, rec + rec2, es);
    TwoRecords(b, q, rec, es, rec2, [e]);
    assert q + (rec + rec2) == q + rec + rec2;
    SameSelf(b);
    SameTrans(b, b, b', 0, |b|, q + HEADER, |b|);
    IsReplaced(b, b', q, q + rec + rec2, es + [e], es);
    LosesOne(b, b', q, q + rec + rec2, es, e);
  }

  /** The first record of the block becomes empty. */
  lemma Emptied(b: Buf, b': Buf, rec: nat, e: Entry)
    requires RecAt(b, 0, rec, [e]) && Tiled(b, rec) && HEADER <= |b| && b' == PutNone(b, 0)
    ensures Gains(b', b, e) && Drops(b, b', e)
  {
    hide *;
    HeaderIs();
    EmptiedAt(b, rec, e);
    OneRecord(b', 0, rec, []);
    OneRecord(b, 0, rec, [e]);
    RecAtFits(b, 0, rec, [e]);
    assert [] + [e] == [e];
    IsReplaced(b, b', 0, rec, [] + [e], []);
    LosesOne(b, b', 0, rec, [], e);
  }

  lemma EmptiedAt(b: Buf, rec: nat, e: Entry)
    requires RecAt(b, 0, rec, [e]) && HEADER <= |b|
    ensures var b' := PutNone(b, 0);
            RecAt(b', 0, rec, []) && Reach(b, 0, 0) && Same(b, b', 0, 0) && Same(b, b', rec, |b|) && |b'| == |b|
  {
  }
}
