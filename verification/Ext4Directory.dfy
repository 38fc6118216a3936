/**
 ext4 directories: entries are added in the slack of a block or in a block of their own, found by
 name, and removed by giving their space to the record in front.
 */
module Ext4Directory {
  import opened Ext4Layout
  import opened Ext4DirBlock

  // Bytes in a buffer

  /** `b` with `data` written at `o`. */
  ghost function Over(b: Buf, o: nat, data: Buf): (b': Buf)
    requires o + |data| <= |b|
    ensures |b'| == |b|
  {
    b[..o] + data + b[o + |data|..]
  }

  method CopyBytes(buf: array<byte>, o: nat, data: Buf)
    requires o + |data| <= buf.Length
    modifies buf
    ensures buf[..] == Over(old(buf[..]), o, data)
  {
    for i := 0 to |data|
      invariant forall k :: 0 <= k < buf.Length ==> buf[k] == if o <= k < o + i then data[k - o] else old(buf[k])
    {
      buf[o + i] := data[i];
    }
  }

  lemma OverAt(b: Buf, o: nat, data: Buf, i: nat)
    requires o + |data| <= |b| && i < |b|
    ensures Over(b, o, data)[i] == if o <= i < o + |data| then data[i - o] else b[i]
  {
  }

  lemma PutRecAtByte(b: Buf, o: nat, inode: nat, rec: nat, name: Buf, kind: byte, i: nat)
    requires o + HEADER + |name| <= |b| && |name| < 0x100 && i < |b|
    ensures PutRec(b, o, inode, rec, name, kind)[i] ==
            if o <= i < o + 4 then Bytes32(inode)[i - o]
            else if o + 4 <= i < o + 6 then Bytes16(rec)[i - o - 4]
            else if o + 6 <= i < o + 8 then [|name|, kind][i - o - 6]
            else if o + 8 <= i < o + 8 + |name| then name[i - o - 8]
            else b[i]
  {
    hide Bytes32;
    hide Bytes16;
  }

  lemma RecordBytes(b: Buf, o: nat, inode: nat, rec: nat, name: Buf, kind: byte)
    requires o + HEADER + |name| <= |b| && |name| < 0x100
    ensures PutRec(b, o, inode, rec, name, kind) ==
            Over(Over(Over(Over(b, o, Bytes32(inode)), o + 4, Bytes16(rec)), o + 6, [|name|, kind]), o + HEADER, name)
  {
    hide Over;
    hide PutRec;
    hide Bytes32;
    hide Bytes16;
    var b1 := Over(b, o, Bytes32(inode));
    var b2 := Over(b1, o + 4, Bytes16(rec));
    var b3 := Over(b2, o + 6, [|name|, kind]);
    forall i | 0 <= i < |b|
      ensures PutRec(b, o, inode, rec, name, kind)[i] == Over(b3, o + HEADER, name)[i]
    {
      OverAt(b, o, Bytes32(inode), i);
      OverAt(b1, o + 4, Bytes16(rec), i);
      OverAt(b2, o + 6, [|name|, kind], i);
      OverAt(b3, o + HEADER, name, i);
      PutRecAtByte(b, o, inode, rec, name, kind, i);
    }
  }

  method WriteRecord(buf: array<byte>, o: nat, inode: nat, rec: nat, name: Buf, kind: byte)
    requires o + HEADER + |name| <= buf.Length && |name| < 0x100
    modifies buf
    ensures buf[..] == PutRec(old(buf[..]), o, inode, rec, name, kind)
  {
    hide Over;
    hide PutRec;
    RecordBytes(buf[..], o, inode, rec, name, kind);
    CopyBytes(buf, o, Bytes32(inode));
    CopyBytes(buf, o + 4, Bytes16(rec));
    CopyBytes(buf, o + 6, [|name|, kind]);
    CopyBytes(buf, o + HEADER, name);
  }

  lemma SameLength(b: Buf, o: nat, inode: nat)
    requires o + HEADER <= |b|
    ensures Over(Over(b, o, Bytes32(inode)), o + 4, Bytes16(RecLen(b, o))) == Over(b, o, Bytes32(inode))
  {
    WritesBack16(b, o + 4);
  }

  /** An empty record is filled in; its length stays. */
  method RefillRecord(buf: array<byte>, o: nat, inode: nat, name: Buf, kind: byte)
    requires o + HEADER + |name| <= buf.Length && |name| < 0x100
    modifies buf
    ensures buf[..] == PutRec(old(buf[..]), o, inode, RecLen(old(buf[..]), o), name, kind)
  {
    hide Over;
    hide PutRec;
    ghost var b := buf[..];
    RecordBytes(b, o, inode, RecLen(b, o), name, kind);
    SameLength(b, o, inode);
    CopyBytes(buf, o, Bytes32(inode));
    CopyBytes(buf, o + 6, [|name|, kind]);
    CopyBytes(buf, o + HEADER, name);
  }

  method SetLen(buf: array<byte>, o: nat, rec: nat)
    requires o + HEADER <= buf.Length
    modifies buf
    ensures buf[..] == PutLen(old(buf[..]), o, rec)
  {
    buf[o + 4] := Low(rec);
    buf[o + 5] := Low(rec / 0x100);
  }

  method ClearInode(buf: array<byte>, o: nat)
    requires o + HEADER <= buf.Length
    modifies buf
    ensures buf[..] == PutNone(old(buf[..]), o)
  {
    buf[o], buf[o + 1], buf[o + 2], buf[o + 3] := 0, 0, 0, 0;
  }

  // One block

  ghost predicate Named(es: seq<Entry>, name: Buf) {
    exists i :: 0 <= i < |es| && es[i].name == name
  }

  /** The scan of a block stands at a record: what is in front of it is done. */
  ghost predicate At(b: Buf, o: nat) {
    Tiled(b, 0) && Reach(b, 0, o) && Tiled(b, o)
  }

  lemma Start(b: Buf)
    requires Tiled(b, 0)
    ensures At(b, 0) && Before(b, 0, 0) == []
  {
  }

  lemma ThisRecord(b: Buf, o: nat)
    requires At(b, o) && o + HEADER <= |b|
    ensures o < |b| && RecAt(b, o, RecLen(b, o), Here(b, o)) && RecLen(b, o) >= HEADER && Tiled(b, o + RecLen(b, o))
    ensures At(b, o + RecLen(b, o)) && o + RecLen(b, o) <= |b|
    ensures Before(b, 0, o + RecLen(b, o)) == Before(b, 0, o) + Here(b, o)
    ensures MinLen(NameLen(b, o)) <= RecLen(b, o)
  {
    ReachNext(b, 0, o);
  }

  lemma AtEnd(b: Buf, o: nat)
    requires At(b, o) && o + HEADER > |b|
    ensures o == |b| && Entries(b, 0) == Before(b, 0, o)
  {
    Whole(b, 0, o);
  }

  /** Whether the record at `o` is in use under a name. */
  method Matches(buf: array<byte>, o: nat, name: Buf) returns (yes: bool)
    requires RecOk(buf[..], o)
    ensures yes <==> Named(Here(buf[..], o), name)
  {
    ghost var b := buf[..];
    var len := buf[o + 6];
    RecFits(b, o);
    if U32(buf[..], o) == 0 || len as int != |name| {
      yes := false;
    } else {
      yes := buf[o + HEADER..o + HEADER + |name|] == name;
      assert b[o + HEADER..o + HEADER + |name|] == buf[o + HEADER..o + HEADER + |name|];
    }
    assert Inode(b, o) != 0 ==> Here(b, o)[0].name == b[o + HEADER..o + HEADER + NameLen(b, o)];
  }

  lemma NamedConcat(a: seq<Entry>, b: seq<Entry>, name: Buf)
    ensures Named(a + b, name) <==> Named(a, name) || Named(b, name)
  {
    var c := a + b;
    if i :| 0 <= i < |a| && a[i].name == name {
      assert c[i].name == name;
    }
    if i :| 0 <= i < |b| && b[i].name == name {
      assert c[|a| + i].name == name;
    }
    if i :| 0 <= i < |c| && c[i].name == name {
      assert i < |a| ==> a[i].name == name;
      assert i >= |a| ==> b[i - |a|].name == name;
    }
  }

  lemma HereNamed(b: Buf, o: nat, name: Buf)
    requires RecOk(b, o) && Named(Here(b, o), name)
    ensures Inode(b, o) != 0 && Here(b, o) == [Entry(name, Inode(b, o), b[o + 7])]
  {
  }

  /** What is found at a record is among the entries of the block. */
  lemma FoundHere(b: Buf, o: nat, e: Entry)
    requires At(b, o) && o + HEADER <= |b| && RecOk(b, o) && Here(b, o) == [e]
    ensures e in Entries(b, 0)
  {
    hide RecOk;
    hide Here;
    RecFits(b, o);
    Whole(b, 0, o);
    assert Entries(b, o) == Here(b, o) + Entries(b, o + RecLen(b, o));
    assert Entries(b, o)[0] == e;
    assert Entries(b, 0)[|Before(b, 0, o)|] == e;
  }

  method FindInBlock(buf: array<byte>, name: Buf) returns (inode: nat, ghost e: Entry)
    requires Tiled(buf[..], 0)
    ensures inode == 0 <==> !Named(Entries(buf[..], 0), name)
    ensures inode != 0 ==> e in Entries(buf[..], 0) && e.name == name && e.inode == inode
  {
    hide Tiled;
    hide Entries;
    hide At;
    hide RecAt;
    hide Here;
    hide Before;
    e := Entry([], 0, 0);
    var o := 0;
    ghost var b := buf[..];
    Start(b);
    while o + HEADER <= buf.Length
      invariant At(b, o) && o <= |b| && Reach(b, 0, o) && !Named(Before(b, 0, o), name)
      decreases |b| - o
    {
      ThisRecord(b, o);
      RecordOk(b, o, RecLen(b, o), Here(b, o));
      NamedConcat(Before(b, 0, o), Here(b, o), name);
      var yes := Matches(buf, o, name);
      if yes {
        HereNamed(b, o, name);
        inode := U32(buf[..], o);
        e := Entry(name, inode, b[o + 7]);
        FoundHere(b, o, e);
        InNamed(Entries(b, 0), e);
        return;
      }
      o := o + RecLen(buf[..], o);
      AtReach(b, o);
    }
    AtEnd(b, o);
    inode := 0;
  }

  lemma RecordOk(b: Buf, o: nat, rec: nat, es: seq<Entry>)
    requires RecAt(b, o, rec, es)
    ensures RecOk(b, o)
  {
  }

  lemma AtReach(b: Buf, o: nat)
    requires At(b, o)
    ensures Reach(b, 0, o) && Tiled(b, 0)
  {
  }

  lemma OtherName(es: seq<Entry>, e: Entry, name: Buf)
    requires e in es && !Named(es, name)
    ensures e.name != name
  {
  }

  lemma InNamed(es: seq<Entry>, e: Entry)
    requires e in es
    ensures Named(es, e.name)
  {
  }

  /** Whether a record can take an entry that needs `needed` bytes. */
  ghost predicate Roomy(b: Buf, o: nat, needed: nat)
    requires RecOk(b, o)
  {
    if Inode(b, o) == 0 then RecLen(b, o) >= needed else RecLen(b, o) - MinLen(NameLen(b, o)) >= needed
  }

  /** No record from `from` to `o` is roomy. */
  ghost predicate Tight(b: Buf, from: nat, o: nat, needed: nat)
    requires Reach(b, from, o)
    decreases o - from
  {
    from == o || (!Roomy(b, from, needed) && Tight(b, from + RecLen(b, from), o, needed))
  }

  lemma {:induction false} TightNext(b: Buf, from: nat, o: nat, needed: nat)
    requires Reach(b, from, o) && RecOk(b, o) && !Roomy(b, o, needed) && Tight(b, from, o, needed)
    ensures Reach(b, from, o + RecLen(b, o)) && Tight(b, from, o + RecLen(b, o), needed)
    decreases o - from
  {
    hide RecOk;
    hide Roomy;
    hide RecLen;
    RecFits(b, o);
    ReachNext(b, from, o);
    if from < o {
      RecFits(b, from);
      TightNext(b, from + RecLen(b, from), o, needed);
    } else {
      assert Reach(b, o + RecLen(b, o), o + RecLen(b, o));
    }
  }

  /** No record of the block is roomy. */
  ghost predicate NoRoom(b: Buf, needed: nat) {
    Reach(b, 0, |b|) && Tight(b, 0, |b|, needed)
  }

  /** A roomy record on the way is not passed over. */
  lemma {:induction false} RoomyFound(b: Buf, from: nat, o: nat, end: nat, needed: nat)
    requires Reach(b, from, o) && Reach(b, from, end) && o < end && RecOk(b, o) && Roomy(b, o, needed)
    ensures !Tight(b, from, end, needed)
    decreases o - from
  {
    hide RecOk;
    hide Roomy;
    hide RecLen;
    if from < o {
      RecFits(b, from);
      RoomyFound(b, from + RecLen(b, from), o, end, needed);
    }
  }

  lemma HasRoom(b: Buf, o: nat, needed: nat)
    requires Reach(b, 0, o) && RecOk(b, o) && Roomy(b, o, needed)
    ensures !NoRoom(b, needed)
  {
    hide Roomy;
    if Reach(b, 0, |b|) {
      RoomyFound(b, 0, o, |b|, needed);
    }
  }

  lemma TightStart(b: Buf, needed: nat)
    ensures Reach(b, 0, 0) && Tight(b, 0, 0, needed)
  {
  }

  /** The entry goes into the record at `o`. */
  method AddAt(buf: array<byte>, o: nat, inode: nat, name: Buf, kind: byte)
    requires At(buf[..], o) && o + HEADER <= buf.Length && RecOk(buf[..], o) && Roomy(buf[..], o, MinLen(|name|))
    requires 0 < inode < 0x1_0000_0000 && |name| < 0x100
    modifies buf
    ensures Gains(old(buf[..]), buf[..], Entry(name, inode, kind))
    ensures var b := old(buf[..]); Behind(b, buf[..], o, o + RecLen(b, o), Here(b, o), Entry(name, inode, kind))
  {
    hide RecAt;
    hide Gains;
    hide Behind;
    hide PutRec;
    hide PutLen;
    hide MinLen;
    hide At;
    hide Tiled;
    hide Reach;
    ghost var b := buf[..];
    ThisRecord(b, o);
    AtReach(b, o);
    RoomForName(|name|);
    var rec, m := RecLen(buf[..], o), MinLen(NameLen(buf[..], o));
    RoomForName(NameLen(b, o));
    if Inode(buf[..], o) == 0 {
      Reused(b, o, rec, inode, name, kind);
      RefillRecord(buf, o, inode, name, kind);
    } else {
      ghost var b' := PutRec(PutLen(b, o, m), o + m, inode, rec - m, name, kind);
      SplitOff(b, b', o, rec, Here(b, o), m, inode, name, kind);
      SetLen(buf, o, m);
      WriteRecord(buf, o + m, inode, rec - m, name, kind);
    }
  }

  /** The first record with room, at `o`, takes the entry. */
  method AddToBlock(buf: array<byte>, inode: nat, name: Buf, kind: byte) returns (ok: bool, ghost o: nat)
    requires Tiled(buf[..], 0) && 0 < inode < 0x1_0000_0000 && |name| < 0x100
    modifies buf
    ensures Reach(old(buf[..]), 0, o) && Tight(old(buf[..]), 0, o, MinLen(|name|))
    ensures ok ==> RecOk(old(buf[..]), o) && Roomy(old(buf[..]), o, MinLen(|name|))
    ensures ok ==> Gains(old(buf[..]), buf[..], Entry(name, inode, kind))
    ensures ok ==> var b := old(buf[..]);
                   Behind(b, buf[..], o, o + RecLen(b, o), Here(b, o), Entry(name, inode, kind))
    ensures !ok ==> buf[..] == old(buf[..]) && o == buf.Length
    ensures ok <==> !NoRoom(old(buf[..]), MinLen(|name|))
  {
    hide Tiled;
    hide Entries;
    hide At;
    hide RecAt;
    hide Here;
    hide Before;
    hide Tight;
    hide Gains;
    hide Behind;
    hide Reach;
    var needed := MinLen(|name|);
    var at := 0;
    o := 0;
    ghost var b := buf[..];
    Start(b);
    TightStart(b, needed);
    while at + HEADER <= buf.Length
      invariant buf[..] == b && o == at <= |b| && At(b, at) && Reach(b, 0, at) && Tight(b, 0, at, needed)
      decreases |b| - at
    {
      ThisRecord(b, at);
      RecordOk(b, at, RecLen(b, at), Here(b, at));
      var rec := RecLen(buf[..], at);
      var slack := rec - MinLen(NameLen(buf[..], at));
      var unused := Inode(buf[..], at) == 0;
      if (unused && rec >= needed) || (!unused && slack >= needed) {
        HasRoom(b, at, needed);
        AddAt(buf, at, inode, name, kind);
        return true, at;
      }
      TightNext(b, 0, at, needed);
      at := at + rec;
      o := at;
      AtReach(b, at);
    }
    AtEnd(b, o);
    ok := false;
  }

  /** The record at `o` goes: its space to the record in front, or, if it is the first, it becomes empty. */
  method RemoveAt(buf: array<byte>, prev: int, o: nat, ghost e: Entry)
    requires At(buf[..], o) && o + HEADER <= buf.Length < 0x1_0000 && RecOk(buf[..], o) && Here(buf[..], o) == [e]
    requires prev < 0 ==> o == 0
    requires prev >= 0 ==> At(buf[..], prev) && prev + HEADER <= buf.Length && prev + RecLen(buf[..], prev) == o
    modifies buf
    ensures Gains(buf[..], old(buf[..]), e) && Drops(old(buf[..]), buf[..], e)
  {
    hide RecAt;
    hide Drops;
    hide Gains;
    hide PutLen;
    hide PutNone;
    hide At;
    hide Tiled;
    hide Reach;
    hide Here;
    ghost var b := buf[..];
    ThisRecord(b, o);
    if prev >= 0 {
      ThisRecord(b, prev);
      AtReach(b, prev);
      var rec, rec2 := RecLen(buf[..], prev), RecLen(buf[..], o);
      Merged(b, PutLen(b, prev, rec + rec2), prev, rec, Here(b, prev), rec2, e);
      SetLen(buf, prev, rec + rec2);
    } else {
      Emptied(b, PutNone(b, 0), RecLen(b, 0), e);
      ClearInode(buf, o);
    }
  }

  method RemoveFromBlock(buf: array<byte>, name: Buf) returns (ok: bool, ghost e: Entry)
    requires Tiled(buf[..], 0) && buf.Length < 0x1_0000
    modifies buf
    ensures ok <==> Named(Entries(old(buf[..]), 0), name)
    ensures ok ==> e.name == name && Gains(buf[..], old(buf[..]), e) && Drops(old(buf[..]), buf[..], e)
    ensures !ok ==> buf[..] == old(buf[..])
  {
    hide Tiled;
    hide Entries;
    hide At;
    hide RecAt;
    hide Here;
    hide Before;
    hide Drops;
    hide Gains;
    hide Reach;
    e := Entry([], 0, 0);
    var o, prev: int := 0, -1;
    ghost var b := buf[..];
    Start(b);
    while o + HEADER <= buf.Length
      invariant buf[..] == b && At(b, o) && o <= |b| && Reach(b, 0, o) && !Named(Before(b, 0, o), name)
      invariant prev < 0 ==> o == 0
      invariant prev >= 0 ==> At(b, prev) && prev + HEADER <= |b| && prev + RecLen(b, prev) == o
      decreases |b| - o
    {
      ThisRecord(b, o);
      RecordOk(b, o, RecLen(b, o), Here(b, o));
      NamedConcat(Before(b, 0, o), Here(b, o), name);
      var yes := Matches(buf, o, name);
      if yes {
        HereNamed(b, o, name);
        e := Entry(name, Inode(b, o), b[o + 7]);
        FoundHere(b, o, e);
        InNamed(Entries(b, 0), e);
        RemoveAt(buf, prev, o, e);
        return true, e;
      }
      prev := o;
      o := o + RecLen(buf[..], o);
      AtReach(b, o);
    }
    AtEnd(b, o);
    ok := false;
  }

  // A directory

  /** The entries of all blocks. */
  ghost function Total(blocks: seq<Buf>): multiset<Entry>
    requires forall i :: 0 <= i < |blocks| ==> Tiled(blocks[i], 0)
  {
    if blocks == [] then multiset{}
    else
      assert Tiled(blocks[|blocks| - 1], 0);
      Total(blocks[..|blocks| - 1]) + multiset(Entries(blocks[|blocks| - 1], 0))
  }

  ghost predicate AllTiled(blocks: seq<Buf>) {
    forall i :: 0 <= i < |blocks| ==> Tiled(blocks[i], 0)
  }

  /** A change in one block is a change in the total. */
  lemma {:induction false} TotalSet(blocks: seq<Buf>, i: nat, b: Buf)
    requires AllTiled(blocks) && i < |blocks| && Tiled(b, 0)
    ensures AllTiled(blocks[i := b])
    ensures Total(blocks[i := b]) + multiset(Entries(blocks[i], 0)) == Total(blocks) + multiset(Entries(b, 0))
  {
    hide Tiled;
    hide Entries;
    var n, now := |blocks| - 1, blocks[i := b];
    var last, gone := multiset(Entries(blocks[n], 0)), multiset(Entries(blocks[i], 0));
    if i < n {
      TotalSet(blocks[..n], i, b);
      assert now[..n] == blocks[..n][i := b];
      assert Total(now) == Total(now[..n]) + last;
      assert Total(now) + gone == (Total(now[..n]) + gone) + last;
    } else {
      assert now[..n] == blocks[..n];
      assert Total(now) == Total(blocks[..n]) + multiset(Entries(b, 0));
    }
  }

  lemma {:induction false} TotalMember(blocks: seq<Buf>, i: nat, e: Entry)
    requires AllTiled(blocks) && i < |blocks| && e in Entries(blocks[i], 0)
    ensures e in Total(blocks)
  {
    hide Tiled;
    hide Entries;
    var n := |blocks| - 1;
    if i < n {
      TotalMember(blocks[..n], i, e);
    }
  }

  lemma {:induction false} TotalFrom(blocks: seq<Buf>, e: Entry) returns (i: nat)
    requires AllTiled(blocks) && e in Total(blocks)
    ensures i < |blocks| && e in Entries(blocks[i], 0)
  {
    hide Tiled;
    hide Entries;
    var n := |blocks| - 1;
    if e in Entries(blocks[n], 0) {
      i := n;
    } else {
      i := TotalFrom(blocks[..n], e);
    }
  }

  lemma TotalGains(blocks: seq<Buf>, i: nat, b: Buf, e: Entry)
    requires AllTiled(blocks) && i < |blocks| && Gains(blocks[i], b, e)
    ensures AllTiled(blocks[i := b]) && Total(blocks[i := b]) == Total(blocks) + multiset{e}
  {
    hide Tiled;
    hide Entries;
    TotalSet(blocks, i, b);
    var t, t', es := Total(blocks), Total(blocks[i := b]), multiset(Entries(blocks[i], 0));
    assert t' + es == (t + multiset{e}) + es;
    Cancel(t', t + multiset{e}, es);
  }

  lemma TotalLoses(blocks: seq<Buf>, i: nat, b: Buf, e: Entry)
    requires AllTiled(blocks) && i < |blocks| && Gains(b, blocks[i], e)
    ensures AllTiled(blocks[i := b]) && Total(blocks) == Total(blocks[i := b]) + multiset{e}
  {
    hide Tiled;
    hide Entries;
    TotalSet(blocks, i, b);
    var t, t', es := Total(blocks), Total(blocks[i := b]), multiset(Entries(b, 0));
    assert t + es == (t' + multiset{e}) + es;
    Cancel(t, t' + multiset{e}, es);
  }

  lemma Cancel(a: multiset<Entry>, b: multiset<Entry>, c: multiset<Entry>)
    requires a + c == b + c
    ensures a == b
  {
    assert a == (a + c) - c && b == (b + c) - c;
  }

  ghost predicate HasName(es: multiset<Entry>, name: Buf) {
    exists e :: e in es && e.name == name
  }

  /** No two entries have the same name. */
  ghost predicate Unique(es: multiset<Entry>) {
    && (forall e :: e in es ==> es[e] == 1)
    && (forall e, f :: e in es && f in es && e.name == f.name ==> e == f)
  }

  /** Adding an entry keeps names unique just when there is none of that name. */
  lemma UniqueAdd(es: multiset<Entry>, e: Entry)
    requires Unique(es)
    ensures Unique(es + multiset{e}) <==> !HasName(es, e.name)
  {
    var more := es + multiset{e};
    if HasName(es, e.name) {
      var f :| f in es && f.name == e.name;
      assert f in more && e in more;
      assert f == e ==> more[e] == 2;
    }
  }

  lemma UniqueRemove(es: multiset<Entry>, e: Entry)
    requires Unique(es + multiset{e})
    ensures Unique(es) && !HasName(es, e.name)
  {
    var more := es + multiset{e};
    assert e in more;
    forall f | f in es
      ensures es[f] == 1 && f.name != e.name
    {
      assert f in more && more[f] == 1;
    }
    assert forall f, g :: f in es && g in es ==> f in more && g in more;
  }

  /** The first record of the block with room takes the entry. */
  ghost predicate Placed(b: Buf, b': Buf, needed: nat, e: Entry) {
    exists o :: PlacedAt(b, b', needed, e, o)
  }

  ghost predicate PlacedAt(b: Buf, b': Buf, needed: nat, e: Entry, o: nat) {
    && Reach(b, 0, o) && Tight(b, 0, o, needed) && RecOk(b, o) && Roomy(b, o, needed)
    && Behind(b, b', o, o + RecLen(b, o), Here(b, o), e)
  }

  /** The first block with room takes the entry, and no other block changes. */
  ghost predicate PutFirst(blocks: seq<Buf>, blocks': seq<Buf>, needed: nat, e: Entry) {
    && |blocks'| == |blocks|
    && exists l :: 0 <= l < |blocks| && AllFull(blocks[..l], needed) && blocks' == blocks[l := blocks'[l]]
                   && Placed(blocks[l], blocks'[l], needed, e)
  }

  /** The first block with the name loses an entry, and no other block changes. */
  ghost predicate DroppedFirst(blocks: seq<Buf>, blocks': seq<Buf>, e: Entry) {
    && AllTiled(blocks) && |blocks'| == |blocks|
    && exists l :: 0 <= l < |blocks| && NoneNamed(blocks[..l], e.name) && blocks' == blocks[l := blocks'[l]]
                   && Drops(blocks[l], blocks'[l], e)
  }

  ghost predicate NoneNamed(blocks: seq<Buf>, name: Buf)
    requires AllTiled(blocks)
  {
    forall j :: 0 <= j < |blocks| ==> !Named(Entries(blocks[j], 0), name)
  }

  ghost predicate AllFull(blocks: seq<Buf>, needed: nat) {
    forall j :: 0 <= j < |blocks| ==> NoRoom(blocks[j], needed)
  }

  // Listing

  /** EXT4_MAX_DIR_ENTRIES: a listing has no more entries. */
  const MAX_LISTED: nat := 256

  function Capped(es: seq<Entry>): (r: seq<Entry>)
    ensures |r| <= MAX_LISTED && r <= es
  {
    if |es| <= MAX_LISTED then es else es[..MAX_LISTED]
  }

  lemma CappedConcat(a: seq<Entry>, b: seq<Entry>)
    ensures Capped(Capped(a) + b) == Capped(a + b)
    ensures |Capped(a)| == MAX_LISTED ==> Capped(a + b) == Capped(a)
  {
  }

  /** The entries of all blocks, in the order in which they stand. */
  ghost function Listed(blocks: seq<Buf>): seq<Entry>
    requires AllTiled(blocks)
  {
    if blocks == [] then []
    else
      assert Tiled(blocks[|blocks| - 1], 0);
      Listed(blocks[..|blocks| - 1]) + Entries(blocks[|blocks| - 1], 0)
  }

  lemma {:induction false} ListedTotal(blocks: seq<Buf>)
    requires AllTiled(blocks)
    ensures multiset(Listed(blocks)) == Total(blocks)
  {
    hide Tiled;
    hide Entries;
    if blocks != [] {
      ListedTotal(blocks[..|blocks| - 1]);
    }
  }

  lemma {:induction false} ListedPrefix(blocks: seq<Buf>, i: nat)
    requires AllTiled(blocks) && i <= |blocks|
    ensures AllTiled(blocks[..i]) && Listed(blocks[..i]) <= Listed(blocks)
    decreases |blocks| - i
  {
    hide Tiled;
    hide Entries;
    if i < |blocks| {
      ListedPrefix(blocks, i + 1);
      assert blocks[..i + 1][..i] == blocks[..i];
    } else {
      assert blocks[..i] == blocks;
    }
  }

  /** One block more in a listing. */
  lemma ListedStep(blocks: seq<Buf>, l: nat)
    requires AllTiled(blocks) && l < |blocks|
    ensures AllTiled(blocks[..l]) && AllTiled(blocks[..l + 1])
    ensures Capped(Capped(Listed(blocks[..l])) + Entries(blocks[l], 0)) == Capped(Listed(blocks[..l + 1]))
    ensures |Capped(Listed(blocks[..l]))| == MAX_LISTED ==> Capped(Listed(blocks[..l])) == Capped(Listed(blocks))
  {
    hide Tiled;
    hide Entries;
    hide Capped;
    assert blocks[..l + 1][..l] == blocks[..l];
    CappedConcat(Listed(blocks[..l]), Entries(blocks[l], 0));
    ListedPrefix(blocks, l);
    if |Capped(Listed(blocks[..l]))| == MAX_LISTED {
      CappedPrefix(Listed(blocks[..l]), Listed(blocks));
    }
  }

  lemma CappedPrefix(a: seq<Entry>, b: seq<Entry>)
    requires a <= b && |Capped(a)| == MAX_LISTED
    ensures Capped(b) == Capped(a)
  {
  }

  lemma FrontOf(b: Buf, o: nat)
    requires At(b, o)
    ensures Before(b, 0, o) <= Entries(b, 0)
  {
    Whole(b, 0, o);
  }

  lemma UsedHere(b: Buf, o: nat)
    requires RecOk(b, o)
    ensures o + HEADER + NameLen(b, o) <= |b|
    ensures Here(b, o) == if Inode(b, o) == 0 then []
                          else [Entry(b[o + HEADER..o + HEADER + NameLen(b, o)], Inode(b, o), b[o + 7])]
  {
    RoomForName(NameLen(b, o));
  }

  /** The part of read_directory for one block: entries are added until the listing is full. */
  method ListBlock(buf: array<byte>, acc: seq<Entry>) returns (es: seq<Entry>)
    requires Tiled(buf[..], 0) && |acc| <= MAX_LISTED
    ensures es == Capped(acc + Entries(buf[..], 0))
  {
    hide Tiled;
    hide Entries;
    hide At;
    hide RecAt;
    hide Here;
    hide Before;
    hide Capped;
    var o := 0;
    ghost var b := buf[..];
    es := acc;
    Start(b);
    CappedSmall(acc);
    assert acc + [] == acc;
    while o + HEADER <= buf.Length && |es| < MAX_LISTED
      invariant At(b, o) && o <= |b| && Reach(b, 0, o) && es == Capped(acc + Before(b, 0, o))
      decreases |b| - o
    {
      ThisRecord(b, o);
      RecordOk(b, o, RecLen(b, o), Here(b, o));
      UsedHere(b, o);
      ghost var seen := acc + Before(b, 0, o);
      CappedConcat(seen, Here(b, o));
      CappedSmall(es + Here(b, o));
      assert seen + Here(b, o) == acc + (Before(b, 0, o) + Here(b, o));
      if Inode(buf[..], o) != 0 {
        var len := NameLen(buf[..], o);
        es := es + [Entry(buf[o + HEADER..o + HEADER + len], Inode(buf[..], o), buf[o + 7])];
      }
      o := o + RecLen(buf[..], o);
      AtReach(b, o);
    }
    FrontOf(b, o);
    if o + HEADER > buf.Length {
      AtEnd(b, o);
    } else {
      CappedPrefix(acc + Before(b, 0, o), acc + Entries(b, 0));
    }
  }

  lemma CappedSmall(es: seq<Entry>)
    ensures |es| <= MAX_LISTED ==> Capped(es) == es
  {
  }

  lemma NameFits(len: nat)
    requires len < 0x100
    ensures HEADER + len <= MinLen(len) <= MinLen(0xFF)
  {
  }

  /** A block with one record that covers it. */
  method NewBlock(size: nat, name: Buf, inode: nat, kind: byte) returns (b: Buf)
    requires MinLen(0xFF) <= size < 0x1_0000 && size % 4 == 0 && 0 < inode < 0x1_0000_0000 && |name| < 0x100
    ensures |b| == size && Tiled(b, 0) && Entries(b, 0) == [Entry(name, inode, kind)]
  {
    var buf := new byte[size](_ => 0);
    ghost var zero := buf[..];
    NameFits(|name|);
    PutRecAt(zero, 0, inode, size, name, kind);
    WriteRecord(buf, 0, inode, size, name, kind);
    b := buf[..];
    SoleRecord(b, Entry(name, inode, kind));
  }

  lemma NotInTotal(blocks: seq<Buf>, name: Buf)
    requires AllTiled(blocks) && forall j :: 0 <= j < |blocks| ==> !Named(Entries(blocks[j], 0), name)
    ensures !HasName(Total(blocks), name)
  {
    hide Tiled;
    hide Entries;
    forall e | e in Total(blocks)
      ensures e.name != name
    {
      var i := TotalFrom(blocks, e);
      OtherName(Entries(blocks[i], 0), e, name);
    }
  }

  /** A hole in a directory: no entry and no room. */
  lemma Hole(needed: nat)
    ensures Tiled([], 0) && Entries([], 0) == [] && NoRoom([], needed)
  {
  }

  lemma SoleRecord(b: Buf, e: Entry)
    requires RecAt(b, 0, |b|, [e])
    ensures Tiled(b, 0) && Entries(b, 0) == [e]
  {
    assert Tiled(b, |b|) && Entries(b, |b|) == [];
  }

  lemma AppendTotal(blocks: seq<Buf>, b: Buf, e: Entry)
    requires AllTiled(blocks) && Tiled(b, 0) && Entries(b, 0) == [e]
    ensures AllTiled(blocks + [b]) && Total(blocks + [b]) == Total(blocks) + multiset{e}
  {
    hide Tiled;
    hide Entries;
    assert (blocks + [b])[..|blocks|] == blocks;
  }
}
