/**
 The FATs on the device. A sector is the sequence of its 32-bit words; each of the mirrored FATs
 occupies `fatSize` consecutive sectors.
 */
module FatTables {
  import opened FatChains

  const MASK: nat := 0x10000000

  type Sector = seq<nat>

  /** What the boot sector fixes: words per sector, reserved sectors, FAT copies, sectors per FAT, clusters. */
  datatype Bpb = Bpb(perSector: nat, reserved: nat, tables: nat, fatSize: nat, clusters: nat) {

    ghost predicate Ok() {
      && perSector > 0 && tables >= 1 && clusters + 2 <= BAD
      && clusters + 2 <= fatSize * perSector
    }

    /** The first sector of a FAT copy. */
    function Base(copy: nat): nat {
      reserved + copy * fatSize
    }

    function Row(c: nat): nat
      requires perSector > 0
    {
      c / perSector
    }

    function Col(c: nat): nat
      requires perSector > 0
    {
      c % perSector
    }

    lemma RowInTable(c: nat)
      requires Ok() && c < clusters + 2
      ensures Row(c) < fatSize && Col(c) < perSector
    {
      var q := c / perSector;
      assert c == q * perSector + c % perSector;
      assert q >= fatSize ==> q * perSector >= fatSize * perSector;
    }

    /** The words of a FAT copy stand one behind the other, and the copies follow each other. */
    lemma Place(copy: nat, c: nat)
      requires perSector > 0
      ensures Row(c) * perSector + Col(c) == c && Col(c) < perSector
      ensures Base(0) == reserved && Base(copy + 1) == Base(copy) + fatSize
    {
      assert (copy + 1) * fatSize == copy * fatSize + fatSize;
    }

    lemma RowCol(c: nat, d: nat)
      requires perSector > 0 && Row(c) == Row(d) && Col(c) == Col(d)
      ensures c == d
    {
      assert c == (c / perSector) * perSector + c % perSector;
      assert d == (d / perSector) * perSector + d % perSector;
    }

    lemma BaseBound(copy: nat)
      requires copy < tables
      ensures Base(copy) + fatSize <= Base(tables)
    {
      assert (copy + 1) * fatSize <= tables * fatSize;
      assert (copy + 1) * fatSize == copy * fatSize + fatSize;
    }

    /** Sectors of different copies differ. */
    lemma CopiesApart(copy: nat, r: nat, copy': nat, r': nat)
      requires r < fatSize && r' < fatSize && copy != copy'
      ensures Base(copy) + r != Base(copy') + r'
    {
      if copy < copy' {
        assert (copy + 1) * fatSize <= copy' * fatSize;
        assert (copy + 1) * fatSize == copy * fatSize + fatSize;
      } else {
        assert (copy' + 1) * fatSize <= copy * fatSize;
        assert (copy' + 1) * fatSize == copy' * fatSize + fatSize;
      }
    }
  }

  type Device = seq<Sector>

  ghost predicate Layout(bpb: Bpb, device: Device) {
    && bpb.Ok() && bpb.Base(bpb.tables) <= |device|
    && forall s :: 0 <= s < |device| ==> |device[s]| == bpb.perSector
  }

  /** The word of cluster `c` in one FAT copy. */
  ghost function Word(bpb: Bpb, device: Device, copy: nat, c: nat): nat
    requires Layout(bpb, device) && copy < bpb.tables && c < bpb.clusters + 2
  {
    bpb.RowInTable(c);
    bpb.BaseBound(copy);
    device[bpb.Base(copy) + bpb.Row(c)][bpb.Col(c)]
  }

  /** One FAT copy as the driver reads it: the low 28 bits of each entry. */
  ghost function Table(bpb: Bpb, device: Device, copy: nat): (fat: Fat)
    requires Layout(bpb, device) && copy < bpb.tables
    ensures |fat| == bpb.clusters + 2
  {
    seq(bpb.clusters + 2, c requires 0 <= c < bpb.clusters + 2 => Word(bpb, device, copy, c) % MASK)
  }

  /** `device` with one word of one copy replaced. */
  ghost function Put(bpb: Bpb, device: Device, copy: nat, c: nat, v: nat): (device': Device)
    requires Layout(bpb, device) && copy < bpb.tables && c < bpb.clusters + 2
    ensures Layout(bpb, device') && |device'| == |device|
  {
    bpb.RowInTable(c);
    bpb.BaseBound(copy);
    var s := bpb.Base(copy) + bpb.Row(c);
    var row: Sector := device[s][bpb.Col(c) := v];
    device[s := row]
  }

  lemma PutWord(bpb: Bpb, device: Device, copy: nat, c: nat, v: nat, copy': nat, c': nat)
    requires Layout(bpb, device) && copy < bpb.tables && c < bpb.clusters + 2
    requires copy' < bpb.tables && c' < bpb.clusters + 2
    ensures Word(bpb, Put(bpb, device, copy, c, v), copy', c') ==
            if copy' == copy && c' == c then v else Word(bpb, device, copy', c')
  {
    bpb.RowInTable(c);
    bpb.RowInTable(c');
    bpb.BaseBound(copy);
    bpb.BaseBound(copy');
    if copy' != copy {
      bpb.CopiesApart(copy, bpb.Row(c), copy', bpb.Row(c'));
    } else if c' != c && bpb.Row(c) == bpb.Row(c') && bpb.Col(c) == bpb.Col(c') {
      bpb.RowCol(c, c');
    }
  }

  /** Replacing one word changes one entry of one table. */
  lemma PutTable(bpb: Bpb, device: Device, copy: nat, c: nat, v: nat, copy': nat)
    requires Layout(bpb, device) && copy < bpb.tables && c < bpb.clusters + 2 && copy' < bpb.tables && v < MASK
    ensures Table(bpb, Put(bpb, device, copy, c, v), copy') ==
            if copy' == copy then Table(bpb, device, copy)[c := v] else Table(bpb, device, copy')
  {
    forall c' | 0 <= c' < bpb.clusters + 2
      ensures Word(bpb, Put(bpb, device, copy, c, v), copy', c') ==
              if copy' == copy && c' == c then v else Word(bpb, device, copy', c')
    {
      PutWord(bpb, device, copy, c, v, copy', c');
    }
  }

  /** The word replaced in the first `n` copies. */
  ghost function PutCopies(bpb: Bpb, device: Device, c: nat, v: nat, n: nat): (device': Device)
    requires Layout(bpb, device) && n <= bpb.tables && c < bpb.clusters + 2
    ensures Layout(bpb, device') && |device'| == |device|
  {
    if n == 0 then device else Put(bpb, PutCopies(bpb, device, c, v, n - 1), n - 1, c, v)
  }

  lemma {:induction false} PutCopiesTable(bpb: Bpb, device: Device, c: nat, v: nat, n: nat, copy: nat)
    requires Layout(bpb, device) && n <= bpb.tables && c < bpb.clusters + 2 && copy < bpb.tables && v < MASK
    ensures Table(bpb, PutCopies(bpb, device, c, v, n), copy) ==
            if copy < n then Table(bpb, device, copy)[c := v] else Table(bpb, device, copy)
  {
    hide Layout;
    hide Table;
    hide Put;
    if n > 0 {
      PutCopiesTable(bpb, device, c, v, n - 1, copy);
      PutTable(bpb, PutCopies(bpb, device, c, v, n - 1), n - 1, c, v, copy);
    }
  }

  predicate ValidEntry(bpb: Bpb, v: nat) {
    v == FREE || v >= EOC || (2 <= v < bpb.clusters + 2 && v != BAD)
  }

  /** Every entry of the first FAT is free, an end mark or a cluster. */
  ghost predicate ValidEntries(bpb: Bpb, device: Device)
    requires Layout(bpb, device)
  {
    forall c :: 2 <= c < bpb.clusters + 2 ==> ValidEntry(bpb, Table(bpb, device, 0)[c])
  }

  /** The entries are valid and all copies agree. */
  ghost predicate Mirrored(bpb: Bpb, device: Device)
    requires Layout(bpb, device)
  {
    && (forall copy :: 0 <= copy < bpb.tables ==> Table(bpb, device, copy) == Table(bpb, device, 0))
    && ValidEntries(bpb, device)
  }

  lemma PutAllMirrored(bpb: Bpb, device: Device, c: nat, v: nat)
    requires Layout(bpb, device) && Mirrored(bpb, device) && 2 <= c < bpb.clusters + 2
    requires v < MASK && ValidEntry(bpb, v)
    ensures Mirrored(bpb, PutCopies(bpb, device, c, v, bpb.tables))
    ensures Table(bpb, PutCopies(bpb, device, c, v, bpb.tables), 0) == Table(bpb, device, 0)[c := v]
  {
    forall copy | 0 <= copy < bpb.tables
      ensures Table(bpb, PutCopies(bpb, device, c, v, bpb.tables), copy) == Table(bpb, device, 0)[c := v]
    {
      PutCopiesTable(bpb, device, c, v, bpb.tables, copy);
    }
  }

  // Clearing a whole chain

  ghost predicate InTable(bpb: Bpb, s: seq<nat>) {
    forall k :: 0 <= k < |s| ==> s[k] < bpb.clusters + 2
  }

  /** The words of the clusters of `s` cleared in one copy. */
  ghost function Clear(bpb: Bpb, device: Device, copy: nat, s: seq<nat>): (device': Device)
    requires Layout(bpb, device) && copy < bpb.tables && InTable(bpb, s)
    ensures Layout(bpb, device') && |device'| == |device|
  {
    if s == [] then device
    else
      assert s[|s| - 1] < bpb.clusters + 2;
      Put(bpb, Clear(bpb, device, copy, s[..|s| - 1]), copy, s[|s| - 1], FREE)
  }

  lemma {:induction false} ClearTable(bpb: Bpb, device: Device, copy: nat, s: seq<nat>, copy': nat)
    requires Layout(bpb, device) && copy < bpb.tables && InTable(bpb, s) && copy' < bpb.tables
    ensures Table(bpb, Clear(bpb, device, copy, s), copy') ==
            if copy' == copy then Freed(Table(bpb, device, copy), s) else Table(bpb, device, copy')
  {
    hide Layout;
    hide Table;
    hide Put;
    if s == [] {
      assert Freed(Table(bpb, device, copy), s) == Table(bpb, device, copy);
    } else {
      var t, c := s[..|s| - 1], s[|s| - 1];
      assert s == t + [c];
      ClearTable(bpb, device, copy, t, copy');
      PutTable(bpb, Clear(bpb, device, copy, t), copy, c, FREE, copy');
      FreedSnoc(Table(bpb, device, copy), t, c);
    }
  }

  /** The words of the clusters of `s` cleared in the first `n` copies. */
  ghost function ClearCopies(bpb: Bpb, device: Device, s: seq<nat>, n: nat): (device': Device)
    requires Layout(bpb, device) && n <= bpb.tables && InTable(bpb, s)
    ensures Layout(bpb, device') && |device'| == |device|
  {
    if n == 0 then device else Clear(bpb, ClearCopies(bpb, device, s, n - 1), n - 1, s)
  }

  lemma {:induction false} ClearCopiesTable(bpb: Bpb, device: Device, s: seq<nat>, n: nat, copy: nat)
    requires Layout(bpb, device) && n <= bpb.tables && InTable(bpb, s) && copy < bpb.tables
    ensures Table(bpb, ClearCopies(bpb, device, s, n), copy) ==
            if copy < n then Freed(Table(bpb, device, copy), s) else Table(bpb, device, copy)
  {
    hide Layout;
    hide Table;
    hide Clear;
    if n > 0 {
      ClearCopiesTable(bpb, device, s, n - 1, copy);
      ClearTable(bpb, ClearCopies(bpb, device, s, n - 1), n - 1, s, copy);
    }
  }

  lemma ClearCopiesMirrored(bpb: Bpb, device: Device, s: seq<nat>)
    requires Layout(bpb, device) && Mirrored(bpb, device) && InTable(bpb, s)
    ensures Mirrored(bpb, ClearCopies(bpb, device, s, bpb.tables))
    ensures Table(bpb, ClearCopies(bpb, device, s, bpb.tables), 0) == Freed(Table(bpb, device, 0), s)
  {
    hide Layout;
    hide Table;
    hide Clear;
    forall copy | 0 <= copy < bpb.tables
      ensures Table(bpb, ClearCopies(bpb, device, s, bpb.tables), copy) == Freed(Table(bpb, device, 0), s)
    {
      ClearCopiesTable(bpb, device, s, bpb.tables, copy);
    }
    SomeTable(bpb, device);
  }

  lemma SomeTable(bpb: Bpb, device: Device)
    requires Layout(bpb, device)
    ensures bpb.tables >= 1
  {
  }

  lemma PutOutside(bpb: Bpb, device: Device, copy: nat, c: nat, v: nat, t: nat)
    requires Layout(bpb, device) && copy < bpb.tables && c < bpb.clusters + 2
    requires t < |device| && !(bpb.Base(0) <= t < bpb.Base(bpb.tables))
    ensures Put(bpb, device, copy, c, v)[t] == device[t]
  {
    bpb.RowInTable(c);
    bpb.BaseBound(copy);
    assert bpb.Base(0) <= bpb.Base(copy);
  }

  /** Nothing outside the FATs changes. */
  lemma {:induction false} ClearOutside(bpb: Bpb, device: Device, copy: nat, s: seq<nat>, t: nat)
    requires Layout(bpb, device) && copy < bpb.tables && InTable(bpb, s)
    requires t < |device| && !(bpb.Base(0) <= t < bpb.Base(bpb.tables))
    ensures Clear(bpb, device, copy, s)[t] == device[t]
  {
    hide Put;
    hide Layout;
    if s != [] {
      ClearOutside(bpb, device, copy, s[..|s| - 1], t);
      PutOutside(bpb, Clear(bpb, device, copy, s[..|s| - 1]), copy, s[|s| - 1], FREE, t);
    }
  }

  lemma {:induction false} ClearCopiesOutside(bpb: Bpb, device: Device, s: seq<nat>, n: nat, t: nat)
    requires Layout(bpb, device) && n <= bpb.tables && InTable(bpb, s)
    requires t < |device| && !(bpb.Base(0) <= t < bpb.Base(bpb.tables))
    ensures ClearCopies(bpb, device, s, n)[t] == device[t]
  {
    hide Clear;
    hide Layout;
    if n > 0 {
      ClearCopiesOutside(bpb, device, s, n - 1, t);
      ClearOutside(bpb, ClearCopies(bpb, device, s, n - 1), n - 1, s, t);
    }
  }

  /** Sectors outside the FATs are the same on both devices. */
  ghost predicate SameOutside(bpb: Bpb, before: Device, after: Device) {
    && |after| == |before|
    && forall t :: 0 <= t < |after| && !(bpb.Base(0) <= t < bpb.Base(bpb.tables)) ==> after[t] == before[t]
  }

  lemma SameOutsideSelf(bpb: Bpb, device: Device)
    ensures SameOutside(bpb, device, device)
  {
  }

  lemma ClearedOutside(bpb: Bpb, device: Device, s: seq<nat>, n: nat)
    requires Layout(bpb, device) && n <= bpb.tables && InTable(bpb, s)
    ensures SameOutside(bpb, device, ClearCopies(bpb, device, s, n))
  {
    forall t | 0 <= t < |device| && !(bpb.Base(0) <= t < bpb.Base(bpb.tables))
      ensures ClearCopies(bpb, device, s, n)[t] == device[t]
    {
      ClearCopiesOutside(bpb, device, s, n, t);
    }
  }

  // A batch of sectors held in a buffer

  /** `device` with the sectors from `cur` on replaced by the buffer. */
  ghost function Overlay(device: Device, cur: nat, buf: Device): Device
    requires cur + |buf| <= |device|
  {
    device[..cur] + buf + device[cur + |buf|..]
  }

  lemma OverlayLoaded(device: Device, cur: nat, end: nat)
    requires cur <= end <= |device|
    ensures Overlay(device, cur, device[cur..end]) == device
  {
  }

  /** Clearing a word in the buffer is clearing it on the device the buffer stands for. */
  lemma OverlayPut(bpb: Bpb, device: Device, cur: nat, buf: Device, copy: nat, c: nat, row: Sector)
    requires cur + |buf| <= |device| && Layout(bpb, Overlay(device, cur, buf))
    requires copy < bpb.tables && c < bpb.clusters + 2
    requires cur <= bpb.Base(copy) + bpb.Row(c) < cur + |buf|
    requires bpb.Col(c) < |buf[bpb.Base(copy) + bpb.Row(c) - cur]|
    requires row == buf[bpb.Base(copy) + bpb.Row(c) - cur][bpb.Col(c) := FREE]
    ensures Put(bpb, Overlay(device, cur, buf), copy, c, FREE) ==
            Overlay(device, cur, buf[bpb.Base(copy) + bpb.Row(c) - cur := row])
  {
    var s := bpb.Base(copy) + bpb.Row(c);
    assert Overlay(device, cur, buf)[s] == buf[s - cur];
  }
}
