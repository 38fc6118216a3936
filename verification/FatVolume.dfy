/**
 The FAT32 driver's cluster bookkeeping: a sector cache that is written through and invalidated,
 mirrored FATs, chain walks and chain freeing in batches of sectors, and the count of free clusters.
 */
module FatVolume {
  import opened FatChains
  import opened FatTables
  import KlibSort
  import opened Pigeonhole

  const UNKNOWN: nat := 0xFFFFFFFF
  const BATCH: nat := 128

  datatype CacheSlot = CacheSlot(sector: nat, data: Sector, lastUsed: nat, valid: bool)

  class Volume {
    const bpb: Bpb
    var device: Device
    const cache: array<CacheSlot>
    var accessCounter: nat
    var freeCount: nat
    var nextFree: nat

    /** Every valid cache slot holds what the device holds. */
    ghost predicate CacheOk()
      reads `device, cache
    {
      && cache.Length >= 1
      && forall i :: 0 <= i < cache.Length && cache[i].valid ==>
           cache[i].sector < |device| && cache[i].data == device[cache[i].sector]
    }

    /** What reading the first FAT relies on. */
    ghost predicate Readable()
      reads `device, cache
    {
      Layout(bpb, device) && ValidEntries(bpb, device) && CacheOk()
    }

    ghost predicate Valid()
      reads `device, cache
    {
      Layout(bpb, device) && Mirrored(bpb, device) && CacheOk()
    }

    /** The FAT as every copy has it. */
    ghost function F(): Fat
      requires Layout(bpb, device)
      reads `device
    {
      Table(bpb, device, 0)
    }

    /** A known free count is the number of free clusters. */
    ghost predicate Counted()
      requires Layout(bpb, device)
      reads `device, `freeCount
    {
      freeCount == UNKNOWN || freeCount == CountFree(F(), |F()|)
    }

    constructor (bpb: Bpb, device: Device, slots: nat, freeCount: nat, nextFree: nat)
      requires Layout(bpb, device) && Mirrored(bpb, device) && slots >= 1
      ensures Valid() && fresh(cache) && this.bpb == bpb && this.device == device
      ensures this.freeCount == freeCount && this.nextFree == nextFree
    {
      this.bpb, this.device, this.freeCount, this.nextFree := bpb, device, freeCount, nextFree;
      accessCounter := 0;
      cache := new CacheSlot[slots](_ => CacheSlot(0, [], 0, false));
    }

    lemma Small()
      requires Layout(bpb, device)
      ensures |F()| == bpb.clusters + 2 <= BAD && bpb.tables >= 1
    {
    }

    lemma Facts()
      requires Valid()
      ensures Layout(bpb, device) && Readable()
    {
    }

    /** A successor is a cluster. */
    lemma ValidNext()
      requires Valid()
      ensures Layout(bpb, device)
      ensures forall c: nat :: IsCluster(F(), c) ==> Next(F(), c) == 0 || IsCluster(F(), Next(F(), c))
    {
      forall c: nat | IsCluster(F(), c)
        ensures Next(F(), c) == 0 || IsCluster(F(), Next(F(), c))
      {
        assert ValidEntry(bpb, Table(bpb, device, 0)[c]);
      }
    }

    lemma ReadableFacts()
      requires Readable()
      ensures Layout(bpb, device)
    {
    }

    lemma Range(c: nat)
      requires Layout(bpb, device)
      ensures IsCluster(F(), c) <==> 2 <= c < bpb.clusters + 2
    {
    }

    lemma CountedIfUnknown()
      requires Valid()
      ensures freeCount == UNKNOWN ==> Counted()
    {
    }

    // The sector cache

    /** Slot `r` is empty, or none is and it has the smallest use stamp. */
    ghost predicate Oldest(r: nat)
      reads cache
    {
      && r < cache.Length
      && (cache[r].valid ==>
            forall k :: 0 <= k < cache.Length ==> cache[k].valid && cache[r].lastUsed <= cache[k].lastUsed)
    }

    /** The slot to fill: an empty one, or else the one with the smallest use stamp. */
    method ReplaceIndex() returns (r: nat)
      requires cache.Length >= 1
      ensures Oldest(r)
    {
      r := 0;
      var oldest := if cache[0].valid then cache[0].lastUsed else 0;
      for i := 0 to cache.Length
        invariant r < cache.Length && (i > 0 ==> oldest == cache[r].lastUsed)
        invariant i == 0 ==> r == 0 && (cache[0].valid ==> oldest == cache[0].lastUsed)
        invariant forall k :: 0 <= k < i ==> cache[k].valid && oldest <= cache[k].lastUsed
      {
        if !cache[i].valid {
          return i;
        }
        if cache[i].lastUsed < oldest {
          oldest, r := cache[i].lastUsed, i;
        }
      }
    }

    /** The sector is read from slot `r`, which gets a new use stamp; on a miss that is the oldest slot. */
    method ReadFatSector(s: nat) returns (data: Sector, ghost r: nat)
      requires CacheOk() && s < |device|
      modifies `accessCounter, cache
      ensures CacheOk() && data == device[s]
      ensures r < cache.Length && accessCounter == (old(accessCounter) + 1) % 0x1_0000_0000
      ensures cache[r] == CacheSlot(s, device[s], accessCounter, true)
      ensures forall k :: 0 <= k < cache.Length && k != r ==> cache[k] == old(cache[k])
      ensures || (old(cache[r]).valid && old(cache[r]).sector == s)
              || (&& old(Oldest(r))
                  && forall k :: 0 <= k < cache.Length && old(cache[k]).valid ==> old(cache[k]).sector != s)
    {
      accessCounter := (accessCounter + 1) % 0x1_0000_0000;
      for i := 0 to cache.Length
        invariant CacheOk() && forall k :: 0 <= k < cache.Length ==> cache[k] == old(cache[k])
        invariant forall k :: 0 <= k < i && cache[k].valid ==> cache[k].sector != s
      {
        if cache[i].valid && cache[i].sector == s {
          cache[i] := cache[i].(lastUsed := accessCounter);
          return cache[i].data, i;
        }
      }
      data := device[s];
      var slot := ReplaceIndex();
      r := slot;
      cache[slot] := CacheSlot(s, data, accessCounter, true);
    }

    /** The cache may be wrong about the sectors from `lo` to `hi`, which have been written. */
    ghost predicate CacheOkBut(lo: nat, hi: nat)
      reads `device, cache
    {
      && cache.Length >= 1
      && forall i :: 0 <= i < cache.Length && cache[i].valid ==>
           lo <= cache[i].sector < hi || (cache[i].sector < |device| && cache[i].data == device[cache[i].sector])
    }

    method InvalidateSector(s: nat, ghost hi: nat)
      requires CacheOkBut(s, hi)
      modifies cache
      ensures CacheOkBut(s + 1, hi)
    {
      for i := 0 to cache.Length
        invariant CacheOkBut(s, hi)
        invariant forall k :: 0 <= k < i && cache[k].valid ==> cache[k].sector != s
      {
        if cache[i].valid && cache[i].sector == s {
          cache[i] := cache[i].(valid := false);
        }
      }
    }

    // Entries

    method GetFatEntry(c: nat) returns (e: nat)
      requires Readable()
      modifies `accessCounter, cache
      ensures Readable() && (old(Valid()) ==> Valid())
      ensures e == if IsCluster(F(), c) then F()[c] else END_MARK
    {
      if c < 2 || c >= bpb.clusters + 2 {
        return END_MARK;
      }
      bpb.RowInTable(c);
      bpb.BaseBound(0);
      var data, _ := ReadFatSector(bpb.Base(0) + bpb.Row(c));
      e := data[bpb.Col(c)] % MASK;
      assert e == Word(bpb, device, 0, c) % MASK;
      assert ValidEntry(bpb, F()[c]);
    }

    method NextCluster(c: nat) returns (r: nat)
      requires Readable()
      modifies `accessCounter, cache
      ensures Readable() && (old(Valid()) ==> Valid()) && r == Next(F(), c)
    {
      hide Layout;
      hide ValidEntries;
      hide CacheOk;
      hide Mirrored;
      hide Table;
      ReadableFacts();
      Small();
      if c < 2 || c >= bpb.clusters + 2 {
        return 0;
      }
      var next := GetFatEntry(c);
      if next >= EOC {
        return 0;
      }
      if next == 0 || next == 1 {
        return 0;
      }
      if next == BAD {
        return 0;
      }
      return next;
    }

    /** One copy of an entry: read the sector, replace the word, write it back, drop it from the cache. */
    method WriteFatEntryRaw(copy: nat, c: nat, v: nat)
      requires Layout(bpb, device) && CacheOk() && copy < bpb.tables && c < bpb.clusters + 2
      modifies `device, cache
      ensures Layout(bpb, device) && CacheOk()
      ensures device == Put(bpb, old(device), copy, c, v)
    {
      bpb.RowInTable(c);
      bpb.BaseBound(copy);
      var s := bpb.Base(copy) + bpb.Row(c);
      var row: Sector := device[s][bpb.Col(c) := v];
      device := device[s := row];
      InvalidateSector(s, s + 1);
    }

    method WriteCopies(c: nat, v: nat)
      requires Layout(bpb, device) && CacheOk() && c < bpb.clusters + 2
      modifies `device, cache
      ensures Layout(bpb, device) && CacheOk()
      ensures device == PutCopies(bpb, old(device), c, v, bpb.tables)
    {
      hide Layout;
      hide CacheOk;
      hide Put;
      for copy := 0 to bpb.tables
        invariant Layout(bpb, device) && CacheOk()
        invariant device == PutCopies(bpb, old(device), c, v, copy)
      {
        WriteFatEntryRaw(copy, c, v);
      }
    }

    /** Writes an entry in every FAT copy and keeps a known free count right. */
    method WriteFatEntry(c: nat, value: nat)
      requires Valid() && 2 <= c < bpb.clusters + 2 && ValidEntry(bpb, value % MASK)
      modifies `device, `accessCounter, `freeCount, cache
      ensures Valid() && device == PutCopies(bpb, old(device), c, value % MASK, bpb.tables)
      ensures F() == old(F())[c := value % MASK]
      ensures old(Counted()) ==> Counted()
    {
      hide Layout;
      hide Mirrored;
      hide Table;
      hide CacheOk;
      hide PutCopies;
      hide CountFree;
      Small();
      Facts();
      var v := value % MASK;
      var was := GetFatEntry(c);
      PutAllMirrored(bpb, device, c, v);
      CountFreeSet(F(), c, v, |F()|);
      WriteCopies(c, v);
      if freeCount != UNKNOWN {
        if was == 0 && v != 0 {
          freeCount := (freeCount - 1) % 0x1_0000_0000;
        } else if was != 0 && v == 0 {
          freeCount := (freeCount + 1) % 0x1_0000_0000;
        }
      }
      CountFreeBound(F(), |F()|);
    }

    // Loop detection

    /** Floyd's tortoise and hare. */
    method HasFatLoop(start: nat) returns (loop: bool)
      requires Readable()
      modifies `accessCounter, cache
      ensures Readable() && (old(Valid()) ==> Valid()) && (loop <==> NeverEnds(F(), start))
    {
      hide Layout;
      hide Mirrored;
      hide ValidEntries;
      hide Table;
      hide CacheOk;
      ghost var fat := F();
      ghost var t := SomeRoundDecides(fat, start);
      var tortoise, hare := start, start;
      ghost var k := 0;
      while true
        invariant Readable() && (old(Valid()) ==> Valid()) && F() == fat && k < t
        invariant tortoise == Walk(fat, start, k) && hare == Walk(fat, start, 2 * k)
        decreases t - k
      {
        tortoise := NextCluster(tortoise);
        k := k + 1;
        if tortoise == 0 {
          assert Walk(fat, start, k) == 0;
          return false;
        }
        hare := NextCluster(hare);
        assert hare == Walk(fat, start, 2 * k - 1);
        if hare == 0 {
          return false;
        }
        hare := NextCluster(hare);
        assert hare == Walk(fat, start, 2 * k);
        if hare == 0 {
          return false;
        }
        if tortoise == hare {
          MeetingLoops(fat, start, k);
          return true;
        }
      }
    }

    // Allocation

    method FindFreeCluster() returns (r: nat)
      requires Readable()
      modifies `accessCounter, `nextFree, cache
      ensures Readable() && (old(Valid()) ==> Valid())
      ensures r != 0 ==> IsCluster(F(), r) && F()[r] == FREE && nextFree == r + 1
      ensures r == 0 ==> nextFree == old(nextFree)
      ensures r == Pick(F(), old(nextFree))
    {
      hide Layout;
      hide Mirrored;
      hide ValidEntries;
      hide Table;
      hide CacheOk;
      if bpb.clusters < 2 {
        return 0;
      }
      ghost var fat := F();
      var start := if nextFree >= 2 && nextFree < bpb.clusters + 2 then nextFree else 2;
      for c := start to bpb.clusters + 2
        invariant Readable() && (old(Valid()) ==> Valid()) && F() == fat && nextFree == old(nextFree)
        invariant FirstFree(fat, start, |fat|) == FirstFree(fat, c, |fat|)
      {
        var e := GetFatEntry(c);
        if e == 0 {
          nextFree := c + 1;
          return c;
        }
      }
      for c := 2 to start
        invariant Readable() && (old(Valid()) ==> Valid()) && F() == fat && nextFree == old(nextFree)
        invariant FirstFree(fat, start, |fat|) == 0 && FirstFree(fat, 2, start) == FirstFree(fat, c, start)
      {
        var e := GetFatEntry(c);
        if e == 0 {
          nextFree := c + 1;
          return c;
        }
      }
      r := 0;
    }

    // Chains, read in batches

    /** The batch buffer holds the sectors from `cur` on, up to a batch or the end of the first FAT. */
    ghost predicate BatchOk(cur: nat, buf: Device)
      reads `device
    {
      cur == UNKNOWN ||
      (&& cur + |buf| <= |device| && buf == device[cur..cur + |buf|]
       && |buf| == BatchLen(cur, bpb.reserved + bpb.fatSize))
    }

    /** The batch that holds sector `s` of the first FAT, loaded unless the buffer holds it already. */
    method LoadBatch(s: nat, cur: nat, buf: Device) returns (cur': nat, buf': Device)
      requires BatchOk(cur, buf) && bpb.reserved <= s < bpb.reserved + bpb.fatSize <= |device|
      ensures BatchOk(cur', buf') && cur' <= s < cur' + |buf'| && buf'[s - cur'] == device[s]
    {
      var batchStart := s / BATCH * BATCH;
      cur', buf' := cur, buf;
      if batchStart != cur {
        buf' := device[batchStart..batchStart + BatchLen(batchStart, bpb.reserved + bpb.fatSize)];
        cur' := batchStart;
      }
    }

    lemma EntryAt(c: nat)
      requires Layout(bpb, device) && c < bpb.clusters + 2
      ensures bpb.perSector > 0 && bpb.reserved + bpb.Row(c) < bpb.reserved + bpb.fatSize <= |device|
      ensures bpb.Col(c) < |device[bpb.reserved + bpb.Row(c)]|
      ensures F()[c] == device[bpb.reserved + bpb.Row(c)][bpb.Col(c)] % MASK
    {
      bpb.RowInTable(c);
      bpb.BaseBound(0);
      assert bpb.Base(0) == bpb.reserved;
      assert F()[c] == Word(bpb, device, 0, c) % MASK;
    }

    /** The entry of a cluster from the batch buffer. */
    method BatchEntry(c: nat, cur: nat, buf: Device) returns (e: nat, cur': nat, buf': Device)
      requires Layout(bpb, device) && 2 <= c < bpb.clusters + 2 && BatchOk(cur, buf)
      ensures BatchOk(cur', buf') && e == F()[c]
    {
      hide Layout;
      hide Table;
      hide BatchOk;
      EntryAt(c);
      var s := bpb.reserved + bpb.Row(c);
      cur', buf' := LoadBatch(s, cur, buf);
      e := buf'[s - cur'][bpb.Col(c)] % MASK;
    }

    /** Phase 1: the length of the chain. */
    method CountChain(start: nat) returns (count: nat)
      requires Layout(bpb, device) && IsCluster(F(), start) && !NeverEnds(F(), start)
      ensures count > 0 && IsChain(F(), start, Walked(F(), start, count))
    {
      hide Layout;
      hide Table;
      hide BatchOk;
      Small();
      ghost var fat := F();
      ghost var end: nat :| Walk(fat, start, end) == 0;
      var cluster := start;
      var cur, buf := UNKNOWN, [];
      NoBatch(buf);
      count := 0;
      while 2 <= cluster < bpb.clusters + 2
        invariant BatchOk(cur, buf) && cluster == Walk(fat, start, count)
        invariant forall k: nat :: k < count ==> IsCluster(fat, Walk(fat, start, k))
        invariant count <= end
        decreases end - count
      {
        if count == end {
          assert false;
        }
        count := count + 1;
        var e;
        e, cur, buf := BatchEntry(cluster, cur, buf);
        if e >= EOC || e == 0 || e == 1 || e == BAD {
          assert Walk(fat, start, count) == 0;
          return;
        }
        cluster := e;
        if count > end {
          WalkEnded(fat, start, end, count);
        }
      }
    }

    lemma NoBatch(buf: Device)
      ensures BatchOk(UNKNOWN, buf)
    {
    }

    /** Phase 2: the clusters of the chain. */
    method FillChain(start: nat, count: nat) returns (chain: array<nat>)
      requires Layout(bpb, device) && IsChain(F(), start, Walked(F(), start, count))
      ensures fresh(chain) && chain[..] == Walked(F(), start, count)
    {
      hide *;
      ghost var fat := F();
      chain := new nat[count];
      var cluster := start;
      var cur, buf := UNKNOWN, [];
      NoBatch(buf);
      ChainHead(fat, start);
      for i := 0 to count
        invariant BatchOk(cur, buf)
        invariant i == 0 || i < count ==> cluster == Walk(fat, start, i)
        invariant forall k :: 0 <= k < i ==> chain[k] == Walked(fat, start, count)[k]
      {
        chain[i] := cluster;
        ChainStep(fat, start, Walked(fat, start, count), i);
        Range(cluster);
        cluster, cur, buf := BatchEntry(cluster, cur, buf);
      }
      assert chain[..] == Walked(fat, start, count);
    }

    /** The whole chain of a cluster, or null when the start is no cluster or the chain loops. */
    method GetClusterChain(start: nat) returns (chain: array?<nat>)
      requires Readable()
      modifies `accessCounter, cache
      ensures Readable() && (old(Valid()) ==> Valid())
      ensures chain == null <==> !IsCluster(F(), start) || NeverEnds(F(), start)
      ensures chain != null ==> fresh(chain) && chain.Length > 0 && IsChain(F(), start, chain[..])
    {
      hide *;
      ReadableFacts();
      Range(start);
      if start < 2 || start >= bpb.clusters + 2 {
        return null;
      }
      var loop := HasFatLoop(start);
      if loop {
        return null;
      }
      var count := CountChain(start);
      chain := FillChain(start, count);
    }

    // Freeing, batch by batch

    /** A batch is written back and its sectors leave the cache. */
    method Flush(cur: nat, buf: Device)
      requires CacheOk() && cur + |buf| <= |device|
      modifies `device, cache
      ensures CacheOk() && device == Overlay(old(device), cur, buf)
    {
      device := device[..cur] + buf + device[cur + |buf|..];
      var end := cur + |buf|;
      for s := cur to end
        invariant CacheOkBut(s, end) && device == Overlay(old(device), cur, buf)
      {
        InvalidateSector(s, end);
      }
    }

    /** The device with the batch buffer on it is `spec`. */
    ghost predicate Pending(copy: nat, cur: nat, buf: Device, dirty: bool, spec: Device)
      reads `device
    {
      && Layout(bpb, spec) && |spec| == |device|
      && (dirty <==> cur != UNKNOWN)
      && (if dirty then
            && |buf| == BatchLen(cur, bpb.Base(copy) + bpb.fatSize)
            && cur + |buf| <= |device| && Overlay(device, cur, buf) == spec
          else
            device == spec)
    }

    /** The batch that holds sector `s` of a copy, with the old batch written back if there was one. */
    method SwitchBatch(copy: nat, s: nat, cur: nat, buf: Device, dirty: bool, ghost spec: Device)
      returns (cur': nat, buf': Device)
      requires CacheOk() && Pending(copy, cur, buf, dirty, spec) && copy < bpb.tables
      requires bpb.Base(copy) <= s < bpb.Base(copy) + bpb.fatSize
      modifies `device, cache
      ensures CacheOk() && Pending(copy, cur', buf', true, spec) && cur' <= s < cur' + |buf'|
    {
      bpb.BaseBound(copy);
      var batchStart := s / BATCH * BATCH;
      var len := BatchLen(batchStart, bpb.Base(copy) + bpb.fatSize);
      assert batchStart <= s < batchStart + len;
      if batchStart == cur {
        return cur, buf;
      }
      if dirty {
        Flush(cur, buf);
      }
      OverlayLoaded(device, batchStart, batchStart + len);
      return batchStart, device[batchStart..batchStart + len];
    }

    method ClearEntry(copy: nat, c: nat, cur: nat, buf: Device, dirty: bool, ghost spec: Device)
      returns (cur': nat, buf': Device)
      requires CacheOk() && Pending(copy, cur, buf, dirty, spec) && copy < bpb.tables && c < bpb.clusters + 2
      modifies `device, cache
      ensures CacheOk() && Pending(copy, cur', buf', true, Put(bpb, spec, copy, c, FREE))
    {
      hide CacheOk;
      bpb.RowInTable(c);
      bpb.BaseBound(copy);
      var s := bpb.Base(copy) + bpb.Row(c);
      cur', buf' := SwitchBatch(copy, s, cur, buf, dirty, spec);
      assert spec[s] == buf'[s - cur'];
      var row: Sector := buf'[s - cur'][bpb.Col(c) := 0];
      OverlayPut(bpb, device, cur', buf', copy, c, row);
      buf' := buf'[s - cur' := row];
    }

    method ClearCopy(copy: nat, chain: seq<nat>)
      requires Layout(bpb, device) && CacheOk() && copy < bpb.tables && InTable(bpb, chain)
      modifies `device, cache
      ensures Layout(bpb, device) && CacheOk()
      ensures device == Clear(bpb, old(device), copy, chain)
    {
      hide Layout;
      hide CacheOk;
      hide Put;
      var cur, buf, dirty := UNKNOWN, [], false;
      for i := 0 to |chain|
        invariant CacheOk() && InTable(bpb, chain[..i])
        invariant Pending(copy, cur, buf, dirty, Clear(bpb, old(device), copy, chain[..i]))
      {
        cur, buf := ClearEntry(copy, chain[i], cur, buf, dirty, Clear(bpb, old(device), copy, chain[..i]));
        dirty := true;
        assert chain[..i + 1][..i] == chain[..i];
      }
      assert chain[..|chain|] == chain;
      if dirty {
        Flush(cur, buf);
      }
    }

    method ClearAll(chain: seq<nat>)
      requires Layout(bpb, device) && CacheOk() && InTable(bpb, chain)
      modifies `device, cache
      ensures Layout(bpb, device) && CacheOk()
      ensures device == ClearCopies(bpb, old(device), chain, bpb.tables)
    {
      hide Layout;
      hide CacheOk;
      hide Clear;
      for copy := 0 to bpb.tables
        invariant Layout(bpb, device) && CacheOk()
        invariant device == ClearCopies(bpb, old(device), chain, copy)
      {
        ClearCopy(copy, chain);
      }
    }

    /** The order in which the clusters of a chain are cleared makes no difference. */
    lemma ClearedAnyOrder(before: Device, s: seq<nat>, t: seq<nat>)
      requires Layout(bpb, before) && Mirrored(bpb, before)
      requires IsChainOf(before, s) && multiset(t) == multiset(s)
      ensures InTable(bpb, t)
      ensures Mirrored(bpb, ClearCopies(bpb, before, t, bpb.tables))
      ensures Table(bpb, ClearCopies(bpb, before, t, bpb.tables), 0) == Freed(Table(bpb, before, 0), s)
    {
      hide Layout;
      hide Mirrored;
      hide Table;
      forall k | 0 <= k < |t|
        ensures t[k] < bpb.clusters + 2
      {
        assert t[k] in multiset(t);
        assert t[k] in s;
      }
      ClearCopiesMirrored(bpb, before, t);
      FreedOrder(Table(bpb, before, 0), s, t);
    }

    /** The chain of the first FAT as a chain of every copy. */
    ghost predicate IsChainOf(before: Device, s: seq<nat>)
      requires Layout(bpb, before)
    {
      bpb.tables >= 1 && Linked(Table(bpb, before, 0), s)
    }

    /** When adding the length of a freed chain to the free count keeps it right. */
    lemma CountAfterFree(before: Fat, s: seq<nat>, count: nat, known: bool)
      requires Linked(before, s) && |before| <= BAD
      requires known ==> count == CountFree(before, |before|)
      ensures known ==> (count + |s|) % 0x1_0000_0000 != UNKNOWN
      ensures known ==>
                ((count + |s|) % 0x1_0000_0000 == CountFree(Freed(before, s), |before|) <==>
                 before[s[|s| - 1]] != FREE)
    {
      hide CountFree;
      hide Freed;
      CountFreedChain(before, s);
      CountFreeBound(before, |before|);
      LinkedDistinct(before, s);
      DistinctBound(s, |before|);
      hide Linked;
      assert known ==> count + |s| < 0x1_0000_0000 - 1;
    }

    /** free_cluster_chain: exactly the clusters of the chain become free, in every FAT copy. */
    method FreeClusterChain(start: nat) returns (ok: bool, ghost s: seq<nat>)
      requires Valid()
      modifies `device, `accessCounter, `freeCount, cache
      ensures Valid() && SameOutside(bpb, old(device), device)
      ensures ok <==> old(IsCluster(F(), start) && !NeverEnds(F(), start))
      ensures !ok ==> device == old(device) && freeCount == old(freeCount)
      ensures ok ==> Linked(old(F()), s) && s[0] == start && F() == Freed(old(F()), s)
      ensures ok ==> freeCount == if old(freeCount) == UNKNOWN then UNKNOWN else (old(freeCount) + |s|) % 0x1_0000_0000
      ensures ok && old(Counted()) && old(freeCount) != UNKNOWN ==> (Counted() <==> old(F())[s[|s| - 1]] != FREE)
    {
      hide Layout;
      hide Mirrored;
      hide Table;
      hide CacheOk;
      hide Linked;
      hide Freed;
      hide CountFree;
      hide ClearCopies;
      hide SameOutside;
      hide NeverEnds;
      hide IsChain;
      hide InTable;
      Small();
      Facts();
      SameOutsideSelf(bpb, device);
      s := [];
      if start < 2 || start >= bpb.clusters + 2 {
        return false, s;
      }
      var chain := GetClusterChain(start);
      if chain == null {
        return false, s;
      }
      s := chain[..];
      ChainIsLinked(F(), start, s);
      KlibSort.Sort(chain, x => x, 0, chain.Length);
      SortedAll(s, chain[..]);
      ClearedAnyOrder(device, s, chain[..]);
      CountAfterFree(F(), s, freeCount, freeCount == CountFree(F(), |F()|));
      ClearAll(chain[..]);
      ClearedOutside(bpb, old(device), chain[..], bpb.tables);
      if freeCount != UNKNOWN {
        freeCount := (freeCount + chain.Length) % 0x1_0000_0000;
      }
      ok := true;
    }

    lemma SortedAll(s: seq<nat>, t: seq<nat>)
      requires KlibSort.Rearranged(s, t, 0, |s|)
      ensures multiset(t) == multiset(s) && |t| == |s|
    {
      assert s[0..|s|] == s && t[0..|s|] == t;
    }

    // Growing and cutting chains

    ghost predicate NoneFree()
      requires Layout(bpb, device)
      reads `device
    {
      Findable(F()) == 0
    }

    /** A free cluster becomes a chain of its own. */
    method TakeFirst() returns (c: nat)
      requires Valid()
      modifies `device, `accessCounter, `freeCount, `nextFree, cache
      ensures Valid() && (old(Counted()) ==> Counted()) && c == Pick(old(F()), old(nextFree))
      ensures c == 0 ==> device == old(device) && NoneFree()
      ensures nextFree == if c == 0 then old(nextFree) else c + 1
      ensures c != 0 ==> IsCluster(old(F()), c) && old(F())[c] == FREE && F() == old(F())[c := END_MARK]
    {
      hide *;
      Facts();
      PickFindable(F(), nextFree);
      PickFree(F(), nextFree);
      c := FindFreeCluster();
      if c == 0 {
        IsNoneFree();
        return;
      }
      EndChain(c);
    }

    method EndChain(c: nat)
      requires Valid() && IsCluster(F(), c)
      modifies `device, `accessCounter, `freeCount, cache
      ensures Valid() && (old(Counted()) ==> Counted()) && F() == old(F())[c := END_MARK]
    {
      hide Layout;
      hide Mirrored;
      hide Table;
      hide CacheOk;
      hide CountFree;
      Small();
      WriteFatEntry(c, 0x0FFFFFFF);
    }

    /** A free cluster is linked behind `last`. */
    method TakeNext(last: nat) returns (c: nat)
      requires Valid() && IsCluster(F(), last)
      modifies `device, `accessCounter, `freeCount, `nextFree, cache
      ensures Valid() && (old(Counted()) ==> Counted()) && c == Pick(old(F()), old(nextFree))
      ensures c == 0 ==> device == old(device) && NoneFree()
      ensures nextFree == if c == 0 then old(nextFree) else c + 1
      ensures c != 0 ==> IsCluster(old(F()), c) && old(F())[c] == FREE && F() == Extend(old(F()), last, c)
    {
      hide *;
      Facts();
      PickFindable(F(), nextFree);
      PickFree(F(), nextFree);
      c := FindFreeCluster();
      if c == 0 {
        IsNoneFree();
        return;
      }
      LinkBehind(last, c);
    }

    lemma IsNoneFree()
      requires Layout(bpb, device) && Findable(F()) == 0
      ensures NoneFree()
    {
    }

    method LinkBehind(last: nat, c: nat)
      requires Valid() && IsCluster(F(), last) && IsCluster(F(), c)
      modifies `device, `accessCounter, `freeCount, cache
      ensures Valid() && (old(Counted()) ==> Counted()) && F() == Extend(old(F()), last, c)
    {
      hide Layout;
      hide Mirrored;
      hide Table;
      hide CacheOk;
      hide CountFree;
      Small();
      WriteFatEntry(last, c);
      WriteFatEntry(c, 0x0FFFFFFF);
    }

    /** `n` more free clusters linked one behind the other, or as many as there are. */
    method ExtendChain(last: nat, n: nat, ghost fat: Fat, ghost hint: nat, ghost s: seq<nat>, ghost first: seq<nat>)
      returns (ok: bool, ghost added: seq<nat>)
      requires InTurn(fat, s, hint, first) && nextFree == HintAfter(hint, first)
      requires Valid() && TakenFree(fat, s, first) && F() == Append(fat, s, first)
      requires s + first != [] && last == (s + first)[|s + first| - 1]
      modifies `device, `accessCounter, `freeCount, `nextFree, cache
      ensures Valid() && (old(Counted()) ==> Counted())
      ensures TakenFree(fat, s, added) && F() == Append(fat, s, added)
      ensures first <= added && (|added| > |first| ==> added[|first|] == Pick(old(F()), old(nextFree)))
      ensures ok <==> Reserve(old(F()), last, old(nextFree)) >= n
      ensures |added| == |first| + if ok then n else Reserve(old(F()), last, old(nextFree))
      ensures !ok ==> NoneFree()
      ensures InTurn(fat, s, hint, added) && nextFree == HintAfter(hint, added)
    {
      hide Layout;
      hide Mirrored;
      hide Table;
      hide CacheOk;
      hide CountFree;
      hide NoneFree;
      hide Append;
      hide Extend;
      hide Reserve;
      hide Pick;
      hide InTurn;
      hide HintAfter;
      Small();
      added := first;
      var end := last;
      for i := 0 to n
        invariant Valid() && (old(Counted()) ==> Counted())
        invariant TakenFree(fat, s, added) && F() == Append(fat, s, added)
        invariant first <= added && |added| == |first| + i
        invariant end == (s + added)[|s + added| - 1]
        invariant i == 0 ==> F() == old(F()) && nextFree == old(nextFree)
        invariant i > 0 ==> added[|first|] == Pick(old(F()), old(nextFree))
        invariant Reserve(F(), end, nextFree) == Reserve(old(F()), last, old(nextFree)) - i
        invariant InTurn(fat, s, hint, added) && nextFree == HintAfter(hint, added)
      {
        ghost var was, now := F(), nextFree;
        ReserveBound(was, end, now);
        var c := TakeNext(end);
        if c == 0 {
          return false, added;
        }
        ReserveStep(was, end, now, nextFree);
        AppendMore(fat, s, added, c);
        InTurnMore(fat, s, hint, added, c);
        added := added + [c];
        end := c;
      }
      ReserveBound(F(), end, nextFree);
      ok := true;
    }

    /** A chain that was just started with one cluster. */
    method FirstChain(c: nat) returns (chain: array?<nat>)
      requires Valid() && IsCluster(F(), c) && F()[c] == END_MARK
      modifies `accessCounter, cache
      ensures Valid()
      ensures chain != null && fresh(chain) && chain[..] == [c]
    {
      hide Layout;
      hide Mirrored;
      hide Table;
      hide CacheOk;
      Facts();
      LinkedIsChain(F(), [c]);
      chain := GetClusterChain(c);
      ChainUnique(F(), c, chain[..], [c]);
    }

    /** An empty file gets its first cluster. */
    method StartChain() returns (c: nat, chain: array?<nat>)
      requires Valid()
      modifies `device, `accessCounter, `freeCount, `nextFree, cache
      ensures Valid() && (old(Counted()) ==> Counted())
      ensures c == 0 <==> Findable(old(F())) == 0
      ensures c == 0 ==> device == old(device) && NoneFree()
      ensures c != 0 ==> chain != null && fresh(chain) && chain[..] == [c]
      ensures c != 0 ==> TakenFree(old(F()), [], [c]) && F() == Append(old(F()), [], [c])
      ensures c != 0 ==> Reserve(F(), c, nextFree) == Findable(old(F())) - 1
      ensures c != 0 ==> InTurn(old(F()), [], old(nextFree), [c])
      ensures nextFree == if c == 0 then old(nextFree) else c + 1
    {
      hide Layout;
      hide Mirrored;
      hide Table;
      hide CacheOk;
      hide CountFree;
      hide InTurn;
      hide Append;
      hide Pick;
      Small();
      chain := null;
      ghost var fat := F();
      PickFindable(fat, nextFree);
      c := TakeFirst();
      if c != 0 {
        NothingAppended(fat, []);
        AppendMore(fat, [], [], c);
        FirstInTurn(fat, old(nextFree), c);
        assert [] + [c] == [c];
        CountFreeSet(fat, c, END_MARK, |fat|);
        chain := FirstChain(c);
      }
    }

    /** The chain is lengthened and read again. */
    method LengthenChain(
      chain: array<nat>, additional: nat, ghost fat: Fat, ghost hint: nat, ghost s: seq<nat>, ghost first: seq<nat>)
      returns (ok: bool, chain': array?<nat>, ghost added: seq<nat>)
      requires InTurn(fat, s, hint, first) && nextFree == HintAfter(hint, first)
      requires Valid() && TakenFree(fat, s, first) && F() == Append(fat, s, first)
      requires chain.Length > 0 && chain[..] == s + first && additional > 0
      requires if s == [] then first != [] else Linked(fat, s) && first == []
      modifies `device, `accessCounter, `freeCount, `nextFree, cache
      ensures Valid() && (old(Counted()) ==> Counted())
      ensures TakenFree(fat, s, added) && F() == Append(fat, s, added) && first <= added
      ensures var last := (s + first)[|s + first| - 1];
              var spare := Reserve(old(F()), last, old(nextFree));
              && (ok <==> spare >= additional) && |added| == |first| + (if ok then additional else spare)
              && (|added| > |first| ==> added[|first|] == Pick(old(F()), old(nextFree)))
      ensures !ok ==> NoneFree()
      ensures added == [] || Owned(F(), Joined(s, added))
      ensures ok ==> chain' != null && chain'[..] == Joined(s, added)
      ensures InTurn(fat, s, hint, added) && nextFree == HintAfter(hint, added)
    {
      hide *;
      Facts();
      SmallNow(fat);
      var start, last := chain[0], chain[chain.Length - 1];
      chain' := null;
      ok, added := ExtendChain(last, additional, fat, hint, s, first);
      Facts();
      JoinedOwned(fat, s, added);
      if ok {
        JoinedChain(F(), s, first, added);
        chain' := GetClusterChain(start);
        ChainUnique(F(), start, chain'[..], Joined(s, added));
      }
    }

    lemma SmallNow(fat: Fat)
      requires Layout(bpb, device) && |fat| == |F()|
      ensures |fat| <= BAD
    {
    }

    /**
     The growth of a chain in write_file. It ends without space exactly when too few clusters can be
     found, and with an error exactly when the chain's last cluster is marked free and is found first.
     */
    method GrowChain(start: nat, needed: nat)
      returns (r: Growth, start': nat, chain: array?<nat>, ghost s: seq<nat>, ghost added: seq<nat>)
      requires Valid() && needed > 0
      modifies `device, `accessCounter, `freeCount, `nextFree, cache
      ensures Valid() && (old(Counted()) ==> Counted())
      ensures !old(Started(F(), start)) ==> r == Broken && device == old(device) && freeCount == old(freeCount)
      ensures old(Started(F(), start)) ==>
                && (if start == 0 then s == [] else Linked(old(F()), s) && s[0] == start)
                && TakenFree(old(F()), s, added) && F() == Append(old(F()), s, added)
                && start' == (if s + added == [] then 0 else (s + added)[0])
                && Grew(old(F()), s, old(nextFree), needed, r, added)
                && InTurn(old(F()), s, old(nextFree), added) && nextFree == HintAfter(old(nextFree), added)
      ensures r == NoSpace ==> NoneFree()
      ensures r == Grown ==> chain != null && chain[..] == Joined(s, added) && chain.Length >= needed
      ensures r == Grown ==> IsChain(F(), start', chain[..])
      ensures old(Started(F(), start)) && added != [] ==> Owned(F(), Joined(s, added))
    {
      hide *;
      Facts();
      StartedMeans(start);
      ghost var fat, hint := F(), nextFree;
      s, added, start', chain := [], [], start, null;
      var count := 0;
      if start != 0 {
        chain := GetClusterChain(start);
        if chain == null {
          return Broken, start', chain, s, added;
        }
        s, count := chain[..], chain.Length;
        ChainIsLinked(fat, start, s);
      }
      NothingAppended(fat, s);
      NothingJoined(s);
      NothingFound(fat, s, hint);
      if count >= needed {
        NoGrowth(fat, s, hint, needed);
        return Grown, start', chain, s, added;
      }
      var additional := needed - count;
      if start == 0 {
        start', chain := StartChain();
        if start' == 0 {
          NoStart(fat, hint, needed);
          return NoSpace, start', chain, s, added;
        }
        added := [start'];
        OneFound(hint, start');
      }
      Facts();
      ghost var first, fat1, hint1 := added, F(), nextFree;
      var ok;
      ok, chain, added := LengthenChain(chain, additional, fat, hint, s, first);
      Facts();
      HowGrown(fat, s, hint, needed, first, fat1, hint1, ok, added);
      Ends(ok, |Joined(s, added)|, needed);
      if !ok {
        return NoSpace, start', chain, s, added;
      }
      if chain.Length < needed {
        return Broken, start', chain, s, added;
      }
      JoinedChain(F(), s, first, added);
      r := Grown;
    }

    lemma StartedMeans(start: nat)
      requires Layout(bpb, device)
      ensures Started(F(), start) <==> start == 0 || (IsCluster(F(), start) && !NeverEnds(F(), start))
    {
    }

    /** truncate to a size that needs `needed` clusters: a longer chain is cut, a shorter one stays. */
    method TruncateChain(start: nat, needed: nat) returns (ghost s: seq<nat>)
      requires Valid() && needed > 0
      modifies `device, `accessCounter, `freeCount, cache
      ensures Valid() && (old(Counted()) ==> Counted())
      ensures !old(IsCluster(F(), start) && !NeverEnds(F(), start)) ==> s == [] && device == old(device)
      ensures old(IsCluster(F(), start) && !NeverEnds(F(), start)) ==> Linked(old(F()), s) && s[0] == start
      ensures |s| > needed ==> F() == CutChain(old(F()), s, needed)
      ensures |s| <= needed ==> device == old(device)
    {
      hide Layout;
      hide Mirrored;
      hide Table;
      hide CacheOk;
      hide CountFree;
      hide IsChain;
      hide NeverEnds;
      hide Freed;
      hide Next;
      Small();
      Facts();
      ghost var fat := F();
      s := [];
      var chain := GetClusterChain(start);
      if chain == null {
        return;
      }
      s := chain[..];
      ChainIsLinked(fat, start, s);
      if chain.Length <= needed {
        return;
      }
      WriteFatEntry(chain[needed - 1], 0x0FFFFFFF);
      ghost var cut := fat[s[needed - 1] := END_MARK];
      FreedNone(cut);
      assert s[needed..needed] == [];
      for i := needed to chain.Length
        invariant Valid() && (old(Counted()) ==> Counted())
        invariant chain[..] == s && F() == Freed(cut, s[needed..i])
      {
        FreedSnoc(cut, s[needed..i], s[i]);
        assert s[needed..i] + [s[i]] == s[needed..i + 1];
        WriteFatEntry(chain[i], 0);
      }
      assert s[needed..|s|] == s[needed..];
    }
  }

  /** How the growth of a chain ends: with enough clusters, on a full volume, or on a chain that cannot be read. */
  datatype Growth = Grown | NoSpace | Broken

  /** A file's first cluster as its directory entry has it: none, or the start of a chain that ends. */
  ghost predicate Started(fat: Fat, start: nat) {
    start == 0 || (IsCluster(fat, start) && !NeverEnds(fat, start))
  }

  /** How many clusters a chain can get: any that can be found, if it has no last cluster yet. */
  function Spare(fat: Fat, s: seq<nat>, hint: nat): int {
    if s == [] then Findable(fat) else Reserve(fat, s[|s| - 1], hint)
  }

  predicate SelfLink(fat: Fat, s: seq<nat>, hint: nat) {
    s != [] && OwnLast(fat, s[|s| - 1], hint)
  }

  /** How growth ends, in terms of the FAT and the search hint before it. */
  ghost predicate Grew(fat: Fat, s: seq<nat>, hint: nat, needed: nat, r: Growth, added: seq<nat>) {
    var extra, spare := Extra(|s|, needed), Spare(fat, s, hint);
    if extra == 0 then r == Grown && added == []
    else
      && (r == NoSpace <==> spare < extra)
      && (r == Broken <==> spare >= extra && SelfLink(fat, s, hint))
      && |added| == (if r == NoSpace then spare else extra)
      && |Joined(s, added)| == |s| + |added| - (if SelfLink(fat, s, hint) then 1 else 0)
      && (added != [] ==> (SelfLink(fat, s, hint) <==> s != [] && added[0] == s[|s| - 1]))
  }

  lemma NothingFound(fat: Fat, s: seq<nat>, hint: nat)
    ensures InTurn(fat, s, hint, []) && HintAfter(hint, []) == hint
  {
  }

  lemma FirstInTurn(fat: Fat, hint: nat, c: nat)
    requires TakenFree(fat, [], [] + [c]) && c == Pick(fat, hint)
    ensures InTurn(fat, [], hint, [c])
  {
    hide Pick;
    NothingAppended(fat, []);
    InTurnMore(fat, [], hint, [], c);
    assert [] + [c] == [c];
  }

  lemma OneFound(hint: nat, c: nat)
    ensures HintAfter(hint, [c]) == c + 1
  {
  }

  lemma NothingJoined(s: seq<nat>)
    ensures Joined(s, []) == s && s + [] == s
  {
  }

  lemma NoGrowth(fat: Fat, s: seq<nat>, hint: nat, needed: nat)
    requires |s| >= needed
    ensures Grew(fat, s, hint, needed, Grown, [])
  {
  }

  lemma NoStart(fat: Fat, hint: nat, needed: nat)
    requires Findable(fat) == 0 && needed > 0
    ensures Grew(fat, [], hint, needed, NoSpace, [])
  {
  }

  function Ending(ok: bool, length: nat, needed: nat): Growth {
    if !ok then NoSpace else if length < needed then Broken else Grown
  }

  lemma Ends(ok: bool, length: nat, needed: nat)
    ensures !ok ==> Ending(ok, length, needed) == NoSpace
    ensures ok ==> Ending(ok, length, needed) == if length < needed then Broken else Grown
  {
  }

  /** From what each step of the growth did to how the whole growth ends. */
  lemma HowGrown(fat: Fat, s: seq<nat>, hint: nat, needed: nat, first: seq<nat>, fat1: Fat, hint1: nat,
                 ok: bool, added: seq<nat>)
    requires |s| < needed && TakenFree(fat, s, added) && first <= added
    requires if s == [] then |first| == 1 && Reserve(fat1, first[0], hint1) == Findable(fat) - 1
             else first == [] && fat1 == fat && hint1 == hint
    requires var last, additional := (s + first)[|s + first| - 1], needed - |s|;
             var spare := Reserve(fat1, last, hint1);
             && (ok <==> spare >= additional) && |added| == |first| + (if ok then additional else spare)
             && (|added| > |first| ==> added[|first|] == Pick(fat1, hint1))
    ensures Grew(fat, s, hint, needed, Ending(ok, |Joined(s, added)|, needed), added)
  {
    hide Reserve;
    hide Pick;
    hide TakenFree;
    hide Findable;
    if s != [] {
      var last := s[|s| - 1];
      assert s + first == s;
      ReserveBound(fat, last, hint);
      if added != [] {
        FirstTakenFree(fat, s, added);
      }
    } else {
      assert s + first == first && s + added == added;
    }
  }

  /** A chain whose clusters are all in use grows by all it needs, or as far as free clusters go. */
  lemma GrewOwned(fat: Fat, s: seq<nat>, hint: nat, needed: nat, r: Growth, added: seq<nat>)
    requires Owned(fat, s) && Grew(fat, s, hint, needed, r, added)
    ensures Joined(s, added) == s + added && r != Broken
    ensures r == NoSpace <==> Findable(fat) < Extra(|s|, needed)
    ensures |added| == if r == NoSpace then Findable(fat) else Extra(|s|, needed)
  {
    if s != [] {
      assert fat[s[|s| - 1]] != FREE;
    }
  }

  /** A volume of three free clusters. */
  function ThreeFree(): Fat {
    [0, 0, FREE, FREE, FREE]
  }

  lemma ThreeFreeFacts()
    ensures |ThreeFree()| == 5 && Linked(ThreeFree(), [2])
    ensures FirstFree(ThreeFree(), 2, 5) == 2 && CountFree(ThreeFree(), 5) == 3
  {
    var fat := ThreeFree();
    assert Next(fat, 2) == 0;
    assert CountFree(fat, 2) == 0 && CountFree(fat, 3) == 1 && CountFree(fat, 4) == 2;
  }

  /** The first link: the cluster is linked to itself and marked as the last. */
  lemma ThreeFreeFirst()
    ensures TakenFree(ThreeFree(), [2], [2])
    ensures Append(ThreeFree(), [2], [2]) == [0, 0, END_MARK, FREE, FREE]
  {
    hide Append;
    hide TakenFree;
    var fat, two: seq<nat> := ThreeFree(), [2];
    assert two + [] == two && [] + [2] == two;
    AppendNil(fat, two);
    AppendMore(fat, two, [], 2);
  }

  lemma ThreeFreeGrown()
    ensures TakenFree(ThreeFree(), [2], [2, 3])
    ensures Append(ThreeFree(), [2], [2, 3]) == [0, 0, 3, END_MARK, FREE]
  {
    hide Append;
    hide TakenFree;
    var fat, two: seq<nat> := ThreeFree(), [2];
    assert two + two == [2, 2] && two + [3] == [2, 3];
    ThreeFreeFirst();
    AppendMore(fat, two, two, 3);
  }

  /**
   The same with a directory entry that names the first cluster. Growth to three clusters finds that
   one first, links it to itself, and ends one cluster short.
   */
  lemma OneLinkShort()
    ensures Linked(ThreeFree(), [2]) && TakenFree(ThreeFree(), [2], [2, 3]) && SelfLink(ThreeFree(), [2], 2)
    ensures Grew(ThreeFree(), [2], 2, 3, Broken, [2, 3])
    ensures Linked(Append(ThreeFree(), [2], [2, 3]), [2, 3])
  {
    hide Append;
    hide TakenFree;
    hide CountFree;
    hide FirstFree;
    ThreeFreeFacts();
    ThreeFreeGrown();
    var grown := [0, 0, 3, END_MARK, FREE];
    assert Next(grown, 2) == 3 && Next(grown, 3) == 0;
  }

  /** Freeing that chain counts a cluster that was free already. */
  lemma FreedTwice()
    ensures Linked(ThreeFree(), [2])
    ensures CountFree(Freed(ThreeFree(), [2]), 5) != CountFree(ThreeFree(), 5) + |[2]|
  {
    ThreeFreeFacts();
    assert Freed(ThreeFree(), [2]) == ThreeFree();
  }

  /** How many clusters are added to a chain of `n` that needs `needed`: an empty file gets one more. */
  function Extra(n: nat, needed: nat): nat {
    if n >= needed then 0 else if n == 0 then needed + 1 else needed - n
  }

  /** How many sectors a batch that starts at `start` holds when the area ends at `end`. */
  function BatchLen(start: nat, end: nat): nat {
    if end <= start then 0 else if end - start < BATCH then end - start else BATCH
  }
}
