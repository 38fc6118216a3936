/**
 The write-back LRU cache of the ext4 driver, used for blocks and for inodes. Whatever is cached,
 dirty or evicted, a caller sees one plain sequence of records, `view`.
 */
module Ext4Cache {

  datatype Slot<T> = Slot(key: nat, valid: bool, dirty: bool, lruSeq: nat, data: T)

  const U32: nat := 0x1_0000_0000

  class WriteBackCache<T> {
    const slots: array<Slot<T>>
    var device: seq<T>
    var lruCounter: nat

    /** What a caller reads: the cached copy of a record if there is one, the device's otherwise. */
    ghost var view: seq<T>
    /** The slot that caches a record. Being a map, it allows one valid slot per record. */
    ghost var home: map<nat, nat>

    ghost predicate Valid()
      reads this, slots
    {
      && slots.Length >= 1
      && |view| == |device|
      && (forall i :: 0 <= i < slots.Length ==> slots[i].lruSeq < U32)
      && (forall i :: 0 <= i < slots.Length && slots[i].valid ==>
            slots[i].key in home && home[slots[i].key] == i)
      && (forall b :: b in home ==>
            && b < |device|
            && home[b] < slots.Length
            && slots[home[b]].valid
            && slots[home[b]].key == b
            && view[b] == slots[home[b]].data
            && (!slots[home[b]].dirty ==> device[b] == view[b]))
      && (forall b :: 0 <= b < |device| && b !in home ==> view[b] == device[b])
    }

    constructor (n: nat, records: seq<T>, blank: T)
      requires n >= 1
      ensures Valid() && fresh(slots)
      ensures slots.Length == n && device == records && view == records
      ensures forall i :: 0 <= i < n ==> !slots[i].valid
    {
      slots := new Slot<T>[n](_ => Slot(0, false, false, 0, blank));
      device := records;
      lruCounter := 0;
      view := records;
      home := map[];
    }

    lemma Agrees()
      requires Valid()
      ensures forall i :: 0 <= i < slots.Length && slots[i].valid ==>
                slots[i].key < |view| && slots[i].data == view[slots[i].key]
    {
    }

    /** The scan for a hit. */
    method Find(key: nat) returns (hit: bool, i: nat)
      requires Valid()
      ensures hit == (key in home)
      ensures hit ==> i == home[key]
    {
      i := 0;
      while i < slots.Length
        invariant i <= slots.Length
        invariant forall k :: 0 <= k < i && slots[k].valid ==> slots[k].key != key
      {
        if slots[i].valid && slots[i].key == key {
          return true, i;
        }
        i := i + 1;
      }
      hit := false;
    }

    /** Slot `v` is empty, or none is and it has the smallest sequence number. */
    ghost predicate Oldest(v: nat)
      reads slots
    {
      && v < slots.Length
      && (slots[v].valid ==>
            forall k :: 0 <= k < slots.Length ==> slots[k].valid && slots[v].lruSeq <= slots[k].lruSeq)
    }

    /** An empty slot if there is one, or else a slot with the smallest sequence number. */
    method Victim() returns (v: nat)
      requires Valid()
      ensures Oldest(v)
    {
      v := 0;
      var minLru := U32 - 1;
      for i := 0 to slots.Length
        invariant v < slots.Length
        invariant forall k :: 0 <= k < i ==> slots[k].valid && minLru <= slots[k].lruSeq
        invariant minLru == U32 - 1 || slots[v].lruSeq == minLru
      {
        if !slots[i].valid {
          return i;
        }
        if slots[i].lruSeq < minLru {
          minLru := slots[i].lruSeq;
          v := i;
        }
      }
    }

    method Tick() returns (t: nat)
      requires Valid()
      modifies `lruCounter
      ensures Valid() && t < U32 && lruCounter == t == (old(lruCounter) + 1) % U32
    {
      lruCounter := (lruCounter + 1) % U32;
      t := lruCounter;
    }

    /** Writes a dirty slot back; the slot stays valid and becomes clean. */
    method WriteBack(i: nat)
      requires Valid() && i < slots.Length
      modifies `device, slots
      ensures Valid() && view == old(view) && home == old(home)
      ensures forall k :: 0 <= k < slots.Length ==>
                slots[k] == if k == i && old(slots[i]).valid then old(slots[i]).(dirty := false) else old(slots[k])
    {
      if slots[i].valid {
        if slots[i].dirty {
          device := device[slots[i].key := slots[i].data];
        }
        slots[i] := slots[i].(dirty := false);
      }
    }

    /** Empties slot `i`, after writing it back if it is dirty. */
    method Release(i: nat)
      requires Valid() && i < slots.Length
      modifies `device, `home, slots
      ensures Valid() && view == old(view) && !slots[i].valid
      ensures home == if old(slots[i]).valid then old(home) - {old(slots[i]).key} else old(home)
      ensures forall k :: 0 <= k < slots.Length && k != i ==> slots[k] == old(slots[k])
    {
      WriteBack(i);
      if slots[i].valid {
        home := home - {slots[i].key};
        slots[i] := slots[i].(valid := false);
      }
    }

    /** Gives the empty slot `i` to `key` with contents `data`. */
    method Install(i: nat, key: nat, dirty: bool, data: T)
      requires Valid() && i < slots.Length && !slots[i].valid && key < |view| && key !in home
      requires !dirty ==> device[key] == data
      modifies this, slots
      ensures Valid() && view == old(view)[key := data] && device == old(device)
      ensures key in home && home[key] == i
      ensures forall k :: 0 <= k < slots.Length && k != i ==> slots[k] == old(slots[k])
      ensures lruCounter == (old(lruCounter) + 1) % U32 && slots[i] == Slot(key, true, dirty, lruCounter, data)
    {
      var t := Tick();
      slots[i] := Slot(key, true, dirty, t, data);
      home := home[key := i];
      view := view[key := data];
    }

    /** A hit on slot `i`: the slot becomes the most recently used and holds `data`. */
    method Hit(i: nat, dirty: bool, data: T)
      requires Valid() && i < slots.Length && slots[i].valid
      requires dirty || (!slots[i].dirty && data == slots[i].data)
      modifies this, slots
      ensures Valid() && view == old(view)[old(slots[i]).key := data] && home == old(home)
      ensures forall k :: 0 <= k < slots.Length && k != i ==> slots[k] == old(slots[k])
      ensures lruCounter == (old(lruCounter) + 1) % U32
      ensures slots[i] == old(slots[i]).(lruSeq := lruCounter, data := data, dirty := dirty)
    {
      var t := Tick();
      view := view[slots[i].key := data];
      slots[i] := slots[i].(lruSeq := t, data := data, dirty := dirty);
    }

    /** Brings a record into the cache; `hit` tells whether it was there already. */
    method Fetch(key: nat) returns (hit: bool, i: nat)
      requires Valid() && key < |view|
      modifies this, slots
      ensures Valid() && view == old(view)
      ensures key in home && home[key] == i && hit == (key in old(home))
      ensures i < slots.Length && slots[i].valid && slots[i].key == key && slots[i].data == view[key]
      ensures hit ==> old(slots[i]).valid && old(slots[i]).key == key && old(slots[i]).data == view[key]
      ensures forall k :: 0 <= k < slots.Length && k != i ==> slots[k] == old(slots[k])
      ensures slots[i].lruSeq == lruCounter == (old(lruCounter) + 1) % U32 && (!hit ==> old(Oldest(i)))
    {
      hit, i := Find(key);
      if hit {
        Hit(i, slots[i].dirty, slots[i].data);
        return;
      }
      i := Victim();
      Release(i);
      Install(i, key, false, device[key]);
    }

    /** Gives a record a new value in the cache. */
    method Put(key: nat, data: T) returns (i: nat)
      requires Valid() && key < |view|
      modifies this, slots
      ensures Valid() && view == old(view)[key := data]
      ensures i < slots.Length && slots[i].valid && slots[i].key == key && slots[i].data == data
      ensures forall k :: 0 <= k < slots.Length && k != i ==> slots[k] == old(slots[k])
      ensures forall k :: 0 <= k < slots.Length && k != i && slots[k].valid ==> slots[k].key != key
      ensures slots[i].lruSeq == lruCounter == (old(lruCounter) + 1) % U32 && (key !in old(home) ==> old(Oldest(i)))
    {
      var hit;
      hit, i := Find(key);
      if hit {
        Hit(i, true, data);
        return;
      }
      i := Victim();
      Release(i);
      Install(i, key, true, data);
    }

    /** The record is cached, with the sequence number that comes after `was`. */
    ghost predicate Used(key: nat, was: nat)
      reads this, slots
    {
      && key in home && home[key] < slots.Length && slots[home[key]].valid && slots[home[key]].key == key
      && slots[home[key]].lruSeq == lruCounter == (was + 1) % 0x1_0000_0000
    }

    /** read_block */
    method ReadBlock(key: nat) returns (data: T)
      requires Valid() && key < |view|
      modifies this, slots
      ensures Valid() && view == old(view)
      ensures data == view[key]
      ensures Used(key, old(lruCounter))
    {
      var _, i := Fetch(key);
      data := slots[i].data;
    }

    /** write_block */
    method WriteBlock(key: nat, data: T)
      requires Valid() && key < |view|
      modifies this, slots
      ensures Valid() && view == old(view)[key := data]
      ensures Used(key, old(lruCounter))
    {
      var i := Put(key, data);
    }

    /** Forgets a cached record without writing it back. */
    method Drop(key: nat)
      requires Valid() && key < |view|
      modifies this, slots
      ensures Valid() && key !in home && |view| == |old(view)| == |old(device)|
      ensures view == old(view)[key := old(device)[key]] && device == old(device)
      ensures forall k :: 0 <= k < slots.Length ==>
                slots[k] == old(slots[k]) || (!slots[k].valid && old(slots[k]).valid && old(slots[k]).key == key)
      ensures forall k :: 0 <= k < slots.Length && slots[k].valid ==> slots[k].key != key
    {
      var hit, i := Find(key);
      if hit {
        slots[i] := slots[i].(valid := false, dirty := false);
        home := home - {key};
        view := view[key := device[key]];
      }
    }

    /** A record is given a last value and then forgotten. */
    method PutThenDrop(key: nat, data: T)
      requires Valid() && key < |view|
      modifies this, slots
      ensures Valid() && |view| == |old(view)|
      ensures forall b :: 0 <= b < |view| && b != key ==> view[b] == old(view)[b]
      ensures forall k :: 0 <= k < slots.Length && slots[k].valid ==> slots[k] == old(slots[k]) && slots[k].key != key
    {
      hide Valid;
      var i := Put(key, data);
      Drop(key);
    }

    /** Every dirty slot reaches the device. */
    method Flush()
      requires Valid()
      modifies `device, slots
      ensures Valid() && view == old(view) && home == old(home)
      ensures device == view
      ensures forall i :: 0 <= i < slots.Length && slots[i].valid ==> !slots[i].dirty
      ensures forall i :: 0 <= i < slots.Length ==> slots[i].(dirty := false) == old(slots[i]).(dirty := false)
    {
      for i := 0 to slots.Length
        invariant Valid() && view == old(view) && home == old(home)
        invariant forall k :: 0 <= k < i && slots[k].valid ==> !slots[k].dirty
        invariant forall k :: 0 <= k < slots.Length ==> slots[k].(dirty := false) == old(slots[k]).(dirty := false)
      {
        WriteBack(i);
      }
    }

    /** The write-back and invalidation that precede a direct device read of blocks lo to hi. */
    method Evacuate(lo: nat, hi: nat)
      requires Valid() && lo <= hi < |view|
      modifies this, slots
      ensures Valid() && view == old(view)
      ensures forall b :: lo <= b <= hi ==> b !in home && device[b] == view[b]
    {
      for i := 0 to slots.Length
        invariant Valid() && view == old(view)
        invariant forall k :: 0 <= k < i && slots[k].valid ==> !(lo <= slots[k].key <= hi)
      {
        if slots[i].valid && lo <= slots[i].key <= hi {
          Release(i);
        }
      }
    }
  }
}
