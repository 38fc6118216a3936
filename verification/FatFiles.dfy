/**
 Whole runs of a FAT32 volume: whatever files are written, truncated and deleted, every cluster in use
 is on the chain of exactly one file and the free count stays right.
 */
module FatFiles {
  import opened FatChains
  import opened FatTables
  import opened FatVolume

  /** The clusters of every file, in order; an empty file has none. */
  type Chains = map<nat, seq<nat>>

  ghost predicate Holds(m: Chains, f: nat, c: nat) {
    f in m && c in m[f]
  }

  /** The files' chains share no cluster and cover all clusters in use. */
  ghost predicate Allocated(fat: Fat, m: Chains) {
    && (forall f :: f in m ==> Owned(fat, m[f]))
    && (forall f, g, c :: Holds(m, f, c) && Holds(m, g, c) ==> f == g)
    && (forall c: nat :: IsCluster(fat, c) && fat[c] != FREE ==> exists f :: Holds(m, f, c))
  }

  lemma OwnedMember(fat: Fat, s: seq<nat>, c: nat)
    requires Owned(fat, s) && c in s
    ensures IsCluster(fat, c) && fat[c] != FREE
  {
  }

  lemma FreeIsNotOwned(fat: Fat, s: seq<nat>, c: nat)
    requires Owned(fat, s) && IsCluster(fat, c) && fat[c] == FREE
    ensures c !in s
  {
  }

  lemma OwnedFrame(fat: Fat, fat': Fat, s: seq<nat>)
    requires Owned(fat, s) && |fat'| == |fat|
    requires forall c :: c in s && IsCluster(fat, c) ==> fat'[c] == fat[c]
    ensures Owned(fat', s)
  {
    if s != [] {
      LinkedFrame(fat, fat', s);
    }
  }

  /** A cluster of another file is neither on the file's old chain nor on its new one. */
  lemma Apart(fat: Fat, m: Chains, f: nat, g: nat, c: nat, s: seq<nat>)
    requires Allocated(fat, m) && f in m && g in m && g != f && c in m[g]
    requires forall c :: c in s ==> IsCluster(fat, c) && (c in m[f] || fat[c] == FREE)
    ensures c !in m[f] && c !in s
  {
    assert Holds(m, g, c);
    OwnedMember(fat, m[g], c);
    assert c in m[f] ==> Holds(m, f, c);
  }

  /** `fat'` is `fat` with the chain of one file changed to `s`: only its clusters and free ones are affected. */
  ghost predicate Rechained(fat: Fat, fat': Fat, m: Chains, f: nat, s: seq<nat>) {
    && f in m && |fat'| == |fat| && Owned(fat', s)
    && (forall c :: c in s ==> IsCluster(fat, c) && (c in m[f] || fat[c] == FREE))
    && (forall c: nat :: IsCluster(fat, c) && c !in s ==> fat'[c] == if c in m[f] then FREE else fat[c])
  }

  lemma RechainedOther(fat: Fat, fat': Fat, m: Chains, f: nat, s: seq<nat>, g: nat)
    requires Allocated(fat, m) && Rechained(fat, fat', m, f, s) && g in m && g != f
    ensures Owned(fat', m[g])
  {
    hide Owned;
    OwnedFile(fat, m, g);
    forall c | c in m[g] && IsCluster(fat, c)
      ensures fat'[c] == fat[c]
    {
      Apart(fat, m, f, g, c, s);
    }
    OwnedFrame(fat, fat', m[g]);
  }

  lemma RechainedCovered(fat: Fat, fat': Fat, m: Chains, f: nat, s: seq<nat>, c: nat) returns (g: nat)
    requires Allocated(fat, m) && Rechained(fat, fat', m, f, s) && IsCluster(fat', c) && fat'[c] != FREE
    ensures Holds(m[f := s], g, c)
  {
    hide Owned;
    if c in s {
      g := f;
    } else {
      g :| Holds(m, g, c);
    }
  }

  /** Every file keeps its clusters and every cluster in use its file. */
  lemma Rechain(fat: Fat, fat': Fat, m: Chains, f: nat, s: seq<nat>)
    requires Allocated(fat, m) && Rechained(fat, fat', m, f, s)
    ensures Allocated(fat', m[f := s])
  {
    hide Owned;
    var m' := m[f := s];
    forall g | g in m'
      ensures Owned(fat', m'[g])
      ensures g != f ==> forall c :: c in m'[g] ==> !Holds(m', f, c)
    {
      if g != f {
        RechainedOther(fat, fat', m, f, s, g);
        forall c | c in m[g]
          ensures c !in s
        {
          Apart(fat, m, f, g, c, s);
        }
      }
    }
    forall g, h, c | Holds(m', g, c) && Holds(m', h, c)
      ensures g == h
    {
      assert g != f && h != f ==> Holds(m, g, c) && Holds(m, h, c);
    }
    forall c: nat | IsCluster(fat', c) && fat'[c] != FREE
      ensures exists g :: Holds(m', g, c)
    {
      var g := RechainedCovered(fat, fat', m, f, s, c);
    }
  }

  // What each operation does to the files

  lemma {:induction false} AddedFree(fat: Fat, s: seq<nat>, added: seq<nat>, c: nat)
    requires Owned(fat, s) && TakenFree(fat, s, added) && c in added && |fat| <= BAD
    ensures IsCluster(fat, c) && fat[c] == FREE && c !in s
  {
    var k :| 0 <= k < |added| && added[k] == c;
    if k < |added| - 1 {
      AppendStep(fat, s, added);
      AddedFree(fat, s, added[..|added| - 1], c);
    } else {
      var was := added[..k];
      AppendStep(fat, s, added);
      AppendOwned(fat, s, was);
      FreeIsNotOwned(Append(fat, s, was), s + was, c);
      assert c in s || c in was ==> c in s + was;
      AppendFrame(fat, s, was, c);
    }
  }

  lemma GrowAllocated(fat: Fat, m: Chains, f: nat, added: seq<nat>)
    requires Allocated(fat, m) && f in m && TakenFree(fat, m[f], added) && |fat| <= BAD
    ensures Allocated(Append(fat, m[f], added), m[f := m[f] + added])
  {
    hide Allocated;
    hide TakenFree;
    hide Owned;
    OwnedFile(fat, m, f);
    var s := m[f];
    AppendOwned(fat, s, added);
    forall c | c in s + added
      ensures IsCluster(fat, c) && (c in s || fat[c] == FREE)
    {
      if c in s {
        OwnedMember(fat, s, c);
      } else {
        AddedFree(fat, s, added, c);
      }
    }
    forall c: nat | IsCluster(fat, c) && c !in s + added
      ensures Append(fat, s, added)[c] == fat[c]
    {
      AppendFrame(fat, s, added, c);
    }
    Rechain(fat, Append(fat, s, added), m, f, s + added);
  }

  lemma OwnedFile(fat: Fat, m: Chains, f: nat)
    requires Allocated(fat, m) && f in m
    ensures Owned(fat, m[f])
  {
  }

  lemma CutAllocated(fat: Fat, m: Chains, f: nat, n: nat)
    requires Allocated(fat, m) && f in m && 0 < n <= |m[f]| && m[f][n - 1] < |fat|
    ensures Allocated(CutChain(fat, m[f], n), m[f := m[f][..n]])
  {
    hide Allocated;
    OwnedFile(fat, m, f);
    var s := m[f];
    var fat' := CutChain(fat, s, n);
    CutLinked(fat, s, n);
    LinkedDistinct(fat, s);
    forall k | 0 <= k < n
      ensures fat'[s[k]] != FREE
    {
      assert s[k] !in s[n..];
    }
    assert s == s[..n] + s[n..];
    Rechain(fat, fat', m, f, s[..n]);
  }

  lemma FreeAllocated(fat: Fat, m: Chains, f: nat)
    requires Allocated(fat, m) && f in m
    ensures Allocated(Freed(fat, m[f]), m[f := []])
  {
    Rechain(fat, Freed(fat, m[f]), m, f, []);
  }

  /** Such a FAT has no two clusters with one successor and no successor that is free. */
  lemma AllocatedShape(fat: Fat, m: Chains)
    requires Allocated(fat, m)
    requires forall c: nat :: IsCluster(fat, c) ==> Next(fat, c) == 0 || IsCluster(fat, Next(fat, c))
    ensures Shape(fat)
  {
    hide Allocated;
    hide Owned;
    hide Next;
    forall a: nat | IsCluster(fat, a) && Next(fat, a) != 0
      ensures fat[Next(fat, a)] != FREE
    {
      var f, i := Position(fat, m, a);
      OwnedFile(fat, m, f);
      OwnedMember(fat, m[f], m[f][i + 1]);
    }
    forall a: nat, b: nat | IsCluster(fat, a) && IsCluster(fat, b) && Next(fat, a) == Next(fat, b) != 0
      ensures a == b
    {
      OneBefore(fat, m, a, b);
    }
  }

  lemma OneBefore(fat: Fat, m: Chains, a: nat, b: nat)
    requires Allocated(fat, m) && IsCluster(fat, a) && IsCluster(fat, b)
    requires Next(fat, a) == Next(fat, b) && IsCluster(fat, Next(fat, a))
    ensures a == b
  {
    hide Allocated;
    hide Owned;
    hide Next;
    var f, i := Position(fat, m, a);
    var g, j := Position(fat, m, b);
    OnlyHolder(fat, m, f, g, m[f][i + 1]);
    LinkedDistinct(fat, m[f]);
    assert i + 1 == j + 1;
  }

  /** Where a cluster with a successor is, and that the successor follows it there. */
  lemma Position(fat: Fat, m: Chains, a: nat) returns (f: nat, i: nat)
    requires Allocated(fat, m) && IsCluster(fat, a) && IsCluster(fat, Next(fat, a))
    ensures f in m && Linked(fat, m[f]) && i + 1 < |m[f]| && m[f][i] == a && m[f][i + 1] == Next(fat, a)
  {
    f :| Holds(m, f, a);
    i :| 0 <= i < |m[f]| && m[f][i] == a;
    OwnedFile(fat, m, f);
  }

  // The files' first clusters

  /** The first cluster of each file: in its node in memory, and in its directory entry on the volume. */
  datatype Books = Books(nodes: map<nat, nat>, entries: map<nat, nat>)

  function First(s: seq<nat>): nat {
    if s == [] then 0 else s[0]
  }

  /**
   Each node's first cluster starts its file's chain, and the directory entry has the same one or none.
   Chains that belong to no file are lost.
   */
  ghost predicate Agree(b: Books, m: Chains) {
    && b.nodes.Keys == b.entries.Keys <= m.Keys
    && (forall f :: f in b.nodes ==> b.nodes[f] == First(m[f]) && (b.entries[f] == b.nodes[f] || b.entries[f] == 0))
  }

  /** Every chain belongs to a file. */
  ghost predicate NoneLost(b: Books, m: Chains) {
    m.Keys == b.nodes.Keys
  }

  /** Every directory entry is up to date. */
  ghost predicate Recorded(b: Books) {
    b.entries == b.nodes
  }

  ghost predicate Sound(v: Volume, b: Books, m: Chains)
    reads v, v.cache
  {
    v.Valid() && v.Counted() && Agree(b, m) && Allocated(v.F(), m)
  }

  lemma FirstOf(s: seq<nat>)
    ensures s == [] ==> First(s) == 0
    ensures s != [] ==> First(s) == s[0]
  {
  }

  lemma SoundParts(v: Volume, b: Books, m: Chains)
    requires Sound(v, b, m)
    ensures v.Valid() && v.Readable() && Layout(v.bpb, v.device) && v.Counted() && Allocated(v.F(), m)
    ensures Agree(b, m) && b.nodes.Keys == b.entries.Keys <= m.Keys
  {
  }

  lemma HasLayout(v: Volume)
    requires v.Valid()
    ensures Layout(v.bpb, v.device)
  {
  }

  lemma SoundWhole(v: Volume, b: Books, m: Chains)
    requires v.Valid() && v.Counted() && Agree(b, m) && Allocated(v.F(), m)
    ensures Sound(v, b, m)
  {
  }

  /** Then no two entries of the FAT share a successor and none in use points to a free cluster. */
  lemma SoundShape(v: Volume, b: Books, m: Chains)
    requires Sound(v, b, m)
    ensures Shape(v.F())
  {
    v.ValidNext();
    AllocatedShape(v.F(), m);
  }

  lemma AgreeUpdate(b: Books, m: Chains, f: nat, start: nat, entry: nat, s: seq<nat>)
    requires Agree(b, m) && f in b.nodes && start == First(s) && (entry == start || entry == 0)
    ensures Agree(Books(b.nodes[f := start], b.entries[f := entry]), m[f := s])
  {
  }

  lemma SameChain(fat: Fat, s: seq<nat>, t: seq<nat>)
    requires Linked(fat, s) && Linked(fat, t) && s[0] == t[0]
    ensures s == t
  {
    LinkedIsChain(fat, s);
    LinkedIsChain(fat, t);
    ChainUnique(fat, s[0], s, t);
  }

  /** What a file's first cluster says about its chain. */
  lemma FileChain(v: Volume, b: Books, m: Chains, f: nat)
    requires Sound(v, b, m) && f in b.nodes
    ensures f in m && v.Valid() && |v.F()| <= BAD && b.nodes[f] == First(m[f]) && Owned(v.F(), m[f])
    ensures (m[f] == [] <==> b.nodes[f] == 0) && Started(v.F(), b.nodes[f])
    ensures m[f] != [] ==> Linked(v.F(), m[f]) && IsCluster(v.F(), b.nodes[f]) && !NeverEnds(v.F(), b.nodes[f])
    ensures b.entries[f] == b.nodes[f] || b.entries[f] == 0
  {
    v.Small();
    OwnedFile(v.F(), m, f);
    if m[f] != [] {
      OwnedChain(v.F(), m[f]);
    }
  }

  lemma Forget(fat: Fat, m: Chains, f: nat)
    requires Allocated(fat, m) && f in m && m[f] == []
    ensures Allocated(fat, m - {f})
  {
    hide Owned;
    var m' := m - {f};
    forall c: nat | IsCluster(fat, c) && fat[c] != FREE
      ensures exists g :: Holds(m', g, c)
    {
      var g :| Holds(m, g, c);
      assert Holds(m', g, c);
    }
    assert forall g, c :: Holds(m', g, c) ==> Holds(m, g, c);
  }

  // The operations

  /** A write to an empty file that takes a cluster or more and then finds too few. */
  ghost predicate Spills(fat: Fat, m: Chains, f: nat, needed: nat) {
    f in m && m[f] == [] && 1 <= Findable(fat) <= needed
  }

  /** The chain `s` has become `t` by clusters that were free. */
  ghost predicate Appended(fat: Fat, s: seq<nat>, fat': Fat, t: seq<nat>) {
    s <= t && TakenFree(fat, s, t[|s|..]) && fat' == Append(fat, s, t[|s|..])
  }

  lemma IsAppended(fat: Fat, s: seq<nat>, added: seq<nat>)
    requires TakenFree(fat, s, added)
    ensures Appended(fat, s, Append(fat, s, added), s + added)
  {
    assert (s + added)[|s|..] == added;
  }

  /**
   The chain that write_file works on. The directory entry is written only when the file gets all it
   needs, so it misses the new first cluster exactly after a spill.
   */
  method GrowFile(v: Volume, b: Books, f: nat, needed: nat, ghost m: Chains)
    returns (r: Growth, b': Books, ghost m': Chains)
    requires Sound(v, b, m) && f in b.nodes && needed > 0
    modifies v, v.cache
    ensures Sound(v, b', m') && f in m && f in m' && m' == m[f := m'[f]] && m[f] <= m'[f]
    ensures r != Broken && (r == NoSpace <==> Findable(old(v.F())) < Extra(|m[f]|, needed))
    ensures |m'[f]| == |m[f]| + if r == NoSpace then Findable(old(v.F())) else Extra(|m[f]|, needed)
    ensures b'.nodes == b.nodes[f := First(m'[f])]
    ensures b'.entries == if r == Grown then b.entries[f := First(m'[f])] else b.entries
    ensures Appended(old(v.F()), m[f], v.F(), m'[f])
    ensures b.entries[f] == b.nodes[f] ==>
              (b'.entries[f] == b'.nodes[f] <==> !Spills(old(v.F()), m, f, needed))
  {
    hide *;
    SoundParts(v, b, m);
    FileChain(v, b, m, f);
    ghost var fat, hint := v.F(), v.nextFree;
    var start, chain;
    ghost var s, added;
    r, start, chain, s, added := v.GrowChain(b.nodes[f], needed);
    FirstOf(m[f]);
    if b.nodes[f] != 0 {
      SameChain(fat, s, m[f]);
    }
    GrewOwned(fat, s, hint, needed, r, added);
    FirstOf(m[f] + added);
    FirstIsCluster(fat, m[f], added);
    GrowAllocated(fat, m, f, added);
    IsAppended(fat, m[f], added);
    var entry := if r == Grown then start else b.entries[f];
    b' := Books(b.nodes[f := start], b.entries[f := entry]);
    m' := m[f := m[f] + added];
    EntryAfter(fat, b, m, f, needed, r, added, start, entry);
    AgreeUpdate(b, m, f, start, entry, m[f] + added);
    SoundWhole(v, b', m');
  }

  lemma FirstIsCluster(fat: Fat, s: seq<nat>, added: seq<nat>)
    requires TakenFree(fat, s, added)
    ensures s + added != [] ==> (s + added)[0] >= 2
  {
  }

  lemma EntryAfter(
    fat: Fat, b: Books, m: Chains, f: nat, needed: nat, r: Growth, added: seq<nat>, start: nat, entry: nat)
    requires f in b.nodes && f in b.entries && f in m && Owned(fat, m[f]) && needed > 0 && r != Broken
    requires b.nodes[f] == First(m[f]) && (b.entries[f] == b.nodes[f] || b.entries[f] == 0)
    requires r == NoSpace <==> Findable(fat) < Extra(|m[f]|, needed)
    requires |added| == if r == NoSpace then Findable(fat) else Extra(|m[f]|, needed)
    requires start == First(m[f] + added) && (start == 0 <==> m[f] + added == [])
    requires entry == if r == Grown then start else b.entries[f]
    ensures entry == start || entry == 0
    ensures b.entries[f := b.entries[f]] == b.entries
    ensures b.entries[f] == b.nodes[f] ==> (entry == start <==> !Spills(fat, m, f, needed))
  {
  }

  /** The chain of a file is freed and neither node nor entry has a first cluster any more. */
  method FreeFile(v: Volume, b: Books, f: nat, ghost m: Chains) returns (b': Books)
    requires Sound(v, b, m) && f in b.nodes
    modifies v, v.cache
    ensures f in m && Sound(v, b', m[f := []]) && b' == Books(b.nodes[f := 0], b.entries[f := 0])
    ensures v.F() == Freed(old(v.F()), m[f])
  {
    hide *;
    SoundParts(v, b, m);
    FreedNone(v.F());
    FileChain(v, b, m, f);
    FirstOf([]);
    AgreeUpdate(b, m, f, 0, 0, []);
    b' := Books(b.nodes[f := 0], b.entries[f := 0]);
    ghost var fat := v.F();
    if b.nodes[f] == 0 {
      assert m[f := []] == m;
    } else {
      FirstOf(m[f]);
      FreeAllocated(fat, m, f);
      OwnedNow(fat, m[f]);
      v.CountedIfUnknown();
      var ok;
      ghost var s;
      ok, s := v.FreeClusterChain(b.nodes[f]);
      SameChain(fat, s, m[f]);
      v.CountedIfUnknown();
    }
    SoundWhole(v, b', m[f := []]);
  }

  lemma OwnedNow(fat: Fat, s: seq<nat>)
    requires Owned(fat, s) && s != []
    ensures s[|s| - 1] < |fat| && fat[s[|s| - 1]] != FREE
  {
    OwnedMember(fat, s, s[|s| - 1]);
  }

  /** The chain `s` has been cut to `n` clusters if it was longer. */
  ghost predicate Shortened(fat: Fat, s: seq<nat>, n: nat, fat': Fat) {
    if n >= |s| then fat' == fat
    else if n == 0 then fat' == Freed(fat, s)
    else s[n - 1] < |fat| && fat' == CutChain(fat, s, n)
  }

  lemma IsShortened(fat: Fat, s: seq<nat>, n: nat, fat': Fat)
    requires n >= |s| ==> fat' == fat
    requires 0 < n < |s| ==> s[n - 1] < |fat| && fat' == CutChain(fat, s, n)
    requires n == 0 ==> fat' == Freed(fat, s)
    ensures Shortened(fat, s, n, fat')
  {
  }

  /** truncate goes by the node and writes the entry, whatever it was before. */
  method TruncateFile(v: Volume, b: Books, f: nat, needed: nat, ghost m: Chains)
    returns (b': Books, ghost m': Chains)
    requires Sound(v, b, m) && f in b.nodes
    modifies v, v.cache
    ensures Sound(v, b', m')
    ensures f in m && m' == m[f := if needed < |m[f]| then m[f][..needed] else m[f]]
    ensures b' == Books(b.nodes[f := First(m'[f])], b.entries[f := First(m'[f])])
    ensures Shortened(old(v.F()), m[f], needed, v.F())
  {
    hide *;
    SoundParts(v, b, m);
    FirstOf([]);
    FileChain(v, b, m, f);
    if needed == 0 {
      b' := FreeFile(v, b, f, m);
      m' := m[f := []];
      SoundParts(v, b', m');
      assert m[f][..0] == [];
      FreedNone(old(v.F()));
      HasLayout(v);
      IsShortened(old(v.F()), m[f], 0, v.F());
      return;
    }
    ghost var fat := v.F();
    ghost var s := v.TruncateChain(b.nodes[f], needed);
    FirstOf(m[f]);
    ghost var kept := m[f];
    if b.nodes[f] != 0 {
      SameChain(fat, s, m[f]);
      if |s| > needed {
        OwnedMember(fat, s, s[needed - 1]);
        CutAllocated(fat, m, f, needed);
        FirstOf(s[..needed]);
        kept := s[..needed];
      }
    } else {
      ZeroIsNoCluster(fat);
    }
    assert m[f := m[f]] == m;
    HasLayout(v);
    IsShortened(fat, m[f], needed, v.F());
    b' := Books(b.nodes[f := b.nodes[f]], b.entries[f := b.nodes[f]]);
    m' := m[f := kept];
    AgreeUpdate(b, m, f, b.nodes[f], b.nodes[f], kept);
    SoundWhole(v, b', m');
  }

  lemma ZeroIsNoCluster(fat: Fat)
    ensures !IsCluster(fat, 0)
  {
  }

  lemma AgreeForget(b: Books, m: Chains, f: nat, m': Chains)
    requires Agree(b, m) && f in b.nodes && (m' == m || m' == m - {f})
    ensures Agree(Books(b.nodes - {f}, b.entries - {f}), m')
  {
  }

  /** delete_file goes by the directory entry: a chain that is not recorded there is lost. */
  method DeleteFile(v: Volume, b: Books, f: nat, ghost m: Chains) returns (b': Books, ghost m': Chains)
    requires Sound(v, b, m) && f in b.nodes
    modifies v, v.cache
    ensures f in b.entries && Sound(v, b', m') && b' == Books(b.nodes - {f}, b.entries - {f})
    ensures m' == if b.entries[f] == b.nodes[f] then m - {f} else m
    ensures b.entries[f] != b.nodes[f] ==> v.device == old(v.device)
    ensures v.F() == if b.entries[f] == b.nodes[f] then Freed(old(v.F()), m[f]) else old(v.F())
  {
    hide *;
    SoundParts(v, b, m);
    FileChain(v, b, m, f);
    b' := Books(b.nodes - {f}, b.entries - {f});
    if b.entries[f] != b.nodes[f] {
      AgreeForget(b, m, f, m);
      m' := m;
    } else {
      var freed := FreeFile(v, b, f, m);
      SoundParts(v, freed, m[f := []]);
      Forget(v.F(), m[f := []], f);
      assert m[f := []] - {f} == m - {f};
      assert Books(freed.nodes - {f}, freed.entries - {f}) == b';
      AgreeForget(freed, m[f := []], f, m[f := []] - {f});
      m' := m - {f};
    }
    SoundWhole(v, b', m');
  }

  /** The node is looked up again: its first cluster is the one in the directory entry. */
  method ReopenFile(v: Volume, b: Books, f: nat, ghost m: Chains) returns (b': Books, ghost m': Chains)
    requires Sound(v, b, m) && f in b.nodes
    ensures f in b.entries && Sound(v, b', m') && b' == Books(b.nodes[f := b.entries[f]], b.entries)
    ensures b.entries[f] == b.nodes[f] ==> m' == m
    ensures b.entries[f] != b.nodes[f] ==> exists k :: k !in m && f in m && m' == m[f := []][k := m[f]]
  {
    hide *;
    SoundParts(v, b, m);
    FileChain(v, b, m, f);
    b' := Books(b.nodes[f := b.entries[f]], b.entries);
    m' := m;
    assert b.entries[f := b.entries[f]] == b.entries;
    if b.entries[f] == b.nodes[f] {
      assert b.nodes[f := b.nodes[f]] == b.nodes;
    } else {
      ghost var k := FreshKey(m.Keys);
      MoveChain(v.F(), m, f, k);
      AgreeMoved(b, m, f, k);
      m' := m[f := []][k := m[f]];
    }
    SoundWhole(v, b', m');
  }

  lemma {:induction false} FreshKey(keys: set<nat>) returns (k: nat)
    ensures k !in keys && forall x :: x in keys ==> x < k
  {
    if keys == {} {
      k := 0;
    } else {
      var x :| x in keys;
      var j := FreshKey(keys - {x});
      k := if x < j then j else x + 1;
      assert forall y :: y in keys ==> y == x || y in keys - {x};
    }
  }

  /** Allocation does not depend on which key a chain has. */
  lemma MoveChain(fat: Fat, m: Chains, f: nat, k: nat)
    requires Allocated(fat, m) && f in m && k !in m
    ensures Allocated(fat, m[f := []][k := m[f]])
  {
    hide Owned;
    NoClusters(fat);
    OwnedFile(fat, m, f);
    var m' := m[f := []][k := m[f]];
    forall g | g in m'
      ensures Owned(fat, m'[g])
    {
      if g != f && g != k {
        OwnedFile(fat, m, g);
      }
    }
    forall g, c | Holds(m', g, c)
      ensures Holds(m, if g == k then f else g, c)
    {
    }
    forall g, h, c | Holds(m', g, c) && Holds(m', h, c)
      ensures g == h
    {
      assert Holds(m, if g == k then f else g, c) && Holds(m, if h == k then f else h, c);
    }
    forall c: nat | IsCluster(fat, c) && fat[c] != FREE
      ensures exists g :: Holds(m', g, c)
    {
      var g :| Holds(m, g, c);
      assert Holds(m', if g == f then k else g, c);
    }
  }

  lemma NoClusters(fat: Fat)
    ensures Owned(fat, [])
  {
  }

  lemma AgreeMoved(b: Books, m: Chains, f: nat, k: nat)
    requires Agree(b, m) && f in b.nodes && k !in m && b.entries[f] == 0
    ensures Agree(Books(b.nodes[f := 0], b.entries), m[f := []][k := m[f]])
  {
  }

  // Runs

  datatype Op =
    | Write(file: nat, needed: nat)
    | Truncate(file: nat, needed: nat)
    | Delete(file: nat)
    | Reopen(file: nat)

  /** The FAT, what is in memory and in the directory, and the chains. */
  datatype Snap = Snap(fat: Fat, books: Books, chains: Chains)

  /** Every directory entry is up to date and no chain is lost. */
  ghost predicate Fine(s: Snap) {
    Recorded(s.books) && NoneLost(s.books, s.chains)
  }

  /** The operation is a write that spills. */
  ghost predicate SpillsAt(s: Snap, op: Op) {
    op.Write? && op.needed > 0 && op.file in s.books.nodes && Spills(s.fat, s.chains, op.file, op.needed)
  }

  /** What an operation does. */
  ghost predicate Did(s: Snap, op: Op, s': Snap) {
    var f, b, m, b', m' := op.file, s.books, s.chains, s'.books, s'.chains;
    if f !in b.nodes || f !in b.entries || f !in m || (op.Write? && op.needed == 0) then s' == s
    else
      match op
      case Write(_, needed) =>
        var short := Findable(s.fat) < Extra(|m[f]|, needed);
        && f in m' && m' == m[f := m'[f]] && Appended(s.fat, m[f], s'.fat, m'[f])
        && |m'[f]| == |m[f]| + (if short then Findable(s.fat) else Extra(|m[f]|, needed))
        && b'.nodes == b.nodes[f := First(m'[f])]
        && b'.entries == (if short then b.entries else b.entries[f := First(m'[f])])
      case Truncate(_, needed) =>
        && f in m' && m' == m[f := if needed < |m[f]| then m[f][..needed] else m[f]]
        && Shortened(s.fat, m[f], needed, s'.fat)
        && b' == Books(b.nodes[f := First(m'[f])], b.entries[f := First(m'[f])])
      case Delete(_) =>
        && b' == Books(b.nodes - {f}, b.entries - {f})
        && m' == (if b.entries[f] == b.nodes[f] then m - {f} else m)
        && s'.fat == (if b.entries[f] == b.nodes[f] then Freed(s.fat, m[f]) else s.fat)
      case Reopen(_) =>
        && b' == Books(b.nodes[f := b.entries[f]], b.entries) && s'.fat == s.fat
        && (if b.entries[f] == b.nodes[f] then m' == m else exists k :: k !in m && m' == m[f := []][k := m[f]])
  }

  /** One operation. A write to an empty file that finds some clusters and not enough is what breaks a fine state. */
  method Do(v: Volume, b: Books, op: Op, ghost m: Chains) returns (b': Books, ghost m': Chains)
    requires Sound(v, b, m)
    modifies v, v.cache
    ensures Sound(v, b', m') && Did(Snap(old(v.F()), b, m), op, Snap(v.F(), b', m'))
    ensures var s := Snap(old(v.F()), b, m);
            Fine(s) ==> NoneLost(b', m') && (Recorded(b') <==> !SpillsAt(s, op))
  {
    hide *;
    SoundParts(v, b, m);
    b', m' := b, m;
    ghost var s := Snap(v.F(), b, m);
    if op.file !in b.nodes {
      NothingDone(s, op);
      return;
    }
    FileChain(v, b, m, op.file);
    match op {
      case Write(f, needed) =>
        if needed == 0 {
          NothingDone(s, op);
        } else {
          var r;
          r, b', m' := GrowFile(v, b, f, needed, m);
          SoundParts(v, b', m');
          AfterWrite(s, f, needed, Snap(v.F(), b', m'), r);
        }
      case Truncate(f, needed) =>
        b', m' := TruncateFile(v, b, f, needed, m);
        SoundParts(v, b', m');
        AfterTruncate(s, f, needed, Snap(v.F(), b', m'));
      case Delete(f) =>
        b', m' := DeleteFile(v, b, f, m);
        SoundParts(v, b', m');
        AfterDelete(s, f, Snap(v.F(), b', m'));
      case Reopen(f) =>
        b', m' := ReopenFile(v, b, f, m);
        AfterReopen(s, f, Snap(v.F(), b', m'));
    }
  }

  lemma NothingDone(s: Snap, op: Op)
    requires op.file !in s.books.nodes || (op.Write? && op.needed == 0)
    ensures Did(s, op, s) && !SpillsAt(s, op)
    ensures Fine(s) ==> NoneLost(s.books, s.chains) && Recorded(s.books)
  {
  }

  lemma AfterWrite(s: Snap, f: nat, needed: nat, s': Snap, r: Growth)
    requires var b, m, b', m' := s.books, s.chains, s'.books, s'.chains;
             && f in b.nodes && f in b.entries && f in m && f in m' && m' == m[f := m'[f]] && needed > 0
             && r != Broken && (r == NoSpace <==> Findable(s.fat) < Extra(|m[f]|, needed))
             && |m'[f]| == |m[f]| + (if r == NoSpace then Findable(s.fat) else Extra(|m[f]|, needed))
             && Appended(s.fat, m[f], s'.fat, m'[f])
             && b'.nodes == b.nodes[f := First(m'[f])]
             && b'.entries == (if r == Grown then b.entries[f := First(m'[f])] else b.entries)
             && (b.entries[f] == b.nodes[f] ==> (b'.entries[f] == b'.nodes[f] <==> !Spills(s.fat, m, f, needed)))
    ensures Did(s, Write(f, needed), s')
    ensures Fine(s) ==> NoneLost(s'.books, s'.chains) && (Recorded(s'.books) <==> !SpillsAt(s, Write(f, needed)))
  {
    hide Appended;
    hide Spills;
    hide Findable;
  }

  lemma AfterTruncate(s: Snap, f: nat, needed: nat, s': Snap)
    requires var b, m, b', m' := s.books, s.chains, s'.books, s'.chains;
             && f in b.nodes && f in b.entries && f in m
             && m' == m[f := if needed < |m[f]| then m[f][..needed] else m[f]]
             && b' == Books(b.nodes[f := First(m'[f])], b.entries[f := First(m'[f])])
             && Shortened(s.fat, m[f], needed, s'.fat)
    ensures Did(s, Truncate(f, needed), s') && !SpillsAt(s, Truncate(f, needed))
    ensures Fine(s) ==> NoneLost(s'.books, s'.chains) && Recorded(s'.books)
  {
    hide Shortened;
  }

  lemma AfterDelete(s: Snap, f: nat, s': Snap)
    requires var b, m, b', m' := s.books, s.chains, s'.books, s'.chains;
             && f in b.nodes && f in b.entries && f in m && b' == Books(b.nodes - {f}, b.entries - {f})
             && m' == (if b.entries[f] == b.nodes[f] then m - {f} else m)
             && s'.fat == (if b.entries[f] == b.nodes[f] then Freed(s.fat, m[f]) else s.fat)
    ensures Did(s, Delete(f), s') && !SpillsAt(s, Delete(f))
    ensures Fine(s) ==> NoneLost(s'.books, s'.chains) && Recorded(s'.books)
  {
    hide Freed;
  }

  lemma AfterReopen(s: Snap, f: nat, s': Snap)
    requires var b, m, b', m' := s.books, s.chains, s'.books, s'.chains;
             && f in b.nodes && f in b.entries && f in m && b' == Books(b.nodes[f := b.entries[f]], b.entries)
             && s'.fat == s.fat && (b.entries[f] == b.nodes[f] ==> m' == m)
             && (b.entries[f] != b.nodes[f] ==> exists k :: k !in m && f in m && m' == m[f := []][k := m[f]])
    ensures Did(s, Reopen(f), s') && !SpillsAt(s, Reopen(f))
    ensures Fine(s) ==> NoneLost(s'.books, s'.chains) && Recorded(s'.books)
  {
    if Recorded(s.books) {
      assert s.books.nodes[f := s.books.nodes[f]] == s.books.nodes;
    }
  }

  /** The states of a run, one more than its operations. */
  ghost predicate Traced(trace: seq<Snap>, ops: seq<Op>) {
    && |trace| == |ops| + 1
    && forall i :: 0 <= i < |ops| ==> Did(trace[i], ops[i], trace[i + 1])
  }

  /** A fine state stays fine with each operation exactly unless that spills. */
  ghost predicate Kept(trace: seq<Snap>, ops: seq<Op>)
    requires |trace| == |ops| + 1
  {
    forall i :: 0 <= i < |ops| && Fine(trace[i]) ==> (Fine(trace[i + 1]) <==> !SpillsAt(trace[i], ops[i]))
  }

  lemma TracedMore(trace: seq<Snap>, ops: seq<Op>, op: Op, s: Snap)
    requires Traced(trace, ops) && Kept(trace, ops) && Did(trace[|ops|], op, s)
    requires Fine(trace[|ops|]) ==> (Fine(s) <==> !SpillsAt(trace[|ops|], op))
    ensures Traced(trace + [s], ops + [op]) && Kept(trace + [s], ops + [op])
  {
    hide Did;
    hide Fine;
    hide SpillsAt;
  }

  lemma FineMeans(s: Snap)
    ensures Fine(s) <==> Recorded(s.books) && NoneLost(s.books, s.chains)
  {
  }

  lemma TracedNone(s: Snap)
    ensures Traced([s], []) && Kept([s], [])
  {
  }

  /**
   Whatever is done to the files, each cluster in use is on exactly one chain. From one state of the
   run to the next the files and their entries stay as they should exactly unless a write spills.
   */
  method Run(v: Volume, b: Books, ops: seq<Op>, ghost m: Chains)
    returns (b': Books, ghost m': Chains, ghost trace: seq<Snap>)
    requires Sound(v, b, m)
    modifies v, v.cache
    ensures Sound(v, b', m') && Traced(trace, ops) && Kept(trace, ops)
    ensures trace[0] == Snap(old(v.F()), b, m) && trace[|ops|] == Snap(v.F(), b', m')
  {
    hide *;
    SoundParts(v, b, m);
    b', m', trace := b, m, [Snap(v.F(), b, m)];
    TracedNone(trace[0]);
    for i := 0 to |ops|
      invariant Sound(v, b', m') && Layout(v.bpb, v.device)
      invariant |trace| == i + 1 && Traced(trace, ops[..i]) && Kept(trace, ops[..i])
      invariant trace[0] == Snap(old(v.F()), b, m) && trace[i] == Snap(v.F(), b', m')
    {
      b', m' := Do(v, b', ops[i], m');
      SoundParts(v, b', m');
      ghost var s := Snap(v.F(), b', m');
      FineMeans(trace[i]);
      FineMeans(s);
      TracedMore(trace, ops[..i], ops[i], s);
      assert ops[..i] + [ops[i]] == ops[..i + 1];
      trace := trace + [s];
    }
    assert ops[..|ops|] == ops;
  }

  /**
   A run that stops behind the first write that spills, which the file's node and entry show. It does
   all operations exactly if every chain then is that of a file and starts where its entry says.
   */
  method RunToSpill(v: Volume, b: Books, ops: seq<Op>, ghost m: Chains)
    returns (k: nat, b': Books, ghost m': Chains, ghost trace: seq<Snap>)
    requires Sound(v, b, m) && Recorded(b) && NoneLost(b, m)
    modifies v, v.cache
    ensures Sound(v, b', m') && k <= |ops|
    ensures var done := if k < |ops| then ops[..k + 1] else ops;
            && Traced(trace, done)
            && trace[0] == Snap(old(v.F()), b, m) && trace[|done|] == Snap(v.F(), b', m')
    ensures k == |ops| <==> Recorded(b') && NoneLost(b', m')
    ensures forall i :: 0 <= i < k ==> Fine(trace[i]) && !SpillsAt(trace[i], ops[i])
    ensures k < |ops| ==> Fine(trace[k]) && SpillsAt(trace[k], ops[k])
  {
    hide *;
    SoundParts(v, b, m);
    b', m', trace := b, m, [Snap(v.F(), b, m)];
    TracedNone(trace[0]);
    FineMeans(trace[0]);
    k := 0;
    while k < |ops|
      invariant k <= |ops| && Sound(v, b', m') && Layout(v.bpb, v.device) && Recorded(b') && NoneLost(b', m')
      invariant |trace| == k + 1 && Traced(trace, ops[..k]) && Kept(trace, ops[..k])
      invariant trace[0] == Snap(old(v.F()), b, m) && trace[k] == Snap(v.F(), b', m')
      invariant forall i :: 0 <= i < k ==> Fine(trace[i]) && !SpillsAt(trace[i], ops[i])
    {
      ghost var s := trace[k];
      b', m' := Do(v, b', ops[k], m');
      SoundParts(v, b', m');
      ghost var s' := Snap(v.F(), b', m');
      FineMeans(s);
      FineMeans(s');
      TracedMore(trace, ops[..k], ops[k], s');
      assert ops[..k] + [ops[k]] == ops[..k + 1];
      trace := trace + [s'];
      var f := ops[k].file;
      Diverged(s, ops[k], s');
      if f in b'.nodes && b'.entries[f] != b'.nodes[f] {
        return;
      }
      k := k + 1;
    }
    assert ops[..|ops|] == ops;
  }

  /** Only the file that was worked on can have an entry that misses its chain. */
  lemma Diverged(s: Snap, op: Op, s': Snap)
    requires Fine(s) && Did(s, op, s')
    ensures op.file in s'.books.nodes ==> op.file in s'.books.entries
    ensures Recorded(s'.books) <==>
            !(op.file in s'.books.nodes && s'.books.entries[op.file] != s'.books.nodes[op.file])
  {
    hide Appended;
    hide Shortened;
    hide Findable;
    hide Freed;
  }

  /** No way of giving the files their chains covers all clusters in use. */
  ghost predicate Leaks(v: Volume, b: Books)
    reads v, v.cache
    requires v.Valid()
  {
    forall m :: Agree(b, m) && NoneLost(b, m) ==> !Allocated(v.F(), m)
  }

  /** Chains from the same first clusters are the same. */
  lemma ChainsFixed(fat: Fat, b: Books, m: Chains, m2: Chains, g: nat)
    requires Agree(b, m) && Agree(b, m2) && Allocated(fat, m) && Allocated(fat, m2) && g in b.nodes
    ensures m2[g] == m[g]
  {
    OwnedFile(fat, m, g);
    OwnedFile(fat, m2, g);
    if m[g] != [] && m2[g] != [] {
      SameChain(fat, m[g], m2[g]);
    }
  }

  lemma LostNotCovered(fat: Fat, b: Books, m: Chains, m2: Chains, k: nat, c: nat)
    requires Agree(b, m) && Allocated(fat, m) && k !in b.nodes && Holds(m, k, c)
    requires Agree(b, m2) && NoneLost(b, m2)
    ensures !Allocated(fat, m2)
  {
    hide Owned;
    OwnedFile(fat, m, k);
    OwnedMember(fat, m[k], c);
    if Allocated(fat, m2) {
      var g :| Holds(m2, g, c);
      ChainsFixed(fat, b, m, m2, g);
      OnlyHolder(fat, m, k, g, c);
    }
  }

  lemma OnlyHolder(fat: Fat, m: Chains, k: nat, g: nat, c: nat)
    requires Allocated(fat, m) && k in m && g in m && c in m[k] && c in m[g]
    ensures g == k
  {
    assert Holds(m, k, c) && Holds(m, g, c);
  }

  /** A chain that belongs to no file leaks. */
  lemma LostLeaks(v: Volume, b: Books, m: Chains, k: nat, c: nat)
    requires Sound(v, b, m) && k !in b.nodes && Holds(m, k, c)
    ensures v.Valid() && Leaks(v, b)
  {
    hide Allocated;
    hide Agree;
    hide v.Valid;
    hide Holds;
    SoundParts(v, b, m);
    forall m2 | Agree(b, m2) && NoneLost(b, m2)
      ensures !Allocated(v.F(), m2)
    {
      LostNotCovered(v.F(), b, m, m2, k, c);
    }
  }

  lemma SpillMeans(fat: Fat, b: Books, m: Chains, f: nat, needed: nat)
    requires Spills(fat, m, f, needed) && Recorded(b) && f in b.nodes
    ensures f in m && m[f] == [] && 1 <= Findable(fat) < Extra(0, needed) && needed > 0
    ensures f in b.entries && b.entries[f] == b.nodes[f]
    ensures b.nodes == b.entries
  {
  }

  lemma FirstHeld(m: Chains, f: nat)
    requires f in m && m[f] != []
    ensures Holds(m, f, m[f][0])
  {
  }

  /** A write that spills, and then the deletion of the file: clusters stay in use and on no file's chain. */
  method SpillThenDelete(v: Volume, b: Books, f: nat, needed: nat, ghost m: Chains) returns (b': Books)
    requires Sound(v, b, m) && Recorded(b) && f in b.nodes && Spills(v.F(), m, f, needed)
    modifies v, v.cache
    ensures b' == Books(b.nodes - {f}, b.nodes - {f}) && v.Valid() && Leaks(v, b')
  {
    hide *;
    SoundParts(v, b, m);
    SpillMeans(v.F(), b, m, f, needed);
    var r, b1;
    ghost var m1, m2;
    r, b1, m1 := GrowFile(v, b, f, needed, m);
    b', m2 := DeleteFile(v, b1, f, m1);
    assert b1.nodes - {f} == b.nodes - {f};
    FirstHeld(m2, f);
    LostLeaks(v, b', m2, f, m2[f][0]);
  }

  /** Two clusters, one in use by file 1 and one free; file 0 is empty. */
  function TwoClusters(): Fat {
    [0, 0, END_MARK, FREE]
  }

  lemma TwoClustersAllocated()
    ensures Allocated(TwoClusters(), map[0 := [], 1 := [2]]) && Findable(TwoClusters()) == 1
  {
    var fat, m := TwoClusters(), map[0 := [], 1 := [2]];
    assert Next(fat, 2) == 0;
    assert CountFree(fat, 2) == 0 && CountFree(fat, 3) == 0;
    assert Holds(m, 1, 2);
  }

  function TwoClustersBpb(): Bpb {
    Bpb(4, 0, 1, 1, 2)
  }

  function TwoClustersDisk(): Device {
    [[0, 0, END_MARK, FREE]]
  }

  lemma TwoClustersLayout()
    ensures Layout(TwoClustersBpb(), TwoClustersDisk())
  {
  }

  lemma InRow(bpb: Bpb, c: nat)
    requires c < bpb.perSector
    ensures bpb.Row(c) == 0 && bpb.Col(c) == c
  {
    var n := bpb.perSector;
    var q, r := c / n, c % n;
    assert c == q * n + r;
    assert q >= 1 ==> q * n >= n;
  }

  lemma Unmasked(w: nat)
    requires w < MASK
    ensures w % MASK == w
  {
  }

  /** The words of a FAT that begins at the first sector and fits in it. */
  lemma FirstSector(bpb: Bpb, device: Device, c: nat)
    requires Layout(bpb, device) && bpb.reserved == 0 && c < bpb.clusters + 2 <= bpb.perSector
    ensures 0 < |device| && c < |device[0]| && Word(bpb, device, 0, c) == device[0][c]
  {
    bpb.RowInTable(c);
    bpb.BaseBound(0);
    InRow(bpb, c);
    assert bpb.Base(0) == 0;
  }

  lemma TwoClustersWord(c: nat)
    requires c < 4
    ensures Layout(TwoClustersBpb(), TwoClustersDisk())
    ensures Word(TwoClustersBpb(), TwoClustersDisk(), 0, c) % MASK == TwoClusters()[c]
  {
    hide Layout;
    hide Word;
    TwoClustersLayout();
    FirstSector(TwoClustersBpb(), TwoClustersDisk(), c);
    Unmasked(TwoClustersDisk()[0][c]);
  }

  lemma TwoClustersTable()
    ensures Layout(TwoClustersBpb(), TwoClustersDisk()) && Mirrored(TwoClustersBpb(), TwoClustersDisk())
    ensures Table(TwoClustersBpb(), TwoClustersDisk(), 0) == TwoClusters()
  {
    hide Layout;
    hide Word;
    TwoClustersLayout();
    forall c: nat | c < 4
      ensures Word(TwoClustersBpb(), TwoClustersDisk(), 0, c) % MASK == TwoClusters()[c]
    {
      TwoClustersWord(c);
    }
  }

  function TwoFiles(): Books {
    Books(map[0 := 0, 1 := 2], map[0 := 0, 1 := 2])
  }

  function TwoChains(): Chains {
    map[0 := [], 1 := [2]]
  }

  lemma TwoFilesAgree()
    ensures Agree(TwoFiles(), TwoChains()) && Recorded(TwoFiles()) && Allocated(TwoClusters(), TwoChains())
    ensures Spills(TwoClusters(), TwoChains(), 0, 1) && 0 in TwoFiles().nodes
    ensures TwoFiles().nodes - {0} == map[1 := 2]
  {
    hide Allocated;
    TwoClustersAllocated();
  }

  lemma TableOf(v: Volume)
    requires Layout(v.bpb, v.device)
    ensures v.F() == Table(v.bpb, v.device, 0)
  {
  }

  /** One cluster is written to file 0, which finds no second one, and the file is deleted. */
  method LosesCluster() returns (v: Volume, b: Books)
    ensures fresh(v) && fresh(v.cache) && v.Valid() && b == Books(map[1 := 2], map[1 := 2]) && Leaks(v, b)
  {
    hide *;
    TwoClustersTable();
    TwoFilesAgree();
    v := new Volume(TwoClustersBpb(), TwoClustersDisk(), 1, UNKNOWN, 2);
    TableOf(v);
    v.CountedIfUnknown();
    SoundWhole(v, TwoFiles(), TwoChains());
    b := SpillThenDelete(v, TwoFiles(), 0, 1, TwoChains());
  }
}
