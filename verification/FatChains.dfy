/**
 Cluster chains as values. A FAT is the sequence of its entries, 28 bits each; clusters are numbered
 from 2, so the first two entries belong to no cluster.
 */
module FatChains {
  import opened Pigeonhole

  const FREE: nat := 0
  const BAD: nat := 0x0FFFFFF7
  const EOC: nat := 0x0FFFFFF8
  const END_MARK: nat := 0x0FFFFFFF

  type Fat = seq<nat>

  predicate IsCluster(fat: Fat, c: nat) {
    2 <= c < |fat|
  }

  /** next_cluster: the successor of a cluster, 0 at the end of a chain. */
  function Next(fat: Fat, c: nat): nat {
    if !IsCluster(fat, c) then 0
    else
      var e := fat[c];
      if e >= EOC || e == 0 || e == 1 || e == BAD then 0 else e
  }

  /** The cluster reached after `k` steps; 0 once the chain has ended. */
  function Walk(fat: Fat, c: nat, k: nat): nat {
    if k == 0 then c else Next(fat, Walk(fat, c, k - 1))
  }

  ghost predicate NeverEnds(fat: Fat, c: nat) {
    forall k: nat :: Walk(fat, c, k) != 0
  }

  lemma {:induction false} WalkAdd(fat: Fat, c: nat, j: nat, k: nat)
    ensures Walk(fat, c, j + k) == Walk(fat, Walk(fat, c, j), k)
  {
    if k > 0 {
      WalkAdd(fat, c, j, k - 1);
    }
  }

  lemma {:induction false} WalkEnded(fat: Fat, c: nat, j: nat, k: nat)
    requires j <= k && Walk(fat, c, j) == 0
    ensures Walk(fat, c, k) == 0
    decreases k - j
  {
    if j < k {
      WalkEnded(fat, c, j + 1, k);
    }
  }

  function Walked(fat: Fat, c: nat, n: nat): (s: seq<nat>)
    ensures |s| == n
  {
    seq(n, k requires 0 <= k < n => Walk(fat, c, k))
  }

  /** A walk that goes on for long enough comes back to a cluster it has visited. */
  lemma Revisit(fat: Fat, c: nat) returns (i: nat, j: nat)
    requires forall k :: 0 <= k <= |fat| ==> IsCluster(fat, Walk(fat, c, k))
    ensures i < j <= |fat| && Walk(fat, c, i) == Walk(fat, c, j)
  {
    var s := Walked(fat, c, |fat| + 1);
    if forall i, j :: 0 <= i < j < |s| ==> s[i] != s[j] {
      DistinctBound(s, |fat|);
    }
    i, j :| 0 <= i < j < |s| && s[i] == s[j];
  }

  lemma {:induction false} Periodic(fat: Fat, c: nat, i: nat, p: nat, k: nat)
    requires Walk(fat, c, i) == Walk(fat, c, i + p) && i <= k
    ensures Walk(fat, c, k) == Walk(fat, c, k + p)
  {
    WalkAdd(fat, c, i, k - i);
    WalkAdd(fat, c, i + p, k - i);
    assert i + p + (k - i) == k + p;
  }

  lemma {:induction false} PeriodicTimes(fat: Fat, c: nat, i: nat, p: nat, k: nat, m: nat)
    requires Walk(fat, c, i) == Walk(fat, c, i + p) && i <= k
    ensures Walk(fat, c, k) == Walk(fat, c, k + m * p)
  {
    hide Walk;
    if m == 0 {
      assert k + m * p == k;
    } else {
      var q := (m - 1) * p;
      PeriodicTimes(fat, c, i, p, k, m - 1);
      Periodic(fat, c, i, p, k + q);
      assert m * p == q + p;
    }
  }

  /** A walk that never ends has a step at which the hare, twice as far, is on the same cluster. */
  lemma Meeting(fat: Fat, c: nat) returns (t: nat)
    requires NeverEnds(fat, c)
    ensures t > 0 && Walk(fat, c, t) == Walk(fat, c, 2 * t)
  {
    forall k: nat
      ensures IsCluster(fat, Walk(fat, c, k))
    {
      assert Walk(fat, c, k + 1) != 0;
    }
    var i, j := Revisit(fat, c);
    var p := j - i;
    t := (i + 1) * p;
    assert t >= i + 1;
    PeriodicTimes(fat, c, i, p, t, i + 1);
  }

  /** Tortoise and hare on the same cluster: the walk goes on for ever. */
  lemma MeetingLoops(fat: Fat, c: nat, t: nat)
    requires t > 0 && Walk(fat, c, t) == Walk(fat, c, 2 * t) && Walk(fat, c, t) != 0
    ensures NeverEnds(fat, c)
  {
    forall k: nat
      ensures Walk(fat, c, k) != 0
    {
      PeriodicTimes(fat, c, t, t, t, k);
      assert t + k * t >= k;
      if Walk(fat, c, k) == 0 {
        WalkEnded(fat, c, k, t + k * t);
      }
    }
  }

  /** The round in which the loop of has_fat_loop is over. */
  ghost predicate Decided(fat: Fat, c: nat, t: nat) {
    t > 0 && (Walk(fat, c, t) == 0 || Walk(fat, c, t) == Walk(fat, c, 2 * t))
  }

  lemma SomeRoundDecides(fat: Fat, c: nat) returns (t: nat)
    ensures Decided(fat, c, t)
  {
    if NeverEnds(fat, c) {
      t := Meeting(fat, c);
    } else {
      var k: nat :| Walk(fat, c, k) == 0;
      WalkEnded(fat, c, k, k + 1);
      t := k + 1;
    }
  }

  // Chains

  /** `s` is the chain that starts at `c`: it follows the FAT and stops at the terminator. */
  ghost predicate IsChain(fat: Fat, c: nat, s: seq<nat>) {
    && (forall k :: 0 <= k < |s| ==> s[k] == Walk(fat, c, k))
    && (forall k: nat :: k < |s| ==> IsCluster(fat, Walk(fat, c, k)))
    && !IsCluster(fat, Walk(fat, c, |s|))
  }

  lemma ChainHead(fat: Fat, c: nat)
    ensures Walk(fat, c, 0) == c
  {
  }

  /** One step along a chain. */
  lemma ChainStep(fat: Fat, c: nat, s: seq<nat>, i: nat)
    requires IsChain(fat, c, s) && i < |s|
    ensures s[i] == Walk(fat, c, i) && IsCluster(fat, s[i])
    ensures i + 1 < |s| ==> fat[s[i]] == Walk(fat, c, i + 1)
  {
    assert i + 1 < |s| ==> IsCluster(fat, Walk(fat, c, i + 1));
  }

  /** A cluster has one chain, and no cluster is on it twice. */
  lemma ChainUnique(fat: Fat, c: nat, s: seq<nat>, t: seq<nat>)
    requires IsChain(fat, c, s) && IsChain(fat, c, t)
    ensures s == t
  {
    assert |s| == |t|;
  }

  lemma ChainDistinct(fat: Fat, c: nat, s: seq<nat>, i: nat, j: nat)
    requires IsChain(fat, c, s) && i < j < |s|
    ensures s[i] != s[j]
  {
    WalkAdd(fat, c, i, |s| - j);
    WalkAdd(fat, c, j, |s| - j);
  }

  // Free clusters

  function CountFree(fat: Fat, n: nat): nat
    requires n <= |fat|
  {
    if n <= 2 then 0 else CountFree(fat, n - 1) + if fat[n - 1] == FREE then 1 else 0
  }

  lemma {:induction false} CountFreeSet(fat: Fat, c: nat, v: nat, n: nat)
    requires IsCluster(fat, c) && n <= |fat|
    ensures CountFree(fat[c := v], n) == CountFree(fat, n) +
            if c >= n || (fat[c] == FREE) == (v == FREE) then 0 else if v == FREE then 1 else -1
  {
    if n > 2 {
      CountFreeSet(fat, c, v, n - 1);
    }
  }

  lemma {:induction false} CountFreeBound(fat: Fat, n: nat)
    requires n <= |fat|
    ensures CountFree(fat, n) <= n
  {
    if n > 2 {
      CountFreeBound(fat, n - 1);
    }
  }

  /** No two clusters share a successor, and no cluster's successor is free. */
  ghost predicate Shape(fat: Fat) {
    && (forall a, b :: IsCluster(fat, a) && IsCluster(fat, b) && Next(fat, a) == Next(fat, b) != 0 ==> a == b)
    && (forall a :: IsCluster(fat, a) && Next(fat, a) != 0 ==>
          IsCluster(fat, Next(fat, a)) && fat[Next(fat, a)] != FREE)
  }

  // Chains link by link

  /** Each cluster of `s` points to the next one and the last one points to no cluster. */
  ghost predicate Linked(fat: Fat, s: seq<nat>) {
    && s != []
    && (forall k :: 0 <= k < |s| ==> IsCluster(fat, s[k]))
    && (forall k :: 0 <= k < |s| - 1 ==> Next(fat, s[k]) == s[k + 1])
    && !IsCluster(fat, Next(fat, s[|s| - 1]))
  }

  lemma {:induction false} LinkedWalk(fat: Fat, s: seq<nat>, k: nat)
    requires Linked(fat, s) && k < |s|
    ensures Walk(fat, s[0], k) == s[k]
  {
    if k > 0 {
      LinkedWalk(fat, s, k - 1);
    }
  }

  lemma LinkedIsChain(fat: Fat, s: seq<nat>)
    requires Linked(fat, s)
    ensures IsChain(fat, s[0], s) && !NeverEnds(fat, s[0])
  {
    forall k: nat | k < |s|
      ensures Walk(fat, s[0], k) == s[k] && IsCluster(fat, Walk(fat, s[0], k))
    {
      LinkedWalk(fat, s, k);
    }
    assert Walk(fat, s[0], |s|) == Next(fat, Walk(fat, s[0], |s| - 1));
    assert Walk(fat, s[0], |s| + 1) == 0;
  }

  lemma ChainIsLinked(fat: Fat, c: nat, s: seq<nat>)
    requires IsChain(fat, c, s) && IsCluster(fat, c)
    ensures Linked(fat, s) && s[0] == c
  {
    assert s != [] by {
      assert Walk(fat, c, 0) == c;
    }
    forall k | 0 <= k < |s|
      ensures Next(fat, s[k]) == Walk(fat, c, k + 1)
    {
      assert s[k] == Walk(fat, c, k);
    }
  }

  lemma LinkedDistinct(fat: Fat, s: seq<nat>)
    requires Linked(fat, s)
    ensures forall i, j :: 0 <= i < j < |s| ==> s[i] != s[j]
  {
    LinkedIsChain(fat, s);
    forall i, j | 0 <= i < j < |s|
      ensures s[i] != s[j]
    {
      ChainDistinct(fat, s[0], s, i, j);
    }
  }

  /** A chain depends on the entries of its own clusters only. */
  lemma LinkedFrame(fat: Fat, fat': Fat, s: seq<nat>)
    requires Linked(fat, s) && |fat'| == |fat|
    requires forall c :: c in s && IsCluster(fat, c) ==> fat'[c] == fat[c]
    ensures Linked(fat', s)
  {
    assert forall k :: 0 <= k < |s| ==> s[k] in s && Next(fat', s[k]) == Next(fat, s[k]);
  }

  /** The entries of `s` set to free. */
  function Freed(fat: Fat, s: seq<nat>): Fat {
    seq(|fat|, c requires 0 <= c < |fat| => if c in s then FREE else fat[c])
  }

  lemma FreedSnoc(fat: Fat, s: seq<nat>, c: nat)
    requires c < |fat|
    ensures Freed(fat, s + [c]) == Freed(fat, s)[c := FREE]
  {
  }

  lemma FreedNone(fat: Fat)
    ensures Freed(fat, []) == fat
  {
  }

  lemma FreedOrder(fat: Fat, s: seq<nat>, t: seq<nat>)
    requires multiset(s) == multiset(t)
    ensures Freed(fat, s) == Freed(fat, t)
  {
    forall c: nat
      ensures c in s <==> c in t
    {
      assert c in s <==> c in multiset(s);
      assert c in t <==> c in multiset(t);
    }
  }

  /** How many of the clusters of `s` are in use. */
  function InUse(fat: Fat, s: seq<nat>): nat
    requires forall k :: 0 <= k < |s| ==> IsCluster(fat, s[k])
  {
    if s == [] then 0
    else
      assert IsCluster(fat, s[|s| - 1]);
      InUse(fat, s[..|s| - 1]) + if fat[s[|s| - 1]] == FREE then 0 else 1
  }

  /** Freeing clusters adds to the free clusters just those that were in use. */
  lemma {:induction false} CountFreed(fat: Fat, s: seq<nat>)
    requires forall k :: 0 <= k < |s| ==> IsCluster(fat, s[k])
    requires forall i, j :: 0 <= i < j < |s| ==> s[i] != s[j]
    ensures CountFree(Freed(fat, s), |fat|) == CountFree(fat, |fat|) + InUse(fat, s)
  {
    if s == [] {
      assert Freed(fat, s) == fat;
    } else {
      var t, c := s[..|s| - 1], s[|s| - 1];
      assert s == t + [c];
      CountFreed(fat, t);
      FreedSnoc(fat, t, c);
      assert Freed(fat, t)[c] == fat[c];
      CountFreeSet(Freed(fat, t), c, FREE, |fat|);
    }
  }

  lemma {:induction false} InUseAll(fat: Fat, s: seq<nat>)
    requires forall k :: 0 <= k < |s| ==> IsCluster(fat, s[k]) && fat[s[k]] != FREE
    ensures InUse(fat, s) == |s|
  {
    if s != [] {
      InUseAll(fat, s[..|s| - 1]);
    }
  }

  /** Of a chain only the last cluster can be free: freeing it is then counted one too many. */
  lemma CountFreedChain(fat: Fat, s: seq<nat>)
    requires Linked(fat, s)
    ensures CountFree(Freed(fat, s), |fat|) ==
            CountFree(fat, |fat|) + |s| - if fat[s[|s| - 1]] == FREE then 1 else 0
  {
    LinkedDistinct(fat, s);
    CountFreed(fat, s);
    var t := s[..|s| - 1];
    forall k | 0 <= k < |t|
      ensures fat[t[k]] != FREE
    {
      assert Next(fat, s[k]) == s[k + 1] && IsCluster(fat, s[k + 1]);
    }
    InUseAll(fat, t);
  }

  lemma FreedNext(fat: Fat, s: seq<nat>, a: nat)
    requires IsCluster(fat, a)
    ensures Next(Freed(fat, s), a) == if a in s then 0 else Next(fat, a)
  {
  }

  /** What points into a chain from outside points to its start. */
  lemma PointsToStart(fat: Fat, s: seq<nat>, a: nat)
    requires Shape(fat) && Linked(fat, s) && IsCluster(fat, a) && Next(fat, a) in s
    ensures a in s || Next(fat, a) == s[0]
  {
    var k :| 0 <= k < |s| && s[k] == Next(fat, a);
    if k > 0 {
      assert Next(fat, s[k - 1]) == s[k];
    }
  }

  lemma StartNotPointedFromChain(fat: Fat, s: seq<nat>, a: nat)
    requires Linked(fat, s) && a in s
    ensures Next(fat, a) != s[0]
  {
    LinkedDistinct(fat, s);
    var k :| 0 <= k < |s| && s[k] == a;
    assert k < |s| - 1 ==> Next(fat, s[k]) == s[k + 1];
  }

  /** After a chain is freed no entry dangles just when nothing pointed to the start of the chain. */
  lemma ShapeFreed(fat: Fat, s: seq<nat>)
    requires Shape(fat) && Linked(fat, s)
    ensures Shape(Freed(fat, s)) <==> forall a :: IsCluster(fat, a) ==> Next(fat, a) != s[0]
  {
    hide Linked;
    hide Next;
    var fat' := Freed(fat, s);
    forall a | IsCluster(fat, a)
      ensures Next(fat', a) == if a in s then 0 else Next(fat, a)
      ensures Next(fat, a) in s && a !in s ==> Next(fat, a) == s[0]
      ensures a in s ==> Next(fat, a) != s[0]
    {
      FreedNext(fat, s, a);
      if Next(fat, a) in s {
        PointsToStart(fat, s, a);
      }
      if a in s {
        StartNotPointedFromChain(fat, s, a);
      }
    }
    LinkedStart(fat, s);
  }

  lemma LinkedStart(fat: Fat, s: seq<nat>)
    requires Linked(fat, s)
    ensures s != [] && IsCluster(fat, s[0])
  {
  }

  /** `c` appended behind `last`. */
  function Extend(fat: Fat, last: nat, c: nat): (fat': Fat)
    requires last < |fat| && c < |fat|
    ensures |fat'| == |fat|
  {
    fat[last := c][c := END_MARK]
  }

  lemma ExtendLinked(fat: Fat, s: seq<nat>, c: nat)
    requires Linked(fat, s) && IsCluster(fat, c) && c !in s && |fat| <= BAD
    ensures Linked(Extend(fat, s[|s| - 1], c), s + [c])
  {
    var fat' := Extend(fat, s[|s| - 1], c);
    LinkedDistinct(fat, s);
    forall k | 0 <= k < |s|
      ensures Next(fat', s[k]) == (s + [c])[k + 1]
    {
      assert s[k] != c;
      assert k < |s| - 1 ==> Next(fat, s[k]) == s[k + 1];
    }
    assert Next(fat', c) == 0;
  }

  /** Linking a free cluster behind a chain lengthens the chain unless it is the last cluster itself. */
  lemma ExtendOwnLast(fat: Fat, s: seq<nat>, c: nat)
    requires Linked(fat, s) && IsCluster(fat, c) && fat[c] == FREE && |fat| <= BAD
    ensures Linked(Extend(fat, s[|s| - 1], c), s + [c]) <==> c != s[|s| - 1]
  {
    var fat' := Extend(fat, s[|s| - 1], c);
    if c == s[|s| - 1] {
      assert (s + [c])[|s| - 1] == (s + [c])[|s|];
      if Linked(fat', s + [c]) {
        LinkedDistinct(fat', s + [c]);
      }
    } else {
      forall k | 0 <= k < |s|
        ensures s[k] != c
      {
        assert k < |s| - 1 ==> Next(fat, s[k]) == s[k + 1] && IsCluster(fat, s[k + 1]);
      }
      ExtendLinked(fat, s, c);
    }
  }

  /** The chain cut after its first `n` clusters. */
  function CutChain(fat: Fat, s: seq<nat>, n: nat): Fat
    requires 0 < n <= |s| && s[n - 1] < |fat|
  {
    Freed(fat[s[n - 1] := END_MARK], s[n..])
  }

  lemma CutLinked(fat: Fat, s: seq<nat>, n: nat)
    requires Linked(fat, s) && 0 < n <= |s|
    ensures Linked(CutChain(fat, s, n), s[..n])
  {
    var fat' := CutChain(fat, s, n);
    LinkedDistinct(fat, s);
    forall k | 0 <= k < n
      ensures IsCluster(fat', s[k]) && fat'[s[k]] == if k < n - 1 then fat[s[k]] else END_MARK
    {
      assert s[k] !in s[n..];
    }
    forall k | 0 <= k < n - 1
      ensures Next(fat', s[k]) == s[k + 1]
    {
      assert Next(fat, s[k]) == s[k + 1];
    }
  }

  // Growth

  /** The chain `s` of `fat` grown by `added`, one cluster after the other. */
  function Append(fat: Fat, s: seq<nat>, added: seq<nat>): (fat': Fat)
    requires forall k :: 0 <= k < |s| ==> IsCluster(fat, s[k])
    requires forall k :: 0 <= k < |added| ==> IsCluster(fat, added[k])
    ensures |fat'| == |fat|
  {
    if added == [] then fat
    else
      var was, c := added[..|added| - 1], added[|added| - 1];
      assert IsCluster(fat, c);
      var prev := Append(fat, s, was);
      if s + was == [] then prev[c := END_MARK]
      else
        var last := (s + was)[|s + was| - 1];
        assert IsCluster(fat, last);
        Extend(prev, last, c)
  }

  /** Each cluster was free when it was appended. */
  ghost predicate TakenFree(fat: Fat, s: seq<nat>, added: seq<nat>) {
    && (forall k :: 0 <= k < |s| ==> IsCluster(fat, s[k]))
    && (forall k :: 0 <= k < |added| ==> IsCluster(fat, added[k]))
    && forall k :: 0 <= k < |added| ==> Append(fat, s, added[..k])[added[k]] == FREE
  }

  lemma TakenFreePrefix(fat: Fat, s: seq<nat>, added: seq<nat>, c: nat)
    requires TakenFree(fat, s, added)
    ensures TakenFree(fat, s, added + [c]) <==> IsCluster(fat, c) && Append(fat, s, added)[c] == FREE
  {
    var more := added + [c];
    assert more[|added|] == c && more[..|added|] == added;
    assert forall k :: 0 <= k < |added| ==> more[k] == added[k] && more[..k] == added[..k];
  }

  /** Every cluster of the chain is in use. */
  ghost predicate Owned(fat: Fat, s: seq<nat>) {
    s == [] || (Linked(fat, s) && forall k :: 0 <= k < |s| ==> fat[s[k]] != FREE)
  }

  lemma OwnedIfLast(fat: Fat, s: seq<nat>)
    requires Linked(fat, s)
    ensures Owned(fat, s) <==> fat[s[|s| - 1]] != FREE
  {
    forall k | 0 <= k < |s| - 1
      ensures fat[s[k]] != FREE
    {
      assert Next(fat, s[k]) == s[k + 1] && IsCluster(fat, s[k + 1]);
    }
  }

  lemma OwnedChain(fat: Fat, s: seq<nat>)
    requires Owned(fat, s) && s != []
    ensures Linked(fat, s) && IsChain(fat, s[0], s) && IsCluster(fat, s[0]) && !NeverEnds(fat, s[0])
  {
    LinkedIsChain(fat, s);
  }

  lemma NothingAppended(fat: Fat, s: seq<nat>)
    requires s == [] || Linked(fat, s)
    ensures TakenFree(fat, s, []) && Append(fat, s, []) == fat && s + [] == s
  {
  }

  lemma OwnedExtend(fat: Fat, s: seq<nat>, c: nat)
    requires Owned(fat, s) && IsCluster(fat, c) && fat[c] == FREE && |fat| <= BAD
    ensures s == [] ==> Owned(fat[c := END_MARK], [c])
    ensures s != [] ==> Owned(Extend(fat, s[|s| - 1], c), s + [c])
  {
    if s != [] {
      ExtendLinked(fat, s, c);
    }
  }

  lemma AppendStep(fat: Fat, s: seq<nat>, added: seq<nat>)
    requires TakenFree(fat, s, added) && added != []
    ensures var was, c := added[..|added| - 1], added[|added| - 1];
            && TakenFree(fat, s, was) && IsCluster(fat, c) && Append(fat, s, was)[c] == FREE
            && (s + was == [] ==> Append(fat, s, added) == Append(fat, s, was)[c := END_MARK])
            && (s + was != [] ==>
                  && (s + was)[|s + was| - 1] < |fat|
                  && Append(fat, s, added) == Extend(Append(fat, s, was), (s + was)[|s + was| - 1], c))
  {
    var was := added[..|added| - 1];
    assert forall k :: 0 <= k < |was| ==> was[..k] == added[..k];
    assert s + was != [] ==> IsCluster(fat, (s + was)[|s + was| - 1]);
  }

  /** One cluster more. */
  lemma AppendMore(fat: Fat, s: seq<nat>, added: seq<nat>, c: nat)
    requires TakenFree(fat, s, added) && IsCluster(fat, c) && Append(fat, s, added)[c] == FREE
    ensures TakenFree(fat, s, added + [c])
    ensures s + added == [] ==> Append(fat, s, added + [c]) == Append(fat, s, added)[c := END_MARK]
    ensures s + added != [] ==>
              && IsCluster(fat, (s + added)[|s + added| - 1])
              && Append(fat, s, added + [c]) == Extend(Append(fat, s, added), (s + added)[|s + added| - 1], c)
  {
    TakenFreePrefix(fat, s, added, c);
    AppendStep(fat, s, added + [c]);
    assert (added + [c])[..|added|] == added;
  }

  /** Growing by free clusters lengthens the chain by just those clusters. */
  lemma {:induction false} AppendOwned(fat: Fat, s: seq<nat>, added: seq<nat>)
    requires Owned(fat, s) && TakenFree(fat, s, added) && |fat| <= BAD
    ensures Owned(Append(fat, s, added), s + added)
  {
    hide TakenFree;
    hide Owned;
    if added == [] {
      assert s + added == s;
    } else {
      hide Append;
      hide Extend;
      var was, c := added[..|added| - 1], added[|added| - 1];
      AppendStep(fat, s, added);
      AppendOwned(fat, s, was);
      OwnedExtend(Append(fat, s, was), s + was, c);
      assert s + added == (s + was) + [c];
      assert s + was == [] ==> s + added == [c];
    }
  }

  /** Growing changes no entry but those of the old chain and of the clusters it adds. */
  lemma {:induction false} AppendFrame(fat: Fat, s: seq<nat>, added: seq<nat>, d: nat)
    requires TakenFree(fat, s, added) && d < |fat| && d !in s && d !in added
    ensures Append(fat, s, added)[d] == fat[d]
  {
    hide TakenFree;
    if added != [] {
      hide Append;
      AppendStep(fat, s, added);
      AppendFrame(fat, s, added[..|added| - 1], d);
    }
  }

  // Which free cluster is taken

  /** The first free cluster from `lo` up to `hi`, 0 if there is none. */
  function FirstFree(fat: Fat, lo: nat, hi: nat): (c: nat)
    requires 2 <= lo && hi <= |fat|
    ensures c != 0 ==> lo <= c < hi && fat[c] == FREE && forall k :: lo <= k < c ==> fat[k] != FREE
    ensures c == 0 ==> forall k :: lo <= k < hi ==> fat[k] != FREE
    decreases hi - lo
  {
    if lo >= hi then 0 else if fat[lo] == FREE then lo else FirstFree(fat, lo + 1, hi)
  }

  /** Where the search for a free cluster begins. */
  function SearchStart(fat: Fat, hint: nat): nat {
    if IsCluster(fat, hint) then hint else 2
  }

  /** The cluster that the search finds: from the hint to the end, then from the first cluster to the hint. */
  function Pick(fat: Fat, hint: nat): nat {
    if |fat| < 4 then 0
    else
      var start := SearchStart(fat, hint);
      var c := FirstFree(fat, start, |fat|);
      if c != 0 then c else FirstFree(fat, 2, start)
  }

  lemma PickFree(fat: Fat, hint: nat)
    ensures Pick(fat, hint) != 0 ==> IsCluster(fat, Pick(fat, hint)) && fat[Pick(fat, hint)] == FREE
    ensures Pick(fat, hint) == 0 <==> |fat| < 4 || forall c: nat :: IsCluster(fat, c) ==> fat[c] != FREE
  {
  }

  /** How far a cluster is from another, going up and around. */
  ghost function Distance(fat: Fat, from: nat, c: nat): int {
    if c >= from then c - from else c - from + |fat| - 2
  }

  /** No free cluster is nearer to a hint that is a cluster; without one, none comes earlier. */
  lemma PickNearest(fat: Fat, hint: nat, c: nat)
    requires |fat| >= 4 && IsCluster(fat, c) && fat[c] == FREE
    ensures Pick(fat, hint) != 0
    ensures if 2 <= hint < |fat| then Distance(fat, hint, Pick(fat, hint)) <= Distance(fat, hint, c)
            else Pick(fat, hint) <= c
  {
  }

  /** The search hint after `added` have been found one after the other. */
  ghost function HintAfter(hint: nat, added: seq<nat>): nat {
    if added == [] then hint else added[|added| - 1] + 1
  }

  /** Each of `added` is the cluster that the search found in its turn. */
  ghost predicate InTurn(fat: Fat, s: seq<nat>, hint: nat, added: seq<nat>) {
    added == [] ||
    (&& TakenFree(fat, s, added)
     && var was := added[..|added| - 1];
        InTurn(fat, s, hint, was) && added[|added| - 1] == Pick(Append(fat, s, was), HintAfter(hint, was)))
  }

  lemma InTurnMore(fat: Fat, s: seq<nat>, hint: nat, added: seq<nat>, c: nat)
    requires InTurn(fat, s, hint, added) && TakenFree(fat, s, added) && TakenFree(fat, s, added + [c])
    requires c == Pick(Append(fat, s, added), HintAfter(hint, added))
    ensures InTurn(fat, s, hint, added + [c]) && HintAfter(hint, added + [c]) == c + 1
  {
    hide Pick;
    hide Append;
    assert (added + [c])[..|added|] == added;
  }

  lemma {:induction false} NoneFreeCount(fat: Fat, n: nat)
    requires n <= |fat|
    ensures CountFree(fat, n) == 0 <==> forall c :: 2 <= c < n ==> fat[c] != FREE
  {
    if n > 2 {
      NoneFreeCount(fat, n - 1);
    }
  }

  /** How many free clusters the search can find: none on a volume of less than two clusters. */
  function Findable(fat: Fat): nat {
    if |fat| < 4 then 0 else CountFree(fat, |fat|)
  }

  lemma PickFindable(fat: Fat, hint: nat)
    ensures Pick(fat, hint) == 0 <==> Findable(fat) == 0
  {
    PickFree(fat, hint);
    NoneFreeCount(fat, |fat|);
  }

  /** The chain's last cluster is marked free and is the next cluster the search finds. */
  predicate OwnLast(fat: Fat, last: nat, hint: nat) {
    IsCluster(fat, last) && fat[last] == FREE && Pick(fat, hint) == last
  }

  /** How many clusters can be linked behind `last`; the first link puts a free `last` to use. */
  function Reserve(fat: Fat, last: nat, hint: nat): int {
    Findable(fat) -
    if |fat| >= 4 && IsCluster(fat, last) && fat[last] == FREE && !OwnLast(fat, last, hint) then 1 else 0
  }

  /** Linking the cluster that the search finds takes one from the reserve, and the new last cluster is in use. */
  lemma ReserveStep(fat: Fat, last: nat, hint: nat, hint': nat)
    requires IsCluster(fat, last) && |fat| <= BAD && Pick(fat, hint) != 0
    ensures var c := Pick(fat, hint);
            var fat' := Extend(fat, last, c);
            IsCluster(fat, c) && fat'[c] != FREE && Reserve(fat', c, hint') == Reserve(fat, last, hint) - 1
  {
    hide CountFree;
    var c := Pick(fat, hint);
    PickFree(fat, hint);
    CountFreeSet(fat, last, c, |fat|);
    CountFreeSet(fat[last := c], c, END_MARK, |fat|);
  }

  lemma ReserveBound(fat: Fat, last: nat, hint: nat)
    ensures Reserve(fat, last, hint) >= 0 && (Reserve(fat, last, hint) == 0 <==> Pick(fat, hint) == 0)
  {
    PickFindable(fat, hint);
    if |fat| >= 4 && IsCluster(fat, last) && fat[last] == FREE && !OwnLast(fat, last, hint) {
      var c := Pick(fat, hint);
      PickFree(fat, hint);
      NoneFreeCount(fat, |fat|);
      CountFreeSet(fat, last, END_MARK, |fat|);
      NoneFreeCount(fat[last := END_MARK], |fat|);
      assert fat[last := END_MARK][c] == FREE;
    }
  }

  // Growth from its first link on

  lemma {:induction false} AppendSameLast(fat: Fat, s: seq<nat>, t: seq<nat>, added: seq<nat>)
    requires s != [] && t != [] && s[|s| - 1] == t[|t| - 1] && TakenFree(fat, s, added)
    requires forall k :: 0 <= k < |t| ==> IsCluster(fat, t[k])
    ensures TakenFree(fat, t, added) && Append(fat, t, added) == Append(fat, s, added)
  {
    hide Append;
    hide TakenFree;
    hide Extend;
    if added == [] {
      BothUnchanged(fat, s, t);
    } else {
      var was, c := added[..|added| - 1], added[|added| - 1];
      AppendStep(fat, s, added);
      AppendSameLast(fat, s, t, was);
      AppendMore(fat, t, was, c);
      assert was + [c] == added;
      SameEnd(s, t, was);
    }
  }

  lemma BothUnchanged(fat: Fat, s: seq<nat>, t: seq<nat>)
    requires TakenFree(fat, s, []) && forall k :: 0 <= k < |t| ==> IsCluster(fat, t[k])
    ensures TakenFree(fat, t, []) && Append(fat, t, []) == Append(fat, s, [])
  {
  }

  lemma SameEnd(s: seq<nat>, t: seq<nat>, more: seq<nat>)
    requires s != [] && t != [] && s[|s| - 1] == t[|t| - 1]
    ensures (s + more)[|s + more| - 1] == (t + more)[|t + more| - 1]
  {
  }

  /** The first link done before the others. */
  lemma {:induction false} AppendUncons(fat: Fat, s: seq<nat>, added: seq<nat>)
    requires s != [] && added != [] && TakenFree(fat, s, added)
    ensures s[|s| - 1] < |fat| && added[0] < |fat|
    ensures var fat1 := Extend(fat, s[|s| - 1], added[0]);
            && TakenFree(fat1, s + [added[0]], added[1..])
            && Append(fat1, s + [added[0]], added[1..]) == Append(fat, s, added)
  {
    hide TakenFree;
    hide Append;
    hide Extend;
    var n, c0 := |added| - 1, added[0];
    AppendStep(fat, s, added);
    TakenClusters(fat, s, added);
    var fat1 := Extend(fat, s[|s| - 1], c0);
    if n == 0 {
      AppendNil(fat, s);
      AppendNil(fat1, s + [c0]);
      assert added[..0] == [] && s + added[..0] == s;
      assert added[1..] == [];
    } else {
      var was, c := added[..n], added[n];
      AppendUncons(fat, s, was);
      AppendMore(fat1, s + [c0], was[1..], c);
      assert was[1..] + [c] == added[1..];
      assert s + [c0] + was[1..] == s + was;
    }
  }

  lemma AppendNil(fat: Fat, s: seq<nat>)
    requires forall k :: 0 <= k < |s| ==> IsCluster(fat, s[k])
    ensures TakenFree(fat, s, []) && Append(fat, s, []) == fat
  {
  }

  lemma TakenClusters(fat: Fat, s: seq<nat>, added: seq<nat>)
    requires TakenFree(fat, s, added)
    ensures forall k :: 0 <= k < |s| ==> IsCluster(fat, s[k])
    ensures forall k :: 0 <= k < |added| ==> IsCluster(fat, added[k])
  {
  }

  lemma FirstTakenFree(fat: Fat, s: seq<nat>, added: seq<nat>)
    requires added != [] && TakenFree(fat, s, added)
    ensures IsCluster(fat, added[0]) && fat[added[0]] == FREE
  {
    assert added[..0] == [];
    assert Append(fat, s, added[..0])[added[0]] == FREE;
  }

  /** The last cluster of a chain marked as its end: all clusters of the chain are then in use. */
  lemma MarkLast(fat: Fat, s: seq<nat>)
    requires Linked(fat, s)
    ensures Owned(fat[s[|s| - 1] := END_MARK], s)
  {
    var fat' := fat[s[|s| - 1] := END_MARK];
    LinkedDistinct(fat, s);
    forall k | 0 <= k < |s| - 1
      ensures Next(fat', s[k]) == s[k + 1] && fat'[s[k]] != FREE
    {
      assert Next(fat, s[k]) == s[k + 1] && IsCluster(fat, s[k + 1]);
    }
  }

  lemma ExtendSelf(fat: Fat, c: nat)
    requires c < |fat|
    ensures Extend(fat, c, c) == fat[c := END_MARK]
  {
  }

  lemma ExtendedOwned(fat: Fat, s: seq<nat>, c: nat)
    requires Linked(fat, s) && IsCluster(fat, c) && fat[c] == FREE && c != s[|s| - 1] && |fat| <= BAD
    ensures s[|s| - 1] < |fat| && Owned(Extend(fat, s[|s| - 1], c), s + [c])
  {
    ExtendOwnLast(fat, s, c);
    OwnedIfLast(Extend(fat, s[|s| - 1], c), s + [c]);
  }

  /** What growth makes of any chain: every link holds, except that a link of the last cluster to itself is lost. */
  lemma GrownChain(fat: Fat, s: seq<nat>, added: seq<nat>)
    requires Linked(fat, s) && added != [] && TakenFree(fat, s, added) && |fat| <= BAD
    ensures s != [] && Owned(Append(fat, s, added), if added[0] == s[|s| - 1] then s + added[1..] else s + added)
  {
    hide *;
    LinkedStart(fat, s);
    var last, c := s[|s| - 1], added[0];
    AppendUncons(fat, s, added);
    FirstTakenFree(fat, s, added);
    var fat1 := Extend(fat, last, c);
    if c == last {
      ExtendSelf(fat, c);
      MarkLast(fat, s);
      LinkedClusters(fat, fat1, s);
      AppendSameLast(fat1, s + [c], s, added[1..]);
      AppendOwned(fat1, s, added[1..]);
    } else {
      ExtendedOwned(fat, s, c);
      AppendOwned(fat1, s + [c], added[1..]);
      assert s + [c] + added[1..] == s + added;
    }
  }

  lemma LinkedClusters(fat: Fat, fat': Fat, s: seq<nat>)
    requires Linked(fat, s) && |fat'| == |fat|
    ensures forall k :: 0 <= k < |s| ==> IsCluster(fat', s[k])
  {
  }

  /** The chain that growth leaves: a link of the last cluster to itself adds nothing. */
  function Joined(s: seq<nat>, added: seq<nat>): seq<nat> {
    if s != [] && added != [] && added[0] == s[|s| - 1] then s + added[1..] else s + added
  }

  lemma JoinedOwned(fat: Fat, s: seq<nat>, added: seq<nat>)
    requires (s == [] || Linked(fat, s)) && TakenFree(fat, s, added) && |fat| <= BAD
    ensures added == [] || Owned(Append(fat, s, added), Joined(s, added))
  {
    hide TakenFree;
    hide Append;
    if added != [] {
      if s == [] {
        AppendOwned(fat, s, added);
      } else {
        GrownChain(fat, s, added);
      }
    }
  }

  /** The grown chain starts where the old one did, or with the first cluster added. */
  lemma JoinedChain(fat: Fat, s: seq<nat>, first: seq<nat>, added: seq<nat>)
    requires s + first != [] && first <= added && added != [] && Owned(fat, Joined(s, added))
    ensures Joined(s, added) != [] && Joined(s, added)[0] == (s + first)[0]
    ensures IsCluster(fat, (s + first)[0]) && !NeverEnds(fat, (s + first)[0])
    ensures IsChain(fat, (s + first)[0], Joined(s, added))
  {
    hide Owned;
    hide IsChain;
    hide NeverEnds;
    OwnedChain(fat, Joined(s, added));
  }
}
