/**
 klib's introsort, in place on an array. The comparison is `rank(x) < rank(y)`: on the finitely many
 elements of an array every strict weak ordering has this form.
 */
module KlibSort {

  const INSERTION_SORT_THRESHOLD: nat := 16

  ghost predicate Sorted<T>(s: seq<T>, rank: T -> int, lo: nat, hi: nat) {
    hi <= |s| && forall i, j :: lo <= i < j < hi ==> rank(s[i]) <= rank(s[j])
  }

  /** Every element from `lo` to `hi` ranks at most `r`. */
  ghost predicate AtMost<T>(s: seq<T>, rank: T -> int, lo: nat, hi: nat, r: int) {
    hi <= |s| && forall i :: lo <= i < hi ==> rank(s[i]) <= r
  }

  ghost predicate AtLeast<T>(s: seq<T>, rank: T -> int, lo: nat, hi: nat, r: int) {
    hi <= |s| && forall i :: lo <= i < hi ==> rank(s[i]) >= r
  }

  /** Only the elements from `lo` to `hi` have changed places. */
  ghost predicate Rearranged<T>(s: seq<T>, t: seq<T>, lo: nat, hi: nat) {
    && lo <= hi <= |s| == |t|
    && s[..lo] == t[..lo] && s[hi..] == t[hi..]
    && multiset(s[lo..hi]) == multiset(t[lo..hi])
  }

  lemma RearrangedSame<T>(s: seq<T>, lo: nat, hi: nat)
    requires lo <= hi <= |s|
    ensures Rearranged(s, s, lo, hi)
  {
  }

  /** Elements outside the range are where they were, and inside it every element comes from inside. */
  lemma RearrangedAt<T>(s: seq<T>, t: seq<T>, lo: nat, hi: nat, k: nat) returns (m: nat)
    requires Rearranged(s, t, lo, hi) && k < |t|
    ensures m < |s| && t[k] == s[m]
    ensures if lo <= k < hi then lo <= m < hi else m == k
  {
    if lo <= k < hi {
      assert t[k] == t[lo..hi][k - lo];
      assert t[k] in multiset(t[lo..hi]);
      assert t[k] in s[lo..hi];
      var q :| 0 <= q < |s[lo..hi]| && s[lo..hi][q] == t[k];
      m := lo + q;
    } else if k < lo {
      assert t[k] == t[..lo][k];
      m := k;
    } else {
      assert t[k] == t[hi..][k - hi];
      m := k;
    }
  }

  /** A rearrangement inside a wider range is a rearrangement of the wider range. */
  lemma RearrangedWiden<T>(s: seq<T>, t: seq<T>, lo: nat, hi: nat, first: nat, last: nat)
    requires Rearranged(s, t, lo, hi) && first <= lo && hi <= last <= |s|
    ensures Rearranged(s, t, first, last)
  {
    assert s[first..last] == s[..lo][first..] + s[lo..hi] + s[hi..][..last - hi];
    assert t[first..last] == t[..lo][first..] + t[lo..hi] + t[hi..][..last - hi];
    assert s[..first] == s[..lo][..first] && t[..first] == t[..lo][..first];
    assert s[last..] == s[hi..][last - hi..] && t[last..] == t[hi..][last - hi..];
  }

  lemma RearrangedTrans<T>(s: seq<T>, t: seq<T>, u: seq<T>, lo: nat, hi: nat)
    requires Rearranged(s, t, lo, hi) && Rearranged(t, u, lo, hi)
    ensures Rearranged(s, u, lo, hi)
  {
  }

  function Swapped<T>(s: seq<T>, i: nat, j: nat): (t: seq<T>)
    requires i < |s| && j < |s|
    ensures |t| == |s|
  {
    s[i := s[j]][j := s[i]]
  }

  lemma SwapRearranged<T>(s: seq<T>, lo: nat, hi: nat, i: nat, j: nat)
    requires lo <= i < hi <= |s| && lo <= j < hi
    ensures Rearranged(s, Swapped(s, i, j), lo, hi)
  {
    var u := s[lo..hi];
    assert Swapped(s, i, j)[lo..hi] == Swapped(u, i - lo, j - lo);
  }

  // insertion_sort

  method InsertionSort<T>(a: array<T>, rank: T -> int, first: nat, last: nat)
    requires first <= last <= a.Length
    modifies a
    ensures Rearranged(old(a[..]), a[..], first, last)
    ensures Sorted(a[..], rank, first, last)
  {
    hide Rearranged;
    RearrangedSame(a[..], first, last);
    if first == last {
      return;
    }
    var i := first + 1;
    while i != last
      invariant first < i <= last
      invariant Rearranged(old(a[..]), a[..], first, last)
      invariant Sorted(a[..], rank, first, i)
    {
      ghost var s := a[..];
      var j := Insert(a, rank, first, i);
      InsertedRearranged(s, first, last, j, i);
      RearrangedTrans(old(a[..]), s, a[..], first, last);
      i := i + 1;
    }
  }

  /** `s` with the element at `i` moved down to position `j`. */
  function Inserted<T>(s: seq<T>, j: nat, i: nat): (t: seq<T>)
    requires j <= i < |s|
    ensures |t| == |s|
  {
    s[..j] + [s[i]] + s[j..i] + s[i + 1..]
  }

  lemma InsertedRearranged<T>(s: seq<T>, lo: nat, hi: nat, j: nat, i: nat)
    requires lo <= j <= i < hi <= |s|
    ensures Rearranged(s, Inserted(s, j, i), lo, hi)
  {
    var t := Inserted(s, j, i);
    assert t[lo..hi] == s[lo..j] + [s[i]] + s[j..i] + s[i + 1..hi];
    assert s[lo..hi] == s[lo..j] + s[j..i] + [s[i]] + s[i + 1..hi];
    assert t[..lo] == s[..lo] && t[hi..] == s[hi..];
  }

  lemma InsertedSorted<T>(s: seq<T>, rank: T -> int, lo: nat, j: nat, i: nat)
    requires lo <= j <= i < |s| && Sorted(s, rank, lo, i)
    requires forall k :: j <= k < i ==> rank(s[i]) < rank(s[k])
    requires j > lo ==> rank(s[j - 1]) <= rank(s[i])
    ensures Sorted(Inserted(s, j, i), rank, lo, i + 1)
  {
    var t := Inserted(s, j, i);
    forall p, q | lo <= p < q <= i
      ensures rank(t[p]) <= rank(t[q])
    {
      assert t[p] == if p < j then s[p] else if p == j then s[i] else s[p - 1];
      assert t[q] == if q < j then s[q] else if q == j then s[i] else s[q - 1];
      assert p < j == q ==> p == j - 1 || rank(s[p]) <= rank(s[j - 1]);
    }
  }

  /** One turn of insertion sort: the element at `i` moves down to its place. */
  method Insert<T>(a: array<T>, rank: T -> int, first: nat, i: nat) returns (j: nat)
    requires first < i < a.Length && Sorted(a[..], rank, first, i)
    modifies a
    ensures first <= j <= i && a[..] == Inserted(old(a[..]), j, i)
    ensures Sorted(a[..], rank, first, i + 1)
  {
    hide Sorted;
    var val := a[i];
    j := i;
    ghost var s := a[..];
    while j != first && rank(val) < rank(a[j - 1])
      invariant first <= j <= i
      invariant forall k :: 0 <= k <= j ==> a[k] == s[k]
      invariant forall k :: j < k <= i ==> a[k] == s[k - 1]
      invariant forall k :: i < k < a.Length ==> a[k] == s[k]
      invariant forall k :: j <= k < i ==> rank(val) < rank(s[k])
    {
      a[j] := a[j - 1];
      j := j - 1;
    }
    a[j] := val;
    InsertedSorted(s, rank, first, j, i);
    assert a[..] == Inserted(s, j, i);
  }

  // partition

  function Middle(x: int, y: int, z: int): int {
    if x <= y then (if y <= z then y else if x <= z then z else x)
    else (if x <= z then x else if y <= z then z else y)
  }

  /** The position, among three, of an element whose rank is the middle one. */
  method MedianOfThree<T>(a: array<T>, rank: T -> int, x: nat, y: nat, z: nat) returns (m: nat)
    requires x < a.Length && y < a.Length && z < a.Length
    ensures m == x || m == y || m == z
    ensures rank(a[m]) == Middle(rank(a[x]), rank(a[y]), rank(a[z]))
  {
    if rank(a[x]) < rank(a[y]) {
      if rank(a[y]) < rank(a[z]) {
        return y;
      } else if rank(a[x]) < rank(a[z]) {
        return z;
      } else {
        return x;
      }
    } else {
      if rank(a[x]) < rank(a[z]) {
        return x;
      } else if rank(a[y]) < rank(a[z]) {
        return z;
      } else {
        return y;
      }
    }
  }

  method Swap<T>(a: array<T>, i: nat, j: nat)
    requires i < a.Length && j < a.Length
    modifies a
    ensures a[..] == Swapped(old(a[..]), i, j)
  {
    a[i], a[j] := a[j], a[i];
  }

  /** The scan up: the first position after `i` whose element is not below the pivot. */
  method ScanUp<T>(a: array<T>, rank: T -> int, r: int, i: int, ghost stop: nat) returns (k: nat)
    requires -1 <= i < stop < a.Length && rank(a[stop]) >= r
    ensures i < k <= stop && rank(a[k]) >= r
    ensures forall m :: i < m < k ==> rank(a[m]) < r
  {
    k := i + 1;
    while rank(a[k]) < r
      invariant i < k <= stop
      invariant forall m :: i < m < k ==> rank(a[m]) < r
      decreases stop - k
    {
      k := k + 1;
    }
  }

  method ScanDown<T>(a: array<T>, rank: T -> int, r: int, j: nat, ghost stop: nat) returns (k: nat)
    requires stop < j <= a.Length && rank(a[stop]) <= r
    ensures stop <= k < j && rank(a[k]) <= r
    ensures forall m :: k < m < j ==> r < rank(a[m])
  {
    k := j - 1;
    while r < rank(a[k])
      invariant stop <= k < j
      invariant forall m :: k < m < j ==> r < rank(a[m])
      decreases k
    {
      k := k - 1;
    }
  }

  /**
   Hoare partition around the median of three. The median leaves an element that stops each scan, so
   no bound is checked, and the cut lies strictly inside.
   */
  method Partition<T>(a: array<T>, rank: T -> int, first: nat, last: nat) returns (cut: nat, ghost r: int)
    requires first + 3 <= last <= a.Length
    modifies a
    ensures first < cut < last
    ensures Rearranged(old(a[..]), a[..], first, last)
    ensures AtMost(a[..], rank, first, cut, r) && AtLeast(a[..], rank, cut, last, r)
  {
    hide Rearranged;
    hide Middle;
    hide AtMost;
    hide AtLeast;
    hide Swapped;
    var mid := first + (last - first) / 2;
    assert first < mid < last - 1;
    var p := MedianOfThree(a, rank, first, mid, last - 1);
    ghost var s := a[..];
    var pivot := a[p];
    assert pivot == s[p] && a[first] == s[first] && a[mid] == s[mid] && a[last - 1] == s[last - 1];
    r := rank(pivot);
    SwapRearranged(s, first, last, p, last - 1);
    ghost var up := MedianStop(s, rank, first, mid, last - 1, p);
    Swap(a, p, last - 1);
    assert a[up] == a[..][up] && a[last - 1] == a[..][last - 1];
    ghost var t := a[..];
    cut := Hoare(a, rank, pivot, first, last, up);
    RearrangedTrans(s, t, a[..], first, last);
  }

  /** With the median moved to the end, one of the other two places holds an element that is not below it. */
  lemma MedianStop<T>(s: seq<T>, rank: T -> int, x: nat, y: nat, z: nat, p: nat) returns (up: nat)
    requires x < y < z < |s| && (p == x || p == y || p == z)
    requires rank(s[p]) == Middle(rank(s[x]), rank(s[y]), rank(s[z]))
    ensures x <= up < z && rank(Swapped(s, p, z)[up]) >= rank(s[p]) && Swapped(s, p, z)[z] == s[p]
  {
    up := if rank(Swapped(s, p, z)[x]) >= rank(s[p]) then x else y;
  }

  lemma SwapBounds<T>(s: seq<T>, rank: T -> int, lo: nat, i: nat, j: nat, hi: nat, r: int)
    requires lo <= i < j < hi <= |s| && rank(s[i]) >= r && rank(s[j]) <= r
    requires AtMost(s, rank, lo, i, r) && AtLeast(s, rank, j + 1, hi, r)
    ensures var t := Swapped(s, i, j);
            && AtMost(t, rank, lo, i + 1, r) && AtLeast(t, rank, j, hi, r)
            && rank(t[i]) <= r && rank(t[j]) >= r
  {
  }

  /** The two scans and the swaps between them; `up` stops the first scan upwards. */
  method Hoare<T>(a: array<T>, rank: T -> int, pivot: T, first: nat, last: nat, ghost up: nat) returns (cut: nat)
    requires first <= up < last - 1 < a.Length && rank(a[up]) >= rank(pivot) && rank(a[last - 1]) == rank(pivot)
    modifies a
    ensures first < cut < last
    ensures Rearranged(old(a[..]), a[..], first, last)
    ensures AtMost(a[..], rank, first, cut, rank(pivot)) && AtLeast(a[..], rank, cut, last, rank(pivot))
  {
    hide Rearranged;
    hide Swapped;
    ghost var r := rank(pivot);
    var i: int, j := first - 1, last;
    ghost var above, below := up, last - 1;
    RearrangedSame(a[..], first, last);
    while true
      invariant -1 <= first - 1 <= i < j <= last
      invariant Rearranged(old(a[..]), a[..], first, last)
      invariant AtMost(a[..], rank, first, i + 1, r) && AtLeast(a[..], rank, j, last, r)
      invariant first <= below < j && rank(a[below]) <= r && i < above < last && rank(a[above]) >= r
      invariant if j == last then above < below == last - 1 else above == j && below == i
      decreases j - i
    {
      i, j := Scan(a, rank, pivot, first, last, i, j, above, below);
      if i >= j {
        cut := j + 1;
        CutBounds(a[..], rank, first, i, j, last, r);
        return;
      }
      ghost var t := a[..];
      SwapRearranged(t, first, last, i, j);
      SwapBounds(t, rank, first, i, j, last, r);
      hide AtMost;
      hide AtLeast;
      Swap(a, i, j);
      RearrangedTrans(old(a[..]), t, a[..], first, last);
      above, below := j, i;
      assert a[..][i] == a[i] && a[..][j] == a[j];
    }
  }

  lemma CutBounds<T>(s: seq<T>, rank: T -> int, lo: nat, i: nat, j: nat, hi: nat, r: int)
    requires j <= i && j < hi <= |s| && AtMost(s, rank, lo, i, r) && rank(s[j]) <= r && AtLeast(s, rank, j + 1, hi, r)
    ensures AtMost(s, rank, lo, j + 1, r)
  {
  }

  /** Both scans of one round. */
  method Scan<T>(
    a: array<T>, rank: T -> int, pivot: T, ghost first: nat, ghost last: nat, i: int, j: nat,
    ghost above: nat, ghost below: nat) returns (i': nat, j': nat)
    requires -1 <= first - 1 <= i < j <= last <= a.Length
    requires AtMost(a[..], rank, first, i + 1, rank(pivot)) && AtLeast(a[..], rank, j, last, rank(pivot))
    requires first <= below < j && rank(a[below]) <= rank(pivot) && i < above < last && rank(a[above]) >= rank(pivot)
    ensures i < i' <= above && rank(a[i']) >= rank(pivot) && AtMost(a[..], rank, first, i', rank(pivot))
    ensures below <= j' < j && rank(a[j']) <= rank(pivot) && AtLeast(a[..], rank, j' + 1, last, rank(pivot))
  {
    i' := ScanUp(a, rank, rank(pivot), i, above);
    j' := ScanDown(a, rank, rank(pivot), j, below);
  }

  // heapsort, on the elements from `first` on; positions in the heap count from 0

  /** Node `i` of a heap of `n` elements ranks at least as high as its children. */
  ghost predicate NodeOk<T>(s: seq<T>, rank: T -> int, first: nat, n: nat, i: nat) {
    && first + n <= |s|
    && (2 * i + 1 < n ==> rank(s[first + i]) >= rank(s[first + 2 * i + 1]))
    && (2 * i + 2 < n ==> rank(s[first + i]) >= rank(s[first + 2 * i + 2]))
  }

  ghost predicate Heap<T>(s: seq<T>, rank: T -> int, first: nat, start: nat, n: nat) {
    first + n <= |s| && forall i :: start <= i < n ==> NodeOk(s, rank, first, n, i)
  }

  /** The root of a heap ranks highest. */
  lemma {:induction false} RootHighest<T>(s: seq<T>, rank: T -> int, first: nat, n: nat, i: nat)
    requires Heap(s, rank, first, 0, n) && i < n
    ensures rank(s[first + i]) <= rank(s[first])
  {
    if i > 0 {
      var parent := (i - 1) / 2;
      RootHighest(s, rank, first, n, parent);
      assert NodeOk(s, rank, first, n, parent);
      assert i == 2 * parent + 1 || i == 2 * parent + 2;
    }
  }

  /** A heap from `start` on, except that node `p` may be too low; its parent outranks p's children. */
  ghost predicate AlmostHeap<T>(s: seq<T>, rank: T -> int, first: nat, start: nat, n: nat, p: nat) {
    && first + n <= |s| && start <= p < n
    && (forall i :: start <= i < n && i != p ==> NodeOk(s, rank, first, n, i))
    && (forall i :: start <= i < p && (p == 2 * i + 1 || p == 2 * i + 2) ==>
          && (2 * p + 1 < n ==> rank(s[first + i]) >= rank(s[first + 2 * p + 1]))
          && (2 * p + 2 < n ==> rank(s[first + i]) >= rank(s[first + 2 * p + 2])))
  }

  /** The child of `p` that the sift compares with: the one of higher rank. */
  ghost predicate BigChild<T>(s: seq<T>, rank: T -> int, first: nat, n: nat, p: nat, c: nat) {
    && first + n <= |s| && c < n && (c == 2 * p + 1 || c == 2 * p + 2)
    && rank(s[first + c]) >= rank(s[first + 2 * p + 1])
    && (2 * p + 2 < n ==> rank(s[first + c]) >= rank(s[first + 2 * p + 2]))
  }

  lemma SiftStep<T>(s: seq<T>, rank: T -> int, first: nat, start: nat, n: nat, p: nat, c: nat)
    requires AlmostHeap(s, rank, first, start, n, p) && BigChild(s, rank, first, n, p, c)
    requires rank(s[first + p]) < rank(s[first + c])
    ensures AlmostHeap(Swapped(s, first + p, first + c), rank, first, start, n, c)
  {
    var t := Swapped(s, first + p, first + c);
    forall i | start <= i < n && i != c
      ensures NodeOk(t, rank, first, n, i)
    {
      if i != p {
        assert NodeOk(s, rank, first, n, i);
      }
    }
    assert NodeOk(s, rank, first, n, c);
  }

  lemma SiftDone<T>(s: seq<T>, rank: T -> int, first: nat, start: nat, n: nat, p: nat, c: nat)
    requires AlmostHeap(s, rank, first, start, n, p)
    requires 2 * p + 1 >= n || (BigChild(s, rank, first, n, p, c) && rank(s[first + p]) >= rank(s[first + c]))
    ensures Heap(s, rank, first, start, n)
  {
  }

  /** The larger child of node `p`, which has one; `s` is the array with the hole at `p` filled. */
  method PickChild<T>(a: array<T>, rank: T -> int, first: nat, n: nat, p: nat, ghost s: seq<T>, ghost val: T)
    returns (c: nat)
    requires first + n <= a.Length && 2 * p + 1 < n && s == a[..][first + p := val]
    ensures p < c < n && BigChild(s, rank, first, n, p, c)
    ensures s[first + c] == a[first + c] && s[first + p] == val
  {
    c := 2 * p + 1;
    if c + 1 < n && rank(a[first + c]) < rank(a[first + c + 1]) {
      c := c + 1;
    }
  }

  lemma HoleMoved<T>(u: seq<T>, p: nat, c: nat, val: T)
    requires p < |u| && c < |u| && p != c
    ensures Swapped(u[p := val], p, c) == u[p := u[c]][c := val]
  {
  }

  /**
   Sifts the element of node `start` down a heap of `n` elements. The hole travels down and the
   element is stored once, at the end.
   */
  method SiftDown<T>(a: array<T>, rank: T -> int, first: nat, start: nat, n: nat)
    requires start < n && first + n <= a.Length
    requires AlmostHeap(a[..], rank, first, start, n, start)
    modifies a
    ensures Rearranged(old(a[..]), a[..], first, first + n)
    ensures Heap(a[..], rank, first, start, n)
  {
    hide Rearranged;
    hide AlmostHeap;
    hide BigChild;
    hide Heap;
    hide Swapped;
    var parent := start;
    var val := a[first + parent];
    ghost var s := a[..];
    RearrangedSame(s, first, first + n);
    assert s == a[..][first + parent := val];
    while true
      invariant start <= parent < n && s == a[..][first + parent := val]
      invariant Rearranged(old(a[..]), s, first, first + n)
      invariant AlmostHeap(s, rank, first, start, n, parent)
      decreases n - parent
    {
      if 2 * parent + 1 >= n {
        SiftDone(s, rank, first, start, n, parent, 0);
        break;
      }
      var child := PickChild(a, rank, first, n, parent, s, val);
      if !(rank(val) < rank(a[first + child])) {
        SiftDone(s, rank, first, start, n, parent, child);
        break;
      }
      s := SiftMove(old(a[..]), s, rank, first, start, n, parent, child);
      HoleMoved(a[..], first + parent, first + child, val);
      ghost var u := a[..];
      a[first + parent] := a[first + child];
      assert a[..] == u[first + parent := u[first + child]];
      parent := child;
    }
    ghost var u := a[..];
    a[first + parent] := val;
    assert a[..] == u[first + parent := val];
  }

  lemma SiftMove<T>(s0: seq<T>, s: seq<T>, rank: T -> int, first: nat, start: nat, n: nat, p: nat, c: nat)
    returns (t: seq<T>)
    requires p < n && c < n && first + n <= |s|
    requires AlmostHeap(s, rank, first, start, n, p) && BigChild(s, rank, first, n, p, c)
    requires rank(s[first + p]) < rank(s[first + c]) && Rearranged(s0, s, first, first + n)
    ensures t == Swapped(s, first + p, first + c) && Rearranged(s0, t, first, first + n)
    ensures AlmostHeap(t, rank, first, start, n, c)
  {
    hide *;
    SiftStep(s, rank, first, start, n, p, c);
    SwapRearranged(s, first, first + n, first + p, first + c);
    t := Swapped(s, first + p, first + c);
    RearrangedTrans(s0, s, t, first, first + n);
  }

  /** Everything from `lo` to `mid` ranks at most as high as everything from `mid` to `hi`. */
  ghost predicate Cross<T>(s: seq<T>, rank: T -> int, lo: nat, mid: nat, hi: nat) {
    mid <= |s| && hi <= |s| && forall p, q :: lo <= p < mid <= q < hi ==> rank(s[p]) <= rank(s[q])
  }

  /** Changing places on one side of `mid` does not disturb the order across it. */
  lemma CrossRearranged<T>(s: seq<T>, t: seq<T>, rank: T -> int, lo: nat, mid: nat, hi: nat, x: nat, y: nat)
    requires Cross(s, rank, lo, mid, hi) && Rearranged(s, t, x, y)
    requires (lo <= x && y <= mid) || (mid <= x && y <= hi)
    ensures Cross(t, rank, lo, mid, hi)
  {
    forall p, q | lo <= p < mid <= q < hi
      ensures rank(t[p]) <= rank(t[q])
    {
      var p' := RearrangedAt(s, t, x, y, p);
      var q' := RearrangedAt(s, t, x, y, q);
    }
  }

  lemma SortedElsewhere<T>(s: seq<T>, t: seq<T>, rank: T -> int, lo: nat, hi: nat, x: nat, y: nat)
    requires Sorted(s, rank, lo, hi) && Rearranged(s, t, x, y) && (hi <= x || y <= lo)
    ensures Sorted(t, rank, lo, hi)
  {
    forall i, j | lo <= i < j < hi
      ensures rank(t[i]) <= rank(t[j])
    {
      var i' := RearrangedAt(s, t, x, y, i);
      var j' := RearrangedAt(s, t, x, y, j);
    }
  }

  lemma HeapAlmost<T>(s: seq<T>, rank: T -> int, first: nat, i: nat, n: nat)
    requires i < n && Heap(s, rank, first, i + 1, n)
    ensures AlmostHeap(s, rank, first, i, n, i)
  {
  }

  lemma LeavesAreHeap<T>(s: seq<T>, rank: T -> int, first: nat, n: nat)
    requires first + n <= |s|
    ensures Heap(s, rank, first, n / 2, n)
  {
  }

  /** The root goes behind the heap; the heap shrinks by one and only its root may be too low. */
  lemma Extract<T>(s: seq<T>, rank: T -> int, first: nat, last: nat, i: nat)
    requires 0 < i && first + i < last <= |s| && Heap(s, rank, first, 0, i + 1)
    requires Cross(s, rank, first, first + i + 1, last) && Sorted(s, rank, first + i + 1, last)
    ensures var t := Swapped(s, first, first + i);
            && AlmostHeap(t, rank, first, 0, i, 0)
            && Cross(t, rank, first, first + i, last) && Sorted(t, rank, first + i, last)
  {
    var t := Swapped(s, first, first + i);
    forall k | 0 <= k < i && k != 0
      ensures NodeOk(t, rank, first, i, k)
    {
      assert NodeOk(s, rank, first, i + 1, k);
    }
    forall p | first <= p <= first + i
      ensures rank(s[p]) <= rank(s[first])
    {
      RootHighest(s, rank, first, i + 1, p - first);
    }
  }

  method Heapsort<T>(a: array<T>, rank: T -> int, first: nat, last: nat)
    requires first <= last <= a.Length
    modifies a
    ensures Rearranged(old(a[..]), a[..], first, last)
    ensures Sorted(a[..], rank, first, last)
  {
    hide *;
    var n: nat := last - first;
    RearrangedSame(a[..], first, last);
    LeavesAreHeap(a[..], rank, first, n);
    var i: nat := n / 2;
    while i > 0
      invariant i <= n / 2
      invariant Rearranged(old(a[..]), a[..], first, last) && Heap(a[..], rank, first, i, n)
    {
      i := i - 1;
      ghost var s := a[..];
      HeapAlmost(s, rank, first, i, n);
      SiftDown(a, rank, first, i, n);
      RearrangedTrans(old(a[..]), s, a[..], first, last);
    }
    ghost var s := a[..];
    HeapsortExtract(a, rank, first, last);
    RearrangedTrans(old(a[..]), s, a[..], first, last);
  }

  /** The second half of heapsort: the highest remaining element is moved behind the heap. */
  method HeapsortExtract<T>(a: array<T>, rank: T -> int, first: nat, last: nat)
    requires first <= last <= a.Length && Heap(a[..], rank, first, 0, last - first)
    modifies a
    ensures Rearranged(old(a[..]), a[..], first, last)
    ensures Sorted(a[..], rank, first, last)
  {
    hide *;
    RearrangedSame(a[..], first, last);
    TrivialTail(a[..], rank, first, last);
    var m: nat := last - first;
    while m > 1
      invariant m <= last - first
      invariant Rearranged(old(a[..]), a[..], first, last) && Heap(a[..], rank, first, 0, m)
      invariant Cross(a[..], rank, first, first + m, last) && Sorted(a[..], rank, first + m, last)
    {
      m := m - 1;
      ghost var s := a[..];
      Extract(s, rank, first, last, m);
      SwapRearranged(s, first, last, first, first + m);
      RearrangedTrans(old(a[..]), s, Swapped(s, first, first + m), first, last);
      Swap(a, first, first + m);
      ghost var t := a[..];
      SiftDown(a, rank, first, 0, m);
      CrossRearranged(t, a[..], rank, first, first + m, last, first, first + m);
      SortedElsewhere(t, a[..], rank, first + m, last, first, first + m);
      RearrangedWiden(t, a[..], first, first + m, first, last);
      RearrangedTrans(old(a[..]), t, a[..], first, last);
    }
    SortedJoin(a[..], rank, first, m, last);
  }

  lemma TrivialTail<T>(s: seq<T>, rank: T -> int, lo: nat, hi: nat)
    requires lo <= hi <= |s|
    ensures Cross(s, rank, lo, hi, hi) && Sorted(s, rank, hi, hi)
  {
  }

  lemma SortedJoin<T>(s: seq<T>, rank: T -> int, lo: nat, m: nat, hi: nat)
    requires m <= 1 && lo + m <= hi && Cross(s, rank, lo, lo + m, hi) && Sorted(s, rank, lo + m, hi)
    ensures Sorted(s, rank, lo, hi)
  {
  }

  // introsort

  /** Elements at least a threshold apart are in order. */
  ghost predicate Near<T>(s: seq<T>, rank: T -> int, lo: nat, hi: nat) {
    hi <= |s| && forall p, q :: lo <= p && p + INSERTION_SORT_THRESHOLD <= q < hi ==> rank(s[p]) <= rank(s[q])
  }

  lemma NearElsewhere<T>(s: seq<T>, t: seq<T>, rank: T -> int, lo: nat, hi: nat, x: nat, y: nat)
    requires Near(s, rank, lo, hi) && Rearranged(s, t, x, y) && (hi <= x || y <= lo)
    ensures Near(t, rank, lo, hi)
  {
    forall i, j | lo <= i && i + INSERTION_SORT_THRESHOLD <= j < hi
      ensures rank(t[i]) <= rank(t[j])
    {
      var i' := RearrangedAt(s, t, x, y, i);
      var j' := RearrangedAt(s, t, x, y, j);
    }
  }

  lemma NearJoin<T>(s: seq<T>, rank: T -> int, lo: nat, mid: nat, hi: nat)
    requires lo <= mid <= hi && Near(s, rank, lo, mid) && Near(s, rank, mid, hi) && Cross(s, rank, lo, mid, hi)
    ensures Near(s, rank, lo, hi)
  {
  }

  lemma NearSmall<T>(s: seq<T>, rank: T -> int, lo: nat, hi: nat)
    requires lo <= hi <= |s| && (hi - lo <= INSERTION_SORT_THRESHOLD || Sorted(s, rank, lo, hi))
    ensures Near(s, rank, lo, hi)
  {
  }

  /** The loop's state: what lies before `f` and from `l` on is finished and in its place. */
  ghost predicate Intro<T>(s0: seq<T>, s: seq<T>, rank: T -> int, lo: nat, f: nat, l: nat, hi: nat) {
    && lo <= f <= l <= hi && Rearranged(s0, s, lo, hi)
    && Near(s, rank, lo, f) && Near(s, rank, l, hi)
    && Cross(s, rank, lo, f, hi) && Cross(s, rank, lo, l, hi)
  }

  lemma IntroRearranged<T>(s0: seq<T>, s: seq<T>, t: seq<T>, rank: T -> int, lo: nat, f: nat, l: nat, hi: nat)
    requires Intro(s0, s, rank, lo, f, l, hi) && Rearranged(s, t, f, l)
    ensures Intro(s0, t, rank, lo, f, l, hi)
  {
    hide Rearranged;
    hide Near;
    hide Cross;
    assert hi <= |s| by { RearrangedLength(s0, s, lo, hi); }
    RearrangedWiden(s, t, f, l, lo, hi);
    RearrangedTrans(s0, s, t, lo, hi);
    NearElsewhere(s, t, rank, lo, f, f, l);
    NearElsewhere(s, t, rank, l, hi, f, l);
    CrossRearranged(s, t, rank, lo, f, hi, f, l);
    CrossRearranged(s, t, rank, lo, l, hi, f, l);
  }

  lemma RearrangedLength<T>(s: seq<T>, t: seq<T>, lo: nat, hi: nat)
    requires Rearranged(s, t, lo, hi)
    ensures lo <= hi <= |s| == |t|
  {
  }

  lemma BoundsCross<T>(s: seq<T>, rank: T -> int, lo: nat, mid: nat, hi: nat, r: int)
    requires AtMost(s, rank, lo, mid, r) && AtLeast(s, rank, mid, hi, r)
    ensures Cross(s, rank, lo, mid, hi)
  {
  }

  /** The order across a cut of the middle part extends to the whole range. */
  lemma CrossExtend<T>(s: seq<T>, rank: T -> int, lo: nat, f: nat, cut: nat, l: nat, hi: nat)
    requires lo <= f <= cut <= l <= hi
    requires Cross(s, rank, lo, f, hi) && Cross(s, rank, lo, l, hi) && Cross(s, rank, f, cut, l)
    ensures Cross(s, rank, lo, cut, hi)
  {
    forall p, q | lo <= p < cut <= q < hi
      ensures rank(s[p]) <= rank(s[q])
    {
    }
  }

  lemma IntroLeft<T>(s0: seq<T>, s: seq<T>, rank: T -> int, lo: nat, f: nat, cut: nat, l: nat, hi: nat)
    requires Intro(s0, s, rank, lo, f, l, hi) && f <= cut <= l
    requires Cross(s, rank, f, cut, l) && Near(s, rank, f, cut)
    ensures Intro(s0, s, rank, lo, cut, l, hi)
  {
    hide Near;
    CrossExtend(s, rank, lo, f, cut, l, hi);
    CrossNarrow(s, rank, lo, f, hi, cut);
    NearJoin(s, rank, lo, f, cut);
  }

  lemma CrossNarrow<T>(s: seq<T>, rank: T -> int, lo: nat, mid: nat, hi: nat, hi': nat)
    requires Cross(s, rank, lo, mid, hi) && hi' <= hi
    ensures Cross(s, rank, lo, mid, hi')
  {
  }

  lemma IntroRight<T>(s0: seq<T>, s: seq<T>, rank: T -> int, lo: nat, f: nat, cut: nat, l: nat, hi: nat)
    requires Intro(s0, s, rank, lo, f, l, hi) && f <= cut <= l
    requires Cross(s, rank, f, cut, l) && Near(s, rank, cut, l)
    ensures Intro(s0, s, rank, lo, f, cut, hi)
  {
    hide Near;
    CrossExtend(s, rank, lo, f, cut, l, hi);
    assert Cross(s, rank, cut, l, hi);
    NearJoin(s, rank, cut, l, hi);
  }

  lemma IntroEnd<T>(s0: seq<T>, s: seq<T>, rank: T -> int, lo: nat, f: nat, l: nat, hi: nat)
    requires Intro(s0, s, rank, lo, f, l, hi) && Near(s, rank, f, l)
    ensures Rearranged(s0, s, lo, hi) && Near(s, rank, lo, hi)
  {
    hide Near;
    CrossNarrow(s, rank, lo, f, hi, l);
    NearJoin(s, rank, lo, f, l);
    NearJoin(s, rank, lo, l, hi);
  }

  lemma IntroStart<T>(s: seq<T>, rank: T -> int, lo: nat, hi: nat)
    requires lo <= hi <= |s|
    ensures Intro(s, s, rank, lo, lo, hi, hi)
  {
  }

  function Pow2(n: nat): nat {
    if n == 0 then 1 else 2 * Pow2(n - 1)
  }

  /**
   Partitions until at most a threshold of elements is left, recursing into the smaller side.
   Each nested call has one of the `levels` less: calls nest no deeper than the logarithm of the length.
   */
  method IntrosortImpl<T>(a: array<T>, rank: T -> int, first: nat, last: nat, depthLimit: nat, ghost levels: nat)
    requires first <= last <= a.Length && last - first < Pow2(levels + 1)
    modifies a
    ensures Rearranged(old(a[..]), a[..], first, last)
    ensures Near(a[..], rank, first, last)
    decreases levels
  {
    hide *;
    var f, l, limit := first, last, depthLimit;
    PowZero();
    PowSucc(0);
    PowSucc(levels);
    Threshold();
    IntroStart(a[..], rank, first, last);
    while l - f > INSERTION_SORT_THRESHOLD
      invariant first <= f <= l <= last && Intro(old(a[..]), a[..], rank, first, f, l, last)
      decreases l - f
    {
      ghost var s := a[..];
      if limit == 0 {
        Heapsort(a, rank, f, l);
        IntroRearranged(old(a[..]), s, a[..], rank, first, f, l, last);
        NearSmall(a[..], rank, f, l);
        IntroEnd(old(a[..]), a[..], rank, first, f, l, last);
        return;
      }
      limit := limit - 1;
      var cut, r := Partition(a, rank, f, l);
      ghost var t := a[..];
      IntroRearranged(old(a[..]), s, t, rank, first, f, l, last);
      BoundsCross(t, rank, f, cut, l, r);
      if cut - f < l - cut {
        IntrosortImpl(a, rank, f, cut, limit, levels - 1);
        RearrangedWiden(t, a[..], f, cut, f, l);
        IntroRearranged(old(a[..]), t, a[..], rank, first, f, l, last);
        CrossRearranged(t, a[..], rank, f, cut, l, f, cut);
        IntroLeft(old(a[..]), a[..], rank, first, f, cut, l, last);
        f := cut;
      } else {
        IntrosortImpl(a, rank, cut, l, limit, levels - 1);
        RearrangedWiden(t, a[..], cut, l, f, l);
        IntroRearranged(old(a[..]), t, a[..], rank, first, f, l, last);
        CrossRearranged(t, a[..], rank, f, cut, l, cut, l);
        IntroRight(old(a[..]), a[..], rank, first, f, cut, l, last);
        l := cut;
      }
    }
    NearSmall(a[..], rank, f, l);
    IntroEnd(old(a[..]), a[..], rank, first, f, l, last);
  }

  lemma Threshold()
    ensures INSERTION_SORT_THRESHOLD == 16
  {
  }

  lemma PowZero()
    ensures Pow2(0) == 1
  {
  }

  lemma PowSucc(n: nat)
    ensures Pow2(n + 1) == 2 * Pow2(n)
  {
  }

  method Log2Floor(n: nat) returns (log: nat)
    requires n > 0
    ensures Pow2(log) <= n < Pow2(log + 1)
  {
    log := 0;
    var m := n;
    while m / 2 != 0
      invariant m > 0 && Pow2(log) * m <= n < Pow2(log) * (m + 1)
    {
      Halve(n, m, Pow2(log));
      m := m / 2;
      log := log + 1;
    }
  }

  lemma Halve(n: nat, m: nat, p: nat)
    requires p * m <= n < p * (m + 1)
    ensures 2 * p * (m / 2) <= n < 2 * p * (m / 2 + 1)
  {
    var h := m / 2;
    assert m == 2 * h || m == 2 * h + 1;
    assert 2 * p * h == p * (2 * h) && 2 * p * (h + 1) == p * (2 * h + 2);
    assert p * (2 * h) <= p * m && p * (m + 1) <= p * (2 * h + 2);
  }

  /** klib::sort: the elements from `first` to `last` end up sorted, whatever they were. */
  method Sort<T>(a: array<T>, rank: T -> int, first: nat, last: nat)
    requires first <= last <= a.Length
    modifies a
    ensures Rearranged(old(a[..]), a[..], first, last)
    ensures Sorted(a[..], rank, first, last)
  {
    if first == last {
      return;
    }
    hide *;
    var n := last - first;
    var log := Log2Floor(n);
    IntrosortImpl(a, rank, first, last, 2 * log, log);
    ghost var s := a[..];
    InsertionSort(a, rank, first, last);
    RearrangedTrans(old(a[..]), s, a[..], first, last);
  }
}
