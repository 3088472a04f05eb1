/**
 * `MergeSortStrategy`: top-down merge sort over the half-open range
 * `[low, high)`, merging each pair of sorted halves into an auxiliary
 * buffer and copying the merged run back.
 */
module MergeSortStrategy {
  import opened SortStrategy

  /**
   * The merge of two runs: repeatedly take the smaller head, taking from
   * the left run on a tie (`compareTo <= 0`), which is what keeps the sort
   * stable.
   */
  function Merge<T>(l: seq<T>, r: seq<T>, rank: T -> real): (m: seq<T>)
    ensures |m| == |l| + |r|
    decreases |l| + |r|
  {
    if l == [] then r
    else if r == [] then l
    else if rank(l[0]) <= rank(r[0]) then [l[0]] + Merge(l[1..], r, rank)
    else [r[0]] + Merge(l, r[1..], rank)
  }

  /** Sort each half (split at the midpoint) and merge the results. */
  function MergeSorted<T>(s: seq<T>, rank: T -> real): (r: seq<T>)
    ensures |r| == |s|
    decreases |s|
  {
    if |s| <= 1 then s
    else Merge(MergeSorted(s[..|s| / 2], rank), MergeSorted(s[|s| / 2..], rank), rank)
  }

  lemma {:induction false} MergePermutes<T>(l: seq<T>, r: seq<T>, rank: T -> real)
    ensures multiset(Merge(l, r, rank)) == multiset(l) + multiset(r)
    decreases |l| + |r|
  {
    if l != [] && r != [] {
      if rank(l[0]) <= rank(r[0]) {
        var m := Merge(l[1..], r, rank);
        assert Merge(l, r, rank) == [l[0]] + m;
        MergePermutes(l[1..], r, rank);
        assert l == [l[0]] + l[1..];
        assert multiset(l) == multiset{l[0]} + multiset(l[1..]);
      } else {
        var m := Merge(l, r[1..], rank);
        assert Merge(l, r, rank) == [r[0]] + m;
        MergePermutes(l, r[1..], rank);
        assert r == [r[0]] + r[1..];
        assert multiset(r) == multiset{r[0]} + multiset(r[1..]);
      }
    }
  }

  /** Every element of a sorted run ranks at least as high as its head. */
  lemma SortedAboveHead<T>(s: seq<T>, x: T, rank: T -> real)
    requires s != [] && Sorted(s, rank) && x in multiset(s)
    ensures rank(s[0]) <= rank(x)
  {
    var i :| 0 <= i < |s| && s[i] == x;
    assert i == 0 || rank(s[0]) <= rank(s[i]);
  }

  /** Prefixing an element no higher than every element keeps a run sorted. */
  lemma ConsSorted<T>(h: T, t: seq<T>, rank: T -> real)
    requires Sorted(t, rank)
    requires forall x | x in multiset(t) :: rank(h) <= rank(x)
    ensures Sorted([h] + t, rank)
  {
    var s := [h] + t;
    forall i, j | 0 <= i < j < |s| ensures rank(s[i]) <= rank(s[j]) {
      if i == 0 {
        assert s[j] == t[j - 1] && t[j - 1] in multiset(t);
      } else {
        assert s[i] == t[i - 1] && s[j] == t[j - 1];
      }
    }
  }

  /** An element no higher than both heads is no higher than anything in their merge. */
  lemma BelowMerge<T>(h: T, l: seq<T>, r: seq<T>, rank: T -> real)
    requires Sorted(l, rank) && Sorted(r, rank)
    requires (l != [] ==> rank(h) <= rank(l[0])) && (r != [] ==> rank(h) <= rank(r[0]))
    ensures forall x | x in multiset(Merge(l, r, rank)) :: rank(h) <= rank(x)
  {
    MergePermutes(l, r, rank);
    forall x | x in multiset(Merge(l, r, rank)) ensures rank(h) <= rank(x) {
      if x in multiset(l) {
        SortedAboveHead(l, x, rank);
      } else {
        SortedAboveHead(r, x, rank);
      }
    }
  }

  lemma {:induction false} MergeKeepsSorted<T>(l: seq<T>, r: seq<T>, rank: T -> real)
    requires Sorted(l, rank) && Sorted(r, rank)
    ensures Sorted(Merge(l, r, rank), rank)
    decreases |l| + |r|
  {
    if l != [] && r != [] {
      if rank(l[0]) <= rank(r[0]) {
        SortedTail(l, rank);
        MergeKeepsSorted(l[1..], r, rank);
        assert |l| > 1 ==> rank(l[0]) <= rank(l[1]);
        BelowMerge(l[0], l[1..], r, rank);
        ConsSorted(l[0], Merge(l[1..], r, rank), rank);
      } else {
        SortedTail(r, rank);
        MergeKeepsSorted(l, r[1..], rank);
        assert |r| > 1 ==> rank(r[0]) <= rank(r[1]);
        BelowMerge(r[0], l, r[1..], rank);
        ConsSorted(r[0], Merge(l, r[1..], rank), rank);
      }
    }
  }

  /** A sorted run whose head ranks above `k` has no element of rank `k`. */
  lemma GroupAbsentAboveHead<T>(l: seq<T>, rank: T -> real, k: real)
    requires l != [] && Sorted(l, rank) && rank(l[0]) > k
    ensures WithKey(l, rank, k) == []
  {
    forall i | 0 <= i < |l| ensures rank(l[i]) != k {
      assert i == 0 || rank(l[0]) <= rank(l[i]);
    }
    WithKeyAbsent(l, rank, k);
  }

  /**
   * Merging sorted runs keeps each group of equal rank in order: the left
   * run's members of the group come first, then the right run's.
   */
  lemma {:induction false} MergeKeepsGroups<T>(l: seq<T>, r: seq<T>, rank: T -> real, k: real)
    requires Sorted(l, rank) && Sorted(r, rank)
    ensures WithKey(Merge(l, r, rank), rank, k) == WithKey(l, rank, k) + WithKey(r, rank, k)
    decreases |l| + |r|
  {
    if l == [] {
      assert WithKey(l, rank, k) == [];
    } else if r == [] {
      assert WithKey(r, rank, k) == [];
    } else if rank(l[0]) <= rank(r[0]) {
      SortedTail(l, rank);
      MergeKeepsGroups(l[1..], r, rank, k);
      assert [l[0]] + l[1..] == l;
      LeftHeadGroups(l[0], l[1..], Merge(l[1..], r, rank), WithKey(r, rank, k), rank, k);
    } else {
      SortedTail(r, rank);
      MergeKeepsGroups(l, r[1..], rank, k);
      if rank(r[0]) == k {
        GroupAbsentAboveHead(l, rank, k);
      }
      RightHeadGroups(WithKey(l, rank, k), r, Merge(l, r[1..], rank), rank, k);
    }
  }

  /** Taking the left head puts it in front of its group, where it was in `l`. */
  lemma LeftHeadGroups<T>(x: T, t: seq<T>, m: seq<T>, g: seq<T>, rank: T -> real, k: real)
    requires WithKey(m, rank, k) == WithKey(t, rank, k) + g
    ensures WithKey([x] + m, rank, k) == WithKey([x] + t, rank, k) + g
  {
    WithKeyCons(x, m, rank, k);
    WithKeyCons(x, t, rank, k);
  }

  /**
   * Taking the right head puts it in front of the rest of its group in
   * `r`, provided the left run contributes nothing to that group.
   */
  lemma RightHeadGroups<T>(g: seq<T>, r: seq<T>, m: seq<T>, rank: T -> real, k: real)
    requires r != [] && (rank(r[0]) == k ==> g == [])
    requires WithKey(m, rank, k) == g + WithKey(r[1..], rank, k)
    ensures WithKey([r[0]] + m, rank, k) == g + WithKey(r, rank, k)
  {
    assert [r[0]] + r[1..] == r;
    WithKeyCons(r[0], m, rank, k);
    WithKeyCons(r[0], r[1..], rank, k);
  }

  /** The merge sort of any sequence is a sorted rearrangement of it. */
  lemma {:induction false} MergeSortedSorts<T>(s: seq<T>, rank: T -> real)
    ensures SortsInPlace(s, MergeSorted(s, rank), rank)
    decreases |s|
  {
    if |s| > 1 {
      var a, b := s[..|s| / 2], s[|s| / 2..];
      MergeSortedSorts(a, rank);
      MergeSortedSorts(b, rank);
      assert s == a + b;
      HalvesSorts(a, b, MergeSorted(a, rank), MergeSorted(b, rank), rank);
    }
  }

  /** Merging sorted rearrangements of two halves sorts and rearranges the whole. */
  lemma HalvesSorts<T>(a: seq<T>, b: seq<T>, sa: seq<T>, sb: seq<T>, rank: T -> real)
    requires SortsInPlace(a, sa, rank) && SortsInPlace(b, sb, rank)
    ensures SortsInPlace(a + b, Merge(sa, sb, rank), rank)
  {
    MergePermutes(sa, sb, rank);
    MergeKeepsSorted(sa, sb, rank);
  }

  /** The merge sort keeps every group of equally ranked elements in order. */
  lemma {:induction false} MergeSortedStable<T>(s: seq<T>, rank: T -> real)
    ensures Stable(s, MergeSorted(s, rank), rank)
    decreases |s|
  {
    if |s| > 1 {
      var a, b := s[..|s| / 2], s[|s| / 2..];
      MergeSortedStable(a, rank);
      MergeSortedStable(b, rank);
      MergeSortedSorts(a, rank);
      MergeSortedSorts(b, rank);
      assert s == a + b;
      forall k ensures WithKey(s, rank, k) == WithKey(MergeSorted(s, rank), rank, k) {
        HalvesGroups(a, b, MergeSorted(a, rank), MergeSorted(b, rank), rank, k);
      }
    }
  }

  /** The group of `a + b` is kept by merging stable sorts of the two halves. */
  lemma HalvesGroups<T>(a: seq<T>, b: seq<T>, sa: seq<T>, sb: seq<T>, rank: T -> real, k: real)
    requires Sorted(sa, rank) && Sorted(sb, rank)
    requires WithKey(a, rank, k) == WithKey(sa, rank, k) && WithKey(b, rank, k) == WithKey(sb, rank, k)
    ensures WithKey(a + b, rank, k) == WithKey(Merge(sa, sb, rank), rank, k)
  {
    MergeKeepsGroups(sa, sb, rank, k);
    WithKeyAppend(a, b, rank, k);
  }

  /** Taking the left head when the left run leads (or the right one is spent). */
  lemma MergeTakesLeft<T>(l: seq<T>, r: seq<T>, rank: T -> real)
    requires l != [] && (r == [] || rank(l[0]) <= rank(r[0]))
    ensures Merge(l, r, rank) == [l[0]] + Merge(l[1..], r, rank)
  {
    if r == [] {
      assert Merge(l[1..], r, rank) == l[1..];
      assert l == [l[0]] + l[1..];
    }
  }

  /** Taking the right head when it is strictly smaller (or the left run is spent). */
  lemma MergeTakesRight<T>(l: seq<T>, r: seq<T>, rank: T -> real)
    requires r != [] && (l == [] || rank(l[0]) > rank(r[0]))
    ensures Merge(l, r, rank) == [r[0]] + Merge(l, r[1..], rank)
  {
    if l == [] {
      assert r == [r[0]] + r[1..];
    }
  }

  lemma Shift<T>(out: seq<T>, x: T, rest: seq<T>, want: seq<T>)
    requires out + ([x] + rest) == want
    ensures (out + [x]) + rest == want
  {
    assert (out + [x]) + rest == out + ([x] + rest);
  }

  /** Merges the runs `a[low..mid]` and `a[mid..high]` into `aux[low..high]`. */
  method MergeInto<T>(a: array<T>, aux: array<T>, low: nat, mid: nat, high: nat, rank: T -> real)
    requires a != aux && a.Length == aux.Length && low <= mid <= high <= a.Length
    modifies aux
    ensures aux[low..high] == Merge(a[low..mid], a[mid..high], rank)
  {
    ghost var want := Merge(a[low..mid], a[mid..high], rank);
    ghost var out: seq<T>, ls, rs := [], a[low..mid], a[mid..high];
    var i, j, k := low, mid, low;
    while k < high
      invariant low <= i <= mid <= j <= high && k == low + (i - low) + (j - mid)
      invariant |out| == k - low && forall t | low <= t < k :: aux[t] == out[t - low]
      invariant ls == a[i..mid] && rs == a[j..high]
      invariant out + Merge(ls, rs, rank) == want
    {
      if i < mid && (j == high || rank(a[i]) <= rank(a[j])) {
        MergeTakesLeft(ls, rs, rank);
        Shift(out, ls[0], Merge(ls[1..], rs, rank), want);
        aux[k] := a[i];
        out, ls := out + [a[i]], ls[1..];
        i := i + 1;
      } else {
        MergeTakesRight(ls, rs, rank);
        Shift(out, rs[0], Merge(ls, rs[1..], rank), want);
        aux[k] := a[j];
        out, rs := out + [a[j]], rs[1..];
        j := j + 1;
      }
      k := k + 1;
    }
    assert aux[low..high] == out;
  }

  /** Copies `aux[low..high]` back into `a[low..high]`. */
  method CopyBack<T>(a: array<T>, aux: array<T>, low: nat, high: nat)
    requires a != aux && a.Length == aux.Length && low <= high <= a.Length
    modifies a
    ensures a[low..high] == aux[low..high]
    ensures SameOutside(a[..], old(a[..]), low, high)
  {
    var k := low;
    while k < high
      invariant low <= k <= high
      invariant forall i | low <= i < k :: a[i] == aux[i]
      invariant forall i | 0 <= i < a.Length && !(low <= i < k) :: a[i] == old(a[i])
    {
      a[k] := aux[k];
      k := k + 1;
    }
    assert a[low..high] == aux[low..high];
  }

  /**
   * `merge(array, aux, low, mid, high)`: merges the runs `a[low..mid]` and
   * `a[mid..high]` into `aux[low..high]`, then copies that back.
   */
  method MergeRuns<T>(a: array<T>, aux: array<T>, low: nat, mid: nat, high: nat, rank: T -> real)
    requires a != aux && a.Length == aux.Length && low <= mid <= high <= a.Length
    modifies a, aux
    ensures a[low..high] == Merge(old(a[low..mid]), old(a[mid..high]), rank)
    ensures SameOutside(a[..], old(a[..]), low, high)
  {
    MergeInto(a, aux, low, mid, high, rank);
    CopyBack(a, aux, low, high);
  }

  /** `x` and `y` agree everywhere outside `[lo, hi)`. */
  ghost predicate SameOutside<T>(x: seq<T>, y: seq<T>, lo: int, hi: int)
  {
    |x| == |y| && forall i | 0 <= i < |x| && !(lo <= i < hi) :: x[i] == y[i]
  }

  /**
   * The three steps of `mergeSort` on snapshots: `B` after sorting the
   * lower half of `A`, `C` after sorting the upper half, `D` after the
   * merge.
   */
  lemma SortRangeSteps<T>(A: seq<T>, B: seq<T>, C: seq<T>, D: seq<T>, low: nat, mid: nat, high: nat, rank: T -> real)
    requires low <= mid <= high <= |A| && mid == low + (high - low) / 2 && high - low > 1
    requires SameOutside(B, A, low, mid) && B[low..mid] == MergeSorted(A[low..mid], rank)
    requires SameOutside(C, B, mid, high) && C[mid..high] == MergeSorted(B[mid..high], rank)
    requires SameOutside(D, C, low, high) && D[low..high] == Merge(C[low..mid], C[mid..high], rank)
    ensures D[low..high] == MergeSorted(A[low..high], rank) && SameOutside(D, A, low, high)
  {
    SameSlice(B, A, mid, high);
    SameSlice(C, B, low, mid);
    SplitAtMid(A, low, mid, high, rank);
  }

  /** `mergeSort`'s midpoint is where `MergeSorted` splits the range. */
  lemma SplitAtMid<T>(A: seq<T>, low: nat, mid: nat, high: nat, rank: T -> real)
    requires low <= mid <= high <= |A| && mid == low + (high - low) / 2 && high - low > 1
    ensures MergeSorted(A[low..high], rank) == Merge(MergeSorted(A[low..mid], rank), MergeSorted(A[mid..high], rank), rank)
  {
    var S := A[low..high];
    assert S[..|S| / 2] == A[low..mid] && S[|S| / 2..] == A[mid..high];
  }

  lemma SameSlice<T>(x: seq<T>, y: seq<T>, lo: nat, hi: nat)
    requires |x| == |y| && lo <= hi <= |x|
    requires forall i | lo <= i < hi :: x[i] == y[i]
    ensures x[lo..hi] == y[lo..hi]
  {
  }

  /**
   * `mergeSort(array, aux, low, high)`: sorts `a[low..high]` by sorting
   * both halves around the midpoint and merging them; the rest of `a` is
   * left alone.
   */
  method MergeSortRange<T>(a: array<T>, aux: array<T>, low: nat, high: nat, rank: T -> real)
    requires a != aux && a.Length == aux.Length && low <= high <= a.Length
    modifies a, aux
    ensures a[low..high] == MergeSorted(old(a[low..high]), rank)
    ensures SameOutside(a[..], old(a[..]), low, high)
    decreases high - low
  {
    if high - low <= 1 {
      return;
    }
    ghost var A := a[..];
    var mid := low + (high - low) / 2;
    MergeSortRange(a, aux, low, mid, rank);
    ghost var B := a[..];
    MergeSortRange(a, aux, mid, high, rank);
    ghost var C := a[..];
    MergeRuns(a, aux, low, mid, high, rank);
    SortRangeSteps(A, B, C, a[..], low, mid, high, rank);
  }

  /** `MergeSortStrategy.sort`: sorts `list` in place through an auxiliary buffer of the same size. */
  method Sort<T>(list: array<T>, rank: T -> real)
    modifies list
    ensures list[..] == MergeSorted(old(list[..]), rank)
    ensures SortsInPlace(old(list[..]), list[..], rank) && Stable(old(list[..]), list[..], rank)
  {
    ghost var s0 := list[..];
    var aux := new T[list.Length](i reads list requires 0 <= i < list.Length => list[i]);
    assert list[0..list.Length] == s0;
    MergeSortRange(list, aux, 0, list.Length, rank);
    assert list[..] == list[0..list.Length];
    MergeSortedSorts(s0, rank);
    MergeSortedStable(s0, rank);
  }
}
