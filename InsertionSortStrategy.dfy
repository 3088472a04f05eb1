/**
 * Insertion sort on a list held in an array: for each position `i` from 1,
 * the element `key` there is moved left past every element of the sorted
 * prefix that is ranked strictly above it.
 */
module InsertionSortStrategy {
  import opened SortStrategy

  /**
   * The effect of one outer iteration on the sorted prefix `s`: `key` is
   * placed after the last element ranked at most `rank(key)`, scanning
   * from the right, as the inner loop does.
   */
  function Insert<T>(s: seq<T>, key: T, rank: T -> real): (r: seq<T>)
    ensures |r| == |s| + 1
  {
    if s == [] then [key]
    else if rank(s[|s| - 1]) > rank(key) then Insert(s[..|s| - 1], key, rank) + [s[|s| - 1]]
    else s + [key]
  }

  /** The list after insertion sort: each element inserted in turn into the sorted prefix. */
  function InsertionSorted<T>(s: seq<T>, rank: T -> real): (r: seq<T>)
    ensures |r| == |s|
  {
    if s == [] then [] else Insert(InsertionSorted(s[..|s| - 1], rank), s[|s| - 1], rank)
  }

  lemma {:induction false} InsertPermutes<T>(s: seq<T>, key: T, rank: T -> real)
    ensures multiset(Insert(s, key, rank)) == multiset(s) + multiset{key}
  {
    if s != [] && rank(s[|s| - 1]) > rank(key) {
      InsertPermutes(s[..|s| - 1], key, rank);
      assert s == s[..|s| - 1] + [s[|s| - 1]];
    }
  }

  lemma {:induction false} InsertKeepsSorted<T>(s: seq<T>, key: T, rank: T -> real)
    requires Sorted(s, rank)
    ensures Sorted(Insert(s, key, rank), rank)
  {
    if s != [] && rank(s[|s| - 1]) > rank(key) {
      var init, last := s[..|s| - 1], s[|s| - 1];
      InsertKeepsSorted(init, key, rank);
      InsertPermutes(init, key, rank);
      var r := Insert(init, key, rank);
      forall i | 0 <= i < |r| ensures rank(r[i]) <= rank(last) {
        assert r[i] in multiset(init) + multiset{key};
        if r[i] != key {
          var j :| 0 <= j < |init| && init[j] == r[i];
          assert s[j] == init[j];
        }
      }
    }
  }

  /**
   * The key lands after every element of its own rank: it passes only
   * elements that compare strictly greater, which is what makes the sort stable.
   */
  lemma {:induction false} InsertKeepsGroups<T>(s: seq<T>, key: T, rank: T -> real, k: real)
    ensures WithKey(Insert(s, key, rank), rank, k)
         == WithKey(s, rank, k) + (if rank(key) == k then [key] else [])
  {
    if s == [] {
      WithKeySingle(key, rank, k);
    } else {
      var init, last := s[..|s| - 1], s[|s| - 1];
      if rank(last) > rank(key) {
        InsertKeepsGroups(init, key, rank, k);
        WithKeyAppend(Insert(init, key, rank), [last], rank, k);
        assert s == init + [last];
        WithKeyAppend(init, [last], rank, k);
        WithKeySingle(last, rank, k);
      } else {
        WithKeyAppend(s, [key], rank, k);
        WithKeySingle(key, rank, k);
      }
    }
  }

  /** Insertion sort yields a sorted, stable rearrangement of its input. */
  lemma {:induction false} InsertionSortedCorrect<T>(s: seq<T>, rank: T -> real)
    ensures SortsInPlace(s, InsertionSorted(s, rank), rank)
    ensures Stable(s, InsertionSorted(s, rank), rank)
  {
    if s != [] {
      var init, last := s[..|s| - 1], s[|s| - 1];
      InsertionSortedCorrect(init, rank);
      InsertKeepsSorted(InsertionSorted(init, rank), last, rank);
      InsertPermutes(InsertionSorted(init, rank), last, rank);
      assert s == init + [last];
      forall k ensures WithKey(s, rank, k) == WithKey(InsertionSorted(s, rank), rank, k) {
        InsertKeepsGroups(InsertionSorted(init, rank), last, rank, k);
        WithKeyAppend(init, [last], rank, k);
        WithKeySingle(last, rank, k);
      }
    }
  }

  /**
   * The array during the inner loop of `sort` at position `i`, started from
   * `s`: everything above `j + 1` has moved up by one, and `j + 1` is the
   * hole left for `key`.
   */
  function Shifted<T>(s: seq<T>, i: nat, j: int): (r: seq<T>)
    requires -1 <= j < i < |s|
    ensures |r| == |s|
  {
    s[..j + 1] + [s[j + 1]] + s[j + 1..i] + s[i + 1..]
  }

  lemma ShiftStart<T>(s: seq<T>, i: nat)
    requires i < |s|
    ensures Shifted(s, i, i - 1) == s
  {
    assert s == s[..i] + [s[i]] + s[i + 1..];
  }

  /** Moving `s[j]` into the hole at `j + 1` opens a hole at `j`. */
  lemma ShiftStep<T>(s: seq<T>, i: nat, j: nat)
    requires j < i < |s|
    ensures Shifted(s, i, j)[j] == s[j]
    ensures Shifted(s, i, j)[j + 1 := s[j]] == Shifted(s, i, j - 1)
  {
    var c, d := Shifted(s, i, j)[j + 1 := s[j]], Shifted(s, i, j - 1);
    forall t | 0 <= t < |c| ensures c[t] == d[t] {
      if t < j { } else if t == j || t == j + 1 { } else if t <= i { } else { }
    }
  }

  /** The inner loop's step: `key` moves past `s[j]`, which is ranked above it. */
  lemma InsertPasses<T>(s: seq<T>, i: nat, j: nat, key: T, rank: T -> real)
    requires j < i <= |s| && rank(s[j]) > rank(key)
    ensures Insert(s[..j + 1], key, rank) + s[j + 1..i] == Insert(s[..j], key, rank) + s[j..i]
  {
    assert s[..j + 1][..j] == s[..j];
    assert s[j..i] == [s[j]] + s[j + 1..i];
  }

  /** The inner loop's exit: `key` drops into the hole at `j + 1`. */
  lemma InsertStops<T>(s: seq<T>, i: nat, j: int, key: T, rank: T -> real)
    requires -1 <= j < i < |s| && (j >= 0 ==> rank(s[j]) <= rank(key))
    requires Insert(s[..i], key, rank) == Insert(s[..j + 1], key, rank) + s[j + 1..i]
    ensures Shifted(s, i, j)[j + 1 := key] == Insert(s[..i], key, rank) + s[i + 1..]
  {
    assert Insert(s[..j + 1], key, rank) == s[..j + 1] + [key];
    var c, d := Shifted(s, i, j)[j + 1 := key], Insert(s[..i], key, rank) + s[i + 1..];
    assert d == s[..j + 1] + [key] + s[j + 1..i] + s[i + 1..];
    forall t | 0 <= t < |c| ensures c[t] == d[t] {
      if t < j + 1 { } else if t == j + 1 { } else if t <= i { } else { }
    }
  }

  /**
   * One outer iteration of `sort` at position `i`: `key := list[i]` is
   * shifted left past the greater elements of the sorted prefix `list[..i]`.
   */
  method InsertKey<T>(list: array<T>, i: nat, rank: T -> real)
    requires 1 <= i < list.Length
    modifies list
    ensures list[..] == Insert(old(list[..i]), old(list[i]), rank) + old(list[i + 1..])
  {
    ghost var s := list[..];
    var key := list[i];
    var j := i - 1;
    ShiftStart(s, i);
    while j >= 0 && rank(list[j]) > rank(key)
      invariant -1 <= j <= i - 1
      invariant list[..] == Shifted(s, i, j)
      invariant Insert(s[..i], key, rank) == Insert(s[..j + 1], key, rank) + s[j + 1..i]
      decreases j + 1
    {
      ShiftStep(s, i, j);
      InsertPasses(s, i, j, key, rank);
      list[j + 1] := list[j];
      j := j - 1;
    }
    InsertStops(s, i, j, key, rank);
    list[j + 1] := key;
  }

  /** `InsertionSortStrategy.sort`: sorts `list` in place. */
  method Sort<T>(list: array<T>, rank: T -> real)
    modifies list
    ensures list[..] == InsertionSorted(old(list[..]), rank)
    ensures SortsInPlace(old(list[..]), list[..], rank) && Stable(old(list[..]), list[..], rank)
    ensures list.Length <= 1 ==> list[..] == old(list[..])
  {
    ghost var s0 := list[..];
    var i := 1;
    while i < list.Length
      invariant 1 <= i && (i <= list.Length || list.Length == 0)
      invariant list.Length == 0 || list[..] == InsertionSorted(s0[..i], rank) + s0[i..]
    {
      SortStep(s0, list[..], i, rank);
      InsertKey(list, i, rank);
      i := i + 1;
    }
    assert list.Length > 0 ==> s0[..i] == s0 && s0[i..] == [];
    InsertionSortedCorrect(s0, rank);
  }

  /** The array after outer iteration `i` in terms of the input `s0`. */
  lemma SortStep<T>(s0: seq<T>, cur: seq<T>, i: nat, rank: T -> real)
    requires 1 <= i < |s0| && cur == InsertionSorted(s0[..i], rank) + s0[i..]
    ensures cur[..i] == InsertionSorted(s0[..i], rank) && cur[i] == s0[i] && cur[i + 1..] == s0[i + 1..]
    ensures Insert(cur[..i], cur[i], rank) + cur[i + 1..] == InsertionSorted(s0[..i + 1], rank) + s0[i + 1..]
  {
    assert s0[..i + 1][..i] == s0[..i];
  }
}
