/**
 * The contract shared by the three sorting strategies: "sorts the given
 * list in place". Elements are compared through a real-valued `rank`, so
 * `x.compareTo(y) > 0` is `rank(x) > rank(y)`.
 */
module SortStrategy {

  /** Non-decreasing under `rank`. */
  predicate Sorted<T>(s: seq<T>, rank: T -> real)
  {
    forall i, j :: 0 <= i < j < |s| ==> rank(s[i]) <= rank(s[j])
  }

  /** The elements of `s` whose rank is `k`, in the order they occur in `s`. */
  function WithKey<T>(s: seq<T>, rank: T -> real, k: real): (r: seq<T>)
    ensures |r| <= |s|
  {
    if s == [] then []
    else (if rank(s[0]) == k then [s[0]] else []) + WithKey(s[1..], rank, k)
  }

  /**
   * `t` keeps the relative order of every group of equally ranked
   * elements of `s`: the stability half of a stable sort.
   */
  ghost predicate Stable<T>(s: seq<T>, t: seq<T>, rank: T -> real)
  {
    forall k :: WithKey(s, rank, k) == WithKey(t, rank, k)
  }

  /** What every strategy promises: sorted, and a rearrangement of the input. */
  ghost predicate SortsInPlace<T>(before: seq<T>, after: seq<T>, rank: T -> real)
  {
    Sorted(after, rank) && multiset(after) == multiset(before)
  }

  lemma {:induction false} WithKeyAppend<T>(s: seq<T>, t: seq<T>, rank: T -> real, k: real)
    ensures WithKey(s + t, rank, k) == WithKey(s, rank, k) + WithKey(t, rank, k)
    decreases |s|
  {
    if s == [] {
      assert s + t == t;
    } else {
      assert (s + t)[1..] == s[1..] + t;
      WithKeyAppend(s[1..], t, rank, k);
      var c := if rank(s[0]) == k then [s[0]] else [];
      assert c + (WithKey(s[1..], rank, k) + WithKey(t, rank, k)) == c + WithKey(s[1..], rank, k) + WithKey(t, rank, k);
    }
  }

  lemma WithKeySingle<T>(x: T, rank: T -> real, k: real)
    ensures WithKey([x], rank, k) == if rank(x) == k then [x] else []
  {
    assert [x][1..] == [];
  }

  /** The group of `[x] + s`: `x` first if it belongs, then the group of `s`. */
  lemma WithKeyCons<T>(x: T, s: seq<T>, rank: T -> real, k: real)
    ensures WithKey([x] + s, rank, k) == (if rank(x) == k then [x] else []) + WithKey(s, rank, k)
  {
    assert ([x] + s)[1..] == s;
  }

  /** No element has rank `k`, so the group of rank `k` is empty. */
  lemma {:induction false} WithKeyAbsent<T>(s: seq<T>, rank: T -> real, k: real)
    requires forall i :: 0 <= i < |s| ==> rank(s[i]) != k
    ensures WithKey(s, rank, k) == []
  {
    if s != [] {
      WithKeyAbsent(s[1..], rank, k);
    }
  }

  /** Two elements of different rank can belong to the same group only one at a time. */
  lemma PairGroups<T>(x: T, y: T, rank: T -> real, k: real)
    requires rank(x) != rank(y)
    ensures WithKey([x, y], rank, k) == WithKey([y, x], rank, k)
  {
    assert [x, y][1..] == [y] && [y, x][1..] == [x];
    WithKeySingle(x, rank, k);
    WithKeySingle(y, rank, k);
  }

  /** Exchanging two neighbours of different rank keeps every group's order. */
  lemma SwapNeighboursStable<T>(s: seq<T>, i: nat, rank: T -> real)
    requires i + 1 < |s| && rank(s[i]) != rank(s[i + 1])
    ensures Stable(s, s[..i] + [s[i + 1], s[i]] + s[i + 2..], rank)
  {
    var u, x, y, v := s[..i], s[i], s[i + 1], s[i + 2..];
    assert s == u + [x, y] + v;
    forall k
      ensures WithKey(u + [x, y] + v, rank, k) == WithKey(u + [y, x] + v, rank, k)
    {
      calc {
        WithKey(u + [x, y] + v, rank, k);
        { WithKeyAppend(u + [x, y], v, rank, k); WithKeyAppend(u, [x, y], rank, k); }
        WithKey(u, rank, k) + WithKey([x, y], rank, k) + WithKey(v, rank, k);
        { PairGroups(x, y, rank, k); }
        WithKey(u, rank, k) + WithKey([y, x], rank, k) + WithKey(v, rank, k);
        { WithKeyAppend(u + [y, x], v, rank, k); WithKeyAppend(u, [y, x], rank, k); }
        WithKey(u + [y, x] + v, rank, k);
      }
    }
  }

  /** The rank under which real numbers are sorted by their own value. */
  function Identity(x: real): real
  {
    x
  }

  /** The first element of a sorted non-empty sequence of reals is its least element. */
  lemma SortedHeadIsLeast(s: seq<real>, x: real)
    requires Sorted(s, Identity) && x in multiset(s)
    ensures s[0] <= x
  {
    var i :| 0 <= i < |s| && s[i] == x;
    assert Identity(s[0]) <= Identity(s[i]) || i == 0;
  }

  lemma TailsSameMultiset<T>(s: seq<T>, t: seq<T>)
    requires s != [] && t != [] && s[0] == t[0] && multiset(s) == multiset(t)
    ensures multiset(s[1..]) == multiset(t[1..])
  {
    assert s == [s[0]] + s[1..] && t == [t[0]] + t[1..];
    assert multiset(s) == multiset{s[0]} + multiset(s[1..]);
    assert multiset(t) == multiset{t[0]} + multiset(t[1..]);
    forall x ensures multiset(s[1..])[x] == multiset(t[1..])[x] {
      assert multiset(s)[x] == multiset{s[0]}[x] + multiset(s[1..])[x];
      assert multiset(t)[x] == multiset{t[0]}[x] + multiset(t[1..])[x];
    }
  }

  lemma SortedTail<T>(s: seq<T>, rank: T -> real)
    requires s != [] && Sorted(s, rank)
    ensures Sorted(s[1..], rank)
  {
    forall i, j | 0 <= i < j < |s| - 1 ensures rank(s[1..][i]) <= rank(s[1..][j]) {
      assert s[1..][i] == s[i + 1] && s[1..][j] == s[j + 1];
    }
  }

  /**
   * Two sorted rearrangements of the same real numbers are equal, so
   * which strategy sorted the values cannot change what is read off them.
   */
  lemma {:induction false} SortedUnique(s: seq<real>, t: seq<real>)
    requires Sorted(s, Identity) && Sorted(t, Identity) && multiset(s) == multiset(t)
    ensures s == t
    decreases |s|
  {
    assert |multiset(t)| == |t| && |multiset(s)| == |s|;
    if s != [] {
      assert t[0] in multiset(t) && s[0] in multiset(s);
      SortedHeadIsLeast(s, t[0]);
      SortedHeadIsLeast(t, s[0]);
      TailsSameMultiset(s, t);
      SortedTail(s, Identity);
      SortedTail(t, Identity);
      SortedUnique(s[1..], t[1..]);
      assert s == [s[0]] + s[1..] && t == [t[0]] + t[1..];
    }
  }
}
