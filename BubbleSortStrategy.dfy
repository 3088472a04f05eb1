/**
 * Bubble sort with a swap flag: passes over the whole list compare each
 * pair of neighbours and swap them when the first is ranked above the
 * second; passes repeat until one makes no swap.
 */
module BubbleSortStrategy {
  import opened SortStrategy

  /**
   * Every pair of positions whose right end is at or beyond `b` is in
   * order: the part from `b` is sorted and nothing before it is ranked
   * above it. After `p` passes this holds with `b == |s| - p`.
   */
  ghost predicate SettledFrom<T>(s: seq<T>, b: int, rank: T -> real)
  {
    forall x, y :: 0 <= x < y < |s| && b <= y ==> rank(s[x]) <= rank(s[y])
  }

  /** `s` with the neighbours at `i` and `i + 1` exchanged. */
  function SwapNeighbours<T>(s: seq<T>, i: nat): (r: seq<T>)
    requires i + 1 < |s|
    ensures |r| == |s| && r[i] == s[i + 1] && r[i + 1] == s[i]
    ensures forall k :: 0 <= k < |s| && k != i && k != i + 1 ==> r[k] == s[k]
  {
    s[..i] + [s[i + 1], s[i]] + s[i + 2..]
  }

  lemma SwapNeighboursPermutes<T>(s: seq<T>, i: nat)
    requires i + 1 < |s|
    ensures multiset(SwapNeighbours(s, i)) == multiset(s)
  {
    assert s == s[..i] + [s[i], s[i + 1]] + s[i + 2..];
  }

  /** Neighbours in order everywhere means the whole sequence is in order. */
  lemma {:induction false} NeighboursOrderedSorted<T>(s: seq<T>, rank: T -> real)
    requires forall k :: 0 <= k < |s| - 1 ==> rank(s[k]) <= rank(s[k + 1])
    ensures Sorted(s, rank)
  {
    forall i, j | 0 <= i < j < |s| ensures rank(s[i]) <= rank(s[j]) {
      OrderedUpTo(s, rank, i, j);
    }
  }

  lemma {:induction false} OrderedUpTo<T>(s: seq<T>, rank: T -> real, i: nat, j: nat)
    requires forall k :: 0 <= k < |s| - 1 ==> rank(s[k]) <= rank(s[k + 1])
    requires i <= j < |s|
    ensures rank(s[i]) <= rank(s[j])
    decreases j - i
  {
    if i < j {
      OrderedUpTo(s, rank, i, j - 1);
    }
  }

  /** A swap inside the unsettled part leaves the settled part settled. */
  lemma SwapKeepsSettled<T>(s: seq<T>, i: nat, b: int, rank: T -> real)
    requires i + 1 < |s| && i + 1 < b && SettledFrom(s, b, rank)
    ensures SettledFrom(SwapNeighbours(s, i), b, rank)
  {
    var r := SwapNeighbours(s, i);
    forall x, y | 0 <= x < y < |r| && b <= y ensures rank(r[x]) <= rank(r[y]) {
      if x == i {
        assert rank(s[i + 1]) <= rank(s[y]);
      } else if x == i + 1 {
        assert rank(s[i]) <= rank(s[y]);
      }
    }
  }

  /**
   * What holds after the pass has compared the pairs before position `i`:
   * the elements are a stable rearrangement of those at the start; with no
   * swap yet nothing moved and the pairs seen were in order; `s[i]` is
   * ranked highest so far; and the settled part has not shrunk, growing by
   * one once the pass reaches it.
   */
  ghost predicate PassInvariant<T>(start: seq<T>, s: seq<T>, i: nat, b: int, swapped: bool, rank: T -> real)
  {
    && |s| == |start| && (i < |s| || i == 0)
    && multiset(s) == multiset(start) && Stable(start, s, rank)
    && (!swapped ==> s == start)
    && (!swapped ==> forall k :: 0 <= k < i ==> rank(s[k]) <= rank(s[k + 1]))
    && (forall x :: 0 <= x < i ==> rank(s[x]) <= rank(s[i]))
    && SettledFrom(s, b, rank)
    && (i + 1 >= b ==> SettledFrom(s, b - 1, rank))
    && (Sorted(start, rank) ==> !swapped)
  }

  /** Comparing an ordered pair changes nothing and keeps the invariant. */
  lemma PassStepInOrder<T>(start: seq<T>, s: seq<T>, i: nat, b: int, swapped: bool, rank: T -> real)
    requires PassInvariant(start, s, i, b, swapped, rank) && i + 1 < |s|
    requires rank(s[i]) <= rank(s[i + 1])
    ensures PassInvariant(start, s, i + 1, b, swapped, rank)
  {
    if i + 2 >= b {
      forall x, y | 0 <= x < y < |s| && b - 1 <= y ensures rank(s[x]) <= rank(s[y]) {
        if y < b {
          assert y <= i + 1;
          if y == i + 1 {
            if x < i { assert rank(s[x]) <= rank(s[i]); }
          } else {
            assert i + 1 >= b;
          }
        }
      }
    }
  }

  /** Swapping an out-of-order pair keeps the invariant and sets the flag. */
  lemma PassStepSwap<T>(start: seq<T>, s: seq<T>, i: nat, b: int, swapped: bool, rank: T -> real)
    requires PassInvariant(start, s, i, b, swapped, rank) && i + 1 < |s|
    requires rank(s[i]) > rank(s[i + 1])
    ensures PassInvariant(start, SwapNeighbours(s, i), i + 1, b, true, rank)
  {
    var r := SwapNeighbours(s, i);
    assert i + 1 < b;
    SwapNeighboursStable(s, i, rank);
    SwapNeighboursPermutes(s, i);
    SwapKeepsSettled(s, i, b, rank);
    forall x | 0 <= x < i + 1 ensures rank(r[x]) <= rank(r[i + 1]) {
      if x < i { assert rank(s[x]) <= rank(s[i]); }
    }
    assert !Sorted(start, rank) by {
      assert !swapped ==> s == start;
      if !swapped { assert rank(start[i]) > rank(start[i + 1]); }
    }
    if i + 2 >= b {
      forall x, y | 0 <= x < y < |r| && b - 1 <= y ensures rank(r[x]) <= rank(r[y]) {
        if y < b {
          assert y == i + 1;
        }
      }
    }
  }

  /** Before the first comparison. */
  lemma PassStart<T>(start: seq<T>, b: int, rank: T -> real)
    requires SettledFrom(start, b, rank)
    ensures PassInvariant(start, start, 0, b, false, rank)
  {
    if 1 >= b {
      forall x, y | 0 <= x < y < |start| && b - 1 <= y ensures rank(start[x]) <= rank(start[y]) {
        assert b <= y;
      }
    }
  }

  /** When every pair has been compared, the pass has done its work. */
  lemma PassEnd<T>(start: seq<T>, s: seq<T>, i: nat, b: int, swapped: bool, rank: T -> real)
    requires PassInvariant(start, s, i, b, swapped, rank) && i + 1 >= |s|
    ensures multiset(s) == multiset(start) && Stable(start, s, rank)
    ensures SettledFrom(s, b - 1, rank)
    ensures !swapped ==> s == start && Sorted(s, rank)
    ensures Sorted(start, rank) ==> !swapped
  {
    if !swapped {
      NeighboursOrderedSorted(s, rank);
    }
  }

  /**
   * One comparison of a pass: the pair at `i` and `i + 1` is swapped, and
   * the flag raised, exactly when the first is ranked above the second.
   */
  function Step<T>(s: seq<T>, i: nat, swapped: bool, rank: T -> real): (r: (seq<T>, bool))
    requires i + 1 < |s|
  {
    if rank(s[i]) > rank(s[i + 1]) then (SwapNeighbours(s, i), true) else (s, swapped)
  }

  /**
   * The pass from position `i` on: the comparisons at `i`, `i + 1`, …,
   * `|s| - 2` in that order, with the flag carried along.
   */
  function BubblePass<T>(s: seq<T>, i: nat, swapped: bool, rank: T -> real): (r: (seq<T>, bool))
    ensures |r.0| == |s|
    decreases |s| - i
  {
    if i + 1 >= |s| then (s, swapped)
    else
      var st := Step(s, i, swapped, rank);
      BubblePass(st.0, i + 1, st.1, rank)
  }

  /** On a sorted list a pass compares every pair, swaps none and leaves the flag down. */
  lemma {:induction false} BubblePassOnSorted<T>(s: seq<T>, i: nat, rank: T -> real)
    requires Sorted(s, rank)
    ensures BubblePass(s, i, false, rank) == (s, false)
    decreases |s| - i
  {
    if i + 1 < |s| {
      assert rank(s[i]) <= rank(s[i + 1]);
      assert Step(s, i, false, rank) == (s, false);
      BubblePassOnSorted(s, i + 1, rank);
    }
  }

  /** Once a swap has happened the flag stays raised to the end of the pass. */
  lemma {:induction false} BubblePassKeepsFlag<T>(s: seq<T>, i: nat, rank: T -> real)
    ensures BubblePass(s, i, true, rank).1
    decreases |s| - i
  {
    if i + 1 < |s| {
      var st := Step(s, i, true, rank);
      assert st.1;
      BubblePassKeepsFlag(st.0, i + 1, rank);
    }
  }

  /**
   * Compares the pair at `i` and `i + 1`, swapping it when out of order;
   * `start` and `b` are the pass's start and settled bound, for the proof.
   */
  method Compare<T>(list: array<T>, i: nat, swapped: bool, ghost start: seq<T>, ghost b: int, rank: T -> real)
    returns (swappedNow: bool)
    requires PassInvariant(start, list[..], i, b, swapped, rank) && i + 1 < list.Length
    modifies list
    ensures (list[..], swappedNow) == Step(old(list[..]), i, swapped, rank)
    ensures PassInvariant(start, list[..], i + 1, b, swappedNow, rank)
  {
    ghost var before := list[..];
    if rank(list[i]) > rank(list[i + 1]) {
      PassStepSwap(start, before, i, b, swapped, rank);
      list[i], list[i + 1] := list[i + 1], list[i];
      assert list[..] == SwapNeighbours(before, i);
      swappedNow := true;
    } else {
      PassStepInOrder(start, before, i, b, swapped, rank);
      swappedNow := swapped;
    }
  }

  /**
   * One pass: every neighbouring pair is compared, left to right, and
   * swapped when out of order; `swapped` records whether any swap happened,
   * which is exactly when the list was not sorted and exactly when the pass
   * changed it. `b` marks where the
   * settled part began before the pass.
   */
  method Pass<T>(list: array<T>, rank: T -> real, ghost b: int) returns (swapped: bool)
    requires SettledFrom(list[..], b, rank)
    modifies list
    ensures (list[..], swapped) == BubblePass(old(list[..]), 0, false, rank)
    ensures multiset(list[..]) == multiset(old(list[..])) && Stable(old(list[..]), list[..], rank)
    ensures SettledFrom(list[..], b - 1, rank)
    ensures swapped == !Sorted(old(list[..]), rank)
    ensures swapped == (list[..] != old(list[..]))
    ensures !swapped ==> Sorted(list[..], rank)
  {
    ghost var start := list[..];
    var n := list.Length;
    swapped := false;
    var i := 0;
    ghost var moved := 0;
    PassStart(start, b, rank);
    while i + 1 < n
      invariant PassInvariant(start, list[..], i, b, swapped, rank)
      invariant BubblePass(list[..], i, swapped, rank) == BubblePass(start, 0, false, rank)
      invariant swapped ==> moved < i && list[moved] != start[moved]
      decreases n - i
    {
      ghost var before := list[..];
      var swappedBefore := swapped;
      swapped := Compare(list, i, swapped, start, b, rank);
      if swapped && !swappedBefore {
        assert list[i] == before[i + 1] && rank(before[i]) > rank(before[i + 1]);
        moved := i;
      }
      i := i + 1;
    }
    PassEnd(start, list[..], i, b, swapped, rank);
    assert swapped ==> list[..][moved] != start[moved];
  }

  /** `BubbleSortStrategy.sort`: sorts `list` in place. */
  method Sort<T>(list: array<T>, rank: T -> real)
    modifies list
    ensures SortsInPlace(old(list[..]), list[..], rank) && Stable(old(list[..]), list[..], rank)
    ensures Sorted(old(list[..]), rank) ==> list[..] == old(list[..])
  {
    ghost var s0 := list[..];
    var n := list.Length;
    var swapped := true;
    ghost var passes := 0;
    while swapped
      invariant multiset(list[..]) == multiset(s0) && Stable(s0, list[..], rank)
      invariant !swapped ==> Sorted(list[..], rank)
      invariant swapped ==> passes <= n
      invariant SettledFrom(list[..], n - passes, rank)
      invariant Sorted(s0, rank) ==> list[..] == s0
      decreases n + 1 - passes
    {
      assert n - passes <= 1 ==> Sorted(list[..], rank);
      swapped := Pass(list, rank, n - passes);
      passes := passes + 1;
    }
  }
}
