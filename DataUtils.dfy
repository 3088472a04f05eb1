/**
 * `DataUtils`: the statistics and the partitioner over a table of string
 * cells whose first row is the header. Cells are read as numbers through
 * `parse` (Java's `Double.parseDouble`); rows 1.. are the data points.
 */
module DataUtils {
  import opened Wrappers
  import opened SortStrategy
  import InsertionSortStrategy

  type Row = seq<string>
  type Table = seq<Row>

  /** Every non-header row has a cell in column `col`. */
  predicate HasColumn(data: Table, col: nat)
  {
    forall i | 1 <= i < |data| :: col < |data[i]|
  }

  /** The values of column `col` in rows 1.., in row order; the header is skipped. */
  function Column(data: Table, col: nat, parse: string -> real): (xs: seq<real>)
    requires HasColumn(data, col)
    ensures |xs| == if |data| == 0 then 0 else |data| - 1
    ensures forall i | 0 <= i < |xs| :: xs[i] == parse(data[i + 1][col])
    decreases |data|
  {
    if |data| <= 1 then []
    else Column(data[..|data| - 1], col, parse) + [parse(data[|data| - 1][col])]
  }

  /** The column never depends on the header row. */
  lemma ColumnIgnoresHeader(data: Table, header: Row, col: nat, parse: string -> real)
    requires |data| >= 1 && HasColumn(data, col)
    ensures HasColumn(data[0 := header], col)
    ensures Column(data[0 := header], col, parse) == Column(data, col, parse)
  {
  }

  function Sum(xs: seq<real>): real
  {
    if xs == [] then 0.0 else Sum(xs[..|xs| - 1]) + xs[|xs| - 1]
  }

  /** The sum of the pointwise products. */
  function SumProd(xs: seq<real>, ys: seq<real>): real
    requires |xs| == |ys|
  {
    if xs == [] then 0.0 else SumProd(xs[..|xs| - 1], ys[..|ys| - 1]) + xs[|xs| - 1] * ys[|ys| - 1]
  }

  lemma {:induction false} SumProdCommutes(xs: seq<real>, ys: seq<real>)
    requires |xs| == |ys|
    ensures SumProd(xs, ys) == SumProd(ys, xs)
  {
    if xs != [] {
      SumProdCommutes(xs[..|xs| - 1], ys[..|ys| - 1]);
    }
  }

  lemma {:induction false} SumBounds(xs: seq<real>, lo: real, hi: real)
    requires forall i | 0 <= i < |xs| :: lo <= xs[i] <= hi
    ensures |xs| as real * lo <= Sum(xs) <= |xs| as real * hi
  {
    if xs != [] {
      SumBounds(xs[..|xs| - 1], lo, hi);
    }
  }

  /**
   * A Pearson coefficient, or `Degenerate` when the denominator is zero
   * (a constant column), where the source's division yields NaN or an
   * infinity.
   */
  datatype Correlation = Coefficient(value: real) | Degenerate

  /**
   * The sum formula on two columns of `n` values, with the square root
   * supplied as `sqrt`.
   */
  function Pearson(n: real, xs: seq<real>, ys: seq<real>, sqrt: real -> real): Correlation
    requires |xs| == |ys|
  {
    FromSums(n, Sum(xs), Sum(ys), SumProd(xs, ys), SumProd(xs, xs), SumProd(ys, ys), sqrt)
  }

  /** The coefficient from the five sums: `(n·Σxy − Σx·Σy) / sqrt((n·Σx² − (Σx)²)·(n·Σy² − (Σy)²))`. */
  function FromSums(n: real, sumX: real, sumY: real, sumXY: real, sumX2: real, sumY2: real, sqrt: real -> real): Correlation
  {
    var numerator := n * sumXY - sumX * sumY;
    var denominator := sqrt((n * sumX2 - sumX * sumX) * (n * sumY2 - sumY * sumY));
    if denominator == 0.0 then Degenerate else Coefficient(numerator / denominator)
  }

  /**
   * `calculateCorrelation` as a value: the sum formula over the non-header
   * rows, with `n = |data| - 1`.
   */
  function CorrelationOf(data: Table, x: nat, y: nat, parse: string -> real, sqrt: real -> real): Correlation
    requires HasColumn(data, x) && HasColumn(data, y)
  {
    Pearson((|data| - 1) as real, Column(data, x, parse), Column(data, y, parse), sqrt)
  }

  /** Correlation is symmetric in its two columns. */
  lemma CorrelationSymmetric(data: Table, x: nat, y: nat, parse: string -> real, sqrt: real -> real)
    requires HasColumn(data, x) && HasColumn(data, y)
    ensures CorrelationOf(data, x, y, parse, sqrt) == CorrelationOf(data, y, x, parse, sqrt)
  {
    var xs, ys := Column(data, x, parse), Column(data, y, parse);
    var n := (|data| - 1) as real;
    SumProdCommutes(xs, ys);
    var a, b := n * SumProd(xs, xs) - Sum(xs) * Sum(xs), n * SumProd(ys, ys) - Sum(ys) * Sum(ys);
    assert a * b == b * a;
  }

  /** The header row never enters the sums. */
  lemma CorrelationIgnoresHeader(data: Table, header: Row, x: nat, y: nat, parse: string -> real, sqrt: real -> real)
    requires |data| >= 1 && HasColumn(data, x) && HasColumn(data, y)
    ensures HasColumn(data[0 := header], x) && HasColumn(data[0 := header], y)
    ensures CorrelationOf(data[0 := header], x, y, parse, sqrt) == CorrelationOf(data, x, y, parse, sqrt)
  {
    ColumnIgnoresHeader(data, header, x, parse);
    ColumnIgnoresHeader(data, header, y, parse);
  }

  /** The running sums after rows 1..i-1, as updated by the source's loop. */
  lemma SumStep(xs: seq<real>, i: nat)
    requires i < |xs|
    ensures Sum(xs[..i + 1]) == Sum(xs[..i]) + xs[i]
  {
    assert xs[..i + 1][..i] == xs[..i];
  }

  lemma SumProdStep(xs: seq<real>, ys: seq<real>, i: nat, x: real, y: real)
    requires |xs| == |ys| && i < |xs| && xs[i] == x && ys[i] == y
    ensures SumProd(xs[..i + 1], ys[..i + 1]) == SumProd(xs[..i], ys[..i]) + x * y
  {
    assert xs[..i + 1][..i] == xs[..i] && ys[..i + 1][..i] == ys[..i];
  }

  /** `calculateCorrelation(data, featureIndex, targetIndex)`: five running sums over rows 1..n, then the formula. */
  method CalculateCorrelation(data: Table, featureIndex: nat, targetIndex: nat, parse: string -> real, sqrt: real -> real)
    returns (c: Correlation)
    requires HasColumn(data, featureIndex) && HasColumn(data, targetIndex)
    ensures c == CorrelationOf(data, featureIndex, targetIndex, parse, sqrt)
  {
    var n := |data| - 1;
    var sumX, sumY, sumXY, sumX2, sumY2 := RunningSums(data, featureIndex, targetIndex, parse);
    c := FromSums(n as real, sumX, sumY, sumXY, sumX2, sumY2, sqrt);
  }

  /** The loop of `calculateCorrelation`: Σx, Σy, Σxy, Σx² and Σy² over rows 1..n. */
  method RunningSums(data: Table, featureIndex: nat, targetIndex: nat, parse: string -> real)
    returns (sumX: real, sumY: real, sumXY: real, sumX2: real, sumY2: real)
    requires HasColumn(data, featureIndex) && HasColumn(data, targetIndex)
    ensures var xs, ys := Column(data, featureIndex, parse), Column(data, targetIndex, parse);
      && sumX == Sum(xs) && sumY == Sum(ys) && sumXY == SumProd(xs, ys)
      && sumX2 == SumProd(xs, xs) && sumY2 == SumProd(ys, ys)
  {
    ghost var xs, ys := Column(data, featureIndex, parse), Column(data, targetIndex, parse);
    sumX, sumY, sumXY, sumX2, sumY2 := 0.0, 0.0, 0.0, 0.0, 0.0;
    var n := |data| - 1;
    var i := 1;
    while i <= n
      invariant 1 <= i && (i <= |data| || i == 1)
      invariant |xs| == |ys| == if |data| == 0 then 0 else |data| - 1
      invariant sumX == Sum(xs[..i - 1]) && sumY == Sum(ys[..i - 1])
      invariant sumXY == SumProd(xs[..i - 1], ys[..i - 1])
      invariant sumX2 == SumProd(xs[..i - 1], xs[..i - 1]) && sumY2 == SumProd(ys[..i - 1], ys[..i - 1])
    {
      var x := parse(data[i][featureIndex]);
      var y := parse(data[i][targetIndex]);
      assert x == xs[i - 1] && y == ys[i - 1];
      SumStep(xs, i - 1);
      SumStep(ys, i - 1);
      SumProdStep(xs, ys, i - 1, x, y);
      SumProdStep(xs, xs, i - 1, x, x);
      SumProdStep(ys, ys, i - 1, y, y);
      sumX := sumX + x;
      sumY := sumY + y;
      sumXY := sumXY + x * y;
      sumX2 := sumX2 + x * x;
      sumY2 := sumY2 + y * y;
      i := i + 1;
    }
    assert xs[..i - 1] == xs && ys[..i - 1] == ys;
  }

  /** The documented mean of column `col` over the non-header rows; none without rows. */
  function MeanOf(data: Table, col: nat, parse: string -> real): Option<real>
    requires HasColumn(data, col)
  {
    if |data| <= 1 then None else Some(Sum(Column(data, col, parse)) / (|data| - 1) as real)
  }

  /** The mean lies within any bounds that hold for every value of the column. */
  lemma MeanWithinBounds(data: Table, col: nat, parse: string -> real, lo: real, hi: real)
    requires HasColumn(data, col) && |data| >= 2
    requires forall i | 1 <= i < |data| :: lo <= parse(data[i][col]) <= hi
    ensures MeanOf(data, col, parse).Some?
    ensures lo <= MeanOf(data, col, parse).value <= hi
  {
    var xs := Column(data, col, parse);
    assert forall i | 0 <= i < |xs| :: lo <= xs[i] <= hi by {
      forall i | 0 <= i < |xs| ensures lo <= xs[i] <= hi {
        assert xs[i] == parse(data[i + 1][col]);
      }
    }
    AverageBetween(xs, lo, hi);
    assert |xs| as real == (|data| - 1) as real;
  }

  /** The average of bounded values is bounded the same way. */
  lemma AverageBetween(xs: seq<real>, lo: real, hi: real)
    requires |xs| >= 1
    requires forall i | 0 <= i < |xs| :: lo <= xs[i] <= hi
    ensures lo <= Sum(xs) / |xs| as real <= hi
  {
    SumBounds(xs, lo, hi);
    QuotientBetween(Sum(xs), |xs| as real, lo, hi);
  }

  /** Dividing by a positive count keeps a total of `n` bounded values between the bounds. */
  lemma QuotientBetween(s: real, n: real, lo: real, hi: real)
    requires n > 0.0 && n * lo <= s <= n * hi
    ensures lo <= s / n <= hi
  {
    assert s / n * n == s;
  }

  /** `calculateMean(data, targetIndex)`: the running sum over rows 1.., divided by their count. */
  method CalculateMean(data: Table, targetIndex: nat, parse: string -> real) returns (mean: Option<real>)
    requires HasColumn(data, targetIndex)
    ensures mean == MeanOf(data, targetIndex, parse)
  {
    ghost var xs := Column(data, targetIndex, parse);
    var sum := 0.0;
    var i := 1;
    while i < |data|
      invariant 1 <= i && (i <= |data| || i == 1)
      invariant |xs| == if |data| == 0 then 0 else |data| - 1
      invariant sum == Sum(xs[..i - 1])
    {
      SumStep(xs, i - 1);
      sum := sum + parse(data[i][targetIndex]);
      i := i + 1;
    }
    if |data| <= 1 {
      mean := None;
    } else {
      assert xs[..i - 1] == xs;
      mean := Some(sum / (|data| - 1) as real);
    }
  }

  /**
   * The median read off a sorted sequence: the middle element for an odd
   * count, the average of the two middle elements for an even count.
   */
  function MedianOfSorted(t: seq<real>): real
    requires |t| >= 1
  {
    if |t| % 2 == 1 then t[|t| / 2] else (t[|t| / 2 - 1] + t[|t| / 2]) / 2.0
  }

  /** The median of `xs`: its values sorted from least to greatest, then read in the middle. */
  function Median(xs: seq<real>): real
    requires |xs| >= 1
  {
    MedianOfSorted(InsertionSortStrategy.InsertionSorted(xs, Identity))
  }

  /**
   * Any sorted rearrangement of the values gives the same median, so it
   * does not matter which of the sorting strategies (or
   * `Collections.sort`) put them in order.
   */
  lemma MedianOfAnySort(xs: seq<real>, t: seq<real>)
    requires |xs| >= 1 && Sorted(t, Identity) && multiset(t) == multiset(xs)
    ensures |t| == |xs| && Median(xs) == MedianOfSorted(t)
    ensures Median(xs) == if |t| % 2 == 1 then t[|t| / 2] else (t[|t| / 2 - 1] + t[|t| / 2]) / 2.0
  {
    InsertionSortStrategy.InsertionSortedCorrect(xs, Identity);
    SortedUnique(InsertionSortStrategy.InsertionSorted(xs, Identity), t);
  }

  /** The median depends only on the multiset of values, not on row order. */
  lemma MedianIgnoresOrder(xs: seq<real>, ys: seq<real>)
    requires |xs| >= 1 && multiset(xs) == multiset(ys)
    ensures |ys| >= 1 && Median(xs) == Median(ys)
  {
    assert |multiset(xs)| == |xs| && |multiset(ys)| == |ys|;
    InsertionSortStrategy.InsertionSortedCorrect(xs, Identity);
    MedianOfAnySort(ys, InsertionSortStrategy.InsertionSorted(xs, Identity));
  }

  /** The median lies between the smallest and the largest value. */
  lemma MedianWithinRange(xs: seq<real>)
    requires |xs| >= 1
    ensures exists i | 0 <= i < |xs| :: xs[i] <= Median(xs)
    ensures exists j | 0 <= j < |xs| :: Median(xs) <= xs[j]
  {
    var t := InsertionSortStrategy.InsertionSorted(xs, Identity);
    InsertionSortStrategy.InsertionSortedCorrect(xs, Identity);
    var h := |t| / 2;
    var lo, hi := if |t| % 2 == 1 then h else h - 1, h;
    assert Identity(t[lo]) <= Identity(t[hi]) || lo == hi;
    assert t[lo] <= Median(xs) <= t[hi];
    assert t[lo] in multiset(xs) && t[hi] in multiset(xs);
    var i :| 0 <= i < |xs| && xs[i] == t[lo];
    var j :| 0 <= j < |xs| && xs[j] == t[hi];
  }

  /**
   * `calculateMedian(data, featureIndex)`: collects the column's values
   * from rows 1.., sorts them in place with the insertion sort strategy
   * and reads the median off the sorted list.
   */
  method CalculateMedian(data: Table, featureIndex: nat, parse: string -> real) returns (median: real)
    requires |data| >= 2 && HasColumn(data, featureIndex)
    ensures median == Median(Column(data, featureIndex, parse))
  {
    var values := CollectValues(data, featureIndex, parse);
    var sorted := new real[|values|](k requires 0 <= k < |values| => values[k]);
    assert sorted[..] == values;
    SortValues(sorted);
    assert sorted[..] == InsertionSortStrategy.InsertionSorted(values, Identity);
    median := MiddleOf(sorted);
  }

  /** The `Collections.sort` call of `calculateMedian`, made with the insertion sort strategy. */
  method SortValues(sorted: array<real>)
    modifies sorted
    ensures sorted[..] == InsertionSortStrategy.InsertionSorted(old(sorted[..]), Identity)
  {
    InsertionSortStrategy.Sort(sorted, Identity);
  }

  /** The reading step of `calculateMedian` on the sorted values. */
  method MiddleOf(sorted: array<real>) returns (median: real)
    requires sorted.Length >= 1
    ensures median == MedianOfSorted(sorted[..])
  {
    var k := sorted.Length;
    if k % 2 == 1 {
      median := sorted[k / 2];
    } else {
      median := (sorted[k / 2 - 1] + sorted[k / 2]) / 2.0;
    }
  }

  /** The fill loop of `calculateMedian`: the column's values from rows 1.., in row order. */
  method CollectValues(data: Table, featureIndex: nat, parse: string -> real) returns (values: seq<real>)
    requires HasColumn(data, featureIndex)
    ensures values == Column(data, featureIndex, parse)
  {
    ghost var xs := Column(data, featureIndex, parse);
    values := [];
    var i := 1;
    while i < |data|
      invariant 1 <= i && (i <= |data| || i == 1) && values == xs[..i - 1]
    {
      assert xs[..i] == xs[..i - 1] + [xs[i - 1]];
      values := values + [parse(data[i][featureIndex])];
      i := i + 1;
    }
    assert values == xs;
  }

  /** `row` falls on the requested side: `<= threshold` on the left, `> threshold` on the right. */
  predicate OnSide(row: Row, col: nat, threshold: real, isLeft: bool, parse: string -> real)
  {
    col < |row| && if isLeft then parse(row[col]) <= threshold else parse(row[col]) > threshold
  }

  /** The non-header rows on the requested side, in their original order. */
  function KeptRows(data: Table, col: nat, threshold: real, isLeft: bool, parse: string -> real): (kept: Table)
    ensures |kept| <= if |data| == 0 then 0 else |data| - 1
    decreases |data|
  {
    if |data| <= 1 then []
    else KeptRows(data[..|data| - 1], col, threshold, isLeft, parse)
         + (if OnSide(data[|data| - 1], col, threshold, isLeft, parse) then [data[|data| - 1]] else [])
  }

  /** `filterData` as a value: the header row, then the kept rows. */
  function Filtered(data: Table, col: nat, threshold: real, isLeft: bool, parse: string -> real): (out: Table)
    requires |data| >= 1
    ensures 1 <= |out| <= |data| && out[0] == data[0]
  {
    [data[0]] + KeptRows(data, col, threshold, isLeft, parse)
  }

  /**
   * The positions of the kept rows: increasing, each a non-header row on
   * the requested side, and every such row included.
   */
  function KeptIndices(data: Table, col: nat, threshold: real, isLeft: bool, parse: string -> real): (ids: seq<nat>)
    ensures forall k | 0 <= k < |ids| :: 1 <= ids[k] < |data| && OnSide(data[ids[k]], col, threshold, isLeft, parse)
    ensures forall k, m | 0 <= k < m < |ids| :: ids[k] < ids[m]
    ensures forall i | 1 <= i < |data| && OnSide(data[i], col, threshold, isLeft, parse) :: i in ids
    decreases |data|
  {
    if |data| <= 1 then []
    else
      var ids := KeptIndices(data[..|data| - 1], col, threshold, isLeft, parse);
      assert forall k | 0 <= k < |ids| :: data[..|data| - 1][ids[k]] == data[ids[k]];
      ids + (if OnSide(data[|data| - 1], col, threshold, isLeft, parse) then [|data| - 1] else [])
  }

  /**
   * The kept rows are exactly the rows at the kept positions: every
   * non-header row on the requested side, and no other, in input order.
   */
  lemma {:induction false} KeptRowsExactly(data: Table, col: nat, threshold: real, isLeft: bool, parse: string -> real)
    ensures var kept, ids := KeptRows(data, col, threshold, isLeft, parse), KeptIndices(data, col, threshold, isLeft, parse);
      |kept| == |ids| && forall k | 0 <= k < |ids| :: kept[k] == data[ids[k]]
    decreases |data|
  {
    if |data| > 1 {
      var init, last := data[..|data| - 1], data[|data| - 1];
      KeptRowsExactly(init, col, threshold, isLeft, parse);
      var ki, ii := KeptRows(init, col, threshold, isLeft, parse), KeptIndices(init, col, threshold, isLeft, parse);
      var extra := if OnSide(last, col, threshold, isLeft, parse) then 1 else 0;
      var kept, ids := KeptRows(data, col, threshold, isLeft, parse), KeptIndices(data, col, threshold, isLeft, parse);
      assert |kept| == |ki| + extra && |ids| == |ii| + extra;
      forall k | 0 <= k < |ids| ensures kept[k] == data[ids[k]] {
        if k < |ii| {
          assert kept[k] == ki[k] && ids[k] == ii[k] && init[ii[k]] == data[ii[k]];
        } else {
          assert kept[k] == last && ids[k] == |data| - 1;
        }
      }
    }
  }

  /** The rows after the header, split off the last one. */
  lemma DropHeadOfPrefix<T>(s: seq<T>)
    requires |s| >= 2
    ensures s[1..] == s[..|s| - 1][1..] + [s[|s| - 1]]
  {
  }

  /**
   * The two sides partition the non-header rows: every row lands on
   * exactly one side, so together they hold each row exactly once.
   */
  lemma {:induction false} KeptRowsPartition(data: Table, col: nat, threshold: real, parse: string -> real)
    requires HasColumn(data, col)
    ensures multiset(KeptRows(data, col, threshold, true, parse)) + multiset(KeptRows(data, col, threshold, false, parse))
         == multiset(if |data| == 0 then [] else data[1..])
    decreases |data|
  {
    if |data| > 1 {
      var init, last := data[..|data| - 1], data[|data| - 1];
      KeptRowsPartition(init, col, threshold, parse);
      var l, r := KeptRows(init, col, threshold, true, parse), KeptRows(init, col, threshold, false, parse);
      var l', r' := KeptRows(data, col, threshold, true, parse), KeptRows(data, col, threshold, false, parse);
      DropHeadOfPrefix(data);
      assert multiset(data[1..]) == multiset(init[1..]) + multiset{last};
      assert col < |last|;
      if OnSide(last, col, threshold, true, parse) {
        assert l' == l + [last] && r' == r;
        assert multiset(l') == multiset(l) + multiset{last};
      } else {
        assert l' == l && r' == r + [last];
        assert multiset(r') == multiset(r) + multiset{last};
      }
    } else if |data| == 1 {
      assert data[1..] == [];
    }
  }

  /** The partition of the filtered tables themselves, headers aside. */
  lemma FilteredPartition(data: Table, col: nat, threshold: real, parse: string -> real)
    requires |data| >= 1 && HasColumn(data, col)
    ensures var left, right := Filtered(data, col, threshold, true, parse), Filtered(data, col, threshold, false, parse);
      multiset(left[1..]) + multiset(right[1..]) == multiset(data[1..]) && (|left| - 1) + (|right| - 1) == |data| - 1
  {
    KeptRowsPartition(data, col, threshold, parse);
    var left, right := Filtered(data, col, threshold, true, parse), Filtered(data, col, threshold, false, parse);
    assert left[1..] == KeptRows(data, col, threshold, true, parse);
    assert right[1..] == KeptRows(data, col, threshold, false, parse);
    assert |multiset(left[1..])| == |left| - 1 && |multiset(right[1..])| == |right| - 1;
    assert |multiset(data[1..])| == |data| - 1;
  }

  /** Filtering keeps every column the non-header rows had. */
  lemma FilteredHasColumn(data: Table, col: nat, threshold: real, isLeft: bool, parse: string -> real, c: nat)
    requires |data| >= 1 && HasColumn(data, c)
    ensures HasColumn(Filtered(data, col, threshold, isLeft, parse), c)
  {
    KeptRowsExactly(data, col, threshold, isLeft, parse);
  }

  /**
   * `filterData(data, featureIndex, threshold, isLeft)`: a fresh table
   * holding the header and then, in order, each non-header row on the
   * requested side of `threshold`.
   */
  method FilterData(data: Table, featureIndex: nat, threshold: real, isLeft: bool, parse: string -> real)
    returns (filteredData: Table)
    requires |data| >= 1 && HasColumn(data, featureIndex)
    ensures filteredData == Filtered(data, featureIndex, threshold, isLeft, parse)
  {
    filteredData := [data[0]];
    var i := 1;
    while i < |data|
      invariant 1 <= i <= |data|
      invariant filteredData == [data[0]] + KeptRows(data[..i], featureIndex, threshold, isLeft, parse)
    {
      assert data[..i + 1][..i] == data[..i];
      var value := parse(data[i][featureIndex]);
      if (isLeft && value <= threshold) || (!isLeft && value > threshold) {
        filteredData := filteredData + [data[i]];
      }
      i := i + 1;
    }
    assert data[..i] == data;
  }

  /** Every value of a filtered column is a value of the same column of the input. */
  lemma FilteredColumnFromData(data: Table, col: nat, threshold: real, isLeft: bool, parse: string -> real, c: nat)
    requires |data| >= 1 && HasColumn(data, c)
    ensures HasColumn(Filtered(data, col, threshold, isLeft, parse), c)
    ensures forall v | v in Column(Filtered(data, col, threshold, isLeft, parse), c, parse) :: v in Column(data, c, parse)
  {
    FilteredHasColumn(data, col, threshold, isLeft, parse, c);
    KeptRowsFromData(data, col, threshold, isLeft, parse);
    var out := Filtered(data, col, threshold, isLeft, parse);
    assert out[1..] == KeptRows(data, col, threshold, isLeft, parse);
    ColumnOfSubRows(data, out, c, parse);
  }

  /** Each kept row is a non-header row of the input. */
  lemma KeptRowsFromData(data: Table, col: nat, threshold: real, isLeft: bool, parse: string -> real)
    requires |data| >= 1
    ensures forall row | row in KeptRows(data, col, threshold, isLeft, parse) :: row in data[1..]
  {
    KeptRowsExactly(data, col, threshold, isLeft, parse);
    var kept, ids := KeptRows(data, col, threshold, isLeft, parse), KeptIndices(data, col, threshold, isLeft, parse);
    forall row | row in kept ensures row in data[1..] {
      var k :| 0 <= k < |kept| && kept[k] == row;
      assert data[1..][ids[k] - 1] == row;
    }
  }

  /** A table made of rows of `data` has only column values that `data` has. */
  lemma ColumnOfSubRows(data: Table, out: Table, c: nat, parse: string -> real)
    requires |data| >= 1 && |out| >= 1 && HasColumn(data, c) && HasColumn(out, c)
    requires forall row | row in out[1..] :: row in data[1..]
    ensures forall v | v in Column(out, c, parse) :: v in Column(data, c, parse)
  {
    var xs, ys := Column(out, c, parse), Column(data, c, parse);
    forall v | v in xs ensures v in ys {
      var k :| 0 <= k < |xs| && xs[k] == v;
      assert out[1..][k] in data[1..];
      var r :| 0 <= r < |data| - 1 && data[1..][r] == out[k + 1];
      assert v == ys[r];
    }
  }
}
