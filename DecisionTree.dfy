/**
 * `DecisionTree`: the recursive tree builder, the feature selector, the
 * predictor and the three traversals. Columns are positional: feature
 * `features[k]` is column `k` and the target is the last column, number
 * `|features|`.
 */
module DecisionTree {
  import opened Wrappers
  import opened Lexicographic
  import opened DataUtils
  import opened TreeNode

  // ---------------------------------------------------------------------
  // Feature selection
  // ---------------------------------------------------------------------

  /** Correlations closer than this to the maximum count as ties. */
  const Tolerance: real := 0.000001

  function Abs(x: real): real
  {
    if x < 0.0 then -x else x
  }

  /**
   * The largest absolute correlation over the features, skipping
   * degenerate ones; `None` (the source's `NEGATIVE_INFINITY`) when every
   * feature is degenerate. Scans from the first feature to the last.
   */
  function MaxStrength(features: seq<string>, score: string -> Correlation): Option<real>
    decreases |features|
  {
    if features == [] then None
    else
      var m := MaxStrength(features[..|features| - 1], score);
      var c := score(features[|features| - 1]);
      if c.Coefficient? && (m.None? || Abs(c.value) > m.value) then Some(Abs(c.value)) else m
  }

  /**
   * `MaxStrength` is the maximum: absent exactly when every feature is
   * degenerate, otherwise reached by a usable feature and at least the
   * absolute correlation of every usable feature.
   */
  lemma {:induction false} MaxStrengthIsMax(features: seq<string>, score: string -> Correlation)
    ensures var m := MaxStrength(features, score);
      && (m.None? <==> forall f | f in features :: score(f).Degenerate?)
      && (m.Some? ==> exists f | f in features :: score(f).Coefficient? && Abs(score(f).value) == m.value)
      && (m.Some? ==> forall f | f in features && score(f).Coefficient? :: Abs(score(f).value) <= m.value)
    decreases |features|
  {
    if features != [] {
      var init, last := features[..|features| - 1], features[|features| - 1];
      assert features == init + [last];
      MaxStrengthIsMax(init, score);
    }
  }

  /** `f` is usable and its absolute correlation is within `Tolerance` of `m`. */
  predicate Contender(score: string -> Correlation, m: real, f: string)
  {
    score(f).Coefficient? && m - Abs(score(f).value) < Tolerance
  }

  /** The alphabetically smallest contender, scanning from the first feature to the last. */
  function SmallestContender(features: seq<string>, score: string -> Correlation, m: real): (r: Option<string>)
    ensures r.Some? ==> r.value in features && Contender(score, m, r.value)
    decreases |features|
  {
    if features == [] then None
    else
      var init, last := features[..|features| - 1], features[|features| - 1];
      assert features == init + [last];
      var r := SmallestContender(init, score, m);
      if Contender(score, m, last) && (r.None? || LexLess(last, r.value)) then Some(last) else r
  }

  /**
   * The feature `selectBestFeature` picks: highest absolute correlation,
   * ties within `Tolerance` going to the alphabetically smallest name;
   * `None` when every feature is degenerate.
   */
  function BestFeature(features: seq<string>, score: string -> Correlation): (b: Option<string>)
    ensures b.Some? ==> b.value in features
  {
    match MaxStrength(features, score)
    case None => None
    case Some(m) => SmallestContender(features, score, m)
  }

  /**
   * There is a smallest contender exactly when there is a contender, and
   * no contender is alphabetically smaller than the one chosen.
   */
  lemma {:induction false} SmallestContenderIsSmallest(features: seq<string>, score: string -> Correlation, m: real)
    ensures SmallestContender(features, score, m).None? <==> forall f | f in features :: !Contender(score, m, f)
    ensures SmallestContender(features, score, m).Some? ==> var b := SmallestContender(features, score, m).value;
      forall f | f in features && Contender(score, m, f) :: f == b || LexLess(b, f)
    decreases |features|
  {
    if features == [] {
      return;
    }
    var init, last := features[..|features| - 1], features[|features| - 1];
    assert features == init + [last];
    var r := SmallestContender(init, score, m);
    SmallestContenderIsSmallest(init, score, m);
    if SmallestContender(features, score, m).None? {
      return;
    }
    var b := SmallestContender(features, score, m).value;
    forall f | f in features && Contender(score, m, f) ensures f == b || LexLess(b, f) {
      if f != b {
        if f == last {
          // `last` lost to `r.value`, which is then `b`.
          LexLessTotal(f, b);
        } else {
          assert f in init;
          assert r.Some? ==> r.value == f || LexLess(r.value, f);
          if Contender(score, m, last) && (r.None? || LexLess(last, r.value)) {
            if r.Some? && r.value != f {
              LexLessTransitive(b, r.value, f);
            }
          }
        }
      }
    }
  }

  /**
   * The selection rule: `None` exactly when every feature is degenerate;
   * otherwise a usable feature whose absolute correlation is within
   * `Tolerance` of every other's, alphabetically smallest among all
   * features within `Tolerance` of the maximum.
   */
  lemma BestFeatureRule(features: seq<string>, score: string -> Correlation)
    ensures BestFeature(features, score).None? <==> forall f | f in features :: score(f).Degenerate?
    ensures BestFeature(features, score).Some? ==>
      var b, m := BestFeature(features, score).value, MaxStrength(features, score).value;
      && b in features && score(b).Coefficient? && m - Abs(score(b).value) < Tolerance
      && (forall f | f in features && score(f).Coefficient? :: Abs(score(f).value) < Abs(score(b).value) + Tolerance)
      && (forall f | f in features && Contender(score, m, f) :: f == b || LexLess(b, f))
  {
    var mx := MaxStrength(features, score);
    MaxStrengthIsMax(features, score);
    if mx.Some? {
      var f :| f in features && score(f).Coefficient? && Abs(score(f).value) == mx.value;
      assert Contender(score, mx.value, f);
      SmallestContenderIsSmallest(features, score, mx.value);
    }
  }

  /**
   * The choice depends only on which names are offered, not on their
   * order (or repetition) in `features`.
   */
  lemma BestFeatureOrderFree(features: seq<string>, other: seq<string>, score: string -> Correlation)
    requires forall f :: f in features <==> f in other
    ensures BestFeature(features, score) == BestFeature(other, score)
  {
    var m1, m2 := MaxStrength(features, score), MaxStrength(other, score);
    MaxStrengthIsMax(features, score);
    MaxStrengthIsMax(other, score);
    if m1.Some? {
      assert m2.Some?;
      var f1 :| f1 in features && score(f1).Coefficient? && Abs(score(f1).value) == m1.value;
      var f2 :| f2 in other && score(f2).Coefficient? && Abs(score(f2).value) == m2.value;
      assert m1 == m2;
      var m := m1.value;
      assert Contender(score, m, f1);
      var b1, b2 := SmallestContender(features, score, m), SmallestContender(other, score, m);
      SmallestContenderIsSmallest(features, score, m);
      SmallestContenderIsSmallest(other, score, m);
      if b1.value != b2.value {
        LexLessAsymmetric(b1.value, b2.value);
      }
    }
  }

  /** Two equally correlated features: the alphabetically smaller wins in either order. */
  lemma TieGoesToSmallerName(a: string, b: string, score: string -> Correlation)
    requires score(a).Coefficient? && score(b) == score(a) && LexLess(a, b)
    ensures BestFeature([a, b], score) == Some(a) && BestFeature([b, a], score) == Some(a)
  {
    LexLessIrreflexive(a);
    LexLessAsymmetric(a, b);
    BestFeatureRule([a, b], score);
    BestFeatureRule([b, a], score);
    var m := MaxStrength([a, b], score).value;
    assert Contender(score, m, a) && Contender(score, m, b);
    var m' := MaxStrength([b, a], score).value;
    assert Contender(score, m', a) && Contender(score, m', b);
  }

  // ---------------------------------------------------------------------
  // Leaf values
  // ---------------------------------------------------------------------

  /** Every value of `xs` equals the first. */
  predicate AllEqual(xs: seq<real>)
  {
    forall i | 0 <= i < |xs| :: xs[i] == xs[0]
  }

  /**
   * The most common value of `xs[i..]` against `best` found so far in
   * `xs[..i]`: a later value replaces `best` only when it occurs
   * strictly more often, so ties go to the value first in row order.
   */
  function MostCommonFrom(xs: seq<real>, i: nat, best: real): (m: real)
    requires i <= |xs| && best in xs
    requires forall k | 0 <= k < i :: multiset(xs)[xs[k]] <= multiset(xs)[best]
    ensures m in xs && forall k | 0 <= k < |xs| :: multiset(xs)[xs[k]] <= multiset(xs)[m]
    decreases |xs| - i
  {
    if i == |xs| then best
    else MostCommonFrom(xs, i + 1, if multiset(xs)[xs[i]] > multiset(xs)[best] then xs[i] else best)
  }

  /** The value occurring most often in `xs` (the first such value on a tie). */
  function MostCommon(xs: seq<real>): (m: real)
    requires |xs| >= 1
    ensures m in xs && forall v :: multiset(xs)[v] <= multiset(xs)[m]
  {
    var m := MostCommonFrom(xs, 1, xs[0]);
    assert forall v | v !in xs :: multiset(xs)[v] == 0;
    m
  }

  // ---------------------------------------------------------------------
  // Building
  // ---------------------------------------------------------------------

  /** Every non-header row has the feature columns and the target column after them. */
  predicate Shaped(data: Table, features: seq<string>)
  {
    HasColumn(data, |features|)
  }

  /** Java's `features.indexOf(f)`: the first position of `f`. */
  function IndexOf(features: seq<string>, f: string): (k: nat)
    requires f in features
    ensures k < |features| && features[k] == f
    ensures forall j | 0 <= j < k :: features[j] != f
  {
    if features[0] == f then 0 else 1 + IndexOf(features[1..], f)
  }

  /** The target values of the non-header rows. */
  function Targets(data: Table, features: seq<string>, parse: string -> real): (ys: seq<real>)
    requires Shaped(data, features)
  {
    Column(data, |features|, parse)
  }

  /** The correlation of each feature's column with the target column over `data`. */
  function Score(data: Table, features: seq<string>, parse: string -> real, sqrt: real -> real): string -> Correlation
    requires Shaped(data, features)
  {
    f => if f in features then CorrelationOf(data, IndexOf(features, f), |features|, parse, sqrt) else Degenerate
  }

  /**
   * `buildTree(data, features, target, depth, maxDepth)` as a value. A
   * leaf holding the most common target value when, in this order, the
   * depth has reached `maxDepth`, there are no features, or all targets
   * are equal; also when every feature is degenerate or the median fails
   * to put a row on each side. Otherwise a decision node on the best
   * feature at the median of its column, whose subtrees are built from
   * the two filtered tables one level deeper.
   */
  function Build(data: Table, features: seq<string>, depth: int, maxDepth: int,
                 parse: string -> real, sqrt: real -> real): Tree
    requires |data| >= 2 && Shaped(data, features)
    decreases if depth < maxDepth then maxDepth - depth else 0
  {
    var targets := Targets(data, features, parse);
    if depth >= maxDepth || features == [] || AllEqual(targets) then Leaf(MostCommon(targets))
    else
      match BestFeature(features, Score(data, features, parse, sqrt))
      case None => Leaf(MostCommon(targets))
      case Some(best) =>
        var col := IndexOf(features, best);
        var threshold := Median(Column(data, col, parse));
        var left := Filtered(data, col, threshold, true, parse);
        var right := Filtered(data, col, threshold, false, parse);
        if |left| < 2 || |right| < 2 then Leaf(MostCommon(targets))
        else
          FilteredHasColumn(data, col, threshold, true, parse, |features|);
          FilteredHasColumn(data, col, threshold, false, parse, |features|);
          Decision(best, threshold,
                   Build(left, features, depth + 1, maxDepth, parse, sqrt),
                   Build(right, features, depth + 1, maxDepth, parse, sqrt))
  }

  /** A leaf's value is a target value of the subset occurring at least as often as any other. */
  lemma BuildLeafValue(data: Table, features: seq<string>, depth: int, maxDepth: int, parse: string -> real, sqrt: real -> real)
    requires |data| >= 2 && Shaped(data, features)
    ensures var t, ys := Build(data, features, depth, maxDepth, parse, sqrt), Targets(data, features, parse);
      t.Leaf? ==> t.value in ys && forall v :: multiset(ys)[v] <= multiset(ys)[t.value]
    ensures depth >= maxDepth || features == [] || AllEqual(Targets(data, features, parse)) ==>
      Build(data, features, depth, maxDepth, parse, sqrt).Leaf?
  {
  }

  /** The three ways `Build` stops before choosing a feature give the most common target value. */
  lemma BuildStopsEarly(data: Table, features: seq<string>, depth: int, maxDepth: int, parse: string -> real, sqrt: real -> real)
    requires |data| >= 2 && Shaped(data, features)
    requires depth >= maxDepth || features == [] || AllEqual(Targets(data, features, parse))
    ensures Build(data, features, depth, maxDepth, parse, sqrt) == Leaf(MostCommon(Targets(data, features, parse)))
  {
  }

  /** With no usable feature, `Build` gives the most common target value. */
  lemma BuildWithoutFeature(data: Table, features: seq<string>, depth: int, maxDepth: int, parse: string -> real, sqrt: real -> real)
    requires |data| >= 2 && Shaped(data, features)
    requires !(depth >= maxDepth || features == [] || AllEqual(Targets(data, features, parse)))
    requires BestFeature(features, Score(data, features, parse, sqrt)).None?
    ensures Build(data, features, depth, maxDepth, parse, sqrt) == Leaf(MostCommon(Targets(data, features, parse)))
  {
  }

  /**
   * Once the best feature is chosen, `Build` splits at the median of its
   * column unless a side is left without a data row.
   */
  lemma BuildAtFeature(data: Table, features: seq<string>, depth: int, maxDepth: int, parse: string -> real, sqrt: real -> real,
                       best: string, threshold: real, left: Table, right: Table)
    requires |data| >= 2 && Shaped(data, features)
    requires !(depth >= maxDepth || features == [] || AllEqual(Targets(data, features, parse)))
    requires BestFeature(features, Score(data, features, parse, sqrt)) == Some(best)
    requires threshold == Median(Column(data, IndexOf(features, best), parse))
    requires left == Filtered(data, IndexOf(features, best), threshold, true, parse)
    requires right == Filtered(data, IndexOf(features, best), threshold, false, parse)
    ensures Shaped(left, features) && Shaped(right, features)
    ensures Build(data, features, depth, maxDepth, parse, sqrt) ==
      if |left| < 2 || |right| < 2 then Leaf(MostCommon(Targets(data, features, parse)))
      else Decision(best, threshold, Build(left, features, depth + 1, maxDepth, parse, sqrt),
                    Build(right, features, depth + 1, maxDepth, parse, sqrt))
  {
    FilteredHasColumn(data, IndexOf(features, best), threshold, true, parse, |features|);
    FilteredHasColumn(data, IndexOf(features, best), threshold, false, parse, |features|);
  }

  /** When every target value is `v`, the tree is the single leaf `v`, whatever the depth or features. */
  lemma BuildConstantTarget(data: Table, features: seq<string>, depth: int, maxDepth: int,
                            parse: string -> real, sqrt: real -> real, v: real)
    requires |data| >= 2 && Shaped(data, features)
    requires forall i | 1 <= i < |data| :: parse(data[i][|features|]) == v
    ensures Build(data, features, depth, maxDepth, parse, sqrt) == Leaf(v)
  {
    var ys := Targets(data, features, parse);
    assert forall k | 0 <= k < |ys| :: ys[k] == v;
    assert AllEqual(ys);
  }

  /**
   * A decision node splits on the best feature at the median of its
   * column over the current rows; its left subtree is built from the
   * rows `<= threshold` and its right subtree from the rows `>
   * threshold`, one level deeper, and each side holds fewer rows than
   * the parent.
   */
  lemma BuildSplit(data: Table, features: seq<string>, depth: int, maxDepth: int, parse: string -> real, sqrt: real -> real)
    requires |data| >= 2 && Shaped(data, features)
    requires Build(data, features, depth, maxDepth, parse, sqrt).Decision?
    ensures var t, best := Build(data, features, depth, maxDepth, parse, sqrt), BestFeature(features, Score(data, features, parse, sqrt));
      var col := IndexOf(features, t.feature);
      var left, right := Filtered(data, col, t.threshold, true, parse), Filtered(data, col, t.threshold, false, parse);
      && depth < maxDepth && best == Some(t.feature)
      && t.threshold == Median(Column(data, col, parse))
      && 2 <= |left| < |data| && 2 <= |right| < |data|
      && Shaped(left, features) && Shaped(right, features)
      && t.left == Build(left, features, depth + 1, maxDepth, parse, sqrt)
      && t.right == Build(right, features, depth + 1, maxDepth, parse, sqrt)
  {
    var t, best := Build(data, features, depth, maxDepth, parse, sqrt), BestFeature(features, Score(data, features, parse, sqrt));
    var col := IndexOf(features, best.value);
    var threshold := Median(Column(data, col, parse));
    FilteredPartition(data, col, threshold, parse);
    FilteredHasColumn(data, col, threshold, true, parse, |features|);
    FilteredHasColumn(data, col, threshold, false, parse, |features|);
  }

  /**
   * The two tables a decision node's subtrees are built from, as
   * opaque values: each has a data row, fewer rows than `data`, and only
   * target values that `data` has. Induction over `Build` goes through
   * this lemma.
   */
  lemma BuildChildren(data: Table, features: seq<string>, depth: int, maxDepth: int, parse: string -> real, sqrt: real -> real)
    returns (left: Table, right: Table)
    requires |data| >= 2 && Shaped(data, features)
    ensures var t := Build(data, features, depth, maxDepth, parse, sqrt);
      t.Decision? ==>
      && depth < maxDepth && t.feature in features
      && 2 <= |left| < |data| && 2 <= |right| < |data|
      && Shaped(left, features) && Shaped(right, features)
      && (forall v | v in Targets(left, features, parse) :: v in Targets(data, features, parse))
      && (forall v | v in Targets(right, features, parse) :: v in Targets(data, features, parse))
      && t.left == Build(left, features, depth + 1, maxDepth, parse, sqrt)
      && t.right == Build(right, features, depth + 1, maxDepth, parse, sqrt)
  {
    var t := Build(data, features, depth, maxDepth, parse, sqrt);
    if t.Decision? {
      BuildSplit(data, features, depth, maxDepth, parse, sqrt);
      var col := IndexOf(features, t.feature);
      left, right := Filtered(data, col, t.threshold, true, parse), Filtered(data, col, t.threshold, false, parse);
      FilteredColumnFromData(data, col, t.threshold, true, parse, |features|);
      FilteredColumnFromData(data, col, t.threshold, false, parse, |features|);
    } else {
      left, right := data, data;
    }
  }

  lemma DecisionDepthStep(t: Tree, bound: nat)
    requires t.Decision? && DecisionDepth(t.left) <= bound && DecisionDepth(t.right) <= bound
    ensures DecisionDepth(t) <= bound + 1
  {
  }

  /** No root-to-leaf path holds more than `maxDepth - depth` decision nodes. */
  lemma {:induction false} BuildDepthBound(data: Table, features: seq<string>, depth: int, maxDepth: int,
                                           parse: string -> real, sqrt: real -> real)
    requires |data| >= 2 && Shaped(data, features)
    ensures DecisionDepth(Build(data, features, depth, maxDepth, parse, sqrt)) <= if depth < maxDepth then maxDepth - depth else 0
    decreases if depth < maxDepth then maxDepth - depth else 0
  {
    var t := Build(data, features, depth, maxDepth, parse, sqrt);
    var left, right := BuildChildren(data, features, depth, maxDepth, parse, sqrt);
    if t.Decision? {
      BuildDepthBound(left, features, depth + 1, maxDepth, parse, sqrt);
      BuildDepthBound(right, features, depth + 1, maxDepth, parse, sqrt);
      DecisionDepthStep(t, if depth + 1 < maxDepth then maxDepth - depth - 1 else 0);
    }
  }

  /** Every leaf holds a target value of the rows the tree was built from. */
  lemma {:induction false} BuildLeavesFromData(data: Table, features: seq<string>, depth: int, maxDepth: int,
                                               parse: string -> real, sqrt: real -> real)
    requires |data| >= 2 && Shaped(data, features)
    ensures forall v | v in LeafValues(Build(data, features, depth, maxDepth, parse, sqrt)) :: v in Targets(data, features, parse)
    decreases if depth < maxDepth then maxDepth - depth else 0
  {
    var t := Build(data, features, depth, maxDepth, parse, sqrt);
    var left, right := BuildChildren(data, features, depth, maxDepth, parse, sqrt);
    if t.Decision? {
      BuildLeavesFromData(left, features, depth + 1, maxDepth, parse, sqrt);
      BuildLeavesFromData(right, features, depth + 1, maxDepth, parse, sqrt);
    } else {
      BuildLeafValue(data, features, depth, maxDepth, parse, sqrt);
    }
  }

  /** Every decision node splits on one of the given features. */
  lemma {:induction false} BuildUsesFeatures(data: Table, features: seq<string>, depth: int, maxDepth: int,
                                             parse: string -> real, sqrt: real -> real)
    requires |data| >= 2 && Shaped(data, features)
    ensures forall f | f in Features(Build(data, features, depth, maxDepth, parse, sqrt)) :: f in features
    decreases if depth < maxDepth then maxDepth - depth else 0
  {
    var t := Build(data, features, depth, maxDepth, parse, sqrt);
    var left, right := BuildChildren(data, features, depth, maxDepth, parse, sqrt);
    if t.Decision? {
      BuildUsesFeatures(left, features, depth + 1, maxDepth, parse, sqrt);
      BuildUsesFeatures(right, features, depth + 1, maxDepth, parse, sqrt);
    }
  }

  // ---------------------------------------------------------------------
  // Prediction
  // ---------------------------------------------------------------------

  /**
   * Why a prediction fails: a decision node names a feature missing from
   * `features`, the data point has no cell at the feature's position, or
   * (for a tree of nodes) a decision node lacks a feature or a child.
   */
  datatype PredictError = UnknownFeature(name: string) | MissingValue(index: nat) | MalformedTree

  /**
   * `predict` on the value view: a leaf gives its value; a decision node
   * reads the point's cell at the feature's position in `features` and
   * descends left when it is `<= threshold`, right otherwise.
   */
  function Prediction(t: Tree, point: Row, features: seq<string>, parse: string -> real): Result<real, PredictError>
  {
    match t
    case Leaf(v) => Ok(v)
    case Decision(f, threshold, left, right) =>
      if f !in features then Err(UnknownFeature(f))
      else
        var k := IndexOf(features, f);
        if k >= |point| then Err(MissingValue(k))
        else if parse(point[k]) <= threshold then Prediction(left, point, features, parse)
        else Prediction(right, point, features, parse)
  }

  /** A successful prediction is the value of some leaf of the tree. */
  lemma {:induction false} PredictionIsLeafValue(t: Tree, point: Row, features: seq<string>, parse: string -> real)
    requires Prediction(t, point, features, parse).Ok?
    ensures Prediction(t, point, features, parse).value in LeafValues(t)
  {
    match t
    case Leaf(_) =>
    case Decision(f, threshold, left, right) =>
      var k := IndexOf(features, f);
      if parse(point[k]) <= threshold {
        PredictionIsLeafValue(left, point, features, parse);
      } else {
        PredictionIsLeafValue(right, point, features, parse);
      }
  }

  /**
   * Prediction fails only on a feature that is not offered or a cell
   * that is missing: a tree over known features and a point with a cell
   * for every feature always yields a value.
   */
  lemma {:induction false} PredictionSucceeds(t: Tree, point: Row, features: seq<string>, parse: string -> real)
    requires forall f | f in Features(t) :: f in features
    requires |point| >= |features|
    ensures Prediction(t, point, features, parse).Ok?
  {
    match t
    case Leaf(_) =>
    case Decision(f, threshold, left, right) =>
      PredictionSucceeds(left, point, features, parse);
      PredictionSucceeds(right, point, features, parse);
  }

  /**
   * A built tree predicts a value for every point with a cell per
   * feature, and that value is one of the training target values.
   */
  lemma PredictBuilt(data: Table, features: seq<string>, depth: int, maxDepth: int,
                     parse: string -> real, sqrt: real -> real, point: Row)
    requires |data| >= 2 && Shaped(data, features) && |point| >= |features|
    ensures var p := Prediction(Build(data, features, depth, maxDepth, parse, sqrt), point, features, parse);
      p.Ok? && p.value in Targets(data, features, parse)
  {
    BuildUsesFeatures(data, features, depth, maxDepth, parse, sqrt);
    BuildLeavesFromData(data, features, depth, maxDepth, parse, sqrt);
    PredictionWithin(Build(data, features, depth, maxDepth, parse, sqrt), point, features, parse, Targets(data, features, parse));
  }

  lemma PredictionWithin(t: Tree, point: Row, features: seq<string>, parse: string -> real, ys: seq<real>)
    requires forall f | f in Features(t) :: f in features
    requires forall v | v in LeafValues(t) :: v in ys
    requires |point| >= |features|
    ensures Prediction(t, point, features, parse).Ok? && Prediction(t, point, features, parse).value in ys
  {
    PredictionSucceeds(t, point, features, parse);
    PredictionIsLeafValue(t, point, features, parse);
  }

  // ---------------------------------------------------------------------
  // Traversals
  // ---------------------------------------------------------------------

  /** `nodeToString` on the value view; `show` is Java's conversion of a double to text. */
  function Description(t: Tree, show: real -> string): string
  {
    match t
    case Leaf(v) => "Value: " + show(v)
    case Decision(f, threshold, _, _) => f + " <= " + show(threshold)
  }

  /** Node, left subtree, right subtree. */
  function PreOrder(t: Tree, show: real -> string): seq<string>
  {
    match t
    case Leaf(_) => [Description(t, show)]
    case Decision(_, _, l, r) => [Description(t, show)] + PreOrder(l, show) + PreOrder(r, show)
  }

  /** Left subtree, node, right subtree. */
  function InOrder(t: Tree, show: real -> string): seq<string>
  {
    match t
    case Leaf(_) => [Description(t, show)]
    case Decision(_, _, l, r) => InOrder(l, show) + [Description(t, show)] + InOrder(r, show)
  }

  /** Left subtree, right subtree, node. */
  function PostOrder(t: Tree, show: real -> string): seq<string>
  {
    match t
    case Leaf(_) => [Description(t, show)]
    case Decision(_, _, l, r) => PostOrder(l, show) + PostOrder(r, show) + [Description(t, show)]
  }

  /** Each order lists one description per node. */
  lemma {:induction false} TraversalSizes(t: Tree, show: real -> string)
    ensures |PreOrder(t, show)| == Size(t) && |InOrder(t, show)| == Size(t) && |PostOrder(t, show)| == Size(t)
  {
    match t
    case Leaf(_) =>
    case Decision(_, _, l, r) =>
      TraversalSizes(l, show);
      TraversalSizes(r, show);
  }

  /**
   * The three orders list the same descriptions: each is a rearrangement
   * of the others.
   */
  lemma {:induction false} TraversalsAgree(t: Tree, show: real -> string)
    ensures multiset(PreOrder(t, show)) == multiset(InOrder(t, show))
    ensures multiset(InOrder(t, show)) == multiset(PostOrder(t, show))
  {
    match t
    case Leaf(_) =>
    case Decision(_, _, l, r) =>
      TraversalsAgree(l, show);
      TraversalsAgree(r, show);
      var d := [Description(t, show)];
      var pl, pr, il, ir, ql, qr := PreOrder(l, show), PreOrder(r, show), InOrder(l, show), InOrder(r, show), PostOrder(l, show), PostOrder(r, show);
      assert PreOrder(t, show) == d + pl + pr && InOrder(t, show) == il + d + ir && PostOrder(t, show) == ql + qr + d;
      assert multiset(d + pl + pr) == multiset(d) + multiset(pl) + multiset(pr);
      assert multiset(il + d + ir) == multiset(il) + multiset(d) + multiset(ir);
      assert multiset(ql + qr + d) == multiset(ql) + multiset(qr) + multiset(d);
  }

  /** Pre-order starts with the root, post-order ends with it, and in-order has it right after the left subtree. */
  lemma RootPositions(t: Tree, show: real -> string)
    ensures PreOrder(t, show)[0] == Description(t, show)
    ensures PostOrder(t, show)[|PostOrder(t, show)| - 1] == Description(t, show)
    ensures t.Decision? ==> |InOrder(t.left, show)| < |InOrder(t, show)| && InOrder(t, show)[|InOrder(t.left, show)|] == Description(t, show)
  {
  }

  // ---------------------------------------------------------------------
  // The tree of nodes
  // ---------------------------------------------------------------------

  /** The builder and the operations on trees of `TreeNode`s. */
  class DecisionTree {
    /** The root of the tree built last from depth 0. */
    var root: TreeNode?

    constructor ()
      ensures root == null
    {
      root := null;
    }

    /** `getRoot`. */
    function GetRoot(): TreeNode?
      reads this
    {
      root
    }

    /**
     * `selectBestFeature`: one pass finds the largest absolute
     * correlation, a second the alphabetically smallest feature within
     * `Tolerance` of it; `None` when every feature is degenerate.
     */
    static method SelectBestFeature(features: seq<string>, score: string -> Correlation) returns (bestFeature: Option<string>)
      ensures bestFeature == BestFeature(features, score)
    {
      var maxCorrelation: Option<real> := None;
      var i := 0;
      while i < |features|
        invariant 0 <= i <= |features|
        invariant maxCorrelation == MaxStrength(features[..i], score)
      {
        assert features[..i + 1][..i] == features[..i];
        var c := score(features[i]);
        if c.Coefficient? && (maxCorrelation.None? || Abs(c.value) > maxCorrelation.value) {
          maxCorrelation := Some(Abs(c.value));
        }
        i := i + 1;
      }
      assert features[..i] == features;
      bestFeature := None;
      i := 0;
      while i < |features|
        invariant 0 <= i <= |features|
        invariant bestFeature == if maxCorrelation.None? then None else SmallestContender(features[..i], score, maxCorrelation.value)
      {
        assert features[..i + 1][..i] == features[..i];
        var c := score(features[i]);
        if c.Coefficient? && maxCorrelation.Some? && maxCorrelation.value - Abs(c.value) < Tolerance
           && (bestFeature.None? || LexLess(features[i], bestFeature.value)) {
          bestFeature := Some(features[i]);
        }
        i := i + 1;
      }
      assert features[..i] == features;
    }

    /**
     * `buildTree(data, features, target, depth, maxDepth)`: builds the
     * nodes of `Build(...)` and, at depth 0, stores the result in `root`.
     */
    method BuildTree(data: Table, features: seq<string>, depth: int, maxDepth: int,
                     parse: string -> real, sqrt: real -> real) returns (node: TreeNode)
      requires |data| >= 2 && Shaped(data, features) && depth >= 0
      modifies this
      ensures node.Valid() && fresh(node.Repr)
      ensures node.Model() == Some(Build(data, features, depth, maxDepth, parse, sqrt))
      ensures root == if depth == 0 then node else old(root)
    {
      node := Grow(data, features, depth, maxDepth, parse, sqrt);
      if depth == 0 {
        SetRoot(node);
      }
    }

    /** Stores `node` in `root`, leaving every tree node as it was. */
    method SetRoot(node: TreeNode)
      requires node.Valid() && this !in node.Repr
      modifies this
      ensures root == node && node.Valid() && node.Model() == old(node.Model())
    {
      root := node;
    }

    /**
     * The recursion of `buildTree`: a leaf with the most common target
     * value when the depth limit is reached, no feature is left or every
     * target value is the same; otherwise the split of `GrowOnBest`.
     */
    static method Grow(data: Table, features: seq<string>, depth: int, maxDepth: int,
                       parse: string -> real, sqrt: real -> real) returns (node: TreeNode)
      requires |data| >= 2 && Shaped(data, features)
      ensures node.Valid() && fresh(node.Repr)
      ensures node.Model() == Some(Build(data, features, depth, maxDepth, parse, sqrt))
      decreases if depth < maxDepth then maxDepth - depth else 0, 4
    {
      var targets := Targets(data, features, parse);
      if depth >= maxDepth || features == [] || AllEqual(targets) {
        BuildStopsEarly(data, features, depth, maxDepth, parse, sqrt);
        node := NewLeaf(MostCommon(targets));
      } else {
        node := GrowOnBest(data, features, depth, maxDepth, parse, sqrt);
      }
    }

    /** Chooses the best feature; a leaf when every feature is degenerate. */
    static method GrowOnBest(data: Table, features: seq<string>, depth: int, maxDepth: int,
                             parse: string -> real, sqrt: real -> real) returns (node: TreeNode)
      requires |data| >= 2 && Shaped(data, features)
      requires !(depth >= maxDepth || features == [] || AllEqual(Targets(data, features, parse)))
      ensures node.Valid() && fresh(node.Repr)
      ensures node.Model() == Some(Build(data, features, depth, maxDepth, parse, sqrt))
      decreases if depth < maxDepth then maxDepth - depth else 0, 3
    {
      var best := SelectBestFeature(features, Score(data, features, parse, sqrt));
      if best.None? {
        BuildWithoutFeature(data, features, depth, maxDepth, parse, sqrt);
        node := NewLeaf(MostCommon(Targets(data, features, parse)));
      } else {
        node := GrowAt(data, features, depth, maxDepth, parse, sqrt, best.value);
      }
    }

    /**
     * Splits at the median of the chosen feature; a leaf when a side has
     * no data row, otherwise a decision node over the two subtrees.
     */
    static method GrowAt(data: Table, features: seq<string>, depth: int, maxDepth: int,
                         parse: string -> real, sqrt: real -> real, best: string) returns (node: TreeNode)
      requires |data| >= 2 && Shaped(data, features)
      requires !(depth >= maxDepth || features == [] || AllEqual(Targets(data, features, parse)))
      requires BestFeature(features, Score(data, features, parse, sqrt)) == Some(best)
      ensures node.Valid() && fresh(node.Repr)
      ensures node.Model() == Some(Build(data, features, depth, maxDepth, parse, sqrt))
      decreases if depth < maxDepth then maxDepth - depth else 0, 2
    {
      var threshold, leftData, rightData := SplitOn(data, features, best, parse);
      BuildAtFeature(data, features, depth, maxDepth, parse, sqrt, best, threshold, leftData, rightData);
      if |leftData| < 2 || |rightData| < 2 {
        node := NewLeaf(MostCommon(Targets(data, features, parse)));
      } else {
        node := GrowBoth(leftData, rightData, features, depth, maxDepth, parse, sqrt, best, threshold);
      }
    }

    /** Builds both subtrees one level deeper and joins them under a fresh decision node. */
    static method GrowBoth(leftData: Table, rightData: Table, features: seq<string>, depth: int, maxDepth: int,
                           parse: string -> real, sqrt: real -> real, best: string, threshold: real) returns (node: TreeNode)
      requires |leftData| >= 2 && Shaped(leftData, features) && |rightData| >= 2 && Shaped(rightData, features)
      requires depth < maxDepth
      ensures node.Valid() && fresh(node.Repr)
      ensures node.Model() == Some(Decision(best, threshold, Build(leftData, features, depth + 1, maxDepth, parse, sqrt),
                                            Build(rightData, features, depth + 1, maxDepth, parse, sqrt)))
      decreases if depth < maxDepth then maxDepth - depth else 0, 1
    {
      var leftTree := Grow(leftData, features, depth + 1, maxDepth, parse, sqrt);
      node := GrowRight(leftTree, rightData, features, depth, maxDepth, parse, sqrt, best, threshold);
    }

    /** Builds the right subtree and joins it with an already built left subtree. */
    static method GrowRight(leftTree: TreeNode, rightData: Table, features: seq<string>, depth: int, maxDepth: int,
                            parse: string -> real, sqrt: real -> real, best: string, threshold: real) returns (node: TreeNode)
      requires leftTree.Valid() && leftTree.Model().Some?
      requires |rightData| >= 2 && Shaped(rightData, features)
      requires depth < maxDepth
      ensures node.Valid() && fresh(node.Repr - old(leftTree.Repr))
      ensures node.Model() == Some(Decision(best, threshold, old(leftTree.Model()).value,
                                            Build(rightData, features, depth + 1, maxDepth, parse, sqrt)))
      decreases if depth < maxDepth then maxDepth - depth else 0, 0
    {
      var rightTree := Grow(rightData, features, depth + 1, maxDepth, parse, sqrt);
      node := NewDecision(best, threshold, leftTree, rightTree);
    }

    /**
     * The split step of `buildTree`: the median of the feature's column
     * over the current rows, and the rows on each side of it.
     */
    static method SplitOn(data: Table, features: seq<string>, f: string, parse: string -> real)
      returns (threshold: real, leftData: Table, rightData: Table)
      requires |data| >= 2 && Shaped(data, features) && f in features
      ensures threshold == Median(Column(data, IndexOf(features, f), parse))
      ensures leftData == Filtered(data, IndexOf(features, f), threshold, true, parse)
      ensures rightData == Filtered(data, IndexOf(features, f), threshold, false, parse)
    {
      var col := IndexOf(features, f);
      threshold := CalculateMedian(data, col, parse);
      leftData := FilterData(data, col, threshold, true, parse);
      rightData := FilterData(data, col, threshold, false, parse);
    }

    /** `new TreeNode(value)`: a fresh leaf. */
    static method NewLeaf(v: real) returns (node: TreeNode)
      ensures node.Valid() && fresh(node.Repr)
      ensures node.Model() == Some(Leaf(v))
    {
      node := new TreeNode.LeafNode(Some(v));
    }

    /** `new TreeNode(feature, threshold, left, right, null)`: a fresh decision node over two disjoint subtrees. */
    static method NewDecision(f: string, threshold: real, l: TreeNode, r: TreeNode) returns (node: TreeNode)
      requires l.Valid() && r.Valid() && l.Repr !! r.Repr
      requires l.Model().Some? && r.Model().Some?
      ensures node.Valid() && node.Repr == {node} + l.Repr + r.Repr && fresh(node)
      ensures node.Model() == Some(Decision(f, threshold, old(l.Model()).value, old(r.Model()).value))
    {
      node := new TreeNode(Some(f), threshold, l, r, None);
    }

    /** `nodeToString`: `"Value: v"` for a node with a value, `"feature <= threshold"` otherwise. */
    static function NodeToString(node: TreeNode, show: real -> string): string
      reads node
    {
      if node.value.Some? then "Value: " + show(node.value.value)
      else (if node.feature.Some? then node.feature.value else "null") + " <= " + show(node.threshold)
    }

    /**
     * `predict(tree, dataPoint, features)`: descends from `tree` to a
     * node with a value, going left when the point's cell at the
     * feature's position in `features` is `<= threshold`.
     */
    static function Predict(tree: TreeNode?, dataPoint: Row, features: seq<string>, parse: string -> real): Result<real, PredictError>
      requires tree != null ==> tree.Valid()
      reads if tree != null then tree.Repr else {}
      decreases if tree != null then tree.Repr else {}
    {
      if tree == null then Err(MalformedTree)
      else if tree.value.Some? then Ok(tree.value.value)
      else if tree.feature.None? then Err(MalformedTree)
      else if tree.feature.value !in features then Err(UnknownFeature(tree.feature.value))
      else
        var k := IndexOf(features, tree.feature.value);
        if k >= |dataPoint| then Err(MissingValue(k))
        else if parse(dataPoint[k]) <= tree.threshold then Predict(tree.left, dataPoint, features, parse)
        else Predict(tree.right, dataPoint, features, parse)
    }

    /** `preOrderTraversal`: the descriptions printed, node before its subtrees. */
    static function PreOrderTraversal(node: TreeNode?, show: real -> string): seq<string>
      requires node != null ==> node.Valid()
      reads if node != null then node.Repr else {}
      decreases if node != null then node.Repr else {}
    {
      if node == null then []
      else [NodeToString(node, show)] + PreOrderTraversal(node.left, show) + PreOrderTraversal(node.right, show)
    }

    /** `inOrderTraversal`: left subtree, node, right subtree. */
    static function InOrderTraversal(node: TreeNode?, show: real -> string): seq<string>
      requires node != null ==> node.Valid()
      reads if node != null then node.Repr else {}
      decreases if node != null then node.Repr else {}
    {
      if node == null then []
      else InOrderTraversal(node.left, show) + [NodeToString(node, show)] + InOrderTraversal(node.right, show)
    }

    /** `postOrderTraversal`: both subtrees, then the node. */
    static function PostOrderTraversal(node: TreeNode?, show: real -> string): seq<string>
      requires node != null ==> node.Valid()
      reads if node != null then node.Repr else {}
      decreases if node != null then node.Repr else {}
    {
      if node == null then []
      else PostOrderTraversal(node.left, show) + PostOrderTraversal(node.right, show) + [NodeToString(node, show)]
    }
  }

  /** On a well-formed node, `nodeToString` is the description of the tree it denotes. */
  lemma NodeToStringModel(node: TreeNode, show: real -> string)
    requires node.Valid() && node.Model().Some?
    ensures DecisionTree.NodeToString(node, show) == Description(node.Model().value, show)
  {
  }

  /** On a well-formed tree of nodes, `predict` agrees with the prediction on the tree it denotes. */
  lemma {:induction false} PredictModel(node: TreeNode, point: Row, features: seq<string>, parse: string -> real)
    requires node.Valid() && node.Model().Some?
    ensures DecisionTree.Predict(node, point, features, parse) == Prediction(node.Model().value, point, features, parse)
    decreases node.Repr
  {
    if node.value.None? {
      PredictModel(node.left, point, features, parse);
      PredictModel(node.right, point, features, parse);
    }
  }

  /** On a well-formed tree of nodes, the three traversals list the descriptions of the tree it denotes. */
  lemma {:induction false} TraversalsModel(node: TreeNode, show: real -> string)
    requires node.Valid() && node.Model().Some?
    ensures DecisionTree.PreOrderTraversal(node, show) == PreOrder(node.Model().value, show)
    ensures DecisionTree.InOrderTraversal(node, show) == InOrder(node.Model().value, show)
    ensures DecisionTree.PostOrderTraversal(node, show) == PostOrder(node.Model().value, show)
    decreases node.Repr
  {
    if node.value.None? {
      TraversalsModel(node.left, show);
      TraversalsModel(node.right, show);
    }
  }
}
