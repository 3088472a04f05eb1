# Decision tree over tabular data — a Dafny model

This project models the core of a small Java decision-tree library. The library builds a binary regression tree from a table of string cells, then uses the tree to predict a numeric target. The table's first row is a header. Each feature is a column, and the target is the column after the last feature. The core consists of:

- **DataUtils**: the Pearson correlation of two columns, the mean and median of a column, and `filterData`. `filterData` keeps the header plus the rows on one side of a threshold.
- **TreeNode**: a mutable node with the five public fields `feature`, `threshold`, `left`, `right` and `value`, and its two constructors.
- **DecisionTree**:
  - `buildTree` recursively picks the feature most strongly correlated with the target. Ties go to the alphabetically smaller name, within a tolerance of 1e-6.
  - It splits the rows at that feature's median.
  - It stops with a leaf holding the most common target value.
  - The class also has `selectBestFeature`, `getRoot`, `predict`, the three traversals and `nodeToString`.
- **The sort strategies**: the `SortStrategy` contract, insertion sort, bubble sort and merge sort.

Each Java file becomes one Dafny module:

| module | models |
|---|---|
| `SortStrategy` | what "sorts the list in place" means: sorted by the elements' order, a permutation, and stable (equal elements keep their relative order) |
| `InsertionSortStrategy`, `BubbleSortStrategy`, `MergeSortStrategy` | each strategy as an in-place method on an `array`, proved against a pure reference definition |
| `DataUtils` | the statistics and the filter: in-place loops as methods, each proved equal to a function of the table |
| `TreeNode` | the node as a `class`; `Tree` is the value a well-formed group of nodes denotes |
| `DecisionTree` | the tree as a value (`Build`, `Prediction`, the traversals) plus the `DecisionTree` class |
| `Lexicographic` | the alphabetical order on names, by code point |
| `Wrappers` | `Option` and `Result` |

Conventions:

- `compareTo` is a real-valued `rank`, so any total preorder can stand in for `Comparable`.
- `Double.parseDouble` is a parameter `parse: string -> real`.
- `Math.sqrt` is a parameter `sqrt: real -> real`.
- `String.valueOf(double)` is a parameter `show: real -> string`.
- Doubles are mathematical reals.
- The Java `null`s of the node fields are `Option` values or `TreeNode?` references.
- A correlation is `Coefficient(r)`, or `Degenerate` when the formula's denominator is zero.

The heart of the model is `DecisionTree.Build`. It is the documented building rule written as a function. `DecisionTree.BuildTree` allocates nodes that are proved to denote exactly `Build(...)`. The lemmas about `Build` carry the properties of the tree:

- the stopping rules;
- what the split is;
- the depth bound;
- leaves hold target values of their subset;
- prediction succeeds for any data point that has a cell for every feature. A shorter point gives `MissingValue`.

The heap functions `Predict`, `PreOrderTraversal`, `InOrderTraversal`, `PostOrderTraversal` and `NodeToString` walk the nodes. They are proved equal to the value-level definitions on any well-formed node.

## Model

| member | source | states |
|---|---|---|
| SortStrategy.SortedUnique | src/main/java/algorithms/SortStrategy.java:23-29 | two sorted permutations of the same reals are equal, so every strategy that meets the contract produces the same list |
| InsertionSortStrategy.Insert | src/main/java/algorithms/InsertionSortStrategy.java:39-49 | inserting a key into a prefix lengthens it by one |
| InsertionSortStrategy.InsertPermutes | src/main/java/algorithms/InsertionSortStrategy.java:39-49 | the insertion adds exactly the key to the multiset |
| InsertionSortStrategy.InsertKeepsSorted | src/main/java/algorithms/InsertionSortStrategy.java:42-49 | inserting after the elements that are not greater keeps a sorted prefix sorted |
| InsertionSortStrategy.InsertKeepsGroups | src/main/java/algorithms/InsertionSortStrategy.java:45-49 | the key lands after every element of equal rank, so each group of equal elements keeps its order |
| InsertionSortStrategy.InsertionSortedCorrect | src/main/java/algorithms/InsertionSortStrategy.java:37-51 | the reference insertion sort is sorted, a permutation and stable |
| InsertionSortStrategy.InsertKey | src/main/java/algorithms/InsertionSortStrategy.java:39-49 | the inner loop shifts the greater elements right and writes the key, with exactly the effect of `Insert` on the prefix; the suffix is untouched |
| InsertionSortStrategy.Sort | src/main/java/algorithms/InsertionSortStrategy.java:37-51 | the array ends as the reference insertion sort of its old contents: sorted, a permutation, stable, and unchanged when it has at most one element |
| BubbleSortStrategy.SwapNeighbours | src/main/java/algorithms/BubbleSortStrategy.java:51 | a swap exchanges positions i and i+1 and nothing else |
| BubbleSortStrategy.SwapNeighboursPermutes | src/main/java/algorithms/BubbleSortStrategy.java:51 | a swap is a permutation |
| BubbleSortStrategy.NeighboursOrderedSorted | src/main/java/algorithms/BubbleSortStrategy.java:37-38 | when no adjacent pair is out of order, the list is sorted |
| BubbleSortStrategy.PassEnd | src/main/java/algorithms/BubbleSortStrategy.java:49-55 | after a pass: a stable permutation with one more element settled at the end; no swap means the list was already sorted, and a sorted list causes no swap |
| BubbleSortStrategy.Compare | src/main/java/algorithms/BubbleSortStrategy.java:49-53 | one comparison swaps the pair, and raises the flag, exactly when the first element is ranked above the second; otherwise the array and the flag stay as they were |
| BubbleSortStrategy.Pass | src/main/java/algorithms/BubbleSortStrategy.java:49-53 | the array and flag after the loop are exactly one left-to-right pass `BubblePass` of the old array: a stable permutation that settles the largest remaining element, with the flag raised exactly when the old array was not sorted, and exactly when the pass changed the array |
| BubbleSortStrategy.BubblePassOnSorted | src/main/java/algorithms/BubbleSortStrategy.java:53-55 | a pass over a sorted list swaps nothing and leaves the flag down, so the loop stops |
| BubbleSortStrategy.BubblePassKeepsFlag | src/main/java/algorithms/BubbleSortStrategy.java:51-53 | once a swap has raised the flag, the rest of the pass never lowers it |
| BubbleSortStrategy.Sort | src/main/java/algorithms/BubbleSortStrategy.java:43-56 | passes until one makes no swap: the array ends sorted, a permutation of its old contents, stable, and unchanged when already sorted |
| MergeSortStrategy.Merge | src/main/java/algorithms/MergeSortStrategy.java:47-52 | merging two runs gives a sequence as long as both together |
| MergeSortStrategy.MergeSorted | src/main/java/algorithms/MergeSortStrategy.java:39-45 | the reference merge sort preserves length |
| MergeSortStrategy.MergePermutes | src/main/java/algorithms/MergeSortStrategy.java:49-50 | a merge is a permutation of its two runs |
| MergeSortStrategy.MergeKeepsSorted | src/main/java/algorithms/MergeSortStrategy.java:49-50 | merging two sorted runs gives a sorted run |
| MergeSortStrategy.MergeKeepsGroups | src/main/java/algorithms/MergeSortStrategy.java:49-50 | taking from the left run on ties puts each group of equal elements from the left before those from the right |
| MergeSortStrategy.MergeSortedSorts | src/main/java/algorithms/MergeSortStrategy.java:39-45 | the reference merge sort is sorted and a permutation |
| MergeSortStrategy.MergeSortedStable | src/main/java/algorithms/MergeSortStrategy.java:39-45 | the reference merge sort is stable |
| MergeSortStrategy.MergeInto | src/main/java/algorithms/MergeSortStrategy.java:48-50 | the merge loop writes exactly `Merge` of the two runs into `aux[low..high]` |
| MergeSortStrategy.CopyBack | src/main/java/algorithms/MergeSortStrategy.java:51 | copying back makes `a[low..high]` equal `aux[low..high]` and leaves the rest of `a` alone |
| MergeSortStrategy.MergeRuns | src/main/java/algorithms/MergeSortStrategy.java:48-52 | `merge` replaces `a[low..high]` by the merge of its two old halves and changes nothing outside the range |
| MergeSortStrategy.SplitAtMid | src/main/java/algorithms/MergeSortStrategy.java:42-44 | sorting a range is merging the sorted halves split at the midpoint |
| MergeSortStrategy.MergeSortRange | src/main/java/algorithms/MergeSortStrategy.java:40-45 | `mergeSort(low, high)` replaces the range by `MergeSorted` of its old contents and changes nothing outside it |
| MergeSortStrategy.Sort | src/main/java/algorithms/MergeSortStrategy.java:32-37 | the array ends as `MergeSorted` of its old contents: sorted, a permutation, stable |
| Lexicographic.LexLessIrreflexive | src/main/java/algorithms/DecisionTree.java:95-96 | no name is alphabetically below itself |
| Lexicographic.LexLessAsymmetric | src/main/java/algorithms/DecisionTree.java:95-96 | two names are never each below the other |
| Lexicographic.LexLessTransitive | src/main/java/algorithms/DecisionTree.java:95-96 | the alphabetical order is transitive |
| Lexicographic.LexLessTotal | src/main/java/algorithms/DecisionTree.java:95-96 | of two different names, one is alphabetically below the other, so a tie always has a single winner |
| DataUtils.Column | src/main/java/utility/DataUtils.java:106-107 | a column has one parsed value per row after the header, in row order |
| DataUtils.ColumnIgnoresHeader | src/main/java/utility/DataUtils.java:57-63 | the header row's contents never affect a column's values |
| DataUtils.RunningSums | src/main/java/utility/DataUtils.java:58-71 | the loop's five accumulators are the sums of x, y, xy, x² and y² over the data rows |
| DataUtils.CalculateCorrelation | src/main/java/utility/DataUtils.java:52-76 | the result is the Pearson coefficient from those sums with n = rows − 1, or `Degenerate` when the denominator is zero |
| DataUtils.CorrelationSymmetric | src/main/java/utility/DataUtils.java:73-75 | swapping the feature and the target column gives the same correlation |
| DataUtils.CorrelationIgnoresHeader | src/main/java/utility/DataUtils.java:57-63 | the header row does not contribute to the correlation |
| DataUtils.SumBounds | src/main/java/utility/DataUtils.java:66-67 | a sum of n values in [lo, hi] lies in [n·lo, n·hi] |
| DataUtils.CalculateMean | src/main/java/utility/DataUtils.java:78-90 | the running sum over the rows after the header, divided by their count; `None` when there is no data row |
| DataUtils.MeanWithinBounds | src/main/java/utility/DataUtils.java:78-90 | with at least one data row the mean exists and lies within any bounds that hold for every value of the column |
| DataUtils.CollectValues | src/main/java/utility/DataUtils.java:103-108 | the fill loop collects exactly the column's values in row order |
| DataUtils.SortValues | src/main/java/utility/DataUtils.java:110-125 | the sort call leaves the values in insertion-sorted order |
| DataUtils.MiddleOf | src/main/java/utility/DataUtils.java:129-137 | reads the middle value of a sorted list, or the average of the two middle values when the count is even |
| DataUtils.CalculateMedian | src/main/java/utility/DataUtils.java:100-138 | the result is `Median` of the column (the definition in the source's comment) |
| DataUtils.MedianOfAnySort | src/main/java/utility/DataUtils.java:110-137 | every sorted permutation of the values gives the same middle reading, so the choice of sort does not matter |
| DataUtils.MedianIgnoresOrder | src/main/java/utility/DataUtils.java:132-136 | the median depends only on the multiset of values |
| DataUtils.MedianWithinRange | src/main/java/utility/DataUtils.java:132-136 | some value is at most the median and some value is at least it |
| DataUtils.KeptRows | src/main/java/utility/DataUtils.java:161-173 | the kept data rows are at most the data rows |
| DataUtils.Filtered | src/main/java/utility/DataUtils.java:149-175 | the filtered table starts with the original header and is no longer than the input |
| DataUtils.KeptIndices | src/main/java/utility/DataUtils.java:161-173 | the kept row numbers are ascending data rows on the chosen side, and every data row on that side is among them |
| DataUtils.KeptRowsExactly | src/main/java/utility/DataUtils.java:161-173 | the kept rows are exactly the rows at those numbers, in order |
| DataUtils.KeptRowsPartition | src/main/java/utility/DataUtils.java:146-173 | the left rows (≤ threshold) and right rows (> threshold) together are the data rows, each exactly once |
| DataUtils.FilteredPartition | src/main/java/utility/DataUtils.java:140-175 | the two filtered tables split the data rows between them, and their sizes add up |
| DataUtils.FilteredHasColumn | src/main/java/utility/DataUtils.java:156-174 | every column present in the data is present in the filtered table |
| DataUtils.KeptRowsFromData | src/main/java/utility/DataUtils.java:161-173 | every kept row is a data row of the input |
| DataUtils.FilteredColumnFromData | src/main/java/utility/DataUtils.java:149-175 | every value of a filtered column occurs in the original column |
| DataUtils.FilterData | src/main/java/utility/DataUtils.java:149-175 | the loop builds exactly `Filtered`: the header, then the data rows on the chosen side in their original order |
| TreeNode.TreeNode.constructor | src/main/java/datastructures/TreeNode.java:49-60 | stores the five arguments; over disjoint well-formed children the node is well formed, and a node without a value denotes the decision over its children's trees |
| TreeNode.TreeNode.LeafNode | src/main/java/datastructures/TreeNode.java:70-72 | sets only the value; the other fields keep Java's defaults (no feature, threshold 0, no children) and the node denotes a leaf |
| TreeNode.ModelShape | src/main/java/datastructures/TreeNode.java:30-46 | a well-formed node is a leaf exactly when it has a value, and then it has no children; otherwise it has a feature and two well-formed children |
| DecisionTree.MaxStrengthIsMax | src/main/java/algorithms/DecisionTree.java:136-140 | the strongest correlation is the largest absolute coefficient over the features and is attained; `None` exactly when every feature is degenerate |
| DecisionTree.SmallestContender | src/main/java/algorithms/DecisionTree.java:95-96 | the alphabetical scan returns a feature within tolerance of the maximum |
| DecisionTree.SmallestContenderIsSmallest | src/main/java/algorithms/DecisionTree.java:95-96 | nothing is returned exactly when no feature is within tolerance; otherwise the result is alphabetically below every other feature within tolerance |
| DecisionTree.BestFeature | src/main/java/algorithms/DecisionTree.java:130-146 | the chosen feature is one of the features |
| DecisionTree.BestFeatureRule | src/main/java/algorithms/DecisionTree.java:92-97 | no choice exactly when every feature is degenerate; otherwise the choice is within tolerance of the largest absolute correlation, no feature beats it by the tolerance, and it is the alphabetically smallest of those within tolerance |
| DecisionTree.BestFeatureOrderFree | src/main/java/algorithms/DecisionTree.java:92-97 | the choice depends only on the set of features, not on their order |
| DecisionTree.TieGoesToSmallerName | src/main/java/algorithms/DecisionTree.java:95-96 | of two features with equal correlation, the alphabetically smaller one wins in either order |
| DecisionTree.MostCommonFrom | src/main/java/algorithms/DecisionTree.java:89 | the scan's result is a value of the list that occurs at least as often as every other |
| DecisionTree.MostCommon | src/main/java/algorithms/DecisionTree.java:89 | the leaf value occurs in the targets, at least as often as any value |
| DecisionTree.IndexOf | src/main/java/algorithms/DecisionTree.java:44 | a feature's column is the first position of its name in the feature list |
| DecisionTree.BuildLeafValue | src/main/java/algorithms/DecisionTree.java:86-89 | every leaf made at this level holds a most common target value of its subset; the three base cases always give a leaf |
| DecisionTree.BuildStopsEarly | src/main/java/algorithms/DecisionTree.java:86-89 | at maximum depth, with no features, or with all targets equal, the tree is the leaf of the most common target |
| DecisionTree.BuildWithoutFeature | src/main/java/algorithms/DecisionTree.java:92-97 | when every feature is degenerate there is nothing to split on, and the tree is that leaf too |
| DecisionTree.BuildAtFeature | src/main/java/algorithms/DecisionTree.java:106-118 | past the base cases, with a best feature, the split is at its median; a side without a data row gives a leaf, otherwise a decision node over the two subtrees one level deeper |
| DecisionTree.BuildConstantTarget | src/main/java/algorithms/DecisionTree.java:87-88 | when every data row has the same target value, the tree is that single leaf |
| DecisionTree.BuildSplit | src/main/java/algorithms/DecisionTree.java:106-118 | a decision node was made below the maximum depth on the best feature at its median; both sides are proper non-empty subsets, and the children are built from them |
| DecisionTree.BuildChildren | src/main/java/algorithms/DecisionTree.java:73-76 | each subtree of a decision is built from a strictly smaller table holding only target values of its parent |
| DecisionTree.BuildDepthBound | src/main/java/algorithms/DecisionTree.java:75-76 | the tree built from depth d has at most maxDepth − d decision levels |
| DecisionTree.BuildLeavesFromData | src/main/java/algorithms/DecisionTree.java:77-89 | every leaf value is a target value of the input data |
| DecisionTree.BuildUsesFeatures | src/main/java/algorithms/DecisionTree.java:67-69 | every decision node names one of the given features |
| DecisionTree.PredictionIsLeafValue | src/main/java/algorithms/DecisionTree.java:153-159 | a successful prediction is the value of some leaf |
| DecisionTree.PredictionSucceeds | src/main/java/algorithms/DecisionTree.java:153-159 | prediction succeeds when the tree uses only known features and the point has a cell for each |
| DecisionTree.PredictionWithin | src/main/java/algorithms/DecisionTree.java:153-159 | then the prediction lies among any values that bound the leaves |
| DecisionTree.PredictBuilt | src/main/java/algorithms/DecisionTree.java:80-82 | a built tree predicts, for any full data point, one of the training target values |
| DecisionTree.TraversalSizes | src/main/java/algorithms/DecisionTree.java:161-175 | each traversal lists one description per node |
| DecisionTree.TraversalsAgree | src/main/java/algorithms/DecisionTree.java:161-175 | the three traversals list the same descriptions, in different orders |
| DecisionTree.RootPositions | src/main/java/algorithms/DecisionTree.java:161-175 | the root comes first in pre-order, last in post-order, and right after the left subtree in in-order |
| DecisionTree.DecisionTree.constructor | src/main/java/algorithms/DecisionTree.java:34-35 | a new builder has no root |
| DecisionTree.DecisionTree.SelectBestFeature | src/main/java/algorithms/DecisionTree.java:130-146 | the two loops return exactly `BestFeature` of the scores |
| DecisionTree.DecisionTree.BuildTree | src/main/java/algorithms/DecisionTree.java:51-126 | allocates fresh, well-formed nodes denoting `Build(data, features, depth, maxDepth)`, and stores them as the root exactly when depth is 0 |
| DecisionTree.DecisionTree.SetRoot | src/main/java/algorithms/DecisionTree.java:120-121 | storing the root leaves every node and its denotation unchanged |
| DecisionTree.DecisionTree.Grow | src/main/java/algorithms/DecisionTree.java:86-125 | the recursion allocates fresh nodes denoting `Build` at this depth |
| DecisionTree.DecisionTree.GrowOnBest | src/main/java/algorithms/DecisionTree.java:92-97 | past the base cases, choosing the feature and splitting yields `Build` |
| DecisionTree.DecisionTree.GrowAt | src/main/java/algorithms/DecisionTree.java:106-118 | splitting at the chosen feature yields `Build` |
| DecisionTree.DecisionTree.SplitOn | src/main/java/algorithms/DecisionTree.java:106-113 | the threshold is the feature's median, and the two tables are the left and right filters at it |
| DecisionTree.DecisionTree.GrowBoth | src/main/java/algorithms/DecisionTree.java:115-118 | both subtrees one level deeper under a fresh decision node |
| DecisionTree.DecisionTree.GrowRight | src/main/java/algorithms/DecisionTree.java:115-118 | builds the right subtree and joins it with the finished left one without disturbing it |
| DecisionTree.DecisionTree.NewLeaf | src/main/java/algorithms/DecisionTree.java:89 | a fresh node with a value denotes that leaf |
| DecisionTree.DecisionTree.NewDecision | src/main/java/algorithms/DecisionTree.java:115-118 | a fresh node without a value over two disjoint subtrees denotes their decision |
| DecisionTree.NodeToStringModel | src/main/java/algorithms/DecisionTree.java:177-182 | `nodeToString` gives "Value: v" for a leaf and "feature <= threshold" for a decision |
| DecisionTree.PredictModel | src/main/java/algorithms/DecisionTree.java:153-159 | predicting on a well-formed node equals predicting on the tree it denotes |
| DecisionTree.TraversalsModel | src/main/java/algorithms/DecisionTree.java:161-175 | the three traversals of a well-formed node list its tree's descriptions in pre-, in- and post-order |

## Left out

- Several core methods are placeholders in the source:
  - `buildTree` and `selectBestFeature` return `null`;
  - `predict` and `calculateMedian` return `0`, and `calculateMean` returns `0.0`;
  - the three traversals print "Not Done";
  - `filterData` returns only the header row;
  - the bubble and merge sort bodies are empty, so they leave the list unchanged.

  The model follows the behaviour their comments and documentation describe, not these placeholder results.
- `DataUtils.CalculateMedian` sorts with the insertion sort strategy, where the source calls `Collections.sort`. `DataUtils.MedianOfAnySort` shows that any sorted permutation gives the same median.
- `DataUtils.CalculateCorrelation` returns `Degenerate` where Java's division by a zero denominator yields NaN or an infinity. Floating-point rounding, NaN and infinities are not modelled at all: doubles are reals.
- `Double.parseDouble`, `Math.sqrt` and `String.valueOf(double)` are opaque parameters (`parse`, `sqrt`, `show`). `NumberFormatException` on a malformed cell is not modelled.
- `DataUtils.CalculateMean` returns `None` on a table with no data row, where Java would divide 0.0 by 0.
- `DecisionTree.DecisionTree.BuildTree` requires at least one data row: the most common value of no targets is undefined in the source.
- `buildTree`'s `target` argument is not modelled. The target is the column after the features.
- `selectBestFeature`'s `targetIndex` and `tieBreakerMethod` arguments are not modelled. The only tie rule is the alphabetical one.
- `DecisionTree.Build` adds two leaf fallbacks that the source comments leave open:
  - every feature has a degenerate correlation;
  - the median leaves one side without a data row.
- `DecisionTree.MostCommon`: its contract says the result is a most frequent value. It does not say which of several equally frequent values is chosen. The body picks the first in row order.
- `DecisionTree.DecisionTree.GetRoot` has no contract: it is the read of `root`. `BuildTree` states what `root` holds.
- Printing by the traversals (`System.out.println`) is modelled as the sequence of printed lines.
- A node that has a value and also a child denotes no tree (`Model()` is `None`), so the lemmas relating heap nodes to trees do not cover it. `buildTree` never makes such a node.
- Java `List` is modelled as a Dafny `array` in the sort strategies. `List` reads and writes are array accesses.
- `mergeSort(low, high)` uses half-open ranges `[low, high)`. The source fixes no convention.
- `SortUtils`, `CSVReader`, `DecisionTreeDriver`, `DemoTreeVisualizer` and `TreeVisualizer` are not part of this model. They cover I/O, the command-line driver and drawing. The quick sort strategy named in a comment does not exist in the source.
- `Lexicographic.LexLess` compares characters by Unicode code point. Java's `compareTo` compares UTF-16 code units, so the two orders differ for names with characters above U+FFFF. An example is U+FFFF against U+10000. For such names, `DecisionTree.TieGoesToSmallerName` and `DecisionTree.BestFeatureRule` can pick a different feature than Java would.
- Integer overflow of `depth`, `maxDepth` and row counts is not modelled: Dafny integers are unbounded.
