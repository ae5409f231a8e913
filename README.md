# Forest inference of `randomforest_test`, modelled in Dafny

This project models `go/main.go`, the Go half of `randomforest_test`. That program reads a random forest exported from scikit-learn and scores every row of a CSV table with it, in two ways. The table gets two label columns, each appended when absent:

- `go_label` comes from the "unfixed" policy, a majority of the trees' hard votes on the raw sample;
- `fixed_go_label` comes from the "fixed" policy, the arg-max of the trees' averaged class probabilities on the standardized sample.

The model covers:

- the tree walk with its leaf normalisation (`predictTree`);
- both aggregation policies (`predictForestUnfixed` and `predictForestFixed`);
- the standard scaler (`applyStandardScaler`);
- the column bookkeeping and the per-row loop of `main`.

Numbers are Dafny `real`s, so the arithmetic is exact. Each Go function with loops is a Dafny `method` with loops and invariants. Most of them are proved equal to a recursive specification function:

- a tree's walk follows `Trees.Descend`;
- the vote scan follows `Voting.VoteScan`;
- the tally follows `Voting.Tally`;
- the soft-vote loop follows `Voting.ClassVectors` and `Voting.ColumnSum`;
- the feature and parse loops follow `Columns.FeatureColumns` and `Pipeline.ParseSample`.

The others are proved against a predicate or against their old state:

- `Voting.MostVoted` against `Voting.IsMajorityChoice`;
- `Voting.IndexOfMax` against `Voting.IsLowestArgMax`;
- `Voting.AddInto` and `Voting.DivideInPlace` against the array's old contents.

Lemmas then state what those functions mean:

- a leaf's probabilities sum to 1;
- the hard vote is the lowest arg-max;
- the tally counts every tree once;
- the averaged vector sums to 1, and with non-negative leaf counts every entry lies in [0, 1];
- when the soft vote succeeds, reordering the trees changes neither the averaged vector nor the class;
- the scaler round-trips;
- a labelled row fed back through the row loop is reproduced, with the same hard-vote choice, when the input header had both label columns or neither (`Pipeline.RerunReproducesRow`);
- from any input, the third run of the row update reproduces the second (`Columns.ThirdRunEqualsSecond`).

Labelling a table twice does not in general give the same table. With a lone `go_label` column, the first run leaves its old cell in place and the second run overwrites it. On a hard-vote tie, the second run may also pick the other class.

Go's `(value, error)` returns are `Result` values, with one error constructor per kind of `fmt.Errorf` message. `TreeFailed` serves both "error in tree %d" sites (go/main.go:66 and go/main.go:114). Go's map iteration order is unspecified, and the model keeps that freedom. `MostVoted` walks the tally by choosing `c :| c in unseen`, and its contract admits any class with the most votes. So the unfixed policy is specified by the predicate `IsMajorityChoice`, not by a function.

Files and modules:

- `results.dfy` (`Results`): `Result` and `Option`.
- `trees.dfy` (`Trees`): the tree encoding, `predictTree` and its properties.
- `voting.dfy` (`Voting`): both aggregation policies.
- `forest_properties.dfy` (`ForestProperties`): how the policies relate, the averaged vector's sum and bounds, and independence of tree order.
- `scaler.dfy` (`Scaling`): `applyStandardScaler`.
- `columns.dfy` (`Columns`): feature columns, label columns and the row update.
- `pipeline.dfy` (`Pipeline`): the row loop of `main`.
- `scenarios.dfy` (`Scenarios`): worked examples (a one-split tree, two trees that tie, a too-short sample).

## Model

| member | source | states |
|---|---|---|
| Trees.Descend | go/main.go:26-37 | The walk from a node ends at a leaf that is at or after that node. Otherwise it fails with `FeatureOutOfRange(f, len(sample))`, where f ≥ len(sample). |
| Trees.Splits | go/main.go:27-36 | The internal nodes the walk reads, in order. Each one is in range, internal, and at or after the start. |
| Trees.RoutingPath | go/main.go:27-37 | The walk starts at the given node. It is empty exactly when that node is a leaf. Each step goes left when `sample[feature] <= threshold` and right otherwise. It fails exactly when the last split's feature is ≥ the sample length; the error then carries that feature and the length. |
| Trees.TreeProbabilities | go/main.go:25-56 | A success has as many entries as the reached leaf has counts, and at least one. A success also means the walk succeeded. |
| Trees.PredictTree | go/main.go:25-56 | The result equals `TreeProbabilities`: the out-of-range error from the walk; `EmptyLeaf` when the leaf's counts sum to exactly 0; otherwise the counts divided by their sum. |
| Trees.ProbabilitiesSumToOne | go/main.go:41-55 | A successful result sums to 1. With non-negative leaf counts, every entry lies in [0, 1]. |
| Trees.PositiveEntry | go/main.go:47-54 | A vector with a positive sum has a positive entry; used to show that a tree's vote is its arg-max. |
| Trees.ReadsOnlyPath | go/main.go:27-36 | Changing `feature` or `threshold` at nodes the walk does not visit changes neither the result nor the error. |
| Trees.RootLeaf | go/main.go:27-55 | When the root is a leaf, the result is the root's normalised counts (or `EmptyLeaf`), whatever `feature` and `threshold` hold. |
| Trees.SumDivided | go/main.go:51-54 | Dividing every count by d divides their sum by d. |
| Voting.VoteScan | go/main.go:70-77 | The scan's best value is ≥ 0 and ≥ every entry. Its index is 0 when no entry is positive. Otherwise the index is the lowest position of the maximum. |
| Voting.HardVoteMeaning | go/main.go:70-77 | The hard vote is 0 when no entry is positive. Otherwise it is the lowest index of the maximum, and that entry is positive. |
| Voting.TreeVote | go/main.go:70-77 | The per-tree loop returns `HardVote` of its vector. |
| Voting.LowestArgMaxUnique | go/main.go:133-140 | The lowest index of the maximum is unique. |
| Voting.HardVotes | go/main.go:63-80 | A success holds one vote per tree. An error is `TreeFailed` with an in-range tree index. |
| Voting.HardVotesMeaning | go/main.go:63-80 | The votes succeed exactly when every tree does, and vote i is tree i's hard vote. An error carries the first failing tree's index and cause. |
| Voting.HardVotesErrorPersists | go/main.go:65-67 | An error among the first k trees is the whole forest's error: the loop stops there. |
| Voting.TallyMeaning | go/main.go:61-79 | The tally's keys are exactly the classes voted for. Each key's count is that class's number of votes, which is positive. |
| Voting.TallyCountsEveryVote | go/main.go:79 | The counts in the tally add up to the number of votes. |
| Voting.MostVoted | go/main.go:83-90 | Whatever order the map is walked in, the result is 0 for an empty tally and otherwise a class with the maximal count. |
| Voting.PredictForestUnfixed | go/main.go:59-93 | A tree error comes back as `TreeFailed(i, cause)` for the first failing tree. Otherwise the result is a majority class of the tally of the trees' hard votes. |
| Voting.ClassVectors | go/main.go:111-125 | A success holds one vector of `numClasses` entries per tree. An error is a tree failure or a class-count mismatch at an in-range tree. |
| Voting.ClassVectorsMeaning | go/main.go:111-120 | Success happens exactly when every tree succeeds with `numClasses` classes, and entry i is tree i's vector. An error concerns the first bad tree: for a mismatch it carries that tree's count and the expected count, and they differ. |
| Voting.ClassVectorsErrorPersists | go/main.go:112-120 | An error among the first k trees is the whole loop's error. |
| Voting.SoftVoteProbabilities | go/main.go:96-130 | The result is `EmptyForest` exactly for an empty forest. A success means the first tree succeeded, and the result has that tree's positive class count. |
| Voting.ArgMax | go/main.go:133-140 | Returns the lowest index of the maximum. |
| Voting.SoftVote | go/main.go:96-143 | When the averaged vector exists, the class is its lowest arg-max; otherwise the averaging error is returned unchanged. |
| Voting.ColumnSumAppend | go/main.go:122-124 | Adding one tree's vector adds its entry c to the class-c total. |
| Voting.AddInto | go/main.go:122-124 | Each accumulator entry becomes its old value plus the tree's entry. |
| Voting.DivideInPlace | go/main.go:128-130 | The array becomes its old contents divided by the tree count. |
| Voting.IndexOfMax | go/main.go:133-140 | The scan starting at (0, a[0]) returns the lowest index of the maximum. |
| Voting.PredictForestFixed | go/main.go:96-143 | The result equals `SoftVote`: an empty forest gives `EmptyForest`; a failing first tree gives `FirstTreeFailed`; otherwise the loop's first tree error or class-count mismatch; otherwise the lowest arg-max of the averaged vector. |
| ForestProperties.AveragedProbabilitiesSumToOne | go/main.go:122-130 | The averaged vector sums to 1. |
| ForestProperties.AveragedProbabilitiesBounded | go/main.go:122-130 | With non-negative leaf counts in every tree, each averaged entry lies in [0, 1]. |
| ForestProperties.ClassTotalsSum | go/main.go:122-125 | When each tree's vector sums to 1, the per-class totals sum to the number of trees. |
| ForestProperties.ArgMaxIgnoresPositiveDivisor | go/main.go:128-140 | Dividing by a positive tree count does not move the lowest arg-max. |
| ForestProperties.SoftVoteIsArgMaxOfSums | go/main.go:122-140 | The fixed policy's class is the lowest arg-max of the un-averaged per-class totals. |
| ForestProperties.HardVoteIsArgMax | go/main.go:70-77 | On a tree's successful output, the hard-vote scan that starts at 0.0 agrees with the lowest arg-max. |
| ForestProperties.SingleTreePoliciesAgree | go/main.go:59-143 | With one tree, a class is an admissible unfixed answer exactly when it is the fixed answer. |
| ForestProperties.TallyCountsEveryTree | go/main.go:63-80 | The vote counts add up to the number of trees. |
| ForestProperties.EmptyForestPolicies | go/main.go:83-99 | On an empty forest the unfixed policy can only answer 0, and the fixed policy fails with `EmptyForest`. |
| ForestProperties.SumImagePermutation | go/main.go:122-124 | A sum over the trees does not depend on their order. |
| ForestProperties.ColumnSumIsImage | go/main.go:122-124 | The class-j total is the sum over the trees of their entry j. |
| ForestProperties.SoftVoteOrderInvariant | go/main.go:96-143 | When it succeeds, any reordering of the forest gives the same averaged vector and the same class. |
| Scaling.Standardize | go/main.go:145-151 | The output has the sample's length, and `out[i] * scale[i] + mean[i] == sample[i]` for every i. |
| Scaling.UnstandardizeStandardize | go/main.go:145-151 | Unscaling the scaled sample gives back the raw sample. |
| Scaling.StandardizeUnstandardize | go/main.go:145-151 | Scaling an unscaled vector gives it back. |
| Scaling.StandardizeInjective | go/main.go:145-151 | Distinct raw samples have distinct scaled images. |
| Scaling.StandardizeMonotone | go/main.go:148 | With a positive scale, a feature's order is kept, so raw and scaled thresholds correspond. |
| Scaling.IdentityScaler | go/main.go:145-151 | With mean 0 and scale 1, the sample is unchanged. |
| Scaling.ApplyStandardScaler | go/main.go:145-151 | The loop that fills a fresh slice returns `Standardize(sample, params)`. |
| Columns.FeatureColumns | go/main.go:192-197 | Every feature index is in range, and none of them names a reserved column. |
| Columns.FeatureColumnsMeaning | go/main.go:192-197 | The feature indices are increasing, and every non-reserved position is among them. |
| Columns.FeatureIndices | go/main.go:192-197 | The loop returns `FeatureColumns(header)`. |
| Columns.FindLabelColumns | go/main.go:200-209 | Each flag is true exactly when its column name occurs in the header. |
| Columns.WithLabelColumns | go/main.go:212-217 | The old header is a prefix of the new one, both label names are present, and exactly one column is added per missing label. |
| Columns.AddLabelColumns | go/main.go:212-217 | The header update returns `WithLabelColumns(header)`. |
| Columns.UpdatedRow | go/main.go:243-261 | The updated row has the new header's length. |
| Columns.UpdateRow | go/main.go:243-261 | The update loop returns `UpdatedRow(...)`. |
| Columns.UpdatedRowCells | go/main.go:243-261 | Cells outside the label columns keep their values. When both labels or neither are present in the input header, every label cell holds the new label. |
| Columns.MissingLabelCellsAppended | go/main.go:253-260 | Unless both label columns are present, the row is kept unchanged as a prefix, including a cell under a lone label column. Each missing column's cell is appended under that column's new header entry. |
| Columns.LoneLabelColumnKeepsOldCell | go/main.go:244-260 | An instance of `MissingLabelCellsAppended`: for header `["x", "go_label"]` and row `["1.5", "0"]`, the stale "0" is kept and only the `fixed_go_label` cell is appended. |
| Columns.LabelColumnsAreNotFeatures | go/main.go:192-217 | The added label columns are never features, so the output header has the input's feature columns. |
| Columns.WithLabelColumnsIdempotent | go/main.go:212-217 | A second run adds no column. |
| Columns.OverwrittenIdempotent | go/main.go:244-252 | Overwriting twice with the same labels equals overwriting once. |
| Columns.RerunIsStable | go/main.go:212-261 | When both labels or neither are present, a row fed back with the same labels is unchanged. |
| Columns.ThirdRunEqualsSecond | go/main.go:212-261 | From any input, the third run with the same labels reproduces the second. |
| Pipeline.ParseSample | go/main.go:220-227 | A success has one parsed value per feature column. An error names a feature column whose cell does not parse. |
| Pipeline.ParseSampleMeaning | go/main.go:220-227 | Parsing succeeds exactly when every feature cell parses, and the reported column is the leftmost failing one. |
| Pipeline.ExtractSample | go/main.go:220-227 | The parse loop returns `ParseSample(...)`. |
| Pipeline.ParseSampleReadsOnlyIndices | go/main.go:220-227 | The sample depends only on the cells at the feature columns. |
| Pipeline.LabelRow | go/main.go:219-262 | For one row: a parse, unfixed or fixed error, whichever comes first; otherwise the row updated with an admissible `go_label` and the fixed label of the standardized sample. |
| Pipeline.LabelledIsFaultFree | go/main.go:219-262 | A row that could be labelled is one at which the loop cannot stop. |
| Pipeline.LabelTable | go/main.go:186-262 | An empty record list gives `EmptyTable`. A success has the extended header and one labelled row per data record. A failure carries the first failing row and its reason, and every earlier row passes. |
| Pipeline.RerunReproducesRow | go/main.go:192-262 | For a header with both labels or neither, feeding a labelled row back with the same hard-vote choice reproduces it. |
| Scenarios.SplitTreeLeft | go/main.go:25-56 | Root split on feature 0 at 0.5 with leaves [10, 0] and [2, 8]: the sample [0.2] gives [1.0, 0.0]. |
| Scenarios.SplitTreeRight | go/main.go:25-56 | On the same tree, the sample [0.9] gives [0.2, 0.8]. |
| Scenarios.SplitTreeShortSample | go/main.go:29-31 | The empty sample gives `FeatureOutOfRange(0, 0)`. |
| Scenarios.SplitTreePolicies | go/main.go:59-143 | On that one-tree forest both policies give class 0 for [0.2] and class 1 for [0.9]. |
| Scenarios.DisagreeingTrees | go/main.go:59-143 | Two trees with [0.9, 0.1] and [0.1, 0.9] tie 1-1 in the hard votes, so both classes are admissible. Their average is [0.5, 0.5], so the fixed policy answers 0. |

## Left out

- File reading and writing, JSON decoding of the model and the scaler, and CSV parsing and writing are not modelled. The model receives the forest, the scaler and the table as values.
- `strconv.ParseFloat` and `strconv.Itoa` are opaque to the model: `Pipeline` takes them as the parameters `parse` and `format`.
- The accuracy report after the write-back is not modelled. Only the labels it reads are produced.
- `log.Fatal` ending the process is modelled by returning its message's `RunError` / `RowError` / `ForestError`.
- IEEE floating point is not modelled: rounding, NaN and infinities are absent, and `total == 0` is an exact real comparison.
- Trees.WellFormed: Go panics on index errors and loops forever on a cyclic tree. The model instead requires:
  - equal array lengths;
  - children that come after their parent and are in range;
  - a non-negative feature at every internal node.
  scikit-learn's exporter (`python/train_model.py:38-45`) produces trees of this shape.
- Scaling.Covers: `mean` and `scale` must be at least as long as the sample (Go panics otherwise), and `scale` must be non-zero (Go produces ±Inf or NaN).
- Pipeline.Fits: every record has the header's field count. Go's CSV reader enforces this; Go would panic at `row[j]` otherwise.
- Voting.MostVoted: which class Go's map iteration actually picks on a tie is left open. The contract states only that a class with the most votes is chosen.
- Pipeline.LabelTable: the ensures describe rows only through the predicate `Labelled`, because the unfixed label is any admissible majority class.
- The Python training, dataset generation and launcher scripts are not part of this model.

The comment at go/main.go:242 reads "Update or append the prediction columns". The code updates existing cells only when *both* `go_label` and `fixed_go_label` are present (go/main.go:243-244). When only one is present, its cells keep their old values and only the missing column is appended (go/main.go:253-260). The model follows the code:

- `Columns.MissingLabelCellsAppended` states this for every header;
- `Columns.LoneLabelColumnKeepsOldCell` exhibits the stale cell on one row;
- `Columns.UpdatedRowCells` and `Columns.RerunIsStable` state the in-place behaviour where the code provides it, which is when both columns or neither were present.
