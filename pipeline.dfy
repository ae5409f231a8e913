/** The scoring loop of go/main.go:186-262: every data row of the table is
    read at the feature columns, labelled by both policies (the hard vote on
    the raw sample, the soft vote on the standardized one) and written back.
    Reading and writing files, `strconv.ParseFloat` and `strconv.Itoa` are
    outside the model: the table arrives as the CSV reader's records, and the
    two conversions are the parameters `parse` and `format`. */
module Pipeline {
  import opened Results
  import opened Trees
  import opened Voting
  import opened Scaling
  import opened Columns

  /** Why a row cannot be labelled, in the order the Go loop checks. */
  datatype RowError =
    | ParseFailed(column: nat)          // "Failed to parse float at row %d col %d"
    | UnfixedFailed(cause: ForestError) // "Error predicting with unfixed method at row %d"
    | FixedFailed(cause: ForestError)   // "Error predicting with fixed method at row %d"

  /** What ends the run; `row` is the record's index, the row number the log
      message prints. */
  datatype RunError =
    | EmptyTable                        // "CSV is empty"
    | RowFailed(row: nat, cause: RowError)

  datatype Table = Table(header: seq<string>, rows: seq<seq<string>>)

  /** The sample read from `row` at `indices`, or the first column (in `indices`
      order) whose cell does not parse. */
  function ParseSample(row: seq<string>, indices: seq<nat>, parse: string -> Option<real>): (r: Result<seq<real>, nat>)
    requires forall k :: 0 <= k < |indices| ==> indices[k] < |row|
    ensures r.Ok? ==> |r.value| == |indices|
    ensures r.Ok? ==> forall k :: 0 <= k < |indices| ==> parse(row[indices[k]]) == Some(r.value[k])
    ensures r.Err? ==> r.error in indices && r.error < |row| && parse(row[r.error]).None?
    decreases |indices|
  {
    if |indices| == 0 then Ok([])
    else
      var last := |indices| - 1;
      match ParseSample(row, indices[..last], parse)
      case Err(j) => Err(j)
      case Ok(prefix) =>
        match parse(row[indices[last]])
        case None => Err(indices[last])
        case Some(v) => Ok(prefix + [v])
  }

  /** Parsing succeeds exactly when every feature cell parses, and with
      increasing indices the reported column is the leftmost failing one. */
  lemma {:induction false} ParseSampleMeaning(row: seq<string>, indices: seq<nat>, parse: string -> Option<real>)
    requires forall k :: 0 <= k < |indices| ==> indices[k] < |row|
    requires forall k, m :: 0 <= k < m < |indices| ==> indices[k] < indices[m]
    ensures ParseSample(row, indices, parse).Ok? <==> forall k :: 0 <= k < |indices| ==> parse(row[indices[k]]).Some?
    ensures ParseSample(row, indices, parse).Err? ==>
              forall k :: 0 <= k < |indices| && parse(row[indices[k]]).None? ==> ParseSample(row, indices, parse).error <= indices[k]
    decreases |indices|
  {
    if |indices| > 0 {
      var last := |indices| - 1;
      ParseSampleMeaning(row, indices[..last], parse);
      assert forall k :: 0 <= k < last ==> indices[..last][k] == indices[k];
      var r := ParseSample(row, indices[..last], parse);
      if r.Err? {
        assert r.error in indices[..last];
      }
    }
  }

  /** Once a prefix of the columns fails to parse, the whole row fails with the same column. */
  lemma {:induction false} ParseSampleErrorPersists(row: seq<string>, indices: seq<nat>, parse: string -> Option<real>, k: nat)
    requires forall m :: 0 <= m < |indices| ==> indices[m] < |row|
    requires k <= |indices| && ParseSample(row, indices[..k], parse).Err?
    ensures ParseSample(row, indices, parse) == ParseSample(row, indices[..k], parse)
    decreases |indices|
  {
    if k < |indices| {
      var init := indices[..|indices| - 1];
      assert init[..k] == indices[..k];
      ParseSampleErrorPersists(row, init, parse, k);
    } else {
      assert indices[..k] == indices;
    }
  }

  /** The parse loop of go/main.go:220-227. */
  method ExtractSample(row: seq<string>, indices: seq<nat>, parse: string -> Option<real>) returns (r: Result<seq<real>, nat>)
    requires forall k :: 0 <= k < |indices| ==> indices[k] < |row|
    ensures r == ParseSample(row, indices, parse)
  {
    var sample: seq<real> := [];
    for k := 0 to |indices|
      invariant ParseSample(row, indices[..k], parse) == Ok(sample)
    {
      assert indices[..k + 1][..k] == indices[..k];
      var v := parse(row[indices[k]]);
      if v.None? {
        ParseSampleErrorPersists(row, indices, parse, k + 1);
        return Err(indices[k]);
      }
      sample := sample + [v.value];
    }
    assert indices[..|indices|] == indices;
    return Ok(sample);
  }

  /** The preconditions of the row loop: the CSV reader gives every record the
      header's field count, and the scaler covers the feature columns. */
  predicate Fits(scaler: ScalerParams, header: seq<string>, row: seq<string>) {
    |row| == |header| && Covers(scaler, |FeatureColumns(header)|)
  }

  /** The first thing that stops `row` from being labelled, if any. */
  function RowFault(forest: seq<Tree>, scaler: ScalerParams, header: seq<string>, row: seq<string>,
                    parse: string -> Option<real>): Option<RowError>
    requires WellFormedForest(forest) && Fits(scaler, header, row)
  {
    match ParseSample(row, FeatureColumns(header), parse)
    case Err(j) => Some(ParseFailed(j))
    case Ok(sample) =>
      match HardVotes(TreeOutcomes(forest, sample))
      case Err(e) => Some(UnfixedFailed(e))
      case Ok(_) =>
        match SoftVote(forest, Standardize(sample, scaler))
        case Err(e) => Some(FixedFailed(e))
        case Ok(_) => None
  }

  /** `out` is `row` labelled with hard-vote class `goLabel` — a majority class
      of the raw sample's tally — and with the soft-vote class of the
      standardized sample. */
  predicate LabelledWith(forest: seq<Tree>, scaler: ScalerParams, header: seq<string>, row: seq<string>,
                         parse: string -> Option<real>, format: nat -> string, goLabel: nat, out: seq<string>)
    requires WellFormedForest(forest) && Fits(scaler, header, row)
  {
    && ParseSample(row, FeatureColumns(header), parse).Ok?
    && var sample := ParseSample(row, FeatureColumns(header), parse).value;
    && HardVotes(TreeOutcomes(forest, sample)).Ok?
    && IsMajorityChoice(Tally(HardVotes(TreeOutcomes(forest, sample)).value), goLabel)
    && SoftVote(forest, Standardize(sample, scaler)).Ok?
    && out == UpdatedRow(header, row, format(goLabel), format(SoftVote(forest, Standardize(sample, scaler)).value))
  }

  /** `out` is `row` labelled by one of the admissible hard-vote classes. */
  ghost predicate Labelled(forest: seq<Tree>, scaler: ScalerParams, header: seq<string>, row: seq<string>,
                           parse: string -> Option<real>, format: nat -> string, out: seq<string>)
  {
    && WellFormedForest(forest)
    && Fits(scaler, header, row)
    && exists g: nat :: LabelledWith(forest, scaler, header, row, parse, format, g, out)
  }

  /** A labelled row is one the loop does not stop at. */
  lemma LabelledIsFaultFree(forest: seq<Tree>, scaler: ScalerParams, header: seq<string>, row: seq<string>,
                            parse: string -> Option<real>, format: nat -> string, out: seq<string>)
    requires Labelled(forest, scaler, header, row, parse, format, out)
    ensures RowFault(forest, scaler, header, row, parse) == None
  {
    var g: nat :| LabelledWith(forest, scaler, header, row, parse, format, g, out);
  }

  /** One pass of the row loop, go/main.go:219-262. */
  method LabelRow(forest: seq<Tree>, scaler: ScalerParams, header: seq<string>, featureIndices: seq<nat>,
                  hasGoLabel: bool, hasFixedGoLabel: bool, row: seq<string>,
                  parse: string -> Option<real>, format: nat -> string) returns (r: Result<seq<string>, RowError>)
    requires WellFormedForest(forest) && Fits(scaler, header, row)
    requires featureIndices == FeatureColumns(header)
    requires hasGoLabel <==> GoLabelColumn in header
    requires hasFixedGoLabel <==> FixedGoLabelColumn in header
    ensures r.Err? ==> RowFault(forest, scaler, header, row, parse) == Some(r.error)
    ensures r.Ok? ==> Labelled(forest, scaler, header, row, parse, format, r.value)
  {
    var sample := ExtractSample(row, featureIndices, parse);
    if sample.Err? {
      return Err(ParseFailed(sample.error));
    }
    var goLabel := PredictForestUnfixed(forest, sample.value);
    if goLabel.Err? {
      return Err(UnfixedFailed(goLabel.error));
    }
    var scaledSample := ApplyStandardScaler(sample.value, scaler);
    var fixedLabel := PredictForestFixed(forest, scaledSample);
    if fixedLabel.Err? {
      return Err(FixedFailed(fixedLabel.error));
    }
    var updated := UpdateRow(header, row, hasGoLabel, hasFixedGoLabel, format(goLabel.value), format(fixedLabel.value));
    assert LabelledWith(forest, scaler, header, row, parse, format, goLabel.value, updated);
    return Ok(updated);
  }

  /** The records a run may be given: each has the header's field count (the
      CSV reader enforces it) and the scaler covers the feature columns. */
  predicate Admissible(scaler: ScalerParams, records: seq<seq<string>>) {
    |records| > 0 ==> forall i :: 0 <= i < |records| ==> Fits(scaler, records[0], records[i])
  }

  /** `ys[k]` stands in relation `rel` to `xs[k + 1]` for every `k`: the data
      records of a table, which follow its header, and the rows made of them. */
  ghost predicate RelatedAfterHeader<X, Y>(rel: (X, Y) -> bool, xs: seq<X>, ys: seq<Y>) {
    |ys| < |xs| && forall k :: 0 <= k < |ys| ==> rel(xs[k + 1], ys[k])
  }

  lemma RelatedAfterHeaderExtend<X, Y>(rel: (X, Y) -> bool, xs: seq<X>, ys: seq<Y>, y: Y)
    requires RelatedAfterHeader(rel, xs, ys) && |ys| + 1 < |xs| && rel(xs[|ys| + 1], y)
    ensures RelatedAfterHeader(rel, xs, ys + [y])
  {
    var extended := ys + [y];
    forall k | 0 <= k < |extended| ensures rel(xs[k + 1], extended[k]) {
      if k < |ys| {
        assert extended[k] == ys[k];
      }
    }
  }

  /** go/main.go:186-262: the labelled table, or the first reason a run stops. */
  method LabelTable(forest: seq<Tree>, scaler: ScalerParams, records: seq<seq<string>>,
                    parse: string -> Option<real>, format: nat -> string) returns (r: Result<Table, RunError>)
    requires WellFormedForest(forest) && Admissible(scaler, records)
    ensures |records| == 0 <==> r == Err(EmptyTable)
    ensures r.Ok? ==> r.value.header == WithLabelColumns(records[0]) && |r.value.rows| == |records| - 1
    ensures r.Ok? ==> forall k :: 0 <= k < |r.value.rows| ==>
              Labelled(forest, scaler, records[0], records[k + 1], parse, format, r.value.rows[k])
    ensures r.Err? && r.error.RowFailed? ==>
              && 1 <= r.error.row < |records|
              && RowFault(forest, scaler, records[0], records[r.error.row], parse) == Some(r.error.cause)
              && forall i :: 1 <= i < r.error.row ==> RowFault(forest, scaler, records[0], records[i], parse) == None
  {
    if |records| < 1 {
      return Err(EmptyTable);
    }
    var header := records[0];
    var featureIndices := FeatureIndices(header);
    var hasGoLabel, hasFixedGoLabel := FindLabelColumns(header);
    var newHeader := AddLabelColumns(header, hasGoLabel, hasFixedGoLabel);
    ghost var labelled := (row: seq<string>, out: seq<string>) => Labelled(forest, scaler, header, row, parse, format, out);
    var rows: seq<seq<string>> := [];
    for i := 1 to |records|
      invariant |rows| == i - 1
      invariant RelatedAfterHeader(labelled, records, rows)
    {
      var row := LabelRow(forest, scaler, header, featureIndices, hasGoLabel, hasFixedGoLabel, records[i], parse, format);
      if row.Err? {
        forall k | 1 <= k < i ensures RowFault(forest, scaler, header, records[k], parse) == None {
          assert labelled(records[k - 1 + 1], rows[k - 1]);
          LabelledIsFaultFree(forest, scaler, header, records[k], parse, format, rows[k - 1]);
        }
        return Err(RowFailed(i, row.error));
      }
      assert labelled(records[i], row.value);
      RelatedAfterHeaderExtend(labelled, records, rows, row.value);
      rows := rows + [row.value];
    }
    forall k | 0 <= k < |rows| ensures Labelled(forest, scaler, header, records[k + 1], parse, format, rows[k]) {
      assert labelled(records[k + 1], rows[k]);
    }
    return Ok(Table(newHeader, rows));
  }

  // ---------------------------------------------------------------------------
  // Re-running on the output

  /** Parsing looks only at the feature cells. */
  lemma {:induction false} ParseSampleReadsOnlyIndices(row: seq<string>, other: seq<string>, indices: seq<nat>,
                                                      parse: string -> Option<real>)
    requires forall k :: 0 <= k < |indices| ==> indices[k] < |row| && indices[k] < |other|
    requires forall k :: 0 <= k < |indices| ==> row[indices[k]] == other[indices[k]]
    ensures ParseSample(row, indices, parse) == ParseSample(other, indices, parse)
    decreases |indices|
  {
    if |indices| > 0 {
      ParseSampleReadsOnlyIndices(row, other, indices[..|indices| - 1], parse);
    }
  }

  /** Feeding a labelled row back through the loop, with the output header and
      the same hard-vote choice, reproduces it cell for cell — provided the
      original header had both prediction columns or neither. */
  lemma RerunReproducesRow(forest: seq<Tree>, scaler: ScalerParams, header: seq<string>, row: seq<string>,
                           parse: string -> Option<real>, format: nat -> string, goLabel: nat, out: seq<string>)
    requires WellFormedForest(forest) && Fits(scaler, header, row)
    requires LabelledWith(forest, scaler, header, row, parse, format, goLabel, out)
    requires GoLabelColumn in header <==> FixedGoLabelColumn in header
    ensures Fits(scaler, WithLabelColumns(header), out)
    ensures LabelledWith(forest, scaler, WithLabelColumns(header), out, parse, format, goLabel, out)
  {
    var h := WithLabelColumns(header);
    var idx := FeatureColumns(header);
    LabelColumnsAreNotFeatures(header);
    var sample := ParseSample(row, idx, parse).value;
    var fixedCell := format(SoftVote(forest, Standardize(sample, scaler)).value);
    assert out == UpdatedRow(header, row, format(goLabel), fixedCell);
    UpdatedRowCells(header, row, format(goLabel), fixedCell);
    assert |out| == |h|;
    forall k | 0 <= k < |idx| ensures idx[k] < |out| && out[idx[k]] == row[idx[k]] {
      assert !Reserved(header[idx[k]]);
    }
    ParseSampleReadsOnlyIndices(row, out, idx, parse);
    RerunIsStable(header, row, format(goLabel), fixedCell);
    assert ParseSample(out, FeatureColumns(h), parse) == Ok(sample);
  }
}
