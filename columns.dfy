/** The column bookkeeping of the scoring driver (go/main.go:191-262): which
    header positions are features, and how the two prediction columns
    `go_label` and `fixed_go_label` are added to the header and written into
    each row. Cells are strings, the values the CSV reader produces. */
module Columns {

  const LabelColumn := "label"
  const PythonLabelColumn := "python_label"
  const GoLabelColumn := "go_label"
  const FixedGoLabelColumn := "fixed_go_label"

  /** The four names that are never features. */
  predicate Reserved(name: string) {
    name == LabelColumn || name == PythonLabelColumn || name == GoLabelColumn || name == FixedGoLabelColumn
  }

  /** The feature columns: every header position whose name is not reserved,
      in header order. */
  function FeatureColumns(header: seq<string>): (idx: seq<nat>)
    ensures forall k :: 0 <= k < |idx| ==> idx[k] < |header| && !Reserved(header[idx[k]])
    decreases |header|
  {
    if |header| == 0 then []
    else
      var last := |header| - 1;
      FeatureColumns(header[..last]) + if Reserved(header[last]) then [] else [last]
  }

  /** The feature indices are increasing and every non-reserved position is
      among them. */
  lemma {:induction false} FeatureColumnsMeaning(header: seq<string>)
    ensures var idx := FeatureColumns(header);
      && (forall k, m :: 0 <= k < m < |idx| ==> idx[k] < idx[m])
      && (forall j :: 0 <= j < |header| && !Reserved(header[j]) ==> j in idx)
    decreases |header|
  {
    if |header| > 0 {
      var last := |header| - 1;
      var init := header[..last];
      FeatureColumnsMeaning(init);
      assert forall j :: 0 <= j < last ==> init[j] == header[j];
    }
  }

  /** The loop of go/main.go:192-197. */
  method FeatureIndices(header: seq<string>) returns (featureIndices: seq<nat>)
    ensures featureIndices == FeatureColumns(header)
  {
    featureIndices := [];
    for i := 0 to |header|
      invariant featureIndices == FeatureColumns(header[..i])
    {
      assert header[..i + 1][..i] == header[..i];
      if !Reserved(header[i]) {
        featureIndices := featureIndices + [i];
      }
    }
    assert header[..|header|] == header;
  }

  /** The loop of go/main.go:200-209. */
  method FindLabelColumns(header: seq<string>) returns (hasGoLabel: bool, hasFixedGoLabel: bool)
    ensures hasGoLabel <==> GoLabelColumn in header
    ensures hasFixedGoLabel <==> FixedGoLabelColumn in header
  {
    hasGoLabel, hasFixedGoLabel := false, false;
    for i := 0 to |header|
      invariant hasGoLabel <==> GoLabelColumn in header[..i]
      invariant hasFixedGoLabel <==> FixedGoLabelColumn in header[..i]
    {
      assert header[..i + 1] == header[..i] + [header[i]];
      if header[i] == GoLabelColumn {
        hasGoLabel := true;
      }
      if header[i] == FixedGoLabelColumn {
        hasFixedGoLabel := true;
      }
    }
    assert header[..|header|] == header;
  }

  /** The output header: the input header with each missing prediction column
      appended, `go_label` first. */
  function WithLabelColumns(header: seq<string>): (h: seq<string>)
    ensures |header| <= |h| && h[..|header|] == header
    ensures GoLabelColumn in h && FixedGoLabelColumn in h
    ensures |h| == |header| + (if GoLabelColumn in header then 0 else 1) + (if FixedGoLabelColumn in header then 0 else 1)
  {
    var withGo := if GoLabelColumn in header then header else header + [GoLabelColumn];
    assert GoLabelColumn in withGo;
    if FixedGoLabelColumn in header then withGo else withGo + [FixedGoLabelColumn]
  }

  /** The header update of go/main.go:212-217. */
  method AddLabelColumns(header: seq<string>, hasGoLabel: bool, hasFixedGoLabel: bool) returns (newHeader: seq<string>)
    requires hasGoLabel <==> GoLabelColumn in header
    requires hasFixedGoLabel <==> FixedGoLabelColumn in header
    ensures newHeader == WithLabelColumns(header)
  {
    newHeader := header;
    if !hasGoLabel {
      newHeader := newHeader + [GoLabelColumn];
    }
    if !hasFixedGoLabel {
      newHeader := newHeader + [FixedGoLabelColumn];
    }
  }

  /** Both prediction columns present: every `go_label` and `fixed_go_label`
      cell is overwritten, every other cell kept. */
  function Overwritten(header: seq<string>, row: seq<string>, goCell: string, fixedCell: string): seq<string>
    requires |row| == |header|
  {
    seq(|row|, j requires 0 <= j < |row| =>
      if header[j] == GoLabelColumn then goCell else if header[j] == FixedGoLabelColumn then fixedCell else row[j])
  }

  /** A row after the labelling step: with both prediction columns in the input
      header their cells are overwritten; otherwise the cell of each *missing*
      column is appended and the row is otherwise left as it was. */
  function UpdatedRow(header: seq<string>, row: seq<string>, goCell: string, fixedCell: string): (r: seq<string>)
    requires |row| == |header|
    ensures |r| == |WithLabelColumns(header)|
  {
    if GoLabelColumn in header && FixedGoLabelColumn in header then Overwritten(header, row, goCell, fixedCell)
    else
      row + (if GoLabelColumn in header then [] else [goCell]) + (if FixedGoLabelColumn in header then [] else [fixedCell])
  }

  /** The row update of go/main.go:243-262. */
  method UpdateRow(header: seq<string>, row: seq<string>, hasGoLabel: bool, hasFixedGoLabel: bool,
                   goCell: string, fixedCell: string) returns (updated: seq<string>)
    requires |row| == |header|
    requires hasGoLabel <==> GoLabelColumn in header
    requires hasFixedGoLabel <==> FixedGoLabelColumn in header
    ensures updated == UpdatedRow(header, row, goCell, fixedCell)
  {
    updated := row;
    if hasGoLabel && hasFixedGoLabel {
      for j := 0 to |header|
        invariant |updated| == |row|
        invariant forall k :: 0 <= k < j ==> updated[k] == Overwritten(header, row, goCell, fixedCell)[k]
        invariant forall k :: j <= k < |row| ==> updated[k] == row[k]
      {
        if header[j] == GoLabelColumn {
          updated := updated[j := goCell];
        }
        if header[j] == FixedGoLabelColumn {
          updated := updated[j := fixedCell];
        }
      }
    } else {
      if !hasGoLabel {
        updated := updated + [goCell];
      }
      if !hasFixedGoLabel {
        updated := updated + [fixedCell];
      }
    }
  }

  // ---------------------------------------------------------------------------
  // Properties

  /** The prediction columns are never read back as features, so a labelled
      table has the same feature columns as its input. */
  lemma LabelColumnsAreNotFeatures(header: seq<string>)
    ensures FeatureColumns(WithLabelColumns(header)) == FeatureColumns(header)
  {
    var h := WithLabelColumns(header);
    var withGo := if GoLabelColumn in header then header else header + [GoLabelColumn];
    FeatureColumnsOfReservedSuffix(header, withGo);
    FeatureColumnsOfReservedSuffix(withGo, h);
  }

  lemma FeatureColumnsOfReservedSuffix(header: seq<string>, extended: seq<string>)
    requires |header| <= |extended| && extended[..|header|] == header
    requires |extended| <= |header| + 1
    requires forall j :: |header| <= j < |extended| ==> Reserved(extended[j])
    ensures FeatureColumns(extended) == FeatureColumns(header)
  {
    if |extended| > |header| {
      assert extended[..|extended| - 1] == header;
    }
  }

  /** The header update is idempotent: a second run adds no column. */
  lemma WithLabelColumnsIdempotent(header: seq<string>)
    ensures WithLabelColumns(WithLabelColumns(header)) == WithLabelColumns(header)
  {
  }

  /** Every cell left of the appended ones that does not sit under a prediction
      column keeps its value, and with both prediction columns present or both
      absent every prediction cell holds the new label. */
  lemma UpdatedRowCells(header: seq<string>, row: seq<string>, goCell: string, fixedCell: string)
    requires |row| == |header|
    ensures var r, h := UpdatedRow(header, row, goCell, fixedCell), WithLabelColumns(header);
      && (forall j :: 0 <= j < |header| && header[j] != GoLabelColumn && header[j] != FixedGoLabelColumn ==> r[j] == row[j])
      && ((GoLabelColumn in header <==> FixedGoLabelColumn in header) ==>
            forall j :: 0 <= j < |r| ==>
              (h[j] == GoLabelColumn ==> r[j] == goCell) && (h[j] == FixedGoLabelColumn ==> r[j] == fixedCell))
  {
    var r, h := UpdatedRow(header, row, goCell, fixedCell), WithLabelColumns(header);
    if GoLabelColumn !in header && FixedGoLabelColumn !in header {
      assert h == header + [GoLabelColumn, FixedGoLabelColumn];
      assert r == row + [goCell, fixedCell];
    }
  }

  /** Unless both prediction columns are present, no cell of the row changes,
      not even one under a lone prediction column; the cell of each missing
      column is appended under that column's new header entry. */
  lemma MissingLabelCellsAppended(header: seq<string>, row: seq<string>, goCell: string, fixedCell: string)
    requires |row| == |header|
    requires !(GoLabelColumn in header && FixedGoLabelColumn in header)
    ensures var r, h := UpdatedRow(header, row, goCell, fixedCell), WithLabelColumns(header);
      && |r| == |h|
      && r[..|row|] == row
      && (GoLabelColumn !in header ==> h[|row|] == GoLabelColumn && r[|row|] == goCell)
      && (FixedGoLabelColumn !in header ==> h[|h| - 1] == FixedGoLabelColumn && r[|r| - 1] == fixedCell)
  {
    var r := UpdatedRow(header, row, goCell, fixedCell);
    assert r[..|row|] == row;
  }

  /** An instance of `MissingLabelCellsAppended`: with only `go_label` present, its cells are not rewritten: the new row
      keeps the stale value "0" under `go_label` even though the new label is "1". */
  lemma LoneLabelColumnKeepsOldCell()
    ensures UpdatedRow(["x", GoLabelColumn], ["1.5", "0"], "1", "1") == ["1.5", "0", "1"]
    ensures WithLabelColumns(["x", GoLabelColumn]) == ["x", GoLabelColumn, FixedGoLabelColumn]
  {
    assert GoLabelColumn in ["x", GoLabelColumn];
    assert FixedGoLabelColumn !in ["x", GoLabelColumn];
  }

  /** Overwriting is idempotent. */
  lemma OverwrittenIdempotent(header: seq<string>, row: seq<string>, goCell: string, fixedCell: string)
    requires |row| == |header|
    ensures Overwritten(header, Overwritten(header, row, goCell, fixedCell), goCell, fixedCell) ==
            Overwritten(header, row, goCell, fixedCell)
  {
  }

  /** Feeding a labelled row back with the same labels changes nothing, unless
      exactly one prediction column was present in the original input. */
  lemma RerunIsStable(header: seq<string>, row: seq<string>, goCell: string, fixedCell: string)
    requires |row| == |header|
    requires GoLabelColumn in header <==> FixedGoLabelColumn in header
    ensures var once := UpdatedRow(header, row, goCell, fixedCell);
      UpdatedRow(WithLabelColumns(header), once, goCell, fixedCell) == once
  {
    var h := WithLabelColumns(header);
    var once := UpdatedRow(header, row, goCell, fixedCell);
    UpdatedRowCells(header, row, goCell, fixedCell);
    assert GoLabelColumn in h && FixedGoLabelColumn in h;
    assert Overwritten(h, once, goCell, fixedCell) == once;
  }

  /** From any input, the second and every later run with the same labels
      produce the same row: after one run both prediction columns exist. */
  lemma ThirdRunEqualsSecond(header: seq<string>, row: seq<string>, goCell: string, fixedCell: string)
    requires |row| == |header|
    ensures var h := WithLabelColumns(header);
      var twice := UpdatedRow(h, UpdatedRow(header, row, goCell, fixedCell), goCell, fixedCell);
      UpdatedRow(WithLabelColumns(h), twice, goCell, fixedCell) == twice
  {
    var h := WithLabelColumns(header);
    assert GoLabelColumn in h && FixedGoLabelColumn in h;
    WithLabelColumnsIdempotent(header);
    OverwrittenIdempotent(h, UpdatedRow(header, row, goCell, fixedCell), goCell, fixedCell);
  }
}
