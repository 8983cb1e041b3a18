/**
 * The pair loop shared by the delta list and the column history: walk the
 * history newest first, fill the reused compare dictionary from row `i`
 * (new side) and row `i + 1` (old side), run the switch over the table
 * columns, and keep the row delta when it lists a change.
 */
module PairScan {
  import opened Schema
  import opened Compare
  import opened DiffEngine

  /** The row deltas of all changed pairs, newest first, for the columns `f` tracks. */
  method ScanDeltas(h: seq<Row>, cols: seq<TableColumn>, f: ColumnFilter) returns (deltas: seq<DeltaInfo>)
    requires RowsCover(h, cols)
    ensures deltas == Deltas(h, cols, f)
  {
    deltas := [];
    var dict := new CompareDictionary();
    var i := 0;
    while i < |h| - 1
      invariant 0 <= i <= PairCount(h)
      invariant deltas == DeltasUpTo(h, cols, f, i)
    {
      var newer := h[i];
      var older := h[i + 1];
      ghost var prior := dict.compareDict;
      dict.PopulateCompareDictionary(newer, true);
      dict.PopulateCompareDictionary(older, false);
      var rowDelta := FreshDelta;
      var j := 0;
      while j < |cols|
        invariant 0 <= j <= |cols|
        invariant dict.compareDict == Populated(Populated(prior, newer, true), older, false)
        invariant rowDelta == RowDeltaUpTo(newer, older, cols, f, j)
      {
        var col := cols[j];
        PopulatedPairRefresh(prior, newer, older, col.columnName);
        var cc := dict.compareDict[col.columnName];
        if col.generatedType == Regular {
          if Tracks(f, col.columnName) && cc.newValue != cc.oldValue {
            rowDelta := rowDelta.(changedColumns := rowDelta.changedColumns + [DeltaColumn(col.columnName, cc.oldValue, cc.newValue)]);
          }
        } else if col.generatedType == PeriodStart {
          rowDelta := rowDelta.(startDate := cc.newValue);
        } else if col.generatedType == PeriodEnd {
          rowDelta := rowDelta.(endDate := cc.newValue);
        }
        j := j + 1;
      }
      if |rowDelta.changedColumns| > 0 {
        deltas := deltas + [rowDelta];
      }
      i := i + 1;
    }
  }
}
