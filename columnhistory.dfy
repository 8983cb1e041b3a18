/**
 * The column-history view: the deltas of the pairs in which one named
 * regular column changed, followed by the end-date clean-up that makes each
 * entry end where the next newer change starts.
 */
module ColumnHistoryResults {
  import opened Values
  import opened Schema
  import opened DiffEngine
  import opened PairScan
  import opened Results

  class TemporalViewerColumnHistoryResults {
    var baseSchemaName: string
    var baseTableName: string
    var historySchemaName: string
    var historyTableName: string
    var columnInfo: Option<TableColumn>
    var columnHistory: seq<DeltaInfo>
    var messages: seq<string>

    /**
     * Copies names and messages, looks the column up by name, and builds its
     * history. The clean-up reads the first change unguarded, so the column
     * must have changed at least once.
     */
    constructor (results: TemporalViewerResults, columnName: string)
      requires RowsCover(results.historyInfo, results.tableColumns)
      requires Deltas(results.historyInfo, results.tableColumns, OnlyColumn(columnName)) != []
      ensures baseSchemaName == results.baseSchemaName && baseTableName == results.baseTableName
      ensures historySchemaName == results.historySchemaName && historyTableName == results.historyTableName
      ensures columnInfo == FindColumn(results.tableColumns, columnName)
      ensures columnHistory == Stitched(Deltas(results.historyInfo, results.tableColumns, OnlyColumn(columnName)))
      ensures messages == results.messages
      ensures IsValid() <==> results.messages == []
    {
      baseSchemaName := results.baseSchemaName;
      baseTableName := results.baseTableName;
      historySchemaName := results.historySchemaName;
      historyTableName := results.historyTableName;
      columnInfo := FindColumn(results.tableColumns, columnName);
      var history := PopulateColumnHistory(results, columnName);
      columnHistory := history.value;
      messages := results.messages;
    }

    predicate IsValid()
      reads this
    {
      |messages| == 0
    }

    /**
     * The stitched changes of the named column, or `None` where the code
     * fails on an empty change list (fewer than two rows, a column that
     * never changed, or a name that is no regular column).
     */
    static method PopulateColumnHistory(results: TemporalViewerResults, columnName: string) returns (r: Option<seq<DeltaInfo>>)
      requires RowsCover(results.historyInfo, results.tableColumns)
      ensures r.None? <==> Deltas(results.historyInfo, results.tableColumns, OnlyColumn(columnName)) == []
      ensures r.Some? ==> r.value == Stitched(Deltas(results.historyInfo, results.tableColumns, OnlyColumn(columnName)))
    {
      var colHistoryInfo := ScanDeltas(results.historyInfo, results.tableColumns, OnlyColumn(columnName));
      if colHistoryInfo == [] {
        return None;
      }
      colHistoryInfo := StitchEndDates(colHistoryInfo);
      return Some(colHistoryInfo);
    }

    /** The clean-up pass: each entry's end is overwritten with the start carried from the entry before it. */
    static method StitchEndDates(entries: seq<DeltaInfo>) returns (items: seq<DeltaInfo>)
      requires entries != []
      ensures items == Stitched(entries)
    {
      StitchFromAt(entries, entries[0].endDate);
      items := entries;
      var lastStartDate := entries[0].endDate;
      var k := 0;
      while k < |items|
        invariant 0 <= k <= |items| == |entries|
        invariant items[..k] == Stitched(entries)[..k]
        invariant items[k..] == entries[k..]
        invariant lastStartDate == if k == 0 then entries[0].endDate else entries[k - 1].startDate
      {
        var item := items[k];
        assert item == entries[k] by {
          assert items[k..][0] == entries[k..][0];
        }
        item := item.(endDate := if item.endDate == lastStartDate then item.endDate else lastStartDate);
        items := items[k := item];
        lastStartDate := item.startDate;
        k := k + 1;
      }
      assert items == items[..k];
    }
  }
}
