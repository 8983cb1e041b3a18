/**
 * The delta view: for each adjacent pair of history rows in which a regular
 * column changed, the changed columns with their old and new values and the
 * newer row's period start and end, as captured (no end-date clean-up).
 */
module DeltaResults {
  import opened Schema
  import opened DiffEngine
  import opened PairScan
  import opened Results

  class TemporalViewerDeltaResults {
    var baseSchemaName: string
    var baseTableName: string
    var historySchemaName: string
    var historyTableName: string
    var tableColumns: seq<TableColumn>
    var delta: seq<DeltaInfo>
    var messages: seq<string>

    /** Copies names, columns and messages from the lookup result and computes the delta list from its rows. */
    constructor (results: TemporalViewerResults)
      requires RowsCover(results.historyInfo, results.tableColumns)
      ensures baseSchemaName == results.baseSchemaName && baseTableName == results.baseTableName
      ensures historySchemaName == results.historySchemaName && historyTableName == results.historyTableName
      ensures tableColumns == results.tableColumns && messages == results.messages
      ensures delta == Deltas(results.historyInfo, results.tableColumns, AllColumns)
      ensures IsValid() <==> results.messages == []
    {
      baseSchemaName := results.baseSchemaName;
      baseTableName := results.baseTableName;
      historySchemaName := results.historySchemaName;
      historyTableName := results.historyTableName;
      tableColumns := results.tableColumns;
      var computed := PopulateDelta(results);
      delta := computed;
      messages := results.messages;
    }

    predicate IsValid()
      reads this
    {
      |messages| == 0
    }

    /** Every changed pair's delta over all regular columns, newest first. */
    static method PopulateDelta(results: TemporalViewerResults) returns (deltaInfo: seq<DeltaInfo>)
      requires RowsCover(results.historyInfo, results.tableColumns)
      ensures deltaInfo == Deltas(results.historyInfo, results.tableColumns, AllColumns)
    {
      deltaInfo := ScanDeltas(results.historyInfo, results.tableColumns, AllColumns);
    }
  }
}
