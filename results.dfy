/**
 * The result object of a history lookup: table names, columns, the history
 * rows newest first, the change-indicator matrix and the messages.
 */
module Results {
  import opened Schema

  class TemporalViewerResults {
    var baseSchemaName: string
    var baseTableName: string
    var historySchemaName: string
    var historyTableName: string
    var tableColumns: seq<TableColumn>
    var historyInfo: seq<Row>
    var diffInds: seq<seq<bool>>
    var messages: seq<string>

    /** Empty names and empty lists. */
    constructor ()
      ensures baseSchemaName == "" && baseTableName == "" && historySchemaName == "" && historyTableName == ""
      ensures tableColumns == [] && historyInfo == [] && diffInds == [] && messages == []
    {
      baseSchemaName := "";
      baseTableName := "";
      historySchemaName := "";
      historyTableName := "";
      tableColumns := [];
      historyInfo := [];
      diffInds := [];
      messages := [];
    }

    predicate IsValid()
      reads this
    {
      |messages| == 0
    }
  }
}
