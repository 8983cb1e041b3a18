/**
 * The metadata and request records the diff engine consumes: table columns
 * with their generation role, primary-key columns, the caller's lookup
 * entries, the base/history table pair, and rows as read from the database.
 */
module Schema {
  import opened Values

  /** `GeneratedType` of a column: 0 regular, 1 period start, 2 period end. */
  const Regular := 0
  const PeriodStart := 1
  const PeriodEnd := 2

  datatype TableColumn = TableColumn(
    columnName: string,
    columnId: int,
    columnTypeName: string,
    maxLen: int,
    precision: int,
    scale: int,
    isNullable: bool,
    isIdentity: bool,
    generatedType: int)

  datatype PrimaryKeyColumn = PrimaryKeyColumn(columnName: string, columnType: string)

  /** One lookup entry of a request: the caller's column name, claimed type and raw value. */
  datatype PrimaryKeyColumnInput = PrimaryKeyColumnInput(columnName: string, columnType: string, inputValue: string)

  datatype TemporalViewerRequest = TemporalViewerRequest(
    schemaName: string,
    tableName: string,
    lookupInfo: seq<PrimaryKeyColumnInput>)

  datatype TemporalTable = TemporalTable(
    baseSchemaName: string,
    baseTableName: string,
    baseTableObjectId: int,
    historySchemaName: string,
    historyTableName: string,
    historyTableObjectId: int)

  const EmptyTemporalTable := TemporalTable("", "", 0, "", "", 0)

  /** A lookup entry that passed validation, carrying its coerced value (bound as `@columnName`). */
  datatype LookupParam = LookupParam(columnName: string, columnType: string, inputValue: Value)

  /** One row of the unioned history query: column name to value. */
  type Row = map<string, Value>

  /**
   * LINQ `FirstOrDefault(predicate)`: the first element satisfying `p`,
   * or `None` where .NET yields null.
   */
  function FirstOrNone<T>(s: seq<T>, p: T -> bool): Option<T>
  {
    if s == [] then None
    else if p(s[0]) then Some(s[0])
    else FirstOrNone(s[1..], p)
  }

  /**
   * `FirstOrNone` finds nothing exactly when no element satisfies `p`, and
   * otherwise returns an element that satisfies `p` with none before it.
   */
  lemma {:induction false} FirstOrNoneSpec<T>(s: seq<T>, p: T -> bool)
    ensures FirstOrNone(s, p).None? <==> forall i :: 0 <= i < |s| ==> !p(s[i])
    ensures FirstOrNone(s, p).Some? ==>
      exists i :: 0 <= i < |s| && s[i] == FirstOrNone(s, p).value && p(s[i]) && forall j :: 0 <= j < i ==> !p(s[j])
  {
    if s != [] && !p(s[0]) {
      FirstOrNoneSpec(s[1..], p);
      assert forall i :: 1 <= i < |s| ==> s[i] == s[1..][i - 1];
      if FirstOrNone(s, p).Some? {
        var k :| 0 <= k < |s[1..]| && s[1..][k] == FirstOrNone(s, p).value && p(s[1..][k]) &&
          forall j :: 0 <= j < k ==> !p(s[1..][j]);
        assert s[k + 1] == FirstOrNone(s, p).value;
        forall j | 0 <= j < k + 1
          ensures !p(s[j])
        {
          if j > 0 {
            assert s[j] == s[1..][j - 1];
          }
        }
      }
    }
  }

  /** The table column a name refers to, as `tableColumns.FirstOrDefault(c => c.ColumnName == name)`. */
  function FindColumn(cols: seq<TableColumn>, name: string): Option<TableColumn>
  {
    FirstOrNone(cols, (c: TableColumn) => c.columnName == name)
  }

  predicate HasColumn(cols: seq<TableColumn>, name: string)
  {
    exists i :: 0 <= i < |cols| && cols[i].columnName == name
  }

  predicate IsPeriodStart(c: TableColumn)
  {
    c.generatedType == PeriodStart
  }

  /** Column names are unique within a table. */
  predicate UniqueNames(cols: seq<TableColumn>)
  {
    forall i, j :: 0 <= i < j < |cols| ==> cols[i].columnName != cols[j].columnName
  }

  /** The row carries every one of the columns. */
  predicate Covers(row: Row, cols: seq<TableColumn>)
  {
    forall c :: c in cols ==> c.columnName in row
  }

  /**
   * Every row carries every table column: the history query projects
   * exactly the table's columns, so the code indexes rows by column name
   * without a guard.
   */
  predicate RowsCover(history: seq<Row>, cols: seq<TableColumn>)
  {
    forall i :: 0 <= i < |history| ==> Covers(history[i], cols)
  }
}
