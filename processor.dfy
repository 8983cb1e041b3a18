/**
 * The request processor: validates the lookup entries of a request against
 * the primary keys and the table columns (collecting messages and the
 * coerced lookup parameters), assembles the history query, and fills the
 * change-indicator matrix of a result.
 */
module Processor {
  import opened Values
  import opened Schema
  import opened Coercion
  import opened Lookup
  import opened SqlText
  import opened Compare
  import opened DiffEngine
  import opened Results

  /** The verdict of coercing one lookup value and the value it gave (null when invalid). */
  datatype ValidatorResult = ValidatorResult(isValid: bool, inputValue: Value)

  class TemporalViewerProcessor {
    var messages: seq<string>
    var temporalTableInfo: TemporalTable
    var lookupValues: seq<LookupParam>
    /** The framework parsers the coercion uses. */
    const parsers: Parsers

    constructor (parsers: Parsers)
      ensures messages == [] && temporalTableInfo == EmptyTemporalTable && lookupValues == []
      ensures this.parsers == parsers
    {
      messages := [];
      temporalTableInfo := EmptyTemporalTable;
      lookupValues := [];
      this.parsers := parsers;
    }

    /**
     * Reports every primary-key column the request does not name, then checks
     * each lookup entry in order (known column, same declared type, value
     * that coerces), recording a parameter for each entry that passes. The
     * answer is whether every key was named and every entry passed.
     */
    method ValidLookupInfo(request: TemporalViewerRequest, tableColumns: seq<TableColumn>, pkCols: seq<PrimaryKeyColumn>)
      returns (valid: bool)
      modifies this`messages, this`lookupValues
      ensures messages == old(messages) + MissingPkMessages(pkCols, request.lookupInfo)
        + EntryMessages(parsers, tableColumns, request.lookupInfo)
      ensures lookupValues == old(lookupValues) + AcceptedParams(parsers, tableColumns, request.lookupInfo)
      ensures valid <==> AllPksPresent(pkCols, request.lookupInfo) && AllEntriesAccepted(parsers, tableColumns, request.lookupInfo)
    {
      var gotAllCols := CheckPrimaryKeysPresent(pkCols, request.lookupInfo);
      var dataTypesValid := CheckLookupEntries(request.lookupInfo, tableColumns);
      valid := gotAllCols && dataTypesValid;
    }

    /** The first loop: one message per primary-key column that no lookup entry names, with no early exit. */
    method CheckPrimaryKeysPresent(pkCols: seq<PrimaryKeyColumn>, lookup: seq<PrimaryKeyColumnInput>) returns (gotAllCols: bool)
      modifies this`messages
      ensures messages == old(messages) + MissingPkMessages(pkCols, lookup)
      ensures gotAllCols <==> AllPksPresent(pkCols, lookup)
    {
      gotAllCols := true;
      var i := 0;
      while i < |pkCols|
        invariant 0 <= i <= |pkCols|
        invariant messages == old(messages) + MissingPkMessagesUpTo(pkCols, lookup, i)
        invariant gotAllCols <==> forall k :: 0 <= k < i ==> !PkMissing(lookup, pkCols[k].columnName)
      {
        if PkMissing(lookup, pkCols[i].columnName) {
          gotAllCols := false;
          messages := messages + [PkMissingMessage(pkCols[i].columnName)];
        }
        i := i + 1;
      }
    }

    /** The second loop: every lookup entry is checked in request order. */
    method CheckLookupEntries(lookup: seq<PrimaryKeyColumnInput>, tableColumns: seq<TableColumn>) returns (dataTypesValid: bool)
      modifies this`messages, this`lookupValues
      ensures messages == old(messages) + EntryMessages(parsers, tableColumns, lookup)
      ensures lookupValues == old(lookupValues) + AcceptedParams(parsers, tableColumns, lookup)
      ensures dataTypesValid <==> AllEntriesAccepted(parsers, tableColumns, lookup)
    {
      dataTypesValid := true;
      ghost var checks := EntryChecks(parsers, tableColumns, lookup);
      var j := 0;
      while j < |lookup|
        invariant 0 <= j <= |lookup|
        invariant messages == old(messages) + MessagesOf(checks, j)
        invariant lookupValues == old(lookupValues) + AcceptedOf(checks, j)
        invariant dataTypesValid <==> AcceptedUpTo(checks, j)
      {
        MessagesOfStep(checks, j, old(messages));
        AcceptedOfStep(checks, j, old(lookupValues));
        var accepted := ValidateLookupEntry(lookup, j, tableColumns);
        dataTypesValid := dataTypesValid && accepted;
        j := j + 1;
      }
      AcceptedUpToAll(checks, |lookup|);
    }

    /**
     * The body of the entry loop: an entry naming no table column, or
     * claiming a type other than the column's, adds one message and is not
     * coerced; otherwise it is coerced and, when that succeeds, recorded as a
     * lookup parameter.
     */
    method ValidateLookupEntry(lookup: seq<PrimaryKeyColumnInput>, j: nat, tableColumns: seq<TableColumn>) returns (accepted: bool)
      requires j < |lookup|
      modifies this`messages, this`lookupValues
      ensures var check := EntryChecks(parsers, tableColumns, lookup)[j];
        && (accepted <==> check.accepted.Some?)
        && messages == old(messages) + check.messages
        && lookupValues == old(lookupValues) + (if accepted then [check.accepted.value] else [])
    {
      var lCol := lookup[j];
      EntryChecksAt(parsers, tableColumns, lookup, j);
      var tableCol := FindColumn(tableColumns, lCol.columnName);
      if tableCol.None? {
        accepted := false;
        messages := messages + [NotInTableMessage(lCol.columnName)];
      } else if tableCol.value.columnTypeName != lCol.columnType {
        accepted := false;
        messages := messages + [TypeMismatchMessage(lCol.columnName)];
      } else {
        var valResult := ValidateInputType(lCol);
        accepted := valResult.isValid;
        if valResult.isValid {
          lookupValues := lookupValues + [LookupParam(lCol.columnName, lCol.columnType, valResult.inputValue)];
        }
      }
    }

    /**
     * Coerces one lookup value by its lower-cased type name, appending the
     * unknown-type message for a name outside the switch and the parse
     * failure message whenever no value results.
     */
    method ValidateInputType(col: PrimaryKeyColumnInput) returns (result: ValidatorResult)
      modifies this`messages
      ensures result.isValid <==> Coerce(parsers, col.columnType, col.inputValue).Some?
      ensures result.isValid ==> result.inputValue == Coerce(parsers, col.columnType, col.inputValue).value
      ensures !result.isValid ==> result.inputValue == Null
      ensures messages == old(messages) + CoercionMessages(parsers, col)
    {
      result := ValidatorResult(false, Null);
      var input := col.inputValue;
      var typeName := Lower(col.columnType);
      if typeName in TextTypeNames {
        result := ValidatorResult(true, Text(input));
      } else if typeName in CharTypeNames {
        if Utf16Length(input) <= 1 {
          result := ValidatorResult(true, Text(input));
        }
      } else if typeName in IntTypeNames {
        var parsed := parsers.parseInt(input);
        if parsed.Some? {
          result := ValidatorResult(true, Int(parsed.value));
        }
      } else if typeName == "bigint" {
        var parsed := parsers.parseLong(input);
        if parsed.Some? {
          result := ValidatorResult(true, Long(parsed.value));
        }
      } else if typeName in DecimalTypeNames {
        var parsed := parsers.parseDecimal(input);
        if parsed.Some? {
          result := ValidatorResult(true, Decimal(parsed.value));
        }
      } else if typeName == "bit" {
        var bitTemp := Lower(input);
        var boolTemp := false;
        if bitTemp in BitSpellings {
          boolTemp := if bitTemp == "true" then true else boolTemp;
          boolTemp := if bitTemp == "1" then true else boolTemp;
          boolTemp := if bitTemp == "false" then false else boolTemp;
          boolTemp := if bitTemp == "0" then false else boolTemp;
          result := ValidatorResult(true, Bit(boolTemp));
        }
      } else if typeName == "float" {
        var parsed := parsers.parseDouble(input);
        if parsed.Some? {
          result := ValidatorResult(true, Double(parsed.value));
        }
      } else if typeName == "real" {
        var parsed := parsers.parseSingle(input);
        if parsed.Some? {
          result := ValidatorResult(true, Single(parsed.value));
        }
      } else if typeName in DateTimeTypeNames {
        var parsed := parsers.parseDateTime(input);
        if parsed.Some? {
          result := ValidatorResult(true, DateTime(parsed.value));
        }
      } else if typeName == "datetimeoffset" {
        var parsed := parsers.parseDateTimeOffset(input);
        if parsed.Some? {
          result := ValidatorResult(true, DateTimeOffset(parsed.value.0, parsed.value.1));
        }
      } else if typeName == "time" {
        var parsed := parsers.parseTimeSpan(input);
        if parsed.Some? {
          result := ValidatorResult(true, TimeSpan(parsed.value));
        }
      } else {
        messages := messages + [UnexpectedTypeMessage(col.columnType)];
      }

      if !result.isValid {
        messages := messages + [ParseFailureMessage(col)];
      }
    }

    /**
     * The history query: the comma-joined projection, the WHERE/AND filter
     * over the recorded lookup parameters, base and history tables unioned,
     * ordered by the first period-start column, newest first. The code fails
     * on an empty column list and on a table without a period-start column.
     */
    method FormatSqlCommand(results: TemporalViewerResults) returns (sql: string)
      requires results.tableColumns != []
      requires FirstOrNone(results.tableColumns, IsPeriodStart).Some?
      ensures sql == HistoryQuery(results.tableColumns, temporalTableInfo, lookupValues,
        FirstOrNone(results.tableColumns, IsPeriodStart).value.columnName)
    {
      var cols := results.tableColumns;
      var columns := AggregateColumns(cols, |cols|);
      columns := columns[..|columns| - 2];
      ColumnListIsJoin(cols);
      assert columns == Join(ColumnNames(cols), ", ");
      var filter := AggregateFilter(lookupValues, |lookupValues|);
      FilterIsWhereClause(lookupValues);
      assert filter == WhereClause(lookupValues);
      var orderColumn := FirstOrNone(cols, IsPeriodStart);
      var orderColumnName := orderColumn.value.columnName;

      sql := "SELECT " + columns + " ";
      sql := sql + "FROM " + temporalTableInfo.baseSchemaName + "." + temporalTableInfo.baseTableName + " with(nolock) ";
      sql := sql + filter;
      sql := sql + " UNION ";
      sql := sql + "SELECT " + columns + " ";
      sql := sql + "FROM " + temporalTableInfo.historySchemaName + "." + temporalTableInfo.historyTableName + " with(nolock) ";
      sql := sql + filter;
      sql := sql + "ORDER BY " + orderColumnName + " DESC";
      assert sql == QueryText(columns, temporalTableInfo, filter, orderColumnName);
    }

    /**
     * Appends one indicator row per adjacent pair of history rows (a flag per
     * table column, set when a regular column's value changed), then a final
     * all-false row.
     */
    method PopulateDiffInfo(results: TemporalViewerResults)
      requires RowsCover(results.historyInfo, results.tableColumns)
      modifies results`diffInds
      ensures results.diffInds == old(results.diffInds) + DiffMatrix(results.historyInfo, results.tableColumns)
    {
      var h := results.historyInfo;
      var cols := results.tableColumns;
      var dict := new CompareDictionary();
      var i := 0;
      while i < |h| - 1
        invariant 0 <= i <= PairCount(h)
        invariant results.diffInds == old(results.diffInds) + PairRows(h, cols, i)
      {
        var newer := h[i];
        var older := h[i + 1];
        var diffRow: seq<bool> := [];
        ghost var prior := dict.compareDict;
        ghost var before := results.diffInds;
        dict.PopulateCompareDictionary(newer, true);
        dict.PopulateCompareDictionary(older, false);

        var j := 0;
        while j < |cols|
          invariant 0 <= j <= |cols|
          invariant dict.compareDict == Populated(Populated(prior, newer, true), older, false)
          invariant diffRow == DiffRow(newer, older, cols)[..j]
          invariant results.diffInds == before
        {
          var col := cols[j];
          if col.generatedType == Regular {
            PopulatedPairRefresh(prior, newer, older, col.columnName);
            diffRow := diffRow + [dict.compareDict[col.columnName].newValue != dict.compareDict[col.columnName].oldValue];
          } else {
            diffRow := diffRow + [false];
          }
          j := j + 1;
        }
        assert diffRow == DiffRow(newer, older, cols);
        assert PairRows(h, cols, i + 1) == PairRows(h, cols, i) + [DiffRow(newer, older, cols)];
        results.diffInds := results.diffInds + [diffRow];
        assert results.diffInds == old(results.diffInds) + PairRows(h, cols, i + 1);
        i := i + 1;
      }

      var lastRow := seq(|cols|, _ => false);
      results.diffInds := results.diffInds + [lastRow];
    }
  }
}
