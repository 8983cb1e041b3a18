/**
 * The text pieces of the history query: the projection list and the
 * WHERE/AND filter, each built as the code builds it (a left fold that
 * appends a separator after every item) and related to a plain reference
 * form.
 */
module SqlText {
  import opened Values
  import opened Schema

  function ColumnNames(cols: seq<TableColumn>): (r: seq<string>)
    ensures |r| == |cols|
  {
    seq(|cols|, i requires 0 <= i < |cols| => cols[i].columnName)
  }

  /** Reference form: the items separated by `sep`, with no separator before the first or after the last. */
  function Join(items: seq<string>, sep: string): string
  {
    if |items| == 0 then ""
    else if |items| == 1 then items[0]
    else items[0] + sep + Join(items[1..], sep)
  }

  /** `Aggregate("", (str, col) => str + col.ColumnName + ", ")` over the first `n` columns. */
  function AggregateColumns(cols: seq<TableColumn>, n: nat): (r: string)
    requires n <= |cols|
    ensures n > 0 ==> |r| >= 2
  {
    if n == 0 then "" else AggregateColumns(cols, n - 1) + cols[n - 1].columnName + ", "
  }

  /** The projection: the fold with its final ", " removed (`Remove(Length - 2, 2)`). */
  function ColumnList(cols: seq<TableColumn>): string
    requires cols != []
  {
    var s := AggregateColumns(cols, |cols|);
    s[..|s| - 2]
  }

  /** One equality test against the parameter named after the column. */
  function ParamTest(name: string): string
  {
    name + " = @" + name + " "
  }

  /**
   * The filter fold over the first `n` lookup parameters: each step appends
   * "WHERE " while the text is still empty and "AND " afterwards.
   */
  function AggregateFilter(params: seq<LookupParam>, n: nat): string
    requires n <= |params|
  {
    if n == 0 then ""
    else
      var acc := AggregateFilter(params, n - 1);
      acc + (if acc == "" then "WHERE " else "AND ") + ParamTest(params[n - 1].columnName)
  }

  function Filter(params: seq<LookupParam>): string
  {
    AggregateFilter(params, |params|)
  }

  function AndTests(params: seq<LookupParam>): string
  {
    if params == [] then "" else "AND " + ParamTest(params[0].columnName) + AndTests(params[1..])
  }

  /** Reference form: empty without parameters, else "WHERE" on the first test and "AND" on each later one. */
  function WhereClause(params: seq<LookupParam>): string
  {
    if params == [] then "" else "WHERE " + ParamTest(params[0].columnName) + AndTests(params[1..])
  }

  lemma {:induction false} JoinSnoc(items: seq<string>, sep: string, x: string)
    ensures Join(items + [x], sep) == if items == [] then x else Join(items, sep) + sep + x
  {
    if |items| > 1 {
      assert (items + [x])[1..] == items[1..] + [x];
      JoinSnoc(items[1..], sep, x);
    } else if |items| == 1 {
      assert (items + [x])[1..] == [x];
    }
  }

  /** The fold over the first `n > 0` columns is the joined names followed by one trailing ", ". */
  lemma {:induction false} AggregateColumnsIsJoin(cols: seq<TableColumn>, n: nat)
    requires 0 < n <= |cols|
    ensures AggregateColumns(cols, n) == Join(ColumnNames(cols)[..n], ", ") + ", "
  {
    var names := ColumnNames(cols);
    assert names[..n] == names[..n - 1] + [names[n - 1]];
    JoinSnoc(names[..n - 1], ", ", names[n - 1]);
    if n > 1 {
      AggregateColumnsIsJoin(cols, n - 1);
    }
  }

  /** The projection is the column names in table order joined by ", ", with no trailing separator. */
  lemma ColumnListIsJoin(cols: seq<TableColumn>)
    requires cols != []
    ensures ColumnList(cols) == Join(ColumnNames(cols), ", ")
  {
    AggregateColumnsIsJoin(cols, |cols|);
    assert ColumnNames(cols)[..|cols|] == ColumnNames(cols);
    var j := Join(ColumnNames(cols), ", ");
    assert (j + ", ")[..|j|] == j;
  }

  lemma {:induction false} AndTestsSnoc(params: seq<LookupParam>, x: LookupParam)
    ensures AndTests(params + [x]) == AndTests(params) + "AND " + ParamTest(x.columnName)
  {
    if params != [] {
      assert (params + [x])[1..] == params[1..] + [x];
      AndTestsSnoc(params[1..], x);
    } else {
      assert (params + [x])[1..] == [];
    }
  }

  /** Appending a parameter to a non-empty list appends one "AND" test to its clause. */
  lemma WhereClauseSnoc(front: seq<LookupParam>, x: LookupParam)
    requires front != []
    ensures WhereClause(front + [x]) == WhereClause(front) + "AND " + ParamTest(x.columnName)
    ensures WhereClause(front) != ""
  {
    assert (front + [x])[0] == front[0];
    assert (front + [x])[1..] == front[1..] + [x];
    AndTestsSnoc(front[1..], x);
    assert WhereClause(front)[0] == 'W';
  }

  /**
   * The filter fold over the first `n` parameters is the reference WHERE
   * clause over them: empty when there are none, otherwise
   * "WHERE n1 = @n1 " followed by "AND nk = @nk " for each later one.
   */
  lemma {:induction false} AggregateFilterIsWhereClause(params: seq<LookupParam>, n: nat)
    requires n <= |params|
    ensures AggregateFilter(params, n) == WhereClause(params[..n])
  {
    if n > 0 {
      AggregateFilterIsWhereClause(params, n - 1);
      var front := params[..n - 1];
      var x := params[n - 1];
      assert params[..n] == front + [x];
      if n == 1 {
        assert params[..n] == [x];
      } else {
        WhereClauseSnoc(front, x);
      }
    }
  }

  lemma FilterIsWhereClause(params: seq<LookupParam>)
    ensures Filter(params) == WhereClause(params)
  {
    AggregateFilterIsWhereClause(params, |params|);
    assert params[..|params|] == params;
  }

  /**
   * Reference form of the history query: the same projection and filter
   * over the base table and over the history table, unioned, newest first
   * by `orderColumn`.
   */
  function HistoryQuery(cols: seq<TableColumn>, t: TemporalTable, params: seq<LookupParam>, orderColumn: string): string
  {
    QueryText(Join(ColumnNames(cols), ", "), t, WhereClause(params), orderColumn)
  }

  /** The query assembled from its projection list and filter text: the same SELECT over both tables. */
  function QueryText(columns: string, t: TemporalTable, filter: string, orderColumn: string): string
  {
    "SELECT " + columns + " " + "FROM " + t.baseSchemaName + "." + t.baseTableName + " with(nolock) " + filter
      + " UNION "
      + "SELECT " + columns + " " + "FROM " + t.historySchemaName + "." + t.historyTableName + " with(nolock) " + filter
      + "ORDER BY " + orderColumn + " DESC"
  }

  /** A single lookup parameter `Id` gives the filter "WHERE Id = @Id ". */
  lemma SingleParamFilter(v: Value)
    ensures Filter([LookupParam("Id", "int", v)]) == "WHERE Id = @Id "
  {
    FilterIsWhereClause([LookupParam("Id", "int", v)]);
  }
}
