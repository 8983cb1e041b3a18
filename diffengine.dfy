/**
 * The comparison logic shared by the three views of a row's history: the
 * per-cell change indicators, the list of row deltas, and the history of a
 * single column. Rows arrive newest first; row `i` is compared with row
 * `i + 1`, the older version it replaced.
 */
module DiffEngine {
  import opened Values
  import opened Schema

  /** One changed column of a delta: its name and the values before and after. */
  datatype DeltaColumn = DeltaColumn(columnName: string, oldValue: Value, newValue: Value)

  /** The validity window of the newer row of a pair, with the columns that changed in it. */
  datatype DeltaInfo = DeltaInfo(startDate: Value, endDate: Value, changedColumns: seq<DeltaColumn>)

  /** A new `DeltaInfo`: the minimum and maximum timestamps and no changed columns. */
  const FreshDelta := DeltaInfo(MinDateTime, MaxDateTime, [])

  /** How many adjacent pairs the loops `for (i = 0; i < Count - 1; i++)` visit. */
  function PairCount(h: seq<Row>): nat
  {
    if |h| < 2 then 0 else |h| - 1
  }

  /** A column counts as changed when it is a regular column whose values differ. */
  predicate ColumnChanged(newer: Row, older: Row, c: TableColumn)
    requires c.columnName in newer && c.columnName in older
  {
    c.generatedType == Regular && newer[c.columnName] != older[c.columnName]
  }

  // ---------------------------------------------------------------------
  // Change indicators

  /** The indicator row of one pair: one flag per table column. */
  function DiffRow(newer: Row, older: Row, cols: seq<TableColumn>): seq<bool>
    requires Covers(newer, cols) && Covers(older, cols)
  {
    seq(|cols|, j requires 0 <= j < |cols| => ColumnChanged(newer, older, cols[j]))
  }

  /** The indicator rows of the first `n` pairs. */
  function PairRows(h: seq<Row>, cols: seq<TableColumn>, n: nat): seq<seq<bool>>
    requires RowsCover(h, cols) && n <= PairCount(h)
  {
    if n == 0 then [] else PairRows(h, cols, n - 1) + [DiffRow(h[n - 1], h[n], cols)]
  }

  /** The indicator matrix: one row per pair, then a final all-false row for the oldest version. */
  function DiffMatrix(h: seq<Row>, cols: seq<TableColumn>): seq<seq<bool>>
    requires RowsCover(h, cols)
  {
    PairRows(h, cols, PairCount(h)) + [seq(|cols|, _ => false)]
  }

  lemma {:induction false} PairRowsAt(h: seq<Row>, cols: seq<TableColumn>, n: nat)
    requires RowsCover(h, cols) && n <= PairCount(h)
    ensures |PairRows(h, cols, n)| == n
    ensures forall i :: 0 <= i < n ==> PairRows(h, cols, n)[i] == DiffRow(h[i], h[i + 1], cols)
  {
    if n > 0 {
      PairRowsAt(h, cols, n - 1);
    }
  }

  /**
   * The matrix has one row per history row (one row when there are fewer
   * than two), each as wide as the column list; cell (i, j) is set exactly
   * when column j is regular and its value differs between row i and row
   * i + 1; the last row is all false.
   */
  lemma DiffMatrixShape(h: seq<Row>, cols: seq<TableColumn>)
    requires RowsCover(h, cols)
    ensures |DiffMatrix(h, cols)| == if |h| < 2 then 1 else |h|
    ensures forall i :: 0 <= i < |DiffMatrix(h, cols)| ==> |DiffMatrix(h, cols)[i]| == |cols|
    ensures forall j :: 0 <= j < |cols| ==> !DiffMatrix(h, cols)[PairCount(h)][j]
    ensures forall i, j :: 0 <= i < PairCount(h) && 0 <= j < |cols| ==>
      (DiffMatrix(h, cols)[i][j] <==>
        cols[j].generatedType == Regular && h[i][cols[j].columnName] != h[i + 1][cols[j].columnName])
  {
    var n := PairCount(h);
    var m := DiffMatrix(h, cols);
    PairRowsAt(h, cols, n);
    assert |m| == n + 1;
    assert m[n] == seq(|cols|, _ => false);
    forall i | 0 <= i < n
      ensures m[i] == DiffRow(h[i], h[i + 1], cols)
    {
      assert m[i] == PairRows(h, cols, n)[i];
    }
    forall i | 0 <= i < |m|
      ensures |m[i]| == |cols|
    {
      if i < n {
        assert m[i] == DiffRow(h[i], h[i + 1], cols);
      }
    }
    forall i, j | 0 <= i < PairCount(h) && 0 <= j < |cols|
      ensures DiffMatrix(h, cols)[i][j] <==>
        cols[j].generatedType == Regular && h[i][cols[j].columnName] != h[i + 1][cols[j].columnName]
    {
      assert m[i][j] == DiffRow(h[i], h[i + 1], cols)[j] == ColumnChanged(h[i], h[i + 1], cols[j]);
    }
  }

  // ---------------------------------------------------------------------
  // Row deltas

  /** Which regular columns a traversal reports: all of them, or only the one named. */
  datatype ColumnFilter = AllColumns | OnlyColumn(name: string)

  predicate Tracks(f: ColumnFilter, name: string)
  {
    f.AllColumns? || f.name == name
  }

  /**
   * The delta of a pair after the switch over the first `n` columns:
   * a tracked regular column that differs is appended, a period-start
   * column sets the start and a period-end column the end (the later
   * column wins), any other role is skipped.
   */
  function RowDeltaUpTo(newer: Row, older: Row, cols: seq<TableColumn>, f: ColumnFilter, n: nat): DeltaInfo
    requires Covers(newer, cols) && Covers(older, cols) && n <= |cols|
  {
    if n == 0 then FreshDelta
    else
      var d := RowDeltaUpTo(newer, older, cols, f, n - 1);
      var c := cols[n - 1];
      if c.generatedType == Regular then
        if Tracks(f, c.columnName) && newer[c.columnName] != older[c.columnName] then
          d.(changedColumns := d.changedColumns + [DeltaColumn(c.columnName, older[c.columnName], newer[c.columnName])])
        else d
      else if c.generatedType == PeriodStart then d.(startDate := newer[c.columnName])
      else if c.generatedType == PeriodEnd then d.(endDate := newer[c.columnName])
      else d
  }

  function RowDelta(newer: Row, older: Row, cols: seq<TableColumn>, f: ColumnFilter): DeltaInfo
    requires Covers(newer, cols) && Covers(older, cols)
  {
    RowDeltaUpTo(newer, older, cols, f, |cols|)
  }

  /** The entry one column contributes: itself with old and new values when present, tracked and changed. */
  function ColumnEntry(newer: Row, older: Row, c: TableColumn, f: ColumnFilter): seq<DeltaColumn>
  {
    if c.columnName in newer && c.columnName in older && Tracks(f, c.columnName) && ColumnChanged(newer, older, c)
    then [DeltaColumn(c.columnName, older[c.columnName], newer[c.columnName])]
    else []
  }

  /** Reference form: the tracked changed columns, in table order. */
  function ChangedColumnsOf(newer: Row, older: Row, cols: seq<TableColumn>, f: ColumnFilter): seq<DeltaColumn>
  {
    if cols == [] then []
    else ColumnEntry(newer, older, cols[0], f) + ChangedColumnsOf(newer, older, cols[1..], f)
  }

  /** The last of the first `n` columns with generation role `g`. */
  function LastWithRole(cols: seq<TableColumn>, g: int, n: nat): (r: Option<TableColumn>)
    requires n <= |cols|
    ensures r.None? <==> forall i :: 0 <= i < n ==> cols[i].generatedType != g
    ensures r.Some? ==>
      exists i :: 0 <= i < n && cols[i] == r.value && r.value.generatedType == g && (forall j :: i < j < n ==> cols[j].generatedType != g)
  {
    if n == 0 then None
    else if cols[n - 1].generatedType == g then Some(cols[n - 1])
    else LastWithRole(cols, g, n - 1)
  }

  /** The newer row's value in the last column of role `g` among the first `n`, or `default` if there is none. */
  function RoleValue(row: Row, cols: seq<TableColumn>, g: int, n: nat, default: Value): Value
    requires Covers(row, cols) && n <= |cols|
  {
    match LastWithRole(cols, g, n)
    case None => default
    case Some(c) => row[c.columnName]
  }

  lemma {:induction false} ChangedColumnsSnoc(newer: Row, older: Row, cols: seq<TableColumn>, c: TableColumn, f: ColumnFilter)
    ensures ChangedColumnsOf(newer, older, cols + [c], f) ==
      ChangedColumnsOf(newer, older, cols, f) + ColumnEntry(newer, older, c, f)
  {
    if cols != [] {
      assert (cols + [c])[1..] == cols[1..] + [c];
      ChangedColumnsSnoc(newer, older, cols[1..], c, f);
    } else {
      assert (cols + [c])[1..] == [];
    }
  }

  /** The switch over the first `n` columns lists exactly the tracked changed columns among them, in table order. */
  lemma {:induction false} RowDeltaUpToChanges(newer: Row, older: Row, cols: seq<TableColumn>, f: ColumnFilter, n: nat)
    requires Covers(newer, cols) && Covers(older, cols) && n <= |cols|
    ensures RowDeltaUpTo(newer, older, cols, f, n).changedColumns == ChangedColumnsOf(newer, older, cols[..n], f)
  {
    if n > 0 {
      RowDeltaUpToChanges(newer, older, cols, f, n - 1);
      assert cols[..n] == cols[..n - 1] + [cols[n - 1]];
      ChangedColumnsSnoc(newer, older, cols[..n - 1], cols[n - 1], f);
    }
  }

  /**
   * The switch over the first `n` columns takes its start and end from the
   * newer row's last period-start and period-end columns among them, and
   * keeps the minimum and maximum timestamps when there is none.
   */
  lemma {:induction false} RowDeltaUpToPeriod(newer: Row, older: Row, cols: seq<TableColumn>, f: ColumnFilter, n: nat)
    requires Covers(newer, cols) && Covers(older, cols) && n <= |cols|
    ensures RowDeltaUpTo(newer, older, cols, f, n).startDate == RoleValue(newer, cols, PeriodStart, n, MinDateTime)
    ensures RowDeltaUpTo(newer, older, cols, f, n).endDate == RoleValue(newer, cols, PeriodEnd, n, MaxDateTime)
  {
    if n > 0 {
      RowDeltaUpToPeriod(newer, older, cols, f, n - 1);
    }
  }

  lemma RowDeltaParts(newer: Row, older: Row, cols: seq<TableColumn>, f: ColumnFilter)
    requires Covers(newer, cols) && Covers(older, cols)
    ensures RowDelta(newer, older, cols, f).changedColumns == ChangedColumnsOf(newer, older, cols, f)
    ensures RowDelta(newer, older, cols, f).startDate == RoleValue(newer, cols, PeriodStart, |cols|, MinDateTime)
    ensures RowDelta(newer, older, cols, f).endDate == RoleValue(newer, cols, PeriodEnd, |cols|, MaxDateTime)
  {
    RowDeltaUpToChanges(newer, older, cols, f, |cols|);
    RowDeltaUpToPeriod(newer, older, cols, f, |cols|);
    assert cols[..|cols|] == cols;
  }

  /**
   * Every listed change is a tracked regular column of the table whose
   * values differ, recorded with the older value as old and the newer as
   * new; and every such column is listed.
   */
  lemma {:induction false} ChangedColumnsExact(newer: Row, older: Row, cols: seq<TableColumn>, f: ColumnFilter)
    requires Covers(newer, cols) && Covers(older, cols)
    ensures forall d :: d in ChangedColumnsOf(newer, older, cols, f) ==>
      exists c :: c in cols && Tracks(f, c.columnName) && ColumnChanged(newer, older, c) &&
        d == DeltaColumn(c.columnName, older[c.columnName], newer[c.columnName])
    ensures forall c :: c in cols && Tracks(f, c.columnName) && ColumnChanged(newer, older, c) ==>
      DeltaColumn(c.columnName, older[c.columnName], newer[c.columnName]) in ChangedColumnsOf(newer, older, cols, f)
  {
    if cols != [] {
      ChangedColumnsExact(newer, older, cols[1..], f);
      forall c | c in cols
        ensures c == cols[0] || c in cols[1..]
      {
        var i :| 0 <= i < |cols| && cols[i] == c;
        if i > 0 {
          assert cols[1..][i - 1] == c;
        }
      }
    }
  }

  /** A pair yields changed columns exactly when some tracked regular column differs. */
  lemma ChangedColumnsNonEmpty(newer: Row, older: Row, cols: seq<TableColumn>, f: ColumnFilter)
    requires Covers(newer, cols) && Covers(older, cols)
    ensures RowDelta(newer, older, cols, f).changedColumns != [] <==>
      exists c :: c in cols && Tracks(f, c.columnName) && ColumnChanged(newer, older, c)
  {
    RowDeltaParts(newer, older, cols, f);
    ChangedColumnsExact(newer, older, cols, f);
    var r := ChangedColumnsOf(newer, older, cols, f);
    if r != [] {
      assert r[0] in r;
    }
  }

  /** No column of `cols` is tracked, so nothing is listed. */
  lemma {:induction false} UntrackedListsNothing(newer: Row, older: Row, cols: seq<TableColumn>, f: ColumnFilter)
    requires forall c :: c in cols ==> !Tracks(f, c.columnName)
    ensures ChangedColumnsOf(newer, older, cols, f) == []
  {
    if cols != [] {
      assert cols[0] in cols;
      UntrackedListsNothing(newer, older, cols[1..], f);
    }
  }

  /**
   * With unique column names, a single-column traversal lists at most one
   * change: the named column's, when it is regular and differs.
   */
  lemma {:induction false} OnlyColumnChange(newer: Row, older: Row, cols: seq<TableColumn>, name: string)
    requires Covers(newer, cols) && Covers(older, cols) && UniqueNames(cols)
    ensures ChangedColumnsOf(newer, older, cols, OnlyColumn(name)) ==
      if exists c :: c in cols && c.columnName == name && ColumnChanged(newer, older, c)
      then [DeltaColumn(name, older[name], newer[name])]
      else []
  {
    if cols != [] {
      var rest := cols[1..];
      assert UniqueNames(rest) by {
        forall i, j | 0 <= i < j < |rest|
          ensures rest[i].columnName != rest[j].columnName
        {
          assert rest[i] == cols[i + 1] && rest[j] == cols[j + 1];
        }
      }
      forall c | c in cols
        ensures c == cols[0] || c in rest
      {
        var i :| 0 <= i < |cols| && cols[i] == c;
        if i > 0 {
          assert rest[i - 1] == c;
        }
      }
      if cols[0].columnName == name {
        forall c | c in rest
          ensures !Tracks(OnlyColumn(name), c.columnName)
        {
          var i :| 0 <= i < |rest| && rest[i] == c;
          assert cols[i + 1] == c;
        }
        UntrackedListsNothing(newer, older, rest, OnlyColumn(name));
      } else {
        OnlyColumnChange(newer, older, rest, name);
      }
    }
  }

  /** The deltas of the first `n` pairs that have at least one change, newest first. */
  function DeltasUpTo(h: seq<Row>, cols: seq<TableColumn>, f: ColumnFilter, n: nat): seq<DeltaInfo>
    requires RowsCover(h, cols) && n <= PairCount(h)
  {
    if n == 0 then []
    else
      var d := RowDelta(h[n - 1], h[n], cols, f);
      DeltasUpTo(h, cols, f, n - 1) + (if d.changedColumns != [] then [d] else [])
  }

  function Deltas(h: seq<Row>, cols: seq<TableColumn>, f: ColumnFilter): seq<DeltaInfo>
    requires RowsCover(h, cols)
  {
    DeltasUpTo(h, cols, f, PairCount(h))
  }

  /** Reference form: some tracked regular column differs between row `i` and row `i + 1`. */
  predicate PairChanged(h: seq<Row>, cols: seq<TableColumn>, f: ColumnFilter, i: nat)
    requires RowsCover(h, cols) && i + 1 < |h|
  {
    exists c :: c in cols && Tracks(f, c.columnName) && ColumnChanged(h[i], h[i + 1], c)
  }

  /** The indices of the changed pairs among the first `n`. */
  function ChangedPairsUpTo(h: seq<Row>, cols: seq<TableColumn>, f: ColumnFilter, n: nat): seq<nat>
    requires RowsCover(h, cols) && n <= PairCount(h)
  {
    if n == 0 then []
    else ChangedPairsUpTo(h, cols, f, n - 1) + (if PairChanged(h, cols, f, n - 1) then [n - 1] else [])
  }

  function ChangedPairs(h: seq<Row>, cols: seq<TableColumn>, f: ColumnFilter): seq<nat>
    requires RowsCover(h, cols)
  {
    ChangedPairsUpTo(h, cols, f, PairCount(h))
  }

  /** The changed-pair indices are strictly increasing, below `n`, and are exactly the changed pairs. */
  lemma {:induction false} ChangedPairsExact(h: seq<Row>, cols: seq<TableColumn>, f: ColumnFilter, n: nat)
    requires RowsCover(h, cols) && n <= PairCount(h)
    ensures |ChangedPairsUpTo(h, cols, f, n)| <= n
    ensures forall k :: 0 <= k < |ChangedPairsUpTo(h, cols, f, n)| ==> ChangedPairsUpTo(h, cols, f, n)[k] < n
    ensures forall a, b :: 0 <= a < b < |ChangedPairsUpTo(h, cols, f, n)| ==>
      ChangedPairsUpTo(h, cols, f, n)[a] < ChangedPairsUpTo(h, cols, f, n)[b]
    ensures forall i :: 0 <= i < n ==> (i in ChangedPairsUpTo(h, cols, f, n) <==> PairChanged(h, cols, f, i))
  {
    if n > 0 {
      ChangedPairsExact(h, cols, f, n - 1);
    }
  }

  /** The `k`-th delta is the delta of the `k`-th changed pair. */
  lemma {:induction false} DeltasFollowChangedPairs(h: seq<Row>, cols: seq<TableColumn>, f: ColumnFilter, n: nat)
    requires RowsCover(h, cols) && n <= PairCount(h)
    ensures |DeltasUpTo(h, cols, f, n)| == |ChangedPairsUpTo(h, cols, f, n)|
    ensures forall k :: 0 <= k < |ChangedPairsUpTo(h, cols, f, n)| ==>
      ChangedPairsUpTo(h, cols, f, n)[k] < n &&
      DeltasUpTo(h, cols, f, n)[k] ==
        RowDelta(h[ChangedPairsUpTo(h, cols, f, n)[k]], h[ChangedPairsUpTo(h, cols, f, n)[k] + 1], cols, f)
  {
    if n > 0 {
      DeltasFollowChangedPairs(h, cols, f, n - 1);
      ChangedColumnsNonEmpty(h[n - 1], h[n], cols, f);
    }
  }

  /**
   * The delta list holds, newest first, one entry per adjacent pair in which
   * a tracked regular column changed (so at most one per pair, none with
   * fewer than two rows); each entry is the pair's own delta with a
   * non-empty change list and the newer row's own start and end.
   */
  lemma DeltasAreChangedPairs(h: seq<Row>, cols: seq<TableColumn>, f: ColumnFilter)
    requires RowsCover(h, cols)
    ensures |Deltas(h, cols, f)| == |ChangedPairs(h, cols, f)| <= PairCount(h)
    ensures |h| < 2 ==> Deltas(h, cols, f) == []
    ensures forall k :: 0 <= k < |Deltas(h, cols, f)| ==>
      ChangedPairs(h, cols, f)[k] + 1 < |h| &&
      Deltas(h, cols, f)[k] == RowDelta(h[ChangedPairs(h, cols, f)[k]], h[ChangedPairs(h, cols, f)[k] + 1], cols, f) &&
      Deltas(h, cols, f)[k].changedColumns != [] &&
      Deltas(h, cols, f)[k].endDate == RoleValue(h[ChangedPairs(h, cols, f)[k]], cols, PeriodEnd, |cols|, MaxDateTime)
  {
    var n := PairCount(h);
    DeltasFollowChangedPairs(h, cols, f, n);
    ChangedPairsExact(h, cols, f, n);
    var cp := ChangedPairsUpTo(h, cols, f, n);
    forall k | 0 <= k < |cp|
      ensures RowDelta(h[cp[k]], h[cp[k] + 1], cols, f).changedColumns != []
      ensures RowDelta(h[cp[k]], h[cp[k] + 1], cols, f).endDate == RoleValue(h[cp[k]], cols, PeriodEnd, |cols|, MaxDateTime)
    {
      assert cp[k] in cp;
      ChangedColumnsNonEmpty(h[cp[k]], h[cp[k] + 1], cols, f);
      RowDeltaParts(h[cp[k]], h[cp[k] + 1], cols, f);
    }
  }

  // ---------------------------------------------------------------------
  // Column history

  /**
   * With unique column names, every entry of a single-column traversal
   * lists exactly one change, to the named column.
   */
  lemma ColumnHistoryEntries(h: seq<Row>, cols: seq<TableColumn>, name: string)
    requires RowsCover(h, cols) && UniqueNames(cols)
    ensures forall k :: 0 <= k < |Deltas(h, cols, OnlyColumn(name))| ==>
      |Deltas(h, cols, OnlyColumn(name))[k].changedColumns| == 1 &&
      Deltas(h, cols, OnlyColumn(name))[k].changedColumns[0].columnName == name
  {
    var f := OnlyColumn(name);
    DeltasAreChangedPairs(h, cols, f);
    var cp := ChangedPairs(h, cols, f);
    forall k | 0 <= k < |cp|
      ensures |RowDelta(h[cp[k]], h[cp[k] + 1], cols, f).changedColumns| == 1
      ensures RowDelta(h[cp[k]], h[cp[k] + 1], cols, f).changedColumns[0].columnName == name
    {
      RowDeltaParts(h[cp[k]], h[cp[k] + 1], cols, f);
      OnlyColumnChange(h[cp[k]], h[cp[k] + 1], cols, name);
    }
  }

  /**
   * A name that is no regular column of the table (unknown, or a period
   * column) never changes, so the single-column traversal is empty.
   */
  lemma {:induction false} UnknownColumnHasNoHistory(h: seq<Row>, cols: seq<TableColumn>, name: string, n: nat)
    requires RowsCover(h, cols) && n <= PairCount(h)
    requires forall c :: c in cols && c.columnName == name ==> c.generatedType != Regular
    ensures DeltasUpTo(h, cols, OnlyColumn(name), n) == []
  {
    if n > 0 {
      UnknownColumnHasNoHistory(h, cols, name, n - 1);
      ChangedColumnsNonEmpty(h[n - 1], h[n], cols, OnlyColumn(name));
    }
  }

  /**
   * The end-date clean-up: each entry's end becomes the start of the entry
   * before it (the next newer change), the first entry's end becomes
   * `lastStart`.
   */
  function StitchFrom(entries: seq<DeltaInfo>, lastStart: Value): seq<DeltaInfo>
  {
    if entries == [] then []
    else [entries[0].(endDate := lastStart)] + StitchFrom(entries[1..], entries[0].startDate)
  }

  /** The clean-up applied to a non-empty list: seeded with the first entry's own end. */
  function Stitched(entries: seq<DeltaInfo>): seq<DeltaInfo>
    requires entries != []
  {
    StitchFrom(entries, entries[0].endDate)
  }

  lemma {:induction false} StitchFromAt(entries: seq<DeltaInfo>, lastStart: Value)
    ensures |StitchFrom(entries, lastStart)| == |entries|
    ensures forall i :: 0 <= i < |entries| ==>
      StitchFrom(entries, lastStart)[i] == entries[i].(endDate := if i == 0 then lastStart else entries[i - 1].startDate)
  {
    if entries != [] {
      var rest := entries[1..];
      StitchFromAt(rest, entries[0].startDate);
      forall i | 0 <= i < |entries|
        ensures StitchFrom(entries, lastStart)[i] == entries[i].(endDate := if i == 0 then lastStart else entries[i - 1].startDate)
      {
        if i == 0 {
          assert StitchFrom(entries, lastStart)[0] == entries[0].(endDate := lastStart);
        } else {
          assert StitchFrom(entries, lastStart)[i] == StitchFrom(rest, entries[0].startDate)[i - 1];
          assert rest[i - 1] == entries[i];
          if i > 1 {
            assert rest[i - 2] == entries[i - 1];
          }
        }
      }
    }
  }

  /**
   * The clean-up keeps every entry's start and changed columns and the first
   * entry's end; every later entry ends where the entry before it starts,
   * so the windows of a column's values tile the timeline.
   */
  lemma StitchedWindows(entries: seq<DeltaInfo>)
    requires entries != []
    ensures |Stitched(entries)| == |entries|
    ensures Stitched(entries)[0] == entries[0]
    ensures forall i :: 0 <= i < |entries| ==>
      Stitched(entries)[i].startDate == entries[i].startDate &&
      Stitched(entries)[i].changedColumns == entries[i].changedColumns
    ensures forall i :: 1 <= i < |entries| ==> Stitched(entries)[i].endDate == Stitched(entries)[i - 1].startDate
  {
    StitchFromAt(entries, entries[0].endDate);
    forall i | 0 <= i < |entries|
      ensures Stitched(entries)[i].startDate == entries[i].startDate
      ensures Stitched(entries)[i].changedColumns == entries[i].changedColumns
    {
      assert Stitched(entries)[i] == entries[i].(endDate := if i == 0 then entries[0].endDate else entries[i - 1].startDate);
    }
  }

  // ---------------------------------------------------------------------
  // Period columns and ordering

  /** `c` is the table's only period-start column. */
  predicate SoleStartColumn(cols: seq<TableColumn>, c: TableColumn)
  {
    c in cols && c.generatedType == PeriodStart &&
    forall d :: d in cols && d.generatedType == PeriodStart ==> d == c
  }

  /**
   * With a single period-start column, the column the history query sorts
   * by (the first period-start column) is the one every delta takes its
   * start from (the last period-start column).
   */
  lemma StartColumnAgreement(cols: seq<TableColumn>, c: TableColumn)
    requires SoleStartColumn(cols, c)
    ensures FirstOrNone(cols, IsPeriodStart) == Some(c)
    ensures LastWithRole(cols, PeriodStart, |cols|) == Some(c)
  {
    var i :| 0 <= i < |cols| && cols[i] == c;
    assert IsPeriodStart(cols[i]);
    assert cols[i].generatedType == PeriodStart;
  }

  /** Rows sorted newest first by the DateTime column `name`. */
  predicate NewestFirst(h: seq<Row>, name: string)
  {
    (forall i :: 0 <= i < |h| ==> name in h[i] && h[i][name].DateTime?) &&
    (forall i, j :: 0 <= i <= j < |h| ==> h[j][name].ticks <= h[i][name].ticks)
  }

  /** With a single period-start column, each delta starts at its newer row's value in that column. */
  lemma DeltaStartsFollowRows(h: seq<Row>, cols: seq<TableColumn>, f: ColumnFilter, c: TableColumn)
    requires RowsCover(h, cols) && SoleStartColumn(cols, c)
    ensures |Deltas(h, cols, f)| == |ChangedPairs(h, cols, f)|
    ensures forall k :: 0 <= k < |Deltas(h, cols, f)| ==>
      ChangedPairs(h, cols, f)[k] < |h| &&
      Deltas(h, cols, f)[k].startDate == h[ChangedPairs(h, cols, f)[k]][c.columnName]
  {
    var cp := ChangedPairs(h, cols, f);
    DeltasAreChangedPairs(h, cols, f);
    StartColumnAgreement(cols, c);
    forall k | 0 <= k < |cp|
      ensures RowDelta(h[cp[k]], h[cp[k] + 1], cols, f).startDate == h[cp[k]][c.columnName]
    {
      RowDeltaParts(h[cp[k]], h[cp[k] + 1], cols, f);
    }
  }

  /**
   * When the rows come newest first by the only period-start column, every
   * stitched entry after the first starts no later than it ends: the
   * windows are well formed and newest first.
   */
  lemma StitchedWindowsOrdered(h: seq<Row>, cols: seq<TableColumn>, f: ColumnFilter, c: TableColumn)
    requires RowsCover(h, cols) && SoleStartColumn(cols, c) && NewestFirst(h, c.columnName)
    requires Deltas(h, cols, f) != []
    ensures forall i :: 0 <= i < |Stitched(Deltas(h, cols, f))| ==> Stitched(Deltas(h, cols, f))[i].startDate.DateTime?
    ensures forall i :: 1 <= i < |Stitched(Deltas(h, cols, f))| ==>
      Stitched(Deltas(h, cols, f))[i].endDate.DateTime? &&
      Stitched(Deltas(h, cols, f))[i].startDate.ticks <= Stitched(Deltas(h, cols, f))[i].endDate.ticks
  {
    var ds := Deltas(h, cols, f);
    var cp := ChangedPairs(h, cols, f);
    var s := Stitched(ds);
    DeltaStartsFollowRows(h, cols, f, c);
    ChangedPairsExact(h, cols, f, PairCount(h));
    StitchedWindows(ds);
    forall i | 0 <= i < |s|
      ensures s[i].startDate == h[cp[i]][c.columnName]
    {
      assert s[i].startDate == ds[i].startDate;
    }
    forall i | 1 <= i < |s|
      ensures s[i].endDate.DateTime? && s[i].startDate.ticks <= s[i].endDate.ticks
    {
      assert cp[i - 1] < cp[i];
      assert s[i].endDate == h[cp[i - 1]][c.columnName];
    }
  }
}
