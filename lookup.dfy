/**
 * What validating a lookup request produces: the messages for missing
 * primary-key columns, the verdict and messages for each lookup entry, and
 * the lookup parameters that the accepted entries contribute.
 */
module Lookup {
  import opened Values
  import opened Schema
  import opened Coercion

  function PkMissingMessage(name: string): string
  {
    "PK Column " + name + " not in Lookup Input collection."
  }

  function NotInTableMessage(name: string): string
  {
    "Input Lookup column \"" + name + "\" not in Table."
  }

  function TypeMismatchMessage(name: string): string
  {
    "Input Lookup column \"" + name + "\" data type different from Table column's datatype."
  }

  /** No lookup entry carries the name: `LookupInfo.FirstOrDefault(c => c.ColumnName == name)` is null. */
  predicate PkMissing(lookup: seq<PrimaryKeyColumnInput>, name: string)
  {
    FirstOrNone(lookup, (c: PrimaryKeyColumnInput) => c.columnName == name).None?
  }

  predicate AllPksPresent(pks: seq<PrimaryKeyColumn>, lookup: seq<PrimaryKeyColumnInput>)
  {
    forall i :: 0 <= i < |pks| ==> !PkMissing(lookup, pks[i].columnName)
  }

  /** The messages of the first `n` primary-key checks, in primary-key order. */
  function MissingPkMessagesUpTo(pks: seq<PrimaryKeyColumn>, lookup: seq<PrimaryKeyColumnInput>, n: nat): seq<string>
    requires n <= |pks|
  {
    if n == 0 then []
    else
      MissingPkMessagesUpTo(pks, lookup, n - 1)
        + (if PkMissing(lookup, pks[n - 1].columnName) then [PkMissingMessage(pks[n - 1].columnName)] else [])
  }

  function MissingPkMessages(pks: seq<PrimaryKeyColumn>, lookup: seq<PrimaryKeyColumnInput>): seq<string>
  {
    MissingPkMessagesUpTo(pks, lookup, |pks|)
  }

  /** The indices of the primary-key columns among the first `n` that no lookup entry names. */
  function MissingPkIndices(pks: seq<PrimaryKeyColumn>, lookup: seq<PrimaryKeyColumnInput>, n: nat): set<nat>
    requires n <= |pks|
  {
    set i: nat | i < n && PkMissing(lookup, pks[i].columnName)
  }

  /** The outcome of checking one lookup entry: the messages it adds and the parameter it yields, if any. */
  datatype EntryCheck = EntryCheck(messages: seq<string>, accepted: Option<LookupParam>)

  /**
   * An entry is checked against the first table column of its name, then
   * its claimed type against that column's type (exact comparison), and
   * only then coerced.
   */
  function CheckEntry(p: Parsers, cols: seq<TableColumn>, e: PrimaryKeyColumnInput): EntryCheck
  {
    match FindColumn(cols, e.columnName)
    case None => EntryCheck([NotInTableMessage(e.columnName)], None)
    case Some(tc) =>
      if tc.columnTypeName != e.columnType then EntryCheck([TypeMismatchMessage(e.columnName)], None)
      else
        var v := Coerce(p, e.columnType, e.inputValue);
        EntryCheck(CoercionMessages(p, e),
                   if v.Some? then Some(LookupParam(e.columnName, e.columnType, v.value)) else None)
  }

  predicate EntryAccepted(p: Parsers, cols: seq<TableColumn>, e: PrimaryKeyColumnInput)
  {
    CheckEntry(p, cols, e).accepted.Some?
  }

  /** The check of every lookup entry, in request order. */
  function EntryChecks(p: Parsers, cols: seq<TableColumn>, lookup: seq<PrimaryKeyColumnInput>): (r: seq<EntryCheck>)
    ensures |r| == |lookup|
  {
    if lookup == [] then []
    else EntryChecks(p, cols, lookup[..|lookup| - 1]) + [CheckEntry(p, cols, lookup[|lookup| - 1])]
  }

  /** Entry `j` of the list is the check of the `j`-th lookup entry. */
  lemma {:induction false} EntryChecksAt(p: Parsers, cols: seq<TableColumn>, lookup: seq<PrimaryKeyColumnInput>, j: nat)
    requires j < |lookup|
    ensures EntryChecks(p, cols, lookup)[j] == CheckEntry(p, cols, lookup[j])
  {
    var front := lookup[..|lookup| - 1];
    if j < |front| {
      EntryChecksAt(p, cols, front, j);
      assert front[j] == lookup[j];
    }
  }

  /** Every lookup entry's check yields a parameter. */
  predicate AllEntriesAccepted(p: Parsers, cols: seq<TableColumn>, lookup: seq<PrimaryKeyColumnInput>)
  {
    forall i :: 0 <= i < |lookup| ==> EntryChecks(p, cols, lookup)[i].accepted.Some?
  }

  /** The messages of the first `n` entry checks, concatenated in order. */
  function MessagesOf(checks: seq<EntryCheck>, n: nat): seq<string>
    requires n <= |checks|
  {
    if n == 0 then [] else MessagesOf(checks, n - 1) + checks[n - 1].messages
  }

  /** The parameters yielded by the first `n` entry checks, in order. */
  function AcceptedOf(checks: seq<EntryCheck>, n: nat): seq<LookupParam>
    requires n <= |checks|
  {
    if n == 0 then []
    else AcceptedOf(checks, n - 1) + (if checks[n - 1].accepted.Some? then [checks[n - 1].accepted.value] else [])
  }

  /** One more entry check extends the messages after any earlier ones. */
  lemma MessagesOfStep(checks: seq<EntryCheck>, j: nat, prefix: seq<string>)
    requires j < |checks|
    ensures prefix + MessagesOf(checks, j) + checks[j].messages == prefix + MessagesOf(checks, j + 1)
  {
  }

  /** One more entry check extends the parameters after any earlier ones. */
  lemma AcceptedOfStep(checks: seq<EntryCheck>, j: nat, prefix: seq<LookupParam>)
    requires j < |checks|
    ensures prefix + AcceptedOf(checks, j) + (if checks[j].accepted.Some? then [checks[j].accepted.value] else [])
      == prefix + AcceptedOf(checks, j + 1)
  {
  }

  function EntryMessages(p: Parsers, cols: seq<TableColumn>, lookup: seq<PrimaryKeyColumnInput>): seq<string>
  {
    MessagesOf(EntryChecks(p, cols, lookup), |lookup|)
  }

  function AcceptedParams(p: Parsers, cols: seq<TableColumn>, lookup: seq<PrimaryKeyColumnInput>): seq<LookupParam>
  {
    AcceptedOf(EntryChecks(p, cols, lookup), |lookup|)
  }

  /** The first `n` entry checks all yield a parameter. */
  predicate AcceptedUpTo(checks: seq<EntryCheck>, n: nat)
    requires n <= |checks|
  {
    n == 0 || (AcceptedUpTo(checks, n - 1) && checks[n - 1].accepted.Some?)
  }

  /** The recursive acceptance flag over the first `n` checks holds exactly when each of them yields a parameter. */
  lemma {:induction false} AcceptedUpToAll(checks: seq<EntryCheck>, n: nat)
    requires n <= |checks|
    ensures AcceptedUpTo(checks, n) <==> forall k :: 0 <= k < n ==> checks[k].accepted.Some?
  {
    if n > 0 {
      AcceptedUpToAll(checks, n - 1);
    }
  }

  /** Exactly one message per primary-key column that no lookup entry names. */
  lemma {:induction false} MissingPkMessageCount(pks: seq<PrimaryKeyColumn>, lookup: seq<PrimaryKeyColumnInput>, n: nat)
    requires n <= |pks|
    ensures |MissingPkMessagesUpTo(pks, lookup, n)| == |MissingPkIndices(pks, lookup, n)|
  {
    if n > 0 {
      MissingPkMessageCount(pks, lookup, n - 1);
      MissingPkIndicesStep(pks, lookup, n);
    }
  }

  /** The missing indices below `n` are those below `n - 1`, plus `n - 1` when that column is missing. */
  lemma MissingPkIndicesStep(pks: seq<PrimaryKeyColumn>, lookup: seq<PrimaryKeyColumnInput>, n: nat)
    requires 0 < n <= |pks|
    ensures var before := MissingPkIndices(pks, lookup, n - 1);
      && n - 1 !in before
      && MissingPkIndices(pks, lookup, n) == if PkMissing(lookup, pks[n - 1].columnName) then before + {n - 1} else before
  {
  }

  /**
   * Every missing primary-key column is reported (there is no early exit),
   * and every message reports a missing primary-key column.
   */
  lemma {:induction false} MissingPkMessagesReportAll(pks: seq<PrimaryKeyColumn>, lookup: seq<PrimaryKeyColumnInput>, n: nat)
    requires n <= |pks|
    ensures forall i :: 0 <= i < n && PkMissing(lookup, pks[i].columnName) ==>
      PkMissingMessage(pks[i].columnName) in MissingPkMessagesUpTo(pks, lookup, n)
    ensures forall m :: m in MissingPkMessagesUpTo(pks, lookup, n) ==>
      exists i :: 0 <= i < n && PkMissing(lookup, pks[i].columnName) && m == PkMissingMessage(pks[i].columnName)
  {
    if n > 0 {
      MissingPkMessagesReportAll(pks, lookup, n - 1);
      var prev := MissingPkMessagesUpTo(pks, lookup, n - 1);
      var cur := MissingPkMessagesUpTo(pks, lookup, n);
      assert forall m :: m in prev ==> m in cur;
      forall m | m in cur
        ensures exists i :: 0 <= i < n && PkMissing(lookup, pks[i].columnName) && m == PkMissingMessage(pks[i].columnName)
      {
        if m !in prev {
          assert PkMissing(lookup, pks[n - 1].columnName) && m == PkMissingMessage(pks[n - 1].columnName);
        }
      }
    }
  }

  /** No message is added exactly when every primary-key column is named by some lookup entry. */
  lemma {:induction false} NoMissingPkMessagesIffAllPresent(pks: seq<PrimaryKeyColumn>, lookup: seq<PrimaryKeyColumnInput>, n: nat)
    requires n <= |pks|
    ensures MissingPkMessagesUpTo(pks, lookup, n) == [] <==> forall i :: 0 <= i < n ==> !PkMissing(lookup, pks[i].columnName)
  {
    if n > 0 {
      NoMissingPkMessagesIffAllPresent(pks, lookup, n - 1);
    }
  }

  /** A primary-key column counts as missing exactly when no lookup entry has its name. */
  lemma PkMissingMeansUnnamed(lookup: seq<PrimaryKeyColumnInput>, name: string)
    ensures PkMissing(lookup, name) <==> forall i :: 0 <= i < |lookup| ==> lookup[i].columnName != name
  {
    FirstOrNoneSpec(lookup, (c: PrimaryKeyColumnInput) => c.columnName == name);
  }

  /**
   * One lookup entry: accepted exactly when its column exists, its claimed
   * type equals that column's type and the value coerces; an unknown column
   * or a type mismatch adds one message and is never coerced; an accepted
   * entry adds none.
   */
  lemma CheckEntryOutcome(p: Parsers, cols: seq<TableColumn>, e: PrimaryKeyColumnInput)
    ensures EntryAccepted(p, cols, e) <==>
      FindColumn(cols, e.columnName).Some? && FindColumn(cols, e.columnName).value.columnTypeName == e.columnType
      && Coerce(p, e.columnType, e.inputValue).Some?
    ensures EntryAccepted(p, cols, e) ==>
      CheckEntry(p, cols, e).messages == [] &&
      CheckEntry(p, cols, e).accepted.value == LookupParam(e.columnName, e.columnType, Coerce(p, e.columnType, e.inputValue).value)
    ensures !HasColumn(cols, e.columnName) ==> CheckEntry(p, cols, e) == EntryCheck([NotInTableMessage(e.columnName)], None)
    ensures FindColumn(cols, e.columnName).Some? && FindColumn(cols, e.columnName).value.columnTypeName != e.columnType ==>
      CheckEntry(p, cols, e) == EntryCheck([TypeMismatchMessage(e.columnName)], None)
    ensures EntryAccepted(p, cols, e) <==> CheckEntry(p, cols, e).messages == []
  {
    CoercionMessageCount(p, e);
    FirstOrNoneSpec(cols, (c: TableColumn) => c.columnName == e.columnName);
  }

  /**
   * The lookup parameters come from the accepted entries only: at most one
   * per entry, each the parameter of an accepted entry.
   */
  lemma {:induction false} AcceptedParamsComeFromEntries(checks: seq<EntryCheck>, n: nat)
    requires n <= |checks|
    ensures |AcceptedOf(checks, n)| <= n
    ensures forall k :: 0 <= k < |AcceptedOf(checks, n)| ==>
      exists i :: 0 <= i < n && checks[i].accepted == Some(AcceptedOf(checks, n)[k])
  {
    if n > 0 {
      AcceptedParamsComeFromEntries(checks, n - 1);
      var prev := AcceptedOf(checks, n - 1);
      var cur := AcceptedOf(checks, n);
      forall k | 0 <= k < |cur|
        ensures exists i :: 0 <= i < n && checks[i].accepted == Some(cur[k])
      {
        if k < |prev| {
          assert cur[k] == prev[k];
        } else {
          assert checks[n - 1].accepted == Some(cur[k]);
        }
      }
    }
  }

  /** When every entry is accepted, the lookup parameters line up with the request entries, in request order. */
  lemma {:induction false} AcceptedParamsInRequestOrder(checks: seq<EntryCheck>, n: nat)
    requires n <= |checks|
    requires forall i :: 0 <= i < n ==> checks[i].accepted.Some?
    ensures |AcceptedOf(checks, n)| == n
    ensures forall i :: 0 <= i < n ==> Some(AcceptedOf(checks, n)[i]) == checks[i].accepted
  {
    if n > 0 {
      AcceptedParamsInRequestOrder(checks, n - 1);
      var prev := AcceptedOf(checks, n - 1);
      var cur := AcceptedOf(checks, n);
      assert forall k :: 0 <= k < |prev| ==> cur[k] == prev[k];
    }
  }

  /** The entry checks add no message exactly when no single check adds one. */
  lemma {:induction false} NoEntryMessagesIffAllSilent(checks: seq<EntryCheck>, n: nat)
    requires n <= |checks|
    ensures MessagesOf(checks, n) == [] <==> forall i :: 0 <= i < n ==> checks[i].messages == []
  {
    if n > 0 {
      NoEntryMessagesIffAllSilent(checks, n - 1);
    }
  }

  /** Primary keys {A, B} and a request naming only A: exactly one message, about B. */
  lemma MissingPkExample()
    ensures MissingPkMessages(
      [PrimaryKeyColumn("A", "int"), PrimaryKeyColumn("B", "int")],
      [PrimaryKeyColumnInput("A", "int", "1")]) == [PkMissingMessage("B")]
  {
    var pks := [PrimaryKeyColumn("A", "int"), PrimaryKeyColumn("B", "int")];
    var lookup := [PrimaryKeyColumnInput("A", "int", "1")];
    assert !PkMissing(lookup, "A");
    assert lookup[0].columnName != "B";
    assert PkMissing(lookup, "B");
    assert MissingPkMessagesUpTo(pks, lookup, 1) == [];
  }
}
