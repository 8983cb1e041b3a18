/**
 * The compare dictionary: one entry per column name pairing the value seen
 * in the newer row with the value seen in the older row. The diff views
 * reuse one dictionary across all adjacent row pairs.
 */
module Compare {
  import opened Values
  import opened Schema

  /** A column's new/old pair; a freshly added entry holds (null, null). */
  datatype ColumnCompare = ColumnCompare(newValue: Value, oldValue: Value)

  const FreshCompare := ColumnCompare(Null, Null)

  /** Entry `c` after the row's value `v` has been written to the new or the old side. */
  function Assign(c: ColumnCompare, v: Value, isNew: bool): ColumnCompare
  {
    if isNew then c.(newValue := v) else c.(oldValue := v)
  }

  /** The dictionary after every key of `row` has been added (if missing) and assigned on one side. */
  function Populated(dict: map<string, ColumnCompare>, row: Row, isNew: bool): map<string, ColumnCompare>
  {
    map k | k in dict.Keys + row.Keys ::
      if k in row then Assign(if k in dict then dict[k] else FreshCompare, row[k], isNew)
      else dict[k]
  }

  /** After populating, every key of the row holds the row's value on the side written. */
  lemma PopulatedSetsSide(dict: map<string, ColumnCompare>, row: Row, isNew: bool, k: string)
    requires k in row
    ensures k in Populated(dict, row, isNew)
    ensures isNew ==> Populated(dict, row, isNew)[k].newValue == row[k]
    ensures !isNew ==> Populated(dict, row, isNew)[k].oldValue == row[k]
  {
  }

  /** Populating one side never touches the other side; a fresh entry's other side is null. */
  lemma PopulatedKeepsOtherSide(dict: map<string, ColumnCompare>, row: Row, isNew: bool, k: string)
    requires k in row
    ensures isNew ==> Populated(dict, row, isNew)[k].oldValue == (if k in dict then dict[k].oldValue else Null)
    ensures !isNew ==> Populated(dict, row, isNew)[k].newValue == (if k in dict then dict[k].newValue else Null)
  {
  }

  /** Keys grow to the union; entries whose key the row lacks are left as they were. */
  lemma PopulatedKeepsAbsentKeys(dict: map<string, ColumnCompare>, row: Row, isNew: bool)
    ensures Populated(dict, row, isNew).Keys == dict.Keys + row.Keys
    ensures forall k :: k in dict && k !in row ==> Populated(dict, row, isNew)[k] == dict[k]
  {
  }

  /**
   * Reuse across pairs is safe: populating with the newer row and then the
   * older row leaves every key both rows carry at exactly (newer, older),
   * whatever the dictionary held from the previous pair.
   */
  lemma PopulatedPairRefresh(dict: map<string, ColumnCompare>, newer: Row, older: Row, k: string)
    requires k in newer && k in older
    ensures k in Populated(Populated(dict, newer, true), older, false)
    ensures Populated(Populated(dict, newer, true), older, false)[k] == ColumnCompare(newer[k], older[k])
  {
  }

  /** One loop step: writing one more key of the row is a single-entry update of the partial result. */
  lemma PopulatedAddKey(dict: map<string, ColumnCompare>, row: Row, isNew: bool, remaining: set<string>, key: string)
    requires key in remaining && key in row
    ensures var d := Populated(dict, row - remaining, isNew);
      Populated(dict, row - (remaining - {key}), isNew) ==
        d[key := Assign(if key in d then d[key] else FreshCompare, row[key], isNew)]
  {
    var d := Populated(dict, row - remaining, isNew);
    assert key in d <==> key in dict;
    assert key in d ==> d[key] == dict[key];
  }

  class CompareDictionary {
    var compareDict: map<string, ColumnCompare>

    constructor ()
      ensures compareDict == map[]
    {
      compareDict := map[];
    }

    /** Writes each value of `row` to the new side (`isNew`) or the old side of its column's entry. */
    method PopulateCompareDictionary(row: Row, isNew: bool)
      modifies this
      ensures compareDict == Populated(old(compareDict), row, isNew)
    {
      var remaining := row.Keys;
      ghost var done: set<string> := {};
      while remaining != {}
        invariant remaining + done == row.Keys && remaining !! done
        invariant compareDict == Populated(old(compareDict), row - remaining, isNew)
        decreases remaining
      {
        var key :| key in remaining;
        PopulatedAddKey(old(compareDict), row, isNew, remaining, key);
        if key !in compareDict {
          compareDict := compareDict[key := FreshCompare];
        }
        if isNew {
          compareDict := compareDict[key := compareDict[key].(newValue := row[key])];
        } else {
          compareDict := compareDict[key := compareDict[key].(oldValue := row[key])];
        }
        remaining := remaining - {key};
        done := done + {key};
      }
      assert row - remaining == row;
    }
  }
}
