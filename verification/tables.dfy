/**
 Parsed tabular input: the part of a pandas DataFrame that the inference
 pipeline looks at, namely its ordered column names and its rows. Cell values
 are left abstract (type parameter `V`); nothing in the pipeline inspects them.
 */
module Tables {

  /** Class labels are data supplied by the trained model, not a fixed enum. */
  type Label = string

  /** Column names are matched as exact strings (spaces, slashes, parentheses). */
  type ColumnName = string

  datatype Table<V> = Table(columns: seq<ColumnName>, rows: seq<seq<V>>)

  /** Every row has one cell per column. */
  predicate Rectangular<V>(t: Table<V>)
  {
    forall r :: 0 <= r < |t.rows| ==> |t.rows[r]| == |t.columns|
  }

  /** No element occurs twice. */
  predicate Distinct<T(==)>(s: seq<T>)
  {
    forall i, j :: 0 <= i < j < |s| ==> s[i] != s[j]
  }

  /** Position of the first column called `name`. */
  function ColumnIndex(columns: seq<ColumnName>, name: ColumnName): (k: nat)
    requires name in columns
    ensures k < |columns| && columns[k] == name
    ensures forall j :: 0 <= j < k ==> columns[j] != name
  {
    if columns[0] == name then 0 else 1 + ColumnIndex(columns[1..], name)
  }

  /** A name found in a prefix is first found at the same place in the whole. */
  lemma ColumnIndexInPrefix(columns: seq<ColumnName>, n: nat, name: ColumnName)
    requires n <= |columns| && name in columns[..n]
    ensures name in columns && ColumnIndex(columns, name) == ColumnIndex(columns[..n], name)
  {
    var k := ColumnIndex(columns[..n], name);
    assert columns[k] == name;
  }

  /** The value in row `row` under the column called `name`. */
  function CellAt<V>(t: Table<V>, row: nat, name: ColumnName): V
    requires Rectangular(t) && row < |t.rows| && name in t.columns
  {
    t.rows[row][ColumnIndex(t.columns, name)]
  }
}
