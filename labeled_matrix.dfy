/** A matrix whose rows and columns are addressed by labels rather than positions: a
    dictionary from (row label, column label) to an entry. Entries are integers, the only
    entry type the schema uses, and start at 0 (the default of int). */
module LabeledMatrices {
  import opened Wrappers
  import opened Seqs

  datatype MatrixError = DuplicateRowLabels | DuplicateColumnLabels | KeyNotFound

  class LabeledMatrix<R(==), C(==)> {
    const RowLabels: seq<R>
    const ColumnLabels: seq<C>
    /** The dictionary behind the indexer. */
    var entries: map<(R, C), int>

    /** Labels are unique and every (row, column) pair of labels has an entry. */
    ghost predicate Valid()
      reads this
    {
      NoDuplicates(RowLabels) && NoDuplicates(ColumnLabels) &&
      forall i, j :: 0 <= i < |RowLabels| && 0 <= j < |ColumnLabels| ==> (RowLabels[i], ColumnLabels[j]) in entries
    }

    /** Stores the labels as given and fills every (row, column) entry with 0. */
    constructor (rows: seq<R>, columns: seq<C>)
      requires NoDuplicates(rows) && NoDuplicates(columns)
      ensures RowLabels == rows && ColumnLabels == columns
      ensures forall k :: k in entries <==> k.0 in rows && k.1 in columns
      ensures forall k :: k in entries ==> entries[k] == 0
      ensures Valid()
    {
      RowLabels := rows;
      ColumnLabels := columns;
      var e: map<(R, C), int> := map[];
      for i := 0 to |rows|
        invariant forall k :: k in e <==> k.0 in rows[..i] && k.1 in columns
        invariant forall k :: k in e ==> e[k] == 0
      {
        for j := 0 to |columns|
          invariant forall k :: k in e <==> (k.0 in rows[..i] && k.1 in columns) || (k.0 == rows[i] && k.1 in columns[..j])
          invariant forall k :: k in e ==> e[k] == 0
        {
          e := e[(rows[i], columns[j]) := 0];
        }
        assert columns[..|columns|] == columns;
        assert rows[..i + 1] == rows[..i] + [rows[i]];
      }
      assert rows[..|rows|] == rows;
      entries := e;
    }

    /** The indexer's getter: a label pair without an entry is a missing dictionary key. */
    function Get(row: R, column: C): (r: Result<int, MatrixError>)
      reads this
      ensures r.Ok? <==> (row, column) in entries
      ensures r.Ok? ==> r.value == entries[(row, column)]
      ensures r.Err? ==> r.error == KeyNotFound
    {
      if (row, column) in entries then Ok(entries[(row, column)]) else Err(KeyNotFound)
    }

    /** The indexer's setter: the entry reads back as set and no other entry changes. */
    method Set(row: R, column: C, value: int)
      modifies this
      ensures entries == old(entries)[(row, column) := value]
      ensures Get(row, column) == Ok(value)
      ensures forall k :: k != (row, column) ==>
        (k in entries <==> k in old(entries)) && (k in entries ==> entries[k] == old(entries)[k])
      ensures old(Valid()) ==> Valid()
    {
      entries := entries[(row, column) := value];
    }

    /** The conversion to a two-dimensional array: entry [i, j] is the entry of the i-th
        row label and the j-th column label. */
    method ToArray() returns (a: array2<int>)
      requires Valid()
      ensures fresh(a)
      ensures a.Length0 == |RowLabels| && a.Length1 == |ColumnLabels|
      ensures forall i, j :: 0 <= i < a.Length0 && 0 <= j < a.Length1 ==>
        a[i, j] == entries[(RowLabels[i], ColumnLabels[j])]
    {
      a := new int[|RowLabels|, |ColumnLabels|];
      for i := 0 to |RowLabels|
        invariant forall i', j :: 0 <= i' < i && 0 <= j < a.Length1 ==>
          a[i', j] == entries[(RowLabels[i'], ColumnLabels[j])]
      {
        for j := 0 to |ColumnLabels|
          invariant forall i', j' :: 0 <= i' < i && 0 <= j' < a.Length1 ==>
            a[i', j'] == entries[(RowLabels[i'], ColumnLabels[j'])]
          invariant forall j' :: 0 <= j' < j ==> a[i, j'] == entries[(RowLabels[i], ColumnLabels[j'])]
        {
          a[i, j] := entries[(RowLabels[i], ColumnLabels[j])];
        }
      }
    }
  }

  /** `new LabeledMatrix(rows, columns)`: duplicate row labels are refused first, then
      duplicate column labels; each test compares the count of distinct labels with the
      count of labels, as the source does. */
  method NewMatrix<R(==), C(==)>(rows: seq<R>, columns: seq<C>) returns (r: Result<LabeledMatrix<R, C>, MatrixError>)
    ensures r.Ok? <==> NoDuplicates(rows) && NoDuplicates(columns)
    ensures !NoDuplicates(rows) ==> r == Err(DuplicateRowLabels)
    ensures NoDuplicates(rows) && !NoDuplicates(columns) ==> r == Err(DuplicateColumnLabels)
    ensures r.Ok? ==> fresh(r.value) && r.value.Valid()
    ensures r.Ok? ==> r.value.RowLabels == rows && r.value.ColumnLabels == columns
    ensures r.Ok? ==> forall k :: k in r.value.entries <==> k.0 in rows && k.1 in columns
    ensures r.Ok? ==> forall k :: k in r.value.entries ==> r.value.entries[k] == 0
  {
    DistinctLength(rows);
    DistinctLength(columns);
    if |Distinct(rows)| != |rows| {
      return Err(DuplicateRowLabels);
    }
    if |Distinct(columns)| != |columns| {
      return Err(DuplicateColumnLabels);
    }
    var m := new LabeledMatrix(rows, columns);
    return Ok(m);
  }
}
