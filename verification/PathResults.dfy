/** The column store a sink fills: one column per pattern node, rows spread over the columns. */
module PathResults {
  import opened Wrappers
  import opened Sequences
  import opened Matching

  // ---------------------------------------------------------------- columns as values

  ghost predicate Rectangular(cols: seq<Row>) {
    forall i, j :: 0 <= i < |cols| && 0 <= j < |cols| ==> |cols[i]| == |cols[j]|
  }

  function RowsOf(cols: seq<Row>): seq<Row>
    requires Rectangular(cols)
  {
    if cols == [] then []
    else seq(|cols[0]|, r requires 0 <= r < |cols[0]| => seq(|cols|, c requires 0 <= c < |cols| => cols[c][r]))
  }

  function Empty(n: nat): seq<Row> {
    seq(n, _ => [])
  }

  function Appended(cols: seq<Row>, row: Row): seq<Row>
    requires |row| == |cols|
  {
    seq(|cols|, c requires 0 <= c < |cols| => cols[c] + [row[c]])
  }

  /** The columns after storing the rows one by one. */
  function Stored(cols: seq<Row>, rows: seq<Row>): seq<Row>
    requires forall row :: row in rows ==> |row| == |cols|
    decreases |rows|
  {
    if rows == [] then cols
    else
      assert forall row :: row in rows[1..] ==> row in rows;
      Stored(Appended(cols, rows[0]), rows[1..])
  }

  function ColumnOf(rows: seq<Row>, c: nat): Row
    requires forall row :: row in rows ==> c < |row|
  {
    seq(|rows|, r requires 0 <= r < |rows| => assert rows[r] in rows; rows[r][c])
  }

  lemma AppendedRows(cols: seq<Row>, row: Row)
    requires Rectangular(cols) && 0 < |cols| == |row|
    ensures Rectangular(Appended(cols, row))
    ensures RowsOf(Appended(cols, row)) == RowsOf(cols) + [row]
  {
    var after := Appended(cols, row);
    assert forall c :: 0 <= c < |cols| ==> |after[c]| == |cols[0]| + 1;
    forall r | 0 <= r < |cols[0]| + 1 ensures RowsOf(after)[r] == (RowsOf(cols) + [row])[r] {
      forall c | 0 <= c < |cols| ensures RowsOf(after)[r][c] == (RowsOf(cols) + [row])[r][c] {
      }
    }
  }

  /** Storing rows loses nothing and reorders nothing: the store always holds what it held
      followed by the new rows, all columns equally long. */
  lemma {:induction false} StoredRows(cols: seq<Row>, rows: seq<Row>)
    requires Rectangular(cols) && |cols| > 0
    requires forall row :: row in rows ==> |row| == |cols|
    ensures |Stored(cols, rows)| == |cols| && Rectangular(Stored(cols, rows))
    ensures RowsOf(Stored(cols, rows)) == RowsOf(cols) + rows
    decreases |rows|
  {
    if rows != [] {
      var first, rest := rows[0], rows[1..];
      assert first in rows && (forall row :: row in rest ==> row in rows) && rows == [first] + rest;
      AppendedRows(cols, first);
      var held := RowsOf(cols);
      StoredRows(Appended(cols, first), rest);
      ConcatAssociates(held, [first], rest);
    }
  }

  /** A column of the store is the corresponding element of every row. */
  lemma ColumnOfRows(cols: seq<Row>, c: nat)
    requires Rectangular(cols) && c < |cols|
    ensures forall row :: row in RowsOf(cols) ==> |row| == |cols|
    ensures ColumnOf(RowsOf(cols), c) == cols[c]
  {
  }

  /** Round trip: any rows stored in an empty store come back, and any store is what storing its
      own rows gives. */
  lemma RoundTrip(n: nat, rows: seq<Row>)
    requires n > 0 && forall row :: row in rows ==> |row| == n
    ensures Rectangular(Stored(Empty(n), rows)) && RowsOf(Stored(Empty(n), rows)) == rows
  {
    StoredRows(Empty(n), rows);
    assert RowsOf(Empty(n)) == [];
  }

  lemma StoreIsItsRows(cols: seq<Row>)
    requires Rectangular(cols) && |cols| > 0
    ensures forall row :: row in RowsOf(cols) ==> |row| == |cols|
    ensures Stored(Empty(|cols|), RowsOf(cols)) == cols
  {
    var again := Stored(Empty(|cols|), RowsOf(cols));
    StoredRows(Empty(|cols|), RowsOf(cols));
    assert RowsOf(Empty(|cols|)) == [];
    forall c | 0 <= c < |cols| ensures again[c] == cols[c] {
      ColumnOfRows(again, c);
      ColumnOfRows(cols, c);
    }
  }

  // ---------------------------------------------------------------- the store

  class Column {
    var elements: Row

    constructor ()
      ensures elements == []
    {
      elements := [];
    }
  }

  class PathResult {
    var data: seq<Column>

    ghost predicate Valid()
      reads this, data
    {
      (forall i, j :: 0 <= i < j < |data| ==> data[i] != data[j]) && Rectangular(Columns())
    }

    ghost function Columns(): seq<Row>
      reads this, data
    {
      seq(|data|, i requires 0 <= i < |data| reads this, data => data[i].elements)
    }

    ghost function Rows(): seq<Row>
      requires Valid()
      reads this, data
    {
      RowsOf(Columns())
    }

    lemma ColumnHoldsRows(c: nat)
      requires Valid() && c < |data|
      ensures forall row :: row in Rows() ==> |row| == |data|
      ensures ColumnOf(Rows(), c) == data[c].elements
    {
      ColumnOfRows(Columns(), c);
    }

    constructor (columnCount: nat)
      ensures Valid() && fresh(data)
      ensures |data| == columnCount && Rows() == []
    {
      data := [];
      new;
      var i := 0;
      while i < columnCount
        modifies this
        invariant i <= columnCount && |data| == i && fresh(data)
        invariant forall k :: 0 <= k < i ==> data[k].elements == []
        invariant forall k, l :: 0 <= k < l < i ==> data[k] != data[l]
      {
        var c := new Column();
        data := data + [c];
        i := i + 1;
      }
    }

    /** Fails, like the engine's assertion, when the row is not as wide as the store. The columns
        grow in place and stay the same objects. */
    method Emplace(p: Row) returns (ok: bool)
      requires Valid()
      modifies data
      ensures Valid()
      ensures ok <==> |p| == |data|
      ensures ok ==> Columns() == Appended(old(Columns()), p)
      ensures ok && |data| > 0 ==> Rows() == old(Rows()) + [p]
      ensures !ok ==> Columns() == old(Columns())
    {
      if |p| != |data| {
        return false;
      }
      ghost var before := Columns();
      var c := 0;
      while c < |p|
        invariant 0 <= c <= |p| == |data|
        invariant forall k :: 0 <= k < |data| ==>
          data[k].elements == if k < c then before[k] + [p[k]] else before[k]
      {
        data[c].elements := data[c].elements + [p[c]];
        c := c + 1;
      }
      assert Columns() == Appended(before, p);
      if |data| > 0 {
        AppendedRows(before, p);
      }
      return true;
    }

    /** Column `idx`, the object itself, or none. */
    function Col(idx: nat): Option<Column>
      reads this
    {
      if idx < |data| then Some(data[idx]) else None
    }

    /** Puts the rows together again. A store without columns is not asked for its rows. */
    method Paths() returns (res: seq<Row>)
      requires Valid() && |data| > 0
      ensures res == Rows()
    {
      res := [];
      var row := 0;
      while row < |data[0].elements|
        invariant row <= |data[0].elements|
        invariant res == Rows()[..row]
      {
        var p: Row := [];
        var col := 0;
        while col < |data|
          invariant col <= |data|
          invariant p == Rows()[row][..col]
        {
          assert |Columns()[col]| == |Columns()[0]|;
          p := p + [data[col].elements[row]];
          col := col + 1;
        }
        assert p == Rows()[row];
        res := res + [p];
        row := row + 1;
      }
    }
  }
}
