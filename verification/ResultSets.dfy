/**
 The working buffer of member-dragon's executor: rows of at most 32 values in a fixed
 two-dimensional array, which filters, sorts, limits and projects in place.  Each method
 is proved against a function on the list of rows.
 */
module ResultSets {
  import opened Comparison
  import opened StableSorting

  const MAX_COLUMNS: nat := 32
  const MAX_ROWS: nat := 1024
  const MAX_VALUE_LEN: nat := 256

  type Row = seq<string>

  datatype Direction = Ascending | Descending

  datatype Where = Where(column: string, op: CompareOp, value: string)

  /** The WHERE test on the value of one column. */
  predicate Matches(row: Row, column: nat, where: Where)
    requires column < |row|
  {
    CompareWithOperator(CompareValues(row[column], where.value), where.op)
  }

  /** The rows that match (or, to keep what a deletion leaves, the rows that do not), in order. */
  function Select(rows: seq<Row>, column: nat, where: Where, matching: bool): seq<Row>
    requires forall row <- rows :: column < |row|
  {
    if rows == [] then []
    else
      var last := rows[|rows| - 1];
      Select(rows[..|rows| - 1], column, where, matching)
      + if Matches(last, column, where) == matching then [last] else []
  }

  /** Whether a row must be behind another one. */
  predicate MustSwap(column: nat, direction: Direction, a: Row, b: Row) {
    column < |a| && column < |b|
    && var cmp := CompareValues(a[column], b[column]);
       if direction == Ascending then cmp > 0 else cmp < 0
  }

  function RowOrder(column: nat, direction: Direction): (Row, Row) -> bool {
    (a, b) => MustSwap(column, direction, a, b)
  }

  function Limit(rows: seq<Row>, limit: nat): seq<Row> {
    if limit < |rows| then rows[..limit] else rows
  }

  function ProjectRow(row: Row, selected: seq<nat>): Row
    requires forall i | 0 <= i < |selected| :: selected[i] < |row|
  {
    seq(|selected|, i requires 0 <= i < |selected| => row[selected[i]])
  }

  function Project(rows: seq<Row>, selected: seq<nat>): seq<Row>
    requires forall row <- rows :: forall i | 0 <= i < |selected| :: selected[i] < |row|
  {
    seq(|rows|, i requires 0 <= i < |rows| => ProjectRow(rows[i], selected))
  }

  /** The new values are written one after the other. */
  function Assign(row: Row, columns: seq<nat>, values: seq<string>): (r: Row)
    requires |columns| == |values| && forall i | 0 <= i < |columns| :: columns[i] < |row|
    ensures |r| == |row|
  {
    if columns == [] then row
    else
      var n := |columns| - 1;
      Assign(row, columns[..n], values[..n])[columns[n] := values[n]]
  }

  /** The first n values of one row of a buffer. */
  ghost function RowOf(m: array2<string>, i: nat, n: nat): (row: Row)
    requires i < m.Length0 && n <= m.Length1
    reads m
    ensures |row| == n
  {
    seq(n, j requires 0 <= j < m.Length1 reads m => m[i, j])
  }

  class ResultSet {
    const headers: array<string>
    var headerCount: nat
    const rows: array2<string>
    var rowCount: nat

    constructor ()
      ensures Valid() && headerCount == 0 && rowCount == 0 && fresh(headers) && fresh(rows)
    {
      headers := new string[32](_ => "");
      rows := new string[1024, 32]((_, _) => "");
      headerCount := 0;
      rowCount := 0;
    }

    /** The dimensions of the buffer, and no more columns in use than it has. */
    ghost predicate Shaped()
      reads this`headerCount
    {
      && headers.Length == MAX_COLUMNS && rows.Length0 == MAX_ROWS && rows.Length1 == MAX_COLUMNS
      && headerCount <= MAX_COLUMNS
    }

    ghost predicate Valid()
      reads this`headerCount, this`rowCount
    {
      Shaped() && rowCount <= MAX_ROWS
    }

    /** The columns in use of one row of the buffer. */
    ghost function RowAt(i: nat): (row: Row)
      requires Shaped() && i < MAX_ROWS
      reads this`headerCount, rows
      ensures |row| == headerCount
    {
      RowOf(rows, i, headerCount)
    }

    ghost function Rows(): (r: seq<Row>)
      requires Valid()
      reads this`headerCount, this`rowCount, rows
      ensures |r| == rowCount
      ensures forall i | 0 <= i < rowCount :: r[i] == RowAt(i)
    {
      var m, n := rows, headerCount;
      seq(rowCount, i requires 0 <= i < m.Length0 && n <= m.Length1 reads m => RowOf(m, i, n))
    }

    ghost function Headers(): seq<string>
      requires Valid()
      reads this, headers
    {
      headers[..headerCount]
    }

    /** Start over as an empty table with these headers. */
    method SetFullHeaders(names: seq<string>)
      requires Valid() && |names| <= MAX_COLUMNS
      modifies this, headers
      ensures Valid() && headerCount == |names| && Headers() == names && Rows() == []
    {
      rowCount := 0;
      headerCount := |names|;
      var col := 0;
      while col < |names|
        invariant col <= |names| && headerCount == |names| && rowCount == 0 && Valid()
        invariant forall j | 0 <= j < col :: headers[j] == names[j]
      {
        headers[col] := names[col];
        col := col + 1;
      }
    }

    /** Name the columns in use, which may have become fewer or more. */
    method SetHeaders(names: seq<string>)
      requires Valid() && |names| == headerCount
      modifies headers
      ensures Headers() == names
    {
      var col := 0;
      while col < |names|
        invariant col <= |names|
        invariant forall j | 0 <= j < col :: headers[j] == names[j]
      {
        headers[col] := names[col];
        col := col + 1;
      }
    }

    /** Add a row behind the others. */
    method AddRow(values: array<string>)
      requires Valid() && rowCount < MAX_ROWS && headerCount <= values.Length && values != headers
      modifies this`rowCount, rows
      ensures Valid() && Rows() == old(Rows()) + [values[..headerCount]]
    {
      hide RowAt, Rows;
      ghost var before, added := Rows(), values[..headerCount];
      PasteValues(rowCount, values);
      rowCount := rowCount + 1;
      assert forall i | 0 <= i < rowCount :: RowAt(i) == (before + [added])[i];
      RowsAre(before + [added]);
    }

    method PasteValues(dest: nat, values: array<string>)
      requires Valid() && dest < MAX_ROWS && headerCount <= values.Length
      modifies rows
      ensures RowAt(dest) == values[..headerCount]
      ensures forall i | 0 <= i < MAX_ROWS && i != dest :: RowAt(i) == old(RowAt(i))
    {
      var col := 0;
      while col < headerCount
        invariant col <= headerCount
        invariant forall j | 0 <= j < col :: rows[dest, j] == values[j]
        invariant forall i, j | 0 <= i < MAX_ROWS && i != dest && 0 <= j < headerCount :: rows[i, j] == old(rows[i, j])
      {
        rows[dest, col] := values[col];
        col := col + 1;
      }
    }

    /** Copy one row over another, column by column. */
    method CopyRow(dest: nat, src: nat)
      requires Valid() && dest < MAX_ROWS && src < MAX_ROWS
      modifies rows
      ensures RowAt(dest) == old(RowAt(src))
      ensures forall i | 0 <= i < MAX_ROWS && i != dest :: RowAt(i) == old(RowAt(i))
    {
      var col := 0;
      while col < headerCount
        invariant col <= headerCount
        invariant forall j | 0 <= j < col :: rows[dest, j] == old(rows[src, j])
        invariant forall j | col <= j < headerCount :: rows[dest, j] == old(rows[dest, j])
        invariant forall i, j | 0 <= i < MAX_ROWS && i != dest && 0 <= j < headerCount :: rows[i, j] == old(rows[i, j])
      {
        rows[dest, col] := rows[src, col];
        col := col + 1;
      }
    }

    lemma CellOfRow(i: nat, j: nat)
      requires Valid() && i < MAX_ROWS && j < headerCount
      ensures RowAt(i)[j] == rows[i, j]
    {
    }

    /** Keep only the rows that match (for a deletion: that do not match), moved to the front. */
    method KeepRows(column: nat, where: Where, matching: bool)
      requires Valid() && column < headerCount
      modifies this`rowCount, rows
      ensures Valid()
      ensures Rows() == Select(old(Rows()), column, where, matching)
    {
      hide RowAt, Rows, Select, CompareWithOperator, CompareValues;
      ghost var before := Rows();
      ghost var kept: seq<Row> := [];
      var readRow, writeRow := 0, 0;
      SelectNone(column, where, matching);
      while readRow < rowCount
        invariant writeRow <= readRow <= rowCount == |before|
        invariant kept == Select(before[..readRow], column, where, matching) && |kept| == writeRow
        invariant forall i | 0 <= i < writeRow :: RowAt(i) == kept[i]
        invariant forall i | readRow <= i < rowCount :: RowAt(i) == before[i]
      {
        SelectStep(before, readRow, column, where, matching);
        CellOfRow(readRow, column);
        if CompareWithOperator(CompareValues(rows[readRow, column], where.value), where.op) == matching {
          if writeRow != readRow {
            CopyRow(writeRow, readRow);
          }
          kept := kept + [before[readRow]];
          writeRow := writeRow + 1;
        }
        readRow := readRow + 1;
      }
      assert before[..rowCount] == before;
      rowCount := writeRow;
      RowsAre(kept);
    }

    lemma RowsAre(r: seq<Row>)
      requires Valid() && |r| == rowCount && forall i | 0 <= i < rowCount :: RowAt(i) == r[i]
      ensures Rows() == r
    {
    }

    /** Exchange a row with the next one, through a temporary row. */
    method SwapWithNext(row: nat)
      requires Valid() && row + 1 < rowCount
      modifies rows
      ensures Rows() == SwapAt(old(Rows()), row)
    {
      hide RowAt, Rows;
      ghost var before := Rows();
      var temp := new string[32](_ => "");
      var col := 0;
      while col < headerCount
        invariant col <= headerCount && fresh(temp) && Rows() == before
        invariant forall j | 0 <= j < col :: temp[j] == rows[row, j]
      {
        temp[col] := rows[row, col];
        col := col + 1;
      }
      ghost var saved := RowAt(row);
      SavedCells(row, temp);
      CopyRow(row, row + 1);
      PasteValues(row + 1, temp);
      assert forall i | 0 <= i < rowCount :: RowAt(i) == SwapAt(before, row)[i];
      RowsAre(SwapAt(before, row));
    }

    lemma SavedCells(row: nat, temp: array<string>)
      requires Valid() && row < MAX_ROWS && temp.Length == MAX_COLUMNS
      requires forall j | 0 <= j < headerCount :: temp[j] == rows[row, j]
      ensures temp[..headerCount] == RowAt(row)
    {
    }

    /** Bubble sort by one column; counts the exchanges. */
    method SortRows(column: nat, direction: Direction) returns (ghost swaps: nat)
      requires Valid() && column < headerCount
      modifies rows
      ensures Bubbled(Rows(), swaps) == BubbleSort(old(Rows()), RowOrder(column, direction))
    {
      hide RowAt, Rows, SwapAt, CompareValues;
      ghost var gt := RowOrder(column, direction);
      ghost var before := Rows();
      swaps := 0;
      var pass := 0;
      while pass + 1 < rowCount
        invariant |Rows()| == |before|
        invariant Passes(Bubbled(Rows(), swaps), pass, gt) == BubbleSort(before, gt)
        decreases rowCount - pass
      {
        ghost var start := Bubbled(Rows(), swaps);
        var row := 0;
        while row + 1 + pass < rowCount
          invariant row + 1 + pass <= rowCount && |Rows()| == |before|
          invariant Pass(Bubbled(Rows(), swaps), row, rowCount - 1 - pass, gt)
                 == Pass(start, 0, rowCount - 1 - pass, gt)
        {
          CellOfRow(row, column);
          CellOfRow(row + 1, column);
          var cmp := CompareValues(rows[row, column], rows[row + 1, column]);
          if (direction == Ascending && cmp > 0) || (direction == Descending && cmp < 0) {
            SwapWithNext(row);
            swaps := swaps + 1;
          }
          row := row + 1;
        }
        pass := pass + 1;
      }
    }

    /** No rows, the same columns. */
    method Clear()
      requires Valid()
      modifies this`rowCount
      ensures Valid() && Rows() == []
    {
      rowCount := 0;
    }

    method ApplyLimit(limit: nat)
      requires Valid()
      modifies this`rowCount
      ensures Valid() && Rows() == Limit(old(Rows()), limit)
    {
      if limit < rowCount {
        rowCount := limit;
      }
    }

    /** Replace each row by the values of the selected columns, which may repeat or outnumber the columns. */
    method ProjectRows(selected: array<nat>, count: nat)
      requires Valid() && count <= selected.Length == MAX_COLUMNS
      requires forall k | 0 <= k < count :: selected[k] < headerCount
      modifies this`headerCount, rows
      ensures Valid() && headerCount == count
      ensures Rows() == Project(old(Rows()), selected[..count])
    {
      hide RowAt, Rows;
      ghost var before := Rows();
      ghost var wide := headerCount;
      var row := 0;
      while row < rowCount
        invariant row <= rowCount && headerCount == wide
        invariant forall i | 0 <= i < row :: RowOf(rows, i, count) == ProjectRow(before[i], selected[..count])
        invariant forall i | row <= i < rowCount :: RowAt(i) == before[i]
      {
        ProjectOne(row, selected, count, before[row]);
        row := row + 1;
      }
      headerCount := count;
      NarrowRows(Project(before, selected[..count]));
    }

    /** The projection of one row: gather in a temporary row, then overwrite the front. */
    method ProjectOne(row: nat, selected: array<nat>, count: nat, ghost source: Row)
      requires Valid() && row < rowCount && count <= selected.Length == MAX_COLUMNS
      requires forall k | 0 <= k < count :: selected[k] < headerCount
      requires RowAt(row) == source
      modifies rows
      ensures RowOf(rows, row, count) == ProjectRow(source, selected[..count])
      ensures forall i | 0 <= i < MAX_ROWS && i != row :: RowAt(i) == old(RowAt(i))
      ensures forall i | 0 <= i < MAX_ROWS && i != row :: RowOf(rows, i, count) == old(RowOf(rows, i, count))
    {
      var temp := PickCells(row, selected, count, source);
      PutCells(row, temp, count);
    }

    method PickCells(row: nat, selected: array<nat>, count: nat, ghost source: Row) returns (temp: array<string>)
      requires Valid() && row < rowCount && count <= selected.Length == MAX_COLUMNS
      requires forall k | 0 <= k < count :: selected[k] < headerCount
      requires RowAt(row) == source
      ensures fresh(temp) && temp.Length == MAX_COLUMNS
      ensures forall j | 0 <= j < count :: temp[j] == source[selected[j]]
    {
      temp := new string[MAX_COLUMNS](_ => "");
      for col := 0 to count
        invariant forall j | 0 <= j < col :: temp[j] == source[selected[j]]
      {
        temp[col] := rows[row, selected[col]];
      }
    }

    method PutCells(row: nat, temp: array<string>, count: nat)
      requires Valid() && row < rowCount && count <= temp.Length == MAX_COLUMNS
      modifies rows
      ensures forall j | 0 <= j < count :: rows[row, j] == temp[j]
      ensures forall i, j | 0 <= i < MAX_ROWS && i != row && 0 <= j < MAX_COLUMNS :: rows[i, j] == old(rows[i, j])
    {
      for col := 0 to count
        invariant forall j | 0 <= j < col :: rows[row, j] == temp[j]
        invariant forall i, j | 0 <= i < MAX_ROWS && i != row && 0 <= j < MAX_COLUMNS :: rows[i, j] == old(rows[i, j])
      {
        rows[row, col] := temp[col];
      }
    }

    lemma NarrowRows(r: seq<Row>)
      requires Valid() && |r| == rowCount && forall i | 0 <= i < rowCount :: RowOf(rows, i, headerCount) == r[i]
      ensures Rows() == r
    {
    }

    /** Write new values into some columns of one row, in the order given. */
    method AssignRow(row: nat, columns: array<nat>, values: seq<string>)
      requires Valid() && row < rowCount && |values| <= columns.Length
      requires forall k | 0 <= k < |values| :: columns[k] < headerCount
      modifies rows
      ensures RowAt(row) == Assign(old(RowAt(row)), columns[..|values|], values)
      ensures forall i | 0 <= i < MAX_ROWS && i != row :: RowAt(i) == old(RowAt(i))
    {
      ghost var source := RowAt(row);
      var k := 0;
      while k < |values|
        invariant k <= |values|
        invariant RowAt(row) == Assign(source, columns[..k], values[..k])
        invariant forall i, j | 0 <= i < MAX_ROWS && i != row && 0 <= j < MAX_COLUMNS :: rows[i, j] == old(rows[i, j])
      {
        assert columns[..k + 1][..k] == columns[..k] && values[..k + 1][..k] == values[..k];
        rows[row, columns[k]] := values[k];
        assert RowAt(row) == Assign(source, columns[..k], values[..k])[columns[k] := values[k]];
        k := k + 1;
      }
      assert values[..|values|] == values;
    }
  }

  lemma SelectNone(column: nat, where: Where, matching: bool)
    ensures Select([], column, where, matching) == []
  {
  }

  lemma SelectStep(rows: seq<Row>, k: nat, column: nat, where: Where, matching: bool)
    requires (forall row <- rows :: column < |row|) && k < |rows|
    ensures Select(rows[..k + 1], column, where, matching)
         == Select(rows[..k], column, where, matching)
            + if CompareWithOperator(CompareValues(rows[k][column], where.value), where.op) == matching
              then [rows[k]] else []
  {
    assert rows[..k + 1][..k] == rows[..k];
  }
}
