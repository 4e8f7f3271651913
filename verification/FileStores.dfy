/**
 The file store and the executor of member-dragon: statements that read a table into the
 working buffer, change it in place and write the file again.
 */
module FileStores {
  import opened Options
  import opened CStrings
  import opened Comparison
  import opened StableSorting
  import opened ResultSets
  import opened FileCodec
  import opened Commands
  import opened DragonEngine
  import R = Reordering

  // ---------- the row codec, with its cursor ----------

  method WriteEncodedRow(values: array<string>, count: nat) returns (text: string)
    requires count <= values.Length
    ensures text == EncodeRow(values[..count])
  {
    hide EncodeValue;
    text := "";
    for i := 0 to count
      invariant EncodeValues(values[..count]) == text + EncodeValues(values[i..count])
    {
      assert values[i..count] == [values[i]] + values[i + 1..count];
      EncodedFirst(values[i], values[i + 1..count]);
      text := text + EncodeValue(values[i]);
    }
    assert values[count..count] == [];
    text := text + "\n";
  }

  lemma EncodedFirst(v: string, rest: Row)
    ensures EncodeValues([v] + rest) == EncodeValue(v) + EncodeValues(rest)
  {
    assert ([v] + rest)[1..] == rest;
  }

  /** A length and its colon at the cursor. */
  method ParseNextLength(line: string, cursor: nat) returns (ok: bool, len: nat, next: nat)
    requires cursor <= |line|
    ensures (if ok then Some((len, next)) else None) == ParseLength(line, cursor)
  {
    len := 0;
    next := cursor;
    while '0' <= At(line, next) <= '9'
      invariant cursor <= next <= |line|
      invariant forall j | cursor <= j < next :: IsDigit(line[j])
      invariant len == WrappedValue(line[cursor..next])
      decreases |line| - next
    {
      assert line[cursor..next + 1][..next - cursor] == line[cursor..next];
      len := (10 * len + DigitOf(line[next])) % TWO_64;
      next := next + 1;
    }
    SkipDigitsExactly(line, cursor, next);
    if next == cursor || At(line, next) != ':' {
      return false, len, next;
    }
    return true, len, next + 1;
  }

  /** The values read so far, in front of those that are read behind them. */
  function Ahead(values: Row, r: Option<(Row, nat)>): Option<(Row, nat)> {
    match r
    case None => None
    case Some((rest, end)) => Some((values + rest, end))
  }

  /** One value, at a position of the line. */
  lemma ValueStep(line: string, pos: nat, count: nat, values: Row)
    requires pos <= |line| && count > 0
    ensures Ahead(values, ParseValues(line, pos, count))
         == match ParseLength(line, pos)
            case None => None
            case Some((len, start)) =>
              if len >= MAX_VALUE_LEN || |line| - start < len then None
              else Ahead(values + [line[start..start + len]], ParseValues(line, start + len, count - 1))
  {
    hide ParseLength;
    if ParseLength(line, pos).Some? {
      var (len, start) := ParseLength(line, pos).value;
      if len < MAX_VALUE_LEN && |line| - start >= len {
        var rest := ParseValues(line, start + len, count - 1);
        var v := line[start..start + len];
        assert rest.Some? ==> values + ([v] + rest.value.0) == values + [v] + rest.value.0;
      }
    }
  }

  lemma ValuesEnd(line: string, pos: nat, count: nat, values: Row)
    requires pos <= |line|
    ensures Ahead([], ParseValues(line, pos, count)) == ParseValues(line, pos, count)
    ensures Ahead(values, ParseValues(line, pos, 0)) == Some((values, pos))
  {
    hide ParseLength;
    var r := ParseValues(line, pos, count);
    assert r.Some? ==> [] + r.value.0 == r.value.0;
    assert values + [] == values;
  }

  method ParseEncodedRow(line: string, columns: nat, values: array<string>) returns (ok: bool)
    requires columns <= values.Length
    modifies values
    ensures (if ok then Some(values[..columns]) else None) == ParseRow(line, columns)
  {
    hide ParseLength, ParseValues, Ahead;
    var cursor: nat := 0;
    assert values[..0] == [];
    ValuesEnd(line, 0, columns, []);
    for col := 0 to columns
      invariant cursor <= |line|
      invariant Ahead(values[..col], ParseValues(line, cursor, columns - col)) == ParseValues(line, 0, columns)
    {
      ghost var before := values[..col];
      ValueStep(line, cursor, columns - col, before);
      var found, len, start := ParseNextLength(line, cursor);
      if !found || len >= MAX_VALUE_LEN {
        return false;
      }
      if |line| - start < len {
        return false;
      }
      values[col] := line[start..start + len];
      cursor := start + len;
      assert values[..col + 1] == before + [line[start..start + len]];
    }
    ValuesEnd(line, cursor, 0, values[..columns]);
    var end := cursor;
    while end < |line| && (line[end] == '\r' || line[end] == '\n')
      invariant cursor <= end <= |line|
      invariant SkipNewlines(line, cursor) == SkipNewlines(line, end)
    {
      end := end + 1;
    }
    return end == |line|;
  }

  /** The next line of a file, as much of it as fits the line buffer. */
  method GetLine(text: string) returns (n: nat)
    ensures n == LineLength(text)
  {
    n := 0;
    while n < |text| && n < MAX_ROW_LINE_LEN - 1
      invariant n <= |text| && n <= MAX_ROW_LINE_LEN - 1
      invariant forall j | 0 <= j < n :: text[j] != '\n'
    {
      n := n + 1;
      if text[n - 1] == '\n' {
        LineEndIs(text, n - 1);
        return;
      }
    }
    LineEndBeyond(text, n);
  }

  lemma {:induction false} LineEndBeyond(text: string, n: nat)
    requires n <= |text| && forall j | 0 <= j < n :: text[j] != '\n'
    ensures LineEnd(text) >= n
    ensures n == |text| ==> LineEnd(text) == n
  {
    if n > 0 {
      assert text[0] != '\n';
      LineEndBeyond(text[1..], n - 1);
    }
  }

  class FileStore {
    const tables: seq<TableDef>
    const dataDir: string
    var files: Files

    constructor (tables: seq<TableDef>, dataDir: string, files: Files)
      ensures this.tables == tables && this.dataDir == dataDir && this.files == files
    {
      this.tables, this.dataDir, this.files := tables, dataDir, files;
    }

    /** Schemas have 1 to 32 columns. */
    ghost predicate Valid() {
      forall t <- tables :: 0 < |t.columns| <= MAX_COLUMNS
    }

    method Find(name: string) returns (table: Option<TableDef>)
      ensures table == FindTable(tables, name)
    {
      for i := 0 to |tables|
        invariant FindTable(tables, name) == FindTable(tables[i..], name)
      {
        if tables[i].name == name {
          return Some(tables[i]);
        }
      }
      return None;
    }

    /** Read a whole table into the buffer. */
    method LoadFullTable(table: TableDef, out: ResultSet) returns (status: ErrorCode)
      requires |table.columns| <= MAX_COLUMNS && out.Valid()
      modifies out, out.rows, out.headers
      ensures out.Valid()
      ensures match TableRows(dataDir, files, table)
              case Err(e) => status == e
              case Ok(rows) => status == ErrNone && out.Rows() == rows && out.Headers() == table.columns
                               && out.headerCount == |table.columns|
    {
      hide ParseRow, LineLength, ResultSet.Rows;
      out.SetFullHeaders(table.columns);
      if !PathFits(dataDir, table.name) {
        return ErrFileOpen;
      }
      var text := FileText(files, FullPath(dataDir, table.name));
      var columns := |table.columns|;
      var rowValues := new string[32](_ => "");
      var pos := 0;
      assert text[0..] == text;
      while pos < |text|
        invariant pos <= |text| && out.Valid() && out.headerCount == columns && out.Headers() == table.columns
        invariant fresh(rowValues)
        invariant ReadRows(text[pos..], columns, out.Rows()) == ReadTable(text, columns)
      {
        var n := GetLine(text[pos..]);
        var line := text[pos..][..n];
        if out.rowCount >= MAX_ROWS {
          return ErrInvalidQuery;
        }
        var ok := ParseEncodedRow(line, columns, rowValues);
        if !ok {
          return ErrFileOpen;
        }
        assert text[pos..][n..] == text[pos + n..];
        out.AddRow(rowValues);
        pos := pos + n;
      }
      assert text[pos..] == [];
      return ErrNone;
    }

    /** Add one row behind the file of a table. */
    method AppendRow(name: string, values: array<string>, count: nat) returns (status: ErrorCode)
      requires count <= values.Length
      modifies this
      ensures var (s, f) := InsertRow(dataDir, tables, old(files), name, values[..count]);
              status == s && files == f
    {
      hide EncodeRow;
      var table := Find(name);
      if table == None {
        return ErrTableNotFound;
      }
      if count != |table.value.columns| {
        return ErrColumnMismatch;
      }
      if !PathFits(dataDir, name) {
        return ErrFileOpen;
      }
      var text := WriteEncodedRow(values, count);
      files := files[FullPath(dataDir, name) := FileText(files, FullPath(dataDir, name)) + text];
      return ErrNone;
    }

    method ReadAllRows(name: string, out: ResultSet) returns (status: ErrorCode)
      requires Valid() && out.Valid()
      modifies out, out.rows, out.headers
      ensures out.Valid()
      ensures match FindTable(tables, name)
              case None => status == ErrTableNotFound
              case Some(table) =>
                match TableRows(dataDir, files, table)
                case Err(e) => status == e
                case Ok(rows) => status == ErrNone && out.Rows() == rows && out.Headers() == table.columns
                                 && out.headerCount == |table.columns|
    {
      var table := Find(name);
      if table == None {
        return ErrTableNotFound;
      }
      status := LoadFullTable(table.value, out);
    }

    /** Write the whole table again from the buffer. */
    method ReplaceRows(name: string, rows: ResultSet) returns (status: ErrorCode)
      requires rows.Valid() && rows.rows.Length1 == MAX_COLUMNS
      requires FindTable(tables, name).Some? ==> rows.headerCount == |FindTable(tables, name).value.columns|
      modifies this
      ensures rows.Valid() && rows.Rows() == old(rows.Rows())
      ensures if FindTable(tables, name).None? then status == ErrTableNotFound && files == old(files)
              else if !PathFits(dataDir, name) then status == ErrFileOpen && files == old(files)
              else status == ErrNone && files == old(files)[FullPath(dataDir, name) := EncodeTable(old(rows.Rows()))]
    {
      hide EncodeRow, ResultSet.Rows, ResultSet.RowAt;
      var table := Find(name);
      if table == None {
        return ErrTableNotFound;
      }
      if rows.headerCount != 0 && rows.headerCount != |table.value.columns| {
        return ErrInvalidQuery;
      }
      if !PathFits(dataDir, name) {
        return ErrFileOpen;
      }
      var text := "";
      var values := new string[32](_ => "");
      ghost var all := rows.Rows();
      assert all[0..] == all;
      for row := 0 to rows.rowCount
        invariant fresh(values) && rows.Valid() && rows.Rows() == all && files == old(files)
        invariant text + EncodeTable(all[row..]) == EncodeTable(all)
      {
        GetRow(rows, row, values);
        var line := WriteEncodedRow(values, rows.headerCount);
        assert all[row..] == [all[row]] + all[row + 1..];
        TableFirst(all[row], all[row + 1..]);
        text := text + line;
      }
      assert all[rows.rowCount..] == [] && text + [] == text;
      files := files[FullPath(dataDir, name) := text];
      return ErrNone;
    }

    /** The values of one row of the buffer. */
    method GetRow(rows: ResultSet, row: nat, values: array<string>)
      requires rows.Valid() && row < rows.rowCount && values.Length == MAX_COLUMNS && values != rows.headers
      modifies values
      ensures values[..rows.headerCount] == rows.Rows()[row]
    {
      for col := 0 to rows.headerCount
        invariant forall j | 0 <= j < col :: values[j] == rows.rows[row, j]
      {
        values[col] := rows.rows[row, col];
      }
    }

    /** Resolve column names, in the order given; false at the first unknown one. */
    method ResolveColumns(table: TableDef, names: seq<string>, indexes: array<nat>) returns (ok: bool)
      requires |names| <= indexes.Length
      modifies indexes
      ensures ok <==> AllKnown(Selection(table, names))
      ensures ok ==> indexes[..|names|] == Selection(table, names)
    {
      hide R.ColumnIndex;
      for col := 0 to |names|
        invariant forall j | 0 <= j < col :: indexes[j] == Selection(table, names)[j]
      {
        var index := R.FindColumn(table.columns, names[col], SameName);
        if index < 0 {
          return false;
        }
        indexes[col] := index;
      }
      return true;
    }

    /** Keep only the selected columns, in the buffer. */
    method ProjectResultSet(result: ResultSet, table: TableDef, all: bool, columns: seq<string>)
      returns (status: ErrorCode)
      requires result.Valid() && result.headerCount == |table.columns| <= MAX_COLUMNS && |columns| <= MAX_COLUMNS
      modifies result, result.rows, result.headers
      ensures result.Valid()
      ensures if all then status == ErrNone && result.Rows() == old(result.Rows()) && result.Headers() == table.columns
              else if !AllKnown(Selection(table, columns)) then status == ErrInvalidQuery
              else status == ErrNone && Wide(old(result.Rows()), |table.columns|)
                   && result.Rows() == Project(old(result.Rows()), Selection(table, columns))
                   && result.Headers() == columns
    {
      hide ResultSet.Rows, ResultSet.RowAt;
      if all {
        result.SetHeaders(table.columns);
        return ErrNone;
      }
      var selected := new nat[32](_ => 0);
      var ok := ResolveColumns(table, columns, selected);
      if !ok {
        return ErrInvalidQuery;
      }
      assert forall k | 0 <= k < |columns| :: selected[k] == selected[..|columns|][k];
      result.ProjectRows(selected, |columns|);
      result.SetHeaders(columns);
      return ErrNone;
    }

    /** The column that a WHERE goes by, if there is one. */
    static method ResolveWhereColumn(table: TableDef, where: Option<Where>) returns (ok: bool, column: int)
      ensures ok <==> WhereKnown(table, where)
      ensures ok && where.Some? ==> column == ColumnOf(table, where.value.column)
    {
      hide R.ColumnIndex;
      if where.None? {
        return true, -1;
      }
      column := R.FindColumn(table.columns, where.value.column, SameName);
      return column >= 0, column;
    }

    /** The column that an ORDER BY goes by, if there is one. */
    static method ResolveOrderByColumn(table: TableDef, orderBy: Option<OrderBy>) returns (ok: bool, column: int)
      ensures ok <==> OrderKnown(table, orderBy)
      ensures ok && orderBy.Some? ==> column == ColumnOf(table, orderBy.value.column)
    {
      hide R.ColumnIndex;
      if orderBy.None? {
        return true, -1;
      }
      column := R.FindColumn(table.columns, orderBy.value.column, SameName);
      return column >= 0, column;
    }

    /** Filter, sort and limit the buffer, once the columns to go by are resolved. */
    method PickRows(result: ResultSet, table: TableDef, where: Option<Where>,
                    orderBy: Option<OrderBy>, limit: Option<nat>)
      returns (status: ErrorCode)
      requires result.Valid() && result.headerCount == |table.columns|
      modifies result`rowCount, result.rows
      ensures result.Valid() && Wide(old(result.Rows()), |table.columns|)
      ensures if !WhereKnown(table, where) || !OrderKnown(table, orderBy) then status == ErrInvalidQuery
              else status == ErrNone && result.Rows() == Picked(old(result.Rows()), table, where, orderBy, limit)
    {
      hide ResultSet.Rows, ResultSet.RowAt, Select, BubbleSort, R.ColumnIndex, Limit;
      ghost var rows := result.Rows();
      assert Wide(rows, |table.columns|);
      var ok, whereColumn := ResolveWhereColumn(table, where);
      if !ok {
        return ErrInvalidQuery;
      }
      var orderColumn;
      ok, orderColumn := ResolveOrderByColumn(table, orderBy);
      if !ok {
        return ErrInvalidQuery;
      }
      if where.Some? {
        result.KeepRows(whereColumn, where.value, true);
      }
      assert result.Rows() == Filtered(rows, table, where);
      if orderBy.Some? {
        ghost var swaps := result.SortRows(orderColumn, orderBy.value.direction);
      }
      assert result.Rows() == Ordered(Filtered(rows, table, where), table, orderBy);
      if limit.Some? {
        result.ApplyLimit(limit.value);
      }
      return ErrNone;
    }

    /**
     SELECT: the whole table is read, filtered, sorted, limited and projected in one buffer.
     */
    method ExecuteSelect(name: string, all: bool, columns: seq<string>, where: Option<Where>, orderBy: Option<OrderBy>,
                         limit: Option<nat>)
      returns (status: ErrorCode, result: ResultSet)
      requires Valid() && |columns| <= MAX_COLUMNS
      ensures fresh(result) && result.Valid()
      ensures match FindTable(tables, name)
              case None => status == ErrTableNotFound
              case Some(table) =>
                match TableRows(dataDir, files, table)
                case Err(e) => status == e
                case Ok(rows) =>
                  Wide(rows, |table.columns|)
                  && match SelectAnswer(rows, table, all, columns, where, orderBy, limit)
                     case Err(e) => status == e
                     case Ok(answer) =>
                       status == ErrNone && result.Headers() == answer.headers && result.Rows() == answer.rows
    {
      hide ResultSet.Rows, ResultSet.RowAt, ResultSet.Headers, Project, R.ColumnIndex, ReadTable, Picked,
           WhereKnown, OrderKnown;
      result := new ResultSet();
      var found := Find(name);
      if found == None {
        status := ErrTableNotFound;
        return;
      }
      var table := found.value;
      ReadFails(dataDir, files, table);
      status := ReadAllRows(name, result);
      if status != ErrNone {
        return;
      }
      TableRowsWide(dataDir, files, table);
      status := PickRows(result, table, where, orderBy, limit);
      if status != ErrNone {
        return;
      }
      status := ProjectResultSet(result, table, all, columns);
    }

    /** DELETE: the rows that stay are written again. */
    method ExecuteDelete(name: string, where: Option<Where>) returns (status: ErrorCode)
      requires Valid()
      modifies this
      ensures (status, files) == DeleteFile(dataDir, tables, old(files), name, where)
    {
      hide ResultSet.Rows, ResultSet.RowAt, ResultSet.Headers, R.ColumnIndex, ReadTable, Select, EncodeTable,
           FullPath, DeleteFile;
      DeleteFileIs(dataDir, tables, files, name, where);
      var found := Find(name);
      if found == None {
        return ErrTableNotFound;
      }
      var table := found.value;
      var result := new ResultSet();
      ReadFails(dataDir, files, table);
      status := ReadAllRows(name, result);
      if status != ErrNone {
        return;
      }
      TableRowsWide(dataDir, files, table);
      var ok, column := ResolveWhereColumn(table, where);
      if !ok {
        return ErrInvalidQuery;
      }
      if where.Some? {
        result.KeepRows(column, where.value, false);
      } else {
        result.Clear();
      }
      status := ReplaceRows(name, result);
    }

    /** UPDATE: the rows that match get new values, and the table is written again. */
    method ExecuteUpdate(name: string, sets: seq<SetClause>, where: Option<Where>) returns (status: ErrorCode)
      requires Valid() && |sets| <= 32
      modifies this
      ensures (status, files) == UpdateFile(dataDir, tables, old(files), name, sets, where)
    {
      hide ResultSet.Rows, ResultSet.RowAt, ResultSet.Headers, R.ColumnIndex, ReadTable, Assign, EncodeTable,
           FullPath, UpdateRow, R.DistinctKnown, Selection, UpdateFile, Updated, SetsKnown, Wide, WhereKnown;
      UpdateFileIs(dataDir, tables, files, name, sets, where);
      var found := Find(name);
      if found == None {
        return ErrTableNotFound;
      }
      var table := found.value;
      var result := new ResultSet();
      ReadFails(dataDir, files, table);
      status := ReadAllRows(name, result);
      if status != ErrNone {
        return;
      }
      TableRowsWide(dataDir, files, table);
      var ok, column := ResolveWhereColumn(table, where);
      if !ok {
        return ErrInvalidQuery;
      }
      var indexes := new nat[32](_ => 0);
      ok := ResolveSetColumns(table, sets, indexes);
      if !ok {
        return ErrInvalidQuery;
      }
      UpdateRows(result, table, sets, where, column, indexes);
      status := ReplaceRows(name, result);
    }

    /** The columns of the SET clauses: known, and none twice. */
    method ResolveSetColumns(table: TableDef, sets: seq<SetClause>, indexes: array<nat>) returns (ok: bool)
      requires |sets| <= indexes.Length
      modifies indexes
      ensures ok <==> SetsKnown(table, sets)
      ensures ok ==> indexes[..|sets|] == Selection(table, SetNames(sets))
    {
      hide R.ColumnIndex, R.DistinctKnown, R.Marked;
      ghost var selection := Selection(table, SetNames(sets));
      var seen := new bool[|table.columns|](_ => false);
      NoneMarked(seen[..], selection);
      for i := 0 to |sets|
        invariant fresh(seen) && R.Marked(seen[..], selection, i)
        invariant forall j | 0 <= j < i :: indexes[j] == selection[j]
        invariant R.DistinctKnown(selection[..i], |table.columns|)
      {
        var index := R.FindColumn(table.columns, sets[i].column, SameName);
        R.RejectNext(seen[..], selection, i);
        if index < 0 || seen[index] {
          return false;
        }
        R.MarkNext(seen[..], selection, i);
        DistinctNext(selection, |table.columns|, i);
        ghost var marks := seen[..];
        indexes[i] := index;
        seen[index] := true;
        assert seen[..] == marks[index := true];
      }
      assert selection[..|sets|] == selection;
      return true;
    }

    /** Write the new values into every row that matches. */
    method UpdateRows(result: ResultSet, table: TableDef, sets: seq<SetClause>, where: Option<Where>, column: int,
                      indexes: array<nat>)
      requires result.Valid() && result.headerCount == |table.columns| && |sets| <= indexes.Length
      requires WhereKnown(table, where) && SetsKnown(table, sets)
               && indexes[..|sets|] == Selection(table, SetNames(sets))
      requires where.Some? ==> column == ColumnOf(table, where.value.column)
      modifies result.rows
      ensures Wide(old(result.Rows()), |table.columns|)
      ensures result.Rows() == Updated(old(result.Rows()), table, sets, where)
    {
      hide ResultSet.Rows, ResultSet.RowAt, R.ColumnIndex, Assign, CompareValues;
      ghost var rows := result.Rows();
      assert Wide(rows, |table.columns|);
      assert forall k | 0 <= k < |sets| :: indexes[k] == indexes[..|sets|][k];
      for row := 0 to result.rowCount
        invariant forall i | 0 <= i < row :: result.RowAt(i) == UpdateRow(rows[i], table, sets, where)
        invariant forall i | row <= i < result.rowCount :: result.RowAt(i) == rows[i]
      {
        var matches := true;
        if where.Some? {
          result.CellOfRow(row, column);
          matches := CompareWithOperator(CompareValues(result.rows[row, column], where.value.value), where.value.op);
        }
        if matches {
          result.AssignRow(row, indexes, SetValues(sets));
        }
      }
      result.RowsAre(Updated(rows, table, sets, where));
    }

    /** INSERT: the values are put into schema order and appended to the file. */
    method ExecuteInsert(name: string, columns: seq<string>, values: seq<string>)
      returns (status: ErrorCode)
      requires Valid()
      modifies this
      ensures (status, files) == InsertFile(dataDir, tables, old(files), name, columns, values)
    {
      hide R.ColumnIndex, R.DistinctKnown, R.InPlace, R.Decision, R.Reordered;
      var found := Find(name);
      if found == None {
        status := ErrTableNotFound;
        return;
      }
      var table := found.value;
      var reordered := new string[32](_ => "");
      var outcome := R.ReorderInsertValues(table.columns, columns, values, SameName, reordered);
      if outcome == R.CountMismatch {
        status := ErrColumnMismatch;
        return;
      }
      if outcome == R.Invalid {
        status := ErrInvalidQuery;
        return;
      }
      OnlyFilling(table, columns, values, reordered[..|table.columns|]);
      status := AppendRow(name, reordered, |table.columns|);
    }
  }

  /** The slots that the loop filled are the reordered values. */
  lemma OnlyFilling(table: TableDef, columns: seq<string>, values: seq<string>, slots: seq<string>)
    requires R.Decision(table.columns, columns, values, SameName) == R.Accepted && |slots| == |table.columns|
    requires R.InPlace(slots, R.Indexes(table.columns, columns, SameName), values)
    ensures slots == R.Reordered(table.columns, columns, values, SameName)
  {
    hide R.ColumnIndex, R.InPlace;
    R.ReorderedInPlace(table.columns, columns, values, SameName);
    R.FillingIsUnique(slots, R.Reordered(table.columns, columns, values, SameName),
                      R.Indexes(table.columns, columns, SameName), values);
  }

  lemma NoneMarked(marks: seq<bool>, indexes: seq<int>)
    requires forall k | 0 <= k < |marks| :: !marks[k]
    ensures R.Marked(marks, indexes, 0) && forall n: nat :: R.DistinctKnown(indexes[..0], n)
  {
  }

  lemma DistinctNext(indexes: seq<int>, n: nat, i: nat)
    requires i < |indexes| && R.DistinctKnown(indexes[..i], n) && 0 <= indexes[i] < n && indexes[i] !in indexes[..i]
    ensures R.DistinctKnown(indexes[..i + 1], n)
  {
    assert forall k | 0 <= k < i :: indexes[k] == indexes[..i][k];
  }

  /** Reading a table never fails with the code for success. */
  lemma ReadFails(dir: string, files: Files, table: TableDef)
    ensures TableRows(dir, files, table) != Err(ErrNone)
  {
    ReadRowsFails(FileText(files, FullPath(dir, table.name)), |table.columns|, []);
  }

  lemma {:induction false} ReadRowsFails(text: string, columns: nat, done: seq<Row>)
    ensures ReadRows(text, columns, done) != Err(ErrNone)
    decreases |text|
  {
    hide ParseRow, LineLength;
    if text != [] && |done| < MAX_ROWS {
      var n := LineLength(text);
      match ParseRow(text[..n], columns)
      case None =>
      case Some(row) => ReadRowsFails(text[n..], columns, done + [row]);
    }
  }
}
