/**
 The statements of member-dragon's executor as functions on the text of table files: what
 each one returns and what it leaves in the file.
 */
module DragonEngine {
  import opened Options
  import opened Comparison
  import opened StableSorting
  import opened ResultSets
  import opened FileCodec
  import opened Commands
  import R = Reordering

  type Files = map<string, string>

  predicate SameName(a: string, b: string) {
    a == b
  }

  function FileText(files: Files, path: string): string {
    if path in files then files[path] else []
  }

  function FullPath(dir: string, table: string): string {
    dir + "/" + table + ".data"
  }

  /** The path fits the 1024-byte buffer. */
  predicate PathFits(dir: string, table: string) {
    |FullPath(dir, table)| < 1024
  }

  function FindTable(tables: seq<TableDef>, name: string): (r: Option<TableDef>)
    ensures r.Some? ==> r.value in tables && r.value.name == name
    ensures r.None? ==> forall t <- tables :: t.name != name
  {
    if tables == [] then None
    else if tables[0].name == name then Some(tables[0])
    else FindTable(tables[1..], name)
  }

  function ColumnOf(table: TableDef, name: string): (r: int)
    ensures -1 <= r < |table.columns|
  {
    R.ColumnIndex(table.columns, name, SameName)
  }

  /** The rows of a table: none if its file does not exist. */
  function TableRows(dir: string, files: Files, table: TableDef): Result<seq<Row>> {
    if !PathFits(dir, table.name) then Err(ErrFileOpen)
    else ReadTable(FileText(files, FullPath(dir, table.name)), |table.columns|)
  }

  lemma {:induction false} ReadRowsShape(text: string, columns: nat, done: seq<Row>)
    requires forall row <- done :: |row| == columns
    requires ReadRows(text, columns, done).Ok?
    ensures forall row <- ReadRows(text, columns, done).value :: |row| == columns
    decreases |text|
  {
    hide ParseRow, LineLength;
    if text != [] {
      var n := LineLength(text);
      ParseRowShape(text[..n], columns);
      ReadRowsShape(text[n..], columns, done + [ParseRow(text[..n], columns).value]);
    }
  }

  /** Rows that were read have one value per column. */
  ghost predicate Wide(rows: seq<Row>, columns: nat) {
    forall row <- rows :: |row| == columns
  }

  lemma TableRowsWide(dir: string, files: Files, table: TableDef)
    requires TableRows(dir, files, table).Ok?
    ensures Wide(TableRows(dir, files, table).value, |table.columns|)
    ensures |TableRows(dir, files, table).value| <= MAX_ROWS
  {
    var text := FileText(files, FullPath(dir, table.name));
    ReadRowsShape(text, |table.columns|, []);
    ReadAtMostMax(text, |table.columns|, []);
  }

  // ---------- INSERT ----------

  /** Append the encoded row of a table that exists and has as many columns. */
  function InsertRow(dir: string, tables: seq<TableDef>, files: Files, name: string, row: Row): (ErrorCode, Files) {
    match FindTable(tables, name)
    case None => (ErrTableNotFound, files)
    case Some(table) =>
      if |row| != |table.columns| then (ErrColumnMismatch, files)
      else if !PathFits(dir, name) then (ErrFileOpen, files)
      else (ErrNone, files[FullPath(dir, name) := FileText(files, FullPath(dir, name)) + EncodeRow(row)])
  }

  // ---------- SELECT ----------

  /** A WHERE or ORDER BY column, if there is one, is a column of the table. */
  predicate WhereKnown(table: TableDef, where: Option<Where>) {
    where.Some? ==> ColumnOf(table, where.value.column) >= 0
  }

  predicate OrderKnown(table: TableDef, orderBy: Option<OrderBy>) {
    orderBy.Some? ==> ColumnOf(table, orderBy.value.column) >= 0
  }

  function Filtered(rows: seq<Row>, table: TableDef, where: Option<Where>): (r: seq<Row>)
    requires Wide(rows, |table.columns|) && WhereKnown(table, where)
  {
    match where
    case None => rows
    case Some(w) => Select(rows, ColumnOf(table, w.column), w, true)
  }

  function Ordered(rows: seq<Row>, table: TableDef, orderBy: Option<OrderBy>): (r: seq<Row>)
    requires OrderKnown(table, orderBy)
  {
    match orderBy
    case None => rows
    case Some(o) => BubbleSort(rows, RowOrder(ColumnOf(table, o.column), o.direction)).items
  }

  function Limited(rows: seq<Row>, limit: Option<nat>): seq<Row> {
    match limit
    case None => rows
    case Some(n) => Limit(rows, n)
  }

  /** The positions of the selected columns. */
  function Selection(table: TableDef, names: seq<string>): seq<int> {
    R.Indexes(table.columns, names, SameName)
  }

  predicate AllKnown(selection: seq<int>) {
    forall i | 0 <= i < |selection| :: selection[i] >= 0
  }

  lemma {:induction false} SelectWide(rows: seq<Row>, column: nat, where: Where, matching: bool, columns: nat)
    requires Wide(rows, columns) && column < columns
    ensures Wide(Select(rows, column, where, matching), columns)
    ensures |Select(rows, column, where, matching)| <= |rows|
  {
    if rows != [] {
      assert forall row <- rows[..|rows| - 1] :: row in rows;
      SelectWide(rows[..|rows| - 1], column, where, matching, columns);
      assert rows[|rows| - 1] in rows;
    }
  }

  lemma RowOrderAsymmetric(column: nat, direction: Direction)
    ensures Asymmetric(RowOrder(column, direction))
  {
    forall a: Row, b: Row ensures MustSwap(column, direction, a, b) ==> !MustSwap(column, direction, b, a) {
      if column < |a| && column < |b| {
        CompareAntisymmetric(a[column], b[column]);
      }
    }
  }

  lemma OrderedWide(rows: seq<Row>, table: TableDef, orderBy: Option<OrderBy>, columns: nat)
    requires Wide(rows, columns) && OrderKnown(table, orderBy)
    ensures Wide(Ordered(rows, table, orderBy), columns)
    ensures multiset(Ordered(rows, table, orderBy)) == multiset(rows)
  {
    hide BubbleSort;
    if orderBy.Some? {
      var gt := RowOrder(ColumnOf(table, orderBy.value.column), orderBy.value.direction);
      RowOrderAsymmetric(ColumnOf(table, orderBy.value.column), orderBy.value.direction);
      BubbleSortAccounts(rows, gt);
      assert forall row <- Ordered(rows, table, orderBy) :: row in multiset(rows);
    }
  }

  /** The rows before projection: filtered, ordered, limited. */
  function Picked(rows: seq<Row>, table: TableDef, where: Option<Where>, orderBy: Option<OrderBy>, limit: Option<nat>)
    : (r: seq<Row>)
    requires Wide(rows, |table.columns|) && WhereKnown(table, where) && OrderKnown(table, orderBy)
    ensures Wide(r, |table.columns|)
  {
    FilteredWide(rows, table, where);
    OrderedWide(Filtered(rows, table, where), table, orderBy, |table.columns|);
    Limited(Ordered(Filtered(rows, table, where), table, orderBy), limit)
  }

  lemma FilteredWide(rows: seq<Row>, table: TableDef, where: Option<Where>)
    requires Wide(rows, |table.columns|) && WhereKnown(table, where)
    ensures Wide(Filtered(rows, table, where), |table.columns|) && |Filtered(rows, table, where)| <= |rows|
  {
    if where.Some? {
      SelectWide(rows, ColumnOf(table, where.value.column), where.value, true, |table.columns|);
    }
  }

  datatype Answer = Answer(headers: seq<string>, rows: seq<Row>)

  /** What a SELECT shows of the rows of a table. */
  function SelectAnswer(rows: seq<Row>, table: TableDef, all: bool, columns: seq<string>, where: Option<Where>,
                        orderBy: Option<OrderBy>, limit: Option<nat>): Result<Answer>
    requires Wide(rows, |table.columns|)
  {
    if !WhereKnown(table, where) || !OrderKnown(table, orderBy) then Err(ErrInvalidQuery)
    else
      var picked := Picked(rows, table, where, orderBy, limit);
      if all then Ok(Answer(table.columns, picked))
      else
        var selection := Selection(table, columns);
        if !AllKnown(selection) then Err(ErrInvalidQuery) else Ok(Answer(columns, Project(picked, selection)))
  }

  // ---------- DELETE and UPDATE ----------

  /** What a deletion leaves. */
  function Remaining(rows: seq<Row>, table: TableDef, where: Option<Where>): (r: seq<Row>)
    requires Wide(rows, |table.columns|) && WhereKnown(table, where)
  {
    match where
    case None => []
    case Some(w) => Select(rows, ColumnOf(table, w.column), w, false)
  }

  predicate Selected(row: Row, table: TableDef, where: Option<Where>)
    requires |row| == |table.columns| && WhereKnown(table, where)
  {
    where.Some? ==> Matches(row, ColumnOf(table, where.value.column), where.value)
  }

  function SetNames(sets: seq<SetClause>): (r: seq<string>)
    ensures |r| == |sets| && forall i | 0 <= i < |sets| :: r[i] == sets[i].column
  {
    seq(|sets|, i requires 0 <= i < |sets| => sets[i].column)
  }

  function SetValues(sets: seq<SetClause>): (r: seq<string>)
    ensures |r| == |sets| && forall i | 0 <= i < |sets| :: r[i] == sets[i].value
  {
    seq(|sets|, i requires 0 <= i < |sets| => sets[i].value)
  }

  /** The SET columns are columns of the table, each named once. */
  predicate SetsKnown(table: TableDef, sets: seq<SetClause>) {
    R.DistinctKnown(Selection(table, SetNames(sets)), |table.columns|)
  }

  function UpdateRow(row: Row, table: TableDef, sets: seq<SetClause>, where: Option<Where>): (r: Row)
    requires |row| == |table.columns| && WhereKnown(table, where) && SetsKnown(table, sets)
    ensures |r| == |row|
  {
    if Selected(row, table, where) then Assign(row, Selection(table, SetNames(sets)), SetValues(sets)) else row
  }

  function Updated(rows: seq<Row>, table: TableDef, sets: seq<SetClause>, where: Option<Where>): (r: seq<Row>)
    requires Wide(rows, |table.columns|) && WhereKnown(table, where) && SetsKnown(table, sets)
    ensures |r| == |rows| && Wide(r, |table.columns|)
    ensures forall i | 0 <= i < |rows| :: r[i] == UpdateRow(rows[i], table, sets, where)
  {
    seq(|rows|, i requires 0 <= i < |rows| => UpdateRow(rows[i], table, sets, where))
  }

  // ---------- statements on files ----------

  /** Run a change of rows on the file of a table; `change` is None if the statement names an unknown column. */
  function RewriteTable(dir: string, tables: seq<TableDef>, files: Files, name: string,
                        known: TableDef -> bool, change: (TableDef, seq<Row>) --> seq<Row>): (ErrorCode, Files)
    requires forall t: TableDef, rows: seq<Row> :: Wide(rows, |t.columns|) && known(t) ==> change.requires(t, rows)
  {
    match FindTable(tables, name)
    case None => (ErrTableNotFound, files)
    case Some(table) =>
      match TableRows(dir, files, table)
      case Err(e) => (e, files)
      case Ok(rows) =>
        TableRowsWide(dir, files, table);
        if !known(table) then (ErrInvalidQuery, files)
        else (ErrNone, files[FullPath(dir, name) := EncodeTable(change(table, rows))])
  }

  function DeleteFile(dir: string, tables: seq<TableDef>, files: Files, name: string, where: Option<Where>)
    : (ErrorCode, Files)
  {
    RewriteTable(dir, tables, files, name, (t: TableDef) => WhereKnown(t, where),
                 (t: TableDef, rows: seq<Row>) requires Wide(rows, |t.columns|) && WhereKnown(t, where)
                   => Remaining(rows, t, where))
  }

  function UpdateFile(dir: string, tables: seq<TableDef>, files: Files, name: string, sets: seq<SetClause>,
                      where: Option<Where>): (ErrorCode, Files)
  {
    RewriteTable(dir, tables, files, name, (t: TableDef) => WhereKnown(t, where) && SetsKnown(t, sets),
                 (t: TableDef, rows: seq<Row>)
                    requires Wide(rows, |t.columns|) && WhereKnown(t, where) && SetsKnown(t, sets)
                   => Updated(rows, t, sets, where))
  }

  /** What a DELETE does to the file of its table. */
  lemma DeleteFileIs(dir: string, tables: seq<TableDef>, files: Files, name: string, where: Option<Where>)
    ensures DeleteFile(dir, tables, files, name, where)
         == match FindTable(tables, name)
            case None => (ErrTableNotFound, files)
            case Some(table) =>
              match TableRows(dir, files, table)
              case Err(e) => (e, files)
              case Ok(rows) =>
                (TableRowsWide(dir, files, table);
                 if WhereKnown(table, where)
                 then (ErrNone, files[FullPath(dir, name) := EncodeTable(Remaining(rows, table, where))])
                 else (ErrInvalidQuery, files))
  {
    hide FullPath, EncodeTable, Remaining, ReadTable;
  }

  /** What an UPDATE does to the file of its table. */
  lemma UpdateFileIs(dir: string, tables: seq<TableDef>, files: Files, name: string, sets: seq<SetClause>,
                     where: Option<Where>)
    ensures UpdateFile(dir, tables, files, name, sets, where)
         == match FindTable(tables, name)
            case None => (ErrTableNotFound, files)
            case Some(table) =>
              match TableRows(dir, files, table)
              case Err(e) => (e, files)
              case Ok(rows) =>
                (TableRowsWide(dir, files, table);
                 if WhereKnown(table, where) && SetsKnown(table, sets)
                 then (ErrNone, files[FullPath(dir, name) := EncodeTable(Updated(rows, table, sets, where))])
                 else (ErrInvalidQuery, files))
  {
    hide FullPath, EncodeTable, Updated, R.DistinctKnown, Selection, ReadTable;
  }

  /** An INSERT: the values in schema order, appended. */
  function InsertFile(dir: string, tables: seq<TableDef>, files: Files, name: string, columns: seq<string>,
                      values: seq<string>): (ErrorCode, Files)
  {
    match FindTable(tables, name)
    case None => (ErrTableNotFound, files)
    case Some(table) =>
      match R.Decision(table.columns, columns, values, SameName)
      case CountMismatch => (ErrColumnMismatch, files)
      case Invalid => (ErrInvalidQuery, files)
      case Accepted =>
        InsertRow(dir, tables, files, name, R.Reordered(table.columns, columns, values, SameName))
  }
}
