/**
 Whole runs of member-dragon's statements over any number of tables: the table files are the
 encoding of row lists on which the statements act as their meaning says.
 */
module DragonRuns {
  import opened Options
  import opened CStrings
  import opened ResultSets
  import opened FileCodec
  import opened Commands
  import opened DragonEngine
  import opened DragonMeaning
  import S = DragonScripts
  import R = Reordering

  /** The rows of each table, without files. */
  type Store = map<string, seq<Row>>

  function RowsIn(store: Store, name: string): seq<Row> {
    if name in store then store[name] else []
  }

  ghost predicate Shaped(tables: seq<TableDef>, store: Store) {
    forall name | FindTable(tables, name).Some? :: Wide(RowsIn(store, name), |FindTable(tables, name).value.columns|)
  }

  // ---------- the meaning of a statement ----------

  /** What a statement reports: its status, or the rows that a SELECT shows. */
  datatype Reply = Done(status: ErrorCode) | Shown(answer: Answer)

  function ReplyOf(r: Result<Answer>): Reply {
    match r
    case Err(e) => Done(e)
    case Ok(answer) => Shown(answer)
  }

  /** Statements that read their table first reject one with more rows than the working buffer has. */
  predicate Overfull(store: Store, name: string) {
    |RowsIn(store, name)| > MAX_ROWS
  }

  function Perform(tables: seq<TableDef>, store: Store, cmd: Command): (Reply, Store)
    requires Shaped(tables, store)
  {
    match cmd
    case NoCommand => (Done(ErrNone), store)
    case SelectFrom(name, all, columns, where, orderBy, limit) =>
      (match FindTable(tables, name)
       case None => (Done(ErrTableNotFound), store)
       case Some(table) =>
         if Overfull(store, name) then (Done(ErrInvalidQuery), store)
         else (ReplyOf(SelectAnswer(RowsIn(store, name), table, all, columns, where, orderBy, limit)), store))
    case InsertInto(name, columns, values) =>
      (match FindTable(tables, name)
       case None => (Done(ErrTableNotFound), store)
       case Some(table) =>
         match R.Decision(table.columns, columns, values, SameName)
         case CountMismatch => (Done(ErrColumnMismatch), store)
         case Invalid => (Done(ErrInvalidQuery), store)
         case Accepted =>
           var row := R.Reordered(table.columns, columns, values, SameName);
           (Done(ErrNone), store[name := RowsIn(store, name) + [row]]))
    case DeleteFrom(name, where) =>
      (match FindTable(tables, name)
       case None => (Done(ErrTableNotFound), store)
       case Some(table) =>
         if Overfull(store, name) || !WhereKnown(table, where) then (Done(ErrInvalidQuery), store)
         else (Done(ErrNone), store[name := Remaining(RowsIn(store, name), table, where)]))
    case UpdateSet(name, sets, where) =>
      (match FindTable(tables, name)
       case None => (Done(ErrTableNotFound), store)
       case Some(table) =>
         if Overfull(store, name) || !WhereKnown(table, where) || !SetsKnown(table, sets)
         then (Done(ErrInvalidQuery), store)
         else (Done(ErrNone), store[name := Updated(RowsIn(store, name), table, sets, where)]))
  }

  lemma ShapedAfter(tables: seq<TableDef>, store: Store, name: string, rows: seq<Row>)
    requires Shaped(tables, store) && FindTable(tables, name).Some?
    requires Wide(rows, |FindTable(tables, name).value.columns|)
    ensures Shaped(tables, store[name := rows])
  {
    hide Wide, FindTable;
  }

  lemma InsertedWide(rows: seq<Row>, table: TableDef, columns: seq<string>, values: seq<string>)
    requires Wide(rows, |table.columns|) && R.Decision(table.columns, columns, values, SameName) == R.Accepted
    ensures Wide(rows + [R.Reordered(table.columns, columns, values, SameName)], |table.columns|)
  {
    hide R.Decision, R.Reordered;
    ReorderedWide(table, columns, values);
  }

  lemma UpdatedWide(rows: seq<Row>, table: TableDef, sets: seq<SetClause>, where: Option<Where>)
    requires Wide(rows, |table.columns|) && WhereKnown(table, where) && SetsKnown(table, sets)
    ensures Wide(Updated(rows, table, sets, where), |table.columns|)
  {
    hide WhereKnown, SetsKnown, UpdateRow;
  }

  lemma RemainingWide(rows: seq<Row>, table: TableDef, where: Option<Where>)
    requires Wide(rows, |table.columns|) && WhereKnown(table, where)
    ensures Wide(Remaining(rows, table, where), |table.columns|)
  {
    hide R.ColumnIndex, Matches;
    if where.Some? {
      SelectWide(rows, ColumnOf(table, where.value.column), where.value, false, |table.columns|);
    }
  }

  lemma PerformShaped(tables: seq<TableDef>, store: Store, cmd: Command)
    requires Shaped(tables, store)
    ensures Shaped(tables, Perform(tables, store, cmd).1)
  {
    hide Wide, WhereKnown, SetsKnown, R.Decision, R.Reordered, Remaining, Updated;
    match cmd {
      case NoCommand =>
      case SelectFrom(_, _, _, _, _, _) =>
      case InsertInto(name, columns, values) =>
        var found := FindTable(tables, name);
        if found.Some? && R.Decision(found.value.columns, columns, values, SameName) == R.Accepted {
          InsertedWide(RowsIn(store, name), found.value, columns, values);
          ShapedAfter(tables, store, name,
                      RowsIn(store, name) + [R.Reordered(found.value.columns, columns, values, SameName)]);
        }
      case DeleteFrom(name, where) =>
        var found := FindTable(tables, name);
        if found.Some? && WhereKnown(found.value, where) {
          RemainingWide(RowsIn(store, name), found.value, where);
          ShapedAfter(tables, store, name, Remaining(RowsIn(store, name), found.value, where));
        }
      case UpdateSet(name, sets, where) =>
        var found := FindTable(tables, name);
        if found.Some? && WhereKnown(found.value, where) && SetsKnown(found.value, sets) {
          UpdatedWide(RowsIn(store, name), found.value, sets, where);
          ShapedAfter(tables, store, name, Updated(RowsIn(store, name), found.value, sets, where));
        }
    }
  }

  /** A query on the file of its table. */
  function SelectFile(dir: string, tables: seq<TableDef>, files: Files, name: string, all: bool, columns: seq<string>,
                      where: Option<Where>, orderBy: Option<OrderBy>, limit: Option<nat>): Reply
  {
    match FindTable(tables, name)
    case None => Done(ErrTableNotFound)
    case Some(table) =>
      match TableRows(dir, files, table)
      case Err(e) => Done(e)
      case Ok(rows) =>
        TableRowsWide(dir, files, table);
        ReplyOf(SelectAnswer(rows, table, all, columns, where, orderBy, limit))
  }

  function Reported(r: (ErrorCode, Files)): (Reply, Files) {
    (Done(r.0), r.1)
  }

  /** The same statement on the table files. */
  function PerformOnFiles(dir: string, tables: seq<TableDef>, files: Files, cmd: Command): (Reply, Files) {
    match cmd
    case NoCommand => (Done(ErrNone), files)
    case SelectFrom(name, all, columns, where, orderBy, limit) =>
      (SelectFile(dir, tables, files, name, all, columns, where, orderBy, limit), files)
    case InsertInto(name, columns, values) => Reported(InsertFile(dir, tables, files, name, columns, values))
    case DeleteFrom(name, where) => Reported(DeleteFile(dir, tables, files, name, where))
    case UpdateSet(name, sets, where) => Reported(UpdateFile(dir, tables, files, name, sets, where))
  }

  // ---------- files that hold a store ----------

  /** Every table's file is the encoding of its rows. */
  ghost predicate Holds(dir: string, tables: seq<TableDef>, files: Files, store: Store) {
    forall name | FindTable(tables, name).Some? ::
      && FileText(files, FullPath(dir, name)) == EncodeTable(RowsIn(store, name))
      && Storable(RowsIn(store, name), |FindTable(tables, name).value.columns|)
  }

  /** Tables whose columns fit the fixed arrays and whose path fits its buffer. */
  predicate GoodSchema(dir: string, tables: seq<TableDef>) {
    forall t <- tables :: 0 < |t.columns| <= MAX_COLUMNS && PathFits(dir, t.name)
  }

  /** The values that a statement writes: shorter than 256 characters and without newlines. */
  predicate SafeCommand(cmd: Command) {
    && (cmd.InsertInto? ==> forall v <- cmd.values :: ValueFits(v) && '\n' !in v)
    && (cmd.UpdateSet? ==> StorableSets(cmd.sets))
  }

  lemma HoldsShaped(dir: string, tables: seq<TableDef>, files: Files, store: Store)
    requires Holds(dir, tables, files, store)
    ensures Shaped(tables, store)
  {
    hide ValueFits;
  }

  lemma PathsDistinct(dir: string, a: string, b: string)
    ensures FullPath(dir, a) == FullPath(dir, b) <==> a == b
  {
    var pa, pb := FullPath(dir, a), FullPath(dir, b);
    var k := |dir| + 1;
    assert pa[k..k + |a|] == a && pb[k..k + |b|] == b;
  }

  /** One file is rewritten as the encoding of new rows of its table. */
  lemma HoldsAfter(dir: string, tables: seq<TableDef>, files: Files, store: Store, name: string, rows: seq<Row>,
                   after: Files)
    requires Holds(dir, tables, files, store) && FindTable(tables, name).Some?
    requires Storable(rows, |FindTable(tables, name).value.columns|)
    requires after == files[FullPath(dir, name) := EncodeTable(rows)]
    ensures Holds(dir, tables, after, store[name := rows])
  {
    hide FullPath, EncodeTable, Storable;
    forall other | FindTable(tables, other).Some?
      ensures FileText(after, FullPath(dir, other)) == EncodeTable(RowsIn(store[name := rows], other))
      ensures Storable(RowsIn(store[name := rows], other), |FindTable(tables, other).value.columns|)
    {
      PathsDistinct(dir, name, other);
    }
  }

  /** The table is read as the rows that the file holds while they fit the buffer, else it is rejected. */
  lemma HeldTableReads(dir: string, tables: seq<TableDef>, files: Files, store: Store, name: string)
    requires GoodSchema(dir, tables) && Holds(dir, tables, files, store) && FindTable(tables, name).Some?
    ensures TableRows(dir, files, FindTable(tables, name).value)
         == if Overfull(store, name) then Err(ErrInvalidQuery) else Ok(RowsIn(store, name))
  {
    hide ReadRows, EncodeTable, LineSafe, FullPath, ValueFits;
    var rows, columns := RowsIn(store, name), |FindTable(tables, name).value.columns|;
    if Overfull(store, name) {
      OverfullTableFails(rows, columns, []);
    } else {
      TableReadsBackExactly(rows, columns);
    }
  }

  lemma InsertStorable(rows: seq<Row>, table: TableDef, columns: seq<string>, values: seq<string>)
    requires Storable(rows, |table.columns|) && R.Decision(table.columns, columns, values, SameName) == R.Accepted
    requires forall v <- values :: ValueFits(v) && '\n' !in v
    ensures Storable(rows + [R.Reordered(table.columns, columns, values, SameName)], |table.columns|)
  {
    hide R.Reordered, R.Decision, R.ColumnIndex, ValueFits, LineSafe;
    var row := R.Reordered(table.columns, columns, values, SameName);
    R.ReorderedInPlace(table.columns, columns, values, SameName);
    ReorderedWide(table, columns, values);
    SameLine(row, values);
    SafeBehind(rows, row);
  }

  // ---------- one statement ----------

  lemma InsertRefines(dir: string, tables: seq<TableDef>, files: Files, store: Store, cmd: Command)
    requires cmd.InsertInto? && GoodSchema(dir, tables) && Holds(dir, tables, files, store) && SafeCommand(cmd)
    ensures Shaped(tables, store)
    ensures var (reply, after) := PerformOnFiles(dir, tables, files, cmd);
            var (expected, next) := Perform(tables, store, cmd);
            reply == expected && Holds(dir, tables, after, next)
  {
    hide FullPath, EncodeTable, EncodeRow, Storable, R.Reordered, R.Decision, ValueFits, Shaped, Holds, PathFits;
    HoldsShaped(dir, tables, files, store);
    var found := FindTable(tables, cmd.table);
    if found.Some? && R.Decision(found.value.columns, cmd.columns, cmd.values, SameName) == R.Accepted {
      var rows := RowsIn(store, cmd.table);
      var row := R.Reordered(found.value.columns, cmd.columns, cmd.values, SameName);
      HeldText(dir, tables, files, store, cmd.table);
      InsertStorable(rows, found.value, cmd.columns, cmd.values);
      ReorderedWide(found.value, cmd.columns, cmd.values);
      EncodedBehind(rows, row);
      HoldsAfter(dir, tables, files, store, cmd.table, rows + [row], PerformOnFiles(dir, tables, files, cmd).1);
    }
  }

  lemma HeldText(dir: string, tables: seq<TableDef>, files: Files, store: Store, name: string)
    requires Holds(dir, tables, files, store) && FindTable(tables, name).Some?
    ensures FileText(files, FullPath(dir, name)) == EncodeTable(RowsIn(store, name))
    ensures Storable(RowsIn(store, name), |FindTable(tables, name).value.columns|)
  {
  }

  lemma DeleteRefines(dir: string, tables: seq<TableDef>, files: Files, store: Store, cmd: Command)
    requires cmd.DeleteFrom? && GoodSchema(dir, tables) && Holds(dir, tables, files, store)
    ensures Shaped(tables, store)
    ensures var (reply, after) := PerformOnFiles(dir, tables, files, cmd);
            var (expected, next) := Perform(tables, store, cmd);
            reply == expected && Holds(dir, tables, after, next)
  {
    hide FullPath, EncodeTable, Storable, Shaped, Holds, GoodSchema, DeleteFile, Remaining, TableRows, Wide;
    HoldsShaped(dir, tables, files, store);
    DeleteFileIs(dir, tables, files, cmd.table, cmd.where);
    var found := FindTable(tables, cmd.table);
    if found.Some? {
      HeldTableReads(dir, tables, files, store, cmd.table);
      HeldText(dir, tables, files, store, cmd.table);
      if !Overfull(store, cmd.table) && WhereKnown(found.value, cmd.where) {
        var rows := RowsIn(store, cmd.table);
        RemainingStorable(rows, found.value, cmd.where);
        HoldsAfter(dir, tables, files, store, cmd.table, Remaining(rows, found.value, cmd.where),
                   PerformOnFiles(dir, tables, files, cmd).1);
      }
    }
  }

  lemma UpdateRefines(dir: string, tables: seq<TableDef>, files: Files, store: Store, cmd: Command)
    requires cmd.UpdateSet? && GoodSchema(dir, tables) && Holds(dir, tables, files, store)
    requires SafeCommand(cmd)
    ensures Shaped(tables, store)
    ensures var (reply, after) := PerformOnFiles(dir, tables, files, cmd);
            var (expected, next) := Perform(tables, store, cmd);
            reply == expected && Holds(dir, tables, after, next)
  {
    hide FullPath, EncodeTable, Storable, Shaped, Holds, PathFits, UpdateFile, Updated, TableRows, Wide,
         StorableSets, SetsKnown;
    HoldsShaped(dir, tables, files, store);
    UpdateFileIs(dir, tables, files, cmd.table, cmd.sets, cmd.where);
    var found := FindTable(tables, cmd.table);
    if found.Some? {
      HeldTableReads(dir, tables, files, store, cmd.table);
      HeldText(dir, tables, files, store, cmd.table);
      if !Overfull(store, cmd.table) && WhereKnown(found.value, cmd.where) && SetsKnown(found.value, cmd.sets) {
        var rows := RowsIn(store, cmd.table);
        UpdatedStorable(rows, found.value, cmd.sets, cmd.where);
        HoldsAfter(dir, tables, files, store, cmd.table, Updated(rows, found.value, cmd.sets, cmd.where),
                   PerformOnFiles(dir, tables, files, cmd).1);
      }
    }
  }

  lemma SelectRefines(dir: string, tables: seq<TableDef>, files: Files, store: Store, cmd: Command)
    requires cmd.SelectFrom? && GoodSchema(dir, tables) && Holds(dir, tables, files, store)
    ensures Shaped(tables, store) && PerformOnFiles(dir, tables, files, cmd).1 == files
    ensures Perform(tables, store, cmd) == (PerformOnFiles(dir, tables, files, cmd).0, store)
  {
    hide Shaped, Holds, GoodSchema, TableRows, SelectAnswer;
    HoldsShaped(dir, tables, files, store);
    if FindTable(tables, cmd.table).Some? {
      HeldTableReads(dir, tables, files, store, cmd.table);
    }
  }

  /** Each statement reports on the files what it reports on the rows, and does to them the same. */
  lemma PerformRefines(dir: string, tables: seq<TableDef>, files: Files, store: Store, cmd: Command)
    requires GoodSchema(dir, tables) && Holds(dir, tables, files, store)
    requires SafeCommand(cmd)
    ensures Shaped(tables, store)
    ensures var (reply, after) := PerformOnFiles(dir, tables, files, cmd);
            var (expected, next) := Perform(tables, store, cmd);
            reply == expected && Holds(dir, tables, after, next)
  {
    hide Shaped, Holds, GoodSchema, SafeCommand, SelectFile, InsertFile, DeleteFile, UpdateFile, Overfull;
    HoldsShaped(dir, tables, files, store);
    match cmd {
      case NoCommand =>
      case SelectFrom(_, _, _, _, _, _) => SelectRefines(dir, tables, files, store, cmd);
      case InsertInto(_, _, _) => InsertRefines(dir, tables, files, store, cmd);
      case DeleteFrom(_, _) => DeleteRefines(dir, tables, files, store, cmd);
      case UpdateSet(_, _, _) => UpdateRefines(dir, tables, files, store, cmd);
    }
  }

  // ---------- whole runs ----------

  function FilesAfter(dir: string, tables: seq<TableDef>, files: Files, cmds: seq<Command>): Files {
    if cmds == [] then files
    else PerformOnFiles(dir, tables, FilesAfter(dir, tables, files, cmds[..|cmds| - 1]), cmds[|cmds| - 1]).1
  }

  function StoreAfter(tables: seq<TableDef>, store: Store, cmds: seq<Command>): (r: Store)
    requires Shaped(tables, store)
    ensures Shaped(tables, r)
  {
    if cmds == [] then store
    else
      var before := StoreAfter(tables, store, cmds[..|cmds| - 1]);
      PerformShaped(tables, before, cmds[|cmds| - 1]);
      Perform(tables, before, cmds[|cmds| - 1]).1
  }

  /** What each statement of a run reports, on rows and on files. */
  function Replies(tables: seq<TableDef>, store: Store, cmds: seq<Command>): seq<Reply>
    requires Shaped(tables, store)
  {
    if cmds == [] then []
    else
      var init, last := cmds[..|cmds| - 1], cmds[|cmds| - 1];
      Replies(tables, store, init) + [Perform(tables, StoreAfter(tables, store, init), last).0]
  }

  function FileReplies(dir: string, tables: seq<TableDef>, files: Files, cmds: seq<Command>): seq<Reply> {
    if cmds == [] then []
    else
      var init, last := cmds[..|cmds| - 1], cmds[|cmds| - 1];
      FileReplies(dir, tables, files, init)
      + [PerformOnFiles(dir, tables, FilesAfter(dir, tables, files, init), last).0]
  }

  /** The premise of a run, on its statements alone. */
  predicate SafeCommands(cmds: seq<Command>) {
    forall cmd <- cmds :: SafeCommand(cmd)
  }

  /** Over any run the files keep holding the rows, and every statement reports the same. */
  lemma {:induction false} RunHolds(dir: string, tables: seq<TableDef>, files: Files, store: Store, cmds: seq<Command>)
    requires GoodSchema(dir, tables) && Holds(dir, tables, files, store) && Shaped(tables, store)
    requires SafeCommands(cmds)
    ensures Holds(dir, tables, FilesAfter(dir, tables, files, cmds), StoreAfter(tables, store, cmds))
    ensures FileReplies(dir, tables, files, cmds) == Replies(tables, store, cmds)
  {
    hide Shaped, Holds, GoodSchema, SafeCommand, Perform, PerformOnFiles;
    if cmds != [] {
      var init, last := cmds[..|cmds| - 1], cmds[|cmds| - 1];
      RunHolds(dir, tables, files, store, init);
      assert last in cmds;
      PerformRefines(dir, tables, FilesAfter(dir, tables, files, init), StoreAfter(tables, store, init), last);
    }
  }

  /**
   The main theorem: in any run of statements from an empty data directory, every statement
   reports, and every SELECT shows, what it means on the rows; afterwards each table is read
   from its file as exactly its rows, if and only if they fit the working buffer.
   */
  lemma RunRefines(dir: string, tables: seq<TableDef>, cmds: seq<Command>, name: string)
    requires GoodSchema(dir, tables) && FindTable(tables, name).Some? && SafeCommands(cmds)
    ensures Shaped(tables, map[])
    ensures FileReplies(dir, tables, map[], cmds) == Replies(tables, map[], cmds)
    ensures var rows := RowsIn(StoreAfter(tables, map[], cmds), name);
            TableRows(dir, FilesAfter(dir, tables, map[], cmds), FindTable(tables, name).value) == Ok(rows)
            <==> |rows| <= MAX_ROWS
  {
    hide Shaped, Holds, GoodSchema, SafeCommands, TableRows;
    EmptyHolds(dir, tables);
    HoldsShaped(dir, tables, map[], map[]);
    RunHolds(dir, tables, map[], map[], cmds);
    HeldTableReads(dir, tables, FilesAfter(dir, tables, map[], cmds), StoreAfter(tables, map[], cmds), name);
  }

  lemma EmptyHolds(dir: string, tables: seq<TableDef>)
    ensures Holds(dir, tables, map[], map[])
  {
  }

  // ---------- scripts ----------

  /** The statements that the parser understands; the others are reported and skipped. */
  function Understood(read: seq<Option<Command>>): seq<Command> {
    if read == [] then []
    else (if read[0].Some? then [read[0].value] else []) + Understood(read[1..])
  }

  lemma {:induction false} UnderstoodAll(cmds: seq<Command>, read: seq<Option<Command>>)
    requires |read| == |cmds| && forall i | 0 <= i < |cmds| :: read[i] == Some(cmds[i])
    ensures Understood(read) == cmds
  {
    if cmds != [] {
      UnderstoodAll(cmds[1..], read[1..]);
      assert [cmds[0]] + cmds[1..] == cmds;
    }
  }

  /** From the text of a script to answers and files: splitter, parser, executor and file store. */
  lemma ScriptRefines(dir: string, tables: seq<TableDef>, texts: seq<string>, cmds: seq<Command>, tail: string,
                      name: string)
    requires GoodSchema(dir, tables) && FindTable(tables, name).Some? && SafeCommands(cmds)
    requires |texts| == |cmds| && (forall i | 0 <= i < |cmds| :: S.Statement(texts[i], cmds[i]))
    requires forall c <- tail :: c in BLANKS
    ensures Shaped(tables, map[])
    ensures var read := Understood(S.ReadScript(S.Script(texts, tail)));
            var rows := RowsIn(StoreAfter(tables, map[], cmds), name);
            && FileReplies(dir, tables, map[], read) == Replies(tables, map[], cmds)
            && (TableRows(dir, FilesAfter(dir, tables, map[], read), FindTable(tables, name).value) == Ok(rows)
                <==> |rows| <= MAX_ROWS)
  {
    hide Shaped, GoodSchema, SafeCommands, TableRows, S.Statement, S.ReadScript, S.Script, BLANKS;
    S.ScriptReadsBack(texts, cmds, tail);
    UnderstoodAll(cmds, S.ReadScript(S.Script(texts, tail)));
    RunRefines(dir, tables, cmds, name);
  }
}
