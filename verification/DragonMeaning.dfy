/**
 What the in-place statements of member-dragon mean: ORDER BY, SELECT as a query, the
 algebra of DELETE and UPDATE, and that the rewritten files read back.
 */
module DragonMeaning {
  import opened Options
  import opened Comparison
  import opened StableSorting
  import opened ResultSets
  import opened FileCodec
  import opened Commands
  import opened DragonEngine
  import R = Reordering

  // ---------- ORDER BY ----------

  /** The values of a column are all spelled as integers, or none of them is. */
  ghost predicate Homogeneous(rows: seq<Row>, column: nat) {
    && (forall row <- rows :: column < |row|)
    && (forall a <- rows, b <- rows :: Alike(a[column], b[column]))
  }

  /** On such a column the comparison is a weak order in either direction. */
  lemma HomogeneousIsWeakOrder(rows: seq<Row>, column: nat, direction: Direction)
    requires Homogeneous(rows, column)
    ensures WeakOrderOn(Elements(rows), RowOrder(column, direction))
  {
    hide IntegerLike, CompareValues;
    var gt := RowOrder(column, direction);
    forall x, y, z | x in Elements(rows) && y in Elements(rows) && z in Elements(rows) && !gt(x, y) && !gt(y, z)
      ensures !gt(x, z)
    {
      if direction == Ascending {
        CompareTransitive(x[column], y[column], z[column]);
      } else {
        CompareAntisymmetric(x[column], y[column]);
        CompareAntisymmetric(y[column], z[column]);
        CompareAntisymmetric(x[column], z[column]);
        CompareTransitive(z[column], y[column], x[column]);
      }
    }
  }

  /** ORDER BY always permutes whole rows, and exchanges as often as it removes inversions. */
  lemma OrderByPermutes(rows: seq<Row>, column: nat, direction: Direction)
    ensures var gt := RowOrder(column, direction);
            var b := BubbleSort(rows, gt);
            multiset(b.items) == multiset(rows) && b.swaps + Inversions(b.items, gt) == Inversions(rows, gt)
  {
    RowOrderAsymmetric(column, direction);
    BubbleSortAccounts(rows, RowOrder(column, direction));
  }

  /** On a column of one kind the result is sorted, stable, and takes one exchange per inversion. */
  lemma OrderBySorts(rows: seq<Row>, column: nat, direction: Direction)
    requires Homogeneous(rows, column)
    ensures var gt := RowOrder(column, direction);
            var b := BubbleSort(rows, gt);
            && Sorted(b.items, gt)
            && b.swaps == Inversions(rows, gt)
            && (forall row <- rows :: Ties(b.items, row, gt) == Ties(rows, row, gt))
    ensures var items := BubbleSort(rows, RowOrder(column, direction)).items;
            forall i, j | 0 <= i < j < |items| ::
              && column < |items[i]| && column < |items[j]|
              && if direction == Ascending then CompareValues(items[i][column], items[j][column]) <= 0
                 else CompareValues(items[i][column], items[j][column]) >= 0
  {
    var gt := RowOrder(column, direction);
    RowOrderAsymmetric(column, direction);
    HomogeneousIsWeakOrder(rows, column, direction);
    BubbleSortSorts(rows, gt);
    SwapsAreInversions(rows, gt);
    BubbleSortIsStable(rows, gt);
    forall row <- rows ensures Ties(BubbleSort(rows, gt).items, row, gt) == Ties(rows, row, gt) {
      StableSortKeepsTies(rows, row, Elements(rows), gt);
    }
    SortedRowsAreRows(rows, BubbleSort(rows, gt).items, column) by { BubbleSortAccounts(rows, gt); }
  }

  lemma SortedRowsAreRows(rows: seq<Row>, items: seq<Row>, column: nat)
    requires multiset(items) == multiset(rows) && forall row <- rows :: column < |row|
    ensures forall i | 0 <= i < |items| :: column < |items[i]|
  {
    forall i | 0 <= i < |items| ensures column < |items[i]| {
      assert items[i] in multiset(items);
    }
  }

  /**
   Without the premise: ORDER BY leaves no two rows of these kinds the wrong way round,
   in whatever order they come, exactly when the comparison is transitive on them.
   */
  lemma OrderBySortsExactly(kinds: set<Row>, column: nat, direction: Direction)
    ensures SortsEveryList(kinds, RowOrder(column, direction)) <==> WeakOrderOn(kinds, RowOrder(column, direction))
  {
    RowOrderAsymmetric(column, direction);
    SortsExactlyWeakOrders(kinds, RowOrder(column, direction));
  }

  /** The rows "9", "10", "1a" stay in this order, which is no sorted one. */
  lemma MixedColumnUnsorted()
    ensures var gt, rows: seq<Row> := RowOrder(0, Ascending), [["9"], ["10"], ["1a"]];
            BubbleSort(rows, gt).items == rows && !Sorted(rows, gt)
  {
    CompareCycles();
    CompareAntisymmetric("1a", "9");
    CompareAntisymmetric("9", "10");
    CompareAntisymmetric("10", "1a");
    var gt := RowOrder(0, Ascending);
    var rows: seq<Row> := [["9"], ["10"], ["1a"]];
    assert !gt(rows[0], rows[1]) && !gt(rows[1], rows[2]) && gt(rows[0], rows[2]);
    SortedTripleUntouched(rows[0], rows[1], rows[2], gt);
  }

  /** SELECT is a query: project the first rows of the stable sort of the matching rows. */
  lemma SelectMeaning(rows: seq<Row>, table: TableDef, columns: seq<string>, where: Option<Where>, o: OrderBy,
                      limit: Option<nat>)
    requires Wide(rows, |table.columns|) && WhereKnown(table, where) && OrderKnown(table, Some(o))
    requires AllKnown(Selection(table, columns))
    requires Homogeneous(Filtered(rows, table, where), ColumnOf(table, o.column))
    ensures var sorted := StableSort(Filtered(rows, table, where), RowOrder(ColumnOf(table, o.column), o.direction));
            && Wide(Limited(sorted, limit), |table.columns|)
            && SelectAnswer(rows, table, false, columns, where, Some(o), limit)
               == Ok(Answer(columns, Project(Limited(sorted, limit), Selection(table, columns))))
  {
    hide Select, BubbleSort, R.ColumnIndex, StableSort, Project;
    var matching := Filtered(rows, table, where);
    var column := ColumnOf(table, o.column);
    RowOrderAsymmetric(column, o.direction);
    HomogeneousIsWeakOrder(matching, column, o.direction);
    BubbleSortIsStable(matching, RowOrder(column, o.direction));
    assert Wide(Picked(rows, table, where, Some(o), limit), |table.columns|);
  }

  // ---------- DELETE ----------

  /** Which rows match. */
  function Marks(rows: seq<Row>, column: nat, where: Where): seq<bool>
    requires forall row <- rows :: column < |row|
  {
    seq(|rows|, i requires 0 <= i < |rows| => Matches(rows[i], column, where))
  }

  /** The rows of two lists, from the first where a mark is set, else from the second. */
  function Merge(marks: seq<bool>, a: seq<Row>, b: seq<Row>): seq<Row>
    decreases |marks|
  {
    if marks == [] then []
    else
      var init := marks[..|marks| - 1];
      if marks[|marks| - 1] then
        if a == [] then [] else Merge(init, a[..|a| - 1], b) + [a[|a| - 1]]
      else
        if b == [] then [] else Merge(init, a, b[..|b| - 1]) + [b[|b| - 1]]
  }

  lemma MergeLast(marks: seq<bool>, a: seq<Row>, b: seq<Row>, row: Row)
    ensures Merge(marks + [true], a + [row], b) == Merge(marks, a, b) + [row]
    ensures Merge(marks + [false], a, b + [row]) == Merge(marks, a, b) + [row]
  {
    assert (marks + [true])[..|marks|] == marks == (marks + [false])[..|marks|];
    assert (a + [row])[..|a|] == a && (b + [row])[..|b|] == b;
  }

  /** What a WHERE shows and what its deletion leaves, each in order, merge back into the rows. */
  lemma {:induction false} SelectsMerge(rows: seq<Row>, column: nat, where: Where)
    requires forall row <- rows :: column < |row|
    ensures Merge(Marks(rows, column, where), Select(rows, column, where, true), Select(rows, column, where, false))
           == rows
  {
    hide Matches, Merge;
    if rows == [] {
      NothingMerges();
    } else {
      var init, last := rows[..|rows| - 1], rows[|rows| - 1];
      SelectsMerge(init, column, where);
      var mark := Matches(last, column, where);
      var a, b := Select(init, column, where, true), Select(init, column, where, false);
      assert Marks(rows, column, where) == Marks(init, column, where) + [mark];
      MergeLast(Marks(init, column, where), a, b, last);
      assert a + [] == a && b + [] == b && init + [last] == rows;
    }
  }

  lemma NothingMerges()
    ensures Merge([], [], []) == []
  {
  }

  /** Deleting with an operator leaves what a query with the opposite operator shows. */
  lemma {:induction false} DeleteIsComplement(rows: seq<Row>, column: nat, where: Where)
    requires forall row <- rows :: column < |row|
    ensures Select(rows, column, where, false) == Select(rows, column, where.(op := Complement(where.op)), true)
  {
    hide CompareValues;
    if rows != [] {
      DeleteIsComplement(rows[..|rows| - 1], column, where);
      ComplementNegates(CompareValues(rows[|rows| - 1][column], where.value), where.op);
    }
  }

  /** Deleting what was just deleted changes nothing. */
  lemma {:induction false} SelectAgain(rows: seq<Row>, column: nat, where: Where, matching: bool)
    requires forall row <- rows :: column < |row|
    ensures forall row <- Select(rows, column, where, matching) ::
              row in rows && Matches(row, column, where) == matching
    ensures Select(Select(rows, column, where, matching), column, where, matching)
           == Select(rows, column, where, matching)
  {
    if rows != [] {
      var init, last := rows[..|rows| - 1], rows[|rows| - 1];
      SelectAgain(init, column, where, matching);
      var kept := Select(init, column, where, matching);
      if Matches(last, column, where) == matching {
        assert (kept + [last])[..|kept|] == kept;
      } else {
        assert kept + [] == kept;
      }
    }
  }

  // ---------- UPDATE ----------

  /** Position k of the SET columns, read back: with distinct columns, what was assigned there. */
  lemma {:induction false} AssignReads(row: Row, columns: seq<nat>, values: seq<string>, j: nat)
    requires |columns| == |values| && (forall i | 0 <= i < |columns| :: columns[i] < |row|) && j < |row|
    requires forall a, b | 0 <= a < b < |columns| :: columns[a] != columns[b]
    ensures j !in columns ==> Assign(row, columns, values)[j] == row[j]
    ensures forall i | 0 <= i < |columns| && columns[i] == j :: Assign(row, columns, values)[j] == values[i]
  {
    if columns != [] {
      var n := |columns| - 1;
      AssignReads(row, columns[..n], values[..n], j);
      assert columns == columns[..n] + [columns[n]];
      forall i | 0 <= i < n ensures columns[..n][i] == columns[i] && values[..n][i] == values[i] {
      }
    }
  }

  /** The order of SET clauses does not matter. */
  lemma SetOrderIrrelevant(row: Row, columns: seq<nat>, values: seq<string>, columns2: seq<nat>, values2: seq<string>)
    requires |columns| == |values| == |columns2| == |values2|
    requires (forall i | 0 <= i < |columns| :: columns[i] < |row| && columns2[i] < |row|)
    requires forall a, b | 0 <= a < b < |columns| :: columns[a] != columns[b] && columns2[a] != columns2[b]
    requires forall i | 0 <= i < |columns| :: columns[i] in columns2
    requires forall i, k | 0 <= i < |columns| && 0 <= k < |columns| && columns[i] == columns2[k] ::
               values[i] == values2[k]
    ensures Assign(row, columns, values) == Assign(row, columns2, values2)
  {
    forall j | 0 <= j < |row| ensures Assign(row, columns, values)[j] == Assign(row, columns2, values2)[j] {
      AssignReads(row, columns, values, j);
      AssignReads(row, columns2, values2, j);
      if j in columns {
        var i :| 0 <= i < |columns| && columns[i] == j;
        var k :| 0 <= k < |columns2| && columns2[k] == columns[i];
      } else {
        SameMembers(columns, columns2);
      }
    }
  }

  /** As many distinct positions that all occur in the other list: the same positions. */
  lemma SameMembers(a: seq<nat>, b: seq<nat>)
    requires |a| == |b| && (forall i | 0 <= i < |a| :: a[i] in b)
    requires forall i, j | 0 <= i < j < |a| :: a[i] != a[j] && b[i] != b[j]
    ensures forall x :: x in b <==> x in a
  {
    R.DistinctCount(a);
    R.DistinctCount(b);
    R.SubsetOfSameSize(R.Members(a), R.Members(b));
    forall x: nat ensures x in b <==> x in a {
      assert x in R.Members(a) <==> x in R.Members(b);
    }
  }

  /** The new values are there to stay: assigning twice is assigning once. */
  lemma AssignTwice(row: Row, columns: seq<nat>, values: seq<string>)
    requires |columns| == |values| && forall i | 0 <= i < |columns| :: columns[i] < |row|
    requires forall a, b | 0 <= a < b < |columns| :: columns[a] != columns[b]
    ensures Assign(Assign(row, columns, values), columns, values) == Assign(row, columns, values)
  {
    var once := Assign(row, columns, values);
    forall j | 0 <= j < |row| ensures Assign(once, columns, values)[j] == once[j] {
      AssignReads(row, columns, values, j);
      AssignReads(once, columns, values, j);
      if j in columns {
        var i :| 0 <= i < |columns| && columns[i] == j;
      }
    }
  }

  /** An UPDATE changes only matching rows, and there only the SET columns. */
  lemma UpdateTouches(row: Row, table: TableDef, sets: seq<SetClause>, where: Option<Where>, j: nat)
    requires |row| == |table.columns| && WhereKnown(table, where) && SetsKnown(table, sets) && j < |row|
    ensures var selection := Selection(table, SetNames(sets));
            && (!Selected(row, table, where) || j !in selection ==> UpdateRow(row, table, sets, where)[j] == row[j])
            && (Selected(row, table, where) ==>
                  forall i | 0 <= i < |sets| && selection[i] == j ::
                    UpdateRow(row, table, sets, where)[j] == sets[i].value)
  {
    hide R.ColumnIndex, Matches;
    AssignReads(row, Selection(table, SetNames(sets)), SetValues(sets), j);
  }

  /** Running an UPDATE again changes nothing, even if it changed the column its WHERE looks at. */
  lemma UpdateIdempotent(rows: seq<Row>, table: TableDef, sets: seq<SetClause>, where: Option<Where>)
    requires Wide(rows, |table.columns|) && WhereKnown(table, where) && SetsKnown(table, sets)
    ensures Updated(Updated(rows, table, sets, where), table, sets, where) == Updated(rows, table, sets, where)
  {
    hide R.ColumnIndex, Matches, Assign;
    var once := Updated(rows, table, sets, where);
    forall i | 0 <= i < |rows| ensures UpdateRow(once[i], table, sets, where) == once[i] {
      assert rows[i] in rows;
      AssignTwice(rows[i], Selection(table, SetNames(sets)), SetValues(sets));
    }
  }

  // ---------- files ----------

  /** Values that a table file can hold on one line. */
  ghost predicate SafeRows(rows: seq<Row>) {
    forall row <- rows :: LineSafe(row)
  }

  lemma {:induction false} ParsedValuesFit(line: string, pos: nat, columns: nat)
    requires pos <= |line| && ParseValues(line, pos, columns).Some?
    ensures forall v <- ParseValues(line, pos, columns).value.0 :: ValueFits(v)
    decreases columns
  {
    hide ParseLength;
    if columns > 0 {
      var (len, start) := ParseLength(line, pos).value;
      ParsedValuesFit(line, start + len, columns - 1);
    }
  }

  lemma {:induction false} ReadRowsFit(text: string, columns: nat, done: seq<Row>)
    requires WellShaped(done, columns) && ReadRows(text, columns, done).Ok?
    ensures WellShaped(ReadRows(text, columns, done).value, columns)
    decreases |text|
  {
    hide ParseValues, LineLength;
    if text != [] {
      var n := LineLength(text);
      ParsedValuesFit(text[..n], 0, columns);
      ReadRowsFit(text[n..], columns, done + [ParseRow(text[..n], columns).value]);
    }
  }

  /** Rows that a table file can hold. */
  ghost predicate Storable(rows: seq<Row>, columns: nat) {
    WellShaped(rows, columns) && SafeRows(rows)
  }

  /** What was read from a file can be held by it, but for newlines. */
  lemma RowsShaped(dir: string, files: Files, table: TableDef)
    requires TableRows(dir, files, table).Ok?
    ensures WellShaped(TableRows(dir, files, table).value, |table.columns|)
    ensures |TableRows(dir, files, table).value| <= MAX_ROWS
  {
    hide ReadRows;
    ReadRowsFit(FileText(files, FullPath(dir, table.name)), |table.columns|, []);
    ReadAtMostMax(FileText(files, FullPath(dir, table.name)), |table.columns|, []);
  }

  /** A file rewritten with storable rows of its table reads back as them; no other file changes. */
  lemma RewriteReadsBack(dir: string, files: Files, table: TableDef, name: string, rows: seq<Row>)
    requires PathFits(dir, name) && table.name == name && 0 < |table.columns| <= MAX_COLUMNS
    requires Storable(rows, |table.columns|) && |rows| <= MAX_ROWS
    ensures var after := files[FullPath(dir, name) := EncodeTable(rows)];
            && TableRows(dir, after, table) == Ok(rows)
            && (forall p | p != FullPath(dir, name) :: FileText(after, p) == FileText(files, p))
  {
    hide FullPath, EncodeTable, ReadTable, WellShaped, LineSafe, PathFits;
    TableReadsBackExactly(rows, |table.columns|);
  }

  lemma StorableWide(rows: seq<Row>, columns: nat)
    requires WellShaped(rows, columns)
    ensures Wide(rows, columns)
  {
    hide ValueFits;
  }

  lemma RemainingAmong(rows: seq<Row>, table: TableDef, where: Option<Where>)
    requires Wide(rows, |table.columns|) && WhereKnown(table, where)
    ensures forall row <- Remaining(rows, table, where) :: row in rows
    ensures |Remaining(rows, table, where)| <= |rows|
  {
    hide R.ColumnIndex, Matches, Select;
    if where.Some? {
      SelectAgain(rows, ColumnOf(table, where.value.column), where.value, false);
      SelectWide(rows, ColumnOf(table, where.value.column), where.value, false, |table.columns|);
    }
  }

  lemma RemainingStorable(rows: seq<Row>, table: TableDef, where: Option<Where>)
    requires Storable(rows, |table.columns|) && WhereKnown(table, where)
    ensures Wide(rows, |table.columns|) && Storable(Remaining(rows, table, where), |table.columns|)
    ensures |Remaining(rows, table, where)| <= |rows|
  {
    hide Wide, WhereKnown, Remaining, ValueFits, LineSafe;
    StorableWide(rows, |table.columns|);
    RemainingAmong(rows, table, where);
  }

  /** After a DELETE, reading the table gives exactly the rows that stay. */
  lemma DeleteReadsBack(dir: string, tables: seq<TableDef>, files: Files, name: string, where: Option<Where>)
    requires FindTable(tables, name).Some? && 0 < |FindTable(tables, name).value.columns| <= MAX_COLUMNS
    requires var table := FindTable(tables, name).value;
             && TableRows(dir, files, table).Ok? && SafeRows(TableRows(dir, files, table).value)
             && WhereKnown(table, where)
    ensures var table := FindTable(tables, name).value;
            var (status, after) := DeleteFile(dir, tables, files, name, where);
            && status == ErrNone && Wide(TableRows(dir, files, table).value, |table.columns|)
            && TableRows(dir, after, table) == Ok(Remaining(TableRows(dir, files, table).value, table, where))
            && (forall p | p != FullPath(dir, name) :: FileText(after, p) == FileText(files, p))
  {
    hide ReadTable, EncodeTable, FullPath, WhereKnown, Remaining, Wide, SafeRows, WellShaped, DeleteFile, PathFits;
    var table := FindTable(tables, name).value;
    var rows := TableRows(dir, files, table).value;
    RowsShaped(dir, files, table);
    RemainingStorable(rows, table, where);
    DeleteFileIs(dir, tables, files, name, where);
    RewriteReadsBack(dir, files, table, name, Remaining(rows, table, where));
  }

  /** Values that an UPDATE may write into a table file. */
  predicate StorableSets(sets: seq<SetClause>) {
    forall s <- sets :: ValueFits(s.value) && '\n' !in s.value
  }

  lemma {:induction false} AssignKeepsSafe(row: Row, columns: seq<nat>, values: seq<string>)
    requires |columns| == |values| && forall i | 0 <= i < |columns| :: columns[i] < |row|
    requires forall v <- row :: ValueFits(v) && '\n' !in v
    requires forall v <- values :: ValueFits(v) && '\n' !in v
    ensures forall v <- Assign(row, columns, values) :: ValueFits(v) && '\n' !in v
  {
    if columns != [] {
      AssignKeepsSafe(row, columns[..|columns| - 1], values[..|columns| - 1]);
    }
  }

  lemma UpdatedIsSafe(row: Row, table: TableDef, sets: seq<SetClause>, where: Option<Where>)
    requires |row| == |table.columns| && WhereKnown(table, where) && SetsKnown(table, sets)
    requires StorableSets(sets) && LineSafe(row) && forall v <- row :: ValueFits(v)
    ensures LineSafe(UpdateRow(row, table, sets, where))
            && forall v <- UpdateRow(row, table, sets, where) :: ValueFits(v)
  {
    hide R.ColumnIndex, Matches, Assign;
    assert forall v <- SetValues(sets) :: ValueFits(v) && '\n' !in v;
    AssignKeepsSafe(row, Selection(table, SetNames(sets)), SetValues(sets));
  }

  lemma UpdatedStorable(rows: seq<Row>, table: TableDef, sets: seq<SetClause>, where: Option<Where>)
    requires Storable(rows, |table.columns|) && WhereKnown(table, where) && SetsKnown(table, sets) && StorableSets(sets)
    ensures Wide(rows, |table.columns|) && Storable(Updated(rows, table, sets, where), |table.columns|)
    ensures |Updated(rows, table, sets, where)| == |rows|
  {
    hide R.ColumnIndex, ValueFits, LineSafe, Matches, UpdateRow, StorableSets, R.DistinctKnown;
    var updated := Updated(rows, table, sets, where);
    forall i | 0 <= i < |rows|
      ensures LineSafe(updated[i]) && |updated[i]| == |table.columns| && forall v <- updated[i] :: ValueFits(v)
    {
      assert rows[i] in rows;
      UpdatedIsSafe(rows[i], table, sets, where);
    }
  }

  /** After an UPDATE, reading the table gives exactly the updated rows. */
  lemma UpdateReadsBack(dir: string, tables: seq<TableDef>, files: Files, name: string, sets: seq<SetClause>,
                        where: Option<Where>)
    requires FindTable(tables, name).Some? && 0 < |FindTable(tables, name).value.columns| <= MAX_COLUMNS
    requires var table := FindTable(tables, name).value;
             && TableRows(dir, files, table).Ok? && SafeRows(TableRows(dir, files, table).value)
             && WhereKnown(table, where) && SetsKnown(table, sets) && StorableSets(sets)
    ensures var table := FindTable(tables, name).value;
            var (status, after) := UpdateFile(dir, tables, files, name, sets, where);
            && status == ErrNone && Wide(TableRows(dir, files, table).value, |table.columns|)
            && TableRows(dir, after, table) == Ok(Updated(TableRows(dir, files, table).value, table, sets, where))
            && (forall p | p != FullPath(dir, name) :: FileText(after, p) == FileText(files, p))
  {
    hide ReadTable, EncodeTable, FullPath, WhereKnown, SetsKnown, Updated, Wide, SafeRows, WellShaped, StorableSets,
         UpdateFile, PathFits;
    var table := FindTable(tables, name).value;
    var rows := TableRows(dir, files, table).value;
    RowsShaped(dir, files, table);
    UpdatedStorable(rows, table, sets, where);
    UpdateFileIs(dir, tables, files, name, sets, where);
    RewriteReadsBack(dir, files, table, name, Updated(rows, table, sets, where));
  }

  /**
   An accepted INSERT into a written file can be read back exactly when there was room and no
   value holds a newline.
   */
  lemma InsertReadsBackExactly(dir: string, tables: seq<TableDef>, files: Files, name: string, columns: seq<string>,
                               values: seq<string>, rows: seq<Row>)
    requires FindTable(tables, name).Some? && PathFits(dir, name)
             && FileText(files, FullPath(dir, name)) == EncodeTable(rows)
    requires var n := |FindTable(tables, name).value.columns|; 0 < n <= MAX_COLUMNS && WellShaped(rows, n)
    requires R.Decision(FindTable(tables, name).value.columns, columns, values, SameName) == R.Accepted
    requires SafeRows(rows) && forall v <- values :: ValueFits(v)
    ensures var table := FindTable(tables, name).value;
            var (status, after) := InsertFile(dir, tables, files, name, columns, values);
            && status == ErrNone
            && (TableRows(dir, after, table) == Ok(rows + [R.Reordered(table.columns, columns, values, SameName)])
                <==> |rows| < MAX_ROWS && forall v <- values :: '\n' !in v)
            && (forall p | p != FullPath(dir, name) :: FileText(after, p) == FileText(files, p))
  {
    hide LineSafe, EncodeRow, ReadTable, EncodeTable, FullPath, R.ColumnIndex, R.Reordered, R.Decision, ValueFits;
    var table := FindTable(tables, name).value;
    var row := R.Reordered(table.columns, columns, values, SameName);
    R.ReorderedInPlace(table.columns, columns, values, SameName);
    ReorderedWide(table, columns, values);
    EncodedBehind(rows, row);
    TableReadsBackExactly(rows + [row], |table.columns|);
    SafeBehind(rows, row);
    SameLine(row, values);
  }

  lemma ReorderedWide(table: TableDef, columns: seq<string>, values: seq<string>)
    ensures |R.Reordered(table.columns, columns, values, SameName)| == |table.columns|
  {
  }

  lemma EncodedBehind(rows: seq<Row>, row: Row)
    ensures EncodeTable(rows + [row]) == EncodeTable(rows) + EncodeRow(row)
  {
    hide EncodeRow;
    TableConcat(rows, [row]);
    assert EncodeTable([row]) == EncodeRow(row) + EncodeTable([]);
    assert EncodeRow(row) + [] == EncodeRow(row);
  }

  lemma SafeBehind(rows: seq<Row>, row: Row)
    requires SafeRows(rows)
    ensures SafeRows(rows + [row]) <==> LineSafe(row)
  {
    hide LineSafe;
    assert (rows + [row])[|rows|] == row;
  }

  lemma SameLine(row: Row, values: seq<string>)
    requires forall v :: v in row <==> v in values
    ensures LineSafe(row) <==> forall v <- values :: '\n' !in v
  {
  }
}
