/**
 What SELECT, DELETE and UPDATE of member-dragon show and change, said of positions of rows,
 names of columns, and values alone.
 */
module DragonQueries {
  import opened Options
  import opened Comparison
  import opened StableSorting
  import opened ResultSets
  import opened FileCodec
  import opened Commands
  import opened DragonEngine
  import opened DragonMeaning
  import R = Reordering

  // ---------- names ----------

  /** Column k is the first of this name. */
  predicate IsColumn(columns: seq<string>, name: string, k: nat) {
    k < |columns| && columns[k] == name && name !in columns[..k]
  }

  lemma ColumnExactly(table: TableDef, name: string, k: nat)
    ensures IsColumn(table.columns, name, k) <==> ColumnOf(table, name) == k
    ensures name in table.columns <==> ColumnOf(table, name) >= 0
  {
    var r := ColumnOf(table, name);
    if r >= 0 {
      assert forall j | 0 <= j < r :: table.columns[j] != name;
    }
  }

  /** The statements know exactly the names of the schema, and an UPDATE names no column twice. */
  lemma KnownExactly(table: TableDef, where: Option<Where>, orderBy: Option<OrderBy>, sets: seq<SetClause>)
    ensures WhereKnown(table, where) <==> (where.Some? ==> where.value.column in table.columns)
    ensures OrderKnown(table, orderBy) <==> (orderBy.Some? ==> orderBy.value.column in table.columns)
    ensures SetsKnown(table, sets)
       <==> && (forall s <- sets :: s.column in table.columns)
            && (forall i, j | 0 <= i < j < |sets| :: sets[i].column != sets[j].column)
  {
    hide R.ColumnIndex;
    if where.Some? {
      ColumnExactly(table, where.value.column, 0);
    }
    if orderBy.Some? {
      ColumnExactly(table, orderBy.value.column, 0);
    }
    SetsKnownExactly(table, sets);
  }

  lemma SetsKnownExactly(table: TableDef, sets: seq<SetClause>)
    ensures SetsKnown(table, sets)
       <==> && (forall s <- sets :: s.column in table.columns)
            && (forall i, j | 0 <= i < j < |sets| :: sets[i].column != sets[j].column)
  {
    hide R.ColumnIndex, ColumnOf;
    var selection := Selection(table, SetNames(sets));
    forall i | 0 <= i < |sets|
      ensures selection[i] == ColumnOf(table, sets[i].column)
      ensures sets[i].column in table.columns <==> selection[i] >= 0
      ensures selection[i] >= 0 ==> table.columns[selection[i]] == sets[i].column
    {
      SelectionAt(table, SetNames(sets), i);
    }
    assert forall i | 0 <= i < |sets| :: sets[i] in sets;
  }

  lemma SelectionAt(table: TableDef, names: seq<string>, i: nat)
    requires i < |names|
    ensures var r := Selection(table, names)[i];
            && r == ColumnOf(table, names[i])
            && (names[i] in table.columns <==> r >= 0) && (r >= 0 ==> table.columns[r] == names[i])
  {
    ColumnExactly(table, names[i], 0);
  }

  // ---------- which rows ----------

  /** The row passes the WHERE, if there is one. */
  ghost predicate Passes(row: Row, columns: seq<string>, where: Option<Where>) {
    where.Some? ==> forall k | 0 <= k < |row| && IsColumn(columns, where.value.column, k) ::
                      Satisfies(row[k], where.value.op, where.value.value)
  }

  lemma PassesExactly(row: Row, table: TableDef, w: Where)
    requires |row| == |table.columns| && WhereKnown(table, Some(w))
    ensures Matches(row, ColumnOf(table, w.column), w) <==> Passes(row, table.columns, Some(w))
  {
    hide CompareValues, CompareWithOperator, Satisfies, R.ColumnIndex;
    var k := ColumnOf(table, w.column);
    ColumnExactly(table, w.column, k);
    OperatorsExactly(row[k], w.op, w.value);
    forall j | 0 <= j < |row| && IsColumn(table.columns, w.column, j) ensures j == k {
      ColumnExactly(table, w.column, j);
    }
  }

  /** The positions of the marks that are set, in order. */
  function SetPlaces(marks: seq<bool>): (p: seq<nat>)
    ensures forall i, j | 0 <= i < j < |p| :: p[i] < p[j]
    ensures forall i | 0 <= i < |p| :: p[i] < |marks| && marks[p[i]]
    ensures forall j | 0 <= j < |marks| && marks[j] :: j in p
  {
    if marks == [] then []
    else
      var n := |marks| - 1;
      var p := SetPlaces(marks[..n]);
      if marks[n] then p + [n] else p
  }

  ghost function PassMarks(rows: seq<Row>, columns: seq<string>, where: Option<Where>, passing: bool): (m: seq<bool>)
    ensures |m| == |rows| && forall i | 0 <= i < |rows| :: m[i] <==> Passes(rows[i], columns, where) == passing
  {
    seq(|rows|, i requires 0 <= i < |rows| => Passes(rows[i], columns, where) == passing)
  }

  /** The positions of the rows that pass (or of those that do not), in order. */
  ghost function Passing(rows: seq<Row>, columns: seq<string>, where: Option<Where>, passing: bool): (p: seq<nat>)
    ensures forall i, j | 0 <= i < j < |p| :: p[i] < p[j]
    ensures forall i | 0 <= i < |p| :: p[i] < |rows| && Passes(rows[p[i]], columns, where) == passing
    ensures forall j | 0 <= j < |rows| && Passes(rows[j], columns, where) == passing :: j in p
  {
    SetPlaces(PassMarks(rows, columns, where, passing))
  }

  /** The rows at these positions. */
  function RowsAt(rows: seq<Row>, p: seq<nat>): (r: seq<Row>)
    requires forall i | 0 <= i < |p| :: p[i] < |rows|
    ensures |r| == |p| && forall i | 0 <= i < |p| :: r[i] == rows[p[i]]
  {
    seq(|p|, i requires 0 <= i < |p| => rows[p[i]])
  }

  lemma PassingLast(rows: seq<Row>, columns: seq<string>, where: Option<Where>, passing: bool)
    requires rows != []
    ensures var n := |rows| - 1; var p := Passing(rows[..n], columns, where, passing);
            Passing(rows, columns, where, passing) == if Passes(rows[n], columns, where) == passing then p + [n] else p
  {
    hide Passes;
    var n := |rows| - 1;
    var m := PassMarks(rows, columns, where, passing);
    assert m[..n] == PassMarks(rows[..n], columns, where, passing);
  }

  lemma SelectLast(rows: seq<Row>, column: nat, where: Where, matching: bool)
    requires rows != [] && forall row <- rows :: column < |row|
    ensures forall row <- rows[..|rows| - 1] :: column < |row|
    ensures var n := |rows| - 1; var kept := Select(rows[..n], column, where, matching);
            Select(rows, column, where, matching)
            == if Matches(rows[n], column, where) == matching then kept + [rows[n]] else kept
  {
    hide Matches;
    assert forall row <- rows[..|rows| - 1] :: row in rows;
  }

  lemma RowsAtLast(rows: seq<Row>, p: seq<nat>)
    requires rows != [] && forall i | 0 <= i < |p| :: p[i] < |rows| - 1
    ensures var n := |rows| - 1;
            && RowsAt(rows, p) == RowsAt(rows[..n], p)
            && RowsAt(rows, p + [n]) == RowsAt(rows[..n], p) + [rows[n]]
  {
  }

  /** Selection keeps the passing rows where they stand. */
  lemma {:induction false} SelectPlaces(rows: seq<Row>, table: TableDef, w: Where, matching: bool)
    requires Wide(rows, |table.columns|) && WhereKnown(table, Some(w))
    ensures Select(rows, ColumnOf(table, w.column), w, matching)
         == RowsAt(rows, Passing(rows, table.columns, Some(w), matching))
  {
    hide Matches, Passes, R.ColumnIndex, ColumnOf;
    if rows != [] {
      var n := |rows| - 1;
      assert rows[n] in rows;
      SelectLast(rows, ColumnOf(table, w.column), w, matching);
      assert Wide(rows[..n], |table.columns|);
      SelectPlaces(rows[..n], table, w, matching);
      hide Select, Passing, RowsAt;
      PassesExactly(rows[n], table, w);
      PassingLast(rows, table.columns, Some(w), matching);
      RowsAtLast(rows, Passing(rows[..n], table.columns, Some(w), matching));
    }
  }

  // ---------- SELECT ----------

  /** A value belongs in front of another one: smaller, or equal and from an earlier row. */
  ghost predicate InFront(a: string, i: nat, b: string, j: nat, direction: Direction) {
    if direction == Ascending then Less(a, b) || (!Less(b, a) && i < j)
    else Less(b, a) || (!Less(a, b) && i < j)
  }

  /** The positions of the rows that pass, each once. */
  ghost predicate Covers(p: seq<nat>, rows: seq<Row>, columns: seq<string>, where: Option<Where>) {
    && (forall i | 0 <= i < |p| :: p[i] < |rows| && Passes(rows[p[i]], columns, where))
    && (forall j | 0 <= j < |rows| && Passes(rows[j], columns, where) :: j in p)
    && (forall i, j | 0 <= i < j < |p| :: p[i] != p[j])
  }

  ghost predicate SortedBy(p: seq<nat>, rows: seq<Row>, k: nat, direction: Direction)
    requires forall i | 0 <= i < |p| :: p[i] < |rows| && k < |rows[p[i]]|
  {
    forall i, j | 0 <= i < j < |p| :: InFront(rows[p[i]][k], p[i], rows[p[j]][k], p[j], direction)
  }

  /** The values to sort by are all spelled as integers, or none is. */
  ghost predicate OneKind(rows: seq<Row>, columns: seq<string>, where: Option<Where>, orderBy: Option<OrderBy>)
    requires Wide(rows, |columns|)
  {
    orderBy.Some? ==>
      forall k: nat | IsColumn(columns, orderBy.value.column, k) ::
        forall a <- rows, b <- rows | Passes(a, columns, where) && Passes(b, columns, where) :: Alike(a[k], b[k])
  }

  /** The rows a query lists: each that passes once, in the order of the table or of a column. */
  ghost predicate Lists(p: seq<nat>, rows: seq<Row>, columns: seq<string>, where: Option<Where>,
                        orderBy: Option<OrderBy>)
    requires Wide(rows, |columns|)
  {
    && Covers(p, rows, columns, where)
    && match orderBy
       case None => forall i, j | 0 <= i < j < |p| :: p[i] < p[j]
       case Some(o) => OneKind(rows, columns, where, orderBy) ==>
                         forall k: nat | IsColumn(columns, o.column, k) :: SortedBy(p, rows, k, o.direction)
  }

  /** What is shown of a row: each header's value. */
  ghost predicate Shows(shown: Row, row: Row, columns: seq<string>, headers: seq<string>)
    requires |row| == |columns|
  {
    |shown| == |headers|
    && forall c, k: nat | 0 <= c < |headers| && IsColumn(columns, headers[c], k) :: shown[c] == row[k]
  }

  /** A query names only columns of the table. */
  predicate NamesKnown(table: TableDef, all: bool, columns: seq<string>, where: Option<Where>,
                       orderBy: Option<OrderBy>) {
    && (where.Some? ==> where.value.column in table.columns)
    && (orderBy.Some? ==> orderBy.value.column in table.columns)
    && (!all ==> forall name <- columns :: name in table.columns)
  }

  lemma FilteredPlaces(rows: seq<Row>, table: TableDef, where: Option<Where>)
    requires Wide(rows, |table.columns|) && WhereKnown(table, where)
    ensures Filtered(rows, table, where) == RowsAt(rows, Passing(rows, table.columns, where, true))
  {
    hide Passes, Select, R.ColumnIndex;
    if where.Some? {
      SelectPlaces(rows, table, where.value, true);
    } else {
      AllPass(rows, table.columns);
    }
  }

  /** Without a WHERE every row passes. */
  lemma PassesFreely(row: Row, columns: seq<string>)
    ensures Passes(row, columns, None)
  {
  }

  /** All positions, in order. */
  lemma {:induction false} EveryPlace(p: seq<nat>, n: nat)
    requires (forall i, j | 0 <= i < j < |p| :: p[i] < p[j]) && (forall i | 0 <= i < |p| :: p[i] < n)
    requires forall j | 0 <= j < n :: j in p
    ensures |p| == n && forall i | 0 <= i < n :: p[i] == i
  {
    if p != [] {
      var last := |p| - 1;
      assert p[last] < n;
      assert n - 1 in p;
      assert p[last] == n - 1;
      forall j | 0 <= j < n - 1 ensures j in p[..last] {
        assert j in p && j != p[last];
      }
      EveryPlace(p[..last], n - 1);
    } else {
      assert n > 0 ==> 0 in p;
    }
  }

  lemma AllPass(rows: seq<Row>, columns: seq<string>)
    ensures RowsAt(rows, Passing(rows, columns, None, true)) == rows
  {
    hide Passes;
    var p := Passing(rows, columns, None, true);
    forall j | 0 <= j < |rows| ensures j in p {
      PassesFreely(rows[j], columns);
    }
    EveryPlace(p, |rows|);
  }

  lemma NoneFails(rows: seq<Row>, columns: seq<string>)
    ensures Passing(rows, columns, None, false) == []
  {
    hide Passes;
    var p := Passing(rows, columns, None, false);
    if p != [] {
      PassesFreely(rows[p[0]], columns);
      assert false;
    }
  }

  /** The listed rows, before the limit. */
  lemma OrderedLists(rows: seq<Row>, table: TableDef, where: Option<Where>, orderBy: Option<OrderBy>)
    returns (p: seq<nat>)
    requires Wide(rows, |table.columns|) && WhereKnown(table, where) && OrderKnown(table, orderBy)
    ensures Lists(p, rows, table.columns, where, orderBy)
    ensures Ordered(Filtered(rows, table, where), table, orderBy) == RowsAt(rows, p)
  {
    hide Passes, Select, R.ColumnIndex, BubbleSort, Passing, Filtered, OneKind, Homogeneous, IsColumn;
    var m := Passing(rows, table.columns, where, true);
    FilteredPlaces(rows, table, where);
    p := m;
    if orderBy.Some? {
      hide Lists;
      p := SortedPlaces(rows, table, where, orderBy.value, m);
    }
  }

  lemma SortedPlaces(rows: seq<Row>, table: TableDef, where: Option<Where>, o: OrderBy, m: seq<nat>)
    returns (p: seq<nat>)
    requires Wide(rows, |table.columns|) && WhereKnown(table, where) && OrderKnown(table, Some(o))
    requires m == Passing(rows, table.columns, where, true)
    ensures Lists(p, rows, table.columns, where, Some(o))
    ensures Ordered(RowsAt(rows, m), table, Some(o)) == RowsAt(rows, p)
  {
    hide Passes, R.ColumnIndex, BubbleSort, Passing, StableSort, OneKind, Lists, Covers, SortedBy, WhereKnown, Wide,
         Homogeneous, RowOrder, Arranges, IsColumn;
    var f, c := RowsAt(rows, m), ColumnOf(table, o.column);
    var gt := RowOrder(c, o.direction);
    OnlyColumn(table, o.column);
    var q;
    if OneKind(rows, table.columns, where, Some(o)) {
      KindOfPassing(rows, table, where, o, m);
      q := SortedArranges(f, c, o.direction);
      ThroughSorted(rows, |table.columns|, m, q, c, o.direction);
    } else {
      OrderByPermutes(f, c, o.direction);
      q := PermutedPlaces(BubbleSort(f, gt).items, f);
    }
    p := Through(m, q);
    ThroughCovers(rows, table.columns, where, m, q);
    ThroughLists(rows, table, where, o, p);
    assert RowsAt(f, q) == RowsAt(rows, p);
  }

  lemma OnlyColumn(table: TableDef, name: string)
    requires name in table.columns
    ensures ColumnOf(table, name) >= 0 && IsColumn(table.columns, name, ColumnOf(table, name))
    ensures forall k: nat | IsColumn(table.columns, name, k) :: k == ColumnOf(table, name)
  {
    ColumnExactly(table, name, 0);
    ColumnExactly(table, name, ColumnOf(table, name));
    forall k: nat | IsColumn(table.columns, name, k) ensures k == ColumnOf(table, name) {
      ColumnExactly(table, name, k);
    }
  }

  lemma KindOfPassing(rows: seq<Row>, table: TableDef, where: Option<Where>, o: OrderBy, m: seq<nat>)
    requires Wide(rows, |table.columns|) && OrderKnown(table, Some(o))
    requires OneKind(rows, table.columns, where, Some(o)) && m == Passing(rows, table.columns, where, true)
    requires IsColumn(table.columns, o.column, ColumnOf(table, o.column))
    ensures Homogeneous(RowsAt(rows, m), ColumnOf(table, o.column))
  {
    hide Passes, R.ColumnIndex, Alike, IsColumn, Passing;
    var f := RowsAt(rows, m);
    assert forall i | 0 <= i < |f| :: f[i] in rows && Passes(f[i], table.columns, where);
  }

  lemma ThroughLists(rows: seq<Row>, table: TableDef, where: Option<Where>, o: OrderBy, p: seq<nat>)
    requires Wide(rows, |table.columns|) && OrderKnown(table, Some(o))
    requires Covers(p, rows, table.columns, where)
    requires OneKind(rows, table.columns, where, Some(o)) ==>
               SortedBy(p, rows, ColumnOf(table, o.column), o.direction)
    ensures Lists(p, rows, table.columns, where, Some(o))
  {
    hide Passes, R.ColumnIndex, SortedBy, IsColumn, OneKind;
    OnlyColumn(table, o.column) by { ColumnExactly(table, o.column, 0); }
  }

  lemma ArrangedInside(f: seq<Row>, q: seq<nat>, gt: (Row, Row) -> bool)
    requires Arranges(f, q, gt) && Asymmetric(gt)
    ensures Places(f, q) && |q| == |f| && (forall i | 0 <= i < |q| :: q[i] < |f|)
    ensures forall i, j | 0 <= i < j < |q| :: q[i] != q[j]
  {
    forall i, j | 0 <= i < j < |q| ensures q[i] != q[j] {
      assert Precedes(f, q[i], q[j], gt);
    }
  }

  /** The rows come out of the sort from these positions. */
  lemma SortedArranges(f: seq<Row>, c: nat, direction: Direction) returns (q: seq<nat>)
    requires Homogeneous(f, c)
    ensures var gt := RowOrder(c, direction);
            && Arranges(f, q, gt) && Places(f, q) && (forall i, j | 0 <= i < j < |q| :: q[i] != q[j])
            && BubbleSort(f, gt).items == RowsAt(f, q)
  {
    hide RowOrder, BubbleSort, Homogeneous, StableSort;
    var gt := RowOrder(c, direction);
    RowOrderAsymmetric(c, direction);
    HomogeneousIsWeakOrder(f, c, direction);
    BubbleSortIsStable(f, gt);
    q := StableSortArranges(f, Elements(f), gt);
    ArrangedInside(f, q, gt);
  }

  /** Positions of positions. */
  function Through(m: seq<nat>, q: seq<nat>): (p: seq<nat>)
    requires forall i | 0 <= i < |q| :: q[i] < |m|
    ensures |p| == |q| && forall i | 0 <= i < |q| :: p[i] == m[q[i]]
  {
    seq(|q|, i requires 0 <= i < |q| => m[q[i]])
  }

  lemma ThroughCovers(rows: seq<Row>, columns: seq<string>, where: Option<Where>, m: seq<nat>, q: seq<nat>)
    requires m == Passing(rows, columns, where, true)
    requires Places(RowsAt(rows, m), q) && forall i, j | 0 <= i < j < |q| :: q[i] != q[j]
    ensures Covers(Through(m, q), rows, columns, where)
  {
    hide Passes;
    var p := Through(m, q);
    forall j | 0 <= j < |rows| && Passes(rows[j], columns, where) ensures j in p {
      assert j in m;
      var a :| 0 <= a < |m| && m[a] == j;
      assert a in q;
      var i :| 0 <= i < |q| && q[i] == a;
      assert p[i] == j;
    }
    forall i, j | 0 <= i < j < |p| ensures p[i] != p[j] {
      assert q[i] < q[j] || q[j] < q[i];
    }
  }

  lemma ThroughSorted(rows: seq<Row>, n: nat, m: seq<nat>, q: seq<nat>, c: nat, direction: Direction)
    requires (forall i, j | 0 <= i < j < |m| :: m[i] < m[j]) && forall i | 0 <= i < |m| :: m[i] < |rows|
    requires Wide(rows, n) && c < n
    requires Arranges(RowsAt(rows, m), q, RowOrder(c, direction)) && forall i | 0 <= i < |q| :: q[i] < |m|
    ensures SortedBy(Through(m, q), rows, c, direction)
  {
    hide Places, CompareValues, Less, Same;
    var f, p := RowsAt(rows, m), Through(m, q);
    forall i, j | 0 <= i < j < |p| ensures InFront(rows[p[i]][c], p[i], rows[p[j]][c], p[j], direction) {
      assert Precedes(f, q[i], q[j], RowOrder(c, direction));
      CompareExactly(rows[p[i]][c], rows[p[j]][c]);
      CompareExactly(rows[p[j]][c], rows[p[i]][c]);
    }
  }

  /** The first rows are shown, as many as the limit allows. */
  ghost predicate ShowsAll(shown: seq<Row>, rows: seq<Row>, p: seq<nat>, columns: seq<string>, all: bool,
                           headers: seq<string>, limit: Option<nat>)
    requires Wide(rows, |columns|) && forall i | 0 <= i < |p| :: p[i] < |rows|
  {
    && |shown| == (if limit.Some? && limit.value < |p| then limit.value else |p|)
    && forall i | 0 <= i < |shown| ::
         if all then shown[i] == rows[p[i]] else Shows(shown[i], rows[p[i]], columns, headers)
  }

  /**
   SELECT, all of it: the shown rows are, as many as the limit allows, those of the table
   that pass the WHERE, each once, in table order or sorted by the named column with ties in
   table order, and of each row the named columns or all.  An unknown name is an error.
   */
  lemma SelectExactly(rows: seq<Row>, table: TableDef, all: bool, columns: seq<string>, where: Option<Where>,
                      orderBy: Option<OrderBy>, limit: Option<nat>) returns (p: seq<nat>)
    requires Wide(rows, |table.columns|)
    ensures var answer := SelectAnswer(rows, table, all, columns, where, orderBy, limit);
            if NamesKnown(table, all, columns, where, orderBy) then
              && answer.Ok? && answer.value.headers == (if all then table.columns else columns)
              && Lists(p, rows, table.columns, where, orderBy)
              && ShowsAll(answer.value.rows, rows, p, table.columns, all, columns, limit)
            else answer == Err(ErrInvalidQuery)
  {
    hide Passes, R.ColumnIndex, OneKind, Lists, Filtered, Ordered, Project;
    KnownExactly(table, where, orderBy, []);
    SelectionKnown(table, columns);
    p := [];
    if NamesKnown(table, all, columns, where, orderBy) {
      p := OrderedLists(rows, table, where, orderBy);
      ListsInside(rows, table.columns, where, orderBy, p);
      var picked := Picked(rows, table, where, orderBy, limit);
      if !all {
        ProjectShows(picked, table, columns);
      }
    }
  }

  lemma ListsInside(rows: seq<Row>, columns: seq<string>, where: Option<Where>, orderBy: Option<OrderBy>, p: seq<nat>)
    requires Wide(rows, |columns|) && Lists(p, rows, columns, where, orderBy)
    ensures forall i | 0 <= i < |p| :: p[i] < |rows|
  {
  }

  lemma SelectionKnown(table: TableDef, columns: seq<string>)
    ensures AllKnown(Selection(table, columns)) <==> forall name <- columns :: name in table.columns
  {
    hide R.ColumnIndex, ColumnOf;
    forall i | 0 <= i < |columns| ensures columns[i] in table.columns <==> Selection(table, columns)[i] >= 0 {
      SelectionAt(table, columns, i);
    }
    assert forall i | 0 <= i < |columns| :: columns[i] in columns;
  }

  lemma ProjectShows(rows: seq<Row>, table: TableDef, columns: seq<string>)
    requires Wide(rows, |table.columns|) && AllKnown(Selection(table, columns))
    ensures var shown := Project(rows, Selection(table, columns));
            |shown| == |rows|
            && forall i | 0 <= i < |rows| :: Shows(shown[i], rows[i], table.columns, columns)
  {
    hide R.ColumnIndex, IsColumn, ColumnOf;
    var selection := Selection(table, columns);
    forall c, k: nat | 0 <= c < |columns| && IsColumn(table.columns, columns[c], k) ensures selection[c] == k {
      SelectionAt(table, columns, c);
      ColumnExactly(table, columns[c], k);
    }
  }

  // ---------- DELETE and UPDATE ----------

  /** DELETE leaves exactly the rows that do not pass, where they stand; without a WHERE it leaves none. */
  lemma DeleteExactly(rows: seq<Row>, table: TableDef, where: Option<Where>) returns (p: seq<nat>)
    requires Wide(rows, |table.columns|) && WhereKnown(table, where)
    ensures forall i, j | 0 <= i < j < |p| :: p[i] < p[j]
    ensures forall i | 0 <= i < |p| :: p[i] < |rows| && !Passes(rows[p[i]], table.columns, where)
    ensures forall j | 0 <= j < |rows| && !Passes(rows[j], table.columns, where) :: j in p
    ensures Remaining(rows, table, where) == RowsAt(rows, p)
    ensures where.None? ==> p == []
  {
    hide Passes, R.ColumnIndex, ColumnOf, Select, RowsAt;
    p := Passing(rows, table.columns, where, false);
    if where.Some? {
      SelectPlaces(rows, table, where.value, false);
    } else {
      NoneFails(rows, table.columns);
      NoRows(rows);
    }
  }

  lemma NoRows(rows: seq<Row>)
    ensures RowsAt(rows, []) == []
  {
  }

  /**
   UPDATE writes into every row that passes, and so into every row if there is no WHERE, each
   SET value into the column of its name; no other value of any row changes.
   */
  lemma UpdateExactly(rows: seq<Row>, table: TableDef, sets: seq<SetClause>, where: Option<Where>, i: nat, k: nat)
    requires Wide(rows, |table.columns|) && WhereKnown(table, where) && SetsKnown(table, sets)
    requires i < |rows| && k < |table.columns|
    ensures var updated := Updated(rows, table, sets, where);
            && |updated| == |rows| && |updated[i]| == |rows[i]| == |table.columns|
            && (Passes(rows[i], table.columns, where) ==>
                  forall s <- sets | IsColumn(table.columns, s.column, k) :: updated[i][k] == s.value)
            && (|| (Passes(rows[i], table.columns, where) && exists s <- sets :: IsColumn(table.columns, s.column, k))
                || updated[i][k] == rows[i][k])
    ensures where.None? ==> Passes(rows[i], table.columns, where)
  {
    hide Matches, R.ColumnIndex, Assign, IsColumn, ColumnOf;
    var row, names, values := rows[i], SetNames(sets), SetValues(sets);
    var selection := Selection(table, names);
    assert row in rows;
    AssignReads(row, selection, values, k);
    forall c | 0 <= c < |sets| ensures selection[c] == k <==> IsColumn(table.columns, sets[c].column, k) {
      ColumnExactly(table, sets[c].column, k);
      SelectionAt(table, names, c);
    }
    SetColumns(table, sets, selection, k);
    if where.Some? {
      PassesExactly(row, table, where.value);
      hide Passes;
    }
  }

  lemma SetColumns(table: TableDef, sets: seq<SetClause>, selection: seq<int>, k: nat)
    requires |selection| == |sets|
    requires forall c | 0 <= c < |sets| :: selection[c] == k <==> IsColumn(table.columns, sets[c].column, k)
    ensures k in selection <==> exists s <- sets :: IsColumn(table.columns, s.column, k)
  {
    hide IsColumn;
  }

  // ---------- INSERT ----------

  /**
   INSERT is accepted exactly if it names every column of the table once, with a value for
   each, and then writes each value into the column of its name.
   */
  lemma InsertExactly(table: TableDef, columns: seq<string>, values: seq<string>, i: nat, k: nat)
    ensures var decision := R.Decision(table.columns, columns, values, SameName);
            && (decision == R.CountMismatch <==> |columns| != |values| || |columns| != |table.columns|)
            && (decision == R.Accepted <==>
                  && |columns| == |values| == |table.columns|
                  && (forall name <- columns :: name in table.columns)
                  && (forall a, b | 0 <= a < b < |columns| :: columns[a] != columns[b]))
            && (decision == R.Accepted && i < |columns| && IsColumn(table.columns, columns[i], k) ==>
                  var row := R.Reordered(table.columns, columns, values, SameName);
                  |row| == |table.columns| && row[k] == values[i])
  {
    hide R.ColumnIndex, ColumnOf, IsColumn;
    var sets := seq(|columns|, c requires 0 <= c < |columns| => SetClause(columns[c], ""));
    assert SetNames(sets) == columns;
    SetsKnownExactly(table, sets);
    assert forall c | 0 <= c < |columns| :: sets[c] in sets && columns[c] in columns;
    if R.Decision(table.columns, columns, values, SameName) == R.Accepted {
      R.ReorderedInPlace(table.columns, columns, values, SameName);
      ReorderedWide(table, columns, values);
      if i < |columns| && IsColumn(table.columns, columns[i], k) {
        ColumnExactly(table, columns[i], k);
        SelectionAt(table, columns, i);
        IsInside(table.columns, columns[i], k);
      }
    }
  }

  lemma IsInside(columns: seq<string>, name: string, k: nat)
    requires IsColumn(columns, name, k)
    ensures k < |columns|
  {
  }
}
