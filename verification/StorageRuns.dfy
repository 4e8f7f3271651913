/**
 Scans and whole runs of the storage engine, over any number of tables.
 */
module StorageRuns {
  import opened Machine
  import opened Pages
  import opened Records
  import opened CacheModel
  import opened CacheCoherence
  import opened StorageModel
  import opened StorageRefinement
  import opened FileGrowth

  // ---------- scans ----------

  /** A visitor walking a list of rows, and whether it asked to stop. */
  function VisitRows(rows: seq<Row>, seen: seq<Row>, more: seq<Row> -> bool): (seq<Row>, bool) {
    if rows == [] then (seen, false)
    else if more(seen + [rows[0]]) then VisitRows(rows[1..], seen + [rows[0]], more)
    else (seen + [rows[0]], true)
  }

  lemma {:induction false} VisitRecordsMeaning(rows: seq<Row>, seen: seq<Row>, more: seq<Row> -> bool)
    requires AllStorable(rows)
    ensures var (visited, stopped) := VisitRows(rows, seen, more);
            VisitRecords(Serialized(rows), seen, more) == Visit(visited, stopped, OK)
    decreases |rows|
  {
    if rows != [] {
      SerializeRoundTrip(rows[0]);
      VisitRecordsMeaning(rows[1..], seen + [rows[0]], more);
    }
  }

  lemma {:induction false} VisitRowsConcat(a: seq<Row>, b: seq<Row>, seen: seq<Row>, more: seq<Row> -> bool)
    ensures var (visited, stopped) := VisitRows(a, seen, more);
            VisitRows(a + b, seen, more) == if stopped then (visited, true) else VisitRows(b, visited, more)
    decreases |a|
  {
    if a == [] {
      assert a + b == b;
    } else {
      assert (a + b)[1..] == a[1..] + b;
      VisitRowsConcat(a[1..], b, seen + [a[0]], more);
    }
  }

  /** A visitor that never stops sees all rows. */
  lemma {:induction false} VisitRowsAll(rows: seq<Row>, seen: seq<Row>, more: seq<Row> -> bool)
    requires forall s :: more(s)
    ensures VisitRows(rows, seen, more) == (seen + rows, false)
    decreases |rows|
  {
    if rows == [] {
      assert seen + rows == seen;
    } else {
      VisitRowsAll(rows[1..], seen + [rows[0]], more);
      assert seen + [rows[0]] + rows[1..] == seen + rows;
    }
  }

  function RowsBetween(c: Cache, path: string, pid: uint32, count: uint32): seq<Row>
    decreases count - pid
  {
    if pid >= count then [] else RowsOf(View(c, path, pid)) + RowsBetween(c, path, pid + 1, count)
  }

  lemma {:induction false} RowsUpToSplit(c: Cache, path: string, pid: uint32, count: uint32)
    requires pid <= count
    ensures RowsUpTo(c, path, count) == RowsUpTo(c, path, pid) + RowsBetween(c, path, pid, count)
    decreases count - pid
  {
    hide View, RowsOf;
    if pid < count {
      RowsUpToSplit(c, path, pid + 1, count);
    }
  }

  lemma {:induction false} RowsBetweenSame(c: Cache, d: Cache, path: string, pid: uint32, count: uint32)
    requires SameRows(c, d)
    ensures RowsBetween(d, path, pid, count) == RowsBetween(c, path, pid, count)
    decreases count - pid
  {
    hide View, RowsOf;
    if pid < count {
      assert SameRowsAt(c, d, path, pid);
      RowsBetweenSame(c, d, path, pid + 1, count);
    }
  }

  /** Loads during a scan change no rows, whatever they evict. */
  lemma LoadForScan(c: Cache, path: string, pid: uint32, count: uint32)
    requires StorageInv(c) && pid < count <= PageCount(c.disk, path)
    ensures var r := Load(c, path, pid);
            && r.status == OK && StorageInv(r.cache) && SameRows(c, r.cache) && FilesGrow(c, r.cache)
            && count <= PageCount(r.cache.disk, path)
            && RecordsOf(r.cache.frames[r.index].page) == Serialized(RowsOf(View(c, path, pid)))
            && AllStorable(RowsOf(View(c, path, pid)))
  {
    hide Find, DurableAt, Coherent, SameRows, RowsOf, View, Load, SameRowsAt, Holds, RecordsOf;
    LoadQuiet(c, path, pid);
    var r := Load(c, path, pid);
    HoldsReadsBack(View(c, path, pid), Serialized(RowsOf(View(c, path, pid))));
    assert |FilePages(c.disk, path)| <= |FilePages(r.cache.disk, path)| <= OFFSET_LIMIT;
  }

  /** The step of the page loop, in terms of the rows of the page. */
  lemma ScanStep(c: Cache, path: string, pid: uint32, count: uint32, seen: seq<Row>, more: seq<Row> -> bool)
    requires StorageInv(c) && pid < count <= PageCount(c.disk, path)
    ensures var d := Load(c, path, pid).cache;
            var (visited, stopped) := VisitRows(RowsOf(View(c, path, pid)), seen, more);
            ScanPages(c, path, pid, count, seen, more)
            == if stopped then Scan(OK, visited, d) else ScanPages(d, path, pid + 1, count, visited, more)
  {
    hide View, RowsOf, Load, StorageInv, SameRows, FilesGrow, RecordsOf, Serialized, AllStorable, VisitRecords,
         VisitRows;
    LoadForScan(c, path, pid, count);
    VisitRecordsMeaning(RowsOf(View(c, path, pid)), seen, more);
  }

  lemma {:induction false} ScanPagesMeaning(c: Cache, path: string, pid: uint32, count: uint32,
                                            seen: seq<Row>, more: seq<Row> -> bool)
    requires StorageInv(c) && pid <= count <= PageCount(c.disk, path)
    ensures var s := ScanPages(c, path, pid, count, seen, more);
            && s.status == OK && s.rows == VisitRows(RowsBetween(c, path, pid, count), seen, more).0
            && StorageInv(s.cache) && SameRows(c, s.cache) && FilesGrow(c, s.cache)
    decreases count - pid
  {
    hide View, RowsOf, Load, StorageInv, SameRows, FilesGrow, RecordsOf, Serialized, AllStorable, PageCount;
    if pid < count {
      LoadForScan(c, path, pid, count);
      ScanStep(c, path, pid, count, seen, more);
      var d := Load(c, path, pid).cache;
      var here, rest := RowsOf(View(c, path, pid)), RowsBetween(c, path, pid + 1, count);
      VisitRowsConcat(here, rest, seen, more);
      var (visited, stopped) := VisitRows(here, seen, more);
      if !stopped {
        ScanPagesMeaning(d, path, pid + 1, count, visited, more);
        RowsBetweenSame(c, d, path, pid + 1, count);
        var s := ScanPages(d, path, pid + 1, count, visited, more);
        SameRowsThen(c, d, s.cache);
        FilesGrowThen(c, d, s.cache);
      }
    } else {
      SameRowsReflexive(c);
    }
  }

  lemma SameRowsReflexive(c: Cache)
    ensures SameRows(c, c) && FilesGrow(c, c)
  {
  }

  /** A scan never fails, shows its visitor the rows of the table in order until told to stop, and changes no table. */
  lemma ScanMeaning(c: Cache, path: string, more: seq<Row> -> bool)
    requires StorageInv(c)
    ensures var s := ScanRows(c, path, more);
            && s.status == OK
            && s.rows == VisitRows(TableRows(c, path), [], more).0
            && ((forall seen :: more(seen)) ==> s.rows == TableRows(c, path))
            && StorageInv(s.cache)
            && (forall p :: TableRows(s.cache, p) == TableRows(c, p))
  {
    hide StorageInv, SameRows, FilesGrow, ScanPages, RowsBetween;
    var count := PageCount(c.disk, path);
    ScanPagesMeaning(c, path, 0, count, [], more);
    RowsUpToSplit(c, path, 0, count);
    assert RowsUpTo(c, path, 0) + RowsBetween(c, path, 0, count) == RowsBetween(c, path, 0, count);
    QuietTables(c, ScanRows(c, path, more).cache);
    if forall seen :: more(seen) {
      VisitRowsAll(TableRows(c, path), [], more);
    }
  }

  // ---------- restarts ----------

  /** Throwing the cache away between statements loses no row. */
  lemma ColdRestart(c: Cache)
    requires StorageInv(c)
    ensures StorageInv(Init(c.disk))
    ensures forall p :: TableRows(Init(c.disk), p) == TableRows(c, p)
  {
    var d := Init(c.disk);
    forall path, pid: uint32 ensures DurableAt(d, path, pid) && SameRowsAt(c, d, path, pid) {
      assert DurableAt(c, path, pid);
    }
    QuietTables(c, d);
  }

  lemma EmptyDiskInv()
    ensures StorageInv(Init(map[])) && forall p :: TableRows(Init(map[]), p) == []
  {
    hide GoodPage, RowsOf;
    GoodZero();
    InitCoherent(map[]);
    forall path, pid: uint32 ensures DurableAt(Init(map[]), path, pid) {
      EmptyViews(path, pid);
    }
    forall p ensures TableRows(Init(map[]), p) == [] {
      NoRowsUpTo(p);
    }
  }

  lemma GoodZero()
    ensures GoodPage(ZERO_PAGE)
  {
    EmptyPagesHoldNothing(0);
    GoodPageIntro(ZERO_PAGE, []);
  }

  lemma EmptyViews(path: string, pid: uint32)
    ensures View(Init(map[]), path, pid) == DiskPage(map[], path, pid) == ZERO_PAGE
  {
  }

  lemma NoRowsUpTo(path: string)
    ensures TableRows(Init(map[]), path) == []
  {
    hide RowsOf, View;
  }

  // ---------- whole runs ----------

  datatype StorageOp =
    | Insert(table: string, row: Row)
    | Select(table: string, more: seq<Row> -> bool)
    | Flush
    | Restart

  function Exec(dir: string, c: Cache, op: StorageOp): Cache {
    match op
    case Insert(table, row) => InsertRow(c, TablePath(dir, table), row).1
    case Select(table, more) => ScanRows(c, TablePath(dir, table), more).cache
    case Flush => FlushAll(c)
    case Restart => Init(c.disk)
  }

  /** The state after the first n operations. */
  function After(dir: string, c: Cache, ops: seq<StorageOp>, n: nat): Cache
    requires n <= |ops|
  {
    if n == 0 then c else Exec(dir, After(dir, c, ops, n - 1), ops[n - 1])
  }

  /** The record of a row fits a page of its own. */
  predicate Fits(row: Row) {
    RecordLength(row) <= 4076
  }

  /** The rows that the first n operations insert successfully into a table, oldest first. */
  function Inserted(ops: seq<StorageOp>, n: nat, table: string): seq<Row>
    requires n <= |ops|
  {
    if n == 0 then []
    else
      var op := ops[n - 1];
      Inserted(ops, n - 1, table) + if op.Insert? && op.table == table && Fits(op.row) then [op.row] else []
  }

  /** Paths that the 512-byte path buffer does not cut. */
  predicate ShortName(dir: string, table: string) {
    |dir| + |table| + 6 <= 511
  }

  /** How often the first n operations try to insert into a table. */
  function Tried(ops: seq<StorageOp>, n: nat, table: string): nat
    requires n <= |ops|
  {
    if n == 0 then 0
    else Tried(ops, n - 1, table) + if ops[n - 1].Insert? && ops[n - 1].table == table then 1 else 0
  }

  /** An operation names tables whose paths are not cut, and a row whose length does not wrap the room test. */
  predicate WellFormed(dir: string, op: StorageOp) {
    && (op.Insert? ==> ShortName(dir, op.table) && Addressable(op.row))
    && (op.Select? ==> ShortName(dir, op.table))
  }

  /**
   The premise of a run from the files in a data directory, to be checked before it starts:
   well-formed operations, and fewer inserts into a table than its file has page offsets left.
   */
  predicate WithinLimits(dir: string, disk: Disk, ops: seq<StorageOp>) {
    && (forall i | 0 <= i < |ops| :: WellFormed(dir, ops[i]))
    && (forall i | 0 <= i < |ops| && ops[i].Insert? ::
          |FilePages(disk, TablePath(dir, ops[i].table))| + Tried(ops, |ops|, ops[i].table) < OFFSET_LIMIT)
  }

  lemma PathsDistinct(dir: string, a: string, b: string)
    requires ShortName(dir, a) && ShortName(dir, b)
    ensures TablePath(dir, a) == TablePath(dir, b) <==> a == b
  {
    var pa, pb := TablePath(dir, a), TablePath(dir, b);
    var k := |dir| + 1;
    assert pa[k..k + |a|] == a && pb[k..k + |b|] == b;
  }

  lemma ExecRefines(dir: string, c: Cache, op: StorageOp)
    requires StorageInv(c) && WellFormed(dir, op)
    requires op.Insert? ==> HasRoom(c, TablePath(dir, op.table))
    ensures var d := Exec(dir, c, op);
            && StorageInv(d)
            && (op.Insert? ==> InsertRow(c, TablePath(dir, op.table), op.row).0
                               == if Fits(op.row) then OK else INTERNAL_ERROR)
            && (forall table | ShortName(dir, table) ::
                  TableRows(d, TablePath(dir, table)) == TableRows(c, TablePath(dir, table))
                  + if op.Insert? && op.table == table && Fits(op.row) then [op.row] else [])
  {
    hide StorageInv, TableRows, TablePath, Addressable, HasRoom, InsertRow, ScanRows, FlushAll, RecordLength, ShortName;
    var d := Exec(dir, c, op);
    match op {
      case Insert(table, row) => InsertRefines(c, TablePath(dir, table), row);
      case Select(table, more) => ScanMeaning(c, TablePath(dir, table), more);
      case Flush => FlushAllQuiet(c); QuietTables(c, d);
      case Restart => ColdRestart(c);
    }
    forall table | ShortName(dir, table)
      ensures TableRows(d, TablePath(dir, table)) == TableRows(c, TablePath(dir, table))
              + if op.Insert? && op.table == table && Fits(op.row) then [op.row] else []
    {
      if op.Insert? {
        PathsDistinct(dir, op.table, table);
      }
      assert TableRows(c, TablePath(dir, table)) + [] == TableRows(c, TablePath(dir, table));
    }
  }

  // ---------- no run outgrows its files ----------

  /** The most pages a file of `start` pages can have after so many inserts into it. */
  function Reach(start: nat, tried: nat): nat {
    if tried == 0 then start else (if start == 0 then 1 else start) + tried
  }

  lemma ExecWithin(dir: string, c: Cache, op: StorageOp, path: string, bound: nat)
    requires Within(c, path, bound)
    ensures Within(Exec(dir, c, op), path, if op.Insert? then Raised(path, bound, TablePath(dir, op.table)) else bound)
  {
    hide InsertRow, TablePath, PageCount, FlushAllFrom, ScanPages;
    match op {
      case Insert(table, row) => InsertWithin(c, TablePath(dir, table), row, path, bound);
      case Select(table, more) =>
        ScanWithin(c, TablePath(dir, table), 0, PageCount(c.disk, TablePath(dir, table)), [], more, path, bound);
      case Flush => FlushAllWithin(c, 0, path, bound);
      case Restart =>
    }
  }

  /** A file grows by at most one page for each insert tried on its table, and one more for the first. */
  lemma {:induction false} RunGrowth(dir: string, disk: Disk, ops: seq<StorageOp>, n: nat, table: string)
    requires n <= |ops| && ShortName(dir, table) && forall i | 0 <= i < n :: WellFormed(dir, ops[i])
    ensures var path := TablePath(dir, table);
            Within(After(dir, Init(disk), ops, n), path, Reach(|FilePages(disk, path)|, Tried(ops, n, table)))
  {
    hide Within, TablePath, Exec, FilePages, Addressable, ShortName;
    var path := TablePath(dir, table);
    var start := |FilePages(disk, path)|;
    if n == 0 {
      StartWithin(disk, path);
    } else {
      RunGrowth(dir, disk, ops, n - 1, table);
      var op, bound := ops[n - 1], Reach(start, Tried(ops, n - 1, table));
      ExecWithin(dir, After(dir, Init(disk), ops, n - 1), op, path, bound);
      if op.Insert? {
        PathsDistinct(dir, op.table, table);
      }
    }
  }

  lemma StartWithin(disk: Disk, path: string)
    ensures Within(Init(disk), path, |FilePages(disk, path)|)
  {
  }

  lemma {:induction false} TriedGrows(ops: seq<StorageOp>, n: nat, m: nat, table: string)
    requires n <= m <= |ops|
    ensures Tried(ops, n, table) <= Tried(ops, m, table)
    decreases m
  {
    if n < m {
      TriedGrows(ops, n, m - 1, table);
    }
  }

  /** Within the limits, every operation of a run is well formed, and an insert finds room behind its file. */
  lemma StepReady(dir: string, disk: Disk, ops: seq<StorageOp>, i: nat)
    requires WithinLimits(dir, disk, ops) && i < |ops|
    ensures WellFormed(dir, ops[i])
    ensures ops[i].Insert? ==> HasRoom(After(dir, Init(disk), ops, i), TablePath(dir, ops[i].table))
  {
    hide TablePath, After, FilePages, Addressable, ShortName;
    if ops[i].Insert? {
      assert WellFormed(dir, ops[i]);
      RunGrowth(dir, disk, ops, i, ops[i].table);
      TriedGrows(ops, i + 1, |ops|, ops[i].table);
    }
  }

  // ---------- the main theorems ----------

  /**
   After any run from the files of a data directory, each table's file holds what it held
   before the run followed by exactly the rows of the successful inserts, in order.
   */
  lemma {:induction false} RunRefines(dir: string, disk: Disk, ops: seq<StorageOp>, n: nat)
    requires n <= |ops| && StorageInv(Init(disk)) && WithinLimits(dir, disk, ops)
    ensures StorageInv(After(dir, Init(disk), ops, n))
    ensures forall table | ShortName(dir, table) ::
              TableRows(After(dir, Init(disk), ops, n), TablePath(dir, table))
              == TableRows(Init(disk), TablePath(dir, table)) + Inserted(ops, n, table)
  {
    hide StorageInv, TableRows, TablePath, ShortName, Exec, Fits, WithinLimits, WellFormed, HasRoom;
    var c := Init(disk);
    if n == 0 {
      forall table ensures TableRows(c, TablePath(dir, table)) + [] == TableRows(c, TablePath(dir, table)) {
      }
    } else {
      RunRefines(dir, disk, ops, n - 1);
      StepReady(dir, disk, ops, n - 1);
      ExecRefines(dir, After(dir, c, ops, n - 1), ops[n - 1]);
      forall table | ShortName(dir, table)
        ensures TableRows(After(dir, c, ops, n), TablePath(dir, table))
                == TableRows(c, TablePath(dir, table)) + Inserted(ops, n, table)
      {
      }
    }
  }

  /** From an empty data directory, every scan of a run visits exactly the rows inserted so far. */
  lemma ScansSeeInserts(dir: string, ops: seq<StorageOp>, n: nat)
    requires n < |ops| && ops[n].Select? && forall seen :: ops[n].more(seen)
    requires WithinLimits(dir, map[], ops)
    ensures ScanRows(After(dir, Init(map[]), ops, n), TablePath(dir, ops[n].table), ops[n].more).rows
         == Inserted(ops, n, ops[n].table)
  {
    hide StorageInv, TableRows, TablePath, Exec, ScanRows;
    EmptyDiskInv();
    RunRefines(dir, map[], ops, n);
    var path := TablePath(dir, ops[n].table);
    ScanMeaning(After(dir, Init(map[]), ops, n), path, ops[n].more);
    assert WellFormed(dir, ops[n]);
    assert [] + Inserted(ops, n, ops[n].table) == Inserted(ops, n, ops[n].table);
  }
}
