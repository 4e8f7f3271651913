/**
 The paged, cached heap file is one append-only list of rows per table: for every run
 of inserts, scans, flushes and cold restarts over any number of tables.
 */
module StorageRefinement {
  import opened Options
  import opened Machine
  import opened Pages
  import opened Records
  import opened CacheModel
  import opened CacheCoherence
  import opened StorageModel

  // ---------- pages of rows ----------

  function Serialized(rows: seq<Row>): seq<Record> {
    if rows == [] then [] else [Serialize(rows[0])] + Serialized(rows[1..])
  }

  /** The rows that a scan decodes from a list of records, up to the first malformed one. */
  function RowsFrom(recs: seq<Record>): seq<Row> {
    if recs == [] || Deserialize(recs[0]).None? then [] else [Deserialize(recs[0]).value] + RowsFrom(recs[1..])
  }

  function RowsOf(p: Page): seq<Row> {
    RowsFrom(RecordsOf(p))
  }

  ghost predicate AllStorable(rows: seq<Row>) {
    forall row <- rows :: Storable(row)
  }

  /** The page holds the records of whole rows and nothing else. */
  ghost predicate GoodPage(p: Page) {
    Holds(p, Serialized(RowsOf(p))) && AllStorable(RowsOf(p))
  }

  lemma {:induction false} RowsReadBack(rows: seq<Row>)
    requires AllStorable(rows)
    ensures RowsFrom(Serialized(rows)) == rows
  {
    if rows != [] {
      SerializeRoundTrip(rows[0]);
      RowsReadBack(rows[1..]);
    }
  }

  lemma {:induction false} SerializedConcat(a: seq<Row>, b: seq<Row>)
    ensures Serialized(a + b) == Serialized(a) + Serialized(b)
  {
    if a == [] {
      assert a + b == b;
    } else {
      assert (a + b)[1..] == a[1..] + b;
      SerializedConcat(a[1..], b);
    }
  }

  lemma GoodPageIntro(p: Page, rows: seq<Row>)
    requires Holds(p, Serialized(rows)) && AllStorable(rows)
    ensures GoodPage(p) && RowsOf(p) == rows
  {
    HoldsReadsBack(p, Serialized(rows));
    RowsReadBack(rows);
  }

  lemma GoodRelink(p: Page, next: uint32)
    requires GoodPage(p)
    ensures GoodPage(p.(nextPageId := next)) && RowsOf(p.(nextPageId := next)) == RowsOf(p)
  {
    GoodPageIntro(p.(nextPageId := next), RowsOf(p));
  }

  lemma GoodAppend(p: Page, row: Row)
    requires GoodPage(p) && Storable(row) && p.usedBytes + 4 + |Serialize(row)| <= PAYLOAD_SIZE
    ensures GoodPage(AppendRecord(p, Serialize(row))) && RowsOf(AppendRecord(p, Serialize(row))) == RowsOf(p) + [row]
  {
    var rows := RowsOf(p);
    AppendHolds(p, Serialized(rows), Serialize(row));
    SerializedConcat(rows, [row]);
    assert Serialized([row]) == [Serialize(row)];
    GoodPageIntro(AppendRecord(p, Serialize(row)), rows + [row]);
  }

  // ---------- the rows of a table ----------

  function RowsUpTo(c: Cache, path: string, n: uint32): seq<Row> {
    if n == 0 then [] else RowsUpTo(c, path, n - 1) + RowsOf(View(c, path, n - 1))
  }

  /** What a full scan of the table's file visits. */
  function TableRows(c: Cache, path: string): seq<Row> {
    RowsUpTo(c, path, PageCount(c.disk, path))
  }

  ghost predicate SameRowsAt(c: Cache, d: Cache, path: string, pid: uint32) {
    RowsOf(View(d, path, pid)) == RowsOf(View(c, path, pid))
  }

  ghost predicate SameRows(c: Cache, d: Cache) {
    forall path, pid: uint32 :: SameRowsAt(c, d, path, pid)
  }

  /** Readers see good pages, the disk holds good pages, and both have the same rows. */
  ghost predicate DurableAt(c: Cache, path: string, pid: uint32) {
    && GoodPage(View(c, path, pid))
    && GoodPage(DiskPage(c.disk, path, pid))
    && RowsOf(View(c, path, pid)) == RowsOf(DiskPage(c.disk, path, pid))
  }

  /** Holds between statements: pages that are still dirty hide no rows. */
  ghost predicate StorageInv(c: Cache) {
    && Coherent(c)
    && FilesBounded(c.disk)
    && forall path, pid: uint32 :: DurableAt(c, path, pid)
  }

  lemma BeyondTheEndIsEmpty(c: Cache, path: string, pid: uint32)
    requires StorageInv(c) && pid >= PageCount(c.disk, path)
    ensures RowsOf(View(c, path, pid)) == []
  {
    hide View, Coherent, GoodPage, RecordsOf;
    assert DurableAt(c, path, pid);
    EmptyPagesHoldNothing(0);
  }

  lemma {:induction false} RowsUpToSame(c: Cache, d: Cache, path: string, n: uint32)
    requires forall pid: uint32 | pid < n :: SameRowsAt(c, d, path, pid)
    ensures RowsUpTo(d, path, n) == RowsUpTo(c, path, n)
  {
    hide View, RowsOf;
    if n > 0 {
      RowsUpToSame(c, d, path, n - 1);
      assert SameRowsAt(c, d, path, n - 1);
    }
  }

  lemma {:induction false} RowsUpToEmptyTail(c: Cache, path: string, n: uint32, m: uint32)
    requires n <= m && forall pid: uint32 | n <= pid < m :: RowsOf(View(c, path, pid)) == []
    ensures RowsUpTo(c, path, m) == RowsUpTo(c, path, n)
    decreases m
  {
    hide View, RowsOf;
    if n < m {
      RowsUpToEmptyTail(c, path, n, m - 1);
    }
  }

  /** A change that no page of rows notices leaves every table as it was, though its file may have grown. */
  lemma SameRowsSameTable(c: Cache, d: Cache, path: string)
    requires StorageInv(c) && StorageInv(d) && SameRows(c, d) && FilesGrow(c, d)
    ensures TableRows(d, path) == TableRows(c, path)
  {
    hide View, RowsOf, RowsUpTo, DurableAt;
    var n, m := PageCount(c.disk, path), PageCount(d.disk, path);
    RowsUpToSame(c, d, path, m);
    forall pid: uint32 | n <= pid < m ensures RowsOf(View(c, path, pid)) == [] {
      BeyondTheEndIsEmpty(c, path, pid);
    }
    RowsUpToEmptyTail(c, path, n, m);
  }

  // ---------- steps that rows do not notice ----------

  /** View changes at most at one key, to a good page with the same rows. */
  lemma QuietStep(c: Cache, d: Cache, path: string, pid: uint32)
    requires StorageInv(c) && Coherent(d) && DiskKept(c, d) && OnlyChanges(c, d, path, pid)
    requires GoodPage(View(d, path, pid)) && SameRowsAt(c, d, path, pid)
    ensures StorageInv(d) && SameRows(c, d)
  {
    forall p, id: uint32 ensures DurableAt(d, p, id) && SameRowsAt(c, d, p, id) {
      assert DurableAt(c, p, id);
    }
  }

  lemma InvisibleStep(c: Cache, d: Cache)
    requires StorageInv(c) && Coherent(d) && DiskKept(c, d) && SameView(c, d)
    ensures StorageInv(d) && SameRows(c, d)
  {
    assert DurableAt(c, "", 0);
    assert View(d, "", 0) == View(c, "", 0);
    QuietStep(c, d, "", 0);
  }

  lemma EnsureFileQuiet(c: Cache, path: string)
    requires StorageInv(c)
    ensures var d := EnsureFile(c, path);
            StorageInv(d) && SameRows(c, d) && FilesGrow(c, d) && PageCount(d.disk, path) == PageCount(c.disk, path)
  {
    var d := EnsureFile(c, path);
    forall p ensures FilePages(d.disk, p) == FilePages(c.disk, p) {
    }
    InvisibleStep(c, d);
  }

  lemma FlushAllQuiet(c: Cache)
    requires StorageInv(c)
    ensures StorageInv(FlushAll(c)) && SameRows(c, FlushAll(c)) && FilesGrow(c, FlushAll(c))
  {
    FlushAllFromCoherent(c, 0);
    FlushAllFromDisk(c, 0);
    InvisibleStep(c, FlushAll(c));
  }

  lemma LoadQuiet(c: Cache, path: string, pid: uint32)
    requires StorageInv(c) && pid < PageCount(c.disk, path)
    ensures var r := Load(c, path, pid);
            && r.status == OK && r.index == Find(r.cache, path, pid)
            && StorageInv(r.cache) && SameRows(c, r.cache) && FilesGrow(c, r.cache)
            && r.cache.frames[r.index].page == View(c, path, pid) == View(r.cache, path, pid)
            && GoodPage(View(c, path, pid))
  {
    hide Load, Find, RowsOf, UniqueKeys;
    var r := Load(c, path, pid);
    assert |FilePages(c.disk, path)| <= OFFSET_LIMIT;
    LoadCoherent(c, path, pid);
    LoadDisk(c, path, pid);
    InvisibleStep(c, r.cache);
    assert DurableAt(c, path, pid);
  }

  /** Creating a page where there are no rows. */
  lemma CreateQuiet(c: Cache, path: string, pid: uint32)
    requires StorageInv(c) && pid < OFFSET_LIMIT && RowsOf(View(c, path, pid)) == []
    ensures var r := Create(c, path, pid);
            && r.index == Find(r.cache, path, pid)
            && StorageInv(r.cache) && SameRows(c, r.cache) && FilesGrow(c, r.cache)
            && View(r.cache, path, pid) == PageInit(pid)
  {
    CreateCoherent(c, path, pid);
    CreateDisk(c, path, pid);
    QuietStep(c, Create(c, path, pid).cache, path, pid);
  }

  lemma RelinkQuiet(c: Cache, i: nat, path: string, pid: uint32, next: uint32)
    requires StorageInv(c) && i < CAPACITY && Find(c, path, pid) == i
    ensures var d := Write(c, i, c.frames[i].page.(nextPageId := next));
            StorageInv(d) && SameRows(c, d) && d.disk == c.disk
  {
    assert DurableAt(c, path, pid);
    GoodRelink(c.frames[i].page, next);
    var page := c.frames[i].page.(nextPageId := next);
    WriteCoherent(c, i, path, pid, page);
    QuietStep(c, Write(c, i, page), path, pid);
  }

  // ---------- one insert ----------

  /** A record length for which the wrapping room test cannot be fooled. */
  predicate Addressable(row: Row) {
    Storable(row) && RecordLength(row) + 4 + PAYLOAD_SIZE < TWO_32
  }

  lemma TryAppendExact(p: Page, rec: Record)
    requires p.usedBytes + 4 + |rec| < TWO_32
    ensures Cast32(|rec|) == |rec|
    ensures CanStore(p.usedBytes, |rec|) <==> p.usedBytes + 4 + |rec| <= PAYLOAD_SIZE
    ensures TryAppend(p, rec)
         == if p.usedBytes + 4 + |rec| <= PAYLOAD_SIZE then Some(AppendRecord(p, rec)) else None
  {
    hide AppendRecord;
    assert Add32(4, |rec|) == 4 + |rec|;
    assert Add32(p.usedBytes, 4 + |rec|) == p.usedBytes + 4 + |rec|;
  }

  lemma RoomTestMeaning(p: Page, row: Row)
    requires p.usedBytes <= PAYLOAD_SIZE && Addressable(row)
    ensures |Serialize(row)| == RecordLength(row)
    ensures CanStore(p.usedBytes, Cast32(|Serialize(row)|)) <==> p.usedBytes + 4 + RecordLength(row) <= PAYLOAD_SIZE
    ensures TryAppend(p, Serialize(row)) == if p.usedBytes + 4 + RecordLength(row) <= PAYLOAD_SIZE
                                            then Some(AppendRecord(p, Serialize(row))) else None
  {
    hide Serialize, RecordLength, AppendRecord, CanStore, Cast32, TryAppend;
    SerializedLength(row);
    TryAppendExact(p, Serialize(row));
  }

  lemma TryAppendMeaning(p: Page, row: Row)
    requires GoodPage(p) && Addressable(row)
    ensures CanStore(p.usedBytes, Cast32(|Serialize(row)|)) <==> p.usedBytes + 4 + RecordLength(row) <= PAYLOAD_SIZE
    ensures TryAppend(p, Serialize(row)).Some? <==> p.usedBytes + 4 + RecordLength(row) <= PAYLOAD_SIZE
    ensures TryAppend(p, Serialize(row)).Some? ==>
              var q := TryAppend(p, Serialize(row)).value; GoodPage(q) && RowsOf(q) == RowsOf(p) + [row]
  {
    hide RowsOf, CanStore, Serialize, RecordLength, AppendRecord, TryAppend, Cast32;
    RoomTestMeaning(p, row);
    if p.usedBytes + 4 + RecordLength(row) <= PAYLOAD_SIZE {
      GoodAppend(p, row);
    }
  }

  /** After the write through the pointer, only the target page has changed, and it is still resident. */
  ghost predicate Appended(c: Cache, d: Cache, path: string, pid: uint32, row: Row) {
    && (forall p, id: uint32 | p != path || id != pid :: SameRowsAt(c, d, p, id))
    && RowsOf(View(d, path, pid)) == RowsOf(View(c, path, pid)) + [row]
  }

  lemma FlushedIsDurable(c: Cache, w: Cache, path: string, p: string, id: uint32)
    requires Coherent(w) && GoodPage(View(w, p, id))
    requires p != path ==> DurableAt(c, p, id) && View(w, p, id) == View(c, p, id) && w.disk == c.disk
    ensures DurableAt(FlushFile(w, path), p, id)
  {
    var d := FlushFile(w, path);
    FlushFileCoherent(w, path);
    FlushFileFromDisk(w, path, 0);
    assert View(d, p, id) == View(w, p, id);
    var r := Find(d, p, id);
    assert r < CAPACITY ==> CleanAgrees(d.frames[r], d.disk);
  }

  lemma AppendRefines(c: Cache, i: nat, path: string, pid: uint32, row: Row)
    requires StorageInv(c) && Addressable(row) && i < CAPACITY && Find(c, path, pid) == i
    ensures var (st, d) := AppendAndFlush(c, i, path, Serialize(row));
            if c.frames[i].page.usedBytes + 4 + RecordLength(row) > PAYLOAD_SIZE then st == INTERNAL_ERROR && d == c
            else st == OK && StorageInv(d) && FilesGrow(c, d) && pid < PageCount(d.disk, path)
                 && Appended(c, d, path, pid, row)
  {
    assert DurableAt(c, path, pid);
    var p := c.frames[i].page;
    TryAppendMeaning(p, row);
    if TryAppend(p, Serialize(row)).Some? {
      WrittenAndFlushed(c, i, path, pid, TryAppend(p, Serialize(row)).value, row);
    }
  }

  lemma WrittenAndFlushed(c: Cache, i: nat, path: string, pid: uint32, page: Page, row: Row)
    requires StorageInv(c) && i < CAPACITY && Find(c, path, pid) == i
    requires GoodPage(page) && RowsOf(page) == RowsOf(View(c, path, pid)) + [row]
    ensures var d := FlushFile(Write(c, i, page), path);
            StorageInv(d) && FilesGrow(c, d) && pid < PageCount(d.disk, path) && Appended(c, d, path, pid, row)
  {
    WriteCoherent(c, i, path, pid, page);
    var w := Write(c, i, page);
    var d := FlushFile(w, path);
    FlushFileCoherent(w, path);
    FlushFileFromDisk(w, path, 0);
    forall p, id: uint32 ensures DurableAt(d, p, id) {
      assert DurableAt(c, p, id);
      FlushedIsDurable(c, w, path, p, id);
    }
    forall p, id: uint32 | p != path || id != pid ensures SameRowsAt(c, d, p, id) {
      assert View(d, p, id) == View(w, p, id) == View(c, p, id);
    }
    assert View(d, path, pid) == View(w, path, pid);
    FlushedTargetOnDisk(w, i, path, pid);
  }

  lemma FlushedTargetOnDisk(w: Cache, i: nat, path: string, pid: uint32)
    requires Coherent(w) && FilesBounded(w.disk) && i < CAPACITY && Find(w, path, pid) == i
    ensures pid < PageCount(FlushFile(w, path).disk, path)
  {
    var d := FlushFile(w, path);
    FlushFileCoherent(w, path);
    FlushFileFromDisk(w, path, 0);
    assert CleanAgrees(d.frames[i], d.disk);
    assert |FilePages(d.disk, path)| <= OFFSET_LIMIT;
  }

  lemma {:induction false} RowsUpToAppended(c: Cache, d: Cache, path: string, pid: uint32, row: Row, n: uint32)
    requires pid < n && Appended(c, d, path, pid, row)
    requires forall id: uint32 | pid < id < n :: RowsOf(View(c, path, id)) == []
    ensures RowsUpTo(d, path, n) == RowsUpTo(c, path, n) + [row]
    decreases n
  {
    hide View, RowsOf;
    if n == pid + 1 {
      forall id: uint32 | id < pid ensures SameRowsAt(c, d, path, id) {
      }
      RowsUpToSame(c, d, path, pid);
    } else {
      RowsUpToAppended(c, d, path, pid, row, n - 1);
      assert SameRowsAt(c, d, path, n - 1);
    }
  }

  /** The row was appended behind all rows of its table, and no other table noticed. */
  lemma AppendedTable(c: Cache, d: Cache, path: string, pid: uint32, row: Row)
    requires StorageInv(c) && StorageInv(d) && FilesGrow(c, d) && Appended(c, d, path, pid, row)
    requires pid < PageCount(d.disk, path)
    requires forall id: uint32 | pid < id :: RowsOf(View(c, path, id)) == []
    ensures TableRows(d, path) == TableRows(c, path) + [row]
    ensures forall p | p != path :: TableRows(d, p) == TableRows(c, p)
  {
    hide View, RowsOf, RowsUpTo, DurableAt;
    var n, m := PageCount(c.disk, path), PageCount(d.disk, path);
    RowsUpToAppended(c, d, path, pid, row, m);
    RowsUpToGrown(c, d, path);
    forall p | p != path ensures TableRows(d, p) == TableRows(c, p) {
      RowsUpToSame(c, d, p, PageCount(d.disk, p));
      RowsUpToGrown(c, d, p);
    }
  }

  lemma RowsUpToGrown(c: Cache, d: Cache, path: string)
    requires StorageInv(c) && StorageInv(d) && FilesGrow(c, d)
    ensures RowsUpTo(c, path, PageCount(d.disk, path)) == TableRows(c, path)
  {
    var n, m := PageCount(c.disk, path), PageCount(d.disk, path);
    forall pid: uint32 | n <= pid < m ensures RowsOf(View(c, path, pid)) == [] {
      BeyondTheEndIsEmpty(c, path, pid);
    }
    RowsUpToEmptyTail(c, path, n, m);
  }

  lemma SameRowsThen(c: Cache, d: Cache, e: Cache)
    requires SameRows(c, d) && SameRows(d, e)
    ensures SameRows(c, e)
  {
    hide View, RowsOf;
    forall path, pid: uint32 ensures SameRowsAt(c, e, path, pid) {
      assert SameRowsAt(c, d, path, pid) && SameRowsAt(d, e, path, pid);
    }
  }

  lemma AppendedAfterQuiet(c: Cache, d: Cache, e: Cache, path: string, pid: uint32, row: Row)
    requires SameRows(c, d) && Appended(d, e, path, pid, row)
    ensures Appended(c, e, path, pid, row)
  {
    hide View, RowsOf;
    forall p, id: uint32 | p != path || id != pid ensures SameRowsAt(c, e, p, id) {
      assert SameRowsAt(c, d, p, id) && SameRowsAt(d, e, p, id);
    }
    assert SameRowsAt(c, d, path, pid);
  }

  /** A table file with room for one more page below the 32-bit offset limit. */
  predicate HasRoom(c: Cache, path: string) {
    |FilePages(c.disk, path)| < OFFSET_LIMIT
  }

  lemma LastPageQuiet(c: Cache, path: string)
    requires StorageInv(c)
    ensures var r := LastPage(c, path);
            var n := PageCount(c.disk, path);
            var pid: uint32 := if n == 0 then 0 else n - 1;
            && r.status == OK && r.index < CAPACITY && r.index == Find(r.cache, path, pid)
            && StorageInv(r.cache) && SameRows(c, r.cache) && FilesGrow(c, r.cache)
  {
    var n := PageCount(c.disk, path);
    if n == 0 {
      BeyondTheEndIsEmpty(c, path, 0);
      CreateQuiet(c, path, 0);
    } else {
      LoadQuiet(c, path, n - 1);
    }
  }

  lemma PageForQuiet(c: Cache, i: nat, path: string, pid: uint32, count: uint32, row: Row)
    requires StorageInv(c) && i < CAPACITY && Find(c, path, pid) == i && Addressable(row)
    requires count < OFFSET_LIMIT && RowsOf(View(c, path, count)) == []
    ensures var r := PageFor(c, i, path, count, Serialize(row));
            var fits := c.frames[i].page.usedBytes + 4 + RecordLength(row) <= PAYLOAD_SIZE;
            && r.status == OK && r.index < CAPACITY
            && r.index == Find(r.cache, path, if fits then pid else count)
            && StorageInv(r.cache) && SameRows(c, r.cache) && FilesGrow(c, r.cache)
            && (if fits then r == Lookup(OK, i, c) else r.cache.frames[r.index].page == PageInit(count))
  {
    assert DurableAt(c, path, pid);
    TryAppendMeaning(c.frames[i].page, row);
    if c.frames[i].page.usedBytes + 4 + RecordLength(row) > PAYLOAD_SIZE {
      var w := Write(c, i, c.frames[i].page.(nextPageId := count));
      RelinkQuiet(c, i, path, pid, count);
      assert SameRowsAt(c, w, path, count);
      CreateQuiet(w, path, count);
      SameRowsThen(c, w, Create(w, path, count).cache);
    }
  }

  /** The last page of the file, or page 0 of an empty one, holds the last rows. */
  lemma BehindTarget(c: Cache, path: string, pid: uint32)
    requires StorageInv(c) && pid + 1 >= PageCount(c.disk, path)
    ensures forall id: uint32 | pid < id :: RowsOf(View(c, path, id)) == []
  {
    forall id: uint32 | pid < id ensures RowsOf(View(c, path, id)) == [] {
      BeyondTheEndIsEmpty(c, path, id);
    }
  }

  lemma FilesGrowThen(c: Cache, d: Cache, e: Cache)
    requires FilesGrow(c, d) && FilesGrow(d, e)
    ensures FilesGrow(c, e)
  {
    forall path ensures |FilePages(c.disk, path)| <= |FilePages(e.disk, path)| {
      assert |FilePages(c.disk, path)| <= |FilePages(d.disk, path)|;
    }
  }

  /** The page found or created for the record holds the last rows of its table. */
  ghost predicate IsTarget(c: Cache, d: Cache, path: string, i: nat, pid: uint32) {
    && StorageInv(d) && SameRows(c, d) && FilesGrow(c, d)
    && i < CAPACITY && i == Find(d, path, pid) && pid + 1 >= PageCount(c.disk, path)
  }

  /** The two look-ups before the append: which page is the target, and that rows did not notice. */
  lemma TargetQuiet(c: Cache, path: string, row: Row) returns (pid: uint32)
    requires StorageInv(c) && HasRoom(c, path) && Addressable(row)
    ensures var n := PageCount(c.disk, path);
            var last := LastPage(c, path);
            && last.status == OK && last.index < CAPACITY
            && var r := PageFor(last.cache, last.index, path, if n == 0 then 1 else n, Serialize(row));
               && r.status == OK && IsTarget(c, r.cache, path, r.index, pid)
               && (r.cache.frames[r.index].page.usedBytes + 4 + RecordLength(row) <= PAYLOAD_SIZE
                   <==> RecordLength(row) <= 4076)
  {
    hide DurableAt, Find, RowsOf, View, Addressable, Serialize, Create, Load, Write, PageFor, LastPage, FilesGrow,
         Coherent, FilesBounded;
    var n := PageCount(c.disk, path);
    var count: uint32 := if n == 0 then 1 else n;
    var lastPid: uint32 := if n == 0 then 0 else n - 1;
    var last := LastPage(c, path);
    LastPageQuiet(c, path);
    BehindTarget(c, path, lastPid);
    assert SameRowsAt(c, last.cache, path, count);
    assert RowsOf(View(last.cache, path, count)) == [];
    PageForQuiet(last.cache, last.index, path, lastPid, count, row);
    var r := PageFor(last.cache, last.index, path, count, Serialize(row));
    SameRowsThen(c, last.cache, r.cache);
    FilesGrowThen(c, last.cache, r.cache);
    if last.cache.frames[last.index].page.usedBytes + 4 + RecordLength(row) <= PAYLOAD_SIZE {
      pid := lastPid;
    } else {
      pid := count;
      assert r.cache.frames[r.index].page.usedBytes == 0;
    }
  }

  lemma TargetAppended(c: Cache, d: Cache, i: nat, path: string, pid: uint32, row: Row)
    requires StorageInv(c) && Addressable(row) && IsTarget(c, d, path, i, pid)
    ensures var (st, e) := AppendAndFlush(d, i, path, Serialize(row));
            && StorageInv(e)
            && (st == OK <==> d.frames[i].page.usedBytes + 4 + RecordLength(row) <= PAYLOAD_SIZE)
            && (st == OK || st == INTERNAL_ERROR)
            && TableRows(e, path) == TableRows(c, path) + (if st == OK then [row] else [])
            && (forall p | p != path :: TableRows(e, p) == TableRows(c, p))
  {
    hide DurableAt, Find, RowsOf, View, Addressable, Serialize, AppendAndFlush, TableRows, FilesGrow, SameRows,
         Appended, RecordLength, Coherent, FilesBounded;
    AppendRefines(d, i, path, pid, row);
    var (st, e) := AppendAndFlush(d, i, path, Serialize(row));
    if st == OK {
      AppendedAfterQuiet(c, d, e, path, pid, row);
      FilesGrowThen(c, d, e);
      BehindTarget(c, path, pid);
      AppendedTable(c, e, path, pid, row);
    } else {
      forall p ensures TableRows(d, p) == TableRows(c, p) {
        SameRowsSameTable(c, d, p);
      }
      assert TableRows(c, path) + [] == TableRows(c, path);
    }
  }

  lemma QuietTables(c: Cache, d: Cache)
    requires StorageInv(c) && StorageInv(d) && SameRows(c, d) && FilesGrow(c, d)
    ensures forall p :: TableRows(d, p) == TableRows(c, p)
  {
    forall p ensures TableRows(d, p) == TableRows(c, p) {
      SameRowsSameTable(c, d, p);
    }
  }

  /**
   One insert: it succeeds exactly when the record fits an empty page.  Then the row is
   appended to its table; otherwise no table changes.  Other tables never change.
   */
  lemma InsertRefines(c: Cache, path: string, row: Row)
    requires StorageInv(c) && HasRoom(c, path) && Addressable(row)
    ensures var (st, d) := InsertRow(c, path, row);
            && StorageInv(d)
            && st == (if RecordLength(row) <= 4076 then OK else INTERNAL_ERROR)
            && TableRows(d, path) == TableRows(c, path) + (if RecordLength(row) <= 4076 then [row] else [])
            && (forall p | p != path :: TableRows(d, p) == TableRows(c, p))
  {
    hide StorageInv, TableRows, SameRows, FilesGrow, Addressable, IsTarget, LastPage, PageFor, AppendAndFlush,
         Serialize, RecordLength, PageCount;
    var e := EnsureFile(c, path);
    EnsureFileQuiet(c, path);
    QuietTables(c, e);
    var pid := TargetQuiet(e, path, row);
    var n := PageCount(e.disk, path);
    var last := LastPage(e, path);
    var r := PageFor(last.cache, last.index, path, if n == 0 then 1 else n, Serialize(row));
    TargetAppended(e, r.cache, r.index, path, pid, row);
  }
}
