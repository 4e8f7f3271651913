/**
 The heap file of member-jihyun on top of the buffer cache: insertion into the last
 page, and the scan that visits every record.
 */
module StorageModel {
  import opened Options
  import opened Machine
  import opened Pages
  import opened Records
  import opened CacheModel
  import opened CacheCoherence

  /** The data file of a table; the path buffer truncates at 511 characters. */
  function TablePath(dataDir: string, table: string): string {
    var full := dataDir + "/" + table + ".data";
    if |full| <= 511 then full else full[..511]
  }

  /** Opening for append creates a missing file. */
  function EnsureFile(c: Cache, path: string): Cache {
    if path in c.disk then c else c.(disk := c.disk[path := []])
  }

  function PageCount(disk: Disk, path: string): uint32 {
    Cast32(|FilePages(disk, path)|)
  }

  /**
   Appending to a page that passes the room test.  When the test passed only because its
   sum wrapped, the code would write outside the page; the model reports an error.
   */
  function TryAppend(p: Page, rec: Record): Option<Page> {
    if CanStore(p.usedBytes, Cast32(|rec|)) && p.usedBytes + 4 + |rec| <= PAYLOAD_SIZE
    then Some(AppendRecord(p, rec))
    else None
  }

  /** Append through the page pointer, mark dirty, flush the file. */
  function AppendAndFlush(c: Cache, i: nat, path: string, rec: Record): (Status, Cache)
    requires i < CAPACITY
  {
    match TryAppend(c.frames[i].page, rec)
    case None => (INTERNAL_ERROR, c)
    case Some(page) => (OK, FlushFile(Write(c, i, page), path))
  }

  /** The last page of the file, created if the file is empty. */
  function LastPage(c: Cache, path: string): Lookup {
    var n := PageCount(c.disk, path);
    if n == 0 then Create(c, path, 0) else Load(c, path, n - 1)
  }

  /** When the record does not fit, the page is linked to a new one, which takes its place. */
  function PageFor(c: Cache, i: nat, path: string, count: uint32, rec: Record): Lookup
    requires i < CAPACITY
  {
    var page := c.frames[i].page;
    if CanStore(page.usedBytes, Cast32(|rec|)) then Lookup(OK, i, c)
    else Create(Write(c, i, page.(nextPageId := count)), path, count)
  }

  function InsertRow(c: Cache, path: string, row: Row): (Status, Cache) {
    var rec := Serialize(row);
    var e := EnsureFile(c, path);
    var n := PageCount(e.disk, path);
    var last := LastPage(e, path);
    if last.status != OK then (last.status, last.cache)
    else
      var target := PageFor(last.cache, last.index, path, if n == 0 then 1 else n, rec);
      if target.status != OK then (target.status, target.cache)
      else AppendAndFlush(target.cache, target.index, path, rec)
  }

  // ---------- the scan ----------

  /** What a visitor has seen, and whether it asked to stop or a record was malformed. */
  datatype Visit = Visit(rows: seq<Row>, stopped: bool, status: Status)

  /** `more` says, from everything visited so far, whether the visitor wants to go on. */
  function VisitRecords(recs: seq<Record>, seen: seq<Row>, more: seq<Row> -> bool): Visit {
    if recs == [] then Visit(seen, false, OK)
    else
      match Deserialize(recs[0])
      case None => Visit(seen, true, INVALID_QUERY)
      case Some(row) =>
        if more(seen + [row]) then VisitRecords(recs[1..], seen + [row], more)
        else Visit(seen + [row], true, OK)
  }

  datatype Scan = Scan(status: Status, rows: seq<Row>, cache: Cache)

  function ScanPages(c: Cache, path: string, pid: uint32, count: uint32, seen: seq<Row>, more: seq<Row> -> bool): Scan
    decreases count - pid
  {
    if pid >= count then Scan(OK, seen, c)
    else
      var r := Load(c, path, pid);
      if r.status != OK then Scan(r.status, seen, r.cache)
      else
        var v := VisitRecords(RecordsOf(r.cache.frames[r.index].page), seen, more);
        if v.stopped then Scan(v.status, v.rows, r.cache)
        else ScanPages(r.cache, path, pid + 1, count, v.rows, more)
  }

  function ScanRows(c: Cache, path: string, more: seq<Row> -> bool): Scan {
    ScanPages(c, path, 0, PageCount(c.disk, path), [], more)
  }
}
