/**
 The storage engine as the object it is: inserts and scans that go through page pointers
 of the buffer cache.  The methods are proved to compute the functions of StorageModel,
 and through them to append to and enumerate one list of rows per table.
 */
module StorageEngines {
  import opened Machine
  import opened Pages
  import opened PageObjects
  import opened Records
  import opened BufferCaches
  import opened CacheCoherence
  import opened StorageRefinement
  import opened StorageRuns
  import Model = CacheModel
  import Storage = StorageModel

  class StorageEngine {
    const dataDir: string
    const cache: BufferCache

    constructor (dataDir: string, disk: FileSystem)
      ensures Valid() && this.dataDir == dataDir && cache.disk == disk
      ensures cache.V() == Model.Init(disk.files) && fresh(cache.Repr() - {disk})
    {
      this.dataDir := dataDir;
      cache := new BufferCache(disk);
    }

    ghost predicate Valid() {
      cache.Valid()
    }

    method EnsureTableFile(path: string)
      requires Valid()
      modifies cache.Repr()
      ensures cache.V() == Storage.EnsureFile(old(cache.V()), path)
    {
      hide BufferFrame.V;
      if path !in cache.disk.files {
        cache.disk.files := cache.disk.files[path := []];
      }
    }

    method GetPageCount(path: string) returns (count: uint32)
      requires Valid()
      ensures count == Storage.PageCount(cache.V().disk, path) && cache.V() == old(cache.V())
    {
      count := Cast32(|Model.FilePages(cache.disk.files, path)|);
    }

    /** Link a full page to its successor, through the page pointer. */
    method Relink(index: nat, page: DataPage, path: string, pid: uint32, next: uint32)
      requires Valid() && index < Model.CAPACITY && page == cache.frames[index].page
      requires Model.Find(cache.V(), path, pid) == index
      modifies cache.Repr()
      ensures cache.V() == Write(old(cache.V()), index, old(cache.V()).frames[index].page.(nextPageId := next))
    {
      hide Model.Find, Model.MarkDirty;
      ghost var before := cache.V();
      FoundKey(before, path, pid);
      cache.PageOfFrame(index);
      page.nextPageId := next;
      cache.PageOfFrame(index);
      assert cache.V().frames == Model.Poke(before, index, before.frames[index].page.(nextPageId := next)).frames;
      cache.MarkDirty(path, pid);
    }

    /** Append through the page pointer. */
    method AppendThrough(index: nat, page: DataPage, data: array<byte>, len: uint32) returns (ok: bool)
      requires Valid() && index < Model.CAPACITY && page == cache.frames[index].page
      requires len == data.Length && data !in cache.Repr()
      requires page.usedBytes as int + 4 + len < TWO_32
      modifies cache.Repr()
      ensures data[..] == old(data[..])
      ensures var before := old(cache.V());
              var p := before.frames[index].page;
              && ok == (p.usedBytes as int + 4 + len <= PAYLOAD_SIZE)
              && cache.V() == if ok then Model.Poke(before, index, AppendRecord(p, data[..])) else before
    {
      hide AppendRecord, DataPage.V;
      ghost var before := cache.V();
      cache.PageOfFrame(index);
      UsedOf(page);
      ok := page.AppendRecord(data, len);
      cache.PageOfFrame(index);
      assert cache.V().frames
          == if ok then before.frames[index := before.frames[index].(page := page.V())] else before.frames;
    }

    /** Append through the page pointer, mark dirty, flush the file. */
    method AppendAndFlush(index: nat, page: DataPage, path: string, pid: uint32, data: array<byte>, len: uint32)
      returns (status: Model.Status)
      requires Valid() && index < Model.CAPACITY && page == cache.frames[index].page
      requires Model.Find(cache.V(), path, pid) == index
      requires len == data.Length && data !in cache.Repr()
      requires cache.V().frames[index].page.usedBytes as int + 4 + len < TWO_32
      modifies cache.Repr()
      ensures (status, cache.V()) == Storage.AppendAndFlush(old(cache.V()), index, path, data[..])
    {
      hide Model.Find, Model.MarkDirty, Model.FlushFile, AppendRecord, Storage.TryAppend, BufferCache.Repr,
           DataPage.V, BufferFrame.V;
      ghost var before := cache.V();
      FoundKey(before, path, pid);
      cache.PageOfFrame(index);
      UsedOf(page);
      TryAppendExact(before.frames[index].page, data[..]);
      hide BufferCache.V;
      var ok := AppendThrough(index, page, data, len);
      if !ok {
        return Model.INTERNAL_ERROR;
      }
      cache.MarkDirty(path, pid);
      cache.FlushFile(path);
      return Model.OK;
    }

    /** The record of a row, in memory of its own. */
    method SerializeValues(values: Row) returns (data: array<byte>, len: uint32)
      requires Valid() && RecordLength(values) < TWO_32
      ensures fresh(data) && data !in cache.Repr() && cache.V() == old(cache.V())
      ensures data[..] == Serialize(values) && len == data.Length
    {
      hide Serialize, RecordLength, BufferFrame.V;
      data, len := SerializeRow(values);
    }

    /** The last page of a table file, or the first of an empty one. */
    method LastPage(path: string, pageCount: uint32) returns (status: Model.Status, index: nat, page: DataPage?)
      requires Valid() && pageCount == Storage.PageCount(cache.V().disk, path)
      modifies cache.Repr()
      ensures Model.Lookup(status, index, cache.V()) == Storage.LastPage(old(cache.V()), path)
      ensures status == Model.OK ==> index < Model.CAPACITY && page == cache.frames[index].page
    {
      hide BufferCache.V, BufferCache.Repr, Model.Create, Model.Load;
      if pageCount == 0 {
        status, index, page := cache.CreatePage(path, 0);
      } else {
        status, index, page := cache.LoadPage(path, pageCount - 1);
      }
    }

    /** The page the record goes to: the last one, or a new one linked behind it. */
    method PageFor(index: nat, page: DataPage, path: string, pid: uint32, count: uint32, data: array<byte>, len: uint32)
      returns (status: Model.Status, newIndex: nat, newPage: DataPage?, newPid: uint32)
      requires Valid() && index < Model.CAPACITY && page == cache.frames[index].page
      requires Model.Find(cache.V(), path, pid) == index
      requires len == data.Length && data !in cache.Repr()
      modifies cache.Repr()
      ensures data[..] == old(data[..])
      ensures Model.Lookup(status, newIndex, cache.V()) == Storage.PageFor(old(cache.V()), index, path, count, data[..])
      ensures status == Model.OK ==> newIndex < Model.CAPACITY && newPage == cache.frames[newIndex].page
      ensures newPid == if CanStore(old(cache.V()).frames[index].page.usedBytes, len) then pid else count
    {
      hide BufferFrame.V, DataPage.V, Model.Find, Model.Create, Write;
      cache.PageOfFrame(index);
      UsedOf(page);
      hide BufferCache.V;
      if CanStore(page.usedBytes, len) {
        return Model.OK, index, page, pid;
      }
      Relink(index, page, path, pid, count);
      status, newIndex, newPage := cache.CreatePage(path, count);
      newPid := count;
    }

    /**
     Insert a row into a table.  It is appended to the rows of the table if its record fits
     a page; otherwise no table changes.  Other tables never change.
     */
    method InsertRow(table: string, values: Row) returns (status: Model.Status)
      requires Valid() && Addressable(values)
      requires StorageInv(cache.V()) && HasRoom(cache.V(), Storage.TablePath(dataDir, table))
      modifies cache.Repr()
      ensures (status, cache.V()) == Storage.InsertRow(old(cache.V()), Storage.TablePath(dataDir, table), values)
      ensures StorageInv(cache.V())
      ensures status == if Fits(values) then Model.OK else Model.INTERNAL_ERROR
      ensures var path := Storage.TablePath(dataDir, table);
              && TableRows(cache.V(), path) == TableRows(old(cache.V()), path) + (if Fits(values) then [values] else [])
              && (forall p | p != path :: TableRows(cache.V(), p) == TableRows(old(cache.V()), p))
    {
      hide BufferCache.V, BufferCache.Repr, StorageInv, HasRoom, TableRows, Addressable, Serialize, RecordLength,
           Storage.EnsureFile, Storage.LastPage, Storage.PageFor, Storage.AppendAndFlush, Storage.TablePath,
           Model.Find, Storage.PageCount, SameRows, FilesGrow, CanStore;
      var path := Storage.TablePath(dataDir, table);
      InsertRefines(cache.V(), path, values);
      EnsureFileQuiet(cache.V(), path);
      HasRoomCount(cache.V(), path);
      SerializedFits(values);
      EnsureTableFile(path);
      ghost var ensured := cache.V();
      var pageCount := GetPageCount(path);
      var recordData, recordLength := SerializeValues(values);
      var index, page;
      status, index, page := LastPage(path, pageCount);
      LastPageQuiet(ensured, path);
      var target: uint32 := if pageCount == 0 then 0 else pageCount - 1;
      if pageCount == 0 {
        pageCount := 1;
      }
      if status != Model.OK {
        return;
      }
      ghost var found := cache.V();
      PageForReady(ensured, found, index, path, target, pageCount, values);
      status, index, page, target := PageFor(index, page, path, target, pageCount, recordData, recordLength);
      if status != Model.OK {
        return;
      }
      status := AppendAndFlush(index, page, path, target, recordData, recordLength);
    }

    /** Show the visitor the records of one page, decoded. */
    method VisitPage(page: DataPage, ghost recs: seq<Record>, seen: seq<Row>, more: seq<Row> -> bool)
      returns (visited: seq<Row>, stopped: bool, status: Model.Status)
      requires Valid() && page.Valid() && Holds(page.V(), recs)
      ensures cache.V() == old(cache.V())
      ensures Storage.Visit(visited, stopped, status) == Storage.VisitRecords(recs, seen, more)
    {
      hide BufferFrame.V, Holds, Deserialize, DataPage.V;
      visited := seen;
      var cursor := new PageCursor(page, recs);
      assert recs[0..] == recs;
      while true
        invariant cursor.Valid() && cursor.page == page && cursor.recs == recs && fresh(cursor)
        invariant Storage.VisitRecords(recs[cursor.yielded..], visited, more) == Storage.VisitRecords(recs, seen, more)
        invariant unchanged(page) && unchanged(page.payload) && cache.V() == old(cache.V())
        decreases |recs| - cursor.yielded
      {
        ghost var k := cursor.yielded;
        var found, start, len := cursor.Next();
        if !found {
          assert recs[cursor.yielded..] == [];
          return visited, false, Model.OK;
        }
        assert recs[k..][0] == recs[k] && recs[k..][1..] == recs[k + 1..];
        var row := DeserializeRow(page.payload, start, len);
        if row.None? {
          return visited, true, Model.INVALID_QUERY;
        }
        visited := visited + [row.value];
        if !more(visited) {
          return visited, true, Model.OK;
        }
      }
    }

    /**
     Show the visitor the rows of a table, oldest first, until it asks to stop.  No table
     changes, whatever the scan evicts from the cache.
     */
    method ScanRows(table: string, more: seq<Row> -> bool) returns (status: Model.Status, visited: seq<Row>)
      requires Valid() && StorageInv(cache.V())
      modifies cache.Repr()
      ensures Storage.Scan(status, visited, cache.V())
           == Storage.ScanRows(old(cache.V()), Storage.TablePath(dataDir, table), more)
      ensures StorageInv(cache.V()) && status == Model.OK
      ensures visited == VisitRows(TableRows(old(cache.V()), Storage.TablePath(dataDir, table)), [], more).0
      ensures forall p :: TableRows(cache.V(), p) == TableRows(old(cache.V()), p)
    {
      hide BufferCache.V, BufferCache.Repr, StorageInv, TableRows, Storage.TablePath, Model.Load, SameRows,
           FilesGrow, Storage.PageCount, RowsOf, Model.View, RecordsOf, Storage.VisitRecords, Holds;
      var path := Storage.TablePath(dataDir, table);
      ScanMeaning(cache.V(), path, more);
      ghost var before := cache.V();
      var pageCount := GetPageCount(path);
      visited := [];
      var pid: uint32 := 0;
      while pid < pageCount
        invariant pid <= pageCount <= Storage.PageCount(cache.V().disk, path)
        invariant StorageInv(cache.V())
        invariant Storage.ScanPages(cache.V(), path, pid, pageCount, visited, more)
                  == Storage.ScanRows(before, path, more)
      {
        LoadForScan(cache.V(), path, pid, pageCount);
        LoadedHolds(cache.V(), path, pid);
        var index, page;
        status, index, page := cache.LoadPage(path, pid);
        if status != Model.OK {
          return;
        }
        cache.PageOfFrame(index);
        var stopped;
        visited, stopped, status := VisitPage(page, RecordsOf(page.V()), visited, more);
        if stopped {
          return;
        }
        pid := pid + 1;
      }
      status := Model.OK;
    }

    /** Write back everything; no table changes and nothing stays dirty. */
    method Flush()
      requires Valid() && StorageInv(cache.V())
      modifies cache.Repr()
      ensures cache.V() == Model.FlushAll(old(cache.V()))
      ensures StorageInv(cache.V()) && Model.DirtyCount(cache.V()) == 0
      ensures forall p :: TableRows(cache.V(), p) == TableRows(old(cache.V()), p)
    {
      hide BufferCache.V, BufferCache.Repr, TableRows, Model.FlushAll, SameRows, FilesGrow, Model.DirtyCount, RowsOf;
      FlushAllCoherent(cache.V());
      FlushAllQuiet(cache.V());
      QuietTables(cache.V(), Model.FlushAll(cache.V()));
      cache.FlushAll();
    }
  }

  lemma LoadedHolds(c: Model.Cache, path: string, pid: uint32)
    requires StorageInv(c) && pid < Storage.PageCount(c.disk, path)
    ensures var r := Model.Load(c, path, pid);
            r.status == Model.OK && var p := r.cache.frames[r.index].page; Holds(p, RecordsOf(p))
  {
    hide Model.Load, Model.View, Coherent, RowsOf, FilesBounded, Holds;
    LoadQuiet(c, path, pid);
    var p := Model.View(c, path, pid);
    HoldsReadsBack(p, Serialized(RowsOf(p)));
  }

  lemma SerializedFits(row: Row)
    requires Addressable(row)
    ensures RecordLength(row) < TWO_32 && |Serialize(row)| == RecordLength(row)
  {
    SerializedLength(row);
  }

  /** The page chosen for a record is resident, and its room test does not wrap. */
  lemma PageForReady(e: Model.Cache, c: Model.Cache, i: nat, path: string, pid: uint32, count: uint32, row: Row)
    requires StorageInv(e) && StorageInv(c) && SameRows(e, c) && Addressable(row)
    requires i < Model.CAPACITY && Model.Find(c, path, pid) == i
    requires count < Model.OFFSET_LIMIT && count >= Storage.PageCount(e.disk, path)
    ensures |Serialize(row)| == RecordLength(row)
    ensures var r := Storage.PageFor(c, i, path, count, Serialize(row));
            && r.status == Model.OK && r.index < Model.CAPACITY
            && Model.Find(r.cache, path,
                          if CanStore(c.frames[i].page.usedBytes, Cast32(|Serialize(row)|)) then pid else count)
               == r.index
            && r.cache.frames[r.index].page.usedBytes as int + 4 + RecordLength(row) < TWO_32
  {
    hide Model.Find, Serialize, RecordLength, RowsOf, CanStore, Holds, Write, Model.Create, Coherent, FilesBounded;
    BeyondTheEndIsEmpty(e, path, count);
    assert SameRowsAt(e, c, path, count);
    assert DurableAt(c, path, pid);
    PageForQuiet(c, i, path, pid, count, row);
    TryAppendMeaning(c.frames[i].page, row);
    SerializedFits(row);
    GoodUsed(c.frames[i].page);
  }

  lemma HasRoomCount(c: Model.Cache, path: string)
    requires HasRoom(c, path)
    ensures Storage.PageCount(c.disk, path) < Model.OFFSET_LIMIT
  {
  }

  lemma GoodUsed(p: Page)
    requires GoodPage(p)
    ensures p.usedBytes <= PAYLOAD_SIZE
  {
  }

  lemma UsedOf(page: DataPage)
    requires page.Valid()
    ensures page.usedBytes == page.V().usedBytes
  {
  }

  lemma FoundKey(c: Model.Cache, path: string, pid: uint32)
    requires Model.Find(c, path, pid) < Model.CAPACITY
    ensures var f := c.frames[Model.Find(c, path, pid)]; f.path == path && f.pageId == pid
  {
  }
}
