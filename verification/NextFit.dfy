/**
 The layout of a table file in runs where every record fits a page: the file itself is,
 page for page, what next-fit packing of the inserted records produces.
 */
module NextFit {
  import opened Machine
  import opened Pages
  import opened Records
  import opened CacheModel
  import opened CacheCoherence
  import opened StorageModel
  import opened StorageRefinement
  import opened FileGrowth
  import opened StorageRuns

  // ---------- next-fit packing, without a cache ----------

  /** Append to the last page if the record fits there, else link a new page behind it. */
  function Pack(file: seq<Page>, rec: Record): seq<Page>
    requires 4 + |rec| <= PAYLOAD_SIZE && |file| < TWO_32
  {
    if file == [] then [AppendRecord(PageInit(0), rec)]
    else
      var n := |file|;
      var last := file[n - 1];
      if last.usedBytes + 4 + |rec| <= PAYLOAD_SIZE then file[n - 1 := AppendRecord(last, rec)]
      else file[n - 1 := last.(nextPageId := n)] + [AppendRecord(PageInit(n), rec)]
  }

  /** Pages are numbered and linked in order, and two neighbours could not share a page. */
  ghost predicate Packed(file: seq<Page>) {
    && (forall i | 0 <= i < |file| ::
          && file[i].pageId == i
          && file[i].nextPageId == (if i + 1 < |file| then i + 1 else NO_PAGE)
          && 0 < file[i].usedBytes <= PAYLOAD_SIZE)
    && Pairs(file)
  }

  ghost predicate Pairs(file: seq<Page>) {
    forall i | 0 <= i < |file| - 1 :: file[i].usedBytes + file[i + 1].usedBytes > PAYLOAD_SIZE
  }

  function UsedBytes(file: seq<Page>): nat {
    if file == [] then 0 else UsedBytes(file[..|file| - 1]) + file[|file| - 1].usedBytes
  }

  lemma PackKeepsPacked(file: seq<Page>, rec: Record)
    requires Packed(file) && 4 + |rec| <= PAYLOAD_SIZE && |file| < TWO_32 - 1
    ensures Packed(Pack(file, rec))
  {
    AppendUsed(PageInit(|file|), rec);
    if file != [] && file[|file| - 1].usedBytes + 4 + |rec| <= PAYLOAD_SIZE {
      AppendUsed(file[|file| - 1], rec);
    }
  }

  lemma AppendUsed(p: Page, rec: Record)
    requires p.usedBytes + 4 + |rec| <= PAYLOAD_SIZE
    ensures var q := AppendRecord(p, rec);
            q.usedBytes == p.usedBytes + 4 + |rec| && q.pageId == p.pageId && q.nextPageId == p.nextPageId
  {
  }

  lemma UsedOfPair(file: seq<Page>)
    requires 2 <= |file|
    ensures UsedBytes(file)
         == UsedBytes(file[..|file| - 2]) + file[|file| - 2].usedBytes + file[|file| - 1].usedBytes
  {
    var init := file[..|file| - 1];
    assert init[..|init| - 1] == file[..|file| - 2];
  }

  /** Every two neighbouring pages hold more than one page of records: more than half the space is used. */
  lemma {:induction false} PairsHalfFull(file: seq<Page>)
    requires Pairs(file)
    ensures PAYLOAD_SIZE * (|file| / 2) <= UsedBytes(file)
    ensures 2 <= |file| ==> PAYLOAD_SIZE * (|file| / 2) < UsedBytes(file)
    decreases |file|
  {
    if 2 <= |file| {
      var n := |file|;
      UsedOfPair(file);
      PairsHalfFull(file[..n - 2]);
      assert n / 2 == (n - 2) / 2 + 1;
    }
  }

  // ---------- the file sizes an insert can reach ----------

  ghost predicate NoDirty(c: Cache) {
    forall i | 0 <= i < CAPACITY :: !IsDirty(c.frames[i])
  }

  /** Whatever is dirty is a page of this file with an id below the bound. */
  ghost predicate DirtyWithin(c: Cache, path: string, bound: nat) {
    forall i | 0 <= i < CAPACITY && IsDirty(c.frames[i]) :: c.frames[i].path == path && c.frames[i].pageId < bound
  }

  /** Only this file may have grown, and not beyond the bound. */
  ghost predicate GrownWithin(c: Cache, d: Cache, path: string, bound: nat) {
    && (forall p | p != path :: |FilePages(d.disk, p)| == |FilePages(c.disk, p)|)
    && |FilePages(d.disk, path)| <= if |FilePages(c.disk, path)| <= bound then bound else |FilePages(c.disk, path)|
  }

  ghost predicate Bounded(c: Cache, d: Cache, path: string, bound: nat) {
    DirtyWithin(d, path, bound) && GrownWithin(c, d, path, bound)
  }

  lemma GrownThen(c: Cache, d: Cache, e: Cache, path: string, bound: nat)
    requires GrownWithin(c, d, path, bound) && GrownWithin(d, e, path, bound)
    ensures GrownWithin(c, e, path, bound)
  {
    forall p | p != path ensures |FilePages(e.disk, p)| == |FilePages(c.disk, p)| {
      assert |FilePages(d.disk, p)| == |FilePages(c.disk, p)|;
    }
  }

  lemma FlushFrameBounded(c: Cache, i: nat, path: string, bound: nat)
    requires DirtyWithin(c, path, bound) && i < CAPACITY
    ensures Bounded(c, FlushFrame(c, i), path, bound)
  {
  }

  lemma VictimBounded(c: Cache, path: string, bound: nat)
    requires DirtyWithin(c, path, bound)
    ensures Bounded(c, ChooseVictim(c.(misses := c.misses + 1)).1, path, bound)
  {
    hide Slot, WritePage;
    var m := c.(misses := c.misses + 1);
    FlushFrameBounded(m, ChooseVictim(m).0, path, bound);
  }

  lemma LoadBounded(c: Cache, path: string, pid: uint32, bound: nat)
    requires DirtyWithin(c, path, bound)
    ensures Bounded(c, Load(c, path, pid).cache, path, bound)
  {
    hide Slot, WritePage, ChooseVictim, Find;
    VictimBounded(c, path, bound);
  }

  lemma CreateBounded(c: Cache, path: string, pid: uint32, bound: nat)
    requires DirtyWithin(c, path, bound) && pid < bound
    ensures Bounded(c, Create(c, path, pid).cache, path, bound)
  {
    hide Slot, WritePage, ChooseVictim, PageInit;
    VictimBounded(c, path, bound);
  }

  lemma WriteBounded(c: Cache, i: nat, path: string, pid: uint32, page: Page, bound: nat)
    requires DirtyWithin(c, path, bound) && i < CAPACITY && Find(c, path, pid) == i && pid < bound
    ensures Bounded(c, Write(c, i, page), path, bound)
  {
  }

  lemma {:induction false} FlushFileBounded(c: Cache, path: string, i: nat, bound: nat)
    requires DirtyWithin(c, path, bound) && i <= CAPACITY
    ensures Bounded(c, FlushFileFrom(c, path, i), path, bound)
    decreases CAPACITY - i
  {
    if i < CAPACITY {
      FlushFrameBounded(c, i, path, bound);
      var e := if c.frames[i].inUse && c.frames[i].path == path then FlushFrame(c, i) else c;
      FlushFileBounded(e, path, i + 1, bound);
      GrownThen(c, e, FlushFileFrom(e, path, i + 1), path, bound);
    }
  }

  // ---------- the file after an insert ----------

  /** With nothing dirty, a file is what readers see. */
  lemma CleanViewIsDisk(c: Cache, path: string, pid: uint32)
    requires Coherent(c) && NoDirty(c)
    ensures View(c, path, pid) == DiskPage(c.disk, path, pid)
  {
    var i := Find(c, path, pid);
    assert i < CAPACITY ==> CleanAgrees(c.frames[i], c.disk);
  }

  lemma FlushedHasNoDirty(c: Cache, path: string, bound: nat)
    requires Coherent(c) && DirtyWithin(c, path, bound)
    ensures NoDirty(FlushFile(c, path))
  {
    FlushFileCoherent(c, path);
  }

  lemma OnlyChangesThen(c: Cache, w: Cache, d: Cache, path: string, pid: uint32)
    requires OnlyChanges(c, w, path, pid) && SameView(w, d)
    ensures OnlyChanges(c, d, path, pid) && View(d, path, pid) == View(w, path, pid)
  {
    hide View;
    forall p, id: uint32 | p != path || id != pid ensures View(d, p, id) == View(c, p, id) {
      assert View(d, p, id) == View(w, p, id);
    }
  }

  /** The end of an insert: a page is written through its pointer, the file flushed. */
  lemma WriteAndFlush(c: Cache, i: nat, path: string, pid: uint32, page: Page)
    requires Coherent(c) && FilesBounded(c.disk) && i < CAPACITY && Find(c, path, pid) == i
    requires DirtyWithin(c, path, pid as nat + 1) && |FilePages(c.disk, path)| <= pid as nat + 1
    ensures var d := FlushFile(Write(c, i, page), path);
            && Coherent(d) && NoDirty(d) && GrownWithin(c, d, path, pid as nat + 1)
            && |FilePages(d.disk, path)| == pid as nat + 1
            && OnlyChanges(c, d, path, pid) && View(d, path, pid) == page
  {
    hide Find, View, Write, FlushFile, Coherent;
    var bound := pid as nat + 1;
    var w := Write(c, i, page);
    WriteCoherent(c, i, path, pid, page);
    WriteBounded(c, i, path, pid, page, bound);
    FlushWritten(c, w, i, path, pid, bound);
  }

  lemma FlushWritten(c: Cache, w: Cache, i: nat, path: string, pid: uint32, bound: nat)
    requires Coherent(w) && FilesBounded(w.disk) && OnlyChanges(c, w, path, pid) && Bounded(c, w, path, bound)
    requires i < CAPACITY && Find(w, path, pid) == i && bound == pid as nat + 1 && |FilePages(c.disk, path)| <= bound
    ensures var d := FlushFile(w, path);
            && Coherent(d) && NoDirty(d) && GrownWithin(c, d, path, bound) && |FilePages(d.disk, path)| == bound
            && OnlyChanges(c, d, path, pid) && View(d, path, pid) == View(w, path, pid)
  {
    hide Find, View, Coherent, SameView, OnlyChanges, NoDirty, FlushFileFrom, DirtyWithin, FilesBounded;
    var d := FlushFile(w, path);
    FlushFileCoherent(w, path);
    FlushFileBounded(w, path, 0, bound);
    FlushedHasNoDirty(w, path, bound);
    GrownThen(c, w, d, path, bound);
    FlushedTargetOnDisk(w, i, path, pid);
    OnlyChangesThen(c, w, d, path, pid);
  }

  lemma FileFromViews(d: Cache, path: string, file: seq<Page>)
    requires Coherent(d) && NoDirty(d) && |FilePages(d.disk, path)| == |file| <= OFFSET_LIMIT
    requires forall j: uint32 | j < |file| :: View(d, path, j) == file[j]
    ensures FilePages(d.disk, path) == file
  {
    hide View, Coherent, NoDirty;
    forall j | 0 <= j < |file| ensures FilePages(d.disk, path)[j] == file[j] {
      var pid: uint32 := j;
      CleanViewIsDisk(d, path, pid);
      assert View(d, path, pid) == file[pid];
    }
  }

  /** Files of other tables are untouched. */
  lemma OtherFiles(c: Cache, d: Cache, path: string, bound: nat)
    requires Coherent(c) && NoDirty(c) && FilesBounded(c.disk) && Coherent(d) && NoDirty(d)
    requires GrownWithin(c, d, path, bound)
    requires forall p, id: uint32 | p != path :: View(d, p, id) == View(c, p, id)
    ensures forall p | p != path :: FilePages(d.disk, p) == FilePages(c.disk, p)
  {
    hide View, Coherent, NoDirty;
    forall p | p != path ensures FilePages(d.disk, p) == FilePages(c.disk, p) {
      assert |FilePages(c.disk, p)| <= OFFSET_LIMIT;
      forall j: uint32 | j < |FilePages(c.disk, p)| ensures View(d, p, j) == FilePages(c.disk, p)[j] {
        assert View(d, p, j) == View(c, p, j);
        CleanViewIsDisk(c, p, j);
      }
      FileFromViews(d, p, FilePages(c.disk, p));
    }
  }

  /** A state between statements of a run in which every record fits. */
  ghost predicate Settled(c: Cache) {
    Coherent(c) && NoDirty(c) && FilesBounded(c.disk)
  }

  /** What an insert leaves: nothing dirty, one file replaced. */
  ghost predicate FileBecomes(c: Cache, d: Cache, path: string, file: seq<Page>) {
    && NoDirty(d)
    && FilePages(d.disk, path) == file
    && (forall p | p != path :: FilePages(d.disk, p) == FilePages(c.disk, p))
  }

  /** Before the append: the pages in front of the target, and the files of other tables. */
  ghost predicate Staged(c: Cache, l: Cache, path: string, front: seq<Page>) {
    && Coherent(l) && FilesBounded(l.disk) && Bounded(c, l, path, |front| + 1)
    && |front| < OFFSET_LIMIT && |FilePages(c.disk, path)| <= |front| + 1
    && (forall j: uint32 | j < |front| :: View(l, path, j) == front[j])
    && (forall p, id: uint32 | p != path :: View(l, p, id) == View(c, p, id))
  }

  lemma StagedBecomes(c: Cache, l: Cache, i: nat, path: string, front: seq<Page>, page: Page)
    requires Settled(c) && Staged(c, l, path, front)
    requires i < CAPACITY && Find(l, path, |front|) == i
    ensures FileBecomes(c, FlushFile(Write(l, i, page), path), path, front + [page])
    ensures Coherent(FlushFile(Write(l, i, page), path))
  {
    hide View, Coherent, NoDirty, Find, Write, FlushFile, FilesBounded;
    var pid: uint32 := |front|;
    WriteAndFlush(l, i, path, pid, page);
    var d := FlushFile(Write(l, i, page), path);
    GrownThen(c, l, d, path, pid as nat + 1);
    forall p, id: uint32 | p != path ensures View(d, p, id) == View(c, p, id) {
      assert View(d, p, id) == View(l, p, id);
      assert View(l, p, id) == View(c, p, id);
    }
    OtherFiles(c, d, path, pid as nat + 1);
    forall j: uint32 | j < pid + 1 ensures View(d, path, j) == (front + [page])[j] {
      if j < pid {
        assert View(d, path, j) == View(l, path, j);
      }
    }
    FileFromViews(d, path, front + [page]);
  }

  lemma AppendWhenRoom(c: Cache, i: nat, path: string, row: Row)
    requires i < CAPACITY && Addressable(row) && c.frames[i].page.usedBytes + 4 + RecordLength(row) <= PAYLOAD_SIZE
    ensures |Serialize(row)| == RecordLength(row)
    ensures AppendAndFlush(c, i, path, Serialize(row))
         == (OK, FlushFile(Write(c, i, AppendRecord(c.frames[i].page, Serialize(row))), path))
  {
    hide FlushFile, Write, Serialize, AppendRecord, RecordLength;
    RoomTestMeaning(c.frames[i].page, row);
  }

  lemma NoDirtyWithin(c: Cache, path: string, bound: nat)
    requires NoDirty(c)
    ensures Bounded(c, c, path, bound)
  {
  }

  /** The first insert into an empty file. */
  lemma FirstPage(c: Cache, path: string)
    requires StorageInv(c) && NoDirty(c) && FilePages(c.disk, path) == []
    ensures var r := Create(c, path, 0);
            Staged(c, r.cache, path, []) && r.index == Find(r.cache, path, 0)
            && r.cache.frames[r.index].page == PageInit(0)
  {
    hide Create;
    NoDirtyWithin(c, path, 1);
    CreateBounded(c, path, 0, 1);
    BeyondTheEndIsEmpty(c, path, 0);
    CreateQuiet(c, path, 0);
    CreateCoherent(c, path, 0);
  }

  /** The last page of a file that has pages. */
  lemma LastPageStaged(c: Cache, path: string)
    requires StorageInv(c) && NoDirty(c) && HasRoom(c, path) && FilePages(c.disk, path) != []
    ensures var file := FilePages(c.disk, path);
            var r := Load(c, path, |file| - 1);
            && r.status == OK && Staged(c, r.cache, path, file[..|file| - 1])
            && r.index == Find(r.cache, path, |file| - 1)
            && r.cache.frames[r.index].page == file[|file| - 1] && GoodPage(file[|file| - 1])
            && StorageInv(r.cache) && SameView(c, r.cache)
  {
    hide Load, View, Find, RowsOf, NoDirty, UniqueKeys, DurableAt;
    var file := FilePages(c.disk, path);
    var pid: uint32 := |file| - 1;
    NoDirtyWithin(c, path, |file|);
    LoadBounded(c, path, pid, |file|);
    LoadQuiet(c, path, pid);
    LoadCoherent(c, path, pid);
    CleanViewIsDisk(c, path, pid);
    var r := Load(c, path, pid);
    forall j: uint32 | j < pid ensures View(r.cache, path, j) == file[j] {
      assert View(r.cache, path, j) == View(c, path, j);
      CleanViewIsDisk(c, path, j);
    }
  }

  /** The last page is linked to a new page behind it. */
  lemma NewPageStaged(c: Cache, l: Cache, i: nat, path: string)
    requires StorageInv(c) && NoDirty(c) && HasRoom(c, path) && FilePages(c.disk, path) != []
    requires var file := FilePages(c.disk, path);
             && Staged(c, l, path, file[..|file| - 1]) && i < CAPACITY && Find(l, path, |file| - 1) == i
             && l.frames[i].page == file[|file| - 1]
    ensures var file := FilePages(c.disk, path);
            var n: uint32 := |file|;
            var linked := file[n - 1].(nextPageId := n);
            var r := Create(Write(l, i, linked), path, n);
            && Staged(c, r.cache, path, file[..n - 1] + [linked]) && r.index == Find(r.cache, path, n)
            && r.cache.frames[r.index].page == PageInit(n)
  {
    hide Create, View, Find, RowsOf, NoDirty, UniqueKeys, DurableAt, Write;
    var file := FilePages(c.disk, path);
    var n: uint32 := |file|;
    var linked := file[n - 1].(nextPageId := n);
    var w := Write(l, i, linked);
    WriteCoherent(l, i, path, n - 1, linked);
    WriteBounded(l, i, path, n - 1, linked, n as nat + 1);
    CreateBounded(w, path, n, n as nat + 1);
    CreateCoherent(w, path, n);
    CreateDisk(w, path, n);
    CreatedPage(w, path, n);
    var r := Create(w, path, n);
    GrownThen(c, l, w, path, n as nat + 1);
    GrownThen(c, w, r.cache, path, n as nat + 1);
    forall p, id: uint32 | p != path ensures View(r.cache, p, id) == View(c, p, id) {
      assert View(r.cache, p, id) == View(w, p, id);
      assert View(w, p, id) == View(l, p, id);
    }
    forall j: uint32 | j < n ensures View(r.cache, path, j) == (file[..n - 1] + [linked])[j] {
      assert View(r.cache, path, j) == View(w, path, j);
      if j < n - 1 {
        assert View(w, path, j) == View(l, path, j) == file[..n - 1][j];
      }
    }
  }

  lemma CreatedPage(c: Cache, path: string, pid: uint32)
    ensures var r := Create(c, path, pid); r.cache.frames[r.index].page == PageInit(pid)
  {
  }

  lemma EnsureSettled(c: Cache, path: string)
    requires StorageInv(c) && NoDirty(c) && HasRoom(c, path)
    ensures var e := EnsureFile(c, path);
            && StorageInv(e) && NoDirty(e) && HasRoom(e, path)
            && (forall p :: FilePages(e.disk, p) == FilePages(c.disk, p))
  {
    hide RowsOf, View, Find;
    EnsureFileQuiet(c, path);
  }

  /** An insert of a record that fits packs the file, and leaves nothing dirty. */
  lemma InsertPacks(c: Cache, path: string, row: Row)
    requires StorageInv(c) && NoDirty(c) && HasRoom(c, path) && Addressable(row) && Fits(row)
    ensures |Serialize(row)| == RecordLength(row)
    ensures var (st, d) := InsertRow(c, path, row);
            st == OK && FileBecomes(c, d, path, Pack(FilePages(c.disk, path), Serialize(row)))
  {
    hide StorageInv, NoDirty, Create, Load, View, Find, GoodPage, Serialize, RecordLength, AppendAndFlush,
         FileBecomes, Staged, Addressable, EnsureFile;
    SerializedLength(row);
    var e := EnsureFile(c, path);
    EnsureSettled(c, path);
    var file := FilePages(e.disk, path);
    if file == [] {
      InsertIntoEmpty(e, path, row);
    } else {
      InsertIntoLast(e, path, row);
    }
    FileBecomesSame(c, e, InsertRow(c, path, row).1, path, Pack(file, Serialize(row)));
  }

  lemma FileBecomesSame(c: Cache, e: Cache, d: Cache, path: string, file: seq<Page>)
    requires forall p :: FilePages(e.disk, p) == FilePages(c.disk, p)
    requires FileBecomes(e, d, path, file)
    ensures FileBecomes(c, d, path, file)
  {
  }

  /** The part of an insert that follows the creation of the file. */
  function InsertInto(c: Cache, path: string, row: Row): (Status, Cache) {
    var n := PageCount(c.disk, path);
    var last := LastPage(c, path);
    if last.status != OK then (last.status, last.cache)
    else
      var target := PageFor(last.cache, last.index, path, if n == 0 then 1 else n, Serialize(row));
      if target.status != OK then (target.status, target.cache)
      else AppendAndFlush(target.cache, target.index, path, Serialize(row))
  }

  lemma InsertIntoEmpty(c: Cache, path: string, row: Row)
    requires StorageInv(c) && NoDirty(c) && Addressable(row) && Fits(row) && FilePages(c.disk, path) == []
    ensures |Serialize(row)| == RecordLength(row)
    ensures var (st, d) := InsertInto(c, path, row);
            st == OK && FileBecomes(c, d, path, Pack([], Serialize(row)))
  {
    hide StorageInv, NoDirty, Create, View, Find, GoodPage, Serialize, RecordLength, AppendAndFlush, FileBecomes,
         Staged, Addressable, AppendRecord, FlushFile, Write;
    assert Settled(c) by { InvIsSettled(c); }
    FirstPage(c, path);
    var l := Create(c, path, 0);
    RoomTestMeaning(PageInit(0), row);
    AppendWhenRoom(l.cache, l.index, path, row);
    StagedBecomes(c, l.cache, l.index, path, [], AppendRecord(PageInit(0), Serialize(row)));
    assert [] + [AppendRecord(PageInit(0), Serialize(row))] == Pack([], Serialize(row));
  }

  lemma InvIsSettled(c: Cache)
    requires StorageInv(c) && NoDirty(c)
    ensures Settled(c)
  {
  }

  lemma InsertIntoLast(c: Cache, path: string, row: Row)
    requires StorageInv(c) && NoDirty(c) && HasRoom(c, path) && Addressable(row) && Fits(row)
    requires FilePages(c.disk, path) != []
    ensures |Serialize(row)| == RecordLength(row)
    ensures var (st, d) := InsertInto(c, path, row);
            st == OK && FileBecomes(c, d, path, Pack(FilePages(c.disk, path), Serialize(row)))
  {
    hide StorageInv, NoDirty, Create, Load, View, Find, Serialize, RecordLength, AppendAndFlush, FileBecomes,
         Staged, Addressable, AppendRecord, FlushFile, Write, RowsOf;
    InvIsSettled(c);
    var file := FilePages(c.disk, path);
    var n: uint32 := |file|;
    LastPageStaged(c, path);
    var l := Load(c, path, n - 1);
    var last := file[n - 1];
    RoomTestMeaning(last, row);
    if last.usedBytes + 4 + RecordLength(row) <= PAYLOAD_SIZE {
      AppendWhenRoom(l.cache, l.index, path, row);
      StagedBecomes(c, l.cache, l.index, path, file[..n - 1], AppendRecord(last, Serialize(row)));
      assert Pack(file, Serialize(row)) == file[..n - 1] + [AppendRecord(last, Serialize(row))];
    } else {
      NewPageStaged(c, l.cache, l.index, path);
      var linked := last.(nextPageId := n);
      var r := Create(Write(l.cache, l.index, linked), path, n);
      AppendWhenRoom(r.cache, r.index, path, row);
      var page := AppendRecord(PageInit(n), Serialize(row));
      StagedBecomes(c, r.cache, r.index, path, file[..n - 1] + [linked], page);
      assert Pack(file, Serialize(row)) == file[..n - 1] + [linked] + [page];
    }
  }

  // ---------- runs in which every record fits ----------

  /** Scans, flushes and restarts write nothing when nothing is dirty. */
  lemma {:induction false} ScanWritesNothing(c: Cache, path: string, pid: uint32, count: uint32, seen: seq<Row>,
                                             more: seq<Row> -> bool)
    requires NoDirty(c)
    ensures var d := ScanPages(c, path, pid, count, seen, more).cache; NoDirty(d) && d.disk == c.disk
    decreases count - pid
  {
    hide VisitRecords, RecordsOf, Load;
    if pid < count {
      LoadWritesNothing(c, path, pid);
      var r := Load(c, path, pid);
      if r.status == OK {
        var v := VisitRecords(RecordsOf(r.cache.frames[r.index].page), seen, more);
        ScanWritesNothing(r.cache, path, pid + 1, count, v.rows, more);
      }
    }
  }

  lemma LoadWritesNothing(c: Cache, path: string, pid: uint32)
    requires NoDirty(c)
    ensures NoDirty(Load(c, path, pid).cache) && Load(c, path, pid).cache.disk == c.disk
  {
  }

  lemma {:induction false} FlushWritesNothing(c: Cache, i: nat)
    requires NoDirty(c) && i <= CAPACITY
    ensures FlushAllFrom(c, i) == c
    decreases CAPACITY - i
  {
    if i < CAPACITY {
      FlushWritesNothing(c, i + 1);
    }
  }

  /** Next-fit packing of a list of rows into a file. */
  function PackAll(file: seq<Page>, rows: seq<Row>): seq<Page> {
    if rows == [] then file
    else
      var front := PackAll(file, rows[..|rows| - 1]);
      var rec := Serialize(rows[|rows| - 1]);
      if 4 + |rec| <= PAYLOAD_SIZE && |front| < TWO_32 then Pack(front, rec) else front
  }

  lemma PackGrows(file: seq<Page>, rec: Record)
    requires 4 + |rec| <= PAYLOAD_SIZE && |file| < TWO_32
    ensures |file| <= |Pack(file, rec)|
  {
  }

  lemma {:induction false} PackAllPacked(rows: seq<Row>)
    requires |PackAll([], rows)| < TWO_32 - 1
    ensures Packed(PackAll([], rows))
  {
    hide Packed, Pack, Serialize;
    if rows == [] {
      NothingPacked();
    } else {
      var front, rec := PackAll([], rows[..|rows| - 1]), Serialize(rows[|rows| - 1]);
      if 4 + |rec| <= PAYLOAD_SIZE && |front| < TWO_32 {
        PackGrows(front, rec);
        PackAllPacked(rows[..|rows| - 1]);
        PackKeepsPacked(front, rec);
      } else {
        PackAllPacked(rows[..|rows| - 1]);
      }
    }
  }

  lemma NothingPacked()
    ensures Packed([])
  {
  }

  lemma PackAllStep(file: seq<Page>, rows: seq<Row>, row: Row)
    requires 4 + |Serialize(row)| <= PAYLOAD_SIZE && |PackAll(file, rows)| < TWO_32
    ensures PackAll(file, rows + [row]) == Pack(PackAll(file, rows), Serialize(row))
  {
    assert (rows + [row])[..|rows|] == rows;
  }

  /** One operation of a run in which every inserted record fits. */
  lemma ExecPacks(dir: string, c: Cache, op: StorageOp)
    requires StorageInv(c) && NoDirty(c) && WellFormed(dir, op)
    requires op.Insert? ==> Fits(op.row) && HasRoom(c, TablePath(dir, op.table))
    ensures op.Insert? ==> 4 + |Serialize(op.row)| <= PAYLOAD_SIZE
    ensures var d := Exec(dir, c, op);
            && NoDirty(d)
            && (if op.Insert?
                then FileBecomes(c, d, TablePath(dir, op.table),
                                 Pack(FilePages(c.disk, TablePath(dir, op.table)), Serialize(op.row)))
                else d.disk == c.disk)
  {
    hide StorageInv, NoDirty, TablePath, InsertRow, Serialize, ScanPages, FlushAllFrom, Addressable, HasRoom, Pack;
    match op {
      case Insert(table, row) => InsertPacks(c, TablePath(dir, table), row);
      case Select(table, more) =>
        ScanWritesNothing(c, TablePath(dir, table), 0, PageCount(c.disk, TablePath(dir, table)), [], more);
      case Flush => FlushWritesNothing(c, 0);
      case Restart => InitHasNoDirty(c.disk);
    }
  }

  lemma InitHasNoDirty(disk: Disk)
    ensures NoDirty(Init(disk))
  {
  }

  /**
   In runs where every record fits, nothing is dirty between statements and each file is
   the next-fit packing of the rows inserted into its table.
   */
  lemma {:induction false} RunPacks(dir: string, ops: seq<StorageOp>, n: nat)
    requires n <= |ops| && WithinLimits(dir, map[], ops)
    requires forall i | 0 <= i < n :: ops[i].Insert? ==> Fits(ops[i].row)
    ensures NoDirty(After(dir, Init(map[]), ops, n))
    ensures forall table | ShortName(dir, table) ::
              FilePages(After(dir, Init(map[]), ops, n).disk, TablePath(dir, table))
              == PackAll([], Inserted(ops, n, table))
  {
    hide StorageInv, NoDirty, TablePath, Exec, Serialize, Pack, ShortName, PackAll, Fits, WithinLimits, WellFormed,
         HasRoom;
    if n == 0 {
      InitHasNoDirty(map[]);
      assert PackAll([], []) == [] by { PackNothing(); }
    } else {
      RunPacks(dir, ops, n - 1);
      var c := After(dir, Init(map[]), ops, n - 1);
      var op := ops[n - 1];
      EmptyDiskInv();
      RunRefines(dir, map[], ops, n - 1);
      StepReady(dir, map[], ops, n - 1);
      ExecPacks(dir, c, op);
      forall table | ShortName(dir, table)
        ensures FilePages(Exec(dir, c, op).disk, TablePath(dir, table)) == PackAll([], Inserted(ops, n, table))
      {
        RunPacksTable(dir, c, op, table, ops, n);
      }
    }
  }

  lemma PackNothing()
    ensures PackAll([], []) == []
  {
  }

  lemma RunPacksTable(dir: string, c: Cache, op: StorageOp, table: string, ops: seq<StorageOp>, n: nat)
    requires 0 < n <= |ops| && op == ops[n - 1]
    requires StorageInv(c) && NoDirty(c) && WellFormed(dir, op) && ShortName(dir, table)
    requires op.Insert? ==> Fits(op.row) && HasRoom(c, TablePath(dir, op.table))
    requires FilePages(c.disk, TablePath(dir, table)) == PackAll([], Inserted(ops, n - 1, table))
    ensures FilePages(Exec(dir, c, op).disk, TablePath(dir, table)) == PackAll([], Inserted(ops, n, table))
  {
    hide StorageInv, NoDirty, TablePath, Exec, Serialize, Pack, PackAll, Fits, Addressable;
    ExecPacks(dir, c, op);
    if op.Insert? {
      PathsDistinct(dir, op.table, table);
      if op.table == table {
        PackAllStep([], Inserted(ops, n - 1, table), op.row);
      } else {
        assert Inserted(ops, n - 1, table) + [] == Inserted(ops, n - 1, table);
      }
    } else {
      assert Inserted(ops, n - 1, table) + [] == Inserted(ops, n - 1, table);
    }
  }

  /**
   The layout theorem: in a run where every record fits, page i of a table file has id i
   and links to page i + 1, neighbouring pages could not share a page, and more than half
   of the space of every two pages is used.
   */
  lemma RunLayout(dir: string, ops: seq<StorageOp>, n: nat, table: string)
    requires n <= |ops| && ShortName(dir, table) && WithinLimits(dir, map[], ops)
    requires forall i | 0 <= i < n :: ops[i].Insert? ==> Fits(ops[i].row)
    ensures var file := FilePages(After(dir, Init(map[]), ops, n).disk, TablePath(dir, table));
            Packed(file) && (2 <= |file| ==> PAYLOAD_SIZE * (|file| / 2) < UsedBytes(file))
  {
    hide StorageInv, TablePath, Pack, PackAll, Packed, Fits, Exec, WithinLimits, NoDirty;
    var c := After(dir, Init(map[]), ops, n);
    var file := FilePages(c.disk, TablePath(dir, table));
    RunPacks(dir, ops, n);
    EmptyDiskInv();
    RunRefines(dir, map[], ops, n);
    FileShort(c, TablePath(dir, table));
    PackAllPacked(Inserted(ops, n, table));
    PackedPairs(file);
    PairsHalfFull(file);
  }

  lemma FileShort(c: Cache, path: string)
    requires StorageInv(c)
    ensures |FilePages(c.disk, path)| <= OFFSET_LIMIT
  {
  }

  lemma PackedPairs(file: seq<Page>)
    requires Packed(file)
    ensures Pairs(file)
  {
  }
}
