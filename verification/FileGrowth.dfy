/**
 How far the file of a table can grow: an insert adds at most one page to it, even an insert
 that fails and leaves its new page in the cache.
 */
module FileGrowth {
  import opened Machine
  import opened Pages
  import opened Records
  import opened CacheModel
  import opened CacheCoherence
  import opened StorageModel

  /** Neither on disk nor waiting in the cache has the file a page at or beyond the bound. */
  ghost predicate Within(c: Cache, path: string, bound: nat) {
    && |FilePages(c.disk, path)| <= bound
    && forall i | 0 <= i < CAPACITY && IsDirty(c.frames[i]) && c.frames[i].path == path :: c.frames[i].pageId < bound
  }

  predicate IsDirty(f: Frame) {
    f.inUse && f.dirty
  }

  /** A page of another file, or one below the bound. */
  predicate Below(path: string, bound: nat, p: string, pid: nat) {
    p == path ==> pid < bound
  }

  lemma FlushFrameWithin(c: Cache, i: nat, path: string, bound: nat)
    requires Within(c, path, bound) && i < CAPACITY
    ensures Within(FlushFrame(c, i), path, bound)
  {
    SlotNotAbove(c.frames[i].pageId);
  }

  lemma VictimWithin(c: Cache, path: string, bound: nat)
    requires Within(c, path, bound)
    ensures Within(ChooseVictim(c.(misses := c.misses + 1)).1, path, bound)
  {
    hide FlushFrame, FreeFrom, OldestOf;
    var m := c.(misses := c.misses + 1);
    FlushFrameWithin(m, ChooseVictim(m).0, path, bound);
  }

  /** A load hands out the frame of its page. */
  lemma LoadWithin(c: Cache, p: string, pid: uint32, path: string, bound: nat)
    requires Within(c, path, bound)
    ensures var r := Load(c, p, pid);
            && Within(r.cache, path, bound)
            && (r.status == OK ==> r.cache.frames[r.index].path == p && r.cache.frames[r.index].pageId == pid)
  {
    hide ChooseVictim, FilePages, Slot;
    VictimWithin(c, path, bound);
  }

  lemma CreateWithin(c: Cache, p: string, pid: uint32, path: string, bound: nat)
    requires Within(c, path, bound) && Below(path, bound, p, pid)
    ensures var r := Create(c, p, pid);
            && Within(r.cache, path, bound)
            && r.cache.frames[r.index].path == p && r.cache.frames[r.index].pageId == pid
  {
    hide ChooseVictim, FilePages, PageInit;
    VictimWithin(c, path, bound);
  }

  lemma WriteWithin(c: Cache, i: nat, page: Page, path: string, bound: nat)
    requires Within(c, path, bound) && i < CAPACITY && Below(path, bound, c.frames[i].path, c.frames[i].pageId)
    ensures Within(Write(c, i, page), path, bound)
    ensures Write(c, i, page).frames[i].path == c.frames[i].path
         && Write(c, i, page).frames[i].pageId == c.frames[i].pageId
  {
    hide FilePages;
  }

  lemma {:induction false} FlushFileWithin(c: Cache, p: string, i: nat, path: string, bound: nat)
    requires Within(c, path, bound) && i <= CAPACITY
    ensures Within(FlushFileFrom(c, p, i), path, bound)
    decreases CAPACITY - i
  {
    hide FlushFrame, Within;
    if i < CAPACITY {
      FlushFrameWithin(c, i, path, bound);
      FlushFileWithin(if c.frames[i].inUse && c.frames[i].path == p then FlushFrame(c, i) else c,
                      p, i + 1, path, bound);
    }
  }

  lemma {:induction false} FlushAllWithin(c: Cache, i: nat, path: string, bound: nat)
    requires Within(c, path, bound) && i <= CAPACITY
    ensures Within(FlushAllFrom(c, i), path, bound)
    decreases CAPACITY - i
  {
    hide FlushFrame, Within;
    if i < CAPACITY {
      FlushFrameWithin(c, i, path, bound);
      FlushAllWithin(FlushFrame(c, i), i + 1, path, bound);
    }
  }

  lemma {:induction false} ScanWithin(c: Cache, p: string, pid: uint32, count: uint32, seen: seq<Row>,
                                      more: seq<Row> -> bool, path: string, bound: nat)
    requires Within(c, path, bound)
    ensures Within(ScanPages(c, p, pid, count, seen, more).cache, path, bound)
    decreases count - pid
  {
    hide Load, Within, VisitRecords, RecordsOf;
    if pid < count {
      LoadWithin(c, p, pid, path, bound);
      var r := Load(c, p, pid);
      if r.status == OK {
        var v := VisitRecords(RecordsOf(r.cache.frames[r.index].page), seen, more);
        ScanWithin(r.cache, p, pid + 1, count, v.rows, more, path, bound);
      }
    }
  }

  // ---------- an insert ----------

  /** The bound behind an insert into the file, and behind one into another. */
  function Raised(path: string, bound: nat, p: string): nat {
    if p != path then bound else if bound == 0 then 2 else bound + 1
  }

  lemma WithinWider(c: Cache, path: string, bound: nat, wider: nat)
    requires Within(c, path, bound) && bound <= wider
    ensures Within(c, path, wider)
  {
  }

  lemma EnsureWithin(c: Cache, p: string, path: string, bound: nat)
    requires Within(c, path, bound)
    ensures Within(EnsureFile(c, p), path, bound)
    ensures p == path ==> PageCount(EnsureFile(c, p).disk, p) <= bound
  {
  }

  lemma LastPageWithin(c: Cache, p: string, path: string, bound: nat)
    requires Within(c, path, bound) && Below(path, bound, p, PageCount(c.disk, p))
    ensures var r := LastPage(c, p);
            && Within(r.cache, path, bound)
            && (r.status == OK ==> r.index < CAPACITY && r.cache.frames[r.index].path == p
                                   && Below(path, bound, p, r.cache.frames[r.index].pageId))
  {
    hide Load, Create, Within, PageCount;
    var n := PageCount(c.disk, p);
    if n == 0 {
      CreateWithin(c, p, 0, path, bound);
    } else {
      LoadWithin(c, p, n - 1, path, bound);
    }
  }

  lemma PageForWithin(c: Cache, i: nat, p: string, count: uint32, rec: Record, path: string, bound: nat)
    requires Within(c, path, bound) && i < CAPACITY && c.frames[i].path == p
    requires Below(path, bound, p, c.frames[i].pageId) && Below(path, bound, p, count)
    ensures var r := PageFor(c, i, p, count, rec);
            && Within(r.cache, path, bound)
            && (r.status == OK ==> r.index < CAPACITY && r.cache.frames[r.index].path == p
                                   && Below(path, bound, p, r.cache.frames[r.index].pageId))
  {
    hide Create, Within, Write, CanStore;
    var linked := c.frames[i].page.(nextPageId := count);
    WriteWithin(c, i, linked, path, bound);
    CreateWithin(Write(c, i, linked), p, count, path, bound);
  }

  lemma AppendWithin(c: Cache, i: nat, p: string, rec: Record, path: string, bound: nat)
    requires Within(c, path, bound) && i < CAPACITY && Below(path, bound, c.frames[i].path, c.frames[i].pageId)
    ensures Within(AppendAndFlush(c, i, p, rec).1, path, bound)
  {
    hide Within, Write, TryAppend, FlushFileFrom;
    match TryAppend(c.frames[i].page, rec) {
      case None =>
      case Some(page) =>
        WriteWithin(c, i, page, path, bound);
        FlushFileWithin(Write(c, i, page), p, 0, path, bound);
    }
  }

  /** An insert, successful or not, adds at most one page to its file, and at most two if it had none. */
  lemma InsertWithin(c: Cache, p: string, row: Row, path: string, bound: nat)
    requires Within(c, path, bound)
    ensures Within(InsertRow(c, p, row).1, path, Raised(path, bound, p))
  {
    hide Within, EnsureFile, LastPage, PageFor, AppendAndFlush, Serialize, PageCount;
    var rec, wider := Serialize(row), Raised(path, bound, p);
    var e := EnsureFile(c, p);
    EnsureWithin(c, p, path, bound);
    WithinWider(e, path, bound, wider);
    var n := PageCount(e.disk, p);
    LastPageWithin(e, p, path, wider);
    var last := LastPage(e, p);
    if last.status == OK {
      var count := if n == 0 then 1 else n;
      PageForWithin(last.cache, last.index, p, count, rec, path, wider);
      var target := PageFor(last.cache, last.index, p, count, rec);
      if target.status == OK {
        AppendWithin(target.cache, target.index, p, rec, path, wider);
      }
    }
  }
}
