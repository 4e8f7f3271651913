/**
 The cache agrees with the disk it speeds up: loads, evictions and flushes are
 invisible, a creation changes one page, and flushing everything makes the disk equal
 to what readers see.
 */
module CacheCoherence {
  import opened Machine
  import opened Pages
  import opened CacheModel

  ghost predicate UniqueKeys(c: Cache) {
    forall i, j | 0 <= i < j < CAPACITY && c.frames[i].inUse && c.frames[j].inUse ::
      c.frames[i].path != c.frames[j].path || c.frames[i].pageId != c.frames[j].pageId
  }

  /** A clean frame holds the bytes of its page on disk. */
  predicate CleanAgrees(f: Frame, disk: Disk) {
    f.inUse && !f.dirty ==> f.pageId < |FilePages(disk, f.path)| && FilePages(disk, f.path)[f.pageId] == f.page
  }

  ghost predicate Coherent(c: Cache) {
    && UniqueKeys(c)
    && (forall i | 0 <= i < CAPACITY :: CleanAgrees(c.frames[i], c.disk))
    && (forall i | 0 <= i < CAPACITY :: c.frames[i].inUse ==> c.frames[i].pageId < OFFSET_LIMIT)
  }

  ghost predicate SameView(c: Cache, d: Cache) {
    forall path, pid: uint32 :: View(d, path, pid) == View(c, path, pid)
  }

  /** Files only grow. */
  ghost predicate FilesGrow(c: Cache, d: Cache) {
    forall path :: |FilePages(c.disk, path)| <= |FilePages(d.disk, path)|
  }

  /** A frame that matches a key is the one the search finds. */
  lemma InitCoherent(disk: Disk)
    ensures Coherent(Init(disk))
    ensures forall path, pid: uint32 :: View(Init(disk), path, pid) == DiskPage(disk, path, pid)
  {
  }

  lemma FindUnique(c: Cache, i: nat, path: string, pid: uint32)
    requires UniqueKeys(c) && i < CAPACITY && Matches(c.frames[i], path, pid)
    ensures Find(c, path, pid) == i
  {
    var r := Find(c, path, pid);
    assert r <= i;
  }

  /** Frames that differ only in bookkeeping are found at the same place. */
  lemma FindSame(c: Cache, d: Cache, path: string, pid: uint32)
    requires forall i | 0 <= i < CAPACITY :: Matches(c.frames[i], path, pid) == Matches(d.frames[i], path, pid)
    ensures Find(c, path, pid) == Find(d, path, pid)
  {
    var r, s := Find(c, path, pid), Find(d, path, pid);
    assert r < CAPACITY ==> Matches(d.frames[r], path, pid);
    assert s < CAPACITY ==> Matches(c.frames[s], path, pid);
  }

  /** Each page of the disk is as it was, or has become what readers saw. */
  ghost predicate DiskFromView(c: Cache, d: Cache) {
    forall path, pid: uint32 ::
      DiskPage(d.disk, path, pid) == DiskPage(c.disk, path, pid) || DiskPage(d.disk, path, pid) == View(c, path, pid)
  }

  /** No file grows past the reach of 32-bit offsets. */
  ghost predicate FilesBounded(disk: Disk) {
    forall path :: |FilePages(disk, path)| <= OFFSET_LIMIT
  }

  /** What a flush does to the disk. */
  ghost predicate DiskKept(c: Cache, d: Cache) {
    DiskFromView(c, d) && (FilesBounded(c.disk) ==> FilesBounded(d.disk))
  }

  /** Every page but one looks the same. */
  ghost predicate OnlyChanges(c: Cache, d: Cache, path: string, pid: uint32) {
    forall p, id: uint32 | p != path || id != pid :: View(d, p, id) == View(c, p, id)
  }

  lemma FlushKeepsView(c: Cache, i: nat, path: string, pid: uint32)
    requires Coherent(c) && i < CAPACITY
    ensures View(FlushFrame(c, i), path, pid) == View(c, path, pid)
  {
    var d := FlushFrame(c, i);
    var f := c.frames[i];
    FindSame(c, d, path, pid);
    SlotExact(f.pageId);
    if f.inUse && path == f.path && pid == f.pageId {
      FindUnique(c, i, path, pid);
    }
  }

  lemma FlushedPage(c: Cache, i: nat, path: string, pid: uint32)
    requires Coherent(c) && i < CAPACITY
    ensures var d := FlushFrame(c, i);
            || DiskPage(d.disk, path, pid) == DiskPage(c.disk, path, pid)
            || DiskPage(d.disk, path, pid) == View(c, path, pid)
  {
    hide Slot, Find;
    var f := c.frames[i];
    SlotExact(f.pageId);
    if f.inUse && path == f.path && pid == f.pageId {
      FindUnique(c, i, path, pid);
    }
  }

  lemma FlushedLength(c: Cache, i: nat, path: string)
    requires Coherent(c) && i < CAPACITY && |FilePages(c.disk, path)| <= OFFSET_LIMIT
    ensures |FilePages(FlushFrame(c, i).disk, path)| <= OFFSET_LIMIT
  {
    hide Slot, UniqueKeys, CleanAgrees;
    SlotExact(c.frames[i].pageId);
  }

  lemma FlushFrameDisk(c: Cache, i: nat)
    requires Coherent(c) && i < CAPACITY
    ensures DiskKept(c, FlushFrame(c, i))
  {
    hide Coherent, FlushFrame, DiskPage, View, FilePages;
    var d := FlushFrame(c, i);
    if FilesBounded(c.disk) {
      forall path ensures |FilePages(d.disk, path)| <= OFFSET_LIMIT {
        FlushedLength(c, i, path);
      }
    }
    forall path, pid: uint32
      ensures DiskPage(d.disk, path, pid) == DiskPage(c.disk, path, pid)
              || DiskPage(d.disk, path, pid) == View(c, path, pid)
    {
      FlushedPage(c, i, path, pid);
    }
  }

  lemma FlushFrameCoherent(c: Cache, i: nat)
    requires Coherent(c) && i < CAPACITY
    ensures var d := FlushFrame(c, i);
            && Coherent(d) && SameView(c, d) && FilesGrow(c, d)
            && !(d.frames[i].inUse && d.frames[i].dirty)
            && (forall j | 0 <= j < CAPACITY && j != i :: d.frames[j] == c.frames[j])
            && d.frames[i] == c.frames[i].(dirty := d.frames[i].dirty)
  {
    SlotExact(c.frames[i].pageId);
    forall path, pid: uint32 ensures View(FlushFrame(c, i), path, pid) == View(c, path, pid) {
      FlushKeepsView(c, i, path, pid);
    }
  }

  /** Frame i, free or clean, is given a page that was not resident. */
  lemma ReplaceFrame(c: Cache, d: Cache, i: nat, f: Frame)
    requires Coherent(c) && i < CAPACITY && !(c.frames[i].inUse && c.frames[i].dirty)
    requires f.inUse && f.pageId < OFFSET_LIMIT && !Resident(c, f.path, f.pageId) && CleanAgrees(f, c.disk)
    requires d.frames == c.frames[i := f] && d.disk == c.disk
    ensures Coherent(d) && OnlyChanges(c, d, f.path, f.pageId) && View(d, f.path, f.pageId) == f.page
    ensures Find(d, f.path, f.pageId) == i
  {
    forall j | 0 <= j < CAPACITY && j != i && c.frames[j].inUse
      ensures c.frames[j].path != f.path || c.frames[j].pageId != f.pageId
    {
      assert !Matches(c.frames[j], f.path, f.pageId);
    }
    FindUnique(d, i, f.path, f.pageId);
    forall p, id: uint32 | p != f.path || id != f.pageId ensures View(d, p, id) == View(c, p, id) {
      ReplacedView(c, d, i, p, id);
    }
  }

  /** Another key is found where it was, or was the clean page that frame i held. */
  lemma ReplacedView(c: Cache, d: Cache, i: nat, path: string, pid: uint32)
    requires Coherent(c) && UniqueKeys(d) && i < CAPACITY && !(c.frames[i].inUse && c.frames[i].dirty)
    requires d.frames[i].inUse && !Matches(d.frames[i], path, pid)
    requires d.frames == c.frames[i := d.frames[i]] && d.disk == c.disk
    ensures View(d, path, pid) == View(c, path, pid)
  {
    var r := Find(c, path, pid);
    if r < CAPACITY && r != i {
      FindUnique(d, r, path, pid);
    } else {
      assert forall j | 0 <= j < CAPACITY && j != i :: !Matches(c.frames[j], path, pid);
      assert forall j | 0 <= j < CAPACITY :: !Matches(d.frames[j], path, pid);
    }
  }

  /** Frame i keeps its key but its page may change, which marks it dirty. */
  lemma RewriteFrame(c: Cache, d: Cache, i: nat, f: Frame)
    requires UniqueKeys(c) && i < CAPACITY && c.frames[i].inUse
    requires forall j | 0 <= j < CAPACITY && j != i :: CleanAgrees(c.frames[j], c.disk)
    requires forall j | 0 <= j < CAPACITY :: c.frames[j].inUse ==> c.frames[j].pageId < OFFSET_LIMIT
    requires f.inUse && f.path == c.frames[i].path && f.pageId == c.frames[i].pageId && CleanAgrees(f, c.disk)
    requires d.frames == c.frames[i := f] && d.disk == c.disk
    ensures Coherent(d) && OnlyChanges(c, d, f.path, f.pageId) && View(d, f.path, f.pageId) == f.page
    ensures Find(d, f.path, f.pageId) == i
  {
    FindUnique(d, i, f.path, f.pageId);
    forall p, id: uint32 | p != f.path || id != f.pageId ensures View(d, p, id) == View(c, p, id) {
      FindSame(c, d, p, id);
    }
  }

  lemma ChooseVictimCoherent(c: Cache)
    requires Coherent(c)
    ensures var (i, d) := ChooseVictim(c);
            && Coherent(d) && SameView(c, d) && FilesGrow(c, d)
            && !(d.frames[i].inUse && d.frames[i].dirty)
            && (forall path, pid: uint32 :: Resident(d, path, pid) == Resident(c, path, pid))
  {
    var (i, d) := ChooseVictim(c);
    FlushFrameCoherent(c, i);
    forall path, pid: uint32 ensures Resident(d, path, pid) == Resident(c, path, pid) {
      FindSame(c, d, path, pid);
    }
  }

  lemma MissCounterIrrelevant(c: Cache, d: Cache)
    requires Coherent(c) && d.frames == c.frames && d.disk == c.disk
    ensures Coherent(d) && SameView(c, d)
    ensures forall path, pid: uint32 :: Find(d, path, pid) == Find(c, path, pid)
  {
  }

  lemma VictimDisk(c: Cache)
    requires Coherent(c)
    ensures DiskKept(c, ChooseVictim(c.(misses := c.misses + 1)).1)
  {
    var m := c.(misses := c.misses + 1);
    MissCounterIrrelevant(c, m);
    FlushFrameDisk(m, ChooseVictim(m).0);
  }

  lemma LoadDisk(c: Cache, path: string, pid: uint32)
    requires Coherent(c)
    ensures DiskKept(c, Load(c, path, pid).cache)
  {
    VictimDisk(c);
  }

  lemma CreateDisk(c: Cache, path: string, pid: uint32)
    requires Coherent(c)
    ensures DiskKept(c, Create(c, path, pid).cache)
  {
    VictimDisk(c);
  }

  /** A load never changes what any reader sees, and hands out what a reader of that page sees. */
  lemma LoadCoherent(c: Cache, path: string, pid: uint32)
    requires Coherent(c) && pid < OFFSET_LIMIT
    ensures var r := Load(c, path, pid);
            && Coherent(r.cache) && SameView(c, r.cache) && FilesGrow(c, r.cache)
            && (r.status == OK <==> Resident(c, path, pid) || pid < |FilePages(ChooseVictim(c).1.disk, path)|)
            && (r.status == OK ==> r.index == Find(r.cache, path, pid) < CAPACITY
                                   && r.cache.frames[r.index].page == View(c, path, pid))
  {
    hide FindFrom, Slot, WritePage;
    var i := Find(c, path, pid);
    if i < CAPACITY {
      var d := Load(c, path, pid).cache;
      RewriteFrame(c, d, i, d.frames[i]);
    } else {
      MissCoherent(c, path, pid);
    }
  }

  /** What a miss does: choose a victim, then read the page into its frame if the file has it. */
  lemma MissShape(c: Cache, path: string, pid: uint32)
    requires pid < OFFSET_LIMIT && !Resident(c, path, pid)
    ensures var (v, d) := ChooseVictim(c.(misses := c.misses + 1));
            var file := FilePages(d.disk, path);
            && d.disk == ChooseVictim(c).1.disk
            && Load(c, path, pid) == if pid < |file| then Lookup(OK, v, Assign(d, v, path, pid, file[pid], false))
                                     else Lookup(FILE_OPEN_FAILED, CAPACITY, d)
  {
    hide FindFrom, Slot, WritePage;
    SlotWraps(pid);
  }

  lemma MissCoherent(c: Cache, path: string, pid: uint32)
    requires Coherent(c) && pid < OFFSET_LIMIT && !Resident(c, path, pid)
    ensures var r := Load(c, path, pid);
            && Coherent(r.cache) && SameView(c, r.cache) && FilesGrow(c, r.cache)
            && (r.status == OK <==> pid < |FilePages(ChooseVictim(c).1.disk, path)|)
            && (r.status == OK ==> r.index == Find(r.cache, path, pid) < CAPACITY
                                   && r.cache.frames[r.index].page == View(c, path, pid))
  {
    hide FindFrom, Slot, WritePage, Load, ChooseVictim, UniqueKeys;
    var m := c.(misses := c.misses + 1);
    MissShape(c, path, pid);
    MissCounterIrrelevant(c, m);
    ChooseVictimCoherent(m);
    var (v, d) := ChooseVictim(m);
    var file := FilePages(d.disk, path);
    if pid < |file| {
      var f := Frame(true, false, d.tick + 1, path, pid, file[pid]);
      assert Resident(d, path, pid) == Resident(m, path, pid) == Resident(c, path, pid);
      assert View(d, path, pid) == file[pid];
      ReplaceFrame(d, Assign(d, v, path, pid, file[pid], false), v, f);
    }
  }

  lemma SlotWraps(pid: uint32)
    requires pid < OFFSET_LIMIT
    ensures Slot(pid) == pid
  {
    SlotExact(pid);
  }

  /** A creation changes one page only, to an empty one. */
  lemma CreateCoherent(c: Cache, path: string, pid: uint32)
    requires Coherent(c) && pid < OFFSET_LIMIT
    ensures var r := Create(c, path, pid);
            && Coherent(r.cache) && OnlyChanges(c, r.cache, path, pid) && FilesGrow(c, r.cache)
            && View(r.cache, path, pid) == PageInit(pid)
            && r.index == Find(r.cache, path, pid)
  {
    var i := Find(c, path, pid);
    var r := Create(c, path, pid);
    if i < CAPACITY {
      RewriteFrame(c, r.cache, i, r.cache.frames[i]);
    } else {
      var m := c.(misses := c.misses + 1);
      MissCounterIrrelevant(c, m);
      ChooseVictimCoherent(m);
      var (v, d) := ChooseVictim(m);
      ReplaceFrame(d, r.cache, v, r.cache.frames[v]);
    }
  }

  /** A client write through the page pointer, followed by marking the page dirty. */
  function Write(c: Cache, i: nat, page: Page): Cache
    requires i < CAPACITY
  {
    MarkDirty(Poke(c, i, page), c.frames[i].path, c.frames[i].pageId)
  }

  lemma WriteCoherent(c: Cache, i: nat, path: string, pid: uint32, page: Page)
    requires Coherent(c) && i < CAPACITY && Find(c, path, pid) == i
    ensures var d := Write(c, i, page);
            && Coherent(d) && OnlyChanges(c, d, path, pid) && d.disk == c.disk
            && View(d, path, pid) == page && Find(d, path, pid) == i
  {
    var p, d := Poke(c, i, page), Write(c, i, page);
    FindSame(c, p, path, pid);
    RewriteFrame(c, d, i, d.frames[i]);
  }

  lemma MarkDirtyCoherent(c: Cache, path: string, pid: uint32)
    requires Coherent(c)
    ensures var d := MarkDirty(c, path, pid);
            Coherent(d) && SameView(c, d) && d.disk == c.disk
  {
    var i := Find(c, path, pid);
    if i < CAPACITY {
      var d := MarkDirty(c, path, pid);
      RewriteFrame(c, d, i, d.frames[i]);
    }
  }

  lemma DiskKeptThrough(c: Cache, e: Cache, d: Cache)
    requires DiskKept(c, e) && SameView(c, e) && DiskKept(e, d)
    ensures DiskKept(c, d)
  {
    hide DiskPage, View, FilePages;
  }

  lemma DiskKeptItself(c: Cache)
    ensures DiskKept(c, c) && SameView(c, c)
  {
    hide DiskPage, View, FilePages;
  }

  lemma {:induction false} FlushFileFromDisk(c: Cache, path: string, i: nat)
    requires Coherent(c) && i <= CAPACITY
    ensures DiskKept(c, FlushFileFrom(c, path, i))
    decreases CAPACITY - i
  {
    hide Coherent, DiskKept, SameView, FlushFrame;
    DiskKeptItself(c);
    if i < CAPACITY {
      var e := if c.frames[i].inUse && c.frames[i].path == path then FlushFrame(c, i) else c;
      FlushFrameCoherent(c, i);
      FlushFrameDisk(c, i);
      FlushFileFromDisk(e, path, i + 1);
      DiskKeptThrough(c, e, FlushFileFrom(e, path, i + 1));
    }
  }

  lemma {:induction false} FlushAllFromDisk(c: Cache, i: nat)
    requires Coherent(c) && i <= CAPACITY
    ensures DiskKept(c, FlushAllFrom(c, i))
    decreases CAPACITY - i
  {
    hide Coherent, DiskKept, SameView, FlushFrame;
    DiskKeptItself(c);
    if i < CAPACITY {
      var e := FlushFrame(c, i);
      FlushFrameCoherent(c, i);
      FlushFrameDisk(c, i);
      FlushAllFromDisk(e, i + 1);
      DiskKeptThrough(c, e, FlushAllFrom(e, i + 1));
    }
  }

  lemma {:induction false} FlushFileFromCoherent(c: Cache, path: string, i: nat)
    requires Coherent(c) && i <= CAPACITY
    ensures var d := FlushFileFrom(c, path, i);
            && Coherent(d) && SameView(c, d) && FilesGrow(c, d)
            && (forall j | 0 <= j < CAPACITY ::
                  && d.frames[j] == c.frames[j].(dirty := d.frames[j].dirty)
                  && (c.frames[j].path != path || j < i ==> d.frames[j] == c.frames[j])
                  && (i <= j && d.frames[j].inUse && d.frames[j].path == path ==> !d.frames[j].dirty))
    decreases CAPACITY - i
  {
    hide View, FilePages, UniqueKeys, CleanAgrees;
    if i < CAPACITY {
      var e := if c.frames[i].inUse && c.frames[i].path == path then FlushFrame(c, i) else c;
      FlushFrameCoherent(c, i);
      FlushFileFromCoherent(e, path, i + 1);
    }
  }

  /** Flushing a file is invisible and leaves no dirty page of it. */
  lemma FlushFileCoherent(c: Cache, path: string)
    requires Coherent(c)
    ensures var d := FlushFile(c, path);
            && Coherent(d) && SameView(c, d) && FilesGrow(c, d)
            && (forall j | 0 <= j < CAPACITY ::
                  && d.frames[j] == c.frames[j].(dirty := d.frames[j].dirty)
                  && (c.frames[j].path != path ==> d.frames[j] == c.frames[j])
                  && (d.frames[j].inUse && d.frames[j].path == path ==> !d.frames[j].dirty))
  {
    FlushFileFromCoherent(c, path, 0);
  }

  lemma {:induction false} FlushAllFromCoherent(c: Cache, i: nat)
    requires Coherent(c) && i <= CAPACITY
    ensures var d := FlushAllFrom(c, i);
            && Coherent(d) && SameView(c, d) && FilesGrow(c, d)
            && d.flushes + DirtyBefore(c, i) == c.flushes + DirtyCount(c)
            && (forall j | 0 <= j < CAPACITY ::
                  && d.frames[j] == c.frames[j].(dirty := d.frames[j].dirty)
                  && (j < i ==> d.frames[j] == c.frames[j])
                  && (i <= j ==> !(d.frames[j].inUse && d.frames[j].dirty)))
    decreases CAPACITY - i
  {
    if i < CAPACITY {
      FlushFrameCoherent(c, i);
      var e := FlushFrame(c, i);
      FlushAllFromCoherent(e, i + 1);
      DirtyBeforeFlush(c, e, i);
      DirtyAfterFlush(c, e, i, CAPACITY);
    }
  }

  lemma {:induction false} DirtyBeforeSame(c: Cache, d: Cache, n: nat)
    requires n <= CAPACITY && forall j | 0 <= j < n :: d.frames[j] == c.frames[j]
    ensures DirtyBefore(c, n) == DirtyBefore(d, n)
  {
    if n > 0 {
      DirtyBeforeSame(c, d, n - 1);
    }
  }

  lemma DirtyBeforeFlush(c: Cache, e: Cache, i: nat)
    requires i < CAPACITY && !(e.frames[i].inUse && e.frames[i].dirty)
    requires forall j | 0 <= j < CAPACITY && j != i :: e.frames[j] == c.frames[j]
    ensures DirtyBefore(e, i + 1) == DirtyBefore(c, i)
  {
    DirtyBeforeSame(c, e, i);
  }

  lemma {:induction false} DirtyAfterFlush(c: Cache, e: Cache, i: nat, n: nat)
    requires i < n <= CAPACITY && !(e.frames[i].inUse && e.frames[i].dirty)
    requires forall j | 0 <= j < CAPACITY && j != i :: e.frames[j] == c.frames[j]
    ensures DirtyBefore(e, n) + (if c.frames[i].inUse && c.frames[i].dirty then 1 else 0) == DirtyBefore(c, n)
    decreases n
  {
    if n == i + 1 {
      DirtyBeforeSame(c, e, i);
    } else {
      DirtyAfterFlush(c, e, i, n - 1);
    }
  }

  /**
   Flushing everything is invisible to readers, makes the disk equal to what they see,
   leaves nothing dirty, and counts exactly the pages that were dirty.
   */
  lemma FlushAllCoherent(c: Cache)
    requires Coherent(c)
    ensures var d := FlushAll(c);
            && Coherent(d) && SameView(c, d)
            && DirtyCount(d) == 0
            && d.flushes == c.flushes + DirtyCount(c)
            && (forall path, pid: uint32 :: DiskPage(d.disk, path, pid) == View(c, path, pid))
  {
    FlushAllFromCoherent(c, 0);
    var d := FlushAll(c);
    FlushAllFromCoherent(d, 0);
    NoneDirty(d, CAPACITY);
    forall path, pid: uint32 ensures DiskPage(d.disk, path, pid) == View(c, path, pid) {
      assert View(d, path, pid) == View(c, path, pid);
      var i := Find(d, path, pid);
      assert i < CAPACITY ==> CleanAgrees(d.frames[i], d.disk);
    }
  }

  lemma {:induction false} NoneDirty(c: Cache, n: nat)
    requires n <= CAPACITY && forall j | 0 <= j < n :: !(c.frames[j].inUse && c.frames[j].dirty)
    ensures DirtyBefore(c, n) == 0
  {
    if n > 0 {
      NoneDirty(c, n - 1);
    }
  }

  /**
   Where the 32-bit byte offset stops being right: a flush stores the page as that page
   of the file exactly when the id is in range (or the file already held those bytes).
   */
  lemma FlushLandsExactly(c: Cache, i: nat)
    requires i < CAPACITY && c.frames[i].inUse && c.frames[i].dirty
    ensures var f := c.frames[i];
            (DiskPage(FlushFrame(c, i).disk, f.path, f.pageId) == f.page
             <==> (f.pageId < OFFSET_LIMIT || DiskPage(c.disk, f.path, f.pageId) == f.page))
  {
    SlotExact(c.frames[i].pageId);
    SlotNotAbove(c.frames[i].pageId);
  }

  lemma SlotNotAbove(pid: uint32)
    ensures Slot(pid) <= pid && Slot(pid) < OFFSET_LIMIT
  {
    assert Mul32(pid, PAGE_SIZE) <= pid * PAGE_SIZE as int;
  }

  /** The first id out of range overwrites page 0 of the file. */
  lemma FirstWrappedIdClobbersPageZero(path: string, page: Page)
    requires page != PageInit(OFFSET_LIMIT)
    ensures var c := Create(Init(map[path := [page]]), path, OFFSET_LIMIT).cache;
            View(c, path, 0) == page && View(FlushAll(c), path, 0) == PageInit(OFFSET_LIMIT)
  {
    var c := Create(Init(map[path := [page]]), path, OFFSET_LIMIT).cache;
    assert Slot(OFFSET_LIMIT) == 0;
    var d := FlushFrame(c, 0);
    assert FlushAllFrom(d, 1) == d by {
      FlushIdle(d, 1);
    }
  }

  lemma {:induction false} FlushIdle(c: Cache, i: nat)
    requires i <= CAPACITY && forall j | i <= j < CAPACITY :: !(c.frames[j].inUse && c.frames[j].dirty)
    ensures FlushAllFrom(c, i) == c
    decreases CAPACITY - i
  {
    if i < CAPACITY {
      FlushIdle(c, i + 1);
    }
  }

  // ---------- whole runs ----------

  datatype CacheOp =
    | OpLoad(path: string, pid: uint32)
    | OpCreate(path: string, pid: uint32)
    | OpWrite(path: string, pid: uint32, page: Page)  // load, write through the pointer, mark dirty
    | OpMarkDirty(path: string, pid: uint32)
    | OpFlushFile(path: string)
    | OpFlushAll

  function Step(c: Cache, op: CacheOp): Cache {
    match op
    case OpLoad(path, pid) => Load(c, path, pid).cache
    case OpCreate(path, pid) => Create(c, path, pid).cache
    case OpWrite(path, pid, page) =>
      var r := Load(c, path, pid);
      if r.status == OK then Write(r.cache, r.index, page) else r.cache
    case OpMarkDirty(path, pid) => MarkDirty(c, path, pid)
    case OpFlushFile(path) => FlushFile(c, path)
    case OpFlushAll => FlushAll(c)
  }

  function Run(c: Cache, ops: seq<CacheOp>): Cache {
    if ops == [] then c else Step(Run(c, ops[..|ops| - 1]), ops[|ops| - 1])
  }

  /** The page ids of an operation have byte offsets that fit 32 bits. */
  predicate InRange(op: CacheOp) {
    (op.OpLoad? || op.OpCreate? || op.OpWrite?) ==> op.pid < OFFSET_LIMIT
  }

  /** Each operation keeps coherence; it changes at most the one page it creates or writes. */
  lemma StepCoherent(c: Cache, op: CacheOp)
    requires Coherent(c) && InRange(op)
    ensures var d := Step(c, op);
            && Coherent(d)
            && (op.OpLoad? || op.OpMarkDirty? || op.OpFlushFile? || op.OpFlushAll? ==> SameView(c, d))
            && (op.OpCreate? || op.OpWrite? ==> OnlyChanges(c, d, op.path, op.pid))
            && (op.OpCreate? ==> View(d, op.path, op.pid) == PageInit(op.pid))
            && (op.OpWrite? ==> View(d, op.path, op.pid) ==
                                if Load(c, op.path, op.pid).status == OK then op.page else View(c, op.path, op.pid))
  {
    match op
    case OpLoad(path, pid) => LoadCoherent(c, path, pid);
    case OpCreate(path, pid) => CreateCoherent(c, path, pid);
    case OpWrite(path, pid, page) =>
      LoadCoherent(c, path, pid);
      var r := Load(c, path, pid);
      if r.status == OK {
        WriteCoherent(r.cache, r.index, path, pid, page);
      }
    case OpMarkDirty(path, pid) => MarkDirtyCoherent(c, path, pid);
    case OpFlushFile(path) => FlushFileCoherent(c, path);
    case OpFlushAll => FlushAllCoherent(c);
  }

  /** Coherence in every reachable state. */
  lemma {:induction false} RunCoherent(disk: Disk, ops: seq<CacheOp>)
    requires forall op <- ops :: InRange(op)
    ensures Coherent(Run(Init(disk), ops))
  {
    if ops == [] {
    } else {
      RunCoherent(disk, ops[..|ops| - 1]);
      StepCoherent(Run(Init(disk), ops[..|ops| - 1]), ops[|ops| - 1]);
    }
  }
}
