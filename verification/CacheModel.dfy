/**
 The buffer cache of member-jihyun and the disk below it, as a value: what each call
 does to the four frames, the counters and the files.  The class BufferCache is proved
 to compute these functions; the theorems about them are in CacheCoherence and Lru.
 */
module CacheModel {
  import opened Machine
  import opened Pages

  const CAPACITY: nat := 4
  /** Page ids below this bound have a byte offset that fits 32 bits. */
  const OFFSET_LIMIT: nat := 0x10_0000

  datatype Status = OK | INVALID_QUERY | FILE_OPEN_FAILED | INTERNAL_ERROR

  datatype Frame = Frame(inUse: bool, dirty: bool, lastUsed: nat, path: string, pageId: uint32, page: Page)

  /** The files by path, each a sequence of whole pages. */
  type Disk = map<string, seq<Page>>

  datatype RawCache = RawCache(frames: seq<Frame>, tick: nat, hits: nat, misses: nat, flushes: nat, disk: Disk)

  const EMPTY_FRAME: Frame := Frame(false, false, 0, "", 0, ZERO_PAGE)

  type Cache = c: RawCache | |c.frames| == CAPACITY
    witness RawCache([EMPTY_FRAME, EMPTY_FRAME, EMPTY_FRAME, EMPTY_FRAME], 0, 0, 0, 0, map[])

  /** The result of a call that hands out a page: which frame holds it. */
  datatype Lookup = Lookup(status: Status, index: nat, cache: Cache)

  function Init(disk: Disk): Cache {
    RawCache([EMPTY_FRAME, EMPTY_FRAME, EMPTY_FRAME, EMPTY_FRAME], 0, 0, 0, 0, disk)
  }

  // ---------- the disk ----------

  function FilePages(disk: Disk, path: string): seq<Page> {
    if path in disk then disk[path] else []
  }

  /** A page of a file; beyond the end there is nothing, which reads as zeros once the file grows. */
  function DiskPage(disk: Disk, path: string, pid: nat): Page {
    var file := FilePages(disk, path);
    if pid < |file| then file[pid] else ZERO_PAGE
  }

  /** The page of the file at which the 32-bit byte offset of a page id lands. */
  function Slot(pid: uint32): nat {
    Mul32(pid, PAGE_SIZE) / PAGE_SIZE
  }

  function WritePage(file: seq<Page>, slot: nat, page: Page): (r: seq<Page>)
    ensures |r| == if slot < |file| then |file| else slot + 1
    ensures r[slot] == page
    ensures forall j | 0 <= j < |r| && j != slot :: r[j] == if j < |file| then file[j] else ZERO_PAGE
  {
    if slot < |file| then file[slot := page]
    else file + seq(slot - |file|, _ => ZERO_PAGE) + [page]
  }

  /** A page id reaches its own page exactly when its offset does not wrap. */
  lemma SlotExact(pid: uint32)
    ensures Slot(pid) == pid <==> pid < OFFSET_LIMIT
  {
    var product := pid * PAGE_SIZE as int;
    if pid < OFFSET_LIMIT {
      assert Mul32(pid, PAGE_SIZE) == product;
    } else {
      assert Mul32(pid, PAGE_SIZE) < TWO_32;
    }
  }

  // ---------- the calls ----------

  predicate Matches(f: Frame, path: string, pid: uint32) {
    f.inUse && f.pageId == pid && f.path == path
  }

  function FindFrom(frames: seq<Frame>, i: nat, path: string, pid: uint32): (r: nat)
    requires i <= |frames|
    ensures i <= r <= |frames|
    ensures forall j | i <= j < r :: !Matches(frames[j], path, pid)
    ensures r < |frames| ==> Matches(frames[r], path, pid)
    decreases |frames| - i
  {
    if i == |frames| || Matches(frames[i], path, pid) then i else FindFrom(frames, i + 1, path, pid)
  }

  /** The frame of a page, or CAPACITY. */
  function Find(c: Cache, path: string, pid: uint32): nat {
    FindFrom(c.frames, 0, path, pid)
  }

  predicate Resident(c: Cache, path: string, pid: uint32) {
    Find(c, path, pid) < CAPACITY
  }

  function Touch(c: Cache, i: nat): Cache
    requires i < CAPACITY
  {
    c.(frames := c.frames[i := c.frames[i].(lastUsed := c.tick + 1)], tick := c.tick + 1)
  }

  function FlushFrame(c: Cache, i: nat): Cache
    requires i < CAPACITY
  {
    var f := c.frames[i];
    if !f.inUse || !f.dirty then c
    else c.(frames := c.frames[i := f.(dirty := false)],
            flushes := c.flushes + 1,
            disk := c.disk[f.path := WritePage(FilePages(c.disk, f.path), Slot(f.pageId), f.page)])
  }

  function FreeFrom(frames: seq<Frame>, i: nat): (r: nat)
    requires i <= |frames|
    ensures i <= r <= |frames|
    ensures forall j | i <= j < r :: frames[j].inUse
    ensures r < |frames| ==> !frames[r].inUse
    decreases |frames| - i
  {
    if i == |frames| || !frames[i].inUse then i else FreeFrom(frames, i + 1)
  }

  /** The first of the least recently used frames among the first n. */
  function OldestOf(frames: seq<Frame>, n: nat): (r: nat)
    requires 0 < n <= |frames|
    ensures r < n
    ensures forall j | 0 <= j < n :: frames[r].lastUsed <= frames[j].lastUsed
    ensures forall j | 0 <= j < r :: frames[r].lastUsed < frames[j].lastUsed
  {
    if n == 1 then 0
    else
      var best := OldestOf(frames, n - 1);
      if frames[n - 1].lastUsed < frames[best].lastUsed then n - 1 else best
  }

  /** A free frame, else the least recently used one after it has been flushed. */
  function ChooseVictim(c: Cache): (r: (nat, Cache))
    ensures r.0 < CAPACITY
  {
    var free := FreeFrom(c.frames, 0);
    if free < CAPACITY then (free, c)
    else
      var oldest := OldestOf(c.frames, CAPACITY);
      (oldest, FlushFrame(c, oldest))
  }

  function Assign(c: Cache, i: nat, path: string, pid: uint32, page: Page, dirty: bool): Cache
    requires i < CAPACITY
  {
    c.(frames := c.frames[i := Frame(true, dirty, c.tick + 1, path, pid, page)], tick := c.tick + 1)
  }

  function Load(c: Cache, path: string, pid: uint32): (r: Lookup)
    ensures r.status == OK ==> r.index < CAPACITY
  {
    var i := Find(c, path, pid);
    if i < CAPACITY then Lookup(OK, i, Touch(c, i).(hits := c.hits + 1))
    else
      var (victim, flushed) := ChooseVictim(c.(misses := c.misses + 1));
      var file := FilePages(flushed.disk, path);
      if Slot(pid) < |file| then
        Lookup(OK, victim, Assign(flushed, victim, path, pid, file[Slot(pid)], false))
      else
        Lookup(FILE_OPEN_FAILED, CAPACITY, flushed)
  }

  function Create(c: Cache, path: string, pid: uint32): (r: Lookup)
    ensures r.status == OK && r.index < CAPACITY
  {
    var i := Find(c, path, pid);
    if i < CAPACITY then
      var t := Touch(c, i);
      Lookup(OK, i, t.(hits := c.hits + 1,
                       frames := t.frames[i := t.frames[i].(page := PageInit(pid), dirty := true)]))
    else
      var (victim, flushed) := ChooseVictim(c.(misses := c.misses + 1));
      Lookup(OK, victim, Assign(flushed, victim, path, pid, PageInit(pid), true))
  }

  function MarkDirty(c: Cache, path: string, pid: uint32): Cache {
    var i := Find(c, path, pid);
    if i < CAPACITY then
      var t := Touch(c, i);
      t.(frames := t.frames[i := t.frames[i].(dirty := true)])
    else c
  }

  function FlushFileFrom(c: Cache, path: string, i: nat): Cache
    requires i <= CAPACITY
    decreases CAPACITY - i
  {
    if i == CAPACITY then c
    else FlushFileFrom(if c.frames[i].inUse && c.frames[i].path == path then FlushFrame(c, i) else c, path, i + 1)
  }

  function FlushFile(c: Cache, path: string): Cache {
    FlushFileFrom(c, path, 0)
  }

  function FlushAllFrom(c: Cache, i: nat): Cache
    requires i <= CAPACITY
    decreases CAPACITY - i
  {
    if i == CAPACITY then c else FlushAllFrom(FlushFrame(c, i), i + 1)
  }

  function FlushAll(c: Cache): Cache {
    FlushAllFrom(c, 0)
  }

  /** The client writes through the page pointer it was handed. */
  function Poke(c: Cache, i: nat, page: Page): Cache
    requires i < CAPACITY
  {
    c.(frames := c.frames[i := c.frames[i].(page := page)])
  }

  function DirtyBefore(c: Cache, n: nat): nat
    requires n <= CAPACITY
  {
    if n == 0 then 0
    else DirtyBefore(c, n - 1) + if c.frames[n - 1].inUse && c.frames[n - 1].dirty then 1 else 0
  }

  /** The number of pages that a flush of everything would write. */
  function DirtyCount(c: Cache): nat {
    DirtyBefore(c, CAPACITY)
  }

  /** What a reader sees at a key: the resident page, else the page on disk. */
  function View(c: Cache, path: string, pid: uint32): Page {
    var i := Find(c, path, pid);
    if i < CAPACITY then c.frames[i].page else DiskPage(c.disk, path, pid)
  }
}
