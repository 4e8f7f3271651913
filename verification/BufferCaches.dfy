/**
 The buffer cache as the object it is: four frames updated in place, each with a page
 that callers may write through.  Every method is proved to compute the function of
 CacheModel that describes it.
 */
module BufferCaches {
  import opened Machine
  import opened Pages
  import opened PageObjects
  import Model = CacheModel

  /** The files of the data directory. */
  class FileSystem {
    var files: Model.Disk

    constructor (files: Model.Disk)
      ensures this.files == files
    {
      this.files := files;
    }

    /**
     Open for update, creating a missing file, seek to the page's offset and write: the page
     stands where the offset lands, and every other page reads as before.
     */
    method WriteAt(path: string, pid: uint32, page: Page)
      modifies this
      ensures forall p, k: nat ::
                Model.DiskPage(files, p, k)
                == if p == path && k == Model.Slot(pid) then page else Model.DiskPage(old(files), p, k)
      ensures forall p | p != path :: p in files <==> p in old(files)
      ensures |Model.FilePages(files, path)| > Model.Slot(pid)
      ensures files == old(files)[path := Model.WritePage(Model.FilePages(old(files), path), Model.Slot(pid), page)]
    {
      files := files[path := Model.WritePage(Model.FilePages(files, path), Model.Slot(pid), page)];
    }

    /** Open for reading, seek to the page's offset and read; a missing file or page is an error. */
    method ReadAt(path: string, pid: uint32, into: DataPage) returns (ok: bool)
      requires into.Valid()
      modifies into, into.payload
      ensures ok <==> Model.Slot(pid) < |Model.FilePages(files, path)|
      ensures into.V() == if ok then Model.FilePages(files, path)[Model.Slot(pid)] else old(into.V())
    {
      var file := Model.FilePages(files, path);
      if |file| <= Model.Slot(pid) {
        return false;
      }
      into.CopyFrom(file[Model.Slot(pid)]);
      return true;
    }
  }

  class BufferFrame {
    var inUse: bool
    var dirty: bool
    var lastUsedTick: nat
    var filePath: string
    var pageId: uint32
    const page: DataPage

    constructor ()
      ensures page.Valid() && V() == Model.EMPTY_FRAME
      ensures fresh(page) && fresh(page.payload)
    {
      inUse, dirty, lastUsedTick, filePath, pageId := false, false, 0, "", 0;
      page := new DataPage();
    }

    function V(): Model.Frame
      requires page.Valid()
      reads this, page, page.payload
    {
      Model.Frame(inUse, dirty, lastUsedTick, filePath, pageId, page.V())
    }

    method SetDirty(b: bool)
      requires page.Valid()
      modifies this
      ensures V() == old(V()).(dirty := b)
    {
      dirty := b;
    }

    method SetTick(t: nat)
      requires page.Valid()
      modifies this
      ensures V() == old(V()).(lastUsed := t)
    {
      lastUsedTick := t;
    }

    method Assign(path: string, pid: uint32, t: nat)
      requires page.Valid()
      modifies this
      ensures V() == Model.Frame(true, false, t, path, pid, old(V()).page)
    {
      inUse := true;
      dirty := false;
      pageId := pid;
      lastUsedTick := t;
      filePath := path;
    }
  }

  class BufferCache {
    const frames: seq<BufferFrame>
    const disk: FileSystem
    var tick: nat
    var hitCount: nat
    var missCount: nat
    var flushCount: nat

    constructor (disk: FileSystem)
      ensures Valid() && this.disk == disk && V() == Model.Init(disk.files)
      ensures fresh(Repr() - {disk})
    {
      hide BufferFrame.V, DataPage.V, V, FrameRepr, Repr, Model.Init;
      var f0 := new BufferFrame();
      var f1 := new BufferFrame();
      var f2 := new BufferFrame();
      var f3 := new BufferFrame();
      frames := [f0, f1, f2, f3];
      this.disk := disk;
      tick, hitCount, missCount, flushCount := 0, 0, 0, 0;
      new;
      FreshFrames(f0, f1, f2, f3);
    }

    /** Four frames that hold nothing are the cache's initial frames. */
    lemma FreshFrames(f0: BufferFrame, f1: BufferFrame, f2: BufferFrame, f3: BufferFrame)
      requires Valid() && frames == [f0, f1, f2, f3] && tick == hitCount == missCount == flushCount == 0
      requires forall i | 0 <= i < Model.CAPACITY :: frames[i].V() == Model.EMPTY_FRAME
      ensures V() == Model.Init(disk.files)
      ensures Repr() == {this, disk, f0, f0.page, f0.page.payload, f1, f1.page, f1.page.payload,
                         f2, f2.page, f2.page.payload, f3, f3.page, f3.page.payload}
    {
      hide BufferFrame.V;
    }

    /** Four frames, whose pages and payloads are all different objects. */
    ghost predicate Valid() {
      && |frames| == Model.CAPACITY
      && (forall i | 0 <= i < Model.CAPACITY :: frames[i].page.Valid())
      && (forall i, j | 0 <= i < j < Model.CAPACITY ::
            frames[i] != frames[j] && frames[i].page != frames[j].page
            && frames[i].page.payload != frames[j].page.payload)
    }

    ghost function FrameRepr(i: nat): set<object>
      requires i < |frames|
    {
      {frames[i], frames[i].page, frames[i].page.payload}
    }

    ghost function Repr(): set<object>
      requires Valid()
    {
      {this, disk} + FrameRepr(0) + FrameRepr(1) + FrameRepr(2) + FrameRepr(3)
    }

    ghost function V(): Model.Cache
      requires Valid()
      reads Repr()
    {
      Model.RawCache([frames[0].V(), frames[1].V(), frames[2].V(), frames[3].V()],
                     tick, hitCount, missCount, flushCount, disk.files)
    }

    lemma FrameFields(i: nat)
      requires Valid() && i < Model.CAPACITY
      ensures V().frames[i] == frames[i].V()
           == Model.Frame(frames[i].inUse, frames[i].dirty, frames[i].lastUsedTick, frames[i].filePath,
                          frames[i].pageId, frames[i].page.V())
    {
    }

    /** Write back a dirty frame. */
    method FlushFrame(i: nat)
      requires Valid() && i < Model.CAPACITY
      modifies Repr()
      ensures V() == Model.FlushFrame(old(V()), i)
    {
      hide Model.WritePage, Model.Slot, Model.FilePages, BufferFrame.V, DataPage.V;
      var frame := frames[i];
      FrameFields(i);
      if !frame.inUse || !frame.dirty {
        return;
      }
      disk.WriteAt(frame.filePath, frame.pageId, frame.page.V());
      frame.SetDirty(false);
      flushCount := flushCount + 1;
      assert V().frames == Model.FlushFrame(old(V()), i).frames;
    }

    /** Renew the tick of a frame. */
    method TouchFrame(i: nat)
      requires Valid() && i < Model.CAPACITY
      modifies Repr()
      ensures V() == Model.Touch(old(V()), i)
    {
      hide BufferFrame.V;
      assert frames[i].V() == V().frames[i];
      tick := tick + 1;
      frames[i].SetTick(tick);
      assert V().frames == Model.Touch(old(V()), i).frames;
    }

    /** The frame that holds a page, whose tick is renewed; CAPACITY if there is none. */
    method FindFrame(path: string, pid: uint32) returns (index: nat)
      requires Valid()
      modifies Repr()
      ensures index == Model.Find(old(V()), path, pid)
      ensures V() == if index < Model.CAPACITY then Model.Touch(old(V()), index) else old(V())
    {
      index := 0;
      while index < Model.CAPACITY
        invariant index <= Model.CAPACITY
        invariant V() == old(V())
        invariant forall j | 0 <= j < index :: !Model.Matches(old(V()).frames[j], path, pid)
      {
        assert frames[index].V() == V().frames[index];
        if frames[index].inUse && frames[index].pageId == pid && frames[index].filePath == path {
          TouchFrame(index);
          return;
        }
        index := index + 1;
      }
    }

    /** The first frame that is not in use; CAPACITY if there is none. */
    method FreeFrame() returns (index: nat)
      requires Valid()
      ensures index == Model.FreeFrom(V().frames, 0)
    {
      index := 0;
      while index < Model.CAPACITY
        invariant index <= Model.CAPACITY
        invariant forall j | 0 <= j < index :: V().frames[j].inUse
      {
        assert frames[index].V() == V().frames[index];
        if !frames[index].inUse {
          return;
        }
        index := index + 1;
      }
    }

    method OldestFrame() returns (victim: nat)
      requires Valid()
      ensures victim == Model.OldestOf(V().frames, Model.CAPACITY)
    {
      victim := 0;
      var index := 1;
      while index < Model.CAPACITY
        invariant 1 <= index <= Model.CAPACITY && victim < index
        invariant victim == Model.OldestOf(V().frames, index)
      {
        assert frames[index].V() == V().frames[index] && frames[victim].V() == V().frames[victim];
        if frames[index].lastUsedTick < frames[victim].lastUsedTick {
          victim := index;
        }
        index := index + 1;
      }
    }

    /** A free frame, else the least recently used one, written back first. */
    method ChooseVictim() returns (index: nat)
      requires Valid()
      modifies Repr()
      ensures (index, V()) == Model.ChooseVictim(old(V()))
    {
      index := FreeFrame();
      if index == Model.CAPACITY {
        index := OldestFrame();
        FlushFrame(index);
      }
    }

    /** Give a frame, whose page is already in place, to a new key. */
    method AssignFrame(i: nat, path: string, pid: uint32)
      requires Valid() && i < Model.CAPACITY
      modifies Repr()
      ensures V() == Model.Assign(old(V()), i, path, pid, old(V()).frames[i].page, false)
    {
      hide BufferFrame.V;
      assert frames[i].V() == V().frames[i];
      tick := tick + 1;
      frames[i].Assign(path, pid, tick);
      assert V().frames == Model.Assign(old(V()), i, path, pid, old(V()).frames[i].page, false).frames;
    }

    /** A page written in place by its owner shows in the frame that holds it. */
    lemma PageOfFrame(i: nat)
      requires Valid() && i < Model.CAPACITY
      ensures V().frames[i] == frames[i].V() && frames[i].page.V() == V().frames[i].page
    {
    }

    /** Read a page from its file into a frame that has been freed for it. */
    method ReadInto(i: nat, path: string, pid: uint32) returns (ok: bool)
      requires Valid() && i < Model.CAPACITY
      modifies Repr()
      ensures ok <==> Model.Slot(pid) < |Model.FilePages(old(V()).disk, path)|
      ensures V() == if ok then Model.Poke(old(V()), i, Model.FilePages(old(V()).disk, path)[Model.Slot(pid)])
                     else old(V())
    {
      hide Model.Slot, Model.FilePages, DataPage.V;
      ok := disk.ReadAt(path, pid, frames[i].page);
      PageOfFrame(i);
      assert V().frames
          == if ok then old(V()).frames[i := old(V()).frames[i].(page := frames[i].page.V())] else old(V()).frames;
    }

    method CountHit()
      requires Valid()
      modifies Repr()
      ensures V() == old(V()).(hits := old(V()).hits + 1)
    {
      hide BufferFrame.V;
      hitCount := hitCount + 1;
    }

    method CountMiss()
      requires Valid()
      modifies Repr()
      ensures V() == old(V()).(misses := old(V()).misses + 1)
    {
      hide BufferFrame.V;
      missCount := missCount + 1;
    }

    /** Count a miss and free a frame for it. */
    method FreeForMiss() returns (index: nat)
      requires Valid()
      modifies Repr()
      ensures (index, V()) == Model.ChooseVictim(old(V()).(misses := old(V()).misses + 1))
    {
      hide V, Repr, Model.ChooseVictim;
      CountMiss();
      index := ChooseVictim();
    }

    /**
     The page of a key, from the cache or else from its file.  The page object belongs to
     a frame; it is the caller's to write through.
     */
    method LoadPage(path: string, pid: uint32) returns (status: Model.Status, index: nat, page: DataPage?)
      requires Valid()
      modifies Repr()
      ensures Model.Lookup(status, index, V()) == Model.Load(old(V()), path, pid)
      ensures status == Model.OK ==> index < Model.CAPACITY && page == frames[index].page
    {
      hide V, Repr, Model.Slot, Model.FilePages, Model.ChooseVictim, Model.Find, Model.Assign;
      index := FindFrame(path, pid);
      if index < Model.CAPACITY {
        CountHit();
        return Model.OK, index, frames[index].page;
      }
      index := FreeForMiss();
      ghost var flushed := V();
      var ok := ReadInto(index, path, pid);
      if !ok {
        return Model.FILE_OPEN_FAILED, Model.CAPACITY, null;
      }
      AssignFrame(index, path, pid);
      AssignAfterPoke(flushed, index, Model.FilePages(flushed.disk, path)[Model.Slot(pid)], path, pid);
      return Model.OK, index, frames[index].page;
    }

    /** A new empty page, dirty from the start. */
    method CreatePage(path: string, pid: uint32) returns (status: Model.Status, index: nat, page: DataPage?)
      requires Valid()
      modifies Repr()
      ensures Model.Lookup(status, index, V()) == Model.Create(old(V()), path, pid)
      ensures index < Model.CAPACITY && page == frames[index].page
    {
      hide V, Repr, Model.ChooseVictim, Model.Find;
      index := FindFrame(path, pid);
      if index < Model.CAPACITY {
        CountHit();
        InitDirty(index, pid);
        return Model.OK, index, frames[index].page;
      }
      index := FreeForMiss();
      AssignFrame(index, path, pid);
      InitDirty(index, pid);
      return Model.OK, index, frames[index].page;
    }

    method InitDirty(i: nat, pid: uint32)
      requires Valid() && i < Model.CAPACITY
      modifies Repr()
      ensures V() ==
              old(V()).(frames := old(V()).frames[i := old(V()).frames[i].(page := PageInit(pid), dirty := true)])
    {
      hide PageInit;
      PageOfFrame(i);
      frames[i].page.Init(pid);
      PageOfFrame(i);
      hide BufferFrame.V;
      frames[i].SetDirty(true);
      PageOfFrame(i);
      assert V().frames == old(V()).frames[i := old(V()).frames[i].(page := PageInit(pid), dirty := true)];
    }

    method MarkDirty(path: string, pid: uint32)
      requires Valid()
      modifies Repr()
      ensures V() == Model.MarkDirty(old(V()), path, pid)
    {
      hide BufferFrame.V, Model.Find;
      var index := FindFrame(path, pid);
      if index < Model.CAPACITY {
        label touched:
        PageOfFrame(index);
        frames[index].SetDirty(true);
        PageOfFrame(index);
        assert V().frames == old@touched(V()).frames[index := old@touched(V()).frames[index].(dirty := true)];
      }
    }

    /** Write back the dirty pages of one file. */
    method FlushFile(path: string)
      requires Valid()
      modifies Repr()
      ensures V() == Model.FlushFile(old(V()), path)
    {
      var index := 0;
      while index < Model.CAPACITY
        invariant index <= Model.CAPACITY
        invariant Model.FlushFileFrom(V(), path, index) == Model.FlushFile(old(V()), path)
      {
        PageOfFrame(index);
        if frames[index].inUse && frames[index].filePath == path {
          FlushFrame(index);
        }
        index := index + 1;
      }
    }

    /** Write back all dirty pages. */
    method FlushAll()
      requires Valid()
      modifies Repr()
      ensures V() == Model.FlushAll(old(V()))
    {
      var index := 0;
      while index < Model.CAPACITY
        invariant index <= Model.CAPACITY
        invariant Model.FlushAllFrom(V(), index) == Model.FlushAll(old(V()))
      {
        FlushFrame(index);
        index := index + 1;
      }
    }

    /** The counters, and how many pages a flush of everything would write. */
    method GetStats() returns (hits: nat, misses: nat, dirtyPages: nat, flushes: nat)
      requires Valid()
      ensures hits == V().hits && misses == V().misses && flushes == V().flushes
      ensures dirtyPages == Model.DirtyCount(V())
    {
      dirtyPages := 0;
      var index := 0;
      while index < Model.CAPACITY
        invariant index <= Model.CAPACITY
        invariant dirtyPages == Model.DirtyBefore(V(), index)
      {
        PageOfFrame(index);
        if frames[index].inUse && frames[index].dirty {
          dirtyPages := dirtyPages + 1;
        }
        index := index + 1;
      }
      hits, misses, flushes := hitCount, missCount, flushCount;
    }
  }

  lemma AssignAfterPoke(c: Model.Cache, i: nat, page: Page, path: string, pid: uint32)
    requires i < Model.CAPACITY
    ensures Model.Assign(Model.Poke(c, i, page), i, path, pid, page, false)
           == Model.Assign(c, i, path, pid, page, false)
  {
  }
}
