/**
 The replacement policy is true LRU: over any run, the resident pages are exactly the
 at most four most recently touched ones.
 */
module Lru {
  import opened Machine
  import opened Pages
  import opened CacheModel
  import opened CacheCoherence

  datatype Key = Key(path: string, pid: uint32)

  function KeyOf(f: Frame): Key {
    Key(f.path, f.pageId)
  }

  /** The keys a call touches: every successful load or creation, and marking a resident page dirty. */
  function Touched(c: Cache, op: CacheOp): seq<Key> {
    match op
    case OpLoad(path, pid) => if Load(c, path, pid).status == OK then [Key(path, pid)] else []
    case OpCreate(path, pid) => [Key(path, pid)]
    case OpWrite(path, pid, _) => if Load(c, path, pid).status == OK then [Key(path, pid), Key(path, pid)] else []
    case OpMarkDirty(path, pid) => if Resident(c, path, pid) then [Key(path, pid)] else []
    case OpFlushFile(_) => []
    case OpFlushAll => []
  }

  function Trace(c: Cache, ops: seq<CacheOp>): seq<Key> {
    if ops == [] then []
    else
      var init := ops[..|ops| - 1];
      Trace(c, init) + Touched(Run(c, init), ops[|ops| - 1])
  }

  /** When a key was last touched, counting from 1; 0 for never. */
  function Last(trace: seq<Key>, k: Key): (n: nat)
    ensures n <= |trace|
    ensures n > 0 <==> k in trace
    ensures n > 0 ==> trace[n - 1] == k
    ensures forall j | n <= j < |trace| :: trace[j] != k
  {
    if trace == [] then 0
    else if trace[|trace| - 1] == k then |trace|
    else Last(trace[..|trace| - 1], k)
  }

  /** The distinct other keys touched since a key was last touched. */
  function Since(trace: seq<Key>, k: Key): set<Key> {
    set j | Last(trace, k) <= j < |trace| :: trace[j]
  }

  /** If the key is not resident, four others were touched after it. */
  ghost predicate OutsideIsOlder(c: Cache, trace: seq<Key>, k: Key) {
    Last(trace, k) > 0 && !Resident(c, k.path, k.pid) ==>
      forall i | 0 <= i < CAPACITY :: c.frames[i].inUse && Last(trace, k) < c.frames[i].lastUsed
  }

  ghost predicate TickIsLast(f: Frame, trace: seq<Key>) {
    f.inUse ==> 0 < f.lastUsed == Last(trace, KeyOf(f))
  }

  /** Ticks are the times of the last touches, and no key outside the cache was touched as recently as one inside. */
  ghost predicate TrueLru(c: Cache, trace: seq<Key>) {
    && c.tick == |trace|
    && UniqueKeys(c)
    && (forall i | 0 <= i < CAPACITY :: TickIsLast(c.frames[i], trace))
    && (forall k: Key :: OutsideIsOlder(c, trace, k))
  }

  /** The bookkeeping fields are those of another frame with the same key. */
  ghost predicate SameKey(f: Frame, g: Frame) {
    f.inUse == g.inUse && f.path == g.path && f.pageId == g.pageId
  }

  /** A change that leaves keys and ticks alone. */
  lemma LruIgnoresPages(c: Cache, d: Cache, trace: seq<Key>)
    requires TrueLru(c, trace) && d.tick == c.tick
    requires forall i | 0 <= i < CAPACITY ::
               SameKey(d.frames[i], c.frames[i]) && d.frames[i].lastUsed == c.frames[i].lastUsed
    ensures TrueLru(d, trace)
  {
    forall k: Key ensures OutsideIsOlder(d, trace, k) {
      assert OutsideIsOlder(c, trace, k);
      FindSame(c, d, k.path, k.pid);
    }
    forall i | 0 <= i < CAPACITY ensures TickIsLast(d.frames[i], trace) {
      assert TickIsLast(c.frames[i], trace);
    }
  }

  lemma LruHit(c: Cache, d: Cache, i: nat, trace: seq<Key>)
    requires TrueLru(c, trace) && i < CAPACITY && c.frames[i].inUse
    requires d.tick == c.tick + 1 && d.frames[i].lastUsed == d.tick
    requires forall j | 0 <= j < CAPACITY ::
               SameKey(d.frames[j], c.frames[j]) && (j != i ==> d.frames[j].lastUsed == c.frames[j].lastUsed)
    ensures TrueLru(d, trace + [KeyOf(c.frames[i])])
  {
    var x := KeyOf(c.frames[i]);
    assert UniqueKeys(d);
    FindUnique(d, i, x.path, x.pid);
    forall k: Key ensures OutsideIsOlder(d, trace + [x], k) {
      assert OutsideIsOlder(c, trace, k);
      FindSame(c, d, k.path, k.pid);
    }
    forall j | 0 <= j < CAPACITY ensures TickIsLast(d.frames[j], trace + [x]) {
      assert TickIsLast(c.frames[j], trace);
    }
  }

  /** Frame i is free, or the oldest of four. */
  ghost predicate IsVictim(c: Cache, i: nat) {
    && i < CAPACITY
    && (!c.frames[i].inUse
        || (forall j | 0 <= j < CAPACITY :: c.frames[j].inUse && c.frames[i].lastUsed <= c.frames[j].lastUsed))
  }

  /** The victim is given to a key that was not resident. */
  ghost predicate Replaced(c: Cache, d: Cache, i: nat) {
    && IsVictim(c, i)
    && d.tick == c.tick + 1 && d.frames[i].inUse && d.frames[i].lastUsed == d.tick
    && (forall j | 0 <= j < CAPACITY && j != i :: d.frames[j] == c.frames[j])
    && !Resident(c, d.frames[i].path, d.frames[i].pageId)
  }

  lemma FindFirst(c: Cache, i: nat, k: Key)
    requires i < CAPACITY && c.frames[i].inUse && KeyOf(c.frames[i]) == k
    ensures Resident(c, k.path, k.pid)
  {
    assert Matches(c.frames[i], k.path, k.pid);
  }

  lemma LastDistinct(trace: seq<Key>, a: Key, b: Key)
    requires a != b && Last(trace, a) > 0
    ensures Last(trace, a) != Last(trace, b)
  {
  }

  lemma MissOutsideIsOlder(c: Cache, d: Cache, i: nat, k: Key, trace: seq<Key>)
    requires TrueLru(c, trace) && Replaced(c, d, i)
    requires Last(trace, k) > 0 && !Resident(d, k.path, k.pid)
    ensures forall j | 0 <= j < CAPACITY :: d.frames[j].inUse && Last(trace, k) < d.frames[j].lastUsed
  {
    assert OutsideIsOlder(c, trace, k);
    forall j | 0 <= j < CAPACITY ensures d.frames[j].inUse && Last(trace, k) < d.frames[j].lastUsed {
      if Resident(c, k.path, k.pid) && j != i {
        assert TickIsLast(c.frames[i], trace) && TickIsLast(c.frames[j], trace);
        LastDistinct(trace, k, KeyOf(c.frames[j]));
      }
    }
  }

  lemma LruMiss(c: Cache, d: Cache, i: nat, trace: seq<Key>)
    requires TrueLru(c, trace) && Replaced(c, d, i)
    ensures TrueLru(d, trace + [KeyOf(d.frames[i])])
  {
    var x := KeyOf(d.frames[i]);
    forall j | 0 <= j < CAPACITY && j != i && c.frames[j].inUse ensures KeyOf(c.frames[j]) != x {
      if KeyOf(c.frames[j]) == x { FindFirst(c, j, x); }
    }
    assert UniqueKeys(d);
    FindUnique(d, i, x.path, x.pid);
    forall k: Key ensures OutsideIsOlder(d, trace + [x], k) {
      if Last(trace, k) > 0 && !Resident(d, k.path, k.pid) {
        MissOutsideIsOlder(c, d, i, k, trace);
      }
    }
    forall j | 0 <= j < CAPACITY ensures TickIsLast(d.frames[j], trace + [x]) {
      assert TickIsLast(c.frames[j], trace);
    }
  }

  /** After a miss has chosen and flushed its victim. */
  function AfterVictim(c: Cache): (nat, Cache) {
    ChooseVictim(c.(misses := c.misses + 1))
  }

  lemma VictimLru(c: Cache, path: string, pid: uint32, trace: seq<Key>)
    requires TrueLru(c, trace) && !Resident(c, path, pid)
    ensures var (v, d) := AfterVictim(c);
            TrueLru(d, trace) && IsVictim(d, v) && !Resident(d, path, pid)
  {
    var (v, d) := AfterVictim(c);
    LruIgnoresPages(c, d, trace);
    FindSame(c, d, path, pid);
  }

  lemma LoadLru(c: Cache, path: string, pid: uint32, trace: seq<Key>)
    requires TrueLru(c, trace)
    ensures TrueLru(Load(c, path, pid).cache, trace + Touched(c, OpLoad(path, pid)))
  {
    hide FindFrom, FlushFrame, OldestOf, FreeFrom, Last, FilePages, Slot;
    var i, r := Find(c, path, pid), Load(c, path, pid);
    if i < CAPACITY {
      LruHit(c, r.cache, i, trace);
    } else {
      VictimLru(c, path, pid, trace);
      if r.status == OK {
        LruMiss(AfterVictim(c).1, r.cache, r.index, trace);
      } else {
        assert trace + [] == trace;
      }
    }
  }

  lemma CreateLru(c: Cache, path: string, pid: uint32, trace: seq<Key>)
    requires TrueLru(c, trace)
    ensures TrueLru(Create(c, path, pid).cache, trace + [Key(path, pid)])
  {
    var i, r := Find(c, path, pid), Create(c, path, pid);
    if i < CAPACITY {
      LruHit(c, r.cache, i, trace);
    } else {
      VictimLru(c, path, pid, trace);
      LruMiss(AfterVictim(c).1, r.cache, r.index, trace);
    }
  }

  lemma MarkDirtyLru(c: Cache, path: string, pid: uint32, trace: seq<Key>)
    requires TrueLru(c, trace)
    ensures TrueLru(MarkDirty(c, path, pid), trace + if Resident(c, path, pid) then [Key(path, pid)] else [])
  {
    var i := Find(c, path, pid);
    if i < CAPACITY {
      LruHit(c, MarkDirty(c, path, pid), i, trace);
    } else {
      assert trace + [] == trace;
    }
  }

  lemma {:induction false} FlushFileKeepsKeys(c: Cache, path: string, i: nat)
    requires i <= CAPACITY
    ensures var d := FlushFileFrom(c, path, i);
            && d.tick == c.tick && d.hits == c.hits && d.misses == c.misses
            && (forall j | 0 <= j < CAPACITY ::
                  SameKey(d.frames[j], c.frames[j]) && d.frames[j].lastUsed == c.frames[j].lastUsed)
    decreases CAPACITY - i
  {
    if i < CAPACITY {
      FlushFileKeepsKeys(if c.frames[i].inUse && c.frames[i].path == path then FlushFrame(c, i) else c, path, i + 1);
    }
  }

  lemma {:induction false} FlushAllKeepsKeys(c: Cache, i: nat)
    requires i <= CAPACITY
    ensures var d := FlushAllFrom(c, i);
            && d.tick == c.tick && d.hits == c.hits && d.misses == c.misses
            && (forall j | 0 <= j < CAPACITY ::
                  SameKey(d.frames[j], c.frames[j]) && d.frames[j].lastUsed == c.frames[j].lastUsed)
    decreases CAPACITY - i
  {
    if i < CAPACITY {
      FlushAllKeepsKeys(FlushFrame(c, i), i + 1);
    }
  }

  lemma WriteLru(c: Cache, path: string, pid: uint32, page: Page, trace: seq<Key>)
    requires TrueLru(c, trace) && Load(c, path, pid).status == OK
    ensures var r := Load(c, path, pid);
            TrueLru(Write(r.cache, r.index, page), trace + [Key(path, pid), Key(path, pid)])
  {
    hide TrueLru;
    var r, k := Load(c, path, pid), Key(path, pid);
    LoadLru(c, path, pid, trace);
    var p := Poke(r.cache, r.index, page);
    LruIgnoresPages(r.cache, p, trace + [k]);
    FindFirst(p, r.index, k);
    MarkDirtyLru(p, path, pid, trace + [k]);
    assert trace + [k] + [k] == trace + [k, k];
  }

  lemma StepLru(c: Cache, op: CacheOp, trace: seq<Key>)
    requires TrueLru(c, trace)
    ensures TrueLru(Step(c, op), trace + Touched(c, op))
  {
    match op
    case OpLoad(path, pid) => LoadLru(c, path, pid, trace);
    case OpCreate(path, pid) => CreateLru(c, path, pid, trace);
    case OpWrite(path, pid, page) =>
      if Load(c, path, pid).status == OK {
        WriteLru(c, path, pid, page, trace);
      } else {
        LoadLru(c, path, pid, trace);
      }
    case OpMarkDirty(path, pid) => MarkDirtyLru(c, path, pid, trace);
    case OpFlushFile(path) =>
      FlushFileKeepsKeys(c, path, 0);
      LruIgnoresPages(c, Step(c, op), trace);
      assert trace + [] == trace;
    case OpFlushAll =>
      FlushAllKeepsKeys(c, 0);
      LruIgnoresPages(c, Step(c, op), trace);
      assert trace + [] == trace;
  }

  lemma {:induction false} RunLru(disk: Disk, ops: seq<CacheOp>)
    ensures TrueLru(Run(Init(disk), ops), Trace(Init(disk), ops))
  {
    if ops != [] {
      var init := ops[..|ops| - 1];
      RunLru(disk, init);
      StepLru(Run(Init(disk), init), ops[|ops| - 1], Trace(Init(disk), init));
    }
  }

  // ---------- what this means for hits ----------

  lemma ResidentSinceFew(c: Cache, trace: seq<Key>, i: nat)
    requires TrueLru(c, trace) && i < CAPACITY && c.frames[i].inUse
    ensures |Since(trace, KeyOf(c.frames[i]))| <= 3
  {
    hide FindFrom, Last;
    var k := KeyOf(c.frames[i]);
    var others := {KeyOf(c.frames[(i + 1) % 4]), KeyOf(c.frames[(i + 2) % 4]), KeyOf(c.frames[(i + 3) % 4])};
    assert TickIsLast(c.frames[i], trace);
    forall x | x in Since(trace, k) ensures x in others {
      assert OutsideIsOlder(c, trace, x);
      var r := Find(c, x.path, x.pid);
      assert r < CAPACITY && KeyOf(c.frames[r]) == x;
      assert r == (i + 1) % 4 || r == (i + 2) % 4 || r == (i + 3) % 4;
    }
    SubsetSize(Since(trace, k), others);
  }

  lemma {:induction false} SubsetSize<T>(a: set<T>, b: set<T>)
    requires a <= b
    ensures |a| <= |b|
  {
    if a != {} {
      var x :| x in a;
      SubsetSize(a - {x}, b - {x});
    }
  }

  lemma OutsideSinceMany(c: Cache, trace: seq<Key>, k: Key)
    requires TrueLru(c, trace) && k in trace && !Resident(c, k.path, k.pid)
    ensures |Since(trace, k)| > 3
  {
    assert OutsideIsOlder(c, trace, k);
    var residents := {KeyOf(c.frames[0]), KeyOf(c.frames[1]), KeyOf(c.frames[2]), KeyOf(c.frames[3])};
    forall i | 0 <= i < CAPACITY ensures KeyOf(c.frames[i]) in Since(trace, k) {
      assert TickIsLast(c.frames[i], trace);
    }
    assert |residents| == 4;
    SubsetSize(residents, Since(trace, k));
  }

  /**
   True LRU over whole runs: a page is resident, and so its next load or creation is a
   hit, exactly when it was touched and at most three other pages were touched since.
   */
  lemma ResidentExactly(disk: Disk, ops: seq<CacheOp>, k: Key)
    ensures var c, trace := Run(Init(disk), ops), Trace(Init(disk), ops);
            Resident(c, k.path, k.pid) <==> k in trace && |Since(trace, k)| <= 3
  {
    var c, trace := Run(Init(disk), ops), Trace(Init(disk), ops);
    RunLru(disk, ops);
    var i := Find(c, k.path, k.pid);
    if i < CAPACITY {
      ResidentSinceFew(c, trace, i);
      assert TickIsLast(c.frames[i], trace);
    } else if k in trace {
      OutsideSinceMany(c, trace, k);
    }
  }

  /** In-use frames have pairwise different ticks. */
  lemma TicksDistinct(disk: Disk, ops: seq<CacheOp>, i: nat, j: nat)
    requires i < j < CAPACITY
    requires var c := Run(Init(disk), ops); c.frames[i].inUse && c.frames[j].inUse
    ensures var c := Run(Init(disk), ops); c.frames[i].lastUsed != c.frames[j].lastUsed
  {
    RunLru(disk, ops);
    var c, trace := Run(Init(disk), ops), Trace(Init(disk), ops);
    assert TickIsLast(c.frames[i], trace) && TickIsLast(c.frames[j], trace);
    LastDistinct(trace, KeyOf(c.frames[i]), KeyOf(c.frames[j]));
  }

  /** The load and creation calls of a run; a write begins with a load. */
  function Lookups(ops: seq<CacheOp>): nat {
    if ops == [] then 0
    else
      var last := ops[|ops| - 1];
      Lookups(ops[..|ops| - 1]) + if last.OpLoad? || last.OpCreate? || last.OpWrite? then 1 else 0
  }

  lemma VictimCounts(c: Cache)
    ensures var d := ChooseVictim(c).1; d.hits == c.hits && d.misses == c.misses
  {
    hide FreeFrom, OldestOf, WritePage;
  }

  lemma StepCounts(c: Cache, op: CacheOp)
    ensures var d := Step(c, op);
            d.hits + d.misses == c.hits + c.misses + (if op.OpLoad? || op.OpCreate? || op.OpWrite? then 1 else 0)
    ensures op.OpLoad? || op.OpCreate? || op.OpWrite?
            ==> (Step(c, op).hits == c.hits + 1 <==> Resident(c, op.path, op.pid))
  {
    hide Find, PageInit, WritePage, Slot, ChooseVictim;
    VictimCounts(c.(misses := c.misses + 1));
    match op
    case OpLoad(_, _) =>
    case OpCreate(_, _) =>
    case OpWrite(_, _, _) =>
    case OpMarkDirty(_, _) =>
    case OpFlushFile(path) => FlushFileKeepsKeys(c, path, 0);
    case OpFlushAll => FlushAllKeepsKeys(c, 0);
  }

  /** Hits and misses together count every load and creation. */
  lemma {:induction false} CountersAddUp(disk: Disk, ops: seq<CacheOp>)
    ensures var c := Run(Init(disk), ops); c.hits + c.misses == Lookups(ops)
  {
    if ops != [] {
      CountersAddUp(disk, ops[..|ops| - 1]);
      StepCounts(Run(Init(disk), ops[..|ops| - 1]), ops[|ops| - 1]);
    }
  }
}
