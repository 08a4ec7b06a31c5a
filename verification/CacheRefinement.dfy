/**
 The cache behaves like the plain array of blocks it speeds up.
 The plain machine has the array, how often each block is pinned, and the blocks a client has
 stored into without saying so yet; a client is legal when it releases only what it acquired
 and never drops the last pin of a block it has stored into without marking it dirty.
 */
module CacheRefinement {
  import opened Blocks
  import opened CacheSpec
  import opened CacheShape

  datatype Op =
    | Acquire(block: nat)
    | Store(block: nat, data: Block)
    | MarkDirty(block: nat)
    | Release(block: nat, flags: nat)
    | Write(block: nat, data: Block)
    | Read(block: nat)
    | Sync

  // ---------------------------------------------------------------- the plain block array

  datatype Plain = Plain(arr: seq<Block>, pins: seq<nat>, unmarked: set<nat>)

  predicate PlainOk(a: Plain) {
    && |a.pins| == |a.arr|
    && forall b :: b in a.unmarked ==> b < |a.arr| && a.pins[b] > 0
  }

  predicate Legal(a: Plain, op: Op)
    requires PlainOk(a)
  {
    match op
    case Sync => true
    case MarkDirty(b) => true
    case Acquire(b) => b < |a.arr|
    case Read(b) => b < |a.arr|
    case Write(b, _) => b < |a.arr|
    case Store(b, _) => b < |a.arr| && a.pins[b] > 0
    case Release(b, flags) =>
      b < |a.arr| && a.pins[b] > 0 && (a.pins[b] == 1 && !DirtyFlag(flags) ==> b !in a.unmarked)
  }

  function PlainStep(a: Plain, op: Op): (r: Plain)
    requires PlainOk(a) && Legal(a, op)
    ensures PlainOk(r) && |r.arr| == |a.arr|
  {
    match op
    case Sync => a
    case Read(b) => a
    case Acquire(b) => a.(pins := a.pins[b := a.pins[b] + 1])
    case MarkDirty(b) => a.(unmarked := a.unmarked - {b})
    case Store(b, data) => a.(arr := a.arr[b := data], unmarked := a.unmarked + {b})
    case Write(b, data) => a.(arr := a.arr[b := data], unmarked := a.unmarked - {b})
    case Release(b, flags) =>
      a.(pins := a.pins[b := a.pins[b] - 1], unmarked := if DirtyFlag(flags) then a.unmarked - {b} else a.unmarked)
  }

  /** What a client sees: the block that read copies out. */
  function PlainOutput(a: Plain, op: Op): Option<Block>
    requires PlainOk(a) && Legal(a, op)
  {
    if op.Read? then Some(a.arr[op.block]) else None
  }

  // ---------------------------------------------------------------- the cache as a machine

  /** The code has a defined effect: blocks are on the device and counts do not go below zero. */
  predicate Defined(c: Cache, op: Op)
    requires Shape(c)
  {
    match op
    case Sync => true
    case MarkDirty(b) => true
    case Acquire(b) => b < |c.disk|
    case Read(b) => b < |c.disk|
    case Write(b, _) => b < |c.disk|
    case Store(b, _) => b in c.table
    case Release(b, _) => CanRelease(c, b)
  }

  function CacheStep(c: Cache, op: Op): (r: Cache)
    requires Shape(c)
    ensures Shape(r) && |r.disk| == |c.disk|
  {
    if !Defined(c, op) then c
    else
      match op
      case Sync => SyncShape(c, 0); CacheSpec.Sync(c)
      case MarkDirty(b) => SameShape(c, CacheSpec.MarkDirty(c, b)); CacheSpec.MarkDirty(c, b)
      case Acquire(b) => AcquireShape(c, b); CacheSpec.Acquire(c, b)
      case Write(b, data) => WriteShape(c, b, data); CacheSpec.Write(c, b, data)
      case Store(b, data) => SameShape(c, CacheSpec.Store(c, c.table[b], data)); CacheSpec.Store(c, c.table[b], data)
      case Release(b, flags) => ReleaseShape(c, b, flags); CacheSpec.Release(c, b, flags)
      case Read(b) => ReadThrough(c, b).0
  }

  function CacheOutput(c: Cache, op: Op): Option<Block>
    requires Shape(c)
  {
    if op.Read? && Defined(c, op) then
      Some(ReadThrough(c, op.block).1)
    else None
  }

  // ---------------------------------------------------------------- the relation

  /** The hashed buffer if the block is cached, else the device block. */
  function View(c: Cache, b: nat): Block
    requires Shape(c) && b < |c.disk|
  {
    if b in c.table then c.pool[c.table[b]].buffer else c.disk[b]
  }

  function Pins(c: Cache, b: nat): nat
    requires Shape(c)
  {
    if b in c.table then c.pool[c.table[b]].count else 0
  }

  /** An entry that has never been used since the pool was made. */
  predicate Fresh(c: Cache, i: nat) {
    i < |c.pool| && !Hashed(c, i)
  }

  ghost predicate FreshOk(c: Cache) {
    && (forall i: nat :: Fresh(c, i) ==> c.pool[i].count == 0 && !c.pool[i].dirty && 0 !in c.table)
    && (forall i: nat, j: nat :: Fresh(c, i) && Hashed(c, j) && c.pool[j].count == 0 ==>
      c.pool[i].since < c.pool[j].since)
  }

  ghost predicate Rel(c: Cache, a: Plain) {
    && Shape(c) && PlainOk(a) && |a.arr| == |c.disk|
    && (forall b :: 0 <= b < |c.disk| ==> View(c, b) == a.arr[b] && Pins(c, b) == a.pins[b])
    && (forall b :: b in c.table && !c.pool[c.table[b]].dirty && c.pool[c.table[b]].buffer != c.disk[b] ==>
      b in a.unmarked)
    && FreshOk(c)
  }

  /** At most one entry of the pool has never been used. */
  ghost predicate AtMostOneFresh(c: Cache) {
    forall i: nat, j: nat :: Fresh(c, i) && Fresh(c, j) ==> i == j
  }

  /** The operation does not bring block 0 into a pool that still has unused entries besides the one it takes. */
  ghost predicate ZeroSafe(c: Cache, op: Op) {
    AtMostOneFresh(c) || 0 in c.table || op.Sync? || op.block != 0
  }

  // ---------------------------------------------------------------- one step

  lemma {:induction false} InitRel(disk: seq<Block>, size: nat)
    ensures Rel(Init(disk, size), Plain(disk, seq(|disk|, _ => 0), {}))
  {
    InitShape(disk, size);
  }

  /** Eviction never changes what a client sees. */
  lemma {:induction false} EvictKeepsView(c: Cache, a: Plain, b: nat)
    requires Rel(c, a) && b < |c.disk|
    ensures (if b in Evict(c).table then Evict(c).pool[Evict(c).table[b]].buffer else Evict(c).disk[b]) == View(c, b)
    ensures b in Evict(c).table ==> b in c.table && Evict(c).disk[b] == c.disk[b]
  {
    if c.lru != [] {
      assert c.lru[0] in c.lru;
    }
  }

  /** What loading a block that is not cached does. */
  lemma {:induction false} LoadEffect(c: Cache, b: nat, data: Block)
    requires Shape(c) && b < |c.disk| && b !in c.table
    ensures var d := Load(c, b, data); var e := Evict(c); var v := Victim(c);
      && d.table == e.table[b := v] && d.disk == e.disk && |d.disk| == |c.disk|
      && v < |d.pool| && |d.pool| == Max(|e.pool|, v + 1) && d.pool[v] == Slot(b, 1, false, data, 0)
      && (forall j :: 0 <= j < |d.pool| && j != v ==> d.pool[j] == e.pool[j] == c.pool[j])
  {
    assert c.lru != [] ==> c.lru[0] in c.lru;
  }

  /** The entries a hashed block can have after an eviction are not the victim. */
  lemma {:induction false} EvictedTable(c: Cache, x: nat)
    requires Shape(c)
    ensures x in Evict(c).table ==>
      x in c.table && Evict(c).table[x] == c.table[x] != Victim(c) && c.table[x] < |c.pool|
  {
    hide LruOk;
  }

  lemma {:induction false} LoadView(c: Cache, a: Plain, b: nat, x: nat)
    requires Rel(c, a) && b < |c.disk| && b !in c.table && x < |c.disk|
    requires Shape(Load(c, b, Evict(c).disk[b]))
    ensures var d := Load(c, b, Evict(c).disk[b]); var a' := PlainStep(a, Acquire(b));
      && View(d, x) == a'.arr[x] && Pins(d, x) == a'.pins[x]
      && (x in d.table && !d.pool[d.table[x]].dirty && d.pool[d.table[x]].buffer != d.disk[x] ==> x in a'.unmarked)
  {
    LoadEffect(c, b, Evict(c).disk[b]);
    EvictKeepsView(c, a, x);
    EvictedTable(c, x);
    assert View(c, x) == a.arr[x] && Pins(c, x) == a.pins[x];
    EvictKeepsPins(c, x);
    hide Shape, FreshOk, Evict;
  }

  lemma {:induction false} EvictKeepsPins(c: Cache, x: nat)
    requires Shape(c) && FreshOk(c)
    ensures x in c.table && x !in Evict(c).table ==> Pins(c, x) == 0
    ensures x in Evict(c).table ==> Evict(c).pool[Evict(c).table[x]] == c.pool[c.table[x]]
  {
    assert c.lru != [] ==> c.lru[0] in c.lru && (Fresh(c, c.lru[0]) || Hashed(c, c.lru[0]));
  }

  lemma {:induction false} LoadRel(c: Cache, a: Plain, b: nat, data: Block)
    requires Rel(c, a) && b < |c.disk| && b !in c.table && data == Evict(c).disk[b]
    requires ZeroSafe(c, Acquire(b))
    ensures Rel(Load(c, b, data), PlainStep(a, Acquire(b)))
  {
    LoadShape(c, b, data);
    LoadFresh(c, a, b, data);
    forall x | 0 <= x < |c.disk|
      ensures var d := Load(c, b, data); var a' := PlainStep(a, Acquire(b));
        && View(d, x) == a'.arr[x] && Pins(d, x) == a'.pins[x]
        && (x in d.table && !d.pool[d.table[x]].dirty && d.pool[d.table[x]].buffer != d.disk[x] ==> x in a'.unmarked)
    {
      LoadView(c, a, b, x);
    }
    LoadEffect(c, b, data);
    hide FreshOk, LruOk, Evict, Load;
  }

  /** While unused entries remain, the victim is one of them. */
  lemma {:induction false} FreshFirst(c: Cache, i: nat)
    requires Shape(c) && FreshOk(c) && Fresh(c, i)
    ensures c.lru != [] && Fresh(c, c.lru[0])
  {
    assert i in c.lru;
    var k :| 0 <= k < |c.lru| && c.lru[k] == i;
    assert c.lru[0] in c.lru;
  }

  lemma {:induction false} LoadFresh(c: Cache, a: Plain, b: nat, data: Block)
    requires Rel(c, a) && b < |c.disk| && b !in c.table
    requires ZeroSafe(c, Acquire(b))
    ensures FreshOk(Load(c, b, data))
    ensures forall i: nat :: Fresh(Load(c, b, data), i) ==> Fresh(c, i) && i != Victim(c)
  {
    var d := Load(c, b, data);
    var v := Victim(c);
    assert c.lru != [] ==> c.lru[0] in c.lru;
    assert Hashed(d, v);
    forall i: nat | Fresh(d, i) ensures Fresh(c, i) && i != v && 0 !in d.table {
      assert Fresh(c, i);
      if b == 0 {
        FreshFirst(c, i);
      }
    }
    forall j: nat | Hashed(d, j) && j != v ensures Hashed(c, j) {
    }
  }

  /** Changing only the entry of a cached block b is a change of b in the plain array. */
  lemma {:induction false} TouchRel(c: Cache, a: Plain, d: Cache, a': Plain, b: nat)
    requires Rel(c, a) && b in c.table && Shape(d) && PlainOk(a')
    requires d.table == c.table && |d.pool| == |c.pool|
    requires forall j :: 0 <= j < |c.pool| && j != c.table[b] ==> d.pool[j] == c.pool[j]
    requires var s := d.pool[c.table[b]];
      && s.block == b
      && (d.disk == c.disk || d.disk == c.disk[b := s.buffer])
      && a'.arr == a.arr[b := s.buffer] && a'.pins == a.pins[b := s.count]
      && (s.count == 0 ==> s.since == c.clock || (s.since == c.pool[c.table[b]].since && c.pool[c.table[b]].count == 0))
      && (!s.dirty && s.buffer != d.disk[b] ==> b in a'.unmarked)
    requires forall x :: x in a.unmarked && x != b ==> x in a'.unmarked
    ensures Rel(d, a')
  {
    assert forall j: nat :: Hashed(d, j) == Hashed(c, j);
    forall x | 0 <= x < |c.disk| ensures View(d, x) == a'.arr[x] && Pins(d, x) == a'.pins[x] {
      assert View(c, x) == a.arr[x] && Pins(c, x) == a.pins[x];
    }
    forall j: nat | Fresh(d, j) ensures j in c.lru {
      assert Fresh(c, j);
    }
  }

  lemma {:induction false} AcquireRel(c: Cache, a: Plain, b: nat)
    requires Rel(c, a) && b < |c.disk| && ZeroSafe(c, Acquire(b))
    ensures Rel(CacheSpec.Acquire(c, b), PlainStep(a, Acquire(b)))
  {
    AcquireShape(c, b);
    if b !in c.table {
      LoadRel(c, a, b, Evict(c).disk[b]);
    } else {
      assert View(c, b) == a.arr[b] && Pins(c, b) == a.pins[b];
      TouchRel(c, a, CacheSpec.Acquire(c, b), PlainStep(a, Acquire(b)), b);
    }
  }

  lemma {:induction false} ReleaseRel(c: Cache, a: Plain, b: nat, flags: nat)
    requires Rel(c, a) && Legal(a, Release(b, flags))
    ensures CanRelease(c, b) && Rel(CacheSpec.Release(c, b, flags), PlainStep(a, Release(b, flags)))
  {
    assert View(c, b) == a.arr[b] && Pins(c, b) == a.pins[b];
    ReleaseShape(c, b, flags);
    ReleaseEffect(c, b, flags);
    TouchRel(c, a, CacheSpec.Release(c, b, flags), PlainStep(a, Release(b, flags)), b);
  }

  /** What a release of a cached block does to its entry and to the device. */
  lemma {:induction false} ReleaseEffect(c: Cache, b: nat, flags: nat)
    requires Shape(c) && b in c.table && c.pool[c.table[b]].count > 0
    ensures var d := CacheSpec.Release(c, b, flags); var i := c.table[b]; var s := c.pool[i];
      && d.table == c.table && |d.pool| == |c.pool|
      && (forall j :: 0 <= j < |c.pool| && j != i ==> d.pool[j] == c.pool[j])
      && d.pool[i] == Slot(b, s.count - 1, !CommitFlag(flags) && (s.dirty || DirtyFlag(flags)), s.buffer,
                           if s.count == 1 then c.clock else s.since)
      && d.disk == if CommitFlag(flags) then c.disk[b := s.buffer] else c.disk
  {
  }

  /**
   The flags: 0 leaves the dirty bit alone, 1 sets it, 2 and 3 write the buffer to the device and leave the entry clean.
   */
  lemma {:induction false} ReleaseFlags(c: Cache, b: nat, flags: nat)
    requires Shape(c) && b in c.table && c.pool[c.table[b]].count > 0 && flags < 4
    ensures var d := CacheSpec.Release(c, b, flags); var s := c.pool[c.table[b]];
      && |d.pool| == |c.pool| && d.pool[c.table[b]].dirty == (if flags == 0 then s.dirty else flags == 1)
      && d.disk == if flags < 2 then c.disk else c.disk[b := s.buffer]
  {
    ReleaseEffect(c, b, flags);
    hide CacheSpec.Release, Shape;
  }

  lemma {:induction false} WriteRel(c: Cache, a: Plain, b: nat, data: Block)
    requires Rel(c, a) && b < |c.disk| && ZeroSafe(c, Write(b, data))
    ensures Rel(CacheSpec.Write(c, b, data), PlainStep(a, Write(b, data)))
  {
    WriteShape(c, b, data);
    if b in c.table {
      assert View(c, b) == a.arr[b] && Pins(c, b) == a.pins[b];
      TouchRel(c, a, CacheSpec.Write(c, b, data), PlainStep(a, Write(b, data)), b);
    } else {
      WriteMissRel(c, a, b, data);
    }
  }

  /** What a write of a block that is not cached does. */
  lemma {:induction false} WriteMissEffect(c: Cache, b: nat, data: Block)
    requires Shape(c) && b < |c.disk| && b !in c.table
    ensures var d := CacheSpec.Write(c, b, data); var e := Evict(c); var v := Victim(c);
      && d.table == e.table[b := v] && d.disk == e.disk
      && |d.pool| == Max(|e.pool|, v + 1) && d.pool[v] == Slot(b, 0, true, data, c.clock)
      && (forall j :: 0 <= j < |d.pool| && j != v ==> d.pool[j] == e.pool[j] == c.pool[j])
  {
    assert c.lru != [] ==> c.lru[0] in c.lru;
  }

  lemma {:induction false} WriteMissRel(c: Cache, a: Plain, b: nat, data: Block)
    requires Rel(c, a) && b < |c.disk| && b !in c.table && ZeroSafe(c, Write(b, data))
    requires Shape(CacheSpec.Write(c, b, data))
    ensures Rel(CacheSpec.Write(c, b, data), PlainStep(a, Write(b, data)))
  {
    hide Shape, FreshOk, View, Pins, Evict, CacheSpec.Write, ZeroSafe;
    var d, a' := CacheSpec.Write(c, b, data), PlainStep(a, Write(b, data));
    WriteMissFreshOk(c, a, b, data);
    KeysInRange(c, b, data);
    forall x | 0 <= x < |c.disk|
      ensures View(d, x) == a'.arr[x] && Pins(d, x) == a'.pins[x]
      ensures x in d.table && !d.pool[d.table[x]].dirty && d.pool[d.table[x]].buffer != d.disk[x] ==> x in a'.unmarked
    {
      WriteMissView(c, a, b, data, x);
    }
  }

  lemma {:induction false} WriteMissFreshOk(c: Cache, a: Plain, b: nat, data: Block)
    requires Rel(c, a) && b < |c.disk| && b !in c.table && ZeroSafe(c, Write(b, data))
    ensures FreshOk(CacheSpec.Write(c, b, data))
  {
    hide FreshOk, Shape, View, Pins, Fresh, AtMostOneFresh;
    LoadFresh(c, a, b, data);
    WriteMissFresh(c, a, b, data);
  }

  lemma {:induction false} KeysInRange(c: Cache, b: nat, data: Block)
    requires Shape(c) && b < |c.disk| && b !in c.table && Shape(CacheSpec.Write(c, b, data))
    ensures var d := CacheSpec.Write(c, b, data);
      |d.disk| == |c.disk| && forall x :: x in d.table ==> x < |d.disk| && d.table[x] < |d.pool|
  {
    WriteMissEffect(c, b, data);
    hide CacheSpec.Write, LruOk;
  }

  lemma {:induction false} WriteMissView(c: Cache, a: Plain, b: nat, data: Block, x: nat)
    requires Rel(c, a) && b < |c.disk| && b !in c.table && x < |c.disk|
    requires Shape(CacheSpec.Write(c, b, data))
    ensures var d := CacheSpec.Write(c, b, data); var a' := PlainStep(a, Write(b, data));
      && View(d, x) == a'.arr[x] && Pins(d, x) == a'.pins[x]
      && (x in d.table && !d.pool[d.table[x]].dirty && d.pool[d.table[x]].buffer != d.disk[x] ==> x in a'.unmarked)
  {
    WriteMissEffect(c, b, data);
    EvictKeepsView(c, a, x);
    EvictedTable(c, x);
    EvictKeepsPins(c, x);
    assert View(c, x) == a.arr[x] && Pins(c, x) == a.pins[x];
    hide Shape, FreshOk, Evict, CacheSpec.Write;
  }

  lemma {:induction false} WriteMissFresh(c: Cache, a: Plain, b: nat, data: Block)
    requires Rel(c, a) && b < |c.disk| && b !in c.table
    requires FreshOk(Load(c, b, data))
    requires forall i: nat :: Fresh(Load(c, b, data), i) ==> Fresh(c, i) && i != Victim(c)
    ensures FreshOk(CacheSpec.Write(c, b, data))
  {
    var n := Load(c, b, data);
    var d := CacheSpec.Write(c, b, data);
    assert forall i: nat :: Hashed(d, i) == Hashed(n, i);
    forall i: nat | Fresh(d, i) ensures Fresh(n, i) && i in c.lru && n.pool[i] == d.pool[i] == c.pool[i] {
      assert Fresh(n, i);
      assert Fresh(c, i);
    }
  }

  lemma {:induction false} PlainReadIsNoStep(a: Plain, b: nat)
    requires PlainOk(a) && b < |a.arr|
    ensures var a1 := PlainStep(a, Acquire(b)); Legal(a1, Release(b, 0)) && PlainStep(a1, Release(b, 0)) == a
  {
    var a1 := PlainStep(a, Acquire(b));
    assert a1.pins[b := a1.pins[b] - 1] == a.pins;
  }

  lemma {:induction false} ReadRel(c: Cache, a: Plain, b: nat)
    requires Rel(c, a) && b < |c.disk| && ZeroSafe(c, Acquire(b))
    ensures var d := CacheSpec.Acquire(c, b); Shape(d) && CanRelease(d, b) && Rel(CacheSpec.Release(d, b, 0), a)
  {
    AcquireRel(c, a, b);
    ReadShape(c, b);
    PlainReadIsNoStep(a, b);
    ReleaseRel(CacheSpec.Acquire(c, b), PlainStep(a, Acquire(b)), b, 0);
  }

  lemma {:induction false} ReadOutput(c: Cache, a: Plain, b: nat)
    requires Rel(c, a) && b < |c.disk| && ZeroSafe(c, Acquire(b))
    ensures ReadThrough(c, b).1 == a.arr[b]
  {
    AcquireRel(c, a, b);
    ReadShape(c, b);
    assert View(CacheSpec.Acquire(c, b), b) == PlainStep(a, Acquire(b)).arr[b];
  }

  lemma {:induction false} StoreRel(c: Cache, a: Plain, b: nat, data: Block)
    requires Rel(c, a) && Legal(a, Store(b, data))
    ensures b in c.table && Rel(CacheSpec.Store(c, c.table[b], data), PlainStep(a, Store(b, data)))
  {
    assert View(c, b) == a.arr[b] && Pins(c, b) == a.pins[b];
    var d := CacheSpec.Store(c, c.table[b], data);
    SameShape(c, d);
    TouchRel(c, a, d, PlainStep(a, Store(b, data)), b);
  }

  lemma {:induction false} MarkDirtyRel(c: Cache, a: Plain, b: nat)
    requires Rel(c, a)
    ensures Rel(CacheSpec.MarkDirty(c, b), PlainStep(a, MarkDirty(b)))
  {
    var d := CacheSpec.MarkDirty(c, b);
    SameShape(c, d);
    if b in c.table {
      assert View(c, b) == a.arr[b] && Pins(c, b) == a.pins[b];
      TouchRel(c, a, d, PlainStep(a, MarkDirty(b)), b);
    } else {
      assert b < |a.arr| ==> Pins(c, b) == a.pins[b];
    }
  }

  /** After sync the device holds every buffer that was dirty, and nothing else changed. */
  lemma {:induction false} SyncDisk(c: Cache, k: nat, b: nat)
    requires Shape(c) && k <= |c.pool| && b < |c.disk|
    requires forall i: nat :: Fresh(c, i) ==> !c.pool[i].dirty
    ensures SyncFrom(c, k).disk[b] ==
      if b in c.table && c.table[b] >= k && c.pool[c.table[b]].dirty then c.pool[c.table[b]].buffer else c.disk[b]
    decreases |c.pool| - k
  {
    if k < |c.pool| {
      var d := if c.pool[k].dirty then Commit(c, k) else c;
      SameShape(c, d);
      assert forall i: nat :: Fresh(d, i) ==> Fresh(c, i);
      assert c.pool[k].dirty ==> !Fresh(c, k);
      SyncDisk(d, k + 1, b);
    }
  }

  lemma {:induction false} SyncRel(c: Cache, a: Plain)
    requires Rel(c, a)
    ensures Rel(CacheSpec.Sync(c), a)
    ensures forall b :: 0 <= b < |c.disk| && b !in a.unmarked ==> CacheSpec.Sync(c).disk[b] == a.arr[b]
  {
    var d := CacheSpec.Sync(c);
    SyncShape(c, 0);
    assert forall j: nat :: Hashed(d, j) == Hashed(c, j);
    forall b | 0 <= b < |c.disk|
      ensures View(d, b) == a.arr[b] && Pins(d, b) == a.pins[b]
      ensures b !in a.unmarked ==> d.disk[b] == a.arr[b]
      ensures b in d.table && d.pool[d.table[b]].buffer != d.disk[b] ==> b in a.unmarked
    {
      assert View(c, b) == a.arr[b];
      SyncDisk(c, 0, b);
    }
    assert FreshOk(d) by {
      assert forall j: nat :: Fresh(d, j) ==> Fresh(c, j) && d.pool[j] == c.pool[j].(dirty := c.pool[j].dirty && j < 0);
    }
  }
}
