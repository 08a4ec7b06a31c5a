/** Whole runs of the cache: refinement of the plain array, buffer identity, eviction order, pool size, block 0. */
module CacheRuns {
  import opened Blocks
  import CacheSpec
  import opened CacheShape
  import opened CacheRefinement

  // ---------------------------------------------------------------- runs

  predicate LegalRun(a: Plain, ops: seq<Op>)
    requires PlainOk(a)
    decreases |ops|
  {
    ops == [] || (Legal(a, ops[0]) && LegalRun(PlainStep(a, ops[0]), ops[1..]))
  }

  function PlainRun(a: Plain, ops: seq<Op>): (r: Plain)
    requires PlainOk(a) && LegalRun(a, ops)
    ensures PlainOk(r) && |r.arr| == |a.arr|
    decreases |ops|
  {
    if ops == [] then a else PlainRun(PlainStep(a, ops[0]), ops[1..])
  }

  function PlainOutputs(a: Plain, ops: seq<Op>): seq<Option<Block>>
    requires PlainOk(a) && LegalRun(a, ops)
    decreases |ops|
  {
    if ops == [] then [] else [PlainOutput(a, ops[0])] + PlainOutputs(PlainStep(a, ops[0]), ops[1..])
  }

  function CacheRun(c: CacheSpec.Cache, ops: seq<Op>): (r: CacheSpec.Cache)
    requires CacheSpec.Shape(c)
    ensures CacheSpec.Shape(r) && |r.disk| == |c.disk|
    decreases |ops|
  {
    if ops == [] then c else CacheRun(CacheStep(c, ops[0]), ops[1..])
  }

  function CacheOutputs(c: CacheSpec.Cache, ops: seq<Op>): seq<Option<Block>>
    requires CacheSpec.Shape(c)
    decreases |ops|
  {
    if ops == [] then [] else [CacheOutput(c, ops[0])] + CacheOutputs(CacheStep(c, ops[0]), ops[1..])
  }

  /** No operation of the run brings block 0 into a pool that still has two unused entries. */
  ghost predicate ZeroSafeRun(c: CacheSpec.Cache, ops: seq<Op>)
    requires CacheSpec.Shape(c)
    decreases |ops|
  {
    ops == [] || (ZeroSafe(c, ops[0]) && ZeroSafeRun(CacheStep(c, ops[0]), ops[1..]))
  }

  // ---------------------------------------------------------------- refinement over all runs

  lemma {:induction false} StepRel(c: CacheSpec.Cache, a: Plain, op: Op)
    requires Rel(c, a) && Legal(a, op) && ZeroSafe(c, op)
    ensures Rel(CacheStep(c, op), PlainStep(a, op))
    ensures CacheOutput(c, op) == PlainOutput(a, op)
  {
    match op
    case Sync => SyncRel(c, a);
    case MarkDirty(b) => MarkDirtyRel(c, a, b);
    case Acquire(b) => AcquireRel(c, a, b);
    case Write(b, data) => WriteRel(c, a, b, data);
    case Store(b, data) => StoreRel(c, a, b, data);
    case Release(b, flags) => ReleaseRel(c, a, b, flags);
    case Read(b) => ReadRel(c, a, b); ReadOutput(c, a, b);
  }

  /** No operation makes an entry fresh again. */
  lemma {:induction false} StepFresh(c: CacheSpec.Cache, a: Plain, op: Op)
    requires Rel(c, a) && Legal(a, op) && ZeroSafe(c, op)
    ensures forall i: nat :: Fresh(CacheStep(c, op), i) ==> Fresh(c, i)
  {
    match op
    case Sync => SyncShape(c, 0);
    case MarkDirty(b) =>
    case Acquire(b) => AcquireFresh(c, a, b); hide CacheSpec.Acquire;
    case Write(b, data) => WriteFresh(c, a, b, data); hide CacheSpec.Write;
    case Store(b, data) =>
    case Release(b, flags) => ReleaseFresh(c, b, flags); hide CacheSpec.Release;
    case Read(b) =>
      AcquireFresh(c, a, b);
      ReadShape(c, b);
      ReleaseFresh(CacheSpec.Acquire(c, b), b, 0);
      hide CacheSpec.Acquire, CacheSpec.Release;
  }

  lemma {:induction false} WriteFresh(c: CacheSpec.Cache, a: Plain, b: nat, data: Block)
    requires Rel(c, a) && b < |c.disk| && ZeroSafe(c, Write(b, data))
    ensures forall i: nat :: Fresh(CacheSpec.Write(c, b, data), i) ==> Fresh(c, i)
  {
    if b !in c.table {
      LoadFresh(c, a, b, data);
      LoadEffect(c, b, data);
      WriteMissEffect(c, b, data);
      var n, d := CacheSpec.Load(c, b, data), CacheSpec.Write(c, b, data);
      hide CacheSpec.Write, CacheSpec.Load, CacheSpec.Evict, CacheSpec.Shape, FreshOk;
      assert forall i: nat :: Fresh(d, i) ==> Fresh(n, i);
    }
  }

  lemma {:induction false} AcquireFresh(c: CacheSpec.Cache, a: Plain, b: nat)
    requires Rel(c, a) && b < |c.disk| && ZeroSafe(c, Acquire(b))
    ensures forall i: nat :: Fresh(CacheSpec.Acquire(c, b), i) ==> Fresh(c, i)
  {
    if b !in c.table {
      LoadFresh(c, a, b, CacheSpec.Evict(c).disk[b]);
    }
  }

  lemma {:induction false} ReleaseFresh(c: CacheSpec.Cache, b: nat, flags: nat)
    requires CacheSpec.Shape(c) && CacheSpec.CanRelease(c, b)
    ensures forall i: nat :: Fresh(CacheSpec.Release(c, b, flags), i) ==> Fresh(c, i)
  {
    if b in c.table {
      ReleaseEffect(c, b, flags);
      hide CacheSpec.Release;
    }
  }

  /** After the first operation the related states and the rest of the run are as at the start. */
  lemma {:induction false} RestSafe(c: CacheSpec.Cache, a: Plain, ops: seq<Op>)
    requires Rel(c, a) && LegalRun(a, ops) && ZeroSafeRun(c, ops) && ops != []
    ensures ZeroSafe(c, ops[0])
    ensures Rel(CacheStep(c, ops[0]), PlainStep(a, ops[0]))
    ensures CacheOutput(c, ops[0]) == PlainOutput(a, ops[0])
    ensures LegalRun(PlainStep(a, ops[0]), ops[1..]) && ZeroSafeRun(CacheStep(c, ops[0]), ops[1..])
  {
    StepRel(c, a, ops[0]);
  }

  /** A run that leaves block 0 alone is safe, from any state. */
  lemma {:induction false} AwayFromZero(c: CacheSpec.Cache, ops: seq<Op>)
    requires CacheSpec.Shape(c) && forall k :: 0 <= k < |ops| && !ops[k].Sync? ==> ops[k].block != 0
    ensures ZeroSafeRun(c, ops)
    decreases |ops|
  {
    hide CacheSpec.Shape, CacheStep;
    if ops != [] {
      assert ops[0].Sync? || ops[0].block != 0;
      AwayFromZero(CacheStep(c, ops[0]), ops[1..]);
    }
  }

  /** Once at most one entry is unused, every legal run is safe. */
  lemma {:induction false} UsedPoolIsSafe(c: CacheSpec.Cache, a: Plain, ops: seq<Op>)
    requires Rel(c, a) && LegalRun(a, ops) && AtMostOneFresh(c)
    ensures ZeroSafeRun(c, ops)
    decreases |ops|
  {
    hide CacheStep, PlainStep, Legal, Fresh, CacheSpec.Shape, FreshOk;
    if ops != [] {
      StepRel(c, a, ops[0]);
      StepFresh(c, a, ops[0]);
      UsedPoolIsSafe(CacheStep(c, ops[0]), PlainStep(a, ops[0]), ops[1..]);
    }
  }

  /** For every legal run, reads return the last write and the view stays equal to the plain array. */
  lemma {:induction false} CacheRefinesArray(c: CacheSpec.Cache, a: Plain, ops: seq<Op>)
    requires Rel(c, a) && LegalRun(a, ops) && ZeroSafeRun(c, ops)
    ensures Rel(CacheRun(c, ops), PlainRun(a, ops))
    ensures CacheOutputs(c, ops) == PlainOutputs(a, ops)
    decreases |ops|
  {
    if ops != [] {
      RestSafe(c, a, ops);
      CacheRefinesArray(CacheStep(c, ops[0]), PlainStep(a, ops[0]), ops[1..]);
    }
  }

  /** From a new cache: a final sync makes the device equal to the array, except blocks stored into but never marked. */
  lemma {:induction false} SyncedRun(disk: seq<Block>, size: nat, ops: seq<Op>)
    requires var a := Plain(disk, seq(|disk|, _ => 0), {});
      && PlainOk(a) && LegalRun(a, ops)
      && CacheSpec.Shape(CacheSpec.Init(disk, size)) && ZeroSafeRun(CacheSpec.Init(disk, size), ops)
    ensures var a := Plain(disk, seq(|disk|, _ => 0), {});
      var c := CacheSpec.Init(disk, size);
      && CacheSpec.Shape(c)
      && CacheOutputs(c, ops) == PlainOutputs(a, ops)
      && var d := CacheStep(CacheRun(c, ops), Sync);
      && |d.disk| == |disk|
      && forall b :: 0 <= b < |disk| && b !in PlainRun(a, ops).unmarked ==> d.disk[b] == PlainRun(a, ops).arr[b]
  {
    var a := Plain(disk, seq(|disk|, _ => 0), {});
    var c := CacheSpec.Init(disk, size);
    InitRel(disk, size);
    CacheRefinesArray(c, a, ops);
    SyncRel(CacheRun(c, ops), PlainRun(a, ops));
  }

  // ---------------------------------------------------------------- buffer identity

  /** Loading another block leaves a pinned block where it is. */
  lemma {:induction false} LoadKeepsBuffer(c: CacheSpec.Cache, x: nat, data: Block, b: nat)
    requires CacheSpec.Shape(c) && FreshOk(c) && x !in c.table
    requires b in c.table && c.pool[c.table[b]].count > 0
    ensures CacheSpec.Find(CacheSpec.Load(c, x, data), b) == CacheSpec.Find(c, b)
  {
    if c.lru != [] {
      var v := c.lru[0];
      assert v in c.lru && c.pool[v].count == 0;
      assert Fresh(c, v) || c.pool[v].block != b;
    }
  }

  /** One operation never moves a pinned block to another buffer, nor drops it from the table. */
  lemma {:induction false} StepKeepsBuffer(c: CacheSpec.Cache, a: Plain, op: Op, b: nat)
    requires Rel(c, a) && Legal(a, op)
    requires b < |a.arr| && a.pins[b] > 0
    ensures CacheSpec.Find(c, b).Some? && CacheSpec.Find(CacheStep(c, op), b) == CacheSpec.Find(c, b)
  {
    assert Pins(c, b) == a.pins[b];
    match op
    case Sync => SyncShape(c, 0);
    case MarkDirty(_) =>
    case Acquire(x) => AcquireKeepsBuffer(c, x, b);
    case Write(x, data) =>
      if x !in c.table {
        LoadKeepsBuffer(c, x, data, b);
        assert CacheSpec.Write(c, x, data).table == CacheSpec.Load(c, x, data).table;
      }
    case Store(_, _) =>
    case Release(x, flags) =>
      assert Pins(c, x) == a.pins[x];
      ReleaseEffect(c, x, flags);
    case Read(x) =>
      AcquireKeepsBuffer(c, x, b);
      AcquireShape(c, x);
      ReleaseEffect(CacheSpec.Acquire(c, x), x, 0);
  }

  lemma {:induction false} AcquireKeepsBuffer(c: CacheSpec.Cache, x: nat, b: nat)
    requires CacheSpec.Shape(c) && FreshOk(c) && x < |c.disk|
    requires b in c.table && c.pool[c.table[b]].count > 0
    ensures var d := CacheSpec.Acquire(c, x);
      && CacheSpec.Find(d, b) == CacheSpec.Find(c, b)
      && x in d.table && d.table[x] < |d.pool| && d.pool[d.table[x]].count > 0
  {
    if x !in c.table {
      LoadKeepsBuffer(c, x, CacheSpec.Evict(c).disk[x], b);
    }
  }

  predicate PinnedThroughout(a: Plain, ops: seq<Op>, b: nat)
    requires PlainOk(a) && LegalRun(a, ops) && b < |a.arr|
    decreases |ops|
  {
    a.pins[b] > 0 && (ops == [] || PinnedThroughout(PlainStep(a, ops[0]), ops[1..], b))
  }

  /** From acquire to last release, whatever else happens, a block stays in the buffer that acquire returned. */
  lemma {:induction false} PinnedBufferStays(c: CacheSpec.Cache, a: Plain, ops: seq<Op>, b: nat)
    requires Rel(c, a) && LegalRun(a, ops) && ZeroSafeRun(c, ops)
    requires b < |a.arr| && PinnedThroughout(a, ops, b)
    ensures CacheSpec.Find(c, b).Some?
    ensures CacheSpec.Find(CacheRun(c, ops), b) == CacheSpec.Find(c, b)
    decreases |ops|
  {
    if ops == [] {
      assert Pins(c, b) == a.pins[b];
    } else {
      StepKeepsBuffer(c, a, ops[0], b);
      RestSafe(c, a, ops);
      PinnedBufferStays(CacheStep(c, ops[0]), PlainStep(a, ops[0]), ops[1..], b);
    }
  }

  // ---------------------------------------------------------------- eviction order and pool size

  /** The victim is the entry that has been unpinned longest; only a pool without unpinned entries grows. */
  lemma {:induction false} FirstOnListIsOldest(c: CacheSpec.Cache)
    requires CacheSpec.Shape(c)
    ensures CacheSpec.Victim(c) == |c.pool| <==> forall i :: 0 <= i < |c.pool| ==> c.pool[i].count > 0
    ensures CacheSpec.Victim(c) < |c.pool| ==>
      c.pool[CacheSpec.Victim(c)].count == 0 &&
      forall i :: 0 <= i < |c.pool| && c.pool[i].count == 0 && i != CacheSpec.Victim(c) ==>
        c.pool[CacheSpec.Victim(c)].since < c.pool[i].since
  {
    if c.lru == [] {
      assert forall i :: 0 <= i < |c.pool| ==> i !in c.lru;
    } else {
      assert c.lru[0] in c.lru;
      forall i | 0 <= i < |c.pool| && c.pool[i].count == 0 && i != c.lru[0]
        ensures c.pool[c.lru[0]].since < c.pool[i].since
      {
        var k :| 0 <= k < |c.lru| && c.lru[k] == i;
      }
    }
  }

  function PinnedBlocks(a: Plain): set<nat>
    requires PlainOk(a)
  {
    set b: nat | b < |a.arr| && a.pins[b] > 0
  }

  /** The largest number of blocks pinned at the same time. */
  function PeakPinned(a: Plain, ops: seq<Op>): nat
    requires PlainOk(a) && LegalRun(a, ops)
    decreases |ops|
  {
    if ops == [] then |PinnedBlocks(a)|
    else Max(|PinnedBlocks(a)|, PeakPinned(PlainStep(a, ops[0]), ops[1..]))
  }

  lemma {:induction false} PeakUnfolds(a: Plain, ops: seq<Op>)
    requires PlainOk(a) && LegalRun(a, ops) && ops != []
    ensures PeakPinned(a, ops) >= |PinnedBlocks(a)|
    ensures PeakPinned(a, ops) >= PeakPinned(PlainStep(a, ops[0]), ops[1..])
  {
  }

  lemma {:induction false} DistinctFit(f: seq<nat>, s: set<nat>)
    requires forall i :: 0 <= i < |f| ==> f[i] in s
    requires forall i, j :: 0 <= i < j < |f| ==> f[i] != f[j]
    ensures |f| <= |s|
  {
    if f != [] {
      var n := |f| - 1;
      DistinctFit(f[..n], s - {f[n]});
    }
  }

  /** When no entry is unpinned, the pool is exactly as large as the number of pinned blocks allows. */
  lemma {:induction false} FullPoolIsPinned(c: CacheSpec.Cache, a: Plain)
    requires Rel(c, a) && c.lru == []
    ensures |c.pool| <= |PinnedBlocks(a)|
  {
    assert forall i: nat :: i < |c.pool| ==> i !in c.lru;
    assert forall i: nat :: i < |c.pool| ==> !Fresh(c, i);
    var f := seq(|c.pool|, i requires 0 <= i < |c.pool| => c.pool[i].block);
    forall i | 0 <= i < |f| ensures f[i] in PinnedBlocks(a) {
      assert CacheSpec.Hashed(c, i);
      assert Pins(c, f[i]) == a.pins[f[i]];
    }
    DistinctFit(f, PinnedBlocks(a));
  }

  /** One operation adds at most one entry, and only when every entry is pinned. */
  lemma {:induction false} StepGrows(c: CacheSpec.Cache, a: Plain, op: Op)
    requires Rel(c, a) && Legal(a, op)
    ensures |CacheStep(c, op).pool| <= |c.pool| + (if c.lru == [] then 1 else 0)
  {
    match op
    case Sync => SyncShape(c, 0);
    case MarkDirty(_) =>
    case Acquire(_) =>
    case Write(x, data) =>
      if x !in c.table {
        WriteMissEffect(c, x, data);
        assert c.lru != [] ==> c.lru[0] in c.lru;
      }
    case Store(_, _) =>
    case Release(x, flags) =>
      assert Pins(c, x) == a.pins[x];
      ReleaseEffect(c, x, flags);
    case Read(x) =>
      AcquireShape(c, x);
      ReleaseEffect(CacheSpec.Acquire(c, x), x, 0);
  }

  lemma {:induction false} StepPool(c: CacheSpec.Cache, a: Plain, op: Op)
    requires Rel(c, a) && Legal(a, op)
    ensures |CacheStep(c, op).pool| <= Max(|c.pool|, 1 + |PinnedBlocks(a)|)
  {
    StepGrows(c, a, op);
    if c.lru == [] {
      FullPoolIsPinned(c, a);
    }
  }

  lemma {:induction false} PoolBelow(c: CacheSpec.Cache, a: Plain, ops: seq<Op>, m: nat)
    requires Rel(c, a) && LegalRun(a, ops) && ZeroSafeRun(c, ops)
    requires |c.pool| <= m && PeakPinned(a, ops) < m
    ensures |CacheRun(c, ops).pool| <= m
    decreases |ops|
  {
    if ops != [] {
      RestSafe(c, a, ops);
      StepPool(c, a, ops[0]);
      PeakUnfolds(a, ops);
      PoolBelow(CacheStep(c, ops[0]), PlainStep(a, ops[0]), ops[1..], m);
    }
  }

  /** The pool never exceeds the larger of its initial size and one more than the peak number of pinned blocks. */
  lemma {:induction false} PoolBound(c: CacheSpec.Cache, a: Plain, ops: seq<Op>)
    requires Rel(c, a) && LegalRun(a, ops) && ZeroSafeRun(c, ops)
    ensures |CacheRun(c, ops).pool| <= |c.pool| || |CacheRun(c, ops).pool| <= 1 + PeakPinned(a, ops)
  {
    var m := Max(|c.pool|, 1 + PeakPinned(a, ops));
    PoolBelow(c, a, ops, m);
  }

  // ---------------------------------------------------------------- block 0

  /** Acquire block 0, store into it, acquire another block: all three legal, and block 0 stays pinned. */
  function ZeroRun(b: nat, data: Block): seq<Op> {
    [Acquire(0), Store(0, data), Acquire(b)]
  }

  lemma {:induction false} ZeroRunUnfolds(c: CacheSpec.Cache, a: Plain, b: nat, data: Block)
    requires Rel(c, a) && 0 < b < |c.disk|
    ensures LegalRun(a, ZeroRun(b, data))
    ensures PlainRun(a, ZeroRun(b, data)).arr == a.arr[0 := data]
    ensures CacheRun(c, ZeroRun(b, data)) ==
      CacheStep(CacheStep(CacheStep(c, Acquire(0)), Store(0, data)), Acquire(b))
  {
    hide CacheStep, FreshOk, CacheSpec.LruOk, CacheSpec.TableOk;
    var ops := ZeroRun(b, data);
    var tail1, tail2: seq<Op> := [Store(0, data), Acquire(b)], [Acquire(b)];
    assert ops[1..] == tail1 && tail1[1..] == tail2 && tail2[1..] == [];
    var a1 := PlainStep(a, Acquire(0));
    var a2 := PlainStep(a1, Store(0, data));
    assert LegalRun(a2, tail2) && PlainRun(a2, tail2).arr == a2.arr;
    assert LegalRun(a1, tail1) && PlainRun(a1, tail1).arr == a2.arr;
    var c1 := CacheStep(c, Acquire(0));
    var c2 := CacheStep(c1, Store(0, data));
    assert CacheRun(c2, tail2) == CacheStep(c2, Acquire(b));
    assert CacheRun(c1, tail1) == CacheRun(c2, tail2);
  }

  /**
   A fresh entry carries block number 0 without being hashed, so taking one as victim unhashes block 0.
   With two fresh entries left, a client of block 0 loses its store although it holds the block.
   */
  lemma {:induction false} BlockZeroLost(c: CacheSpec.Cache, a: Plain, b: nat, data: Block)
    requires Rel(c, a) && !AtMostOneFresh(c) && 0 < b < |c.disk| && b !in c.table
    ensures CacheRun(c, ZeroRun(b, data)).table == (c.table - {0})[b := c.lru[1]]
    ensures View(CacheRun(c, ZeroRun(b, data)), 0) == c.disk[0]
  {
    hide CacheStep, FreshOk, CacheSpec.LruOk, CacheSpec.TableOk;
    TwoFresh(c);
    ZeroRunUnfolds(c, a, b, data);
    var v, w := c.lru[0], c.lru[1];
    var c1 := CacheStep(c, Acquire(0));
    TakeFresh(c, 0);
    assert c1.pool[w] == c.pool[w] && c1.lru[0] == w && 0 in c1.table;
    var c2 := CacheStep(c1, Store(0, data));
    StoreEffect(c1, 0, data);
    assert c2.pool[w] == c.pool[w] && c2.lru[0] == w && b !in c2.table && c2.table - {0} == c.table - {0};
    TakeFresh(c2, b);
  }

  lemma {:induction false} StoreEffect(c: CacheSpec.Cache, b: nat, data: Block)
    requires CacheSpec.Shape(c) && b in c.table
    ensures var d := CacheStep(c, Store(b, data));
      && d.lru == c.lru && d.table == c.table && d.disk == c.disk && |d.pool| == |c.pool|
      && forall j :: 0 <= j < |c.pool| && j != c.table[b] ==> d.pool[j] == c.pool[j]
  {
  }

  /** Acquiring an uncached block when the victim is an unused or emptied entry with block number 0. */
  lemma {:induction false} TakeFresh(c: CacheSpec.Cache, b: nat)
    requires CacheSpec.Shape(c) && b < |c.disk| && b !in c.table
    requires c.lru != [] && c.pool[c.lru[0]].block == 0 && !c.pool[c.lru[0]].dirty
    ensures var d := CacheStep(c, Acquire(b));
      && d.lru == c.lru[1..] && d.table == (c.table - {0})[b := c.lru[0]] && d.disk == c.disk
      && |d.pool| == |c.pool| && forall j :: 0 <= j < |c.pool| && j != c.lru[0] ==> d.pool[j] == c.pool[j]
  {
  }

  /** With two fresh entries, the two longest on the list are fresh, clean and carry block number 0. */
  lemma {:induction false} TwoFresh(c: CacheSpec.Cache)
    requires CacheSpec.Shape(c) && FreshOk(c) && !AtMostOneFresh(c)
    ensures |c.lru| >= 2 && c.lru[0] != c.lru[1] && 0 !in c.table
    ensures Fresh(c, c.lru[0]) && Fresh(c, c.lru[1])
    ensures c.pool[c.lru[0]].block == c.pool[c.lru[1]].block == 0
    ensures !c.pool[c.lru[0]].dirty && !c.pool[c.lru[1]].dirty
  {
    var i: nat, j: nat :| Fresh(c, i) && Fresh(c, j) && i != j;
    assert i in c.lru && j in c.lru;
    var k :| 0 <= k < |c.lru| && c.lru[k] == i;
    var m :| 0 <= m < |c.lru| && c.lru[m] == j;
    OrderedDistinct(c.pool, c.lru, 0, 1);
    assert c.lru[0] in c.lru && c.lru[1] in c.lru;
    FreshFirst(c, i);
    var last := if k < m then m else k;
    assert last >= 1 && Fresh(c, c.lru[last]);
  }

  /** Bringing in block 0 is safe exactly when at most one entry of the pool is still unused. */
  lemma {:induction false} BlockZeroExactly(c: CacheSpec.Cache, a: Plain, b: nat)
    requires Rel(c, a) && 0 < b < |c.disk| && b !in c.table
    ensures AtMostOneFresh(c) <==>
      forall data: Block :: View(CacheRun(c, ZeroRun(b, data)), 0) == PlainRunArr(a, ZeroRun(b, data))[0]
  {
    if AtMostOneFresh(c) {
      forall data: Block ensures View(CacheRun(c, ZeroRun(b, data)), 0) == PlainRunArr(a, ZeroRun(b, data))[0] {
        ZeroRunUnfolds(c, a, b, data);
        UsedPoolIsSafe(c, a, ZeroRun(b, data));
        CacheRefinesArray(c, a, ZeroRun(b, data));
      }
    } else {
      var data: Block := Other(c.disk[0]);
      ZeroRunUnfolds(c, a, b, data);
      BlockZeroLost(c, a, b, data);
    }
  }

  /** The array after a run; an illegal run has no effect. */
  function PlainRunArr(a: Plain, ops: seq<Op>): (r: seq<Block>)
    requires PlainOk(a)
    ensures |r| == |a.arr|
  {
    if LegalRun(a, ops) then PlainRun(a, ops).arr else a.arr
  }

  function Other(x: Block): (r: Block)
    ensures r != x
  {
    var r := x[0 := 255 - x[0]];
    assert r[0] != x[0];
    r
  }
}
