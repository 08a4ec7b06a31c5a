/**
 Which block the cache gives up next, told from the operations alone.
 The usage machine sees the operations and how often each block is pinned. It keeps the cached blocks nobody
 has pinned, in the order in which they were last used, and how many entries of the pool were never used.
 Taking a block that is not cached costs an unused entry, else the idle block used longest ago.
 */
module CacheOrder {
  import opened Blocks
  import CacheSpec
  import opened CacheShape
  import opened CacheRefinement
  import opened CacheRuns

  datatype Usage = Usage(idle: seq<nat>, unused: nat)

  function Without(s: seq<nat>, b: nat): seq<nat> {
    if s == [] then []
    else (if s[0] == b then [] else [s[0]]) + Without(s[1..], b)
  }

  function MakeRoom(u: Usage): Usage {
    if u.unused > 0 then u.(unused := u.unused - 1)
    else if u.idle != [] then u.(idle := u.idle[1..])
    else u
  }

  /** Block b is wanted: nothing to do for a pinned block, else it is no longer idle. */
  function Take(u: Usage, a: Plain, b: nat): Usage
    requires PlainOk(a) && b < |a.arr|
  {
    if a.pins[b] > 0 then u
    else if b in u.idle then u.(idle := Without(u.idle, b))
    else MakeRoom(u)
  }

  /** The operation leaves block b without a pin, and this is a use of b: a write of a cached block is none. */
  predicate Leaves(u: Usage, a: Plain, op: Op, b: nat)
    requires PlainOk(a) && Legal(a, op)
  {
    match op
    case Release(x, _) => x == b && a.pins[b] == 1
    case Read(x) => x == b && a.pins[b] == 0
    case Write(x, _) => x == b && a.pins[b] == 0 && b !in u.idle
    case _ => false
  }

  function UsageStep(u: Usage, a: Plain, op: Op): Usage
    requires PlainOk(a) && Legal(a, op)
  {
    if op.Sync? || op.Store? || op.MarkDirty? then u
    else
      var v := if op.Acquire? || Leaves(u, a, op, op.block) then Take(u, a, op.block) else u;
      if Leaves(u, a, op, op.block) then v.(idle := v.idle + [op.block]) else v
  }

  function UsageRun(u: Usage, a: Plain, ops: seq<Op>): Usage
    requires PlainOk(a) && LegalRun(a, ops)
    decreases |ops|
  {
    if ops == [] then u else UsageRun(UsageStep(u, a, ops[0]), PlainStep(a, ops[0]), ops[1..])
  }

  /** The number of the last operation of the run that left b unpinned, -1 if none did. */
  function LastUse(u: Usage, a: Plain, ops: seq<Op>, b: nat): (r: int)
    requires PlainOk(a) && LegalRun(a, ops)
    ensures -1 <= r < |ops|
    decreases |ops|
  {
    if ops == [] then -1
    else
      var rest := LastUse(UsageStep(u, a, ops[0]), PlainStep(a, ops[0]), ops[1..], b);
      if rest >= 0 then rest + 1 else if Leaves(u, a, ops[0], b) then 0 else -1
  }

  // ---------------------------------------------------------------- the usage machine keeps the order of last use

  predicate Distinct(s: seq<nat>) {
    forall i, j :: 0 <= i < j < |s| ==> s[i] != s[j]
  }

  /** x stands before y. */
  ghost predicate Before(s: seq<nat>, x: nat, y: nat) {
    exists i, j :: 0 <= i < j < |s| && s[i] == x && s[j] == y
  }

  lemma {:induction false} WithoutAt(s: seq<nat>, k: nat)
    requires Distinct(s) && k < |s|
    ensures Without(s, s[k]) == s[..k] + s[k + 1..]
  {
    if k == 0 {
      WithoutNone(s[1..], s[0]);
    } else {
      assert s[1..][k - 1] == s[k];
      WithoutAt(s[1..], k - 1);
      CutOfRest(s, k);
    }
  }

  lemma {:induction false} WithoutNone(s: seq<nat>, b: nat)
    requires b !in s
    ensures Without(s, b) == s
  {
    if s != [] {
      WithoutNone(s[1..], b);
    }
  }

  /** Idle blocks are blocks of the device nobody has pinned, each listed once. */
  ghost predicate UsageOk(u: Usage, a: Plain) {
    && PlainOk(a) && Distinct(u.idle)
    && forall k :: 0 <= k < |u.idle| ==> u.idle[k] < |a.arr| && a.pins[u.idle[k]] == 0
  }

  /** A list without its n-th block keeps the others in order. */
  lemma {:induction false} CutOrder(s: seq<nat>, n: nat, x: nat, y: nat)
    requires n < |s| && Before(s[..n] + s[n + 1..], x, y)
    ensures Before(s, x, y)
  {
    var r := s[..n] + s[n + 1..];
    var i, j :| 0 <= i < j < |r| && r[i] == x && r[j] == y;
    CutAt(s, n, i);
    CutAt(s, n, j);
  }

  lemma {:induction false} CutDistinct(s: seq<nat>, n: nat)
    requires Distinct(s) && n < |s|
    ensures var r := s[..n] + s[n + 1..];
      Distinct(r) && s[n] !in r && forall k :: 0 <= k < |r| ==> r[k] in s
  {
    var r := s[..n] + s[n + 1..];
    forall k | 0 <= k < |r| ensures r[k] == s[if k < n then k else k + 1] {
      CutAt(s, n, k);
    }
  }

  /** Take cuts at most one block out of the idle blocks. */
  lemma {:induction false} TakeCuts(u: Usage, a: Plain, b: nat) returns (n: nat)
    requires UsageOk(u, a) && b < |a.arr|
    ensures var r := Take(u, a, b).idle;
      if n < |u.idle| then r == u.idle[..n] + u.idle[n + 1..] && (b !in u.idle || u.idle[n] == b)
      else r == u.idle && b !in u.idle
  {
    n := |u.idle|;
    if a.pins[b] == 0 && b in u.idle {
      n :| 0 <= n < |u.idle| && u.idle[n] == b;
      WithoutAt(u.idle, n);
    } else if a.pins[b] == 0 && u.unused == 0 && u.idle != [] {
      n := 0;
      assert u.idle[..0] + u.idle[1..] == u.idle[1..];
    }
  }

  /** What Take leaves of the idle blocks: all but b and perhaps the first, in the same order. */
  lemma {:induction false} TakeKeeps(u: Usage, a: Plain, b: nat)
    requires UsageOk(u, a) && b < |a.arr|
    ensures var r := Take(u, a, b).idle;
      && b !in r && Distinct(r)
      && (forall k :: 0 <= k < |r| ==> r[k] in u.idle)
  {
    var n := TakeCuts(u, a, b);
    hide Take;
    if n < |u.idle| {
      CutDistinct(u.idle, n);
    }
  }

  lemma {:induction false} TakeOrder(u: Usage, a: Plain, b: nat, x: nat, y: nat)
    requires UsageOk(u, a) && b < |a.arr| && Before(Take(u, a, b).idle, x, y)
    ensures Before(u.idle, x, y)
  {
    var n := TakeCuts(u, a, b);
    hide Take, Before;
    if n < |u.idle| {
      CutOrder(u.idle, n, x, y);
    }
  }

  lemma {:induction false} UsageStepOk(u: Usage, a: Plain, op: Op)
    requires UsageOk(u, a) && Legal(a, op)
    ensures UsageOk(UsageStep(u, a, op), PlainStep(a, op))
  {
    if !op.Sync? && !op.Store? && !op.MarkDirty? {
      TakeKeeps(u, a, op.block);
      hide Take;
    }
  }

  /** A block that one operation leaves idle comes last; the others keep their order. */
  lemma {:induction false} StepOrder(u: Usage, a: Plain, op: Op, x: nat, y: nat)
    requires UsageOk(u, a) && Legal(a, op) && Before(UsageStep(u, a, op).idle, x, y)
    ensures !Leaves(u, a, op, x)
    ensures Leaves(u, a, op, y) || Before(u.idle, x, y)
  {
    var r := UsageStep(u, a, op).idle;
    UsageStepOk(u, a, op);
    var i, j :| 0 <= i < j < |r| && r[i] == x && r[j] == y;
    if !op.Sync? && !op.Store? && !op.MarkDirty? {
      var t := Take(u, a, op.block).idle;
      TakeKeeps(u, a, op.block);
      if (op.Acquire? || Leaves(u, a, op, op.block)) && j < |t| {
        assert t[i] == x && t[j] == y;
        TakeOrder(u, a, op.block, x, y);
      }
      hide Take;
    }
  }

  /** Of two blocks idle after a run, the one further back was used later, or neither was used in the run. */
  lemma {:induction false} RunOrder(u: Usage, a: Plain, ops: seq<Op>, x: nat, y: nat)
    requires UsageOk(u, a) && LegalRun(a, ops) && Before(UsageRun(u, a, ops).idle, x, y)
    ensures LastUse(u, a, ops, x) < LastUse(u, a, ops, y) ||
            (LastUse(u, a, ops, x) == LastUse(u, a, ops, y) == -1 && Before(u.idle, x, y))
    decreases |ops|
  {
    hide Before, UsageStep, Leaves, Legal;
    if ops != [] {
      var v, a' := UsageStep(u, a, ops[0]), PlainStep(a, ops[0]);
      UsageStepOk(u, a, ops[0]);
      RunOrder(v, a', ops[1..], x, y);
      if LastUse(v, a', ops[1..], x) == LastUse(v, a', ops[1..], y) == -1 {
        StepOrder(u, a, ops[0], x, y);
      }
    }
  }

  // ---------------------------------------------------------------- the cache keeps its books

  /** Entry i is hashed under block b. */
  predicate Holds(c: CacheSpec.Cache, i: nat, b: nat) {
    CacheSpec.Hashed(c, i) && c.pool[i].block == b
  }

  /** The list is the unused entries followed by the entries of the idle blocks, in the usage machine's order. */
  ghost predicate Tracks(c: CacheSpec.Cache, u: Usage) {
    && |c.lru| == u.unused + |u.idle|
    && (forall k :: 0 <= k < u.unused ==> Fresh(c, c.lru[k]))
    && (forall k :: 0 <= k < |u.idle| ==> Holds(c, c.lru[u.unused + k], u.idle[k]))
  }

  /** The idle blocks are exactly the cached blocks without pins. */
  lemma {:induction false} TracksIdle(c: CacheSpec.Cache, a: Plain, u: Usage, b: nat)
    requires Rel(c, a) && Tracks(c, u) && b < |a.arr|
    ensures b in u.idle <==> b in c.table && a.pins[b] == 0
  {
    assert Pins(c, b) == a.pins[b];
    if b in c.table && a.pins[b] == 0 {
      var i := c.table[b];
      assert i in c.lru && Holds(c, i, b);
      var k :| 0 <= k < |c.lru| && c.lru[k] == i;
      assert k >= u.unused;
      assert u.idle[k - u.unused] == b;
    }
    if b in u.idle {
      var k :| 0 <= k < |u.idle| && u.idle[k] == b;
      assert Holds(c, c.lru[u.unused + k], b);
      assert c.lru[u.unused + k] in c.lru;
    }
  }

  lemma {:induction false} TracksOk(c: CacheSpec.Cache, a: Plain, u: Usage)
    requires Rel(c, a) && Tracks(c, u)
    ensures UsageOk(u, a)
  {
    forall k | 0 <= k < |u.idle| ensures u.idle[k] < |a.arr| && a.pins[u.idle[k]] == 0 {
      assert Holds(c, c.lru[u.unused + k], u.idle[k]);
      TracksIdle(c, a, u, u.idle[k]);
    }
    forall i, j | 0 <= i < j < |u.idle| ensures u.idle[i] != u.idle[j] {
      OrderedDistinct(c.pool, c.lru, u.unused + i, u.unused + j);
    }
  }

  /** Only the blocks, the hash table and the list matter. */
  lemma {:induction false} SameTracks(c: CacheSpec.Cache, d: CacheSpec.Cache, u: Usage)
    requires Tracks(c, u) && d.lru == c.lru && d.table == c.table && |d.pool| == |c.pool|
    requires forall i :: 0 <= i < |c.pool| ==> d.pool[i].block == c.pool[i].block
    ensures Tracks(d, u)
  {
    assert forall i: nat :: CacheSpec.Hashed(d, i) == CacheSpec.Hashed(c, i);
  }

  lemma {:induction false} CutTracks(c: CacheSpec.Cache, u: Usage, k: nat)
    requires Tracks(c, u) && k < |u.idle|
    ensures var n := u.unused + k;
      Tracks(c.(lru := c.lru[..n] + c.lru[n + 1..]), u.(idle := u.idle[..k] + u.idle[k + 1..]))
  {
    var n := u.unused + k;
    var d, v := c.(lru := c.lru[..n] + c.lru[n + 1..]), u.(idle := u.idle[..k] + u.idle[k + 1..]);
    assert forall i: nat :: CacheSpec.Hashed(d, i) == CacheSpec.Hashed(c, i);
    forall m | 0 <= m < |v.idle| ensures Holds(d, d.lru[v.unused + m], v.idle[m]) {
      var o := if m < k then m else m + 1;
      CutAt(u.idle, k, m);
      CutAt(c.lru, n, u.unused + m);
      assert Holds(c, c.lru[u.unused + o], u.idle[o]);
    }
  }

  lemma {:induction false} PinTracks(c: CacheSpec.Cache, a: Plain, u: Usage, b: nat)
    requires Rel(c, a) && Tracks(c, u) && b < |a.arr| && b in c.table
    ensures Tracks(CacheSpec.Acquire(c, b), Take(u, a, b))
  {
    assert Pins(c, b) == a.pins[b];
    TracksOk(c, a, u);
    TracksIdle(c, a, u, b);
    if a.pins[b] > 0 {
      SameTracks(c, CacheSpec.Acquire(c, b), u);
    } else {
      var k :| 0 <= k < |u.idle| && u.idle[k] == b;
      PinIdleTracks(c, u, k);
      WithoutAt(u.idle, k);
      hide Rel, Tracks, CacheSpec.Acquire, Without;
    }
  }

  /** Pinning an idle block cuts it out of both lists. */
  lemma {:induction false} PinIdleTracks(c: CacheSpec.Cache, u: Usage, k: nat)
    requires CacheSpec.Shape(c) && Tracks(c, u) && k < |u.idle|
    ensures Tracks(CacheSpec.Acquire(c, u.idle[k]), u.(idle := u.idle[..k] + u.idle[k + 1..]))
  {
    var n := u.unused + k;
    assert Holds(c, c.lru[n], u.idle[k]) && c.lru[n] in c.lru;
    UnlinkAt(c.pool, c.lru, n);
    CutTracks(c, u, k);
    var e := c.(lru := c.lru[..n] + c.lru[n + 1..]);
    assert CacheSpec.Acquire(c, u.idle[k]).lru == e.lru;
    SameTracks(e, CacheSpec.Acquire(c, u.idle[k]), u.(idle := u.idle[..k] + u.idle[k + 1..]));
  }

  /** Loading a block changes what is hashed in the victim's entry only. */
  lemma {:induction false} LoadOthers(c: CacheSpec.Cache, a: Plain, b: nat, data: Block, i: nat)
    requires Rel(c, a) && b < |a.arr| && b !in c.table && i < |c.pool| && i != CacheSpec.Victim(c)
    ensures var d := CacheSpec.Load(c, b, data);
      && (Fresh(c, i) ==> Fresh(d, i))
      && (CacheSpec.Hashed(c, i) ==> Holds(d, i, c.pool[i].block))
  {
    assert c.lru != [] ==> c.lru[0] in c.lru;
    assert c.lru != [] ==> Fresh(c, c.lru[0]) || CacheSpec.Hashed(c, c.lru[0]);
    LoadEffect(c, b, data);
    hide CacheSpec.LruOk, CacheSpec.Load;
  }

  /** Loading a block takes the first entry off the list; the others stay unused, or stay hashed, as they are. */
  lemma {:induction false} LoadShifts(c: CacheSpec.Cache, a: Plain, b: nat, data: Block, k: nat)
    requires Rel(c, a) && b < |a.arr| && b !in c.table && k + 1 < |c.lru|
    ensures var d := CacheSpec.Load(c, b, data); var i := c.lru[k + 1];
      && |d.lru| == |c.lru| - 1 && d.lru[k] == i
      && (Fresh(c, i) ==> Fresh(d, i))
      && (CacheSpec.Hashed(c, i) ==> Holds(d, i, c.pool[i].block))
  {
    OrderedDistinct(c.pool, c.lru, 0, k + 1);
    assert CacheSpec.Load(c, b, data).lru == c.lru[1..];
    hide CacheSpec.Load, Fresh, Holds;
    LoadOthers(c, a, b, data, c.lru[k + 1]);
  }

  lemma {:induction false} LoadLength(c: CacheSpec.Cache, b: nat, data: Block)
    requires CacheSpec.Shape(c) && b < |c.disk| && b !in c.table
    ensures var d := CacheSpec.Load(c, b, data);
      |d.lru| == (if c.lru == [] then 0 else |c.lru| - 1) && Holds(d, CacheSpec.Victim(c), b)
  {
    LoadEffect(c, b, data);
  }

  lemma {:induction false} LoadUnused(c: CacheSpec.Cache, a: Plain, u: Usage, b: nat, data: Block, k: nat)
    requires Rel(c, a) && Tracks(c, u) && b < |a.arr| && b !in c.table && k + 1 < u.unused
    ensures var d := CacheSpec.Load(c, b, data); k < |d.lru| && Fresh(d, d.lru[k])
  {
    assert Fresh(c, c.lru[k + 1]);
    LoadShifts(c, a, b, data, k);
    hide Rel, Tracks, CacheSpec.Load, Fresh;
  }

  lemma {:induction false} LoadIdle(c: CacheSpec.Cache, a: Plain, u: Usage, b: nat, data: Block, k: nat)
    requires Rel(c, a) && Tracks(c, u) && b < |a.arr| && b !in c.table && k < |MakeRoom(u).idle|
    ensures var d, v := CacheSpec.Load(c, b, data), MakeRoom(u);
      v.unused + k < |d.lru| && Holds(d, d.lru[v.unused + k], v.idle[k])
  {
    var o := if u.unused > 0 then k else k + 1;
    assert Holds(c, c.lru[u.unused + o], u.idle[o]);
    hide Rel, Tracks, CacheSpec.Load;
    LoadShifts(c, a, b, data, MakeRoom(u).unused + k);
  }

  lemma {:induction false} LoadTracks(c: CacheSpec.Cache, a: Plain, u: Usage, b: nat, data: Block)
    requires Rel(c, a) && Tracks(c, u) && b < |a.arr| && b !in c.table
    ensures Tracks(CacheSpec.Load(c, b, data), MakeRoom(u)) && Holds(CacheSpec.Load(c, b, data), CacheSpec.Victim(c), b)
  {
    var d, v := CacheSpec.Load(c, b, data), MakeRoom(u);
    LoadLength(c, b, data);
    forall k | 0 <= k < v.unused ensures Fresh(d, d.lru[k]) {
      LoadUnused(c, a, u, b, data, k);
    }
    forall k | 0 <= k < |v.idle| ensures Holds(d, d.lru[v.unused + k], v.idle[k]) {
      LoadIdle(c, a, u, b, data, k);
    }
    hide CacheSpec.Load, Fresh, Holds, CacheSpec.Shape, FreshOk;
  }

  lemma {:induction false} TakeTracks(c: CacheSpec.Cache, a: Plain, u: Usage, b: nat)
    requires Rel(c, a) && Tracks(c, u) && b < |a.arr|
    ensures Tracks(CacheSpec.Acquire(c, b), Take(u, a, b))
  {
    if b in c.table {
      PinTracks(c, a, u, b);
    } else {
      assert Pins(c, b) == a.pins[b];
      TracksIdle(c, a, u, b);
      LoadTracks(c, a, u, b, CacheSpec.Evict(c).disk[b]);
    }
  }

  /** Putting the entry that holds b at the end of the list. */
  lemma {:induction false} AppendTracks(c: CacheSpec.Cache, d: CacheSpec.Cache, u: Usage, i: nat, b: nat)
    requires Tracks(c, u) && Holds(c, i, b)
    requires d.lru == c.lru + [i] && d.table == c.table && |d.pool| == |c.pool|
    requires forall j :: 0 <= j < |c.pool| ==> d.pool[j].block == c.pool[j].block
    ensures Tracks(d, u.(idle := u.idle + [b]))
  {
    assert forall j: nat :: CacheSpec.Hashed(d, j) == CacheSpec.Hashed(c, j);
  }

  lemma {:induction false} ReleaseList(c: CacheSpec.Cache, b: nat, flags: nat)
    requires CacheSpec.Shape(c) && b in c.table && c.pool[c.table[b]].count > 0
    ensures CacheSpec.Release(c, b, flags).lru == if c.pool[c.table[b]].count == 1 then c.lru + [c.table[b]] else c.lru
  {
  }

  lemma {:induction false} ReleaseTracks(c: CacheSpec.Cache, u: Usage, b: nat, flags: nat)
    requires CacheSpec.Shape(c) && Tracks(c, u) && b in c.table && c.pool[c.table[b]].count > 0
    ensures Tracks(CacheSpec.Release(c, b, flags),
                   if c.pool[c.table[b]].count == 1 then u.(idle := u.idle + [b]) else u)
  {
    var d := CacheSpec.Release(c, b, flags);
    ReleaseEffect(c, b, flags);
    ReleaseList(c, b, flags);
    hide CacheSpec.Release;
    if c.pool[c.table[b]].count == 1 {
      AppendTracks(c, d, u, c.table[b], b);
    } else {
      SameTracks(c, d, u);
    }
  }

  lemma {:induction false} WriteTracks(c: CacheSpec.Cache, a: Plain, u: Usage, b: nat, data: Block)
    requires Rel(c, a) && Tracks(c, u) && b < |a.arr|
    ensures Tracks(CacheSpec.Write(c, b, data), UsageStep(u, a, Write(b, data)))
  {
    var d := CacheSpec.Write(c, b, data);
    assert Pins(c, b) == a.pins[b];
    TracksIdle(c, a, u, b);
    if b in c.table {
      SameTracks(c, d, u);
    } else {
      var n := CacheSpec.Load(c, b, data);
      LoadTracks(c, a, u, b, data);
      AppendTracks(n, d, MakeRoom(u), CacheSpec.Victim(c), b);
    }
  }

  lemma {:induction false} ReadTracks(c: CacheSpec.Cache, a: Plain, u: Usage, b: nat)
    requires Rel(c, a) && Tracks(c, u) && b < |a.arr|
    ensures Tracks(ReadThrough(c, b).0, UsageStep(u, a, Read(b)))
  {
    var d, v := CacheSpec.Acquire(c, b), Take(u, a, b);
    ReadShape(c, b);
    TakeTracks(c, a, u, b);
    AcquireCount(c, b);
    assert Pins(c, b) == a.pins[b];
    hide CacheSpec.Acquire, CacheSpec.Release, CacheSpec.Shape, Rel, Tracks, Take;
    ReleaseTracks(d, v, b, 0);
    ReadUsage(u, a, b);
    hide UsageStep;
  }

  lemma {:induction false} ReadUsage(u: Usage, a: Plain, b: nat)
    requires PlainOk(a) && b < |a.arr|
    ensures var v := Take(u, a, b);
      UsageStep(u, a, Read(b)) == if a.pins[b] == 0 then v.(idle := v.idle + [b]) else v
  {
  }

  lemma {:induction false} AcquireCount(c: CacheSpec.Cache, b: nat)
    requires CacheSpec.Shape(c) && b < |c.disk|
    ensures var d := CacheSpec.Acquire(c, b);
      b in d.table && d.table[b] < |d.pool| && d.pool[d.table[b]].count == Pins(c, b) + 1
  {
    if b !in c.table {
      LoadEffect(c, b, CacheSpec.Evict(c).disk[b]);
    }
  }

  /** A store, an announced store and a sync are no use of anything. */
  lemma {:induction false} OtherTracks(c: CacheSpec.Cache, u: Usage, op: Op)
    requires CacheSpec.Shape(c) && Tracks(c, u) && (op.Sync? || op.MarkDirty? || op.Store?)
    ensures Tracks(CacheStep(c, op), u)
  {
    hide Tracks;
    SyncShape(c, 0);
    SameTracks(c, CacheStep(c, op), u);
  }

  lemma {:induction false} StepTracks(c: CacheSpec.Cache, a: Plain, u: Usage, op: Op)
    requires Rel(c, a) && Tracks(c, u) && Legal(a, op)
    ensures Tracks(CacheStep(c, op), UsageStep(u, a, op))
  {
    hide Tracks, FreshOk;
    match op
    case Acquire(b) => TakeTracks(c, a, u, b);
    case Write(b, data) => WriteTracks(c, a, u, b, data);
    case Release(b, flags) => assert Pins(c, b) == a.pins[b]; ReleaseTracks(c, u, b, flags);
    case Read(b) => ReadTracks(c, a, u, b);
    case _ => OtherTracks(c, u, op);
  }

  // ---------------------------------------------------------------- over whole runs

  lemma {:induction false} RunTracks(c: CacheSpec.Cache, a: Plain, u: Usage, ops: seq<Op>)
    requires Rel(c, a) && Tracks(c, u) && LegalRun(a, ops) && ZeroSafeRun(c, ops)
    ensures Tracks(CacheRun(c, ops), UsageRun(u, a, ops))
    decreases |ops|
  {
    hide Tracks, UsageStep;
    if ops != [] {
      RestSafe(c, a, ops);
      StepTracks(c, a, u, ops[0]);
      RunTracks(CacheStep(c, ops[0]), PlainStep(a, ops[0]), UsageStep(u, a, ops[0]), ops[1..]);
    }
  }

  /** A new cache has as many unused entries as was asked for, and at least 16. */
  function NewUsage(size: nat): Usage {
    Usage([], if size < 16 then 16 else size)
  }

  function NewPlain(disk: seq<Block>): (a: Plain)
    ensures PlainOk(a) && |a.arr| == |disk|
  {
    Plain(disk, seq(|disk|, _ => 0), {})
  }

  lemma {:induction false} InitTracks(disk: seq<Block>, size: nat)
    ensures Rel(CacheSpec.Init(disk, size), NewPlain(disk)) && Tracks(CacheSpec.Init(disk, size), NewUsage(size))
    ensures UsageOk(NewUsage(size), NewPlain(disk))
  {
    InitRel(disk, size);
  }

  /** Every block idle after a run from a new cache was used in it. */
  lemma {:induction false} IdleUsed(u: Usage, a: Plain, ops: seq<Op>, b: nat)
    requires UsageOk(u, a) && LegalRun(a, ops) && b in UsageRun(u, a, ops).idle
    ensures b in u.idle || LastUse(u, a, ops, b) >= 0
    decreases |ops|
  {
    if ops != [] {
      UsageStepOk(u, a, ops[0]);
      IdleUsed(UsageStep(u, a, ops[0]), PlainStep(a, ops[0]), ops[1..], b);
      if !ops[0].Sync? && !ops[0].Store? && !ops[0].MarkDirty? {
        TakeKeeps(u, a, ops[0].block);
        hide Take;
      }
    }
  }

  /** Which entry the cache hands out next. */
  lemma {:induction false} TracksVictim(c: CacheSpec.Cache, a: Plain, u: Usage)
    requires Rel(c, a) && Tracks(c, u)
    ensures if u.unused > 0 then Fresh(c, CacheSpec.Victim(c))
            else if u.idle == [] then CacheSpec.Victim(c) == |c.pool|
            else Holds(c, CacheSpec.Victim(c), u.idle[0])
    ensures forall b: nat :: b in u.idle <==> b < |c.disk| && b in c.table && a.pins[b] == 0
  {
    TracksOk(c, a, u);
    forall b: nat | b < |c.disk| ensures b in u.idle <==> b in c.table && a.pins[b] == 0 {
      TracksIdle(c, a, u, b);
    }
    if u.unused == 0 && u.idle != [] {
      assert Holds(c, c.lru[u.unused + 0], u.idle[0]);
    }
  }

  /** The first idle block is the one whose last use lies furthest back. */
  lemma {:induction false} FirstIdle(u: Usage, a: Plain, ops: seq<Op>, b: nat)
    requires UsageOk(u, a) && u.idle == [] && LegalRun(a, ops) && b in UsageRun(u, a, ops).idle
    ensures var first := UsageRun(u, a, ops).idle[0];
      && 0 <= LastUse(u, a, ops, first) <= LastUse(u, a, ops, b)
      && (b != first ==> LastUse(u, a, ops, first) < LastUse(u, a, ops, b))
  {
    var r := UsageRun(u, a, ops).idle;
    var k :| 0 <= k < |r| && r[k] == b;
    IdleUsed(u, a, ops, r[0]);
    IdleUsed(u, a, ops, b);
    if k > 0 {
      assert Before(r, r[0], r[k]);
      RunOrder(u, a, ops, r[0], b);
    }
  }

  /**
   After any legal run from a new cache, the cached blocks without pins are the idle blocks of the usage machine.
   A block that is not cached next takes an unused entry while there is one. After that it takes the place of
   the idle block whose last use lies furthest back in the run, and only when no block is idle does the pool grow.
   */
  lemma {:induction false} VictimUnpinnedLongest(disk: seq<Block>, size: nat, ops: seq<Op>)
    requires var a, c := NewPlain(disk), CacheSpec.Init(disk, size);
      LegalRun(a, ops) && CacheSpec.Shape(c) && ZeroSafeRun(c, ops)
    ensures CacheSpec.Shape(CacheSpec.Init(disk, size))
    ensures var a, d := PlainRun(NewPlain(disk), ops), CacheRun(CacheSpec.Init(disk, size), ops);
      forall b: nat :: b in UsageRun(NewUsage(size), NewPlain(disk), ops).idle <==>
        b < |disk| && b in d.table && a.pins[b] == 0
    ensures var u, d := UsageRun(NewUsage(size), NewPlain(disk), ops), CacheRun(CacheSpec.Init(disk, size), ops);
      if u.unused > 0 then Fresh(d, CacheSpec.Victim(d))
      else if u.idle == [] then CacheSpec.Victim(d) == |d.pool|
      else Holds(d, CacheSpec.Victim(d), u.idle[0])
    ensures var u := UsageRun(NewUsage(size), NewPlain(disk), ops);
      forall b :: b in u.idle && b != u.idle[0] ==>
        LastUse(NewUsage(size), NewPlain(disk), ops, u.idle[0]) < LastUse(NewUsage(size), NewPlain(disk), ops, b)
  {
    hide Tracks, Rel, Fresh, Holds, LastUse;
    var a, c, u := NewPlain(disk), CacheSpec.Init(disk, size), NewUsage(size);
    InitTracks(disk, size);
    RunTracks(c, a, u, ops);
    CacheRefinesArray(c, a, ops);
    TracksVictim(CacheRun(c, ops), PlainRun(a, ops), UsageRun(u, a, ops));
    forall b | b in UsageRun(u, a, ops).idle && b != UsageRun(u, a, ops).idle[0]
      ensures LastUse(u, a, ops, UsageRun(u, a, ops).idle[0]) < LastUse(u, a, ops, b)
    {
      FirstIdle(u, a, ops, b);
    }
  }

  // ---------------------------------------------------------------- what is a use and what is not

  /** The blocks on the list, once every entry has been used. */
  function IdleOf(c: CacheSpec.Cache): Usage
    requires CacheSpec.Shape(c)
  {
    Usage(seq(|c.lru|, k requires 0 <= k < |c.lru| => c.pool[c.lru[k]].block), 0)
  }

  lemma {:induction false} IdleOfTracks(c: CacheSpec.Cache, a: Plain)
    requires Rel(c, a) && c.lru != [] && CacheSpec.Hashed(c, c.lru[0])
    ensures Tracks(c, IdleOf(c)) && AtMostOneFresh(c)
  {
    if i: nat :| Fresh(c, i) {
      FreshFirst(c, i);
    }
    forall k | 0 <= k < |c.lru| ensures CacheSpec.Hashed(c, c.lru[k]) {
      assert c.lru[k] in c.lru && !Fresh(c, c.lru[k]);
    }
  }

  /** Block b is cached after one operation and a read of block x. */
  predicate CachedAfter(c: CacheSpec.Cache, op: Op, x: nat, b: nat)
    requires CacheSpec.Shape(c)
  {
    b in CacheStep(CacheStep(c, op), Read(x)).table
  }

  lemma {:induction false} CachedIfIdle(c: CacheSpec.Cache, a: Plain, u: Usage, op: Op, x: nat, b: nat)
    requires Rel(c, a) && Tracks(c, u) && AtMostOneFresh(c) && Legal(a, op) && x < |a.arr|
    requires b < |a.arr| && PlainStep(a, op).pins[b] == 0
    ensures CachedAfter(c, op, x, b) <==> b in UsageStep(UsageStep(u, a, op), PlainStep(a, op), Read(x)).idle
  {
    var c1, a1, u1 := CacheStep(c, op), PlainStep(a, op), UsageStep(u, a, op);
    StepRel(c, a, op);
    StepFresh(c, a, op);
    StepTracks(c, a, u, op);
    hide CacheStep, UsageStep, Tracks, FreshOk, CacheSpec.Shape;
    StepRel(c1, a1, Read(x));
    StepTracks(c1, a1, u1, Read(x));
    TracksIdle(CacheStep(c1, Read(x)), a1, UsageStep(u1, a1, Read(x)), b);
  }

  /**
   A read is a use and a write of a cached block is none. In a pool without unused entries let v be the block that
   would go next and w the one after it. If v is read, reading an uncached block drops w; if v is written, it drops v.
   */
  lemma {:induction false} ReadSavesWriteDoesNot(c: CacheSpec.Cache, a: Plain, x: nat, data: Block)
    requires Rel(c, a) && |c.lru| >= 2 && CacheSpec.Hashed(c, c.lru[0]) && x < |c.disk| && x !in c.table
    ensures var v, w := c.pool[c.lru[0]].block, c.pool[c.lru[1]].block;
      && CachedAfter(c, Read(v), x, v) && !CachedAfter(c, Read(v), x, w)
      && !CachedAfter(c, Write(v, data), x, v) && CachedAfter(c, Write(v, data), x, w)
  {
    var u := IdleOf(c);
    IdleOfTracks(c, a);
    TracksOk(c, a, u);
    var v, w := u.idle[0], u.idle[1];
    assert Pins(c, x) == a.pins[x];
    TracksIdle(c, a, u, x);
    IdleAfter(u, a, data, x);
    hide CachedAfter, UsageStep, Tracks, FreshOk, CacheSpec.Shape;
    forall b | b == v || b == w
      ensures CachedAfter(c, Read(v), x, b) <==> b in u.idle[2..] + [v, x]
      ensures CachedAfter(c, Write(v, data), x, b) <==> b in u.idle[1..] + [x]
    {
      CachedIfIdle(c, a, u, Read(v), x, b);
      CachedIfIdle(c, a, u, Write(v, data), x, b);
    }
    assert u.idle[1..][0] == w;
  }

  lemma {:induction false} IdleAfter(u: Usage, a: Plain, data: Block, x: nat)
    requires UsageOk(u, a) && u.unused == 0 && |u.idle| >= 2 && x < |a.arr| && x !in u.idle && a.pins[x] == 0
    ensures var v, w := u.idle[0], u.idle[1];
      && UsageStep(UsageStep(u, a, Read(v)), PlainStep(a, Read(v)), Read(x)).idle == u.idle[2..] + [v, x]
      && UsageStep(UsageStep(u, a, Write(v, data)), PlainStep(a, Write(v, data)), Read(x)).idle == u.idle[1..] + [x]
      && v !in u.idle[1..] + [x] && w !in u.idle[2..] + [v, x]
  {
    WithoutAt(u.idle, 0);
    assert u.idle[..0] + u.idle[1..] == u.idle[1..];
  }
}
