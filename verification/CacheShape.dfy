/**
 Every cache operation keeps the structure (Shape), for every block number and every state:
 the list, the hash table and the dirty bits need no promise from the client,
 apart from not releasing a block more often than it was acquired.
 */
module CacheShape {
  import opened Blocks
  import opened CacheSpec

  lemma {:induction false} InitShape(disk: seq<Block>, size: nat)
    ensures Shape(Init(disk, size))
  {
    var c := Init(disk, size);
    forall i | 0 <= i < |c.pool| ensures i in c.lru {
      assert c.lru[i] == i;
    }
  }

  // ---------------------------------------------------------------- the list

  lemma {:induction false} OrderedDistinct(pool: seq<Slot>, lru: seq<nat>, j: nat, k: nat)
    requires InPool(pool, lru) && Ordered(pool, lru)
    requires j < k < |lru|
    ensures lru[j] != lru[k]
  {
    assert pool[lru[j]].since < pool[lru[k]].since;
  }

  /** Unlinking entry lru[k] cuts the list at k. */
  lemma {:induction false} UnlinkAt(pool: seq<Slot>, lru: seq<nat>, k: nat)
    requires InPool(pool, lru) && Ordered(pool, lru) && k < |lru|
    ensures Unlink(lru, lru[k]) == lru[..k] + lru[k + 1..]
  {
    if k == 0 {
      assert lru[..0] + lru[1..] == lru[1..];
    } else {
      OrderedDistinct(pool, lru, 0, k);
      RestOrdered(pool, lru);
      hide InPool, Ordered;
      UnlinkAt(pool, lru[1..], k - 1);
      CutOfRest(lru, k);
    }
  }

  lemma {:induction false} RestOrdered(pool: seq<Slot>, lru: seq<nat>)
    requires InPool(pool, lru) && Ordered(pool, lru) && lru != []
    ensures InPool(pool, lru[1..]) && Ordered(pool, lru[1..])
  {
    var rest := lru[1..];
    assert forall k :: 0 <= k < |rest| ==> rest[k] == lru[k + 1];
  }

  lemma {:induction false} CutOfRest(lru: seq<nat>, k: nat)
    requires 0 < k < |lru|
    ensures lru[1..][k - 1] == lru[k]
    ensures [lru[0]] + (lru[1..][..k - 1] + lru[1..][k..]) == lru[..k] + lru[k + 1..]
  {
    assert lru[1..][..k - 1] == lru[1..k];
    assert lru[1..][k..] == lru[k + 1..];
    assert [lru[0]] + lru[1..k] == lru[..k];
  }

  lemma {:induction false} CutAt(lru: seq<nat>, k: nat, m: nat)
    requires k < |lru| && m < |lru| - 1
    ensures (lru[..k] + lru[k + 1..])[m] == lru[if m < k then m else m + 1]
  {
  }

  /** A list without its k-th entry names everything but that entry, in the same order. */
  lemma {:induction false} CutList(pool: seq<Slot>, lru: seq<nat>, k: nat)
    requires InPool(pool, lru) && Ordered(pool, lru) && k < |lru|
    ensures var r := lru[..k] + lru[k + 1..];
      && InPool(pool, r) && Ordered(pool, r)
      && (forall i :: i in r <==> i in lru && i != lru[k])
      && (forall m :: 0 <= m < |r| ==> r[m] in lru)
  {
    CutOrdered(pool, lru, k);
    var r := lru[..k] + lru[k + 1..];
    forall m | 0 <= m < |r| ensures r[m] != lru[k] && r[m] in lru {
      var o := if m < k then m else m + 1;
      CutAt(lru, k, m);
      OrderedDistinct(pool, lru, if o < k then o else k, if o < k then k else o);
    }
    hide Ordered, InPool;
    forall i | i in lru && i != lru[k] ensures i in r {
      var o :| 0 <= o < |lru| && lru[o] == i;
      CutAt(lru, k, if o < k then o else o - 1);
    }
  }

  lemma {:induction false} CutOrdered(pool: seq<Slot>, lru: seq<nat>, k: nat)
    requires InPool(pool, lru) && Ordered(pool, lru) && k < |lru|
    ensures InPool(pool, lru[..k] + lru[k + 1..]) && Ordered(pool, lru[..k] + lru[k + 1..])
  {
    var r := lru[..k] + lru[k + 1..];
    forall m | 0 <= m < |r| ensures r[m] == lru[if m < k then m else m + 1] {
      CutAt(lru, k, m);
    }
  }

  /** List times and membership only matter for the entries on the list. */
  lemma {:induction false} SameList(pool: seq<Slot>, lru: seq<nat>, pool': seq<Slot>, i: nat)
    requires InPool(pool, lru) && Ordered(pool, lru) && i !in lru && |pool| <= |pool'|
    requires forall j :: 0 <= j < |pool| && j != i ==> pool'[j].since == pool[j].since
    ensures InPool(pool', lru) && Ordered(pool', lru)
    ensures forall k :: 0 <= k < |lru| ==> pool'[lru[k]].since == pool[lru[k]].since
  {
    forall k | 0 <= k < |lru| ensures lru[k] != i && pool'[lru[k]].since == pool[lru[k]].since {
      assert lru[k] in lru;
    }
  }

  // ---------------------------------------------------------------- each operation

  /** Changing buffers, and dirty bits of hashed entries, keeps the structure. */
  lemma {:induction false} SameShape(c: Cache, d: Cache)
    requires Shape(c)
    requires d.lru == c.lru && d.table == c.table && d.clock == c.clock
    requires |d.pool| == |c.pool| && |d.disk| == |c.disk|
    requires forall i :: 0 <= i < |c.pool| ==>
      d.pool[i].block == c.pool[i].block && d.pool[i].count == c.pool[i].count && d.pool[i].since == c.pool[i].since
    requires forall i :: 0 <= i < |c.pool| && d.pool[i].dirty ==> c.pool[i].block < |c.disk|
    ensures Shape(d)
  {
  }

  lemma {:induction false} IncrementShape(c: Cache, i: nat)
    requires Shape(c) && i < |c.pool|
    ensures Shape(IncrementCount(c, i))
  {
    IncrementList(c, i);
    hide LruOk;
  }

  lemma {:induction false} IncrementList(c: Cache, i: nat)
    requires Shape(c) && i < |c.pool|
    ensures var d := IncrementCount(c, i); LruOk(d.pool, d.lru, d.clock)
  {
    hide TableOk;
    var d := IncrementCount(c, i);
    if c.pool[i].count == 0 {
      var k :| 0 <= k < |c.lru| && c.lru[k] == i;
      UnlinkAt(c.pool, c.lru, k);
      CutList(c.pool, c.lru, k);
      SameList(c.pool, d.lru, d.pool, i);
      hide Unlink;
    }
  }

  lemma {:induction false} DecrementShape(c: Cache, i: nat)
    requires Shape(c) && i < |c.pool| && c.pool[i].count > 0
    ensures Shape(DecrementCount(c, i))
  {
    DecrementList(c, i);
    hide LruOk;
  }

  lemma {:induction false} DecrementList(c: Cache, i: nat)
    requires Shape(c) && i < |c.pool| && c.pool[i].count > 0
    ensures var d := DecrementCount(c, i); LruOk(d.pool, d.lru, d.clock)
  {
    hide TableOk;
    var d := DecrementCount(c, i);
    SameList(c.pool, c.lru, d.pool, i);
    if c.pool[i].count == 1 {
      assert d.lru == c.lru + [i];
      assert Ordered(d.pool, d.lru);
    }
  }

  /** Taking the first entry off the list, whatever then happens to that entry. */
  lemma {:induction false} PopList(pool: seq<Slot>, lru: seq<nat>, clock: nat, s: Slot)
    requires LruOk(pool, lru, clock) && lru != []
    ensures var p := pool[lru[0] := s]; var r := lru[1..];
      && lru[0] !in r && InPool(p, r) && Ordered(p, r)
      && (forall i :: 0 <= i < |p| && i != lru[0] ==> (i in r <==> p[i].count == 0))
      && (forall k :: 0 <= k < |r| ==> p[r[k]].since < clock)
  {
    CutList(pool, lru, 0);
    assert lru[..0] + lru[1..] == lru[1..];
    SameList(pool, lru[1..], pool[lru[0] := s], lru[0]);
  }

  lemma {:induction false} EvictList(c: Cache)
    requires Shape(c)
    ensures var e := Evict(c); var v := Victim(c);
      && v !in e.lru && InPool(e.pool, e.lru) && Ordered(e.pool, e.lru)
      && (forall i :: 0 <= i < |e.pool| && i != v ==> (i in e.lru <==> e.pool[i].count == 0))
      && (forall k :: 0 <= k < |e.lru| ==> e.pool[e.lru[k]].since < e.clock)
  {
    if c.lru != [] {
      PopList(c.pool, c.lru, c.clock, c.pool[c.lru[0]].(dirty := false));
    }
  }

  /** Loading block b into the victim keeps the structure and hashes exactly b in place of the victim's block. */
  lemma {:induction false} LoadShape(c: Cache, b: nat, data: Block)
    requires Shape(c) && b < |c.disk| && b !in c.table
    ensures Shape(Load(c, b, data))
  {
    LoadList(c, b, data);
    LoadTable(c, b, data);
    hide LruOk, TableOk, Load;
  }

  lemma {:induction false} LoadList(c: Cache, b: nat, data: Block)
    requires Shape(c) && b < |c.disk| && b !in c.table
    ensures var d := Load(c, b, data); LruOk(d.pool, d.lru, d.clock)
  {
    hide LruOk, TableOk, Ordered, InPool;
    var e, d := Evict(c), Load(c, b, data);
    EvictList(c);
    VictimInPool(c);
    SameList(e.pool, e.lru, d.pool, Victim(c));
    ListBack(e.pool, e.lru, d.pool, e.clock, Victim(c));
  }

  lemma {:induction false} VictimInPool(c: Cache)
    requires Shape(c)
    ensures if c.lru == [] then Victim(c) == |c.pool| else Victim(c) < |c.pool|
  {
  }

  /** The list of a pool in which a pinned entry, not on the list, has been replaced or added. */
  lemma {:induction false} ListBack(pool: seq<Slot>, lru: seq<nat>, pool': seq<Slot>, clock: nat, v: nat)
    requires v !in lru && InPool(pool', lru) && Ordered(pool', lru) && InPool(pool, lru)
    requires |pool| <= |pool'| <= |pool| + 1 && v < |pool'| && pool'[v].count > 0 && (|pool'| > |pool| ==> v == |pool|)
    requires forall i :: 0 <= i < |pool| && i != v ==> pool'[i] == pool[i] && (i in lru <==> pool[i].count == 0)
    requires forall k :: 0 <= k < |lru| ==> pool'[lru[k]].since < clock
    ensures LruOk(pool', lru, clock)
  {
    hide Ordered;
  }

  lemma {:induction false} LoadTable(c: Cache, b: nat, data: Block)
    requires Shape(c) && b < |c.disk| && b !in c.table
    ensures var d := Load(c, b, data); TableOk(d.pool, d.table, |d.disk|)
  {
    assert c.lru != [] ==> c.lru[0] in c.lru;
    assert c.lru != [] ==> c.lru[0] < |c.pool|;
    hide LruOk, Ordered;
  }

  lemma {:induction false} AcquireShape(c: Cache, b: nat)
    requires Shape(c) && b < |c.disk|
    ensures Shape(Acquire(c, b)) && |Acquire(c, b).disk| == |c.disk|
  {
    if b in c.table {
      IncrementShape(c, c.table[b]);
    } else {
      LoadShape(c, b, Evict(c).disk[b]);
    }
  }

  lemma {:induction false} ReleaseShape(c: Cache, b: nat, flags: nat)
    requires Shape(c) && CanRelease(c, b)
    ensures Shape(Release(c, b, flags)) && |Release(c, b, flags).disk| == |c.disk|
  {
    if b in c.table {
      var i := c.table[b];
      var c1 := if DirtyFlag(flags) then SetDirty(c, i, true) else c;
      SameShape(c, c1);
      var c2 := DecrementCount(c1, i);
      DecrementShape(c1, i);
      if CommitFlag(flags) {
        SameShape(c2, Commit(c2, i));
      }
    }
  }

  /** BlockCache::read: acquire, copy, release without the dirty flag. */
  lemma {:induction false} ReadShape(c: Cache, b: nat)
    requires Shape(c) && b < |c.disk|
    ensures var d := Acquire(c, b);
      && Shape(d) && b in d.table && d.table[b] < |d.pool| && d.pool[d.table[b]].count > 0
      && CanRelease(d, b)
      && Shape(Release(d, b, 0)) && |Release(d, b, 0).disk| == |c.disk|
  {
    AcquireShape(c, b);
    var d := Acquire(c, b);
    ReleaseShape(d, b, 0);
  }

  /** BlockCache::read: the state afterwards and the block it copies out. */
  function ReadThrough(c: Cache, b: nat): (r: (Cache, Block))
    requires Shape(c) && b < |c.disk|
    ensures Shape(r.0) && |r.0.disk| == |c.disk|
  {
    ReadShape(c, b);
    var d := Acquire(c, b);
    (Release(d, b, 0), d.pool[d.table[b]].buffer)
  }

  /** A write that misses is a load followed by marking dirty and dropping the only pin. */
  lemma {:induction false} WriteMiss(c: Cache, b: nat, data: Block)
    requires Shape(c) && b < |c.disk| && b !in c.table
    ensures var n := SetDirty(Load(c, b, data), Victim(c), true);
      && Victim(c) < |n.pool| && n.pool[Victim(c)] == Slot(b, 1, true, data, 0)
      && Write(c, b, data) == DecrementCount(n, Victim(c))
  {
    var n := SetDirty(Load(c, b, data), Victim(c), true);
    var v := Victim(c);
    assert n.pool[v := n.pool[v].(count := 0)] == Load(c, b, data).pool[v := n.pool[v].(count := 0)];
  }

  lemma {:induction false} WriteShape(c: Cache, b: nat, data: Block)
    requires Shape(c) && b < |c.disk|
    ensures Shape(Write(c, b, data)) && |Write(c, b, data).disk| == |c.disk|
  {
    if b in c.table {
      SameShape(c, Write(c, b, data));
    } else {
      WriteMiss(c, b, data);
      LoadShape(c, b, data);
      var n := SetDirty(Load(c, b, data), Victim(c), true);
      SameShape(Load(c, b, data), n);
      DecrementShape(n, Victim(c));
    }
  }

  /** sync changes nothing but the dirty bits and the device. */
  lemma {:induction false} SyncShape(c: Cache, k: nat)
    requires Shape(c) && k <= |c.pool|
    ensures Shape(SyncFrom(c, k))
    ensures var s := SyncFrom(c, k);
      && s.lru == c.lru && s.table == c.table && s.clock == c.clock
      && forall i :: 0 <= i < |c.pool| ==> s.pool[i] == c.pool[i].(dirty := c.pool[i].dirty && i < k)
    decreases |c.pool| - k
  {
    hide LruOk;
    if k < |c.pool| {
      var d := if c.pool[k].dirty then Commit(c, k) else c;
      SameShape(c, d);
      SyncShape(d, k + 1);
    }
  }
}
