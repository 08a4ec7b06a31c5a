/**
 What every operation of the write-back block cache does, as functions on values.
 Entries are named by their position in the buffer pool. The list of unpinned entries is a
 sequence of such positions, and the hash table is a map from block numbers to positions
 (BlockCache shows that the linked list and the 23 hash chains implement both).
 The functions follow the code on every block number, including block 0 (see CacheRefinement).
 `since` and `clock` are not in the program: they record when an entry was last put on the list.
 */
module CacheSpec {
  import opened Blocks

  const MIN_POOL := 16

  datatype Slot = Slot(block: nat, count: nat, dirty: bool, buffer: Block, since: nat)

  datatype Cache = Cache(pool: seq<Slot>, lru: seq<nat>, table: map<nat, nat>, disk: seq<Block>, clock: nat)

  // ---------------------------------------------------------------- structure

  /** Entry i is in the hash table. */
  predicate Hashed(c: Cache, i: nat) {
    i < |c.pool| && c.pool[i].block in c.table && c.table[c.pool[i].block] == i
  }

  predicate InPool(pool: seq<Slot>, lru: seq<nat>) {
    forall k :: 0 <= k < |lru| ==> lru[k] < |pool|
  }

  /** The list is ordered by the time its entries were put on it. */
  ghost predicate Ordered(pool: seq<Slot>, lru: seq<nat>)
    requires InPool(pool, lru)
  {
    forall j, k :: 0 <= j < k < |lru| ==> pool[lru[j]].since < pool[lru[k]].since
  }

  /** The list names exactly the entries with count 0, each once, longest-unpinned first. */
  ghost predicate LruOk(pool: seq<Slot>, lru: seq<nat>, clock: nat) {
    && InPool(pool, lru)
    && Ordered(pool, lru)
    && (forall i :: 0 <= i < |pool| ==> (i in lru <==> pool[i].count == 0))
    && (forall k :: 0 <= k < |lru| ==> pool[lru[k]].since < clock)
  }

  /** No two entries hold the same hashed block; an entry outside the table has block number 0. */
  ghost predicate TableOk(pool: seq<Slot>, table: map<nat, nat>, limit: nat) {
    && (forall b :: b in table ==> table[b] < |pool| && pool[table[b]].block == b && b < limit)
    && (forall i :: 0 <= i < |pool| ==> pool[i].block == 0 || (pool[i].block in table && table[pool[i].block] == i))
    && (forall i :: 0 <= i < |pool| && pool[i].dirty ==> pool[i].block < limit)
  }

  ghost predicate Shape(c: Cache) {
    LruOk(c.pool, c.lru, c.clock) && TableOk(c.pool, c.table, |c.disk|)
  }

  // ---------------------------------------------------------------- operations

  /** The constructor: max(size, 16) zeroed entries, all on the list in pool order. */
  function Init(disk: seq<Block>, size: nat): Cache {
    var n := Max(size, MIN_POOL);
    Cache(seq(n, i requires 0 <= i < n => Slot(0, 0, false, ZERO_BLOCK, i)), seq(n, i requires 0 <= i < n => i),
          map[], disk, n)
  }

  /** findEntry */
  function Find(c: Cache, b: nat): Option<nat> {
    if b in c.table then Some(c.table[b]) else None
  }

  /** setLast */
  function SetLast(c: Cache, i: nat): Cache
    requires i < |c.pool|
  {
    c.(lru := c.lru + [i], pool := c.pool[i := c.pool[i].(since := c.clock)], clock := c.clock + 1)
  }

  /** Drops entry i from the list. */
  function Unlink(lru: seq<nat>, i: nat): seq<nat> {
    if lru == [] then []
    else if lru[0] == i then lru[1..]
    else [lru[0]] + Unlink(lru[1..], i)
  }

  /** incrementCount */
  function IncrementCount(c: Cache, i: nat): Cache
    requires i < |c.pool|
  {
    c.(lru := if c.pool[i].count == 0 then Unlink(c.lru, i) else c.lru,
       pool := c.pool[i := c.pool[i].(count := c.pool[i].count + 1)])
  }

  /** decrementCount */
  function DecrementCount(c: Cache, i: nat): Cache
    requires i < |c.pool| && c.pool[i].count > 0
  {
    var c' := c.(pool := c.pool[i := c.pool[i].(count := c.pool[i].count - 1)]);
    if c'.pool[i].count == 0 then SetLast(c', i) else c'
  }

  /** The entry newEntry hands out: the head of the list, or one new entry when the list is empty. */
  function Victim(c: Cache): nat {
    if c.lru == [] then |c.pool| else c.lru[0]
  }

  /** The first half of newEntry: takes the victim off the list, writes it back if dirty, unhashes its block. */
  function Evict(c: Cache): Cache
    requires Shape(c)
  {
    if c.lru == [] then c
    else
      var s := c.pool[c.lru[0]];
      c.(lru := c.lru[1..],
         pool := c.pool[c.lru[0] := s.(dirty := false)],
         disk := if s.dirty then c.disk[s.block := s.buffer] else c.disk,
         table := c.table - {s.block})
  }

  function Put(c: Cache, i: nat, s: Slot): Cache
    requires i <= |c.pool|
  {
    c.(pool := if i == |c.pool| then c.pool + [s] else c.pool[i := s])
  }

  /** newEntry; junk is whatever the reused or new buffer happens to hold. */
  function NewEntry(c: Cache, b: nat, junk: Block): Cache
    requires Shape(c)
  {
    Put(Evict(c), Victim(c), Slot(b, 1, false, junk, 0))
  }

  /** addEntry */
  function AddEntry(c: Cache, i: nat): Cache
    requires i < |c.pool|
  {
    c.(table := c.table[c.pool[i].block := i])
  }

  /** newEntry, then the buffer is filled and the entry hashed. */
  function Load(c: Cache, b: nat, data: Block): Cache
    requires Shape(c)
  {
    AddEntry(NewEntry(c, b, data), Victim(c))
  }

  function Acquire(c: Cache, b: nat): Cache
    requires Shape(c) && b < |c.disk|
  {
    if b in c.table then IncrementCount(c, c.table[b]) else Load(c, b, Evict(c).disk[b])
  }

  /** A client storing through the pointer that acquire returned. */
  function Store(c: Cache, i: nat, data: Block): Cache
    requires i < |c.pool|
  {
    c.(pool := c.pool[i := c.pool[i].(buffer := data)])
  }

  function SetDirty(c: Cache, i: nat, dirty: bool): Cache
    requires i < |c.pool|
  {
    c.(pool := c.pool[i := c.pool[i].(dirty := dirty)])
  }

  function MarkDirty(c: Cache, b: nat): Cache
    requires Shape(c)
  {
    if b in c.table then SetDirty(c, c.table[b], true) else c
  }

  /** kBlockDirty is 1, kBlockCommitNow is 2; either makes the entry dirty. */
  predicate DirtyFlag(flags: nat) {
    flags % 4 != 0
  }

  predicate CommitFlag(flags: nat) {
    flags / 2 % 2 == 1
  }

  /** A cached block may be released only as often as it was acquired: the count is unsigned. */
  predicate CanRelease(c: Cache, b: nat)
    requires Shape(c)
  {
    b in c.table ==> c.pool[c.table[b]].count > 0
  }

  /** Writes entry i to the device and makes it clean. */
  function Commit(c: Cache, i: nat): Cache
    requires i < |c.pool| && c.pool[i].block < |c.disk|
  {
    SetDirty(c.(disk := c.disk[c.pool[i].block := c.pool[i].buffer]), i, false)
  }

  function Release(c: Cache, b: nat, flags: nat): Cache
    requires Shape(c) && CanRelease(c, b)
  {
    if b !in c.table then c
    else
      var i := c.table[b];
      var c1 := if DirtyFlag(flags) then SetDirty(c, i, true) else c;
      var c2 := DecrementCount(c1, i);
      if CommitFlag(flags) then Commit(c2, i) else c2
  }

  function Write(c: Cache, b: nat, data: Block): Cache
    requires Shape(c) && b < |c.disk|
  {
    if b in c.table then Store(SetDirty(c, c.table[b], true), c.table[b], data)
    else
      var n := Load(c, b, data);
      var v := Victim(c);
      SetLast(n.(pool := n.pool[v := n.pool[v].(count := 0, dirty := true)]), v)
  }

  /** sync, from pool position k on. */
  function SyncFrom(c: Cache, k: nat): (r: Cache)
    requires k <= |c.pool|
    requires forall i :: 0 <= i < |c.pool| && c.pool[i].dirty ==> c.pool[i].block < |c.disk|
    ensures |r.pool| == |c.pool| && |r.disk| == |c.disk|
    decreases |c.pool| - k
  {
    if k == |c.pool| then c
    else SyncFrom(if c.pool[k].dirty then Commit(c, k) else c, k + 1)
  }

  function Sync(c: Cache): Cache
    requires Shape(c)
  {
    SyncFrom(c, 0)
  }
}
