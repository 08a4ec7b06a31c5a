/**
 The write-back block cache on the heap: entries linked into 23 hash chains and a doubly linked list.
 Every method is proved against its function in CacheSpec; m is the abstract value of the cache.
 The private methods work on one structure at a time and name its abstract value in ghost parameters.
 */
module BlockCache {
  import opened Blocks
  import opened CacheSpec
  import opened HashChains
  import CacheRefinement
  import CacheShape

  /** The device under the cache: an array of blocks, accessed in range. */
  class BlockDevice {
    var blocks: seq<Block>
    constructor (blocks: seq<Block>)
      ensures this.blocks == blocks
    {
      this.blocks := blocks;
    }

    method Read(block: nat) returns (data: Block)
      requires block < |blocks|
      ensures data == blocks[block]
    {
      data := blocks[block];
    }

    method Write(block: nat, data: Block)
      requires block < |blocks|
      modifies this
      ensures blocks == old(blocks)[block := data]
    {
      blocks := blocks[block := data];
    }
  }

  class ConcreteBlockCache {
    const device: BlockDevice
    const hashTable: array<Entry?>
    var buffers: seq<Entry>
    var first: Entry?
    var last: Entry?

    ghost var entries: set<Entry>
    ghost var m: Cache
    ghost var list: seq<Entry>
    ghost var chains: seq<seq<Entry>>

    /** The pool entries hold what pool says. */
    ghost predicate PoolIs(pool: seq<Slot>)
      reads this`buffers, this`entries, entries`block, entries`count, entries`dirty, entries`buffer
    {
      && |buffers| == |pool|
      && forall i :: 0 <= i < |buffers| ==>
        var e := buffers[i];
        && e in entries && e.id == i && e.block == pool[i].block && e.count == pool[i].count
        && e.dirty == pool[i].dirty && e.buffer == pool[i].buffer
    }

    /** first .. last is a consistent doubly linked list of exactly the entries of s, in that order. */
    ghost predicate ListIs(s: seq<Entry>)
      reads this`first, this`last, s`next, s`prev
    {
      && NoDup(s)
      && first == At(s, 0) && last == At(s, |s| - 1)
      && (forall k {:trigger s[k].next} :: 0 <= k < |s| ==> s[k].next == At(s, k + 1))
      && (forall k {:trigger s[k].prev} :: 0 <= k < |s| ==> s[k].prev == At(s, k - 1))
    }

    ghost predicate Owned(e: Entry)
      reads this`buffers, this`entries
    {
      e.id < |buffers| && buffers[e.id] == e && e in entries
    }

    /** The list names the pool positions lru. */
    ghost predicate Names(s: seq<Entry>, lru: seq<nat>)
      reads this`buffers, this`entries
    {
      |s| == |lru| && forall k :: 0 <= k < |s| ==> s[k].id == lru[k] && Owned(s[k])
    }

    /** Pinned entries are not linked into the list. */
    ghost predicate PinnedLoose()
      reads this`buffers, this`entries, entries`count, entries`next, entries`prev
    {
      && (forall i :: 0 <= i < |buffers| ==> buffers[i] in entries)
      && forall i :: 0 <= i < |buffers| && buffers[i].count > 0 ==> buffers[i].next == null && buffers[i].prev == null
    }

    /** Each hash chain is linked as chains[h] says. */
    ghost predicate ChainsLinked()
      reads this`buffers, this`chains, hashTable, this`entries, entries`nextHash
    {
      && hashTable.Length == HASH_SIZE && |chains| == HASH_SIZE
      && (forall h, k :: 0 <= h < HASH_SIZE && 0 <= k < |chains[h]| ==> Owned(chains[h][k]))
      && forall h :: 0 <= h < HASH_SIZE ==> Linked(hashTable[h], chains[h])
    }

    /** The heap represents c. */
    ghost predicate HeapIs(c: Cache)
      reads this, hashTable, device, entries, list
    {
      && PoolIs(c.pool) && ListIs(list) && Names(list, c.lru) && PinnedLoose()
      && ChainsLinked() && ChainsHold(c.pool, c.table, chains) && device.blocks == c.disk
    }

    ghost predicate HeapOk()
      reads this, hashTable, device, entries, list
    {
      HeapIs(m)
    }

    ghost predicate Valid()
      reads this, hashTable, device, entries, list
    {
      HeapOk() && Shape(m)
    }

    // -------------------------------------------------------------- construction

    constructor (device: BlockDevice, size: nat)
      ensures Valid() && m == Init(device.blocks, size)
      ensures this.device == device && fresh(hashTable) && fresh(entries)
    {
      this.device := device;
      hashTable := new Entry?[HASH_SIZE](_ => null);
      var n := if size < 16 then 16 else size;
      var pool := MakeEntries(n);
      buffers := pool;
      entries := set e | e in pool;
      first, last := pool[0], pool[n - 1];
      m := Init(device.blocks, size);
      list := pool;
      chains := seq(HASH_SIZE, _ => []);
      new;
      LinkEntries(pool);
      NewIsValid(size);
    }

    lemma NewIsValid(size: nat)
      requires |buffers| == Max(size, MIN_POOL) && m == Init(device.blocks, size) && list == buffers
      requires first == buffers[0] && last == buffers[|buffers| - 1]
      requires entries == set e | e in buffers
      requires hashTable.Length == HASH_SIZE && forall h :: 0 <= h < HASH_SIZE ==> hashTable[h] == null
      requires chains == seq(HASH_SIZE, _ => [])
      requires forall j :: 0 <= j < |buffers| ==>
        var e := buffers[j]; e.id == j && e.block == 0 && e.count == 0 && !e.dirty && e.buffer == ZERO_BLOCK
      requires forall j {:trigger buffers[j].prev} :: 0 <= j < |buffers| ==> buffers[j].prev == At(buffers, j - 1)
      requires forall j {:trigger buffers[j].next} :: 0 <= j < |buffers| ==> buffers[j].next == At(buffers, j + 1)
      ensures Valid()
    {
      assert PoolIs(m.pool);
      assert ListIs(list);
      CacheShape.InitShape(device.blocks, size);
    }

    static method MakeEntries(n: nat) returns (pool: seq<Entry>)
      ensures |pool| == n && fresh(pool)
      ensures forall j :: 0 <= j < n ==>
        var e := pool[j];
        && e.id == j && e.block == 0 && e.count == 0 && !e.dirty && e.buffer == ZERO_BLOCK
        && e.next == null && e.prev == null
    {
      pool := [];
      for i := 0 to n
        invariant |pool| == i && fresh(pool)
        invariant forall j :: 0 <= j < i ==>
          var e := pool[j];
          && e.id == j && e.block == 0 && e.count == 0 && !e.dirty && e.buffer == ZERO_BLOCK
          && e.next == null && e.prev == null
      {
        var e := new Entry(i);
        pool := pool + [e];
      }
    }

    static method LinkEntries(pool: seq<Entry>)
      requires forall j :: 0 <= j < |pool| ==> pool[j].id == j && pool[j].next == null && pool[j].prev == null
      modifies pool`next, pool`prev
      ensures forall j {:trigger pool[j].prev} :: 0 <= j < |pool| ==> pool[j].prev == At(pool, j - 1)
      ensures forall j {:trigger pool[j].next} :: 0 <= j < |pool| ==> pool[j].next == At(pool, j + 1)
    {
      for i := 0 to |pool|
        invariant forall j {:trigger pool[j].prev} :: 0 <= j < i ==> pool[j].prev == At(pool, j - 1)
        invariant forall j {:trigger pool[j].next} :: 0 <= j < i ==> pool[j].next == At(pool, j + 1)
        invariant forall j :: i <= j < |pool| ==> pool[j].prev == null && pool[j].next == null
      {
        var e := pool[i];
        if i > 0 {
          e.prev := pool[i - 1];
        }
        if i < |pool| - 1 {
          e.next := pool[i + 1];
        }
      }
    }

    // -------------------------------------------------------------- hash table

    method FindEntry(block: nat) returns (e: Entry?)
      requires PoolIs(m.pool) && ChainsLinked() && ChainsHold(m.pool, m.table, chains)
      ensures e == null <==> block !in m.table
      ensures e != null ==> Owned(e) && e.id == m.table[block] && e.block == block
    {
      var hash := block % HASH_SIZE;
      ghost var c := chains[hash];
      assert Linked(hashTable[hash], c);
      assert forall j :: 0 <= j < |c| ==> Owned(chains[hash][j]) && InBucket(m.pool, m.table, hash, chains[hash][j].id);
      ghost var k := 0;
      e := hashTable[hash];
      while e != null && e.block != block
        invariant 0 <= k <= |c|
        invariant e == At(c, k)
        invariant forall j :: 0 <= j < k ==> m.pool[c[j].id].block != block
        decreases |c| - k
      {
        e := e.nextHash;
        k := k + 1;
      }
      if e == null {
        NotInChain(m.pool, m.table, chains, block);
      }
    }

    /** Bypasses entry k of the chain c at hashTable[hash]; prev is the entry before it, if any. */
    method UnlinkHash(hash: nat, prev: Entry?, e: Entry, ghost c: seq<Entry>, ghost k: nat)
      requires hash < hashTable.Length && k < |c| && Linked(hashTable[hash], c)
      requires prev == At(c, k - 1) && e == c[k]
      modifies hashTable, c`nextHash
      ensures Linked(hashTable[hash], Cut(c, k))
      ensures forall g :: 0 <= g < hashTable.Length && g != hash ==> hashTable[g] == old(hashTable[g])
    {
      Spread(c);
      CutNoDup(c, k);
      hide NoDup;
      if prev == null {
        hashTable[hash] := e.nextHash;
      } else {
        prev.nextHash := e.nextHash;
      }
      e.nextHash := null;
    }

    method RemoveEntry(block: nat, ghost pool: seq<Slot>, ghost table: map<nat, nat>)
      requires PoolIs(pool) && ChainsLinked() && ChainsHold(pool, table, chains)
      modifies this`chains, hashTable, entries`nextHash
      ensures ChainsLinked() && ChainsHold(pool, table - {block}, chains)
    {
      hide PoolIs, ChainsLinked, ChainsHold, NoDup;
      var hash := block % HASH_SIZE;
      HashSizes();
      ghost var c := chains[hash];
      ChainIsLinked(hash);
      ChainEntries(hash, pool, table);
      var e := hashTable[hash];
      if e == null {
        NotInChain(pool, table, chains, block);
        assert table - {block} == table;
        return;
      }
      if e.block == block {
        CutChain(pool, table, chains, hash, 0);
        Unchain(hash, null, e, 0, pool, table);
        return;
      }
      var prev := e;
      e := e.nextHash;
      ghost var k := 1;
      while e != null && e.block != block
        invariant 1 <= k <= |c|
        invariant prev == At(c, k - 1) && prev != null && e == At(c, k)
        invariant forall j :: 0 <= j < k ==> pool[c[j].id].block != block
        decreases |c| - k
      {
        prev := e;
        e := e.nextHash;
        k := k + 1;
      }
      if e == null {
        NotInChain(pool, table, chains, block);
        assert table - {block} == table;
        return;
      }
      CutChain(pool, table, chains, hash, k);
      Unchain(hash, prev, e, k, pool, table);
    }

    lemma HashSizes()
      requires ChainsLinked()
      ensures hashTable.Length == HASH_SIZE && |chains| == HASH_SIZE
    {
    }

    lemma ChainEntries(hash: nat, pool: seq<Slot>, table: map<nat, nat>)
      requires PoolIs(pool) && ChainsLinked() && ChainsHold(pool, table, chains) && hash < HASH_SIZE
      ensures NoDup(chains[hash])
      ensures forall j :: 0 <= j < |chains[hash]| ==>
        var e := chains[hash][j]; Owned(e) && e.id < |pool| && e.block == pool[e.id].block
    {
      assert Linked(hashTable[hash], chains[hash]);
      forall j | 0 <= j < |chains[hash]|
        ensures var e := chains[hash][j]; Owned(e) && e.id < |pool| && e.block == pool[e.id].block
      {
        assert InBucket(pool, table, hash, chains[hash][j].id) && Owned(chains[hash][j]);
      }
    }

    /** The relinking step of RemoveEntry, for the whole table: only the chain of e changes. */
    method Unchain(hash: nat, prev: Entry?, e: Entry, ghost k: nat, ghost pool: seq<Slot>, ghost table: map<nat, nat>)
      requires ChainsLinked() && ChainsHold(pool, table, chains)
      requires hash < HASH_SIZE && k < |chains[hash]|
      requires prev == At(chains[hash], k - 1) && e == chains[hash][k]
      modifies this`chains, hashTable, entries`nextHash
      ensures chains == old(chains)[hash := Cut(old(chains)[hash], k)] && ChainsLinked()
    {
      hide NoDup, InBucket, ChainsHold, At, Cut, ChainsLinked;
      ghost var cs := chains;
      HashSizes();
      ChainIsLinked(hash);
      forall g | 0 <= g < HASH_SIZE && g != hash ensures Linked(hashTable[g], cs[g]) && Apart(cs[g], cs[hash]) {
        ChainIsLinked(g);
        ChainsApart(pool, table, cs, g, hash);
      }
      ChainsOwned();
      UnlinkHash(hash, prev, e, cs[hash], k);
      chains := cs[hash := Cut(cs[hash], k)];
      CutOwned(cs, hash, k);
      forall g | 0 <= g < HASH_SIZE ensures Linked(hashTable[g], chains[g]) {
        if g != hash {
          assert old(Linked(hashTable[g], cs[g])) && Apart(cs[g], cs[hash]);
        }
      }
      LinkedAgain();
    }

    lemma ChainsOwned()
      requires ChainsLinked()
      ensures forall h, j :: 0 <= h < HASH_SIZE && 0 <= j < |chains[h]| ==> Owned(chains[h][j])
    {
    }

    lemma LinkedAgain()
      requires hashTable.Length == HASH_SIZE && |chains| == HASH_SIZE
      requires forall h, j :: 0 <= h < HASH_SIZE && 0 <= j < |chains[h]| ==> Owned(chains[h][j])
      requires forall h :: 0 <= h < HASH_SIZE ==> Linked(hashTable[h], chains[h])
      ensures ChainsLinked()
    {
    }

    lemma ChainIsLinked(g: nat)
      requires ChainsLinked() && g < HASH_SIZE
      ensures Linked(hashTable[g], chains[g])
    {
    }

    lemma CutOwned(cs: seq<seq<Entry>>, hash: nat, k: nat)
      requires |cs| == HASH_SIZE && hash < HASH_SIZE && k < |cs[hash]|
      requires forall h, j :: 0 <= h < HASH_SIZE && 0 <= j < |cs[h]| ==> Owned(cs[h][j])
      ensures var r := cs[hash := Cut(cs[hash], k)];
        forall h, j :: 0 <= h < HASH_SIZE && 0 <= j < |r[h]| ==> Owned(r[h][j])
    {
      var r := cs[hash := Cut(cs[hash], k)];
      forall h, j | 0 <= h < HASH_SIZE && 0 <= j < |r[h]| ensures Owned(r[h][j]) {
        assert r[h][j] == cs[h][if h == hash && j >= k then j + 1 else j];
      }
    }

    /** addEntry: pushes e on the front of the chain of its block. */
    method AddEntry(e: Entry, ghost pool: seq<Slot>, ghost table: map<nat, nat>)
      requires PoolIs(pool) && ChainsLinked() && ChainsHold(pool, table, chains)
      requires Owned(e) && e.block !in table
      modifies this`chains, hashTable, e`nextHash
      ensures ChainsLinked() && ChainsHold(pool, table[e.block := e.id], chains)
    {
      PushChain(pool, table, chains, e);
      forall g | 0 <= g < HASH_SIZE ensures e !in chains[g] {
        NotHashed(pool, table, chains, g, e);
      }
      PushHash(e.block % HASH_SIZE, e);
    }

    method PushHash(hash: nat, e: Entry)
      requires ChainsLinked() && hash < HASH_SIZE && Owned(e)
      requires forall g :: 0 <= g < HASH_SIZE ==> e !in chains[g]
      requires forall k :: 0 <= k < |chains[hash]| ==> chains[hash][k].id != e.id
      modifies this`chains, hashTable, e`nextHash
      ensures ChainsLinked() && chains == old(chains)[hash := [e] + old(chains)[hash]]
    {
      ghost var cs := chains;
      ghost var c := cs[hash];
      assert forall g :: 0 <= g < HASH_SIZE ==> Linked(hashTable[g], cs[g]);
      Spread(c);
      e.nextHash := hashTable[hash];
      hashTable[hash] := e;
      chains := cs[hash := [e] + c];
      assert Linked(hashTable[hash], [e] + c);
    }

    // -------------------------------------------------------------- list of unpinned entries

    method SetLast(e: Entry, ghost s: seq<Entry>)
      requires ListIs(s) && e.next == null && e.prev == null
      requires forall k :: 0 <= k < |s| ==> s[k].id != e.id
      modifies this`first, this`last, e`prev, s`next
      ensures ListIs(s + [e])
    {
      if last == null {
        first, last := e, e;
        return;
      }
      Spread(s);
      e.prev := last;
      last.next := e;
      last := e;
    }

    /** The list part of incrementCount: takes e = s[k] off the list. */
    method Detach(e: Entry, ghost s: seq<Entry>, ghost k: nat)
      requires ListIs(s) && k < |s| && e == s[k]
      modifies this`first, this`last, s`next, s`prev
      ensures ListIs(Cut(s, k)) && e.next == null && e.prev == null
    {
      Spread(s);
      CutNoDup(s, k);
      hide NoDup, Cut;
      var prev, next := e.prev, e.next;
      e.prev, e.next := null, null;
      if prev != null {
        prev.next := next;
      }
      if next != null {
        next.prev := prev;
      }
      if first == e {
        first := next;
      }
      if last == e {
        last := prev;
      }
      assert forall j {:trigger s[j].next} :: 0 <= j < |s| && j != k ==>
        s[j].next == At(s, if j + 1 == k then k + 1 else j + 1);
      CutNext(s, k);
      assert forall j {:trigger s[j].prev} :: 0 <= j < |s| && j != k ==>
        s[j].prev == At(s, if j - 1 == k then k - 1 else j - 1);
      CutPrev(s, k);
      CutEnds(s, k);
    }

    /** The list part of newEntry: takes the first entry off the list. */
    method PopFirst(ghost s: seq<Entry>) returns (e: Entry)
      requires ListIs(s) && first != null
      modifies this`first, this`last, s`next, s`prev
      ensures s != [] && e == s[0] && ListIs(s[1..]) && e.next == null && e.prev == null
    {
      Spread(s);
      e := first;
      if first == last {
        first, last := null, null;
      } else {
        first := e.next;
        first.prev := null;
      }
      e.next, e.prev := null, null;
    }

    static lemma CutNext(s: seq<Entry>, k: nat)
      requires k < |s|
      requires forall j {:trigger s[j].next} :: 0 <= j < |s| && j != k ==>
        s[j].next == At(s, if j + 1 == k then k + 1 else j + 1)
      ensures forall j {:trigger Cut(s, k)[j].next} :: 0 <= j < |Cut(s, k)| ==>
        Cut(s, k)[j].next == At(Cut(s, k), j + 1)
    {
      var r := Cut(s, k);
      forall j | 0 <= j < |r| ensures r[j].next == At(r, j + 1) {
        assert r[j] == s[if j < k then j else j + 1];
      }
    }

    static lemma CutPrev(s: seq<Entry>, k: nat)
      requires k < |s|
      requires forall j {:trigger s[j].prev} :: 0 <= j < |s| && j != k ==>
        s[j].prev == At(s, if j - 1 == k then k - 1 else j - 1)
      ensures forall j {:trigger Cut(s, k)[j].prev} :: 0 <= j < |Cut(s, k)| ==>
        Cut(s, k)[j].prev == At(Cut(s, k), j - 1)
    {
      var r := Cut(s, k);
      forall j | 0 <= j < |r| ensures r[j].prev == At(r, j - 1) {
        assert r[j] == s[if j < k then j else j + 1];
      }
    }

    static lemma CutEnds(s: seq<Entry>, k: nat)
      requires k < |s|
      ensures At(Cut(s, k), 0) == (if k == 0 then At(s, 1) else s[0])
      ensures At(Cut(s, k), |Cut(s, k)| - 1) == (if k == |s| - 1 then At(s, k - 1) else s[|s| - 1])
    {
    }

    /** Entries on the list are unpinned pool entries. */
    ghost predicate ListUnpinned()
      reads this`buffers, this`list, this`entries, list`count
    {
      forall k :: 0 <= k < |list| ==> Owned(list[k]) && list[k].count == 0
    }

    lemma ListIsLru()
      requires PoolIs(m.pool) && Names(list, m.lru) && Shape(m)
      ensures ListUnpinned()
    {
      forall k | 0 <= k < |list| ensures list[k].count == 0 {
        assert m.lru[k] in m.lru;
      }
    }

    lemma CutNames(s: seq<Entry>, lru: seq<nat>, k: nat)
      requires Names(s, lru) && k < |s|
      ensures Names(Cut(s, k), lru[..k] + lru[k + 1..])
    {
    }

    method DetachListed(e: Entry, ghost k: nat)
      requires ListIs(list) && k < |list| && e == list[k] && ListUnpinned() && PinnedLoose()
      modifies this`first, this`last, this`list, entries`next, entries`prev
      ensures ListIs(list) && list == Cut(old(list), k) && PinnedLoose() && e.next == null && e.prev == null
    {
      Detach(e, list, k);
      list := Cut(list, k);
    }

    method SetCount(e: Entry, count: nat, ghost pool: seq<Slot>)
      requires PoolIs(pool) && Owned(e) && PinnedLoose() && (count > 0 ==> e.next == null && e.prev == null)
      modifies e`count
      ensures PoolIs(pool[e.id := pool[e.id].(count := count)]) && PinnedLoose() && e.count == count
    {
      e.count := count;
    }

    lemma LooseIfPinned(e: Entry)
      requires PinnedLoose() && Owned(e) && e.count > 0
      ensures e.next == null && e.prev == null
    {
    }

    /** Where an unpinned entry is on the list. */
    lemma PlaceOf(e: Entry) returns (k: nat)
      requires PoolIs(m.pool) && Names(list, m.lru) && Shape(m) && Owned(e) && e.count == 0
      ensures k < |list| == |m.lru| && list[k] == e
      ensures e.id < |m.pool| && CacheSpec.IncrementCount(m, e.id).lru == m.lru[..k] + m.lru[k + 1..]
    {
      k :| 0 <= k < |m.lru| && m.lru[k] == e.id;
      CacheShape.UnlinkAt(m.pool, m.lru, k);
    }

    /** Takes e off the list if it is on it. */
    method Unlist(e: Entry)
      requires PoolIs(m.pool) && ListIs(list) && Names(list, m.lru) && PinnedLoose() && Shape(m) && Owned(e)
      modifies this`first, this`last, this`list, entries`next, entries`prev
      ensures ListIs(list) && PinnedLoose() && e.next == null && e.prev == null
      ensures Names(list, CacheSpec.IncrementCount(m, e.id).lru)
    {
      hide ListIs, PinnedLoose;
      if e.count == 0 {
        ghost var k := PlaceOf(e);
        ListIsLru();
        hide Shape, ListUnpinned, PoolIs;
        CutNames(list, m.lru, k);
        DetachListed(e, k);
      } else {
        LooseIfPinned(e);
      }
    }

    method IncrementCount(e: Entry)
      requires Valid() && Owned(e)
      modifies this`first, this`last, this`list, this`m, e`count, entries`next, entries`prev
      ensures HeapOk() && m == CacheSpec.IncrementCount(old(m), e.id)
    {
      hide Shape, PoolIs, ListIs, Names, PinnedLoose, ChainsLinked, ChainsHold;
      Fields(e, m.pool);
      Unlist(e);
      SetCount(e, e.count + 1, m.pool);
      SameChains(m.pool, CacheSpec.IncrementCount(m, e.id).pool, m.table, chains);
      m := CacheSpec.IncrementCount(m, e.id);
    }

    method DecrementCount(e: Entry)
      requires HeapOk() && Shape(m) && Owned(e) && e.count > 0
      modifies this`first, this`last, this`list, this`m, e`count, entries`next, entries`prev
      ensures HeapOk() && m == CacheSpec.DecrementCount(old(m), e.id)
    {
      hide Shape, PoolIs, ListIs, Names, PinnedLoose, ChainsLinked, ChainsHold, ListUnpinned, CacheSpec.DecrementCount;
      Fields(e, m.pool);
      ListIsLru();
      PinnedIsLoose(e);
      Decremented(m, e.id);
      Unpin(e);
      TimesApart(m.pool[e.id := m.pool[e.id].(count := e.count)], CacheSpec.DecrementCount(m, e.id).pool);
      SameChains(m.pool, CacheSpec.DecrementCount(m, e.id).pool, m.table, chains);
      m := CacheSpec.DecrementCount(m, e.id);
    }

    /** One pin less, and at the end of the list when it was the last. */
    method Unpin(e: Entry)
      requires PoolIs(m.pool) && ListIs(list) && Names(list, m.lru) && PinnedLoose() && ListUnpinned()
      requires Owned(e) && e.count > 0 && e.next == null && e.prev == null
      requires forall k :: 0 <= k < |list| ==> list[k].id != e.id
      modifies this`first, this`last, this`list, e`count, entries`next, entries`prev
      ensures e.count == old(e.count) - 1 && PoolIs(m.pool[e.id := m.pool[e.id].(count := e.count)])
      ensures ListIs(list) && Names(list, if e.count == 0 then m.lru + [e.id] else m.lru) && PinnedLoose()
    {
      hide PoolIs, ListIs, Names, PinnedLoose, ListUnpinned;
      SetCount(e, e.count - 1, m.pool);
      if e.count == 0 {
        ListStaysUnpinned();
        Append(e, m.lru);
      }
    }

    /** The pool and the list after decrementCount. */
    static lemma Decremented(c: Cache, i: nat)
      requires i < |c.pool| && c.pool[i].count > 0
      ensures var d := CacheSpec.DecrementCount(c, i); var count := c.pool[i].count - 1;
        && |d.pool| == |c.pool| && d.table == c.table && d.disk == c.disk
        && d.lru == (if count == 0 then c.lru + [i] else c.lru)
        && forall j :: 0 <= j < |c.pool| ==>
          d.pool[j] == (if j == i then c.pool[i].(count := count) else c.pool[j]).(since := d.pool[j].since)
    {
    }

    lemma ListStaysUnpinned()
      requires ListUnpinned()
      ensures forall k :: 0 <= k < |list| ==> Owned(list[k]) && list[k].count == 0
    {
    }

    lemma Fields(e: Entry, pool: seq<Slot>)
      requires PoolIs(pool) && Owned(e)
      ensures e.id < |pool| && e.block == pool[e.id].block && e.count == pool[e.id].count
      ensures e.dirty == pool[e.id].dirty && e.buffer == pool[e.id].buffer
    {
    }

    /** The heap does not record when an entry was put on the list. */
    lemma TimesApart(pool: seq<Slot>, pool': seq<Slot>)
      requires PoolIs(pool) && |pool'| == |pool|
      requires forall i :: 0 <= i < |pool| ==> pool'[i] == pool[i].(since := pool'[i].since)
      ensures PoolIs(pool')
    {
    }

    lemma PinnedIsLoose(e: Entry)
      requires PinnedLoose() && ListUnpinned() && Owned(e) && e.count > 0
      ensures e.next == null && e.prev == null
      ensures forall k :: 0 <= k < |list| ==> list[k].id != e.id
    {
    }

    /** setLast on the list of this cache. */
    method Append(e: Entry, ghost lru: seq<nat>)
      requires ListIs(list) && Names(list, lru) && PinnedLoose()
      requires forall k :: 0 <= k < |list| ==> Owned(list[k]) && list[k].count == 0
      requires Owned(e) && e.next == null && e.prev == null && e.count == 0
      requires forall k :: 0 <= k < |list| ==> list[k].id != e.id
      modifies this`first, this`last, this`list, entries`next, entries`prev
      ensures ListIs(list) && Names(list, lru + [e.id]) && PinnedLoose()
    {
      SetLast(e, list);
      list := list + [e];
    }

    // -------------------------------------------------------------- newEntry

    /** newEntry, when an unpinned entry exists: off the list, written back if dirty, out of the table. */
    method EvictFirst() returns (e: Entry)
      requires Valid() && first != null
      modifies this`first, this`last, this`list, this`chains, hashTable, device, entries
      ensures m == old(m) && buffers == old(buffers) && m.lru != []
      ensures HeapIs(Evict(m))
      ensures Owned(e) && e.id == m.lru[0] && e.next == null && e.prev == null && e.block == m.pool[m.lru[0]].block
    {
      hide Shape, PoolIs, Names, ListIs, PinnedLoose, ChainsLinked, ChainsHold, ListUnpinned;
      ListIsLru();
      e := PopListed();
      Fields(e, m.pool);
      if e.dirty {
        DirtyInRange(m, e.id);
        device.Write(e.block, e.buffer);
        SetDirtyBit(e, false, m.pool);
      } else {
        assert m.pool[e.id := m.pool[e.id].(dirty := false)] == m.pool;
      }
      assert m.pool[e.id := m.pool[e.id].(dirty := false)] == Evict(m).pool;
      SameChains(m.pool, Evict(m).pool, m.table, chains);
      RemoveEntry(e.block, Evict(m).pool, m.table);
    }

    lemma DirtyInRange(c: Cache, i: nat)
      requires Shape(c) && i < |c.pool| && c.pool[i].dirty
      ensures c.pool[i].block < |c.disk|
    {
    }

    lemma TableBelow(c: Cache)
      requires Shape(c)
      ensures forall b :: b in c.table ==> c.table[b] < |c.pool|
    {
    }

    method PopListed() returns (e: Entry)
      requires ListIs(list) && first != null && ListUnpinned() && PinnedLoose() && Names(list, m.lru)
      modifies this`first, this`last, this`list, entries`next, entries`prev
      ensures m.lru != [] && ListIs(list) && Names(list, m.lru[1..]) && PinnedLoose()
      ensures Owned(e) && e.id == m.lru[0] && e.next == null && e.prev == null
    {
      e := PopFirst(list);
      list := list[1..];
    }

    method SetDirtyBit(e: Entry, dirty: bool, ghost pool: seq<Slot>)
      requires PoolIs(pool) && Owned(e)
      modifies e`dirty
      ensures PoolIs(pool[e.id := pool[e.id].(dirty := dirty)]) && e.dirty == dirty
    {
      e.dirty := dirty;
    }

    /** newEntry, when every entry is pinned: one more entry in the pool. */
    method Grow() returns (e: Entry)
      requires Valid() && first == null
      modifies this`buffers, this`entries
      ensures fresh(e) && entries == old(entries) + {e} && buffers == old(buffers) + [e] && m.lru == []
      ensures var pool := m.pool + [Slot(0, 0, false, ZERO_BLOCK, 0)];
        && PoolIs(pool) && ListIs(list) && Names(list, m.lru) && PinnedLoose()
        && ChainsLinked() && ChainsHold(pool, m.table, chains) && device.blocks == m.disk
      ensures Owned(e) && e.id == |m.pool| && e.next == null && e.prev == null
    {
      e := new Entry(|buffers|);
      buffers := buffers + [e];
      entries := entries + {e};
      SameChains(m.pool, m.pool + [Slot(0, 0, false, ZERO_BLOCK, 0)], m.table, chains);
    }

    /** An entry that is not hashed may drop its chain pointer. */
    method ClearNextHash(e: Entry, ghost pool: seq<Slot>, ghost table: map<nat, nat>)
      requires ChainsLinked() && ChainsHold(pool, table, chains)
      requires Owned(e) && e.id < |pool| && !InBucket(pool, table, pool[e.id].block % HASH_SIZE, e.id)
      modifies e`nextHash
      ensures ChainsLinked()
    {
      hide ChainsHold;
      forall g | 0 <= g < HASH_SIZE ensures e !in chains[g] {
        NotHashed(pool, table, chains, g, e);
      }
      e.nextHash := null;
    }

    /** The last lines of newEntry. */
    method Reset(e: Entry, block: nat, ghost pool: seq<Slot>)
      requires PoolIs(pool) && PinnedLoose() && Owned(e) && e.next == null && e.prev == null
      modifies e`count, e`block, e`dirty
      ensures PoolIs(pool[e.id := Slot(block, 1, false, e.buffer, 0)]) && PinnedLoose()
    {
      e.count := 1;
      e.block := block;
      e.dirty := false;
    }

    /** newEntry, when there is an unpinned entry. */
    method ReuseEntry(block: nat) returns (e: Entry)
      requires Valid() && first != null
      modifies this`first, this`last, this`list, this`chains, hashTable, device, entries
      ensures m == old(m) && buffers == old(buffers) && HeapIs(CacheSpec.NewEntry(m, block, e.buffer))
      ensures Owned(e) && e.id == Victim(m)
    {
      hide Shape, PoolIs, Names, ListIs, PinnedLoose, ChainsLinked, ChainsHold;
      e := EvictFirst();
      hide CacheSpec.Evict;
      Fields(e, Evict(m).pool);
      EvictedSlot(m, block, e.buffer);
      ClearNextHash(e, Evict(m).pool, Evict(m).table);
      Reset(e, block, Evict(m).pool);
      SameChains(Evict(m).pool, CacheSpec.NewEntry(m, block, e.buffer).pool, Evict(m).table, chains);
    }

    lemma EvictedSlot(c: Cache, block: nat, junk: Block)
      requires Shape(c) && c.lru != []
      ensures var e, n, v := Evict(c), CacheSpec.NewEntry(c, block, junk), Victim(c);
        && v == c.lru[0] < |e.pool| && n == e.(pool := e.pool[v := Slot(block, 1, false, junk, 0)])
        && !InBucket(e.pool, e.table, e.pool[v].block % HASH_SIZE, v)
    {
    }

    /** newEntry, when every entry is pinned. */
    method AddedEntry(block: nat) returns (e: Entry)
      requires Valid() && first == null
      modifies this`buffers, this`entries
      ensures m == old(m) && HeapIs(CacheSpec.NewEntry(m, block, e.buffer))
      ensures Owned(e) && e.id == Victim(m) && old(buffers) <= buffers && fresh(entries - old(entries))
    {
      hide Shape, PoolIs, Names, ListIs, PinnedLoose, ChainsLinked, ChainsHold;
      e := Grow();
      ghost var pool := m.pool + [Slot(0, 0, false, ZERO_BLOCK, 0)];
      GrownSlot(m, block, e.buffer);
      ClearNextHash(e, pool, m.table);
      Reset(e, block, pool);
      SameChains(pool, CacheSpec.NewEntry(m, block, e.buffer).pool, m.table, chains);
    }

    lemma GrownSlot(c: Cache, block: nat, junk: Block)
      requires Shape(c) && c.lru == []
      ensures var n, v := CacheSpec.NewEntry(c, block, junk), Victim(c);
        var pool := c.pool + [Slot(0, 0, false, ZERO_BLOCK, 0)];
        && v == |c.pool| && n == c.(pool := pool[v := Slot(block, 1, false, junk, 0)])
        && !InBucket(pool, c.table, 0, v)
    {
      TableBelow(c);
    }

    method NewEntry(block: nat) returns (e: Entry)
      requires Valid()
      modifies this, hashTable, device, entries
      ensures HeapOk() && m == CacheSpec.NewEntry(old(m), block, e.buffer)
      ensures Owned(e) && e.id == Victim(old(m)) && old(buffers) <= buffers && fresh(entries - old(entries))
    {
      hide Shape, PoolIs, Names, ListIs, PinnedLoose, ChainsLinked, ChainsHold, CacheSpec.NewEntry;
      if first != null {
        e := ReuseEntry(block);
      } else {
        e := AddedEntry(block);
      }
      m := CacheSpec.NewEntry(m, block, e.buffer);
    }

    // -------------------------------------------------------------- the public operations

    /** Returns the entry whose buffer holds the block; the client reads and writes it in place. */
    method Acquire(block: nat) returns (e: Entry)
      requires Valid() && block < |m.disk|
      modifies this, hashTable, device, entries
      ensures Valid() && m == CacheSpec.Acquire(old(m), block)
      ensures Owned(e) && block in m.table && e.id == m.table[block]
      ensures old(buffers) <= buffers && fresh(entries - old(entries))
    {
      hide Shape, PoolIs, Names, ListIs, PinnedLoose, ChainsLinked, ChainsHold;
      CacheShape.AcquireShape(m, block);
      var found := FindEntry(block);
      if found != null {
        e := found;
        IncrementCount(e);
        return;
      }
      e := AcquireNew(block);
    }

    /** acquire, when the block is not cached: a new entry, filled from the device and hashed. */
    method AcquireNew(block: nat) returns (e: Entry)
      requires Valid() && block < |m.disk| && block !in m.table
      modifies this, hashTable, device, entries
      ensures HeapOk() && m == CacheSpec.Acquire(old(m), block)
      ensures Owned(e) && block in m.table && e.id == m.table[block]
      ensures old(buffers) <= buffers && fresh(entries - old(entries))
    {
      hide Shape, PoolIs, Names, ListIs, PinnedLoose, ChainsLinked, ChainsHold;
      ghost var c := m;
      e := NewEntry(block);
      DiskSize(c);
      FillNew(c, block, e.buffer, Evict(c).disk[block]);
      var data := device.Read(block);
      SetBuffer(e, data, m.pool);
      SameChains(m.pool, CacheSpec.NewEntry(c, block, data).pool, m.table, chains);
      InsertNew(e, block, data, c);
    }

    static lemma DiskSize(c: Cache)
      requires Shape(c)
      ensures |Evict(c).disk| == |c.disk|
    {
    }

    lemma FillNew(c: Cache, block: nat, junk: Block, data: Block)
      requires Shape(c)
      ensures var n, n' := CacheSpec.NewEntry(c, block, junk), CacheSpec.NewEntry(c, block, data); var v := Victim(c);
        && |n.pool| == |n'.pool| && v < |n.pool| && n'.pool == n.pool[v := n.pool[v].(buffer := data)]
        && n.pool[v] == Slot(block, 1, false, junk, 0) && n'.pool[v].block == block
        && (block !in c.table ==> block !in n.table)
        && Load(c, block, data).table == n.table[block := v]
    {
    }

    /** addEntry after newEntry, with the abstract value. */
    method InsertNew(e: Entry, block: nat, data: Block, ghost c: Cache)
      requires Shape(c) && block !in c.table && Owned(e) && e.id == Victim(c)
      requires m.lru == Evict(c).lru && m.table == Evict(c).table && m.disk == Evict(c).disk && m.clock == c.clock
      requires PoolIs(CacheSpec.NewEntry(c, block, data).pool) && ListIs(list) && Names(list, m.lru) && PinnedLoose()
      requires ChainsLinked() && ChainsHold(CacheSpec.NewEntry(c, block, data).pool, m.table, chains)
      requires device.blocks == m.disk
      modifies this`chains, this`m, hashTable, e`nextHash
      ensures HeapOk() && m == Load(c, block, data)
    {
      hide Shape, PoolIs, Names, ListIs, PinnedLoose, ChainsLinked, ChainsHold;
      FillNew(c, block, data, data);
      Fields(e, CacheSpec.NewEntry(c, block, data).pool);
      AddEntry(e, CacheSpec.NewEntry(c, block, data).pool, m.table);
      m := Load(c, block, data);
    }

    method SetBuffer(e: Entry, data: Block, ghost pool: seq<Slot>)
      requires PoolIs(pool) && Owned(e)
      modifies e`buffer
      ensures PoolIs(pool[e.id := pool[e.id].(buffer := data)]) && e.buffer == data
    {
      e.buffer := data;
    }

    method MarkDirty(block: nat)
      requires Valid()
      modifies this`m, entries`dirty
      ensures Valid() && m == CacheSpec.MarkDirty(old(m), block)
    {
      hide PoolIs, Names, ListIs, PinnedLoose, ChainsLinked, ChainsHold;
      var e := FindEntry(block);
      if e != null {
        CacheShape.SameShape(m, CacheSpec.MarkDirty(m, block));
        SetDirtyBit(e, true, m.pool);
        SameChains(m.pool, CacheSpec.MarkDirty(m, block).pool, m.table, chains);
        m := CacheSpec.MarkDirty(m, block);
      }
    }

    /** A client storing through the pointer it got from Acquire. */
    method Store(e: Entry, data: Block)
      requires Valid() && Owned(e)
      modifies this`m, e`buffer
      ensures Valid() && e.id < |old(m).pool| && m == CacheSpec.Store(old(m), e.id, data)
    {
      hide PoolIs, Names, ListIs, PinnedLoose, ChainsLinked, ChainsHold;
      Fields(e, m.pool);
      CacheShape.SameShape(m, CacheSpec.Store(m, e.id, data));
      SetBuffer(e, data, m.pool);
      SameChains(m.pool, CacheSpec.Store(m, e.id, data).pool, m.table, chains);
      m := CacheSpec.Store(m, e.id, data);
    }

    /** Writes entry e to the device and makes it clean. */
    method CommitEntry(e: Entry)
      requires HeapOk() && Owned(e) && e.id < |m.pool| && m.pool[e.id].block < |m.disk|
      modifies this`m, device, e`dirty
      ensures HeapOk() && m == Commit(old(m), e.id)
    {
      hide PoolIs, Names, ListIs, PinnedLoose, ChainsLinked, ChainsHold;
      Fields(e, m.pool);
      device.Write(e.block, e.buffer);
      SetDirtyBit(e, false, m.pool);
      SameChains(m.pool, Commit(m, e.id).pool, m.table, chains);
      m := Commit(m, e.id);
    }

    method Release(block: nat, flags: nat)
      requires Valid() && CanRelease(m, block)
      modifies this`m, this`first, this`last, this`list, device, entries
      ensures Valid() && m == CacheSpec.Release(old(m), block, flags)
    {
      hide Shape, PoolIs, Names, ListIs, PinnedLoose, ChainsLinked, ChainsHold;
      CacheShape.ReleaseShape(m, block, flags);
      ghost var c := m;
      var e := FindEntry(block);
      var dirty := flags % 4 != 0;
      if e != null {
        Fields(e, m.pool);
        InTable(m, block);
        if dirty {
          MarkDirty(block);
        }
        Fields(e, m.pool);
        DecrementCount(e);
        if flags / 2 % 2 == 1 {
          CommitEntry(e);
        }
      }
    }

    lemma InTable(c: Cache, b: nat)
      requires Shape(c) && b in c.table
      ensures c.table[b] < |c.pool| && c.pool[c.table[b]].block == b && b < |c.disk|
    {
    }

    method Write(block: nat, data: Block)
      requires Valid() && block < |m.disk|
      modifies this, hashTable, device, entries
      ensures Valid() && m == CacheSpec.Write(old(m), block, data)
      ensures old(buffers) <= buffers && fresh(entries - old(entries))
    {
      hide Shape, PoolIs, Names, ListIs, PinnedLoose, ChainsLinked, ChainsHold;
      CacheShape.WriteShape(m, block, data);
      ghost var c := m;
      var e := FindEntry(block);
      if e != null {
        MarkDirty(block);
        Store(e, data);
        return;
      }
      e := NewEntry(block);
      FillNew(c, block, e.buffer, data);
      Fields(e, m.pool);
      NewIsLoose(e, c, block);
      FillUnpinned(e, data, m.pool);
      InsertUnpinned(e, block, data, c);
    }

    /** The new entry of a write: not pinned, dirty, holding the data. */
    method FillUnpinned(e: Entry, data: Block, ghost pool: seq<Slot>)
      requires PoolIs(pool) && Owned(e) && PinnedLoose()
      modifies e`count, e`dirty, e`buffer
      ensures PoolIs(pool[e.id := pool[e.id].(count := 0, dirty := true, buffer := data)]) && PinnedLoose()
      ensures e.count == 0
    {
      e.count := 0;
      e.dirty := true;
      e.buffer := data;
    }

    /** addEntry and setLast at the end of write, with the abstract value. */
    method InsertUnpinned(e: Entry, block: nat, data: Block, ghost c: Cache)
      requires Shape(c) && block < |c.disk| && block !in c.table && Owned(e) && e.id == Victim(c)
      requires m.lru == Evict(c).lru && m.table == Evict(c).table && m.disk == Evict(c).disk && m.clock == c.clock
      requires |m.pool| == |CacheSpec.NewEntry(c, block, data).pool| && e.id < |m.pool|
      requires m.pool[e.id := Slot(block, 0, true, data, 0)] ==
        CacheSpec.NewEntry(c, block, data).pool[e.id := Slot(block, 0, true, data, 0)]
      requires PoolIs(m.pool[e.id := Slot(block, 0, true, data, 0)])
      requires ListIs(list) && Names(list, m.lru) && PinnedLoose() && e.count == 0 && e.next == null && e.prev == null
      requires forall k :: 0 <= k < |list| ==> Owned(list[k]) && list[k].count == 0 && list[k].id != e.id
      requires ChainsLinked() && ChainsHold(m.pool, m.table, chains) && m.pool[e.id].block == block
      requires block !in m.table && device.blocks == m.disk
      modifies this`chains, this`m, this`first, this`last, this`list, hashTable
      modifies entries`nextHash, entries`next, entries`prev
      ensures HeapOk() && m == CacheSpec.Write(c, block, data)
    {
      hide Shape, PoolIs, Names, ListIs, PinnedLoose, ChainsLinked, ChainsHold;
      ghost var p := m.pool[e.id := Slot(block, 0, true, data, 0)];
      Fields(e, p);
      SameChains(m.pool, p, m.table, chains);
      AddEntry(e, p, m.table);
      Append(e, m.lru);
      CacheRefinement.WriteMissEffect(c, block, data);
      WriteMissLists(c, block, data);
      ghost var d := CacheSpec.Write(c, block, data);
      TimesApart(p, d.pool);
      SameChains(p, d.pool, m.table[block := e.id], chains);
      m := d;
    }

    lemma WriteMissLists(c: Cache, block: nat, data: Block)
      requires Shape(c) && block < |c.disk| && block !in c.table
      ensures var d := CacheSpec.Write(c, block, data);
        && d.lru == Evict(c).lru + [Victim(c)] && d.clock == c.clock + 1
        && d.pool == CacheSpec.NewEntry(c, block, data).pool[Victim(c) := Slot(block, 0, true, data, c.clock)]
    {
    }

    /** Right after newEntry the new entry is not on the list. */
    lemma NewIsLoose(e: Entry, c: Cache, block: nat)
      requires Shape(c) && PoolIs(m.pool) && Names(list, m.lru) && PinnedLoose()
      requires m == CacheSpec.NewEntry(c, block, e.buffer) && Owned(e) && e.id == Victim(c)
      ensures e.next == null && e.prev == null
      ensures forall k :: 0 <= k < |list| ==> Owned(list[k]) && list[k].count == 0 && list[k].id != e.id
    {
      CacheShape.EvictList(c);
      forall k | 0 <= k < |list| ensures list[k].count == 0 && list[k].id != e.id {
        assert m.lru[k] in m.lru;
      }
    }

    method Sync()
      requires Valid()
      modifies this`m, device, entries`dirty
      ensures Valid() && m == CacheSpec.Sync(old(m))
    {
      hide PoolIs, Names, ListIs, PinnedLoose, ChainsLinked, ChainsHold, LruOk;
      ghost var c := m;
      PoolSize();
      for k := 0 to |buffers|
        invariant HeapOk() && Shape(m) && |m.pool| == |buffers|
        invariant SyncFrom(m, k) == SyncFrom(c, 0)
      {
        var e := buffers[k];
        OwnedAt(k);
        Fields(e, m.pool);
        if e.dirty {
          CacheShape.SameShape(m, Commit(m, k));
          CommitEntry(e);
        }
      }
    }

    lemma PoolSize()
      requires PoolIs(m.pool)
      ensures |buffers| == |m.pool|
    {
    }

    lemma OwnedAt(k: nat)
      requires PoolIs(m.pool) && k < |buffers|
      ensures Owned(buffers[k]) && buffers[k].id == k
    {
    }

    /** BlockCache::read */
    method Read(block: nat) returns (data: Block)
      requires Valid() && block < |m.disk|
      modifies this, hashTable, device, entries
      ensures Valid() && (m, data) == CacheShape.ReadThrough(old(m), block)
      ensures old(buffers) <= buffers && fresh(entries - old(entries))
    {
      hide Shape, PoolIs, Names, ListIs, PinnedLoose, ChainsLinked, ChainsHold, CacheSpec.Acquire, CacheSpec.Release;
      CacheShape.ReadShape(m, block);
      var e := Acquire(block);
      Fields(e, m.pool);
      data := e.buffer;
      Release(block, 0);
    }

    /** BlockCache::zeroBlock */
    method ZeroBlock(block: nat)
      requires Valid() && block < |m.disk|
      modifies this, hashTable, device, entries
      ensures Valid() && m == CacheSpec.Write(old(m), block, ZERO_BLOCK)
      ensures old(buffers) <= buffers && fresh(entries - old(entries))
    {
      Write(block, ZERO_BLOCK);
    }
  }
}
