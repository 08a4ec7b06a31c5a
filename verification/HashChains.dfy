/** Cache entries on the heap, and the hash chains they are linked into. */
module HashChains {
  import opened Blocks
  import opened CacheSpec

  const HASH_SIZE := 23

  /** One buffer of the pool, with its place in the hash table and in the list of unpinned entries. */
  class Entry {
    ghost const id: nat  // position in the pool
    var block: nat
    var count: nat
    var dirty: bool
    var next: Entry?
    var prev: Entry?
    var nextHash: Entry?
    var buffer: Block

    constructor (ghost id: nat)
      ensures this.id == id && block == 0 && count == 0 && !dirty
      ensures next == null && prev == null && nextHash == null && buffer == ZERO_BLOCK
    {
      this.id := id;
      block, count, dirty := 0, 0, false;
      next, prev, nextHash := null, null, null;
      buffer := ZERO_BLOCK;
    }
  }

  ghost predicate Differ(s: seq<Entry>, j: nat, k: nat)
    requires j < |s| && k < |s|
  {
    s[j].id != s[k].id
  }

  /** No entry occurs twice. The trigger keeps the pairs out of proofs that do not ask for them (see Spread). */
  ghost predicate NoDup(s: seq<Entry>) {
    forall j, k {:trigger Differ(s, j, k)} :: 0 <= j < k < |s| ==> Differ(s, j, k)
  }

  lemma {:induction false} Spread(s: seq<Entry>)
    requires NoDup(s)
    ensures forall j, k :: 0 <= j < k < |s| ==> s[j].id != s[k].id
  {
    forall j, k | 0 <= j < k < |s| ensures s[j].id != s[k].id {
      assert Differ(s, j, k);
    }
  }

  /** The k-th entry of a list, null outside it. */
  ghost function At(s: seq<Entry>, k: int): Entry? {
    if 0 <= k < |s| then s[k] else null
  }

  ghost function Cut(s: seq<Entry>, k: nat): seq<Entry>
    requires k < |s|
  {
    s[..k] + s[k + 1..]
  }

  lemma {:induction false} CutNoDup(s: seq<Entry>, k: nat)
    requires NoDup(s) && k < |s|
    ensures NoDup(Cut(s, k))
  {
    Spread(s);
  }

  /** Following nextHash from head visits exactly the entries of c. */
  ghost predicate Linked(head: Entry?, c: seq<Entry>)
    reads c`nextHash
  {
    && NoDup(c) && head == At(c, 0)
    && forall k {:trigger c[k].nextHash} :: 0 <= k < |c| ==> c[k].nextHash == At(c, k + 1)
  }

  /** Entry i of the pool is hashed, in bucket h. */
  ghost predicate InBucket(pool: seq<Slot>, table: map<nat, nat>, h: nat, i: nat) {
    i < |pool| && pool[i].block % HASH_SIZE == h && pool[i].block in table && table[pool[i].block] == i
  }

  ghost predicate HasId(c: seq<Entry>, i: nat) {
    exists k :: 0 <= k < |c| && c[k].id == i
  }

  /** The chains hold every hashed entry, in the bucket of its block, and nothing else. */
  ghost predicate ChainsHold(pool: seq<Slot>, table: map<nat, nat>, chains: seq<seq<Entry>>) {
    && |chains| == HASH_SIZE
    && (forall h, k :: 0 <= h < HASH_SIZE && 0 <= k < |chains[h]| ==> InBucket(pool, table, h, chains[h][k].id))
    && (forall b :: b in table ==>
      HasId(chains[b % HASH_SIZE], table[b]) && table[b] < |pool| && pool[table[b]].block == b)
  }

  ghost predicate Apart(c: seq<Entry>, d: seq<Entry>) {
    forall k :: 0 <= k < |c| ==> c[k] !in d
  }

  lemma {:induction false} ChainsApart(pool: seq<Slot>, table: map<nat, nat>, chains: seq<seq<Entry>>, g: nat, h: nat)
    requires ChainsHold(pool, table, chains) && g < HASH_SIZE && h < HASH_SIZE && g != h
    ensures Apart(chains[g], chains[h])
  {
    forall k | 0 <= k < |chains[g]| ensures chains[g][k] !in chains[h] {
      assert InBucket(pool, table, g, chains[g][k].id);
    }
  }

  lemma {:induction false} CutHasId(c: seq<Entry>, k: nat, i: nat)
    requires k < |c| && HasId(c, i) && c[k].id != i
    ensures HasId(Cut(c, k), i)
  {
    var o :| 0 <= o < |c| && c[o].id == i;
    assert Cut(c, k)[if o < k then o else o - 1].id == i;
  }

  /** Unhashing the block at position k of its chain. */
  lemma {:induction false} CutChain(pool: seq<Slot>, table: map<nat, nat>, chains: seq<seq<Entry>>, h: nat, k: nat)
    requires ChainsHold(pool, table, chains) && h < HASH_SIZE && k < |chains[h]| && NoDup(chains[h])
    ensures InBucket(pool, table, h, chains[h][k].id)
    ensures ChainsHold(pool, table - {pool[chains[h][k].id].block}, chains[h := Cut(chains[h], k)])
  {
    assert InBucket(pool, table, h, chains[h][k].id);
    Spread(chains[h]);
    var t := table - {pool[chains[h][k].id].block};
    var cs := chains[h := Cut(chains[h], k)];
    forall b | b in t ensures HasId(cs[b % HASH_SIZE], t[b]) {
      if b % HASH_SIZE == h {
        CutHasId(chains[h], k, t[b]);
      }
    }
    forall g, j | 0 <= g < HASH_SIZE && 0 <= j < |cs[g]| ensures InBucket(pool, table, g, cs[g][j].id) {
      assert cs[g][j] == chains[g][if g == h && j >= k then j + 1 else j];
    }
  }

  /** A block is absent from the table when no entry of its chain holds it. */
  lemma {:induction false} NotInChain(pool: seq<Slot>, table: map<nat, nat>, chains: seq<seq<Entry>>, b: nat)
    requires ChainsHold(pool, table, chains)
    requires forall j :: 0 <= j < |chains[b % HASH_SIZE]| ==>
      chains[b % HASH_SIZE][j].id < |pool| && pool[chains[b % HASH_SIZE][j].id].block != b
    ensures b !in table
  {
  }

  /** Hashing entry e, whose block is not hashed, at the front of the chain of its block. */
  lemma {:induction false} PushChain(pool: seq<Slot>, table: map<nat, nat>, chains: seq<seq<Entry>>, e: Entry)
    requires ChainsHold(pool, table, chains) && e.id < |pool| && pool[e.id].block !in table
    ensures var h := pool[e.id].block % HASH_SIZE;
      && ChainsHold(pool, table[pool[e.id].block := e.id], chains[h := [e] + chains[h]])
      && forall k :: 0 <= k < |chains[h]| ==> chains[h][k].id != e.id
  {
    var b := pool[e.id].block;
    var h := b % HASH_SIZE;
    var t, cs := table[b := e.id], chains[h := [e] + chains[h]];
    assert cs[h][0] == e;
    forall g, j | 0 <= g < HASH_SIZE && 0 <= j < |cs[g]| ensures InBucket(pool, t, g, cs[g][j].id) {
      if g != h || j > 0 {
        assert InBucket(pool, table, g, chains[g][if g == h then j - 1 else j].id);
      }
    }
    forall x | x in t ensures HasId(cs[x % HASH_SIZE], t[x]) {
      if x != b && x % HASH_SIZE == h {
        var o :| 0 <= o < |chains[h]| && chains[h][o].id == table[x];
        assert cs[h][o + 1].id == t[x];
      }
    }
    forall k | 0 <= k < |chains[h]| ensures chains[h][k].id != e.id {
      assert InBucket(pool, table, h, chains[h][k].id);
    }
  }

  lemma {:induction false} NotHashed(pool: seq<Slot>, table: map<nat, nat>, chains: seq<seq<Entry>>, g: nat, e: Entry)
    requires ChainsHold(pool, table, chains) && g < HASH_SIZE
    requires e.id < |pool| && !InBucket(pool, table, pool[e.id].block % HASH_SIZE, e.id)
    ensures e !in chains[g]
  {
  }

  /** Changing entries that are not hashed, or keep their block, does not disturb the chains. */
  lemma {:induction false} SameChains(pool: seq<Slot>, pool': seq<Slot>, table: map<nat, nat>, chains: seq<seq<Entry>>)
    requires ChainsHold(pool, table, chains) && |pool| <= |pool'|
    requires forall i :: 0 <= i < |pool| && pool[i].block in table && table[pool[i].block] == i ==>
      pool'[i].block == pool[i].block
    ensures ChainsHold(pool', table, chains)
  {
    forall h, k | 0 <= h < HASH_SIZE && 0 <= k < |chains[h]| ensures InBucket(pool', table, h, chains[h][k].id) {
      assert InBucket(pool, table, h, chains[h][k].id);
    }
  }
}
