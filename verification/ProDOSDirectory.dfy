/** Reading a ProDOS directory: a chain of blocks, walked with a set of the blocks seen so far. */
module ProDOSDirectory {
  import opened Blocks
  import opened ProDOSIndex

  const VOLUME_HEADER := 0x0f
  const SUBDIR_HEADER := 0x0e
  const DELETED_FILE := 0
  const VOLUME_BLOCK := 2
  const ENTRY_SIZE := 0x27  // bytes that loading an entry reads

  /** The block number of the next directory block, 0 at the end. */
  function Next(b: Block): nat {
    WordAt(b, 2)
  }

  /** What the walk needs of the header entry at byte 4 of the first block. */
  datatype Header = Header(storageType: nat, entryLength: nat, entriesPerBlock: nat, fileCount: nat)

  function LoadHeader(b: Block): Header {
    Header(b[4] / 16, b[4 + 0x1f], b[4 + 0x20], WordAt(b, 4 + 0x21))
  }

  /** A file entry: its bytes, and the address its place on the disk is kept in. */
  datatype DirEntry = DirEntry(bytes: seq<byte>, address: nat)

  // ---------------------------------------------------------------- the entries of one block

  /** Index of the first entry looked at: the header of the first block is skipped. */
  function Lo(first: bool): nat {
    if first then 1 else 0
  }

  /** One past the last entry looked at: at least one is, whatever the header says. */
  function Hi(first: bool, h: Header): (n: nat)
    ensures n > Lo(first)
  {
    Max(Lo(first) + 1, h.entriesPerBlock)
  }

  function Offset(h: Header, i: nat): nat {
    h.entryLength * i + 4
  }

  /** A whole entry that is in use. */
  predicate Live(b: Block, h: Header, i: nat) {
    Offset(h, i) + ENTRY_SIZE <= BLOCK_SIZE && b[Offset(h, i)] / 16 != DELETED_FILE
  }

  function EntryAt(block: nat, b: Block, h: Header, i: nat): DirEntry
    requires Offset(h, i) + ENTRY_SIZE <= BLOCK_SIZE
  {
    DirEntry(b[Offset(h, i)..Offset(h, i) + ENTRY_SIZE], block * BLOCK_SIZE + Offset(h, i))
  }

  /** The live entries with index from lo up to hi. */
  function LiveEntries(block: nat, b: Block, h: Header, lo: nat, hi: nat): seq<DirEntry>
    decreases hi
  {
    if hi <= lo then []
    else
      LiveEntries(block, b, h, lo, hi - 1) + (if Live(b, h, hi - 1) then [EntryAt(block, b, h, hi - 1)] else [])
  }

  /** Looking at the entry reads nothing behind the block: one byte of it, and the rest if it is not deleted. */
  predicate EntryInside(b: Block, h: Header, i: nat) {
    Offset(h, i) < BLOCK_SIZE && (b[Offset(h, i)] / 16 != DELETED_FILE ==> Offset(h, i) + ENTRY_SIZE <= BLOCK_SIZE)
  }

  predicate BlockInside(b: Block, h: Header, lo: nat, hi: nat) {
    forall i :: lo <= i < hi ==> EntryInside(b, h, i)
  }

  /** With entries of 39 bytes, at most 13 of them to a block, nothing is ever read behind a block. */
  lemma {:induction false} StandardInside(b: Block, h: Header, first: bool)
    requires h.entryLength == ENTRY_SIZE && h.entriesPerBlock <= 13
    ensures BlockInside(b, h, Lo(first), Hi(first, h))
  {
    forall i: nat | Lo(first) <= i < Hi(first, h) ensures Offset(h, i) + ENTRY_SIZE <= BLOCK_SIZE {
      assert i <= 12;
    }
  }

  // ---------------------------------------------------------------- the chain of blocks

  predicate FollowsPrevious(disk: seq<Block>, c: seq<nat>, k: nat)
    requires 0 < k < |c| && c[k - 1] < |disk|
  {
    c[k] == Next(disk[c[k - 1]]) != 0
  }

  /** c leads from its first block by next pointers, over readable blocks none of which comes twice. */
  ghost predicate IsChain(disk: seq<Block>, c: seq<nat>) {
    && c != []
    && (forall k :: 0 <= k < |c| ==> c[k] < |disk|)
    && (forall k :: 0 < k < |c| ==> FollowsPrevious(disk, c, k))
    && (forall i, j :: 0 <= i < j < |c| ==> c[i] != c[j])
  }

  lemma {:induction false} ChainStart(disk: seq<Block>, start: nat)
    requires start < |disk|
    ensures IsChain(disk, [start])
  {
  }

  lemma {:induction false} ChainMore(disk: seq<Block>, c: seq<nat>, next: nat)
    requires IsChain(disk, c) && next == Next(disk[Last(c)]) != 0 && next !in c && next < |disk|
    ensures IsChain(disk, c + [next])
  {
    var d := c + [next];
    forall k | 0 < k < |d| ensures FollowsPrevious(disk, d, k) {
      assert k < |c| ==> FollowsPrevious(disk, c, k);
    }
  }

  function Last(c: seq<nat>): nat
    requires c != []
  {
    c[|c| - 1]
  }

  datatype Walked = Complete(chain: seq<nat>) | Cyclical(chain: seq<nat>) | Broken(chain: seq<nat>, error: Fetched)

  /** Following the next pointers until the end, a block seen before, or one that cannot be read. */
  ghost function Walk(disk: seq<Block>, c: seq<nat>): Walked
    requires IsChain(disk, c)
    decreases |disk| - |c|
  {
    ChainLength(disk, c);
    var next := Next(disk[Last(c)]);
    if next == 0 then Complete(c)
    else if next in c then Cyclical(c)
    else if !ReadBlock(disk, next).Data? then Broken(c, ReadBlock(disk, next))
    else
      ChainMore(disk, c, next);
      ChainLength(disk, c + [next]);
      Walk(disk, c + [next])
  }

  /** A chain is no longer than the disk: this is why every walk ends. */
  lemma {:induction false} ChainLength(disk: seq<Block>, c: seq<nat>)
    requires IsChain(disk, c)
    ensures |c| <= |disk|
  {
    var s := set k | 0 <= k < |c| :: c[k];
    DistinctCount(c);
    Below(s, |disk|);
  }

  lemma {:induction false} DistinctCount(c: seq<nat>)
    requires forall i, j :: 0 <= i < j < |c| ==> c[i] != c[j]
    ensures |set k | 0 <= k < |c| :: c[k]| == |c|
  {
    if c != [] {
      var init := c[..|c| - 1];
      DistinctCount(init);
      assert (set k | 0 <= k < |c| :: c[k]) == (set k | 0 <= k < |init| :: init[k]) + {c[|c| - 1]};
    }
  }

  lemma {:induction false} Below(s: set<nat>, n: nat)
    requires forall x :: x in s ==> x < n
    ensures |s| <= n
  {
    if n == 0 {
      assert s == {};
    } else {
      Below(s - {n - 1}, n - 1);
    }
  }

  // ---------------------------------------------------------------- the chain, independently

  /** The k-th block number of the chain from start: bytes 2 and 3 of a block, low byte first, 0 ending the chain. */
  function Nth(disk: seq<Block>, start: nat, k: nat): Option<nat> {
    if k == 0 then Some(start)
    else
      match Nth(disk, start, k - 1)
      case None => None
      case Some(b) =>
        if b < |disk| && (disk[b][2] != 0 || disk[b][3] != 0) then Some(disk[b][2] as int + 256 * disk[b][3] as int)
        else None
  }

  lemma {:induction false} ChainIsNth(disk: seq<Block>, c: seq<nat>, k: nat)
    requires IsChain(disk, c) && k < |c|
    ensures Nth(disk, c[0], k) == Some(c[k])
  {
    if k > 0 {
      ChainIsNth(disk, c, k - 1);
      assert FollowsPrevious(disk, c, k);
    }
  }

  lemma {:induction false} NothingAfter(disk: seq<Block>, start: nat, k: nat, j: nat)
    requires k <= j && Nth(disk, start, k) == None
    ensures Nth(disk, start, j) == None
  {
    if k < j {
      NothingAfter(disk, start, k, j - 1);
    }
  }

  ghost predicate Revisits(disk: seq<Block>, start: nat) {
    exists i: nat, j: nat :: i < j && Nth(disk, start, i).Some? && Nth(disk, start, i) == Nth(disk, start, j)
  }

  lemma {:induction false} LastReadable(disk: seq<Block>, c: seq<nat>)
    requires IsChain(disk, c)
    ensures c != [] && Last(c) < |disk| && forall k :: 0 <= k < |c| ==> c[k] < |disk|
  {
  }

  /** One step of the walk. */
  lemma {:induction false} WalkStep(disk: seq<Block>, c: seq<nat>)
    requires IsChain(disk, c)
    ensures c != [] && Last(c) < |disk|
    ensures var next := Next(disk[Last(c)]);
      && (next == 0 ==> Walk(disk, c) == Complete(c))
      && (next != 0 && next in c ==> Walk(disk, c) == Cyclical(c))
      && (next != 0 && next !in c && !ReadBlock(disk, next).Data? ==> Walk(disk, c) == Broken(c, ReadBlock(disk, next)))
      && (next != 0 && next !in c && ReadBlock(disk, next).Data? ==>
        IsChain(disk, c + [next]) && Walk(disk, c) == Walk(disk, c + [next]))
  {
    hide IsChain;
    LastReadable(disk, c);
    var next := Next(disk[Last(c)]);
    if next != 0 && next !in c && ReadBlock(disk, next).Data? {
      ChainMore(disk, c, next);
    }
  }

  /** What the walk finds, said of the chain itself; the chain it keeps starts with c. */
  lemma {:induction false} WalkMeans(disk: seq<Block>, c: seq<nat>)
    requires IsChain(disk, c)
    ensures var r := Walk(disk, c);
      && IsChain(disk, r.chain) && c <= r.chain
      && match r
         case Complete(d) => Next(disk[Last(d)]) == 0
         case Cyclical(d) => Next(disk[Last(d)]) in d && Next(disk[Last(d)]) != 0
         case Broken(d, e) =>
           var next := Next(disk[Last(d)]); next != 0 && next >= |disk| && e == ReadBlock(disk, next) && !e.Data?
    decreases |disk| - |c|
  {
    hide IsChain, Walk;
    LastReadable(disk, c);
    var next := Next(disk[Last(c)]);
    ChainLength(disk, c);
    WalkStep(disk, c);
    if next != 0 && next !in c && ReadBlock(disk, next).Data? {
      ChainLength(disk, c + [next]);
      WalkMeans(disk, c + [next]);
    }
  }

  /** A walk reports a cycle exactly when the chain comes to some block twice. */
  lemma {:induction false} CyclicalExactly(disk: seq<Block>, start: nat)
    requires start < |disk|
    ensures IsChain(disk, [start])
    ensures Walk(disk, [start]).Cyclical? <==> Revisits(disk, start)
  {
    hide Walk;
    ChainStart(disk, start);
    var r := Walk(disk, [start]);
    WalkMeans(disk, [start]);
    var c := r.chain;
    ChainIsNth(disk, c, |c| - 1);
    if r.Cyclical? {
      var i :| 0 <= i < |c| && c[i] == Next(disk[Last(c)]);
      ChainIsNth(disk, c, i);
      assert Nth(disk, start, |c|) == Some(c[i]);
    } else if Revisits(disk, start) {
      var i: nat, j: nat :| i < j && Nth(disk, start, i).Some? && Nth(disk, start, i) == Nth(disk, start, j);
      NthOutside(disk, r, start, i);
      NthOutside(disk, r, start, j);
      assert false;
    }
  }

  /** Without a cycle the chain is what the walk kept, and at most one unreadable block more. */
  lemma {:induction false} NthOutside(disk: seq<Block>, r: Walked, start: nat, k: nat)
    requires start < |disk| && IsChain(disk, [start]) && r == Walk(disk, [start]) && !r.Cyclical?
    ensures IsChain(disk, r.chain) && r.chain[0] == start
    ensures Nth(disk, start, k) ==
      if k < |r.chain| then Some(r.chain[k])
      else if k == |r.chain| && r.Broken? then Some(Next(disk[Last(r.chain)]))
      else None
    ensures r.Broken? ==> Next(disk[Last(r.chain)]) >= |disk|
  {
    WalkMeans(disk, [start]);
    var c := r.chain;
    ChainIsNth(disk, c, |c| - 1);
    if k < |c| {
      ChainIsNth(disk, c, k);
    } else if r.Complete? {
      NothingAfter(disk, start, |c|, k);
    } else if k > |c| {
      NothingAfter(disk, start, |c| + 1, k);
    }
  }

  // ---------------------------------------------------------------- the entries of the chain

  /** The live entries of the first n blocks of the chain, in order. */
  function ChainEntries(disk: seq<Block>, c: seq<nat>, h: Header, n: nat): seq<DirEntry>
    requires n <= |c| && forall k :: 0 <= k < |c| ==> c[k] < |disk|
  {
    if n == 0 then []
    else
      var first := n == 1;
      ChainEntries(disk, c, h, n - 1) + LiveEntries(c[n - 1], disk[c[n - 1]], h, Lo(first), Hi(first, h))
  }

  /** DirEntry i of block k of the chain, live. */
  ghost predicate IsLive(disk: seq<Block>, c: seq<nat>, h: Header, k: nat, i: nat)
    requires forall k :: 0 <= k < |c| ==> c[k] < |disk|
  {
    && k < |c| && Lo(k == 0) <= i < Hi(k == 0, h)
    && Live(disk[c[k]], h, i)
  }

  /** Where an entry of a list comes from. */
  datatype Place = Place(k: nat, i: nat)

  predicate Before(p: Place, q: Place) {
    p.k < q.k || (p.k == q.k && p.i < q.i)
  }

  /** The places of all live entries, in chain order. */
  function LivePlaces(b: Block, h: Header, k: nat, lo: nat, hi: nat): seq<Place>
    decreases hi
  {
    if hi <= lo then []
    else LivePlaces(b, h, k, lo, hi - 1) + (if Live(b, h, hi - 1) then [Place(k, hi - 1)] else [])
  }

  function ChainPlaces(disk: seq<Block>, c: seq<nat>, h: Header, n: nat): seq<Place>
    requires n <= |c| && forall k :: 0 <= k < |c| ==> c[k] < |disk|
  {
    if n == 0 then []
    else ChainPlaces(disk, c, h, n - 1) + LivePlaces(disk[c[n - 1]], h, n - 1, Lo(n == 1), Hi(n == 1, h))
  }

  lemma {:induction false} LivePlacesMean(b: Block, h: Header, block: nat, k: nat, lo: nat, hi: nat)
    ensures var ps, es := LivePlaces(b, h, k, lo, hi), LiveEntries(block, b, h, lo, hi);
      && |ps| == |es|
      && (forall m :: 0 <= m < |ps| ==>
        ps[m].k == k && lo <= ps[m].i < hi && Live(b, h, ps[m].i)
        && es[m] == EntryAt(block, b, h, ps[m].i))
      && (forall m, n :: 0 <= m < n < |ps| ==> ps[m].i < ps[n].i)
      && (forall i :: lo <= i < hi && Live(b, h, i) ==> Place(k, i) in ps)
    decreases hi
  {
    if hi > lo {
      LivePlacesMean(b, h, block, k, lo, hi - 1);
    }
  }

  /** The m-th entry returned is the one at the m-th place. */
  ghost predicate Matches(disk: seq<Block>, c: seq<nat>, h: Header, e: DirEntry, p: Place)
    requires forall k :: 0 <= k < |c| ==> c[k] < |disk|
  {
    IsLive(disk, c, h, p.k, p.i) && e == EntryAt(c[p.k], disk[c[p.k]], h, p.i)
  }

  /** The places of a list of entries from blocks k0 up to k1: each entry matches, in order, and none is missing. */
  ghost predicate Exactly(disk: seq<Block>, c: seq<nat>, h: Header, es: seq<DirEntry>, ps: seq<Place>, k0: nat, k1: nat)
    requires forall k :: 0 <= k < |c| ==> c[k] < |disk|
  {
    && |ps| == |es|
    && (forall m :: 0 <= m < |ps| ==> k0 <= ps[m].k < k1 && Matches(disk, c, h, es[m], ps[m]))
    && (forall m, m' :: 0 <= m < m' < |ps| ==> Before(ps[m], ps[m']))
    && (forall k: nat, i: nat :: k0 <= k < k1 && IsLive(disk, c, h, k, i) ==> Place(k, i) in ps)
  }

  lemma {:induction false} ExactlyBlock(disk: seq<Block>, c: seq<nat>, h: Header, k: nat)
    requires k < |c| && forall k :: 0 <= k < |c| ==> c[k] < |disk|
    ensures var b, lo, hi := disk[c[k]], Lo(k == 0), Hi(k == 0, h);
      Exactly(disk, c, h, LiveEntries(c[k], b, h, lo, hi), LivePlaces(b, h, k, lo, hi), k, k + 1)
  {
    hide LivePlaces, LiveEntries;
    LivePlacesMean(disk[c[k]], h, c[k], k, Lo(k == 0), Hi(k == 0, h));
  }

  lemma {:induction false} ExactlyAppend(disk: seq<Block>, c: seq<nat>, h: Header, es: seq<DirEntry>, ps: seq<Place>,
                                         es': seq<DirEntry>, ps': seq<Place>, k: nat)
    requires forall k :: 0 <= k < |c| ==> c[k] < |disk|
    requires Exactly(disk, c, h, es, ps, 0, k) && Exactly(disk, c, h, es', ps', k, k + 1)
    ensures Exactly(disk, c, h, es + es', ps + ps', 0, k + 1)
  {
    hide Matches, IsLive;
    var p := ps + ps';
    forall m, m' | 0 <= m < m' < |p| ensures Before(p[m], p[m']) {
      assert m < |ps| <= m' ==> p[m].k < k <= p[m'].k;
    }
  }

  /** The entries returned are exactly the live ones, in chain order. */
  lemma {:induction false} EntriesExactly(disk: seq<Block>, c: seq<nat>, h: Header, n: nat)
    requires n <= |c| && forall k :: 0 <= k < |c| ==> c[k] < |disk|
    ensures Exactly(disk, c, h, ChainEntries(disk, c, h, n), ChainPlaces(disk, c, h, n), 0, n)
  {
    if n > 0 {
      hide Exactly, LivePlaces, LiveEntries;
      EntriesExactly(disk, c, h, n - 1);
      ExactlyBlock(disk, c, h, n - 1);
      var b, lo, hi := disk[c[n - 1]], Lo(n == 1), Hi(n == 1, h);
      ExactlyAppend(disk, c, h, ChainEntries(disk, c, h, n - 1), ChainPlaces(disk, c, h, n - 1),
                    LiveEntries(c[n - 1], b, h, lo, hi), LivePlaces(b, h, n - 1, lo, hi), n - 1);
    }
  }

  /** The address of an entry says where it is. */
  lemma {:induction false} AddressDecodes(disk: seq<Block>, c: seq<nat>, h: Header, e: DirEntry, p: Place)
    requires (forall k :: 0 <= k < |c| ==> c[k] < |disk|) && Matches(disk, c, h, e, p)
    ensures p.k < |c| && e.address / BLOCK_SIZE == c[p.k] && e.address % BLOCK_SIZE == Offset(h, p.i)
    ensures e.bytes == disk[e.address / BLOCK_SIZE][e.address % BLOCK_SIZE..e.address % BLOCK_SIZE + ENTRY_SIZE]
  {
    hide Lo, Hi;
    AddressParts(c[p.k], Offset(h, p.i));
  }

  lemma {:induction false} AddressParts(block: nat, o: nat)
    requires o < BLOCK_SIZE
    ensures (block * BLOCK_SIZE + o) / BLOCK_SIZE == block && (block * BLOCK_SIZE + o) % BLOCK_SIZE == o
  {
  }

  /** With entries of at least one byte no two have the same address. */
  lemma {:induction false} AddressesDistinct(disk: seq<Block>, c: seq<nat>, h: Header, m: nat, m': nat)
    requires IsChain(disk, c) && h.entryLength >= 1
    requires m < m' < |ChainEntries(disk, c, h, |c|)|
    ensures ChainEntries(disk, c, h, |c|)[m].address != ChainEntries(disk, c, h, |c|)[m'].address
  {
    EntriesExactly(disk, c, h, |c|);
    var ps, es := ChainPlaces(disk, c, h, |c|), ChainEntries(disk, c, h, |c|);
    hide ChainPlaces, ChainEntries, Matches;
    assert Before(ps[m], ps[m']);
    AddressDecodes(disk, c, h, es[m], ps[m]);
    AddressDecodes(disk, c, h, es[m'], ps[m']);
    if ps[m].k == ps[m'].k {
      OffsetsDiffer(h, ps[m].i, ps[m'].i);
    }
  }

  lemma {:induction false} OffsetsDiffer(h: Header, i: nat, j: nat)
    requires h.entryLength >= 1 && i < j
    ensures Offset(h, i) < Offset(h, j)
  {
    assert h.entryLength * j == h.entryLength * i + h.entryLength * (j - i);
    assert h.entryLength * (j - i) >= 1;
  }

  // ---------------------------------------------------------------- the program

  datatype DirResult =
    | Files(header: Header, files: seq<DirEntry>)
    | HeaderOnly(header: Header)
    | InvalidStorageType
    | CyclicalBlock
    | ReadPastBlock  // an entry is read past the end of its block; what that gives is not defined
    | Unreadable(error: Fetched)

  /** No entry of the first n blocks of the chain is read past the end of its block. */
  ghost predicate ChainInside(disk: seq<Block>, c: seq<nat>, h: Header, n: nat)
    requires n <= |c| && forall k :: 0 <= k < |c| ==> c[k] < |disk|
  {
    forall k :: 0 <= k < n ==> BlockInside(disk[c[k]], h, Lo(k == 0), Hi(k == 0, h))
  }

  /** What a walk of the chain comes to: the entries, or the reason there are none. */
  ghost function WalkResult(disk: seq<Block>, w: Walked, h: Header): DirResult
    requires forall k :: 0 <= k < |w.chain| ==> w.chain[k] < |disk|
  {
    if !ChainInside(disk, w.chain, h, |w.chain|) then ReadPastBlock
    else if w.Complete? then Files(h, ChainEntries(disk, w.chain, h, |w.chain|))
    else if w.Cyclical? then CyclicalBlock
    else Unreadable(w.error)
  }

  /** What reading the directory at start returns. */
  ghost function Directory(disk: seq<Block>, start: nat, kind: nat, wantFiles: bool): DirResult
  {
    if !ReadBlock(disk, start).Data? then Unreadable(ReadBlock(disk, start))
    else
      var h := LoadHeader(disk[start]);
      if h.storageType != kind then InvalidStorageType
      else if !wantFiles then HeaderOnly(h)
      else if h.fileCount == 0 then Files(h, [])
      else
        ChainStart(disk, start);
        WalkMeans(disk, [start]);
        WalkResult(disk, Walk(disk, [start]), h)
  }

  /** The header, as bytes of the first block. */
  lemma {:induction false} HeaderBytes(b: Block)
    ensures LoadHeader(b) == Header(b[4] as int / 16, b[35] as int, b[36] as int, b[37] as int + 256 * b[38] as int)
  {
  }

  /**
   Reading the entries of a directory, told from the bytes of its blocks. There is a chain c, from start by bytes 2
   and 3 of each block, up to its end, a block seen before, or one that cannot be read. A cycle is reported exactly
   when the chain comes to a block twice, unless the header makes the program read past the end of a block on the way.
   When entries are returned, c is the whole chain, and they are exactly the live ones of its blocks, in order.
   */
  lemma {:induction false} DirectoryMeans(disk: seq<Block>, start: nat, kind: nat) returns (c: seq<nat>)
    requires start < |disk|
    requires disk[start][4] as int / 16 == kind && (disk[start][37] != 0 || disk[start][38] != 0)
    ensures c != [] && c[0] == start && forall k :: 0 <= k < |c| ==> c[k] < |disk| && Nth(disk, start, k) == Some(c[k])
    ensures var r, b := Directory(disk, start, kind, true), disk[start];
      var h := Header(kind, b[35] as int, b[36] as int, b[37] as int + 256 * b[38] as int);
      && (r == ReadPastBlock <==> !ChainInside(disk, c, h, |c|))
      && (r == CyclicalBlock <==> ChainInside(disk, c, h, |c|) && Revisits(disk, start))
      && (r.Files? ==>
        && r.header == h && (forall k: nat :: k >= |c| ==> Nth(disk, start, k) == None)
        && Exactly(disk, c, h, r.files, ChainPlaces(disk, c, h, |c|), 0, |c|))
      && !r.HeaderOnly? && !r.InvalidStorageType?
  {
    hide Walk, Exactly, LoadHeader, ChainEntries, Revisits, ChainInside;
    HeaderBytes(disk[start]);
    ChainStart(disk, start);
    CyclicalExactly(disk, start);
    var w := Walk(disk, [start]);
    WalkMeans(disk, [start]);
    c := w.chain;
    LastReadable(disk, c);
    forall k | 0 <= k < |c| ensures Nth(disk, start, k) == Some(c[k]) {
      ChainIsNth(disk, c, k);
    }
    if w.Complete? {
      EntriesExactly(disk, w.chain, LoadHeader(disk[start]), |w.chain|);
      forall k: nat | k >= |c| ensures Nth(disk, start, k) == None {
        NthOutside(disk, w, start, k);
      }
    }
  }

  // ---------------------------------------------------------------- the usual volume directory

  /** Blocks 2 to 5 linked by bytes 2 and 3, a volume header with entries of 39 bytes, 13 to a block, some in use. */
  predicate Usual(disk: seq<Block>) {
    && |disk| > 5
    && disk[2][2..4] == [3, 0] && disk[3][2..4] == [4, 0] && disk[4][2..4] == [5, 0] && disk[5][2..4] == [0, 0]
    && disk[2][4] >= 0xf0 && disk[2][35] == 39 && disk[2][36] == 13 && (disk[2][37] != 0 || disk[2][38] != 0)
  }

  /** Entry j of block b with its position on the disk, if its first byte is 0x10 or more. */
  function Used(disk: seq<Block>, b: nat, j: nat): seq<DirEntry>
    requires b < |disk| && j < 13
  {
    if disk[b][4 + 39 * j] >= 0x10 then [DirEntry(disk[b][4 + 39 * j..43 + 39 * j], 512 * b + 4 + 39 * j)] else []
  }

  /** The entries of block b in use, from entry j on. */
  function Listing(disk: seq<Block>, b: nat, j: nat): seq<DirEntry>
    requires b < |disk|
    decreases 13 - j
  {
    if j >= 13 then [] else Used(disk, b, j) + Listing(disk, b, j + 1)
  }

  lemma {:induction false} LiveFirst(block: nat, b: Block, h: Header, lo: nat, hi: nat)
    requires lo < hi
    ensures LiveEntries(block, b, h, lo, hi) ==
      (if Live(b, h, lo) then [EntryAt(block, b, h, lo)] else []) + LiveEntries(block, b, h, lo + 1, hi)
    decreases hi
  {
    hide Live, EntryAt;
    if lo + 1 < hi {
      LiveFirst(block, b, h, lo, hi - 1);
    }
  }

  lemma {:induction false} UsedIsLive(disk: seq<Block>, b: nat, h: Header, j: nat)
    requires b < |disk| && j < 13 && h.entryLength == 39
    ensures (if Live(disk[b], h, j) then [EntryAt(b, disk[b], h, j)] else []) == Used(disk, b, j)
  {
  }

  lemma {:induction false} ListingIsLive(disk: seq<Block>, b: nat, h: Header, j: nat)
    requires b < |disk| && j <= 13 && h.entryLength == 39
    ensures LiveEntries(b, disk[b], h, j, 13) == Listing(disk, b, j)
    decreases 13 - j
  {
    hide LiveEntries, Live, EntryAt, Used;
    if j < 13 {
      LiveFirst(b, disk[b], h, j, 13);
      UsedIsLive(disk, b, h, j);
      ListingIsLive(disk, b, h, j + 1);
    } else {
      NoLive(b, disk[b], h, j);
    }
  }

  lemma {:induction false} NoLive(block: nat, b: Block, h: Header, j: nat)
    ensures LiveEntries(block, b, h, j, j) == []
  {
  }

  lemma {:induction false} NextBytes(b: Block, lo: byte, hi: byte)
    requires b[2..4] == [lo, hi]
    ensures Next(b) == lo as int + 256 * hi as int
  {
    assert b[2] == b[2..4][0] && b[3] == b[2..4][1];
  }

  lemma {:induction false} UsualWalk(disk: seq<Block>)
    requires Usual(disk)
    ensures IsChain(disk, [2]) && Walk(disk, [2]) == Complete([2, 3, 4, 5])
  {
    hide Walk, IsChain, Next;
    ChainStart(disk, 2);
    NextBytes(disk[2], 3, 0);
    NextBytes(disk[3], 4, 0);
    NextBytes(disk[4], 5, 0);
    NextBytes(disk[5], 0, 0);
    WalkStep(disk, [2]);
    assert [2] + [3] == [2, 3] && [2, 3] + [4] == [2, 3, 4] && [2, 3, 4] + [5] == [2, 3, 4, 5];
    WalkStep(disk, [2, 3]);
    WalkStep(disk, [2, 3, 4]);
    WalkStep(disk, [2, 3, 4, 5]);
  }

  lemma {:induction false} UsualBlock(disk: seq<Block>, c: seq<nat>, h: Header, n: nat)
    requires (forall k :: 0 <= k < |c| ==> c[k] < |disk|) && 0 < n <= |c|
    requires h.entryLength == 39 && h.entriesPerBlock == 13
    ensures ChainEntries(disk, c, h, n) ==
      ChainEntries(disk, c, h, n - 1) + Listing(disk, c[n - 1], if n == 1 then 1 else 0)
    ensures BlockInside(disk[c[n - 1]], h, Lo(n == 1), Hi(n == 1, h))
  {
    hide LiveEntries, Listing;
    StandardInside(disk[c[n - 1]], h, n == 1);
    ListingIsLive(disk, c[n - 1], h, Lo(n == 1));
  }

  lemma {:induction false} UsualInside(disk: seq<Block>, c: seq<nat>, h: Header)
    requires (forall k :: 0 <= k < |c| ==> c[k] < |disk|) && h.entryLength == 39 && h.entriesPerBlock == 13
    ensures ChainInside(disk, c, h, |c|)
  {
    hide BlockInside;
    forall k | 0 <= k < |c| ensures BlockInside(disk[c[k]], h, Lo(k == 0), Hi(k == 0, h)) {
      StandardInside(disk[c[k]], h, k == 0);
    }
  }

  lemma {:induction false} NoBlocks(disk: seq<Block>, c: seq<nat>, h: Header)
    requires forall k :: 0 <= k < |c| ==> c[k] < |disk|
    ensures ChainEntries(disk, c, h, 0) == []
  {
  }

  lemma {:induction false} FourBlocks(disk: seq<Block>, c: seq<nat>, h: Header)
    requires |c| == 4 && (forall k :: 0 <= k < |c| ==> c[k] < |disk|) && h.entryLength == 39 && h.entriesPerBlock == 13
    ensures ChainEntries(disk, c, h, 4) ==
      Listing(disk, c[0], 1) + Listing(disk, c[1], 0) + Listing(disk, c[2], 0) + Listing(disk, c[3], 0)
  {
    hide *;
    NoBlocks(disk, c, h);
    UsualBlock(disk, c, h, 1);
    UsualBlock(disk, c, h, 2);
    UsualBlock(disk, c, h, 3);
    UsualBlock(disk, c, h, 4);
  }

  /** A volume directory in blocks 2 to 5 gives the entries in use of all four blocks, in order, after the header. */
  lemma {:induction false} UsualVolume(disk: seq<Block>)
    requires Usual(disk)
    ensures Directory(disk, VOLUME_BLOCK, VOLUME_HEADER, true) ==
      Files(Header(15, 39, 13, disk[2][37] as int + 256 * disk[2][38] as int),
            Listing(disk, 2, 1) + Listing(disk, 3, 0) + Listing(disk, 4, 0) + Listing(disk, 5, 0))
  {
    hide Walk, ChainEntries, ChainInside, Listing;
    HeaderBytes(disk[2]);
    UsualWalk(disk);
    FourBlocks(disk, [2, 3, 4, 5], LoadHeader(disk[2]));
    UsualInside(disk, [2, 3, 4, 5], LoadHeader(disk[2]));
  }

  /** What the first block decides: the kind of directory, 15 for a volume, 14 for a subdirectory; and no files. */
  lemma {:induction false} FirstBlockDecides(disk: seq<Block>, start: nat, volume: bool, wantFiles: bool)
    requires start < |disk|
    ensures var kind, b := if volume then VOLUME_HEADER else SUBDIR_HEADER, disk[start];
      var h := Header(b[4] as int / 16, b[35] as int, b[36] as int, b[37] as int + 256 * b[38] as int);
      var r := Directory(disk, start, kind, wantFiles);
      && (r == InvalidStorageType <==> b[4] as int / 16 != if volume then 15 else 14)
      && (r.HeaderOnly? <==> r != InvalidStorageType && !wantFiles)
      && (r.HeaderOnly? ==> r.header == h)
      && (r != InvalidStorageType && wantFiles && b[37] == b[38] == 0 ==> r == Files(h, []))
  {
    HeaderBytes(disk[start]);
    hide LoadHeader, Walk;
  }

  // ---------------------------------------------------------------- the two programs

  /** ReadVolume */
  method ReadVolume(disk: Disk, wantFiles: bool) returns (r: DirResult)
    ensures r == Directory(disk.device.blocks, VOLUME_BLOCK, VOLUME_HEADER, wantFiles)
  {
    r := ReadChain(disk, VOLUME_BLOCK, VOLUME_HEADER, wantFiles);
  }

  /** ReadDirectory */
  method ReadDirectory(disk: Disk, block: nat, wantFiles: bool) returns (r: DirResult)
    ensures r == Directory(disk.device.blocks, block, SUBDIR_HEADER, wantFiles)
  {
    r := ReadChain(disk, block, SUBDIR_HEADER, wantFiles);
  }

  /** The body the two share. */
  method ReadChain(disk: Disk, start: nat, kind: nat, wantFiles: bool) returns (r: DirResult)
    ensures r == Directory(disk.device.blocks, start, kind, wantFiles)
  {
    hide Walk, LiveEntries, LoadHeader;
    ghost var d := disk.device.blocks;
    var got := disk.Read(start);
    if !got.Data? {
      return Unreadable(got);
    }
    var buffer := got.block;
    var h := LoadHeader(buffer);
    if h.storageType != kind {
      return InvalidStorageType;
    }
    if !wantFiles {
      return HeaderOnly(h);
    }
    if h.fileCount == 0 {
      return Files(h, []);
    }
    r := ReadEntries(disk, start, buffer, h);
  }

  /** The loop over entries and blocks. */
  method ReadEntries(disk: Disk, start: nat, firstBlock: Block, h: Header) returns (r: DirResult)
    requires start < |disk.device.blocks| && firstBlock == disk.device.blocks[start]
    ensures IsChain(disk.device.blocks, [start])
    ensures IsChain(disk.device.blocks, Walk(disk.device.blocks, [start]).chain)
    ensures r == WalkResult(disk.device.blocks, Walk(disk.device.blocks, [start]), h)
  {
    hide Walk, LiveEntries, IsChain, ChainEntries;
    ghost var d := disk.device.blocks;
    ghost var c := [start];
    ChainStart(d, start);
    var block, buffer, next := start, firstBlock, Next(firstBlock);
    var seen: set<nat> := {start};
    var files: seq<DirEntry> := [];
    var index := 1;
    BlockStart(d, c, h);
    while true
      invariant disk.device.blocks == d && IsChain(d, c) && Walk(d, c) == Walk(d, [start]) && c != []
      invariant block == Last(c) < |d| && buffer == d[block] && next == Next(buffer)
      invariant forall b :: b in seen <==> b in c
      invariant Lo(|c| == 1) <= index < Hi(|c| == 1, h)
      invariant EntriesSoFar(d, c, h, index, files)
      decreases |d| - |c|, Hi(|c| == 1, h) - index
    {
      OneMore(d, c, h, index, files);
      ChainLength(d, c);
      if h.entryLength * index + 4 >= BLOCK_SIZE {
        Outside(d, c, h, index);
        return ReadPastBlock;
      }
      if buffer[h.entryLength * index + 4] / 16 != DELETED_FILE {
        var offset := h.entryLength * index + 4;
        if offset + ENTRY_SIZE > BLOCK_SIZE {
          Outside(d, c, h, index);
          return ReadPastBlock;
        }
        var f := DirEntry(buffer[offset..offset + ENTRY_SIZE], block * 512 + offset);
        files := files + [f];
      }
      index := index + 1;
      if index >= h.entriesPerBlock {
        BlockDone(d, c, h, files);
        WalkStep(d, c);
        if next == 0 {
          return Files(h, files);
        }
        if next in seen {
          return CyclicalBlock;
        }
        seen := seen + {next};
        var ok := disk.Read(next);
        if !ok.Data? {
          return Unreadable(ok);
        }
        block, buffer := next, ok.block;
        ghost var c' := c + [next];
        ChainLength(d, c');
        BlockNext(d, c, h, next);
        c := c';
        next, index := Next(buffer), 0;
      }
    }
  }

  /** The entries of all blocks before the last, and of the last those before index. */
  ghost predicate EntriesSoFar(disk: seq<Block>, c: seq<nat>, h: Header, index: nat, files: seq<DirEntry>)
    requires c != []
  {
    && (forall k :: 0 <= k < |c| ==> c[k] < |disk|) && index <= Hi(|c| == 1, h)
    && ChainInside(disk, c, h, |c| - 1) && BlockInside(disk[Last(c)], h, Lo(|c| == 1), index)
    && files == ChainEntries(disk, c, h, |c| - 1) + LiveEntries(Last(c), disk[Last(c)], h, Lo(|c| == 1), index)
  }

  lemma {:induction false} BlockStart(disk: seq<Block>, c: seq<nat>, h: Header)
    requires |c| == 1 && c[0] < |disk|
    ensures EntriesSoFar(disk, c, h, 1, [])
  {
  }

  lemma {:induction false} OneMore(disk: seq<Block>, c: seq<nat>, h: Header, i: nat, files: seq<DirEntry>)
    requires c != [] && Lo(|c| == 1) <= i < Hi(|c| == 1, h) && EntriesSoFar(disk, c, h, i, files)
    ensures var b := disk[Last(c)];
      EntryInside(b, h, i) ==>
        EntriesSoFar(disk, c, h, i + 1, files + (if Live(b, h, i) then [EntryAt(Last(c), b, h, i)] else []))
  {
    hide ChainEntries, Live, EntryAt, EntryInside, ChainInside;
  }

  /** An entry that is not inside its block: the walk would go on, but the read has left the block before. */
  lemma {:induction false} Outside(disk: seq<Block>, c: seq<nat>, h: Header, i: nat)
    requires IsChain(disk, c) && Lo(|c| == 1) <= i < Hi(|c| == 1, h) && !EntryInside(disk[Last(c)], h, i)
    ensures IsChain(disk, Walk(disk, c).chain)
    ensures !ChainInside(disk, Walk(disk, c).chain, h, |Walk(disk, c).chain|)
  {
    hide Walk, IsChain, EntryInside;
    WalkMeans(disk, c);
    var d := Walk(disk, c).chain;
    LastReadable(disk, c);
    LastReadable(disk, d);
    assert d[|c| - 1] == Last(c);
    assert !BlockInside(disk[d[|c| - 1]], h, Lo(|c| == 1), Hi(|c| == 1, h));
  }

  lemma {:induction false} BlockDone(disk: seq<Block>, c: seq<nat>, h: Header, files: seq<DirEntry>)
    requires c != [] && EntriesSoFar(disk, c, h, Hi(|c| == 1, h), files)
    ensures files == ChainEntries(disk, c, h, |c|) && ChainInside(disk, c, h, |c|)
  {
    hide LiveEntries, BlockInside;
  }

  lemma {:induction false} BlockNext(disk: seq<Block>, c: seq<nat>, h: Header, next: nat)
    requires c != [] && next < |disk| && (forall k :: 0 <= k < |c| ==> c[k] < |disk|) && ChainInside(disk, c, h, |c|)
    ensures EntriesSoFar(disk, c + [next], h, 0, ChainEntries(disk, c, h, |c|))
  {
    hide BlockInside, ChainEntries;
    SamePrefix(disk, c, next, h, |c|);
    var d := c + [next];
    forall k | 0 <= k < |c| ensures BlockInside(disk[d[k]], h, Lo(k == 0), Hi(k == 0, h)) {
      assert d[k] == c[k];
    }
    NoneYet(d, disk[next], h);
  }

  lemma {:induction false} NoneYet(c: seq<nat>, b: Block, h: Header)
    ensures BlockInside(b, h, Lo(|c| == 1), 0)
  {
  }

  lemma {:induction false} SamePrefix(disk: seq<Block>, c: seq<nat>, next: nat, h: Header, n: nat)
    requires n <= |c| && next < |disk| && forall k :: 0 <= k < |c| ==> c[k] < |disk|
    ensures ChainEntries(disk, c + [next], h, n) == ChainEntries(disk, c, h, n)
  {
    if n > 0 {
      SamePrefix(disk, c, next, h, n - 1);
    }
  }
}
