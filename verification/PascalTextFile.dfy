/**
 Reading a text file: pages of one or two blocks, a table of their decoded sizes, and random access by way of it.
 The table is computed once and kept; what a read returns when blocks and table do not belong together is part of it.
 */
module PascalTextFile {
  import opened Blocks
  import opened PascalText

  const SIZE32 := 0x1_0000_0000

  /** The blocks of a file; lastBlock is the one after the last, lastByte says how much of the last is used. */
  datatype Extent = Extent(firstBlock: nat, lastBlock: nat, lastByte: nat)

  // ---------------------------------------------------------------- pages

  predicate OnDisk(f: Extent, arr: seq<Block>) {
    f.lastBlock <= |arr| && f.lastByte <= BLOCK_SIZE
  }

  /** The blocks textReadPage reads are there, and it fills all the bytes that it says count. */
  predicate Readable(f: Extent, arr: seq<Block>, block: nat) {
    && block < |arr| && (block + 1 == f.lastBlock || block + 1 < |arr|)
    && (block + 1 == f.lastBlock || block + 2 == f.lastBlock ==> f.lastByte <= BLOCK_SIZE)
  }

  /** textReadPage: what is used of the two blocks from block on. */
  function PageBytes(f: Extent, arr: seq<Block>, block: nat): (r: Bytes)
    requires Readable(f, arr, block)
    ensures |r| <= PAGE
  {
    if block + 1 == f.lastBlock then arr[block][..f.lastByte]
    else if block + 2 == f.lastBlock then arr[block] + arr[block + 1][..f.lastByte]
    else arr[block][..] + arr[block + 1][..]
  }

  function PageText(f: Extent, arr: seq<Block>, block: nat): Bytes
    requires Readable(f, arr, block)
  {
    Decode(PageBytes(f, arr, block), false)
  }

  /** All decoded pages from block on, one after the other. */
  function TextFrom(f: Extent, arr: seq<Block>, block: nat): Bytes
    requires f.lastBlock <= block || OnDisk(f, arr)
    decreases f.lastBlock - block
  {
    if block >= f.lastBlock then [] else PageText(f, arr, block) + TextFrom(f, arr, block + 2)
  }

  /** All pages can be read; the first page is the editor's and is not one of them. */
  predicate HasText(f: Extent, arr: seq<Block>) {
    f.lastBlock <= f.firstBlock + 2 || OnDisk(f, arr)
  }

  /** The text of a file. */
  function Text(f: Extent, arr: seq<Block>): Bytes
    requires HasText(f, arr)
  {
    TextFrom(f, arr, f.firstBlock + 2)
  }

  /**
   The text begins with the third block of the file. A page is two blocks, or the one that is left at the end,
   and of the last block lastByte bytes.
   */
  lemma {:induction false} TextPages(f: Extent, arr: seq<Block>)
    requires f.firstBlock + 2 < f.lastBlock && HasText(f, arr)
    ensures var b, n := f.firstBlock + 2, f.lastBlock - f.firstBlock - 2;
      Text(f, arr) ==
        if n == 1 then Decode(arr[b][..f.lastByte], false)
        else if n == 2 then Decode(arr[b] + arr[b + 1][..f.lastByte], false)
        else Decode(arr[b][..] + arr[b + 1][..], false) + Text(f.(firstBlock := b), arr)
  {
    hide Decode;
    EndOfText(f, arr);
  }

  lemma {:induction false} EndOfText(f: Extent, arr: seq<Block>)
    requires f.firstBlock + 2 < f.lastBlock && HasText(f, arr)
    ensures OnDisk(f, arr) && TextFrom(f, arr, f.firstBlock + 2) ==
      PageText(f, arr, f.firstBlock + 2) + TextFrom(f.(firstBlock := f.firstBlock + 2), arr, f.firstBlock + 4)
  {
    SameFrom(f, f.(firstBlock := f.firstBlock + 2), arr, f.firstBlock + 4);
  }

  lemma {:induction false} SameFrom(f: Extent, g: Extent, arr: seq<Block>, block: nat)
    requires (f.lastBlock <= block || OnDisk(f, arr)) && f.lastBlock == g.lastBlock && f.lastByte == g.lastByte
    ensures TextFrom(f, arr, block) == TextFrom(g, arr, block)
    decreases f.lastBlock - block
  {
    hide Decode;
    if block < f.lastBlock {
      SameFrom(f, g, arr, block + 2);
    }
  }

  function PageSizes(f: Extent, arr: seq<Block>, block: nat): seq<nat>
    requires f.lastBlock <= block || OnDisk(f, arr)
    decreases f.lastBlock - block
  {
    if block >= f.lastBlock then [] else [|PageText(f, arr, block)|] + PageSizes(f, arr, block + 2)
  }

  /** The table textInit makes. */
  function Table(f: Extent, arr: seq<Block>): seq<nat>
    requires HasText(f, arr)
  {
    PageSizes(f, arr, f.firstBlock + 2)
  }

  function Sum(sizes: seq<nat>): nat {
    if sizes == [] then 0 else sizes[0] + Sum(sizes[1..])
  }

  lemma {:induction false} SumPages(f: Extent, arr: seq<Block>, block: nat)
    requires f.lastBlock <= block || OnDisk(f, arr)
    ensures Sum(PageSizes(f, arr, block)) == |TextFrom(f, arr, block)|
    decreases f.lastBlock - block
  {
    hide PageText;
    if block < f.lastBlock {
      SumPages(f, arr, block + 2);
      assert PageSizes(f, arr, block)[1..] == PageSizes(f, arr, block + 2);
    }
  }

  lemma {:induction false} SumAppend(a: seq<nat>, b: seq<nat>)
    ensures Sum(a + b) == Sum(a) + Sum(b)
  {
    if a == [] {
      assert a + b == b;
    } else {
      assert (a + b)[1..] == a[1..] + b;
      SumAppend(a[1..], b);
    }
  }

  lemma {:induction false} SumSplit(sizes: seq<nat>, k: nat)
    requires k < |sizes|
    ensures Sum(sizes[..k + 1]) == Sum(sizes[..k]) + sizes[k]
    ensures Sum(sizes[k..]) == sizes[k] + Sum(sizes[k + 1..])
    ensures Sum(sizes) == Sum(sizes[..k]) + Sum(sizes[k..])
  {
    assert sizes[k..][1..] == sizes[k + 1..] && sizes[..k + 1] == sizes[..k] + [sizes[k]];
    SumAppend(sizes[..k], [sizes[k]]);
    SumAppend(sizes[..k], sizes[k..]);
    assert sizes == sizes[..k] + sizes[k..] && [sizes[k]][1..] == [];
  }

  // ---------------------------------------------------------------- reading by way of a table

  /** The scratch buffer of textRead: how long it is, and what has been decoded into the front of it. */
  datatype Scratch = Scratch(capacity: nat, filled: Bytes)

  const NO_SCRATCH := Scratch(0, [])

  /** A longer buffer, with nothing in it, if the page needs one. */
  function Grown(tmp: Scratch, size: nat): Scratch {
    if size > tmp.capacity then Scratch(size, []) else tmp
  }

  /** A page decoded into the buffer, which it must not overrun; without a buffer the bytes are only counted. */
  function Decoded(tmp: Scratch, text: Bytes): Option<Scratch> {
    if tmp.capacity == 0 then Some(tmp)
    else if |text| > tmp.capacity then None
    else Some(tmp.(filled := text + (if |text| < |tmp.filled| then tmp.filled[|text|..] else [])))
  }

  function PageBlock(f: Extent, page: nat): nat {
    f.firstBlock + 2 + 2 * page
  }

  datatype Part = Part(bytes: Bytes, tmp: Scratch)

  /** One page of a read; None if it leaves the device, overruns the buffer or copies bytes that were never set. */
  function ReadPart(f: Extent, arr: seq<Block>, page: nat, size: nat, at: nat, left: nat, tmp: Scratch): Option<Part>
    requires at <= size
  {
    if !Readable(f, arr, PageBlock(f, page)) then None
    else
      var d := Decoded(Grown(tmp, size), PageText(f, arr, PageBlock(f, page)));
      var bytes := Min(left, size - at);
      if d.None? || at + bytes > |d.value.filled| then None
      else Some(Part(d.value.filled[at..at + bytes], d.value))
  }

  /** The loop of textRead; None also if it runs past the table. */
  function ReadLoop(f: Extent, arr: seq<Block>, sizes: seq<nat>, page: nat, at: nat, left: nat,
                    tmp: Scratch): (r: Option<Bytes>)
    requires page < |sizes| ==> at <= sizes[page]
    ensures r.Some? ==> |r.value| == left
    decreases |sizes| - page
  {
    if left == 0 then Some([])
    else if page >= |sizes| then None
    else
      var p := ReadPart(f, arr, page, sizes[page], at, left, tmp);
      if p.None? then None
      else
        var rest := ReadLoop(f, arr, sizes, page + 1, 0, left - |p.value.bytes|, p.value.tmp);
        if rest.None? then None else Some(p.value.bytes + rest.value)
  }

  /** The first page whose end lies behind offset. */
  function FirstPage(sizes: seq<nat>, page: nat, to: nat, offset: nat): (r: nat)
    requires page <= |sizes| && to == Sum(sizes[..page]) <= offset
    ensures page <= r <= |sizes| && Sum(sizes[..r]) <= offset
    ensures r < |sizes| ==> offset < Sum(sizes[..r]) + sizes[r]
    ensures r == |sizes| ==> Sum(sizes) <= offset
    decreases |sizes| - page
  {
    if page == |sizes| then
      assert sizes[..page] == sizes;
      page
    else if to + sizes[page] > offset then page
    else
      SumSplit(sizes, page);
      FirstPage(sizes, page + 1, to + sizes[page], offset)
  }

  /** What read cuts size down to; the sum of size and offset is 32-bit. */
  function Clamped(size: nat, offset: nat, fileSize: nat): nat
    requires offset < fileSize
  {
    if (offset + size) % SIZE32 > fileSize then fileSize - offset else size
  }

  /** textRead, from the first page it needs on. */
  function ReadPages(f: Extent, arr: seq<Block>, sizes: seq<nat>, size: nat, offset: nat): (r: Option<Bytes>)
    ensures r.Some? ==> |r.value| == size
  {
    var page := FirstPage(sizes, 0, 0, offset);
    ReadLoop(f, arr, sizes, page, offset - Sum(sizes[..page]), size, NO_SCRATCH)
  }

  /** read on a text file with the page table sizes; None if its outcome is not defined. */
  function ReadBy(f: Extent, arr: seq<Block>, sizes: seq<nat>, size: nat, offset: nat): Option<Bytes> {
    if offset >= Sum(sizes) then Some([]) else ReadPages(f, arr, sizes, Clamped(size, offset, Sum(sizes)), offset)
  }

  /** The table a read uses: the one that is kept, or else a new one, if all pages can be read. */
  function TableFor(f: Extent, arr: seq<Block>, kept: Option<seq<nat>>): Option<seq<nat>> {
    if kept.Some? then kept else if HasText(f, arr) then Some(Table(f, arr)) else None
  }

  function Outcome(f: Extent, arr: seq<Block>, kept: Option<seq<nat>>, size: nat, offset: nat): Option<Bytes> {
    var table := TableFor(f, arr, kept);
    if table.Some? then ReadBy(f, arr, table.value, size, offset) else None
  }

  /** What a read of size bytes at offset of a text should give. */
  function Slice(text: Bytes, size: nat, offset: nat): Bytes {
    if offset >= |text| then [] else text[offset..offset + Min(size, |text| - offset)]
  }

  /** Every read whose arguments do not wrap gives its slice of text. */
  ghost predicate ReadsAs(f: Extent, arr: seq<Block>, kept: Option<seq<nat>>, text: Bytes) {
    forall size: nat, offset: nat :: offset + size < SIZE32 ==>
      Outcome(f, arr, kept, size, offset) == Some(Slice(text, size, offset))
  }

  // ---------------------------------------------------------------- when reads give a text

  /**
   The table from page on cuts text as the pages are: a page with a size decodes to that many bytes, the next of the
   text; one without a size, if a read can come by it, to no more than the buffer of a read holds, which is as long
   as the last size before it. Pages behind the last size are not read.
   */
  predicate Cuts(f: Extent, arr: seq<Block>, sizes: seq<nat>, page: nat, last: nat, text: Bytes)
    requires page <= |sizes|
    decreases |sizes| - page
  {
    if Sum(sizes[page..]) == 0 then text == []
    else if sizes[page] == 0 then
      && (last > 0 ==> Readable(f, arr, PageBlock(f, page)) && |PageText(f, arr, PageBlock(f, page))| <= last)
      && Cuts(f, arr, sizes, page + 1, last, text)
    else
      && Readable(f, arr, PageBlock(f, page)) && PageText(f, arr, PageBlock(f, page)) <= text
      && |PageText(f, arr, PageBlock(f, page))| == sizes[page]
      && Cuts(f, arr, sizes, page + 1, sizes[page], text[sizes[page]..])
  }

  lemma {:induction false} CutsLength(f: Extent, arr: seq<Block>, sizes: seq<nat>, page: nat, last: nat, text: Bytes)
    requires page <= |sizes| && Cuts(f, arr, sizes, page, last, text)
    ensures |text| == Sum(sizes[page..])
    decreases |sizes| - page
  {
    hide PageText, Readable;
    if Sum(sizes[page..]) != 0 {
      SumSplit(sizes, page);
      CutsLength(f, arr, sizes, page + 1, if sizes[page] == 0 then last else sizes[page], text[sizes[page]..]);
    }
  }

  /** One page of a read under a table that cuts the text. */
  lemma {:induction false} PartReads(f: Extent, arr: seq<Block>, page: nat, size: nat, at: nat, left: nat, tmp: Scratch)
    requires at <= size && Readable(f, arr, PageBlock(f, page)) && |tmp.filled| <= tmp.capacity
    requires var n := |PageText(f, arr, PageBlock(f, page))|;
      if size > 0 then n == size else 0 < tmp.capacity && n <= tmp.capacity
    ensures var p := ReadPart(f, arr, page, size, at, left, tmp); var bytes := Min(left, size - at);
      && p.Some? && |p.value.bytes| == bytes && |p.value.tmp.filled| <= p.value.tmp.capacity
      && p.value.tmp.capacity == Max(size, tmp.capacity)
      && (size > 0 ==> p.value.bytes == PageText(f, arr, PageBlock(f, page))[at..at + bytes])
  {
    hide PageText, Readable;
    var text := PageText(f, arr, PageBlock(f, page));
    var d := Decoded(Grown(tmp, size), text);
    assert d.Some? && d.value.filled[..|text|] == text;
    if size > 0 {
      assert |d.value.filled| >= size;
      SliceOfFront(d.value.filled, |text|, at, at + Min(left, size - at));
    }
  }

  lemma {:induction false} SliceOfFront(t: Bytes, n: nat, i: nat, j: nat)
    requires i <= j <= n <= |t|
    ensures t[..n][i..j] == t[i..j]
  {
  }

  lemma {:induction false} SliceOfTail(t: Bytes, to: nat, i: nat, j: nat)
    requires i <= j && to + j <= |t|
    ensures t[to + i..to + j] == t[to..][i..j]
  {
  }

  /** From a page on, the loop gives what the text holds there. */
  lemma {:induction false} LoopReads(f: Extent, arr: seq<Block>, sizes: seq<nat>, page: nat, last: nat, text: Bytes,
                                     at: nat, left: nat, tmp: Scratch)
    requires page <= |sizes| && Cuts(f, arr, sizes, page, last, text)
    requires (page < |sizes| ==> at <= sizes[page]) && at + left <= |text| && |tmp.filled| <= tmp.capacity
    requires page < |sizes| ==> sizes[page] > 0 || 0 < last <= tmp.capacity
    ensures ReadLoop(f, arr, sizes, page, at, left, tmp) == Some(text[at..at + left])
    decreases |sizes| - page
  {
    hide PageText, Readable, ReadPart;
    CutsLength(f, arr, sizes, page, last, text);
    if left > 0 {
      SumSplit(sizes, page);
      var size := sizes[page];
      PartReads(f, arr, page, size, at, left, tmp);
      var p := ReadPart(f, arr, page, size, at, left, tmp).value;
      var bytes := Min(left, size - at);
      LoopReads(f, arr, sizes, page + 1, if size == 0 then last else size, text[size..], 0, left - bytes, p.tmp);
      if size == 0 {
        assert text[size..] == text && p.bytes == [] && left - bytes == left;
        assert p.bytes + text[0..left] == text[at..at + left];
      } else {
        assert PageText(f, arr, PageBlock(f, page)) == text[..size];
        NextSlice(text, size, at, bytes, left);
      }
      assert p.bytes + text[size..][..left - bytes] == text[at..at + left];
    } else {
      assert text[at..at + left] == [];
    }
  }

  lemma {:induction false} NextSlice(text: Bytes, size: nat, at: nat, bytes: nat, left: nat)
    requires size <= |text| && bytes <= left && at + bytes <= size && at + left <= |text|
    requires bytes == left || at + bytes == size
    ensures text[at..at + left] == text[..size][at..at + bytes] + text[size..][..left - bytes]
  {
  }

  /** One page further on. */
  lemma {:induction false} CutsNext(f: Extent, arr: seq<Block>, sizes: seq<nat>, page: nat, last: nat, text: Bytes)
    requires page < |sizes| && Cuts(f, arr, sizes, page, last, text) && Sum(sizes[page..]) > 0
    ensures sizes[page] <= |text|
    ensures Cuts(f, arr, sizes, page + 1, if sizes[page] == 0 then last else sizes[page], text[sizes[page]..])
  {
    hide PageText, Readable;
    assert sizes[page] == 0 ==> text[sizes[page]..] == text;
  }

  /** The page a read starts at, and what the text and the table are from there on. */
  lemma {:induction false} CutsAt(f: Extent, arr: seq<Block>, sizes: seq<nat>, page: nat, last: nat, text: Bytes,
                                  k: nat)
    returns (before: nat)
    requires page <= k < |sizes| && Cuts(f, arr, sizes, page, last, text) && sizes[k] > 0
    ensures Sum(sizes[..page]) <= Sum(sizes[..k]) <= Sum(sizes[..page]) + |text|
    ensures Cuts(f, arr, sizes, k, before, text[Sum(sizes[..k]) - Sum(sizes[..page])..])
    decreases k - page
  {
    hide Cuts, Sum;
    before := last;
    if page == k {
      assert text[0..] == text;
    } else {
      SumSplit(sizes, page);
      SumMonotone(sizes, page, k);
      CutsNext(f, arr, sizes, page, last, text);
      before := CutsAt(f, arr, sizes, page + 1, if sizes[page] == 0 then last else sizes[page], text[sizes[page]..], k);
      DropTwice(text, sizes[page], Sum(sizes[..k]) - Sum(sizes[..page + 1]));
    }
  }

  lemma {:induction false} DropTwice(text: Bytes, i: nat, j: nat)
    requires i + j <= |text|
    ensures text[i..][j..] == text[i + j..]
  {
  }

  lemma {:induction false} SumMonotone(sizes: seq<nat>, i: nat, j: nat)
    requires i <= j <= |sizes|
    ensures Sum(sizes[..i]) <= Sum(sizes[..j])
    ensures j < |sizes| ==> Sum(sizes[i..]) >= sizes[j]
  {
    assert sizes[..j] == sizes[..i] + sizes[i..j];
    SumAppend(sizes[..i], sizes[i..j]);
    if j < |sizes| {
      assert sizes[i..] == sizes[i..j] + sizes[j..];
      SumAppend(sizes[i..j], sizes[j..]);
      SumSplit(sizes, j);
    }
  }

  /** Where a read starts. */
  lemma {:induction false} StartsAt(sizes: seq<nat>, offset: nat) returns (page: nat)
    requires offset < Sum(sizes)
    ensures sizes[..0] == [] && page == FirstPage(sizes, 0, 0, offset) && page < |sizes|
    ensures Sum(sizes[..page]) <= offset < Sum(sizes[..page]) + sizes[page]
  {
    assert sizes[..0] == [];
    page := FirstPage(sizes, 0, 0, offset);
  }

  lemma {:induction false} NoWrap(text: Bytes, size: nat, offset: nat)
    requires offset < |text| && offset + size < SIZE32
    ensures var n := Clamped(size, offset, |text|);
      offset + n <= |text| && Slice(text, size, offset) == text[offset..offset + n]
  {
  }

  lemma {:induction false} ReadsIfCuts(f: Extent, arr: seq<Block>, sizes: seq<nat>, text: Bytes, size: nat, offset: nat)
    requires Cuts(f, arr, sizes, 0, 0, text) && offset + size < SIZE32
    ensures ReadBy(f, arr, sizes, size, offset) == Some(Slice(text, size, offset))
  {
    hide Cuts, ReadLoop, Sum, FirstPage, Clamped;
    CutsLength(f, arr, sizes, 0, 0, text);
    assert sizes[0..] == sizes;
    if offset < Sum(sizes) {
      var page := StartsAt(sizes, offset);
      NoWrap(text, size, offset);
      hide Slice;
      var before := CutsAt(f, arr, sizes, 0, 0, text, page);
      var to, n := Sum(sizes[..page]), Clamped(size, offset, |text|);
      SumNone();
      assert text[to - 0..] == text[to..];
      LoopReads(f, arr, sizes, page, before, text[to..], offset - to, n, NO_SCRATCH);
      SliceOfTail(text, to, offset - to, offset - to + n);
    }
  }

  lemma {:induction false} SumNone()
    ensures Sum([]) == 0
  {
  }

  // ---------------------------------------------------------------- the other direction

  lemma {:induction false} FirstPageIs(sizes: seq<nat>, page: nat, to: nat, offset: nat, k: nat)
    requires page <= k < |sizes| && to == Sum(sizes[..page]) && Sum(sizes[..k]) <= offset < Sum(sizes[..k]) + sizes[k]
    requires to <= offset
    ensures FirstPage(sizes, page, to, offset) == k
    decreases k - page
  {
    hide Sum;
    if page < k {
      SumSplit(sizes, page);
      SumMonotone(sizes, page + 1, k);
      FirstPageIs(sizes, page + 1, to + sizes[page], offset, k);
    }
  }

  /** Where a read can start: at page k, with its whole size ahead of it. */
  lemma {:induction false} ReadAt(f: Extent, arr: seq<Block>, sizes: seq<nat>, text: Bytes, k: nat, at: nat, n: nat)
    requires ReadsAs(f, arr, Some(sizes), text) && |text| == Sum(sizes) < SIZE32
    requires k < |sizes| && at < sizes[k] && Sum(sizes[..k]) + at + n <= Sum(sizes)
    ensures Sum(sizes[..k]) + at + n <= |text|
    ensures ReadLoop(f, arr, sizes, k, at, n, NO_SCRATCH) == Some(text[Sum(sizes[..k]) + at..Sum(sizes[..k]) + at + n])
  {
    hide ReadLoop;
    var offset := Sum(sizes[..k]) + at;
    SumSplit(sizes, k);
    assert sizes[..0] == [];
    FirstPageIs(sizes, 0, 0, offset, k);
    assert Outcome(f, arr, Some(sizes), n, offset) == Some(Slice(text, n, offset));
  }

  /** A page with a size: read from its start, it fills the buffer exactly and gives the text there. */
  lemma {:induction false} SizedPage(f: Extent, arr: seq<Block>, sizes: seq<nat>, text: Bytes, k: nat)
    requires ReadsAs(f, arr, Some(sizes), text) && |text| == Sum(sizes) < SIZE32
    requires k < |sizes| && sizes[k] > 0
    ensures Readable(f, arr, PageBlock(f, k)) && |PageText(f, arr, PageBlock(f, k))| == sizes[k]
    ensures Sum(sizes[..k]) <= |text| && PageText(f, arr, PageBlock(f, k)) <= text[Sum(sizes[..k])..]
  {
    hide PageText, Readable, ReadsAs;
    var n, to := sizes[k], Sum(sizes[..k]);
    SumSplit(sizes, k);
    ReadAt(f, arr, sizes, text, k, 0, n);
    hide FirstPage;
    var d := PageText(f, arr, PageBlock(f, k));
    var p := ReadPart(f, arr, k, n, 0, n, NO_SCRATCH).value;
    assert ReadLoop(f, arr, sizes, k + 1, 0, 0, p.tmp) == Some([]);
    assert p.bytes == text[to..to + n] == d[0..n];
    assert d == text[to..][..n];
  }

  /** A loop that succeeds has come by every page without a size that lies ahead, with the buffer it had. */
  lemma {:induction false} PassedPage(f: Extent, arr: seq<Block>, sizes: seq<nat>, page: nat, left: nat,
                                      tmp: Scratch, k: nat)
    requires page <= k < |sizes| && left > 0 && tmp.capacity > 0
    requires forall i :: page <= i <= k ==> sizes[i] == 0
    requires ReadLoop(f, arr, sizes, page, 0, left, tmp).Some?
    ensures Readable(f, arr, PageBlock(f, k)) && |PageText(f, arr, PageBlock(f, k))| <= tmp.capacity
    decreases k - page
  {
    hide PageText, Readable;
    var p := ReadPart(f, arr, page, 0, 0, left, tmp);
    if page < k {
      PassedPage(f, arr, sizes, page + 1, left, p.value.tmp, k);
    }
  }

  /** A page without a size between others: a read of the last byte before it and the first behind it passes it. */
  lemma {:induction false} EmptyPage(f: Extent, arr: seq<Block>, sizes: seq<nat>, text: Bytes, j: nat, k: nat)
    requires ReadsAs(f, arr, Some(sizes), text) && |text| == Sum(sizes) < SIZE32
    requires j < k < |sizes| && sizes[j] > 0 && (forall i :: j < i <= k ==> sizes[i] == 0) && Sum(sizes[k..]) > 0
    ensures Readable(f, arr, PageBlock(f, k)) && |PageText(f, arr, PageBlock(f, k))| <= sizes[j]
  {
    hide PageText, Readable, ReadsAs, ReadPart, FirstPage;
    SumSplit(sizes, j);
    SumSplit(sizes, k);
    SumMonotone(sizes, j + 1, k);
    ReadAt(f, arr, sizes, text, j, sizes[j] - 1, 2);
    var p := ReadPart(f, arr, j, sizes[j], sizes[j] - 1, 2, NO_SCRATCH);
    PartGrows(f, arr, j, sizes[j], sizes[j] - 1, 2);
    PassedPage(f, arr, sizes, j + 1, 1, p.value.tmp, k);
  }

  lemma {:induction false} PartGrows(f: Extent, arr: seq<Block>, page: nat, size: nat, at: nat, left: nat)
    requires at <= size
    ensures var p := ReadPart(f, arr, page, size, at, left, NO_SCRATCH);
      p.Some? ==> p.value.tmp.capacity == size && |p.value.bytes| == Min(left, size - at)
  {
    hide PageText, Readable;
  }

  /** The last page with a size before page k, if there is one. */
  predicate LastSized(sizes: seq<nat>, k: nat, j: int) {
    k <= |sizes| && -1 <= j < k && (j >= 0 ==> sizes[j] > 0) && forall i :: j < i < k ==> sizes[i] == 0
  }

  lemma {:induction false} CutsIfReads(f: Extent, arr: seq<Block>, sizes: seq<nat>, text: Bytes, k: nat, j: int)
    requires ReadsAs(f, arr, Some(sizes), text) && |text| == Sum(sizes) < SIZE32 && LastSized(sizes, k, j)
    ensures Sum(sizes[..k]) <= |text|
    ensures Cuts(f, arr, sizes, k, if j < 0 then 0 else sizes[j], text[Sum(sizes[..k])..])
    decreases |sizes| - k
  {
    hide PageText, Readable, ReadsAs, ReadBy;
    assert sizes[..|sizes|] == sizes && sizes[|sizes|..] == [];
    if k < |sizes| {
      SumSplit(sizes, k);
      var to := Sum(sizes[..k]);
      CutsIfReads(f, arr, sizes, text, k + 1, if sizes[k] > 0 then k else j);
      if sizes[k] > 0 {
        SizedPage(f, arr, sizes, text, k);
        assert text[to..][sizes[k]..] == text[to + sizes[k]..];
      } else if j >= 0 && Sum(sizes[k..]) > 0 {
        EmptyPage(f, arr, sizes, text, j, k);
      }
    }
  }

  /** Reads of one text are as long as the table says. */
  lemma {:induction false} LengthIfReads(f: Extent, arr: seq<Block>, sizes: seq<nat>, text: Bytes)
    requires ReadsAs(f, arr, Some(sizes), text) && |text| + 1 < SIZE32
    ensures Sum(sizes) == |text|
  {
    hide ReadLoop, ReadPart;
    assert Outcome(f, arr, Some(sizes), |text|, 0) == Some(Slice(text, |text|, 0));
    assert Outcome(f, arr, Some(sizes), 1, |text|) == Some(Slice(text, 1, |text|));
  }

  /** Reads by way of a table give a text exactly if the table cuts the text as the pages are. */
  lemma {:induction false} ReadsExactly(f: Extent, arr: seq<Block>, sizes: seq<nat>, text: Bytes)
    requires |text| + 1 < SIZE32
    ensures ReadsAs(f, arr, Some(sizes), text) <==> Cuts(f, arr, sizes, 0, 0, text)
  {
    hide Cuts, ReadBy;
    assert sizes[..0] == [] && text[0..] == text;
    if ReadsAs(f, arr, Some(sizes), text) {
      LengthIfReads(f, arr, sizes, text);
      CutsIfReads(f, arr, sizes, text, 0, -1);
    }
    if Cuts(f, arr, sizes, 0, 0, text) {
      forall size: nat, offset: nat | offset + size < SIZE32
        ensures Outcome(f, arr, Some(sizes), size, offset) == Some(Slice(text, size, offset))
      {
        ReadsIfCuts(f, arr, sizes, text, size, offset);
      }
    }
  }

  // ---------------------------------------------------------------- a table made from the blocks as they are

  /** The file's own table cuts the file's text. */
  lemma {:induction false} OwnTableCuts(f: Extent, arr: seq<Block>, page: nat, last: nat)
    requires HasText(f, arr) && page <= |Table(f, arr)|
    ensures Cuts(f, arr, Table(f, arr), page, last, TextFrom(f, arr, PageBlock(f, page)))
    decreases |Table(f, arr)| - page
  {
    hide PageText, Cuts;
    var sizes, block := Table(f, arr), PageBlock(f, page);
    PageSizeAt(f, arr, f.firstBlock + 2, page);
    PageSizesFrom(f, arr, f.firstBlock + 2, page);
    SumPages(f, arr, block);
    if page < |sizes| {
      var size := sizes[page];
      OwnTableCuts(f, arr, page + 1, if size == 0 then last else size);
      OneMorePage(f, arr, sizes, page, last, PageText(f, arr, block), TextFrom(f, arr, block + 2));
    } else {
      NoMorePages(f, arr, sizes, last);
    }
  }

  lemma {:induction false} OneMorePage(f: Extent, arr: seq<Block>, sizes: seq<nat>, page: nat, last: nat,
                                       text: Bytes, rest: Bytes)
    requires page < |sizes| && Readable(f, arr, PageBlock(f, page)) && text == PageText(f, arr, PageBlock(f, page))
    requires |text| == sizes[page] && Sum(sizes[page..]) == |text + rest|
    requires Cuts(f, arr, sizes, page + 1, if sizes[page] == 0 then last else sizes[page], rest)
    ensures Cuts(f, arr, sizes, page, last, text + rest)
  {
    hide PageText, Readable;
    assert (text + rest)[sizes[page]..] == rest && (sizes[page] == 0 ==> text + rest == rest);
  }

  lemma {:induction false} NoMorePages(f: Extent, arr: seq<Block>, sizes: seq<nat>, last: nat)
    ensures Cuts(f, arr, sizes, |sizes|, last, [])
  {
  }

  lemma {:induction false} PageSizeAt(f: Extent, arr: seq<Block>, block: nat, k: nat)
    requires f.lastBlock <= block || OnDisk(f, arr)
    ensures k < |PageSizes(f, arr, block)| <==> block + 2 * k < f.lastBlock
    ensures block + 2 * k < f.lastBlock ==> PageSizes(f, arr, block)[k] == |PageText(f, arr, block + 2 * k)|
    decreases k
  {
    hide PageText;
    if block < f.lastBlock && k > 0 {
      PageSizeAt(f, arr, block + 2, k - 1);
    }
  }

  lemma {:induction false} PageSizesFrom(f: Extent, arr: seq<Block>, block: nat, k: nat)
    requires (f.lastBlock <= block || OnDisk(f, arr)) && k <= |PageSizes(f, arr, block)|
    ensures PageSizes(f, arr, block)[k..] == PageSizes(f, arr, block + 2 * k)
    decreases k
  {
    hide PageText;
    if k > 0 {
      PageSizesFrom(f, arr, block + 2, k - 1);
      assert PageSizes(f, arr, block)[k..] == PageSizes(f, arr, block + 2)[k - 1..];
    }
  }

  /** Reads by way of a table made of the blocks as they are give the file's text, if its pages can be read at all. */
  lemma {:induction false} OwnReads(f: Extent, arr: seq<Block>, size: nat, offset: nat)
    requires HasText(f, arr) && offset + size < SIZE32
    ensures Outcome(f, arr, None, size, offset) == Some(Slice(Text(f, arr), size, offset))
    ensures Outcome(f, arr, Some(Table(f, arr)), size, offset) == Some(Slice(Text(f, arr), size, offset))
  {
    hide Cuts, ReadBy;
    OwnTableCuts(f, arr, 0, 0);
    ReadsIfCuts(f, arr, Table(f, arr), Text(f, arr), size, offset);
  }

  /** Without a table reads give a text exactly if all pages can be read and it is theirs. */
  lemma {:induction false} FreshReadsExactly(f: Extent, arr: seq<Block>, text: Bytes)
    requires |text| + 1 < SIZE32
    ensures ReadsAs(f, arr, None, text) <==> HasText(f, arr) && text == Text(f, arr)
  {
    hide Text, ReadBy, OnDisk;
    assert Outcome(f, arr, None, 0, 0) == Some(Slice(text, 0, 0)) ==> HasText(f, arr);
    if HasText(f, arr) {
      forall size: nat, offset: nat | offset + size < SIZE32
        ensures Outcome(f, arr, None, size, offset) == Some(Slice(Text(f, arr), size, offset))
      {
        OwnReads(f, arr, size, offset);
      }
      if ReadsAs(f, arr, None, text) {
        var t := Text(f, arr);
        assert Slice(text, |text|, 0) == Slice(t, |text|, 0) by {
          assert Outcome(f, arr, None, |text|, 0) == Some(Slice(text, |text|, 0));
        }
        assert Slice(text, 1, |text|) == Slice(t, 1, |text|) by {
          assert Outcome(f, arr, None, 1, |text|) == Some(Slice(text, 1, |text|));
        }
      }
    }
  }

  /** 16-bit block numbers keep the size of a text below 2^32: no byte of a page decodes to more than 112 on average. */
  lemma {:induction false} DecodedSize(s: Bytes, dle: bool)
    ensures |Decode(s, dle)| <= 112 * |s| + (if dle then 111 else 0)
  {
    if s != [] {
      DecodedSize(s[1..], if s[0] == 0 then dle else !dle && s[0] == DLE);
    }
  }

  lemma {:induction false} TextSize(f: Extent, arr: seq<Block>, block: nat)
    requires f.lastBlock <= block || OnDisk(f, arr)
    ensures |TextFrom(f, arr, block)| <= (if block >= f.lastBlock then 0 else 112 * 512 * (f.lastBlock - block))
    decreases f.lastBlock - block
  {
    if block < f.lastBlock {
      DecodedSize(PageBytes(f, arr, block), false);
      TextSize(f, arr, block + 2);
    }
  }

  /** A loop that succeeds had that much ahead of it. */
  lemma {:induction false} LoopLimit(f: Extent, arr: seq<Block>, sizes: seq<nat>, page: nat, at: nat, left: nat,
                                     tmp: Scratch)
    requires page < |sizes| ==> at <= sizes[page]
    requires ReadLoop(f, arr, sizes, page, at, left, tmp).Some?
    ensures left == 0 || at + left <= (if page < |sizes| then Sum(sizes[page..]) else 0)
    decreases |sizes| - page
  {
    hide PageText, Readable, Decoded, Sum;
    if left > 0 && page < |sizes| {
      SumSplit(sizes, page);
      SumNone();
      assert sizes[|sizes|..] == [];
      var p := ReadPart(f, arr, page, sizes[page], at, left, tmp).value;
      LoopLimit(f, arr, sizes, page + 1, 0, left - |p.bytes|, p.tmp);
    }
  }

  /** A read whose arguments wrap is not cut down and leaves the table, exactly if it starts inside the file. */
  lemma {:induction false} WrapExactly(f: Extent, arr: seq<Block>, sizes: seq<nat>, size: nat, offset: nat)
    requires size < SIZE32 && offset < SIZE32 <= offset + size && Sum(sizes) < SIZE32
    ensures ReadBy(f, arr, sizes, size, offset).None? <==> offset < Sum(sizes)
  {
    hide ReadLoop, Sum;
    if offset < Sum(sizes) && ReadBy(f, arr, sizes, size, offset).Some? {
      var page := StartsAt(sizes, offset);
      SumSplit(sizes, page);
      LoopLimit(f, arr, sizes, page, offset - Sum(sizes[..page]), size, NO_SCRATCH);
    }
  }
}
