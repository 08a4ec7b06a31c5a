/** The text side of a file entry: its page table, reading by way of it, and writing a text into its blocks. */
module PascalTextEntry {
  import opened Blocks
  import opened CacheRefinement
  import opened BlockCache
  import opened PascalVolumeSpec
  import opened PascalDirectory
  import opened PascalEntries
  import opened PascalBlocks
  import opened PascalText
  import opened PascalTextFile
  import opened PascalTextWriter

  const TEXT_FILE := 3

  function ExtentOf(f: File): Extent {
    Extent(f.firstBlock, f.lastBlock, f.lastByte)
  }

  // ---------------------------------------------------------------- writing, as values

  /** The first n blocks of the writer put at first. */
  function StoredTo(w: Pages, arr: seq<Block>, first: nat, n: nat): (r: seq<Block>)
    requires Sized(w) && n <= BlockCount(w) && first + n <= |arr|
    ensures |r| == |arr|
  {
    if n == 0 then arr
    else
      DataThere(w, n - 1);
      StoredTo(w, arr, first, n - 1)[first + n - 1 := Data(w, n - 1).value]
  }

  lemma {:induction false} StoredToAt(w: Pages, arr: seq<Block>, first: nat, n: nat, b: nat)
    requires Sized(w) && n <= BlockCount(w) && first + n <= |arr| && b < |arr|
    ensures if first <= b < first + n then Some(StoredTo(w, arr, first, n)[b]) == Data(w, b - first)
      else StoredTo(w, arr, first, n)[b] == arr[b]
  {
    if n > 0 {
      DataThere(w, n - 1);
      StoredToAt(w, arr, first, n - 1, b);
    }
  }

  /** write(TextWriter): what it answers. */
  function WriteAnswer(f: File, readOnly: bool, w: Pages): Result<nat> {
    if readOnly then Err(EROFS)
    else if f.fileKind != TEXT_FILE then Err(EINVAL)
    else if BlockCount(w) * 512 > f.maxFileSize then Err(ENOSPC)
    else Ok(BlockCount(w) * 512)
  }

  /** The entry afterwards. */
  function WrittenFile(f: File, w: Pages, today: nat): File {
    var e := SetFileSize(ExtentOf(f), BlockCount(w) * 512);
    f.(lastBlock := e.lastBlock, lastByte := e.lastByte, modification := today)
  }

  /** The file's limit lies on the device, and so does its directory entry. */
  predicate FileOnDisk(f: File, arr: seq<Block>) {
    && 0 < f.firstBlock && f.firstBlock * 512 + f.maxFileSize <= |arr| * 512 && |f.name| <= 15
    && DIRECTORY <= f.address && (f.address + ENTRY - 1) / BLOCK_SIZE < |arr|
  }

  /** The blocks afterwards: the text, and the entry in the directory. */
  function WrittenDisk(f: File, w: Pages, today: nat, arr: seq<Block>): (r: seq<Block>)
    requires Sized(w) && FileOnDisk(f, arr) && BlockCount(w) * 512 <= f.maxFileSize
    ensures |r| == |arr|
  {
    WriteEntry(StoredTo(w, arr, f.firstBlock, BlockCount(w)), f.address, FileBytes(WrittenFile(f, w, today)))
  }

  /** The directory comes before the file. */
  predicate BehindDirectory(f: File) {
    (f.address + ENTRY - 1) / BLOCK_SIZE < f.firstBlock
  }

  /** Afterwards the file's blocks are the writer's, and nothing behind them has changed. */
  lemma {:induction false} WrittenDiskStored(f: File, w: Pages, today: nat, arr: seq<Block>)
    requires Sized(w) && FileOnDisk(f, arr) && BehindDirectory(f) && BlockCount(w) * 512 <= f.maxFileSize
    ensures var r := WrittenDisk(f, w, today, arr);
      && Stored(w, ExtentOf(f), r)
      && forall b :: f.firstBlock + BlockCount(w) <= b < |arr| ==> r[b] == arr[b]
  {
    hide Data, BlockCount, FileBytes, WriteEntry, StoredTo;
    var text := StoredTo(w, arr, f.firstBlock, BlockCount(w));
    EntryInFront(text, f.address, FileBytes(WrittenFile(f, w, today)), f.firstBlock);
    var r := WrittenDisk(f, w, today, arr);
    forall i: nat | i < BlockCount(w) ensures Some(r[f.firstBlock + i]) == Data(w, i) {
      StoredToAt(w, arr, f.firstBlock, BlockCount(w), f.firstBlock + i);
    }
    forall b | f.firstBlock + BlockCount(w) <= b < |arr| ensures r[b] == arr[b] {
      StoredToAt(w, arr, f.firstBlock, BlockCount(w), b);
    }
  }

  lemma {:induction false} EntryInFront(arr: seq<Block>, address: nat, b: seq<byte>, first: nat)
    requires DIRECTORY <= address && |b| == ENTRY && (address + ENTRY - 1) / BLOCK_SIZE < first <= |arr|
    ensures forall i :: first <= i < |arr| ==> WriteEntry(arr, address, b)[i] == arr[i]
  {
    hide WriteEntry;
    EntryWritten(arr, first - DIR_BLOCK, address - DIRECTORY, b);
  }

  /**
   The whole of write(TextWriter) followed by reads. A read gives its part of the lines if and only if: with no page
   table yet, the block behind the text is on the device and decodes to nothing; with a table kept from before the
   write, that table cuts the new text as the new pages are.
   */
  lemma {:induction false} WriteThenRead(f: File, w: Pages, lines: seq<Bytes>, today: nat, arr: seq<Block>,
                                         kept: Option<seq<nat>>)
    requires WriterOk(w, lines) && FileOnDisk(f, arr) && BehindDirectory(f) && BlockCount(w) * 512 <= f.maxFileSize
    requires BlockCount(w) <= 0x1_0000
    ensures var e, r := ExtentOf(WrittenFile(f, w, today)), WrittenDisk(f, w, today, arr);
      var behind := f.firstBlock + BlockCount(w);
      ReadsAs(e, r, kept, ReadBack(lines)) <==>
        if kept.None? then behind < |arr| && Decode(arr[behind], false) == []
        else Cuts(e, r, kept.value, 0, 0, ReadBack(lines))
  {
    hide BlockCount, ReadBack, ReadsAs, Cuts, Stored, WrittenDisk, FileOnDisk, Decode;
    assert Sized(w);
    WrittenDiskStored(f, w, today, arr);
    WrittenReads(w, lines, ExtentOf(f), WrittenDisk(f, w, today, arr), kept);
    EndOfWritten(w, ExtentOf(f), WrittenDisk(f, w, today, arr));
  }

  // ---------------------------------------------------------------- the object

  predicate ScratchThere(tmp: array?<byte>, filled: nat) {
    if tmp == null then filled == 0 else 0 < tmp.Length && filled <= tmp.Length
  }

  /** The scratch buffer of a read; the source does not know how much of it has been filled. */
  function ScratchOf(tmp: array?<byte>, filled: nat): Scratch
    requires ScratchThere(tmp, filled)
    reads tmp
  {
    if tmp == null then NO_SCRATCH else Scratch(tmp.Length, tmp[..filled])
  }

  /** done, followed by what is still to come. */
  function Before(done: Bytes, rest: Option<Bytes>): Option<Bytes> {
    if rest.None? then None else Some(done + rest.value)
  }

  lemma {:induction false} BeforeBefore(done: Bytes, bytes: Bytes, rest: Option<Bytes>)
    ensures Before(done, Before(bytes, rest)) == Before(done + bytes, rest)
  {
    if rest.Some? {
      assert done + (bytes + rest.value) == done + bytes + rest.value;
    }
  }

  lemma {:induction false} BeforeNothing(rest: Option<Bytes>)
    ensures Before([], rest) == rest
  {
    if rest.Some? {
      assert [] + rest.value == rest.value;
    }
  }

  class TextFile {
    const cache: ConcreteBlockCache
    const entry: FileEntry
    var pageSize: Option<seq<nat>>
    var textSize: nat

    ghost function F(): Extent
      reads entry
    {
      Extent(entry.firstBlock, entry.lastBlock, entry.lastByte)
    }

    ghost predicate SizeKnown()
      reads this
    {
      pageSize.Some? ==> textSize == Sum(pageSize.value)
    }

    constructor (cache: ConcreteBlockCache, entry: FileEntry)
      ensures this.cache == cache && this.entry == entry && pageSize == None && SizeKnown()
    {
      this.cache, this.entry := cache, entry;
      pageSize, textSize := None, 0;
    }

    /** textReadPage: fills the buffer and tells how many of its bytes count; not ok off the device or the buffer. */
    method ReadPage(block: nat, buffer: array<byte>, ghost a: Plain) returns (ok: bool, bytes: nat)
      requires CacheIs(cache, a) && 0 < block && buffer.Length == PAGE
      modifies buffer, cache, cache.hashTable, cache.device, cache.entries
      ensures ok <==> Readable(F(), a.arr, block)
      ensures ok ==> CacheIs(cache, a) && fresh(cache.entries - old(cache.entries))
      ensures ok ==> bytes <= PAGE && buffer[..bytes] == PageBytes(F(), a.arr, block)
    {
      hide CacheIs, PageBytes, Readable;
      DeviceSize(cache, a);
      var blocks := |cache.device.blocks|;
      NotReadable(F(), a.arr, block);
      if block >= blocks {
        return false, 0;
      }
      var first := ReadBlock(cache, block, a);
      PutBlock(buffer, 0, first);
      if block + 1 == entry.lastBlock {
        ShortPage(F(), a.arr, block, buffer[..]);
        return entry.lastByte <= BLOCK_SIZE, entry.lastByte;
      }
      if block + 1 >= blocks {
        return false, 0;
      }
      var second := ReadBlock(cache, block + 1, a);
      PutBlock(buffer, BLOCK_SIZE, second);
      LongPage(F(), a.arr, block, buffer[..]);
      if block + 2 == entry.lastBlock {
        return entry.lastByte <= BLOCK_SIZE, BLOCK_SIZE + entry.lastByte;
      }
      ok, bytes := true, PAGE;
    }

    static method PutBlock(buffer: array<byte>, at: nat, data: Block)
      requires buffer.Length == PAGE && (at == 0 || at == BLOCK_SIZE)
      modifies buffer
      ensures buffer[..at] == old(buffer[..at]) && buffer[at..at + BLOCK_SIZE] == data
    {
      forall i | 0 <= i < BLOCK_SIZE {
        buffer[at + i] := data[i];
      }
    }

    /** textDecodePage: counts the decoded bytes, and stores them when there is somewhere to put them. */
    method DecodePage(block: nat, out: array?<byte>, ghost a: Plain) returns (ok: bool, size: nat)
      requires CacheIs(cache, a) && 0 < block
      modifies out, cache, cache.hashTable, cache.device, cache.entries
      ensures ok <==> Readable(F(), a.arr, block) && (out != null ==> |PageText(F(), a.arr, block)| <= out.Length)
      ensures ok ==> CacheIs(cache, a) && fresh(cache.entries - old(cache.entries))
      ensures ok ==> size == |PageText(F(), a.arr, block)|
      ensures ok && out != null ==> out[..] == PageText(F(), a.arr, block) + old(out[..])[size..]
    {
      hide CacheIs, PageBytes, Readable;
      var buffer := new byte[PAGE](_ => 0);
      var bytes;
      size := 0;
      ok, bytes := ReadPage(block, buffer, a);
      if ok {
        ok, size := DecodeBytes(buffer[..bytes], out);
      }
    }

    /** The decoding loop over the bytes of a page; not ok as soon as it would write past its output. */
    static method DecodeBytes(page: Bytes, out: array?<byte>) returns (ok: bool, size: nat)
      modifies out
      ensures ok <==> out == null || |Decode(page, false)| <= out.Length
      ensures ok ==> size == |Decode(page, false)|
      ensures ok && out != null ==> out[..] == Decode(page, false) + old(out[..])[size..]
    {
      hide Decode, Pending;
      ok, size := true, 0;
      var dle := false;
      DecodeEmpty(false);
      assert page[..0] == [];
      for i := 0 to |page|
        invariant size == |Decode(page[..i], false)| && dle == Pending(page[..i], false)
        invariant out != null ==> size <= out.Length && out[..size] == Decode(page[..i], false)
        invariant out != null ==> out[size..] == old(out[..])[size..]
      {
        var c := page[i];
        DecodeNext(page, i, dle);
        if c == 0 {
        } else if dle {
          var x := if c > 32 then c - 32 else 0;
          if out != null {
            if size + x > out.Length {
              return false, size;
            }
            PutSpaces(out, size, x);
          }
          size := size + x;
          dle := false;
        } else if c == DLE {
          dle := true;
        } else {
          if out != null {
            if size + 1 > out.Length {
              return false, size;
            }
            PutByte(out, size, Unix(c));
          }
          size := size + 1;
        }
      }
      assert page[..|page|] == page;
    }

    static method PutSpaces(out: array<byte>, size: nat, x: nat)
      requires size + x <= out.Length
      modifies out
      ensures out[..size + x] == old(out[..size]) + Spaces(x) && out[size + x..] == old(out[..])[size + x..]
    {
      forall j | 0 <= j < x {
        out[size + j] := SPACE;
      }
    }

    static method PutByte(out: array<byte>, size: nat, c: byte)
      requires size + 1 <= out.Length
      modifies out
      ensures out[..size + 1] == old(out[..size]) + [c] && out[size + 1..] == old(out[..])[size + 1..]
    {
      out[size] := c;
    }

    /** textInit: the sizes of all pages, and their sum. */
    method TextInit(ghost a: Plain) returns (ok: bool)
      requires CacheIs(cache, a)
      modifies `pageSize, `textSize, cache, cache.hashTable, cache.device, cache.entries
      ensures ok <==> HasText(F(), a.arr)
      ensures ok ==> CacheIs(cache, a) && fresh(cache.entries - old(cache.entries))
      ensures ok ==> pageSize == Some(Table(F(), a.arr)) && SizeKnown()
    {
      hide CacheIs, PageText;
      ghost var all, f := cache.entries, F();
      var sizes: seq<nat> := [];
      textSize := 0;
      var block := entry.firstBlock + 2;
      while block < entry.lastBlock
        invariant CacheIs(cache, a) && fresh(cache.entries - all) && block >= entry.firstBlock + 2
        invariant block >= f.lastBlock ==> HasText(f, a.arr)
        invariant HasText(f, a.arr) ==> sizes + PageSizes(f, a.arr, block) == Table(f, a.arr)
        invariant textSize == Sum(sizes)
      {
        var size;
        ok, size := DecodePage(block, null, a);
        if !ok {
          return;
        }
        SumAppend(sizes, [size]);
        assert [size][1..] == [];
        if HasText(f, a.arr) {
          OnePageMore(f, a.arr, block, sizes);
        }
        textSize := textSize + size;
        sizes := sizes + [size];
        block := block + 2;
      }
      ok := true;
      pageSize := Some(sizes);
      assert sizes + [] == sizes;
    }

    /** The page that holds offset, by adding up page sizes; to is where it starts. */
    static method FindPage(sizes: seq<nat>, offset: nat) returns (page: nat, to: nat)
      ensures sizes[..0] == [] && page == FirstPage(sizes, 0, 0, offset) && to == Sum(sizes[..page])
    {
      assert sizes[..0] == [];
      SumNone();
      hide Sum;
      page, to := 0, 0;
      while page < |sizes|
        invariant page <= |sizes| && to == Sum(sizes[..page]) <= offset
        invariant FirstPage(sizes, 0, 0, offset) == FirstPage(sizes, page, to, offset)
      {
        if to + sizes[page] > offset {
          return;
        }
        SumSplit(sizes, page);
        to := to + sizes[page];
        page := page + 1;
      }
    }

    /** memcpy of a part of the decoded page; there is no page buffer yet if there is nothing to copy. */
    static method CopyPart(buffer: array<byte>, count: nat, tmp: array?<byte>, filled: nat, at: nat, bytes: nat)
      requires ScratchThere(tmp, filled) && count + bytes <= buffer.Length && tmp != buffer && at + bytes <= filled
      modifies buffer
      ensures buffer[..count + bytes] == old(buffer[..count]) + ScratchOf(tmp, filled).filled[at..at + bytes]
      ensures ScratchOf(tmp, filled) == old(ScratchOf(tmp, filled))
    {
      if bytes > 0 {
        forall i | 0 <= i < bytes {
          buffer[count + i] := tmp[at + i];
        }
        SliceOfFront(tmp[..], filled, at, at + bytes);
        assert tmp[..][..filled] == tmp[..filled] && buffer[..count + bytes] == buffer[..count] + tmp[at..at + bytes];
      }
    }

    /** A longer scratch buffer, if the page needs one. */
    static method Grow(tmp: array?<byte>, filled: nat, size: nat) returns (tmp': array?<byte>, filled': nat)
      requires ScratchThere(tmp, filled)
      ensures ScratchThere(tmp', filled') && (tmp' == tmp || fresh(tmp'))
      ensures ScratchOf(tmp', filled') == Grown(ScratchOf(tmp, filled), size)
    {
      tmp', filled' := tmp, filled;
      if size > (if tmp == null then 0 else tmp.Length) {
        tmp', filled' := new byte[size](_ => 0), 0;
      }
    }

    /** A page decoded into the scratch buffer. */
    method DecodeInto(page: nat, tmp: array?<byte>, filled: nat, ghost a: Plain) returns (ok: bool, filled': nat)
      requires CacheIs(cache, a) && ScratchThere(tmp, filled)
      modifies tmp, cache, cache.hashTable, cache.device, cache.entries
      ensures ok ==> CacheIs(cache, a) && fresh(cache.entries - old(cache.entries)) && ScratchThere(tmp, filled')
      ensures ok <==>
        && Readable(F(), a.arr, PageBlock(F(), page))
        && Decoded(old(ScratchOf(tmp, filled)), PageText(F(), a.arr, PageBlock(F(), page))).Some?
      ensures ok ==>
        var text := PageText(F(), a.arr, PageBlock(F(), page));
        Decoded(old(ScratchOf(tmp, filled)), text) == Some(ScratchOf(tmp, filled'))
    {
      hide CacheIs, PageText, Readable;
      ghost var was := if tmp == null then [] else tmp[..];
      filled' := filled;
      var n;
      ok, n := DecodePage(entry.firstBlock + 2 + 2 * page, tmp, a);
      if ok && tmp != null {
        FrontOf(was, filled, tmp[..], PageText(F(), a.arr, PageBlock(F(), page)));
        filled' := Max(filled, n);
      }
    }

    /** One page of the loop: a longer scratch buffer if need be, the page decoded into it, and a part of it copied. */
    method ReadOne(buffer: array<byte>, count: nat, page: nat, size: nat, at: nat, left: nat,
                   tmp: array?<byte>, filled: nat, ghost a: Plain)
      returns (ok: bool, bytes: nat, tmp': array?<byte>, filled': nat)
      requires CacheIs(cache, a) && at <= size && count + left <= buffer.Length && tmp != buffer
      requires ScratchThere(tmp, filled)
      modifies buffer, tmp, cache, cache.hashTable, cache.device, cache.entries
      ensures ok ==> CacheIs(cache, a) && fresh(cache.entries - old(cache.entries))
      ensures ok ==> bytes == Min(left, size - at) && (tmp' == tmp || fresh(tmp')) && tmp' != buffer
      ensures ok ==> ScratchThere(tmp', filled')
      ensures ok <==> ReadPart(F(), a.arr, page, size, at, left, old(ScratchOf(tmp, filled))).Some?
      ensures ok ==> var p := ReadPart(F(), a.arr, page, size, at, left, old(ScratchOf(tmp, filled))).value;
        && ScratchOf(tmp', filled') == p.tmp && |p.bytes| == bytes
        && buffer[..count + bytes] == old(buffer[..count]) + p.bytes
    {
      hide CacheIs, PageText, Readable, Decoded, Grown;
      bytes := Min(left, size - at);
      tmp', filled' := Grow(tmp, filled, size);
      ok, filled' := DecodeInto(page, tmp', filled', a);
      if !ok {
        return;
      }
      if at + bytes > filled' {
        return false, bytes, tmp', filled';
      }
      CopyPart(buffer, count, tmp', filled', at, bytes);
    }

    /** The loop of textRead, from byte at of a page on. */
    method ReadFrom(buffer: array<byte>, sizes: seq<nat>, first: nat, start: nat, size: nat, ghost a: Plain)
      returns (ok: bool, count: nat)
      requires CacheIs(cache, a) && size <= buffer.Length
      requires first <= |sizes| && (first < |sizes| ==> start <= sizes[first])
      modifies buffer, cache, cache.hashTable, cache.device, cache.entries
      ensures ok <==> ReadLoop(F(), a.arr, sizes, first, start, size, NO_SCRATCH).Some?
      ensures ok ==> CacheIs(cache, a) && fresh(cache.entries - old(cache.entries))
      ensures ok ==>
        count == size && ReadLoop(F(), a.arr, sizes, first, start, size, NO_SCRATCH) == Some(buffer[..count])
    {
      hide CacheIs, ReadPart;
      ghost var all, f := cache.entries, F();
      var page, at, left := first, start, size;
      var tmp: array?<byte>, filled: nat := null, 0;
      count := 0;
      ghost var want := ReadLoop(f, a.arr, sizes, page, at, size, NO_SCRATCH);
      BeforeNothing(want);
      assert buffer[..0] == [];
      while left > 0
        invariant CacheIs(cache, a) && fresh(cache.entries - all) && count + left == size
        invariant page <= |sizes| && (page < |sizes| ==> at <= sizes[page])
        invariant ScratchThere(tmp, filled) && tmp != buffer && (tmp == null || fresh(tmp))
        invariant want == Before(buffer[..count], ReadLoop(f, a.arr, sizes, page, at, left, ScratchOf(tmp, filled)))
        decreases |sizes| - page
      {
        if page >= |sizes| {
          return false, count;
        }
        NextPart(f, a.arr, sizes, page, at, left, ScratchOf(tmp, filled), buffer[..count]);
        var bytes;
        ok, bytes, tmp, filled := ReadOne(buffer, count, page, sizes[page], at, left, tmp, filled, a);
        if !ok {
          return;
        }
        page, count, left, at := page + 1, count + bytes, left - bytes, 0;
      }
      ok := true;
      assert buffer[..count] + [] == buffer[..count];
    }

    /** textRead: the bytes from offset on, decoded page by page. */
    method TextRead(buffer: array<byte>, size: nat, offset: nat, ghost a: Plain) returns (ok: bool, count: nat)
      requires CacheIs(cache, a) && SizeKnown() && size <= buffer.Length
      modifies buffer, `pageSize, `textSize, cache, cache.hashTable, cache.device, cache.entries
      ensures var table := TableFor(F(), a.arr, old(pageSize));
        && (ok <==> table.Some? && ReadPages(F(), a.arr, table.value, size, offset).Some?)
        && (ok ==> CacheIs(cache, a) && fresh(cache.entries - old(cache.entries)) && pageSize == table && SizeKnown())
        && (ok ==> count == size && ReadPages(F(), a.arr, table.value, size, offset) == Some(buffer[..count]))
    {
      hide CacheIs, HasText, Table, ReadLoop, Sum;
      count := 0;
      if pageSize.None? {
        ok := TextInit(a);
        if !ok {
          return;
        }
      }
      var page: nat, to: nat := FindPage(pageSize.value, offset);
      ok, count := ReadFrom(buffer, pageSize.value, page, offset - to, size, a);
    }

    /** read on a text file: cut down to what there is, nothing at or past the end. */
    method Read(buffer: array<byte>, size: nat, offset: nat, ghost a: Plain) returns (ok: bool, count: nat)
      requires CacheIs(cache, a) && SizeKnown() && size <= buffer.Length && size < SIZE32 && offset < SIZE32
      modifies buffer, `pageSize, `textSize, cache, cache.hashTable, cache.device, cache.entries
      ensures var want := Outcome(F(), a.arr, old(pageSize), size, offset);
        && (ok <==> want.Some?)
        && (ok ==> count <= size && want == Some(buffer[..count]))
        && (ok ==> CacheIs(cache, a) && fresh(cache.entries - old(cache.entries)))
        && (ok ==> pageSize == TableFor(F(), a.arr, old(pageSize)) && SizeKnown())
    {
      hide CacheIs, ReadPages, HasText, Table, Sum;
      count := 0;
      if pageSize.None? {
        ok := TextInit(a);
        if !ok {
          return;
        }
      }
      if offset >= textSize {
        assert buffer[..0] == [];
        return true, 0;
      }
      ClampedFits(size, offset, textSize);
      var rest: nat := if (offset + size) % SIZE32 > textSize then textSize - offset else size;
      ok, count := TextRead(buffer, rest, offset, a);
    }

    /** write(TextWriter): the blocks, the new extent and date, and the entry; the page table stays as it is. */
    method Write(text: TextWriter, readOnly: bool, today: nat, ghost w: Pages, ghost f: File, ghost a: Plain)
      returns (r: Result<nat>)
      requires text.Holds(w) && Sized(w) && CacheIs(cache, a) && entry.Is(f) && FileOnDisk(f, a.arr)
      modifies entry`lastBlock, entry`lastByte, entry`modification
      modifies cache, cache.hashTable, cache.device, cache.entries
      ensures r == WriteAnswer(f, readOnly, w)
      ensures r.Err? ==> CacheIs(cache, a) && entry.Is(f)
      ensures r.Ok? ==>
        && CacheIs(cache, a.(arr := WrittenDisk(f, w, today, a.arr))) && fresh(cache.entries - old(cache.entries))
        && cache.device.blocks == WrittenDisk(f, w, today, a.arr) && entry.Is(WrittenFile(f, w, today))
    {
      hide CacheIs, TextWriter.Holds, BlockCount, WriteEntry, FileBytes, StoredTo;
      ghost var all := cache.entries;
      var blocks := text.Blocks(w);
      if readOnly {
        return Err(EROFS);
      }
      if entry.fileKind != TEXT_FILE {
        return Err(EINVAL);
      }
      if blocks * 512 > entry.maxFileSize {
        return Err(ENOSPC);
      }
      WriteBlocksOf(text, blocks, w, a);
      entry.modification := today;
      SetSize(blocks * 512);
      ghost var arr := StoredTo(w, a.arr, f.firstBlock, blocks);
      WriteFileEntry(cache, entry, WrittenFile(f, w, today), a.(arr := arr));
      SyncBlocks(cache, a.(arr := WrittenDisk(f, w, today, a.arr)));
      r := Ok(blocks * 512);
    }

    method WriteBlocksOf(text: TextWriter, blocks: nat, ghost w: Pages, ghost a: Plain)
      requires text.Holds(w) && Sized(w) && CacheIs(cache, a) && blocks == BlockCount(w)
      requires 0 < entry.firstBlock && entry.firstBlock + blocks <= |a.arr|
      modifies cache, cache.hashTable, cache.device, cache.entries
      ensures CacheIs(cache, a.(arr := StoredTo(w, a.arr, entry.firstBlock, blocks)))
      ensures fresh(cache.entries - old(cache.entries))
    {
      hide CacheIs, Data, TextWriter.Holds, BlockCount;
      ghost var all := cache.entries;
      for i := 0 to blocks
        invariant CacheIs(cache, a.(arr := StoredTo(w, a.arr, entry.firstBlock, i))) && fresh(cache.entries - all)
        invariant text.Holds(w)
      {
        var data := text.DataOf(i, w);
        DataThere(w, i);
        WriteBlock(cache, entry.firstBlock + i, data.value, a.(arr := StoredTo(w, a.arr, entry.firstBlock, i)));
      }
    }

    /** setFileSize */
    method SetSize(size: nat)
      modifies entry`lastBlock, entry`lastByte
      ensures F() == old(SetFileSize(F(), size))
    {
      if size == 0 {
        entry.lastBlock, entry.lastByte := entry.firstBlock + 1, 0;
        return;
      }
      entry.lastBlock := 1 + entry.firstBlock + size / 512;
      entry.lastByte := size % 512;
      if entry.lastByte == 0 {
        entry.lastByte := 512;
      }
    }
  }

  lemma {:induction false} DeviceSize(cache: ConcreteBlockCache, a: Plain)
    requires CacheIs(cache, a)
    ensures |cache.device.blocks| == |a.arr|
  {
    DeviceHolds(cache);
  }

  lemma {:induction false} NotReadable(f: Extent, arr: seq<Block>, block: nat)
    ensures Readable(f, arr, block) ==> block < |arr| && (block + 1 == f.lastBlock || block + 1 < |arr|)
  {
  }

  lemma {:induction false} ShortPage(f: Extent, arr: seq<Block>, block: nat, buffer: Bytes)
    requires block < |arr| && block + 1 == f.lastBlock && |buffer| == PAGE && buffer[0..BLOCK_SIZE] == arr[block]
    ensures Readable(f, arr, block) <==> f.lastByte <= BLOCK_SIZE
    ensures f.lastByte <= BLOCK_SIZE ==> buffer[..f.lastByte] == PageBytes(f, arr, block)
  {
    if f.lastByte <= BLOCK_SIZE {
      assert buffer[0..BLOCK_SIZE][..f.lastByte] == buffer[..f.lastByte];
    }
  }

  lemma {:induction false} LongPage(f: Extent, arr: seq<Block>, block: nat, buffer: Bytes)
    requires block + 1 < |arr| && block + 1 != f.lastBlock && |buffer| == PAGE
    requires buffer[..BLOCK_SIZE] == arr[block] && buffer[BLOCK_SIZE..BLOCK_SIZE + BLOCK_SIZE] == arr[block + 1]
    ensures Readable(f, arr, block) <==> block + 2 != f.lastBlock || f.lastByte <= BLOCK_SIZE
    ensures Readable(f, arr, block) ==>
      buffer[..if block + 2 == f.lastBlock then BLOCK_SIZE + f.lastByte else PAGE] == PageBytes(f, arr, block)
  {
    assert buffer == arr[block][..] + arr[block + 1][..];
  }

  lemma {:induction false} OnePageMore(f: Extent, arr: seq<Block>, block: nat, sizes: seq<nat>)
    requires block < f.lastBlock && OnDisk(f, arr)
    ensures sizes + PageSizes(f, arr, block) == sizes + [|PageText(f, arr, block)|] + PageSizes(f, arr, block + 2)
  {
  }

  lemma {:induction false} ClampedFits(size: nat, offset: nat, fileSize: nat)
    requires size < SIZE32 && offset < SIZE32 && offset < fileSize
    ensures Clamped(size, offset, fileSize) <= size
  {
  }

  /** The front of the scratch buffer before and after a page was decoded into it. */
  lemma {:induction false} FrontOf(was: Bytes, filled: nat, now: Bytes, text: Bytes)
    requires |text| <= |was| && filled <= |was| && now == text + was[|text|..]
    ensures now[..Max(filled, |text|)] == text + (if |text| < filled then was[..filled][|text|..] else [])
  {
  }

  lemma {:induction false} NextPart(f: Extent, arr: seq<Block>, sizes: seq<nat>, page: nat, at: nat, left: nat,
                                    tmp: Scratch, done: Bytes)
    requires page < |sizes| && at <= sizes[page] && left > 0
    ensures var p := ReadPart(f, arr, page, sizes[page], at, left, tmp);
      Before(done, ReadLoop(f, arr, sizes, page, at, left, tmp)) ==
        if p.None? then None
        else Before(done + p.value.bytes, ReadLoop(f, arr, sizes, page + 1, 0, left - |p.value.bytes|, p.value.tmp))
  {
    hide ReadPart;
    var p := ReadPart(f, arr, page, sizes[page], at, left, tmp);
    if p.Some? {
      PartIsShort(f, arr, page, sizes[page], at, left, tmp);
      BeforeBefore(done, p.value.bytes, ReadLoop(f, arr, sizes, page + 1, 0, left - |p.value.bytes|, p.value.tmp));
    }
  }

  lemma {:induction false} PartIsShort(f: Extent, arr: seq<Block>, page: nat, size: nat, at: nat, left: nat,
                                       tmp: Scratch)
    requires at <= size
    ensures var p := ReadPart(f, arr, page, size, at, left, tmp); p.Some? ==> |p.value.bytes| <= left
  {
  }
}
