/** Writing text: lines appended to pages that are never split within a line, and reading them back. */
module PascalTextWriter {
  import opened Blocks
  import opened PascalText
  import opened PascalTextFile

  function Zeros(n: nat): (r: Bytes)
    ensures |r| == n
  {
    seq(n, _ => 0)
  }

  /** Full pages, the first of them the editor's, and the page being filled. */
  datatype Pages = Pages(full: seq<Bytes>, current: Bytes, offset: nat)

  predicate Sized(w: Pages) {
    && w.full != [] && |w.current| == PAGE && w.offset <= PAGE
    && forall k :: 0 <= k < |w.full| ==> |w.full[k]| == PAGE
  }

  /** What full pages from k on decode to. */
  function PagesText(full: seq<Bytes>): Bytes {
    if full == [] then [] else PagesText(full[..|full| - 1]) + Decode(full[|full| - 1], false)
  }

  /** The pages hold the lines written so far, padded with NULs. */
  ghost predicate WriterOk(w: Pages, lines: seq<Bytes>) {
    && Sized(w) && w.full[0] == Zeros(PAGE)
    && w.current == w.current[..w.offset] + Zeros(PAGE - w.offset)
    && !Pending(w.current[..w.offset], false)
    && PagesText(w.full[1..]) + Decode(w.current[..w.offset], false) == ReadBack(lines)
    && (w.offset == 0 ==> |w.full| == 1)
  }

  function InitPages(): Pages {
    Pages([Zeros(PAGE)], Zeros(PAGE), 0)
  }

  /** writeLine, for a line whose encoding fits a page. */
  function Written(w: Pages, e: Bytes): Pages
    requires Sized(w) && |e| <= PAGE
  {
    if w.offset + |e| > PAGE then Pages(w.full + [w.current], Splice(Zeros(PAGE), 0, e), |e|)
    else Pages(w.full, Splice(w.current, w.offset, e), w.offset + |e|)
  }

  lemma {:induction false} InitOk()
    ensures WriterOk(InitPages(), [])
  {
    assert InitPages().full[1..] == [];
    assert Zeros(PAGE)[..0] == [];
  }

  /** Every line ends up whole in one page: the text grows by exactly what the line reads back as. */
  lemma {:induction false} WrittenOk(w: Pages, lines: seq<Bytes>, line: Bytes)
    requires WriterOk(w, lines) && |Encoded(line)| <= PAGE
    ensures WriterOk(Written(w, Encoded(line)), lines + [line])
  {
    hide Decode, Pending, Encoded, PagesText, ReadBack;
    var e := Encoded(line);
    EncodedCloses(line);
    ReadBackMore(lines, line);
    if w.offset + |e| > PAGE {
      FullPage(w.current, w.offset);
      PagesTextMore(w.full[1..], w.current);
      assert (w.full + [w.current])[1..] == w.full[1..] + [w.current];
      assert Splice(Zeros(PAGE), 0, e)[..|e|] == e;
    } else {
      DecodeAppend(w.current[..w.offset], e, false);
      assert Splice(w.current, w.offset, e)[..w.offset + |e|] == w.current[..w.offset] + e;
    }
  }

  lemma {:induction false} ReadBackMore(lines: seq<Bytes>, line: Bytes)
    ensures ReadBack(lines + [line]) == ReadBack(lines) + Decode(Encoded(line), false)
  {
    assert (lines + [line])[..|lines|] == lines;
  }

  lemma {:induction false} PagesTextMore(full: seq<Bytes>, page: Bytes)
    ensures PagesText(full + [page]) == PagesText(full) + Decode(page, false)
  {
    assert (full + [page])[..|full|] == full;
  }

  /** The padding of a page decodes to nothing. */
  lemma {:induction false} FullPage(page: Bytes, offset: nat)
    requires offset <= |page| && page == page[..offset] + Zeros(|page| - offset)
    ensures Decode(page, false) == Decode(page[..offset], false)
  {
    hide Decode, Pending;
    DecodeAppend(page[..offset], Zeros(|page| - offset), false);
    DecodeZeros(|page| - offset, Pending(page[..offset], false));
  }

  predicate FitPages(lines: seq<Bytes>) {
    forall k :: 0 <= k < |lines| ==> |Encoded(lines[k])| <= PAGE
  }

  /** A new writer after the lines, each of which fits a page. */
  function WrittenAll(lines: seq<Bytes>): (w: Pages)
    requires FitPages(lines)
    ensures Sized(w)
  {
    if lines == [] then InitPages()
    else
      assert FitPages(lines[..|lines| - 1]);
      Written(WrittenAll(lines[..|lines| - 1]), Encoded(lines[|lines| - 1]))
  }

  lemma {:induction false} WrittenAllOk(lines: seq<Bytes>)
    requires FitPages(lines)
    ensures WriterOk(WrittenAll(lines), lines)
  {
    hide WriterOk, Written, Encoded, InitPages;
    if lines == [] {
      InitOk();
    } else {
      var init, last := lines[..|lines| - 1], lines[|lines| - 1];
      assert FitPages(init) && init + [last] == lines;
      WrittenAllOk(init);
      WrittenOk(WrittenAll(init), init, last);
    }
  }

  // ---------------------------------------------------------------- as blocks

  function BlockCount(w: Pages): nat {
    |w.full| * 2 + (if w.offset == 0 then 0 else if w.offset <= 512 then 1 else 2)
  }

  /** data(i); None stands for a null pointer. */
  function Data(w: Pages, i: nat): Option<Block>
    requires Sized(w)
  {
    if i / 2 < |w.full| then Some(Half(w.full[i / 2], i % 2))
    else if i / 2 == |w.full| && !(i % 2 * 512 > w.offset) then Some(Half(w.current, i % 2))
    else None
  }

  function Half(page: Bytes, h: nat): Block
    requires |page| == PAGE && h < 2
  {
    page[h * 512..h * 512 + 512]
  }

  /** Every block that is written has data. */
  lemma {:induction false} DataThere(w: Pages, i: nat)
    requires Sized(w) && i < BlockCount(w)
    ensures Data(w, i).Some?
  {
  }

  /** The bytes of the writer's blocks, one after the other. */
  function ByteAt(w: Pages, i: nat): byte
    requires Sized(w) && i < BlockCount(w) * 512
  {
    DataThere(w, i / 512);
    Data(w, i / 512).value[i % 512]
  }

  /** A new writer has two blocks of zeros; they stay. */
  lemma {:induction false} EditorPage(w: Pages, lines: seq<Bytes>)
    requires WriterOk(w, lines)
    ensures BlockCount(InitPages()) == 2 && BlockCount(w) >= 2
    ensures Data(w, 0) == Some(ZERO_BLOCK) && Data(w, 1) == Some(ZERO_BLOCK)
  {
    assert Half(w.full[0], 0) == ZERO_BLOCK && Half(w.full[0], 1) == ZERO_BLOCK;
  }

  lemma {:induction false} BlocksHold(w: Pages)
    requires Sized(w)
    ensures 1024 * |w.full| + w.offset <= BlockCount(w) * 512
    ensures w.offset > 0 ==> (BlockCount(w) - 1) * 512 < 1024 * |w.full| + w.offset
  {
  }

  /** The byte at position i of the pages, the page being filled included. */
  function PageByte(w: Pages, i: nat): byte
    requires Sized(w) && i / 1024 <= |w.full|
  {
    if i / 1024 < |w.full| then w.full[i / 1024][i % 1024] else w.current[i % 1024]
  }

  lemma {:induction false} ByteIs(w: Pages, i: nat)
    requires Sized(w) && i < BlockCount(w) * 512
    ensures i / 1024 <= |w.full| && ByteAt(w, i) == PageByte(w, i)
  {
    assert i / 512 / 2 == i / 1024 && i % 1024 == i / 512 % 2 * 512 + i % 512;
  }

  /** Where a line goes: behind the last one if it fits the page, else to the start of a new page. */
  function LineStart(w: Pages, e: Bytes): nat {
    1024 * |w.full| + (if w.offset + |e| <= 1024 then w.offset else 1024)
  }

  lemma {:induction false} NewByte(w: Pages, e: Bytes, i: nat)
    requires Sized(w) && i < |e| <= 1024
    ensures (LineStart(w, e) + i) / 1024 <= |Written(w, e).full|
    ensures PageByte(Written(w, e), LineStart(w, e) + i) == e[i]
  {
    var r := Written(w, e);
    var o := r.offset - |e| + i;
    Page(|r.full|, o);
    assert r.current[o] == e[i];
  }

  lemma {:induction false} Page(n: nat, o: nat)
    requires o < 1024
    ensures (1024 * n + o) / 1024 == n && (1024 * n + o) % 1024 == o
  {
  }

  lemma {:induction false} OldByte(w: Pages, e: Bytes, i: nat)
    requires Sized(w) && |e| <= 1024 && i < 1024 * |w.full| + w.offset && i / 1024 <= |w.full|
    ensures i / 1024 <= |Written(w, e).full| && PageByte(Written(w, e), i) == PageByte(w, i)
  {
    assert i == i / 1024 * 1024 + i % 1024;
  }

  /**
   A line goes behind the last one, at byte 1024 * pages + offset, if it then ends within the page of 1024 bytes,
   else to the start of a new page; the writer then has as many blocks as that takes.
   */
  lemma {:induction false} LineEnd(w: Pages, e: Bytes)
    requires Sized(w) && 0 < |e| <= 1024
    ensures LineStart(w, e) ==
      if w.offset + |e| <= 1024 then 1024 * |w.full| + w.offset else 1024 * (|w.full| + 1)
    ensures var r := Written(w, e);
      && r.offset > 0 && 1024 * |r.full| + r.offset == LineStart(w, e) + |e|
      && (BlockCount(r) - 1) * 512 < LineStart(w, e) + |e| <= BlockCount(r) * 512
  {
    BlocksHold(Written(w, e));
    hide BlockCount;
  }

  /** The bytes of the line. */
  lemma {:induction false} LineBytes(w: Pages, e: Bytes, i: nat)
    requires Sized(w) && i < |e| <= 1024
    ensures LineStart(w, e) + i < BlockCount(Written(w, e)) * 512
    ensures ByteAt(Written(w, e), LineStart(w, e) + i) == e[i]
  {
    LineEnd(w, e);
    hide BlockCount, ByteAt, PageByte, Written, LineStart;
    ByteIs(Written(w, e), LineStart(w, e) + i);
    NewByte(w, e, i);
  }

  /** What was written before stays. */
  lemma {:induction false} LineKeeps(w: Pages, e: Bytes, i: nat)
    requires Sized(w) && 0 < |e| <= 1024 && i < 1024 * |w.full| + w.offset
    ensures i < BlockCount(w) * 512 && i < BlockCount(Written(w, e)) * 512
    ensures ByteAt(Written(w, e), i) == ByteAt(w, i)
  {
    BlocksHold(w);
    LineEnd(w, e);
    LineBehind(w, e);
    hide BlockCount, ByteAt, PageByte, Written, LineStart;
    ByteIs(w, i);
    OldByte(w, e, i);
    ByteIs(Written(w, e), i);
  }

  lemma {:induction false} LineBehind(w: Pages, e: Bytes)
    requires Sized(w)
    ensures LineStart(w, e) >= 1024 * |w.full| + w.offset
  {
  }

  // ---------------------------------------------------------------- reading back

  /** The file's blocks are those of the writer. */
  ghost predicate Stored(w: Pages, f: Extent, arr: seq<Block>) {
    Sized(w) && 0 < f.firstBlock && f.firstBlock + BlockCount(w) <= |arr|
    && forall i: nat :: i < BlockCount(w) ==> Some(arr[f.firstBlock + i]) == Data(w, i)
  }

  lemma {:induction false} StoredPage(w: Pages, f: Extent, arr: seq<Block>, k: nat)
    requires Stored(w, f, arr) && k < |w.full|
    ensures arr[f.firstBlock + 2 * k][..] + arr[f.firstBlock + 2 * k + 1][..] == w.full[k]
  {
    assert Some(arr[f.firstBlock + 2 * k]) == Data(w, 2 * k);
    assert Some(arr[f.firstBlock + (2 * k + 1)]) == Data(w, 2 * k + 1);
    assert w.full[k] == Half(w.full[k], 0)[..] + Half(w.full[k], 1)[..];
  }

  lemma {:induction false} StoredCurrent(w: Pages, f: Extent, arr: seq<Block>)
    requires Stored(w, f, arr)
    ensures var b, n := f.firstBlock + 2 * |w.full|, BlockCount(w) - 2 * |w.full|;
      && (n >= 1 ==> arr[b] == w.current[..512])
      && (n == 2 ==> arr[b][..] + arr[b + 1][..] == w.current)
  {
    var m := 2 * |w.full|;
    if BlockCount(w) > m {
      assert Some(arr[f.firstBlock + m]) == Data(w, m) && m / 2 == |w.full|;
      if BlockCount(w) == m + 2 {
        assert Some(arr[f.firstBlock + (m + 1)]) == Data(w, m + 1);
        assert w.current == Half(w.current, 0)[..] + Half(w.current, 1)[..];
      }
    }
  }

  /** The full pages from k on, read as pages of a file that goes on behind them. */
  lemma {:induction false} FullPagesRead(w: Pages, f: Extent, arr: seq<Block>, k: nat)
    requires Stored(w, f, arr) && OnDisk(f, arr) && k <= |w.full|
    requires var end := f.firstBlock + 2 * |w.full|; f.lastBlock > end || (f.lastBlock == end && f.lastByte == 512)
    ensures TextFrom(f, arr, f.firstBlock + 2 * k) ==
      PagesText(w.full[k..]) + TextFrom(f, arr, f.firstBlock + 2 * |w.full|)
    decreases |w.full| - k
  {
    hide Decode, Stored, PagesText, PageBytes, OnDisk;
    if k == |w.full| {
      assert w.full[k..] == [];
      NoPages();
    } else {
      StoredBytes(w, f, arr, k);
      FullPagesRead(w, f, arr, k + 1);
      PagesTextFront(w.full[k..]);
      assert w.full[k..][1..] == w.full[k + 1..];
    }
  }

  lemma {:induction false} NoPages()
    ensures PagesText([]) == []
  {
  }

  /** A full page is read whole. */
  lemma {:induction false} StoredBytes(w: Pages, f: Extent, arr: seq<Block>, k: nat)
    requires Stored(w, f, arr) && OnDisk(f, arr) && k < |w.full|
    requires var end := f.firstBlock + 2 * |w.full|; f.lastBlock > end || (f.lastBlock == end && f.lastByte == 512)
    ensures f.firstBlock + 2 * k < f.lastBlock && PageBytes(f, arr, f.firstBlock + 2 * k) == w.full[k]
  {
    StoredPage(w, f, arr, k);
    hide Stored, Decode;
    var b := f.firstBlock + 2 * k;
    assert f.lastByte == 512 ==> arr[b + 1][..f.lastByte] == arr[b + 1][..];
  }

  lemma {:induction false} PagesTextFront(full: seq<Bytes>)
    requires full != []
    ensures PagesText(full) == Decode(full[0], false) + PagesText(full[1..])
  {
    hide Decode, PagesText;
    var init, last := full[..|full| - 1], full[|full| - 1];
    assert full == init + [last];
    PagesTextMore(init, last);
    NoPages();
    if init == [] {
      assert full[1..] == [];
    } else {
      PagesTextFront(init);
      assert full[1..] == init[1..] + [last];
      PagesTextMore(init[1..], last);
    }
  }

  /** What the page being filled reads back as, followed by what is in the block behind it if the file has one more. */
  lemma {:induction false} CurrentRead(w: Pages, lines: seq<Bytes>, f: Extent, arr: seq<Block>, extra: bool)
    requires WriterOk(w, lines) && Stored(w, f, arr) && OnDisk(f, arr) && f.lastByte == 512
    requires f.lastBlock == f.firstBlock + BlockCount(w) + (if extra then 1 else 0)
    ensures TextFrom(f, arr, f.firstBlock + 2 * |w.full|) ==
      Decode(w.current[..w.offset], false) + (if extra then Decode(arr[f.lastBlock - 1], false) else [])
  {
    hide Decode, Pending;
    var b, n := f.firstBlock + 2 * |w.full|, BlockCount(w) - 2 * |w.full|;
    StoredCurrent(w, f, arr);
    FullPage(w.current, w.offset);
    assert w.offset == 0 ==> Decode(w.current[..0], false) == [] by {
      DecodeEmpty(false);
      assert w.current[..0] == [];
    }
    if n == 1 {
      HalfPage(w.current, w.offset);
      if extra {
        DecodeAppend(arr[b][..], arr[b + 1][..], false);
      }
    }
    TextFromEnd(f, arr, b);
  }

  /** The text of the last two pages, one of them possibly of one block. */
  lemma {:induction false} TextFromEnd(f: Extent, arr: seq<Block>, b: nat)
    requires OnDisk(f, arr) && f.lastByte == 512 && b <= f.lastBlock <= b + 3
    ensures f.lastBlock == b ==> TextFrom(f, arr, b) == []
    ensures f.lastBlock == b + 1 ==> TextFrom(f, arr, b) == Decode(arr[b], false)
    ensures f.lastBlock == b + 2 ==> TextFrom(f, arr, b) == Decode(arr[b][..] + arr[b + 1][..], false)
    ensures f.lastBlock == b + 3 ==>
      TextFrom(f, arr, b) == Decode(arr[b][..] + arr[b + 1][..], false) + Decode(arr[b + 2], false)
  {
    hide Decode;
    assert TextFrom(f, arr, b + 4) == [];
    if f.lastBlock == b + 3 {
      assert arr[b + 2][..512] == arr[b + 2];
      assert TextFrom(f, arr, b + 2) == Decode(arr[b + 2], false);
    } else if f.lastBlock > b {
      assert arr[f.lastBlock - 1][..512] == arr[f.lastBlock - 1];
      assert TextFrom(f, arr, b + 2) == [];
    }
  }

  lemma {:induction false} HalfPage(page: Bytes, offset: nat)
    requires |page| == PAGE && offset <= 512 && page == page[..offset] + Zeros(PAGE - offset)
    requires !Pending(page[..offset], false)
    ensures Decode(page[..512], false) == Decode(page[..offset], false) && !Pending(page[..512], false)
  {
    hide Decode, Pending;
    assert page[..512] == page[..offset] + Zeros(512 - offset);
    DecodeAppend(page[..offset], Zeros(512 - offset), false);
    DecodeZeros(512 - offset, false);
  }

  /** Over the blocks the writer counts, the file's text is what the lines read back as. */
  lemma {:induction false} WriterReadsBack(w: Pages, lines: seq<Bytes>, f: Extent, arr: seq<Block>)
    requires WriterOk(w, lines) && Stored(w, f, arr) && OnDisk(f, arr) && f.lastByte == 512
    requires f.lastBlock == f.firstBlock + BlockCount(w)
    ensures Text(f, arr) == ReadBack(lines)
    ensures Text(f, arr) == Joined(lines) <==> AllClean(lines)
  {
    hide Decode, Pending, Stored, PagesText, ReadBack, TextFrom, OnDisk;
    FullPagesRead(w, f, arr, 1);
    CurrentRead(w, lines, f, arr, false);
    LinesRoundTrip(lines);
  }

  /**
   The round trip: any lines that fit pages, written and read back over the blocks the writer counts, give the
   lines each ended by one LF, exactly if none of them has a NUL, DLE or CR inside.
   */
  lemma {:induction false} TextRoundTrip(lines: seq<Bytes>, f: Extent, arr: seq<Block>)
    requires FitPages(lines) && Stored(WrittenAll(lines), f, arr) && OnDisk(f, arr) && f.lastByte == 512
    requires f.lastBlock == f.firstBlock + BlockCount(WrittenAll(lines))
    ensures Text(f, arr) == Joined(lines) <==> AllClean(lines)
  {
    hide WriterOk, WrittenAll, Stored;
    WrittenAllOk(lines);
    WriterReadsBack(WrittenAll(lines), lines, f, arr);
  }

  // ---------------------------------------------------------------- the size of the file

  /** setFileSize */
  function SetFileSize(f: Extent, size: nat): Extent {
    if size == 0 then f.(lastBlock := f.firstBlock + 1, lastByte := 0)
    else f.(lastBlock := 1 + f.firstBlock + size / 512, lastByte := if size % 512 == 0 then 512 else size % 512)
  }

  /** dataFileSize */
  function DataFileSize(f: Extent): int {
    (f.lastBlock - f.firstBlock) * 512 - 512 + f.lastByte
  }

  /** A size is kept unless it is a positive multiple of 512: then the file gets a block too many. */
  lemma {:induction false} SizeKept(f: Extent, size: nat)
    ensures DataFileSize(SetFileSize(f, size)) == size <==> size == 0 || size % 512 != 0
    ensures size > 0 && size % 512 == 0 ==> DataFileSize(SetFileSize(f, size)) == size + 512
  {
  }

  /**
   A file written by write(TextWriter) is one block longer than its text: it reads back as the lines followed
   by whatever that block holds, so as the lines alone exactly if the block decodes to nothing.
   */
  lemma {:induction false} WrittenFileReadsBack(w: Pages, lines: seq<Bytes>, f: Extent, arr: seq<Block>)
    requires WriterOk(w, lines) && Stored(w, f, arr)
    requires var f' := SetFileSize(f, BlockCount(w) * 512); OnDisk(f', arr)
    ensures var f' := SetFileSize(f, BlockCount(w) * 512);
      && f'.lastBlock == f.firstBlock + BlockCount(w) + 1
      && Text(f', arr) == ReadBack(lines) + Decode(arr[f'.lastBlock - 1], false)
      && (Text(f', arr) == ReadBack(lines) <==> Decode(arr[f'.lastBlock - 1], false) == [])
  {
    hide Decode, Pending, Data, PagesText, ReadBack, SetFileSize, BlockCount, TextFrom, Half;
    var f' := SetFileSize(f, BlockCount(w) * 512);
    AtLeastOnePage(w);
    WholeBlocks(f, BlockCount(w));
    StoredSame(w, f, f', arr);
    hide Stored;
    FullPagesRead(w, f', arr, 1);
    CurrentRead(w, lines, f', arr, true);
    var extra := Decode(arr[f'.lastBlock - 1], false);
    assert Text(f', arr) == ReadBack(lines) + extra;
    assert extra != [] ==> |ReadBack(lines) + extra| > |ReadBack(lines)|;
  }

  /** 16-bit block numbers keep the text below 2^32 bytes. */
  lemma {:induction false} ReadBackSize(w: Pages, lines: seq<Bytes>)
    requires WriterOk(w, lines) && BlockCount(w) <= 0x1_0000
    ensures |ReadBack(lines)| + 1 < SIZE32
  {
    hide Decode, Pending, PagesText, ReadBack;
    PagesSize(w.full[1..]);
    DecodedSize(w.current[..w.offset], false);
  }

  lemma {:induction false} PagesSize(full: seq<Bytes>)
    requires forall k :: 0 <= k < |full| ==> |full[k]| == PAGE
    ensures |PagesText(full)| <= 112 * PAGE * |full|
  {
    hide Decode;
    if full != [] {
      PagesSize(full[..|full| - 1]);
      DecodedSize(full[|full| - 1], false);
    }
  }

  /**
   What reads give after write(TextWriter), which changes the blocks and the extent but not the page table of the
   file. Without a table they give the lines exactly if the block too many is on the device and decodes to nothing;
   with one exactly if that table cuts the new text as the new pages are.
   */
  lemma {:induction false} WrittenReads(w: Pages, lines: seq<Bytes>, f: Extent, arr: seq<Block>, kept: Option<seq<nat>>)
    requires WriterOk(w, lines) && Stored(w, f, arr) && BlockCount(w) <= 0x1_0000
    ensures var f' := SetFileSize(f, BlockCount(w) * 512);
      ReadsAs(f', arr, kept, ReadBack(lines)) <==>
        if kept.None? then f'.lastBlock <= |arr| && Decode(arr[f'.lastBlock - 1], false) == []
        else Cuts(f', arr, kept.value, 0, 0, ReadBack(lines))
  {
    hide WriterOk, Stored, ReadBack, BlockCount, ReadsAs, Cuts, Text, Decode;
    ReadBackSize(w, lines);
    EndOfWritten(w, f, arr);
    var f' := SetFileSize(f, BlockCount(w) * 512);
    hide SetFileSize;
    if kept.Some? {
      ReadsExactly(f', arr, kept.value, ReadBack(lines));
    } else {
      FreshReadsExactly(f', arr, ReadBack(lines));
      if OnDisk(f', arr) {
        WrittenFileReadsBack(w, lines, f, arr);
      }
    }
  }

  lemma {:induction false} EndOfWritten(w: Pages, f: Extent, arr: seq<Block>)
    requires Stored(w, f, arr)
    ensures var f' := SetFileSize(f, BlockCount(w) * 512);
      && f'.lastBlock == f.firstBlock + BlockCount(w) + 1 && f'.firstBlock == f.firstBlock
      && (HasText(f', arr) <==> OnDisk(f', arr)) && (OnDisk(f', arr) <==> f'.lastBlock <= |arr|)
  {
    AtLeastOnePage(w);
    WholeBlocks(f, BlockCount(w));
  }

  /** A table made while the file had no text: from then on nothing is read, whatever is written. */
  lemma {:induction false} EmptyTable(f: Extent, arr: seq<Block>, text: Bytes)
    ensures forall size, offset :: Outcome(f, arr, Some([]), size, offset) == Some([])
    ensures ReadsAs(f, arr, Some([]), text) ==> text == []
  {
    hide ReadPages;
    if ReadsAs(f, arr, Some([]), text) {
      assert Outcome(f, arr, Some([]), 1, 0) == Some(Slice(text, 1, 0));
    }
  }

  /**
   The size of a new, empty file is asked for, then the line "A" is written: nothing can be read. Had its size not
   been asked for, the line could be.
   */
  lemma {:induction false} StaleTable(arr: seq<Block>)
    requires var w := WrittenAll([[65]]);
      |arr| == 64 && Stored(w, Extent(6, 7, 0), arr) && arr[9] == ZERO_BLOCK
    ensures var f := Extent(6, 7, 0); var w := WrittenAll([[65]]); var f' := SetFileSize(f, BlockCount(w) * 512);
      && HasText(f, arr) && Table(f, arr) == []
      && Outcome(f', arr, None, 2, 0) == Some([65, LF])
      && Outcome(f', arr, Some(Table(f, arr)), 2, 0) == Some([])
  {
    var f := Extent(6, 7, 0);
    var lines: seq<Bytes> := [[65]];
    var w := WrittenAll(lines);
    OneLine();
    WrittenAllOk(lines);
    hide WriterOk, Stored, ReadBack, WrittenAll, ReadsAs, Outcome, Decode;
    WrittenReads(w, lines, f, arr, None);
    var f' := SetFileSize(f, BlockCount(w) * 512);
    DecodeZeros(512, false);
    assert ZERO_BLOCK == seq(512, _ => 0);
    OneRead(f', arr, ReadBack(lines));
    EmptyTable(f', arr, []);
  }

  lemma {:induction false} OneRead(f: Extent, arr: seq<Block>, text: Bytes)
    requires ReadsAs(f, arr, None, text) && |text| == 2
    ensures Outcome(f, arr, None, 2, 0) == Some(text)
  {
    hide Outcome;
    assert Outcome(f, arr, None, 2, 0) == Some(Slice(text, 2, 0));
    assert text[0..2] == text;
  }

  lemma {:induction false} OneLine()
    ensures var lines: seq<Bytes> := [[65]];
      FitPages(lines) && BlockCount(WrittenAll(lines)) == 3 && ReadBack(lines) == [65, LF]
  {
    var lines: seq<Bytes> := [[65]];
    assert Content([65]) == [65] && Encoded([65]) == [65, CR];
    assert lines[..0] == [] && WrittenAll(lines) == Written(InitPages(), [65, CR]);
    assert Clean([65]);
    assert AllClean(lines);
    LinesRoundTrip(lines);
    assert Joined(lines) == Joined([]) + [65, LF];
  }

  /**
   A table of just the written blocks, kept from an earlier text with the same pages, is better than a new one: if
   the text ends with a page of two blocks, reads give the lines whatever the block too many holds.
   */
  lemma {:induction false} KeptTableProtects(w: Pages, lines: seq<Bytes>, f: Extent, arr: seq<Block>)
    requires WriterOk(w, lines) && Stored(w, f, arr) && BlockCount(w) <= 0x1_0000 && BlockCount(w) % 2 == 0
    ensures var f' := SetFileSize(f, BlockCount(w) * 512);
      var exact := f'.(lastBlock := f'.lastBlock - 1);
      HasText(exact, arr) && ReadsAs(f', arr, Some(Table(exact, arr)), ReadBack(lines))
  {
    hide WriterOk, Decode, ReadBack, BlockCount, ReadsAs, Cuts, Text, Half, Data;
    EndOfWritten(w, f, arr);
    AtLeastOnePage(w);
    WholeBlocks(f, BlockCount(w));
    var f' := SetFileSize(f, BlockCount(w) * 512);
    var exact := f'.(lastBlock := f'.lastBlock - 1);
    hide SetFileSize;
    StoredSame(w, f, exact, arr);
    WriterReadsBack(w, lines, exact, arr);
    OwnTableCuts(exact, arr, 0, 0);
    TextIs(exact, arr);
    OneBlockMore(exact, arr, Table(exact, arr), 0, 0, ReadBack(lines));
    ReadBackSize(w, lines);
    ReadsExactly(f', arr, Table(exact, arr), ReadBack(lines));
  }

  lemma {:induction false} TextIs(f: Extent, arr: seq<Block>)
    requires HasText(f, arr)
    ensures PageBlock(f, 0) == f.firstBlock + 2 && Text(f, arr) == TextFrom(f, arr, PageBlock(f, 0))
  {
  }

  /** Full pages are the same pages in a file that is one block longer. */
  lemma {:induction false} OneBlockMore(f: Extent, arr: seq<Block>, sizes: seq<nat>, page: nat, last: nat, text: Bytes)
    requires OnDisk(f, arr) && f.lastByte == 512
    requires (f.lastBlock - f.firstBlock) % 2 == 0 && f.lastBlock >= f.firstBlock + 2
    requires page <= |sizes| == |Table(f, arr)| && Cuts(f, arr, sizes, page, last, text)
    ensures Cuts(f.(lastBlock := f.lastBlock + 1), arr, sizes, page, last, text)
    decreases |sizes| - page
  {
    hide Decode, PageText;
    if page < |sizes| && Sum(sizes[page..]) > 0 {
      PageSizeAt(f, arr, f.firstBlock + 2, page);
      SamePage(f, arr, PageBlock(f, page));
      CutsNext(f, arr, sizes, page, last, text);
      OneBlockMore(f, arr, sizes, page + 1, if sizes[page] == 0 then last else sizes[page], text[sizes[page]..]);
      assert sizes[page] == 0 ==> text[sizes[page]..] == text;
    }
  }

  lemma {:induction false} SamePage(f: Extent, arr: seq<Block>, block: nat)
    requires OnDisk(f, arr) && f.lastByte == 512 && (f.lastBlock - block) % 2 == 0 && block < f.lastBlock
    ensures var g := f.(lastBlock := f.lastBlock + 1);
      Readable(f, arr, block) && Readable(g, arr, block) && PageText(f, arr, block) == PageText(g, arr, block)
  {
    hide Decode;
    assert arr[block + 1][..512] == arr[block + 1];
  }

  lemma {:induction false} AtLeastOnePage(w: Pages)
    requires Sized(w)
    ensures BlockCount(w) >= 2 * |w.full| >= 2
  {
  }

  lemma {:induction false} WholeBlocks(f: Extent, n: nat)
    requires n >= 1
    ensures SetFileSize(f, n * 512) == f.(lastBlock := f.firstBlock + n + 1, lastByte := 512)
  {
  }

  lemma {:induction false} StoredSame(w: Pages, f: Extent, f': Extent, arr: seq<Block>)
    requires Stored(w, f, arr) && f'.firstBlock == f.firstBlock
    ensures Stored(w, f', arr)
  {
    hide Data, BlockCount;
  }

  // ---------------------------------------------------------------- the program

  lemma {:induction false} SpacesAt(text: Bytes, pos: nat)
    requires pos <= |text|
    ensures LeadingSpaces(text[pos..]) ==
      if pos < |text| && text[pos] == SPACE then 1 + LeadingSpaces(text[pos + 1..]) else 0
  {
    assert pos < |text| ==> text[pos..][1..] == text[pos + 1..];
  }

  /** Compress, with the loop of find_first_not_of. */
  method CompressText(text: Bytes) returns (r: Bytes)
    ensures r == Compress(text)
  {
    hide LeadingSpaces;
    var pos := 0;
    assert text[0..] == text;
    while pos < |text| && text[pos] == SPACE
      invariant pos <= |text| && LeadingSpaces(text) == pos + LeadingSpaces(text[pos..])
    {
      SpacesAt(text, pos);
      pos := pos + 1;
    }
    SpacesAt(text, pos);
    SpacesAt(text, 0);
    if |text| < 3 || text[0] != SPACE || pos < 3 {
      return text;
    }
    var count := Min(pos, MAX_SPACES);
    r := [DLE] + [32 + count] + text[count..];
  }

  class TextWriter {
    var blocks: seq<array<byte>>
    var current: array<byte>
    var offset: nat

    ghost predicate Holds(w: Pages)
      reads this, blocks, current
    {
      && |blocks| == |w.full| && (forall k :: 0 <= k < |blocks| ==> blocks[k] != current && blocks[k][..] == w.full[k])
      && current[..] == w.current && offset == w.offset
    }

    constructor ()
      ensures Holds(InitPages()) && fresh(current)
    {
      var scratch := new byte[PAGE](_ => 0);
      var page := new byte[PAGE](_ => 0);
      blocks, current, offset := [scratch], page, 0;
    }

    /** writeLine: false when the line does not fit a page; then nothing has changed. */
    method WriteLine(line: Bytes, ghost w: Pages) returns (ok: bool)
      requires Holds(w) && Sized(w)
      modifies this, current
      ensures ok <==> |Encoded(line)| <= PAGE
      ensures Holds(if |Encoded(line)| <= PAGE then Written(w, Encoded(line)) else w)
      ensures current == old(current) || fresh(current)
    {
      hide Encoded, Splice;
      var text := EncodeLine(line);
      if |text| > PAGE {
        return false;
      }
      if offset + |text| > PAGE {
        blocks := blocks + [current];
        offset := 0;
        current := new byte[PAGE](_ => 0);
        assert current[..] == Zeros(PAGE);
      }
      CopyText(current, offset, text);
      offset := offset + |text|;
      ok := true;
    }

    /** The terminator becomes a CR, leading spaces are compressed. */
    static method EncodeLine(line: Bytes) returns (text: Bytes)
      ensures text == Encoded(line)
    {
      hide Compress;
      text := line;
      if |line| > 0 {
        var c := text[|line| - 1];
        if c == LF {
          text := text[|line| - 1 := CR];
        } else if c != CR {
          text := text + [CR];
        }
        assert text == Content(line) + [CR];
        text := CompressText(text);
      } else {
        text := text + [CR];
        ShortLine(text);
      }
    }

    method Blocks(ghost w: Pages) returns (n: nat)
      requires Holds(w)
      ensures n == BlockCount(w)
    {
      n := if offset == 0 then |blocks| * 2 else if offset <= 512 then |blocks| * 2 + 1 else |blocks| * 2 + 2;
    }

    method DataOf(block: nat, ghost w: Pages) returns (r: Option<Block>)
      requires Holds(w) && Sized(w)
      ensures r == Data(w, block)
    {
      var at := block % 2 * 512;
      var halfBlock := block / 2;
      if halfBlock < |blocks| {
        assert blocks[halfBlock][..] == w.full[halfBlock];
        return Some(blocks[halfBlock][at..at + 512]);
      }
      if halfBlock == |blocks| {
        return if at > offset then None else Some(current[at..at + 512]);
      }
      r := None;
    }
  }

  lemma {:induction false} ShortLine(text: Bytes)
    requires text == [CR]
    ensures Compress(text) == text
  {
  }

  method CopyText(page: array<byte>, offset: nat, text: Bytes)
    requires offset + |text| <= page.Length
    modifies page
    ensures page[..] == Splice(old(page[..]), offset, text)
  {
    forall i | 0 <= i < |text| {
      page[offset + i] := text[i];
    }
  }

  /** The file then ends inside its limit exactly if the limit leaves room for the block too many. */
  lemma {:induction false} EndAfterWrite(w: Pages, f: Extent, maxFileSize: nat)
    requires Sized(w) && BlockCount(w) * 512 <= maxFileSize
    ensures (SetFileSize(f, BlockCount(w) * 512).lastBlock - f.firstBlock) * 512 <= maxFileSize <==>
      (BlockCount(w) + 1) * 512 <= maxFileSize
  {
    AtLeastOnePage(w);
    WholeBlocks(f, BlockCount(w));
  }
}
