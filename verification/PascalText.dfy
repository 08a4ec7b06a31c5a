/**
 Pascal text: lines packed into 1024-byte pages, leading spaces compressed behind a DLE, NUL as padding.
 Encoding and decoding a line, and when they undo each other.
 */
module PascalText {
  import opened Blocks

  const DLE := 16
  const CR := 0x0d
  const LF := 0x0a
  const SPACE := 32
  const PAGE := 1024
  const MAX_SPACES := 223  // 255 - 32

  type Bytes = seq<byte>

  function Spaces(n: nat): (r: Bytes)
    ensures |r| == n
  {
    seq(n, _ => SPACE)
  }

  // ---------------------------------------------------------------- decoding

  /** One non-NUL byte outside a DLE pair, as it reads. */
  function Unix(c: byte): byte {
    if c == CR then LF else c
  }

  /** What the bytes decode to; dle says whether the byte before was a DLE. */
  function Decode(s: Bytes, dle: bool): Bytes {
    if s == [] then []
    else if s[0] == 0 then Decode(s[1..], dle)
    else if dle then Spaces(if s[0] > 32 then s[0] - 32 else 0) + Decode(s[1..], false)
    else if s[0] == DLE then Decode(s[1..], true)
    else [Unix(s[0])] + Decode(s[1..], false)
  }

  /** Whether decoding ends between a DLE and its count. */
  function Pending(s: Bytes, dle: bool): bool {
    if s == [] then dle
    else if s[0] == 0 then Pending(s[1..], dle)
    else Pending(s[1..], !dle && s[0] == DLE)
  }

  lemma {:induction false} DecodeAppend(s: Bytes, t: Bytes, dle: bool)
    ensures Decode(s + t, dle) == Decode(s, dle) + Decode(t, Pending(s, dle))
    ensures Pending(s + t, dle) == Pending(t, Pending(s, dle))
  {
    if s == [] {
      assert s + t == t;
    } else {
      assert (s + t)[1..] == s[1..] + t;
      DecodeAppend(s[1..], t, if s[0] == 0 then dle else !dle && s[0] == DLE);
    }
  }

  lemma {:induction false} DecodeEmpty(dle: bool)
    ensures Decode([], dle) == [] && Pending([], dle) == dle
  {
  }

  /** One more byte of a page. */
  lemma {:induction false} DecodeNext(page: Bytes, i: nat, dle: bool)
    requires i < |page| && dle == Pending(page[..i], false)
    ensures var c := page[i];
      && Decode(page[..i + 1], false) == Decode(page[..i], false)
        + (if c == 0 then []
           else if dle then Spaces(if c > 32 then c - 32 else 0)
           else if c == DLE then []
           else [Unix(c)])
      && Pending(page[..i + 1], false) == (if c == 0 then dle else !dle && c == DLE)
      && |Decode(page[..i + 1], false)| <= |Decode(page, false)|
  {
    var c := page[i];
    DecodeAppend(page[..i], [c], false);
    assert page[..i + 1] == page[..i] + [c];
    assert [c][1..] == [];
    DecodeFront(page, i + 1);
  }

  lemma {:induction false} DecodeFront(page: Bytes, n: nat)
    requires n <= |page|
    ensures |Decode(page[..n], false)| <= |Decode(page, false)|
  {
    DecodeAppend(page[..n], page[n..], false);
    assert page == page[..n] + page[n..];
  }

  /** Padding decodes to nothing. */
  lemma {:induction false} DecodeZeros(n: nat, dle: bool)
    ensures Decode(seq(n, _ => 0), dle) == [] && Pending(seq(n, _ => 0), dle) == dle
  {
    if n > 0 {
      assert seq(n, _ => 0 as byte)[1..] == seq(n - 1, _ => 0);
      DecodeZeros(n - 1, dle);
    }
  }

  /** The bytes that a line must not contain to read back. */
  predicate Awkward(c: byte) {
    c == 0 || c == DLE || c == CR
  }

  predicate Clean(s: Bytes) {
    forall i :: 0 <= i < |s| ==> !Awkward(s[i])
  }

  /** Decoding never produces a NUL, a DLE or a CR. */
  lemma {:induction false} DecodedIsClean(s: Bytes, dle: bool)
    ensures Clean(Decode(s, dle))
  {
    if s != [] {
      DecodedIsClean(s[1..], if s[0] == 0 then dle else !dle && s[0] == DLE);
    }
  }

  lemma {:induction false} DecodeClean(s: Bytes)
    requires Clean(s)
    ensures Decode(s, false) == s && !Pending(s, false)
  {
    if s != [] {
      assert !Awkward(s[0]);
      assert Clean(s[1..]);
      DecodeClean(s[1..]);
    }
  }

  // ---------------------------------------------------------------- encoding a line

  /** The line without its terminator: one LF or CR at the end. */
  function Content(line: Bytes): Bytes {
    if line != [] && (line[|line| - 1] == LF || line[|line| - 1] == CR) then line[..|line| - 1] else line
  }

  /** find_first_not_of(' ') */
  function LeadingSpaces(s: Bytes): (n: nat)
    ensures n <= |s| && s[..n] == Spaces(n) && (n < |s| ==> s[n] != SPACE)
  {
    if s == [] || s[0] != SPACE then 0
    else
      var n := LeadingSpaces(s[1..]);
      assert s[..n + 1] == [s[0]] + s[1..][..n];
      n + 1
  }

  /** Three or more leading spaces, up to 223 of them, become a DLE and a count. */
  function Compress(s: Bytes): Bytes {
    var count := Min(LeadingSpaces(s), MAX_SPACES);
    if count < 3 then s else [DLE, 32 + count] + s[count..]
  }

  /** What writeLine puts into the page. */
  function Encoded(line: Bytes): (r: Bytes)
  {
    Compress(Content(line) + [CR])
  }

  lemma {:induction false} SpacesThen(n: nat, t: Bytes)
    requires t == [] || t[0] != SPACE
    ensures LeadingSpaces(Spaces(n) + t) == n
  {
    if n > 0 {
      assert (Spaces(n) + t)[1..] == Spaces(n - 1) + t;
      SpacesThen(n - 1, t);
    } else {
      assert Spaces(0) + t == t;
    }
  }

  /** n spaces and then something else: less than three stay, up to 223 of more become a DLE and 32 + their number. */
  lemma {:induction false} CompressIs(n: nat, t: Bytes)
    requires t == [] || t[0] != 32
    ensures Compress(Spaces(n) + t) ==
      if n < 3 then Spaces(n) + t
      else if n <= 223 then [16, 32 + n] + t
      else [16, 255] + Spaces(n - 223) + t
  {
    SpacesThen(n, t);
    var s := Spaces(n) + t;
    if 3 <= n <= 223 {
      assert s[n..] == t;
    } else if n > 223 {
      assert s[223..] == Spaces(n - 223) + t;
    }
  }

  /** What is decoded to what: a DLE and its count n to n - 32 spaces, a CR to an LF, a NUL to nothing. */
  lemma {:induction false} DecodeIs(c: byte, s: Bytes)
    ensures Decode([0] + s, false) == Decode(s, false) && Decode([13] + s, false) == [10] + Decode(s, false)
    ensures c != 0 ==> Decode([16, c] + s, false) == Spaces(if c > 32 then c - 32 else 0) + Decode(s, false)
    ensures c != 0 && c != 13 && c != 16 ==> Decode([c] + s, false) == [c] + Decode(s, false)
  {
    assert ([0] + s)[1..] == s && ([13] + s)[1..] == s && ([c] + s)[1..] == s;
    assert ([16, c] + s)[1..] == [c] + s;
  }

  lemma {:induction false} NotAllSpaces(s: Bytes)
    ensures LeadingSpaces(s + [CR]) <= |s|
  {
    if s != [] {
      assert (s + [CR])[1..] == s[1..] + [CR];
      NotAllSpaces(s[1..]);
    }
  }

  /** No line leaves a DLE pair open: pages can be cut between lines. */
  lemma {:induction false} EncodedCloses(line: Bytes)
    ensures Encoded(line) != [] && !Pending(Encoded(line), false)
  {
    var text := Content(line) + [CR];
    var n := LeadingSpaces(text);
    var e := Encoded(line);
    NotAllSpaces(Content(line));
    assert e[|e| - 1] == CR && e == e[..|e| - 1] + [CR];
    DecodeAppend(e[..|e| - 1], [CR], false);
  }

  /** What a line reads back as. */
  lemma {:induction false} DecodeEncoded(line: Bytes)
    ensures Decode(Encoded(line), false) == Decode(Content(line) + [CR], false)
  {
    var text := Content(line) + [CR];
    var count := Min(LeadingSpaces(text), MAX_SPACES);
    if count >= 3 {
      var head := [DLE, 32 + count];
      assert text == Spaces(count) + text[count..] by {
        assert text[..LeadingSpaces(text)][..count] == Spaces(count);
      }
      DecodeAppend(head, text[count..], false);
      DecodeAppend(Spaces(count), text[count..], false);
      DecodeClean(Spaces(count));
      PairDecodes(count);
    }
  }

  lemma {:induction false} PairDecodes(count: nat)
    requires 3 <= count <= MAX_SPACES
    ensures Decode([DLE, 32 + count], false) == Spaces(count) && !Pending([DLE, 32 + count], false)
  {
    var s: Bytes := [DLE, 32 + count];
    assert s[1..] == [32 + count];
    assert s[1..][1..] == [];
    assert Decode(s[1..], true) == Spaces(count) + Decode([], false);
    assert Pending(s, false) == Pending(s[1..], true) == Pending([], false);
  }

  /** A line reads back as its content and one LF exactly if it has no NUL, DLE or CR inside. */
  lemma {:induction false} LineRoundTrip(line: Bytes)
    ensures Decode(Encoded(line), false) == Content(line) + [LF] <==> Clean(Content(line))
  {
    DecodeEncoded(line);
    var c := Content(line);
    if Clean(c) {
      DecodeClean(c);
      DecodeAppend(c, [CR], false);
    } else {
      var i :| 0 <= i < |c| && Awkward(c[i]);
      DecodedIsClean(Encoded(line), false);
      assert (c + [LF])[i] == c[i];
    }
  }

  // ---------------------------------------------------------------- lists of lines

  /** What the lines read back as. */
  function ReadBack(lines: seq<Bytes>): Bytes {
    if lines == [] then []
    else ReadBack(lines[..|lines| - 1]) + Decode(Encoded(lines[|lines| - 1]), false)
  }

  /** Each line ended by one LF. */
  function Joined(lines: seq<Bytes>): Bytes {
    if lines == [] then [] else Joined(lines[..|lines| - 1]) + (Content(lines[|lines| - 1]) + [LF])
  }

  predicate AllClean(lines: seq<Bytes>) {
    forall k :: 0 <= k < |lines| ==> Clean(Content(lines[k]))
  }

  lemma {:induction false} ReadBackIsClean(lines: seq<Bytes>)
    ensures Clean(ReadBack(lines))
  {
    if lines != [] {
      ReadBackIsClean(lines[..|lines| - 1]);
      DecodedIsClean(Encoded(lines[|lines| - 1]), false);
    }
  }

  lemma {:induction false} JoinedAwkward(lines: seq<Bytes>, k: nat, i: nat)
    requires k < |lines| && i < |Content(lines[k])| && Awkward(Content(lines[k])[i])
    ensures !Clean(Joined(lines))
  {
    var init := lines[..|lines| - 1];
    var last := Content(lines[|lines| - 1]) + [LF];
    if k == |lines| - 1 {
      assert Joined(lines)[|Joined(init)| + i] == last[i];
    } else {
      JoinedAwkward(init, k, i);
      var j :| 0 <= j < |Joined(init)| && Awkward(Joined(init)[j]);
      assert Joined(lines)[j] == Joined(init)[j];
    }
  }

  /** The whole text reads back exactly if no line has a NUL, DLE or CR inside. */
  lemma {:induction false} LinesRoundTrip(lines: seq<Bytes>)
    ensures ReadBack(lines) == Joined(lines) <==> AllClean(lines)
  {
    if AllClean(lines) {
      CleanLines(lines);
    } else {
      var k :| 0 <= k < |lines| && !Clean(Content(lines[k]));
      var i :| 0 <= i < |Content(lines[k])| && Awkward(Content(lines[k])[i]);
      ReadBackIsClean(lines);
      JoinedAwkward(lines, k, i);
    }
  }

  lemma {:induction false} CleanLines(lines: seq<Bytes>)
    requires AllClean(lines)
    ensures ReadBack(lines) == Joined(lines)
  {
    if lines != [] {
      CleanLines(lines[..|lines| - 1]);
      LineRoundTrip(lines[|lines| - 1]);
    }
  }
}
