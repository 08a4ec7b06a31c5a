/** The directory of a Pascal volume on disk: 26-byte entries laid end to end over whole blocks, header first. */
module PascalDirectory {
  import opened Blocks
  import opened PascalVolumeSpec

  const WORD16 := 0x1_0000
  const DIR_BLOCK := 2
  const STANDARD_BLOCKS := 6

  // ---------------------------------------------------------------- bytes

  /** write16, little-endian. */
  function Word(x: nat): (r: seq<byte>)
    ensures |r| == 2
  {
    [x % 256, x / 256 % 256]
  }

  lemma {:induction false} WordBack(x: nat)
    requires x < WORD16
    ensures WordAt(Word(x), 0) == x
  {
  }

  /** Zero padding up to n bytes. */
  function Padded(s: seq<byte>, n: nat): (r: seq<byte>)
    requires |s| <= n
    ensures |r| == n
  {
    s + seq(n - |s|, _ => 0)
  }

  // ---------------------------------------------------------------- entries

  predicate FileEncodable(f: File) {
    && f.firstBlock < WORD16 && f.lastBlock < WORD16 && f.fileKind < 256 && |f.name| <= 15
    && f.lastByte < WORD16 && f.modification < WORD16
  }

  /** FileEntry::writeDirectoryEntry */
  function FileBytes(f: File): (r: seq<byte>)
    requires |f.name| <= 15
    ensures |r| == ENTRY
  {
    Word(f.firstBlock) + Word(f.lastBlock) + [f.fileKind % 256, if f.status then 1 else 0, |f.name|]
    + Padded(f.name, 15) + Word(f.lastByte) + Word(f.modification)
  }

  /** FileEntry(void *); a length over 15 would overrun the name field. */
  function DecodeFile(s: seq<byte>, address: nat): File
    requires |s| == ENTRY && s[6] <= 15
  {
    File(WordAt(s, 0), WordAt(s, 2), s[4], s[5] % 2 == 1, s[7..7 + s[6]], WordAt(s, 0x16), WordAt(s, 0x18), 0, address)
  }

  lemma {:induction false} DecodeFileBytes(f: File, address: nat)
    requires FileEncodable(f)
    ensures FileBytes(f)[6] <= 15
    ensures DecodeFile(FileBytes(f), address) == f.(maxFileSize := 0, address := address)
  {
    hide Word, WordAt, Padded;
    var s := FileBytes(f);
    var first, last := Word(f.firstBlock), Word(f.lastBlock);
    var middle := [f.fileKind % 256, if f.status then 1 else 0, |f.name|];
    var name, end, date := Padded(f.name, 15), Word(f.lastByte), Word(f.modification);
    assert s == first + last + middle + name + end + date;
    WordOf(s, [], first, s[2..], f.firstBlock);
    WordOf(s, first, last, s[4..], f.lastBlock);
    WordOf(s, first + last + middle + name, end, s[24..], f.lastByte);
    WordOf(s, first + last + middle + name + end, date, s[26..], f.modification);
    assert s[4] == middle[0] && s[5] == middle[1] && s[6] == middle[2];
    NameOf(f.name);
    assert s[7..7 + |f.name|] == name[..|f.name|];
  }

  /** A word within a buffer. */
  lemma {:induction false} WordOf(s: seq<byte>, before: seq<byte>, word: seq<byte>, after: seq<byte>, x: nat)
    requires x < WORD16 && word == Word(x) && s == before + word + after
    ensures WordAt(s, |before|) == x
  {
    assert s[|before|] == word[0] && s[|before| + 1] == word[1];
    WordBack(x);
  }

  lemma {:induction false} NameOf(name: seq<byte>)
    requires |name| <= 15
    ensures Padded(name, 15)[..|name|] == name
  {
  }

  predicate HeaderEncodable(v: Volume) {
    && v.firstBlock < WORD16 && v.lastBlock < WORD16 && v.fileKind < 256 && |v.name| + |v.tail| == 7
    && v.lastVolumeBlock < WORD16 && |v.files| < WORD16 && v.accessTime < WORD16 && v.lastBoot < WORD16
  }

  /** VolumeEntry::writeDirectoryEntry */
  function HeaderBytes(v: Volume): (r: seq<byte>)
    requires |v.name| + |v.tail| == 7
    ensures |r| == ENTRY
  {
    Word(v.firstBlock) + Word(v.lastBlock) + [v.fileKind % 256, 0, |v.name|] + (v.name + v.tail)
    + Word(v.lastVolumeBlock) + Word(|v.files|) + Word(v.accessTime) + Word(v.lastBoot) + [0, 0, 0, 0]
  }

  /** VolumeEntry::init on the first entry; the name field past the name is not read, junk is what it holds. */
  function DecodeHeader(s: seq<byte>, junk: seq<byte>): Volume
    requires |s| >= ENTRY && s[6] <= 7 && |junk| == 7
  {
    Volume(WordAt(s, 0), WordAt(s, 2), s[4], s[7..7 + s[6]], junk[s[6]..], WordAt(s, 0x0e), WordAt(s, 0x12),
           WordAt(s, 0x14), [])
  }

  lemma {:induction false} DecodeHeaderBytes(v: Volume, s: seq<byte>, junk: seq<byte>)
    requires HeaderEncodable(v) && |junk| == 7 && |s| >= ENTRY && s[..ENTRY] == HeaderBytes(v)
    ensures s[6] <= 7 && WordAt(s, 0x10) == |v.files|
    ensures DecodeHeader(s, junk) == v.(tail := junk[|v.name|..], files := [])
  {
    hide Word, WordAt;
    var h := HeaderBytes(v);
    var first, last, middle := Word(v.firstBlock), Word(v.lastBlock), [v.fileKind % 256, 0, |v.name|];
    var name, size, count := v.name + v.tail, Word(v.lastVolumeBlock), Word(|v.files|);
    var access, boot, rest: seq<byte> := Word(v.accessTime), Word(v.lastBoot), [0, 0, 0, 0];
    var front := first + last + middle + name;
    assert h == front + size + count + access + boot + rest;
    WordOf(h, [], first, h[2..], v.firstBlock);
    WordOf(h, first, last, h[4..], v.lastBlock);
    WordOf(h, front, size, h[16..], v.lastVolumeBlock);
    WordOf(h, front + size, count, h[18..], |v.files|);
    WordOf(h, front + size + count, access, h[20..], v.accessTime);
    WordOf(h, front + size + count + access, boot, h[22..], v.lastBoot);
    assert h[4] == middle[0] && h[6] == middle[2] && h[7..7 + |v.name|] == v.name;
    hide HeaderBytes;
    HeaderRead(s, h);
  }

  /** A header is read from the first bytes of the buffer only. */
  lemma {:induction false} HeaderRead(s: seq<byte>, h: seq<byte>)
    requires |h| == ENTRY <= |s| && s[..ENTRY] == h && h[6] <= 7
    ensures forall o: nat :: o + 2 <= ENTRY ==> WordAt(s, o) == WordAt(h, o)
    ensures s[4] == h[4] && s[6] == h[6] && s[7..7 + h[6]] == h[7..7 + h[6]]
  {
    forall i | 0 <= i < ENTRY ensures s[i] == h[i] {
      assert s[..ENTRY][i] == s[i];
    }
  }

  // ---------------------------------------------------------------- blocks laid end to end

  /** readBlocks: n blocks from b on as one buffer. */
  function Flat(arr: seq<Block>, b: nat, n: nat): (r: seq<byte>)
    requires b + n <= |arr|
    ensures |r| == BLOCK_SIZE * n
  {
    if n == 0 then [] else Flat(arr, b, n - 1) + arr[b + n - 1]
  }

  /** writeBlocks: the buffer back into n blocks from b on. */
  function WriteFlat(arr: seq<Block>, b: nat, n: nat, data: seq<byte>): (r: seq<Block>)
    requires b + n <= |arr| && |data| == BLOCK_SIZE * n
    ensures |r| == |arr|
  {
    if n == 0 then arr
    else WriteFlat(arr, b, n - 1, data[..BLOCK_SIZE * (n - 1)])[b + n - 1 := data[BLOCK_SIZE * (n - 1)..]]
  }

  lemma {:induction false} FlatAt(arr: seq<Block>, b: nat, n: nat, i: nat)
    requires b + n <= |arr| && i < BLOCK_SIZE * n
    ensures Flat(arr, b, n)[i] == arr[b + i / BLOCK_SIZE][i % BLOCK_SIZE]
  {
    if i < BLOCK_SIZE * (n - 1) {
      FlatAt(arr, b, n - 1, i);
    }
  }

  lemma {:induction false} FlatSame(arr: seq<Block>, arr': seq<Block>, b: nat, n: nat)
    requires |arr| == |arr'| && b + n <= |arr| && forall i :: b <= i < b + n ==> arr[i] == arr'[i]
    ensures Flat(arr, b, n) == Flat(arr', b, n)
  {
    if n > 0 {
      FlatSame(arr, arr', b, n - 1);
    }
  }

  /** Writing a buffer and reading it back; no block outside is touched. */
  lemma {:induction false} FlatWritten(arr: seq<Block>, b: nat, n: nat, data: seq<byte>)
    requires b + n <= |arr| && |data| == BLOCK_SIZE * n
    ensures Flat(WriteFlat(arr, b, n, data), b, n) == data
    ensures forall i :: 0 <= i < |arr| && !(b <= i < b + n) ==> WriteFlat(arr, b, n, data)[i] == arr[i]
  {
    if n > 0 {
      var front := data[..BLOCK_SIZE * (n - 1)];
      var w := WriteFlat(arr, b, n - 1, front);
      FlatWritten(arr, b, n - 1, front);
      FlatSame(w, WriteFlat(arr, b, n, data), b, n - 1);
      assert front + data[BLOCK_SIZE * (n - 1)..] == data;
    }
  }

  /** writeEntry: 26 bytes at a byte address, which may straddle two blocks. */
  function WriteEntry(arr: seq<Block>, address: nat, b: seq<byte>): (r: seq<Block>)
    requires |b| == ENTRY && (address + ENTRY - 1) / BLOCK_SIZE < |arr|
    ensures |r| == |arr|
  {
    var start, end, o := address / BLOCK_SIZE, (address + ENTRY - 1) / BLOCK_SIZE, address % BLOCK_SIZE;
    if start == end then arr[start := Splice(arr[start], o, b)]
    else WriteFlat(arr, start, 2, Splice(Flat(arr, start, 2), o, b))
  }

  /** Straddling or not, the entry lands at its address of the buffer and nothing else changes. */
  lemma {:induction false} EntryWritten(arr: seq<Block>, n: nat, p: nat, b: seq<byte>)
    requires DIR_BLOCK + n <= |arr| && |b| == ENTRY && p + ENTRY <= BLOCK_SIZE * n
    ensures (DIRECTORY + p + ENTRY - 1) / BLOCK_SIZE < |arr|
    ensures Flat(WriteEntry(arr, DIRECTORY + p, b), DIR_BLOCK, n) == Splice(Flat(arr, DIR_BLOCK, n), p, b)
    ensures forall i :: 0 <= i < |arr| && !(DIR_BLOCK <= i < DIR_BLOCK + n) ==>
      WriteEntry(arr, DIRECTORY + p, b)[i] == arr[i]
  {
    var start, end, o := (DIRECTORY + p) / BLOCK_SIZE, (DIRECTORY + p + ENTRY - 1) / BLOCK_SIZE, p % BLOCK_SIZE;
    assert start == DIR_BLOCK + p / BLOCK_SIZE && (DIRECTORY + p) % BLOCK_SIZE == o && end <= start + 1;
    var w := WriteEntry(arr, DIRECTORY + p, b);
    if start < end {
      FlatWritten(arr, start, 2, Splice(Flat(arr, start, 2), o, b));
    }
    forall i: nat | i < BLOCK_SIZE * n
      ensures Flat(w, DIR_BLOCK, n)[i] == Splice(Flat(arr, DIR_BLOCK, n), p, b)[i]
    {
      EntryByte(arr, n, p, b, i);
    }
  }

  lemma {:induction false} EntryByte(arr: seq<Block>, n: nat, p: nat, b: seq<byte>, i: nat)
    requires DIR_BLOCK + n <= |arr| && |b| == ENTRY && p + ENTRY <= BLOCK_SIZE * n && i < BLOCK_SIZE * n
    requires (DIRECTORY + p + ENTRY - 1) / BLOCK_SIZE < |arr|
    ensures Flat(WriteEntry(arr, DIRECTORY + p, b), DIR_BLOCK, n)[i] == Splice(Flat(arr, DIR_BLOCK, n), p, b)[i]
  {
    var w := WriteEntry(arr, DIRECTORY + p, b);
    var start, end := (DIRECTORY + p) / BLOCK_SIZE, (DIRECTORY + p + ENTRY - 1) / BLOCK_SIZE;
    FlatAt(w, DIR_BLOCK, n, i);
    FlatAt(arr, DIR_BLOCK, n, i);
    if start < end {
      hide Flat;
      StraddlingByte(arr, n, p, b, i);
    } else {
      hide Flat;
      InsideByte(arr, n, p, b, i);
    }
  }

  lemma {:induction false} InsideByte(arr: seq<Block>, n: nat, p: nat, b: seq<byte>, i: nat)
    requires DIR_BLOCK + n <= |arr| && |b| == ENTRY && p + ENTRY <= BLOCK_SIZE * n && i < BLOCK_SIZE * n
    requires (DIRECTORY + p) / BLOCK_SIZE == (DIRECTORY + p + ENTRY - 1) / BLOCK_SIZE < |arr|
    ensures WriteEntry(arr, DIRECTORY + p, b)[DIR_BLOCK + i / BLOCK_SIZE][i % BLOCK_SIZE] ==
      if p <= i < p + ENTRY then b[i - p] else arr[DIR_BLOCK + i / BLOCK_SIZE][i % BLOCK_SIZE]
  {
    hide Flat, WriteFlat;
    var start, o := DIR_BLOCK + p / BLOCK_SIZE, p % BLOCK_SIZE;
    assert (DIRECTORY + p) / BLOCK_SIZE == start && (DIRECTORY + p) % BLOCK_SIZE == o;
    assert WriteEntry(arr, DIRECTORY + p, b) == arr[start := Splice(arr[start], o, b)];
  }

  lemma {:induction false} StraddlingByte(arr: seq<Block>, n: nat, p: nat, b: seq<byte>, i: nat)
    requires DIR_BLOCK + n <= |arr| && |b| == ENTRY && p + ENTRY <= BLOCK_SIZE * n && i < BLOCK_SIZE * n
    requires (DIRECTORY + p) / BLOCK_SIZE < (DIRECTORY + p + ENTRY - 1) / BLOCK_SIZE < |arr|
    ensures WriteEntry(arr, DIRECTORY + p, b)[DIR_BLOCK + i / BLOCK_SIZE][i % BLOCK_SIZE] ==
      if p <= i < p + ENTRY then b[i - p] else arr[DIR_BLOCK + i / BLOCK_SIZE][i % BLOCK_SIZE]
  {
    hide Flat, WriteFlat;
    var w := WriteEntry(arr, DIRECTORY + p, b);
    var start, o := DIR_BLOCK + p / BLOCK_SIZE, p % BLOCK_SIZE;
    var block, at := DIR_BLOCK + i / BLOCK_SIZE, i % BLOCK_SIZE;
    assert (DIRECTORY + p) / BLOCK_SIZE == start && (DIRECTORY + p) % BLOCK_SIZE == o;
    FlatWritten(arr, start, 2, Splice(Flat(arr, start, 2), o, b));
    if start <= block <= start + 1 {
      var q := BLOCK_SIZE * (block - start) + at;
      FlatAt(w, start, 2, q);
      FlatAt(arr, start, 2, q);
      assert q / BLOCK_SIZE == block - start && q % BLOCK_SIZE == at && q - o == i - p;
    }
  }

  // ---------------------------------------------------------------- entries of the buffer

  function Slot(dir: seq<byte>, k: nat): (r: seq<byte>)
    requires ENTRY * (k + 1) <= |dir|
    ensures |r| == ENTRY
  {
    dir[ENTRY * k..ENTRY * k + ENTRY]
  }

  /** A slice of a buffer that was written into, inside what was written or outside of it. */
  lemma {:induction false} SliceOfSplice(s: seq<byte>, o: nat, b: seq<byte>, x: nat, y: nat)
    requires o + |b| <= |s| && x <= y <= |s|
    ensures o <= x && y <= o + |b| ==> Splice(s, o, b)[x..y] == b[x - o..y - o]
    ensures y <= o || o + |b| <= x ==> Splice(s, o, b)[x..y] == s[x..y]
  {
    var r := Splice(s, o, b);
    if o <= x && y <= o + |b| {
      forall i: nat | i < y - x ensures r[x..y][i] == b[x - o..y - o][i] {
        assert r[x..y][i] == r[x + i] == b[x - o + i];
      }
    }
    if y <= o || o + |b| <= x {
      forall i: nat | i < y - x ensures r[x..y][i] == s[x..y][i] {
        assert r[x..y][i] == r[x + i] == s[x + i];
      }
    }
  }

  lemma {:induction false} SliceOfSlice(s: seq<byte>, i: nat, j: nat, x: nat, y: nat)
    requires i <= j <= |s| && x <= y <= j - i
    ensures s[i..j][x..y] == s[i + x..i + y]
  {
    var l, r := s[i..j][x..y], s[i + x..i + y];
    forall k: nat | k < y - x ensures l[k] == r[k] {
      assert l[k] == s[i..j][x + k] == s[i + x + k];
    }
  }

  lemma {:induction false} SlotSpliced(dir: seq<byte>, k: nat, b: seq<byte>, j: nat)
    requires ENTRY * (k + 1) <= |dir| && ENTRY * (j + 1) <= |dir| && |b| == ENTRY
    ensures Slot(Splice(dir, ENTRY * k, b), j) == if j == k then b else Slot(dir, j)
  {
    hide Splice;
    SliceOfSplice(dir, ENTRY * k, b, ENTRY * j, ENTRY * j + ENTRY);
    assert b[..ENTRY] == b;
  }

  /** memmove of c entries within the buffer. */
  function MoveSlots(dir: seq<byte>, to: nat, from: nat, c: nat): (r: seq<byte>)
    requires ENTRY * (to + c) <= |dir| && ENTRY * (from + c) <= |dir|
    ensures |r| == |dir|
  {
    Splice(dir, ENTRY * to, dir[ENTRY * from..ENTRY * (from + c)])
  }

  lemma {:induction false} SlotMoved(dir: seq<byte>, to: nat, from: nat, c: nat, j: nat)
    requires ENTRY * (to + c) <= |dir| && ENTRY * (from + c) <= |dir| && ENTRY * (j + 1) <= |dir|
    ensures Slot(MoveSlots(dir, to, from, c), j) == if to <= j < to + c then Slot(dir, j - to + from) else Slot(dir, j)
  {
    hide Splice;
    var part := dir[ENTRY * from..ENTRY * (from + c)];
    SliceOfSplice(dir, ENTRY * to, part, ENTRY * j, ENTRY * j + ENTRY);
    if to <= j < to + c {
      SliceOfSlice(dir, ENTRY * from, ENTRY * (from + c), ENTRY * (j - to), ENTRY * (j - to) + ENTRY);
    }
  }
}
