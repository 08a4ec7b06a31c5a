/** The directory of a Pascal volume byte by byte: where every field of every entry lies on the disk. */
module PascalBytes {
  import opened Blocks
  import opened PascalVolumeSpec
  import opened PascalDirectory
  import opened PascalDisk

  /** Bytes o and o + 1 hold x, low byte first. */
  predicate HoldsWord(s: seq<byte>, o: nat, x: nat)
    requires o + 2 <= |s|
  {
    s[o] as int == x % 256 && s[o + 1] as int == x / 256
  }

  predicate AllZero(s: seq<byte>, from: nat, to: nat)
    requires to <= |s|
  {
    forall i :: from <= i < to ==> s[i] == 0
  }

  lemma {:induction false} WordBytes(s: seq<byte>, before: seq<byte>, word: seq<byte>, after: seq<byte>, x: nat)
    requires x < WORD16 && word == Word(x) && s == before + word + after
    ensures HoldsWord(s, |before|, x)
  {
    assert s[|before|] == word[0] && s[|before| + 1] == word[1];
  }

  /** A file entry: first and last block, kind, status, length of the name and the name, last byte and date. */
  lemma {:induction false} FileLayout(f: File)
    requires FileEncodable(f)
    ensures var s := FileBytes(f);
      && |s| == 26 && HoldsWord(s, 0, f.firstBlock) && HoldsWord(s, 2, f.lastBlock)
      && s[4] as int == f.fileKind && s[5] == (if f.status then 1 else 0)
      && s[6] as int == |f.name| && s[7..7 + |f.name|] == f.name && AllZero(s, 7 + |f.name|, 22)
      && HoldsWord(s, 22, f.lastByte) && HoldsWord(s, 24, f.modification)
  {
    hide Word, Padded;
    var s := FileBytes(f);
    var first, last := Word(f.firstBlock), Word(f.lastBlock);
    var middle := [f.fileKind % 256, if f.status then 1 else 0, |f.name|];
    var name, end, date := Padded(f.name, 15), Word(f.lastByte), Word(f.modification);
    assert s == first + last + middle + name + end + date;
    WordBytes(s, [], first, s[2..], f.firstBlock);
    WordBytes(s, first, last, s[4..], f.lastBlock);
    WordBytes(s, first + last + middle + name, end, s[24..], f.lastByte);
    WordBytes(s, first + last + middle + name + end, date, s[26..], f.modification);
    assert s[4] == middle[0] && s[5] == middle[1] && s[6] == middle[2];
    NameBytes(f.name, s, first + last + middle, end + date);
  }

  lemma {:induction false} NameBytes(name: seq<byte>, s: seq<byte>, before: seq<byte>, after: seq<byte>)
    requires |name| <= 15 && |before| == 7 && s == before + Padded(name, 15) + after
    ensures s[7..7 + |name|] == name && AllZero(s, 7 + |name|, 22)
  {
    var p := Padded(name, 15);
    forall i: nat | i < |name| ensures s[7..7 + |name|][i] == name[i] {
      assert s[7 + i] == p[i];
    }
    forall i | 7 + |name| <= i < 22 ensures s[i] == 0 {
      assert s[i] == p[i - 7];
    }
  }

  /**
   The header: first and last block of the directory, kind, name, blocks of the volume, number of files,
   access time and date, zeros.
   */
  lemma {:induction false} HeaderLayout(v: Volume)
    requires HeaderEncodable(v)
    ensures var s := HeaderBytes(v);
      && |s| == 26 && HoldsWord(s, 0, v.firstBlock) && HoldsWord(s, 2, v.lastBlock)
      && s[4] as int == v.fileKind && s[5] == 0 && s[6] as int == |v.name| && s[7..14] == v.name + v.tail
      && HoldsWord(s, 14, v.lastVolumeBlock) && HoldsWord(s, 16, |v.files|)
      && HoldsWord(s, 18, v.accessTime) && HoldsWord(s, 20, v.lastBoot) && AllZero(s, 22, 26)
  {
    hide Word;
    var h := HeaderBytes(v);
    var first, last, middle := Word(v.firstBlock), Word(v.lastBlock), [v.fileKind % 256, 0, |v.name|];
    var name, size, count := v.name + v.tail, Word(v.lastVolumeBlock), Word(|v.files|);
    var access, boot, rest: seq<byte> := Word(v.accessTime), Word(v.lastBoot), [0, 0, 0, 0];
    var front := first + last + middle + name;
    assert h == front + size + count + access + boot + rest;
    WordBytes(h, [], first, h[2..], v.firstBlock);
    WordBytes(h, first, last, h[4..], v.lastBlock);
    WordBytes(h, front, size, h[16..], v.lastVolumeBlock);
    WordBytes(h, front + size, count, h[18..], |v.files|);
    WordBytes(h, front + size + count, access, h[20..], v.accessTime);
    WordBytes(h, front + size + count + access, boot, h[22..], v.lastBoot);
    assert h[4] == middle[0] && h[5] == middle[1] && h[6] == middle[2] && h[7..14] == name;
    forall i | 22 <= i < 26 ensures h[i] == 0 {
      assert h[i] == rest[i - 22];
    }
  }

  /** Byte i of the directory, which begins in block 2 of the disk. */
  function DirByte(arr: seq<Block>, i: nat): byte
    requires 2 + i / 512 < |arr|
  {
    arr[2 + i / 512][i % 512]
  }

  lemma {:induction false} SlotByte(arr: seq<Block>, v: Volume, k: nat, i: nat)
    requires DirOk(arr, v) && k <= 77 && i < 26
    ensures 2 + (26 * k + i) / 512 < |arr| && DirByte(arr, 26 * k + i) == Slot(Dir(arr), k)[i]
  {
    hide HeaderBytes, EntriesOk;
    FlatAt(arr, DIR_BLOCK, STANDARD_BLOCKS, 26 * k + i);
  }

  /** A directory that agrees with the volume: the header first, file k in the 26 bytes from 26 (k + 1) on. */
  lemma {:induction false} DirectoryBytes(arr: seq<Block>, v: Volume, i: nat)
    requires DirOk(arr, v) && i < 26 * (|v.files| + 1)
    ensures |v.name| + |v.tail| == 7 && |v.files| <= 77 && 2 + i / 512 < |arr|
    ensures i < 26 ==> DirByte(arr, i) == HeaderBytes(v)[i]
    ensures i >= 26 ==>
      |v.files[i / 26 - 1].name| <= 15 && DirByte(arr, i) == FileBytes(v.files[i / 26 - 1])[i % 26]
  {
    SlotByte(arr, v, i / 26, i % 26);
    hide HeaderBytes, FileBytes, Slot, Dir;
    if i >= 26 {
      assert EntryOk(Dir(arr), v.files, i / 26 - 1);
    }
  }
}
