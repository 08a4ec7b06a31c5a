/** The IOBuffer cursor, the file entry object, and how entries are laid out in a byte buffer. */
module PascalEntries {
  import opened Blocks
  import opened PascalVolumeSpec
  import opened PascalDirectory

  /** Two writes one after the other are one write. */
  lemma {:induction false} SpliceTwice(s: seq<byte>, o: nat, a: seq<byte>, b: seq<byte>)
    requires o + |a| + |b| <= |s|
    ensures Splice(Splice(s, o, a), o + |a|, b) == Splice(s, o, a + b)
  {
  }

  method MemMove(buffer: array<byte>, to: nat, from: nat, n: nat)
    requires to + n <= buffer.Length && from + n <= buffer.Length
    modifies buffer
    ensures buffer[..] == Splice(old(buffer[..]), to, old(buffer[from..from + n]))
  {
    forall i | 0 <= i < n {
      buffer[to + i] := buffer[from + i];
    }
  }

  method MemSetZero(buffer: array<byte>, at: nat, n: nat)
    requires at + n <= buffer.Length
    modifies buffer
    ensures buffer[..] == Splice(old(buffer[..]), at, seq(n, _ => 0))
  {
    forall i | 0 <= i < n {
      buffer[at + i] := 0;
    }
  }

  /** A cursor over the bytes of a buffer from base on; its size is recorded but not checked. */
  class IOBuffer {
    const buffer: array<byte>
    const base: nat
    var offset: nat

    constructor (buffer: array<byte>, base: nat)
      ensures this.buffer == buffer && this.base == base && offset == 0
    {
      this.buffer, this.base, offset := buffer, base, 0;
    }

    ghost predicate Room(n: nat)
      reads this
    {
      base + offset + n <= buffer.Length
    }

    method Write8(value: nat)
      requires Room(1)
      modifies this`offset, buffer
      ensures offset == old(offset) + 1
      ensures buffer[..] == Splice(old(buffer[..]), base + old(offset), [value % 256])
    {
      buffer[base + offset] := value % 256;
      offset := offset + 1;
    }

    method Write16(value: nat)
      requires Room(2)
      modifies this`offset, buffer
      ensures offset == old(offset) + 2
      ensures buffer[..] == Splice(old(buffer[..]), base + old(offset), Word(value))
    {
      buffer[base + offset] := value % 256;
      buffer[base + offset + 1] := value / 256 % 256;
      offset := offset + 2;
    }

    method WriteBytes(src: seq<byte>)
      requires Room(|src|)
      modifies this`offset, buffer
      ensures offset == old(offset) + |src|
      ensures buffer[..] == Splice(old(buffer[..]), base + old(offset), src)
    {
      forall i | 0 <= i < |src| {
        buffer[base + offset + i] := src[i];
      }
      offset := offset + |src|;
    }

    method WriteZero(count: nat)
      requires Room(count)
      modifies this`offset, buffer
      ensures offset == old(offset) + count
      ensures buffer[..] == Splice(old(buffer[..]), base + old(offset), seq(count, _ => 0))
    {
      MemSetZero(buffer, base + offset, count);
      offset := offset + count;
    }

    method SetOffset(offset: nat)
      modifies this`offset
      ensures this.offset == offset
    {
      this.offset := offset;
    }
  }

  /** Entry::writeDirectoryEntry: the five bytes every entry starts with. */
  method WriteEntryStart(b: IOBuffer, firstBlock: nat, lastBlock: nat, fileKind: nat)
    requires b.Room(5)
    modifies b`offset, b.buffer
    ensures b.offset == old(b.offset) + 5
    ensures b.buffer[..] == Splice(old(b.buffer[..]), b.base + old(b.offset),
      Word(firstBlock) + Word(lastBlock) + [fileKind % 256])
  {
    hide Splice, Word;
    ghost var s, o := b.buffer[..], b.base + b.offset;
    b.Write16(firstBlock);
    b.Write16(lastBlock);
    SpliceTwice(s, o, Word(firstBlock), Word(lastBlock));
    b.Write8(fileKind);
    SpliceTwice(s, o, Word(firstBlock) + Word(lastBlock), [fileKind % 256]);
  }

  /** The volume's size, file count and two dates, one after the other. */
  method WriteFourWords(b: IOBuffer, w0: nat, w1: nat, w2: nat, w3: nat)
    requires b.Room(8)
    modifies b`offset, b.buffer
    ensures b.offset == old(b.offset) + 8
    ensures b.buffer[..] == Splice(old(b.buffer[..]), b.base + old(b.offset), Word(w0) + Word(w1) + Word(w2) + Word(w3))
  {
    hide Splice, Word;
    ghost var s, o := b.buffer[..], b.base + b.offset;
    b.Write16(w0);
    b.Write16(w1);
    SpliceTwice(s, o, Word(w0), Word(w1));
    b.Write16(w2);
    SpliceTwice(s, o, Word(w0) + Word(w1), Word(w2));
    b.Write16(w3);
    SpliceTwice(s, o, Word(w0) + Word(w1) + Word(w2), Word(w3));
  }

  class FileEntry {
    var firstBlock: nat
    var lastBlock: nat
    var fileKind: nat
    var status: bool
    var name: seq<byte>
    var lastByte: nat
    var modification: nat
    var maxFileSize: nat
    var address: nat

    ghost predicate Is(f: File)
      reads this
    {
      f == File(firstBlock, lastBlock, fileKind, status, name, lastByte, modification, maxFileSize, address)
    }

    function Value(): (f: File)
      reads this
      ensures Is(f)
    {
      File(firstBlock, lastBlock, fileKind, status, name, lastByte, modification, maxFileSize, address)
    }

    /** FileEntry(name, kind): no blocks yet. */
    constructor (name: seq<byte>, fileKind: nat, today: nat)
      ensures Is(File(0, 0, fileKind, false, Upper(name), 0, today, 0, 0))
    {
      firstBlock, lastBlock := 0, 0;
      this.fileKind := fileKind;
      status := false;
      this.name := Upper(name);
      lastByte := 0;
      modification := today;
      maxFileSize := 0;
      address := 0;
    }

    /** FileEntry(void *) and the address its volume gives it. */
    constructor Open(s: seq<byte>, address: nat)
      requires |s| == ENTRY && s[6] <= 15
      ensures Is(DecodeFile(s, address))
    {
      firstBlock := WordAt(s, 0);
      lastBlock := WordAt(s, 2);
      fileKind := s[4];
      status := s[5] % 2 == 1;
      name := s[7..7 + s[6]];
      lastByte := WordAt(s, 0x16);
      modification := WordAt(s, 0x18);
      maxFileSize := 0;
      this.address := address;
    }

    method WriteDirectoryEntry(b: IOBuffer, ghost f: File)
      requires Is(f) && |name| <= 15 && b.Room(ENTRY)
      modifies b`offset, b.buffer
      ensures b.offset == old(b.offset) + ENTRY
      ensures b.buffer[..] == Splice(old(b.buffer[..]), b.base + old(b.offset), FileBytes(f))
    {
      hide Splice, Word, Padded;
      ghost var s, o := b.buffer[..], b.base + b.offset;
      WriteEntryStart(b, firstBlock, lastBlock, fileKind);
      ghost var done := Word(firstBlock) + Word(lastBlock) + [fileKind % 256];
      b.Write8(if status then 1 else 0);
      SpliceTwice(s, o, done, [if status then 1 else 0]);
      done := done + [if status then 1 else 0];
      b.Write8(|name|);
      SpliceTwice(s, o, done, [|name|]);
      done := done + [|name|];
      b.WriteBytes(Padded(name, 15));
      SpliceTwice(s, o, done, Padded(name, 15));
      done := done + Padded(name, 15);
      b.Write16(lastByte);
      SpliceTwice(s, o, done, Word(lastByte));
      done := done + Word(lastByte);
      b.Write16(modification);
      SpliceTwice(s, o, done, Word(modification));
      assert done + Word(modification) == FileBytes(f);
    }
  }
}
