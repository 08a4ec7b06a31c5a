/** The volume object: its file entries on the heap, its blocks behind the cache. */
module PascalVolume {
  import opened Blocks
  import opened CacheRefinement
  import opened BlockCache
  import opened PascalVolumeSpec
  import opened PascalDirectory
  import opened PascalDisk
  import opened PascalDiskRuns
  import opened PascalEntries
  import opened PascalBlocks
  import PascalOperations
  import PascalCopy

  /** The first k files with new addresses. */
  ghost function RenumberedTo(vs: seq<File>, k: nat): (r: seq<File>)
    ensures |r| == |vs|
  {
    seq(|vs|, i requires 0 <= i < |vs| => if i < k then vs[i].(address := DIRECTORY + ENTRY * (i + 1)) else vs[i])
  }

  /** The files from k on with their limits. */
  ghost function LimitedFrom(v: Volume, k: nat): (r: seq<File>)
    requires v.files == [] || ExtentsOk(v)
    ensures |r| == |v.files|
  {
    seq(|v.files|, i requires 0 <= i < |v.files| => if i >= k then Limited(v, i) else v.files[i])
  }

  ghost predicate Movable(vs: seq<File>, k: nat) {
    forall j :: k <= j < |vs| ==> vs[j].address >= ENTRY
  }

  /** The files from k up to i moved down. */
  ghost function MovedTo(vs: seq<File>, k: nat, i: nat): (r: seq<File>)
    requires Movable(vs, k)
    ensures |r| == |vs|
  {
    seq(|vs|, j requires 0 <= j < |vs| => if k <= j < i then Moved(vs[j]) else vs[j])
  }

  class VolumeEntry {
    const readOnly: bool
    const cache: ConcreteBlockCache
    var firstBlock: nat
    var lastBlock: nat
    var fileKind: nat
    var name: seq<byte>
    var tail: seq<byte>
    var lastVolumeBlock: nat
    var fileCount: nat
    var accessTime: nat
    var lastBoot: nat
    var files: seq<FileEntry>

    ghost var entries: set<FileEntry>
    ghost var volume: Volume
    ghost var plain: Plain

    ghost predicate HeaderIs(v: Volume)
      reads `firstBlock, `lastBlock, `fileKind, `name, `tail, `lastVolumeBlock, `accessTime, `lastBoot
    {
      && firstBlock == v.firstBlock && lastBlock == v.lastBlock && fileKind == v.fileKind && name == v.name
      && tail == v.tail && lastVolumeBlock == v.lastVolumeBlock && accessTime == v.accessTime && lastBoot == v.lastBoot
    }

    /** The files hold the values vs, and no two are the same object. */
    ghost predicate FilesAre(vs: seq<File>)
      reads this`files, this`entries, entries
    {
      && |files| == |vs|
      && (forall k :: 0 <= k < |files| ==> files[k] in entries && files[k].Is(vs[k]))
      && (forall i, j :: 0 <= i < j < |files| ==> files[i] != files[j])
    }

    ghost predicate Holds(v: Volume)
      reads this, entries
    {
      HeaderIs(v) && FilesAre(v.files) && fileCount == |v.files|
    }

    /** The object holds volume, the cache stands for plain, and the directory is where create and unlink expect it. */
    ghost predicate Valid()
      reads this, entries, cache, cache.hashTable, cache.device, cache.entries, cache.list
    {
      && Holds(volume) && CacheIs(cache, plain) && PlainOk(plain)
      && Standard(volume, plain.arr) && NamesFit(volume.files)
    }

    /** The fields of the header, no files yet. */
    constructor (cache: ConcreteBlockCache, readOnly: bool, v: Volume, ghost a: Plain)
      requires v.files == []
      ensures this.cache == cache && this.readOnly == readOnly && volume == v && plain == a
      ensures Holds(v) && entries == {} && files == []
    {
      this.cache, this.readOnly := cache, readOnly;
      firstBlock, lastBlock, fileKind, name, tail := v.firstBlock, v.lastBlock, v.fileKind, v.name, v.tail;
      lastVolumeBlock, accessTime, lastBoot := v.lastVolumeBlock, v.accessTime, v.lastBoot;
      fileCount, files, entries, volume, plain := 0, [], {}, v, a;
    }

    // -------------------------------------------------------------- queries

    method FileByName(name: seq<byte>) returns (k: nat)
      requires Holds(volume)
      ensures k == FindName(volume.files, name)
    {
      hide Key;
      k := 0;
      while k < |files|
        invariant k <= |files|
        invariant forall j :: 0 <= j < k ==> !SameName(name, volume.files[j].name)
      {
        assert files[k].Is(volume.files[k]);
        if SameName(name, files[k].name) {
          PascalOperations.FindExactly(volume.files, name, k);
          return;
        }
        k := k + 1;
      }
    }

    method FreeBlocks(krunched: bool) returns (freeBlocks: int)
      requires Holds(volume)
      ensures freeBlocks == PascalVolumeSpec.FreeBlocks(volume, krunched)
    {
      freeBlocks := 0;
      var last := lastBlock;
      if krunched {
        for k := 0 to |files|
          invariant freeBlocks == GapSum(volume, k) && last == PrevLast(volume, k)
        {
          assert files[k].Is(volume.files[k]);
          freeBlocks := freeBlocks + files[k].firstBlock - last;
          last := files[k].lastBlock;
        }
      } else if fileCount > 0 {
        assert files[|files| - 1].Is(volume.files[|files| - 1]);
        last := files[|files| - 1].lastBlock;
      }
      freeBlocks := freeBlocks + lastVolumeBlock - last;
    }

    method MaxContiguousBlocks() returns (max: int)
      requires Holds(volume)
      ensures max == PascalVolumeSpec.MaxContiguousBlocks(volume)
    {
      max := 0;
      var last := lastBlock;
      for k := 0 to |files|
        invariant max == MaxGap(volume, k) && last == PrevLast(volume, k)
      {
        assert files[k].Is(volume.files[k]);
        var free := files[k].firstBlock - last;
        max := if max < free then free else max;
        last := files[k].lastBlock;
      }
      max := if max < lastVolumeBlock - last then lastVolumeBlock - last else max;
    }

    // -------------------------------------------------------------- the list of files

    method SetLimit(e: FileEntry, limit: nat, ghost k: nat, ghost vs: seq<File>)
      requires FilesAre(vs) && k < |files| && e == files[k]
      modifies e`maxFileSize
      ensures FilesAre(vs[k := vs[k].(maxFileSize := limit)])
    {
      assert e.Is(vs[k]);
      e.maxFileSize := limit;
    }

    method InsertFile(k: nat, e: FileEntry, ghost vs: seq<File>, ghost f: File)
      requires FilesAre(vs) && k <= |files| && e !in entries && e.Is(f)
      modifies this`files, this`entries
      ensures FilesAre(vs[..k] + [f] + vs[k..]) && entries == old(entries) + {e} && files[k] == e
    {
      files := files[..k] + [e] + files[k..];
      entries := entries + {e};
    }

    method SetAddress(e: FileEntry, address: nat, ghost k: nat, ghost vs: seq<File>)
      requires FilesAre(vs) && k < |files| && e == files[k]
      modifies e`address
      ensures FilesAre(vs[k := vs[k].(address := address)])
    {
      assert e.Is(vs[k]);
      e.address := address;
    }

    lemma FileAt(k: nat, vs: seq<File>)
      requires FilesAre(vs) && k < |vs|
      ensures |files| == |vs| && files[k] in entries && files[k].Is(vs[k])
    {
    }

    lemma FileCounts(vs: seq<File>)
      requires FilesAre(vs)
      ensures |files| == |vs|
    {
    }

    /** All addresses afresh. */
    method Renumber(ghost vs: seq<File>)
      requires FilesAre(vs)
      modifies entries`address
      ensures FilesAre(Renumbered(vs))
    {
      hide FilesAre;
      var address := DIRECTORY + ENTRY;
      FileCounts(vs);
      assert RenumberedTo(vs, 0) == vs;
      for k := 0 to |files|
        invariant address == DIRECTORY + ENTRY * (k + 1) && |files| == |vs|
        invariant FilesAre(RenumberedTo(vs, k))
      {
        FileAt(k, RenumberedTo(vs, k));
        SetAddress(files[k], address, k, RenumberedTo(vs, k));
        assert RenumberedTo(vs, k + 1) == RenumberedTo(vs, k)[k := vs[k].(address := address)];
        address := address + ENTRY;
      }
      assert RenumberedTo(vs, |vs|) == Renumbered(vs);
    }

    /** The entries from k on move down by one place. */
    method MoveAddresses(k: nat, ghost vs: seq<File>)
      requires FilesAre(vs) && k <= |vs| && Movable(vs, k)
      modifies entries`address
      ensures FilesAre(MovedTo(vs, k, |vs|))
    {
      hide FilesAre;
      FileCounts(vs);
      assert MovedTo(vs, k, k) == vs;
      for i := k to |files|
        invariant |files| == |vs| && FilesAre(MovedTo(vs, k, i))
      {
        FileAt(i, MovedTo(vs, k, i));
        SetAddress(files[i], files[i].address - ENTRY, i, MovedTo(vs, k, i));
        assert MovedTo(vs, k, i + 1) == MovedTo(vs, k, i)[i := Moved(vs[i])];
      }
    }

    /** calcMaxFileSize: from the last file to the first. */
    method CalcMaxFileSize(ghost v: Volume)
      requires lastVolumeBlock == v.lastVolumeBlock && FilesAre(v.files) && (v.files == [] || ExtentsOk(v))
      modifies entries`maxFileSize
      ensures FilesAre(WithLimits(v).files)
    {
      hide FilesAre, ExtentsOk, Limited;
      FileCounts(v.files);
      var block := lastVolumeBlock;
      var k: nat := |files|;
      assert LimitedFrom(v, k) == v.files;
      while k > 0
        invariant k <= |v.files| == |files| && lastVolumeBlock == v.lastVolumeBlock
        invariant FilesAre(LimitedFrom(v, k)) && block == NextFirst(v, k)
      {
        k := k - 1;
        ghost var before := LimitedFrom(v, k + 1);
        FileAt(k, before);
        LimitAt(v, k);
        SetLimit(files[k], (block - files[k].firstBlock) * 512, k, before);
        assert LimitedFrom(v, k) == before[k := Limited(v, k)];
        block := files[k].firstBlock;
      }
      assert LimitedFrom(v, 0) == WithLimits(v).files;
    }

    // -------------------------------------------------------------- the header entry

    method WriteDirectoryEntry(b: IOBuffer, ghost v: Volume)
      requires HeaderIs(v) && fileCount == |v.files| && |v.name| + |v.tail| == 7 && b.Room(ENTRY)
      modifies b`offset, b.buffer
      ensures b.offset == old(b.offset) + ENTRY
      ensures b.buffer[..] == Splice(old(b.buffer[..]), b.base + old(b.offset), HeaderBytes(v))
    {
      hide Splice, Word;
      ghost var s, o := b.buffer[..], b.base + b.offset;
      WriteEntryStart(b, firstBlock, lastBlock, fileKind);
      ghost var done := Word(firstBlock) + Word(lastBlock) + [fileKind % 256];
      b.Write8(0);
      SpliceTwice(s, o, done, [0]);
      done := done + [0];
      b.Write8(|name|);
      SpliceTwice(s, o, done, [|name|]);
      done := done + [|name|];
      b.WriteBytes(name + tail);
      SpliceTwice(s, o, done, name + tail);
      done := done + (name + tail);
      ghost var words := Word(lastVolumeBlock) + Word(fileCount) + Word(accessTime) + Word(lastBoot);
      WriteFourWords(b, lastVolumeBlock, fileCount, accessTime, lastBoot);
      SpliceTwice(s, o, done, words);
      done := done + words;
      b.WriteZero(4);
      SpliceTwice(s, o, done, [0, 0, 0, 0]);
      assert seq(4, _ => 0) == [0, 0, 0, 0];
      assert done + [0, 0, 0, 0] == HeaderBytes(v);
    }

    /** All blocks the header entry spans, as one buffer. */
    method ReadDirectoryHeader(ghost v: Volume, ghost a: Plain) returns (buffer: array<byte>)
      requires HeaderIs(v) && CacheIs(cache, a) && Standard(v, a.arr)
      modifies cache, cache.hashTable, cache.device, cache.entries
      ensures CacheIs(cache, a) && fresh(buffer) && buffer[..] == Dir(a.arr)
      ensures fresh(cache.entries - old(cache.entries))
    {
      hide CacheIs;
      buffer := ReadBlocks(cache, DIR_BLOCK, lastBlock - firstBlock, a);
    }

    /** writeEntry() */
    method WriteHeader(ghost v: Volume, ghost a: Plain)
      requires HeaderIs(v) && fileCount == |v.files| && |v.name| + |v.tail| == 7
      requires CacheIs(cache, a) && DIR_BLOCK < |a.arr|
      modifies cache, cache.hashTable, cache.device, cache.entries
      ensures CacheIs(cache, a.(arr := WriteEntry(a.arr, DIRECTORY, HeaderBytes(v))))
      ensures fresh(cache.entries - old(cache.entries))
    {
      hide CacheIs, Splice, HeaderBytes, PlainOk, Holding, Pinned;
      CacheFacts(cache, a);
      var entry := LoadBlock(cache, DIR_BLOCK, a);
      var buffer := BlockBuffer(entry.buffer);
      var b := new IOBuffer(buffer, 0);
      WriteDirectoryEntry(b, v);
      StoreAndUnload(cache, entry, DIR_BLOCK, buffer[..], a);
    }

    // -------------------------------------------------------------- create

    /** The first gap before a file with room; |files| if only the end is left to try. */
    method FindGap(blocks: nat) returns (k: nat, last: nat)
      requires Holds(volume) && VolumeOk(volume)
      ensures k <= |files| == |volume.files| && last == PrevLast(volume, k)
      ensures FirstFit(volume, 0, blocks) == FirstFit(volume, k, blocks)
      ensures k < |files| ==> FirstFit(volume, 0, blocks) == k
    {
      hide VolumeOk;
      k, last := 0, lastBlock;
      while k < |files|
        invariant k <= |files| == |volume.files| && last == PrevLast(volume, k)
        invariant FirstFit(volume, 0, blocks) == FirstFit(volume, k, blocks)
      {
        FileAt(k, volume.files);
        var freeSpace := files[k].firstBlock - last;
        if freeSpace >= blocks {
          return;
        }
        last := files[k].lastBlock;
        k := k + 1;
      }
    }

    /** The file before gap k, if any, can no longer grow. */
    method CapBefore(k: nat, ghost v: Volume)
      requires FilesAre(v.files) && VolumeOk(v) && k <= |v.files|
      modifies entries`maxFileSize
      ensures k > 0 ==> ExtentOk(v, k - 1)
      ensures FilesAre(Capped(v.files, k))
    {
      hide FilesAre, VolumeOk;
      if k > 0 {
        OkAt(v, k - 1);
        FileAt(k - 1, v.files);
        SetLimit(files[k - 1], (files[k - 1].lastBlock - files[k - 1].firstBlock) * 512, k - 1, v.files);
      }
    }

    /** Gives the new entry its block. */
    static method FillEntry(e: FileEntry, k: nat, last: nat, freeSpace: nat, ghost v: Volume, ghost name: seq<byte>,
                            ghost today: nat)
      requires k <= |v.files| && last == PrevLast(v, k) && freeSpace == Gap(v, k)
      requires e.Is(File(0, 0, UNTYPED, false, Upper(name), 0, today, 0, 0))
      modifies e
      ensures e.Is(NewFile(v, k, name, today))
    {
      hide Upper, PrevLast, Gap;
      e.firstBlock, e.lastBlock, e.lastByte, e.maxFileSize := last, last + 1, 0, freeSpace * 512;
      e.address := DIRECTORY + ENTRY * (k + 1);
    }

    /** Puts the new entry into the list as file k, at the start of a gap of freeSpace blocks. */
    method PlaceFile(e: FileEntry, k: nat, last: nat, freeSpace: nat, ghost v: Volume, ghost name: seq<byte>,
                     ghost today: nat)
      requires Holds(v) && VolumeOk(v) && k <= |v.files| && e !in entries
      requires last == PrevLast(v, k) && freeSpace == Gap(v, k)
      requires e.Is(File(0, 0, UNTYPED, false, Upper(name), 0, today, 0, 0))
      modifies this`files, this`entries, this`fileCount, entries, e
      ensures Holds(Inserted(v, k, NewFile(v, k, name, today))) && entries == old(entries) + {e}
      ensures |files| == |v.files| + 1 && files[k] == e && e.Is(NewFile(v, k, name, today))
    {
      hide FilesAre, VolumeOk, Renumbered, Upper, PrevLast, Gap, Capped, FileEntry.Is;
      ghost var f := NewFile(v, k, name, today);
      FileCounts(v.files);
      CapBefore(k, v);
      ghost var capped := Capped(v.files, k);
      var gap := k < |files|;
      FillEntry(e, k, last, freeSpace, v, name, today);
      InsertFile(k, e, capped, f);
      fileCount := fileCount + 1;
      if gap {
        Renumber(capped[..k] + [f] + capped[k..]);
      }
      InsertedFiles(v, k, f, k);
      FileAt(k, Inserted(v, k, f).files);
    }

    /** The directory with the new entry in front of others: moved, written and put back as a whole. */
    method WriteInserted(e: FileEntry, k: nat, buffer: array<byte>, ghost v: Volume, ghost w: Volume, ghost a: Plain)
      requires CacheIs(cache, a) && Standard(v, a.arr) && buffer[..] == Dir(a.arr)
      requires HeaderIs(w) && fileCount == |w.files| == |v.files| + 1 && k < |v.files| < MAX_FILES && HeaderEncodable(w)
      requires e.Is(w.files[k]) && e.address == DIRECTORY + ENTRY * (k + 1) && |e.name| <= 15
      modifies buffer, cache, cache.hashTable, cache.device, cache.entries
      ensures CacheIs(cache, a.(arr := WriteFlat(a.arr, DIR_BLOCK, STANDARD_BLOCKS, InsertedDir(Dir(a.arr), v, w, k))))
      ensures fresh(cache.entries - old(cache.entries))
    {
      hide CacheIs, Splice, HeaderBytes, FileBytes, PlainOk, Flat, WriteFlat;
      ghost var d := Dir(a.arr);
      var offset := ENTRY * (k + 1);
      var count := fileCount - k - 1;
      assert d[offset..offset + ENTRY * count] == buffer[offset..offset + ENTRY * count];
      MemMove(buffer, offset + ENTRY, offset, ENTRY * count);
      assert buffer[..] == MoveSlots(d, k + 2, k + 1, |v.files| - k);
      var b := new IOBuffer(buffer, 0);
      WriteDirectoryEntry(b, w);
      b.SetOffset(e.address - DIRECTORY);
      e.WriteDirectoryEntry(b, w.files[k]);
      WriteBlocks(cache, buffer, DIR_BLOCK, STANDARD_BLOCKS, a);
    }

    /** What create writes: the whole directory, or the new entry at the end and the header. */
    method WriteCreated(e: FileEntry, k: nat, gap: bool, buffer: array<byte>, ghost v: Volume, ghost w: Volume,
                        ghost a: Plain)
      requires CacheIs(cache, a) && Standard(v, a.arr) && Standard(w, a.arr) && buffer[..] == Dir(a.arr)
      requires HeaderIs(w) && fileCount == |w.files| == |v.files| + 1 && k <= |v.files| < MAX_FILES
      requires gap == (k < |v.files|) && e.Is(w.files[k]) && e.address == DIRECTORY + ENTRY * (k + 1) && |e.name| <= 15
      modifies buffer, cache, cache.hashTable, cache.device, cache.entries
      ensures CacheIs(cache, a.(arr := CreateDisk(a.arr, v, w, k)))
      ensures fresh(cache.entries - old(cache.entries))
    {
      hide CacheIs, HeaderBytes, FileBytes, PlainOk, InsertedDir, Dir, WriteFlat;
      ghost var f := w.files[k];
      if gap {
        WriteInserted(e, k, buffer, v, w, a);
      } else {
        WriteFileEntry(cache, e, f, a);
        WriteHeader(w, a.(arr := WriteEntry(a.arr, f.address, FileBytes(f))));
      }
    }

    /** create(name, blocks): today is the date the entry gets. */
    method Create(name: seq<byte>, blocks: nat, today: nat) returns (r: Result<FileEntry>)
      requires Valid() && VolumeOk(volume)
      modifies this, entries, cache, cache.hashTable, cache.device, cache.entries
      ensures Valid() && fresh(entries - old(entries)) && fresh(cache.entries - old(cache.entries))
      ensures var s := Mounted(old(volume), old(plain.arr));
        var c := PascalOperations.Create(s.volume, readOnly, name, blocks, today);
        && Mounted(volume, plain.arr) == AfterCreate(s, readOnly, name, blocks, today)
        && plain == old(plain).(arr := plain.arr)
        && match c
           case Err(errno) => r == Err(errno)
           case Ok(_) =>
             var k := FirstFit(s.volume, 0, blocks);
             r.Ok? && k < |files| && r.value == files[k] && cache.device.blocks == plain.arr
    {
      hide FilesAre, CacheIs, PlainOk, VolumeOk, Inserted, NewFile, ValidName, FindName, FirstFit, CreateDisk, Standard;
      if readOnly {
        return Err(EROFS);
      }
      FileCounts(volume.files);
      if fileCount == MAX_FILES {
        return Err(ENOSPC);
      }
      if !ValidName(name) {
        return Err(EINVAL);
      }
      var found := FileByName(name);
      if found < |files| {
        return Err(EEXIST);
      }
      CountOk(volume);
      r := CreateFresh(name, blocks, today);
    }

    /** create once the name is known to be fresh. */
    method CreateFresh(name: seq<byte>, blocks: nat, today: nat) returns (r: Result<FileEntry>)
      requires Valid() && VolumeOk(volume) && !readOnly && |volume.files| < MAX_FILES && ValidName(name)
      requires FindName(volume.files, name) == |volume.files|
      modifies this, entries, cache, cache.hashTable, cache.device, cache.entries
      ensures Valid() && fresh(entries - old(entries)) && fresh(cache.entries - old(cache.entries))
      ensures var s := Mounted(old(volume), old(plain.arr)); var k := FirstFit(s.volume, 0, blocks);
        && Mounted(volume, plain.arr) == AfterCreate(s, readOnly, name, blocks, today)
        && plain == old(plain).(arr := plain.arr)
        && (r.Ok? <==> k <= |s.volume.files|)
        && (r.Err? ==> r == Err(ENOSPC))
        && (r.Ok? ==> k < |files| && r.value == files[k] && cache.device.blocks == plain.arr)
    {
      hide FilesAre, CacheIs, PlainOk, VolumeOk, Inserted, NewFile, ValidName, FindName, CreateDisk, AfterCreate, Gap;
      hide HeaderIs, NamesFit, Flat;
      var e := new FileEntry(name, UNTYPED, today);
      var buffer := ReadDirectoryHeader(volume, plain);
      var k, last := FindGap(blocks);
      var end := Limit(k);
      AfterCreateIs(Mounted(volume, plain.arr), name, blocks, today);
      if k == |files| && end - last < blocks {
        return Err(ENOSPC);
      }
      Insertable(volume, k, name, today, plain.arr);
      AddFile(e, k, last, end - last, buffer, name, today);
      r := Ok(e);
    }

    /** The first block after gap k. */
    method Limit(k: nat) returns (end: nat)
      requires Holds(volume) && k <= |files|
      ensures k <= |volume.files| && end == NextFirst(volume, k) && Gap(volume, k) == end - PrevLast(volume, k)
    {
      hide FilesAre;
      FileCounts(volume.files);
      if k < |files| {
        FileAt(k, volume.files);
        end := files[k].firstBlock;
      } else {
        end := lastVolumeBlock;
      }
    }

    /** The new entry goes into the list and into the directory, and everything to the device. */
    method AddFile(e: FileEntry, k: nat, last: nat, freeSpace: nat, buffer: array<byte>, ghost name: seq<byte>,
                   ghost today: nat)
      requires Valid() && VolumeOk(volume) && |volume.files| < MAX_FILES && ValidName(name) && k <= |volume.files|
      requires last == PrevLast(volume, k) && freeSpace == Gap(volume, k) && e !in entries
      requires e.Is(File(0, 0, UNTYPED, false, Upper(name), 0, today, 0, 0)) && buffer[..] == Dir(plain.arr)
      requires k > 0 ==> ExtentOk(volume, k - 1)
      modifies this, entries, e, buffer, cache, cache.hashTable, cache.device, cache.entries
      ensures Valid() && entries == old(entries) + {e} && fresh(cache.entries - old(cache.entries))
      ensures k <= |old(volume).files| && volume == Inserted(old(volume), k, NewFile(old(volume), k, name, today))
      ensures Standard(old(volume), old(plain.arr)) && Standard(volume, old(plain.arr))
      ensures |volume.files| == |old(volume).files| + 1 && |volume.files[k].name| <= 15
      ensures volume.files[k].address == DIRECTORY + ENTRY * (k + 1)
      ensures plain == old(plain).(arr := CreateDisk(old(plain.arr), old(volume), volume, k))
      ensures k < |files| && files[k] == e && cache.device.blocks == plain.arr
    {
      hide FilesAre, HeaderIs, CacheIs, PlainOk, VolumeOk, Inserted, NewFile, CreateDisk, Gap, Dir, Upper, FileEntry.Is,
        NamesFit, ValidName;
      ghost var v, a := volume, plain;
      Insertable(v, k, name, today, a.arr);
      FileCounts(v.files);
      var gap := k < |files|;
      PlaceFile(e, k, last, freeSpace, v, name, today);
      ghost var f := NewFile(v, k, name, today);
      ghost var w := Inserted(v, k, f);
      FieldsOf(e, f);
      WriteCreated(e, k, gap, buffer, v, w, a);
      Finish(w, a.(arr := CreateDisk(a.arr, v, w, k)));
    }

    /** What the object and the cache hold now is the volume; everything goes to the device. */
    method Finish(ghost w: Volume, ghost a: Plain)
      requires Holds(w) && CacheIs(cache, a) && Standard(w, a.arr) && NamesFit(w.files)
      modifies `volume, `plain, cache, cache.device, cache.entries
      ensures Valid() && volume == w && plain == a
      ensures cache.device.blocks == a.arr && cache.entries == old(cache.entries)
    {
      hide CacheIs, FilesAre, HeaderIs, Standard, NamesFit;
      CacheIsPlain(a);
      SyncBlocks(cache, a);
      volume, plain := w, a;
    }

    lemma CacheIsPlain(a: Plain)
      requires CacheIs(cache, a)
      ensures PlainOk(a)
    {
    }

    // -------------------------------------------------------------- unlink

    method EraseFile(k: nat, ghost vs: seq<File>)
      requires FilesAre(vs) && k < |files|
      modifies `files
      ensures FilesAre(vs[..k] + vs[k + 1..])
    {
      files := files[..k] + files[k + 1..];
    }

    /** The file before file k, if any, gets the room of file k. */
    method ExtendBefore(k: nat, ghost vs: seq<File>)
      requires FilesAre(vs) && k < |vs|
      modifies entries`maxFileSize
      ensures FilesAre(Extended(vs, k))
    {
      hide FilesAre;
      if k > 0 {
        FileAt(k - 1, vs);
        FileAt(k, vs);
        SetLimit(files[k - 1], files[k - 1].maxFileSize + files[k].maxFileSize, k - 1, vs);
      }
    }

    /** Takes file k out of the list. */
    method DropFile(k: nat, ghost v: Volume)
      requires Holds(v) && VolumeOk(v) && k < |v.files|
      modifies `files, `fileCount, entries
      ensures forall j :: 0 <= j < |v.files| ==> v.files[j].address >= ENTRY
      ensures Holds(Removed(v, k))
    {
      hide FilesAre, VolumeOk, Extended;
      FileCounts(v.files);
      ErasedFiles(v, k);
      ExtendBefore(k, v.files);
      ghost var e := Extended(v.files, k);
      FileCounts(e);
      EraseFile(k, e);
      fileCount := fileCount - 1;
      MoveAddresses(k, e[..k] + e[k + 1..]);
    }

    /** The directory without entry k: header, the entries behind it moved, the last one zeroed. */
    method WriteRemoved(k: nat, buffer: array<byte>, ghost w: Volume, ghost a: Plain)
      requires CacheIs(cache, a) && Standard(w, a.arr) && buffer[..] == Dir(a.arr)
      requires HeaderIs(w) && fileCount == |w.files| < MAX_FILES && k <= |w.files|
      modifies buffer, cache, cache.hashTable, cache.device, cache.entries
      ensures CacheIs(cache, a.(arr := UnlinkDisk(a.arr, w, k)))
      ensures fresh(cache.entries - old(cache.entries))
    {
      hide CacheIs, Splice, HeaderBytes, Flat, WriteFlat;
      var b := new IOBuffer(buffer, 0);
      WriteDirectoryEntry(b, w);
      ghost var d := Splice(Dir(a.arr), 0, HeaderBytes(w));
      var address := ENTRY + ENTRY * k;
      var count := ENTRY * (fileCount - k);
      assert d[address + ENTRY..address + ENTRY + count] == buffer[address + ENTRY..address + ENTRY + count];
      MemMove(buffer, address, address + ENTRY, count);
      assert buffer[..] == MoveSlots(d, k + 1, k + 2, |w.files| - k);
      MemSetZero(buffer, ENTRY + fileCount * ENTRY, ENTRY);
      WriteBlocks(cache, buffer, DIR_BLOCK, STANDARD_BLOCKS, a);
    }

    method Unlink(name: seq<byte>) returns (r: Result<bool>)
      requires Valid() && VolumeOk(volume)
      modifies this, entries, cache, cache.hashTable, cache.device, cache.entries
      ensures Valid() && entries == old(entries) && fresh(cache.entries - old(cache.entries))
      ensures var s := Mounted(old(volume), old(plain.arr));
        && Mounted(volume, plain.arr) == AfterUnlink(s, readOnly, name)
        && plain == old(plain).(arr := plain.arr)
        && match PascalOperations.Unlink(s.volume, readOnly, name)
           case Err(errno) => r == Err(errno)
           case Ok(_) => r == Ok(true) && cache.device.blocks == plain.arr
    {
      hide FilesAre, HeaderIs, CacheIs, PlainOk, VolumeOk, Removed, FindName, UnlinkDisk, Dir;
      if readOnly {
        return Err(EROFS);
      }
      var k := FileByName(name);
      FileCounts(volume.files);
      if k == |files| {
        return Err(ENOENT);
      }
      ghost var v, a := volume, plain;
      Removable(v, k, a.arr);
      DropFile(k, v);
      ghost var w := Removed(v, k);
      var buffer := ReadDirectoryHeader(w, a);
      WriteRemoved(k, buffer, w, a);
      Finish(w, a.(arr := UnlinkDisk(a.arr, w, k)));
      r := Ok(true);
    }

    // -------------------------------------------------------------- copy

    /** The target becomes a file of the source's kind and length. */
    method Retarget(target: FileEntry, source: File, today: nat, ghost k: nat, ghost v: Volume)
      requires Holds(v) && k < |v.files| && k < |files| && target == files[k] && source.Blocks() >= 0
      modifies target
      ensures Holds(PascalOperations.Retargeted(v, k, source, today))
    {
      FileAt(k, v.files);
      target.fileKind := source.fileKind;
      target.lastByte := source.lastByte;
      target.lastBlock := target.firstBlock + source.Blocks();
      target.modification := today;
    }

    ghost function State(): Mounted
      reads `volume, `plain
    {
      Mounted(volume, plain.arr)
    }

    /** What copy has found or made: the target, which is to get the source's kind and length, or an error. */
    ghost predicate TargetIs(out: PascalOperations.Outcome, source: File, today: nat, r: Result<FileEntry>)
      requires source.Blocks() >= 0
      reads `volume, `files
    {
      match out
      case Failed(v, errno) => r == Err(errno) && volume == v
      case Copied(v, k) =>
        r.Ok? && k < |files| && k < |volume.files| && r.value == files[k]
        && v == PascalOperations.Retargeted(volume, k, source, today)
    }

    /** The second half of copy: makes the target when there is none, or none any more. */
    method MakeTarget(source: File, newName: seq<byte>, today: nat) returns (r: Result<FileEntry>)
      requires Valid() && VolumeOk(volume) && !readOnly && source.Blocks() >= 0
      modifies this, entries, cache, cache.hashTable, cache.device, cache.entries
      ensures Valid() && fresh(entries - old(entries)) && fresh(cache.entries - old(cache.entries))
      ensures plain == old(plain).(arr := plain.arr)
      ensures var s := old(State());
        State() == if PascalVolumeSpec.MaxContiguousBlocks(s.volume) < source.Blocks() then s
          else AfterCreate(s, false, newName, source.Blocks(), today)
      ensures TargetIs(PascalOperations.CopyToNew(old(volume), source, newName, today), source, today, r)
    {
      hide FilesAre, HeaderIs, CacheIs, VolumeOk, PascalVolumeSpec.MaxContiguousBlocks, FirstFit, Inserted, NewFile,
        ValidName, FindName, CreateDisk, PascalOperations.Retargeted, Standard;
      var max := MaxContiguousBlocks();
      if max < source.Blocks() {
        return Err(ENOSPC);
      }
      InsertedCount(volume, newName, source.Blocks(), today);
      r := Create(newName, source.Blocks(), today);
    }

    /** Finds or makes the target; source is the value of the file found. */
    method FindTarget(source: File, newName: seq<byte>, today: nat, ghost oldName: seq<byte>)
      returns (r: Result<FileEntry>)
      requires Valid() && VolumeOk(volume) && !readOnly && ValidName(newName)
      requires var i := FindName(volume.files, oldName); i < |volume.files| && source == volume.files[i]
      requires source.Blocks() >= 0
      modifies this, entries, cache, cache.hashTable, cache.device, cache.entries
      ensures Valid() && fresh(entries - old(entries)) && fresh(cache.entries - old(cache.entries))
      ensures plain == old(plain).(arr := PascalCopy.TargetDisk(old(State()), oldName, newName, today))
      ensures TargetIs(PascalOperations.Copy(old(volume), false, oldName, newName, today), source, today, r)
    {
      hide FilesAre, HeaderIs, CacheIs, VolumeOk, PascalVolumeSpec.MaxContiguousBlocks, AfterCreate, FindName,
        UnlinkDisk, Standard, ValidName, PascalOperations.Copy, PascalCopy.TargetDisk, PascalOperations.CopyToNew,
        PascalOperations.Retargeted, AfterUnlink, NamesFit;
      ghost var s := State();
      var j := FileByName(newName);
      FileCounts(volume.files);
      if j < |files| {
        FileAt(j, volume.files);
        CopyOver(s, oldName, newName, today);
        if files[j].maxFileSize >= source.Blocks() * 512 {
          return Ok(files[j]);
        }
        var max := MaxContiguousBlocks();
        if max < source.Blocks() {
          return Err(ENOSPC);
        }
        CopyReplace(s, oldName, newName, today);
        var u := Unlink(newName);
      } else {
        CopyNew(s, oldName, newName, today);
      }
      r := MakeTarget(source, newName, today);
    }

    /** The target takes over kind, length and contents of the source. */
    method CopyInto(target: FileEntry, source: File, today: nat, ghost k: nat)
      requires Valid() && k < |volume.files| && k < |files| && target == files[k]
      requires source.Blocks() >= 0 && 0 < source.firstBlock && source.lastBlock <= |plain.arr|
      requires 0 < volume.files[k].firstBlock && volume.files[k].firstBlock + source.Blocks() <= |plain.arr|
      modifies this, entries, cache, cache.hashTable, cache.device, cache.entries
      ensures Valid() && entries == old(entries) && fresh(cache.entries - old(cache.entries))
      ensures k < |old(volume).files| && volume == PascalOperations.Retargeted(old(volume), k, source, today)
      ensures plain == old(plain).(arr := PascalCopy.CopyBlocks(old(plain.arr), source.firstBlock,
        old(volume).files[k].firstBlock, source.Blocks()))
      ensures cache.device.blocks == plain.arr
    {
      hide FilesAre, HeaderIs, CacheIs, Standard, PascalOperations.Retargeted, NamesFit, PascalCopy.CopyBlocks;
      FileAt(k, volume.files);
      var to := target.firstBlock;
      ghost var w := PascalOperations.Retargeted(volume, k, source, today);
      ghost var a := plain.(arr := PascalCopy.CopyBlocks(plain.arr, source.firstBlock, to, source.Blocks()));
      RetargetedFits(volume, k, source, today, plain.arr, a.arr);
      Retarget(target, source, today, k, volume);
      CopyExtent(cache, source.firstBlock, to, source.Blocks(), plain);
      Finish(w, a);
    }

    method Copy(oldName: seq<byte>, newName: seq<byte>, today: nat) returns (r: Result<bool>)
      requires Valid() && VolumeOk(volume) && PascalCopy.OnDevice(State())
      modifies this, entries, cache, cache.hashTable, cache.device, cache.entries
      ensures Valid() && fresh(entries - old(entries)) && fresh(cache.entries - old(cache.entries))
      ensures plain == old(plain).(arr := PascalCopy.CopiedDisk(old(State()), readOnly, oldName, newName, today))
      ensures match PascalOperations.Copy(old(volume), readOnly, oldName, newName, today)
        case Failed(v, errno) => r == Err(errno) && volume == v
        case Copied(v, _) => r == Ok(true) && volume == v && cache.device.blocks == plain.arr
    {
      hide FilesAre, HeaderIs, CacheIs, VolumeOk, FindName, Standard, ValidName, PascalOperations.Copy,
        PascalCopy.TargetDisk, PascalCopy.CopiedDisk, PascalOperations.Retargeted, NamesFit, PascalCopy.CopyBlocks;
      ghost var s := State();
      if readOnly {
        ReadOnlyFailure(s, oldName, newName, today);
        return Err(EROFS);
      }
      EarlyFailures(s, oldName, newName, today);
      var i := FileByName(oldName);
      FileCounts(volume.files);
      if i == |files| {
        return Err(ENOENT);
      }
      if !ValidName(newName) {
        return Err(EINVAL);
      }
      FileAt(i, volume.files);
      OkAt(volume, i);
      var source := files[i].Value();
      CopyResult(s, oldName, newName, today);
      var target := FindTarget(source, newName, today, oldName);
      if target.Err? {
        return Err(target.errno);
      }
      ghost var k := PascalOperations.Copy(s.volume, false, oldName, newName, today).target;
      RetargetedFits(volume, k, source, today, plain.arr, plain.arr);
      CopyInto(target.value, source, today, k);
      r := Ok(true);
    }
  }

  // ---------------------------------------------------------------- facts about the values

  lemma {:induction false} FieldsOf(e: FileEntry, f: File)
    requires e.Is(f)
    ensures e.address == f.address && e.name == f.name
  {
  }

  lemma {:induction false} ErasedFiles(v: Volume, k: nat)
    requires VolumeOk(v) && k < |v.files|
    ensures forall j :: 0 <= j < |v.files| ==> v.files[j].address >= ENTRY
    ensures var e := Extended(v.files, k); var erased := e[..k] + e[k + 1..];
      Movable(erased, k) && MovedTo(erased, k, |erased|) == Removed(v, k).files
  {
    HasAddresses(v);
    hide VolumeOk, AddressesOk;
    var e := Extended(v.files, k);
    var erased := e[..k] + e[k + 1..];
    forall j | k <= j < |erased| ensures erased[j].address >= ENTRY {
      ExtendedMax(v.files, k, j + 1);
      assert v.files[j + 1].address >= ENTRY;
    }
    assert MovedTo(erased, k, |erased|) == Removed(v, k).files;
  }

  lemma {:induction false} Removable(v: Volume, k: nat, arr: seq<Block>)
    requires VolumeOk(v) && k < |v.files| && NamesFit(v.files) && Standard(v, arr)
    ensures forall j :: 0 <= j < |v.files| ==> v.files[j].address >= ENTRY
    ensures var w := Removed(v, k);
      |w.files| < MAX_FILES && k <= |w.files| && NamesFit(w.files) && Standard(w, arr)
  {
    HasAddresses(v);
    var w := Removed(v, k);
    forall j | 0 <= j < |w.files| ensures |w.files[j].name| <= 15 {
      PascalOperations.RemovedName(v, k, j);
    }
  }

  lemma {:induction false} CountOk(v: Volume)
    requires VolumeOk(v)
    ensures |v.files| <= MAX_FILES
  {
  }

  lemma {:induction false} Insertable(v: Volume, k: nat, name: seq<byte>, today: nat, arr: seq<Block>)
    requires VolumeOk(v) && k <= |v.files| < MAX_FILES && NamesFit(v.files) && ValidName(name) && Standard(v, arr)
    ensures Gap(v, k) >= 0 && (k > 0 ==> ExtentOk(v, k - 1))
    ensures var f := NewFile(v, k, name, today);
      && f.address == DIRECTORY + ENTRY * (k + 1) && |f.name| <= 15
      && var w := Inserted(v, k, f);
      && |w.files| == |v.files| + 1 && w.files[k] == f && NamesFit(w.files) && Standard(w, arr)
  {
    var f := NewFile(v, k, name, today);
    InsertedFiles(v, k, f, k);
  }

  lemma {:induction false} AfterCreateIs(s: Mounted, name: seq<byte>, blocks: nat, today: nat)
    requires VolumeOk(s.volume) && Standard(s.volume, s.disk) && |s.volume.files| < MAX_FILES && ValidName(name)
    requires FindName(s.volume.files, name) == |s.volume.files|
    ensures var v := s.volume; var k := FirstFit(v, 0, blocks); var r := AfterCreate(s, false, name, blocks, today);
      if k > |v.files| then r == s
      else
        && Gap(v, k) >= 0 && (k > 0 ==> ExtentOk(v, k - 1)) && r.volume == Inserted(v, k, NewFile(v, k, name, today))
        && |r.volume.files| == |v.files| + 1 && r.volume.files[k].address == DIRECTORY + ENTRY * (k + 1)
        && |r.volume.files[k].name| <= 15 && Standard(r.volume, s.disk)
        && r.disk == CreateDisk(s.disk, v, r.volume, k)
  {
    var v := s.volume;
    var k := FirstFit(v, 0, blocks);
    if k <= |v.files| {
      assert Gap(v, k) >= 0;
      InsertedFiles(v, k, NewFile(v, k, name, today), k);
    }
  }

  lemma {:induction false} InsertedCount(v: Volume, name: seq<byte>, blocks: nat, today: nat)
    requires VolumeOk(v)
    ensures var c := PascalOperations.Create(v, false, name, blocks, today);
      c.Ok? ==> FirstFit(v, 0, blocks) < |c.value.files|
  {
  }

  lemma {:induction false} CopyOver(s: Mounted, oldName: seq<byte>, newName: seq<byte>, today: nat)
    requires VolumeOk(s.volume) && Standard(s.volume, s.disk) && ValidName(newName)
    requires FindName(s.volume.files, oldName) < |s.volume.files|
    requires FindName(s.volume.files, newName) < |s.volume.files|
    ensures var v := s.volume; var i, j := FindName(v.files, oldName), FindName(v.files, newName);
      var n := v.files[i].Blocks();
      && n >= 0
      && (v.files[j].maxFileSize >= n * 512 ==>
        && PascalOperations.Copy(v, false, oldName, newName, today)
          == PascalOperations.Copied(PascalOperations.Retargeted(v, j, v.files[i], today), j)
        && PascalCopy.TargetDisk(s, oldName, newName, today) == s.disk)
      && (v.files[j].maxFileSize < n * 512 && PascalVolumeSpec.MaxContiguousBlocks(v) < n ==>
        && PascalOperations.Copy(v, false, oldName, newName, today) == PascalOperations.Failed(v, ENOSPC)
        && PascalCopy.TargetDisk(s, oldName, newName, today) == s.disk)
  {
    OkAt(s.volume, FindName(s.volume.files, oldName));
  }

  lemma {:induction false} CopyNew(s: Mounted, oldName: seq<byte>, newName: seq<byte>, today: nat)
    requires VolumeOk(s.volume) && Standard(s.volume, s.disk) && ValidName(newName)
    requires FindName(s.volume.files, oldName) < |s.volume.files| == FindName(s.volume.files, newName)
    ensures var v := s.volume; var source := v.files[FindName(v.files, oldName)];
      && source.Blocks() >= 0
      && PascalOperations.Copy(v, false, oldName, newName, today)
        == PascalOperations.CopyToNew(v, source, newName, today)
      && PascalCopy.TargetDisk(s, oldName, newName, today)
        == if PascalVolumeSpec.MaxContiguousBlocks(v) < source.Blocks() then s.disk
           else AfterCreate(s, false, newName, source.Blocks(), today).disk
  {
    OkAt(s.volume, FindName(s.volume.files, oldName));
  }

  lemma {:induction false} CopyReplace(s: Mounted, oldName: seq<byte>, newName: seq<byte>, today: nat)
    requires VolumeOk(s.volume) && Standard(s.volume, s.disk) && ValidName(newName)
    requires var v := s.volume; var i, j := FindName(v.files, oldName), FindName(v.files, newName);
      && i < |v.files| && j < |v.files| && v.files[j].maxFileSize < v.files[i].Blocks() * 512
      && PascalVolumeSpec.MaxContiguousBlocks(v) >= v.files[i].Blocks()
    ensures var v := s.volume;
      var source, s1 := v.files[FindName(v.files, oldName)], AfterUnlink(s, false, newName);
      && source.Blocks() >= 0 && VolumeOk(s1.volume) && Standard(s1.volume, s1.disk)
      && PascalOperations.Copy(v, false, oldName, newName, today)
        == PascalOperations.CopyToNew(s1.volume, source, newName, today)
      && PascalCopy.TargetDisk(s, oldName, newName, today)
        == if PascalVolumeSpec.MaxContiguousBlocks(s1.volume) < source.Blocks() then s1.disk
           else AfterCreate(s1, false, newName, source.Blocks(), today).disk
  {
    hide MaxOk, AddressesOk, PascalVolumeSpec.MaxContiguousBlocks, PascalOperations.CopyToNew, AfterCreate;
    OkAt(s.volume, FindName(s.volume.files, oldName));
    HasAddresses(s.volume);
    PascalOperations.UnlinkKeeps(s.volume, false, newName);
  }

  lemma {:induction false} CopyResult(s: Mounted, oldName: seq<byte>, newName: seq<byte>, today: nat)
    requires VolumeOk(s.volume) && Standard(s.volume, s.disk) && PascalCopy.OnDevice(s)
    ensures match PascalOperations.Copy(s.volume, false, oldName, newName, today)
      case Failed(_, _) =>
        PascalCopy.CopiedDisk(s, false, oldName, newName, today) == PascalCopy.TargetDisk(s, oldName, newName, today)
      case Copied(v, k) =>
        && VolumeOk(v) && k < |v.files| && FindName(s.volume.files, oldName) < |s.volume.files|
        && var source, to := s.volume.files[FindName(s.volume.files, oldName)], v.files[k].firstBlock;
        && source.Blocks() >= 0 && 0 < source.firstBlock && source.lastBlock <= |s.disk|
        && 0 < to && to + source.Blocks() <= |s.disk|
        && var disk := PascalCopy.TargetDisk(s, oldName, newName, today);
        PascalCopy.CopiedDisk(s, false, oldName, newName, today)
          == PascalCopy.CopyBlocks(disk, source.firstBlock, to, source.Blocks())
  {
    hide PascalOperations.Copy, PascalCopy.TargetDisk;
    if PascalOperations.Copy(s.volume, false, oldName, newName, today).Copied? {
      PascalCopy.CopyPlaces(s.volume, oldName, newName, today);
    }
  }

  lemma {:induction false} EarlyFailures(s: Mounted, oldName: seq<byte>, newName: seq<byte>, today: nat)
    requires VolumeOk(s.volume) && Standard(s.volume, s.disk) && PascalCopy.OnDevice(s)
    ensures var i := FindName(s.volume.files, oldName);
      i == |s.volume.files| || !ValidName(newName) ==>
        && PascalOperations.Copy(s.volume, false, oldName, newName, today)
          == PascalOperations.Failed(s.volume, if i == |s.volume.files| then ENOENT else EINVAL)
        && PascalCopy.CopiedDisk(s, false, oldName, newName, today) == s.disk
  {
  }

  lemma {:induction false} ReadOnlyFailure(s: Mounted, oldName: seq<byte>, newName: seq<byte>, today: nat)
    requires VolumeOk(s.volume) && Standard(s.volume, s.disk) && PascalCopy.OnDevice(s)
    ensures PascalOperations.Copy(s.volume, true, oldName, newName, today) == PascalOperations.Failed(s.volume, EROFS)
    ensures PascalCopy.CopiedDisk(s, true, oldName, newName, today) == s.disk
  {
  }

  lemma {:induction false} RetargetedFits(v: Volume, k: nat, source: File, today: nat,
                                          arr: seq<Block>, arr': seq<Block>)
    requires k < |v.files| && source.Blocks() >= 0 && NamesFit(v.files) && Standard(v, arr) && |arr'| == |arr|
    ensures var w := PascalOperations.Retargeted(v, k, source, today);
      && NamesFit(w.files) && Standard(w, arr') && |w.files| == |v.files|
      && w.files[k].firstBlock == v.files[k].firstBlock
  {
  }

  lemma {:induction false} LimitAt(v: Volume, k: nat)
    requires k < |v.files| && ExtentsOk(v)
    ensures NextFirst(v, k + 1) >= v.files[k].firstBlock
    ensures Limited(v, k) == v.files[k].(maxFileSize := (NextFirst(v, k + 1) - v.files[k].firstBlock) * 512)
  {
    assert ExtentOk(v, k) && Gap(v, k + 1) >= 0;
  }
}
