/** Making a new volume on a device, and opening the volume that is on one. */
module PascalMount {
  import opened Blocks
  import opened CacheRefinement
  import opened BlockCache
  import opened PascalVolumeSpec
  import opened PascalDirectory
  import opened PascalBytes
  import opened PascalDisk
  import opened PascalDiskRuns
  import opened PascalEntries
  import opened PascalBlocks
  import opened PascalVolume
  import CacheSpec

  // ---------------------------------------------------------------- a new volume

  /** Volume names: up to seven characters, no colon; unlike in file names $ = , ? pass. */
  predicate ValidVolumeName(s: seq<byte>) {
    1 <= |s| <= 7 && forall i :: 0 <= i < |s| ==> 0x21 <= s[i] <= 0x7e && s[i] != ':' as int
  }

  function NewVolume(deviceBlocks: nat, name: seq<byte>, today: nat): Volume
    requires |name| <= 7
  {
    Volume(0, STANDARD_BLOCKS, UNTYPED, Upper(name), seq(7 - |name|, _ => 0), Min(0xffff, deviceBlocks), 0, today, [])
  }

  /** Blocks 2 to 5 zeroed, then the header entry. */
  function FormattedDisk(arr: seq<Block>, v: Volume): (r: seq<Block>)
    requires |arr| >= 6 && |v.name| + |v.tail| == 7
    ensures |r| == |arr|
  {
    WriteEntry(arr[2 := ZERO_BLOCK][3 := ZERO_BLOCK][4 := ZERO_BLOCK][5 := ZERO_BLOCK], DIRECTORY, HeaderBytes(v))
  }

  /** A new volume is in order and its directory agrees, given the two blocks behind the directory the header spans. */
  lemma {:induction false} FormatOk(arr: seq<Block>, name: seq<byte>, today: nat)
    requires |arr| >= 6 && ValidVolumeName(name) && today < WORD16
    ensures var v := NewVolume(|arr|, name, today);
      && (MountedOk(Mounted(v, FormattedDisk(arr, v))) <==> |arr| >= 8)
      && SameOutside(arr, FormattedDisk(arr, v))
  {
    hide HeaderBytes, Flat, Splice;
    var v := NewVolume(|arr|, name, today);
    var zeroed := arr[2 := ZERO_BLOCK][3 := ZERO_BLOCK][4 := ZERO_BLOCK][5 := ZERO_BLOCK];
    assert forall b :: 0 <= b < |arr| && !(2 <= b < 6) ==> zeroed[b] == arr[b];
    EntryWritten(zeroed, 4, 0, HeaderBytes(v));
    assert Gap(v, 0) >= 0;
    if |arr| >= 8 {
      EntryWritten(zeroed, STANDARD_BLOCKS, 0, HeaderBytes(v));
      SlotSpliced(Dir(zeroed), 0, HeaderBytes(v), 0);
    }
  }

  /** The first bytes of block 2 of a new volume, and nothing else in the directory. */
  lemma {:induction false} FormatBytes(arr: seq<Block>, name: seq<byte>, today: nat)
    requires 6 <= |arr| < WORD16 && ValidVolumeName(name) && today < WORD16
    ensures var v := NewVolume(|arr|, name, today); var d := FormattedDisk(arr, v);
      && d[2][..7] == [0, 0, 6, 0, 0, 0, |name|] && d[2][7..7 + |name|] == v.name
      && Matching(name, v.name) && (forall i :: 0 <= i < |name| ==> !(97 <= v.name[i] <= 122))
      && AllZero(d[2], 7 + |name|, 14) && HoldsWord(d[2], 14, |arr|) && AllZero(d[2], 16, 20)
      && HoldsWord(d[2], 20, today) && AllZero(d[2], 22, 512)
      && d[3] == d[4] == d[5] == ZERO_BLOCK
  {
  }

  datatype NewResult = DeviceTooSmall | InvalidVolumeName | Created

  /** VolumeEntry(device, name) */
  method Format(device: BlockDevice, name: seq<byte>, today: nat) returns (r: NewResult, e: VolumeEntry?)
    requires today < WORD16
    modifies device
    ensures var arr := old(device.blocks);
      && r == (if |arr| < 6 then DeviceTooSmall else if !ValidVolumeName(name) then InvalidVolumeName else Created)
      && (r.Created? <==> e != null)
      && (e == null ==> device.blocks == arr)
      && (e != null ==>
        && fresh(e) && e.Holds(e.volume) && CacheIs(e.cache, e.plain)
        && e.volume == NewVolume(|arr|, name, today) && e.plain.arr == FormattedDisk(arr, e.volume)
        && e.cache.device == device && device.blocks == e.plain.arr)
  {
    hide CacheIs, HeaderBytes, PlainOk, FormattedDisk, CacheSpec.Init;
    var deviceBlocks := |device.blocks|;
    e := null;
    if deviceBlocks < 6 {
      return DeviceTooSmall, null;
    }
    if !ValidVolumeName(name) {
      return InvalidVolumeName, null;
    }
    var cache, a0 := NewCache(device, false);
    var v := NewVolume(deviceBlocks, name, today);
    e := new VolumeEntry(cache, false, v, a0);
    ZeroDirectory(cache, a0);
    ghost var a1 := a0.(arr := a0.arr[2 := ZERO_BLOCK][3 := ZERO_BLOCK][4 := ZERO_BLOCK][5 := ZERO_BLOCK]);
    e.WriteHeader(v, a1);
    ghost var a2 := a1.(arr := WriteEntry(a1.arr, DIRECTORY, HeaderBytes(v)));
    SyncBlocks(cache, a2);
    e.plain := a2;
    FormattedIs(a0.arr, v);
    r := Created;
  }

  lemma {:induction false} FormattedIs(arr: seq<Block>, v: Volume)
    requires |arr| >= 6 && |v.name| + |v.tail| == 7
    ensures FormattedDisk(arr, v)
      == WriteEntry(arr[2 := ZERO_BLOCK][3 := ZERO_BLOCK][4 := ZERO_BLOCK][5 := ZERO_BLOCK], DIRECTORY, HeaderBytes(v))
  {
  }

  /** createBlockCache: one buffer for sixteen blocks; the new cache stands for the blocks of the device. */
  method NewCache(device: BlockDevice, readOnly: bool) returns (cache: ConcreteBlockCache, ghost a: Plain)
    ensures fresh(cache) && fresh(cache.hashTable) && fresh(cache.entries) && cache.device == device
    ensures CacheIs(cache, a) && a.arr == device.blocks
  {
    hide CacheSpec.Shape, Rel, CacheSpec.Init, PlainOk;
    var b := |device.blocks|;
    cache := new ConcreteBlockCache(device, Max(16, b / 16));
    InitRel(device.blocks, Max(16, b / 16));
    a := Plain(device.blocks, seq(b, _ => 0), {});
  }

  method ZeroDirectory(cache: ConcreteBlockCache, ghost a: Plain)
    requires CacheIs(cache, a) && |a.arr| >= 6
    modifies cache, cache.hashTable, cache.device, cache.entries
    ensures CacheIs(cache, a.(arr := a.arr[2 := ZERO_BLOCK][3 := ZERO_BLOCK][4 := ZERO_BLOCK][5 := ZERO_BLOCK]))
    ensures fresh(cache.entries - old(cache.entries))
  {
    hide CacheIs;
    ghost var all := cache.entries;
    for i := 2 to 6
      invariant CacheIs(cache, a.(arr := ZeroedTo(a.arr, i))) && fresh(cache.entries - all)
    {
      WriteBlock(cache, i, ZERO_BLOCK, a.(arr := ZeroedTo(a.arr, i)));
    }
    ZeroedAll(a.arr);
  }

  ghost function ZeroedTo(arr: seq<Block>, i: nat): (r: seq<Block>)
    requires 2 <= i <= |arr|
    ensures |r| == |arr|
  {
    if i == 2 then arr else ZeroedTo(arr, i - 1)[i - 1 := ZERO_BLOCK]
  }

  lemma {:induction false} ZeroedAll(arr: seq<Block>)
    requires |arr| >= 6
    ensures ZeroedTo(arr, 6) == arr[2 := ZERO_BLOCK][3 := ZERO_BLOCK][4 := ZERO_BLOCK][5 := ZERO_BLOCK]
  {
    assert ZeroedTo(arr, 3) == arr[2 := ZERO_BLOCK];
    assert ZeroedTo(arr, 4) == arr[2 := ZERO_BLOCK][3 := ZERO_BLOCK];
    assert ZeroedTo(arr, 5) == arr[2 := ZERO_BLOCK][3 := ZERO_BLOCK][4 := ZERO_BLOCK];
  }

  // ---------------------------------------------------------------- the volume on a device

  /**
   VolumeEntry(device); junk is what the uninitialised name field holds. The source does not check that its reads stay
   inside their buffers; here it stops before the first that would not.
   */
  method Open(device: BlockDevice, readOnly: bool, junk: seq<byte>) returns (e: VolumeEntry?, ghost loaded: Loaded)
    requires |junk| == 7
    modifies device
    ensures loaded == Load(old(device.blocks), junk)
    ensures e != null <==> loaded.Opened?
    ensures e != null ==>
      && fresh(e) && e.Holds(loaded.volume) && e.volume == loaded.volume && e.readOnly == readOnly
      && CacheIs(e.cache, e.plain) && e.plain.arr == old(device.blocks) && e.cache.device == device
  {
    hide CacheIs, Load, DirBuffer, VolumeEntry.Holds, CacheSpec.Init, Readable;
    var cache, a := NewCache(device, readOnly);
    var arr := device.blocks;
    LoadFails(arr, junk);
    if |arr| <= DIR_BLOCK {
      return null, OutOfBounds;
    }
    var header := ReadBlock(cache, DIR_BLOCK, a);
    if header[6] > 7 {
      return null, InvalidNameLength;
    }
    if !Readable(arr) {
      return null, OutOfBounds;
    }
    LoadParts(arr, junk);
    var buffer := ReadBuffer(cache, header, a);
    e := MakeVolume(cache, readOnly, header, buffer, junk, a);
    loaded := Load(arr, junk);
  }

  /** When loading gives up. */
  lemma {:induction false} LoadFails(arr: seq<Block>, junk: seq<byte>)
    requires |junk| == 7
    ensures |arr| <= DIR_BLOCK ==> Load(arr, junk) == OutOfBounds
    ensures |arr| > DIR_BLOCK && arr[DIR_BLOCK][6] > 7 ==> Load(arr, junk) == InvalidNameLength
    ensures |arr| > DIR_BLOCK && arr[DIR_BLOCK][6] <= 7 && !Readable(arr) ==> Load(arr, junk) == OutOfBounds
  {
  }

  /** The object for the header and the entries read. */
  method MakeVolume(cache: ConcreteBlockCache, readOnly: bool, header: Block, buffer: seq<byte>, junk: seq<byte>,
                    ghost a: Plain) returns (e: VolumeEntry?)
    requires Readable(a.arr) && |junk| == 7
    requires header == a.arr[DIR_BLOCK] && header[6] <= 7 && buffer == DirBuffer(a.arr)
    ensures e != null <==> Load(a.arr, junk).Opened?
    ensures e != null ==>
      && fresh(e) && e.Holds(Load(a.arr, junk).volume) && e.volume == Load(a.arr, junk).volume && e.readOnly == readOnly
      && e.cache == cache && e.plain == a
  {
    hide DecodeFile, ExtentsOk, WithLimits, Load, Parsed, DecodeHeader, ParsedFile, DirBuffer, Slot;
    hide VolumeEntry.FilesAre;
    LoadParts(a.arr, junk);
    ghost var p := Parsed(a.arr, junk);
    e := new VolumeEntry(cache, readOnly, DecodeHeader(header, junk), a);
    var count := WordAt(header, 0x10);
    var ok := LoadFiles(e, buffer, count, p, a.arr);
    if !ok {
      return null;
    }
    e.fileCount := count;
    e.volume := Load(a.arr, junk).volume;
  }

  /** The files: parsed, checked and given their limits. */
  method LoadFiles(e: VolumeEntry, buffer: seq<byte>, count: nat, ghost p: Volume, ghost arr: seq<Block>)
    returns (ok: bool)
    requires Readable(arr) && buffer == DirBuffer(arr) && count == DiskCount(arr) && e.FilesAre([]) && e.entries == {}
    requires p.files == seq(DiskCount(arr), k requires 0 <= k < DiskCount(arr) => ParsedFile(arr, k))
    requires e.lastBlock == p.lastBlock && e.lastVolumeBlock == p.lastVolumeBlock
    modifies e`files, e`entries
    ensures ok <==> p.files == [] || ExtentsOk(p)
    ensures ok ==> e.FilesAre(WithLimits(p).files)
    ensures fresh(e.entries)
  {
    hide VolumeEntry.FilesAre, Readable, ParsedFile, DirBuffer, ExtentsOk, WithLimits;
    ReadEntries(e, buffer, count, arr);
    ok := CheckExtents(e, p);
    if ok {
      e.CalcMaxFileSize(p);
    }
  }

  /** The parts of what loading gives. */
  lemma {:induction false} LoadParts(arr: seq<Block>, junk: seq<byte>)
    requires Readable(arr) && |junk| == 7
    ensures arr[DIR_BLOCK][6] > 7 ==> Load(arr, junk) == InvalidNameLength
    ensures arr[DIR_BLOCK][6] <= 7 ==>
      var h, p, r := DecodeHeader(arr[DIR_BLOCK], junk), Parsed(arr, junk), Load(arr, junk);
      && h.files == [] && p == h.(files := p.files)
      && p.files == seq(DiskCount(arr), k requires 0 <= k < DiskCount(arr) => ParsedFile(arr, k))
      && (r.Opened? <==> p.files == [] || ExtentsOk(p))
      && (r.Opened? ==>
        r.volume == WithLimits(p) == p.(files := WithLimits(p).files) && |r.volume.files| == DiskCount(arr))
  {
  }

  /** The header block again, or all blocks the header entry spans. */
  method ReadBuffer(cache: ConcreteBlockCache, header: Block, ghost a: Plain) returns (buffer: seq<byte>)
    requires CacheIs(cache, a) && Readable(a.arr) && header == a.arr[DIR_BLOCK]
    modifies cache, cache.hashTable, cache.device, cache.entries
    ensures CacheIs(cache, a) && buffer == DirBuffer(a.arr) && fresh(cache.entries - old(cache.entries))
  {
    hide CacheIs, Flat;
    var blockCount := WordAt(header, 2) - WordAt(header, 0);
    if blockCount > 1 {
      var blocks := ReadBlocks(cache, DIR_BLOCK, blockCount, a);
      buffer := blocks[..];
    } else {
      buffer := header;
    }
  }

  method ReadEntries(e: VolumeEntry, buffer: seq<byte>, count: nat, ghost arr: seq<Block>)
    requires Readable(arr) && buffer == DirBuffer(arr) && count == DiskCount(arr) && e.FilesAre([])
    modifies e`files, e`entries
    ensures e.FilesAre(seq(DiskCount(arr), k requires 0 <= k < DiskCount(arr) => ParsedFile(arr, k)))
    ensures fresh(e.entries - old(e.entries))
  {
    hide DirBuffer, DecodeFile;
    ghost var all := e.entries;
    ghost var vs := seq(DiskCount(arr), k requires 0 <= k < DiskCount(arr) => ParsedFile(arr, k));
    for i := 0 to count
      invariant e.FilesAre(vs[..i]) && fresh(e.entries - all)
    {
      assert NameFits(buffer, i);
      var child := new FileEntry.Open(Slot(buffer, i + 1), DIRECTORY + ENTRY * (i + 1));
      e.InsertFile(i, child, vs[..i], vs[i]);
      assert vs[..i][..i] + [vs[i]] + vs[..i][i..] == vs[..i + 1];
    }
    assert vs[..count] == vs;
  }

  /** The check of one file against the end of the one before it. */
  method CheckExtents(e: VolumeEntry, ghost v: Volume) returns (ok: bool)
    requires e.FilesAre(v.files) && e.lastBlock == v.lastBlock && e.lastVolumeBlock == v.lastVolumeBlock
    ensures ok <==> v.files == [] || ExtentsOk(v)
  {
    hide ExtentsOk;
    e.FileCounts(v.files);
    var block := e.lastBlock;
    for k := 0 to |e.files|
      invariant block == PrevLast(v, k)
      invariant forall j :: 0 <= j < k ==> InOrder(v, j)
    {
      e.FileAt(k, v.files);
      var f := e.files[k];
      if f.firstBlock > f.lastBlock || f.firstBlock >= e.lastVolumeBlock || f.lastBlock > e.lastVolumeBlock
        || f.firstBlock < block
      {
        NotInOrder(v, k);
        return false;
      }
      block := f.lastBlock;
    }
    ok := true;
    AllInOrder(v);
  }

  predicate InOrder(v: Volume, k: nat)
    requires k < |v.files|
  {
    ExtentOk(v, k) && v.files[k].lastBlock <= v.lastVolumeBlock && Gap(v, k) >= 0
  }

  lemma {:induction false} NotInOrder(v: Volume, k: nat)
    requires k < |v.files| && !InOrder(v, k)
    ensures !ExtentsOk(v)
  {
    if ExtentsOk(v) {
      ExtentsDisjoint(v, k, |v.files|);
    }
  }

  lemma {:induction false} AllInOrder(v: Volume)
    requires forall j :: 0 <= j < |v.files| ==> InOrder(v, j)
    ensures v.files == [] || ExtentsOk(v)
  {
    if v.files != [] {
      forall k: nat | k < |v.files| ensures ExtentOk(v, k) && Gap(v, k) >= 0 {
        assert InOrder(v, k);
      }
      assert InOrder(v, |v.files| - 1) && Gap(v, |v.files|) >= 0;
    }
  }
}
