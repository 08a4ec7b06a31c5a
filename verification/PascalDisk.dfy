/** The volume in memory and its directory on disk: loading a volume, and when the two agree. */
module PascalDisk {
  import opened Blocks
  import opened PascalVolumeSpec
  import opened PascalDirectory

  // ---------------------------------------------------------------- loading

  datatype Loaded =
    | Opened(volume: Volume)
    | InvalidNameLength
    | InvalidFileEntry
    | OutOfBounds  // a read behind the device, the directory or a name; what that gives is not defined

  /** blocks() of the header on disk. */
  function HeaderBlocks(arr: seq<Block>): int
    requires DIR_BLOCK < |arr|
  {
    WordAt(arr[DIR_BLOCK], 2) - WordAt(arr[DIR_BLOCK], 0)
  }

  /** The buffer the entries are read from. */
  function DirBuffer(arr: seq<Block>): (r: seq<byte>)
    requires DIR_BLOCK < |arr| && 0 <= HeaderBlocks(arr) && DIR_BLOCK + HeaderBlocks(arr) <= |arr|
    ensures |r| == BLOCK_SIZE * Max(1, HeaderBlocks(arr))
  {
    if HeaderBlocks(arr) > 1 then Flat(arr, DIR_BLOCK, HeaderBlocks(arr)) else arr[DIR_BLOCK]
  }

  function DiskCount(arr: seq<Block>): nat
    requires DIR_BLOCK < |arr|
  {
    WordAt(arr[DIR_BLOCK], 0x10)
  }

  predicate NameFits(dir: seq<byte>, k: nat)
    requires ENTRY * (k + 2) <= |dir|
  {
    Slot(dir, k + 1)[6] <= 15
  }

  /** Loading stays inside its buffers: the directory is on the device, holds its entries, and no name is too long. */
  predicate Readable(arr: seq<Block>) {
    && DIR_BLOCK < |arr| && 0 <= HeaderBlocks(arr) && DIR_BLOCK + HeaderBlocks(arr) <= |arr|
    && ENTRY * (DiskCount(arr) + 1) <= BLOCK_SIZE * Max(1, HeaderBlocks(arr))
    && forall k :: 0 <= k < DiskCount(arr) ==> NameFits(DirBuffer(arr), k)
  }

  function ParsedFile(arr: seq<Block>, k: nat): File
    requires Readable(arr) && k < DiskCount(arr)
  {
    assert NameFits(DirBuffer(arr), k);
    DecodeFile(Slot(DirBuffer(arr), k + 1), DIRECTORY + ENTRY * (k + 1))
  }

  function Parsed(arr: seq<Block>, junk: seq<byte>): (v: Volume)
    requires Readable(arr) && arr[DIR_BLOCK][6] <= 7 && |junk| == 7
  {
    DecodeHeader(arr[DIR_BLOCK], junk).(files :=
      seq(DiskCount(arr), k requires 0 <= k < DiskCount(arr) => ParsedFile(arr, k)))
  }

  /** calcMaxFileSize */
  function WithLimits(v: Volume): (w: Volume)
    requires v.files == [] || ExtentsOk(v)
    ensures |w.files| == |v.files|
  {
    v.(files := seq(|v.files|, k requires 0 <= k < |v.files| => Limited(v, k)))
  }

  function Limited(v: Volume, k: nat): File
    requires k < |v.files| && ExtentsOk(v)
  {
    assert ExtentOk(v, k) && Gap(v, k + 1) >= 0;
    v.files[k].(maxFileSize := (NextFirst(v, k + 1) - v.files[k].firstBlock) * 512)
  }

  /** VolumeEntry(device): parse, check the extents one after the other, compute the limits. */
  function Load(arr: seq<Block>, junk: seq<byte>): Loaded
    requires |junk| == 7
  {
    if DIR_BLOCK >= |arr| then OutOfBounds
    else if arr[DIR_BLOCK][6] > 7 then InvalidNameLength
    else if !Readable(arr) then OutOfBounds
    else
      var v := Parsed(arr, junk);
      if v.files == [] || ExtentsOk(v) then Opened(WithLimits(v)) else InvalidFileEntry
  }

  /** A volume that loads is in order, except that an empty one may have no room even for its directory. */
  lemma {:induction false} LoadChecks(arr: seq<Block>, junk: seq<byte>)
    requires |junk| == 7 && Load(arr, junk).Opened? && DiskCount(arr) <= MAX_FILES
    ensures var v := Load(arr, junk).volume;
      |v.files| == DiskCount(arr) && (VolumeOk(v) <==> v.files != [] || Gap(v, 0) >= 0)
  {
    var v := Parsed(arr, junk);
    forall k: nat | k < |v.files| ensures v.files[k].address == DIRECTORY + ENTRY * (k + 1) {
      assert v.files[k] == ParsedFile(arr, k);
    }
    hide Readable, Parsed;
    LimitsOk(v);
  }

  lemma {:induction false} LimitsOk(v: Volume)
    requires |v.files| <= MAX_FILES && AddressesOk(v.files) && (v.files == [] || ExtentsOk(v))
    ensures VolumeOk(WithLimits(v)) <==> v.files != [] || Gap(v, 0) >= 0
    ensures v.files == [] ==> Gap(WithLimits(v), 0) == Gap(v, 0)
  {
    var w := WithLimits(v);
    if v.files == [] {
      assert Gap(w, 0) == Gap(v, 0);
    } else {
      forall k: nat | k <= |v.files| ensures NextFirst(w, k) == NextFirst(v, k) && Gap(w, k) == Gap(v, k) >= 0 {
      }
      forall k: nat | k < |v.files| ensures ExtentOk(w, k) && MaxFits(w, k) {
        assert ExtentOk(v, k) && NextFirst(w, k + 1) == NextFirst(v, k + 1);
      }
      assert AddressesOk(w.files);
    }
  }

  // ---------------------------------------------------------------- the directory agrees with the volume

  /** A volume of standard layout, with room on the device for the six blocks the header entry spans. */
  predicate Standard(v: Volume, arr: seq<Block>) {
    v.firstBlock == 0 && v.lastBlock == STANDARD_BLOCKS && HeaderEncodable(v) && DIR_BLOCK + STANDARD_BLOCKS <= |arr|
  }

  predicate NamesFit(files: seq<File>) {
    forall k :: 0 <= k < |files| ==> |files[k].name| <= 15
  }

  function Dir(arr: seq<Block>): (r: seq<byte>)
    requires DIR_BLOCK + STANDARD_BLOCKS <= |arr|
    ensures |r| == BLOCK_SIZE * STANDARD_BLOCKS
  {
    Flat(arr, DIR_BLOCK, STANDARD_BLOCKS)
  }

  predicate EntryOk(dir: seq<byte>, files: seq<File>, k: nat)
    requires |dir| == BLOCK_SIZE * STANDARD_BLOCKS && k < |files| <= MAX_FILES
  {
    FileEncodable(files[k]) && Slot(dir, k + 1) == FileBytes(files[k])
  }

  ghost predicate EntriesOk(dir: seq<byte>, files: seq<File>)
    requires |dir| == BLOCK_SIZE * STANDARD_BLOCKS && |files| <= MAX_FILES
  {
    forall k :: 0 <= k < |files| ==> EntryOk(dir, files, k)
  }

  /** The directory on disk is the encoding of the volume. */
  ghost predicate DirOk(arr: seq<Block>, v: Volume) {
    && Standard(v, arr) && |v.files| <= MAX_FILES
    && Slot(Dir(arr), 0) == HeaderBytes(v) && EntriesOk(Dir(arr), v.files)
  }

  lemma {:induction false} DirBlock(arr: seq<Block>)
    requires DIR_BLOCK + STANDARD_BLOCKS <= |arr|
    ensures arr[DIR_BLOCK][..ENTRY] == Slot(Dir(arr), 0)
  {
    forall i: nat | i < ENTRY ensures Dir(arr)[i] == arr[DIR_BLOCK][i] {
      FlatAt(arr, DIR_BLOCK, STANDARD_BLOCKS, i);
    }
  }

  lemma {:induction false} DirReadable(arr: seq<Block>, v: Volume, junk: seq<byte>)
    requires DirOk(arr, v) && |junk| == 7
    ensures Readable(arr) && arr[DIR_BLOCK][6] <= 7 && DiskCount(arr) == |v.files| && DirBuffer(arr) == Dir(arr)
    ensures DecodeHeader(arr[DIR_BLOCK], junk) == v.(tail := junk[|v.name|..], files := [])
  {
    DirBlock(arr);
    DecodeHeaderBytes(v, arr[DIR_BLOCK], junk);
    hide HeaderBytes, FileBytes;
    forall k: nat | k < |v.files| ensures NameFits(Dir(arr), k) {
      assert EntryOk(Dir(arr), v.files, k);
      DecodeFileBytes(v.files[k], 0);
    }
  }

  /** Loading the disk gives exactly the volume in memory: header, files in order, addresses and limits. */
  lemma {:induction false} LoadAgrees(arr: seq<Block>, v: Volume, junk: seq<byte>)
    requires DirOk(arr, v) && VolumeOk(v) && |junk| == 7
    ensures Readable(arr) && Load(arr, junk) == Opened(v.(tail := junk[|v.name|..]))
  {
    DirReadable(arr, v, junk);
    var p := Parsed(arr, junk);
    forall k: nat | k < |v.files| ensures p.files[k] == v.files[k].(maxFileSize := 0) {
      assert EntryOk(Dir(arr), v.files, k);
      DecodeFileBytes(v.files[k], DIRECTORY + ENTRY * (k + 1));
      AddressAt(v.files, k);
      hide FileBytes, DecodeFile;
      assert p.files[k] == ParsedFile(arr, k);
    }
    var w := v.(tail := junk[|v.name|..]);
    hide Readable, DirOk, Parsed;
    TailFree(v, w);
    LimitsAgree(p, w);
  }

  /** Nothing about a volume depends on what fills up its name field. */
  lemma {:induction false} TailFree(v: Volume, w: Volume)
    requires VolumeOk(v) && w == v.(tail := w.tail)
    ensures VolumeOk(w)
  {
    forall k: nat | k <= |v.files| ensures Gap(w, k) >= 0 {
      assert Gap(v, k) >= 0;
    }
    forall k: nat | k < |v.files| ensures ExtentOk(w, k) && MaxFits(w, k) {
      OkAt(v, k);
    }
  }

  lemma {:induction false} LimitsAgree(p: Volume, v: Volume)
    requires VolumeOk(v) && p == v.(files := p.files) && |p.files| == |v.files|
    requires forall k: nat :: k < |v.files| ==> p.files[k] == v.files[k].(maxFileSize := 0)
    ensures ExtentsOk(p) && WithLimits(p) == v
  {
    forall k: nat | k <= |v.files| ensures Gap(p, k) == Gap(v, k) && NextFirst(p, k) == NextFirst(v, k) {
    }
    forall k: nat | k < |v.files| ensures ExtentOk(p, k) {
      assert ExtentOk(v, k);
    }
    forall k: nat | k < |v.files| ensures WithLimits(p).files[k] == v.files[k] {
      OkAt(v, k);
    }
  }
}
