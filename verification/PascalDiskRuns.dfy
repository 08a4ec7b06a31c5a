/** What create and unlink write to the directory, and that disk and memory agree after every run of them. */
module PascalDiskRuns {
  import opened Blocks
  import opened PascalVolumeSpec
  import opened PascalOperations
  import opened PascalDirectory
  import opened PascalDisk

  /**
   The directory after file k was added: in front of others they are moved up in a copy of the whole
   directory, at the end only the new entry and the header are written.
   */
  function CreateDisk(arr: seq<Block>, v: Volume, w: Volume, k: nat): (r: seq<Block>)
    requires Standard(v, arr) && Standard(w, arr) && k <= |v.files| < MAX_FILES && |w.files| == |v.files| + 1
    requires w.files[k].address == DIRECTORY + ENTRY * (k + 1) && |w.files[k].name| <= 15
    ensures |r| == |arr|
  {
    if k < |v.files| then WriteFlat(arr, DIR_BLOCK, STANDARD_BLOCKS, InsertedDir(Dir(arr), v, w, k))
    else WriteEntry(WriteEntry(arr, w.files[k].address, FileBytes(w.files[k])), DIRECTORY, HeaderBytes(w))
  }

  function InsertedDir(dir: seq<byte>, v: Volume, w: Volume, k: nat): (r: seq<byte>)
    requires |dir| == BLOCK_SIZE * STANDARD_BLOCKS && k <= |v.files| < MAX_FILES && |w.files| == |v.files| + 1
    requires HeaderEncodable(w) && w.files[k].address == DIRECTORY + ENTRY * (k + 1) && |w.files[k].name| <= 15
    ensures |r| == |dir|
  {
    var moved := MoveSlots(dir, k + 2, k + 1, |v.files| - k);
    Splice(Splice(moved, 0, HeaderBytes(w)), w.files[k].address - DIRECTORY, FileBytes(w.files[k]))
  }

  /** The directory after file k was removed: the entries behind it move down, the last one is zeroed. */
  function RemovedDir(dir: seq<byte>, w: Volume, k: nat): (r: seq<byte>)
    requires |dir| == BLOCK_SIZE * STANDARD_BLOCKS && k <= |w.files| < MAX_FILES && HeaderEncodable(w)
    ensures |r| == |dir|
  {
    var moved := MoveSlots(Splice(dir, 0, HeaderBytes(w)), k + 1, k + 2, |w.files| - k);
    Splice(moved, ENTRY * (|w.files| + 1), seq(ENTRY, _ => 0))
  }

  function UnlinkDisk(arr: seq<Block>, w: Volume, k: nat): (r: seq<Block>)
    requires Standard(w, arr) && k <= |w.files| < MAX_FILES
    ensures |r| == |arr|
  {
    WriteFlat(arr, DIR_BLOCK, STANDARD_BLOCKS, RemovedDir(Dir(arr), w, k))
  }

  // ---------------------------------------------------------------- the entries afterwards

  lemma {:induction false} InsertedSlot(dir: seq<byte>, v: Volume, w: Volume, k: nat, j: nat)
    requires |dir| == BLOCK_SIZE * STANDARD_BLOCKS && k <= |v.files| < MAX_FILES && |w.files| == |v.files| + 1
    requires HeaderEncodable(w) && w.files[k].address == DIRECTORY + ENTRY * (k + 1) && |w.files[k].name| <= 15
    requires j <= |v.files| + 1
    ensures Slot(InsertedDir(dir, v, w, k), j) == if j == 0 then HeaderBytes(w) else if j <= k then Slot(dir, j)
      else if j == k + 1 then FileBytes(w.files[k]) else Slot(dir, j - 1)
  {
    hide HeaderBytes, FileBytes, Splice, MoveSlots, Slot;
    var moved := MoveSlots(dir, k + 2, k + 1, |v.files| - k);
    SlotMoved(dir, k + 2, k + 1, |v.files| - k, j);
    SlotSpliced(moved, 0, HeaderBytes(w), j);
    SlotSpliced(Splice(moved, 0, HeaderBytes(w)), k + 1, FileBytes(w.files[k]), j);
  }

  lemma {:induction false} RemovedSlot(dir: seq<byte>, w: Volume, k: nat, j: nat)
    requires |dir| == BLOCK_SIZE * STANDARD_BLOCKS && k <= |w.files| < MAX_FILES && HeaderEncodable(w)
    requires j <= |w.files|
    ensures Slot(RemovedDir(dir, w, k), j) ==
      if j == 0 then HeaderBytes(w) else if j <= k then Slot(dir, j) else Slot(dir, j + 1)
  {
    hide HeaderBytes, FileBytes, Splice, MoveSlots, Slot;
    var d := Splice(dir, 0, HeaderBytes(w));
    var moved := MoveSlots(d, k + 1, k + 2, |w.files| - k);
    SlotSpliced(moved, |w.files| + 1, seq(ENTRY, _ => 0), j);
    SlotMoved(d, k + 1, k + 2, |w.files| - k, j);
    SlotSpliced(dir, 0, HeaderBytes(w), j);
    SlotSpliced(dir, 0, HeaderBytes(w), j + 1);
  }

  /** The bytes of an entry do not depend on its limit and address. */
  lemma {:induction false} SameBytes(f: File, g: File)
    requires SameExtent(f, g) && FileEncodable(g)
    ensures FileEncodable(f) && FileBytes(f) == FileBytes(g)
  {
  }

  lemma {:induction false} InsertedEntries(dir: seq<byte>, v: Volume, k: nat, f: File, j: nat)
    requires |dir| == BLOCK_SIZE * STANDARD_BLOCKS && VolumeOk(v) && k <= |v.files| < MAX_FILES
    requires EntriesOk(dir, v.files)
    requires FileEncodable(f) && f.address == DIRECTORY + ENTRY * (k + 1) && HeaderEncodable(v) && j <= |v.files|
    ensures var w := Inserted(v, k, f);
      |w.files| == |v.files| + 1 && w.files[k] == f && HeaderEncodable(w)
      && EntryOk(InsertedDir(dir, v, w, k), w.files, j) && Slot(InsertedDir(dir, v, w, k), 0) == HeaderBytes(w)
  {
    hide Capped, VolumeOk, FileBytes, HeaderBytes, InsertedDir, Slot;
    if k > 0 {
      OkAt(v, k - 1);
    }
    InsertedFiles(v, k, f, k);
    var w := Inserted(v, k, f);
    InsertedSlot(dir, v, w, k, j + 1);
    InsertedSlot(dir, v, w, k, 0);
    if j != k {
      var i := if j < k then j else j - 1;
      InsertedSame(v, k, f, i);
      assert EntryOk(dir, v.files, i);
      SameBytes(w.files[j], v.files[i]);
    }
  }

  lemma {:induction false} RemovedEntries(dir: seq<byte>, v: Volume, k: nat, j: nat)
    requires |dir| == BLOCK_SIZE * STANDARD_BLOCKS && VolumeOk(v) && k < |v.files| && EntriesOk(dir, v.files)
    requires HeaderEncodable(v) && j < |v.files| - 1
    requires forall j :: 0 <= j < |v.files| ==> v.files[j].address >= ENTRY
    ensures var w := Removed(v, k);
      HeaderEncodable(w) && EntryOk(RemovedDir(dir, w, k), w.files, j)
  {
    assert |v.files| <= MAX_FILES;
    hide VolumeOk, FileBytes, HeaderBytes, RemovedDir, Slot;
    var w := Removed(v, k);
    RemovedSlot(dir, w, k, j + 1);
    var i := if j < k then j else j + 1;
    RemovedName(v, k, j);
    assert EntryOk(dir, v.files, i);
    SameBytes(w.files[j], v.files[i]);
  }

  // ---------------------------------------------------------------- the blocks afterwards

  const DIR_END := 2028  // 78 entries

  predicate SameOutside(arr: seq<Block>, arr': seq<Block>) {
    |arr| == |arr'| && forall b :: 0 <= b < |arr| && !(DIR_BLOCK <= b < 6) ==> arr'[b] == arr[b]
  }

  /** A directory changed only in its 78 entries leaves the blocks behind it as they were. */
  lemma {:induction false} TailKept(arr: seq<Block>, arr': seq<Block>)
    requires |arr| == |arr'| && DIR_BLOCK + STANDARD_BLOCKS <= |arr|
    requires forall b :: 0 <= b < |arr| && !(DIR_BLOCK <= b < DIR_BLOCK + STANDARD_BLOCKS) ==> arr'[b] == arr[b]
    requires Dir(arr')[DIR_END..] == Dir(arr)[DIR_END..]
    ensures SameOutside(arr, arr')
  {
    forall b | 6 <= b < 8 ensures arr'[b] == arr[b] {
      forall i: nat | i < BLOCK_SIZE ensures arr'[b][i] == arr[b][i] {
        var p := BLOCK_SIZE * (b - DIR_BLOCK) + i;
        assert p / BLOCK_SIZE == b - DIR_BLOCK && p % BLOCK_SIZE == i;
        FlatAt(arr, DIR_BLOCK, STANDARD_BLOCKS, p);
        FlatAt(arr', DIR_BLOCK, STANDARD_BLOCKS, p);
        assert Dir(arr')[DIR_END..][p - DIR_END] == Dir(arr)[DIR_END..][p - DIR_END];
      }
    }
  }

  lemma {:induction false} SpliceTail(s: seq<byte>, o: nat, b: seq<byte>, e: nat)
    requires o + |b| <= e <= |s|
    ensures Splice(s, o, b)[e..] == s[e..]
  {
  }

  lemma {:induction false} CreateDiskDir(arr: seq<Block>, v: Volume, w: Volume, k: nat)
    requires Standard(v, arr) && Standard(w, arr) && k <= |v.files| < MAX_FILES && |w.files| == |v.files| + 1
    requires w.files[k].address == DIRECTORY + ENTRY * (k + 1) && |w.files[k].name| <= 15
    ensures var r := CreateDisk(arr, v, w, k);
      && Slot(Dir(r), 0) == HeaderBytes(w)
      && (forall j: nat :: j <= |v.files| + 1 ==> Slot(Dir(r), j) == Slot(InsertedDir(Dir(arr), v, w, k), j))
      && SameOutside(arr, r)
  {
    hide HeaderBytes, FileBytes, Splice, MoveSlots, Slot, WriteFlat, WriteEntry, Flat;
    var d := Dir(arr);
    var r := CreateDisk(arr, v, w, k);
    InsertedSlot(d, v, w, k, 0);
    var file := FileBytes(w.files[k]);
    if k < |v.files| {
      var moved := MoveSlots(d, k + 2, k + 1, |v.files| - k);
      FlatWritten(arr, DIR_BLOCK, STANDARD_BLOCKS, InsertedDir(d, v, w, k));
      MovedTail(d, k + 2, k + 1, |v.files| - k);
      SpliceTail(moved, 0, HeaderBytes(w), DIR_END);
      SpliceTail(Splice(moved, 0, HeaderBytes(w)), ENTRY * (k + 1), file, DIR_END);
    } else {
      var arr1 := WriteEntry(arr, w.files[k].address, file);
      EntryWritten(arr, STANDARD_BLOCKS, ENTRY * (k + 1), file);
      EntryWritten(arr1, STANDARD_BLOCKS, 0, HeaderBytes(w));
      SpliceTail(d, ENTRY * (k + 1), file, DIR_END);
      SpliceTail(Dir(arr1), 0, HeaderBytes(w), DIR_END);
      forall j: nat | j <= |v.files| + 1 ensures Slot(Dir(r), j) == Slot(InsertedDir(d, v, w, k), j) {
        SlotSpliced(d, k + 1, file, j);
        SlotSpliced(Dir(arr1), 0, HeaderBytes(w), j);
        InsertedSlot(d, v, w, k, j);
      }
    }
    TailKept(arr, r);
  }

  lemma {:induction false} MovedTail(dir: seq<byte>, to: nat, from: nat, c: nat)
    requires |dir| == BLOCK_SIZE * STANDARD_BLOCKS && to + c <= MAX_FILES + 1 && from + c <= MAX_FILES + 1
    ensures MoveSlots(dir, to, from, c)[DIR_END..] == dir[DIR_END..]
  {
    SpliceTail(dir, ENTRY * to, dir[ENTRY * from..ENTRY * (from + c)], DIR_END);
  }

  /** After a create the directory on disk is that of the new volume. */
  lemma {:induction false} CreateDiskOk(arr: seq<Block>, v: Volume, k: nat, f: File)
    requires DirOk(arr, v) && VolumeOk(v) && k <= |v.files| < MAX_FILES
    requires FileEncodable(f) && f.address == DIRECTORY + ENTRY * (k + 1)
    ensures var w := Inserted(v, k, f);
      && Standard(w, arr) && |w.files| == |v.files| + 1 && w.files[k] == f
      && DirOk(CreateDisk(arr, v, w, k), w) && SameOutside(arr, CreateDisk(arr, v, w, k))
  {
    hide Capped, FileBytes, HeaderBytes, Slot, InsertedDir, CreateDisk, Dir;
    InsertedFiles(v, k, f, k);
    var w := Inserted(v, k, f);
    CreateDiskDir(arr, v, w, k);
    var d := Dir(CreateDisk(arr, v, w, k));
    forall j: nat | j < |w.files| ensures EntryOk(d, w.files, j) {
      InsertedEntries(Dir(arr), v, k, f, j);
    }
  }

  lemma {:induction false} UnlinkOutside(arr: seq<Block>, w: Volume, k: nat)
    requires Standard(w, arr) && k <= |w.files| < MAX_FILES
    ensures Dir(UnlinkDisk(arr, w, k)) == RemovedDir(Dir(arr), w, k) && SameOutside(arr, UnlinkDisk(arr, w, k))
  {
    hide HeaderBytes, Slot, Flat, WriteFlat, Splice, MoveSlots;
    FlatWritten(arr, DIR_BLOCK, STANDARD_BLOCKS, RemovedDir(Dir(arr), w, k));
    var header := Splice(Dir(arr), 0, HeaderBytes(w));
    var moved := MoveSlots(header, k + 1, k + 2, |w.files| - k);
    SpliceTail(Dir(arr), 0, HeaderBytes(w), DIR_END);
    MovedTail(header, k + 1, k + 2, |w.files| - k);
    SpliceTail(moved, ENTRY * (|w.files| + 1), seq(ENTRY, _ => 0), DIR_END);
    TailKept(arr, UnlinkDisk(arr, w, k));
  }

  /** After an unlink the directory on disk is that of the new volume. */
  lemma {:induction false} UnlinkDiskOk(arr: seq<Block>, v: Volume, k: nat)
    requires DirOk(arr, v) && VolumeOk(v) && k < |v.files|
    requires forall j :: 0 <= j < |v.files| ==> v.files[j].address >= ENTRY
    ensures var w := Removed(v, k);
      Standard(w, arr) && DirOk(UnlinkDisk(arr, w, k), w) && SameOutside(arr, UnlinkDisk(arr, w, k))
  {
    hide FileBytes, HeaderBytes, Slot, RemovedDir, UnlinkDisk, Dir;
    var w := Removed(v, k);
    UnlinkOutside(arr, w, k);
    RemovedSlot(Dir(arr), w, k, 0);
    var d := RemovedDir(Dir(arr), w, k);
    forall j: nat | j < |w.files| ensures EntryOk(d, w.files, j) {
      RemovedEntries(Dir(arr), v, k, j);
    }
  }

  // ---------------------------------------------------------------- runs

  datatype DirOp = CreateFile(name: seq<byte>, blocks: nat, today: nat) | UnlinkFile(name: seq<byte>)

  datatype Mounted = Mounted(volume: Volume, disk: seq<Block>)

  ghost predicate MountedOk(s: Mounted) {
    VolumeOk(s.volume) && NamesUnique(s.volume.files) && DirOk(s.disk, s.volume)
  }

  predicate LegalOp(op: DirOp) {
    op.CreateFile? ==> op.blocks >= 1 && op.today < WORD16
  }

  lemma {:induction false} LastFits(s: Mounted, k: nat)
    requires MountedOk(s) && k <= |s.volume.files| && Gap(s.volume, k) >= 1
    ensures Standard(s.volume, s.disk) && PrevLast(s.volume, k) + 1 < WORD16
  {
    InsideVolume(s.volume, k);
  }

  /** create, in memory and on disk; a failing one changes nothing. */
  function AfterCreate(s: Mounted, readOnly: bool, name: seq<byte>, blocks: nat, today: nat): (r: Mounted)
    requires VolumeOk(s.volume) && Standard(s.volume, s.disk)
    ensures |r.disk| == |s.disk|
  {
    var r := Create(s.volume, readOnly, name, blocks, today);
    if r.Err? then s
    else
      var k := FirstFit(s.volume, 0, blocks);
      InsertedFiles(s.volume, k, NewFile(s.volume, k, name, today), k);
      Mounted(r.value, CreateDisk(s.disk, s.volume, r.value, k))
  }

  function AfterUnlink(s: Mounted, readOnly: bool, name: seq<byte>): (r: Mounted)
    requires VolumeOk(s.volume) && Standard(s.volume, s.disk)
    ensures |r.disk| == |s.disk|
  {
    var r := Unlink(s.volume, readOnly, name);
    if r.Err? then s else Mounted(r.value, UnlinkDisk(s.disk, r.value, FindName(s.volume.files, name)))
  }

  lemma {:induction false} CreateMounted(s: Mounted, readOnly: bool, name: seq<byte>, blocks: nat, today: nat)
    requires MountedOk(s) && blocks >= 1 && today < WORD16
    ensures var r := AfterCreate(s, readOnly, name, blocks, today); MountedOk(r) && SameOutside(s.disk, r.disk)
  {
    hide Inserted, CreateDisk, DirOk, ExtentsOk, MaxOk, AddressesOk, NamesUnique, FindName, SameExtent;
    var v := s.volume;
    if Create(v, readOnly, name, blocks, today).Ok? {
      var k := FirstFit(v, 0, blocks);
      CreateKeeps(v, readOnly, name, blocks, today);
      LastFits(s, k);
      CreateDiskOk(s.disk, v, k, NewFile(v, k, name, today));
    }
  }

  lemma {:induction false} UnlinkMounted(s: Mounted, readOnly: bool, name: seq<byte>)
    requires MountedOk(s)
    ensures var r := AfterUnlink(s, readOnly, name); MountedOk(r) && SameOutside(s.disk, r.disk)
  {
    if Unlink(s.volume, readOnly, name).Ok? {
      HasAddresses(s.volume);
      UnlinkKeeps(s.volume, readOnly, name);
      UnlinkDiskOk(s.disk, s.volume, FindName(s.volume.files, name));
    }
  }

  /** One operation on a writable volume. */
  function DirStep(s: Mounted, op: DirOp): (r: Mounted)
    requires MountedOk(s) && LegalOp(op)
    ensures MountedOk(r) && SameOutside(s.disk, r.disk)
  {
    match op
    case CreateFile(name, blocks, today) =>
      CreateMounted(s, false, name, blocks, today);
      AfterCreate(s, false, name, blocks, today)
    case UnlinkFile(name) =>
      UnlinkMounted(s, false, name);
      AfterUnlink(s, false, name)
  }

  function DirRun(s: Mounted, ops: seq<DirOp>): (r: Mounted)
    requires MountedOk(s) && forall k :: 0 <= k < |ops| ==> LegalOp(ops[k])
    ensures MountedOk(r) && SameOutside(s.disk, r.disk)
    decreases |ops|
  {
    if ops == [] then s else DirRun(DirStep(s, ops[0]), ops[1..])
  }

  /**
   After every run of create and unlink, loading the disk gives exactly the volume in memory,
   and no block outside the directory has changed.
   */
  lemma {:induction false} ReloadAfterRun(s: Mounted, ops: seq<DirOp>, junk: seq<byte>)
    requires MountedOk(s) && |junk| == 7 && forall k :: 0 <= k < |ops| ==> LegalOp(ops[k])
    ensures var r := DirRun(s, ops);
      && Readable(r.disk) && Load(r.disk, junk) == Opened(r.volume.(tail := junk[|r.volume.name|..]))
      && SameOutside(s.disk, r.disk) && VolumeOk(r.volume) && NamesUnique(r.volume.files)
  {
    var r := DirRun(s, ops);
    LoadAgrees(r.disk, r.volume, junk);
  }
}
