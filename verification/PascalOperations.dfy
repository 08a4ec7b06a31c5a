/** create, unlink and copy on a Pascal volume in memory: when they succeed, what they keep and what they undo. */
module PascalOperations {
  import opened Blocks
  import opened PascalVolumeSpec

  // ---------------------------------------------------------------- create

  function Create(v: Volume, readOnly: bool, name: seq<byte>, blocks: nat, today: nat): Result<Volume>
    requires VolumeOk(v)
  {
    if readOnly then Err(EROFS)
    else if |v.files| == MAX_FILES then Err(ENOSPC)
    else if !ValidName(name) then Err(EINVAL)
    else if FindName(v.files, name) < |v.files| then Err(EEXIST)
    else
      var k := FirstFit(v, 0, blocks);
      if k > |v.files| then Err(ENOSPC) else Ok(Inserted(v, k, NewFile(v, k, name, today)))
  }

  /** With a legal fresh name and a free entry, create succeeds exactly when some gap is large enough. */
  lemma {:induction false} CreateSucceeds(v: Volume, name: seq<byte>, n: nat, today: nat)
    requires VolumeOk(v) && |v.files| < MAX_FILES && ValidName(name) && FindName(v.files, name) == |v.files| && n >= 1
    ensures Create(v, false, name, n, today).Ok? <==> MaxContiguousBlocks(v) >= n
  {
    FitsExactly(v, n);
  }

  /** 1 to 15 printing characters without dollar sign, comma, equals sign and question mark. */
  predicate Legal(name: seq<byte>) {
    && 1 <= |name| <= 15
    && forall i :: 0 <= i < |name| ==>
      33 <= name[i] <= 126 && name[i] != 36 && name[i] != 44 && name[i] != 61 && name[i] != 63
  }

  ghost predicate Taken(files: seq<File>, name: seq<byte>) {
    exists k :: 0 <= k < |files| && SameName(name, files[k].name)
  }

  /** Every reason for create to fail, in the order in which they are looked for. */
  lemma {:induction false} CreateErrors(v: Volume, readOnly: bool, name: seq<byte>, n: nat, today: nat)
    requires VolumeOk(v) && n >= 1
    ensures var r, full := Create(v, readOnly, name, n, today), |v.files| == 77;
      && (r == Err(EROFS) <==> readOnly)
      && (r == Err(EINVAL) <==> !readOnly && !full && !Legal(name))
      && (r == Err(EEXIST) <==> !readOnly && !full && Legal(name) && Taken(v.files, name))
      && (r == Err(ENOSPC) <==>
        !readOnly && (full || (Legal(name) && !Taken(v.files, name) && MaxContiguousBlocks(v) < n)))
      && r != Err(ENOENT)
  {
    LegalIsValid(name);
    FitsExactly(v, n);
    hide ValidName, Legal, VolumeOk, MaxContiguousBlocks, Gap;
  }

  lemma {:induction false} LegalIsValid(name: seq<byte>)
    ensures Legal(name) <==> ValidName(name)
  {
    if ValidName(name) {
      forall i | 0 <= i < |name| ensures ValidChar(name[i]) {
      }
    }
  }

  lemma {:induction false} InsertedUnique(v: Volume, k: nat, f: File)
    requires VolumeOk(v) && k <= |v.files| && f.address == DIRECTORY + ENTRY * (k + 1)
    requires NamesUnique(v.files) && forall j :: 0 <= j < |v.files| ==> !SameName(f.name, v.files[j].name)
    ensures NamesUnique(Inserted(v, k, f).files)
  {
    var r := Inserted(v, k, f).files;
    forall i, j | 0 <= i < j < |r| ensures !SameName(r[i].name, r[j].name) {
      InsertedName(v, k, f, i);
      InsertedName(v, k, f, j);
    }
  }

  lemma {:induction false} InsertedName(v: Volume, k: nat, f: File, j: nat)
    requires VolumeOk(v) && k <= |v.files| && j <= |v.files| && f.address == DIRECTORY + ENTRY * (k + 1)
    ensures var r := Inserted(v, k, f).files;
      |r| == |v.files| + 1
      && r[j].name == if j < k then v.files[j].name else if j == k then f.name else v.files[j - 1].name
  {
    InsertedFiles(v, k, f, j);
    if j < k {
      OkAt(v, k - 1);
      CappedMax(v.files, k, j);
    }
  }

  /**
   What a successful create does: the new one-block file goes at the start of the first gap that fits,
   every other file keeps its place, and the volume stays in order.
   */
  lemma {:induction false} CreateKeeps(v: Volume, readOnly: bool, name: seq<byte>, n: nat, today: nat)
    requires VolumeOk(v) && NamesUnique(v.files) && n >= 1 && Create(v, readOnly, name, n, today).Ok?
    ensures var w := Create(v, readOnly, name, n, today).value; var k := FirstFit(v, 0, n);
      && VolumeOk(w) && NamesUnique(w.files) && |w.files| == |v.files| + 1 && k <= |v.files|
      && w.files[k] == File(PrevLast(v, k), PrevLast(v, k) + 1, 0, false, w.files[k].name, 0, today,
                            w.files[k].maxFileSize, 1024 + 26 * (k + 1))
      && Matching(name, w.files[k].name) && (forall i :: 0 <= i < |name| ==> !(97 <= w.files[k].name[i] <= 122))
      && w.files[k].maxFileSize >= n * 512
      && (forall j :: 0 <= j < k ==> Gap(v, j) < n)
      && (forall j: nat :: j < |v.files| ==> SameExtent(w.files[if j < k then j else j + 1], v.files[j]))
  {
    var w := Create(v, readOnly, name, n, today).value;
    var k := FirstFit(v, 0, n);
    var f := NewFile(v, k, name, today);
    InsertedOk(v, k, name, today);
    KeyUpper(name);
    UpperIs(name);
    InsertedUnique(v, k, f);
    InsertedFiles(v, k, f, k);
    hide Upper, Inserted, Create;
    forall j: nat | j < |v.files| ensures SameExtent(w.files[if j < k then j else j + 1], v.files[j]) {
      InsertedSame(v, k, f, j);
    }
  }

  /** The same file, up to its limit and its place in the directory. */
  predicate SameExtent(f: File, g: File) {
    f == g.(maxFileSize := f.maxFileSize, address := f.address)
  }

  lemma {:induction false} InsertedSame(v: Volume, k: nat, f: File, j: nat)
    requires VolumeOk(v) && k <= |v.files| && j < |v.files| && f.address == DIRECTORY + ENTRY * (k + 1)
    ensures var r := Inserted(v, k, f).files;
      |r| == |v.files| + 1 && SameExtent(r[if j < k then j else j + 1], v.files[j])
  {
    hide ExtentsOk, MaxOk, AddressesOk, Inserted, Capped;
    InsertedFiles(v, k, f, if j < k then j else j + 1);
    if j < k {
      OkAt(v, k - 1);
      CappedMax(v.files, k, j);
    }
  }

  /** Asked for no room, create still takes a block: the volume stays in order exactly if the first gap has one. */
  lemma {:induction false} CreateZero(v: Volume, name: seq<byte>, today: nat)
    requires VolumeOk(v) && |v.files| < MAX_FILES && ValidName(name) && FindName(v.files, name) == |v.files|
    ensures var r := Create(v, false, name, 0, today); r.Ok? && (VolumeOk(r.value) <==> Gap(v, 0) >= 1)
  {
    assert Gap(v, 0) >= 0;
    InsertedOk(v, 0, name, today);
  }

  /** On any empty volume with room: after create(a, 1), create(b, 0) makes both files share the first block. */
  lemma {:induction false} CreateZeroOverlaps(v: Volume, a: seq<byte>, b: seq<byte>, today: nat)
    requires VolumeOk(v) && v.files == [] && Gap(v, 0) >= 1 && ValidName(a) && ValidName(b) && !SameName(a, b)
    ensures var r := Create(v, false, a, 1, today);
      && r.Ok? && VolumeOk(r.value)
      && var r' := Create(r.value, false, b, 0, today);
      && r'.Ok? && !VolumeOk(r'.value) && |r'.value.files| == 2
      && r'.value.files[0].firstBlock == r'.value.files[1].firstBlock == v.lastBlock
      && r'.value.files[0].Blocks() == r'.value.files[1].Blocks() == 1
  {
    hide ValidName;
    var f := NewFile(v, 0, a, today);
    var w := Inserted(v, 0, f);
    KeyUpper(a);
    InsertedOk(v, 0, a, today);
    InsertedFiles(v, 0, f, 0);
    assert FindName(v.files, a) == 0 && w.files == [f];
    assert FindName(w.files[1..], b) == 0 && FindName(w.files, b) == 1;
    assert Gap(w, 0) == 0;
    CreateZero(w, b, today);
    InsertedFiles(w, 0, NewFile(w, 0, b, today), 0);
    InsertedFiles(w, 0, NewFile(w, 0, b, today), 1);
  }

  // ---------------------------------------------------------------- unlink

  function Unlink(v: Volume, readOnly: bool, name: seq<byte>): Result<Volume>
    requires VolumeOk(v)
  {
    HasAddresses(v);
    if readOnly then Err(EROFS)
    else
      var k := FindName(v.files, name);
      if k == |v.files| then Err(ENOENT) else Ok(Removed(v, k))
  }

  lemma {:induction false} RemovedName(v: Volume, k: nat, j: nat)
    requires VolumeOk(v) && k < |v.files| && j < |v.files| - 1
    requires forall j :: 0 <= j < |v.files| ==> v.files[j].address >= ENTRY
    ensures SameExtent(Removed(v, k).files[j], v.files[if j < k then j else j + 1])
  {
    RemovedFiles(v, k, j);
    ExtendedMax(v.files, k, j);
  }

  /** What a successful unlink does: the first file with the name goes, every other keeps its place. */
  lemma {:induction false} UnlinkKeeps(v: Volume, readOnly: bool, name: seq<byte>)
    requires VolumeOk(v) && Unlink(v, readOnly, name).Ok?
    ensures var w := Unlink(v, readOnly, name).value; var k := FindName(v.files, name);
      && VolumeOk(w) && (NamesUnique(v.files) ==> NamesUnique(w.files)) && |w.files| == |v.files| - 1
      && MaxContiguousBlocks(w) >= MaxContiguousBlocks(v)
      && (forall j: nat :: j < |w.files| ==> SameExtent(w.files[j], v.files[if j < k then j else j + 1]))
  {
    HasAddresses(v);
    var w := Unlink(v, readOnly, name).value;
    var k := FindName(v.files, name);
    RemovedOk(v, k);
    RemovedContiguous(v, k);
    forall j: nat | j < |w.files| ensures SameExtent(w.files[j], v.files[if j < k then j else j + 1]) {
      RemovedName(v, k, j);
    }
  }

  lemma {:induction false} FindExactly(files: seq<File>, name: seq<byte>, k: nat)
    requires k < |files| && SameName(name, files[k].name)
    requires forall j :: 0 <= j < k ==> !SameName(name, files[j].name)
    ensures FindName(files, name) == k
  {
  }

  /** Unlinking the file just created gives back the volume as it was, limits and addresses included. */
  lemma {:induction false} UnlinkUndoesCreate(v: Volume, name: seq<byte>, n: nat, today: nat)
    requires VolumeOk(v) && n >= 1 && Create(v, false, name, n, today).Ok?
    ensures var w := Create(v, false, name, n, today).value; VolumeOk(w) && Unlink(w, false, name) == Ok(v)
  {
    var k := FirstFit(v, 0, n);
    var f := NewFile(v, k, name, today);
    var w := Inserted(v, k, f);
    InsertedOk(v, k, name, today);
    InsertedFiles(v, k, f, k);
    KeyUpper(name);
    forall j | 0 <= j < k ensures !SameName(name, w.files[j].name) {
      InsertedName(v, k, f, j);
    }
    FindExactly(w.files, name, k);
    HasAddresses(w);
    var u := Removed(w, k);
    hide Inserted, Removed, ExtentsOk, MaxOk, FindName, FirstFit, NewFile, Create;
    forall j: nat | j < |v.files| ensures u.files[j] == v.files[j] {
      BackAgain(v, k, name, today, j);
    }
    OnlyFiles(v, k, f);
    assert u.files == v.files;
  }

  lemma {:induction false} OnlyFiles(v: Volume, k: nat, f: File)
    requires VolumeOk(v) && k <= |v.files| && f.address == DIRECTORY + ENTRY * (k + 1)
    requires VolumeOk(Inserted(v, k, f))
    ensures var w := Inserted(v, k, f);
      k < |w.files| && (forall j :: 0 <= j < |w.files| ==> w.files[j].address >= ENTRY)
      && Removed(w, k) == v.(files := Removed(w, k).files) && |Removed(w, k).files| == |v.files|
  {
    InsertedFiles(v, k, f, k);
    HasAddresses(Inserted(v, k, f));
  }

  lemma {:induction false} BackAgain(v: Volume, k: nat, name: seq<byte>, today: nat, j: nat)
    requires VolumeOk(v) && k <= |v.files| && Gap(v, k) >= 1 && j < |v.files|
    requires var w := Inserted(v, k, NewFile(v, k, name, today));
      VolumeOk(w) && k < |w.files| == |v.files| + 1 && forall j :: 0 <= j < |w.files| ==> w.files[j].address >= ENTRY
    ensures Removed(Inserted(v, k, NewFile(v, k, name, today)), k).files[j] == v.files[j]
  {
    var f := NewFile(v, k, name, today);
    var w := Inserted(v, k, f);
    RemovedFiles(w, k, j);
    InsertedFiles(v, k, f, k);
    HasAddresses(v);
    AddressAt(v.files, j);
    if j < k {
      InsertedFiles(v, k, f, j);
      OkAt(v, k - 1);
      CappedMax(v.files, k, j);
      ExtendedMax(w.files, k, j);
    } else {
      InsertedFiles(v, k, f, j + 1);
    }
  }

  // ---------------------------------------------------------------- copy

  /** A failed copy may have changed the volume. */
  datatype Outcome = Copied(volume: Volume, target: nat) | Failed(volume: Volume, errno: Errno)

  /** The target takes the source's kind, end and length. */
  function Retargeted(v: Volume, k: nat, source: File, today: nat): Volume
    requires k < |v.files| && source.Blocks() >= 0
  {
    v.(files := v.files[k := v.files[k].(fileKind := source.fileKind, lastByte := source.lastByte,
        lastBlock := v.files[k].firstBlock + source.Blocks(), modification := today)])
  }

  /** The part of copy for a target that does not exist or was just unlinked. */
  function CopyToNew(v: Volume, source: File, newName: seq<byte>, today: nat): Outcome
    requires VolumeOk(v) && source.Blocks() >= 0
  {
    if MaxContiguousBlocks(v) < source.Blocks() then Failed(v, ENOSPC)
    else
      var r := Create(v, false, newName, source.Blocks(), today);
      if r.Err? then Failed(v, r.errno)
      else
        var k := FirstFit(v, 0, source.Blocks());
        Copied(Retargeted(r.value, k, source, today), k)
  }

  function Copy(v: Volume, readOnly: bool, oldName: seq<byte>, newName: seq<byte>, today: nat): Outcome
    requires VolumeOk(v)
  {
    var i, j := FindName(v.files, oldName), FindName(v.files, newName);
    if readOnly then Failed(v, EROFS)
    else if i == |v.files| then Failed(v, ENOENT)
    else if !ValidName(newName) then Failed(v, EINVAL)
    else
      OkAt(v, i);
      var source := v.files[i];
      if j == |v.files| then CopyToNew(v, source, newName, today)
      else if v.files[j].maxFileSize >= source.Blocks() * 512 then Copied(Retargeted(v, j, source, today), j)
      else if MaxContiguousBlocks(v) < source.Blocks() then Failed(v, ENOSPC)
      else
        HasAddresses(v);
        RemovedOk(v, j);
        CopyToNew(Removed(v, j), source, newName, today)
  }

  /** Another file with the name of file j, behind it. */
  ghost predicate NameAgain(files: seq<File>, name: seq<byte>, j: nat) {
    exists i :: j < i < |files| && SameName(name, files[i].name)
  }

  lemma {:induction false} RemovedFind(v: Volume, j: nat, name: seq<byte>)
    requires VolumeOk(v) && j == FindName(v.files, name) < |v.files|
    requires forall j :: 0 <= j < |v.files| ==> v.files[j].address >= ENTRY
    ensures FindName(Removed(v, j).files, name) < |v.files| - 1 <==> NameAgain(v.files, name, j)
  {
    var w := Removed(v, j);
    forall i: nat | i < |w.files| ensures w.files[i].name == v.files[if i < j then i else i + 1].name {
      RemovedName(v, j, i);
    }
    var k := FindName(w.files, name);
    if NameAgain(v.files, name, j) {
      var i :| j < i < |v.files| && SameName(name, v.files[i].name);
      assert w.files[i - 1].name == v.files[i].name;
    }
  }

  /**
   When copy fails, it has changed nothing: except when it had to unlink a target that was too small and
   a second file of that name is behind it.
   */
  lemma {:induction false} CopyHalfDone(v: Volume, readOnly: bool, oldName: seq<byte>, newName: seq<byte>, today: nat)
    requires VolumeOk(v)
    ensures var r := Copy(v, readOnly, oldName, newName, today);
      var i, j := FindName(v.files, oldName), FindName(v.files, newName);
      r.Failed? && r.volume != v <==>
        && !readOnly && i < |v.files| && ValidName(newName) && j < |v.files|
        && v.files[j].maxFileSize < v.files[i].Blocks() * 512 && MaxContiguousBlocks(v) >= v.files[i].Blocks()
        && NameAgain(v.files, newName, j)
  {
    hide CopyToNew, MaxContiguousBlocks, ValidName, FindName;
    var i, j := FindName(v.files, oldName), FindName(v.files, newName);
    if i < |v.files| {
      OkAt(v, i);
      CopyToNewFails(v, v.files[i], newName, today);
      if j < |v.files| {
        OkAt(v, j);
        HasAddresses(v);
        RemovedOk(v, j);
        RemovedContiguous(v, j);
        RemovedFind(v, j, newName);
        CopyToNewFails(Removed(v, j), v.files[i], newName, today);
        assert |Removed(v, j).files| != |v.files|;
      }
    }
  }

  /**
   A volume of 20 blocks with the files A (6 to 8), B (8 to 9) and, loaded from a disk with a duplicate name, B again
   (9 to 10).
   */
  function DuplicateVolume(): Volume {
    Volume(0, 6, 0, [], [0, 0, 0, 0, 0, 0, 0], 20, 0, 0, [
      File(6, 8, UNTYPED, false, [65], 512, 0, 2 * 512, 1050),
      File(8, 9, UNTYPED, false, [66], 512, 0, 512, 1076),
      File(9, 10, UNTYPED, false, [66], 512, 0, 11 * 512, 1102)])
  }

  /** Copying A to B there unlinks the first B and then fails, since create finds the second. */
  lemma {:induction false} CopyHalfDoneExample(today: nat)
    ensures var v := DuplicateVolume();
      && VolumeOk(v)
      && var r := Copy(v, false, [65], [66], today);
      && r.Failed? && r.errno == EEXIST
      && |r.volume.files| == 2 && r.volume.files[0].firstBlock == 6 && r.volume.files[1].firstBlock == 9
  {
    DuplicateOk();
    Letters();
    DuplicateNames(DuplicateVolume().files);
    hide Copy, VolumeOk, Key, FindName, Removed, NameAgain, ValidName, MaxContiguousBlocks;
    var v := DuplicateVolume();
    HalfDoneIs(v, [65], [66], today);
    RemovedFiles(v, 1, 0);
    RemovedFiles(v, 1, 1);
    ExtendedMax(v.files, 1, 0);
  }

  lemma {:induction false} DuplicateOk()
    ensures VolumeOk(DuplicateVolume()) && MaxContiguousBlocks(DuplicateVolume()) >= 10
  {
    hide DuplicateVolume, VolumeOk, MaxContiguousBlocks, MaxFits, ExtentOk, Gap;
    DuplicateEnd();
    DuplicateFile(0);
    DuplicateFile(1);
    DuplicateFile(2);
    OkByParts(DuplicateVolume());
  }

  lemma {:induction false} OkByParts(v: Volume)
    requires |v.files| <= MAX_FILES && Gap(v, |v.files|) >= 0
    requires forall k: nat :: k < |v.files| ==>
      ExtentOk(v, k) && MaxFits(v, k) && Gap(v, k) >= 0 && v.files[k].address == DIRECTORY + ENTRY * (k + 1)
    ensures VolumeOk(v) && MaxContiguousBlocks(v) >= Gap(v, |v.files|)
  {
    MaxGapBounds(v, |v.files| + 1);
    forall k: nat | k <= |v.files| ensures Gap(v, k) >= 0 {
      assert k < |v.files| ==> ExtentOk(v, k);
    }
  }

  lemma {:induction false} DuplicateEnd()
    ensures |DuplicateVolume().files| == 3 && Gap(DuplicateVolume(), 3) == 10
  {
  }

  lemma {:induction false} DuplicateFile(k: nat)
    requires k < 3
    ensures var v := DuplicateVolume();
      ExtentOk(v, k) && MaxFits(v, k) && Gap(v, k) == 0 && v.files[k].address == DIRECTORY + ENTRY * (k + 1)
  {
  }

  lemma {:induction false} DuplicateNames(files: seq<File>)
    requires |files| == 3 && files[0].name == [65] && files[1].name == [66] && files[2].name == [66]
    ensures FindName(files, [65]) == 0 && FindName(files, [66]) == 1 && NameAgain(files, [66], 1)
  {
    Letters();
    hide Key;
    assert FindName(files[1..], [66]) == 0;
    assert SameName([66], files[2].name);
  }

  lemma {:induction false} Letters()
    ensures SameName([65], [65]) && SameName([66], [66]) && !SameName([66], [65]) && ValidName([66])
  {
    assert Key([65]) == [97] && Key([66]) == [98];
  }

  /** What is left when copy fails half done. */
  lemma {:induction false} HalfDoneIs(v: Volume, oldName: seq<byte>, newName: seq<byte>, today: nat)
    requires VolumeOk(v)
    requires var r := Copy(v, false, oldName, newName, today);
      var i, j := FindName(v.files, oldName), FindName(v.files, newName);
      && i < |v.files| && j < |v.files| && ValidName(newName) && NameAgain(v.files, newName, j)
      && v.files[j].maxFileSize < v.files[i].Blocks() * 512 && MaxContiguousBlocks(v) >= v.files[i].Blocks()
    ensures (forall k :: 0 <= k < |v.files| ==> v.files[k].address >= ENTRY)
    ensures Copy(v, false, oldName, newName, today) == Failed(Removed(v, FindName(v.files, newName)), EEXIST)
  {
    hide MaxContiguousBlocks, ValidName, FindName;
    var i, j := FindName(v.files, oldName), FindName(v.files, newName);
    OkAt(v, i);
    OkAt(v, j);
    HasAddresses(v);
    RemovedOk(v, j);
    RemovedContiguous(v, j);
    RemovedFind(v, j, newName);
  }

  /** Given room, copying to a new name fails exactly if the name is taken; a failure changes nothing. */
  lemma {:induction false} CopyToNewFails(v: Volume, source: File, newName: seq<byte>, today: nat)
    requires VolumeOk(v) && source.Blocks() >= 0
    ensures var r := CopyToNew(v, source, newName, today);
      && (r.Failed? ==> r.volume == v)
      && (MaxContiguousBlocks(v) >= source.Blocks() >= 1 && ValidName(newName) && |v.files| < MAX_FILES ==>
        (r.Failed? <==> FindName(v.files, newName) < |v.files|))
  {
    if source.Blocks() >= 1 {
      FitsExactly(v, source.Blocks());
    }
  }

  /** With distinct names a copy either changes nothing or succeeds. */
  lemma {:induction false} CopyAllOrNothing(v: Volume, readOnly: bool, oldName: seq<byte>, newName: seq<byte>,
                                            today: nat)
    requires VolumeOk(v) && NamesUnique(v.files)
    ensures var r := Copy(v, readOnly, oldName, newName, today); r.Failed? ==> r.volume == v
  {
    CopyHalfDone(v, readOnly, oldName, newName, today);
    assert FindName(v.files, newName) < |v.files| ==> !NameAgain(v.files, newName, FindName(v.files, newName));
  }

  lemma {:induction false} RetargetedGaps(v: Volume, k: nat, source: File, today: nat, j: nat)
    requires k < |v.files| && source.Blocks() >= 0 && j <= |v.files|
    ensures var w := Retargeted(v, k, source, today);
      && |w.files| == |v.files| && NextFirst(w, j) == NextFirst(v, j)
      && PrevLast(w, j) == if j == k + 1 then v.files[k].firstBlock + source.Blocks() else PrevLast(v, j)
  {
  }

  /** Giving file k the length of the source keeps the order when k has room for it. */
  lemma {:induction false} RetargetedOk(v: Volume, k: nat, source: File, today: nat)
    requires |v.files| <= MAX_FILES && MaxOk(v) && AddressesOk(v.files) && k < |v.files| && source.Blocks() >= 0
    requires forall j :: 0 <= j <= |v.files| && j != k + 1 ==> Gap(v, j) >= 0
    requires forall j :: 0 <= j < |v.files| && j != k ==> ExtentOk(v, j)
    requires v.files[k].firstBlock < v.lastVolumeBlock && v.files[k].maxFileSize >= source.Blocks() * 512
    ensures VolumeOk(Retargeted(v, k, source, today))
    ensures forall j :: 0 <= j < |v.files| ==> Retargeted(v, k, source, today).files[j].name == v.files[j].name
  {
    var w := Retargeted(v, k, source, today);
    assert MaxFits(v, k);
    forall j: nat | j <= |v.files| ensures Gap(w, j) >= 0 {
      RetargetedGaps(v, k, source, today, j);
      assert j != k + 1 ==> Gap(v, j) >= 0;
    }
    forall j: nat | j < |v.files| ensures ExtentOk(w, j) && MaxFits(w, j) {
      RetargetedGaps(v, k, source, today, j + 1);
      assert j != k ==> ExtentOk(v, j);
      assert MaxFits(v, j);
    }
    assert AddressesOk(w.files);
  }

  /** The file create made, before it gets the source's length. */
  lemma {:induction false} MadeOrdered(v: Volume, k: nat, n: nat, newName: seq<byte>, today: nat)
    requires VolumeOk(v) && v.files != [] && k == FirstFit(v, 0, n) <= |v.files| < MAX_FILES && Gap(v, k) >= 0
    ensures var f := NewFile(v, k, newName, today); var w := Inserted(v, k, f);
      && |w.files| == |v.files| + 1 && MaxOk(w) && AddressesOk(w.files) && w.files[k] == f
      && (forall j :: 0 <= j <= |w.files| && j != k + 1 ==> Gap(w, j) >= 0)
      && (forall j :: 0 <= j < |w.files| && j != k ==> ExtentOk(w, j))
      && f.firstBlock < w.lastVolumeBlock
  {
    var f := NewFile(v, k, newName, today);
    var w := Inserted(v, k, f);
    InsertedOk(v, k, newName, today);
    InsertedFiles(v, k, f, k);
    forall j: nat | j <= |v.files| + 1 ensures j != k + 1 ==> Gap(w, j) >= 0 {
      InsertedGaps(v, k, f, j);
      assert j < k ==> Gap(v, j) >= 0;
      assert j > k + 1 ==> Gap(v, j - 1) >= 0;
    }
    forall j: nat | j <= |v.files| ensures j != k ==> ExtentOk(w, j) {
      InsertedFileOk(v, k, f, j);
    }
    FirstInside(v, k, n);
  }

  lemma {:induction false} CopyToNewKeeps(v: Volume, source: File, newName: seq<byte>, today: nat)
    requires VolumeOk(v) && source.Blocks() >= 0 && v.files != []
    requires CopyToNew(v, source, newName, today).Copied?
    ensures var r := CopyToNew(v, source, newName, today);
      && VolumeOk(r.volume) && (NamesUnique(v.files) ==> NamesUnique(r.volume.files)) && r.target < |r.volume.files|
      && IsCopy(r.volume.files[r.target], source, newName, today)
      && |r.volume.files| == |v.files| + 1 && forall j: nat :: j < |v.files| ==> Listed(r, v.files[j])
  {
    hide VolumeOk, ValidName, MaxContiguousBlocks, Inserted, Gap, MaxOk, ExtentOk, AddressesOk, Listed, Key;
    hide NamesUnique;
    var n := source.Blocks();
    var k := FirstFit(v, 0, n);
    Bounds(v, k);
    var f := NewFile(v, k, newName, today);
    var w := Inserted(v, k, f);
    MadeOrdered(v, k, n, newName, today);
    RetargetedOk(w, k, source, today);
    KeyUpper(newName);
    if NamesUnique(v.files) {
      FreshName(v.files, newName, f.name);
      InsertedUnique(v, k, f);
    }
    UniqueByName(w.files, Retargeted(w, k, source, today).files);
    forall j: nat | j < |v.files| ensures Listed(CopyToNew(v, source, newName, today), v.files[j]) {
      InsertedSame(v, k, f, j);
      ListedAt(CopyToNew(v, source, newName, today), if j < k then j else j + 1, v.files[j]);
    }
  }

  lemma {:induction false} Bounds(v: Volume, k: nat)
    requires VolumeOk(v) && k <= |v.files|
    ensures |v.files| <= MAX_FILES && (k > 0 ==> ExtentOk(v, k - 1))
  {
  }

  lemma {:induction false} FreshName(files: seq<File>, newName: seq<byte>, name: seq<byte>)
    requires FindName(files, newName) == |files| && SameName(newName, name)
    ensures forall j :: 0 <= j < |files| ==> !SameName(name, files[j].name)
  {
  }

  /** The target of a copy: its name, and what it took from the source. */
  predicate IsCopy(f: File, source: File, name: seq<byte>, today: nat) {
    && SameName(name, f.name) && f.Blocks() == source.Blocks()
    && f.fileKind == source.fileKind && f.lastByte == source.lastByte && f.modification == today
  }

  /** The file is still listed, with its extent and all else but limit and address, and is not the target. */
  ghost predicate Listed(r: Outcome, f: File)
    requires r.Copied?
  {
    exists k :: 0 <= k < |r.volume.files| && k != r.target && SameExtent(r.volume.files[k], f)
  }

  lemma {:induction false} ListedAt(r: Outcome, k: nat, f: File)
    requires r.Copied? && k < |r.volume.files| && k != r.target && SameExtent(r.volume.files[k], f)
    ensures Listed(r, f)
  {
  }

  lemma {:induction false} ListedSame(r: Outcome, f: File, g: File)
    requires r.Copied? && Listed(r, f) && SameExtent(f, g)
    ensures Listed(r, g)
  {
    var k :| 0 <= k < |r.volume.files| && k != r.target && SameExtent(r.volume.files[k], f);
    ListedAt(r, k, g);
  }

  lemma {:induction false} UniqueByName(a: seq<File>, b: seq<File>)
    requires |a| == |b| && forall j :: 0 <= j < |a| ==> b[j].name == a[j].name
    ensures NamesUnique(a) ==> NamesUnique(b)
  {
  }

  lemma {:induction false} FirstInside(v: Volume, k: nat, n: nat)
    requires VolumeOk(v) && v.files != [] && k == FirstFit(v, 0, n) <= |v.files|
    ensures PrevLast(v, k) < v.lastVolumeBlock
  {
    if k > 0 && k == |v.files| {
      assert n > 0 by {
        assert Gap(v, 0) >= 0;
      }
      assert Gap(v, k) >= n;
    } else {
      OkAt(v, k);
    }
  }

  /**
   Copy keeps the volume in order, for sources of any length. The target bears the new name and has the source's
   length, kind and end; every file but the one that had the name is still listed as it was, and no others are.
   */
  lemma {:induction false} CopyKeeps(v: Volume, readOnly: bool, oldName: seq<byte>, newName: seq<byte>, today: nat)
    requires VolumeOk(v) && Copy(v, readOnly, oldName, newName, today).Copied?
    ensures var r := Copy(v, readOnly, oldName, newName, today);
      var i, j := FindName(v.files, oldName), FindName(v.files, newName);
      && VolumeOk(r.volume) && (NamesUnique(v.files) ==> NamesUnique(r.volume.files))
      && r.target < |r.volume.files| && i < |v.files|
      && IsCopy(r.volume.files[r.target], v.files[i], newName, today)
      && |r.volume.files| == (if j == |v.files| then |v.files| + 1 else |v.files|)
      && forall k: nat :: k < |v.files| && k != j ==> Listed(r, v.files[k])
  {
    hide CopyToNew, MaxContiguousBlocks, ValidName, FindName, Removed, Listed, IsCopy;
    var i, j := FindName(v.files, oldName), FindName(v.files, newName);
    var source := v.files[i];
    OkAt(v, i);
    if j == |v.files| {
      CopyToNewKeeps(v, source, newName, today);
    } else if v.files[j].maxFileSize >= source.Blocks() * 512 {
      CopyOverKeeps(v, j, source, newName, today);
    } else {
      HasAddresses(v);
      RemovedOk(v, j);
      CopyReplaces(v, i, j, newName, today);
    }
  }

  /** The target is large enough. */
  lemma {:induction false} CopyOverKeeps(v: Volume, j: nat, source: File, newName: seq<byte>, today: nat)
    requires VolumeOk(v) && j < |v.files| && source.Blocks() >= 0 && v.files[j].maxFileSize >= source.Blocks() * 512
    requires SameName(newName, v.files[j].name)
    ensures var w := Retargeted(v, j, source, today); var r := Copied(w, j);
      && VolumeOk(w) && (NamesUnique(v.files) ==> NamesUnique(w.files)) && IsCopy(w.files[j], source, newName, today)
      && forall k: nat :: k < |v.files| && k != j ==> Listed(r, v.files[k])
  {
    OkAt(v, j);
    RetargetedOk(v, j, source, today);
    UniqueByName(v.files, Retargeted(v, j, source, today).files);
    forall k: nat | k < |v.files| && k != j ensures Listed(Copied(Retargeted(v, j, source, today), j), v.files[k]) {
      ListedAt(Copied(Retargeted(v, j, source, today), j), k, v.files[k]);
    }
  }

  lemma {:induction false} TooSmall(v: Volume, i: nat, j: nat)
    requires VolumeOk(v) && i < |v.files| && j < |v.files| && v.files[j].maxFileSize < v.files[i].Blocks() * 512
    ensures i != j
  {
    OkAt(v, j);
  }

  /** The target is too small: it is unlinked, and a new one made. */
  lemma {:induction false} CopyReplaces(v: Volume, i: nat, j: nat, newName: seq<byte>, today: nat)
    requires VolumeOk(v) && i < |v.files| && j == FindName(v.files, newName) < |v.files|
    requires v.files[j].maxFileSize < v.files[i].Blocks() * 512
    requires forall k :: 0 <= k < |v.files| ==> v.files[k].address >= ENTRY
    requires VolumeOk(Removed(v, j)) && v.files[i].Blocks() >= 0
    requires CopyToNew(Removed(v, j), v.files[i], newName, today).Copied?
    ensures var r := CopyToNew(Removed(v, j), v.files[i], newName, today);
      && VolumeOk(r.volume) && (NamesUnique(v.files) ==> NamesUnique(r.volume.files))
      && r.target < |r.volume.files| == |v.files| && IsCopy(r.volume.files[r.target], v.files[i], newName, today)
      && forall k: nat :: k < |v.files| && k != j ==> Listed(r, v.files[k])
  {
    hide CopyToNew, ValidName, FindName, Removed, Listed, IsCopy, MaxContiguousBlocks, ExtentsOk, MaxOk, AddressesOk;
    UnlinkKeeps(v, false, newName);
    TooSmall(v, i, j);
    var w, r := Removed(v, j), CopyToNew(Removed(v, j), v.files[i], newName, today);
    CopyToNewKeeps(w, v.files[i], newName, today);
    forall k: nat | k < |v.files| && k != j ensures Listed(r, v.files[k]) {
      var k' := if k < j then k else k - 1;
      RemovedName(v, j, k');
      ListedSame(r, w.files[k'], v.files[k]);
    }
  }

  // ---------------------------------------------------------------- runs

  datatype VolumeOp =
    | CreateOp(name: seq<byte>, blocks: nat, today: nat)
    | UnlinkOp(name: seq<byte>)
    | CopyOp(oldName: seq<byte>, newName: seq<byte>, today: nat)

  ghost predicate InOrder(v: Volume) {
    VolumeOk(v) && NamesUnique(v.files)
  }

  /** One operation on a writable volume. */
  function VolumeStep(v: Volume, op: VolumeOp): Volume
    requires VolumeOk(v)
  {
    match op
    case CreateOp(name, blocks, today) =>
      var r := Create(v, false, name, blocks, today);
      if r.Ok? then r.value else v
    case UnlinkOp(name) =>
      var r := Unlink(v, false, name);
      if r.Ok? then r.value else v
    case CopyOp(oldName, newName, today) =>
      Copy(v, false, oldName, newName, today).volume
  }

  lemma {:induction false} StepInOrder(v: Volume, op: VolumeOp)
    requires InOrder(v) && (op.CreateOp? ==> op.blocks >= 1)
    ensures InOrder(VolumeStep(v, op))
  {
    hide VolumeOk, NamesUnique, Create, Unlink, Copy;
    match op
    case CreateOp(name, blocks, today) =>
      if Create(v, false, name, blocks, today).Ok? {
        CreateKeeps(v, false, name, blocks, today);
      }
    case UnlinkOp(name) =>
      if Unlink(v, false, name).Ok? {
        UnlinkKeeps(v, false, name);
      }
    case CopyOp(oldName, newName, today) =>
      CopyAllOrNothing(v, false, oldName, newName, today);
      if Copy(v, false, oldName, newName, today).Copied? {
        CopyKeeps(v, false, oldName, newName, today);
      }
  }

  function VolumeRun(v: Volume, ops: seq<VolumeOp>): (r: Volume)
    requires InOrder(v) && forall k :: 0 <= k < |ops| ==> ops[k].CreateOp? ==> ops[k].blocks >= 1
    ensures InOrder(r)
    decreases |ops|
  {
    if ops == [] then v
    else
      StepInOrder(v, ops[0]);
      VolumeRun(VolumeStep(v, ops[0]), ops[1..])
  }

  /**
   After every run of create (blocks at least 1), unlink and copy: no two files share a block or a name, every
   file's limit is what calcMaxFileSize would compute, and every block is accounted for.
   */
  lemma {:induction false} RunInOrder(v: Volume, ops: seq<VolumeOp>)
    requires InOrder(v) && forall k :: 0 <= k < |ops| ==> ops[k].CreateOp? ==> ops[k].blocks >= 1
    ensures var w := VolumeRun(v, ops);
      && NamesUnique(w.files) && MaxOk(w)
      && (forall i: nat, j: nat :: i < j < |w.files| ==> w.files[i].lastBlock <= w.files[j].firstBlock)
      && (forall i: nat :: i < |w.files| ==>
        w.lastBlock <= w.files[i].firstBlock <= w.files[i].lastBlock <= w.lastVolumeBlock)
      && w.lastBlock + FreeBlocks(w, true) + FileSum(w, |w.files|) == w.lastVolumeBlock
  {
    var w := VolumeRun(v, ops);
    Conservation(w);
    forall i: nat, j: nat | i < j < |w.files| ensures w.files[i].lastBlock <= w.files[j].firstBlock {
      ExtentsDisjoint(w, i, j);
    }
    forall i: nat | i < |w.files|
      ensures w.lastBlock <= w.files[i].firstBlock <= w.files[i].lastBlock <= w.lastVolumeBlock
    {
      ExtentsDisjoint(w, i, |w.files|);
    }
  }
}
