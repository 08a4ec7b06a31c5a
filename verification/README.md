# Verified models of the disk tools

Dafny models of the parts of this toolkit for Apple II ProDOS and UCSD Pascal disk volumes that keep state or
do arithmetic on it, with proofs about them. `dafny verify dfyconfig.toml` checks everything.

## What is modelled

**Write-back block cache** (`CacheSpec`, `CacheShape`, `CacheRefinement`, `CacheRuns`, `CacheOrder`, `HashChains`,
`BlockCache`).
`ConcreteBlockCache` is built on the heap as the program builds it: entries linked into 23 hash chains and a doubly
linked list of unpinned entries, pin counts, dirty bits. Each method is proved to do what a function of `CacheSpec`
does, and those functions are proved to simulate a plain array of blocks over every legal run, and to give up blocks
in the order of their last use, told from the operations alone. Block 0 is special
because fresh entries carry its number without being hashed; the exact condition under which it is safe is proved,
with a run that loses a store when it is not.

**Nibble images** (`NibbleCodes`, `NibbleField`, `NibbleImage`, `NibbleScan`, `NibbleAdaptor`, `NibbleDisk`). The 6-and-2 and
4-and-4 codes, the data field with its running xor, the circular buffer, the scanning state machine that finds the
sectors, and sector reads and writes in place. What the scan finds is told from the bytes of the address fields, and
computed for images laid out sector by sector. Writes are proved to read back, to leave other sectors alone and to
leave the result of a rescan unchanged, over whole runs of writes.

**DiskCopy 4.2 checksum** (`DiskCopy`). The loop and its value in arithmetic, injectivity of its steps, and exactly when it detects a changed word.

**Bitmap allocator** (`BitmapSpec`, `BitmapRuns`, `Bitmap`). The byte-wise bitmap with its circular scan, and exactly
on which volume sizes it never hands out a block that does not exist.

**Pascal volumes** (`PascalVolumeSpec`, `PascalOperations`, `PascalDirectory`, `PascalDisk`, `PascalBytes`, `PascalDiskRuns`,
`PascalCopy`, `PascalEntries`, `PascalBlocks`, `PascalVolume`, `PascalMount`, `PascalKrunch`). Files are extents with
gaps between them. create, unlink and copy are functions on values first, with the laws about them; then the directory
as bytes over blocks, with what create and unlink write, and the theorem that loading the disk after any run gives
exactly the volume in memory; then the objects, whose methods run over the cache above and are proved equal to the
functions. `PascalMount` makes and opens volumes; `PascalKrunch` is the loop that moves one extent.

**Pascal text** (`PascalText`, `PascalTextFile`, `PascalTextWriter`, `PascalTextEntry`). Lines packed into pages with
compressed leading spaces, page decoding, the page table and random access through it, and the round trip of lines.
`TextFile` holds the table the program keeps; what reads give is defined and decided for every table, also one that an
earlier text left behind, down to the scratch buffer the pages are decoded into.

**ProDOS reading** (`ProDOSIndex`, `ProDOSDirectory`). Index blocks of one or two levels with sparse pointers, against
a pointwise lookup; directory chains on arbitrary disk contents, against an independent definition of the chain; both
also told from the bytes on the disk.

## Conventions

The device is an array of 512-byte blocks. Integers are unbounded; where the program truncates or wraps (bytes and
16-bit words on disk, the 32-bit accumulator of the checksum, the 32-bit offset arithmetic of the circular buffer)
this is written out. Dates are opaque 16-bit numbers passed in. C strings are byte sequences that end at the first NUL
for comparison. Errors are values, and where the program would leave its buffers (a directory or index block, a page
table, a name longer than its array) the result says that instead. A `requires` that is not about types says what a
caller owes: a buffer of the size asked for, a release only after an acquire, a file inside its device. `since` and
`clock` in `CacheSpec` are not in the program; they record when an entry was last unpinned.

## Where the program differs from its evident intent

Each of these is kept as it is. Where a theorem is named, it gives the condition under which no harm is done, both
ways, or what exactly is done.

- A store into block 0 may be lost when two entries or more of the pool are still unused as the block is brought in
  (`CacheRuns.BlockZeroExactly`).
- A new bitmap marks blocks past the end free unless blocks % 16 < 8, and hands them out when blocks % 16 > 8
  (`BitmapRuns.NoFreeBitsPastEnd`, `BitmapRuns.StaysInsideExactly`). No size makes it hand out a block twice
  (`BitmapRuns.NeverTwiceAnySize`).
- The checksum of a buffer of odd size is 0 whatever it holds, so no change in it is seen (`DiskCopy.DetectsOneWord`).
  No file that passes validation has such a buffer (`DiskCopy.ValidSizesAreEven`).
- Writing a sector that is not in the index overwrites the start of a nibble image
  (`NibbleDisk.MissingWriteExactly`, `NibbleDisk.MissingWriteExample`).
- The range check of the scan lets track 35 and sector 16 pass. Sector 16 has the slot of sector 0 of the next track
  (`NibbleScan.SlotsShared`, `NibbleScan.SectorSixteen`).
- create(name, 0) takes a block even from an empty gap (`PascalOperations.CreateZero`,
  `PascalOperations.CreateZeroOverlaps`).
- copy may unlink its target and then fail when two files have the same name (`PascalOperations.CopyHalfDone`,
  `PascalOperations.CopyHalfDoneExample`), and it leaves the target's directory entry as it was
  (`PascalCopy.CopyDirExactly`).
- Text does not read back if a line has a NUL, DLE or CR inside (`PascalTextWriter.TextRoundTrip`).
- setFileSize adds a block to every positive multiple of 512, so a text file written in one go is a block too long, and
  writing keeps the page table and the text size of the text before. Whether reads then give the lines is decided in
  `PascalTextEntry.WriteThenRead`: without a table, by the block too many; with one, by whether it cuts the new text as
  the new pages are. A size asked for before the write can hide the text altogether (`PascalTextWriter.StaleTable`); a
  fitting table can hide the block too many (`PascalTextWriter.KeptTableProtects`). See also
  `PascalTextWriter.SizeKept` and `PascalTextWriter.EndAfterWrite`.
- A read whose offset and size add up past 2^32 is not cut down to the file (`PascalTextFile.WrapExactly`).
- The comment above the volume name check excludes `$`, `=`, `?` and `,`; the code excludes only `:`. The model follows
  the code (the predicate `PascalMount.ValidVolumeName`); nothing is proved about it.
- A volume of six or seven blocks can be made, but its directory cannot be read as a whole (`PascalMount.FormatOk`).

## Model

| member | source | states |
|---|---|---|
| CacheShape.InitShape | Cache/ConcreteBlockCache.cpp:67-95 | the structure holds in a new pool: the list names exactly the entries with count 0, each once, longest-unpinned first; every block has at most one hashed entry; unhashed entries carry number 0 |
| CacheShape.IncrementShape | Cache/ConcreteBlockCache.cpp:280-299 | pinning an entry keeps that structure |
| CacheShape.DecrementShape | Cache/ConcreteBlockCache.cpp:303-310 | unpinning an entry keeps it |
| CacheShape.LoadShape | Cache/ConcreteBlockCache.cpp:312-351 | taking a victim and hashing it under a new block keeps it |
| CacheShape.AcquireShape | Cache/ConcreteBlockCache.cpp:188-206 | acquire keeps it, hit or miss |
| CacheShape.ReleaseShape | Cache/ConcreteBlockCache.cpp:167-186 | release keeps it, for all flags |
| CacheShape.WriteShape | Cache/ConcreteBlockCache.cpp:132-154 | write keeps it, hit or miss |
| CacheShape.SyncShape | Cache/ConcreteBlockCache.cpp:115-129 | sync keeps it, and changes only dirty bits in the pool |
| CacheShape.WriteMiss | Cache/ConcreteBlockCache.cpp:144-153 | a write that misses is a load followed by marking dirty and dropping the only pin |
| CacheRefinement.InitRel | Cache/ConcreteBlockCache.cpp:67-95 | a new cache stands for the blocks of its device |
| CacheRefinement.EvictKeepsView | Cache/ConcreteBlockCache.cpp:312-340 | eviction with write-back changes what a client sees of no block |
| CacheRefinement.AcquireRel | Cache/ConcreteBlockCache.cpp:188-206 | acquire is a pin in the plain array machine |
| CacheRefinement.ReleaseRel | Cache/ConcreteBlockCache.cpp:167-186 | release with any flags is an unpin in the plain machine, committed or not |
| CacheRefinement.ReleaseEffect | Cache/ConcreteBlockCache.cpp:167-186 | the whole effect of a release on entry and device: count, dirty bit, commit, time on the list |
| CacheRefinement.ReleaseFlags | Cache/ConcreteBlockCache.cpp:167-186 | flags 0 leave the dirty bit, 1 sets it, 2 and 3 write the buffer to the device and leave the entry clean |
| CacheRefinement.WriteRel | Cache/ConcreteBlockCache.cpp:132-154 | write is an array update, hit or miss |
| CacheRefinement.ReadRel | Cache/BlockCache.cpp:42-48 | read leaves the array as it is |
| CacheRefinement.ReadOutput | Cache/BlockCache.cpp:42-48 | read copies out the array's block |
| CacheRefinement.StoreRel | Cache/ConcreteBlockCache.cpp:188-206 | a client's store through an acquired pointer is an array update |
| CacheRefinement.MarkDirtyRel | Cache/ConcreteBlockCache.cpp:158-164 | markDirty changes no block and records that a store was announced |
| CacheRefinement.SyncDisk | Cache/ConcreteBlockCache.cpp:115-129 | sync writes exactly the dirty buffers |
| CacheRefinement.SyncRel | Cache/ConcreteBlockCache.cpp:115-129 | after sync the device equals the array on every block without an unannounced store, and the view is unchanged |
| CacheRuns.CacheRefinesArray | Cache/ConcreteBlockCache.cpp:115-206 | for every legal run the cache's reads equal the plain array's and the two stay related; excluded are only runs that bring in block 0 while two entries are unused |
| CacheRuns.AwayFromZero | Cache/ConcreteBlockCache.cpp:312-351 | runs that leave block 0 alone are not excluded |
| CacheRuns.UsedPoolIsSafe | Cache/ConcreteBlockCache.cpp:312-351 | once at most one entry is unused no legal run is excluded |
| CacheRuns.SyncedRun | Cache/ConcreteBlockCache.cpp:115-206 | from a new cache, after any legal run not so excluded, reads are right and a final sync makes the device equal to the array |
| CacheRuns.PinnedBufferStays | Cache/ConcreteBlockCache.cpp:188-206 | from acquire to last release a block stays in the buffer acquire returned, whatever else happens; nested acquires return it again |
| CacheOrder.RunOrder | Cache/ConcreteBlockCache.cpp:280-365 | in the usage machine, which sees only the operations and the pins: of two blocks idle after a run, the one further back was last used later in the run, where a use is the last release, a read of an unpinned block, or a write that misses |
| CacheOrder.StepTracks | Cache/ConcreteBlockCache.cpp:132-365 | every operation on the cache does to the list what it does to the usage machine: first the unused entries, then the idle blocks in that order |
| CacheOrder.VictimUnpinnedLongest | Cache/ConcreteBlockCache.cpp:132-365 | after every legal run from a new cache, not excluded as for CacheRefinesArray: cached and unpinned are exactly the idle blocks; the next block to come in takes an unused entry while there is one, then the entry of the idle block whose last use lies furthest back in the run, and only when no block is idle does the pool grow |
| CacheOrder.ReadSavesWriteDoesNot | Cache/BlockCache.cpp:42-48 | with no unused entry, v next to go and w after it: after a read of v, reading an uncached block drops w and keeps v; after a write to v it drops v and keeps w |
| CacheRuns.PoolBound | Cache/ConcreteBlockCache.cpp:312-351 | the pool never exceeds the larger of its initial size and one more than the peak number of pinned blocks |
| CacheRuns.BlockZeroLost | Cache/ConcreteBlockCache.cpp:312-351 | with two unused entries left, a client of block 0 loses its store: newEntry unhashes the number 0 fresh entries carry |
| CacheRuns.BlockZeroExactly | Cache/ConcreteBlockCache.cpp:312-351 | a client that acquires block 0, stores and acquires it again finds its store, whatever the data, if and only if at most one entry of the pool is unused |
| HashChains.CutChain | Cache/ConcreteBlockCache.cpp:235-267 | cutting an entry out of a chain removes exactly its block from what the chains hold |
| HashChains.PushChain | Cache/ConcreteBlockCache.cpp:270-276 | pushing an entry on its chain adds exactly its block |
| HashChains.ChainsApart | Cache/ConcreteBlockCache.cpp:208-233 | no entry is in two chains |
| BlockCache.ConcreteBlockCache.constructor | Cache/ConcreteBlockCache.cpp:67-95 | the linked heap structure is built and represents the initial cache |
| BlockCache.ConcreteBlockCache.FindEntry | Cache/ConcreteBlockCache.cpp:216-228 | the chain search finds the block's entry if and only if it is hashed |
| BlockCache.ConcreteBlockCache.RemoveEntry | Cache/ConcreteBlockCache.cpp:235-267 | the chain unlinking removes the block from the table and nothing else |
| BlockCache.ConcreteBlockCache.AddEntry | Cache/ConcreteBlockCache.cpp:270-276 | the entry becomes the one hashed under its block |
| BlockCache.ConcreteBlockCache.SetLast | Cache/ConcreteBlockCache.cpp:354-365 | the relinking appends to the list |
| BlockCache.ConcreteBlockCache.Detach | Cache/ConcreteBlockCache.cpp:280-299 | the relinking cuts an entry out of the list, at either end or inside |
| BlockCache.ConcreteBlockCache.PopFirst | Cache/ConcreteBlockCache.cpp:312-325 | the relinking takes the first entry off the list |
| BlockCache.ConcreteBlockCache.IncrementCount | Cache/ConcreteBlockCache.cpp:280-299 | the heap operation implements pinning on the abstract cache |
| BlockCache.ConcreteBlockCache.DecrementCount | Cache/ConcreteBlockCache.cpp:303-310 | the heap operation implements unpinning |
| BlockCache.ConcreteBlockCache.EvictFirst | Cache/ConcreteBlockCache.cpp:312-335 | the victim leaves list and table, and its dirty buffer goes to the device |
| BlockCache.ConcreteBlockCache.NewEntry | Cache/ConcreteBlockCache.cpp:312-351 | the heap operation implements newEntry: reuse or growth |
| BlockCache.ConcreteBlockCache.Acquire | Cache/ConcreteBlockCache.cpp:188-206 | the heap operation implements acquire and returns the block's entry |
| BlockCache.ConcreteBlockCache.MarkDirty | Cache/ConcreteBlockCache.cpp:158-164 | the heap operation implements markDirty |
| BlockCache.ConcreteBlockCache.Release | Cache/ConcreteBlockCache.cpp:167-186 | the heap operation implements release with its flags |
| BlockCache.ConcreteBlockCache.Write | Cache/ConcreteBlockCache.cpp:132-154 | the heap operation implements write |
| BlockCache.ConcreteBlockCache.Sync | Cache/ConcreteBlockCache.cpp:115-129 | the heap operation implements sync |
| BlockCache.ConcreteBlockCache.Read | Cache/BlockCache.cpp:42-48 | the heap operation implements read: acquire, copy, release, so that the block counts as used; what that does to the order of eviction is CacheOrder.StepTracks and CacheOrder.ReadSavesWriteDoesNot |
| BlockCache.ConcreteBlockCache.ZeroBlock | Cache/BlockCache.cpp:59-71 | zeroBlock is a write of zeros |
| NibbleCodes.DecodeEncode | Device/Adaptor.cpp:125-171 | decode62 undoes encode62 on every six-bit value |
| NibbleCodes.EncodeDecode | Device/Adaptor.cpp:125-171 | encode62 undoes decode62 on every table byte; neither 0xd5 nor 0xaa is one |
| NibbleCodes.TableBits | Device/Adaptor.cpp:125-171 | bit by bit which bytes the table has: highest bit set, two neighbouring ones among the other seven, at most one pair of neighbouring zeros |
| NibbleCodes.TableOrder | Device/Adaptor.cpp:125-171 | the table is in ascending order |
| NibbleCodes.Decode44Encode44 | Device/Adaptor.cpp:112-123 | decode44 undoes encode44 on every byte |
| NibbleCodes.PairBits | Device/Adaptor.cpp:112-123 | which bit of the value goes where in the two bytes, and that the bits between are ones |
| NibbleField.FieldIsNibbles | Device/Adaptor.cpp:425-485 | every byte written to a field is a table byte |
| NibbleField.AuxLayout | Device/Adaptor.cpp:433-455 | value j of the first 86 holds the swapped low bits of sector bytes j, j + 86 and j + 172 |
| NibbleField.FieldLayout | Device/Adaptor.cpp:457-485 | the next 256 values are the high six bits of the sector bytes; on disk each is xored with the one before, and the last one closes the field |
| NibbleField.DecodeField | Device/Adaptor.cpp:358-485 | decoding the field written for any 256-byte sector gives the sector with a matching checksum |
| NibbleField.EncodeDecoded | Device/Adaptor.cpp:358-485 | writing back what was read reproduces the field if and only if its checksum matched and its spare bits were zero |
| NibbleImage.WriteFieldAt | Device/Adaptor.cpp:92-102 | a write puts the field at its positions, also across the end of the buffer, and changes no other byte |
| NibbleImage.ReadOwnField | Device/Adaptor.cpp:358-485 | a field reads back as written, wrapped or not |
| NibbleImage.ReadOtherField | Device/Adaptor.cpp:358-485 | a field sharing no position with the one written reads as before |
| NibbleImage.ScanMarks | Device/Adaptor.cpp:202-286 | every offset the scan records lies right behind a data marker |
| NibbleImage.ScanIndex | Device/Adaptor.cpp:202-301 | a successful scan fills an index of 560 slots with marked offsets; whose they are is NibbleScan.ScanOwned |
| NibbleImage.AddressOutside | Device/Adaptor.cpp:233-251 | an address field never lies inside a data field of table bytes |
| NibbleImage.MarkersOutside | Device/Adaptor.cpp:202-286 | images that agree outside such a field have the same markers with the same values |
| NibbleImage.ScanSurvivesWrite | Device/Adaptor.cpp:202-286 | rescanning after a sector write builds the identical index |
| NibbleImage.ScanDistinct | Device/Adaptor.cpp:202-286 | a scan never records one offset for two slots |
| NibbleScan.ScanOwned | Device/Adaptor.cpp:202-286 | an offset in slot s belongs to an address field whose bytes 5-6 decode to a track and 7-8 to a sector with s = 16 track + sector, whose four values xor to zero, and which is the last marker before the data field, going round |
| NibbleScan.ScanLaidOut | Device/Adaptor.cpp:202-271 | an image of any sectors one after the other, address fields written with encode44 and their checksum, data fields of any bytes but 0xd5, any such bytes between: the scan gives exactly the offsets of the data fields, each in the slot of its track and sector |
| NibbleScan.ScanLaidRound | Device/Adaptor.cpp:273-286 | the same for an image cut between the address field and the data field of one sector: its data field is found at the start of the image |
| NibbleScan.ScanLaidBad | Device/Adaptor.cpp:241-247 | after any such sectors, an address field whose values do not xor to zero, or with a track above 35 or a sector above 16, ends the scan with that error |
| NibbleScan.SlotsShared | Device/Adaptor.cpp:246-264 | two pairs that the range check lets pass have one slot if and only if they are sector 16 of a track and sector 0 of the next |
| NibbleScan.SectorSixteen | Device/Adaptor.cpp:246-264 | on an image of two such sectors the scan keeps the offset of the later one only |
| NibbleImage.FieldsApart | Device/Adaptor.cpp:202-286 | two fields of table bytes, each behind a data marker, are the same or share no position |
| NibbleAdaptor.NibbleAdaptor.FindByte | Device/Adaptor.cpp:175-184 | the search returns the first 0xd5 at or after the offset, -1 if there is none |
| NibbleAdaptor.NibbleAdaptor.ScanImage | Device/Adaptor.cpp:202-301 | the constructor's loop computes the scan of the image, or the reason it throws; what the scan finds is NibbleScan.ScanOwned and ScanLaidOut |
| NibbleAdaptor.NibbleAdaptor.ScanByte | Device/Adaptor.cpp:227-271 | one turn of the constructor's loop is one step of the scan: an address field remembered or refused, a data field behind one recorded, anything else passed over; which bytes are which is NibbleScan.ScanOwned and ScanLaidOut |
| NibbleAdaptor.NibbleAdaptor.ScanWrap | Device/Adaptor.cpp:273-286 | the possible data marker after wrapping around |
| NibbleAdaptor.NibbleAdaptor.ReadTrackSector | Device/Adaptor.cpp:358-423 | range errors, pairs past the index, missing sectors and bytes outside the table are told apart; otherwise the decoded sector and whether its checksum matched |
| NibbleAdaptor.NibbleAdaptor.WriteTrackSector | Device/Adaptor.cpp:425-485 | the in-place encoder with its running xor writes exactly the field of the sector, and nothing when the pair is out of range |
| NibbleAdaptor.NibbleAdaptor.PackAux | Device/Adaptor.cpp:433-455 | the three passes over the sector pack the swapped low bits into 86 values |
| NibbleDisk.WriteKeeps | Device/Adaptor.cpp:202-485 | on any image whose scan found the index, with table bytes in the fields: a sector write keeps the index, reads back, and leaves the fields of all other sectors |
| NibbleDisk.RunOfWrites | Device/Adaptor.cpp:202-485 | after any run of sector writes a rescan finds the same index and every sector reads as the last data written to it |
| NibbleDisk.MissingWriteHitsStart | Device/Adaptor.cpp:425-485 | writing with the offset of a missing sector puts field bytes over the first 342 bytes of the image |
| NibbleDisk.MissingWriteExactly | Device/Adaptor.cpp:425-485 | a sector write leaves every byte outside the sector's own field alone, whatever the data, if and only if the index has the sector |
| NibbleDisk.MissingWriteExample | Device/Adaptor.cpp:202-485 | an image of zeros: the scan finds no sector, yet writing track 0 sector 0 changes its first byte |
| DiskCopy.Checksum | Device/DiskCopy42Image.cpp:57-73 | the loop computes the checksum whose value is DiskCopy.ChecksumValue |
| DiskCopy.ChecksumValue | Device/DiskCopy42Image.cpp:57-73 | 0 for no bytes and for an odd number of them; two more bytes add their word, high byte first, modulo 2^32, and halve the sum, its lowest bit becoming the highest |
| DiskCopy.ChecksumExamples | Device/DiskCopy42Image.cpp:57-73 | the checksum of the bytes 0, 1 is 0x80000000, that of 0, 2 is 1 |
| DiskCopy.ValidateBytes | Device/DiskCopy42Image.cpp:170-211 | byte by byte: when a file is refused, and which of its bytes are summed and compared with which |
| DiskCopy.StepInjective | Device/DiskCopy42Image.cpp:57-73 | one step is injective in the accumulator and in the word, modulo 2^32 |
| DiskCopy.FoldInjective | Device/DiskCopy42Image.cpp:57-73 | different accumulators stay different over any data |
| DiskCopy.DetectsOneWord | Device/DiskCopy42Image.cpp:57-73 | a change of one aligned word changes the checksum if and only if the buffer has an even size |
| DiskCopy.ValidSizesAreEven | Device/DiskCopy42Image.cpp:170-198 | no valid file has user data of odd size: the odd case never arises on opening |
| DiskCopy.ZerosSumToZero | Device/DiskCopy42Image.cpp:133-136 | an all-zero image of any size has checksum 0 |
| DiskCopy.CloseVerifies | Device/DiskCopy42Image.cpp:38-55 | closing a changed image makes it validate without a warning and touches no user data |
| DiskCopy.DamageIsReported | Device/DiskCopy42Image.cpp:170-211 | after closing, damage to one aligned word of the data draws the checksum warning |
| BitmapSpec.AllocCorrect | ProDOS/Bitmap.cpp:170-219 | allocBlock() returns a free block, the first in circular scan order, and -1 exactly when none is free |
| BitmapSpec.AllocAtCorrect | ProDOS/Bitmap.cpp:148-167 | allocBlock(b) takes b exactly when it is free |
| BitmapSpec.FreeAtBit | ProDOS/Bitmap.cpp:148-167 | block b is free if bit 7 - b % 8 of byte b / 8 is set |
| BitmapSpec.AllocAtAnySize | ProDOS/Bitmap.cpp:148-167 | on any bitmap of any size: allocBlock(b) answers b and clears its bit, and no other, exactly if b is in the volume and the bit is set; else -1 and nothing changes |
| BitmapSpec.FreeAnySize | ProDOS/Bitmap.cpp:130-145 | likewise freeBlock |
| BitmapSpec.AllocAnySize | ProDOS/Bitmap.cpp:170-219 | on any bitmap of any size: allocBlock() takes the first set bit in circular order, be it inside the volume or not, and gives up exactly when its counter is 0 or no bit is set |
| BitmapSpec.FreeAdds | ProDOS/Bitmap.cpp:130-145 | freeBlock makes exactly that block free and keeps the counter exact, freed twice or not |
| BitmapSpec.ScanFinds | ProDOS/Bitmap.cpp:170-219 | with a free block left, the return after both scans cannot be reached |
| BitmapRuns.NeverTwice | ProDOS/Bitmap.cpp:130-219 | on a valid bitmap, in every run every block handed out is inside the volume and not held already |
| BitmapRuns.CounterExact | ProDOS/Bitmap.cpp:130-219 | on a valid bitmap, after every run the counter is the number of free blocks and the bitmap is still valid |
| BitmapRuns.NeverTwiceAnySize | ProDOS/Bitmap.cpp:28-219 | on a bitmap of any size and contents, a new one of any size among them, no block is handed out twice without a free in between |
| BitmapRuns.InitValid | ProDOS/Bitmap.cpp:28-52 | a new bitmap meets the allocator's invariant if and only if blocks % 16 is at most 8 |
| BitmapRuns.NoFreeBitsPastEnd | ProDOS/Bitmap.cpp:28-52 | a new bitmap marks no block past the end free if and only if blocks % 16 is below 8 |
| BitmapRuns.HandsOutPastEnd | ProDOS/Bitmap.cpp:28-52 | for every other size a concrete run hands out a block past the end |
| BitmapRuns.StaysInsideExactly | ProDOS/Bitmap.cpp:28-219 | no run ever hands out a block outside the volume if and only if blocks % 16 is at most 8 |
| Bitmap.Bitmap.constructor | ProDOS/Bitmap.cpp:28-52 | the byte loop builds the initial bitmap |
| Bitmap.Bitmap.FreeBlock | ProDOS/Bitmap.cpp:130-145 | the in-place byte update implements freeBlock |
| Bitmap.Bitmap.AllocBlockAt | ProDOS/Bitmap.cpp:148-167 | the in-place byte update implements allocBlock(b) |
| Bitmap.Bitmap.AllocBlock | ProDOS/Bitmap.cpp:170-219 | the two scanning loops implement the circular scan |
| PascalKrunch.MovedDown | Pascal/VolumeEntry.cpp:789-796 | moving an extent down by any positive distance is right, overlapping or not: destination, vacated zeros, rest unchanged |
| PascalKrunch.MovedExtent | Pascal/VolumeEntry.cpp:789-796 | as whole extents: the destination equals the old source, the blocks before and behind are untouched |
| PascalKrunch.MovePins | Pascal/VolumeEntry.cpp:789-796 | the loop leaves no block pinned that was not, and no store unannounced |
| PascalKrunch.MovedNowhere | Pascal/VolumeEntry.cpp:776-796 | at distance zero the loop would erase the file, which is why it is skipped |
| PascalKrunch.MoveExtent | Pascal/VolumeEntry.cpp:789-796 | the loop over the real cache: whatever array the cache stood for, it then stands for the moved one |
| PascalVolumeSpec.KeyUpper | Pascal/FileEntry.cpp:73-97 | upper-casing a name on creation does not change which names it matches |
| PascalVolumeSpec.UpperIs | Pascal/FileEntry.cpp:92-94 | a stored name has no lower-case letters and is the name given but for the case of letters |
| PascalVolumeSpec.SameNameIs | Pascal/VolumeEntry.cpp:300-309 | names match if and only if they are equal but for the case of letters |
| PascalVolumeSpec.FindName | Pascal/VolumeEntry.cpp:300-309 | the first file whose name matches without regard to case |
| PascalVolumeSpec.ExtentsDisjoint | Pascal/VolumeEntry.cpp:212-239 | files in order share no block and lie between the directory and the end of the volume |
| PascalVolumeSpec.FitsExactly | Pascal/VolumeEntry.cpp:877-898 | some gap has room for n blocks if and only if maxContiguousBlocks is at least n |
| PascalVolumeSpec.Conservation | Pascal/VolumeEntry.cpp:822-848 | free blocks, file blocks and the directory add up to the volume; without krunching, free is what lies behind the last file |
| PascalVolumeSpec.InsertedOk | Pascal/VolumeEntry.cpp:599-689 | inserting at the start of a gap keeps limits equal to what calcMaxFileSize would compute and addresses right; the order is kept if and only if the gap has a block |
| PascalVolumeSpec.RemovedOk | Pascal/VolumeEntry.cpp:330-365 | removing a file keeps order, limits and addresses, and merges its blocks and both gaps into one |
| PascalVolumeSpec.RemovedContiguous | Pascal/VolumeEntry.cpp:338-365 | removing a file never makes the largest gap smaller |
| PascalOperations.CreateSucceeds | Pascal/VolumeEntry.cpp:550-673 | with a legal fresh name, a free entry and n at least 1, create succeeds if and only if maxContiguousBlocks is at least n |
| PascalOperations.CreateErrors | Pascal/VolumeEntry.cpp:550-637 | for every error of create, exactly when it is returned, the legal characters of a name written out |
| PascalOperations.CreateKeeps | Pascal/VolumeEntry.cpp:599-689 | the new one-block file, untyped, empty, dated today, with the name in upper case, goes into the first gap that fits, all other files stay, names stay distinct, the volume stays in order |
| PascalOperations.CreateZero | Pascal/VolumeEntry.cpp:599-637 | create(name, 0) always succeeds; the volume stays in order if and only if the first gap is not empty |
| PascalOperations.CreateZeroOverlaps | Pascal/VolumeEntry.cpp:599-637 | on every empty volume with room, create(a, 1) and then create(b, 0) put both files on the same block |
| PascalOperations.UnlinkKeeps | Pascal/VolumeEntry.cpp:330-365 | unlink removes the first file of the name, keeps all others and the order, and never shrinks the largest gap |
| PascalOperations.UnlinkUndoesCreate | Pascal/VolumeEntry.cpp:316-365 | unlinking the file just created gives back the very same volume, limits and addresses included |
| PascalOperations.CopyHalfDone | Pascal/VolumeEntry.cpp:475-518 | a failing copy has changed the volume if and only if it had to unlink a too small target and a second file of that name follows |
| PascalOperations.CopyHalfDoneExample | Pascal/VolumeEntry.cpp:475-518 | a volume with two files B on which copying A to B unlinks the first and then fails |
| PascalOperations.CopyAllOrNothing | Pascal/VolumeEntry.cpp:475-518 | with distinct names a failing copy changes nothing: it never unlinks its target and then fails |
| PascalOperations.CopyKeeps | Pascal/VolumeEntry.cpp:475-523 | the target bears the new name and has the source's length, kind and end; every file but the one that had the name is still listed as it was, and no others are; the volume stays in order, the names distinct |
| PascalOperations.RunInOrder | Pascal/VolumeEntry.cpp:316-703 | after every run of create (blocks at least 1), unlink and copy: extents disjoint and inside the volume, names distinct, limits exact, every block accounted for |
| PascalDirectory.DecodeFileBytes | Pascal/FileEntry.cpp:58-163 | a written entry parses to the fields it was written from |
| PascalDirectory.DecodeHeaderBytes | Pascal/VolumeEntry.cpp:926-940 | the written header parses to the fields it was written from |
| PascalBytes.FileLayout | Pascal/FileEntry.cpp:154-163 | at which of the 26 bytes every field of a file entry lies, low byte first |
| PascalBytes.HeaderLayout | Pascal/VolumeEntry.cpp:926-940 | at which of the 26 bytes every field of the header lies |
| PascalBytes.DirectoryBytes | Pascal/VolumeEntry.cpp:161-210 | when directory and volume agree: the bytes of the disk from block 2 on that hold the header and entry k |
| PascalDirectory.FlatAt | Pascal/VolumeEntry.cpp:955-963 | byte i of a buffer read from block b on is byte i % 512 of block b + i / 512 |
| PascalDirectory.FlatWritten | Pascal/VolumeEntry.cpp:955-970 | blocks written from a buffer read back as the buffer; no other block changes |
| PascalDirectory.EntryWritten | Pascal/VolumeEntry.cpp:982-1010 | an entry, straddling two blocks or not, lands at its address and changes nothing else |
| PascalDirectory.SlotMoved | Pascal/VolumeEntry.cpp:375-379 | memmove of entries shifts exactly those entries |
| PascalDisk.LoadChecks | Pascal/VolumeEntry.cpp:214-242 | a volume that loads is in order with exact limits and addresses if and only if it has files or a nonnegative first gap |
| PascalDisk.LoadAgrees | Pascal/VolumeEntry.cpp:161-243 | loading a disk whose directory encodes a volume in order gives that volume: header, files in order, addresses, limits |
| PascalDiskRuns.InsertedSlot | Pascal/VolumeEntry.cpp:639-698 | the entries of the directory buffer after create |
| PascalDiskRuns.RemovedSlot | Pascal/VolumeEntry.cpp:367-382 | the entries of the directory buffer after unlink |
| PascalDiskRuns.CreateDiskOk | Pascal/VolumeEntry.cpp:639-703 | after create the directory on disk encodes the new volume, appended or inserted; no other block changes |
| PascalDiskRuns.UnlinkDiskOk | Pascal/VolumeEntry.cpp:367-386 | after unlink the directory on disk encodes the new volume; no other block changes |
| PascalDiskRuns.CreateMounted | Pascal/VolumeEntry.cpp:550-703 | create keeps memory and disk in agreement, succeeding or failing |
| PascalDiskRuns.UnlinkMounted | Pascal/VolumeEntry.cpp:316-386 | unlink keeps memory and disk in agreement |
| PascalDiskRuns.ReloadAfterRun | Pascal/VolumeEntry.cpp:161-703 | after every run of create (blocks at least 1) and unlink, loading the disk gives exactly the volume in memory and only directory blocks have changed |
| PascalCopy.CopyBlocksAt | Pascal/VolumeEntry.cpp:525-530 | the copying loop between equal or disjoint extents |
| PascalCopy.SourceStays | Pascal/VolumeEntry.cpp:475-523 | the source survives the unlinking and creating of the target |
| PascalCopy.CopyPlaces | Pascal/VolumeEntry.cpp:475-523 | source and target lie inside the volume and are the same or apart |
| PascalCopy.TargetOutside | Pascal/VolumeEntry.cpp:475-518 | finding or making the target changes directory blocks only |
| PascalCopy.CopyContents | Pascal/VolumeEntry.cpp:475-530 | the file with the new name has the source's blocks, and no block outside directory and target has changed |
| PascalCopy.OthersKeepContents | Pascal/VolumeEntry.cpp:475-530 | every file of the old list but the one that had the new name is still listed, in the same place, with the same contents |
| PascalCopy.CopyDirExactly | Pascal/VolumeEntry.cpp:475-536 | copy does not rewrite the target's entry: the directory on disk agrees with memory afterwards if and only if that entry was right already, spelled out for an overwritten and for a new target |
| PascalEntries.IOBuffer.Write8 | Endian/IOBuffer.cpp.h:11-14 | one byte at the cursor, truncated to eight bits; the cursor moves by one |
| PascalEntries.IOBuffer.Write16 | Endian/IOBuffer.cpp.h:16-20 | two bytes at the cursor, low byte first; the cursor moves by two |
| PascalEntries.IOBuffer.WriteBytes | Endian/IOBuffer.cpp.h:33-37 | the bytes at the cursor and nothing else |
| PascalEntries.IOBuffer.WriteZero | Endian/IOBuffer.cpp.h:39-44 | zeros at the cursor and nothing else |
| PascalEntries.WriteEntryStart | Pascal/Entry.cpp:89-94 | the five bytes every entry starts with |
| PascalEntries.FileEntry.Open | Pascal/FileEntry.cpp:58-71 | the fields parsed from 26 bytes |
| PascalEntries.FileEntry.WriteDirectoryEntry | Pascal/FileEntry.cpp:154-163 | the cursor writes lay out exactly the entry's 26 bytes |
| PascalBlocks.UpdateIsWrite | Pascal/VolumeEntry.cpp:902-909 | acquiring, storing through the pointer and a dirty release are one array update |
| PascalBlocks.ReadBlocks | Pascal/VolumeEntry.cpp:955-963 | the blocks as one buffer |
| PascalBlocks.WriteBlocks | Pascal/VolumeEntry.cpp:966-970 | the buffer as blocks |
| PascalBlocks.WriteFileEntry | Pascal/VolumeEntry.cpp:982-1010 | the entry at its address, in place or by way of two blocks |
| PascalBlocks.CopyExtent | Pascal/VolumeEntry.cpp:525-530 | the copying loop over the cache, each source block pinned meanwhile |
| PascalBlocks.SyncBlocks | Pascal/VolumeEntry.cpp:921-924 | afterwards the device holds the array |
| PascalVolume.VolumeEntry.FileByName | Pascal/VolumeEntry.cpp:300-309 | the loop finds the first file of the name |
| PascalVolume.VolumeEntry.FreeBlocks | Pascal/VolumeEntry.cpp:822-848 | the loop sums the gaps, or gives the last one |
| PascalVolume.VolumeEntry.MaxContiguousBlocks | Pascal/VolumeEntry.cpp:877-898 | the loop finds the largest gap |
| PascalVolume.VolumeEntry.CalcMaxFileSize | Pascal/VolumeEntry.cpp:1014-1025 | the backward loop gives every file the limit of its successor |
| PascalVolume.VolumeEntry.WriteDirectoryEntry | Pascal/VolumeEntry.cpp:926-940 | the cursor writes lay out exactly the header's 26 bytes |
| PascalVolume.VolumeEntry.FindGap | Pascal/VolumeEntry.cpp:599-612 | the loop finds the first gap before a file with room |
| PascalVolume.VolumeEntry.PlaceFile | Pascal/VolumeEntry.cpp:613-689 | the objects of the list after an insertion: previous limit, new entry, addresses |
| PascalVolume.VolumeEntry.DropFile | Pascal/VolumeEntry.cpp:330-365 | the objects of the list after a removal |
| PascalVolume.VolumeEntry.Create | Pascal/VolumeEntry.cpp:550-703 | create on objects, cache and device equals create on values; every error in its place; afterwards the device holds it all |
| PascalVolume.VolumeEntry.Unlink | Pascal/VolumeEntry.cpp:316-386 | unlink on objects, cache and device equals unlink on values |
| PascalVolume.VolumeEntry.Copy | Pascal/VolumeEntry.cpp:445-536 | copy on objects, cache and device equals copy on values |
| PascalMount.FormatOk | Pascal/VolumeEntry.cpp:100-158 | a new volume is in order and its directory agrees if and only if the device has eight blocks or more |
| PascalMount.FormatBytes | Pascal/VolumeEntry.cpp:120-155 | the directory of a new volume on fewer than 65536 blocks, byte by byte |
| PascalMount.Format | Pascal/VolumeEntry.cpp:100-158 | making a volume: error cases, the formatted blocks, the object |
| PascalMount.Open | Pascal/VolumeEntry.cpp:161-243 | opening a volume on any device: parse, check and limits give exactly what loading is defined to give, or the reason there is no volume |
| PascalText.DecodeAppend | Pascal/FileEntry.cpp:589-628 | decoding a concatenation, with the pending DLE carried over |
| PascalText.DecodeIs | Pascal/FileEntry.cpp:597-625 | a DLE and its count become that many spaces, a CR an LF, a NUL nothing; other bytes stay |
| PascalText.DecodedIsClean | Pascal/FileEntry.cpp:600-625 | decoding never produces a NUL, DLE or CR |
| PascalText.EncodedCloses | Pascal/FileEntry.cpp:681-709 | no encoded line leaves a DLE pair open |
| PascalText.CompressIs | Pascal/FileEntry.cpp:681-709 | fewer than three leading spaces stay; up to 223 become a DLE and 32 + their number; of more, 223 do |
| PascalText.DecodeEncoded | Pascal/FileEntry.cpp:681-709 | compressing leading spaces does not change what a line decodes to |
| PascalText.LineRoundTrip | Pascal/TextWriter.cpp:64-104 | a line reads back as its content and one LF if and only if it has no NUL, DLE or CR inside |
| PascalText.LinesRoundTrip | Pascal/TextWriter.cpp:64-104 | the same for lists of lines |
| PascalTextFile.ReadsExactly | Pascal/FileEntry.cpp:519-585 | by way of any page table at all, every read whose arguments do not wrap gives its slice of a text if and only if the table cuts the text as the pages on disk are |
| PascalTextFile.OwnReads | Pascal/FileEntry.cpp:519-673 | by way of the table made from the blocks as they are, a read gives its slice of all decoded pages |
| PascalTextFile.TextPages | Pascal/FileEntry.cpp:630-672 | a text begins with the third block of the file; its pages are two blocks each, the last one or two, cut at lastByte |
| PascalTextFile.FreshReadsExactly | Pascal/FileEntry.cpp:519-673 | without a table yet, reads give a text if and only if all pages can be read and it is theirs |
| PascalTextFile.WrapExactly | Pascal/FileEntry.cpp:165-181 | a read whose arguments wrap at 32 bits runs past the page table if and only if it starts inside the file |
| PascalTextFile.TextSize | Pascal/FileEntry.cpp:659-673 | the size of a text is at most 57344 bytes for each of its blocks, so below 2^32 for 16-bit block numbers |
| PascalTextEntry.TextFile.ReadPage | Pascal/FileEntry.cpp:630-655 | one or two blocks, cut at the last byte of the file; refused exactly when it would leave the device or its buffer |
| PascalTextEntry.TextFile.DecodeBytes | Pascal/FileEntry.cpp:589-628 | the counting pass and the storing pass agree and give the decoded page; refused exactly when the output is too short |
| PascalTextEntry.TextFile.TextInit | Pascal/FileEntry.cpp:659-673 | the page table holds the decoded size of every page, and the file size their sum |
| PascalTextEntry.TextFile.FindPage | Pascal/FileEntry.cpp:535-544 | the first page whose end lies behind the offset, and where it starts |
| PascalTextEntry.TextFile.DecodeInto | Pascal/FileEntry.cpp:568 | a page decoded into the front of the scratch buffer, what was behind it still there |
| PascalTextEntry.TextFile.ReadFrom | Pascal/FileEntry.cpp:555-582 | the loop over pages with its growing scratch buffer, for tables that fit the pages and for those that do not |
| PascalTextEntry.TextFile.TextRead | Pascal/FileEntry.cpp:519-585 | the whole of textRead, making the table first if there is none |
| PascalTextEntry.TextFile.Read | Pascal/FileEntry.cpp:165-181 | a read of any 32-bit size at any 32-bit offset: the bytes, or that the outcome is not defined |
| PascalTextWriter.WrittenOk | Pascal/TextWriter.cpp:64-104 | a line goes whole into one page and the text grows by what it reads back as |
| PascalTextWriter.DataThere | Pascal/TextWriter.cpp:35-57 | data(i) is not null for every block that is counted |
| PascalTextWriter.EditorPage | Pascal/TextWriter.cpp:35-57 | a writer begins with two blocks of zeros |
| PascalTextWriter.LineEnd | Pascal/TextWriter.cpp:35-104 | where a line goes: behind the last one if it then ends within the page of 1024 bytes, else to a new page; and how many blocks the writer then has |
| PascalTextWriter.LineBytes | Pascal/TextWriter.cpp:42-104 | the bytes of the line are found there in the writer's blocks |
| PascalTextWriter.LineKeeps | Pascal/TextWriter.cpp:42-104 | no byte written before changes |
| PascalTextWriter.WriterReadsBack | Pascal/FileEntry.cpp:519-628 | over the blocks the writer counts, the file's text is what the lines read back as |
| PascalTextWriter.TextRoundTrip | Pascal/TextWriter.cpp:35-104 | any lines that fit pages read back each ended by one LF if and only if none has a NUL, DLE or CR inside |
| PascalTextWriter.SizeKept | Pascal/FileEntry.cpp:421-439 | setFileSize gives the size asked for if and only if it is 0 or not a multiple of 512 |
| PascalTextWriter.WrittenFileReadsBack | Pascal/FileEntry.cpp:284-330 | a file written from a TextWriter is a block too long: its pages decode to the lines followed by what that block decodes to |
| PascalTextWriter.WrittenReads | Pascal/FileEntry.cpp:284-330 | the write keeps a page table made before it. Reads give the lines if and only if: without a table, the block too many is on the device and decodes to nothing; with one, that table cuts the new text as the new pages are |
| PascalTextWriter.StaleTable | Pascal/FileEntry.cpp:284-330 | the size of a new file is asked for, then a line is written: a read gives nothing, where without the question it gives the line |
| PascalTextWriter.KeptTableProtects | Pascal/FileEntry.cpp:284-330 | a table kept from a text with the same pages, the last one of two blocks, gives the lines whatever the block too many holds |
| PascalTextWriter.EndAfterWrite | Pascal/FileEntry.cpp:309-324 | the file then stays inside its limit if and only if the limit leaves a block to spare |
| PascalTextWriter.CompressText | Pascal/FileEntry.cpp:681-709 | the loop computes the compressed line |
| PascalTextWriter.TextWriter.WriteLine | Pascal/TextWriter.cpp:64-104 | the line is appended, on a new page if need be, or refused and nothing changed |
| PascalTextWriter.TextWriter.Blocks | Pascal/TextWriter.cpp:35-40 | the number of blocks in use |
| PascalTextWriter.TextWriter.DataOf | Pascal/TextWriter.cpp:42-57 | the block, or null |
| PascalTextEntry.TextFile.SetSize | Pascal/FileEntry.cpp:421-434 | setFileSize on the entry |
| PascalTextEntry.TextFile.Write | Pascal/FileEntry.cpp:284-330 | write(TextWriter): each error in its place; else the blocks, the new extent and date, the entry rewritten, all of it on the device, and the page table as it was |
| PascalTextEntry.WrittenDiskStored | Pascal/FileEntry.cpp:315-326 | afterwards the file's blocks are the writer's and nothing behind them has changed |
| PascalTextEntry.WriteThenRead | Pascal/FileEntry.cpp:284-585 | the whole of a write followed by reads: when they give the lines, both ways, from what is known before the write |
| ProDOSIndex.GoodMeans | ProDOS/Disk.cpp:260-329 | the blocks counted are readable and the one behind them is not |
| ProDOSIndex.OutcomeIsFirstBad | ProDOS/Disk.cpp:301-328 | the error returned is that of the first data block that cannot be read |
| ProDOSIndex.SparseIsZero | ProDOS/Disk.cpp:262-313 | a zero pointer at any level reads as zeros |
| ProDOSIndex.OneIndexBlock | ProDOS/Disk.cpp:301-328 | by the bytes: entry i of an index block names the block with low byte i and high byte 256 + i of it; what is read, zeros for two zero bytes, or which error |
| ProDOSIndex.TwoIndexBlocks | ProDOS/Disk.cpp:283-328 | likewise through two index blocks |
| ProDOSIndex.InsideExactly | ProDOS/Disk.cpp:284-328 | every data block asked for lies inside the index blocks if and only if the top block is not run past its 256 entries and, at level 2, a read that starts inside an index block ends in it |
| ProDOSIndex.Disk.Read | ProDOS/Disk.cpp:107-115 | blocks past the end are refused, except that the one right behind the last makes the device throw |
| ProDOSIndex.Disk.ReadIndex1 | ProDOS/Disk.cpp:282-328 | one level: data block k of the request is the pointwise lookup, which ProDOSIndex.OneIndexBlock spells out in bytes, all other bytes of the buffer unchanged; the error of the first block that cannot be read, or that the index block is read past its end |
| ProDOSIndex.Disk.ReadIndex2 | ProDOS/Disk.cpp:288-328 | two levels, likewise, with ProDOSIndex.TwoIndexBlocks |
| ProDOSIndex.Disk.ReadIndex | ProDOS/Disk.cpp:260-329 | the entry point at every level, with the start taken from the byte offset: data, error, unsupported level, or an index block read past its end; for a read of one block, what is in the buffer is told from the bytes of one or two index blocks and the block they name |
| ProDOSDirectory.ChainLength | ProDOS/Disk.cpp:344-405 | a chain without repetition is no longer than the disk: every walk ends |
| ProDOSDirectory.WalkMeans | ProDOS/Disk.cpp:383-401 | what the walk keeps is a chain, and how it ends |
| ProDOSDirectory.CyclicalExactly | ProDOS/Disk.cpp:388-391 | a cycle is reported if and only if the chain told by bytes 2 and 3 of the blocks comes to some block twice |
| ProDOSDirectory.NthOutside | ProDOS/Disk.cpp:383-401 | without a cycle the chain told by bytes 2 and 3 is what the walk kept, and at most one unreadable block more |
| ProDOSDirectory.EntriesExactly | ProDOS/Disk.cpp:369-402 | the entries are exactly the live ones of the chain's blocks, in order |
| ProDOSDirectory.StandardInside | ProDOS/Disk.cpp:362-379 | with entries of 39 bytes, at most 13 to a block, no entry is read past the end of its block |
| ProDOSDirectory.AddressDecodes | ProDOS/Disk.cpp:374-379 | an entry's address gives its block and offset, where its bytes are |
| ProDOSDirectory.AddressesDistinct | ProDOS/Disk.cpp:374-379 | with entries of a byte or more no two addresses are equal |
| ProDOSDirectory.DirectoryMeans | ProDOS/Disk.cpp:409-486 | reading a directory, told from bytes 2 and 3 of its blocks and bytes 4 and 35 to 38 of the first: the chain, when it reads past a block, when it reports a cycle, and that otherwise its entries are the live ones of the chain, in order |
| ProDOSDirectory.UsualVolume | ProDOS/Disk.cpp:333-406 | blocks 2 to 5 linked by bytes 2 and 3, entries of 39 bytes, 13 to a block: the files are the entries in use of all four blocks, in order, after the header, each with its bytes and its position |
| ProDOSDirectory.FirstBlockDecides | ProDOS/Disk.cpp:344-362 | from the bytes of the first block: the wrong kind of directory is refused, 15 being a volume and 14 a subdirectory; the header when no files are wanted; no files when the count is 0 |
| ProDOSDirectory.ReadVolume | ProDOS/Disk.cpp:333-406 | the volume directory is read as specified, from block 2, on every disk contents; in bytes: DirectoryMeans and UsualVolume |
| ProDOSDirectory.ReadDirectory | ProDOS/Disk.cpp:409-486 | a subdirectory is read as specified, on every disk contents; in bytes: DirectoryMeans |
| ProDOSDirectory.ReadEntries | ProDOS/Disk.cpp:362-403 | the loop over entries and blocks with its set of visited blocks |

## Left out

- ProDOSDirectory.ReadDirectory: an entry is kept as its bytes; its fields are not decoded. What a read past the end of a block gives is not modelled, only when it happens; likewise for ProDOSIndex.Disk.ReadIndex.
- NibbleAdaptor.NibbleAdaptor.ReadTrackSector: the contents of the caller's buffer after a failed read are left open.
- PascalMount.Open: what the program does after reading past a buffer is not modelled, only when it does. Inode numbers and parent pointers are not modelled.
- PascalTextEntry.TextFile.Write: requires that the file's limit and its directory entry lie on the device, as on every volume that does; a parent volume that is gone is not modelled.
- PascalTextEntry.TextFile.Read: when the outcome is not defined nothing is promised about the cache and the table afterwards.
- NibbleAdaptor.NibbleAdaptor.ScanImage: a track or sector outside the index ends the model's scan with IndexOverflow, where the program writes past its vector; warnings about duplicate and missing sectors are not modelled.
- PascalVolume.VolumeEntry.Create: the standard layout only, directory in the blocks from 2 on and a header entry of six blocks, as every volume made by this program has; likewise Unlink and Copy.
- PascalVolume.VolumeEntry.Copy: source fields are read before the target is made, not after, which is the same since neither step changes them; the page table of the target is not modelled here.
- BlockCache.ConcreteBlockCache: an entry's buffer is a sequence-valued field, so storing through the acquired pointer is the method Store; the destructor of the cache, which is a sync, is not modelled.
- krunch as a whole, and canKrunch: the check at Pascal/VolumeEntry.cpp:746 rejects every volume with files in range, and prevBlock is not advanced after a move; only the loop that moves one extent is modelled.
- rename: it leaves the tail of a longer old name in the directory, and a rename that changes only case unlinks the file itself.
- Sizing and raw data transfer of files other than setFileSize: the write loop and unaligned reads are wrong outside a small domain where they are easy.
- FileEntry::Uncompress: reads its count through a signed char; page decoding is used as the decoder instead.
- The Bitmap constructor that loads from disk: its loop count does not cover the bitmap blocks.
- readBlock and writeBlock of the nibble adaptor: the block-to-sector arithmetic does not match its table.
- Device exceptions beyond reading the block behind the last, memory-mapped and POSIX files, raw devices, archives, FUSE callbacks and command-line tools: input, output and user interface.
- Dates and times of day, and the fields of ProDOS entries and headers that the walk does not use.
- The other adaptors, the mapped cache, format sniffing and the unfinished top-level classes: easy or not built.
