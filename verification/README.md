# WarOS kernel: a verified model

This project models the parts of the WarOS kernel that keep state or carry a protocol, and
proves what they promise. Each module follows one component of the kernel.

**The persistent store** (`DiskLayout`, `Volumes`, `Recency`, `SectorCache`, `FirstFit`,
`Format`, `InPlace`, `Images`, `Persist`, `Torn`, `Repeats`, `Sync`, `LastSlot`, `LoadBack`,
`Boot`, `DiskRuns`). A volume is a superblock, a table of 128 file slots and data blocks, all
written one sector at a time through a 64-entry write-through cache. The device records every
image it goes through, so a crash point is an image of that record. A volume is *sound* when its
superblock is valid and its extents lie inside the volume, hold their sizes and do not overlap;
it is *crash-safe* when moreover a clean mark means true counts. On any sound volume, every
image of every save, delete and sync is crash-safe, whatever the device does, and a save or
delete keeps every slot but the one it writes. Where slots have distinct names, and names of at
most 95 bytes are saved, more holds: over whole sessions, with device faults, with power failing
in any call, and with boots that mark the volume mounted and may fail themselves, each file is
what the last call that touched it asked for, if that call reported success, and what it was, if
no call asked for a change. A device may fail any request, unless it is a *reliable* one; on
such a device a save succeeds exactly when there is room for the file.

**The RAM filesystem** (`Paths`, `PathBytes`, `WarFs`, `FsEffects`, `Verdicts`, `WriteThrough`).
A table of files sorted by canonical path. Every operation keeps the table legal, changes one
file at most, and succeeds exactly under stated conditions. Read-only files and files closed to
a user survive anything that user does. Every change is written out to the store, which then
agrees with memory on every file whose last change was taken; a reboot gives those files back.

**Around them**: dependency resolution (`Resolver`), the lock-free keyboard ring (`IrqRing`),
the physical frame allocator (`Frames`), the console framebuffer and its shadow (`Shadow`), line
drawing (`Line`), the initial user stack (`UserStack`), chunked HTTP bodies (`Chunked`), the
IPv4 checksum (`Checksum`), and the user database and its file format (`Users`, `UserCodec`),
and what counts as text (`Utf8`).

Text is a sequence of UTF-8 bytes. Machine integers are bounded types, and wrap-around,
saturation and truncation are written out where they happen. Clocks, salts, password hashes
and device faults are parameters or free choices.

## What turned out not to hold everywhere

Each of these has a theorem that says exactly when the code does what is expected, and most
have one that shows the failure on a definite input.

- Synced files load back as they were if and only if each name has at most 95 bytes, not the
  96 of the field and of the longest path, each permission record carries the file's own uid,
  and no wanted name had several slots of which the last held something else:
  `LoadBack.SyncThenLoad`, `DiskLayout.StoredName`. A longer path is lost, at a path of 96
  bytes `Persist.LongPathLost`, and each save of it takes another slot: `Persist.SaveEntry`.
- Slots keep distinct names if and only if no name is saved whose first 95 bytes another slot
  has: `Persist.SaveEntry`, `Sync.SyncFilesystem`. Two saves of one long path are enough, and
  a file at the path they are kept under is then lost by a sync and a load:
  `LastSlot.SavedTwice`, `LastSlot.TwiceSavedStale`.
- Mounting marks the volume clean without counting, so it is crash-safe afterwards if and
  only if the counts were true: `Format.MarkMounted`, `Format.MountedOverFalseCounts`. Later
  updates do not mind: they need a sound volume only.
- A save is atomic for the file it saves if and only if the new data shares no block with the
  old, and a file that outgrows its blocks can be given a run over them: `Torn.TornExactly`,
  `Torn.GrowsOverItself`.
- An interrupted format, of whatever stood on the disk, is sound if and only if the slots it did
  not reach fit the new volume, and crash-safe if and only if none of them is active:
  `Format.FormatStopped`. It is never resumed: after its first write the disk counts as
  formatted, and what stood there can be a file from then on: `Boot.FirstFormatCut`.
- The block allocator can hand out blocks past the end only on a volume of 2^32 - 1 blocks:
  `FirstFit.SweepRightUnlessLargest`.
- An operation of the RAM filesystem fails and still changes something if and only if it is a
  permitted `chmod` of four letters, one of them wrong, that spell bits the file did not have:
  `FsEffects.ErrorsExactly`, `FsEffects.RefusedAndOpened`. The disk does not hear of it:
  `WriteThrough.Operate`.
- Freeing a frame the allocator was never given makes it available, and the total wrong, if
  and only if it lies below the last managed frame: `Frames.BitmapAllocator.FreeFrame`,
  `Frames.StepManaged`, on a map with a hole `Frames.HoleFreed`.
- A chunk extension makes the decoder fail, where section 7.1.1 of RFC 9112 asks recipients
  to ignore it: `Chunked.DecodeInvertsEncode`, `Chunked.ExtensionBreaksHello`.
- The decoder of chunked bodies does not look at the two bytes after a chunk's data, and takes a
  body without its last chunk: `Chunked.TakenDecodes`, `Chunked.DecodedIsTaken`.
- Uid 65535 can be handed out twice, which ends the strict order of the user table and lets a
  deletion of it be rolled back in vain: `Users.CreateKeepsExactly`, `Users.RollBackExactly`.
  A restore of uid 65535 leads there, and so do creations and deletions alone:
  `Users.CeilingBreaks`, `Users.CreationsBreak`.
- The 32-bit checksum accumulator wraps for headers longer than 131074 bytes; storing the
  checksum still makes the header verify: `Checksum.NoWrapExactly`, `Checksum.StoredVerifies`.
- The error term of a line leaves 32 bits for some line of a length if and only if the length
  is above 715827883: `Line.NoOverflowExactly`.
- Arguments that do not fit the user stack are written below it, and an argument with a NUL
  inside is not read back whole: `UserStack.UserMemory.SetupUserStack`,
  `UserStack.NulCutsArgument`.

## Model

| member | source | states |
|---|---|---|
| DiskRuns.Session | kernel/src/disk/persist.rs:63-144 | any sequence of saves, deletes and syncs on any sound volume, each with device faults, each cut by a power failure where the run says so, with boots where it says so, which may fail: every image is sound, and crash-safe unless a mount wrote it; if slots have distinct names and every name saved has at most 95 bytes, names stay distinct, and every file is as the last call that was tried and touched it asked, unless that call failed to make a change; without cuts and boots every call is tried, and on a reliable device every delete is done |
| DiskRuns.CutShort | kernel/src/disk/persist.rs:63-218 | power fails inside a call: the volume left behind is sound; if slots have distinct names and the names saved have at most 95 bytes, every file the call asks no change of is whole, syncs included |
| DiskRuns.LastTouchDecides | kernel/src/disk/persist.rs:63-144 | the expected standing of a file is fixed by the last call that was tried and names it; a failed call leaves it in doubt only if it asked for a change; without any call it is the old content |
| Boot.Init | kernel/src/disk/mod.rs:156-189 | a boot from whatever is on the medium: with a valid superblock the disk is never formatted and no slot or block changes; without one every image is one of the format or the mounted volume, and success leaves it empty and crash-safe, with as many blocks of eight sectors as there are behind the first 129, mounted once; from a sound volume no file changes, each name loads from the last slot that gives it, and from a volume that holds a snapshot the files loaded are the stored ones; a device error only if the device is not reliable |
| Boot.FormatAndMount | kernel/src/disk/mod.rs:165-173 | formatting and mounting a disk without a superblock, stopped anywhere: the images are the new superblock over the old table, one more slot cleared in each, then the mounted volume; on success the superblock describes the whole disk |
| Boot.MountAndLoad | kernel/src/disk/mod.rs:174-179 | mounting and loading changes the superblock only; from a sound volume the files stay and are loaded |
| Boot.FirstFormatCut | kernel/src/disk/mod.rs:162-171 | at a definite disk that was in other use: cut after the first write of its format, it has a valid superblock, is not crash-safe, and holds a file named /x |
| LoadBack.SyncThenLoad | kernel/src/disk/persist.rs:14-144 | on any sound volume with names this code can have written, distinct or not, sync then load into an empty filesystem gives back exactly the stored files if and only if each name has at most 95 bytes, each permission record carries the owner's uid, and no wanted name had several slots of which the last held something else; with distinct names, short names and one owner each, what comes back is every file but /readme.txt and /sysinfo.txt, and nothing else; device errors only if the device is not reliable |
| LoadBack.LoadFilesystem | kernel/src/disk/persist.rs:14-61 | from any sound volume, the file under every name afterwards is that of the last slot that gives the name, which the slots named /readme.txt and /sysinfo.txt do not, or the one there before; all names read were text; from a volume that holds a snapshot, an empty filesystem ends with exactly the stored files in order, and the count returned is theirs |
| LastSlot.BackExactly | kernel/src/disk/persist.rs:14-144 | loading what a sync left gives back the stored files if and only if each can be stored as it is and no stale slot comes last under its name |
| LastSlot.SavedTwice | kernel/src/disk/persist.rs:160-177 | after two saves of one name of more than 95 bytes two slots have one name |
| LastSlot.TwiceSavedStale | kernel/src/disk/persist.rs:123-177 | at the volume two saves of a 96-byte path leave: a later file at its first 95 bytes can be stored as it is, and a sync and load still bring back the old one |
| LoadBack.LoadFits | kernel/src/fs/mod.rs:321-377 | no capacity, path or count check of a load can refuse a file of a legal snapshot, whatever part of it is loaded already |
| LoadBack.ReadData | kernel/src/disk/persist.rs:28-38 | the bytes read for a slot of a sound volume are the recorded file content cut to its size |
| LoadBack.RestoredExactly | kernel/src/disk/persist.rs:39-57 | the stored files come back as they were if and only if each has one owner |
| LoadBack.RestoredPlainly | kernel/src/disk/mod.rs:298-300 | what comes back of a snapshot is every file but /readme.txt and /sysinfo.txt, with one owner each |
| Sync.SyncFilesystem | kernel/src/disk/persist.rs:104-144 | on any sound volume every image is crash-safe, and success leaves it clean and returns the number of stored files; where all their names have at most 95 bytes, each is then in the first slot of its name, and further slots of a wanted name are as before; if slots had distinct names, they still have if and only if no two stored files share their first 95 bytes, and then the volume holds exactly the stored files under those names, which where they fit are all but /readme.txt and /sysinfo.txt, and in every image a file already as wanted is whole and one not wanted whole or gone; DiskFull only if a stored file finds no slot or no run of blocks, and a device error only if the device is not reliable |
| Sync.DropStale | kernel/src/disk/persist.rs:107-121 | the first pass clears exactly the slots whose names the snapshot does not want, and nothing else |
| Sync.StoreAll | kernel/src/disk/persist.rs:123-139 | the second pass leaves the old files overridden by all the stored ones under their kept names; slot by slot, each file in the first slot of its name and repeats as they were |
| Sync.StoredMapAt | kernel/src/disk/persist.rs:123-137 | each persistable file of a sorted snapshot is the one stored under its name |
| Sync.KeptMapAt | kernel/src/disk/persist.rs:123-137 | if no two stored files share their first 95 bytes, each is the one kept under its own |
| Sync.CrowdedNext | kernel/src/disk/persist.rs:123-139 | storing one more file whose first 95 bytes a stored file has, names stop being distinct |
| Sync.AgreedSpared | kernel/src/disk/persist.rs:123-137 | a file that is already there as the snapshot wants it keeps its bytes at every sector while it is rewritten |
| Repeats.StoredSettles | kernel/src/disk/persist.rs:123-139 | one store of a sync, on a table with any names: it writes the first slot of the name, every other slot and its bytes stay, and no slot becomes or ceases to be a repeat |
| Repeats.WeededRepeats | kernel/src/disk/persist.rs:107-121 | clearing the unwanted slots keeps every repeated slot of a wanted name, with its bytes |
| Persist.SaveEntry | kernel/src/disk/persist.rs:63-77 | on any sound volume, whatever the names: every image is crash-safe and keeps every slot but the one written, which on success holds the file; a name is there afterwards if and only if it has at most 95 bytes, a longer one takes a new slot, and distinct names stay distinct if and only if the first 95 bytes of a longer one were free; if so, success leaves the old files and this one put in under that name, every image keeps all others, and where the new data spares the old it holds the old or the new file; on a reliable device it succeeds if and only if there is a slot for the name and a run for the data; corrupted data only if some name is not text |
| Persist.DeleteFileFromDisk | kernel/src/disk/persist.rs:79-102 | on any sound volume, whatever the names: every image is crash-safe and keeps every slot but the first of the name, which success clears; with distinct names, success removes exactly this file and leaves the volume clean, a missing file is reported and no file changes, and every image holds the old files or the old files without this one; on a reliable device it succeeds if and only if the file is there |
| Persist.UpsertFileEntry | kernel/src/disk/persist.rs:150-218 | on a dirty volume, create or replace one file: every image is sound and keeps every slot but the one written, which on success holds the file; if names are distinct and the kept form of a long one is free, contents become the old map with this entry, every image keeps all other files, and the file itself where the data spares it; DiskFull only without a slot or a run |
| Persist.UniqueExactly | kernel/src/disk/persist.rs:160-216 | writing the slot found for a name keeps names distinct if and only if the name fits or its kept form was free, and never makes repeated names distinct |
| Persist.Locate | kernel/src/disk/persist.rs:160-177 | the first slot of the name if the table has it, else the first inactive slot, else the table is full; names passed on the way are text, and corrupted data is reported only if some name is not |
| Persist.ChooseStart | kernel/src/disk/persist.rs:178-190 | the old start if the blocks fit, else the lowest run free of every other file and inside the volume; DiskFull only if there is none |
| Persist.RoomFound | kernel/src/disk/persist.rs:160-190 | where a slot and a start were found, the disk is not full for the file |
| Persist.EmptyHasRoom | kernel/src/disk/persist.rs:160-190 | an empty volume has room for a file if and only if its 4096-byte blocks, the last one begun counted whole, are at most those of the volume |
| Persist.FormatThenSave | kernel/src/disk/format.rs:69-128 | on a reliable device formatting succeeds, and the first save then does if and only if the file's blocks are at most the groups of eight sectors behind the first 129 |
| Persist.MarkDirty | kernel/src/disk/format.rs:163-167 | the first write of an update only marks the volume, changing no file |
| Persist.MarkClean | kernel/src/disk/format.rs:169-176 | the last write of an update makes the counts true and the mark clean, changing no file |
| Persist.SameSpared | kernel/src/disk/persist.rs:178-190 | saving a file that is already there as it is spares it |
| Persist.LongNameMissing | kernel/src/disk/persist.rs:164-177 | no slot answers to a name of more than 95 bytes, so a save of one never finds its own |
| Persist.LongNameNeedsSlot | kernel/src/disk/persist.rs:164-177 | a save of such a name can only succeed while the table has an inactive slot |
| Persist.LongPathLost | kernel/src/disk/persist.rs:213-216 | three directories of 31 letters are a path the filesystem takes, and its slot answers to the first 95 bytes only |
| Torn.TornExactly | kernel/src/disk/persist.rs:150-218 | saves of a name and length read as the old or the new file at every sector, whatever they hold, if and only if the run they are given holds no byte of the old file |
| Torn.GrowsOverItself | kernel/src/disk/persist.rs:180-190 | a file alone at the start of the volume that outgrows its blocks is given a run over them |
| InPlace.ApartKeeps | kernel/src/disk/format.rs:240-255 | data written where a file has no byte leaves it readable at every sector |
| InPlace.SameDataKeeps | kernel/src/disk/format.rs:240-255 | a file written over itself byte for byte stays readable at every sector |
| Format.MarkMounted | kernel/src/disk/format.rs:154-161 | a mount succeeds only on a valid superblock and changes nothing else, in one image; a sound volume stays sound with its files, and is crash-safe then if and only if both stored counts were true; on error nothing is written |
| Format.RefreshSuperblock | kernel/src/disk/format.rs:169-176 | one write: both counts recomputed from the table, nothing else changed; on error the device is untouched |
| Format.FormatDisk | kernel/src/disk/format.rs:118-128 | a formatted volume is crash-safe and empty, for every volume of fewer than 2^32 - 1 blocks; its superblock has the disk's sector count, as many blocks as there are groups of eight sectors behind the first 129, counted in 32 bits, the block size, the label, the time and zero counts; the images on the way are the new superblock over the old table, one more slot cleared in each |
| Format.FormatStopped | kernel/src/disk/format.rs:118-128 | a format stopped anywhere, over any table, is sound if and only if the slots it did not reach fit the new volume, and crash-safe if and only if none of them is active |
| Format.MountedOverFalseCounts | kernel/src/disk/format.rs:154-161 | a delete of the one file of a one-block volume, cut after its slot was cleared, is crash-safe, and is not once mounted |
| Format.AllocateBlocks | kernel/src/disk/format.rs:257-292 | the lowest start whose run avoids every other file and fits the volume; DiskFull exactly when no run of that length is free |
| Format.UsedRanges | kernel/src/disk/format.rs:263-276 | the extents collected are those of all active slots but the ignored one; it stops, as a checked build does, if and only if one of them ends beyond 32 bits |
| Format.CountActiveFiles | kernel/src/disk/format.rs:294-302 | the number of active slots |
| Format.CountUsedBlocks | kernel/src/disk/format.rs:304-313 | the sum of block counts, with no saturation on a sound volume |
| Format.WriteFileData | kernel/src/disk/format.rs:240-255 | zero-padded data laid over consecutive blocks, every image a prefix of it; past the end of the device it is written up to the end and refused; on error the prefix written is known |
| Format.ReadFileData | kernel/src/disk/format.rs:229-238 | the concatenated sectors of the extent |
| Format.ReadSuperblock | kernel/src/disk/format.rs:130-141 | the superblock stored, if its magic is 0x57415246 and its version 1, and an error otherwise |
| Format.WriteSuperblock | kernel/src/disk/format.rs:143-152 | replaces the superblock in one write and touches no slot or block |
| Format.ReadFileEntry | kernel/src/disk/format.rs:178-189 | the slot stored at an index, or out of bounds |
| Format.WriteFileEntry | kernel/src/disk/format.rs:191-209 | replaces one slot in one write and touches nothing else |
| FirstFit.SweepExact | kernel/src/disk/format.rs:278-291 | the sweep over sorted extents finds the lowest gap at or above the candidate, and fails only without one |
| FirstFit.SweepRightUnlessLargest | kernel/src/disk/format.rs:278-291 | the sweep is right on all tables if and only if the volume does not have 2^32 - 1 blocks |
| FirstFit.RangesFree | kernel/src/disk/format.rs:263-276 | a run avoids the collected extents exactly when it avoids the table's other files |
| FirstFit.SortKeeps | kernel/src/disk/format.rs:278-278 | sorting the extents loses and invents none |
| Volumes.SumBlocksBounded | kernel/src/disk/format.rs:304-313 | disjoint extents inside a volume never add up to more than its size |
| Volumes.FileStored | kernel/src/disk/format.rs:191-209 | writing an active slot for a name puts that record in the map of files and changes no other |
| Volumes.FileRemoved | kernel/src/disk/format.rs:96-116 | clearing the slot of a name removes exactly that name from the map of files |
| Volumes.DataReadsBack | kernel/src/disk/format.rs:229-255 | bytes written to an extent, cut to their length, read back |
| DiskLayout.EntryRoundTrip | kernel/src/disk/format.rs:41-58 | every slot record survives its 512-byte sector form |
| DiskLayout.SuperRoundTrip | kernel/src/disk/format.rs:23-39 | every superblock survives its 512-byte sector form |
| DiskLayout.StoredName | kernel/src/disk/format.rs:211-218 | a stored name reads back cut to 95 bytes, so whole if and only if it has at most 95 |
| Recency.KeepSize | kernel/src/disk/cache.rs:117-148 | the n most recently used sectors are at most n, and all sectors used while fewer than n |
| Recency.KeepUpward | kernel/src/disk/cache.rs:117-148 | a sector used later than a kept one is kept |
| Recency.TouchWhenFull | kernel/src/disk/cache.rs:135-147 | using a new sector when n are kept displaces exactly the one used longest ago |
| Recency.TouchWithRoom | kernel/src/disk/cache.rs:125-133 | using a new sector with room adds it and displaces none |
| Recency.TouchKept | kernel/src/disk/cache.rs:118-123 | using a kept sector changes nothing in what is kept |
| SectorCache.InsertedIsLru | kernel/src/disk/cache.rs:117-148 | eviction by least generation keeps the entry list exactly the most recently used sectors |
| SectorCache.BlockCache.ExactlyLru | kernel/src/disk/cache.rs:87-153 | until the generation counter wraps, the cache holds as many sectors as it can, and none of them was used before one it does not hold |
| SectorCache.BlockCache.Insert | kernel/src/disk/cache.rs:117-148 | the cache stays exactly LRU and clean, and agrees with any image that holds the new copy and agreed with the others |
| SectorCache.BlockCache.ReadSector | kernel/src/disk/cache.rs:87-103 | returns what the device holds, from cache or device; a fault leaves the entries as they were |
| SectorCache.BlockCache.WriteSector | kernel/src/disk/cache.rs:105-115 | the device is written first; on a fault entries and device are as they were, so the two never disagree |
| SectorCache.BlockCache.ReadSectors | kernel/src/disk/cache.rs:43-63 | the concatenation of the device's sectors, whatever is cached |
| SectorCache.BlockCache.WriteSectors | kernel/src/disk/cache.rs:65-85 | the sectors are written in order, one image each; on error the number written is known |
| SectorCache.BlockCache.NextGeneration | kernel/src/disk/cache.rs:150-153 | stamps grow strictly until the 64-bit counter wraps |
| SectorCache.BlockCache.Flush | kernel/src/disk/cache.rs:36-41 | no entry is ever dirty, so flushing changes nothing |
| SectorCache.BlockCache.Clear | kernel/src/disk/cache.rs:31-34 | an emptied cache still agrees with the device |
| SectorCache.VirtioBlk.WriteSector | kernel/src/disk/virtio_blk.rs:131-162 | one sector replaced and one image recorded, or an error and no change |
| WriteThrough.RunThenReboot | kernel/src/disk/mod.rs:156-189 | on a volume with distinct names in step with memory, after any run of operations on paths of at most 95 bytes whose changes all reached the disk, or were written over by one that did, a boot loads every file but /readme.txt and /sysinfo.txt with one owner each, which are exactly the stored ones in memory if and only if each had one owner |
| WriteThrough.OperateAll | kernel/src/fs/mod.rs:140-518 | over any run on any sound volume, with any disk errors dropped, every image written is crash-safe; where slots have distinct names and paths have at most 95 bytes, memory and disk agree on every file not in doubt |
| WriteThrough.Operate | kernel/src/disk/mod.rs:239-257 | one operation and its write-out: it succeeds and fails exactly as stated; where it succeeds and the disk takes it, the volume holds the file as it is in memory, or not at all if it is gone there, except that /readme.txt and /sysinfo.txt never reach it; on a reliable device the disk takes it unless there is no room; of a refused operation the disk hears nothing; the files in doubt are the old ones, plus this one if the disk did not take it or a refused chmod set bits, minus this one if the disk did |
| WriteThrough.Apply | kernel/src/fs/mod.rs:140-518 | an operation on the filesystem object succeeds exactly under the stated conditions, gives the first applicable error otherwise, and changes one file as stated |
| WriteThrough.InStepExactly | kernel/src/disk/persist.rs:104-144 | nothing in doubt means exactly that the volume holds the stored files and no others |
| WriteThrough.LastChangeDecides | kernel/src/disk/mod.rs:239-257 | the last operation to change a file decides whether it is in doubt: unless it succeeded and was stored |
| FsEffects.StepEffect | kernel/src/fs/mod.rs:140-518 | every operation changes at most the file it names, to exactly the stated record; on an error nothing changes, unless it is a chmod that slips through |
| Verdicts.OutcomeExactly | kernel/src/fs/mod.rs:140-518 | every operation succeeds if and only if: data of at most 1 MiB, a legal path other than the root, at most 4 MiB with the other files, an existing file not read-only and open to the one who acts, or room among 128 files for a new one, with its name free and its directory there for a creation; four right letters for a mode; and otherwise gives the first error that applies |
| Verdicts.BesideAndOwn | kernel/src/fs/mod.rs:456-490 | all bytes stored are those beside a name and its own |
| Verdicts.ParentThereExactly | kernel/src/fs/mod.rs:1375-1401 | the directory of a path is there if and only if it is the root or some file's path starts with it and a slash |
| FsEffects.ErrorsExactly | kernel/src/auth/permissions.rs:87-100 | an operation fails and still changes something if and only if it is a permitted chmod of four letters, one of them wrong, spelling new bits |
| FsEffects.RefusedAndOpened | kernel/src/auth/permissions.rs:87-100 | the mode "rw?w" is refused, and the file is writable to everyone |
| FsEffects.LookupExact | kernel/src/fs/mod.rs:520-526 | looking a name up finds the one file of that name and nothing else |
| WarFs.RunLegal | kernel/src/fs/mod.rs:85-518 | over any run names stay canonical, sorted and unique, and the file, count and total limits hold |
| WarFs.ReadOnlyKept | kernel/src/fs/mod.rs:214-518 | a read-only file survives unchanged any run without system seeding and loading, whoever acts |
| WarFs.ClosedFileKept | kernel/src/fs/mod.rs:214-518 | a file closed to every acting user survives their run unchanged |
| WarFs.IsolationExact | kernel/src/auth/permissions.rs:54-74 | a file survives everything a plain user can do if and only if it is read-only, or neither owned by that user nor writable to others |
| WarFs.Intrusion | kernel/src/fs/mod.rs:214-518 | for any other file there is one operation by that user that changes or removes it |
| WarFs.WarFS.WriteInternal | kernel/src/fs/mod.rs:456-518 | the write, with all its checks in order, is the specified step, whose outcome `Verdicts.OutcomeExactly` and whose effect `FsEffects.StepEffect` state |
| WarFs.WarFS.SeedSystem | kernel/src/fs/mod.rs:140-190 | the system seed is the specified step, whose outcome `Verdicts.OutcomeExactly` and whose effect `FsEffects.StepEffect` state |
| WarFs.WarFS.CreateNewAs | kernel/src/fs/mod.rs:379-427 | exclusive creation, parent directory and limits included, is the specified step, whose outcome `Verdicts.OutcomeExactly` and whose effect `FsEffects.StepEffect` state |
| WarFs.WarFS.DeleteAs | kernel/src/fs/mod.rs:214-236 | the delete is the specified step, whose outcome `Verdicts.OutcomeExactly` and whose effect `FsEffects.StepEffect` state |
| WarFs.WarFS.ChmodAs | kernel/src/fs/mod.rs:297-319 | the mode change is the specified step, bits set before a refusal included, whose outcome `Verdicts.OutcomeExactly` and whose effect `FsEffects.StepEffect` state |
| WarFs.WarFS.LoadFileFromDisk | kernel/src/fs/mod.rs:321-377 | the load is the specified step, whose outcome `Verdicts.OutcomeExactly` and whose effect `FsEffects.StepEffect` state |
| Paths.CanonicalPathExact | kernel/src/fs/mod.rs:1327-1373 | results are canonical, canonicalisation is idempotent, and its fixpoints are exactly the canonical paths |
| Paths.CanonicalPathMeaning | kernel/src/fs/mod.rs:1327-1373 | the result is the path of the non-empty, non-dot components if all are legal and the text fits, else the stated error |
| PathBytes.CanonicalBytesExactly | kernel/src/fs/mod.rs:1327-1373 | a path is returned unchanged if and only if it is a slash, or at most 96 slashes, letters, digits, dots, underscores and dashes that start with a slash, do not end in one, have no two together, and no stretch between slashes that is one dot, two dots or longer than 31 |
| PathBytes.RelativeFromRoot | kernel/src/fs/mod.rs:1327-1340 | any path gives what it gives trimmed and with a slash in front |
| PathBytes.TrimmedSame | kernel/src/fs/mod.rs:1327-1328 | white space around a path does not count |
| PathBytes.SlashesMerge | kernel/src/fs/mod.rs:1340-1352 | two slashes in a path count as one |
| PathBytes.DotsDrop | kernel/src/fs/mod.rs:1340-1352 | a dot between slashes does not count |
| PathBytes.EndsDrop | kernel/src/fs/mod.rs:1340-1352 | neither does a slash at the end, with or without a dot |
| PathBytes.PlainOrRefused | kernel/src/fs/mod.rs:1327-1373 | a path with none of these is returned as it is, or refused: as too long if only its length is wrong, else as invalid |
| Paths.ComputeCanonicalPath | kernel/src/fs/mod.rs:1327-1361 | the loop over components computes the specified path or the first error |
| Paths.WarexecAgrees | kernel/src/fs/mod.rs:1261-1308 | a path the strict form accepts means the same to both forms |
| PathBytes.WarexecExactly | kernel/src/fs/mod.rs:1261-1308 | the strict form accepts exactly the canonical paths, and with leave those with slashes at the end, which it takes away |
| Resolver.ResolveDependencies | kernel/src/pkg/resolver.rs:6-11 | success if and only if every reachable package exists and none is on a cycle; the order then lists each reachable package once, dependencies first, root last, in the order of the depth-first walk; each error is the first the walk meets and names a true cause |
| Resolver.Walk.Visit | kernel/src/pkg/resolver.rs:13-38 | the loop is the depth-first walk written as a function; it extends the order with reachable packages only, restores the trail, and explains its errors |
| Resolver.LookupFirst | kernel/src/pkg/resolver.rs:26-30 | of several packages with one name the first counts |
| IrqRing.RunKeeps | kernel/src/drivers/keyboard.rs:809-845 | the ring invariant in every state of every interleaving, counts of pending events among the steps, with stale acquire loads |
| IrqRing.PoppedIsPrefix | kernel/src/drivers/keyboard.rs:809-834 | in every interleaving the events popped are a prefix of those published, in order and unaltered, and fewer than 256 are waiting |
| IrqRing.DropOnlyWhenFull | kernel/src/drivers/keyboard.rs:809-820 | a push is dropped if and only if 255 events are unread as far as the producer can see |
| IrqRing.PushDelivers | kernel/src/drivers/keyboard.rs:809-820 | in any reachable state, a push that sees fewer than 255 unread events publishes its event and does nothing else |
| IrqRing.PushDrops | kernel/src/drivers/keyboard.rs:809-820 | one that sees 255 is dropped and counted |
| IrqRing.PopDelivers | kernel/src/drivers/keyboard.rs:823-834 | in any reachable state, a pop that sees an event gives the oldest one not given yet, and one that sees none gives none |
| IrqRing.QuiescentConservation | kernel/src/drivers/keyboard.rs:809-845 | at rest, events offered are those popped, pending and lost, and the drop counter counts the lost ones modulo 2^32 |
| IrqRing.CountReports | kernel/src/drivers/keyboard.rs:837-845 | over any interleaving, whatever is pushed between its two loads, the count reported is that of the events behind the head it loaded: exact for that moment, never more than are pending when it returns, always below 256 |
| IrqRing.PendingExact | kernel/src/drivers/keyboard.rs:837-845 | the two-case index difference is the difference of any two counts modulo the capacity |
| Frames.BitmapAllocator.constructor | kernel/src/memory/physical.rs:31-76 | exactly the frames wholly inside usable regions, but for frame 0 and those past the limit, are free; the total counts them once |
| Frames.BitmapAllocator.AllocateFrame | kernel/src/memory/physical.rs:79-98 | hands out one free, aligned frame and takes only it; refuses only when none is free |
| Frames.BitmapAllocator.FindFree | kernel/src/memory/physical.rs:84-97 | the cyclic scan from the hint misses no free frame |
| Frames.BitmapAllocator.AllocateContiguousFrames | kernel/src/memory/physical.rs:101-126 | hands out the lowest free run and takes exactly it; refuses only when no run of that length is free |
| Frames.BitmapAllocator.FindRun | kernel/src/memory/physical.rs:106-125 | the lowest start of a free run, or none exists |
| Frames.BitmapAllocator.FreeFrame | kernel/src/memory/physical.rs:130-141 | makes exactly that frame available; the total stays right if and only if the frame was not a reserved one |
| Frames.BitmapAllocator.FreeContiguousFrames | kernel/src/memory/physical.rs:145-160 | makes exactly the managed frames of the run available; the total stays right if and only if none was a reserved one |
| Frames.BitmapAllocator.SetAllocated | kernel/src/memory/physical.rs:180-188 | changes the state of one frame: the other bits of the byte, and of the map, stay |
| Frames.ScanMeets | kernel/src/memory/physical.rs:84-97 | the wrapped scan positions cover every managed frame |
| Frames.BitmapAllocator.PerformAll | kernel/src/memory/physical.rs:79-160 | any run of allocations and frees follows the specified steps; while callers free only frames of the memory map, the reserved frames are exactly those outside it and free plus held is the fixed total |
| Frames.NeverTwice | kernel/src/memory/physical.rs:79-160 | over any run, a frame handed out twice was taken back in between |
| Frames.OnlyUsableGiven | kernel/src/memory/physical.rs:79-160 | while callers free only frames of the memory map, only such frames are handed out |
| Frames.StepManaged | kernel/src/memory/physical.rs:130-160 | a call keeps the reserved frames those outside the memory map if and only if it frees none of them |
| Frames.HoleFreed | kernel/src/memory/physical.rs:130-141 | on a map with frames 1 and 3 usable, freeing address 0x2000 makes reserved frame 2 available and the total wrong |
| Shadow.SideBySide | kernel/src/display/framebuffer.rs:96-318 | the same drawing on a shadowed and on a direct display gives the same picture, and outside batches the same visible screen |
| Shadow.Framebuffer.PerformAll | kernel/src/display/framebuffer.rs:96-158 | any run of operations draws what drawing straight on a plain buffer would, which `Shadow.ScrollDraws` and the operations themselves describe byte by byte |
| Shadow.Framebuffer.EnableShadowBuffer | kernel/src/display/framebuffer.rs:44-93 | taking a shadow, or failing to, changes nothing that is shown |
| Shadow.Framebuffer.ScrollUp | kernel/src/display/framebuffer.rs:105-133 | byte i becomes old byte i + k for k bytes of rows scrolled, every pixel of the freed rows has the colour's bytes in the order of the format, all of them if nothing is left; inside a batch the screen does not change |
| Shadow.Framebuffer.Clear | kernel/src/display/framebuffer.rs:96-102 | every whole pixel has the colour's bytes in the order of the format, and nothing else changes; inside a batch the screen does not change |
| Shadow.Framebuffer.WritePixel | kernel/src/display/framebuffer.rs:136-144 | on the screen, exactly the bytes of row y, column x change, to red, green and blue in the order of the format; off it nothing does; inside a batch the screen does not change |
| Shadow.ScrollDraws | kernel/src/display/framebuffer.rs:105-133 | the same of the specified scroll, for every geometry and format |
| Shadow.WholeBytes | kernel/src/display/framebuffer.rs:290-303 | of an unknown format, channels at three different whole bytes come out at these, and the fourth byte is zero |
| Shadow.Framebuffer.FlushDirty | kernel/src/display/framebuffer.rs:236-256 | the dirty rows reach the screen, and nothing is dirty afterwards |
| Shadow.Framebuffer.MarkDirtyRows | kernel/src/display/framebuffer.rs:223-234 | the dirty range grows to cover the rows and still covers what it covered |
| Shadow.Framebuffer.WriteColorAtOffset | kernel/src/display/framebuffer.rs:175-212 | one pixel drawn; every difference between screen and shadow stays inside the dirty rows |
| Shadow.Framebuffer.WriteColorBytes | kernel/src/display/framebuffer.rs:259-318 | the bytes of one pixel in each format, and no others |
| Shadow.Framebuffer.EndBatch | kernel/src/display/framebuffer.rs:150-158 | ending the outermost batch brings the screen up to date; ending an inner one does not touch it |
| Shadow.ScreenUpToDate | kernel/src/display/framebuffer.rs:146-158 | outside batches every visible byte of the screen is the shadow's |
| Line.Surface.DrawLine | kernel/src/gui/framebuffer.rs:222-246 | for every line whose error terms stay within 32 bits, exactly the pixels of the rounded line that lie on the surface get the colour, and no other changes |
| Line.LineShape | kernel/src/gui/framebuffer.rs:222-246 | the line has both endpoints, one point per step of the longer axis, each within half a pixel of the exact line |
| Line.LineIsTrace | kernel/src/gui/framebuffer.rs:222-246 | the integer error recurrence visits exactly the rounded points, from start to end |
| Line.PaintExact | kernel/src/gui/framebuffer.rs:62-68 | painting points one after the other colours exactly the pixels at them, in whatever order and however often |
| Line.NoOverflowExactly | kernel/src/gui/framebuffer.rs:222-246 | no line of a length leaves 32 bits if and only if the length is at most 715827883 |
| Line.Surface.SetPixel | kernel/src/gui/framebuffer.rs:62-68 | sets a pixel on the surface and ignores one outside |
| UserStack.UserMemory.SetupUserStack | kernel/src/exec/loader.rs:448-487 | an aligned frame of argc, argv and a null pointer below the strings, starting inside the stack if and only if the arguments fit; each pointer leads to its argument, read back whole if and only if it has no NUL inside; nothing outside the frame and strings is written |
| UserStack.UserMemory.PushStrings | kernel/src/exec/loader.rs:449-463 | the strings are laid out without overlap, the pointers are theirs in order |
| UserStack.UserMemory.PushFrame | kernel/src/exec/loader.rs:477-484 | the words of the frame read back as argc, the pointers and null |
| UserStack.RoomExactly | kernel/src/exec/loader.rs:471-473 | the frame starts at or above an aligned bottom if and only if strings and frame fit above it |
| UserStack.NulCutsArgument | kernel/src/exec/loader.rs:452-461 | the argument A, NUL, B is read back as A |
| Chunked.DecodeInvertsEncode | kernel/src/net/http.rs:316-343 | for every spelling of the sizes, white space after them or not, and anything after the last chunk, decoding gives the body back if and only if no chunk has an extension |
| Chunked.DecodeChunkedBody | kernel/src/net/http.rs:316-343 | the cursor loop computes the recursive decoding, errors included |
| Chunked.HexTextValue | kernel/src/net/http.rs:316-343 | the hexadecimal text of every 64-bit size parses to that size |
| Chunked.HexDigitsExactly | kernel/src/net/http.rs:316-343 | a text of digits, letters in either case, parses to its positional value if that fits 64 bits, and to nothing otherwise |
| Chunked.NoDigitFails | kernel/src/net/http.rs:316-343 | a text with anything else in it parses to nothing |
| Chunked.UpperTextValue | kernel/src/net/http.rs:316-343 | the upper-case text of every 64-bit size parses to that size |
| Chunked.TakenDecodes | kernel/src/net/http.rs:316-343 | size lines, data and two bytes each, then nothing or a zero line and anything, decode to the data, though the two bytes are not looked at and the last may be missing |
| Chunked.DecodedIsTaken | kernel/src/net/http.rs:316-343 | and nothing else decodes |
| Chunked.NoSizeAhead | kernel/src/net/http.rs:316-343 | a line that gives no size is reported as such |
| Chunked.NoLineAhead | kernel/src/net/http.rs:316-343 | a body without a line end ahead is broken |
| Chunked.DataCutShort | kernel/src/net/http.rs:316-343 | a size beyond the end of the input is too long |
| Chunked.ExtensionBreaksHello | kernel/src/net/http.rs:316-343 | a body of one chunk decodes, and fails once the chunk has the extension ";a" |
| Checksum.StoredVerifies | kernel/src/net/ipv4.rs:82-98 | with the checksum stored in its zeroed field, a header of any length has checksum zero, even if the accumulator wraps |
| Checksum.Ipv4Checksum | kernel/src/net/ipv4.rs:82-98 | the loops compute the complement of the folded 32-bit sum |
| Checksum.FoldExact | kernel/src/net/ipv4.rs:93-95 | folding carries is reduction modulo 65535 with 65535 for a non-zero multiple |
| Checksum.NoWrapExactly | kernel/src/net/ipv4.rs:82-98 | the accumulator cannot wrap if and only if the header has at most 131074 bytes |
| Checksum.AcceptsExactly | kernel/src/net/ipv4.rs:82-98 | where it cannot wrap, a header verifies if and only if its word sum is a non-zero multiple of 65535 |
| Users.ReachableGood | kernel/src/auth/users.rs:64-185 | from the default database, every run keeps the root account, first of all, and the accounts in order with no uid twice but 65535; while uids are left the order is strict and all lie below the next one |
| Users.DefaultIsRoot | kernel/src/auth/users.rs:64-72 | the default database is the active administrator root, uid 0, home /root, and nothing else |
| Users.CreateKeepsExactly | kernel/src/auth/users.rs:73-116 | creating an account keeps the order if and only if the next uid is not taken, which below 65535 it never is |
| Users.CeilingBreaks | kernel/src/auth/users.rs:73-185 | with uid 65535 restored and then created, every good database loses its order |
| Users.CreationsBreak | kernel/src/auth/users.rs:73-177 | from every good database with room for two accounts, the default one among them, one user created and deleted until uids run out, then created again and another after it, end the strict order |
| Users.ChurnRun | kernel/src/auth/users.rs:73-177 | creating and deleting one user n times uses up n uids and changes nothing else |
| Users.StepEffect | kernel/src/auth/users.rs:73-185 | on any database each operation adds or takes away exactly one account, or is refused under exactly the stated conditions and changes nothing; a name is legal if it is one to 32 letters, digits and underscores |
| Users.ValidIsLegal | kernel/src/auth/users.rs:300-306 | the check of a name accepts one to 32 ASCII letters, digits and underscores and nothing else |
| Users.StepKeeps | kernel/src/auth/users.rs:73-185 | every operation keeps root, the order and the bound on uids, and never lowers the next uid |
| Users.SortedExactly | kernel/src/auth/users.rs:73-116 | the order is strict if and only if no two accounts have uid 65535 |
| Users.RollBackExactly | kernel/src/shell/commands.rs:1817-1825 | putting a deleted account back restores the database if and only if no other account had its uid |
| Users.UserDB.CreateUser | kernel/src/auth/users.rs:73-116 | adds one account under the next uid or names the first check that refused it; keeps root and order, and a strict order exactly when the uid was not taken |
| Users.UserDB.DeleteUser | kernel/src/auth/users.rs:166-177 | takes away one account with the uid, never root; each refusal exactly when it applies; root and order are kept |
| Users.UserDB.RestoreUserForRollback | kernel/src/auth/users.rs:179-185 | adds the account unless its uid is taken, raises the next uid above it, keeps root and order |
| UserCodec.RoundTripExact | kernel/src/auth/users.rs:196-261 | a database survives its file form if and only if names and home directories have at most 255 bytes and there are fewer than 65536 accounts |
| UserCodec.DecodedIsThere | kernel/src/auth/users.rs:218-261 | whatever is read was there: an accepted file starts with the database it gives, field by field, but for flags other than 0 and 1 |
| UserCodec.ReachableRoundTrip | kernel/src/auth/users.rs:196-261 | every database reached by creations, deletions and restores of texts that fit survives its file form if and only if there are fewer than 65536 accounts, as there are while uids are left |
| UserCodec.Serialize | kernel/src/auth/users.rs:196-216 | the loop writes the specified bytes |
| UserCodec.Deserialize | kernel/src/auth/users.rs:218-261 | the cursor loop reads what the recursive reader reads, and fails where it fails |
| Utf8.TextExactly | kernel/src/disk/format.rs:211-218 | what counts as text is exactly the encoding of some sequence of Unicode scalar values |
| Utf8.SpaceExactly | kernel/src/fs/mod.rs:1327-1328 | what is trimmed from a path or a size is exactly an encoded character with the property White_Space |

## Left out

- Line.Surface.DrawLine: a line whose error terms leave 32 bits is not modelled, as what then happens depends on the build; `Line.NoOverflowExactly` says which lengths are affected.
- Shadow.Framebuffer.WriteColorBytes: channel positions of an unknown pixel format are taken modulo 32, where a checked build would stop on a larger shift.
- Format.AllocateBlocks: on sound volumes, which have fewer than 2^32 - 1 blocks; `FirstFit.SweepRightUnlessLargest` says what is lost there.
- Format.WriteFileData: data of 2^41 bytes and more, whose block count leaves 32 bits, is not modelled.
- Boot.Init: a disk without a valid superblock has fewer than 2^64 sectors, as the device reports their number in 64 bits.
- DiskRuns.Session: of the files of volumes with repeated names, or once a longer name was saved, it says nothing; `Persist.SaveEntry`, `Persist.DeleteFileFromDisk` and `LoadBack.SyncThenLoad` do, call by call.
- UserStack.UserMemory.SetupUserStack: arguments longer than the address space below the stack, where the subtraction saturates at 0, are not modelled.
- A failed single-sector device write is taken to leave the sector as it was, and a device to be either one that may fail any request or one that fails none; the virtio queue, its descriptors and interrupts are not modelled.
- `read_sectors` and `write_sectors` take and return byte sequences where the source fills a caller's buffer.
- The padding bytes of on-disk records are zero in the model.
- The keyboard ring is modelled as atomic steps with stale but monotone acquire loads; weaker hardware behaviour, and the scancode decoders behind the ring, are not.
- The frame allocator is given page-aligned memory regions.
- Session-level filesystem calls (current user, working directory, directory listings, copy, move, search and text tools) only combine the modelled operations.
- Password hashing, salts, login, audit records and tick counts: opaque values or left out.
- Scheduler, paging, system calls, ELF loading apart from the user stack, signals and pipes.
- Network drivers, TCP, DNS, TLS, URL parsing and the rest of the HTTP client.
- GUI widgets, windows, the shell and the console text layer.
- The quantum simulator, its language bindings and the cryptography crate.
