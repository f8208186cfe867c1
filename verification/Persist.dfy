/**
 Saving and deleting single files (kernel/src/disk/persist.rs).

 Every update says four things: what the files on the volume are afterwards, that every
 image it writes is crash-safe, that no other file was disturbed on the way, and when the
 file itself was never anything but its old or its new self. Device errors may strike at
 any sector.
 */
module Persist {
  import opened Bytes
  import opened Errors
  import opened DiskLayout
  import opened Volumes
  import opened Images
  import opened SectorCache
  import opened Format
  import opened InPlace
  import opened Paths
  import F = WarFs

  /** `is_persistable_path`: the two files regenerated at boot are not stored. */
  predicate Persistable(name: str) {
    name != Ascii("/readme.txt") && name != Ascii("/sysinfo.txt")
  }

  function RecordFor(f: F.FileEntry): Record {
    Record(f.data, f.ownerUid, f.permissions.ownerRead, f.permissions.ownerWrite,
           f.permissions.othersRead, f.permissions.othersWrite, f.readonly, f.createdAt, f.modifiedAt)
  }

  function Flag(b: bool): byte { if b then 1 else 0 }

  /** The table record an upsert writes for a file whose data starts at `startBlock`. */
  function EntryFor(f: F.FileEntry, startBlock: u32): DiskFileEntry
    requires |f.data| <= F.MAX_FILE_SIZE
  {
    DiskFileEntry(
      1, NameField96(f.name), |f.data|, f.ownerUid,
      Flag(f.permissions.ownerRead), Flag(f.permissions.ownerWrite),
      Flag(f.permissions.othersRead), Flag(f.permissions.othersWrite), Flag(f.readonly),
      f.createdAt, f.modifiedAt, startBlock, BlockCountForLen(|f.data|), Zeros(368))
  }

  // ---------- one file ----------

  /** Data arriving in a run free for the slot leaves every other file alone. */
  lemma UpsertData(v: Volume, slot: nat, name: str, start: u32, data: seq<byte>, n: nat)
    requires Sound(v) && slot < MAX_FILES
    requires start + BlockCountForLen(|data|) <= v.super.totalBlocks
    requires FreeRun(v.table, start, BlockCountForLen(|data|), slot)
    requires n <= SECTORS_PER_BLOCK * BlockCountForLen(|data|)
    ensures var v' := DataPut(v, start, data, n);
            && Sound(v') && OnlySlot(v, v', slot)
            && (Named(v) && SlotFor(v.table, slot, name) ==>
                  Named(v') && Contents(v') - {name} == Contents(v) - {name})
  {
    var count := BlockCountForLen(|data|);
    DataWritten(v, slot, start, count, Cut(Padded(data), SECTORS_PER_BLOCK * count), n);
    if Named(v) && SlotFor(v.table, slot, name) {
      OtherFilesKept(v, DataPut(v, start, data, n), slot, name);
    }
  }

  /** The data of `f` at `start` spares the bytes of the old record `e`, or repeats them in place. */
  ghost predicate Calm(v: Volume, f: F.FileEntry, e: DiskFileEntry, start: nat)
    requires Sound(v) && e in v.table
  {
    || e.active == 0 || Apart(e, start, BlockCountForLen(|f.data|))
    || (start == e.startBlock && RecordOf(v, e) == RecordFor(f))
  }

  lemma CalmKeeps(v: Volume, f: F.FileEntry, e: DiskFileEntry, start: nat, n: nat)
    requires Sound(v) && e in v.table && e.active != 0 && Calm(v, f, e, start)
    requires start + BlockCountForLen(|f.data|) <= v.super.totalBlocks
    requires n <= SECTORS_PER_BLOCK * BlockCountForLen(|f.data|)
    ensures RecordOf(DataPut(v, start, f.data, n), e) == RecordOf(v, e)
  {
    hide FileBytes, DataPut;
    if e.blockCount > 0 {
      if Apart(e, start, BlockCountForLen(|f.data|)) {
        ApartKeeps(v, e, start, f.data, n);
      } else {
        SameDataKeeps(v, e, f.data, n);
      }
    }
  }

  lemma SameRecords(v: Volume, v': Volume)
    requires Sound(v) && Sound(v') && v'.table == v.table
    requires forall i | 0 <= i < MAX_FILES && v.table[i].active != 0 :: RecordOf(v', v.table[i]) == RecordOf(v, v.table[i])
    ensures Contents(v') == Contents(v)
  {
    hide RecordOf;
    forall name | name in Names(v.table)
      ensures Contents(v')[name] == Contents(v)[name]
    {
      NamesExact(v.table, name);
      assert HasName(v.table, IndexOf(v.table, name), name);
    }
  }

  /** While calm data arrives, every file reads as before. */
  lemma CalmContents(v: Volume, slot: nat, f: F.FileEntry, start: nat, n: nat)
    requires Sound(v) && slot < MAX_FILES
    requires start + BlockCountForLen(|f.data|) <= v.super.totalBlocks
    requires FreeRun(v.table, start, BlockCountForLen(|f.data|), slot)
    requires n <= SECTORS_PER_BLOCK * BlockCountForLen(|f.data|)
    requires Calm(v, f, v.table[slot], start)
    ensures var v' := DataPut(v, start, f.data, n); Sound(v') && Contents(v') == Contents(v)
  {
    hide Contents, RecordOf, FileBytes, Calm;
    var v' := DataPut(v, start, f.data, n);
    UpsertData(v, slot, [], start, f.data, n);
    forall i | 0 <= i < MAX_FILES && v.table[i].active != 0
      ensures RecordOf(v', v.table[i]) == RecordOf(v, v.table[i])
    {
      if i == slot {
        CalmKeeps(v, f, v.table[slot], start, n);
      }
    }
    SameRecords(v, v');
  }

  lemma StoredBytes(v: Volume, f: F.FileEntry, start: u32)
    requires |f.data| <= F.MAX_FILE_SIZE
    requires BlockCountForLen(|f.data|) > 0
    requires start + BlockCountForLen(|f.data|) <= |v.data| / SECTORS_PER_BLOCK
    ensures var n := SECTORS_PER_BLOCK * BlockCountForLen(|f.data|);
            FileBytes(DataPut(v, start, f.data, n), EntryFor(f, start)) == f.data
  {
    var count := BlockCountForLen(|f.data|);
    var n := SECTORS_PER_BLOCK * count;
    var v', run := DataPut(v, start, f.data, n), Cut(Padded(f.data), n);
    assert v'.data[SECTORS_PER_BLOCK * start..SECTORS_PER_BLOCK * (start + count)] == run;
    DataReadsBack(v', EntryFor(f, start), Padded(f.data));
  }

  /** What a slot written for this name answers to. */
  function KeptName(name: str): str { if |name| <= 95 then name else name[..95] }

  /** The table write that completes an upsert. */
  lemma UpsertEntry(v: Volume, slot: nat, f: F.FileEntry, start: u32)
    requires Sound(v) && slot < MAX_FILES && F.GoodFile(f)
    requires var count := BlockCountForLen(|f.data|);
             count > 0 ==> start + count <= v.super.totalBlocks && FreeRun(v.table, start, count, slot)
    ensures var e := EntryFor(f, start);
            var v' := v.(table := v.table[slot := e]);
            && Sound(v') && OnlySlot(v, v', slot)
            && (GoodNames(v.table) ==> GoodNames(v'.table))
            && NameOf(e) == KeptName(f.name)
            && (Named(v) && SlotFor(v.table, slot, KeptName(f.name)) ==>
                  Named(v') && Contents(v') == Contents(v)[KeptName(f.name) := RecordOf(v', e)])
  {
    var e := EntryFor(f, start);
    var v' := v.(table := v.table[slot := e]);
    SlotWritten(v, slot, e);
    CanonicalText(f.name);
    StoredName(e, f.name);
    AsciiIsUtf8(NameOf(e));
    if Named(v) && SlotFor(v.table, slot, KeptName(f.name)) {
      FileStored(v, v', slot, KeptName(f.name));
    }
  }

  /** Data and table record together: the map gains exactly this file. */
  lemma UpsertComplete(v: Volume, slot: nat, f: F.FileEntry, start: u32)
    requires Sound(v) && Named(v) && slot < MAX_FILES && F.GoodFile(f)
    requires SlotFor(v.table, slot, KeptName(f.name))
    requires var count := BlockCountForLen(|f.data|);
             count > 0 ==> start + count <= v.super.totalBlocks && FreeRun(v.table, start, count, slot)
    requires BlockCountForLen(|f.data|) == 0 ==> start == 0
    ensures var n := SECTORS_PER_BLOCK * BlockCountForLen(|f.data|);
            var v1 := DataPut(v, start, f.data, n);
            var v2 := v1.(table := v1.table[slot := EntryFor(f, start)]);
            Sound(v2) && Named(v2) && Contents(v2) == Contents(v)[KeptName(f.name) := RecordFor(f)]
  {
    hide Contents, Named, FileBytes, SlotFor;
    var n := SECTORS_PER_BLOCK * BlockCountForLen(|f.data|);
    var v1 := DataPut(v, start, f.data, n);
    UpsertData(v, slot, KeptName(f.name), start, f.data, n);
    UpsertEntry(v1, slot, f, start);
    StoredRecord(v, slot, f, start);
    MapPutElsewhere(Contents(v), Contents(v1), KeptName(f.name), RecordFor(f));
  }

  /** The record written reads as the file saved. */
  lemma StoredRecord(v: Volume, slot: nat, f: F.FileEntry, start: u32)
    requires Sound(v) && slot < MAX_FILES && |f.data| <= F.MAX_FILE_SIZE
    requires start + BlockCountForLen(|f.data|) <= v.super.totalBlocks || BlockCountForLen(|f.data|) == start == 0
    ensures var v1 := DataPut(v, start, f.data, SECTORS_PER_BLOCK * BlockCountForLen(|f.data|));
            RecordOf(v1.(table := v1.table[slot := EntryFor(f, start)]), EntryFor(f, start)) == RecordFor(f)
  {
    hide FileBytes;
    if BlockCountForLen(|f.data|) > 0 {
      StoredBytes(v, f, start);
      var v1 := DataPut(v, start, f.data, SECTORS_PER_BLOCK * BlockCountForLen(|f.data|));
      SameBytes(v1, v1.(table := v1.table[slot := EntryFor(f, start)]), EntryFor(f, start));
    }
  }

  lemma SameBytes(v: Volume, v': Volume, e: DiskFileEntry)
    requires v'.data == v.data && e.size <= e.blockCount * BLOCK_SIZE
    requires e.startBlock + e.blockCount <= |v.data| / SECTORS_PER_BLOCK
    ensures FileBytes(v', e) == FileBytes(v, e)
  {
  }

  lemma MapPutElsewhere<K, V>(m: map<K, V>, m': map<K, V>, k: K, x: V)
    requires m - {k} == m' - {k}
    ensures m[k := x] == m'[k := x]
  {
    assert forall n | n != k :: n in m <==> n in m - {k};
    assert forall n | n != k :: n in m' <==> n in m' - {k};
    assert forall n | n in m && n != k :: m[n] == (m - {k})[n];
    assert forall n | n in m' && n != k :: m'[n] == (m' - {k})[n];
  }

  /** Where an upsert will write: the slot already named so, or the first free one. */
  datatype Place = Place(slot: nat, existing: DiskFileEntry, found: bool)

  ghost predicate Located(table: seq<DiskFileEntry>, name: str, p: Place) {
    && p.slot < |table| && p.existing == table[p.slot]
    && (if p.found then
          && table[p.slot].active != 0 && NameOf(table[p.slot]) == name
          && forall i | 0 <= i < p.slot && table[i].active != 0 :: NameOf(table[i]) != name
        else
          && table[p.slot].active == 0 && (forall i | 0 <= i < p.slot :: table[i].active != 0)
          && forall i | 0 <= i < |table| && table[i].active != 0 :: NameOf(table[i]) != name)
  }

  lemma LocatedSlot(table: seq<DiskFileEntry>, name: str, p: Place)
    requires Located(table, name, p) && UniqueNames(table)
    ensures SlotFor(table, p.slot, name)
  {
  }

  method Locate(disk: Disk, name: str) returns (r: Result<Place, DiskError>)
    requires Mounted(disk)
    modifies disk.cache
    ensures Mounted(disk)
    ensures r.Ok? ==> Located(Vol(disk).table, name, r.value) && (!r.value.found ==> TextNames(Vol(disk).table))
    ensures r.Err? ==> r.error == DeviceError || r.error == DiskFull
                       || (r.error == CorruptedData && !TextNames(Vol(disk).table))
    ensures r == Err(DiskFull) ==> forall i | 0 <= i < MAX_FILES :: Vol(disk).table[i].active != 0 && NameOf(Vol(disk).table[i]) != name
    ensures r == Err(DeviceError) ==> !disk.device.reliable
  {
    hide View, SectorCache.Disk.Valid;
    var empty := -1;
    var emptyEntry := Inactive();
    ghost var table := Vol(disk).table;
    for index := 0 to MAX_FILES
      invariant Mounted(disk) && Vol(disk).table == table
      invariant forall i | 0 <= i < index && table[i].active != 0 :: NameOf(table[i]) != name && ValidUtf8(NameOf(table[i]))
      invariant -1 <= empty < index
      invariant empty >= 0 ==> table[empty].active == 0 && emptyEntry == table[empty]
                               && forall i | 0 <= i < empty :: table[i].active != 0
      invariant empty < 0 ==> forall i | 0 <= i < index :: table[i].active != 0
    {
      var e :- ReadFileEntry(disk, index);
      if e.active != 0 {
        var n :- EntryName(e);
        if n == name {
          return Ok(Place(index, e, true));
        }
      } else if empty < 0 {
        empty, emptyEntry := index, e;
      }
    }
    if empty < 0 {
      return Err(DiskFull);
    }
    return Ok(Place(empty, emptyEntry, false));
  }

  /** The slot whose own blocks count as free. */
  function Own(p: Place): int { if p.found then p.slot else -1 }

  /** Where a save of `count` blocks puts its data: the old start if they fit, else the lowest free run. */
  ghost predicate Chosen(table: seq<DiskFileEntry>, p: Place, count: nat, start: nat) {
    if count == 0 then start == 0
    else if p.found && p.existing.blockCount >= count then start == p.existing.startBlock
    else
      FreeRun(table, start, count, Own(p)) && forall c | 0 <= c < start :: !FreeRun(table, c, count, Own(p))
  }

  /** The blocks do not fit where the file is, and no free run is long enough. */
  ghost predicate NoRun(v: Volume, p: Place, count: nat) {
    && !(p.found && p.existing.blockCount >= count)
    && forall c | 0 <= c <= v.super.totalBlocks - count :: !FreeRun(v.table, c, count, Own(p))
  }

  /** What a full disk is: no slot for the name, or no run for the data. */
  ghost predicate NoRoom(v: Volume, f: F.FileEntry) {
    || (forall i | 0 <= i < |v.table| :: v.table[i].active != 0 && NameOf(v.table[i]) != f.name)
    || exists p :: Located(v.table, f.name, p) && NoRun(v, p, BlockCountForLen(|f.data|))
  }

  lemma RoomFound(v: Volume, f: F.FileEntry, p: Place, start: nat)
    requires Located(v.table, f.name, p) && Chosen(v.table, p, BlockCountForLen(|f.data|), start)
    requires start + BlockCountForLen(|f.data|) <= v.super.totalBlocks
    ensures !NoRoom(v, f)
  {
    var count := BlockCountForLen(|f.data|);
    forall q | Located(v.table, f.name, q)
      ensures !NoRun(v, q, count)
    {
      LocatedOnce(v.table, f.name, p, q);
      if count == 0 {
        assert FreeRun(v.table, 0, 0, Own(q));
      }
    }
  }

  /** An empty volume has room for a file exactly when its blocks are enough. */
  lemma EmptyHasRoom(v: Volume, f: F.FileEntry)
    requires |v.table| == MAX_FILES && forall i | 0 <= i < MAX_FILES :: v.table[i].active == 0
    ensures NoRoom(v, f) <==> (|f.data| + 4095) / 4096 > v.super.totalBlocks
  {
    var count := BlockCountForLen(|f.data|);
    var p := Place(0, v.table[0], false);
    assert Located(v.table, f.name, p);
    assert forall c: nat :: FreeRun(v.table, c, count, Own(p));
    assert v.table[0].active == 0;
    if count > v.super.totalBlocks {
      assert NoRun(v, p, count);
    } else {
      forall q | Located(v.table, f.name, q)
        ensures !NoRun(v, q, count)
      {
        LocatedOnce(v.table, f.name, p, q);
        assert FreeRun(v.table, 0, count, Own(q));
      }
    }
  }

  lemma LocatedOnce(table: seq<DiskFileEntry>, name: str, p: Place, q: Place)
    requires Located(table, name, p) && Located(table, name, q)
    ensures p == q
  {
    hide NameOf;
    assert p.found ==> table[p.slot].active != 0;
    assert q.found ==> table[q.slot].active != 0;
    assert p.slot < q.slot || q.slot < p.slot || p.slot == q.slot;
  }

  method ChooseStart(disk: Disk, p: Place, ghost name: str, blocksNeeded: u32) returns (r: Result<u32, DiskError>)
    requires Mounted(disk) && Sound(Vol(disk)) && Located(Vol(disk).table, name, p)
    modifies disk.cache
    ensures Mounted(disk)
    ensures r.Ok? && blocksNeeded > 0 ==>
              && r.value + blocksNeeded <= Vol(disk).super.totalBlocks
              && FreeRun(Vol(disk).table, r.value, blocksNeeded, p.slot)
    ensures r.Ok? ==> Chosen(Vol(disk).table, p, blocksNeeded, r.value)
    ensures r.Err? ==> r.error == DeviceError || (r.error == DiskFull && NoRun(Vol(disk), p, blocksNeeded))
    ensures r == Err(DeviceError) ==> !disk.device.reliable
  {
    hide View, SectorCache.Disk.Valid;
    if blocksNeeded == 0 {
      return Ok(0);
    }
    if p.found && p.existing.blockCount >= blocksNeeded {
      OwnExtentFree(Vol(disk).table, p.slot, blocksNeeded);
      return Ok(p.existing.startBlock);
    }
    r := AllocateBlocks(disk, blocksNeeded, Own(p));
  }

  lemma OwnExtentFree(table: seq<DiskFileEntry>, slot: nat, count: nat)
    requires Disjoint(table) && slot < |table| && HasBlocks(table[slot]) && count <= table[slot].blockCount
    ensures FreeRun(table, table[slot].startBlock, count, slot)
  {
    forall i | 0 <= i < |table| && i != slot && HasBlocks(table[i])
      ensures table[i].startBlock + table[i].blockCount <= table[slot].startBlock
           || table[slot].startBlock + count <= table[i].startBlock
    {
      assert i < slot ==> !Overlap(table[i], table[slot]);
      assert slot < i ==> !Overlap(table[slot], table[i]);
    }
  }

  /** The data of a file arriving in a run free for its slot. */
  method PutData(disk: Disk, slot: nat, f: F.FileEntry, start: u32) returns (r: Result<(), DiskError>)
    requires Mounted(disk) && Sound(Vol(disk)) && Vol(disk).super.state == DIRTY
    requires slot < MAX_FILES && |f.data| <= F.MAX_FILE_SIZE
    requires start + BlockCountForLen(|f.data|) <= Vol(disk).super.totalBlocks
    requires FreeRun(Vol(disk).table, start, BlockCountForLen(|f.data|), slot)
    modifies disk.cache, disk.device
    ensures Mounted(disk) && Sound(Vol(disk))
    ensures Vol(disk).super == old(Vol(disk)).super && Vol(disk).table == old(Vol(disk)).table
    ensures r.Ok? ==> Vol(disk) == DataPut(old(Vol(disk)), start, f.data, SECTORS_PER_BLOCK * BlockCountForLen(|f.data|))
    ensures r.Err? ==> r.error == DeviceError
    ensures old(disk.device.history) <= disk.device.history
    ensures SafeSince(disk.device.history, |old(disk.device.history)|)
    ensures OnlySlot(old(Vol(disk)), Vol(disk), slot)
            && SlotsSince(disk.device.history, |old(disk.device.history)|, old(Vol(disk)), slot)
    ensures Named(old(Vol(disk))) && SlotFor(old(Vol(disk)).table, slot, KeptName(f.name)) ==>
              && SameOthers(old(Vol(disk)), Vol(disk), KeptName(f.name))
              && OthersSince(disk.device.history, |old(disk.device.history)|, old(Vol(disk)), KeptName(f.name))
    ensures Named(old(Vol(disk))) && Calm(old(Vol(disk)), f, old(Vol(disk)).table[slot], start) ==>
              && Contents(Vol(disk)) == Contents(old(Vol(disk)))
              && SameSince(disk.device.history, |old(disk.device.history)|, old(Vol(disk)))
    ensures r == Err(DeviceError) ==> !disk.device.reliable
  {
    hide Calm, Contents, SameSince, OthersSince, SafeSince, SlotsSince, OnlySlot, SlotFor, Named, View, FileBytes;
    ghost var v, history := Vol(disk), disk.device.history;
    var w, done := WriteFileData(disk, start, f.data);
    DataStepsSafe(history, disk.device.history, v, slot, start, f.data, done);
    if Named(v) && SlotFor(v.table, slot, KeptName(f.name)) {
      DataStepsKeep(history, disk.device.history, v, slot, KeptName(f.name), start, f.data, done);
    }
    if Named(v) && Calm(v, f, v.table[slot], start) {
      DataStepsCalm(history, disk.device.history, v, slot, f, start, done);
    }
    return if w.Ok? then Ok(()) else Err(w.error);
  }

  lemma DataStepsSafe(history: seq<Image>, history': seq<Image>, v: Volume, slot: nat,
                      start: u32, data: seq<byte>, done: nat)
    requires Sound(v) && v.super.state == DIRTY && slot < MAX_FILES
    requires start + BlockCountForLen(|data|) <= v.super.totalBlocks
    requires FreeRun(v.table, start, BlockCountForLen(|data|), slot)
    requires done <= SECTORS_PER_BLOCK * BlockCountForLen(|data|)
    requires DataSteps(history, history', v, start, data, done)
    ensures Sound(DataPut(v, start, data, done)) && OnlySlot(v, DataPut(v, start, data, done), slot)
    ensures SafeSince(history', |history|) && SlotsSince(history', |history|, v, slot)
  {
    hide RecordOf, Contents;
    UpsertData(v, slot, [], start, data, done);
    forall k | |history| <= k < |history'|
      ensures SafeImage(history'[k]) && SlotImage(history'[k], v, slot)
    {
      UpsertData(v, slot, [], start, data, k - |history| + 1);
    }
  }

  lemma DataStepsKeep(history: seq<Image>, history': seq<Image>, v: Volume, slot: nat, name: str,
                      start: u32, data: seq<byte>, done: nat)
    requires Sound(v) && slot < MAX_FILES && Named(v) && SlotFor(v.table, slot, name)
    requires start + BlockCountForLen(|data|) <= v.super.totalBlocks
    requires FreeRun(v.table, start, BlockCountForLen(|data|), slot)
    requires done <= SECTORS_PER_BLOCK * BlockCountForLen(|data|)
    requires DataSteps(history, history', v, start, data, done)
    ensures Sound(DataPut(v, start, data, done)) && SameOthers(v, DataPut(v, start, data, done), name)
    ensures OthersSince(history', |history|, v, name)
  {
    UpsertData(v, slot, name, start, data, done);
    forall k | |history| <= k < |history'|
      ensures KeepsOthers(history'[k], v, name)
    {
      DataImageKeeps(history'[k], v, slot, name, start, data, k - |history| + 1);
    }
  }

  lemma DataStepsCalm(history: seq<Image>, history': seq<Image>, v: Volume, slot: nat, f: F.FileEntry,
                      start: u32, done: nat)
    requires Sound(v) && slot < MAX_FILES && Named(v)
    requires start + BlockCountForLen(|f.data|) <= v.super.totalBlocks
    requires FreeRun(v.table, start, BlockCountForLen(|f.data|), slot)
    requires done <= SECTORS_PER_BLOCK * BlockCountForLen(|f.data|)
    requires DataSteps(history, history', v, start, f.data, done) && Calm(v, f, v.table[slot], start)
    ensures var v' := DataPut(v, start, f.data, done); Sound(v') && Contents(v') == Contents(v)
    ensures SameSince(history', |history|, v)
  {
    hide Contents, Calm, FileBytes, FreeRun;
    CalmContents(v, slot, f, start, done);
    forall k | |history| <= k < |history'|
      ensures SameImage(history'[k], v)
    {
      CalmContents(v, slot, f, start, k - |history| + 1);
    }
  }

  lemma DataImageKeeps(image: Image, v: Volume, slot: nat, name: str, start: u32, data: seq<byte>, n: nat)
    requires Sound(v) && slot < MAX_FILES && Named(v) && SlotFor(v.table, slot, name)
    requires start + BlockCountForLen(|data|) <= v.super.totalBlocks
    requires FreeRun(v.table, start, BlockCountForLen(|data|), slot)
    requires n <= SECTORS_PER_BLOCK * BlockCountForLen(|data|)
    requires |image| >= DATA_START && View(image) == DataPut(v, start, data, n)
    ensures KeepsOthers(image, v, name)
  {
    UpsertData(v, slot, name, start, data, n);
  }

  lemma DataPutNothing(v: Volume, data: seq<byte>)
    requires BlockCountForLen(|data|) == 0
    ensures DataPut(v, 0, data, 0) == v
  {
    assert Patch(v.data, 0, Cut(Padded(data), 0), 0) == v.data;
  }

  /** Create or replace one file on a volume already marked dirty. */
  method UpsertFileEntry(disk: Disk, f: F.FileEntry) returns (r: Result<(), DiskError>)
    requires Mounted(disk) && Sound(Vol(disk)) && Vol(disk).super.state == DIRTY
    requires F.GoodFile(f)
    modifies disk.cache, disk.device
    ensures Mounted(disk) && Sound(Vol(disk)) && Vol(disk).super == old(Vol(disk)).super
    ensures old(disk.device.history) <= disk.device.history
    ensures SafeSince(disk.device.history, |old(disk.device.history)|)
    ensures GoodNames(old(Vol(disk)).table) ==> GoodNames(Vol(disk).table)
    ensures forall p | Located(old(Vol(disk)).table, f.name, p) ::
              && OnlySlot(old(Vol(disk)), Vol(disk), p.slot)
              && SlotsSince(disk.device.history, |old(disk.device.history)|, old(Vol(disk)), p.slot)
              && (r.Ok? ==> IsEntryFor(Vol(disk), p.slot, f))
              && (r.Ok? && !p.found ==> TextNames(old(Vol(disk)).table))
    ensures r.Ok? ==> exists p :: Located(old(Vol(disk)).table, f.name, p)
    ensures r.Err? ==> Vol(disk).table == old(Vol(disk)).table
    ensures Named(old(Vol(disk))) && Fresh(old(Vol(disk)).table, f.name) ==>
              var was, kept, new' := old(Vol(disk)), KeptName(f.name), Some(RecordFor(f));
              var calm := Spared(was, f);
              && Reached(was, Vol(disk), kept, new', calm)
              && ReachedSince(disk.device.history, |old(disk.device.history)|, was, kept, new', calm)
              && (r.Ok? ==> Contents(Vol(disk)) == Contents(was)[kept := RecordFor(f)])
    ensures r.Ok? && GoodNames(old(Vol(disk)).table) ==> NameKeptExactly(old(Vol(disk)), Vol(disk), f.name)
    ensures r.Err? ==> r.error == DeviceError || (r.error == DiskFull && NoRoom(old(Vol(disk)), f))
                       || (r.error == CorruptedData && !TextNames(old(Vol(disk)).table))
    ensures r.Ok? ==> !NoRoom(old(Vol(disk)), f)
    ensures r == Err(DeviceError) ==> !disk.device.reliable
    ensures disk.device.reliable && GoodNames(old(Vol(disk)).table) ==> (r.Ok? <==> !NoRoom(old(Vol(disk)), f))
  {
    hide View, Contents, SectorCache.Disk.Valid, Calm, Reached, ReachedSince, SafeSince, NameKeptExactly, Chosen, UniqueNames, Spared;
    hide Located, OnlySlot, SlotsSince, NoRoom, NoRun, Fresh, GoodNames, TextNames, KeptName, FreeRun, IsEntryFor;
    ghost var v, h, kept := Vol(disk), disk.device.history, KeptName(f.name);
    NothingYet(h, v, kept, Some(RecordFor(f)), Spared(v, f));
    SlotsNothingYet(h, v);
    LocatedInside(v.table, f.name);
    GoodIsText(v.table);
    var found := Locate(disk, f.name);
    if found.Err? {
      NoSlotNoRoom(v, f);
      return Err(found.error);
    }
    var p := found.value;
    LocatedFacts(v.table, f.name, p);
    var blocksNeeded: u32 := BlockCountForLen(|f.data|);
    var chosen := ChooseStart(disk, p, f.name, blocksNeeded);
    if chosen.Err? {
      NoRunNoRoom(v, f, p);
      return Err(chosen.error);
    }
    var start := chosen.value;
    if Named(v) && Fresh(v.table, f.name) {
      FreshSlot(v.table, f.name, p);
    }
    if Spared(v, f) {
      SparedIsCalm(v, f, p, start);
    }
    ChosenFits(v.table, p, blocksNeeded, start);
    RoomFound(v, f, p, start);
    r := PutFile(disk, p.slot, f, start);
    OnlyThere(v.table, f.name, p);
    if Named(v) && Fresh(v.table, f.name) {
      ReachedLess(disk.device.history, |h|, v, Vol(disk), kept, Some(RecordFor(f)),
                  Calm(v, f, v.table[p.slot], start), Spared(v, f));
    }
    if r.Ok? && GoodNames(v.table) {
      NameKept(v, Vol(disk), f, p, start);
    }
  }

  /** The slot holds this file, under the kept form of its name. */
  ghost predicate IsEntryFor(v: Volume, slot: nat, f: F.FileEntry)
    requires Sound(v) && slot < MAX_FILES
  {
    && v.table[slot].active != 0 && NameOf(v.table[slot]) == KeptName(f.name)
    && RecordOf(v, v.table[slot]) == RecordFor(f)
  }

  lemma EntryIsFor(v: Volume, slot: nat, f: F.FileEntry, start: u32)
    requires Sound(v) && F.GoodFile(f) && slot < MAX_FILES && v.table[slot] == EntryFor(f, start)
    requires RecordOf(v, v.table[slot]) == RecordFor(f)
    ensures IsEntryFor(v, slot, f)
  {
    hide NameOf, NameField96, Canonical;
    CanonicalText(f.name);
    StoredName(v.table[slot], f.name);
  }

  /** The kept form of the name is free to use: short names always, longer ones if no slot answers to it. */
  ghost predicate Fresh(table: seq<DiskFileEntry>, name: str) {
    |name| <= 95 || KeptName(name) !in Names(table)
  }

  lemma FreshSlot(table: seq<DiskFileEntry>, name: str, p: Place)
    requires Located(table, name, p) && UniqueNames(table) && GoodNames(table) && Fresh(table, name)
    ensures p.slot < |table| && SlotFor(table, p.slot, KeptName(name))
  {
    if |name| <= 95 {
      LocatedSlot(table, name, p);
    } else {
      LongNameMissing(table, name);
      NamesExact(table, KeptName(name));
      assert forall i :: !HasName(table, i, KeptName(name));
    }
  }

  lemma SlotsNothingYet(history: seq<Image>, v: Volume)
    requires Sound(v)
    ensures forall t: nat | t < MAX_FILES :: OnlySlot(v, v, t) && SlotsSince(history, |history|, v, t)
  {
    hide RecordOf;
  }

  lemma LocatedInside(table: seq<DiskFileEntry>, name: str)
    ensures forall p | Located(table, name, p) :: p.slot < |table|
  {
  }

  lemma OnlyThere(table: seq<DiskFileEntry>, name: str, p: Place)
    requires Located(table, name, p)
    ensures forall q | Located(table, name, q) :: q == p
  {
    hide Located;
    forall q | Located(table, name, q)
      ensures q == p
    {
      LocatedOnce(table, name, p, q);
    }
  }

  lemma NoSlotNoRoom(v: Volume, f: F.FileEntry)
    requires |v.table| == MAX_FILES
    ensures (forall i | 0 <= i < MAX_FILES :: v.table[i].active != 0 && NameOf(v.table[i]) != f.name) ==> NoRoom(v, f)
  {
  }

  lemma NoRunNoRoom(v: Volume, f: F.FileEntry, p: Place)
    requires Located(v.table, f.name, p)
    ensures NoRun(v, p, BlockCountForLen(|f.data|)) ==> NoRoom(v, f)
  {
  }

  lemma ChosenFits(table: seq<DiskFileEntry>, p: Place, count: nat, start: nat)
    requires Chosen(table, p, count, start)
    ensures count == 0 ==> start == 0
  {
  }

  /**
   The new data keeps clear of the bytes of the file it replaces, or the file is already
   what is being saved. With `TornExactly`, what a save needs to be atomic.
   */
  ghost predicate Spared(v: Volume, f: F.FileEntry)
    requires Sound(v)
  {
    forall p, s | Located(v.table, f.name, p) && p.found && Chosen(v.table, p, BlockCountForLen(|f.data|), s) ::
      Apart(p.existing, s, BlockCountForLen(|f.data|)) || RecordOf(v, p.existing) == RecordFor(f)
  }

  lemma SparedIsCalm(v: Volume, f: F.FileEntry, p: Place, start: nat)
    requires Sound(v) && Spared(v, f) && Located(v.table, f.name, p)
    requires Chosen(v.table, p, BlockCountForLen(|f.data|), start)
    ensures p.existing in v.table && Calm(v, f, p.existing, start)
  {
    hide Located, Chosen, FileBytes;
    var e := p.existing;
    LocatedFacts(v.table, f.name, p);
    if p.found && !Apart(e, start, BlockCountForLen(|f.data|)) {
      SameLength(v, e, f);
      InPlaceStart(v.table, f.name, p, BlockCountForLen(|f.data|), start);
    }
  }

  /** A file already on the volume as it is being saved is rewritten in place, byte for byte. */
  lemma SameSpared(v: Volume, f: F.FileEntry)
    requires Sound(v) && Named(v) && LookUp(Contents(v), f.name) == Some(RecordFor(f))
    ensures Spared(v, f)
  {
    hide Contents, RecordFor, RecordOf, Chosen;
    forall p | Located(v.table, f.name, p) && p.found
      ensures RecordOf(v, p.existing) == RecordFor(f)
    {
      ContentsAt(v, p.slot);
    }
  }

  /** A name that does not fit is never found, so its data displaces nothing. */
  lemma LongSpared(v: Volume, f: F.FileEntry)
    requires Sound(v) && GoodNames(v.table) && |f.name| > 95
    ensures Spared(v, f)
  {
    LongNameMissing(v.table, f.name);
  }

  lemma LocatedFacts(table: seq<DiskFileEntry>, name: str, p: Place)
    requires Located(table, name, p)
    ensures p.slot < |table| && p.existing == table[p.slot] && p.existing in table
    ensures p.found <==> p.existing.active != 0
  {
  }

  lemma SameLength(v: Volume, e: DiskFileEntry, f: F.FileEntry)
    requires Sound(v) && e in v.table && e.active != 0 && RecordOf(v, e) == RecordFor(f)
    ensures BlockCountForLen(|f.data|) <= e.blockCount
  {
    if e.blockCount > 0 {
      FileLength(v, e);
    }
  }

  lemma InPlaceStart(table: seq<DiskFileEntry>, name: str, p: Place, count: nat, start: nat)
    requires Located(table, name, p) && p.found && Chosen(table, p, count, start)
    requires 0 < count <= p.existing.blockCount
    ensures start == p.existing.startBlock
  {
  }

  // ---------- names ----------

  /**
   A name is on the volume after it was saved if and only if it fits; one that does not takes
   a new slot, and names stay distinct if and only if the kept form of the name was free.
   */
  ghost predicate NameKeptExactly(v: Volume, v': Volume, name: str)
    requires Sound(v) && Sound(v')
  {
    && (name in Contents(v') <==> |name| <= 95)
    && (|name| > 95 ==> CountActive(v'.table) == CountActive(v.table) + 1)
    && (UniqueNames(v.table) ==> (UniqueNames(v'.table) <==> Fresh(v.table, name)))
    && (!UniqueNames(v.table) ==> !UniqueNames(v'.table))
    && Names(v'.table) == Names(v.table) + {KeptName(name)}
  }

  lemma NameKept(v: Volume, v': Volume, f: F.FileEntry, p: Place, start: u32)
    requires Sound(v) && Sound(v') && GoodNames(v.table) && GoodNames(v'.table) && F.GoodFile(f)
    requires Located(v.table, f.name, p) && v'.table == v.table[p.slot := EntryFor(f, start)]
    ensures NameKeptExactly(v, v', f.name)
  {
    hide CountActive, RecordOf, Canonical, NameOf, Names, UniqueNames, Located, GoodNames, Fresh;
    var e := EntryFor(f, start);
    CanonicalText(f.name);
    StoredName(e, f.name);
    LocatedFacts(v.table, f.name, p);
    assert v'.table[p.slot] == e;
    NamesExact(v'.table, f.name);
    UniqueExactly(v.table, f.name, p, e);
    NamesAdded(v.table, f.name, p, e);
    if |f.name| <= 95 {
      assert HasName(v'.table, p.slot, f.name);
    } else {
      LongNameMissing(v.table, f.name);
      LongNameMissing(v'.table, f.name);
      ActiveAdded(v.table, p.slot, e);
    }
  }

  lemma NamesAdded(table: seq<DiskFileEntry>, name: str, p: Place, e: DiskFileEntry)
    requires Located(table, name, p) && e.active != 0 && NameOf(e) == KeptName(name)
    requires p.found ==> |name| <= 95
    ensures Names(table[p.slot := e]) == Names(table) + {KeptName(name)}
  {
    hide NameOf;
    var table' := table[p.slot := e];
    forall n
      ensures n in Names(table') <==> n in Names(table) || n == KeptName(name)
    {
      NamesExact(table, n);
      NamesExact(table', n);
      if n in Names(table) {
        var i :| HasName(table, i, n);
        assert HasName(table', i, n) || (i == p.slot && n == name);
      }
      if n in Names(table') {
        var i :| HasName(table', i, n);
        assert i != p.slot ==> HasName(table, i, n);
      }
      assert HasName(table', p.slot, KeptName(name));
    }
  }

  lemma UniqueExactly(table: seq<DiskFileEntry>, name: str, p: Place, e: DiskFileEntry)
    requires Located(table, name, p) && GoodNames(table) && e.active != 0 && NameOf(e) == KeptName(name)
    ensures UniqueNames(table) ==> (UniqueNames(table[p.slot := e]) <==> Fresh(table, name))
    ensures !UniqueNames(table) ==> !UniqueNames(table[p.slot := e])
    ensures p.found ==> |name| <= 95
  {
    hide NameOf;
    var table', kept := table[p.slot := e], KeptName(name);
    if p.found {
      assert |NameOf(table[p.slot])| <= 95;
      SameNamesUnique(table, table');
    } else if |name| <= 95 || kept !in Names(table) {
      assert forall i | 0 <= i < |table| && table[i].active != 0 :: NameOf(table[i]) != kept by {
        NamesExact(table, kept);
        assert |name| > 95 ==> forall i :: !HasName(table, i, kept);
      }
      if UniqueNames(table') {
        SlotGoneUnique(table, table', p.slot);
      }
    } else {
      NamesExact(table, kept);
      var i :| HasName(table, i, kept);
      TwoOfOneName(table', i, p.slot);
    }
  }

  lemma SameNamesUnique(table: seq<DiskFileEntry>, table': seq<DiskFileEntry>)
    requires |table| == |table'|
    requires forall i | 0 <= i < |table| :: (table[i].active != 0 <==> table'[i].active != 0) && NameOf(table[i]) == NameOf(table'[i])
    ensures UniqueNames(table) <==> UniqueNames(table')
  {
    hide NameOf;
  }

  lemma SlotGoneUnique(table: seq<DiskFileEntry>, table': seq<DiskFileEntry>, t: nat)
    requires |table| == |table'| && t < |table| && table[t].active == 0 && UniqueNames(table')
    requires forall i | 0 <= i < |table| && i != t :: table'[i] == table[i]
    ensures UniqueNames(table)
  {
    hide NameOf;
    forall i, j | 0 <= i < j < |table| && table[i].active != 0 && table[j].active != 0
      ensures NameOf(table[i]) != NameOf(table[j])
    {
      assert table'[i] == table[i] && table'[j] == table[j];
    }
  }

  lemma TwoOfOneName(table: seq<DiskFileEntry>, i: int, j: int)
    requires 0 <= i < |table| && 0 <= j < |table| && i != j
    requires table[i].active != 0 && table[j].active != 0 && NameOf(table[i]) == NameOf(table[j])
    ensures !UniqueNames(table)
  {
    hide NameOf;
    var a, b := if i < j then i else j, if i < j then j else i;
    assert a < b && NameOf(table[a]) == NameOf(table[b]);
  }

  /** No slot ever answers to a name longer than 95 bytes, so a save of one never finds its own. */
  lemma LongNameMissing(table: seq<DiskFileEntry>, name: str)
    requires GoodNames(table) && |name| > 95
    ensures forall i :: !HasName(table, i, name)
    ensures forall p | Located(table, name, p) :: !p.found
  {
  }

  /** So each save of a long name takes one more slot, and none succeeds once the table is full. */
  lemma LongNameNeedsSlot(v: Volume, v': Volume, name: str)
    requires Sound(v) && Sound(v') && NameKeptExactly(v, v', name) && |name| > 95
    ensures CountActive(v.table) < MAX_FILES
  {
    hide Contents;
  }

  function Repeated(b: byte, n: nat): (s: str)
    ensures |s| == n && forall i | 0 <= i < n :: s[i] == b
  {
    if n == 0 then [] else [b] + Repeated(b, n - 1)
  }

  /** Three directories of 31 letters: a path of 96 bytes. */
  function LongPath(): str {
    var c := Repeated(97, 31);
    [SLASH] + c + ([SLASH] + c + ([SLASH] + c))
  }

  /** The filesystem takes a file of that path, and its slot does not answer to it. */
  lemma LongPathLost(f: F.FileEntry, start: u32)
    requires f.name == LongPath() && |f.data| <= F.MAX_FILE_SIZE
    ensures F.GoodFile(f) && |f.name| == 96 && NameOf(EntryFor(f, start)) == f.name[..95]
  {
    hide NameOf, NameField96, Canonical, LongPath;
    LongPathCanonical();
    CanonicalText(f.name);
    StoredName(EntryFor(f, start), f.name);
  }

  lemma LongPathCanonical()
    ensures Canonical(LongPath()) && |LongPath()| == 96 && LongPath() != ROOT
  {
    var c := Repeated(97, 31);
    var parts := [c, c, c];
    assert parts[1..] == [c, c] && parts[2..] == [c];
    JoinHead(parts);
    JoinHead([c, c]);
    JoinHead([c]);
    JoinHead([]);
    assert PathOf(parts) == LongPath();
    assert GoodComponent(c);
    assert IsPathOf(LongPath(), parts);
  }

  lemma {:induction false} ActiveAdded(table: seq<DiskFileEntry>, i: nat, e: DiskFileEntry)
    requires i < |table| && table[i].active == 0 && e.active != 0
    ensures CountActive(table[i := e]) == CountActive(table) + 1
    decreases |table|
  {
    var n := |table| - 1;
    var table', front := table[i := e], table[..|table| - 1];
    assert CountActive(table') == CountActive(table'[..n]) + if table'[n].active != 0 then 1 else 0;
    if i < n {
      ActiveAdded(front, i, e);
      assert table'[..n] == front[i := e];
    } else {
      assert table'[..n] == front;
    }
  }

  /** Data first, then the table record that makes it visible. */
  method PutFile(disk: Disk, slot: nat, f: F.FileEntry, start: u32) returns (r: Result<(), DiskError>)
    requires Mounted(disk) && Sound(Vol(disk)) && Vol(disk).super.state == DIRTY
    requires F.GoodFile(f) && slot < MAX_FILES
    requires var count := BlockCountForLen(|f.data|);
             if count == 0 then start == 0
             else start + count <= Vol(disk).super.totalBlocks && FreeRun(Vol(disk).table, start, count, slot)
    modifies disk.cache, disk.device
    ensures Mounted(disk) && Sound(Vol(disk)) && Vol(disk).super == old(Vol(disk)).super
    ensures old(disk.device.history) <= disk.device.history
    ensures SafeSince(disk.device.history, |old(disk.device.history)|)
    ensures OnlySlot(old(Vol(disk)), Vol(disk), slot)
            && SlotsSince(disk.device.history, |old(disk.device.history)|, old(Vol(disk)), slot)
    ensures GoodNames(old(Vol(disk)).table) ==> GoodNames(Vol(disk).table)
    ensures Named(old(Vol(disk))) && SlotFor(old(Vol(disk)).table, slot, KeptName(f.name)) ==>
              var was, kept, new' := old(Vol(disk)), KeptName(f.name), Some(RecordFor(f));
              var calm := Calm(was, f, was.table[slot], start);
              && Reached(was, Vol(disk), kept, new', calm)
              && ReachedSince(disk.device.history, |old(disk.device.history)|, was, kept, new', calm)
              && (r.Ok? ==> Contents(Vol(disk)) == Contents(was)[kept := RecordFor(f)])
    ensures r.Ok? ==> Vol(disk).table == old(Vol(disk)).table[slot := EntryFor(f, start)] && IsEntryFor(Vol(disk), slot, f)
    ensures r.Err? ==> r.error == DeviceError && Vol(disk).table == old(Vol(disk)).table
    ensures r == Err(DeviceError) ==> !disk.device.reliable
  {
    hide View, Contents, SectorCache.Disk.Valid, Calm, SameSince, OthersSince, ReachedSince, Reached, SafeSince, Named, SlotFor, KeepsOthers, FreeRun, GoodNames, UniqueNames, OnlySlot, SlotsSince, KeptName, IsEntryFor;
    ghost var v, n, kept := Vol(disk), |disk.device.history|, KeptName(f.name);
    ghost var fit := Named(v) && SlotFor(v.table, slot, kept);
    ghost var calm := Calm(v, f, v.table[slot], start);
    r := PutIfAny(disk, slot, f, start);
    ghost var v1, middle := Vol(disk), disk.device.history;
    if fit {
      DataReached(middle, n, v, v1, kept, Some(RecordFor(f)), calm);
    }
    if r.Err? {
      return;
    }
    r := PutEntry(disk, slot, f, start);
    SafeJoin(middle, disk.device.history, n);
    SlotsJoin(middle, disk.device.history, n, v, v1, slot);
    SlotsSame(v, v1, Vol(disk), slot);
    if r.Ok? {
      StoredRecord(v, slot, f, start);
      EntryIsFor(Vol(disk), slot, f, start);
    }
    if fit && r.Ok? {
      UpsertComplete(v, slot, f, start);
      EntryReached(middle, n, v, v1, Vol(disk), disk.device.sectors, kept, RecordFor(f), calm);
    }
  }

  /** While the data arrives. */
  lemma DataReached(history: seq<Image>, n: nat, v: Volume, v1: Volume, name: str, r: Option<Record>, calm: bool)
    requires Sound(v) && Sound(v1) && Named(v) && SameOthers(v, v1, name) && OthersSince(history, n, v, name)
    requires calm ==> Contents(v1) == Contents(v) && SameSince(history, n, v)
    ensures Reached(v, v1, name, r, calm) && ReachedSince(history, n, v, name, r, calm)
  {
    hide Contents, SameSince, OthersSince, EitherSince;
    if calm {
      SameIsEither(history, n, v, v, name, r);
    }
  }

  /** Once the record is written. */
  lemma EntryReached(
    middle: seq<Image>, n: nat, v: Volume, v1: Volume, v2: Volume, image: Image, name: str, r: Record, calm: bool)
    requires Sound(v) && Sound(v1) && Sound(v2) && |image| >= DATA_START && v2 == View(image)
    requires Named(v2) && Contents(v2) == Contents(v)[name := r]
    requires Reached(v, v1, name, Some(r), calm) && KeepsOthers(image, v1, name)
    requires ReachedSince(middle, n, v, name, Some(r), calm)
    ensures Reached(v, v2, name, Some(r), calm) && ReachedSince(middle + [image], n, v, name, Some(r), calm)
  {
    hide Contents, View, Named, OthersSince, EitherSince;
    OthersNext(middle, n, v, v1, name, image);
    if calm {
      EitherNext(middle, n, v, name, Some(r), image);
    }
  }

  /** The data, when there is any. */
  method PutIfAny(disk: Disk, slot: nat, f: F.FileEntry, start: u32) returns (r: Result<(), DiskError>)
    requires Mounted(disk) && Sound(Vol(disk)) && Vol(disk).super.state == DIRTY
    requires slot < MAX_FILES && |f.data| <= F.MAX_FILE_SIZE
    requires var count := BlockCountForLen(|f.data|);
             if count == 0 then start == 0
             else start + count <= Vol(disk).super.totalBlocks && FreeRun(Vol(disk).table, start, count, slot)
    modifies disk.cache, disk.device
    ensures Mounted(disk) && Sound(Vol(disk))
    ensures Vol(disk).super == old(Vol(disk)).super && Vol(disk).table == old(Vol(disk)).table
    ensures r.Ok? ==> Vol(disk) == DataPut(old(Vol(disk)), start, f.data, SECTORS_PER_BLOCK * BlockCountForLen(|f.data|))
    ensures r.Err? ==> r.error == DeviceError
    ensures old(disk.device.history) <= disk.device.history
    ensures SafeSince(disk.device.history, |old(disk.device.history)|)
    ensures OnlySlot(old(Vol(disk)), Vol(disk), slot)
            && SlotsSince(disk.device.history, |old(disk.device.history)|, old(Vol(disk)), slot)
    ensures Named(old(Vol(disk))) && SlotFor(old(Vol(disk)).table, slot, KeptName(f.name)) ==>
              && SameOthers(old(Vol(disk)), Vol(disk), KeptName(f.name))
              && OthersSince(disk.device.history, |old(disk.device.history)|, old(Vol(disk)), KeptName(f.name))
    ensures Named(old(Vol(disk))) && Calm(old(Vol(disk)), f, old(Vol(disk)).table[slot], start) ==>
              && Contents(Vol(disk)) == Contents(old(Vol(disk)))
              && SameSince(disk.device.history, |old(disk.device.history)|, old(Vol(disk)))
    ensures r == Err(DeviceError) ==> !disk.device.reliable
  {
    hide Calm, Contents, View, FileBytes, RecordOf, SectorCache.Disk.Valid;
    if BlockCountForLen(|f.data|) != 0 {
      r := PutData(disk, slot, f, start);
    } else {
      DataPutNothing(Vol(disk), f.data);
      return Ok(());
    }
  }

  method PutEntry(disk: Disk, slot: nat, f: F.FileEntry, start: u32) returns (r: Result<(), DiskError>)
    requires Mounted(disk) && Sound(Vol(disk)) && Vol(disk).super.state == DIRTY
    requires F.GoodFile(f) && slot < MAX_FILES
    requires var count := BlockCountForLen(|f.data|);
             count > 0 ==> start + count <= Vol(disk).super.totalBlocks && FreeRun(Vol(disk).table, start, count, slot)
    modifies disk.cache, disk.device
    ensures Mounted(disk) && Sound(Vol(disk)) && Vol(disk).super == old(Vol(disk)).super
    ensures r.Ok? ==> Vol(disk) == old(Vol(disk)).(table := old(Vol(disk)).table[slot := EntryFor(f, start)])
    ensures r.Ok? ==> disk.device.history == old(disk.device.history) + [disk.device.sectors]
    ensures r.Err? ==> r.error == DeviceError && disk.device.history == old(disk.device.history)
                       && disk.device.sectors == old(disk.device.sectors)
    ensures SafeSince(disk.device.history, |old(disk.device.history)|)
    ensures OnlySlot(old(Vol(disk)), Vol(disk), slot)
            && SlotsSince(disk.device.history, |old(disk.device.history)|, old(Vol(disk)), slot)
    ensures GoodNames(old(Vol(disk)).table) ==> GoodNames(Vol(disk).table)
    ensures Named(old(Vol(disk))) && SlotFor(old(Vol(disk)).table, slot, KeptName(f.name)) ==>
              KeepsOthers(disk.device.sectors, old(Vol(disk)), KeptName(f.name))
    ensures r == Err(DeviceError) ==> !disk.device.reliable
  {
    hide View, Contents, SectorCache.Disk.Valid, GoodNames, UniqueNames, FreeRun, SlotFor, RecordOf, KeptName;
    ghost var v := Vol(disk);
    UpsertEntry(v, slot, f, start);
    r := WriteFileEntry(disk, slot, EntryFor(f, start));
  }

  // ---------- save and delete ----------

  /** Superblock writes leave every slot and its bytes alone. */
  lemma SuperSlots(v: Volume, sb: Superblock)
    requires Sound(v) && Sound(v.(super := sb))
    ensures forall t: nat | t < MAX_FILES :: OnlySlot(v, v, t) && OnlySlot(v, v.(super := sb), t)
  {
  }

  method MarkDirty(disk: Disk) returns (r: Result<(), DiskError>)
    requires Mounted(disk) && Sound(Vol(disk))
    modifies disk.cache, disk.device
    ensures Mounted(disk) && Sound(Vol(disk)) && Vol(disk) == old(Vol(disk)).(super := Vol(disk).super)
    ensures Contents(Vol(disk)) == old(Contents(Vol(disk)))
    ensures r.Ok? ==> Vol(disk) == old(Vol(disk)).(super := old(Vol(disk)).super.(state := DIRTY))
    ensures r.Err? ==> r.error == DeviceError && Vol(disk) == old(Vol(disk))
    ensures old(disk.device.history) <= disk.device.history
    ensures SafeSince(disk.device.history, |old(disk.device.history)|)
    ensures forall t: nat | t < MAX_FILES ::
              && OnlySlot(old(Vol(disk)), Vol(disk), t)
              && SlotsSince(disk.device.history, |old(disk.device.history)|, old(Vol(disk)), t)
    ensures Named(old(Vol(disk))) ==> SameSince(disk.device.history, |old(disk.device.history)|, old(Vol(disk)))
    ensures r == Err(DeviceError) ==> !disk.device.reliable
  {
    hide View, Contents, RecordOf, SectorCache.Disk.Valid;
    SuperKept(Vol(disk), Vol(disk).super.(state := DIRTY));
    SuperSlots(Vol(disk), Vol(disk).super.(state := DIRTY));
    r := SetSuperblockState(disk, DIRTY);
  }

  /** The recount that ends every update: counts true, state clean, files as they were. */
  method MarkClean(disk: Disk) returns (r: Result<(), DiskError>)
    requires Mounted(disk) && Sound(Vol(disk)) && Vol(disk).super.state == DIRTY
    modifies disk.cache, disk.device
    ensures Mounted(disk) && CrashSafe(Vol(disk)) && Vol(disk) == old(Vol(disk)).(super := Vol(disk).super)
    ensures Contents(Vol(disk)) == old(Contents(Vol(disk)))
    ensures r.Ok? ==> Vol(disk).super.state == CLEAN
    ensures r.Err? ==> r.error == DeviceError && Vol(disk) == old(Vol(disk))
    ensures old(disk.device.history) <= disk.device.history
    ensures SafeSince(disk.device.history, |old(disk.device.history)|)
    ensures forall t: nat | t < MAX_FILES ::
              && OnlySlot(old(Vol(disk)), Vol(disk), t)
              && SlotsSince(disk.device.history, |old(disk.device.history)|, old(Vol(disk)), t)
    ensures Named(old(Vol(disk))) ==> SameSince(disk.device.history, |old(disk.device.history)|, old(Vol(disk)))
    ensures r == Err(DeviceError) ==> !disk.device.reliable
  {
    hide View, Contents, RecordOf, SectorCache.Disk.Valid;
    SuperKept(Vol(disk), Recounted(Vol(disk), CLEAN));
    SuperSlots(Vol(disk), Recounted(Vol(disk), CLEAN));
    var s := RefreshSuperblock(disk, CLEAN);
    return if s.Ok? then Ok(()) else Err(s.error);
  }

  /**
   `save_entry`, on any sound volume, mounted clean over false counts or not: every image it
   writes is crash-safe and keeps every slot but the one it writes. If slots have distinct
   names, then on success its files are the old ones with this file put in under the kept
   form of its name, unless that is another file's, and then names are no longer distinct.
   */
  method SaveEntry(disk: Disk, f: F.FileEntry) returns (r: Result<(), DiskError>)
    requires Mounted(disk) && Sound(Vol(disk)) && F.GoodFile(f)
    modifies disk.cache, disk.device
    ensures Mounted(disk) && Sound(Vol(disk))
    ensures CrashSafe(Vol(disk)) || (r.Err? && Vol(disk) == old(Vol(disk)))
    ensures r.Ok? ==> Vol(disk).super.state == CLEAN
    ensures old(disk.device.history) <= disk.device.history
    ensures SafeSince(disk.device.history, |old(disk.device.history)|)
    ensures GoodNames(old(Vol(disk)).table) ==> GoodNames(Vol(disk).table)
    ensures forall p | Located(old(Vol(disk)).table, f.name, p) ::
              && OnlySlot(old(Vol(disk)), Vol(disk), p.slot)
              && SlotsSince(disk.device.history, |old(disk.device.history)|, old(Vol(disk)), p.slot)
              && (r.Ok? ==> IsEntryFor(Vol(disk), p.slot, f))
              && (r.Ok? && !p.found ==> TextNames(old(Vol(disk)).table))
    ensures r.Ok? ==> exists p :: Located(old(Vol(disk)).table, f.name, p)
    ensures Named(old(Vol(disk))) && Fresh(old(Vol(disk)).table, f.name) ==>
              var was, kept, new' := old(Vol(disk)), KeptName(f.name), Some(RecordFor(f));
              var calm := Spared(was, f);
              && Reached(was, Vol(disk), kept, new', calm)
              && ReachedSince(disk.device.history, |old(disk.device.history)|, was, kept, new', calm)
              && (r.Ok? ==> Contents(Vol(disk)) == Contents(was)[kept := RecordFor(f)])
    ensures r.Ok? && GoodNames(old(Vol(disk)).table) ==> NameKeptExactly(old(Vol(disk)), Vol(disk), f.name)
    ensures r.Err? ==> r.error == DeviceError || (r.error == DiskFull && NoRoom(old(Vol(disk)), f))
                       || (r.error == CorruptedData && !TextNames(old(Vol(disk)).table))
    ensures r.Ok? ==> !NoRoom(old(Vol(disk)), f)
    ensures r == Err(DeviceError) ==> !disk.device.reliable
    ensures disk.device.reliable && GoodNames(old(Vol(disk)).table) ==> (r.Ok? <==> !NoRoom(old(Vol(disk)), f))
  {
    hide View, Contents, SectorCache.Disk.Valid, Spared, Reached, ReachedSince, SameSince, SafeSince, UniqueNames, GoodNames, NameKeptExactly;
    hide Located, OnlySlot, SlotsSince, NoRoom, Fresh, KeptName, IsEntryFor, TextNames;
    ghost var v, h, calm, kept := Vol(disk), disk.device.history, Spared(Vol(disk), f), KeptName(f.name);
    ghost var fit := Named(v) && Fresh(v.table, f.name);
    LocatedInside(v.table, f.name);
    GoodIsText(v.table);
    r := MarkDirty(disk);
    ghost var v1, h1 := Vol(disk), disk.device.history;
    if fit {
      OpenImages(v, v1, h, h1, kept, Some(RecordFor(f)), calm);
    }
    if r.Err? {
      return;
    }
    SparedSuper(v, v1, f);
    NoRoomSuper(v, v1, f);
    r := UpsertFileEntry(disk, f);
    ghost var v2, h2 := Vol(disk), disk.device.history;
    SafeJoin(h1, h2, |h|);
    SlotsJoinAll(h1, h2, |h|, v, v1, v2, f.name);
    if fit {
      MiddleImages(v, v1, h1, h2, |h|, kept, Some(RecordFor(f)), calm);
      ReachedFrom(v, v1, v2, kept, Some(RecordFor(f)), calm);
    }
    if r.Err? {
      return;
    }
    r := MarkClean(disk);
    SafeJoin(h2, disk.device.history, |h|);
    EntrySuper(v2, Vol(disk), f);
    SlotsJoinEnd(h2, disk.device.history, |h|, v, v2, Vol(disk), f.name);
    if fit {
      CloseImages(v, v2, h2, disk.device.history, |h|, kept, Some(RecordFor(f)), calm);
      ReachedSame(v, v2, Vol(disk), kept, Some(RecordFor(f)), calm);
    }
    if GoodNames(v.table) && v2.table == Vol(disk).table {
      NameKeptSuper(v, v1, v2, Vol(disk), f.name);
    }
  }

  lemma EntrySuper(v: Volume, v': Volume, f: F.FileEntry)
    requires Sound(v) && Sound(v') && v' == v.(super := v'.super)
    ensures forall t: nat | t < MAX_FILES && IsEntryFor(v, t, f) :: IsEntryFor(v', t, f)
  {
    hide NameOf;
  }

  lemma NoRoomSuper(v: Volume, v1: Volume, f: F.FileEntry)
    requires v1.table == v.table && v1.super.totalBlocks == v.super.totalBlocks
    ensures NoRoom(v, f) <==> NoRoom(v1, f)
  {
    hide Located;
    forall p
      ensures NoRun(v, p, BlockCountForLen(|f.data|)) <==> NoRun(v1, p, BlockCountForLen(|f.data|))
    {
      hide FreeRun;
    }
  }

  /** The slots kept through the dirty mark and the update after it. */
  lemma SlotsJoinAll(h1: seq<Image>, h2: seq<Image>, n: nat, v: Volume, v1: Volume, v2: Volume, name: str)
    requires Sound(v) && Sound(v1) && Sound(v2) && v1.table == v.table && h1 <= h2
    requires forall t: nat | t < MAX_FILES :: OnlySlot(v, v1, t) && SlotsSince(h1, n, v, t)
    requires forall p | Located(v1.table, name, p) :: p.slot < MAX_FILES
    requires forall p | Located(v1.table, name, p) :: OnlySlot(v1, v2, p.slot) && SlotsSince(h2, |h1|, v1, p.slot)
    ensures forall p | Located(v.table, name, p) :: OnlySlot(v, v2, p.slot) && SlotsSince(h2, n, v, p.slot)
  {
    hide Located, OnlySlot, SlotsSince, Sound;
    forall p | Located(v.table, name, p)
      ensures OnlySlot(v, v2, p.slot) && SlotsSince(h2, n, v, p.slot)
    {
      SlotsSame(v, v1, v2, p.slot);
      SlotsJoin(h1, h2, n, v, v1, p.slot);
    }
  }

  lemma SlotsJoinEnd(h2: seq<Image>, h3: seq<Image>, n: nat, v: Volume, v2: Volume, v3: Volume, name: str)
    requires Sound(v) && Sound(v2) && Sound(v3) && h2 <= h3
    requires forall p | Located(v.table, name, p) :: p.slot < MAX_FILES
    requires forall p | Located(v.table, name, p) :: OnlySlot(v, v2, p.slot) && SlotsSince(h2, n, v, p.slot)
    requires forall t: nat | t < MAX_FILES :: OnlySlot(v2, v3, t) && SlotsSince(h3, |h2|, v2, t)
    ensures forall p | Located(v.table, name, p) :: OnlySlot(v, v3, p.slot) && SlotsSince(h3, n, v, p.slot)
  {
    hide Located, OnlySlot, SlotsSince, Sound;
    forall p | Located(v.table, name, p)
      ensures OnlySlot(v, v3, p.slot) && SlotsSince(h3, n, v, p.slot)
    {
      SlotsSame(v, v2, v3, p.slot);
      SlotsJoin(h2, h3, n, v, v2, p.slot);
    }
  }

  lemma NameKeptSuper(v: Volume, v1: Volume, v2: Volume, v3: Volume, name: str)
    requires Sound(v) && Sound(v1) && Sound(v2) && Sound(v3)
    requires v1.table == v.table && v3.table == v2.table && Contents(v3) == Contents(v2)
    ensures NameKeptExactly(v1, v2, name) ==> NameKeptExactly(v, v3, name)
  {
    hide Contents, UniqueNames, Names, CountActive;
  }

  /** Whether the data spares the file does not depend on the superblock. */
  lemma SparedSuper(v: Volume, v1: Volume, f: F.FileEntry)
    requires Sound(v) && Sound(v1) && v1 == v.(super := v1.super)
    ensures Spared(v, f) <==> Spared(v1, f)
  {
    hide Located, Chosen;
  }

  lemma DeactivateSlot(v: Volume, i: nat, name: str)
    requires Sound(v) && i < MAX_FILES && v.table[i].active != 0 && NameOf(v.table[i]) == name
    ensures var v' := v.(table := v.table[i := Inactive()]);
            && Sound(v') && OnlySlot(v, v', i)
            && (GoodNames(v.table) ==> GoodNames(v'.table))
            && (Named(v) ==> SameOthers(v, v', name) && Contents(v') == Contents(v) - {name})
  {
    var v' := v.(table := v.table[i := Inactive()]);
    SlotWritten(v, i, Inactive());
    if Named(v) {
      FileRemoved(v, v', i, name);
      OtherFilesKept(v, v', i, name);
    }
  }

  /** Clear the slot that holds `name`; the slot found is the first with that name. */
  method RemoveName(disk: Disk, name: str) returns (r: Result<(), DiskError>)
    requires Mounted(disk) && Sound(Vol(disk)) && Vol(disk).super.state == DIRTY
    modifies disk.cache, disk.device
    ensures Mounted(disk) && Sound(Vol(disk)) && Vol(disk).super == old(Vol(disk)).super
    ensures old(disk.device.history) <= disk.device.history
    ensures SafeSince(disk.device.history, |old(disk.device.history)|)
    ensures GoodNames(old(Vol(disk)).table) ==> GoodNames(Vol(disk).table)
    ensures forall p | Located(old(Vol(disk)).table, name, p) ::
              && OnlySlot(old(Vol(disk)), Vol(disk), p.slot)
              && SlotsSince(disk.device.history, |old(disk.device.history)|, old(Vol(disk)), p.slot)
              && (r.Ok? ==> p.found && Vol(disk).table[p.slot].active == 0)
    ensures r.Ok? ==> exists p :: Located(old(Vol(disk)).table, name, p)
    ensures Named(old(Vol(disk))) ==>
              && Reached(old(Vol(disk)), Vol(disk), name, None, true)
              && ReachedSince(disk.device.history, |old(disk.device.history)|, old(Vol(disk)), name, None, true)
              && (r.Ok? ==> name in Contents(old(Vol(disk))) && Contents(Vol(disk)) == Contents(old(Vol(disk))) - {name})
              && (r == Err(FileNotFound) ==> name !in Contents(old(Vol(disk))))
    ensures r.Err? ==> r.error == DeviceError || r.error == FileNotFound
                       || (r.error == CorruptedData && !TextNames(old(Vol(disk)).table))
    ensures r.Err? ==> Vol(disk) == old(Vol(disk))
    ensures r == Err(DeviceError) ==> !disk.device.reliable
  {
    hide View, Contents, SectorCache.Disk.Valid, Located, OnlySlot, Disjoint, Inside, Sized;
    ghost var v, history := Vol(disk), disk.device.history;
    LocatedInside(v.table, name);
    SlotsNothingYet(history, v);
    for index := 0 to MAX_FILES
      invariant Mounted(disk) && disk.device.sectors == old(disk.device.sectors)
      invariant disk.device.history == history
      invariant forall i | 0 <= i < index && v.table[i].active != 0 :: NameOf(v.table[i]) != name
    {
      var e :- ReadFileEntry(disk, index);
      if e.active == 0 {
        continue;
      }
      var n :- EntryName(e);
      if n == name {
        DeactivateSlot(v, index, name);
        FoundFirst(v.table, name, index);
        if Named(v) {
          ContentsAt(v, index);
        }
        r := WriteFileEntry(disk, index, Inactive());
        return;
      }
    }
    NotStored(v, name);
    return Err(FileNotFound);
  }

  lemma FoundFirst(table: seq<DiskFileEntry>, name: str, index: nat)
    requires |table| == MAX_FILES && index < MAX_FILES && table[index].active != 0 && NameOf(table[index]) == name
    requires forall i | 0 <= i < index && table[i].active != 0 :: NameOf(table[i]) != name
    ensures Located(table, name, Place(index, table[index], true))
    ensures forall q | Located(table, name, q) :: q.slot == index && q.found
  {
    OnlyThere(table, name, Place(index, table[index], true));
  }

  lemma NotStored(v: Volume, name: str)
    requires Sound(v)
    requires forall i | 0 <= i < MAX_FILES && v.table[i].active != 0 :: NameOf(v.table[i]) != name
    ensures name !in Contents(v)
  {
    NamesExact(v.table, name);
  }

  /** `delete_file_from_disk`: the mirror image of a save. */
  method DeleteFileFromDisk(disk: Disk, name: str) returns (r: Result<(), DiskError>)
    requires Mounted(disk) && Sound(Vol(disk))
    modifies disk.cache, disk.device
    ensures Mounted(disk) && Sound(Vol(disk))
    ensures CrashSafe(Vol(disk)) || (r == Err(DeviceError) && Vol(disk) == old(Vol(disk)))
    ensures r.Ok? ==> Vol(disk).super.state == CLEAN
    ensures old(disk.device.history) <= disk.device.history
    ensures SafeSince(disk.device.history, |old(disk.device.history)|)
    ensures GoodNames(old(Vol(disk)).table) ==> GoodNames(Vol(disk).table)
    ensures forall p | Located(old(Vol(disk)).table, name, p) ::
              && OnlySlot(old(Vol(disk)), Vol(disk), p.slot)
              && SlotsSince(disk.device.history, |old(disk.device.history)|, old(Vol(disk)), p.slot)
              && (r.Ok? ==> p.found && Vol(disk).table[p.slot].active == 0)
    ensures r.Ok? ==> exists p :: Located(old(Vol(disk)).table, name, p)
    ensures Named(old(Vol(disk))) ==>
              && Reached(old(Vol(disk)), Vol(disk), name, None, true)
              && ReachedSince(disk.device.history, |old(disk.device.history)|, old(Vol(disk)), name, None, true)
              && (r.Ok? ==> name in Contents(old(Vol(disk))) && Contents(Vol(disk)) == Contents(old(Vol(disk))) - {name})
              && (r == Err(FileNotFound) ==>
                    name !in Contents(old(Vol(disk))) && Contents(Vol(disk)) == Contents(old(Vol(disk))))
    ensures r.Err? ==> r.error == DeviceError || r.error == FileNotFound
                       || (r.error == CorruptedData && !TextNames(old(Vol(disk)).table))
    ensures r == Err(DeviceError) ==> !disk.device.reliable
    ensures disk.device.reliable && Named(old(Vol(disk))) ==> (r.Ok? <==> name in Contents(old(Vol(disk))))
  {
    hide View, Contents, SectorCache.Disk.Valid, Reached, ReachedSince, SameSince, SafeSince, UniqueNames, GoodNames;
    hide Located, OnlySlot, SlotsSince;
    ghost var v, h := Vol(disk), disk.device.history;
    LocatedInside(v.table, name);
    GoodIsText(v.table);
    r := MarkDirty(disk);
    ghost var v1, h1 := Vol(disk), disk.device.history;
    if Named(v) {
      OpenImages(v, v1, h, h1, name, None, true);
    }
    if r.Err? {
      return;
    }
    r := RemoveName(disk, name);
    ghost var v2, h2 := Vol(disk), disk.device.history;
    SafeJoin(h1, h2, |h|);
    SlotsJoinAll(h1, h2, |h|, v, v1, v2, name);
    if Named(v) {
      MiddleImages(v, v1, h1, h2, |h|, name, None, true);
      ReachedFrom(v, v1, v2, name, None, true);
    }
    if r.Err? {
      return;
    }
    r := MarkClean(disk);
    SafeJoin(h2, disk.device.history, |h|);
    SlotsJoinEnd(h2, disk.device.history, |h|, v, v2, Vol(disk), name);
    if Named(v) {
      CloseImages(v, v2, h2, disk.device.history, |h|, name, None, true);
      ReachedSame(v, v2, Vol(disk), name, None, true);
    }
  }

  /** The first save on a new volume: the whole disk behind the first 129 sectors is there for it. */
  method FormatThenSave(disk: Disk, now: u64, f: F.FileEntry)
    returns (formatted: Result<(), DiskError>, saved: Result<(), DiskError>)
    requires Mounted(disk) && |disk.device.sectors| < U64_MODULUS && (|disk.device.sectors| - 129) / 8 < 0xFFFF_FFFF
    requires F.GoodFile(f)
    modifies disk.cache, disk.device
    ensures disk.device.reliable ==> formatted.Ok?
    ensures formatted.Ok? && disk.device.reliable ==>
              (saved.Ok? <==> (|f.data| + 4095) / 4096 <= (|old(disk.device.sectors)| - 129) / 8)
    ensures formatted.Ok? && saved == Err(DiskFull) ==> (|f.data| + 4095) / 4096 > (|old(disk.device.sectors)| - 129) / 8
  {
    hide View, Contents, SectorCache.Disk.Valid, Cleared, NewSuperblock, FormatSteps, NoRoom, GoodNames, UniqueNames;
    hide Reached, ReachedSince, SafeSince, SlotsSince, OnlySlot, Located, NameKeptExactly;
    saved := Ok(());
    formatted := FormatDisk(disk, now);
    if formatted.Ok? {
      EmptyHasRoom(Vol(disk), f);
      saved := SaveEntry(disk, f);
    }
  }
}
