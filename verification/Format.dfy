/**
 Reading, writing and counting the metadata of a mounted volume
 (kernel/src/disk/format.rs). Every method says what volume it leaves and which images the
 medium passed through.
 */
module Format {
  import opened Bytes
  import opened Errors
  import opened DiskLayout
  import opened Volumes
  import opened SectorCache
  import opened FirstFit

  ghost predicate Mounted(disk: Disk)
    reads disk.device, disk.cache
  {
    disk.Valid() && |disk.device.sectors| >= DATA_START
  }

  ghost function Vol(disk: Disk): Volume
    requires |disk.device.sectors| >= DATA_START
    reads disk.device
  {
    View(disk.device.sectors)
  }

  lemma FlattenOne(s: Sector)
    ensures Flatten([s]) == s
  {
    assert [s][1..] == [];
  }

  lemma CutOne(s: Sector)
    ensures Cut(s, 1) == [s]
  {
    assert s[512 * 0..512 * 1] == s;
  }

  method ReadOne(disk: Disk, sector: nat) returns (r: Result<Sector, DiskError>)
    requires Mounted(disk) && sector < |disk.device.sectors|
    modifies disk.cache
    ensures Mounted(disk)
    ensures r.Ok? ==> r.value == disk.device.sectors[sector]
    ensures r.Err? ==> r.error == DeviceError
    ensures r == Err(DeviceError) ==> !disk.device.reliable
  {
    var bytes :- disk.ReadSectors(sector, 1, SECTOR_SIZE);
    assert disk.device.sectors[sector..sector + 1] == [disk.device.sectors[sector]];
    FlattenOne(disk.device.sectors[sector]);
    return Ok(bytes);
  }

  method WriteOne(disk: Disk, sector: nat, s: Sector) returns (r: Result<(), DiskError>)
    requires Mounted(disk) && sector < |disk.device.sectors|
    modifies disk.cache, disk.device
    ensures Mounted(disk)
    ensures r.Ok? ==> disk.device.sectors == old(disk.device.sectors)[sector := s]
                      && disk.device.history == old(disk.device.history) + [disk.device.sectors]
    ensures r.Err? ==> r.error == DeviceError
                       && disk.device.sectors == old(disk.device.sectors)
                       && disk.device.history == old(disk.device.history)
    ensures r == Err(DeviceError) ==> !disk.device.reliable
  {
    ghost var done;
    r, done := disk.WriteSectors(sector, 1, s);
    CutOne(s);
    PatchOne(old(disk.device.sectors), sector, s);
    if done == 1 {
      assert disk.device.history == old(disk.device.history) + [disk.device.sectors];
    }
  }

  // ---------- superblock ----------

  method ReadSuperblock(disk: Disk) returns (r: Result<Superblock, DiskError>)
    requires Mounted(disk)
    modifies disk.cache
    ensures Mounted(disk)
    ensures r.Ok? ==> r.value == Vol(disk).super && r.value.IsValid()
    ensures r.Err? ==> r.error == DeviceError || (r.error == FormatError && !Vol(disk).super.IsValid())
    ensures r == Err(DeviceError) ==> !disk.device.reliable
    ensures r.Ok? ==> r.value.magic == 0x5741_5246 && r.value.version == 1
    ensures r == Err(FormatError) ==> Vol(disk).super.magic != 0x5741_5246 || Vol(disk).super.version != 1
  {
    var s :- ReadOne(disk, 0);
    var sb := DecodeSuper(s);
    return if sb.IsValid() then Ok(sb) else Err(FormatError);
  }

  method WriteSuperblock(disk: Disk, sb: Superblock) returns (r: Result<(), DiskError>)
    requires Mounted(disk)
    modifies disk.cache, disk.device
    ensures Mounted(disk)
    ensures r.Ok? ==> Vol(disk) == old(Vol(disk)).(super := sb)
                      && disk.device.history == old(disk.device.history) + [disk.device.sectors]
    ensures r.Err? ==> r.error == DeviceError
                       && disk.device.sectors == old(disk.device.sectors)
                       && disk.device.history == old(disk.device.history)
    ensures r == Err(DeviceError) ==> !disk.device.reliable
  {
    WriteSuper(disk.device.sectors, sb);
    r := WriteOne(disk, 0, EncodeSuper(sb));
  }

  /** The first thing every update does: mark the volume dirty. */
  method SetSuperblockState(disk: Disk, state: byte) returns (r: Result<(), DiskError>)
    requires Mounted(disk)
    modifies disk.cache, disk.device
    ensures Mounted(disk)
    ensures r.Ok? ==> old(Vol(disk)).super.IsValid()
                      && Vol(disk) == old(Vol(disk)).(super := old(Vol(disk)).super.(state := state))
                      && disk.device.history == old(disk.device.history) + [disk.device.sectors]
    ensures r.Err? ==> disk.device.sectors == old(disk.device.sectors)
                       && disk.device.history == old(disk.device.history)
                       && (old(Vol(disk)).super.IsValid() ==> r.error == DeviceError)
    ensures r == Err(DeviceError) ==> !disk.device.reliable
  {
    hide View, SectorCache.Disk.Valid;
    var sb :- ReadSuperblock(disk);
    r := WriteSuperblock(disk, sb.(state := state));
  }

  // ---------- file table ----------

  method ReadFileEntry(disk: Disk, index: nat) returns (r: Result<DiskFileEntry, DiskError>)
    requires Mounted(disk)
    modifies disk.cache
    ensures Mounted(disk)
    ensures r.Ok? ==> index < MAX_FILES && r.value == Vol(disk).table[index]
    ensures r.Err? ==> r.error == if index < MAX_FILES then DeviceError else OutOfBounds
    ensures r == Err(DeviceError) ==> !disk.device.reliable
  {
    if index >= MAX_FILES {
      return Err(OutOfBounds);
    }
    var s :- ReadOne(disk, FILE_TABLE_START + index);
    return Ok(DecodeEntry(s));
  }

  method WriteFileEntry(disk: Disk, index: nat, e: DiskFileEntry) returns (r: Result<(), DiskError>)
    requires Mounted(disk)
    modifies disk.cache, disk.device
    ensures Mounted(disk)
    ensures r.Ok? ==> index < MAX_FILES
                      && Vol(disk) == old(Vol(disk)).(table := old(Vol(disk)).table[index := e])
                      && disk.device.history == old(disk.device.history) + [disk.device.sectors]
    ensures r.Err? ==> r.error == (if index < MAX_FILES then DeviceError else OutOfBounds)
                       && disk.device.sectors == old(disk.device.sectors)
                       && disk.device.history == old(disk.device.history)
    ensures r == Err(DeviceError) ==> !disk.device.reliable
  {
    if index >= MAX_FILES {
      return Err(OutOfBounds);
    }
    WriteSlot(disk.device.sectors, index, e);
    r := WriteOne(disk, FILE_TABLE_START + index, EncodeEntry(e));
  }

  /** `entry_name`: the stored name, when it is text. */
  function EntryName(e: DiskFileEntry): Result<str, DiskError> {
    if ValidUtf8(NameOf(e)) then Ok(NameOf(e)) else Err(CorruptedData)
  }

  // ---------- file data ----------

  lemma DataSlice(image: Image, lo: nat, hi: nat)
    requires lo <= hi && DATA_START + hi <= |image|
    ensures image[DATA_START + lo..DATA_START + hi] == View(image).data[lo..hi]
  {
  }

  method ReadFileData(disk: Disk, startBlock: u32, blockCount: u32, bufferLen: nat)
    returns (r: Result<seq<byte>, DiskError>)
    requires Mounted(disk)
    modifies disk.cache
    ensures Mounted(disk)
    ensures r.Ok? && blockCount < 0x2000_0000
            && SECTORS_PER_BLOCK * (startBlock + blockCount) <= |Vol(disk).data| ==>
              r.value == Flatten(Vol(disk).data[SECTORS_PER_BLOCK * startBlock
                                               ..SECTORS_PER_BLOCK * (startBlock + blockCount)])
    ensures r.Err? && blockCount < 0x2000_0000 && bufferLen >= blockCount * BLOCK_SIZE
            && SECTORS_PER_BLOCK * (startBlock + blockCount) <= |Vol(disk).data| ==>
              r.error == DeviceError
    ensures r == Err(DeviceError) ==> !disk.device.reliable
  {
    hide View, Flatten, SectorCache.Disk.Valid;
    var totalSectors: u32 := (blockCount * SECTORS_PER_BLOCK) % 0x1_0000_0000;
    var startSector := DATA_START + startBlock * SECTORS_PER_BLOCK;
    r := disk.ReadSectors(startSector, totalSectors, bufferLen);
    if r.Ok? && blockCount < 0x2000_0000
       && SECTORS_PER_BLOCK * (startBlock + blockCount) <= |disk.device.sectors| - DATA_START {
      assert totalSectors == SECTORS_PER_BLOCK * blockCount;
      DataSlice(disk.device.sectors, SECTORS_PER_BLOCK * startBlock, SECTORS_PER_BLOCK * (startBlock + blockCount));
    }
  }

  function Padded(data: seq<byte>): (p: seq<byte>)
    ensures |p| == BlockCountForLen(|data|) * BLOCK_SIZE
    ensures p[..|data|] == data && forall i | |data| <= i < |p| :: p[i] == 0
  {
    data + Zeros(BlockCountForLen(|data|) * BLOCK_SIZE - |data|)
  }

  /** The volume with the first `n` sectors of a file's data in place from `startBlock` on. */
  function DataPut(v: Volume, startBlock: nat, data: seq<byte>, n: nat): Volume
    requires n <= SECTORS_PER_BLOCK * BlockCountForLen(|data|)
    requires SECTORS_PER_BLOCK * (startBlock + BlockCountForLen(|data|)) <= |v.data|
  {
    v.(data := Patch(v.data, SECTORS_PER_BLOCK * startBlock,
                     Cut(Padded(data), SECTORS_PER_BLOCK * BlockCountForLen(|data|)), n))
  }

  /** `done` new images: the data arriving sector by sector. */
  ghost predicate DataSteps(history: seq<Image>, history': seq<Image>, v: Volume, startBlock: nat, data: seq<byte>, done: nat)
    requires done <= SECTORS_PER_BLOCK * BlockCountForLen(|data|)
    requires SECTORS_PER_BLOCK * (startBlock + BlockCountForLen(|data|)) <= |v.data|
  {
    && |history'| == |history| + done
    && history <= history'
    && forall k | |history| <= k < |history'| ::
         |history'[k]| >= DATA_START && View(history'[k]) == DataPut(v, startBlock, data, k - |history| + 1)
  }

  lemma WroteData(history: seq<Image>, history': seq<Image>, image: Image, image': Image,
                  startBlock: nat, data: seq<byte>, done: nat)
    requires |image| >= DATA_START
    requires SECTORS_PER_BLOCK * (startBlock + BlockCountForLen(|data|)) <= |image| - DATA_START
    requires Wrote(history, history', image, image', DATA_START + SECTORS_PER_BLOCK * startBlock,
                   Cut(Padded(data), SECTORS_PER_BLOCK * BlockCountForLen(|data|)), done)
    ensures |image'| >= DATA_START && View(image') == DataPut(View(image), startBlock, data, done)
    ensures DataSteps(history, history', View(image), startBlock, data, done)
  {
    var at, run := SECTORS_PER_BLOCK * startBlock, Cut(Padded(data), SECTORS_PER_BLOCK * BlockCountForLen(|data|));
    forall i | 0 <= i <= done
      ensures View(Patch(image, DATA_START + at, run, i)) == DataPut(View(image), startBlock, data, i)
    {
      WriteBlocks(image, at, run, i);
    }
    assert Patch(image, DATA_START + at, run, 0) == image;
    forall k | |history| <= k < |history'|
      ensures |history'[k]| >= DATA_START
      ensures View(history'[k]) == DataPut(View(image), startBlock, data, k - |history| + 1)
    {
      var i := k - |history| + 1;
      assert history'[|history| + i - 1] == Patch(image, DATA_START + at, run, i);
    }
  }

  lemma NothingWritten(history: seq<Image>, image: Image, startBlock: nat, data: seq<byte>)
    requires |image| >= DATA_START && BlockCountForLen(|data|) == 0
    requires SECTORS_PER_BLOCK * startBlock <= |image| - DATA_START
    ensures View(image) == DataPut(View(image), startBlock, data, 0)
    ensures DataSteps(history, history, View(image), startBlock, data, 0)
  {
    assert Patch(View(image).data, SECTORS_PER_BLOCK * startBlock, Cut(Padded(data), 0), 0) == View(image).data;
  }

  /** The device has room for the whole extent. */
  predicate Roomy(v: Volume, startBlock: nat, data: seq<byte>) {
    SECTORS_PER_BLOCK * (startBlock + BlockCountForLen(|data|)) <= |v.data|
  }

  /** Data past the end of the device is written up to the end and then refused. */
  method WriteFileData(disk: Disk, startBlock: u32, data: seq<byte>)
    returns (r: Result<u32, DiskError>, ghost done: nat)
    requires Mounted(disk)
    requires BlockCountForLen(|data|) < 0x2000_0000
    modifies disk.cache, disk.device
    ensures Mounted(disk)
    ensures done <= SECTORS_PER_BLOCK * BlockCountForLen(|data|)
    ensures Wrote(old(disk.device.history), disk.device.history, old(disk.device.sectors), disk.device.sectors,
                  DATA_START + SECTORS_PER_BLOCK * startBlock,
                  Cut(Padded(data), SECTORS_PER_BLOCK * BlockCountForLen(|data|)), done)
    ensures Roomy(old(Vol(disk)), startBlock, data) ==>
              && Vol(disk) == DataPut(old(Vol(disk)), startBlock, data, done)
              && DataSteps(old(disk.device.history), disk.device.history, old(Vol(disk)), startBlock, data, done)
    ensures r.Ok? ==> r.value == BlockCountForLen(|data|) && done == SECTORS_PER_BLOCK * r.value
    ensures r.Ok? && data != [] ==> Roomy(old(Vol(disk)), startBlock, data)
    ensures r.Err? ==> r.error == DeviceError || (r.error == OutOfBounds && !Roomy(old(Vol(disk)), startBlock, data))
    ensures r == Err(DeviceError) ==> !disk.device.reliable
  {
    hide View, Cut, Patch, DataPut, DataSteps, SectorCache.Disk.Valid;
    var blocksNeeded := BlockCountForLen(|data|);
    ghost var image := disk.device.sectors;
    if blocksNeeded == 0 {
      if Roomy(Vol(disk), startBlock, data) {
        NothingWritten(disk.device.history, image, startBlock, data);
      }
      return Ok(0), 0;
    }
    var startSector := DATA_START + startBlock * SECTORS_PER_BLOCK;
    var padded := Padded(data);
    var count: u32 := blocksNeeded * SECTORS_PER_BLOCK;
    ghost var run := Cut(padded, count);
    var w;
    w, done := disk.WriteSectors(startSector, count, padded);
    if Roomy(old(Vol(disk)), startBlock, data) {
      WroteData(old(disk.device.history), disk.device.history, image, disk.device.sectors, startBlock, data, done);
    }
    if w.Err? {
      return Err(w.error), done;
    }
    return Ok(blocksNeeded), done;
  }

  // ---------- allocation ----------

  /**
   The lowest free run of `count` blocks, or DiskFull when there is none below
   `total_blocks`. `ignored` is the slot whose own extent may be reused, or -1.
   */
  method AllocateBlocks(disk: Disk, count: u32, ignored: int) returns (r: Result<u32, DiskError>)
    requires Mounted(disk) && Sound(Vol(disk))
    modifies disk.cache
    ensures Mounted(disk)
    ensures r.Ok? ==>
              && r.value + count <= Vol(disk).super.totalBlocks
              && FreeRun(Vol(disk).table, r.value, count, ignored)
              && forall c | 0 <= c < r.value :: !FreeRun(Vol(disk).table, c, count, ignored)
    ensures r.Err? ==> r.error == DeviceError || r.error == DiskFull
    ensures r == Err(DiskFull) ==>
              forall c: nat | c + count <= Vol(disk).super.totalBlocks ::
                !FreeRun(Vol(disk).table, c, count, ignored)
    ensures r == Err(DeviceError) ==> !disk.device.reliable
  {
    hide View, SectorCache.Disk.Valid;
    var sb :- ReadSuperblock(disk);
    var used :- UsedRanges(disk, ignored);
    ghost var table := Vol(disk).table;
    var ranges := SortRanges(used);
    SortKeeps(used);
    RangesWithin(table, ignored, sb.totalBlocks);
    SweepExact(ranges, 0, count, sb.totalBlocks);
    forall c: nat
      ensures RunFree(ranges, c, count) <==> FreeRun(table, c, count, ignored)
    {
      RangesFree(table, ignored, c, count);
    }
    r := SweepLoop(ranges, count, sb.totalBlocks);
  }

  /** Some extent but that of `ignored` ends beyond what 32 bits hold, which only an unsound table has. */
  predicate SumsOverflow(table: seq<DiskFileEntry>, ignored: int) {
    exists i | 0 <= i < |table| && i != ignored && HasBlocks(table[i]) :: table[i].startBlock + table[i].blockCount > U32_MAX
  }

  method UsedRanges(disk: Disk, ignored: int) returns (r: Result<seq<Range>, DiskError>)
    requires Mounted(disk)
    modifies disk.cache
    ensures Mounted(disk)
    ensures r.Ok? ==> r.value == RangesOf(Vol(disk).table, ignored) && !SumsOverflow(Vol(disk).table, ignored)
    ensures r.Err? ==> r.error == DeviceError || (r.error == Panicked && SumsOverflow(Vol(disk).table, ignored))
    ensures r == Err(DeviceError) ==> !disk.device.reliable
  {
    hide View, SectorCache.Disk.Valid;
    var ranges: seq<Range> := [];
    ghost var table := Vol(disk).table;
    for index := 0 to MAX_FILES
      invariant Mounted(disk) && Vol(disk).table == table
      invariant ranges == RangesOf(table[..index], ignored)
      invariant !SumsOverflow(table[..index], ignored)
    {
      assert table[..index + 1][..index] == table[..index];
      if index != ignored {
        var e :- ReadFileEntry(disk, index);
        if e.active != 0 && e.blockCount != 0 {
          if e.startBlock + e.blockCount > U32_MAX {
            return Err(Panicked);
          }
          ranges := ranges + [Range(e.startBlock, e.startBlock + e.blockCount)];
        }
      }
    }
    assert table[..MAX_FILES] == table;
    return Ok(ranges);
  }

  method SweepLoop(ranges: seq<Range>, count: u32, total: u32) returns (r: Result<u32, DiskError>)
    requires Within(ranges, total)
    ensures r == Sweep(ranges, 0, count, total)
  {
    var candidate: u32 := 0;
    for k := 0 to |ranges|
      invariant Within(ranges[k..], total)
      invariant Sweep(ranges[k..], candidate, count, total) == Sweep(ranges, 0, count, total)
    {
      if SaturatingAdd32(candidate, count) <= ranges[k].first {
        return Ok(candidate);
      }
      assert ranges[k..][1..] == ranges[k + 1..];
      candidate := Max(candidate, ranges[k].end);
    }
    return if SaturatingAdd32(candidate, count) <= total then Ok(candidate) else Err(DiskFull);
  }

  // ---------- counters ----------

  method CountActiveFiles(disk: Disk) returns (r: Result<u16, DiskError>)
    requires Mounted(disk)
    modifies disk.cache
    ensures Mounted(disk)
    ensures r.Ok? ==> r.value == CountActive(Vol(disk).table)
    ensures r.Err? ==> r.error == DeviceError
    ensures r == Err(DeviceError) ==> !disk.device.reliable
  {
    hide View, SectorCache.Disk.Valid;
    var count: u16 := 0;
    ghost var table := Vol(disk).table;
    for index := 0 to MAX_FILES
      invariant Mounted(disk) && Vol(disk).table == table
      invariant count == CountActive(table[..index])
    {
      var e :- ReadFileEntry(disk, index);
      assert table[..index + 1][..index] == table[..index];
      if e.active != 0 {
        count := SaturatingAdd16(count, 1);
      }
    }
    assert table[..MAX_FILES] == table;
    return Ok(count);
  }

  /** The saturating 32-bit sum is the true sum on every sound volume. */
  method CountUsedBlocks(disk: Disk) returns (r: Result<u32, DiskError>)
    requires Mounted(disk) && Sound(Vol(disk))
    modifies disk.cache
    ensures Mounted(disk)
    ensures r.Ok? ==> r.value == SumBlocks(Vol(disk).table)
    ensures r.Err? ==> r.error == DeviceError
    ensures r == Err(DeviceError) ==> !disk.device.reliable
  {
    hide View, SectorCache.Disk.Valid;
    var count: u32 := 0;
    ghost var table, total := Vol(disk).table, Vol(disk).super.totalBlocks;
    for index := 0 to MAX_FILES
      invariant Mounted(disk) && Vol(disk).table == table
      invariant count == SumBlocks(table[..index])
    {
      var e :- ReadFileEntry(disk, index);
      assert table[..index + 1][..index] == table[..index];
      SumBlocksBounded(table[..index + 1], total);
      if e.active != 0 {
        count := SaturatingAdd32(count, e.blockCount);
      }
    }
    assert table[..MAX_FILES] == table;
    return Ok(count);
  }

  /** The superblock a recount writes. */
  function Recounted(v: Volume, state: byte): Superblock
    requires Sound(v)
  {
    SumBlocksBounded(v.table, v.super.totalBlocks);
    v.super.(usedBlocks := SumBlocks(v.table), fileCount := CountActive(v.table), state := state)
  }

  /** Recount and write the superblock; the one write made here establishes the counts. */
  method RefreshSuperblock(disk: Disk, state: byte) returns (r: Result<Superblock, DiskError>)
    requires Mounted(disk) && Sound(Vol(disk))
    modifies disk.cache, disk.device
    ensures Mounted(disk)
    ensures r.Ok? ==>
              && r.value == Recounted(old(Vol(disk)), state)
              && Vol(disk) == old(Vol(disk)).(super := r.value)
              && disk.device.history == old(disk.device.history) + [disk.device.sectors]
    ensures r.Err? ==> r.error == DeviceError
                       && disk.device.sectors == old(disk.device.sectors)
                       && disk.device.history == old(disk.device.history)
    ensures r == Err(DeviceError) ==> !disk.device.reliable
  {
    hide View, SectorCache.Disk.Valid;
    var sb :- ReadSuperblock(disk);
    var used :- CountUsedBlocks(disk);
    var files :- CountActiveFiles(disk);
    var sb' := sb.(usedBlocks := used, fileCount := files, state := state);
    var w := WriteSuperblock(disk, sb');
    if w.Err? {
      return Err(w.error);
    }
    return Ok(sb');
  }

  // ---------- formatting and mounting ----------

  /** `Superblock::new`; the block count is cut to 32 bits. */
  function NewSuperblock(totalSectors: u64, now: u64): Superblock {
    var dataSectors := if totalSectors < DATA_START then 0 else totalSectors - DATA_START;
    var totalBlocks := (dataSectors / SECTORS_PER_BLOCK) % 0x1_0000_0000;
    Superblock(WARFS_MAGIC, WARFS_VERSION, Ascii("WarOS Disk") + Zeros(22), totalSectors, totalBlocks, 0, 0,
               BLOCK_SIZE, now, 0, 0, CLEAN, Zeros(427))
  }

  /**
   What a superblock says of a new volume on a disk of `sectors` sectors: its blocks are as
   many groups of eight sectors as there are behind the first 129, counted in 32 bits.
   */
  predicate DescribesNew(sb: Superblock, sectors: nat, now: u64) {
    && sb.magic == 0x5741_5246 && sb.version == 1 && sb.totalSectors == sectors && sb.blockSize == 4096
    && sb.createdAt == now && sb.usedBlocks == 0 && sb.fileCount == 0 && sb.state == 0
    && sb.volumeLabel[..10] == Ascii("WarOS Disk") && (forall i | 10 <= i < 32 :: sb.volumeLabel[i] == 0)
    && ((sectors - 129) / 8 - sb.totalBlocks) % 0x1_0000_0000 == 0
    && ((sectors - 129) / 8 < 0x1_0000_0000 ==> sb.totalBlocks * 8 <= sectors - 129 < (sb.totalBlocks + 1) * 8)
  }

  lemma NewDescribes(sectors: u64, now: u64)
    requires sectors >= DATA_START
    ensures DescribesNew(NewSuperblock(sectors, now), sectors, now)
  {
  }

  predicate Blank(s: seq<byte>) { forall i | 0 <= i < |s| :: s[i] == 0 }

  lemma {:induction false} BlankValue(s: seq<byte>)
    requires Blank(s)
    ensures FromLittleEndian(s) == 0
  {
    if s != [] {
      BlankValue(s[1..]);
    }
  }

  lemma BlankSectorInactive(z: Sector)
    requires Blank(z)
    ensures DecodeEntry(z) == Inactive()
  {
    BlankValue(z[104..112]);
    BlankValue(z[112..114]);
    BlankValue(z[120..128]);
    BlankValue(z[128..136]);
    BlankValue(z[136..140]);
    BlankValue(z[140..144]);
    assert z[1..97] == Zeros(96) && z[144..512] == Zeros(368);
  }

  lemma {:induction false} EmptyTableCounts(table: seq<DiskFileEntry>)
    requires forall i | 0 <= i < |table| :: table[i].active == 0
    ensures SumBlocks(table) == 0 && CountActive(table) == 0
  {
    if table != [] {
      EmptyTableCounts(table[..|table| - 1]);
    }
  }

  /** The volume with its first `j` slots cleared. */
  function Cleared(v: Volume, j: nat): Volume
    requires j <= |v.table|
  {
    v.(table := seq(j, _ => Inactive()) + v.table[j..])
  }

  /** The images of a format: the new superblock first, then one more slot cleared in each. */
  ghost predicate FormatSteps(history: seq<Image>, n: nat, v: Volume) {
    && |v.table| == MAX_FILES && |history| - n <= MAX_FILES + 1
    && forall k | n <= k < |history| ::
         |history[k]| >= DATA_START && View(history[k]) == Cleared(v, k - n)
  }

  /**
   A freshly formatted volume is sound, clean and empty, so every run can start from it. A
   format that stops early leaves the new superblock over the slots it did not reach.
   */
  method FormatDisk(disk: Disk, now: u64) returns (r: Result<(), DiskError>)
    requires Mounted(disk) && |disk.device.sectors| < U64_MODULUS
    modifies disk.cache, disk.device
    ensures Mounted(disk) && |disk.device.sectors| == |old(disk.device.sectors)|
    ensures old(disk.device.history) <= disk.device.history
    ensures FormatSteps(disk.device.history, |old(disk.device.history)|,
                        old(Vol(disk)).(super := NewSuperblock(|disk.device.sectors|, now)))
    ensures r.Ok? ==> Vol(disk) == Cleared(old(Vol(disk)).(super := NewSuperblock(|disk.device.sectors|, now)), MAX_FILES)
                      && |disk.device.history| == |old(disk.device.history)| + 1 + MAX_FILES
    ensures r.Ok? ==> DescribesNew(Vol(disk).super, |disk.device.sectors|, now) && Vol(disk).super.mountCount == 0
                      && forall i | 0 <= i < 128 :: Vol(disk).table[i].active == 0
    ensures r.Ok? && Vol(disk).super.totalBlocks != U32_MAX ==>
              CrashSafe(Vol(disk)) && UniqueNames(Vol(disk).table) && GoodNames(Vol(disk).table) && Contents(Vol(disk)) == map[]
    ensures r.Err? ==> r.error == DeviceError
    ensures r == Err(DeviceError) ==> !disk.device.reliable
  {
    hide View, Contents, SectorCache.Disk.Valid, DescribesNew;
    ghost var v, h := Vol(disk), disk.device.history;
    NewDescribes(|disk.device.sectors|, now);
    var _ :- WriteSuperblock(disk, NewSuperblock(|disk.device.sectors|, now));
    NoneCleared(Vol(disk));
    r := ClearTable(disk, v.(super := NewSuperblock(|disk.device.sectors|, now)), |h|);
    if r.Ok? && Vol(disk).super.totalBlocks != U32_MAX {
      FreshVolume(Vol(disk), now);
    }
  }

  method ClearTable(disk: Disk, ghost v: Volume, ghost n: nat) returns (r: Result<(), DiskError>)
    requires Mounted(disk) && Vol(disk) == v
    requires |disk.device.history| == n + 1 && FormatSteps(disk.device.history, n, v)
    modifies disk.cache, disk.device
    ensures Mounted(disk) && |disk.device.sectors| == |old(disk.device.sectors)|
    ensures old(disk.device.history) <= disk.device.history && FormatSteps(disk.device.history, n, v)
    ensures r.Ok? ==> Vol(disk) == Cleared(v, MAX_FILES) && |disk.device.history| == n + 1 + MAX_FILES
    ensures r.Err? ==> r.error == DeviceError
    ensures r == Err(DeviceError) ==> !disk.device.reliable
  {
    hide View, SectorCache.Disk.Valid, FormatSteps, Cleared;
    NoneCleared(v);
    for j := 0 to MAX_FILES
      invariant Mounted(disk) && |disk.device.sectors| == |old(disk.device.sectors)|
      invariant old(disk.device.history) <= disk.device.history
      invariant Vol(disk) == Cleared(v, j) && |disk.device.history| == n + 1 + j && FormatSteps(disk.device.history, n, v)
    {
      var zero: Sector := Zeros(SECTOR_SIZE);
      BlankSlot(disk.device.sectors, j, zero);
      ClearedNext(v, j);
      ghost var before := disk.device.history;
      r := WriteOne(disk, FILE_TABLE_START + j, zero);
      if r.Err? {
        return;
      }
      FormatStepsNext(before, n, v, disk.device.sectors);
    }
    return Ok(());
  }

  lemma NoneCleared(v: Volume)
    ensures Cleared(v, 0) == v
  {
  }

  lemma FormatStepsNext(history: seq<Image>, n: nat, v: Volume, image: Image)
    requires FormatSteps(history, n, v) && n <= |history| <= n + MAX_FILES
    requires |image| >= DATA_START && View(image) == Cleared(v, |history| - n)
    ensures FormatSteps(history + [image], n, v)
  {
    hide View, Cleared;
  }

  lemma ClearedNext(v: Volume, j: nat)
    requires j < |v.table|
    ensures Cleared(v, j + 1) == Cleared(v, j).(table := Cleared(v, j).table[j := Inactive()])
  {
    assert Cleared(v, j + 1).table == Cleared(v, j).table[j := Inactive()];
  }

  lemma BlankSlot(image: Image, j: nat, zero: Sector)
    requires |image| >= DATA_START && j < MAX_FILES && Blank(zero)
    ensures View(image[FILE_TABLE_START + j := zero]) == View(image).(table := View(image).table[j := Inactive()])
  {
    BlankSectorInactive(zero);
    var image' := image[FILE_TABLE_START + j := zero];
    assert View(image').table == View(image).table[j := Inactive()];
    assert View(image').data == View(image).data;
  }

  /**
   Stopped after `j` slots, a format is sound exactly when the slots it did not reach fit the
   new superblock, whatever stood on the disk, and crash-safe exactly when none is active.
   */
  lemma FormatStopped(v: Volume, j: nat)
    requires j <= MAX_FILES == |v.table| && v.super.IsValid() && v.super.totalBlocks < U32_MAX
    requires v.super.totalBlocks * SECTORS_PER_BLOCK <= |v.data|
    requires v.super.state == CLEAN && v.super.usedBlocks == 0 && v.super.fileCount == 0
    ensures Sound(Cleared(v, j)) <==>
              Inside(v.table[j..], v.super.totalBlocks) && Disjoint(v.table[j..]) && Sized(v.table[j..])
    ensures CrashSafe(Cleared(v, j)) <==> forall i | j <= i < MAX_FILES :: v.table[i].active == 0
  {
    hide SumBlocks, CountActive, Inside, Disjoint, Sized, Cleared;
    var t := Cleared(v, j).table;
    ClearedSlots(v, j);
    ClearedRest(v.table, t, j, v.super.totalBlocks);
    if forall i | j <= i < MAX_FILES :: v.table[i].active == 0 {
      EmptyTableCounts(t);
      NoneStored(v.table[j..], v.super.totalBlocks);
    } else {
      var i :| j <= i < MAX_FILES && v.table[i].active != 0;
      SomeActive(t, i);
    }
  }

  lemma ClearedSlots(v: Volume, j: nat)
    requires j <= MAX_FILES == |v.table|
    ensures var v' := Cleared(v, j);
            && v'.super == v.super && v'.data == v.data && |v'.table| == MAX_FILES
            && (forall i | 0 <= i < MAX_FILES :: v'.table[i] == if i < j then Inactive() else v.table[i])
  {
  }

  /** Cleared slots never matter to where extents lie. */
  lemma ClearedRest(table: seq<DiskFileEntry>, t: seq<DiskFileEntry>, j: nat, total: u32)
    requires j <= |table| == |t|
    requires forall i | 0 <= i < |t| :: t[i] == if i < j then Inactive() else table[i]
    ensures Inside(t, total) <==> Inside(table[j..], total)
    ensures Disjoint(t) <==> Disjoint(table[j..])
    ensures Sized(t) <==> Sized(table[j..])
  {
    var rest := table[j..];
    assert forall i | 0 <= i < |rest| :: rest[i] == t[i + j];
    assert forall i | j <= i < |t| :: t[i] == rest[i - j];
    if Disjoint(rest) {
      forall a, b | 0 <= a < b < |t| && HasBlocks(t[a]) && HasBlocks(t[b])
        ensures !Overlap(t[a], t[b])
      {
        assert !Overlap(rest[a - j], rest[b - j]);
      }
    }
    if Disjoint(t) {
      forall a, b | 0 <= a < b < |rest| && HasBlocks(rest[a]) && HasBlocks(rest[b])
        ensures !Overlap(rest[a], rest[b])
      {
        assert !Overlap(t[a + j], t[b + j]);
      }
    }
    assert forall i | 0 <= i < |t| && t[i].active != 0 :: i >= j;
  }

  lemma NoneStored(table: seq<DiskFileEntry>, total: u32)
    requires forall i | 0 <= i < |table| :: table[i].active == 0
    ensures Inside(table, total) && Disjoint(table) && Sized(table)
  {
  }

  lemma {:induction false} SomeActive(table: seq<DiskFileEntry>, i: nat)
    requires i < |table| && table[i].active != 0
    ensures CountActive(table) > 0
    decreases |table|
  {
    if i < |table| - 1 {
      SomeActive(table[..|table| - 1], i);
    }
  }

  lemma FreshVolume(v: Volume, now: u64)
    requires |v.table| == MAX_FILES && |v.data| + DATA_START < U64_MODULUS
    requires v.super == NewSuperblock(|v.data| + DATA_START, now)
    requires v.super.totalBlocks != U32_MAX
    requires forall i | 0 <= i < MAX_FILES :: v.table[i] == Inactive()
    ensures CrashSafe(v) && UniqueNames(v.table) && GoodNames(v.table) && Contents(v) == map[]
  {
    EmptyTableCounts(v.table);
    assert Names(v.table) == {};
  }

  /** The counts the superblock carries are those of the table. */
  predicate TrueCounts(v: Volume) {
    v.super.usedBlocks == SumBlocks(v.table) && v.super.fileCount == CountActive(v.table)
  }

  /** The volume a mount makes of another: one more mount counted, marked clean, all else kept. */
  predicate IsMountOf(v: Volume, v': Volume) {
    v' == v.(super := v.super.(state := CLEAN, lastMount := v'.super.lastMount,
                               mountCount := SaturatingAdd32(v.super.mountCount, 1)))
  }

  /**
   `mark_mounted` declares the volume clean without recounting: a sound volume is crash-safe
   afterwards exactly when the counts it carries happen to be true.
   */
  method MarkMounted(disk: Disk, now: u64) returns (r: Result<Superblock, DiskError>)
    requires Mounted(disk)
    modifies disk.cache, disk.device
    ensures Mounted(disk)
    ensures r.Ok? ==> old(Vol(disk)).super.IsValid() && r.value == Vol(disk).super && Vol(disk).super.lastMount == now
                      && IsMountOf(old(Vol(disk)), Vol(disk))
                      && disk.device.history == old(disk.device.history) + [disk.device.sectors]
    ensures r.Err? ==> disk.device.sectors == old(disk.device.sectors) && disk.device.history == old(disk.device.history)
    ensures r.Err? ==> r.error == DeviceError || (r.error == FormatError && !old(Vol(disk)).super.IsValid())
    ensures Sound(old(Vol(disk))) ==>
              && Sound(Vol(disk)) && Contents(Vol(disk)) == Contents(old(Vol(disk)))
              && (r.Ok? ==> (CrashSafe(Vol(disk)) <==> TrueCounts(old(Vol(disk)))))
    ensures r == Err(DeviceError) ==> !disk.device.reliable
  {
    hide View, Contents, SectorCache.Disk.Valid;
    var sb :- ReadSuperblock(disk);
    var sb' := sb.(lastMount := now, mountCount := SaturatingAdd32(sb.mountCount, 1), state := CLEAN);
    if Sound(Vol(disk)) {
      SuperKept(Vol(disk), sb');
    }
    var w := WriteSuperblock(disk, sb');
    if w.Err? {
      return Err(w.error);
    }
    return Ok(sb');
  }

  /** A file of one byte in the one block of a volume. */
  function Letter(): DiskFileEntry {
    Inactive().(active := 1, name := NameField96(Ascii("/x")), size := 1, blockCount := 1)
  }

  /** A clean volume of one block that holds this file alone. */
  function LetterVolume(): Volume {
    Volume(Superblock(WARFS_MAGIC, WARFS_VERSION, Zeros(32), 137, 1, 1, 1, BLOCK_SIZE, 0, 0, 0, CLEAN, Zeros(427)),
           [Letter()] + seq(MAX_FILES - 1, _ => Inactive()), seq(SECTORS_PER_BLOCK, _ => Zeros(SECTOR_SIZE)))
  }

  /** The delete of the file, cut after its slot was written: dirty, and still counting it. */
  function CutVolume(): Volume {
    var v := LetterVolume();
    v.(super := v.super.(state := DIRTY), table := v.table[0 := Inactive()])
  }

  /** It is crash-safe as long as it is dirty, and no longer once it is mounted. */
  lemma MountedOverFalseCounts(v: Volume)
    requires IsMountOf(CutVolume(), v)
    ensures CrashSafe(LetterVolume()) && CrashSafe(CutVolume()) && Sound(v) && !CrashSafe(v)
  {
    hide SumBlocks, CountActive, NameField96;
    var whole, cut := LetterVolume(), CutVolume();
    assert forall i | 0 <= i < MAX_FILES :: cut.table[i] == Inactive();
    EmptyTableCounts(cut.table);
    OneActiveCounts(whole.table);
    assert forall i | 0 < i < MAX_FILES :: whole.table[i] == Inactive();
  }

  lemma {:induction false} OneActiveCounts(table: seq<DiskFileEntry>)
    requires table != [] && table[0].active != 0 && forall i | 0 < i < |table| :: table[i].active == 0
    ensures SumBlocks(table) == table[0].blockCount && CountActive(table) == 1
  {
    if |table| == 1 {
      assert table[..0] == [];
    } else {
      OneActiveCounts(table[..|table| - 1]);
    }
  }
}
