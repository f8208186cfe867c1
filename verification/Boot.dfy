/**
 What a boot does with the disk (kernel/src/disk/mod.rs, init): read the superblock, format
 the disk if it has none, mark the volume mounted, load the files. It starts from whatever is
 on the medium.
 */
module Boot {
  import opened Bytes
  import opened Errors
  import opened DiskLayout
  import opened Volumes
  import opened Images
  import opened SectorCache
  import opened Format
  import opened LoadBack
  import F = WarFs

  /** The image was written by a save, delete or sync and is crash-safe, or by a mount and is sound. */
  ghost predicate Accounted(history: seq<Image>, k: int)
    requires 1 <= k < |history|
  {
    && |history[k]| >= DATA_START && Sound(View(history[k]))
    && (|| CrashSafe(View(history[k]))
        || (|history[k - 1]| >= DATA_START && IsMountOf(View(history[k - 1]), View(history[k]))))
  }

  ghost predicate AccountedSince(history: seq<Image>, n: nat) {
    n >= 1 && forall k | n <= k < |history| :: Accounted(history, k)
  }

  lemma SafeAccounted(history: seq<Image>, n: nat)
    requires n >= 1 && SafeSince(history, n)
    ensures AccountedSince(history, n)
  {
    hide View, CrashSafe;
    forall k | n <= k < |history|
      ensures Accounted(history, k)
    {
      assert SafeImage(history[k]);
      SafeIsSound(View(history[k]));
    }
  }

  lemma SafeIsSound(v: Volume)
    requires CrashSafe(v)
    ensures Sound(v)
  {
  }

  lemma AccountedJoin(middle: seq<Image>, history: seq<Image>, n: nat)
    requires middle <= history && AccountedSince(middle, n) && AccountedSince(history, |middle|)
    ensures AccountedSince(history, n)
  {
    hide View, CrashSafe, Sound, IsMountOf;
    forall k | n <= k < |history|
      ensures Accounted(history, k)
    {
      if k < |middle| {
        assert history[k] == middle[k] && history[k - 1] == middle[k - 1];
        assert Accounted(middle, k);
      }
    }
  }

  /** What a boot makes of a disk without a superblock: an empty volume, mounted once. */
  ghost predicate FormattedBy(v: Volume, v': Volume, sectors: u64, now: u64)
    requires |v.table| == MAX_FILES
  {
    IsMountOf(Cleared(v.(super := NewSuperblock(sectors, now)), MAX_FILES), v')
  }

  /** The images of such a boot: those of the format, and at last the mounted volume. */
  ghost predicate FormatBootSteps(history: seq<Image>, n: nat, v: Volume, sectors: u64, now: u64)
    requires |v.table| == MAX_FILES
  {
    forall k | n <= k < |history| ::
      && |history[k]| >= DATA_START
      && if k - n <= MAX_FILES then View(history[k]) == Cleared(v.(super := NewSuperblock(sectors, now)), k - n)
         else k == n + MAX_FILES + 1 && FormattedBy(v, View(history[k]), sectors, now)
  }

  lemma FormatOnly(history: seq<Image>, n: nat, v: Volume, sectors: u64, now: u64)
    requires |v.table| == MAX_FILES && FormatSteps(history, n, v.(super := NewSuperblock(sectors, now)))
    ensures FormatBootSteps(history, n, v, sectors, now)
  {
    hide View, Cleared, NewSuperblock;
  }

  lemma FormatThenMount(history: seq<Image>, n: nat, v: Volume, sectors: u64, now: u64, image: Image)
    requires |v.table| == MAX_FILES && |history| == n + 1 + MAX_FILES
    requires FormatSteps(history, n, v.(super := NewSuperblock(sectors, now)))
    requires |image| >= DATA_START && FormattedBy(v, View(image), sectors, now)
    ensures FormatBootSteps(history + [image], n, v, sectors, now)
  {
    hide View, Cleared, NewSuperblock, FormattedBy;
  }

  /** The branch that formats the disk. Stopped anywhere, it leaves an image of the format or the mounted volume. */
  method FormatAndMount(disk: Disk, now: u64) returns (r: Result<nat, DiskError>)
    requires Mounted(disk) && |disk.device.sectors| < U64_MODULUS
    modifies disk.cache, disk.device
    ensures Mounted(disk) && |disk.device.sectors| == |old(disk.device.sectors)|
    ensures old(disk.device.history) <= disk.device.history
    ensures FormatBootSteps(disk.device.history, |old(disk.device.history)|, old(Vol(disk)), |disk.device.sectors|, now)
    ensures r.Ok? ==> r.value == 0 && FormattedBy(old(Vol(disk)), Vol(disk), |disk.device.sectors|, now)
    ensures r.Ok? ==> DescribesNew(Vol(disk).super, |disk.device.sectors|, now)
                      && Vol(disk).super.mountCount == 1 && Vol(disk).super.lastMount == now
    ensures r.Ok? && Vol(disk).super.totalBlocks != U32_MAX ==>
              CrashSafe(Vol(disk)) && Named(Vol(disk)) && Contents(Vol(disk)) == map[]
    ensures r.Err? ==> r.error == DeviceError
    ensures r == Err(DeviceError) ==> !disk.device.reliable
  {
    hide View, Contents, Cleared, NewSuperblock, FormatSteps, FormatBootSteps, DescribesNew, UniqueNames, GoodNames, SectorCache.BlockCache.Valid;
    ghost var was, n := Vol(disk), |disk.device.history|;
    var f := FormatDisk(disk, now);
    ghost var h := disk.device.history;
    FormatOnly(h, n, was, |disk.device.sectors|, now);
    if f.Err? {
      return Err(f.error);
    }
    disk.ResetCache();
    ghost var v := Vol(disk);
    NewIsValid(|disk.device.sectors|, now);
    ClearedSuper(old(Vol(disk)).(super := NewSuperblock(|disk.device.sectors|, now)), MAX_FILES);
    var m := MarkMounted(disk, now);
    if m.Err? {
      return Err(m.error);
    }
    MountDescribes(v, Vol(disk), |disk.device.sectors|, now);
    FormatThenMount(h, n, was, |disk.device.sectors|, now, disk.device.sectors);
    if Vol(disk).super.totalBlocks != U32_MAX {
      CleanCountsTrue(v);
    }
    return Ok(0);
  }

  lemma MountDescribes(v: Volume, v': Volume, sectors: nat, now: u64)
    requires IsMountOf(v, v') && DescribesNew(v.super, sectors, now)
    ensures DescribesNew(v'.super, sectors, now)
  {
  }

  lemma NewIsValid(sectors: u64, now: u64)
    ensures NewSuperblock(sectors, now).IsValid() && NewSuperblock(sectors, now).state == CLEAN
  {
  }

  lemma ClearedSuper(v: Volume, j: nat)
    requires j <= |v.table|
    ensures Cleared(v, j).super == v.super
  {
  }

  lemma CleanCountsTrue(v: Volume)
    requires CrashSafe(v) && v.super.state == CLEAN
    ensures TrueCounts(v)
  {
  }

  /**
   A boot, from whatever stands on the medium. A volume with a valid superblock is never
   formatted, so no crash of an update can lose it; without one it ends empty. From a sound
   volume no file changes, each name loads from the last slot that gives it, and with one that
   holds a snapshot the files loaded are the stored ones.
   */
  method Init(disk: Disk, now: u64, ghost snapshot: F.Files) returns (r: Result<nat, DiskError>, fs: F.WarFS)
    requires disk.device.Recorded() && |disk.device.sectors| >= DATA_START
    requires |disk.device.sectors| < U64_MODULUS || View(disk.device.sectors).super.IsValid()
    modifies disk.cache, disk.device
    ensures Mounted(disk) && fs.Valid()
    ensures old(disk.device.history) <= disk.device.history
    ensures var was := old(View(disk.device.sectors));
            was.super.IsValid() ==> Vol(disk).table == was.table && Vol(disk).data == was.data && Vol(disk).super.IsValid()
    ensures var was := old(View(disk.device.sectors));
            !was.super.IsValid() ==>
              && fs.files == [] && |disk.device.sectors| < U64_MODULUS
              && FormatBootSteps(disk.device.history, |old(disk.device.history)|, was, |disk.device.sectors|, now)
              && (r.Ok? ==> r.value == 0 && FormattedBy(was, Vol(disk), |disk.device.sectors|, now))
              && (r.Ok? ==> DescribesNew(Vol(disk).super, |disk.device.sectors|, now)
                            && Vol(disk).super.mountCount == 1 && Vol(disk).super.lastMount == now)
              && (r.Ok? && Vol(disk).super.totalBlocks != U32_MAX ==>
                    CrashSafe(Vol(disk)) && Named(Vol(disk)) && Contents(Vol(disk)) == map[])
              && (r.Err? ==> r.error == DeviceError)
    ensures var was := old(View(disk.device.sectors));
            Sound(was) ==>
              && Sound(Vol(disk)) && Contents(Vol(disk)) == Contents(was)
              && AccountedSince(disk.device.history, |old(disk.device.history)|)
              && (r.Ok? ==> LoadedSoFar(Vol(disk), [], fs.files, MAX_FILES))
              && (Holds(was, snapshot) ==>
                    && (r.Ok? ==> fs.files == Restored(snapshot) && r.value == |fs.files|)
                    && (r.Err? ==> r.error == DeviceError))
    ensures r == Err(DeviceError) ==> !disk.device.reliable
  {
    hide View, Contents, CrashSafe, Restored, Accounted, Holds, Named, FormattedBy, FormatBootSteps, DescribesNew, LoadedSoFar, SectorCache.BlockCache.Valid;
    ghost var v, h := View(disk.device.sectors), disk.device.history;
    if |disk.device.sectors| < U64_MODULUS {
      NoFormatYet(h, v, |disk.device.sectors|, now);
    }
    disk.ResetCache();
    fs := new F.WarFS();
    var sb := ReadSuperblock(disk);
    if sb == Err(FormatError) {
      r := FormatAndMount(disk, now);
      return;
    }
    if sb.Err? {
      return Err(sb.error), fs;
    }
    r := MountAndLoad(disk, fs, now, snapshot);
  }

  lemma NoFormatYet(history: seq<Image>, v: Volume, sectors: u64, now: u64)
    requires |v.table| == MAX_FILES
    ensures FormatBootSteps(history, |history|, v, sectors, now)
  {
  }

  /** The branch that keeps the volume. */
  method MountAndLoad(disk: Disk, fs: F.WarFS, now: u64, ghost snapshot: F.Files) returns (r: Result<nat, DiskError>)
    requires Mounted(disk) && Vol(disk).super.IsValid() && fs.Valid() && fs.files == []
    modifies disk.cache, disk.device, fs
    ensures Mounted(disk) && fs.Valid()
    ensures old(disk.device.history) <= disk.device.history
    ensures Vol(disk).table == old(Vol(disk)).table && Vol(disk).data == old(Vol(disk)).data && Vol(disk).super.IsValid()
    ensures Sound(old(Vol(disk))) ==>
              && Sound(Vol(disk)) && Contents(Vol(disk)) == Contents(old(Vol(disk)))
              && AccountedSince(disk.device.history, |old(disk.device.history)|)
              && (r.Ok? ==> LoadedSoFar(Vol(disk), [], fs.files, MAX_FILES))
              && (Holds(old(Vol(disk)), snapshot) ==>
                    && (r.Ok? ==> fs.files == Restored(snapshot) && r.value == |fs.files|)
                    && (r.Err? ==> r.error == DeviceError))
    ensures r == Err(DeviceError) ==> !disk.device.reliable
  {
    hide View, Contents, CrashSafe, Restored, AccountedSince, Holds, LoadedSoFar, SectorCache.BlockCache.Valid;
    ghost var v, h := Vol(disk), disk.device.history;
    NothingMounted(h);
    var m := MarkMounted(disk, now);
    if m.Err? {
      return Err(m.error);
    }
    if Sound(v) {
      MountAccounted(h, disk.device.sectors);
      HoldsStill(v, Vol(disk), snapshot);
    }
    r := LoadFilesystem(disk, fs, snapshot);
  }

  lemma NothingMounted(history: seq<Image>)
    requires history != []
    ensures AccountedSince(history, |history|)
  {
  }

  lemma MountAccounted(history: seq<Image>, image: Image)
    requires history != [] && |history[|history| - 1]| >= DATA_START && |image| >= DATA_START
    requires Sound(View(image)) && IsMountOf(View(history[|history| - 1]), View(image))
    ensures AccountedSince(history + [image], |history|)
  {
    hide View, Sound, IsMountOf, CrashSafe;
    assert (history + [image])[|history| - 1] == history[|history| - 1];
  }

  /** A disk another system left: no superblock of ours, and a sector that reads as a slot of ours. */
  function UsedDisk(): Volume {
    LetterVolume().(super := LetterVolume().super.(magic := 0))
  }

  /**
   Power fails after the first write of its first format: the superblock is valid, so no boot
   formats the disk again, and what was in the way is a file from then on.
   */
  lemma FirstFormatCut(now: u64)
    ensures !UsedDisk().super.IsValid()
    ensures var v := Cleared(UsedDisk().(super := NewSuperblock(137, now)), 0);
            v.super.IsValid() && Sound(v) && !CrashSafe(v) && Ascii("/x") in Contents(v)
  {
    hide SumBlocks, CountActive, NameField96, FileBytes, Contents, Cleared, NewSuperblock, UsedDisk, Inside, Disjoint, Sized;
    var v := UsedDisk().(super := NewSuperblock(137, now));
    UsedSlots();
    LetterRoom(now);
    NoneCleared(v);
    LetterAlone(v.table);
    assert v.table[0..] == v.table;
    FormatStopped(v, 0);
    LetterThere(v);
  }

  lemma UsedSlots()
    ensures var v := UsedDisk();
            && !v.super.IsValid() && |v.table| == MAX_FILES && |v.data| == SECTORS_PER_BLOCK
            && v.table[0] == Letter() && forall i | 0 < i < MAX_FILES :: v.table[i] == Inactive()
  {
  }

  lemma LetterRoom(now: u64)
    ensures var sb := NewSuperblock(137, now);
            && sb.IsValid() && sb.totalBlocks == 1 && sb.state == CLEAN && sb.usedBlocks == 0 && sb.fileCount == 0
  {
  }

  lemma LetterAlone(table: seq<DiskFileEntry>)
    requires |table| == MAX_FILES && table[0] == Letter() && forall i | 0 < i < MAX_FILES :: table[i] == Inactive()
    ensures Inside(table, 1) && Disjoint(table) && Sized(table)
  {
  }

  lemma LetterThere(v: Volume)
    requires Sound(v) && v.table[0] == Letter()
    ensures Ascii("/x") in Contents(v)
  {
    LetterName();
    assert HasName(v.table, 0, Ascii("/x"));
    NamesExact(v.table, Ascii("/x"));
  }

  lemma LetterName()
    ensures NameOf(Letter()) == Ascii("/x")
  {
    assert Ascii("/x") == [47, 120];
    StoredName(Letter(), Ascii("/x"));
  }

  lemma HoldsStill(v: Volume, v': Volume, snapshot: F.Files)
    requires Sound(v) && Sound(v') && v'.table == v.table && Contents(v') == Contents(v)
    ensures Holds(v, snapshot) ==> Holds(v', snapshot)
  {
    hide Contents, F.Legal;
  }
}
