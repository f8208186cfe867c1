/**
 The block device and the write-through sector cache in front of it
 (kernel/src/disk/cache.rs, kernel/src/disk/mod.rs).
 */
module SectorCache {
  import opened Bytes
  import opened Arith
  import opened Errors
  import opened DiskLayout
  import opened Volumes
  import opened Recency

  /**
   The virtio block device: a row of sectors. Any request may fail, unless the device is a
   reliable one; a request that fails leaves the medium as it was. `history` records every image the medium has held, one per
   completed sector write, so that a crash between two writes is an index into it.
   */
  class VirtioBlk {
    const reliable: bool
    var sectors: Image
    var history: seq<Image>

    /** The record ends with what the medium holds now. */
    ghost predicate Recorded()
      reads this
    {
      history != [] && history[|history| - 1] == sectors
    }

    constructor (image: Image, reliable: bool)
      ensures sectors == image && history == [image] && this.reliable == reliable
    {
      sectors, history, this.reliable := image, [image], reliable;
    }

    method ReadSector(sector: nat) returns (r: Result<Sector, DiskError>)
      ensures r.Ok? ==> sector < |sectors| && r.value == sectors[sector]
      ensures r.Err? ==> r.error == if sector < |sectors| then DeviceError else OutOfBounds
      ensures r == Err(DeviceError) ==> !reliable
    {
      if sector >= |sectors| {
        return Err(OutOfBounds);
      }
      var faulty: bool := *;
      return if faulty && !reliable then Err(DeviceError) else Ok(sectors[sector]);
    }

    method WriteSector(sector: nat, data: Sector) returns (r: Result<(), DiskError>)
      modifies this
      ensures |sectors| == |old(sectors)|
      ensures r.Ok? ==> sector < |sectors|
                        && sectors == old(sectors)[sector := data] && history == old(history) + [sectors]
      ensures r.Err? ==> sectors == old(sectors) && history == old(history)
      ensures r.Err? ==> r.error == if sector < |sectors| then DeviceError else OutOfBounds
      ensures r == Err(DeviceError) ==> !reliable
    {
      if sector >= |sectors| {
        return Err(OutOfBounds);
      }
      var faulty: bool := *;
      if faulty && !reliable {
        return Err(DeviceError);
      }
      sectors := sectors[sector := data];
      history := history + [sectors];
      return Ok(());
    }

    /** Power fails: only the first `images` recorded images were ever reached. */
    method LosePower(images: nat)
      requires 0 < images <= |history|
      modifies this
      ensures Recorded() && sectors == old(history)[images - 1] && history == old(history)[..images]
    {
      sectors, history := history[images - 1], history[..images];
    }
  }

  datatype CacheEntry = CacheEntry(sector: nat, data: Sector, dirty: bool, generation: u64)

  // ---------- the entry list ----------

  /** Index of the entry for `sector`, or the length of the list. */
  function Position(entries: seq<CacheEntry>, sector: nat): (i: nat)
    ensures i <= |entries|
    ensures i < |entries| ==> entries[i].sector == sector
    ensures forall j | 0 <= j < i :: entries[j].sector != sector
  {
    if entries == [] || entries[0].sector == sector then 0 else 1 + Position(entries[1..], sector)
  }

  /** Index of the first entry with the least generation. */
  function Victim(entries: seq<CacheEntry>): (k: nat)
    requires entries != []
    ensures k < |entries|
    ensures forall j | 0 <= j < |entries| :: entries[k].generation <= entries[j].generation
  {
    var last := |entries| - 1;
    if last == 0 then 0
    else
      var k := Victim(entries[..last]);
      if entries[last].generation < entries[k].generation then last else k
  }

  /** The entry list after `BlockCache::insert`. */
  function Inserted(entries: seq<CacheEntry>, capacity: nat, e: CacheEntry): seq<CacheEntry> {
    var i := Position(entries, e.sector);
    if i < |entries| then entries[i := e]
    else if |entries| < capacity then entries + [e]
    else if entries == [] then entries
    else entries[Victim(entries) := e]
  }

  predicate Distinct(entries: seq<CacheEntry>) {
    forall i, j | 0 <= i < j < |entries| :: entries[i].sector != entries[j].sector
  }

  /** Nothing waits to be written back. */
  predicate NoneDirty(entries: seq<CacheEntry>) {
    forall i | 0 <= i < |entries| :: !entries[i].dirty
  }

  function Sectors(entries: seq<CacheEntry>): set<nat> {
    set i | 0 <= i < |entries| :: entries[i].sector
  }

  /** Every cached copy is what the device holds. */
  predicate Mirrors(entries: seq<CacheEntry>, image: Image) {
    forall i | 0 <= i < |entries| ::
      entries[i].sector < |image| && entries[i].data == image[entries[i].sector]
  }

  /** Every cached copy but that of `sector` is what the device holds. */
  predicate MirrorsBut(entries: seq<CacheEntry>, image: Image, sector: nat) {
    forall i | 0 <= i < |entries| && entries[i].sector != sector ::
      entries[i].sector < |image| && entries[i].data == image[entries[i].sector]
  }

  /** The cached sectors are the most recently accessed ones, stamped in order of access. */
  predicate IsLru(entries: seq<CacheEntry>, capacity: nat, accesses: seq<nat>, stamps: seq<nat>) {
    && |stamps| == |accesses|
    && (forall i, j | 0 <= i < j < |stamps| :: stamps[i] < stamps[j])
    && Sectors(entries) == Keep(accesses, capacity)
    && forall i | 0 <= i < |entries| ::
         entries[i].sector in accesses && entries[i].generation == stamps[Last(accesses, entries[i].sector)]
  }

  lemma {:induction false} SectorsSize(entries: seq<CacheEntry>)
    requires Distinct(entries)
    ensures |Sectors(entries)| == |entries|
  {
    if entries != [] {
      var n := |entries| - 1;
      SectorsSize(entries[..n]);
      assert Sectors(entries) == Sectors(entries[..n]) + {entries[n].sector};
    }
  }

  lemma InsertedDistinct(entries: seq<CacheEntry>, capacity: nat, e: CacheEntry)
    requires Distinct(entries) && |entries| <= capacity
    ensures Distinct(Inserted(entries, capacity, e)) && |Inserted(entries, capacity, e)| <= capacity
  {
  }

  lemma InsertedClean(entries: seq<CacheEntry>, capacity: nat, e: CacheEntry)
    requires NoneDirty(entries) && !e.dirty
    ensures NoneDirty(Inserted(entries, capacity, e))
  {
  }

  lemma InsertedMirrors(entries: seq<CacheEntry>, capacity: nat, e: CacheEntry, image: Image)
    requires Distinct(entries)
    requires e.sector < |image| && e.data == image[e.sector] && MirrorsBut(entries, image, e.sector)
    ensures Mirrors(Inserted(entries, capacity, e), image)
  {
    var i := Position(entries, e.sector);
    assert forall j | 0 <= j < |entries| && j != i :: entries[j].sector != e.sector;
  }

  lemma WrittenMirrors(entries: seq<CacheEntry>, image: Image, sector: nat, data: Sector)
    requires Mirrors(entries, image) && sector < |image|
    ensures MirrorsBut(entries, image[sector := data], sector)
  {
  }

  lemma InsertedMirrorsAll(entries: seq<CacheEntry>, capacity: nat, e: CacheEntry)
    requires Distinct(entries)
    ensures forall image: Image | MirrorsBut(entries, image, e.sector) && e.sector < |image| && e.data == image[e.sector] ::
              Mirrors(Inserted(entries, capacity, e), image)
  {
    hide Distinct, Inserted, Mirrors, MirrorsBut;
    forall image: Image | MirrorsBut(entries, image, e.sector) && e.sector < |image| && e.data == image[e.sector]
      ensures Mirrors(Inserted(entries, capacity, e), image)
    {
      InsertedMirrors(entries, capacity, e, image);
    }
  }

  lemma PositionFound(entries: seq<CacheEntry>, sector: nat)
    ensures sector in Sectors(entries) <==> Position(entries, sector) < |entries|
  {
  }

  lemma AppendedSectors(entries: seq<CacheEntry>, e: CacheEntry)
    ensures Sectors(entries + [e]) == Sectors(entries) + {e.sector}
  {
    var entries' := entries + [e];
    assert entries'[|entries|] == e;
    assert forall j | 0 <= j < |entries| :: entries'[j] == entries[j];
  }

  lemma ReplacedSectors(entries: seq<CacheEntry>, k: nat, e: CacheEntry)
    requires Distinct(entries) && k < |entries|
    ensures Sectors(entries[k := e]) == Sectors(entries) - {entries[k].sector} + {e.sector}
  {
    var entries' := entries[k := e];
    assert entries'[k] == e;
    assert forall j | 0 <= j < |entries| && j != k :: entries'[j] == entries[j];
  }

  /** One access keeps the cache exactly LRU. */
  lemma InsertedIsLru(entries: seq<CacheEntry>, capacity: nat, e: CacheEntry, accesses: seq<nat>, stamps: seq<nat>)
    requires Distinct(entries) && |entries| <= capacity
    requires IsLru(entries, capacity, accesses, stamps)
    requires forall i | 0 <= i < |stamps| :: stamps[i] < e.generation
    ensures IsLru(Inserted(entries, capacity, e), capacity, accesses + [e.sector], stamps + [e.generation])
  {
    hide Distinct, Keep, Sectors, Inserted;
    InsertedSectors(entries, capacity, e, accesses, stamps);
    InsertedStamps(entries, capacity, e, accesses, stamps);
  }

  lemma InsertedSectors(entries: seq<CacheEntry>, capacity: nat, e: CacheEntry, accesses: seq<nat>, stamps: seq<nat>)
    requires Distinct(entries) && |entries| <= capacity && IsLru(entries, capacity, accesses, stamps)
    ensures Sectors(Inserted(entries, capacity, e)) == Keep(accesses + [e.sector], capacity)
  {
    hide Keep, Distinct, Sectors, IsLru;
    var s := e.sector;
    LruSectors(entries, capacity, accesses, stamps);
    SectorsSize(entries);
    KeepSize(accesses, capacity);
    PositionFound(entries, s);
    if s in Sectors(entries) {
      ReplacedSectors(entries, Position(entries, s), e);
      TouchKept(accesses, s, capacity);
    } else if |entries| < capacity {
      AppendedSectors(entries, e);
      TouchWithRoom(accesses, s, capacity);
    } else if capacity > 0 {
      ReplacedSectors(entries, Victim(entries), e);
      VictimIsOldest(entries, capacity, accesses, stamps);
      TouchWhenFull(accesses, s, capacity, entries[Victim(entries)].sector);
    } else {
      KeepSize(accesses + [s], 0);
    }
  }

  lemma LruSectors(entries: seq<CacheEntry>, capacity: nat, accesses: seq<nat>, stamps: seq<nat>)
    requires IsLru(entries, capacity, accesses, stamps)
    ensures Sectors(entries) == Keep(accesses, capacity)
  {
  }

  lemma VictimIsOldest(entries: seq<CacheEntry>, capacity: nat, accesses: seq<nat>, stamps: seq<nat>)
    requires Distinct(entries) && entries != []
    requires IsLru(entries, capacity, accesses, stamps)
    ensures var v := entries[Victim(entries)].sector;
            && v in Keep(accesses, capacity)
            && forall x | x in Keep(accesses, capacity) && x != v :: Last(accesses, v) < Last(accesses, x)
  {
    var k := Victim(entries);
    var v := entries[k].sector;
    forall x | x in Keep(accesses, capacity) && x != v
      ensures Last(accesses, v) < Last(accesses, x)
    {
      assert x in Sectors(entries);
      var i :| 0 <= i < |entries| && entries[i].sector == x;
      LastDiffers(accesses, v, x);
      assert stamps[Last(accesses, v)] <= stamps[Last(accesses, x)];
    }
  }

  lemma InsertedStamps(entries: seq<CacheEntry>, capacity: nat, e: CacheEntry, accesses: seq<nat>, stamps: seq<nat>)
    requires Distinct(entries) && |entries| <= capacity
    requires IsLru(entries, capacity, accesses, stamps)
    ensures var accesses', stamps', entries' :=
              accesses + [e.sector], stamps + [e.generation], Inserted(entries, capacity, e);
            forall i | 0 <= i < |entries'| ::
              && entries'[i].sector in accesses'
              && entries'[i].generation == stamps'[Last(accesses', entries'[i].sector)]
  {
    var accesses', stamps', entries' :=
      accesses + [e.sector], stamps + [e.generation], Inserted(entries, capacity, e);
    forall i | 0 <= i < |entries'|
      ensures entries'[i].sector in accesses'
      ensures entries'[i].generation == stamps'[Last(accesses', entries'[i].sector)]
    {
      assert entries'[i] == e || (entries'[i] == entries[i] && entries[i].sector != e.sector);
      assert accesses'[|accesses|] == e.sector;
      LastAppend(accesses, entries'[i].sector, e.sector);
    }
  }

  // ---------- the cache ----------

  class BlockCache {
    var entries: seq<CacheEntry>
    const capacity: nat
    var generation: u64

    /** Sectors accessed since the last clear, oldest first, and the draw each got. */
    ghost var accesses: seq<nat>
    ghost var stamps: seq<nat>
    /** Generations drawn since the last clear, not wrapped to 64 bits. */
    ghost var draws: nat

    ghost predicate Valid()
      reads this
    {
      && Distinct(entries) && |entries| <= capacity && NoneDirty(entries)
      && generation == draws % U64_MODULUS
      && |stamps| == |accesses|
      && (forall i | 0 <= i < |stamps| :: stamps[i] <= draws)
      && (draws < U64_MODULUS ==> IsLru(entries, capacity, accesses, stamps))
    }

    ghost predicate Coherent(device: VirtioBlk)
      reads this, device
    {
      Valid() && device.Recorded() && Mirrors(entries, device.sectors)
    }

    /**
     Until the 64-bit counter wraps, the cached sectors are exactly the most recently
     accessed distinct ones: as many as fit, each accessed after every one left out.
     */
    lemma ExactlyLru()
      requires Valid() && draws < U64_MODULUS
      ensures |entries| == if |Elements(accesses)| < capacity then |Elements(accesses)| else capacity
      ensures Sectors(entries) <= Elements(accesses)
      ensures forall x, y | x in Sectors(entries) && y in accesses && y !in Sectors(entries) ::
                Last(accesses, y) < Last(accesses, x)
    {
      SectorsSize(entries);
      KeepSize(accesses, capacity);
      SubsetSize(Keep(accesses, capacity), Elements(accesses));
      forall x, y | x in Sectors(entries) && y in accesses && y !in Sectors(entries)
        ensures Last(accesses, y) < Last(accesses, x)
      {
        LastDiffers(accesses, x, y);
        if Last(accesses, x) < Last(accesses, y) {
          KeepUpward(accesses, capacity, x, y);
        }
      }
    }

    constructor (capacity: nat)
      ensures Valid() && this.capacity == capacity && entries == [] && accesses == []
    {
      this.capacity := capacity;
      entries, generation := [], 0;
      accesses, stamps, draws := [], [], 0;
    }

    method Clear()
      modifies this
      ensures Valid() && entries == [] && accesses == [] && draws == 0
    {
      entries, generation := [], 0;
      accesses, stamps, draws := [], [], 0;
    }

    /** Write-through: there is nothing to write back, and no flag to reset. */
    method Flush()
      requires Valid()
      modifies `entries
      ensures Valid() && NoneDirty(entries) && entries == old(entries)
    {
      var clean := [];
      for i := 0 to |entries|
        invariant |clean| == i
        invariant forall k | 0 <= k < i :: clean[k] == entries[k].(dirty := false)
        invariant entries == old(entries)
      {
        clean := clean + [entries[i].(dirty := false)];
      }
      entries := clean;
    }

    method NextGeneration() returns (g: u64)
      requires Valid()
      modifies `generation, `draws
      ensures Valid() && draws == old(draws) + 1 && g == generation
      ensures draws < U64_MODULUS ==> g == draws
    {
      hide IsLru, Distinct, NoneDirty;
      generation := (generation + 1) % U64_MODULUS;
      draws := draws + 1;
      g := generation;
    }

    /** One access: `e` joins the list and the recency record, and the cache stays exactly LRU. */
    method Insert(e: CacheEntry)
      requires Valid() && e.generation == generation && !e.dirty
      requires forall i | 0 <= i < |stamps| :: stamps[i] < draws
      modifies `entries, `accesses, `stamps
      ensures Valid()
      ensures entries == Inserted(old(entries), capacity, e)
      ensures forall image: Image | MirrorsBut(old(entries), image, e.sector)
                && e.sector < |image| && e.data == image[e.sector] :: Mirrors(entries, image)
      ensures accesses == old(accesses) + [e.sector]
    {
      hide IsLru, Distinct, Inserted, Keep, Mirrors, MirrorsBut, NoneDirty;
      InsertedDistinct(entries, capacity, e);
      InsertedClean(entries, capacity, e);
      InsertedMirrorsAll(entries, capacity, e);
      if draws < U64_MODULUS {
        InsertedIsLru(entries, capacity, e, accesses, stamps);
      }
      Place(e);
      accesses, stamps := accesses + [e.sector], stamps + [draws];
    }

    /** Put `e` in the list, displacing the entry with the least generation when it is full. */
    method Place(e: CacheEntry)
      modifies `entries
      ensures entries == Inserted(old(entries), capacity, e)
    {
      var i := Find(e.sector);
      if i < |entries| {
        entries := entries[i := e];
      } else if |entries| < capacity {
        entries := entries + [e];
      } else if entries != [] {
        var victim := FindVictim();
        entries := entries[victim := e];
      }
    }

    method FindVictim() returns (victim: nat)
      requires entries != []
      ensures victim == Victim(entries)
    {
      victim := 0;
      for k := 1 to |entries|
        invariant victim == Victim(entries[..k])
      {
        assert entries[..k + 1][..k] == entries[..k];
        if entries[k].generation < entries[victim].generation {
          victim := k;
        }
      }
      assert entries[..|entries|] == entries;
    }

    method Find(sector: nat) returns (i: nat)
      ensures i == Position(entries, sector)
    {
      i := 0;
      while i < |entries| && entries[i].sector != sector
        invariant i <= |entries|
        invariant forall j | 0 <= j < i :: entries[j].sector != sector
      {
        i := i + 1;
      }
    }

    /** A successful read returns what the bare device holds, from the cache or from the device. */
    method ReadSector(device: VirtioBlk, sector: nat) returns (r: Result<Sector, DiskError>)
      requires Coherent(device)
      modifies this
      ensures Coherent(device)
      ensures r.Ok? ==> sector < |device.sectors| && r.value == device.sectors[sector]
      ensures r.Err? ==> r.error == if sector < |device.sectors| then DeviceError else OutOfBounds
      ensures r.Err? ==> entries == old(entries)
      ensures accesses == if r.Ok? then old(accesses) + [sector] else old(accesses)
      ensures r == Err(DeviceError) ==> !device.reliable
      ensures (exists i | 0 <= i < |old(entries)| :: old(entries)[i].sector == sector) ==> r.Ok?
    {
      hide IsLru, Distinct, Inserted, Keep;
      var g := NextGeneration();
      var i := Find(sector);
      if i < |entries| {
        r := Ok(entries[i].data);
        Insert(entries[i].(generation := g));
        return;
      }
      r := device.ReadSector(sector);
      if r.Ok? {
        Insert(CacheEntry(sector, r.value, false, g));
      }
    }

    /** The device is written first, so a failed write leaves cache and device in step. */
    method WriteSector(device: VirtioBlk, sector: nat, data: Sector) returns (r: Result<(), DiskError>)
      requires Coherent(device)
      modifies this, device
      ensures Coherent(device)
      ensures |device.sectors| == |old(device.sectors)|
      ensures r.Ok? ==> sector < |device.sectors|
                        && device.sectors == old(device.sectors)[sector := data]
                        && device.history == old(device.history) + [device.sectors]
      ensures r.Err? ==> device.sectors == old(device.sectors) && device.history == old(device.history)
      ensures r.Err? ==> r.error == if sector < |device.sectors| then DeviceError else OutOfBounds
      ensures r.Err? ==> entries == old(entries)
      ensures accesses == if r.Ok? then old(accesses) + [sector] else old(accesses)
      ensures r == Err(DeviceError) ==> !device.reliable
    {
      hide IsLru, Distinct, Inserted, Keep, Mirrors, MirrorsBut, NoneDirty;
      ghost var image := device.sectors;
      r := device.WriteSector(sector, data);
      if r.Ok? {
        WrittenMirrors(entries, image, sector, data);
        var g := NextGeneration();
        Insert(CacheEntry(sector, data, false, g));
      }
    }

    /** Several sectors in a row; the bytes are those of the device, whatever was cached. */
    method ReadSectors(device: VirtioBlk, sector: nat, count: u32, bufferLen: nat)
      returns (r: Result<seq<byte>, DiskError>)
      requires Coherent(device)
      modifies this
      ensures Coherent(device)
      ensures r.Ok? ==> sector + count <= |device.sectors| + (if count == 0 then sector else 0)
      ensures r.Ok? && count > 0 ==> r.value == Flatten(device.sectors[sector..sector + count])
      ensures r.Ok? && count == 0 ==> r.value == []
      ensures r == Err(BufferTooSmall) <==> bufferLen < 512 * count
      ensures r.Err? && 512 * count <= bufferLen && sector + count <= |device.sectors| ==> r.error == DeviceError
      ensures r == Err(DeviceError) ==> !device.reliable
    {
      hide BlockCache.Coherent;
      if bufferLen < count * SECTOR_SIZE {
        return Err(BufferTooSmall);
      }
      var bytes: seq<byte> := [];
      for index := 0 to count
        invariant Coherent(device) && bufferLen >= 512 * count
        invariant index > 0 ==> sector + index <= |device.sectors|
        invariant index > 0 ==> bytes == Flatten(device.sectors[sector..sector + index])
        invariant index == 0 ==> bytes == []
      {
        var s :- ReadSector(device, sector + index);
        FlattenAppend(device.sectors[sector..sector + index], s);
        assert device.sectors[sector..sector + index] + [s] == device.sectors[sector..sector + index + 1];
        bytes := bytes + s;
      }
      return Ok(bytes);
    }

    /**
     Several sectors in a row, one device write each. `done` of them reached the medium, in
     order, and all of them when the result is Ok.
     */
    method WriteSectors(device: VirtioBlk, sector: nat, count: u32, buffer: seq<byte>)
      returns (r: Result<(), DiskError>, ghost done: nat)
      requires Coherent(device)
      modifies this, device
      ensures Coherent(device)
      ensures r == Err(BufferTooSmall) <==> |buffer| < 512 * count
      ensures |buffer| < 512 * count ==> done == 0 && device.history == old(device.history) && device.sectors == old(device.sectors)
      ensures |buffer| >= 512 * count ==> Wrote(old(device.history), device.history,
                                                old(device.sectors), device.sectors, sector, Cut(buffer, count), done)
      ensures r.Ok? ==> done == count
      ensures r.Err? && |buffer| >= 512 * count ==> done < count
      ensures r.Err? && |buffer| >= 512 * count ==>
                r.error == DeviceError || (r.error == OutOfBounds && sector + count > |device.sectors|)
      ensures r == Err(DeviceError) ==> !device.reliable
    {
      hide IsLru, Distinct, Mirrors, Keep;
      done := 0;
      if |buffer| < count * SECTOR_SIZE {
        return Err(BufferTooSmall), 0;
      }
      ghost var run := Cut(buffer, count);
      assert sector <= |device.sectors| ==> Patch(device.sectors, sector, run, 0) == device.sectors;
      for index := 0 to count
        invariant Coherent(device)
        invariant done == index
        invariant Wrote(old(device.history), device.history,
                        old(device.sectors), device.sectors, sector, run, done)
      {
        var piece: Sector := buffer[SECTOR_SIZE * index..SECTOR_SIZE * (index + 1)];
        assert piece == run[index];
        ghost var before, image := device.history, device.sectors;
        var w := WriteSector(device, sector + index, piece);
        if w.Err? {
          return Err(w.error), done;
        }
        WroteNext(old(device.history), before, old(device.sectors), image, sector, run, index);
        done := done + 1;
      }
      return Ok(()), done;
    }
  }

  /** The first `done` sectors of `run` reached the medium one by one, and nothing else did. */
  ghost predicate Wrote(history: seq<Image>, history': seq<Image>, image: Image, image': Image,
                        at: nat, run: seq<Sector>, done: nat) {
    && done <= |run|
    && (if done == 0 then image' == image else at + done <= |image| && image' == Patch(image, at, run, done))
    && |history'| == |history| + done
    && history <= history'
    && forall i | 1 <= i <= done :: history'[|history| + i - 1] == Patch(image, at, run, i)
  }

  lemma WroteNext(history: seq<Image>, history': seq<Image>, image: Image, image': Image,
                  at: nat, run: seq<Sector>, n: nat)
    requires Wrote(history, history', image, image', at, run, n)
    requires n < |run| && at + n < |image|
    ensures |image'| == |image|
    ensures var next := image'[at + n := run[n]];
            Wrote(history, history' + [next], image, next, at, run, n + 1)
  {
    assert n == 0 ==> Patch(image, at, run, 0) == image;
    assert image'[at + n := run[n]] == Patch(image, at, run, n + 1);
  }

  lemma {:induction false} FlattenAppend(sectors: seq<Sector>, s: Sector)
    ensures Flatten(sectors + [s]) == Flatten(sectors) + s
  {
    if sectors == [] {
      assert sectors + [s] == [s];
      assert [s][1..] == [];
    } else {
      FlattenAppend(sectors[1..], s);
      assert (sectors + [s])[1..] == sectors[1..] + [s];
    }
  }

  /** A device with its cache, as the filesystem code sees it. */
  class Disk {
    const device: VirtioBlk
    const cache: BlockCache

    ghost predicate Valid()
      reads device, cache
    {
      cache.Coherent(device)
    }

    constructor (device: VirtioBlk)
      requires device.Recorded()
      ensures Valid() && this.device == device && fresh(cache) && cache.capacity == 64
    {
      this.device := device;
      this.cache := new BlockCache(64);
    }

    method ReadSectors(sector: nat, count: u32, bufferLen: nat) returns (r: Result<seq<byte>, DiskError>)
      requires Valid()
      modifies cache
      ensures Valid()
      ensures r.Ok? ==> sector + count <= |device.sectors| + (if count == 0 then sector else 0)
      ensures r.Ok? && count > 0 ==> r.value == Flatten(device.sectors[sector..sector + count])
      ensures r.Ok? && count == 0 ==> r.value == []
      ensures r == Err(BufferTooSmall) <==> bufferLen < 512 * count
      ensures r.Err? && 512 * count <= bufferLen && sector + count <= |device.sectors| ==> r.error == DeviceError
      ensures r == Err(DeviceError) ==> !device.reliable
    {
      r := cache.ReadSectors(device, sector, count, bufferLen);
    }

    method WriteSectors(sector: nat, count: u32, buffer: seq<byte>)
      returns (r: Result<(), DiskError>, ghost done: nat)
      requires Valid()
      modifies cache, device
      ensures Valid()
      ensures r == Err(BufferTooSmall) <==> |buffer| < 512 * count
      ensures |buffer| < 512 * count ==> done == 0 && device.history == old(device.history) && device.sectors == old(device.sectors)
      ensures |buffer| >= 512 * count ==> Wrote(old(device.history), device.history,
                                                old(device.sectors), device.sectors, sector, Cut(buffer, count), done)
      ensures r.Ok? ==> done == count
      ensures r.Err? && |buffer| >= 512 * count ==> done < count
      ensures r.Err? && |buffer| >= 512 * count ==>
                r.error == DeviceError || (r.error == OutOfBounds && sector + count > |device.sectors|)
      ensures r == Err(DeviceError) ==> !device.reliable
    {
      r, done := cache.WriteSectors(device, sector, count, buffer);
    }

    method Flush() returns (r: Result<(), DiskError>)
      requires Valid()
      modifies cache
      ensures Valid() && r.Ok? && cache.entries == old(cache.entries)
    {
      cache.Flush();
      return Ok(());
    }

    method ResetCache()
      requires device.Recorded()
      modifies cache
      ensures Valid()
    {
      cache.Clear();
    }
  }
}
