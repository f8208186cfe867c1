/**
 Whole sessions of the persistent store: any sequence of saves, deletes and syncs
 (kernel/src/disk/persist.rs), with device faults in any of them, power failing in the
 middle of any of them, and boots (kernel/src/disk/mod.rs) after each failure and between
 any two calls, which may fail themselves.

 Whatever happens, the volume stays sound, and each file is decided by the last call that
 touched it: if that call reported success the file is what the call asked for, and a file
 no call touched is what it was. A failed call can only hurt a file it would have changed.
 */
module DiskRuns {
  import opened Bytes
  import opened Errors
  import opened DiskLayout
  import opened Volumes
  import opened Images
  import opened SectorCache
  import opened Format
  import opened Persist
  import opened Repeats
  import opened Sync
  import opened LoadBack
  import opened Boot
  import F = WarFs

  datatype Call =
    | Save(file: F.FileEntry)
    | Remove(name: str)
    | SyncAll(files: F.Files)

  /** What the in-memory filesystem guarantees of the files it hands over. */
  ghost predicate Permitted(call: Call) {
    match call
    case Save(file) => F.GoodFile(file)
    case Remove(_) => true
    case SyncAll(files) => F.Legal(files)
  }

  /** The names the call stores fit the name field. */
  predicate Fits(call: Call) {
    match call
    case Save(file) => |file.name| <= 95
    case Remove(_) => true
    case SyncAll(files) => ShortNames(files)
  }

  predicate Touches(call: Call, name: str) {
    match call
    case Save(file) => file.name == name
    case Remove(n) => n == name
    case SyncAll(_) => true
  }

  /** What the call is asked to make of a file it touches. */
  function Asked(call: Call, name: str): Option<Record> {
    match call
    case Save(file) => Some(RecordFor(file))
    case Remove(_) => None
    case SyncAll(files) => LookUp(StoredMap(files), name)
  }

  /** A call without a mounted disk is not even tried. */
  datatype Outcome = Done | Failed | NotTried

  datatype Standing = Settled(file: Option<Record>) | InDoubt

  /** The call was made and is about this file. */
  predicate Reaches(call: Call, outcome: Outcome, name: str) {
    !outcome.NotTried? && Touches(call, name)
  }

  /** The last call that reached the file decides, unless it failed to change nothing. */
  function Expect(start: Option<Record>, calls: seq<Call>, outcomes: seq<Outcome>, name: str): Standing
    requires |calls| == |outcomes|
  {
    if calls == [] then Settled(start)
    else
      var n := |calls| - 1;
      var before := Expect(start, calls[..n], outcomes[..n], name);
      if !Reaches(calls[n], outcomes[n], name) then before
      else if outcomes[n].Done? || before == Settled(Asked(calls[n], name)) then Settled(Asked(calls[n], name))
      else InDoubt
  }

  /**
   The call at `i` decides when no later one reaches the file; without any, nothing changes.
   A failed call puts the file in doubt unless it asked for what was there.
   */
  lemma {:induction false} LastTouchDecides(
    start: Option<Record>, calls: seq<Call>, outcomes: seq<Outcome>, name: str, i: int)
    requires |calls| == |outcomes| && -1 <= i < |calls|
    requires i >= 0 ==> Reaches(calls[i], outcomes[i], name)
    requires forall j | i < j < |calls| :: !Reaches(calls[j], outcomes[j], name)
    ensures Expect(start, calls, outcomes, name) ==
            if i < 0 then Settled(start)
            else if outcomes[i].Done? || Expect(start, calls[..i], outcomes[..i], name) == Settled(Asked(calls[i], name))
              then Settled(Asked(calls[i], name))
            else InDoubt
    decreases |calls|
  {
    hide Asked, Reaches;
    var n := |calls| - 1;
    if i < n {
      LastTouchDecides(start, calls[..n], outcomes[..n], name, i);
      if i >= 0 {
        assert calls[..n][..i] == calls[..i] && outcomes[..n][..i] == outcomes[..i];
      }
    }
  }

  /** Every settled file is on the volume as settled. */
  ghost predicate Agrees(start: map<str, Record>, v: Volume, calls: seq<Call>, outcomes: seq<Outcome>)
    requires Volumes.Sound(v) && |calls| == |outcomes|
  {
    forall name :: var e := Expect(LookUp(start, name), calls, outcomes, name);
                   e.Settled? ==> LookUp(Contents(v), name) == e.file
  }

  // ---------- one call ----------

  /** The call asks for no change of this file. */
  ghost predicate Leaves(v: Volume, call: Call, name: str)
    requires Volumes.Sound(v)
  {
    !Touches(call, name) || LookUp(Contents(v), name) == Asked(call, name)
  }

  /** Files the call asks no change of are as they were. */
  ghost predicate Untouched(v: Volume, v': Volume, call: Call)
    requires Volumes.Sound(v) && Volumes.Sound(v')
  {
    && Named(v')
    && forall name | Leaves(v, call, name) :: LookUp(Contents(v'), name) == LookUp(Contents(v), name)
  }

  ghost predicate UntouchedImage(image: Image, v: Volume, call: Call)
    requires Volumes.Sound(v)
  {
    |image| >= DATA_START && Volumes.Sound(View(image)) && Untouched(v, View(image), call)
  }

  ghost predicate UntouchedSince(history: seq<Image>, n: nat, v: Volume, call: Call)
    requires Volumes.Sound(v)
  {
    forall k | n <= k < |history| :: UntouchedImage(history[k], v, call)
  }

  /** A save or delete that is atomic when it has nothing to change. */
  lemma ReachedUntouched(v: Volume, v': Volume, call: Call, name: str, calm: bool)
    requires Volumes.Sound(v) && Volumes.Sound(v') && !call.SyncAll? && Touches(call, name)
    requires LookUp(Contents(v), name) == Asked(call, name) ==> calm
    requires Reached(v, v', name, Asked(call, name), calm)
    ensures Untouched(v, v', call)
  {
    hide Contents, Named, RecordFor;
    forall other | Leaves(v, call, other)
      ensures LookUp(Contents(v'), other) == LookUp(Contents(v), other)
    {
      if other != name {
        OthersLookUp(v, v', name, other);
      } else {
        PutThere(Contents(v), name, Asked(call, name));
      }
    }
  }

  lemma PutThere(m: map<str, Record>, name: str, r: Option<Record>)
    requires LookUp(m, name) == r
    ensures Put(m, name, r) == m
  {
  }

  lemma ReachedUntouchedSince(history: seq<Image>, n: nat, v: Volume, call: Call, name: str, calm: bool)
    requires Volumes.Sound(v) && !call.SyncAll? && Touches(call, name)
    requires LookUp(Contents(v), name) == Asked(call, name) ==> calm
    requires ReachedSince(history, n, v, name, Asked(call, name), calm)
    ensures UntouchedSince(history, n, v, call)
  {
    hide View, Contents, SameOthers, Either, Untouched;
    forall k | n <= k < |history|
      ensures UntouchedImage(history[k], v, call)
    {
      assert KeepsOthers(history[k], v, name);
      assert calm ==> EitherImage(history[k], v, name, Asked(call, name));
      ReachedUntouched(v, View(history[k]), call, name, calm);
    }
  }

  lemma SyncUntouched(v: Volume, v': Volume, call: Call)
    requires Volumes.Sound(v) && Volumes.Sound(v') && call.SyncAll? && Halfway(v, v', call.files)
    requires KeptMap(call.files) == StoredMap(call.files)
    ensures Untouched(v, v', call)
  {
    hide Contents, Named, StoredMap, KeptMap, ShouldKeep;
    forall name | Leaves(v, call, name)
      ensures LookUp(Contents(v'), name) == LookUp(Contents(v), name)
    {
      StoredMapKeys(call.files, name);
      assert Agreed(v, call.files, name);
    }
  }

  lemma SyncUntouchedSince(history: seq<Image>, n: nat, v: Volume, call: Call)
    requires Volumes.Sound(v) && call.SyncAll? && HalfwaySince(history, n, v, call.files)
    requires KeptMap(call.files) == StoredMap(call.files)
    ensures UntouchedSince(history, n, v, call)
  {
    hide View, Contents, Halfway, Untouched, KeptMap, StoredMap;
    forall k | n <= k < |history|
      ensures UntouchedImage(history[k], v, call)
    {
      assert HalfwayImage(history[k], v, call.files);
      SyncUntouched(v, View(history[k]), call);
    }
  }

  /** The files the call touches are as it asked. */
  ghost predicate AsAsked(v: Volume, call: Call)
    requires Volumes.Sound(v)
  {
    forall name | Touches(call, name) :: LookUp(Contents(v), name) == Asked(call, name)
  }

  method PerformSave(disk: Disk, file: F.FileEntry) returns (ok: bool)
    requires Mounted(disk) && Volumes.Sound(Vol(disk)) && F.GoodFile(file)
    modifies disk.cache, disk.device
    ensures Mounted(disk) && Volumes.Sound(Vol(disk))
    ensures old(disk.device.history) <= disk.device.history
    ensures SafeSince(disk.device.history, |old(disk.device.history)|)
    ensures Named(old(Vol(disk))) && |file.name| <= 95 ==>
              && Untouched(old(Vol(disk)), Vol(disk), Save(file))
              && UntouchedSince(disk.device.history, |old(disk.device.history)|, old(Vol(disk)), Save(file))
              && (ok ==> AsAsked(Vol(disk), Save(file)))
    ensures disk.device.reliable && GoodNames(old(Vol(disk)).table) ==> (ok <==> !NoRoom(old(Vol(disk)), file))
  {
    hide View, Contents, SectorCache.Disk.Valid, Spared, Reached, ReachedSince, Untouched, UntouchedSince, Named, NameKeptExactly;
    ghost var v, n := Vol(disk), |disk.device.history|;
    ghost var calm := Spared(v, file);
    var r := SaveEntry(disk, file);
    if Named(v) && |file.name| <= 95 {
      if LookUp(Contents(v), file.name) == Some(RecordFor(file)) {
        SameSpared(v, file);
      }
      ReachedUntouched(v, Vol(disk), Save(file), file.name, calm);
      ReachedUntouchedSince(disk.device.history, n, v, Save(file), file.name, calm);
    }
    return r.Ok?;
  }

  /** Deleting what is not there asks for nothing more. */
  method PerformRemove(disk: Disk, name: str) returns (ok: bool)
    requires Mounted(disk) && Volumes.Sound(Vol(disk))
    modifies disk.cache, disk.device
    ensures Mounted(disk) && Volumes.Sound(Vol(disk))
    ensures old(disk.device.history) <= disk.device.history
    ensures SafeSince(disk.device.history, |old(disk.device.history)|)
    ensures Named(old(Vol(disk))) ==>
              && Untouched(old(Vol(disk)), Vol(disk), Remove(name))
              && UntouchedSince(disk.device.history, |old(disk.device.history)|, old(Vol(disk)), Remove(name))
              && (ok ==> AsAsked(Vol(disk), Remove(name)))
    ensures disk.device.reliable && GoodNames(old(Vol(disk)).table) ==> ok
  {
    hide View, Contents, SectorCache.Disk.Valid, Reached, ReachedSince, Untouched, UntouchedSince, Named;
    ghost var v, n := Vol(disk), |disk.device.history|;
    var r := DeleteFileFromDisk(disk, name);
    if Named(v) {
      ReachedUntouched(v, Vol(disk), Remove(name), name, true);
      ReachedUntouchedSince(disk.device.history, n, v, Remove(name), name, true);
    }
    return r.Ok? || r.error == FileNotFound;
  }

  method PerformSync(disk: Disk, files: F.Files) returns (ok: bool)
    requires Mounted(disk) && Volumes.Sound(Vol(disk)) && F.Legal(files)
    modifies disk.cache, disk.device
    ensures Mounted(disk) && Volumes.Sound(Vol(disk))
    ensures old(disk.device.history) <= disk.device.history
    ensures SafeSince(disk.device.history, |old(disk.device.history)|)
    ensures Named(old(Vol(disk))) && ShortNames(files) ==>
              && Untouched(old(Vol(disk)), Vol(disk), SyncAll(files))
              && UntouchedSince(disk.device.history, |old(disk.device.history)|, old(Vol(disk)), SyncAll(files))
              && (ok ==> AsAsked(Vol(disk), SyncAll(files)))
    ensures disk.device.reliable && GoodNames(old(Vol(disk)).table) && !ok ==> Overfull(Vol(disk), files)
  {
    hide View, Contents, SectorCache.Disk.Valid, Untouched, UntouchedSince, Halfway, HalfwaySince, Named;
    hide ShortNames, Tidied, UniqueNames, DistinctKept, KeptMap, StoredMap, Overfull;
    ghost var v, n := Vol(disk), |disk.device.history|;
    var r := SyncFilesystem(disk, files);
    if Named(v) && ShortNames(files) {
      ShortKept(files);
      SyncUntouched(v, Vol(disk), SyncAll(files));
      SyncUntouchedSince(disk.device.history, n, v, SyncAll(files));
    }
    return r.Ok?;
  }

  /** The call asks for more than the volume has room for. */
  ghost predicate Crowds(v: Volume, v': Volume, call: Call) {
    match call
    case Save(file) => NoRoom(v, file)
    case Remove(_) => false
    case SyncAll(files) => Overfull(v', files)
  }

  /** One call, with whatever device faults it meets. */
  method Perform(disk: Disk, call: Call) returns (ok: bool)
    requires Mounted(disk) && Volumes.Sound(Vol(disk)) && Permitted(call)
    modifies disk.cache, disk.device
    ensures Mounted(disk) && Volumes.Sound(Vol(disk))
    ensures old(disk.device.history) <= disk.device.history
    ensures SafeSince(disk.device.history, |old(disk.device.history)|)
    ensures Named(old(Vol(disk))) && Fits(call) ==>
              && Untouched(old(Vol(disk)), Vol(disk), call)
              && UntouchedSince(disk.device.history, |old(disk.device.history)|, old(Vol(disk)), call)
              && (ok ==> AsAsked(Vol(disk), call))
    ensures disk.device.reliable && GoodNames(old(Vol(disk)).table) && !ok ==> Crowds(old(Vol(disk)), Vol(disk), call)
  {
    hide View, Contents, SectorCache.Disk.Valid, Untouched, AsAsked, UntouchedSince, SafeSince, Named, Volumes.Sound, NoRoom, Overfull;
    match call
    case Save(file) => ok := PerformSave(disk, file);
    case Remove(name) => ok := PerformRemove(disk, name);
    case SyncAll(files) => ok := PerformSync(disk, files);
  }

  // ---------- power ----------

  /**
   The call is under way when power fails: the medium is left at some image of the call,
   or at the one before it. What the call had no reason to change is there.
   */
  method CutShort(disk: Disk, call: Call)
    requires Mounted(disk) && Volumes.Sound(Vol(disk)) && Permitted(call)
    modifies disk.cache, disk.device
    ensures disk.device.Recorded() && |disk.device.sectors| >= DATA_START && Volumes.Sound(View(disk.device.sectors))
    ensures old(disk.device.history) <= disk.device.history
    ensures SafeSince(disk.device.history, |old(disk.device.history)|)
    ensures Named(old(Vol(disk))) && Fits(call) ==> Untouched(old(Vol(disk)), View(disk.device.sectors), call)
  {
    hide View, Contents, SectorCache.BlockCache.Valid, Untouched, UntouchedSince, SafeSince, SafeImage, UntouchedImage;
    hide Fits, Permitted, UniqueNames, GoodNames, Disjoint, Sized, Inside;
    ghost var v := Vol(disk);
    var since := |disk.device.history|;
    NothingDone(v, disk.device.history, call);
    var _ := Perform(disk, call);
    ghost var history := disk.device.history;
    var images :| since <= images <= |disk.device.history|;
    SafePrefix(history, since, images);
    if images > since {
      CutAt(history, since, images - 1, v, call);
    }
    disk.device.LosePower(images);
  }

  lemma SafePrefix(history: seq<Image>, n: nat, m: nat)
    requires SafeSince(history, n) && m <= |history|
    ensures SafeSince(history[..m], n)
  {
    hide SafeImage;
  }

  /** The image the cut left. */
  lemma CutAt(history: seq<Image>, n: nat, k: nat, v: Volume, call: Call)
    requires Volumes.Sound(v) && SafeSince(history, n) && n <= k < |history|
    ensures |history[k]| >= DATA_START && Volumes.Sound(View(history[k]))
    ensures UntouchedSince(history, n, v, call) ==> Untouched(v, View(history[k]), call)
  {
    hide View, Contents, Untouched, CleanCounts;
    assert SafeImage(history[k]);
    assert UntouchedSince(history, n, v, call) ==> UntouchedImage(history[k], v, call);
  }

  /** A boot; `up` says whether the disk is mounted at the end of it. */
  method Restart(disk: Disk) returns (up: bool)
    requires disk.device.Recorded() && |disk.device.sectors| >= DATA_START && Volumes.Sound(View(disk.device.sectors))
    modifies disk.cache, disk.device
    ensures Mounted(disk) && Volumes.Sound(Vol(disk))
    ensures Vol(disk).table == old(View(disk.device.sectors)).table
    ensures Contents(Vol(disk)) == old(Contents(View(disk.device.sectors)))
    ensures old(disk.device.history) <= disk.device.history
    ensures AccountedSince(disk.device.history, |old(disk.device.history)|)
  {
    hide View, Contents, SectorCache.Disk.Valid, Accounted, Holds, Restored;
    var now: u64 := *;
    var r, _ := Init(disk, now, []);
    return r.Ok?;
  }

  lemma UntouchedBetween(v: Volume, v1: Volume, v2: Volume, v3: Volume, call: Call)
    requires Volumes.Sound(v) && Volumes.Sound(v1) && Volumes.Sound(v2) && Volumes.Sound(v3)
    requires Contents(v1) == Contents(v) && Untouched(v1, v2, call)
    requires Contents(v3) == Contents(v2) && v3.table == v2.table
    ensures Untouched(v, v3, call)
  {
    hide Contents;
    forall name | Leaves(v, call, name)
      ensures LookUp(Contents(v3), name) == LookUp(Contents(v), name)
    {
      assert Leaves(v1, call, name);
    }
  }

  method MaybeRestart(disk: Disk, mounted: bool, restarts: bool) returns (up: bool)
    requires Mounted(disk) && Volumes.Sound(Vol(disk))
    modifies disk.cache, disk.device
    ensures Mounted(disk) && Volumes.Sound(Vol(disk))
    ensures Vol(disk).table == old(Vol(disk)).table && Contents(Vol(disk)) == old(Contents(Vol(disk)))
    ensures old(disk.device.history) <= disk.device.history
    ensures AccountedSince(disk.device.history, |old(disk.device.history)|)
    ensures !restarts ==> up == mounted && Vol(disk) == old(Vol(disk))
  {
    hide View, Contents, Accounted, SectorCache.BlockCache.Valid;
    up := mounted;
    if restarts {
      up := Restart(disk);
    }
  }

  /** What one attempt at a call may have done. */
  ghost predicate Attempted(v: Volume, v': Volume, call: Call, outcome: Outcome)
    requires Volumes.Sound(v) && Volumes.Sound(v')
  {
    && Untouched(v, v', call)
    && (outcome.Done? ==> AsAsked(v', call))
    && (outcome.NotTried? ==> Contents(v') == Contents(v))
  }

  /** The call itself: without a mounted disk it does nothing, and power may fail in it. */
  method Work(disk: Disk, call: Call, mounted: bool, powerFails: bool) returns (outcome: Outcome, up: bool)
    requires Mounted(disk) && Volumes.Sound(Vol(disk)) && Permitted(call)
    modifies disk.cache, disk.device
    ensures Mounted(disk) && Volumes.Sound(Vol(disk))
    ensures old(disk.device.history) <= disk.device.history
    ensures AccountedSince(disk.device.history, |old(disk.device.history)|)
    ensures Named(old(Vol(disk))) && Fits(call) ==> Attempted(old(Vol(disk)), Vol(disk), call, outcome)
    ensures outcome.NotTried? <==> !mounted
    ensures !powerFails ==> up == mounted
    ensures outcome.Failed? && !powerFails && disk.device.reliable && GoodNames(old(Vol(disk)).table) ==>
              Crowds(old(Vol(disk)), Vol(disk), call)
  {
    hide View, Contents, Untouched, AsAsked, SafeSince, AccountedSince, UntouchedSince, Fits, Permitted, Named, SectorCache.BlockCache.Valid, Crowds;
    ghost var v, h := Vol(disk), disk.device.history;
    NothingDone(v, h, call);
    if !mounted {
      return NotTried, false;
    } else if powerFails {
      CutShort(disk, call);
      ghost var v1, h1 := View(disk.device.sectors), disk.device.history;
      up := Restart(disk);
      SafeAccounted(h1, |h|);
      AccountedJoin(h1, disk.device.history, |h|);
      if Named(v) && Fits(call) {
        UntouchedBetween(v, v, v1, Vol(disk), call);
      }
      return Failed, up;
    }
    var ok := Perform(disk, call);
    SafeAccounted(disk.device.history, |h|);
    return if ok then Done else Failed, true;
  }

  lemma NothingDone(v: Volume, history: seq<Image>, call: Call)
    requires Volumes.Sound(v) && history != []
    ensures AccountedSince(history, |history|) && (Named(v) ==> Untouched(v, v, call))
  {
  }

  /** One call of a session, with a boot before it or not, and after it if power fails. */
  method Attempt(disk: Disk, call: Call, mounted: bool, restarts: bool, powerFails: bool)
    returns (outcome: Outcome, up: bool)
    requires Mounted(disk) && Volumes.Sound(Vol(disk)) && Permitted(call)
    modifies disk.cache, disk.device
    ensures Mounted(disk) && Volumes.Sound(Vol(disk))
    ensures old(disk.device.history) <= disk.device.history
    ensures AccountedSince(disk.device.history, |old(disk.device.history)|)
    ensures Named(old(Vol(disk))) && Fits(call) ==> Attempted(old(Vol(disk)), Vol(disk), call, outcome)
    ensures outcome.NotTried? ==> !mounted || restarts
    ensures !restarts && !powerFails ==> up == mounted
    ensures outcome.Failed? && !restarts && !powerFails && disk.device.reliable && GoodNames(old(Vol(disk)).table) ==>
              Crowds(old(Vol(disk)), Vol(disk), call)
  {
    hide View, Contents, Untouched, AsAsked, AccountedSince, Fits, Permitted, UniqueNames, GoodNames, SectorCache.Disk.Valid, Crowds;
    ghost var v, h := Vol(disk), disk.device.history;
    up := MaybeRestart(disk, mounted, restarts);
    ghost var v1, h1 := Vol(disk), disk.device.history;
    outcome, up := Work(disk, call, up, powerFails);
    AccountedJoin(h1, disk.device.history, |h|);
    if Named(v) && Fits(call) {
      UntouchedBetween(v, v1, Vol(disk), Vol(disk), call);
    }
  }

  // ---------- sessions ----------

  lemma RemoveNeverCrowds(v: Volume, v': Volume, call: Call)
    ensures call.Remove? ==> !Crowds(v, v', call)
    ensures Named(v) ==> GoodNames(v.table)
  {
  }

  lemma AgreesNext(start: map<str, Record>, v: Volume, v': Volume, calls: seq<Call>, outcomes: seq<Outcome>,
                   call: Call, outcome: Outcome)
    requires Volumes.Sound(v) && Volumes.Sound(v') && |calls| == |outcomes|
    requires Agrees(start, v, calls, outcomes) && Attempted(v, v', call, outcome)
    ensures Named(v') && Agrees(start, v', calls + [call], outcomes + [outcome])
  {
    hide Contents, Named, Asked, Touches;
    assert (calls + [call])[..|calls|] == calls && (outcomes + [outcome])[..|outcomes|] == outcomes;
    forall name
      ensures var e := Expect(LookUp(start, name), calls + [call], outcomes + [outcome], name);
              e.Settled? ==> LookUp(Contents(v'), name) == e.file
    {
      var before := Expect(LookUp(start, name), calls, outcomes, name);
      assert before.Settled? ==> LookUp(Contents(v), name) == before.file;
      if Leaves(v, call, name) {
        assert LookUp(Contents(v'), name) == LookUp(Contents(v), name);
      }
    }
  }

  lemma SessionStart(v: Volume, history: seq<Image>)
    requires Volumes.Sound(v) && history != []
    ensures AccountedSince(history, |history|) && Agrees(Contents(v), v, [], [])
  {
  }

  /**
   Any session, with restarts anywhere and power failing in any of its calls. Every image on
   the way is sound, and crash-safe unless a mount wrote it; every settled file is as settled.
   */
  method Session(disk: Disk, calls: seq<Call>, restarts: seq<bool>, cuts: seq<bool>) returns (outcomes: seq<Outcome>)
    requires Mounted(disk) && Volumes.Sound(Vol(disk)) && |restarts| == |cuts| == |calls|
    requires forall call | call in calls :: Permitted(call)
    modifies disk.cache, disk.device
    ensures Mounted(disk) && Volumes.Sound(Vol(disk)) && |outcomes| == |calls|
    ensures AccountedSince(disk.device.history, |old(disk.device.history)|)
    ensures Named(old(Vol(disk))) && (forall call | call in calls :: Fits(call)) ==>
              Named(Vol(disk)) && Agrees(old(Contents(Vol(disk))), Vol(disk), calls, outcomes)
    ensures true !in restarts && true !in cuts ==> NotTried !in outcomes
    ensures Named(old(Vol(disk))) && (forall call | call in calls :: Fits(call)) && disk.device.reliable
            && true !in restarts && true !in cuts ==>
              forall i | 0 <= i < |calls| && calls[i].Remove? :: outcomes[i].Done?
  {
    hide View, Contents, SectorCache.BlockCache.Valid, AccountedSince, Named, Attempted, Agrees, Permitted, Fits, Inside, Disjoint, Sized;
    outcomes := [];
    var up := true;
    ghost var start, n := Contents(Vol(disk)), |disk.device.history|;
    ghost var fit := Named(Vol(disk)) && forall call | call in calls :: Fits(call);
    SessionStart(Vol(disk), disk.device.history);
    for i := 0 to |calls|
      invariant Mounted(disk) && Volumes.Sound(Vol(disk)) && |outcomes| == i
      invariant n <= |disk.device.history| && AccountedSince(disk.device.history, n)
      invariant fit ==> Named(Vol(disk)) && Agrees(start, Vol(disk), calls[..i], outcomes)
      invariant true !in restarts && true !in cuts ==> up && NotTried !in outcomes
      invariant fit && disk.device.reliable && true !in restarts && true !in cuts ==>
                  forall j | 0 <= j < i && calls[j].Remove? :: outcomes[j].Done?
    {
      ghost var v, h := Vol(disk), disk.device.history;
      var outcome;
      outcome, up := Attempt(disk, calls[i], up, restarts[i], cuts[i]);
      if fit {
        RemoveNeverCrowds(v, Vol(disk), calls[i]);
      }
      AccountedJoin(h, disk.device.history, n);
      if fit {
        assert calls[..i + 1] == calls[..i] + [calls[i]];
        AgreesNext(start, v, Vol(disk), calls[..i], outcomes, calls[i], outcome);
      }
      outcomes := outcomes + [outcome];
    }
    assert calls[..|calls|] == calls;
  }
}
