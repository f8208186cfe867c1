/**
 The physical frame allocator (kernel/src/memory/physical.rs): one bit per 4 KiB frame,
 set when the frame may not be handed out.

 The memory map is page-aligned, as the boot protocol delivers it, and callers free only
 frames that are theirs.
 */
module Frames {
  import opened Errors
  import opened Arith

  const FRAME_SIZE := 4096
  const MAX_TRACKED_MEMORY := 0x1_0000_0000
  const MAX_FRAMES := 0x10_0000
  const BITMAP_BYTES := 0x2_0000

  // ---------- bits ----------

  /** `1u8 << bit`. */
  function Mask(bit: int): bv8
    requires 0 <= bit < 8
  {
    match bit
    case 0 => 1 case 1 => 2 case 2 => 4 case 3 => 8
    case 4 => 16 case 5 => 32 case 6 => 64 case _ => 128
  }

  predicate Bit(b: bv8, bit: int)
    requires 0 <= bit < 8
  {
    b & Mask(bit) != 0
  }

  lemma SetBit(b: bv8, i: int, j: int)
    requires 0 <= i < 8 && 0 <= j < 8
    ensures Bit(b | Mask(i), j) <==> i == j || Bit(b, j)
  {
  }

  lemma ClearBit(b: bv8, i: int, j: int)
    requires 0 <= i < 8 && 0 <= j < 8
    ensures Bit(b & !Mask(i), j) <==> i != j && Bit(b, j)
  {
  }

  predicate Taken(bytes: array<bv8>, frame: int)
    requires bytes.Length == BITMAP_BYTES && 0 <= frame < MAX_FRAMES
    reads bytes
  {
    Bit(bytes[frame / 8], frame % 8)
  }

  /** A byte with one bit set or cleared. */
  function WithBit(b: bv8, bit: int, taken: bool): bv8
    requires 0 <= bit < 8
  {
    if taken then b | Mask(bit) else b & !Mask(bit)
  }

  /** Changing one frame's bit leaves the seven others of its byte alone. */
  lemma OneBit(b: bv8, frame: int, f: int, taken: bool)
    requires 0 <= frame && 0 <= f && f / 8 == frame / 8
    ensures Bit(WithBit(b, frame % 8, taken), f % 8) == if f == frame then taken else Bit(b, f % 8)
  {
    BitPair(b, frame % 8, f % 8, taken);
    SamePlace(frame, f);
  }

  lemma BitPair(b: bv8, i: int, j: int, taken: bool)
    requires 0 <= i < 8 && 0 <= j < 8
    ensures Bit(WithBit(b, i, taken), j) == if i == j then taken else Bit(b, j)
  {
    if taken {
      SetBit(b, i, j);
    } else {
      ClearBit(b, i, j);
    }
  }

  lemma SamePlace(a: int, b: int)
    requires a / 8 == b / 8
    ensures a % 8 == b % 8 <==> a == b
  {
  }

  // ---------- arithmetic of the scan ----------

  /** The frame a scan from `hint` looks at after `offset` steps. */
  function Scanned(hint: nat, offset: int, max: int): int
    requires max > 0
  {
    (hint + offset) % max
  }

  /** A cyclic scan of `max` places from any hint meets every place. */
  lemma ScanMeets(hint: nat, max: int, f: int) returns (offset: int)
    requires 0 <= f < max
    ensures 0 <= offset < max && Scanned(hint, offset, max) == f
  {
    var h, q := hint % max, hint / max;
    assert hint == q * max + h;
    if f >= h {
      offset := f - h;
      DivisionUnique(hint + offset, max, q);
    } else {
      offset := f + max - h;
      Spread(q, max);
      DivisionUnique(hint + offset, max, q + 1);
    }
  }

  // ---------- the memory map ----------

  datatype Region = Region(start: nat, end: nat, usable: bool)

  predicate Aligned(regions: seq<Region>) {
    forall i | 0 <= i < |regions| && regions[i].usable :: regions[i].start % FRAME_SIZE == 0
  }

  /** A frame lies wholly inside a usable region, below the tracked limit, and is not frame 0. */
  predicate InRegion(r: Region, f: int) {
    r.usable && r.start <= f * 4096 && (f + 1) * 4096 <= r.end
  }

  predicate Usable(regions: seq<Region>, f: int) {
    0 < f < 0x10_0000 && exists i | 0 <= i < |regions| :: InRegion(regions[i], f)
  }

  // ---------- what the allocator knows of each frame ----------

  /** Not managed, available, or handed out. */
  datatype Use = Reserved | Free | Held

  type Uses = seq<Use>

  function Count(uses: Uses, u: Use): (n: nat)
    ensures n <= |uses|
  {
    if uses == [] then 0 else Count(uses[..|uses| - 1], u) + if uses[|uses| - 1] == u then 1 else 0
  }

  lemma {:induction false} CountUpdate(uses: Uses, i: nat, v: Use, u: Use)
    requires i < |uses|
    ensures Count(uses[i := v], u)
         == Count(uses, u) - (if uses[i] == u then 1 else 0) + (if v == u then 1 else 0)
  {
    var n := |uses| - 1;
    if i == n {
      assert uses[i := v][..n] == uses[..n];
    } else {
      assert uses[i := v][..n] == uses[..n][i := v];
      CountUpdate(uses[..n], i, v, u);
    }
  }

  lemma {:induction false} CountNone(uses: Uses, u: Use)
    requires forall i | 0 <= i < |uses| :: uses[i] != u
    ensures Count(uses, u) == 0
  {
    if uses != [] {
      CountNone(uses[..|uses| - 1], u);
    }
  }

  lemma {:induction false} CountAll(uses: Uses, u: Use)
    requires forall i | 0 <= i < |uses| :: uses[i] == u
    ensures Count(uses, u) == |uses|
  {
    if uses != [] {
      CountAll(uses[..|uses| - 1], u);
    }
  }

  /** Making frames available never makes more of them reserved, and fewer if one was. */
  lemma {:induction false} CountReturned(uses: Uses, uses': Uses)
    requires |uses| == |uses'| && forall f | 0 <= f < |uses| :: uses'[f] == uses[f] || uses'[f] == Free
    ensures Count(uses', Reserved) <= Count(uses, Reserved)
    ensures Count(uses', Reserved) == Count(uses, Reserved) <==>
              forall f | 0 <= f < |uses| :: uses[f] == Reserved ==> uses'[f] == Reserved
  {
    if uses != [] {
      var n := |uses| - 1;
      CountReturned(uses[..n], uses'[..n]);
      assert forall f | 0 <= f < n :: uses[..n][f] == uses[f] && uses'[..n][f] == uses'[f];
    }
  }

  lemma {:induction false} CountSame(uses: Uses, uses': Uses, u: Use)
    requires |uses| == |uses'| && forall f | 0 <= f < |uses| :: uses'[f] == u <==> uses[f] == u
    ensures Count(uses', u) == Count(uses, u)
  {
    if uses != [] {
      CountSame(uses[..|uses| - 1], uses'[..|uses| - 1], u);
    }
  }

  /** A run of `count` available frames needs at least that many in all. */
  lemma {:induction false} CountRun(uses: Uses, start: int, count: nat)
    requires AllFree(uses, start, count)
    ensures Count(uses, Free) >= count
    decreases |uses|
  {
    if count > 0 {
      var n := |uses| - 1;
      CountRun(uses[..n], start, if start + count == |uses| then count - 1 else count);
    }
  }

  predicate AllFree(uses: Uses, start: int, count: nat) {
    0 <= start && start + count <= |uses| && forall f | start <= f < start + count :: uses[f] == Free
  }

  /** A run of available frames that starts as low as any. */
  ghost predicate LowestRun(uses: Uses, start: int, count: nat) {
    AllFree(uses, start, count) && forall s | s < start :: !AllFree(uses, s, count)
  }

  /** The frames from `start` on marked as `u`. */
  function Marked(uses: Uses, start: int, count: nat, u: Use): (r: Uses)
    ensures |r| == |uses|
  {
    seq(|uses|, f requires 0 <= f < |uses| => if start <= f < start + count then u else uses[f])
  }

  lemma MarkedNext(uses: Uses, start: int, count: nat, u: Use)
    requires 0 <= start && start + count < |uses|
    ensures Marked(uses, start, count, u)[start + count := u] == Marked(uses, start, count + 1, u)
  {
  }

  /** The frames from `start` on, as far as frames are managed, made available. */
  function Returned(uses: Uses, start: int, count: nat, max: int): (r: Uses)
    ensures |r| == |uses|
  {
    seq(|uses|, f requires 0 <= f < |uses| => if start <= f < start + count && f < max then Free else uses[f])
  }

  lemma ReturnedNext(uses: Uses, start: int, count: nat, max: int)
    requires 0 <= start && start + count < max && start + count < |uses|
    ensures Returned(uses, start, count + 1, max) == Returned(uses, start, count, max)[start + count := Free]
  {
  }

  lemma ReturnedNone(uses: Uses, start: int, max: int)
    ensures Returned(uses, start, 0, max) == uses
  {
  }

  /** Beyond the last managed frame there is nothing to return. */
  lemma ReturnedAll(uses: Uses, start: int, done: nat, count: nat, max: int)
    requires done <= count
    ensures start + done >= max || done == count ==> Returned(uses, start, done, max) == Returned(uses, start, count, max)
  {
  }

  /** What `init` makes of a memory map. */
  predicate MapsTo(regions: seq<Region>, uses: Uses) {
    && |uses| == MAX_FRAMES
    && forall f | 0 <= f < MAX_FRAMES :: uses[f] == if Usable(regions, f) then Free else Reserved
  }

  lemma UsableMore(regions: seq<Region>, i: nat, f: int)
    requires i < |regions|
    ensures Usable(regions[..i + 1], f) <==>
              Usable(regions[..i], f) || (0 < f < MAX_FRAMES && InRegion(regions[i], f))
  {
    var a, b := regions[..i], regions[..i + 1];
    assert b == a + [regions[i]];
    if Usable(a, f) {
      var k :| 0 <= k < |a| && InRegion(a[k], f);
      assert InRegion(b[k], f);
    }
    if 0 < f < MAX_FRAMES && InRegion(regions[i], f) {
      assert InRegion(b[i], f);
    }
  }

  class BitmapAllocator {
    const bitmap: array<bv8>
    var totalFrames: nat
    var freeFrames: nat
    var scanHint: nat
    var maxFrameIndex: nat
    ghost var uses: Uses

    /** The bits say which frames are available. */
    ghost predicate Mirrors()
      reads this, bitmap
    {
      && bitmap.Length == BITMAP_BYTES && |uses| == MAX_FRAMES
      && forall f | 0 <= f < MAX_FRAMES :: Taken(bitmap, f) <==> uses[f] != Free
    }

    /** Frame 0 and frames beyond the last usable one are never managed; the free ones are counted. */
    ghost predicate Bookkept()
      reads this
    {
      && |uses| == MAX_FRAMES && 1 <= maxFrameIndex <= MAX_FRAMES
      && uses[0] == Reserved
      && (forall f | maxFrameIndex <= f < MAX_FRAMES :: uses[f] == Reserved)
      && freeFrames == Count(uses, Free)
    }

    /** Every frame that is not reserved is one of the total. */
    ghost predicate Balanced()
      reads this
    {
      totalFrames + Count(uses, Reserved) == MAX_FRAMES
    }

    ghost predicate Valid()
      reads this, bitmap
    {
      Mirrors() && Bookkept()
    }

    method IsAllocated(frame: int) returns (taken: bool)
      requires Mirrors() && 0 <= frame < MAX_FRAMES
      ensures taken <==> uses[frame] != Free
    {
      taken := Taken(bitmap, frame);
    }

    /** Set or clear one bit; `u` is what the frame becomes. */
    method SetAllocated(frame: int, taken: bool, ghost u: Use)
      requires Mirrors() && 0 <= frame < MAX_FRAMES && (taken <==> u != Free)
      modifies `uses, bitmap
      ensures Mirrors() && uses == old(uses)[frame := u]
    {
      var i := frame / 8;
      bitmap[i] := WithBit(bitmap[i], frame % 8, taken);
      uses := uses[frame := u];
      forall f | 0 <= f < MAX_FRAMES
        ensures Taken(bitmap, f) <==> uses[f] != Free
      {
        assert old(Taken(bitmap, f)) <==> old(uses)[f] != Free;
        if f / 8 == i {
          OneBit(old(bitmap[i]), frame, f, taken);
        }
      }
    }

    method Take(frame: int)
      requires Valid() && 0 <= frame < MAX_FRAMES && uses[frame] == Free
      modifies `freeFrames, `uses, bitmap
      ensures Valid() && uses == old(uses)[frame := Held]
    {
      CountUpdate(uses, frame, Held, Free);
      SetAllocated(frame, true, Held);
      freeFrames := freeFrames - 1;
    }

    method Release(frame: int)
      requires Valid() && 0 < frame < maxFrameIndex
      modifies `freeFrames, `uses, bitmap
      ensures Valid() && uses == old(uses)[frame := Free]
    {
      var taken := IsAllocated(frame);
      if taken {
        CountUpdate(uses, frame, Free, Free);
        SetAllocated(frame, false, Free);
        freeFrames := freeFrames + 1;
      }
    }

    /** `init`: exactly the frames wholly inside usable regions are managed, all of them free. */
    constructor (regions: seq<Region>)
      requires Aligned(regions)
      ensures Valid() && Balanced() && MapsTo(regions, uses) && fresh(bitmap)
    {
      bitmap := new bv8[BITMAP_BYTES](_ => 255);
      totalFrames, freeFrames, scanHint, maxFrameIndex := 0, 0, 1, 1;
      uses := seq(MAX_FRAMES, _ => Reserved);
      new;
      CountNone(uses, Free);
      CountAll(uses, Reserved);
      AddRegions(regions);
    }

    method AddRegions(regions: seq<Region>)
      requires Valid() && Balanced() && Aligned(regions) && MapsTo([], uses)
      modifies this, bitmap
      ensures Valid() && Balanced() && MapsTo(regions, uses)
    {
      for i := 0 to |regions|
        invariant Valid() && Balanced() && MapsTo(regions[..i], uses)
      {
        forall f | 0 <= f < MAX_FRAMES
          ensures Usable(regions[..i + 1], f) <==>
                    Usable(regions[..i], f) || (0 < f < MAX_FRAMES && InRegion(regions[i], f))
        {
          UsableMore(regions, i, f);
        }
        if regions[i].usable {
          AddRegion(regions[i]);
        }
      }
      assert regions[..|regions|] == regions;
    }

    /** Free every frame of one region, counting each frame once. */
    method AddRegion(region: Region)
      requires Valid() && Balanced() && region.usable && region.start % FRAME_SIZE == 0
      requires forall f | 0 <= f < MAX_FRAMES :: uses[f] != Held
      modifies this, bitmap
      ensures Valid() && Balanced()
      ensures forall f | 0 <= f < MAX_FRAMES ::
                uses[f] == if f > 0 && InRegion(region, f) then Free else old(uses)[f]
    {
      var start := if region.start == 0 then FRAME_SIZE else region.start;
      var end := if region.end < MAX_TRACKED_MEMORY then region.end else MAX_TRACKED_MEMORY;
      var startFrame, endFrame := start / FRAME_SIZE, end / FRAME_SIZE;
      AddRange(startFrame, endFrame);
    }

    method AddRange(startFrame: nat, endFrame: nat)
      requires Valid() && Balanced() && startFrame > 0 && endFrame <= MAX_FRAMES
      requires forall f | 0 <= f < MAX_FRAMES :: uses[f] != Held
      modifies this, bitmap
      ensures Valid() && Balanced()
      ensures forall f | 0 <= f < MAX_FRAMES :: uses[f] == if startFrame <= f < endFrame then Free else old(uses)[f]
    {
      maxFrameIndex := if maxFrameIndex < endFrame then endFrame else maxFrameIndex;
      var frame := startFrame;
      while frame < endFrame
        invariant 0 < startFrame <= frame && (frame <= endFrame || frame == startFrame)
        invariant Valid() && Balanced() && endFrame <= maxFrameIndex
        invariant uses == Marked(old(uses), startFrame, frame - startFrame, Free)
      {
        MarkedNext(old(uses), startFrame, frame - startFrame, Free);
        AddFrame(frame);
        frame := frame + 1;
      }
    }

    method AddFrame(frame: int)
      requires Valid() && Balanced() && 0 < frame < maxFrameIndex && uses[frame] != Held
      modifies `uses, `totalFrames, `freeFrames, bitmap
      ensures Valid() && Balanced() && uses == old(uses)[frame := Free]
    {
      var taken := IsAllocated(frame);
      if taken {
        CountUpdate(uses, frame, Free, Free);
        CountUpdate(uses, frame, Free, Reserved);
        SetAllocated(frame, false, Free);
        totalFrames, freeFrames := totalFrames + 1, freeFrames + 1;
      }
    }

    /** The cyclic scan from the hint; it misses no free frame. */
    method FindFree() returns (r: Option<int>)
      requires Valid()
      ensures r.None? ==> forall f | 0 <= f < MAX_FRAMES :: uses[f] != Free
      ensures r.Some? ==> 0 < r.value < MAX_FRAMES && uses[r.value] == Free
    {
      var max := if maxFrameIndex < MAX_FRAMES then maxFrameIndex else MAX_FRAMES;
      for offset := 0 to max
        invariant forall o | 0 <= o < offset :: uses[Scanned(scanHint, o, max)] != Free
      {
        var frame := Scanned(scanHint, offset, max);
        if frame == 0 {
          continue;
        }
        var taken := IsAllocated(frame);
        if !taken {
          return Some(frame);
        }
      }
      forall f | 0 <= f < MAX_FRAMES
        ensures uses[f] != Free
      {
        if f < max {
          var o := ScanMeets(scanHint, max, f);
        }
      }
      return None;
    }

    /** A free frame, whatever the hint; none only when no frame is free. */
    method AllocateFrame() returns (r: Option<int>)
      requires Valid()
      modifies `freeFrames, `uses, `scanHint, bitmap
      ensures Valid()
      ensures r.None? ==> uses == old(uses) && forall f | 0 <= f < MAX_FRAMES :: uses[f] != Free
      ensures r.Some? ==>
                && r.value % 4096 == 0
                && var f := r.value / 4096;
                && 0 < f < 0x10_0000 && old(uses)[f] == Free
                && uses == old(uses)[f := Held]
    {
      if freeFrames == 0 {
        NoneFree(uses);
        return None;
      }
      var found := FindFree();
      if found.None? {
        return None;
      }
      var frame := found.value;
      Take(frame);
      scanHint := frame + 1;
      return Some(frame * FRAME_SIZE);
    }

    /** Whether a whole run is free. */
    method RunIsFree(start: int, count: nat) returns (free: bool)
      requires Valid() && 0 < start && start + count <= MAX_FRAMES
      ensures free <==> AllFree(uses, start, count)
    {
      for offset := 0 to count
        invariant AllFree(uses, start, offset)
      {
        var taken := IsAllocated(start + offset);
        if taken {
          return false;
        }
      }
      return true;
    }

    /** The lowest start of a free run, if there is one. */
    method FindRun(count: nat) returns (r: Option<int>)
      requires Valid()
      ensures r.None? ==> count == 0 || forall s :: !AllFree(uses, s, count)
      ensures r.Some? ==> count > 0 && r.value > 0 && LowestRun(uses, r.value, count)
    {
      if count == 0 {
        return None;
      }
      forall s | AllFree(uses, s, count)
        ensures count <= freeFrames && 1 <= s <= maxFrameIndex - count
      {
        CountRun(uses, s, count);
        assert uses[s] == Free && uses[s + count - 1] == Free;
      }
      if count > freeFrames {
        return None;
      }
      var max := if maxFrameIndex < MAX_FRAMES then maxFrameIndex else MAX_FRAMES;
      if max <= count {
        return None;
      }
      for start := 1 to max - count + 1
        invariant forall s | s < start :: !AllFree(uses, s, count)
      {
        var free := RunIsFree(start, count);
        if free {
          return Some(start);
        }
      }
      return None;
    }

    /** The lowest free run of `count` frames; none only when there is no such run. */
    method AllocateContiguousFrames(count: nat) returns (r: Option<int>)
      requires Valid()
      modifies `freeFrames, `uses, `scanHint, bitmap
      ensures Valid()
      ensures r.None? ==> uses == old(uses) && (count == 0 || forall s :: !AllFree(uses, s, count))
      ensures r.Some? ==>
                && count > 0 && r.value > 0 && r.value % 4096 == 0
                && LowestRun(old(uses), r.value / 4096, count)
                && uses == Marked(old(uses), r.value / 4096, count, Held)
    {
      var found := FindRun(count);
      if found.None? {
        return None;
      }
      var start := found.value;
      TakeRun(start, count);
      scanHint := start + count;
      return Some(start * FRAME_SIZE);
    }

    method TakeRun(start: int, count: nat)
      requires Valid() && AllFree(uses, start, count)
      modifies `freeFrames, `uses, bitmap
      ensures Valid() && uses == Marked(old(uses), start, count, Held)
    {
      assert uses == Marked(uses, start, 0, Held);
      for offset := 0 to count
        invariant Valid() && uses == Marked(old(uses), start, offset, Held)
      {
        MarkedNext(old(uses), start, offset, Held);
        Take(start + offset);
      }
    }

    /**
     Give one frame back. A free frame, frame 0 and frames beyond the last managed one are
     left alone. The caller had better hold it: a reserved frame becomes available too, and
     that is exactly when the total stops being right.
     */
    method FreeFrame(address: nat)
      requires Valid()
      modifies `freeFrames, `uses, bitmap
      ensures Valid()
      ensures uses == Freed(old(uses), address / 4096, 1, maxFrameIndex)
      ensures old(Balanced()) ==> (Balanced() <==> SparesReserved(old(uses), address / 4096, 1, maxFrameIndex))
    {
      var frame := address / FRAME_SIZE;
      if 0 < frame < maxFrameIndex {
        Release(frame);
      }
      assert uses == Freed(old(uses), frame, 1, maxFrameIndex);
      FreedCounts(old(uses), frame, 1, maxFrameIndex);
    }

    /** Give a run back, under the same conditions. */
    method FreeContiguousFrames(address: nat, count: nat)
      requires Valid()
      modifies `freeFrames, `uses, bitmap
      ensures Valid()
      ensures uses == Freed(old(uses), address / 4096, count, maxFrameIndex)
      ensures old(Balanced()) ==> (Balanced() <==> SparesReserved(old(uses), address / 4096, count, maxFrameIndex))
    {
      hide Mirrors, Returned, SparesReserved;
      var start := address / FRAME_SIZE;
      ReturnedNone(uses, start, maxFrameIndex);
      FreedCounts(uses, start, count, maxFrameIndex);
      if start == 0 || count == 0 {
        return;
      }
      var end := if start + count < maxFrameIndex then start + count else maxFrameIndex;
      var frame := start;
      while frame < end
        invariant start <= frame && (frame <= end || frame == start)
        invariant Valid() && uses == Returned(old(uses), start, frame - start, maxFrameIndex)
      {
        ReturnedNext(old(uses), start, frame - start, maxFrameIndex);
        Release(frame);
        frame := frame + 1;
      }
      ReturnedAll(old(uses), start, frame - start, count, maxFrameIndex);
    }

    // ---------- runs ----------

    /** One call, as a step between two states of the frames. */
    method Perform(call: Call) returns (r: Option<int>)
      requires Valid()
      modifies `freeFrames, `uses, `scanHint, bitmap
      ensures Valid() && Follows(old(uses), call, r, uses, maxFrameIndex)
    {
      r := None;
      match call
      case Allocate => r := AllocateFrame();
      case AllocateRun(count) => r := AllocateContiguousFrames(count);
      case FreeOne(address) => FreeFrame(address);
      case FreeRun(address, count) => FreeContiguousFrames(address, count);
    }

    /**
     Any sequence of allocations and frees, with the states between them. As long as callers
     free only frames of the memory map, the reserved frames stay exactly those outside it,
     and what is free and what is held add up to the fixed total.
     */
    method PerformAll(calls: seq<Call>, ghost regions: seq<Region>) returns (rs: seq<Option<int>>, ghost states: seq<Uses>)
      requires Valid()
      modifies `freeFrames, `uses, `scanHint, bitmap
      ensures Valid() && |rs| == |calls|
      ensures Trace(states, calls, rs, maxFrameIndex) && states[0] == old(uses) && states[|calls|] == uses
      ensures old(Balanced()) && Managed(regions, old(uses)) && (forall call | call in calls :: Honest(regions, call, maxFrameIndex)) ==>
                && Balanced() && (forall k | 0 <= k <= |calls| :: Managed(regions, states[k]))
                && Count(uses, Free) + Count(uses, Held) == totalFrames
    {
      rs, states := [], [uses];
      for k := 0 to |calls|
        invariant Valid() && |rs| == k
        invariant Trace(states, calls[..k], rs, maxFrameIndex) && states[0] == old(uses) && states[k] == uses
      {
        var r := Perform(calls[k]);
        TraceNext(states, calls[..k], rs, maxFrameIndex, calls[k], r, uses);
        assert calls[..k + 1] == calls[..k] + [calls[k]];
        rs, states := rs + [r], states + [uses];
      }
      assert calls[..|calls|] == calls;
      if old(Balanced()) && Managed(regions, old(uses)) && (forall call | call in calls :: Honest(regions, call, maxFrameIndex)) {
        TraceManaged(states, calls, rs, maxFrameIndex, regions);
        CountSame(old(uses), uses, Reserved);
        CountsSplit(uses);
      }
    }
  }

  datatype Call = Allocate | AllocateRun(count: nat) | FreeOne(address: nat) | FreeRun(address: nat, count: nat)

  /** What freeing the frames from `start` on leaves; asked to free from frame 0 on, nothing is freed. */
  function Freed(uses: Uses, start: int, count: nat, max: int): (r: Uses)
    ensures |r| == |uses|
  {
    if start == 0 then uses else Returned(uses, start, count, max)
  }

  predicate SparesReserved(uses: Uses, start: int, count: nat, max: int) {
    start == 0 || forall f | 0 <= f < |uses| && start <= f < start + count && f < max :: uses[f] != Reserved
  }

  lemma FreedCounts(uses: Uses, start: int, count: nat, max: int)
    ensures Count(Freed(uses, start, count, max), Reserved) == Count(uses, Reserved) <==> SparesReserved(uses, start, count, max)
  {
    CountReturned(uses, Freed(uses, start, count, max));
  }

  /** What each call does to the frames. */
  ghost predicate Follows(before: Uses, call: Call, r: Option<int>, after: Uses, max: int) {
    match call
    case Allocate =>
      if r.None? then after == before && forall f | 0 <= f < |before| :: before[f] != Free
      else
        && r.value % 4096 == 0
        && var f := r.value / 4096;
        && 0 < f < |before| && before[f] == Free && after == before[f := Held]
    case AllocateRun(count) =>
      if r.None? then after == before && (count == 0 || forall s :: !AllFree(before, s, count))
      else
        && count > 0 && r.value > 0 && r.value % 4096 == 0
        && LowestRun(before, r.value / 4096, count)
        && after == Marked(before, r.value / 4096, count, Held)
    case FreeOne(address) => r.None? && after == Freed(before, address / 4096, 1, max)
    case FreeRun(address, count) => r.None? && after == Freed(before, address / 4096, count, max)
  }

  ghost predicate Trace(states: seq<Uses>, calls: seq<Call>, rs: seq<Option<int>>, max: int) {
    && |states| == |calls| + 1 && |rs| == |calls|
    && (forall k | 0 <= k < |states| :: |states[k]| == MAX_FRAMES)
    && forall k | 0 <= k < |calls| :: Follows(states[k], calls[k], rs[k], states[k + 1], max)
  }

  lemma TraceNext(states: seq<Uses>, calls: seq<Call>, rs: seq<Option<int>>, max: int, call: Call, r: Option<int>, after: Uses)
    requires Trace(states, calls, rs, max) && |after| == MAX_FRAMES && Follows(states[|calls|], call, r, after, max)
    ensures Trace(states + [after], calls + [call], rs + [r], max)
  {
    hide Follows;
    var states', calls', rs' := states + [after], calls + [call], rs + [r];
    forall k | 0 <= k < |calls'|
      ensures Follows(states'[k], calls'[k], rs'[k], states'[k + 1], max)
    {
      if k < |calls| {
        assert states'[k + 1] == states[k + 1];
      }
    }
  }

  /** The reserved frames are those the memory map does not make usable. */
  predicate Managed(regions: seq<Region>, uses: Uses) {
    |uses| == MAX_FRAMES && forall f | 0 <= f < MAX_FRAMES :: uses[f] == Reserved <==> !Usable(regions, f)
  }

  /** A free that names usable frames only, or frames the allocator does not manage anyway. */
  predicate Honest(regions: seq<Region>, call: Call, max: int) {
    match call
    case FreeOne(address) => OnlyUsable(regions, address / 4096, 1, max)
    case FreeRun(address, count) => OnlyUsable(regions, address / 4096, count, max)
    case _ => true
  }

  predicate OnlyUsable(regions: seq<Region>, start: int, count: nat, max: int) {
    start == 0 || forall f | start <= f < start + count && 0 <= f < max && f < MAX_FRAMES :: Usable(regions, f)
  }

  /** A call keeps the reserved frames those outside the memory map if and only if it frees no such frame. */
  lemma StepManaged(before: Uses, call: Call, r: Option<int>, after: Uses, max: int, regions: seq<Region>)
    requires Follows(before, call, r, after, max) && Managed(regions, before)
    ensures Managed(regions, after) <==> Honest(regions, call, max)
  {
    hide Usable;
    if Managed(regions, after) {
      if call.FreeOne? || call.FreeRun? {
        var start, count := call.address / FRAME_SIZE, if call.FreeOne? then 1 else call.count;
        assert after == Freed(before, start, count, max);
        forall f | start <= f < start + count && 0 <= f < max && f < MAX_FRAMES
          ensures start == 0 || Usable(regions, f)
        {
          assert start != 0 ==> after[f] == Free;
        }
      }
    }
    if Honest(regions, call, max) {
      forall f | 0 <= f < MAX_FRAMES
        ensures after[f] == Reserved <==> before[f] == Reserved
      {
      }
    }
  }

  lemma {:induction false} TraceManaged(states: seq<Uses>, calls: seq<Call>, rs: seq<Option<int>>, max: int, regions: seq<Region>)
    requires Trace(states, calls, rs, max) && Managed(regions, states[0])
    requires forall call | call in calls :: Honest(regions, call, max)
    ensures forall k | 0 <= k <= |calls| :: Managed(regions, states[k])
    decreases |calls|
  {
    hide Follows, Managed, Honest;
    if calls != [] {
      var n := |calls| - 1;
      TraceShorter(states, calls, rs, max);
      TraceManaged(states[..n + 1], calls[..n], rs[..n], max, regions);
      assert states[..n + 1][n] == states[n];
      assert calls[n] in calls;
      StepManaged(states[n], calls[n], rs[n], states[n + 1], max, regions);
      forall k | 0 <= k <= |calls|
        ensures Managed(regions, states[k])
      {
        if k <= n {
          assert states[..n + 1][k] == states[k];
        }
      }
    }
  }

  lemma TraceShorter(states: seq<Uses>, calls: seq<Call>, rs: seq<Option<int>>, max: int)
    requires Trace(states, calls, rs, max) && calls != []
    ensures var n := |calls| - 1; Trace(states[..n + 1], calls[..n], rs[..n], max)
  {
    hide Follows;
    var n := |calls| - 1;
    forall k | 0 <= k < n
      ensures Follows(states[..n + 1][k], calls[..n][k], rs[..n][k], states[..n + 1][k + 1], max)
    {
      assert Follows(states[k], calls[k], rs[k], states[k + 1], max);
    }
  }

  lemma {:induction false} CountsSplit(uses: Uses)
    ensures Count(uses, Free) + Count(uses, Held) + Count(uses, Reserved) == |uses|
  {
    if uses != [] {
      CountsSplit(uses[..|uses| - 1]);
    }
  }

  /** The call handed out this frame. */
  ghost predicate Gives(call: Call, r: Option<int>, f: int) {
    r.Some? && match call
               case Allocate => f == r.value / 4096
               case AllocateRun(count) => r.value / 4096 <= f < r.value / 4096 + count
               case _ => false
  }

  /** The call asked for this frame to be taken back. */
  predicate Takes(call: Call, f: int) {
    match call
    case FreeOne(address) => f == address / 4096
    case FreeRun(address, count) => address / 4096 <= f < address / 4096 + count
    case _ => false
  }

  lemma GivenIsHeld(before: Uses, call: Call, r: Option<int>, after: Uses, max: int, f: int)
    requires Follows(before, call, r, after, max) && Gives(call, r, f)
    ensures 0 <= f < |before| && before[f] == Free && |after| == |before| && after[f] == Held
  {
  }

  lemma {:induction false} HeldUntilTaken(states: seq<Uses>, calls: seq<Call>, rs: seq<Option<int>>, max: int, i: nat, j: nat, f: int)
    requires Trace(states, calls, rs, max) && i <= j <= |calls| && 0 <= f < MAX_FRAMES
    requires states[i][f] == Held && forall k | i <= k < j :: !Takes(calls[k], f)
    ensures states[j][f] == Held
    decreases j - i
  {
    if i < j {
      HeldUntilTaken(states, calls, rs, max, i, j - 1, f);
      StillHeld(states[j - 1], calls[j - 1], rs[j - 1], states[j], max, f);
    }
  }

  lemma StillHeld(before: Uses, call: Call, r: Option<int>, after: Uses, max: int, f: int)
    requires Follows(before, call, r, after, max) && 0 <= f < |before| && before[f] == Held && !Takes(call, f)
    ensures |after| == |before| && after[f] == Held
  {
  }

  /** Over any run, a frame handed out twice was taken back in between. */
  lemma NeverTwice(states: seq<Uses>, calls: seq<Call>, rs: seq<Option<int>>, max: int, i: nat, j: nat, f: int)
    requires Trace(states, calls, rs, max) && i < j < |calls|
    requires Gives(calls[i], rs[i], f) && Gives(calls[j], rs[j], f)
    ensures exists k | i < k < j :: Takes(calls[k], f)
  {
    hide Follows, Gives, Takes;
    assert Follows(states[i], calls[i], rs[i], states[i + 1], max);
    assert Follows(states[j], calls[j], rs[j], states[j + 1], max);
    GivenIsHeld(states[i], calls[i], rs[i], states[i + 1], max, f);
    GivenIsHeld(states[j], calls[j], rs[j], states[j + 1], max, f);
    if forall k | i < k < j :: !Takes(calls[k], f) {
      HeldUntilTaken(states, calls, rs, max, i + 1, j, f);
      assert false;
    }
  }

  /** Only frames of the memory map are ever handed out while callers free no others. */
  lemma OnlyUsableGiven(states: seq<Uses>, calls: seq<Call>, rs: seq<Option<int>>, max: int, regions: seq<Region>, i: nat, f: int)
    requires Trace(states, calls, rs, max) && Managed(regions, states[0])
    requires forall call | call in calls :: Honest(regions, call, max)
    requires i < |calls| && Gives(calls[i], rs[i], f)
    ensures Usable(regions, f)
  {
    hide Follows, Gives, Usable, Honest;
    TraceManaged(states, calls, rs, max, regions);
    assert Follows(states[i], calls[i], rs[i], states[i + 1], max);
    GivenIsHeld(states[i], calls[i], rs[i], states[i + 1], max, f);
    assert Managed(regions, states[i]);
  }

  lemma {:induction false} NoneFree(uses: Uses)
    requires Count(uses, Free) == 0
    ensures forall f | 0 <= f < |uses| :: uses[f] != Free
  {
    if uses != [] {
      NoneFree(uses[..|uses| - 1]);
    }
  }

  /** Two usable frames, 1 and 3, and a reserved one between them. */
  function HoleMap(): seq<Region> {
    [Region(0x1000, 0x2000, true), Region(0x2000, 0x3000, false), Region(0x3000, 0x4000, true)]
  }

  /** On that map, freeing the reserved frame makes it available and the total wrong. */
  method HoleFreed() returns (a: BitmapAllocator)
    ensures fresh(a) && fresh(a.bitmap) && a.Valid() && !a.Balanced()
    ensures !Usable(HoleMap(), 2) && a.uses[2] == Free
  {
    a := new BitmapAllocator(HoleMap());
    assert InRegion(HoleMap()[2], 3);
    assert forall i | 0 <= i < 3 :: !InRegion(HoleMap()[i], 2);
    assert a.uses[3] == Free && a.uses[2] == Reserved;
    a.FreeFrame(0x2000);
  }
}
