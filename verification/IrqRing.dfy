/**
 The lock-free ring between the keyboard interrupt and the kernel
 (kernel/src/drivers/keyboard.rs): one producer, one consumer, every atomic load and store
 a step of its own, in any interleaving.

 An acquire load of the other side's index may return an older value than the newest, but
 never one older than a value already seen; the steps take the value seen as a choice. A
 load of a side's own index, and the slot accesses they order, see the newest value.
 */
module IrqRing {
  import opened Bytes

  const CAPACITY := 256

  datatype Event = Event(scancode: byte, status: byte)

  function Pack(e: Event): u16 { e.status * 256 + e.scancode }

  function Unpack(packed: u16): Event { Event(packed % 256, packed / 256) }

  lemma PackRoundTrip(e: Event)
    ensures Unpack(Pack(e)) == e && Pack(e) / 256 == e.status && Pack(e) % 256 == e.scancode
  {
  }

  datatype Producer =
    | Idle
    | HaveHead(event: Event, head: nat)
    | SawFull(event: Event)
    | SawRoom(event: Event, head: nat)
    | SlotWritten(event: Event, head: nat)

  datatype Consumer =
    | Resting
    | HaveTail(tail: nat)
    | SawEvent(tail: nat)
    | SlotRead(tail: nat, packed: u16)
    | Counting(head: nat)

  /**
   The shared memory and the two program counters; then what happened so far: pushes begun,
   pushes published, pushes dropped, events popped, how many pops the producer and pushes
   the consumer have seen, and the last count of pending events it was given.
   */
  datatype State = State(
    ring: seq<u16>, head: nat, tail: nat, dropped: u32,
    producer: Producer, consumer: Consumer,
    offered: seq<Event>, accepted: seq<Event>, lost: seq<Event>, popped: seq<Event>,
    popsSeen: nat, pushesSeen: nat, reported: int)

  datatype Step =
    | PushLoadHead(event: Event)
    | PushLoadTail(pops: nat)
    | PushCountDrop
    | PushStoreSlot
    | PushStoreHead
    | PopLoadTail
    | PopLoadHead(pushes: nat)
    | PopLoadSlot
    | PopStoreTail
    | CountLoadHead(pushes: nat)
    | CountLoadTail

  function Init(): State {
    State(seq(CAPACITY, _ => 0), 0, 0, 0, Idle, Resting, [], [], [], [], 0, 0, 0)
  }

  /** A value the producer may see in the tail: at least what it saw before, at most the newest. */
  predicate Visible(seen: nat, value: nat, newest: nat) { seen <= value <= newest }

  predicate Enabled(s: State, step: Step) {
    match step
    case PushLoadHead(_) => s.producer.Idle?
    case PushLoadTail(pops) => s.producer.HaveHead? && Visible(s.popsSeen, pops, |s.popped|)
    case PushCountDrop => s.producer.SawFull?
    case PushStoreSlot => s.producer.SawRoom? && s.producer.head < |s.ring|
    case PushStoreHead => s.producer.SlotWritten?
    case PopLoadTail => s.consumer.Resting?
    case PopLoadHead(pushes) => s.consumer.HaveTail? && Visible(s.pushesSeen, pushes, |s.accepted|)
    case PopLoadSlot => s.consumer.SawEvent? && s.consumer.tail < |s.ring|
    case PopStoreTail => s.consumer.SlotRead?
    case CountLoadHead(pushes) => s.consumer.Resting? && Visible(s.pushesSeen, pushes, |s.accepted|)
    case CountLoadTail => s.consumer.Counting?
  }

  /** One atomic step of either side; a step that is not enabled does nothing. */
  function Next(s: State, step: Step): State {
    if !Enabled(s, step) then s
    else
      match step
      case PushLoadHead(event) => s.(producer := HaveHead(event, s.head), offered := s.offered + [event])
      case PushLoadTail(pops) =>
        var next := (s.producer.head + 1) % CAPACITY;
        var seen := s.(popsSeen := pops);
        if next == pops % CAPACITY then seen.(producer := SawFull(s.producer.event))
        else seen.(producer := SawRoom(s.producer.event, s.producer.head))
      case PushCountDrop =>
        s.(dropped := (s.dropped + 1) % 0x1_0000_0000, lost := s.lost + [s.producer.event], producer := Idle)
      case PushStoreSlot =>
        s.(ring := s.ring[s.producer.head := Pack(s.producer.event)],
           producer := SlotWritten(s.producer.event, s.producer.head))
      case PushStoreHead =>
        s.(head := (s.producer.head + 1) % CAPACITY, accepted := s.accepted + [s.producer.event], producer := Idle)
      case PopLoadTail => s.(consumer := HaveTail(s.tail))
      case PopLoadHead(pushes) =>
        var seen := s.(pushesSeen := pushes);
        if s.consumer.tail == pushes % CAPACITY then seen.(consumer := Resting)
        else seen.(consumer := SawEvent(s.consumer.tail))
      case PopLoadSlot => s.(consumer := SlotRead(s.consumer.tail, s.ring[s.consumer.tail]))
      case PopStoreTail =>
        s.(tail := (s.consumer.tail + 1) % CAPACITY, popped := s.popped + [Unpack(s.consumer.packed)],
           consumer := Resting)
      case CountLoadHead(pushes) => s.(pushesSeen := pushes, consumer := Counting(pushes % CAPACITY))
      case CountLoadTail => s.(reported := PendingLen(s.consumer.head, s.tail), consumer := Resting)
  }

  /** The arithmetic of `raw_irq_pending_len`. */
  function PendingLen(head: nat, tail: nat): int {
    if head >= tail then head - tail else CAPACITY - tail + head
  }

  function Run(s: State, steps: seq<Step>): State {
    if steps == [] then s else Next(Run(s, steps[..|steps| - 1]), steps[|steps| - 1])
  }

  // ---------- invariant ----------

  predicate Indices(s: State) {
    && |s.ring| == CAPACITY
    && s.head == |s.accepted| % CAPACITY && s.tail == |s.popped| % CAPACITY
    && |s.popped| <= s.pushesSeen <= |s.accepted|
    && s.popsSeen <= |s.popped|
    && |s.accepted| - s.popsSeen < CAPACITY
  }

  predicate Slots(s: State)
    requires |s.ring| == CAPACITY
  {
    && s.popped <= s.accepted
    && forall k | |s.popped| <= k < |s.accepted| :: s.ring[k % CAPACITY] == Pack(s.accepted[k])
  }

  predicate ProducerOk(s: State)
    requires |s.ring| == CAPACITY
  {
    match s.producer
    case Idle => true
    case HaveHead(_, head) => head == s.head
    case SawFull(_) => true
    case SawRoom(_, head) => head == s.head && |s.accepted| - s.popsSeen < CAPACITY - 1
    case SlotWritten(event, head) =>
      head == s.head && head < CAPACITY && |s.accepted| - s.popsSeen < CAPACITY - 1 && s.ring[head] == Pack(event)
  }

  predicate ConsumerOk(s: State) {
    match s.consumer
    case Resting => true
    case HaveTail(tail) => tail == s.tail
    case SawEvent(tail) => tail == s.tail && |s.popped| < s.pushesSeen
    case SlotRead(tail, packed) =>
      tail == s.tail && |s.popped| < s.pushesSeen <= |s.accepted| && packed == Pack(s.accepted[|s.popped|])
    case Counting(head) => head == s.pushesSeen % CAPACITY
  }

  function InFlight(p: Producer): seq<Event> { if p.Idle? then [] else [p.event] }

  /** Every push begun was published, dropped, or is still under way. */
  predicate Accounted(s: State) {
    && multiset(s.offered) == multiset(s.accepted) + multiset(s.lost) + multiset(InFlight(s.producer))
    && |s.offered| == |s.accepted| + |s.lost| + |InFlight(s.producer)|
    && s.dropped == |s.lost| % 0x1_0000_0000
  }

  predicate Inv(s: State) {
    Indices(s) && Slots(s) && ProducerOk(s) && ConsumerOk(s) && Accounted(s)
  }

  lemma FullExactly(n: nat, p: nat)
    requires p <= n && n - p < CAPACITY
    ensures (n % CAPACITY + 1) % CAPACITY == p % CAPACITY <==> n - p == CAPACITY - 1
  {
  }

  lemma EmptyExactly(n: nat, p: nat)
    requires p <= n && n - p < CAPACITY
    ensures n % CAPACITY == p % CAPACITY <==> n == p
  {
  }

  /** Slots stay right while the ring and the published events do, however many are popped. */
  lemma SlotsStay(s: State, t: State)
    requires |s.ring| == CAPACITY && Slots(s)
    requires t.ring == s.ring && t.accepted == s.accepted
    requires |s.popped| <= |t.popped| && t.popped <= t.accepted
    ensures Slots(t)
  {
  }

  lemma SlotAt(s: State, k: nat)
    requires |s.ring| == CAPACITY && Slots(s) && |s.popped| <= k < |s.accepted|
    ensures s.ring[k % CAPACITY] == Pack(s.accepted[k])
  {
  }

  lemma PopsArePublished(s: State)
    requires |s.ring| == CAPACITY && Slots(s)
    ensures s.popped <= s.accepted
  {
  }

  lemma AppendCounts(a: seq<Event>, e: Event)
    ensures multiset(a + [e]) == multiset(a) + multiset([e])
  {
  }

  lemma PushLoadHeadKeeps(s: State, event: Event)
    requires Inv(s)
    ensures Inv(Next(s, PushLoadHead(event)))
  {
    hide Pack, Unpack, Slots;
    PopsArePublished(s);
    SlotsStay(s, Next(s, PushLoadHead(event)));
    AppendCounts(s.offered, event);
  }

  lemma PopLoadTailKeeps(s: State)
    requires Inv(s)
    ensures Inv(Next(s, PopLoadTail))
  {
    hide Pack, Unpack, Slots;
    PopsArePublished(s);
    SlotsStay(s, Next(s, PopLoadTail));
  }

  lemma PushCountDropKeeps(s: State)
    requires Inv(s) && Enabled(s, PushCountDrop)
    ensures Inv(Next(s, PushCountDrop))
  {
    hide Pack, Unpack, Slots;
    PopsArePublished(s);
    SlotsStay(s, Next(s, PushCountDrop));
    AppendCounts(s.lost, s.producer.event);
    DropCount(|s.lost|);
  }

  lemma DropCount(n: nat)
    ensures (n % 0x1_0000_0000 + 1) % 0x1_0000_0000 == (n + 1) % 0x1_0000_0000
  {
  }

  lemma PopLoadSlotKeeps(s: State)
    requires Inv(s) && Enabled(s, PopLoadSlot)
    ensures Inv(Next(s, PopLoadSlot))
  {
    hide Pack, Unpack, Slots;
    PopsArePublished(s);
    SlotsStay(s, Next(s, PopLoadSlot));
    SlotAt(s, |s.popped|);
  }

  lemma PushLoadTailKeeps(s: State, pops: nat)
    requires Inv(s) && Enabled(s, PushLoadTail(pops))
    ensures Inv(Next(s, PushLoadTail(pops)))
    ensures Next(s, PushLoadTail(pops)).producer.SawFull? <==> |s.accepted| - pops == CAPACITY - 1
  {
    hide Pack, Unpack, Slots;
    PopsArePublished(s);
    SlotsStay(s, Next(s, PushLoadTail(pops)));
    FullExactly(|s.accepted|, pops);
  }

  lemma PushStoreSlotKeeps(s: State)
    requires Inv(s) && Enabled(s, PushStoreSlot)
    ensures Inv(Next(s, PushStoreSlot))
  {
    hide Pack, Unpack;
    var n, t := |s.accepted|, Next(s, PushStoreSlot);
    forall k | |s.popped| <= k < n
      ensures t.ring[k % CAPACITY] == Pack(t.accepted[k])
    {
      EmptyExactly(n, k);
      SlotAt(s, k);
    }
  }

  lemma PushStoreHeadKeeps(s: State)
    requires Inv(s) && Enabled(s, PushStoreHead)
    ensures Inv(Next(s, PushStoreHead))
  {
    hide Pack, Unpack, Slots;
    PublishedSlots(s);
    AppendCounts(s.accepted, s.producer.event);
    NextIndex(|s.accepted|);
  }

  /** The slot just written becomes the newest published one. */
  lemma PublishedSlots(s: State)
    requires Inv(s) && Enabled(s, PushStoreHead)
    ensures Slots(Next(s, PushStoreHead))
  {
    hide Pack, Unpack;
    var t := Next(s, PushStoreHead);
    forall k | |t.popped| <= k < |t.accepted|
      ensures t.ring[k % CAPACITY] == Pack(t.accepted[k])
    {
      if k < |s.accepted| {
        SlotAt(s, k);
      }
    }
  }

  lemma NextIndex(n: nat)
    ensures (n % CAPACITY + 1) % CAPACITY == (n + 1) % CAPACITY
  {
  }

  lemma PopLoadHeadKeeps(s: State, pushes: nat)
    requires Inv(s) && Enabled(s, PopLoadHead(pushes))
    ensures Inv(Next(s, PopLoadHead(pushes)))
    ensures Next(s, PopLoadHead(pushes)).consumer.Resting? <==> pushes == |s.popped|
  {
    hide Pack, Unpack, Slots;
    PopsArePublished(s);
    SlotsStay(s, Next(s, PopLoadHead(pushes)));
    EmptyExactly(pushes, |s.popped|);
  }

  lemma PopStoreTailKeeps(s: State)
    requires Inv(s) && Enabled(s, PopStoreTail)
    ensures Inv(Next(s, PopStoreTail))
  {
    hide Pack, Unpack, Slots;
    PackRoundTrip(s.accepted[|s.popped|]);
    PopsArePublished(s);
    var t := Next(s, PopStoreTail);
    assert t.popped == s.accepted[..|s.popped| + 1];
    SlotsStay(s, t);
    NextIndex(|s.popped|);
  }

  lemma CountLoadHeadKeeps(s: State, pushes: nat)
    requires Inv(s) && Enabled(s, CountLoadHead(pushes))
    ensures Inv(Next(s, CountLoadHead(pushes)))
  {
    hide Pack, Unpack, Slots;
    PopsArePublished(s);
    SlotsStay(s, Next(s, CountLoadHead(pushes)));
  }

  lemma CountLoadTailKeeps(s: State)
    requires Inv(s) && Enabled(s, CountLoadTail)
    ensures Inv(Next(s, CountLoadTail))
    ensures Next(s, CountLoadTail).reported == s.pushesSeen - |s.popped|
  {
    hide Pack, Unpack, Slots, PendingLen;
    PopsArePublished(s);
    SlotsStay(s, Next(s, CountLoadTail));
    PendingNow(s.pushesSeen, |s.popped|);
  }

  lemma Stutter(s: State, step: Step)
    requires !Enabled(s, step)
    ensures Next(s, step) == s
  {
  }

  lemma NextKeeps(s: State, step: Step)
    requires Inv(s)
    ensures Inv(Next(s, step))
  {
    hide Inv, Next, Pack;
    if Enabled(s, step) {
      match step
      case PushLoadHead(event) => PushLoadHeadKeeps(s, event);
      case PushLoadTail(pops) => PushLoadTailKeeps(s, pops);
      case PushCountDrop => PushCountDropKeeps(s);
      case PushStoreSlot => PushStoreSlotKeeps(s);
      case PushStoreHead => PushStoreHeadKeeps(s);
      case PopLoadTail => PopLoadTailKeeps(s);
      case PopLoadHead(pushes) => PopLoadHeadKeeps(s, pushes);
      case PopLoadSlot => PopLoadSlotKeeps(s);
      case PopStoreTail => PopStoreTailKeeps(s);
      case CountLoadHead(pushes) => CountLoadHeadKeeps(s, pushes);
      case CountLoadTail => CountLoadTailKeeps(s);
    } else {
      Stutter(s, step);
    }
  }

  lemma {:induction false} RunKeepsFrom(s: State, steps: seq<Step>)
    requires Inv(s)
    ensures Inv(Run(s, steps))
  {
    hide Inv, Next;
    if steps != [] {
      RunKeepsFrom(s, steps[..|steps| - 1]);
      NextKeeps(Run(s, steps[..|steps| - 1]), steps[|steps| - 1]);
    }
  }

  lemma RunKeeps(steps: seq<Step>)
    ensures Inv(Run(Init(), steps))
  {
    RunKeepsFrom(Init(), steps);
  }

  // ---------- theorems over every interleaving ----------

  /** Events come out in the order they were published, none twice and none invented. */
  lemma PoppedIsPrefix(steps: seq<Step>)
    ensures var s := Run(Init(), steps); s.popped <= s.accepted && |s.accepted| - |s.popped| < 256
  {
    RunKeeps(steps);
  }

  /** A push is given up exactly when the tail it loaded showed a full ring. */
  lemma DropOnlyWhenFull(steps: seq<Step>, pops: nat)
    requires Enabled(Run(Init(), steps), PushLoadTail(pops))
    ensures var s := Run(Init(), steps);
            Next(s, PushLoadTail(pops)).producer.SawFull? <==> |s.accepted| - pops == 255
  {
    RunKeeps(steps);
    PushLoadTailKeeps(Run(Init(), steps), pops);
  }

  /** The four steps of a push that finds room. */
  function Push(event: Event, pops: nat): seq<Step> { [PushLoadHead(event), PushLoadTail(pops), PushStoreSlot, PushStoreHead] }

  /** The four steps of a pop that finds an event. */
  function Pop(pushes: nat): seq<Step> { [PopLoadTail, PopLoadHead(pushes), PopLoadSlot, PopStoreTail] }

  lemma RunFour(s: State, steps: seq<Step>)
    requires |steps| == 4
    ensures Run(s, steps) == Next(Next(Next(Next(s, steps[0]), steps[1]), steps[2]), steps[3])
  {
    hide Next;
    assert steps[..3][..2] == steps[..2] && steps[..2][..1] == steps[..1] && steps[..1][..0] == [];
    assert Run(s, steps[..1]) == Next(s, steps[0]);
    assert Run(s, steps[..2]) == Next(Next(s, steps[0]), steps[1]);
    assert Run(s, steps[..3]) == Next(Next(Next(s, steps[0]), steps[1]), steps[2]);
  }

  /** A push with fewer than 255 unread events in sight publishes its event, and does nothing else. */
  lemma PushDelivers(steps: seq<Step>, event: Event, pops: nat)
    requires var s := Run(Init(), steps);
             s.producer == Idle && s.popsSeen <= pops <= |s.popped| && |s.accepted| - pops < 255
    ensures var s := Run(Init(), steps);
            var t := Run(s, Push(event, pops));
            t.accepted == s.accepted + [event] && t.popped == s.popped && t.lost == s.lost && t.dropped == s.dropped
            && t.producer == Idle && t.consumer == s.consumer
  {
    hide Inv, Pack, Unpack, Run;
    RunKeeps(steps);
    var s := Run(Init(), steps);
    IndicesOf(s);
    RunFour(s, Push(event, pops));
    var a := Next(s, PushLoadHead(event));
    NextKeeps(s, PushLoadHead(event));
    PushLoadTailKeeps(a, pops);
  }

  /** With 255 in sight it is dropped and counted. */
  lemma PushDrops(steps: seq<Step>, event: Event)
    requires var s := Run(Init(), steps); s.producer == Idle && |s.accepted| - s.popsSeen == 255
    ensures var s := Run(Init(), steps);
            var t := Next(Next(Next(s, PushLoadHead(event)), PushLoadTail(s.popsSeen)), PushCountDrop);
            t.accepted == s.accepted && t.popped == s.popped && t.lost == s.lost + [event] && t.producer == Idle
            && t.dropped == (s.dropped + 1) % 0x1_0000_0000
  {
    hide Inv, Pack, Unpack, Run;
    RunKeeps(steps);
    var s := Run(Init(), steps);
    IndicesOf(s);
    NextKeeps(s, PushLoadHead(event));
    PushLoadTailKeeps(Next(s, PushLoadHead(event)), s.popsSeen);
  }

  /** A pop that sees an event gives the oldest one not given yet; one that sees none gives none. */
  lemma PopDelivers(steps: seq<Step>, pushes: nat)
    requires var s := Run(Init(), steps); s.consumer == Resting && s.pushesSeen <= pushes <= |s.accepted|
    ensures var s := Run(Init(), steps);
            var t := Run(s, Pop(pushes));
            && t.consumer == Resting && t.accepted == s.accepted && t.producer == s.producer && |s.popped| <= pushes
            && t.popped == s.popped + if pushes > |s.popped| then [s.accepted[|s.popped|]] else []
  {
    hide Inv, Pack, Unpack, Run, Slots;
    RunKeeps(steps);
    var s := Run(Init(), steps);
    IndicesOf(s);
    RunFour(s, Pop(pushes));
    var a := Next(s, PopLoadTail);
    NextKeeps(s, PopLoadTail);
    PopLoadHeadKeeps(a, pushes);
    var b := Next(a, PopLoadHead(pushes));
    if pushes > |s.popped| {
      NextKeeps(b, PopLoadSlot);
      PopGives(Next(b, PopLoadSlot));
    }
  }

  lemma PopGives(s: State)
    requires Inv(s) && s.consumer.SlotRead?
    ensures |s.popped| < |s.accepted| && Unpack(s.consumer.packed) == s.accepted[|s.popped|]
  {
    PackRoundTrip(s.accepted[|s.popped|]);
  }

  /** Two indices give the difference of the counts behind them, as far as a ring can tell. */
  lemma PendingExact(n: nat, p: nat)
    ensures PendingLen(n % 256, p % 256) == (n - p) % 256
  {
  }

  lemma PendingNow(n: nat, p: nat)
    requires p <= n && n - p < CAPACITY
    ensures PendingLen(n % CAPACITY, p % CAPACITY) == n - p
  {
    PendingExact(n, p);
  }

  /** While the consumer counts, nothing is popped and what it saw of the head stays. */
  lemma {:induction false} CountingHolds(s: State, steps: seq<Step>)
    requires s.consumer.Counting? && CountLoadTail !in steps
    ensures var t := Run(s, steps);
            t.consumer == s.consumer && t.popped == s.popped && t.pushesSeen == s.pushesSeen && s.accepted <= t.accepted
  {
    hide Pack, Unpack;
    if steps != [] {
      CountingHolds(s, steps[..|steps| - 1]);
      assert steps[|steps| - 1] in steps;
    }
  }

  /**
   `raw_irq_pending_len` over any interleaving: however many pushes arrive between its two
   loads, it reports the events pending behind the head it loaded, which is less than what
   is pending when it returns by at most those pushes.
   */
  lemma CountReports(before: seq<Step>, pushes: nat, between: seq<Step>)
    requires Enabled(Run(Init(), before), CountLoadHead(pushes)) && CountLoadTail !in between
    ensures var s := Run(Init(), before);
            var t := Next(Run(Next(s, CountLoadHead(pushes)), between), CountLoadTail);
            && t.reported == pushes - |s.popped| && t.popped == s.popped
            && s.pushesSeen - |s.popped| <= t.reported <= |s.accepted| - |s.popped| <= |t.accepted| - |t.popped| < 256
            && (pushes == |s.accepted| ==> t.reported == PendingLen(s.head, s.tail))
  {
    hide Inv, Slots, Pack, Unpack, Accounted, ProducerOk, PendingLen, Run;
    RunKeeps(before);
    var s := Run(Init(), before);
    IndicesOf(s);
    NextKeeps(s, CountLoadHead(pushes));
    var a := Next(s, CountLoadHead(pushes));
    RunKeepsFrom(a, between);
    CountingHolds(a, between);
    var b := Run(a, between);
    NextKeeps(b, CountLoadTail);
    CountLoadTailKeeps(b);
    IndicesOf(Next(b, CountLoadTail));
    PendingNow(|s.accepted|, |s.popped|);
  }

  lemma IndicesOf(s: State)
    requires Inv(s)
    ensures Indices(s)
  {
  }

  /** With neither side in mid-operation, every push is popped, pending or dropped. */
  lemma QuiescentConservation(steps: seq<Step>)
    ensures var s := Run(Init(), steps);
            s.producer.Idle? && s.consumer.Resting? ==>
              && |s.offered| == |s.popped| + PendingLen(s.head, s.tail) + |s.lost|
              && s.dropped == |s.lost| % 0x1_0000_0000
              && multiset(s.offered) == multiset(s.accepted) + multiset(s.lost)
  {
    hide PendingLen, Pack, Unpack, Run, Slots, ConsumerOk;
    RunKeeps(steps);
    var s := Run(Init(), steps);
    PendingNow(|s.accepted|, |s.popped|);
  }
}
