/**
 * The two threads around the queue, one read or write of shared memory at a time: both test `count` before they take
 * the lock, and inside it every index is read, then used, then moved. Any number of steps of either thread may come
 * between any two steps of the other.
 */
module QueueProtocol {
  import opened FrameQueue
  import opened Sequences

  datatype Owner = Free | Receiver | Decoder

  /**
   * Where the receiving thread stands: before its guard, waiting for the lock, and inside EnQueue, where `at` and
   * `was` are what it read last.
   */
  datatype Producer =
    | Offering | WaitToPut(e: Frame)
    | Putting(e: Frame) | NotFull(e: Frame) | Storing(e: Frame, at: nat)
    | Stored(e: Frame) | MovingRear(e: Frame, at: nat)
    | RearMoved(e: Frame) | CountingUp(e: Frame, was: int) | PutDone

  /** Where the decoding thread stands: before and between its guards, waiting for the lock, and inside DeQueue. */
  datatype Consumer =
    | Looking | SawSome | WaitToTake
    | Taking | NotEmpty | Fetching(at: nat)
    | Fetched(e: Frame) | MovingFront(e: Frame, at: nat)
    | FrontMoved(e: Frame) | CountingDown(e: Frame, was: int) | TakeDone

  datatype State = State(
    slots: seq<Frame>, front: nat, rear: nat, count: int, lock: Owner,
    producer: Producer, consumer: Consumer,
    accepted: seq<Frame>,     // frames put, in order
    taken: seq<Frame>,        // frames taken, in order
    refused: bool,            // EnQueue saw a full queue
    exited: bool,             // DeQueue saw an empty queue
    ranLow: bool)             // a dequeue left fewer than four frames

  datatype Event = Put(e: Frame) | Take

  function Initial(slots: seq<Frame>): (s: State)
    ensures |slots| == QUEUESIZE ==> Inv(s)
  {
    State(slots, 0, 0, 0, Free, Offering, Looking, [], [], false, false, false)
  }

  /** The receiving thread's next access; `e` is the frame it offers next. */
  function PutStep(s: State, e: Frame): State
    requires |s.slots| == QUEUESIZE && s.rear < QUEUESIZE
  {
    match s.producer
    case Offering => if s.count == QUEUESIZE then s else s.(producer := WaitToPut(e))
    case WaitToPut(f) => if s.lock != Free then s else s.(lock := Receiver, producer := Putting(f))
    case Putting(f) =>
      if s.count == QUEUESIZE then s.(refused := true, producer := PutDone) else s.(producer := NotFull(f))
    case NotFull(f) => s.(producer := Storing(f, s.rear))
    case Storing(f, at) => if at < QUEUESIZE then s.(slots := s.slots[at := f], producer := Stored(f)) else s
    case Stored(f) => s.(producer := MovingRear(f, s.rear))
    case MovingRear(f, at) => s.(rear := (at + 1) % QUEUESIZE, producer := RearMoved(f))
    case RearMoved(f) => s.(producer := CountingUp(f, s.count))
    case CountingUp(f, was) => s.(count := was + 1, accepted := s.accepted + [f], producer := PutDone)
    case PutDone => s.(lock := Free, producer := Offering)
  }

  /** The decoding thread's next access. */
  function TakeStep(s: State): State
    requires |s.slots| == QUEUESIZE && s.front < QUEUESIZE
  {
    match s.consumer
    case Looking => if s.count == 0 then s else s.(consumer := SawSome)
    case SawSome => if s.count < 5 then s.(consumer := Looking) else s.(consumer := WaitToTake)
    case WaitToTake => if s.lock != Free then s else s.(lock := Decoder, consumer := Taking)
    case Taking =>
      if s.count == 0 then s.(exited := true, consumer := TakeDone) else s.(consumer := NotEmpty)
    case NotEmpty => s.(consumer := Fetching(s.front))
    case Fetching(at) => if at < QUEUESIZE then s.(consumer := Fetched(s.slots[at])) else s
    case Fetched(f) => s.(consumer := MovingFront(f, s.front))
    case MovingFront(f, at) => s.(front := (at + 1) % QUEUESIZE, consumer := FrontMoved(f))
    case FrontMoved(f) => s.(consumer := CountingDown(f, s.count))
    case CountingDown(f, was) =>
      s.(count := was - 1, taken := s.taken + [f], ranLow := s.ranLow || was - 1 < 4, consumer := TakeDone)
    case TakeDone => s.(lock := Free, consumer := Looking)
  }

  function Step(s: State, ev: Event): State
    requires |s.slots| == QUEUESIZE && s.front < QUEUESIZE && s.rear < QUEUESIZE
  {
    match ev
    case Put(e) => PutStep(s, e)
    case Take => TakeStep(s)
  }

  // ---------------------------------------------------------------- the invariant

  /** The slot of the oldest frame that still counts: `front` moves before `count` does. */
  function Oldest(s: State): nat {
    if s.consumer.FrontMoved? || s.consumer.CountingDown? then (s.front + QUEUESIZE - 1) % QUEUESIZE else s.front
  }

  ghost predicate Locking(s: State) {
    && (s.lock == Receiver <==> !s.producer.Offering? && !s.producer.WaitToPut?)
    && (s.lock == Decoder <==> !s.consumer.Looking? && !s.consumer.SawSome? && !s.consumer.WaitToTake?)
  }

  /** What each guard found still holds: only the other thread moves `count`, and in the harmless direction. */
  ghost predicate Guarded(s: State) {
    && 0 <= s.count <= QUEUESIZE
    && (!s.producer.Offering? && !s.producer.PutDone? ==> s.count < QUEUESIZE)
    && (s.consumer.SawSome? ==> s.count >= 1)
    && (!s.consumer.Looking? && !s.consumer.SawSome? && !s.consumer.TakeDone? ==> s.count >= 5)
  }

  /** Inside the lock, what a thread read last is still what stands there. */
  ghost predicate Fresh(s: State) {
    && (s.producer.Storing? || s.producer.MovingRear? ==> s.producer.at == s.rear)
    && (s.producer.CountingUp? ==> s.producer.was == s.count)
    && (s.consumer.Fetching? || s.consumer.MovingFront? ==> s.consumer.at == s.front)
    && (s.consumer.CountingDown? ==> s.consumer.was == s.count)
  }

  ghost predicate Shape(s: State)
    requires 0 <= s.count
  {
    && |s.slots| == QUEUESIZE && s.front < QUEUESIZE && s.rear < QUEUESIZE
    && s.rear == Slot(Oldest(s), s.count + if s.producer.RearMoved? || s.producer.CountingUp? then 1 else 0)
    && (s.producer.Stored? || s.producer.MovingRear? ==> s.slots[s.rear] == s.producer.e)
    && (s.producer.RearMoved? || s.producer.CountingUp? ==> s.slots[Slot(Oldest(s), s.count)] == s.producer.e)
    && (s.consumer.Fetched? || s.consumer.MovingFront? || s.consumer.FrontMoved? || s.consumer.CountingDown? ==>
          s.slots[Oldest(s)] == s.consumer.e)
  }

  ghost predicate Inv(s: State) {
    && Locking(s) && Guarded(s) && Fresh(s) && Shape(s)
    && s.accepted == s.taken + Going(s.slots, Oldest(s), s.count)
    && !s.refused && !s.exited && !s.ranLow
  }

  lemma PutKeepsInv(s: State, e: Frame)
    requires Inv(s)
    ensures Inv(PutStep(s, e))
  {
    hide Going, Slot;
    match s.producer
    case Storing(f, at) => StoreKeepsInv(s);
    case MovingRear(f, at) => RearMoveKeepsInv(s);
    case CountingUp(f, was) => CountUpKeepsInv(s);
    case Offering => PutOutsideKeepsInv(s, e);
    case WaitToPut(f) => PutOutsideKeepsInv(s, e);
    case PutDone => PutOutsideKeepsInv(s, e);
    case _ =>
  }

  lemma PutOutsideKeepsInv(s: State, e: Frame)
    requires Inv(s) && (s.producer.Offering? || s.producer.WaitToPut? || s.producer.PutDone?)
    ensures Inv(PutStep(s, e))
  {
    hide Going, Slot;
  }

  lemma NextSlot(front: nat, n: nat)
    ensures (Slot(front, n) + 1) % QUEUESIZE == Slot(front, n + 1)
  {
  }

  lemma RearMoveKeepsInv(s: State)
    requires Inv(s) && s.producer.MovingRear?
    ensures forall e :: Inv(PutStep(s, e))
  {
    hide Going, Slot;
    NextSlot(Oldest(s), s.count);
  }

  lemma StoreKeepsInv(s: State)
    requires Inv(s) && s.producer.Storing?
    ensures forall e :: Inv(PutStep(s, e))
  {
    var f := s.producer.e;
    GoingOneMore(s.slots, Oldest(s), s.count, f);
    var now := s.slots[s.rear := f];
    assert Going(now, Oldest(s), s.count) == Going(now, Oldest(s), s.count + 1)[..s.count];
    assert Going(now, Oldest(s), s.count) == Going(s.slots, Oldest(s), s.count);
  }

  lemma CountUpKeepsInv(s: State)
    requires Inv(s) && s.producer.CountingUp?
    ensures forall e :: Inv(PutStep(s, e))
  {
    var f := s.producer.e;
    hide Going;
    assert s.slots[Slot(Oldest(s), s.count) := f] == s.slots;
    GoingOneMore(s.slots, Oldest(s), s.count, f);
    assert s.accepted + [f] == s.taken + Going(s.slots, Oldest(s), s.count + 1);
  }

  lemma TakeKeepsInv(s: State)
    requires Inv(s)
    ensures Inv(TakeStep(s))
  {
    hide Going, Slot;
    match s.consumer
    case MovingFront(f, at) => FrontMoveKeepsInv(s);
    case CountingDown(f, was) => CountDownKeepsInv(s);
    case Looking => TakeOutsideKeepsInv(s);
    case SawSome => TakeOutsideKeepsInv(s);
    case WaitToTake => TakeOutsideKeepsInv(s);
    case TakeDone => TakeOutsideKeepsInv(s);
    case _ =>
  }

  lemma TakeOutsideKeepsInv(s: State)
    requires Inv(s)
    requires s.consumer.Looking? || s.consumer.SawSome? || s.consumer.WaitToTake? || s.consumer.TakeDone?
    ensures Inv(TakeStep(s))
  {
    hide Going, Slot;
  }

  lemma FrontMoveKeepsInv(s: State)
    requires Inv(s) && s.consumer.MovingFront?
    ensures Inv(TakeStep(s))
  {
    hide Going, Slot;
    assert Oldest(TakeStep(s)) == Oldest(s);
  }

  lemma SlotBefore(front: nat)
    requires front < QUEUESIZE
    ensures Slot((front + QUEUESIZE - 1) % QUEUESIZE, 1) == front
  {
  }

  lemma CountDownKeepsInv(s: State)
    requires Inv(s) && s.consumer.CountingDown?
    ensures Inv(TakeStep(s))
  {
    hide Going, Slot;
    SlotBefore(s.front);
    SlotBehind(Oldest(s), s.count - 1);
    OldestIsTaken(s);
  }

  /** The frames held, seen from the slot that was the oldest. */
  lemma OldestIsTaken(s: State)
    requires Inv(s) && s.consumer.CountingDown?
    ensures s.accepted == (s.taken + [s.consumer.e]) + Going(s.slots, s.front, s.count - 1)
  {
    hide Going, Slot;
    var o := Oldest(s);
    SlotBefore(s.front);
    GoingTail(s.slots, o, s.count);
    SlotOfOldest(o);
    ConcatAssociative(s.taken, [s.consumer.e], Going(s.slots, s.front, s.count - 1));
  }

  lemma SlotOfOldest(front: nat)
    requires front < QUEUESIZE
    ensures Slot(front, 0) == front
  {
  }

  // ---------------------------------------------------------------- every run

  lemma StepKeepsInv(s: State, ev: Event)
    requires Inv(s)
    ensures Inv(Step(s, ev))
  {
    match ev
    case Put(e) => PutKeepsInv(s, e);
    case Take => TakeKeepsInv(s);
  }

  /** The two threads interleaved in any way. */
  ghost function Run(s: State, events: seq<Event>): State
    requires Inv(s)
    decreases |events|
  {
    if events == [] then s
    else
      StepKeepsInv(s, events[0]);
      Run(Step(s, events[0]), events[1..])
  }

  lemma {:induction false} RunKeepsInv(s: State, events: seq<Event>)
    requires Inv(s)
    ensures Inv(Run(s, events))
    decreases |events|
  {
    if events != [] {
      StepKeepsInv(s, events[0]);
      RunKeepsInv(Step(s, events[0]), events[1..]);
    }
  }

  /**
   * Under every interleaving: EnQueue never sees a full queue, DeQueue never an empty one, at least four frames stay
   * after each dequeue, and the frames taken are the first of those put, in their order, the others still in the queue.
   */
  lemma EveryRunIsSafe(slots: seq<Frame>, events: seq<Event>)
    requires |slots| == QUEUESIZE
    ensures var s := Run(Initial(slots), events);
            && !s.refused && !s.exited && !s.ranLow
            && s.taken <= s.accepted
            && |s.accepted| - |s.taken| == s.count <= QUEUESIZE
  {
    RunKeepsInv(Initial(slots), events);
  }

  // ---------------------------------------------------------------- undisturbed inside the lock

  function Times(n: nat, ev: Event): seq<Event> {
    if n == 0 then [] else [ev] + Times(n - 1, ev)
  }

  /** One more access, whose outcome is t. */
  lemma RunOnce(s: State, n: nat, ev: Event, t: State)
    requires Inv(s) && n > 0 && t == Step(s, ev)
    ensures Inv(t) && Run(s, Times(n, ev)) == Run(t, Times(n - 1, ev))
  {
    StepKeepsInv(s, ev);
    assert Times(n, ev)[1..] == Times(n - 1, ev);
  }

  lemma RunNone(s: State, ev: Event)
    requires Inv(s)
    ensures Run(s, Times(0, ev)) == s
  {
  }

  lemma InBounds(s: State)
    requires Inv(s)
    ensures |s.slots| == QUEUESIZE && s.front < QUEUESIZE && s.rear < QUEUESIZE && 0 <= s.count <= QUEUESIZE
  {
  }

  lemma RearBehindLast(s: State)
    requires Inv(s) && s.producer.Putting?
    ensures s.rear == Slot(s.front, s.count)
  {
  }

  /** EnQueue up to the frame stored in its slot. */
  lemma PutStored(s: State, e: Frame, m: nat) returns (t: State)
    requires Inv(s) && s.producer.Putting?
    ensures Inv(t) && Run(s, Times(m + 7, Put(e))) == Run(t, Times(m + 4, Put(e)))
    ensures s.rear < |s.slots| && s.count < QUEUESIZE
    ensures t == s.(slots := s.slots[s.rear := s.producer.e], producer := Stored(s.producer.e))
  {
    InBounds(s);
    assert s.count < QUEUESIZE;
    hide Inv, Run, Times;
    var f, last := s.producer.e, s.rear;
    var s1, s2 := s.(producer := NotFull(f)), s.(producer := Storing(f, last));
    t := s.(slots := s.slots[last := f], producer := Stored(f));
    RunOnce(s, m + 7, Put(e), s1);
    RunOnce(s1, m + 6, Put(e), s2);
    RunOnce(s2, m + 5, Put(e), t);
  }

  /** EnQueue from there on. */
  lemma PutCounted(s: State, e: Frame, m: nat) returns (t: State)
    requires Inv(s) && s.producer.Stored?
    ensures Inv(t) && Run(s, Times(m + 4, Put(e))) == Run(t, Times(m, Put(e)))
    ensures t == s.(rear := (s.rear + 1) % QUEUESIZE, count := s.count + 1,
                    accepted := s.accepted + [s.producer.e], producer := PutDone)
  {
    InBounds(s);
    hide Inv, Run, Times;
    var f := s.producer.e;
    var s1 := s.(producer := MovingRear(f, s.rear));
    var s2 := s.(rear := (s.rear + 1) % QUEUESIZE, producer := RearMoved(f));
    var s3 := s2.(producer := CountingUp(f, s.count));
    t := s2.(count := s.count + 1, accepted := s.accepted + [f], producer := PutDone);
    RunOnce(s, m + 4, Put(e), s1);
    RunOnce(s1, m + 3, Put(e), s2);
    RunOnce(s2, m + 2, Put(e), s3);
    RunOnce(s3, m + 1, Put(e), t);
  }

  /** A receiver that is not disturbed inside its lock does what EnQueue does on the frames held. */
  lemma EnQueueStepByStep(s: State, e: Frame) returns (t: State)
    requires Inv(s) && s.producer.Putting?
    ensures t == Run(s, Times(7, Put(e))) && t.producer.PutDone? && Inv(t)
    ensures t.front == s.front && t.rear == Slot(t.front, t.count) && t.accepted == s.accepted + [s.producer.e]
    ensures Going(t.slots, t.front, t.count) == Going(s.slots, s.front, s.count) + [s.producer.e]
  {
    hide Run, Times, Inv, Going, Slot;
    InBounds(s);
    RearBehindLast(s);
    var stored := PutStored(s, e, 0);
    t := PutCounted(stored, e, 0);
    RunNone(t, Put(e));
    GoingOneMore(s.slots, s.front, s.count, s.producer.e);
    NextSlot(s.front, s.count);
  }

  /** DeQueue up to the frame fetched from its slot. */
  lemma TakeFetched(s: State, m: nat) returns (t: State)
    requires Inv(s) && s.consumer.Taking?
    ensures Inv(t) && Run(s, Times(m + 7, Take)) == Run(t, Times(m + 4, Take))
    ensures s.front < |s.slots| && t == s.(consumer := Fetched(s.slots[s.front]))
  {
    hide Inv, Run, Times;
    InBounds(s);
    EnoughToTake(s);
    var s1, s2 := s.(consumer := NotEmpty), s.(consumer := Fetching(s.front));
    t := s.(consumer := Fetched(s.slots[s.front]));
    RunOnce(s, m + 7, Take, s1);
    RunOnce(s1, m + 6, Take, s2);
    RunOnce(s2, m + 5, Take, t);
  }

  lemma EnoughToTake(s: State)
    requires Inv(s) && (s.consumer.Taking? || s.consumer.Fetched?)
    ensures s.count >= 5 && !s.ranLow
  {
    hide Going, Slot;
  }

  /** DeQueue from there on. */
  lemma TakeCounted(s: State, m: nat) returns (t: State)
    requires Inv(s) && s.consumer.Fetched?
    ensures Inv(t) && Run(s, Times(m + 4, Take)) == Run(t, Times(m, Take))
    ensures s.count >= 5 && t == s.(front := (s.front + 1) % QUEUESIZE, count := s.count - 1,
                                    taken := s.taken + [s.consumer.e], consumer := TakeDone)
  {
    hide Inv, Run, Times;
    InBounds(s);
    EnoughToTake(s);
    var f := s.consumer.e;
    var s1 := s.(consumer := MovingFront(f, s.front));
    var s2 := s.(front := (s.front + 1) % QUEUESIZE, consumer := FrontMoved(f));
    var s3 := s2.(consumer := CountingDown(f, s.count));
    t := s2.(count := s.count - 1, taken := s.taken + [f], consumer := TakeDone);
    RunOnce(s, m + 4, Take, s1);
    RunOnce(s1, m + 3, Take, s2);
    RunOnce(s2, m + 2, Take, s3);
    RunOnce(s3, m + 1, Take, t);
  }

  /** A decoder that is not disturbed inside its lock does what DeQueue does on the frames held. */
  lemma DeQueueStepByStep(s: State) returns (t: State)
    requires Inv(s) && s.consumer.Taking?
    ensures t == Run(s, Times(7, Take)) && t.consumer.TakeDone? && Inv(t)
    ensures t.rear == s.rear && t.taken == s.taken + [s.slots[s.front]]
    ensures Going(s.slots, s.front, s.count) == [s.slots[s.front]] + Going(t.slots, t.front, t.count)
  {
    hide Run, Times, Inv, Going, Slot;
    InBounds(s);
    var fetched := TakeFetched(s, 0);
    t := TakeCounted(fetched, 0);
    RunNone(t, Take);
    GoingTail(s.slots, s.front, s.count);
    SlotsAt(s.front);
  }

  // ---------------------------------------------------------------- a whole round, guards included

  /** The guard and the lock of the receiver. */
  lemma PutLocked(s: State, e: Frame, m: nat) returns (t: State)
    requires Inv(s) && s.producer.Offering? && s.lock == Free && s.count < 100
    ensures Inv(t) && Run(s, Times(m + 2, Put(e))) == Run(t, Times(m, Put(e)))
    ensures t == s.(lock := Receiver, producer := Putting(e))
  {
    InBounds(s);
    hide Inv, Run, Times;
    var s1 := s.(producer := WaitToPut(e));
    t := s.(lock := Receiver, producer := Putting(e));
    RunOnce(s, m + 2, Put(e), s1);
    RunOnce(s1, m + 1, Put(e), t);
  }

  lemma PutUnlocked(s: State, e: Frame) returns (t: State)
    requires Inv(s) && s.producer.PutDone?
    ensures Run(s, Times(1, Put(e))) == t == s.(lock := Free, producer := Offering)
  {
    InBounds(s);
    hide Inv, Run, Times;
    t := s.(lock := Free, producer := Offering);
    RunOnce(s, 1, Put(e), t);
    RunNone(t, Put(e));
  }

  /** A receiver left alone that is offered a frame while 100 are held drops it. */
  lemma PutDropped(s: State, e: Frame)
    requires Inv(s) && s.producer.Offering? && s.count >= 100
    ensures Run(s, Times(1, Put(e))) == s
  {
    InBounds(s);
    hide Inv, Run, Times;
    RunOnce(s, 1, Put(e), s);
    RunNone(s, Put(e));
  }

  /** While fewer are held, it puts the frame it is offered behind the last one. */
  lemma PutRound(s: State, e: Frame)
    requires Inv(s) && s.producer.Offering? && s.lock == Free && s.count < 100
    ensures s.rear < |s.slots|
    ensures Run(s, Times(10, Put(e))) == s.(slots := s.slots[s.rear := e], rear := (s.rear + 1) % 100,
                                            count := s.count + 1, accepted := s.accepted + [e])
  {
    hide Inv, Run, Times;
    InBounds(s);
    var s1 := PutLocked(s, e, 8);
    var s2 := PutStored(s1, e, 1);
    var s3 := PutCounted(s2, e, 1);
    var s4 := PutUnlocked(s3, e);
  }

  /** The guards and the lock of the decoder. */
  lemma TakeLocked(s: State, m: nat) returns (t: State)
    requires Inv(s) && s.consumer.Looking? && s.lock == Free && s.count >= 5
    ensures Inv(t) && Run(s, Times(m + 3, Take)) == Run(t, Times(m, Take))
    ensures t == s.(lock := Decoder, consumer := Taking)
  {
    InBounds(s);
    hide Inv, Run, Times;
    var s1, s2 := s.(consumer := SawSome), s.(consumer := WaitToTake);
    t := s.(lock := Decoder, consumer := Taking);
    RunOnce(s, m + 3, Take, s1);
    RunOnce(s1, m + 2, Take, s2);
    RunOnce(s2, m + 1, Take, t);
  }

  lemma TakeUnlocked(s: State) returns (t: State)
    requires Inv(s) && s.consumer.TakeDone?
    ensures Run(s, Times(1, Take)) == t == s.(lock := Free, consumer := Looking)
  {
    InBounds(s);
    hide Inv, Run, Times;
    t := s.(lock := Free, consumer := Looking);
    RunOnce(s, 1, Take, t);
    RunNone(t, Take);
  }

  /** A decoder left alone takes nothing while fewer than five frames are held. */
  lemma TakeNothing(s: State)
    requires Inv(s) && s.consumer.Looking? && s.count < 5
    ensures Run(s, Times(2, Take)) == s
  {
    InBounds(s);
    hide Inv, Run, Times;
    var s1 := if s.count == 0 then s else s.(consumer := SawSome);
    RunOnce(s, 2, Take, s1);
    RunOnce(s1, 1, Take, s);
    RunNone(s, Take);
  }

  /** While there are five or more, it takes the oldest. */
  lemma TakeRound(s: State)
    requires Inv(s) && s.consumer.Looking? && s.lock == Free && s.count >= 5
    ensures s.front < |s.slots|
    ensures Run(s, Times(11, Take)) == s.(front := (s.front + 1) % 100, count := s.count - 1,
                                          taken := s.taken + [s.slots[s.front]])
  {
    hide Inv, Run, Times;
    InBounds(s);
    var s1 := TakeLocked(s, 8);
    var s2 := TakeFetched(s1, 1);
    var s3 := TakeCounted(s2, 1);
    var s4 := TakeUnlocked(s3);
  }

  // ---------------------------------------------------------------- which frames

  /** The frames that the events offered while the receiving thread could take one up. */
  ghost function Offered(s: State, events: seq<Event>): seq<Frame>
    requires Inv(s)
    decreases |events|
  {
    if events == [] then []
    else
      StepKeepsInv(s, events[0]);
      var later := Offered(Step(s, events[0]), events[1..]);
      if events[0].Put? && s.producer.Offering? && s.count != 100 then [events[0].e] + later else later
  }

  /** The frame on its way into the queue. */
  function InHand(s: State): seq<Frame> {
    match s.producer
    case Offering => []
    case PutDone => []
    case WaitToPut(e) => [e]
    case Putting(e) => [e]
    case NotFull(e) => [e]
    case Storing(e, _) => [e]
    case Stored(e) => [e]
    case MovingRear(e, _) => [e]
    case RearMoved(e) => [e]
    case CountingUp(e, _) => [e]
  }

  lemma StepCarries(s: State, ev: Event)
    requires Inv(s)
    ensures var t := Step(s, ev);
            t.accepted + InHand(t) == s.accepted + InHand(s) +
              if ev.Put? && s.producer.Offering? && s.count != 100 then [ev.e] else []
  {
    hide Going, Slot, Locking;
    match ev
    case Put(e) => PutCarries(s, e);
    case Take =>
  }

  lemma PutCarries(s: State, e: Frame)
    requires Inv(s)
    ensures var t := PutStep(s, e);
            t.accepted + InHand(t) == s.accepted + InHand(s) +
              if s.producer.Offering? && s.count != 100 then [e] else []
  {
    hide Going, Slot, Locking;
  }

  /** The frames accepted, and the one on its way, are those offered. */
  lemma {:induction false} AcceptedAreOffered(s: State, events: seq<Event>)
    requires Inv(s)
    ensures var t := Run(s, events); t.accepted + InHand(t) == s.accepted + InHand(s) + Offered(s, events)
    decreases |events|
  {
    hide Inv, Step, InHand;
    if events == [] {
      assert s.accepted + InHand(s) + [] == s.accepted + InHand(s);
    } else {
      InBounds(s);
      StepKeepsInv(s, events[0]);
      StepCarries(s, events[0]);
      AcceptedAreOffered(Step(s, events[0]), events[1..]);
      var now := if events[0].Put? && s.producer.Offering? && s.count != 100 then [events[0].e] else [];
      ConcatAssociative(s.accepted + InHand(s), now, Offered(Step(s, events[0]), events[1..]));
    }
  }

  /** From an empty queue, under every interleaving: the frames taken are the first of those offered, in their order. */
  lemma TakenAsOffered(slots: seq<Frame>, events: seq<Event>)
    requires |slots| == QUEUESIZE
    ensures var s, offered := Run(Initial(slots), events), Offered(Initial(slots), events);
            s.taken <= offered && s.accepted + InHand(s) == offered
  {
    AcceptedAreOffered(Initial(slots), events);
    EveryRunIsSafe(slots, events);
    hide Inv, Run, Offered, InHand;
    assert [] + [] + Offered(Initial(slots), events) == Offered(Initial(slots), events);
  }
}
