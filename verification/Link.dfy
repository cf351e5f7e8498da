/** Link-layer payloads and the one error the link makes: flipping a single bit. */
module Payloads {
  type Payload = seq<bv8>

  function Bit(b: nat): bv8
    requires b < 8
  {
    if b == 0 then 1 else if b == 1 then 2 else if b == 2 then 4 else if b == 3 then 8
    else if b == 4 then 16 else if b == 5 then 32 else if b == 6 then 64 else 128
  }

  datatype Flip = NoFlip | FlipAt(index: nat, bit: nat)

  predicate FlipOk(f: Flip, m: Payload) {
    f.FlipAt? ==> f.index < |m| && f.bit < 8
  }

  function Corrupt(m: Payload, f: Flip): (r: Payload)
    requires FlipOk(f, m)
    ensures |r| == |m|
  {
    match f
    case NoFlip => m
    case FlipAt(i, b) => m[i := m[i] ^ Bit(b)]
  }

  /** Bit `b` of a byte, counted from the lowest, is set. */
  predicate HasBit(x: bv8, b: nat)
    requires b < 8
  {
    (x >> b) & 1 == 1
  }

  lemma BitIs(b: nat)
    requires b < 8
    ensures Bit(b) == (1 as bv8) << b
  {
  }

  lemma FlippedBit(x: bv8, b: nat, c: nat)
    requires b < 8 && c < 8
    ensures HasBit(x ^ Bit(b), c) <==> (HasBit(x, c) != (c == b))
  {
    FlippedLow(x, b, c);
  }

  lemma FlippedLow(x: bv8, b: nat, c: nat)
    requires b < 8 && c < 8
    ensures ((x ^ Bit(b)) >> c) & 1 == ((x >> c) & 1) ^ (if c == b then 1 else 0)
  {
    match b
    case 0 => case 1 => case 2 => case 3 => case 4 => case 5 => case 6 => case _ =>
  }

  /** A flip changes the one bit it names, and no other. */
  lemma CorruptFlipsOne(m: Payload, f: Flip, j: nat, c: nat)
    requires FlipOk(f, m) && j < |m| && c < 8
    ensures (HasBit(Corrupt(m, f)[j], c) != HasBit(m[j], c)) <==> f == FlipAt(j, c)
  {
    if f.FlipAt? && f.index == j {
      FlippedBit(m[j], f.bit, c);
    }
  }
}

/**
  The link emulator: a producer thread puts received messages into a bounded buffer, a
  scheduler thread moves them one at a time onto the link and delivers them when their
  time has come. Threads interleave between the critical sections; each step below is one
  critical section or one stretch of a thread's own code.
 */
module LinkSpec {
  import opened Payloads

  /** `serialization_delay`, `delay` and `BUFFER_SIZE`. */
  datatype Params = Params(s: nat, d: nat, capacity: nat)

  /** A message on the link: when its round began, when it left the buffer, when it is due. */
  datatype InFlight = InFlight(m: Payload, round: int, left: int, finish: int)

  /** A delivery: the round's reading of the clock, and the clock itself. */
  datatype Delivery = Delivery(item: InFlight, round: int, wall: int)

  datatype Producer = Receiving | Received(m: Payload) | Checked(m: Payload, overflow: bool) | Ready(m: Payload)

  datatype Scheduler =
    | Top | Delivering | Peeking | Peeked | Taking | Moving(m: Payload, left: int)
    | Rounded | Sleeping(until: int) | AboutToWait | Blocked | Aborted

  datatype State = State(
    clock: int, idleTime: int, crtTime: int, stuff: bool,
    buffer: seq<Payload>, inFlight: seq<InFlight>,
    producer: Producer, scheduler: Scheduler,
    accepted: seq<Payload>, delivered: seq<Delivery>)

  function Start(clock: int): State
  {
    State(clock, 0, clock, false, [], [], Receiving, Top, [], [])
  }

  datatype Step =
    | Tick(n: nat)
    | Receive(msg: Payload) | CheckSpace | Drop | Keep(flip: Flip) | Enqueue
    | ReadClock | Deliver | StopDelivering | Peek | StartMove | SkipMove | Take | Launch
    | Sleep | WakeUp | GoWait | Wait | Wake

  /** The message at the head of the link is due at this round's time. */
  predicate Due(s: State) {
    s.inFlight != [] && s.crtTime >= s.inFlight[0].finish
  }

  /** `wait_time_idle > 0 || wait_time_send > 0`. */
  predicate MustSleep(s: State) {
    s.idleTime - s.crtTime > 0 || (s.inFlight != [] && s.inFlight[0].finish - s.crtTime > 0)
  }

  /**
    How long the round sleeps: until the link is idle, or until the head of the link is due
    if that is sooner. When only the head is waited for, the sleep is empty.
   */
  function WaitTime(s: State): nat {
    var idle := s.idleTime - s.crtTime;
    var wait := if idle > 0 then idle else 0;
    if s.inFlight == [] then wait
    else
      var send := s.inFlight[0].finish - s.crtTime;
      if 0 < send < wait then send else wait
  }

  predicate Enabled(p: Params, s: State, step: Step) {
    s.scheduler != Aborted &&
    match step
    case Tick(_) => true
    case Receive(_) => s.producer.Receiving?
    case CheckSpace => s.producer.Received?
    case Drop => s.producer.Checked?
    case Keep(flip) => s.producer.Checked? && !s.producer.overflow && FlipOk(flip, s.producer.m)
    case Enqueue => s.producer.Ready?
    case ReadClock => s.scheduler == Top
    case Deliver => s.scheduler == Delivering && Due(s)
    case StopDelivering => s.scheduler == Delivering && !Due(s)
    case Peek => s.scheduler == Peeking
    case StartMove => s.scheduler == Peeked && s.stuff && s.crtTime >= s.idleTime
    case SkipMove => s.scheduler == Peeked && !(s.stuff && s.crtTime >= s.idleTime)
    case Take => s.scheduler == Taking
    case Launch => s.scheduler.Moving?
    case Sleep => s.scheduler == Rounded && MustSleep(s)
    case WakeUp => s.scheduler.Sleeping? && s.clock >= s.scheduler.until
    case GoWait => s.scheduler == Rounded && !MustSleep(s)
    case Wait => s.scheduler == AboutToWait
    case Wake => s.scheduler == Blocked
  }

  function Apply(p: Params, s: State, step: Step): State
    requires Enabled(p, s, step)
  {
    match step
    case Tick(n) => s.(clock := s.clock + n)
    case Receive(msg) => s.(producer := Received(msg))
    case CheckSpace => s.(producer := Checked(s.producer.m, |s.buffer| >= p.capacity))
    case Drop => s.(producer := Receiving)
    case Keep(flip) => s.(producer := Ready(Corrupt(s.producer.m, flip)))
    case Enqueue =>
      s.(buffer := s.buffer + [s.producer.m], accepted := s.accepted + [s.producer.m], producer := Receiving)
    case ReadClock => s.(crtTime := s.clock, scheduler := Delivering)
    case Deliver =>
      s.(inFlight := s.inFlight[1..], delivered := s.delivered + [Delivery(s.inFlight[0], s.crtTime, s.clock)])
    case StopDelivering => s.(scheduler := Peeking)
    case Peek => s.(stuff := |s.buffer| > 0, scheduler := Peeked)
    case StartMove => s.(idleTime := s.crtTime + p.s, scheduler := Taking)
    case SkipMove => s.(scheduler := Rounded)
    case Take =>
      // `dequeue` returns NULL on an empty buffer, and the assertion after it fails
      if s.buffer == [] then s.(scheduler := Aborted)
      else s.(buffer := s.buffer[1..], scheduler := Moving(s.buffer[0], s.clock))
    case Launch =>
      var item := InFlight(s.scheduler.m, s.crtTime, s.scheduler.left, s.crtTime + p.s + p.d);
      s.(inFlight := s.inFlight + [item], scheduler := Rounded)
    case Sleep => s.(scheduler := Sleeping(s.clock + WaitTime(s)))
    case WakeUp => s.(scheduler := Top)
    case GoWait => s.(scheduler := AboutToWait)
    case Wait => s.(scheduler := if s.buffer != [] then Aborted else Blocked)
    case Wake => s.(scheduler := Top)
  }

  /** The states every interleaving can reach, by the steps that lead there. */
  ghost predicate Leads(p: Params, s: State, steps: seq<Step>, s': State)
    decreases |steps|
  {
    if steps == [] then s' == s
    else Enabled(p, s, steps[0]) && Leads(p, Apply(p, s, steps[0]), steps[1..], s')
  }
}

/** What holds at every interleaving of the link's two threads. */
module LinkRuns {
  import opened Payloads
  import opened LinkSpec

  // ---------- Order and conservation ----------

  function Delivered(ds: seq<Delivery>): seq<Payload> {
    seq(|ds|, i requires 0 <= i < |ds| => ds[i].item.m)
  }

  function Flying(fs: seq<InFlight>): seq<Payload> {
    seq(|fs|, i requires 0 <= i < |fs| => fs[i].m)
  }

  function BeingMoved(s: State): seq<Payload> {
    if s.scheduler.Moving? then [s.scheduler.m] else []
  }

  /** Accepted messages, in order: delivered, then in flight, then the one being moved, then buffered. */
  ghost predicate Conserved(s: State) {
    s.accepted == Delivered(s.delivered) + Flying(s.inFlight) + BeingMoved(s) + s.buffer
  }

  lemma StepConserves(p: Params, s: State, step: Step)
    requires Conserved(s) && Enabled(p, s, step)
    ensures Conserved(Apply(p, s, step))
  {
  }

  // ---------- Capacity ----------

  /** A producer past the size check still finds room when it takes the lock again. */
  ghost predicate Capacious(p: Params, s: State) {
    && |s.buffer| <= p.capacity
    && ((s.producer.Checked? && !s.producer.overflow) || s.producer.Ready? ==> |s.buffer| < p.capacity)
  }

  // ---------- Timing ----------

  /** Everything ever put on the link, oldest first. */
  function Launched(s: State): seq<InFlight> {
    seq(|s.delivered|, i requires 0 <= i < |s.delivered| => s.delivered[i].item) + s.inFlight
  }

  ghost predicate Gaps(p: Params, fs: seq<InFlight>) {
    forall i :: 0 < i < |fs| ==> fs[i].finish - fs[i - 1].finish >= p.s
  }

  ghost predicate ItemOk(p: Params, s: State, f: InFlight) {
    f.round <= s.crtTime && f.round <= f.left <= s.clock && f.finish == f.round + p.s + p.d
  }

  ghost predicate BetweenIdleAndTake(s: State) {
    s.scheduler == Taking || s.scheduler.Moving?
  }

  ghost predicate Timed(p: Params, s: State) {
    && s.crtTime <= s.clock
    && (s.scheduler.Moving? ==> s.crtTime <= s.scheduler.left <= s.clock)
    && (BetweenIdleAndTake(s) ==> s.idleTime == s.crtTime + p.s)
    && Gaps(p, Launched(s))
    && (forall f :: f in Launched(s) ==> ItemOk(p, s, f))
    && (Launched(s) != [] ==>
          Launched(s)[|Launched(s)| - 1].finish <= s.idleTime + p.d - (if BetweenIdleAndTake(s) then p.s else 0))
    && (forall x :: x in s.delivered ==> x.round >= x.item.finish && x.wall >= x.round)
  }

  /** The scheduler is past the delivery loop of its round. */
  ghost predicate PastDelivery(s: State) {
    s.scheduler in {Peeking, Peeked, Taking, Rounded, AboutToWait, Blocked} || s.scheduler.Moving? ||
    s.scheduler.Sleeping?
  }

  /** What the snapshot of the buffer and the round's clock reading imply later in the round. */
  ghost predicate RoundOk(p: Params, s: State) {
    && (PastDelivery(s) && s.inFlight != [] ==> s.inFlight[0].finish > s.crtTime)
    && (s.scheduler == Taking ==> s.buffer != [])
    && (s.scheduler == Peeked && s.stuff ==> s.buffer != [])
    && (s.scheduler == Taking || s.scheduler.Moving? ==> s.idleTime > s.crtTime)
    && (s.scheduler == Rounded && s.stuff ==> s.idleTime > s.crtTime)
    && (s.scheduler == AboutToWait || s.scheduler == Blocked ==>
          s.inFlight == [] && !s.stuff && s.idleTime <= s.crtTime)
  }

  lemma StepKeepsTiming(p: Params, s: State, step: Step)
    requires p.s > 0 && Timed(p, s) && Enabled(p, s, step)
    ensures Timed(p, Apply(p, s, step))
  {
    if step == Deliver {
      DeliverKeepsTiming(p, s);
    } else if step == Launch {
      LaunchKeepsTiming(p, s);
    } else {
      OtherStepsKeepTiming(p, s, step);
    }
  }

  lemma DeliverKeepsTiming(p: Params, s: State)
    requires Timed(p, s) && Enabled(p, s, Deliver)
    ensures Timed(p, Apply(p, s, Deliver))
  {
    assert Launched(Apply(p, s, Deliver)) == Launched(s);
  }

  /** Steps that put nothing on the link and take nothing off it. */
  lemma OtherStepsKeepTiming(p: Params, s: State, step: Step)
    requires Timed(p, s) && Enabled(p, s, step) && step != Deliver && step != Launch
    ensures Timed(p, Apply(p, s, step))
  {
    var s' := Apply(p, s, step);
    assert s'.delivered == s.delivered && s'.inFlight == s.inFlight;
    assert Launched(s') == Launched(s);
  }

  lemma LaunchKeepsTiming(p: Params, s: State)
    requires p.s > 0 && Timed(p, s) && Enabled(p, s, Launch)
    ensures Timed(p, Apply(p, s, Launch))
  {
    var s' := Apply(p, s, Launch);
    var item := s'.inFlight[|s.inFlight|];
    assert Launched(s') == Launched(s) + [item];
  }

  lemma StepKeepsRound(p: Params, s: State, step: Step)
    requires p.s > 0 && RoundOk(p, s) && Enabled(p, s, step)
    ensures RoundOk(p, Apply(p, s, step))
  {
  }

  ghost predicate Inv(p: Params, s: State) {
    Conserved(s) && Capacious(p, s) && Timed(p, s) && RoundOk(p, s)
  }

  lemma StepKeepsCapacity(p: Params, s: State, step: Step)
    requires Capacious(p, s) && Enabled(p, s, step)
    ensures Capacious(p, Apply(p, s, step))
  {
  }

  lemma StepKeepsInv(p: Params, s: State, step: Step)
    requires p.s > 0 && Inv(p, s) && Enabled(p, s, step)
    ensures Inv(p, Apply(p, s, step))
  {
    StepConserves(p, s, step);
    StepKeepsCapacity(p, s, step);
    StepKeepsTiming(p, s, step);
    StepKeepsRound(p, s, step);
  }

  /** Every interleaving keeps all of this. */
  lemma {:induction false} EveryInterleaving(p: Params, s: State, steps: seq<Step>, s': State)
    requires p.s > 0 && Inv(p, s) && Leads(p, s, steps, s')
    ensures Inv(p, s')
    decreases |steps|
  {
    if steps != [] {
      StepKeepsInv(p, s, steps[0]);
      EveryInterleaving(p, Apply(p, s, steps[0]), steps[1..], s');
    }
  }

  ghost predicate Reachable(p: Params, s: State) {
    exists clock: nat, steps :: Leads(p, Start(clock), steps, s)
  }

  lemma ReachableInv(p: Params, s: State)
    requires p.s > 0 && Reachable(p, s)
    ensures Inv(p, s)
  {
    var clock: nat, steps :| Leads(p, Start(clock), steps, s);
    EveryInterleaving(p, Start(clock), steps, s);
  }

  // ---------- Main results ----------

  lemma {:induction false} GapsAddUp(p: Params, fs: seq<InFlight>)
    requires Gaps(p, fs) && |fs| > 0
    ensures fs[|fs| - 1].finish - fs[0].finish >= (|fs| - 1) * p.s
  {
    if |fs| > 1 {
      GapsAddUp(p, fs[..|fs| - 1]);
      assert (|fs| - 1) * p.s == (|fs| - 2) * p.s + p.s;
    }
  }

  /**
    In-flight finish times are strictly increasing with gaps of at least S; after the
    delivery loop of a round the n >= 1 messages in flight satisfy (n-1)*S < S+D.
   */
  lemma FlightTimes(p: Params, s: State)
    requires p.s > 0 && Reachable(p, s)
    ensures Gaps(p, s.inFlight)
    ensures PastDelivery(s) && s.inFlight != [] ==> (|s.inFlight| - 1) * p.s < p.s + p.d
  {
    ReachableInv(p, s);
    FlightIsLaunched(p, s);
    if s.inFlight != [] {
      GapsAddUp(p, s.inFlight);
    }
  }

  lemma FlightIsLaunched(p: Params, s: State)
    requires Timed(p, s)
    ensures Gaps(p, s.inFlight) && forall i :: 0 <= i < |s.inFlight| ==> ItemOk(p, s, s.inFlight[i])
  {
    var all, k := Launched(s), |s.delivered|;
    forall i | 0 < i < |s.inFlight|
      ensures s.inFlight[i].finish - s.inFlight[i - 1].finish >= p.s
    {
      assert s.inFlight[i] == all[k + i] && s.inFlight[i - 1] == all[k + i - 1];
    }
    forall i | 0 <= i < |s.inFlight|
      ensures ItemOk(p, s, s.inFlight[i])
    {
      assert s.inFlight[i] == all[k + i];
    }
  }

  /**
    A message is delivered no earlier than S+D after the clock reading of the round it left
    the buffer in, whatever the interleaving; by the clock at the moment it left, it is
    early by at most the time that passed since that reading.
   */
  lemma NeverEarly(p: Params, s: State, x: Delivery)
    requires p.s > 0 && Reachable(p, s) && x in s.delivered
    ensures x.wall >= x.round >= x.item.round + p.s + p.d
    ensures x.item.round <= x.item.left
    ensures x.wall - x.item.left >= p.s + p.d - (x.item.left - x.item.round)
  {
    ReachableInv(p, s);
    var i :| 0 <= i < |s.delivered| && s.delivered[i] == x;
    assert Launched(s)[i] == x.item;
    assert x.item in Launched(s) && ItemOk(p, s, x.item);
  }

  /** First in, first out, nothing lost after acceptance, and the buffer never exceeds its size. */
  lemma LinkIsFifo(p: Params, s: State)
    requires p.s > 0 && Reachable(p, s)
    ensures s.accepted == Delivered(s.delivered) + Flying(s.inFlight) + BeingMoved(s) + s.buffer
    ensures |s.buffer| <= p.capacity
  {
    ReachableInv(p, s);
  }

  /** The scheduler blocks only with nothing in flight and an empty snapshot; moving always finds a message. */
  lemma WaitsWhenIdle(p: Params, s: State)
    requires p.s > 0 && Reachable(p, s)
    ensures s.scheduler == AboutToWait || s.scheduler == Blocked ==> s.inFlight == [] && !s.stuff
    ensures s.scheduler == Taking ==> s.buffer != []
  {
    ReachableInv(p, s);
  }

  // ---------- What is accepted ----------

  /**
    What the producer accepts, read off the steps alone: each message enqueued is the one
    received last, with the flip it was kept with. `pending` is what is in hand at the start.
   */
  function Kept(pending: Payload, steps: seq<Step>): seq<Payload>
    decreases |steps|
  {
    if steps == [] then []
    else
      match steps[0]
      case Receive(msg) => Kept(msg, steps[1..])
      case Keep(flip) => Kept(if FlipOk(flip, pending) then Corrupt(pending, flip) else pending, steps[1..])
      case Enqueue => [pending] + Kept(pending, steps[1..])
      case _ => Kept(pending, steps[1..])
  }

  ghost predicate InHand(s: State, pending: Payload) {
    s.producer.Receiving? || s.producer.m == pending
  }

  lemma {:induction false} KeptFrom(p: Params, s: State, steps: seq<Step>, s': State, pending: Payload)
    requires Leads(p, s, steps, s') && InHand(s, pending)
    ensures s'.accepted == s.accepted + Kept(pending, steps)
    decreases |steps|
  {
    if steps != [] {
      var next := match steps[0]
        case Receive(msg) => msg
        case Keep(flip) => (if FlipOk(flip, pending) then Corrupt(pending, flip) else pending)
        case _ => pending;
      KeptFrom(p, Apply(p, s, steps[0]), steps[1..], s', next);
    }
  }

  /** In every run exactly what is received and neither dropped nor pending is accepted, with the flip of its step. */
  lemma AcceptedAsReceived(p: Params, clock: nat, steps: seq<Step>, s: State)
    requires Leads(p, Start(clock), steps, s)
    ensures s.accepted == Kept([], steps)
  {
    KeptFrom(p, Start(clock), steps, s, []);
  }
}
