/**
  Exactly when the link's two doubtful promises hold: the assertion before the scheduler
  waits, and a full S+D between leaving the buffer and being delivered.
 */
module LinkExact {
  import opened Payloads
  import opened LinkSpec
  import opened LinkRuns

  // ---------- Runs put together ----------

  lemma {:induction false} LeadsTrans(p: Params, s: State, steps: seq<Step>, mid: State, step: Step)
    requires Leads(p, s, steps, mid) && Enabled(p, mid, step)
    ensures Leads(p, s, steps + [step], Apply(p, mid, step))
    decreases |steps|
  {
    if steps == [] {
      assert [step][1..] == [];
    } else {
      LeadsTrans(p, Apply(p, s, steps[0]), steps[1..], mid, step);
      assert (steps + [step])[1..] == steps[1..] + [step];
    }
  }

  lemma {:induction false} LeadsConcat(p: Params, s: State, a: seq<Step>, mid: State, b: seq<Step>, s': State)
    requires Leads(p, s, a, mid) && Leads(p, mid, b, s')
    ensures Leads(p, s, a + b, s')
    decreases |a|
  {
    if a == [] {
      assert a + b == b;
    } else {
      LeadsConcat(p, Apply(p, s, a[0]), a[1..], mid, b, s');
      assert (a + b)[1..] == a[1..] + b;
    }
  }

  /** One more step of a run. */
  lemma Go(p: Params, s: State, step: Step) returns (s': State)
    requires Reachable(p, s) && Enabled(p, s, step)
    ensures Reachable(p, s') && s' == Apply(p, s, step)
  {
    var clock: nat, steps :| Leads(p, Start(clock), steps, s);
    LeadsTrans(p, Start(clock), steps, s, step);
    s' := Apply(p, s, step);
  }

  /** A message has just been accepted while the scheduler was not looking. */
  lemma Accept(p: Params, s: State, m: Payload) returns (s': State)
    requires Reachable(p, s) && s.producer == Receiving && s.scheduler != Aborted && |s.buffer| < p.capacity
    ensures Reachable(p, s') && s' == s.(buffer := s.buffer + [m], accepted := s.accepted + [m])
  {
    s' := Go(p, s, Receive(m));
    s' := Go(p, s', CheckSpace);
    s' := Go(p, s', Keep(NoFlip));
    s' := Go(p, s', Enqueue);
  }

  /** A round with nothing in flight, up to the snapshot of the buffer. */
  lemma Snapshot(p: Params, s: State) returns (s': State)
    requires Reachable(p, s) && s.scheduler == Top && s.inFlight == []
    ensures Reachable(p, s')
    ensures s' == s.(crtTime := s.clock, stuff := s.buffer != [], scheduler := Peeked)
  {
    s' := Go(p, s, ReadClock);
    s' := Go(p, s', StopDelivering);
    s' := Go(p, s', Peek);
  }

  lemma ReachableStart(p: Params, clock: nat)
    ensures Reachable(p, Start(clock))
  {
    assert Leads(p, Start(clock), [], Start(clock));
  }

  lemma ReachableFrom(p: Params, s: State, steps: seq<Step>, s': State)
    requires Reachable(p, s) && Leads(p, s, steps, s')
    ensures Reachable(p, s')
  {
    var clock: nat, before :| Leads(p, Start(clock), before, s);
    LeadsConcat(p, Start(clock), before, s, steps, s');
  }

  // ---------- The assertion before waiting ----------

  /** The rest of a round whose snapshot found the buffer empty. */
  ghost predicate NothingToMove(s: State) {
    !s.stuff && (s.scheduler in {Peeked, Rounded, AboutToWait, Blocked, Aborted, Top} || s.scheduler.Sleeping?)
  }

  /** Until the clock is read again, such a round only ever adds to the buffer. */
  lemma {:induction false} BufferOnlyGrows(p: Params, s: State, steps: seq<Step>, s': State)
    requires NothingToMove(s) && Leads(p, s, steps, s') && ReadClock !in steps
    ensures NothingToMove(s')
    ensures s'.buffer != [] <==> s.buffer != [] || Enqueue in steps
    decreases |steps|
  {
    if steps != [] {
      assert steps == [steps[0]] + steps[1..];
      BufferOnlyGrows(p, Apply(p, s, steps[0]), steps[1..], s');
    }
  }

  /** A snapshot that found something keeps the round from waiting. */
  lemma {:induction false} SnapshotStays(p: Params, s: State, steps: seq<Step>, s': State)
    requires s.stuff && s.scheduler != Delivering && s.scheduler != Peeking
    requires Leads(p, s, steps, s') && ReadClock !in steps
    ensures s'.stuff
    decreases |steps|
  {
    if steps != [] {
      assert steps == [steps[0]] + steps[1..];
      SnapshotStays(p, Apply(p, s, steps[0]), steps[1..], s');
    }
  }

  /**
    A round that comes to wait passes its assertion exactly when no message was enqueued
    since its snapshot of the buffer.
   */
  lemma WaitAssertionIff(p: Params, s: State, steps: seq<Step>, s': State)
    requires p.s > 0 && Reachable(p, s) && s.scheduler == Peeking
    requires Leads(p, Apply(p, s, Peek), steps, s') && ReadClock !in steps && s'.scheduler == AboutToWait
    ensures s.buffer == []
    ensures Apply(p, s', Wait).scheduler == Aborted <==> Enqueue in steps
  {
    SnapshotWasEmpty(p, s, steps, s');
    BufferOnlyGrows(p, Apply(p, s, Peek), steps, s');
  }

  lemma SnapshotWasEmpty(p: Params, s: State, steps: seq<Step>, s': State)
    requires p.s > 0 && Reachable(p, s) && s.scheduler == Peeking
    requires Leads(p, Apply(p, s, Peek), steps, s') && ReadClock !in steps && s'.scheduler == AboutToWait
    ensures s.buffer == []
  {
    var mid := Go(p, s, Peek);
    ReachableFrom(p, mid, steps, s');
    WaitsWhenIdle(p, s');
    if s.buffer != [] {
      SnapshotStays(p, mid, steps, s');
    }
  }

  /** A message enqueued between the snapshot and the wait makes the assertion before waiting fail. */
  lemma WaitAssertionCanFail(p: Params, m: Payload) returns (s: State)
    requires p.s > 0 && p.capacity > 0
    ensures Reachable(p, s) && s.scheduler == Aborted && s.accepted == [m]
  {
    ReachableStart(p, 0);
    s := Snapshot(p, Start(0));
    s := Accept(p, s, m);
    s := Go(p, s, SkipMove);
    s := Go(p, s, GoWait);
    s := Go(p, s, Wait);
  }

  // ---------- S+D after leaving the buffer ----------

  /** What is on the link stays there in order, and what was delivered stays delivered. */
  lemma {:induction false} LaunchedKept(p: Params, s: State, steps: seq<Step>, s': State)
    requires Leads(p, s, steps, s')
    ensures Launched(s) <= Launched(s') && s.delivered <= s'.delivered
    decreases |steps|
  {
    if steps != [] {
      LaunchedGrows(p, s, steps[0]);
      LaunchedKept(p, Apply(p, s, steps[0]), steps[1..], s');
    }
  }

  lemma LaunchedGrows(p: Params, s: State, step: Step)
    requires Enabled(p, s, step)
    ensures Launched(s) <= Launched(Apply(p, s, step)) && s.delivered <= Apply(p, s, step).delivered
  {
    if step == Deliver {
      assert Launched(Apply(p, s, step)) == Launched(s);
    }
  }

  /** The scheduler does not start another round before `time`: it is about to sleep, or asleep, until then. */
  ghost predicate HeldUntil(s: State, time: int) {
    || s.clock >= time
    || (s.scheduler == Rounded && MustSleep(s) && s.clock + WaitTime(s) >= time)
    || (s.scheduler.Sleeping? && s.scheduler.until >= time)
  }

  lemma StepKeepsHeld(p: Params, s: State, step: Step, time: int)
    requires HeldUntil(s, time) && Enabled(p, s, step)
    ensures HeldUntil(Apply(p, s, step), time)
    ensures step == Deliver ==> s.clock >= time
  {
  }

  /** So nothing is delivered before then. */
  lemma {:induction false} LaterDeliveries(p: Params, s: State, steps: seq<Step>, s': State, time: int)
    requires HeldUntil(s, time) && Leads(p, s, steps, s')
    ensures |s.delivered| <= |s'.delivered|
    ensures forall i :: |s.delivered| <= i < |s'.delivered| ==> s'.delivered[i].wall >= time
    decreases |steps|
  {
    if steps != [] {
      var next := Apply(p, s, steps[0]);
      StepKeepsHeld(p, s, steps[0], time);
      LaterDeliveries(p, next, steps[1..], s', time);
      LaunchedKept(p, next, steps[1..], s');
    }
  }

  /** A round whose reading of the clock is late enough delivers everything in flight. */
  lemma {:induction false} DeliverEverything(p: Params, s: State) returns (steps: seq<Step>, s': State)
    requires s.scheduler == Delivering && forall f :: f in s.inFlight ==> f.finish <= s.crtTime
    ensures Leads(p, s, steps, s')
    ensures s'.delivered == s.delivered + DeliveredAt(s.inFlight, s.crtTime, s.clock)
    decreases |s.inFlight|
  {
    if s.inFlight == [] {
      return [], s;
    }
    var rest;
    assert s.inFlight[0] in s.inFlight;
    rest, s' := DeliverEverything(p, Apply(p, s, Deliver));
    steps := [Deliver] + rest;
    assert steps[1..] == rest;
  }

  function DeliveredAt(fs: seq<InFlight>, round: int, wall: int): seq<Delivery> {
    seq(|fs|, i requires 0 <= i < |fs| => Delivery(fs[i], round, wall))
  }

  /** A round sleeps as long as it must, and wakes to read the clock at `time`. */
  lemma SleepUntil(p: Params, s: State, time: int) returns (steps: seq<Step>, s': State)
    requires s.scheduler == Rounded && MustSleep(s) && time >= s.clock + WaitTime(s)
    ensures Leads(p, s, steps, s') && s' == s.(clock := time, crtTime := time, scheduler := Delivering)
  {
    var asleep := Apply(p, s, Sleep);
    var later := Apply(p, asleep, Tick(time - s.clock));
    var awake := Apply(p, later, WakeUp);
    s' := Apply(p, awake, ReadClock);
    assert Leads(p, s, [], s);
    LeadsTrans(p, s, [], s, Sleep);
    LeadsTrans(p, s, [Sleep], asleep, Tick(time - s.clock));
    LeadsTrans(p, s, [Sleep] + [Tick(time - s.clock)], later, WakeUp);
    LeadsTrans(p, s, [Sleep] + [Tick(time - s.clock)] + [WakeUp], awake, ReadClock);
    assert [] + [Sleep] == [Sleep];
    steps := [Sleep] + [Tick(time - s.clock)] + [WakeUp] + [ReadClock];
  }

  /** From the end of a round all in flight can be delivered once the last is due and the sleep is over. */
  lemma DeliverWhenDue(p: Params, s: State, due: int) returns (steps: seq<Step>, s': State)
    requires p.s > 0 && Reachable(p, s) && s.scheduler == Rounded && s.inFlight != []
    requires due >= s.clock + WaitTime(s) && due >= s.inFlight[|s.inFlight| - 1].finish
    ensures Leads(p, s, steps, s') && s'.delivered == s.delivered + DeliveredAt(s.inFlight, due, due)
  {
    ReachableInv(p, s);
    FlightIsLaunched(p, s);
    LastIsLatest(p, s.inFlight);
    var first, awake := SleepUntil(p, s, due);
    var rest;
    rest, s' := DeliverEverything(p, awake);
    LeadsConcat(p, s, first, awake, rest, s');
    steps := first + rest;
  }

  lemma {:induction false} LastIsLatest(p: Params, fs: seq<InFlight>)
    requires Gaps(p, fs) && fs != []
    ensures forall f :: f in fs ==> f.finish <= fs[|fs| - 1].finish
  {
    var n := |fs| - 1;
    if n > 0 {
      LastIsLatest(p, fs[..n]);
      assert forall f :: f in fs ==> f in fs[..n] || f == fs[n];
    }
  }

  /** Some continuation delivers the last message in flight less than S+D after that message left the buffer. */
  ghost predicate CanBeEarly(p: Params, s: State)
    requires s.inFlight != []
  {
    var (f, n) := (s.inFlight[|s.inFlight| - 1], |s.delivered| + |s.inFlight| - 1);
    exists steps, s' :: Leads(p, s, steps, s') && DeliveredBefore(s', f, n, f.left + p.s + p.d)
  }

  ghost predicate DeliveredBefore(s: State, f: InFlight, n: nat, time: int) {
    n < |s.delivered| && s.delivered[n].item == f && s.delivered[n].wall < time
  }

  lemma EarlyNeedsTime(p: Params, s: State)
    requires p.s > 0 && Reachable(p, s) && s.scheduler == Rounded && MustSleep(s)
    requires s.inFlight != [] && CanBeEarly(p, s)
    ensures var f := s.inFlight[|s.inFlight| - 1]; s.clock + WaitTime(s) < f.left + p.s + p.d && f.round < f.left
  {
    var f := s.inFlight[|s.inFlight| - 1];
    var n := |s.delivered| + |s.inFlight| - 1;
    var steps, s' :| Leads(p, s, steps, s') && DeliveredBefore(s', f, n, f.left + p.s + p.d);
    LaterDeliveries(p, s, steps, s', s.clock + WaitTime(s));
    ReachableFrom(p, s, steps, s');
    NeverEarly(p, s', s'.delivered[n]);
  }

  /**
    At the end of a round, the last message in flight can be delivered early exactly when
    the clock moved between the round's reading of it and the message's leaving the buffer,
    and the sleep that follows ends in time.
   */
  lemma EarlyIff(p: Params, s: State)
    requires p.s > 0 && Reachable(p, s) && s.scheduler == Rounded && s.inFlight != []
    ensures var f := s.inFlight[|s.inFlight| - 1];
            var (idle, send) := (s.idleTime - s.crtTime, s.inFlight[0].finish - s.crtTime);
            var sleep := if idle <= 0 then 0 else if idle <= send then idle else send;
            CanBeEarly(p, s) <==> s.clock + sleep < f.left + p.s + p.d && f.round < f.left
  {
    var f := s.inFlight[|s.inFlight| - 1];
    var n := |s.delivered| + |s.inFlight| - 1;
    var time := f.left + p.s + p.d;
    var awake := s.clock + WaitTime(s);
    ReachableInv(p, s);
    FlightIsLaunched(p, s);
    assert ItemOk(p, s, f);
    if CanBeEarly(p, s) {
      EarlyNeedsTime(p, s);
    }
    if awake < time && f.round < f.left {
      var steps, s' := DeliverWhenDue(p, s, if awake < f.finish then f.finish else awake);
      assert DeliveredBefore(s', f, n, time);
    }
  }

  /** One message on the link that left the buffer `late` after its round's reading of the clock. */
  lemma LaunchLate(p: Params, m: Payload, late: nat) returns (s: State)
    requires p.s > 0 && p.capacity > 0
    ensures Reachable(p, s)
    ensures s == State(late, p.s, 0, true, [], [InFlight(m, 0, late, p.s + p.d)], Receiving, Rounded, [m], [])
  {
    ReachableStart(p, 0);
    s := Accept(p, Start(0), m);
    s := Snapshot(p, s);
    s := MoveLate(p, s, late);
  }

  lemma MoveLate(p: Params, s: State, late: nat) returns (s': State)
    requires Reachable(p, s) && s.scheduler == Peeked && s.stuff && s.crtTime >= s.idleTime && s.buffer != []
    ensures Reachable(p, s')
    ensures var now := s.crtTime;
            s' == s.(clock := s.clock + late, idleTime := now + p.s, scheduler := Rounded, buffer := s.buffer[1..],
                     inFlight := s.inFlight + [InFlight(s.buffer[0], now, s.clock + late, now + p.s + p.d)])
  {
    s' := Go(p, s, StartMove);
    s' := Go(p, s', Tick(late));
    assert s'.buffer == s.buffer && s'.scheduler == Taking;
    s' := Go(p, s', Take);
    assert s'.scheduler == Moving(s.buffer[0], s.clock + late);
    s' := Go(p, s', Launch);
  }

  function Min(a: nat, b: nat): nat { if a <= b then a else b }

  /**
    Measured from when it left the buffer, S+D is not a lower bound: a message that left
    later than its round's reading of the clock can arrive early by as much, up to D.
   */
  lemma EarlyByTheClock(p: Params, m: Payload, late: nat) returns (s: State)
    requires p.s > 0 && p.capacity > 0
    ensures Reachable(p, s) && |s.delivered| == 1 && s.delivered[0].item.left - s.delivered[0].item.round == late
    ensures s.delivered[0].wall - s.delivered[0].item.left == p.s + p.d - Min(late, p.d)
  {
    var launched := LaunchLate(p, m, late);
    assert WaitTime(launched) == p.s;
    var steps, s' := DeliverWhenDue(p, launched, late + p.s + p.d - Min(late, p.d));
    ReachableFrom(p, launched, steps, s');
    s := s';
  }

  // ---------- Links without a propagation delay ----------

  /** With D = 0: what is in flight is held back for S from when it left, and what was delivered had that long. */
  ghost predicate OnTime(p: Params, s: State) {
    && (forall f :: f in s.inFlight ==> HeldUntil(s, f.left + p.s))
    && (forall x :: x in s.delivered ==> x.wall >= x.item.left + p.s)
  }

  lemma StepKeepsOnTime(p: Params, s: State, step: Step)
    requires p.s > 0 && p.d == 0 && Inv(p, s) && OnTime(p, s) && Enabled(p, s, step)
    ensures OnTime(p, Apply(p, s, step))
  {
    if step == Launch {
      LaunchOnTime(p, s);
    } else {
      forall f | f in s.inFlight
        ensures HeldUntil(Apply(p, s, step), f.left + p.s)
        ensures step == Deliver ==> s.clock >= f.left + p.s
      {
        StepKeepsHeld(p, s, step, f.left + p.s);
      }
    }
  }

  /** The link is empty when a message is put on it, so the sleep lasts S. */
  lemma LaunchOnTime(p: Params, s: State)
    requires p.s > 0 && p.d == 0 && Inv(p, s) && OnTime(p, s) && Enabled(p, s, Launch)
    ensures OnTime(p, Apply(p, s, Launch))
  {
    EmptyAtLaunch(p, s);
    assert WaitTime(Apply(p, s, Launch)) == p.s;
  }

  lemma EmptyAtLaunch(p: Params, s: State)
    requires p.s > 0 && p.d == 0 && Inv(p, s) && s.scheduler.Moving?
    ensures s.inFlight == []
  {
    FlightIsLaunched(p, s);
    if s.inFlight != [] {
      LastIsLatest(p, s.inFlight);
    }
  }

  lemma {:induction false} RunOnTime(p: Params, s: State, steps: seq<Step>, s': State)
    requires p.s > 0 && p.d == 0 && Inv(p, s) && OnTime(p, s) && Leads(p, s, steps, s')
    ensures OnTime(p, s')
    decreases |steps|
  {
    if steps != [] {
      StepKeepsInv(p, s, steps[0]);
      StepKeepsOnTime(p, s, steps[0]);
      RunOnTime(p, Apply(p, s, steps[0]), steps[1..], s');
    }
  }

  /** No run delivers a message less than S+D after it left the buffer. */
  ghost predicate AlwaysOnTime(p: Params) {
    forall s, x :: Reachable(p, s) && x in s.delivered ==> x.wall - x.item.left >= p.s + p.d
  }

  /** A link keeps S+D from leaving the buffer to delivery, in all its runs, exactly when its delay D is zero. */
  lemma AlwaysOnTimeIff(p: Params)
    requires p.s > 0 && p.capacity > 0
    ensures AlwaysOnTime(p) <==> p.d == 0
  {
    if p.d == 0 {
      forall s, x | Reachable(p, s) && x in s.delivered
        ensures x.wall - x.item.left >= p.s + p.d
      {
        var clock: nat, steps :| Leads(p, Start(clock), steps, s);
        RunOnTime(p, Start(clock), steps, s);
      }
    } else {
      var s := EarlyByTheClock(p, [], 1);
      assert s.delivered[0] in s.delivered;
    }
  }
}
