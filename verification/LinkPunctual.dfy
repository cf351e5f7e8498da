/**
  How late the link can be: by the time that passed outside of sleeping and waiting, and no
  more. Where none did, every message takes exactly S+D from leaving the buffer.
 */
module LinkPunctual {
  import opened Payloads
  import opened LinkSpec
  import opened LinkRuns
  import opened LinkExact

  // ---------- When a sleep ends ----------

  /**
    A sleep ends after the least positive one of the times to the link's being idle and to
    the head's being due, while the link is busy; otherwise at once.
   */
  lemma SleepIsLeast(p: Params, s: State)
    requires p.s > 0 && Reachable(p, s) && Enabled(p, s, Sleep)
    ensures var s' := Apply(p, s, Sleep);
            && s'.scheduler.Sleeping?
            && var (idle, sleep) := (s.idleTime - s.crtTime, s'.scheduler.until - s.clock);
            && (idle <= 0 ==> sleep == 0)
            && (idle > 0 ==> 0 < sleep <= idle)
            && (s.inFlight == [] && idle > 0 ==> sleep == idle)
            && (s.inFlight != [] && idle > 0 ==>
                  var send := s.inFlight[0].finish - s.crtTime;
                  0 < send && sleep <= send && (sleep == idle || sleep == send))
  {
    ReachableInv(p, s);
  }

  // ---------- Time that is lost ----------

  function Over(time: int, until: int): nat {
    if time > until then time - until else 0
  }

  /** Time that passes while the scheduler neither sleeps as long as it asked to nor waits for a message. */
  function Lost(s: State, step: Step): nat {
    match step
    case Tick(n) =>
      (match s.scheduler
       case Sleeping(until) => Over(s.clock + n, until) - Over(s.clock, until)
       case Blocked => 0
       case _ => n)
    case _ => 0
  }

  ghost function LostIn(p: Params, s: State, steps: seq<Step>, s': State): nat
    requires Leads(p, s, steps, s')
    decreases |steps|
  {
    if steps == [] then 0
    else Lost(s, steps[0]) + LostIn(p, Apply(p, s, steps[0]), steps[1..], s')
  }

  /** The scheduler is in a round it has read the clock for. */
  predicate InRound(s: State) {
    s.scheduler != Top && s.scheduler != Blocked && !s.scheduler.Sleeping?
  }

  /** Nothing is later than `lost` explains. */
  ghost predicate LateBy(s: State, lost: nat) {
    && (InRound(s) ==> s.clock <= s.crtTime + lost)
    && (s.scheduler.Moving? ==> s.scheduler.left <= s.crtTime + lost)
    && (s.inFlight != [] ==>
          s.clock <= s.inFlight[0].finish + lost &&
          (s.scheduler.Sleeping? ==> s.scheduler.until <= s.inFlight[0].finish + lost))
    && (forall f :: f in s.inFlight ==> f.left <= f.round + lost)
    && (forall x :: x in s.delivered ==> x.wall <= x.item.finish + lost && x.item.left <= x.item.round + lost)
  }

  lemma StepLateBy(p: Params, s: State, step: Step, lost: nat)
    requires p.s > 0 && Inv(p, s) && LateBy(s, lost) && Enabled(p, s, step)
    ensures LateBy(Apply(p, s, step), lost + Lost(s, step))
  {
    if step.Tick? {
      TickLateBy(p, s, step, lost);
    } else if step.Deliver? {
      DeliverLateBy(p, s, step, lost);
    } else if step.Launch? {
      LaunchLateBy(p, s, step, lost);
    } else if step.Sleep? {
      SleepLateBy(p, s, step, lost);
    } else {
      OtherLateBy(p, s, step, lost);
    }
  }

  lemma OtherLateBy(p: Params, s: State, step: Step, lost: nat)
    requires Inv(p, s) && LateBy(s, lost) && Enabled(p, s, step)
    requires !step.Tick? && !step.Deliver? && !step.Launch? && !step.Sleep?
    ensures LateBy(Apply(p, s, step), lost + Lost(s, step))
  {
    OtherSteps(p, s, step);
    SameFlight(s, Apply(p, s, step), lost);
  }

  lemma OtherSteps(p: Params, s: State, step: Step)
    requires Inv(p, s) && Enabled(p, s, step)
    requires !step.Tick? && !step.Deliver? && !step.Launch? && !step.Sleep?
    ensures Lost(s, step) == 0 && NoLater(s, Apply(p, s, step))
  {
  }

  /** Nothing was put on the link or taken off it, no time passed, and no round or sleep was started late. */
  ghost predicate NoLater(s: State, s': State) {
    && s'.inFlight == s.inFlight && s'.delivered == s.delivered && s'.clock == s.clock
    && (InRound(s') ==> s'.crtTime == s'.clock || (InRound(s) && s'.crtTime == s.crtTime))
    && (s'.scheduler.Moving? ==> s'.scheduler == s.scheduler || (InRound(s') && s'.scheduler.left == s'.clock))
    && (s'.scheduler.Sleeping? ==> s'.scheduler == s.scheduler)
    && (s'.crtTime == s.crtTime || !s'.scheduler.Moving?)
  }

  lemma SameFlight(s: State, s': State, lost: nat)
    requires LateBy(s, lost) && NoLater(s, s')
    ensures LateBy(s', lost)
  {
  }

  lemma LaunchLateBy(p: Params, s: State, step: Step, lost: nat)
    requires Inv(p, s) && LateBy(s, lost) && Enabled(p, s, step) && step.Launch?
    ensures LateBy(Apply(p, s, step), lost + Lost(s, step))
  {
    var s' := Apply(p, s, step);
    var item := s'.inFlight[|s.inFlight|];
    assert forall f :: f in s'.inFlight ==> f in s.inFlight || f == item;
  }

  lemma SleepLateBy(p: Params, s: State, step: Step, lost: nat)
    requires Inv(p, s) && LateBy(s, lost) && Enabled(p, s, step) && step.Sleep?
    ensures LateBy(Apply(p, s, step), lost + Lost(s, step))
  {
    if s.inFlight != [] {
      assert WaitTime(s) <= s.inFlight[0].finish - s.crtTime;
    }
  }

  lemma DeliverLateBy(p: Params, s: State, step: Step, lost: nat)
    requires p.s > 0 && Inv(p, s) && LateBy(s, lost) && Enabled(p, s, step) && step.Deliver?
    ensures LateBy(Apply(p, s, step), lost + Lost(s, step))
  {
    FlightIsLaunched(p, s);
    assert s.inFlight[0] in s.inFlight;
    assert forall f :: f in s.inFlight[1..] ==> f in s.inFlight;
    if |s.inFlight| > 1 {
      assert s.inFlight[1].finish >= s.inFlight[0].finish;
    }
  }

  lemma TickLateBy(p: Params, s: State, step: Step, lost: nat)
    requires Inv(p, s) && LateBy(s, lost) && Enabled(p, s, step) && step.Tick?
    ensures LateBy(Apply(p, s, step), lost + Lost(s, step))
  {
  }

  lemma {:induction false} RunLateBy(p: Params, s: State, steps: seq<Step>, s': State, lost: nat)
    requires p.s > 0 && Inv(p, s) && LateBy(s, lost) && Leads(p, s, steps, s')
    ensures LateBy(s', lost + LostIn(p, s, steps, s'))
    decreases |steps|
  {
    if steps != [] {
      StepKeepsInv(p, s, steps[0]);
      StepLateBy(p, s, steps[0], lost);
      RunLateBy(p, Apply(p, s, steps[0]), steps[1..], s', lost + Lost(s, steps[0]));
    }
  }

  // ---------- Main results ----------

  /**
    In every run a message is delivered no earlier than it is due, and later by no more than
    the time lost: passed in a round, or slept beyond what was asked.
   */
  lemma LatenessBound(p: Params, clock: nat, steps: seq<Step>, s: State, x: Delivery)
    requires p.s > 0 && Leads(p, Start(clock), steps, s) && x in s.delivered
    ensures x.item.finish == x.item.round + p.s + p.d
    ensures x.item.finish <= x.wall <= x.item.finish + LostIn(p, Start(clock), steps, s)
    ensures x.item.round <= x.item.left <= x.item.round + LostIn(p, Start(clock), steps, s)
  {
    RunLateBy(p, Start(clock), steps, s, 0);
    DueWhenDelivered(p, s, x);
  }

  lemma DueWhenDelivered(p: Params, s: State, x: Delivery)
    requires p.s > 0 && Reachable(p, s) && x in s.delivered
    ensures x.item.finish == x.item.round + p.s + p.d <= x.wall && x.item.round <= x.item.left
  {
    NeverEarly(p, s, x);
    ReachableInv(p, s);
    var i :| 0 <= i < |s.delivered| && s.delivered[i] == x;
    assert Launched(s)[i] == x.item;
    assert x.item in Launched(s);
  }

  /** Where no time is lost, every message is delivered when it is due, exactly S+D after it left the buffer. */
  lemma PunctualLink(p: Params, clock: nat, steps: seq<Step>, s: State, x: Delivery)
    requires p.s > 0 && Leads(p, Start(clock), steps, s) && x in s.delivered
    requires LostIn(p, Start(clock), steps, s) == 0
    ensures x.wall == x.item.finish && x.wall - x.item.left == p.s + p.d
  {
    LatenessBound(p, clock, steps, s, x);
  }

  /**
    A head due before the link is idle is what the round sleeps for: at the end of a round
    that lost no time, sleeping and waking up on time delivers it when it is due.
   */
  lemma HeadIsNotOverslept(p: Params, s: State, wait: nat) returns (s': State)
    requires p.s > 0 && Reachable(p, s) && s.scheduler == Rounded && s.clock == s.crtTime
    requires s.inFlight != [] && s.inFlight[0].finish == s.clock + wait <= s.idleTime
    ensures var steps := [Sleep, Tick(wait), WakeUp, ReadClock, Deliver];
            && Leads(p, s, steps, s') && LostIn(p, s, steps, s') == 0
            && s'.delivered == s.delivered + [Delivery(s.inFlight[0], s.clock + wait, s.clock + wait)]
  {
    SleepsFor(p, s, wait);
    s' := WakesAndDelivers(p, Apply(p, s, Sleep), wait);
    var rest := [Tick(wait), WakeUp, ReadClock, Deliver];
    OneMore(p, s, Sleep, rest, s');
    assert [Sleep] + rest == [Sleep, Tick(wait), WakeUp, ReadClock, Deliver];
  }

  lemma SleepsFor(p: Params, s: State, wait: nat)
    requires p.s > 0 && Reachable(p, s) && s.scheduler == Rounded && s.clock == s.crtTime
    requires s.inFlight != [] && s.inFlight[0].finish == s.clock + wait <= s.idleTime
    ensures Enabled(p, s, Sleep) && Apply(p, s, Sleep) == s.(scheduler := Sleeping(s.clock + wait))
  {
    ReachableInv(p, s);
  }

  lemma WakesAndDelivers(p: Params, s: State, wait: nat) returns (s': State)
    requires s.scheduler == Sleeping(s.clock + wait)
    requires s.inFlight != [] && s.inFlight[0].finish == s.clock + wait
    ensures var steps := [Tick(wait), WakeUp, ReadClock, Deliver];
            && Leads(p, s, steps, s') && LostIn(p, s, steps, s') == 0
            && s'.delivered == s.delivered + [Delivery(s.inFlight[0], s.clock + wait, s.clock + wait)]
  {
    var later := s.(clock := s.clock + wait);
    var rest := [WakeUp, ReadClock, Deliver];
    s' := AwakeDelivers(p, later);
    OneMore(p, s, Tick(wait), rest, s');
    assert [Tick(wait)] + rest == [Tick(wait), WakeUp, ReadClock, Deliver];
  }

  lemma AwakeDelivers(p: Params, s: State) returns (s': State)
    requires s.scheduler == Sleeping(s.clock) && s.inFlight != [] && s.inFlight[0].finish == s.clock
    ensures var steps := [WakeUp, ReadClock, Deliver];
            && Leads(p, s, steps, s') && LostIn(p, s, steps, s') == 0
            && s'.delivered == s.delivered + [Delivery(s.inFlight[0], s.clock, s.clock)]
  {
    var awake := s.(scheduler := Top);
    var reading := awake.(crtTime := awake.clock, scheduler := Delivering);
    s' := Apply(p, reading, Deliver);
    OneMore(p, reading, Deliver, [], s');
    OneMore(p, awake, ReadClock, [Deliver], s');
    OneMore(p, s, WakeUp, [ReadClock, Deliver], s');
    assert [Deliver] + [] == [Deliver] && [ReadClock] + [Deliver] == [ReadClock, Deliver];
    assert [WakeUp] + [ReadClock, Deliver] == [WakeUp, ReadClock, Deliver];
  }

  lemma OneMore(p: Params, s: State, step: Step, rest: seq<Step>, s': State)
    requires Enabled(p, s, step) && Leads(p, Apply(p, s, step), rest, s')
    ensures Leads(p, s, [step] + rest, s')
    ensures LostIn(p, s, [step] + rest, s') == Lost(s, step) + LostIn(p, Apply(p, s, step), rest, s')
  {
    assert ([step] + rest)[1..] == rest;
  }
}
