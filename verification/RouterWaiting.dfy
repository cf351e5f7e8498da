/**
  Places in the router's queue, whatever it holds: each reply takes the first element, which
  may be put back at the end as the one that follows it in `lower`.
 */
module Turns {
  import opened RouterSpec
  import opened RouterRuns

  /** Where an element waits: how often it was put back so far, and how many are ahead of it. */
  datatype Place = Place(turns: nat, ahead: nat) | Gone

  /** What one frame does to the queue; frames other than replies only add to it. */
  ghost predicate Moves<T(!new)>(q: seq<T>, q': seq<T>, f: Frame, lower: (T, T) -> bool) {
    if IsArpReply(f) && q != [] then
      q' == q[1..] || (|q'| == |q| && q[1..] <= q' && lower(q[0], q'[|q'| - 1]))
    else q <= q'
  }

  function NextPlace<T>(q: seq<T>, q': seq<T>, f: Frame, place: Place): Place {
    if place.Gone? || !IsArpReply(f) then place
    else if place.ahead > 0 then Place(place.turns, place.ahead - 1)
    else if q' != [] && |q'| == |q| then Place(place.turns + 1, |q'| - 1)
    else Gone
  }

  /** The place after `n` frames of what frame `t` put into the queue. */
  function PlaceOf<T>(queues: seq<seq<T>>, frames: seq<Frame>, t: nat, n: nat): Place
    requires t < n <= |frames| < |queues|
    decreases n
  {
    if n == t + 1 then Place(0, |queues[t]|)
    else NextPlace(queues[n - 1], queues[n], frames[n - 1], PlaceOf(queues, frames, t, n - 1))
  }

  /** The element is in its place, in the form it has after as many turns. */
  ghost predicate Holds<T>(q: seq<T>, place: Place, forms: seq<T>) {
    place.Place? ==> place.ahead < |q| && place.turns < |forms| && q[place.ahead] == forms[place.turns]
  }

  /** The forms follow each other in `lower`, and the last one has no successor. */
  ghost predicate Chain<T(!new)>(forms: seq<T>, lower: (T, T) -> bool) {
    forall k, x :: 0 <= k < |forms| && lower(forms[k], x) ==> k + 1 < |forms| && x == forms[k + 1]
  }

  lemma NextHolds<T(!new)>(q: seq<T>, q': seq<T>, f: Frame, place: Place, forms: seq<T>, lower: (T, T) -> bool)
    requires Moves(q, q', f, lower) && Holds(q, place, forms) && Chain(forms, lower)
    ensures Holds(q', NextPlace(q, q', f, place), forms)
  {
    if place.Place? && IsArpReply(f) && place.ahead > 0 {
      assert q'[place.ahead - 1] == q[1..][place.ahead - 1];
    }
  }

  lemma {:induction false} PlaceHolds<T(!new)>(queues: seq<seq<T>>, frames: seq<Frame>, t: nat, n: nat,
                                              forms: seq<T>, lower: (T, T) -> bool)
    requires t < n <= |frames| < |queues| && Chain(forms, lower)
    requires forall i :: t < i < n ==> Moves(queues[i], queues[i + 1], frames[i], lower)
    requires Holds(queues[t + 1], Place(0, |queues[t]|), forms)
    ensures Holds(queues[n], PlaceOf(queues, frames, t, n), forms)
    decreases n
  {
    if n > t + 1 {
      PlaceHolds(queues, frames, t, n - 1, forms, lower);
      NextHolds(queues[n - 1], queues[n], frames[n - 1], PlaceOf(queues, frames, t, n - 1), forms, lower);
    }
  }

  lemma PlaceAfterTurn<T>(queues: seq<seq<T>>, frames: seq<Frame>, t: nat, u: nat, k: nat, q: seq<T>, q': seq<T>)
    requires t < u < |frames| < |queues| && PlaceOf(queues, frames, t, u) == Place(k, 0)
    requires queues[u] == q && queues[u + 1] == q'
    ensures PlaceOf(queues, frames, t, u + 1) == NextPlace(q, q', frames[u], Place(k, 0))
  {
  }

  /** Until its first turn an element comes one place closer with each reply. */
  lemma {:induction false} FirstPlaces<T>(queues: seq<seq<T>>, frames: seq<Frame>, t: nat, n: nat)
    requires t < n <= |frames| < |queues| && RepliesIn(frames, t + 1, n) <= |queues[t]|
    ensures PlaceOf(queues, frames, t, n) == Place(0, |queues[t]| - RepliesIn(frames, t + 1, n))
    decreases n
  {
    if n > t + 1 {
      FirstPlaces(queues, frames, t, n - 1);
    }
  }
}

/** What becomes of a packet that waits in the router's queue, over whole runs. */
module RouterWaiting {
  import opened Checksum
  import opened Options
  import opened Routes
  import opened BinaryLookup
  import opened RouterSpec
  import opened RouterRuns
  import opened Turns

  // ---------- Hops ----------

  /** `k` hops: each takes one off the TTL and fills in the checksum. */
  function Hops(h: Header, k: nat): (r: Header)
    requires Ttl(h) >= k
    ensures Ttl(r) == Ttl(h) - k && Source(r) == Source(h) && Dest(r) == Dest(h)
  {
    if k == 0 then h else Hop(Hops(h, k - 1))
  }

  function After(p: Packet, k: nat): Packet
    requires Ttl(p.ip) >= k
  {
    p.(ip := Hops(p.ip, k))
  }

  /** The forms a packet has while it waits: a hop taken when it is queued, and one each time it is put back. */
  function Forms(p: Packet): seq<Packet> {
    seq(if Ttl(p.ip) > 0 then Ttl(p.ip) - 1 else 0, k requires 0 <= k < Ttl(p.ip) - 1 => After(p, k + 1))
  }

  /** `b` is `a` as it is put back. */
  predicate Lower(a: Packet, b: Packet) {
    Ttl(a.ip) > 1 && b == a.(ip := Hop(a.ip))
  }

  lemma FormFacts(p: Packet, k: nat)
    requires k < |Forms(p)|
    ensures Ttl(p.ip) > k + 1 && Forms(p)[k] == After(p, k + 1)
    ensures Ttl(Forms(p)[k].ip) == Ttl(p.ip) - k - 1 && Dest(Forms(p)[k].ip) == Dest(p.ip)
    ensures Hop(Forms(p)[k].ip) == Hops(p.ip, k + 2)
  {
  }

  lemma LowerForm(p: Packet, k: nat, b: Packet)
    requires k < |Forms(p)| && Lower(Forms(p)[k], b)
    ensures k + 1 < |Forms(p)| && b == Forms(p)[k + 1]
  {
    FormFacts(p, k);
    FormFacts(p, k + 1);
  }

  lemma FormsChain(p: Packet)
    ensures Chain(Forms(p), Lower)
  {
    forall k, x | 0 <= k < |Forms(p)| && Lower(Forms(p)[k], x)
      ensures k + 1 < |Forms(p)| && x == Forms(p)[k + 1]
    {
      LowerForm(p, k, x);
    }
  }

  lemma HandleMoves(cfg: Config, s: State, f: Frame)
    ensures Moves(s.queue, Handle(cfg, s, f).queue, f, Lower)
  {
    if GoesToForwarding(cfg, f) {
      ForwardFate(cfg, s, f.p);
    } else if IsArpReply(f) && s.queue != [] {
      ForwardFate(cfg, Learned(s, f).(queue := s.queue[1..]), s.queue[0]);
    }
  }

  // ---------- In runs ----------

  /** The queue after each number of frames. */
  function Queues(cfg: Config, frames: seq<Frame>): (queues: seq<seq<Packet>>)
    ensures |queues| == |frames| + 1
  {
    seq(|frames| + 1, i requires 0 <= i <= |frames| => Run(cfg, frames[..i]).queue)
  }

  lemma RunNext(cfg: Config, frames: seq<Frame>, n: nat)
    requires n < |frames|
    ensures Run(cfg, frames[..n + 1]) == Handle(cfg, Run(cfg, frames[..n]), frames[n])
  {
    assert frames[..n + 1][..n] == frames[..n];
  }

  lemma QueueAt(cfg: Config, frames: seq<Frame>, n: nat)
    requires n <= |frames|
    ensures Queues(cfg, frames)[n] == Run(cfg, frames[..n]).queue
  {
  }

  lemma QueuesMove(cfg: Config, frames: seq<Frame>, n: nat)
    requires n < |frames|
    ensures Moves(Queues(cfg, frames)[n], Queues(cfg, frames)[n + 1], frames[n], Lower)
  {
    RunNext(cfg, frames, n);
    QueueAt(cfg, frames, n);
    QueueAt(cfg, frames, n + 1);
    HandleMoves(cfg, Run(cfg, frames[..n]), frames[n]);
  }

  /** The frame's packet goes to forwarding and makes the queue longer. */
  ghost predicate IsQueued(cfg: Config, frames: seq<Frame>, t: nat)
    requires t < |frames|
  {
    GoesToForwarding(cfg, frames[t]) && Queues(cfg, frames)[t + 1] != Queues(cfg, frames)[t]
  }

  lemma QueuedFacts(cfg: Config, frames: seq<Frame>, t: nat)
    requires t < |frames| && IsQueued(cfg, frames, t)
    ensures var (p, queues) := (frames[t].p, Queues(cfg, frames));
            && RouteFor(cfg, p.ip).Some? && Holds(queues[t + 1], Place(0, |queues[t]|), Forms(p))
  {
    RunNext(cfg, frames, t);
    QueueAt(cfg, frames, t);
    QueueAt(cfg, frames, t + 1);
    QueuedForm(cfg, Run(cfg, frames[..t]), frames[t].p);
  }

  lemma QueuedForm(cfg: Config, s: State, p: Packet)
    requires Forwarded(cfg, s, p).queue != s.queue
    ensures RouteFor(cfg, p.ip).Some? && Holds(Forwarded(cfg, s, p).queue, Place(0, |s.queue|), Forms(p))
  {
    ForwardFate(cfg, s, p);
    FirstForm(p);
  }

  lemma HopsOnce(p: Packet)
    requires Ttl(p.ip) > 0
    ensures After(p, 1) == p.(ip := Hop(p.ip))
  {
    assert Hops(p.ip, 0) == p.ip;
  }

  lemma FirstForm(p: Packet)
    requires Ttl(p.ip) > 1
    ensures |Forms(p)| == Ttl(p.ip) - 1 && Forms(p)[0] == p.(ip := Hop(p.ip))
  {
    HopsOnce(p);
  }

  /**
    In every run, a packet that is still waiting has lost one hop when it was queued and one
    each time it was put back, and is put back fewer times than its TTL allows.
   */
  lemma WaitingHops(cfg: Config, frames: seq<Frame>, t: nat, n: nat)
    requires t < n <= |frames| && IsQueued(cfg, frames, t)
    ensures Holds(Queues(cfg, frames)[n], PlaceOf(Queues(cfg, frames), frames, t, n), Forms(frames[t].p))
  {
    QueuedFacts(cfg, frames, t);
    FormsChain(frames[t].p);
    forall i | t < i < n
      ensures Moves(Queues(cfg, frames)[i], Queues(cfg, frames)[i + 1], frames[i], Lower)
    {
      QueuesMove(cfg, frames, i);
    }
    PlaceHolds(Queues(cfg, frames), frames, t, n, Forms(frames[t].p), Lower);
  }

  // ---------- A packet's turn ----------

  ghost predicate Known(arp: seq<ArpEntry>, ip: Addr) {
    exists e :: e in arp && e.ip == ip
  }

  function NextHop(cfg: Config, h: Header): Addr
    requires RouteFor(cfg, h).Some?
  {
    cfg.rtable[RouteFor(cfg, h).value].nextHop
  }

  /** What the first packet's retry comes to: `a` is done, and `q` is left of the queue. */
  ghost predicate RetryOf(cfg: Config, arp: seq<ArpEntry>, queue: seq<Packet>, a: Action, q: seq<Packet>)
    requires queue != [] && RouteFor(cfg, queue[0].ip).Some?
  {
    var h := queue[0];
    var known := Known(arp, NextHop(cfg, h.ip));
    && (a == ErrorFor(h, TimeExceeded) <==> Ttl(h.ip) == 1)
    && (a.Forward? <==> Ttl(h.ip) > 1 && known)
    && (a.Forward? ==> a.p.ip == Hop(h.ip))
    && (a.ArpRequest? <==> Ttl(h.ip) > 1 && !known)
    && (a.ArpRequest? ==> |q| == |queue|)
    && (!a.ArpRequest? ==> q == queue[1..])
  }

  lemma HeadTurn(cfg: Config, s: State, f: Frame)
    requires Ok(cfg, s) && IsArpReply(f) && s.queue != []
    ensures RouteFor(cfg, s.queue[0].ip).Some?
    ensures var s' := Handle(cfg, s, f);
            && |s'.log| == |s.log| + 1 && RetryOf(cfg, s'.arp, s.queue, s'.log[|s.log|], s'.queue)
  {
    var s0 := Learned(s, f).(queue := s.queue[1..]);
    assert s.queue[0] in s.queue;
    ForwardFate(cfg, s0, s.queue[0]);
    var s' := Handle(cfg, s, f);
    var a := s'.log[|s.log|];
    if a.Forward? {
      assert ArpEntry(NextHop(cfg, s.queue[0].ip), a.p.dhost) in s'.arp;
    }
  }

  /**
    The turn of a packet that arrived as `p` and was put back `k` times: it is answered with
    "time exceeded", sent `k + 2` hops lower than it arrived, or put back.
   */
  ghost predicate TurnOf(cfg: Config, s: State, s': State, p: Packet, k: nat, next: Place) {
    && RouteFor(cfg, p.ip).Some? && Ttl(p.ip) > k + 1 && s.queue != [] && |s'.log| == |s.log| + 1
    && var (a, known) := (s'.log[|s.log|], Known(s'.arp, NextHop(cfg, p.ip)));
    && (a == ErrorFor(After(p, k + 1), TimeExceeded) <==> Ttl(p.ip) == k + 2)
    && (a.Forward? <==> Ttl(p.ip) > k + 2 && known)
    && (a.Forward? ==> a.p.ip == Hops(p.ip, k + 2))
    && (next.Place? <==> Ttl(p.ip) > k + 2 && !known)
    && (next.Place? ==> next.turns == k + 1 && next.ahead + 1 == |s'.queue|)
    && (next.Gone? ==> s'.queue == s.queue[1..])
  }

  lemma TurnInState(cfg: Config, s: State, s': State, f: Frame, p: Packet, k: nat, next: Place)
    requires Ok(cfg, s) && IsArpReply(f) && Holds(s.queue, Place(k, 0), Forms(p)) && RouteFor(cfg, p.ip).Some?
    requires s' == Handle(cfg, s, f) && next == NextPlace(s.queue, s'.queue, f, Place(k, 0))
    ensures TurnOf(cfg, s, s', p, k, next)
  {
    HeadTurn(cfg, s, f);
    FormFacts(p, k);
    SameTurn(cfg, s, s', f, p, k);
  }

  lemma SameTurn(cfg: Config, s: State, s': State, f: Frame, p: Packet, k: nat)
    requires IsArpReply(f) && RouteFor(cfg, p.ip).Some? && Ttl(p.ip) > k + 1
    requires s.queue != [] && s.queue[0] == After(p, k + 1) && Hop(s.queue[0].ip) == Hops(p.ip, k + 2)
    requires |s'.log| == |s.log| + 1 && RouteFor(cfg, s.queue[0].ip).Some?
    requires RetryOf(cfg, s'.arp, s.queue, s'.log[|s.log|], s'.queue)
    ensures TurnOf(cfg, s, s', p, k, NextPlace(s.queue, s'.queue, f, Place(k, 0)))
  {
    assert NextHop(cfg, s.queue[0].ip) == NextHop(cfg, p.ip);
  }

  /**
    In every run, at the turn of a packet that frame `t` queued and that was put back `k`
    times since: it is answered with "time exceeded" exactly if it arrived with a TTL of
    k+2. With a higher one it is sent, k+2 hops lower, exactly if its next hop is known by
    then, and is put back at the end of the queue exactly if it is not.
   */
  lemma TurnDecides(cfg: Config, frames: seq<Frame>, t: nat, u: nat, k: nat)
    requires t < u < |frames| && IsQueued(cfg, frames, t) && IsArpReply(frames[u])
    requires PlaceOf(Queues(cfg, frames), frames, t, u) == Place(k, 0)
    ensures TurnOf(cfg, Run(cfg, frames[..u]), Run(cfg, frames[..u + 1]), frames[t].p, k,
                   PlaceOf(Queues(cfg, frames), frames, t, u + 1))
  {
    var next := PlaceOf(Queues(cfg, frames), frames, t, u + 1);
    WaitingInState(cfg, frames, t, u);
    RunNext(cfg, frames, u);
    NextInRun(cfg, frames, t, u, k);
    TurnInState(cfg, Run(cfg, frames[..u]), Run(cfg, frames[..u + 1]), frames[u], frames[t].p, k, next);
  }

  lemma NextInRun(cfg: Config, frames: seq<Frame>, t: nat, u: nat, k: nat)
    requires t < u < |frames| && PlaceOf(Queues(cfg, frames), frames, t, u) == Place(k, 0)
    ensures PlaceOf(Queues(cfg, frames), frames, t, u + 1) ==
            NextPlace(Run(cfg, frames[..u]).queue, Run(cfg, frames[..u + 1]).queue, frames[u], Place(k, 0))
  {
    QueueAt(cfg, frames, u);
    QueueAt(cfg, frames, u + 1);
    var q, q' := Run(cfg, frames[..u]).queue, Run(cfg, frames[..u + 1]).queue;
    PlaceAfterTurn(Queues(cfg, frames), frames, t, u, k, q, q');
  }

  lemma WaitingInState(cfg: Config, frames: seq<Frame>, t: nat, u: nat)
    requires t < u < |frames| && IsQueued(cfg, frames, t)
    ensures RouteFor(cfg, frames[t].p.ip).Some? && Ok(cfg, Run(cfg, frames[..u]))
    ensures Holds(Run(cfg, frames[..u]).queue, PlaceOf(Queues(cfg, frames), frames, t, u), Forms(frames[t].p))
  {
    WaitingHops(cfg, frames, t, u);
    QueuedFacts(cfg, frames, t);
    QueueAt(cfg, frames, u);
    RunOk(cfg, frames[..u]);
  }

  /**
    The first turn: when as many replies as packets wait ahead of it come in before frame
    `u`, among any other frames, and frame `u` is a reply from the packet's next hop, then it
    is sent exactly if it arrived with a TTL above 2, two hops lower, and answered with
    "time exceeded" exactly if it arrived with 2. Waiting costs a second hop.
   */
  lemma ArrivalTtlDecides(cfg: Config, frames: seq<Frame>, t: nat, u: nat)
    requires t < u < |frames| && IsQueued(cfg, frames, t)
    requires RepliesIn(frames, t + 1, u) == |Queues(cfg, frames)[t]|
    requires NextHopReplies(cfg, frames[t].p, frames[u])
    ensures Ttl(frames[t].p.ip) > 1
    ensures var (p, s, s') := (frames[t].p, Run(cfg, frames[..u]), Run(cfg, frames[..u + 1]));
            && |s'.log| == |s.log| + 1 && s.queue != [] && s'.queue == s.queue[1..]
            && var a := s'.log[|s.log|];
            && (a.Forward? <==> Ttl(p.ip) > 2)
            && (a.Forward? ==> a.p.ip == Hops(p.ip, 2))
            && (a == ErrorFor(After(p, 1), TimeExceeded) <==> Ttl(p.ip) == 2)
  {
    FirstPlaces(Queues(cfg, frames), frames, t, u);
    TurnDecides(cfg, frames, t, u, 0);
    RunNext(cfg, frames, u);
    ReplyKnown(cfg, Run(cfg, frames[..u]), frames[u]);
  }

  /** The frame is a reply from the packet's next hop. */
  ghost predicate NextHopReplies(cfg: Config, p: Packet, f: Frame) {
    RouteFor(cfg, p.ip).Some? && IsArpReply(f) && f.spa == NextHop(cfg, p.ip)
  }

  lemma ReplyKnown(cfg: Config, s: State, f: Frame)
    requires IsArpReply(f)
    ensures Known(Handle(cfg, s, f).arp, f.spa)
  {
    if s.queue != [] {
      ForwardFate(cfg, Learned(s, f).(queue := s.queue[1..]), s.queue[0]);
    }
    assert ArpEntry(f.spa, f.sha) in Handle(cfg, s, f).arp;
  }

  // ---------- A packet that expires while it waits ----------

  /** A valid header with a TTL of 2, of no particular addresses. */
  function TwoHopHeader(): Header {
    Filled(seq(20, i => if i == 8 then 2 else 0), 10)
  }

  /** A network reached through one default route. */
  ghost predicate DefaultRouteOnly(cfg: Config) {
    |cfg.rtable| == 1 && cfg.rtable[0].mask == 0
  }

  lemma TwoHopAccepted(cfg: Config, p: Packet)
    requires DefaultRouteOnly(cfg) && p.ip == TwoHopHeader()
    ensures Accepted(cfg, p) && Ttl(p.ip) == 2 && !ForRouter(cfg, p) && RouteFor(cfg, p.ip) == Some(0)
  {
    var base: Bytes := seq(20, i => if i == 8 then 2 else 0);
    FillThenVerify(base, 10);
    assert Matches(cfg.rtable[0], Dest(p.ip));
  }

  /** It is the first packet; its next hop's address is not known. */
  lemma TwoHopWaits(cfg: Config, p: Packet)
    requires DefaultRouteOnly(cfg) && p.ip == TwoHopHeader()
    ensures var s := Handle(cfg, START, Ip(p, 0, 0, 0));
            s.queue == [p.(ip := Hop(p.ip))] && |s.log| == 1 && s.log[0].ArpRequest?
  {
    TwoHopAccepted(cfg, p);
    ForwardFate(cfg, START, p);
    assert Handle(cfg, START, Ip(p, 0, 0, 0)) == Resolved(cfg, START, cfg.rtable[0], p.(ip := Hop(p.ip)));
  }

  /**
    A run in which a packet expires while it waits: it arrives with a TTL of 2, its next
    hop is asked for, and when that answers the sender is told "time exceeded".
   */
  lemma WaitingExpires(cfg: Config, p: Packet, reply: Frame)
    requires DefaultRouteOnly(cfg) && p.ip == TwoHopHeader()
    requires IsArpReply(reply) && reply.spa == cfg.rtable[0].nextHop
    ensures var frames := [Ip(p, 0, 0, 0), reply];
            && IsQueued(cfg, frames, 0)
            && var s := Run(cfg, frames);
            && s.queue == [] && |s.log| == 2 && s.log[0].ArpRequest?
            && s.log[1] == ErrorFor(p.(ip := Hop(p.ip)), TimeExceeded)
  {
    var frames := [Ip(p, 0, 0, 0), reply];
    TwoHopAccepted(cfg, p);
    TwoHopQueued(cfg, p, frames);
    RunNext(cfg, frames, 1);
    assert frames[..2] == frames;
    ArrivalTtlDecides(cfg, frames, 0, 1);
    HopsOnce(p);
    LogKept(cfg, Run(cfg, frames[..1]), reply);
  }

  lemma TwoHopQueued(cfg: Config, p: Packet, frames: seq<Frame>)
    requires DefaultRouteOnly(cfg) && p.ip == TwoHopHeader()
    requires |frames| > 0 && frames[0] == Ip(p, 0, 0, 0)
    ensures IsQueued(cfg, frames, 0) && Queues(cfg, frames)[0] == []
    ensures var s := Run(cfg, frames[..1]); |s.queue| == 1 && |s.log| == 1 && s.log[0].ArpRequest?
  {
    TwoHopAccepted(cfg, p);
    TwoHopWaits(cfg, p);
    RunNext(cfg, frames, 0);
    QueueAt(cfg, frames, 0);
    QueueAt(cfg, frames, 1);
  }

  lemma LogKept(cfg: Config, s: State, f: Frame)
    ensures s.log <= Handle(cfg, s, f).log
  {
  }
}
