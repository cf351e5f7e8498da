/** What holds of every run of the router. */
module RouterRuns {
  import opened Checksum
  import opened Options
  import opened Routes
  import opened BinaryLookup
  import opened RouterSpec

  function Count(log: seq<Action>, what: Action -> bool): nat {
    if log == [] then 0
    else Count(log[..|log| - 1], what) + if what(log[|log| - 1]) then 1 else 0
  }

  lemma CountAppend(log: seq<Action>, a: Action, what: Action -> bool)
    ensures Count(log + [a], what) == Count(log, what) + if what(a) then 1 else 0
  {
  }

  predicate IsRequest(a: Action) { a.ArpRequest? }

  /** The three ways a packet leaves the router for good. */
  predicate IsFinal(a: Action) { a.WrongChecksum? || a.IcmpError? || a.Forward? }

  /** The packet that left. */
  function Leaving(a: Action): Packet
    requires IsFinal(a)
  {
    if a.Forward? then a.p else a.cause
  }

  // ---------- One call of forward_packet ----------

  /** A header that passed the checks before the TTL was decremented. */
  ghost predicate Accepted(cfg: Config, p: Packet) {
    IpChecksumOf(p.ip) == 0 && RouteFor(cfg, p.ip).Some?
  }

  /** Sent with one hop taken, to an address learned for the route's next hop; or that address is asked for. */
  ghost predicate NextHopAction(cfg: Config, arp: seq<ArpEntry>, p: Packet, a: Action) {
    && RouteFor(cfg, p.ip).Some? && Ttl(p.ip) > 0
    && var route := cfg.rtable[RouteFor(cfg, p.ip).value];
    && (a.Forward? ==>
          && a.iface == route.iface && ArpEntry(route.nextHop, a.p.dhost) in arp
          && a.p == Packet(a.p.dhost, cfg.ifMac(route.iface), Hop(p.ip), p.iface))
    && (a.ArpRequest? ==> a == ArpRequest(route.nextHop, cfg.ifIp(route.iface), cfg.ifMac(route.iface), route.iface))
  }

  /** Exactly one fate, and when each is met. */
  lemma ForwardFate(cfg: Config, s: State, p: Packet)
    ensures var s' := Forwarded(cfg, s, p);
            && s'.arp == s.arp
            && |s'.log| == |s.log| + 1 && s'.log[..|s.log|] == s.log
            && var a := s'.log[|s.log|];
            && (a == WrongChecksum(p) <==> IpChecksumOf(p.ip) != 0)
            && (a == ErrorFor(p, TimeExceeded) <==> IpChecksumOf(p.ip) == 0 && Ttl(p.ip) <= 1)
            && (a == ErrorFor(p, Unreachable) <==>
                  IpChecksumOf(p.ip) == 0 && Ttl(p.ip) > 1 && RouteFor(cfg, p.ip).None?)
            && (a.ArpRequest? || a.Forward? <==> Accepted(cfg, p) && Ttl(p.ip) > 1)
            && (a.ArpRequest? <==> s'.queue != s.queue)
            && (a.ArpRequest? ==> s'.queue == s.queue + [p.(ip := Hop(p.ip))] &&
                                  forall e :: e in s.arp ==> e.ip != a.target)
            && (IsFinal(a) <==> !a.ArpRequest?)
            && (a.ArpRequest? || a.Forward? ==> NextHopAction(cfg, s.arp, p, a))
  {
  }

  lemma HopKeepsAcceptance(cfg: Config, p: Packet)
    requires Accepted(cfg, p) && Ttl(p.ip) > 0
    ensures Accepted(cfg, p.(ip := Hop(p.ip)))
  {
    TtlDecrement(p.ip);
  }

  // ---------- Invariant: what waits and what was sent is in order ----------

  /** Every waiting packet has a valid checksum, a route and a TTL of at least 1. */
  ghost predicate QueueOk(cfg: Config, queue: seq<Packet>) {
    forall p :: p in queue ==> Accepted(cfg, p) && Ttl(p.ip) >= 1
  }

  /**
    A forwarded packet has a valid header and leaves on a matching route's interface, from
    that interface's address to an address learned for that route's next hop.
   */
  ghost predicate SentOk(cfg: Config, arp: seq<ArpEntry>, a: Action) {
    a.Forward? ==>
      && Accepted(cfg, a.p) && Ttl(a.p.ip) >= 1
      && var route := cfg.rtable[RouteFor(cfg, a.p.ip).value];
      && Matches(route, Dest(a.p.ip))
      && a.iface == route.iface && a.p.shost == cfg.ifMac(a.iface)
      && ArpEntry(route.nextHop, a.p.dhost) in arp
  }

  ghost predicate Ok(cfg: Config, s: State) {
    QueueOk(cfg, s.queue) && forall a :: a in s.log ==> SentOk(cfg, s.arp, a)
  }

  lemma LearningKeepsOk(cfg: Config, s: State, e: ArpEntry)
    requires Ok(cfg, s)
    ensures Ok(cfg, s.(arp := s.arp + [e]))
  {
  }

  lemma ForwardedKeepsOk(cfg: Config, s: State, p: Packet)
    requires Ok(cfg, s)
    ensures Ok(cfg, Forwarded(cfg, s, p))
  {
    if Accepted(cfg, p) && Ttl(p.ip) > 1 {
      HopKeepsAcceptance(cfg, p);
    }
  }

  lemma HandleKeepsOk(cfg: Config, s: State, f: Frame)
    requires Ok(cfg, s)
    ensures Ok(cfg, Handle(cfg, s, f))
  {
    match f
    case Ip(p, _, _, _) => ForwardedKeepsOk(cfg, s, p);
    case Arp(_, _, _, _, _, _) =>
      if IsArpReply(f) {
        LearningKeepsOk(cfg, s, ArpEntry(f.spa, f.sha));
      }
      if IsArpReply(f) && s.queue != [] {
        ForwardedKeepsOk(cfg, Learned(s, f).(queue := s.queue[1..]), s.queue[0]);
      }
    case Other =>
  }

  lemma {:induction false} RunOk(cfg: Config, frames: seq<Frame>)
    ensures Ok(cfg, Run(cfg, frames))
  {
    if frames != [] {
      RunOk(cfg, frames[..|frames| - 1]);
      HandleKeepsOk(cfg, Run(cfg, frames[..|frames| - 1]), frames[|frames| - 1]);
    }
  }

  // ---------- Conservation ----------

  predicate GoesToForwarding(cfg: Config, f: Frame) {
    f.Ip? && !ForRouter(cfg, f.p)
  }

  /** What stays of a packet while it is handled: all but its TTL, checksum and Ethernet addresses. */
  datatype Trip = Trip(ip: seq<int>, iface: int)

  function TripOf(p: Packet): Trip {
    Trip(p.ip[..8] + [p.ip[9]] + p.ip[12..], p.iface)
  }

  lemma HopKeepsTrip(p: Packet, dhost: Mac, shost: Mac)
    requires Ttl(p.ip) > 0
    ensures TripOf(Packet(dhost, shost, Hop(p.ip), p.iface)) == TripOf(p)
  {
    var h := Hop(p.ip);
    assert h[..8] == p.ip[..8] && h[12..] == p.ip[12..];
  }

  /** The packets given to forwarding. */
  function Arrived(cfg: Config, frames: seq<Frame>): multiset<Trip> {
    if frames == [] then multiset{}
    else
      var f := frames[|frames| - 1];
      Arrived(cfg, frames[..|frames| - 1]) + if GoesToForwarding(cfg, f) then multiset{TripOf(f.p)} else multiset{}
  }

  /** The packets that were sent, answered or dropped. */
  function Left(log: seq<Action>): multiset<Trip> {
    if log == [] then multiset{}
    else
      var a := log[|log| - 1];
      Left(log[..|log| - 1]) + if IsFinal(a) then multiset{TripOf(Leaving(a))} else multiset{}
  }

  function Waiting(queue: seq<Packet>): multiset<Trip> {
    if queue == [] then multiset{} else multiset{TripOf(queue[0])} + Waiting(queue[1..])
  }

  lemma LeftAppend(log: seq<Action>, a: Action)
    ensures Left(log + [a]) == Left(log) + if IsFinal(a) then multiset{TripOf(Leaving(a))} else multiset{}
  {
    assert (log + [a])[..|log|] == log;
  }

  lemma {:induction false} WaitingAppend(queue: seq<Packet>, p: Packet)
    ensures Waiting(queue + [p]) == Waiting(queue) + multiset{TripOf(p)}
  {
    if queue == [] {
      assert [p][1..] == [];
    } else {
      WaitingAppend(queue[1..], p);
      assert (queue + [p])[1..] == queue[1..] + [p];
    }
  }

  /** One call accounts for its packet, and for nothing else. */
  lemma ForwardedAccounts(cfg: Config, s: State, p: Packet)
    ensures var s' := Forwarded(cfg, s, p);
            Left(s'.log) + Waiting(s'.queue) == Left(s.log) + Waiting(s.queue) + multiset{TripOf(p)}
  {
    var s' := Forwarded(cfg, s, p);
    ForwardFate(cfg, s, p);
    var a := s'.log[|s.log|];
    assert s'.log == s.log + [a];
    if a.ArpRequest? {
      QueuedAccounts(s, p, a);
    } else {
      if a.Forward? {
        HopKeepsTrip(p, a.p.dhost, a.p.shost);
      }
      LeavingAccounts(s, p, a);
    }
  }

  lemma QueuedAccounts(s: State, p: Packet, a: Action)
    requires a.ArpRequest? && Ttl(p.ip) > 0
    ensures Left(s.log + [a]) + Waiting(s.queue + [p.(ip := Hop(p.ip))]) ==
            Left(s.log) + Waiting(s.queue) + multiset{TripOf(p)}
  {
    LeftAppend(s.log, a);
    HopKeepsTrip(p, p.dhost, p.shost);
    WaitingAppend(s.queue, p.(ip := Hop(p.ip)));
  }

  lemma LeavingAccounts(s: State, p: Packet, a: Action)
    requires IsFinal(a) && TripOf(Leaving(a)) == TripOf(p)
    ensures Left(s.log + [a]) + Waiting(s.queue) == Left(s.log) + Waiting(s.queue) + multiset{TripOf(p)}
  {
    LeftAppend(s.log, a);
  }

  lemma RepliedAccounts(cfg: Config, s: State, f: Frame)
    requires IsArpReply(f)
    ensures var s' := Replied(cfg, s, f);
            Left(s'.log) + Waiting(s'.queue) == Left(s.log) + Waiting(s.queue)
  {
    if s.queue != [] {
      ForwardedAccounts(cfg, Learned(s, f).(queue := s.queue[1..]), s.queue[0]);
    }
  }

  lemma HandleAccounts(cfg: Config, s: State, f: Frame)
    ensures var s' := Handle(cfg, s, f);
            Left(s'.log) + Waiting(s'.queue) ==
            Left(s.log) + Waiting(s.queue) + if GoesToForwarding(cfg, f) then multiset{TripOf(f.p)} else multiset{}
  {
    var s' := Handle(cfg, s, f);
    if GoesToForwarding(cfg, f) {
      ForwardedAccounts(cfg, s, f.p);
    } else if IsArpReply(f) {
      RepliedAccounts(cfg, s, f);
    } else if s' != s {
      OwnFrame(cfg, s, f);
      LeftAppend(s.log, s'.log[|s.log|]);
    }
  }

  /** A frame for the router itself leads to at most an answer, and leaves the queue alone. */
  lemma OwnFrame(cfg: Config, s: State, f: Frame)
    requires !GoesToForwarding(cfg, f) && !IsArpReply(f) && Handle(cfg, s, f) != s
    ensures var s' := Handle(cfg, s, f);
            && s'.queue == s.queue && s'.arp == s.arp && |s'.log| == |s.log| + 1
            && var a := s'.log[|s.log|];
            s'.log == s.log + [a] && (a.EchoReply? || a.ArpReply?) && Answers(cfg, a, f)
  {
  }

  /**
    In every run the packets given to forwarding are, one for one and each itself, those
    that were forwarded, answered with an ICMP error or dropped for their checksum, and
    those still queued.
   */
  lemma {:induction false} NothingLost(cfg: Config, frames: seq<Frame>)
    ensures Arrived(cfg, frames) == Left(Run(cfg, frames).log) + Waiting(Run(cfg, frames).queue)
  {
    if frames != [] {
      NothingLost(cfg, frames[..|frames| - 1]);
      HandleAccounts(cfg, Run(cfg, frames[..|frames| - 1]), frames[|frames| - 1]);
    }
  }

  // ---------- Answers ----------

  /** A packet as it arrived, but for its TTL and checksum. */
  ghost predicate CameAs(p: Packet, q: Packet) {
    TripOf(p) == TripOf(q) && p.dhost == q.dhost && p.shost == q.shost
  }

  lemma SameAddresses(p: Packet, q: Packet)
    requires CameAs(p, q)
    ensures Source(p.ip) == Source(q.ip) && Dest(p.ip) == Dest(q.ip) && p.iface == q.iface
  {
    assert p.ip[12..] == TripOf(p).ip[9..] && q.ip[12..] == TripOf(q).ip[9..];
    assert p.ip[12..16] == p.ip[12..][..4] && q.ip[12..16] == q.ip[12..][..4];
    assert p.ip[16..20] == p.ip[12..][4..] && q.ip[16..20] == q.ip[12..][4..];
  }

  /** An answer to a frame: addresses reversed, out of the interface the frame arrived on. */
  ghost predicate Answers(cfg: Config, a: Action, f: Frame) {
    match a
    case IcmpError(_, to, from, sha, dha, iface, cause) =>
      && GoesToForwarding(cfg, f) && CameAs(cause, f.p)
      && to == Source(f.p.ip) && from == Dest(f.p.ip) && sha == f.p.dhost && dha == f.p.shost && iface == f.p.iface
    case EchoReply(to, from, sha, dha, iface, id, sequence) =>
      && f.Ip? && ForRouter(cfg, f.p) && f.icmpType == ICMP_ECHO && id == f.id && sequence == f.sequence
      && to == Source(f.p.ip) && from == Dest(f.p.ip) && sha == f.p.dhost && dha == f.p.shost && iface == f.p.iface
    case ArpReply(target, sender, sha, dha, iface) =>
      && f.Arp? && f.op == ARPOP_REQUEST && f.tpa == cfg.ifIp(f.iface)
      && target == f.spa && sender == f.tpa && sha == cfg.ifMac(f.iface) && dha == f.shost && iface == f.iface
    case _ => true
  }

  ghost predicate AnswersSome(cfg: Config, a: Action, frames: seq<Frame>) {
    a.IcmpError? || a.EchoReply? || a.ArpReply? ==> exists f :: f in frames && Answers(cfg, a, f)
  }

  ghost predicate CameAmong(cfg: Config, p: Packet, frames: seq<Frame>) {
    exists f :: f in frames && GoesToForwarding(cfg, f) && CameAs(p, f.p)
  }

  ghost predicate Answering(cfg: Config, s: State, frames: seq<Frame>) {
    && (forall a :: a in s.log ==> AnswersSome(cfg, a, frames))
    && (forall p :: p in s.queue ==> CameAmong(cfg, p, frames))
  }

  lemma MoreFrames(cfg: Config, s: State, frames: seq<Frame>, f: Frame)
    requires Answering(cfg, s, frames)
    ensures Answering(cfg, s, frames + [f])
  {
    assert forall g :: g in frames ==> g in frames + [f];
    forall a | a in s.log
      ensures AnswersSome(cfg, a, frames + [f])
    {
      assert AnswersSome(cfg, a, frames);
    }
    forall p | p in s.queue
      ensures CameAmong(cfg, p, frames + [f])
    {
      assert CameAmong(cfg, p, frames);
    }
  }

  lemma ForwardedAnswers(cfg: Config, s: State, p: Packet, frames: seq<Frame>)
    requires Answering(cfg, s, frames) && CameAmong(cfg, p, frames)
    ensures Answering(cfg, Forwarded(cfg, s, p), frames)
  {
    var s' := Forwarded(cfg, s, p);
    var f :| f in frames && GoesToForwarding(cfg, f) && CameAs(p, f.p);
    ForwardFate(cfg, s, p);
    SameAddresses(p, f.p);
    var a := s'.log[|s.log|];
    assert s'.log == s.log + [a];
    assert a.IcmpError? ==> Answers(cfg, a, f);
    if a.ArpRequest? {
      HopKeepsTrip(p, p.dhost, p.shost);
      assert CameAs(p.(ip := Hop(p.ip)), f.p);
    }
  }

  lemma HandleAnswers(cfg: Config, s: State, f: Frame, frames: seq<Frame>)
    requires Answering(cfg, s, frames) && f in frames
    ensures Answering(cfg, Handle(cfg, s, f), frames)
  {
    var s' := Handle(cfg, s, f);
    if GoesToForwarding(cfg, f) {
      assert CameAs(f.p, f.p);
      ForwardedAnswers(cfg, s, f.p, frames);
    } else if IsArpReply(f) {
      if s.queue != [] {
        ForwardedAnswers(cfg, Learned(s, f).(queue := s.queue[1..]), s.queue[0], frames);
      }
    } else if s' != s {
      OwnFrame(cfg, s, f);
    }
  }

  /**
    In every run each ICMP error, echo reply and ARP reply answers a frame that arrived, at
    its sender's addresses and out of the interface it came in on, also after waiting.
   */
  lemma {:induction false} AnswersGoBack(cfg: Config, frames: seq<Frame>)
    ensures Answering(cfg, Run(cfg, frames), frames)
  {
    if frames != [] {
      var (front, f) := (frames[..|frames| - 1], frames[|frames| - 1]);
      AnswersGoBack(cfg, front);
      MoreFrames(cfg, Run(cfg, front), front, f);
      assert frames == front + [f];
      HandleAnswers(cfg, Run(cfg, front), f, frames);
    }
  }

  // ---------- How one frame moves the counters ----------

  lemma ForwardedCounts(cfg: Config, s: State, p: Packet)
    ensures var s' := Forwarded(cfg, s, p);
            Count(s'.log, IsRequest) - |s'.queue| == Count(s.log, IsRequest) - |s.queue|
  {
    var s' := Forwarded(cfg, s, p);
    ForwardFate(cfg, s, p);
    assert s'.log == s.log + [s'.log[|s.log|]];
    CountAppend(s.log, s'.log[|s.log|], IsRequest);
  }

  lemma HandleCounts(cfg: Config, s: State, f: Frame)
    ensures var s' := Handle(cfg, s, f);
            Count(s'.log, IsRequest) - |s'.queue| ==
            Count(s.log, IsRequest) - |s.queue| + if IsArpReply(f) && s.queue != [] then 1 else 0
  {
    var s' := Handle(cfg, s, f);
    if GoesToForwarding(cfg, f) {
      ForwardedCounts(cfg, s, f.p);
    } else if IsArpReply(f) {
      if s.queue != [] {
        ForwardedCounts(cfg, Learned(s, f).(queue := s.queue[1..]), s.queue[0]);
      }
    } else if s' != s {
      OwnFrame(cfg, s, f);
      CountAppend(s.log, s'.log[|s.log|], IsRequest);
    }
  }

  // ---------- ARP accounting ----------

  /** The replies among frames `m` to `n - 1`. */
  function RepliesIn(frames: seq<Frame>, m: nat, n: nat): nat
    requires m <= n <= |frames|
    decreases n
  {
    if m == n then 0 else RepliesIn(frames, m, n - 1) + if IsArpReply(frames[n - 1]) then 1 else 0
  }

  function Replies(frames: seq<Frame>): nat {
    RepliesIn(frames, 0, |frames|)
  }

  lemma {:induction false} RepliesOfFront(frames: seq<Frame>, k: nat, n: nat)
    requires n <= k <= |frames|
    ensures RepliesIn(frames[..k], 0, n) == RepliesIn(frames, 0, n)
    decreases n
  {
    if n > 0 {
      RepliesOfFront(frames, k, n - 1);
    }
  }

  lemma RepliesWithLast(frames: seq<Frame>)
    requires frames != []
    ensures Replies(frames) ==
            Replies(frames[..|frames| - 1]) + if IsArpReply(frames[|frames| - 1]) then 1 else 0
  {
    RepliesOfFront(frames, |frames| - 1, |frames| - 1);
  }

  function Requests(cfg: Config, frames: seq<Frame>): nat {
    Count(Run(cfg, frames).log, IsRequest)
  }

  /** Every reply answers an earlier request of its own: no prefix has more replies than requests before it. */
  ghost predicate RepliesAnswerRequests(cfg: Config, frames: seq<Frame>) {
    frames != [] ==>
      && RepliesAnswerRequests(cfg, frames[..|frames| - 1])
      && Replies(frames) <= Requests(cfg, frames[..|frames| - 1])
  }

  /** An unsolicited reply never makes the queue shorter than requests minus replies. */
  lemma {:induction false} QueueAtLeast(cfg: Config, frames: seq<Frame>)
    ensures |Run(cfg, frames).queue| >= Requests(cfg, frames) - Replies(frames)
  {
    if frames != [] {
      RepliesWithLast(frames);
      QueueAtLeast(cfg, frames[..|frames| - 1]);
      HandleCounts(cfg, Run(cfg, frames[..|frames| - 1]), frames[|frames| - 1]);
    }
  }

  /**
    The queue holds exactly one packet per unanswered request, in every run in which each
    reply answers a distinct earlier request, and in no other run. In particular no
    packet waits once every request has been answered, however often it was queued again.
   */
  lemma {:induction false} QueueCountsUnanswered(cfg: Config, frames: seq<Frame>)
    ensures |Run(cfg, frames).queue| == Requests(cfg, frames) - Replies(frames) <==>
            RepliesAnswerRequests(cfg, frames)
  {
    if frames != [] {
      var (front, f) := (frames[..|frames| - 1], frames[|frames| - 1]);
      RepliesWithLast(frames);
      QueueAtLeast(cfg, front);
      QueueCountsUnanswered(cfg, front);
      HandleCounts(cfg, Run(cfg, front), f);
    }
  }

  /** No reply of such a run finds the queue empty. */
  lemma ReplyFindsPacket(cfg: Config, frames: seq<Frame>, f: Frame)
    requires RepliesAnswerRequests(cfg, frames + [f]) && IsArpReply(f)
    ensures Run(cfg, frames).queue != []
  {
    assert (frames + [f])[..|frames|] == frames;
    RepliesWithLast(frames + [f]);
    QueueCountsUnanswered(cfg, frames);
  }

  // ---------- Retries ----------

  function TtlSum(queue: seq<Packet>): int {
    if queue == [] then 0 else Ttl(queue[0].ip) + TtlSum(queue[1..])
  }

  lemma {:induction false} TtlSumAppend(queue: seq<Packet>, p: Packet)
    ensures TtlSum(queue + [p]) == TtlSum(queue) + Ttl(p.ip)
  {
    if queue != [] {
      TtlSumAppend(queue[1..], p);
      assert (queue + [p])[1..] == queue[1..] + [p];
    }
  }

  lemma {:induction false} TtlSumBound(cfg: Config, queue: seq<Packet>)
    requires QueueOk(cfg, queue)
    ensures TtlSum(queue) >= |queue|
  {
    if queue != [] {
      TtlSumBound(cfg, queue[1..]);
    }
  }

  /**
    A retried packet never takes the bad-checksum or the unreachable branch. One whose TTL
    reached 1 while waiting is answered with "time exceeded"; any other is sent, or queued
    again with its TTL decremented once more.
   */
  lemma RetryOutcome(cfg: Config, s: State, f: Frame)
    requires Ok(cfg, s) && IsArpReply(f) && s.queue != []
    ensures var s' := Handle(cfg, s, f);
            var p := s.queue[0];
            && |s'.log| == |s.log| + 1
            && var a := s'.log[|s.log|];
            && (a == ErrorFor(p, TimeExceeded) <==> Ttl(p.ip) == 1)
            && (Ttl(p.ip) > 1 ==> a.Forward? || a.ArpRequest?)
            && (a.Forward? ==> a.p.ip == Hop(p.ip) && s'.queue == s.queue[1..])
            && (a.ArpRequest? ==> s'.queue == s.queue[1..] + [p.(ip := Hop(p.ip))] && a.target != f.spa)
            && TtlSum(s'.queue) < TtlSum(s.queue)
  {
    var s0 := Learned(s, f).(queue := s.queue[1..]);
    var p := s.queue[0];
    assert p in s.queue;
    ForwardFate(cfg, s0, p);
    if Ttl(p.ip) > 1 {
      TtlSumAppend(s0.queue, p.(ip := Hop(p.ip)));
    }
    assert ArpEntry(f.spa, f.sha) in s0.arp;
  }

  function HandleAll(cfg: Config, s: State, frames: seq<Frame>): State
    decreases |frames|
  {
    if frames == [] then s else HandleAll(cfg, Handle(cfg, s, frames[0]), frames[1..])
  }

  /** Retrying terminates: as many replies as the waiting TTLs add up to always empty the queue. */
  lemma {:induction false} RepliesDrainQueue(cfg: Config, s: State, replies: seq<Frame>)
    requires Ok(cfg, s) && forall f :: f in replies ==> IsArpReply(f)
    requires |replies| >= TtlSum(s.queue)
    ensures HandleAll(cfg, s, replies).queue == []
    decreases |replies|
  {
    TtlSumBound(cfg, s.queue);
    if replies != [] {
      assert replies[0] in replies;
      HandleKeepsOk(cfg, s, replies[0]);
      if s.queue != [] {
        RetryOutcome(cfg, s, replies[0]);
      }
      RepliesDrainQueue(cfg, Handle(cfg, s, replies[0]), replies[1..]);
    }
  }
}
