/**
  What the router owes for each frame, written on the frame's own bytes and the numbers of
  RFC 792 and RFC 826, with no regard to how the router goes about it.
 */
module RouterPromise {
  import opened Options
  import opened Routes
  import opened RouterSpec

  /** Four bytes as a little-endian host loads them. */
  function Word(h: Header, i: nat): int
    requires i + 4 <= 20
  {
    h[i] + 0x100 * h[i + 1] + 0x1_0000 * h[i + 2] + 0x100_0000 * h[i + 3]
  }

  /** An ICMP packet for the address of the interface it came in on. */
  predicate ForMe(cfg: Config, p: Packet) {
    p.ip[9] == 1 && Word(p.ip, 16) == cfg.ifIp(p.iface)
  }

  predicate IsPing(cfg: Config, f: Frame) {
    f.Ip? && ForMe(cfg, f.p) && f.icmpType == 8
  }

  predicate IsTransit(cfg: Config, f: Frame) {
    f.Ip? && !ForMe(cfg, f.p)
  }

  predicate IsQuery(cfg: Config, f: Frame) {
    f.Arp? && f.op == 1 && f.tpa == cfg.ifIp(f.iface)
  }

  predicate IsReply(f: Frame) {
    f.Arp? && f.op != 1
  }

  /** The echo reply owed for a ping: addresses exchanged, identifier and sequence number kept. */
  function Pong(f: Frame): Action
    requires f.Ip?
  {
    EchoReply(Word(f.p.ip, 12), Word(f.p.ip, 16), f.p.dhost, f.p.shost, f.p.iface, f.id, f.sequence)
  }

  function QueryAnswer(cfg: Config, f: Frame): Action
    requires f.Arp?
  {
    ArpReply(f.spa, f.tpa, cfg.ifMac(f.iface), f.shost, f.iface)
  }

  /** The error message about a packet, back to where it came from. */
  function Complaint(kind: IcmpKind, p: Packet): Action {
    IcmpError(kind, Word(p.ip, 12), Word(p.ip, 16), p.dhost, p.shost, p.iface, p)
  }

  /** The echo replies owed for the frames, in order. */
  function Pongs(cfg: Config, frames: seq<Frame>): seq<Action> {
    if frames == [] then []
    else
      var f := frames[|frames| - 1];
      Pongs(cfg, frames[..|frames| - 1]) + if IsPing(cfg, f) then [Pong(f)] else []
  }

  function QueryAnswers(cfg: Config, frames: seq<Frame>): seq<Action> {
    if frames == [] then []
    else
      var f := frames[|frames| - 1];
      QueryAnswers(cfg, frames[..|frames| - 1]) + if IsQuery(cfg, f) then [QueryAnswer(cfg, f)] else []
  }

  /** The hardware address in the first reply that came from an address. */
  function Heard(frames: seq<Frame>, ip: Addr): Option<Mac> {
    if frames == [] then None
    else
      var before := Heard(frames[..|frames| - 1], ip);
      var f := frames[|frames| - 1];
      if before.Some? then before
      else if IsReply(f) && f.spa == ip then Some(f.sha)
      else None
  }

  function EchoReplies(log: seq<Action>): seq<Action> {
    if log == [] then []
    else EchoReplies(log[..|log| - 1]) + if log[|log| - 1].EchoReply? then [log[|log| - 1]] else []
  }

  function ArpReplies(log: seq<Action>): seq<Action> {
    if log == [] then []
    else ArpReplies(log[..|log| - 1]) + if log[|log| - 1].ArpReply? then [log[|log| - 1]] else []
  }
}

/** The router keeps these promises in every run. */
module RouterAnswers {
  import opened Checksum
  import opened Options
  import opened Routes
  import opened BinaryLookup
  import opened RouterSpec
  import opened RouterRuns
  import opened RouterPromise

  // ---------- Frames, read by their bytes ----------

  lemma AddressBytes(h: Header)
    ensures Source(h) == Word(h, 12) && Dest(h) == Word(h, 16)
  {
    assert h[12..16] == [h[12], h[13], h[14], h[15]];
    assert h[16..20] == [h[16], h[17], h[18], h[19]];
  }

  /** Which frames go to forwarding and which are replies. */
  lemma FramesSorted(cfg: Config, f: Frame)
    ensures GoesToForwarding(cfg, f) <==> IsTransit(cfg, f)
    ensures IsArpReply(f) <==> IsReply(f)
  {
    if f.Ip? {
      AddressBytes(f.p.ip);
    }
  }

  /** What one frame does that is neither forwarded nor a reply: it is answered if it asks something of the router. */
  lemma OwnFrameAnswered(cfg: Config, s: State, f: Frame)
    requires !IsTransit(cfg, f) && !IsReply(f)
    ensures Handle(cfg, s, f) ==
            if IsPing(cfg, f) then s.(log := s.log + [Pong(f)])
            else if IsQuery(cfg, f) then s.(log := s.log + [QueryAnswer(cfg, f)])
            else s
  {
    if f.Ip? {
      AddressBytes(f.p.ip);
    }
  }

  /** Other frames cause one action at most, and that is no answer of this kind. */
  lemma OtherActions(cfg: Config, s: State, f: Frame)
    requires IsTransit(cfg, f) || IsReply(f)
    ensures var s' := Handle(cfg, s, f);
            || s'.log == s.log
            || (|s'.log| > 0 && s'.log[..|s'.log| - 1] == s.log &&
                !s'.log[|s'.log| - 1].EchoReply? && !s'.log[|s'.log| - 1].ArpReply?)
  {
    FramesSorted(cfg, f);
    if GoesToForwarding(cfg, f) {
      ForwardFate(cfg, s, f.p);
    } else if s.queue != [] {
      ForwardFate(cfg, Learned(s, f).(queue := s.queue[1..]), s.queue[0]);
    }
  }

  lemma RepliesOfOne(cfg: Config, s: State, f: Frame)
    ensures var s' := Handle(cfg, s, f);
            && EchoReplies(s'.log) == EchoReplies(s.log) + (if IsPing(cfg, f) then [Pong(f)] else [])
            && ArpReplies(s'.log) == ArpReplies(s.log) + (if IsQuery(cfg, f) then [QueryAnswer(cfg, f)] else [])
  {
    var s' := Handle(cfg, s, f);
    if IsTransit(cfg, f) || IsReply(f) {
      OtherActions(cfg, s, f);
    } else {
      OwnFrameAnswered(cfg, s, f);
      if s' != s {
        assert s'.log[..|s.log|] == s.log;
      }
    }
  }

  /**
    In every run the echo replies sent are exactly those owed for the pings that arrived, and
    the ARP replies exactly those owed for the queries, each once and in their order.
   */
  lemma {:induction false} AllAnswered(cfg: Config, frames: seq<Frame>)
    ensures EchoReplies(Run(cfg, frames).log) == Pongs(cfg, frames)
    ensures ArpReplies(Run(cfg, frames).log) == QueryAnswers(cfg, frames)
  {
    if frames != [] {
      var front := frames[..|frames| - 1];
      AllAnswered(cfg, front);
      RepliesOfOne(cfg, Run(cfg, front), frames[|frames| - 1]);
    }
  }

  // ---------- The ARP table ----------

  lemma {:induction false} LookupAppend(arp: seq<ArpEntry>, e: ArpEntry, ip: Addr)
    ensures ArpLookup(arp + [e], ip) ==
            if ArpLookup(arp, ip).Some? then ArpLookup(arp, ip) else if e.ip == ip then Some(e.mac) else None
  {
    if arp == [] {
      assert arp + [e] == [e] && [e][1..] == [];
    } else {
      assert (arp + [e])[1..] == arp[1..] + [e];
      LookupAppend(arp[1..], e, ip);
    }
  }

  lemma TableGrows(cfg: Config, s: State, f: Frame)
    ensures Handle(cfg, s, f).arp == if IsReply(f) then s.arp + [ArpEntry(f.spa, f.sha)] else s.arp
  {
    if f.Ip? {
      ForwardFate(cfg, s, f.p);
    } else if IsReply(f) && s.queue != [] {
      ForwardFate(cfg, Learned(s, f).(queue := s.queue[1..]), s.queue[0]);
    }
  }

  /** In every run the address looked up for a next hop is the one in the first reply that came from it. */
  lemma {:induction false} TableIsHeard(cfg: Config, frames: seq<Frame>, ip: Addr)
    ensures ArpLookup(Run(cfg, frames).arp, ip) == Heard(frames, ip)
  {
    if frames != [] {
      var (front, f) := (frames[..|frames| - 1], frames[|frames| - 1]);
      TableIsHeard(cfg, front, ip);
      TableGrows(cfg, Run(cfg, front), f);
      if IsReply(f) {
        LookupAppend(Run(cfg, front).arp, ArpEntry(f.spa, f.sha), ip);
      }
    }
  }

  // ---------- Routes ----------

  lemma {:induction false} FoundIsToward(rtable: seq<Route>, dest: Addr, start: int, end: int)
    requires 0 <= start && end < |rtable|
    ensures var r := GetBestRoute(rtable, dest, start, end); r.Some? ==> Toward(rtable, dest, start, end, r.value)
    decreases end - start + 1
  {
    if start <= end {
      var mid := (start + end) / 2;
      FoundIsToward(rtable, dest, start, mid - 1);
      FoundIsToward(rtable, dest, mid + 1, end);
    }
  }

  /** The route at `k` matches the destination, and every midpoint above it points to it. */
  ghost predicate LeadsTo(rtable: seq<Route>, dest: Addr, k: int) {
    0 <= k < |rtable| && Matches(rtable[k], dest) && Toward(rtable, dest, 0, |rtable| - 1, k)
  }

  lemma RouteMeans(cfg: Config, h: Header)
    ensures RouteFor(cfg, h).Some? <==> Guided(cfg.rtable, Word(h, 16))
    ensures RouteFor(cfg, h).Some? ==> LeadsTo(cfg.rtable, Word(h, 16), RouteFor(cfg, h).value)
  {
    AddressBytes(h);
    SearchFindsIff(cfg.rtable, Dest(h));
    FoundIsToward(cfg.rtable, Dest(h), 0, |cfg.rtable| - 1);
  }

  // ---------- The fate of a packet ----------

  /** One hop lower: the TTL, the checksum with it, and nothing else. */
  ghost predicate OneLower(h: Header, r: Header) {
    && r[8] == h[8] - 1 && IpChecksumOf(r) == 0
    && forall i :: 0 <= i < 20 && i != 8 && i != 10 && i != 11 ==> r[i] == h[i]
  }

  /** The packet leaves by a route, to the address heard for its next hop. */
  ghost predicate SentBy(cfg: Config, frames: seq<Frame>, p: Packet, a: Action, k: int) {
    && LeadsTo(cfg.rtable, Word(p.ip, 16), k) && a.Forward? && a.iface == cfg.rtable[k].iface
    && Heard(frames, cfg.rtable[k].nextHop) == Some(a.p.dhost) && a.p.shost == cfg.ifMac(a.iface)
    && a.p.iface == p.iface && OneLower(p.ip, a.p.ip)
  }

  /** Nothing was heard from the next hop, so it is asked. */
  ghost predicate AskedBy(cfg: Config, frames: seq<Frame>, p: Packet, a: Action, k: int) {
    && LeadsTo(cfg.rtable, Word(p.ip, 16), k) && Heard(frames, cfg.rtable[k].nextHop) == None
    && var (iface, target) := (cfg.rtable[k].iface, cfg.rtable[k].nextHop);
    a == ArpRequest(target, cfg.ifIp(iface), cfg.ifMac(iface), iface)
  }

  /** What becomes of a packet given to forwarding, when `frames` have arrived: `a`, and the packet put back. */
  ghost predicate Fate(cfg: Config, frames: seq<Frame>, p: Packet, a: Action, put: seq<Packet>) {
    var (valid, guided) := (IpChecksumOf(p.ip) == 0, Guided(cfg.rtable, Word(p.ip, 16)));
    && (a == WrongChecksum(p) <==> !valid)
    && (a == Complaint(TimeExceeded, p) <==> valid && p.ip[8] <= 1)
    && (a == Complaint(Unreachable, p) <==> valid && p.ip[8] > 1 && !guided)
    && (valid && p.ip[8] > 1 && guided ==> exists k :: SentBy(cfg, frames, p, a, k) || AskedBy(cfg, frames, p, a, k))
    && (if a.ArpRequest? then |put| == 1 && put[0] == p.(ip := put[0].ip) && OneLower(p.ip, put[0].ip) else put == [])
  }

  lemma ForwardedHasFate(cfg: Config, frames: seq<Frame>, s: State, p: Packet)
    requires forall ip :: ArpLookup(s.arp, ip) == Heard(frames, ip)
    ensures var s' := Forwarded(cfg, s, p);
            && |s'.log| == |s.log| + 1 && s'.log[..|s.log|] == s.log && s.queue <= s'.queue
            && Fate(cfg, frames, p, s'.log[|s.log|], s'.queue[|s.queue|..])
  {
    ForwardFate(cfg, s, p);
    AddressBytes(p.ip);
    RouteMeans(cfg, p.ip);
    var s' := Forwarded(cfg, s, p);
    var a := s'.log[|s.log|];
    if a.Forward? || a.ArpRequest? {
      HopIsLower(cfg, p);
      var k := RouteFor(cfg, p.ip).value;
      assert SentBy(cfg, frames, p, a, k) || AskedBy(cfg, frames, p, a, k) by {
        ResolvedHow(cfg, frames, s, p, a, k);
      }
    }
  }

  lemma HopIsLower(cfg: Config, p: Packet)
    requires Accepted(cfg, p) && Ttl(p.ip) > 1
    ensures OneLower(p.ip, Hop(p.ip))
  {
    HopKeepsAcceptance(cfg, p);
  }

  lemma ResolvedHow(cfg: Config, frames: seq<Frame>, s: State, p: Packet, a: Action, k: int)
    requires forall ip :: ArpLookup(s.arp, ip) == Heard(frames, ip)
    requires Accepted(cfg, p) && Ttl(p.ip) > 1 && RouteFor(cfg, p.ip) == Some(k)
    requires a == Forwarded(cfg, s, p).log[|s.log|]
    ensures SentBy(cfg, frames, p, a, k) || AskedBy(cfg, frames, p, a, k)
  {
    RouteMeans(cfg, p.ip);
    HopIsLower(cfg, p);
    assert Forwarded(cfg, s, p) == Resolved(cfg, s, cfg.rtable[k], p.(ip := Hop(p.ip)));
    assert ArpLookup(s.arp, cfg.rtable[k].nextHop) == Heard(frames, cfg.rtable[k].nextHop);
  }

  lemma TableIsAllHeard(cfg: Config, frames: seq<Frame>)
    ensures forall ip :: ArpLookup(Run(cfg, frames).arp, ip) == Heard(frames, ip)
  {
    forall ip: Addr
      ensures ArpLookup(Run(cfg, frames).arp, ip) == Heard(frames, ip)
    {
      TableIsHeard(cfg, frames, ip);
    }
  }

  /**
    In every run a packet in transit meets, on arrival, the fate its bytes, the routing table
    and the replies heard so far call for.
   */
  lemma TransitFate(cfg: Config, frames: seq<Frame>, f: Frame)
    requires IsTransit(cfg, f)
    ensures var (s, s') := (Run(cfg, frames), Run(cfg, frames + [f]));
            && |s'.log| == |s.log| + 1 && s'.log[..|s.log|] == s.log && s.queue <= s'.queue
            && Fate(cfg, frames, f.p, s'.log[|s.log|], s'.queue[|s.queue|..])
  {
    assert (frames + [f])[..|frames|] == frames;
    FramesSorted(cfg, f);
    TableIsAllHeard(cfg, frames);
    ForwardedHasFate(cfg, frames, Run(cfg, frames), f.p);
  }

  /** And when a reply comes in, the packet that waited longest meets the fate they call for then. */
  lemma RetryFate(cfg: Config, frames: seq<Frame>, f: Frame)
    requires IsReply(f)
    ensures var (s, s') := (Run(cfg, frames), Run(cfg, frames + [f]));
            if s.queue == [] then s'.log == s.log && s'.queue == []
            else
              && |s'.log| == |s.log| + 1 && s'.log[..|s.log|] == s.log && s.queue[1..] <= s'.queue
              && Fate(cfg, frames + [f], s.queue[0], s'.log[|s.log|], s'.queue[|s.queue| - 1..])
  {
    var s := Run(cfg, frames);
    assert (frames + [f])[..|frames|] == frames;
    TableIsAllHeard(cfg, frames + [f]);
    TableGrows(cfg, s, f);
    if s.queue != [] {
      ForwardedHasFate(cfg, frames + [f], Learned(s, f).(queue := s.queue[1..]), s.queue[0]);
    }
  }

  // ---------- Unreachable destinations ----------

  /** Every "unreachable" in the log is about a packet that no route is found for. */
  ghost predicate OnlyUnguided(cfg: Config, log: seq<Action>) {
    forall a :: a in log && a.IcmpError? && a.kind == Unreachable ==> !Guided(cfg.rtable, Word(a.cause.ip, 16))
  }

  /**
    In every run "unreachable" is said only of packets whose destination no route is found
    for, and of every valid one that arrives with TTL to spare.
   */
  lemma {:induction false} UnreachableIff(cfg: Config, frames: seq<Frame>)
    ensures OnlyUnguided(cfg, Run(cfg, frames).log)
    ensures forall f :: f in frames && IsTransit(cfg, f) && IpChecksumOf(f.p.ip) == 0 && f.p.ip[8] > 1 ==>
              (Complaint(Unreachable, f.p) in Run(cfg, frames).log <==> !Guided(cfg.rtable, Word(f.p.ip, 16)))
  {
    if frames != [] {
      var (front, last) := (frames[..|frames| - 1], frames[|frames| - 1]);
      assert frames == front + [last];
      UnreachableIff(cfg, front);
      LogOfOne(cfg, front, last);
      assert forall f :: f in frames ==> f in front || f == last;
    }
  }

  lemma LogOfOne(cfg: Config, front: seq<Frame>, last: Frame)
    requires OnlyUnguided(cfg, Run(cfg, front).log)
    ensures Run(cfg, front).log <= Run(cfg, front + [last]).log
    ensures OnlyUnguided(cfg, Run(cfg, front + [last]).log)
    ensures IsTransit(cfg, last) && IpChecksumOf(last.p.ip) == 0 && last.p.ip[8] > 1 &&
            !Guided(cfg.rtable, Word(last.p.ip, 16)) ==>
              Complaint(Unreachable, last.p) in Run(cfg, front + [last]).log
  {
    var (s, s') := (Run(cfg, front), Run(cfg, front + [last]));
    assert (front + [last])[..|front|] == front;
    if IsTransit(cfg, last) {
      TransitFate(cfg, front, last);
      OneMoreAction(cfg, front, last.p, s.log, s'.log, s'.queue[|s.queue|..]);
    } else if IsReply(last) {
      RetryFate(cfg, front, last);
      if s.queue != [] {
        OneMoreAction(cfg, front + [last], s.queue[0], s.log, s'.log, s'.queue[|s.queue| - 1..]);
      }
    } else {
      OwnFrameAnswered(cfg, s, last);
    }
  }

  lemma OneMoreAction(cfg: Config, frames: seq<Frame>, p: Packet, log: seq<Action>, log': seq<Action>, put: seq<Packet>)
    requires OnlyUnguided(cfg, log) && |log'| == |log| + 1 && log'[..|log|] == log
    requires Fate(cfg, frames, p, log'[|log|], put)
    ensures log <= log' && OnlyUnguided(cfg, log')
  {
    var a := log'[|log|];
    assert log' == log + [a];
    if IpChecksumOf(p.ip) == 0 && p.ip[8] > 1 && Guided(cfg.rtable, Word(p.ip, 16)) {
      var k :| SentBy(cfg, frames, p, a, k) || AskedBy(cfg, frames, p, a, k);
    }
  }

  /** On a sorted table of one mask and close keys, a destination has no route found exactly if no entry matches. */
  lemma UnguidedIffNoMatch(rtable: seq<Route>, dest: Addr)
    requires OneMask(rtable) && KeysClose(rtable) && SortedByCompar(rtable)
    ensures Guided(rtable, dest) <==> exists i :: 0 <= i < |rtable| && Matches(rtable[i], dest)
  {
    SearchAgreesWithScan(rtable, dest);
    SearchFindsIff(rtable, dest);
  }
}
