/**
  The homework router: forwarding of IP packets with ARP resolution, as a state machine
  over the ARP table, the queue of packets waiting for a reply, and what was sent.
 */
module RouterSpec {
  import opened Checksum
  import opened Options
  import opened Routes
  import opened BinaryLookup

  type Mac = int

  type Header = h: seq<int> | |h| == 20 && forall i :: 0 <= i < |h| ==> 0 <= h[i] < 0x100
    witness seq(20, _ => 0)

  /** A received frame's Ethernet addresses, 20-byte IP header, and arrival interface. */
  datatype Packet = Packet(dhost: Mac, shost: Mac, ip: Header, iface: int)

  function Ttl(h: Header): int { h[8] }

  function Source(h: Header): Addr { Load32(h[12..16]) }

  function Dest(h: Header): Addr { Load32(h[16..20]) }

  datatype ArpEntry = ArpEntry(ip: Addr, mac: Mac)

  datatype IcmpKind = TimeExceeded | Unreachable

  /**
    What the router emits; a bad checksum only prints a message. The packet in a bad-checksum
    or error action is the one it is about; it is not part of what is sent.
   */
  datatype Action =
    | WrongChecksum(cause: Packet)
    | IcmpError(kind: IcmpKind, to: Addr, from: Addr, sha: Mac, dha: Mac, iface: int, cause: Packet)
    | EchoReply(to: Addr, from: Addr, sha: Mac, dha: Mac, iface: int, id: int, sequence: int)
    | ArpRequest(target: Addr, sender: Addr, sha: Mac, iface: int)
    | ArpReply(target: Addr, sender: Addr, sha: Mac, dha: Mac, iface: int)
    | Forward(iface: int, p: Packet)

  /** What arrives. The ICMP fields of an IP frame mean something only when its protocol byte is 1. */
  datatype Frame =
    | Ip(p: Packet, icmpType: int, id: int, sequence: int)
    | Arp(op: int, spa: Addr, tpa: Addr, sha: Mac, shost: Mac, iface: int)
    | Other

  const ICMP_ECHO := 8
  const ARPOP_REQUEST := 1

  /** The routing table and the addresses of the router's own interfaces. */
  datatype Config = Config(rtable: seq<Route>, ifIp: int -> Addr, ifMac: int -> Mac)

  datatype State = State(arp: seq<ArpEntry>, queue: seq<Packet>, log: seq<Action>)

  const START := State([], [], [])

  function ArpLookup(arp: seq<ArpEntry>, ip: Addr): (r: Option<Mac>)
    ensures r.Some? ==> ArpEntry(ip, r.value) in arp
    ensures r.None? ==> forall e :: e in arp ==> e.ip != ip
  {
    if arp == [] then None
    else if arp[0].ip == ip then Some(arp[0].mac)
    else ArpLookup(arp[1..], ip)
  }

  /** TTL less one, checksum field recomputed. */
  function Hop(h: Header): (r: Header)
    requires Ttl(h) > 0
    ensures Ttl(r) == Ttl(h) - 1 && Source(r) == Source(h) && Dest(r) == Dest(h)
    ensures forall i :: 0 <= i < 20 && i != 8 && i != 10 && i != 11 ==> r[i] == h[i]
  {
    var r := Filled(h[8 := h[8] - 1], 10);
    assert r[12..16] == h[12..16] && r[16..20] == h[16..20];
    r
  }

  function RouteFor(cfg: Config, h: Header): Option<nat> {
    GetBestRoute(cfg.rtable, Dest(h), 0, |cfg.rtable| - 1)
  }

  function ErrorFor(p: Packet, kind: IcmpKind): Action {
    IcmpError(kind, Source(p.ip), Dest(p.ip), p.dhost, p.shost, p.iface, p)
  }

  /** `forward_packet`. */
  function Forwarded(cfg: Config, s: State, p: Packet): State {
    if IpChecksumOf(p.ip) != 0 then s.(log := s.log + [WrongChecksum(p)])
    else if Ttl(p.ip) <= 1 then s.(log := s.log + [ErrorFor(p, TimeExceeded)])
    else
      match RouteFor(cfg, p.ip)
      case None => s.(log := s.log + [ErrorFor(p, Unreachable)])
      case Some(r) => Resolved(cfg, s, cfg.rtable[r], p.(ip := Hop(p.ip)))
  }

  /** The last part: send it to the next hop's hardware address, or queue it and ask for that address. */
  function Resolved(cfg: Config, s: State, route: Route, p: Packet): State {
    match ArpLookup(s.arp, route.nextHop)
    case None =>
      s.(queue := s.queue + [p],
         log := s.log + [ArpRequest(route.nextHop, cfg.ifIp(route.iface), cfg.ifMac(route.iface), route.iface)])
    case Some(mac) =>
      s.(log := s.log + [Forward(route.iface, p.(dhost := mac, shost := cfg.ifMac(route.iface)))])
  }

  /** An ICMP packet addressed to the interface it arrived on is the router's own. */
  predicate ForRouter(cfg: Config, p: Packet) {
    p.ip[9] == 1 && Dest(p.ip) == cfg.ifIp(p.iface)
  }

  predicate IsArpReply(f: Frame) {
    f.Arp? && f.op != ARPOP_REQUEST
  }

  function Learned(s: State, f: Frame): State
    requires f.Arp?
  {
    s.(arp := s.arp + [ArpEntry(f.spa, f.sha)])
  }

  /** A reply is learned, then the oldest waiting packet, if any, is tried again. */
  function Replied(cfg: Config, s: State, f: Frame): State
    requires IsArpReply(f)
  {
    if s.queue == [] then Learned(s, f)
    else Forwarded(cfg, Learned(s, f).(queue := s.queue[1..]), s.queue[0])
  }

  /** One iteration of the main loop. */
  function Handle(cfg: Config, s: State, f: Frame): State {
    match f
    case Ip(p, icmpType, id, sequence) =>
      if !ForRouter(cfg, p) then Forwarded(cfg, s, p)
      else if icmpType == ICMP_ECHO then
        s.(log := s.log + [EchoReply(Source(p.ip), Dest(p.ip), p.dhost, p.shost, p.iface, id, sequence)])
      else s
    case Arp(op, spa, tpa, sha, shost, iface) =>
      if op != ARPOP_REQUEST then Replied(cfg, s, f)
      else if tpa == cfg.ifIp(iface) then
        s.(log := s.log + [ArpReply(spa, tpa, cfg.ifMac(iface), shost, iface)])
      else s
    case Other => s
  }

  function Run(cfg: Config, frames: seq<Frame>): State {
    if frames == [] then START
    else Handle(cfg, Run(cfg, frames[..|frames| - 1]), frames[|frames| - 1])
  }
}

/** The router as the source writes it: a class updating its ARP table, its linked queue and what it sent. */
module Router {
  import opened Checksum
  import opened Options
  import opened Routes
  import opened BinaryLookup
  import opened RouterSpec
  import CellQueue

  class Router {
    const cfg: Config
    var arpTable: seq<ArpEntry>
    var packets: CellQueue.Queue<Packet>
    var log: seq<Action>

    ghost predicate Valid()
      reads this, packets, packets.cells
    {
      packets.Valid()
    }

    ghost function Value(): State
      reads this, packets
    {
      State(arpTable, packets.Contents(), log)
    }

    constructor (cfg: Config)
      ensures Valid() && fresh(packets) && packets.cells == [] && this.cfg == cfg && Value() == START
    {
      this.cfg := cfg;
      arpTable, log := [], [];
      packets := new CellQueue.Queue();
    }

    /** `get_arp_entry`. */
    method GetArpEntry(ip: Addr) returns (r: Option<Mac>)
      ensures r == ArpLookup(arpTable, ip)
    {
      for i := 0 to |arpTable|
        invariant ArpLookup(arpTable, ip) == ArpLookup(arpTable[i..], ip)
      {
        if ip == arpTable[i].ip {
          return Some(arpTable[i].mac);
        }
      }
      return None;
    }

    /** Updates the TTL and recalculates the checksum, in the header's own bytes. */
    static method UpdateTtl(h: Header) returns (ip: Header)
      requires Ttl(h) > 0
      ensures ip == Hop(h)
    {
      var bytes: Bytes := h[8 := h[8] - 1];
      bytes := Store16(bytes, 10, 0);
      var check := IpChecksum(bytes, 0);
      ip := Store16(bytes, 10, check);
    }

    method ForwardPacket(m: Packet)
      requires Valid()
      modifies this, packets, packets.cells
      ensures Valid() && packets == old(packets)
      ensures Value() == Forwarded(cfg, old(Value()), m)
      ensures packets.cells == old(packets.cells) ||
              (packets.tail != null && fresh(packets.tail) && packets.cells == old(packets.cells) + [packets.tail])
    {
      var ip := m.ip;
      var check := IpChecksum(ip, 0);
      if check != 0 {
        log := log + [WrongChecksum(m)];
        return;
      }
      if ip[8] <= 1 {
        log := log + [ErrorFor(m, TimeExceeded)];
        return;
      }
      var best := RouteFor(cfg, ip);
      if best == None {
        log := log + [ErrorFor(m, Unreachable)];
        return;
      }
      ip := UpdateTtl(ip);
      Resolve(cfg.rtable[best.value], m.(ip := ip));
    }

    method Resolve(route: Route, m: Packet)
      requires Valid()
      modifies this, packets, packets.cells
      ensures Valid() && packets == old(packets)
      ensures Value() == Resolved(cfg, old(Value()), route, m)
      ensures packets.cells == old(packets.cells) ||
              (packets.tail != null && fresh(packets.tail) && packets.cells == old(packets.cells) + [packets.tail])
    {
      var entry := GetArpEntry(route.nextHop);
      if entry == None {
        packets.Enqueue(m);
        log := log + [ArpRequest(route.nextHop, cfg.ifIp(route.iface), cfg.ifMac(route.iface), route.iface)];
        return;
      }
      log := log + [Forward(route.iface, m.(dhost := entry.value, shost := cfg.ifMac(route.iface)))];
    }

    /** One iteration of the main loop on a frame that arrived. */
    method HandleFrame(f: Frame)
      requires Valid()
      modifies this, packets, packets.cells
      ensures Valid() && packets == old(packets)
      ensures Value() == Handle(cfg, old(Value()), f)
      ensures forall i :: 0 <= i < |packets.cells| ==> packets.cells[i] in old(packets.cells) || fresh(packets.cells[i])
    {
      match f
      case Ip(p, icmpType, id, sequence) =>
        if p.ip[9] == 1 && Dest(p.ip) == cfg.ifIp(p.iface) {
          if icmpType == ICMP_ECHO {
            log := log + [EchoReply(Source(p.ip), Dest(p.ip), p.dhost, p.shost, p.iface, id, sequence)];
          }
          return;
        }
        ForwardPacket(p);
      case Arp(op, spa, tpa, sha, shost, iface) =>
        if op == ARPOP_REQUEST {
          if tpa == cfg.ifIp(iface) {
            log := log + [ArpReply(spa, tpa, cfg.ifMac(iface), shost, iface)];
          }
        } else {
          arpTable := arpTable + [ArpEntry(spa, sha)];
          var empty := packets.IsEmpty();
          if !empty {
            var toSend := packets.Dequeue();
            assert packets.Contents() == old(packets.Contents())[1..];
            ForwardPacket(toSend);
          }
        }
      case Other =>
    }
  }

  /** The main loop over the frames that arrive: the class is where `Run` says it is. */
  method Serve(cfg: Config, frames: seq<Frame>) returns (router: Router)
    ensures router.Valid() && router.cfg == cfg && router.Value() == Run(cfg, frames)
  {
    router := new Router(cfg);
    for i := 0 to |frames|
      invariant router.Valid() && router.cfg == cfg && fresh(router) && fresh(router.packets)
      invariant forall j :: 0 <= j < |router.packets.cells| ==> fresh(router.packets.cells[j])
      invariant router.Value() == Run(cfg, frames[..i])
    {
      assert frames[..i + 1][..i] == frames[..i];
      router.HandleFrame(frames[i]);
    }
    assert frames[..|frames|] == frames;
  }
}
