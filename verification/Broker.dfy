/**
  The store-and-forward broker: five maps updated by connections, requests, disconnections
  and published datagrams. State values and the functions the handlers are proved against.

  A record's socket is written only when a client is first added, so what the broker
  sends to a client always goes to that client's first descriptor. The model keeps it so:
  every send is logged with its descriptor, the client it was meant for, and the client
  whose connection that descriptor is at that moment.
 */
module BrokerSpec {
  import opened Options

  type Id = string
  type Topic = string

  datatype Client = Client(id: Id, socket: int)
  datatype Subscription = Subscription(client: Client, sf: char)

  /** A datagram as it is sent on: its topic, the rest of it, and the station it came from. */
  datatype Message = Message(topic: Topic, body: string, from: string)

  datatype Sent = Sent(fd: int, to: Id, heardBy: Option<Id>, msg: Message)

  const SUBSCRIBE := '0'
  const UNSUBSCRIBE := '1'
  const SF_OFF := '0'
  const SF_ON := '1'

  datatype State = State(
    active: map<int, Client>,
    all: map<Id, Client>,
    sockets: map<Id, int>,
    topics: map<Topic, seq<Subscription>>,
    backlog: map<Id, seq<Message>>,
    readFds: set<int>,
    wire: seq<Sent>)

  const START := State(map[], map[], map[], map[], map[], {}, [])

  /** What reaches the server: a new connection giving an ID, a request or the closing of a connection, a datagram. */
  datatype Event =
    | Connect(id: Id, fd: int)
    | Request(fd: int, topic: Topic, sf: char, kind: char)
    | Close(fd: int)
    | Publish(msg: Message)

  /** `unordered_map::insert`: an existing entry stays. */
  function Insert<K, V>(m: map<K, V>, k: K, v: V): map<K, V> {
    if k in m then m else m[k := v]
  }

  function Send(s: State, fd: int, to: Id, msg: Message): State {
    s.(wire := s.wire + [Sent(fd, to, if fd in s.active then Some(s.active[fd].id) else None, msg)])
  }

  function SendAll(s: State, fd: int, to: Id, msgs: seq<Message>): State {
    if msgs == [] then s
    else Send(SendAll(s, fd, to, msgs[..|msgs| - 1]), fd, to, msgs[|msgs| - 1])
  }

  function Reconnected(s: State, id: Id, fd: int): State
    requires id in s.all
  {
    var client := s.all[id];
    var s1 := s.(active := Insert(s.active, fd, client), sockets := Insert(s.sockets, client.id, fd),
                 all := Insert(s.all - {id}, id, client));
    if client.id !in s1.backlog then s1
    else
      var s2 := SendAll(s1, client.socket, client.id, s1.backlog[client.id]);
      s2.(backlog := s2.backlog - {client.id})
  }

  function Added(s: State, id: Id, fd: int): State {
    var client := Client(id, fd);
    s.(all := Insert(s.all, id, client), active := Insert(s.active, fd, client), sockets := Insert(s.sockets, id, fd))
  }

  function Connected(s: State, id: Id, fd: int): State {
    if id in s.sockets then s
    else
      var s1 := s.(readFds := s.readFds + {fd});
      if id in s1.all then Reconnected(s1, id, fd) else Added(s1, id, fd)
  }

  /** `send_to_subscribers`. */
  function Delivered(s: State, sub: Subscription, msg: Message): State {
    var id := sub.client.id;
    if id !in s.sockets && sub.sf == SF_OFF then s
    else if id in s.sockets then Send(s, sub.client.socket, id, msg)
    else if sub.sf == SF_ON then
      s.(backlog := s.backlog[id := (if id in s.backlog then s.backlog[id] else []) + [msg]])
    else s
  }

  function DeliveredAll(s: State, subs: seq<Subscription>, msg: Message): State {
    if subs == [] then s
    else Delivered(DeliveredAll(s, subs[..|subs| - 1], msg), subs[|subs| - 1], msg)
  }

  function Published(s: State, msg: Message): State {
    if msg.topic !in s.topics then s.(topics := s.topics[msg.topic := []])
    else DeliveredAll(s, s.topics[msg.topic], msg)
  }

  /** The position of a client's entry in a topic's list, or the list's length. */
  function IndexOf(subs: seq<Subscription>, id: Id): (i: nat)
    ensures i <= |subs|
    ensures i < |subs| ==> subs[i].client.id == id
    ensures forall j :: 0 <= j < i ==> subs[j].client.id != id
  {
    if subs == [] || subs[0].client.id == id then 0 else 1 + IndexOf(subs[1..], id)
  }

  function Resubscribed(subs: seq<Subscription>, client: Client, sf: char, kind: char): seq<Subscription> {
    var i := IndexOf(subs, client.id);
    if kind == SUBSCRIBE then
      if i < |subs| then subs[i := subs[i].(sf := sf)] else subs + [Subscription(client, sf)]
    else if kind == UNSUBSCRIBE && i < |subs| then subs[..i] + subs[i + 1..]
    else subs
  }

  function Requested(s: State, fd: int, topic: Topic, sf: char, kind: char): State
    requires fd in s.active
  {
    if topic !in s.topics then s
    else s.(topics := s.topics[topic := Resubscribed(s.topics[topic], s.active[fd], sf, kind)])
  }

  function Closed(s: State, fd: int): State
    requires fd in s.active
  {
    s.(readFds := s.readFds - {fd}, sockets := s.sockets - {s.active[fd].id}, active := s.active - {fd})
  }

  /** `accept` returns an unused descriptor; other events come from watched descriptors, all of them known. */
  predicate Legal(s: State, e: Event) {
    match e
    case Connect(_, fd) => fd !in s.active
    case Request(fd, _, _, _) => fd in s.readFds && fd in s.active
    case Close(fd) => fd in s.readFds && fd in s.active
    case Publish(_) => true
  }

  function Step(s: State, e: Event): State
    requires Legal(s, e)
  {
    match e
    case Connect(id, fd) => Connected(s, id, fd)
    case Request(fd, topic, sf, kind) => Requested(s, fd, topic, sf, kind)
    case Close(fd) => Closed(s, fd)
    case Publish(msg) => Published(s, msg)
  }
}

/** The broker's handlers, updating the five maps in place. */
module Broker {
  import opened Options
  import opened BrokerSpec

  class Broker {
    var activeClients: map<int, Client>
    var allClients: map<Id, Client>
    var activeIdsSockets: map<Id, int>
    var topicsSubs: map<Topic, seq<Subscription>>
    var storeAndForward: map<Id, seq<Message>>
    var readFds: set<int>
    var wire: seq<Sent>

    ghost function Value(): State
      reads this
    {
      State(activeClients, allClients, activeIdsSockets, topicsSubs, storeAndForward, readFds, wire)
    }

    constructor ()
      ensures Value() == START
    {
      activeClients, allClients, activeIdsSockets, topicsSubs, storeAndForward := map[], map[], map[], map[], map[];
      readFds, wire := {}, [];
    }

    method SendOn(fd: int, to: Id, msg: Message)
      modifies this`wire
      ensures Value() == Send(old(Value()), fd, to, msg)
    {
      wire := wire + [Sent(fd, to, if fd in activeClients then Some(activeClients[fd].id) else None, msg)];
    }

    method Reconnect(newClientId: Id, newSockFd: int)
      requires newClientId in allClients
      modifies this
      ensures Value() == Reconnected(old(Value()), newClientId, newSockFd)
    {
      var client := allClients[newClientId];
      activeClients := Insert(activeClients, newSockFd, client);
      activeIdsSockets := Insert(activeIdsSockets, client.id, newSockFd);
      allClients := allClients - {newClientId};
      allClients := Insert(allClients, newClientId, client);
      if client.id in storeAndForward {
        var waiting := storeAndForward[client.id];
        ghost var s1 := Value();
        for i := 0 to |waiting|
          invariant Value() == SendAll(s1, client.socket, client.id, waiting[..i])
        {
          assert waiting[..i + 1][..i] == waiting[..i];
          SendOn(client.socket, client.id, waiting[i]);
        }
        assert waiting[..|waiting|] == waiting;
        storeAndForward := storeAndForward - {client.id};
      }
    }

    method AddNewClient(newSockFd: int, newClientId: Id)
      modifies this
      ensures Value() == Added(old(Value()), newClientId, newSockFd)
    {
      var client := Client(newClientId, newSockFd);
      allClients := Insert(allClients, newClientId, client);
      activeClients := Insert(activeClients, newSockFd, client);
      activeIdsSockets := Insert(activeIdsSockets, newClientId, newSockFd);
    }

    method HandleConnectionRequest(newSockFd: int, newClientId: Id)
      requires Legal(Value(), Connect(newClientId, newSockFd))
      modifies this
      ensures Value() == Step(old(Value()), Connect(newClientId, newSockFd))
    {
      if newClientId in activeIdsSockets {
        return;
      }
      readFds := readFds + {newSockFd};
      if newClientId in allClients {
        Reconnect(newClientId, newSockFd);
        return;
      }
      AddNewClient(newSockFd, newClientId);
    }

    method SendToSubscribers(s: Subscription, message: Message)
      modifies this
      ensures Value() == Delivered(old(Value()), s, message)
    {
      var client := s.client;
      if client.id !in activeIdsSockets && s.sf == SF_OFF {
        return;
      }
      if client.id in activeIdsSockets {
        SendOn(client.socket, client.id, message);
        return;
      }
      if s.sf == SF_ON {
        if client.id !in storeAndForward {
          assert [] + [message] == [message];
          storeAndForward := storeAndForward[client.id := [message]];
          return;
        }
        storeAndForward := storeAndForward[client.id := storeAndForward[client.id] + [message]];
      }
    }

    method HandleUdpMessage(message: Message)
      modifies this
      ensures Value() == Step(old(Value()), Publish(message))
    {
      if message.topic !in topicsSubs {
        topicsSubs := topicsSubs[message.topic := []];
        return;
      }
      var subs := topicsSubs[message.topic];
      for i := 0 to |subs|
        invariant Value() == DeliveredAll(old(Value()), subs[..i], message)
      {
        assert subs[..i + 1][..i] == subs[..i];
        SendToSubscribers(subs[i], message);
      }
      assert subs[..|subs|] == subs;
    }

    /** A readable connection: closed by the peer, or carrying a request. */
    method HandleTcpMessage(i: int, closed: bool, topic: Topic, sf: char, reqType: char)
      requires Legal(Value(), if closed then Close(i) else Request(i, topic, sf, reqType))
      modifies this
      ensures Value() == Step(old(Value()), if closed then Close(i) else Request(i, topic, sf, reqType))
    {
      if closed {
        readFds := readFds - {i};
        activeIdsSockets := activeIdsSockets - {activeClients[i].id};
        activeClients := activeClients - {i};
        return;
      }
      if topic !in topicsSubs {
        return;
      }
      var subs := topicsSubs[topic];
      var clientId := activeClients[i].id;
      if reqType == SUBSCRIBE {
        for k := 0 to |subs|
          invariant IndexOf(subs, clientId) >= k
        {
          if subs[k].client.id == clientId {
            topicsSubs := topicsSubs[topic := subs[k := subs[k].(sf := sf)]];
            return;
          }
        }
        topicsSubs := topicsSubs[topic := subs + [Subscription(activeClients[i], sf)]];
        return;
      }
      if reqType == UNSUBSCRIBE {
        for k := 0 to |subs|
          invariant IndexOf(subs, clientId) >= k
        {
          if subs[k].client.id == clientId {
            topicsSubs := topicsSubs[topic := subs[..k] + subs[k + 1..]];
            return;
          }
        }
      }
    }

    /** One event of the server loop. */
    method HandleEvent(e: Event)
      requires Legal(Value(), e)
      modifies this
      ensures Value() == Step(old(Value()), e)
    {
      match e
      case Connect(id, fd) => HandleConnectionRequest(fd, id);
      case Request(fd, topic, sf, kind) => HandleTcpMessage(fd, false, topic, sf, kind);
      case Close(fd) => HandleTcpMessage(fd, true, "", SF_OFF, SUBSCRIBE);
      case Publish(msg) => HandleUdpMessage(msg);
    }
  }
}
