/**
  What each client is promised, read off the history of events alone: no maps, no lists
  of subscriptions, one client at a time.
 */
module BrokerPromise {
  import opened Options
  import opened BrokerSpec

  /** The descriptor of the client's connection, if it is online. */
  function Live(h: seq<Event>, c: Id): Option<int> {
    if h == [] then None
    else
      var before := Live(h[..|h| - 1], c);
      match h[|h| - 1]
      case Connect(id, fd) => if id == c && before == None then Some(fd) else before
      case Close(fd) => if before == Some(fd) then None else before
      case _ => before
  }

  /** A topic exists once something was published on it. */
  predicate Known(h: seq<Event>, t: Topic) {
    exists i :: 0 <= i < |h| && h[i].Publish? && h[i].msg.topic == t
  }

  /** The store-and-forward flag of the client's subscription to the topic, if it holds one. */
  function Subscribed(h: seq<Event>, c: Id, t: Topic): Option<char> {
    if h == [] then None
    else
      var front := h[..|h| - 1];
      match h[|h| - 1]
      case Request(fd, topic, sf, kind) =>
        if topic == t && Known(front, t) && Live(front, c) == Some(fd) && kind == '0' then Some(sf)
        else if topic == t && Known(front, t) && Live(front, c) == Some(fd) && kind == '1' then None
        else Subscribed(front, c, t)
      case _ => Subscribed(front, c, t)
  }

  /** The messages owed to the client: those published while it was subscribed and online or had SF on. */
  function Owed(h: seq<Event>, c: Id): seq<Message> {
    if h == [] then []
    else
      var front := h[..|h| - 1];
      match h[|h| - 1]
      case Publish(msg) =>
        var sf := Subscribed(front, c, msg.topic);
        Owed(front, c) + if sf.Some? && (Live(front, c).Some? || sf.value == '1') then [msg] else []
      case _ => Owed(front, c)
  }

  /** The descriptor of the client's first connection, the one its record keeps. */
  function FirstFd(h: seq<Event>, c: Id): Option<int> {
    if h == [] then None
    else
      var before := FirstFd(h[..|h| - 1], c);
      match h[|h| - 1]
      case Connect(id, fd) => if id == c && before == None then Some(fd) else before
      case _ => before
  }
}

/** The broker keeps its promise in every run. */
module BrokerRuns {
  import opened Options
  import opened BrokerSpec
  import opened BrokerPromise
  import Broker

  // ---------- Runs ----------

  ghost predicate LegalRun(h: seq<Event>)
    decreases |h|, 0
  {
    h != [] ==> LegalRun(h[..|h| - 1]) && Legal(Run(h[..|h| - 1]), h[|h| - 1])
  }

  ghost function Run(h: seq<Event>): State
    requires LegalRun(h)
    decreases |h|, 1
  {
    if h == [] then START else Step(Run(h[..|h| - 1]), h[|h| - 1])
  }

  // ---------- Consistency of the maps ----------

  ghost predicate OneEntryEach(subs: seq<Subscription>) {
    forall i, j :: 0 <= i < j < |subs| ==> subs[i].client.id != subs[j].client.id
  }

  ghost predicate RecordsAgree(all: map<Id, Client>, subs: seq<Subscription>) {
    forall s :: s in subs ==> s.client.id in all && s.client == all[s.client.id]
  }

  /** The two connection maps are inverse, and descriptors are watched exactly while they are connections. */
  ghost predicate ConnectionsOk(s: State) {
    && s.readFds == s.active.Keys
    && (forall fd :: fd in s.active ==> s.active[fd].id in s.sockets && s.sockets[s.active[fd].id] == fd)
    && (forall id :: id in s.sockets ==> s.sockets[id] in s.active && s.active[s.sockets[id]].id == id)
  }

  /** All copies of a client's record are the one it got when first added. */
  ghost predicate RecordsOk(s: State) {
    && (forall id :: id in s.all ==> s.all[id].id == id)
    && (forall fd :: fd in s.active ==> s.active[fd].id in s.all && s.active[fd] == s.all[s.active[fd].id])
    && (forall t :: t in s.topics ==> OneEntryEach(s.topics[t]) && RecordsAgree(s.all, s.topics[t]))
  }

  /** A backlog belongs to a known client that is offline, and is not empty. */
  ghost predicate BacklogOk(s: State) {
    forall id :: id in s.backlog ==> id in s.all && id !in s.sockets && s.backlog[id] != []
  }

  ghost predicate Consistent(s: State) {
    ConnectionsOk(s) && RecordsOk(s) && BacklogOk(s)
  }

  // ---------- What one client sees of the state ----------

  /** The messages sent for a client, in order. */
  function SentTo(wire: seq<Sent>, c: Id): seq<Message> {
    if wire == [] then []
    else SentTo(wire[..|wire| - 1], c) + if wire[|wire| - 1].to == c then [wire[|wire| - 1].msg] else []
  }

  function Waiting(s: State, c: Id): seq<Message> {
    if c in s.backlog then s.backlog[c] else []
  }

  function SfOf(subs: seq<Subscription>, c: Id): Option<char> {
    var i := IndexOf(subs, c);
    if i < |subs| then Some(subs[i].sf) else None
  }

  lemma SendSentTo(s: State, fd: int, to: Id, msg: Message, c: Id)
    ensures SentTo(Send(s, fd, to, msg).wire, c) == SentTo(s.wire, c) + if to == c then [msg] else []
  {
  }

  lemma {:induction false} SendAllSentTo(s: State, fd: int, to: Id, msgs: seq<Message>, c: Id)
    ensures var r := SendAll(s, fd, to, msgs);
            && r == s.(wire := r.wire)
            && SentTo(r.wire, c) == SentTo(s.wire, c) + if to == c then msgs else []
  {
    if msgs != [] {
      var front := msgs[..|msgs| - 1];
      SendAllSentTo(s, fd, to, front, c);
      SendSentTo(SendAll(s, fd, to, front), fd, to, msgs[|msgs| - 1], c);
      assert msgs == front + [msgs[|msgs| - 1]];
    }
  }

  lemma IndexOfUnique(subs: seq<Subscription>, c: Id, i: nat)
    requires OneEntryEach(subs) && i < |subs| && subs[i].client.id == c
    ensures IndexOf(subs, c) == i
  {
  }

  /** What one delivery adds for client `c`. */
  lemma DeliveredTo(s: State, sub: Subscription, msg: Message, c: Id)
    ensures var r := Delivered(s, sub, msg);
            var mine := sub.client.id == c;
            && r == s.(wire := r.wire, backlog := r.backlog)
            && SentTo(r.wire, c) == SentTo(s.wire, c) + (if mine && c in s.sockets then [msg] else [])
            && Waiting(r, c) == Waiting(s, c) + (if mine && sub.sf == SF_ON && c !in s.sockets then [msg] else [])
            && (c in r.backlog <==> c in s.backlog || (mine && sub.sf == SF_ON && c !in s.sockets))
  {
    SendSentTo(s, sub.client.socket, sub.client.id, msg, c);
  }

  /** Publishing touches the log and the backlog only; each client gets at most one copy. */
  lemma {:induction false} DeliveredAllTo(s: State, subs: seq<Subscription>, msg: Message, c: Id)
    requires OneEntryEach(subs)
    ensures var r := DeliveredAll(s, subs, msg);
            var sf := SfOf(subs, c);
            && r == s.(wire := r.wire, backlog := r.backlog)
            && SentTo(r.wire, c) == SentTo(s.wire, c) + (if sf.Some? && c in s.sockets then [msg] else [])
            && Waiting(r, c) == Waiting(s, c) + (if sf == Some(SF_ON) && c !in s.sockets then [msg] else [])
            && (c in r.backlog <==> c in s.backlog || (sf == Some(SF_ON) && c !in s.sockets))
  {
    if subs != [] {
      var n := |subs| - 1;
      DeliveredAllTo(s, subs[..n], msg, c);
      DeliveredTo(DeliveredAll(s, subs[..n], msg), subs[n], msg, c);
      LastEntry(subs, c);
    }
  }

  lemma LastEntry(subs: seq<Subscription>, c: Id)
    requires OneEntryEach(subs) && subs != []
    ensures var last := subs[|subs| - 1];
            && (last.client.id == c ==> SfOf(subs, c) == Some(last.sf) && SfOf(subs[..|subs| - 1], c) == None)
            && (last.client.id != c ==> SfOf(subs, c) == SfOf(subs[..|subs| - 1], c))
  {
    if subs[|subs| - 1].client.id == c {
      IndexOfUnique(subs, c, |subs| - 1);
    } else {
      IndexOfFront(subs, c);
    }
  }

  lemma IndexOfFront(subs: seq<Subscription>, c: Id)
    requires subs != [] && subs[|subs| - 1].client.id != c
    ensures SfOf(subs, c) == SfOf(subs[..|subs| - 1], c)
  {
  }

  // ---------- Consistency is preserved ----------

  lemma ResubscribedOk(all: map<Id, Client>, subs: seq<Subscription>, client: Client, sf: char, kind: char)
    requires OneEntryEach(subs) && RecordsAgree(all, subs) && client.id in all && client == all[client.id]
    ensures var r := Resubscribed(subs, client, sf, kind); OneEntryEach(r) && RecordsAgree(all, r)
  {
  }

  /** What a request does to every client's subscription. */
  lemma ResubscribedSf(subs: seq<Subscription>, client: Client, sf: char, kind: char, c: Id)
    requires OneEntryEach(subs)
    ensures SfOf(Resubscribed(subs, client, sf, kind), c) ==
            if c != client.id then SfOf(subs, c)
            else if kind == SUBSCRIBE then Some(sf)
            else if kind == UNSUBSCRIBE then None
            else SfOf(subs, c)
  {
    var r := Resubscribed(subs, client, sf, kind);
    var i, k := IndexOf(subs, client.id), IndexOf(subs, c);
    if c == client.id {
      if kind == SUBSCRIBE || kind == UNSUBSCRIBE {
        ResubscribedOwn(subs, client, sf, kind);
      }
    } else if k < |subs| {
      var k' := if kind == UNSUBSCRIBE && i < |subs| && i < k then k - 1 else k;
      assert r[k'].client.id == c && r[k'].sf == subs[k].sf;
      assert forall j :: 0 <= j < k' ==> r[j].client.id != c;
      FirstIndex(r, c, k');
    } else {
      assert forall j :: 0 <= j < |r| ==> r[j].client.id != c;
    }
  }

  lemma ResubscribedOwn(subs: seq<Subscription>, client: Client, sf: char, kind: char)
    requires OneEntryEach(subs) && (kind == SUBSCRIBE || kind == UNSUBSCRIBE)
    ensures SfOf(Resubscribed(subs, client, sf, kind), client.id) == if kind == SUBSCRIBE then Some(sf) else None
  {
    var r := Resubscribed(subs, client, sf, kind);
    var i := IndexOf(subs, client.id);
    if kind == SUBSCRIBE {
      assert r[i].client.id == client.id && r[i].sf == sf;
      FirstIndex(r, client.id, i);
    } else {
      assert forall j :: 0 <= j < |r| ==> r[j].client.id != client.id;
    }
  }

  lemma FirstIndex(subs: seq<Subscription>, c: Id, i: nat)
    requires i < |subs| && subs[i].client.id == c && forall j :: 0 <= j < i ==> subs[j].client.id != c
    ensures IndexOf(subs, c) == i
  {
  }

  lemma StepConsistent(s: State, e: Event)
    requires Consistent(s) && Legal(s, e)
    ensures Consistent(Step(s, e))
  {
    match e
    case Connect(id, fd) => ConnectConsistent(s, id, fd);
    case Request(fd, topic, sf, kind) =>
      if topic in s.topics {
        ResubscribedOk(s.all, s.topics[topic], s.active[fd], sf, kind);
      }
    case Close(fd) =>
    case Publish(msg) =>
      if msg.topic in s.topics {
        PublishConsistent(s, s.topics[msg.topic], msg);
      }
  }

  /** A returning client: its backlog is sent on the descriptor in its record, and dropped. */
  lemma ReconnectedShape(s: State, id: Id, fd: int, c: Id)
    requires Consistent(s) && fd !in s.active && id !in s.sockets && id in s.all
    ensures var r := Connected(s, id, fd);
            && r == s.(readFds := s.readFds + {fd}, active := s.active[fd := s.all[id]], sockets := s.sockets[id := fd],
                       backlog := s.backlog - {id}, wire := r.wire)
            && SentTo(r.wire, c) == SentTo(s.wire, c) + (if id == c then Waiting(s, id) else [])
  {
    var s1 := s.(readFds := s.readFds + {fd}, active := s.active[fd := s.all[id]], sockets := s.sockets[id := fd]);
    assert Insert(s.all - {id}, id, s.all[id]) == s.all;
    SendAllSentTo(s1, s.all[id].socket, id, Waiting(s1, id), c);
    assert id !in s.backlog ==> s.backlog - {id} == s.backlog;
  }

  /** A client that comes online, new or returning. */
  ghost predicate Joined(s: State, r: State, client: Client, fd: int) {
    && client.id !in s.sockets && fd !in s.active
    && (client.id in s.all ==> s.all[client.id] == client)
    && r == s.(readFds := s.readFds + {fd}, active := s.active[fd := client], sockets := s.sockets[client.id := fd],
               all := s.all[client.id := client], backlog := s.backlog - {client.id}, wire := r.wire)
  }

  lemma JoinedConnections(s: State, r: State, client: Client, fd: int)
    requires ConnectionsOk(s) && Joined(s, r, client, fd)
    ensures ConnectionsOk(r)
  {
  }

  lemma JoinedRecords(s: State, r: State, client: Client, fd: int)
    requires RecordsOk(s) && Joined(s, r, client, fd)
    ensures RecordsOk(r)
  {
  }

  lemma ConnectConsistent(s: State, id: Id, fd: int)
    requires Consistent(s) && fd !in s.active
    ensures Consistent(Connected(s, id, fd))
  {
    var r := Connected(s, id, fd);
    if id !in s.sockets {
      var client := if id in s.all then s.all[id] else Client(id, fd);
      if id in s.all {
        ReconnectedShape(s, id, fd, id);
        assert s.all[id := client] == s.all;
      } else {
        assert id !in s.backlog && s.backlog - {id} == s.backlog;
      }
      JoinedConnections(s, r, client, fd);
      JoinedRecords(s, r, client, fd);
    }
  }

  lemma PublishConsistent(s: State, subs: seq<Subscription>, msg: Message)
    requires Consistent(s) && OneEntryEach(subs) && RecordsAgree(s.all, subs)
    ensures Consistent(DeliveredAll(s, subs, msg))
  {
    var r := DeliveredAll(s, subs, msg);
    DeliveredAllTo(s, subs, msg, "");
    forall id | id in r.backlog
      ensures id in r.all && id !in r.sockets && r.backlog[id] != []
    {
      DeliveredAllTo(s, subs, msg, id);
      if id !in s.backlog {
        assert subs[IndexOf(subs, id)] in subs;
      }
    }
  }

  /** In every run the maps stay consistent. */
  lemma {:induction false} RunConsistent(h: seq<Event>)
    requires LegalRun(h)
    ensures Consistent(Run(h))
  {
    if h != [] {
      RunConsistent(h[..|h| - 1]);
      StepConsistent(Run(h[..|h| - 1]), h[|h| - 1]);
    }
  }

  // ---------- The refinement ----------

  ghost predicate ConnectionPromised(h: seq<Event>, s: State, c: Id) {
    && Live(h, c) == (if c in s.sockets then Some(s.sockets[c]) else None)
    && FirstFd(h, c) == (if c in s.all then Some(s.all[c].socket) else None)
  }

  ghost predicate TopicPromised(h: seq<Event>, s: State, c: Id, t: Topic) {
    && (t in s.topics <==> Known(h, t))
    && Subscribed(h, c, t) == (if t in s.topics then SfOf(s.topics[t], c) else None)
  }

  ghost predicate MessagesPromised(h: seq<Event>, s: State, c: Id) {
    SentTo(s.wire, c) + Waiting(s, c) == Owed(h, c)
  }

  lemma OnlineIsKnown(s: State, c: Id)
    requires Consistent(s)
    ensures c in s.sockets ==> c in s.all
  {
    if c in s.sockets {
      var fd := s.sockets[c];
      assert fd in s.active && s.active[fd].id == c;
    }
  }

  lemma StepConnection(h: seq<Event>, s: State, e: Event, c: Id)
    requires Consistent(s) && Legal(s, e) && ConnectionPromised(h, s, c)
    ensures ConnectionPromised(h + [e], Step(s, e), c)
  {
    assert (h + [e])[..|h|] == h;
    OnlineIsKnown(s, c);
    match e
    case Connect(id, fd) =>
      if id !in s.sockets && id in s.all {
        ReconnectedShape(s, id, fd, c);
      }
    case Request(fd, topic, sf, kind) =>
    case Close(fd) =>
    case Publish(msg) =>
      if msg.topic in s.topics {
        DeliveredAllTo(s, s.topics[msg.topic], msg, c);
      }
  }

  lemma KnownNext(h: seq<Event>, e: Event, t: Topic)
    ensures Known(h + [e], t) <==> Known(h, t) || (e.Publish? && e.msg.topic == t)
  {
    var g := h + [e];
    assert g[|h|] == e;
    assert forall i :: 0 <= i < |h| ==> g[i] == h[i];
  }

  lemma StepTopic(h: seq<Event>, s: State, e: Event, c: Id, t: Topic)
    requires Consistent(s) && Legal(s, e) && ConnectionPromised(h, s, c) && TopicPromised(h, s, c, t)
    ensures TopicPromised(h + [e], Step(s, e), c, t)
  {
    assert (h + [e])[..|h|] == h;
    KnownNext(h, e, t);
    match e
    case Connect(id, fd) =>
      if id !in s.sockets && id in s.all {
        ReconnectedShape(s, id, fd, c);
      }
    case Request(fd, topic, sf, kind) =>
      if topic == t && t in s.topics {
        ResubscribedSf(s.topics[t], s.active[fd], sf, kind, c);
        assert s.active[fd].id == c <==> Live(h, c) == Some(fd);
      }
    case Close(fd) =>
    case Publish(msg) =>
      if msg.topic in s.topics {
        DeliveredAllTo(s, s.topics[msg.topic], msg, c);
      }
  }

  lemma StepMessages(h: seq<Event>, s: State, e: Event, c: Id)
    requires Consistent(s) && Legal(s, e) && ConnectionPromised(h, s, c) && MessagesPromised(h, s, c)
    requires e.Publish? ==> TopicPromised(h, s, c, e.msg.topic)
    ensures MessagesPromised(h + [e], Step(s, e), c)
  {
    assert (h + [e])[..|h|] == h;
    match e
    case Connect(id, fd) => ConnectMessages(s, id, fd, c);
    case Request(fd, topic, sf, kind) =>
    case Close(fd) =>
    case Publish(msg) => PublishMessages(h, s, msg, c);
  }

  /** Connecting may turn a backlog into sent messages, in the same order; it changes nothing else. */
  lemma ConnectMessages(s: State, id: Id, fd: int, c: Id)
    requires Consistent(s) && fd !in s.active
    ensures var r := Connected(s, id, fd);
            SentTo(r.wire, c) + Waiting(r, c) == SentTo(s.wire, c) + Waiting(s, c)
  {
    if id !in s.sockets && id in s.all {
      ReconnectedShape(s, id, fd, c);
    }
  }

  lemma Extend(sent: seq<Message>, waiting: seq<Message>, x: seq<Message>, y: seq<Message>)
    requires x == [] || (waiting == [] && y == [])
    ensures (sent + x) + (waiting + y) == (sent + waiting) + (x + y)
  {
  }

  lemma PublishMessages(h: seq<Event>, s: State, msg: Message, c: Id)
    requires Consistent(s) && ConnectionPromised(h, s, c) && MessagesPromised(h, s, c)
    requires TopicPromised(h, s, c, msg.topic)
    requires (h + [Publish(msg)])[..|h|] == h
    ensures MessagesPromised(h + [Publish(msg)], Published(s, msg), c)
  {
    if msg.topic in s.topics {
      var sf := SfOf(s.topics[msg.topic], c);
      var x := if sf.Some? && c in s.sockets then [msg] else [];
      var y := if sf == Some(SF_ON) && c !in s.sockets then [msg] else [];
      DeliveredAllTo(s, s.topics[msg.topic], msg, c);
      OnlineNothingWaits(s, c);
      Extend(SentTo(s.wire, c), Waiting(s, c), x, y);
      assert x + y == if sf.Some? && (Live(h, c).Some? || sf.value == SF_ON) then [msg] else [];
    }
  }

  lemma OnlineNothingWaits(s: State, c: Id)
    requires Consistent(s)
    ensures c in s.sockets ==> Waiting(s, c) == []
  {
  }

  /** In every run the maps record each client's connection, first descriptor and subscriptions. */
  lemma {:induction false} RunRecords(h: seq<Event>, c: Id, t: Topic)
    requires LegalRun(h)
    ensures ConnectionPromised(h, Run(h), c) && TopicPromised(h, Run(h), c, t)
  {
    if h != [] {
      var (front, e) := (h[..|h| - 1], h[|h| - 1]);
      assert h == front + [e];
      RunRecords(front, c, t);
      RunConsistent(front);
      StepConnection(front, Run(front), e, c);
      StepTopic(front, Run(front), e, c, t);
    }
  }

  /**
    In every run and for every client, what was sent for it followed by its backlog is, in
    publish order and without loss or duplication, exactly what it is owed; and an online
    client has no backlog.
   */
  lemma {:induction false} BrokerKeepsPromise(h: seq<Event>, c: Id)
    requires LegalRun(h)
    ensures SentTo(Run(h).wire, c) + Waiting(Run(h), c) == Owed(h, c)
    ensures Live(h, c).Some? ==> SentTo(Run(h).wire, c) == Owed(h, c)
  {
    if h != [] {
      var (front, e) := (h[..|h| - 1], h[|h| - 1]);
      assert h == front + [e];
      BrokerKeepsPromise(front, c);
      RunConsistent(front);
      RunRecords(front, c, if e.Publish? then e.msg.topic else "");
      StepMessages(front, Run(front), e, c);
    }
    RunConsistent(h);
    RunRecords(h, c, "");
  }

  lemma {:induction false} PrefixLegal(h: seq<Event>, i: nat)
    requires LegalRun(h) && i < |h|
    ensures LegalRun(h[..i + 1]) && LegalRun(h[..i]) && Legal(Run(h[..i]), h[i])
    ensures Run(h[..i + 1]) == Step(Run(h[..i]), h[i])
    decreases |h|
  {
    var n := |h| - 1;
    if i < n {
      PrefixLegal(h[..n], i);
      assert h[..n][..i] == h[..i] && h[..n][..i + 1] == h[..i + 1];
    } else {
      assert h[..i + 1] == h;
    }
  }

  /** The class, driven through a whole history, keeps the promise. */
  method Serve(h: seq<Event>) returns (broker: Broker.Broker)
    requires LegalRun(h)
    ensures broker.Value() == Run(h)
    ensures forall c :: SentTo(broker.wire, c) + Waiting(broker.Value(), c) == Owed(h, c)
  {
    broker := new Broker.Broker();
    for i := 0 to |h|
      invariant fresh(broker) && LegalRun(h[..i]) && broker.Value() == Run(h[..i])
    {
      PrefixLegal(h, i);
      broker.HandleEvent(h[i]);
    }
    assert h[..|h|] == h;
    forall c
      ensures SentTo(broker.wire, c) + Waiting(broker.Value(), c) == Owed(h, c)
    {
      BrokerKeepsPromise(h, c);
    }
  }
}
