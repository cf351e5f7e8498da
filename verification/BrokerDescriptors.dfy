/**
  From "sent for a client" to "reached the client". The broker sends on the descriptor in
  a client's record, its first one; this says exactly which runs that is good enough for.
 */
module BrokerDescriptors {
  import opened Options
  import opened BrokerSpec
  import opened BrokerPromise
  import opened BrokerRuns

  /** Messages sent for the client on a descriptor that was its own connection at that moment. */
  function Reached(wire: seq<Sent>, c: Id): seq<Message> {
    if wire == [] then []
    else
      var last := wire[|wire| - 1];
      Reached(wire[..|wire| - 1], c) + if last.to == c && last.heardBy == Some(c) then [last.msg] else []
  }

  ghost predicate AllReach(wire: seq<Sent>) {
    forall e :: e in wire ==> e.heardBy == Some(e.to)
  }

  /** Checked before a step: nothing is about to be sent to a client on a descriptor that is not its live one. */
  ghost predicate Guard(s: State, e: Event) {
    match e
    case Connect(id, fd) => id !in s.sockets && id in s.all && id in s.backlog ==> s.all[id].socket == fd
    case Publish(msg) =>
      msg.topic in s.topics ==>
        forall sub :: sub in s.topics[msg.topic] && sub.client.id in s.sockets ==>
          sub.client.socket == s.sockets[sub.client.id]
    case _ => true
  }

  ghost predicate GuardedRun(h: seq<Event>)
    requires LegalRun(h)
  {
    h != [] ==> GuardedRun(h[..|h| - 1]) && Guard(Run(h[..|h| - 1]), h[|h| - 1])
  }

  // ---------- One step ----------

  ghost predicate Hears(s: State, fd: int, c: Id) {
    fd in s.active && s.active[fd].id == c
  }

  lemma SendReach(s: State, fd: int, to: Id, msg: Message)
    ensures AllReach(Send(s, fd, to, msg).wire) <==> AllReach(s.wire) && Hears(s, fd, to)
  {
  }

  lemma {:induction false} SendAllReach(s: State, fd: int, to: Id, msgs: seq<Message>)
    ensures SendAll(s, fd, to, msgs).active == s.active
    ensures AllReach(SendAll(s, fd, to, msgs).wire) <==> AllReach(s.wire) && (msgs == [] || Hears(s, fd, to))
  {
    if msgs != [] {
      var front := msgs[..|msgs| - 1];
      SendAllReach(s, fd, to, front);
      SendReach(SendAll(s, fd, to, front), fd, to, msgs[|msgs| - 1]);
    }
  }

  ghost predicate SubscribersHear(s: State, subs: seq<Subscription>) {
    forall sub :: sub in subs && sub.client.id in s.sockets ==> Hears(s, sub.client.socket, sub.client.id)
  }

  lemma {:induction false} DeliveredAllReach(s: State, subs: seq<Subscription>, msg: Message)
    ensures var r := DeliveredAll(s, subs, msg); r.active == s.active && r.sockets == s.sockets
    ensures AllReach(DeliveredAll(s, subs, msg).wire) <==> AllReach(s.wire) && SubscribersHear(s, subs)
  {
    if subs != [] {
      var n := |subs| - 1;
      DeliveredAllReach(s, subs[..n], msg);
      SendReach(DeliveredAll(s, subs[..n], msg), subs[n].client.socket, subs[n].client.id, msg);
      LastHears(s, subs);
    }
  }

  lemma LastHears(s: State, subs: seq<Subscription>)
    requires subs != []
    ensures var last := subs[|subs| - 1].client;
            SubscribersHear(s, subs) <==>
            SubscribersHear(s, subs[..|subs| - 1]) && (last.id in s.sockets ==> Hears(s, last.socket, last.id))
  {
  }

  lemma HearsIffLive(s: State, fd: int, c: Id)
    requires ConnectionsOk(s) && c in s.sockets
    ensures Hears(s, fd, c) <==> fd == s.sockets[c]
  {
  }

  lemma StepReach(s: State, e: Event)
    requires Consistent(s) && Legal(s, e)
    ensures AllReach(Step(s, e).wire) <==> AllReach(s.wire) && Guard(s, e)
  {
    match e
    case Connect(id, fd) =>
      if id !in s.sockets && id in s.all {
        ReconnectReach(s, id, fd);
      }
    case Request(_, _, _, _) =>
    case Close(_) =>
    case Publish(msg) =>
      if msg.topic in s.topics {
        var subs := s.topics[msg.topic];
        DeliveredAllReach(s, subs, msg);
        forall sub | sub in subs && sub.client.id in s.sockets
          ensures Hears(s, sub.client.socket, sub.client.id) <==> sub.client.socket == s.sockets[sub.client.id]
        {
          HearsIffLive(s, sub.client.socket, sub.client.id);
        }
      }
  }

  lemma ReconnectReach(s: State, id: Id, fd: int)
    requires Consistent(s) && fd !in s.active && id !in s.sockets && id in s.all
    ensures AllReach(Connected(s, id, fd).wire) <==> AllReach(s.wire) && Guard(s, Connect(id, fd))
  {
    var s1 := s.(readFds := s.readFds + {fd}, active := s.active[fd := s.all[id]], sockets := s.sockets[id := fd]);
    assert Insert(s.all - {id}, id, s.all[id]) == s.all;
    SendAllReach(s1, s.all[id].socket, id, Waiting(s1, id));
    // no other connection is the client's, since it was offline
    assert Hears(s1, s.all[id].socket, id) <==> s.all[id].socket == fd;
  }

  // ---------- Whole runs ----------

  lemma {:induction false} RunReach(h: seq<Event>)
    requires LegalRun(h)
    ensures AllReach(Run(h).wire) <==> GuardedRun(h)
  {
    if h != [] {
      RunReach(h[..|h| - 1]);
      RunConsistent(h[..|h| - 1]);
      StepReach(Run(h[..|h| - 1]), h[|h| - 1]);
    }
  }

  lemma {:induction false} ReachedOfSent(wire: seq<Sent>, c: Id)
    ensures |Reached(wire, c)| <= |SentTo(wire, c)|
    ensures |Reached(wire, c)| == |SentTo(wire, c)| <==> forall e :: e in wire && e.to == c ==> e.heardBy == Some(c)
    ensures |Reached(wire, c)| == |SentTo(wire, c)| ==> Reached(wire, c) == SentTo(wire, c)
  {
    if wire != [] {
      var n := |wire| - 1;
      ReachedOfSent(wire[..n], c);
      assert forall e :: e in wire <==> e in wire[..n] || e == wire[n];
    }
  }

  /** Everything owed to every client has reached it on its own connection, or is waiting for it. */
  ghost predicate EveryoneServed(h: seq<Event>)
    requires LegalRun(h)
  {
    forall c :: Reached(Run(h).wire, c) + Waiting(Run(h), c) == Owed(h, c)
  }

  /** Exactly the runs that pass the guard at every step serve everyone. */
  lemma EveryoneServedIff(h: seq<Event>)
    requires LegalRun(h)
    ensures EveryoneServed(h) <==> GuardedRun(h)
  {
    var w := Run(h).wire;
    RunReach(h);
    if EveryoneServed(h) {
      forall e | e in w
        ensures e.heardBy == Some(e.to)
      {
        var c := e.to;
        BrokerKeepsPromise(h, c);
        assert |Reached(w, c) + Waiting(Run(h), c)| == |SentTo(w, c) + Waiting(Run(h), c)|;
        ReachedOfSent(w, c);
      }
    }
    if GuardedRun(h) {
      forall c
        ensures Reached(w, c) + Waiting(Run(h), c) == Owed(h, c)
      {
        BrokerKeepsPromise(h, c);
        ReachedOfSent(w, c);
      }
    }
  }

  /** Every returning client gets the descriptor of its first connection again. */
  ghost predicate FirstFdReused(h: seq<Event>) {
    h != [] ==>
      && FirstFdReused(h[..|h| - 1])
      && (h[|h| - 1].Connect? ==>
            var Connect(id, fd) := h[|h| - 1];
            Live(h[..|h| - 1], id) == None && FirstFd(h[..|h| - 1], id).Some? ==> FirstFd(h[..|h| - 1], id) == Some(fd))
  }

  ghost predicate RecordsLive(s: State) {
    forall c :: c in s.sockets ==> c in s.all && s.all[c].socket == s.sockets[c]
  }

  /** Then every record's socket is the live one, and everyone is served. */
  lemma {:induction false} FirstFdReusedSuffices(h: seq<Event>)
    requires LegalRun(h) && FirstFdReused(h)
    ensures RecordsLive(Run(h)) && GuardedRun(h) && EveryoneServed(h)
  {
    if h != [] {
      var (front, e) := (h[..|h| - 1], h[|h| - 1]);
      FirstFdReusedSuffices(front);
      RunConsistent(front);
      if e.Connect? {
        RunRecords(front, e.id, "");
      }
      StepRecordsLive(front, Run(front), e);
    }
    EveryoneServedIff(h);
  }

  lemma StepRecordsLive(h: seq<Event>, s: State, e: Event)
    requires Consistent(s) && Legal(s, e) && RecordsLive(s)
    requires e.Connect? && e.id !in s.sockets && e.id in s.all ==> s.all[e.id].socket == e.fd
    ensures RecordsLive(Step(s, e)) && Guard(s, e)
  {
    match e
    case Connect(id, fd) =>
      if id !in s.sockets && id in s.all {
        ReconnectedShape(s, id, fd, id);
      }
    case Request(_, _, _, _) =>
    case Close(_) =>
    case Publish(msg) =>
      if msg.topic in s.topics {
        DeliveredAllTo(s, s.topics[msg.topic], msg, "");
        forall sub | sub in s.topics[msg.topic] && sub.client.id in s.sockets
          ensures sub.client.socket == s.sockets[sub.client.id]
        {
        }
      }
  }

  // ---------- A run that is not served ----------

  lemma NextState(h: seq<Event>, e: Event)
    requires LegalRun(h) && Legal(Run(h), e)
    ensures LegalRun(h + [e]) && Run(h + [e]) == Step(Run(h), e)
  {
  }

  /** Client "a" connects on descriptor 4, subscribes to a known topic, and leaves. */
  lemma FirstVisit(m: Message, sf: char) returns (h: seq<Event>)
    ensures LegalRun(h)
    ensures Run(h) == State(map[], map["a" := Client("a", 4)], map[],
                            map[m.topic := [Subscription(Client("a", 4), sf)]], map[], {}, [])
  {
    var record := Client("a", 4);
    var s1 := State(map[4 := record], map["a" := record], map["a" := 4], map[], map[], {4}, []);
    NextState([], Connect("a", 4));
    h := [] + [Connect("a", 4)];
    assert Run(h) == s1;
    NextState(h, Publish(m));
    h := h + [Publish(m)];
    var s2 := s1.(topics := map[m.topic := []]);
    assert Run(h) == s2;
    NextState(h, Request(4, m.topic, sf, SUBSCRIBE));
    h := h + [Request(4, m.topic, sf, SUBSCRIBE)];
    assert s2.topics[m.topic] == [] && s2.active[4] == record;
    assert Resubscribed(s2.topics[m.topic], record, sf, SUBSCRIBE) == [Subscription(record, sf)];
    assert s2.topics[m.topic := [Subscription(record, sf)]] == map[m.topic := [Subscription(record, sf)]];
    assert Run(h) == s2.(topics := map[m.topic := [Subscription(record, sf)]]);
    NextState(h, Close(4));
    h := h + [Close(4)];
  }

  /** A subscriber that returns on another descriptor does not get what is published next. */
  lemma ReturningElsewhereLoses(m: Message, sf: char) returns (h: seq<Event>)
    ensures LegalRun(h) && Live(h, "a") == Some(5)
    ensures Owed(h, "a") == [m] && Reached(Run(h).wire, "a") == [] && Waiting(Run(h), "a") == []
    ensures !GuardedRun(h)
  {
    h := FirstVisit(m, sf);
    var record := Client("a", 4);
    var list := [Subscription(record, sf)];
    NextState(h, Connect("a", 5));
    h := h + [Connect("a", 5)];
    var s5 := State(map[5 := record], map["a" := record], map["a" := 5], map[m.topic := list], map[], {5}, []);
    assert Run(h) == s5;
    NextState(h, Publish(m));
    h := h + [Publish(m)];
    assert DeliveredAll(s5, list, m) == Send(s5, 4, "a", m) by {
      assert list[..0] == [];
      assert DeliveredAll(s5, list[..0], m) == s5;
    }
    var w := [Sent(4, "a", None, m)];
    assert Run(h).wire == w;
    assert w[..0] == [];
    assert w[0] in w;
    RunRecords(h, "a", m.topic);
    BrokerKeepsPromise(h, "a");
    RunReach(h);
  }
}
