/** The order of everything sent, read off the history of events alone. */
module BrokerOrderPromise {
  import opened Options
  import opened BrokerSpec
  import opened BrokerPromise

  /** A message on its way: the descriptor it goes out on, whom it is for. */
  datatype Sending = Sending(fd: Option<int>, to: Id, msg: Message)

  /** Whose connection a descriptor is. */
  function OnlineAt(h: seq<Event>, fd: int): Option<Id> {
    if h == [] then None
    else
      var front := h[..|h| - 1];
      match h[|h| - 1]
      case Connect(id, fd') => if fd' == fd && Live(front, id) == None then Some(id) else OnlineAt(front, fd)
      case Close(fd') => if fd' == fd then None else OnlineAt(front, fd)
      case _ => OnlineAt(front, fd)
  }

  function Without(ids: seq<Id>, c: Id): seq<Id> {
    if ids == [] then [] else (if ids[0] == c then [] else [ids[0]]) + Without(ids[1..], c)
  }

  /** The subscribers of a topic, in the order in which they last became subscribers. */
  function Subscribers(h: seq<Event>, t: Topic): seq<Id> {
    if h == [] then []
    else
      var front := h[..|h| - 1];
      var before := Subscribers(front, t);
      match h[|h| - 1]
      case Request(fd, topic, sf, kind) =>
        var c := OnlineAt(front, fd);
        if c == None || topic != t || !Known(front, t) then before
        else if kind == '0' then if c.value in before then before else before + [c.value]
        else if kind == '1' then Without(before, c.value)
        else before
      case _ => before
  }

  /** What is kept for a client that is offline. */
  function Backlog(h: seq<Event>, c: Id): seq<Message> {
    if h == [] then []
    else
      var front := h[..|h| - 1];
      match h[|h| - 1]
      case Publish(msg) =>
        var keep := Subscribed(front, c, msg.topic) == Some('1') && Live(front, c) == None;
        Backlog(front, c) + if keep then [msg] else []
      case Connect(id, fd) => if id == c && Live(front, c) == None then [] else Backlog(front, c)
      case _ => Backlog(front, c)
  }

  function ToOnline(h: seq<Event>, ids: seq<Id>, msg: Message): seq<Sending> {
    if ids == [] then []
    else
      var c := ids[|ids| - 1];
      ToOnline(h, ids[..|ids| - 1], msg) + if Live(h, c).Some? then [Sending(FirstFd(h, c), c, msg)] else []
  }

  function AllTo(fd: Option<int>, c: Id, msgs: seq<Message>): seq<Sending> {
    seq(|msgs|, i requires 0 <= i < |msgs| => Sending(fd, c, msgs[i]))
  }

  /** Everything sent, in order: a publication to its online subscribers, a backlog to a client that returns. */
  function Sends(h: seq<Event>): seq<Sending> {
    if h == [] then []
    else
      var front := h[..|h| - 1];
      match h[|h| - 1]
      case Publish(msg) => Sends(front) + ToOnline(front, Subscribers(front, msg.topic), msg)
      case Connect(id, fd) =>
        Sends(front) + if Live(front, id) == None then AllTo(FirstFd(front, id), id, Backlog(front, id)) else []
      case _ => Sends(front)
  }
}

/** The broker sends exactly this, in this order, in every run. */
module BrokerOrder {
  import opened Options
  import opened BrokerSpec
  import opened BrokerPromise
  import opened BrokerRuns
  import opened BrokerOrderPromise

  function Sendings(wire: seq<Sent>): seq<Sending> {
    seq(|wire|, i requires 0 <= i < |wire| => Sending(Some(wire[i].fd), wire[i].to, wire[i].msg))
  }

  function Ids(subs: seq<Subscription>): seq<Id> {
    seq(|subs|, i requires 0 <= i < |subs| => subs[i].client.id)
  }

  // ---------- Who is at a descriptor ----------

  lemma {:induction false} OnlineAtIs(h: seq<Event>, fd: int)
    requires LegalRun(h)
    ensures OnlineAt(h, fd) == if fd in Run(h).active then Some(Run(h).active[fd].id) else None
  {
    if h != [] {
      var (front, e) := (h[..|h| - 1], h[|h| - 1]);
      var s := Run(front);
      OnlineAtIs(front, fd);
      RunConsistent(front);
      match e
      case Connect(id, fd') =>
        RunRecords(front, id, "");
        if id !in s.sockets && id in s.all {
          ReconnectedShape(s, id, fd', id);
        }
      case Request(_, _, _, _) =>
      case Close(_) =>
      case Publish(msg) =>
        if msg.topic in s.topics {
          DeliveredAllTo(s, s.topics[msg.topic], msg, "");
        }
    }
  }

  // ---------- Subscribers ----------

  lemma {:induction false} WithoutOne(ids: seq<Id>, i: nat)
    requires i < |ids| && forall j :: 0 <= j < |ids| && j != i ==> ids[j] != ids[i]
    ensures Without(ids, ids[i]) == ids[..i] + ids[i + 1..]
  {
    if i == 0 {
      WithoutNone(ids[1..], ids[0]);
    } else {
      assert ids[1..][i - 1] == ids[i];
      WithoutOne(ids[1..], i - 1);
    }
  }

  lemma {:induction false} WithoutNone(ids: seq<Id>, c: Id)
    requires c !in ids
    ensures Without(ids, c) == ids
  {
    if ids != [] {
      WithoutNone(ids[1..], c);
    }
  }

  lemma ResubscribedIds(subs: seq<Subscription>, client: Client, sf: char, kind: char)
    requires OneEntryEach(subs)
    ensures Ids(Resubscribed(subs, client, sf, kind)) ==
            if kind == '0' then if client.id in Ids(subs) then Ids(subs) else Ids(subs) + [client.id]
            else if kind == '1' then Without(Ids(subs), client.id)
            else Ids(subs)
  {
    var i := IndexOf(subs, client.id);
    if i < |subs| {
      assert Ids(subs)[i] == client.id;
      WithoutOne(Ids(subs), i);
    } else {
      WithoutNone(Ids(subs), client.id);
    }
  }

  lemma RequestIds(s: State, fd: int, topic: Topic, sf: char, kind: char, t: Topic)
    requires Consistent(s) && fd in s.active
    ensures var r := Requested(s, fd, topic, sf, kind);
            && (t in r.topics <==> t in s.topics)
            && (t in s.topics && topic != t ==> r.topics[t] == s.topics[t])
            && (t in s.topics && topic == t ==>
                  var (ids, c) := (Ids(s.topics[t]), s.active[fd].id);
                  Ids(r.topics[t]) ==
                  if kind == '0' then if c in ids then ids else ids + [c]
                  else if kind == '1' then Without(ids, c)
                  else ids)
  {
    if t in s.topics {
      ResubscribedIds(s.topics[t], s.active[fd], sf, kind);
    }
  }

  /** In every run a topic's list is its subscribers, in order. */
  lemma {:induction false} SubscribersAre(h: seq<Event>, t: Topic)
    requires LegalRun(h)
    ensures Subscribers(h, t) == if t in Run(h).topics then Ids(Run(h).topics[t]) else []
  {
    if h != [] {
      var (front, e) := (h[..|h| - 1], h[|h| - 1]);
      var s := Run(front);
      SubscribersAre(front, t);
      RunConsistent(front);
      RunRecords(front, "", t);
      match e
      case Connect(id, fd) =>
        if id !in s.sockets && id in s.all {
          ReconnectedShape(s, id, fd, id);
        }
      case Request(fd, topic, sf, kind) =>
        OnlineAtIs(front, fd);
        RequestIds(s, fd, topic, sf, kind, t);
      case Close(_) =>
      case Publish(msg) =>
        if msg.topic in s.topics {
          DeliveredAllTo(s, s.topics[msg.topic], msg, "");
        }
    }
  }

  // ---------- The backlog ----------

  lemma {:induction false} BacklogIs(h: seq<Event>, c: Id)
    requires LegalRun(h)
    ensures Waiting(Run(h), c) == Backlog(h, c)
  {
    if h != [] {
      var (front, e) := (h[..|h| - 1], h[|h| - 1]);
      var s := Run(front);
      BacklogIs(front, c);
      RunConsistent(front);
      RunRecords(front, c, if e.Publish? then e.msg.topic else "");
      match e
      case Connect(id, fd) => ConnectBacklog(s, id, fd, c);
      case Request(_, _, _, _) =>
      case Close(_) =>
      case Publish(msg) =>
        if msg.topic in s.topics {
          DeliveredAllTo(s, s.topics[msg.topic], msg, c);
        }
    }
  }

  lemma ConnectBacklog(s: State, id: Id, fd: int, c: Id)
    requires Consistent(s) && fd !in s.active
    ensures Waiting(Connected(s, id, fd), c) == if id == c && id !in s.sockets then [] else Waiting(s, c)
  {
    if id !in s.sockets && id in s.all {
      ReconnectedShape(s, id, fd, c);
    }
  }

  // ---------- What is sent ----------

  lemma SendSendings(s: State, fd: int, to: Id, msg: Message)
    ensures Sendings(Send(s, fd, to, msg).wire) == Sendings(s.wire) + [Sending(Some(fd), to, msg)]
  {
  }

  lemma AllToLast(fd: Option<int>, c: Id, msgs: seq<Message>)
    requires msgs != []
    ensures AllTo(fd, c, msgs) == AllTo(fd, c, msgs[..|msgs| - 1]) + [Sending(fd, c, msgs[|msgs| - 1])]
  {
  }

  lemma {:induction false} SendAllSendings(s: State, fd: int, to: Id, msgs: seq<Message>)
    ensures Sendings(SendAll(s, fd, to, msgs).wire) == Sendings(s.wire) + AllTo(Some(fd), to, msgs)
  {
    if msgs != [] {
      var n := |msgs| - 1;
      SendAllSendings(s, fd, to, msgs[..n]);
      SendSendings(SendAll(s, fd, to, msgs[..n]), fd, to, msgs[n]);
      AllToLast(Some(fd), to, msgs);
    }
  }

  lemma DeliveredSending(s: State, sub: Subscription, msg: Message)
    ensures var r := Delivered(s, sub, msg);
            && r.sockets == s.sockets
            && var (c, fd) := (sub.client.id, sub.client.socket);
            Sendings(r.wire) == Sendings(s.wire) + if c in s.sockets then [Sending(Some(fd), c, msg)] else []
  {
    SendSendings(s, sub.client.socket, sub.client.id, msg);
  }

  ghost predicate RecordedFds(h: seq<Event>, s: State, subs: seq<Subscription>) {
    forall sub :: sub in subs ==>
      && FirstFd(h, sub.client.id) == Some(sub.client.socket)
      && (Live(h, sub.client.id).Some? <==> sub.client.id in s.sockets)
  }

  lemma {:induction false} DeliveredSendings(h: seq<Event>, s: State, subs: seq<Subscription>, msg: Message)
    requires RecordedFds(h, s, subs)
    ensures Sendings(DeliveredAll(s, subs, msg).wire) == Sendings(s.wire) + ToOnline(h, Ids(subs), msg)
    ensures DeliveredAll(s, subs, msg).sockets == s.sockets
  {
    if subs != [] {
      var n := |subs| - 1;
      assert Ids(subs)[..n] == Ids(subs[..n]);
      DeliveredSendings(h, s, subs[..n], msg);
      assert subs[n] in subs;
      DeliveredSending(DeliveredAll(s, subs[..n], msg), subs[n], msg);
    }
  }

  lemma ListRecorded(h: seq<Event>, t: Topic)
    requires LegalRun(h) && t in Run(h).topics
    ensures RecordedFds(h, Run(h), Run(h).topics[t])
  {
    var s := Run(h);
    RunConsistent(h);
    forall sub | sub in s.topics[t]
      ensures FirstFd(h, sub.client.id) == Some(sub.client.socket)
      ensures Live(h, sub.client.id).Some? <==> sub.client.id in s.sockets
    {
      RunRecords(h, sub.client.id, t);
    }
  }

  lemma ConnectSendings(h: seq<Event>, id: Id, fd: int)
    requires LegalRun(h) && Legal(Run(h), Connect(id, fd))
    ensures Sendings(Connected(Run(h), id, fd).wire) ==
            Sendings(Run(h).wire) + if Live(h, id) == None then AllTo(FirstFd(h, id), id, Backlog(h, id)) else []
  {
    var s := Run(h);
    RunConsistent(h);
    RunRecords(h, id, "");
    BacklogIs(h, id);
    if id !in s.sockets {
      if id in s.all {
        var s1 := s.(readFds := s.readFds + {fd}, active := s.active[fd := s.all[id]], sockets := s.sockets[id := fd]);
        assert Insert(s.all - {id}, id, s.all[id]) == s.all;
        SendAllSendings(s1, s.all[id].socket, id, Backlog(h, id));
      } else {
        assert id !in s.backlog;
      }
    }
  }

  /**
    In every run the sends are, one for one and in order, the publications to those subscribed
    and online at the time, in the order in which they subscribed, and the backlogs of
    returning clients, each to its client's first descriptor.
   */
  lemma {:induction false} SendsInOrder(h: seq<Event>)
    requires LegalRun(h)
    ensures Sendings(Run(h).wire) == Sends(h)
  {
    if h != [] {
      var (front, e) := (h[..|h| - 1], h[|h| - 1]);
      SendsInOrder(front);
      match e
      case Connect(id, fd) => ConnectSendings(front, id, fd);
      case Request(_, _, _, _) =>
      case Close(_) =>
      case Publish(msg) =>
        SubscribersAre(front, msg.topic);
        if msg.topic in Run(front).topics {
          ListRecorded(front, msg.topic);
          DeliveredSendings(front, Run(front), Run(front).topics[msg.topic], msg);
        }
    }
  }
}
