/** What holds over every run of the server: the copied records stay in step with the client
    table, and every client gets exactly what it subscribed to. */
module PubSubRuns {
  import opened Bytes
  import opened PubSub

  // ---- The invariant ----

  ghost predicate RecordsNamed(s: State) {
    forall id :: id in s.clients ==> s.clients[id].id == id
  }

  /** Each topic's copied records agree with the client table, except in their stored SF. */
  ghost predicate CopiesInStep(s: State) {
    forall t, id :: t in s.topics && id in s.topics[t] ==>
      id in s.clients && s.topics[t][id] == s.clients[id].(sf := s.topics[t][id].sf)
  }

  /** The records marked connected are exactly those with an open connection. */
  ghost predicate RecordsMatchPeers(s: State) {
    && (forall id :: id in s.clients && s.clients[id].connected ==>
          s.clients[id].fd in s.peer && s.peer[s.clients[id].fd] == id)
    && (forall fd :: fd in s.peer ==> Online(s, s.peer[fd]) && s.clients[s.peer[fd]].fd == fd)
  }

  ghost predicate QueuesOnlyWhileAway(s: State) {
    forall id :: id in s.holder && s.holder[id] != [] ==> id in s.clients && !s.clients[id].connected
  }

  predicate Idle(s: State, id: Id) { forall t :: t in s.topics ==> id !in s.topics[t] }

  /** A stale record on an open descriptor sorts after its owner's, and its client subscribes to nothing. */
  ghost predicate OwnersFirst(s: State) {
    forall other :: other in s.clients && s.clients[other].fd in s.peer && s.peer[s.clients[other].fd] != other ==>
      Less(s.peer[s.clients[other].fd], other) && Idle(s, other)
  }

  /** What holds whatever descriptors connections get. */
  ghost predicate Core(s: State) {
    RecordsNamed(s) && CopiesInStep(s) && RecordsMatchPeers(s) && QueuesOnlyWhileAway(s)
  }

  ghost predicate Inv(s: State) {
    Core(s) && OwnersFirst(s)
  }

  // ---- The events the network can bring ----

  /** accept gives a descriptor that is not open; data comes only from open ones. */
  predicate Possible(s: State, e: Event) {
    match e
    case Publish(m) => true
    case Connect(fd, id) => fd !in s.peer
    case Exit(fd) => fd in s.peer
    case Subscribe(fd, topic, sf) => fd in s.peer
    case Unsubscribe(fd, topic) => fd in s.peer
  }

  /** Every other record that still holds the descriptor of an accepted connection sorts after the new
      owner's, and its client subscribes to nothing. */
  predicate Harmless(s: State, e: Event) {
    e.Connect? && !Online(s, e.id) ==>
      forall other :: other in s.clients && other != e.id && s.clients[other].fd == e.fd ==>
        Less(e.id, other) && Idle(s, other)
  }

  /** From position n on, every event is possible and every connection harmless. */
  predicate LegalSince(events: seq<Event>, n: nat)
    requires n <= |events|
  {
    |events| > n ==>
      var before := events[..|events| - 1];
      LegalSince(before, n) && Possible(Run(before), events[|events| - 1]) &&
          Harmless(Run(before), events[|events| - 1])
  }

  predicate Legal(events: seq<Event>) { LegalSince(events, 0) }

  // ---- The reference: who is on line, and who subscribed to what ----

  datatype Table = Table(live: map<Fd, Id>, subs: map<(Topic, Id), byte>)

  predicate On(a: Table, id: Id) { exists fd :: fd in a.live && a.live[fd] == id }

  function Next(a: Table, e: Event): Table {
    match e
    case Publish(m) => a
    case Connect(fd, id) => if On(a, id) then a else a.(live := a.live[fd := id])
    case Exit(fd) => a.(live := a.live - {fd})
    case Subscribe(fd, topic, sf) =>
      if fd in a.live && (topic, a.live[fd]) !in a.subs then a.(subs := a.subs[(topic, a.live[fd]) := sf]) else a
    case Unsubscribe(fd, topic) =>
      if fd in a.live then a.(subs := a.subs - {(topic, a.live[fd])}) else a
  }

  function TableOf(events: seq<Event>): Table {
    if events == [] then Table(map[], map[])
    else Next(TableOf(events[..|events| - 1]), events[|events| - 1])
  }

  /** A subscriber is owed a message if it is on line or asked for storing, with an SF of 1. */
  predicate Owed(a: Table, id: Id, m: Message) {
    (m.topic, id) in a.subs && (On(a, id) || a.subs[(m.topic, id)] == '1' as int)
  }

  function Due(a: Table, id: Id, e: Event): seq<Message> {
    if e.Publish? && Owed(a, id, e.message) then [e.message] else []
  }

  /** Everything a client is owed, in publish order. */
  function Expected(events: seq<Event>, id: Id): seq<Message> {
    if events == [] then []
    else
      var before := events[..|events| - 1];
      Expected(before, id) + Due(TableOf(before), id, events[|events| - 1])
  }

  function Inbox(s: State, id: Id): seq<Message> { Queue(s.received, id) }

  /** What was sent to a client, and after it what waits for it. */
  function Account(s: State, id: Id): seq<Message> { Inbox(s, id) + Queue(s.holder, id) }

  ghost predicate SubsAgree(topics: map<Topic, map<Id, Client>>, subs: map<(Topic, Id), byte>) {
    && (forall t, id :: (t, id) in subs <==> t in topics && id in topics[t])
    && (forall t, id :: t in topics && id in topics[t] ==> topics[t][id].sf == subs[(t, id)])
  }

  /** The server's maps and the reference table tell the same story. */
  ghost predicate Refines(s: State, a: Table) {
    s.peer == a.live && SubsAgree(s.topics, a.subs)
  }

  // ---- Publishing ----

  /** Every copy stands for its client: it is either away or reaches it. */
  ghost predicate Reach(s: State, subscribers: map<Id, Client>) {
    forall id :: id in subscribers ==>
      && subscribers[id].id == id
      && (subscribers[id].connected ==> subscribers[id].fd in s.peer && s.peer[subscribers[id].fd] == id)
  }

  function Share(subscribers: map<Id, Client>, id: Id, m: Message, connected: bool): seq<Message> {
    if id in subscribers && subscribers[id].connected == connected && (connected || subscribers[id].sf == STORE)
    then [m] else []
  }

  /** Only a client's own account moved from s to r, and by this much. */
  ghost predicate Gains(r: State, s: State, id: Id, sent: seq<Message>, queued: seq<Message>) {
    && r.topics == s.topics && r.clients == s.clients && r.peer == s.peer
    && Inbox(r, id) == Inbox(s, id) + sent
    && Queue(r.holder, id) == Queue(s.holder, id) + queued
  }

  lemma GainsTwice(r: State, mid: State, s: State, id: Id,
                   sent: seq<Message>, queued: seq<Message>, sentNext: seq<Message>, queuedNext: seq<Message>)
    requires Gains(mid, s, id, sent, queued) && Gains(r, mid, id, sentNext, queuedNext)
    ensures Gains(r, s, id, sent + sentNext, queued + queuedNext)
  {
    hide Inbox, Queue;
  }

  lemma OneShare(s: State, subscribers: map<Id, Client>, first: Id, m: Message, id: Id)
    requires Reach(s, subscribers) && first in subscribers
    ensures Gains(Forwarded(s, subscribers[first], m), s, id,
                  if id == first then Share(subscribers, id, m, true) else [],
                  if id == first then Share(subscribers, id, m, false) else [])
    ensures Reach(Forwarded(s, subscribers[first], m), subscribers - {first})
  {
  }

  lemma ShareSplits(subscribers: map<Id, Client>, first: Id, m: Message, id: Id, connected: bool)
    requires first in subscribers
    ensures Share(subscribers, id, m, connected)
         == (if id == first then Share(subscribers, id, m, connected) else [])
            + Share(subscribers - {first}, id, m, connected)
  {
  }

  lemma FirstForwarded(s: State, subscribers: map<Id, Client>, m: Message)
    requires subscribers.Keys != {}
    ensures var first := Least(subscribers.Keys);
            FannedOut(s, subscribers, m) == FannedOut(Forwarded(s, subscribers[first], m), subscribers - {first}, m)
  {
    hide Forwarded, Less, AtMost;
  }

  /** The fan-out gives each subscriber its share once, and touches no one else. */
  lemma {:induction false} FanOutShares(s: State, subscribers: map<Id, Client>, m: Message, id: Id)
    requires Reach(s, subscribers)
    ensures Gains(FannedOut(s, subscribers, m), s, id, Share(subscribers, id, m, true),
              Share(subscribers, id, m, false))
    decreases |subscribers|
  {
    if subscribers.Keys != {} {
      hide *;
      FirstForwarded(s, subscribers, m);
      var first := Least(subscribers.Keys);
      var rest := subscribers - {first};
      Shrinks(subscribers, first);
      OneShare(s, subscribers, first, m, id);
      ShareSplits(subscribers, first, m, id, true);
      ShareSplits(subscribers, first, m, id, false);
      var next := Forwarded(s, subscribers[first], m);
      FanOutShares(next, rest, m, id);
      GainsTwice(FannedOut(s, subscribers, m), next, s, id,
                 if id == first then Share(subscribers, id, m, true) else [],
                 if id == first then Share(subscribers, id, m, false) else [],
                 Share(rest, id, m, true), Share(rest, id, m, false));
    }
  }

  lemma CopiesReach(s: State, topic: Topic)
    requires Core(s) && topic in s.topics
    ensures Reach(s, s.topics[topic])
  {
    forall id | id in s.topics[topic]
      ensures id in s.clients && s.topics[topic][id] == s.clients[id].(sf := s.topics[topic][id].sf)
    {
    }
  }

  lemma PublishKeepsInv(s: State, m: Message)
    requires Inv(s)
    ensures Inv(Published(s, m))
  {
    if m.topic in s.topics {
      FanOutKeepsCore(s, m.topic, m);
      FanOutShares(s, s.topics[m.topic], m, []);
      hide Core, FannedOut, Share, Queue, Reach;
    } else {
      NewTopicKeepsInv(s, m.topic);
    }
  }

  lemma NewTopicKeepsInv(s: State, topic: Topic)
    requires Inv(s) && topic !in s.topics
    ensures Inv(s.(topics := s.topics[topic := map[]]))
  {
    assert forall id :: Idle(s, id) ==> Idle(s.(topics := s.topics[topic := map[]]), id);
    hide Less;
  }

  lemma FanOutKeepsCore(s: State, topic: Topic, m: Message)
    requires Core(s) && topic in s.topics
    ensures Core(FannedOut(s, s.topics[topic], m))
    ensures Reach(s, s.topics[topic])
  {
    CopiesReach(s, topic);
    FanOutShares(s, s.topics[topic], m, []);
    FanOutKeepsQueues(s, topic, m);
    hide FannedOut, QueuesOnlyWhileAway, Reach, Share, Queue;
  }

  lemma FanOutKeepsQueues(s: State, topic: Topic, m: Message)
    requires Core(s) && topic in s.topics
    ensures QueuesOnlyWhileAway(FannedOut(s, s.topics[topic], m))
  {
    CopiesReach(s, topic);
    var r := FannedOut(s, s.topics[topic], m);
    FanOutShares(s, s.topics[topic], m, []);
    hide FannedOut, Reach, RecordsMatchPeers, RecordsNamed;
    forall id | id in r.holder && r.holder[id] != []
      ensures id in s.clients && !s.clients[id].connected
    {
      FanOutShares(s, s.topics[topic], m, id);
      StoredOnlyWhileAway(s, topic, m, id);
      hide Core;
    }
  }

  lemma StoredOnlyWhileAway(s: State, topic: Topic, m: Message, id: Id)
    requires Core(s) && topic in s.topics
    ensures Queue(s.holder, id) + Share(s.topics[topic], id, m, false) != [] ==>
              id in s.clients && !s.clients[id].connected
  {
  }

  // ---- The other events ----

  lemma ConnectKeepsCore(s: State, fd: Fd, id: Id)
    requires Core(s) && fd !in s.peer
    ensures Core(Connected(s, fd, id))
  {
    if !Online(s, id) {
      ConnectKeepsPeers(s, fd, id);
      ConnectKeepsQueues(s, fd, id);
      ConnectKeepsCopies(s, fd, id);
      hide CopiesInStep, RecordsMatchPeers, QueuesOnlyWhileAway, AllBack;
    }
  }

  lemma ConnectKeepsPeers(s: State, fd: Fd, id: Id)
    requires Core(s) && fd !in s.peer && !Online(s, id)
    ensures RecordsMatchPeers(Connected(s, fd, id))
  {
    hide CopiesInStep, RecordsNamed, QueuesOnlyWhileAway, AllBack, Queue;
  }

  lemma ConnectKeepsQueues(s: State, fd: Fd, id: Id)
    requires Core(s) && !Online(s, id)
    ensures QueuesOnlyWhileAway(Connected(s, fd, id))
  {
    hide CopiesInStep, RecordsNamed, RecordsMatchPeers, AllBack;
  }

  lemma ConnectKeepsCopies(s: State, fd: Fd, id: Id)
    requires Core(s) && !Online(s, id)
    ensures CopiesInStep(Connected(s, fd, id))
  {
    hide RecordsMatchPeers, QueuesOnlyWhileAway;
    var r := Connected(s, fd, id);
    forall t, k | t in r.topics && k in r.topics[t]
      ensures k in r.clients && r.topics[t][k] == r.clients[k].(sf := r.topics[t][k].sf)
    {
      assert t in s.topics && k in s.topics[t];
    }
  }

  /** Coming back leaves every topic with the subscribers it has. */
  lemma ConnectKeepsIdle(s: State, fd: Fd, id: Id, k: Id)
    ensures Idle(Connected(s, fd, id), k) <==> Idle(s, k)
  {
    var r := Connected(s, fd, id);
    assert forall t :: t in s.topics ==> t in r.topics && (k in r.topics[t] <==> k in s.topics[t]);
  }

  /** The order of owners survives a connection exactly when the connection is harmless. */
  lemma ConnectKeepsOwnersIff(s: State, fd: Fd, id: Id)
    requires Inv(s) && fd !in s.peer
    ensures OwnersFirst(Connected(s, fd, id)) <==> Harmless(s, Connect(fd, id))
  {
    if !Online(s, id) {
      AcceptedOnly(s, fd, id);
      hide Core, Connected, Idle, Less;
      var r := Connected(s, fd, id);
      if OwnersFirst(r) {
        forall other | other in s.clients && other != id && s.clients[other].fd == fd
          ensures Less(id, other) && Idle(s, other)
        {
          assert other in r.clients && r.clients[other].fd in r.peer;
        }
      }
    }
  }

  /** An accepted connection touches the client's own record only, and no topic's list of subscribers. */
  lemma AcceptedOnly(s: State, fd: Fd, id: Id)
    requires !Online(s, id)
    ensures var r := Connected(s, fd, id);
            && r.peer == s.peer[fd := id] && id in r.clients && r.clients[id].fd == fd
            && (forall k :: Idle(r, k) <==> Idle(s, k))
            && (forall k :: k in s.clients && k != id ==> k in r.clients && r.clients[k] == s.clients[k])
            && (forall k :: k in r.clients && k != id ==> k in s.clients)
  {
    forall k
      ensures Idle(Connected(s, fd, id), k) <==> Idle(s, k)
    {
      ConnectKeepsIdle(s, fd, id, k);
    }
    hide Idle, AllBack, Queue;
  }

  lemma HolderIsPeer(s: State, fd: Fd)
    requires Inv(s) && fd in s.peer
    ensures HolderOf(s.clients, fd) == Some(s.peer[fd])
  {
    hide Less;
    FirstHolder(s.clients, s.peer[fd]);
  }

  /** Among the subscribers of a topic an open descriptor is found at its owner only. */
  lemma OwnerSubscribes(s: State, fd: Fd, topic: Topic, k: Id)
    requires Inv(s) && fd in s.peer && topic in s.topics && k in s.topics[topic] && s.topics[topic][k].fd == fd
    ensures k == s.peer[fd]
  {
    assert !Idle(s, k);
  }

  lemma ExitKeepsInv(s: State, fd: Fd)
    requires Inv(s) && fd in s.peer
    ensures Inv(Exited(s, fd))
  {
    HolderIsPeer(s, fd);
    ExitKeepsOwners(s, fd);
    forall t, k | t in s.topics && k in s.topics[t] && s.topics[t][k].fd == fd
      ensures k == s.peer[fd]
    {
      OwnerSubscribes(s, fd, t, k);
    }
    hide HolderOf, OwnersFirst;
  }

  lemma ExitKeepsOwners(s: State, fd: Fd)
    requires Inv(s) && fd in s.peer
    ensures OwnersFirst(Exited(s, fd))
  {
    var r := Exited(s, fd);
    HolderIsPeer(s, fd);
    hide HolderOf, Less;
    forall k
      ensures Idle(s, k) ==> Idle(r, k)
    {
    }
  }

  lemma SubscribeKeepsInv(s: State, fd: Fd, topic: Topic, sf: byte)
    requires Inv(s) && fd in s.peer
    ensures Inv(Subscribed(s, fd, topic, sf))
  {
    HolderIsPeer(s, fd);
    SubscribeKeepsCopies(s, fd, topic, sf);
    SubscribeKeepsOwners(s, fd, topic, sf);
    hide HolderOf, CopiesInStep, Inserted, OwnersFirst;
  }

  lemma SubscribeKeepsOwners(s: State, fd: Fd, topic: Topic, sf: byte)
    requires Inv(s) && fd in s.peer
    ensures OwnersFirst(Subscribed(s, fd, topic, sf))
  {
    var r := Subscribed(s, fd, topic, sf);
    HolderIsPeer(s, fd);
    hide HolderOf, Less, CopiesInStep, QueuesOnlyWhileAway, RecordsNamed;
    forall k | k != s.peer[fd]
      ensures Idle(s, k) ==> Idle(r, k)
    {
    }
    hide Idle, Subscribed, Inserted, Subscribers;
  }

  lemma SubscribeKeepsCopies(s: State, fd: Fd, topic: Topic, sf: byte)
    requires Inv(s) && fd in s.peer
    ensures CopiesInStep(Subscribed(s, fd, topic, sf))
  {
    HolderIsPeer(s, fd);
    hide HolderOf, RecordsMatchPeers, OwnersFirst, QueuesOnlyWhileAway, RecordsNamed;
  }

  lemma UnsubscribeKeepsCore(s: State, fd: Fd, topic: Topic)
    requires Core(s)
    ensures Core(Unsubscribed(s, fd, topic))
  {
    hide HolderOf;
  }

  lemma UnsubscribeKeepsIdle(s: State, fd: Fd, topic: Topic)
    ensures forall k :: Idle(s, k) ==> Idle(Unsubscribed(s, fd, topic), k)
  {
    hide HolderOf;
  }

  lemma UnsubscribeKeepsInv(s: State, fd: Fd, topic: Topic)
    requires Inv(s) && fd in s.peer
    ensures Inv(Unsubscribed(s, fd, topic))
  {
    UnsubscribeKeepsCore(s, fd, topic);
    UnsubscribeKeepsIdle(s, fd, topic);
    hide HolderOf, Core, Idle, Less;
  }

  /** So accepting a connection keeps the invariant exactly when the connection is harmless. */
  lemma ConnectKeepsInvIff(s: State, fd: Fd, id: Id)
    requires Inv(s) && fd !in s.peer
    ensures Inv(Connected(s, fd, id)) <==> Harmless(s, Connect(fd, id))
  {
    ConnectKeepsCore(s, fd, id);
    ConnectKeepsOwnersIff(s, fd, id);
    hide Core, OwnersFirst;
  }

  lemma StepKeepsInv(s: State, e: Event)
    requires Inv(s) && Possible(s, e) && Harmless(s, e)
    ensures Inv(Step(s, e))
  {
    hide Inv, Published, Connected, Exited, Subscribed, Unsubscribed;
    match e
    case Publish(m) => PublishKeepsInv(s, m);
    case Connect(fd, id) => ConnectKeepsInvIff(s, fd, id);
    case Exit(fd) => ExitKeepsInv(s, fd);
    case Subscribe(fd, topic, sf) => SubscribeKeepsInv(s, fd, topic, sf);
    case Unsubscribe(fd, topic) => UnsubscribeKeepsInv(s, fd, topic);
  }

  // ---- One step against the reference ----

  lemma OnIsOnline(s: State, a: Table, id: Id)
    requires Inv(s) && Refines(s, a)
    ensures On(a, id) <==> Online(s, id)
  {
    if Online(s, id) { assert s.peer[s.clients[id].fd] == id; }
  }

  /** A publish gives a client what it is owed: sent if it is on line, queued if not. */
  lemma OwedIsShared(s: State, a: Table, m: Message, id: Id)
    requires Inv(s) && Refines(s, a) && m.topic in s.topics
    ensures var sent, queued := Share(s.topics[m.topic], id, m, true), Share(s.topics[m.topic], id, m, false);
            && Due(a, id, Publish(m)) == sent + queued
            && (sent == [] || (queued == [] && Queue(s.holder, id) == []))
  {
    OnIsOnline(s, a, id);
    hide RecordsMatchPeers, OwnersFirst, On;
    assert (m.topic, id) in a.subs <==> id in s.topics[m.topic];
  }

  lemma AccountGains(r: State, s: State, id: Id, sent: seq<Message>, queued: seq<Message>)
    requires Gains(r, s, id, sent, queued) && (sent == [] || (queued == [] && Queue(s.holder, id) == []))
    ensures Account(r, id) == Account(s, id) + (sent + queued)
  {
    hide Inbox, Queue;
  }

  lemma PublishRefines(s: State, a: Table, m: Message, id: Id)
    requires Inv(s) && Refines(s, a)
    ensures Refines(Published(s, m), a)
    ensures Account(Published(s, m), id) == Account(s, id) + Due(a, id, Publish(m))
  {
    if m.topic in s.topics {
      hide Due, Share, Queue, Inbox, Inv, SubsAgree, FannedOut, Reach, Account;
      var subscribers := s.topics[m.topic];
      CopiesReach(s, m.topic);
      FanOutShares(s, subscribers, m, id);
      OwedIsShared(s, a, m, id);
      AccountGains(Published(s, m), s, id, Share(subscribers, id, m, true), Share(subscribers, id, m, false));
    } else {
      assert (m.topic, id) !in a.subs;
      hide Inv, On, Inbox;
    }
  }

  lemma ConnectRefines(s: State, a: Table, fd: Fd, id: Id, k: Id)
    requires Inv(s) && Refines(s, a)
    ensures Refines(Connected(s, fd, id), Next(a, Connect(fd, id)))
    ensures Account(Connected(s, fd, id), k) == Account(s, k)
  {
    OnIsOnline(s, a, id);
    BackAgrees(s.topics, a.subs, id, fd);
    hide Inv, On, SubsAgree, AllBack;
  }

  lemma BackAgrees(topics: map<Topic, map<Id, Client>>, subs: map<(Topic, Id), byte>, id: Id, fd: Fd)
    requires SubsAgree(topics, subs)
    ensures SubsAgree(map t | t in topics :: AllBack(topics[t], id, fd), subs)
  {
  }

  lemma ExitRefines(s: State, a: Table, fd: Fd, k: Id)
    requires Inv(s) && Refines(s, a)
    ensures Refines(Exited(s, fd), Next(a, Exit(fd)))
    ensures Account(Exited(s, fd), k) == Account(s, k)
  {
    hide Inv, HolderOf, On, SubsAgree, AllAway, Account;
    AwayAgrees(s.topics, a.subs, fd);
    SameAccount(s, Exited(s, fd), k);
  }

  lemma AwayAgrees(topics: map<Topic, map<Id, Client>>, subs: map<(Topic, Id), byte>, fd: Fd)
    requires SubsAgree(topics, subs)
    ensures SubsAgree(map t | t in topics :: AllAway(topics[t], fd), subs)
  {
  }

  lemma InsertAgrees(topics: map<Topic, map<Id, Client>>, subs: map<(Topic, Id), byte>, topic: Topic, id: Id,
                     record: Client)
    requires SubsAgree(topics, subs)
    ensures SubsAgree(topics[topic := Inserted(Subscribers(topics, topic), id, record)],
                      if (topic, id) in subs then subs else subs[(topic, id) := record.sf])
  {
  }

  lemma SubscribeRefines(s: State, a: Table, fd: Fd, topic: Topic, sf: byte, k: Id)
    requires Inv(s) && Refines(s, a) && fd in s.peer
    ensures Refines(Subscribed(s, fd, topic, sf), Next(a, Subscribe(fd, topic, sf)))
    ensures Account(Subscribed(s, fd, topic, sf), k) == Account(s, k)
  {
    HolderIsPeer(s, fd);
    hide Inv, HolderOf, On, SubsAgree, Inserted, Subscribers;
    InsertAgrees(s.topics, a.subs, topic, s.peer[fd], s.clients[s.peer[fd]].(sf := sf));
  }

  /** In a topic, too, the first record on an open descriptor is its owner's, if it is there. */
  lemma SubscriberIsPeer(s: State, fd: Fd, topic: Topic)
    requires Inv(s) && fd in s.peer
    ensures var subscribers := Subscribers(s.topics, topic);
            HolderOf(subscribers, fd) == if s.peer[fd] in subscribers then Some(s.peer[fd]) else None
  {
    var subscribers := Subscribers(s.topics, topic);
    forall o | o in subscribers
      ensures o in s.clients && subscribers[o].fd == s.clients[o].fd
    {
      assert topic in s.topics && o in s.topics[topic];
    }
    if s.peer[fd] in subscribers { FirstHolder(subscribers, s.peer[fd]); }
  }

  lemma RemoveAgrees(topics: map<Topic, map<Id, Client>>, subs: map<(Topic, Id), byte>, topic: Topic, id: Id)
    requires SubsAgree(topics, subs)
    ensures SubsAgree(topics[topic := Subscribers(topics, topic) - {id}], subs - {(topic, id)})
  {
  }

  lemma UnsubscribeRefines(s: State, a: Table, fd: Fd, topic: Topic, k: Id)
    requires Inv(s) && Refines(s, a) && fd in s.peer
    ensures Refines(Unsubscribed(s, fd, topic), Next(a, Unsubscribe(fd, topic)))
    ensures Account(Unsubscribed(s, fd, topic), k) == Account(s, k)
  {
    var subscribers, id := Subscribers(s.topics, topic), s.peer[fd];
    SubscriberIsPeer(s, fd, topic);
    hide Inv, HolderOf, On, SubsAgree, Subscribers, Account;
    RemoveAgrees(s.topics, a.subs, topic, id);
    assert id !in subscribers ==> subscribers - {id} == subscribers;
    SameAccount(s, Unsubscribed(s, fd, topic), k);
  }

  lemma SameAccount(s: State, r: State, k: Id)
    requires s.received == r.received && s.holder == r.holder
    ensures Account(r, k) == Account(s, k)
  {
  }

  lemma StepRefines(s: State, a: Table, e: Event, id: Id)
    requires Inv(s) && Possible(s, e) && Refines(s, a)
    ensures Refines(Step(s, e), Next(a, e))
    ensures Account(Step(s, e), id) == Account(s, id) + Due(a, id, e)
  {
    hide Inv, Published, Connected, Exited, Subscribed, Unsubscribed, Refines, Account, Owed;
    match e
    case Publish(m) => PublishRefines(s, a, m, id);
    case Connect(fd, k) => ConnectRefines(s, a, fd, k, id);
    case Exit(fd) => ExitRefines(s, a, fd, id);
    case Subscribe(fd, topic, sf) => SubscribeRefines(s, a, fd, topic, sf, id);
    case Unsubscribe(fd, topic) => UnsubscribeRefines(s, a, fd, topic, id);
  }

  // ---- Whole runs ----

  /** After any legal run the copies are in step, the maps refine the reference table, and what
      was sent to a client followed by what waits for it is exactly what it was owed. */
  lemma {:induction false} RunDelivers(events: seq<Event>, id: Id)
    requires Legal(events)
    ensures Inv(Run(events)) && Refines(Run(events), TableOf(events))
    ensures Account(Run(events), id) == Expected(events, id)
  {
    if events == [] {
    } else {
      var before, e := events[..|events| - 1], events[|events| - 1];
      RunDelivers(before, id);
      hide Inv, Step, Refines, Account, Next, Due, Possible, Harmless;
      StepKeepsInv(Run(before), e);
      StepRefines(Run(before), TableOf(before), e, id);
    }
  }

  /** A client on line has been sent everything it is owed; one away has been sent a prefix. */
  lemma NothingWaitsWhileOn(events: seq<Event>, id: Id)
    requires Legal(events)
    ensures Inbox(Run(events), id) <= Expected(events, id)
    ensures On(TableOf(events), id) ==> Inbox(Run(events), id) == Expected(events, id)
  {
    RunDelivers(events, id);
    OnIsOnline(Run(events), TableOf(events), id);
    hide Run, TableOf, Expected, Legal, Refines, On;
    assert Online(Run(events), id) ==> Queue(Run(events).holder, id) == [];
  }

  /** What has been sent is never taken back, and what is owed only grows. */
  lemma {:induction false} SentStaysSent(events: seq<Event>, more: seq<Event>, id: Id)
    requires Legal(events + more)
    ensures Legal(events) && Inbox(Run(events), id) <= Inbox(Run(events + more), id)
  {
    if more == [] {
      assert events + more == events;
    } else {
      var all := events + more;
      var shorter := more[..|more| - 1];
      assert all[..|all| - 1] == events + shorter && all[|all| - 1] == more[|more| - 1];
      assert Legal(events + shorter) && Run(all) == Step(Run(events + shorter), more[|more| - 1]);
      hide *;
      SentStaysSent(events, shorter, id);
      RunDelivers(events + shorter, id);
      StepOnlySends(Run(events + shorter), more[|more| - 1], id);
    }
  }

  lemma StepOnlySends(s: State, e: Event, id: Id)
    requires Inv(s)
    ensures Inbox(s, id) <= Inbox(Step(s, e), id)
  {
    if e.Publish? && e.message.topic in s.topics {
      CopiesReach(s, e.message.topic);
      FanOutShares(s, s.topics[e.message.topic], e.message, id);
    }
  }

  /** Event i takes the client off the topic. */
  predicate Leaves(events: seq<Event>, i: nat, topic: Topic, id: Id)
    requires i < |events|
  {
    var live := TableOf(events[..i]).live;
    events[i].Unsubscribe? && events[i].topic == topic && events[i].fd in live && live[events[i].fd] == id
  }

  /** A subscription keeps the SF of its first subscribe until the client leaves the topic,
      whatever it subscribes with later and however often it comes and goes. */
  lemma FirstSfStays(events: seq<Event>, i: nat, id: Id)
    requires Legal(events) && i < |events| && events[i].Subscribe?
    requires var a := TableOf(events[..i]);
             events[i].fd in a.live && a.live[events[i].fd] == id && (events[i].topic, id) !in a.subs
    requires forall j :: i < j < |events| ==> !Leaves(events, j, events[i].topic, id)
    ensures var s := Run(events);
            && events[i].topic in s.topics && id in s.topics[events[i].topic]
            && s.topics[events[i].topic][id].sf == events[i].sf
  {
    FirstSfInTable(events, i, id);
    RunDelivers(events, id);
    hide Run, TableOf, Inv, Legal, Expected;
  }

  lemma {:induction false} FirstSfInTable(events: seq<Event>, i: nat, id: Id)
    requires i < |events| && events[i].Subscribe?
    requires var a := TableOf(events[..i]);
             events[i].fd in a.live && a.live[events[i].fd] == id && (events[i].topic, id) !in a.subs
    requires forall j :: i < j < |events| ==> !Leaves(events, j, events[i].topic, id)
    ensures var subs := TableOf(events).subs;
            (events[i].topic, id) in subs && subs[(events[i].topic, id)] == events[i].sf
    decreases |events|
  {
    var last := |events| - 1;
    var before := events[..last];
    if i < last {
      assert before[..i] == events[..i] && before[i] == events[i];
      forall j | i < j < last
        ensures !Leaves(before, j, events[i].topic, id)
      {
        assert before[..j] == events[..j] && !Leaves(events, j, events[i].topic, id);
      }
      FirstSfInTable(before, i, id);
      assert !Leaves(events, last, events[i].topic, id);
    }
  }
}
