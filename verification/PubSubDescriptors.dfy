/** Reused descriptors: exactly when a run can still go wrong. */
module PubSubDescriptors {
  import opened Bytes
  import opened PubSub
  import opened PubSubRuns

  predicate AllPossible(events: seq<Event>) {
    events != [] ==> AllPossible(events[..|events| - 1]) && Possible(Run(events[..|events| - 1]), events[|events| - 1])
  }

  ghost predicate Delivers(events: seq<Event>) {
    forall id :: Account(Run(events), id) == Expected(events, id)
  }

  /** However the run goes on, as long as its further connections are harmless, every client's account
      is right at every point. */
  ghost predicate StaysRight(events: seq<Event>) {
    forall more :: LegalSince(events + more, |events|) ==> Delivers(events + more)
  }

  // ---- Longer runs ----

  lemma OneMore(events: seq<Event>, e: Event)
    ensures Run(events + [e]) == Step(Run(events), e)
    ensures TableOf(events + [e]) == Next(TableOf(events), e)
    ensures forall id :: Expected(events + [e], id) == Expected(events, id) + Due(TableOf(events), id, e)
    ensures AllPossible(events + [e]) <==> AllPossible(events) && Possible(Run(events), e)
    ensures forall n :: 0 <= n <= |events| ==>
              (LegalSince(events + [e], n) <==>
                (LegalSince(events, n) && Possible(Run(events), e) && Harmless(Run(events), e)))
  {
    var all := events + [e];
    assert all[..|all| - 1] == events && all[|all| - 1] == e;
    hide Step, Next, Due, Possible, Harmless;
  }

  lemma {:induction false} LegalFurther(events: seq<Event>, n: nat, more: seq<Event>)
    requires n <= |events| && LegalSince(events, n) && LegalSince(events + more, |events|)
    ensures LegalSince(events + more, n)
    decreases |more|
  {
    var all := events + more;
    if more == [] {
      assert all == events;
    } else {
      var shorter := more[..|more| - 1];
      assert all[..|all| - 1] == events + shorter;
      hide Possible, Harmless, Run;
      LegalFurther(events, n, shorter);
    }
  }

  /** A run that can go wrong after one more event could go wrong before it, if that event is possible
      and harmless. */
  lemma WrongEarlier(events: seq<Event>, e: Event)
    requires !StaysRight(events + [e])
    requires Possible(Run(events), e) && Harmless(Run(events), e)
    ensures !StaysRight(events)
  {
    hide Possible, Harmless, Run, Account, Expected;
    var next := events + [e];
    var more :| LegalSince(next + more, |next|) && !Delivers(next + more);
    LegalAfter(events, e);
    LegalFurther(next, |events|, more);
    hide *;
    assert next + more == events + ([e] + more);
    NotRight(events, [e] + more);
  }

  lemma LegalAfter(events: seq<Event>, e: Event)
    requires Possible(Run(events), e) && Harmless(Run(events), e)
    ensures LegalSince(events + [e], |events|)
  {
    OneMore(events, e);
    hide Possible, Harmless, Run;
  }

  lemma NotRight(events: seq<Event>, more: seq<Event>)
    requires LegalSince(events + more, |events|) && !Delivers(events + more)
    ensures !StaysRight(events)
  {
  }

  lemma WrongNow(events: seq<Event>, id: Id)
    requires Account(Run(events), id) != Expected(events, id)
    ensures !StaysRight(events)
  {
    assert events + [] == events;
    assert LegalSince(events + [], |events|);
    assert !Delivers(events + []);
  }

  lemma RightAfterLegal(events: seq<Event>)
    requires Legal(events)
    ensures StaysRight(events)
  {
    forall more | LegalSince(events + more, |events|)
      ensures Delivers(events + more)
    {
      LegalFurther(events, 0, more);
      forall id
        ensures Account(Run(events + more), id) == Expected(events + more, id)
      {
        RunDelivers(events + more, id);
      }
    }
  }

  // ---- Topics and descriptors nobody uses ----

  lemma {:induction false} LongerThanAll(keys: set<bytes>) returns (n: nat)
    ensures forall k :: k in keys ==> |k| < n
    decreases |keys|
  {
    if keys == {} {
      n := 0;
    } else {
      var k :| k in keys;
      var rest := keys - {k};
      n := LongerThanAll(rest);
      n := if |k| < n then n else |k| + 1;
      assert forall o :: o in keys ==> o == k || o in rest;
    }
  }

  lemma NewTopic(topics: map<Topic, map<Id, Client>>) returns (t: Topic)
    ensures t !in topics
  {
    var n := LongerThanAll(topics.Keys);
    t := seq(n, _ => 0);
    assert |t| == n;
  }

  lemma {:induction false} AboveAll(fds: set<Fd>) returns (n: Fd)
    ensures forall fd :: fd in fds ==> fd < n
    decreases |fds|
  {
    n := 0;
    if fd :| fd in fds {
      var rest := fds - {fd};
      n := AboveAll(rest);
      n := if fd < n then n else fd + 1;
      assert forall o :: o in fds ==> o == fd || o in rest;
    }
  }

  lemma NewDescriptor(s: State) returns (fd: Fd)
    ensures fd !in s.peer && forall id :: id in s.clients ==> s.clients[id].fd != fd
  {
    var held := set id | id in s.clients :: s.clients[id].fd;
    fd := AboveAll(s.peer.Keys + held);
    assert forall id :: id in s.clients ==> s.clients[id].fd in held;
  }

  // ---- A subscription lost to a stale record ----

  /** The server has come apart from the reference only in its topics, and the accounts are right. */
  ghost predicate AccountsRight(events: seq<Event>) {
    var s := Run(events);
    Core(s) && s.peer == TableOf(events).live && Delivers(events)
  }

  lemma QuietStep(events: seq<Event>, e: Event)
    requires Delivers(events) && !e.Publish?
    ensures Delivers(events + [e])
  {
    OneMore(events, e);
    forall id
      ensures Account(Run(events + [e]), id) == Expected(events + [e], id)
    {
      assert Due(TableOf(events), id, e) == [];
      QuietAccount(Run(events), e, id);
    }
  }

  lemma QuietAccount(s: State, e: Event, id: Id)
    requires !e.Publish?
    ensures Account(Step(s, e), id) == Account(s, id)
  {
    hide HolderOf, AllBack, AllAway;
  }

  lemma OnIsOnlineHere(s: State, a: Table, id: Id)
    requires Core(s) && s.peer == a.live
    ensures On(a, id) <==> Online(s, id)
  {
    if Online(s, id) { assert s.peer[s.clients[id].fd] == id; }
  }

  /** A client that subscribed, but is missing among the subscribers, comes back and misses a message. */
  lemma LostSubscriber(events: seq<Event>, t: Topic, o: Id)
    requires AccountsRight(events)
    requires (t, o) in TableOf(events).subs
    requires var s := Run(events); t in s.topics && o !in s.topics[t] && o in s.clients && !s.clients[o].connected
    ensures !StaysRight(events)
  {
    var s, a := Run(events), TableOf(events);
    var fd := NewDescriptor(s);
    var back, m := Connect(fd, o), Message([], 0, t, 0, []);
    var next := events + [back];
    OneMore(events, back);
    QuietStep(events, back);
    OnIsOnlineHere(s, a, o);
    ConnectKeepsCore(s, fd, o);
    var r := Run(next);
    assert o !in r.topics[t] && t in r.topics;
    assert On(TableOf(next), o) by { assert TableOf(next).live[fd] == o; }
    assert Due(TableOf(next), o, Publish(m)) == [m];
    MissesOut(next, t, o, m);
    assert Harmless(s, back) && Possible(s, back);
    hide *;
    WrongEarlier(events, back);
  }

  lemma MissesOut(events: seq<Event>, t: Topic, o: Id, m: Message)
    requires Core(Run(events)) && Delivers(events) && m.topic == t
    requires t in Run(events).topics && o !in Run(events).topics[t]
    requires Due(TableOf(events), o, Publish(m)) == [m]
    ensures !StaysRight(events)
  {
    var s, e := Run(events), Publish(m);
    OneMore(events, e);
    NotASubscriber(s, m, o);
    assert Account(Run(events + [e]), o) == Account(s, o) == Expected(events, o);
    WrongNow(events + [e], o);
    HarmlessUnlessConnect(s, e);
    assert Possible(s, e);
    hide *;
    WrongEarlier(events, e);
  }

  lemma NotASubscriber(s: State, m: Message, o: Id)
    requires Core(s) && m.topic in s.topics && o !in s.topics[m.topic]
    ensures Account(Published(s, m), o) == Account(s, o)
  {
    CopiesReach(s, m.topic);
    FanOutShares(s, s.topics[m.topic], m, o);
    hide FannedOut, Core, Reach;
  }

  lemma HarmlessUnlessConnect(s: State, e: Event)
    requires !e.Connect?
    ensures Harmless(s, e)
  {
  }

  // ---- The condition ----

  /** The record found on an open descriptor is stale when one sorts before the owner's. */
  lemma FirstIsStale(s: State, fd: Fd, id: Id, other: Id) returns (h: Id)
    requires Core(s) && fd in s.peer && s.peer[fd] == id
    requires other in s.clients && s.clients[other].fd == fd && Less(other, id)
    ensures HolderOf(s.clients, fd) == Some(h) && h in s.clients && h != id
    ensures s.clients[h].id == h && !s.clients[h].connected
  {
    h := HolderOf(s.clients, fd).value;
    FoundFirst(s.clients, fd, other);
    LessIsTotal(other, id);
    hide Less, HolderOf, CopiesInStep, QueuesOnlyWhileAway;
  }

  /** A message to a single subscriber that is away changes no other account. */
  lemma OnlySubscriberAway(s: State, m: Message, h: Id, record: Client, id: Id)
    requires m.topic in s.topics && s.topics[m.topic] == map[h := record]
    requires record.id == h && !record.connected && h != id
    ensures Account(Published(s, m), id) == Account(s, id)
  {
    assert h in map[h := record].Keys;
    FirstForwarded(s, map[h := record], m);
    assert map[h := record] - {h} == map[];
    assert Published(s, m) == Forwarded(s, record, m);
  }

  /** A record that sorts before the new owner's takes the owner's next subscription. */
  lemma TakesSubscription(events: seq<Event>, fd: Fd, id: Id, other: Id)
    requires AccountsRight(events) && SubsAgree(Run(events).topics, TableOf(events).subs)
    requires var s := Run(events); fd in s.peer && s.peer[fd] == id
    requires var s := Run(events); other in s.clients && s.clients[other].fd == fd && Less(other, id)
    ensures !StaysRight(events)
  {
    hide Less, SubsAgree, HolderOf, Core, Delivers, Run, TableOf, StaysRight, Expected, Account, Due;
    var s, a := Run(events), TableOf(events);
    var t := NewTopic(s.topics);
    var e, m := Subscribe(fd, t, STORE), Message([], 0, t, 0, []);
    var next := events + [e];
    OneMore(events, e);
    QuietStep(events, e);
    var h := FirstIsStale(s, fd, id, other);
    var r := Run(next);
    assert r == Subscribed(s, fd, t, STORE) && r.topics[t] == map[h := s.clients[h].(sf := STORE)];
    OwedAfterSubscribing(s, a, fd, id, t, m);
    OnlySubscriberAway(r, m, h, s.clients[h].(sf := STORE), id);
    OneMore(next, Publish(m));
    AccountOf(next, id);
    WrongNow(next + [Publish(m)], id);
    HarmlessUnlessConnect(r, Publish(m));
    HarmlessUnlessConnect(s, e);
    assert Possible(r, Publish(m)) && Possible(s, e);
    hide *;
    WrongEarlier(next, Publish(m));
    WrongEarlier(events, e);
  }

  lemma AccountOf(events: seq<Event>, id: Id)
    requires Delivers(events)
    ensures Account(Run(events), id) == Expected(events, id)
  {
  }

  lemma OwedAfterSubscribing(s: State, a: Table, fd: Fd, id: Id, t: Topic, m: Message)
    requires s.peer == a.live && SubsAgree(s.topics, a.subs)
    requires fd in s.peer && s.peer[fd] == id && t !in s.topics && m.topic == t
    ensures Due(Next(a, Subscribe(fd, t, STORE)), id, Publish(m)) == [m]
  {
    assert (t, id) !in a.subs;
    var b := Next(a, Subscribe(fd, t, STORE));
    assert b.live[fd] == id;
  }

  lemma FoundFirst(m: map<Id, Client>, fd: Fd, k: Id)
    requires k in m && m[k].fd == fd
    ensures HolderOf(m, fd).Some? && AtMost(HolderOf(m, fd).value, k)
  {
    var holders := set id | id in m && m[id].fd == fd;
    assert k in holders;
    hide Less;
  }

  /** An unsubscription takes the first subscription on the descriptor, whoever's it is. */
  lemma TakenOff(events: seq<Event>, fd: Fd, t: Topic, o: Id)
    requires AccountsRight(events) && SubsAgree(Run(events).topics, TableOf(events).subs)
    requires fd in Run(events).peer && t in Run(events).topics
    requires HolderOf(Run(events).topics[t], fd) == Some(o) && o != Run(events).peer[fd]
    ensures !StaysRight(events)
  {
    var s, a, e := Run(events), TableOf(events), Unsubscribe(fd, t);
    OneMore(events, e);
    QuietStep(events, e);
    UnsubscribeKeepsCore(s, fd, t);
    HarmlessUnlessConnect(s, e);
    assert (t, o) in a.subs;
    assert s.topics[t][o].fd == s.clients[o].fd == fd;
    hide HolderOf, SubsAgree;
    LostSubscriber(events + [e], t, o);
    WrongEarlier(events, e);
  }

  /** If the new owner sorts first, its own subscription to the topic has to go before. */
  lemma TakesUnsubscription(events: seq<Event>, fd: Fd, id: Id, t: Topic, other: Id)
    requires AccountsRight(events) && SubsAgree(Run(events).topics, TableOf(events).subs)
    requires var s := Run(events); fd in s.peer && s.peer[fd] == id && t in s.topics
    requires var s := Run(events);
             other in s.topics[t] && other != id && other in s.clients && s.clients[other].fd == fd
    requires var s := Run(events);
             forall k :: k in s.clients && k != id && s.clients[k].fd == fd ==> Less(id, k)
    ensures !StaysRight(events)
  {
    var s, a, e := Run(events), TableOf(events), Unsubscribe(fd, t);
    assert forall k :: k in s.topics[t] ==> k in s.clients && s.topics[t][k].fd == s.clients[k].fd;
    FoundFirst(s.topics[t], fd, other);
    if id in s.topics[t] {
      OwnGone(events, fd, id, t);
      FoundFirst(s.topics[t] - {id}, fd, other);
      HarmlessUnlessConnect(s, e);
      assert Possible(s, e);
      hide Less, SubsAgree, HolderOf, Core, Run, StaysRight, Delivers;
      TakenOff(events + [e], fd, t, HolderOf(s.topics[t] - {id}, fd).value);
      WrongEarlier(events, e);
    } else {
      TakenOff(events, fd, t, HolderOf(s.topics[t], fd).value);
    }
  }

  /** After the owner's own unsubscription the reference agrees again. */
  lemma OwnGone(events: seq<Event>, fd: Fd, id: Id, t: Topic)
    requires AccountsRight(events) && SubsAgree(Run(events).topics, TableOf(events).subs)
    requires var s := Run(events); fd in s.peer && s.peer[fd] == id && t in s.topics && id in s.topics[t]
    requires var s := Run(events);
             forall k :: k in s.clients && k != id && s.clients[k].fd == fd ==> Less(id, k)
    ensures var next := events + [Unsubscribe(fd, t)];
            && AccountsRight(next) && SubsAgree(Run(next).topics, TableOf(next).subs)
            && Run(next) == Run(events).(topics := Run(events).topics[t := Run(events).topics[t] - {id}])
  {
    hide Less, SubsAgree, HolderOf, Core, Unsubscribed, Delivers, Run, TableOf;
    var s, a, e := Run(events), TableOf(events), Unsubscribe(fd, t);
    OneMore(events, e);
    QuietStep(events, e);
    OwnFirst(s, fd, id, t);
    UnsubscribeKeepsCore(s, fd, t);
    RemoveAgrees(s.topics, a.subs, t, id);
  }

  /** The owner's own subscription is found first when no record on its descriptor sorts before its own. */
  lemma OwnFirst(s: State, fd: Fd, id: Id, t: Topic)
    requires Core(s) && fd in s.peer && s.peer[fd] == id && t in s.topics && id in s.topics[t]
    requires forall k :: k in s.clients && k != id && s.clients[k].fd == fd ==> Less(id, k)
    ensures Unsubscribed(s, fd, t) == s.(topics := s.topics[t := s.topics[t] - {id}])
  {
    assert forall k :: k in s.topics[t] ==> k in s.clients && s.topics[t][k].fd == s.clients[k].fd;
    hide Less;
    FirstHolder(s.topics[t], id);
  }

  /** After any legal run an accepted connection is harmless exactly when no continuation, itself without
      harm, can leave a client with more, less or other messages than it is owed. */
  lemma HarmlessIff(events: seq<Event>, e: Event)
    requires Legal(events) && Possible(Run(events), e)
    ensures Harmless(Run(events), e) <==> StaysRight(events + [e])
  {
    if Harmless(Run(events), e) {
      OneMore(events, e);
      hide Harmless, Possible, StaysRight;
      RightAfterLegal(events + [e]);
    } else {
      HarmGoesWrong(events, e.fd, e.id);
    }
  }

  lemma HarmGoesWrong(events: seq<Event>, fd: Fd, id: Id)
    requires Legal(events) && fd !in Run(events).peer && !Harmless(Run(events), Connect(fd, id))
    ensures !StaysRight(events + [Connect(fd, id)])
  {
    var s, e := Run(events), Connect(fd, id);
    var next := events + [e];
    AfterAccepted(events, fd, id);
    AcceptedOnly(s, fd, id);
    var r := Run(next);
    hide Less, Idle, Connected, Run, Core, SubsAgree, StaysRight, AccountsRight;
    if other :| other in s.clients && other != id && s.clients[other].fd == fd && !Less(id, other) {
      LessIsTotal(other, id);
      TakesSubscription(next, fd, id, other);
    } else {
      var other :| other in s.clients && other != id && s.clients[other].fd == fd && !Idle(s, other);
      assert !Idle(r, other);
      var t := TopicOf(r, other);
      TakesUnsubscription(next, fd, id, t, other);
    }
  }

  lemma TopicOf(s: State, k: Id) returns (t: Topic)
    requires !Idle(s, k)
    ensures t in s.topics && k in s.topics[t]
  {
    t :| t in s.topics && k in s.topics[t];
  }

  lemma RightNow(events: seq<Event>)
    requires Legal(events)
    ensures Inv(Run(events)) && Refines(Run(events), TableOf(events)) && Delivers(events)
  {
    RunDelivers(events, []);
    forall k
      ensures Account(Run(events), k) == Expected(events, k)
    {
      RunDelivers(events, k);
    }
  }

  lemma AfterAccepted(events: seq<Event>, fd: Fd, id: Id)
    requires Legal(events) && fd !in Run(events).peer && !Online(Run(events), id)
    ensures var s, r := Run(events), Run(events + [Connect(fd, id)]);
            && r == Connected(s, fd, id)
            && AccountsRight(events + [Connect(fd, id)])
            && SubsAgree(r.topics, TableOf(events + [Connect(fd, id)]).subs)
  {
    var s, a, e := Run(events), TableOf(events), Connect(fd, id);
    RightNow(events);
    OneMore(events, e);
    QuietStep(events, e);
    ConnectKeepsCore(s, fd, id);
    ConnectRefines(s, a, fd, id, id);
    hide Core, SubsAgree, Run, Connected, Delivers, Next;
  }

  /** At no point of the run could a continuation without harm go wrong. */
  ghost predicate StayedRight(events: seq<Event>) {
    StaysRight(events) && (events != [] ==> StayedRight(events[..|events| - 1]))
  }

  /** Over any run the network can produce, all accepted connections are harmless exactly when at no point
      of the run a continuation without harm could go wrong. */
  lemma {:induction false} LegalIff(events: seq<Event>)
    requires AllPossible(events)
    ensures Legal(events) <==> StayedRight(events)
  {
    if events == [] {
      RightAfterLegal(events);
    } else {
      var before, e := events[..|events| - 1], events[|events| - 1];
      LegalIff(before);
      assert before + [e] == events;
      assert Legal(events) <==> Legal(before) && Possible(Run(before), e) && Harmless(Run(before), e);
      assert StayedRight(events) <==> StaysRight(events) && StayedRight(before);
      assert Possible(Run(before), e);
      hide *;
      if Legal(before) { HarmlessIff(before, e); }
    }
  }

  /** The same runs are those over which the invariant holds all along. */
  lemma {:induction false} InvThroughoutIff(events: seq<Event>)
    requires AllPossible(events)
    ensures InvThroughout(events) <==> Legal(events)
  {
    if events == [] {
    } else {
      var before, e := events[..|events| - 1], events[|events| - 1];
      InvThroughoutIff(before);
      hide Inv, Step, Harmless;
      if InvThroughout(before) {
        assert Inv(Run(before));
        StepKeepsInvIff(Run(before), e);
      }
    }
  }

  ghost predicate InvThroughout(events: seq<Event>) {
    Inv(Run(events)) && (events != [] ==> InvThroughout(events[..|events| - 1]))
  }

  lemma StepKeepsInvIff(s: State, e: Event)
    requires Inv(s) && Possible(s, e)
    ensures Inv(Step(s, e)) <==> Harmless(s, e)
  {
    if e.Connect? {
      ConnectKeepsInvIff(s, e.fd, e.id);
    } else {
      StepKeepsInv(s, e);
    }
  }

  // ---- A concrete run ----

  /** One client leaves, another gets its descriptor, subscribes and is published to. */
  function Takeover(a: Id, b: Id, fd: Fd, m: Message): seq<Event> {
    [Connect(fd, a), Exit(fd), Connect(fd, b), Subscribe(fd, m.topic, STORE), Publish(m)]
  }

  lemma FirstOfTwo(m: map<Id, Client>, a: Id, b: Id, fd: Fd)
    requires m.Keys == {a, b} && m[a].fd == m[b].fd == fd && AtMost(a, b)
    ensures HolderOf(m, fd) == Some(a)
  {
    assert (set id | id in m && m[id].fd == fd) == {a, b};
    LessIsTotal(a, a);
    LeastIs({a, b}, a);
  }

  lemma {:induction false} NothingPublished(events: seq<Event>, id: Id)
    requires forall i :: 0 <= i < |events| ==> !events[i].Publish?
    ensures Expected(events, id) == []
  {
    if events == [] {
    } else {
      NothingPublished(events[..|events| - 1], id);
    }
  }

  lemma TakeoverBefore(a: Id, b: Id, fd: Fd, m: Message)
    requires a != b
    ensures var events := Takeover(a, b, fd, m)[..3];
            && AllPossible(events)
            && Run(events) == State(map[], map[a := Client(a, false, NUL, fd), b := Client(b, true, NUL, fd)],
                                    map[a := [], b := []], map[fd := b], map[])
            && TableOf(events) == Table(map[fd := b], map[])
            && Expected(events, b) == []
  {
    var events := Takeover(a, b, fd, m);
    assert events[..3] == events[..2] + [Connect(fd, b)];
    OneMore(events[..2], Connect(fd, b));
    TakeoverLeaves(a, b, fd, m);
    NothingPublished(events[..3], b);
    hide Run, TableOf, Expected, AllPossible, LegalSince;
  }

  lemma TakeoverLeaves(a: Id, b: Id, fd: Fd, m: Message)
    ensures var events := Takeover(a, b, fd, m)[..2];
            && AllPossible(events)
            && Run(events) == State(map[], map[a := Client(a, false, NUL, fd)], map[a := []], map[], map[])
            && TableOf(events) == Table(map[], map[])
  {
    var events := Takeover(a, b, fd, m);
    assert events[..2] == [] + [Connect(fd, a)] + [Exit(fd)];
    OneMore([], Connect(fd, a));
    OneMore([] + [Connect(fd, a)], Exit(fd));
    assert Run([]) == START && TableOf([]) == Table(map[], map[]) && AllPossible([]);
    FirstHolder(map[a := Client(a, true, NUL, fd)], a);
    hide Run, TableOf, Expected, AllPossible, LegalSince, HolderOf;
  }

  lemma TakeoverSubscribes(a: Id, b: Id, fd: Fd, m: Message) returns (first: Id, record: Client)
    requires a != b
    ensures first == if Less(b, a) then b else a
    ensures record == Client(first, first == b, STORE, fd)
    ensures var events := Takeover(a, b, fd, m)[..4];
            && AllPossible(events)
            && Run(events).topics == map[m.topic := map[first := record]]
            && Run(events).peer == map[fd := b] && Account(Run(events), b) == []
            && TableOf(events) == Table(map[fd := b], map[(m.topic, b) := STORE])
            && Expected(events, b) == []
  {
    var events := Takeover(a, b, fd, m);
    TakeoverBefore(a, b, fd, m);
    assert events[..4] == events[..3] + [Subscribe(fd, m.topic, STORE)];
    OneMore(events[..3], Subscribe(fd, m.topic, STORE));
    NothingPublished(events[..4], b);
    var s := Run(events[..3]);
    LessIsTotal(b, a);
    first := if Less(b, a) then b else a;
    if Less(b, a) { FirstOfTwo(s.clients, b, a, fd); } else { FirstOfTwo(s.clients, a, b, fd); }
    record := s.clients[first].(sf := STORE);
    hide Run, TableOf, Expected, AllPossible, LegalSince, HolderOf, Less, AtMost;
  }

  /** When a descriptor is reused the promise can fail: the subscription goes to whichever of
      the two clients the table lists first, so the message arrives just when that is the one
      actually connected. */
  lemma TakeoverDeliversIff(a: Id, b: Id, fd: Fd, m: Message)
    requires a != b
    ensures AllPossible(Takeover(a, b, fd, m))
    ensures Account(Run(Takeover(a, b, fd, m)), b) == Expected(Takeover(a, b, fd, m), b) <==> Less(b, a)
  {
    var events := Takeover(a, b, fd, m);
    var first, record := TakeoverSubscribes(a, b, fd, m);
    assert events[..5][..4] == events[..4] && events == events[..5];
    assert Owed(TableOf(events[..4]), b, m);
    assert map[first := record] - {first} == map[];
    FirstForwarded(Run(events[..4]), map[first := record], m);
    assert Run(events) == Forwarded(Run(events[..4]), record, m);
  }
}
