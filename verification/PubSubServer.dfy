/** The server's event handlers, updating its three maps in place. */
module PubSubServer {
  import opened Bytes
  import opened PubSub
  import R = PubSubRuns

  class Server {
    var topics: map<Topic, map<Id, Client>>
    var clients: map<Id, Client>
    var holder: map<Id, seq<Message>>
    ghost var peer: map<Fd, Id>
    ghost var received: map<Id, seq<Message>>
    ghost var history: seq<Event>

    ghost function Now(): State
      reads this
    {
      State(topics, clients, holder, peer, received)
    }

    /** The server is where its history has brought it. */
    ghost predicate Valid()
      reads this
    {
      Now() == Run(history)
    }

    constructor ()
      ensures Valid() && history == []
    {
      topics, clients, holder := map[], map[], map[];
      peer, received, history := map[], map[], [];
    }

    ghost method Record(before: State, e: Event)
      requires before == Run(history) && Now() == Step(before, e)
      modifies this`history
      ensures history == old(history) + [e] && Valid()
    {
      history := history + [e];
      assert history[..|history| - 1] == old(history);
    }

    method Send(fd: Fd, m: Message)
      modifies this`received
      ensures Now() == Sent(old(Now()), fd, m)
    {
      if fd in peer {
        received := received[peer[fd] := Queue(received, peer[fd]) + [m]];
      }
    }

    method FindHolder(records: map<Id, Client>, fd: Fd) returns (r: Option<Id>)
      ensures r == HolderOf(records, fd)
    {
      var rest := records.Keys;
      ghost var holders := set id | id in records && records[id].fd == fd;
      while rest != {}
        invariant rest <= records.Keys && holders <= rest
      {
        var id := Least(rest);
        if records[id].fd == fd {
          LeastIs(holders, id);
          return Some(id);
        }
        rest := rest - {id};
      }
      return None;
    }

    method HandlePublish(m: Message)
      requires Valid()
      modifies this
      ensures Valid() && history == old(history) + [Publish(m)]
    {
      hide Run;
      ghost var before := Now();
      if m.topic in topics {
        var rest := topics[m.topic];
        while rest.Keys != {}
          invariant FannedOut(Now(), rest, m) == FannedOut(before, before.topics[m.topic], m)
          invariant history == old(history)
          decreases |rest|
        {
          var id := Least(rest.Keys);
          var copy := rest[id];
          if copy.connected {
            Send(copy.fd, m);
          } else if copy.sf == STORE {
            holder := holder[copy.id := Queue(holder, copy.id) + [m]];
          }
          Shrinks(rest, id);
          rest := rest - {id};
        }
      } else {
        topics := topics[m.topic := map[]];
      }
      Record(before, Publish(m));
    }

    /** The nested walk over every topic's subscribers after a client comes back. */
    method BringBack(id: Id, fd: Fd)
      modifies this`topics
      ensures topics == map t | t in old(topics) :: AllBack(old(topics)[t], id, fd)
    {
      ghost var was := topics;
      var rest := topics.Keys;
      while rest != {}
        invariant rest <= was.Keys == topics.Keys
        invariant forall t :: t in rest ==> topics[t] == was[t]
        invariant forall t :: t in was.Keys - rest ==> topics[t] == AllBack(was[t], id, fd)
      {
        var t := Least(rest);
        var subscribers := topics[t];
        var keys := subscribers.Keys;
        while keys != {}
          invariant keys <= was[t].Keys == subscribers.Keys
          invariant forall k :: k in keys ==> subscribers[k] == was[t][k]
          invariant forall k :: k in was[t].Keys - keys ==> subscribers[k] == Back(was[t][k], id, fd)
        {
          var k := Least(keys);
          if subscribers[k].id == id {
            subscribers := subscribers[k := subscribers[k].(connected := true, fd := fd)];
          }
          keys := keys - {k};
        }
        assert subscribers == AllBack(was[t], id, fd);
        topics := topics[t := subscribers];
        rest := rest - {t};
      }
    }

    /** The same walk after a client leaves. */
    method SendAway(fd: Fd)
      modifies this`topics
      ensures topics == map t | t in old(topics) :: AllAway(old(topics)[t], fd)
    {
      ghost var was := topics;
      var rest := topics.Keys;
      while rest != {}
        invariant rest <= was.Keys == topics.Keys
        invariant forall t :: t in rest ==> topics[t] == was[t]
        invariant forall t :: t in was.Keys - rest ==> topics[t] == AllAway(was[t], fd)
      {
        var t := Least(rest);
        var subscribers := topics[t];
        var keys := subscribers.Keys;
        while keys != {}
          invariant keys <= was[t].Keys == subscribers.Keys
          invariant forall k :: k in keys ==> subscribers[k] == was[t][k]
          invariant forall k :: k in was[t].Keys - keys ==> subscribers[k] == Away(was[t][k], fd)
        {
          var k := Least(keys);
          if subscribers[k].fd == fd {
            subscribers := subscribers[k := subscribers[k].(connected := false)];
          }
          keys := keys - {k};
        }
        assert subscribers == AllAway(was[t], fd);
        topics := topics[t := subscribers];
        rest := rest - {t};
      }
    }

    /** Sends what waited for a client, oldest first. */
    method Flush(id: Id, fd: Fd)
      requires fd in peer && peer[fd] == id && id in holder
      modifies this`holder, this`received
      ensures holder == old(holder)[id := []]
      ensures received == old(received)[id := Queue(old(received), id) + old(holder)[id]]
    {
      ghost var sent: seq<Message> := [];
      ghost var inbox := Queue(received, id);
      received := received[id := inbox];
      assert inbox + sent == inbox;
      while holder[id] != []
        invariant id in holder && holder == old(holder)[id := holder[id]]
        invariant sent + holder[id] == old(holder)[id]
        invariant received == old(received)[id := inbox + sent]
        decreases |holder[id]|
      {
        var m := holder[id][0];
        Send(fd, m);
        assert inbox + sent + [m] == inbox + (sent + [m]);
        sent := sent + [m];
        holder := holder[id := holder[id][1..]];
      }
      assert sent == old(holder)[id];
    }

    /** A client that was here before and is away comes back on a new descriptor. */
    method Reconnect(fd: Fd, id: Id)
      requires id in clients && !clients[id].connected
      modifies this`clients, this`topics, this`holder, this`peer, this`received
      ensures Now() == Connected(old(Now()), fd, id)
    {
      hide AllBack, HolderOf, FannedOut, Less;
      peer := peer[fd := id];
      clients := clients[id := clients[id].(fd := fd)];
      clients := clients[id := clients[id].(connected := true)];
      assert clients == old(clients)[id := old(clients)[id].(fd := fd, connected := true)];
      BringBack(id, fd);
      holder := holder[id := Queue(holder, id)];
      Flush(id, fd);
    }

    method HandleConnect(fd: Fd, id: Id)
      requires Valid()
      modifies this
      ensures Valid() && history == old(history) + [Connect(fd, id)]
    {
      hide Run;
      ghost var before := Now();
      if id in clients {
        if !clients[id].connected {
          Reconnect(fd, id);
        }
      } else {
        peer := peer[fd := id];
        holder := holder[id := Queue(holder, id)];
        clients := clients[id := Client(id, true, NUL, fd)];
      }
      Record(before, Connect(fd, id));
    }

    method HandleExit(fd: Fd)
      requires Valid()
      modifies this
      ensures Valid() && history == old(history) + [Exit(fd)]
    {
      hide Run;
      ghost var before := Now();
      peer := peer - {fd};
      var found := FindHolder(clients, fd);
      if found.Some? {
        clients := clients[found.value := clients[found.value].(connected := false)];
      }
      SendAway(fd);
      Record(before, Exit(fd));
    }

    /** Stores the SF in the client's record and copies the record into the topic. */
    method Enrol(id: Id, topic: Topic, sf: byte)
      requires id in clients && topic in topics
      modifies this`clients, this`topics
      ensures clients == old(clients)[id := old(clients)[id].(sf := sf)]
      ensures topics == old(topics)[topic := Inserted(old(topics)[topic], id, old(clients)[id].(sf := sf))]
    {
      clients := clients[id := clients[id].(sf := sf)];
      if id !in topics[topic] {
        topics := topics[topic := topics[topic][id := clients[id]]];
      }
    }

    method HandleSubscribe(fd: Fd, topic: Topic, sf: byte)
      requires Valid()
      modifies this
      ensures Valid() && history == old(history) + [Subscribe(fd, topic, sf)]
    {
      hide Run, Published, Connected, Exited, Unsubscribed, HolderOf, Inserted, Less;
      ghost var before := Now();
      if topic !in topics {
        topics := topics[topic := map[]];
      }
      assert topics == before.topics[topic := Subscribers(before.topics, topic)];
      var found := FindHolder(clients, fd);
      if found.Some? {
        Enrol(found.value, topic, sf);
      }
      assert Now() == Subscribed(before, fd, topic, sf);
      Record(before, Subscribe(fd, topic, sf));
    }

    method HandleUnsubscribe(fd: Fd, topic: Topic)
      requires Valid()
      modifies this
      ensures Valid() && history == old(history) + [Unsubscribe(fd, topic)]
    {
      hide Run;
      ghost var before := Now();
      if topic !in topics {
        topics := topics[topic := map[]];
      }
      var found := FindHolder(topics[topic], fd);
      if found.Some? {
        topics := topics[topic := topics[topic] - {found.value}];
      }
      assert topics == Unsubscribed(before, fd, topic).topics;
      Record(before, Unsubscribe(fd, topic));
    }

    /** The event loop: each event in turn goes to its handler. After a legal history every client has
        been sent, or has waiting, exactly what it is owed. */
    method Serve(events: seq<Event>)
      requires Valid()
      modifies this
      ensures Valid() && history == old(history) + events
      ensures R.Legal(history) ==> R.Inv(Now()) && R.Refines(Now(), R.TableOf(history))
      ensures R.Legal(history) ==> forall id :: R.Account(Now(), id) == R.Expected(history, id)
    {
      hide *;
      HandleAll(events);
      if R.Legal(history) {
        IsRun();
        R.RunDelivers(history, []);
        forall id
          ensures R.Account(Now(), id) == R.Expected(history, id)
        {
          R.RunDelivers(history, id);
        }
      }
    }

    lemma IsRun()
      requires Valid()
      ensures Now() == Run(history)
    {
    }

    method HandleAll(events: seq<Event>)
      requires Valid()
      modifies this
      ensures Valid() && history == old(history) + events
    {
      hide *;
      for i := 0 to |events|
        invariant Valid() && history == old(history) + events[..i]
      {
        assert old(history) + events[..i] + [events[i]] == old(history) + events[..i + 1];
        match events[i]
        case Publish(m) => HandlePublish(m);
        case Connect(fd, id) => HandleConnect(fd, id);
        case Exit(fd) => HandleExit(fd);
        case Subscribe(fd, topic, sf) => HandleSubscribe(fd, topic, sf);
        case Unsubscribe(fd, topic) => HandleUnsubscribe(fd, topic);
      }
      assert events[..|events|] == events;
    }
  }
}
