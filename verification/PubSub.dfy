/** The publish/subscribe server as a state machine: one step per event its loop handles. */
module PubSub {
  import opened Bytes

  type Id = bytes
  type Topic = bytes
  type Fd = int

  const STORE: byte := 0x31 // keep messages while the client is away

  datatype Message = Message(address: bytes, port: nat, topic: Topic, kind: byte, data: bytes)

  datatype Client = Client(id: Id, connected: bool, sf: byte, fd: Fd)

  /** The server's three maps, and the network around it: which client sits at the far end of
      each open descriptor, and what has been sent to each client so far. */
  datatype State = State(
    topics: map<Topic, map<Id, Client>>,
    clients: map<Id, Client>,
    holder: map<Id, seq<Message>>,
    peer: map<Fd, Id>,
    received: map<Id, seq<Message>>)

  datatype Event =
    | Publish(message: Message)
    | Connect(fd: Fd, id: Id)
    | Exit(fd: Fd)
    | Subscribe(fd: Fd, topic: Topic, sf: byte)
    | Unsubscribe(fd: Fd, topic: Topic)

  const START := State(map[], map[], map[], map[], map[])

  function Queue(holder: map<Id, seq<Message>>, id: Id): seq<Message> {
    if id in holder then holder[id] else []
  }

  // ---- The order in which the maps are walked ----

  /** The order of std::map keys: lexicographic on bytes. */
  predicate Less(a: bytes, b: bytes) {
    b != [] && (a == [] || a[0] < b[0] || (a[0] == b[0] && Less(a[1..], b[1..])))
  }

  /** a is a proper beginning of b, or has the smaller byte where they first differ. */
  lemma {:induction false} LessIff(a: bytes, b: bytes)
    ensures Less(a, b) <==>
              (|a| < |b| && a == b[..|a|]) ||
              (exists k :: 0 <= k < |a| && k < |b| && a[..k] == b[..k] && a[k] < b[k])
    decreases |a|
  {
    if a != [] && b != [] && a[0] == b[0] {
      LessIff(a[1..], b[1..]);
      OneByteOn(a, b);
    } else if a != [] && b != [] && a[0] < b[0] {
      assert a[..0] == b[..0] == [];
    } else if a != [] && b != [] {
      forall k: nat | k <= |a| && k <= |b| ensures a[..k] == b[..k] ==> k == 0 { FirstBytes(a, b, k); }
      assert a[..|a|] == a;
    }
  }

  lemma FirstBytes(a: bytes, b: bytes, k: nat)
    requires a != [] && b != [] && k <= |a| && k <= |b|
    ensures a[..k] == b[..k] && k > 0 ==> a[0] == b[0]
  {
    assert k > 0 ==> a[..k][0] == a[0] && b[..k][0] == b[0];
  }

  /** Behind an equal first byte nothing changes. */
  lemma OneByteOn(a: bytes, b: bytes)
    requires a != [] && b != [] && a[0] == b[0]
    ensures |a| < |b| && a == b[..|a|] <==> |a[1..]| < |b[1..]| && a[1..] == b[1..][..|a[1..]|]
    ensures (exists k :: 0 <= k < |a| && k < |b| && a[..k] == b[..k] && a[k] < b[k]) <==>
              (exists k :: 0 <= k < |a[1..]| && k < |b[1..]| && a[1..][..k] == b[1..][..k] && a[1..][k] < b[1..][k])
  {
    assert a == [a[0]] + a[1..] && b == [b[0]] + b[1..];
    if |a| < |b| {
      assert b[..|a|] == [b[0]] + b[1..][..|a| - 1];
      assert b[..|a|][1..] == b[1..][..|a| - 1];
    }
    if k: nat :| k < |a| && k < |b| && a[..k] == b[..k] && a[k] < b[k] {
      assert a[1..][..k - 1] == a[..k][1..] && b[1..][..k - 1] == b[..k][1..];
      assert a[1..][k - 1] < b[1..][k - 1];
    }
    if k: nat :| k < |a[1..]| && k < |b[1..]| && a[1..][..k] == b[1..][..k] && a[1..][k] < b[1..][k] {
      assert a[..k + 1] == [a[0]] + a[1..][..k] && b[..k + 1] == [b[0]] + b[1..][..k];
      assert a[k + 1] < b[k + 1];
    }
  }

  predicate AtMost(a: bytes, b: bytes) { a == b || Less(a, b) }

  lemma {:induction false} LessIsTotal(a: bytes, b: bytes)
    ensures AtMost(a, b) || Less(b, a)
    ensures !(Less(a, b) && AtMost(b, a))
  {
    if a != [] && b != [] && a[0] == b[0] {
      LessIsTotal(a[1..], b[1..]);
      assert a == [a[0]] + a[1..] && b == [b[0]] + b[1..];
    }
  }

  lemma {:induction false} LessIsTransitive(a: bytes, b: bytes, c: bytes)
    requires AtMost(a, b) && AtMost(b, c)
    ensures AtMost(a, c)
  {
    if a != [] && b != [] && c != [] && a[0] == b[0] == c[0] {
      assert a == [a[0]] + a[1..] && b == [b[0]] + b[1..] && c == [c[0]] + c[1..];
      LessIsTransitive(a[1..], b[1..], c[1..]);
    }
  }

  ghost predicate IsLeast(k: bytes, keys: set<bytes>) {
    k in keys && forall o :: o in keys ==> AtMost(k, o)
  }

  lemma {:induction false} LeastExists(keys: set<bytes>)
    requires keys != {}
    ensures exists k :: IsLeast(k, keys)
    decreases |keys|
  {
    hide Less;
    var some :| some in keys;
    var rest := keys - {some};
    assert forall o :: o in keys && o != some ==> o in rest;
    if rest == {} {
      assert IsLeast(some, keys);
    } else {
      LeastExists(rest);
      var k :| IsLeast(k, rest);
      LessIsTotal(k, some);
      if AtMost(k, some) {
        assert IsLeast(k, keys);
      } else {
        forall o | o in rest
          ensures AtMost(some, o)
        {
          LessIsTransitive(some, k, o);
        }
        assert IsLeast(some, keys);
      }
    }
  }

  /** Where a walk over the keys begins. */
  function Least(keys: set<bytes>): (k: bytes)
    requires keys != {}
    ensures IsLeast(k, keys)
  {
    LeastExists(keys);
    assert exists k :: k in keys && forall o :: o in keys ==> AtMost(k, o) by {
      var k :| IsLeast(k, keys);
    }
    assert forall a, b :: a in keys && b in keys && AtMost(a, b) && AtMost(b, a) ==> a == b by {
      forall a, b | a in keys && b in keys && AtMost(a, b) && AtMost(b, a)
        ensures a == b
      {
        LessIsTotal(a, b);
      }
    }
    var k :| k in keys && forall o :: o in keys ==> AtMost(k, o);
    k
  }

  lemma LeastIs(keys: set<bytes>, k: bytes)
    requires IsLeast(k, keys)
    ensures Least(keys) == k
  {
    LessIsTotal(k, Least(keys));
  }

  /** The first record on the descriptor, whatever its connected flag says. */
  function HolderOf(m: map<Id, Client>, fd: Fd): (r: Option<Id>)
    ensures r.Some? ==> r.value in m && m[r.value].fd == fd
    ensures r.None? ==> forall id :: id in m ==> m[id].fd != fd
    ensures r.Some? ==> forall id :: id in m && m[id].fd == fd && id != r.value ==> Less(r.value, id)
  {
    var holders := set id | id in m && m[id].fd == fd;
    assert forall id :: id in m && m[id].fd == fd ==> id in holders;
    if holders == {} then None else Some(Least(holders))
  }

  /** A record that sorts before every other record on its descriptor is the one found. */
  lemma FirstHolder(m: map<Id, Client>, id: Id)
    requires id in m && forall o :: o in m && o != id && m[o].fd == m[id].fd ==> Less(id, o)
    ensures HolderOf(m, m[id].fd) == Some(id)
  {
    var holder := HolderOf(m, m[id].fd);
    assert holder.Some?;
    var holders := set o | o in m && m[o].fd == m[id].fd;
    hide Less;
    assert IsLeast(id, holders);
    LeastIs(holders, id);
  }

  // ---- One step per event ----

  function Sent(s: State, fd: Fd, m: Message): State {
    if fd !in s.peer then s
    else s.(received := s.received[s.peer[fd] := Queue(s.received, s.peer[fd]) + [m]])
  }

  /** What one subscriber's copied record makes of a published message. */
  function Forwarded(s: State, copy: Client, m: Message): State {
    if copy.connected then Sent(s, copy.fd, m)
    else if copy.sf == STORE then s.(holder := s.holder[copy.id := Queue(s.holder, copy.id) + [m]])
    else s
  }

  function FannedOut(s: State, subscribers: map<Id, Client>, m: Message): State
    decreases |subscribers|
  {
    if subscribers.Keys == {} then s
    else
      var id := Least(subscribers.Keys);
      assert (subscribers - {id}).Keys == subscribers.Keys - {id};
      assert |subscribers - {id}| < |subscribers| by { Shrinks(subscribers, id); }
      FannedOut(Forwarded(s, subscribers[id], m), subscribers - {id}, m)
  }

  lemma Shrinks(subscribers: map<Id, Client>, id: Id)
    requires id in subscribers
    ensures |subscribers - {id}| < |subscribers|
  {
    assert (subscribers - {id}).Keys == subscribers.Keys - {id};
    assert |subscribers - {id}| == |(subscribers - {id}).Keys|;
    assert |subscribers| == |subscribers.Keys|;
  }

  function Back(copy: Client, id: Id, fd: Fd): Client {
    if copy.id == id then copy.(connected := true, fd := fd) else copy
  }

  function Away(copy: Client, fd: Fd): Client {
    if copy.fd == fd then copy.(connected := false) else copy
  }

  function AllBack(subscribers: map<Id, Client>, id: Id, fd: Fd): map<Id, Client> {
    map k | k in subscribers :: Back(subscribers[k], id, fd)
  }

  function AllAway(subscribers: map<Id, Client>, fd: Fd): map<Id, Client> {
    map k | k in subscribers :: Away(subscribers[k], fd)
  }

  /** A topic that is looked up comes into being with no subscribers. */
  function Subscribers(topics: map<Topic, map<Id, Client>>, topic: Topic): map<Id, Client> {
    if topic in topics then topics[topic] else map[]
  }

  function Published(s: State, m: Message): State {
    if m.topic in s.topics then FannedOut(s, s.topics[m.topic], m)
    else s.(topics := s.topics[m.topic := map[]])
  }

  predicate Online(s: State, id: Id) { id in s.clients && s.clients[id].connected }

  function Connected(s: State, fd: Fd, id: Id): State {
    if Online(s, id) then s
    else if id in s.clients then
      s.(clients := s.clients[id := s.clients[id].(fd := fd, connected := true)],
         topics := map t | t in s.topics :: AllBack(s.topics[t], id, fd),
         peer := s.peer[fd := id],
         received := s.received[id := Queue(s.received, id) + Queue(s.holder, id)],
         holder := s.holder[id := []])
    else
      s.(clients := s.clients[id := Client(id, true, NUL, fd)],
         holder := s.holder[id := Queue(s.holder, id)],
         peer := s.peer[fd := id])
  }

  function Exited(s: State, fd: Fd): State {
    var topics := map t | t in s.topics :: AllAway(s.topics[t], fd);
    var left := s.(topics := topics, peer := s.peer - {fd});
    match HolderOf(s.clients, fd)
    case None => left
    case Some(id) => left.(clients := s.clients[id := s.clients[id].(connected := false)])
  }

  /** Inserting under a key that is already there changes nothing. */
  function Inserted(subscribers: map<Id, Client>, id: Id, record: Client): map<Id, Client> {
    if id in subscribers then subscribers else subscribers[id := record]
  }

  function Subscribed(s: State, fd: Fd, topic: Topic, sf: byte): State {
    var subscribers := Subscribers(s.topics, topic);
    match HolderOf(s.clients, fd)
    case None => s.(topics := s.topics[topic := subscribers])
    case Some(id) =>
      var record := s.clients[id].(sf := sf);
      s.(clients := s.clients[id := record], topics := s.topics[topic := Inserted(subscribers, id, record)])
  }

  function Unsubscribed(s: State, fd: Fd, topic: Topic): State {
    var subscribers := Subscribers(s.topics, topic);
    match HolderOf(subscribers, fd)
    case None => s.(topics := s.topics[topic := subscribers])
    case Some(id) => s.(topics := s.topics[topic := subscribers - {id}])
  }

  function Step(s: State, e: Event): State {
    match e
    case Publish(m) => Published(s, m)
    case Connect(fd, id) => Connected(s, fd, id)
    case Exit(fd) => Exited(s, fd)
    case Subscribe(fd, topic, sf) => Subscribed(s, fd, topic, sf)
    case Unsubscribe(fd, topic) => Unsubscribed(s, fd, topic)
  }

  function Run(events: seq<Event>): State {
    if events == [] then START
    else Step(Run(events[..|events| - 1]), events[|events| - 1])
  }
}
