/** The forwarding step of the router, chains of such steps, and the ICMP packets it builds. */
module Router {
  import opened Bytes
  import opened Checksum

  const ETHER_HEADER: nat := 14
  const IP_HEADER: nat := 20
  const ICMP_HEADER: nat := 8
  const TTL: nat := 8
  const PROTOCOL: nat := 9
  const CHECK: nat := 10
  const DESTINATION: nat := 16
  const MAX_LEN: nat := 1600

  /** The IP header begins 18 bytes into the packet struct: a length and the Ethernet header come first. */
  const HEADER_ALIGNMENT: nat := (4 + ETHER_HEADER) % 4

  type Header = h: bytes | |h| == IP_HEADER witness seq(20, _ => 0)

  type Packet = p: bytes | |p| == MAX_LEN witness seq(MAX_LEN, _ => 0)

  /** Four address bytes as they lie in memory. */
  type Address = a: bytes | |a| == 4 witness [0, 0, 0, 0]

  datatype Action = EchoReply | TimeExceeded | Dropped | Unreachable | Forwarded

  /** A header whose checksum field is right. */
  predicate Verifies(h: Header) {
    IpCheck(h) == 0
  }

  /** TTL one less, checksum field zeroed and written anew. */
  function Rewritten(h: Header): Header
    requires h[TTL] > 0
  {
    var zeroed := h[TTL := h[TTL] - 1][CHECK := 0][CHECK + 1 := 0];
    Stored(zeroed, CHECK, IpCheck(zeroed))
  }

  /** What the router decides for an IP packet, in the order it tests. */
  function Decide(h: Header, echoToRouter: bool, hasRoute: bool): Action {
    if echoToRouter then EchoReply
    else if h[TTL] <= 1 then TimeExceeded
    else if !Verifies(h) then Dropped
    else if !hasRoute then Unreachable
    else Forwarded
  }

  function Destination(h: Header): Address { h[DESTINATION..DESTINATION + 4] }

  function HeaderOf(packet: Packet): Header { packet[ETHER_HEADER..ETHER_HEADER + IP_HEADER] }

  /** An ICMP echo request, type 8 and code 0, sent to this address. */
  predicate EchoTo(packet: Packet, address: Address) {
    HeaderOf(packet)[PROTOCOL] == 1 && Destination(HeaderOf(packet)) == address &&
    packet[ETHER_HEADER + IP_HEADER] == 8 && packet[ETHER_HEADER + IP_HEADER + 1] == 0
  }

  /** A router as one packet meets it: the address of the interface the packet comes in on, and what the routing
      table answers for a destination. */
  datatype Hop = Hop(address: Address, routes: Address -> bool)

  function ActionOn(packet: Packet, hop: Hop): Action {
    var h := HeaderOf(packet);
    Decide(h, EchoTo(packet, hop.address), hop.routes(Destination(h)))
  }

  /** The packet with its IP header rewritten. */
  function Passed(packet: Packet): Packet
    requires HeaderOf(packet)[TTL] > 0
  {
    packet[..ETHER_HEADER] + Rewritten(HeaderOf(packet)) + packet[ETHER_HEADER + IP_HEADER..]
  }

  // ----- the fields, by their offsets in the packet (RFC 791 and RFC 792 behind an Ethernet header) -----

  function Ttl(packet: Packet): byte { packet[22] }

  function Target(packet: Packet): Address { packet[30..34] }

  predicate Sound(packet: Packet) { Verifies(packet[14..34]) }

  /** Protocol ICMP, to this address, type echo, code 0. */
  predicate IsPing(packet: Packet, address: Address) {
    packet[23] == 1 && Target(packet) == address && packet[34] == 8 && packet[35] == 0
  }

  lemma FieldsAre(packet: Packet, address: Address)
    ensures HeaderOf(packet)[TTL] == Ttl(packet) && Destination(HeaderOf(packet)) == Target(packet)
    ensures Verifies(HeaderOf(packet)) <==> Sound(packet)
    ensures EchoTo(packet, address) <==> IsPing(packet, address)
  {
    hide Verifies;
  }

  /** The IP branch of the receive loop, on the packet buffer itself: address is that of the interface the
      packet came in on, and hasRoute the routing table's answer for a destination. */
  method HandleIp(payload: array<byte>, address: Address, hasRoute: Address -> bool) returns (action: Action)
    requires payload.Length == MAX_LEN
    modifies payload
    ensures action == ActionOn(old(payload[..]), Hop(address, hasRoute))
    ensures action == if IsPing(old(payload[..]), address) then EchoReply
                      else if old(payload[22]) <= 1 then TimeExceeded
                      else if !Verifies(old(payload[14..34])) then Dropped
                      else if !hasRoute(old(payload[30..34])) then Unreachable
                      else Forwarded
    ensures payload[..] == if action.Forwarded? then Passed(old(payload[..])) else old(payload[..])
  {
    hide Verifies, IpCheck, Rewritten;
    var ip := ETHER_HEADER;
    ghost var before: Packet := payload[..];
    ghost var h := HeaderOf(before);
    FieldsAre(before, address);
    assert before[14..34] == payload[14..34] && before[30..34] == payload[30..34] == Destination(h);
    var destination := payload[ip + DESTINATION..ip + DESTINATION + 4];
    assert destination == Destination(h) && payload[ip..ip + IP_HEADER] == h;
    if payload[ip + PROTOCOL] == 1 {
      if destination == address {
        if payload[ip + IP_HEADER] == 8 && payload[ip + IP_HEADER + 1] == 0 { return EchoReply; }
      }
    }
    if payload[ip + TTL] <= 1 { return TimeExceeded; }
    var sum := IpChecksum(payload[ip..ip + IP_HEADER], HEADER_ALIGNMENT);
    ChecksIs(h, sum);
    if sum != 0 { return Dropped; }
    if !hasRoute(destination) { return Unreachable; }
    Rewrite(payload);
    return Forwarded;
  }

  lemma ChecksIs(h: Header, sum: Word)
    requires sum == if AllZero(h) then 0 else RfcChecksum(h)
    ensures sum == 0 <==> Verifies(h)
  {
    IpCheckOf(h);
    hide IpCheck, RfcChecksum;
  }

  /** The TTL one less and the checksum computed anew, in place. */
  method Rewrite(payload: array<byte>)
    requires payload.Length == MAX_LEN && payload[ETHER_HEADER + TTL] > 0
    modifies payload
    ensures payload[..] == old(payload[..ETHER_HEADER])
                         + Rewritten(old(payload[ETHER_HEADER..ETHER_HEADER + IP_HEADER]))
                         + old(payload[ETHER_HEADER + IP_HEADER..])
  {
    hide IpCheck;
    var ip := ETHER_HEADER;
    ghost var before, h := payload[..], payload[ip..ip + IP_HEADER];
    assert h[TTL] == payload[ip + TTL];
    payload[ip + TTL] := payload[ip + TTL] - 1;
    payload[ip + CHECK], payload[ip + CHECK + 1] := 0, 0;
    var zeroed := payload[ip..ip + IP_HEADER];
    assert zeroed == h[TTL := h[TTL] - 1][CHECK := 0][CHECK + 1 := 0];
    var check := IpChecksum(zeroed, HEADER_ALIGNMENT);
    assert check == IpCheck(zeroed) by { IpCheckOf(zeroed); }
    payload[ip + CHECK], payload[ip + CHECK + 1] := check / 256, check % 256;
    assert payload[ip..ip + IP_HEADER] == Rewritten(h);
    assert payload[..] == payload[..ip] + payload[ip..ip + IP_HEADER] + payload[ip + IP_HEADER..];
    assert payload[..ip] == before[..ip] && payload[ip + IP_HEADER..] == before[ip + IP_HEADER..];
  }

  /** After the rewrite the header verifies again and differs only in TTL and checksum. */
  lemma RewriteVerifies(h: Header)
    requires h[TTL] > 0
    ensures Verifies(Rewritten(h))
    ensures Rewritten(h)[TTL] == h[TTL] - 1
    ensures forall k :: 0 <= k < IP_HEADER && k != TTL && k != CHECK && k != CHECK + 1 ==> Rewritten(h)[k] == h[k]
  {
    ChecksumVerifies(h[TTL := h[TTL] - 1][CHECK := 0][CHECK + 1 := 0], CHECK);
    hide IpCheck;
  }

  // ----- chains of routers -----

  /** A rewritten packet is sound, and only its TTL and checksum have changed. */
  lemma PassedKeeps(packet: Packet)
    requires Ttl(packet) > 0
    ensures HeaderOf(packet)[TTL] > 0
    ensures var after := Passed(packet);
            && Ttl(after) == Ttl(packet) - 1 && Sound(after) && Target(after) == Target(packet)
            && (forall address :: IsPing(after, address) <==> IsPing(packet, address))
            && (forall k :: 0 <= k < MAX_LEN && k !in {22, 24, 25} ==> after[k] == packet[k])
  {
    hide Verifies, Rewritten;
    var h := HeaderOf(packet);
    RewriteVerifies(h);
    var after := Passed(packet);
    assert after[14..34] == Rewritten(h);
    assert forall k :: 14 <= k < 34 ==> after[k] == Rewritten(h)[k - 14] && packet[k] == h[k - 14];
  }

  /** What became of a packet: the last action, at which router, and the packet as that router has it. */
  datatype Journey = Journey(action: Action, at: nat, packet: Packet)

  /** The routers meet the packet one after another, until one does not forward it. */
  function Travel(packet: Packet, hops: seq<Hop>): Journey
    decreases |hops|
  {
    if hops == [] then Journey(Forwarded, 0, packet)
    else
      var action := ActionOn(packet, hops[0]);
      if action != Forwarded then Journey(action, 0, packet)
      else
        var rest := Travel(Passed(packet), hops[1..]);
        rest.(at := rest.at + 1)
  }

  /** The routers before position i all forward: the packet is no echo request to any of them, they have a route,
      and it arrived sound and with enough TTL. */
  ghost predicate Reaches(packet: Packet, hops: seq<Hop>, i: nat) {
    i <= |hops| && (i > 0 ==> Sound(packet) && Ttl(packet) > i) &&
    forall j :: 0 <= j < i ==> !IsPing(packet, hops[j].address) && hops[j].routes(Target(packet))
  }

  /** A packet that reached position i ends there, and like this. */
  ghost predicate Ends(packet: Packet, hops: seq<Hop>, i: nat, action: Action)
    requires i <= |hops|
  {
    match action
    case Forwarded => i == |hops|
    case EchoReply => i < |hops| && IsPing(packet, hops[i].address)
    case TimeExceeded => i < |hops| && !IsPing(packet, hops[i].address) && Ttl(packet) <= i + 1
    case Dropped => i == 0 < |hops| && !IsPing(packet, hops[0].address) && Ttl(packet) > 1 && !Sound(packet)
    case Unreachable =>
      i < |hops| && !IsPing(packet, hops[i].address) && Ttl(packet) > i + 1 && Sound(packet) &&
      !hops[i].routes(Target(packet))
  }

  lemma FirstAction(packet: Packet, hops: seq<Hop>, action: Action)
    requires hops != []
    ensures ActionOn(packet, hops[0]) == action && action != Forwarded <==> Ends(packet, hops, 0, action)
    ensures ActionOn(packet, hops[0]) == Forwarded <==> Reaches(packet, hops, 1)
  {
    FieldsAre(packet, hops[0].address);
    hide Verifies, Sound, IsPing;
  }

  /** Behind a router that forwards, the rest of the chain decides. */
  lemma Behind(packet: Packet, hops: seq<Hop>, i: nat, action: Action)
    requires hops != [] && Reaches(packet, hops, 1)
    ensures HeaderOf(packet)[TTL] > 0
    ensures Reaches(Passed(packet), hops[1..], i) <==> Reaches(packet, hops, i + 1)
    ensures i < |hops| ==> (Ends(Passed(packet), hops[1..], i, action) <==> Ends(packet, hops, i + 1, action))
  {
    PassedKeeps(packet);
    hide Sound, IsPing, Passed, Target, Ttl;
    assert forall j :: 0 <= j < |hops| - 1 ==> hops[1..][j] == hops[j + 1];
    assert forall j :: 1 <= j < |hops| ==> hops[j] == hops[1..][j - 1];
  }

  /** Exactly where a packet ends and how: an echo request at the first router it is addressed to, whatever its TTL
      and checksum; otherwise with time exceeded where the TTL runs out, or unreachable where there is no
      route, whichever comes first, and time exceeded at a router where both do; a packet that arrives damaged is
      dropped by the first router, unless its TTL has run out there. */
  lemma {:induction false} TravelEndsIff(packet: Packet, hops: seq<Hop>, i: nat, action: Action)
    ensures Travel(packet, hops).at == i && Travel(packet, hops).action == action <==>
              Reaches(packet, hops, i) && Ends(packet, hops, i, action)
    decreases |hops|
  {
    hide *;
    AtFirst(packet, hops, i, action);
    if hops != [] && Reaches(packet, hops, 1) && i > 0 {
      Behind(packet, hops, i - 1, action);
      TravelEndsIff(Passed(packet), hops[1..], i - 1, action);
      InChain(packet, hops, i);
    }
  }

  lemma InChain(packet: Packet, hops: seq<Hop>, i: nat)
    ensures Reaches(packet, hops, i) ==> i <= |hops|
  {
  }

  lemma AtFirst(packet: Packet, hops: seq<Hop>, i: nat, action: Action)
    ensures hops == [] ==>
              (Travel(packet, hops).at == i && Travel(packet, hops).action == action <==>
                 Reaches(packet, hops, i) && Ends(packet, hops, i, action))
    ensures hops != [] && !Reaches(packet, hops, 1) ==>
              Travel(packet, hops).at == 0 &&
              (Travel(packet, hops).action == action <==> Ends(packet, hops, 0, action)) &&
              Reaches(packet, hops, 0) && (i > 0 ==> !Reaches(packet, hops, i))
    ensures hops != [] && Reaches(packet, hops, 1) ==>
              HeaderOf(packet)[TTL] > 0 && !Ends(packet, hops, 0, action) && |hops[1..]| == |hops| - 1 &&
              var rest := Travel(Passed(packet), hops[1..]);
              Travel(packet, hops).at == rest.at + 1 && Travel(packet, hops).action == rest.action &&
              Travel(packet, hops).packet == rest.packet
  {
    if hops != [] {
      FirstAction(packet, hops, action);
      FieldsAre(packet, hops[0].address);
      hide Sound, Verifies, IsPing, Passed;
    }
  }

  /** A packet gets through exactly when it arrived sound, every router had a route, none was asked for an echo, and
      the TTL exceeds the number of routers: no loop in the network can keep it alive longer. */
  lemma TravelsIff(packet: Packet, hops: seq<Hop>)
    requires hops != []
    ensures Travel(packet, hops).action.Forwarded? <==>
              Sound(packet) && Ttl(packet) > |hops| &&
              forall j :: 0 <= j < |hops| ==> !IsPing(packet, hops[j].address) && hops[j].routes(Target(packet))
  {
    hide Travel, Sound, IsPing;
    TravelEndsIff(packet, hops, |hops|, Forwarded);
    TravelEndsIff(packet, hops, Travel(packet, hops).at, Forwarded);
  }

  /** Wherever it ends, a forwarded packet is sound, its TTL is lower by the number of forwards, and only TTL and
      checksum have changed. */
  lemma {:induction false} TravelKeepsHeader(packet: Packet, hops: seq<Hop>)
    ensures var r := Travel(packet, hops);
            && (r.at > 0 ==> Sound(r.packet))
            && Ttl(r.packet) == Ttl(packet) - r.at
            && (forall k :: 0 <= k < MAX_LEN && k !in {22, 24, 25} ==> r.packet[k] == packet[k])
    decreases |hops|
  {
    hide ActionOn, Sound, Passed, IsPing;
    if hops == [] {
    } else {
      FirstAction(packet, hops, Forwarded);
      if Reaches(packet, hops, 1) {
        PassedKeeps(packet);
        TravelKeepsHeader(Passed(packet), hops[1..]);
      }
    }
  }

  // ----- packets the router originates -----

  function FreshIpHeader(saddr: Address, daddr: Address): Header {
    [0x45, 0, 0, 28, 0, 1, 0, 0, 64, 1, 0, 0] + saddr + daddr
  }

  /** The fields of RFC 791 in a header without options: version 4 and five words, no type of service, total length
      28, identification 1, no fragments, TTL 64, protocol ICMP, and the two addresses. */
  predicate IsIcmpHeader(ip: Header, saddr: Address, daddr: Address) {
    && ip[0] == 0x45 && ip[1] == 0
    && Pair(ip[2], ip[3]) == 20 + 8
    && Pair(ip[4], ip[5]) == 1 && Pair(ip[6], ip[7]) == 0
    && ip[8] == 64 && ip[9] == 1
    && ip[12..16] == saddr && ip[16..20] == daddr
  }

  /** The IP header of an originated packet, filled in and then checksummed. */
  method BuildIp(saddr: Address, daddr: Address, alignment: nat) returns (ip: Header)
    requires alignment < 4
    ensures Verifies(ip) && IsIcmpHeader(ip, saddr, daddr)
  {
    hide IpCheck, Stored;
    ip := FreshIpHeader(saddr, daddr);
    var check := IpChecksum(ip, alignment);
    IpCheckOf(ip);
    ChecksumVerifies(ip, CHECK);
    StoredIs(ip, CHECK, check);
    ip := ip[CHECK := check / 256][CHECK + 1 := check % 256];
    assert ip[12..16] == saddr && ip[16..20] == daddr;
  }

  /** The ICMP header, filled in and then checksummed in the byte order of the host. */
  method BuildIcmpHeader(icmpType: byte, code: byte, rest: Address, little: bool) returns (icmp: bytes)
    ensures |icmp| == ICMP_HEADER && icmp[0] == icmpType && icmp[1] == code && icmp[4..] == rest
    ensures IcmpResult(icmp, little) == 0
  {
    hide IcmpResult;
    icmp := [icmpType, code, 0, 0] + rest;
    IcmpVerifies(icmp, 2, little);
    var check := IcmpChecksum(icmp, little);
    var (x, y) := Store16(check, little);
    icmp := icmp[2 := x][3 := y];
  }

  /** The memcpy calls that put the headers behind each other. */
  method Lay(packet: bytes) returns (payload: array<byte>)
    requires |packet| <= MAX_LEN
    ensures fresh(payload) && payload.Length == MAX_LEN && payload[..|packet|] == packet
  {
    payload := new byte[MAX_LEN];
    for len := 0 to |packet|
      invariant payload[..len] == packet[..len]
    {
      payload[len] := packet[len];
    }
  }

  /** send_icmp and send_icmp_error: headers filled first, checksums last. The stack gives the IP header
      some alignment; rest holds the identifier and sequence number, zero for an error. */
  method BuildIcmp(saddr: Address, daddr: Address, icmpType: byte, code: byte, rest: Address,
                   ether: bytes, alignment: nat, little: bool) returns (payload: array<byte>, len: nat)
    requires |ether| == ETHER_HEADER && alignment < 4
    ensures fresh(payload) && payload.Length == MAX_LEN && len == ETHER_HEADER + IP_HEADER + ICMP_HEADER
    ensures payload[..ETHER_HEADER] == ether
    ensures Verifies(payload[ETHER_HEADER..ETHER_HEADER + IP_HEADER])
    ensures IcmpResult(payload[ETHER_HEADER + IP_HEADER..len], little) == 0
    ensures IsIcmpHeader(payload[14..34], saddr, daddr) && len == 14 + Pair(payload[16], payload[17])
    ensures payload[34] == icmpType && payload[35] == code && payload[38..42] == rest
  {
    hide Verifies, IcmpResult;
    var ip := BuildIp(saddr, daddr, alignment);
    var icmp := BuildIcmpHeader(icmpType, code, rest, little);
    payload := Lay(ether + ip + icmp);
    len := ETHER_HEADER + IP_HEADER + ICMP_HEADER;
    PacketParts(ether, ip, icmp);
    assert payload[..ETHER_HEADER] == payload[..len][..ETHER_HEADER];
    assert payload[ETHER_HEADER..ETHER_HEADER + IP_HEADER] == payload[..len][ETHER_HEADER..ETHER_HEADER + IP_HEADER];
    assert payload[ETHER_HEADER + IP_HEADER..len] == payload[..len][ETHER_HEADER + IP_HEADER..];
  }

  lemma PacketParts(ether: bytes, ip: bytes, icmp: bytes)
    requires |ether| == ETHER_HEADER && |ip| == IP_HEADER && |icmp| == ICMP_HEADER
    ensures var packet := ether + ip + icmp;
            && packet[..ETHER_HEADER] == ether
            && packet[ETHER_HEADER..ETHER_HEADER + IP_HEADER] == ip
            && packet[ETHER_HEADER + IP_HEADER..] == icmp
  {
  }

  lemma StoredIs(d: bytes, p: nat, w: Word)
    requires p + 2 <= |d|
    ensures Stored(d, p, w) == d[p := w / 256][p + 1 := w % 256]
  {
  }
}
