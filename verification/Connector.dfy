/**
 The seam between the AX.25 interlinks of a node and its network layer
 (netrom/connector.rs). The circuit layer is seen through the datagrams handed
 to it and the datagrams it asks to send.
 */
module Connector {
  import opened Common
  import opened Callsigns
  import opened Datagrams
  import opened Forwarding

  datatype InterlinkSend = InterlinkSend(neighbour: Callsign, datagram: Bytes)

  function Known(links: seq<Callsign>, n: Callsign): (r: seq<Callsign>)
    ensures links <= r && n in r && forall c :: c in r ==> c == n || c in links
  {
    if n in links then links else links + [n]
  }

  predicate Distinct(links: seq<Callsign>) {
    forall i, j :: 0 <= i < j < |links| ==> links[i] != links[j]
  }

  /** The way to a destination for what this node itself sends: an interlink to it, the
      best route's neighbour, or the destination itself if it is heard directly. */
  function OwnNextHop(links: seq<Callsign>, v: View, dest: Callsign): Option<Callsign> {
    if dest in links then Some(dest)
    else if v.routeTo(dest).Some? then v.routeTo(dest)
    else if v.heard(dest) then Some(dest)
    else None
  }

  /** A datagram goes out if the send buffer holds it. */
  function Send(to: Callsign, p: Packet): seq<InterlinkSend>
    requires p.timeToLive < 256
  {
    match EncodeWithin(p, SEND_BUFFER)
    case None => []
    case Some(b) => [InterlinkSend(to, b)]
  }

  /** What is sent of the datagrams the circuit layer wants sent. */
  function Pumped(links: seq<Callsign>, v: View, packets: seq<Packet>): seq<InterlinkSend>
    requires forall i :: 0 <= i < |packets| ==> Datagrams.Valid(packets[i])
    decreases |packets|
  {
    if packets == [] then []
    else
      var before, last := packets[..|packets| - 1], packets[|packets| - 1];
      var n := OwnNextHop(links, v, last.destination);
      assert Datagrams.Valid(last);
      Pumped(links, v, before) + (if n.Some? then Send(n.value, last) else [])
  }

  /** What is sent of a datagram for somebody else. */
  function Transit(p: Packet, from: Callsign, node: Callsign, v: View, policy: Policy): seq<InterlinkSend>
    requires Datagrams.Valid(p) && policy.maxTimeToLive < 256
  {
    match Decide(p, from, node, v, policy)
    case ForwardTo(n, t) => Send(n, p.(timeToLive := t))
    case _ => []
  }

  /** Which is the relay the network results speak of. */
  lemma TransitIsRelayed(p: Packet, from: Callsign, node: Callsign, v: View, policy: Policy)
    requires Datagrams.Valid(p) && policy.maxTimeToLive < 256
    ensures
      match Relayed(p, from, node, v, policy)
      case None => Transit(p, from, node, v, policy) == []
      case Some((n, q)) => q.timeToLive < 256 && Transit(p, from, node, v, policy) == [InterlinkSend(n, Encode(q))]
  {}

  /** The datagrams for this node among what an interlink brings. */
  function Delivered(info: Bytes, node: Callsign): seq<Packet> {
    match Decode(info)
    case None => []
    case Some(p) => if p.destination == node then [p] else []
  }

  /** The relays of what an interlink brings. */
  function Forwarded(info: Bytes, from: Callsign, node: Callsign, v: View, policy: Policy): seq<InterlinkSend>
    requires policy.maxTimeToLive < 256
  {
    match Decode(info)
    case None => []
    case Some(p) => DecodedIsValid(info); if p.destination == node then [] else Transit(p, from, node, v, policy)
  }

  /** The interlinks after something came in: its sender, and where it is relayed to. */
  function Linked(links: seq<Callsign>, info: Bytes, from: Callsign, node: Callsign, v: View, policy: Policy, forwards: bool): seq<Callsign> {
    var known := Known(links, from);
    match Decode(info)
    case None => known
    case Some(p) =>
      if p.destination == node || !forwards then known
      else
        match Decide(p, from, node, v, policy)
        case ForwardTo(n, _) => Known(known, n)
        case _ => known
  }

  class NetRomConnector {
    const nodeCall: Callsign
    const enabled: bool
    const forwardEnabled: bool
    const mode: ForwardMode
    const maxTimeToLive: nat
    var preferInp3: bool
    var interlinks: seq<Callsign>
    var outbound: seq<InterlinkSend>
    var delivered: seq<Packet>

    ghost predicate Valid()
      reads this
    {
      Callsigns.Valid(nodeCall) && maxTimeToLive < 256 && Distinct(interlinks)
    }

    function CurrentPolicy(): Policy
      reads this
    {
      Policy(maxTimeToLive, mode, preferInp3)
    }

    /** Forwarding needs the service as a whole to be on. */
    constructor (node: Callsign, on: bool, forward: bool, m: ForwardMode, maxTtl: nat)
      requires Callsigns.Valid(node) && maxTtl < 256
      ensures Valid() && nodeCall == node && enabled == on && mode == m && maxTimeToLive == maxTtl
      ensures forwardEnabled <==> on && forward
      ensures !preferInp3 && interlinks == [] && outbound == [] && delivered == []
    {
      nodeCall, enabled, forwardEnabled, mode, maxTimeToLive := node, on, on && forward, m, maxTtl;
      preferInp3 := false;
      interlinks, outbound, delivered := [], [], [];
    }

    method SetPreferInp3Routes(prefer: bool)
      requires Valid()
      modifies this`preferInp3
      ensures Valid() && preferInp3 == prefer
    {
      preferInp3 := prefer;
    }

    method EnsureInterlink(n: Callsign)
      requires Valid()
      modifies this`interlinks
      ensures Valid() && interlinks == Known(old(interlinks), n)
    {
      if n !in interlinks {
        interlinks := interlinks + [n];
      }
    }

    /** A datagram from an interlink: for this node it goes to the circuit layer, for
        another it is relayed if this node forwards, and nothing else happens with it.
        `replies` is what the circuit layer then wants sent. */
    method OnInterlinkData(v: View, from: Callsign, info: Bytes, replies: seq<Packet>)
      requires Valid() && forall i :: 0 <= i < |replies| ==> Datagrams.Valid(replies[i])
      modifies this`interlinks, this`outbound, this`delivered
      ensures Valid()
      ensures !enabled ==> interlinks == old(interlinks) && outbound == old(outbound) && delivered == old(delivered)
      ensures enabled ==>
        && delivered == old(delivered) + Delivered(info, nodeCall)
        && outbound == old(outbound)
            + (if forwardEnabled then Forwarded(info, from, nodeCall, v, CurrentPolicy()) else [])
            + Pumped(interlinks, v, replies)
      ensures enabled ==> interlinks == Linked(old(interlinks), info, from, nodeCall, v, CurrentPolicy(), forwardEnabled)
    {
      if !enabled {
        return;
      }
      EnsureInterlink(from);
      Dispatch(v, from, info);
      PumpOutbound(v, replies);
    }

    /** To the circuit layer, onward, or nowhere. */
    method Dispatch(v: View, from: Callsign, info: Bytes)
      requires Valid()
      modifies this`interlinks, this`outbound, this`delivered
      ensures Valid() && delivered == old(delivered) + Delivered(info, nodeCall)
      ensures outbound == old(outbound) + if forwardEnabled then Forwarded(info, from, nodeCall, v, CurrentPolicy()) else []
      ensures from in old(interlinks) ==>
        interlinks == Linked(old(interlinks), info, from, nodeCall, v, CurrentPolicy(), forwardEnabled)
    {
      var p := Decode(info);
      if p.Some? {
        DecodedIsValid(info);
        if p.value.destination == nodeCall {
          delivered := delivered + [p.value];
        } else if forwardEnabled {
          ForwardDatagram(v, p.value, from);
        }
      }
    }

    method ForwardDatagram(v: View, p: Packet, from: Callsign)
      requires Valid() && Datagrams.Valid(p)
      modifies this`interlinks, this`outbound
      ensures Valid() && outbound == old(outbound) + Transit(p, from, nodeCall, v, CurrentPolicy())
      ensures
        var d := Decide(p, from, nodeCall, v, CurrentPolicy());
        interlinks == if d.ForwardTo? then Known(old(interlinks), d.nextHop) else old(interlinks)
    {
      var decision := Decide(p, from, nodeCall, v, CurrentPolicy());
      if !decision.ForwardTo? {
        return;
      }
      EnsureInterlink(decision.nextHop);
      var forwarded := p.(timeToLive := decision.timeToLive);
      var buf := new Byte[SEND_BUFFER](_ => 0);
      var n := EncodeInto(forwarded, buf);
      if n.Some? {
        outbound := outbound + [InterlinkSend(decision.nextHop, buf[..n.value])];
      }
    }

    method PumpOutbound(v: View, packets: seq<Packet>)
      requires forall i :: 0 <= i < |packets| ==> Datagrams.Valid(packets[i])
      modifies this`outbound
      ensures outbound == old(outbound) + Pumped(interlinks, v, packets)
    {
      var buf := new Byte[SEND_BUFFER](_ => 0);
      for i := 0 to |packets|
        invariant buf.Length == SEND_BUFFER && fresh(buf)
        invariant outbound == old(outbound) + Pumped(interlinks, v, packets[..i])
      {
        assert packets[..i + 1][..i] == packets[..i];
        var p := packets[i];
        var n := OwnNextHop(interlinks, v, p.destination);
        if n.None? {
          continue;
        }
        var len := EncodeInto(p, buf);
        if len.Some? {
          outbound := outbound + [InterlinkSend(n.value, buf[..len.value])];
        }
      }
      assert packets[..|packets|] == packets;
    }

    method TakeInterlinkSends() returns (sends: seq<InterlinkSend>)
      modifies this`outbound
      ensures sends == old(outbound) && outbound == []
    {
      sends, outbound := outbound, [];
    }
  }

  /** One datagram in makes at most one relay out, to a neighbour it did not come from,
      of a datagram that the next node reads as the same one with less time to live. */
  lemma TransitIsOneRelay(p: Packet, from: Callsign, node: Callsign, v: View, policy: Policy)
    requires Datagrams.Valid(p) && policy.maxTimeToLive < 256 && Honours(v)
    ensures
      var sends := Transit(p, from, node, v, policy);
      && |sends| <= 1
      && (sends != [] ==>
            && sends[0].neighbour != from && p.origin != node
            && Decode(sends[0].datagram).Some?
            && var q := Decode(sends[0].datagram).value;
               SamePacket(q, p) && q.timeToLive < p.timeToLive && q.timeToLive <= policy.maxTimeToLive)
  {
    ForwardedExactlyWhen(p, from, node, v, policy);
    TransitIsRelayed(p, from, node, v, policy);
    if Relayed(p, from, node, v, policy).Some? { RelayedReadsBack(p, from, node, v, policy); }
  }

  /** What an interlink brings and the decision sends on is put on the wire again with
      the same length and the same payload octets, unless it is longer than 256 octets:
      then, and only then, it is lost without a trace. */
  lemma OversizeIsLost(info: Bytes, from: Callsign, node: Callsign, v: View, policy: Policy)
    requires Decode(info).Some? && policy.maxTimeToLive < 256
    requires Decode(info).value.destination != node && Decide(Decode(info).value, from, node, v, policy).ForwardTo?
    ensures
      var sends := Forwarded(info, from, node, v, policy);
      && (sends == [] <==> |info| > 256)
      && (sends != [] ==>
            && |sends| == 1 && |sends[0].datagram| == |info|
            && sends[0].datagram[HEADER_LEN..] == info[HEADER_LEN..])
  {
    var d := Decide(Decode(info).value, from, node, v, policy);
    ForwardedIsSend(info, from, node, v, policy);
    PayloadIsTail(info, d.timeToLive);
    SentWhole(d.nextHop, Decode(info).value.(timeToLive := d.timeToLive));
  }

  lemma ForwardedIsSend(info: Bytes, from: Callsign, node: Callsign, v: View, policy: Policy)
    requires Decode(info).Some? && policy.maxTimeToLive < 256
    requires Decode(info).value.destination != node && Decide(Decode(info).value, from, node, v, policy).ForwardTo?
    ensures
      var d := Decide(Decode(info).value, from, node, v, policy);
      d.timeToLive < 256
      && Forwarded(info, from, node, v, policy) == Send(d.nextHop, Decode(info).value.(timeToLive := d.timeToLive))
  {}

  lemma SentWhole(to: Callsign, p: Packet)
    requires p.timeToLive < 256
    ensures Send(to, p) == if |Encode(p)| <= 256 then [InterlinkSend(to, Encode(p))] else []
  {}

  lemma PayloadIsTail(info: Bytes, ttl: nat)
    requires Decode(info).Some? && ttl < 256
    ensures |Encode(Decode(info).value.(timeToLive := ttl))| == |info|
    ensures Encode(Decode(info).value.(timeToLive := ttl))[HEADER_LEN..] == info[HEADER_LEN..]
  {
    var p := Decode(info).value.(timeToLive := ttl);
    assert Encode(p) == Headers(p) + p.payload;
  }
}
