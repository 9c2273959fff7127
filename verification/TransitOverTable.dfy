/**
 What a node with a table of kept routes puts on its interlinks: where each datagram
 goes, in terms of the routes themselves (netrom/connector.rs, netrom/forwarding.rs).
 */
module TransitOverTable {
  import opened Common
  import opened Callsigns
  import opened Datagrams
  import opened Forwarding
  import opened KeptRoutes
  import opened TableView
  import opened Connector
  import Addresses

  /** FNV-1a of the origin's octets and the circuit's index and id. */
  function CircuitHash(p: Packet): nat {
    Fnv(0x811C_9DC5, Addresses.Shifted(p.origin) + [p.transport.circuitIndex, p.transport.circuitId]) as nat
  }

  /** The route's share of the total quality holds the residue of the hash. */
  predicate TakenByShare(routes: seq<KeptRoute>, from: Callsign, hash: nat, hop: Callsign) {
    Total(routes, from) > 0 && exists i: nat :: i < |routes| && TakesShare(routes, from, hash, hop, i)
  }

  predicate TakesShare(routes: seq<KeptRoute>, from: Callsign, hash: nat, hop: Callsign, i: nat)
    requires i < |routes| && Total(routes, from) > 0
  {
    routes[i].neighbour == hop && Share(routes, from, i, hash % Total(routes, from))
  }

  lemma {:induction false} OwnerHasShare(routes: seq<KeptRoute>, from: Callsign, t: nat) returns (i: nat)
    requires t < Total(routes, from)
    ensures i < |routes| && Share(routes, from, i, t) && OwnerAt(routes, from, t) == Some(routes[i].neighbour)
  {
    var w := Weight(routes[0], from);
    i := 0;
    if t < w {
      assert routes[..0] == [];
    } else {
      var k := OwnerHasShare(routes[1..], from, t - w);
      i := k + 1;
      assert routes[..i] == [routes[0]] + routes[1..][..k];
      TotalInPieces([routes[0]], routes[1..][..k], from);
      assert Total([routes[0]], from) == w;
    }
  }

  lemma SelectedHasShare(routes: seq<KeptRoute>, from: Callsign, hash: nat)
    requires Total(routes, from) > 0
    ensures SelectedHop(routes, from, hash).Some? && TakenByShare(routes, from, hash, SelectedHop(routes, from, hash).value)
  {
    var i := OwnerHasShare(routes, from, hash % Total(routes, from));
    assert TakesShare(routes, from, hash, routes[i].neighbour, i);
  }

  /** Which of the three rules a hop obeys. */
  ghost predicate ByTheRules(routes: seq<KeptRoute>, from: Callsign, policy: Policy, hash: nat, hop: Callsign) {
    if policy.preferInp3 && HasMeasured(routes, from) then IsFastest(routes, from, Some(hop))
    else if policy.mode == PerFlow then TakenByShare(routes, from, hash, hop)
    else exists i: nat :: FirstOnward(routes, from, i) && routes[i].neighbour == hop
  }

  lemma DecidedByTheRules(t: Table, p: Packet, from: Callsign, node: Callsign, policy: Policy)
    requires Decide(p, from, node, ViewOf(t), policy).ForwardTo?
    ensures ByTheRules(t.kept(p.destination), from, policy, CircuitHash(p), Decide(p, from, node, ViewOf(t), policy).nextHop)
  {
    var routes := t.kept(p.destination);
    var v := ViewOf(t);
    ScanFindsFastest(routes, from);
    NoneExactlyWithoutMeasured(routes, from, FastestHop(routes, from));
    assert v.inp3(p.destination, from) == FastestHop(routes, from);
    if policy.preferInp3 && HasMeasured(routes, from) {
    } else if policy.mode == PerFlow {
      assert v.select(p.destination, from, FlowHash(p)) == SelectedHop(routes, from, FlowHash(p) as nat);
      assert CircuitHash(p) == FlowHash(p) as nat;
      SelectedHasShare(routes, from, CircuitHash(p));
    } else {
      assert v.best(p.destination, from) == KeptRoutes.BestRoute(routes, from);
      var i := BestIsFirst(routes, from);
    }
  }

  /** A datagram for another node that fits the send buffer goes out exactly if it has two
      hops of life left, did not originate here and a kept route is usable. With measured
      routes preferred and one usable it goes the fastest way; else per flow to the route
      whose share of the total quality holds the circuit's hash, or to the first route that
      does not lead back. One hop of life is taken off, and the node's own limit kept. */
  lemma TransitTakes(t: Table, p: Packet, from: Callsign, node: Callsign, policy: Policy)
    requires Datagrams.Valid(p) && policy.maxTimeToLive < 256 && |p.payload| <= MAX_PAYLOAD
    ensures
      var sends := Transit(p, from, node, ViewOf(t), policy);
      var routes := t.kept(p.destination);
      && (sends != [] <==> p.timeToLive >= 2 && p.origin != node && Usable(routes, from, policy))
      && (sends != [] ==>
            && |sends| == 1 && ByTheRules(routes, from, policy, CircuitHash(p), sends[0].neighbour)
            && var ttl := if p.timeToLive - 1 <= policy.maxTimeToLive then p.timeToLive - 1 else policy.maxTimeToLive;
               sends[0].datagram == Encode(p.(timeToLive := ttl)))
  {
    ForwardedOverTable(t, p, from, node, policy);
    if Decide(p, from, node, ViewOf(t), policy).ForwardTo? {
      DecidedByTheRules(t, p, from, node, policy);
    }
  }

  /** What this node itself sends goes straight to a destination it has an interlink to;
      else the way of the first kept route; else to a destination it hears; else nowhere. */
  lemma OwnDatagramGoes(links: seq<Callsign>, t: Table, before: seq<Packet>, p: Packet)
    requires forall i :: 0 <= i < |before| ==> Datagrams.Valid(before[i])
    requires Datagrams.Valid(p) && |p.payload| <= MAX_PAYLOAD
    ensures forall i :: 0 <= i < |before + [p]| ==> Datagrams.Valid((before + [p])[i])
    ensures
      var routes := t.kept(p.destination);
      var rest := Pumped(links, ViewOf(t), before);
      Pumped(links, ViewOf(t), before + [p]) ==
        if p.destination in links then rest + [InterlinkSend(p.destination, Encode(p))]
        else if routes != [] then rest + [InterlinkSend(routes[0].neighbour, Encode(p))]
        else if t.heard(p.destination) then rest + [InterlinkSend(p.destination, Encode(p))]
        else rest
  {
    assert (before + [p])[..|before|] == before;
    assert Pumped(links, ViewOf(t), before) + [] == Pumped(links, ViewOf(t), before);
  }

  /** The hash is the published FNV-1a: its values for "a" and "foobar". */
  lemma FnvIsPublished()
    ensures Fnv(FNV_OFFSET, [0x61]) == 0xE40C_292C
    ensures Fnv(FNV_OFFSET, [0x66, 0x6F, 0x6F, 0x62, 0x61, 0x72]) == 0xBF9C_F968
  {
    assert [] + [0x61] == [0x61];
    FnvNext([], 0x61, FNV_OFFSET, 0xE40C_292C);
    FnvOfFoo();
    var foob: Bytes := [0x66, 0x6F, 0x6F, 0x62];
    assert [0x66, 0x6F, 0x6F] + [0x62] == foob;
    FnvNext([0x66, 0x6F, 0x6F], 0x62, 0xA9F3_7ED7, 0x3F50_76EF);
    FnvNext(foob, 0x61, 0x3F50_76EF, 0x39AA_A18A);
    FnvNext(foob + [0x61], 0x72, 0x39AA_A18A, 0xBF9C_F968);
    assert foob + [0x61] + [0x72] == [0x66, 0x6F, 0x6F, 0x62, 0x61, 0x72];
  }

  lemma FnvOfFoo()
    ensures Fnv(FNV_OFFSET, [0x66, 0x6F, 0x6F]) == 0xA9F3_7ED7
  {
    assert [] + [0x66] == [0x66] && [0x66] + [0x6F] == [0x66, 0x6F];
    FnvNext([], 0x66, FNV_OFFSET, 0xE30C_2799);
    FnvNext([0x66], 0x6F, 0xE30C_2799, 0x6222_E842);
    FnvNext([0x66, 0x6F], 0x6F, 0x6222_E842, 0xA9F3_7ED7);
    assert [0x66, 0x6F] + [0x6F] == [0x66, 0x6F, 0x6F];
  }

  lemma FnvNext(key: Bytes, b: Byte, before: Word32, after: Word32)
    requires Fnv(FNV_OFFSET, key) == before && Mix(before, b) == after
    ensures Fnv(FNV_OFFSET, key + [b]) == after
  {
    assert (key + [b])[..|key|] == key;
  }
}
