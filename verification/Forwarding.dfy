/**
 What a node does with a datagram for somebody else, and how far a datagram can
 travel through a network of such nodes (netrom/forwarding.rs,
 netrom/connector.rs).
 */
module Forwarding {
  import opened Common
  import opened Datagrams
  import Addresses
  import opened Callsigns

  datatype ForwardMode = BestRoute | PerFlow

  type Word32 = bv32

  /** A routing table as forwarding asks it. Nothing is assumed of the answers except,
      where said, that the excluding queries honour the exclusion. */
  datatype View = View(
    best: (Callsign, Callsign) -> Option<Callsign>,
    select: (Callsign, Callsign, Word32) -> Option<Callsign>,
    inp3: (Callsign, Callsign) -> Option<Callsign>,
    routeTo: Callsign -> Option<Callsign>,
    heard: Callsign -> bool)

  ghost predicate Honours(v: View) {
    && (forall d, x :: v.best(d, x) != Some(x))
    && (forall d, x, h :: v.select(d, x, h) != Some(x))
    && (forall d, x :: v.inp3(d, x) != Some(x))
  }

  /** What a node is configured to do. */
  datatype Policy = Policy(maxTimeToLive: nat, mode: ForwardMode, preferInp3: bool)

  datatype Decision = ForwardTo(nextHop: Callsign, timeToLive: nat) | DropTtlExpired | DropLooped | DropNoRoute

  // ----- the flow a datagram belongs to --------------------------------------------------

  const FNV_OFFSET: Word32 := 0x811C_9DC5
  const FNV_PRIME: Word32 := 0x0100_0193

  function Mix(hash: Word32, b: Byte): Word32 { (hash ^ (b as Word32)) * FNV_PRIME }

  /** FNV-1a from a starting value. */
  function Fnv(hash: Word32, key: Bytes): Word32
    decreases |key|
  {
    if key == [] then hash else Mix(Fnv(hash, key[..|key| - 1]), key[|key| - 1])
  }

  function FlowKey(origin: Callsign, circuitIndex: Byte, circuitId: Byte): Bytes {
    Addresses.Shifted(origin) + [circuitIndex, circuitId]
  }

  function FlowHash(p: Packet): Word32 {
    Fnv(FNV_OFFSET, FlowKey(p.origin, p.transport.circuitIndex, p.transport.circuitId))
  }

  method ComputeFlowHash(p: Packet) returns (hash: Word32)
    ensures hash == FlowHash(p)
  {
    var key := FlowKey(p.origin, p.transport.circuitIndex, p.transport.circuitId);
    hash := FNV_OFFSET;
    for i := 0 to |key|
      invariant hash == Fnv(FNV_OFFSET, key[..i])
    {
      assert key[..i + 1][..i] == key[..i];
      hash := Mix(hash, key[i]);
    }
    assert key[..|key|] == key;
  }

  /** Different circuits of a node have different keys. */
  lemma FlowKeysDiffer(o: Callsign, i: Byte, d: Byte, p: Callsign, j: Byte, e: Byte)
    requires Callsigns.Valid(o) && Callsigns.Valid(p)
    ensures FlowKey(o, i, d) == FlowKey(p, j, e) <==> o == p && i == j && d == e
  {
    var k, l := FlowKey(o, i, d), FlowKey(p, j, e);
    if k == l {
      assert k[..7] == Addresses.Shifted(o) && l[..7] == Addresses.Shifted(p);
      Addresses.ShiftedReadsBack(o);
      Addresses.ShiftedReadsBack(p);
      assert k[7] == i && l[7] == j && k[8] == d && l[8] == e;
    }
  }

  // ----- the decision --------------------------------------------------------------------

  function Min(a: nat, b: nat): nat { if a <= b then a else b }

  function NextHop(p: Packet, from: Callsign, v: View, policy: Policy): Option<Callsign> {
    var fast := if policy.preferInp3 then v.inp3(p.destination, from) else None;
    if fast.Some? then fast
    else
      match policy.mode
      case BestRoute => v.best(p.destination, from)
      case PerFlow => v.select(p.destination, from, FlowHash(p))
  }

  function Decide(p: Packet, from: Callsign, node: Callsign, v: View, policy: Policy): Decision {
    if p.timeToLive <= 1 then DropTtlExpired
    else if p.origin == node then DropLooped
    else
      match NextHop(p, from, v, policy)
      case None => DropNoRoute
      case Some(n) => ForwardTo(n, Min(p.timeToLive - 1, policy.maxTimeToLive))
  }

  /** Exactly when a datagram is forwarded, where to, and with what time to live. */
  lemma ForwardedExactlyWhen(p: Packet, from: Callsign, node: Callsign, v: View, policy: Policy)
    requires Honours(v)
    ensures
      var d := Decide(p, from, node, v, policy);
      && (d.ForwardTo? <==> p.timeToLive >= 2 && p.origin != node && NextHop(p, from, v, policy).Some?)
      && (d.ForwardTo? ==> d.nextHop != from && d.timeToLive < p.timeToLive && d.timeToLive <= policy.maxTimeToLive)
  {}

  /** A circuit's datagrams all take the same way while the view stays the same: the
      choice looks at nothing but origin, circuit and destination. */
  lemma FlowIsPinned(p: Packet, q: Packet, from: Callsign, node: Callsign, v: View, policy: Policy)
    requires p.origin == q.origin && p.destination == q.destination
    requires p.transport.circuitIndex == q.transport.circuitIndex && p.transport.circuitId == q.transport.circuitId
    ensures
      var d, e := Decide(p, from, node, v, policy), Decide(q, from, node, v, policy);
      d.ForwardTo? && e.ForwardTo? ==> d.nextHop == e.nextHop
  {}

  /** The datagram as it leaves. One whose payload does not fit the send buffer is
      decided on like any other but then not sent. */
  function Relayed(p: Packet, from: Callsign, node: Callsign, v: View, policy: Policy): Option<(Callsign, Packet)> {
    match Decide(p, from, node, v, policy)
    case ForwardTo(n, t) => if |p.payload| <= MAX_PAYLOAD then Some((n, p.(timeToLive := t))) else None
    case _ => None
  }

  // ----- a network -----------------------------------------------------------------------

  /** What a node looks like when a datagram reaches it: tables may have changed in any
      way since the last one passed. */
  datatype Situation = Situation(view: View, policy: Policy, forwards: bool)

  datatype Hop = Hop(at: Callsign, from: Callsign, next: Callsign, came: Packet, left: Packet)

  /** The relays of a datagram that arrives at `at` from `from`, as far as the given
      situations go: at its destination it ends, elsewhere it may be relayed to the
      node of the next hop's callsign. */
  function Journey(p: Packet, from: Callsign, at: Callsign, situations: seq<Situation>): seq<Hop>
    decreases |situations|
  {
    if situations == [] || p.destination == at || !situations[0].forwards then []
    else
      match Relayed(p, from, at, situations[0].view, situations[0].policy)
      case None => []
      case Some((next, q)) => [Hop(at, from, next, p, q)] + Journey(q, at, next, situations[1..])
  }

  /** How many relays a time to live allows when no node lets more than `cap` out. */
  function RelayBound(ttl: nat, cap: nat): nat {
    if ttl <= 1 then 0 else Min(ttl - 1, if cap == 0 then 1 else cap)
  }

  predicate CappedAt(situations: seq<Situation>, cap: nat) {
    forall i :: 0 <= i < |situations| ==> situations[i].policy.maxTimeToLive <= cap
  }

  /** Whatever the routing tables say, even if they loop and change at every hop, a
      datagram arriving with time to live `t` is relayed at most t - 1 times, and at most
      max(1, cap) times where every node caps what it sends. */
  lemma {:induction false} RelaysAreBounded(p: Packet, from: Callsign, at: Callsign, situations: seq<Situation>, cap: nat)
    requires CappedAt(situations, cap)
    ensures |Journey(p, from, at, situations)| <= RelayBound(p.timeToLive, cap)
    decreases |situations|
  {
    if situations != [] && p.destination != at && situations[0].forwards {
      var r := Relayed(p, from, at, situations[0].view, situations[0].policy);
      if r.Some? {
        RelaysAreBounded(r.value.1, at, r.value.0, situations[1..], cap);
      }
    }
  }

  /** Caps differ in practice; without any the time to live alone bounds the relays. */
  lemma {:induction false} RelaysBoundedByTtl(p: Packet, from: Callsign, at: Callsign, situations: seq<Situation>)
    ensures |Journey(p, from, at, situations)| <= if p.timeToLive <= 1 then 0 else p.timeToLive - 1
    decreases |situations|
  {
    if situations != [] && p.destination != at && situations[0].forwards {
      var r := Relayed(p, from, at, situations[0].view, situations[0].policy);
      if r.Some? {
        RelaysBoundedByTtl(r.value.1, at, r.value.0, situations[1..]);
      }
    }
  }

  predicate SamePacket(p: Packet, q: Packet) {
    p.origin == q.origin && p.destination == q.destination && p.transport == q.transport && p.payload == q.payload
  }

  ghost predicate AllHonour(situations: seq<Situation>) {
    forall i :: 0 <= i < |situations| ==> Honours(situations[i].view)
  }

  /** Every relay of a journey: not by the origin, not straight back, the datagram the
      same but for its time to live, and starting where the one before it ended. */
  predicate GoodHop(h: Hop, p: Packet) {
    && h.at != p.origin && h.next != h.from
    && SamePacket(h.came, p) && SamePacket(h.left, p)
    && h.left.timeToLive < h.came.timeToLive
  }

  predicate Connected(hops: seq<Hop>, from: Callsign, at: Callsign) {
    && (hops != [] ==> hops[0].from == from && hops[0].at == at)
    && forall i :: 0 < i < |hops| ==>
        hops[i].at == hops[i - 1].next && hops[i].from == hops[i - 1].at && hops[i].came == hops[i - 1].left
  }

  lemma {:induction false} RelaysAreGood(p: Packet, from: Callsign, at: Callsign, situations: seq<Situation>)
    requires AllHonour(situations)
    ensures
      var hops := Journey(p, from, at, situations);
      Connected(hops, from, at) && (forall i :: 0 <= i < |hops| ==> GoodHop(hops[i], p))
      && (hops != [] ==> hops[0].came == p)
    decreases |situations|
  {
    if situations != [] && p.destination != at && situations[0].forwards {
      var s := situations[0];
      var r := Relayed(p, from, at, s.view, s.policy);
      if r.Some? {
        var (next, q) := r.value;
        ForwardedExactlyWhen(p, from, at, s.view, s.policy);
        RelaysAreGood(q, at, next, situations[1..]);
        var rest := Journey(q, at, next, situations[1..]);
        forall i | 0 <= i < |rest| ensures GoodHop(rest[i], p) {
          assert GoodHop(rest[i], q);
        }
      }
    }
  }

  // ----- the bound is reached ----------------------------------------------------------------

  /** Three nodes that each send everything to the next one round. */
  function Around(ring: seq<Callsign>, c: Callsign): Callsign
    requires |ring| == 3
  {
    if c == ring[0] then ring[1] else if c == ring[1] then ring[2] else ring[0]
  }

  /** The table of `at`: the next node round, unless that is excluded. */
  function RingView(ring: seq<Callsign>, at: Callsign): View
    requires |ring| == 3
  {
    var to := Around(ring, at);
    View(
      (d, x) => if to == x then None else Some(to), (d, x, h) => if to == x then None else Some(to),
      (d, x) => None, d => None, d => false)
  }

  function RingRun(ring: seq<Callsign>, at: Callsign, cap: nat, n: nat): seq<Situation>
    requires |ring| == 3
    decreases n
  {
    if n == 0 then []
    else [Situation(RingView(ring, at), Policy(cap, BestRoute, false), true)] + RingRun(ring, Around(ring, at), cap, n - 1)
  }

  predicate InRing(ring: seq<Callsign>, from: Callsign, at: Callsign) {
    && |ring| == 3 && ring[0] != ring[1] && ring[1] != ring[2] && ring[0] != ring[2]
    && from in ring && at in ring && Around(ring, from) == at
  }

  lemma NextInRing(ring: seq<Callsign>, from: Callsign, at: Callsign)
    requires InRing(ring, from, at)
    ensures InRing(ring, at, Around(ring, at)) && Around(ring, at) != from
  {}

  lemma RingRelays(p: Packet, ring: seq<Callsign>, from: Callsign, at: Callsign, cap: nat)
    requires InRing(ring, from, at) && p.origin !in ring && |p.payload| <= MAX_PAYLOAD
    ensures Honours(RingView(ring, at))
    ensures
      var r := Relayed(p, from, at, RingView(ring, at), Policy(cap, BestRoute, false));
      if p.timeToLive <= 1 then r == None
      else r == Some((Around(ring, at), p.(timeToLive := Min(p.timeToLive - 1, cap))))
  {
    NextInRing(ring, from, at);
  }

  /** The bound is exact: round a ring of three honest tables a lost datagram is relayed
      that many times. */
  lemma {:induction false} BoundIsReached(p: Packet, ring: seq<Callsign>, from: Callsign, at: Callsign, cap: nat, n: nat)
    requires InRing(ring, from, at)
    requires p.origin !in ring && p.destination !in ring && |p.payload| <= MAX_PAYLOAD
    requires n >= RelayBound(p.timeToLive, cap)
    ensures |Journey(p, from, at, RingRun(ring, at, cap, n))| == RelayBound(p.timeToLive, cap)
    ensures AllHonour(RingRun(ring, at, cap, n)) && CappedAt(RingRun(ring, at, cap, n), cap)
    decreases n
  {
    if n > 0 {
      var to := Around(ring, at);
      var q := p.(timeToLive := if p.timeToLive >= 1 then Min(p.timeToLive - 1, cap) else 0);
      var run := RingRun(ring, at, cap, n);
      assert run[0] == Situation(RingView(ring, at), Policy(cap, BestRoute, false), true);
      assert run[1..] == RingRun(ring, to, cap, n - 1);
      RingRelays(p, ring, from, at, cap);
      NextInRing(ring, from, at);
      BoundIsReached(q, ring, at, to, cap, n - 1);
    }
  }

  /** What a relay puts on the wire is read by the next node as the datagram it sent. */
  lemma RelayedReadsBack(p: Packet, from: Callsign, node: Callsign, v: View, policy: Policy)
    requires Datagrams.Valid(p) && policy.maxTimeToLive < 256
    requires Relayed(p, from, node, v, policy).Some?
    ensures
      var q := Relayed(p, from, node, v, policy).value.1;
      Datagrams.Valid(q) && Decode(Encode(q)) == Some(q)
  {
    Datagrams.RoundTrip(Relayed(p, from, node, v, policy).value.1);
  }
}
