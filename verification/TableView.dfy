/**
 The routing table as forwarding asks it: the three choices among the kept routes of a
 destination (netrom/routing/mod.rs, netrom/routing/table.rs).
 */
module TableView {
  import opened Common
  import opened Callsigns
  import opened Datagrams
  import opened Forwarding
  import opened KeptRoutes

  /** The kept routes of every destination, best first, and the neighbours heard. */
  datatype Table = Table(kept: Callsign -> seq<KeptRoute>, heard: Callsign -> bool)

  function ViewOf(t: Table): View {
    View(
      (d, x) => KeptRoutes.BestRoute(t.kept(d), x),
      (d, x, hash: Word32) => SelectedHop(t.kept(d), x, hash as nat),
      (d, x) => FastestHop(t.kept(d), x),
      d => if t.kept(d) == [] then None else Some(t.kept(d)[0].neighbour),
      t.heard)
  }

  /** What the network results ask of a table every table provides. */
  lemma TablesHonour(t: Table)
    ensures Honours(ViewOf(t))
  {
    var v := ViewOf(t);
    forall d, x ensures v.best(d, x) != Some(x) {
      assert v.best(d, x) == KeptRoutes.BestRoute(t.kept(d), x);
    }
    forall d, x, hash ensures v.select(d, x, hash) != Some(x) {
      assert v.select(d, x, hash) == SelectedHop(t.kept(d), x, hash as nat);
    }
    forall d, x ensures v.inp3(d, x) != Some(x) {
      assert v.inp3(d, x) == FastestHop(t.kept(d), x);
    }
  }

  predicate Onward(r: KeptRoute, from: Callsign) { r.neighbour != from }

  predicate Weighted(r: KeptRoute, from: Callsign) { r.neighbour != from && r.quality > 0 }

  /** Whether the policy can use one of the routes. */
  predicate Usable(routes: seq<KeptRoute>, from: Callsign, policy: Policy) {
    || (policy.preferInp3 && HasMeasured(routes, from))
    || (policy.mode.BestRoute? && exists i :: 0 <= i < |routes| && Onward(routes[i], from))
    || (policy.mode.PerFlow? && exists i :: 0 <= i < |routes| && Weighted(routes[i], from))
  }

  lemma {:induction false} TotalIsPositive(routes: seq<KeptRoute>, from: Callsign)
    ensures Total(routes, from) > 0 <==> exists i :: 0 <= i < |routes| && Weighted(routes[i], from)
  {
    if routes != [] {
      TotalIsPositive(routes[1..], from);
      if i :| 0 <= i < |routes| && Weighted(routes[i], from) {
        if i > 0 { assert Weighted(routes[1..][i - 1], from); }
      }
      if Total(routes, from) > 0 && !Weighted(routes[0], from) {
        var i :| 0 <= i < |routes[1..]| && Weighted(routes[1..][i], from);
        assert Weighted(routes[i + 1], from);
      }
    }
  }

  /** A node with such a table forwards a datagram exactly if it has two hops of life
      left, did not originate here, and the policy can use one of the kept routes. */
  lemma ForwardedOverTable(t: Table, p: Packet, from: Callsign, node: Callsign, policy: Policy)
    ensures
      var d := Decide(p, from, node, ViewOf(t), policy);
      && (d.ForwardTo? <==> p.timeToLive >= 2 && p.origin != node && Usable(t.kept(p.destination), from, policy))
      && (d.ForwardTo? ==> d.nextHop != from && d.timeToLive < p.timeToLive && d.timeToLive <= policy.maxTimeToLive)
  {
    var routes := t.kept(p.destination);
    TablesHonour(t);
    ForwardedExactlyWhen(p, from, node, ViewOf(t), policy);
    ScanFindsFastest(routes, from);
    NoneExactlyWithoutMeasured(routes, from, FastestHop(routes, from));
    TotalIsPositive(routes, from);
    OnwardExactly(routes, from);
  }

  lemma OnwardExactly(routes: seq<KeptRoute>, from: Callsign)
    ensures KeptRoutes.BestRoute(routes, from).Some? <==> exists i :: 0 <= i < |routes| && Onward(routes[i], from)
  {}

  /** So in a network of such nodes the results about relays hold as they stand. */
  lemma TableRelaysAreGood(p: Packet, from: Callsign, at: Callsign, tables: seq<Table>, situations: seq<Situation>)
    requires |tables| == |situations| && forall i :: 0 <= i < |situations| ==> situations[i].view == ViewOf(tables[i])
    ensures
      var hops := Journey(p, from, at, situations);
      Connected(hops, from, at) && forall i :: 0 <= i < |hops| ==> GoodHop(hops[i], p)
  {
    forall i | 0 <= i < |situations| ensures Honours(situations[i].view) {
      TablesHonour(tables[i]);
    }
    RelaysAreGood(p, from, at, situations);
  }
}
