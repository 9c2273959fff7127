/**
 Choosing a next hop among the kept routes of one destination
 (netrom/forwarding.rs, netrom/routing/table.rs).
 */
module KeptRoutes {
  import opened Common
  import opened Callsigns
  import opened CallsignOrder

  /** A measured path: time in milliseconds, and hops. */
  datatype Metric = Metric(time: nat, hops: nat)

  datatype KeptRoute = KeptRoute(neighbour: Callsign, quality: nat, inp3: Option<Metric>)

  // ----- best route: the first that does not lead back --------------------------------

  method BestRouteExcluding(routes: seq<KeptRoute>, exclude: Callsign) returns (r: Option<Callsign>)
    ensures r == BestRoute(routes, exclude)
    ensures r.Some? ==> exists i: nat :: FirstOnward(routes, exclude, i) && routes[i].neighbour == r.value
  {
    for i := 0 to |routes|
      invariant forall k :: 0 <= k < i ==> routes[k].neighbour == exclude
      invariant BestRoute(routes, exclude) == BestRoute(routes[i..], exclude)
    {
      if routes[i].neighbour != exclude {
        return Some(routes[i].neighbour);
      }
      assert routes[i..][1..] == routes[i + 1..];
    }
    return None;
  }

  /** Route `i` does not lead back, and all before it do. */
  predicate FirstOnward(routes: seq<KeptRoute>, exclude: Callsign, i: nat) {
    && i < |routes| && routes[i].neighbour != exclude
    && forall j :: 0 <= j < i ==> routes[j].neighbour == exclude
  }

  function BestRoute(routes: seq<KeptRoute>, exclude: Callsign): (r: Option<Callsign>)
    ensures r.None? <==> forall i :: 0 <= i < |routes| ==> routes[i].neighbour == exclude
    ensures r != Some(exclude)
  {
    if routes == [] then None
    else if routes[0].neighbour != exclude then Some(routes[0].neighbour)
    else BestRoute(routes[1..], exclude)
  }

  /** The best route is the first that does not lead back. */
  lemma {:induction false} BestIsFirst(routes: seq<KeptRoute>, exclude: Callsign) returns (i: nat)
    requires BestRoute(routes, exclude).Some?
    ensures FirstOnward(routes, exclude, i) && BestRoute(routes, exclude) == Some(routes[i].neighbour)
  {
    i := 0;
    if routes[0].neighbour == exclude {
      var k := BestIsFirst(routes[1..], exclude);
      i := k + 1;
      forall j | 0 <= j < i ensures routes[j].neighbour == exclude {
        if j > 0 { assert routes[j] == routes[1..][j - 1]; }
      }
    }
  }

  // ----- the fastest measured route ----------------------------------------------------

  predicate Measured(r: KeptRoute, exclude: Callsign) { r.inp3.Some? && r.neighbour != exclude }

  /** Less time, then fewer hops, then the smaller callsign. */
  predicate Faster(a: KeptRoute, b: KeptRoute)
    requires a.inp3.Some? && b.inp3.Some?
  {
    var m, n := a.inp3.value, b.inp3.value;
    || m.time < n.time
    || (m.time == n.time && m.hops < n.hops)
    || (m.time == n.time && m.hops == n.hops && CallsignLess(a.neighbour, b.neighbour))
  }

  lemma FasterIsTransitive(a: KeptRoute, b: KeptRoute, c: KeptRoute)
    requires a.inp3.Some? && b.inp3.Some? && c.inp3.Some?
    ensures !Faster(a, b) && !Faster(b, c) ==> !Faster(a, c)
    ensures Faster(a, b) && !Faster(c, b) ==> Faster(a, c)
    ensures Faster(a, b) ==> !Faster(b, a)
    ensures !Faster(a, a)
  {
    StrictTotalOrder(a.neighbour, b.neighbour, c.neighbour);
    StrictTotalOrder(c.neighbour, b.neighbour, a.neighbour);
    StrictTotalOrder(a.neighbour, c.neighbour, b.neighbour);
    StrictTotalOrder(b.neighbour, c.neighbour, a.neighbour);
    StrictTotalOrder(a.neighbour, a.neighbour, a.neighbour);
  }

  /** `n` is the neighbour of a measured route that none is faster than, or there is none. */
  predicate IsFastest(routes: seq<KeptRoute>, exclude: Callsign, n: Option<Callsign>) {
    match n
    case None => forall i :: 0 <= i < |routes| ==> !Measured(routes[i], exclude)
    case Some(c) =>
      exists b ::
        && 0 <= b < |routes| && Measured(routes[b], exclude) && routes[b].neighbour == c
        && forall i :: 0 <= i < |routes| && Measured(routes[i], exclude) ==> !Faster(routes[i], routes[b])
  }

  /** The best so far after a scan of the routes. */
  function FastestRoute(routes: seq<KeptRoute>, exclude: Callsign): (best: Option<KeptRoute>)
    ensures best.Some? ==> best.value in routes && Measured(best.value, exclude)
    decreases |routes|
  {
    if routes == [] then None
    else
      var before, route := FastestRoute(routes[..|routes| - 1], exclude), routes[|routes| - 1];
      if Measured(route, exclude) && (before.None? || Faster(route, before.value)) then Some(route) else before
  }

  function FastestHop(routes: seq<KeptRoute>, exclude: Callsign): (n: Option<Callsign>)
    ensures n != Some(exclude)
  {
    var best := FastestRoute(routes, exclude);
    if best.Some? then Some(best.value.neighbour) else None
  }

  /** A single scan keeping the best so far finds the fastest route. */
  method SelectInp3NextHop(routes: seq<KeptRoute>, exclude: Callsign) returns (n: Option<Callsign>)
    ensures n == FastestHop(routes, exclude)
    ensures IsFastest(routes, exclude, n)
    ensures n != Some(exclude)
  {
    var best: Option<KeptRoute> := None;
    for i := 0 to |routes|
      invariant best == FastestRoute(routes[..i], exclude)
    {
      assert routes[..i + 1][..i] == routes[..i];
      var route := routes[i];
      if route.inp3.Some? && route.neighbour != exclude {
        if best.None? || Faster(route, best.value) {
          best := Some(route);
        }
      }
    }
    assert routes[..|routes|] == routes;
    ScanFindsFastest(routes, exclude);
    n := if best.Some? then Some(best.value.neighbour) else None;
  }

  lemma {:induction false} NothingBeatsTheBest(routes: seq<KeptRoute>, exclude: Callsign)
    ensures
      var best := FastestRoute(routes, exclude);
      forall i :: 0 <= i < |routes| && Measured(routes[i], exclude) ==> best.Some? && !Faster(routes[i], best.value)
    decreases |routes|
  {
    if routes != [] {
      var n := |routes| - 1;
      NothingBeatsTheBest(routes[..n], exclude);
      var before, best := FastestRoute(routes[..n], exclude), FastestRoute(routes, exclude);
      forall i | 0 <= i < |routes| && Measured(routes[i], exclude)
        ensures best.Some? && !Faster(routes[i], best.value)
      {
        if i < n {
          assert routes[..n][i] == routes[i];
          FasterIsTransitive(routes[i], before.value, best.value);
          FasterIsTransitive(best.value, before.value, routes[i]);
          FasterIsTransitive(routes[i], best.value, before.value);
        }
        FasterIsTransitive(routes[i], routes[i], routes[i]);
      }
    }
  }

  lemma ScanFindsFastest(routes: seq<KeptRoute>, exclude: Callsign)
    ensures IsFastest(routes, exclude, FastestHop(routes, exclude))
  {
    NothingBeatsTheBest(routes, exclude);
    var best := FastestRoute(routes, exclude);
    if best.Some? {
      var b :| 0 <= b < |routes| && routes[b] == best.value;
    }
  }

  /** No slower in time; no more hops in the same time; no greater callsign in both. */
  predicate NotBehind(b: KeptRoute, r: KeptRoute)
    requires b.inp3.Some? && r.inp3.Some?
  {
    var m, n := b.inp3.value, r.inp3.value;
    && m.time <= n.time
    && (m.time == n.time ==> m.hops <= n.hops)
    && (m.time == n.time && m.hops == n.hops ==> b.neighbour == r.neighbour || CallsignLess(b.neighbour, r.neighbour))
  }

  /** The fastest hop has a route that is not behind any measured one. */
  lemma FastestIsNotBehind(routes: seq<KeptRoute>, exclude: Callsign, n: Callsign) returns (b: nat)
    requires IsFastest(routes, exclude, Some(n))
    ensures b < |routes| && Measured(routes[b], exclude) && routes[b].neighbour == n
    ensures forall i :: 0 <= i < |routes| && Measured(routes[i], exclude) ==> NotBehind(routes[b], routes[i])
  {
    b :| 0 <= b < |routes| && Measured(routes[b], exclude) && routes[b].neighbour == n
      && forall i :: 0 <= i < |routes| && Measured(routes[i], exclude) ==> !Faster(routes[i], routes[b]);
    forall i | 0 <= i < |routes| && Measured(routes[i], exclude) ensures NotBehind(routes[b], routes[i]) {
      StrictTotalOrder(routes[b].neighbour, routes[i].neighbour, routes[b].neighbour);
    }
  }

  lemma AtMostOneFastest(a: KeptRoute, b: KeptRoute)
    requires a.inp3.Some? && b.inp3.Some? && !Faster(a, b) && !Faster(b, a)
    ensures a.neighbour == b.neighbour
  {
    StrictTotalOrder(a.neighbour, b.neighbour, a.neighbour);
  }

  predicate HasMeasured(routes: seq<KeptRoute>, exclude: Callsign) {
    exists i :: 0 <= i < |routes| && Measured(routes[i], exclude)
  }

  lemma NoneExactlyWithoutMeasured(routes: seq<KeptRoute>, exclude: Callsign, n: Option<Callsign>)
    requires IsFastest(routes, exclude, n)
    ensures n.Some? <==> HasMeasured(routes, exclude)
  {}

  lemma HasMeasuredOfMembers(routes: seq<KeptRoute>, others: seq<KeptRoute>, exclude: Callsign)
    requires forall r: KeptRoute :: r in routes ==> r in others
    ensures HasMeasured(routes, exclude) ==> HasMeasured(others, exclude)
  {
    if HasMeasured(routes, exclude) {
      var i :| 0 <= i < |routes| && Measured(routes[i], exclude);
      assert routes[i] in others;
    }
  }

  /** The choice does not depend on the order of the routes: there is only one answer
      for all lists with the same members. */
  lemma FastestIsUnique(routes: seq<KeptRoute>, others: seq<KeptRoute>, exclude: Callsign, m: Option<Callsign>, n: Option<Callsign>)
    requires forall r: KeptRoute :: r in routes <==> r in others
    requires IsFastest(routes, exclude, m) && IsFastest(others, exclude, n)
    ensures m == n
  {
    NoneExactlyWithoutMeasured(routes, exclude, m);
    NoneExactlyWithoutMeasured(others, exclude, n);
    HasMeasuredOfMembers(routes, others, exclude);
    HasMeasuredOfMembers(others, routes, exclude);
    if m.Some? {
      var b :| 0 <= b < |routes| && Measured(routes[b], exclude) && routes[b].neighbour == m.value
        && forall i :: 0 <= i < |routes| && Measured(routes[i], exclude) ==> !Faster(routes[i], routes[b]);
      var c :| 0 <= c < |others| && Measured(others[c], exclude) && others[c].neighbour == n.value
        && forall i :: 0 <= i < |others| && Measured(others[i], exclude) ==> !Faster(others[i], others[c]);
      assert routes[b] in others && others[c] in routes;
      AtMostOneFastest(routes[b], others[c]);
    }
  }

  // ----- the weighted split ---------------------------------------------------------------

  function Weight(r: KeptRoute, exclude: Callsign): nat { if r.neighbour == exclude then 0 else r.quality }

  /** The qualities of the eligible routes together. */
  function Total(routes: seq<KeptRoute>, exclude: Callsign): nat {
    if routes == [] then 0 else Weight(routes[0], exclude) + Total(routes[1..], exclude)
  }

  lemma {:induction false} TotalInPieces(first: seq<KeptRoute>, second: seq<KeptRoute>, exclude: Callsign)
    ensures Total(first + second, exclude) == Total(first, exclude) + Total(second, exclude)
    decreases |first|
  {
    if first == [] {
      assert first + second == second;
    } else {
      assert (first + second)[1..] == first[1..] + second;
      TotalInPieces(first[1..], second, exclude);
    }
  }

  /** The residues that fall to route `i`: as many as its quality, after those of the
      routes before it. */
  predicate Share(routes: seq<KeptRoute>, exclude: Callsign, i: nat, t: nat)
    requires i < |routes|
  {
    Total(routes[..i], exclude) <= t < Total(routes[..i], exclude) + Weight(routes[i], exclude)
  }

  method EligibleTotal(routes: seq<KeptRoute>, exclude: Callsign) returns (total: nat)
    ensures total == Total(routes, exclude)
  {
    total := 0;
    for i := 0 to |routes|
      invariant total == Total(routes[..i], exclude)
    {
      if routes[i].neighbour != exclude && routes[i].quality > 0 {
        total := total + routes[i].quality;
      }
      NextTotal(routes, exclude, i);
    }
    assert routes[..|routes|] == routes;
  }

  /** Whose share a residue is, if anybody's. */
  function OwnerAt(routes: seq<KeptRoute>, exclude: Callsign, t: nat): (n: Option<Callsign>)
    ensures n.Some? <==> t < Total(routes, exclude)
    ensures n != Some(exclude)
  {
    if routes == [] then None
    else if t < Weight(routes[0], exclude) then Some(routes[0].neighbour)
    else OwnerAt(routes[1..], exclude, t - Weight(routes[0], exclude))
  }

  function SelectedHop(routes: seq<KeptRoute>, exclude: Callsign, hash: nat): (n: Option<Callsign>)
    ensures n != Some(exclude)
    ensures n.Some? <==> Total(routes, exclude) > 0
  {
    if Total(routes, exclude) == 0 then None else OwnerAt(routes, exclude, hash % Total(routes, exclude))
  }

  method Owner(routes: seq<KeptRoute>, exclude: Callsign, t: nat) returns (chosen: nat)
    requires t < Total(routes, exclude)
    ensures chosen < |routes| && Share(routes, exclude, chosen, t)
    ensures OwnerAt(routes, exclude, t) == Some(routes[chosen].neighbour)
  {
    var target: nat := t;
    assert routes[..|routes|] == routes;
    for i := 0 to |routes|
      invariant target + Total(routes[..i], exclude) == t
      invariant OwnerAt(routes, exclude, t) == OwnerAt(routes[i..], exclude, target)
    {
      assert routes[i..][1..] == routes[i + 1..];
      NextTotal(routes, exclude, i);
      if routes[i].neighbour == exclude || routes[i].quality == 0 {
        continue;
      }
      if target < routes[i].quality {
        return i;
      }
      target := target - routes[i].quality;
    }
    assert false;
  }

  method SelectRouteExcluding(routes: seq<KeptRoute>, exclude: Callsign, hash: nat) returns (n: Option<Callsign>, ghost chosen: nat)
    ensures n == SelectedHop(routes, exclude, hash)
    ensures n.None? <==> Total(routes, exclude) == 0
    ensures n.Some? ==>
      && chosen < |routes| && n.value == routes[chosen].neighbour
      && Share(routes, exclude, chosen, hash % Total(routes, exclude))
      && n.value != exclude && routes[chosen].quality > 0
  {
    var total := EligibleTotal(routes, exclude);
    if total == 0 {
      return None, 0;
    }
    var at := Owner(routes, exclude, hash % total);
    return Some(routes[at].neighbour), at;
  }

  lemma NextTotal(routes: seq<KeptRoute>, exclude: Callsign, i: nat)
    requires i < |routes|
    ensures Total(routes[..i + 1], exclude) == Total(routes[..i], exclude) + Weight(routes[i], exclude)
  {
    assert routes[..i + 1] == routes[..i] + [routes[i]];
    TotalInPieces(routes[..i], [routes[i]], exclude);
    assert Total([routes[i]], exclude) == Weight(routes[i], exclude);
  }

  /** Shares are disjoint, so a residue has one owner. */
  lemma OneOwner(routes: seq<KeptRoute>, exclude: Callsign, i: nat, j: nat, t: nat)
    requires i < |routes| && j < |routes| && Share(routes, exclude, i, t) && Share(routes, exclude, j, t)
    ensures i == j
  {
    if i < j { TotalGrows(routes, exclude, i + 1, j); NextTotal(routes, exclude, i); }
    if j < i { TotalGrows(routes, exclude, j + 1, i); NextTotal(routes, exclude, j); }
  }

  lemma TotalGrows(routes: seq<KeptRoute>, exclude: Callsign, i: nat, j: nat)
    requires i <= j <= |routes|
    ensures Total(routes[..i], exclude) <= Total(routes[..j], exclude)
  {
    assert routes[..j] == routes[..i] + routes[i..j];
    TotalInPieces(routes[..i], routes[i..j], exclude);
  }

  predicate AtLeast(t: nat, lo: nat) { lo <= t }

  function Residues(lo: nat, hi: nat): set<nat>
    requires lo <= hi
  {
    set t: nat | t < hi && AtLeast(t, lo)
  }

  lemma {:induction false} ResidueCount(lo: nat, hi: nat)
    requires lo <= hi
    ensures |Residues(lo, hi)| == hi - lo
    decreases hi
  {
    if lo < hi {
      ResidueCount(lo, hi - 1);
      assert Residues(lo, hi) == Residues(lo, hi - 1) + {hi - 1};
    }
  }

  /** Of the residues below the total, each route gets exactly its quality in number:
      none for a route of quality 0 and none for the one that leads back. */
  lemma SharesAreQualities(routes: seq<KeptRoute>, exclude: Callsign, i: nat)
    requires i < |routes|
    ensures |set t: nat | t < Total(routes, exclude) && Share(routes, exclude, i, t)|
      == if routes[i].neighbour == exclude then 0 else routes[i].quality
  {
    var lo, total := Total(routes[..i], exclude), Total(routes, exclude);
    var hi := lo + Weight(routes[i], exclude);
    NextTotal(routes, exclude, i);
    TotalGrows(routes, exclude, i + 1, |routes|);
    assert routes[..|routes|] == routes;
    ResidueCount(lo, hi);
    assert (set t: nat | t < total && Share(routes, exclude, i, t)) == Residues(lo, hi);
  }
}
