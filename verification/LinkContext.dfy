/**
 The per-session state of an AX.25 connected-mode link (sdl/context.rs), the
 guards that read its sequence variables (sdl/guard.rs) and the actions that
 change them (sdl/dispatch.rs).

 `Context` is the state as a value; every guard and action is a function of it.
 `SessionContext` is the mutable struct of the source, each method of which is
 proved to compute exactly the corresponding function.
 */
module LinkContext {
  import opened Common

  datatype Payload = Payload(data: Bytes, pid: Byte)

  datatype Context = Context(
    vs: nat, va: nat, vr: nat,
    k: nat,
    isExtended: bool, srejEnabled: bool, clampSrejWindow: bool,
    queue: seq<Payload>,
    sentFrames: map<nat, Payload>,
    storedFrames: map<nat, Payload>,
    resentSinceAck: set<nat>)

  /** Every sequence number held is below the modulus. */
  predicate InRange(c: Context) {
    && c.vs < Modulus(c) && c.va < Modulus(c) && c.vr < Modulus(c)
    && (forall n :: n in c.sentFrames ==> n < Modulus(c))
    && (forall n :: n in c.storedFrames ==> n < Modulus(c))
  }

  function Modulus(c: Context): (m: nat)
    ensures m == 8 || m == 128
  {
    if c.isExtended then 128 else 8
  }

  function IncrementSeq(c: Context, value: nat): nat {
    (value + 1) % Modulus(c)
  }

  /** How far `to` lies ahead of `from` on the ring of `m` sequence numbers. */
  function Offset(to: nat, from: nat, m: nat): nat
    requires from <= m && 0 < m
  {
    (to + m - from) % m
  }

  function OutstandingCount(c: Context): nat
    requires InRange(c)
  {
    Offset(c.vs, c.va, Modulus(c))
  }

  predicate IsOutstanding(c: Context, ns: nat)
    requires InRange(c)
  {
    Offset(ns, c.va, Modulus(c)) < OutstandingCount(c)
  }

  function Min(a: nat, b: nat): nat { if a <= b then a else b }

  /** The window actually enforced: `k`, cut to half the modulus while
      selective reject is in force, and never the whole modulus. It is cut for
      no other reason. */
  function EffectiveWindow(c: Context): (w: nat)
    ensures w < Modulus(c) && w <= c.k
    ensures c.clampSrejWindow && c.srejEnabled ==> 2 * w <= Modulus(c)
    ensures w < c.k ==> w + 1 == Modulus(c) || (c.clampSrejWindow && c.srejEnabled && 2 * w == Modulus(c))
  {
    if c.clampSrejWindow && c.srejEnabled then Min(c.k, Modulus(c) / 2)
    else Min(c.k, Modulus(c) - 1)
  }

  // ----- guards -----------------------------------------------------------

  predicate VsEqVaPlusK(c: Context)
    requires InRange(c)
  {
    OutstandingCount(c) >= EffectiveWindow(c)
  }

  predicate NsEqVr(c: Context, ns: nat) { ns == c.vr }

  predicate VrLtNsLtVrPlusK(c: Context, ns: nat)
    requires InRange(c)
  {
    0 < Offset(ns, c.vr, Modulus(c)) < EffectiveWindow(c)
  }

  predicate VaLeNrLeVs(c: Context, nr: nat)
    requires InRange(c)
  {
    Offset(nr, c.va, Modulus(c)) <= OutstandingCount(c)
  }

  predicate VrIFrameStored(c: Context) { c.vr in c.storedFrames }

  // ----- actions ----------------------------------------------------------

  /** A payload pops off the queue: it is emitted at N(S) = V(S), kept for
      retransmission under that number, and V(S) advances. */
  function EmitIFrame(c: Context, p: Payload): (r: Context)
    ensures InRange(c) ==> InRange(r)
  {
    c.(vs := IncrementSeq(c, c.vs),
       sentFrames := c.sentFrames[c.vs := p],
       resentSinceAck := c.resentSinceAck - {c.vs})
  }

  /** Retransmission of the frame kept under `ns`, if it may and can be sent. */
  function EmitOldIFrame(c: Context, ns: nat, selective: bool): (r: (Context, Option<Payload>))
    requires InRange(c)
    ensures InRange(r.0)
    ensures r.1.Some? ==> ns in c.sentFrames && r.1.value == c.sentFrames[ns]
  {
    if selective && (!IsOutstanding(c, ns) || ns in c.resentSinceAck) then
      (c, None)
    else
      var c' := if selective then c.(resentSinceAck := c.resentSinceAck + {ns}) else c;
      (c', if ns in c.sentFrames then Some(c.sentFrames[ns]) else None)
  }

  /** The session and the payloads sent after a series of selective retransmissions
      without any acknowledgement between them. */
  function Repeated(c: Context, asked: seq<nat>): (r: (Context, seq<nat>))
    requires InRange(c)
    ensures InRange(r.0)
    decreases |asked|
  {
    if asked == [] then (c, [])
    else
      var (c1, sent) := Repeated(c, asked[..|asked| - 1]);
      var ns := asked[|asked| - 1];
      var (c2, p) := EmitOldIFrame(c1, ns, true);
      (c2, if p.Some? then sent + [ns] else sent)
  }

  /** A number may be asked for again and again: until an acknowledgement makes progress
      its frame is repeated once if it is outstanding, kept and not yet repeated, and not
      at all otherwise. */
  lemma {:induction false} RepeatedOnce(c: Context, asked: seq<nat>, ns: nat)
    requires InRange(c)
    ensures
      var (c', sent) := Repeated(c, asked);
      && c' == c.(resentSinceAck := c'.resentSinceAck)
      && (ns in c'.resentSinceAck <==> ns in c.resentSinceAck || (ns in asked && IsOutstanding(c, ns)))
      && multiset(sent)[ns]
          == if ns in asked && IsOutstanding(c, ns) && ns in c.sentFrames && ns !in c.resentSinceAck then 1 else 0
    decreases |asked|
  {
    if asked != [] {
      var init, last := asked[..|asked| - 1], asked[|asked| - 1];
      RepeatedOnce(c, init, ns);
      assert asked == init + [last];
      assert ns in asked <==> ns in init || ns == last;
    }
  }

  /** Progress of the acknowledgement, and nothing else an acknowledgement does, opens
      the next cycle. */
  lemma ProgressOpensCycle(c: Context, nr: nat)
    requires InRange(c) && nr < Modulus(c)
    ensures AcknowledgeTo(c, nr).resentSinceAck == if nr == c.va then c.resentSinceAck else {}
  {}

  function Prune(c: Context): (r: Context)
    requires InRange(c)
    ensures InRange(r)
  {
    c.(sentFrames := map n | n in c.sentFrames && IsOutstanding(c, n) :: c.sentFrames[n])
  }

  /** V(A) := N(R); on progress the acknowledged frames are forgotten. */
  function AcknowledgeTo(c: Context, nr: nat): (r: Context)
    requires InRange(c) && nr < Modulus(c)
    ensures InRange(r)
  {
    if nr == c.va then c
    else Prune(c.(va := nr, resentSinceAck := {}))
  }

  /** Deliver stored frames while the next expected one is stored. */
  function Drain(c: Context): (r: (Context, seq<Payload>))
    ensures r.0 == c.(vr := r.0.vr, storedFrames := r.0.storedFrames)
    ensures InRange(c) ==> InRange(r.0)
    decreases |c.storedFrames|
  {
    if VrIFrameStored(c) then
      DrainShrinks(c);
      var rest := Drain(TakeStored(c));
      (rest.0, [c.storedFrames[c.vr]] + rest.1)
    else
      (c, [])
  }

  function TakeStored(c: Context): Context {
    c.(storedFrames := c.storedFrames - {c.vr}, vr := IncrementSeq(c, c.vr))
  }

  lemma DrainShrinks(c: Context)
    requires VrIFrameStored(c)
    ensures |TakeStored(c).storedFrames| < |c.storedFrames|
  {
    var rest := c.storedFrames - {c.vr};
    assert c.storedFrames.Keys == rest.Keys + {c.vr};
    assert |c.storedFrames.Keys| == |rest.Keys| + 1;
  }

  /** The number `i` places after V(R). */
  function Following(c: Context, i: nat): nat { (c.vr + i) % Modulus(c) }

  function Released(c: Context, n: nat): set<nat> {
    set i | 0 <= i < n :: Following(c, i)
  }

  lemma OnceRound(i: nat, m: nat)
    requires m == 8 || m == 128
    ensures (m + i) % m == i % m
  {
    var q, p := i / m, (m + i) / m;
    assert i == m * q + i % m && m + i == m * p + (m + i) % m;
    assert p == q + 1;
  }

  lemma FollowingTaken(c: Context, i: nat)
    requires InRange(c)
    ensures Following(TakeStored(c), i) == Following(c, i + 1)
  {
    OnceRound(i, Modulus(c));
    assert TakeStored(c).vr == if c.vr + 1 == Modulus(c) then 0 else c.vr + 1;
  }

  lemma ReleasedTaken(c: Context, n: nat)
    requires InRange(c)
    ensures Released(c, n + 1) == {c.vr} + Released(TakeStored(c), n)
  {
    assert Following(c, 0) == c.vr;
    forall x | x in Released(c, n + 1) ensures x in {c.vr} + Released(TakeStored(c), n) {
      var i: nat :| i < n + 1 && x == Following(c, i);
      if i > 0 {
        FollowingTaken(c, i - 1);
        assert Following(TakeStored(c), i - 1) == x;
      }
    }
    forall x | x in Released(TakeStored(c), n) ensures x in Released(c, n + 1) {
      var i: nat :| i < n && x == Following(TakeStored(c), i);
      FollowingTaken(c, i);
      assert Following(c, i + 1) == x;
    }
  }

  /** What comes out of the store are the payloads kept under V(R) and the numbers after
      it, in that order, as far as they go without a gap; exactly those leave it. */
  lemma {:induction false} DrainedExactly(c: Context)
    requires InRange(c)
    ensures DrainsTo(c, Drain(c).0, Drain(c).1)
    decreases |c.storedFrames|
  {
    if VrIFrameStored(c) {
      DrainShrinks(c);
      DrainedExactly(TakeStored(c));
      OneMoreDrained(c, Drain(TakeStored(c)).0, Drain(TakeStored(c)).1);
    } else {
      assert Released(c, 0) == {};
    }
  }

  predicate DrainsTo(c: Context, d: Context, up: seq<Payload>) {
    && (forall i :: 0 <= i < |up| ==> Following(c, i) in c.storedFrames && up[i] == c.storedFrames[Following(c, i)])
    && d.vr == Following(c, |up|) && d.vr !in d.storedFrames
    && d.storedFrames == c.storedFrames - Released(c, |up|)
  }

  lemma OneMoreDrained(c: Context, d: Context, up: seq<Payload>)
    requires InRange(c) && VrIFrameStored(c) && DrainsTo(TakeStored(c), d, up)
    ensures DrainsTo(c, d, [c.storedFrames[c.vr]] + up)
  {
    var c1, all := TakeStored(c), [c.storedFrames[c.vr]] + up;
    forall i | 0 <= i < |all|
      ensures Following(c, i) in c.storedFrames && all[i] == c.storedFrames[Following(c, i)]
    {
      if i > 0 {
        FollowingTaken(c, i - 1);
        assert Following(c1, i - 1) in c1.storedFrames;
      }
    }
    FollowingTaken(c, |up|);
    ReleasedTaken(c, |up|);
    assert d.storedFrames == c.storedFrames - {c.vr} - Released(c1, |up|);
  }

  /** The information part of a received I frame: in sequence it is delivered
      together with whatever it releases; ahead of sequence but inside the
      granted window it is stored when selective reject is on; anything else is
      discarded. */
  function AcceptIFrame(c: Context, ns: nat, p: Payload): (r: (Context, seq<Payload>))
    requires InRange(c) && ns < Modulus(c)
    ensures InRange(r.0)
  {
    if NsEqVr(c, ns) then
      var d := Drain(c.(vr := IncrementSeq(c, c.vr)));
      (d.0, [p] + d.1)
    else if c.srejEnabled && VrLtNsLtVrPlusK(c, ns) then
      (c.(storedFrames := c.storedFrames[ns := p]), [])
    else
      (c, [])
  }

  // ----- modular arithmetic against absolute counters ---------------------

  /** Within one modulus either way, the ring distance between two counters
      reduced mod `m` determines the distance between the counters. */
  lemma OffsetOfCounters(t: nat, v: nat, m: nat)
    requires m == 8 || m == 128
    requires v <= t + m && t < v + m
    ensures Offset(t % m, v % m, m) == if v <= t then t - v else if t + m == v then 0 else t + m - v
  {
    if m == 8 {
      OffsetMod8(t, v);
    } else {
      OffsetMod128(t, v);
    }
  }

  lemma OffsetMod8(t: nat, v: nat)
    requires v <= t + 8 && t < v + 8
    ensures (t % 8 + 8 - v % 8) % 8 == if v <= t then t - v else if t + 8 == v then 0 else t + 8 - v
  {
    var qt, rt, qv, rv := t / 8, t % 8, v / 8, v % 8;
    assert t == 8 * qt + rt && v == 8 * qv + rv;
    assert qt == qv || qt == qv + 1 || qt + 1 == qv;
  }

  lemma OffsetMod128(t: nat, v: nat)
    requires v <= t + 128 && t < v + 128
    ensures (t % 128 + 128 - v % 128) % 128 == if v <= t then t - v else if t + 128 == v then 0 else t + 128 - v
  {
    var qt, rt, qv, rv := t / 128, t % 128, v / 128, v % 128;
    assert t == 128 * qt + rt && v == 128 * qv + rv;
    assert qt == qv || qt == qv + 1 || qt + 1 == qv;
  }

  /** Two counters less than a modulus apart share a residue only if equal. */
  lemma ResidueDetermines(a: nat, b: nat, m: nat)
    requires m == 8 || m == 128
    requires a < b + m && b < a + m
    ensures a % m == b % m <==> a == b
  {
    if m == 8 {} else {}
  }

  lemma NextResidue(v: nat, m: nat)
    requires m == 8 || m == 128
    ensures (v % m + 1) % m == (v + 1) % m
  {
    if m == 8 {} else {}
  }

  /** The absolute number at or ahead of counter `v` that has residue `n`. */
  function Ahead(v: nat, n: nat, m: nat): nat
    requires m == 8 || m == 128
    requires n < m
  {
    v + Offset(n, v % m, m)
  }

  lemma AheadResidue(v: nat, n: nat, m: nat)
    requires m == 8 || m == 128
    requires n < m
    ensures v <= Ahead(v, n, m) < v + m
    ensures Ahead(v, n, m) % m == n
  {
    if m == 8 {
      AheadResidue8(v, n);
    } else {
      AheadResidue128(v, n);
    }
  }

  lemma AheadResidue8(v: nat, n: nat)
    requires n < 8
    ensures (v + (n + 8 - v % 8) % 8) % 8 == n
  {}

  lemma AheadResidue128(v: nat, n: nat)
    requires n < 128
    ensures (v + (n + 128 - v % 128) % 128) % 128 == n
  {}

  /** Moving the counter forward does not change which number a residue names,
      as long as it is not passed. */
  lemma AheadStable(v: nat, n: nat, m: nat)
    requires m == 8 || m == 128
    requires n < m && n != v % m
    ensures Ahead(v + 1, n, m) == Ahead(v, n, m)
    ensures Ahead(v, n, m) > v
  {
    AheadResidue(v, n, m);
    AheadResidue(v + 1, n, m);
    ResidueDetermines(Ahead(v + 1, n, m), Ahead(v, n, m), m);
  }

  lemma AheadOfCounter(v: nat, t: nat, m: nat)
    requires m == 8 || m == 128
    requires v <= t < v + m
    ensures t % m < m && Ahead(v, t % m, m) == t
  {
    AheadResidue(v, t % m, m);
    ResidueDetermines(Ahead(v, t % m, m), t, m);
  }
}
