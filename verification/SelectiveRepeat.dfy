/**
 Two stations exchanging I and S frames over a pair of FIFO channels that may
 lose any frame. The stations decide everything from their modular `Context`;
 the absolute numbers `nsTag` and `nrTag` on a frame, and the counters `sent`
 and `acked` on a station, only record history so that the claims can be
 stated. No guard or action reads them.
 */
module SelectiveRepeat {
  import opened Common
  import opened LinkContext

  datatype Packet =
    | IFrame(ns: nat, payload: Payload, nr: nat, nsTag: nat, nrTag: nat)
    | SFrame(nr: nat, nrTag: nat)

  datatype Station = Station(
    ctx: Context,
    submitted: seq<Payload>,   // everything the user handed over
    delivered: seq<Payload>,   // everything handed up to the user
    sent: nat,                 // how many distinct frames went out
    acked: nat)                // how many of them were acknowledged

  datatype Link = Link(a: Station, b: Station, ab: seq<Packet>, ba: seq<Packet>)

  datatype Side = A | B

  datatype Event =
    | Submit(side: Side, payload: Payload)
    | SendNext(side: Side)
    | Resend(side: Side, ns: nat, selective: bool)
    | SendS(side: Side)
    | Lose(side: Side, index: nat)
    | Receive(side: Side, accept: bool)  // accept is false where the station discards I contents

  // ----- one station ------------------------------------------------------

  function SubmitTo(s: Station, p: Payload): Station {
    s.(ctx := s.ctx.(queue := s.ctx.queue + [p]), submitted := s.submitted + [p])
  }

  predicate CanSend(s: Station)
    requires InRange(s.ctx)
  {
    s.ctx.queue != [] && !VsEqVaPlusK(s.ctx)
  }

  function NewFrame(s: Station): Packet
    requires s.ctx.queue != []
  {
    IFrame(s.ctx.vs, s.ctx.queue[0], s.ctx.vr, s.sent, |s.delivered|)
  }

  function AfterSend(s: Station): (r: Station)
    requires s.ctx.queue != []
    ensures InRange(s.ctx) ==> InRange(r.ctx)
    ensures r.ctx.isExtended == s.ctx.isExtended
  {
    var c := s.ctx.(queue := s.ctx.queue[1..]);
    s.(ctx := EmitIFrame(c, s.ctx.queue[0]), sent := s.sent + 1)
  }

  /** The history tag of a frame kept for retransmission. */
  function TagOf(s: Station, ns: nat): nat
    requires InRange(s.ctx)
  {
    s.acked + Offset(ns, s.ctx.va, Modulus(s.ctx))
  }

  function OldFrame(s: Station, ns: nat, p: Payload): Packet
    requires InRange(s.ctx)
  {
    IFrame(ns, p, s.ctx.vr, TagOf(s, ns), |s.delivered|)
  }

  function SupervisoryFrame(s: Station): Packet {
    SFrame(s.ctx.vr, |s.delivered|)
  }

  function AfterAck(s: Station, p: Packet): Station
    requires InRange(s.ctx) && p.nr < Modulus(s.ctx)
  {
    s.(ctx := AcknowledgeTo(s.ctx, p.nr), acked := if p.nr == s.ctx.va then s.acked else p.nrTag)
  }

  function AfterInfo(s: Station, p: Packet): Station
    requires InRange(s.ctx) && p.IFrame? && p.ns < Modulus(s.ctx)
  {
    var r := AcceptIFrame(s.ctx, p.ns, p.payload);
    s.(ctx := r.0, delivered := s.delivered + r.1)
  }

  /** A frame whose N(R) is outside V(A)..V(S) goes to N(R) error recovery,
      which is not modelled: the frame has no further effect. */
  function AfterReceive(s: Station, p: Packet, accept: bool): (r: Station)
    requires InRange(s.ctx) && p.nr < Modulus(s.ctx)
    requires p.IFrame? ==> p.ns < Modulus(s.ctx)
    ensures InRange(r.ctx) && r.ctx.isExtended == s.ctx.isExtended
  {
    if !VaLeNrLeVs(s.ctx, p.nr) then s
    else
      var s1 := AfterAck(s, p);
      if p.IFrame? && accept then AfterInfo(s1, p) else s1
  }

  // ----- the link ---------------------------------------------------------

  predicate FieldsInRange(ch: seq<Packet>, m: nat) {
    forall p :: p in ch ==> p.nr < m && (p.IFrame? ==> p.ns < m)
  }

  predicate WellFormed(l: Link) {
    InRange(l.a.ctx) && InRange(l.b.ctx) && l.a.ctx.isExtended == l.b.ctx.isExtended &&
    FieldsInRange(l.ab, Modulus(l.a.ctx)) && FieldsInRange(l.ba, Modulus(l.a.ctx))
  }

  function Mirror(l: Link): Link { Link(l.b, l.a, l.ba, l.ab) }

  /** An event at station A. */
  function ApplyAtA(l: Link, e: Event): (l': Link)
    requires WellFormed(l)
    ensures WellFormed(l')
  {
    match e
    case Submit(_, p) => l.(a := SubmitTo(l.a, p))
    case SendNext(_) =>
      if CanSend(l.a) then l.(a := AfterSend(l.a), ab := l.ab + [NewFrame(l.a)]) else l
    case Resend(_, ns, selective) =>
      var (c, p) := EmitOldIFrame(l.a.ctx, ns, selective);
      l.(a := l.a.(ctx := c),
         ab := if p.Some? then l.ab + [OldFrame(l.a, ns, p.value)] else l.ab)
    case SendS(_) => l.(ab := l.ab + [SupervisoryFrame(l.a)])
    case Lose(_, i) => if i < |l.ba| then l.(ba := l.ba[..i] + l.ba[i + 1..]) else l
    case Receive(_, accept) =>
      if l.ba == [] then l
      else l.(a := AfterReceive(l.a, l.ba[0], accept), ba := l.ba[1..])
  }

  function Apply(l: Link, e: Event): (l': Link)
    requires WellFormed(l)
    ensures WellFormed(l')
  {
    if e.side == A then ApplyAtA(l, e) else Mirror(ApplyAtA(Mirror(l), e))
  }

  function Run(l: Link, events: seq<Event>): (l': Link)
    requires WellFormed(l)
    ensures WellFormed(l')
    decreases |events|
  {
    if events == [] then l
    else Apply(Run(l, events[..|events| - 1]), events[|events| - 1])
  }

  /** What a connection is set up with. */
  datatype Setup = Setup(k: nat, srejEnabled: bool, clampSrejWindow: bool)

  function FreshStation(isExtended: bool, u: Setup): Station {
    Station(Context(0, 0, 0, u.k, isExtended, u.srejEnabled, u.clampSrejWindow, [], map[], map[], {}),
            [], [], 0, 0)
  }

  function FreshLink(isExtended: bool, a: Setup, b: Setup): (l: Link)
    ensures WellFormed(l)
  {
    Link(FreshStation(isExtended, a), FreshStation(isExtended, b), [], [])
  }

  lemma RunSnoc(l: Link, events: seq<Event>, e: Event)
    requires WellFormed(l)
    ensures Run(l, events + [e]) == Apply(Run(l, events), e)
  {
    assert (events + [e])[..|events|] == events;
  }

  // ----- the link seen from the other end ---------------------------------

  function Opposite(e: Event): Event {
    var side := if e.side == A then B else A;
    match e
    case Submit(_, p) => Submit(side, p)
    case SendNext(_) => SendNext(side)
    case Resend(_, n, v) => Resend(side, n, v)
    case SendS(_) => SendS(side)
    case Lose(_, i) => Lose(side, i)
    case Receive(_, v) => Receive(side, v)
  }

  function OppositeAll(events: seq<Event>): seq<Event> {
    seq(|events|, i requires 0 <= i < |events| => Opposite(events[i]))
  }

  lemma ApplyMirrors(l: Link, e: Event)
    requires WellFormed(l)
    ensures Apply(Mirror(l), Opposite(e)) == Mirror(Apply(l, e))
  {
    if e.side == A {
      assert Mirror(Mirror(l)) == l;
      assert ApplyAtA(l, Opposite(e)) == ApplyAtA(l, e);
    } else {
      assert ApplyAtA(Mirror(l), Opposite(e)) == ApplyAtA(Mirror(l), e);
    }
  }

  lemma {:induction false} RunMirrors(l: Link, events: seq<Event>)
    requires WellFormed(l)
    ensures Run(Mirror(l), OppositeAll(events)) == Mirror(Run(l, events))
    decreases |events|
  {
    if events != [] {
      var init, e := events[..|events| - 1], events[|events| - 1];
      assert events == init + [e];
      assert OppositeAll(events) == OppositeAll(init) + [Opposite(e)];
      RunMirrors(l, init);
      RunSnoc(Mirror(l), OppositeAll(init), Opposite(e));
      ApplyMirrors(Run(l, init), e);
    } else {
      assert OppositeAll(events) == [];
    }
  }
}
