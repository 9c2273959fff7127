/**
 The window condition is exact. Where a receiver buffers out of order and the
 two windows together exceed the modulus, one lost acknowledgement is enough
 for a retransmitted old frame to be delivered in place of a new one.
 */
module SelectiveRepeatLimit {
  import opened Common
  import opened LinkContext
  import opened SelectiveRepeat
  import opened SelectiveRepeatSafety

  const X := Payload([], 0)

  function Copies(n: nat): seq<Payload> { seq(n, _ => X) }

  datatype Config = Config(isExtended: bool, a: Setup, b: Setup)

  function Fresh(g: Config): (l: Link)
    ensures WellFormed(l)
  {
    FreshLink(g.isExtended, g.a, g.b)
  }

  /** The modulus of the link. */
  function Ring(g: Config): nat { Modulus(Fresh(g).a.ctx) }

  /** Counters here run up to the modulus and no further. */
  function Number(t: nat, m: nat): nat { if t == m then 0 else t }

  lemma NumberSteps(t: nat, m: nat)
    requires m == 8 || m == 128
    requires t < m
    ensures (t + 1) % m == Number(t + 1, m)
  {
    if m == 8 {} else {}
  }

  lemma OffsetOfNumbers(t: nat, v: nat, m: nat)
    requires m == 8 || m == 128
    requires t < m && v < m
    ensures Offset(t, v, m) == if v <= t then t - v else t + m - v
  {
    if m == 8 {} else {}
  }

  /** `n` payloads submitted at A, `sent` of them sent and delivered at B, of
      which A knows `acked`; `stale` tells whether B holds a frame under 0. */
  ghost predicate Stage(l: Link, g: Config, n: nat, sent: nat, acked: nat, stale: bool) {
    var m := Ring(g);
    && WellFormed(l) && acked <= sent <= n <= m && sent < m && l.ab == [] && l.ba == []
    && l.a.ctx == Context(sent, acked, 0, g.a.k, g.isExtended, g.a.srejEnabled, g.a.clampSrejWindow,
                          Copies(n - sent), l.a.ctx.sentFrames, map[], {})
    && (acked == 0 < sent ==> 0 in l.a.ctx.sentFrames)
    && |l.a.submitted| == n
    && l.b.ctx == Context(0, 0, sent, g.b.k, g.isExtended, g.b.srejEnabled, g.b.clampSrejWindow,
                          [], map[], l.b.ctx.storedFrames, {})
    && l.b.ctx.storedFrames.Keys == (if stale then {0} else {})
    && |l.b.delivered| == sent
  }

  function WindowA(g: Config): nat { W(FreshStation(g.isExtended, g.a)) }
  function WindowB(g: Config): nat { W(FreshStation(g.isExtended, g.b)) }

  /** A transmits the next payload and B receives it. */
  function Transfer(l: Link): (l': Link)
    requires WellFormed(l)
    ensures WellFormed(l')
  {
    Apply(Apply(l, SendNext(A)), Receive(B, true))
  }

  function Replay(l: Link): (l': Link)
    requires WellFormed(l)
    ensures WellFormed(l')
  {
    Apply(Apply(l, Resend(A, 0, false)), Receive(B, true))
  }

  function Confirm(l: Link): (l': Link)
    requires WellFormed(l)
    ensures WellFormed(l')
  {
    Apply(Apply(l, SendS(B)), Receive(A, true))
  }

  lemma SubmitStage(l: Link, g: Config, n: nat)
    requires Stage(l, g, n, 0, 0, false) && n < Ring(g)
    ensures Stage(Apply(l, Submit(A, X)), g, n + 1, 0, 0, false)
  {
    assert Copies(n + 1) == Copies(n) + [X];
  }

  lemma SendStage(l: Link, g: Config, n: nat, sent: nat, acked: nat, stale: bool)
    requires Stage(l, g, n, sent, acked, stale) && sent < n && sent - acked < WindowA(g)
    ensures CanSend(l.a)
    ensures NewFrame(l.a) == IFrame(sent, X, 0, l.a.sent, |l.a.delivered|)
    ensures AfterSend(l.a).ctx == l.a.ctx.(vs := Number(sent + 1, Ring(g)), queue := Copies(n - sent - 1),
                                           sentFrames := l.a.ctx.sentFrames[sent := X])
  {
    OffsetOfNumbers(sent, acked, Ring(g));
    NumberSteps(sent, Ring(g));
    assert Copies(n - sent)[1..] == Copies(n - sent - 1);
  }

  /** B takes a frame in sequence. */
  lemma ReceiveStage(l: Link, g: Config, n: nat, sent: nat, acked: nat, stale: bool, p: Packet)
    requires Stage(l, g, n, sent, acked, stale) && p.IFrame? && p.nr == 0 && p.ns == sent && p.payload == X
    ensures AfterReceive(l.b, p, true) == Drained(InSequence(l.b, X))
    ensures InSequence(l.b, X).ctx == l.b.ctx.(vr := Number(sent + 1, Ring(g)))
  {
    OffsetOfNumbers(0, 0, Ring(g));
    InfoCases(l.b, p);
    NumberSteps(sent, Ring(g));
  }

  lemma TransferUnfolds(l: Link)
    requires WellFormed(l) && CanSend(l.a) && l.ab == []
    ensures Transfer(l) == l.(a := AfterSend(l.a), b := AfterReceive(l.b, NewFrame(l.a), true), ab := [])
  {
    assert (l.ab + [NewFrame(l.a)])[1..] == [];
  }

  /** A transfer below the modulus advances both ends. */
  lemma TransferStage(l: Link, g: Config, n: nat, sent: nat, acked: nat, stale: bool)
    requires Stage(l, g, n, sent, acked, stale) && sent < n && sent - acked < WindowA(g) && sent + 1 < Ring(g)
    ensures Stage(Transfer(l), g, n, sent + 1, acked, stale)
  {
    SendStage(l, g, n, sent, acked, stale);
    ReceiveStage(l, g, n, sent, acked, stale, NewFrame(l.a));
    TransferUnfolds(l);
    var b1 := InSequence(l.b, X);
    assert Drain(b1.ctx) == (b1.ctx, []);
    assert b1.delivered + [] == b1.delivered;
  }

  /** The transfer that completes the ring releases what is stored under 0:
      B has now been handed more payloads than A ever submitted. */
  lemma LastTransfer(l: Link, g: Config, acked: nat)
    requires Stage(l, g, Ring(g), Ring(g) - 1, acked, true) && Ring(g) - 1 - acked < WindowA(g)
    ensures |Transfer(l).b.delivered| > |Transfer(l).a.submitted|
  {
    var sent := Ring(g) - 1;
    SendStage(l, g, Ring(g), sent, acked, true);
    ReceiveStage(l, g, Ring(g), sent, acked, true, NewFrame(l.a));
    TransferUnfolds(l);
    var b1 := InSequence(l.b, X);
    assert VrIFrameStored(b1.ctx);
    assert |Drain(b1.ctx).1| >= 1;
  }

  /** Frame 0 is sent again although B has delivered it; B stores it as new. */
  lemma ReplayStage(l: Link, g: Config, n: nat)
    requires Stage(l, g, n, WindowA(g), 0, false) && 0 < WindowA(g)
    requires g.b.srejEnabled && WindowA(g) + WindowB(g) > Ring(g)
    ensures Stage(Replay(l), g, n, WindowA(g), 0, true)
  {
    var p := OldFrame(l.a, 0, l.a.ctx.sentFrames[0]);
    OffsetOfNumbers(0, 0, Ring(g));
    OffsetOfNumbers(0, WindowA(g), Ring(g));
    InfoCases(l.b, p);
    assert AfterReceive(l.b, p, true) == Stored(l.b, p);
    assert (l.ab + [p])[1..] == [];
    assert l.a.(ctx := l.a.ctx) == l.a;
    assert Replay(l) == l.(b := Stored(l.b, p));
  }

  /** B's acknowledgement reaches A. */
  lemma ConfirmStage(l: Link, g: Config, n: nat, sent: nat, acked: nat, stale: bool)
    requires Stage(l, g, n, sent, acked, stale) && 0 < sent
    ensures Stage(Confirm(l), g, n, sent, sent, stale)
  {
    var p := SupervisoryFrame(l.b);
    OffsetOfNumbers(sent, acked, Ring(g));
    assert (l.ba + [p])[1..] == [];
    assert Confirm(l) == l.(a := AfterAck(l.a, p));
  }

  // ----- the run ------------------------------------------------------------

  lemma RunTwo(l: Link, events: seq<Event>, e: Event, f: Event)
    requires WellFormed(l)
    ensures Run(l, events + [e, f]) == Apply(Apply(Run(l, events), e), f)
  {
    RunSnoc(l, events, e);
    RunSnoc(l, events + [e], f);
    assert events + [e] + [f] == events + [e, f];
  }

  lemma SubmitAll(g: Config) returns (events: seq<Event>)
    ensures Stage(Run(Fresh(g), events), g, Ring(g), 0, 0, false)
  {
    events := [];
    var n := 0;
    while n < Ring(g)
      invariant n <= Ring(g) && Stage(Run(Fresh(g), events), g, n, 0, 0, false)
    {
      SubmitStage(Run(Fresh(g), events), g, n);
      RunSnoc(Fresh(g), events, Submit(A, X));
      events, n := events + [Submit(A, X)], n + 1;
    }
  }

  lemma OneMoreInWindow(g: Config, events: seq<Event>, sent: nat)
    requires Stage(Run(Fresh(g), events), g, Ring(g), sent, 0, false) && sent < WindowA(g)
    ensures Stage(Run(Fresh(g), events + [SendNext(A), Receive(B, true)]), g, Ring(g), sent + 1, 0, false)
  {
    TransferStage(Run(Fresh(g), events), g, Ring(g), sent, 0, false);
    RunTwo(Fresh(g), events, SendNext(A), Receive(B, true));
  }

  lemma FillWindow(g: Config) returns (events: seq<Event>)
    ensures Stage(Run(Fresh(g), events), g, Ring(g), WindowA(g), 0, false)
  {
    events := SubmitAll(g);
    var sent := 0;
    while sent < WindowA(g)
      invariant sent <= WindowA(g) && Stage(Run(Fresh(g), events), g, Ring(g), sent, 0, false)
    {
      OneMoreInWindow(g, events, sent);
      events, sent := events + [SendNext(A), Receive(B, true)], sent + 1;
    }
  }

  lemma PlantStale(g: Config) returns (events: seq<Event>)
    requires g.b.srejEnabled && WindowA(g) + WindowB(g) > Ring(g)
    ensures Stage(Run(Fresh(g), events), g, Ring(g), WindowA(g), WindowA(g), true)
  {
    events := FillWindow(g);
    ReplayStage(Run(Fresh(g), events), g, Ring(g));
    RunTwo(Fresh(g), events, Resend(A, 0, false), Receive(B, true));
    events := events + [Resend(A, 0, false), Receive(B, true)];
    ConfirmStage(Run(Fresh(g), events), g, Ring(g), WindowA(g), 0, true);
    RunTwo(Fresh(g), events, SendS(B), Receive(A, true));
    events := events + [SendS(B), Receive(A, true)];
  }

  /** One more frame transferred and acknowledged around the stale one. */
  lemma Round(g: Config, events: seq<Event>, sent: nat) returns (longer: seq<Event>)
    requires Stage(Run(Fresh(g), events), g, Ring(g), sent, sent, true)
    requires sent + 1 < Ring(g) && 0 < WindowA(g)
    ensures Stage(Run(Fresh(g), longer), g, Ring(g), sent + 1, sent + 1, true)
  {
    TransferStage(Run(Fresh(g), events), g, Ring(g), sent, sent, true);
    RunTwo(Fresh(g), events, SendNext(A), Receive(B, true));
    longer := events + [SendNext(A), Receive(B, true)];
    ConfirmStage(Run(Fresh(g), longer), g, Ring(g), sent + 1, sent, true);
    RunTwo(Fresh(g), longer, SendS(B), Receive(A, true));
    longer := longer + [SendS(B), Receive(A, true)];
  }

  /** A run that leaves only the stale frame's number to be used. */
  lemma GoRound(g: Config) returns (events: seq<Event>)
    requires g.b.srejEnabled && WindowA(g) + WindowB(g) > Ring(g)
    ensures Stage(Run(Fresh(g), events), g, Ring(g), Ring(g) - 1, Ring(g) - 1, true)
  {
    events := PlantStale(g);
    var sent := WindowA(g);
    while sent < Ring(g) - 1
      invariant WindowA(g) <= sent <= Ring(g) - 1
      invariant Stage(Run(Fresh(g), events), g, Ring(g), sent, sent, true)
    {
      events := Round(g, events, sent);
      sent := sent + 1;
    }
  }

  /** A run in which B delivers more than A submitted. */
  lemma Overrun(g: Config) returns (events: seq<Event>)
    requires g.b.srejEnabled && WindowA(g) + WindowB(g) > Ring(g)
    ensures |Run(Fresh(g), events).b.delivered| > |Run(Fresh(g), events).a.submitted|
  {
    events := GoRound(g);
    LastTransfer(Run(Fresh(g), events), g, Ring(g) - 1);
    RunTwo(Fresh(g), events, SendNext(A), Receive(B, true));
    events := events + [SendNext(A), Receive(B, true)];
  }

  // ----- both directions ------------------------------------------------------

  lemma UnfitLinkFails(isExtended: bool, a: Setup, b: Setup) returns (events: seq<Event>)
    requires !Fits(isExtended, a, b)
    ensures !Faithful(Run(FreshLink(isExtended, a, b), events))
  {
    var g := Config(isExtended, a, b);
    if g.b.srejEnabled && WindowA(g) + WindowB(g) > Ring(g) {
      events := Overrun(g);
    } else {
      var g' := Config(isExtended, b, a);
      var mirrored := Overrun(g');
      assert Fresh(g) == Mirror(Fresh(g'));
      events := OppositeAll(mirrored);
      RunMirrors(Fresh(g'), mirrored);
    }
  }

  /** A link delivers faithfully in every run exactly when each end that
      buffers out of order has the two windows sum to at most the modulus. */
  lemma FaithfulExactlyWhenWindowsFit(isExtended: bool, a: Setup, b: Setup)
    ensures (forall events :: Faithful(Run(FreshLink(isExtended, a, b), events))) <==> Fits(isExtended, a, b)
  {
    if Fits(isExtended, a, b) {
      forall events ensures Faithful(Run(FreshLink(isExtended, a, b), events)) {
        RunIsFaithful(isExtended, a, b, events);
      }
    } else {
      var events := UnfitLinkFails(isExtended, a, b);
    }
  }
}
