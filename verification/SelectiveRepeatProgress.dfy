/**
 Safety alone would be met by a link that delivers nothing. No reachable state
 of a link is stuck: whatever was lost, from every reachable state some further
 events deliver everything submitted so far.
 */
module SelectiveRepeatProgress {
  import opened Common
  import opened LinkContext
  import opened SelectiveRepeat
  import opened SelectiveRepeatSafety

  /** `l'` is a later state in which nothing new has been submitted. */
  ghost predicate Later(l: Link, l': Link) {
    && Invariant(l') && l'.a.submitted == l.a.submitted && l'.b.submitted == l.b.submitted
    && W(l'.a) == W(l.a) && W(l'.b) == W(l.b)
    && |l'.a.delivered| >= |l.a.delivered| && |l'.b.delivered| >= |l.b.delivered|
  }

  ghost predicate Idle(l: Link) { l.ab == [] && l.ba == [] }

  lemma RunAfter(l: Link, first: seq<Event>, second: seq<Event>)
    requires WellFormed(l)
    ensures Run(l, first + second) == Run(Run(l, first), second)
    decreases |second|
  {
    if second == [] {
      assert first + second == first;
    } else {
      var init, e := second[..|second| - 1], second[|second| - 1];
      assert (first + second)[..|first + second| - 1] == first + init;
      RunAfter(l, first, init);
    }
  }

  lemma RunOne(l: Link, e: Event)
    requires WellFormed(l)
    ensures Run(l, [e]) == Apply(l, e)
  {
    assert [e][..0] == [];
    assert Run(l, []) == l;
  }

  /** All frames in flight are lost. */
  lemma {:induction false} LoseAll(l: Link) returns (events: seq<Event>)
    requires Invariant(l)
    ensures Later(l, Run(l, events)) && Run(l, events) == l.(ab := [], ba := [])
    decreases |l.ab| + |l.ba|
  {
    if Idle(l) {
      events := [];
    } else {
      var e := Lose(if l.ba != [] then A else B, 0);
      StepKeeps(l, e);
      var rest := LoseAll(Apply(l, e));
      RunOne(l, e);
      RunAfter(l, [e], rest);
      events := [e] + rest;
    }
  }

  /** A retransmission of the frame B lacks goes out. */
  lemma Resent(l: Link) returns (e: Event)
    requires Invariant(l) && Idle(l) && Expected(l.b) < l.a.sent
    ensures
      var l' := Apply(l, e);
      && Invariant(l') && l'.a == l.a && l'.b == l.b && l'.ba == []
      && |l'.ab| == 1 && l'.ab[0].IFrame? && l'.ab[0].nsTag == Expected(l.b)
  {
    var ns := Expected(l.b) % M(l.a);
    AheadOfCounter(l.a.acked, Expected(l.b), M(l.a));
    e := Resend(A, ns, false);
    StepKeeps(l, e);
    assert Apply(l, e) == l.(ab := [OldFrame(l.a, ns, l.a.ctx.sentFrames[ns])]) by {
      assert l.a.(ctx := l.a.ctx) == l.a;
    }
  }

  /** A frame B still lacks is retransmitted and arrives. */
  lemma Redeliver(l: Link) returns (events: seq<Event>)
    requires Invariant(l) && Idle(l) && Expected(l.b) < l.a.sent
    ensures Later(l, Run(l, events)) && Idle(Run(l, events))
    ensures |Run(l, events).b.delivered| > |l.b.delivered|
  {
    var e := Resent(l);
    var l1 := Apply(l, e);
    Arrives(l1);
    RunOne(l, e);
    RunOne(l1, Receive(B, true));
    RunAfter(l, [e], [Receive(B, true)]);
    events := [e] + [Receive(B, true)];
  }

  lemma Arrives(l: Link)
    requires Invariant(l) && l.ba == [] && |l.ab| == 1 && l.ab[0].IFrame? && l.ab[0].nsTag == Expected(l.b)
    ensures
      var l' := Apply(l, Receive(B, true));
      Later(l, l') && l'.a == l.a && Idle(l') && |l'.b.delivered| > |l.b.delivered|
  {
    Delivers(l);
    StepKeeps(l, Receive(B, true));
    KeptByReceive(l.b, l.ab[0]);
    assert Apply(l, Receive(B, true)) == Link(l.a, AfterReceive(l.b, l.ab[0], true), [], []);
  }

  lemma Delivers(l: Link)
    requires Invariant(l) && l.ba == [] && |l.ab| == 1 && l.ab[0].IFrame? && l.ab[0].nsTag == Expected(l.b)
    ensures |AfterReceive(l.b, l.ab[0], true).delivered| > |l.b.delivered|
  {
    var p, b1 := l.ab[0], AfterAck(l.b, l.ab[0]);
    AckStepKeeps(Mirror(l));
    Classification(l.a, b1, l.ab, []);
    InfoCases(b1, p);
  }

  lemma KeptByReceive(s: Station, p: Packet)
    requires InRange(s.ctx) && p.nr < Modulus(s.ctx) && (p.IFrame? ==> p.ns < Modulus(s.ctx))
    ensures AfterReceive(s, p, true).submitted == s.submitted && W(AfterReceive(s, p, true)) == W(s)
  {
    ReceiveKeepsWindow(s, p, true);
  }

  /** B's acknowledgement arrives. */
  lemma Confirmed(l: Link) returns (events: seq<Event>)
    requires Invariant(l) && Idle(l)
    ensures Later(l, Run(l, events)) && Idle(Run(l, events))
    ensures Run(l, events).a.acked == Expected(l.b) && Run(l, events).a.sent == l.a.sent
    ensures Run(l, events).b == l.b
  {
    var l1 := Apply(l, SendS(B));
    StepKeeps(l, SendS(B));
    assert l1 == l.(ba := [SupervisoryFrame(l.b)]);
    AcknowledgementArrives(l1);
    RunOne(l, SendS(B));
    RunOne(l1, Receive(A, true));
    RunAfter(l, [SendS(B)], [Receive(A, true)]);
    events := [SendS(B)] + [Receive(A, true)];
  }

  lemma AcknowledgementArrives(l: Link)
    requires Invariant(l) && l.ab == [] && l.ba == [SupervisoryFrame(l.b)]
    ensures
      var l' := Apply(l, Receive(A, true));
      && Later(l, l') && Idle(l') && l'.b == l.b
      && l'.a.acked == Expected(l.b) && l'.a.sent == l.a.sent
  {
    StepKeeps(l, Receive(A, true));
    NrAlwaysValid(l.a, l.b, l.ab, l.ba);
    KeptByReceive(l.a, l.ba[0]);
    assert Apply(l, Receive(A, true)) == Link(AfterAck(l.a, l.ba[0]), l.b, [], []);
  }

  /** Everything sent has arrived: acknowledge it and send one more. */
  lemma SendAnother(l: Link) returns (events: seq<Event>)
    requires Invariant(l) && Idle(l) && Expected(l.b) == l.a.sent < |l.a.submitted| && 0 < W(l.a)
    ensures Later(l, Run(l, events)) && Run(l, events).a.sent == l.a.sent + 1
    ensures Run(l, events).b.delivered == l.b.delivered
  {
    var confirm := Confirmed(l);
    var l1 := Run(l, confirm);
    SendFirst(l1);
    RunAfter(l, confirm, [SendNext(A)]);
    events := confirm + [SendNext(A)];
  }

  /** With nothing outstanding the window is open. */
  lemma SendFirst(l: Link)
    requires Invariant(l) && l.a.acked == l.a.sent < |l.a.submitted| && 0 < W(l.a)
    ensures Later(l, Run(l, [SendNext(A)])) && Run(l, [SendNext(A)]).a.sent == l.a.sent + 1
    ensures Run(l, [SendNext(A)]).b.delivered == l.b.delivered
  {
    OutstandingIsExact(l.a);
    StepKeeps(l, SendNext(A));
    RunOne(l, SendNext(A));
  }

  lemma {:induction false} CanFinish(l: Link) returns (events: seq<Event>)
    requires Invariant(l) && 0 < W(l.a)
    ensures Later(l, Run(l, events)) && Run(l, events).b.delivered == l.a.submitted
    decreases |l.a.submitted| - |l.b.delivered|
  {
    if Expected(l.b) == |l.a.submitted| {
      events := [];
    } else {
      var first := LoseAll(l);
      var l1 := Run(l, first);
      if Expected(l1.b) == |l1.a.submitted| {
        events := first;
      } else {
        var second := OneMore(l1);
        var rest := CanFinish(Run(l1, second));
        RunAfter(l1, second, rest);
        RunAfter(l, first, second + rest);
        events := first + (second + rest);
      }
    }
  }

  lemma OneMore(l: Link) returns (events: seq<Event>)
    requires Invariant(l) && Idle(l) && 0 < W(l.a) && Expected(l.b) < |l.a.submitted|
    ensures Later(l, Run(l, events)) && |Run(l, events).b.delivered| > |l.b.delivered|
  {
    if Expected(l.b) < l.a.sent {
      events := Redeliver(l);
    } else {
      var send := SendAnother(l);
      var l1 := Run(l, send);
      var lose := LoseAll(l1);
      var l2 := Run(l1, lose);
      var again := Redeliver(l2);
      RunAfter(l1, lose, again);
      RunAfter(l, send, lose + again);
      events := send + (lose + again);
    }
  }

  /** First one direction is brought to its end, then the other. */
  lemma BothCanFinish(l: Link) returns (events: seq<Event>)
    requires Invariant(l) && 0 < W(l.a) && 0 < W(l.b)
    ensures Run(l, events).b.delivered == l.a.submitted && Run(l, events).a.delivered == l.b.submitted
  {
    var there := CanFinish(l);
    var l1 := Run(l, there);
    var back := CanFinish(Mirror(l1));
    var l2 := Run(Mirror(l1), back);
    RunMirrors(Mirror(l1), back);
    assert Mirror(Mirror(l1)) == l1;
    RunAfter(l, there, OppositeAll(back));
    events := there + OppositeAll(back);
    assert Later(Mirror(l1), l2) && Run(l, events) == Mirror(l2);
  }

  /** From every reachable state of a link whose windows fit and are not 0 there is a
      continuation after which each user has been handed everything the other has
      submitted. */
  lemma NeverStuck(isExtended: bool, a: Setup, b: Setup, events: seq<Event>) returns (more: seq<Event>)
    requires Fits(isExtended, a, b) && 0 < a.k && 0 < b.k
    ensures
      var l := Run(FreshLink(isExtended, a, b), events);
      var l' := Run(FreshLink(isExtended, a, b), events + more);
      l'.b.delivered == l.a.submitted && l'.a.delivered == l.b.submitted
  {
    var start := FreshLink(isExtended, a, b);
    RunKeeps(isExtended, a, b, events);
    WindowConstant(start, events);
    more := BothCanFinish(Run(start, events));
    RunAfter(start, events, more);
  }

  /** Traffic in one direction alone needs only its sender's window. */
  lemma OneWayNeverStuck(isExtended: bool, a: Setup, b: Setup, events: seq<Event>) returns (more: seq<Event>)
    requires Fits(isExtended, a, b) && 0 < a.k
    ensures
      var l := Run(FreshLink(isExtended, a, b), events);
      Run(FreshLink(isExtended, a, b), events + more).b.delivered == l.a.submitted
  {
    var start := FreshLink(isExtended, a, b);
    RunKeeps(isExtended, a, b, events);
    WindowConstant(start, events);
    more := CanFinish(Run(start, events));
    RunAfter(start, events, more);
  }

  lemma ReceiveKeepsWindow(s: Station, p: Packet, accept: bool)
    requires InRange(s.ctx) && p.nr < Modulus(s.ctx) && (p.IFrame? ==> p.ns < Modulus(s.ctx))
    ensures W(AfterReceive(s, p, accept)) == W(s)
  {
    if VaLeNrLeVs(s.ctx, p.nr) && p.IFrame? && accept {
      InfoCases(AfterAck(s, p), p);
    }
  }

  lemma StepKeepsWindows(l: Link, e: Event)
    requires WellFormed(l)
    ensures W(ApplyAtA(l, e).a) == W(l.a) && W(ApplyAtA(l, e).b) == W(l.b)
  {
    match e
    case Receive(_, accept) => if l.ba != [] { ReceiveKeepsWindow(l.a, l.ba[0], accept); }
    case _ =>
  }

  lemma {:induction false} WindowConstant(l: Link, events: seq<Event>)
    requires WellFormed(l)
    ensures W(Run(l, events).a) == W(l.a)
    ensures W(Run(l, events).b) == W(l.b)
    decreases |events|
  {
    if events != [] {
      var before, e := Run(l, events[..|events| - 1]), events[|events| - 1];
      WindowConstant(l, events[..|events| - 1]);
      StepKeepsWindows(before, e);
      StepKeepsWindows(Mirror(before), e);
    }
  }
}
