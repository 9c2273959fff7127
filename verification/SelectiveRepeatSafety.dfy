/**
 Every run of a link keeps the modular state of both stations a faithful image
 of unbounded counters. From that follow exact classification of every arriving
 N(S), acceptance of every arriving N(R), and in-order delivery without loss,
 repetition or alteration.

 `Half` speaks of one direction of traffic: `s` sends, `r` receives, `fwd`
 carries the I frames and `bwd` the acknowledgements.
 */
module SelectiveRepeatSafety {
  import opened Common
  import opened LinkContext
  import opened SelectiveRepeat

  function W(s: Station): nat { EffectiveWindow(s.ctx) }

  function M(s: Station): (m: nat)
    ensures m == 8 || m == 128
  {
    Modulus(s.ctx)
  }

  function Expected(r: Station): nat { |r.delivered| }

  /** The receiver may buffer out of order only if both windows fit the ring. */
  predicate WindowsFit(s: Station, r: Station) {
    r.ctx.srejEnabled ==> W(s) + W(r) <= M(s)
  }

  ghost predicate SenderCounters(s: Station) {
    && InRange(s.ctx)
    && s.ctx.vs == s.sent % M(s) && s.ctx.va == s.acked % M(s)
    && s.acked <= s.sent <= |s.submitted| && s.sent <= s.acked + W(s)
    && s.ctx.queue == s.submitted[s.sent..]
  }

  /** The retransmission store holds exactly frames acked..sent. */
  ghost predicate Retained(s: Station)
    requires s.sent <= |s.submitted|
  {
    && (forall n: nat :: n in s.ctx.sentFrames <==> n < M(s) && Ahead(s.acked, n, M(s)) < s.sent)
    && (forall n :: n in s.ctx.sentFrames ==> s.ctx.sentFrames[n] == s.submitted[Ahead(s.acked, n, M(s))])
  }

  ghost predicate ReceiverCounters(s: Station, r: Station) {
    && InRange(r.ctx) && M(r) == M(s)
    && r.ctx.vr == Expected(r) % M(s)
    && s.acked <= Expected(r) <= s.sent <= |s.submitted|
    && r.delivered == s.submitted[..Expected(r)]
  }

  /** Everything stored out of order is a genuine later frame. */
  ghost predicate Buffered(s: Station, r: Station)
    requires M(r) == M(s) && InRange(r.ctx) && s.sent <= |s.submitted|
  {
    forall n :: n in r.ctx.storedFrames ==>
      && r.ctx.srejEnabled
      && Ahead(Expected(r), n, M(s)) < s.sent
      && r.ctx.storedFrames[n] == s.submitted[Ahead(Expected(r), n, M(s))]
  }

  /** An I frame in flight, and how far the receiver may be ahead of it. */
  ghost predicate InFlight(s: Station, r: Station, p: Packet)
    requires M(r) == M(s) && InRange(r.ctx)
  {
    p.IFrame? ==>
      && p.nsTag < s.sent <= |s.submitted|
      && p.ns == p.nsTag % M(s) && p.payload == s.submitted[p.nsTag]
      && Expected(r) <= p.nsTag + W(s)
      && (forall n :: n in r.ctx.storedFrames ==> Ahead(Expected(r), n, M(s)) < p.nsTag + W(s))
  }

  ghost predicate AllInFlight(s: Station, r: Station, fwd: seq<Packet>)
    requires M(r) == M(s) && InRange(r.ctx)
  {
    forall i :: 0 <= i < |fwd| ==> InFlight(s, r, fwd[i])
  }

  ghost predicate FlightOrder(w: nat, fwd: seq<Packet>) {
    forall i, j :: 0 <= i < j < |fwd| && fwd[i].IFrame? && fwd[j].IFrame? ==> fwd[i].nsTag < fwd[j].nsTag + w
  }

  ghost predicate Acks(s: Station, r: Station, bwd: seq<Packet>) {
    && (forall i :: 0 <= i < |bwd| ==>
          bwd[i].nr == bwd[i].nrTag % M(s) && s.acked <= bwd[i].nrTag <= Expected(r))
    && (forall i, j :: 0 <= i < j < |bwd| ==> bwd[i].nrTag <= bwd[j].nrTag)
  }

  ghost predicate Half(s: Station, r: Station, fwd: seq<Packet>, bwd: seq<Packet>) {
    && SenderCounters(s) && Retained(s) && ReceiverCounters(s, r) && WindowsFit(s, r)
    && Buffered(s, r) && AllInFlight(s, r, fwd) && FlightOrder(W(s), fwd) && Acks(s, r, bwd)
  }

  // ----- what the invariant says about the sender's modular state ----------

  lemma OutstandingIsExact(s: Station)
    requires SenderCounters(s)
    ensures OutstandingCount(s.ctx) == s.sent - s.acked <= W(s)
    ensures VsEqVaPlusK(s.ctx) <==> s.sent == s.acked + W(s)
  {
    OffsetOfCounters(s.sent, s.acked, M(s));
  }

  /** `is_outstanding` names exactly one unacknowledged frame. */
  lemma OutstandingNames(s: Station, n: nat)
    requires SenderCounters(s) && n < M(s)
    ensures IsOutstanding(s.ctx, n) <==> Ahead(s.acked, n, M(s)) < s.sent
  {
    OutstandingIsExact(s);
  }

  lemma SendKeeps(s: Station, r: Station, fwd: seq<Packet>, bwd: seq<Packet>)
    requires Half(s, r, fwd, bwd) && CanSend(s)
    ensures Half(AfterSend(s), r, fwd + [NewFrame(s)], bwd)
  {
    var s', f := AfterSend(s), NewFrame(s);
    OutstandingIsExact(s);
    NextResidue(s.sent, M(s));
    assert s.submitted[s.sent..][1..] == s.submitted[s.sent + 1..];
    assert SenderCounters(s');
    SendRetains(s);
    assert InFlight(s', r, f);
    forall i | 0 <= i < |fwd + [f]| ensures InFlight(s', r, (fwd + [f])[i]) {
      if i < |fwd| { assert InFlight(s, r, fwd[i]); }
    }
  }

  lemma SendRetains(s: Station)
    requires SenderCounters(s) && Retained(s) && s.sent < s.acked + W(s) && s.ctx.queue != []
    ensures Retained(AfterSend(s))
  {
    var s' := AfterSend(s);
    AheadOfCounter(s.acked, s.sent, M(s));
    forall n: nat | n < M(s)
      ensures n in s'.ctx.sentFrames <==> Ahead(s.acked, n, M(s)) < s'.sent
      ensures n in s'.ctx.sentFrames ==> s'.ctx.sentFrames[n] == s.submitted[Ahead(s.acked, n, M(s))]
    {
      if n != s.ctx.vs { OtherResidue(s, n); }
    }
  }

  lemma OtherResidue(s: Station, n: nat)
    requires n < M(s) && n != s.sent % M(s)
    ensures Ahead(s.acked, n, M(s)) != s.sent
  {
    AheadResidue(s.acked, n, M(s));
  }

  // ----- the other steps of the sender -------------------------------------

  lemma SubmitKeeps(s: Station, r: Station, fwd: seq<Packet>, bwd: seq<Packet>, p: Payload)
    requires Half(s, r, fwd, bwd)
    ensures Half(SubmitTo(s, p), r, fwd, bwd)
  {
    var s' := SubmitTo(s, p);
    assert s'.submitted[s.sent..] == s.submitted[s.sent..] + [p];
    assert Retained(s') by {
      forall n | n in s.ctx.sentFrames
        ensures s.ctx.sentFrames[n] == s'.submitted[Ahead(s.acked, n, M(s))]
      {}
    }
    assert s'.submitted[..Expected(r)] == s.submitted[..Expected(r)];
    forall i | 0 <= i < |fwd| ensures InFlight(s', r, fwd[i]) {
      assert InFlight(s, r, fwd[i]);
    }
  }

  lemma ResendKeeps(s: Station, r: Station, fwd: seq<Packet>, bwd: seq<Packet>, ns: nat, selective: bool)
    requires Half(s, r, fwd, bwd)
    requires EmitOldIFrame(s.ctx, ns, selective).1.Some?
    ensures
      var (c, p) := EmitOldIFrame(s.ctx, ns, selective);
      Half(s.(ctx := c), r, fwd + [OldFrame(s, ns, p.value)], bwd)
  {
    var (c, p) := EmitOldIFrame(s.ctx, ns, selective);
    var s', f := s.(ctx := c), OldFrame(s, ns, p.value);
    AheadResidue(s.acked, ns, M(s));
    assert f.nsTag == Ahead(s.acked, ns, M(s));
    assert InFlight(s', r, f);
    forall i | 0 <= i < |fwd + [f]| ensures InFlight(s', r, (fwd + [f])[i]) {
      if i < |fwd| { assert InFlight(s, r, fwd[i]); }
    }
  }

  /** Any frame the receiver sends acknowledges exactly what it has delivered. */
  lemma AnswerKeeps(s: Station, r: Station, r': Station, fwd: seq<Packet>, bwd: seq<Packet>, p: Packet)
    requires Half(s, r, fwd, bwd)
    requires p.nr == r.ctx.vr && p.nrTag == Expected(r)
    requires r'.delivered == r.delivered && SameReceiver(r.ctx, r'.ctx)
    ensures Half(s, r', fwd, bwd + [p])
  {
    ReceiverFrame(s, r, r', fwd, bwd);
  }

  predicate SameReceiver(c: Context, c': Context) {
    && InRange(c') && c'.vr == c.vr && c'.storedFrames == c.storedFrames && c'.k == c.k
    && c'.isExtended == c.isExtended && c'.srejEnabled == c.srejEnabled && c'.clampSrejWindow == c.clampSrejWindow
  }

  /** What a station does as a sender leaves its receiving half alone. */
  lemma ReceiverFrame(s: Station, r: Station, r': Station, fwd: seq<Packet>, bwd: seq<Packet>)
    requires Half(s, r, fwd, bwd)
    requires r'.delivered == r.delivered && SameReceiver(r.ctx, r'.ctx)
    ensures Half(s, r', fwd, bwd)
  {
    forall i | 0 <= i < |fwd| ensures InFlight(s, r', fwd[i]) {
      assert InFlight(s, r, fwd[i]);
    }
  }

  predicate SameSender(c: Context, c': Context) {
    && InRange(c') && c'.vs == c.vs && c'.va == c.va && c'.sentFrames == c.sentFrames && c'.queue == c.queue && c'.k == c.k
    && c'.isExtended == c.isExtended && c'.srejEnabled == c.srejEnabled && c'.clampSrejWindow == c.clampSrejWindow
  }

  /** What a station does as a receiver leaves its sending half alone. */
  lemma SenderFrame(s: Station, s': Station, r: Station, fwd: seq<Packet>, bwd: seq<Packet>)
    requires Half(s, r, fwd, bwd)
    requires s' == s.(ctx := s'.ctx, delivered := s'.delivered) && SameSender(s.ctx, s'.ctx)
    ensures Half(s', r, fwd, bwd)
  {
    forall i | 0 <= i < |fwd| ensures InFlight(s', r, fwd[i]) {
      assert InFlight(s, r, fwd[i]);
    }
  }

  // ----- loss ---------------------------------------------------------------

  function Without(ch: seq<Packet>, i: nat): seq<Packet>
    requires i < |ch|
  {
    ch[..i] + ch[i + 1..]
  }

  lemma LoseFwdKeeps(s: Station, r: Station, fwd: seq<Packet>, bwd: seq<Packet>, i: nat)
    requires Half(s, r, fwd, bwd) && i < |fwd|
    ensures Half(s, r, Without(fwd, i), bwd)
  {}

  lemma LoseBwdKeeps(s: Station, r: Station, fwd: seq<Packet>, bwd: seq<Packet>, i: nat)
    requires Half(s, r, fwd, bwd) && i < |bwd|
    ensures Half(s, r, fwd, Without(bwd, i))
  {}

  // ----- an acknowledgement arrives -----------------------------------------

  /** N(R) of every arriving frame lies in V(A)..V(S), so the N(R) error
      procedure is never entered on such a link. */
  lemma NrAlwaysValid(s: Station, r: Station, fwd: seq<Packet>, bwd: seq<Packet>)
    requires Half(s, r, fwd, bwd) && bwd != []
    ensures VaLeNrLeVs(s.ctx, bwd[0].nr)
    ensures bwd[0].nr == s.ctx.va <==> bwd[0].nrTag == s.acked
  {
    OutstandingIsExact(s);
    OffsetOfCounters(bwd[0].nrTag, s.acked, M(s));
    ResidueDetermines(bwd[0].nrTag, s.acked, M(s));
  }

  /** No other N(R) passes: one does exactly if it is the number of a counter from the
      acknowledged frames to the sent ones. */
  lemma NrValidExactly(s: Station, nr: nat, t: nat)
    requires SenderCounters(s) && nr < M(s)
    ensures s.acked <= t <= s.sent && t % M(s) == nr ==> VaLeNrLeVs(s.ctx, nr)
    ensures VaLeNrLeVs(s.ctx, nr) ==> Ahead(s.acked, nr, M(s)) <= s.sent && Ahead(s.acked, nr, M(s)) % M(s) == nr
  {
    OutstandingIsExact(s);
    AheadResidue(s.acked, nr, M(s));
    if s.acked <= t <= s.sent && t % M(s) == nr { OffsetOfCounters(t, s.acked, M(s)); }
  }

  lemma AckKeeps(s: Station, r: Station, fwd: seq<Packet>, bwd: seq<Packet>)
    requires Half(s, r, fwd, bwd) && bwd != [] && bwd[0].nr < M(s)
    ensures Half(AfterAck(s, bwd[0]), r, fwd, bwd[1..])
  {
    var s' := AfterAck(s, bwd[0]);
    NrAlwaysValid(s, r, fwd, bwd);
    AckRetains(s, bwd[0]);
    forall i | 0 <= i < |fwd| ensures InFlight(s', r, fwd[i]) {
      assert InFlight(s, r, fwd[i]);
    }
  }

  lemma AckRetains(s: Station, p: Packet)
    requires SenderCounters(s) && Retained(s)
    requires p.nr < M(s) && p.nr == p.nrTag % M(s) && s.acked <= p.nrTag <= s.sent
    requires p.nr == s.ctx.va <==> p.nrTag == s.acked
    ensures SenderCounters(AfterAck(s, p)) && Retained(AfterAck(s, p))
  {
    if p.nrTag != s.acked {
      var s0 := s.(ctx := s.ctx.(va := p.nr, resentSinceAck := {}), acked := p.nrTag);
      assert SenderCounters(s0);
      assert AfterAck(s, p).ctx == Prune(s0.ctx);
      forall n: nat | n < M(s)
        ensures n in Prune(s0.ctx).sentFrames <==> Ahead(p.nrTag, n, M(s)) < s.sent
        ensures n in Prune(s0.ctx).sentFrames ==> Ahead(p.nrTag, n, M(s)) == Ahead(s.acked, n, M(s))
      {
        OutstandingNames(s0, n);
        AheadResidue(p.nrTag, n, M(s));
        if Ahead(p.nrTag, n, M(s)) < s.sent {
          AheadOfCounter(s.acked, Ahead(p.nrTag, n, M(s)), M(s));
        }
      }
    }
  }

  // ----- an I frame arrives -------------------------------------------------

  /** The guards tell the next frame, a genuinely newer one and a duplicate
      apart, whatever number of times the sequence numbers have wrapped. */
  lemma Classification(s: Station, r: Station, fwd: seq<Packet>, bwd: seq<Packet>)
    requires Half(s, r, fwd, bwd) && fwd != [] && fwd[0].IFrame?
    ensures NsEqVr(r.ctx, fwd[0].ns) <==> fwd[0].nsTag == Expected(r)
    ensures r.ctx.srejEnabled ==>
      (VrLtNsLtVrPlusK(r.ctx, fwd[0].ns) <==> Expected(r) < fwd[0].nsTag < Expected(r) + W(r))
    ensures fwd[0].nsTag < Expected(r) ==> r.delivered[fwd[0].nsTag] == fwd[0].payload
  {
    assert InFlight(s, r, fwd[0]);
    OffsetOfCounters(fwd[0].nsTag, Expected(r), M(s));
    ResidueDetermines(fwd[0].nsTag, Expected(r), M(s));
  }

  /** Delivering frame number Expected(r) moves the receiving half one on. */
  lemma AdvanceKeeps(s: Station, r: Station, r': Station, fwd: seq<Packet>, bwd: seq<Packet>)
    requires Half(s, r, fwd, bwd) && Expected(r) < s.sent
    requires forall i :: 0 <= i < |fwd| && fwd[i].IFrame? ==> Expected(r) < fwd[i].nsTag + W(s)
    requires r' == r.(ctx := TakeStored(r.ctx), delivered := r.delivered + [s.submitted[Expected(r)]])
    ensures Half(s, r', fwd, bwd)
  {
    NextResidue(Expected(r), M(s));
    forall n | n in r'.ctx.storedFrames
      ensures n < M(s) && Ahead(Expected(r'), n, M(s)) == Ahead(Expected(r), n, M(s))
    {
      AheadStable(Expected(r), n, M(s));
    }
    forall i | 0 <= i < |fwd| ensures InFlight(s, r', fwd[i]) {
      assert InFlight(s, r, fwd[i]);
    }
  }

  function Drained(r: Station): Station {
    var d := Drain(r.ctx);
    r.(ctx := d.0, delivered := r.delivered + d.1)
  }

  /** The station after delivering the stored frame numbered V(R). */
  function OneReleased(r: Station): Station
    requires VrIFrameStored(r.ctx)
  {
    r.(ctx := TakeStored(r.ctx), delivered := r.delivered + [r.ctx.storedFrames[r.ctx.vr]])
  }

  lemma ReleaseKeeps(s: Station, r: Station, fwd: seq<Packet>, bwd: seq<Packet>)
    requires Half(s, r, fwd, bwd) && VrIFrameStored(r.ctx)
    ensures Half(s, OneReleased(r), fwd, bwd)
  {
    AheadOfCounter(Expected(r), Expected(r), M(s));
    forall i | 0 <= i < |fwd| && fwd[i].IFrame? ensures Expected(r) < fwd[i].nsTag + W(s) {
      assert InFlight(s, r, fwd[i]);
    }
    AdvanceKeeps(s, r, OneReleased(r), fwd, bwd);
  }

  lemma DrainedUnfolds(r: Station)
    requires VrIFrameStored(r.ctx)
    ensures Drained(r) == Drained(OneReleased(r))
  {
    var q, d := r.ctx.storedFrames[r.ctx.vr], Drain(TakeStored(r.ctx));
    assert r.delivered + ([q] + d.1) == (r.delivered + [q]) + d.1;
  }

  lemma {:induction false} DrainKeeps(s: Station, r: Station, fwd: seq<Packet>, bwd: seq<Packet>)
    requires Half(s, r, fwd, bwd)
    ensures Half(s, Drained(r), fwd, bwd) && !VrIFrameStored(Drained(r).ctx)
    decreases |r.ctx.storedFrames|
  {
    if VrIFrameStored(r.ctx) {
      DrainShrinks(r.ctx);
      ReleaseKeeps(s, r, fwd, bwd);
      DrainKeeps(s, OneReleased(r), fwd, bwd);
      DrainedUnfolds(r);
    } else {
      assert Drained(r) == r;
    }
  }

  /** The receiver once the expected frame `p` itself has been delivered. */
  function InSequence(r: Station, p: Payload): Station {
    r.(ctx := r.ctx.(vr := IncrementSeq(r.ctx, r.ctx.vr)), delivered := r.delivered + [p])
  }

  lemma InSequenceKeeps(s: Station, r: Station, fwd: seq<Packet>, bwd: seq<Packet>)
    requires Half(s, r, fwd, bwd) && !VrIFrameStored(r.ctx)
    requires fwd != [] && fwd[0].IFrame? && fwd[0].nsTag == Expected(r)
    ensures Half(s, InSequence(r, fwd[0].payload), fwd[1..], bwd)
  {
    assert InFlight(s, r, fwd[0]);
    assert r.ctx.storedFrames - {r.ctx.vr} == r.ctx.storedFrames;
    LoseFwdKeeps(s, r, fwd, bwd, 0);
    assert Without(fwd, 0) == fwd[1..];
    AdvanceKeeps(s, r, InSequence(r, fwd[0].payload), fwd[1..], bwd);
  }

  function Stored(r: Station, p: Packet): Station
    requires p.IFrame?
  {
    r.(ctx := r.ctx.(storedFrames := r.ctx.storedFrames[p.ns := p.payload]))
  }

  lemma InfoCases(r: Station, p: Packet)
    requires InRange(r.ctx) && p.IFrame? && p.ns < M(r)
    ensures AfterInfo(r, p) ==
      if NsEqVr(r.ctx, p.ns) then Drained(InSequence(r, p.payload))
      else if r.ctx.srejEnabled && VrLtNsLtVrPlusK(r.ctx, p.ns) then Stored(r, p)
      else r
    ensures SameSender(r.ctx, AfterInfo(r, p).ctx) && AfterInfo(r, p) == r.(ctx := AfterInfo(r, p).ctx, delivered := AfterInfo(r, p).delivered)
  {
    if NsEqVr(r.ctx, p.ns) {
      var r1 := InSequence(r, p.payload);
      assert r1.delivered + Drain(r1.ctx).1 == r.delivered + ([p.payload] + Drain(r1.ctx).1);
    } else {
      assert r.delivered + [] == r.delivered;
    }
  }

  lemma InfoKeeps(s: Station, r: Station, fwd: seq<Packet>, bwd: seq<Packet>)
    requires Half(s, r, fwd, bwd) && !VrIFrameStored(r.ctx)
    requires fwd != [] && fwd[0].IFrame? && fwd[0].ns < M(s)
    ensures Half(s, AfterInfo(r, fwd[0]), fwd[1..], bwd) && !VrIFrameStored(AfterInfo(r, fwd[0]).ctx)
  {
    var p := fwd[0];
    Classification(s, r, fwd, bwd);
    InfoCases(r, p);
    if NsEqVr(r.ctx, p.ns) {
      InSequenceKeeps(s, r, fwd, bwd);
      DrainKeeps(s, InSequence(r, p.payload), fwd[1..], bwd);
    } else if r.ctx.srejEnabled && VrLtNsLtVrPlusK(r.ctx, p.ns) {
      StoreKeeps(s, r, fwd, bwd);
    } else {
      LoseFwdKeeps(s, r, fwd, bwd, 0);
      assert Without(fwd, 0) == fwd[1..];
    }
  }

  lemma StoreKeeps(s: Station, r: Station, fwd: seq<Packet>, bwd: seq<Packet>)
    requires Half(s, r, fwd, bwd) && fwd != [] && fwd[0].IFrame? && r.ctx.srejEnabled && fwd[0].ns < M(s)
    requires Expected(r) < fwd[0].nsTag
    ensures Half(s, Stored(r, fwd[0]), fwd[1..], bwd)
  {
    var p := fwd[0];
    assert InFlight(s, r, p);
    var r' := Stored(r, p);
    AheadOfCounter(Expected(r), p.nsTag, M(s));
    forall i | 0 <= i < |fwd[1..]| ensures InFlight(s, r', fwd[1..][i]) {
      assert InFlight(s, r, fwd[i + 1]);
    }
  }

  // ----- every run ----------------------------------------------------------

  ghost predicate Invariant(l: Link) {
    && WellFormed(l)
    && Half(l.a, l.b, l.ab, l.ba) && Half(l.b, l.a, l.ba, l.ab)
    && !VrIFrameStored(l.a.ctx) && !VrIFrameStored(l.b.ctx)
  }

  lemma AckStepKeeps(l: Link)
    requires Invariant(l) && l.ba != []
    ensures VaLeNrLeVs(l.a.ctx, l.ba[0].nr)
    ensures Half(AfterAck(l.a, l.ba[0]), l.b, l.ab, l.ba[1..])
    ensures Half(l.b, AfterAck(l.a, l.ba[0]), l.ba, l.ab)
    ensures !VrIFrameStored(AfterAck(l.a, l.ba[0]).ctx)
  {
    NrAlwaysValid(l.a, l.b, l.ab, l.ba);
    AckKeeps(l.a, l.b, l.ab, l.ba);
    ReceiverFrame(l.b, l.a, AfterAck(l.a, l.ba[0]), l.ba, l.ab);
  }

  lemma InfoStepKeeps(s: Station, r: Station, fwd: seq<Packet>, bwd: seq<Packet>)
    requires fwd != [] && fwd[0].IFrame? && fwd[0].ns < M(r)
    requires Half(s, r, fwd, bwd) && Half(r, s, bwd, fwd[1..]) && !VrIFrameStored(r.ctx)
    ensures Half(s, AfterInfo(r, fwd[0]), fwd[1..], bwd)
    ensures Half(AfterInfo(r, fwd[0]), s, bwd, fwd[1..])
    ensures !VrIFrameStored(AfterInfo(r, fwd[0]).ctx)
  {
    InfoKeeps(s, r, fwd, bwd);
    InfoCases(r, fwd[0]);
    SenderFrame(r, AfterInfo(r, fwd[0]), s, bwd, fwd[1..]);
  }

  lemma ReceiveKeeps(l: Link, accept: bool)
    requires Invariant(l) && l.ba != []
    ensures Invariant(ApplyAtA(l, Receive(A, accept)))
  {
    var p, a1 := l.ba[0], AfterAck(l.a, l.ba[0]);
    AckStepKeeps(l);
    if p.IFrame? && accept {
      InfoStepKeeps(l.b, a1, l.ba, l.ab);
    } else {
      LoseFwdKeeps(l.b, a1, l.ba, l.ab, 0);
      assert Without(l.ba, 0) == l.ba[1..];
    }
  }

  lemma SendStepsKeep(l: Link, e: Event)
    requires Invariant(l) && (e.SendNext? || e.Resend? || e.SendS? || e.Submit?)
    ensures Invariant(ApplyAtA(l, e))
  {
    match e
    case Submit(_, p) =>
      SubmitKeeps(l.a, l.b, l.ab, l.ba, p);
      ReceiverFrame(l.b, l.a, SubmitTo(l.a, p), l.ba, l.ab);
    case SendNext(_) =>
      if CanSend(l.a) {
        SendKeeps(l.a, l.b, l.ab, l.ba);
        AnswerKeeps(l.b, l.a, AfterSend(l.a), l.ba, l.ab, NewFrame(l.a));
      }
    case Resend(_, ns, selective) =>
      var (c, p) := EmitOldIFrame(l.a.ctx, ns, selective);
      if p.Some? {
        ResendKeeps(l.a, l.b, l.ab, l.ba, ns, selective);
        AnswerKeeps(l.b, l.a, l.a.(ctx := c), l.ba, l.ab, OldFrame(l.a, ns, p.value));
      } else {
        SenderFrame(l.a, l.a.(ctx := c), l.b, l.ab, l.ba);
        ReceiverFrame(l.b, l.a, l.a.(ctx := c), l.ba, l.ab);
      }
    case SendS(_) =>
      AnswerKeeps(l.b, l.a, l.a, l.ba, l.ab, SupervisoryFrame(l.a));
      SupervisoryKeeps(l.a, l.b, l.ab, l.ba);
  }

  lemma SupervisoryKeeps(s: Station, r: Station, fwd: seq<Packet>, bwd: seq<Packet>)
    requires Half(s, r, fwd, bwd)
    ensures Half(s, r, fwd + [SupervisoryFrame(s)], bwd)
  {
    forall i | 0 <= i < |fwd| + 1 ensures InFlight(s, r, (fwd + [SupervisoryFrame(s)])[i]) {
      if i < |fwd| { assert InFlight(s, r, fwd[i]); }
    }
  }

  lemma StepAtAKeeps(l: Link, e: Event)
    requires Invariant(l)
    ensures Invariant(ApplyAtA(l, e))
  {
    match e
    case Lose(_, i) =>
      if i < |l.ba| {
        LoseBwdKeeps(l.a, l.b, l.ab, l.ba, i);
        LoseFwdKeeps(l.b, l.a, l.ba, l.ab, i);
      }
    case Receive(_, accept) =>
      if l.ba != [] { ReceiveKeeps(l, accept); }
    case _ => SendStepsKeep(l, e);
  }

  lemma StepKeeps(l: Link, e: Event)
    requires Invariant(l)
    ensures Invariant(Apply(l, e))
  {
    if e.side == A {
      StepAtAKeeps(l, e);
    } else {
      StepAtAKeeps(Mirror(l), e);
    }
  }

  predicate Fits(isExtended: bool, a: Setup, b: Setup) {
    var l := FreshLink(isExtended, a, b);
    WindowsFit(l.a, l.b) && WindowsFit(l.b, l.a)
  }

  lemma {:induction false} RunKeeps(isExtended: bool, a: Setup, b: Setup, events: seq<Event>)
    requires Fits(isExtended, a, b)
    ensures Invariant(Run(FreshLink(isExtended, a, b), events))
    decreases |events|
  {
    if events != [] {
      RunKeeps(isExtended, a, b, events[..|events| - 1]);
      StepKeeps(Run(FreshLink(isExtended, a, b), events[..|events| - 1]), events[|events| - 1]);
    }
  }

  /** What the users of a link rely on: each side has been handed exactly the
      first payloads the other side submitted, in order and unaltered. */
  predicate Faithful(l: Link) {
    l.b.delivered <= l.a.submitted && l.a.delivered <= l.b.submitted
  }

  lemma RunIsFaithful(isExtended: bool, a: Setup, b: Setup, events: seq<Event>)
    requires Fits(isExtended, a, b)
    ensures Faithful(Run(FreshLink(isExtended, a, b), events))
  {
    RunKeeps(isExtended, a, b, events);
  }

  /** Whatever windows the two ends are configured with, selective reject under
      the half-modulus clamp and go-back-N are both safe. */
  lemma ClampedLinkIsFaithful(isExtended: bool, a: Setup, b: Setup, events: seq<Event>)
    requires a.srejEnabled == b.srejEnabled
    requires a.srejEnabled ==> a.clampSrejWindow && b.clampSrejWindow
    ensures Faithful(Run(FreshLink(isExtended, a, b), events))
  {
    RunIsFaithful(isExtended, a, b, events);
  }
}
