/**
 The mutable session context of the source and the verbs that change it, each
 proved to compute the function of `LinkContext` with the same meaning.
 */
module Session {
  import opened Common
  import opened LinkContext

  /** The flags and scratch registers a reset clears; no sequence guard reads them. */
  datatype Flags = Flags(
    rc: nat,
    ownReceiverBusy: bool, peerReceiverBusy: bool, acknowledgePending: bool,
    rejectException: bool, selectiveRejectException: bool, srejExceptionCount: nat,
    layer3Initiated: bool, x: Option<nat>,
    t1HadExpired: bool, t1RemainingWhenLastStoppedMs: nat)

  const CLEAR_FLAGS := Flags(0, false, false, false, false, false, 0, false, None, false, 0)

  class SessionContext {
    var vs: nat
    var va: nat
    var vr: nat
    var flags: Flags
    var k: nat
    var isExtended: bool
    var srejEnabled: bool
    var clampSrejWindow: bool
    var iFrameQueue: seq<Payload>
    var sentIFrames: map<nat, Payload>
    var storedReceivedIFrames: map<nat, Payload>
    var selectivelyRetransmittedSinceAck: set<nat>

    function View(): Context
      reads this
    {
      Context(vs, va, vr, k, isExtended, srejEnabled, clampSrejWindow,
              iFrameQueue, sentIFrames, storedReceivedIFrames, selectivelyRetransmittedSinceAck)
    }

    /** `Default`: window 4, modulo 8, go-back-N, the clamp quirk on. */
    constructor ()
      ensures View() == Context(0, 0, 0, 4, false, false, true, [], map[], map[], {})
      ensures flags == CLEAR_FLAGS
    {
      vs, va, vr, flags := 0, 0, 0, CLEAR_FLAGS;
      k, isExtended, srejEnabled, clampSrejWindow := 4, false, false, true;
      iFrameQueue, sentIFrames, storedReceivedIFrames := [], map[], map[];
      selectivelyRetransmittedSinceAck := {};
    }

    /** Back to "freshly connected"; negotiated parameters stay. */
    method ResetState()
      modifies this
      ensures View() == Context(0, 0, 0, old(k), old(isExtended), old(srejEnabled), old(clampSrejWindow), [], map[], map[], {})
      ensures flags == CLEAR_FLAGS
    {
      vs, va, vr := 0, 0, 0;
      flags := CLEAR_FLAGS;
      iFrameQueue, sentIFrames, storedReceivedIFrames := [], map[], map[];
      selectivelyRetransmittedSinceAck := {};
    }

    /** Drop every retained frame that is no longer outstanding: the keys are
        collected first and removed afterwards. */
    method PruneAcknowledgedSentIFrames()
      requires InRange(View())
      modifies this`sentIFrames
      ensures View() == Prune(old(View()))
    {
      if sentIFrames == map[] {
        assert Prune(View()).sentFrames == map[];
        return;
      }
      var toRemove: set<nat> := {};
      var keys := sentIFrames.Keys;
      while keys != {}
        invariant keys <= sentIFrames.Keys
        invariant toRemove == set n | n in sentIFrames.Keys - keys && !IsOutstanding(View(), n)
      {
        var n :| n in keys;
        if !IsOutstanding(View(), n) {
          toRemove := toRemove + {n};
        }
        keys := keys - {n};
      }
      ghost var all, was := toRemove, sentIFrames;
      while toRemove != {}
        invariant toRemove <= all
        invariant sentIFrames == was - (all - toRemove)
      {
        var n :| n in toRemove;
        sentIFrames, toRemove := sentIFrames - {n}, toRemove - {n};
      }
      assert sentIFrames == Prune(old(View())).sentFrames;
    }

    /** V(A) := N(R). */
    method AssignVaNr(nr: nat)
      requires InRange(View()) && nr < Modulus(View())
      modifies this
      ensures View() == AcknowledgeTo(old(View()), nr) && flags == old(flags)
    {
      var previous := va;
      va := nr;
      if va != previous {
        selectivelyRetransmittedSinceAck := {};
        PruneAcknowledgedSentIFrames();
      }
    }

    /** The `I_frame_pops_off_queue` chain: emit at N(S) = V(S), keep a copy,
        advance V(S). Returns N(S) and N(R) as they go on the wire. */
    method SendIFrame(p: Payload) returns (ns: nat, nr: nat)
      modifies this
      ensures View() == EmitIFrame(old(View()), p) && flags == old(flags).(acknowledgePending := false)
      ensures ns == old(vs) && nr == old(vr)
    {
      ns, nr := vs, vr;
      sentIFrames := sentIFrames[ns := p];
      selectivelyRetransmittedSinceAck := selectivelyRetransmittedSinceAck - {ns};
      vs := IncrementSeq(View(), vs);
      flags := flags.(acknowledgePending := false);
    }

    /** Retransmit what is kept under `ns`, at its original number. */
    method SendOldIFrame(ns: nat, selective: bool) returns (sent: Option<Payload>)
      requires InRange(View())
      modifies this
      ensures (View(), sent) == EmitOldIFrame(old(View()), ns, selective)
      ensures flags == if sent.Some? then old(flags).(acknowledgePending := false) else old(flags)
    {
      if selective {
        if !IsOutstanding(View(), ns) {
          return None;
        }
        if ns in selectivelyRetransmittedSinceAck {
          return None;
        }
        selectivelyRetransmittedSinceAck := selectivelyRetransmittedSinceAck + {ns};
      }
      if ns !in sentIFrames {
        return None;
      }
      flags := flags.(acknowledgePending := false);
      return Some(sentIFrames[ns]);
    }

    /** The in-sequence drain loop: while the next frame is stored, retrieve
        it, deliver it and advance V(R). */
    method DrainStored() returns (up: seq<Payload>)
      requires InRange(View())
      modifies this
      ensures (View(), up) == Drain(old(View())) && flags == old(flags)
    {
      up := [];
      ghost var start := View();
      assert Released(start, up, View()) by { assert [] + Drain(start).1 == Drain(start).1; }
      while vr in storedReceivedIFrames
        invariant flags == old(flags) && Released(start, up, View())
        decreases |storedReceivedIFrames|
      {
        ghost var c := View();
        ReleaseOne(start, up, c);
        DrainShrinks(c);
        up := up + [storedReceivedIFrames[vr]];
        storedReceivedIFrames, vr := storedReceivedIFrames - {vr}, IncrementSeq(View(), vr);
        assert View() == TakeStored(c);
      }
      DrainedAlready(start, up, View());
    }

    static lemma DrainedAlready(start: Context, up: seq<Payload>, c: Context)
      requires Released(start, up, c) && !VrIFrameStored(c)
      ensures Drain(start) == (c, up)
    {
      assert up + [] == up;
    }

    /** Draining `start` is delivering `up` and then draining `c`. */
    static ghost predicate Released(start: Context, up: seq<Payload>, c: Context) {
      Drain(start) == (Drain(c).0, up + Drain(c).1)
    }

    static lemma ReleaseOne(start: Context, up: seq<Payload>, c: Context)
      requires Released(start, up, c) && VrIFrameStored(c)
      ensures Released(start, up + [c.storedFrames[c.vr]], TakeStored(c))
    {
      var rest := Drain(TakeStored(c)).1;
      assert up + ([c.storedFrames[c.vr]] + rest) == (up + [c.storedFrames[c.vr]]) + rest;
    }

    /** The information part of a received I frame. */
    method ReceiveIFrame(ns: nat, p: Payload) returns (up: seq<Payload>)
      requires InRange(View()) && ns < Modulus(View())
      modifies this
      ensures (View(), up) == AcceptIFrame(old(View()), ns, p) && flags == old(flags)
    {
      if NsEqVr(View(), ns) {
        vr := IncrementSeq(View(), vr);
        up := DrainStored();
        up := [p] + up;
      } else {
        if srejEnabled && VrLtNsLtVrPlusK(View(), ns) {
          storedReceivedIFrames := storedReceivedIFrames[ns := p];
        }
        up := [];
      }
    }
  }
}
