/**
 How much a station may send before it hears anything: exactly its window.
 */
module SelectiveRepeatBurst {
  import opened Common
  import opened LinkContext
  import opened SelectiveRepeat

  function Burst(m: nat): seq<Event> { seq(m, _ => SendNext(A)) }

  /** What a full window is, in terms of the configuration alone. */
  function Allowance(c: Context): nat {
    Min(c.k, if c.clampSrejWindow && c.srejEnabled then Modulus(c) / 2 else Modulus(c) - 1)
  }

  lemma WindowIsAllowance(c: Context)
    ensures EffectiveWindow(c) == Allowance(c)
  {}

  /** `s'` has sent the first `i` payloads that `s` had queued, and `ab` carries them
      behind what was under way before. */
  predicate Sent(l: Link, l': Link, i: nat) {
    && i <= |l.a.ctx.queue| && i <= Allowance(l.a.ctx)
    && l'.a.ctx == l.a.ctx.(
        queue := l.a.ctx.queue[i..], vs := (l.a.ctx.vs + i) % Modulus(l.a.ctx),
        sentFrames := l'.a.ctx.sentFrames, resentSinceAck := l'.a.ctx.resentSinceAck)
    && l'.a.sent == l.a.sent + i && l'.b == l.b && l'.ba == l.ba
    && |l'.ab| == |l.ab| + i && l'.ab[..|l.ab|] == l.ab
    && InOrder(l, l'.ab[|l.ab|..])
  }

  predicate IsNext(l: Link, p: Packet, j: nat)
    requires j < |l.a.ctx.queue|
  {
    p.IFrame? && p.ns == (l.a.ctx.vs + j) % Modulus(l.a.ctx) && p.payload == l.a.ctx.queue[j]
  }

  predicate InOrder(l: Link, frames: seq<Packet>) {
    |frames| <= |l.a.ctx.queue| && forall j :: 0 <= j < |frames| ==> IsNext(l, frames[j], j)
  }

  lemma OneMoreInOrder(l: Link, frames: seq<Packet>, p: Packet)
    requires InOrder(l, frames) && |frames| < |l.a.ctx.queue| && IsNext(l, p, |frames|)
    ensures InOrder(l, frames + [p])
  {}

  lemma SumsMod(v: nat, i: nat, m: nat)
    requires (m == 8 || m == 128) && v < m && i < m
    ensures ((v + i) % m + 1) % m == (v + i + 1) % m
    ensures Offset((v + i) % m, v, m) == i
  {
    if v + i < m {
      assert (v + i) % m == v + i;
    } else {
      assert (v + i) % m == v + i - m;
    }
  }

  lemma MaySend(l: Link, l': Link, i: nat)
    requires WellFormed(l) && WellFormed(l') && l.a.ctx.vs == l.a.ctx.va && Sent(l, l', i)
    ensures CanSend(l'.a) <==> i < |l.a.ctx.queue| && i < Allowance(l.a.ctx)
  {
    SumsMod(l.a.ctx.vs, i, Modulus(l.a.ctx));
    WindowIsAllowance(l'.a.ctx);
  }

  lemma OneMoreSent(l: Link, l': Link, i: nat)
    requires WellFormed(l) && WellFormed(l') && Sent(l, l', i)
    requires i < |l.a.ctx.queue| && i < Allowance(l.a.ctx)
    ensures Sent(l, l'.(a := AfterSend(l'.a), ab := l'.ab + [NewFrame(l'.a)]), i + 1)
  {
    SumsMod(l.a.ctx.vs, i, Modulus(l.a.ctx));
    var next := l'.(a := AfterSend(l'.a), ab := l'.ab + [NewFrame(l'.a)]);
    assert l'.a.ctx.queue[0] == l.a.ctx.queue[i] && l'.a.ctx.queue[1..] == l.a.ctx.queue[i + 1..];
    assert next.ab[..|l.ab|] == l.ab && next.ab[|l.ab|..] == l'.ab[|l.ab|..] + [NewFrame(l'.a)];
    assert next.a.ctx.vs == (l.a.ctx.vs + i + 1) % Modulus(l.a.ctx);
    OneMoreInOrder(l, l'.ab[|l.ab|..], NewFrame(l'.a));
  }

  lemma NextSent(l: Link, l': Link, i: nat)
    requires WellFormed(l) && WellFormed(l') && l.a.ctx.vs == l.a.ctx.va && Sent(l, l', i)
    ensures
      var next := Apply(l', SendNext(A));
      if i < |l.a.ctx.queue| && i < Allowance(l.a.ctx) then Sent(l, next, i + 1) else next == l'
  {
    MaySend(l, l', i);
    if i < |l.a.ctx.queue| && i < Allowance(l.a.ctx) { OneMoreSent(l, l', i); }
  }

  /** From a station with nothing outstanding, of `m` attempts to send exactly as many put
      a frame out as there are payloads queued and the window allows, in order and under
      consecutive numbers: `k`, but never the whole modulus, and half of it while the
      clamp is on and selective reject in force. */
  lemma {:induction false} BurstFillsTheWindow(l: Link, m: nat)
    requires WellFormed(l) && l.a.ctx.vs == l.a.ctx.va
    ensures Sent(l, Run(l, Burst(m)), Min(m, Min(|l.a.ctx.queue|, Allowance(l.a.ctx))))
    decreases m
  {
    if m == 0 {
      NothingSent(l);
    } else {
      BurstFillsTheWindow(l, m - 1);
      BurstLast(l, m);
      NextSent(l, Run(l, Burst(m - 1)), Min(m - 1, Min(|l.a.ctx.queue|, Allowance(l.a.ctx))));
    }
  }

  lemma BurstLast(l: Link, m: nat)
    requires WellFormed(l) && m > 0
    ensures Run(l, Burst(m)) == Apply(Run(l, Burst(m - 1)), SendNext(A))
  {
    assert Burst(m) == Burst(m - 1) + [SendNext(A)];
    RunSnoc(l, Burst(m - 1), SendNext(A));
  }

  lemma NothingSent(l: Link)
    requires WellFormed(l)
    ensures Burst(0) == [] && Run(l, []) == l && Sent(l, l, 0)
  {
    assert l.a.ctx.queue[0..] == l.a.ctx.queue;
    assert l.a.ctx.vs % Modulus(l.a.ctx) == l.a.ctx.vs;
  }
}
