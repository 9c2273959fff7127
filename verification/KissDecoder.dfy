/**
 The streaming KISS decoder (kiss/decoder.rs). `Step` is what one received byte
 does; `Decoder.Push` is the loop over a chunk. Because a chunk is just its
 bytes, how a stream is cut into chunks cannot matter, and from any state the
 decoder loses at most the frame it was in the middle of.
 */
module KissDecoder {
  import opened Common
  import opened KissFrame
  import opened KissEncoder

  const DEFAULT_MAX_FRAME_LEN: nat := 4096

  datatype State = State(
    current: Bytes, inEscape: bool, resynchronising: bool, maxFrameLen: nat, oversizeFramesDropped: nat)

  /** What holds between any two bytes. */
  predicate Reachable(s: State) {
    && 0 < s.maxFrameLen && |s.current| <= s.maxFrameLen
    && (s.resynchronising ==> s.current == [] && !s.inEscape)
  }

  function Fresh(maxFrameLen: nat): (s: State)
    ensures Reachable(s)
  {
    State([], false, false, if maxFrameLen > 0 then maxFrameLen else DEFAULT_MAX_FRAME_LEN, 0)
  }

  /** An over-long partial frame is dropped and counted. */
  function DropIfOversize(s: State): State {
    if |s.current| <= s.maxFrameLen then s
    else s.(current := [], inEscape := false, resynchronising := true,
            oversizeFramesDropped := s.oversizeFramesDropped + 1)
  }

  function Step(s: State, b: Byte): (r: (State, seq<Frame>))
    requires Reachable(s)
    ensures Reachable(r.0) && r.0.maxFrameLen == s.maxFrameLen && |r.1| <= 1
  {
    if s.resynchronising then
      (if b == FEND then s.(resynchronising := false, inEscape := false) else s, [])
    else if s.inEscape then
      var s1 := s.(inEscape := false,
                   current := s.current + if b == TFEND then [FEND] else if b == TFESC then [FESC] else []);
      (DropIfOversize(s1), [])
    else if b == FEND then
      (s.(current := []), if s.current != [] then [FrameOf(s.current)] else [])
    else if b == FESC then
      (s.(inEscape := true), [])
    else
      (DropIfOversize(s.(current := s.current + [b])), [])
  }

  function Run(s: State, bytes: Bytes): (r: (State, seq<Frame>))
    requires Reachable(s)
    ensures Reachable(r.0) && r.0.maxFrameLen == s.maxFrameLen
    decreases |bytes|
  {
    if bytes == [] then (s, [])
    else
      var (s1, out1) := Run(s, bytes[..|bytes| - 1]);
      var (s2, out2) := Step(s1, bytes[|bytes| - 1]);
      (s2, out1 + out2)
  }

  class Decoder {
    var current: Bytes
    var inEscape: bool
    var maxFrameLen: nat
    var resynchronising: bool
    var oversizeFramesDropped: nat

    function View(): State
      reads this
    {
      State(current, inEscape, resynchronising, maxFrameLen, oversizeFramesDropped)
    }

    /** A bound of zero falls back to the default. */
    constructor WithMaxFrameLen(bound: nat)
      ensures View() == Fresh(bound)
    {
      current, inEscape, resynchronising, oversizeFramesDropped := [], false, false, 0;
      maxFrameLen := if bound > 0 then bound else DEFAULT_MAX_FRAME_LEN;
    }

    /** Push a chunk of received bytes; the result is every frame it completed. */
    method Push(bytes: Bytes) returns (frames: seq<Frame>)
      requires Reachable(View())
      modifies this
      ensures Reachable(View()) && (View(), frames) == Run(old(View()), bytes)
    {
      frames := [];
      for i := 0 to |bytes|
        invariant Reachable(View()) && (View(), frames) == Run(old(View()), bytes[..i])
      {
        assert bytes[..i + 1][..i] == bytes[..i];
        var out := PushByte(bytes[i]);
        frames := frames + out;
      }
      assert bytes[..|bytes|] == bytes;
    }

    /** The body of the loop of `Push`. */
    method PushByte(b: Byte) returns (out: seq<Frame>)
      requires Reachable(View())
      modifies this
      ensures (View(), out) == Step(old(View()), b)
    {
      out := [];
      if resynchronising {
        if b == FEND {
          resynchronising := false;
          inEscape := false;
        }
      } else if inEscape {
        inEscape := false;
        if b == TFEND {
          current := current + [FEND];
        } else if b == TFESC {
          current := current + [FESC];
        } else {
          assert current + [] == current;
        }
        DropOversize();
      } else if b == FEND {
        if current != [] {
          out := [FrameOf(current)];
          current := [];
        }
      } else if b == FESC {
        inEscape := true;
      } else {
        current := current + [b];
        DropOversize();
      }
    }

    method DropOversize()
      modifies this
      ensures View() == DropIfOversize(old(View()))
    {
      if |current| <= maxFrameLen {
        return;
      }
      oversizeFramesDropped := oversizeFramesDropped + 1;
      current, inEscape, resynchronising := [], false, true;
    }

    /** Forget any partial frame. */
    method Reset()
      modifies this
      ensures View() == old(View()).(current := [], inEscape := false, resynchronising := false)
    {
      current, inEscape, resynchronising := [], false, false;
    }

    /** Forget any partial frame and skip to the next FEND. */
    method Resynchronise()
      modifies this
      ensures View() == old(View()).(current := [], inEscape := false, resynchronising := true)
    {
      current, inEscape, resynchronising := [], false, true;
    }
  }

  // ----- chunks -----------------------------------------------------------------

  lemma {:induction false} RunInPieces(s: State, first: Bytes, second: Bytes)
    requires Reachable(s)
    ensures
      var (s1, out1) := Run(s, first);
      var (s2, out2) := Run(s1, second);
      Run(s, first + second) == (s2, out1 + out2)
    decreases |second|
  {
    if second == [] {
      assert first + second == first;
      assert Run(s, first).1 + [] == Run(s, first).1;
    } else {
      var init, b := second[..|second| - 1], second[|second| - 1];
      assert (first + second)[..|first + second| - 1] == first + init;
      RunInPieces(s, first, init);
      var (s1, out1) := Run(s, first);
      var (s2, out2) := Run(s1, init);
      assert out1 + (out2 + Step(s2, b).1) == (out1 + out2) + Step(s2, b).1;
    }
  }

  function Flatten(chunks: seq<Bytes>): Bytes {
    if chunks == [] then [] else chunks[0] + Flatten(chunks[1..])
  }

  /** Pushing chunk after chunk. */
  function RunChunks(s: State, chunks: seq<Bytes>): (r: (State, seq<Frame>))
    requires Reachable(s)
    ensures Reachable(r.0)
    decreases |chunks|
  {
    if chunks == [] then (s, [])
    else
      var (s1, out1) := Run(s, chunks[0]);
      var (s2, out2) := RunChunks(s1, chunks[1..]);
      (s2, out1 + out2)
  }

  /** How the stream is cut into chunks does not matter. */
  lemma {:induction false} ChunksDoNotMatter(s: State, chunks: seq<Bytes>)
    requires Reachable(s)
    ensures RunChunks(s, chunks) == Run(s, Flatten(chunks))
    decreases |chunks|
  {
    if chunks != [] {
      RunInPieces(s, chunks[0], Flatten(chunks[1..]));
      ChunksDoNotMatter(Run(s, chunks[0]).0, chunks[1..]);
    }
  }

  // ----- what an encoding decodes to ----------------------------------------------

  /** The decoder as it is between two frames. */
  predicate Idle(s: State) { Reachable(s) && s.current == [] && !s.inEscape && !s.resynchronising }

  lemma RunOne(s: State, b: Byte)
    requires Reachable(s)
    ensures Run(s, [b]) == Step(s, b)
  {
    assert [b][..0] == [];
    assert [] + Step(s, b).1 == Step(s, b).1;
  }

  /** Running on after a piece that completed no frame. */
  lemma RunOn(s: State, first: Bytes, second: Bytes)
    requires Reachable(s) && Run(s, first).1 == []
    ensures Run(s, first + second) == Run(Run(s, first).0, second)
  {
    RunInPieces(s, first, second);
    assert [] + Run(Run(s, first).0, second).1 == Run(Run(s, first).0, second).1;
  }

  lemma RunTwo(s: State, a: Byte, b: Byte)
    requires Reachable(s) && Step(s, a).1 == []
    ensures Run(s, [a, b]) == Step(Step(s, a).0, b)
  {
    RunOne(s, a);
    RunOne(Step(s, a).0, b);
    RunOn(s, [a], [b]);
    assert [a] + [b] == [a, b];
  }

  /** An escaped byte arrives as itself. */
  lemma EscapeArrives(s: State, b: Byte)
    requires Reachable(s) && !s.inEscape && !s.resynchronising && |s.current| < s.maxFrameLen
    ensures Run(s, Escape(b)) == (s.(current := s.current + [b]), [])
  {
    if b == FEND {
      RunTwo(s, FESC, TFEND);
    } else if b == FESC {
      RunTwo(s, FESC, TFESC);
    } else {
      RunOne(s, b);
    }
  }

  lemma {:induction false} EscapedBytesArrive(s: State, data: Bytes)
    requires Reachable(s) && !s.inEscape && !s.resynchronising && |s.current| + |data| <= s.maxFrameLen
    ensures Run(s, EscapeAll(data)) == (s.(current := s.current + data), [])
    decreases |data|
  {
    if data == [] {
      assert s.current + [] == s.current;
    } else {
      var init, b := data[..|data| - 1], data[|data| - 1];
      var s1 := s.(current := s.current + init);
      EscapedBytesArrive(s, init);
      EscapeArrives(s1, b);
      RunOn(s, EscapeAll(init), Escape(b));
      assert s.(current := s.current + data) == s1.(current := s1.current + [b]) by {
        assert s.current + data == (s.current + init) + [b];
      }
    }
  }

  /** A frame short enough for the bound, with a port that exists. */
  predicate Sendable(s: State, f: Frame) { f.port <= 15 && 1 + |f.payload| <= s.maxFrameLen }

  /** What arrives for a frame sent: the frame with its command made canonical. */
  function Received(f: Frame): Frame { f.(command := FromNibble(ToNibble(f.command))) }

  /** From its second byte on, an encoding yields its frame and leaves the
      decoder idle. */
  lemma EncodingArrives(s: State, f: Frame)
    requires Idle(s) && Sendable(s, f)
    ensures Run(s, EscapeAll(Body(f)) + [FEND]) == (s, [Received(f)])
  {
    var body := Body(f);
    EscapedBytesArrive(s, body);
    assert s.current + body == body;
    RunOne(s.(current := body), FEND);
    RunOn(s, EscapeAll(body), [FEND]);
    BodyReadsBack(f);
  }

  lemma IdleFend(s: State)
    requires Idle(s)
    ensures Run(s, [FEND]) == (s, [])
  {
    RunOne(s, FEND);
  }

  /** One frame sent to an idle decoder. */
  lemma FrameArrives(s: State, f: Frame)
    requires Idle(s) && Sendable(s, f)
    ensures Run(s, Encode(f)) == (s, [Received(f)])
  {
    IdleFend(s);
    EncodingArrives(s, f);
    RunOn(s, [FEND], EscapeAll(Body(f)) + [FEND]);
    assert [FEND] + (EscapeAll(Body(f)) + [FEND]) == Encode(f);
  }

  function EncodeAll(fs: seq<Frame>): Bytes {
    if fs == [] then [] else Encode(fs[0]) + EncodeAll(fs[1..])
  }

  function ReceivedAll(fs: seq<Frame>): seq<Frame> {
    if fs == [] then [] else [Received(fs[0])] + ReceivedAll(fs[1..])
  }

  predicate AllSendable(s: State, fs: seq<Frame>) { forall i :: 0 <= i < |fs| ==> Sendable(s, fs[i]) }

  lemma {:induction false} FramesArrive(s: State, fs: seq<Frame>)
    requires Idle(s) && AllSendable(s, fs)
    ensures Run(s, EncodeAll(fs)) == (s, ReceivedAll(fs))
    decreases |fs|
  {
    if fs != [] {
      FrameArrives(s, fs[0]);
      FramesArrive(s, fs[1..]);
      RunInPieces(s, Encode(fs[0]), EncodeAll(fs[1..]));
    }
  }

  // ----- recovery -----------------------------------------------------------------

  /** From any reachable state, the opening FEND of an encoding leaves the decoder
      idle after at most one frame of garbage - unless an escape is pending. */
  lemma OpeningFend(s: State)
    requires Reachable(s) && !s.inEscape
    ensures Idle(Run(s, [FEND]).0) && |Run(s, [FEND]).1| <= 1
  {
    RunOne(s, FEND);
  }

  /** An encoding without its opening FEND, and the encodings after it. */
  function Remainder(fs: seq<Frame>): Bytes
    requires fs != []
  {
    (EscapeAll(Body(fs[0])) + [FEND]) + EncodeAll(fs[1..])
  }

  lemma RemainderArrives(s: State, fs: seq<Frame>)
    requires Idle(s) && fs != [] && AllSendable(s, fs)
    ensures Run(s, Remainder(fs)) == (s, ReceivedAll(fs))
  {
    EncodingArrives(s, fs[0]);
    FramesArrive(s, fs[1..]);
    RunInPieces(s, EscapeAll(Body(fs[0])) + [FEND], EncodeAll(fs[1..]));
  }

  lemma OpeningSplit(s: State, fs: seq<Frame>)
    requires Reachable(s) && fs != []
    ensures
      var (s1, out1) := Run(s, [FEND]);
      Run(s, EncodeAll(fs)) == (Run(s1, Remainder(fs)).0, out1 + Run(s1, Remainder(fs)).1)
  {
    RunInPieces(s, [FEND], Remainder(fs));
    EncodeAllSplit(fs);
  }

  lemma EncodeAllSplit(fs: seq<Frame>)
    requires fs != []
    ensures EncodeAll(fs) == [FEND] + Remainder(fs)
  {}

  /** Where no escape is pending, frames sent one after the other all arrive. */
  lemma FramesRecover(s: State, fs: seq<Frame>)
    requires Reachable(s) && !s.inEscape && fs != [] && AllSendable(s, fs)
    ensures Run(s, EncodeAll(fs)).1 == Run(s, [FEND]).1 + ReceivedAll(fs)
    ensures Idle(Run(s, EncodeAll(fs)).0)
  {
    OpeningFend(s);
    OpeningSplit(s, fs);
    RemainderArrives(Run(s, [FEND]).0, fs);
  }

  /** At most one of two FENDs in a row completes a frame. */
  lemma TwoFends(s: State)
    requires Reachable(s)
    ensures
      var (s1, out1) := Step(s, FEND);
      !s1.inEscape && |out1| + |Step(s1, FEND).1| <= 1
  {}

  lemma PreambleRecovers(s: State, fs: seq<Frame>) returns (garbage: seq<Frame>)
    requires Reachable(s) && fs != [] && AllSendable(s, fs)
    ensures |garbage| <= 1 && Run(s, [FEND] + EncodeAll(fs)).1 == garbage + ReceivedAll(fs)
    ensures Idle(Run(s, [FEND] + EncodeAll(fs)).0)
  {
    var (s1, out1) := Step(s, FEND);
    TwoFends(s);
    RunOne(s, FEND);
    RunOne(s1, FEND);
    FramesRecover(s1, fs);
    RunInPieces(s, [FEND], EncodeAll(fs));
    garbage := out1 + Step(s1, FEND).1;
    assert out1 + (Step(s1, FEND).1 + ReceivedAll(fs)) == garbage + ReceivedAll(fs);
  }

  /** From any reachable state, one FEND and then frames, cut into any chunks:
      at most one garbage frame and then exactly the frames. */
  lemma StreamRecovers(s: State, fs: seq<Frame>, chunks: seq<Bytes>) returns (garbage: seq<Frame>)
    requires Reachable(s) && fs != [] && AllSendable(s, fs)
    requires Flatten(chunks) == [FEND] + EncodeAll(fs)
    ensures |garbage| <= 1 && RunChunks(s, chunks).1 == garbage + ReceivedAll(fs)
    ensures Idle(RunChunks(s, chunks).0)
  {
    ChunksDoNotMatter(s, chunks);
    garbage := PreambleRecovers(s, fs);
  }

  // ----- why the extra FEND is needed ---------------------------------------------

  function Dropped(s: State): State {
    s.(current := [], inEscape := false, resynchronising := true, oversizeFramesDropped := s.oversizeFramesDropped + 1)
  }

  lemma SkippedEscape(s: State, b: Byte)
    requires Reachable(s) && s.resynchronising
    ensures Run(s, Escape(b)) == (s, [])
  {
    if b == FEND {
      RunTwo(s, FESC, TFEND);
    } else if b == FESC {
      RunTwo(s, FESC, TFESC);
    } else {
      RunOne(s, b);
    }
  }

  /** One byte too many drops the partial frame. */
  lemma OneTooMany(s: State, b: Byte)
    requires |s.current| == s.maxFrameLen && !s.inEscape && !s.resynchronising
    ensures DropIfOversize(s.(current := s.current + [b])) == Dropped(s)
  {}

  lemma OverrunPair(s: State, code: Byte, b: Byte)
    requires Reachable(s) && !s.inEscape && !s.resynchronising && |s.current| == s.maxFrameLen
    requires (code == TFEND && b == FEND) || (code == TFESC && b == FESC)
    ensures Run(s, [FESC, code]) == (Dropped(s), [])
  {
    assert Step(s, FESC) == (s.(inEscape := true), []);
    RunTwo(s, FESC, code);
    OneTooMany(s, b);
  }

  lemma OverrunEscape(s: State, b: Byte)
    requires Reachable(s) && !s.inEscape && !s.resynchronising && |s.current| == s.maxFrameLen
    ensures Run(s, Escape(b)) == (Dropped(s), [])
  {
    if b == FEND {
      OverrunPair(s, TFEND, b);
    } else if b == FESC {
      OverrunPair(s, TFESC, b);
    } else {
      RunOne(s, b);
      OneTooMany(s, b);
    }
  }

  /** More bytes than the bound allows leave the decoder skipping to a FEND. */
  lemma {:induction false} EscapedBytesOverrun(s: State, data: Bytes)
    requires Reachable(s) && !s.inEscape && !s.resynchronising && |s.current| + |data| > s.maxFrameLen
    ensures Run(s, EscapeAll(data)) == (Dropped(s), [])
    decreases |data|
  {
    var init, b := data[..|data| - 1], data[|data| - 1];
    if |s.current| + |init| > s.maxFrameLen {
      EscapedBytesOverrun(s, init);
      SkippedEscape(Dropped(s), b);
    } else {
      EscapedBytesArrive(s, init);
      OverrunEscape(s.(current := s.current + init), b);
    }
    RunOn(s, EscapeAll(init), Escape(b));
  }

  /** A pending escape swallows the opening FEND, and the frame runs into the
      partial one before it: what comes out is one merged frame, or nothing. */
  lemma PendingEscapeMerges(s: State, f: Frame)
    requires Reachable(s) && s.inEscape && s.current != [] && Sendable(s, f)
    ensures
      var merged := s.current + Body(f);
      Idle(Run(s, Encode(f)).0) &&
      Run(s, Encode(f)).1 == if |merged| <= s.maxFrameLen then [FrameOf(merged)] else []
  {
    var s1 := s.(inEscape := false);
    FendSwallowed(s);
    RunOn(s, [FEND], EscapeAll(Body(f)) + [FEND]);
    assert [FEND] + (EscapeAll(Body(f)) + [FEND]) == Encode(f);
    PartialFrameContinues(s1, Body(f));
  }

  lemma FendSwallowed(s: State)
    requires Reachable(s) && s.inEscape
    ensures Run(s, [FEND]) == (s.(inEscape := false), [])
  {
    assert s.current + [] == s.current;
    RunOne(s, FEND);
  }

  lemma PartialFrameContinues(s: State, body: Bytes)
    requires Reachable(s) && !s.inEscape && !s.resynchronising && s.current != []
    ensures
      var (s', out) := Run(s, EscapeAll(body) + [FEND]);
      Idle(s') && out == if |s.current + body| <= s.maxFrameLen then [FrameOf(s.current + body)] else []
  {
    if |s.current| + |body| <= s.maxFrameLen {
      EscapedBytesArrive(s, body);
      RunOne(s.(current := s.current + body), FEND);
    } else {
      EscapedBytesOverrun(s, body);
      RunOne(Dropped(s), FEND);
    }
    RunOn(s, EscapeAll(body), [FEND]);
  }

  /** An escape pending with nothing buffered does no harm. */
  lemma PendingEscapeAlone(s: State, fs: seq<Frame>)
    requires Reachable(s) && s.inEscape && s.current == [] && fs != [] && AllSendable(s, fs)
    ensures Run(s, EncodeAll(fs)).1 == ReceivedAll(fs)
  {
    FendSwallowed(s);
    OpeningSplit(s, fs);
    RemainderArrives(s.(inEscape := false), fs);
    assert [] + ReceivedAll(fs) == ReceivedAll(fs);
  }

  ghost predicate Recovers(s: State, fs: seq<Frame>)
    requires Reachable(s)
  {
    exists garbage: seq<Frame> :: |garbage| <= 1 && Run(s, EncodeAll(fs)).1 == garbage + ReceivedAll(fs)
  }

  lemma ReceivedCount(fs: seq<Frame>)
    ensures |ReceivedAll(fs)| == |fs|
  {
    if fs != [] { ReceivedCount(fs[1..]); }
  }

  lemma OneShort(out: seq<Frame>, tail: seq<Frame>, garbage: seq<Frame>, all: seq<Frame>)
    requires |out| <= 1 && |all| == |tail| + 1
    requires |out| == 1 ==> |out[0].payload| != |all[0].payload|
    ensures out + tail != garbage + all
  {
    if |garbage| == 0 && |out| == 1 {
      assert (out + tail)[0] == out[0] && (garbage + all)[0] == all[0];
    }
  }

  /** Without the extra FEND, frames arrive intact exactly when the decoder is
      not in the middle of an escape inside a partial frame. */
  lemma RecoversExactly(s: State, fs: seq<Frame>)
    requires Reachable(s) && fs != [] && AllSendable(s, fs)
    ensures Recovers(s, fs) <==> !s.inEscape || s.current == []
  {
    if !s.inEscape {
      OpeningFend(s);
      FramesRecover(s, fs);
    } else if s.current == [] {
      PendingEscapeAlone(s, fs);
      assert [] + ReceivedAll(fs) == ReceivedAll(fs);
    } else {
      var f, out := fs[0], Run(s, Encode(fs[0])).1;
      PendingEscapeMerges(s, f);
      FramesArrive(Run(s, Encode(f)).0, fs[1..]);
      RunInPieces(s, Encode(f), EncodeAll(fs[1..]));
      ReceivedCount(fs);
      ReceivedCount(fs[1..]);
      forall garbage: seq<Frame> | |garbage| <= 1
        ensures Run(s, EncodeAll(fs)).1 != garbage + ReceivedAll(fs)
      {
        OneShort(out, ReceivedAll(fs[1..]), garbage, ReceivedAll(fs));
      }
    }
  }
}
