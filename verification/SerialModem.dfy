/**
 The serial KISS modem (kiss/serial.rs) over a byte stream. The stream is what
 successive reads will return and what has been written so far; its waiting
 and its hardware are not modelled.
 */
module SerialModem {
  import opened Common
  import opened KissFrame
  import opened KissEncoder
  import opened KissDecoder
  import AckMode

  const MAX_AX25_BODY: nat := 512
  const OUT_BUF_LEN: nat := MaxEncodedLen(MAX_AX25_BODY + 2)

  datatype Read = Chunk(bytes: Bytes) | Failed

  /** How the stream ends a write: it takes all bytes, or breaks off behind some. */
  datatype Write = Takes | Breaks(behind: nat)

  datatype SendResult = Sent | TooLarge | Io

  function Taken(stream: Write, bytes: Bytes): (taken: Bytes)
    ensures taken <= bytes
    ensures |taken| == if stream.Breaks? && stream.behind < |bytes| then stream.behind else |bytes|
  {
    if stream.Breaks? && stream.behind < |bytes| then bytes[..stream.behind] else bytes
  }

  datatype Received = Got(frame: Frame) | Nothing | IoError

  /** Every frame still to be handed out if all the reads were made. */
  function Due(s: State, pending: seq<Frame>, todo: seq<Read>): seq<Frame>
    requires Reachable(s)
    decreases |todo|
  {
    if todo == [] then pending
    else if todo[0].Failed? then Due(s, pending, todo[1..])
    else
      var (s1, out) := Run(s, todo[0].bytes);
      pending + Due(s1, out, todo[1..])
  }

  /** Where a list of reads leaves the decoder. */
  function Reads(chunks: seq<Bytes>): seq<Read> {
    seq(|chunks|, i requires 0 <= i < |chunks| => Chunk(chunks[i]))
  }

  lemma {:induction false} DueOfChunks(s: State, pending: seq<Frame>, chunks: seq<Bytes>)
    requires Reachable(s)
    ensures Due(s, pending, Reads(chunks)) == pending + RunChunks(s, chunks).1
    decreases |chunks|
  {
    if chunks == [] {
      assert pending + [] == pending;
    } else {
      var (s1, out) := Run(s, chunks[0]);
      assert Reads(chunks)[1..] == Reads(chunks[1..]);
      DueOfChunks(s1, out, chunks[1..]);
    }
  }

  class SerialKissModem {
    var input: seq<Read>
    var output: Bytes
    const decoder: Decoder
    var pending: seq<Frame>

    ghost predicate Valid()
      reads this, decoder
    {
      Reachable(decoder.View())
    }

    function StillDue(): seq<Frame>
      requires Valid()
      reads this, decoder
    {
      Due(decoder.View(), pending, input)
    }

    constructor (input: seq<Read>)
      ensures Valid() && fresh(decoder) && this.input == input && output == [] && pending == []
      ensures decoder.View() == Fresh(0)
    {
      this.input, output, pending := input, [], [];
      decoder := new Decoder.WithMaxFrameLen(0);
    }

    /** The next inbound frame. Frames already decoded are handed out first; a
        read that completes none is followed by another. */
    method ReadFrame() returns (r: Received)
      requires Valid()
      modifies this`input, this`pending, decoder
      ensures Valid()
      ensures r.Got? ==> old(StillDue()) == [r.frame] + StillDue()
      ensures !r.Got? ==> StillDue() == old(StillDue()) && pending == []
      ensures r.Nothing? ==> |input| < |old(input)| || input == []
      ensures output == old(output)
    {
      while true
        invariant Valid() && StillDue() == old(StillDue()) && |input| <= |old(input)|
        decreases |input|, |pending|
      {
        if pending != [] {
          var f := pending[0];
          DueHead(decoder.View(), pending, input);
          pending := pending[1..];
          return Got(f);
        }
        if input == [] {
          return Nothing;
        }
        var read := input[0];
        input := input[1..];
        if read.Failed? {
          return IoError;
        }
        NothingPending(decoder.View(), read.bytes, input);
        if read.bytes == [] {
          EmptyRead(decoder.View(), input);
          return Nothing;
        }
        var frames := decoder.Push(read.bytes);
        pending := frames;
      }
    }

    static lemma DueHead(s: State, pending: seq<Frame>, todo: seq<Read>)
      requires Reachable(s) && pending != []
      ensures Due(s, pending, todo) == [pending[0]] + Due(s, pending[1..], todo)
      decreases |todo|
    {
      if todo == [] {
        assert pending == [pending[0]] + pending[1..];
      } else if todo[0].Failed? {
        DueHead(s, pending, todo[1..]);
      } else {
        var (s1, out) := Run(s, todo[0].bytes);
        assert pending == [pending[0]] + pending[1..];
        assert pending + Due(s1, out, todo[1..]) == [pending[0]] + (pending[1..] + Due(s1, out, todo[1..]));
      }
    }

    static lemma NothingPending(s: State, bytes: Bytes, todo: seq<Read>)
      requires Reachable(s)
      ensures Due(s, [], [Chunk(bytes)] + todo) == Due(Run(s, bytes).0, Run(s, bytes).1, todo)
    {
      var (s1, out) := Run(s, bytes);
      assert ([Chunk(bytes)] + todo)[1..] == todo;
      assert [] + Due(s1, out, todo) == Due(s1, out, todo);
    }

    static lemma EmptyRead(s: State, todo: seq<Read>)
      requires Reachable(s)
      ensures Run(s, []) == (s, [])
    {}

    /** Send a command on port 0: too large exactly for a payload over 514 bytes, else
        as the stream takes it. */
    method SendKiss(command: Command, payload: Bytes, stream: Write) returns (r: SendResult)
      requires Valid()
      modifies this`output
      ensures r == if |payload| > MAX_AX25_BODY + 2 then TooLarge else if stream.Takes? then Sent else Io
      ensures output == old(output) +
        if r == TooLarge then [] else Taken(stream, Encode(Frame(0, command, payload)))
    {
      var out := new Byte[OUT_BUF_LEN];
      var n := EncodeInto(out, Frame(0, command, payload));
      if n.None? {
        assert output + [] == output;
        return TooLarge;
      }
      output := output + Taken(stream, out[..n.value]);
      return if stream.Takes? then Sent else Io;
    }

    /** Send AX.25 bytes as a data frame; too large exactly over 512 bytes. */
    method SendFrame(ax25: Bytes, stream: Write) returns (r: SendResult)
      requires Valid()
      modifies this`output
      ensures r == if |ax25| > MAX_AX25_BODY then TooLarge else if stream.Takes? then Sent else Io
      ensures output == old(output) + if r == TooLarge then [] else Taken(stream, Encode(Frame(0, Data, ax25)))
    {
      if |ax25| > MAX_AX25_BODY {
        assert output + [] == output;
        return TooLarge;
      }
      r := SendKiss(Data, ax25, stream);
    }

    /** Send AX.25 bytes under an acknowledgement tag; the same bound. */
    method SendAckmode(tag: nat, ax25: Bytes, stream: Write) returns (r: SendResult)
      requires Valid() && tag < AckMode.TAGS
      modifies this`output
      ensures r == if |ax25| > MAX_AX25_BODY then TooLarge else if stream.Takes? then Sent else Io
      ensures output == old(output) +
        if r == TooLarge then [] else Taken(stream, Encode(Frame(0, KissFrame.AckMode, AckMode.Payload(tag, ax25))))
    {
      var staged := new Byte[MAX_AX25_BODY + 2];
      var n := AckMode.BuildPayloadInto(staged, tag, ax25);
      if n.None? {
        assert output + [] == output;
        return TooLarge;
      }
      r := SendKiss(KissFrame.AckMode, staged[..n.value], stream);
    }
  }

  /** Two modems back to back: the frames one sends, cut into any reads, are
      exactly the frames the other hands out, in order. */
  lemma Loopback(fs: seq<Frame>, chunks: seq<Bytes>)
    requires forall i :: 0 <= i < |fs| ==>
      fs[i].port == 0 && |fs[i].payload| <= MAX_AX25_BODY + 2 && Canonical(fs[i].command)
    requires Flatten(chunks) == EncodeAll(fs)
    ensures Due(Fresh(0), [], Reads(chunks)) == fs
  {
    DueOfChunks(Fresh(0), [], chunks);
    ChunksDoNotMatter(Fresh(0), chunks);
    FramesArrive(Fresh(0), fs);
    CanonicalSurvive(fs);
    assert [] + ReceivedAll(fs) == fs;
  }

  lemma {:induction false} CanonicalSurvive(fs: seq<Frame>)
    requires forall i :: 0 <= i < |fs| ==> Canonical(fs[i].command)
    ensures ReceivedAll(fs) == fs
  {
    if fs != [] {
      CanonicalSurvive(fs[1..]);
    }
  }
}
