/** The ACKMODE payload: a two-byte tag, high byte first, and the AX.25 bytes
    (first half of kiss/ackmode.rs). */
module AckMode {
  import opened Common
  import opened KissFrame
  import opened LittleEndian

  const TAGS: nat := 0x1_0000

  function TagBytes(tag: nat): (b: Bytes)
    requires tag < TAGS
    ensures |b| == 2
  {
    [(tag / 256) as Byte, (tag % 256) as Byte]
  }

  function TagOf(hi: Byte, lo: Byte): (tag: nat)
    ensures tag < TAGS
  {
    ByteBound(hi);
    ByteBound(lo);
    256 * (hi as nat) + lo as nat
  }

  function Payload(tag: nat, ax25: Bytes): (p: Bytes)
    requires tag < TAGS
    ensures |p| == |ax25| + 2
  {
    TagBytes(tag) + ax25
  }

  /** Fails exactly when the buffer is too small. */
  method BuildPayloadInto(dst: array<Byte>, tag: nat, ax25: Bytes) returns (n: Option<nat>)
    requires tag < TAGS
    modifies dst
    ensures n.None? <==> dst.Length < |ax25| + 2
    ensures n.Some? ==> n.value <= dst.Length && dst[..n.value] == Payload(tag, ax25)
  {
    var needed := |ax25| + 2;
    if dst.Length < needed {
      return None;
    }
    dst[0] := (tag / 256) as Byte;
    dst[1] := (tag % 256) as Byte;
    forall k | 0 <= k < |ax25| {
      dst[2 + k] := ax25[k];
    }
    assert dst[..needed] == Payload(tag, ax25);
    return Some(needed);
  }

  /** The transmit-complete echo: a tag and nothing else. */
  function TryParseAcknowledgement(f: Frame): Option<nat> {
    if f.command != KissFrame.AckMode || |f.payload| != 2 then None
    else Some(TagOf(f.payload[0], f.payload[1]))
  }

  function TryParseDataFrame(f: Frame): Option<(nat, Bytes)> {
    if f.command != KissFrame.AckMode || |f.payload| <= 2 then None
    else Some((TagOf(f.payload[0], f.payload[1]), f.payload[2..]))
  }

  lemma TagReadsBack(tag: nat)
    requires tag < TAGS
    ensures TagOf(TagBytes(tag)[0], TagBytes(tag)[1]) == tag
  {
    ByteOfNat(tag / 256);
    ByteOfNat(tag % 256);
  }

  /** A tagged frame is read back as data with its tag, or, where it carries no
      data at all, as an echo of that tag; never as both. */
  lemma TagSurvives(port: Byte, tag: nat, ax25: Bytes)
    requires tag < TAGS
    ensures
      var f := Frame(port, KissFrame.AckMode, Payload(tag, ax25));
      if ax25 == [] then TryParseAcknowledgement(f) == Some(tag) && TryParseDataFrame(f) == None
      else TryParseDataFrame(f) == Some((tag, ax25)) && TryParseAcknowledgement(f) == None
  {
    var p, t := Payload(tag, ax25), TagBytes(tag);
    TagReadsBack(tag);
    assert p[0] == t[0] && p[1] == t[1] && p[2..] == ax25;
  }
}
