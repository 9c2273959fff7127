/**
 A NET/ROM datagram: a 15-octet network header, a 5-octet transport header and
 the payload (netrom/wire/packet.rs, network_header.rs, transport_header.rs).
 */
module Datagrams {
  import opened Common
  import Addresses
  import opened Callsigns
  import LittleEndian

  const HEADER_LEN: nat := 20
  const MAX_PAYLOAD: nat := 236
  const SEND_BUFFER: nat := HEADER_LEN + MAX_PAYLOAD

  datatype Transport = Transport(circuitIndex: Byte, circuitId: Byte, txSequence: Byte, rxSequence: Byte, opcode: Byte, flags: Byte)

  datatype Packet = Packet(origin: Callsign, destination: Callsign, timeToLive: nat, transport: Transport, payload: Bytes)

  predicate Valid(p: Packet) {
    && Callsigns.Valid(p.origin) && Callsigns.Valid(p.destination) && p.timeToLive < 256
    && p.transport.opcode & 0xF0 == 0 && p.transport.flags & 0x0F == 0
  }

  function OpcodeAndFlags(t: Transport): Byte { (t.opcode & 0x0F) | (t.flags & 0xF0) }

  function TransportOctets(t: Transport): (b: Bytes)
    ensures |b| == 5
  {
    [t.circuitIndex, t.circuitId, t.txSequence, t.rxSequence, OpcodeAndFlags(t)]
  }

  function ReadTransport(b: Bytes): Transport
    requires |b| == 5
  {
    Transport(b[0], b[1], b[2], b[3], b[4] & 0x0F, b[4] & 0xF0)
  }

  function Encode(p: Packet): (b: Bytes)
    requires p.timeToLive < 256
    ensures |b| == HEADER_LEN + |p.payload|
  {
    Addresses.Shifted(p.origin) + Addresses.Shifted(p.destination) + [p.timeToLive as Byte] + TransportOctets(p.transport) + p.payload
  }

  /** The octets of a datagram if a buffer of this size holds them. */
  function EncodeWithin(p: Packet, capacity: nat): Option<Bytes>
    requires p.timeToLive < 256
  {
    if HEADER_LEN + |p.payload| <= capacity then Some(Encode(p)) else None
  }

  function Headers(p: Packet): (b: Bytes)
    requires p.timeToLive < 256
    ensures |b| == HEADER_LEN && Encode(p) == b + p.payload
  {
    Addresses.Shifted(p.origin) + Addresses.Shifted(p.destination) + [p.timeToLive as Byte] + TransportOctets(p.transport)
  }

  method WriteCalls(p: Packet, dst: array<Byte>)
    requires 14 <= dst.Length
    modifies dst
    ensures dst[..] == Addresses.Shifted(p.origin) + Addresses.Shifted(p.destination) + old(dst[14..])
  {
    ghost var was, origin := dst[..], Addresses.Shifted(p.origin);
    var first := Addresses.EncodeInto(Addresses.Address(p.origin, false, false), dst, 0);
    assert dst[..] == origin + was[7..];
    assert dst[..7] == origin && dst[14..] == was[14..];
    var second := Addresses.EncodeInto(Addresses.Address(p.destination, false, false), dst, 7);
  }

  method WriteTransport(t: Transport, dst: array<Byte>)
    requires HEADER_LEN <= dst.Length
    modifies dst
    ensures dst[..] == old(dst[..15]) + TransportOctets(t) + old(dst[HEADER_LEN..])
  {
    dst[15], dst[16], dst[17], dst[18] := t.circuitIndex, t.circuitId, t.txSequence, t.rxSequence;
    dst[19] := OpcodeAndFlags(t);
  }

  method WriteHeaders(p: Packet, dst: array<Byte>)
    requires p.timeToLive < 256 && HEADER_LEN <= dst.Length
    modifies dst
    ensures dst[..] == Headers(p) + old(dst[HEADER_LEN..])
  {
    ghost var calls := Addresses.Shifted(p.origin) + Addresses.Shifted(p.destination);
    WriteCalls(p, dst);
    assert dst[..14] == calls;
    dst[14] := p.timeToLive as Byte;
    assert dst[..15] == calls + [p.timeToLive as Byte];
    WriteTransport(p.transport, dst);
  }

  /** Encode into the front of a buffer, or leave one that is too small alone. */
  method EncodeInto(p: Packet, dst: array<Byte>) returns (n: Option<nat>)
    requires p.timeToLive < 256
    modifies dst
    ensures
      match EncodeWithin(p, dst.Length)
      case None => n.None? && dst[..] == old(dst[..])
      case Some(b) => n == Some(|b|) && dst[..] == b + old(dst[|b|..])
  {
    var total := HEADER_LEN + |p.payload|;
    if dst.Length < total {
      return None;
    }
    WriteHeaders(p, dst);
    forall k | 0 <= k < |p.payload| {
      dst[HEADER_LEN + k] := p.payload[k];
    }
    n := Some(total);
    assert dst[..HEADER_LEN] == Headers(p);
    assert dst[HEADER_LEN..total] == p.payload;
  }

  /** Anything of at least twenty octets whose callsigns decode is a datagram. */
  function Decode(b: Bytes): (r: Option<Packet>)
    ensures r.Some? ==> |b| == HEADER_LEN + |r.value.payload|
  {
    if |b| < HEADER_LEN then None
    else
      var origin, destination := Addresses.ReadShifted(b[..7]), Addresses.ReadShifted(b[7..14]);
      if origin.None? || destination.None? then None
      else Some(Packet(origin.value, destination.value, b[14] as nat, ReadTransport(b[15..20]), b[20..]))
  }

  lemma Nibbles(opcode: Byte, flags: Byte)
    requires opcode & 0xF0 == 0 && flags & 0x0F == 0
    ensures ((opcode & 0x0F) | (flags & 0xF0)) & 0x0F == opcode
    ensures ((opcode & 0x0F) | (flags & 0xF0)) & 0xF0 == flags
  {}

  lemma NibblesMasked(b: Byte)
    ensures (b & 0x0F) & 0xF0 == 0 && (b & 0xF0) & 0x0F == 0
  {}

  lemma TransportReadsBack(t: Transport)
    requires t.opcode & 0xF0 == 0 && t.flags & 0x0F == 0
    ensures ReadTransport(TransportOctets(t)) == t
  {
    Nibbles(t.opcode, t.flags);
  }

  /** A datagram decodes to itself. */
  lemma RoundTrip(p: Packet)
    requires Valid(p)
    ensures Decode(Encode(p)) == Some(p)
  {
    var b := Encode(p);
    assert b[..7] == Addresses.Shifted(p.origin) && b[7..14] == Addresses.Shifted(p.destination);
    assert b[15..20] == TransportOctets(p.transport) && b[20..] == p.payload;
    Addresses.ShiftedReadsBack(p.origin);
    Addresses.ShiftedReadsBack(p.destination);
    LittleEndian.ByteOfNat(p.timeToLive);
    TransportReadsBack(p.transport);
  }

  lemma ReadTransportIsMasked(b: Bytes)
    requires |b| == 5
    ensures ReadTransport(b).opcode & 0xF0 == 0 && ReadTransport(b).flags & 0x0F == 0
  {
    NibblesMasked(b[4]);
  }

  /** Whatever decodes is a valid datagram, so it encodes to a canonical form. */
  lemma DecodedIsValid(b: Bytes)
    requires Decode(b).Some?
    ensures Valid(Decode(b).value) && Decode(Encode(Decode(b).value)) == Decode(b)
  {
    LittleEndian.ByteBound(b[14]);
    ReadTransportIsMasked(b[15..20]);
    RoundTrip(Decode(b).value);
  }
}
