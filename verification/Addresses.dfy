/** The seven-octet address slot (ax25/address.rs; section 3.12 of AX.25 v2.2). */
module Addresses {
  import opened Common
  import opened Callsigns

  const ADDRESS_LEN: nat := 7

  /** A callsign with the C/H bit and the end-of-address bit. */
  datatype Address = Address(callsign: Callsign, crh: bool, extension: bool)

  predicate WellFormed(a: Address) { Valid(a.callsign) }

  function Padded(base: Bytes, i: nat): Byte { if i < |base| then base[i] else SPACE }

  /** A character travels in the upper seven bits of its octet. */
  function ShiftedUp(c: Byte): Byte { c << 1 }

  function ShiftedDown(c: Byte): Byte { c >> 1 }

  function SsidOctet(a: Address): Byte {
    0x60 | ((a.callsign.ssid & 0x0F) << 1) | (if a.crh then 0x80 else 0) | (if a.extension then 0x01 else 0)
  }

  function Encode(a: Address): (e: Bytes)
    ensures |e| == ADDRESS_LEN
  {
    seq(MAX_BASE_LEN, i requires 0 <= i < MAX_BASE_LEN => ShiftedUp(Padded(a.callsign.base, i))) + [SsidOctet(a)]
  }

  method EncodeInto(a: Address, dst: array<Byte>, at: nat) returns (ok: bool)
    modifies dst
    ensures ok <==> at + ADDRESS_LEN <= dst.Length
    ensures ok ==> dst[..] == old(dst[..at]) + Encode(a) + old(dst[at + ADDRESS_LEN..])
    ensures !ok ==> dst[..] == old(dst[..])
  {
    if dst.Length < at + ADDRESS_LEN {
      return false;
    }
    for i := 0 to MAX_BASE_LEN
      invariant forall k :: 0 <= k < dst.Length ==>
        dst[k] == if at <= k < at + i then Encode(a)[k - at] else old(dst[k])
    {
      dst[at + i] := ShiftedUp(Padded(a.callsign.base, i));
    }
    var octet := 0x60 | ((a.callsign.ssid & 0x0F) << 1);
    if a.crh {
      octet := octet | 0x80;
    }
    if a.extension {
      octet := octet | 0x01;
    }
    OctetSteps(a, octet);
    dst[at + 6] := octet;
    return true;
  }

  lemma OctetSteps(a: Address, octet: Byte)
    requires
      var low := 0x60 | ((a.callsign.ssid & 0x0F) << 1);
      var mid := if a.crh then low | 0x80 else low;
      octet == if a.extension then mid | 0x01 else mid
    ensures octet == SsidOctet(a)
  {}

  /** The slot's characters shifted back. */
  function Unshifted(src: Bytes): (base: Bytes)
    requires |src| >= ADDRESS_LEN
    ensures |base| == MAX_BASE_LEN
  {
    seq(MAX_BASE_LEN, i requires 0 <= i < MAX_BASE_LEN => ShiftedDown(src[i]))
  }

  /** The length without trailing spaces. */
  function Significant(base: Bytes): (n: nat)
    ensures n <= |base| && (n > 0 ==> base[n - 1] != SPACE)
    ensures forall i :: n <= i < |base| ==> base[i] == SPACE
  {
    if base == [] then 0
    else if base[|base| - 1] != SPACE then |base|
    else Significant(base[..|base| - 1])
  }

  /** The reserved bits and the lowest bit of each character are not looked at. */
  function Decode(src: Bytes): (r: Option<Address>)
    ensures r.Some? ==> WellFormed(r.value)
  {
    if |src| < ADDRESS_LEN then None
    else
      var base := Unshifted(src);
      var octet := src[6];
      match New(base[..Significant(base)], (octet >> 1) & 0x0F)
      case None => None
      case Some(c) => Some(Address(c, octet & 0x80 != 0, octet & 0x01 != 0))
  }

  method DecodeSlot(src: Bytes) returns (r: Option<Address>)
    ensures r == Decode(src)
  {
    if |src| < ADDRESS_LEN {
      return None;
    }
    var base: Bytes := [];
    var significant := 0;
    for i := 0 to MAX_BASE_LEN
      invariant base == Unshifted(src)[..i] && significant == Significant(base)
    {
      var c := ShiftedDown(src[i]);
      assert Unshifted(src)[..i + 1] == base + [c];
      assert (base + [c])[..|base|] == base;
      base := base + [c];
      if c != SPACE {
        significant := i + 1;
      }
    }
    assert base == Unshifted(src);
    var trimmed := base[..significant];
    for i := 0 to |trimmed|
      invariant forall k :: 0 <= k < i ==> trimmed[k] == SPACE || Alphanumeric(trimmed[k])
    {
      if trimmed[i] != SPACE && !Upper(trimmed[i]) && !Digit(trimmed[i]) {
        return None;
      }
    }
    var octet := src[6];
    var c := New(trimmed, (octet >> 1) & 0x0F);
    if c.None? {
      return None;
    }
    return Some(Address(c.value, octet & 0x80 != 0, octet & 0x01 != 0));
  }

  lemma CharacterSurvives(c: Byte)
    requires c < 0x80
    ensures ShiftedDown(ShiftedUp(c)) == c
  {}

  lemma OctetSurvives(a: Address)
    requires a.callsign.ssid <= 15
    ensures (SsidOctet(a) >> 1) & 0x0F == a.callsign.ssid
    ensures (SsidOctet(a) & 0x80 != 0) == a.crh
    ensures (SsidOctet(a) & 0x01 != 0) == a.extension
  {}

  lemma SignificantOfPadded(base: Bytes, padded: Bytes)
    requires |base| <= |padded| && padded[..|base|] == base
    requires base != [] ==> base[|base| - 1] != SPACE
    requires forall i :: |base| <= i < |padded| ==> padded[i] == SPACE
    ensures Significant(padded) == |base|
  {}

  /** A slot decodes to the address it encodes. */
  lemma RoundTrip(a: Address)
    requires WellFormed(a)
    ensures Decode(Encode(a)) == Some(a)
  {
    var base, e := a.callsign.base, Encode(a);
    var padded := Unshifted(e);
    forall i | 0 <= i < MAX_BASE_LEN ensures padded[i] == Padded(base, i) {
      assert Padded(base, i) < 0x80;
      CharacterSurvives(Padded(base, i));
    }
    assert padded[..|base|] == base;
    SignificantOfPadded(base, padded);
    OctetSurvives(a);
  }

  // ----- callsigns as payload -------------------------------------------------------

  /** A callsign where a NET/ROM record wants one: a slot with both flags clear. */
  function Shifted(c: Callsign): (b: Bytes)
    ensures |b| == ADDRESS_LEN
  {
    Encode(Address(c, false, false))
  }

  function ReadShifted(b: Bytes): (r: Option<Callsign>)
    ensures r.Some? ==> Valid(r.value)
  {
    match Decode(b)
    case None => None
    case Some(a) => Some(a.callsign)
  }

  lemma ShiftedReadsBack(c: Callsign)
    requires Valid(c)
    ensures ReadShifted(Shifted(c)) == Some(c)
  {
    RoundTrip(Address(c, false, false));
  }
}
