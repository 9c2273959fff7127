/** Little-endian integers in byte records. */
module LittleEndian {
  import opened Common

  function Le16(v: nat): (b: Bytes)
    requires v < 0x1_0000
    ensures |b| == 2
  {
    [(v % 256) as Byte, (v / 256) as Byte]
  }

  function Le32(v: nat): (b: Bytes)
    requires v < 0x1_0000_0000
    ensures |b| == 4
  {
    Le16(v % 0x1_0000) + Le16(v / 0x1_0000)
  }

  function From16(b: Bytes): (v: nat)
    requires |b| == 2
    ensures v < 0x1_0000
  {
    ByteBound(b[0]);
    ByteBound(b[1]);
    b[0] as nat + 256 * (b[1] as nat)
  }

  function From32(b: Bytes): (v: nat)
    requires |b| == 4
    ensures v < 0x1_0000_0000
  {
    From16(b[..2]) + 0x1_0000 * From16(b[2..])
  }

  lemma ByteBound(b: Byte)
    ensures b as nat < 256
  {}

  lemma NextByte(b: Byte)
    requires b as nat < 255
    ensures (b + 1) as nat == b as nat + 1
  {}

  lemma ByteOfItsValue(b: Byte, n: nat)
    requires b as nat == n && n < 256
    ensures n as Byte == b
  {}

  lemma {:induction false} SomeByte(n: nat) returns (b: Byte)
    requires n < 256
    ensures b as nat == n
  {
    if n == 0 {
      b := 0;
    } else {
      b := SomeByte(n - 1);
      NextByte(b);
      b := b + 1;
    }
  }

  lemma ByteOfNat(n: nat)
    requires n < 256
    ensures (n as Byte) as nat == n
  {
    var b := SomeByte(n);
    ByteOfItsValue(b, n);
  }

  lemma ReadBack16(v: nat)
    requires v < 0x1_0000
    ensures From16(Le16(v)) == v
  {
    ByteOfNat(v % 256);
    ByteOfNat(v / 256);
  }

  lemma ReadBack32(v: nat)
    requires v < 0x1_0000_0000
    ensures From32(Le32(v)) == v
  {
    ReadBack16(v % 0x1_0000);
    ReadBack16(v / 0x1_0000);
    assert Le32(v)[..2] == Le16(v % 0x1_0000) && Le32(v)[2..] == Le16(v / 0x1_0000);
  }
}
