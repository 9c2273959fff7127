/**
 The sealed record both A/B stores keep in a flash sector: magic, version,
 generation, a 16-bit size field, the body, and a CRC over all of it
 (config_store.rs, netrom_store.rs).
 */
module FlashRecord {
  import opened Common
  import opened LittleEndian
  import opened NorFlash
  import Crc

  const VERSION: Byte := 1
  const HEADER_LEN: nat := 11

  function Header(magic: Bytes, generation: nat, field: nat): (h: Bytes)
    requires |magic| == 4 && generation < 0x1_0000_0000 && field < 0x1_0000
    ensures |h| == HEADER_LEN
  {
    magic + [VERSION] + Le32(generation) + Le16(field)
  }

  function Sealed(magic: Bytes, generation: nat, field: nat, body: Bytes): (r: Bytes)
    requires |magic| == 4 && generation < 0x1_0000_0000 && field < 0x1_0000
    ensures |r| == HEADER_LEN + |body| + 2
  {
    var all := Header(magic, generation, field) + body;
    all + Crc.LowByteFirst(Crc.Compute(all))
  }

  /** A record grown with 0xFF to a whole number of flash pages. */
  function Padded(record: Bytes): (r: Bytes)
    ensures |record| <= |r| < |record| + PAGE && |r| % PAGE == 0
    ensures r[..|record|] == record
  {
    record + Erased((PAGE - |record| % PAGE) % PAGE)
  }

  /** The generation and the size field, if the header is ours. */
  function ReadHeader(sector: Bytes, magic: Bytes): (r: Option<(nat, nat)>)
    requires |sector| == SECTOR
    ensures r.Some? ==> r.value.0 < 0x1_0000_0000 && r.value.1 < 0x1_0000
  {
    if sector[..4] != magic || sector[4] != VERSION then None
    else Some((From32(sector[5..9]), From16(sector[9..11])))
  }

  /** A body of this length, if the CRC behind it holds. */
  function ReadBody(sector: Bytes, len: nat): Option<Bytes>
    requires |sector| == SECTOR && HEADER_LEN + len + 2 <= SECTOR
  {
    var at := HEADER_LEN + len;
    if Crc.Compute(sector[..at]) == Crc.WordFrom(sector[at], sector[at + 1]) then Some(sector[HEADER_LEN..at]) else None
  }

  lemma HeaderReadsBack(magic: Bytes, generation: nat, field: nat, sector: Bytes)
    requires |magic| == 4 && generation < 0x1_0000_0000 && field < 0x1_0000
    requires |sector| == SECTOR && Header(magic, generation, field) <= sector
    ensures ReadHeader(sector, magic) == Some((generation, field))
  {
    var h := Header(magic, generation, field);
    assert sector[..HEADER_LEN] == h;
    assert sector[..4] == h[..4] == magic;
    assert sector[4] == h[4];
    assert sector[5..9] == h[5..9] == Le32(generation);
    assert sector[9..11] == h[9..11] == Le16(field);
    ReadBack32(generation);
    ReadBack16(field);
  }

  /** A sector that starts with a sealed record gives back its fields and body,
      whatever follows. */
  lemma SealedReadsBack(magic: Bytes, generation: nat, field: nat, body: Bytes, sector: Bytes)
    requires |magic| == 4 && generation < 0x1_0000_0000 && field < 0x1_0000
    requires |sector| == SECTOR && HEADER_LEN + |body| + 2 <= SECTOR
    requires Sealed(magic, generation, field, body) <= sector
    ensures ReadHeader(sector, magic) == Some((generation, field))
    ensures ReadBody(sector, |body|) == Some(body)
  {
    var h := Header(magic, generation, field);
    var record := Sealed(magic, generation, field, body);
    var at := HEADER_LEN + |body|;
    assert sector[..|record|] == record;
    assert h <= sector by { assert sector[..HEADER_LEN] == record[..HEADER_LEN] == h; }
    HeaderReadsBack(magic, generation, field, sector);
    assert sector[..at] == record[..at] == h + body;
    assert sector[HEADER_LEN..at] == (h + body)[HEADER_LEN..] == body;
    var crc := Crc.LowByteFirst(Crc.Compute(h + body));
    assert sector[at] == record[at] == crc[0] && sector[at + 1] == record[at + 1] == crc[1];
    Crc.WordReadBack(Crc.Compute(h + body));
  }

  /** An erased sector holds no record of a magic that is not erased flash. */
  lemma ErasedHasNoHeader(magic: Bytes)
    requires |magic| == 4 && magic[0] != 0xFF
    ensures ReadHeader(Erased(SECTOR), magic) == None
  {
    assert Erased(SECTOR)[..4][0] == 0xFF;
  }

  /** What an erase followed by the padded write leaves in the sector. */
  function FreshSector(record: Bytes): Sector
    requires |Padded(record)| <= SECTOR
  {
    Program(Erased(SECTOR), 0, Padded(record))
  }

  lemma FreshStartsWith(record: Bytes)
    requires |Padded(record)| <= SECTOR
    ensures record <= FreshSector(record)
  {
    ProgramOnErased(Erased(SECTOR), 0, Padded(record));
    assert FreshSector(record)[..|record|] == Padded(record)[..|record|];
  }

  /** The two sectors of a store; a generation's parity chooses between them. */
  datatype Sectors = Sectors(a: Sector, b: Sector)

  function SectorOf(s: Sectors, generation: nat): Sector {
    if generation % 2 == 0 then s.a else s.b
  }

  function WithSector(s: Sectors, generation: nat, bytes: Sector): Sectors {
    if generation % 2 == 0 then s.(a := bytes) else s.(b := bytes)
  }
}
