/**
 What the check words of the records in flash are for: a sector holds a record exactly
 if it starts with a complete one, and a record with a burst of wrong bits in it is not
 read (config_store.rs, netrom_store.rs, tnc_image.rs).
 */
module DamagedRecords {
  import opened Common
  import opened LittleEndian
  import opened NorFlash
  import opened FlashRecord
  import opened CrcDetection
  import Crc
  import AbStore
  import ConfigRecord
  import ConfigStore
  import RouteRecord
  import NetromStore
  import TncImage

  // ----- a check word at the end ----------------------------------------------------------

  /** The last two bytes are the check word of those before. */
  predicate Checked(b: Bytes) {
    |b| >= 2 && Crc.Compute(b[..|b| - 2]) == Crc.WordFrom(b[|b| - 2], b[|b| - 1])
  }

  /** Different, and only within sixteen consecutive bits. */
  predicate BurstAt(good: Bytes, bad: Bytes, from: nat) {
    && |good| == |bad| && good != bad
    && forall i :: 0 <= i < 8 * |good| && ErrorPattern(good, bad)[i] ==> from <= i < from + 16
  }

  lemma PairOfWord(lo: Byte, hi: Byte)
    ensures Crc.LowByteFirst(Crc.WordFrom(lo, hi)) == [lo, hi]
  {}

  lemma CheckedIsResidue(b: Bytes)
    requires |b| >= 2
    ensures Checked(b) <==> Crc.Compute(b) == RESIDUE
  {
    var n := |b| - 2;
    var w := Crc.WordFrom(b[n], b[n + 1]);
    PairOfWord(b[n], b[n + 1]);
    assert b == b[..n] + Crc.LowByteFirst(w);
    ResidueExactlyForOwnFcs(b[..n], w);
  }

  /** A burst anywhere, the check word included, leaves nothing that checks. */
  lemma BurstIsNoticed(good: Bytes, bad: Bytes, from: nat)
    requires Checked(good) && BurstAt(good, bad, from)
    ensures !Checked(bad)
  {
    CheckedIsResidue(good);
    CheckedIsResidue(bad);
    BurstDetected(good, bad, from);
  }

  // ----- sealed records --------------------------------------------------------------------

  lemma Digits256(lo: nat, hi: nat)
    requires lo < 256
    ensures (lo + 256 * hi) % 256 == lo && (lo + 256 * hi) / 256 == hi
  {}

  lemma Digits65536(lo: nat, hi: nat)
    requires lo < 0x1_0000
    ensures (lo + 0x1_0000 * hi) % 0x1_0000 == lo && (lo + 0x1_0000 * hi) / 0x1_0000 == hi
  {}

  lemma From16Is(b: Bytes, lo: nat, hi: nat)
    requires |b| == 2 && b[0] as nat == lo && b[1] as nat == hi
    ensures From16(b) == lo + 256 * hi
  {}

  lemma Le16Is(b: Bytes, lo: nat, hi: nat, v: nat)
    requires |b| == 2 && b[0] as nat == lo < 256 && b[1] as nat == hi < 256
    requires v < 0x1_0000 && v % 256 == lo && v / 256 == hi
    ensures Le16(v) == b
  {
    ByteOfItsValue(b[0], lo);
    ByteOfItsValue(b[1], hi);
  }

  lemma WriteBack16(b: Bytes)
    requires |b| == 2
    ensures Le16(From16(b)) == b
  {
    var lo, hi := b[0] as nat, b[1] as nat;
    ByteBound(b[0]);
    ByteBound(b[1]);
    From16Is(b, lo, hi);
    Digits256(lo, hi);
    Le16Is(b, lo, hi, lo + 256 * hi);
  }

  lemma Le32Is(b: Bytes, low: nat, high: nat, v: nat)
    requires |b| == 4 && low < 0x1_0000 && high < 0x1_0000 && Le16(low) == b[..2] && Le16(high) == b[2..]
    requires v < 0x1_0000_0000 && v % 0x1_0000 == low && v / 0x1_0000 == high
    ensures Le32(v) == b
  {}

  lemma WriteBack32(b: Bytes)
    requires |b| == 4
    ensures Le32(From32(b)) == b
  {
    var low, high := From16(b[..2]), From16(b[2..]);
    Digits65536(low, high);
    WriteBack16(b[..2]);
    WriteBack16(b[2..]);
    Le32Is(b, low, high, From32(b));
  }

  /** A header is read exactly from a sector that starts with it. */
  lemma HeaderReadsExactly(magic: Bytes, generation: nat, field: nat, sector: Bytes)
    requires |magic| == 4 && generation < 0x1_0000_0000 && field < 0x1_0000 && |sector| == SECTOR
    ensures ReadHeader(sector, magic) == Some((generation, field)) <==> Header(magic, generation, field) <= sector
  {
    if Header(magic, generation, field) <= sector {
      HeaderReadsBack(magic, generation, field, sector);
    }
    if ReadHeader(sector, magic) == Some((generation, field)) {
      WriteBack32(sector[5..9]);
      WriteBack16(sector[9..11]);
      assert sector[..HEADER_LEN] == sector[..4] + [sector[4]] + sector[5..9] + sector[9..11];
    }
  }

  lemma SealedIsChecked(magic: Bytes, generation: nat, field: nat, body: Bytes)
    requires |magic| == 4 && generation < 0x1_0000_0000 && field < 0x1_0000
    ensures Checked(Sealed(magic, generation, field, body))
  {
    var all := Header(magic, generation, field) + body;
    var record := Sealed(magic, generation, field, body);
    Crc.WordReadBack(Crc.Compute(all));
    assert record[..|record| - 2] == all;
  }

  lemma BodyIsChecked(sector: Bytes, len: nat)
    requires |sector| == SECTOR && HEADER_LEN + len + 2 <= SECTOR
    ensures ReadBody(sector, len).Some? <==> Checked(sector[..HEADER_LEN + len + 2])
    ensures ReadBody(sector, len).Some? ==> ReadBody(sector, len).value == sector[HEADER_LEN..HEADER_LEN + len]
  {
    var at := HEADER_LEN + len;
    assert sector[..at + 2][..at] == sector[..at];
  }

  /** Header and body are read exactly from a sector that starts with their record. */
  lemma RecordReadsExactly(magic: Bytes, generation: nat, field: nat, body: Bytes, sector: Bytes)
    requires |magic| == 4 && generation < 0x1_0000_0000 && field < 0x1_0000
    requires |sector| == SECTOR && HEADER_LEN + |body| + 2 <= SECTOR
    ensures
      ReadHeader(sector, magic) == Some((generation, field)) && ReadBody(sector, |body|) == Some(body)
      <==> Sealed(magic, generation, field, body) <= sector
  {
    if Sealed(magic, generation, field, body) <= sector {
      SealedReadsBack(magic, generation, field, body, sector);
    }
    if ReadHeader(sector, magic) == Some((generation, field)) && ReadBody(sector, |body|) == Some(body) {
      StartsWithRecord(magic, generation, field, body, sector);
    }
  }

  lemma StartsWithRecord(magic: Bytes, generation: nat, field: nat, body: Bytes, sector: Bytes)
    requires |magic| == 4 && generation < 0x1_0000_0000 && field < 0x1_0000
    requires |sector| == SECTOR && HEADER_LEN + |body| + 2 <= SECTOR
    requires ReadHeader(sector, magic) == Some((generation, field)) && ReadBody(sector, |body|) == Some(body)
    ensures Sealed(magic, generation, field, body) <= sector
  {
    var at := HEADER_LEN + |body|;
    HeaderReadsExactly(magic, generation, field, sector);
    BodyIsChecked(sector, |body|);
    assert sector[..at] == Header(magic, generation, field) + body;
    PairOfWord(sector[at], sector[at + 1]);
    assert sector[..at + 2][..at] == sector[..at];
    assert sector[..at + 2] == sector[..at] + [sector[at], sector[at + 1]];
  }

  /** A burst in a record that leaves its size alone: no header, or a body that does not
      check. */
  lemma BurstInRecord(magic: Bytes, generation: nat, field: nat, body: Bytes, sector: Bytes, from: nat)
    requires |magic| == 4 && generation < 0x1_0000_0000 && field < 0x1_0000
    requires |sector| == SECTOR && HEADER_LEN + |body| + 2 <= SECTOR
    requires BurstAt(Sealed(magic, generation, field, body), sector[..HEADER_LEN + |body| + 2], from)
    requires sector[9..11] == Le16(field)
    ensures ReadBody(sector, |body|) == None
    ensures ReadHeader(sector, magic).Some? ==> ReadHeader(sector, magic).value.1 == field
  {
    SealedIsChecked(magic, generation, field, body);
    BurstIsNoticed(Sealed(magic, generation, field, body), sector[..HEADER_LEN + |body| + 2], from);
    BodyIsChecked(sector, |body|);
    ReadBack16(field);
  }

  // ----- configurations ----------------------------------------------------------------------

  predicate ConfigStarts(sector: Bytes, generation: nat, payload: Bytes, c: ConfigRecord.StoredConfig) {
    && generation < AbStore.GENERATIONS && |payload| <= ConfigRecord.MAX_PAYLOAD
    && ConfigStore.RecordBytes(generation, payload) <= sector && ConfigRecord.Decode(payload) == c
  }

  lemma ConfigIsRead(sector: Sector, generation: nat, payload: Bytes, c: ConfigRecord.StoredConfig)
    requires ConfigStarts(sector, generation, payload, c)
    ensures ConfigStore.ReadSector(sector) == AbStore.Record(generation, c)
  {
    ConfigStore.RecordReadsBack(generation, payload, sector);
  }

  lemma ReadStartsWithConfig(sector: Sector, generation: nat, c: ConfigRecord.StoredConfig) returns (payload: Bytes)
    requires ConfigStore.ReadSector(sector) == AbStore.Record(generation, c)
    ensures ConfigStarts(sector, generation, payload, c)
  {
    var len := ReadHeader(sector, ConfigStore.MAGIC).value.1;
    payload := ReadBody(sector, len).value;
    StartsWithRecord(ConfigStore.MAGIC, generation, len, payload, sector);
  }

  /** A sector reads as a configuration exactly if it starts with a record of it. */
  lemma ConfigReadsExactly(sector: Sector, generation: nat, c: ConfigRecord.StoredConfig)
    ensures ConfigStore.ReadSector(sector) == AbStore.Record(generation, c)
      <==> exists payload: Bytes :: ConfigStarts(sector, generation, payload, c)
  {
    if ConfigStore.ReadSector(sector) == AbStore.Record(generation, c) {
      var _ := ReadStartsWithConfig(sector, generation, c);
    }
    forall payload: Bytes | ConfigStarts(sector, generation, payload, c)
      ensures ConfigStore.ReadSector(sector) == AbStore.Record(generation, c)
    {
      ConfigIsRead(sector, generation, payload, c);
    }
  }

  /** A record with up to sixteen wrong bits in a row, anywhere but in its length, is not
      read as a configuration. */
  lemma DamagedConfigIsInvalid(generation: nat, payload: Bytes, sector: Sector, from: nat)
    requires generation < AbStore.GENERATIONS && |payload| <= ConfigRecord.MAX_PAYLOAD
    requires BurstAt(ConfigStore.RecordBytes(generation, payload), sector[..|ConfigStore.RecordBytes(generation, payload)|], from)
    requires sector[9..11] == Le16(|payload|)
    ensures ConfigStore.ReadSector(sector) == AbStore.Invalid
  {
    BurstInRecord(ConfigStore.MAGIC, generation, |payload|, payload, sector, from);
  }

  // ----- routing tables --------------------------------------------------------------------------

  lemma UncheckedIsInvalid(sector: Sector, count: nat)
    requires count <= RouteRecord.MAX_ROUTES && ReadBody(sector, RouteRecord.ROUTE_LEN * count) == None
    requires ReadHeader(sector, NetromStore.MAGIC).Some? ==> ReadHeader(sector, NetromStore.MAGIC).value.1 == count
    ensures NetromStore.ReadSector(sector) == AbStore.Invalid
  {}

  lemma DamagedBodyIsInvalid(generation: nat, count: nat, body: Bytes, sector: Sector, from: nat)
    requires generation < AbStore.GENERATIONS && count <= RouteRecord.MAX_ROUTES && |body| == RouteRecord.ROUTE_LEN * count
    requires BurstAt(Sealed(NetromStore.MAGIC, generation, count, body), sector[..HEADER_LEN + |body| + 2], from)
    requires sector[9..11] == Le16(count)
    ensures NetromStore.ReadSector(sector) == AbStore.Invalid
  {
    BurstInRecord(NetromStore.MAGIC, generation, count, body, sector, from);
    UncheckedIsInvalid(sector, count);
  }

  /** The same for a routing table and its count. */
  lemma DamagedTableIsInvalid(generation: nat, routes: NetromStore.Table, sector: Sector, from: nat)
    requires generation < AbStore.GENERATIONS && |routes| <= RouteRecord.MAX_ROUTES
    requires BurstAt(NetromStore.RecordBytes(generation, routes), sector[..|NetromStore.RecordBytes(generation, routes)|], from)
    requires sector[9..11] == Le16(|routes|)
    ensures NetromStore.ReadSector(sector) == AbStore.Invalid
  {
    DamagedBodyIsInvalid(generation, |routes|, RouteRecord.Content(routes), sector, from);
  }

  predicate TableStarts(sector: Bytes, generation: nat, body: Bytes, routes: NetromStore.Table) {
    && generation < AbStore.GENERATIONS && |routes| <= RouteRecord.MAX_ROUTES && |body| == RouteRecord.ROUTE_LEN * |routes|
    && Sealed(NetromStore.MAGIC, generation, |routes|, body) <= sector
    && RouteRecord.ReadRoutes(body, |routes|) == Some(routes)
  }

  lemma TableIsRead(sector: Sector, generation: nat, body: Bytes, routes: NetromStore.Table)
    requires TableStarts(sector, generation, body, routes)
    ensures NetromStore.ReadSector(sector) == AbStore.Record(generation, routes)
  {
    SealedReadsBack(NetromStore.MAGIC, generation, |routes|, body, sector);
  }

  lemma ReadStartsWithTable(sector: Sector, generation: nat, routes: NetromStore.Table) returns (body: Bytes)
    requires NetromStore.ReadSector(sector) == AbStore.Record(generation, routes)
    ensures TableStarts(sector, generation, body, routes)
  {
    var count := ReadHeader(sector, NetromStore.MAGIC).value.1;
    body := ReadBody(sector, RouteRecord.ROUTE_LEN * count).value;
    StartsWithRecord(NetromStore.MAGIC, generation, count, body, sector);
  }

  /** A sector reads as a routing table exactly if it starts with a record of it. */
  lemma TableReadsExactly(sector: Sector, generation: nat, routes: NetromStore.Table)
    ensures NetromStore.ReadSector(sector) == AbStore.Record(generation, routes)
      <==> exists body: Bytes :: TableStarts(sector, generation, body, routes)
  {
    if NetromStore.ReadSector(sector) == AbStore.Record(generation, routes) {
      var _ := ReadStartsWithTable(sector, generation, routes);
    }
    forall body: Bytes | TableStarts(sector, generation, body, routes)
      ensures NetromStore.ReadSector(sector) == AbStore.Record(generation, routes)
    {
      TableIsRead(sector, generation, body, routes);
    }
  }

  // ----- image headers ---------------------------------------------------------------------------

  /** A header is one exactly if it starts with the magic and checks. */
  lemma HeaderIsChecked(hdr: Bytes)
    requires |hdr| == TncImage.HEADER_LEN
    ensures TncImage.ReadHeader(hdr).Some? <==> TncImage.MAGIC <= hdr && Checked(hdr)
  {}

  /** A header with up to sixteen wrong bits in a row, anywhere, stages nothing. */
  lemma DamagedHeaderIsNone(image: TncImage.Image, hdr: Bytes, from: nat)
    requires TncImage.ValidImage(image) && BurstAt(TncImage.HeaderBytes(image), hdr, from)
    ensures TncImage.ReadHeader(hdr) == None
  {
    TncImage.HeaderReadsBack(image);
    HeaderIsChecked(TncImage.HeaderBytes(image));
    BurstIsNoticed(TncImage.HeaderBytes(image), hdr, from);
    HeaderIsChecked(hdr);
  }
}
