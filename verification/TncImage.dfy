/**
 The staged modem firmware image (tnc_image.rs): records streamed into a flash
 region a page at a time, and a header, written last, that makes them an image.
 */
module TncImage {
  import opened Common
  import opened LittleEndian
  import opened NorFlash
  import Crc

  /** A range of whole flash sectors; the first is the header's. */
  datatype Region = Region(start: nat, end: nat)

  predicate ValidRegion(r: Region) { r.start % SECTOR == 0 && r.end % SECTOR == 0 && r.start + SECTOR <= r.end }

  function DataStart(r: Region): nat { r.start + SECTOR }

  // ----- flash that may fail ------------------------------------------------------

  /** How the flash operations for one page end. A failed erase or write leaves the
      bytes it was working on in any state. */
  datatype Fault = NoFault | Busy | EraseError(left: Bytes) | WriteError(left: Bytes)

  /** Which fault the page at each address meets. */
  type Plan = nat -> Fault

  function Leaving(mem: Bytes, at: nat, n: nat, left: Bytes): (r: Bytes)
    requires at + n <= |mem|
    ensures |r| == |mem| && forall i :: 0 <= i < |mem| && !(at <= i < at + n) ==> r[i] == mem[i]
  {
    if |left| == n then mem[..at] + left + mem[at + n..] else mem
  }

  function PageImage(page: Bytes): (p: Bytes)
    requires |page| <= PAGE
    ensures |p| == PAGE && p[..|page|] == page && forall i :: |page| <= i < PAGE ==> p[i] == 0xFF
  {
    page + Erased(PAGE - |page|)
  }

  /** Flash after a page has been sent to `at`, its sector erased first if it opens one. */
  function Flushed(mem: Bytes, at: nat, page: Bytes, fault: Fault): (r: Bytes)
    requires |page| <= PAGE && at + PAGE <= |mem| && (at % SECTOR == 0 ==> at + SECTOR <= |mem|)
    ensures |r| == |mem|
  {
    var opens := at % SECTOR == 0;
    var erased := if opens then Erase(mem, at) else mem;
    match fault
    case NoFault => Program(erased, at, PageImage(page))
    case Busy => mem
    case EraseError(left) => if opens then Leaving(mem, at, SECTOR, left) else mem
    case WriteError(left) => Leaving(erased, at, PAGE, left)
  }

  // ----- the writer ---------------------------------------------------------------

  /** The flash, where the next page goes, the bytes waiting for it, whether a write
      has failed, and the sectors erased so far in order. */
  datatype Writer = Writer(mem: Bytes, next: nat, page: Bytes, failed: bool, erased: seq<nat>)

  predicate ValidWriter(w: Writer, r: Region) {
    && ValidRegion(r) && r.end <= |w.mem|
    && DataStart(r) <= w.next <= r.end && w.next % PAGE == 0 && |w.page| <= PAGE
  }

  lemma PageInSector(at: nat)
    requires at % PAGE == 0
    ensures at % SECTOR + PAGE <= SECTOR
    ensures (at + PAGE) % SECTOR == if at % SECTOR + PAGE == SECTOR then 0 else at % SECTOR + PAGE
    ensures (at + PAGE) % PAGE == 0
  {
    var pages := at / PAGE;
    assert at == PAGE * pages;
    var k, m := pages / 16, pages % 16;
    assert pages == 16 * k + m;
    SectorRemainder(at, k, PAGE * m);
    PageRemainder(at + PAGE, pages + 1, 0);
    if m == 15 { SectorRemainder(at + PAGE, k + 1, 0); } else { SectorRemainder(at + PAGE, k, PAGE * (m + 1)); }
  }

  lemma RoomForSector(at: nat, end: nat)
    requires at % SECTOR == 0 && end % SECTOR == 0 && at < end
    ensures at + SECTOR <= end
  {
    var a, e := at / SECTOR, end / SECTOR;
    assert at == SECTOR * a && end == SECTOR * e;
    assert a < e;
  }

  lemma SectorsArePages(at: nat)
    requires at % SECTOR == 0
    ensures at % PAGE == 0
  {
    var k := at / SECTOR;
    assert at == SECTOR * k;
    PageRemainder(at, 16 * k, 0);
  }

  lemma NextSector(at: nat)
    requires at % SECTOR == 0
    ensures (at + SECTOR) % SECTOR == 0
  {
    var k := at / SECTOR;
    assert at == SECTOR * k;
    SectorRemainder(at + SECTOR, k + 1, 0);
  }

  /** Flash after the first erase of an upload. */
  function Invalidated(mem: Bytes, r: Region, fault: Fault): (m: Bytes)
    requires ValidRegion(r) && r.end <= |mem|
    ensures |m| == |mem|
  {
    match fault
    case Busy => mem
    case EraseError(left) => Leaving(mem, r.start, SECTOR, left)
    case _ => Erase(mem, r.start)
  }

  /** A failed first erase may leave its sector in any state, a refused one has not begun, and
      any other has emptied it; the rest of the flash is as it was. */
  lemma FirstErase(mem: Bytes, r: Region, fault: Fault)
    requires ValidRegion(r) && r.end <= |mem|
    ensures
      var m := Invalidated(mem, r, fault);
      var header := m[r.start..DataStart(r)];
      && m[..r.start] == mem[..r.start] && m[DataStart(r)..] == mem[DataStart(r)..]
      && (fault.Busy? ==> m == mem)
      && (fault.EraseError? && |fault.left| == SECTOR ==> header == fault.left)
      && (fault.NoFault? ==> forall i :: 0 <= i < SECTOR ==> header[i] == 0xFF)
  {}

  function Begin(mem: Bytes, r: Region): (w: Writer)
    requires ValidRegion(r) && r.end <= |mem|
    ensures ValidWriter(w, r)
  {
    NextSector(r.start);
    SectorsArePages(DataStart(r));
    Writer(Invalidated(mem, r, NoFault), DataStart(r), [], false, [r.start])
  }

  function Flush(w: Writer, r: Region, plan: Plan): (n: Writer)
    requires ValidWriter(w, r)
    ensures ValidWriter(n, r) && |n.mem| == |w.mem|
  {
    if w.next + PAGE > r.end then w.(failed := true)
    else
      if w.next % SECTOR == 0 then RoomForSector(w.next, r.end); PageInSector(w.next); AfterFlush(w, plan(w.next))
      else PageInSector(w.next); AfterFlush(w, plan(w.next))
  }

  function AfterFlush(w: Writer, fault: Fault): Writer
    requires |w.page| <= PAGE && w.next + PAGE <= |w.mem| && (w.next % SECTOR == 0 ==> w.next + SECTOR <= |w.mem|)
  {
    Writer(
      Flushed(w.mem, w.next, w.page, fault), w.next + PAGE, [], fault != NoFault,
      if w.next % SECTOR == 0 && fault != Busy then w.erased + [w.next] else w.erased)
  }

  function Write(w: Writer, r: Region, plan: Plan, bytes: Bytes): (res: (Writer, bool))
    requires ValidWriter(w, r) && (!w.failed ==> |w.page| < PAGE)
    ensures ValidWriter(res.0, r) && |res.0.mem| == |w.mem|
    ensures !res.0.failed ==> |res.0.page| < PAGE
    decreases |bytes|
  {
    if bytes == [] then (w, true)
    else if w.failed then (w, false)
    else
      var take := if |bytes| <= PAGE - |w.page| then |bytes| else PAGE - |w.page|;
      var filled := w.(page := w.page + bytes[..take]);
      if |filled.page| == PAGE then
        var n := Flush(filled, r, plan);
        if n.failed then (n, false) else Write(n, r, plan, bytes[take..])
      else Write(filled, r, plan, bytes[take..])
  }

  /** One turn of the loop: fill the page buffer, and send it if it is full. */
  lemma WriteTurn(w: Writer, r: Region, plan: Plan, bytes: Bytes, take: nat)
    requires ValidWriter(w, r) && !w.failed && |w.page| < PAGE && bytes != []
    requires take == if |bytes| <= PAGE - |w.page| then |bytes| else PAGE - |w.page|
    ensures
      var filled := w.(page := w.page + bytes[..take]);
      if |filled.page| < PAGE then Write(w, r, plan, bytes) == Write(filled, r, plan, bytes[take..])
      else if Flush(filled, r, plan).failed then Write(w, r, plan, bytes) == (Flush(filled, r, plan), false)
      else Write(w, r, plan, bytes) == Write(Flush(filled, r, plan), r, plan, bytes[take..])
  {}

  /** A series of writes, and whether every one reported success. */
  function WriteAll(w: Writer, r: Region, plan: Plan, chunks: seq<Bytes>): (res: (Writer, bool))
    requires ValidWriter(w, r) && (!w.failed ==> |w.page| < PAGE)
    ensures ValidWriter(res.0, r) && |res.0.mem| == |w.mem|
    ensures !res.0.failed ==> |res.0.page| < PAGE
    decreases |chunks|
  {
    if chunks == [] then (w, true)
    else
      var (n, ok) := Write(w, r, plan, chunks[0]);
      var (m, rest) := WriteAll(n, r, plan, chunks[1..]);
      (m, ok && rest)
  }

  function Flat(chunks: seq<Bytes>): Bytes { if chunks == [] then [] else chunks[0] + Flat(chunks[1..]) }

  // ----- the header ---------------------------------------------------------------

  const MAGIC: Bytes := [0x4E, 0x54, 0x46, 0x57]  // "NTFW"
  const NAME_MAX: nat := 40
  const HEADER_LEN: nat := 58

  datatype ChipVariant = Dspic33Ep256 | Dspic33Ep512 | Unknown

  datatype Image = Image(lines: nat, packedLen: nat, crc: Crc.Word, target: ChipVariant, name: Bytes)

  predicate ValidImage(i: Image) {
    i.lines < 0x1_0000_0000 && i.packedLen < 0x1_0000_0000 && |i.name| <= NAME_MAX
  }

  predicate Shown(b: Byte) { 0x20 <= b < 0x7F }

  /** The printable bytes of a file name, at most `room` of them. */
  function NameOf(text: Bytes, room: nat): (name: Bytes)
    ensures |name| <= room
  {
    if text == [] || room == 0 then []
    else if Shown(text[0]) then [text[0]] + NameOf(text[1..], room - 1) else NameOf(text[1..], room)
  }

  function TargetByte(t: ChipVariant): Byte {
    match t
    case Dspic33Ep256 => 1
    case Dspic33Ep512 => 2
    case Unknown => 0
  }

  function TargetOf(b: Byte): ChipVariant { if b == 1 then Dspic33Ep256 else if b == 2 then Dspic33Ep512 else Unknown }

  /** A target is known exactly by its own byte. */
  lemma TargetsByByte(b: Byte, t: ChipVariant)
    ensures TargetOf(TargetByte(t)) == t
    ensures TargetOf(b) == t && t != Unknown ==> TargetByte(t) == b
  {}

  function Zeros(n: nat): Bytes { seq(n, _ => 0) }

  function Fields(i: Image): (h: Bytes)
    requires ValidImage(i)
    ensures |h| == 56
  {
    MAGIC + Le32(i.lines) + Le32(i.packedLen) + Crc.LowByteFirst(i.crc) + [TargetByte(i.target), |i.name| as Byte]
      + i.name + Zeros(NAME_MAX - |i.name|)
  }

  function HeaderBytes(i: Image): (h: Bytes)
    requires ValidImage(i)
    ensures |h| == HEADER_LEN
  {
    Fields(i) + Crc.LowByteFirst(Crc.Compute(Fields(i)))
  }

  /** What the bytes of a header say, if they are one. */
  function ReadHeader(hdr: Bytes): Option<Image>
    requires |hdr| == HEADER_LEN
  {
    if hdr[..4] != MAGIC || Crc.Compute(hdr[..56]) != Crc.WordFrom(hdr[56], hdr[57]) then None
    else
      var stored := hdr[15] as nat;
      var len := if stored <= NAME_MAX then stored else NAME_MAX;
      Some(Image(From32(hdr[4..8]), From32(hdr[8..12]), Crc.WordFrom(hdr[12], hdr[13]), TargetOf(hdr[14]), hdr[16..16 + len]))
  }

  function Staged(mem: Bytes, r: Region): Option<Image>
    requires ValidRegion(r) && r.end <= |mem|
  {
    ReadHeader(mem[r.start..r.start + HEADER_LEN])
  }

  lemma FieldOffsets(i: Image)
    requires ValidImage(i)
    ensures
      var h := Fields(i);
      && h[..4] == MAGIC && h[4..8] == Le32(i.lines) && h[8..12] == Le32(i.packedLen)
      && h[12..14] == Crc.LowByteFirst(i.crc) && h[14] == TargetByte(i.target) && h[15] == |i.name| as Byte
      && h[16..16 + |i.name|] == i.name
  {}

  lemma HeaderSlices(i: Image)
    requires ValidImage(i)
    ensures
      var hdr := HeaderBytes(i);
      && hdr[..56] == Fields(i)
      && hdr[..4] == MAGIC && hdr[4..8] == Le32(i.lines) && hdr[8..12] == Le32(i.packedLen)
      && [hdr[12], hdr[13]] == Crc.LowByteFirst(i.crc) && [hdr[56], hdr[57]] == Crc.LowByteFirst(Crc.Compute(Fields(i)))
      && hdr[14] == TargetByte(i.target) && hdr[15] == |i.name| as Byte && hdr[16..16 + |i.name|] == i.name
  {
    var hdr, f := HeaderBytes(i), Fields(i);
    assert hdr[..56] == f;
    FieldOffsets(i);
    assert hdr[..4] == f[..4] && hdr[4..8] == f[4..8] && hdr[8..12] == f[8..12];
    assert [hdr[12], hdr[13]] == f[12..14] && hdr[14] == f[14] && hdr[15] == f[15];
    assert hdr[16..16 + |i.name|] == f[16..16 + |i.name|];
  }

  /** Every field of a header is read back as it was written. */
  lemma HeaderReadsBack(i: Image)
    requires ValidImage(i)
    ensures ReadHeader(HeaderBytes(i)) == Some(i)
  {
    HeaderSlices(i);
    ReadBack32(i.lines);
    ReadBack32(i.packedLen);
    Crc.WordReadBack(i.crc);
    Crc.WordReadBack(Crc.Compute(Fields(i)));
    ByteOfNat(|i.name|);
  }

  /** A region whose header sector is erased has nothing staged. */
  lemma ErasedHeaderIsNone(mem: Bytes, r: Region)
    requires ValidRegion(r) && r.end <= |mem| && mem[r.start] == 0xFF
    ensures Staged(mem, r) == None
  {
    assert mem[r.start..r.start + HEADER_LEN][..4][0] == 0xFF;
  }

  /** The last page, then the header that makes the image valid. A failed earlier
      write is not looked at again, as in the source. */
  function Commit(w: Writer, r: Region, plan: Plan, image: Image, header: Fault): (res: (Writer, bool))
    requires ValidWriter(w, r) && ValidImage(image)
    ensures |res.0.mem| == |w.mem|
  {
    var n := if w.page != [] then Flush(w, r, plan) else w;
    if w.page != [] && n.failed then (n, false)
    else
      var bytes := PageImage(HeaderBytes(image));
      match header
      case NoFault => (n.(mem := Program(n.mem, r.start, bytes)), true)
      case Busy => (n, false)
      case EraseError(_) => (n, false)
      case WriteError(left) => (n.(mem := Leaving(n.mem, r.start, PAGE, left)), false)
  }

  // ----- whatever fails: nothing staged, nothing outside touched --------------------

  predicate Blank(mem: Bytes, from: nat, to: nat) {
    to <= |mem| && forall i :: from <= i < to ==> mem[i] == 0xFF
  }

  predicate OutsideKept(mem: Bytes, before: Bytes, r: Region) {
    |mem| == |before| && forall i :: 0 <= i < |mem| && !(r.start <= i < r.end) ==> mem[i] == before[i]
  }

  /** No sector is erased twice, none outside the region, none before its turn. */
  predicate ErasedInTurn(w: Writer, r: Region) {
    && (forall i, j :: 0 <= i < j < |w.erased| ==> w.erased[i] < w.erased[j])
    && (forall i :: 0 <= i < |w.erased| ==> r.start <= w.erased[i] < w.next && w.erased[i] % SECTOR == 0)
  }

  predicate Safe(w: Writer, r: Region, before: Bytes) {
    ValidWriter(w, r) && Blank(w.mem, r.start, DataStart(r)) && OutsideKept(w.mem, before, r) && ErasedInTurn(w, r)
  }

  function SectorEnd(at: nat): nat { if at % SECTOR == 0 then at else at - at % SECTOR + SECTOR }

  /** A page in any state only ever changes the sector it lies in, from it on. */
  lemma FlushStaysInSector(mem: Bytes, at: nat, page: Bytes, fault: Fault)
    requires |page| <= PAGE && at + PAGE <= |mem| && at % PAGE == 0 && (at % SECTOR == 0 ==> at + SECTOR <= |mem|)
    ensures forall i :: 0 <= i < |mem| && !(at <= i < SectorEnd(at + PAGE)) ==> Flushed(mem, at, page, fault)[i] == mem[i]
  {
    PageInSector(at);
  }

  lemma SectorInRegion(at: nat, r: Region)
    requires ValidRegion(r) && at % PAGE == 0 && at + PAGE <= r.end
    ensures SectorEnd(at + PAGE) <= r.end
  {
    PageInSector(at);
    SectorRemainder(at - at % SECTOR, at / SECTOR, 0);
    RoomForSector(at - at % SECTOR, r.end);
  }

  lemma BeginIsSafe(mem: Bytes, r: Region)
    requires ValidRegion(r) && r.end <= |mem|
    ensures Safe(Begin(mem, r), r, mem)
  {}

  lemma FlushErasesInTurn(w: Writer, r: Region, plan: Plan)
    requires ValidWriter(w, r) && ErasedInTurn(w, r)
    ensures ErasedInTurn(Flush(w, r, plan), r)
  {}

  lemma FlushChangesAhead(w: Writer, r: Region, plan: Plan)
    requires ValidWriter(w, r) && w.next + PAGE <= r.end
    ensures SectorEnd(w.next + PAGE) <= r.end
    ensures forall i :: 0 <= i < |w.mem| && !(w.next <= i < SectorEnd(w.next + PAGE)) ==> Flush(w, r, plan).mem[i] == w.mem[i]
  {
    if w.next % SECTOR == 0 { RoomForSector(w.next, r.end); }
    FlushStaysInSector(w.mem, w.next, w.page, plan(w.next));
    SectorInRegion(w.next, r);
  }

  lemma FlushIsSafe(w: Writer, r: Region, plan: Plan, before: Bytes)
    requires Safe(w, r, before)
    ensures Safe(Flush(w, r, plan), r, before)
  {
    FlushErasesInTurn(w, r, plan);
    if w.next + PAGE <= r.end {
      FlushChangesAhead(w, r, plan);
      var n := Flush(w, r, plan);
      assert Blank(n.mem, r.start, DataStart(r)) && OutsideKept(n.mem, before, r);
    }
  }

  lemma {:induction false} WriteIsSafe(w: Writer, r: Region, plan: Plan, bytes: Bytes, before: Bytes)
    requires Safe(w, r, before) && (!w.failed ==> |w.page| < PAGE)
    ensures Safe(Write(w, r, plan, bytes).0, r, before)
    decreases |bytes|
  {
    if bytes != [] && !w.failed {
      var take := if |bytes| <= PAGE - |w.page| then |bytes| else PAGE - |w.page|;
      var filled := w.(page := w.page + bytes[..take]);
      if |filled.page| == PAGE {
        FlushIsSafe(filled, r, plan, before);
        var n := Flush(filled, r, plan);
        if !n.failed { WriteIsSafe(n, r, plan, bytes[take..], before); }
      } else {
        WriteIsSafe(filled, r, plan, bytes[take..], before);
      }
    }
  }

  lemma {:induction false} WritesAreSafe(w: Writer, r: Region, plan: Plan, chunks: seq<Bytes>, before: Bytes)
    requires Safe(w, r, before) && (!w.failed ==> |w.page| < PAGE)
    ensures Safe(WriteAll(w, r, plan, chunks).0, r, before)
    decreases |chunks|
  {
    if chunks != [] {
      WriteIsSafe(w, r, plan, chunks[0], before);
      WritesAreSafe(Write(w, r, plan, chunks[0]).0, r, plan, chunks[1..], before);
    }
  }

  /** From the end of the first erase until the header is written there is no staged
      image: whatever was written and whichever flash operation failed or was cut
      short on the way, with any bytes left behind, the old image is gone, the new
      one does not exist yet, and nothing outside the region has changed. */
  lemma NothingStagedBeforeTheHeader(mem: Bytes, r: Region, plan: Plan, chunks: seq<Bytes>, flushLast: bool)
    requires ValidRegion(r) && r.end <= |mem|
    ensures
      var w := WriteAll(Begin(mem, r), r, plan, chunks).0;
      var n := if flushLast then Flush(w, r, plan) else w;
      Staged(n.mem, r) == None && OutsideKept(n.mem, mem, r) && ErasedInTurn(n, r)
  {
    BeginIsSafe(mem, r);
    WritesAreSafe(Begin(mem, r), r, plan, chunks, mem);
    var w := WriteAll(Begin(mem, r), r, plan, chunks).0;
    FlushIsSafe(w, r, plan, mem);
    ErasedHeaderIsNone((if flushLast then Flush(w, r, plan) else w).mem, r);
  }

  // ----- nothing fails: the image is stored -----------------------------------------

  /** The whole pages of the data are in flash, the rest waits in the page buffer,
      and the open sector is erased from here on. */
  predicate Holds(w: Writer, r: Region, data: Bytes) {
    var done := w.next - DataStart(r);
    && ValidWriter(w, r) && !w.failed
    && |data| == done + |w.page| && data[done..] == w.page
    && (forall i :: 0 <= i < done ==> w.mem[DataStart(r) + i] == data[i])
    && SectorEnd(w.next) <= r.end && Blank(w.mem, w.next, SectorEnd(w.next))
    && SectorsErased(w, r)
  }

  /** The sectors of the region up to the current one have been erased, in order. */
  predicate SectorsErased(w: Writer, r: Region) {
    && SectorEnd(w.next) == r.start + SECTOR * |w.erased|
    && forall i :: 0 <= i < |w.erased| ==> w.erased[i] == r.start + SECTOR * i
  }

  /** A page that meets no fault is stored, padded with 0xFF. */
  lemma FlushStores(mem: Bytes, at: nat, page: Bytes)
    requires |page| <= PAGE && at + PAGE <= |mem| && at % PAGE == 0 && (at % SECTOR == 0 ==> at + SECTOR <= |mem|)
    requires SectorEnd(at + PAGE) <= |mem| && Blank(mem, at, SectorEnd(at))
    ensures
      var after := Flushed(mem, at, page, NoFault);
      && after[at..at + PAGE] == PageImage(page)
      && Blank(after, at + PAGE, SectorEnd(at + PAGE))
      && forall i :: 0 <= i < at ==> after[i] == mem[i]
  {
    PageInSector(at);
    var erased := if at % SECTOR == 0 then Erase(mem, at) else mem;
    assert forall i :: at <= i < at + PAGE ==> erased[i] == 0xFF;
    ProgramOnErased(erased, at, PageImage(page));
  }

  lemma PageFits(w: Writer, r: Region)
    requires ValidWriter(w, r) && w.next + PAGE <= r.end
    ensures (w.next % SECTOR == 0 ==> w.next + SECTOR <= |w.mem|) && SectorEnd(w.next + PAGE) <= r.end
  {
    SectorInRegion(w.next, r);
    if w.next % SECTOR == 0 { RoomForSector(w.next, r.end); }
  }

  lemma FlushErasesInOrder(w: Writer, r: Region, plan: Plan)
    requires ValidWriter(w, r) && SectorsErased(w, r) && w.next + PAGE <= r.end && plan(w.next).NoFault?
    ensures SectorsErased(Flush(w, r, plan), r)
  {
    PageInSector(w.next);
  }

  lemma NextByteStored(n: Bytes, w: Writer, r: Region, data: Bytes, i: nat)
    requires Holds(w, r, data) && |w.page| == PAGE && |n| == |w.mem| && w.next + PAGE <= |n|
    requires (forall k :: 0 <= k < w.next ==> n[k] == w.mem[k]) && n[w.next..w.next + PAGE] == PageImage(w.page)
    requires i < w.next - DataStart(r) + PAGE && w.next - DataStart(r) + PAGE <= |data|
    ensures n[DataStart(r) + i] == data[i]
  {
    var done := w.next - DataStart(r);
    if i < done {
      assert n[DataStart(r) + i] == w.mem[DataStart(r) + i];
    } else {
      assert n[w.next..w.next + PAGE][i - done] == PageImage(w.page)[..PAGE][i - done] == data[done..][i - done];
    }
  }

  lemma FlushHolds(w: Writer, r: Region, plan: Plan, data: Bytes)
    requires Holds(w, r, data) && |w.page| == PAGE && w.next + PAGE <= r.end && plan(w.next).NoFault?
    ensures Holds(Flush(w, r, plan), r, data)
  {
    var done := w.next - DataStart(r);
    PageFits(w, r);
    FlushStores(w.mem, w.next, w.page);
    FlushErasesInOrder(w, r, plan);
    var n := Flush(w, r, plan);
    forall i: nat | i < done + PAGE ensures n.mem[DataStart(r) + i] == data[i] { NextByteStored(n.mem, w, r, data, i); }
  }

  lemma TakeMore(data: Bytes, bytes: Bytes, take: nat)
    requires take <= |bytes|
    ensures data + bytes[..take] + bytes[take..] == data + bytes
  {}

  lemma BufferHolds(w: Writer, r: Region, data: Bytes, more: Bytes)
    requires Holds(w, r, data) && |w.page| + |more| <= PAGE
    ensures Holds(w.(page := w.page + more), r, data + more)
  {
    var done := w.next - DataStart(r);
    assert (data + more)[done..] == data[done..] + more;
  }

  lemma {:induction false} WriteHolds(w: Writer, r: Region, plan: Plan, bytes: Bytes, data: Bytes)
    requires Holds(w, r, data) && |w.page| < PAGE && Write(w, r, plan, bytes).1
    ensures Holds(Write(w, r, plan, bytes).0, r, data + bytes) && |Write(w, r, plan, bytes).0.page| < PAGE
    decreases |bytes|
  {
    if bytes == [] {
      assert data + bytes == data;
    } else {
      var take := if |bytes| <= PAGE - |w.page| then |bytes| else PAGE - |w.page|;
      var filled := w.(page := w.page + bytes[..take]);
      WriteTurn(w, r, plan, bytes, take);
      BufferHolds(w, r, data, bytes[..take]);
      TakeMore(data, bytes, take);
      if |filled.page| == PAGE {
        FlushHolds(filled, r, plan, data + bytes[..take]);
        WriteHolds(Flush(filled, r, plan), r, plan, bytes[take..], data + bytes[..take]);
      } else {
        WriteHolds(filled, r, plan, bytes[take..], data + bytes[..take]);
      }
    }
  }

  lemma {:induction false} WritesHold(w: Writer, r: Region, plan: Plan, chunks: seq<Bytes>, data: Bytes)
    requires Holds(w, r, data) && |w.page| < PAGE && WriteAll(w, r, plan, chunks).1
    ensures Holds(WriteAll(w, r, plan, chunks).0, r, data + Flat(chunks))
    decreases |chunks|
  {
    if chunks == [] {
      assert data + Flat(chunks) == data;
    } else {
      WriteHolds(w, r, plan, chunks[0], data);
      WritesHold(Write(w, r, plan, chunks[0]).0, r, plan, chunks[1..], data + chunks[0]);
      FlatSplit(data, chunks);
    }
  }

  lemma FlatSplit(data: Bytes, chunks: seq<Bytes>)
    requires chunks != []
    ensures data + chunks[0] + Flat(chunks[1..]) == data + Flat(chunks)
  {}

  lemma BeginHolds(mem: Bytes, r: Region)
    requires ValidRegion(r) && r.end <= |mem|
    ensures Holds(Begin(mem, r), r, [])
  {
    NextSector(r.start);
  }

  /** The data of an image as flash holds it: padded with 0xFF to a page. */
  predicate Stored(mem: Bytes, r: Region, data: Bytes) {
    var to := DataStart(r) + |data|;
    && to + (PAGE - |data| % PAGE) % PAGE <= r.end <= |mem| && mem[DataStart(r)..to] == data
    && Blank(mem, to, to + (PAGE - |data| % PAGE) % PAGE)
  }

  lemma LastPageBytes(w: Writer, r: Region, plan: Plan, data: Bytes)
    requires Holds(w, r, data) && 0 < |w.page| < PAGE && w.next + PAGE <= r.end && plan(w.next).NoFault?
    ensures
      var n := Flush(w, r, plan);
      && (forall i :: 0 <= i < |data| ==> n.mem[DataStart(r) + i] == data[i])
      && Blank(n.mem, DataStart(r) + |data|, w.next + PAGE)
  {
    var done := w.next - DataStart(r);
    PageFits(w, r);
    FlushStores(w.mem, w.next, w.page);
    var n := Flush(w, r, plan);
    var last := n.mem[w.next..w.next + PAGE];
    forall i | 0 <= i < |data| ensures n.mem[DataStart(r) + i] == data[i] {
      if i >= done {
        assert n.mem[DataStart(r) + i] == last[i - done] == PageImage(w.page)[..|w.page|][i - done];
        assert data[i] == data[done..][i - done];
      }
    }
    forall i | DataStart(r) + |data| <= i < w.next + PAGE ensures n.mem[i] == 0xFF {
      assert n.mem[i] == last[i - w.next];
    }
  }

  lemma PaddedLength(from: nat, next: nat, waiting: nat)
    requires from % SECTOR == 0 && next % PAGE == 0 && from <= next && waiting < PAGE
    ensures (next - from + waiting) % PAGE == waiting
  {
    SectorsArePages(from);
    var f, n := from / PAGE, next / PAGE;
    assert from == PAGE * f && next == PAGE * n;
    PageRemainder(next - from + waiting, n - f, waiting);
  }

  lemma Padding(w: Writer, r: Region, data: Bytes)
    requires Holds(w, r, data) && |w.page| < PAGE
    ensures |data| % PAGE == |w.page|
  {
    NextSector(r.start);
    PaddedLength(DataStart(r), w.next, |w.page|);
  }

  lemma StoredByBytes(mem: Bytes, r: Region, data: Bytes, to: nat)
    requires DataStart(r) + |data| <= to <= r.end <= |mem| && Blank(mem, DataStart(r) + |data|, to)
    requires to == DataStart(r) + |data| + (PAGE - |data| % PAGE) % PAGE
    requires forall i :: 0 <= i < |data| ==> mem[DataStart(r) + i] == data[i]
    ensures Stored(mem, r, data)
  {
    assert mem[DataStart(r)..DataStart(r) + |data|] == data;
  }

  lemma HeldIsStored(w: Writer, r: Region, plan: Plan, data: Bytes)
    requires Holds(w, r, data) && |w.page| < PAGE
    requires w.page != [] ==> w.next + PAGE <= r.end && plan(w.next).NoFault?
    ensures Stored((if w.page != [] then Flush(w, r, plan) else w).mem, r, data)
  {
    Padding(w, r, data);
    if w.page != [] {
      LastPageBytes(w, r, plan, data);
      StoredByBytes(Flush(w, r, plan).mem, r, data, w.next + PAGE);
    } else {
      StoredByBytes(w.mem, r, data, w.next);
    }
  }

  lemma StoredStays(mem: Bytes, after: Bytes, r: Region, data: Bytes)
    requires Stored(mem, r, data) && |after| == |mem|
    requires forall i :: DataStart(r) <= i < |mem| ==> after[i] == mem[i]
    ensures Stored(after, r, data)
  {
    var from, to := DataStart(r), DataStart(r) + |data|;
    forall i | 0 <= i < |data| ensures after[from + i] == data[i] {
      assert mem[from..to][i] == data[i];
    }
    StoredByBytes(after, r, data, to + (PAGE - |data| % PAGE) % PAGE);
  }

  lemma HeaderWritten(mem: Bytes, r: Region, image: Image)
    requires ValidRegion(r) && r.end <= |mem| && ValidImage(image) && Blank(mem, r.start, DataStart(r))
    ensures Staged(Program(mem, r.start, PageImage(HeaderBytes(image))), r) == Some(image)
  {
    var bytes := PageImage(HeaderBytes(image));
    ProgramOnErased(mem, r.start, bytes);
    assert Program(mem, r.start, bytes)[r.start..r.start + HEADER_LEN] == bytes[..HEADER_LEN];
    HeaderReadsBack(image);
  }

  lemma CommitStages(w: Writer, r: Region, plan: Plan, image: Image, header: Fault, before: Bytes)
    requires Safe(w, r, before) && ValidImage(image) && Commit(w, r, plan, image, header).1
    ensures
      var mem := Commit(w, r, plan, image, header).0.mem;
      Staged(mem, r) == Some(image) && OutsideKept(mem, before, r)
  {
    if w.page != [] { FlushIsSafe(w, r, plan, before); }
    HeaderWritten((if w.page != [] then Flush(w, r, plan) else w).mem, r, image);
  }

  // ----- the header is all or nothing -----------------------------------------------

  /** The hypothesis about a header page caught in its write: it reads as no image, or
      it is the whole header. */
  predicate HeaderTorn(left: Bytes, image: Image)
    requires ValidImage(image)
  {
    |left| == PAGE && (ReadHeader(left[..HEADER_LEN]).None? || left[..HEADER_LEN] == HeaderBytes(image))
  }

  predicate HeaderLeaves(header: Fault, image: Image)
    requires ValidImage(image)
  {
    header.WriteError? ==> HeaderTorn(header.left, image)
  }

  /** The writer with its last page sent. */
  function LastFlushed(w: Writer, r: Region, plan: Plan): (n: Writer)
    requires ValidWriter(w, r)
    ensures ValidWriter(n, r) && |n.mem| == |w.mem|
  {
    if w.page != [] then Flush(w, r, plan) else w
  }

  lemma TornHeaderRead(mem: Bytes, r: Region, left: Bytes, image: Image)
    requires ValidRegion(r) && r.end <= |mem| && ValidImage(image) && HeaderTorn(left, image)
    ensures Staged(Leaving(mem, r.start, PAGE, left), r) in {None, Some(image)}
  {
    assert Leaving(mem, r.start, PAGE, left)[r.start..r.start + HEADER_LEN] == left[..HEADER_LEN];
    HeaderReadsBack(image);
  }

  /** After a commit, however it ends, the region has no image or this one; and it has
      this one only if the last page was stored as well. */
  lemma CommitIsSafe(w: Writer, r: Region, plan: Plan, image: Image, header: Fault, before: Bytes)
    requires Safe(w, r, before) && ValidImage(image) && HeaderLeaves(header, image)
    ensures
      var (n, last) := (Commit(w, r, plan, image, header).0, LastFlushed(w, r, plan));
      && OutsideKept(n.mem, before, r)
      && Staged(n.mem, r) in {None, Some(image)}
      && (Staged(n.mem, r).Some? ==> w.page == [] || !last.failed)
      && forall i :: DataStart(r) <= i < |n.mem| ==> n.mem[i] == last.mem[i]
  {
    var last := LastFlushed(w, r, plan);
    if w.page != [] { FlushIsSafe(w, r, plan, before); }
    ErasedHeaderIsNone(last.mem, r);
    if w.page == [] || !last.failed {
      if header.WriteError? {
        TornHeaderRead(last.mem, r, header.left, image);
      } else if header.NoFault? {
        HeaderWritten(last.mem, r, image);
      }
    }
  }

  lemma LastPageStored(w: Writer, r: Region, plan: Plan, data: Bytes)
    requires Holds(w, r, data) && |w.page| < PAGE && (w.page == [] || !LastFlushed(w, r, plan).failed)
    ensures Stored(LastFlushed(w, r, plan).mem, r, data) && SectorsErased(LastFlushed(w, r, plan), r)
  {
    HeldIsStored(w, r, plan, data);
    if w.page != [] { FlushErasesInOrder(w, r, plan); }
  }

  /** An upload whose writes all reported success, with any fault at the last page or
      the header, even a header write cut short: afterwards there is no image, or the
      image is this one and every one of its bytes is in flash. Nothing outside the
      region has changed. */
  lemma StagedIsComplete(mem: Bytes, r: Region, plan: Plan, chunks: seq<Bytes>, image: Image, header: Fault)
    requires ValidRegion(r) && r.end <= |mem| && ValidImage(image) && HeaderLeaves(header, image)
    requires WriteAll(Begin(mem, r), r, plan, chunks).1
    ensures
      var n := Commit(WriteAll(Begin(mem, r), r, plan, chunks).0, r, plan, image, header).0;
      && OutsideKept(n.mem, mem, r)
      && (Staged(n.mem, r) == None || (Staged(n.mem, r) == Some(image) && Stored(n.mem, r, Flat(chunks))))
  {
    var w := Uploaded(mem, r, plan, chunks);
    CommitIsSafe(w, r, plan, image, header, mem);
    var n := Commit(w, r, plan, image, header).0;
    if Staged(n.mem, r).Some? {
      LastPageStored(w, r, plan, Flat(chunks));
      StoredStays(LastFlushed(w, r, plan).mem, n.mem, r, Flat(chunks));
    }
  }

  /** What all successful writes together have established. */
  lemma Uploaded(mem: Bytes, r: Region, plan: Plan, chunks: seq<Bytes>) returns (w: Writer)
    requires ValidRegion(r) && r.end <= |mem| && WriteAll(Begin(mem, r), r, plan, chunks).1
    ensures w == WriteAll(Begin(mem, r), r, plan, chunks).0
    ensures Safe(w, r, mem) && Holds(w, r, Flat(chunks)) && |w.page| < PAGE
  {
    w := WriteAll(Begin(mem, r), r, plan, chunks).0;
    BeginHolds(mem, r);
    BeginIsSafe(mem, r);
    WritesHold(Begin(mem, r), r, plan, chunks, []);
    WritesAreSafe(Begin(mem, r), r, plan, chunks, mem);
    assert [] + Flat(chunks) == Flat(chunks);
  }

  /** A commit that reports failure may all the same have staged the image: its header
      write failed only after the last byte. */
  lemma FailedCommitCanStage(mem: Bytes, r: Region, plan: Plan, chunks: seq<Bytes>, image: Image)
    requires ValidRegion(r) && r.end <= |mem| && ValidImage(image)
    requires WriteAll(Begin(mem, r), r, plan, chunks).1
    requires Commit(WriteAll(Begin(mem, r), r, plan, chunks).0, r, plan, image, NoFault).1
    ensures
      var header := WriteError(PageImage(HeaderBytes(image)));
      var (n, ok) := Commit(WriteAll(Begin(mem, r), r, plan, chunks).0, r, plan, image, header);
      HeaderLeaves(header, image) && !ok && Staged(n.mem, r) == Some(image) && Stored(n.mem, r, Flat(chunks))
  {
    var page := PageImage(HeaderBytes(image));
    var w := Uploaded(mem, r, plan, chunks);
    WholeHeaderLeft(w, r, plan, image, page);
    StagedIsComplete(mem, r, plan, chunks, image, WriteError(page));
  }

  lemma WholeHeaderLeft(w: Writer, r: Region, plan: Plan, image: Image, page: Bytes)
    requires ValidWriter(w, r) && ValidImage(image) && Commit(w, r, plan, image, NoFault).1
    requires |page| == PAGE && page[..HEADER_LEN] == HeaderBytes(image)
    ensures
      var (n, ok) := Commit(w, r, plan, image, WriteError(page));
      !ok && Staged(n.mem, r) == Some(image)
  {
    var last := LastFlushed(w, r, plan);
    assert Leaving(last.mem, r.start, PAGE, page)[r.start..r.start + HEADER_LEN] == page[..HEADER_LEN];
    HeaderReadsBack(image);
  }

  predicate Verified(mem: Bytes, r: Region, image: Image) {
    DataStart(r) + image.packedLen <= |mem|
    && Crc.Compute(mem[DataStart(r)..DataStart(r) + image.packedLen]) == image.crc
  }

  lemma StoredVerifies(mem: Bytes, r: Region, image: Image, data: Bytes)
    requires Stored(mem, r, data) && image.packedLen == |data|
    ensures Verified(mem, r, image) <==> image.crc == Crc.Compute(data)
  {}

  /** The whole upload: if the first erase, every write and the commit succeed, flash
      holds exactly the bytes written, padded to a page; the image is staged as it was
      described; re-reading it verifies exactly if its CRC is that of the bytes; every
      sector up to the last page has been erased once, in order; and nothing outside the
      region has changed. */
  lemma UploadIsStored(mem: Bytes, r: Region, plan: Plan, chunks: seq<Bytes>, image: Image, header: Fault)
    requires ValidRegion(r) && r.end <= |mem| && ValidImage(image)
    requires WriteAll(Begin(mem, r), r, plan, chunks).1
    requires Commit(WriteAll(Begin(mem, r), r, plan, chunks).0, r, plan, image, header).1
    ensures
      var n := Commit(WriteAll(Begin(mem, r), r, plan, chunks).0, r, plan, image, header).0;
      && Stored(n.mem, r, Flat(chunks))
      && Staged(n.mem, r) == Some(image)
      && (image.packedLen == |Flat(chunks)| ==> (Verified(n.mem, r, image) <==> image.crc == Crc.Compute(Flat(chunks))))
      && SectorsErased(n, r)
      && OutsideKept(n.mem, mem, r)
  {
    var w := Uploaded(mem, r, plan, chunks);
    CommitStages(w, r, plan, image, header, mem);
    StagedIsComplete(mem, r, plan, chunks, image, header);
    LastPageStored(w, r, plan, Flat(chunks));
    if image.packedLen == |Flat(chunks)| {
      StoredVerifies(Commit(w, r, plan, image, header).0.mem, r, image, Flat(chunks));
    }
  }

  /** Before the commit, too, every sector opened so far has been erased once, in order. */
  lemma SectorsErasedOnce(mem: Bytes, r: Region, plan: Plan, chunks: seq<Bytes>)
    requires ValidRegion(r) && r.end <= |mem| && WriteAll(Begin(mem, r), r, plan, chunks).1
    ensures SectorsErased(WriteAll(Begin(mem, r), r, plan, chunks).0, r)
  {
    var w := Uploaded(mem, r, plan, chunks);
  }

  // ----- a failed write is not remembered -------------------------------------------

  /** Commit does not ask whether a write has failed. After a flash fault the page
      buffer is empty, and commit succeeds and stages the image; after running out of
      room the page is still there, and commit fails. */
  lemma CommitAfterFailedWrite(w: Writer, r: Region, plan: Plan, image: Image)
    requires ValidWriter(w, r) && ValidImage(image) && w.failed
    requires w.page == [] || w.next + PAGE > r.end
    ensures Commit(w, r, plan, image, NoFault).1 <==> w.page == []
  {}

  /** A failed writer is always in one of those two states. */
  lemma {:induction false} FailedWriters(w: Writer, r: Region, plan: Plan, bytes: Bytes)
    requires ValidWriter(w, r) && (!w.failed ==> |w.page| < PAGE)
    requires w.failed ==> w.page == [] || w.next + PAGE > r.end
    ensures
      var n := Write(w, r, plan, bytes).0;
      n.failed ==> n.page == [] || n.next + PAGE > r.end
    decreases |bytes|
  {
    if bytes != [] && !w.failed {
      var take := if |bytes| <= PAGE - |w.page| then |bytes| else PAGE - |w.page|;
      var filled := w.(page := w.page + bytes[..take]);
      if |filled.page| == PAGE {
        var n := Flush(filled, r, plan);
        if !n.failed { FailedWriters(n, r, plan, bytes[take..]); }
      } else {
        FailedWriters(filled, r, plan, bytes[take..]);
      }
    }
  }

  /** So an upload whose only page met a busy flash, and whose write said so, still
      commits to a staged image with none of its bytes stored. */
  lemma FailedUploadCanBeStaged(image: Image)
    requires ValidImage(image)
    ensures
      var r := Region(0, 2 * SECTOR);
      var mem := Erased(2 * SECTOR);
      var plan: Plan := _ => Busy;
      var (w, ok) := Write(Begin(mem, r), r, plan, Zeros(PAGE));
      var (n, committed) := Commit(w, r, plan, image, NoFault);
      !ok && committed && Staged(n.mem, r) == Some(image) && n.mem[DataStart(r)] == 0xFF
  {
    var r, mem := Region(0, 2 * SECTOR), Erased(2 * SECTOR);
    var plan: Plan := _ => Busy;
    var b := Begin(mem, r);
    BeginIsSafe(mem, r);
    WriteIsSafe(b, r, plan, Zeros(PAGE), mem);
    var filled := b.(page := b.page + Zeros(PAGE)[..PAGE]);
    assert |filled.page| == PAGE;
    var w := Write(b, r, plan, Zeros(PAGE)).0;
    assert w == Flush(filled, r, plan);
    CommitStages(w, r, plan, image, NoFault, mem);
  }
}
