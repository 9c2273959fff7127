/** The image writer and reader as the source runs them (tnc_image.rs). */
module TncWriter {
  import opened Common
  import opened NorFlash
  import opened TncImage
  import Crc

  class ImageWriter {
    const region: Region
    const page: array<Byte>
    var mem: Bytes
    var next: nat
    var pageLen: nat
    var failed: bool
    ghost var erased: seq<nat>

    ghost predicate Valid()
      reads this, page
    {
      && page.Length == PAGE && pageLen <= PAGE
      && (forall i :: pageLen <= i < PAGE ==> page[i] == 0xFF)
      && ValidWriter(View(), region) && (!failed ==> pageLen < PAGE)
    }

    ghost function View(): (w: Writer)
      requires page.Length == PAGE && pageLen <= PAGE
      reads this, page
    {
      Writer(mem, next, page[..pageLen], failed, erased)
    }

    /** A writer over flash whose header sector has just been erased. */
    constructor (chip: Bytes, r: Region)
      requires ValidRegion(r) && r.end <= |chip|
      ensures Valid() && region == r && View() == Begin(chip, r) && fresh(page)
    {
      region := r;
      page := new Byte[PAGE](_ => 0xFF);
      mem := Invalidated(chip, r, NoFault);
      next := DataStart(r);
      pageLen := 0;
      failed := false;
      erased := [r.start];
    }

    /** Erase the header sector; there is a writer only if the flash did so. `after` is
        what flash then holds. */
    static method Start(chip: Bytes, r: Region, fault: Fault) returns (w: Option<ImageWriter>, after: Bytes)
      requires ValidRegion(r) && r.end <= |chip|
      ensures after == Invalidated(chip, r, fault)
      ensures w.None? <==> fault.Busy? || fault.EraseError?
      ensures w.Some? ==> fresh(w.value) && fresh(w.value.page) && w.value.Valid()
      ensures w.Some? ==> w.value.region == r && w.value.View() == Begin(chip, r)
    {
      after := Invalidated(chip, r, fault);
      if fault.Busy? || fault.EraseError? {
        return None, after;
      }
      var writer := new ImageWriter(chip, r);
      return Some(writer), after;
    }

    /** Send the page buffer to the next page of flash. */
    method FlushPage(plan: Plan) returns (ok: bool)
      requires page.Length == PAGE && pageLen <= PAGE && ValidWriter(View(), region)
      requires forall i :: pageLen <= i < PAGE ==> page[i] == 0xFF
      modifies this, page
      ensures page.Length == PAGE && pageLen <= PAGE && (forall i :: pageLen <= i < PAGE ==> page[i] == 0xFF)
      ensures View() == Flush(old(View()), region, plan)
      ensures ok <==> !failed
      ensures ok ==> pageLen == 0
    {
      ghost var w := View();
      if next + PAGE > region.end {
        failed := true;
        return false;
      }
      assert page[..] == PageImage(page[..pageLen]);
      var at, fault := next, plan(next);
      if at % SECTOR == 0 {
        RoomForSector(at, region.end);
      }
      ok := SendPage(at, fault);
      next := next + PAGE;
      forall i | 0 <= i < PAGE {
        page[i] := 0xFF;
      }
      pageLen := 0;
      failed := !ok;
      assert page[..pageLen] == [];
      assert View() == AfterFlush(w, fault);
    }

    /** The flash operations for one page. */
    method SendPage(at: nat, fault: Fault) returns (ok: bool)
      requires page.Length == PAGE && pageLen <= PAGE && page[..] == PageImage(page[..pageLen])
      requires at + PAGE <= |mem| && (at % SECTOR == 0 ==> at + SECTOR <= |mem|)
      modifies this`mem, this`erased
      ensures ok <==> fault.NoFault?
      ensures mem == Flushed(old(mem), at, page[..pageLen], fault)
      ensures erased == if at % SECTOR == 0 && !fault.Busy? then old(erased) + [at] else old(erased)
    {
      if fault.Busy? {
        return false;
      }
      if at % SECTOR == 0 {
        erased := erased + [at];
        if fault.EraseError? {
          mem := Leaving(mem, at, SECTOR, fault.left);
          return false;
        }
        mem := Erase(mem, at);
      } else if fault.EraseError? {
        return false;
      }
      if fault.WriteError? {
        mem := Leaving(mem, at, PAGE, fault.left);
        return false;
      }
      mem := Program(mem, at, page[..]);
      return true;
    }

    /** Copy bytes behind the ones already waiting. */
    method Fill(bytes: Bytes)
      requires page.Length == PAGE && pageLen + |bytes| <= PAGE
      requires forall i :: pageLen <= i < PAGE ==> page[i] == 0xFF
      modifies this`pageLen, page
      ensures page.Length == PAGE && pageLen == old(pageLen) + |bytes|
      ensures forall i :: pageLen <= i < PAGE ==> page[i] == 0xFF
      ensures View() == old(View()).(page := old(View()).page + bytes)
    {
      forall i | 0 <= i < |bytes| {
        page[pageLen + i] := bytes[i];
      }
      pageLen := pageLen + |bytes|;
      assert page[..pageLen] == old(page[..pageLen]) + bytes;
    }

    /** Append bytes; false when the store is full or a write failed. */
    method WriteBytes(bytes: Bytes, plan: Plan) returns (ok: bool)
      requires Valid()
      modifies this, page
      ensures Valid() && (View(), ok) == Write(old(View()), region, plan, bytes)
    {
      var rest := bytes;
      while rest != []
        invariant Valid()
        invariant Write(View(), region, plan, rest) == Write(old(View()), region, plan, bytes)
        decreases |rest|
      {
        if failed {
          return false;
        }
        var take := if PAGE - pageLen <= |rest| then PAGE - pageLen else |rest|;
        WriteTurn(View(), region, plan, rest, take);
        Fill(rest[..take]);
        rest := rest[take..];
        if pageLen == PAGE {
          var flushed := FlushPage(plan);
          if !flushed {
            return false;
          }
        }
      }
      return true;
    }

    /** The last page, then the header. */
    method CommitImage(image: Image, plan: Plan, header: Fault) returns (ok: bool)
      requires Valid() && ValidImage(image)
      modifies this, page
      ensures page.Length == PAGE && pageLen <= PAGE
      ensures (View(), ok) == Commit(old(View()), region, plan, image, header)
    {
      if pageLen > 0 {
        var flushed := FlushPage(plan);
        if !flushed {
          return false;
        }
      }
      assert old(View()).page == [] <==> old(pageLen) == 0;
      match header
      case NoFault =>
        mem := Program(mem, region.start, PageImage(HeaderBytes(image)));
        return true;
      case Busy => return false;
      case EraseError(_) => return false;
      case WriteError(left) =>
        mem := Leaving(mem, region.start, PAGE, left);
        return false;
    }
  }

  /** The name an image is stored under. */
  method FilterName(text: Bytes) returns (name: Bytes)
    ensures name == NameOf(text, NAME_MAX)
  {
    name := [];
    for i := 0 to |text|
      invariant |name| <= NAME_MAX
      invariant name + NameOf(text[i..], NAME_MAX - |name|) == NameOf(text, NAME_MAX)
    {
      ghost var rest := text[i..];
      assert rest[0] == text[i] && rest[1..] == text[i + 1..];
      if Shown(text[i]) && |name| < NAME_MAX {
        assert name + ([text[i]] + NameOf(rest[1..], NAME_MAX - |name| - 1)) == name + [text[i]] + NameOf(rest[1..], NAME_MAX - |name| - 1);
        name := name + [text[i]];
      }
    }
    assert text[|text|..] == [];
    assert name + [] == name;
  }

  lemma FeedSlice(start: Crc.Word, data: Bytes, at: nat, n: nat)
    requires at + n <= |data|
    ensures Crc.Feed(Crc.Feed(start, data[..at]), data[at..at + n]) == Crc.Feed(start, data[..at + n])
  {
    Crc.FeedInPieces(start, data[..at], data[at..at + n]);
    assert data[..at] + data[at..at + n] == data[..at + n];
  }

  /** The CRC of data read a kilobyte at a time. */
  method CrcInBlocks(data: Bytes) returns (sum: Crc.Word)
    ensures sum == Crc.Compute(data)
  {
    var crc := new Crc.Crc16();
    ghost var start := crc.state;
    var at := 0;
    while at < |data|
      invariant at <= |data| && crc.state == Crc.Feed(start, data[..at])
    {
      var n := if |data| - at < 1024 then |data| - at else 1024;
      FeedSlice(start, data, at, n);
      crc.Update(data[at..at + n]);
      at := at + n;
    }
    assert data[..at] == data;
    sum := crc.Finish();
  }

  /** Re-read the stored records and check them against the header's CRC. */
  method Verify(mem: Bytes, r: Region, image: Image) returns (ok: bool)
    requires DataStart(r) + image.packedLen <= |mem|
    ensures ok <==> Verified(mem, r, image)
  {
    var sum := CrcInBlocks(mem[DataStart(r)..DataStart(r) + image.packedLen]);
    ok := sum == image.crc;
  }
}
