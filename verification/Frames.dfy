/** The AX.25 frame codec as KISS delivers it, without flags and check sequence
    (ax25/frame.rs, ax25/parse_options.rs; section 3 of AX.25 v2.2). The width of
    the control field cannot be told from the octets, so it is an argument. */
module Frames {
  import opened Common
  import Slot = Addresses

  type Address = Slot.Address

  const CONTROL_UI: Byte := 0x03
  const MAX_DIGIPEATERS: nat := 8
  const SLOT: nat := Slot.ADDRESS_LEN

  datatype ParseError =
    | TooShort | BadAddressField | MissingControl | BadAddress
    | EmptyCallsignBase | InfoNotPermitted | CommandFrameAsResponse | MissingPid

  /** What a parser lets pass although the standard does not. */
  datatype ParseOptions = ParseOptions(
    allowEmptyBase: bool,
    allowInfoOnSupervisory: bool,
    allowCommandAsResponse: bool)

  const LENIENT := ParseOptions(true, true, true)

  datatype Frame = Frame(
    destination: Address,
    source: Address,
    digipeaters: seq<Address>,
    control: Byte,
    pid: Option<Byte>,
    info: Bytes)

  // ----- the first control octet ------------------------------------------------

  predicate IsInformation(control: Byte) { control & 0x01 == 0 }
  predicate IsUnnumbered(control: Byte) { control & 0x03 == 0x03 }
  predicate IsUi(control: Byte) { control & 0xEF == CONTROL_UI }
  predicate CarriesPid(control: Byte) { IsInformation(control) || IsUi(control) }
  /** FRMR, XID and TEST. */
  predicate InfoBearing(control: Byte) { control & 0xEF in {0x87, 0xAF, 0xE3} }
  /** SABM, SABME and DISC. */
  predicate CommandOnly(control: Byte) { control & 0xEF in {0x2F, 0x6F, 0x43} }

  predicate IsCommand(f: Frame) { f.destination.crh && !f.source.crh }

  // ----- sequence numbers and P/F, by width of the control field ----------------

  function NrWith(control: Byte, extension: Option<Byte>): Byte {
    match extension
    case Some(e) => (e >> 1) & 0x7F
    case None => (control >> 5) & 0x07
  }

  function NsWith(control: Byte, extension: Option<Byte>): Byte {
    match extension
    case Some(_) => (control >> 1) & 0x7F
    case None => (control >> 1) & 0x07
  }

  function PollFinalWith(control: Byte, extension: Option<Byte>): bool {
    match extension
    case Some(e) => e & 0x01 != 0
    case None => control & 0x10 != 0
  }

  // ----- what a frame may be ----------------------------------------------------

  /** Every slot holds a callsign: the type invariant of the source's `Callsign`. */
  predicate Typed(f: Frame) {
    && Slot.WellFormed(f.destination) && Slot.WellFormed(f.source)
    && forall i :: 0 <= i < |f.digipeaters| ==> Slot.WellFormed(f.digipeaters[i])
  }

  /** The end-of-address bits are not part of a frame: they follow from its length. */
  predicate Plain(f: Frame) {
    && !f.destination.extension && !f.source.extension
    && forall i :: 0 <= i < |f.digipeaters| ==> !f.digipeaters[i].extension
  }

  /** The frames with a second control octet of `extension` that a link of this
      width can carry. */
  predicate WellFormed(f: Frame, extension: Option<Byte>, extended: bool) {
    && Typed(f) && Plain(f)
    && |f.digipeaters| <= MAX_DIGIPEATERS
    && (extension.Some? <==> extended && !IsUnnumbered(f.control))
    && (f.pid.Some? <==> CarriesPid(f.control))
  }

  predicate Named(a: Address) { a.callsign.base != [] }

  predicate AllNamed(f: Frame) {
    && Named(f.destination) && Named(f.source)
    && forall i :: 0 <= i < |f.digipeaters| ==> Named(f.digipeaters[i])
  }

  /** What each option, when off, asks of a frame. */
  predicate Complies(f: Frame, o: ParseOptions) {
    && (o.allowEmptyBase || AllNamed(f))
    && (o.allowInfoOnSupervisory || f.info == [] || CarriesPid(f.control) || InfoBearing(f.control))
    && (o.allowCommandAsResponse || !CommandOnly(f.control) || IsCommand(f))
  }

  // ----- encoding ---------------------------------------------------------------

  /** A slot with its end-of-address bit forced. */
  function SlotBytes(a: Address, last: bool): (e: Bytes)
    ensures |e| == SLOT
  {
    Slot.Encode(a.(extension := last))
  }

  function DigiField(ds: seq<Address>): (e: Bytes)
    ensures |e| == SLOT * |ds|
  {
    if ds == [] then [] else SlotBytes(ds[0], |ds| == 1) + DigiField(ds[1..])
  }

  function AddressField(f: Frame): (e: Bytes)
    ensures |e| == SLOT * (2 + |f.digipeaters|)
  {
    SlotBytes(f.destination, false) + SlotBytes(f.source, f.digipeaters == []) + DigiField(f.digipeaters)
  }

  function Octet(o: Option<Byte>): Bytes { if o.Some? then [o.value] else [] }

  function AfterAddresses(control: Byte, extension: Option<Byte>, pid: Option<Byte>, info: Bytes): Bytes {
    [control] + Octet(extension) + Octet(pid) + info
  }

  function Encode(f: Frame, extension: Option<Byte>): Bytes {
    AddressField(f) + AfterAddresses(f.control, extension, f.pid, f.info)
  }

  // ----- decoding ---------------------------------------------------------------

  function Cleared(a: Address): Address { a.(extension := false) }

  function AllCleared(ds: seq<Address>): (r: seq<Address>)
    ensures |r| == |ds| && forall i :: 0 <= i < |ds| ==> r[i] == Cleared(ds[i])
  {
    if ds == [] then [] else AllCleared(ds[..|ds| - 1]) + [Cleared(ds[|ds| - 1])]
  }

  /** The next digipeater slot, when `count` have been read. */
  function OneDigi(rest: Bytes, count: nat, o: ParseOptions): (r: Result<Address, ParseError>)
    ensures r.Ok? ==> |rest| >= SLOT && count < MAX_DIGIPEATERS
  {
    if count >= MAX_DIGIPEATERS || |rest| < SLOT then Err(BadAddressField)
    else
      match Slot.Decode(rest[..SLOT])
      case None => Err(BadAddress)
      case Some(d) => if !o.allowEmptyBase && !Named(d) then Err(EmptyCallsignBase) else Ok(d)
  }

  /** The digipeater slots after `have`, and what follows the address field. */
  function Digis(rest: Bytes, last: bool, have: seq<Address>, o: ParseOptions): Result<(seq<Address>, Bytes), ParseError>
    decreases |rest|
  {
    if last then Ok((have, rest))
    else
      match OneDigi(rest, |have|, o)
      case Err(e) => Err(e)
      case Ok(d) => Digis(rest[SLOT..], d.extension, have + [Cleared(d)], o)
  }

  datatype Tail = Tail(control: Byte, extension: Option<Byte>, pid: Option<Byte>, info: Bytes)

  /** The control field, the PID and the information field. */
  function ReadTail(rest: Bytes, extended: bool, o: ParseOptions): Result<Tail, ParseError> {
    if rest == [] then Err(MissingControl)
    else
      var control := rest[0];
      var wide := extended && !IsUnnumbered(control);
      if wide && |rest| < 2 then Err(MissingControl)
      else
        var extension := if wide then Some(rest[1]) else None;
        var body := if wide then rest[2..] else rest[1..];
        if CarriesPid(control) then
          if body == [] then Err(MissingPid) else Ok(Tail(control, extension, Some(body[0]), body[1..]))
        else if body != [] && !InfoBearing(control) && !o.allowInfoOnSupervisory then Err(InfoNotPermitted)
        else Ok(Tail(control, extension, None, body))
  }

  function Decode(bytes: Bytes, extended: bool, o: ParseOptions): Result<(Frame, Option<Byte>), ParseError> {
    if |bytes| < 2 * SLOT then Err(TooShort)
    else
      var destination, source := Slot.Decode(bytes[..SLOT]), Slot.Decode(bytes[SLOT..2 * SLOT]);
      if destination.None? || source.None? then Err(BadAddress)
      else if !o.allowEmptyBase && (!Named(destination.value) || !Named(source.value)) then Err(EmptyCallsignBase)
      else if destination.value.extension then Err(BadAddressField)
      else
        match Digis(bytes[2 * SLOT..], source.value.extension, [], o)
        case Err(e) => Err(e)
        case Ok((ds, rest)) =>
          match ReadTail(rest, extended, o)
          case Err(e) => Err(e)
          case Ok(t) =>
            var f := Frame(Cleared(destination.value), Cleared(source.value), ds, t.control, t.pid, t.info);
            if !o.allowCommandAsResponse && IsUnnumbered(t.control) && CommandOnly(t.control) && !IsCommand(f)
            then Err(CommandFrameAsResponse)
            else Ok((f, t.extension))
  }

  // ----- the round trip ---------------------------------------------------------

  lemma SlotReadsBack(a: Address, last: bool)
    requires Slot.WellFormed(a)
    ensures Slot.Decode(SlotBytes(a, last)) == Some(a.(extension := last))
  {
    Slot.RoundTrip(a.(extension := last));
  }

  predicate Acceptable(a: Address, o: ParseOptions) {
    Slot.WellFormed(a) && !a.extension && (o.allowEmptyBase || Named(a))
  }

  lemma DigisStep(slot: Bytes, more: Bytes, have: seq<Address>, d: Address, o: ParseOptions)
    requires |slot| == SLOT && |have| < MAX_DIGIPEATERS
    requires Slot.Decode(slot) == Some(d) && (o.allowEmptyBase || Named(d))
    ensures Digis(slot + more, false, have, o) == Digis(more, d.extension, have + [Cleared(d)], o)
  {
    assert (slot + more)[..SLOT] == slot && (slot + more)[SLOT..] == more;
  }

  lemma FirstSlot(ds: seq<Address>, tail: Bytes)
    requires ds != []
    ensures DigiField(ds) + tail == SlotBytes(ds[0], ds[1..] == []) + (DigiField(ds[1..]) + tail)
  {}

  predicate AllAcceptable(ds: seq<Address>, o: ParseOptions) {
    forall i :: 0 <= i < |ds| ==> Acceptable(ds[i], o)
  }

  lemma FirstReadsBack(a: Address, ds: seq<Address>, tail: Bytes, have: seq<Address>, o: ParseOptions)
    requires |have| < MAX_DIGIPEATERS && Acceptable(a, o)
    ensures Digis(SlotBytes(a, ds == []) + (DigiField(ds) + tail), false, have, o)
      == Digis(DigiField(ds) + tail, ds == [], have + [a], o)
  {
    SlotReadsBack(a, ds == []);
    DigisStep(SlotBytes(a, ds == []), DigiField(ds) + tail, have, a.(extension := ds == []), o);
    assert Cleared(a.(extension := ds == [])) == a;
  }

  lemma MoveFirst(have: seq<Address>, ds: seq<Address>)
    requires ds != []
    ensures have + [ds[0]] + ds[1..] == have + ds
  {}

  lemma {:induction false} DigisReadBack(ds: seq<Address>, tail: Bytes, have: seq<Address>, o: ParseOptions)
    requires |have| + |ds| <= MAX_DIGIPEATERS && AllAcceptable(ds, o)
    ensures Digis(DigiField(ds) + tail, ds == [], have, o) == Ok((have + ds, tail))
    decreases |ds|
  {
    if ds == [] {
      assert DigiField(ds) + tail == tail;
      assert have + ds == have;
    } else {
      FirstSlot(ds, tail);
      FirstReadsBack(ds[0], ds[1..], tail, have, o);
      DigisReadBack(ds[1..], tail, have + [ds[0]], o);
      MoveFirst(have, ds);
    }
  }

  lemma TailReadsBack(control: Byte, extension: Option<Byte>, pid: Option<Byte>, info: Bytes, extended: bool, o: ParseOptions)
    requires extension.Some? <==> extended && !IsUnnumbered(control)
    requires pid.Some? <==> CarriesPid(control)
    requires o.allowInfoOnSupervisory || info == [] || CarriesPid(control) || InfoBearing(control)
    ensures ReadTail(AfterAddresses(control, extension, pid, info), extended, o) == Ok(Tail(control, extension, pid, info))
  {
    var rest := AfterAddresses(control, extension, pid, info);
    var body := Octet(pid) + info;
    assert rest == [control] + Octet(extension) + body;
    assert (if extension.Some? then rest[2..] else rest[1..]) == body;
    if pid.Some? { assert body[1..] == info; } else { assert body == info; }
  }

  lemma PartsDecode(d: Bytes, s: Bytes, rest: Bytes, f: Frame, t: Tail, tail: Bytes, extended: bool, o: ParseOptions)
    requires |d| == SLOT && |s| == SLOT && Plain(f) && Complies(f, o)
    requires Slot.Decode(d) == Some(f.destination)
    requires Slot.Decode(s) == Some(f.source.(extension := f.digipeaters == []))
    requires Digis(rest, f.digipeaters == [], [], o) == Ok((f.digipeaters, tail))
    requires ReadTail(tail, extended, o) == Ok(t)
    requires t.control == f.control && t.pid == f.pid && t.info == f.info
    ensures Decode(d + s + rest, extended, o) == Ok((f, t.extension))
  {
    var e := d + s + rest;
    assert e[..SLOT] == d && e[SLOT..2 * SLOT] == s && e[2 * SLOT..] == rest;
  }

  lemma EncodedDecodes(f: Frame, extension: Option<Byte>, extended: bool, o: ParseOptions)
    requires WellFormed(f, extension, extended) && Complies(f, o)
    ensures Decode(Encode(f, extension), extended, o) == Ok((f, extension))
  {
    var tail := AfterAddresses(f.control, extension, f.pid, f.info);
    var d, s := SlotBytes(f.destination, false), SlotBytes(f.source, f.digipeaters == []);
    var rest := DigiField(f.digipeaters) + tail;
    assert Encode(f, extension) == d + s + rest;
    SlotReadsBack(f.destination, false);
    assert f.destination.(extension := false) == f.destination;
    SlotReadsBack(f.source, f.digipeaters == []);
    DigisReadBack(f.digipeaters, tail, [], o);
    assert [] + f.digipeaters == f.digipeaters;
    TailReadsBack(f.control, extension, f.pid, f.info, extended, o);
    PartsDecode(d, s, rest, f, Tail(f.control, extension, f.pid, f.info), tail, extended, o);
  }

  // ----- what is accepted -------------------------------------------------------

  lemma {:induction false} DigisAreAcceptable(rest: Bytes, last: bool, have: seq<Address>, o: ParseOptions)
    requires |have| <= MAX_DIGIPEATERS
    requires AllAcceptable(have, o)
    requires Digis(rest, last, have, o).Ok?
    ensures
      var (ds, tail) := Digis(rest, last, have, o).value;
      && |have| <= |ds| <= MAX_DIGIPEATERS
      && AllAcceptable(ds, o)
      && |rest| == SLOT * (|ds| - |have|) + |tail|
      && rest[|rest| - |tail|..] == tail
    decreases |rest|
  {
    if !last {
      var d := Slot.Decode(rest[..SLOT]).value;
      DigisAreAcceptable(rest[SLOT..], d.extension, have + [Cleared(d)], o);
    }
  }

  lemma TailIsSound(rest: Bytes, extended: bool, o: ParseOptions)
    requires ReadTail(rest, extended, o).Ok?
    ensures
      var t := ReadTail(rest, extended, o).value;
      && AfterAddresses(t.control, t.extension, t.pid, t.info) == rest
      && (t.extension.Some? <==> extended && !IsUnnumbered(t.control))
      && (t.pid.Some? <==> CarriesPid(t.control))
      && (o.allowInfoOnSupervisory || t.info == [] || CarriesPid(t.control) || InfoBearing(t.control))
  {}

  lemma CommandOnlyIsUnnumbered(control: Byte)
    requires CommandOnly(control)
    ensures IsUnnumbered(control)
  {}

  /** Whatever is accepted is a well-formed frame that meets the options in force. */
  lemma AcceptedIsWellFormed(bytes: Bytes, extended: bool, o: ParseOptions)
    requires Decode(bytes, extended, o).Ok?
    ensures
      var (f, extension) := Decode(bytes, extended, o).value;
      WellFormed(f, extension, extended) && Complies(f, o)
  {
    var (f, extension) := Decode(bytes, extended, o).value;
    var s := Slot.Decode(bytes[SLOT..2 * SLOT]).value;
    var rest := bytes[2 * SLOT..];
    DigisAreAcceptable(rest, s.extension, [], o);
    var (ds, tail) := Digis(rest, s.extension, [], o).value;
    TailIsSound(tail, extended, o);
    if CommandOnly(f.control) { CommandOnlyIsUnnumbered(f.control); }
  }

  /** Nothing behind the address field of an accepted string is dropped, changed or
      added, and the address field has one slot per address. */
  lemma AcceptedKeepsTail(bytes: Bytes, extended: bool, o: ParseOptions)
    requires Decode(bytes, extended, o).Ok?
    ensures
      var (f, extension) := Decode(bytes, extended, o).value;
      var n := SLOT * (2 + |f.digipeaters|);
      n <= |bytes| && bytes[n..] == AfterAddresses(f.control, extension, f.pid, f.info)
  {
    var s := Slot.Decode(bytes[SLOT..2 * SLOT]).value;
    var rest := bytes[2 * SLOT..];
    DigisAreAcceptable(rest, s.extension, [], o);
    var (ds, tail) := Digis(rest, s.extension, [], o).value;
    TailIsSound(tail, extended, o);
    assert bytes[SLOT * (2 + |ds|)..] == tail;
  }

  /** The codec's law: a frame survives the wire exactly when it is well formed for
      the link's width and meets the options in force. */
  lemma RoundTrip(f: Frame, extension: Option<Byte>, extended: bool, o: ParseOptions)
    requires Typed(f)
    ensures Decode(Encode(f, extension), extended, o) == Ok((f, extension))
      <==> WellFormed(f, extension, extended) && Complies(f, o)
  {
    if WellFormed(f, extension, extended) && Complies(f, o) {
      EncodedDecodes(f, extension, extended, o);
    } else if Decode(Encode(f, extension), extended, o) == Ok((f, extension)) {
      AcceptedIsWellFormed(Encode(f, extension), extended, o);
    }
  }

  /** Re-encoding an accepted string is a canonical form of it. */
  lemma ReencodingIsCanonical(bytes: Bytes, extended: bool, o: ParseOptions)
    requires Decode(bytes, extended, o).Ok?
    ensures
      var (f, extension) := Decode(bytes, extended, o).value;
      Decode(Encode(f, extension), extended, o) == Decode(bytes, extended, o)
  {
    AcceptedIsWellFormed(bytes, extended, o);
    var (f, extension) := Decode(bytes, extended, o).value;
    EncodedDecodes(f, extension, extended, o);
  }

  lemma {:induction false} LongDigisAreRefused(ds: seq<Address>, tail: Bytes, have: seq<Address>)
    requires |have| <= MAX_DIGIPEATERS < |have| + |ds| && AllAcceptable(ds, LENIENT)
    ensures Digis(DigiField(ds) + tail, ds == [], have, LENIENT).Err?
    decreases |ds|
  {
    if |have| < MAX_DIGIPEATERS {
      FirstSlot(ds, tail);
      FirstReadsBack(ds[0], ds[1..], tail, have, LENIENT);
      LongDigisAreRefused(ds[1..], tail, have + [ds[0]]);
    }
  }

  /** More digipeaters than the standard allows encode to a string nobody accepts. */
  lemma LongFieldIsRefused(f: Frame, extension: Option<Byte>, extended: bool)
    requires Typed(f) && Plain(f) && |f.digipeaters| > MAX_DIGIPEATERS
    ensures Decode(Encode(f, extension), extended, LENIENT).Err?
  {
    var tail := AfterAddresses(f.control, extension, f.pid, f.info);
    var d, s := SlotBytes(f.destination, false), SlotBytes(f.source, false);
    var rest := DigiField(f.digipeaters) + tail;
    var e := Encode(f, extension);
    assert e == d + s + rest;
    assert e[..SLOT] == d && e[SLOT..2 * SLOT] == s && e[2 * SLOT..] == rest;
    SlotReadsBack(f.source, false);
    LongDigisAreRefused(f.digipeaters, tail, []);
  }

  // ----- strictness -------------------------------------------------------------

  predicate AllNamedFrom(ds: seq<Address>, i: nat) { forall k :: i <= k < |ds| ==> Named(ds[k]) }

  lemma {:induction false} DigisUnderOptions(rest: Bytes, last: bool, have: seq<Address>, o: ParseOptions)
    ensures
      var lenient := Digis(rest, last, have, LENIENT);
      var r := Digis(rest, last, have, o);
      && (lenient.Ok? ==> have <= lenient.value.0)
      && (r.Ok? <==> lenient.Ok? && (o.allowEmptyBase || AllNamedFrom(lenient.value.0, |have|)))
      && (r.Ok? ==> r == lenient)
    decreases |rest|
  {
    if !last && OneDigi(rest, |have|, LENIENT).Ok? {
      var d := OneDigi(rest, |have|, LENIENT).value;
      var more := have + [Cleared(d)];
      DigisUnderOptions(rest[SLOT..], d.extension, more, o);
      var lenient := Digis(rest[SLOT..], d.extension, more, LENIENT);
      if lenient.Ok? {
        var ds := lenient.value.0;
        assert ds[|have|] == Cleared(d);
        assert AllNamedFrom(ds, |have|) <==> Named(d) && AllNamedFrom(ds, |more|);
      }
    }
  }

  lemma TailUnderOptions(rest: Bytes, extended: bool, o: ParseOptions)
    ensures
      var lenient := ReadTail(rest, extended, LENIENT);
      var r := ReadTail(rest, extended, o);
      && (r.Ok? <==>
            && lenient.Ok?
            && var t := lenient.value;
               o.allowInfoOnSupervisory || t.info == [] || CarriesPid(t.control) || InfoBearing(t.control))
      && (r.Ok? ==> r == lenient)
  {}

  lemma AllNamedParts(d: Address, s: Address, ds: seq<Address>, t: Tail)
    ensures
      AllNamed(Frame(Cleared(d), Cleared(s), ds, t.control, t.pid, t.info))
      <==> Named(d) && Named(s) && AllNamedFrom(ds, 0)
  {}

  /** Strict options only remove inputs, exactly the ones whose lenient reading
      breaks a rule that is on, and never change what an accepted input means. */
  lemma StrictnessOnlyRejects(bytes: Bytes, extended: bool, o: ParseOptions)
    ensures
      var lenient := Decode(bytes, extended, LENIENT);
      var r := Decode(bytes, extended, o);
      && (r.Ok? <==> lenient.Ok? && Complies(lenient.value.0, o))
      && (r.Ok? ==> r == lenient)
  {
    if |bytes| >= 2 * SLOT {
      var d, s := Slot.Decode(bytes[..SLOT]), Slot.Decode(bytes[SLOT..2 * SLOT]);
      if d.Some? && s.Some? {
        var rest := bytes[2 * SLOT..];
        DigisUnderOptions(rest, s.value.extension, [], o);
        var digis := Digis(rest, s.value.extension, [], LENIENT);
        if digis.Ok? {
          TailUnderOptions(digis.value.1, extended, o);
          var t := ReadTail(digis.value.1, extended, LENIENT);
          if t.Ok? {
            AllNamedParts(d.value, s.value, digis.value.0, t.value);
            if CommandOnly(t.value.control) { CommandOnlyIsUnnumbered(t.value.control); }
          }
        }
      }
    }
  }

  /** Turning any option off can only shrink the accepted set. */
  lemma StrictnessIsMonotone(bytes: Bytes, extended: bool, strict: ParseOptions, loose: ParseOptions)
    requires strict.allowEmptyBase ==> loose.allowEmptyBase
    requires strict.allowInfoOnSupervisory ==> loose.allowInfoOnSupervisory
    requires strict.allowCommandAsResponse ==> loose.allowCommandAsResponse
    requires Decode(bytes, extended, strict).Ok?
    ensures Decode(bytes, extended, loose) == Decode(bytes, extended, strict)
  {
    StrictnessOnlyRejects(bytes, extended, strict);
    StrictnessOnlyRejects(bytes, extended, loose);
  }

  // ----- the codec as the source runs it ----------------------------------------

  function EncodedLen(f: Frame): (n: nat)
    ensures n == |AddressField(f)| + 1 + |Octet(f.pid)| + |f.info|
  {
    SLOT * (2 + |f.digipeaters|) + 1 + (if f.pid.Some? then 1 else 0) + |f.info|
  }

  function EncodedExtendedLen(f: Frame): (n: nat)
    ensures n == |AddressField(f)| + 2 + |Octet(f.pid)| + |f.info|
  {
    SLOT * (2 + |f.digipeaters|) + 2 + (if f.pid.Some? then 1 else 0) + |f.info|
  }

  method WriteDigis(ds: seq<Address>, dst: array<Byte>, at: nat) returns (n: nat)
    requires at + SLOT * |ds| <= dst.Length
    modifies dst
    ensures n == at + SLOT * |ds|
    ensures dst[..n] == old(dst[..at]) + DigiField(ds) && dst[n..] == old(dst[n..])
  {
    n := at;
    ghost var head := dst[..at];
    assert ds[0..] == ds;
    for i := 0 to |ds|
      invariant n == at + SLOT * i
      invariant dst[..n] + DigiField(ds[i..]) == head + DigiField(ds)
      invariant dst[n..] == old(dst[n..])
    {
      var more := i + 1 < |ds|;
      ghost var before, slot := dst[..n], SlotBytes(ds[i], !more);
      NextSlot(ds, i);
      var ok := Slot.EncodeInto(ds[i].(extension := !more), dst, n);
      n := n + SLOT;
      assert dst[..n] == before + slot;
      assert before + (slot + DigiField(ds[i + 1..])) == before + slot + DigiField(ds[i + 1..]);
    }
    assert dst[..n] + [] == dst[..n];
  }

  method WriteAddressField(f: Frame, dst: array<Byte>) returns (n: nat)
    requires |AddressField(f)| <= dst.Length
    modifies dst
    ensures n == |AddressField(f)|
    ensures dst[..] == AddressField(f) + old(dst[n..])
  {
    var ok := Slot.EncodeInto(f.destination.(extension := false), dst, 0);
    n := SLOT;
    ok := Slot.EncodeInto(f.source.(extension := f.digipeaters == []), dst, n);
    n := n + SLOT;
    assert dst[..n] == SlotBytes(f.destination, false) + SlotBytes(f.source, f.digipeaters == []);
    ghost var mid := dst[..];
    assert mid[2 * SLOT..] == old(dst[..])[2 * SLOT..];
    n := WriteDigis(f.digipeaters, dst, n);
    assert dst[n..] == mid[n..] == mid[2 * SLOT..][n - 2 * SLOT..] == old(dst[..])[n..];
    assert dst[..] == dst[..n] + dst[n..];
  }

  lemma NextSlot(ds: seq<Address>, i: nat)
    requires i < |ds|
    ensures DigiField(ds[i..]) == SlotBytes(ds[i], !(i + 1 < |ds|)) + DigiField(ds[i + 1..])
  {
    assert ds[i..][1..] == ds[i + 1..];
  }

  /** Copies the octets behind the control field to `at`; what was in the buffer
      behind them stays. */
  method FinishFrame(f: Frame, dst: array<Byte>, at: nat, ghost start: Bytes) returns (n: nat)
    requires at + |Octet(f.pid)| + |f.info| <= dst.Length == |start| && dst[at..] == start[at..]
    modifies dst
    ensures n == at + |Octet(f.pid)| + |f.info|
    ensures dst[..] == old(dst[..at]) + (Octet(f.pid) + f.info) + start[n..]
  {
    n := at;
    if f.pid.Some? {
      dst[n] := f.pid.value;
      n := n + 1;
    }
    forall i | 0 <= i < |f.info| {
      dst[n + i] := f.info[i];
    }
    n := n + |f.info|;
    assert dst[..at] == old(dst[..at]);
    assert dst[at..n] == Octet(f.pid) + f.info;
    forall k | n <= k < dst.Length ensures dst[k] == start[k] {
      assert old(dst[at..])[k - at] == start[at..][k - at];
    }
    assert dst[n..] == start[n..];
    assert dst[..] == dst[..at] + dst[at..n] + dst[n..];
  }

  /** An encoding is the address field, the control field, then the body. */
  lemma Parts(f: Frame, extension: Option<Byte>)
    ensures Encode(f, extension) == AddressField(f) + ([f.control] + Octet(extension)) + (Octet(f.pid) + f.info)
  {}

  method EncodeInto(f: Frame, dst: array<Byte>) returns (r: Option<nat>)
    modifies dst
    ensures r.None? <==> dst.Length < |Encode(f, None)|
    ensures r.None? ==> dst[..] == old(dst[..])
    ensures r.Some? ==> r.value == |Encode(f, None)| && dst[..] == Encode(f, None) + old(dst[r.value..])
  {
    Parts(f, None);
    if dst.Length < EncodedLen(f) {
      return None;
    }
    ghost var start := dst[..];
    var off := WriteAddressField(f, dst);
    dst[off] := f.control;
    off := off + 1;
    assert dst[..off] == AddressField(f) + ([f.control] + Octet(None));
    assert dst[off..] == start[off..];
    off := FinishFrame(f, dst, off, start);
    return Some(off);
  }

  method EncodeExtendedInto(f: Frame, extension: Byte, dst: array<Byte>) returns (r: Option<nat>)
    modifies dst
    ensures r.None? <==> dst.Length < |Encode(f, Some(extension))|
    ensures r.None? ==> dst[..] == old(dst[..])
    ensures r.Some? ==>
      r.value == |Encode(f, Some(extension))| && dst[..] == Encode(f, Some(extension)) + old(dst[r.value..])
  {
    Parts(f, Some(extension));
    if dst.Length < EncodedExtendedLen(f) {
      return None;
    }
    ghost var start := dst[..];
    var off := WriteAddressField(f, dst);
    dst[off] := f.control;
    dst[off + 1] := extension;
    off := off + 2;
    assert dst[..off] == AddressField(f) + ([f.control] + Octet(Some(extension)));
    assert dst[off..] == start[off..];
    off := FinishFrame(f, dst, off, start);
    return Some(off);
  }

  method ReadOneDigi(bytes: Bytes, next: nat, count: nat, o: ParseOptions) returns (r: Result<Address, ParseError>)
    requires next <= |bytes|
    ensures r == OneDigi(bytes[next..], count, o)
  {
    if count >= MAX_DIGIPEATERS {
      return Err(BadAddressField);
    }
    if |bytes| < next + SLOT {
      return Err(BadAddressField);
    }
    DropTwice(bytes, next, SLOT);
    var digi := Slot.DecodeSlot(bytes[next..next + SLOT]);
    if digi.None? {
      return Err(BadAddress);
    }
    if !o.allowEmptyBase && digi.value.callsign.base == [] {
      return Err(EmptyCallsignBase);
    }
    return Ok(digi.value);
  }

  /** Reads slots from `at` until one ends the address field, at `next`. */
  method ReadDigis(bytes: Bytes, at: nat, ended: bool, o: ParseOptions) returns (r: Result<seq<Address>, ParseError>, next: nat)
    requires at <= |bytes|
    ensures next <= |bytes|
    ensures Digis(bytes[at..], ended, [], o)
      == if r.Ok? then Ok((AllCleared(r.value), bytes[next..])) else Err(r.error)
  {
    var last := ended;
    var digipeaters: seq<Address> := [];
    next := at;
    while !last
      invariant at <= next <= |bytes|
      invariant Digis(bytes[at..], ended, [], o) == Digis(bytes[next..], last, AllCleared(digipeaters), o)
      decreases |bytes| - next, if last then 0 else 1
    {
      var digi := ReadOneDigi(bytes, next, |digipeaters|, o);
      if digi.Err? {
        return Err(digi.error), next;
      }
      DropTwice(bytes, next, SLOT);
      PushCleared(digipeaters, digi.value);
      last := digi.value.extension;
      digipeaters := digipeaters + [digi.value];
      next := next + SLOT;
    }
    return Ok(digipeaters), next;
  }

  lemma DropTwice(s: Bytes, i: nat, n: nat)
    requires i + n <= |s|
    ensures s[i..] == s[i..i + n] + s[i + n..]
    ensures s[i..][..n] == s[i..i + n] && s[i..][n..] == s[i + n..]
  {}

  method ReadFrame(bytes: Bytes, extended: bool, o: ParseOptions) returns (r: Result<(Frame, Option<Byte>), ParseError>)
    ensures r == Decode(bytes, extended, o)
  {
    if |bytes| < 2 * SLOT {
      return Err(TooShort);
    }
    var first := Slot.DecodeSlot(bytes[..SLOT]);
    if first.None? {
      return Err(BadAddress);
    }
    var second := Slot.DecodeSlot(bytes[SLOT..2 * SLOT]);
    if second.None? {
      return Err(BadAddress);
    }
    var destination, source := first.value, second.value;
    if !o.allowEmptyBase && (destination.callsign.base == [] || source.callsign.base == []) {
      return Err(EmptyCallsignBase);
    }
    if destination.extension {
      return Err(BadAddressField);
    }
    var digipeaters, offset := ReadDigis(bytes, 2 * SLOT, source.extension, o);
    if digipeaters.Err? {
      return Err(digipeaters.error);
    }
    var tail := ReadBody(bytes, offset, extended, o);
    if tail.Err? {
      return Err(tail.error);
    }
    var t := tail.value;
    if !o.allowCommandAsResponse && IsUnnumbered(t.control) {
      if CommandOnly(t.control) && !(destination.crh && !source.crh) {
        return Err(CommandFrameAsResponse);
      }
    }
    var plain := AllCleared(digipeaters.value);
    return Ok((Frame(Cleared(destination), Cleared(source), plain, t.control, t.pid, t.info), t.extension));
  }

  lemma PushCleared(ds: seq<Address>, d: Address)
    ensures AllCleared(ds + [d]) == AllCleared(ds) + [Cleared(d)]
  {
    assert (ds + [d])[..|ds|] == ds;
  }

  method ReadBody(bytes: Bytes, at: nat, extended: bool, o: ParseOptions) returns (r: Result<Tail, ParseError>)
    requires at <= |bytes|
    ensures r == ReadTail(bytes[at..], extended, o)
  {
    var offset := at;
    if |bytes| < offset + 1 {
      return Err(MissingControl);
    }
    var control := bytes[offset];
    offset := offset + 1;
    var extension := None;
    if extended && !IsUnnumbered(control) {
      if |bytes| < offset + 1 {
        return Err(MissingControl);
      }
      extension := Some(bytes[offset]);
      offset := offset + 1;
    }
    assert bytes[at..][offset - at..] == bytes[offset..];
    if IsInformation(control) || IsUi(control) {
      if |bytes| <= offset {
        return Err(MissingPid);
      }
      return Ok(Tail(control, extension, Some(bytes[offset]), bytes[offset + 1..]));
    } else if offset < |bytes| {
      if !InfoBearing(control) && !o.allowInfoOnSupervisory {
        return Err(InfoNotPermitted);
      }
      return Ok(Tail(control, extension, None, bytes[offset..]));
    } else {
      return Ok(Tail(control, extension, None, []));
    }
  }
}
