/** Frame intents to wire octets and received frames to session events
    (sdl/bridge.rs; sections 4.2 and 4.3 of AX.25 v2.2). */
module Bridge {
  import opened Common
  import opened Frames
  import Calls = Callsigns
  import Slot = Addresses

  datatype SupervisoryKind = Rr | Rnr | Rej | Srej
  datatype UnnumberedKind = Sabm | Sabme | Disc | Ua | Dm

  datatype FrameSpec =
    | Supervisory(kind: SupervisoryKind, isCommand: bool, nr: Byte, pf: bool)
    | Unnumbered(ukind: UnnumberedKind, isCommand: bool, pf: bool, expedited: bool)
    | Ui(isCommand: bool, pf: bool, pid: Byte, info: Bytes)
    | Information(pf: bool, nr: Byte, ns: Byte, pid: Byte, info: Bytes)
    | Xid(isCommand: bool, pf: bool, info: Bytes)

  datatype FrameInfo = FrameInfo(nr: Byte, ns: Byte, pollFinal: bool, isCommand: bool, info: Bytes, pid: Option<Byte>)

  /** The frame-received events; the others never come from the wire. */
  datatype EventKind =
    | IReceived | RrReceived | RnrReceived | RejReceived | SrejReceived | UiReceived
    | SabmReceived | SabmeReceived | DiscReceived | UaReceived | DmReceived
    | FrmrReceived | XidReceived | TestReceived

  datatype Event = Event(kind: EventKind, info: FrameInfo)

  /** The two ends of a link and the way between them. */
  datatype Path = Path(local: Calls.Callsign, remote: Calls.Callsign, digipeaters: seq<Calls.Callsign>)

  predicate ValidPath(p: Path) {
    && Calls.Valid(p.local) && Calls.Valid(p.remote)
    && forall i :: 0 <= i < |p.digipeaters| ==> Calls.Valid(p.digipeaters[i])
  }

  const PF_BIT: Byte := 0x10

  function SBase(kind: SupervisoryKind): Byte {
    match kind
    case Rr => 0x01
    case Rnr => 0x05
    case Rej => 0x09
    case Srej => 0x0D
  }

  function UBase(kind: UnnumberedKind): Byte {
    match kind
    case Sabm => 0x2F
    case Sabme => 0x6F
    case Disc => 0x43
    case Ua => 0x63
    case Dm => 0x0F
  }

  function Pf8(pf: bool): Byte { if pf then PF_BIT else 0 }

  function SControl(kind: SupervisoryKind, nr: Byte, pf: bool): Byte { SBase(kind) | ((nr & 0x07) << 5) | Pf8(pf) }
  function UControl(base: Byte, pf: bool): Byte { base | Pf8(pf) }
  function IControl(nr: Byte, ns: Byte, pf: bool): Byte { ((nr & 0x07) << 5) | Pf8(pf) | ((ns & 0x07) << 1) }

  /** The first octet of an extended information frame, and the second of any. */
  function WideFirst(ns: Byte): Byte { (ns & 0x7F) << 1 }
  function WideSecond(nr: Byte, pf: bool): Byte { ((nr & 0x7F) << 1) | (if pf then 0x01 else 0) }

  function Station(c: Calls.Callsign, crh: bool): Address { Slot.Address(c, crh, false) }

  function Addressed(p: Path, isCommand: bool, control: Byte, pid: Option<Byte>, info: Bytes): Frame {
    Frame(
      Station(p.remote, isCommand),
      Station(p.local, !isCommand),
      seq(|p.digipeaters|, i requires 0 <= i < |p.digipeaters| => Station(p.digipeaters[i], false)),
      control, pid, info)
  }

  function BuildFrame(p: Path, spec: FrameSpec): Frame {
    match spec
    case Supervisory(kind, c, nr, pf) => Addressed(p, c, SControl(kind, nr, pf), None, [])
    case Unnumbered(kind, c, pf, _) => Addressed(p, c, UControl(UBase(kind), pf), None, [])
    case Ui(c, pf, pid, info) => Addressed(p, c, UControl(CONTROL_UI, pf), Some(pid), info)
    case Information(pf, nr, ns, pid, info) => Addressed(p, true, IControl(nr, ns, pf), Some(pid), info)
    case Xid(c, pf, info) => Addressed(p, c, UControl(0xAF, pf), None, info)
  }

  function EncodeSpec(p: Path, extended: bool, spec: FrameSpec): Bytes {
    if extended && spec.Information? then
      Encode(Addressed(p, true, WideFirst(spec.ns), Some(spec.pid), spec.info), Some(WideSecond(spec.nr, spec.pf)))
    else if extended && spec.Supervisory? then
      Encode(Addressed(p, spec.isCommand, SBase(spec.kind), None, []), Some(WideSecond(spec.nr, spec.pf)))
    else Encode(BuildFrame(p, spec), None)
  }

  // ----- classification ---------------------------------------------------------

  function SKind(nibble: Byte): Option<EventKind> {
    match nibble
    case 0x01 => Some(RrReceived)
    case 0x05 => Some(RnrReceived)
    case 0x09 => Some(RejReceived)
    case 0x0D => Some(SrejReceived)
    case _ => None
  }

  function UKind(u: Byte): Option<EventKind> {
    match u
    case 0x2F => Some(SabmReceived)
    case 0x6F => Some(SabmeReceived)
    case 0x43 => Some(DiscReceived)
    case 0x63 => Some(UaReceived)
    case 0x0F => Some(DmReceived)
    case 0x87 => Some(FrmrReceived)
    case 0xAF => Some(XidReceived)
    case 0xE3 => Some(TestReceived)
    case _ => if u & 0xEF == CONTROL_UI then Some(UiReceived) else None
  }

  function KindOf(control: Byte): Option<EventKind> {
    if control & 0x01 == 0 then Some(IReceived)
    else if control & 0x03 == 0x01 then SKind(control & 0x0F)
    else UKind(control & !PF_BIT)
  }

  /** The control octets of each kind, P/F bit aside, as AX.25 2.2 section 4.3 has them. */
  lemma KindsByOctet(control: Byte)
    ensures KindOf(control) == Some(IReceived) <==> control & 0x01 == 0
    ensures KindOf(control) == Some(RrReceived) <==> control & 0x0F == 0x01
    ensures KindOf(control) == Some(RnrReceived) <==> control & 0x0F == 0x05
    ensures KindOf(control) == Some(RejReceived) <==> control & 0x0F == 0x09
    ensures KindOf(control) == Some(SrejReceived) <==> control & 0x0F == 0x0D
    ensures KindOf(control) == Some(UiReceived) <==> control & 0xEF == 0x03
    ensures KindOf(control) == Some(DmReceived) <==> control & 0xEF == 0x0F
    ensures KindOf(control) == Some(SabmReceived) <==> control & 0xEF == 0x2F
    ensures KindOf(control) == Some(DiscReceived) <==> control & 0xEF == 0x43
    ensures KindOf(control) == Some(UaReceived) <==> control & 0xEF == 0x63
    ensures KindOf(control) == Some(SabmeReceived) <==> control & 0xEF == 0x6F
    ensures KindOf(control) == Some(FrmrReceived) <==> control & 0xEF == 0x87
    ensures KindOf(control) == Some(XidReceived) <==> control & 0xEF == 0xAF
    ensures KindOf(control) == Some(TestReceived) <==> control & 0xEF == 0xE3
  {}

  /** Which of them the parser lets carry an information field without a PID, and which
      it expects as commands. */
  lemma KindsParsed(control: Byte)
    ensures InfoBearing(control) <==> KindOf(control) in [Some(FrmrReceived), Some(XidReceived), Some(TestReceived)]
    ensures CommandOnly(control) <==> KindOf(control) in [Some(SabmReceived), Some(SabmeReceived), Some(DiscReceived)]
    ensures CarriesPid(control) <==> KindOf(control) in [Some(IReceived), Some(UiReceived)]
  {}

  function Classify(f: Frame, extension: Option<Byte>): Option<Event> {
    match KindOf(f.control)
    case None => None
    case Some(kind) =>
      Some(Event(kind, FrameInfo(
        NrWith(f.control, extension), NsWith(f.control, extension), PollFinalWith(f.control, extension),
        IsCommand(f), f.info, f.pid)))
  }

  /** What a link of this width makes of received octets. */
  function Receive(bytes: Bytes, extended: bool): Option<Event> {
    match Decode(bytes, extended, LENIENT)
    case Err(_) => None
    case Ok((f, extension)) => Classify(f, extension)
  }

  // ----- what an intent should be received as -----------------------------------

  /** A sequence number as the link counts it: modulo 128 or 8. */
  function Wrapped(n: Byte, extended: bool): Byte { if extended then n % 128 else n % 8 }

  function SKindFor(kind: SupervisoryKind): EventKind {
    match kind
    case Rr => RrReceived
    case Rnr => RnrReceived
    case Rej => RejReceived
    case Srej => SrejReceived
  }

  function UKindFor(kind: UnnumberedKind): EventKind {
    match kind
    case Sabm => SabmReceived
    case Sabme => SabmeReceived
    case Disc => DiscReceived
    case Ua => UaReceived
    case Dm => DmReceived
  }

  function KindFor(spec: FrameSpec): EventKind {
    match spec
    case Information(_, _, _, _, _) => IReceived
    case Ui(_, _, _, _) => UiReceived
    case Xid(_, _, _) => XidReceived
    case Supervisory(kind, _, _, _) => SKindFor(kind)
    case Unnumbered(kind, _, _, _) => UKindFor(kind)
  }

  /** The event says what the intent said. A sequence number that a frame kind does
      not have is not looked at; the others arrive modulo the link's modulus. */
  predicate Reports(e: Event, spec: FrameSpec, extended: bool) {
    && e.kind == KindFor(spec)
    && e.info.pollFinal == spec.pf
    && e.info.isCommand == (spec.Information? || spec.isCommand)
    && (spec.Information? || spec.Supervisory? ==> e.info.nr == Wrapped(spec.nr, extended))
    && (spec.Information? ==> e.info.ns == Wrapped(spec.ns, extended))
    && e.info.pid == (if spec.Information? || spec.Ui? then Some(spec.pid) else None)
    && e.info.info == (if spec.Information? || spec.Ui? || spec.Xid? then spec.info else [])
  }

  // ----- the control field, octet by octet --------------------------------------

  lemma SControlReads(kind: SupervisoryKind, nr: Byte, pf: bool)
    ensures
      var c := SControl(kind, nr, pf);
      && !IsUnnumbered(c) && !CarriesPid(c) && KindOf(c) == Some(SKindFor(kind))
      && NrWith(c, None) == nr % 8 && PollFinalWith(c, None) == pf
  {}

  lemma SBaseReads(kind: SupervisoryKind)
    ensures !IsUnnumbered(SBase(kind)) && !CarriesPid(SBase(kind)) && KindOf(SBase(kind)) == Some(SKindFor(kind))
  {}

  lemma UControlReads(kind: UnnumberedKind, pf: bool)
    ensures
      var c := UControl(UBase(kind), pf);
      IsUnnumbered(c) && !CarriesPid(c) && KindOf(c) == Some(UKindFor(kind)) && PollFinalWith(c, None) == pf
  {}

  lemma UiControlReads(pf: bool)
    ensures
      var c := UControl(CONTROL_UI, pf);
      IsUnnumbered(c) && CarriesPid(c) && KindOf(c) == Some(UiReceived) && PollFinalWith(c, None) == pf
  {}

  lemma XidControlReads(pf: bool)
    ensures
      var c := UControl(0xAF, pf);
      IsUnnumbered(c) && !CarriesPid(c) && KindOf(c) == Some(XidReceived) && PollFinalWith(c, None) == pf
  {}

  lemma IControlReads(nr: Byte, ns: Byte, pf: bool)
    ensures
      var c := IControl(nr, ns, pf);
      && !IsUnnumbered(c) && CarriesPid(c) && KindOf(c) == Some(IReceived)
      && NrWith(c, None) == nr % 8 && NsWith(c, None) == ns % 8 && PollFinalWith(c, None) == pf
  {}

  lemma WideSecondReads(control: Byte, nr: Byte, pf: bool)
    ensures NrWith(control, Some(WideSecond(nr, pf))) == nr % 128
    ensures PollFinalWith(control, Some(WideSecond(nr, pf))) == pf
  {}

  lemma WideFirstReads(ns: Byte, extension: Byte)
    ensures NsWith(WideFirst(ns), Some(extension)) == ns % 128
    ensures !IsUnnumbered(WideFirst(ns)) && CarriesPid(WideFirst(ns)) && KindOf(WideFirst(ns)) == Some(IReceived)
  {}

  // ----- the two directions are inverse -----------------------------------------

  /** The frame and the second control octet that `EncodeSpec` puts on the wire. */
  function WireForm(p: Path, extended: bool, spec: FrameSpec): (Frame, Option<Byte>) {
    if extended && spec.Information? then
      (Addressed(p, true, WideFirst(spec.ns), Some(spec.pid), spec.info), Some(WideSecond(spec.nr, spec.pf)))
    else if extended && spec.Supervisory? then
      (Addressed(p, spec.isCommand, SBase(spec.kind), None, []), Some(WideSecond(spec.nr, spec.pf)))
    else (BuildFrame(p, spec), None)
  }

  lemma ControlFits(p: Path, extended: bool, spec: FrameSpec)
    ensures
      var (f, extension) := WireForm(p, extended, spec);
      && (extension.Some? <==> extended && !IsUnnumbered(f.control))
      && (f.pid.Some? <==> CarriesPid(f.control))
  {
    match spec
    case Supervisory(kind, _, nr, pf) => SControlReads(kind, nr, pf); SBaseReads(kind);
    case Unnumbered(kind, _, pf, _) => UControlReads(kind, pf);
    case Ui(_, pf, _, _) => UiControlReads(pf);
    case Xid(_, pf, _) => XidControlReads(pf);
    case Information(pf, nr, ns, _, _) => IControlReads(nr, ns, pf); WideFirstReads(ns, 0);
  }

  lemma FitsTheLink(p: Path, extended: bool, spec: FrameSpec)
    requires ValidPath(p)
    ensures
      var (f, extension) := WireForm(p, extended, spec);
      && EncodeSpec(p, extended, spec) == Encode(f, extension)
      && Typed(f)
      && (WellFormed(f, extension, extended) <==> |p.digipeaters| <= MAX_DIGIPEATERS)
  {
    ControlFits(p, extended, spec);
  }

  predicate ClassifiedRight(f: Frame, extension: Option<Byte>, spec: FrameSpec, extended: bool) {
    var r := Classify(f, extension);
    r.Some? && Reports(r.value, spec, extended)
  }

  /** What is left to check once the control field has been read. */
  lemma RestFollows(p: Path, f: Frame, extension: Option<Byte>, spec: FrameSpec, extended: bool)
    requires f == Addressed(p, spec.Information? || spec.isCommand, f.control, f.pid, f.info)
    requires KindOf(f.control) == Some(KindFor(spec))
    requires PollFinalWith(f.control, extension) == spec.pf
    requires spec.Information? || spec.Supervisory? ==> NrWith(f.control, extension) == Wrapped(spec.nr, extended)
    requires spec.Information? ==> NsWith(f.control, extension) == Wrapped(spec.ns, extended)
    requires f.pid == if spec.Information? || spec.Ui? then Some(spec.pid) else None
    requires f.info == if spec.Information? || spec.Ui? || spec.Xid? then spec.info else []
    ensures ClassifiedRight(f, extension, spec, extended)
  {}

  lemma InformationClassifies(p: Path, spec: FrameSpec)
    requires spec.Information?
    ensures ClassifiedRight(BuildFrame(p, spec), None, spec, false)
  {
    IControlReads(spec.nr, spec.ns, spec.pf);
    RestFollows(p, BuildFrame(p, spec), None, spec, false);
  }

  /** The second octet may be any whose fields are right. */
  lemma WideInformationWith(p: Path, spec: FrameSpec, second: Byte)
    requires spec.Information?
    requires NrWith(0, Some(second)) == spec.nr % 128 && PollFinalWith(0, Some(second)) == spec.pf
    ensures ClassifiedRight(Addressed(p, true, WideFirst(spec.ns), Some(spec.pid), spec.info), Some(second), spec, true)
  {
    WideFirstReads(spec.ns, second);
    RestFollows(p, Addressed(p, true, WideFirst(spec.ns), Some(spec.pid), spec.info), Some(second), spec, true);
  }

  lemma WideInformationClassifies(p: Path, spec: FrameSpec)
    requires spec.Information?
    ensures ClassifiedRight(
      Addressed(p, true, WideFirst(spec.ns), Some(spec.pid), spec.info), Some(WideSecond(spec.nr, spec.pf)), spec, true)
  {
    WideSecondReads(0, spec.nr, spec.pf);
    WideInformationWith(p, spec, WideSecond(spec.nr, spec.pf));
  }

  lemma SupervisoryClassifies(p: Path, spec: FrameSpec)
    requires spec.Supervisory?
    ensures ClassifiedRight(BuildFrame(p, spec), None, spec, false)
  {
    SControlReads(spec.kind, spec.nr, spec.pf);
    RestFollows(p, BuildFrame(p, spec), None, spec, false);
  }

  lemma WideSupervisoryClassifies(p: Path, spec: FrameSpec)
    requires spec.Supervisory?
    ensures ClassifiedRight(
      Addressed(p, spec.isCommand, SBase(spec.kind), None, []), Some(WideSecond(spec.nr, spec.pf)), spec, true)
  {
    SBaseReads(spec.kind);
    WideSecondReads(SBase(spec.kind), spec.nr, spec.pf);
    var f := Addressed(p, spec.isCommand, SBase(spec.kind), None, []);
    RestFollows(p, f, Some(WideSecond(spec.nr, spec.pf)), spec, true);
  }

  lemma UnnumberedClassifies(p: Path, spec: FrameSpec, extended: bool)
    requires spec.Unnumbered? || spec.Ui? || spec.Xid?
    ensures ClassifiedRight(BuildFrame(p, spec), None, spec, extended)
  {
    match spec {
      case Unnumbered(kind, _, pf, _) => UControlReads(kind, pf);
      case Ui(_, pf, _, _) => UiControlReads(pf);
      case Xid(_, pf, _) => XidControlReads(pf);
    }
    RestFollows(p, BuildFrame(p, spec), None, spec, extended);
  }

  lemma ClassifiesAs(p: Path, extended: bool, spec: FrameSpec)
    ensures
      var (f, extension) := WireForm(p, extended, spec);
      ClassifiedRight(f, extension, spec, extended)
  {
    if spec.Information? {
      if extended { WideInformationClassifies(p, spec); } else { InformationClassifies(p, spec); }
    } else if spec.Supervisory? {
      if extended { WideSupervisoryClassifies(p, spec); } else { SupervisoryClassifies(p, spec); }
    } else {
      UnnumberedClassifies(p, spec, extended);
    }
  }

  /** Too long a path makes octets that no station accepts. */
  lemma LongPathIsLost(p: Path, extended: bool, spec: FrameSpec)
    requires ValidPath(p) && |p.digipeaters| > MAX_DIGIPEATERS
    ensures Receive(EncodeSpec(p, extended, spec), extended) == None
  {
    FitsTheLink(p, extended, spec);
    var (f, extension) := WireForm(p, extended, spec);
    LongFieldIsRefused(f, extension, extended);
  }

  /** The octets are a frame to the remote station from the local one over the path, no
      digipeater of which has repeated it yet. */
  predicate Travels(bytes: Bytes, extended: bool, p: Path) {
    match Decode(bytes, extended, LENIENT)
    case Err(_) => false
    case Ok((f, _)) =>
      && f.destination.callsign == p.remote && f.source.callsign == p.local
      && |f.digipeaters| == |p.digipeaters|
      && forall i :: 0 <= i < |p.digipeaters| ==>
          f.digipeaters[i].callsign == p.digipeaters[i] && !f.digipeaters[i].crh
  }

  /** Both directions of the bridge: an intent is received as the event that says the
      same, at either width, exactly when its path has at most eight digipeaters; and the
      frame goes where the path says. */
  lemma ReceivedAsMeant(p: Path, extended: bool, spec: FrameSpec)
    requires ValidPath(p)
    ensures
      var r := Receive(EncodeSpec(p, extended, spec), extended);
      && (r.Some? <==> |p.digipeaters| <= MAX_DIGIPEATERS)
      && (r.Some? ==> Reports(r.value, spec, extended) && Travels(EncodeSpec(p, extended, spec), extended, p))
  {
    var (f, extension) := WireForm(p, extended, spec);
    FitsTheLink(p, extended, spec);
    if |p.digipeaters| <= MAX_DIGIPEATERS {
      EncodedDecodes(f, extension, extended, LENIENT);
      ClassifiesAs(p, extended, spec);
      WireFormTravels(p, extended, spec);
    } else {
      LongPathIsLost(p, extended, spec);
    }
  }

  lemma WireFormTravels(p: Path, extended: bool, spec: FrameSpec)
    ensures
      var f := WireForm(p, extended, spec).0;
      && f.destination.callsign == p.remote && f.source.callsign == p.local && |f.digipeaters| == |p.digipeaters|
      && forall i :: 0 <= i < |p.digipeaters| ==>
          f.digipeaters[i].callsign == p.digipeaters[i] && !f.digipeaters[i].crh
  {}

  /** Sequence numbers below the modulus arrive unchanged. */
  lemma SequenceNumbersSurvive(p: Path, extended: bool, spec: FrameSpec)
    requires ValidPath(p) && |p.digipeaters| <= MAX_DIGIPEATERS && spec.Information?
    ensures
      var r := Receive(EncodeSpec(p, extended, spec), extended);
      && r.Some?
      && (r.value.info.nr == spec.nr <==> spec.nr < (if extended then 128 else 8))
      && (r.value.info.ns == spec.ns <==> spec.ns < (if extended then 128 else 8))
  {
    ReceivedAsMeant(p, extended, spec);
    BelowModulus(spec.nr);
    BelowModulus(spec.ns);
  }

  lemma BelowModulus(n: Byte)
    ensures (n % 8 == n <==> n < 8) && (n % 128 == n <==> n < 128)
  {}

  /** Why the width has to be known: octets of an extended information frame read at
      modulo 8 are accepted, but N(R) and P are taken for the PID and the PID for data. */
  lemma WrongWidthMisreads(p: Path, spec: FrameSpec)
    requires ValidPath(p) && |p.digipeaters| <= MAX_DIGIPEATERS && spec.Information?
    ensures
      var r := Receive(EncodeSpec(p, true, spec), false);
      && r.Some? && r.value.kind == IReceived
      && r.value.info.pid == Some(WideSecond(spec.nr, spec.pf))
      && r.value.info.info == [spec.pid] + spec.info
  {
    var first, second := WideFirst(spec.ns), WideSecond(spec.nr, spec.pf);
    var sent := Addressed(p, true, first, Some(spec.pid), spec.info);
    var taken := Addressed(p, true, first, Some(second), [spec.pid] + spec.info);
    assert AfterAddresses(first, Some(second), Some(spec.pid), spec.info)
        == AfterAddresses(first, None, Some(second), [spec.pid] + spec.info);
    assert AddressField(sent) == AddressField(taken);
    assert Encode(sent, Some(second)) == Encode(taken, None);
    WideFirstReads(spec.ns, second);
    EncodedDecodes(taken, None, false, LENIENT);
  }

  // ----- the sink ---------------------------------------------------------------

  datatype DataLinkSignal =
    | ConnectIndication | ConnectConfirm | DisconnectIndication | DisconnectConfirm
    | DataIndication(pid: Byte, data: Bytes) | UnitDataIndication(pid: Byte, data: Bytes) | ErrorIndication(code: string)

  datatype LinkMultiplexerSignal = SeizeRequest | ReleaseRequest | DataRequest

  datatype InternalSignal = MdlNegotiateRequest | PushIFrameQueue(data: Bytes)

  class WireSink {
    const path: Path
    var extended: bool
    var sent: seq<Bytes>
    var upward: seq<DataLinkSignal>
    var seizePending: bool
    var mdlNegotiatePending: bool

    constructor (local: Calls.Callsign, remote: Calls.Callsign, digipeaters: seq<Calls.Callsign>)
      ensures path == Path(local, remote, digipeaters)
      ensures !extended && sent == [] && upward == [] && !seizePending && !mdlNegotiatePending
    {
      path := Path(local, remote, digipeaters);
      extended := false;
      sent, upward := [], [];
      seizePending, mdlNegotiatePending := false, false;
    }

    /** What goes out is received at the link's width as what was asked for, from this
        station by the remote one, over the path. */
    method SendFrame(spec: FrameSpec)
      requires ValidPath(path)
      modifies this`sent
      ensures |sent| == |old(sent)| + 1 && sent[..|old(sent)|] == old(sent)
      ensures
        var r := Receive(sent[|old(sent)|], extended);
        && (r.Some? <==> |path.digipeaters| <= MAX_DIGIPEATERS)
        && (r.Some? ==> Reports(r.value, spec, extended) && Travels(sent[|old(sent)|], extended, path))
      ensures sent[|old(sent)|] == EncodeSpec(path, extended, spec)
    {
      ReceivedAsMeant(path, extended, spec);
      sent := sent + [EncodeSpec(path, extended, spec)];
    }

    method SendUpward(signal: DataLinkSignal)
      modifies this`upward
      ensures upward == old(upward) + [signal]
    {
      upward := upward + [signal];
    }

    /** A seize request is remembered until it is granted; the others are nothing to a wire. */
    method SendLinkMux(signal: LinkMultiplexerSignal)
      modifies this`seizePending
      ensures seizePending <==> old(seizePending) || signal == SeizeRequest
    {
      if signal == SeizeRequest {
        seizePending := true;
      }
    }

    method SendInternal(signal: InternalSignal)
      modifies this`mdlNegotiatePending
      ensures mdlNegotiatePending <==> old(mdlNegotiatePending) || signal == MdlNegotiateRequest
    {
      if signal == MdlNegotiateRequest {
        mdlNegotiatePending := true;
      }
    }
  }
}
