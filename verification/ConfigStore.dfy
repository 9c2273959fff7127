/**
 The flash record of the configuration and the service that saves and loads it
 (config_store.rs), as an instance of the A/B discipline.
 */
module ConfigStore {
  import opened Common
  import opened AbStore
  import opened ConfigRecord
  import opened FlashRecord
  import opened NorFlash

  const MAGIC: Bytes := [0x50, 0x4E, 0x43, 0x31]  // "PNC1"

  /** `"PNC1" | version | generation | len | payload | crc16`. */
  function RecordBytes(generation: nat, payload: Bytes): (r: Bytes)
    requires generation < GENERATIONS && |payload| <= MAX_PAYLOAD
    ensures |r| == HEADER_LEN + |payload| + 2
  {
    Sealed(MAGIC, generation, |payload|, payload)
  }

  function ReadSector(sector: Bytes): Slot<StoredConfig>
    requires |sector| == SECTOR
  {
    match ReadHeader(sector, MAGIC)
    case None => Invalid
    case Some((generation, len)) =>
      if len > MAX_PAYLOAD then Invalid
      else
        match ReadBody(sector, len)
        case None => Invalid
        case Some(payload) => Record(generation, Decode(payload))
  }

  /** A sector that starts with a complete record reads as that record,
      whatever follows it. */
  lemma RecordReadsBack(generation: nat, payload: Bytes, sector: Bytes)
    requires generation < GENERATIONS && |payload| <= MAX_PAYLOAD && |sector| == SECTOR
    requires RecordBytes(generation, payload) <= sector
    ensures ReadSector(sector) == Record(generation, Decode(payload))
  {
    SealedReadsBack(MAGIC, generation, |payload|, payload, sector);
  }

  type Config = c: StoredConfig | Typed(c) witness EMPTY

  /** What a complete save puts in its sector. */
  function SavedSector(generation: nat, c: Config): Sector
    requires generation < GENERATIONS
  {
    EncodeIsComplete(c);
    FreshSector(RecordBytes(generation, Encode(c)))
  }

  lemma SavedSectorReads(generation: nat, c: Config)
    requires generation < GENERATIONS
    ensures ReadSector(SavedSector(generation, c)) == Record(generation, Normal(c))
  {
    EncodeIsComplete(c);
    FreshStartsWith(RecordBytes(generation, Encode(c)));
    RecordReadsBack(generation, Encode(c), SavedSector(generation, c));
    RoundTrip(c);
  }

  // ----- one save ---------------------------------------------------------------

  /** What may go wrong in a save, and what the sector then contains. A silent fault
      is one that erase and write do not report. */
  datatype Fault =
    | NoFault
    | EraseError(left: Sector)
    | WriteError(left: Sector)
    | SilentFault(left: Sector)
    | ReadBackError

  /** What the sector of generation `g` holds after a save. */
  function Left(g: nat, c: Config, fault: Fault): Sector
    requires g < GENERATIONS
  {
    if fault.NoFault? || fault.ReadBackError? then SavedSector(g, c) else fault.left
  }

  /** The read-back looks for a record of this generation. */
  predicate ReadsBack(sector: Sector, g: nat) {
    ReadSector(sector).Record? && ReadSector(sector).generation == g
  }

  predicate Accepted(g: nat, c: Config, fault: Fault)
    requires g < GENERATIONS
  {
    (fault.NoFault? || fault.SilentFault?) && ReadsBack(Left(g, c, fault), g)
  }

  /** The hypothesis about interrupted sectors: they read as nothing, as they were, or
      as the complete record. */
  predicate Leaves(before: Sector, g: nat, c: Config, left: Sector) {
    ReadSector(left).Invalid? || ReadSector(left) == ReadSector(before) || ReadSector(left) == Record(g, Normal(c))
  }

  predicate FaultLeaves(before: Sector, g: nat, c: Config, fault: Fault) {
    fault.NoFault? || fault.ReadBackError? || Leaves(before, g, c, fault.left)
  }

  /** The sector already holds a record of the generation about to be written, with
      another configuration in it: a save that failed after its write has left it. */
  predicate StaleRecord(before: Sector, g: nat, c: Config) {
    ReadsBack(before, g) && ReadSector(before).value != Normal(c)
  }

  ghost predicate OkIsTrue(before: Sector, g: nat, c: Config)
    requires g < GENERATIONS
  {
    forall fault :: FaultLeaves(before, g, c, fault) && Accepted(g, c, fault) ==>
      ReadSector(Left(g, c, fault)) == Record(g, Normal(c))
  }

  /** A save that reports success has left the complete new record, whatever the
      flash did, exactly when the sector held no stale record of its generation: the
      read-back compares the generation and not the content. */
  lemma OkIsTrueExactlyWhen(before: Sector, g: nat, c: Config)
    requires g < GENERATIONS
    ensures OkIsTrue(before, g, c) <==> !StaleRecord(before, g, c)
  {
    if StaleRecord(before, g, c) {
      var fault := SilentFault(before);
      assert Left(g, c, fault) == before;
      assert FaultLeaves(before, g, c, fault) && Accepted(g, c, fault);
    } else {
      forall fault | FaultLeaves(before, g, c, fault) && Accepted(g, c, fault)
        ensures ReadSector(Left(g, c, fault)) == Record(g, Normal(c))
      {
        AcceptedIsNew(before, g, c, fault);
      }
    }
  }

  lemma AcceptedIsNew(before: Sector, g: nat, c: Config, fault: Fault)
    requires g < GENERATIONS && !StaleRecord(before, g, c)
    requires FaultLeaves(before, g, c, fault) && Accepted(g, c, fault)
    ensures ReadSector(Left(g, c, fault)) == Record(g, Normal(c))
  {
    if fault.NoFault? { SavedSectorReads(g, c); }
  }

  // ----- runs over the bytes in flash ---------------------------------------------

  function Slots(s: Sectors): Flash<StoredConfig> { Flash(ReadSector(s.a), ReadSector(s.b)) }

  lemma SlotsWith(s: Sectors, g: nat, bytes: Sector)
    ensures Slots(WithSector(s, g, bytes)) == WithSlot(Slots(s), g, ReadSector(bytes))
    ensures SlotOf(Slots(s), g) == ReadSector(SectorOf(s, g))
  {}

  /** Two flash sectors and, while the node is up, its service's generation. */
  datatype Device = Device(sectors: Sectors, running: Option<nat>)

  datatype Happening =
    | Boots
    | PowersOff
    | Saves(config: Config, fault: Fault)
    | CutInSave(config: Config, left: Sector)  // power fails inside a save

  /** A save at generation `g`. Without a next generation the node goes down before the
      erase. */
  function AfterSave(s: Sectors, g: nat, c: Config, fault: Fault): Device {
    if Exhausted(g) then Device(s, None) else AfterWrite(s, g, c, fault)
  }

  function AfterWrite(s: Sectors, g: nat, c: Config, fault: Fault): Device
    requires !Exhausted(g)
  {
    var next := NextGeneration(g);
    Device(WithSector(s, next, Left(next, c, fault)), Some(if Accepted(next, c, fault) then next else g))
  }

  function DeviceStep(d: Device, h: Happening): Device {
    match h
    case Boots => d.(running := Some(BootGeneration(Slots(d.sectors))))
    case PowersOff => d.(running := None)
    case Saves(c, fault) => if d.running.None? then d else AfterSave(d.sectors, d.running.value, c, fault)
    case CutInSave(c, left) =>
      if d.running.None? || Exhausted(d.running.value) then d.(running := None)
      else Device(WithSector(d.sectors, NextGeneration(d.running.value), left), None)
  }

  /** A device with the last configuration whose save reported success, and those
      whose save was attempted after it. */
  datatype History = History(device: Device, saved: Option<StoredConfig>, since: seq<StoredConfig>)

  function HistoryStep(s: History, h: Happening): History {
    var d := DeviceStep(s.device, h);
    if s.device.running.None? || Exhausted(s.device.running.value) then s.(device := d)
    else
      match h
      case Boots => s.(device := d)
      case PowersOff => s.(device := d)
      case Saves(c, fault) =>
        if Accepted(NextGeneration(s.device.running.value), c, fault) then History(d, Some(Normal(c)), [])
        else s.(device := d, since := s.since + [Normal(c)])
      case CutInSave(c, _) => s.(device := d, since := s.since + [Normal(c)])
  }

  function HistoryRun(start: Sectors, hs: seq<Happening>): History
    decreases |hs|
  {
    if hs == [] then History(Device(start, None), None, [])
    else HistoryStep(HistoryRun(start, hs[..|hs| - 1]), hs[|hs| - 1])
  }

  /** The hypothesis for one step: sectors caught in the middle are readable, and no
      silent fault leaves a stale record where the read-back takes it for the new one. */
  predicate Readable(d: Device, h: Happening) {
    d.running.None? || Exhausted(d.running.value) ||
    var next := NextGeneration(d.running.value);
    var before := SectorOf(d.sectors, next);
    match h
    case Boots => true
    case PowersOff => true
    case Saves(c, fault) =>
      FaultLeaves(before, next, c, fault) && !(fault.SilentFault? && StaleRecord(fault.left, next, c))
    case CutInSave(c, left) => Leaves(before, next, c, left)
  }

  predicate AllReadable(start: Sectors, hs: seq<Happening>)
    decreases |hs|
  {
    hs == [] || (AllReadable(start, hs[..|hs| - 1]) && Readable(HistoryRun(start, hs[..|hs| - 1]).device, hs[|hs| - 1]))
  }

  /** A run over bytes as a state of the A/B model. */
  function Seen(s: History): Node<StoredConfig> {
    Node(Slots(s.device.sectors), s.device.running, s.saved, s.since)
  }

  lemma DownIsModelled(s: History, c: Config, fault: Fault, left: Sector, o: Outcome)
    requires s.device.running.Some? && Exhausted(s.device.running.value)
    ensures Seen(HistoryStep(s, Saves(c, fault))) == Step(Seen(s), AbStore.Event.Save(Normal(c), o))
    ensures Seen(HistoryStep(s, CutInSave(c, left))) == Step(Seen(s), PowerCut(Normal(c), o))
  {
    var down := s.(device := s.device.(running := None));
    assert HistoryStep(s, Saves(c, fault)) == down && HistoryStep(s, CutInSave(c, left)) == down;
  }

  lemma SaveSeen(s: History, c: Config, fault: Fault)
    requires s.device.running.Some? && !Exhausted(s.device.running.value)
    ensures
      var g := s.device.running.value;
      var d := AfterWrite(s.device.sectors, g, c, fault);
      HistoryStep(s, Saves(c, fault)) ==
        if Accepted(NextGeneration(g), c, fault) then History(d, Some(Normal(c)), []) else History(d, s.saved, s.since + [Normal(c)])
  {}

  lemma CutSeen(s: History, c: Config, left: Sector)
    requires s.device.running.Some? && !Exhausted(s.device.running.value)
    ensures HistoryStep(s, CutInSave(c, left)) ==
      History(Device(WithSector(s.device.sectors, NextGeneration(s.device.running.value), left), None), s.saved, s.since + [Normal(c)])
  {}

  lemma SaveIsModelled(s: History, c: Config, fault: Fault) returns (o: Outcome)
    requires s.device.running.Some? && !Exhausted(s.device.running.value) && Readable(s.device, Saves(c, fault))
    ensures Seen(HistoryStep(s, Saves(c, fault))) == Step(Seen(s), AbStore.Event.Save(Normal(c), o))
  {
    var g := s.device.running.value;
    var next := NextGeneration(g);
    SavedSectorReads(next, c);
    SlotsWith(s.device.sectors, next, Left(next, c, fault));
    SaveSeen(s, c, fault);
    if Accepted(next, c, fault) {
      o := Completed;
    } else {
      o := FaultHasOutcome(Slots(s.device.sectors), g, Normal(c), ReadSector(Left(next, c, fault)));
    }
  }

  lemma CutIsModelled(s: History, c: Config, left: Sector) returns (o: Outcome)
    requires s.device.running.Some? && !Exhausted(s.device.running.value) && Readable(s.device, CutInSave(c, left))
    ensures Seen(HistoryStep(s, CutInSave(c, left))) == Step(Seen(s), PowerCut(Normal(c), o))
  {
    var g := s.device.running.value;
    SlotsWith(s.device.sectors, NextGeneration(g), left);
    CutSeen(s, c, left);
    o := FaultHasOutcome(Slots(s.device.sectors), g, Normal(c), ReadSector(left));
  }

  lemma StepIsModelled(s: History, h: Happening) returns (e: AbStore.Event<StoredConfig>)
    requires Readable(s.device, h)
    ensures Seen(HistoryStep(s, h)) == Step(Seen(s), e)
  {
    match h
    case Boots => e := Boot;
    case PowersOff => e := PowerOff;
    case Saves(c, fault) =>
      e := AbStore.Event.Save(Normal(c), Torn);
      if s.device.running.Some? {
        if Exhausted(s.device.running.value) {
          DownIsModelled(s, c, fault, s.device.sectors.a, Torn);
        } else {
          var o := SaveIsModelled(s, c, fault);
          e := AbStore.Event.Save(Normal(c), o);
        }
      }
    case CutInSave(c, left) =>
      e := PowerCut(Normal(c), Torn);
      if s.device.running.Some? {
        if Exhausted(s.device.running.value) {
          DownIsModelled(s, c, NoFault, left, Torn);
        } else {
          var o := CutIsModelled(s, c, left);
          e := PowerCut(Normal(c), o);
        }
      }
  }

  /** Every run over bytes is a run of the A/B model of the same length. */
  lemma {:induction false} RunIsModelled(start: Sectors, hs: seq<Happening>) returns (events: seq<AbStore.Event<StoredConfig>>)
    requires Slots(start) == Flash(Invalid, Invalid) && AllReadable(start, hs)
    ensures |events| == |hs| && Run(Blank(), events) == Seen(HistoryRun(start, hs))
    decreases |hs|
  {
    events := [];
    if hs != [] {
      var before := RunIsModelled(start, hs[..|hs| - 1]);
      var e := StepIsModelled(HistoryRun(start, hs[..|hs| - 1]), hs[|hs| - 1]);
      events := before + [e];
      assert events[..|before|] == before;
    }
  }

  /** Once a save has reported success, whatever happens then and for however long, the service that boots
      from the bytes in flash starts with that configuration or with one whose save was
      attempted later. */
  lemma SavedConfigSurvives(start: Sectors, hs: seq<Happening>)
    requires Slots(start) == Flash(Invalid, Invalid) && AllReadable(start, hs)
    requires HistoryRun(start, hs).saved.Some?
    ensures
      var s := HistoryRun(start, hs);
      var loaded := Load(Slots(s.device.sectors));
      loaded.Some? && (s.saved == Some(loaded.value.1) || loaded.value.1 in s.since)
  {
    var events := RunIsModelled(start, hs);
    Durability(events);
  }

  /** Two erased sectors are a blank store. */
  lemma ErasedIsBlank()
    ensures Slots(Sectors(Erased(SECTOR), Erased(SECTOR))) == Flash(Invalid, Invalid)
  {
    ErasedHasNoHeader(MAGIC);
  }

  /** Why the hypothesis on silent faults is needed: a save lands but cannot be read
      back, the configuration is changed, and the next save does nothing without saying
      so. It reports success, and boot finds the older configuration. */
  lemma StaleRecordFoolsTheReadBack(first: Config, second: Config) returns (hs: seq<Happening>)
    requires Normal(first) != Normal(second)
    ensures
      var s := HistoryRun(Sectors(Erased(SECTOR), Erased(SECTOR)), hs);
      s.saved == Some(Normal(second)) && s.since == [] && Load(Slots(s.device.sectors)) == Some((1, Normal(first)))
  {
    var start := Sectors(Erased(SECTOR), Erased(SECTOR));
    ErasedIsBlank();
    hs := FooledRun(start, first, second);
    SavedSectorReads(1, first);
    SlotsWith(start, 1, SavedSector(1, first));
  }

  lemma FooledRun(start: Sectors, first: Config, second: Config) returns (hs: seq<Happening>)
    requires Slots(start) == Flash(Invalid, Invalid)
    ensures HistoryRun(start, hs) ==
      History(Device(WithSector(start, 1, SavedSector(1, first)), Some(1)), Some(Normal(second)), [])
  {
    var landed := WithSector(start, 1, SavedSector(1, first));
    var h1, h2, h3 := Boots, Saves(first, ReadBackError), Saves(second, SilentFault(landed.b));
    hs := [h1] + [h2] + [h3];
    ThreeSteps(start, h1, h2, h3);
    var s0, s1 := HistoryRun(start, []), History(Device(start, Some(0)), None, []);
    BootsBlank(s0);
    LandedUnseen(s1, first);
    FooledOnce(History(Device(landed, Some(0)), None, [] + [Normal(first)]), first, second);
  }

  lemma BootsBlank(s: History)
    requires Slots(s.device.sectors) == Flash(Invalid, Invalid) && s.device.running.None?
    ensures HistoryStep(s, Boots) == s.(device := Device(s.device.sectors, Some(0)))
  {}

  lemma ThreeSteps(start: Sectors, h1: Happening, h2: Happening, h3: Happening)
    ensures HistoryRun(start, [h1] + [h2] + [h3]) == HistoryStep(HistoryStep(HistoryStep(HistoryRun(start, []), h1), h2), h3)
  {
    OneMore(start, [], h1);
    assert [] + [h1] == [h1];
    OneMore(start, [h1], h2);
    OneMore(start, [h1] + [h2], h3);
  }

  lemma OneMore(start: Sectors, hs: seq<Happening>, h: Happening)
    ensures HistoryRun(start, hs + [h]) == HistoryStep(HistoryRun(start, hs), h)
  {
    assert (hs + [h])[..|hs|] == hs;
  }

  lemma LandedUnseen(s: History, c: Config)
    requires s.device.running == Some(0)
    ensures HistoryStep(s, Saves(c, ReadBackError)) ==
      History(Device(s.device.sectors.(b := SavedSector(1, c)), Some(0)), s.saved, s.since + [Normal(c)])
  {
    SaveSeen(s, c, ReadBackError);
    assert NextGeneration(0) == 1;
  }

  lemma FooledOnce(s: History, first: Config, second: Config)
    requires s.device.running == Some(0) && s.device.sectors.b == SavedSector(1, first)
    ensures HistoryStep(s, Saves(second, SilentFault(s.device.sectors.b))) ==
      History(Device(s.device.sectors, Some(1)), Some(Normal(second)), [])
  {
    var fault := SilentFault(s.device.sectors.b);
    SaveSeen(s, second, fault);
    assert NextGeneration(0) == 1;
    SavedSectorReads(1, first);
    assert Left(1, second, fault) == s.device.sectors.b && Accepted(1, second, fault);
  }

  // ----- the service ----------------------------------------------------------------

  /** How a call to save ends: a checked increment past the last generation panics. */
  datatype SaveResult = Saved | Failed | Panicked

  /** The service of a node; `up` until the node goes down in a panic. */
  class ConfigService {
    var sectorA: Sector
    var sectorB: Sector
    var up: bool
    var pending: StoredConfig
    var generation: nat

    ghost predicate Valid()
      reads this
    {
      generation < GENERATIONS && Typed(pending)
    }

    ghost function State(): Device
      reads this
    {
      Device(Sectors(sectorA, sectorB), if up then Some(generation) else None)
    }

    /** Boot: adopt the newest valid record, or start empty at generation 0. */
    constructor (a: Sector, b: Sector)
      ensures Valid() && State() == DeviceStep(Device(Sectors(a, b), None), Boots)
      ensures pending == if Load(Slots(Sectors(a, b))).Some? then Load(Slots(Sectors(a, b))).value.1 else EMPTY
    {
      var loaded := Load(Flash(ReadSector(a), ReadSector(b)));
      SectorFits(a);
      SectorFits(b);
      sectorA, sectorB, up := a, b, true;
      generation := if loaded.Some? then loaded.value.0 else 0;
      pending := if loaded.Some? then loaded.value.1 else EMPTY;
    }

    /** Persist the pending configuration to the sector of the next generation's
        parity: erase, write, read back, and only then adopt the generation. */
    method Save(fault: Fault) returns (r: SaveResult)
      requires Valid() && up
      modifies this
      ensures Valid() && pending == old(pending)
      ensures State() == AfterSave(old(State().sectors), old(generation), pending, fault)
      ensures r == Panicked <==> Exhausted(old(generation))
      ensures up <==> r != Panicked
      ensures
        var next := NextGeneration(old(generation));
        && generation == (if r == Saved then next else old(generation))
        && (up ==> (r == Saved <==> (fault.NoFault? || fault.SilentFault?) && ReadsBack(SectorOf(State().sectors, next), next)))
    {
      if Exhausted(generation) {
        up := false;
        return Panicked;
      }
      var ok := SaveNext(fault);
      return if ok then Saved else Failed;
    }

    method SaveNext(fault: Fault) returns (ok: bool)
      requires Valid() && up && !Exhausted(generation)
      modifies this`sectorA, this`sectorB, this`generation
      ensures Valid()
      ensures State() == AfterWrite(old(State().sectors), old(generation), pending, fault)
      ensures
        var next := NextGeneration(old(generation));
        && generation == (if ok then next else old(generation))
        && ok == ((fault.NoFault? || fault.SilentFault?) && ReadsBack(SectorOf(State().sectors, next), next))
    {
      var next := NextGeneration(generation);
      ok := WriteRecord(next, fault);
      if !ok || fault.ReadBackError? {
        return false;
      }
      ok := ReadBack(next);
      if ok {
        generation := next;
      }
    }

    /** Whether the sector of generation `next` holds a record of that generation. */
    method ReadBack(next: nat) returns (ok: bool)
      ensures ok == ReadsBack(SectorOf(Sectors(sectorA, sectorB), next), next)
    {
      var back := ReadSector(if next % 2 == 0 then sectorA else sectorB);
      ok := back.Record? && back.generation == next;
    }

    /** Erase the sector of generation `next` and write the record to it. */
    method WriteRecord(next: nat, fault: Fault) returns (ok: bool)
      requires Typed(pending) && next < GENERATIONS
      modifies this`sectorA, this`sectorB
      ensures ok <==> !fault.EraseError? && !fault.WriteError?
      ensures Sectors(sectorA, sectorB) == WithSector(old(Sectors(sectorA, sectorB)), next, Left(next, pending, fault))
    {
      if fault.EraseError? {
        PutSector(next, fault.left);
        return false;
      }
      PutSector(next, Erased(SECTOR));
      if fault.WriteError? || fault.SilentFault? {
        PutSector(next, fault.left);
        return fault.SilentFault?;
      }
      PutSector(next, SavedSector(next, pending));
      return true;
    }

    /** Replace what the sector for generation `g` contains. */
    method PutSector(g: nat, bytes: Sector)
      modifies this`sectorA, this`sectorB
      ensures Sectors(sectorA, sectorB) == WithSector(old(Sectors(sectorA, sectorB)), g, bytes)
    {
      if g % 2 == 0 {
        sectorA := bytes;
      } else {
        sectorB := bytes;
      }
    }
  }

  lemma SectorFits(sector: Sector)
    ensures ReadSector(sector).Record? ==>
      ReadSector(sector).generation < GENERATIONS && Typed(ReadSector(sector).value)
  {
    match ReadHeader(sector, MAGIC)
    case None =>
    case Some((_, len)) =>
      if len <= MAX_PAYLOAD && ReadBody(sector, len).Some? {
        DecodedIsTyped(EMPTY, ReadBody(sector, len).value);
      }
  }
}
