/**
 The persisted routing table and its wear gate (netrom_store.rs, and the calls
 to it in config_store.rs): the same A/B discipline, but a table whose content
 CRC equals that of the last one written is not written again, and what was
 written is not read back.
 */
module NetromStore {
  import opened Common
  import opened AbStore
  import opened FlashRecord
  import opened NorFlash
  import opened RouteRecord
  import Crc

  const MAGIC: Bytes := [0x50, 0x4E, 0x52, 0x31]  // "PNR1"

  type Table = seq<Route>

  /** At most 64 routes fit a snapshot; the rest are silently left out. */
  function Snapshot(best: Table): (routes: Table)
    ensures routes <= best && |routes| == if |best| <= MAX_ROUTES then |best| else MAX_ROUTES
  {
    if |best| <= MAX_ROUTES then best else best[..MAX_ROUTES]
  }

  function RecordBytes(generation: nat, routes: Table): (r: Bytes)
    requires generation < GENERATIONS && |routes| <= MAX_ROUTES
    ensures |Padded(r)| <= SECTOR
  {
    Sealed(MAGIC, generation, |routes|, Content(routes))
  }

  function ReadSector(sector: Bytes): Slot<Table>
    requires |sector| == SECTOR
  {
    match ReadHeader(sector, MAGIC)
    case None => Invalid
    case Some((generation, count)) =>
      if count > MAX_ROUTES then Invalid
      else
        match ReadBody(sector, ROUTE_LEN * count)
        case None => Invalid
        case Some(body) =>
          match ReadRoutes(body, count)
          case None => Invalid
          case Some(routes) => Record(generation, routes)
  }

  lemma SavedTableReads(generation: nat, routes: Table)
    requires generation < GENERATIONS && |routes| <= MAX_ROUTES && AllValid(routes)
    ensures ReadSector(FreshSector(RecordBytes(generation, routes))) == Record(generation, routes)
  {
    var record := RecordBytes(generation, routes);
    FreshStartsWith(record);
    SealedReadsBack(MAGIC, generation, |routes|, Content(routes), FreshSector(record));
    ContentReadsBack(routes);
  }

  // ----- the store over whole runs ------------------------------------------------

  /** A node's routing store: the A/B discipline, and the CRC of the last table this
      boot has written, 0 before the first. */
  datatype Store = Store(node: Node<Table>, gate: Crc.Word)

  datatype StoreEvent =
    | Boots
    | PowersOff
    | Tick(table: Table, outcome: Outcome)      // a save that returns
    | CutInTick(table: Table, outcome: Outcome) // power fails inside a save

  /** Whether a save of this table gets past the wear gate. */
  predicate Passes(table: Table, gate: Crc.Word) { table != [] && ContentCrc(table) != gate }

  /** Whether it touches the flash: past the gate it needs a next generation, or else the
      node goes down. */
  predicate Touches(running: Option<nat>, gate: Crc.Word, table: Table) {
    running.Some? && !Exhausted(running.value) && Passes(table, gate)
  }

  function StoreStep(s: Store, e: StoreEvent): Store {
    match e
    case Boots => Store(Step(s.node, Boot), 0)
    case PowersOff => s.(node := Step(s.node, PowerOff))
    case Tick(table, outcome) =>
      if s.node.running.None? || !Passes(table, s.gate) then s
      else
        var completed := outcome == Completed && Touches(s.node.running, s.gate, table);
        Store(Step(s.node, Save(table, outcome)), if completed then ContentCrc(table) else s.gate)
    case CutInTick(table, outcome) =>
      if s.node.running.None? then s
      else if !Passes(table, s.gate) then s.(node := Step(s.node, PowerOff))
      else s.(node := Step(s.node, PowerCut(table, outcome)))
  }

  function StoreRun(events: seq<StoreEvent>): Store
    decreases |events|
  {
    if events == [] then Store(Blank(), 0) else StoreStep(StoreRun(events[..|events| - 1]), events[|events| - 1])
  }

  function PlainStep(s: Store, e: StoreEvent): Option<AbStore.Event<Table>> {
    match e
    case Boots => Some(Boot)
    case PowersOff => Some(PowerOff)
    case Tick(table, outcome) => if Passes(table, s.gate) then Some(Save(table, outcome)) else None
    case CutInTick(table, outcome) => if Passes(table, s.gate) then Some(PowerCut(table, outcome)) else Some(PowerOff)
  }

  lemma StepRefines(s: Store, e: StoreEvent)
    ensures
      var p := PlainStep(s, e);
      StoreStep(s, e).node == if p.Some? then Step(s.node, p.value) else s.node
  {}

  /** The gate only leaves saves out: every run of the store is a run of the plain
      A/B discipline that is no longer. */
  lemma {:induction false} RefinesAb(events: seq<StoreEvent>) returns (plain: seq<AbStore.Event<Table>>)
    ensures |plain| <= |events| && Run(Blank(), plain) == StoreRun(events).node
    decreases |events|
  {
    plain := [];
    if events != [] {
      var s, e := StoreRun(events[..|events| - 1]), events[|events| - 1];
      plain := RefinesAb(events[..|events| - 1]);
      StepRefines(s, e);
      if PlainStep(s, e).Some? {
        RunLast(Blank(), plain, PlainStep(s, e).value);
        plain := plain + [PlainStep(s, e).value];
      }
    }
  }

  /** The gate is that of the last table whose save completed, and only that. */
  predicate GateKnows(s: Store) { s.gate == 0 || (s.node.durable.Some? && s.gate == ContentCrc(s.node.durable.value)) }

  lemma TickKeepsGate(s: Store, table: Table, outcome: Outcome)
    requires GateKnows(s)
    ensures GateKnows(StoreStep(s, Tick(table, outcome)))
  {
    if Touches(s.node.running, s.gate, table) && outcome == Completed {
      assert StoreStep(s, Tick(table, outcome)).node.durable == Some(table);
    }
  }

  lemma GateStepKeeps(s: Store, e: StoreEvent)
    requires GateKnows(s)
    ensures GateKnows(StoreStep(s, e))
  {
    match e
    case Tick(table, outcome) => TickKeepsGate(s, table, outcome);
    case CutInTick(_, _) =>
    case Boots =>
    case PowersOff =>
  }

  lemma {:induction false} GateIsOfLastWritten(events: seq<StoreEvent>)
    ensures GateKnows(StoreRun(events))
    decreases |events|
  {
    if events != [] {
      GateIsOfLastWritten(events[..|events| - 1]);
      GateStepKeeps(StoreRun(events[..|events| - 1]), events[|events| - 1]);
    }
  }

  /** Once a table has been written, whatever follows - power cuts, failed and skipped
      saves, reboots - the next boot finds it or one whose save began later. */
  lemma RoutesAreDurable(events: seq<StoreEvent>)
    requires StoreRun(events).node.durable.Some?
    ensures
      var n := StoreRun(events).node;
      Load(n.flash).Some? && Acceptable(n, Load(n.flash).value.1)
  {
    var plain := RefinesAb(events);
    Durability(plain);
  }

  /** A save that reports success, whether it wrote or skipped, leaves in flash for
      the next boot a table of the same content CRC, or one of a failed save that
      reached the flash after the last write. The table is not empty, and not one of
      CRC 0 that the gate takes for already written. A save that brings the node down
      reports nothing. */
  lemma SuccessIsDurable(events: seq<StoreEvent>, table: Table)
    requires StoreRun(events).node.running.Some?
    requires table != [] && (ContentCrc(table) != 0 || StoreRun(events).gate != 0)
    ensures
      var n := StoreStep(StoreRun(events), Tick(table, Completed)).node;
      n.running.Some? ==>
        && Load(n.flash).Some?
        && var found := Load(n.flash).value.1;
           ContentCrc(found) == ContentCrc(table) || found in n.later
  {
    var s, e := StoreRun(events), Tick(table, Completed);
    GateIsOfLastWritten(events);
    StoreRunLast(events, e);
    TickMakesDurable(s, table);
    if StoreStep(s, e).node.running.Some? { RoutesAreDurable(events + [e]); }
  }

  lemma StoreRunLast(events: seq<StoreEvent>, e: StoreEvent)
    ensures StoreRun(events + [e]) == StoreStep(StoreRun(events), e)
  {
    assert (events + [e])[..|events|] == events;
  }

  lemma TickMakesDurable(s: Store, table: Table)
    requires GateKnows(s) && s.node.running.Some?
    requires table != [] && (ContentCrc(table) != 0 || s.gate != 0)
    ensures
      var n := StoreStep(s, Tick(table, Completed)).node;
      n.running.Some? ==> n.durable.Some? && ContentCrc(n.durable.value) == ContentCrc(table)
  {}

  /** The one table the gate cannot tell from "nothing written yet" is one whose CRC
      is 0: right after boot it is skipped, and nothing else non-empty is. */
  lemma FirstSaveSkippedExactlyForZero(s: Store, table: Table)
    requires s.node.running.Some? && table != []
    ensures var booted := StoreStep(s, Boots);
      StoreStep(booted, Tick(table, Completed)) == booted <==> ContentCrc(table) == 0
  {
    var booted := StoreStep(s, Boots);
    if ContentCrc(table) != 0 {
      var after := StoreStep(booted, Tick(table, Completed));
      assert after.gate != booted.gate || after.node.running.None?;
    }
  }

  /** There is such a table: a node that has learnt only this route after boot never
      stores it, however often it reports success. */
  lemma ZeroTableIsSkipped(s: Store)
    requires s.node.running.Some?
    ensures var booted := StoreStep(s, Boots);
      ValidRoute(ZERO_ROUTE) && StoreStep(booted, Tick([ZERO_ROUTE], Completed)) == booted
  {
    ZeroTable();
    FirstSaveSkippedExactlyForZero(s, [ZERO_ROUTE]);
  }

  /** How many saves of a run of ticks with the same table touch the flash. */
  function Writes(s: Store, table: Table, ticks: seq<Outcome>): nat
    decreases |ticks|
  {
    if ticks == [] then 0
    else
      (if Touches(s.node.running, s.gate, table) then 1 else 0)
      + Writes(StoreStep(s, Tick(table, ticks[0])), table, ticks[1..])
  }

  /** A table that does not change wears the flash once, however often it is saved;
      failures add only themselves. */
  lemma {:induction false} StableTableIsWrittenOnce(s: Store, table: Table, ticks: seq<Outcome>)
    ensures Writes(s, table, ticks) <= 1 + |Failures(ticks)|
    ensures s.node.running.None? || !Passes(table, s.gate) ==> Writes(s, table, ticks) == 0
    decreases |ticks|
  {
    if ticks != [] {
      var next := StoreStep(s, Tick(table, ticks[0]));
      StableTableIsWrittenOnce(next, table, ticks[1..]);
      assert ticks[0] == Completed && s.node.running.Some? ==> next.node.running.None? || !Passes(table, next.gate);
    }
  }

  function Failures(ticks: seq<Outcome>): seq<Outcome> {
    if ticks == [] then []
    else if ticks[0] == Completed then Failures(ticks[1..]) else [ticks[0]] + Failures(ticks[1..])
  }

  /** A save after a table was written, with only one route's quality changed, is
      never mistaken for an unchanged table. */
  lemma QualityChangeIsWritten(s: Store, routes: Table, i: nat, quality: Byte)
    requires s.gate == ContentCrc(routes) && i < |routes| && quality != routes[i].quality
    ensures Passes(routes[i := routes[i].(quality := quality)], s.gate)
  {
    QualityChangeIsNoticed(routes, i, quality);
  }

  // ----- one save -----------------------------------------------------------------

  /** A table as a snapshot of the source yields it. */
  type Routes = t: Table | |t| <= MAX_ROUTES && AllValid(t) witness []

  /** What may go wrong in a save, and what the sector then contains. A silent fault
      is one that erase and write do not report. */
  datatype Fault = NoFault | EraseError(left: Sector) | WriteError(left: Sector) | SilentFault(left: Sector)

  function SavedSector(generation: nat, routes: Routes): Sector
    requires generation < GENERATIONS
  {
    FreshSector(RecordBytes(generation, routes))
  }

  /** What the sector of generation `g` holds after a save that touches the flash. */
  function Left(g: nat, routes: Routes, fault: Fault): Sector
    requires g < GENERATIONS
  {
    if fault.NoFault? then SavedSector(g, routes) else fault.left
  }

  /** There is no read-back: a save succeeds unless erase or write say otherwise. */
  predicate Reported(fault: Fault) { fault.NoFault? || fault.SilentFault? }

  predicate ReadableAs(before: Slot<Table>, g: nat, routes: Table, left: Slot<Table>) {
    left.Invalid? || left == before || left == Record(g, routes)
  }

  /** The hypothesis about interrupted sectors: they read as nothing, as they were, or
      as the complete record. */
  predicate Leaves(before: Sector, g: nat, routes: Routes, left: Sector) {
    ReadableAs(ReadSector(before), g, routes, ReadSector(left))
  }

  // ----- runs over the bytes in flash ---------------------------------------------

  function Slots(s: Sectors): Flash<Table> { Flash(ReadSector(s.a), ReadSector(s.b)) }

  lemma SlotsWith(s: Sectors, g: nat, bytes: Sector)
    ensures Slots(WithSector(s, g, bytes)) == WithSlot(Slots(s), g, ReadSector(bytes))
    ensures SlotOf(Slots(s), g) == ReadSector(SectorOf(s, g))
  {}

  /** Two flash sectors, the service's generation while the node is up, and its gate. */
  datatype Device = Device(sectors: Sectors, running: Option<nat>, gate: Crc.Word)

  datatype Happening =
    | Starts
    | Stops
    | Saves(routes: Routes, fault: Fault)
    | CutInSave(routes: Routes, left: Sector)  // power fails inside a save

  /** A save at generation `g` that touches the flash. */
  function AfterSave(s: Sectors, g: nat, gate: Crc.Word, routes: Routes, fault: Fault): Device
    requires !Exhausted(g)
  {
    var next := NextGeneration(g);
    var sectors := WithSector(s, next, Left(next, routes, fault));
    if Reported(fault) then Device(sectors, Some(next), ContentCrc(routes)) else Device(sectors, Some(g), gate)
  }

  function DeviceStep(d: Device, h: Happening): Device {
    match h
    case Starts => Device(d.sectors, Some(BootGeneration(Slots(d.sectors))), 0)
    case Stops => d.(running := None)
    case Saves(routes, fault) =>
      if d.running.None? || !Passes(routes, d.gate) then d
      else if Exhausted(d.running.value) then d.(running := None)
      else AfterSave(d.sectors, d.running.value, d.gate, routes, fault)
    case CutInSave(routes, left) =>
      if !Touches(d.running, d.gate, routes) then d.(running := None)
      else d.(sectors := WithSector(d.sectors, NextGeneration(d.running.value), left), running := None)
  }

  /** A device with the last table whose save reported that it wrote, and those whose
      save was attempted after it. */
  datatype History = History(device: Device, wrote: Option<Table>, since: seq<Table>)

  function HistoryStep(s: History, h: Happening): History {
    var d := DeviceStep(s.device, h);
    match h
    case Starts => s.(device := d)
    case Stops => s.(device := d)
    case Saves(routes, fault) =>
      if !Touches(s.device.running, s.device.gate, routes) then s.(device := d)
      else if Reported(fault) then History(d, Some(routes), [])
      else s.(device := d, since := s.since + [routes])
    case CutInSave(routes, _) =>
      if !Touches(s.device.running, s.device.gate, routes) then s.(device := d)
      else s.(device := d, since := s.since + [routes])
  }

  function HistoryRun(start: Sectors, hs: seq<Happening>): History
    decreases |hs|
  {
    if hs == [] then History(Device(start, None, 0), None, [])
    else HistoryStep(HistoryRun(start, hs[..|hs| - 1]), hs[|hs| - 1])
  }

  /** The hypothesis for one step: sectors caught in the middle are readable, and a
      write that is reported as done was done. */
  predicate Readable(d: Device, h: Happening) {
    match h
    case Starts => true
    case Stops => true
    case Saves(routes, fault) =>
      Touches(d.running, d.gate, routes) ==>
        && var next := NextGeneration(d.running.value);
        && (fault.SilentFault? ==> ReadSector(fault.left) == Slot<Table>.Record(next, routes))
        && (!Reported(fault) ==> Leaves(SectorOf(d.sectors, next), next, routes, fault.left))
    case CutInSave(routes, left) =>
      Touches(d.running, d.gate, routes) ==>
        var next := NextGeneration(d.running.value);
        Leaves(SectorOf(d.sectors, next), next, routes, left)
  }

  predicate AllReadable(start: Sectors, hs: seq<Happening>)
    decreases |hs|
  {
    hs == [] || (AllReadable(start, hs[..|hs| - 1]) && Readable(HistoryRun(start, hs[..|hs| - 1]).device, hs[|hs| - 1]))
  }

  /** A run over bytes as a state of the store over the A/B model. */
  function Seen(s: History): Store {
    Store(Node(Slots(s.device.sectors), s.device.running, s.wrote, s.since), s.device.gate)
  }

  lemma SavePasses(s: History, routes: Routes, fault: Fault)
    requires Touches(s.device.running, s.device.gate, routes)
    ensures
      var d := AfterSave(s.device.sectors, s.device.running.value, s.device.gate, routes, fault);
      HistoryStep(s, Saves(routes, fault)) ==
        if Reported(fault) then History(d, Some(routes), []) else History(d, s.wrote, s.since + [routes])
  {}

  lemma TickPasses(s: Store, table: Table, o: Outcome)
    requires Touches(s.node.running, s.gate, table)
    ensures StoreStep(s, Tick(table, o)) ==
      Store(Step(s.node, Save(table, o)), if o == Completed then ContentCrc(table) else s.gate)
    ensures StoreStep(s, CutInTick(table, o)) == s.(node := Step(s.node, PowerCut(table, o)))
  {}

  /** What happens where a save does not touch the flash: nothing, or the node goes down. */
  lemma NothingSaved(s: History, routes: Routes, fault: Fault, o: Outcome)
    requires !Touches(s.device.running, s.device.gate, routes)
    ensures HistoryStep(s, Saves(routes, fault)) ==
      if s.device.running.Some? && Passes(routes, s.device.gate) then s.(device := s.device.(running := None)) else s
    ensures StoreStep(Seen(s), Tick(routes, o)) == Seen(HistoryStep(s, Saves(routes, fault)))
  {}

  lemma NothingCut(s: History, routes: Routes, left: Sector, o: Outcome)
    requires !Touches(s.device.running, s.device.gate, routes)
    ensures HistoryStep(s, CutInSave(routes, left)) == s.(device := s.device.(running := None))
    ensures StoreStep(Seen(s), CutInTick(routes, o)) == Store(Seen(s).node.(running := None), s.device.gate)
  {}

  lemma CutPasses(s: History, routes: Routes, left: Sector)
    requires Touches(s.device.running, s.device.gate, routes)
    ensures HistoryStep(s, CutInSave(routes, left)) ==
      History(
        Device(WithSector(s.device.sectors, NextGeneration(s.device.running.value), left), None, s.device.gate),
        s.wrote, s.since + [routes])
  {}

  lemma PassingSaveAgrees(s: History, routes: Routes, fault: Fault, o: Outcome)
    requires Touches(s.device.running, s.device.gate, routes) && (Reported(fault) <==> o == Completed)
    requires
      var next := NextGeneration(s.device.running.value);
      WithSlot(Slots(s.device.sectors), next, ReadSector(Left(next, routes, fault))) ==
        Written(Slots(s.device.sectors), s.device.running.value, routes, o)
    ensures Seen(HistoryStep(s, Saves(routes, fault))) == StoreStep(Seen(s), Tick(routes, o))
  {
    var next := NextGeneration(s.device.running.value);
    SlotsWith(s.device.sectors, next, Left(next, routes, fault));
    SavePasses(s, routes, fault);
    TickPasses(Seen(s), routes, o);
  }

  lemma SaveIsModelled(s: History, routes: Routes, fault: Fault) returns (o: Outcome)
    requires Readable(s.device, Saves(routes, fault))
    ensures Seen(HistoryStep(s, Saves(routes, fault))) == StoreStep(Seen(s), Tick(routes, o))
  {
    o := Completed;
    if Touches(s.device.running, s.device.gate, routes) {
      var g := s.device.running.value;
      var next := NextGeneration(g);
      SavedTableReads(next, routes);
      SlotsWith(s.device.sectors, next, Left(next, routes, fault));
      if !Reported(fault) {
        o := FaultHasOutcome(Slots(s.device.sectors), g, routes, ReadSector(fault.left));
      }
      PassingSaveAgrees(s, routes, fault, o);
    } else {
      NothingSaved(s, routes, fault, o);
    }
  }

  lemma PassingCutAgrees(s: History, routes: Routes, left: Sector, o: Outcome)
    requires Touches(s.device.running, s.device.gate, routes) && o != Completed
    requires
      var next := NextGeneration(s.device.running.value);
      WithSlot(Slots(s.device.sectors), next, ReadSector(left)) ==
        Written(Slots(s.device.sectors), s.device.running.value, routes, o)
    ensures Seen(HistoryStep(s, CutInSave(routes, left))) == StoreStep(Seen(s), CutInTick(routes, o))
  {
    SlotsWith(s.device.sectors, NextGeneration(s.device.running.value), left);
    CutPasses(s, routes, left);
    TickPasses(Seen(s), routes, o);
  }

  lemma CutIsModelled(s: History, routes: Routes, left: Sector) returns (o: Outcome)
    requires Readable(s.device, CutInSave(routes, left))
    ensures Seen(HistoryStep(s, CutInSave(routes, left))) == StoreStep(Seen(s), CutInTick(routes, o))
  {
    o := Torn;
    if Touches(s.device.running, s.device.gate, routes) {
      var g := s.device.running.value;
      SlotsWith(s.device.sectors, NextGeneration(g), left);
      o := FaultHasOutcome(Slots(s.device.sectors), g, routes, ReadSector(left));
      PassingCutAgrees(s, routes, left, o);
    } else {
      NothingCut(s, routes, left, o);
    }
  }

  lemma StepIsModelled(s: History, h: Happening) returns (e: StoreEvent)
    requires Readable(s.device, h)
    ensures Seen(HistoryStep(s, h)) == StoreStep(Seen(s), e)
  {
    match h
    case Starts => e := Boots;
    case Stops => e := PowersOff;
    case Saves(routes, fault) =>
      var o := SaveIsModelled(s, routes, fault);
      e := Tick(routes, o);
    case CutInSave(routes, left) =>
      var o := CutIsModelled(s, routes, left);
      e := CutInTick(routes, o);
  }

  /** Every run over bytes is a run of the store model of the same length. */
  lemma {:induction false} RunIsModelled(start: Sectors, hs: seq<Happening>) returns (events: seq<StoreEvent>)
    requires Slots(start) == Flash(Invalid, Invalid) && AllReadable(start, hs)
    ensures |events| == |hs| && StoreRun(events) == Seen(HistoryRun(start, hs))
    decreases |hs|
  {
    events := [];
    if hs != [] {
      var before := RunIsModelled(start, hs[..|hs| - 1]);
      var e := StepIsModelled(HistoryRun(start, hs[..|hs| - 1]), hs[|hs| - 1]);
      events := before + [e];
      StoreRunLast(before, e);
    }
  }

  /** Once a table has been written, whatever happens then, the node that boots from
      the bytes in flash finds that table or one whose save was attempted later. */
  lemma WrittenRoutesSurvive(start: Sectors, hs: seq<Happening>)
    requires Slots(start) == Flash(Invalid, Invalid) && AllReadable(start, hs)
    requires HistoryRun(start, hs).wrote.Some?
    ensures
      var s := HistoryRun(start, hs);
      var loaded := Load(Slots(s.device.sectors));
      loaded.Some? && (s.wrote == Some(loaded.value.1) || loaded.value.1 in s.since)
  {
    var events := RunIsModelled(start, hs);
    RoutesAreDurable(events);
  }

  // ----- what the missing read-back costs -------------------------------------------

  /** What the read-back of the configuration store looks for. */
  predicate OfGeneration(s: Slot<Table>, g: nat) { s.Record? && s.generation == g }

  /** A silent fault leaves, unseen, what a failed save of the same generation left. */
  predicate StaleLeft(before: Slot<Table>, g: nat, routes: Table, left: Slot<Table>) {
    OfGeneration(before, g) && before.value != routes && left == before
  }

  /** Whatever happened before, a save behind which erase and write reported success is
      what the next boot finds exactly if the sector reads back as the configuration
      store demands of it, a stale record apart. */
  lemma WroteIsDurableExactlyWhen(start: Sectors, hs: seq<Happening>, routes: Routes, left: Sector)
    requires Slots(start) == Flash(Invalid, Invalid) && AllReadable(start, hs)
    requires
      var d := HistoryRun(start, hs).device;
      Touches(d.running, d.gate, routes) && Permitted(d, routes, left)
    ensures
      var d := HistoryRun(start, hs).device;
      var next := NextGeneration(d.running.value);
      var after := DeviceStep(d, Saves(routes, SilentFault(left)));
      && after.running == Some(next) && after.gate == ContentCrc(routes)
      && (Load(Slots(after.sectors)) == Some((next, routes)) <==>
          (OfGeneration(ReadSector(left), next) && !StaleLeft(SlotOf(Slots(d.sectors), next), next, routes, ReadSector(left))))
  {
    var d := HistoryRun(start, hs).device;
    var n, g := ReachedIsKnown(start, hs);
    StepPasses(d, routes, SilentFault(left));
    SilentSaveAt(n, g, NextGeneration(g), d.sectors, d.gate, routes, left);
  }

  /** A silent fault under the hypothesis about interrupted sectors. */
  predicate Permitted(d: Device, routes: Routes, left: Sector)
    requires d.running.Some?
  {
    Leaves(SectorOf(d.sectors, NextGeneration(d.running.value)), NextGeneration(d.running.value), routes, left)
  }

  lemma ReachedIsKnown(start: Sectors, hs: seq<Happening>) returns (n: Node<Table>, g: nat)
    requires Slots(start) == Flash(Invalid, Invalid) && AllReadable(start, hs)
    ensures Known(n, g)
    ensures
      var d := HistoryRun(start, hs).device;
      n.flash == Slots(d.sectors) && (d.running.Some? ==> d.running.value == g)
  {
    var events := RunIsModelled(start, hs);
    var plain := RefinesAb(events);
    n := Run(Blank(), plain);
    g := RunKeeps(plain);
  }

  lemma SilentSaveAt(n: Node<Table>, g: nat, next: nat, s: Sectors, gate: Crc.Word, routes: Routes, left: Sector)
    requires Known(n, g) && n.flash == Slots(s) && next == NextGeneration(g) && !Exhausted(g)
    requires Leaves(SectorOf(s, next), next, routes, left)
    ensures
      var after := AfterSave(s, g, gate, routes, SilentFault(left));
      && after.running == Some(next) && after.gate == ContentCrc(routes)
      && (Load(Slots(after.sectors)) == Some((next, routes)) <==>
          (OfGeneration(ReadSector(left), next) && !StaleLeft(SlotOf(Slots(s), next), next, routes, ReadSector(left))))
  {
    AfterSilent(s, g, next, gate, routes, left);
    SlotsWith(s, next, left);
    SilentSlot(n, g, next, ReadSector(SectorOf(s, next)), ReadSector(left), routes);
  }

  lemma StepPasses(d: Device, routes: Routes, fault: Fault)
    requires Touches(d.running, d.gate, routes)
    ensures DeviceStep(d, Saves(routes, fault)) == AfterSave(d.sectors, d.running.value, d.gate, routes, fault)
  {}

  lemma AfterSilent(s: Sectors, g: nat, next: nat, gate: Crc.Word, routes: Routes, left: Sector)
    requires next == NextGeneration(g) && !Exhausted(g)
    ensures AfterSave(s, g, gate, routes, SilentFault(left)) ==
      Device(WithSector(s, next, left), Some(next), ContentCrc(routes))
  {}

  lemma SilentSlot(n: Node<Table>, g: nat, next: nat, before: Slot<Table>, left: Slot<Table>, routes: Table)
    requires Known(n, g) && next == NextGeneration(g) && ReadableAs(before, next, routes, left)
    ensures Load(WithSlot(n.flash, next, left)) == Some((next, routes)) <==>
      OfGeneration(left, next) && !StaleLeft(before, next, routes, left)
  {
    NewestIsLoaded(n, g, left);
  }

  /** Boot takes the sector of the next generation exactly if it holds a record of it. */
  lemma NewestIsLoaded(n: Node<Table>, g: nat, left: Slot<Table>)
    requires Known(n, g)
    ensures
      var loaded := Load(WithSlot(n.flash, g + 1, left));
      (loaded.Some? && loaded.value.0 == g + 1) <==> OfGeneration(left, g + 1)
    ensures OfGeneration(left, g + 1) ==> Load(WithSlot(n.flash, g + 1, left)) == Some((g + 1, left.value))
  {
    SlotLaws(n.flash, g, left);
  }

  /** The table that boot loads from a slot pair. */
  predicate Finds(f: Flash<Table>, routes: Table) { Load(f).Some? && Load(f).value.1 == routes }

  predicate FindsAfter(d: Device, routes: Routes, left: Sector) {
    Finds(Slots(DeviceStep(d, Saves(routes, SilentFault(left))).sectors), routes)
  }

  /** Whatever silent fault, boot finds the table whose save was reported. */
  ghost predicate WroteIsTrue(d: Device, routes: Routes)
    requires Touches(d.running, d.gate, routes)
  {
    forall left :: Permitted(d, routes, left) ==> FindsAfter(d, routes, left)
  }

  /** In every reachable state and for every table that gets to the flash, that the save
      reports success can be relied on exactly when the table was there already, in the
      service's own sector, and the other one held no stale record. */
  lemma WroteIsTrueExactlyWhen(start: Sectors, hs: seq<Happening>, routes: Routes)
    requires Slots(start) == Flash(Invalid, Invalid) && AllReadable(start, hs)
    requires Touches(HistoryRun(start, hs).device.running, HistoryRun(start, hs).device.gate, routes)
    ensures
      var d := HistoryRun(start, hs).device;
      WroteIsTrue(d, routes) <==> AlreadyThere(Slots(d.sectors), d.running.value, routes)
  {
    var n, g := ReachedIsKnown(start, hs);
    WroteIsTrueAt(n, g, HistoryRun(start, hs).device, routes);
  }

  lemma WroteIsTrueAt(n: Node<Table>, g: nat, d: Device, routes: Routes)
    requires Known(n, g) && n.flash == Slots(d.sectors) && d.running == Some(g) && Touches(d.running, d.gate, routes)
    ensures WroteIsTrue(d, routes) <==> AlreadyThere(n.flash, g, routes)
  {
    if AlreadyThere(n.flash, g, routes) {
      forall left | Permitted(d, routes, left) ensures FindsAfter(d, routes, left) {
        FoundAfter(n, g, d, routes, left);
      }
    } else {
      var left := SomeLoss(n, g, d, routes);
    }
  }

  lemma FoundAfter(n: Node<Table>, g: nat, d: Device, routes: Routes, left: Sector)
    requires Known(n, g) && n.flash == Slots(d.sectors) && d.running == Some(g) && Touches(d.running, d.gate, routes)
    requires AlreadyThere(n.flash, g, routes) && Permitted(d, routes, left)
    ensures FindsAfter(d, routes, left)
  {
    SlotsWith(d.sectors, NextGeneration(g), left);
    SilentSlots(d, g, routes, left);
    FoundAnyway(n, g, NextGeneration(g), ReadSector(left), routes);
  }

  lemma SilentSlots(d: Device, g: nat, routes: Routes, left: Sector)
    requires d.running == Some(g) && Touches(d.running, d.gate, routes)
    ensures Slots(DeviceStep(d, Saves(routes, SilentFault(left))).sectors)
      == WithSlot(Slots(d.sectors), NextGeneration(g), ReadSector(left))
  {
    StepPasses(d, routes, SilentFault(left));
    AfterSilent(d.sectors, g, NextGeneration(g), d.gate, routes, left);
    SlotsWith(d.sectors, NextGeneration(g), left);
  }

  /** The running service's own record holds the table, and the sector to be written no
      stale record. */
  predicate AlreadyThere(f: Flash<Table>, g: nat, routes: Table) {
    var own, other, next := SlotOf(f, g), SlotOf(f, NextGeneration(g)), NextGeneration(g);
    && own.Record? && own.value == routes
    && (OfGeneration(other, next) ==> other.value == routes)
  }

  lemma FoundAnyway(n: Node<Table>, g: nat, next: nat, left: Slot<Table>, routes: Table)
    requires Known(n, g) && next == NextGeneration(g) && AlreadyThere(n.flash, g, routes)
    requires ReadableAs(SlotOf(n.flash, next), next, routes, left)
    ensures Finds(WithSlot(n.flash, next, left), routes)
  {
    SlotLaws(n.flash, g, left);
  }

  lemma NotFound(n: Node<Table>, g: nat, next: nat, left: Slot<Table>, routes: Table)
    requires Known(n, g) && next == NextGeneration(g) && !AlreadyThere(n.flash, g, routes)
    requires
      var own, other := SlotOf(n.flash, g), SlotOf(n.flash, next);
      left == if own.Record? && own.value == routes then other else Invalid
    ensures !Finds(WithSlot(n.flash, next, left), routes)
  {
    SlotLaws(n.flash, g, left);
  }

  /** A permitted silent fault behind which boot finds another table, or none. */
  lemma SomeLoss(n: Node<Table>, g: nat, d: Device, routes: Routes) returns (left: Sector)
    requires Known(n, g) && n.flash == Slots(d.sectors) && d.running == Some(g) && Touches(d.running, d.gate, routes)
    requires !AlreadyThere(n.flash, g, routes)
    ensures Permitted(d, routes, left) && !FindsAfter(d, routes, left)
  {
    var next := NextGeneration(g);
    var own := SlotOf(n.flash, g);
    left := LossLeft(n, g, d.sectors, routes);
    SilentSlots(d, g, routes, left);
    NotFound(n, g, next, ReadSector(left), routes);
  }

  lemma LossLeft(n: Node<Table>, g: nat, s: Sectors, routes: Routes) returns (left: Sector)
    requires n.flash == Slots(s)
    ensures
      var own, other := SlotOf(n.flash, g), SlotOf(n.flash, NextGeneration(g));
      ReadSector(left) == if own.Record? && own.value == routes then other else Invalid
    ensures Leaves(SectorOf(s, NextGeneration(g)), NextGeneration(g), routes, left)
  {
    var next := NextGeneration(g);
    var own := SlotOf(n.flash, g);
    SlotsWith(s, next, s.a);
    if own.Record? && own.value == routes {
      left := SectorOf(s, next);
    } else {
      left := Erased(SECTOR);
      ErasedHasNoHeader(MAGIC);
    }
  }

  /** Two erased sectors are a blank store. */
  lemma ErasedIsBlank()
    ensures Slots(Sectors(Erased(SECTOR), Erased(SECTOR))) == Flash(Invalid, Invalid)
  {
    ErasedHasNoHeader(MAGIC);
  }

  /** The first save of a node writes nothing and nobody notices: it reports that it
      wrote, boot would find no routes, and until a reboot the table is not saved again. */
  lemma NothingWritten(routes: Routes)
    requires routes != [] && ContentCrc(routes) != 0
    ensures
      var blank := Sectors(Erased(SECTOR), Erased(SECTOR));
      var booted := DeviceStep(Device(blank, None, 0), Starts);
      var after := DeviceStep(booted, Saves(routes, SilentFault(Erased(SECTOR))));
      && after == Device(blank, Some(1), ContentCrc(routes))
      && Load(Slots(after.sectors)).None?
      && DeviceStep(after, Saves(routes, NoFault)) == after
  {
    ErasedIsBlank();
    assert NextGeneration(0) == 1;
  }

  /** Worse, the generation has moved on all the same: the save after the silent one
      erases the only good record, and a power cut then leaves nothing, although two
      saves had reported success. */
  lemma SilentLossForgetsAll(first: Routes, second: Routes, third: Routes)
    requires Passes(first, 0) && Passes(second, ContentCrc(first)) && Passes(third, ContentCrc(second))
    ensures
      var blank := Sectors(Erased(SECTOR), Erased(SECTOR));
      var booted := DeviceStep(Device(blank, None, 0), Starts);
      var one := DeviceStep(booted, Saves(first, NoFault));
      var two := DeviceStep(one, Saves(second, SilentFault(Erased(SECTOR))));
      var three := DeviceStep(two, CutInSave(third, Erased(SECTOR)));
      && Load(Slots(one.sectors)) == Some((1, first))
      && Load(Slots(two.sectors)) == Some((1, first)) && two.running == Some(2)
      && Load(Slots(three.sectors)).None?
  {
    var blank, lost := Sectors(Erased(SECTOR), Erased(SECTOR)), SilentFault(Erased(SECTOR));
    var one := blank.(b := SavedSector(1, first));
    OnlyFirst(first);
    StepPasses(Device(blank, Some(0), 0), first, NoFault);
    FirstSave(blank, 0, first, NoFault);
    StepPasses(Device(one, Some(1), ContentCrc(first)), second, lost);
    SecondSave(one, ContentCrc(first), second, lost);
    CutInThird(one, ContentCrc(second), third);
  }

  lemma OnlyFirst(first: Routes)
    ensures
      var blank := Sectors(Erased(SECTOR), Erased(SECTOR));
      && Load(Slots(blank)).None? && DeviceStep(Device(blank, None, 0), Starts) == Device(blank, Some(0), 0)
      && Load(Slots(blank.(b := SavedSector(1, first)))) == Some((1, first))
  {
    ErasedIsBlank();
    SavedTableReads(1, first);
  }

  lemma CutInThird(s: Sectors, gate: Crc.Word, routes: Routes)
    requires Passes(routes, gate)
    ensures DeviceStep(Device(s, Some(2), gate), CutInSave(routes, Erased(SECTOR))) == Device(s.(b := Erased(SECTOR)), None, gate)
  {
    assert NextGeneration(2) == 3;
  }

  lemma FirstSave(s: Sectors, gate: Crc.Word, routes: Routes, fault: Fault)
    requires Reported(fault)
    ensures AfterSave(s, 0, gate, routes, fault) == Device(s.(b := Left(1, routes, fault)), Some(1), ContentCrc(routes))
  {
    assert NextGeneration(0) == 1;
  }

  lemma SecondSave(s: Sectors, gate: Crc.Word, routes: Routes, fault: Fault)
    requires Reported(fault)
    ensures AfterSave(s, 1, gate, routes, fault) == Device(s.(a := Left(2, routes, fault)), Some(2), ContentCrc(routes))
  {
    assert NextGeneration(1) == 2;
  }

  // ----- the store as the source runs it ------------------------------------------

  /** How a call to save ends: a checked increment past the last generation panics. */
  datatype SaveOutcome = Unchanged | Wrote(count: nat) | Empty | Failed | Panicked

  /** The store of a node; `up` until the node goes down in a panic. */
  class RoutingStore {
    var sectorA: Sector
    var sectorB: Sector
    var generation: nat
    var up: bool
    var contentCrc: Crc.Word

    ghost predicate Valid()
      reads this`generation
    {
      generation < GENERATIONS
    }

    function State(): Device
      reads this
    {
      Device(Sectors(sectorA, sectorB), if up then Some(generation) else None, contentCrc)
    }

    constructor (a: Sector, b: Sector)
      ensures Valid() && State() == Device(Sectors(a, b), Some(0), 0)
    {
      sectorA, sectorB := a, b;
      generation, contentCrc, up := 0, 0, true;
    }

    /** Boot: the routes to replay, and the generation to go on from. */
    method LoadRoutes() returns (routes: Table)
      requires Valid() && up
      modifies this`generation
      ensures Valid() && State() == old(State()).(running := Some(BootGeneration(Slots(old(State().sectors)))))
      ensures
        var loaded := Load(Slots(old(State().sectors)));
        routes == if loaded.Some? then loaded.value.1 else []
    {
      var loaded := Load(Flash(ReadSector(sectorA), ReadSector(sectorB)));
      GenerationsFit(sectorA);
      GenerationsFit(sectorB);
      generation := if loaded.Some? then loaded.value.0 else 0;
      routes := if loaded.Some? then loaded.value.1 else [];
    }

    method SaveRoutes(best: Table, fault: Fault) returns (r: SaveOutcome)
      requires Valid() && up && AllValid(best)
      modifies this
      ensures Valid() && (up <==> r != Panicked)
      ensures State() == DeviceStep(old(State()), Saves(Snapshot(best), fault))
      ensures
        var routes := Snapshot(best);
        r == if routes == [] then Empty
             else if ContentCrc(routes) == old(contentCrc) then Unchanged
             else if Exhausted(old(generation)) then Panicked
             else if Reported(fault) then Wrote(|routes|) else Failed
    {
      var routes := Snapshot(best);
      if routes == [] {
        return Empty;
      }
      var body := ContentOf(routes);
      var content := Crc.ComputeCrc(body);
      if content == contentCrc {
        return Unchanged;
      }
      if Exhausted(generation) {
        up := false;
        return Panicked;
      }
      StepPasses(State(), routes, fault);
      var ok := WriteTable(routes, content, fault);
      return if ok then Wrote(|routes|) else Failed;
    }

    /** Erase and write the sector of the next generation; generation and content CRC are
        adopted without reading back. */
    method WriteTable(routes: Routes, content: Crc.Word, fault: Fault) returns (ok: bool)
      requires Valid() && up && !Exhausted(generation) && content == ContentCrc(routes)
      modifies this`sectorA, this`sectorB, this`generation, this`contentCrc
      ensures Valid() && (ok <==> Reported(fault))
      ensures State() == AfterSave(old(State().sectors), old(generation), old(contentCrc), routes, fault)
    {
      var next := NextGeneration(generation);
      if !fault.NoFault? {
        PutSector(next, fault.left);
      } else {
        PutSector(next, SavedSector(next, routes));
      }
      ok := !fault.EraseError? && !fault.WriteError?;
      if ok {
        generation, contentCrc := next, content;
      }
    }

    method PutSector(g: nat, bytes: Sector)
      modifies this`sectorA, this`sectorB
      ensures Sectors(sectorA, sectorB) == WithSector(old(Sectors(sectorA, sectorB)), g, bytes)
    {
      if g % 2 == 0 {
        sectorA := bytes;
      } else {
        sectorB := bytes;
      }
    }
  }

  lemma GenerationsFit(sector: Sector)
    ensures ReadSector(sector).Record? ==> ReadSector(sector).generation < GENERATIONS
  {}
}
