/**
 The A/B discipline shared by the configuration store and the routing store:
 two flash sectors, records numbered by a generation, the next record always
 written to the sector of its generation's parity, and boot taking the valid
 record with the higher generation.

 Sectors are seen here through what reading them yields. A sector caught by a
 power cut or a flash error in the middle of its erase or write is taken to
 read as invalid, as untouched, or as the complete new record.
 */
module AbStore {
  import opened Common

  const GENERATIONS: nat := 0x1_0000_0000

  datatype Slot<T> = Invalid | Record(generation: nat, value: T)

  datatype Flash<T> = Flash(a: Slot<T>, b: Slot<T>)

  function Load<T>(f: Flash<T>): Option<(nat, T)> {
    match (f.a, f.b)
    case (Record(ga, va), Record(gb, vb)) => if ga >= gb then Some((ga, va)) else Some((gb, vb))
    case (Record(ga, va), Invalid) => Some((ga, va))
    case (Invalid, Record(gb, vb)) => Some((gb, vb))
    case (Invalid, Invalid) => None
  }

  /** The newer record is loaded, the first sector's if neither is; nothing exactly if there
      is no record. */
  lemma LoadsTheNewer<T>(f: Flash<T>)
    ensures Load(f).None? <==> f.a.Invalid? && f.b.Invalid?
    ensures f.a.Record? && (f.b.Record? ==> f.a.generation >= f.b.generation) ==> Load(f) == Some((f.a.generation, f.a.value))
    ensures f.b.Record? && (f.a.Record? ==> f.b.generation > f.a.generation) ==> Load(f) == Some((f.b.generation, f.b.value))
  {}

  /** The generation a service starts with: that of the loaded record, or 0. */
  function BootGeneration<T>(f: Flash<T>): nat {
    if Load(f).Some? then Load(f).value.0 else 0
  }

  /** Generations are 32-bit and never wrap: the increment past the last one is checked,
      and a save that would need it brings the node down before it touches flash. */
  predicate Exhausted(g: nat) { NextGeneration(g) >= GENERATIONS }

  function NextGeneration(g: nat): nat { g + 1 }

  function SlotOf<T>(f: Flash<T>, generation: nat): Slot<T> {
    if generation % 2 == 0 then f.a else f.b
  }

  function WithSlot<T>(f: Flash<T>, generation: nat, s: Slot<T>): Flash<T> {
    if generation % 2 == 0 then f.(a := s) else f.(b := s)
  }

  /** How a save can end. */
  datatype Outcome = Completed | Torn | Untouched | LandedButFailed

  datatype Event<T> =
    | Boot
    | Save(value: T, outcome: Outcome)
    | PowerCut(value: T, outcome: Outcome)  // power fails inside a save
    | PowerOff

  /** A node: its flash, the generation of its running service if it is up, the
      value of the last save that reported success, and the values whose save
      was attempted after that one. */
  datatype Node<T> = Node(flash: Flash<T>, running: Option<nat>, durable: Option<T>, later: seq<T>)

  /** What a save of `v` at service generation `g` leaves in flash, if it gets there. */
  function Written<T>(f: Flash<T>, g: nat, v: T, outcome: Outcome): Flash<T> {
    var next := NextGeneration(g);
    match outcome
    case Completed => WithSlot(f, next, Record(next, v))
    case LandedButFailed => WithSlot(f, next, Record(next, v))
    case Torn => WithSlot(f, next, Invalid)
    case Untouched => f
  }

  function Step<T>(n: Node<T>, e: Event<T>): Node<T> {
    match e
    case Boot => n.(running := Some(BootGeneration(n.flash)))
    case PowerOff => n.(running := None)
    case Save(v, outcome) =>
      if n.running.None? then n
      else if Exhausted(n.running.value) then n.(running := None)
      else if outcome == Completed then
        Node(Written(n.flash, n.running.value, v, outcome), Some(NextGeneration(n.running.value)), Some(v), [])
      else
        n.(flash := Written(n.flash, n.running.value, v, outcome), later := n.later + [v])
    case PowerCut(v, outcome) =>
      if n.running.None? then n
      else if Exhausted(n.running.value) then n.(running := None)
      else n.(flash := Written(n.flash, n.running.value, v, outcome), running := None, later := n.later + [v])
  }

  function Run<T>(n: Node<T>, events: seq<Event<T>>): Node<T>
    decreases |events|
  {
    if events == [] then n else Step(Run(n, events[..|events| - 1]), events[|events| - 1])
  }

  function Blank<T>(): Node<T> { Node(Flash(Invalid, Invalid), None, None, []) }

  /** An interrupted sector that reads as nothing, as it was, or as the complete
      record makes the save end in one of these outcomes. */
  lemma FaultHasOutcome<T>(f: Flash<T>, g: nat, v: T, left: Slot<T>) returns (o: Outcome)
    requires left.Invalid? || left == SlotOf(f, NextGeneration(g)) || left == Record(NextGeneration(g), v)
    ensures o != Completed && WithSlot(f, NextGeneration(g), left) == Written(f, g, v, o)
  {
    o := if left.Invalid? then Torn else if left == Record(NextGeneration(g), v) then LandedButFailed else Untouched;
  }

  // ----- the invariant --------------------------------------------------------

  predicate Acceptable<T(==)>(n: Node<T>, v: T) {
    n.durable == Some(v) || v in n.later
  }

  /** Flash as a service of generation `g` knows it: its own record is in its
      own sector, and the other sector holds nothing, something older, or the
      record of an attempt made since. No generation is past the last. */
  predicate Known<T(==)>(n: Node<T>, g: nat) {
    && g < GENERATIONS
    && (match SlotOf(n.flash, g)
        case Invalid => g == 0 && n.durable.None?
        case Record(h, v) => h == g && Acceptable(n, v))
    && (match SlotOf(n.flash, g + 1)
        case Invalid => true
        case Record(h, v) => h < GENERATIONS && h % 2 != g % 2 && (h < g || (h == g + 1 && Acceptable(n, v))))
  }

  predicate Invariant<T(==)>(n: Node<T>, g: nat) {
    Known(n, g) && (n.running.Some? ==> n.running.value == g)
  }

  lemma SlotLaws<T>(f: Flash<T>, g: nat, s: Slot<T>)
    ensures SlotOf(WithSlot(f, g + 1, s), g + 1) == s
    ensures SlotOf(WithSlot(f, g + 1, s), g) == SlotOf(f, g)
    ensures SlotOf(f, g + 2) == SlotOf(f, g)
  {}

  /** Boot finds the known record, or that of a later attempt that landed. */
  lemma LoadIsNewest<T>(n: Node<T>, g: nat)
    requires Known(n, g)
    ensures Load(n.flash).None? ==> g == 0 && n.durable.None? && SlotOf(n.flash, 0).Invalid?
    ensures Load(n.flash).Some? ==>
      (Load(n.flash).value.0 == g || Load(n.flash).value.0 == g + 1) && Acceptable(n, Load(n.flash).value.1)
  {}

  lemma StepKeeps<T>(n: Node<T>, g: nat, e: Event<T>) returns (g': nat)
    requires Invariant(n, g)
    ensures Invariant(Step(n, e), g')
  {
    g' := g;
    match e
    case Boot =>
      LoadIsNewest(n, g);
      g' := BootGeneration(n.flash);
      SlotLaws(n.flash, g, Invalid);
    case PowerOff =>
    case Save(v, outcome) =>
      if n.running.Some? && !Exhausted(g) {
        g' := if outcome == Completed then g + 1 else g;
        SaveKeepsKnown(n, g, v, outcome);
      }
    case PowerCut(v, outcome) =>
      if n.running.Some? && !Exhausted(g) {
        SaveKeepsKnown(n, g, v, outcome);
      }
  }

  lemma SaveKeepsKnown<T>(n: Node<T>, g: nat, v: T, outcome: Outcome)
    requires Invariant(n, g) && !Exhausted(g) && n.running.Some?
    ensures Known(n.(flash := Written(n.flash, g, v, outcome), later := n.later + [v]), g)
    ensures outcome == Completed ==>
      Known(Node(Written(n.flash, g, v, outcome), Some(g + 1), Some(v), []), g + 1)
  {
    assert v in n.later + [v];
    SlotLaws(n.flash, g, Record(g + 1, v));
    SlotLaws(n.flash, g, Invalid);
    SlotLaws(Written(n.flash, g, v, outcome), g, Invalid);
  }

  lemma {:induction false} RunKeeps<T>(events: seq<Event<T>>) returns (g: nat)
    ensures Invariant(Run(Blank(), events), g)
    decreases |events|
  {
    if events == [] {
      g := 0;
    } else {
      var before := RunKeeps(events[..|events| - 1]);
      g := StepKeeps(Run(Blank(), events[..|events| - 1]), before, events[|events| - 1]);
    }
  }

  /** Once a save has reported success, whatever follows - failed saves, torn
      sectors, power cuts, reboots, however many - the next boot loads that value or
      one whose save was attempted later. */
  lemma Durability<T>(events: seq<Event<T>>)
    requires Run(Blank<T>(), events).durable.Some?
    ensures
      var n := Run(Blank<T>(), events);
      Load(n.flash).Some? && Acceptable(n, Load(n.flash).value.1)
  {
    var g := RunKeeps(events);
    LoadIsNewest(Run(Blank(), events), g);
  }

  lemma OtherSectorIsSpare<T>(n: Node<T>, g: nat)
    requires Invariant(n, g) && n.running.Some? && n.durable.Some?
    ensures
      var erased := Load(WithSlot(n.flash, NextGeneration(n.running.value), Invalid));
      erased.Some? && Acceptable(n, erased.value.1)
  {}

  /** The sector a save is about to erase never holds the record the node would
      have to fall back to: were that sector lost, boot would still find an
      acceptable record. */
  lemma NeverErasesTheNewest<T>(events: seq<Event<T>>)
    requires Run(Blank<T>(), events).running.Some? && Run(Blank<T>(), events).durable.Some?
    ensures
      var n := Run(Blank<T>(), events);
      var erased := Load(WithSlot(n.flash, NextGeneration(n.running.value), Invalid));
      erased.Some? && Acceptable(n, erased.value.1)
  {
    var n := Run(Blank<T>(), events);
    var g := RunKeeps<T>(events);
    OtherSectorIsSpare(n, g);
  }

  /** In every reachable state a save can report success exactly while there is a next
      32-bit generation, and then it is what the next boot loads; without one the node
      goes down, with flash as it was and boot finding what it would have found. */
  lemma SavesUntilExhausted<T>(events: seq<Event<T>>, v: T)
    requires Run(Blank<T>(), events).running.Some?
    ensures
      var n := Run(Blank<T>(), events);
      var g, after := n.running.value, Step(n, Save(v, Completed));
      && (after.running.Some? <==> g + 1 < GENERATIONS)
      && (if after.running.Some? then
            after.running == Some(g + 1) && after.durable == Some(v) && after.later == [] && Load(after.flash) == Some((g + 1, v))
          else after.flash == n.flash && after.durable == n.durable && after.later == n.later)
  {
    var n := Run(Blank<T>(), events);
    var g := RunKeeps(events);
    SlotLaws(n.flash, g, Record(g + 1, v));
  }

  /** A boot and `n` saves of the same value. */
  function ManySaves<T>(v: T, n: nat): seq<Event<T>> {
    if n == 0 then [Boot] else ManySaves(v, n - 1) + [Save(v, Completed)]
  }

  lemma RunLast<T>(n: Node<T>, events: seq<Event<T>>, e: Event<T>)
    ensures Run(n, events + [e]) == Step(Run(n, events), e)
  {
    assert (events + [e])[..|events|] == events;
  }

  lemma {:induction false} AfterManySaves<T>(v: T, n: nat)
    requires n < GENERATIONS
    ensures Run(Blank(), ManySaves(v, n)).running == Some(n)
    ensures n > 0 ==> Run(Blank(), ManySaves(v, n)).durable == Some(v)
  {
    if n == 0 {
      RunLast(Blank<T>(), [], Boot);
      assert [] + [Boot] == ManySaves(v, 0);
    } else {
      AfterManySaves(v, n - 1);
      RunLast(Blank(), ManySaves(v, n - 1), Save(v, Completed));
      OneMoreSave(Run(Blank(), ManySaves(v, n - 1)), n, v);
    }
  }

  lemma OneMoreSave<T>(node: Node<T>, n: nat, v: T)
    requires 0 < n < GENERATIONS && node.running == Some(n - 1)
    ensures Step(node, Save(v, Completed)).running == Some(n) && Step(node, Save(v, Completed)).durable == Some(v)
  {}

  /** The end is reached: after 2^32 - 1 saves of `v` the next save of anything brings
      the node down, the next boot still loads `v`, and so it goes from then on. */
  lemma ExhaustedKeepsTheLast<T>(v: T, w: T, outcome: Outcome)
    ensures
      var n := Run(Blank(), ManySaves(v, GENERATIONS - 1));
      var down := Step(n, Save(w, outcome));
      && n.running == Some(GENERATIONS - 1) && down == n.(running := None)
      && Load(down.flash) == Some((GENERATIONS - 1, v)) && Step(down, Boot) == n
  {
    var last: nat := GENERATIONS - 1;
    AfterManySaves(v, last);
    var before := ManySaves(v, last - 1);
    AfterManySaves(v, last - 1);
    RunLast(Blank(), before, Save(v, Completed));
    SavesUntilExhausted(before, v);
  }
}
