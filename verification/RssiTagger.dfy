/** The signal-strength tagger as the source runs it (radio/rssi_tagging.rs). */
module RssiTagger {
  import opened Common
  import opened NoiseFloor
  import opened Ring
  import opened RssiLevels

  datatype Metadata = Metadata(
    rssi: Option<int>, snr: Option<int>, floor: Option<int>, min: Option<int>, max: Option<int>, count: nat,
    rise: Option<nat>, burstIndex: Option<nat>, airtime: Option<nat>, preData: Option<int>)

  /** Up to when a window's samples count for a frame. */
  function WindowEnd(w: Window, received: nat): nat {
    if w.fall.Some? && w.fall.value < received then w.fall.value else received
  }

  /** The metadata of a frame in a window, from the levels taken while it was open. */
  function InWindow(levels: seq<int>, w: Window, received: nat, floor: Option<int>, air: Option<nat>): Metadata {
    var s := Summary(levels);
    Metadata(
      if s.Some? then Some(s.value.median) else None,
      if s.Some? && floor.Some? then Some(s.value.median - floor.value) else None,
      floor,
      if s.Some? then Some(s.value.min) else None,
      if s.Some? then Some(s.value.max) else None,
      if s.Some? then s.value.count else 0,
      Some(w.rise), Some(w.frames), air,
      if w.frames == 0 && air.Some? then Some(received - air.value - w.rise) else None)
  }

  /** Without a window, from the levels of the lookback that stand above the floor. */
  function ByThreshold(levels: seq<int>, floor: Option<int>, air: Option<nat>): Option<Metadata> {
    var s := Summary(levels);
    if s.None? then
      if air.None? then None else Some(Metadata(None, None, None, None, None, 0, None, None, air, None))
    else
      var st := s.value;
      Some(Metadata(
        Some(st.median), if floor.Some? then Some(st.median - floor.value) else None, floor,
        Some(st.min), Some(st.max), st.count, None, None, air, None))
  }

  function LookbackStart(received: nat, c: Config): nat { if received <= c.lookback then 0 else received - c.lookback }

  // ----- what the metadata says -----------------------------------------------------------

  /** The samples taken in a window until the frame arrived. */
  function TakenIn(samples: seq<Sample>, w: Window, received: nat): set<nat> {
    set i: nat | i < |samples| && w.rise <= samples[i].at <= received && (w.fall.Some? ==> samples[i].at <= w.fall.value)
  }

  /** The samples of the lookback that stand the threshold above the floor, as far as
      sixteen bits go. */
  function SignalIn(samples: seq<Sample>, received: nat, floor: Option<int>, c: Config): set<nat> {
    set i: nat | i < |samples| && samples[i].at <= received <= samples[i].at + c.lookback
      && (floor.None? || StandsOut(samples[i].level, floor.value + c.threshold))
  }

  predicate StandsOut(level: int, bar: int) { (level >= bar || level >= 32767) && level >= -32768 }

  /** The level in the middle of any ascending arrangement. */
  ghost predicate IsMiddle(level: int, levels: seq<int>) {
    forall sorted :: Ascending(sorted) && multiset(sorted) == multiset(levels) ==>
      sorted != [] && sorted[|sorted| / 2] == level
  }

  /** Least, greatest, middle and number are those of the levels of these samples, and the
      ratio is the middle above the floor. */
  ghost predicate Describes(m: Metadata, samples: seq<Sample>, at: set<nat>, levels: seq<int>, floor: Option<int>) {
    && m.count == |at| && LevelsOf(levels, samples, at)
    && (at == {} ==> m.rssi == None && m.min == None && m.max == None && m.snr == None)
    && (at != {} ==>
          && m.rssi.Some? && m.min.Some? && m.max.Some?
          && (forall i :: i in at && i < |samples| ==> m.min.value <= samples[i].level <= m.max.value)
          && Occurs(samples, at, m.min.value) && Occurs(samples, at, m.max.value) && Occurs(samples, at, m.rssi.value)
          && IsMiddle(m.rssi.value, levels)
          && m.snr == if floor.Some? then Some(m.rssi.value - floor.value) else None)
  }

  /** Whole microseconds on air of a frame with its check word and flag, at a known rate. */
  predicate IsAirtime(air: Option<nat>, len: nat, rate: Option<nat>) {
    && (air.Some? <==> rate.Some? && rate.value > 0)
    && (air.Some? ==> air.value * rate.value <= 8_000_000 * (len + 3) < (air.value + 1) * rate.value)
  }

  /** The metadata of a frame in a window. */
  ghost predicate WindowReport(m: Metadata, samples: seq<Sample>, levels: seq<int>, w: Window, received: nat, floor: Option<int>, len: nat, rate: Option<nat>) {
    && Describes(m, samples, TakenIn(samples, w, received), levels, floor)
    && m.floor == floor && m.rise == Some(w.rise) && m.burstIndex == Some(w.frames)
    && IsAirtime(m.airtime, len, rate)
    && (m.preData.Some? <==> w.frames == 0 && m.airtime.Some?)
    && (m.preData.Some? ==> w.rise + m.airtime.value + m.preData.value == received)
  }

  /** The metadata of a frame that no window is known for. */
  ghost predicate ThresholdReport(m: Option<Metadata>, samples: seq<Sample>, levels: seq<int>, received: nat, floor: Option<int>, c: Config, len: nat, rate: Option<nat>) {
    var at := SignalIn(samples, received, floor, c);
    && (m.None? <==> at == {} && (rate.None? || rate.value == 0))
    && (m.Some? ==>
          && Describes(m.value, samples, at, levels, floor) && IsAirtime(m.value.airtime, len, rate)
          && m.value.floor == (if at == {} then None else floor)
          && m.value.rise == None && m.value.burstIndex == None && m.value.preData == None)
  }

  lemma AirtimeFits(len: nat, rate: Option<nat>)
    ensures IsAirtime(Airtime(len, rate), len, rate)
  {
    if rate.Some? && rate.value > 0 {
      var total, r := (len + 3) * 8 * 1_000_000, rate.value;
      var q := total / r;
      assert total == r * q + total % r;
      assert r * (q + 1) == r * q + r;
    }
  }

  lemma SummaryFacts(levels: seq<int>, samples: seq<Sample>, at: set<nat>, i: nat)
    requires LevelsOf(levels, samples, at) && levels != []
    ensures
      var s := Summary(levels).value;
      && Occurs(samples, at, s.min) && Occurs(samples, at, s.max) && Occurs(samples, at, s.median)
      && (i in at ==> i < |samples| && s.min <= samples[i].level <= s.max)
  {
    SummaryBounds(levels, 0);
    if i in at {
      var k :| 0 <= k < |levels| && levels[k] == samples[i].level;
      SummaryBounds(levels, k);
    }
  }

  lemma MedianIsMiddle(levels: seq<int>)
    requires levels != []
    ensures IsMiddle(Summary(levels).value.median, levels)
  {
    forall sorted | Ascending(sorted) && multiset(sorted) == multiset(levels)
      ensures sorted != [] && sorted[|sorted| / 2] == Summary(levels).value.median
    {
      SummaryOfAnyOrder(levels, sorted);
    }
  }

  predicate HasStatistics(m: Metadata, s: Option<Stats>, floor: Option<int>) {
    match s
    case None => m.rssi == None && m.snr == None && m.min == None && m.max == None && m.count == 0
    case Some(st) =>
      && m.rssi == Some(st.median) && m.min == Some(st.min) && m.max == Some(st.max) && m.count == st.count
      && m.snr == if floor.Some? then Some(st.median - floor.value) else None
  }

  /** Any metadata made of these statistics describes the samples they are of. */
  lemma StatisticsDescribe(m: Metadata, levels: seq<int>, samples: seq<Sample>, at: set<nat>, floor: Option<int>)
    requires LevelsOf(levels, samples, at) && HasStatistics(m, Summary(levels), floor)
    ensures Describes(m, samples, at, levels, floor)
  {
    if levels == [] {
      assert at == {};
    } else {
      var s := Summary(levels).value;
      SummaryFacts(levels, samples, at, 0);
      forall i | i in at && i < |samples| ensures s.min <= samples[i].level <= s.max {
        SummaryFacts(levels, samples, at, i);
      }
      MedianIsMiddle(levels);
      LengthOfSummary(levels);
    }
  }

  lemma LengthOfSummary(levels: seq<int>)
    requires levels != []
    ensures Summary(levels).value.count == |levels|
  {}

  lemma TakenArePicked(samples: seq<Sample>, w: Window, received: nat)
    ensures TakenIn(samples, w, received) == PickedAt(samples, w.rise, WindowEnd(w, received), None)
  {}

  lemma SignalIsPicked(samples: seq<Sample>, received: nat, floor: Option<int>, c: Config)
    ensures SignalIn(samples, received, floor, c)
      == PickedAt(samples, LookbackStart(received, c), received, SignalBar(floor, c.threshold))
  {
    forall i: nat | i < |samples|
      ensures i in SignalIn(samples, received, floor, c)
        <==> i in PickedAt(samples, LookbackStart(received, c), received, SignalBar(floor, c.threshold))
    {}
  }

  lemma WindowIsReported(samples: seq<Sample>, w: Window, received: nat, floor: Option<int>, len: nat, rate: Option<nat>)
    ensures
      var levels := LevelsIn(samples, w.rise, WindowEnd(w, received), None);
      WindowReport(InWindow(levels, w, received, floor, Airtime(len, rate)), samples, levels, w, received, floor, len, rate)
  {
    var levels := LevelsIn(samples, w.rise, WindowEnd(w, received), None);
    var m := InWindow(levels, w, received, floor, Airtime(len, rate));
    LevelsAreThose(samples, w.rise, WindowEnd(w, received), None);
    TakenArePicked(samples, w, received);
    AirtimeFits(len, rate);
    StatisticsDescribe(m, levels, samples, TakenIn(samples, w, received), floor);
  }

  lemma ThresholdIsReported(samples: seq<Sample>, received: nat, floor: Option<int>, c: Config, len: nat, rate: Option<nat>)
    ensures
      var levels := LevelsIn(samples, LookbackStart(received, c), received, SignalBar(floor, c.threshold));
      ThresholdReport(ByThreshold(levels, floor, Airtime(len, rate)), samples, levels, received, floor, c, len, rate)
  {
    var from, bar, at := LookbackStart(received, c), SignalBar(floor, c.threshold), SignalIn(samples, received, floor, c);
    var levels := LevelsIn(samples, from, received, bar);
    LevelsAreThose(samples, from, received, bar);
    SignalIsPicked(samples, received, floor, c);
    AirtimeFits(len, rate);
    ThresholdFrom(levels, samples, at, received, floor, c, len, rate);
  }

  lemma ThresholdFrom(levels: seq<int>, samples: seq<Sample>, at: set<nat>, received: nat, floor: Option<int>, c: Config, len: nat, rate: Option<nat>)
    requires LevelsOf(levels, samples, at) && at == SignalIn(samples, received, floor, c)
    requires IsAirtime(Airtime(len, rate), len, rate)
    ensures ThresholdReport(ByThreshold(levels, floor, Airtime(len, rate)), samples, levels, received, floor, c, len, rate)
  {
    var m := ByThreshold(levels, floor, Airtime(len, rate));
    assert levels == [] <==> at == {};
    if m.Some? { StatisticsDescribe(m.value, levels, samples, at, floor); }
  }

  class Tagger {
    const config: Config
    const carrierSense: bool
    const samples: FixedRing<Sample>
    const windows: FixedRing<Window>
    var current: Option<Window>
    var floor: Option<int>
    ghost var history: seq<Sample>
    ghost var heard: seq<Heard>

    /** The ring and the floor are what the whole history makes them. */
    ghost predicate Valid()
      reads this, samples, windows, samples.data, windows.data
    {
      Shape() && samples.contents == Kept(history, config.lookback) && floor == FloorAfter(heard, config)
    }

    ghost predicate Shape()
      reads this, samples, windows, samples.data, windows.data
    {
      && samples.Valid() && windows.Valid()
      && samples.data.Length == SAMPLE_CAPACITY && windows.data.Length == WINDOW_CAPACITY
      && (samples as object) != (windows as object) && (samples.data as object) != (windows.data as object)
    }

    constructor (c: Config, sense: bool)
      ensures Valid() && config == c && carrierSense == sense
      ensures samples.contents == [] && windows.contents == [] && current == None && floor == None
      ensures fresh(samples) && fresh(windows) && fresh(samples.data) && fresh(windows.data)
    {
      config, carrierSense := c, sense;
      samples := new FixedRing<Sample>(SAMPLE_CAPACITY, Sample(0, 0));
      windows := new FixedRing<Window>(WINDOW_CAPACITY, Window(0, None, 0));
      current, floor := None, None;
      history, heard := [], [];
    }

    /** Keep the sample, forget what is past the horizon, and let an idle one move the floor,
        which divides by the denominator. */
    method RecordSample(at: nat, level: int, busy: Option<bool>)
      requires Valid() && (Moves(floor, level, busy, config) ==> config.den != 0)
      modifies this`floor, this`history, this`heard, samples, samples.data
      ensures Valid()
      ensures history == old(history) + [Sample(at, level)] && heard == old(heard) + [Heard(level, busy)]
    {
      KeptNext(history, Sample(at, level), config.lookback);
      FloorNext(heard, Heard(level, busy), config);
      KeepSample(at, level);
      MoveFloor(level, busy);
      history := history + [Sample(at, level)];
      heard := heard + [Heard(level, busy)];
    }

    method KeepSample(at: nat, level: int)
      requires Shape()
      modifies samples, samples.data
      ensures Shape()
      ensures samples.contents
        == Pruned(LastOf(old(samples.contents) + [Sample(at, level)], SAMPLE_CAPACITY), Horizon(at, config.lookback))
    {
      samples.Push(Sample(at, level));
      var horizon := Horizon(at, config.lookback);
      ghost var pruned := Pruned(samples.contents, horizon);
      var done := false;
      while !done
        invariant Shape() && Pruned(samples.contents, horizon) == pruned
        invariant done ==> samples.contents == pruned
        decreases samples.len, if done then 0 else 1
      {
        if samples.len > 0 {
          var oldest := samples.At(0);
          if oldest.at < horizon {
            samples.DropOldest();
          } else {
            done := true;
          }
        } else {
          done := true;
        }
      }
    }

    method MoveFloor(level: int, busy: Option<bool>)
      requires Moves(floor, level, busy, config) ==> config.den != 0
      modifies this`floor
      ensures floor == NextFloor(old(floor), level, busy, config)
    {
      if Idle(floor, level, busy, config) {
        if floor.None? {
          floor := Some(level);
        } else {
          var delta := level - floor.value;
          var step := TruncDiv(delta * config.num, config.den);
          floor := Some(floor.value + step);
        }
      }
    }

    /** A rise opens a window, a fall closes it into the ring. */
    method CarrierEdge(busy: bool, at: nat)
      requires Valid()
      modifies this`current, windows, windows.data
      ensures Valid()
      ensures current == if busy then Some(Window(at, None, 0)) else None
      ensures windows.contents
        == if !busy && old(current).Some? then LastOf(old(windows.contents) + [old(current).value.(fall := Some(at))], WINDOW_CAPACITY)
           else old(windows.contents)
    {
      if busy {
        current := Some(Window(at, None, 0));
      } else if current.Some? {
        var w := current.value.(fall := Some(at));
        current := None;
        windows.Push(w);
      }
    }

    method FindWindow(received: nat) returns (r: Option<WindowRef>)
      requires Valid()
      ensures IsChosen(windows.contents, current, received, config.slack, r)
    {
      if current.Some? && current.value.rise <= received {
        return Some(Current);
      }
      r := None;
      for i := 0 to windows.len
        invariant r == None || (r.value.Closed? && r.value.index < i && Contains(windows.contents[r.value.index], received, config.slack))
        invariant forall j :: 0 <= j < i && Contains(windows.contents[j], received, config.slack) ==> r.Some? && j <= r.value.index
      {
        var w := windows.At(i);
        if w.fall.Some? && w.rise <= received && received <= w.fall.value + config.slack {
          r := Some(Closed(i));
        }
      }
    }

    /** Count a frame in the chosen window, and in no other; its index is how many the
        window had before. */
    method ClaimWindow(chosen: WindowRef) returns (w: Window)
      requires Valid()
      requires chosen.Current? ==> current.Some?
      requires chosen.Closed? ==> chosen.index < windows.len
      modifies this`current, windows`contents, windows.data
      ensures Valid()
      ensures chosen.Current? ==>
        w == old(current).value && current == Some(Claimed(w)) && windows.contents == old(windows.contents)
      ensures chosen.Closed? ==>
        && w == old(windows.contents)[chosen.index] && current == old(current)
        && windows.contents == old(windows.contents)[chosen.index := Claimed(w)]
    {
      match chosen
      case Current =>
        w := current.value;
        current := Some(Claimed(w));
      case Closed(i) =>
        w := windows.At(i);
        windows.Replace(i, Claimed(w));
    }

    /** The levels taken in a time span. */
    method CollectBetween(from: nat, to: nat) returns (levels: seq<int>)
      requires Valid()
      ensures levels == LevelsIn(samples.contents, from, to, None)
    {
      levels := [];
      for i := 0 to samples.len
        invariant levels == LevelsIn(samples.contents[..i], from, to, None)
      {
        assert samples.contents[..i + 1][..i] == samples.contents[..i];
        var s := samples.At(i);
        if s.at >= from && s.at <= to {
          levels := levels + [s.level];
        }
      }
      assert samples.contents[..samples.len] == samples.contents;
    }

    method CollectSignal(from: nat, to: nat) returns (levels: seq<int>)
      requires Valid()
      ensures levels == LevelsIn(samples.contents, from, to, SignalBar(floor, config.threshold))
    {
      levels := [];
      for i := 0 to samples.len
        invariant levels == LevelsIn(samples.contents[..i], from, to, SignalBar(floor, config.threshold))
      {
        assert samples.contents[..i + 1][..i] == samples.contents[..i];
        var s := samples.At(i);
        if s.at < from || s.at > to {
          continue;
        }
        if floor.None? || s.level >= Saturated(floor.value + config.threshold) {
          levels := levels + [s.level];
        }
      }
      assert samples.contents[..samples.len] == samples.contents;
    }

    /** The metadata of a frame. With carrier sense it is that of the window the frame
        belongs to, which it is then counted in; without one, that of the threshold. */
    method Attribute(received: nat, len: nat, rate: Option<nat>) returns (m: Option<Metadata>, ghost chosen: Option<WindowRef>)
      requires Valid()
      modifies this`current, windows`contents, windows.data
      ensures Valid()
      ensures IsChosen(old(windows.contents), old(current), received, config.slack, chosen)
      ensures
        var air := Airtime(len, rate);
        if carrierSense && chosen.Some? then
          var w := if chosen.value.Current? then old(current).value else old(windows.contents)[chosen.value.index];
          var levels := LevelsIn(samples.contents, w.rise, WindowEnd(w, received), None);
          && m == Some(InWindow(levels, w, received, floor, air))
          && WindowReport(m.value, samples.contents, levels, w, received, floor, len, rate)
          && current == (if chosen.value.Current? then Some(Claimed(w)) else old(current))
          && windows.contents
              == if chosen.value.Current? then old(windows.contents) else old(windows.contents)[chosen.value.index := Claimed(w)]
        else
          var levels := LevelsIn(samples.contents, LookbackStart(received, config), received, SignalBar(floor, config.threshold));
          && m == ByThreshold(levels, floor, air)
          && ThresholdReport(m, samples.contents, levels, received, floor, config, len, rate)
          && current == old(current) && windows.contents == old(windows.contents)
    {
      var air := Airtime(len, rate);
      var found := FindWindow(received);
      chosen := found;
      if carrierSense && found.Some? {
        var w := ClaimWindow(found.value);
        var levels := CollectBetween(w.rise, WindowEnd(w, received));
        m := Some(InWindow(levels, w, received, floor, air));
        WindowIsReported(samples.contents, w, received, floor, len, rate);
        return;
      }
      var signal := CollectSignal(LookbackStart(received, config), received);
      m := ByThreshold(signal, floor, air);
      ThresholdIsReported(samples.contents, received, floor, config, len, rate);
    }
  }
}
