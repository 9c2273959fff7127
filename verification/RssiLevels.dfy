/** What the signal-strength tagger keeps and computes, as values
    (radio/rssi_tagging.rs). Times are microseconds, levels tenths of a dB. */
module RssiLevels {
  import opened Common
  import opened NoiseFloor
  import opened Ring

  const SAMPLE_CAPACITY: nat := 256
  const WINDOW_CAPACITY: nat := 8

  datatype Config = Config(lookback: nat, slack: nat, threshold: int, num: int, den: int)

  predicate Smoothing(c: Config) { UpToOne(c.num, c.den) }

  datatype Sample = Sample(at: nat, level: int)

  datatype Window = Window(rise: nat, fall: Option<nat>, frames: nat)

  // ----- the samples kept ---------------------------------------------------------------

  function Horizon(now: nat, lookback: nat): nat { if now <= 2 * lookback then 0 else now - 2 * lookback }

  /** Drops samples from the front that are older than the horizon. */
  function Pruned(s: seq<Sample>, horizon: nat): (r: seq<Sample>)
    ensures |r| <= |s|
  {
    if s != [] && s[0].at < horizon then Pruned(s[1..], horizon) else s
  }

  /** The ring after a history of samples. */
  function Kept(history: seq<Sample>, lookback: nat): (r: seq<Sample>)
    ensures |r| <= SAMPLE_CAPACITY && |r| <= |history|
    decreases |history|
  {
    if history == [] then []
    else
      var last := history[|history| - 1];
      Pruned(LastOf(Kept(history[..|history| - 1], lookback) + [last], SAMPLE_CAPACITY), Horizon(last.at, lookback))
  }

  predicate InOrder(history: seq<Sample>) {
    forall i, j :: 0 <= i < j < |history| ==> history[i].at <= history[j].at
  }

  /** `k` is where the longest suffix starts that has at most 256 samples, none of them
      older than the horizon. */
  predicate LongestSuffixAt(history: seq<Sample>, horizon: nat, k: nat)
    requires k <= |history|
  {
    && |history| - k <= SAMPLE_CAPACITY
    && (forall i :: k <= i < |history| ==> history[i].at >= horizon)
    && (k > 0 ==> |history| - k == SAMPLE_CAPACITY || history[k - 1].at < horizon)
  }

  lemma NoLongerOne(history: seq<Sample>, horizon: nat, k: nat, l: nat)
    requires k < l <= |history| && LongestSuffixAt(history, horizon, k)
    ensures !LongestSuffixAt(history, horizon, l)
  {
    assert history[l - 1].at >= horizon;
  }

  lemma LongestIsUnique(history: seq<Sample>, horizon: nat, k: nat, l: nat)
    requires k <= |history| && l <= |history|
    requires LongestSuffixAt(history, horizon, k) && LongestSuffixAt(history, horizon, l)
    ensures k == l
  {
    if k < l { NoLongerOne(history, horizon, k, l); }
    if l < k { NoLongerOne(history, horizon, l, k); }
  }

  lemma {:induction false} PrunedIsSuffix(s: seq<Sample>, horizon: nat) returns (d: nat)
    ensures d <= |s| && Pruned(s, horizon) == s[d..]
    ensures forall i :: 0 <= i < d ==> s[i].at < horizon
    ensures d < |s| ==> s[d].at >= horizon
  {
    d := 0;
    if s != [] && s[0].at < horizon {
      var e := PrunedIsSuffix(s[1..], horizon);
      d := e + 1;
      assert s[1..][e..] == s[d..];
      forall i | 0 <= i < d ensures s[i].at < horizon {
        if i > 0 { assert s[i] == s[1..][i - 1]; }
      }
    }
  }

  lemma LastOfSuffix(history: seq<Sample>, s: seq<Sample>, x: Sample, k: nat)
    requires k <= |history| && s == history[k..]
    ensures
      var all := history + [x];
      var r := LastOf(s + [x], SAMPLE_CAPACITY);
      r == all[|all| - |r|..]
  {
    var all, r := history + [x], LastOf(s + [x], SAMPLE_CAPACITY);
    assert s + [x] == all[k..];
    assert r == all[|all| - |r|..];
  }

  /** The ring `r` is what is left of a history by the rule above. */
  predicate IsLongest(r: seq<Sample>, history: seq<Sample>, horizon: nat) {
    |r| <= |history| && r == history[|history| - |r|..] && LongestSuffixAt(history, horizon, |history| - |r|)
  }

  /** Dropping what is too old from a full-size suffix leaves a longest one, if what
      was missing before was too old as well. */
  lemma PruningIsLongest(all: seq<Sample>, from: nat, horizon: nat)
    requires InOrder(all) && from <= |all| <= from + SAMPLE_CAPACITY
    requires from > 0 && |all| - from < SAMPLE_CAPACITY ==> all[from - 1].at < horizon
    ensures IsLongest(Pruned(all[from..], horizon), all, horizon)
  {
    var d := PrunedIsSuffix(all[from..], horizon);
    DropOfSuffix(all, from, d);
    SuffixFrom(all, horizon, from, d);
    SuffixIsLongest(all, horizon, from + d);
  }

  /** Where the samples inside the horizon begin, at or after the start of the ring. */
  lemma SuffixFrom(all: seq<Sample>, horizon: nat, from: nat, d: nat)
    requires InOrder(all) && from + d <= |all| <= from + SAMPLE_CAPACITY
    requires from > 0 && |all| - from < SAMPLE_CAPACITY ==> all[from - 1].at < horizon
    requires d > 0 ==> all[from + d - 1].at < horizon
    requires from + d < |all| ==> all[from + d].at >= horizon
    ensures LongestSuffixAt(all, horizon, from + d)
  {}

  lemma SuffixIsLongest(all: seq<Sample>, horizon: nat, k: nat)
    requires k <= |all| && LongestSuffixAt(all, horizon, k)
    ensures IsLongest(all[k..], all, horizon)
  {}

  lemma DropOfSuffix(all: seq<Sample>, from: nat, d: nat)
    requires from + d <= |all|
    ensures all[from..][d..] == all[from + d..]
  {}

  lemma NextIsLongest(before: seq<Sample>, last: Sample, lookback: nat, r: seq<Sample>)
    requires InOrder(before + [last])
    requires before == [] ==> r == []
    requires before != [] ==> IsLongest(r, before, Horizon(before[|before| - 1].at, lookback))
    ensures IsLongest(
      Pruned(LastOf(r + [last], SAMPLE_CAPACITY), Horizon(last.at, lookback)), before + [last], Horizon(last.at, lookback))
  {
    var all, t := before + [last], LastOf(r + [last], SAMPLE_CAPACITY);
    var j := |before| - |r|;
    LastOfSuffix(before, r, last, j);
    if |t| < |all| && |t| < SAMPLE_CAPACITY {
      assert all[j - 1] == before[j - 1];
      assert all[|before| - 1].at <= all[|before|].at;
    }
    PruningIsLongest(all, |all| - |t|, Horizon(last.at, lookback));
  }

  lemma KeptNext(before: seq<Sample>, last: Sample, lookback: nat)
    ensures Kept(before + [last], lookback)
      == Pruned(LastOf(Kept(before, lookback) + [last], SAMPLE_CAPACITY), Horizon(last.at, lookback))
  {
    assert (before + [last])[..|before|] == before;
  }

  lemma OrderOfPrefix(before: seq<Sample>, last: Sample)
    requires InOrder(before + [last])
    ensures InOrder(before)
  {
    forall i, j | 0 <= i < j < |before| ensures before[i].at <= before[j].at {
      assert (before + [last])[i] == before[i] && (before + [last])[j] == before[j];
    }
  }

  /** With times that never go back, the ring is exactly the longest suffix of the whole
      history of at most 256 samples inside twice the lookback of the last one. */
  lemma {:induction false} KeptIsLongestSuffix(history: seq<Sample>, lookback: nat)
    requires InOrder(history) && history != []
    ensures IsLongest(Kept(history, lookback), history, Horizon(history[|history| - 1].at, lookback))
    decreases |history|
  {
    var n := |history| - 1;
    var before, last := history[..n], history[n];
    assert history == before + [last];
    OrderOfPrefix(before, last);
    if before != [] { KeptIsLongestSuffix(before, lookback); }
    KeptNext(before, last, lookback);
    NextIsLongest(before, last, lookback, Kept(before, lookback));
  }

  /** So a sample is kept exactly if fewer than 256 came after it and it is no older than
      twice the lookback before the last one. */
  lemma KeptExactly(history: seq<Sample>, lookback: nat, i: nat)
    requires InOrder(history) && i < |history|
    ensures i + |Kept(history, lookback)| >= |history|
      <==> i + 256 >= |history| && history[i].at + 2 * lookback >= history[|history| - 1].at
    ensures Kept(history, lookback) == history[|history| - |Kept(history, lookback)|..]
  {
    KeptIsLongestSuffix(history, lookback);
    var k := |history| - |Kept(history, lookback)|;
    if i < k { assert history[i].at <= history[k - 1].at; }
  }

  // ----- the noise floor -------------------------------------------------------------------

  function Saturated(x: int): int { Min(32767, Max(-32768, x)) }

  /** Whether a sample counts as idle channel: by the carrier sense, or else by being
      below the floor and threshold; the very first sample always does. */
  predicate Idle(floor: Option<int>, level: int, busy: Option<bool>, c: Config) {
    match busy
    case Some(b) => !b
    case None => floor.None? || level < Saturated(floor.value + c.threshold)
  }

  /** Whether a sample moves the floor by the coefficient, which must then be one. */
  predicate Moves(floor: Option<int>, level: int, busy: Option<bool>, c: Config) {
    floor.Some? && Idle(floor, level, busy, c)
  }

  /** With denominator 0 the source divides by it and panics; the floor stays here. */
  function NextFloor(floor: Option<int>, level: int, busy: Option<bool>, c: Config): Option<int> {
    if !Idle(floor, level, busy, c) then floor
    else if floor.None? then Some(level)
    else if c.den == 0 then floor
    else Some(Step(floor.value, level, c.num, c.den))
  }

  datatype Heard = Heard(level: int, busy: Option<bool>)

  function FloorAfter(heard: seq<Heard>, c: Config): Option<int>
    decreases |heard|
  {
    if heard == [] then None
    else
      var last := heard[|heard| - 1];
      NextFloor(FloorAfter(heard[..|heard| - 1], c), last.level, last.busy, c)
  }

  lemma FloorNext(heard: seq<Heard>, h: Heard, c: Config)
    ensures FloorAfter(heard + [h], c) == NextFloor(FloorAfter(heard, c), h.level, h.busy, c)
  {
    assert (heard + [h])[..|heard|] == heard;
  }

  /** With carrier sense a busy sample leaves the floor alone and an idle one always counts.
      Without, the first sample is the floor, and one that stands at least the threshold
      above the floor leaves it alone. */
  lemma WhatMovesTheFloor(heard: seq<Heard>, level: int, c: Config)
    ensures FloorAfter(heard + [Heard(level, Some(true))], c) == FloorAfter(heard, c)
    ensures
      var floor := FloorAfter(heard, c);
      var next := if floor.None? then Some(level) else if c.den == 0 then floor else Some(Step(floor.value, level, c.num, c.den));
      && FloorAfter(heard + [Heard(level, Some(false))], c) == next
      && FloorAfter(heard + [Heard(level, None)], c)
          == if floor.Some? && (level >= floor.value + c.threshold || level >= 32767) && (level >= -32768) then floor else next
  {
    FloorNext(heard, Heard(level, Some(true)), c);
    FloorNext(heard, Heard(level, Some(false)), c);
    FloorNext(heard, Heard(level, None), c);
  }

  predicate IdleAt(heard: seq<Heard>, i: nat, c: Config)
    requires i < |heard|
  {
    Idle(FloorAfter(heard[..i], c), heard[i].level, heard[i].busy, c)
  }

  /** Whatever was heard, the floor lies in every range that holds all idle samples; so
      it never leaves their own least and greatest. */
  lemma {:induction false} FloorStaysAmongIdle(heard: seq<Heard>, c: Config, lo: int, hi: int)
    requires Smoothing(c)
    requires forall i :: 0 <= i < |heard| && IdleAt(heard, i, c) ==> lo <= heard[i].level <= hi
    ensures FloorAfter(heard, c).Some? ==> lo <= FloorAfter(heard, c).value <= hi
    decreases |heard|
  {
    if heard != [] {
      var n := |heard| - 1;
      var before := heard[..n];
      forall i | 0 <= i < n && IdleAt(before, i, c) ensures lo <= before[i].level <= hi {
        assert before[..i] == heard[..i];
        assert IdleAt(heard, i, c);
      }
      FloorStaysAmongIdle(before, c, lo, hi);
      var f := FloorAfter(before, c);
      if IdleAt(heard, n, c) && f.Some? { StepStaysBetween(f.value, heard[n].level, c.num, c.den); }
    }
  }

  /** With such a coefficient, a numerator of at most 32768 and 16-bit levels, every step
      the floor ever takes fits the integers of the source: neither the 32-bit product nor
      the cast of the new floor to 16 bits loses anything. */
  lemma FloorFitsItsWidth(heard: seq<Heard>, c: Config, i: nat)
    requires Smoothing(c) && Abs(c.num) <= 32768 && i < |heard|
    requires forall k :: 0 <= k < |heard| ==> Int16(heard[k].level)
    ensures
      var floor := FloorAfter(heard[..i], c);
      Moves(floor, heard[i].level, heard[i].busy, c) ==>
        Int16(floor.value) && Int32(ProductOf(floor.value, heard[i].level, c.num))
        && Int16(Step(floor.value, heard[i].level, c.num, c.den))
  {
    var before := heard[..i];
    FloorStaysAmongIdle(before, c, -0x8000, 0x7FFF);
    var floor := FloorAfter(before, c);
    if Moves(floor, heard[i].level, heard[i].busy, c) {
      Bounded(heard[i].level - floor.value, c.num);
      StepStaysBetween(floor.value, heard[i].level, c.num, c.den);
    }
  }

  // ----- statistics ----------------------------------------------------------------------------

  predicate Ascending(s: seq<int>) { forall i, j :: 0 <= i < j < |s| ==> s[i] <= s[j] }

  function InsertInto(s: seq<int>, x: int): (r: seq<int>)
    ensures |r| == |s| + 1 && r[0] == if s == [] || x <= s[0] then x else s[0]
  {
    if s == [] || x <= s[0] then [x] + s else [s[0]] + InsertInto(s[1..], x)
  }

  function SortLevels(values: seq<int>): (s: seq<int>)
    ensures |s| == |values|
  {
    if values == [] then [] else InsertInto(SortLevels(values[..|values| - 1]), values[|values| - 1])
  }

  lemma AscendingFrom(x: int, rest: seq<int>)
    requires Ascending(rest) && (rest != [] ==> x <= rest[0])
    ensures Ascending([x] + rest)
  {}

  lemma {:induction false} InsertSorts(s: seq<int>, x: int)
    requires Ascending(s)
    ensures Ascending(InsertInto(s, x)) && multiset(InsertInto(s, x)) == multiset(s) + multiset{x}
  {
    if s == [] || x <= s[0] {
      AscendingFrom(x, s);
    } else {
      InsertSorts(s[1..], x);
      AscendingFrom(s[0], InsertInto(s[1..], x));
      assert s == [s[0]] + s[1..];
    }
  }

  lemma {:induction false} SortSorts(values: seq<int>)
    ensures Ascending(SortLevels(values)) && multiset(SortLevels(values)) == multiset(values)
    decreases |values|
  {
    if values != [] {
      var n := |values| - 1;
      SortSorts(values[..n]);
      InsertSorts(SortLevels(values[..n]), values[n]);
      assert values == values[..n] + [values[n]];
    }
  }

  datatype Stats = Stats(median: int, min: int, max: int, count: nat)

  /** Upper median, least, greatest and number. */
  function Summary(values: seq<int>): Option<Stats> {
    if values == [] then None
    else
      var s := SortLevels(values);
      Some(Stats(s[|s| / 2], s[0], s[|s| - 1], |s|))
  }

  lemma SameLeast(s: seq<int>, t: seq<int>)
    requires Ascending(s) && Ascending(t) && multiset(s) == multiset(t) && s != []
    ensures t != [] && s[0] == t[0]
  {
    assert s[0] in multiset(t);
    assert t[0] in multiset(s);
  }

  lemma WithoutFirst(s: seq<int>)
    requires s != []
    ensures multiset(s[1..]) == multiset(s) - multiset{s[0]}
  {
    assert s == [s[0]] + s[1..];
  }

  lemma {:induction false} AscendingIsUnique(s: seq<int>, t: seq<int>)
    requires Ascending(s) && Ascending(t) && multiset(s) == multiset(t)
    ensures s == t
    decreases |s|
  {
    if s == [] {
      assert |t| == |multiset(t)| == 0;
    } else {
      SameLeast(s, t);
      WithoutFirst(s);
      WithoutFirst(t);
      AscendingIsUnique(s[1..], t[1..]);
      assert s == [s[0]] + s[1..] && t == [t[0]] + t[1..];
    }
  }

  /** The statistics are those of the values, in whatever order they come: from any
      ascending arrangement of them, the middle, the ends and the length. */
  lemma SummaryOfAnyOrder(values: seq<int>, sorted: seq<int>)
    requires Ascending(sorted) && multiset(sorted) == multiset(values) && values != []
    ensures |sorted| == |values|
    ensures Summary(values) == Some(Stats(sorted[|sorted| / 2], sorted[0], sorted[|sorted| - 1], |values|))
  {
    SortSorts(values);
    AscendingIsUnique(sorted, SortLevels(values));
  }

  /** No value lies outside the least and greatest, and both occur. */
  lemma SummaryBounds(values: seq<int>, i: nat)
    requires i < |values|
    ensures
      var s := Summary(values).value;
      s.min <= values[i] <= s.max && s.min in values && s.max in values && s.median in values && s.min <= s.median <= s.max
  {
    var sorted := SortLevels(values);
    SortSorts(values);
    assert values[i] in multiset(values);
    assert values[i] in multiset(sorted);
    assert sorted[0] in multiset(values) && sorted[|sorted| - 1] in multiset(values) && sorted[|sorted| / 2] in multiset(values);
  }

  /** A sample of a time span, and no lower than the bar if there is one. */
  predicate Picks(s: Sample, from: nat, to: nat, bar: Option<int>) {
    from <= s.at <= to && (bar.Some? ==> s.level >= bar.value)
  }

  /** The levels of such samples, in the order they were taken. */
  function LevelsIn(samples: seq<Sample>, from: nat, to: nat, bar: Option<int>): seq<int>
    decreases |samples|
  {
    if samples == [] then []
    else
      var last := samples[|samples| - 1];
      LevelsIn(samples[..|samples| - 1], from, to, bar) + if Picks(last, from, to, bar) then [last.level] else []
  }

  function PickedAt(samples: seq<Sample>, from: nat, to: nat, bar: Option<int>): set<nat> {
    set i: nat | i < |samples| && Picks(samples[i], from, to, bar)
  }

  ghost predicate Occurs(samples: seq<Sample>, at: set<nat>, level: int) {
    exists i :: i in at && i < |samples| && samples[i].level == level
  }

  function AtLevel(samples: seq<Sample>, at: set<nat>, level: int): set<nat> {
    set i | i in at && i < |samples| && samples[i].level == level
  }

  /** As many levels as there are such samples: the level of each, no other, and each as
      often as it was taken. */
  ghost predicate LevelsOf(levels: seq<int>, samples: seq<Sample>, at: set<nat>) {
    && |levels| == |at|
    && (forall v :: multiset(levels)[v] == |AtLevel(samples, at, v)|)
    && (forall i :: i in at ==> i < |samples| && samples[i].level in levels)
    && (forall v :: v in levels ==> Occurs(samples, at, v))
  }

  lemma PickedNext(samples: seq<Sample>, last: Sample, from: nat, to: nat, bar: Option<int>)
    ensures
      var before := PickedAt(samples, from, to, bar);
      PickedAt(samples + [last], from, to, bar) == if Picks(last, from, to, bar) then before + {|samples|} else before
  {
    var before, after := PickedAt(samples, from, to, bar), PickedAt(samples + [last], from, to, bar);
    forall i: nat | i < |samples| ensures i in after <==> i in before {
      assert (samples + [last])[i] == samples[i];
    }
  }

  lemma OccursStill(samples: seq<Sample>, last: Sample, at: set<nat>, more: set<nat>, level: int)
    requires Occurs(samples, at, level) && at <= more
    ensures Occurs(samples + [last], more, level)
  {
    var i :| i in at && i < |samples| && samples[i].level == level;
    assert i in more && (samples + [last])[i].level == level;
  }

  lemma AtLevelNext(samples: seq<Sample>, last: Sample, at: set<nat>, level: int)
    requires forall i :: i in at ==> i < |samples|
    ensures AtLevel(samples + [last], at, level) == AtLevel(samples, at, level)
    ensures AtLevel(samples + [last], at + {|samples|}, level)
      == AtLevel(samples, at, level) + if last.level == level then {|samples|} else {}
  {
    forall i | i in at ensures (samples + [last])[i] == samples[i] {}
  }

  lemma LevelsOfSkip(levels: seq<int>, samples: seq<Sample>, at: set<nat>, last: Sample)
    requires LevelsOf(levels, samples, at)
    ensures LevelsOf(levels, samples + [last], at)
  {
    forall v ensures multiset(levels)[v] == |AtLevel(samples + [last], at, v)| { AtLevelNext(samples, last, at, v); }
    forall v | v in levels ensures Occurs(samples + [last], at, v) { OccursStill(samples, last, at, at, v); }
  }

  lemma OccursNext(levels: seq<int>, samples: seq<Sample>, at: set<nat>, last: Sample, level: int)
    requires LevelsOf(levels, samples, at) && level in levels + [last.level]
    ensures Occurs(samples + [last], at + {|samples|}, level)
  {
    if level in levels {
      OccursStill(samples, last, at, at + {|samples|}, level);
    } else {
      assert (samples + [last])[|samples|].level == level;
    }
  }

  lemma FoundNext(levels: seq<int>, samples: seq<Sample>, at: set<nat>, last: Sample, i: nat)
    requires LevelsOf(levels, samples, at) && i in at + {|samples|}
    ensures i <= |samples| && (samples + [last])[i].level in levels + [last.level]
  {
    if i in at { assert samples[i].level in levels; } else {
      assert last.level in [last.level];
    }
  }

  lemma CountNext(levels: seq<int>, samples: seq<Sample>, at: set<nat>, last: Sample, level: int)
    requires LevelsOf(levels, samples, at)
    ensures multiset(levels + [last.level])[level] == |AtLevel(samples + [last], at + {|samples|}, level)|
  {
    AtLevelNext(samples, last, at, level);
    assert multiset(levels + [last.level])[level] == multiset(levels)[level] + if last.level == level then 1 else 0;
    assert |samples| !in AtLevel(samples, at, level);
  }

  lemma LevelsOfTake(levels: seq<int>, samples: seq<Sample>, at: set<nat>, last: Sample)
    requires LevelsOf(levels, samples, at)
    ensures LevelsOf(levels + [last.level], samples + [last], at + {|samples|})
  {
    assert |samples| !in at;
    forall v ensures multiset(levels + [last.level])[v] == |AtLevel(samples + [last], at + {|samples|}, v)| {
      CountNext(levels, samples, at, last, v);
    }
    forall v | v in levels + [last.level] ensures Occurs(samples + [last], at + {|samples|}, v) {
      OccursNext(levels, samples, at, last, v);
    }
    forall i | i in at + {|samples|} ensures i <= |samples| && (samples + [last])[i].level in levels + [last.level] {
      FoundNext(levels, samples, at, last, i);
    }
  }

  /** Those are the levels of all such samples and of no others. */
  lemma {:induction false} LevelsAreThose(samples: seq<Sample>, from: nat, to: nat, bar: Option<int>)
    ensures LevelsOf(LevelsIn(samples, from, to, bar), samples, PickedAt(samples, from, to, bar))
    decreases |samples|
  {
    if samples == [] {
      assert PickedAt(samples, from, to, bar) == {};
    } else {
      var n := |samples| - 1;
      var init, last := samples[..n], samples[n];
      var levels, at := LevelsIn(init, from, to, bar), PickedAt(init, from, to, bar);
      LevelsAreThose(init, from, to, bar);
      assert samples == init + [last];
      PickedNext(init, last, from, to, bar);
      if Picks(last, from, to, bar) { LevelsOfTake(levels, init, at, last); } else {
        assert levels + [] == levels;
        LevelsOfSkip(levels, init, at, last);
      }
    }
  }

  /** What a sample must reach to count as signal. */
  function SignalBar(floor: Option<int>, threshold: int): Option<int> {
    if floor.None? then None else Some(Saturated(floor.value + threshold))
  }

  // ----- carrier windows ---------------------------------------------------------------------------

  datatype WindowRef = Current | Closed(index: nat)

  predicate Contains(w: Window, received: nat, slack: nat) {
    w.fall.Some? && w.rise <= received <= w.fall.value + slack
  }

  /** The open window if it had risen; else the last closed one the frame falls into;
      else none. */
  predicate IsChosen(windows: seq<Window>, current: Option<Window>, received: nat, slack: nat, r: Option<WindowRef>) {
    var open := current.Some? && current.value.rise <= received;
    && (open <==> r == Some(Current))
    && (!open ==>
          match r
          case None => forall i :: 0 <= i < |windows| ==> !Contains(windows[i], received, slack)
          case Some(Current) => false
          case Some(Closed(i)) =>
            i < |windows| && Contains(windows[i], received, slack)
            && forall j :: i < j < |windows| ==> !Contains(windows[j], received, slack))
  }

  /** One more frame counted, up to what sixteen bits hold. */
  function Claimed(w: Window): Window { w.(frames := if w.frames < 65535 then w.frames + 1 else w.frames) }

  function ClaimedBy(w: Window, n: nat): Window {
    if n == 0 then w else Claimed(ClaimedBy(w, n - 1))
  }

  /** After any number of frames a window has counted them all, up to 65535. */
  lemma {:induction false} ClaimsCount(w: Window, n: nat)
    requires w.frames <= 65535
    ensures ClaimedBy(w, n) == Window(w.rise, w.fall, if w.frames + n <= 65535 then w.frames + n else 65535)
  {
    if n > 0 { ClaimsCount(w, n - 1); }
  }

  // ----- airtime --------------------------------------------------------------------------------------

  /** Microseconds on air, from the length and a bit rate that is not zero. */
  function Airtime(len: nat, rate: Option<nat>): Option<nat> {
    if rate.None? || rate.value == 0 then None else Some((len + 3) * 8 * 1_000_000 / rate.value)
  }
}
