/**
 Outstanding acknowledged sends as values (second half of kiss/ackmode.rs): the
 table as a map from tags, the life of every registration, and the tag counter.
 */
module AckTable {

  datatype Ack = Ack(queuedAt: nat, deadline: nat)

  type Table = map<nat, Ack>

  // ----- the tag counter ------------------------------------------------------------------

  const TAGS: nat := 65535

  /** The next tag of a wrapping 16-bit counter that skips 0. */
  function NextTag(cursor: nat): (t: nat)
    requires cursor <= TAGS
    ensures 1 <= t <= TAGS
  {
    if cursor == TAGS then 1 else cursor + 1
  }

  /** The `n`-th tag from a fresh counter, which starts at 0. */
  function TagNumber(n: nat): (t: nat)
    ensures t <= TAGS && (n > 0 ==> t >= 1)
  {
    if n == 0 then 0 else NextTag(TagNumber(n - 1))
  }

  lemma {:induction false} TagNumberIs(n: nat)
    requires n > 0
    ensures TagNumber(n) == 1 + (n - 1) % TAGS
    decreases n
  {
    if n > 1 {
      TagNumberIs(n - 1);
      NextResidue(n - 2);
    }
  }

  lemma NextResidue(m: nat)
    ensures (m + 1) % TAGS == if m % TAGS == TAGS - 1 then 0 else m % TAGS + 1
  {}

  lemma SameResidue(a: nat, b: nat)
    requires a <= b
    ensures a % TAGS == b % TAGS <==> (b - a) % TAGS == 0
  {
    var q, r, d := a / TAGS, b / TAGS, (b - a) / TAGS;
    assert a == TAGS * q + a % TAGS && b == TAGS * r + b % TAGS && b - a == TAGS * d + (b - a) % TAGS;
    assert a % TAGS == b % TAGS ==> d == r - q;
  }

  lemma SmallResidue(d: nat)
    requires d < TAGS
    ensures d % TAGS == d
  {}

  /** Two automatic tags are equal exactly when a multiple of 65535 lies between them, so
      any 65535 consecutive ones are distinct, and none is 0. */
  lemma TagsRepeatExactly(i: nat, j: nat)
    requires 0 < i <= j
    ensures TagNumber(i) != 0
    ensures TagNumber(i) == TagNumber(j) <==> (j - i) % TAGS == 0
    ensures i < j < i + TAGS ==> TagNumber(i) != TagNumber(j)
  {
    TagNumberIs(i);
    TagNumberIs(j);
    SameResidue(i - 1, j - 1);
    if j - i < TAGS { SmallResidue(j - i); }
  }

  // ----- the life of a registration ---------------------------------------------------------

  datatype Fate = StillPending(tag: nat) | Completed | TimedOut | Cancelled | Dropped

  datatype Event =
    | Take                                              // a tag from the counter, not registered
    | Begin(queuedAt: nat, timeout: nat)                // tag from the counter
    | Register(tag: nat, queuedAt: nat, timeout: nat)   // tag chosen by the caller
    | Echo(tag: nat)
    | Expire(tag: nat, now: nat)                        // poll_timeout chose this tag
    | Cancel(tag: nat)
    | Reset

  /** The table with each entry's registration number, the fate of every accepted
      registration, and how many automatic tags have been given out. */
  datatype Ledger = Ledger(table: Table, numbers: map<nat, nat>, fates: seq<Fate>, issued: nat)

  const FRESH := Ledger(map[], map[], [], 0)

  const LATEST: nat := 0xFFFF_FFFF_FFFF_FFFF

  /** Times are 64-bit milliseconds; a deadline past the end of time is the end of time. */
  function Deadline(queuedAt: nat, timeout: nat): nat {
    if queuedAt + timeout <= LATEST then queuedAt + timeout else LATEST
  }

  /** A send is expired exactly from its timeout on, or at the end of time. */
  lemma ExpiredFromTimeoutOn(queuedAt: nat, timeout: nat, now: nat)
    requires queuedAt <= LATEST && now <= LATEST
    ensures Deadline(queuedAt, timeout) <= now <==> now >= queuedAt + timeout || now == LATEST
  {}

  function Accept(l: Ledger, tag: nat, queuedAt: nat, timeout: nat, capacity: nat): Ledger {
    if tag in l.table || |l.table| >= capacity then l
    else l.(
      table := l.table[tag := Ack(queuedAt, Deadline(queuedAt, timeout))],
      numbers := l.numbers[tag := |l.fates|],
      fates := l.fates + [StillPending(tag)])
  }

  function Finish(l: Ledger, tag: nat, fate: Fate): Ledger {
    if tag !in l.table || tag !in l.numbers || l.numbers[tag] >= |l.fates| then l
    else l.(table := l.table - {tag}, numbers := l.numbers - {tag}, fates := l.fates[l.numbers[tag] := fate])
  }

  function DropAll(fates: seq<Fate>): seq<Fate> {
    seq(|fates|, i requires 0 <= i < |fates| => if fates[i].StillPending? then Dropped else fates[i])
  }

  function Apply(l: Ledger, e: Event, capacity: nat): Ledger {
    match e
    case Take => l.(issued := l.issued + 1)
    case Begin(q, t) => Accept(l.(issued := l.issued + 1), TagNumber(l.issued + 1), q, t, capacity)
    case Register(tag, q, t) => Accept(l, tag, q, t, capacity)
    case Echo(tag) => Finish(l, tag, Completed)
    case Expire(tag, now) => if tag in l.table && l.table[tag].deadline <= now then Finish(l, tag, TimedOut) else l
    case Cancel(tag) => Finish(l, tag, Cancelled)
    case Reset => l.(table := map[], numbers := map[], fates := DropAll(l.fates))
  }

  function Run(events: seq<Event>, capacity: nat): Ledger
    decreases |events|
  {
    if events == [] then FRESH else Apply(Run(events[..|events| - 1], capacity), events[|events| - 1], capacity)
  }

  /** Tags and registrations still pending correspond one to one. */
  predicate Paired(l: Ledger) {
    && l.table.Keys == l.numbers.Keys
    && (forall t :: t in l.numbers ==> l.numbers[t] < |l.fates| && l.fates[l.numbers[t]] == StillPending(t))
    && (forall i :: 0 <= i < |l.fates| && l.fates[i].StillPending? ==>
          l.fates[i].tag in l.numbers && l.numbers[l.fates[i].tag] == i)
  }

  predicate Accounted(l: Ledger, capacity: nat) { Paired(l) && |l.table| <= capacity }

  /** What one event may do to the fates: add a pending one, or settle pending ones. */
  predicate OnlySettles(before: seq<Fate>, after: seq<Fate>) {
    && |before| <= |after| <= |before| + 1
    && (forall i :: 0 <= i < |before| && !before[i].StillPending? ==> after[i] == before[i])
    && (|after| > |before| ==> after[|before|].StillPending?)
  }

  lemma OneMore(m: Table, tag: nat, a: Ack)
    requires tag !in m
    ensures |m[tag := a]| == |m| + 1
  {
    assert m[tag := a].Keys == m.Keys + {tag};
  }

  lemma AcceptPairs(l: Ledger, tag: nat, a: Ack)
    requires Paired(l) && tag !in l.table
    ensures Paired(l.(table := l.table[tag := a], numbers := l.numbers[tag := |l.fates|], fates := l.fates + [StillPending(tag)]))
  {
    var n := l.(table := l.table[tag := a], numbers := l.numbers[tag := |l.fates|], fates := l.fates + [StillPending(tag)]);
    assert n.table.Keys == l.table.Keys + {tag} && n.numbers.Keys == l.numbers.Keys + {tag};
    forall t | t in n.numbers ensures n.numbers[t] < |n.fates| && n.fates[n.numbers[t]] == StillPending(t) {
      if t != tag { assert t in l.numbers; }
    }
  }

  lemma AcceptAccounted(l: Ledger, tag: nat, queuedAt: nat, timeout: nat, capacity: nat)
    requires Accounted(l, capacity)
    ensures
      var n := Accept(l, tag, queuedAt, timeout, capacity);
      Accounted(n, capacity) && OnlySettles(l.fates, n.fates)
  {
    if tag !in l.table && |l.table| < capacity {
      OneMore(l.table, tag, Ack(queuedAt, Deadline(queuedAt, timeout)));
      AcceptPairs(l, tag, Ack(queuedAt, Deadline(queuedAt, timeout)));
    }
  }

  lemma FinishPairs(l: Ledger, tag: nat, fates: seq<Fate>)
    requires Paired(l) && tag in l.table && |fates| == |l.fates| && !fates[l.numbers[tag]].StillPending?
    requires forall i :: 0 <= i < |fates| && i != l.numbers[tag] ==> fates[i] == l.fates[i]
    ensures Paired(l.(table := l.table - {tag}, numbers := l.numbers - {tag}, fates := fates))
  {
    var n := l.(table := l.table - {tag}, numbers := l.numbers - {tag}, fates := fates);
    assert n.table.Keys == l.table.Keys - {tag} == n.numbers.Keys;
    forall t | t in n.numbers ensures n.numbers[t] < |fates| && fates[n.numbers[t]] == StillPending(t) {
      assert t in l.numbers && t != tag;
    }
  }

  lemma OneLess(m: Table, tag: nat)
    ensures |m - {tag}| <= |m|
  {
    assert (m - {tag}).Keys == m.Keys - {tag};
    if tag in m { assert m.Keys == (m.Keys - {tag}) + {tag}; }
  }

  lemma FinishAccounted(l: Ledger, tag: nat, fate: Fate, capacity: nat)
    requires Accounted(l, capacity) && !fate.StillPending?
    ensures
      var n := Finish(l, tag, fate);
      && Accounted(n, capacity) && OnlySettles(l.fates, n.fates)
      && (tag in l.table ==> n.fates == l.fates[l.numbers[tag] := fate] && n.table == l.table - {tag})
  {
    if tag in l.table {
      FinishPairs(l, tag, l.fates[l.numbers[tag] := fate]);
      OneLess(l.table, tag);
    }
  }

  lemma ResetAccounted(l: Ledger, capacity: nat)
    requires Accounted(l, capacity)
    ensures Accounted(Apply(l, Reset, capacity), capacity) && OnlySettles(l.fates, Apply(l, Reset, capacity).fates)
  {}

  lemma BeginAccounted(l: Ledger, queuedAt: nat, timeout: nat, capacity: nat)
    requires Accounted(l, capacity)
    ensures
      var n := Apply(l, Begin(queuedAt, timeout), capacity);
      Accounted(n, capacity) && OnlySettles(l.fates, n.fates)
  {
    AcceptAccounted(l.(issued := l.issued + 1), TagNumber(l.issued + 1), queuedAt, timeout, capacity);
  }

  lemma StepAccounted(l: Ledger, e: Event, capacity: nat)
    requires Accounted(l, capacity)
    ensures Accounted(Apply(l, e, capacity), capacity) && OnlySettles(l.fates, Apply(l, e, capacity).fates)
  {
    match e
    case Take =>
    case Begin(q, t) => BeginAccounted(l, q, t, capacity);
    case Register(tag, q, t) => AcceptAccounted(l, tag, q, t, capacity);
    case Echo(tag) => FinishAccounted(l, tag, Completed, capacity);
    case Expire(tag, now) => FinishAccounted(l, tag, TimedOut, capacity);
    case Cancel(tag) => FinishAccounted(l, tag, Cancelled, capacity);
    case Reset => ResetAccounted(l, capacity);
  }

  /** What becomes of a pending registration: the echo of its tag completes it, giving it up
      cancels it, expiring it at its deadline times it out, a reset drops it, and nothing
      else touches it. */
  lemma FateHasItsCause(l: Ledger, e: Event, i: nat, capacity: nat)
    requires Paired(l) && i < |l.fates| && l.fates[i].StillPending?
    ensures
      var tag := l.fates[i].tag;
      tag in l.table && Apply(l, e, capacity).fates[i]
        == match e
           case Echo(t) => if t == tag then Completed else StillPending(tag)
           case Cancel(t) => if t == tag then Cancelled else StillPending(tag)
           case Expire(t, now) => if t == tag && now >= l.table[tag].deadline then TimedOut else StillPending(tag)
           case Reset => Dropped
           case _ => StillPending(tag)
  {
    var tag := l.fates[i].tag;
    assert l.numbers[tag] == i;
  }

  /** In every run each accepted registration is pending under exactly one tag or has
      ended in exactly one way, for good; there are never more than `capacity` pending. */
  lemma {:induction false} RegistrationsAreConserved(events: seq<Event>, capacity: nat)
    ensures Accounted(Run(events, capacity), capacity)
    ensures events != [] ==> OnlySettles(Run(events[..|events| - 1], capacity).fates, Run(events, capacity).fates)
    decreases |events|
  {
    if events != [] {
      RegistrationsAreConserved(events[..|events| - 1], capacity);
      StepAccounted(Run(events[..|events| - 1], capacity), events[|events| - 1], capacity);
    }
  }

  /** In any ledger: a send accepted under a tag, and found expired at some time, has timed
      out if its timeout has passed since it was queued, and is pending still if not. */
  lemma TimesOutExactly(l: Ledger, tag: nat, queuedAt: nat, timeout: nat, now: nat, capacity: nat)
    requires Accounted(l, capacity) && tag !in l.table && |l.table| < capacity
    requires queuedAt <= LATEST && now < LATEST
    ensures
      var n := Apply(Apply(l, Register(tag, queuedAt, timeout), capacity), Expire(tag, now), capacity);
      && (tag in n.table <==> now < queuedAt + timeout)
      && n.fates[|l.fates|] == if now < queuedAt + timeout then StillPending(tag) else TimedOut
  {
    ExpiredFromTimeoutOn(queuedAt, timeout, now);
    AcceptAccounted(l, tag, queuedAt, timeout, capacity);
  }

  // ----- when an automatic tag collides ------------------------------------------------------

  /** Where a pending tag came from: a caller, or the counter as its `k`-th tag. */
  datatype Origin = Chosen | Counted(k: nat)

  /** The origin of every tag pending after an event. */
  function OriginsAfter(l: Ledger, origins: map<nat, Origin>, e: Event, capacity: nat): map<nat, Origin> {
    var n := Apply(l, e, capacity);
    map t | t in n.table :: if t in l.table && t in origins then origins[t] else if e.Begin? then Counted(n.issued) else Chosen
  }

  function Origins(events: seq<Event>, capacity: nat): map<nat, Origin>
    decreases |events|
  {
    if events == [] then map[]
    else
      var before := events[..|events| - 1];
      OriginsAfter(Run(before, capacity), Origins(before, capacity), events[|events| - 1], capacity)
  }

  /** Every pending tag has an origin, and one from the counter is the tag of its number. */
  predicate Traced(l: Ledger, origins: map<nat, Origin>) {
    && origins.Keys == l.table.Keys
    && forall t :: t in origins && origins[t].Counted? ==> 0 < origins[t].k <= l.issued && TagNumber(origins[t].k) == t
  }

  lemma StepTraced(l: Ledger, origins: map<nat, Origin>, e: Event, capacity: nat)
    requires Traced(l, origins)
    ensures Traced(Apply(l, e, capacity), OriginsAfter(l, origins, e, capacity))
  {
    var n := Apply(l, e, capacity);
    forall t | t in n.table && t !in l.table ensures e.Begin? ==> TagNumber(n.issued) == t {}
  }

  lemma {:induction false} RunTraced(events: seq<Event>, capacity: nat)
    ensures Traced(Run(events, capacity), Origins(events, capacity))
    decreases |events|
  {
    if events != [] {
      var before := events[..|events| - 1];
      RunTraced(before, capacity);
      StepTraced(Run(before, capacity), Origins(before, capacity), events[|events| - 1], capacity);
    }
  }

  /** In every run, the tag the counter gives out next is pending already only if a caller
      has chosen it, or if it is the counter's own from at least 65535 tags ago. */
  lemma CollisionIsOld(events: seq<Event>, capacity: nat)
    ensures
      var l, origins := Run(events, capacity), Origins(events, capacity);
      var next := TagNumber(l.issued + 1);
      next in l.table ==>
        && next in origins
        && (origins[next].Counted? ==> TagNumber(origins[next].k) == next && l.issued + 1 >= origins[next].k + TAGS)
  {
    RunTraced(events, capacity);
    CollisionAt(Run(events, capacity), Origins(events, capacity));
  }

  lemma CollisionAt(l: Ledger, origins: map<nat, Origin>)
    requires Traced(l, origins)
    ensures
      var next := TagNumber(l.issued + 1);
      next in l.table ==>
        && next in origins
        && (origins[next].Counted? ==> TagNumber(origins[next].k) == next && l.issued + 1 >= origins[next].k + TAGS)
  {
    var next := TagNumber(l.issued + 1);
    if next in l.table && origins[next].Counted? {
      TagsRepeatExactly(origins[next].k, l.issued + 1);
    }
  }
}
