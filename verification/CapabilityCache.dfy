/** What a node has learned of its neighbours' capabilities (sdl/capability.rs). */
module CapabilityCache {
  import opened Common
  import opened Callsigns
  import opened KeyedSlots

  /** Thirty days in milliseconds. */
  const STALE_AFTER: nat := 30 * 24 * 60 * 60 * 1000

  const LATEST: nat := 0xFFFF_FFFF_FFFF_FFFF

  datatype DialPolicy = Interlink | UserConnect

  datatype DialPlan = DialPlan(extended: bool, preConnectXid: bool)

  datatype Key = Key(port: nat, peer: Callsign)

  /** `None` in a dimension means it was never probed. */
  datatype Record = Record(extended: Option<bool>, srejViaXid: Option<bool>, lastProbed: nat, lastRefused: Option<nat>)

  type Cache = map<Key, Record>

  // ----- planning a dial ------------------------------------------------------------------

  /** A clock that has gone back counts as no time at all. */
  predicate Recent(lastProbed: nat, now: nat) { now < lastProbed + STALE_AFTER }

  predicate Fresh(r: Option<Record>, dimension: Option<bool>, now: nat) {
    r.Some? && dimension.Some? && Recent(r.value.lastProbed, now)
  }

  function Plan(r: Option<Record>, policy: DialPolicy, now: nat): DialPlan {
    var extended := if r.Some? then r.value.extended else None;
    var srej := if r.Some? then r.value.srejViaXid else None;
    DialPlan(
      if Fresh(r, extended, now) then extended.value else policy.UserConnect?,
      !(Fresh(r, srej, now) && srej == Some(false)))
  }

  /** A record thirty days old plans exactly like none, in every policy; a younger one
      decides each dimension it knows. */
  lemma StaleIsMiss(r: Record, policy: DialPolicy, now: nat)
    ensures now >= r.lastProbed + STALE_AFTER ==> Plan(Some(r), policy, now) == Plan(None, policy, now)
    ensures now < r.lastProbed + STALE_AFTER && r.extended.Some? ==> Plan(Some(r), policy, now).extended == r.extended.value
    ensures now < r.lastProbed + STALE_AFTER && r.srejViaXid.Some? ==> Plan(Some(r), policy, now).preConnectXid == r.srejViaXid.value
  {}

  // ----- learning from a dial ----------------------------------------------------------------

  /** What a dial offered, what came back, and when. */
  datatype Dial = Dial(extended: bool, cameExtended: bool, xid: bool, cameSrej: bool, at: nat)

  function Learned(prior: Option<Record>, d: Dial): Record {
    Record(
      if d.extended then Some(d.cameExtended) else if prior.Some? then prior.value.extended else None,
      if d.xid then Some(d.cameSrej) else if prior.Some? then prior.value.srejViaXid else None,
      d.at,
      if d.extended && !d.cameExtended then Some(d.at) else if prior.Some? then prior.value.lastRefused else None)
  }

  function LearnedFrom(dials: seq<Dial>): Option<Record>
    decreases |dials|
  {
    if dials == [] then None else Some(Learned(LearnedFrom(dials[..|dials| - 1]), dials[|dials| - 1]))
  }

  /** `v` is what the latest dial observed among those that asked, or nothing if none did. */
  ghost predicate LatestAnswer<V>(dials: seq<Dial>, asked: Dial -> bool, answer: Dial -> V, v: Option<V>) {
    match v
    case None => forall i :: 0 <= i < |dials| ==> !asked(dials[i])
    case Some(a) =>
      exists i :: 0 <= i < |dials| && asked(dials[i]) && answer(dials[i]) == a
        && forall j :: i < j < |dials| ==> !asked(dials[j])
  }

  lemma AnswerStays<V>(dials: seq<Dial>, d: Dial, asked: Dial -> bool, answer: Dial -> V, v: Option<V>)
    requires LatestAnswer(dials, asked, answer, v)
    ensures LatestAnswer(dials + [d], asked, answer, if asked(d) then Some(answer(d)) else v)
  {
    var all := dials + [d];
    if asked(d) {
      assert all[|dials|] == d;
    } else if v.Some? {
      var i :| 0 <= i < |dials| && asked(dials[i]) && answer(dials[i]) == v.value
        && forall j :: i < j < |dials| ==> !asked(dials[j]);
      assert all[i] == dials[i];
      assert forall j :: i < j < |all| ==> !asked(all[j]);
    }
  }

  /** A record agrees, dimension by dimension, with the latest dial that probed it. */
  ghost predicate Agrees(r: Record, dials: seq<Dial>) {
    && dials != [] && r.lastProbed == dials[|dials| - 1].at
    && LatestAnswer(dials, (d: Dial) => d.extended, (d: Dial) => d.cameExtended, r.extended)
    && LatestAnswer(dials, (d: Dial) => d.xid, (d: Dial) => d.cameSrej, r.srejViaXid)
    && LatestAnswer(dials, (d: Dial) => d.extended && !d.cameExtended, (d: Dial) => d.at, r.lastRefused)
  }

  lemma {:induction false} LearnedAgrees(dials: seq<Dial>)
    requires dials != []
    ensures Agrees(LearnedFrom(dials).value, dials)
    decreases |dials|
  {
    var n := |dials| - 1;
    var before, d := dials[..n], dials[n];
    assert dials == before + [d];
    var prior := if n == 0 then Record(None, None, 0, None) else LearnedFrom(before).value;
    if n > 0 { LearnedAgrees(before); }
    AnswerStays(before, d, (d: Dial) => d.extended, (d: Dial) => d.cameExtended, prior.extended);
    AnswerStays(before, d, (d: Dial) => d.xid, (d: Dial) => d.cameSrej, prior.srejViaXid);
    AnswerStays(before, d, (d: Dial) => d.extended && !d.cameExtended, (d: Dial) => d.at, prior.lastRefused);
  }

  lemma LearnedNext(log: seq<Dial>, d: Dial)
    ensures LearnedFrom(log + [d]) == Some(Learned(LearnedFrom(log), d))
  {
    assert (log + [d])[..|log|] == log;
  }

  // ----- the cache ------------------------------------------------------------------------------

  /** A record no other was probed before. */
  predicate LeastRecent(c: Cache, k: Key) {
    k in c && forall l :: l in c ==> c[k].lastProbed <= c[l].lastProbed
  }

  /** The dials each surviving record has learned from, since it was inserted. */
  type Logs = map<Key, seq<Dial>>

  ghost predicate AgreesWith(c: Cache, logs: Logs) {
    c.Keys == logs.Keys && forall k :: k in c ==> logs[k] != [] && LearnedFrom(logs[k]) == Some(c[k])
  }

  lemma SameKey<K, V>(m: map<K, V>, k: K, v: V)
    requires k in m
    ensures (m - {k})[k := v] == m[k := v]
  {}

  class PeerCapabilityCache {
    const records: array<Option<Entry<Key, Record>>>
    ghost var logs: Logs

    ghost predicate Valid()
      reads this, records
    {
      && records.Length > 0 && DistinctKeys(records[..])
      && AgreesWith(View(), logs)
      && forall i :: 0 <= i < records.Length && records[i].Some? ==> records[i].value.value.lastProbed <= LATEST
    }

    ghost function View(): Cache
      reads records
    {
      TableOf(records[..])
    }

    constructor (n: nat)
      requires n > 0
      ensures Valid() && View() == map[] && records.Length == n && fresh(records)
    {
      records := new Option<Entry<Key, Record>>[n](_ => None);
      logs := map[];
      new;
      NothingStored(records[..]);
    }

    method IndexOf(k: Key) returns (at: Option<nat>)
      requires DistinctKeys(records[..])
      ensures at.Some? <==> k in View()
      ensures at.Some? ==>
        at.value < records.Length && records[at.value].Some? && records[at.value].value.key == k
        && records[at.value].value.value == View()[k]
    {
      for i := 0 to records.Length
        invariant forall j :: 0 <= j < i && records[j].Some? ==> records[j].value.key != k
      {
        if records[i].Some? && records[i].value.key == k {
          TableHolds(records[..], i);
          return Some(i);
        }
      }
      NotInTable(records[..], k);
      return None;
    }

    method Lookup(k: Key) returns (r: Option<Record>)
      requires DistinctKeys(records[..])
      ensures r == if k in View() then Some(View()[k]) else None
    {
      var at := IndexOf(k);
      r := if at.Some? then Some(records[at.value].value.value) else None;
    }

    /** A dimension learned within the last thirty days decides; otherwise a user's dial
        is extended and an interlink's is not, and the XID is sent. */
    method PlanDial(k: Key, policy: DialPolicy, now: nat) returns (p: DialPlan)
      requires Valid()
      ensures
        var known := k in View() && now < View()[k].lastProbed + 2_592_000_000;
        && p.extended == (if known && View()[k].extended.Some? then View()[k].extended.value else policy == UserConnect)
        && p.preConnectXid == (if known && View()[k].srejViaXid.Some? then View()[k].srejViaXid.value else true)
      ensures p == Plan(if k in View() then Some(View()[k]) else None, policy, now)
    {
      var r := Lookup(k);
      p := Plan(r, policy, now);
    }

    /** Slot of the last record among those probed least recently. */
    method Victim() returns (v: nat)
      requires Valid() && forall i :: 0 <= i < records.Length ==> records[i].Some?
      ensures v < records.Length && LeastRecent(View(), records[v].value.key)
      ensures forall j :: v < j < records.Length ==> records[j].value.value.lastProbed > records[v].value.value.lastProbed
    {
      v := 0;
      var oldest := LATEST;
      for i := 0 to records.Length
        invariant v < records.Length
        invariant i > 0 ==> v < i && records[v].value.value.lastProbed == oldest
        invariant i == 0 ==> oldest == LATEST
        invariant forall j :: 0 <= j < i ==> oldest <= records[j].value.value.lastProbed
        invariant forall j :: v < j < i ==> oldest < records[j].value.value.lastProbed
      {
        if records[i].value.value.lastProbed <= oldest {
          oldest := records[i].value.value.lastProbed;
          v := i;
        }
      }
      var k := records[v].value.key;
      TableHolds(records[..], v);
      forall l | l in View() ensures View()[k].lastProbed <= View()[l].lastProbed {
        var j := TableSlot(records[..], l);
        TableHolds(records[..], j);
      }
    }

    /** Put a record in slot `at`, over what was there. */
    method Store(at: nat, k: Key, r: Record, ghost log: seq<Dial>)
      requires Valid() && at < records.Length && r.lastProbed <= LATEST
      requires records[at].Some? ==> records[at].value.key == k || k !in View()
      requires records[at].None? ==> k !in View()
      requires log != [] && LearnedFrom(log) == Some(r)
      modifies this`logs, records
      ensures Valid()
      ensures View() == (if old(records[at]).Some? then old(View()) - {old(records[at]).value.key} else old(View()))[k := r]
      ensures logs == (if old(records[at]).Some? then old(logs) - {old(records[at]).value.key} else old(logs))[k := log]
    {
      ghost var before := records[..];
      if records[at].Some? {
        TableReplace(before, at, Entry(k, r));
        logs := (logs - {records[at].value.key})[k := log];
      } else {
        TablePut(before, at, Entry(k, r));
        logs := logs[k := log];
      }
      records[at] := Some(Entry(k, r));
      assert records[..] == before[at := Some(Entry(k, r))];
    }

    method FindFree() returns (at: Option<nat>)
      requires DistinctKeys(records[..])
      ensures at.Some? <==> |View()| < records.Length
      ensures at.Some? ==> at.value < records.Length && records[at.value].None?
      ensures at.None? ==> forall i :: 0 <= i < records.Length ==> records[i].Some?
    {
      TableSize(records[..]);
      FullOrFree(records[..]);
      for i := 0 to records.Length
        invariant forall j :: 0 <= j < i ==> records[j].Some?
      {
        if records[i].None? {
          assert records[..][i].None?;
          return Some(i);
        }
      }
      return None;
    }

    /** What a dial observed goes into the peer's record, in the dimensions it probed and
        no other. A new peer in a full cache displaces one that was probed least recently. */
    method RecordOutcome(k: Key, d: Dial) returns (ghost displaced: Option<Key>)
      requires Valid() && d.at <= LATEST
      modifies this`logs, records
      ensures Valid()
      ensures k in View() && View()[k] == Learned(if k in old(View()) then Some(old(View())[k]) else None, d)
      ensures displaced.Some? <==> k !in old(View()) && |old(View())| >= records.Length
      ensures displaced.None? ==>
        && View() == old(View())[k := View()[k]]
        && logs == old(logs)[k := (if k in old(logs) then old(logs)[k] else []) + [d]]
      ensures displaced.Some? ==>
        && LeastRecent(old(View()), displaced.value)
        && View() == (old(View()) - {displaced.value})[k := View()[k]]
        && logs == (old(logs) - {displaced.value})[k := [d]]
    {
      var at := IndexOf(k);
      var prior := if at.Some? then Some(records[at.value].value.value) else None;
      var r := Learned(prior, d);
      if at.Some? {
        LearnedNext(logs[k], d);
        SameKey(View(), k, r);
        SameKey(logs, k, logs[k] + [d]);
        Store(at.value, k, r, logs[k] + [d]);
        return None;
      }
      LearnedNext([], d);
      displaced := Insert(k, r, d);
    }

    /** A record of a new peer goes into a free slot, or over a victim. */
    method Insert(k: Key, r: Record, ghost d: Dial) returns (ghost displaced: Option<Key>)
      requires Valid() && r.lastProbed <= LATEST && k !in View() && LearnedFrom([d]) == Some(r)
      modifies this`logs, records
      ensures Valid() && (displaced.Some? <==> |old(View())| >= records.Length)
      ensures displaced.None? ==> View() == old(View())[k := r] && logs == old(logs)[k := [d]]
      ensures displaced.Some? ==>
        && LeastRecent(old(View()), displaced.value)
        && View() == (old(View()) - {displaced.value})[k := r] && logs == (old(logs) - {displaced.value})[k := [d]]
    {
      var hole := FindFree();
      if hole.Some? {
        Store(hole.value, k, r, [d]);
        return None;
      }
      var victim := Victim();
      displaced := Some(records[victim].value.key);
      Store(victim, k, r, [d]);
    }

    method Forget(k: Key) returns (was: bool)
      requires Valid()
      modifies this`logs, records
      ensures Valid() && (was <==> k in old(View()))
      ensures View() == old(View()) - {k} && logs == old(logs) - {k}
    {
      var at := IndexOf(k);
      was := at.Some?;
      if was {
        ghost var before := records[..];
        TableDrop(before, at.value);
        records[at.value] := None;
        assert records[..] == before[at.value := None];
        logs := logs - {k};
      } else {
        assert View() - {k} == View() && logs - {k} == logs;
      }
    }
  }

  /** So each surviving record is, dimension by dimension, the observation of the latest
      dial that probed it since the record was inserted. */
  lemma CacheAgreesWithHistory(c: Cache, logs: Logs, k: Key)
    requires AgreesWith(c, logs) && k in c
    ensures Agrees(c[k], logs[k])
  {
    LearnedAgrees(logs[k]);
  }
}
