/** The acknowledgement correlator as the source runs it: a fixed array of slots
    searched from the front, and the tag counter (kiss/ackmode.rs). */
module AckCorrelator {
  import opened Common
  import opened AckTable
  import opened KeyedSlots
  import AckMode
  import KissFrame

  datatype RegisterError = DuplicateTag | Full

  datatype TxCompletion = TxCompletion(tag: nat, queuedAt: nat, completedAt: nat)

  class Correlator {
    const pending: array<Option<Entry<nat, Ack>>>
    var cursor: nat
    ghost var ledger: Ledger

    /** The slots hold what the ledger of all registrations says is pending. */
    ghost predicate Valid()
      reads this, pending
    {
      && DistinctKeys(pending[..]) && cursor == TagNumber(ledger.issued)
      && ledger.table == View() && Accounted(ledger, pending.Length)
    }

    /** The outstanding sends by tag. */
    ghost function View(): Table
      reads pending
    {
      TableOf(pending[..])
    }

    constructor (n: nat)
      ensures Valid() && View() == map[] && ledger == FRESH && pending.Length == n && fresh(pending)
    {
      pending := new Option<Entry<nat, Ack>>[n](_ => None);
      cursor := 0;
      ledger := FRESH;
      new;
      NothingStored(pending[..]);
    }

    method NextTag() returns (tag: nat)
      requires Valid()
      modifies this`cursor, this`ledger
      ensures Valid() && tag == cursor == AckTable.NextTag(old(cursor))
      ensures ledger == Apply(old(ledger), Take, pending.Length)
    {
      ledger := Apply(ledger, Take, pending.Length);
      while true
        invariant ledger == Apply(old(ledger), Take, pending.Length)
        invariant cursor == old(cursor) || (cursor == 0 && old(cursor) == TAGS)
        decreases if cursor == TAGS then 1 else 0
      {
        cursor := (cursor + 1) % 0x1_0000;
        if cursor != 0 {
          return cursor;
        }
      }
    }

    /** The first slot that holds this tag. */
    method FindTag(tag: nat) returns (at: Option<nat>)
      requires Valid()
      ensures at.Some? <==> tag in View()
      ensures at.Some? ==> at.value < pending.Length && pending[at.value].Some? && pending[at.value].value.key == tag
    {
      for i := 0 to pending.Length
        invariant forall j :: 0 <= j < i && pending[j].Some? ==> pending[j].value.key != tag
      {
        if pending[i].Some? && pending[i].value.key == tag {
          TableHolds(pending[..], i);
          return Some(i);
        }
      }
      NotInTable(pending[..], tag);
      return None;
    }

    method Contains(tag: nat) returns (r: bool)
      requires Valid()
      ensures r <==> tag in View()
    {
      var at := FindTag(tag);
      r := at.Some?;
    }

    method FindFree() returns (at: Option<nat>)
      requires Valid()
      ensures at.Some? <==> |View()| < pending.Length
      ensures at.Some? ==> at.value < pending.Length && pending[at.value].None?
    {
      TableSize(pending[..]);
      FullOrFree(pending[..]);
      for i := 0 to pending.Length
        invariant forall j :: 0 <= j < i ==> pending[j].Some?
      {
        if pending[i].None? {
          assert pending[..][i].None?;
          return Some(i);
        }
      }
      return None;
    }

    method Register(tag: nat, queuedAt: nat, timeout: nat) returns (error: Option<RegisterError>)
      requires Valid()
      modifies this`ledger, pending
      ensures Valid() && ledger == Accept(old(ledger), tag, queuedAt, timeout, pending.Length)
      ensures error == if tag in old(View()) then Some(DuplicateTag) else if |old(View())| >= pending.Length then Some(Full) else None
      ensures View() == if error.None? then old(View())[tag := Ack(queuedAt, Deadline(queuedAt, timeout))] else old(View())
    {
      AcceptAccounted(ledger, tag, queuedAt, timeout, pending.Length);
      var known := Contains(tag);
      if known {
        return Some(DuplicateTag);
      }
      var at := FindFree();
      if at.None? {
        return Some(Full);
      }
      ghost var before := pending[..];
      var p := Entry(tag, Ack(queuedAt, Deadline(queuedAt, timeout)));
      TablePut(before, at.value, p);
      pending[at.value] := Some(p);
      assert pending[..] == before[at.value := Some(p)];
      ledger := Accept(ledger, tag, queuedAt, timeout, pending.Length);
      return None;
    }

    /** The tag counter moves whether or not the registration is accepted. */
    method Begin(queuedAt: nat, timeout: nat) returns (tag: nat, error: Option<RegisterError>)
      requires Valid()
      modifies this`cursor, this`ledger, pending
      ensures Valid() && tag == cursor == AckTable.NextTag(old(cursor))
      ensures ledger == Apply(old(ledger), AckTable.Event.Begin(queuedAt, timeout), pending.Length)
      ensures error == if tag in old(View()) then Some(DuplicateTag) else if |old(View())| >= pending.Length then Some(Full) else None
      ensures View() == if error.None? then old(View())[tag := Ack(queuedAt, Deadline(queuedAt, timeout))] else old(View())
    {
      tag := NextTag();
      error := Register(tag, queuedAt, timeout);
    }

    method Release(at: nat, ghost fate: Fate)
      requires Valid() && at < pending.Length && pending[at].Some? && !fate.StillPending?
      modifies this`ledger, pending
      ensures Valid() && View() == old(View()) - {old(pending[at]).value.key}
      ensures ledger == Finish(old(ledger), old(pending[at]).value.key, fate)
    {
      ghost var before, tag := pending[..], pending[at].value.key;
      TableHolds(before, at);
      TableDrop(before, at);
      FinishAccounted(ledger, tag, fate, pending.Length);
      pending[at] := None;
      assert pending[..] == before[at := None];
      ledger := Finish(ledger, tag, fate);
    }

    /** An echo completes exactly the send that is pending under its tag. */
    method OnEchoTag(tag: nat, now: nat) returns (done: Option<TxCompletion>)
      requires Valid()
      modifies this`ledger, pending
      ensures Valid() && View() == old(View()) - {tag} && ledger == Finish(old(ledger), tag, Completed)
      ensures done == if tag in old(View()) then Some(TxCompletion(tag, old(View())[tag].queuedAt, now)) else None
    {
      var at := FindTag(tag);
      if at.None? {
        assert View() - {tag} == View();
        return None;
      }
      TableHolds(pending[..], at.value);
      var p := pending[at.value].value.value;
      Release(at.value, Completed);
      return Some(TxCompletion(tag, p.queuedAt, now));
    }

    /** Only a frame that is an echo is correlated. */
    method OnEcho(frame: KissFrame.Frame, now: nat) returns (done: Option<TxCompletion>)
      requires Valid()
      modifies this`ledger, pending
      ensures Valid()
      ensures
        var tag := AckMode.TryParseAcknowledgement(frame);
        && View() == (if tag.Some? then old(View()) - {tag.value} else old(View()))
        && (done.Some? <==> tag.Some? && tag.value in old(View()))
        && (done.Some? ==> done.value == TxCompletion(tag.value, old(View())[tag.value].queuedAt, now))
    {
      var tag := AckMode.TryParseAcknowledgement(frame);
      if tag.None? {
        return None;
      }
      done := OnEchoTag(tag.value, now);
    }

    /** One expired send, if any is left. */
    method PollTimeout(now: nat) returns (tag: Option<nat>)
      requires Valid()
      modifies this`ledger, pending
      ensures Valid()
      ensures ledger == if tag.Some? then Finish(old(ledger), tag.value, TimedOut) else old(ledger)
      ensures tag.None? ==> View() == old(View()) && forall t :: t in View() ==> View()[t].deadline > now
      ensures tag.Some? ==>
        tag.value in old(View()) && old(View())[tag.value].deadline <= now && View() == old(View()) - {tag.value}
    {
      ghost var table := View();
      var at := FindExpired(now);
      if at.None? {
        return None;
      }
      TableHolds(pending[..], at.value);
      var expired := pending[at.value].value.key;
      assert expired in table && table[expired].deadline <= now;
      Release(at.value, TimedOut);
      tag := Some(expired);
    }

    method FindExpired(now: nat) returns (at: Option<nat>)
      requires Valid()
      ensures at.None? ==> forall t :: t in View() ==> View()[t].deadline > now
      ensures at.Some? ==> at.value < pending.Length && pending[at.value].Some? && pending[at.value].value.value.deadline <= now
    {
      for i := 0 to pending.Length
        invariant forall j :: 0 <= j < i && pending[j].Some? ==> pending[j].value.value.deadline > now
      {
        if pending[i].Some? && pending[i].value.value.deadline <= now {
          return Some(i);
        }
      }
      forall t | t in View() ensures View()[t].deadline > now {
        var i := TableSlot(pending[..], t);
        TableHolds(pending[..], i);
      }
      return None;
    }

    method Cancel(tag: nat) returns (was: bool)
      requires Valid()
      modifies this`ledger, pending
      ensures Valid() && View() == old(View()) - {tag} && (was <==> tag in old(View()))
      ensures ledger == Finish(old(ledger), tag, Cancelled)
    {
      var at := FindTag(tag);
      was := at.Some?;
      if was {
        Release(at.value, Cancelled);
      } else {
        assert View() - {tag} == View();
      }
    }

    /** Drop everything; how many sends were waiting. */
    method Reset() returns (n: nat)
      requires Valid()
      modifies this`ledger, pending
      ensures Valid() && View() == map[] && n == |old(View())|
      ensures ledger == Apply(old(ledger), AckTable.Event.Reset, pending.Length)
    {
      ResetAccounted(ledger, pending.Length);
      n := ClearSlots();
      ledger := Apply(ledger, AckTable.Event.Reset, pending.Length);
    }

    method ClearSlots() returns (n: nat)
      requires DistinctKeys(pending[..])
      modifies pending
      ensures DistinctKeys(pending[..]) && View() == map[] && n == |old(View())|
    {
      ghost var before := pending[..];
      n := 0;
      for i := 0 to pending.Length
        invariant n == CountSome(before[..i])
        invariant forall j :: 0 <= j < i ==> pending[j].None?
        invariant forall j :: i <= j < pending.Length ==> pending[j] == before[j]
      {
        assert before[..i + 1][..i] == before[..i];
        if pending[i].Some? {
          n := n + 1;
        }
        pending[i] := None;
      }
      assert before[..pending.Length] == before;
      TableSize(before);
      NothingStored(pending[..]);
    }
  }
}
