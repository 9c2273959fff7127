/** A fixed array of slots that hold entries under distinct keys, seen as a map: how
    the acknowledgement and capability tables are stored (kiss/ackmode.rs,
    sdl/capability.rs). */
module KeyedSlots {
  import opened Common

  datatype Entry<+K, +V> = Entry(key: K, value: V)

  type Slots<K, V> = seq<Option<Entry<K, V>>>

  predicate DistinctKeys<K(==), V>(s: Slots<K, V>) {
    forall i, j :: 0 <= i < j < |s| && s[i].Some? && s[j].Some? ==> s[i].value.key != s[j].value.key
  }

  function TableOf<K, V>(s: Slots<K, V>): map<K, V> {
    if s == [] then map[]
    else
      var m, last := TableOf(s[..|s| - 1]), s[|s| - 1];
      match last
      case None => m
      case Some(e) => m[e.key := e.value]
  }

  function CountSome<K, V>(s: Slots<K, V>): (n: nat)
    ensures n <= |s|
  {
    if s == [] then 0 else CountSome(s[..|s| - 1]) + if s[|s| - 1].Some? then 1 else 0
  }

  lemma {:induction false} TableHolds<K, V>(s: Slots<K, V>, i: nat)
    requires DistinctKeys(s) && i < |s| && s[i].Some?
    ensures s[i].value.key in TableOf(s) && TableOf(s)[s[i].value.key] == s[i].value.value
    decreases |s|
  {
    var n := |s| - 1;
    if i < n { TableHolds(s[..n], i); }
  }

  lemma {:induction false} TableSlot<K, V>(s: Slots<K, V>, key: K) returns (i: nat)
    requires key in TableOf(s)
    ensures i < |s| && s[i].Some? && s[i].value.key == key
    decreases |s|
  {
    var n := |s| - 1;
    if s[n].Some? && s[n].value.key == key { i := n; } else { i := TableSlot(s[..n], key); }
  }

  lemma NotInTable<K, V>(s: Slots<K, V>, key: K)
    requires forall i :: 0 <= i < |s| && s[i].Some? ==> s[i].value.key != key
    ensures key !in TableOf(s)
  {
    if key in TableOf(s) {
      var _ := TableSlot(s, key);
    }
  }

  lemma {:induction false} TableSize<K, V>(s: Slots<K, V>)
    requires DistinctKeys(s)
    ensures |TableOf(s)| == CountSome(s)
    decreases |s|
  {
    if s != [] {
      var n := |s| - 1;
      TableSize(s[..n]);
      if s[n].Some? { NotInTable(s[..n], s[n].value.key); }
    }
  }

  lemma {:induction false} FullOrFree<K, V>(s: Slots<K, V>)
    ensures CountSome(s) == |s| <==> forall i :: 0 <= i < |s| ==> s[i].Some?
    decreases |s|
  {
    if s != [] {
      var n := |s| - 1;
      FullOrFree(s[..n]);
      assert forall i :: 0 <= i < n ==> s[..n][i] == s[i];
    }
  }

  lemma {:induction false} NothingStored<K, V>(s: Slots<K, V>)
    requires forall i :: 0 <= i < |s| ==> s[i].None?
    ensures TableOf(s) == map[] && DistinctKeys(s)
    decreases |s|
  {
    if s != [] {
      NothingStored(s[..|s| - 1]);
    }
  }

  /** Filling a free slot with a new key adds an entry. */
  lemma TablePut<K, V>(s: Slots<K, V>, i: nat, e: Entry<K, V>)
    requires DistinctKeys(s) && i < |s| && s[i].None? && e.key !in TableOf(s)
    ensures DistinctKeys(s[i := Some(e)])
    ensures TableOf(s[i := Some(e)]) == TableOf(s)[e.key := e.value]
  {
    var t := s[i := Some(e)];
    forall j | 0 <= j < |s| && s[j].Some? ensures s[j].value.key != e.key { TableHolds(s, j); }
    assert DistinctKeys(t);
    SameElsewhere(s, t, i);
    TableHolds(t, i);
  }

  /** Emptying a slot removes its entry. */
  lemma TableDrop<K, V>(s: Slots<K, V>, i: nat)
    requires DistinctKeys(s) && i < |s| && s[i].Some?
    ensures DistinctKeys(s[i := None])
    ensures TableOf(s[i := None]) == TableOf(s) - {s[i].value.key}
  {
    var t := s[i := None];
    SameElsewhere(s, t, i);
    NotInTable(t, s[i].value.key);
    TableHolds(s, i);
  }

  /** Writing over a slot replaces its entry by one of the same or a new key. */
  lemma TableReplace<K, V>(s: Slots<K, V>, i: nat, e: Entry<K, V>)
    requires DistinctKeys(s) && i < |s| && s[i].Some?
    requires e.key == s[i].value.key || e.key !in TableOf(s)
    ensures DistinctKeys(s[i := Some(e)])
    ensures TableOf(s[i := Some(e)]) == (TableOf(s) - {s[i].value.key})[e.key := e.value]
  {
    var t := s[i := None];
    TableDrop(s, i);
    TablePut(t, i, e);
    assert t[i := Some(e)] == s[i := Some(e)];
  }

  /** Tables of slots that differ in one place differ at most in the keys of that place. */
  lemma SameElsewhere<K, V>(s: Slots<K, V>, t: Slots<K, V>, i: nat)
    requires DistinctKeys(s) && DistinctKeys(t) && |s| == |t| && i < |s|
    requires forall j :: 0 <= j < |s| && j != i ==> s[j] == t[j]
    ensures forall key | key in TableOf(s) && !(s[i].Some? && s[i].value.key == key) && !(t[i].Some? && t[i].value.key == key) ::
      key in TableOf(t) && TableOf(s)[key] == TableOf(t)[key]
    ensures forall key | key in TableOf(t) && !(s[i].Some? && s[i].value.key == key) && !(t[i].Some? && t[i].value.key == key) ::
      key in TableOf(s) && TableOf(s)[key] == TableOf(t)[key]
  {
    forall key | key in TableOf(s) && !(s[i].Some? && s[i].value.key == key)
      ensures key in TableOf(t) && TableOf(s)[key] == TableOf(t)[key]
    {
      var j := TableSlot(s, key);
      TableHolds(s, j);
      TableHolds(t, j);
    }
    forall key | key in TableOf(t) && !(t[i].Some? && t[i].value.key == key)
      ensures key in TableOf(s) && TableOf(s)[key] == TableOf(t)[key]
    {
      var j := TableSlot(t, key);
      TableHolds(s, j);
      TableHolds(t, j);
    }
  }
}
