/** A fixed-capacity ring that forgets its oldest element when it is full, as the
    radio statistics keep their samples and carrier windows (radio/rssi_tagging.rs). */
module Ring {
  import opened Arithmetic

  /** The last `n` elements, or all if there are fewer. */
  function LastOf<T>(s: seq<T>, n: nat): (r: seq<T>)
    ensures |r| == if |s| <= n then |s| else n
  {
    if |s| <= n then s else s[|s| - n..]
  }

  class FixedRing<T> {
    const data: array<T>
    var head: nat
    var len: nat
    ghost var contents: seq<T>

    /** `contents`, oldest first, is what the slots from `head` on hold. */
    ghost predicate Valid()
      reads this, data
    {
      && 0 < data.Length && head < data.Length && len <= data.Length && |contents| == len
      && forall i :: 0 <= i < len ==> contents[i] == data[Slot(i)]
    }

    /** The slot of the element that has `i` older ones. */
    function Slot(i: nat): (s: nat)
      requires head < data.Length && i <= data.Length
      reads this`head
      ensures s < data.Length
    {
      WrapOnce(head + i, data.Length);
      (head + i) % data.Length
    }

    constructor (capacity: nat, initial: T)
      requires 0 < capacity
      ensures Valid() && fresh(data) && data.Length == capacity && contents == []
    {
      data := new T[capacity](_ => initial);
      head, len := 0, 0;
      contents := [];
    }

    lemma SlotIs(i: nat)
      requires head < data.Length && i <= data.Length
      ensures Slot(i) == if head + i < data.Length then head + i else head + i - data.Length
    {
      WrapOnce(head + i, data.Length);
    }

    lemma SlotsDiffer(i: nat, j: nat)
      requires head < data.Length && i < j < data.Length
      ensures Slot(i) != Slot(j)
    {
      SlotIs(i);
      SlotIs(j);
    }

    method At(i: nat) returns (x: T)
      requires Valid() && i < len
      ensures x == contents[i]
    {
      x := data[Slot(i)];
    }

    method DropOldest()
      requires Valid() && len > 0
      modifies this
      ensures Valid() && len == old(len) - 1 && contents == old(contents)[1..]
    {
      forall i | 0 <= i < len ensures contents[i] == data[if head + i < data.Length then head + i else head + i - data.Length] {
        SlotIs(i);
      }
      WrapOnce(head + 1, data.Length);
      head := (head + 1) % data.Length;
      len := len - 1;
      contents := contents[1..];
      forall i | 0 <= i < len ensures contents[i] == data[Slot(i)] {
        SlotIs(i);
      }
    }

    method Push(x: T)
      requires Valid()
      modifies this, data
      ensures Valid() && contents == LastOf(old(contents) + [x], data.Length)
    {
      if len == data.Length {
        DropOldest();
      }
      var at := Slot(len);
      forall i | 0 <= i < len ensures Slot(i) != at {
        SlotsDiffer(i, len);
      }
      data[at] := x;
      len := len + 1;
      contents := contents + [x];
    }

    method Replace(i: nat, x: T)
      requires Valid() && i < len
      modifies this`contents, data
      ensures Valid() && contents == old(contents)[i := x]
    {
      forall j | 0 <= j < len && j != i ensures Slot(j) != Slot(i) {
        if j < i { SlotsDiffer(j, i); } else { SlotsDiffer(i, j); }
      }
      data[Slot(i)] := x;
      contents := contents[i := x];
    }
  }
}
