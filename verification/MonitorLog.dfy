/** The traffic monitor's ring of recent entries (monitor.rs). */
module MonitorLog {
  import opened Arithmetic
  import opened Common

  const SEQUENCES: nat := 0x1_0000_0000

  datatype Direction = Rx | Tx | Info

  datatype Entry = Entry(number: nat, at: nat, direction: Direction, text: Bytes)

  // ----- the text of an entry -----------------------------------------------------------

  const DOT: Byte := 0x2E
  const TILDE: Byte := 0x7E

  predicate Printable(b: Byte) { 0x20 <= b < 0x7F }

  function Shown(b: Byte): (r: Byte)
    ensures Printable(r)
    ensures 0x20 <= b < 0x7F ==> r == b
    ensures !(0x20 <= b < 0x7F) ==> r == 0x2E
  {
    if Printable(b) then b else DOT
  }

  function Sanitised(s: Bytes): (r: Bytes)
    ensures |r| == |s| && forall i :: 0 <= i < |s| ==> r[i] == Shown(s[i])
  {
    seq(|s|, i requires 0 <= i < |s| => Shown(s[i]))
  }

  function Joined(pieces: seq<Bytes>): Bytes {
    if pieces == [] then [] else Joined(pieces[..|pieces| - 1]) + pieces[|pieces| - 1]
  }

  /** What an entry shows of what was written: all of it, or as much as fits with a tilde
      for its last character. */
  function TextOf(written: Bytes, width: nat): (t: Bytes)
    ensures |t| == if |written| <= width then |written| else width
    ensures forall i :: 0 <= i < |t| ==> Printable(t[i])
  {
    if |written| <= width then Sanitised(written)
    else if width == 0 then []
    else Sanitised(written[..width - 1]) + [TILDE]
  }

  /** Unless something was written that ends in a tilde there anyway, the tilde tells a cut
      text from a whole one. */
  lemma TildeMarksCut(written: Bytes, width: nat)
    requires width > 0 && |written| >= width && Shown(written[width - 1]) != TILDE
    ensures TextOf(written, width)[width - 1] == TILDE <==> |written| > width
  {}

  /** A buffer that takes what fits, printable, and remembers whether that was all. */
  class TruncatingWriter {
    const buf: array<Byte>
    var len: nat
    var truncated: bool
    ghost var written: Bytes

    ghost predicate Valid()
      reads this, buf
    {
      && len == (if |written| <= buf.Length then |written| else buf.Length)
      && (truncated <==> |written| > buf.Length)
      && buf[..len] == Sanitised(written[..len])
    }

    constructor (width: nat)
      ensures Valid() && written == [] && buf.Length == width && fresh(buf)
    {
      buf := new Byte[width];
      len, truncated := 0, false;
      written := [];
    }

    method WriteStr(s: Bytes)
      requires Valid()
      modifies this, buf
      ensures Valid() && written == old(written) + s
    {
      for i := 0 to |s|
        invariant Valid() && written == old(written) + s[..i]
      {
        assert s[..i + 1] == s[..i] + [s[i]];
        if len == buf.Length {
          truncated := true;
          written := old(written) + s;
          assert written[..len] == (old(written) + s[..i])[..len];
          return;
        }
        buf[len] := Shown(s[i]);
        len := len + 1;
        written := written + [s[i]];
        assert buf[..len] == Sanitised(written[..len]);
      }
      assert s[..|s|] == s;
    }
  }

  method Render(pieces: seq<Bytes>, width: nat) returns (text: Bytes)
    ensures text == TextOf(Joined(pieces), width)
  {
    var w := new TruncatingWriter(width);
    for i := 0 to |pieces|
      invariant w.Valid() && fresh(w) && fresh(w.buf) && w.written == Joined(pieces[..i]) && w.buf.Length == width
    {
      assert pieces[..i + 1][..i] == pieces[..i];
      w.WriteStr(pieces[i]);
    }
    assert pieces[..|pieces|] == pieces;
    ghost var all := w.written;
    if w.truncated && w.len > 0 {
      w.buf[w.len - 1] := TILDE;
      assert w.buf[..w.len - 1] == Sanitised(all[..w.len])[..w.len - 1] == Sanitised(all[..w.len - 1]);
      assert w.buf[..w.len] == w.buf[..w.len - 1] + [TILDE];
    } else if !w.truncated {
      assert all[..w.len] == all;
    }
    text := w.buf[..w.len];
  }

  // ----- the ring ------------------------------------------------------------------------

  /** The entries numbered above `after` among the last `capacity` of an unbounded log. */
  function Since(log: seq<Entry>, capacity: nat, after: nat): seq<Entry> {
    var from := if |log| > capacity then |log| - capacity else 0;
    var k := if after > from then after else from;
    if k >= |log| then [] else log[k..]
  }

  predicate Numbered(log: seq<Entry>) {
    forall i :: 0 <= i < |log| ==> log[i].number == i + 1
  }

  /** That is all of them and no others, in order. */
  lemma SinceIsExact(log: seq<Entry>, capacity: nat, after: nat, i: nat)
    requires Numbered(log) && i < |log|
    ensures log[i] in Since(log, capacity, after) <==> log[i].number > after && i + capacity >= |log|
  {
    var s := Since(log, capacity, after);
    if s != [] {
      var k := |log| - |s|;
      assert s == log[k..];
      assert forall j :: 0 <= j < |s| ==> s[j].number == k + j + 1;
      if i >= k { assert s[i - k] == log[i]; }
    }
  }

  lemma SinceStart(log: seq<Entry>, capacity: nat, after: nat, start: nat)
    requires 0 < start <= |log|
    requires start == (if |log| > capacity && |log| - capacity > after then |log| - capacity + 1 else after + 1)
    ensures Since(log, capacity, after) == log[start - 1..]
  {}

  class Log {
    const entries: array<Entry>
    const width: nat
    var newest: nat
    ghost var log: seq<Entry>

    /** The slots hold the last entries of an unbounded log, which begins again when
        the sequence numbers wrap. */
    ghost predicate Valid()
      reads this, entries
    {
      && entries.Length > 0 && newest == |log| < SEQUENCES && Numbered(log)
      && forall s :: 0 < s <= newest && s + entries.Length > newest ==> entries[s % entries.Length] == log[s - 1]
    }

    constructor (capacity: nat, w: nat)
      requires capacity > 0
      ensures Valid() && log == [] && entries.Length == capacity && width == w && fresh(entries)
    {
      entries := new Entry[capacity](_ => Entry(0, 0, Rx, []));
      width := w;
      newest := 0;
      log := [];
    }

    function NextSeq(): nat
      reads this
    {
      var next := (newest + 1) % SEQUENCES;
      if next == 0 then 1 else next
    }

    /** An entry with what the pieces say. Its number is one more than the last; behind
        the last of all it is 1 again, and everything logged before is out of reach. */
    method PushWith(direction: Direction, at: nat, pieces: seq<Bytes>) returns (number: nat)
      requires Valid()
      modifies this, entries
      ensures Valid()
      ensures
        var kept := if |old(log)| + 1 < SEQUENCES then old(log) else [];
        && number == |kept| + 1
        && log == kept + [Entry(number, at, direction, TextOf(Joined(pieces), width))]
    {
      number := NextSeq();
      if number == 1 {
        newest, log := 0, [];
      }
      var text := Render(pieces, width);
      Store(Entry(number, at, direction, text));
    }

    /** Put the next entry in its slot. */
    method Store(e: Entry)
      requires Valid() && e.number == newest + 1 < SEQUENCES
      modifies this, entries
      ensures Valid() && log == old(log) + [e]
    {
      ghost var n := entries.Length;
      forall s | 0 < s <= newest && s + n > e.number ensures s % n != e.number % n {
        RemaindersDiffer(s, e.number, n);
      }
      newest := e.number;
      entries[e.number % entries.Length] := e;
      log := log + [e];
    }

    method OldestSeq() returns (o: Option<nat>)
      requires Valid()
      ensures o.None? <==> log == []
      ensures o.Some? ==> o.value == if |log| > entries.Length then |log| - entries.Length + 1 else 1
    {
      if newest == 0 {
        return None;
      }
      return Some(if newest > entries.Length then newest - entries.Length + 1 else 1);
    }

    /** The entries numbered from `start` to the newest. */
    method Collect(start: nat, next: nat) returns (r: seq<Entry>)
      requires Valid() && 0 < start <= next == newest + 1 && start + entries.Length > newest
      ensures r == log[start - 1..]
    {
      r := [];
      for s := start to next
        invariant r == log[start - 1..s - 1]
      {
        r := r + [entries[s % entries.Length]];
      }
    }

    /** The entries after a number, oldest first. It is exactly those the ring still has,
        but for one moment: when the newest number is the last before the wrap, nothing. */
    method EntriesSince(after: nat) returns (r: seq<Entry>)
      requires Valid() && after < SEQUENCES
      ensures r == if newest == SEQUENCES - 1 then [] else Since(log, entries.Length, after)
    {
      var oldest := OldestSeq();
      var next := NextSeq();
      var above := if after + 1 < SEQUENCES then after + 1 else after;
      var start := if oldest.None? then next else if oldest.value > above then oldest.value else above;
      if start >= next {
        return [];
      }
      r := Collect(start, next);
      SinceStart(log, entries.Length, after, start);
    }
  }
}
