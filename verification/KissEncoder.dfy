/** The KISS encoder (kiss/encoder.rs). */
module KissEncoder {
  import opened Common
  import opened KissFrame

  function MaxEncodedLen(payloadLen: nat): nat { 4 + payloadLen * 2 }

  function Escape(b: Byte): (e: Bytes)
    ensures 1 <= |e| <= 2
  {
    if b == FEND then [FESC, TFEND]
    else if b == FESC then [FESC, TFESC]
    else [b]
  }

  function EscapeAll(data: Bytes): (e: Bytes)
    ensures |e| <= 2 * |data|
    decreases |data|
  {
    if data == [] then [] else EscapeAll(data[..|data| - 1]) + Escape(data[|data| - 1])
  }

  /** `FEND | escaped body | FEND`. */
  function Encode(f: Frame): (e: Bytes)
    ensures |e| <= MaxEncodedLen(|f.payload|)
  {
    [FEND] + EscapeAll(Body(f)) + [FEND]
  }

  method WriteEscaped(dst: array<Byte>, at: nat, b: Byte) returns (n: nat)
    requires at + 2 <= dst.Length
    modifies dst
    ensures n == |Escape(b)| && dst[..at + n] == old(dst[..at]) + Escape(b)
  {
    if b == FEND {
      dst[at] := FESC;
      dst[at + 1] := TFEND;
      n := 2;
    } else if b == FESC {
      dst[at] := FESC;
      dst[at + 1] := TFESC;
      n := 2;
    } else {
      dst[at] := b;
      n := 1;
    }
    assert dst[..at + n] == dst[..at] + dst[at..at + n];
  }

  lemma EscapeNext(data: Bytes, k: nat)
    requires k < |data|
    ensures EscapeAll(data[..k + 1]) == EscapeAll(data[..k]) + Escape(data[k])
  {
    assert data[..k + 1][..k] == data[..k];
  }

  /** Write the escaped bytes of `data` from `at` on. */
  method WriteAllEscaped(dst: array<Byte>, at: nat, data: Bytes) returns (end: nat)
    requires at + 2 * |data| + 1 <= dst.Length
    modifies dst
    ensures end <= at + 2 * |data| && dst[..end] == old(dst[..at]) + EscapeAll(data)
  {
    end := at;
    ghost var before := dst[..at];
    assert before + EscapeAll(data[..0]) == before;
    for k := 0 to |data|
      invariant end <= at + 2 * k && dst[..end] == before + EscapeAll(data[..k])
    {
      EscapeNext(data, k);
      var w := WriteEscaped(dst, end, data[k]);
      assert before + (EscapeAll(data[..k]) + Escape(data[k])) == (before + EscapeAll(data[..k])) + Escape(data[k]);
      end := end + w;
    }
    assert data[..|data|] == data;
  }

  /** Fails exactly for a bad port or a buffer below the worst case. */
  method EncodeInto(dst: array<Byte>, f: Frame) returns (n: Option<nat>)
    modifies dst
    ensures n.None? <==> f.port > 15 || dst.Length < MaxEncodedLen(|f.payload|)
    ensures n.Some? ==> n.value <= dst.Length && dst[..n.value] == Encode(f)
    ensures n.None? ==> dst[..] == old(dst[..])
  {
    if f.port > 15 {
      return None;
    }
    if dst.Length < MaxEncodedLen(|f.payload|) {
      return None;
    }
    dst[0] := FEND;
    assert dst[..1] == [FEND];
    var end := WriteAllEscaped(dst, 1, Body(f));
    dst[end] := FEND;
    assert dst[..end + 1] == dst[..end] + [FEND];
    return Some(end + 1);
  }
}
