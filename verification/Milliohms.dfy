/** A shunt resistance kept in micro-ohms and shown in milliohms (config_store.rs). */
module Milliohms {
  import opened Common

  const U32: nat := 0x1_0000_0000

  predicate Digit(c: char) { '0' <= c <= '9' }

  function DigitChar(d: nat): (c: char)
    requires d < 10
    ensures Digit(c) && DigitValue(c) == d
  {
    ('0' as int + d) as char
  }

  function DigitValue(c: char): (d: nat)
    requires Digit(c)
    ensures d < 10
  {
    c as int - '0' as int
  }

  predicate AllDigits(s: string) { forall i :: 0 <= i < |s| ==> Digit(s[i]) }

  /** A number in decimal, without leading zeros. */
  function Text(n: nat): (s: string)
    ensures s != [] && AllDigits(s)
  {
    if n < 10 then [DigitChar(n)] else Text(n / 10) + [DigitChar(n % 10)]
  }

  function Number(s: string): nat
    requires AllDigits(s)
  {
    if s == [] then 0 else 10 * Number(s[..|s| - 1]) + DigitValue(s[|s| - 1])
  }

  lemma {:induction false} TextReadsBack(n: nat)
    ensures Number(Text(n)) == n
  {
    var s := Text(n);
    if n < 10 {
      assert s[..0] == [];
    } else {
      TextReadsBack(n / 10);
      assert s[..|s| - 1] == Text(n / 10);
    }
  }

  // ----- showing ------------------------------------------------------------------------

  function TrimZeros(s: string): string {
    if s != [] && s[|s| - 1] == '0' then TrimZeros(s[..|s| - 1]) else s
  }

  function ThreeDigits(frac: nat): (s: string)
    requires frac < 1000
    ensures |s| == 3 && AllDigits(s)
  {
    [DigitChar(frac / 100), DigitChar(frac / 10 % 10), DigitChar(frac % 10)]
  }

  /** `100`, `0.5`, `2.25`. */
  function Format(micro: nat): string {
    if micro % 1000 == 0 then Text(micro / 1000)
    else TrimZeros(Text(micro / 1000) + "." + ThreeDigits(micro % 1000))
  }

  method FormatMilliohms(micro: nat) returns (s: string)
    ensures s == Format(micro)
  {
    var whole, frac := micro / 1000, micro % 1000;
    if frac == 0 {
      return Text(whole);
    }
    s := Text(whole) + "." + ThreeDigits(frac);
    ghost var trimmed := TrimZeros(s);
    while s != [] && s[|s| - 1] == '0'
      invariant TrimZeros(s) == trimmed
      decreases |s|
    {
      s := s[..|s| - 1];
    }
  }

  // ----- reading ------------------------------------------------------------------------

  /** Where the first dot is, or the length if there is none. */
  function DotAt(s: string): (i: nat)
    ensures i <= |s| && (i < |s| ==> s[i] == '.') && forall k :: 0 <= k < i ==> s[k] != '.'
  {
    if s == [] || s[0] == '.' then 0 else 1 + DotAt(s[1..])
  }

  /** Up to three decimals, as thousandths. */
  function Thousandths(frac: string): nat
    requires |frac| <= 3 && AllDigits(frac)
  {
    (if |frac| > 0 then 100 * DigitValue(frac[0]) else 0)
    + (if |frac| > 1 then 10 * DigitValue(frac[1]) else 0)
    + (if |frac| > 2 then DigitValue(frac[2]) else 0)
  }

  /** Nothing for anything but digits with at most three decimals, for zero, and for what
      does not fit 32 bits. */
  function Parse(value: string): (r: Option<nat>)
    ensures r.Some? ==> 0 < r.value < U32
  {
    var dot := DotAt(value);
    ParseParts(value[..dot], if dot < |value| then value[dot + 1..] else "")
  }

  /** The text before the dot and behind it. */
  function ParseParts(whole: string, frac: string): (r: Option<nat>)
    ensures r.Some? ==> 0 < r.value < U32
  {
    if |frac| > 3 || (whole == [] && frac == []) || !AllDigits(whole) || !AllDigits(frac) then None
    else
      var v := Number(whole) * 1000 + Thousandths(frac);
      if Number(whole) >= U32 || v >= U32 || v == 0 then None else Some(v)
  }

  lemma NoDot(s: string, rest: string)
    requires AllDigits(s) && (rest == [] || rest[0] == '.')
    ensures DotAt(s + rest) == |s|
  {
    forall k | 0 <= k < |s| ensures (s + rest)[k] != '.' { assert Digit(s[k]); }
    if rest != [] { assert (s + rest)[|s|] == '.'; }
  }

  lemma DigitsParse(whole: string, frac: string)
    requires AllDigits(whole) && |frac| <= 3 && AllDigits(frac) && (whole != [] || frac != [])
    ensures
      var v := Number(whole) * 1000 + Thousandths(frac);
      ParseParts(whole, frac) == if v == 0 || v >= U32 then None else Some(v)
  {}

  lemma ParsesParts(whole: string, frac: string)
    requires AllDigits(whole) && |frac| <= 3 && AllDigits(frac) && (whole != [] || frac != [])
    ensures
      var v := Number(whole) * 1000 + Thousandths(frac);
      Parse(whole + "." + frac) == if v == 0 || v >= U32 then None else Some(v)
  {
    SplitAtDot(whole, frac);
    DigitsParse(whole, frac);
  }

  /** Anything else about the dot is refused: no digit at all, a fourth decimal, or a
      character that is no digit. */
  lemma NothingElseParses(value: string)
    requires Parse(value).Some?
    ensures
      var dot := DotAt(value);
      var whole, frac := value[..dot], if dot < |value| then value[dot + 1..] else "";
      AllDigits(whole) && AllDigits(frac) && |frac| <= 3 && (whole != [] || frac != [])
  {}

  lemma SplitAtDot(whole: string, frac: string)
    requires AllDigits(whole)
    ensures
      var s := whole + "." + frac;
      DotAt(s) == |whole| && s[..|whole|] == whole && s[|whole| + 1..] == frac
  {
    assert whole + "." + frac == whole + ("." + frac);
    NoDot(whole, "." + frac);
  }

  lemma ParsesWhole(whole: string)
    requires whole != [] && AllDigits(whole)
    ensures Parse(whole) == if Number(whole) == 0 || Number(whole) * 1000 >= U32 then None else Some(Number(whole) * 1000)
  {
    assert whole + [] == whole;
    NoDot(whole, []);
    assert whole[..|whole|] == whole;
    assert Thousandths("") == 0;
  }

  /** Of three decimals, those up to the last that is not zero. */
  function Shortest(frac: nat): (s: string)
    requires 0 < frac < 1000
    ensures 1 <= |s| <= 3 && AllDigits(s)
  {
    if frac % 10 != 0 then ThreeDigits(frac)
    else if frac / 10 % 10 != 0 then ThreeDigits(frac)[..2]
    else ThreeDigits(frac)[..1]
  }

  lemma TrimLast(s: string, c: char)
    ensures TrimZeros(s + [c]) == if c == '0' then TrimZeros(s) else s + [c]
  {
    assert (s + [c])[..|s|] == s;
  }

  lemma ZeroDigit(d: nat)
    requires d < 10
    ensures DigitChar(d) == '0' <==> d == 0
  {}

  lemma TrimThree(prefix: string, a: char, b: char, c: char)
    ensures TrimZeros(prefix + [a, b, c])
      == if c != '0' then prefix + [a, b, c] else if b != '0' then prefix + [a, b] else TrimZeros(prefix + [a])
  {
    TrimLast(prefix + [a, b], c);
    TrimLast(prefix + [a], b);
    assert prefix + [a, b, c] == prefix + [a, b] + [c] && prefix + [a, b] == prefix + [a] + [b];
  }

  lemma TrimmedIsShortest(prefix: string, frac: nat)
    requires 0 < frac < 1000
    ensures TrimZeros(prefix + ThreeDigits(frac)) == prefix + Shortest(frac)
  {
    var s := ThreeDigits(frac);
    ZeroDigit(frac / 100);
    ZeroDigit(frac / 10 % 10);
    ZeroDigit(frac % 10);
    TrimThree(prefix, s[0], s[1], s[2]);
    TrimLast(prefix, s[0]);
    assert s == [s[0], s[1], s[2]] && s[..2] == [s[0], s[1]] && s[..1] == [s[0]];
    assert frac == 100 * (frac / 100) + 10 * (frac / 10 % 10) + frac % 10;
  }

  lemma ShortestReads(frac: nat)
    requires 0 < frac < 1000
    ensures Thousandths(Shortest(frac)) == frac
  {
    assert frac == 100 * (frac / 100) + 10 * (frac / 10 % 10) + frac % 10;
  }

  /** A stored resistance is shown as text that is read as the same resistance, for every
      32-bit value but 0, which is shown as `0` and then refused. */
  lemma RoundTrip(micro: nat)
    requires micro < U32
    ensures Parse(Format(micro)) == if micro == 0 then None else Some(micro)
  {
    var whole, frac := micro / 1000, micro % 1000;
    TextReadsBack(whole);
    if frac == 0 {
      ParsesWhole(Text(whole));
    } else {
      TrimmedIsShortest(Text(whole) + ".", frac);
      ShortestReads(frac);
      ParsesParts(Text(whole), Shortest(frac));
    }
  }
}
