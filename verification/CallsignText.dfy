/**
 Everything a user may type for a callsign (callsign.rs): exactly which texts are read,
 and that white space around them does not matter.
 */
module CallsignText {
  import opened Common
  import opened Callsigns
  import opened LittleEndian

  // ----- white space ------------------------------------------------------------------------

  /** One white-space character as UTF-8: a tab, line feed, vertical tab, form feed,
      carriage return or space, or one of the longer ones. */
  predicate OneWhite(w: Bytes) {
    || (|w| == 1 && w[0] in [0x09, 0x0A, 0x0B, 0x0C, 0x0D, 0x20])
    || (|w| == 2 && White2(w[0], w[1]))
    || (|w| == 3 && White3(w[0], w[1], w[2]))
  }

  function Run(chars: seq<Bytes>): Bytes {
    if chars == [] then [] else chars[0] + Run(chars[1..])
  }

  predicate AllWhite(chars: seq<Bytes>) { forall i :: 0 <= i < |chars| ==> OneWhite(chars[i]) }

  lemma OneTrimmed(w: Bytes, s: Bytes)
    requires OneWhite(w)
    ensures TrimStart(w + s) == TrimStart(s)
  {
    assert (w + s)[|w|..] == s;
  }

  lemma {:induction false} TrimmedInFront(chars: seq<Bytes>, s: Bytes)
    requires AllWhite(chars)
    ensures TrimStart(Run(chars) + s) == TrimStart(s)
  {
    if chars == [] {
      assert Run(chars) + s == s;
    } else {
      assert Run(chars) + s == chars[0] + (Run(chars[1..]) + s);
      OneTrimmed(chars[0], Run(chars[1..]) + s);
      TrimmedInFront(chars[1..], s);
    }
  }

  lemma OneTrimmedBehind(s: Bytes, w: Bytes)
    requires OneWhite(w)
    ensures TrimEnd(s + w) == TrimEnd(s)
  {
    assert (s + w)[..|s|] == s;
  }

  lemma {:induction false} RunEnds(chars: seq<Bytes>)
    requires chars != []
    ensures Run(chars) == Run(chars[..|chars| - 1]) + chars[|chars| - 1]
  {
    if |chars| > 1 {
      RunEnds(chars[1..]);
      assert chars[1..][..|chars| - 2] == chars[..|chars| - 1][1..];
    }
  }

  lemma {:induction false} TrimmedBehind(s: Bytes, chars: seq<Bytes>)
    requires AllWhite(chars)
    ensures TrimEnd(s + Run(chars)) == TrimEnd(s)
    decreases |chars|
  {
    if chars == [] {
      assert s + Run(chars) == s;
    } else {
      var n := |chars| - 1;
      RunEnds(chars);
      assert s + Run(chars) == (s + Run(chars[..n])) + chars[n];
      OneTrimmedBehind(s + Run(chars[..n]), chars[n]);
      TrimmedBehind(s, chars[..n]);
    }
  }

  lemma NothingInFront(text: Bytes)
    requires text != [] && Plain(text[0])
    ensures TrimStart(text) == text
  {}

  lemma NothingBehind(text: Bytes)
    requires text != [] && Plain(text[|text| - 1])
    ensures TrimEnd(text) == text
  {}

  /** White space before and after makes no difference to a text that begins and ends with
      other ASCII characters. */
  lemma WhiteSpaceIsIgnored(before: seq<Bytes>, text: Bytes, after: seq<Bytes>)
    requires AllWhite(before) && AllWhite(after)
    requires text != [] && Plain(text[0]) && Plain(text[|text| - 1])
    ensures Parse(Run(before) + text + Run(after)) == ParseTrimmed(text)
  {
    var rest := text + Run(after);
    assert Run(before) + text + Run(after) == Run(before) + rest;
    TrimmedInFront(before, rest);
    NothingInFront(rest);
    TrimmedBehind(text, after);
    NothingBehind(text);
  }

  // ----- what is read ----------------------------------------------------------------------------

  predicate Decimal(s: Bytes, n: nat) {
    s != [] && (forall i :: 0 <= i < |s| ==> Digit(s[i])) && Number(s) == n
  }

  /** Decimal digits of a number, with or without a plus sign, and leading zeros. */
  predicate Writes(s: Bytes, n: nat) { Decimal(s, n) || (s != [] && s[0] == 0x2B && Decimal(s[1..], n)) }

  /** The letters and digits of a callsign in any case. */
  predicate Spells(text: Bytes, base: Bytes) {
    |text| == |base| && forall i :: 0 <= i < |text| ==>
      text[i] == base[i] || (0x61 <= text[i] <= 0x7A && base[i] == text[i] - 0x20)
  }

  /** The text consists of the base up to `d`, and the SSID if it is given. */
  predicate Says(text: Bytes, c: Callsign, d: nat) {
    && 0 < d <= |text| && Spells(text[..d], c.base)
    && if d == |text| then c.ssid == 0 else text[d] == DASH && Writes(text[d + 1..], c.ssid as nat)
  }

  lemma SpellsIsUpper(text: Bytes, base: Bytes)
    requires AllAlphanumeric(base)
    ensures Spells(text, base) <==> UpperAll(text) == base
  {
    if Spells(text, base) {
      forall i | 0 <= i < |text| ensures UpperAll(text)[i] == base[i] { assert Alphanumeric(base[i]); }
    }
  }

  lemma DecimalIsParsed(s: Bytes, n: nat)
    requires n <= 255
    ensures Decimal(s, n) <==> ParseDigits(s) == Some(n)
  {}

  lemma WritesIsParsed(s: Bytes, n: nat)
    requires n <= 255
    ensures Writes(s, n) <==> ParseU8(s) == Some(n)
  {
    DecimalIsParsed(s, n);
    if s != [] && s[0] == 0x2B {
      DecimalIsParsed(s[1..], n);
      assert !Digit(s[0]);
    }
  }

  lemma SaidIsRead(text: Bytes, c: Callsign, d: nat)
    requires Valid(c) && d == DashAt(text) && Says(text, c, d)
    ensures ParseTrimmed(text) == Some(c)
  {
    SpellsIsUpper(text[..d], c.base);
    if d < |text| {
      WritesIsParsed(text[d + 1..], c.ssid as nat);
      ByteOfItsValue(c.ssid, c.ssid as nat);
    }
  }

  lemma ReadIsSaid(text: Bytes, c: Callsign)
    requires ParseTrimmed(text) == Some(c)
    ensures Valid(c) && Says(text, c, DashAt(text))
  {
    var d := DashAt(text);
    SpellsIsUpper(text[..d], c.base);
    if d < |text| {
      var n := ParseU8(text[d + 1..]).value;
      ByteOfNat(n);
      WritesIsParsed(text[d + 1..], n);
    } else {
      assert text[..d] == text;
    }
  }

  /** Whatever is typed: once trimmed it is read as a callsign exactly if it is the base in
      any case up to the first dash, alone for SSID 0, or with the SSID in decimal. */
  lemma ReadExactly(text: Bytes, c: Callsign)
    requires Valid(c)
    ensures
      var t := TrimEnd(TrimStart(text));
      Parse(text) == Some(c) <==> Says(t, c, DashAt(t))
  {
    var t := TrimEnd(TrimStart(text));
    if Parse(text) == Some(c) { ReadIsSaid(t, c); }
    if Says(t, c, DashAt(t)) { SaidIsRead(t, c, DashAt(t)); }
  }
}
