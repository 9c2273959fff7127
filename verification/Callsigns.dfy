/** Amateur-radio callsigns with an optional SSID (ax25/callsign.rs). */
module Callsigns {
  import opened Common

  const MAX_BASE_LEN: nat := 6
  const SPACE: Byte := 0x20
  const DASH: Byte := 0x2D

  predicate Upper(c: Byte) { 0x41 <= c <= 0x5A }
  predicate Lower(c: Byte) { 0x61 <= c <= 0x7A }
  predicate Digit(c: Byte) { 0x30 <= c <= 0x39 }
  predicate Alphanumeric(c: Byte) { Upper(c) || Digit(c) }

  predicate AllAlphanumeric(s: Bytes) { forall i :: 0 <= i < |s| ==> Alphanumeric(s[i]) }

  /** The significant base bytes, and the SSID. */
  datatype Callsign = Callsign(base: Bytes, ssid: Byte)

  predicate Valid(c: Callsign) {
    |c.base| <= MAX_BASE_LEN && AllAlphanumeric(c.base) && c.ssid <= 15
  }

  /** Fails for a base that is too long or not `[A-Z0-9]*`, and an SSID over 15. */
  function New(base: Bytes, ssid: Byte): (r: Option<Callsign>)
    ensures r.Some? <==> Valid(Callsign(base, ssid))
    ensures r.Some? ==> r.value == Callsign(base, ssid)
  {
    if |base| <= MAX_BASE_LEN && ssid <= 15 && AllAlphanumeric(base) then Some(Callsign(base, ssid)) else None
  }

  /** The check of a base, byte by byte. */
  method NewFrom(base: Bytes, ssid: Byte) returns (r: Option<Callsign>)
    ensures r == New(base, ssid)
  {
    if |base| > MAX_BASE_LEN || ssid > 15 {
      return None;
    }
    for i := 0 to |base|
      invariant forall k :: 0 <= k < i ==> Alphanumeric(base[k])
    {
      if !Upper(base[i]) && !Digit(base[i]) {
        return None;
      }
    }
    return Some(Callsign(base, ssid));
  }

  // ----- text -------------------------------------------------------------------

  function ToUpper(c: Byte): Byte { if Lower(c) then c - 0x20 else c }

  function UpperAll(s: Bytes): (r: Bytes)
    ensures |r| == |s| && forall i :: 0 <= i < |s| ==> r[i] == ToUpper(s[i])
  {
    seq(|s|, i requires 0 <= i < |s| => ToUpper(s[i]))
  }

  predicate White(c: Byte) { c == SPACE || 0x09 <= c <= 0x0D }

  /** The white-space characters whose UTF-8 form takes two bytes, or three. */
  predicate White2(a: Byte, b: Byte) { a == 0xC2 && (b == 0x85 || b == 0xA0) }

  predicate White3(a: Byte, b: Byte, c: Byte) {
    || (a == 0xE1 && b == 0x9A && c == 0x80)
    || (a == 0xE2 && b == 0x80 && (0x80 <= c <= 0x8A || c == 0xA8 || c == 0xA9 || c == 0xAF))
    || (a == 0xE2 && b == 0x81 && c == 0x9F)
    || (a == 0xE3 && b == 0x80 && c == 0x80)
  }

  function TrimStart(s: Bytes): Bytes {
    if s != [] && White(s[0]) then TrimStart(s[1..])
    else if |s| >= 2 && White2(s[0], s[1]) then TrimStart(s[2..])
    else if |s| >= 3 && White3(s[0], s[1], s[2]) then TrimStart(s[3..])
    else s
  }

  function TrimEnd(s: Bytes): Bytes {
    var n := |s|;
    if n >= 1 && White(s[n - 1]) then TrimEnd(s[..n - 1])
    else if n >= 2 && White2(s[n - 2], s[n - 1]) then TrimEnd(s[..n - 2])
    else if n >= 3 && White3(s[n - 3], s[n - 2], s[n - 1]) then TrimEnd(s[..n - 3])
    else s
  }

  predicate Plain(c: Byte) { c < 0x80 && !White(c) }

  /** Where the first dash is, or the length if there is none. */
  function DashAt(s: Bytes): (i: nat)
    ensures i <= |s| && (i < |s| ==> s[i] == DASH) && forall k :: 0 <= k < i ==> s[k] != DASH
  {
    if s == [] then 0 else if s[0] == DASH then 0 else 1 + DashAt(s[1..])
  }

  /** Decimal digits to a number below 256, as the integer parser of the source
      reads them; an optional plus sign is allowed. */
  function ParseU8(s: Bytes): Option<nat> {
    ParseDigits(if s != [] && s[0] == 0x2B then s[1..] else s)
  }

  function ParseDigits(digits: Bytes): Option<nat> {
    if digits == [] || !(forall i :: 0 <= i < |digits| ==> Digit(digits[i])) || Number(digits) > 255 then None
    else Some(Number(digits))
  }

  function DigitValue(c: Byte): nat
    requires Digit(c)
  {
    (c - 0x30) as nat
  }

  function Number(digits: Bytes): nat {
    if digits == [] then 0
    else
      var last := digits[|digits| - 1];
      10 * Number(digits[..|digits| - 1]) + if Digit(last) then DigitValue(last) else 0
  }

  /** Text a user types: `BASE` or `BASE-SSID`, any case, white space around it ignored. */
  function Parse(text: Bytes): Option<Callsign> { ParseTrimmed(TrimEnd(TrimStart(text))) }

  function ParseTrimmed(t: Bytes): Option<Callsign> {
    var d := DashAt(t);
    var base := t[..d];
    if t == [] then None
    else if d < |t| then
      match ParseU8(t[d + 1..])
      case None => None
      case Some(n) => if n > 15 then None else FromText(base, n as Byte)
    else FromText(base, 0)
  }

  function FromText(base: Bytes, ssid: Byte): Option<Callsign> {
    if base == [] || |base| > MAX_BASE_LEN || !AllAlphanumeric(UpperAll(base)) then None
    else Some(Callsign(UpperAll(base), ssid))
  }

  /** The base is raised to upper case byte by byte. */
  method RaiseBase(base: Bytes, ssid: Byte) returns (r: Option<Callsign>)
    ensures r == FromText(base, ssid)
  {
    if base == [] || |base| > MAX_BASE_LEN {
      return None;
    }
    var buf: Bytes := [];
    for i := 0 to |base|
      invariant buf == UpperAll(base)[..i]
      invariant forall k :: 0 <= k < i ==> Alphanumeric(UpperAll(base)[k])
    {
      var up := ToUpper(base[i]);
      assert UpperAll(base)[..i + 1] == UpperAll(base)[..i] + [up];
      if !Upper(up) && !Digit(up) {
        return None;
      }
      buf := buf + [up];
    }
    assert UpperAll(base)[..|base|] == UpperAll(base);
    return Some(Callsign(buf, ssid));
  }

  /** Reading what a user typed: trim, split at the first dash, and raise the base. */
  method ParseText(text: Bytes) returns (r: Option<Callsign>)
    ensures r == Parse(text)
  {
    var t := TrimEnd(TrimStart(text));
    if t == [] {
      return None;
    }
    var d, ssid := DashAt(t), 0;
    if d < |t| {
      var n := ParseU8(t[d + 1..]);
      if n.None? || n.value > 15 {
        return None;
      }
      ssid := n.value;
    }
    r := RaiseBase(t[..d], ssid as Byte);
  }

  function SsidText(ssid: Byte): Bytes {
    if ssid >= 10 then [0x30 + ssid / 10, 0x30 + ssid % 10] else [0x30 + ssid]
  }

  /** What follows the base in the text: nothing, or a dash and the SSID. */
  function Suffix(ssid: Byte): Bytes { if ssid == 0 then [] else [DASH] + SsidText(ssid) }

  /** `BASE`, or `BASE-SSID` where the SSID is not zero. */
  function Display(c: Callsign): Bytes
    requires Valid(c)
  {
    c.base + Suffix(c.ssid)
  }

  method CopyTo(dst: array<Byte>, at: nat, s: Bytes)
    requires at + |s| <= dst.Length
    modifies dst
    ensures dst[..at + |s|] == old(dst[..at]) + s
  {
    forall i | 0 <= i < |s| {
      dst[at + i] := s[i];
    }
  }

  method WriteDisplay(c: Callsign, dst: array<Byte>) returns (n: Option<nat>)
    requires Valid(c)
    modifies dst
    ensures n.None? <==> dst.Length < |Display(c)|
    ensures n.Some? ==> n.value == |Display(c)| && dst[..n.value] == Display(c)
  {
    var len := |c.base|;
    if dst.Length < len {
      return None;
    }
    CopyTo(dst, 0, c.base);
    assert dst[..len] == c.base;
    if c.ssid != 0 {
      var tail := [DASH] + SsidText(c.ssid);
      if dst.Length < len + |tail| {
        return None;
      }
      CopyTo(dst, len, tail);
      len := len + |tail|;
    } else {
      assert c.base + [] == c.base;
    }
    return Some(len);
  }

  lemma UpperStays(s: Bytes)
    requires AllAlphanumeric(s)
    ensures UpperAll(s) == s
  {
    assert forall i :: 0 <= i < |s| ==> Alphanumeric(s[i]) && !Lower(s[i]);
  }

  lemma NotWhite(c: Byte)
    requires Alphanumeric(c)
    ensures Plain(c) && c != DASH && c != 0x2B
  {}

  lemma NoDash(s: Bytes, tail: Bytes)
    requires AllAlphanumeric(s) && (tail == [] || tail[0] == DASH)
    ensures DashAt(s + tail) == |s|
  {
    forall k | 0 <= k < |s| ensures (s + tail)[k] != DASH { NotWhite(s[k]); }
    if tail != [] { assert (s + tail)[|s|] == DASH; }
  }

  lemma SsidDigits(ssid: Byte)
    requires 1 <= ssid <= 15
    ensures ssid < 10 ==> Digit(0x30 + ssid) && DigitValue(0x30 + ssid) == ssid as nat
    ensures ssid >= 10 ==>
      && Digit(0x30 + ssid / 10) && Digit(0x30 + ssid % 10)
      && 10 * DigitValue(0x30 + ssid / 10) + DigitValue(0x30 + ssid % 10) == ssid as nat
  {}

  lemma OneDigit(d: Byte)
    requires Digit(d)
    ensures Number([d]) == DigitValue(d)
  {
    assert [d][..0] == [];
  }

  lemma TwoDigits(d: Byte, e: Byte)
    requires Digit(d) && Digit(e)
    ensures Number([d, e]) == 10 * DigitValue(d) + DigitValue(e)
  {
    OneDigit(d);
    assert [d, e][..1] == [d];
  }

  lemma SsidReadsBack(ssid: Byte)
    requires 1 <= ssid <= 15
    ensures ParseU8(SsidText(ssid)) == Some(ssid as nat)
  {
    SsidDigits(ssid);
    if ssid >= 10 {
      TwoDigits(0x30 + ssid / 10, 0x30 + ssid % 10);
      NotWhite(0x30 + ssid / 10);
    } else {
      OneDigit(0x30 + ssid);
      NotWhite(0x30 + ssid);
    }
  }

  lemma NothingToTrim(s: Bytes)
    requires s != [] && Plain(s[0]) && Plain(s[|s| - 1])
    ensures TrimEnd(TrimStart(s)) == s
  {}

  lemma BaseParsesBack(base: Bytes)
    requires Valid(Callsign(base, 0)) && base != []
    ensures Parse(base) == Some(Callsign(base, 0))
  {
    NotWhite(base[0]);
    NotWhite(base[|base| - 1]);
    NothingToTrim(base);
    assert base + [] == base;
    NoDash(base, []);
    UpperStays(base);
    assert base[..|base|] == base;
  }

  lemma TextParsesBack(base: Bytes, text: Bytes, ssid: Byte)
    requires Valid(Callsign(base, ssid)) && text != [] && Plain(text[|text| - 1])
    requires ParseU8(text) == Some(ssid as nat)
    ensures Parse(base + [DASH] + text) == if base == [] then None else Some(Callsign(base, ssid))
  {
    var t := base + [DASH] + text;
    if base != [] { NotWhite(base[0]); }
    NothingToTrim(t);
    SplitText(base, text, ssid);
  }

  lemma DashSplits(base: Bytes, text: Bytes)
    requires AllAlphanumeric(base)
    ensures
      var t := base + [DASH] + text;
      DashAt(t) == |base| && t[..|base|] == base && t[|base| + 1..] == text
  {
    assert base + [DASH] + text == base + ([DASH] + text);
    NoDash(base, [DASH] + text);
  }

  lemma PartsAreParsed(t: Bytes, d: nat, ssid: Byte)
    requires d == DashAt(t) < |t| && ssid <= 15 && ParseU8(t[d + 1..]) == Some(ssid as nat)
    ensures ParseTrimmed(t) == FromText(t[..d], ssid)
  {}

  lemma SplitText(base: Bytes, text: Bytes, ssid: Byte)
    requires Valid(Callsign(base, ssid)) && ParseU8(text) == Some(ssid as nat)
    ensures ParseTrimmed(base + [DASH] + text) == if base == [] then None else Some(Callsign(base, ssid))
  {
    DashSplits(base, text);
    PartsAreParsed(base + [DASH] + text, |base|, ssid);
    UpperStays(base);
  }

  lemma SsidEnds(ssid: Byte)
    requires 1 <= ssid <= 15
    ensures Plain(SsidText(ssid)[|SsidText(ssid)| - 1])
  {
    SsidDigits(ssid);
    NotWhite(SsidText(ssid)[|SsidText(ssid)| - 1]);
  }

  /** The text form of a callsign parses back to it exactly when it names a
      station at all: the blank callsign of the wire has no text form. */
  lemma DisplayParsesBack(c: Callsign)
    requires Valid(c)
    ensures Parse(Display(c)) == if c.base == [] then None else Some(c)
  {
    if c.ssid != 0 {
      SsidReadsBack(c.ssid);
      SsidEnds(c.ssid);
      TextParsesBack(c.base, SsidText(c.ssid), c.ssid);
      assert Display(c) == c.base + [DASH] + SsidText(c.ssid);
    } else if c.base != [] {
      BaseParsesBack(c.base);
      assert Display(c) == c.base;
    }
  }
}
