/** The order of callsigns that breaks ties between routes (netrom/forwarding.rs). */
module CallsignOrder {
  import opened Common
  import opened Callsigns

  /** Byte strings by first difference, a prefix before what it starts. */
  predicate Less(a: Bytes, b: Bytes)
    decreases |a|
  {
    if b == [] then false
    else if a == [] then true
    else if a[0] != b[0] then a[0] < b[0]
    else Less(a[1..], b[1..])
  }

  /** Base bytes first, then the SSID as a number. */
  predicate CallsignLess(a: Callsign, b: Callsign) {
    Less(a.base, b.base) || (a.base == b.base && a.ssid < b.ssid)
  }

  lemma {:induction false} LessTrichotomy(a: Bytes, b: Bytes)
    ensures (Less(a, b) || Less(b, a)) <==> a != b
    ensures !(Less(a, b) && Less(b, a))
    decreases |a|
  {
    if a != [] && b != [] && a[0] == b[0] {
      LessTrichotomy(a[1..], b[1..]);
      assert a == [a[0]] + a[1..] && b == [b[0]] + b[1..];
    }
  }

  lemma {:induction false} LessTransitive(a: Bytes, b: Bytes, c: Bytes)
    requires Less(a, b) && Less(b, c)
    ensures Less(a, c)
    decreases |a|
  {
    if a != [] && a[0] == b[0] == c[0] {
      LessTransitive(a[1..], b[1..], c[1..]);
    }
  }

  /** A strict total order: exactly one of less, equal and greater, and transitive. */
  lemma StrictTotalOrder(a: Callsign, b: Callsign, c: Callsign)
    ensures (CallsignLess(a, b) || CallsignLess(b, a)) <==> a != b
    ensures !(CallsignLess(a, b) && CallsignLess(b, a))
    ensures CallsignLess(a, b) && CallsignLess(b, c) ==> CallsignLess(a, c)
  {
    LessTrichotomy(a.base, b.base);
    LessTrichotomy(b.base, c.base);
    if Less(a.base, b.base) && Less(b.base, c.base) {
      LessTransitive(a.base, b.base, c.base);
    }
  }

  // ----- against the order of the printed text --------------------------------------

  lemma {:induction false} LessPrefix(p: Bytes, a: Bytes, b: Bytes)
    ensures Less(p + a, p + b) <==> Less(a, b)
    decreases |p|
  {
    if p == [] {
      assert p + a == a && p + b == b;
    } else {
      assert (p + a)[1..] == p[1..] + a && (p + b)[1..] == p[1..] + b;
      LessPrefix(p[1..], a, b);
    }
  }

  /** A dash sorts before every character of a base, so bases that differ decide. */
  lemma {:induction false} BasesDecide(a: Bytes, b: Bytes, s: Bytes, t: Bytes)
    requires AllAlphanumeric(a) && AllAlphanumeric(b) && a != b
    requires (s != [] ==> s[0] == DASH) && (t != [] ==> t[0] == DASH)
    ensures Less(a + s, b + t) <==> Less(a, b)
    decreases |a|
  {
    if a == [] {
      assert a + s == s;
      assert (b + t)[0] == b[0];
    } else if b == [] {
      assert b + t == t;
      assert (a + s)[0] == a[0];
    } else if a[0] == b[0] {
      assert (a + s)[1..] == a[1..] + s && (b + t)[1..] == b[1..] + t;
      assert a == [a[0]] + a[1..] && b == [b[0]] + b[1..];
      BasesDecide(a[1..], b[1..], s, t);
    }
  }

  /** One SSID of a single digit above 1, the other of two digits. */
  predicate DigitsMislead(x: Byte, y: Byte) { (2 <= x < 10 && y >= 10) || (2 <= y < 10 && x >= 10) }

  lemma OneDigitLess(x: Byte, y: Byte)
    requires 1 <= x < 10 && 1 <= y < 10
    ensures Less(SsidText(x), SsidText(y)) <==> x < y
  {
    assert 0x30 + x < 0x30 + y <==> x < y;
    assert SsidText(x)[1..] == [] && SsidText(y)[1..] == [];
  }

  lemma TwoDigitText(x: Byte)
    requires 10 <= x <= 15
    ensures SsidText(x) == [0x31, 0x30 + (x - 10)]
  {}

  lemma TwoDigitsLess(x: Byte, y: Byte)
    requires 10 <= x <= 15 && 10 <= y <= 15
    ensures Less(SsidText(x), SsidText(y)) <==> x < y
  {
    TwoDigitText(x);
    TwoDigitText(y);
    var a, b := [0x30 + (x - 10)], [0x30 + (y - 10)];
    assert SsidText(x)[1..] == a && SsidText(y)[1..] == b;
    assert Less(a, b) <==> a[0] < b[0] by { assert a[1..] == [] && b[1..] == []; }
  }

  lemma MixedDigits(x: Byte, y: Byte)
    requires 1 <= x < 10 && 10 <= y <= 15
    ensures Less(SsidText(x), SsidText(y)) <==> x == 1
    ensures Less(SsidText(y), SsidText(x)) <==> x != 1
  {
    TwoDigitText(y);
    var a, b := SsidText(x), SsidText(y);
    assert a == [0x30 + x];
    if x == 1 { assert a[1..] == [] && b[1..] != []; }
  }

  lemma SuffixesLess(x: Byte, y: Byte)
    requires x <= 15 && y <= 15
    ensures Less(Suffix(x), Suffix(y)) <==> if DigitsMislead(x, y) then y < x else x < y
  {
    if x != 0 && y != 0 {
      LessPrefix([DASH], SsidText(x), SsidText(y));
      if x < 10 && y < 10 { OneDigitLess(x, y); }
      else if x >= 10 && y >= 10 { TwoDigitsLess(x, y); }
      else if x < 10 { MixedDigits(x, y); }
      else { MixedDigits(y, x); }
    }
  }

  /** The order is not that of the printed text, as the source's comment has it: the
      two agree on distinct callsigns exactly unless the bases are the same and one
      SSID is 2 to 9, the other 10 to 15. */
  lemma AgreesWithText(a: Callsign, b: Callsign)
    requires Valid(a) && Valid(b) && a != b
    ensures (CallsignLess(a, b) <==> Less(Display(a), Display(b)))
      <==> !(a.base == b.base && DigitsMislead(a.ssid, b.ssid))
  {
    if a.base == b.base {
      LessTrichotomy(a.base, a.base);
      LessPrefix(a.base, Suffix(a.ssid), Suffix(b.ssid));
      SuffixesLess(a.ssid, b.ssid);
    } else {
      BasesDecide(a.base, b.base, Suffix(a.ssid), Suffix(b.ssid));
    }
  }
}
