/** Routing-table entries as they are stored in flash (netrom_store.rs). */
module RouteRecord {
  import opened Common
  import opened Callsigns
  import Addresses
  import Crc
  import opened CrcDetection

  const ALIAS_LEN: nat := 6
  const ROUTE_LEN: nat := 27
  const MAX_ROUTES: nat := 64

  predicate Printable(c: Byte) { 0x20 <= c <= 0x7E }

  /** A node alias: at most six printable characters, the last not a space. */
  predicate ValidAlias(a: Bytes) {
    && |a| <= ALIAS_LEN && (a != [] ==> a[|a| - 1] != SPACE)
    && forall i :: 0 <= i < |a| ==> Printable(a[i])
  }

  /** A destination and the neighbour it is best reached through. */
  datatype Route = Route(neighbour: Callsign, neighbourAlias: Bytes, destination: Callsign, destAlias: Bytes, quality: Byte)

  predicate ValidRoute(r: Route) {
    Valid(r.neighbour) && ValidAlias(r.neighbourAlias) && Valid(r.destination) && ValidAlias(r.destAlias)
  }

  predicate AllValid(routes: seq<Route>) { forall i :: 0 <= i < |routes| ==> ValidRoute(routes[i]) }

  function Spaces(n: nat): Bytes { seq(n, _ => SPACE) }

  function AliasBytes(a: Bytes): (b: Bytes)
    ensures |b| == ALIAS_LEN
  {
    if |a| <= ALIAS_LEN then a + Spaces(ALIAS_LEN - |a|) else a[..ALIAS_LEN]
  }

  function RouteBytes(r: Route): (b: Bytes)
    ensures |b| == ROUTE_LEN
  {
    Addresses.Shifted(r.neighbour) + AliasBytes(r.neighbourAlias) + Addresses.Shifted(r.destination) + AliasBytes(r.destAlias) + [r.quality]
  }

  function Content(routes: seq<Route>): (b: Bytes)
    ensures |b| == ROUTE_LEN * |routes|
  {
    if routes == [] then [] else RouteBytes(routes[0]) + Content(routes[1..])
  }

  function ContentCrc(routes: seq<Route>): Crc.Word { Crc.Compute(Content(routes)) }

  lemma {:induction false} ContentInPieces(first: seq<Route>, second: seq<Route>)
    ensures Content(first + second) == Content(first) + Content(second)
    decreases |first|
  {
    if first == [] {
      assert first + second == second;
    } else {
      assert (first + second)[1..] == first[1..] + second;
      ContentInPieces(first[1..], second);
    }
  }

  /** Serialise route by route, as saving does. */
  method ContentOf(routes: seq<Route>) returns (body: Bytes)
    ensures body == Content(routes)
  {
    body := [];
    for i := 0 to |routes|
      invariant body == Content(routes[..i])
    {
      ContentInPieces(routes[..i], [routes[i]]);
      assert routes[..i + 1] == routes[..i] + [routes[i]];
      assert Content([routes[i]]) == RouteBytes(routes[i]);
      body := body + RouteBytes(routes[i]);
    }
    assert routes[..|routes|] == routes;
  }

  // ----- reading back -------------------------------------------------------------

  function PrintableOf(b: Bytes): Bytes {
    if b == [] then []
    else if Printable(b[0]) then [b[0]] + PrintableOf(b[1..]) else PrintableOf(b[1..])
  }

  function WithoutTrailingSpaces(b: Bytes): Bytes { b[..Addresses.Significant(b)] }

  function ReadAlias(b: Bytes): Bytes { WithoutTrailingSpaces(PrintableOf(b)) }

  function ReadRoute(b: Bytes): Option<Route>
    requires |b| == ROUTE_LEN
  {
    var neighbour, destination := Addresses.ReadShifted(b[..7]), Addresses.ReadShifted(b[13..20]);
    if neighbour.None? || destination.None? then None
    else Some(Route(neighbour.value, ReadAlias(b[7..13]), destination.value, ReadAlias(b[20..26]), b[26]))
  }

  lemma {:induction false} OnlyPrintable(b: Bytes)
    ensures |PrintableOf(b)| <= |b| && forall i :: 0 <= i < |PrintableOf(b)| ==> Printable(PrintableOf(b)[i])
  {
    if b != [] { OnlyPrintable(b[1..]); }
  }

  lemma ReadAliasIsValid(b: Bytes)
    requires |b| == ALIAS_LEN
    ensures ValidAlias(ReadAlias(b))
  {
    OnlyPrintable(b);
  }

  /** Whatever the bytes, a route that is read has callsigns and aliases of their types. */
  lemma ReadRouteIsValid(b: Bytes)
    requires |b| == ROUTE_LEN
    ensures ReadRoute(b).Some? ==> ValidRoute(ReadRoute(b).value)
  {
    ReadAliasIsValid(b[7..13]);
    ReadAliasIsValid(b[20..26]);
  }

  /** And so is every route of a table. */
  lemma {:induction false} ReadRoutesAreValid(body: Bytes, count: nat)
    requires |body| == ROUTE_LEN * count
    ensures ReadRoutes(body, count).Some? ==> AllValid(ReadRoutes(body, count).value)
    decreases count
  {
    if count > 0 {
      ReadRouteIsValid(body[..ROUTE_LEN]);
      ReadRoutesAreValid(body[ROUTE_LEN..], count - 1);
    }
  }

  function ReadRoutes(body: Bytes, count: nat): (r: Option<seq<Route>>)
    requires |body| == ROUTE_LEN * count
    ensures r.Some? ==> |r.value| == count
    decreases count
  {
    if count == 0 then Some([])
    else
      var first := ReadRoute(body[..ROUTE_LEN]);
      if first.None? then None
      else
        var rest := ReadRoutes(body[ROUTE_LEN..], count - 1);
        if rest.None? then None else Some([first.value] + rest.value)
  }

  lemma {:induction false} AllPrintable(b: Bytes)
    requires forall i :: 0 <= i < |b| ==> Printable(b[i])
    ensures PrintableOf(b) == b
  {
    if b != [] {
      AllPrintable(b[1..]);
    }
  }

  lemma AliasIsPrintable(a: Bytes)
    requires ValidAlias(a)
    ensures PrintableOf(AliasBytes(a)) == AliasBytes(a)
  {
    var b := AliasBytes(a);
    forall i | 0 <= i < |b| ensures Printable(b[i]) {
      if i < |a| { assert b[i] == a[i]; }
    }
    AllPrintable(b);
  }

  lemma AliasReadsBack(a: Bytes)
    requires ValidAlias(a)
    ensures ReadAlias(AliasBytes(a)) == a
  {
    var b := AliasBytes(a);
    AliasIsPrintable(a);
    assert b[..|a|] == a;
    Addresses.SignificantOfPadded(a, b);
  }

  lemma RouteReadsBack(r: Route)
    requires ValidRoute(r)
    ensures ReadRoute(RouteBytes(r)) == Some(r)
  {
    var b := RouteBytes(r);
    assert b[..7] == Addresses.Shifted(r.neighbour) && b[13..20] == Addresses.Shifted(r.destination);
    assert b[7..13] == AliasBytes(r.neighbourAlias) && b[20..26] == AliasBytes(r.destAlias);
    Addresses.ShiftedReadsBack(r.neighbour);
    Addresses.ShiftedReadsBack(r.destination);
    AliasReadsBack(r.neighbourAlias);
    AliasReadsBack(r.destAlias);
  }

  lemma FirstRouteRead(first: Bytes, rest: Bytes, r: Route, routes: seq<Route>)
    requires |first| == ROUTE_LEN && |rest| == ROUTE_LEN * |routes|
    requires ReadRoute(first) == Some(r) && ReadRoutes(rest, |routes|) == Some(routes)
    ensures ReadRoutes(first + rest, 1 + |routes|) == Some([r] + routes)
  {
    var body := first + rest;
    assert body[..ROUTE_LEN] == first && body[ROUTE_LEN..] == rest;
  }

  /** What is stored of a table is the table. */
  lemma {:induction false} ContentReadsBack(routes: seq<Route>)
    requires AllValid(routes)
    ensures ReadRoutes(Content(routes), |routes|) == Some(routes)
  {
    if routes != [] {
      var first, rest := RouteBytes(routes[0]), Content(routes[1..]);
      RouteReadsBack(routes[0]);
      ContentReadsBack(routes[1..]);
      FirstRouteRead(first, rest, routes[0], routes[1..]);
      assert [routes[0]] + routes[1..] == routes;
    }
  }

  // ----- what the change detector sees ---------------------------------------------

  /** Changing one byte of a message is a burst of at most eight bits, which the CRC
      always shows. */
  lemma OneByteIsNoticed(first: Bytes, a: Byte, b: Byte, rest: Bytes)
    requires a != b
    ensures Crc.Compute(first + [a] + rest) != Crc.Compute(first + [b] + rest)
  {
    var x, y := first + [a] + rest, first + [b] + rest;
    assert x[|first|] == a && y[|first|] == b;
    ByteBits(first, a, rest);
    ByteBits(first, b, rest);
    BitCount(first);
    BitCount(rest);
    LowBitCount(a as Crc.Word, 8);
    LowBitCount(b as Crc.Word, 8);
    var e := ErrorPattern(x, y);
    forall i | 0 <= i < 8 * |x| && e[i] ensures 8 * |first| <= i < 8 * |first| + 16 {
      assert Crc.Bits(x)[i] != Crc.Bits(y)[i];
    }
    BurstDetected(x, y, 8 * |first|);
  }

  lemma ByteBits(first: Bytes, a: Byte, rest: Bytes)
    ensures Crc.Bits(first + [a] + rest) == Crc.Bits(first) + Crc.LowBits(a as Crc.Word, 8) + Crc.Bits(rest)
  {
    Crc.BitsInPieces(first, [a]);
    Crc.BitsInPieces(first + [a], rest);
    Crc.BitsOfOne(a);
  }

  /** A route whose quality alone changes never looks unchanged. */
  lemma QualityChangeIsNoticed(routes: seq<Route>, i: nat, quality: Byte)
    requires i < |routes| && quality != routes[i].quality
    ensures ContentCrc(routes[i := routes[i].(quality := quality)]) != ContentCrc(routes)
  {
    var r, before, after := routes[i], routes[..i], routes[i + 1..];
    var changed := r.(quality := quality);
    assert routes == before + [r] + after;
    assert routes[i := changed] == before + [changed] + after;
    QualityByte(before, r, after);
    QualityByte(before, changed, after);
    assert BeforeQuality(r) == BeforeQuality(changed);
    OneByteIsNoticed(Content(before) + BeforeQuality(r), quality, r.quality, Content(after));
  }

  function BeforeQuality(r: Route): Bytes {
    Addresses.Shifted(r.neighbour) + AliasBytes(r.neighbourAlias) + Addresses.Shifted(r.destination) + AliasBytes(r.destAlias)
  }

  lemma QualityByte(before: seq<Route>, r: Route, after: seq<Route>)
    ensures Content(before + [r] + after) == Content(before) + BeforeQuality(r) + [r.quality] + Content(after)
  {
    SplitAt(before, r, after);
    assert RouteBytes(r) == BeforeQuality(r) + [r.quality];
  }

  lemma SplitAt(before: seq<Route>, r: Route, after: seq<Route>)
    ensures Content(before + [r] + after) == Content(before) + RouteBytes(r) + Content(after)
  {
    ContentInPieces(before + [r], after);
    ContentInPieces(before, [r]);
    assert Content([r]) == RouteBytes(r);
  }

  // ----- a table of content CRC 0 -------------------------------------------------

  function Four(c: Crc.Word): Crc.Word { Crc.Shift(Crc.Shift(Crc.Shift(Crc.Shift(c)))) }

  function Fed(c: Crc.Word, b: Byte): Crc.Word { Four(Four(Crc.Xor(c, b as Crc.Word))) }

  lemma FourShifts(c: Crc.Word, n: nat)
    ensures Crc.Shifts(c, n + 4) == Crc.Shifts(Four(c), n)
  {
    var d := Crc.Shift(Crc.Shift(c));
    assert Crc.Shifts(c, n + 4) == Crc.Shifts(Crc.Shift(c), n + 3) == Crc.Shifts(d, n + 2);
    assert Crc.Shifts(d, n + 2) == Crc.Shifts(Crc.Shift(d), n + 1) == Crc.Shifts(Four(c), n);
  }

  lemma FedIsShifts(c: Crc.Word, b: Byte)
    ensures Crc.Shifts(Crc.Xor(c, b as Crc.Word), 8) == Fed(c, b)
  {
    var x := Crc.Xor(c, b as Crc.Word);
    FourShifts(x, 4);
    FourShifts(Four(x), 0);
  }

  /** A message whose register is known before and after each byte. */
  predicate Along(data: Bytes, states: seq<Crc.Word>) {
    |states| == |data| + 1 && forall i :: 0 <= i < |data| ==> Fed(states[i], data[i]) == states[i + 1]
  }

  lemma {:induction false} FeedAlong(data: Bytes, states: seq<Crc.Word>)
    requires Along(data, states)
    ensures Crc.Feed(states[0], data) == states[|data|]
  {
    if data != [] {
      var prefix, n := data[..|data| - 1], |data| - 1;
      assert Along(prefix, states[..|data|]) by {
        assert forall i :: 0 <= i < n ==> Fed(states[i], data[i]) == states[i + 1];
      }
      FeedAlong(prefix, states[..|data|]);
      Crc.FeedByte(states[0], prefix, data[n]);
      FedIsShifts(states[n], data[n]);
      assert data == prefix + [data[n]];
    }
  }

  /** GB7NU through GB7RDG at quality 3, neither with an alias. */
  const ZERO_ROUTE := Route(
    Callsign([0x47, 0x42, 0x37, 0x52, 0x44, 0x47], 0), [], Callsign([0x47, 0x42, 0x37, 0x4E, 0x55], 0), [], 3)

  lemma ZeroPart1()
    ensures Crc.Feed(0xFFFF, [0x8E, 0x84, 0x6E, 0xA4, 0x88, 0x8E, 0x60]) == 0xC993
  {
    assert Fed(0xFFFF, 0x8E) == 0x62F1 && Fed(0x62F1, 0x84) == 0x2448 && Fed(0x2448, 0x6E) == 0x4410;
    assert Fed(0x4410, 0xA4) == 0xF3EB && Fed(0xF3EB, 0x88) == 0x516E && Fed(0x516E, 0x8E) == 0xE75F;
    assert Fed(0xE75F, 0x60) == 0xC993;
    var states := [0xFFFF, 0x62F1, 0x2448, 0x4410, 0xF3EB, 0x516E, 0xE75F, 0xC993];
    FeedAlong([0x8E, 0x84, 0x6E, 0xA4, 0x88, 0x8E, 0x60], states);
  }

  lemma ZeroPart2()
    ensures Crc.Feed(0xC993, [0x20, 0x20, 0x20, 0x20, 0x20, 0x20]) == 0x3AD4
  {
    assert Fed(0xC993, 0x20) == 0x87D9 && Fed(0x87D9, 0x20) == 0x6AC9 && Fed(0x6AC9, 0x20) == 0x7AA5;
    assert Fed(0x7AA5, 0x20) == 0xD3DF && Fed(0xD3DF, 0x20) == 0x0FAB && Fed(0x0FAB, 0x20) == 0x3AD4;
    var states := [0xC993, 0x87D9, 0x6AC9, 0x7AA5, 0xD3DF, 0x0FAB, 0x3AD4];
    FeedAlong([0x20, 0x20, 0x20, 0x20, 0x20, 0x20], states);
  }

  lemma ZeroPart3()
    ensures Crc.Feed(0x3AD4, [0x8E, 0x84, 0x6E, 0x9C, 0xAA, 0x40, 0x60]) == 0x8075
  {
    assert Fed(0x3AD4, 0x8E) == 0xFDE5 && Fed(0xFDE5, 0x84) == 0x7272 && Fed(0x7272, 0x6E) == 0xDA9F;
    assert Fed(0xDA9F, 0x9C) == 0x3241 && Fed(0x3241, 0xAA) == 0x59EF && Fed(0x59EF, 0x40) == 0x5DA4;
    assert Fed(0x5DA4, 0x60) == 0x8075;
    var states := [0x3AD4, 0xFDE5, 0x7272, 0xDA9F, 0x3241, 0x59EF, 0x5DA4, 0x8075];
    FeedAlong([0x8E, 0x84, 0x6E, 0x9C, 0xAA, 0x40, 0x60], states);
  }

  lemma ZeroPart4()
    ensures Crc.Feed(0x8075, [0x20, 0x20, 0x20, 0x20, 0x20, 0x20, 0x03]) == 0xFFFF
  {
    assert Fed(0x8075, 0x20) == 0x05A8 && Fed(0x05A8, 0x20) == 0x0845 && Fed(0x0845, 0x20) == 0x34A3;
    assert Fed(0x34A3, 0x20) == 0xB6A7 && Fed(0xB6A7, 0x20) == 0xF001 && Fed(0xF001, 0x20) == 0x307B;
    assert Fed(0x307B, 0x03) == 0xFFFF;
    var states := [0x8075, 0x05A8, 0x0845, 0x34A3, 0xB6A7, 0xF001, 0x307B, 0xFFFF];
    FeedAlong([0x20, 0x20, 0x20, 0x20, 0x20, 0x20, 0x03], states);
  }

  lemma InFour(c: Crc.Word, p1: Bytes, p2: Bytes, p3: Bytes, p4: Bytes)
    ensures Crc.Feed(c, p1 + p2 + p3 + p4) == Crc.Feed(Crc.Feed(Crc.Feed(Crc.Feed(c, p1), p2), p3), p4)
  {
    Crc.FeedInPieces(c, p1, p2);
    Crc.FeedInPieces(c, p1 + p2, p3);
    Crc.FeedInPieces(c, p1 + p2 + p3, p4);
  }

  lemma ZeroCall(c: Callsign, octets: Bytes)
    requires c.ssid == 0 && |octets| == 7 && octets[6] == 0x60 && |c.base| <= 6
    requires forall i :: 0 <= i < 6 ==> octets[i] == Addresses.ShiftedUp(if i < |c.base| then c.base[i] else SPACE)
    ensures Addresses.Shifted(c) == octets
  {}

  lemma OneRoute(r: Route)
    ensures Content([r]) == Addresses.Shifted(r.neighbour) + AliasBytes(r.neighbourAlias) + Addresses.Shifted(r.destination) + (AliasBytes(r.destAlias) + [r.quality])
  {
    assert Content([r]) == RouteBytes(r);
  }

  lemma ZeroCrc(p1: Bytes, p2: Bytes, p3: Bytes, p4: Bytes)
    requires p1 == [0x8E, 0x84, 0x6E, 0xA4, 0x88, 0x8E, 0x60] && p2 == [0x20, 0x20, 0x20, 0x20, 0x20, 0x20]
    requires p3 == [0x8E, 0x84, 0x6E, 0x9C, 0xAA, 0x40, 0x60] && p4 == [0x20, 0x20, 0x20, 0x20, 0x20, 0x20, 0x03]
    ensures Crc.Compute(p1 + p2 + p3 + p4) == 0
  {
    ZeroPart1();
    ZeroPart2();
    ZeroPart3();
    ZeroPart4();
    InFour(0xFFFF, p1, p2, p3, p4);
  }

  lemma ZeroCalls(p1: Bytes, p3: Bytes)
    requires p1 == [0x8E, 0x84, 0x6E, 0xA4, 0x88, 0x8E, 0x60] && p3 == [0x8E, 0x84, 0x6E, 0x9C, 0xAA, 0x40, 0x60]
    ensures Addresses.Shifted(ZERO_ROUTE.neighbour) == p1 && Addresses.Shifted(ZERO_ROUTE.destination) == p3
  {
    ZeroCall(ZERO_ROUTE.neighbour, p1);
    ZeroCall(ZERO_ROUTE.destination, p3);
  }

  /** A valid table of content CRC 0. */
  lemma ZeroTable()
    ensures ValidRoute(ZERO_ROUTE) && ContentCrc([ZERO_ROUTE]) == 0
  {
    var p1, p2 := [0x8E, 0x84, 0x6E, 0xA4, 0x88, 0x8E, 0x60], [0x20, 0x20, 0x20, 0x20, 0x20, 0x20];
    var p3, p4 := [0x8E, 0x84, 0x6E, 0x9C, 0xAA, 0x40, 0x60], [0x20, 0x20, 0x20, 0x20, 0x20, 0x20, 0x03];
    ZeroCalls(p1, p3);
    assert AliasBytes([]) == p2 && p2 + [3] == p4;
    OneRoute(ZERO_ROUTE);
    ZeroCrc(p1, p2, p3, p4);
  }
}
