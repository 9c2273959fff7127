/**
 The stored configuration and its tag-length-value encoding (config_store.rs).
 */
module ConfigRecord {
  import opened Common
  import opened LittleEndian

  const MAX_PAYLOAD: nat := 512

  datatype TncSettings = TncSettings(
    mode: Option<Byte>, txDelay: Option<Byte>, persist: Option<Byte>,
    slotTime: Option<Byte>, txTail: Option<Byte>, fullDuplex: Option<bool>)

  datatype StoredConfig = StoredConfig(
    callsign: Option<Bytes>, alias: Option<Bytes>, grid: Option<Bytes>, hostname: Option<Bytes>,
    wifiSsid: Option<Bytes>, wifiPass: Option<Bytes>, kissTcpTarget: Option<Bytes>,
    telnetPort: Option<nat>, nodesIntervalSecs: Option<nat>, originate: Option<bool>,
    mqttHost: Option<Bytes>, forceAp: Option<bool>,
    telemetryIntervalMin: Option<nat>, shuntMicroOhm: Option<nat>,
    tnc: TncSettings)

  const NO_TNC := TncSettings(None, None, None, None, None, None)

  const EMPTY := StoredConfig(None, None, None, None, None, None, None, None, None, None, None, None, None, None, NO_TNC)

  // ----- what the fields can hold ----------------------------------------------

  predicate Continuation(b: Byte) { 0x80 <= b <= 0xBF }

  /** Well-formed UTF-8, as the string type of the source requires. */
  predicate Utf8(s: Bytes) {
    if s == [] then true
    else if s[0] < 0x80 then Utf8(s[1..])
    else if 0xC2 <= s[0] <= 0xDF then |s| >= 2 && Continuation(s[1]) && Utf8(s[2..])
    else if 0xE0 <= s[0] <= 0xEF then
      && |s| >= 3 && Continuation(s[1]) && Continuation(s[2])
      && (s[0] == 0xE0 ==> s[1] >= 0xA0) && (s[0] == 0xED ==> s[1] <= 0x9F)
      && Utf8(s[3..])
    else if 0xF0 <= s[0] <= 0xF4 then
      && |s| >= 4 && Continuation(s[1]) && Continuation(s[2]) && Continuation(s[3])
      && (s[0] == 0xF0 ==> s[1] >= 0x90) && (s[0] == 0xF4 ==> s[1] <= 0x8F)
      && Utf8(s[4..])
    else false
  }

  predicate Text(f: Option<Bytes>, capacity: nat) {
    f.Some? ==> |f.value| <= capacity && Utf8(f.value)
  }

  predicate Below(f: Option<nat>, bound: nat) { f.Some? ==> f.value < bound }

  /** The values the field types of the source can hold. The TNC mode alone is
      wider there (any byte); modes above 15 are excluded separately. */
  predicate Typed(c: StoredConfig) { TypedTexts(c) && TypedNumbers(c) }

  predicate TypedTexts(c: StoredConfig) {
    && Text(c.callsign, 12) && Text(c.alias, 8) && Text(c.grid, 8) && Text(c.hostname, 24)
    && Text(c.wifiSsid, 32) && Text(c.wifiPass, 64) && Text(c.kissTcpTarget, 24) && Text(c.mqttHost, 32)
  }

  predicate TypedNumbers(c: StoredConfig) {
    && Below(c.telnetPort, 0x1_0000) && Below(c.nodesIntervalSecs, 0x1_0000_0000)
    && Below(c.telemetryIntervalMin, 0x1_0000) && Below(c.shuntMicroOhm, 0x1_0000_0000)
  }

  // ----- fields -----------------------------------------------------------------

  datatype Field = Field(tag: Byte, data: Bytes)

  function Flag(b: bool): Bytes { [if b then 1 else 0] }

  function TextField(tag: Byte, f: Option<Bytes>): seq<Field> {
    if f.Some? then [Field(tag, f.value)] else []
  }

  function Int16Field(tag: Byte, f: Option<nat>): seq<Field>
    requires Below(f, 0x1_0000)
  {
    if f.Some? then [Field(tag, Le16(f.value))] else []
  }

  function Int32Field(tag: Byte, f: Option<nat>): seq<Field>
    requires Below(f, 0x1_0000_0000)
  {
    if f.Some? then [Field(tag, Le32(f.value))] else []
  }

  function FlagField(tag: Byte, f: Option<bool>): seq<Field> {
    if f.Some? then [Field(tag, Flag(f.value))] else []
  }

  function ByteField(tag: Byte, f: Option<Byte>): seq<Field> {
    if f.Some? then [Field(tag, [f.value])] else []
  }

  /** The fields of a configuration in the order they are written. */
  function Fields(c: StoredConfig): seq<Field>
    requires Typed(c)
  {
    StationFields(c) + NetworkFields(c) + ServiceFields(c) + ReportFields(c) + ModemFields(c) + TimingFields(c)
  }

  function StationFields(c: StoredConfig): seq<Field>
    requires Typed(c)
  {
    TextField(1, c.callsign) + TextField(2, c.alias) + TextField(3, c.grid) + TextField(4, c.hostname)
  }

  function NetworkFields(c: StoredConfig): seq<Field>
    requires Typed(c)
  {
    TextField(5, c.wifiSsid) + TextField(6, c.wifiPass) + TextField(8, c.kissTcpTarget)
  }

  function ServiceFields(c: StoredConfig): seq<Field>
    requires Typed(c)
  {
    Int16Field(10, c.telnetPort) + Int32Field(11, c.nodesIntervalSecs) + FlagField(12, c.originate) + TextField(13, c.mqttHost)
  }

  function ReportFields(c: StoredConfig): seq<Field>
    requires Typed(c)
  {
    FlagField(14, c.forceAp) + Int16Field(21, c.telemetryIntervalMin) + Int32Field(22, c.shuntMicroOhm)
  }

  function ModemFields(c: StoredConfig): seq<Field>
    requires Typed(c)
  {
    ByteField(15, c.tnc.mode) + ByteField(16, c.tnc.txDelay) + ByteField(17, c.tnc.persist)
  }

  function TimingFields(c: StoredConfig): seq<Field>
    requires Typed(c)
  {
    ByteField(18, c.tnc.slotTime) + ByteField(19, c.tnc.txTail) + FlagField(20, c.tnc.fullDuplex)
  }

  // ----- encoding ---------------------------------------------------------------

  /** No field is longer than the longest string, 64 bytes. */
  predicate Short(fs: seq<Field>) { forall f :: f in fs ==> |f.data| <= 64 }

  /** The length of every field fits its length byte. */
  predicate Sized(fs: seq<Field>) { forall f :: f in fs ==> |f.data| < 256 }

  function Tlv(f: Field): Bytes
    requires |f.data| < 256
  {
    [f.tag, |f.data| as Byte] + f.data
  }

  /** A field is appended only if the payload still has room for it. */
  function Put(payload: Bytes, f: Field): Bytes
    requires |f.data| <= 64
  {
    if |payload| + 2 + |f.data| <= MAX_PAYLOAD then payload + Tlv(f) else payload
  }

  function PutAll(payload: Bytes, fs: seq<Field>): Bytes
    requires Short(fs)
    decreases |fs|
  {
    if fs == [] then payload else PutAll(Put(payload, fs[0]), fs[1..])
  }

  function Encode(c: StoredConfig): Bytes
    requires Typed(c)
  {
    FieldsAreShort(c);
    PutAll([], Fields(c))
  }

  /** The bytes of fields written one after the other, room or no room. */
  function Joined(fs: seq<Field>): Bytes
    requires Sized(fs)
  {
    if fs == [] then [] else Tlv(fs[0]) + Joined(fs[1..])
  }

  function Size(fs: seq<Field>): nat {
    if fs == [] then 0 else 2 + |fs[0].data| + Size(fs[1..])
  }

  lemma {:induction false} SizeOfBoth(a: seq<Field>, b: seq<Field>)
    ensures Size(a + b) == Size(a) + Size(b)
    ensures Short(a) && Short(b) ==> Short(a + b)
  {
    if a == [] {
      assert a + b == b;
    } else {
      assert (a + b)[1..] == a[1..] + b;
      SizeOfBoth(a[1..], b);
    }
  }

  /** A short group of fields and a bound on its encoded size. */
  predicate Fits(fs: seq<Field>, n: nat) { Short(fs) && Size(fs) <= n }

  lemma FitsBoth(a: seq<Field>, b: seq<Field>, m: nat, n: nat)
    requires Fits(a, m) && Fits(b, n)
    ensures Fits(a + b, m + n)
  {
    SizeOfBoth(a, b);
  }

  lemma OneFits(fs: seq<Field>, n: nat)
    requires fs == [] || (|fs| == 1 && |fs[0].data| <= n <= 64)
    ensures Fits(fs, n + 2)
  {}

  lemma StationFits(c: StoredConfig)
    requires Typed(c)
    ensures Fits(StationFields(c), 60)
  {
    var f1 := TextField(1, c.callsign);
    OneFits(f1, 12);
    var f2 := TextField(2, c.alias);
    OneFits(f2, 8);
    var f3 := TextField(3, c.grid);
    OneFits(f3, 8);
    var f4 := TextField(4, c.hostname);
    OneFits(f4, 24);
    FitsBoth(f1, f2, 14, 10);
    FitsBoth(f1 + f2, f3, 24, 10);
    FitsBoth(f1 + f2 + f3, f4, 34, 26);
  }

  lemma NetworkFits(c: StoredConfig)
    requires Typed(c)
    ensures Fits(NetworkFields(c), 126)
  {
    var f1 := TextField(5, c.wifiSsid);
    OneFits(f1, 32);
    var f2 := TextField(6, c.wifiPass);
    OneFits(f2, 64);
    var f3 := TextField(8, c.kissTcpTarget);
    OneFits(f3, 24);
    FitsBoth(f1, f2, 34, 66);
    FitsBoth(f1 + f2, f3, 100, 26);
  }

  lemma ServiceFits(c: StoredConfig)
    requires Typed(c)
    ensures Fits(ServiceFields(c), 47)
  {
    var f1 := Int16Field(10, c.telnetPort);
    OneFits(f1, 2);
    var f2 := Int32Field(11, c.nodesIntervalSecs);
    OneFits(f2, 4);
    var f3 := FlagField(12, c.originate);
    OneFits(f3, 1);
    var f4 := TextField(13, c.mqttHost);
    OneFits(f4, 32);
    FitsBoth(f1, f2, 4, 6);
    FitsBoth(f1 + f2, f3, 10, 3);
    FitsBoth(f1 + f2 + f3, f4, 13, 34);
  }

  lemma ReportFits(c: StoredConfig)
    requires Typed(c)
    ensures Fits(ReportFields(c), 13)
  {
    var f1 := FlagField(14, c.forceAp);
    OneFits(f1, 1);
    var f2 := Int16Field(21, c.telemetryIntervalMin);
    OneFits(f2, 2);
    var f3 := Int32Field(22, c.shuntMicroOhm);
    OneFits(f3, 4);
    FitsBoth(f1, f2, 3, 4);
    FitsBoth(f1 + f2, f3, 7, 6);
  }

  lemma ModemFits(c: StoredConfig)
    requires Typed(c)
    ensures Fits(ModemFields(c), 9)
  {
    var f1 := ByteField(15, c.tnc.mode);
    OneFits(f1, 1);
    var f2 := ByteField(16, c.tnc.txDelay);
    OneFits(f2, 1);
    var f3 := ByteField(17, c.tnc.persist);
    OneFits(f3, 1);
    FitsBoth(f1, f2, 3, 3);
    FitsBoth(f1 + f2, f3, 6, 3);
  }

  lemma TimingFits(c: StoredConfig)
    requires Typed(c)
    ensures Fits(TimingFields(c), 9)
  {
    var f1 := ByteField(18, c.tnc.slotTime);
    OneFits(f1, 1);
    var f2 := ByteField(19, c.tnc.txTail);
    OneFits(f2, 1);
    var f3 := FlagField(20, c.tnc.fullDuplex);
    OneFits(f3, 1);
    FitsBoth(f1, f2, 3, 3);
    FitsBoth(f1 + f2, f3, 6, 3);
  }

  /** The worst case is 264 of the 512 bytes. */
  lemma FieldsAreShort(c: StoredConfig)
    requires Typed(c)
    ensures Short(Fields(c)) && Size(Fields(c)) <= 264
  {
    StationFits(c);
    var g1 := StationFields(c);
    NetworkFits(c);
    var g2 := NetworkFields(c);
    ServiceFits(c);
    var g3 := ServiceFields(c);
    ReportFits(c);
    var g4 := ReportFields(c);
    ModemFits(c);
    var g5 := ModemFields(c);
    TimingFits(c);
    var g6 := TimingFields(c);
    FitsBoth(g1, g2, 60, 126);
    FitsBoth(g1 + g2, g3, 186, 47);
    FitsBoth(g1 + g2 + g3, g4, 233, 13);
    FitsBoth(g1 + g2 + g3 + g4, g5, 246, 9);
    FitsBoth(g1 + g2 + g3 + g4 + g5, g6, 255, 9);
  }

  /** Where everything fits, nothing is dropped. */
  lemma {:induction false} NothingDropped(payload: Bytes, fs: seq<Field>)
    requires Short(fs) && |payload| + Size(fs) <= MAX_PAYLOAD
    ensures PutAll(payload, fs) == payload + Joined(fs)
    ensures |PutAll(payload, fs)| == |payload| + Size(fs)
    decreases |fs|
  {
    if fs == [] {
      assert payload + [] == payload;
    } else {
      NothingDropped(payload + Tlv(fs[0]), fs[1..]);
      assert (payload + Tlv(fs[0])) + Joined(fs[1..]) == payload + (Tlv(fs[0]) + Joined(fs[1..]));
    }
  }

  lemma EncodeFields(fs: seq<Field>)
    requires Short(fs) && Size(fs) <= 264
    ensures PutAll([], fs) == Joined(fs) && |Joined(fs)| <= 264
  {
    NothingDropped([], fs);
    assert [] + Joined(fs) == Joined(fs);
  }

  lemma EncodeIsComplete(c: StoredConfig)
    requires Typed(c)
    ensures Short(Fields(c)) && Encode(c) == Joined(Fields(c)) && |Encode(c)| <= 264
  {
    var fs := Fields(c);
    FieldsAreShort(c);
    EncodeFields(fs);
  }

  // ----- decoding ---------------------------------------------------------------

  function ReadText(data: Bytes, capacity: nat): Option<Bytes> {
    if Utf8(data) && |data| <= capacity then Some(data) else None
  }

  /** One field read into a configuration; unknown tags and fields of the wrong
      length change nothing. */
  function Apply(c: StoredConfig, f: Field): StoredConfig {
    var (tag, data, n) := (f.tag, f.data, |f.data|);
    if tag == 1 then c.(callsign := ReadText(data, 12))
    else if tag == 2 then c.(alias := ReadText(data, 8))
    else if tag == 3 then c.(grid := ReadText(data, 8))
    else if tag == 4 then c.(hostname := ReadText(data, 24))
    else if tag == 5 then c.(wifiSsid := ReadText(data, 32))
    else if tag == 6 then c.(wifiPass := ReadText(data, 64))
    else if tag == 8 then c.(kissTcpTarget := ReadText(data, 24))
    else if tag == 10 && n == 2 then c.(telnetPort := Some(From16(data)))
    else if tag == 11 && n == 4 then c.(nodesIntervalSecs := Some(From32(data)))
    else if tag == 12 && n == 1 then c.(originate := Some(data[0] != 0))
    else if tag == 13 then c.(mqttHost := ReadText(data, 32))
    else if tag == 14 && n == 1 then c.(forceAp := Some(data[0] != 0))
    else if tag == 21 && n == 2 then c.(telemetryIntervalMin := Some(From16(data)))
    else if tag == 22 && n == 4 then c.(shuntMicroOhm := Some(From32(data)))
    else c.(tnc := ApplyTnc(c.tnc, f))
  }

  function ApplyTnc(t: TncSettings, f: Field): TncSettings {
    var (tag, data) := (f.tag, f.data);
    if |data| != 1 then t
    else if tag == 15 && data[0] <= 15 then t.(mode := Some(data[0]))
    else if tag == 16 then t.(txDelay := Some(data[0]))
    else if tag == 17 then t.(persist := Some(data[0]))
    else if tag == 18 then t.(slotTime := Some(data[0]))
    else if tag == 19 then t.(txTail := Some(data[0]))
    else if tag == 20 then t.(fullDuplex := Some(data[0] != 0))
    else t
  }

  function ApplyAll(c: StoredConfig, fs: seq<Field>): StoredConfig
    decreases |fs|
  {
    if fs == [] then c else ApplyAll(Apply(c, fs[0]), fs[1..])
  }

  /** Reading stops at the first field that does not fit the payload. */
  function DecodeFrom(c: StoredConfig, payload: Bytes): StoredConfig
    decreases |payload|
  {
    if |payload| < 2 then c
    else
      var n := payload[1] as nat;
      if 2 + n > |payload| then c
      else DecodeFrom(Apply(c, Field(payload[0], payload[2..2 + n])), payload[2 + n..])
  }

  function Decode(payload: Bytes): StoredConfig { DecodeFrom(EMPTY, payload) }

  // ----- round trip -------------------------------------------------------------

  lemma DecodeOne(c: StoredConfig, f: Field, rest: Bytes)
    requires |f.data| < 256
    ensures DecodeFrom(c, Tlv(f) + rest) == DecodeFrom(Apply(c, f), rest)
  {
    var payload, n := Tlv(f) + rest, |f.data|;
    ByteOfNat(n);
    assert payload[2..2 + n] == f.data && payload[2 + n..] == rest;
  }

  /** Reading whole fields and then anything else is applying the fields and
      reading the rest: `rest` begins at a field boundary. */
  lemma {:induction false} DecodeFields(c: StoredConfig, fs: seq<Field>, rest: Bytes)
    requires Sized(fs)
    ensures DecodeFrom(c, Joined(fs) + rest) == DecodeFrom(ApplyAll(c, fs), rest)
    decreases |fs|
  {
    if fs == [] {
      assert [] + rest == rest;
    } else {
      assert Joined(fs) + rest == Tlv(fs[0]) + (Joined(fs[1..]) + rest);
      DecodeOne(c, fs[0], Joined(fs[1..]) + rest);
      DecodeFields(Apply(c, fs[0]), fs[1..], rest);
    }
  }

  lemma {:induction false} ApplyBoth(c: StoredConfig, a: seq<Field>, b: seq<Field>)
    ensures ApplyAll(c, a + b) == ApplyAll(ApplyAll(c, a), b)
    decreases |a|
  {
    if a == [] {
      assert a + b == b;
    } else {
      assert (a + b)[1..] == a[1..] + b;
      ApplyBoth(Apply(c, a[0]), a[1..], b);
    }
  }

  lemma ApplySingle(c: StoredConfig, f: Field)
    ensures ApplyAll(c, [f]) == Apply(c, f)
  {
    assert [f][1..] == [];
  }

  /** Applying `fs` turns `x` into `y`. */
  predicate Turns(x: StoredConfig, fs: seq<Field>, y: StoredConfig) { ApplyAll(x, fs) == y }

  lemma Chain(x: StoredConfig, a: seq<Field>, y: StoredConfig, b: seq<Field>, z: StoredConfig)
    requires Turns(x, a, y) && Turns(y, b, z)
    ensures Turns(x, a + b, z)
  {
    ApplyBoth(x, a, b);
  }

  /** An optional field either sets its value or leaves it unset. */
  lemma TurnsOptional(x: StoredConfig, fs: seq<Field>, y: StoredConfig)
    requires fs == [] ==> x == y
    requires fs != [] ==> |fs| == 1 && Apply(x, fs[0]) == y
    ensures Turns(x, fs, y)
  {
    if fs != [] {
      assert fs == [fs[0]];
      ApplySingle(x, fs[0]);
    }
  }

  /** A TNC mode the decoder accepts. The encoder writes any byte. */
  predicate ModeStorable(c: StoredConfig) { c.tnc.mode.Some? ==> c.tnc.mode.value <= 15 }

  /** What survives storing: everything but a TNC mode above 15. */
  function Normal(c: StoredConfig): StoredConfig {
    if ModeStorable(c) then c else c.(tnc := c.tnc.(mode := None))
  }

  lemma TelnetPortRestored(x: StoredConfig, c: StoredConfig)
    requires Typed(c) && x.telnetPort.None?
    ensures Turns(x, Int16Field(10, c.telnetPort), x.(telnetPort := c.telnetPort))
  {
    if c.telnetPort.Some? { ReadBack16(c.telnetPort.value); }
    TurnsOptional(x, Int16Field(10, c.telnetPort), x.(telnetPort := c.telnetPort));
  }

  lemma NodesIntervalSecsRestored(x: StoredConfig, c: StoredConfig)
    requires Typed(c) && x.nodesIntervalSecs.None?
    ensures Turns(x, Int32Field(11, c.nodesIntervalSecs), x.(nodesIntervalSecs := c.nodesIntervalSecs))
  {
    if c.nodesIntervalSecs.Some? { ReadBack32(c.nodesIntervalSecs.value); }
    TurnsOptional(x, Int32Field(11, c.nodesIntervalSecs), x.(nodesIntervalSecs := c.nodesIntervalSecs));
  }

  lemma TelemetryIntervalMinRestored(x: StoredConfig, c: StoredConfig)
    requires Typed(c) && x.telemetryIntervalMin.None?
    ensures Turns(x, Int16Field(21, c.telemetryIntervalMin), x.(telemetryIntervalMin := c.telemetryIntervalMin))
  {
    if c.telemetryIntervalMin.Some? { ReadBack16(c.telemetryIntervalMin.value); }
    TurnsOptional(x, Int16Field(21, c.telemetryIntervalMin), x.(telemetryIntervalMin := c.telemetryIntervalMin));
  }

  lemma ShuntMicroOhmRestored(x: StoredConfig, c: StoredConfig)
    requires Typed(c) && x.shuntMicroOhm.None?
    ensures Turns(x, Int32Field(22, c.shuntMicroOhm), x.(shuntMicroOhm := c.shuntMicroOhm))
  {
    if c.shuntMicroOhm.Some? { ReadBack32(c.shuntMicroOhm.value); }
    TurnsOptional(x, Int32Field(22, c.shuntMicroOhm), x.(shuntMicroOhm := c.shuntMicroOhm));
  }

  function WithStation(x: StoredConfig, c: StoredConfig): StoredConfig {
    x.(callsign := c.callsign, alias := c.alias, grid := c.grid, hostname := c.hostname)
  }

  lemma StationRestored(x: StoredConfig, c: StoredConfig)
    requires Typed(c) && x.callsign.None? && x.alias.None? && x.grid.None? && x.hostname.None?
    ensures Turns(x, StationFields(c), WithStation(x, c))
  {
    var f1 := TextField(1, c.callsign);
    var f2 := TextField(2, c.alias);
    var f3 := TextField(3, c.grid);
    var f4 := TextField(4, c.hostname);
    var x1 := x.(callsign := c.callsign);
    TurnsOptional(x, f1, x1);
    var x2 := x1.(alias := c.alias);
    TurnsOptional(x1, f2, x2);
    var x3 := x2.(grid := c.grid);
    TurnsOptional(x2, f3, x3);
    var x4 := x3.(hostname := c.hostname);
    TurnsOptional(x3, f4, x4);
    Chain(x, f1, x1, f2, x2);
    Chain(x, f1 + f2, x2, f3, x3);
    Chain(x, f1 + f2 + f3, x3, f4, x4);
  }

  function WithNetwork(x: StoredConfig, c: StoredConfig): StoredConfig {
    x.(wifiSsid := c.wifiSsid, wifiPass := c.wifiPass, kissTcpTarget := c.kissTcpTarget)
  }

  lemma NetworkRestored(x: StoredConfig, c: StoredConfig)
    requires Typed(c) && x.wifiSsid.None? && x.wifiPass.None? && x.kissTcpTarget.None?
    ensures Turns(x, NetworkFields(c), WithNetwork(x, c))
  {
    var f1 := TextField(5, c.wifiSsid);
    var f2 := TextField(6, c.wifiPass);
    var f3 := TextField(8, c.kissTcpTarget);
    var x1 := x.(wifiSsid := c.wifiSsid);
    TurnsOptional(x, f1, x1);
    var x2 := x1.(wifiPass := c.wifiPass);
    TurnsOptional(x1, f2, x2);
    var x3 := x2.(kissTcpTarget := c.kissTcpTarget);
    TurnsOptional(x2, f3, x3);
    Chain(x, f1, x1, f2, x2);
    Chain(x, f1 + f2, x2, f3, x3);
  }

  function WithService(x: StoredConfig, c: StoredConfig): StoredConfig {
    x.(telnetPort := c.telnetPort, nodesIntervalSecs := c.nodesIntervalSecs, originate := c.originate, mqttHost := c.mqttHost)
  }

  lemma ServiceRestored(x: StoredConfig, c: StoredConfig)
    requires Typed(c) && x.telnetPort.None? && x.nodesIntervalSecs.None? && x.originate.None? && x.mqttHost.None?
    ensures Turns(x, ServiceFields(c), WithService(x, c))
  {
    var f1 := Int16Field(10, c.telnetPort);
    var f2 := Int32Field(11, c.nodesIntervalSecs);
    var f3 := FlagField(12, c.originate);
    var f4 := TextField(13, c.mqttHost);
    var x1 := x.(telnetPort := c.telnetPort);
    TelnetPortRestored(x, c);
    var x2 := x1.(nodesIntervalSecs := c.nodesIntervalSecs);
    NodesIntervalSecsRestored(x1, c);
    var x3 := x2.(originate := c.originate);
    TurnsOptional(x2, f3, x3);
    var x4 := x3.(mqttHost := c.mqttHost);
    TurnsOptional(x3, f4, x4);
    Chain(x, f1, x1, f2, x2);
    Chain(x, f1 + f2, x2, f3, x3);
    Chain(x, f1 + f2 + f3, x3, f4, x4);
  }

  function WithReport(x: StoredConfig, c: StoredConfig): StoredConfig {
    x.(forceAp := c.forceAp, telemetryIntervalMin := c.telemetryIntervalMin, shuntMicroOhm := c.shuntMicroOhm)
  }

  lemma ReportRestored(x: StoredConfig, c: StoredConfig)
    requires Typed(c) && x.forceAp.None? && x.telemetryIntervalMin.None? && x.shuntMicroOhm.None?
    ensures Turns(x, ReportFields(c), WithReport(x, c))
  {
    var f1 := FlagField(14, c.forceAp);
    var f2 := Int16Field(21, c.telemetryIntervalMin);
    var f3 := Int32Field(22, c.shuntMicroOhm);
    var x1 := x.(forceAp := c.forceAp);
    TurnsOptional(x, f1, x1);
    var x2 := x1.(telemetryIntervalMin := c.telemetryIntervalMin);
    TelemetryIntervalMinRestored(x1, c);
    var x3 := x2.(shuntMicroOhm := c.shuntMicroOhm);
    ShuntMicroOhmRestored(x2, c);
    Chain(x, f1, x1, f2, x2);
    Chain(x, f1 + f2, x2, f3, x3);
  }

  function WithModem(x: StoredConfig, c: StoredConfig): StoredConfig {
    x.(tnc := x.tnc.(mode := c.tnc.mode, txDelay := c.tnc.txDelay, persist := c.tnc.persist))
  }

  lemma ModemRestored(x: StoredConfig, c: StoredConfig)
    requires Typed(c) && x.tnc.mode.None? && x.tnc.txDelay.None? && x.tnc.persist.None?
    ensures Turns(x, ModemFields(c), WithModem(x, Normal(c)))
  {
    var f1 := ByteField(15, c.tnc.mode);
    var f2 := ByteField(16, c.tnc.txDelay);
    var f3 := ByteField(17, c.tnc.persist);
    var x1 := x.(tnc := x.tnc.(mode := Normal(c).tnc.mode));
    TurnsOptional(x, f1, x1);
    var x2 := x1.(tnc := x1.tnc.(txDelay := c.tnc.txDelay));
    TurnsOptional(x1, f2, x2);
    var x3 := x2.(tnc := x2.tnc.(persist := c.tnc.persist));
    TurnsOptional(x2, f3, x3);
    Chain(x, f1, x1, f2, x2);
    Chain(x, f1 + f2, x2, f3, x3);
  }

  function WithTiming(x: StoredConfig, c: StoredConfig): StoredConfig {
    x.(tnc := x.tnc.(slotTime := c.tnc.slotTime, txTail := c.tnc.txTail, fullDuplex := c.tnc.fullDuplex))
  }

  lemma TimingRestored(x: StoredConfig, c: StoredConfig)
    requires Typed(c) && x.tnc.slotTime.None? && x.tnc.txTail.None? && x.tnc.fullDuplex.None?
    ensures Turns(x, TimingFields(c), WithTiming(x, c))
  {
    var f1 := ByteField(18, c.tnc.slotTime);
    var f2 := ByteField(19, c.tnc.txTail);
    var f3 := FlagField(20, c.tnc.fullDuplex);
    var x1 := x.(tnc := x.tnc.(slotTime := c.tnc.slotTime));
    TurnsOptional(x, f1, x1);
    var x2 := x1.(tnc := x1.tnc.(txTail := c.tnc.txTail));
    TurnsOptional(x1, f2, x2);
    var x3 := x2.(tnc := x2.tnc.(fullDuplex := c.tnc.fullDuplex));
    TurnsOptional(x2, f3, x3);
    Chain(x, f1, x1, f2, x2);
    Chain(x, f1 + f2, x2, f3, x3);
  }

  lemma AllRestored(c: StoredConfig)
    requires Typed(c)
    ensures ApplyAll(EMPTY, Fields(c)) == Normal(c)
  {
    var x1, g1 := WithStation(EMPTY, c), StationFields(c);
    StationRestored(EMPTY, c);
    var x2, g2 := WithNetwork(x1, c), NetworkFields(c);
    NetworkRestored(x1, c);
    var x3, g3 := WithService(x2, c), ServiceFields(c);
    ServiceRestored(x2, c);
    var x4, g4 := WithReport(x3, c), ReportFields(c);
    ReportRestored(x3, c);
    var x5, g5 := WithModem(x4, Normal(c)), ModemFields(c);
    ModemRestored(x4, c);
    var x6, g6 := WithTiming(x5, c), TimingFields(c);
    TimingRestored(x5, c);
    Chain(EMPTY, g1, x1, g2, x2);
    Chain(EMPTY, g1 + g2, x2, g3, x3);
    Chain(EMPTY, g1 + g2 + g3, x3, g4, x4);
    Chain(EMPTY, g1 + g2 + g3 + g4, x4, g5, x5);
    Chain(EMPTY, g1 + g2 + g3 + g4 + g5, x5, g6, x6);
  }

  /** Storing and reading back returns the configuration, exactly when its TNC
      mode is one the decoder accepts. */
  lemma RoundTrip(c: StoredConfig)
    requires Typed(c)
    ensures Decode(Encode(c)) == Normal(c)
    ensures Decode(Encode(c)) == c <==> ModeStorable(c)
  {
    var fs := Fields(c);
    EncodeIsComplete(c);
    AllRestored(c);
    FieldsAreShort(c);
    assert Joined(fs) + [] == Joined(fs);
    DecodeFields(EMPTY, fs, []);
  }

  predicate UnknownTag(tag: Byte) { tag == 0 || tag == 7 || tag == 9 || tag > 22 }

  lemma UnknownTagApplies(c: StoredConfig, f: Field)
    requires UnknownTag(f.tag)
    ensures Apply(c, f) == c
  {}

  /** A field with a tag this version does not know, at any field boundary of
      any payload, changes nothing. */
  lemma UnknownFieldIgnored(before: seq<Field>, f: Field, rest: Bytes)
    requires Sized(before) && |f.data| < 256 && UnknownTag(f.tag)
    ensures Decode(Joined(before) + (Tlv(f) + rest)) == Decode(Joined(before) + rest)
  {
    var c := ApplyAll(EMPTY, before);
    DecodeFields(EMPTY, before, Tlv(f) + rest);
    DecodeFields(EMPTY, before, rest);
    DecodeOne(c, f, rest);
    UnknownTagApplies(c, f);
  }

  /** The length of a number or flag with this tag; nothing for texts and unknown tags. */
  function LengthFor(tag: Byte): Option<nat> {
    if tag == 10 || tag == 21 then Some(2)
    else if tag == 11 || tag == 22 then Some(4)
    else if tag == 12 || tag == 14 || 15 <= tag <= 20 then Some(1)
    else None
  }

  lemma MisfitApplies(c: StoredConfig, f: Field)
    requires LengthFor(f.tag).Some? && |f.data| != LengthFor(f.tag).value
    ensures Apply(c, f) == c
  {}

  /** A number or flag of the wrong length, in any payload, changes nothing. */
  lemma MisfitFieldIgnored(before: seq<Field>, f: Field, rest: Bytes)
    requires Sized(before) && |f.data| < 256
    requires LengthFor(f.tag).Some? && |f.data| != LengthFor(f.tag).value
    ensures Decode(Joined(before) + (Tlv(f) + rest)) == Decode(Joined(before) + rest)
  {
    var c := ApplyAll(EMPTY, before);
    DecodeFields(EMPTY, before, Tlv(f) + rest);
    DecodeFields(EMPTY, before, rest);
    DecodeOne(c, f, rest);
    MisfitApplies(c, f);
  }

  lemma FlagApplies(c: StoredConfig, b: Byte)
    ensures Apply(c, Field(12, [b])) == c.(originate := Some(b != 0))
    ensures Apply(c, Field(14, [b])) == c.(forceAp := Some(b != 0))
    ensures Apply(c, Field(20, [b])) == c.(tnc := c.tnc.(fullDuplex := Some(b != 0)))
  {}

  /** Any byte but 0 sets a flag. */
  lemma FlagIsNotZero(c: StoredConfig, b: Byte, rest: Bytes)
    ensures DecodeFrom(c, Tlv(Field(12, [b])) + rest) == DecodeFrom(c.(originate := Some(b != 0)), rest)
    ensures DecodeFrom(c, Tlv(Field(14, [b])) + rest) == DecodeFrom(c.(forceAp := Some(b != 0)), rest)
    ensures DecodeFrom(c, Tlv(Field(20, [b])) + rest) == DecodeFrom(c.(tnc := c.tnc.(fullDuplex := Some(b != 0))), rest)
  {
    FlagApplies(c, b);
    DecodeOne(c, Field(12, [b]), rest);
    DecodeOne(c, Field(14, [b]), rest);
    DecodeOne(c, Field(20, [b]), rest);
  }

  /** A text is read if it is well-formed and fits its field, and clears it otherwise. */
  lemma TextIsReadOrCleared(c: StoredConfig, data: Bytes)
    ensures Apply(c, Field(1, data)) == c.(callsign := if Utf8(data) && |data| <= 12 then Some(data) else None)
    ensures Apply(c, Field(2, data)) == c.(alias := if Utf8(data) && |data| <= 8 then Some(data) else None)
    ensures Apply(c, Field(3, data)) == c.(grid := if Utf8(data) && |data| <= 8 then Some(data) else None)
    ensures Apply(c, Field(4, data)) == c.(hostname := if Utf8(data) && |data| <= 24 then Some(data) else None)
    ensures Apply(c, Field(5, data)) == c.(wifiSsid := if Utf8(data) && |data| <= 32 then Some(data) else None)
    ensures Apply(c, Field(6, data)) == c.(wifiPass := if Utf8(data) && |data| <= 64 then Some(data) else None)
    ensures Apply(c, Field(8, data)) == c.(kissTcpTarget := if Utf8(data) && |data| <= 24 then Some(data) else None)
    ensures Apply(c, Field(13, data)) == c.(mqttHost := if Utf8(data) && |data| <= 32 then Some(data) else None)
  {}

  /** A payload cut inside a field keeps every field before the cut. */
  lemma TruncationKeepsPrefix(before: seq<Field>, tail: Bytes)
    requires Sized(before)
    requires |tail| < 2 || |tail| < 2 + tail[1] as nat
    ensures Decode(Joined(before) + tail) == ApplyAll(EMPTY, before)
  {
    DecodeFields(EMPTY, before, tail);
  }

  lemma TextRead(data: Bytes, capacity: nat)
    ensures Text(ReadText(data, capacity), capacity)
  {}

  /** A field leaves a text as it was or reads it anew. */
  lemma TextsAfter(c: StoredConfig, f: Field)
    ensures
      var d := Apply(c, f);
      && d.callsign in {c.callsign, ReadText(f.data, 12)} && d.alias in {c.alias, ReadText(f.data, 8)}
      && d.grid in {c.grid, ReadText(f.data, 8)} && d.hostname in {c.hostname, ReadText(f.data, 24)}
      && d.wifiSsid in {c.wifiSsid, ReadText(f.data, 32)} && d.wifiPass in {c.wifiPass, ReadText(f.data, 64)}
      && d.kissTcpTarget in {c.kissTcpTarget, ReadText(f.data, 24)} && d.mqttHost in {c.mqttHost, ReadText(f.data, 32)}
  {}

  lemma ApplyKeepsTexts(c: StoredConfig, f: Field)
    requires TypedTexts(c)
    ensures TypedTexts(Apply(c, f))
  {
    TextsAfter(c, f);
    TextRead(f.data, 8);
    TextRead(f.data, 12);
    TextRead(f.data, 24);
    TextRead(f.data, 32);
    TextRead(f.data, 64);
  }

  lemma ApplyKeepsNumbers(c: StoredConfig, f: Field)
    requires TypedNumbers(c)
    ensures TypedNumbers(Apply(c, f))
  {}

  /** Whatever the bytes, what is read from them fits the field types. */
  lemma {:induction false} DecodedIsTyped(c: StoredConfig, payload: Bytes)
    requires Typed(c)
    ensures Typed(DecodeFrom(c, payload))
    decreases |payload|
  {
    if |payload| >= 2 && 2 + payload[1] as nat <= |payload| {
      var n := payload[1] as nat;
      var f := Field(payload[0], payload[2..2 + n]);
      ApplyKeepsTexts(c, f);
      ApplyKeepsNumbers(c, f);
      DecodedIsTyped(Apply(c, f), payload[2 + n..]);
    }
  }

  // ----- the loops of the source ------------------------------------------------

  /** Append one field at the cursor, if there is room. */
  method PutField(buf: array<Byte>, at: nat, f: Field) returns (next: nat)
    requires at <= buf.Length == MAX_PAYLOAD && |f.data| <= 64
    modifies buf
    ensures next <= buf.Length && buf[..next] == Put(old(buf[..at]), f)
  {
    if at + 2 + |f.data| <= MAX_PAYLOAD {
      buf[at] := f.tag;
      buf[at + 1] := |f.data| as Byte;
      forall k | 0 <= k < |f.data| {
        buf[at + 2 + k] := f.data[k];
      }
      next := at + 2 + |f.data|;
      assert buf[..next] == old(buf[..at]) + Tlv(f);
    } else {
      next := at;
    }
  }

  /** Write the fields into `buf` through an advancing cursor. */
  method EncodeInto(c: StoredConfig, buf: array<Byte>) returns (at: nat)
    requires Typed(c) && buf.Length == MAX_PAYLOAD
    modifies buf
    ensures at <= buf.Length && buf[..at] == Encode(c)
  {
    FieldsAreShort(c);
    var fs := Fields(c);
    at := 0;
    assert buf[..0] == [] && fs[0..] == fs;
    for i := 0 to |fs|
      invariant at <= buf.Length && PutAll(buf[..at], fs[i..]) == PutAll([], fs)
    {
      assert fs[i] in fs && fs[i..][1..] == fs[i + 1..];
      at := PutField(buf, at, fs[i]);
    }
    assert fs[|fs|..] == [];
  }

  method DecodePayload(payload: Bytes) returns (out: StoredConfig)
    ensures out == Decode(payload)
  {
    out := EMPTY;
    var at := 0;
    while at + 2 <= |payload|
      invariant at <= |payload| && DecodeFrom(out, payload[at..]) == Decode(payload)
    {
      var n := payload[at + 1] as nat;
      if at + 2 + n > |payload| {
        return;
      }
      assert payload[at..][2..2 + n] == payload[at + 2..at + 2 + n];
      assert payload[at..][2 + n..] == payload[at + 2 + n..];
      out := Apply(out, Field(payload[at], payload[at + 2..at + 2 + n]));
      at := at + 2 + n;
    }
  }
}
