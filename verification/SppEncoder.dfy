/** Fault events and the 1016-byte space packets that carry them. */
module SppEncoder {
  import opened Bytes
  import opened Crc16
  import opened CcsdsWire
  import opened Wrappers
  import CrcLoop

  type Int32 = x: int | -0x8000_0000 <= x < 0x8000_0000

  datatype FaultType = PacketDrop | ClockSkew | SafeMode | SensorNoise {
    function Index(): (i: nat)
      ensures i < 4
    {
      match this
      case PacketDrop => 0
      case ClockSkew => 1
      case SafeMode => 2
      case SensorNoise => 3
    }
  }

  datatype FaultEvent = FaultEvent(
    faultType: FaultType,
    at: real,
    linkId: Byte,
    dropProbability: Word,
    dropDuration: DWord,
    assetClass: Byte,
    instanceId: Byte,
    offsetMs: Int32,
    ratePpm: Int32,
    clockDuration: DWord,
    triggerReason: Word,
    sensorIndex: Word,
    noiseModel: Byte,
    noiseParam1: Int32,
    noiseParam2: Int32,
    noiseDuration: DWord,
    emitted: bool)

  const SPP_MAX_BYTES := 1016
  const SPP_DATA_LENGTH: Word := 1009
  const APID_BASE: Word := 0x540
  const PAYLOAD_OFFSET := 16

  /** Two's complement. */
  function Unsigned(i: Int32): DWord {
    if i < 0 then i + 0x1_0000_0000 else i
  }

  function HeaderBytes(apid: Word, seqCount: Word, dataLen: Word): (s: seq<Byte>)
    ensures |s| == 6
  {
    [0x08 + apid / 0x100 % 8, apid % 0x100, 0xC0 + seqCount / 0x100 % 0x40, seqCount % 0x100,
     dataLen / 0x100, dataLen % 0x100]
  }

  const SECONDARY_HEADER: seq<Byte> := [0x2F, 0, 0, 0, 0, 0, 0, 0x01, 0x00, 0x01]

  /** The fault-specific user data. */
  function Payload(ev: FaultEvent): (s: seq<Byte>)
    ensures |s| <= 18
  {
    match ev.faultType
    case PacketDrop => [ev.linkId] + [0] + Be16(ev.dropProbability) + Be32(ev.dropDuration)
    case ClockSkew =>
      [ev.assetClass] + [ev.instanceId] + Be32(Unsigned(ev.offsetMs)) + Be32(Unsigned(ev.ratePpm))
      + Be32(ev.clockDuration)
    case SafeMode => [ev.assetClass] + [ev.instanceId] + Be16(ev.triggerReason)
    case SensorNoise =>
      [ev.assetClass] + [ev.instanceId] + Be16(ev.sensorIndex) + [ev.noiseModel] + [0]
      + Be32(Unsigned(ev.noiseParam1)) + Be32(Unsigned(ev.noiseParam2)) + Be32(ev.noiseDuration)
  }

  /** What an encoder writes; the rest of the caller's buffer it leaves alone. */
  function Encoded(t: FaultType, seqCount: Word, payload: seq<Byte>): (s: seq<Byte>)
    ensures |s| == PAYLOAD_OFFSET + |payload| + 2
  {
    HeaderBytes(APID_BASE + t.Index(), seqCount, SPP_DATA_LENGTH) + SECONDARY_HEADER
    + payload + Be16(Crc(payload))
  }

  /** The packet left in a zero-filled buffer. */
  function Spp(ev: FaultEvent, seqCount: Word): (s: seq<Byte>)
    ensures |s| == SPP_MAX_BYTES
  {
    Encoded(ev.faultType, seqCount, Payload(ev)) + Zeros(998 - |Payload(ev)|)
  }

  // --- Writing into the caller's buffer ----------------------------------------------------

  /** The buffer holds w at its start, and its old contents after that. */
  ghost predicate Holds(now: seq<Byte>, was: seq<Byte>, w: seq<Byte>) {
    |now| == |was| && |w| <= |was| && now == w + was[|w|..]
  }

  lemma HoldsMore(now: seq<Byte>, next: seq<Byte>, was: seq<Byte>, w: seq<Byte>, t: seq<Byte>)
    requires Holds(now, was, w) && |w| + |t| <= |was| && |next| == |was|
    requires next == now[..|w|] + t + now[|w| + |t|..]
    ensures Holds(next, was, w + t)
  {
  }

  // Each writer appends at position |h| + |w|: h are the headers written so far, w what follows them.

  method PutByte(p: array<Byte>, at: nat, b: Byte, ghost was: seq<Byte>, ghost h: seq<Byte>, ghost w: seq<Byte>)
    returns (ghost x: seq<Byte>)
    requires at == |h| + |w| && at + 1 <= p.Length && Holds(p[..], was, h + w)
    modifies p
    ensures x == w + [b] && Holds(p[..], was, h + x)
  {
    ghost var now := p[..];
    p[at] := b;
    x := w + [b];
    HoldsMore(now, p[..], was, h + w, [b]);
    assert h + w + [b] == h + x;
  }

  method PutBe16(p: array<Byte>, at: nat, v: Word, ghost was: seq<Byte>, ghost h: seq<Byte>, ghost w: seq<Byte>)
    returns (ghost x: seq<Byte>)
    requires at == |h| + |w| && at + 2 <= p.Length && Holds(p[..], was, h + w)
    modifies p
    ensures x == w + Be16(v) && Holds(p[..], was, h + x)
  {
    ghost var now := p[..];
    p[at] := v / 0x100;
    p[at + 1] := v % 0x100;
    x := w + Be16(v);
    HoldsMore(now, p[..], was, h + w, Be16(v));
    assert h + w + Be16(v) == h + x;
  }

  method PutBe32(p: array<Byte>, at: nat, v: DWord, ghost was: seq<Byte>, ghost h: seq<Byte>, ghost w: seq<Byte>)
    returns (ghost x: seq<Byte>)
    requires at == |h| + |w| && at + 4 <= p.Length && Holds(p[..], was, h + w)
    modifies p
    ensures x == w + Be32(v) && Holds(p[..], was, h + x)
  {
    ghost var now := p[..];
    p[at] := v / 0x1_0000 / 0x100;
    p[at + 1] := v / 0x1_0000 % 0x100;
    p[at + 2] := v % 0x1_0000 / 0x100;
    p[at + 3] := v % 0x1_0000 % 0x100;
    x := w + Be32(v);
    HoldsMore(now, p[..], was, h + w, Be32(v));
    assert h + w + Be32(v) == h + x;
  }

  method EncodeHeader(p: array<Byte>, apid: Word, seqCount: Word, dataLen: Word)
    requires 6 <= p.Length
    modifies p
    ensures Holds(p[..], old(p[..]), HeaderBytes(apid, seqCount, dataLen))
  {
    p[0] := 0x08 + apid / 0x100 % 8;
    p[1] := apid % 0x100;
    p[2] := 0xC0 + seqCount / 0x100 % 0x40;
    p[3] := seqCount % 0x100;
    p[4] := dataLen / 0x100;
    p[5] := dataLen % 0x100;
  }

  method EncodeSecondaryHeader(p: array<Byte>, at: nat, ghost was: seq<Byte>, ghost h: seq<Byte>)
    requires at == |h| && at + 10 <= p.Length && Holds(p[..], was, h)
    modifies p
    ensures Holds(p[..], was, h + SECONDARY_HEADER)
  {
    hide Holds;
    assert h + [] == h;
    ghost var x := PutByte(p, at, 0x2F, was, h, []);
    x := PutBe32(p, at + 1, 0, was, h, x);
    x := PutBe16(p, at + 5, 0, was, h, x);
    x := PutBe16(p, at + 7, 0x0100, was, h, x);
    x := PutByte(p, at + 9, 0x01, was, h, x);
    assert x == SECONDARY_HEADER;
  }

  function Headers(t: FaultType, seqCount: Word): (s: seq<Byte>)
    ensures |s| == PAYLOAD_OFFSET
  {
    HeaderBytes(APID_BASE + t.Index(), seqCount, SPP_DATA_LENGTH) + SECONDARY_HEADER
  }

  method EncodeHeaders(out: array<Byte>, t: FaultType, seqCount: Word)
    requires out.Length >= SPP_MAX_BYTES
    modifies out
    ensures Holds(out[..], old(out[..]), Headers(t, seqCount) + [])
  {
    EncodeHeader(out, APID_BASE + t.Index(), seqCount, SPP_DATA_LENGTH);
    EncodeSecondaryHeader(out, 6, old(out[..]), HeaderBytes(APID_BASE + t.Index(), seqCount, SPP_DATA_LENGTH));
    assert Headers(t, seqCount) + [] == Headers(t, seqCount);
  }

  /** The payload is in place; append its CRC. */
  method AppendCrc(out: array<Byte>, t: FaultType, seqCount: Word, size: nat,
                   ghost was: seq<Byte>, ghost payload: seq<Byte>)
    requires out.Length >= SPP_MAX_BYTES && size == |payload| <= 18
    requires Holds(out[..], was, Headers(t, seqCount) + payload)
    modifies out
    ensures Holds(out[..], was, Encoded(t, seqCount, payload))
  {
    hide Crc, Be16;
    ghost var h := Headers(t, seqCount);
    assert out[16..16 + size] == (h + payload)[16..] == payload;
    var crc := CrcLoop.Compute(out[16..16 + size]);
    ghost var x := PutBe16(out, 16 + size, crc, was, h, payload);
    assert h + x == Encoded(t, seqCount, payload);
  }

  ghost predicate EncodesTo(len: nat, cap: nat, now: seq<Byte>, was: seq<Byte>, w: seq<Byte>) {
    if cap < 1016 then len == 0 && now == was else len == 1016 && Holds(now, was, w)
  }

  method EncodePacketDrop(out: array<Byte>, cap: nat, seqCount: Word, ev: FaultEvent) returns (len: nat)
    requires cap <= out.Length && ev.faultType.PacketDrop?
    modifies out
    ensures EncodesTo(len, cap, out[..], old(out[..]), Encoded(PacketDrop, seqCount, Payload(ev)))
  {
    if cap < SPP_MAX_BYTES {
      return 0;
    }
    ghost var was := out[..];
    ghost var h := Headers(PacketDrop, seqCount);
    EncodeHeaders(out, PacketDrop, seqCount);
    hide Be16, Be32, Holds, Encoded, Headers;
    ghost var x := PutByte(out, 16, ev.linkId, was, h, []);
    assert x == [ev.linkId];
    x := PutByte(out, 17, 0, was, h, x);
    x := PutBe16(out, 18, ev.dropProbability, was, h, x);
    x := PutBe32(out, 20, ev.dropDuration, was, h, x);
    assert x == Payload(ev);
    AppendCrc(out, PacketDrop, seqCount, 8, was, Payload(ev));
    return SPP_MAX_BYTES;
  }

  method EncodeClockSkew(out: array<Byte>, cap: nat, seqCount: Word, ev: FaultEvent) returns (len: nat)
    requires cap <= out.Length && ev.faultType.ClockSkew?
    modifies out
    ensures EncodesTo(len, cap, out[..], old(out[..]), Encoded(ClockSkew, seqCount, Payload(ev)))
  {
    if cap < SPP_MAX_BYTES {
      return 0;
    }
    ghost var was := out[..];
    ghost var h := Headers(ClockSkew, seqCount);
    EncodeHeaders(out, ClockSkew, seqCount);
    hide Be16, Be32, Holds, Encoded, Headers, Unsigned;
    ghost var x := PutByte(out, 16, ev.assetClass, was, h, []);
    assert x == [ev.assetClass];
    x := PutByte(out, 17, ev.instanceId, was, h, x);
    x := PutBe32(out, 18, Unsigned(ev.offsetMs), was, h, x);
    x := PutBe32(out, 22, Unsigned(ev.ratePpm), was, h, x);
    x := PutBe32(out, 26, ev.clockDuration, was, h, x);
    assert x == Payload(ev);
    AppendCrc(out, ClockSkew, seqCount, 14, was, Payload(ev));
    return SPP_MAX_BYTES;
  }

  method EncodeSafeMode(out: array<Byte>, cap: nat, seqCount: Word, ev: FaultEvent) returns (len: nat)
    requires cap <= out.Length && ev.faultType.SafeMode?
    modifies out
    ensures EncodesTo(len, cap, out[..], old(out[..]), Encoded(SafeMode, seqCount, Payload(ev)))
  {
    if cap < SPP_MAX_BYTES {
      return 0;
    }
    ghost var was := out[..];
    ghost var h := Headers(SafeMode, seqCount);
    EncodeHeaders(out, SafeMode, seqCount);
    hide Be16, Be32, Holds, Encoded, Headers;
    ghost var x := PutByte(out, 16, ev.assetClass, was, h, []);
    assert x == [ev.assetClass];
    x := PutByte(out, 17, ev.instanceId, was, h, x);
    x := PutBe16(out, 18, ev.triggerReason, was, h, x);
    assert x == Payload(ev);
    AppendCrc(out, SafeMode, seqCount, 4, was, Payload(ev));
    return SPP_MAX_BYTES;
  }

  method EncodeSensorNoise(out: array<Byte>, cap: nat, seqCount: Word, ev: FaultEvent) returns (len: nat)
    requires cap <= out.Length && ev.faultType.SensorNoise?
    modifies out
    ensures EncodesTo(len, cap, out[..], old(out[..]), Encoded(SensorNoise, seqCount, Payload(ev)))
  {
    if cap < SPP_MAX_BYTES {
      return 0;
    }
    ghost var was := out[..];
    ghost var h := Headers(SensorNoise, seqCount);
    EncodeHeaders(out, SensorNoise, seqCount);
    hide Be16, Be32, Holds, Encoded, Headers, Unsigned;
    ghost var x := PutByte(out, 16, ev.assetClass, was, h, []);
    assert x == [ev.assetClass];
    x := PutByte(out, 17, ev.instanceId, was, h, x);
    x := PutBe16(out, 18, ev.sensorIndex, was, h, x);
    x := PutByte(out, 20, ev.noiseModel, was, h, x);
    x := PutByte(out, 21, 0, was, h, x);
    x := PutBe32(out, 22, Unsigned(ev.noiseParam1), was, h, x);
    x := PutBe32(out, 26, Unsigned(ev.noiseParam2), was, h, x);
    x := PutBe32(out, 30, ev.noiseDuration, was, h, x);
    assert x == Payload(ev);
    AppendCrc(out, SensorNoise, seqCount, 18, was, Payload(ev));
    return SPP_MAX_BYTES;
  }

  lemma SppInZeroBuffer(now: seq<Byte>, ev: FaultEvent, seqCount: Word)
    requires Holds(now, Zeros(SPP_MAX_BYTES), Encoded(ev.faultType, seqCount, Payload(ev)))
    ensures now == Spp(ev, seqCount)
  {
    var e := Encoded(ev.faultType, seqCount, Payload(ev));
    assert Zeros(SPP_MAX_BYTES)[|e|..] == Zeros(SPP_MAX_BYTES - |e|);
  }

  // --- What the ground station's parser makes of it -------------------------------------------

  /** User data of the packet: payload, its CRC, zero padding. */
  function UserData(ev: FaultEvent): seq<Byte> {
    Payload(ev) + Be16(Crc(Payload(ev))) + Zeros(998 - |Payload(ev)|)
  }

  function Expected(ev: FaultEvent, seqCount: SequenceCount): Packet {
    Packet(Primary(APID_BASE + ev.faultType.Index(), Tm, seqCount, SPP_DATA_LENGTH),
           Secondary(Cuc(0, 0), 0x0100, 1),
           UserData(ev))
  }

  /** Every fault packet parses: telemetry, APID 0x540 plus the fault type, the given count, code 0x0100, instance 1. */
  lemma SppParses(ev: FaultEvent, seqCount: SequenceCount)
    ensures Parse(Spp(ev, seqCount)) == Ok(Expected(ev, seqCount))
  {
    var p := Expected(ev, seqCount);
    HeaderAgrees(ev.faultType, seqCount);
    SecondaryAgrees();
    hide Crc, Payload, Be16, HeaderBytes, PrimaryBytes, SecondaryBytes;
    assert Spp(ev, seqCount) == PacketBytes(p);
    ParseExact(Spp(ev, seqCount), p);
  }

  /** The header of a packet is what its masks leave: 11 bits of APID, 14 bits of count. */
  lemma HeaderDecodes(apid: Word, seqCount: Word, dataLen: Word)
    ensures DecodePrimary(HeaderBytes(apid, seqCount, dataLen))
            == Ok(Primary(apid % 0x800, Tm, seqCount % 0x4000, dataLen))
  {
    var h := Primary(apid % 0x800, Tm, seqCount % 0x4000, dataLen);
    PrimaryLayout(h);
    Masked(apid, seqCount);
    hide PrimaryBytes, DecodePrimary;
    assert HeaderBytes(apid, seqCount, dataLen)[..6] == PrimaryBytes(h);
    PrimaryExact(HeaderBytes(apid, seqCount, dataLen), h);
  }

  lemma Masked(apid: Word, seqCount: Word)
    ensures apid % 0x800 / 0x100 == apid / 0x100 % 8 && apid % 0x800 % 0x100 == apid % 0x100
    ensures seqCount % 0x4000 / 0x100 == seqCount / 0x100 % 0x40 && seqCount % 0x4000 % 0x100 == seqCount % 0x100
  {
    var a, s := apid / 0x100, seqCount / 0x100;
    assert apid % 0x800 == a % 8 * 0x100 + apid % 0x100 by {
      assert apid == a / 8 * 0x800 + (a % 8 * 0x100 + apid % 0x100);
    }
    assert seqCount % 0x4000 == s % 0x40 * 0x100 + seqCount % 0x100 by {
      assert seqCount == s / 0x40 * 0x4000 + (s % 0x40 * 0x100 + seqCount % 0x100);
    }
  }

  /** The packet in numbers: size, header fields, and zeros after payload and CRC. */
  lemma SppNumbers(ev: FaultEvent, seqCount: SequenceCount)
    ensures |Spp(ev, seqCount)| == 1016
    ensures Parse(Spp(ev, seqCount)).Ok?
    ensures var p := Parse(Spp(ev, seqCount)).value;
            && p.primary.apid == (match ev.faultType
                                  case PacketDrop => 0x540
                                  case ClockSkew => 0x541
                                  case SafeMode => 0x542
                                  case SensorNoise => 0x543)
            && p.primary.packetType == Tm && p.primary.sequenceCount == seqCount && p.primary.dataLength == 1009
            && p.secondary == Secondary(Cuc(0, 0), 0x0100, 1)
            && |p.userData| == 1000
            && forall k | (match ev.faultType
                           case PacketDrop => 10
                           case ClockSkew => 16
                           case SafeMode => 6
                           case SensorNoise => 20) <= k < 1000 :: p.userData[k] == 0
  {
    SppParses(ev, seqCount);
    PayloadLength(ev);
    hide Parse, Crc, Payload;
  }

  lemma PayloadLength(ev: FaultEvent)
    ensures |Payload(ev)| == (match ev.faultType
                              case PacketDrop => 8
                              case ClockSkew => 14
                              case SafeMode => 4
                              case SensorNoise => 18)
  {
  }

  lemma HeaderAgrees(t: FaultType, seqCount: SequenceCount)
    ensures HeaderBytes(APID_BASE + t.Index(), seqCount, SPP_DATA_LENGTH)
            == PrimaryBytes(Primary(APID_BASE + t.Index(), Tm, seqCount, SPP_DATA_LENGTH))
  {
  }

  lemma SecondaryAgrees()
    ensures SECONDARY_HEADER == SecondaryBytes(Secondary(Cuc(0, 0), 0x0100, 1))
  {
  }

  // --- What a consumer of the packet catalogue reads out of it -----------------------------------

  datatype Report =
    | Drop(linkId: Byte, probability: Word, durationMs: DWord)
    | Skew(asset: Byte, instance: Byte, offset: Int32, rate: Int32, durationS: DWord)
    | Safe(asset: Byte, instance: Byte, reason: Word)
    | Noise(asset: Byte, instance: Byte, sensor: Word, model: Byte, param1: Int32, param2: Int32, durationMs: DWord)

  function Word16(u: seq<Byte>, at: nat): Word
    requires at + 2 <= |u|
  {
    Join16(u[at], u[at + 1])
  }

  function Word32(u: seq<Byte>, at: nat): DWord
    requires at + 4 <= |u|
  {
    Join32(u[at], u[at + 1], u[at + 2], u[at + 3])
  }

  function Signed32(u: seq<Byte>, at: nat): Int32
    requires at + 4 <= |u|
  {
    if Word32(u, at) < 0x8000_0000 then Word32(u, at) else Word32(u, at) - 0x1_0000_0000
  }

  /** The catalogued size of a fault payload, its CRC excluded. */
  function PayloadSize(t: FaultType): (n: nat)
    ensures n <= 18
  {
    match t
    case PacketDrop => 8
    case ClockSkew => 14
    case SafeMode => 4
    case SensorNoise => 18
  }

  /** The catalogued fields, by offset. */
  function ReadFields(t: FaultType, u: seq<Byte>): Report
    requires |u| >= PayloadSize(t)
  {
    match t
    case PacketDrop => Drop(u[0], Word16(u, 2), Word32(u, 4))
    case ClockSkew => Skew(u[0], u[1], Signed32(u, 2), Signed32(u, 6), Word32(u, 10))
    case SafeMode => Safe(u[0], u[1], Word16(u, 2))
    case SensorNoise =>
      Noise(u[0], u[1], Word16(u, 2), u[4], Signed32(u, 6), Signed32(u, 10), Word32(u, 14))
  }

  function TypeOf(apid: Word): Option<FaultType> {
    match apid
    case 0x540 => Some(PacketDrop)
    case 0x541 => Some(ClockSkew)
    case 0x542 => Some(SafeMode)
    case 0x543 => Some(SensorNoise)
    case _ => None
  }

  /** The fault type is in the APID; the CRC over the catalogued payload follows it. */
  function ReadReport(p: Packet): Option<Report> {
    match TypeOf(p.primary.apid)
    case None => None
    case Some(t) =>
      var n, u := PayloadSize(t), p.userData;
      if |u| < n + 2 || Crc(u[..n]) != Word16(u, n) then None else Some(ReadFields(t, u))
  }

  /** The fields of an event that its type puts on the wire. */
  function Reported(ev: FaultEvent): Report {
    match ev.faultType
    case PacketDrop => Drop(ev.linkId, ev.dropProbability, ev.dropDuration)
    case ClockSkew => Skew(ev.assetClass, ev.instanceId, ev.offsetMs, ev.ratePpm, ev.clockDuration)
    case SafeMode => Safe(ev.assetClass, ev.instanceId, ev.triggerReason)
    case SensorNoise =>
      Noise(ev.assetClass, ev.instanceId, ev.sensorIndex, ev.noiseModel, ev.noiseParam1, ev.noiseParam2,
            ev.noiseDuration)
  }

  lemma Word16At(u: seq<Byte>, at: nat, w: Word)
    requires at + 2 <= |u| && u[at..at + 2] == Be16(w)
    ensures Word16(u, at) == w
  {
    hide Be16, Join16;
    JoinBe16(u[at], u[at + 1], w);
    assert u[at..at + 2] == [u[at], u[at + 1]];
  }

  lemma Word32At(u: seq<Byte>, at: nat, d: DWord)
    requires at + 4 <= |u| && u[at..at + 4] == Be32(d)
    ensures Word32(u, at) == d
  {
    hide Be32, Join32;
    JoinBe32(u[at], u[at + 1], u[at + 2], u[at + 3], d);
    assert u[at..at + 4] == [u[at], u[at + 1], u[at + 2], u[at + 3]];
  }

  lemma Signed32At(u: seq<Byte>, at: nat, i: Int32)
    requires at + 4 <= |u| && u[at..at + 4] == Be32(Unsigned(i))
    ensures Signed32(u, at) == i
  {
    hide Be32, Word32;
    Word32At(u, at, Unsigned(i));
  }

  lemma ReadPayload(ev: FaultEvent, rest: seq<Byte>)
    ensures |Payload(ev)| == PayloadSize(ev.faultType)
    ensures ReadFields(ev.faultType, Payload(ev) + rest) == Reported(ev)
  {
    hide Be16, Be32, Unsigned, Word16, Word32, Signed32;
    var u := Payload(ev) + rest;
    match ev.faultType {
      case PacketDrop =>
        Word16At(u, 2, ev.dropProbability);
        Word32At(u, 4, ev.dropDuration);
      case ClockSkew =>
        Signed32At(u, 2, ev.offsetMs);
        Signed32At(u, 6, ev.ratePpm);
        Word32At(u, 10, ev.clockDuration);
      case SafeMode =>
        Word16At(u, 2, ev.triggerReason);
      case SensorNoise =>
        Word16At(u, 2, ev.sensorIndex);
        Signed32At(u, 6, ev.noiseParam1);
        Signed32At(u, 10, ev.noiseParam2);
        Word32At(u, 14, ev.noiseDuration);
    }
  }

  /** Parsing a fault packet and reading the catalogued layout gives back every field of the event, CRC checked. */
  lemma ReportRecovered(ev: FaultEvent, seqCount: SequenceCount)
    ensures Parse(Spp(ev, seqCount)).Ok?
    ensures ReadReport(Parse(Spp(ev, seqCount)).value) == Some(Reported(ev))
  {
    SppParses(ev, seqCount);
    ReadExpected(ev, seqCount);
  }

  lemma ReadExpected(ev: FaultEvent, seqCount: SequenceCount)
    ensures ReadReport(Expected(ev, seqCount)) == Some(Reported(ev))
  {
    hide Crc, Payload, ReadFields, Reported, Word16, Be16;
    var p, n := Payload(ev), PayloadSize(ev.faultType);
    var u := UserData(ev);
    var rest := Be16(Crc(p)) + Zeros(998 - |p|);
    ReadPayload(ev, rest);
    assert u == p + rest;
    assert u[..n] == p && u[n..n + 2] == Be16(Crc(p));
    Word16At(u, n, Crc(p));
    TypeRecovered(ev.faultType);
  }

  lemma TypeRecovered(t: FaultType)
    ensures TypeOf(APID_BASE + t.Index()) == Some(t)
  {
  }
}
