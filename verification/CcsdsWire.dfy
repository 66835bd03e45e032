/** The CCSDS Space Packet codec: primary and secondary headers, the packet view, and the builder. */
module CcsdsWire {
  import opened Wrappers
  import opened Bytes

  // --- Sealed field types ----------------------------------------------------------------

  type Apid = x: Word | x <= 0x7FF
  type SequenceCount = x: Word | x <= 0x3FFF
  type FuncCode = x: Word | x != 0 witness 1
  type InstanceId = x: Byte | x != 0 witness 1

  datatype Error =
    | BufferTooShort(need: nat, got: nat)
    | InvalidVersion(top4: Byte)
    | InvalidPField(found: Byte)
    | ApidOutOfRange(raw: Word)
    | SequenceCountOutOfRange(raw: Word)
    | InstanceIdReserved
    | LengthMismatch(declared: nat, actual: nat)
    | SequenceFlagsNotStandalone(flags: Byte)
    | FuncCodeReserved

  function NewApid(v: Word): Result<Apid, Error> {
    if v > 0x7FF then Err(ApidOutOfRange(v)) else Ok(v)
  }

  function NewSequenceCount(v: Word): Result<SequenceCount, Error> {
    if v > 0x3FFF then Err(SequenceCountOutOfRange(v)) else Ok(v)
  }

  function NewFuncCode(v: Word): Result<FuncCode, Error> {
    if v == 0 then Err(FuncCodeReserved) else Ok(v)
  }

  function NewInstanceId(v: Byte): Result<InstanceId, Error> {
    if v == 0 then Err(InstanceIdReserved) else Ok(v)
  }

  /** Sequence counts are counted modulo this. */
  const COUNT_WRAP := 0x4000

  datatype PacketType = Tm | Tc {
    function AsBit(): Byte {
      if Tm? then 0 else 1
    }

    static function FromBit(b: Byte): PacketType {
      if b % 2 == 0 then Tm else Tc
    }
  }

  // --- Primary header ----------------------------------------------------------------------

  const PRIMARY_LEN := 6

  datatype Primary = Primary(apid: Apid, packetType: PacketType, sequenceCount: SequenceCount, dataLength: Word)

  /** Version 000, type, secondary-header flag 1, APID; flags 11, sequence count; data length. */
  function PrimaryBytes(h: Primary): (s: seq<Byte>)
    ensures |s| == PRIMARY_LEN
  {
    Be16(0x0800 + h.packetType.AsBit() * 0x1000 + h.apid) + Be16(0xC000 + h.sequenceCount) + Be16(h.dataLength)
  }

  function DecodePrimary(buf: seq<Byte>): Result<Primary, Error> {
    if |buf| < PRIMARY_LEN then Err(BufferTooShort(PRIMARY_LEN, |buf|))
    else
      var top4: Byte := buf[0] / 0x20 * 2 + buf[0] / 8 % 2;
      if top4 != 1 then Err(InvalidVersion(top4))
      else
        var apid :- NewApid(Join16(buf[0] % 8, buf[1]));
        var flags := buf[2] / 0x40;
        if flags != 3 then Err(SequenceFlagsNotStandalone(flags))
        else
          var count :- NewSequenceCount(Join16(buf[2] % 0x40, buf[3]));
          Ok(Primary(apid, PacketType.FromBit(buf[0] / 0x10 % 2), count, Join16(buf[4], buf[5])))
  }

  method EncodePrimary(h: Primary, out: array<Byte>)
    requires out.Length == PRIMARY_LEN
    modifies out
    ensures out[..] == PrimaryBytes(h)
  {
    var id := 0x0800 + h.packetType.AsBit() * 0x1000 + h.apid;
    out[0], out[1] := id / 0x100, id % 0x100;
    var control := 0xC000 + h.sequenceCount;
    out[2], out[3] := control / 0x100, control % 0x100;
    out[4], out[5] := h.dataLength / 0x100, h.dataLength % 0x100;
  }

  /** Decoding accepts exactly the encodings: trailing bytes are ignored, every field is recovered. */
  lemma PrimaryExact(buf: seq<Byte>, h: Primary)
    ensures DecodePrimary(buf) == Ok(h) <==> |buf| >= PRIMARY_LEN && buf[..PRIMARY_LEN] == PrimaryBytes(h)
  {
    if DecodePrimary(buf) == Ok(h) {
      PrimaryCanonical(buf, h);
    }
    if |buf| >= PRIMARY_LEN && buf[..PRIMARY_LEN] == PrimaryBytes(h) {
      PrimaryRoundTrip(buf, h);
    }
  }

  lemma IdentificationByte(b: Byte)
    requires b / 0x20 * 2 + b / 8 % 2 == 1
    ensures b == 8 + b / 0x10 % 2 * 0x10 + b % 8 && b / 0x10 % 2 < 2
  {
    assert b < 0x20;
  }

  lemma IdentificationWord(t: PacketType, apid: Apid)
    ensures Be16(0x0800 + t.AsBit() * 0x1000 + apid) == [8 + 0x10 * t.AsBit() + apid / 0x100, apid % 0x100]
  {
  }

  lemma ControlWord(count: SequenceCount)
    ensures Be16(0xC000 + count) == [0xC0 + count / 0x100, count % 0x100]
  {
  }

  lemma Halves(h: Byte, l: Byte)
    ensures Join16(h, l) / 0x100 == h && Join16(h, l) % 0x100 == l
  {
  }

  /** The six header bytes, with the bit fields spelled out. */
  lemma PrimaryLayout(h: Primary)
    ensures PrimaryBytes(h)
            == [8 + 0x10 * h.packetType.AsBit() + h.apid / 0x100, h.apid % 0x100,
                0xC0 + h.sequenceCount / 0x100, h.sequenceCount % 0x100,
                h.dataLength / 0x100, h.dataLength % 0x100]
  {
    IdentificationWord(h.packetType, h.apid);
    ControlWord(h.sequenceCount);
  }

  lemma PrimaryCanonical(buf: seq<Byte>, h: Primary)
    requires DecodePrimary(buf) == Ok(h)
    ensures |buf| >= PRIMARY_LEN && buf[..PRIMARY_LEN] == PrimaryBytes(h)
  {
    hide PrimaryBytes, Join16;
    PrimaryLayout(h);
    IdentificationByte(buf[0]);
    Halves(buf[0] % 8, buf[1]);
    Halves(buf[2] % 0x40, buf[3]);
    Halves(buf[4], buf[5]);
    assert buf[2] == 0xC0 + buf[2] % 0x40;
    assert buf[..6] == [buf[0], buf[1], buf[2], buf[3], buf[4], buf[5]];
  }

  lemma PrimaryRoundTrip(buf: seq<Byte>, h: Primary)
    requires |buf| >= PRIMARY_LEN && buf[..PRIMARY_LEN] == PrimaryBytes(h)
    ensures DecodePrimary(buf) == Ok(h)
  {
    hide PrimaryBytes;
    PrimaryLayout(h);
    var s := PrimaryBytes(h);
    assert forall i | 0 <= i < 6 :: buf[i] == s[i];
    FirstByteFields(buf[0], h.packetType, h.apid / 0x100);
    Joined(h.apid);
    Joined(h.sequenceCount);
    Joined(h.dataLength);
    hide Join16;
    assert buf[2] / 0x40 == 3 && buf[2] % 0x40 == h.sequenceCount / 0x100;
  }

  lemma Joined(w: Word)
    ensures Join16(w / 0x100, w % 0x100) == w
  {
  }

  lemma FirstByteFields(b: Byte, t: PacketType, hi: nat)
    requires hi < 8 && b == 8 + 0x10 * t.AsBit() + hi
    ensures b / 0x20 == 0 && b / 8 % 2 == 1 && b % 8 == hi && PacketType.FromBit(b / 0x10 % 2) == t
  {
  }

  // --- CUC time stamp -------------------------------------------------------------------------

  const P_FIELD: Byte := 0x2F
  const CUC_LEN := 7

  datatype Cuc = Cuc(coarse: DWord, fine: Word)

  function CucBytes(c: Cuc): (s: seq<Byte>)
    ensures |s| == CUC_LEN
  {
    [P_FIELD] + Be32(c.coarse) + Be16(c.fine)
  }

  function DecodeCuc(buf: seq<Byte>): Result<Cuc, Error> {
    if |buf| < CUC_LEN then Err(BufferTooShort(CUC_LEN, |buf|))
    else if buf[0] != P_FIELD then Err(InvalidPField(buf[0]))
    else Ok(Cuc(Join32(buf[1], buf[2], buf[3], buf[4]), Join16(buf[5], buf[6])))
  }

  method EncodeCuc(c: Cuc, out: array<Byte>)
    requires out.Length == CUC_LEN
    modifies out
    ensures out[..] == CucBytes(c)
  {
    var b, f := Be32(c.coarse), Be16(c.fine);
    out[0], out[1], out[2], out[3], out[4], out[5], out[6] := P_FIELD, b[0], b[1], b[2], b[3], f[0], f[1];
  }

  lemma CucExact(buf: seq<Byte>, c: Cuc)
    ensures DecodeCuc(buf) == Ok(c) <==> |buf| >= CUC_LEN && buf[..CUC_LEN] == CucBytes(c)
  {
    if |buf| >= CUC_LEN {
      hide Join32, Join16, Be32, Be16;
      JoinBe32(buf[1], buf[2], buf[3], buf[4], c.coarse);
      JoinBe16(buf[5], buf[6], c.fine);
      assert buf[..7] == [buf[0]] + [buf[1], buf[2], buf[3], buf[4]] + [buf[5], buf[6]];
      var s := CucBytes(c);
      assert s[1..5] == Be32(c.coarse) && s[5..7] == Be16(c.fine);
    }
  }

  // --- Secondary header -------------------------------------------------------------------------

  const SECONDARY_LEN := 10

  datatype Secondary = Secondary(time: Cuc, funcCode: FuncCode, instanceId: InstanceId)

  function SecondaryBytes(h: Secondary): (s: seq<Byte>)
    ensures |s| == SECONDARY_LEN
  {
    CucBytes(h.time) + Be16(h.funcCode) + [h.instanceId]
  }

  function DecodeSecondary(buf: seq<Byte>): Result<Secondary, Error> {
    if |buf| < SECONDARY_LEN then Err(BufferTooShort(SECONDARY_LEN, |buf|))
    else
      var time :- DecodeCuc(buf[..7]);
      var funcCode :- NewFuncCode(Join16(buf[7], buf[8]));
      var instanceId :- NewInstanceId(buf[9]);
      Ok(Secondary(time, funcCode, instanceId))
  }

  method EncodeSecondary(h: Secondary, out: array<Byte>)
    requires out.Length == SECONDARY_LEN
    modifies out
    ensures out[..] == SecondaryBytes(h)
  {
    var cuc := new Byte[CUC_LEN];
    EncodeCuc(h.time, cuc);
    forall i | 0 <= i < CUC_LEN {
      out[i] := cuc[i];
    }
    assert out[..7] == CucBytes(h.time);
    out[7], out[8] := h.funcCode / 0x100, h.funcCode % 0x100;
    out[9] := h.instanceId;
    assert out[..7] == CucBytes(h.time);
    assert out[..] == out[..7] + [out[7], out[8]] + [out[9]];
  }

  lemma SecondaryExact(buf: seq<Byte>, h: Secondary)
    ensures DecodeSecondary(buf) == Ok(h) <==> |buf| >= SECONDARY_LEN && buf[..SECONDARY_LEN] == SecondaryBytes(h)
  {
    if |buf| >= SECONDARY_LEN {
      hide DecodeCuc, CucBytes, Join16, Be16;
      CucExact(buf[..7], h.time);
      assert buf[..7][..7] == buf[..7];
      JoinBe16(buf[7], buf[8], h.funcCode);
      assert buf[..10] == buf[..7] + [buf[7], buf[8]] + [buf[9]];
      var s := SecondaryBytes(h);
      assert s[..7] == CucBytes(h.time) && s[7..9] == Be16(h.funcCode);
    }
  }

  // --- Packets --------------------------------------------------------------------------------------

  const HEADER_LEN := PRIMARY_LEN + SECONDARY_LEN

  datatype Packet = Packet(primary: Primary, secondary: Secondary, userData: seq<Byte>)

  function TotalLen(p: Packet): nat {
    HEADER_LEN + |p.userData|
  }

  function Parse(buf: seq<Byte>): Result<Packet, Error> {
    if |buf| < HEADER_LEN then Err(BufferTooShort(HEADER_LEN, |buf|))
    else
      var primary :- DecodePrimary(buf);
      var secondary :- DecodeSecondary(buf[PRIMARY_LEN..]);
      var declared: nat := primary.dataLength + 7;
      if declared != |buf| then Err(LengthMismatch(declared, |buf|))
      else Ok(Packet(primary, secondary, buf[HEADER_LEN..]))
  }

  function PacketBytes(p: Packet): (s: seq<Byte>)
    ensures |s| == TotalLen(p)
  {
    PrimaryBytes(p.primary) + SecondaryBytes(p.secondary) + p.userData
  }

  /** Parsing accepts exactly the encodings of packets whose declared length is their own, and inverts them. */
  lemma ParseExact(buf: seq<Byte>, p: Packet)
    ensures Parse(buf) == Ok(p) <==> p.primary.dataLength + 7 == TotalLen(p) && buf == PacketBytes(p)
  {
    hide DecodePrimary, DecodeSecondary, PrimaryBytes, SecondaryBytes;
    if |buf| >= HEADER_LEN {
      PrimaryExact(buf, p.primary);
      SecondaryExact(buf[6..], p.secondary);
      assert buf == buf[..6] + buf[6..][..10] + buf[16..];
    }
    if buf == PacketBytes(p) {
      assert buf[..6] == PrimaryBytes(p.primary) && buf[6..][..10] == SecondaryBytes(p.secondary);
      assert buf[16..] == p.userData;
    }
  }

  /** The byte patterns that parse. */
  lemma ParseAccepts(buf: seq<Byte>)
    ensures Parse(buf).Ok?
            <==> && |buf| >= 16
                 && buf[0] / 0x20 == 0 && buf[0] / 8 % 2 == 1
                 && buf[2] >= 0xC0
                 && buf[4] as int * 0x100 + buf[5] + 7 == |buf|
                 && buf[6] == 0x2F
                 && (buf[13] != 0 || buf[14] != 0)
                 && buf[15] != 0
  {
    if |buf| >= 16 {
      var s := buf[6..];
      assert s[..7][0] == buf[6] && s[7] == buf[13] && s[8] == buf[14] && s[9] == buf[15];
    }
  }

  /** Which bytes the fields of a parsed packet come from. */
  lemma ParseFields(buf: seq<Byte>)
    requires Parse(buf).Ok?
    ensures |buf| >= 16
    ensures var h := Parse(buf).value.primary;
            && h.packetType == (if buf[0] / 0x10 % 2 == 1 then Tc else Tm)
            && h.apid == buf[0] as int % 8 * 0x100 + buf[1]
            && h.sequenceCount == buf[2] as int % 0x40 * 0x100 + buf[3]
            && h.dataLength == buf[4] as int * 0x100 + buf[5]
    ensures var h := Parse(buf).value.secondary;
            && h.time.coarse == buf[7] as int * 0x100_0000 + buf[8] as int * 0x1_0000 + buf[9] as int * 0x100 + buf[10]
            && h.time.fine == buf[11] as int * 0x100 + buf[12]
            && h.funcCode == buf[13] as int * 0x100 + buf[14]
            && h.instanceId == buf[15]
    ensures Parse(buf).value.userData == buf[16..]
  {
    var s := buf[6..];
    assert s[..7] == [buf[6], buf[7], buf[8], buf[9], buf[10], buf[11], buf[12]];
    assert s[7] == buf[13] && s[8] == buf[14] && s[9] == buf[15];
  }

  /** The first check that fails names the error. */
  lemma ParseErrors(buf: seq<Byte>)
    requires Parse(buf).Err?
    ensures Parse(buf).error
            == if |buf| < 16 then BufferTooShort(16, |buf|)
               else if buf[0] / 0x20 != 0 || buf[0] / 8 % 2 != 1 then InvalidVersion(buf[0] / 0x20 * 2 + buf[0] / 8 % 2)
               else if buf[2] < 0xC0 then SequenceFlagsNotStandalone(buf[2] / 0x40)
               else if buf[6] != 0x2F then InvalidPField(buf[6])
               else if buf[13] == 0 && buf[14] == 0 then FuncCodeReserved
               else if buf[15] == 0 then InstanceIdReserved
               else LengthMismatch(buf[4] as int * 0x100 + buf[5] + 7, |buf|)
  {
    if |buf| >= 16 {
      var s := buf[6..];
      assert s[..7][0] == buf[6] && s[7] == buf[13] && s[8] == buf[14] && s[9] == buf[15];
    }
  }

  // --- Builder ------------------------------------------------------------------------------------------

  datatype Builder = Builder(
    apid: Apid,
    packetType: PacketType,
    sequenceCount: Option<SequenceCount>,
    cuc: Cuc,
    funcCode: Option<FuncCode>,
    instanceId: Option<InstanceId>,
    userData: seq<Byte>)
  {
    static function New(apid: Apid, t: PacketType): Builder {
      Builder(apid, t, None, Cuc(0, 0), None, None, [])
    }
  }

  const MAX_USER_DATA := 65526

  /** The packet a complete builder stands for; the sequence count defaults to 0. */
  function Described(b: Builder): Packet
    requires b.funcCode.Some? && b.instanceId.Some? && |b.userData| <= MAX_USER_DATA
  {
    var count := if b.sequenceCount.Some? then b.sequenceCount.value else 0;
    Packet(Primary(b.apid, b.packetType, count, 9 + |b.userData|),
           Secondary(b.cuc, b.funcCode.value, b.instanceId.value),
           b.userData)
  }

  function BuildResult(b: Builder): Result<seq<Byte>, Error> {
    if b.funcCode.None? then Err(FuncCodeReserved)
    else if b.instanceId.None? then Err(InstanceIdReserved)
    else if |b.userData| > MAX_USER_DATA then Err(LengthMismatch(9 + |b.userData|, 65542))
    else Ok(PacketBytes(Described(b)))
  }

  method Build(b: Builder) returns (r: Result<seq<Byte>, Error>)
    ensures r == BuildResult(b)
  {
    if b.funcCode.None? {
      return Err(FuncCodeReserved);
    }
    if b.instanceId.None? {
      return Err(InstanceIdReserved);
    }
    var count: SequenceCount := if b.sequenceCount.Some? then b.sequenceCount.value else 0;
    var rawLength := SECONDARY_LEN + |b.userData| - 1;
    if rawLength > 0xFFFF {
      return Err(LengthMismatch(rawLength, 0xFFFF + 7));
    }
    var secondary := Secondary(b.cuc, b.funcCode.value, b.instanceId.value);
    var primary := Primary(b.apid, b.packetType, count, rawLength);
    var pb := new Byte[PRIMARY_LEN];
    var sb := new Byte[SECONDARY_LEN];
    EncodePrimary(primary, pb);
    EncodeSecondary(secondary, sb);
    var out := pb[..];
    out := out + sb[..];
    out := out + b.userData;
    return Ok(out);
  }

  /** Building succeeds exactly with function code and instance set and at most 65526 bytes of user data. */
  lemma BuildSucceeds(b: Builder)
    ensures BuildResult(b).Ok? <==> b.funcCode.Some? && b.instanceId.Some? && |b.userData| <= 65526
    ensures BuildResult(b).Err?
            ==> BuildResult(b).error
                == if b.funcCode.None? then FuncCodeReserved
                   else if b.instanceId.None? then InstanceIdReserved
                   else LengthMismatch(9 + |b.userData|, 65542)
  {
  }

  /** What is built parses to the builder's own fields, with sequence count 0 if none is set. */
  lemma BuildFields(b: Builder)
    requires BuildResult(b).Ok?
    ensures Parse(BuildResult(b).value).Ok?
    ensures var p := Parse(BuildResult(b).value).value;
            && p.primary.apid == b.apid && p.primary.packetType == b.packetType
            && p.primary.sequenceCount == (if b.sequenceCount.Some? then b.sequenceCount.value else 0)
            && p.primary.dataLength == 9 + |b.userData|
            && p.secondary.time == b.cuc
            && Some(p.secondary.funcCode) == b.funcCode && Some(p.secondary.instanceId) == b.instanceId
            && p.userData == b.userData
  {
    hide Parse;
    ParseBuild(b);
  }

  /** What the builder writes, the parser reads back, field for field. */
  lemma ParseBuild(b: Builder)
    requires BuildResult(b).Ok?
    ensures Parse(BuildResult(b).value) == Ok(Described(b))
  {
    ParseExact(BuildResult(b).value, Described(b));
  }

  /** Two complete builders write the same bytes exactly when they describe the same packet. */
  lemma BuildInjective(b: Builder, c: Builder)
    requires BuildResult(b).Ok? && BuildResult(c).Ok?
    ensures BuildResult(b) == BuildResult(c) <==> Described(b) == Described(c)
  {
    ParseBuild(b);
    ParseBuild(c);
  }
}

/** Conversion between raw buffers and validated software-bus messages. */
module CfsBindings {
  import opened Wrappers
  import opened Bytes
  import opened CcsdsWire

  datatype Message = Message(bytes: seq<Byte>)

  function ToMessage(buf: seq<Byte>): Result<Message, Error> {
    var _ :- Parse(buf);
    Ok(Message(buf))
  }

  function FromMessage(m: Message): Result<seq<Byte>, Error> {
    var p :- Parse(m.bytes);
    var b := Builder.New(p.primary.apid, p.primary.packetType);
    var c := b.(funcCode := Some(p.secondary.funcCode), instanceId := Some(p.secondary.instanceId),
                cuc := p.secondary.time, sequenceCount := Some(p.primary.sequenceCount), userData := p.userData);
    BuildResult(c)
  }

  /** Every buffer the parser accepts is re-encoded identically; every other is refused with the parser's error. */
  lemma ReencodeIdentity(buf: seq<Byte>)
    ensures match ToMessage(buf)
            case Ok(m) => FromMessage(m) == Ok(buf)
            case Err(e) => Parse(buf) == Err(e)
  {
    if ToMessage(buf).Ok? {
      var p := Parse(buf).value;
      ParseExact(buf, p);
    }
  }
}
