/** The tether client: pack a housekeeping packet, then frame it. */
module Tether {
  import opened Wrappers
  import opened Bytes
  import opened TmBridge
  import CcsdsWire
  import HdlcLite

  datatype Call = Call(payload: seq<Byte>, coarse: DWord, fine: DWord, mode: Byte)

  /** The packet a call packs when the bridge's count is as given. */
  function Packed(apid: CcsdsWire.Apid, count: CcsdsWire.SequenceCount, c: Call): seq<Byte>
    requires Fits(c.payload)
  {
    Hk(apid, count, c.payload, c.coarse, c.fine)
  }

  /** What a call returns; empty when the payload does not fit the packet, or the packet the frame. */
  function ResultOf(apid: CcsdsWire.Apid, count: CcsdsWire.SequenceCount, c: Call): seq<Byte> {
    if !Fits(c.payload) then []
    else
      match HdlcLite.EncodeResult(c.mode, Packed(apid, count, c))
      case Ok(wire) => wire
      case Err(_) => []
  }

  class Client {
    const bridge: Bridge

    constructor (rawApid: Word)
      ensures fresh(bridge) && bridge.apid == rawApid % 0x800 && bridge.seqCount == 0
    {
      bridge := new Bridge(rawApid);
    }

    method PackAndFrame(c: Call) returns (wire: seq<Byte>)
      modifies bridge
      ensures wire == ResultOf(bridge.apid, old(bridge.seqCount), c)
      ensures bridge.seqCount
              == (if Fits(c.payload) then Next(old(bridge.seqCount)) else old(bridge.seqCount))
    {
      hide HdlcLite.EncodeResult, Hk;
      ghost var count := bridge.seqCount;
      var spp := bridge.PackHk(c.payload, c.coarse, c.fine);
      HkNonEmpty(c.payload, bridge.apid, c.coarse, c.fine);
      if spp == [] {
        return [];
      }
      var r := HdlcLite.Encode(c.mode, spp);
      if r.Err? {
        return [];
      }
      return r.value;
    }

    method PackAll(cs: seq<Call>) returns (wires: seq<seq<Byte>>)
      requires bridge.seqCount == 0
      modifies bridge
      ensures |wires| == |cs| && Returned(bridge.apid, cs, wires)
    {
      assert CountAt(cs, 0) == 0;
      hide ResultOf, CountAt, Fits, Next, Returned;
      wires := [];
      ReturnedNone(bridge.apid, cs);
      for i := 0 to |cs|
        invariant |wires| == i && bridge.seqCount == CountAt(cs, i) && Returned(bridge.apid, cs, wires)
      {
        CountAtNext(cs, i);
        var wire := PackAndFrame(cs[i]);
        ReturnedNext(bridge.apid, cs, wires, wire);
        wires := wires + [wire];
      }
    }
  }

  // --- Whole runs -------------------------------------------------------------------------

  function FitCount(cs: seq<Call>, k: nat): nat
    requires k <= |cs|
  {
    if k == 0 then 0 else FitCount(cs, k - 1) + if |cs[k - 1].payload| <= 65526 then 1 else 0
  }

  /** The sequence count call k uses: earlier calls whose payload fit a packet, sent or not, modulo 16384. */
  function CountAt(cs: seq<Call>, k: nat): CcsdsWire.SequenceCount
    requires k <= |cs|
  {
    FitCount(cs, k) % CcsdsWire.COUNT_WRAP
  }

  /** Each call so far returned what it should with the count that is its turn. */
  ghost predicate Returned(apid: CcsdsWire.Apid, cs: seq<Call>, wires: seq<seq<Byte>>) {
    |wires| <= |cs| && forall k | 0 <= k < |wires| :: wires[k] == ResultOf(apid, CountAt(cs, k), cs[k])
  }

  lemma ReturnedNone(apid: CcsdsWire.Apid, cs: seq<Call>)
    ensures Returned(apid, cs, [])
  {
  }

  lemma ReturnedNext(apid: CcsdsWire.Apid, cs: seq<Call>, wires: seq<seq<Byte>>, wire: seq<Byte>)
    requires |wires| < |cs| && Returned(apid, cs, wires)
    requires wire == ResultOf(apid, CountAt(cs, |wires|), cs[|wires|])
    ensures Returned(apid, cs, wires + [wire])
  {
    hide ResultOf, CountAt;
  }

  lemma CountAtNext(cs: seq<Call>, k: nat)
    requires k < |cs|
    ensures CountAt(cs, k + 1)
            == (if Fits(cs[k].payload) then Next(CountAt(cs, k)) else CountAt(cs, k))
  {
    CountNext(FitCount(cs, k));
  }

  /**
   A call returns a frame exactly when the payload has at most 65526 bytes and the packet, 16 bytes longer, is within
   the limit of its mode: 240 bytes in mode 0, 80 in mode 1, none in the others.
   */
  lemma NonEmptyExact(apid: CcsdsWire.Apid, count: CcsdsWire.SequenceCount, c: Call)
    ensures ResultOf(apid, count, c) != []
            <==> && |c.payload| <= 65526
                 && (c.mode == 0x00 ==> 16 + |c.payload| <= 240)
                 && (c.mode == 0x01 ==> 16 + |c.payload| <= 80)
  {
    hide HdlcLite.Frame, HdlcLite.EncodeResult, Hk;
    if Fits(c.payload) {
      HdlcLite.LimitsExact(c.mode, Packed(apid, count, c));
      FrameNonEmpty(c.mode, Packed(apid, count, c));
    }
  }

  lemma FrameNonEmpty(mode: Byte, p: seq<Byte>)
    ensures HdlcLite.Frame(mode, p) != []
  {
    HdlcLite.WireLength(mode, p);
  }

  /**
   A returned frame decodes to the packed packet exactly up to 65519 payload bytes. Only the modes without a
   limit of their own reach beyond that, where the 16-bit frame length wraps and the frame is not decodable.
   */
  lemma FrameDecodes(apid: CcsdsWire.Apid, count: CcsdsWire.SequenceCount, c: Call)
    requires ResultOf(apid, count, c) != []
    ensures HdlcLite.DecodeResult(ResultOf(apid, count, c))
            == (if |c.payload| <= 65519 then Some(Packed(apid, count, c)) else None)
  {
    hide HdlcLite.DecodeResult, HdlcLite.Frame, Hk;
    HdlcLite.RoundTrip(c.mode, Packed(apid, count, c));
  }

  /** In the two named modes every frame, returned exactly within the limit of the mode, decodes to the packed packet. */
  lemma NamedModesDecode(apid: CcsdsWire.Apid, count: CcsdsWire.SequenceCount, c: Call)
    requires (c.mode == 0x00 && 16 + |c.payload| <= 240) || (c.mode == 0x01 && 16 + |c.payload| <= 80)
    ensures ResultOf(apid, count, c) != []
    ensures HdlcLite.DecodeResult(ResultOf(apid, count, c)) == Some(Packed(apid, count, c))
  {
    hide ResultOf, HdlcLite.DecodeResult;
    NonEmptyExact(apid, count, c);
    FrameDecodes(apid, count, c);
  }

  // --- Whole runs: what the receiver gets --------------------------------------------------------

  /** The packet of a call: telemetry header with the given count, time of the call, its payload. */
  ghost predicate CarriesCall(pkt: seq<Byte>, apid: CcsdsWire.Apid, count: nat, c: Call) {
    && |pkt| == 16 + |c.payload|
    && CcsdsWire.DecodePrimary(pkt).Ok?
    && CcsdsWire.DecodePrimary(pkt).value.apid == apid
    && CcsdsWire.DecodePrimary(pkt).value.packetType == CcsdsWire.Tm
    && CcsdsWire.DecodePrimary(pkt).value.sequenceCount == count
    && CcsdsWire.DecodePrimary(pkt).value.dataLength == 9 + |c.payload|
    && pkt[6] as int * 0x100_0000 + pkt[7] as int * 0x1_0000 + pkt[8] as int * 0x100 + pkt[9] == c.coarse
    && pkt[10] as int * 0x1_0000 + pkt[11] as int * 0x100 + pkt[12] == c.fine % 0x100_0000
    && pkt[13..16] == [0, 0, 0]
    && pkt[16..] == c.payload
  }

  lemma PackedCarries(apid: CcsdsWire.Apid, count: CcsdsWire.SequenceCount, c: Call)
    requires Fits(c.payload)
    ensures CarriesCall(Packed(apid, count, c), apid, count, c)
  {
    hide Hk, CcsdsWire.DecodePrimary;
    HkHeader(apid, count, c.payload, c.coarse, c.fine);
  }

  /** The mode of a frame is the first byte of its body. */
  ghost predicate HasMode(wire: seq<Byte>, mode: Byte) {
    exists body: seq<Byte> :: |body| > 0 && wire == [0x7E] + HdlcLite.Stuff(body) + [0x7E] && body[0] == mode
  }

  /**
   Over any run of calls, call k returns a frame exactly within the limits. Its first body byte is the mode, and up to
   65519 payload bytes it decodes to the packet of the call, counted by the earlier calls whose payload fit, modulo
   16384; beyond that it does not decode.
   */
  lemma RunDelivers(apid: CcsdsWire.Apid, cs: seq<Call>, wires: seq<seq<Byte>>, k: nat)
    requires Returned(apid, cs, wires) && k < |wires|
    ensures wires[k] != []
            <==> && |cs[k].payload| <= 65526
                 && (cs[k].mode == 0x00 ==> 16 + |cs[k].payload| <= 240)
                 && (cs[k].mode == 0x01 ==> 16 + |cs[k].payload| <= 80)
    ensures wires[k] != [] ==> HasMode(wires[k], cs[k].mode)
    ensures wires[k] != [] && |cs[k].payload| <= 65519
            ==> && HdlcLite.DecodeResult(wires[k]).Some?
                && CarriesCall(HdlcLite.DecodeResult(wires[k]).value, apid, FitCount(cs, k) % 0x4000, cs[k])
    ensures wires[k] != [] && |cs[k].payload| > 65519 ==> HdlcLite.DecodeResult(wires[k]).None?
  {
    hide HdlcLite.DecodeResult, HdlcLite.Frame, HdlcLite.Stuff, CarriesCall, Hk, FitCount;
    var c, count := cs[k], CountAt(cs, k);
    NonEmptyExact(apid, count, c);
    if wires[k] != [] {
      FrameDecodes(apid, count, c);
      PackedCarries(apid, count, c);
      HdlcLite.FrameBytes(c.mode, Packed(apid, count, c));
      HdlcLite.BodyParts(c.mode, Packed(apid, count, c));
    }
  }
}
