/** The simulation adapter: gates one datagram onto the software bus. */
module SimAdapter {
  import opened Bytes
  import opened Crc16
  import CrcLoop
  import SppEncoder

  const APID_MIN := 0x500
  const APID_MAX := 0x57F

  datatype Gate = TooShort | ApidOutOfRange | CrcMismatch | Routed

  function ApidOf(buf: seq<Byte>): Word
    requires |buf| >= 2
  {
    Join16(buf[0] % 8, buf[1])
  }

  /** The CRC covers the bytes between header and trailer, their number truncated to 16 bits. */
  function Covered(buf: seq<Byte>): seq<Byte>
    requires |buf| >= 18
  {
    buf[16..16 + (|buf| - 18) % 0x1_0000]
  }

  function GateOf(buf: seq<Byte>): Gate {
    if |buf| < 18 then TooShort
    else if ApidOf(buf) < APID_MIN || ApidOf(buf) > APID_MAX then ApidOutOfRange
    else if Crc(Covered(buf)) != Join16(buf[|buf| - 2], buf[|buf| - 1]) then CrcMismatch
    else Routed
  }

  class Adapter {
    var packetsRouted: DWord
    var crcMismatches: DWord
    var apidRejects: DWord

    constructor ()
      ensures packetsRouted == 0 && crcMismatches == 0 && apidRejects == 0
    {
      packetsRouted, crcMismatches, apidRejects := 0, 0, 0;
    }

    /** sent tells whether the software bus takes the packet; a routed datagram is accepted either way. */
    method ProcessUdp(buf: seq<Byte>, sent: bool) returns (accepted: bool)
      requires |buf| < WRAP32
      modifies this
      ensures accepted <==> GateOf(buf) == Routed
      ensures apidRejects
              == (if GateOf(buf) in {TooShort, ApidOutOfRange} then Increment(old(apidRejects))
                  else old(apidRejects))
      ensures crcMismatches
              == (if GateOf(buf) == CrcMismatch then Increment(old(crcMismatches)) else old(crcMismatches))
      ensures packetsRouted
              == (if GateOf(buf) == Routed && sent then Increment(old(packetsRouted)) else old(packetsRouted))
    {
      if |buf| < 18 {
        apidRejects := Increment(apidRejects);
        return false;
      }
      var apid := Join16(buf[0] % 8, buf[1]);
      if apid < APID_MIN || apid > APID_MAX {
        apidRejects := Increment(apidRejects);
        return false;
      }
      var size := (|buf| - 18) % 0x1_0000;
      var computed := CrcLoop.Compute(buf[16..16 + size]);
      var stored := Join16(buf[|buf| - 2], buf[|buf| - 1]);
      if computed != stored {
        crcMismatches := Increment(crcMismatches);
        return false;
      }
      if sent {
        packetsRouted := Increment(packetsRouted);
      }
      return true;
    }
  }

  // --- What passes -----------------------------------------------------------------------------

  /** Which gate stops a datagram: its size, its APID, or the CRC of its covered bytes against its last two bytes. */
  lemma GateExact(buf: seq<Byte>)
    ensures GateOf(buf)
            == if |buf| < 18 then TooShort
               else
                 var apid, n := buf[0] as int % 8 * 0x100 + buf[1], |buf| - 18;
                 if !(0x500 <= apid <= 0x57F) then ApidOutOfRange
                 else if Crc(buf[16..16 + n % 0x1_0000]) != buf[|buf| - 2] as int * 0x100 + buf[|buf| - 1]
                 then CrcMismatch
                 else Routed
  {
    hide Crc;
  }

  /**
   A datagram passes exactly when its APID is in the block and the bytes the CRC covers, followed by the last
   two, have CRC zero. Up to 65553 bytes those are all the bytes after the header. Only beyond that would the
   16-bit length of the CRC call wrap; the adapter's receive buffer of 1024 bytes keeps its caller below.
   */
  lemma RoutedExact(buf: seq<Byte>)
    ensures GateOf(buf) == Routed
            <==> |buf| >= 18
                 && 0x500 <= buf[0] as int % 8 * 0x100 + buf[1] <= 0x57F
                 && Crc(buf[16..16 + (|buf| - 18) % 0x1_0000] + buf[|buf| - 2..]) == 0
    ensures 18 <= |buf| < 18 + 0x1_0000 ==> buf[16..16 + (|buf| - 18) % 0x1_0000] + buf[|buf| - 2..] == buf[16..]
  {
    hide Crc, Join16, Be16;
    if |buf| >= 18 {
      var n, m := |buf| - 2, Covered(buf);
      assert buf[n..] == [buf[n], buf[n + 1]];
      ZeroResidue(m, buf[n], buf[n + 1]);
      JoinBe16(buf[n], buf[n + 1], Crc(m));
      ApidNumber(buf);
    }
  }

  lemma ApidNumber(buf: seq<Byte>)
    ensures |buf| >= 2 ==> ApidOf(buf) == buf[0] as int % 8 * 0x100 + buf[1]
  {
  }

  /**
   Every fault packet passes, although its CRC follows the fault payload and not the padding: payload and CRC
   leave CRC zero, zero padding keeps it, and the two bytes read as the trailer are zero.
   */
  lemma FaultPacketRouted(ev: SppEncoder.FaultEvent, seqCount: Word)
    ensures GateOf(SppEncoder.Spp(ev, seqCount)) == Routed
  {
    var spp, p := SppEncoder.Spp(ev, seqCount), SppEncoder.Payload(ev);
    ApidInBlock(ev, seqCount);
    ApidNumber(spp);
    hide Crc, ApidOf, SppEncoder.Payload, SppEncoder.HeaderBytes;
    assert spp[16..] == p + Be16(Crc(p)) + Zeros(998 - |p|);
    PaddedResidue(p, 998 - |p|);
    RoutedExact(spp);
  }

  lemma ApidInBlock(ev: SppEncoder.FaultEvent, seqCount: Word)
    ensures ApidOf(SppEncoder.Spp(ev, seqCount)) == 0x540 + ev.faultType.Index()
  {
    hide Crc, SppEncoder.Payload;
  }
}
