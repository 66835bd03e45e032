/** Rover housekeeping packed into telemetry packets with a rolling sequence count. */
module TmBridge {
  import opened Wrappers
  import opened Bytes
  import opened CcsdsWire

  predicate Fits(payload: seq<Byte>) {
    |payload| <= MAX_USER_DATA
  }

  function PrimaryOf(apid: Apid, count: SequenceCount, payload: seq<Byte>): Primary
    requires Fits(payload)
  {
    Primary(apid, Tm, count, 9 + |payload|)
  }

  /** Coarse time, fine time (24 bits), and zero function code and instance. */
  function TimeBytes(coarse: DWord, fine: DWord): (s: seq<Byte>)
    ensures |s| == SECONDARY_LEN
  {
    Be32(coarse) + Be24(fine) + [0, 0, 0]
  }

  function Hk(apid: Apid, count: SequenceCount, payload: seq<Byte>, coarse: DWord, fine: DWord): (s: seq<Byte>)
    requires Fits(payload)
    ensures |s| == HEADER_LEN + |payload|
  {
    PrimaryBytes(PrimaryOf(apid, count, payload)) + TimeBytes(coarse, fine) + payload
  }

  function Next(count: SequenceCount): SequenceCount {
    (count as int + 1) % COUNT_WRAP
  }

  class Bridge {
    const apid: Apid
    var seqCount: SequenceCount

    constructor (rawApid: Word)
      ensures apid == rawApid % 0x800 && seqCount == 0
    {
      apid := rawApid % 0x800;
      seqCount := 0;
    }

    method PackHk(payload: seq<Byte>, coarse: DWord, fine: DWord) returns (pkt: seq<Byte>)
      modifies this
      ensures if Fits(payload)
              then pkt == Hk(apid, old(seqCount), payload, coarse, fine)
                   && seqCount == Next(old(seqCount))
              else pkt == [] && seqCount == old(seqCount)
    {
      if |payload| > MAX_USER_DATA {
        return [];
      }
      var length := 9 + |payload|;
      var word0 := 0x0800 + apid;
      var word1 := 0xC000 + seqCount % COUNT_WRAP;
      assert word1 == 0xC000 + seqCount;
      assert PrimaryBytes(PrimaryOf(apid, seqCount, payload)) == Be16(word0) + Be16(word1) + Be16(length);
      hide PrimaryBytes, Next;
      seqCount := Next(seqCount);
      pkt := [word0 / 0x100];
      pkt := pkt + [word0 % 0x100];
      pkt := pkt + [word1 / 0x100];
      pkt := pkt + [word1 % 0x100];
      pkt := pkt + [length / 0x100];
      pkt := pkt + [length % 0x100];
      assert pkt == Be16(word0) + Be16(word1) + Be16(length);
      hide Be16, Be32, Be24;
      pkt := pkt + Be32(coarse);
      pkt := pkt + Be24(fine);
      pkt := pkt + [0, 0, 0];
      pkt := pkt + payload;
    }

    method ResetSeq(to: Word)
      modifies this
      ensures seqCount == to % 0x4000
    {
      seqCount := to % COUNT_WRAP;
    }
  }

  /**
   The header of every packed packet decodes to telemetry, the bridge's APID and count, and its own length; the time
   follows, coarse before fine and both high byte first, then three zero bytes and the payload.
   */
  lemma HkHeader(apid: Apid, count: SequenceCount, payload: seq<Byte>, coarse: DWord, fine: DWord)
    requires |payload| <= 65526
    ensures var pkt := Hk(apid, count, payload, coarse, fine);
            && |pkt| == 16 + |payload|
            && DecodePrimary(pkt) == Ok(Primary(apid, Tm, count, 9 + |payload|))
            && |pkt| == DecodePrimary(pkt).value.dataLength + 7
            && pkt[6] as int * 0x100_0000 + pkt[7] as int * 0x1_0000 + pkt[8] as int * 0x100 + pkt[9] == coarse
            && pkt[10] as int * 0x1_0000 + pkt[11] as int * 0x100 + pkt[12] == fine % 0x100_0000
            && pkt[13..16] == [0, 0, 0]
            && pkt[16..] == payload
  {
    hide DecodePrimary, PrimaryBytes, TimeBytes;
    var pkt := Hk(apid, count, payload, coarse, fine);
    PrimaryExact(pkt, PrimaryOf(apid, count, payload));
    var t := TimeBytes(coarse, fine);
    TimeNumbers(coarse, fine);
    assert pkt[6..16] == t && forall k | 0 <= k < 10 :: pkt[6 + k] == t[k];
    assert pkt[13..16] == t[7..];
  }

  lemma TimeNumbers(coarse: DWord, fine: DWord)
    ensures var t := TimeBytes(coarse, fine);
            && t[0] as int * 0x100_0000 + t[1] as int * 0x1_0000 + t[2] as int * 0x100 + t[3] == coarse
            && t[4] as int * 0x1_0000 + t[5] as int * 0x100 + t[6] == fine % 0x100_0000
            && t[7..] == [0, 0, 0]
  {
    var t := TimeBytes(coarse, fine);
    assert t[..4] == Be32(coarse) && t[4..7] == Be24(fine);
    Be32Numbers(coarse);
    Be24Numbers(fine);
    hide TimeBytes, Be32, Be24;
    assert t[0] == t[..4][0] && t[1] == t[..4][1] && t[2] == t[..4][2] && t[3] == t[..4][3];
    assert t[4] == t[4..7][0] && t[5] == t[4..7][1] && t[6] == t[4..7][2];
  }

  lemma Be32Numbers(d: DWord)
    ensures var s := Be32(d);
            s[0] as int * 0x100_0000 + s[1] as int * 0x1_0000 + s[2] as int * 0x100 + s[3] == d
  {
  }

  lemma Be24Numbers(d: DWord)
    ensures var s := Be24(d);
            s[0] as int * 0x1_0000 + s[1] as int * 0x100 + s[2] == d % 0x100_0000
  {
    var h, l := d / 0x1_0000, d % 0x1_0000;
    assert d == h / 0x100 * 0x100_0000 + (h % 0x100 * 0x1_0000 + l);
    assert d % 0x100_0000 == h % 0x100 * 0x1_0000 + l;
    assert Be24(d) == [h % 0x100, l / 0x100, l % 0x100];
  }

  /**
   No packed packet passes the ground parser: the time field starts where the parser wants the P-Field, and
   the function code is the reserved zero.
   */
  lemma HkRefusedByGround(apid: Apid, count: SequenceCount, payload: seq<Byte>, coarse: DWord, fine: DWord)
    requires Fits(payload)
    ensures Parse(Hk(apid, count, payload, coarse, fine))
            == Err(if coarse / 0x100_0000 == 0x2F then FuncCodeReserved else InvalidPField(coarse / 0x100_0000))
  {
    var pkt := Hk(apid, count, payload, coarse, fine);
    HkHeader(apid, count, payload, coarse, fine);
    hide DecodePrimary, PrimaryBytes;
    var s := pkt[6..];
    assert s[..10] == TimeBytes(coarse, fine);
    assert s[0] == TimeBytes(coarse, fine)[0] == coarse / 0x1_0000 / 0x100;
    assert s[7] == TimeBytes(coarse, fine)[7] == 0 && s[8] == TimeBytes(coarse, fine)[8] == 0;
  }

  // --- A sequence of payloads through one bridge ------------------------------------------

  function Fitting(payloads: seq<seq<Byte>>): (fs: seq<seq<Byte>>)
    ensures forall k | 0 <= k < |fs| :: Fits(fs[k])
  {
    if payloads == [] then []
    else
      var n := |payloads| - 1;
      if Fits(payloads[n]) then Fitting(payloads[..n]) + [payloads[n]] else Fitting(payloads[..n])
  }

  /** One packet per payload that fits, in order, counted 0, 1, 2, ... modulo 16384. */
  method PackHkSequence(rawApid: Word, payloads: seq<seq<Byte>>, coarse: DWord, fine: DWord)
    returns (out: seq<seq<Byte>>)
    ensures var fs := Fitting(payloads);
            && |out| == |fs|
            && forall k | 0 <= k < |fs| :: out[k] == Hk(rawApid % 0x800, k % 0x4000, fs[k], coarse, fine)
  {
    var bridge := new Bridge(rawApid);
    out := [];
    for i := 0 to |payloads|
      invariant fresh(bridge) && bridge.apid == rawApid % 0x800
      invariant |out| == |Fitting(payloads[..i])| && bridge.seqCount == |out| % COUNT_WRAP
      invariant forall k | 0 <= k < |out| ::
                  out[k] == Hk(rawApid % 0x800, k % COUNT_WRAP, Fitting(payloads[..i])[k], coarse, fine)
    {
      hide Hk;
      assert payloads[..i + 1][..i] == payloads[..i];
      CountNext(|out|);
      var pkt := bridge.PackHk(payloads[i], coarse, fine);
      HkNonEmpty(payloads[i], bridge.apid, coarse, fine);
      if pkt != [] {
        out := out + [pkt];
      }
    }
    assert payloads[..|payloads|] == payloads;
  }

  /** How many of the first k payloads have at most 65526 bytes. */
  function FitCount(payloads: seq<seq<Byte>>, k: nat): nat
    requires k <= |payloads|
  {
    if k == 0 then 0 else FitCount(payloads, k - 1) + if |payloads[k - 1]| <= 65526 then 1 else 0
  }

  lemma {:induction false} FitCountPrefix(payloads: seq<seq<Byte>>, n: nat, k: nat)
    requires k <= n <= |payloads|
    ensures FitCount(payloads[..n], k) == FitCount(payloads, k)
    decreases k
  {
    if k > 0 {
      FitCountPrefix(payloads, n, k - 1);
    }
  }

  /** Every payload of at most 65526 bytes is among those that fit, after the fitting ones before it. */
  lemma {:induction false} FittingOrder(payloads: seq<seq<Byte>>)
    ensures |Fitting(payloads)| == FitCount(payloads, |payloads|)
    ensures forall k | 0 <= k < |payloads| && |payloads[k]| <= 65526 ::
              FitCount(payloads, k) < |Fitting(payloads)| && Fitting(payloads)[FitCount(payloads, k)] == payloads[k]
  {
    if payloads != [] {
      var n := |payloads| - 1;
      FittingOrder(payloads[..n]);
      FitCountPrefix(payloads, n, n);
      forall k | 0 <= k < |payloads| && |payloads[k]| <= 65526
        ensures FitCount(payloads, k) < |Fitting(payloads)|
        ensures Fitting(payloads)[FitCount(payloads, k)] == payloads[k]
      {
        FitCountPrefix(payloads, n, if k < n then k else n);
        if k < n {
          assert payloads[..n][k] == payloads[k];
        }
      }
    }
  }

  lemma CountNext(n: nat)
    ensures Next(n % COUNT_WRAP) == (n + 1) % COUNT_WRAP
  {
  }

  lemma HkNonEmpty(payload: seq<Byte>, apid: Apid, coarse: DWord, fine: DWord)
    ensures Fits(payload) ==> forall count: SequenceCount :: Hk(apid, count, payload, coarse, fine) != []
  {
  }
}
