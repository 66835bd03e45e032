/** The power-system UART gateway: a second, laxer unstuffer with a little-endian CRC trailer. */
module EpsGateway {
  import opened Wrappers
  import opened Bytes
  import opened BusMonitor
  import opened Crc16
  import CrcLoop
  import HdlcLite

  const MAX_UNESCAPED := 258

  datatype Verdict = Success | FrameFormat | FrameTooLong | HdlcCrc

  /** XOR with 0x20. */
  function FlipBit5(b: Byte): Byte {
    if b / 0x20 % 2 == 1 then b - 0x20 else b + 0x20
  }

  // --- Lax unstuffing ------------------------------------------------------------------

  datatype Scan = Scan(bytes: seq<Byte>, escaped: bool)

  function ScanByte(s: Scan, b: Byte): Scan {
    if s.escaped then Scan(s.bytes + [FlipBit5(b)], false)
    else if b == HdlcLite.ESC then Scan(s.bytes, true)
    else Scan(s.bytes + [b], false)
  }

  function ScanAll(interior: seq<Byte>): Scan {
    if interior == [] then Scan([], false)
    else ScanByte(ScanAll(interior[..|interior| - 1]), interior[|interior| - 1])
  }

  /** Any byte may follow an escape; a flag needs none. Only a dangling escape is refused. */
  function Unstuff(interior: seq<Byte>): Option<seq<Byte>> {
    var s := ScanAll(interior);
    if s.escaped then None else Some(s.bytes)
  }

  lemma ScanSnoc(a: seq<Byte>, b: Byte)
    ensures ScanAll(a + [b]) == ScanByte(ScanAll(a), b)
  {
    assert (a + [b])[..|a|] == a;
  }

  lemma {:induction false} ScanGrows(interior: seq<Byte>, i: nat)
    requires i <= |interior|
    ensures |ScanAll(interior[..i]).bytes| <= |ScanAll(interior).bytes| <= |interior|
    decreases |interior|
  {
    if i == |interior| {
      assert interior[..i] == interior;
      if interior != [] {
        ScanGrows(interior[..|interior| - 1], 0);
      }
    } else {
      ScanGrows(interior[..|interior| - 1], i);
      assert interior[..|interior| - 1][..i] == interior[..i];
    }
  }

  /** On everything the strict unstuffer accepts, the lax one yields the same bytes. */
  lemma {:induction false} StrictScanAgrees(interior: seq<Byte>)
    ensures var s := HdlcLite.ScanAll(interior);
            s.Live? ==> ScanAll(interior) == Scan(s.body, s.escaped)
  {
    if interior != [] {
      StrictScanAgrees(interior[..|interior| - 1]);
      assert FlipBit5(0x5E) == HdlcLite.FLAG && FlipBit5(0x5D) == HdlcLite.ESC;
    }
  }

  lemma StrictUnstuffAgrees(interior: seq<Byte>)
    requires HdlcLite.Unstuff(interior).Some?
    ensures Unstuff(interior) == HdlcLite.Unstuff(interior)
  {
    StrictScanAgrees(interior);
  }

  /** One more interior byte; an escape waits for the byte after it and flips its bit 5. */
  lemma UnstuffSteps(a: seq<Byte>, u: seq<Byte>, b: Byte)
    requires Unstuff(a) == Some(u)
    ensures Unstuff([]) == Some([])
    ensures b != 0x7D ==> Unstuff(a + [b]) == Some(u + [b])
    ensures Unstuff(a + [0x7D]) == None
    ensures Unstuff(a + [0x7D, b]) == Some(u + [FlipBit5(b)])
  {
    hide ScanAll, FlipBit5;
    ScanEmpty([]);
    ScanSnoc(a, b);
    ScanSnoc(a, 0x7D);
    ScanSnoc(a + [0x7D], b);
    assert a + [0x7D] + [b] == a + [0x7D, b];
  }

  /** The flip changes bit 5 and no other bit. */
  lemma FlipExact(b: Byte)
    ensures FlipBit5(b) % 0x20 == b % 0x20 && FlipBit5(b) / 0x40 == b / 0x40
    ensures FlipBit5(b) / 0x20 % 2 != b / 0x20 % 2
  {
    var h, m, l := b / 0x40, b / 0x20 % 2, b % 0x20;
    assert b == h * 0x40 + m * 0x20 + l && 0 <= m < 2;
    assert FlipBit5(b) == h * 0x40 + (1 - m) * 0x20 + l;
  }

  // --- Frame validation --------------------------------------------------------------------

  function Le16(w: Word): (s: seq<Byte>)
    ensures |s| == 2
  {
    [w % 0x100, w / 0x100]
  }

  function BodyVerdict(u: seq<Byte>): Verdict {
    if |u| < 3 then FrameFormat
    else if Crc(u[..|u| - 2]) != Join16(u[|u| - 1], u[|u| - 2]) then HdlcCrc
    else Success
  }

  function VerdictOf(frame: seq<Byte>): Verdict {
    if |frame| < 4 || frame[0] != HdlcLite.FLAG || frame[|frame| - 1] != HdlcLite.FLAG then FrameFormat
    else
      var s := ScanAll(frame[1..|frame| - 1]);
      if |s.bytes| > MAX_UNESCAPED then FrameTooLong
      else if s.escaped then FrameFormat
      else BodyVerdict(s.bytes)
  }

  /** Unescape the bytes between the flags into the caller's fixed-size buffer. */
  method Unescape(frame: array<Byte>, len: nat, unescaped: array<Byte>) returns (v: Verdict, ulen: nat)
    requires 4 <= len <= frame.Length && unescaped.Length == MAX_UNESCAPED && unescaped != frame
    modifies unescaped
    ensures ulen <= MAX_UNESCAPED
    ensures var s := ScanAll(old(frame[..len])[1..len - 1]);
            match v
            case Success => s == Scan(unescaped[..ulen], false)
            case FrameTooLong => |s.bytes| > MAX_UNESCAPED
            case FrameFormat => s.escaped && |s.bytes| <= MAX_UNESCAPED
            case HdlcCrc => false
  {
    hide ScanAll, ScanByte, FlipBit5;
    ghost var interior := frame[..len][1..len - 1];
    ScanEmpty(interior);
    ulen := 0;
    var i := 1;
    while i < len - 1
      invariant 1 <= i <= len - 1 && ulen <= MAX_UNESCAPED
      invariant forall k | 0 <= k < |interior| :: frame[k + 1] == interior[k]
      invariant ScanAll(interior[..i - 1]) == Scan(unescaped[..ulen], false)
    {
      ghost var u := unescaped[..ulen];
      var b := frame[i];
      if b == HdlcLite.ESC {
        i := i + 1;
        if i >= len - 1 {
          DanglingEscape(interior, u);
          return FrameFormat, ulen;
        }
        b := FlipBit5(frame[i]);
        ScanEscaped(interior, i - 2, u);
      } else {
        ScanPlain(interior, i - 1, u);
      }
      i := i + 1;
      if ulen >= MAX_UNESCAPED {
        ScanGrows(interior, i - 1);
        return FrameTooLong, ulen;
      }
      unescaped[ulen] := b;
      ulen := ulen + 1;
      assert unescaped[..ulen] == u + [b];
    }
    assert interior[..len - 2] == interior;
    v := Success;
  }

  method Validate(frame: array<Byte>, len: nat) returns (v: Verdict)
    requires len <= frame.Length && len < 0x1_0000
    ensures v == VerdictOf(frame[..len])
  {
    if len < 4 {
      return FrameFormat;
    }
    if frame[0] != HdlcLite.FLAG || frame[len - 1] != HdlcLite.FLAG {
      return FrameFormat;
    }
    var unescaped := new Byte[MAX_UNESCAPED];
    ghost var whole := frame[..len];
    var ulen;
    v, ulen := Unescape(frame, len, unescaped);
    assert frame[..len] == whole;
    if !v.Success? {
      return v;
    }
    if ulen < 3 {
      return FrameFormat;
    }
    ghost var u := unescaped[..ulen];
    assert u[..ulen - 2] == unescaped[..ulen - 2];
    var computed := CrcLoop.Compute(unescaped[..ulen - 2]);
    var received := Join16(unescaped[ulen - 1], unescaped[ulen - 2]);
    if computed != received {
      return HdlcCrc;
    }
    return Success;
  }

  lemma ScanEmpty(interior: seq<Byte>)
    ensures ScanAll(interior[..0]) == Scan([], false)
  {
  }

  lemma ScanPlain(interior: seq<Byte>, i: nat, u: seq<Byte>)
    requires i < |interior| && interior[i] != HdlcLite.ESC && ScanAll(interior[..i]) == Scan(u, false)
    ensures ScanAll(interior[..i + 1]) == Scan(u + [interior[i]], false)
  {
    assert interior[..i + 1] == interior[..i] + [interior[i]];
    ScanSnoc(interior[..i], interior[i]);
  }

  lemma ScanEscaped(interior: seq<Byte>, i: nat, u: seq<Byte>)
    requires i + 1 < |interior| && interior[i] == HdlcLite.ESC && ScanAll(interior[..i]) == Scan(u, false)
    ensures ScanAll(interior[..i + 2]) == Scan(u + [FlipBit5(interior[i + 1])], false)
  {
    hide ScanAll;
    assert interior[..i + 1] == interior[..i] + [HdlcLite.ESC];
    ScanSnoc(interior[..i], HdlcLite.ESC);
    assert interior[..i + 2] == interior[..i + 1] + [interior[i + 1]];
    ScanSnoc(interior[..i + 1], interior[i + 1]);
  }

  lemma DanglingEscape(interior: seq<Byte>, u: seq<Byte>)
    requires interior != [] && interior[|interior| - 1] == HdlcLite.ESC
    requires ScanAll(interior[..|interior| - 1]) == Scan(u, false)
    ensures ScanAll(interior) == Scan(u, true)
  {
  }

  // --- What the gateway accepts ---------------------------------------------------------------

  lemma BodyVerdictExact(u: seq<Byte>)
    ensures BodyVerdict(u) == Success <==> |u| >= 3 && u == u[..|u| - 2] + Le16(Crc(u[..|u| - 2]))
  {
    hide Crc;
    if |u| >= 3 {
      var c := Crc(u[..|u| - 2]);
      assert u == u[..|u| - 2] + [u[|u| - 2], u[|u| - 1]];
      JoinBe16(u[|u| - 1], u[|u| - 2], c);
    }
  }

  /** The interior unstuffs to the packet and its CRC, low byte first. */
  ghost predicate Carries(interior: seq<Byte>, spp: seq<Byte>) {
    Unstuff(interior) == Some(spp + [Crc(spp) % 0x100, Crc(spp) / 0x100])
  }

  ghost predicate CarriesPacket(interior: seq<Byte>) {
    exists spp: seq<Byte> :: 1 <= |spp| <= 256 && Carries(interior, spp)
  }

  predicate Delimited(frame: seq<Byte>) {
    |frame| >= 2 && frame[0] == 0x7E && frame[|frame| - 1] == 0x7E
  }

  /**
   A frame is accepted exactly when flags delimit it and its interior unstuffs to 1 to 256 packet bytes
   followed by their CRC, least significant byte first.
   */
  lemma AcceptedExact(frame: seq<Byte>)
    ensures VerdictOf(frame) == Success <==> Delimited(frame) && CarriesPacket(frame[1..|frame| - 1])
  {
    hide Crc, ScanAll, BodyVerdict, Le16;
    if Delimited(frame) {
      var interior := frame[1..|frame| - 1];
      var u := ScanAll(interior).bytes;
      ScanGrows(interior, 0);
      BodyVerdictExact(u);
      LittleEndian(u);
      if VerdictOf(frame) == Success {
        assert Carries(interior, u[..|u| - 2]);
      }
      if CarriesPacket(interior) {
        var spp: seq<Byte> :| 1 <= |spp| <= 256 && Carries(interior, spp);
        assert u[..|u| - 2] == spp;
      }
    }
  }

  lemma LittleEndian(u: seq<Byte>)
    ensures |u| >= 3 ==> Le16(Crc(u[..|u| - 2])) == [Crc(u[..|u| - 2]) % 0x100, Crc(u[..|u| - 2]) / 0x100]
  {
  }

  /**
   Why a frame is refused: too long if more than 258 bytes unescape; a CRC mismatch if 3 to 258 bytes unescape that
   do not end in their CRC; a format error otherwise.
   */
  lemma RefusedExact(frame: seq<Byte>)
    requires !(Delimited(frame) && CarriesPacket(frame[1..|frame| - 1]))
    ensures VerdictOf(frame)
            == if !Delimited(frame) || |frame| < 4 then FrameFormat
               else
                 var interior := frame[1..|frame| - 1];
                 if |ScanAll(interior).bytes| > 258 then FrameTooLong
                 else if Unstuff(interior).None? || |Unstuff(interior).value| < 3 then FrameFormat
                 else HdlcCrc
  {
    hide ScanAll, Crc, CarriesPacket;
    AcceptedExact(frame);
  }

  /** A strictly stuffed body is judged as the body itself, up to the size of the unescape buffer. */
  lemma WireVerdict(u: seq<Byte>)
    ensures VerdictOf(HdlcLite.Wire(u)) == (if |u| > MAX_UNESCAPED then FrameTooLong else BodyVerdict(u))
  {
    hide BodyVerdict, HdlcLite.Stuff, ScanAll;
    HdlcLite.WireParts(u);
    HdlcLite.UnstuffExact(HdlcLite.Stuff(u), u);
    StrictUnstuffAgrees(HdlcLite.Stuff(u));
    ShortBody(u);
  }

  lemma ShortBody(u: seq<Byte>)
    ensures |u| < 3 ==> BodyVerdict(u) == FrameFormat
  {
  }

  /** Every packet of 1 to 256 bytes, with its little-endian CRC, stuffed strictly and delimited, is accepted. */
  lemma AcceptsStuffed(spp: seq<Byte>)
    requires 1 <= |spp| <= 256
    ensures VerdictOf(HdlcLite.Wire(spp + Le16(Crc(spp)))) == Success
  {
    hide Crc;
    var u := spp + Le16(Crc(spp));
    WireVerdict(u);
    BodyVerdictExact(u);
  }

  lemma SamePrefix(a: seq<Byte>, b: seq<Byte>, c: seq<Byte>)
    ensures a + b == a + c <==> b == c
  {
    assert (a + b)[|a|..] == b && (a + c)[|a|..] == c;
  }

  /**
   A tether frame put on this bus: its CRC trailer is big-endian, so it passes only if both CRC bytes are
   equal, and only up to 253 payload bytes.
   */
  lemma TetherFrameVerdict(mode: Byte, p: seq<Byte>)
    ensures VerdictOf(HdlcLite.Frame(mode, p))
            == (if |p| > 253 then FrameTooLong
                else if Crc(HdlcLite.Header(mode, p)) / 0x100 == Crc(HdlcLite.Header(mode, p)) % 0x100 then Success
                else HdlcCrc)
  {
    var header, u := HdlcLite.Header(mode, p), HdlcLite.Body(mode, p);
    hide Crc, HdlcLite.Header;
    HdlcLite.BodyParts(mode, p);
    WireVerdict(u);
    assert u[..|u| - 2] == header && u[|u| - 2..] == Be16(Crc(header));
    BodyVerdictExact(u);
    assert u == header + Be16(Crc(header));
    assert (u == header + Le16(Crc(header))) == (Be16(Crc(header)) == Le16(Crc(header))) by {
      SamePrefix(header, Be16(Crc(header)), Le16(Crc(header)));
    }
  }

  // --- The poll cycle ------------------------------------------------------------------------------

  const MAX_FRAME_LEN := 514

  function OutcomeOf(p: Poll): Outcome {
    match p
    case Quiet => NoData
    case Failed => BusError
    case Received(frame) => if VerdictOf(frame) == Success then Valid else Corrupt
  }

  function Outcomes(ps: seq<Poll>): (os: seq<Outcome>)
    ensures |os| == |ps|
    ensures forall k | 0 <= k < |ps| :: os[k] == OutcomeOf(ps[k])
  {
    seq(|ps|, k requires 0 <= k < |ps| => OutcomeOf(ps[k]))
  }

  ghost predicate FitsBuffer(p: Poll) {
    p.Received? ==> |p.frame| <= MAX_FRAME_LEN
  }

  class Gateway {
    const frameBuf: array<Byte>
    var silenceCount: DWord
    var framesValid: DWord
    var framesCorrupt: DWord
    var errCounter: DWord
    ghost var silentEvents: nat
    ghost var published: seq<Housekeeping>

    ghost predicate Valid() {
      frameBuf.Length == MAX_FRAME_LEN
    }

    ghost function View(): Monitor
      reads this
    {
      Monitor(silenceCount, Housekeeping(framesValid, framesCorrupt, errCounter), silentEvents, published)
    }

    constructor ()
      ensures Valid() && fresh(frameBuf) && frameBuf.Length == 514 && View() == INITIAL
    {
      frameBuf := new Byte[MAX_FRAME_LEN](_ => 0);
      silenceCount, framesValid, framesCorrupt, errCounter := 0, 0, 0, 0;
      silentEvents, published := 0, [];
    }

    /** The driver's side of a poll: the received frame goes to the start of the frame buffer. */
    method BusPoll(p: Poll)
      requires Valid() && FitsBuffer(p)
      modifies frameBuf
      ensures p.Received? ==> frameBuf[..|p.frame|] == p.frame
    {
      if p.Received? {
        forall i | 0 <= i < |p.frame| {
          frameBuf[i] := p.frame[i];
        }
      }
    }

    /** A frame that fails validation is counted and publishes nothing. */
    method PollAndPublish(p: Poll)
      requires Valid() && FitsBuffer(p)
      modifies this, frameBuf
      ensures View() == Step(old(View()), OutcomeOf(p))
    {
      hide VerdictOf;
      BusPoll(p);
      match p {
      case Received(frame) =>
        var v := Validate(frameBuf, |frame|);
        if v.Success? {
          silenceCount := 0;
          framesValid := Increment(framesValid);
          published := published + [Housekeeping(framesValid, framesCorrupt, errCounter)];
        } else {
          framesCorrupt := Increment(framesCorrupt);
          errCounter := Increment(errCounter);
          silenceCount := Increment(silenceCount);
        }
      case Failed =>
        errCounter := Increment(errCounter);
        silenceCount := Increment(silenceCount);
      case Quiet =>
        silenceCount := Increment(silenceCount);
      }
      if silenceCount >= SILENCE_CYCLES {
        silentEvents := silentEvents + 1;
        silenceCount := 0;
      }
    }

    /** Reading the command pipe; a forwarded command or a timeout changes nothing. */
    method DrainPipe(failed: bool)
      modifies this`errCounter
      ensures View() == DrainStep(old(View()), failed)
    {
      if failed {
        errCounter := Increment(errCounter);
      }
    }

    /** A run of the application loop. */
    method RunCycles(pipe: seq<bool>, ps: seq<Poll>)
      requires |pipe| == |ps|
      requires Valid() && View() == INITIAL && forall k | 0 <= k < |ps| :: FitsBuffer(ps[k])
      modifies this, frameBuf
      ensures View() == BusMonitor.Run(INITIAL, pipe, Outcomes(ps))
    {
      hide OutcomeOf, FitsBuffer;
      for i := 0 to |ps|
        invariant View() == BusMonitor.Run(INITIAL, pipe[..i], Outcomes(ps[..i]))
      {
        DrainPipe(pipe[i]);
        PollAndPublish(ps[i]);
        var os := Outcomes(ps[..i + 1]);
        assert os[..i] == Outcomes(ps[..i]) && pipe[..i + 1][..i] == pipe[..i];
      }
      assert ps[..|ps|] == ps && pipe[..|ps|] == pipe;
    }
  }

  // --- Whole runs: what counts, and what is published --------------------------------------------

  /** The poll received a delimited frame that carries a packet of 1 to 256 bytes. */
  ghost predicate Delivers(p: Poll) {
    p.Received? && Delimited(p.frame) && CarriesPacket(p.frame[1..|p.frame| - 1])
  }

  lemma OutcomesExact(ps: seq<Poll>, k: nat)
    requires k < |ps|
    ensures Outcomes(ps)[k] == Valid <==> Delivers(ps[k])
    ensures Outcomes(ps)[k] == Corrupt <==> ps[k].Received? && !Delivers(ps[k])
    ensures Outcomes(ps)[k] == BusError <==> ps[k].Failed?
    ensures Outcomes(ps)[k] == NoData <==> ps[k].Quiet?
  {
    hide VerdictOf, CarriesPacket;
    if ps[k].Received? {
      AcceptedExact(ps[k].frame);
    }
  }

  ghost function Deliveries(ps: seq<Poll>): nat {
    if ps == [] then 0 else Deliveries(ps[..|ps| - 1]) + if Delivers(ps[|ps| - 1]) then 1 else 0
  }

  ghost function Refusals(ps: seq<Poll>): nat {
    if ps == [] then 0
    else
      var p := ps[|ps| - 1];
      Refusals(ps[..|ps| - 1]) + if p.Received? && !Delivers(p) then 1 else 0
  }

  function BusFailures(ps: seq<Poll>): nat {
    if ps == [] then 0 else BusFailures(ps[..|ps| - 1]) + if ps[|ps| - 1].Failed? then 1 else 0
  }

  lemma {:induction false} OutcomeCounts(ps: seq<Poll>)
    ensures Occurrences(Outcomes(ps), Valid) == Deliveries(ps)
    ensures Occurrences(Outcomes(ps), Corrupt) == Refusals(ps)
    ensures Occurrences(Outcomes(ps), BusError) == BusFailures(ps)
  {
    if ps != [] {
      hide OutcomeOf, Delivers;
      var n := |ps| - 1;
      OutcomeCounts(ps[..n]);
      OutcomesExact(ps, n);
      assert Outcomes(ps)[..n] == Outcomes(ps[..n]);
    }
  }

  /** The housekeeping that a run of polls calls for. */
  ghost function HkAfter(pipe: seq<bool>, ps: seq<Poll>): Housekeeping {
    Housekeeping(Deliveries(ps) % 0x1_0000_0000, Refusals(ps) % 0x1_0000_0000,
                 (Refusals(ps) + BusFailures(ps) + Failures(pipe)) % 0x1_0000_0000)
  }

  /**
   Over any run of the application loop, one packet is published for each poll that delivers a packet, with the
   numbers of deliveries, refusals and errors up to it; no other poll publishes.
   */
  lemma GatewayPublishes(pipe: seq<bool>, ps: seq<Poll>)
    requires |pipe| == |ps|
    ensures var m := BusMonitor.Run(INITIAL, pipe, Outcomes(ps));
            && m.hk == HkAfter(pipe, ps)
            && |m.published| == Deliveries(ps)
            && forall k | 0 <= k < |ps| && Delivers(ps[k]) ::
                 Deliveries(ps[..k]) < |m.published|
                 && m.published[Deliveries(ps[..k])] == HkAfter(pipe[..k + 1], ps[..k + 1])
  {
    hide OutcomeOf, Delivers, Deliveries, HkAfter, BusMonitor.HkOf, BusMonitor.Run, Outcomes;
    var os := Outcomes(ps);
    BusMonitor.CountersExact(pipe, os);
    BusMonitor.PublishedExact(pipe, os);
    OutcomeCounts(ps);
    HkExact(pipe, ps);
    var m := BusMonitor.Run(INITIAL, pipe, os);
    forall k | 0 <= k < |ps| && Delivers(ps[k])
      ensures Deliveries(ps[..k]) < |m.published|
      ensures m.published[Deliveries(ps[..k])] == HkAfter(pipe[..k + 1], ps[..k + 1])
    {
      OutcomesExact(ps, k);
      OutcomeCounts(ps[..k]);
      HkExact(pipe[..k + 1], ps[..k + 1]);
      OutcomesPrefix(ps, k);
      OutcomesPrefix(ps, k + 1);
    }
  }

  lemma HkExact(pipe: seq<bool>, ps: seq<Poll>)
    requires |pipe| == |ps|
    ensures BusMonitor.HkOf(pipe, Outcomes(ps)) == HkAfter(pipe, ps)
  {
    hide OutcomeOf, Outcomes, Deliveries, Refusals, BusFailures, Failures;
    OutcomeCounts(ps);
  }

  lemma OutcomesPrefix(ps: seq<Poll>, k: nat)
    requires k <= |ps|
    ensures Outcomes(ps)[..k] == Outcomes(ps[..k])
  {
    hide OutcomeOf;
  }
}
