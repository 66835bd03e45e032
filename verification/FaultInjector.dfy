/** The scenario-driven fault injector: which packet goes out when, and in which frame. */
module FaultInjector {
  import opened Bytes
  import opened Crc16
  import opened SppEncoder
  import opened Wrappers
  import CcsdsWire
  import CrcLoop
  import SimAdapter

  const AOS_FRAME_LEN := 1024
  const AOS_HEADER_LEN := 6
  const AOS_DATA_LEN := 1016
  const AOS_FECF_OFFSET := 1022
  const VCFC_WRAP := 0x100_0000

  type Vcfc = x: DWord | x < VCFC_WRAP

  function Wrap14(n: nat): CcsdsWire.SequenceCount {
    n % CcsdsWire.COUNT_WRAP
  }

  function Wrap24(n: nat): Vcfc {
    n % VCFC_WRAP
  }

  lemma Wrap14Next(n: nat)
    ensures Wrap14(Wrap14(n) as int + 1) == Wrap14(n + 1)
  {
    var q := n / CcsdsWire.COUNT_WRAP;
    if Wrap14(n) as int + 1 == CcsdsWire.COUNT_WRAP {
      assert n + 1 == (q + 1) * CcsdsWire.COUNT_WRAP;
    } else {
      assert n + 1 == q * CcsdsWire.COUNT_WRAP + (Wrap14(n) as int + 1);
    }
  }

  lemma Wrap24Next(n: nat)
    ensures Wrap24(Wrap24(n) as int + 1) == Wrap24(n + 1)
  {
    var q := n / VCFC_WRAP;
    if Wrap24(n) as int + 1 == VCFC_WRAP {
      assert n + 1 == (q + 1) * VCFC_WRAP;
    } else {
      assert n + 1 == q * VCFC_WRAP + (Wrap24(n) as int + 1);
    }
  }

  lemma WrapNumbers(n: nat)
    ensures Wrap14(n) == n % 0x4000 && Wrap24(n) == n % 0x100_0000
  {
  }

  // --- AOS frames ------------------------------------------------------------------------------

  /** Version 01, spacecraft 42, virtual channel 0, frame count, no replay or OCF. */
  function AosHeader(vcfc: Vcfc): (s: seq<Byte>)
    ensures |s| == AOS_HEADER_LEN
  {
    [0x4A, 0x80] + Be24(vcfc) + [0]
  }

  /** The data field: the packet, cut or zero-padded to 1016 bytes. */
  function DataField(spp: seq<Byte>): (s: seq<Byte>)
    ensures |s| == AOS_DATA_LEN
  {
    if |spp| < AOS_DATA_LEN then spp + Zeros(AOS_DATA_LEN - |spp|) else spp[..AOS_DATA_LEN]
  }

  lemma PaddedData(spp: seq<Byte>, n: nat)
    requires n == if |spp| < AOS_DATA_LEN then |spp| else AOS_DATA_LEN
    ensures DataField(spp) == spp[..n] + Zeros(AOS_DATA_LEN - n)
  {
    assert spp[..|spp|] == spp;
  }

  function AosFrame(vcfc: Vcfc, spp: seq<Byte>): (s: seq<Byte>)
    ensures |s| == AOS_FRAME_LEN
  {
    AosHeader(vcfc) + DataField(spp) + Be16(Crc(AosHeader(vcfc) + DataField(spp)))
  }

  /** Every frame has CRC zero over all of its 1024 bytes. */
  lemma FrameResidue(vcfc: Vcfc, spp: seq<Byte>)
    ensures Crc(AosFrame(vcfc, spp)) == 0
  {
    hide Crc, AosHeader, DataField;
    var m := AosHeader(vcfc) + DataField(spp);
    ZeroResidue(m, Crc(m) / 0x100, Crc(m) % 0x100);
  }

  /** A frame in numbers: version 1, spacecraft 42, virtual channel 0, the 24-bit frame count, no replay or OCF. */
  lemma FrameHeader(vcfc: Vcfc, spp: seq<Byte>)
    ensures var f := AosFrame(vcfc, spp);
            && |f| == 1024
            && f[0] / 0x40 == 1
            && f[0] as int % 0x40 * 4 + f[1] / 0x40 == 42
            && f[1] % 0x40 == 0
            && f[2] as int * 0x1_0000 + f[3] as int * 0x100 + f[4] == vcfc
            && f[5] == 0
  {
    hide Crc, DataField;
  }

  /** The data field: the packet, cut to 1016 bytes or followed by zeros. */
  lemma FramePadding(vcfc: Vcfc, spp: seq<Byte>, k: nat)
    requires k < 1016
    ensures AosFrame(vcfc, spp)[6 + k] == if k < |spp| then spp[k] else 0
  {
    hide Crc;
  }

  lemma FrameData(vcfc: Vcfc, spp: seq<Byte>)
    requires |spp| == AOS_DATA_LEN
    ensures AosFrame(vcfc, spp)[AOS_HEADER_LEN..AOS_FECF_OFFSET] == spp
  {
    hide Crc, AosHeader;
  }

  /** The data field of a fault frame is a packet the ground station's parser accepts, with the injector's fields. */
  lemma FrameParses(vcfc: Vcfc, ev: FaultEvent, seqCount: CcsdsWire.SequenceCount)
    ensures CcsdsWire.Parse(AosFrame(vcfc, Spp(ev, seqCount))[AOS_HEADER_LEN..AOS_FECF_OFFSET])
            == Ok(Expected(ev, seqCount))
  {
    hide AosFrame, Spp, Expected;
    FrameData(vcfc, Spp(ev, seqCount));
    SppParses(ev, seqCount);
  }

  /**
   The adapter accepts the packet inside a fault frame, but not the frame: its first two bytes read as APID
   0x280, outside the simulation block.
   */
  lemma AdapterNeedsBarePacket(vcfc: Vcfc, ev: FaultEvent, seqCount: Word)
    ensures SimAdapter.GateOf(AosFrame(vcfc, Spp(ev, seqCount))) == SimAdapter.ApidOutOfRange
    ensures SimAdapter.GateOf(AosFrame(vcfc, Spp(ev, seqCount))[AOS_HEADER_LEN..AOS_FECF_OFFSET]) == SimAdapter.Routed
  {
    hide Crc, Spp;
    FrameData(vcfc, Spp(ev, seqCount));
    SimAdapter.FaultPacketRouted(ev, seqCount);
  }

  // --- Specification of a tick -----------------------------------------------------------------

  /** Rolling counters and the frames sent so far. */
  datatype Output = Output(counts: seq<CcsdsWire.SequenceCount>, vcfc: Vcfc, sent: seq<seq<Byte>>)

  /** Emit one fault. With the socket closed the count is consumed but nothing is sent. */
  function Emit(o: Output, ev: FaultEvent, open: bool): (r: Output)
    requires |o.counts| == 4
    ensures |r.counts| == 4
  {
    var i := ev.faultType.Index();
    var counted := o.(counts := o.counts[i := Wrap14(o.counts[i] as int + 1)]);
    if open then
      counted.(vcfc := Wrap24(o.vcfc + 1), sent := o.sent + [AosFrame(o.vcfc, Spp(ev, o.counts[i]))])
    else counted
  }

  predicate IsDue(ev: FaultEvent, t: real) {
    !ev.emitted && t >= ev.at
  }

  /** A fault that a tick consumes, and whether the socket is open then. */
  datatype Emission = Emission(fault: nat, open: bool)

  predicate Below(es: seq<Emission>, n: nat) {
    forall k | 0 <= k < |es| :: es[k].fault < n
  }

  /** Those of the first n faults that are due at time t, in scenario order. */
  function Due(fs: seq<FaultEvent>, t: real, n: nat, open: bool): (es: seq<Emission>)
    requires n <= |fs|
    ensures Below(es, n)
  {
    if n == 0 then []
    else if IsDue(fs[n - 1], t) then Due(fs, t, n - 1, open) + [Emission(n - 1, open)]
    else Due(fs, t, n - 1, open)
  }

  /** The faults after a tick: those due among the first n are marked. */
  function Mark(fs: seq<FaultEvent>, t: real, n: nat): (r: seq<FaultEvent>)
    requires n <= |fs|
    ensures |r| == |fs|
  {
    seq(|fs|, j requires 0 <= j < |fs| => if j < n && IsDue(fs[j], t) then fs[j].(emitted := true) else fs[j])
  }

  function EmitAll(o: Output, fs: seq<FaultEvent>, es: seq<Emission>): (r: Output)
    requires |o.counts| == 4 && Below(es, |fs|)
    ensures |r.counts| == 4
  {
    if es == [] then o
    else
      var e := es[|es| - 1];
      Emit(EmitAll(o, fs, es[..|es| - 1]), fs[e.fault], e.open)
  }

  /** The first n faults have been visited by a tick at time t. */
  ghost predicate Visited(o: Output, fs: seq<FaultEvent>, t: real, n: nat, open: bool, p: Output, gs: seq<FaultEvent>) {
    && |o.counts| == 4 && n <= |fs| == |gs|
    && gs == Mark(fs, t, n)
    && p == EmitAll(o, fs, Due(fs, t, n, open))
  }

  lemma VisitNone(o: Output, fs: seq<FaultEvent>, t: real, open: bool)
    requires |o.counts| == 4
    ensures Visited(o, fs, t, 0, open, o, fs)
  {
    assert Mark(fs, t, 0) == fs;
  }

  lemma VisitNext(o: Output, fs: seq<FaultEvent>, t: real, n: nat, open: bool, p: Output, gs: seq<FaultEvent>)
    requires Visited(o, fs, t, n, open, p, gs) && n < |fs| && |p.counts| == 4
    ensures gs[n] == fs[n]
    ensures if IsDue(fs[n], t)
            then Visited(o, fs, t, n + 1, open, Emit(p, fs[n], open), gs[n := fs[n].(emitted := true)])
            else Visited(o, fs, t, n + 1, open, p, gs)
  {
    hide Emit;
    if IsDue(fs[n], t) {
      var es := Due(fs, t, n + 1, open);
      assert es[..|es| - 1] == Due(fs, t, n, open);
      assert Mark(fs, t, n + 1) == gs[n := fs[n].(emitted := true)];
    } else {
      assert Mark(fs, t, n + 1) == gs;
    }
  }

  lemma VisitedAll(o: Output, fs: seq<FaultEvent>, t: real, open: bool, p: Output, gs: seq<FaultEvent>)
    requires Visited(o, fs, t, |fs|, open, p, gs)
    ensures |o.counts| == 4 && gs == Mark(fs, t, |fs|) && p == EmitAll(o, fs, Due(fs, t, |fs|, open))
  {
  }

  // --- Specification of a run ------------------------------------------------------------------

  /** What is done to an injector; Start carries the outcomes of its three system calls. */
  datatype Action = Start(socket: bool, resolved: bool, connected: bool) | Stop | Tick(t: real)

  function OpenAfter(open: bool, a: Action): bool {
    match a
    case Start(socket, resolved, connected) => socket && resolved && connected
    case Stop => false
    case Tick(_) => open
  }

  function OpenAll(open: bool, acts: seq<Action>): bool {
    if acts == [] then open else OpenAfter(OpenAll(open, acts[..|acts| - 1]), acts[|acts| - 1])
  }

  function MarkAll(fs: seq<FaultEvent>, acts: seq<Action>): (r: seq<FaultEvent>)
    ensures |r| == |fs|
  {
    if acts == [] then fs
    else
      var n := |acts| - 1;
      var before := MarkAll(fs, acts[..n]);
      if acts[n].Tick? then Mark(before, acts[n].t, |before|) else before
  }

  /** The faults consumed over a run, in order. */
  function Emissions(fs: seq<FaultEvent>, acts: seq<Action>, open: bool): (es: seq<Emission>)
    ensures Below(es, |fs|)
  {
    if acts == [] then [] else Emissions(fs, acts[..|acts| - 1], open) + LastEmissions(fs, acts, open)
  }

  /** Those its last action consumes. */
  function LastEmissions(fs: seq<FaultEvent>, acts: seq<Action>, open: bool): (es: seq<Emission>)
    requires acts != []
    ensures Below(es, |fs|)
  {
    var n := |acts| - 1;
    if acts[n].Tick? then Due(MarkAll(fs, acts[..n]), acts[n].t, |fs|, OpenAll(open, acts[..n])) else []
  }

  class Injector {
    var faults: seq<FaultEvent>
    const seqCounts: array<CcsdsWire.SequenceCount>
    var vcfc: Vcfc
    var socketOpen: bool
    ghost var sent: seq<seq<Byte>>

    ghost predicate Valid() {
      seqCounts.Length == 4
    }

    ghost function View(): (o: Output)
      requires Valid()
      reads this, seqCounts
      ensures |o.counts| == 4
    {
      Output(seqCounts[..], vcfc, sent)
    }

    constructor (scenario: seq<FaultEvent>)
      ensures Valid() && fresh(seqCounts) && faults == scenario && !socketOpen
      ensures View() == Output([0, 0, 0, 0], 0, [])
    {
      faults := scenario;
      seqCounts := new CcsdsWire.SequenceCount[4](_ => 0);
      vcfc := 0;
      socketOpen := false;
      sent := [];
    }

    method SendAsAosFrame(spp: array<Byte>, sppLen: nat)
      requires Valid() && sppLen <= spp.Length
      modifies this`vcfc, this`sent
      ensures if socketOpen && sppLen > 0
              then vcfc == Wrap24(old(vcfc) + 1) && sent == old(sent) + [AosFrame(old(vcfc), spp[..sppLen])]
              else vcfc == old(vcfc) && sent == old(sent)
    {
      if !socketOpen || sppLen == 0 {
        return;
      }
      hide AosFrame, Wrap24;
      var frame := BuildFrame(spp, sppLen);
      sent := sent + [frame[..]];
      vcfc := Wrap24(vcfc + 1);
    }

    method BuildFrame(spp: array<Byte>, sppLen: nat) returns (frame: array<Byte>)
      requires sppLen <= spp.Length
      ensures frame[..] == AosFrame(vcfc, spp[..sppLen])
    {
      hide Crc, AosHeader, DataField;
      frame := new Byte[AOS_FRAME_LEN](_ => 0);
      WriteHeader(frame);
      var copyLen := if sppLen < AOS_DATA_LEN then sppLen else AOS_DATA_LEN;
      WriteData(frame, spp, copyLen);
      PaddedData(spp[..sppLen], copyLen);
      assert spp[..sppLen][..copyLen] == spp[..copyLen];
      WriteFecf(frame, AosHeader(vcfc) + DataField(spp[..sppLen]));
    }

    static method WriteFecf(frame: array<Byte>, ghost m: seq<Byte>)
      requires frame.Length == AOS_FRAME_LEN && frame[..AOS_FECF_OFFSET] == m
      modifies frame
      ensures frame[..] == m + Be16(Crc(m))
    {
      hide Crc;
      var fecf := CrcLoop.Compute(frame[..AOS_FECF_OFFSET]);
      frame[AOS_FECF_OFFSET] := fecf / 0x100;
      frame[AOS_FECF_OFFSET + 1] := fecf % 0x100;
      assert frame[..AOS_FECF_OFFSET] == m;
    }

    method WriteHeader(frame: array<Byte>)
      requires frame.Length == AOS_FRAME_LEN && forall k | 0 <= k < AOS_FRAME_LEN :: frame[k] == 0
      modifies frame
      ensures frame[..6] == AosHeader(vcfc) && forall k | 6 <= k < AOS_FRAME_LEN :: frame[k] == 0
    {
      frame[0], frame[1] := 0x4A, 0x80;
      frame[2], frame[3], frame[4] := vcfc / 0x1_0000 % 0x100, vcfc % 0x1_0000 / 0x100, vcfc % 0x1_0000 % 0x100;
      frame[5] := 0;
    }

    method WriteData(frame: array<Byte>, spp: array<Byte>, copyLen: nat)
      requires frame.Length == AOS_FRAME_LEN && frame[..6] == AosHeader(vcfc)
      requires forall k | 6 <= k < AOS_FRAME_LEN :: frame[k] == 0
      requires frame != spp && copyLen <= spp.Length && copyLen <= AOS_DATA_LEN
      modifies frame
      ensures frame[..1022] == AosHeader(vcfc) + (spp[..copyLen] + Zeros(AOS_DATA_LEN - copyLen))
    {
      hide AosHeader;
      ghost var was := frame[..];
      forall i | 0 <= i < copyLen {
        frame[AOS_HEADER_LEN + i] := spp[i];
      }
      assert frame[..6] == was[..6];
      assert frame[6..6 + copyLen] == spp[..copyLen];
      assert frame[6 + copyLen..1022] == Zeros(AOS_DATA_LEN - copyLen);
      assert frame[..1022] == frame[..6] + (frame[6..6 + copyLen] + frame[6 + copyLen..1022]);
    }

    method EmitSpp(ev: FaultEvent)
      requires Valid()
      modifies this`vcfc, this`sent, seqCounts
      ensures View() == Emit(old(View()), ev, socketOpen)
    {
      hide AosFrame, Spp, Encoded;
      var buf := new Byte[SPP_MAX_BYTES](_ => 0);
      assert buf[..] == Zeros(SPP_MAX_BYTES);
      var i := ev.faultType.Index();
      var count := seqCounts[i];
      seqCounts[i] := Wrap14(count as int + 1);
      var len := 0;
      match ev.faultType {
        case PacketDrop => len := EncodePacketDrop(buf, buf.Length, count, ev);
        case ClockSkew => len := EncodeClockSkew(buf, buf.Length, count, ev);
        case SafeMode => len := EncodeSafeMode(buf, buf.Length, count, ev);
        case SensorNoise => len := EncodeSensorNoise(buf, buf.Length, count, ev);
      }
      if len == 0 {
        return;
      }
      SppInZeroBuffer(buf[..], ev, count);
      assert buf[..len] == buf[..];
      SendAsAosFrame(buf, len);
    }

    /** The outcomes of creating the socket, resolving the host and connecting are given. */
    method Start(socket: bool, resolved: bool, connected: bool) returns (ok: bool)
      modifies this`socketOpen
      ensures ok == socketOpen == (socket && resolved && connected)
    {
      socketOpen := socket;
      if !socketOpen {
        return false;
      }
      if !resolved {
        socketOpen := false;
        return false;
      }
      if !connected {
        socketOpen := false;
        return false;
      }
      return true;
    }

    method Stop()
      modifies this`socketOpen
      ensures !socketOpen
    {
      if socketOpen {
        socketOpen := false;
      }
    }

    method Tick(t: real)
      requires Valid()
      modifies this`faults, this`vcfc, this`sent, seqCounts
      ensures faults == Mark(old(faults), t, |old(faults)|)
      ensures View() == EmitAll(old(View()), old(faults), Due(old(faults), t, |old(faults)|, socketOpen))
    {
      hide Visited, Emit, EmitAll, Mark, Due;
      ghost var fs, o := faults, View();
      VisitNone(o, fs, t, socketOpen);
      for j := 0 to |faults|
        invariant |faults| == |fs|
        invariant Visited(o, fs, t, j, socketOpen, View(), faults)
      {
        VisitNext(o, fs, t, j, socketOpen, View(), faults);
        var ev := faults[j];
        if !ev.emitted && t >= ev.at {
          EmitSpp(ev);
          faults := faults[j := ev.(emitted := true)];
        }
      }
      VisitedAll(o, fs, t, socketOpen, View(), faults);
    }

    /** Any sequence of starts, stops and ticks. */
    method RunAll(acts: seq<Action>)
      requires Valid()
      modifies this, seqCounts
      ensures socketOpen == OpenAll(old(socketOpen), acts)
      ensures faults == MarkAll(old(faults), acts)
      ensures View() == EmitAll(old(View()), old(faults), Emissions(old(faults), acts, old(socketOpen)))
    {
      ghost var fs, o, open := faults, View(), socketOpen;
      for k := 0 to |acts|
        invariant socketOpen == OpenAll(open, acts[..k])
        invariant faults == MarkAll(fs, acts[..k])
        invariant View() == EmitAll(o, fs, Emissions(fs, acts[..k], open))
      {
        ghost var es := LastEmissions(fs, acts[..k + 1], open);
        assert acts[..k + 1][..k] == acts[..k];
        EmitAllMarked(View(), fs, acts[..k], es);
        EmitAllConcat(o, fs, Emissions(fs, acts[..k], open), es);
        hide Emit, Due, Mark;
        match acts[k] {
          case Start(socket, resolved, connected) =>
            var _ := Start(socket, resolved, connected);
          case Stop =>
            Stop();
          case Tick(t) =>
            Tick(t);
        }
      }
      assert acts[..|acts|] == acts;
    }
  }

  // --- Whole runs: marks ---------------------------------------------------------------------------

  lemma {:induction false} EmitAllConcat(o: Output, fs: seq<FaultEvent>, a: seq<Emission>, b: seq<Emission>)
    requires |o.counts| == 4 && Below(a, |fs|) && Below(b, |fs|)
    ensures EmitAll(o, fs, a + b) == EmitAll(EmitAll(o, fs, a), fs, b)
  {
    if b == [] {
      assert a + b == a;
    } else {
      var n := |b| - 1;
      EmitAllConcat(o, fs, a, b[..n]);
      assert (a + b)[..|a + b| - 1] == a + b[..n];
    }
  }

  /** Some tick reached the offset. */
  ghost predicate Reached(acts: seq<Action>, at: real) {
    exists i :: 0 <= i < |acts| && Reaches(acts[i], at)
  }

  predicate Reaches(a: Action, at: real) {
    a.Tick? && a.t >= at
  }

  lemma ReachedSnoc(acts: seq<Action>, at: real)
    requires acts != []
    ensures Reached(acts, at) <==> Reached(acts[..|acts| - 1], at) || Reaches(acts[|acts| - 1], at)
  {
    if Reached(acts[..|acts| - 1], at) {
      var i :| 0 <= i < |acts| - 1 && Reaches(acts[..|acts| - 1][i], at);
      assert Reaches(acts[i], at);
    }
    if Reached(acts, at) {
      var i :| 0 <= i < |acts| && Reaches(acts[i], at);
      assert i == |acts| - 1 || Reaches(acts[..|acts| - 1][i], at);
    }
  }

  lemma {:induction false} MarkAllExact(fs: seq<FaultEvent>, acts: seq<Action>, j: nat)
    requires j < |fs|
    ensures MarkAll(fs, acts)[j] == fs[j].(emitted := fs[j].emitted || Reached(acts, fs[j].at))
  {
    if acts != [] {
      MarkAllExact(fs, acts[..|acts| - 1], j);
      ReachedSnoc(acts, fs[j].at);
    }
  }

  /** Marking a fault does not change the packet it makes. */
  lemma EmitMarked(o: Output, ev: FaultEvent, e: bool, open: bool)
    requires |o.counts| == 4
    ensures Emit(o, ev.(emitted := e), open) == Emit(o, ev, open)
  {
    hide Crc, AosFrame;
  }

  lemma {:induction false} EmitAllMarked(o: Output, fs: seq<FaultEvent>, acts: seq<Action>, es: seq<Emission>)
    requires |o.counts| == 4 && Below(es, |fs|)
    ensures EmitAll(o, MarkAll(fs, acts), es) == EmitAll(o, fs, es)
  {
    if es != [] {
      var n := |es| - 1;
      var j := es[n].fault;
      EmitAllMarked(o, fs, acts, es[..n]);
      MarkAllExact(fs, acts, j);
      EmitMarked(EmitAll(o, fs, es[..n]), fs[j], fs[j].emitted || Reached(acts, fs[j].at), es[n].open);
    }
  }

  // --- Whole runs: which faults, in which order, and with the socket open or not ------------------

  /** The first tick to reach an offset, or the number of actions if none does. */
  function FirstTick(acts: seq<Action>, at: real): (i: nat)
    ensures i <= |acts|
    ensures forall k | 0 <= k < i :: !Reaches(acts[k], at)
    ensures i < |acts| ==> Reaches(acts[i], at)
  {
    if acts == [] then 0
    else
      var n := |acts| - 1;
      var i := FirstTick(acts[..n], at);
      if i < n || Reaches(acts[n], at) then i else n + 1
  }

  /** The socket when the first tick reaches an offset. */
  function OpenWhenReached(acts: seq<Action>, at: real, open: bool): bool {
    OpenAll(open, acts[..FirstTick(acts, at)])
  }

  lemma ReachedFirst(acts: seq<Action>, at: real)
    ensures Reached(acts, at) <==> FirstTick(acts, at) < |acts|
  {
  }

  lemma FirstTickPrefix(acts: seq<Action>, n: nat, at: real)
    requires n <= |acts| && FirstTick(acts[..n], at) < n
    ensures FirstTick(acts, at) == FirstTick(acts[..n], at)
  {
    var i, k := FirstTick(acts[..n], at), FirstTick(acts, at);
    assert Reaches(acts[i], at) && acts[i] == acts[..n][i];
    assert k < n ==> acts[k] == acts[..n][k];
  }

  lemma {:induction false} DueAt(fs: seq<FaultEvent>, t: real, n: nat, open: bool, a: nat)
    requires n <= |fs| && a < |Due(fs, t, n, open)|
    ensures var e := Due(fs, t, n, open)[a];
            e.fault < n && IsDue(fs[e.fault], t) && e.open == open
    decreases n
  {
    if a < |Due(fs, t, n - 1, open)| {
      DueAt(fs, t, n - 1, open, a);
    }
  }

  lemma {:induction false} DueSorted(fs: seq<FaultEvent>, t: real, n: nat, open: bool, a: nat, b: nat)
    requires n <= |fs| && a < b < |Due(fs, t, n, open)|
    ensures Due(fs, t, n, open)[a].fault < Due(fs, t, n, open)[b].fault
    decreases n
  {
    if b < |Due(fs, t, n - 1, open)| {
      DueSorted(fs, t, n - 1, open, a, b);
    }
  }

  lemma {:induction false} DueComplete(fs: seq<FaultEvent>, t: real, n: nat, open: bool, j: nat)
    requires j < n <= |fs| && IsDue(fs[j], t)
    ensures Emission(j, open) in Due(fs, t, n, open)
    decreases n
  {
    if j == n - 1 {
      assert Due(fs, t, n, open)[|Due(fs, t, n, open)| - 1] == Emission(j, open);
    } else {
      DueComplete(fs, t, n - 1, open, j);
    }
  }

  /** Order of emission: tick by tick, and within one tick in scenario order. */
  ghost predicate Earlier(fs: seq<FaultEvent>, acts: seq<Action>, d: Emission, e: Emission) {
    && d.fault < |fs| && e.fault < |fs|
    && var x, y := FirstTick(acts, fs[d.fault].at), FirstTick(acts, fs[e.fault].at);
       x < y || (x == y && d.fault < e.fault)
  }

  lemma DueMember(fs: seq<FaultEvent>, t: real, open: bool, e: Emission)
    requires e.fault < |fs|
    ensures e in Due(fs, t, |fs|, open) <==> IsDue(fs[e.fault], t) && e.open == open
  {
    hide Due, IsDue;
    var es := Due(fs, t, |fs|, open);
    if e in es {
      var a :| 0 <= a < |es| && es[a] == e;
      DueAt(fs, t, |fs|, open, a);
    }
    if IsDue(fs[e.fault], t) && e.open == open {
      DueComplete(fs, t, |fs|, open, e.fault);
      assert e == Emission(e.fault, open);
    }
  }

  lemma FirstTickLast(acts: seq<Action>, at: real)
    requires acts != []
    ensures FirstTick(acts, at) == |acts| - 1
            <==> !Reached(acts[..|acts| - 1], at) && Reaches(acts[|acts| - 1], at)
  {
    hide Reached;
    ReachedFirst(acts[..|acts| - 1], at);
  }

  lemma LastExact(fs: seq<FaultEvent>, acts: seq<Action>, open: bool, e: Emission)
    requires acts != [] && e.fault < |fs|
    ensures var at := fs[e.fault].at;
            e in LastEmissions(fs, acts, open)
            <==> && !fs[e.fault].emitted && FirstTick(acts, at) == |acts| - 1
                 && e.open == OpenWhenReached(acts, at, open)
  {
    hide Due, FirstTick, Reached, MarkAll, OpenAll;
    var n := |acts| - 1;
    FirstTickLast(acts, fs[e.fault].at);
    MarkAllExact(fs, acts[..n], e.fault);
    if acts[n].Tick? {
      DueMember(MarkAll(fs, acts[..n]), acts[n].t, OpenAll(open, acts[..n]), e);
    }
  }

  /** An offset is reached before the last action, or by it. */
  lemma ReachedNext(acts: seq<Action>, at: real, open: bool)
    requires acts != []
    ensures var n := |acts| - 1;
            if Reached(acts[..n], at)
            then Reached(acts, at) && FirstTick(acts, at) < n
                 && OpenWhenReached(acts, at, open) == OpenWhenReached(acts[..n], at, open)
            else Reached(acts, at) <==> FirstTick(acts, at) == n
  {
    hide OpenAll;
    var n := |acts| - 1;
    ReachedFirst(acts[..n], at);
    ReachedFirst(acts, at);
    if Reached(acts[..n], at) {
      hide FirstTick;
      FirstTickPrefix(acts, n, at);
      assert acts[..n][..FirstTick(acts, at)] == acts[..FirstTick(acts, at)];
    } else {
      ReachedSnoc(acts, at);
    }
  }

  /**
   A fault is consumed over a run exactly when it was pending and some tick reached its offset: at the first such
   tick, with the socket as it was then.
   */
  lemma {:induction false} EmissionsExact(fs: seq<FaultEvent>, acts: seq<Action>, open: bool, e: Emission)
    requires e.fault < |fs|
    ensures var at := fs[e.fault].at;
            e in Emissions(fs, acts, open)
            <==> !fs[e.fault].emitted && Reached(acts, at) && e.open == OpenWhenReached(acts, at, open)
  {
    if acts != [] {
      hide LastEmissions, OpenWhenReached, Reached, MarkAll, FirstTick;
      EmissionsExact(fs, acts[..|acts| - 1], open, e);
      LastExact(fs, acts, open, e);
      ReachedNext(acts, fs[e.fault].at, open);
    }
  }

  lemma EmissionAt(fs: seq<FaultEvent>, acts: seq<Action>, open: bool, a: nat)
    requires acts != [] && a < |Emissions(fs, acts, open)|
    ensures var es, ds := Emissions(fs, acts[..|acts| - 1], open), LastEmissions(fs, acts, open);
            && |Emissions(fs, acts, open)| == |es| + |ds|
            && Emissions(fs, acts, open)[a] == if a < |es| then es[a] else ds[a - |es|]
  {
    hide LastEmissions;
  }

  /** Emissions are strictly ordered; in particular no fault is consumed twice. */
  lemma {:induction false} EmissionsOrdered(fs: seq<FaultEvent>, acts: seq<Action>, open: bool, a: nat, b: nat)
    requires a < b < |Emissions(fs, acts, open)|
    ensures Earlier(fs, acts, Emissions(fs, acts, open)[a], Emissions(fs, acts, open)[b])
    decreases |acts|
  {
    assert acts != [];
    hide Emissions, LastEmissions, Earlier, Below;
    var m := |Emissions(fs, acts[..|acts| - 1], open)|;
    EmissionAt(fs, acts, open, a);
    EmissionAt(fs, acts, open, b);
    if b < m {
      EmissionsOrdered(fs, acts[..|acts| - 1], open, a, b);
      EarlierBefore(fs, acts, open, a, b);
    } else if a < m {
      EarlierAcross(fs, acts, open, a, b - m);
    } else {
      EarlierNow(fs, acts, open, a - m, b - m);
    }
  }

  lemma EarlierBefore(fs: seq<FaultEvent>, acts: seq<Action>, open: bool, a: nat, b: nat)
    requires acts != [] && a < |Emissions(fs, acts[..|acts| - 1], open)|
    requires b < |Emissions(fs, acts[..|acts| - 1], open)|
    requires var es := Emissions(fs, acts[..|acts| - 1], open);
             Earlier(fs, acts[..|acts| - 1], es[a], es[b])
    ensures var es := Emissions(fs, acts[..|acts| - 1], open);
            Earlier(fs, acts, es[a], es[b])
  {
    hide Emissions, FirstTick;
    EmittedBefore(fs, acts, open, a);
    EmittedBefore(fs, acts, open, b);
  }

  lemma EarlierAcross(fs: seq<FaultEvent>, acts: seq<Action>, open: bool, a: nat, b: nat)
    requires acts != [] && a < |Emissions(fs, acts[..|acts| - 1], open)| && b < |LastEmissions(fs, acts, open)|
    ensures Earlier(fs, acts, Emissions(fs, acts[..|acts| - 1], open)[a], LastEmissions(fs, acts, open)[b])
  {
    hide Emissions, LastEmissions, FirstTick;
    EmittedBefore(fs, acts, open, a);
    EmittedNow(fs, acts, open, b);
  }

  lemma EarlierNow(fs: seq<FaultEvent>, acts: seq<Action>, open: bool, a: nat, b: nat)
    requires acts != [] && a < b < |LastEmissions(fs, acts, open)|
    ensures Earlier(fs, acts, LastEmissions(fs, acts, open)[a], LastEmissions(fs, acts, open)[b])
  {
    hide LastEmissions, FirstTick;
    EmittedNow(fs, acts, open, a);
    EmittedNow(fs, acts, open, b);
    LastOrdered(fs, acts, open, a, b);
  }

  lemma LastOrdered(fs: seq<FaultEvent>, acts: seq<Action>, open: bool, a: nat, b: nat)
    requires acts != [] && a < b < |LastEmissions(fs, acts, open)|
    ensures LastEmissions(fs, acts, open)[a].fault < LastEmissions(fs, acts, open)[b].fault
  {
    var n := |acts| - 1;
    DueSorted(MarkAll(fs, acts[..n]), acts[n].t, |fs|, OpenAll(open, acts[..n]), a, b);
  }

  lemma EmittedBefore(fs: seq<FaultEvent>, acts: seq<Action>, open: bool, a: nat)
    requires acts != [] && a < |Emissions(fs, acts[..|acts| - 1], open)|
    ensures var before := acts[..|acts| - 1];
            var at := fs[Emissions(fs, before, open)[a].fault].at;
            FirstTick(acts, at) == FirstTick(before, at) < |acts| - 1
  {
    var before := acts[..|acts| - 1];
    var e := Emissions(fs, before, open)[a];
    assert e in Emissions(fs, before, open);
    EmissionsExact(fs, before, open, e);
    ReachedFirst(before, fs[e.fault].at);
    FirstTickPrefix(acts, |acts| - 1, fs[e.fault].at);
  }

  lemma EmittedNow(fs: seq<FaultEvent>, acts: seq<Action>, open: bool, a: nat)
    requires acts != [] && a < |LastEmissions(fs, acts, open)|
    ensures FirstTick(acts, fs[LastEmissions(fs, acts, open)[a].fault].at) == |acts| - 1
  {
    hide LastEmissions;
    var e := LastEmissions(fs, acts, open)[a];
    assert e in LastEmissions(fs, acts, open);
    LastExact(fs, acts, open, e);
  }

  // --- Whole runs: what each emission carries ------------------------------------------------

  /** How many of the emissions are of type index i. */
  function TypeCount(fs: seq<FaultEvent>, es: seq<Emission>, i: nat): nat
    requires Below(es, |fs|)
  {
    if es == [] then 0
    else
      var n := |es| - 1;
      TypeCount(fs, es[..n], i) + if fs[es[n].fault].faultType.Index() == i then 1 else 0
  }

  /** How many of them find the socket open. */
  function OpenCount(es: seq<Emission>): nat {
    if es == [] then 0 else OpenCount(es[..|es| - 1]) + if es[|es| - 1].open then 1 else 0
  }

  /** The frame of emission k: frame count start + earlier frames, sequence count start + earlier faults of its type. */
  function NthFrame(o: Output, fs: seq<FaultEvent>, es: seq<Emission>, k: nat): seq<Byte>
    requires |o.counts| == 4 && Below(es, |fs|) && k < |es|
  {
    var ev := fs[es[k].fault];
    var i := ev.faultType.Index();
    AosFrame(Wrap24(o.vcfc + OpenCount(es[..k])), Spp(ev, Wrap14(o.counts[i] as int + TypeCount(fs, es[..k], i))))
  }

  lemma EmitParts(o: Output, ev: FaultEvent, open: bool, i: nat)
    requires |o.counts| == 4 && i < 4
    ensures var r := Emit(o, ev, open);
            && r.counts[i] == (if ev.faultType.Index() == i then Wrap14(o.counts[i] as int + 1) else o.counts[i])
            && r.vcfc == (if open then Wrap24(o.vcfc + 1) else o.vcfc)
  {
    hide Spp, AosFrame;
  }

  lemma EmitSends(o: Output, ev: FaultEvent, open: bool)
    requires |o.counts| == 4
    ensures Emit(o, ev, open).sent
            == o.sent + if open then [AosFrame(o.vcfc, Spp(ev, o.counts[ev.faultType.Index()]))] else []
  {
    hide Spp, AosFrame;
  }

  lemma EmitNone(o: Output, fs: seq<FaultEvent>)
    requires |o.counts| == 4
    ensures EmitAll(o, fs, []) == o
  {
  }

  lemma EmitLast(o: Output, fs: seq<FaultEvent>, es: seq<Emission>)
    requires |o.counts| == 4 && Below(es, |fs|) && es != []
    ensures var e := es[|es| - 1];
            EmitAll(o, fs, es) == Emit(EmitAll(o, fs, es[..|es| - 1]), fs[e.fault], e.open)
  {
    hide Emit;
  }

  /** Every consumed fault advances the count of its type; only those sent advance the frame count. */
  lemma {:induction false} CountersExact(o: Output, fs: seq<FaultEvent>, es: seq<Emission>, i: nat)
    requires |o.counts| == 4 && Below(es, |fs|) && i < 4
    ensures EmitAll(o, fs, es).counts[i] == (o.counts[i] as int + TypeCount(fs, es, i)) % 0x4000
    ensures EmitAll(o, fs, es).vcfc == (o.vcfc + OpenCount(es)) % 0x100_0000
  {
    hide Emit, EmitAll;
    WrapNumbers(o.counts[i] as int + TypeCount(fs, es, i));
    WrapNumbers(o.vcfc + OpenCount(es));
    if es == [] {
      EmitNone(o, fs);
    } else {
      hide Wrap14, Wrap24;
      var n := |es| - 1;
      EmitLast(o, fs, es);
      WrapNumbers(o.counts[i] as int + TypeCount(fs, es[..n], i));
      WrapNumbers(o.vcfc + OpenCount(es[..n]));
      CountersExact(o, fs, es[..n], i);
      EmitParts(EmitAll(o, fs, es[..n]), fs[es[n].fault], es[n].open, i);
      Wrap14Next(o.counts[i] as int + TypeCount(fs, es[..n], i));
      Wrap24Next(o.vcfc + OpenCount(es[..n]));
    }
  }

  /** The frames of a run, one for each emission that finds the socket open. */
  function Frames(o: Output, fs: seq<FaultEvent>, es: seq<Emission>): (s: seq<seq<Byte>>)
    requires |o.counts| == 4 && Below(es, |fs|)
    ensures |s| == OpenCount(es)
  {
    if es == [] then []
    else
      var n := |es| - 1;
      Frames(o, fs, es[..n]) + if es[n].open then [NthFrame(o, fs, es, n)] else []
  }

  lemma NthFramePrefix(o: Output, fs: seq<FaultEvent>, es: seq<Emission>, n: nat, k: nat)
    requires |o.counts| == 4 && Below(es, |fs|) && k < n <= |es|
    ensures NthFrame(o, fs, es[..n], k) == NthFrame(o, fs, es, k)
  {
    hide AosFrame, Spp, TypeCount, OpenCount, Wrap14, Wrap24;
    assert es[..n][..k] == es[..k];
  }

  lemma {:induction false} FramesAt(o: Output, fs: seq<FaultEvent>, es: seq<Emission>, k: nat)
    requires |o.counts| == 4 && Below(es, |fs|) && k < |es| && es[k].open
    ensures OpenCount(es[..k]) < |Frames(o, fs, es)|
    ensures Frames(o, fs, es)[OpenCount(es[..k])] == NthFrame(o, fs, es, k)
    decreases |es|
  {
    hide NthFrame;
    var n := |es| - 1;
    if k < n {
      FramesAt(o, fs, es[..n], k);
      NthFramePrefix(o, fs, es, n, k);
      assert es[..n][..k] == es[..k];
    }
  }

  /** The counters stand as the first k emissions leave them. */
  ghost predicate Counted(o: Output, fs: seq<FaultEvent>, es: seq<Emission>, k: nat, p: Output)
    requires |o.counts| == 4 && Below(es, |fs|) && k <= |es|
  {
    && |p.counts| == 4
    && p.vcfc == Wrap24(o.vcfc + OpenCount(es[..k]))
    && forall i: nat | i < 4 :: p.counts[i] == Wrap14(o.counts[i] as int + TypeCount(fs, es[..k], i))
  }

  lemma AllCounted(o: Output, fs: seq<FaultEvent>, es: seq<Emission>, k: nat)
    requires |o.counts| == 4 && Below(es, |fs|) && k <= |es|
    ensures Counted(o, fs, es, k, EmitAll(o, fs, es[..k]))
  {
    hide EmitAll, TypeCount, OpenCount, Wrap14, Wrap24;
    CountersExact(o, fs, es[..k], 0);
    WrapNumbers(o.vcfc + OpenCount(es[..k]));
    forall i: nat | i < 4
      ensures EmitAll(o, fs, es[..k]).counts[i] == Wrap14(o.counts[i] as int + TypeCount(fs, es[..k], i))
    {
      CountersExact(o, fs, es[..k], i);
      WrapNumbers(o.counts[i] as int + TypeCount(fs, es[..k], i));
    }
  }

  lemma NthFrameFrom(o: Output, fs: seq<FaultEvent>, es: seq<Emission>, k: nat, p: Output)
    requires |o.counts| == 4 && Below(es, |fs|) && k < |es| && Counted(o, fs, es, k, p)
    ensures |p.counts| == 4
    ensures var ev := fs[es[k].fault];
            AosFrame(p.vcfc, Spp(ev, p.counts[ev.faultType.Index()])) == NthFrame(o, fs, es, k)
  {
    hide TypeCount, OpenCount, Wrap14, Wrap24, Spp, AosFrame;
  }

  lemma NextSent(o: Output, fs: seq<FaultEvent>, es: seq<Emission>, k: nat, p: Output)
    requires |o.counts| == 4 && Below(es, |fs|) && k < |es| && Counted(o, fs, es, k, p)
    ensures |p.counts| == 4
    ensures Emit(p, fs[es[k].fault], es[k].open).sent
            == p.sent + if es[k].open then [NthFrame(o, fs, es, k)] else []
  {
    hide Emit, NthFrame, Counted, Spp, AosFrame;
    NthFrameFrom(o, fs, es, k, p);
    EmitSends(p, fs[es[k].fault], es[k].open);
  }

  /** Each emission that finds the socket open adds its one frame; nothing else is ever sent. */
  lemma {:induction false} SentExact(o: Output, fs: seq<FaultEvent>, es: seq<Emission>)
    requires |o.counts| == 4 && Below(es, |fs|)
    ensures EmitAll(o, fs, es).sent == o.sent + Frames(o, fs, es)
  {
    hide Emit, EmitAll, NthFrame, Counted;
    if es == [] {
      EmitNone(o, fs);
    } else {
      var n := |es| - 1;
      EmitLast(o, fs, es);
      SentExact(o, fs, es[..n]);
      AllCounted(o, fs, es, n);
      NextSent(o, fs, es, n, EmitAll(o, fs, es[..n]));
    }
  }

  /** The frame of an emission is sent at the place that the earlier frames leave for it. */
  lemma SentAt(o: Output, fs: seq<FaultEvent>, es: seq<Emission>, k: nat)
    requires |o.counts| == 4 && Below(es, |fs|) && k < |es| && es[k].open
    ensures var sent, at := EmitAll(o, fs, es).sent, |o.sent| + OpenCount(es[..k]);
            at < |sent| == |o.sent| + OpenCount(es) && sent[at] == NthFrame(o, fs, es, k)
  {
    hide EmitAll, NthFrame, OpenCount;
    SentExact(o, fs, es);
    FramesAt(o, fs, es, k);
  }

  /** Where a fault stands among the emissions of a run, if anywhere. */
  ghost predicate EmittedAt(fs: seq<FaultEvent>, acts: seq<Action>, open: bool, j: nat, k: nat) {
    k < |Emissions(fs, acts, open)| && Emissions(fs, acts, open)[k].fault == j
  }

  /**
   Over any run of starts, stops and ticks, a pending fault is consumed exactly once if some tick reaches its
   offset, and never otherwise; it gives its frame if the socket is open at the first such tick. If it is closed
   then, the fault is lost: no later start brings it back.
   */
  lemma RunSendsOnce(o: Output, fs: seq<FaultEvent>, acts: seq<Action>, open: bool, j: nat)
    requires |o.counts| == 4 && j < |fs|
    ensures |EmitAll(o, fs, Emissions(fs, acts, open)).sent| == |o.sent| + OpenCount(Emissions(fs, acts, open))
    ensures (exists k: nat :: EmittedAt(fs, acts, open, j, k)) <==> !fs[j].emitted && Reached(acts, fs[j].at)
    ensures forall k: nat, l: nat | EmittedAt(fs, acts, open, j, k) && EmittedAt(fs, acts, open, j, l) :: k == l
    ensures forall k: nat | EmittedAt(fs, acts, open, j, k) ::
              Emissions(fs, acts, open)[k].open == OpenWhenReached(acts, fs[j].at, open)
  {
    hide EmitAll, Emissions, OpenWhenReached, Earlier;
    var es := Emissions(fs, acts, open);
    SentExact(o, fs, es);
    var e := Emission(j, OpenWhenReached(acts, fs[j].at, open));
    EmissionsExact(fs, acts, open, e);
    if e in es {
      var k :| 0 <= k < |es| && es[k] == e;
      assert EmittedAt(fs, acts, open, j, k);
    }
    forall k: nat | EmittedAt(fs, acts, open, j, k) ensures es[k] == e && !fs[j].emitted && Reached(acts, fs[j].at) {
      assert es[k] in es;
      EmissionsExact(fs, acts, open, es[k]);
    }
    forall k: nat, l: nat | EmittedAt(fs, acts, open, j, k) && EmittedAt(fs, acts, open, j, l) ensures k == l {
      EmittedOnce(fs, acts, open, j, k, l);
    }
  }

  /** The program's own run: a start that succeeds, ticks, a stop. */
  ghost predicate ProgramRun(acts: seq<Action>) {
    && |acts| >= 2
    && acts[0] == Start(true, true, true) && acts[|acts| - 1] == Stop
    && forall k | 0 < k < |acts| - 1 :: acts[k].Tick?
  }

  lemma {:induction false} OpenUntilStop(acts: seq<Action>, k: nat)
    requires ProgramRun(acts) && 0 < k < |acts|
    ensures OpenAll(false, acts[..k])
    decreases k
  {
    assert acts[..k][..k - 1] == acts[..k - 1];
    if k > 1 {
      OpenUntilStop(acts, k - 1);
    }
  }

  /** In it, every pending fault that some tick reaches gives its frame. */
  lemma ProgramSendsAll(fs: seq<FaultEvent>, acts: seq<Action>, e: Emission)
    requires ProgramRun(acts) && e.fault < |fs|
    ensures e in Emissions(fs, acts, false)
            <==> !fs[e.fault].emitted && Reached(acts, fs[e.fault].at) && e.open
  {
    hide OpenAll, FirstTick, Emissions;
    EmissionsExact(fs, acts, false, e);
    ReachedFirst(acts, fs[e.fault].at);
    var i := FirstTick(acts, fs[e.fault].at);
    if i < |acts| {
      assert Reaches(acts[i], fs[e.fault].at);
      OpenUntilStop(acts, i);
    }
  }

  lemma EmittedOnce(fs: seq<FaultEvent>, acts: seq<Action>, open: bool, j: nat, k: nat, l: nat)
    requires j < |fs| && EmittedAt(fs, acts, open, j, k) && EmittedAt(fs, acts, open, j, l)
    ensures k == l
  {
    hide Emissions;
    if k < l {
      EmissionsOrdered(fs, acts, open, k, l);
    } else if l < k {
      EmissionsOrdered(fs, acts, open, l, k);
    }
  }

  /** What a frame must be: its header, its CRC, and a packet that the parser, the catalogue and the adapter take. */
  ghost predicate Carries(f: seq<Byte>, frameCount: nat, ev: FaultEvent, seqCount: nat) {
    && |f| == 1024
    && f[0] / 0x40 == 1 && f[0] as int % 0x40 * 4 + f[1] / 0x40 == 42 && f[1] % 0x40 == 0
    && f[2] as int * 0x1_0000 + f[3] as int * 0x100 + f[4] == frameCount
    && f[5] == 0
    && Crc(f) == 0
    && SimAdapter.GateOf(f[6..1022]) == SimAdapter.Routed
    && CcsdsWire.Parse(f[6..1022]).Ok?
    && var p := CcsdsWire.Parse(f[6..1022]).value;
       && p.primary.packetType == CcsdsWire.Tm
       && p.primary.sequenceCount == seqCount
       && p.secondary == CcsdsWire.Secondary(CcsdsWire.Cuc(0, 0), 0x0100, 1)
       && ReadReport(p) == Some(Reported(ev))
  }

  lemma FrameCarries(vcfc: Vcfc, ev: FaultEvent, seqCount: CcsdsWire.SequenceCount)
    ensures Carries(AosFrame(vcfc, Spp(ev, seqCount)), vcfc, ev, seqCount)
  {
    hide AosFrame, Spp, Crc, ReadReport, Reported, SimAdapter.GateOf, CcsdsWire.Parse, UserData;
    FrameHeader(vcfc, Spp(ev, seqCount));
    FrameResidue(vcfc, Spp(ev, seqCount));
    FrameParses(vcfc, ev, seqCount);
    ReadExpected(ev, seqCount);
    AdapterNeedsBarePacket(vcfc, ev, seqCount);
  }

  /** The frame of emission k, should it be sent: its counts and its fault. */
  lemma NthFrameAccepted(o: Output, fs: seq<FaultEvent>, es: seq<Emission>, k: nat)
    requires |o.counts| == 4 && Below(es, |fs|) && k < |es|
    ensures var ev := fs[es[k].fault];
            var i := ev.faultType.Index();
            Carries(NthFrame(o, fs, es, k), (o.vcfc + OpenCount(es[..k])) % 0x100_0000, ev,
                    (o.counts[i] as int + TypeCount(fs, es[..k], i)) % 0x4000)
  {
    hide AosFrame, Spp, Carries, TypeCount, OpenCount, Wrap14, Wrap24;
    var ev := fs[es[k].fault];
    var i := ev.faultType.Index();
    WrapNumbers(o.vcfc + OpenCount(es[..k]));
    WrapNumbers(o.counts[i] as int + TypeCount(fs, es[..k], i));
    FrameCarries(Wrap24(o.vcfc + OpenCount(es[..k])), ev, Wrap14(o.counts[i] as int + TypeCount(fs, es[..k], i)));
  }

  /**
   Over any emissions, each one that finds the socket open is sent as one frame, after those before it: with the
   number of earlier frames and the number of earlier faults of its type added to the counts at the start, and with
   every field of its fault.
   */
  lemma SentFrames(o: Output, fs: seq<FaultEvent>, es: seq<Emission>, k: nat)
    requires |o.counts| == 4 && Below(es, |fs|) && k < |es| && es[k].open
    ensures var sent, at := EmitAll(o, fs, es).sent, |o.sent| + OpenCount(es[..k]);
            var ev := fs[es[k].fault];
            var i := ev.faultType.Index();
            && at < |sent| == |o.sent| + OpenCount(es)
            && sent[..|o.sent|] == o.sent
            && Carries(sent[at], (o.vcfc + OpenCount(es[..k])) % 0x100_0000, ev,
                       (o.counts[i] as int + TypeCount(fs, es[..k], i)) % 0x4000)
  {
    hide EmitAll, NthFrame, Carries, TypeCount, OpenCount;
    SentExact(o, fs, es);
    SentAt(o, fs, es, k);
    NthFrameAccepted(o, fs, es, k);
  }

  // --- The socket over a run -------------------------------------------------------------------------

  /** The position after the last start or stop; 0 if there is none. */
  function AfterSwitch(acts: seq<Action>): (i: nat)
    ensures i <= |acts|
    ensures forall k | i <= k < |acts| :: acts[k].Tick?
    ensures i > 0 ==> !acts[i - 1].Tick?
  {
    if acts == [] || !acts[|acts| - 1].Tick? then |acts| else AfterSwitch(acts[..|acts| - 1])
  }

  /** The socket is open exactly when the last start or stop was a start whose three calls all succeeded. */
  lemma {:induction false} OpenExact(acts: seq<Action>, open: bool)
    ensures var i := AfterSwitch(acts);
            OpenAll(open, acts)
            <==> if i == 0 then open
                 else acts[i - 1].Start? && acts[i - 1].socket && acts[i - 1].resolved && acts[i - 1].connected
  {
    if acts != [] {
      OpenExact(acts[..|acts| - 1], open);
    }
  }
}
