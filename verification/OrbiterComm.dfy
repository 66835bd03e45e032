/** The orbiter radio manager: link state, ground commands and what goes down to the ground station. */
module OrbiterComm {
  import opened Bytes

  const MAX_UINT32: DWord := 0xFFFF_FFFF
  const LOS_TIMEOUT_CYCLES := 10
  const NUM_VCS := 4
  const MAX_VC_ID := 3
  const MAX_RATE_KBPS := 1000
  const AOS_FRAME_LEN := 1024
  /** Size of the housekeeping structure: 16 header bytes and 28 bytes of fields. */
  const HK_LEN := 44
  const DEFAULT_RATES: seq<Word> := [50, 20, 800, 100]

  datatype Link = Los | Aos

  datatype Command = Noop | Reset | SetRate(vc: Byte, rate: Word) | ProcessTcp(probe: DWord) | UnknownCode

  /** What the software bus delivers; Failed is a receive error. */
  datatype Message = Ground(cmd: Command) | HkRequest | Relay(bytes: seq<Byte>) | UnknownId | Failed

  datatype Housekeeping = Housekeeping(link: Link, rates: seq<Word>, commands: DWord, errors: DWord, probe: DWord)

  /** What goes down to the ground station: the housekeeping structure, or the bytes of a rover packet. */
  datatype Datagram = HkDatagram(hk: Housekeeping) | Relayed(bytes: seq<Byte>) {
    function Size(): nat {
      match this
      case HkDatagram(_) => HK_LEN
      case Relayed(bytes) => |bytes|
    }
  }

  datatype State = State(
    link: Link,
    idle: DWord,
    rates: seq<Word>,
    commands: DWord,
    errors: DWord,
    probe: DWord,
    published: seq<Housekeeping>,   // on the software bus
    emitted: seq<Datagram>          // to the ground station
  )

  const INITIAL := State(Los, 0, DEFAULT_RATES, 0, 0, 0, [], [])

  predicate RateAccepted(vc: Byte, rate: Word) {
    vc <= MAX_VC_ID && rate <= MAX_RATE_KBPS
  }

  function Emit(s: State, d: Datagram): State {
    if d.Size() > AOS_FRAME_LEN then s else s.(emitted := s.emitted + [d])
  }

  /** The part of a rover packet that fits a frame. */
  function Clamped(bytes: seq<Byte>): (s: seq<Byte>)
    ensures |s| <= AOS_FRAME_LEN && s <= bytes
  {
    if |bytes| > AOS_FRAME_LEN then bytes[..AOS_FRAME_LEN] else bytes
  }

  function Snapshot(s: State): Housekeeping {
    Housekeeping(s.link, s.rates, s.commands, s.errors, s.probe)
  }

  function Execute(s: State, c: Command): State
    requires |s.rates| == NUM_VCS
  {
    match c
    case Noop => s.(commands := Increment(s.commands))
    case Reset => s.(commands := 0, errors := 0)
    case SetRate(vc, rate) =>
      if RateAccepted(vc, rate) then s.(rates := s.rates[vc := rate], commands := Increment(s.commands))
      else s.(errors := Increment(s.errors))
    case ProcessTcp(probe) => s.(probe := probe, commands := Increment(s.commands))
    case UnknownCode => s.(errors := Increment(s.errors))
  }

  function Step(s: State, m: Message): (t: State)
    requires |s.rates| == NUM_VCS
    ensures |t.rates| == NUM_VCS
  {
    match m
    case Ground(c) => Execute(s.(link := Aos, idle := 0), c)
    case HkRequest =>
      var idle := if s.idle < MAX_UINT32 then s.idle + 1 else s.idle;
      var t := s.(idle := idle, link := if idle >= LOS_TIMEOUT_CYCLES then Los else s.link);
      var u := t.(published := t.published + [Snapshot(t)]);
      if u.link.Aos? then Emit(u, HkDatagram(Snapshot(t))) else u
    case Relay(bytes) => if s.link.Aos? then Emit(s, Relayed(Clamped(bytes))) else s
    case UnknownId => s.(errors := Increment(s.errors))
    case Failed => s.(errors := Increment(s.errors))
  }

  function Run(ms: seq<Message>): (s: State)
    ensures |s.rates| == NUM_VCS
  {
    if ms == [] then INITIAL else Step(Run(ms[..|ms| - 1]), ms[|ms| - 1])
  }

  class App {
    var linkState: Link
    var uplinkIdleCount: DWord
    const downlinkRate: array<Word>
    var cmdCounter: DWord
    var errCounter: DWord
    var rttProbeIdEcho: DWord
    ghost var published: seq<Housekeeping>
    ghost var emitted: seq<Datagram>

    ghost predicate Valid() {
      downlinkRate.Length == NUM_VCS
    }

    ghost function View(): (s: State)
      requires Valid()
      reads this, downlinkRate
      ensures |s.rates| == NUM_VCS
    {
      State(linkState, uplinkIdleCount, downlinkRate[..], cmdCounter, errCounter, rttProbeIdEcho, published, emitted)
    }

    constructor ()
      ensures Valid() && fresh(downlinkRate)
      ensures View() == INITIAL
    {
      linkState := Los;
      uplinkIdleCount, cmdCounter, errCounter, rttProbeIdEcho := 0, 0, 0, 0;
      downlinkRate := new Word[NUM_VCS] [50, 20, 800, 100];
      published, emitted := [], [];
    }

    method ProcessGroundCommand(c: Command)
      requires Valid()
      modifies this, downlinkRate
      ensures View() == Step(old(View()), Ground(c))
    {
      uplinkIdleCount := 0;
      if linkState != Aos {
        linkState := Aos;
      }
      match c
      case Noop =>
        cmdCounter := Increment(cmdCounter);
      case Reset =>
        cmdCounter := 0;
        errCounter := 0;
      case SetRate(vc, rate) =>
        if vc > MAX_VC_ID {
          errCounter := Increment(errCounter);
        } else if rate > MAX_RATE_KBPS {
          errCounter := Increment(errCounter);
        } else {
          downlinkRate[vc] := rate;
          cmdCounter := Increment(cmdCounter);
        }
      case ProcessTcp(probe) =>
        rttProbeIdEcho := probe;
        cmdCounter := Increment(cmdCounter);
      case UnknownCode =>
        errCounter := Increment(errCounter);
    }

    method EmitAosFrame(d: Datagram)
      requires Valid()
      modifies this`emitted
      ensures View() == Emit(old(View()), d)
    {
      if d.Size() > AOS_FRAME_LEN {
        return;
      }
      emitted := emitted + [d];
    }

    method SendHkPacket()
      requires Valid()
      modifies this
      ensures View() == Step(old(View()), HkRequest)
    {
      if uplinkIdleCount < MAX_UINT32 {
        uplinkIdleCount := uplinkIdleCount + 1;
      }
      if uplinkIdleCount >= LOS_TIMEOUT_CYCLES && linkState != Los {
        linkState := Los;
      }
      var hkTlm := Housekeeping(linkState, downlinkRate[..], cmdCounter, errCounter, rttProbeIdEcho);
      published := published + [hkTlm];
      if linkState == Aos {
        EmitAosFrame(HkDatagram(hkTlm));
      }
    }

    method ForwardRoverHk(bytes: seq<Byte>)
      requires Valid()
      modifies this`emitted
      ensures View() == Step(old(View()), Relay(bytes))
    {
      if linkState == Aos {
        var msgSize := |bytes|;
        if msgSize > AOS_FRAME_LEN {
          msgSize := AOS_FRAME_LEN;
        }
        assert bytes[..msgSize] == Clamped(bytes);
        EmitAosFrame(Relayed(bytes[..msgSize]));
      }
    }

    method ProcessMessage(m: Message)
      requires Valid()
      modifies this, downlinkRate
      ensures View() == Step(old(View()), m)
    {
      match m
      case Ground(c) => ProcessGroundCommand(c);
      case HkRequest => SendHkPacket();
      case Relay(bytes) => ForwardRoverHk(bytes);
      case UnknownId => errCounter := Increment(errCounter);
      case Failed => errCounter := Increment(errCounter);
    }

    /** A run of the application loop. */
    method ProcessAll(ms: seq<Message>)
      requires Valid() && View() == INITIAL
      modifies this, downlinkRate
      ensures View() == Run(ms)
    {
      for i := 0 to |ms|
        invariant View() == Run(ms[..i])
      {
        assert ms[..i + 1][..i] == ms[..i];
        ProcessMessage(ms[i]);
      }
      assert ms[..|ms|] == ms;
    }
  }

  // --- Whole runs: link state and idle counter --------------------------------------------

  function HkRequests(ms: seq<Message>): nat {
    if ms == [] then 0 else HkRequests(ms[..|ms| - 1]) + if ms[|ms| - 1].HkRequest? then 1 else 0
  }

  /** Position just after the last ground command; 0 if there was none. */
  function AfterCommand(ms: seq<Message>): (i: nat)
    ensures i <= |ms|
    ensures forall k | i <= k < |ms| :: !ms[k].Ground?
    ensures i > 0 ==> ms[i - 1].Ground?
  {
    if ms == [] || ms[|ms| - 1].Ground? then |ms| else AfterCommand(ms[..|ms| - 1])
  }

  ghost predicate AnyCommand(ms: seq<Message>) {
    exists k :: 0 <= k < |ms| && ms[k].Ground?
  }

  function Idle(ms: seq<Message>): nat {
    HkRequests(ms[AfterCommand(ms)..])
  }

  lemma IdleSnoc(ms: seq<Message>, m: Message)
    ensures Idle(ms + [m]) == (if m.Ground? then 0 else Idle(ms) + if m.HkRequest? then 1 else 0)
  {
    var all := ms + [m];
    assert all[..|ms|] == ms;
    if !m.Ground? {
      var rest := all[AfterCommand(ms)..];
      assert rest[..|rest| - 1] == ms[AfterCommand(ms)..];
    }
  }

  lemma StepLink(s: State, m: Message)
    requires |s.rates| == NUM_VCS
    ensures var t := Step(s, m);
            && t.idle == (if m.Ground? then 0 else if m.HkRequest? && s.idle < MAX_UINT32 then s.idle + 1 else s.idle)
            && t.link == (if m.Ground? then Aos
                          else if m.HkRequest? && t.idle >= LOS_TIMEOUT_CYCLES then Los else s.link)
  {
  }

  lemma RunSnoc(ms: seq<Message>)
    requires ms != []
    ensures Run(ms) == Step(Run(ms[..|ms| - 1]), ms[|ms| - 1])
  {
  }

  lemma {:induction false} IdleExact(ms: seq<Message>)
    ensures Run(ms).idle == (if Idle(ms) < 0xFFFF_FFFF then Idle(ms) else 0xFFFF_FFFF)
  {
    if ms == [] {
      assert Idle(ms) == HkRequests([]);
    } else {
      var before, m := ms[..|ms| - 1], ms[|ms| - 1];
      RunSnoc(ms);
      hide Run, Step, Idle;
      IdleExact(before);
      StepLink(Run(before), m);
      IdleSnoc(before, m);
      assert before + [m] == ms;
    }
  }

  lemma LinkSnoc(ms: seq<Message>)
    requires ms != []
    ensures var m := ms[|ms| - 1];
            Run(ms).link.Aos?
            <==> m.Ground? || (Run(ms[..|ms| - 1]).link.Aos? && !(m.HkRequest? && Idle(ms) >= 10))
  {
    RunSnoc(ms);
    IdleExact(ms);
    hide Run, Step, Idle;
    StepLink(Run(ms[..|ms| - 1]), ms[|ms| - 1]);
  }

  lemma {:induction false} LinkUpExact(ms: seq<Message>)
    ensures Run(ms).link.Aos? <==> AnyCommand(ms) && Idle(ms) < 10
  {
    if ms != [] {
      var before, m := ms[..|ms| - 1], ms[|ms| - 1];
      hide Run, Idle, AnyCommand;
      LinkUpExact(before);
      LinkSnoc(ms);
      IdleSnoc(before, m);
      AnyCommandSnoc(before, m);
      assert before + [m] == ms;
    }
  }

  /**
   The link is up exactly when some ground command, valid or not, has arrived and fewer than 10 housekeeping
   requests followed the last one; the idle counter is the number of those requests, saturated.
   */
  lemma LinkExact(ms: seq<Message>)
    ensures Run(ms).idle == (if Idle(ms) < 0xFFFF_FFFF then Idle(ms) else 0xFFFF_FFFF)
    ensures Run(ms).link.Aos? <==> AnyCommand(ms) && Idle(ms) < 10
  {
    IdleExact(ms);
    LinkUpExact(ms);
  }

  lemma AnyCommandSnoc(ms: seq<Message>, m: Message)
    ensures AnyCommand(ms + [m]) <==> AnyCommand(ms) || m.Ground?
  {
    var all := ms + [m];
    if AnyCommand(ms) {
      var k :| 0 <= k < |ms| && ms[k].Ground?;
      assert all[k].Ground?;
    }
    assert all[|ms|] == m;
  }

  // --- Whole runs: rates and counters ------------------------------------------------------------

  /** The last rate accepted for a channel, or its default. */
  function LastRate(ms: seq<Message>, vc: nat): Word
    requires vc < 4
  {
    if ms == [] then [50, 20, 800, 100][vc]
    else
      var m := ms[|ms| - 1];
      if m.Ground? && m.cmd.SetRate? && m.cmd.vc == vc && m.cmd.rate <= 1000 then m.cmd.rate
      else LastRate(ms[..|ms| - 1], vc)
  }

  lemma {:induction false} RatesExact(ms: seq<Message>, vc: nat)
    requires vc < 4
    ensures Run(ms).rates[vc] == LastRate(ms, vc) <= 1000
  {
    if ms != [] {
      RatesExact(ms[..|ms| - 1], vc);
    }
  }

  predicate Counted(m: Message) {
    m.Ground? && (m.cmd.Noop? || m.cmd.ProcessTcp? || (m.cmd.SetRate? && m.cmd.vc <= 3 && m.cmd.rate <= 1000))
  }

  predicate Faulty(m: Message) {
    || m.UnknownId?
    || m.Failed?
    || (m.Ground? && (m.cmd.UnknownCode? || (m.cmd.SetRate? && (m.cmd.vc > 3 || m.cmd.rate > 1000))))
  }

  /** How many messages satisfy p since the last Reset command. */
  function SinceReset(ms: seq<Message>, p: Message -> bool): nat {
    if ms == [] || ms[|ms| - 1] == Ground(Reset) then 0
    else SinceReset(ms[..|ms| - 1], p) + if p(ms[|ms| - 1]) then 1 else 0
  }

  lemma StepCounters(s: State, m: Message)
    requires |s.rates| == NUM_VCS
    ensures Step(s, m).commands
            == (if m == Ground(Reset) then 0 else if Counted(m) then Increment(s.commands) else s.commands)
    ensures Step(s, m).errors
            == (if m == Ground(Reset) then 0 else if Faulty(m) then Increment(s.errors) else s.errors)
  {
  }

  /** The counters report accepted commands and faults since the last Reset, modulo 2^32. */
  lemma {:induction false} CountersExact(ms: seq<Message>)
    ensures Run(ms).commands == SinceReset(ms, Counted) % 0x1_0000_0000
    ensures Run(ms).errors == SinceReset(ms, Faulty) % 0x1_0000_0000
  {
    if ms != [] {
      var before := ms[..|ms| - 1];
      RunSnoc(ms);
      hide Run, Step, Increment, Counted, Faulty;
      CountersExact(before);
      StepCounters(Run(before), ms[|ms| - 1]);
      IncrementWrapped(SinceReset(before, Counted));
      IncrementWrapped(SinceReset(before, Faulty));
    }
  }

  /** The probe of the last time-correlation command. */
  function LastProbe(ms: seq<Message>): DWord {
    if ms == [] then 0
    else
      var m := ms[|ms| - 1];
      if m.Ground? && m.cmd.ProcessTcp? then m.cmd.probe else LastProbe(ms[..|ms| - 1])
  }

  lemma {:induction false} ProbeExact(ms: seq<Message>)
    ensures Run(ms).probe == LastProbe(ms)
  {
    if ms != [] {
      ProbeExact(ms[..|ms| - 1]);
    }
  }

  // --- Whole runs: what is published and emitted ---------------------------------------------------

  ghost predicate LinkUp(ms: seq<Message>) {
    AnyCommand(ms) && Idle(ms) < 10
  }

  /** The housekeeping a trace calls for. */
  ghost function HkOf(ms: seq<Message>): Housekeeping {
    Housekeeping(if LinkUp(ms) then Aos else Los,
                 [LastRate(ms, 0), LastRate(ms, 1), LastRate(ms, 2), LastRate(ms, 3)],
                 SinceReset(ms, Counted) % 0x1_0000_0000, SinceReset(ms, Faulty) % 0x1_0000_0000, LastProbe(ms))
  }

  lemma SnapshotExact(ms: seq<Message>)
    ensures Snapshot(Run(ms)) == HkOf(ms)
  {
    hide Run, Idle, AnyCommand, LastRate, SinceReset, LastProbe;
    LinkExact(ms);
    CountersExact(ms);
    ProbeExact(ms);
    forall vc: nat | vc < 4 ensures Run(ms).rates[vc] == LastRate(ms, vc) {
      RatesExact(ms, vc);
    }
  }

  /** The datagrams a trace calls for: housekeeping and rover packets cut to a frame, while the link is up. */
  ghost function Expected(ms: seq<Message>): seq<Datagram> {
    if ms == [] then []
    else
      Expected(ms[..|ms| - 1])
      + if !LinkUp(ms) then []
        else
          match ms[|ms| - 1]
          case HkRequest => [HkDatagram(HkOf(ms))]
          case Relay(bytes) => [Relayed(if |bytes| <= 1024 then bytes else bytes[..1024])]
          case _ => []
  }

  lemma StepEmitted(s: State, m: Message)
    requires |s.rates| == NUM_VCS
    ensures Step(s, m).emitted
            == s.emitted
               + if !Step(s, m).link.Aos? then []
                 else if m.HkRequest? then [HkDatagram(Snapshot(Step(s, m)))]
                 else if m.Relay? then [Relayed(if |m.bytes| <= 1024 then m.bytes else m.bytes[..1024])]
                 else []
  {
  }

  /** Exactly those datagrams go down, in order; none exceeds a frame. */
  lemma {:induction false} EmittedExact(ms: seq<Message>)
    ensures Run(ms).emitted == Expected(ms)
    ensures forall d | d in Run(ms).emitted :: d.Size() == (if d.HkDatagram? then 44 else |d.bytes|) <= 1024
  {
    if ms != [] {
      RunSnoc(ms);
      LinkExact(ms);
      SnapshotExact(ms);
      hide Run, Step, Idle, AnyCommand, Snapshot, HkOf;
      EmittedExact(ms[..|ms| - 1]);
      StepEmitted(Run(ms[..|ms| - 1]), ms[|ms| - 1]);
    }
  }

  lemma StepPublished(s: State, m: Message)
    requires |s.rates| == NUM_VCS
    ensures Step(s, m).published == s.published + if m.HkRequest? then [Snapshot(Step(s, m))] else []
  {
  }

  lemma PublishedSnoc(ms: seq<Message>)
    requires ms != []
    ensures var n := |ms| - 1;
            Run(ms).published == Run(ms[..n]).published + if ms[n].HkRequest? then [HkOf(ms)] else []
  {
    hide Step, Snapshot, HkOf;
    SnapshotExact(ms);
    StepPublished(Run(ms[..|ms| - 1]), ms[|ms| - 1]);
  }

  /** Every housekeeping request publishes one packet, with the housekeeping of the trace up to it. */
  lemma {:induction false} PublishedExact(ms: seq<Message>)
    ensures |Run(ms).published| == HkRequests(ms)
    ensures forall k | 0 <= k < |ms| && ms[k].HkRequest? ::
              HkRequests(ms[..k]) < |Run(ms).published|
              && Run(ms).published[HkRequests(ms[..k])] == HkOf(ms[..k + 1])
  {
    if ms != [] {
      var n := |ms| - 1;
      PublishedSnoc(ms);
      hide Run, HkOf;
      PublishedExact(ms[..n]);
      assert ms[..n + 1] == ms;
      forall k | 0 <= k < |ms| && ms[k].HkRequest?
        ensures HkRequests(ms[..k]) < |Run(ms).published|
        ensures Run(ms).published[HkRequests(ms[..k])] == HkOf(ms[..k + 1])
      {
        if k < n {
          assert ms[..n][..k] == ms[..k] && ms[..n][..k + 1] == ms[..k + 1];
        }
      }
    }
  }
}
