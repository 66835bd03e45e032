/**
 The bookkeeping shared by the bus gateways: frame counters, the bus-silence counter, and the housekeeping
 packets published after valid frames.
 */
module BusMonitor {
  import opened Bytes

  const SILENCE_CYCLES := 3

  /** What the bus driver reports. */
  datatype Poll = Quiet | Failed | Received(frame: seq<Byte>)

  /** What a poll brought. */
  datatype Outcome = Valid | Corrupt | BusError | NoData

  datatype Housekeeping = Housekeeping(framesValid: DWord, framesCorrupt: DWord, errCounter: DWord)

  datatype Monitor = Monitor(
    silence: DWord,
    hk: Housekeeping,
    silentEvents: nat,                // events raised
    published: seq<Housekeeping>      // packets sent to the software bus
  )

  const INITIAL := Monitor(0, Housekeeping(0, 0, 0), 0, [])

  /** The counters before the silence check at the end of the cycle. */
  function Count(m: Monitor, o: Outcome): Monitor {
    match o
    case Valid =>
      var hk := m.hk.(framesValid := Increment(m.hk.framesValid));
      m.(silence := 0, hk := hk, published := m.published + [hk])
    case Corrupt =>
      m.(silence := Increment(m.silence),
         hk := m.hk.(framesCorrupt := Increment(m.hk.framesCorrupt), errCounter := Increment(m.hk.errCounter)))
    case BusError =>
      m.(silence := Increment(m.silence), hk := m.hk.(errCounter := Increment(m.hk.errCounter)))
    case NoData =>
      m.(silence := Increment(m.silence))
  }

  function Step(m: Monitor, o: Outcome): Monitor {
    var n := Count(m, o);
    if n.silence >= SILENCE_CYCLES then n.(silence := 0, silentEvents := n.silentEvents + 1) else n
  }

  /** The read of the command pipe at the start of a cycle; a failed one counts as an error. */
  function DrainStep(m: Monitor, failed: bool): Monitor {
    if failed then m.(hk := m.hk.(errCounter := Increment(m.hk.errCounter))) else m
  }

  /** Cycles of the application loop: cycle k reads the pipe, which fails or not, and then polls the bus. */
  function Run(m: Monitor, pipe: seq<bool>, os: seq<Outcome>): Monitor
    requires |pipe| == |os|
  {
    if os == [] then m
    else
      var n := |os| - 1;
      Step(DrainStep(Run(m, pipe[..n], os[..n]), pipe[n]), os[n])
  }

  function Occurrences(os: seq<Outcome>, o: Outcome): nat {
    if os == [] then 0 else Occurrences(os[..|os| - 1], o) + if os[|os| - 1] == o then 1 else 0
  }

  function Failures(pipe: seq<bool>): nat {
    if pipe == [] then 0 else Failures(pipe[..|pipe| - 1]) + if pipe[|pipe| - 1] then 1 else 0
  }

  /** Polls since the last valid frame, or since the start if there was none. */
  function QuietPolls(os: seq<Outcome>): (n: nat)
    ensures n <= |os|
    ensures forall i | |os| - n <= i < |os| :: os[i] != Valid
    ensures n < |os| ==> os[|os| - n - 1] == Valid
  {
    if os == [] || os[|os| - 1] == Valid then 0 else 1 + QuietPolls(os[..|os| - 1])
  }

  // --- Whole runs -----------------------------------------------------------------

  /** The housekeeping that a run calls for. */
  function HkOf(pipe: seq<bool>, os: seq<Outcome>): Housekeeping {
    Housekeeping(Occurrences(os, Valid) % 0x1_0000_0000,
                 Occurrences(os, Corrupt) % 0x1_0000_0000,
                 (Occurrences(os, Corrupt) + Occurrences(os, BusError) + Failures(pipe)) % 0x1_0000_0000)
  }

  lemma StepHk(m: Monitor, o: Outcome)
    ensures Step(m, o).hk
            == Housekeeping(if o == Valid then Increment(m.hk.framesValid) else m.hk.framesValid,
                            if o == Corrupt then Increment(m.hk.framesCorrupt) else m.hk.framesCorrupt,
                            if o == Corrupt || o == BusError then Increment(m.hk.errCounter) else m.hk.errCounter)
    ensures Step(m, o).published == m.published + if o == Valid then [Step(m, o).hk] else []
  {
  }

  /** The counters are numbers of cycles of their kind, modulo 2^32. */
  lemma {:induction false} CountersExact(pipe: seq<bool>, os: seq<Outcome>)
    requires |pipe| == |os|
    ensures Run(INITIAL, pipe, os).hk == HkOf(pipe, os)
  {
    if os != [] {
      var n := |os| - 1;
      CountersExact(pipe[..n], os[..n]);
      var errors := Occurrences(os[..n], Corrupt) + Occurrences(os[..n], BusError) + Failures(pipe[..n]);
      StepHk(DrainStep(Run(INITIAL, pipe[..n], os[..n]), pipe[n]), os[n]);
      hide Increment, Step;
      IncrementWrapped(Occurrences(os[..n], Valid));
      IncrementWrapped(Occurrences(os[..n], Corrupt));
      IncrementWrapped(errors);
      IncrementWrapped(errors + 1);
    }
  }

  lemma RunSnoc(pipe: seq<bool>, os: seq<Outcome>)
    requires |pipe| == |os| > 0
    ensures var n := |os| - 1;
            var before := Run(INITIAL, pipe[..n], os[..n]);
            Run(INITIAL, pipe, os).published
            == before.published + if os[n] == Valid then [Run(INITIAL, pipe, os).hk] else []
  {
    var n := |os| - 1;
    StepHk(DrainStep(Run(INITIAL, pipe[..n], os[..n]), pipe[n]), os[n]);
  }

  /** Each valid frame publishes one packet, with the housekeeping of the run up to it; nothing else publishes. */
  lemma {:induction false} PublishedExact(pipe: seq<bool>, os: seq<Outcome>)
    requires |pipe| == |os|
    ensures |Run(INITIAL, pipe, os).published| == Occurrences(os, Valid)
    ensures forall k | 0 <= k < |os| && os[k] == Valid ::
              Occurrences(os[..k], Valid) < |Run(INITIAL, pipe, os).published|
              && Run(INITIAL, pipe, os).published[Occurrences(os[..k], Valid)] == HkOf(pipe[..k + 1], os[..k + 1])
  {
    if os != [] {
      var n := |os| - 1;
      RunSnoc(pipe, os);
      CountersExact(pipe, os);
      hide Run, HkOf;
      PublishedExact(pipe[..n], os[..n]);
      assert pipe[..n + 1] == pipe && os[..n + 1] == os;
      forall k | 0 <= k < |os| && os[k] == Valid
        ensures Occurrences(os[..k], Valid) < |Run(INITIAL, pipe, os).published|
        ensures Run(INITIAL, pipe, os).published[Occurrences(os[..k], Valid)] == HkOf(pipe[..k + 1], os[..k + 1])
      {
        if k < n {
          assert os[..n][..k] == os[..k] && os[..n][..k + 1] == os[..k + 1] && pipe[..n][..k + 1] == pipe[..k + 1];
        }
      }
    }
  }

  /** Valid and corrupt frames together account for every poll that delivered a frame. */
  lemma FramesAccounted(pipe: seq<bool>, os: seq<Outcome>)
    requires |pipe| == |os|
    ensures var hk := Run(INITIAL, pipe, os).hk;
            (hk.framesValid + hk.framesCorrupt) % 0x1_0000_0000
            == (Occurrences(os, Valid) + Occurrences(os, Corrupt)) % 0x1_0000_0000
  {
    CountersExact(pipe, os);
    ModAdd(Occurrences(os, Valid), Occurrences(os, Corrupt));
  }

  lemma ModAdd(a: nat, b: nat)
    ensures (a % WRAP32 + b % WRAP32) % WRAP32 == (a + b) % WRAP32
  {
    assert a + b == (a / WRAP32 + b / WRAP32) * WRAP32 + (a % WRAP32 + b % WRAP32);
  }

  lemma QuietStep(m: Monitor, o: Outcome, quiet: nat)
    requires o != Valid && m.silence == quiet % SILENCE_CYCLES
    ensures Step(m, o).silence == (quiet + 1) % SILENCE_CYCLES
    ensures Step(m, o).silentEvents - m.silentEvents == (quiet + 1) / SILENCE_CYCLES - quiet / SILENCE_CYCLES
  {
  }

  /** Since the last valid frame, one silence event was raised for every three polls. */
  lemma {:induction false} SilenceExact(pipe: seq<bool>, os: seq<Outcome>)
    requires |pipe| == |os|
    ensures var quiet := QuietPolls(os);
            var n := |os| - quiet;
            && Run(INITIAL, pipe, os).silence == quiet % 3
            && Run(INITIAL, pipe, os).silentEvents
               == Run(INITIAL, pipe[..n], os[..n]).silentEvents + quiet / 3
            && Run(INITIAL, [], []).silentEvents == 0
  {
    var quiet, n := QuietPolls(os), |os| - 1;
    if quiet == 0 {
      assert os[..|os|] == os && pipe[..|os|] == pipe;
    } else {
      SilenceExact(pipe[..n], os[..n]);
      hide Step;
      QuietStep(DrainStep(Run(INITIAL, pipe[..n], os[..n]), pipe[n]), os[n], quiet - 1);
      assert os[..n][..n - (quiet - 1)] == os[..|os| - quiet];
      assert pipe[..n][..n - (quiet - 1)] == pipe[..|os| - quiet];
    }
  }
}
