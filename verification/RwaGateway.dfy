/** The reaction-wheel CAN gateway: fragment sequencing and its poll cycle. */
module RwaGateway {
  import opened Bytes
  import opened BusMonitor

  datatype Verdict = Success | FrameFormat | FragmentLost

  predicate IsSingle(frame: seq<Byte>) {
    |frame| >= 1 && frame[0] == 0x00
  }

  predicate IsFirst(frame: seq<Byte>) {
    |frame| >= 1 && 0x10 <= frame[0] <= 0x1F
  }

  predicate IsConsecutive(frame: seq<Byte>) {
    |frame| >= 1 && 0x20 <= frame[0] <= 0x2F
  }

  function Validate(inProgress: bool, frame: seq<Byte>): Verdict {
    if IsSingle(frame) || IsFirst(frame) then Success
    else if IsConsecutive(frame) then if inProgress then Success else FragmentLost
    else FrameFormat
  }

  function OutcomeOf(inProgress: bool, p: Poll): Outcome {
    match p
    case Quiet => NoData
    case Failed => BusError
    case Received(frame) => if Validate(inProgress, frame).Success? then Valid else Corrupt
  }

  /** Assembly state after a poll: set by a First-Frame, cleared by a Single-Frame or a corrupt frame. */
  function Assembly(inProgress: bool, p: Poll): bool {
    match p
    case Quiet => inProgress
    case Failed => inProgress
    case Received(frame) =>
      if IsFirst(frame) then true
      else if IsConsecutive(frame) then inProgress
      else false
  }

  class Gateway {
    var canInProgress: bool
    var silenceCount: DWord
    var framesValid: DWord
    var framesCorrupt: DWord
    var errCounter: DWord
    ghost var silentEvents: nat
    ghost var published: seq<Housekeeping>

    ghost function View(): Monitor
      reads this
    {
      Monitor(silenceCount, Housekeeping(framesValid, framesCorrupt, errCounter), silentEvents, published)
    }

    constructor ()
      ensures View() == INITIAL && !canInProgress
    {
      canInProgress := false;
      silenceCount, framesValid, framesCorrupt, errCounter := 0, 0, 0, 0;
      silentEvents, published := 0, [];
    }

    method ValidateCanFrame(frame: seq<Byte>) returns (v: Verdict)
      modifies this`canInProgress
      ensures v == Validate(old(canInProgress), frame)
      ensures canInProgress
              == (if v.Success? then Assembly(old(canInProgress), Received(frame)) else old(canInProgress))
    {
      if |frame| < 1 {
        return FrameFormat;
      }
      var ft := frame[0];
      if ft == 0x00 {
        canInProgress := false;
        return Success;
      }
      if ft >= 0x10 && ft <= 0x1F {
        canInProgress := true;
        return Success;
      }
      if ft >= 0x20 && ft <= 0x2F {
        if !canInProgress {
          return FragmentLost;
        }
        return Success;
      }
      return FrameFormat;
    }

    method PollAndPublish(p: Poll)
      modifies this
      ensures View() == Step(old(View()), OutcomeOf(old(canInProgress), p))
      ensures canInProgress == Assembly(old(canInProgress), p)
    {
      match p {
      case Received(frame) =>
        var v := ValidateCanFrame(frame);
        if v.Success? {
          silenceCount := 0;
          framesValid := Increment(framesValid);
          published := published + [Housekeeping(framesValid, framesCorrupt, errCounter)];
        } else {
          canInProgress := false;
          framesCorrupt := Increment(framesCorrupt);
          errCounter := Increment(errCounter);
          silenceCount := Increment(silenceCount);
        }
      case Failed =>
        errCounter := Increment(errCounter);
        silenceCount := Increment(silenceCount);
      case Quiet =>
        silenceCount := Increment(silenceCount);
      }
      if silenceCount >= SILENCE_CYCLES {
        silentEvents := silentEvents + 1;
        silenceCount := 0;
      }
    }

    /** Reading the command pipe; a forwarded command or a timeout changes nothing. */
    method DrainPipe(failed: bool)
      modifies this`errCounter
      ensures View() == DrainStep(old(View()), failed)
    {
      if failed {
        errCounter := Increment(errCounter);
      }
    }

    /** A run of the application loop. */
    method RunCycles(pipe: seq<bool>, ps: seq<Poll>)
      requires |pipe| == |ps| && View() == INITIAL && !canInProgress
      modifies this
      ensures View() == BusMonitor.Run(INITIAL, pipe, Outcomes(ps))
    {
      for i := 0 to |ps|
        invariant View() == BusMonitor.Run(INITIAL, pipe[..i], Outcomes(ps[..i]))
        invariant canInProgress == InProgress(ps[..i])
      {
        assert ps[..i + 1][..i] == ps[..i] && pipe[..i + 1][..i] == pipe[..i];
        DrainPipe(pipe[i]);
        PollAndPublish(ps[i]);
      }
      assert ps[..|ps|] == ps && pipe[..|ps|] == pipe;
    }
  }

  // --- Whole runs -------------------------------------------------------------------

  /** Assembly state after a run of polls from initialisation. */
  function InProgress(ps: seq<Poll>): bool {
    if ps == [] then false else Assembly(InProgress(ps[..|ps| - 1]), ps[|ps| - 1])
  }

  function Outcomes(ps: seq<Poll>): (os: seq<Outcome>)
    ensures |os| == |ps|
  {
    if ps == [] then []
    else Outcomes(ps[..|ps| - 1]) + [OutcomeOf(InProgress(ps[..|ps| - 1]), ps[|ps| - 1])]
  }

  // The frame kinds by the upper half of the type byte.

  predicate SingleFrame(frame: seq<Byte>) {
    |frame| >= 1 && frame[0] == 0
  }

  predicate FirstFrame(frame: seq<Byte>) {
    |frame| >= 1 && frame[0] / 0x10 == 1
  }

  predicate ConsecutiveFrame(frame: seq<Byte>) {
    |frame| >= 1 && frame[0] / 0x10 == 2
  }

  lemma Kinds(frame: seq<Byte>)
    ensures IsSingle(frame) == SingleFrame(frame)
    ensures IsFirst(frame) == FirstFrame(frame)
    ensures IsConsecutive(frame) == ConsecutiveFrame(frame)
  {
  }

  /** Polls that leave a started assembly alone. */
  predicate KeepsAssembly(p: Poll) {
    p.Received? ==> FirstFrame(p.frame) || ConsecutiveFrame(p.frame)
  }

  predicate Starts(p: Poll) {
    p.Received? && FirstFrame(p.frame)
  }

  /** A First-Frame arrived before poll k, and nothing ended the assembly since. */
  ghost predicate Started(ps: seq<Poll>, k: nat)
    requires k <= |ps|
  {
    exists i: nat :: i < k && Starts(ps[i]) && Unbroken(ps, i + 1, k)
  }

  ghost predicate Unbroken(ps: seq<Poll>, from: nat, to: nat)
    requires to <= |ps|
  {
    forall j | from <= j < to :: KeepsAssembly(ps[j])
  }

  lemma StartedStep(ps: seq<Poll>, k: nat)
    requires k < |ps|
    ensures Started(ps, k + 1) <==> Starts(ps[k]) || (KeepsAssembly(ps[k]) && Started(ps, k))
  {
    if Starts(ps[k]) {
      assert Unbroken(ps, k + 1, k + 1);
    }
    if KeepsAssembly(ps[k]) && Started(ps, k) {
      var i: nat :| i < k && Starts(ps[i]) && Unbroken(ps, i + 1, k);
      assert Unbroken(ps, i + 1, k + 1);
    }
    if Started(ps, k + 1) {
      var i: nat :| i < k + 1 && Starts(ps[i]) && Unbroken(ps, i + 1, k + 1);
      if i < k {
        assert KeepsAssembly(ps[k]) && Unbroken(ps, i + 1, k);
      }
    }
  }

  lemma {:induction false} InProgressExact(ps: seq<Poll>, k: nat)
    requires k <= |ps|
    ensures InProgress(ps[..k]) <==> Started(ps, k)
  {
    if k > 0 {
      InProgressExact(ps, k - 1);
      StartedStep(ps, k - 1);
      assert ps[..k][..k - 1] == ps[..k - 1];
      if ps[k - 1].Received? {
        Kinds(ps[k - 1].frame);
      }
    }
  }

  lemma {:induction false} OutcomesAt(ps: seq<Poll>, k: nat)
    requires k < |ps|
    ensures Outcomes(ps)[k] == OutcomeOf(InProgress(ps[..k]), ps[k])
    decreases |ps|
  {
    if k < |ps| - 1 {
      OutcomesAt(ps[..|ps| - 1], k);
      assert ps[..|ps| - 1][..k] == ps[..k];
    }
  }

  /**
   In any run, a Consecutive-Frame is accepted exactly when a First-Frame came earlier with only First- or
   Consecutive-Frames, quiet polls and bus errors in between.
   */
  lemma ConsecutiveExact(ps: seq<Poll>, k: nat)
    requires k < |ps| && ps[k].Received? && ConsecutiveFrame(ps[k].frame)
    ensures Outcomes(ps)[k] == (if Started(ps, k) then Valid else Corrupt)
  {
    OutcomesAt(ps, k);
    InProgressExact(ps, k);
    Kinds(ps[k].frame);
  }

  /** Every other poll has an outcome of its own, whatever came before. */
  lemma OtherOutcomes(ps: seq<Poll>, k: nat)
    requires k < |ps| && !(ps[k].Received? && ConsecutiveFrame(ps[k].frame))
    ensures Outcomes(ps)[k]
            == (if ps[k].Quiet? then NoData else if ps[k].Failed? then BusError
                else if SingleFrame(ps[k].frame) || FirstFrame(ps[k].frame) then Valid else Corrupt)
  {
    OutcomesAt(ps, k);
    if ps[k].Received? {
      Kinds(ps[k].frame);
    }
  }

  // --- Whole runs: what counts, and what is published ---------------------------------------------

  /** Poll k received a frame that fits the run so far. */
  ghost predicate Accepted(ps: seq<Poll>, k: nat)
    requires k < |ps|
  {
    && ps[k].Received?
    && (SingleFrame(ps[k].frame) || FirstFrame(ps[k].frame) || (ConsecutiveFrame(ps[k].frame) && Started(ps, k)))
  }

  lemma OutcomesExact(ps: seq<Poll>, k: nat)
    requires k < |ps|
    ensures Outcomes(ps)[k] == Valid <==> Accepted(ps, k)
    ensures Outcomes(ps)[k] == Corrupt <==> ps[k].Received? && !Accepted(ps, k)
    ensures Outcomes(ps)[k] == BusError <==> ps[k].Failed?
    ensures Outcomes(ps)[k] == NoData <==> ps[k].Quiet?
  {
    hide Started, Outcomes;
    if ps[k].Received? && ConsecutiveFrame(ps[k].frame) {
      ConsecutiveExact(ps, k);
    } else {
      OtherOutcomes(ps, k);
    }
  }

  /** How many of the first k polls were accepted, refused, or failed. */
  ghost function Acceptances(ps: seq<Poll>, k: nat): nat
    requires k <= |ps|
  {
    if k == 0 then 0 else Acceptances(ps, k - 1) + if Accepted(ps, k - 1) then 1 else 0
  }

  ghost function Refusals(ps: seq<Poll>, k: nat): nat
    requires k <= |ps|
  {
    if k == 0 then 0 else Refusals(ps, k - 1) + if ps[k - 1].Received? && !Accepted(ps, k - 1) then 1 else 0
  }

  function BusFailures(ps: seq<Poll>, k: nat): nat
    requires k <= |ps|
  {
    if k == 0 then 0 else BusFailures(ps, k - 1) + if ps[k - 1].Failed? then 1 else 0
  }

  lemma {:induction false} OutcomeCounts(ps: seq<Poll>, k: nat)
    requires k <= |ps|
    ensures Occurrences(Outcomes(ps)[..k], Valid) == Acceptances(ps, k)
    ensures Occurrences(Outcomes(ps)[..k], Corrupt) == Refusals(ps, k)
    ensures Occurrences(Outcomes(ps)[..k], BusError) == BusFailures(ps, k)
  {
    if k > 0 {
      hide Outcomes, Accepted;
      OutcomeCounts(ps, k - 1);
      OutcomesExact(ps, k - 1);
      assert Outcomes(ps)[..k][..k - 1] == Outcomes(ps)[..k - 1];
    }
  }

  /** The housekeeping that the first k cycles of a run call for. */
  ghost function HkAfter(pipe: seq<bool>, ps: seq<Poll>, k: nat): Housekeeping
    requires k <= |ps| == |pipe|
  {
    Housekeeping(Acceptances(ps, k) % 0x1_0000_0000, Refusals(ps, k) % 0x1_0000_0000,
                 (Refusals(ps, k) + BusFailures(ps, k) + Failures(pipe[..k])) % 0x1_0000_0000)
  }

  /**
   Over any run of the application loop, one packet is published for each accepted frame, with the numbers of
   acceptances, refusals and errors up to it; no other poll publishes.
   */
  lemma GatewayPublishes(pipe: seq<bool>, ps: seq<Poll>)
    requires |pipe| == |ps|
    ensures var m := BusMonitor.Run(INITIAL, pipe, Outcomes(ps));
            && m.hk == HkAfter(pipe, ps, |ps|)
            && |m.published| == Acceptances(ps, |ps|)
            && forall k | 0 <= k < |ps| && Accepted(ps, k) ::
                 Acceptances(ps, k) < |m.published| && m.published[Acceptances(ps, k)] == HkAfter(pipe, ps, k + 1)
  {
    hide Outcomes, Accepted, Acceptances, HkAfter, BusMonitor.HkOf, BusMonitor.Run;
    var os := Outcomes(ps);
    BusMonitor.CountersExact(pipe, os);
    BusMonitor.PublishedExact(pipe, os);
    OutcomeCounts(ps, |ps|);
    HkExact(pipe, ps, |ps|);
    assert os[..|os|] == os && pipe[..|pipe|] == pipe;
    var m := BusMonitor.Run(INITIAL, pipe, os);
    forall k | 0 <= k < |ps| && Accepted(ps, k)
      ensures Acceptances(ps, k) < |m.published|
      ensures m.published[Acceptances(ps, k)] == HkAfter(pipe, ps, k + 1)
    {
      OutcomesExact(ps, k);
      OutcomeCounts(ps, k);
      HkExact(pipe, ps, k + 1);
    }
  }

  lemma HkExact(pipe: seq<bool>, ps: seq<Poll>, k: nat)
    requires k <= |ps| == |pipe|
    ensures BusMonitor.HkOf(pipe[..k], Outcomes(ps)[..k]) == HkAfter(pipe, ps, k)
  {
    hide Outcomes, Acceptances, Refusals, BusFailures, Failures;
    OutcomeCounts(ps, k);
  }
}
