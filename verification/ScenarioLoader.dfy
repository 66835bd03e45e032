/** Reading a fault scenario, line by line. */
module ScenarioLoader {
  import opened Wrappers
  import opened Bytes
  import opened SppEncoder

  /** The integer-valued fault fields. */
  datatype Field =
    | LinkId | DropProbability | DropDuration | AssetClass | InstanceId | OffsetMs | RatePpm | ClockDuration
    | TriggerReason | SensorIndex | NoiseModel | NoiseParam1 | NoiseParam2 | NoiseDuration

  /** A key with its value. A number is None if the text does not start with one. */
  datatype Content =
    | ScenarioKey(name: string)
    | FaultsKey
    | TypeKey(faultType: Option<FaultType>)   // None: not one of the four names
    | OffsetKey(seconds: Option<real>)
    | FieldKey(field: Field, number: Option<int>)
    | OtherKey

  /** Blank stands for blank lines, comments and lines without a key. */
  datatype Line = Blank | Entry(listItem: bool, content: Content)

  datatype LoadResult = Loaded | UnknownFaultType | NameMissing | ConversionThrew

  // --- Field conversion ----------------------------------------------------------------------

  predicate Signed(f: Field) {
    f.OffsetMs? || f.RatePpm? || f.NoiseParam1? || f.NoiseParam2?
  }

  /** One more than the largest value of an unsigned field. */
  function Width(f: Field): (w: nat)
    ensures w > 0
  {
    match f
    case LinkId => 0x100
    case AssetClass => 0x100
    case InstanceId => 0x100
    case NoiseModel => 0x100
    case DropProbability => 0x1_0000
    case TriggerReason => 0x1_0000
    case SensorIndex => 0x1_0000
    case _ => 0x1_0000_0000
  }

  /** Whether the library conversion of a number for this field returns rather than throws. */
  predicate Converts(f: Field, v: Option<int>) {
    && v.Some?
    && if Signed(f) then -0x8000_0000 <= v.value < 0x8000_0000
       else -0x1_0000_0000_0000_0000 < v.value < 0x1_0000_0000_0000_0000
  }

  /** The value stored: unsigned conversions wrap and are then cut to the field's width. */
  function Stored(f: Field, v: int): int {
    if Signed(f) then v else v % Width(f)
  }

  function Fresh(t: FaultType): FaultEvent {
    FaultEvent(t, 0.0, 0, 0, 0, 0, 0, 0, 0, 0, 0, 0, 0, 0, 0, 0, false)
  }

  function Get(ev: FaultEvent, f: Field): int {
    match f
    case LinkId => ev.linkId
    case DropProbability => ev.dropProbability
    case DropDuration => ev.dropDuration
    case AssetClass => ev.assetClass
    case InstanceId => ev.instanceId
    case OffsetMs => ev.offsetMs
    case RatePpm => ev.ratePpm
    case ClockDuration => ev.clockDuration
    case TriggerReason => ev.triggerReason
    case SensorIndex => ev.sensorIndex
    case NoiseModel => ev.noiseModel
    case NoiseParam1 => ev.noiseParam1
    case NoiseParam2 => ev.noiseParam2
    case NoiseDuration => ev.noiseDuration
  }

  function Set(ev: FaultEvent, f: Field, v: int): FaultEvent
    requires Converts(f, Some(v))
  {
    match f
    case LinkId => ev.(linkId := v % 0x100)
    case DropProbability => ev.(dropProbability := v % 0x1_0000)
    case DropDuration => ev.(dropDuration := v % 0x1_0000_0000)
    case AssetClass => ev.(assetClass := v % 0x100)
    case InstanceId => ev.(instanceId := v % 0x100)
    case OffsetMs => ev.(offsetMs := v)
    case RatePpm => ev.(ratePpm := v)
    case ClockDuration => ev.(clockDuration := v % 0x1_0000_0000)
    case TriggerReason => ev.(triggerReason := v % 0x1_0000)
    case SensorIndex => ev.(sensorIndex := v % 0x1_0000)
    case NoiseModel => ev.(noiseModel := v % 0x100)
    case NoiseParam1 => ev.(noiseParam1 := v)
    case NoiseParam2 => ev.(noiseParam2 := v)
    case NoiseDuration => ev.(noiseDuration := v % 0x1_0000_0000)
  }

  lemma GetFields(ev: FaultEvent)
    ensures Get(ev, LinkId) == ev.linkId && Get(ev, DropProbability) == ev.dropProbability
    ensures Get(ev, DropDuration) == ev.dropDuration && Get(ev, AssetClass) == ev.assetClass
    ensures Get(ev, InstanceId) == ev.instanceId && Get(ev, OffsetMs) == ev.offsetMs
    ensures Get(ev, RatePpm) == ev.ratePpm && Get(ev, ClockDuration) == ev.clockDuration
    ensures Get(ev, TriggerReason) == ev.triggerReason && Get(ev, SensorIndex) == ev.sensorIndex
    ensures Get(ev, NoiseModel) == ev.noiseModel && Get(ev, NoiseParam1) == ev.noiseParam1
    ensures Get(ev, NoiseParam2) == ev.noiseParam2 && Get(ev, NoiseDuration) == ev.noiseDuration
  {
  }

  lemma SetGet(ev: FaultEvent, f: Field, v: int, g: Field)
    requires Converts(f, Some(v))
    ensures Get(Set(ev, f, v), g) == (if f == g then Stored(f, v) else Get(ev, g))
    ensures Set(ev, f, v).faultType == ev.faultType && Set(ev, f, v).at == ev.at
    ensures Set(ev, f, v).emitted == ev.emitted
  {
  }

  /**
   Which numbers a field takes, and what it stores: four fields take 32-bit signed numbers as they are; the others
   take whatever an unsigned long conversion takes and keep the low 8, 16 or 32 bits. Text without a number throws.
   */
  lemma FieldTable(f: Field, v: int)
    ensures !Converts(f, None)
    ensures match f
            case OffsetMs => Converts(f, Some(v)) <==> -0x8000_0000 <= v <= 0x7FFF_FFFF
            case RatePpm => Converts(f, Some(v)) <==> -0x8000_0000 <= v <= 0x7FFF_FFFF
            case NoiseParam1 => Converts(f, Some(v)) <==> -0x8000_0000 <= v <= 0x7FFF_FFFF
            case NoiseParam2 => Converts(f, Some(v)) <==> -0x8000_0000 <= v <= 0x7FFF_FFFF
            case _ => Converts(f, Some(v)) <==> -0xFFFF_FFFF_FFFF_FFFF <= v <= 0xFFFF_FFFF_FFFF_FFFF
    ensures match f
            case OffsetMs => Stored(f, v) == v
            case RatePpm => Stored(f, v) == v
            case NoiseParam1 => Stored(f, v) == v
            case NoiseParam2 => Stored(f, v) == v
            case LinkId => Stored(f, v) == v % 0x100
            case AssetClass => Stored(f, v) == v % 0x100
            case InstanceId => Stored(f, v) == v % 0x100
            case NoiseModel => Stored(f, v) == v % 0x100
            case DropProbability => Stored(f, v) == v % 0x1_0000
            case TriggerReason => Stored(f, v) == v % 0x1_0000
            case SensorIndex => Stored(f, v) == v % 0x1_0000
            case DropDuration => Stored(f, v) == v % 0x1_0000_0000
            case ClockDuration => Stored(f, v) == v % 0x1_0000_0000
            case NoiseDuration => Stored(f, v) == v % 0x1_0000_0000
  {
  }

  // --- What a scenario means ---------------------------------------------------------------

  predicate StartsFault(l: Line) {
    l.Entry? && l.listItem && l.content.TypeKey?
  }

  /** A field line inside a fault that fails to convert. */
  predicate Throws(l: Line) {
    && l.Entry?
    && ((l.content.OffsetKey? && l.content.seconds.None?)
        || (l.content.FieldKey? && !Converts(l.content.field, l.content.number)))
  }

  /** Positions of the "- type:" lines among the first n. */
  function Starts(lines: seq<Line>, n: nat): (ps: seq<nat>)
    requires n <= |lines|
    ensures forall i | 0 <= i < |ps| :: ps[i] < n && StartsFault(lines[ps[i]])
    ensures forall i, j | 0 <= i < j < |ps| :: ps[i] < ps[j]
  {
    if n == 0 then []
    else if StartsFault(lines[n - 1]) then Starts(lines, n - 1) + [n - 1]
    else Starts(lines, n - 1)
  }

  /** Every "- type:" line is among the starts. */
  lemma {:induction false} StartsComplete(lines: seq<Line>, n: nat, p: nat)
    requires p < n <= |lines| && StartsFault(lines[p])
    ensures p in Starts(lines, n)
  {
    var ps := Starts(lines, n);
    if p == n - 1 {
      assert ps[|ps| - 1] == p;
    } else {
      StartsComplete(lines, n - 1, p);
    }
  }

  /** The last value assigned to a field by lines lo to hi, or zero. */
  function LastField(lines: seq<Line>, lo: nat, hi: nat, f: Field): int
    requires hi <= |lines|
  {
    if hi <= lo then 0
    else
      match lines[hi - 1]
      case Entry(_, FieldKey(g, Some(v))) =>
        if g == f then Stored(f, v) else LastField(lines, lo, hi - 1, f)
      case _ => LastField(lines, lo, hi - 1, f)
  }

  function LastOffset(lines: seq<Line>, lo: nat, hi: nat): real
    requires hi <= |lines|
  {
    if hi <= lo then 0.0
    else
      match lines[hi - 1]
      case Entry(_, OffsetKey(Some(v))) => v
      case _ => LastOffset(lines, lo, hi - 1)
  }

  function LastName(lines: seq<Line>, n: nat): string
    requires n <= |lines|
  {
    if n == 0 then ""
    else
      match lines[n - 1]
      case Entry(_, ScenarioKey(name)) => name
      case _ => LastName(lines, n - 1)
  }

  /** A line that stops the load: an unknown fault type, or a conversion that throws once a fault has started. */
  ghost predicate Stops(lines: seq<Line>, n: nat)
    requires n < |lines|
  {
    || (StartsFault(lines[n]) && lines[n].content.faultType.None?)
    || (Throws(lines[n]) && Starts(lines, n) != [])
  }

  ghost predicate Clean(lines: seq<Line>, n: nat)
    requires n <= |lines|
  {
    forall i | 0 <= i < n :: !Stops(lines, i)
  }

  /** The fault that starts at line p, as lines p + 1 to q leave it. */
  function Built(lines: seq<Line>, p: nat, q: nat): FaultEvent
    requires p < q <= |lines| && StartsFault(lines[p]) && lines[p].content.faultType.Some?
    decreases q
  {
    if q == p + 1 then Fresh(lines[p].content.faultType.value)
    else Assign(Built(lines, p, q - 1), lines[q - 1])
  }

  function Assign(ev: FaultEvent, l: Line): FaultEvent {
    match l
    case Entry(_, OffsetKey(Some(v))) => ev.(at := v)
    case Entry(_, FieldKey(f, v)) => if Converts(f, v) then Set(ev, f, v.value) else ev
    case _ => ev
  }

  /** Where fault i of the first n lines ends: at the next start, or at line n. */
  function End(ps: seq<nat>, i: nat, n: nat): nat {
    if i + 1 < |ps| then ps[i + 1] else n
  }

  /** Faults of the first n lines, the last one still open. */
  ghost function FaultsOf(lines: seq<Line>, n: nat): (fs: seq<FaultEvent>)
    requires n <= |lines| && Clean(lines, n)
    ensures |fs| == |Starts(lines, n)|
    decreases n
  {
    if n == 0 then []
    else
      assert !Stops(lines, n - 1);
      var before := FaultsOf(lines, n - 1);
      if StartsFault(lines[n - 1]) then before + [Fresh(lines[n - 1].content.faultType.value)]
      else if before == [] then []
      else before[|before| - 1 := Assign(before[|before| - 1], lines[n - 1])]
  }

  lemma NoLines(lines: seq<Line>)
    ensures Clean(lines, 0)
  {
  }

  lemma NextLine(lines: seq<Line>, n: nat)
    requires n < |lines| && Clean(lines, n) && !Stops(lines, n)
    ensures Clean(lines, n + 1)
    ensures StartsFault(lines[n]) ==> lines[n].content.faultType.Some?
    ensures Starts(lines, n + 1) != [] <==> StartsFault(lines[n]) || Starts(lines, n) != []
    ensures FaultsOf(lines, n + 1)
            == var before := FaultsOf(lines, n);
               if StartsFault(lines[n]) then before + [Fresh(lines[n].content.faultType.value)]
               else if before == [] then []
               else before[|before| - 1 := Assign(before[|before| - 1], lines[n])]
    ensures LastName(lines, n + 1)
            == if lines[n].Entry? && lines[n].content.ScenarioKey? then lines[n].content.name else LastName(lines, n)
  {
    hide Assign, Fresh;
  }

  class Loader {
    var name: string
    var faults: seq<FaultEvent>

    constructor ()
      ensures name == "" && faults == []
    {
      name, faults := "", [];
    }

    /** A load that stops at line n loses the fault that was open when a conversion threw. */
    method LoadScenario(lines: seq<Line>) returns (r: LoadResult)
      modifies this
      ensures Clean(lines, |lines|)
              ==> name == LastName(lines, |lines|) && faults == FaultsOf(lines, |lines|)
                  && r == (if name == "" then NameMissing else Loaded)
      ensures !Clean(lines, |lines|)
              ==> exists n ::
                    && 0 <= n < |lines| && Clean(lines, n) && Stops(lines, n)
                    && name == LastName(lines, n)
                    && if StartsFault(lines[n]) then r == UnknownFaultType && faults == FaultsOf(lines, n)
                       else r == ConversionThrew && faults == FaultsOf(lines, n)[..|FaultsOf(lines, n)| - 1]
    {
      name, faults := "", [];
      var current := Fresh(PacketDrop);
      var inFault := false;
      assert LastName(lines, 0) == "" && FaultsOf(lines, 0) == [] && Starts(lines, 0) == [];
      hide FaultsOf, Starts, LastName, Clean, Set, Converts, Fresh;
      assert Clean(lines, 0) by { NoLines(lines); }
      for n := 0 to |lines|
        invariant Clean(lines, n) && name == LastName(lines, n)
        invariant inFault <==> Starts(lines, n) != []
        invariant faults + (if inFault then [current] else []) == FaultsOf(lines, n)
      {
        match lines[n] {
          case Blank =>
          case Entry(listItem, content) =>
            if content.ScenarioKey? {
              name := content.name;
            } else if content.FaultsKey? {
            } else if listItem && content.TypeKey? {
              if inFault {
                faults := faults + [current];
              }
              inFault := true;
              if content.faultType.None? {
                assert Stops(lines, n);
                return UnknownFaultType;
              }
              current := Fresh(content.faultType.value);
            } else if inFault {
              match content {
                case OffsetKey(v) =>
                  if v.None? {
                    assert Stops(lines, n);
                    return ConversionThrew;
                  }
                  current := current.(at := v.value);
                case FieldKey(f, v) =>
                  if !Converts(f, v) {
                    assert Stops(lines, n);
                    return ConversionThrew;
                  }
                  current := Set(current, f, v.value);
                case _ =>
              }
            }
        }
        NextLine(lines, n);
      }
      if inFault {
        faults := faults + [current];
      }
      if name == "" {
        return NameMissing;
      }
      return Loaded;
    }
  }

  // --- The accumulated faults are a split of the file ----------------------------------------

  lemma {:induction false} FaultsBuilt(lines: seq<Line>, n: nat, i: nat)
    requires n <= |lines| && Clean(lines, n) && i < |Starts(lines, n)|
    ensures var ps := Starts(lines, n);
            lines[ps[i]].content.faultType.Some?
            && FaultsOf(lines, n)[i] == Built(lines, ps[i], End(ps, i, n))
  {
    var ps := Starts(lines, n);
    assert !Stops(lines, n - 1);
    NextLine(lines, n - 1);
    hide FaultsOf, Assign, Fresh, Stops, Throws;
    if StartsFault(lines[n - 1]) {
      if i < |ps| - 1 {
        FaultsBuilt(lines, n - 1, i);
      }
    } else {
      FaultsBuilt(lines, n - 1, i);
    }
  }

  lemma {:induction false} BuiltFields(lines: seq<Line>, p: nat, q: nat, f: Field)
    requires p < q <= |lines| && StartsFault(lines[p]) && lines[p].content.faultType.Some?
    requires forall k | p < k < q :: !Throws(lines[k])
    ensures var ev := Built(lines, p, q);
            && Get(ev, f) == LastField(lines, p + 1, q, f)
            && ev.at == LastOffset(lines, p + 1, q)
            && ev.faultType == lines[p].content.faultType.value
            && !ev.emitted
    decreases q
  {
    if q > p + 1 {
      BuiltFields(lines, p, q - 1, f);
      var l, ev := lines[q - 1], Built(lines, p, q - 1);
      if l.Entry? && l.content.FieldKey? {
        SetGet(ev, l.content.field, l.content.number.value, f);
      } else if l.Entry? && l.content.OffsetKey? {
        OffsetKeepsFields(ev, l.content.seconds.value, f);
      }
    }
  }

  lemma OffsetKeepsFields(ev: FaultEvent, t: real, f: Field)
    ensures Get(ev.(at := t), f) == Get(ev, f)
  {
  }

  /**
   A clean file yields one fault per "- type:" line, in file order; each field is the last value assigned
   between that line and the next such line, or zero.
   */
  lemma LoadIsSplit(lines: seq<Line>, i: nat, f: Field)
    requires Clean(lines, |lines|) && i < |Starts(lines, |lines|)|
    ensures var ps := Starts(lines, |lines|);
            var p, q := ps[i], End(ps, i, |lines|);
            var ev := FaultsOf(lines, |lines|)[i];
            && Some(ev.faultType) == lines[p].content.faultType
            && Get(ev, f) == LastField(lines, p + 1, q, f)
            && ev.at == LastOffset(lines, p + 1, q)
            && !ev.emitted
  {
    var n := |lines|;
    var ps := Starts(lines, n);
    FaultsBuilt(lines, n, i);
    var p, q := ps[i], End(ps, i, n);
    forall k | p < k < q ensures !Throws(lines[k]) {
      StartsComplete(lines, k, p);
      assert !Stops(lines, k);
    }
    BuiltFields(lines, p, q, f);
  }

  /** The loaded fault, field by field. */
  lemma LoadedFault(lines: seq<Line>, i: nat)
    requires Clean(lines, |lines|) && i < |Starts(lines, |lines|)|
    ensures var ps := Starts(lines, |lines|);
            var p, q := ps[i] + 1, End(ps, i, |lines|);
            var ev := FaultsOf(lines, |lines|)[i];
            && ev.at == LastOffset(lines, p, q)
            && ev.linkId == LastField(lines, p, q, LinkId)
            && ev.dropProbability == LastField(lines, p, q, DropProbability)
            && ev.dropDuration == LastField(lines, p, q, DropDuration)
            && ev.assetClass == LastField(lines, p, q, AssetClass)
            && ev.instanceId == LastField(lines, p, q, InstanceId)
            && ev.offsetMs == LastField(lines, p, q, OffsetMs)
            && ev.ratePpm == LastField(lines, p, q, RatePpm)
            && ev.clockDuration == LastField(lines, p, q, ClockDuration)
            && ev.triggerReason == LastField(lines, p, q, TriggerReason)
            && ev.sensorIndex == LastField(lines, p, q, SensorIndex)
            && ev.noiseModel == LastField(lines, p, q, NoiseModel)
            && ev.noiseParam1 == LastField(lines, p, q, NoiseParam1)
            && ev.noiseParam2 == LastField(lines, p, q, NoiseParam2)
            && ev.noiseDuration == LastField(lines, p, q, NoiseDuration)
  {
    hide Clean, Starts, LastField, LastOffset, FaultsOf, Get;
    var ev := FaultsOf(lines, |lines|)[i];
    var p, q := Starts(lines, |lines|)[i] + 1, End(Starts(lines, |lines|), i, |lines|);
    forall f: Field ensures Get(ev, f) == LastField(lines, p, q, f) {
      LoadIsSplit(lines, i, f);
    }
    LoadIsSplit(lines, i, LinkId);
    GetFields(ev);
  }

  /** The load is not clean exactly when some line names an unknown fault, or fails to convert after a start. */
  lemma CleanExact(lines: seq<Line>)
    ensures Clean(lines, |lines|)
            <==> && (forall n | 0 <= n < |lines| && StartsFault(lines[n]) :: lines[n].content.faultType.Some?)
                 && (forall p, n | 0 <= p < n < |lines| && StartsFault(lines[p]) :: !Throws(lines[n]))
  {
    if Clean(lines, |lines|) {
      forall n | 0 <= n < |lines| && StartsFault(lines[n]) ensures lines[n].content.faultType.Some? {
        assert !Stops(lines, n);
      }
      forall p, n | 0 <= p < n < |lines| && StartsFault(lines[p]) ensures !Throws(lines[n]) {
        assert !Stops(lines, n);
        StartsComplete(lines, n, p);
      }
    } else {
      var n :| 0 <= n < |lines| && Stops(lines, n);
      if Starts(lines, n) != [] {
        assert StartsFault(lines[Starts(lines, n)[0]]);
      }
    }
  }
}
