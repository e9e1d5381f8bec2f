/** Clock health: effective time is the reference wall time plus elapsed monotonic time. */
module ClockTracker {
  import opened Basics

  /** What a clock provider hands over: a finite number of milliseconds, or anything else. */
  datatype Sample = NotANumber | Number(ms: real)

  datatype HealthReason = InvalidSample | MonotonicRegression | UnsafeArithmetic | WallDrift | ResetFailed

  datatype Observation =
    | Healthy(effectiveMilliseconds: real, epochSeconds: int, transition: bool)
    | Unhealthy(reason: HealthReason, transition: bool)

  /** The closure variables of one tracker. */
  datatype TrackerState = TrackerState(
    referenceWall: real,
    referenceMonotonic: real,
    maximumDrift: real,
    previousMonotonic: real,
    regressed: bool,
    wasHealthy: bool)

  predicate Bounded(v: real) { -(MAX_SAFE as real) <= v <= MAX_SAFE as real }

  predicate WallSample(v: real) { 0.0 <= v <= MAX_SAFE as real }

  predicate Admissible(wall: Sample, monotonic: Sample) {
    wall.Number? && WallSample(wall.ms) && monotonic.Number? && Bounded(monotonic.ms)
  }

  function Create(wall: Sample, monotonic: Sample, maxClockDriftSeconds: nat): Option<TrackerState> {
    if !Admissible(wall, monotonic) then None
    else Some(TrackerState(wall.ms, monotonic.ms, maxClockDriftSeconds as real * 1000.0, monotonic.ms, false, true))
  }

  /** A valid monotonic sample is tracked even when the wall sample is bad. */
  function Track(st: TrackerState, monotonic: Sample): TrackerState {
    if !(monotonic.Number? && Bounded(monotonic.ms)) then st
    else if monotonic.ms < st.previousMonotonic then st.(regressed := true)
    else st.(previousMonotonic := monotonic.ms)
  }

  /** The reason a tracked pair of samples is unhealthy, or the effective time. */
  function Judge(st: TrackerState, wall: Sample, monotonic: Sample): Result<real, HealthReason> {
    if st.regressed then Err(MonotonicRegression)
    else if !Admissible(wall, monotonic) then Err(InvalidSample)
    else
      var elapsed := monotonic.ms - st.referenceMonotonic;
      var effective := st.referenceWall + elapsed;
      if !Bounded(elapsed) || elapsed < 0.0 || !WallSample(effective) then Err(UnsafeArithmetic)
      else if wall.ms - effective > st.maximumDrift || effective - wall.ms > st.maximumDrift then Err(WallDrift)
      else Ok(effective)
  }

  function Observed(st: TrackerState, wall: Sample, monotonic: Sample): (TrackerState, Observation) {
    var tracked := Track(st, monotonic);
    match Judge(tracked, wall, monotonic)
    case Ok(effective) =>
      (tracked.(wasHealthy := true), Healthy(effective, (effective / 1000.0).Floor, !tracked.wasHealthy))
    case Err(reason) =>
      (tracked.(wasHealthy := false), Unhealthy(reason, tracked.wasHealthy))
  }

  ghost predicate Valid(st: TrackerState) {
    && WallSample(st.referenceWall)
    && st.referenceMonotonic <= st.previousMonotonic
    && st.maximumDrift >= 0.0
  }

  /** The latest second this tracker can have reported as healthy. */
  function HighWater(st: TrackerState): int {
    ((st.referenceWall + (st.previousMonotonic - st.referenceMonotonic)) / 1000.0).Floor
  }

  lemma FloorIsMonotone(a: real, b: real)
    requires a <= b
    ensures a.Floor <= b.Floor
  {
  }

  /**
   * One observation: the tracker stays valid, its high-water second never decreases, and a healthy
   * observation reports exactly that second, inside the safe range.
   */
  lemma ObserveAdvances(st: TrackerState, wall: Sample, monotonic: Sample)
    requires Valid(st)
    ensures var (next, seen) := Observed(st, wall, monotonic);
            && Valid(next)
            && HighWater(st) <= HighWater(next)
            && (st.regressed ==> next.regressed && seen.Unhealthy?)
            && (seen.Healthy? ==> seen.epochSeconds == HighWater(next) && 0 <= seen.epochSeconds <= MAX_SAFE)
  {
    var (next, seen) := Observed(st, wall, monotonic);
    FloorIsMonotone((st.referenceWall + (st.previousMonotonic - st.referenceMonotonic)) / 1000.0,
                    (next.referenceWall + (next.previousMonotonic - next.referenceMonotonic)) / 1000.0);
    if seen.Healthy? {
      assert seen.effectiveMilliseconds == next.referenceWall + (next.previousMonotonic - next.referenceMonotonic);
      FloorIsMonotone(seen.effectiveMilliseconds / 1000.0, seen.effectiveMilliseconds);
    }
  }

  /** A run of one tracker: the observations made of a sequence of sample pairs. */
  function Observations(st: TrackerState, samples: seq<(Sample, Sample)>): (seen: seq<Observation>)
    ensures |seen| == |samples|
    decreases |samples|
  {
    if samples == [] then []
    else
      var (next, first) := Observed(st, samples[0].0, samples[0].1);
      [first] + Observations(next, samples[1..])
  }

  lemma {:induction false} ObservationsReachHighWater(st: TrackerState, samples: seq<(Sample, Sample)>, j: nat)
    requires Valid(st)
    requires j < |samples|
    requires Observations(st, samples)[j].Healthy?
    ensures HighWater(st) <= Observations(st, samples)[j].epochSeconds
    ensures !st.regressed
    decreases |samples|
  {
    ObserveAdvances(st, samples[0].0, samples[0].1);
    if j > 0 {
      ObservationsReachHighWater(Observed(st, samples[0].0, samples[0].1).0, samples[1..], j - 1);
    }
  }

  /** Over any run of one tracker the healthy seconds never decrease, whatever happens in between. */
  lemma {:induction false} HealthySecondsNeverDecrease(st: TrackerState, samples: seq<(Sample, Sample)>, i: nat, j: nat)
    requires Valid(st)
    requires i <= j < |samples|
    requires Observations(st, samples)[i].Healthy? && Observations(st, samples)[j].Healthy?
    ensures Observations(st, samples)[i].epochSeconds <= Observations(st, samples)[j].epochSeconds
    decreases |samples|
  {
    ObserveAdvances(st, samples[0].0, samples[0].1);
    var next := Observed(st, samples[0].0, samples[0].1).0;
    if i > 0 {
      HealthySecondsNeverDecrease(next, samples[1..], i - 1, j - 1);
    } else if j > 0 {
      ObservationsReachHighWater(next, samples[1..], j - 1);
    }
  }

  /** A backward monotonic step is final: nothing observed from it on is healthy. */
  lemma {:induction false} RegressionIsPermanent(st: TrackerState, samples: seq<(Sample, Sample)>, i: nat, j: nat, k: nat)
    requires Valid(st)
    requires i < j <= k < |samples|
    requires samples[i].1.Number? && samples[j].1.Number?
    requires Bounded(samples[i].1.ms) && Bounded(samples[j].1.ms)
    requires samples[j].1.ms < samples[i].1.ms
    ensures Observations(st, samples)[k].Unhealthy?
    decreases |samples|
  {
    ObserveAdvances(st, samples[0].0, samples[0].1);
    var next := Observed(st, samples[0].0, samples[0].1).0;
    if i > 0 {
      RegressionIsPermanent(next, samples[1..], i - 1, j - 1, k - 1);
    } else {
      LowSampleIsUnhealthy(next, samples[1..], j - 1, k - 1);
    }
  }

  /** A valid sample below the latest valid one, however many observations lie between, ends health for good. */
  lemma {:induction false} LowSampleIsUnhealthy(st: TrackerState, samples: seq<(Sample, Sample)>, j: nat, k: nat)
    requires Valid(st)
    requires j <= k < |samples|
    requires samples[j].1.Number? && Bounded(samples[j].1.ms)
    requires st.regressed || samples[j].1.ms < st.previousMonotonic
    ensures Observations(st, samples)[k].Unhealthy?
    decreases |samples|
  {
    ObserveAdvances(st, samples[0].0, samples[0].1);
    var next := Observed(st, samples[0].0, samples[0].1).0;
    if j > 0 {
      LowSampleIsUnhealthy(next, samples[1..], j - 1, k - 1);
    } else if k > 0 && Observations(next, samples[1..])[k - 1].Healthy? {
      ObservationsReachHighWater(next, samples[1..], k - 1);
    }
  }

  predicate Usable(monotonic: Sample) { monotonic.Number? && -(MAX_SAFE as real) <= monotonic.ms <= MAX_SAFE as real }

  /** No usable monotonic reading up to the `i`-th is below the reference or below an earlier one. */
  ghost predicate NeverBack(reference: real, samples: seq<(Sample, Sample)>, i: nat)
    requires i < |samples|
  {
    && (forall k | 0 <= k <= i && Usable(samples[k].1) :: reference <= samples[k].1.ms)
    && (forall j, k | 0 <= j < k <= i && Usable(samples[j].1) && Usable(samples[k].1) :: samples[j].1.ms <= samples[k].1.ms)
  }

  lemma NeverBackStep(reference: real, samples: seq<(Sample, Sample)>, i: nat)
    requires 0 < i < |samples|
    ensures var first := samples[0].1;
      NeverBack(reference, samples, i) <==>
        if Usable(first) then reference <= first.ms && NeverBack(first.ms, samples[1..], i - 1)
        else NeverBack(reference, samples[1..], i - 1)
  {
    var rest := samples[1..];
    forall k | 0 <= k < i ensures rest[k] == samples[k + 1] {
    }
    if NeverBack(reference, samples, i) {
      assert forall k | 0 <= k <= i - 1 && Usable(rest[k].1) :: Usable(samples[k + 1].1);
    } else if NeverBack(if Usable(samples[0].1) then samples[0].1.ms else reference, rest, i - 1) {
      assert forall k | 1 <= k <= i && Usable(samples[k].1) :: Usable(rest[k - 1].1);
    }
  }

  lemma NeverBackStart(reference: real, samples: seq<(Sample, Sample)>)
    requires samples != []
    ensures NeverBack(reference, samples, 0) <==> (Usable(samples[0].1) ==> reference <= samples[0].1.ms)
  {
  }

  /** A judgement depends on the references, the drift and the regression alone. */
  lemma JudgeIgnores(st: TrackerState, other: TrackerState, wall: Sample, monotonic: Sample)
    requires st.referenceWall == other.referenceWall && st.referenceMonotonic == other.referenceMonotonic
    requires st.maximumDrift == other.maximumDrift && st.regressed == other.regressed
    ensures Judge(st, wall, monotonic) == Judge(other, wall, monotonic)
  {
  }

  /** What one observation makes of a tracker. */
  lemma ObservedParts(st: TrackerState, wall: Sample, monotonic: Sample)
    ensures var (next, seen) := Observed(st, wall, monotonic);
      var lower := Usable(monotonic) && monotonic.ms < st.previousMonotonic;
      && next.referenceWall == st.referenceWall && next.referenceMonotonic == st.referenceMonotonic
      && next.maximumDrift == st.maximumDrift && next.wasHealthy == seen.Healthy?
      && next.regressed == (st.regressed || lower)
      && next.previousMonotonic == (if Usable(monotonic) && !lower then monotonic.ms else st.previousMonotonic)
      && match Judge(st.(regressed := next.regressed), wall, monotonic)
         case Ok(effective) => seen == Healthy(effective, (effective / 1000.0).Floor, !st.wasHealthy)
         case Err(reason) => seen == Unhealthy(reason, st.wasHealthy)
  {
  }

  /** What is observed at a position, given whether the monotonic readings went back by then. */
  lemma {:induction false} SeenAt(st: TrackerState, samples: seq<(Sample, Sample)>, i: nat)
    requires i < |samples|
    ensures var back := st.regressed || !NeverBack(st.previousMonotonic, samples, i);
      var seen := Observations(st, samples)[i];
      var before := if i == 0 then st.wasHealthy else Observations(st, samples)[i - 1].Healthy?;
      match Judge(st.(regressed := back), samples[i].0, samples[i].1)
      case Ok(effective) => seen == Healthy(effective, (effective / 1000.0).Floor, !before)
      case Err(reason) => seen == Unhealthy(reason, before)
    decreases |samples|
  {
    hide Judge, NeverBack, Observed, Usable;
    var (next, first) := Observed(st, samples[0].0, samples[0].1);
    ObservedParts(st, samples[0].0, samples[0].1);
    if i == 0 {
      NeverBackStart(st.previousMonotonic, samples);
    } else {
      var back := st.regressed || !NeverBack(st.previousMonotonic, samples, i);
      NeverBackStep(st.previousMonotonic, samples, i);
      SeenAt(next, samples[1..], i - 1);
      JudgeIgnores(next.(regressed := back), st.(regressed := back), samples[i].0, samples[i].1);
    }
  }

  /** Usable samples, in the safe range, and no further apart than the drift admits. */
  predicate Agree(st: TrackerState, wall: real, monotonic: real) {
    var effective := st.referenceWall + (monotonic - st.referenceMonotonic);
    effective - st.maximumDrift <= wall <= effective + st.maximumDrift
  }

  predicate Safe(st: TrackerState, monotonic: real) {
    var elapsed := monotonic - st.referenceMonotonic;
    elapsed <= MAX_SAFE as real && st.referenceWall + elapsed <= MAX_SAFE as real
  }

  lemma JudgeIsExact(st: TrackerState, wall: Sample, monotonic: Sample)
    requires 0.0 <= st.referenceWall && (Usable(monotonic) && !st.regressed ==> st.referenceMonotonic <= monotonic.ms)
    ensures var r := Judge(st, wall, monotonic);
      var usable := wall.Number? && 0.0 <= wall.ms <= MAX_SAFE as real && Usable(monotonic);
      && (r == Err(MonotonicRegression) <==> st.regressed)
      && (r == Err(InvalidSample) <==> !st.regressed && !usable)
      && (r == Err(UnsafeArithmetic) <==> !st.regressed && usable && !Safe(st, monotonic.ms))
      && (r == Err(WallDrift) <==> !st.regressed && usable && Safe(st, monotonic.ms) && !Agree(st, wall.ms, monotonic.ms))
      && (r.Ok? <==> !st.regressed && usable && Safe(st, monotonic.ms) && Agree(st, wall.ms, monotonic.ms))
      && (r.Ok? ==> r.value == st.referenceWall + (monotonic.ms - st.referenceMonotonic))
  {
  }

  /**
   * Over any run, an observation is healthy exactly if both samples are usable, no monotonic reading went
   * back by then, and the wall sample is within the drift of the reference time plus the elapsed time. It then
   * reports that time and its second; otherwise it reports the first thing that failed. A transition is a change of health.
   */
  lemma HealthIsExact(wall: Sample, monotonic: Sample, drift: nat, samples: seq<(Sample, Sample)>, i: nat)
    requires Create(wall, monotonic, drift).Some? && i < |samples|
    ensures 0.0 <= wall.ms <= MAX_SAFE as real && Usable(monotonic)
    ensures var st := Create(wall, monotonic, drift).value;
      var seen := Observations(st, samples);
      var (w, m) := samples[i];
      var steady := NeverBack(monotonic.ms, samples, i);
      var usable := w.Number? && 0.0 <= w.ms <= MAX_SAFE as real && Usable(m);
      && st.referenceWall == wall.ms && st.referenceMonotonic == monotonic.ms && st.maximumDrift == drift as real * 1000.0
      && (seen[i].Healthy? <==> steady && usable && Safe(st, m.ms) && Agree(st, w.ms, m.ms))
      && (seen[i].Healthy? ==>
            var effective := wall.ms + (m.ms - monotonic.ms);
            && seen[i].effectiveMilliseconds == effective
            && 1000.0 * seen[i].epochSeconds as real <= effective < 1000.0 * (seen[i].epochSeconds + 1) as real)
      && (seen[i].Unhealthy? ==>
            && (seen[i].reason == MonotonicRegression <==> !steady)
            && (seen[i].reason == InvalidSample <==> steady && !usable)
            && (seen[i].reason == UnsafeArithmetic <==> steady && usable && !Safe(st, m.ms))
            && (seen[i].reason == WallDrift <==> steady && usable && Safe(st, m.ms)))
      && (seen[i].transition <==> seen[i].Healthy? != (i == 0 || seen[i - 1].Healthy?))
  {
    hide Judge, NeverBack, Observations, Safe, Agree;
    var st := Create(wall, monotonic, drift).value;
    var back := !NeverBack(monotonic.ms, samples, i);
    SeenAt(st, samples, i);
    if !back && Usable(samples[i].1) {
      FloorBounds(wall.ms + (samples[i].1.ms - monotonic.ms));
      AtLeastReference(monotonic.ms, samples, i);
    }
    JudgeIsExact(st.(regressed := back), samples[i].0, samples[i].1);
    SameJudgement(st, back, samples[i].0, samples[i].1);
  }

  /** A tracker starts from every usable pair of samples, and from no other. */
  lemma StartsExactly(wall: Sample, monotonic: Sample, drift: nat)
    ensures Create(wall, monotonic, drift).Some? <==> wall.Number? && 0.0 <= wall.ms <= MAX_SAFE as real && Usable(monotonic)
  {
  }

  lemma AtLeastReference(reference: real, samples: seq<(Sample, Sample)>, i: nat)
    requires i < |samples| && NeverBack(reference, samples, i) && Usable(samples[i].1)
    ensures reference <= samples[i].1.ms
  {
  }

  lemma SameJudgement(st: TrackerState, back: bool, wall: Sample, monotonic: Sample)
    ensures monotonic.Number? ==> Safe(st.(regressed := back), monotonic.ms) == Safe(st, monotonic.ms)
    ensures monotonic.Number? && wall.Number? ==>
              Agree(st.(regressed := back), wall.ms, monotonic.ms) == Agree(st, wall.ms, monotonic.ms)
  {
  }

  lemma FloorBounds(ms: real)
    ensures var second := (ms / 1000.0).Floor; 1000.0 * second as real <= ms < 1000.0 * (second + 1) as real
  {
  }

  /** The tracker as an object: `Value()` is the value its closure variables hold. */
  class Tracker {
    const referenceWall: real
    const referenceMonotonic: real
    const maximumDrift: real
    var previousMonotonic: real
    var regressed: bool
    var wasHealthy: bool

    function Value(): TrackerState
      reads this
    {
      TrackerState(referenceWall, referenceMonotonic, maximumDrift, previousMonotonic, regressed, wasHealthy)
    }

    constructor (wallMs: real, monotonicMs: real, maxClockDriftSeconds: nat)
      requires Admissible(Number(wallMs), Number(monotonicMs))
      ensures Some(Value()) == Create(Number(wallMs), Number(monotonicMs), maxClockDriftSeconds)
      ensures Valid(Value())
    {
      referenceWall, referenceMonotonic := wallMs, monotonicMs;
      maximumDrift := maxClockDriftSeconds as real * 1000.0;
      previousMonotonic, regressed, wasHealthy := monotonicMs, false, true;
    }

    method Observe(wall: Sample, monotonic: Sample) returns (seen: Observation)
      modifies this
      ensures (Value(), seen) == Observed(old(Value()), wall, monotonic)
    {
      var monotonicValid := monotonic.Number? && Bounded(monotonic.ms);
      if monotonicValid {
        if monotonic.ms < previousMonotonic { regressed := true; } else { previousMonotonic := monotonic.ms; }
      }
      if regressed {
        seen := Report(Err(MonotonicRegression));
        return;
      }
      if !(wall.Number? && WallSample(wall.ms)) || !monotonicValid {
        seen := Report(Err(InvalidSample));
        return;
      }
      var elapsed := monotonic.ms - referenceMonotonic;
      var effective := referenceWall + elapsed;
      if !Bounded(elapsed) || elapsed < 0.0 || !WallSample(effective) {
        seen := Report(Err(UnsafeArithmetic));
        return;
      }
      var drift := wall.ms - effective;
      if drift > maximumDrift || -drift > maximumDrift {
        seen := Report(Err(WallDrift));
        return;
      }
      seen := Report(Ok(effective));
    }

    method Report(result: Result<real, HealthReason>) returns (seen: Observation)
      modifies `wasHealthy
      ensures wasHealthy == result.Ok?
      ensures seen == match result
                      case Ok(effective) => Healthy(effective, (effective / 1000.0).Floor, !old(wasHealthy))
                      case Err(reason) => Unhealthy(reason, old(wasHealthy))
    {
      var changed := wasHealthy != result.Ok?;
      wasHealthy := result.Ok?;
      match result
      case Ok(effective) => seen := Healthy(effective, (effective / 1000.0).Floor, changed);
      case Err(reason) => seen := Unhealthy(reason, changed);
    }
  }
}
