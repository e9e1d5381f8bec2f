/**
 * The security context's coordinator: every clock reading passes the epoch and health gates, and a
 * reset closes the old epoch before anything is cleared.
 */
module SecurityController {
  import opened Basics
  import opened Codes
  import CT = ClockTracker
  import OE = OperationEpochs

  const UNAVAILABLE := Unverified(ClockUnavailable)

  /** The closure variables of one context. */
  datatype Controller<!K> = Controller(busy: bool, healthy: bool, tracker: CT.TrackerState, epochs: OE.Epochs<K>)

  /** A reading of the clock, with or without a lease that must be current. */
  function TimeRead<K(==)>(c: Controller<K>, lease: Option<K>, wall: CT.Sample, monotonic: CT.Sample)
    : (Controller<K>, Result<int, Rejection>)
  {
    if c.busy || c.epochs.active.None? then (c, Err(UNAVAILABLE))
    else if lease.Some? && !OE.Current(c.epochs, lease.value) then (c, Err(UNAVAILABLE))
    else
      var (tracker, seen) := CT.Observed(c.tracker, wall, monotonic);
      (c.(tracker := tracker, healthy := seen.Healthy?),
       if seen.Healthy? then Ok(seen.epochSeconds) else Err(UNAVAILABLE))
  }

  function OperationBegun<K(==)>(c: Controller<K>, lease: K, wall: CT.Sample, monotonic: CT.Sample)
    : (Controller<K>, bool)
  {
    var (read, time) := TimeRead(c, None, wall, monotonic);
    if time.Err? then (read, false)
    else match OE.Begun(read.epochs, lease)
      case None => (read, false)
      case Some(epochs) => (read.(epochs := epochs), true)
  }

  /** The final gate: a healthy reading under a current lease retires the lease. */
  function OperationCompleted<K(==)>(c: Controller<K>, lease: K, wall: CT.Sample, monotonic: CT.Sample)
    : (Controller<K>, Result<int, Rejection>)
  {
    var (read, time) := TimeRead(c, Some(lease), wall, monotonic);
    if time.Err? then (read, time) else (read.(epochs := OE.Finished(read.epochs, lease)), time)
  }

  function ResetStarted<K>(c: Controller<K>): Option<Controller<K>> {
    if c.busy then None else Some(c.(busy := true))
  }

  /** Sampling a replacement reference; from success on the old epoch is closed for good. */
  function ResetPrepared<K>(c: Controller<K>, drift: nat, wall: CT.Sample, monotonic: CT.Sample)
    : (Controller<K>, Option<CT.TrackerState>)
  {
    match CT.Create(wall, monotonic, drift)
    case None =>
      var (tracker, seen) := CT.Observed(c.tracker, wall, monotonic);
      (c.(tracker := tracker, healthy := seen.Healthy?, busy := false), None)
    case Some(replacement) =>
      if c.epochs.last >= MAX_SAFE then (ResetFailed(c), None)
      else (c.(epochs := OE.Invalidated(c.epochs)), Some(replacement))
  }

  function ResetFailed<K>(c: Controller<K>): Controller<K> {
    c.(epochs := OE.Invalidated(c.epochs), healthy := false, busy := false)
  }

  /** The last segment of a reset, after cleanup: activation needs a healthy final sample. */
  function ResetCommitted<K>(c: Controller<K>, replacement: CT.TrackerState, cleaned: bool,
                             wall: CT.Sample, monotonic: CT.Sample): (Controller<K>, bool)
  {
    if !cleaned then (ResetFailed(c), false)
    else
      var (tracker, seen) := CT.Observed(replacement, wall, monotonic);
      if seen.Unhealthy? then (ResetFailed(c), false)
      else match OE.Activated(c.epochs)
        case None => (ResetFailed(c), false)
        case Some(epochs) => (Controller(false, true, tracker, epochs), true)
  }

  ghost predicate Sound<K>(c: Controller<K>) {
    CT.Valid(c.tracker) && OE.Valid(c.epochs)
  }

  /** A reading keeps the context valid, moves its high-water second forward, and reports that second. */
  lemma TimeReadAdvances<K>(c: Controller<K>, lease: Option<K>, wall: CT.Sample, monotonic: CT.Sample)
    requires Sound(c)
    ensures var (next, time) := TimeRead(c, lease, wall, monotonic);
            && Sound(next)
            && next.epochs == c.epochs && next.busy == c.busy
            && CT.HighWater(c.tracker) <= CT.HighWater(next.tracker)
            && (time.Ok? ==> time.value == CT.HighWater(next.tracker) && 0 <= time.value <= MAX_SAFE)
            && (var admitted := c.epochs.active.Some? && !c.busy && (lease.Some? ==> OE.Current(c.epochs, lease.value));
                && (time.Ok? <==> admitted && CT.Observed(c.tracker, wall, monotonic).1.Healthy?)
                && (time.Err? ==> time == Err(Unverified(ClockUnavailable)))
                && (!admitted ==> next == c)
                && (admitted ==> next.healthy == time.Ok? && next.tracker == CT.Observed(c.tracker, wall, monotonic).0))
  {
    CT.ObserveAdvances(c.tracker, wall, monotonic);
  }

  /** A lease is begun exactly by a healthy reading of an open context with a slot free; completing retires it and no other. */
  lemma OperationsAreExact<K>(c: Controller<K>, lease: K, other: K, wall: CT.Sample, monotonic: CT.Sample)
    requires Sound(c)
    ensures lease !in c.epochs.leases ==>
              var (next, begun) := OperationBegun(c, lease, wall, monotonic);
              && (begun <==> TimeRead(c, None, wall, monotonic).1.Ok? && |OE.Open(c.epochs)| < MAX_SAFE)
              && (begun <==> OE.Current(next.epochs, lease))
              && (other != lease ==> (OE.Current(next.epochs, other) <==> OE.Current(c.epochs, other)))
    ensures var (next, time) := OperationCompleted(c, lease, wall, monotonic);
            && time == TimeRead(c, Some(lease), wall, monotonic).1
            && (time.Ok? ==> OE.Current(c.epochs, lease) && !OE.Current(next.epochs, lease))
            && (time.Err? ==> next.epochs == c.epochs)
            && (other != lease ==> (OE.Current(next.epochs, other) <==> OE.Current(c.epochs, other)))
  {
    TimeReadAdvances(c, None, wall, monotonic);
    TimeReadAdvances(c, Some(lease), wall, monotonic);
    if lease !in c.epochs.leases {
      OE.BeginsExactly(c.epochs, lease, other);
    }
  }

  /** The state a failed reset leaves: closed, unhealthy, ready for the next attempt, with its numbering untouched. */
  ghost predicate Closed<K>(before: Controller<K>, after: Controller<K>) {
    && !after.busy && !after.healthy && after.epochs.active.None? && after.epochs.inFlight == 0
    && after.epochs.last == before.epochs.last && after.epochs.leases == before.epochs.leases
  }

  /**
   * A reset in two halves. The first refuses an unusable pair of samples without closing anything, and
   * otherwise closes the epoch; it goes on exactly if a number is left. The second opens the next number on the
   * replacement exactly if the cleanup succeeded and a last sample is healthy, and closes the context otherwise.
   */
  lemma ResetsAreExact<K>(c: Controller<K>, drift: nat, cleaned: bool, replacement: CT.TrackerState,
                          wall: CT.Sample, monotonic: CT.Sample)
    requires Sound(c) && CT.Valid(replacement) && c.busy
    ensures var (next, prepared) := ResetPrepared(c, drift, wall, monotonic);
            var usable := CT.Create(wall, monotonic, drift).Some?;
            && (prepared.Some? <==> usable && c.epochs.last < MAX_SAFE)
            && (prepared.Some? ==> prepared == CT.Create(wall, monotonic, drift) && next.busy && next.tracker == c.tracker
                                   && next.healthy == c.healthy && next.epochs.active.None? && next.epochs.inFlight == 0
                                   && next.epochs.last == c.epochs.last && next.epochs.leases == c.epochs.leases)
            && (usable && prepared.None? ==> Closed(c, next) && next.tracker == c.tracker)
            && (!usable ==> !next.busy && next.epochs == c.epochs
                            && next.tracker == CT.Observed(c.tracker, wall, monotonic).0
                            && next.healthy == CT.Observed(c.tracker, wall, monotonic).1.Healthy?)
    ensures c.epochs.active.None? && c.epochs.last < MAX_SAFE ==>
            var (next, success) := ResetCommitted(c, replacement, cleaned, wall, monotonic);
            && (success <==> cleaned && CT.Observed(replacement, wall, monotonic).1.Healthy?)
            && (success ==> !next.busy && next.healthy && next.tracker == CT.Observed(replacement, wall, monotonic).0
                            && next.epochs.active == Some(c.epochs.last + 1) && next.epochs.last == c.epochs.last + 1
                            && next.epochs.inFlight == 0 && next.epochs.leases == c.epochs.leases)
            && (!success ==> Closed(c, next) && next.tracker == c.tracker)
  {
    if c.epochs.active.None? {
      assert forall k | k in c.epochs.leases :: c.epochs.leases[k].epoch <= c.epochs.last;
      assert OE.Open(c.epochs) == {};
    }
  }

  /** The coordinator as an object over a replaceable tracker and one lease registry. */
  class SecurityContextController {
    const drift: nat
    const epochs: OE.Registry
    var tracker: CT.Tracker
    var busy: bool
    var healthy: bool

    ghost predicate Valid()
      reads this, tracker, epochs
    {
      Sound(Value())
    }

    function Value(): Controller<OE.Lease>
      reads this, tracker, epochs
    {
      Controller(busy, healthy, tracker.Value(), epochs.Value())
    }

    constructor (drift: nat, wallMs: real, monotonicMs: real)
      requires CT.Admissible(CT.Number(wallMs), CT.Number(monotonicMs))
      ensures Valid() && fresh(tracker) && fresh(epochs)
      ensures !busy && healthy && epochs.Value() == OE.Start()
    {
      this.drift := drift;
      tracker := new CT.Tracker(wallMs, monotonicMs, drift);
      epochs := new OE.Registry();
      busy, healthy := false, true;
    }

    method CurrentTime(lease: Option<OE.Lease>, wall: CT.Sample, monotonic: CT.Sample)
      returns (time: Result<int, Rejection>)
      requires Valid()
      modifies `healthy, tracker
      ensures Valid()
      ensures (Value(), time) == TimeRead(old(Value()), lease, wall, monotonic)
    {
      TimeReadAdvances(Value(), lease, wall, monotonic);
      if busy || epochs.activeEpoch.None? {
        return Err(UNAVAILABLE);
      }
      if lease.Some? {
        var current := epochs.AssertCurrent(lease.value);
        if !current {
          return Err(UNAVAILABLE);
        }
      }
      var seen := tracker.Observe(wall, monotonic);
      healthy := seen.Healthy?;
      time := if seen.Healthy? then Ok(seen.epochSeconds) else Err(UNAVAILABLE);
    }

    method BeginOperation(wall: CT.Sample, monotonic: CT.Sample) returns (r: Option<OE.Lease>)
      requires Valid()
      modifies `healthy, tracker, epochs
      ensures Valid()
      ensures r.Some? ==> fresh(r.value)
                          && (Value(), true) == OperationBegun(old(Value()), r.value, wall, monotonic)
      ensures r.None? ==> Value() == TimeRead(old(Value()), None, wall, monotonic).0
    {
      var time := CurrentTime(None, wall, monotonic);
      if time.Err? {
        return None;
      }
      r := epochs.Begin();
    }

    method CompleteOperation(lease: OE.Lease, wall: CT.Sample, monotonic: CT.Sample)
      returns (time: Result<int, Rejection>)
      requires Valid()
      modifies `healthy, tracker, epochs
      ensures Valid()
      ensures (Value(), time) == OperationCompleted(old(Value()), lease, wall, monotonic)
    {
      time := CurrentTime(Some(lease), wall, monotonic);
      if time.Ok? {
        epochs.Finish(lease);
      }
    }

    method BeginReset() returns (accepted: bool)
      requires Valid()
      modifies `busy
      ensures Valid()
      ensures accepted <==> ResetStarted(old(Value())).Some?
      ensures Value() == if accepted then ResetStarted(old(Value())).value else old(Value())
    {
      accepted := !busy;
      busy := true;
    }

    method PrepareReset(wall: CT.Sample, monotonic: CT.Sample) returns (replacement: Option<CT.Tracker>)
      requires Valid() && busy
      modifies `busy, `healthy, tracker, epochs
      ensures Valid()
      ensures replacement.Some? ==> fresh(replacement.value)
      ensures Value() == ResetPrepared(old(Value()), drift, wall, monotonic).0
      ensures ResetPrepared(old(Value()), drift, wall, monotonic).1 ==
              match replacement case None => None case Some(t) => Some(t.Value())
    {
      CT.ObserveAdvances(tracker.Value(), wall, monotonic);
      if !CT.Admissible(wall, monotonic) {
        var seen := tracker.Observe(wall, monotonic);
        healthy, busy := seen.Healthy?, false;
        return None;
      }
      var prepared := new CT.Tracker(wall.ms, monotonic.ms, drift);
      var _ := epochs.Invalidate();
      if epochs.lastEpoch >= MAX_SAFE {
        healthy, busy := false, false;
        return None;
      }
      replacement := Some(prepared);
    }

    method CommitReset(replacement: CT.Tracker, cleaned: bool, wall: CT.Sample, monotonic: CT.Sample)
      returns (success: bool)
      requires Valid() && busy
      requires CT.Valid(replacement.Value()) && replacement != tracker
      modifies `busy, `healthy, `tracker, epochs, replacement
      ensures Valid()
      ensures (Value(), success) == ResetCommitted(old(Value()), old(replacement.Value()), cleaned, wall, monotonic)
    {
      CT.ObserveAdvances(replacement.Value(), wall, monotonic);
      success := false;
      if cleaned {
        var seen := replacement.Observe(wall, monotonic);
        if seen.Healthy? {
          var activated := epochs.ActivateNext();
          success := activated.Some?;
        }
      }
      if success {
        tracker, healthy := replacement, true;
      } else {
        var _ := epochs.Invalidate();
        healthy := false;
      }
      busy := false;
    }
  }
}
