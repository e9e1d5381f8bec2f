/** Whole runs of one directory cache against two unbounded references: the last set committed for an origin and its failures. */
module DirectoryHistory {
  import opened Basics
  import opened Cache = DirectoryCache

  /** One call of the cache and what the clock gave it. */
  datatype Event =
    | DoCommit(origin: Origin, prepared: Prepared, reading: Option<int>)
    | DoLookUp(origin: Origin, thumbprint: Thumbprint, reading: Option<int>)
    | DoRecheck(origin: Origin, thumbprint: Thumbprint, reading: Option<int>)
    | DoFailure(origin: Origin, reading: Option<int>)
    | DoBlocked(origin: Origin, reading: Option<int>)

  function Step(options: Options, s: State, e: Event): State {
    match e
    case DoCommit(o, prepared, reading) => Committed(options, s, o, prepared, reading).0
    case DoLookUp(_, _, reading) => Read(s, reading)
    case DoRecheck(_, _, reading) => Read(s, reading)
    case DoFailure(o, reading) => Failed(options, s, o, reading)
    case DoBlocked(o, reading) => Blocked(s, o, reading).0
  }

  function Run(options: Options, events: seq<Event>): State
    decreases |events|
  {
    if events == [] then START else Step(options, Run(options, events[..|events| - 1]), events[|events| - 1])
  }

  /** The call at position `i` replaced the set of `o`: its clock reading was accepted. */
  predicate CommitsAt(options: Options, events: seq<Event>, i: nat, o: Origin) {
    && i < |events| && events[i].DoCommit? && events[i].origin == o
    && Sampled(Run(options, events[..i]), events[i].reading).Some?
  }

  /** The last set committed for each origin, kept or not. */
  function Latest(options: Options, events: seq<Event>): map<Origin, Prepared>
    decreases |events|
  {
    if events == [] then map[]
    else
      var init, e := events[..|events| - 1], events[|events| - 1];
      var before := Latest(options, init);
      if e.DoCommit? && Sampled(Run(options, init), e.reading).Some? then before[e.origin := e.prepared] else before
  }

  /** When each origin may be tried again, on a record without bound that a valid set clears. */
  function Failures(options: Options, events: seq<Event>): map<Origin, int>
    decreases |events|
  {
    if events == [] then map[]
    else
      var init, e := events[..|events| - 1], events[|events| - 1];
      FailuresStep(options, Failures(options, init), Sampled(Run(options, init), e.reading), e)
  }

  function FailuresStep(options: Options, failures: map<Origin, int>, now: Option<int>, e: Event): map<Origin, int> {
    if now.None? then failures
    else if e.DoCommit? then failures - {e.origin}
    else if e.DoFailure? && Duration(options) > 0 && now.value + Duration(options) <= MAX_SAFE
    then Later(failures, e.origin, now.value + Duration(options))
    else failures
  }

  // ---------------------------------------------------------------- what every run keeps

  ghost predicate Retained(positive: seq<Slot>, latest: map<Origin, Prepared>) {
    forall s | s in positive :: s.origin in latest && latest[s.origin] == s.prepared
  }

  predicate Covered(s: State, o: Origin, deadline: int) {
    deadline <= s.overflowUntil || (o in s.negative && deadline <= s.negative[o])
  }

  /**
   * The bounded record covers the unbounded one: every failure that is still live is on record or
   * below the overflow deadline, and nothing outlasts one backoff from now.
   */
  ghost predicate Covers(options: Options, s: State, failures: map<Origin, int>) {
    && (forall o | o in failures && s.lastTime < failures[o] :: Covered(s, o, failures[o]))
    && (forall o | o in failures :: failures[o] <= s.lastTime + Duration(options))
    && (forall o | o in s.negative :: o in failures && s.negative[o] <= failures[o])
    && s.overflowUntil <= s.lastTime + Duration(options)
  }

  lemma StepIsWellFormed(options: Options, s: State, e: Event)
    requires WellFormed(options, s)
    ensures WellFormed(options, Step(options, s, e))
  {
    match e
    case DoCommit(o, prepared, reading) => CommittedIsWellFormed(options, s, o, prepared, reading);
    case DoFailure(o, reading) => FailedIsWellFormed(options, s, o, reading);
    case DoBlocked(o, reading) => FailedIsWellFormed(options, s, o, reading);
    case _ =>
  }

  lemma CommitRetains(options: Options, s: State, latest: map<Origin, Prepared>, o: Origin, prepared: Prepared, reading: Option<int>)
    requires WellFormed(options, s) && Retained(s.positive, latest) && Sampled(s, reading).Some?
    ensures Retained(Committed(options, s, o, prepared, reading).0.positive, latest[o := prepared])
  {
    hide Find, Without, Room, Total, Distinct, Has, Roomy;
    WellFormedIsDistinct(options, s);
    WithoutMeaning(s.positive, o);
    var others := Without(s.positive, o);
    if Retainable(options, o, prepared, reading.value) {
      RoomMembers(options, others, Accounted(prepared.document, o), o);
      var room := Room(options, others, Accounted(prepared.document, o));
      assert forall x | x in room + [Entry(o, prepared)] :: x in room || x == Entry(o, prepared);
    }
  }

  lemma StepCovers(options: Options, s: State, failures: map<Origin, int>, e: Event)
    requires Covers(options, s, failures)
    ensures Covers(options, Step(options, s, e), FailuresStep(options, failures, Sampled(s, e.reading), e))
  {
    hide Find, Without, Room, Retainable;
    if e.DoFailure? {
      FailureCovers(options, s, failures, e);
    }
  }

  lemma PruneCovers(options: Options, s: State, failures: map<Origin, int>, now: int)
    requires Covers(options, s, failures) && s.lastTime <= now
    ensures Covers(options, s.(lastTime := now, negative := Live(s.negative, now)), failures)
  {
  }

  lemma NotedCovers(options: Options, s: State, failures: map<Origin, int>, o: Origin)
    requires Covers(options, s, failures)
    ensures var deadline := s.lastTime + Duration(options);
            Covers(options, Noted(options, s, o, deadline), Later(failures, o, deadline))
  {
  }

  lemma FailureCovers(options: Options, s: State, failures: map<Origin, int>, e: Event)
    requires Covers(options, s, failures) && e.DoFailure?
    ensures Covers(options, Step(options, s, e), FailuresStep(options, failures, Sampled(s, e.reading), e))
  {
    hide Live, Noted, Later;
    if Sampled(s, e.reading).Some? {
      var now := e.reading.value;
      PruneCovers(options, s, failures, now);
      NotedCovers(options, s.(lastTime := now, negative := Live(s.negative, now)), failures, e.origin);
    }
  }

  lemma StepRetains(options: Options, s: State, latest: map<Origin, Prepared>, e: Event)
    requires WellFormed(options, s) && Retained(s.positive, latest)
    ensures Retained(Step(options, s, e).positive,
                     if e.DoCommit? && Sampled(s, e.reading).Some? then latest[e.origin := e.prepared] else latest)
  {
    if e.DoCommit? && Sampled(s, e.reading).Some? {
      CommitRetains(options, s, latest, e.origin, e.prepared, e.reading);
    }
    hide Find, Without, Room, Retainable, WellFormed, Retained, Live, Noted;
  }

  lemma {:induction false} RunKeeps(options: Options, events: seq<Event>)
    ensures WellFormed(options, Run(options, events))
    ensures Retained(Run(options, events).positive, Latest(options, events))
    ensures Covers(options, Run(options, events), Failures(options, events))
    decreases |events|
  {
    if events != [] {
      hide WellFormed, Covers, FailuresStep, Retained, Step, Sampled;
      var init, e := events[..|events| - 1], events[|events| - 1];
      RunKeeps(options, init);
      var s := Run(options, init);
      StepIsWellFormed(options, s, e);
      StepCovers(options, s, Failures(options, init), e);
      StepRetains(options, s, Latest(options, init), e);
    } else {
      NothingIsFree();
    }
  }

  /** A missing, regressing or too large reading ends the clock and nothing else: nothing is kept, found or let through. */
  lemma UnusableReading(options: Options, s: State, e: Event, o: Origin, prepared: Prepared, t: Thumbprint)
    requires !(s.healthy && e.reading.Some? && s.lastTime <= e.reading.value <= 9007199254740991)
    ensures Step(options, s, e) == s.(healthy := false)
    ensures !Committed(options, s, o, prepared, e.reading).1
    ensures LookedUp(s, o, t, e.reading) == UnknownKey && Blocked(s, o, e.reading).1
  {
  }

  // ---------------------------------------------------------------- the theorems

  ghost predicate LastCommit(options: Options, events: seq<Event>, i: nat, o: Origin) {
    CommitsAt(options, events, i, o) && forall j: nat | i < j :: !CommitsAt(options, events, j, o)
  }

  /** What a prefix committed does not depend on what follows. */
  lemma PrefixCommits(options: Options, events: seq<Event>, n: nat, i: nat, o: Origin)
    requires i < n <= |events|
    ensures CommitsAt(options, events, i, o) <==> CommitsAt(options, events[..n], i, o)
  {
    assert events[..n][..i] == events[..i];
  }

  lemma {:induction false} LatestIsLastCommit(options: Options, events: seq<Event>, o: Origin)
    requires o in Latest(options, events)
    ensures exists i: nat :: LastCommit(options, events, i, o) && events[i].prepared == Latest(options, events)[o]
    decreases |events|
  {
    hide Sampled, Step, Run;
    var n := |events| - 1;
    var init := events[..n];
    if CommitsAt(options, events, n, o) {
      assert LastCommit(options, events, n, o);
    } else {
      LatestIsLastCommit(options, init, o);
      var i: nat :| LastCommit(options, init, i, o) && init[i].prepared == Latest(options, init)[o];
      PrefixCommits(options, events, n, i, o);
      forall j: nat | i < j ensures !CommitsAt(options, events, j, o) {
        if j < n { PrefixCommits(options, events, n, j, o); }
      }
      assert LastCommit(options, events, i, o);
    }
  }

  /**
   * Last commit wins: in every run a key is found, or passes the final gate, only if the last set
   * committed for its origin contains it and is fresh at the very reading the call was given.
   */
  lemma FoundIsLastCommit(options: Options, events: seq<Event>, o: Origin, t: Thumbprint, reading: Option<int>)
    requires LookedUp(Run(options, events), o, t, reading) == Found
    ensures reading.Some? && Run(options, events).lastTime <= reading.value
    ensures exists i: nat :: LastCommit(options, events, i, o)
                        && Fresh(events[i].prepared.freshness, reading.value)
                        && KeyIn(events[i].prepared.document, t) == Found
  {
    hide Latest, Run, LastCommit;
    RunKeeps(options, events);
    var s := Run(options, events);
    assert s.positive[Find(s.positive, o)] in s.positive;
    LatestIsLastCommit(options, events, o);
  }

  lemma {:induction false} UnhealthyForGood(options: Options, before: seq<Event>, after: seq<Event>)
    requires !Run(options, before).healthy
    ensures !Run(options, before + after).healthy
    decreases |after|
  {
    if after == [] {
      assert before + after == before;
    } else {
      var init := after[..|after| - 1];
      assert (before + after)[..|before + after| - 1] == before + init;
      UnhealthyForGood(options, before, init);
    }
  }

  lemma {:induction false} FailureStays(options: Options, before: seq<Event>, between: seq<Event>, o: Origin, deadline: int)
    requires o in Failures(options, before) && deadline <= Failures(options, before)[o]
    requires forall i: nat | |before| <= i :: !CommitsAt(options, before + between, i, o)
    ensures o in Failures(options, before + between) && deadline <= Failures(options, before + between)[o]
    decreases |between|
  {
    hide Sampled, Step, Run;
    if between == [] {
      assert before + between == before;
    } else {
      var events, init := before + between, between[..|between| - 1];
      var n := |events| - 1;
      assert events[..n] == before + init;
      forall i: nat | |before| <= i ensures !CommitsAt(options, before + init, i, o) {
        if i < n { PrefixCommits(options, events, n, i, o); }
      }
      FailureStays(options, before, init, o, deadline);
      assert !CommitsAt(options, events, n, o);
    }
  }

  /**
   * Backoff holds: in every run, after a failure of an origin recorded at a time, fetching from it is
   * blocked at every reading within one backoff of that time, unless a valid set for it was committed
   * in between, however many other origins have failed.
   */
  lemma BackoffHolds(options: Options, before: seq<Event>, o: Origin, failedAt: int, between: seq<Event>, reading: Option<int>)
    requires Sampled(Run(options, before), Some(failedAt)).Some?
    requires reading.Some? ==> reading.value < failedAt + Duration(options)
    requires forall i: nat | |before| < i :: !CommitsAt(options, before + [DoFailure(o, Some(failedAt))] + between, i, o)
    ensures Blocked(Run(options, before + [DoFailure(o, Some(failedAt))] + between), o, reading).1
  {
    hide Run, Failures, CommitsAt, WellFormed, Retained, Covers, Sampled, Blocked;
    var recorded := before + [DoFailure(o, Some(failedAt))];
    var events := recorded + between;
    NotReadMeansBlocked(Run(options, events), o, reading);
    if Sampled(Run(options, events), reading).Some? {
      ReadingsGrow(options, recorded, between);
      FailureRecorded(options, before, o, failedAt);
      ReadMeans(Run(options, events), reading);
      if failedAt + Duration(options) > MAX_SAFE && Duration(options) > 0 {
        UnhealthyForGood(options, recorded, between);
      } else {
        FailureStays(options, recorded, between, o, failedAt + Duration(options));
        RunKeeps(options, events);
        LiveIsBlocked(options, Run(options, events), Failures(options, events), o, reading);
      }
    }
  }

  lemma NotReadMeansBlocked(s: State, o: Origin, reading: Option<int>)
    ensures Sampled(s, reading).None? ==> Blocked(s, o, reading).1
  {
  }

  lemma ReadMeans(s: State, reading: Option<int>)
    requires Sampled(s, reading).Some?
    ensures reading.Some? && s.healthy && s.lastTime <= reading.value
  {
  }

  /** A failure at an accepted reading is recorded for one backoff, or ends a clock that could not count that far. */
  lemma {:induction false} FailureRecorded(options: Options, before: seq<Event>, o: Origin, failedAt: int)
    requires Sampled(Run(options, before), Some(failedAt)).Some?
    ensures var recorded := before + [DoFailure(o, Some(failedAt))];
      && Run(options, recorded).lastTime == failedAt
      && (Duration(options) > 0 && failedAt + Duration(options) > MAX_SAFE ==> !Run(options, recorded).healthy)
      && (Duration(options) > 0 && failedAt + Duration(options) <= MAX_SAFE ==>
            o in Failures(options, recorded) && failedAt + Duration(options) <= Failures(options, recorded)[o])
  {
    hide Step, FailuresStep, Sampled;
    var recorded := before + [DoFailure(o, Some(failedAt))];
    assert recorded[..|recorded| - 1] == before;
    StepOfFailure(options, Run(options, before), Failures(options, before), o, failedAt);
  }

  lemma StepOfFailure(options: Options, s: State, failures: map<Origin, int>, o: Origin, failedAt: int)
    requires Sampled(s, Some(failedAt)).Some?
    ensures var e := DoFailure(o, Some(failedAt));
      var more := FailuresStep(options, failures, Sampled(s, e.reading), e);
      && Step(options, s, e).lastTime == failedAt
      && (Duration(options) > 0 && failedAt + Duration(options) > MAX_SAFE ==> !Step(options, s, e).healthy)
      && (Duration(options) > 0 && failedAt + Duration(options) <= MAX_SAFE ==>
            o in more && failedAt + Duration(options) <= more[o])
  {
    hide Later, Live;
    LaterIsLate(failures, o, failedAt + Duration(options));
  }

  lemma LiveIsBlocked(options: Options, s: State, failures: map<Origin, int>, o: Origin, reading: Option<int>)
    requires Covers(options, s, failures) && Sampled(s, reading).Some?
    requires o in failures && reading.value < failures[o]
    ensures Blocked(s, o, reading).1
  {
    assert Covered(s, o, failures[o]);
  }

  lemma LaterIsLate(failures: map<Origin, int>, o: Origin, deadline: int)
    ensures o in Later(failures, o, deadline) && deadline <= Later(failures, o, deadline)[o]
  {
  }

  lemma StepTakesTime(options: Options, s: State, e: Event)
    ensures s.lastTime <= Step(options, s, e).lastTime
  {
  }

  lemma {:induction false} ReadingsGrow(options: Options, before: seq<Event>, after: seq<Event>)
    ensures Run(options, before).lastTime <= Run(options, before + after).lastTime
    decreases |after|
  {
    hide Step;
    if after == [] {
      assert before + after == before;
    } else {
      var init := after[..|after| - 1];
      assert (before + after)[..|before + after| - 1] == before + init;
      StepTakesTime(options, Run(options, before + init), after[|after| - 1]);
      ReadingsGrow(options, before, init);
    }
  }

  /** Once the overflow deadline has passed, exactly what the unbounded record blocks is blocked. */
  lemma BackoffIsExact(options: Options, events: seq<Event>, o: Origin, now: int)
    requires Run(options, events).lastTime <= now && Run(options, events).overflowUntil <= now
    ensures Blocks(Run(options, events), o, now) <==>
            o in Failures(options, events) && now < Failures(options, events)[o]
  {
    RunKeeps(options, events);
    var s, failures := Run(options, events), Failures(options, events);
    if o in failures && now < failures[o] {
      assert Covered(s, o, failures[o]);
    }
  }

  /** The origins other than `o` that have failed and may not be tried again yet. */
  function LiveOthers(failures: map<Origin, int>, o: Origin, now: int): set<Origin> {
    set p | p in failures && p != o && now < failures[p]
  }

  /** Each failure found fewer other origins waiting than the record has room for. */
  ghost predicate RoomForFailures(options: Options, events: seq<Event>) {
    forall i: nat | i < |events| && events[i].DoFailure? && Sampled(Run(options, events[..i]), events[i].reading).Some? ::
      |LiveOthers(Failures(options, events[..i]), events[i].origin, events[i].reading.value)| < options.maxNegative
  }

  lemma FailureIsRecorded(options: Options, s: State, failures: map<Origin, int>, o: Origin, now: int)
    requires Covers(options, s, failures) && s.overflowUntil == 0 && 0 <= s.lastTime <= now
    requires |LiveOthers(failures, o, now)| < options.maxNegative
    ensures o in Live(s.negative, now) || |Live(s.negative, now)| < options.maxNegative
  {
    var live := Live(s.negative, now);
    forall p | p in failures && now < failures[p] ensures p in live {
      assert Covered(s, p, failures[p]);
    }
    if o !in live {
      assert live.Keys == LiveOthers(failures, o, now);
      assert |live| == |live.Keys|;
    }
  }

  /**
   * While the record has room for every failure, the overflow deadline is never used and the bounded record
   * blocks exactly what the unbounded one does: no failure holds back any origin but its own.
   */
  lemma {:induction false} RoomMeansExact(options: Options, events: seq<Event>, o: Origin, now: int)
    requires RoomForFailures(options, events) && Run(options, events).lastTime <= now
    ensures Run(options, events).overflowUntil == 0 <= Run(options, events).lastTime
    ensures Blocks(Run(options, events), o, now) <==> o in Failures(options, events) && now < Failures(options, events)[o]
    decreases |events|
  {
    if events != [] {
      hide Covers, Live, Sampled, WellFormed, Retained, Latest, FailuresStep, Blocks, LiveOthers;
      var n := |events| - 1;
      var init, e := events[..n], events[n];
      forall i: nat | i < n && init[i].DoFailure? && Sampled(Run(options, init[..i]), init[i].reading).Some?
        ensures |LiveOthers(Failures(options, init[..i]), init[i].origin, init[i].reading.value)| < options.maxNegative
      {
        assert init[..i] == events[..i] && init[i] == events[i];
      }
      var s := Run(options, init);
      RoomMeansExact(options, init, o, s.lastTime);
      RunKeeps(options, init);
      StepWithoutOverflow(options, s, Failures(options, init), e);
    }
    BackoffIsExact(options, events, o, now);
  }

  lemma StepWithoutOverflow(options: Options, s: State, failures: map<Origin, int>, e: Event)
    requires Covers(options, s, failures) && s.overflowUntil == 0 <= s.lastTime
    requires e.DoFailure? && Sampled(s, e.reading).Some? ==>
               |LiveOthers(failures, e.origin, e.reading.value)| < options.maxNegative
    ensures Step(options, s, e).overflowUntil == 0 <= Step(options, s, e).lastTime
  {
    hide Covers, Live, LiveOthers, Room, Without, Retainable;
    if e.DoFailure? && Sampled(s, e.reading).Some? {
      FailureIsRecorded(options, s, failures, e.origin, e.reading.value);
    }
  }

  /** No origin is ever blocked for longer than one backoff from the last reading. */
  lemma BackoffIsBounded(options: Options, events: seq<Event>, o: Origin, now: int)
    requires Blocks(Run(options, events), o, now)
    ensures now < Run(options, events).lastTime + Duration(options)
  {
    RunKeeps(options, events);
  }

  /** A failure never displaces or shortens a record that is still live. */
  lemma FailureKeepsLiveRecords(options: Options, s: State, o: Origin, reading: Option<int>, p: Origin)
    requires Sampled(s, reading).Some? && p in s.negative && reading.value < s.negative[p]
    ensures var after := Failed(options, s, o, reading);
            p in after.negative && s.negative[p] <= after.negative[p] && s.overflowUntil <= after.overflowUntil
  {
  }

  /** Both capacities hold in every run, and the slots are of distinct origins. */
  lemma CapacitiesHold(options: Options, events: seq<Event>)
    ensures var s := Run(options, events);
            && |s.positive| <= options.maxEntries && Total(s.positive) <= options.maxBytes
            && |s.negative| <= options.maxNegative && Distinct(s.positive)
  {
    RunKeeps(options, events);
  }
}
