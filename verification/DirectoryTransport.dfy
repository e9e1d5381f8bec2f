/**
 * One transport feeds the caches of both profiles. Each delivery is applied to every participant
 * exactly once, as a committed set or a recorded failure, or to none of them.
 */
module DirectoryTransport {
  import opened Basics
  import Cache = DirectoryCache
  import History = DirectoryHistory
  import Retention = DirectoryRetention

  const BUDGET := 3000

  /** What a participant's validation makes of a response; a fault is any other exception. */
  datatype Preparation = Ready(prepared: Cache.Prepared) | InvalidDocument | Fault

  datatype Result = Response | TransportFailed

  datatype Failure = Deadline | ClockFailed | Broken

  datatype Delivery = Waiting(origin: Cache.Origin, startedAt: int) | Done(r: Basics.Result<Result, Failure>)

  datatype Refresh = Completed(persisted: bool) | InvalidJwks

  /** The last accepted clock reading, and whether the clock has ever failed. */
  datatype Clock = Clock(lastTime: int, healthy: bool)

  /** One check of the deadline that began at `startedAt`, against one clock reading. */
  function Checked(clock: Clock, startedAt: int, reading: Option<int>): (Clock, Option<Failure>) {
    if !clock.healthy || reading.None? || reading.value < clock.lastTime || reading.value > MAX_SAFE - BUDGET then
      (clock.(healthy := false), Some(ClockFailed))
    else
      (clock.(lastTime := reading.value),
       if reading.value < startedAt || reading.value - startedAt >= BUDGET then Some(Deadline) else None)
  }

  /** How a delivery ends: the deadline is checked before the responses are prepared, and again after. */
  function Ending(clock: Clock, startedAt: int, fetched: Result, faulty: bool, first: Option<int>, second: Option<int>)
    : (Clock, Basics.Result<Result, Failure>)
  {
    var (before, failure) := Checked(clock, startedAt, first);
    if failure.Some? then (before, Err(failure.value))
    else if fetched != Response then (before, Ok(fetched))
    else if faulty then (before, Err(Broken))
    else
      var (after, late) := Checked(before, startedAt, second);
      (after, if late.Some? then Err(late.value) else Ok(fetched))
  }

  /** A response is applied exactly when it was fetched and prepared, and both readings are within the deadline. */
  lemma AppliedOnlyInTime(clock: Clock, startedAt: int, fetched: Result, faulty: bool, first: Option<int>, second: Option<int>)
    ensures Ending(clock, startedAt, fetched, faulty, first, second).1 == Ok(Response) <==>
            && fetched == Response && !faulty && clock.healthy && first.Some? && second.Some?
            && clock.lastTime <= first.value <= second.value <= MAX_SAFE - BUDGET
            && startedAt <= first.value && second.value < startedAt + BUDGET
  {
  }

  /** A reading the clock may give after its last one. */
  predicate Accepts(clock: Clock, reading: Option<int>) {
    clock.healthy && reading.Some? && clock.lastTime <= reading.value <= 9007199254737991
  }

  predicate OnTime(startedAt: int, reading: int) { startedAt <= reading < startedAt + 3000 }

  /**
   * Every other end: the first check comes before the fetch is looked at, a fetch that failed and a faulty
   * preparation are told next, and the second check last; a clock that failed is told from a deadline that passed.
   */
  lemma EndingIsExact(clock: Clock, startedAt: int, fetched: Result, faulty: bool, first: Option<int>, second: Option<int>)
    ensures var (after, r) := Ending(clock, startedAt, fetched, faulty, first, second);
      if !Accepts(clock, first) then r == Err(ClockFailed) && after == Clock(clock.lastTime, false)
      else if !OnTime(startedAt, first.value) then r == Err(Deadline) && after == Clock(first.value, true)
      else if fetched == TransportFailed then r == Ok(TransportFailed) && after == Clock(first.value, true)
      else if faulty then r == Err(Broken) && after == Clock(first.value, true)
      else if !Accepts(Clock(first.value, true), second) then r == Err(ClockFailed) && after == Clock(first.value, false)
      else if !OnTime(startedAt, second.value) then r == Err(Deadline) && after == Clock(second.value, true)
      else r == Ok(Response) && after == Clock(second.value, true)
  {
  }

  lemma OnlySoundResponses(clock: Clock, startedAt: int, fetched: Result, faulty: bool, first: Option<int>, second: Option<int>)
    ensures Ending(clock, startedAt, fetched, faulty, first, second).1 == Ok(Response) ==> !faulty
  {
  }

  /** What applying a prepared response makes of one cache, and what its callers are told. */
  function Applied(options: Cache.Options, s: Cache.State, origin: Cache.Origin, preparation: Preparation, reading: Option<int>)
    : (Cache.State, Refresh)
  {
    if preparation.Ready? then
      var (next, persisted) := Cache.Committed(options, s, origin, preparation.prepared, reading);
      (next, Completed(persisted))
    else (Cache.Failed(options, s, origin, reading), InvalidJwks)
  }

  /** Applying a preparation is one event of the cache: a commit of the prepared set, or a failure of the origin. */
  function EventOf(origin: Cache.Origin, preparation: Preparation, reading: Option<int>): History.Event {
    match preparation
    case Ready(prepared) => History.DoCommit(origin, prepared, reading)
    case _ => History.DoFailure(origin, reading)
  }

  /**
   * What a participant's cache answers once a response was applied to it. A prepared set is looked up as what
   * its document says, and an invalid document holds back fetches of its origin for one backoff.
   */
  lemma AppliedIsObserved(options: Cache.Options, events: seq<History.Event>, o: Cache.Origin, preparation: Preparation,
                          now: int, t: Cache.Thumbprint, later: int)
    requires History.Run(options, events).healthy && History.Run(options, events).lastTime <= now <= later <= 9007199254740991
    ensures var (next, refresh) := Applied(options, History.Run(options, events), o, preparation, Some(now));
      && next == History.Run(options, events + [EventOf(o, preparation, Some(now))])
      && (preparation.Ready? ==>
            var prepared := preparation.prepared;
            var kept := Retention.Storable(options, o, prepared, now);
            && refresh == Completed(kept)
            && Cache.LookedUp(next, o, t, Some(later))
               == if kept && Retention.FreshAt(prepared, later) then Retention.Says(prepared.document, t) else Cache.UnknownKey)
      && (!preparation.Ready? ==> refresh == InvalidJwks)
      && (!preparation.Ready? && later < now + 1000 * options.negativeSeconds ==> Cache.Blocked(next, o, Some(later)).1)
  {
    hide Cache.Committed, Cache.Failed, Cache.Blocked, Cache.LookedUp, Retention.Storable, Retention.FreshAt, Retention.Says,
         Retention.Undisplaced;
    var e := EventOf(o, preparation, Some(now));
    var after := events + [e];
    assert after[..|events|] == events;
    assert after + [] == after;
    if preparation.Ready? {
      CommitAnswers(options, events, o, preparation.prepared, now, t, later);
    } else if later < now + 1000 * options.negativeSeconds {
      History.BackoffHolds(options, events, o, now, [], Some(later));
    }
  }

  lemma CommitAnswers(options: Cache.Options, events: seq<History.Event>, o: Cache.Origin, prepared: Cache.Prepared,
                      now: int, t: Cache.Thumbprint, later: int)
    requires History.Run(options, events).healthy && History.Run(options, events).lastTime <= now <= later <= 9007199254740991
    ensures var (next, kept) := Cache.Committed(options, History.Run(options, events), o, prepared, Some(now));
      && kept == Retention.Storable(options, o, prepared, now)
      && Cache.LookedUp(next, o, t, Some(later))
         == if kept && Retention.FreshAt(prepared, later) then Retention.Says(prepared.document, t) else Cache.UnknownKey
  {
    hide Cache.LookedUp, Cache.Committed, Cache.WellFormed, Retention.FreshAt, Retention.Says, Retention.Storable,
         Retention.Undisplaced, History.Run, History.CommitsAt;
    var committed := events + [History.DoCommit(o, prepared, Some(now))];
    assert committed + [] == committed;
    CommitIsStep(options, events, o, prepared, now);
    if Retention.Storable(options, o, prepared, now) {
      NothingNewer(options, committed, o, prepared, now);
    }
    forall i: nat | |events| < i ensures !History.CommitsAt(options, committed, i, o) {
      Retention.NoSuchCall(options, committed, i, o);
    }
    Retention.AnswersAreExact(options, events, o, prepared, now, [], t, later);
  }

  lemma {:induction false} CommitIsStep(options: Cache.Options, events: seq<History.Event>, o: Cache.Origin,
                                        prepared: Cache.Prepared, now: int)
    requires History.Run(options, events).healthy && History.Run(options, events).lastTime <= now <= 9007199254740991
    ensures var next := History.Run(options, events + [History.DoCommit(o, prepared, Some(now))]);
      && next == Cache.Committed(options, History.Run(options, events), o, prepared, Some(now)).0
      && next.healthy && next.lastTime == now
  {
    hide Cache.Room, Cache.Without, Cache.Retainable;
    var committed := events + [History.DoCommit(o, prepared, Some(now))];
    assert committed[..|events|] == events;
  }

  /** What was stored last has nothing newer beside it. */
  lemma NothingNewer(options: Cache.Options, before: seq<History.Event>, o: Cache.Origin, prepared: Cache.Prepared, now: int)
    requires Retention.Storable(options, o, prepared, now)
    ensures Retention.Undisplaced(options, before, Retention.Size(o, prepared), [])
  {
  }

  /** The cache of one profile as the transport sees it: prepared without effect, then applied. */
  class Participant {
    const cache: Cache.DirectoryCache
    var applied: map<nat, Refresh>

    constructor (cache: Cache.DirectoryCache)
      ensures this.cache == cache && applied == map[]
    {
      this.cache := cache;
      applied := map[];
    }

    method Apply(id: nat, origin: Cache.Origin, preparation: Preparation, reading: Option<int>)
      requires !preparation.Fault? && cache.Valid()
      modifies this, cache
      ensures cache.Valid()
      ensures var (next, refresh) := Applied(cache.options, old(cache.Value()), origin, preparation, reading);
              cache.Value() == next && applied == old(applied)[id := refresh]
    {
      if preparation.Ready? {
        var persisted := cache.Commit(origin, preparation.prepared, reading);
        applied := applied[id := Completed(persisted)];
      } else {
        cache.RecordFailure(origin, reading);
        applied := applied[id := InvalidJwks];
      }
    }
  }

  class DirectoryTransport {
    var participants: seq<Participant>
    var deliveries: map<nat, Delivery>
    var started: bool
    var lastTime: int
    var healthy: bool

    /** The participants and their caches. */
    ghost var Repr: set<object>

    /** The deliveries whose response was applied. */
    ghost function Distributed(): set<nat>
      reads this
    {
      set id | id in deliveries && deliveries[id] == Done(Ok(Response))
    }

    /** Distinct participants with distinct caches, each of which has been given exactly the applied deliveries. */
    ghost predicate Valid()
      reads this, Repr
    {
      && |participants| <= 2 && this !in Repr
      && (forall i | 0 <= i < |participants| :: participants[i] in Repr && (participants[i].cache as object) in Repr)
      && (forall i, j | 0 <= i < j < |participants| ::
            participants[i] != participants[j] && participants[i].cache != participants[j].cache)
      && (forall i, j | 0 <= i < |participants| && 0 <= j < |participants| :: (participants[i] as object) != participants[j].cache)
      && (forall i | 0 <= i < |participants| :: participants[i].cache.Valid() && participants[i].applied.Keys == Distributed())
      && (deliveries != map[] ==> started)
    }

    constructor ()
      ensures Valid() && participants == [] && deliveries == map[] && !started
    {
      participants, deliveries, started, Repr := [], map[], false, {};
      lastTime, healthy := 0, true;
    }

    /** Registration is over once anything has run, so no participant misses a delivery. */
    method Register(p: Participant) returns (ok: bool)
      requires Valid() && p.cache.Valid() && p.applied == map[]
      requires p !in Repr && (p.cache as object) !in Repr && (p as object) != this
      requires (p as object) != p.cache && (p.cache as object) != this
      modifies this`participants, this`Repr
      ensures Valid() && ok == (!old(started) && |old(participants)| < 2)
      ensures participants == if ok then old(participants) + [p] else old(participants)
    {
      hide Cache.DirectoryCache.Valid;
      if started || |participants| >= 2 { return false; }
      assert Distributed() == {};
      participants := participants + [p];
      Repr := Repr + {p, p.cache};
      ok := true;
    }

    method CheckDeadline(startedAt: int, reading: Option<int>) returns (failure: Option<Failure>)
      modifies this`lastTime, this`healthy
      ensures (Clock(lastTime, healthy), failure) == Checked(old(Clock(lastTime, healthy)), startedAt, reading)
    {
      if !healthy || reading.None? || reading.value < lastTime || reading.value > MAX_SAFE - BUDGET {
        healthy := false;
        return Some(ClockFailed);
      }
      lastTime := reading.value;
      failure := if lastTime < startedAt || lastTime - startedAt >= BUDGET then Some(Deadline) else None;
    }

    /** Callers that share a scheduled fetch share its delivery, with the time of the first. */
    method Run(id: nat, origin: Cache.Origin, startedAt: int)
      requires Valid()
      modifies this`started, this`deliveries
      ensures Valid() && started && id in deliveries
      ensures deliveries == if id in old(deliveries) then old(deliveries) else old(deliveries)[id := Waiting(origin, startedAt)]
    {
      started := true;
      if id !in deliveries {
        ghost var before := Distributed();
        deliveries := deliveries[id := Waiting(origin, startedAt)];
        assert Distributed() == before;
      }
    }

    /** The deadline is checked before the responses are prepared, and again after. */
    method Decide(startedAt: int, fetched: Result, faulty: bool, first: Option<int>, second: Option<int>)
      returns (r: Basics.Result<Result, Failure>)
      modifies this`lastTime, this`healthy
      ensures (Clock(lastTime, healthy), r) == Ending(old(Clock(lastTime, healthy)), startedAt, fetched, faulty, first, second)
    {
      hide Checked;
      var failure := CheckDeadline(startedAt, first);
      if failure.None? && fetched.Response? {
        if faulty {
          failure := Some(Broken);
        } else {
          failure := CheckDeadline(startedAt, second);
        }
      }
      r := if failure.Some? then Err(failure.value) else Ok(fetched);
    }

    /**
     * The fetch of a waiting delivery has ended, with the clock readings of the two deadline checks and
     * of each cache. The response is applied to every participant's cache once, as a committed set or a
     * recorded failure, or nothing changes in any of them.
     */
    method Settle(id: nat, fetched: Result, preparations: seq<Preparation>,
                  first: Option<int>, second: Option<int>, readings: seq<Option<int>>)
      returns (r: Basics.Result<Result, Failure>)
      requires Valid() && id in deliveries && deliveries[id].Waiting?
      requires |preparations| == |readings| == |participants|
      modifies this, Repr
      ensures Valid() && participants == old(participants) && Repr == old(Repr) && deliveries == old(deliveries)[id := Done(r)]
      ensures var faulty := exists k | 0 <= k < |preparations| :: preparations[k].Fault?;
              (Clock(lastTime, healthy), r) ==
              Ending(old(Clock(lastTime, healthy)), old(deliveries)[id].startedAt, fetched, faulty, first, second)
      ensures forall k | 0 <= k < |participants| ::
                var p := participants[k];
                var (next, refresh) := Applied(p.cache.options, old(p.cache.Value()), old(deliveries)[id].origin,
                                               preparations[k], readings[k]);
                if r == Ok(Response) then p.cache.Value() == next && id !in old(p.applied) && p.applied == old(p.applied)[id := refresh]
                else p.cache.Value() == old(p.cache.Value()) && p.applied == old(p.applied)
    {
      hide Applied, Ending, Cache.DirectoryCache.Valid, Cache.DirectoryCache.Value;
      var faulty := exists k | 0 <= k < |preparations| :: preparations[k].Fault?;
      r := Decide(deliveries[id].startedAt, fetched, faulty, first, second);
      OnlySoundResponses(Clock(old(lastTime), old(healthy)), deliveries[id].startedAt, fetched, faulty, first, second);
      Conclude(id, r, preparations, readings);
    }

    /** The delivery is over: a response goes to every participant, and anything else to none. */
    method Conclude(id: nat, r: Basics.Result<Result, Failure>, preparations: seq<Preparation>, readings: seq<Option<int>>)
      requires Valid() && id in deliveries && deliveries[id].Waiting?
      requires |preparations| == |readings| == |participants|
      requires r == Ok(Response) ==> forall k | 0 <= k < |preparations| :: !preparations[k].Fault?
      modifies this`deliveries, Repr
      ensures Valid() && deliveries == old(deliveries)[id := Done(r)]
      ensures forall k | 0 <= k < |participants| ::
                var p := participants[k];
                var (next, refresh) := Applied(p.cache.options, old(p.cache.Value()), old(deliveries)[id].origin,
                                               preparations[k], readings[k]);
                if r == Ok(Response) then p.cache.Value() == next && id !in old(p.applied) && p.applied == old(p.applied)[id := refresh]
                else p.cache.Value() == old(p.cache.Value()) && p.applied == old(p.applied)
    {
      hide Applied, Cache.DirectoryCache.Valid, Cache.DirectoryCache.Value;
      ghost var before := Distributed();
      if r == Ok(Response) {
        ApplyAll(id, deliveries[id].origin, preparations, readings);
      }
      deliveries := deliveries[id := Done(r)];
      assert Distributed() == if r == Ok(Response) then before + {id} else before;
    }

    method ApplyAll(id: nat, origin: Cache.Origin, preparations: seq<Preparation>, readings: seq<Option<int>>)
      requires Valid() && |preparations| == |readings| == |participants|
      requires forall k | 0 <= k < |preparations| :: !preparations[k].Fault?
      modifies Repr
      ensures forall k | 0 <= k < |participants| :: participants[k].cache.Valid()
      ensures forall k | 0 <= k < |participants| :: AppliedTo(participants[k], id, origin, preparations[k], readings[k])
    {
      hide Applied, Cache.DirectoryCache.Valid, Cache.DirectoryCache.Value;
      for i := 0 to |participants|
        invariant forall k | 0 <= k < |participants| :: participants[k].cache.Valid()
        invariant forall k | 0 <= k < i :: AppliedTo(participants[k], id, origin, preparations[k], readings[k])
        invariant forall k | i <= k < |participants| ::
                    participants[k].cache.Value() == old(participants[k].cache.Value())
                    && participants[k].applied == old(participants[k].applied)
      {
        participants[i].Apply(id, origin, preparations[i], readings[i]);
      }
    }
  }

  /** One participant's cache and answers are what applying the prepared response makes of them. */
  twostate predicate AppliedTo(p: Participant, id: nat, origin: Cache.Origin, preparation: Preparation, reading: Option<int>)
    reads p, p.cache
  {
    var (next, refresh) := Applied(p.cache.options, old(p.cache.Value()), origin, preparation, reading);
    p.cache.Value() == next && p.applied == old(p.applied)[id := refresh]
  }
}
