/**
 * The directory fetch scheduler, over any clock, any workers and any order of events: what holds between
 * events, what each event does, what a caller is answered, and what every failure can be put down to.
 */
module FetchScheduler {
  import opened Basics

  type Origin = string

  datatype Reason = Capacity | OriginRate | Deadline | ClockFailed | FetchFailed

  datatype Job = Job(id: nat, started: int, active: bool, settled: bool)

  datatype Start = Start(origin: Origin, id: nat, at: int)

  datatype Settlement<+T> = Delivered(value: T, started: int, completed: int) | Failed(reason: Reason)

  datatype Admission = Rejected(reason: Reason) | Joined(id: nat)

  const WINDOW := 1000
  const STARTS_PER_WINDOW := 32
  const COOLDOWN := 30000
  const BUDGET := 3000
  const MAX_ACTIVE := 16
  const MAX_QUEUE := 64
  const MAX_ORIGINS := 1000

  // ---------------------------------------------------------------- jobs and slots

  function ActiveOrigins(jobs: map<Origin, Job>): set<Origin> { set o | o in jobs && jobs[o].active }

  predicate Distinct(queue: seq<Origin>) { forall i, j | 0 <= i < j < |queue| :: queue[i] != queue[j] }

  /** The map holds exactly the queued and the active jobs, and `active` counts the latter. */
  predicate JobsOk(jobs: map<Origin, Job>, queue: seq<Origin>, active: nat) {
    && Distinct(queue)
    && (forall o | o in queue :: o in jobs && !jobs[o].active && !jobs[o].settled)
    && (forall o | o in jobs && !jobs[o].active :: o in queue)
    && active == |ActiveOrigins(jobs)|
  }

  function Elements(queue: seq<Origin>): set<Origin> { set o | o in queue }

  lemma {:induction false} ElementCount(queue: seq<Origin>)
    requires Distinct(queue)
    ensures |Elements(queue)| == |queue|
  {
    if queue != [] {
      ElementCount(queue[1..]);
      assert Elements(queue) == {queue[0]} + Elements(queue[1..]);
    }
  }

  lemma {:induction false} JobCount(jobs: map<Origin, Job>, queue: seq<Origin>, active: nat)
    requires JobsOk(jobs, queue, active)
    ensures |jobs| == active + |queue|
  {
    ElementCount(queue);
    assert jobs.Keys == ActiveOrigins(jobs) + Elements(queue);
    assert ActiveOrigins(jobs) !! Elements(queue);
    assert |jobs| == |jobs.Keys|;
  }

  function IndexOf(queue: seq<Origin>, o: Origin): (i: nat)
    ensures i <= |queue|
    ensures i < |queue| ==> queue[i] == o
    ensures i == |queue| ==> o !in queue
  {
    if queue == [] || queue[0] == o then 0 else 1 + IndexOf(queue[1..], o)
  }

  function Removed(queue: seq<Origin>, o: Origin): seq<Origin> {
    var i := IndexOf(queue, o);
    if i == |queue| then queue else queue[..i] + queue[i + 1..]
  }

  lemma RemovedMeaning(queue: seq<Origin>, o: Origin)
    requires Distinct(queue)
    ensures Distinct(Removed(queue, o)) && forall p :: p in Removed(queue, o) <==> p in queue && p != o
    ensures o in queue ==> |Removed(queue, o)| == |queue| - 1
    ensures o !in queue ==> Removed(queue, o) == queue
  {
    var i := IndexOf(queue, o);
    if i < |queue| {
      var r := Removed(queue, o);
      assert forall k | 0 <= k < |r| :: r[k] == queue[if k < i then k else k + 1];
      forall p | p in queue && p != o ensures p in r {
        var k :| 0 <= k < |queue| && queue[k] == p;
        assert r[if k < i then k else k - 1] == p;
      }
    }
  }

  lemma DropQueued(jobs: map<Origin, Job>, queue: seq<Origin>, active: nat, o: Origin)
    requires JobsOk(jobs, queue, active) && o in jobs && !jobs[o].active
    ensures JobsOk(jobs - {o}, Removed(queue, o), active) && |Removed(queue, o)| == |queue| - 1
  {
    RemovedMeaning(queue, o);
    assert ActiveOrigins(jobs - {o}) == ActiveOrigins(jobs);
  }

  /** What the order of the queue says about one job. */
  lemma QueueFacts(jobs: map<Origin, Job>, queue: seq<Origin>, active: nat, o: Origin)
    requires JobsOk(jobs, queue, active) && o in jobs
    ensures o in queue <==> !jobs[o].active
    ensures o in queue ==> !jobs[o].settled
    ensures forall p :: p in Removed(queue, o) <==> p in queue && p != o
    ensures |Removed(queue, o)| <= |queue| && (o !in queue ==> Removed(queue, o) == queue)
  {
    RemovedMeaning(queue, o);
  }

  lemma SettleActive(jobs: map<Origin, Job>, queue: seq<Origin>, active: nat, o: Origin)
    requires JobsOk(jobs, queue, active) && o in jobs && jobs[o].active
    ensures JobsOk(jobs[o := jobs[o].(settled := true)], queue, active)
  {
    assert ActiveOrigins(jobs[o := jobs[o].(settled := true)]) == ActiveOrigins(jobs);
  }

  lemma Enqueue(jobs: map<Origin, Job>, queue: seq<Origin>, active: nat, o: Origin, job: Job)
    requires JobsOk(jobs, queue, active) && o !in jobs && !job.active && !job.settled
    ensures JobsOk(jobs[o := job], queue + [o], active)
  {
    assert ActiveOrigins(jobs[o := job]) == ActiveOrigins(jobs);
  }

  lemma Dispatch(jobs: map<Origin, Job>, queue: seq<Origin>, active: nat)
    requires JobsOk(jobs, queue, active) && queue != []
    ensures queue[0] in jobs
    ensures JobsOk(jobs[queue[0] := jobs[queue[0]].(active := true)], queue[1..], active + 1)
  {
    var o := queue[0];
    var after := jobs[o := jobs[o].(active := true)];
    assert o !in ActiveOrigins(jobs) && ActiveOrigins(after) == ActiveOrigins(jobs) + {o};
    forall p | p in after && !after[p].active ensures p in queue[1..] {
      assert p in queue;
    }
  }

  lemma Release(jobs: map<Origin, Job>, queue: seq<Origin>, active: nat, o: Origin)
    requires JobsOk(jobs, queue, active) && o in jobs && jobs[o].active
    ensures active > 0 && JobsOk(jobs - {o}, queue, active - 1)
  {
    assert o in ActiveOrigins(jobs);
    assert ActiveOrigins(jobs - {o}) == ActiveOrigins(jobs) - {o};
  }

  // ---------------------------------------------------------------- outcomes

  predicate InTime<T>(s: Settlement<T>) { s.Delivered? ==> s.completed - s.started < BUDGET }

  /** How a job ends when its worker settles, by the clock sample taken then. */
  function Ending<T>(result: Option<T>, started: int, completed: Option<int>): Settlement<T> {
    if result.None? then Failed(FetchFailed)
    else if completed.None? then Failed(ClockFailed)
    else if completed.value - started >= BUDGET then Failed(Deadline)
    else Delivered(result.value, started, completed.value)
  }

  predicate HasId(jobs: map<Origin, Job>, id: nat) { exists o :: o in jobs && jobs[o].id == id }

  /** Every job created so far is either settled, once, or still in the map, and no value came late. */
  ghost predicate OutcomesOk<T>(jobs: map<Origin, Job>, outcomes: map<nat, Settlement<T>>, created: nat) {
    && (forall o | o in jobs :: jobs[o].id < created && (jobs[o].settled <==> jobs[o].id in outcomes))
    && (forall o, p | o in jobs && p in jobs && o != p :: jobs[o].id != jobs[p].id)
    && (forall id: nat | id < created && id !in outcomes :: HasId(jobs, id))
    && (forall id | id in outcomes :: id < created && InTime(outcomes[id]))
  }

  lemma SettleOutcome<T>(jobs: map<Origin, Job>, outcomes: map<nat, Settlement<T>>, created: nat, o: Origin, s: Settlement<T>)
    requires OutcomesOk(jobs, outcomes, created) && o in jobs && !jobs[o].settled && InTime(s)
    ensures jobs[o].id !in outcomes
    ensures OutcomesOk(jobs[o := jobs[o].(settled := true)], outcomes[jobs[o].id := s], created)
    ensures OutcomesOk(jobs - {o}, outcomes[jobs[o].id := s], created)
  {
    var after := outcomes[jobs[o].id := s];
    forall id: nat | id < created && id !in after
      ensures HasId(jobs - {o}, id) && HasId(jobs[o := jobs[o].(settled := true)], id)
    {
      var p :| p in jobs && jobs[p].id == id;
      assert p in jobs - {o} && (jobs - {o})[p].id == id;
      assert jobs[o := jobs[o].(settled := true)][p].id == id;
    }
  }

  lemma SettledHasOutcome<T>(jobs: map<Origin, Job>, outcomes: map<nat, Settlement<T>>, created: nat, o: Origin)
    requires OutcomesOk(jobs, outcomes, created) && o in jobs
    ensures jobs[o].settled <==> jobs[o].id in outcomes
  {
  }

  lemma ForgetSettled<T>(jobs: map<Origin, Job>, outcomes: map<nat, Settlement<T>>, created: nat, o: Origin)
    requires OutcomesOk(jobs, outcomes, created) && o in jobs && jobs[o].settled
    ensures OutcomesOk(jobs - {o}, outcomes, created)
  {
    forall id: nat | id < created && id !in outcomes ensures HasId(jobs - {o}, id) {
      var p :| p in jobs && jobs[p].id == id;
      assert p in jobs - {o};
    }
  }

  lemma ActivateOutcome<T>(jobs: map<Origin, Job>, outcomes: map<nat, Settlement<T>>, created: nat, o: Origin)
    requires OutcomesOk(jobs, outcomes, created) && o in jobs
    ensures OutcomesOk(jobs[o := jobs[o].(active := true)], outcomes, created)
  {
    var after := jobs[o := jobs[o].(active := true)];
    forall id: nat | id < created && id !in outcomes ensures HasId(after, id) {
      var p :| p in jobs && jobs[p].id == id;
      assert p in after && after[p].id == id;
    }
  }

  lemma CreateOutcome<T>(jobs: map<Origin, Job>, outcomes: map<nat, Settlement<T>>, created: nat, o: Origin, job: Job)
    requires OutcomesOk(jobs, outcomes, created) && o !in jobs && job.id == created && !job.settled
    ensures OutcomesOk(jobs[o := job], outcomes, created + 1)
  {
    var after := jobs[o := job];
    forall id: nat | id < created + 1 && id !in outcomes ensures HasId(after, id) {
      if id == created {
        assert after[o].id == id;
      } else {
        var p :| p in jobs && jobs[p].id == id;
        assert p in after && after[p].id == id;
      }
    }
  }

  // ---------------------------------------------------------------- the start window

  /** Any 33 consecutive starts span at least a second. */
  predicate Spaced(history: seq<Start>) {
    forall i | 0 <= i < |history| - STARTS_PER_WINDOW :: history[i + STARTS_PER_WINDOW].at - history[i].at >= WINDOW
  }

  predicate Ordered(history: seq<Start>) { forall i, j | 0 <= i <= j < |history| :: history[i].at <= history[j].at }

  /** `starts` are the latest starts, and every earlier one is outside the window. */
  predicate StartsOk(history: seq<Start>, starts: seq<int>, pruned: int) {
    && Ordered(history) && Spaced(history) && |starts| <= STARTS_PER_WINDOW && |starts| <= |history|
    && (forall i | 0 <= i < |history| :: history[i].at <= pruned)
    && (forall i | 0 <= i < |starts| :: starts[i] == history[|history| - |starts| + i].at)
    && (forall i | 0 <= i < |history| - |starts| :: pruned - history[i].at >= WINDOW)
  }

  lemma RecordStart(history: seq<Start>, starts: seq<int>, now: int, o: Origin, id: nat)
    requires StartsOk(history, starts, now) && |starts| < STARTS_PER_WINDOW
    ensures StartsOk(history + [Start(o, id, now)], starts + [now], now)
  {
    var after := history + [Start(o, id, now)];
    forall i | 0 <= i < |after| - STARTS_PER_WINDOW ensures after[i + STARTS_PER_WINDOW].at - after[i].at >= WINDOW {
      if i + STARTS_PER_WINDOW == |history| {
        assert after[i] == history[i] && i < |history| - |starts|;
      } else {
        assert after[i] == history[i] && after[i + STARTS_PER_WINDOW] == history[i + STARTS_PER_WINDOW];
      }
    }
  }

  /** Thirty windows of starts span the cooldown. */
  lemma {:induction false} SpacedApart(history: seq<Start>, i: nat, windows: nat)
    requires Spaced(history) && Ordered(history) && i + windows * STARTS_PER_WINDOW < |history|
    ensures history[i + windows * STARTS_PER_WINDOW].at - history[i].at >= windows * WINDOW
  {
    if windows > 0 {
      SpacedApart(history, i, windows - 1);
      assert history[i + (windows - 1) * STARTS_PER_WINDOW + STARTS_PER_WINDOW].at
          - history[i + (windows - 1) * STARTS_PER_WINDOW].at >= WINDOW;
    }
  }

  // ---------------------------------------------------------------- per-origin cooldown

  /** Two starts of one origin are at least the cooldown apart. */
  predicate CooledDown(history: seq<Start>) {
    forall i, j | 0 <= i < j < |history| && history[i].origin == history[j].origin :: history[j].at - history[i].at >= COOLDOWN
  }

  predicate StartedAt(history: seq<Start>, o: Origin, at: int) {
    exists i :: 0 <= i < |history| && history[i].origin == o && history[i].at == at
  }

  /** The tracked origins are exactly those started within the cooldown; no queued origin is among them. */
  predicate OriginsOk(history: seq<Start>, originStarts: map<Origin, int>, pruned: int, queue: seq<Origin>) {
    && CooledDown(history)
    && (forall o | o in originStarts :: pruned - originStarts[o] < COOLDOWN && StartedAt(history, o, originStarts[o]))
    && (forall i | 0 <= i < |history| && pruned - history[i].at < COOLDOWN ::
          history[i].origin in originStarts && originStarts[history[i].origin] == history[i].at)
    && (forall o | o in queue :: o !in originStarts)
  }

  lemma FewerQueued(history: seq<Start>, originStarts: map<Origin, int>, pruned: int, queue: seq<Origin>, fewer: seq<Origin>)
    requires OriginsOk(history, originStarts, pruned, queue) && forall o | o in fewer :: o in queue
    ensures OriginsOk(history, originStarts, pruned, fewer)
  {
  }

  lemma MoreQueued(history: seq<Start>, originStarts: map<Origin, int>, pruned: int, queue: seq<Origin>, o: Origin)
    requires OriginsOk(history, originStarts, pruned, queue) && o !in originStarts
    ensures OriginsOk(history, originStarts, pruned, queue + [o])
  {
  }

  lemma IdsAreOld<T>(jobs: map<Origin, Job>, outcomes: map<nat, Settlement<T>>, created: nat)
    requires OutcomesOk(jobs, outcomes, created)
    ensures forall o | o in jobs :: jobs[o].id < created
  {
  }

  function StartedOrigins(history: seq<Start>): set<Origin> { set i | 0 <= i < |history| :: history[i].origin }

  lemma {:induction false} StartedCount(history: seq<Start>)
    ensures |StartedOrigins(history)| <= |history|
  {
    if history != [] {
      var init := history[..|history| - 1];
      StartedCount(init);
      assert StartedOrigins(history) == StartedOrigins(init) + {history[|history| - 1].origin};
    } else {
      assert StartedOrigins(history) == {};
    }
  }

  /** The rate of starts bounds the tracked origins far below the defensive limit. */
  lemma TrackedOriginsBound(history: seq<Start>, starts: seq<int>, originStarts: map<Origin, int>, pruned: int, queue: seq<Origin>)
    requires StartsOk(history, starts, pruned) && OriginsOk(history, originStarts, pruned, queue)
    ensures |originStarts| <= COOLDOWN / WINDOW * STARTS_PER_WINDOW < MAX_ORIGINS
  {
    var recent := if |history| <= 960 then history else history[|history| - 960..];
    forall o | o in originStarts ensures o in StartedOrigins(recent) {
      var i :| 0 <= i < |history| && history[i].origin == o && history[i].at == originStarts[o];
      if |history| > 960 {
        if i < |history| - 960 {
          SpacedApart(history, i, 30);
          assert false;
        }
        assert recent[i - (|history| - 960)].origin == o;
      } else {
        assert recent[i].origin == o;
      }
    }
    StartedCount(recent);
    SubsetIsSmaller(originStarts.Keys, StartedOrigins(recent));
    assert |originStarts| == |originStarts.Keys|;
  }

  lemma RecordOrigin(history: seq<Start>, originStarts: map<Origin, int>, now: int, queue: seq<Origin>, id: nat)
    requires OriginsOk(history, originStarts, now, queue) && queue != [] && Distinct(queue)
    requires forall i | 0 <= i < |history| :: history[i].at <= now
    ensures OriginsOk(history + [Start(queue[0], id, now)], originStarts[queue[0] := now], now, queue[1..])
  {
    var o := queue[0];
    var after, tracked := history + [Start(o, id, now)], originStarts[o := now];
    assert o in queue;
    assert after[|history|] == Start(o, id, now);
    assert forall i | 0 <= i < |history| :: after[i] == history[i];
    forall p | p in tracked ensures StartedAt(after, p, tracked[p]) {
      if p != o {
        var i :| 0 <= i < |history| && history[i].origin == p && history[i].at == originStarts[p];
        assert after[i].origin == p;
      }
    }
    forall p | p in queue[1..] ensures p !in tracked {
      assert p in queue;
    }
  }

  lemma PruneStarts(history: seq<Start>, starts: seq<int>, pruned: int, now: int, dropped: nat)
    requires StartsOk(history, starts, pruned) && pruned <= now && dropped <= |starts|
    requires forall i | 0 <= i < dropped :: now - starts[i] >= WINDOW
    ensures StartsOk(history, starts[dropped..], now)
  {
    forall i | 0 <= i < |history| - |starts[dropped..]| ensures now - history[i].at >= WINDOW {
      if i >= |history| - |starts| {
        assert starts[i - (|history| - |starts|)] == history[i].at;
      }
    }
  }

  function Kept(originStarts: map<Origin, int>, now: int): map<Origin, int> {
    map o | o in originStarts && now - originStarts[o] < COOLDOWN :: originStarts[o]
  }

  lemma PruneOrigins(history: seq<Start>, originStarts: map<Origin, int>, pruned: int, now: int, queue: seq<Origin>)
    requires OriginsOk(history, originStarts, pruned, queue) && pruned <= now
    ensures OriginsOk(history, Kept(originStarts, now), now, queue)
  {
  }

  /** Some start of this origin is within the cooldown. */
  predicate Hot(history: seq<Start>, o: Origin, now: int) {
    exists i | 0 <= i < |history| :: history[i].origin == o && now - history[i].at < COOLDOWN
  }

  lemma TrackedIsHot(history: seq<Start>, originStarts: map<Origin, int>, now: int, queue: seq<Origin>, o: Origin)
    requires OriginsOk(history, originStarts, now, queue)
    ensures o in originStarts <==> Hot(history, o, now)
  {
    if o in originStarts {
      var i :| 0 <= i < |history| && history[i].origin == o && history[i].at == originStarts[o];
      assert history[i].origin == o;
    }
  }

  /** Thirty-two starts within the window. */
  predicate RateFull(history: seq<Start>, now: int) {
    |history| >= STARTS_PER_WINDOW && now - history[|history| - STARTS_PER_WINDOW].at < WINDOW
  }

  predicate Fresh(starts: seq<int>, now: int) { forall i | 0 <= i < |starts| :: now - starts[i] < WINDOW }

  lemma FullMeansRate(history: seq<Start>, starts: seq<int>, now: int)
    requires StartsOk(history, starts, now) && Fresh(starts, now)
    ensures |starts| >= STARTS_PER_WINDOW <==> RateFull(history, now)
  {
    if |starts| >= STARTS_PER_WINDOW {
      assert starts[0] == history[|history| - |starts|].at;
    }
  }

  // ---------------------------------------------------------------- dispatches and readings

  predicate Dispatched(history: seq<Start>, id: nat) { exists i :: 0 <= i < |history| && history[i].id == id }

  predicate DispatchedFor(history: seq<Start>, id: nat, o: Origin) {
    exists i :: 0 <= i < |history| && history[i].id == id && history[i].origin == o
  }

  /** The history has one start for each job that ever had a slot: no value comes from any other. */
  ghost predicate DispatchesOk<T>(jobs: map<Origin, Job>, outcomes: map<nat, Settlement<T>>, history: seq<Start>, created: nat) {
    && (forall i | 0 <= i < |history| :: history[i].id < created)
    && (forall i, j | 0 <= i < j < |history| :: history[i].id != history[j].id)
    && (forall o | o in jobs && jobs[o].active :: DispatchedFor(history, jobs[o].id, o))
    && (forall o | o in jobs && !jobs[o].active :: !Dispatched(history, jobs[o].id))
    && (forall id | id in outcomes && outcomes[id].Delivered? :: Dispatched(history, id))
  }

  lemma StartedIdsAreOld<T>(jobs: map<Origin, Job>, outcomes: map<nat, Settlement<T>>, history: seq<Start>, created: nat)
    requires DispatchesOk(jobs, outcomes, history, created)
    ensures forall i | 0 <= i < |history| :: history[i].id < created
  {
  }

  /** Exactly the active jobs have a start on record, and so has whatever gave a value. */
  lemma StartedMeans<T>(jobs: map<Origin, Job>, outcomes: map<nat, Settlement<T>>, history: seq<Start>, created: nat)
    requires DispatchesOk(jobs, outcomes, history, created)
    ensures forall o | o in jobs :: jobs[o].active <==> Dispatched(history, jobs[o].id)
    ensures forall id | id in outcomes && outcomes[id].Delivered? :: Dispatched(history, id)
  {
    forall o | o in jobs ensures jobs[o].active <==> Dispatched(history, jobs[o].id) {
      if jobs[o].active {
        assert DispatchedFor(history, jobs[o].id, o);
      }
    }
  }

  lemma SettleDispatch<T>(jobs: map<Origin, Job>, outcomes: map<nat, Settlement<T>>, history: seq<Start>, created: nat,
                          o: Origin, s: Settlement<T>)
    requires DispatchesOk(jobs, outcomes, history, created) && o in jobs && (s.Delivered? ==> jobs[o].active)
    ensures DispatchesOk(jobs[o := jobs[o].(settled := true)], outcomes[jobs[o].id := s], history, created)
    ensures DispatchesOk(jobs - {o}, outcomes[jobs[o].id := s], history, created)
  {
  }

  lemma ForgetDispatch<T>(jobs: map<Origin, Job>, outcomes: map<nat, Settlement<T>>, history: seq<Start>, created: nat, o: Origin)
    requires DispatchesOk(jobs, outcomes, history, created)
    ensures DispatchesOk(jobs - {o}, outcomes, history, created)
  {
  }

  lemma CreateDispatch<T>(jobs: map<Origin, Job>, outcomes: map<nat, Settlement<T>>, history: seq<Start>, created: nat,
                          o: Origin, job: Job)
    requires DispatchesOk(jobs, outcomes, history, created) && job.id == created && !job.active
    ensures DispatchesOk(jobs[o := job], outcomes, history, created + 1)
  {
  }

  lemma OwnId<T>(jobs: map<Origin, Job>, outcomes: map<nat, Settlement<T>>, created: nat, o: Origin)
    requires OutcomesOk(jobs, outcomes, created) && o in jobs
    ensures jobs[o].id < created && forall p | p in jobs && p != o :: jobs[p].id != jobs[o].id
  {
  }

  lemma RecordDispatch<T>(jobs: map<Origin, Job>, outcomes: map<nat, Settlement<T>>, history: seq<Start>, created: nat,
                          o: Origin, now: int)
    requires DispatchesOk(jobs, outcomes, history, created) && o in jobs && !jobs[o].active
    requires jobs[o].id < created && forall p | p in jobs && p != o :: jobs[p].id != jobs[o].id
    ensures DispatchesOk(jobs[o := jobs[o].(active := true)], outcomes, history + [Start(o, jobs[o].id, now)], created)
  {
    hide Dispatched, DispatchedFor;
    var start := Start(o, jobs[o].id, now);
    forall p | p in jobs
      ensures p != o ==> (Dispatched(history + [start], jobs[p].id) <==> Dispatched(history, jobs[p].id))
      ensures DispatchedFor(history, jobs[p].id, p) || p == o ==> DispatchedFor(history + [start], jobs[p].id, p)
    {
      DispatchedGrows(history, start, jobs[p].id, p);
    }
    forall id | id in outcomes && outcomes[id].Delivered? ensures Dispatched(history + [start], id) {
      DispatchedGrows(history, start, id, o);
    }
    NotDispatched(history, jobs[o].id);
  }

  lemma DispatchedGrows(history: seq<Start>, start: Start, id: nat, o: Origin)
    ensures Dispatched(history + [start], id) <==> Dispatched(history, id) || id == start.id
    ensures DispatchedFor(history, id, o) || (id == start.id && o == start.origin) ==> DispatchedFor(history + [start], id, o)
  {
    var after := history + [start];
    assert after[|history|] == start;
    assert forall i | 0 <= i < |history| :: after[i] == history[i];
  }

  lemma NotDispatched(history: seq<Start>, id: nat)
    requires !Dispatched(history, id)
    ensures forall i | 0 <= i < |history| :: history[i].id != id
  {
  }

  /** The clock gave this time at one of the first `ticks` readings. */
  ghost predicate Given(clock: nat -> Option<int>, ticks: nat, t: int) { exists k: nat :: k < ticks && clock(k) == Some(t) }

  /** Every time on record was read from the clock. */
  ghost predicate TimesOk<T>(clock: nat -> Option<int>, ticks: nat, history: seq<Start>, outcomes: map<nat, Settlement<T>>) {
    && (forall i | 0 <= i < |history| :: Given(clock, ticks, history[i].at))
    && (forall id | id in outcomes && outcomes[id].Delivered? :: Given(clock, ticks, outcomes[id].completed))
  }

  lemma MoreTicks<T>(clock: nat -> Option<int>, ticks: nat, history: seq<Start>, outcomes: map<nat, Settlement<T>>, lastTime: int)
    requires TimesOk(clock, ticks, history, outcomes) && (lastTime == 0 || Given(clock, ticks, lastTime))
    ensures TimesOk(clock, ticks + 1, history, outcomes) && (lastTime == 0 || Given(clock, ticks + 1, lastTime))
    ensures clock(ticks).Some? ==> Given(clock, ticks + 1, clock(ticks).value)
  {
  }

  lemma SettleTime<T>(clock: nat -> Option<int>, ticks: nat, history: seq<Start>, outcomes: map<nat, Settlement<T>>,
                      id: nat, s: Settlement<T>)
    requires TimesOk(clock, ticks, history, outcomes) && (s.Delivered? ==> Given(clock, ticks, s.completed))
    ensures TimesOk(clock, ticks, history, outcomes[id := s])
  {
  }

  lemma RecordTime<T>(clock: nat -> Option<int>, ticks: nat, history: seq<Start>, outcomes: map<nat, Settlement<T>>, start: Start)
    requires TimesOk(clock, ticks, history, outcomes) && Given(clock, ticks, start.at)
    ensures TimesOk(clock, ticks, history + [start], outcomes)
  {
  }

  // ---------------------------------------------------------------- the order of starts

  /** Jobs start in the order of their creation, and whatever waits was created after everything that started. */
  ghost predicate InOrder(jobs: map<Origin, Job>, queue: seq<Origin>, history: seq<Start>) {
    && (forall i, j | 0 <= i < j < |history| :: history[i].id < history[j].id)
    && (forall i, j | 0 <= i < j < |queue| && queue[i] in jobs && queue[j] in jobs :: jobs[queue[i]].id < jobs[queue[j]].id)
    && (forall i, o | 0 <= i < |history| && o in queue && o in jobs :: history[i].id < jobs[o].id)
  }

  lemma SettleInOrder(jobs: map<Origin, Job>, queue: seq<Origin>, history: seq<Start>, o: Origin)
    requires InOrder(jobs, queue, history) && o in jobs
    ensures InOrder(jobs[o := jobs[o].(settled := true)], queue, history)
  {
  }

  lemma ForgetInOrder(jobs: map<Origin, Job>, queue: seq<Origin>, history: seq<Start>, o: Origin)
    requires InOrder(jobs, queue, history)
    ensures InOrder(jobs - {o}, queue, history) && InOrder(jobs - {o}, Removed(queue, o), history)
  {
    var i := IndexOf(queue, o);
    if i < |queue| {
      var r := Removed(queue, o);
      assert forall k | 0 <= k < |r| :: r[k] == queue[if k < i then k else k + 1];
    }
  }

  lemma EnqueueInOrder(jobs: map<Origin, Job>, queue: seq<Origin>, history: seq<Start>, o: Origin, job: Job)
    requires InOrder(jobs, queue, history) && o !in queue
    requires forall p | p in jobs :: jobs[p].id < job.id
    requires forall i | 0 <= i < |history| :: history[i].id < job.id
    ensures InOrder(jobs[o := job], queue + [o], history)
  {
  }

  lemma StartInOrder(jobs: map<Origin, Job>, queue: seq<Origin>, history: seq<Start>, at: int)
    requires InOrder(jobs, queue, history) && queue != [] && queue[0] in jobs && Distinct(queue)
    ensures var o := queue[0];
            InOrder(jobs[o := jobs[o].(active := true)], queue[1..], history + [Start(o, jobs[o].id, at)])
  {
    var o, rest := queue[0], queue[1..];
    forall p | p in rest && p in jobs ensures jobs[o].id < jobs[p].id {
      var k :| 0 <= k < |rest| && rest[k] == p;
      assert queue[k + 1] == p;
    }
    assert forall k | 0 <= k < |rest| :: rest[k] == queue[k + 1];
  }

  // ---------------------------------------------------------------- budgets and causes

  /** Every job ever created has the start its budget runs from, and keeps it to the end. */
  ghost predicate BeganOk<T>(jobs: map<Origin, Job>, outcomes: map<nat, Settlement<T>>, began: map<nat, int>, created: nat) {
    && (forall id: nat :: id in began <==> id < created)
    && (forall o | o in jobs :: jobs[o].id in began && jobs[o].started == began[jobs[o].id])
    && (forall id | id in outcomes && outcomes[id].Delivered? :: id in began && outcomes[id].started == began[id])
  }

  lemma SettleBegan<T>(jobs: map<Origin, Job>, outcomes: map<nat, Settlement<T>>, began: map<nat, int>, created: nat,
                       o: Origin, s: Settlement<T>)
    requires BeganOk(jobs, outcomes, began, created) && o in jobs && (s.Delivered? ==> s.started == jobs[o].started)
    ensures BeganOk(jobs[o := jobs[o].(settled := true)], outcomes[jobs[o].id := s], began, created)
    ensures BeganOk(jobs - {o}, outcomes[jobs[o].id := s], began, created)
  {
  }

  lemma ForgetBegan<T>(jobs: map<Origin, Job>, outcomes: map<nat, Settlement<T>>, began: map<nat, int>, created: nat, o: Origin)
    requires BeganOk(jobs, outcomes, began, created)
    ensures BeganOk(jobs - {o}, outcomes, began, created)
  {
  }

  lemma ActivateBegan<T>(jobs: map<Origin, Job>, outcomes: map<nat, Settlement<T>>, began: map<nat, int>, created: nat, o: Origin)
    requires BeganOk(jobs, outcomes, began, created) && o in jobs
    ensures BeganOk(jobs[o := jobs[o].(active := true)], outcomes, began, created)
  {
  }

  lemma CreateBegan<T>(jobs: map<Origin, Job>, outcomes: map<nat, Settlement<T>>, began: map<nat, int>, created: nat,
                       o: Origin, job: Job)
    requires BeganOk(jobs, outcomes, began, created) && job.id == created
    ensures BeganOk(jobs[o := job], outcomes, began[created := job.started], created + 1)
  {
  }

  lemma NewIsNew<T>(jobs: map<Origin, Job>, outcomes: map<nat, Settlement<T>>, began: map<nat, int>, created: nat)
    requires BeganOk(jobs, outcomes, began, created)
    ensures created !in began
  {
  }

  lemma JobBegan<T>(jobs: map<Origin, Job>, outcomes: map<nat, Settlement<T>>, began: map<nat, int>, created: nat, o: Origin)
    requires BeganOk(jobs, outcomes, began, created) && o in jobs
    ensures jobs[o].id in began && jobs[o].started == began[jobs[o].id]
  {
  }

  /** Everything a failure can be put down to. */
  datatype Evidence = Evidence(
    healthy: bool,
    lastTime: int,
    history: seq<Start>,
    began: map<nat, int>,
    throws: nat -> bool,   // workers that throw at once
    rejected: set<nat>,    // workers that settled without a value
    timedOut: set<nat>)    // deadline timers that fired

  /**
   * Why a job may fail: never for want of room or rate, for the clock only when the clock failed, for
   * the fetch only when its worker ran and gave no value, and for the deadline only when its timer
   * fired or a reading was past its budget.
   */
  ghost predicate Cause(e: Evidence, reason: Reason, id: nat) {
    match reason
    case Capacity => false
    case OriginRate => false
    case ClockFailed => !e.healthy
    case FetchFailed => Dispatched(e.history, id) && (e.throws(id) || id in e.rejected)
    case Deadline => id in e.timedOut || (id in e.began && e.lastTime - e.began[id] >= BUDGET)
  }

  ghost predicate CausesOk<T>(e: Evidence, outcomes: map<nat, Settlement<T>>) {
    forall id | id in outcomes && outcomes[id].Failed? :: Cause(e, outcomes[id].reason, id)
  }

  /** Evidence only accumulates. */
  ghost predicate Extends(e: Evidence, more: Evidence) {
    && (more.healthy ==> e.healthy) && e.lastTime <= more.lastTime && e.history <= more.history && more.throws == e.throws
    && e.rejected <= more.rejected && e.timedOut <= more.timedOut
    && (forall id | id in e.began :: id in more.began && more.began[id] == e.began[id])
  }

  lemma DispatchedStays(history: seq<Start>, more: seq<Start>, id: nat)
    requires history <= more && Dispatched(history, id)
    ensures Dispatched(more, id)
  {
    var i :| 0 <= i < |history| && history[i].id == id;
    assert more[i].id == id;
  }

  lemma CausesStay<T>(e: Evidence, more: Evidence, outcomes: map<nat, Settlement<T>>)
    requires CausesOk(e, outcomes) && Extends(e, more)
    ensures CausesOk(more, outcomes)
  {
    hide Dispatched;
    forall id | id in outcomes && outcomes[id].Failed? ensures Cause(more, outcomes[id].reason, id) {
      if outcomes[id].reason.FetchFailed? { DispatchedStays(e.history, more.history, id); }
    }
  }

  lemma OverdueCause(e: Evidence, id: nat)
    requires id in e.began && e.lastTime - e.began[id] >= BUDGET
    ensures Cause(e, Deadline, id)
  {
  }

  lemma TimerCause<T>(e: Evidence, outcomes: map<nat, Settlement<T>>, id: nat)
    requires CausesOk(e, outcomes)
    ensures CausesOk(e.(timedOut := e.timedOut + {id}), outcomes) && Cause(e.(timedOut := e.timedOut + {id}), Deadline, id)
  {
    CausesStay(e, e.(timedOut := e.timedOut + {id}), outcomes);
  }

  lemma RejectionCause<T>(e: Evidence, outcomes: map<nat, Settlement<T>>, id: nat)
    requires CausesOk(e, outcomes) && Dispatched(e.history, id)
    ensures CausesOk(e.(rejected := e.rejected + {id}), outcomes) && Cause(e.(rejected := e.rejected + {id}), FetchFailed, id)
  {
    CausesStay(e, e.(rejected := e.rejected + {id}), outcomes);
  }

  lemma ThrowCause(e: Evidence, id: nat)
    requires Dispatched(e.history, id) && e.throws(id)
    ensures Cause(e, FetchFailed, id)
  {
  }

  lemma ClockCause(e: Evidence, id: nat)
    requires !e.healthy
    ensures Cause(e, ClockFailed, id)
  {
  }

  lemma DispatchKeepsCauses<T>(e: Evidence, outcomes: map<nat, Settlement<T>>, start: Start)
    requires CausesOk(e, outcomes)
    ensures CausesOk(e.(history := e.history + [start]), outcomes)
  {
    CausesStay(e, e.(history := e.history + [start]), outcomes);
  }

  lemma ReadingKeepsCauses<T>(e: Evidence, outcomes: map<nat, Settlement<T>>, healthy: bool, time: int)
    requires CausesOk(e, outcomes) && (healthy ==> e.healthy) && e.lastTime <= time
    ensures CausesOk(e.(healthy := healthy, lastTime := time), outcomes)
  {
    CausesStay(e, e.(healthy := healthy, lastTime := time), outcomes);
  }

  lemma CreationKeepsCauses<T>(e: Evidence, outcomes: map<nat, Settlement<T>>, id: nat, started: int)
    requires CausesOk(e, outcomes) && id !in e.began
    ensures CausesOk(e.(began := e.began[id := started]), outcomes)
  {
    CausesStay(e, e.(began := e.began[id := started]), outcomes);
  }

  lemma SettleCause<T>(e: Evidence, outcomes: map<nat, Settlement<T>>, id: nat, s: Settlement<T>)
    requires CausesOk(e, outcomes) && (s.Failed? ==> Cause(e, s.reason, id))
    ensures CausesOk(e, outcomes[id := s])
  {
  }

  lemma ActiveIsDispatched<T>(jobs: map<Origin, Job>, outcomes: map<nat, Settlement<T>>, history: seq<Start>, created: nat, o: Origin)
    requires DispatchesOk(jobs, outcomes, history, created) && o in jobs && jobs[o].active
    ensures Dispatched(history, jobs[o].id)
  {
    assert DispatchedFor(history, jobs[o].id, o);
  }

  // ---------------------------------------------------------------- the scheduler

  /** What the scheduler makes of one clock reading; `None` is a clock that threw or gave no finite number. */
  function Sampled(healthy: bool, lastTime: int, reading: Option<int>): Option<int> {
    if healthy && reading.Some? && lastTime <= reading.value <= MAX_SAFE - COOLDOWN then reading else None
  }

  /** Every public method is one uninterrupted stretch of the source between two suspensions. */
  class DirectoryFetchScheduler<T> {
    /** What the clock gives at each reading, and whether the worker of a job throws at once. */
    const clock: nat -> Option<int>
    const throws: nat -> bool
    var ticks: nat
    var jobs: map<Origin, Job>
    var queue: seq<Origin>
    var originStarts: map<Origin, int>
    var starts: seq<int>
    var active: nat
    var lastTime: int
    var healthy: bool
    var wake: bool
    var created: nat
    /** Every dispatch there ever was, when tracking was last pruned, and how each job ended. */
    ghost var history: seq<Start>
    ghost var pruned: int
    ghost var outcomes: map<nat, Settlement<T>>
    /** The start each job's budget runs from, the workers that settled without a value, the timers that fired. */
    ghost var began: map<nat, int>
    ghost var rejected: set<nat>
    ghost var timedOut: set<nat>

    /** What the failures so far can be put down to. */
    ghost function Record(): Evidence
      reads this`lastTime, this`healthy, this`history, this`began, this`rejected, this`timedOut
    {
      Evidence(healthy, lastTime, history, began, throws, rejected, timedOut)
    }

    ghost predicate Shape()
      reads this`ticks, this`jobs, this`queue, this`originStarts, this`starts, this`active, this`lastTime, this`healthy,
            this`created, this`history, this`pruned, this`outcomes, this`began, this`rejected, this`timedOut
    {
      && JobsOk(jobs, queue, active) && active <= MAX_ACTIVE
      && OutcomesOk(jobs, outcomes, created)
      && StartsOk(history, starts, pruned)
      && OriginsOk(history, originStarts, pruned, queue)
      && DispatchesOk(jobs, outcomes, history, created)
      && TimesOk(clock, ticks, history, outcomes)
      && BeganOk(jobs, outcomes, began, created)
      && InOrder(jobs, queue, history)
      && CausesOk(Record(), outcomes)
      && pruned <= lastTime && (lastTime == 0 || Given(clock, ticks, lastTime))
    }

    /** A failed clock leaves nothing waiting and no job unsettled. */
    ghost predicate HealthOk()
      reads this
    {
      healthy || (queue == [] && !wake && forall o | o in jobs :: jobs[o].settled)
    }

    /** Nothing waits without a free slot coming up or a timer that will look again. */
    ghost predicate NoLostWakeup()
      reads this
    {
      queue == [] || active == MAX_ACTIVE || wake
    }

    /** Whatever waits beside a free slot waits for the start rate alone. */
    ghost predicate WorkConserving()
      reads this
    {
      healthy && queue != [] && active < MAX_ACTIVE ==> wake && RateFull(history, lastTime)
    }

    /** The reading the next call is given. */
    ghost function Reading(): Option<int>
      reads this
    {
      Sampled(healthy, lastTime, clock(ticks))
    }

    /** What holds between any two events. */
    ghost predicate Valid()
      reads this
    {
      Shape() && HealthOk() && NoLostWakeup() && |queue| <= MAX_QUEUE
    }

    /** Time, dispatches and outcomes only accumulate; nothing that settled settles again. */
    twostate predicate Grows()
      reads this
    {
      && old(ticks) <= ticks && old(lastTime) <= lastTime && old(history) <= history && (healthy ==> old(healthy))
      && forall id | id in old(outcomes) :: id in outcomes && outcomes[id] == old(outcomes)[id]
    }

    constructor (clock: nat -> Option<int>, throws: nat -> bool)
      ensures Valid() && this.clock == clock && this.throws == throws
      ensures jobs == map[] && history == [] && created == 0 && ticks == 0 && lastTime == 0 && healthy
      ensures rejected == {} && timedOut == {}
    {
      this.clock, this.throws, ticks := clock, throws, 0;
      jobs, queue, originStarts, starts, active := map[], [], map[], [], 0;
      lastTime, healthy, wake, created := 0, true, false, 0;
      history, pruned, outcomes := [], 0, map[];
      began, rejected, timedOut := map[], {}, {};
      new;
      assert ActiveOrigins(jobs) == {};
    }

    /** An unsettled job settles: an active one keeps its slot and origin, a queued one is gone. */
    lemma SettleKeeps(o: Origin, s: Settlement<T>)
      requires Shape() && o in jobs && !jobs[o].settled
      requires s.Failed? ==> Cause(Record(), s.reason, jobs[o].id)
      requires s.Delivered? ==> jobs[o].active && s.started == jobs[o].started && InTime(s) && Given(clock, ticks, s.completed)
      ensures var more := outcomes[jobs[o].id := s];
              && jobs[o].id !in outcomes && TimesOk(clock, ticks, history, more) && CausesOk(Record(), more)
              && if jobs[o].active then
                   var after := jobs[o := jobs[o].(settled := true)];
                   JobsOk(after, queue, active) && OutcomesOk(after, more, created)
                   && DispatchesOk(after, more, history, created) && BeganOk(after, more, began, created)
                   && InOrder(after, queue, history)
                 else
                   JobsOk(jobs - {o}, Removed(queue, o), active) && OutcomesOk(jobs - {o}, more, created)
                   && DispatchesOk(jobs - {o}, more, history, created) && BeganOk(jobs - {o}, more, began, created)
                   && OriginsOk(history, originStarts, pruned, Removed(queue, o))
                   && InOrder(jobs - {o}, Removed(queue, o), history)
    {
      hide JobsOk, OutcomesOk, OriginsOk, StartsOk, DispatchesOk, TimesOk, BeganOk, InOrder, CausesOk, Cause, Given,
           Dispatched, Removed;
      QueueFacts(jobs, queue, active, o);
      SettleOutcome(jobs, outcomes, created, o, s);
      SettleDispatch(jobs, outcomes, history, created, o, s);
      SettleTime(clock, ticks, history, outcomes, jobs[o].id, s);
      SettleBegan(jobs, outcomes, began, created, o, s);
      SettleCause(Record(), outcomes, jobs[o].id, s);
      if jobs[o].active {
        SettleActive(jobs, queue, active, o);
        SettleInOrder(jobs, queue, history, o);
      } else {
        ForgetInOrder(jobs, queue, history, o);
        DropQueued(jobs, queue, active, o);
        FewerQueued(history, originStarts, pruned, queue, Removed(queue, o));
      }
    }

    /** The head of the queue gets a slot and a start. */
    lemma DequeueKeeps(now: int)
      requires Shape() && queue != [] && now == lastTime == pruned
      requires |starts| < STARTS_PER_WINDOW && Given(clock, ticks, now)
      ensures queue[0] in jobs && !jobs[queue[0]].active
      ensures var o := queue[0]; var job := jobs[o];
              var after, more := jobs[o := job.(active := true)], history + [Start(o, job.id, now)];
              && JobsOk(after, queue[1..], active + 1) && OutcomesOk(after, outcomes, created)
              && StartsOk(more, starts + [now], pruned) && OriginsOk(more, originStarts[o := now], pruned, queue[1..])
              && DispatchesOk(after, outcomes, more, created) && TimesOk(clock, ticks, more, outcomes)
              && BeganOk(after, outcomes, began, created) && InOrder(after, queue[1..], more)
              && CausesOk(Record().(history := more), outcomes)
    {
      hide JobsOk, OutcomesOk, OriginsOk, StartsOk, DispatchesOk, TimesOk, BeganOk, InOrder, CausesOk, Cause, Given,
           Dispatched;
      HeadWaits(jobs, queue, active);
      var o := queue[0];
      Dispatch(jobs, queue, active);
      ActivateOutcome(jobs, outcomes, created, o);
      ActivateBegan(jobs, outcomes, began, created, o);
      StartInOrder(jobs, queue, history, now);
      DispatchKeepsCauses(Record(), outcomes, Start(o, jobs[o].id, now));
      RecordStart(history, starts, now, o, jobs[o].id);
      TimesArePast(history, starts, now);
      RecordOrigin(history, originStarts, now, queue, jobs[o].id);
      OwnId(jobs, outcomes, created, o);
      RecordDispatch(jobs, outcomes, history, created, o, now);
      RecordTime(clock, ticks, history, outcomes, Start(o, jobs[o].id, now));
    }

    /** A new job joins the queue. */
    lemma AdmitKeeps(o: Origin, job: Job)
      requires Shape() && o !in jobs && o !in originStarts && job.id == created && !job.active && !job.settled
      ensures var after := jobs[o := job];
              && JobsOk(after, queue + [o], active) && OutcomesOk(after, outcomes, created + 1)
              && OriginsOk(history, originStarts, pruned, queue + [o]) && DispatchesOk(after, outcomes, history, created + 1)
              && BeganOk(after, outcomes, began[created := job.started], created + 1) && InOrder(after, queue + [o], history)
              && CausesOk(Record().(began := began[created := job.started]), outcomes)
    {
      hide JobsOk, OutcomesOk, OriginsOk, StartsOk, DispatchesOk, TimesOk, BeganOk, InOrder, CausesOk, Cause, Given,
           Dispatched;
      Enqueue(jobs, queue, active, o, job);
      CreateOutcome(jobs, outcomes, created, o, job);
      CreateDispatch(jobs, outcomes, history, created, o, job);
      CreateBegan(jobs, outcomes, began, created, o, job);
      NewIsNew(jobs, outcomes, began, created);
      Waiting(jobs, queue, active);
      IdsAreOld(jobs, outcomes, created);
      StartedIdsAreOld(jobs, outcomes, history, created);
      EnqueueInOrder(jobs, queue, history, o, job);
      CreationKeepsCauses(Record(), outcomes, created, job.started);
      MoreQueued(history, originStarts, pruned, queue, o);
    }

    /** What the shape of the whole says about one job, and why it might fail now. */
    lemma JobFacts(o: Origin)
      requires Shape() && o in jobs
      ensures jobs[o].id < created && (jobs[o].settled <==> jobs[o].id in outcomes) && (o in queue <==> !jobs[o].active)
      ensures jobs[o].active ==> Dispatched(history, jobs[o].id)
      ensures !healthy ==> Cause(Record(), ClockFailed, jobs[o].id)
      ensures lastTime - jobs[o].started >= BUDGET ==> Cause(Record(), Deadline, jobs[o].id)
      ensures jobs[o].active && throws(jobs[o].id) ==> Cause(Record(), FetchFailed, jobs[o].id)
    {
      hide JobsOk, OutcomesOk, OriginsOk, StartsOk, DispatchesOk, TimesOk, BeganOk, InOrder, CausesOk, Cause, Given,
           Dispatched;
      IdsAreOld(jobs, outcomes, created);
      SettledHasOutcome(jobs, outcomes, created, o);
      QueueFacts(jobs, queue, active, o);
      JobBegan(jobs, outcomes, began, created, o);
      if !healthy { ClockCause(Record(), jobs[o].id); }
      if lastTime - jobs[o].started >= BUDGET { OverdueCause(Record(), jobs[o].id); }
      if jobs[o].active {
        ActiveIsDispatched(jobs, outcomes, history, created, o);
        if throws(jobs[o].id) { ThrowCause(Record(), jobs[o].id); }
      }
    }

    lemma QueueWaits()
      requires Shape()
      ensures Distinct(queue) && forall o | o in queue :: o in jobs && !jobs[o].active && !jobs[o].settled
      ensures queue != [] ==> queue[0] in jobs && !jobs[queue[0]].settled
    {
      hide JobsOk, OutcomesOk, OriginsOk, StartsOk, DispatchesOk, TimesOk, BeganOk, InOrder, CausesOk, Cause, Given,
           Dispatched;
      Waiting(jobs, queue, active);
    }

    /** Once pruned, the tracked starts and origins say exactly what the whole history says. */
    lemma AdmissionFacts(o: Origin)
      requires Shape() && pruned == lastTime && Fresh(starts, lastTime)
      ensures o in originStarts <==> Hot(history, o, lastTime)
      ensures |starts| >= STARTS_PER_WINDOW <==> RateFull(history, lastTime)
      ensures |originStarts| < MAX_ORIGINS
    {
      hide JobsOk, OutcomesOk, OriginsOk, StartsOk, DispatchesOk, TimesOk, BeganOk, InOrder, CausesOk, Cause, Given,
           Dispatched, Hot, RateFull, Fresh;
      TrackedIsHot(history, originStarts, lastTime, queue, o);
      FullMeansRate(history, starts, lastTime);
      OriginsBelowLimit();
    }

    lemma OriginsBelowLimit()
      requires Shape()
      ensures |originStarts| < MAX_ORIGINS
    {
      hide JobsOk, OutcomesOk, OriginsOk, StartsOk, DispatchesOk, TimesOk, BeganOk, InOrder, CausesOk, Cause, Given,
           Dispatched;
      TrackedOriginsBound(history, starts, originStarts, pruned, queue);
    }

    lemma ShapeFacts()
      requires Shape()
      ensures active <= MAX_ACTIVE && pruned <= lastTime
    {
      hide JobsOk, OutcomesOk, OriginsOk, StartsOk, DispatchesOk, TimesOk, BeganOk, InOrder, CausesOk, Cause, Given,
           Dispatched;
    }

    /** A settled job gives back its slot and its origin. */
    lemma FinishKeeps(o: Origin)
      requires Shape() && o in jobs && jobs[o].active && jobs[o].settled
      ensures active > 0
      ensures var after := jobs - {o};
              && JobsOk(after, queue, active - 1) && OutcomesOk(after, outcomes, created)
              && DispatchesOk(after, outcomes, history, created) && BeganOk(after, outcomes, began, created)
              && InOrder(after, queue, history)
    {
      hide JobsOk, OutcomesOk, OriginsOk, StartsOk, DispatchesOk, TimesOk, BeganOk, InOrder, CausesOk, Cause, Given,
           Dispatched;
      Release(jobs, queue, active, o);
      ForgetSettled(jobs, outcomes, created, o);
      ForgetDispatch(jobs, outcomes, history, created, o);
      ForgetBegan(jobs, outcomes, began, created, o);
      ForgetInOrder(jobs, queue, history, o);
    }

    method Fail(o: Origin, reason: Reason)
      requires Shape() && o in jobs && (!jobs[o].settled ==> Cause(Record(), reason, jobs[o].id))
      modifies this`jobs, this`queue, this`outcomes
      ensures Shape() && Grows()
      ensures o in jobs ==> jobs[o].settled && jobs[o].active
      ensures !old(jobs)[o].settled ==> old(jobs)[o].id in outcomes && outcomes[old(jobs)[o].id] == Failed(reason)
      ensures forall p | p != o :: (p in jobs <==> p in old(jobs)) && (p in jobs ==> jobs[p] == old(jobs)[p])
      ensures queue == Removed(old(queue), o) && |queue| <= |old(queue)|
      ensures forall p :: p in queue <==> p in old(queue) && p != o
      ensures o in jobs <==> old(jobs)[o].active
      ensures o in jobs ==> jobs[o].id == old(jobs)[o].id && jobs[o].started == old(jobs)[o].started
    {
      hide JobsOk, OutcomesOk, StartsOk, OriginsOk, DispatchesOk, TimesOk, BeganOk, InOrder, CausesOk, Cause, Given,
           Dispatched, Removed;
      QueueFacts(jobs, queue, active, o);
      var job := jobs[o];
      if job.settled { return; }
      SettleKeeps(o, Failed(reason));
      outcomes := outcomes[job.id := Failed(reason)];
      if job.active {
        jobs := jobs[o := job.(settled := true)];
      } else {
        queue := Removed(queue, o);
        jobs := jobs - {o};
      }
    }

    /** One clock reading; a missing, infinite, regressing or too large one ends all work. */
    method Now() returns (now: Option<int>)
      requires Shape() && HealthOk()
      modifies this`ticks, this`jobs, this`queue, this`outcomes, this`lastTime, this`healthy, this`wake
      ensures Shape() && HealthOk() && Grows() && |queue| <= |old(queue)| && jobs.Keys <= old(jobs).Keys
      ensures now == old(Reading()) && ticks == old(ticks) + if old(healthy) then 1 else 0
      ensures now.Some? <==> healthy
      ensures lastTime == if now.Some? then now.value else old(lastTime)
      ensures now.Some? ==> jobs == old(jobs) && queue == old(queue) && wake == old(wake) && outcomes == old(outcomes)
      ensures now.Some? ==> Given(clock, ticks, lastTime)
      ensures forall o | o in old(jobs) && old(jobs)[o].active ::
                o in jobs && jobs[o].active && jobs[o].id == old(jobs)[o].id && jobs[o].started == old(jobs)[o].started
      ensures now.None? ==> forall o | o in jobs :: jobs[o].settled
      ensures now.None? ==> forall o | o in old(jobs) && !old(jobs)[o].settled ::
                old(jobs)[o].id in outcomes && outcomes[old(jobs)[o].id] == Failed(ClockFailed)
    {
      hide JobsOk, OutcomesOk, StartsOk, OriginsOk, DispatchesOk, TimesOk, BeganOk, InOrder, CausesOk, Cause, Given,
           Dispatched;
      if !healthy { return None; }
      var reading := clock(ticks);
      MoreTicks(clock, ticks, history, outcomes, lastTime);
      ticks := ticks + 1;
      if reading.None? || reading.value < lastTime || reading.value > MAX_SAFE - COOLDOWN {
        ReadingKeepsCauses(Record(), outcomes, false, lastTime);
        healthy := false;
        wake := false;
        FailAll();
        return None;
      }
      ReadingKeepsCauses(Record(), outcomes, true, reading.value);
      lastTime := reading.value;
      now := reading;
    }

    method FailAll()
      requires Shape() && !healthy
      modifies this`jobs, this`queue, this`outcomes
      ensures Shape() && Grows() && queue == [] && jobs.Keys <= old(jobs).Keys
      ensures forall o | o in jobs :: jobs[o].settled
      ensures forall o | o in old(jobs) && !old(jobs)[o].settled ::
                old(jobs)[o].id in outcomes && outcomes[old(jobs)[o].id] == Failed(ClockFailed)
      ensures forall o | o in old(jobs) && old(jobs)[o].active ::
                o in jobs && jobs[o].active && jobs[o].id == old(jobs)[o].id && jobs[o].started == old(jobs)[o].started
    {
      hide Shape, Cause, Removed;
      var rest := jobs.Keys;
      while rest != {}
        invariant Shape() && Grows() && rest <= jobs.Keys && jobs.Keys <= old(jobs).Keys
        invariant forall o | o in jobs && o !in rest :: jobs[o].settled
        invariant forall o | o in rest :: jobs[o] == old(jobs)[o]
        invariant forall o | o in old(jobs) && o !in rest && !old(jobs)[o].settled ::
                old(jobs)[o].id in outcomes && outcomes[old(jobs)[o].id] == Failed(ClockFailed)
        invariant forall o | o in old(jobs) && old(jobs)[o].active ::
                o in jobs && jobs[o].active && jobs[o].id == old(jobs)[o].id && jobs[o].started == old(jobs)[o].started
        decreases |rest|
      {
        var o :| o in rest;
        JobFacts(o);
        Fail(o, ClockFailed);
        rest := rest - {o};
      }
      QueueWaits();
    }

    method Prune(now: int)
      requires Shape() && now == lastTime
      modifies this`starts, this`originStarts, this`pruned
      ensures Shape() && pruned == now && Fresh(starts, now) && |starts| <= |old(starts)|
    {
      hide JobsOk, OutcomesOk, OriginsOk, StartsOk, DispatchesOk, TimesOk, BeganOk, InOrder, CausesOk, Cause, Given,
           Dispatched;
      ghost var all, dropped: nat := starts, 0;
      while starts != [] && now - starts[0] >= WINDOW
        invariant dropped <= |all| && starts == all[dropped..]
        invariant originStarts == old(originStarts) && pruned == old(pruned)
        invariant forall i | 0 <= i < dropped :: now - all[i] >= WINDOW
        decreases |starts|
      {
        dropped := dropped + 1;
        starts := starts[1..];
      }
      PruneStarts(history, all, pruned, now, dropped);
      AllFresh(history, starts, now);
      PruneOrigins(history, originStarts, pruned, now, queue);
      originStarts := Kept(originStarts, now);
      pruned := now;
    }

    /** Queued jobs whose budget is spent fail. */
    method ExpireQueued(now: int)
      requires Shape() && now == lastTime
      modifies this`jobs, this`queue, this`outcomes
      ensures Shape() && Grows() && |queue| <= |old(queue)|
      ensures forall o | o in queue :: o in jobs && now - jobs[o].started < BUDGET
      ensures forall o | o in old(jobs) && old(jobs)[o].active :: o in jobs && jobs[o] == old(jobs)[o]
      ensures forall o | o in jobs :: o in old(jobs) && jobs[o] == old(jobs)[o]
    {
      hide Shape, Cause, Removed;
      QueueWaits();
      ghost var before := jobs;
      var snapshot := queue;
      assert forall k | 0 <= k < |snapshot| :: snapshot[k] in queue;
      for i := 0 to |snapshot|
        invariant Shape() && Grows() && |queue| <= |old(queue)|
        invariant forall k | i <= k < |snapshot| :: snapshot[k] in jobs
        invariant forall o | o in queue :: o in snapshot
        invariant forall k | 0 <= k < i :: snapshot[k] in jobs ==> now - jobs[snapshot[k]].started < BUDGET
        invariant forall o | o in before && before[o].active :: o in jobs && jobs[o] == before[o]
        invariant forall o | o in jobs :: o in before && jobs[o] == before[o]
      {
        QueueWaits();
        if now - jobs[snapshot[i]].started >= BUDGET {
          JobFacts(snapshot[i]);
          Fail(snapshot[i], Deadline);
        }
      }
      QueueWaits();
    }

    /** A reading, with everything that time has overtaken removed. */
    method Refresh() returns (now: Option<int>)
      requires Shape() && HealthOk()
      modifies this`ticks, this`jobs, this`queue, this`originStarts, this`starts, this`lastTime, this`healthy, this`wake,
               this`pruned, this`outcomes
      ensures Shape() && HealthOk() && Grows() && |queue| <= |old(queue)| && jobs.Keys <= old(jobs).Keys
      ensures now.Some? <==> healthy
      ensures now.Some? ==> now.value == lastTime == pruned && |starts| <= |old(starts)|
      ensures now.Some? ==> Fresh(starts, lastTime) && Given(clock, ticks, lastTime)
      ensures now.Some? ==> forall o | o in queue :: o in jobs && lastTime - jobs[o].started < BUDGET
    {
      hide Shape, Given, Fresh;
      now := Now();
      if now.Some? {
        Prune(now.value);
        ExpireQueued(now.value);
      }
    }

    method Pump()
      requires Shape() && HealthOk()
      requires |queue| <= MAX_QUEUE || (|queue| == MAX_QUEUE + 1 && active < MAX_ACTIVE && |starts| < STARTS_PER_WINDOW)
      modifies this`ticks, this`jobs, this`queue, this`originStarts, this`starts, this`active, this`lastTime, this`healthy,
               this`wake, this`history, this`pruned, this`outcomes
      ensures Valid() && WorkConserving() && Grows() && |queue| <= |old(queue)| && jobs.Keys <= old(jobs).Keys
      decreases |queue|, 1
    {
      hide Shape, Given, Fresh, RateFull;
      wake := false;
      while true
        invariant Shape() && HealthOk() && Grows() && |queue| <= |old(queue)| && jobs.Keys <= old(jobs).Keys
        invariant |queue| <= MAX_QUEUE || (|queue| == MAX_QUEUE + 1 && active < MAX_ACTIVE && |starts| < STARTS_PER_WINDOW)
        decreases |queue|
      {
        var now := Refresh();
        ShapeFacts();
        if now.None? { return; }
        if queue == [] || active >= MAX_ACTIVE { return; }
        if |starts| >= STARTS_PER_WINDOW {
          AdmissionFacts(queue[0]);
          wake := true;
          return;
        }
        StartNext(now.value);
      }
    }

    method StartNext(now: int)
      requires Shape() && healthy && queue != [] && now == lastTime == pruned && |queue| <= MAX_QUEUE + 1
      requires active < MAX_ACTIVE && |starts| < STARTS_PER_WINDOW && Given(clock, ticks, now)
      modifies this`ticks, this`jobs, this`queue, this`originStarts, this`starts, this`active, this`lastTime, this`healthy,
               this`wake, this`history, this`pruned, this`outcomes
      ensures Shape() && HealthOk() && Grows() && |queue| < |old(queue)| && jobs.Keys <= old(jobs).Keys
      decreases |queue|, 0
    {
      hide Shape, Given;
      // The defensive branch for too many tracked origins is never taken.
      OriginsBelowLimit();
      assert |originStarts| < MAX_ORIGINS;
      var o := Dequeue(now);
      Execute(o);
    }

    /** Gives the head of the queue a slot and records its start. */
    method Dequeue(now: int) returns (o: Origin)
      requires Shape() && healthy && queue != [] && now == lastTime == pruned
      requires active < MAX_ACTIVE && |starts| < STARTS_PER_WINDOW && Given(clock, ticks, now)
      modifies this`jobs, this`queue, this`originStarts, this`starts, this`active, this`history
      ensures Shape() && o == old(queue)[0] && queue == old(queue)[1..] && o in old(jobs)
      ensures jobs == old(jobs)[o := old(jobs)[o].(active := true)] && active == old(active) + 1
      ensures history == old(history) + [Start(o, old(jobs)[o].id, now)]
    {
      hide JobsOk, OutcomesOk, OriginsOk, StartsOk, DispatchesOk, TimesOk, BeganOk, InOrder, CausesOk, Cause, Given,
           Dispatched;
      DequeueKeeps(now);
      o := queue[0];
      var job := jobs[o];
      queue := queue[1..];
      jobs := jobs[o := job.(active := true)];
      active := active + 1;
      starts := starts + [now];
      originStarts := originStarts[o := now];
      history := history + [Start(o, job.id, now)];
    }

    /**
     * Up to the worker's suspension. The job waits for its worker exactly when the clock gave a reading
     * within its budget and the worker did not throw; otherwise it is over and its slot is given back.
     */
    method Execute(o: Origin)
      requires Shape() && HealthOk() && |queue| <= MAX_QUEUE && o in jobs && jobs[o].active
      modifies this`ticks, this`jobs, this`queue, this`originStarts, this`starts, this`active, this`lastTime, this`healthy,
               this`wake, this`history, this`pruned, this`outcomes
      ensures Shape() && HealthOk() && Grows() && |queue| <= |old(queue)| && jobs.Keys <= old(jobs).Keys
      ensures var now, job := old(Reading()), old(jobs)[o];
              (o in jobs <==> now.Some? && !job.settled && now.value - job.started < BUDGET && !throws(job.id))
              && (if o in jobs then jobs == old(jobs) && active == old(active) else job.id in outcomes)
      decreases |queue|, 3
    {
      hide Shape, Cause, Dispatched, Removed;
      JobFacts(o);
      var now := Now();
      JobFacts(o);
      if now.Some? && !jobs[o].settled {
        var remaining := BUDGET - (now.value - jobs[o].started);
        if remaining <= 0 {
          Fail(o, Deadline);
        } else {
          if !throws(jobs[o].id) { return; }
          Fail(o, FetchFailed);
        }
      }
      Finish(o);
    }

    /** The slot and the origin are given back only when the worker is really over. */
    method Finish(o: Origin)
      requires Shape() && HealthOk() && |queue| <= MAX_QUEUE && o in jobs && jobs[o].active && jobs[o].settled
      modifies this`ticks, this`jobs, this`queue, this`originStarts, this`starts, this`active, this`lastTime, this`healthy,
               this`wake, this`history, this`pruned, this`outcomes
      ensures Valid() && WorkConserving() && Grows() && |queue| <= |old(queue)| && jobs.Keys <= old(jobs).Keys - {o}
      decreases |queue|, 2
    {
      hide JobsOk, OutcomesOk, OriginsOk, StartsOk, DispatchesOk, TimesOk, BeganOk, InOrder, CausesOk, Cause, Given,
           Dispatched;
      FinishKeeps(o);
      active := active - 1;
      jobs := jobs - {o};
      Pump();
    }

    // -------------------------------------------------------------- events

    /**
     * Admission. The answer is determined by the next reading of the clock, the jobs under way and the
     * past starts: an origin started within the cooldown is refused, and so is every origin while the
     * queue is full and neither a slot nor a start is to be had. A refusal changes nothing else.
     */
    method Run(o: Origin, startedAt: Option<int>) returns (r: Admission)
      requires Valid()
      modifies this
      ensures Valid() && Grows()
      ensures r == Answer(old(Reading()), o, startedAt, old(jobs), old(history), |old(queue)|, old(active), old(created))
      ensures created == if r == Joined(old(created)) then old(created) + 1 else old(created)
      ensures r.Rejected? && old(Reading()).Some? ==>
                jobs == old(jobs) && queue == old(queue) && history == old(history) && outcomes == old(outcomes)
      ensures r.Joined? && o in old(jobs) && old(Reading()).Some? ==>
                var job := old(jobs)[o];
                history == old(history)
                && (!job.settled && old(Reading()).value - job.started >= BUDGET ==>
                      job.id in outcomes && outcomes[job.id] == Failed(Deadline))
      ensures r == Joined(old(created)) ==> WorkConserving()
      ensures began == if r == Joined(old(created))
                       then old(began)[old(created) := if startedAt.Some? then startedAt.value else old(Reading()).value]
                       else old(began)
      ensures rejected == old(rejected) && timedOut == old(timedOut)
    {
      hide Shape, Cause, Dispatched, Removed, Hot, RateFull, Fresh, Reading, Sampled;
      if o in jobs { JobFacts(o); }
      var sample := Now();
      if sample.None? {
        return Rejected(ClockFailed);
      }
      var time := sample.value;
      var started := if startedAt.Some? then startedAt.value else time;
      if started < 0 || started > time { return Rejected(ClockFailed); }
      if time - started >= BUDGET { return Rejected(Deadline); }
      if o in jobs {
        var existing := jobs[o];
        if !existing.settled && time - existing.started >= BUDGET {
          JobFacts(o);
          Fail(o, Deadline);
        }
        return Joined(existing.id);
      }
      r := Consider(o, started);
    }

    /** A new job, unless its origin, the queue or the start rate refuses it. */
    method Consider(o: Origin, started: int) returns (r: Admission)
      requires Valid() && healthy && o !in jobs
      modifies this
      ensures Valid() && Grows()
      ensures r == if Hot(old(history), o, old(lastTime)) then Rejected(OriginRate)
                   else if |old(queue)| >= MAX_QUEUE && (old(active) >= MAX_ACTIVE || RateFull(old(history), old(lastTime)))
                   then Rejected(Capacity) else Joined(old(created))
      ensures rejected == old(rejected) && timedOut == old(timedOut)
      ensures r.Rejected? ==> jobs == old(jobs) && queue == old(queue) && history == old(history) && outcomes == old(outcomes)
                              && created == old(created) && began == old(began)
      ensures r.Joined? ==> WorkConserving() && created == old(created) + 1 && began == old(began)[old(created) := started]
    {
      hide Shape, Hot, RateFull, Fresh;
      Prune(lastTime);
      AdmissionFacts(o);
      if o in originStarts { return Rejected(OriginRate); }
      if |originStarts| >= MAX_ORIGINS
         || (|queue| >= MAX_QUEUE && (active >= MAX_ACTIVE || |starts| >= STARTS_PER_WINDOW)) {
        return Rejected(Capacity);
      }
      r := Joined(created);
      Admit(o, started);
    }

    method Admit(o: Origin, started: int)
      requires Shape() && healthy && o !in jobs && o !in originStarts
      requires |queue| < MAX_QUEUE || (|queue| == MAX_QUEUE && active < MAX_ACTIVE && |starts| < STARTS_PER_WINDOW)
      modifies this
      ensures Valid() && WorkConserving() && Grows() && created == old(created) + 1
      ensures began == old(began)[old(created) := started] && rejected == old(rejected) && timedOut == old(timedOut)
    {
      hide JobsOk, OutcomesOk, OriginsOk, StartsOk, DispatchesOk, TimesOk, BeganOk, InOrder, CausesOk, Cause, Given,
           Dispatched;
      var job := Job(created, started, false, false);
      AdmitKeeps(o, job);
      jobs := jobs[o := job];
      queue := queue + [o];
      began := began[created := started];
      created := created + 1;
      Pump();
    }

    /**
     * The worker of an active job settles, with a value or without. A value counts only if the next
     * reading of the clock is within the budget of the job.
     */
    method WorkerSettles(o: Origin, result: Option<T>)
      requires Valid() && o in jobs && jobs[o].active
      modifies this
      ensures Valid() && WorkConserving() && Grows() && o !in jobs
      ensures old(jobs)[o].id in outcomes
      ensures !old(jobs)[o].settled ==>
                outcomes[old(jobs)[o].id] == Ending(result, old(jobs)[o].started, old(Reading()))
      ensures rejected == old(rejected) + if result.None? then {old(jobs)[o].id} else {}
      ensures began == old(began) && timedOut == old(timedOut)
    {
      hide Shape, Ending, Reading, RateFull;
      Conclude(o, result);
      Finish(o);
    }

    /** The job is settled by the end of its worker, and still holds its slot. */
    method Conclude(o: Origin, result: Option<T>)
      requires Shape() && HealthOk() && o in jobs && jobs[o].active
      modifies this`ticks, this`jobs, this`queue, this`outcomes, this`lastTime, this`healthy, this`wake, this`rejected
      ensures Shape() && HealthOk() && Grows() && |queue| <= |old(queue)|
      ensures o in jobs && jobs[o].active && jobs[o].settled && jobs[o].id == old(jobs)[o].id && jobs[o].id in outcomes
      ensures !old(jobs)[o].settled ==>
                outcomes[old(jobs)[o].id] == Ending(result, old(jobs)[o].started, old(Reading()))
      ensures rejected == old(rejected) + if result.None? then {old(jobs)[o].id} else {}
    {
      hide Shape, Cause, Dispatched, Removed, Given, Reading, Sampled;
      JobFacts(o);
      if result.None? {
        Reject(o);
      } else {
        var sample := Now();
        JobFacts(o);
        if !jobs[o].settled {
          // A failed clock has settled every job, so the sample is there.
          assert sample.Some?;
          if sample.value - jobs[o].started >= BUDGET {
            Fail(o, Deadline);
          } else {
            Deliver(o, result.value, sample.value);
          }
        }
      }
    }

    /** A worker that settled without a value. */
    method Reject(o: Origin)
      requires Shape() && o in jobs && jobs[o].active
      modifies this`jobs, this`queue, this`outcomes, this`rejected
      ensures Shape() && Grows() && queue == old(queue) && rejected == old(rejected) + {old(jobs)[o].id}
      ensures jobs == old(jobs)[o := old(jobs)[o].(settled := true)]
      ensures !old(jobs)[o].settled ==> old(jobs)[o].id in outcomes && outcomes[old(jobs)[o].id] == Failed(FetchFailed)
    {
      hide JobsOk, OutcomesOk, OriginsOk, StartsOk, DispatchesOk, TimesOk, BeganOk, InOrder, CausesOk, Cause, Given,
           Dispatched, Removed;
      QueueFacts(jobs, queue, active, o);
      ActiveIsDispatched(jobs, outcomes, history, created, o);
      RejectionCause(Record(), outcomes, jobs[o].id);
      rejected := rejected + {jobs[o].id};
      Fail(o, FetchFailed);
    }

    /** A value that came in time settles its job, which keeps its slot for the moment. */
    method Deliver(o: Origin, value: T, completed: int)
      requires Shape() && o in jobs && jobs[o].active && !jobs[o].settled
      requires completed - jobs[o].started < BUDGET && Given(clock, ticks, completed)
      modifies this`jobs, this`outcomes
      ensures Shape() && Grows() && jobs == old(jobs)[o := old(jobs)[o].(settled := true)]
      ensures outcomes == old(outcomes)[old(jobs)[o].id := Delivered(value, old(jobs)[o].started, completed)]
    {
      hide JobsOk, OutcomesOk, OriginsOk, StartsOk, DispatchesOk, TimesOk, BeganOk, InOrder, CausesOk, Cause, Given,
           Dispatched;
      var s := Delivered(value, jobs[o].started, completed);
      SettleKeeps(o, s);
      outcomes := outcomes[jobs[o].id := s];
      jobs := jobs[o := jobs[o].(settled := true)];
    }

    /** The deadline timer of a job fires. */
    method TimeOut(o: Origin)
      requires Shape() && o in jobs
      modifies this`jobs, this`queue, this`outcomes, this`timedOut
      ensures Shape() && Grows() && |queue| <= |old(queue)| && timedOut == old(timedOut) + {old(jobs)[o].id}
      ensures forall p | p in jobs :: p in old(jobs) && (old(jobs)[p].settled ==> jobs[p].settled)
      ensures !old(jobs)[o].settled ==> old(jobs)[o].id in outcomes && outcomes[old(jobs)[o].id] == Failed(Deadline)
    {
      hide JobsOk, OutcomesOk, OriginsOk, StartsOk, DispatchesOk, TimesOk, BeganOk, InOrder, CausesOk, Cause, Given,
           Dispatched, Removed;
      TimerCause(Record(), outcomes, jobs[o].id);
      timedOut := timedOut + {jobs[o].id};
      Fail(o, Deadline);
    }

    /** The deadline timer of a job fires; a job that is over has cleared it. */
    method DeadlineTimer(o: Origin, id: nat)
      requires Valid()
      modifies this
      ensures Valid() && WorkConserving() && Grows()
      ensures o in old(jobs) && old(jobs)[o].id == id && !old(jobs)[o].settled ==>
                id in outcomes && outcomes[id] == Failed(Deadline)
      ensures timedOut == old(timedOut) + if o in old(jobs) && old(jobs)[o].id == id then {id} else {}
      ensures began == old(began) && rejected == old(rejected)
    {
      hide Shape, RateFull;
      if o in jobs && jobs[o].id == id {
        TimeOut(o);
      }
      Pump();
    }

    method WakeTimer()
      requires Valid()
      modifies this
      ensures Valid() && WorkConserving() && Grows()
      ensures began == old(began) && rejected == old(rejected) && timedOut == old(timedOut)
    {
      hide Shape, RateFull;
      Pump();
    }
  }

  /** What a caller of `Run` is answered. */
  function Answer(now: Option<int>, o: Origin, startedAt: Option<int>, jobs: map<Origin, Job>, history: seq<Start>,
                  queued: nat, active: nat, created: nat): Admission
  {
    if now.None? then Rejected(ClockFailed)
    else
      var started := if startedAt.Some? then startedAt.value else now.value;
      if started < 0 || started > now.value then Rejected(ClockFailed)
      else if now.value - started >= BUDGET then Rejected(Deadline)
      else if o in jobs then Joined(jobs[o].id)
      else if Hot(history, o, now.value) then Rejected(OriginRate)
      else if queued >= MAX_QUEUE && (active >= MAX_ACTIVE || RateFull(history, now.value)) then Rejected(Capacity)
      else Joined(created)
  }

  /** The starts of the last second. */
  function RecentStarts(history: seq<Start>, now: int): set<int> { set i | 0 <= i < |history| && now - history[i].at < 1000 }

  function Range(from: int, count: nat): (r: set<int>)
    ensures |r| == count && forall i :: i in r <==> from <= i < from + count
  {
    if count == 0 then {} else Range(from, count - 1) + {from + count - 1}
  }

  /** The rate is used up exactly if there are thirty-two of them. */
  lemma RateIsCount(history: seq<Start>, now: int)
    requires Ordered(history)
    ensures RateFull(history, now) <==> |RecentStarts(history, now)| >= 32
  {
    var n, recent := |history|, RecentStarts(history, now);
    if RateFull(history, now) {
      SubsetIsSmaller(Range(n - 32, 32), recent);
    } else if n >= 32 {
      assert recent <= Range(n - 31, 31);
      SubsetIsSmaller(recent, Range(n - 31, 31));
    } else {
      SubsetIsSmaller(recent, Range(0, n));
    }
  }

  /**
   * The answer to a caller, by the clock, the start it brings along, the job its origin has, and all past starts:
   * each refusal for exactly its own reason, and the job that is joined otherwise.
   */
  lemma AnswerIsExact(healthy: bool, lastTime: int, reading: Option<int>, o: Origin, startedAt: Option<int>,
                      jobs: map<Origin, Job>, history: seq<Start>, queued: nat, active: nat, created: nat)
    requires Ordered(history)
    ensures var answer := Answer(Sampled(healthy, lastTime, reading), o, startedAt, jobs, history, queued, active, created);
      var told := healthy && reading.Some? && lastTime <= reading.value <= 9007199254710991
                  && (startedAt.Some? ==> 0 <= startedAt.value <= reading.value) && (startedAt.None? ==> 0 <= reading.value);
      if !told then answer == Rejected(ClockFailed)
      else
        var now := reading.value;
        var late := startedAt.Some? && now - startedAt.value >= 3000;
        var hot := exists i | 0 <= i < |history| :: history[i].origin == o && now - history[i].at < 30000;
        var full := queued >= 64 && (active >= 16 || |RecentStarts(history, now)| >= 32);
        && (answer == Rejected(Deadline) <==> late)
        && (answer == Rejected(OriginRate) <==> !late && o !in jobs && hot)
        && (answer == Rejected(Capacity) <==> !late && o !in jobs && !hot && full)
        && (!late && o in jobs ==> answer == Joined(jobs[o].id))
        && (!late && o !in jobs && !hot && !full ==> answer == Joined(created))
  {
    if reading.Some? { RateIsCount(history, reading.value); }
    hide RateFull, Ordered, RecentStarts;
  }

  /** How a job ends with its worker: without a value, on a clock that failed, past the budget, or delivered. */
  lemma EndingIsExact<T>(result: Option<T>, started: int, completed: Option<int>)
    ensures var s := Ending(result, started, completed);
      && (s == Failed(FetchFailed) <==> result == None)
      && (s == Failed(ClockFailed) <==> result != None && completed == None)
      && (s == Failed(Deadline) <==> result != None && completed != None && started + 3000 <= completed.value)
      && (s.Delivered? <==> result != None && completed != None && completed.value < started + 3000)
      && (s.Delivered? ==> Some(s.value) == result && s.started == started && Some(s.completed) == completed)
  {
  }

  lemma Waiting(jobs: map<Origin, Job>, queue: seq<Origin>, active: nat)
    requires JobsOk(jobs, queue, active)
    ensures Distinct(queue) && forall o | o in queue :: o in jobs && !jobs[o].active && !jobs[o].settled
    ensures queue != [] ==> queue[0] in jobs && !jobs[queue[0]].settled
  {
    assert queue == [] || queue[0] in queue;
  }

  lemma HeadWaits(jobs: map<Origin, Job>, queue: seq<Origin>, active: nat)
    requires JobsOk(jobs, queue, active) && queue != []
    ensures queue[0] in jobs && !jobs[queue[0]].settled && !jobs[queue[0]].active && Distinct(queue)
  {
    assert queue[0] in queue;
  }

  lemma AllFresh(history: seq<Start>, starts: seq<int>, now: int)
    requires StartsOk(history, starts, now) && (starts != [] ==> now - starts[0] < WINDOW)
    ensures Fresh(starts, now)
  {
    forall i | 0 <= i < |starts| ensures now - starts[i] < WINDOW {
      assert starts[0] == history[|history| - |starts|].at && starts[i] == history[|history| - |starts| + i].at;
    }
  }

  lemma TimesArePast(history: seq<Start>, starts: seq<int>, now: int)
    requires StartsOk(history, starts, now)
    ensures forall i | 0 <= i < |history| :: history[i].at <= now
  {
  }

  /** What holds whenever the scheduler is at rest, after any run. */
  lemma AtRest<T>(s: DirectoryFetchScheduler<T>)
    requires s.Valid()
    ensures |s.jobs| == s.active + |s.queue| && s.active <= MAX_ACTIVE && |s.queue| <= MAX_QUEUE
    ensures |s.originStarts| <= 960
    ensures s.queue != [] ==> s.active == MAX_ACTIVE || s.wake
    ensures forall i | 0 <= i < |s.history| - 32 :: s.history[i + 32].at - s.history[i].at >= 1000
    ensures forall i, j | 0 <= i < j < |s.history| && s.history[i].origin == s.history[j].origin ::
              s.history[j].at - s.history[i].at >= 30000
    ensures forall i | 0 <= i < |s.history| :: Given(s.clock, s.ticks, s.history[i].at)
    ensures forall i, j | 0 <= i < j < |s.history| :: s.history[i].id < s.history[j].id
    ensures forall i, o | 0 <= i < |s.history| && o in s.queue :: o in s.jobs && s.history[i].id < s.jobs[o].id
    ensures forall o | o in s.jobs :: s.jobs[o].active <==> Dispatched(s.history, s.jobs[o].id)
    ensures forall id | id in s.outcomes && s.outcomes[id].Delivered? ::
              && id in s.began && s.outcomes[id].completed - s.began[id] < 3000
              && Given(s.clock, s.ticks, s.outcomes[id].completed) && Dispatched(s.history, id)
    ensures forall id | id in s.outcomes && s.outcomes[id].Failed? :: Cause(s.Record(), s.outcomes[id].reason, id)
    ensures s.lastTime == 0 || Given(s.clock, s.ticks, s.lastTime)
    ensures forall id: nat | id < s.created && id !in s.outcomes :: HasId(s.jobs, id)
  {
    hide Cause, Given, DispatchesOk, Dispatched;
    StartedMeans(s.jobs, s.outcomes, s.history, s.created);
    JobCount(s.jobs, s.queue, s.active);
    TrackedOriginsBound(s.history, s.starts, s.originStarts, s.pruned, s.queue);
    assert forall id | id in s.outcomes :: InTime(s.outcomes[id]);
  }
}
