/** Replay protection as a protocol over one shared context and its own memory store. */
module ReplayProtocol {
  import opened Basics
  import opened Codes
  import CT = ClockTracker
  import OE = OperationEpochs
  import SC = SecurityController
  import TP = TimePolicy
  import Mem = MemoryReplayStore
  import opened CR = CandidateReplay
  import VE = VerificationEngine

  /** Where one invocation is suspended. */
  datatype Phase =
    | Evaluating                                       // candidates not known yet
    | Consuming                                        // about to dispatch group `next`, or to complete
    | Waiting(ready: seq<nat>, outcome: StoreOutcome)  // the store has run, its reply is on the way
    | Returned(ready: seq<nat>, outcome: StoreOutcome) // the reply passed the controller's gate
    | Done(results: seq<VE.CandidateResult>)
    | Failed

  datatype Invocation = Invocation(
    scope: Text,
    candidates: seq<Candidate>,
    groups: seq<seq<nat>>,
    next: nat,
    outcomes: map<nat, ReplayOutcome>,
    phase: Phase)

  /** One accepted insertion, kept as history: by whom, of what, when, until when, in which epoch. */
  datatype Acceptance = Acceptance(holder: nat, identity: Mem.Identity, at: int, until: int, epoch: nat)

  datatype State = State(
    policy: Mem.ReplayPolicy,
    limits: Mem.Limits,
    drift: nat,
    controller: SC.Controller<nat>,
    replacement: Option<CT.TrackerState>,
    history: Mem.History,
    invocations: map<nat, Invocation>,
    log: seq<Acceptance>)

  /**
   * Each stretch between two awaits is one action. Clock samples, store failures, evidence, the order of
   * actions and clock resets are all chosen by an adversary.
   */
  datatype Action =
    | Begin(id: nat, scope: Text, wall: CT.Sample, monotonic: CT.Sample)
    | Evaluate(id: nat, candidates: seq<Candidate>, groups: seq<seq<nat>>)
    | Dispatch(id: nat, wall: CT.Sample, monotonic: CT.Sample)
    | Reply(id: nat, lost: bool, wall: CT.Sample, monotonic: CT.Sample)
    | Settle(id: nat, wall: CT.Sample, monotonic: CT.Sample)
    | Complete(id: nat, lostEvidence: set<nat>, wall: CT.Sample, monotonic: CT.Sample)
    | Abandon(id: nat)
    | StartReset
    | PrepareReset(wall: CT.Sample, monotonic: CT.Sample)
    | CommitReset(cleaned: bool, wall: CT.Sample, monotonic: CT.Sample)

  function Start(policy: Mem.ReplayPolicy, limits: Mem.Limits, drift: nat, tracker: CT.TrackerState): State {
    State(policy, limits, drift, SC.Controller(false, true, tracker, OE.Start()), None, Mem.EMPTY, map[], [])
  }

  function Put(s: State, id: nat, inv: Invocation): State { s.(invocations := s.invocations[id := inv]) }

  /** A closed gate fails the members of the current group that have no outcome yet, and moves on. */
  function GroupFailed(inv: Invocation, rejection: Rejection): Invocation
    requires inv.next < |inv.groups|
  {
    inv.(outcomes := FillFailures(inv.outcomes, inv.groups[inv.next], rejection), next := inv.next + 1,
         phase := Consuming)
  }

  function NoncelessOutcomes(candidates: seq<Candidate>): map<nat, ReplayOutcome> {
    map m: nat | m < |candidates| && candidates[m].nonce.None? :: Optional
  }

  /** The dispatch of one group: gate, preparation and the store's atomic consume, without an await. */
  ghost function Dispatched(s: State, id: nat, wall: CT.Sample, monotonic: CT.Sample): State
    requires id in s.invocations
    requires var inv := s.invocations[id];
             inv.next < |inv.groups| && Members(|inv.candidates|, inv.groups[inv.next])
  {
    var inv := s.invocations[id];
    var group := inv.groups[inv.next];
    var (controller, time) := SC.TimeRead(s.controller, Some(id), wall, monotonic);
    var read := s.(controller := controller);
    if time.Err? then Put(read, id, GroupFailed(inv, time.error))
    else
      var p := Prepared(inv.candidates, group, time.value);
      var recorded := inv.(outcomes := RecordFailures(inv.outcomes, p.failures));
      if p.ready == [] then Put(read, id, recorded.(next := inv.next + 1))
      else
        var first := p.ready[0];
        if first >= |inv.candidates| || inv.candidates[first].nonce.None? then s
        else
          var input := Mem.ConsumeInput(IdentityOf(inv.scope, inv.candidates[first]), time.value, p.retainUntil);
          var (history, outcome) := Mem.Consumed(s.history, s.policy, s.limits, input);
          var entry := Acceptance(id, input.identity, time.value, p.retainUntil, s.controller.epochs.last);
          Put(read, id, recorded.(phase := Waiting(p.ready, outcome)))
          .(history := history, log := if outcome == Accepted then s.log + [entry] else s.log)
  }

  /** The result of one candidate at completion. */
  function FinalResult(inv: Invocation, k: nat, lostEvidence: set<nat>, now: int): VE.CandidateResult
    requires k < |inv.candidates|
  {
    if k in lostEvidence then VE.Rejected(Unverified(OtherUnverified("evidence")))
    else match VE.Finalize(inv.candidates[k], if k in inv.outcomes then Some(inv.outcomes[k]) else None, now)
      case Ok(result) => result
      case Err(_) => VE.Rejected(Invalid(OtherInvalid("internal")))
  }

  function Completed(s: State, id: nat, lostEvidence: set<nat>, wall: CT.Sample, monotonic: CT.Sample): State
    requires id in s.invocations
  {
    var inv := s.invocations[id];
    var (controller, time) := SC.OperationCompleted(s.controller, id, wall, monotonic);
    match time
    case Err(_) => Put(s.(controller := controller.(epochs := OE.Finished(controller.epochs, id))), id, inv.(phase := Failed))
    case Ok(now) =>
      var results := seq(|inv.candidates|, k requires 0 <= k < |inv.candidates| => FinalResult(inv, k, lostEvidence, now));
      Put(s.(controller := controller), id, inv.(phase := Done(results)))
  }

  ghost predicate Enabled(s: State, a: Action) {
    match a
    case Begin(id, _, _, _) => id !in s.invocations && id !in s.controller.epochs.leases
    case Evaluate(id, candidates, groups) =>
      id in s.invocations && s.invocations[id].phase.Evaluating? && Grouping(candidates, s.invocations[id].scope, groups)
    case Dispatch(id, _, _) =>
      && id in s.invocations && s.invocations[id].phase.Consuming?
      && s.invocations[id].next < |s.invocations[id].groups|
      && Members(|s.invocations[id].candidates|, s.invocations[id].groups[s.invocations[id].next])
    case Reply(id, _, _, _) =>
      id in s.invocations && s.invocations[id].phase.Waiting? && s.invocations[id].next < |s.invocations[id].groups|
    case Settle(id, _, _) =>
      id in s.invocations && s.invocations[id].phase.Returned? && s.invocations[id].next < |s.invocations[id].groups|
    case Complete(id, _, _, _) =>
      id in s.invocations && s.invocations[id].phase.Consuming? && s.invocations[id].next == |s.invocations[id].groups|
    case Abandon(id) => id in s.invocations && !s.invocations[id].phase.Done? && !s.invocations[id].phase.Failed?
    case StartReset => !s.controller.busy
    case PrepareReset(_, _) => s.controller.busy && s.replacement.None?
    case CommitReset(_, _, _) => s.controller.busy && s.replacement.Some?
  }

  /** One action; an action that is not enabled changes nothing. */
  ghost function Next(s: State, a: Action): State {
    if !Enabled(s, a) then s
    else match a
      case Begin(id, scope, wall, monotonic) =>
        var (controller, begun) := SC.OperationBegun(s.controller, id, wall, monotonic);
        var read := s.(controller := controller);
        if begun then Put(read, id, Invocation(scope, [], [], 0, map[], Evaluating)) else read
      case Evaluate(id, candidates, groups) =>
        Put(s, id, Invocation(s.invocations[id].scope, candidates, groups, 0, NoncelessOutcomes(candidates), Consuming))
      case Dispatch(id, wall, monotonic) => Dispatched(s, id, wall, monotonic)
      case Reply(id, lost, wall, monotonic) =>
        var inv := s.invocations[id];
        var (controller, time) := SC.TimeRead(s.controller, Some(id), wall, monotonic);
        Put(s.(controller := controller), id,
            if time.Err? then GroupFailed(inv, time.error)
            else inv.(phase := Returned(inv.phase.ready, if lost then Unavailable else inv.phase.outcome)))
      case Settle(id, wall, monotonic) =>
        var inv := s.invocations[id];
        var (controller, time) := SC.TimeRead(s.controller, Some(id), wall, monotonic);
        Put(s.(controller := controller), id,
            if time.Err? then GroupFailed(inv, time.error)
            else inv.(outcomes := Settled(inv.candidates, inv.outcomes, inv.phase.ready, inv.phase.outcome, time.value),
                      next := inv.next + 1, phase := Consuming))
      case Complete(id, lostEvidence, wall, monotonic) => Completed(s, id, lostEvidence, wall, monotonic)
      case Abandon(id) =>
        Put(s.(controller := s.controller.(epochs := OE.Finished(s.controller.epochs, id))), id,
            s.invocations[id].(phase := Failed))
      case StartReset => s.(controller := SC.ResetStarted(s.controller).value)
      case PrepareReset(wall, monotonic) =>
        // The owned memory is cleared in the same stretch as the invalidation, and only then.
        var (controller, replacement) := SC.ResetPrepared(s.controller, s.drift, wall, monotonic);
        s.(controller := controller, replacement := replacement,
           history := if replacement.Some? then Mem.EMPTY else s.history)
      case CommitReset(cleaned, wall, monotonic) =>
        var (controller, _) := SC.ResetCommitted(s.controller, s.replacement.value, cleaned, wall, monotonic);
        s.(controller := controller, replacement := None)
  }

  ghost function Run(s: State, actions: seq<Action>): State
    decreases |actions|
  {
    if actions == [] then s else Next(Run(s, actions[..|actions| - 1]), actions[|actions| - 1])
  }

  // ---------------------------------------------------------------- the invariant

  /** A logged acceptance that entitles candidate `c` of invocation `id` to be granted. */
  ghost predicate Entitles(a: Acceptance, id: nat, epoch: nat, scope: Text, c: Candidate) {
    && a.holder == id && a.epoch == epoch
    && c.nonce.Some? && a.identity == IdentityOf(scope, c)
    && Admit(c, a.at).Ok?
    && Admit(c, a.at).value <= a.until
  }

  ghost predicate Entitled(log: seq<Acceptance>, id: nat, epoch: nat, scope: Text, c: Candidate) {
    exists i :: 0 <= i < |log| && Entitles(log[i], id, epoch, scope, c)
  }

  /** Later acceptances of one identity in one epoch start when the earlier ones have ended. */
  ghost predicate Spaced(log: seq<Acceptance>) {
    forall i, j | 0 <= i < j < |log| && log[i].identity == log[j].identity && log[i].epoch == log[j].epoch ::
      log[i].until <= log[j].at
  }

  /** Every acceptance of the open epoch is still recorded, or its deadline has been reached. */
  ghost predicate Covered(log: seq<Acceptance>, epoch: nat, history: Mem.History) {
    forall i | 0 <= i < |log| && log[i].epoch == epoch :: Covers(history, log[i])
  }

  ghost predicate Covers(history: Mem.History, a: Acceptance) {
    a.until <= history.lastNow
    || (a.identity in history.records && history.records[a.identity] == a.until)
  }

  ghost predicate InvocationSound(inv: Invocation, id: nat, epoch: nat, log: seq<Acceptance>) {
    && (inv.phase.Evaluating? || inv.phase.Failed? || Grouping(inv.candidates, inv.scope, inv.groups))
    && (forall k | k in inv.outcomes && inv.outcomes[k] == Granted ::
          k < |inv.candidates| && Entitled(log, id, epoch, inv.scope, inv.candidates[k]))
    && (inv.phase.Waiting? && inv.phase.outcome == Accepted ==>
          forall k | k in inv.phase.ready :: k < |inv.candidates| && Entitled(log, id, epoch, inv.scope, inv.candidates[k]))
    && (inv.phase.Returned? && inv.phase.outcome == Accepted ==>
          forall k | k in inv.phase.ready :: k < |inv.candidates| && Entitled(log, id, epoch, inv.scope, inv.candidates[k]))
    && (inv.phase.Done? ==>
          && |inv.phase.results| == |inv.candidates|
          && forall k | 0 <= k < |inv.candidates| && Consumed(inv, k) ::
               && inv.phase.results[k].candidate == inv.candidates[k]
               && Entitled(log, id, epoch, inv.scope, inv.candidates[k]))
  }

  /** Candidate `k` was reported verified on the strength of a consumed nonce. */
  ghost predicate Consumed(inv: Invocation, k: nat) {
    && inv.phase.Done? && k < |inv.phase.results|
    && inv.phase.results[k].Verified? && inv.phase.results[k].replayProtected
  }

  ghost predicate Inv(s: State) {
    && SC.Sound(s.controller)
    && (s.replacement.Some? ==>
          && CT.Valid(s.replacement.value) && s.controller.epochs.active.None? && s.history == Mem.EMPTY)
    && s.history.lastNow <= CT.HighWater(s.controller.tracker)
    && Spaced(s.log)
    && (forall i | 0 <= i < |s.log| :: s.log[i].epoch <= s.controller.epochs.last)
    && (s.controller.epochs.active.Some? ==> Covered(s.log, s.controller.epochs.last, s.history))
    && (forall id | id in s.invocations ::
          && id in s.controller.epochs.leases
          && InvocationSound(s.invocations[id], id, s.controller.epochs.leases[id].epoch, s.log))
  }

  /** What an action leaves alone about leases: their epochs, and the invocations it does not name. */
  ghost predicate KeepsLeases(e: OE.Epochs<nat>, f: OE.Epochs<nat>) {
    forall id | id in e.leases :: id in f.leases && f.leases[id].epoch == e.leases[id].epoch
  }

  lemma LogGrows(inv: Invocation, id: nat, epoch: nat, log: seq<Acceptance>, entry: Acceptance)
    requires InvocationSound(inv, id, epoch, log)
    ensures InvocationSound(inv, id, epoch, log + [entry])
  {
    forall c | Entitled(log, id, epoch, inv.scope, c) ensures Entitled(log + [entry], id, epoch, inv.scope, c) {
      var i :| 0 <= i < |log| && Entitles(log[i], id, epoch, inv.scope, c);
      assert (log + [entry])[i] == log[i];
    }
  }

  /** Replacing one invocation by a sound one keeps the invariant, when the rest moved forward. */
  lemma PutKeepsInv(s: State, t: State, id: nat, inv: Invocation)
    requires Inv(s)
    requires t == Put(t.(invocations := s.invocations), id, inv)
    requires t.history == s.history && t.log == s.log && t.replacement == s.replacement
    requires SC.Sound(t.controller)
    requires CT.HighWater(s.controller.tracker) <= CT.HighWater(t.controller.tracker)
    requires t.controller.epochs.last == s.controller.epochs.last
    requires t.controller.epochs.active == s.controller.epochs.active
    requires KeepsLeases(s.controller.epochs, t.controller.epochs)
    requires id in t.controller.epochs.leases
    requires InvocationSound(inv, id, t.controller.epochs.leases[id].epoch, s.log)
    ensures Inv(t)
  {
  }

  lemma BeginKeepsInv(s: State, id: nat, scope: Text, wall: CT.Sample, monotonic: CT.Sample)
    requires Inv(s) && Enabled(s, Begin(id, scope, wall, monotonic))
    ensures Inv(Next(s, Begin(id, scope, wall, monotonic)))
  {
    SC.TimeReadAdvances(s.controller, None, wall, monotonic);
    var read := SC.TimeRead(s.controller, None, wall, monotonic).0;
    var (controller, begun) := SC.OperationBegun(s.controller, id, wall, monotonic);
    var t := Next(s, Begin(id, scope, wall, monotonic));
    if begun {
      OE.BegunIsValid(read.epochs, id);
      PutKeepsInv(s, t, id, Invocation(scope, [], [], 0, map[], Evaluating));
    }
  }

  lemma GroupFailedIsSound(inv: Invocation, id: nat, epoch: nat, log: seq<Acceptance>, rejection: Rejection)
    requires InvocationSound(inv, id, epoch, log)
    requires inv.next < |inv.groups| && !inv.phase.Evaluating? && !inv.phase.Failed?
    ensures InvocationSound(GroupFailed(inv, rejection), id, epoch, log)
  {
  }

  lemma ReplyKeepsInv(s: State, a: Action)
    requires Inv(s) && Enabled(s, a) && a.Reply?
    ensures Inv(Next(s, a))
  {
    var inv := s.invocations[a.id];
    var epoch := s.controller.epochs.leases[a.id].epoch;
    SC.TimeReadAdvances(s.controller, Some(a.id), a.wall, a.monotonic);
    var time := SC.TimeRead(s.controller, Some(a.id), a.wall, a.monotonic).1;
    if time.Err? { GroupFailedIsSound(inv, a.id, epoch, s.log, time.error); }
    PutKeepsInv(s, Next(s, a), a.id, Next(s, a).invocations[a.id]);
  }

  lemma SettledIsSound(inv: Invocation, id: nat, epoch: nat, log: seq<Acceptance>, now: int)
    requires InvocationSound(inv, id, epoch, log)
    requires inv.phase.Returned?
    ensures InvocationSound(inv.(outcomes := Settled(inv.candidates, inv.outcomes, inv.phase.ready, inv.phase.outcome, now),
                                 next := inv.next + 1, phase := Consuming), id, epoch, log)
  {
    var outcomes := Settled(inv.candidates, inv.outcomes, inv.phase.ready, inv.phase.outcome, now);
    forall k | k in outcomes && outcomes[k] == Granted
      ensures k < |inv.candidates| && Entitled(log, id, epoch, inv.scope, inv.candidates[k])
    {
      if k in inv.phase.ready && k < |inv.candidates| {
        assert outcomes[k] == MemberOutcome(inv.candidates[k], inv.phase.outcome, now);
      } else {
        assert k in inv.outcomes;
      }
    }
  }

  lemma SettleKeepsInv(s: State, a: Action)
    requires Inv(s) && Enabled(s, a) && a.Settle?
    ensures Inv(Next(s, a))
  {
    var inv := s.invocations[a.id];
    var epoch := s.controller.epochs.leases[a.id].epoch;
    SC.TimeReadAdvances(s.controller, Some(a.id), a.wall, a.monotonic);
    var time := SC.TimeRead(s.controller, Some(a.id), a.wall, a.monotonic).1;
    match time {
      case Err(rejection) => GroupFailedIsSound(inv, a.id, epoch, s.log, rejection);
      case Ok(now) => SettledIsSound(inv, a.id, epoch, s.log, now);
    }
    PutKeepsInv(s, Next(s, a), a.id, Next(s, a).invocations[a.id]);
  }

  /** A completed invocation reports a consumed nonce only where one was granted; a failed one reports nothing. */
  lemma DoneIsSound(inv: Invocation, id: nat, epoch: nat, log: seq<Acceptance>, lostEvidence: set<nat>, now: Result<int, Rejection>)
    requires InvocationSound(inv, id, epoch, log) && inv.phase.Consuming?
    ensures InvocationSound(inv.(phase := Failed), id, epoch, log)
    ensures now.Ok? ==>
      var results := seq(|inv.candidates|, k requires 0 <= k < |inv.candidates| => FinalResult(inv, k, lostEvidence, now.value));
      InvocationSound(inv.(phase := Done(results)), id, epoch, log)
  {
    hide Entitled, Grouping;
  }

  lemma CompleteKeepsInv(s: State, a: Action)
    requires Inv(s) && Enabled(s, a) && a.Complete?
    ensures Inv(Next(s, a))
  {
    hide Spaced, Covered, InvocationSound, FinalResult;
    var inv := s.invocations[a.id];
    DoneIsSound(inv, a.id, s.controller.epochs.leases[a.id].epoch, s.log, a.lostEvidence,
                SC.OperationCompleted(s.controller, a.id, a.wall, a.monotonic).1);
    SC.TimeReadAdvances(s.controller, Some(a.id), a.wall, a.monotonic);
    var read := SC.TimeRead(s.controller, Some(a.id), a.wall, a.monotonic).0;
    OE.FinishedIsValid(read.epochs, a.id);
    PutKeepsInv(s, Next(s, a), a.id, Next(s, a).invocations[a.id]);
  }

  /** One store step: the log stays spaced and covered, whatever the outcome. */
  lemma StoreStepKeepsLog(log: seq<Acceptance>, epoch: nat, history: Mem.History, policy: Mem.ReplayPolicy,
                          limits: Mem.Limits, id: nat, input: Mem.ConsumeInput)
    requires Spaced(log) && Covered(log, epoch, history)
    ensures var (next, outcome) := Mem.Consumed(history, policy, limits, input);
            var entry := Acceptance(id, input.identity, input.nowEpochSeconds, input.retainUntilEpochSeconds, epoch);
            && (outcome == Accepted ==> Spaced(log + [entry]) && Covered(log + [entry], epoch, next))
            && (outcome != Accepted ==> Covered(log, epoch, next))
            && (next.lastNow == history.lastNow || next.lastNow == input.nowEpochSeconds)
            && history.lastNow <= next.lastNow
  {
    var (next, outcome) := Mem.Consumed(history, policy, limits, input);
    if Mem.ValidInput(limits, history.lastNow, input) {
      forall i | 0 <= i < |log| && log[i].epoch == epoch
        ensures Covers(next, log[i])
        ensures outcome == Accepted && log[i].identity == input.identity ==> log[i].until <= input.nowEpochSeconds
      {
        assert Covers(history, log[i]);
      }
    }
  }

  /** The members a dispatch found ready are entitled by the acceptance it logs. */
  lemma ReadyAreEntitled(inv: Invocation, id: nat, epoch: nat, log: seq<Acceptance>, now: int)
    requires Grouping(inv.candidates, inv.scope, inv.groups) && inv.next < |inv.groups|
    requires Members(|inv.candidates|, inv.groups[inv.next])
    requires Prepared(inv.candidates, inv.groups[inv.next], now).ready != []
    ensures var p := Prepared(inv.candidates, inv.groups[inv.next], now);
            && p.ready[0] < |inv.candidates| && inv.candidates[p.ready[0]].nonce.Some?
            && (var entry := Acceptance(id, IdentityOf(inv.scope, inv.candidates[p.ready[0]]), now, p.retainUntil, epoch);
                forall k | k in p.ready ::
                  k < |inv.candidates| && Entitled(log + [entry], id, epoch, inv.scope, inv.candidates[k]))
  {
    var group := inv.groups[inv.next];
    var p := Prepared(inv.candidates, group, now);
    PreparedPartitions(inv.candidates, group, now);
    PreparedDeadline(inv.candidates, group, now);
    var first := p.ready[0];
    assert first in p.ready && Placed(inv.groups, first, inv.next);
    var entry := Acceptance(id, IdentityOf(inv.scope, inv.candidates[first]), now, p.retainUntil, epoch);
    forall k | k in p.ready
      ensures k < |inv.candidates| && Entitled(log + [entry], id, epoch, inv.scope, inv.candidates[k])
    {
      assert Placed(inv.groups, k, inv.next);
      assert Entitles((log + [entry])[|log|], id, epoch, inv.scope, inv.candidates[k]);
    }
  }

  lemma RecordedIsSound(inv: Invocation, id: nat, epoch: nat, log: seq<Acceptance>, failures: map<nat, Rejection>, n: nat)
    requires InvocationSound(inv, id, epoch, log)
    requires inv.phase.Consuming?
    ensures InvocationSound(inv.(outcomes := RecordFailures(inv.outcomes, failures), next := n), id, epoch, log)
  {
    var outcomes := RecordFailures(inv.outcomes, failures);
    forall k | k in outcomes && outcomes[k] == Granted ensures k in inv.outcomes && inv.outcomes[k] == Granted {
      assert k !in failures;
    }
  }

  /** A dispatched group is sound to wait for, whatever the store answers. */
  lemma WaitingIsSound(inv: Invocation, id: nat, epoch: nat, log: seq<Acceptance>, now: int)
    requires InvocationSound(inv, id, epoch, log) && inv.phase.Consuming? && inv.next < |inv.groups|
    requires Members(|inv.candidates|, inv.groups[inv.next])
    requires Prepared(inv.candidates, inv.groups[inv.next], now).ready != []
    ensures var p := Prepared(inv.candidates, inv.groups[inv.next], now);
            && p.ready[0] < |inv.candidates| && inv.candidates[p.ready[0]].nonce.Some?
            && var entry := Acceptance(id, IdentityOf(inv.scope, inv.candidates[p.ready[0]]), now, p.retainUntil, epoch);
               var recorded := inv.(outcomes := RecordFailures(inv.outcomes, p.failures));
               && InvocationSound(recorded.(phase := Waiting(p.ready, Accepted)), id, epoch, log + [entry])
               && forall outcome | outcome != Accepted ::
                    InvocationSound(recorded.(phase := Waiting(p.ready, outcome)), id, epoch, log)
  {
    hide Entitled, Grouping;
    var p := Prepared(inv.candidates, inv.groups[inv.next], now);
    ReadyAreEntitled(inv, id, epoch, log, now);
    RecordedIsSound(inv, id, epoch, log, p.failures, inv.next);
    LogGrows(inv.(outcomes := RecordFailures(inv.outcomes, p.failures)), id, epoch, log,
             Acceptance(id, IdentityOf(inv.scope, inv.candidates[p.ready[0]]), now, p.retainUntil, epoch));
  }

  lemma DispatchKeepsInv(s: State, a: Action)
    requires Inv(s) && Enabled(s, a) && a.Dispatch?
    ensures Inv(Next(s, a))
  {
    var id := a.id;
    var inv := s.invocations[id];
    var group := inv.groups[inv.next];
    var epoch := s.controller.epochs.leases[id].epoch;
    SC.TimeReadAdvances(s.controller, Some(id), a.wall, a.monotonic);
    var (controller, time) := SC.TimeRead(s.controller, Some(id), a.wall, a.monotonic);
    var t := Next(s, a);
    if time.Err? {
      GroupFailedIsSound(inv, id, epoch, s.log, time.error);
      PutKeepsInv(s, t, id, t.invocations[id]);
    } else {
      var now := time.value;
      var p := Prepared(inv.candidates, group, now);
      if p.ready == [] {
        RecordedIsSound(inv, id, epoch, s.log, p.failures, inv.next + 1);
        PutKeepsInv(s, t, id, t.invocations[id]);
      } else {
        assert epoch == s.controller.epochs.last;
        ReadyAreEntitled(inv, id, epoch, s.log, now);
        RecordedIsSound(inv, id, epoch, s.log, p.failures, inv.next);
        DispatchedReadyKeepsInv(s, a, now);
      }
    }
  }

  lemma DispatchedReadyKeepsInv(s: State, a: Action, now: int)
    requires Inv(s) && Enabled(s, a) && a.Dispatch?
    requires SC.TimeRead(s.controller, Some(a.id), a.wall, a.monotonic).1 == Ok(now)
    requires var inv := s.invocations[a.id];
             Prepared(inv.candidates, inv.groups[inv.next], now).ready != []
    ensures Inv(Next(s, a))
  {
    hide Spaced, Covered, InvocationSound;
    var id := a.id;
    var inv := s.invocations[id];
    var p := Prepared(inv.candidates, inv.groups[inv.next], now);
    var epoch := s.controller.epochs.last;
    SC.TimeReadAdvances(s.controller, Some(id), a.wall, a.monotonic);
    WaitingIsSound(inv, id, epoch, s.log, now);
    var input := Mem.ConsumeInput(IdentityOf(inv.scope, inv.candidates[p.ready[0]]), now, p.retainUntil);
    StoreStepKeepsLog(s.log, epoch, s.history, s.policy, s.limits, id, input);
    var entry := Acceptance(id, input.identity, now, p.retainUntil, epoch);
    StoredKeepsInv(s, id, Next(s, a), entry);
  }

  /** A step that changes one invocation, the store and perhaps the log. */
  lemma StoredKeepsInv(s: State, id: nat, t: State, entry: Acceptance)
    requires Inv(s) && s.controller.epochs.active.Some? && s.replacement.None?
    requires t.log == s.log || t.log == s.log + [entry]
    requires entry.epoch == s.controller.epochs.last
    requires Spaced(t.log) && Covered(t.log, s.controller.epochs.last, t.history)
    requires id in s.invocations && id in t.invocations
    requires t.invocations == s.invocations[id := t.invocations[id]]
    requires InvocationSound(t.invocations[id], id, s.controller.epochs.leases[id].epoch, t.log)
    requires SC.Sound(t.controller) && t.controller.epochs == s.controller.epochs && t.replacement == s.replacement
    requires t.history.lastNow <= CT.HighWater(t.controller.tracker)
    ensures Inv(t)
  {
    forall other | other in t.invocations
      ensures other in t.controller.epochs.leases
      ensures InvocationSound(t.invocations[other], other, t.controller.epochs.leases[other].epoch, t.log)
    {
      if other != id {
        LogGrows(s.invocations[other], other, s.controller.epochs.leases[other].epoch, s.log, entry);
      }
    }
  }

  lemma ResetKeepsInv(s: State, a: Action)
    requires Inv(s) && Enabled(s, a)
    requires a.StartReset? || a.PrepareReset? || a.CommitReset?
    ensures Inv(Next(s, a))
  {
    hide InvocationSound, Spaced;
    match a {
      case StartReset =>
      case PrepareReset(wall, monotonic) =>
        CT.ObserveAdvances(s.controller.tracker, wall, monotonic);
        OE.InvalidatedIsValid(s.controller.epochs);
        CT.FloorIsMonotone(0.0, (s.controller.tracker.referenceWall
                                 + (s.controller.tracker.previousMonotonic - s.controller.tracker.referenceMonotonic)) / 1000.0);
      case CommitReset(cleaned, wall, monotonic) =>
        CT.ObserveAdvances(s.replacement.value, wall, monotonic);
        OE.InvalidatedIsValid(s.controller.epochs);
        if OE.Activated(s.controller.epochs).Some? { OE.ActivatedIsValid(s.controller.epochs); }
    }
  }

  lemma QuietKeepsInv(s: State, a: Action)
    requires Inv(s) && Enabled(s, a)
    requires a.Evaluate? || a.Abandon?
    ensures Inv(Next(s, a))
  {
    OE.FinishedIsValid(s.controller.epochs, a.id);
    PutKeepsInv(s, Next(s, a), a.id, Next(s, a).invocations[a.id]);
  }

  lemma StepKeepsInv(s: State, a: Action)
    requires Inv(s)
    ensures Inv(Next(s, a))
  {
    if Enabled(s, a) {
      match a
      case Begin(id, scope, wall, monotonic) => BeginKeepsInv(s, id, scope, wall, monotonic);
      case Evaluate(_, _, _) => QuietKeepsInv(s, a);
      case Dispatch(_, _, _) => DispatchKeepsInv(s, a);
      case Reply(_, _, _, _) => ReplyKeepsInv(s, a);
      case Settle(_, _, _) => SettleKeepsInv(s, a);
      case Complete(_, _, _, _) => CompleteKeepsInv(s, a);
      case Abandon(_) => QuietKeepsInv(s, a);
      case StartReset => ResetKeepsInv(s, a);
      case PrepareReset(_, _) => ResetKeepsInv(s, a);
      case CommitReset(_, _, _) => ResetKeepsInv(s, a);
    }
  }

  lemma {:induction false} RunKeepsInv(s: State, actions: seq<Action>)
    requires Inv(s)
    ensures Inv(Run(s, actions))
    decreases |actions|
  {
    if actions != [] {
      RunKeepsInv(s, actions[..|actions| - 1]);
      StepKeepsInv(Run(s, actions[..|actions| - 1]), actions[|actions| - 1]);
    }
  }

  lemma StartIsSound(policy: Mem.ReplayPolicy, limits: Mem.Limits, drift: nat, tracker: CT.TrackerState)
    requires CT.Valid(tracker)
    ensures Inv(Start(policy, limits, drift, tracker))
  {
    assert OE.Open(OE.Start<nat>()) == {};
    CT.FloorIsMonotone(0.0, (tracker.referenceWall + (tracker.previousMonotonic - tracker.referenceMonotonic)) / 1000.0);
  }

  // ---------------------------------------------------------------- the theorems

  /** Two candidates that carry the same signature: the same policy, times, nonce and key. */
  ghost predicate VerifiedIn(s: State, id: nat, scope: Text, c: Candidate, epoch: nat) {
    && id in s.invocations && id in s.controller.epochs.leases
    && s.controller.epochs.leases[id].epoch == epoch
    && s.invocations[id].scope == scope
    && exists k :: 0 <= k < |s.invocations[id].candidates| && s.invocations[id].candidates[k] == c
                   && Consumed(s.invocations[id], k)
  }

  /** No two acceptances of the log entitle one signed candidate. */
  lemma EntitlementIsUnique(log: seq<Acceptance>, i: nat, j: nat, id: nat, other: nat, epoch: nat, scope: Text, c: Candidate)
    requires Spaced(log)
    requires i < j < |log|
    requires Entitles(log[i], id, epoch, scope, c)
    ensures !Entitles(log[j], other, epoch, scope, c)
  {
    if Admit(c, log[j].at).Ok? {
      TP.RetentionCoversWindow(c.policy, c.created, c.expires, log[i].at, log[j].at);
    }
  }

  lemma OneHolder(log: seq<Acceptance>, first: nat, second: nat, epoch: nat, scope: Text, c: Candidate)
    requires Spaced(log) && Entitled(log, first, epoch, scope, c) && Entitled(log, second, epoch, scope, c)
    ensures first == second
  {
    var i: nat :| i < |log| && Entitles(log[i], first, epoch, scope, c);
    var j: nat :| j < |log| && Entitles(log[j], second, epoch, scope, c);
    hide Spaced;
    if i < j {
      EntitlementIsUnique(log, i, j, first, second, epoch, scope, c);
    } else if j < i {
      EntitlementIsUnique(log, j, i, second, first, epoch, scope, c);
    }
  }

  lemma VerifiedIsEntitled(s: State, id: nat, epoch: nat, scope: Text, c: Candidate)
    requires Inv(s) && VerifiedIn(s, id, scope, c, epoch)
    ensures Entitled(s.log, id, epoch, scope, c)
  {
  }

  /** Some run of a context, from any starting clock, leads to `s`. */
  ghost predicate Reachable(s: State) {
    exists policy, limits, drift, tracker, actions ::
      CT.Valid(tracker) && s == Run(Start(policy, limits, drift, tracker), actions)
  }

  lemma ReachableIsSound(s: State)
    requires Reachable(s)
    ensures Inv(s)
  {
    var policy, limits, drift, tracker, actions :|
      CT.Valid(tracker) && s == Run(Start(policy, limits, drift, tracker), actions);
    StartIsSound(policy, limits, drift, tracker);
    RunKeepsInv(Start(policy, limits, drift, tracker), actions);
  }

  /**
   * At most once: over every run of a context, no signed candidate with a nonce is reported verified
   * by two invocations whose leases belong to the same epoch.
   */
  lemma AtMostOncePerEpoch(s: State, first: nat, second: nat, epoch: nat, scope: Text, c: Candidate)
    requires Reachable(s)
    requires VerifiedIn(s, first, scope, c, epoch)
    requires VerifiedIn(s, second, scope, c, epoch)
    ensures first == second
  {
    ReachableIsSound(s);
    hide Reachable, VerifiedIn, Entitled, InvocationSound, Covered, Spaced;
    VerifiedIsEntitled(s, first, epoch, scope, c);
    VerifiedIsEntitled(s, second, epoch, scope, c);
    OneHolder(s.log, first, second, epoch, scope, c);
  }

  /** The store's own regression guard is never what refuses a dispatch that passed the clock gate. */
  lemma RegressionGuardNeverFires(s: State, id: nat, wall: CT.Sample, monotonic: CT.Sample)
    requires Reachable(s)
    ensures var time := SC.TimeRead(s.controller, Some(id), wall, monotonic).1;
            time.Ok? ==> s.history.lastNow <= time.value
  {
    ReachableIsSound(s);
    SC.TimeReadAdvances(s.controller, Some(id), wall, monotonic);
  }

  /** The counter is exact in every reachable state: it is the number of open leases of the epoch. */
  lemma InFlightIsExact(s: State)
    requires Reachable(s)
    ensures var e := s.controller.epochs;
            e.inFlight == |OE.Open(e)| && (e.active.Some? ==> e.active == Some(e.last))
  {
    ReachableIsSound(s);
  }

  /** An invocation whose lease is no longer current, and which has no result yet, never gets one. */
  ghost predicate Lost(s: State, id: nat) {
    && id in s.invocations && id in s.controller.epochs.leases
    && !OE.Current(s.controller.epochs, id)
    && !s.invocations[id].phase.Done?
  }

  /** A lease that was lost stays lost. */
  lemma LeaseStaysLost(s: State, a: Action, id: nat)
    requires Inv(s)
    requires id in s.controller.epochs.leases && !OE.Current(s.controller.epochs, id)
    ensures id in Next(s, a).controller.epochs.leases && !OE.Current(Next(s, a).controller.epochs, id)
  {
    hide InvocationSound, Covered, Spaced;
    if Enabled(s, a) && a.CommitReset? {
      assert s.controller.epochs.leases[id].epoch <= s.controller.epochs.last;
    }
  }

  lemma LostStep(s: State, a: Action, id: nat)
    requires Inv(s) && Lost(s, id)
    ensures Lost(Next(s, a), id)
  {
    hide InvocationSound, Covered, Spaced;
    LeaseStaysLost(s, a, id);
    if Enabled(s, a) && a.Complete? && a.id == id {
      assert SC.OperationCompleted(s.controller, id, a.wall, a.monotonic).1.Err?;
    }
  }

  lemma {:induction false} LostInvocationIsNeverVerified(s: State, actions: seq<Action>, id: nat)
    requires Inv(s) && Lost(s, id)
    ensures Lost(Run(s, actions), id)
    decreases |actions|
  {
    if actions != [] {
      LostInvocationIsNeverVerified(s, actions[..|actions| - 1], id);
      RunKeepsInv(s, actions[..|actions| - 1]);
      LostStep(Run(s, actions[..|actions| - 1]), actions[|actions| - 1], id);
    }
  }

  /** Once a reset has prepared, every invocation without a result is lost, whatever follows. */
  lemma ResetLosesEveryOpenInvocation(s: State, wall: CT.Sample, monotonic: CT.Sample, actions: seq<Action>, id: nat)
    requires Inv(s) && Enabled(s, PrepareReset(wall, monotonic))
    requires CT.Create(wall, monotonic, s.drift).Some?
    requires id in s.invocations && !s.invocations[id].phase.Done?
    ensures var after := Run(Next(s, PrepareReset(wall, monotonic)), actions);
            id in after.invocations && !after.invocations[id].phase.Done?
  {
    StepKeepsInv(s, PrepareReset(wall, monotonic));
    LostInvocationIsNeverVerified(Next(s, PrepareReset(wall, monotonic)), actions, id);
  }

  /** A commit of a reset that opens the next epoch. */
  ghost predicate ResetSucceeds(s: State, a: Action) {
    && a.CommitReset? && Enabled(s, a)
    && SC.ResetCommitted(s.controller, s.replacement.value, a.cleaned, a.wall, a.monotonic).1
  }

  /** A commit that does not succeed leaves the context closed, whatever it was before. */
  lemma FailedResetCloses(s: State, a: Action)
    requires a.CommitReset? && Enabled(s, a) && !ResetSucceeds(s, a)
    ensures Next(s, a).controller.epochs.active.None?
    ensures Next(s, a).controller.epochs.last == s.controller.epochs.last
  {
  }

  /** A closed context is opened by a successful reset and by nothing else. */
  lemma ClosedStep(s: State, a: Action)
    requires s.controller.epochs.active.None?
    ensures Next(s, a).controller.epochs.active.Some? <==> ResetSucceeds(s, a)
    ensures Next(s, a).invocations.Keys == s.invocations.Keys
  {
  }

  /** While the context is closed nothing begins until a reset succeeds, however many fail before it. */
  lemma {:induction false} ClosedContextBeginsNothing(s: State, actions: seq<Action>)
    requires s.controller.epochs.active.None?
    requires forall i | 0 <= i < |actions| :: !ResetSucceeds(Run(s, actions[..i]), actions[i])
    ensures Run(s, actions).controller.epochs.active.None?
    ensures Run(s, actions).invocations.Keys == s.invocations.Keys
    decreases |actions|
  {
    hide Next, ResetSucceeds;
    if actions != [] {
      var n := |actions| - 1;
      forall i | 0 <= i < n ensures !ResetSucceeds(Run(s, actions[..n][..i]), actions[..n][i]) {
        assert actions[..n][..i] == actions[..i];
      }
      ClosedContextBeginsNothing(s, actions[..n]);
      ClosedStep(Run(s, actions[..n]), actions[n]);
    }
  }
}
