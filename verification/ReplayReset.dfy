/** What the replay guarantee does not promise: an undisturbed first use succeeds, and a reset makes it a first use again. */
module ReplayReset {
  import opened Basics
  import opened Codes
  import CT = ClockTracker
  import OE = OperationEpochs
  import SC = SecurityController
  import Mem = MemoryReplayStore
  import opened CR = CandidateReplay
  import VE = VerificationEngine
  import opened P = ReplayProtocol

  /** The clock reads second `now`, again and again. */
  ghost predicate Steady(tracker: CT.TrackerState, wall: CT.Sample, monotonic: CT.Sample, now: int) {
    var (next, seen) := CT.Observed(tracker, wall, monotonic);
    next == tracker && seen.Healthy? && seen.epochSeconds == now
  }

  /** An open context with nothing recorded, in which `id` has not been used. */
  ghost predicate Ready(s: State, id: nat, wall: CT.Sample, monotonic: CT.Sample, now: int) {
    && !s.controller.busy && s.controller.healthy && s.replacement.None?
    && s.controller.epochs.active == Some(s.controller.epochs.last)
    && s.controller.epochs.inFlight == 0
    && id !in s.invocations && id !in s.controller.epochs.leases
    && s.history == Mem.EMPTY
    && Steady(s.controller.tracker, wall, monotonic, now)
  }

  /** A store that can hold one record, and a candidate it can record at `now`. */
  ghost predicate Storable(policy: Mem.ReplayPolicy, limits: Mem.Limits, scope: Text, c: Candidate, now: int) {
    && policy.capacity > 0 && policy.maxPerKey > 0
    && c.nonce.Some? && Admit(c, now).Ok?
    && Mem.ValidInput(limits, 0, Mem.ConsumeInput(IdentityOf(scope, c), now, Admit(c, now).value))
  }

  /** One invocation, alone, with one candidate. */
  function Solo(id: nat, scope: Text, c: Candidate, wall: CT.Sample, monotonic: CT.Sample): seq<Action> {
    [Begin(id, scope, wall, monotonic), Evaluate(id, [c], [[0]]), Dispatch(id, wall, monotonic),
     Reply(id, false, wall, monotonic), Settle(id, wall, monotonic), Complete(id, {}, wall, monotonic)]
  }

  lemma {:induction false} RunConcat(s: State, first: seq<Action>, rest: seq<Action>)
    ensures Run(s, first + rest) == Run(Run(s, first), rest)
    decreases |rest|
  {
    if rest == [] {
      assert first + rest == first;
    } else {
      assert (first + rest)[..|first + rest| - 1] == first + rest[..|rest| - 1];
      RunConcat(s, first, rest[..|rest| - 1]);
    }
  }

  lemma RunOne(s: State, actions: seq<Action>, a: Action)
    ensures Run(s, actions + [a]) == Next(Run(s, actions), a)
  {
    assert (actions + [a])[..|actions|] == actions;
  }

  /** Invocation `id` holds a current lease in a steady context. */
  ghost predicate Holding(s: State, id: nat, inv: Invocation, wall: CT.Sample, monotonic: CT.Sample, now: int) {
    && !s.controller.busy && s.controller.healthy
    && OE.Current(s.controller.epochs, id)
    && id in s.invocations && s.invocations[id] == inv
    && Steady(s.controller.tracker, wall, monotonic, now)
  }

  lemma HoldingReads(s: State, id: nat, inv: Invocation, wall: CT.Sample, monotonic: CT.Sample, now: int)
    requires Holding(s, id, inv, wall, monotonic, now)
    ensures SC.TimeRead(s.controller, Some(id), wall, monotonic) == (s.controller, Ok(now))
  {
  }

  lemma PreparedAlone(c: Candidate, now: int)
    requires c.nonce.Some? && Admit(c, now).Ok? && Admit(c, now).value >= 0
    ensures Prepared([c], [0], now) == Preparation([0], Admit(c, now).value, map[], None)
  {
    assert [0][..0] == [];
    assert Prepared([c], [], now) == Preparation([], 0, map[], None);
  }

  lemma StoredAlone(policy: Mem.ReplayPolicy, limits: Mem.Limits, scope: Text, c: Candidate, now: int)
    requires Storable(policy, limits, scope, c, now)
    ensures var input := Mem.ConsumeInput(IdentityOf(scope, c), now, Admit(c, now).value);
            Mem.Consumed(Mem.EMPTY, policy, limits, input).1 == Accepted
  {
    assert Mem.Live(map[], now) == map[];
    assert Mem.OfKey(map[], c.thumbprint) == {};
  }

  function Just(c: Candidate, scope: Text, phase: Phase): Invocation {
    Invocation(scope, [c], [[0]], 0, map[], phase)
  }

  lemma GroupedAlone(c: Candidate, scope: Text)
    requires c.nonce.Some?
    ensures Grouping([c], scope, [[0]])
    ensures NoncelessOutcomes([c]) == map[]
  {
    assert Placed([[0]], 0, 0);
  }

  lemma BeginAlone(s: State, id: nat, scope: Text, wall: CT.Sample, monotonic: CT.Sample, now: int)
    requires Ready(s, id, wall, monotonic, now)
    ensures var e := OE.Begun(s.controller.epochs, id);
            e.Some? && Next(s, Begin(id, scope, wall, monotonic)) ==
            Put(s.(controller := s.controller.(epochs := e.value)), id, Invocation(scope, [], [], 0, map[], Evaluating))
  {
  }

  lemma EvaluateAlone(s: State, id: nat, scope: Text, c: Candidate)
    requires id in s.invocations && s.invocations[id] == Invocation(scope, [], [], 0, map[], Evaluating)
    requires c.nonce.Some?
    ensures Next(s, Evaluate(id, [c], [[0]])) == Put(s, id, Just(c, scope, Consuming))
  {
    GroupedAlone(c, scope);
  }

  lemma DispatchAlone(s: State, id: nat, scope: Text, c: Candidate, wall: CT.Sample, monotonic: CT.Sample, now: int)
    requires Holding(s, id, Just(c, scope, Consuming), wall, monotonic, now)
    requires s.history == Mem.EMPTY && Storable(s.policy, s.limits, scope, c, now)
    ensures var t := Next(s, Dispatch(id, wall, monotonic));
            t == Put(s, id, Just(c, scope, Waiting([0], Accepted))).(history := t.history, log := t.log)
  {
    hide CT.Observed, Mem.Consumed, Prepared;
    HoldingReads(s, id, Just(c, scope, Consuming), wall, monotonic, now);
    StoredAlone(s.policy, s.limits, scope, c, now);
    PreparedAlone(c, now);
    assert RecordFailures(map[], map[]) == map[];
  }

  lemma ReplyAlone(s: State, id: nat, scope: Text, c: Candidate, wall: CT.Sample, monotonic: CT.Sample, now: int)
    requires Holding(s, id, Just(c, scope, Waiting([0], Accepted)), wall, monotonic, now)
    ensures Next(s, Reply(id, false, wall, monotonic)) == Put(s, id, Just(c, scope, Returned([0], Accepted)))
  {
    HoldingReads(s, id, Just(c, scope, Waiting([0], Accepted)), wall, monotonic, now);
  }

  lemma SettleAlone(s: State, id: nat, scope: Text, c: Candidate, wall: CT.Sample, monotonic: CT.Sample, now: int)
    requires Holding(s, id, Just(c, scope, Returned([0], Accepted)), wall, monotonic, now)
    requires Admit(c, now).Ok?
    ensures Next(s, Settle(id, wall, monotonic)) ==
            Put(s, id, Just(c, scope, Consuming).(outcomes := map[0 := Granted], next := 1))
  {
    HoldingReads(s, id, Just(c, scope, Returned([0], Accepted)), wall, monotonic, now);
    assert Settled([c], map[], [0], Accepted, now) == map[0 := Granted];
  }

  lemma CompleteAlone(s: State, id: nat, scope: Text, c: Candidate, wall: CT.Sample, monotonic: CT.Sample, now: int)
    requires Holding(s, id, Just(c, scope, Consuming).(outcomes := map[0 := Granted], next := 1), wall, monotonic, now)
    requires Admit(c, now).Ok? && c.nonce.Some?
    ensures var t := Next(s, Complete(id, {}, wall, monotonic));
            && t == Put(s.(controller := s.controller.(epochs := OE.Finished(s.controller.epochs, id))), id,
                        t.invocations[id])
            && VerifiedIn(t, id, scope, c, s.controller.epochs.leases[id].epoch)
  {
    var inv := s.invocations[id];
    HoldingReads(s, id, inv, wall, monotonic, now);
    var t := Next(s, Complete(id, {}, wall, monotonic));
    assert FinalResult(inv, 0, {}, now) == VE.Verified(c, now, true);
    assert t.invocations[id].phase.results == [VE.Verified(c, now, true)];
    assert Consumed(t.invocations[id], 0);
  }

  /**
   * Undisturbed first use: whatever can be recorded and is within its window is reported verified, so
   * the at-most-once theorem is not met by refusing everything.
   */
  lemma FirstUseIsVerified(s: State, id: nat, scope: Text, c: Candidate, wall: CT.Sample, monotonic: CT.Sample, now: int)
    requires Ready(s, id, wall, monotonic, now) && Storable(s.policy, s.limits, scope, c, now)
    ensures var t := Run(s, Solo(id, scope, c, wall, monotonic));
            && VerifiedIn(t, id, scope, c, s.controller.epochs.last)
            && t.controller == s.controller.(epochs := OE.Finished(OE.Begun(s.controller.epochs, id).value, id))
            && t.replacement.None? && t.policy == s.policy && t.limits == s.limits && t.drift == s.drift
            && t.invocations.Keys == s.invocations.Keys + {id}
            && forall other | other in s.invocations :: t.invocations[other] == s.invocations[other]
  {
    hide Next, Run;
    var a1, a2 := Begin(id, scope, wall, monotonic), Evaluate(id, [c], [[0]]);
    var a3, a4 := Dispatch(id, wall, monotonic), Reply(id, false, wall, monotonic);
    var a5, a6 := Settle(id, wall, monotonic), Complete(id, {}, wall, monotonic);
    var s1 := Next(s, a1);
    BeginAlone(s, id, scope, wall, monotonic, now);
    var s2 := Next(s1, a2);
    EvaluateAlone(s1, id, scope, c);
    var s3 := Next(s2, a3);
    DispatchAlone(s2, id, scope, c, wall, monotonic, now);
    var s4 := Next(s3, a4);
    ReplyAlone(s3, id, scope, c, wall, monotonic, now);
    var s5 := Next(s4, a5);
    SettleAlone(s4, id, scope, c, wall, monotonic, now);
    CompleteAlone(s5, id, scope, c, wall, monotonic, now);
    RunSix(s, a1, a2, a3, a4, a5, a6);
  }

  lemma RunSix(s: State, a1: Action, a2: Action, a3: Action, a4: Action, a5: Action, a6: Action)
    ensures Run(s, [a1, a2, a3, a4, a5, a6]) == Next(Next(Next(Next(Next(Next(s, a1), a2), a3), a4), a5), a6)
  {
    hide Next;
    RunOne(s, [], a1);
    RunOne(s, [a1], a2);
    RunOne(s, [a1, a2], a3);
    RunOne(s, [a1, a2, a3], a4);
    RunOne(s, [a1, a2, a3, a4], a5);
    RunOne(s, [a1, a2, a3, a4, a5], a6);
    assert [] + [a1] == [a1];
    assert [a1] + [a2] == [a1, a2];
    assert [a1, a2] + [a3] == [a1, a2, a3];
    assert [a1, a2, a3] + [a4] == [a1, a2, a3, a4];
    assert [a1, a2, a3, a4] + [a5] == [a1, a2, a3, a4, a5];
    assert [a1, a2, a3, a4, a5] + [a6] == [a1, a2, a3, a4, a5, a6];
  }

  function Reset(wall: CT.Sample, monotonic: CT.Sample): seq<Action> {
    [StartReset, PrepareReset(wall, monotonic), CommitReset(true, wall, monotonic)]
  }

  lemma CreatedIsSteady(drift: nat, wall: CT.Sample, monotonic: CT.Sample)
    requires CT.Create(wall, monotonic, drift).Some?
    ensures Steady(CT.Create(wall, monotonic, drift).value, wall, monotonic, (wall.ms / 1000.0).Floor)
  {
  }

  /** A reset of an idle context opens the next epoch over an empty store, and keeps every result. */
  lemma ResetIsReady(s: State, id: nat, wall: CT.Sample, monotonic: CT.Sample)
    requires !s.controller.busy && s.replacement.None? && s.controller.epochs.last < MAX_SAFE
    requires id !in s.invocations && id !in s.controller.epochs.leases
    requires CT.Create(wall, monotonic, s.drift).Some?
    ensures var t := Run(s, Reset(wall, monotonic));
            && Ready(t, id, wall, monotonic, (wall.ms / 1000.0).Floor)
            && t.controller.epochs.last == s.controller.epochs.last + 1
            && t.controller.epochs.leases == s.controller.epochs.leases && t.invocations == s.invocations
            && t.policy == s.policy && t.limits == s.limits && t.drift == s.drift
  {
    var b1, b2, b3 := StartReset, PrepareReset(wall, monotonic), CommitReset(true, wall, monotonic);
    CreatedIsSteady(s.drift, wall, monotonic);
    RunOne(s, [], b1);
    RunOne(s, [b1], b2);
    RunOne(s, [b1, b2], b3);
    assert [] + [b1] == [b1];
    assert [b1] + [b2] == [b1, b2];
    assert [b1, b2] + [b3] == Reset(wall, monotonic);
  }

  lemma StillVerified(s: State, t: State, id: nat, scope: Text, c: Candidate, epoch: nat)
    requires VerifiedIn(s, id, scope, c, epoch)
    requires id in t.invocations && t.invocations[id] == s.invocations[id]
    requires id in t.controller.epochs.leases && t.controller.epochs.leases[id].epoch == epoch
    ensures VerifiedIn(t, id, scope, c, epoch)
  {
  }

  /**
   * At most once holds for each epoch and not across them: in every context, a candidate that can be
   * recorded when the context starts is verified once before a reset and once after it.
   */
  lemma ResetAllowsASecondUse(policy: Mem.ReplayPolicy, limits: Mem.Limits, drift: nat, scope: Text, c: Candidate,
                              wall: CT.Sample, monotonic: CT.Sample)
    requires CT.Create(wall, monotonic, drift).Some?
    requires Storable(policy, limits, scope, c, (wall.ms / 1000.0).Floor)
    ensures var s := Run(Start(policy, limits, drift, CT.Create(wall, monotonic, drift).value),
                         Solo(0, scope, c, wall, monotonic) + Reset(wall, monotonic) + Solo(1, scope, c, wall, monotonic));
            VerifiedIn(s, 0, scope, c, 1) && VerifiedIn(s, 1, scope, c, 2)
  {
    hide Run, VerifiedIn, Storable, Steady;
    var now := (wall.ms / 1000.0).Floor;
    var s0 := Start(policy, limits, drift, CT.Create(wall, monotonic, drift).value);
    CreatedIsSteady(drift, wall, monotonic);
    var one, between, two := Solo(0, scope, c, wall, monotonic), Reset(wall, monotonic), Solo(1, scope, c, wall, monotonic);
    FirstUseIsVerified(s0, 0, scope, c, wall, monotonic, now);
    var s1 := Run(s0, one);
    ResetIsReady(s1, 1, wall, monotonic);
    var s2 := Run(s1, between);
    FirstUseIsVerified(s2, 1, scope, c, wall, monotonic, now);
    var s3 := Run(s2, two);
    StillVerified(s1, s3, 0, scope, c, 1);
    RunConcat(s0, one, between);
    RunConcat(s0, one + between, two);
  }
}
