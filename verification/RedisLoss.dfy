/** The recovery horizon is needed: what a shorter quarantine lets through when history is lost. */
module RedisLoss {
  import opened Basics
  import TP = TimePolicy
  import Mem = MemoryReplayStore
  import opened CR = CandidateReplay
  import opened Digits
  import opened RS = RedisScript
  import opened RH = RedisHistory
  import opened P = RedisProtocol

  const MICROS := 1_000_000

  /** The request an invocation alone sends at a whole second. */
  function RequestAt(scope: Text, c: Candidate, second: nat): Request
    requires Admit(c, second).Ok?
  {
    Request(scope, c, second, Admit(c, second).value)
  }

  /** A consume that the script can record at a whole second. */
  ghost predicate Recordable(encode: Mem.Identity -> Text, adapter: Adapter, scope: Text, c: Candidate, second: nat) {
    && c.nonce.Some? && Admit(c, second).Ok? && Sendable(RequestAt(scope, c, second))
    && ArgsOk(ConsumeArgs(encode, adapter, RequestAt(scope, c, second)))
    && TimeFits(ConsumeArgs(encode, adapter, RequestAt(scope, c, second)), second * 1000)
    && Integer(adapter.quota).value > 0 && Integer(adapter.capacity).value > 0
  }

  /** Set up at one moment, wait, then verify one candidate without further delay. */
  function Round(adapter: Adapter, wait: nat, id: nat, scope: Text, c: Candidate): seq<Action> {
    [SetUp(adapter, false), Advance(wait * MICROS), Dispatch(id, scope, c, 0), Execute(id, adapter, false), Recheck(id, false)]
  }

  lemma RunOne(encode: Mem.Identity -> Text, s: State, actions: seq<Action>, a: Action)
    ensures P.Run(encode, s, actions + [a]) == Next(encode, P.Run(encode, s, actions), a)
  {
    assert (actions + [a])[..|actions|] == actions;
  }

  lemma RunFive(encode: Mem.Identity -> Text, s: State, a1: Action, a2: Action, a3: Action, a4: Action, a5: Action)
    ensures P.Run(encode, s, [a1, a2, a3, a4, a5])
         == Next(encode, Next(encode, Next(encode, Next(encode, Next(encode, s, a1), a2), a3), a4), a5)
  {
    hide Next;
    RunOne(encode, s, [], a1);
    RunOne(encode, s, [a1], a2);
    RunOne(encode, s, [a1, a2], a3);
    RunOne(encode, s, [a1, a2, a3], a4);
    RunOne(encode, s, [a1, a2, a3, a4], a5);
    assert [] + [a1] == [a1];
    assert [a1] + [a2] == [a1, a2];
    assert [a1, a2] + [a3] == [a1, a2, a3];
    assert [a1, a2, a3] + [a4] == [a1, a2, a3, a4];
    assert [a1, a2, a3, a4] + [a5] == [a1, a2, a3, a4, a5];
  }

  lemma {:induction false} RunConcat(encode: Mem.Identity -> Text, s: State, first: seq<Action>, rest: seq<Action>)
    ensures P.Run(encode, s, first + rest) == P.Run(encode, P.Run(encode, s, first), rest)
    decreases |rest|
  {
    hide Next;
    if rest == [] {
      assert first + rest == first;
    } else {
      assert (first + rest)[..|first + rest| - 1] == first + rest[..|rest| - 1];
      RunConcat(encode, s, first, rest[..|rest| - 1]);
    }
  }

  lemma WholeSeconds(second: nat)
    ensures Seconds(second * MICROS) == second && TimeOf(second * MICROS) == Time(second, 0)
  {
  }

  /** A command that finds a key missing starts a quarantine of its horizon. */
  lemma LossIsDetected(db: Db, adapter: Adapter, second: nat)
    requires HistoryLost(db) && ArgsOk(SetupArgs(adapter)) && TimeFits(SetupArgs(adapter), second * 1000)
    ensures RS.Run(db, SetupArgs(adapter), Time(second, 0), false).0 == QuarantineDb(SetupArgs(adapter), second * 1000)
  {
    var t := Time(second, 0);
    assert DeadlineBase(t) == second * 1000;
    hide ArgsOk, TimeFits, QuarantineDb, ScanAll, DeadlineBase, HeaderOk;
    assert Validated(db, DeadlineBase(t)).None?;
  }

  /** Once the quarantine is over, the first consume of an identity is accepted. */
  lemma FirstConsumeIsAccepted(adapter: Adapter, a: Args, began: nat, second: nat)
    requires ArgsOk(SetupArgs(adapter)) && TimeFits(SetupArgs(adapter), began * 1000)
    requires a.mode.Consume? && ArgsOk(a) && TimeFits(a, second * 1000)
    requires a.horizon == adapter.horizon && a.capacity == adapter.capacity && a.quota == adapter.quota
    requires Integer(a.capacity).value > 0 && Integer(a.quota).value > 0
    requires began * 1000 + Integer(a.horizon).value <= second * 1000
    ensures RS.Run(QuarantineDb(SetupArgs(adapter), began * 1000), a, Time(second, 0), false).1 == AcceptedReply
  {
    assert began <= second;
    var t := Time(second, 0);
    assert DeadlineBase(t) == second * 1000 == Now(t);
    hide ArgsOk, TimeFits, Validated, Integer, DeadlineBase, Now;
    var keyOf := (t: Text) => t;
    var setup := SetupArgs(adapter);
    QuarantineIsIntact(setup, began * 1000, keyOf);
    IntactLater(QuarantineDb(setup, began * 1000), setup, began * 1000, second * 1000, keyOf);
    assert ScanAll([], a, Now(t)) == Some(Scan({}, [], 0, false));
  }

  /** Whenever a loss was detected a full quarantine ago, a recordable candidate in its window is verified. */
  lemma RoundVerifies(encode: Mem.Identity -> Text, s: State, began: nat, adapter: Adapter, wait: nat, id: nat,
                      scope: Text, c: Candidate)
    requires HistoryLost(s.db) && s.clock == began * MICROS && id !in s.invocations
    requires Recordable(encode, adapter, scope, c, began + wait)
    requires Integer(adapter.horizon).value == wait * 1000
    ensures var t := P.Run(encode, s, Round(adapter, wait, id, scope, c));
            && t.clock == (began + wait) * MICROS
            && Admit(c, began + wait).Ok?
            && t.invocations == s.invocations[id := Verified(RequestAt(scope, c, began + wait), began + wait)]
  {
    hide RS.Run, ArgsOk, Admit, Integer, TimeOf, Seconds, QuarantineDb;
    var second := began + wait;
    WholeSeconds(began);
    WholeSeconds(second);
    var setup, request := SetupArgs(adapter), RequestAt(scope, c, second);
    SetupFits(encode, adapter, scope, c, began, wait);
    LossIsDetected(s.db, adapter, began);
    FirstConsumeIsAccepted(adapter, ConsumeArgs(encode, adapter, request), began, second);
    RunFive(encode, s, SetUp(adapter, false), Advance(wait * MICROS), Dispatch(id, scope, c, 0), Execute(id, adapter, false),
            Recheck(id, false));
    AdmittedIsOpen(c, second);
  }

  lemma SetupFits(encode: Mem.Identity -> Text, adapter: Adapter, scope: Text, c: Candidate, began: nat, wait: nat)
    requires Recordable(encode, adapter, scope, c, began + wait)
    ensures ArgsOk(SetupArgs(adapter)) && TimeFits(SetupArgs(adapter), began * 1000)
  {
  }

  lemma AdmittedIsOpen(c: Candidate, second: int)
    requires Admit(c, second).Ok?
    ensures TP.Check(c.policy, c.created, c.expires, second).None?
  {
  }

  lemma FirstRound(encode: Mem.Identity -> Text, began: nat, adapter: Adapter, wait: nat, scope: Text, c: Candidate)
    requires Recordable(encode, adapter, scope, c, began + wait) && Integer(adapter.horizon).value == wait * 1000
    ensures var s := P.Run(encode, Start(began * MICROS), Round(adapter, wait, 0, scope, c));
            && s.clock == (began + wait) * MICROS && Admit(c, began + wait).Ok?
            && s.invocations == map[0 := Verified(RequestAt(scope, c, began + wait), began + wait)]
  {
    RoundVerifies(encode, Start(began * MICROS), began, adapter, wait, 0, scope, c);
  }

  /** The protocol does verify: an undisturbed server accepts a candidate once its first quarantine is over. */
  lemma FirstUseIsVerified(encode: Mem.Identity -> Text, began: nat, adapter: Adapter, wait: nat, scope: Text, c: Candidate)
    requires Recordable(encode, adapter, scope, c, began + wait) && Integer(adapter.horizon).value == wait * 1000
    ensures VerifiedIn(P.Run(encode, Start(began * MICROS), Round(adapter, wait, 0, scope, c)), 0, scope, c)
  {
    RoundVerifies(encode, Start(began * MICROS), began, adapter, wait, 0, scope, c);
  }

  function Loss(): Action { Lose(true, true, true) }

  /** One round, a loss of everything, and the same round again for another invocation. */
  function TwoRounds(adapter: Adapter, wait: nat, scope: Text, c: Candidate): seq<Action> {
    Round(adapter, wait, 0, scope, c) + [Loss()] + Round(adapter, wait, 1, scope, c)
  }

  lemma LossLoses(encode: Mem.Identity -> Text, s: State)
    ensures var t := Next(encode, s, Loss());
            HistoryLost(t.db) && t.clock == s.clock && t.invocations == s.invocations
  {
  }

  lemma RoundsAreAdmitted(adapter: Adapter, wait: nat, scope: Text, c: Candidate)
    requires Integer(adapter.horizon).Some? ==> Integer(adapter.horizon).value == wait * 1000
    ensures Admitted(TwoRounds(adapter, wait, scope, c), wait)
  {
  }

  /**
   * A quarantine is only as good as its length: if the window of a signature is open at two seconds a
   * quarantine apart, there is a run whose one loss is detected and in which it is verified twice.
   */
  lemma ShortQuarantineVerifiesTwice(encode: Mem.Identity -> Text, began: nat, adapter: Adapter, wait: nat, scope: Text, c: Candidate)
    requires Recordable(encode, adapter, scope, c, began + wait)
    requires Recordable(encode, adapter, scope, c, began + wait + wait)
    requires Integer(adapter.horizon).value == wait * 1000
    ensures var s := P.Run(encode, Start(began * MICROS), TwoRounds(adapter, wait, scope, c));
            && Reachable(encode, wait, s)
            && VerifiedIn(s, 0, scope, c) && VerifiedIn(s, 1, scope, c)
  {
    hide *;
    FirstRound(encode, began, adapter, wait, scope, c);
    RoundAfterLoss(encode, P.Run(encode, Start(began * MICROS), Round(adapter, wait, 0, scope, c)), began + wait, adapter, wait,
                   scope, c);
    TwoRoundsRun(encode, began * MICROS, adapter, wait, scope, c);
  }

  /** The run of both rounds, in which every command waits at least `wait` seconds. */
  lemma TwoRoundsRun(encode: Mem.Identity -> Text, clock: nat, adapter: Adapter, wait: nat, scope: Text, c: Candidate)
    requires Integer(adapter.horizon).Some? ==> Integer(adapter.horizon).value == wait * 1000
    ensures var s := P.Run(encode, Start(clock), TwoRounds(adapter, wait, scope, c));
            && s == P.Run(encode, Next(encode, P.Run(encode, Start(clock), Round(adapter, wait, 0, scope, c)), Loss()),
                          Round(adapter, wait, 1, scope, c))
            && Reachable(encode, wait, s)
  {
    RunAroundLoss(encode, Start(clock), Round(adapter, wait, 0, scope, c), Round(adapter, wait, 1, scope, c));
    hide Next, P.Run;
    RoundsAreAdmitted(adapter, wait, scope, c);
    hide Admitted, Round;
    RunIsReachable(encode, wait, clock, TwoRounds(adapter, wait, scope, c));
  }

  /** A loss after the first verification, and a second round. */
  lemma RoundAfterLoss(encode: Mem.Identity -> Text, s: State, second: nat, adapter: Adapter, wait: nat, scope: Text, c: Candidate)
    requires Admit(c, second).Ok? && Recordable(encode, adapter, scope, c, second + wait)
    requires Integer(adapter.horizon).value == wait * 1000
    requires s.clock == second * MICROS && s.invocations == map[0 := Verified(RequestAt(scope, c, second), second)]
    ensures var t := P.Run(encode, Next(encode, s, Loss()), Round(adapter, wait, 1, scope, c));
            VerifiedIn(t, 0, scope, c) && VerifiedIn(t, 1, scope, c)
  {
    hide *;
    LossLoses(encode, s);
    var lost := Next(encode, s, Loss());
    RoundVerifies(encode, lost, second, adapter, wait, 1, scope, c);
    var t := P.Run(encode, lost, Round(adapter, wait, 1, scope, c));
    VerifiedRequest(t, 0, scope, c, second);
    VerifiedRequest(t, 1, scope, c, second + wait);
  }

  lemma RunAroundLoss(encode: Mem.Identity -> Text, s: State, one: seq<Action>, two: seq<Action>)
    ensures P.Run(encode, s, one + [Loss()] + two) == P.Run(encode, Next(encode, P.Run(encode, s, one), Loss()), two)
  {
    hide Next;
    RunOne(encode, s, one, Loss());
    RunConcat(encode, s, one + [Loss()], two);
  }

  lemma RunIsReachable(encode: Mem.Identity -> Text, bound: nat, clock: nat, actions: seq<Action>)
    requires Admitted(actions, bound)
    ensures Reachable(encode, bound, P.Run(encode, Start(clock), actions))
  {
  }

  lemma VerifiedRequest(s: State, id: nat, scope: Text, c: Candidate, second: nat)
    requires Admit(c, second).Ok?
    requires id in s.invocations && s.invocations[id] == Verified(RequestAt(scope, c, second), second)
    ensures VerifiedIn(s, id, scope, c)
  {
  }

  /**
   * The window of some signature is open at both of two seconds `wait` apart if and only if `wait` is shorter
   * than the recovery horizon and the later second comes before the largest timestamp expires.
   */
  lemma ShorterThanHorizonIsTooShort(p: TP.Policy, first: nat, wait: nat)
    requires TP.Resolved(p) && TP.RecoveryHorizonSeconds(p).Some?
    requires first + wait <= MAX_SAFE
    ensures (exists created, expires ::
               TP.Check(p, created, expires, first).None? && TP.Check(p, created, expires, first + wait).None?)
       <==> wait < TP.RecoveryHorizonSeconds(p).value && first + wait < TP.MAX_SF_INTEGER + p.clockSkewSeconds
  {
    if wait < TP.RecoveryHorizonSeconds(p).value && first + wait < TP.MAX_SF_INTEGER + p.clockSkewSeconds {
      var created := Min(first + p.clockSkewSeconds, TP.MAX_SF_INTEGER - 1);
      var expires := Min(created + Min(p.maxAgeSeconds, p.maxLifetimeSeconds), TP.MAX_SF_INTEGER);
      assert TP.Check(p, created, expires, first).None?;
      assert TP.Check(p, created, expires, first + wait).None?;
    }
  }

  /** The milliseconds of every deadline of two rounds are exact integers. */
  predicate RoundsFit(p: TP.Policy, began: nat, wait: nat) {
    (began + 2 * wait + p.maxAgeSeconds + 2 * p.clockSkewSeconds) * 1000 <= MAX_SAFE
  }

  /** Whether the script accepts the identity and the key of a candidate. */
  ghost predicate Nameable(encode: Mem.Identity -> Text, scope: Text, c: Candidate) {
    c.nonce.Some? && ValidIdentity(encode(IdentityOf(scope, c))) && ValidThumbprint(c.thumbprint)
  }

  predicate HasRoom(adapter: Adapter) {
    ArgsOk(SetupArgs(adapter)) && Integer(adapter.quota).value > 0 && Integer(adapter.capacity).value > 0
  }

  lemma OpenIsRecordable(encode: Mem.Identity -> Text, began: nat, adapter: Adapter, wait: nat, scope: Text, c: Candidate,
                         second: nat)
    requires TP.Resolved(c.policy) && TP.RecoveryHorizonSeconds(c.policy).Some? && RoundsFit(c.policy, began, wait)
    requires wait < TP.RecoveryHorizonSeconds(c.policy).value && c.created <= began + wait + c.policy.clockSkewSeconds
    requires Nameable(encode, scope, c) && HasRoom(adapter) && Integer(adapter.horizon).value == wait * 1000
    requires second <= began + wait + wait && TP.Check(c.policy, c.created, c.expires, second).None?
    ensures Recordable(encode, adapter, scope, c, second)
  {
    hide Integer, Decimal, LowerHex, Base64Url;
    var request := RequestAt(scope, c, second);
    TP.RetentionCoversWindow(c.policy, c.created, c.expires, second, second);
    IntegerDecimal((request.retainUntil - request.dispatched) * 1000);
  }

  ghost predicate VerifiedTwice(encode: Mem.Identity -> Text, bound: nat, scope: Text, c: Candidate) {
    exists s, first, second ::
      Reachable(encode, bound, s) && first != second && VerifiedIn(s, first, scope, c) && VerifiedIn(s, second, scope, c)
  }

  /**
   * Every quarantine shorter than the recovery horizon fails: some candidate of the policy is verified
   * twice, under any key and nonce and by any adapter with room for it.
   */
  lemma ShorterQuarantineFails(encode: Mem.Identity -> Text, p: TP.Policy, began: nat, adapter: Adapter, wait: nat,
                               scope: Text, thumbprint: Text, nonce: Text)
    requires TP.Resolved(p) && TP.RecoveryHorizonSeconds(p).Some? && RoundsFit(p, began, wait)
    requires wait < TP.RecoveryHorizonSeconds(p).value
    requires HasRoom(adapter) && Integer(adapter.horizon).value == wait * 1000
    requires ValidIdentity(encode(Mem.Identity(scope, thumbprint, nonce))) && ValidThumbprint(thumbprint)
    ensures exists created, expires :: VerifiedTwice(encode, wait, scope, Candidate(p, created, expires, Some(nonce), thumbprint))
  {
    hide Integer, Reachable, VerifiedIn, ArgsOk, Recordable, ValidIdentity, ValidThumbprint;
    ShorterThanHorizonIsTooShort(p, began + wait, wait);
    var created, expires :|
      TP.Check(p, created, expires, began + wait).None? && TP.Check(p, created, expires, began + wait + wait).None?;
    var c := Candidate(p, created, expires, Some(nonce), thumbprint);
    OpenIsRecordable(encode, began, adapter, wait, scope, c, began + wait);
    OpenIsRecordable(encode, began, adapter, wait, scope, c, began + wait + wait);
    ShortQuarantineVerifiesTwice(encode, began, adapter, wait, scope, c);
    assert VerifiedTwice(encode, wait, scope, c);
  }

  /** The smallest adapter with room, whose quarantine is `wait` seconds. */
  function SmallestAdapter(wait: nat): Adapter {
    Adapter(Decimal(wait * 1000), [49], [49], seq(32, _ => 48))
  }

  lemma SmallestHasRoom(wait: nat)
    requires 0 < wait && wait * 1000 <= MAX_SAFE
    ensures HasRoom(SmallestAdapter(wait)) && Integer(SmallestAdapter(wait).horizon) == Some(wait * 1000)
  {
    IntegerDecimal(wait * 1000);
    IntegerDecimal(1);
    assert Decimal(1) == [49];
  }

  /**
   * The recovery horizon is exactly the quarantine a policy needs: with quarantines of at least `bound`
   * seconds no candidate of the policy is ever verified twice if and only if `bound` reaches the horizon.
   */
  lemma HorizonIsNecessaryAndSufficient(encode: Mem.Identity -> Text, p: TP.Policy, bound: nat,
                                        scope: Text, thumbprint: Text, nonce: Text)
    requires TP.Resolved(p) && TP.RecoveryHorizonSeconds(p).Some? && 0 < bound && RoundsFit(p, 0, bound)
    requires ValidIdentity(encode(Mem.Identity(scope, thumbprint, nonce))) && ValidThumbprint(thumbprint)
    ensures TP.RecoveryHorizonSeconds(p).value <= bound <==>
            forall c: Candidate | c.policy == p :: !VerifiedTwice(encode, bound, scope, c)
  {
    hide Integer, Reachable, VerifiedIn, ArgsOk, HasRoom, ValidIdentity, ValidThumbprint;
    if TP.RecoveryHorizonSeconds(p).value <= bound {
      forall c: Candidate | c.policy == p ensures !VerifiedTwice(encode, bound, scope, c) {
        forall s, first, second |
          Reachable(encode, bound, s) && VerifiedIn(s, first, scope, c) && VerifiedIn(s, second, scope, c)
          ensures first == second
        {
          AtMostOnceAcrossLosses(encode, bound, s, first, second, scope, c);
        }
      }
    } else {
      SmallestHasRoom(bound);
      ShorterQuarantineFails(encode, p, 0, SmallestAdapter(bound), bound, scope, thumbprint, nonce);
    }
  }
}
