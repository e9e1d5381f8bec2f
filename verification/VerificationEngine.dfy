/** Final results of one invocation and their aggregation. */
module VerificationEngine {
  import opened Basics
  import opened Codes
  import TP = TimePolicy
  import opened CandidateReplay

  datatype CandidateResult =
    | Verified(candidate: Candidate, verifiedAt: int, replayProtected: bool)
    | Rejected(rejection: Rejection)

  datatype Evaluation = RejectedEvaluation(rejection: Rejection) | Eligible(candidate: Candidate)

  datatype Rule = All | Any

  datatype Mode = ExactlyOne | Multiple

  /** A thrown internal invariant error, as opposed to a rejection. */
  datatype InternalError = MissingReplayOutcome | InconsistentReplayOutcome | EmptyAggregate

  datatype VerificationResult =
    | VerifiedRequest(candidates: seq<CandidateResult>, verified: seq<CandidateResult>, replayProtected: bool)
    | FailedRequest(rejection: Rejection, candidates: seq<CandidateResult>)

  function Finalize(c: Candidate, replay: Option<ReplayOutcome>, now: int): Result<CandidateResult, InternalError> {
    match TP.Check(c.policy, c.created, c.expires, now)
    case Some(rejection) => Ok(Rejected(rejection))
    case None =>
      match replay
      case None => Err(MissingReplayOutcome)
      case Some(Refused(rejection)) => Ok(Rejected(rejection))
      case Some(Granted) => if c.nonce.None? then Err(InconsistentReplayOutcome) else Ok(Verified(c, now, true))
      case Some(Optional) => if c.nonce.Some? then Err(InconsistentReplayOutcome) else Ok(Verified(c, now, false))
  }

  function VerifiedOnes(results: seq<CandidateResult>): (verified: seq<CandidateResult>)
    ensures forall r | r in verified :: r.Verified?
  {
    if results == [] then []
    else (if results[0].Verified? then [results[0]] else []) + VerifiedOnes(results[1..])
  }

  function FirstFailure(results: seq<CandidateResult>): Option<Rejection> {
    if results == [] then None
    else if results[0].Rejected? then Some(results[0].rejection)
    else FirstFailure(results[1..])
  }

  function Aggregate(results: seq<CandidateResult>, rule: Rule): Result<VerificationResult, InternalError> {
    var verified := VerifiedOnes(results);
    var failed := FirstFailure(results);
    if verified != [] && (rule == Any || failed.None?) then
      Ok(VerifiedRequest(results, verified, forall r | r in verified :: r.replayProtected))
    else if failed.None? then Err(EmptyAggregate)
    else Ok(FailedRequest(failed.value, results))
  }

  lemma {:induction false} VerifiedOnesAre(results: seq<CandidateResult>)
    ensures forall r :: r in VerifiedOnes(results) <==> r in results && r.Verified?
    ensures VerifiedOnes(results) == [] <==> forall i | 0 <= i < |results| :: results[i].Rejected?
    ensures FirstFailure(results).None? <==> forall i | 0 <= i < |results| :: results[i].Verified?
    ensures FirstFailure(results).Some? ==>
              exists i :: 0 <= i < |results| && results[i] == Rejected(FirstFailure(results).value)
                          && forall j | 0 <= j < i :: results[j].Verified?
  {
    if results != [] {
      var rest := results[1..];
      VerifiedOnesAre(rest);
      assert results == [results[0]] + rest;
      if results[0].Verified? && FirstFailure(rest).Some? {
        var i :| 0 <= i < |rest| && rest[i] == Rejected(FirstFailure(rest).value)
                 && forall j | 0 <= j < i :: rest[j].Verified?;
        assert results[i + 1] == Rejected(FirstFailure(results).value);
        forall j | 0 <= j < i + 1 ensures results[j].Verified? {
          if j > 0 { assert rest[j - 1].Verified?; }
        }
      }
    }
  }

  /**
   * Of a nonempty list of results: verified under `All` iff every one is, under `Any` iff some one
   * is; otherwise the failure reported is the first in header order. It fails only when empty.
   */
  lemma AggregateDecides(results: seq<CandidateResult>, rule: Rule)
    ensures Aggregate(results, rule).Err? <==> results == []
    ensures results != [] ==>
              (Aggregate(results, rule).value.VerifiedRequest? <==>
                if rule == All then forall i | 0 <= i < |results| :: results[i].Verified?
                else exists i :: 0 <= i < |results| && results[i].Verified?)
    ensures results != [] ==> Aggregate(results, rule).value.candidates == results
    ensures results != [] && Aggregate(results, rule).value.FailedRequest? ==>
              exists i :: 0 <= i < |results| && results[i] == Rejected(Aggregate(results, rule).value.rejection)
                          && forall j | 0 <= j < i :: results[j].Verified?
  {
    VerifiedOnesAre(results);
    if results != [] {
      assert results[0].Verified? || results[0].Rejected?;
    }
  }

  lemma {:induction false} VerifiedOnesAppend(a: seq<CandidateResult>, b: seq<CandidateResult>)
    ensures VerifiedOnes(a + b) == VerifiedOnes(a) + VerifiedOnes(b)
  {
    if a == [] {
      assert a + b == b;
    } else {
      VerifiedOnesAppend(a[1..], b);
      assert (a + b)[1..] == a[1..] + b;
    }
  }

  /**
   * A verified request lists its verified results in header order, each where it stands, and is replay
   * protected exactly if every one of them is.
   */
  lemma {:induction false} VerifiedInOrder(results: seq<CandidateResult>, rule: Rule, i: nat)
    requires i < |results| && Aggregate(results, rule).Ok? && Aggregate(results, rule).value.VerifiedRequest?
    ensures var r := Aggregate(results, rule).value;
      && r.verified
         == VerifiedOnes(results[..i]) + (if results[i].Verified? then [results[i]] else []) + VerifiedOnes(results[i + 1..])
      && (r.replayProtected <==> forall j | 0 <= j < |results| && results[j].Verified? :: results[j].replayProtected)
  {
    VerifiedOnesSplit(results, i);
    ProtectedMeaning(results);
    hide VerifiedOnes, FirstFailure;
  }

  lemma VerifiedAlone(result: CandidateResult)
    ensures VerifiedOnes([result]) == if result.Verified? then [result] else []
  {
    assert [result][1..] == [];
  }

  lemma {:induction false} VerifiedOnesSplit(results: seq<CandidateResult>, i: nat)
    requires i < |results|
    ensures VerifiedOnes(results)
         == VerifiedOnes(results[..i]) + (if results[i].Verified? then [results[i]] else []) + VerifiedOnes(results[i + 1..])
  {
    hide VerifiedOnes;
    var one, later := [results[i]], results[i + 1..];
    VerifiedOnesAppend(results[..i], one + later);
    VerifiedOnesAppend(one, later);
    VerifiedAlone(results[i]);
    assert results == results[..i] + (one + later);
  }

  lemma {:induction false} ProtectedMeaning(results: seq<CandidateResult>)
    ensures (forall r | r in VerifiedOnes(results) :: r.replayProtected) <==>
              forall j | 0 <= j < |results| && results[j].Verified? :: results[j].replayProtected
  {
    VerifiedOnesAre(results);
    hide VerifiedOnes, FirstFailure;
    forall r | r in VerifiedOnes(results) ensures exists j :: 0 <= j < |results| && results[j] == r && results[j].Verified? {
      assert r in results && r.Verified?;
    }
    forall j | 0 <= j < |results| && results[j].Verified? ensures results[j] in VerifiedOnes(results) {
    }
  }

  // ---------------------------------------------------------------- the lifecycle of one invocation

  /** A request-level failure that strikes when only the first candidates are evaluated. */
  datatype Interruption = Interruption(evaluated: nat, failure: Rejection)

  /** Everything outside the engine that one invocation meets, in the order it meets it. */
  datatype Environment = Environment(
    evaluations: seq<Evaluation>,            // one per selected signature, in header order
    interruption: Option<Interruption>,
    evidenceBefore: nat -> Option<Rejection>, // evidence gate before replay, by header position
    runs: nat -> GroupRun,
    evidenceAfter: nat -> Option<Rejection>,
    completion: Result<int, Rejection>)

  /** The candidates still eligible after the first evidence gate, with their header positions. */
  ghost predicate Filtered(evaluations: seq<Evaluation>, eligible: seq<Candidate>, positions: seq<nat>) {
    && |eligible| == |positions|
    && (forall k | 0 <= k < |positions| ::
          positions[k] < |evaluations| && evaluations[positions[k]] == Eligible(eligible[k]))
    && (forall i | 0 <= i < |evaluations| && evaluations[i].Eligible? :: i in positions)
    && (forall j, k | 0 <= j < k < |positions| :: positions[j] < positions[k])
  }

  function EligibleOf(evaluations: seq<Evaluation>): seq<Candidate> {
    if evaluations == [] then []
    else
      var last := evaluations[|evaluations| - 1];
      EligibleOf(evaluations[..|evaluations| - 1]) + if last.Eligible? then [last.candidate] else []
  }

  function PositionsOf(evaluations: seq<Evaluation>): seq<nat> {
    if evaluations == [] then []
    else
      var last := |evaluations| - 1;
      PositionsOf(evaluations[..last]) + if evaluations[last].Eligible? then [last] else []
  }

  lemma FilteredGrows(evaluations: seq<Evaluation>, eligible: seq<Candidate>, positions: seq<nat>, last: Evaluation)
    requires Filtered(evaluations, eligible, positions)
    ensures Filtered(evaluations + [last], eligible + if last.Eligible? then [last.candidate] else [],
                     positions + if last.Eligible? then [|evaluations|] else [])
  {
    var longer := positions + if last.Eligible? then [|evaluations|] else [];
    forall i | 0 <= i <= |evaluations| && (evaluations + [last])[i].Eligible? ensures i in longer {
      if i < |evaluations| {
        assert i in positions;
      } else {
        assert longer[|positions|] == i;
      }
    }
  }

  lemma {:induction false} FilteredMeaning(evaluations: seq<Evaluation>)
    ensures Filtered(evaluations, EligibleOf(evaluations), PositionsOf(evaluations))
  {
    if evaluations != [] {
      hide Filtered;
      var init, last := evaluations[..|evaluations| - 1], evaluations[|evaluations| - 1];
      FilteredMeaning(init);
      FilteredGrows(init, EligibleOf(init), PositionsOf(init), last);
      assert evaluations == init + [last];
    } else {
      assert Filtered([], [], []);
    }
  }

  method FilterEligible(evaluations: seq<Evaluation>) returns (eligible: seq<Candidate>, positions: seq<nat>)
    ensures eligible == EligibleOf(evaluations) && positions == PositionsOf(evaluations)
    ensures Filtered(evaluations, eligible, positions)
  {
    hide Filtered;
    eligible, positions := [], [];
    for i := 0 to |evaluations|
      invariant eligible == EligibleOf(evaluations[..i]) && positions == PositionsOf(evaluations[..i])
    {
      assert evaluations[..i + 1][..i] == evaluations[..i];
      if evaluations[i].Eligible? {
        eligible, positions := eligible + [evaluations[i].candidate], positions + [i];
      }
    }
    assert evaluations[..|evaluations|] == evaluations;
    FilteredMeaning(evaluations);
  }

  /** The evidence gate turns an eligible evaluation into a rejected one and leaves the rest alone. */
  function Gate(e: Evaluation, evidence: Option<Rejection>): Evaluation {
    if e.Eligible? && evidence.Some? then RejectedEvaluation(evidence.value) else e
  }

  /** The evaluations once the first evidence gate has been passed. */
  function Gated(env: Environment): (evaluations: seq<Evaluation>)
    ensures |evaluations| == |env.evaluations|
    ensures forall i | 0 <= i < |evaluations| :: evaluations[i] == Gate(env.evaluations[i], env.evidenceBefore(i))
  {
    seq(|env.evaluations|, i requires 0 <= i < |env.evaluations| => Gate(env.evaluations[i], env.evidenceBefore(i)))
  }

  /** The group number of every nonce-bearing candidate that reaches replay, by header position. */
  ghost predicate Planned(env: Environment, scope: Text, plan: map<nat, nat>) {
    && (forall i :: i in plan <==> 0 <= i < |env.evaluations| && Replayable(env, i))
    && (forall i, j | i in plan && j in plan ::
          plan[i] == plan[j] <==>
          IdentityOf(scope, env.evaluations[i].candidate) == IdentityOf(scope, env.evaluations[j].candidate))
  }

  ghost predicate Replayable(env: Environment, i: nat)
    requires i < |env.evaluations|
  {
    env.evaluations[i].Eligible? && env.evidenceBefore(i).None? && env.evaluations[i].candidate.nonce.Some?
  }

  /** Exactly when the candidate at header position `i` is verified. */
  ghost predicate EarnsVerified(env: Environment, plan: map<nat, nat>, i: nat)
    requires i < |env.evaluations|
  {
    && env.evaluations[i].Eligible?
    && env.evidenceBefore(i).None? && env.evidenceAfter(i).None?
    && env.completion.Ok?
    && (var c := env.evaluations[i].candidate;
        && TP.Check(c.policy, c.created, c.expires, env.completion.value).None?
        && (c.nonce.Some? ==> i in plan && Passed(c, env.runs(plan[i]))))
  }

  /** Exactly when the request as a whole is verified. */
  ghost predicate EarnsRequest(env: Environment, plan: map<nat, nat>, rule: Rule) {
    if rule == All then forall i | 0 <= i < |env.evaluations| :: EarnsVerified(env, plan, i)
    else exists i :: 0 <= i < |env.evaluations| && EarnsVerified(env, plan, i)
  }

  lemma AggregateIsEarned(env: Environment, plan: map<nat, nat>, results: seq<CandidateResult>, rule: Rule)
    requires |results| == |env.evaluations| > 0
    requires forall i | 0 <= i < |results| :: Justified(env, plan, i, results[i])
    ensures Aggregate(results, rule).Ok?
    ensures Aggregate(results, rule).value.candidates == results
    ensures Aggregate(results, rule).value.VerifiedRequest? <==> EarnsRequest(env, plan, rule)
  {
    AggregateDecides(results, rule);
    assert forall i | 0 <= i < |results| :: results[i].Verified? <==> EarnsVerified(env, plan, i);
  }

  lemma ClosedEarnsNothing(env: Environment, plan: map<nat, nat>, rule: Rule)
    requires env.completion.Err? && env.evaluations != []
    ensures !EarnsRequest(env, plan, rule)
    ensures forall i | 0 <= i < |env.evaluations| :: !EarnsVerified(env, plan, i)
  {
    assert !EarnsVerified(env, plan, 0);
  }

  /** What a reported result stands on. */
  ghost predicate Justified(env: Environment, plan: map<nat, nat>, i: nat, result: CandidateResult)
    requires i < |env.evaluations|
  {
    && (env.evaluations[i].RejectedEvaluation? ==> result == Rejected(env.evaluations[i].rejection))
    && (env.evaluations[i].Eligible? && env.evidenceBefore(i).Some? ==> result == Rejected(env.evidenceBefore(i).value))
    && (result.Verified? <==> EarnsVerified(env, plan, i))
    && (result.Verified? ==>
          var c := env.evaluations[i].candidate;
          result == Verified(c, env.completion.value, c.nonce.Some?))
  }

  /** What an eligible candidate is told once the final gate is passed: lost evidence, then time, then replay. */
  function Final(env: Environment, c: Candidate, i: nat, outcome: ReplayOutcome): CandidateResult
    requires env.completion.Ok?
  {
    match env.evidenceAfter(i)
    case Some(rejection) => Rejected(rejection)
    case None =>
      match TP.Check(c.policy, c.created, c.expires, env.completion.value)
      case Some(rejection) => Rejected(rejection)
      case None =>
        if outcome.Refused? then Rejected(outcome.rejection) else Verified(c, env.completion.value, outcome == Granted)
  }

  /** Each result is that of the evaluation at its position, or of the candidate that was eligible there. */
  ghost predicate Reports(env: Environment, evaluations: seq<Evaluation>, eligible: seq<Candidate>, positions: seq<nat>,
                          replay: map<nat, ReplayOutcome>, results: seq<CandidateResult>)
    requires env.completion.Ok?
  {
    && |results| == |evaluations| && |positions| == |eligible|
    && (forall i | 0 <= i < |results| && evaluations[i].RejectedEvaluation? ::
          results[i] == Rejected(evaluations[i].rejection))
    && (forall k: nat | k < |positions| ::
          && positions[k] < |results| && k in replay
          && results[positions[k]] == Final(env, eligible[k], positions[k], replay[k]))
  }

  /**
   * What the candidate at position `i` is told, by the evidence, its own window and the run of its group:
   * evidence lost before replay, evidence lost after it, a window closed at completion, and then replay.
   */
  ghost predicate Tells(env: Environment, plan: map<nat, nat>, i: nat, result: CandidateResult)
    requires i < |env.evaluations| && env.completion.Ok?
  {
    match env.evaluations[i]
    case RejectedEvaluation(rejection) => result == Rejected(rejection)
    case Eligible(c) =>
      var now := env.completion.value;
      var window := TP.Check(c.policy, c.created, c.expires, now);
      if env.evidenceBefore(i).Some? then result == Rejected(env.evidenceBefore(i).value)
      else if env.evidenceAfter(i).Some? then result == Rejected(env.evidenceAfter(i).value)
      else if window.Some? then result == Rejected(window.value)
      else if c.nonce.None? then result == Verified(c, now, false)
      else
        && i in plan
        && match Verdict(c, env.runs(plan[i]))
           case Granted => result == Verified(c, now, true)
           case Refused(rejection) => result == Rejected(rejection)
           case Optional => false
  }

  /** Of candidates whose window stays open and whose evidence holds, exactly the store's own refusals are reported as such. */
  lemma StoreReplyIsReported(env: Environment, plan: map<nat, nat>, i: nat, result: CandidateResult)
    requires i < |env.evaluations| && env.evaluations[i].Eligible? && env.completion.Ok?
    requires env.evidenceBefore(i).None? && env.evidenceAfter(i).None? && Tells(env, plan, i, result)
    requires env.evaluations[i].candidate.nonce.Some? && i in plan
    requires var c, run := env.evaluations[i].candidate, env.runs(plan[i]);
      && run.Dispatched? && Admit(c, run.now).Ok? && run.reply.Replied?
      && TP.Check(c.policy, c.created, c.expires, run.reply.recheck).None?
      && TP.Check(c.policy, c.created, c.expires, env.completion.value).None?
    ensures var c, reply := env.evaluations[i].candidate, env.runs(plan[i]).reply.outcome;
      && (result == Verified(c, env.completion.value, true) <==> reply == Accepted)
      && (result == Rejected(Invalid(ReplayDetected)) <==> reply == Replayed)
      && (result == Rejected(Unverified(ReplayStoreUnavailable)) <==> reply == Unavailable)
      && (result == Rejected(Unverified(PerKeyQuotaExceeded)) <==> reply == QuotaExceeded)
  {
  }

  lemma ReportsTell(env: Environment, scope: Text, groups: seq<seq<nat>>, results: seq<CandidateResult>)
    requires env.completion.Ok?
    requires var eligible, positions := EligibleOf(Gated(env)), PositionsOf(Gated(env));
      && Grouping(eligible, scope, groups) && (forall g | 0 <= g < |groups| :: Consumable(eligible, groups[g]))
      && Reports(env, Gated(env), eligible, positions, OutcomesOf(eligible, groups, env.runs, |groups|), results)
    ensures |results| == |env.evaluations|
    ensures forall i | 0 <= i < |results| :: Tells(env, PlanOf(PositionsOf(Gated(env)), groups), i, results[i])
  {
    hide Grouping, PlanOf, Verdict, OutcomesOf, Consumable, Placed, TP.Check, EligibleOf, PositionsOf;
    var eligible, positions := EligibleOf(Gated(env)), PositionsOf(Gated(env));
    FilteredMeaning(Gated(env));
    forall i | 0 <= i < |results| ensures Tells(env, PlanOf(positions, groups), i, results[i]) {
      if Gated(env)[i].Eligible? {
        assert i in positions;
        var k: nat :| k < |positions| && positions[k] == i;
        OutcomeTells(env, scope, eligible, positions, groups, k);
      }
    }
  }

  /** What the outcomes hold for the `k`-th eligible candidate. */
  lemma OutcomeTells(env: Environment, scope: Text, eligible: seq<Candidate>, positions: seq<nat>, groups: seq<seq<nat>>, k: nat)
    requires k < |eligible| == |positions| && Grouping(eligible, scope, groups)
    requires forall g | 0 <= g < |groups| :: Consumable(eligible, groups[g])
    requires forall i, j | 0 <= i < j < |positions| :: positions[i] < positions[j]
    ensures var outcomes, plan := OutcomesOf(eligible, groups, env.runs, |groups|), PlanOf(positions, groups);
      && k in outcomes
      && if eligible[k].nonce.None? then outcomes[k] == Optional
         else positions[k] in plan && outcomes[k] == Verdict(eligible[k], env.runs(plan[positions[k]]))
              && outcomes[k] != Optional
  {
    hide PlanOf, Verdict, GroupOutcomes, Consumable, Progress, Grouping;
    PlanAt(positions, eligible, groups, scope, k);
    OutcomesProgress(eligible, scope, groups, env.runs, |groups|);
    ProgressEnds(eligible, scope, groups, env.runs, OutcomesOf(eligible, groups, env.runs, |groups|));
    OutcomesAreVerdicts(eligible, scope, groups, env.runs, |groups|);
  }

  /** An exactly-one policy met several candidates. */
  predicate Outnumbered(env: Environment, mode: Mode) { mode == ExactlyOne && |env.evaluations| > 1 }

  /** What holds of the result of an invocation that ran through its replay groups. */
  ghost predicate Concluded(env: Environment, scope: Text, rule: Rule, groups: seq<seq<nat>>, r: VerificationResult) {
    var eligible, positions := EligibleOf(Gated(env)), PositionsOf(Gated(env));
    var plan := PlanOf(positions, groups);
    && Grouping(eligible, scope, groups) && (forall g | 0 <= g < |groups| :: Consumable(eligible, groups[g]))
    && Planned(env, scope, plan)
    && |r.candidates| == |env.evaluations|
    && (forall i | 0 <= i < |env.evaluations| :: Justified(env, plan, i, r.candidates[i]))
    && (r.VerifiedRequest? <==> EarnsRequest(env, plan, rule))
    && match env.completion
       case Ok(_) =>
         && Aggregate(r.candidates, rule) == Ok(r)
         && Reports(env, Gated(env), eligible, positions, OutcomesOf(eligible, groups, env.runs, |groups|), r.candidates)
         && (forall i | 0 <= i < |env.evaluations| :: Tells(env, plan, i, r.candidates[i]))
       case Err(failure) => r == FailedRequest(failure, Unfinished(Gated(env), |env.evaluations|, failure))
  }

  /**
   * One invocation from its evaluated candidates to its result. No internal error is reachable; the
   * results keep header order and length; a candidate is verified exactly when its evidence held
   * twice, its window is open at completion and, if it has a nonce, the group of its identity was
   * accepted while the window was open at dispatch and at the reply. The store is asked for exactly
   * the groups dispatched with a member ready, and an ambiguous exactly-one request, or one that
   * fails while it is evaluated, asks it nothing.
   */
  method Verify(log: StoreLog, env: Environment, scope: Text, mode: Mode, rule: Rule)
    returns (r: VerificationResult, ghost groups: seq<seq<nat>>)
    requires env.evaluations != []
    modifies log
    ensures |r.candidates| == |env.evaluations|
    ensures Outnumbered(env, mode) || env.interruption.Some? ==>
              && log.calls == old(log.calls) && r.FailedRequest?
              && forall i | 0 <= i < |r.candidates| :: r.candidates[i].Rejected?
    ensures Outnumbered(env, mode) ==> r.rejection == Invalid(AmbiguousSignatures)
    ensures env.interruption.Some? && !Outnumbered(env, mode) ==> r.rejection == env.interruption.value.failure
    ensures env.interruption.Some? ==>
              r.candidates == Unfinished(env.evaluations, env.interruption.value.evaluated, env.interruption.value.failure)
    ensures env.interruption.None? && Outnumbered(env, mode) ==> r.candidates == Ambiguous(env.evaluations, env.completion)
    ensures env.interruption.None? && !Outnumbered(env, mode) ==>
              && Concluded(env, scope, rule, groups, r)
              && log.calls == old(log.calls) + CallsOf(EligibleOf(Gated(env)), scope, groups, env.runs, |groups|)
  {
    hide Filtered, Planned, Justified, EarnsRequest, Aggregate, Reports, EligibleOf, PositionsOf, Consumable, CallsOf, OutcomesOf,
         Grouping, Follows, Tells, PlanOf, Placed, Passed, Gated, Unfinished, Ambiguous;
    groups := [];
    if env.interruption.Some? {
      var Interruption(evaluated, failure) := env.interruption.value;
      r := FailedRequest(if mode == ExactlyOne && |env.evaluations| > 1 then Invalid(AmbiguousSignatures) else failure,
                         Unfinished(env.evaluations, evaluated, failure));
      return;
    }
    if mode == ExactlyOne && |env.evaluations| > 1 {
      r := FailedRequest(Invalid(AmbiguousSignatures), Ambiguous(env.evaluations, env.completion));
      return;
    }
    var evaluations := GateAll(env);
    var eligible, positions := FilterEligible(evaluations);
    var replay, formed := ConsumeCandidateGroups(log, eligible, scope, env.runs);
    groups := formed;
    ghost var plan := PlanOf(positions, groups);
    PlanIsPlanned(env, scope, evaluations, positions, eligible, groups);
    if env.completion.Err? {
      r := FailedRequest(env.completion.error, Unfinished(evaluations, |env.evaluations|, env.completion.error));
      ClosedEarnsNothing(env, plan, rule);
      UnfinishedIsJustified(env, plan, r.candidates);
      return;
    }
    ReplayFollowsPlan(env, scope, evaluations, positions, eligible, groups, replay);
    var results := FinalizeAll(env, evaluations, eligible, positions, replay, plan);
    ReportsTell(env, scope, groups, results);
    AggregateIsEarned(env, plan, results, rule);
    r := Aggregate(results, rule).value;
  }

  /** The first evidence gate, which overwrites evaluations in place. */
  method GateAll(env: Environment) returns (evaluations: seq<Evaluation>)
    ensures evaluations == Gated(env)
  {
    evaluations := env.evaluations;
    for i := 0 to |evaluations|
      invariant |evaluations| == |env.evaluations|
      invariant forall j | 0 <= j < i :: evaluations[j] == Gate(env.evaluations[j], env.evidenceBefore(j))
      invariant forall j | i <= j < |evaluations| :: evaluations[j] == env.evaluations[j]
    {
      evaluations := evaluations[i := Gate(evaluations[i], env.evidenceBefore(i))];
    }
  }

  /** Each candidate's replay outcome is the one its planned group earned it. */
  ghost predicate Follows(env: Environment, c: Candidate, i: nat, plan: map<nat, nat>, outcome: ReplayOutcome) {
    && (outcome == Optional <==> c.nonce.None?)
    && (c.nonce.Some? ==> i in plan && (outcome == Granted <==> Passed(c, env.runs(plan[i]))))
  }

  lemma ReplayFollowsPlan(env: Environment, scope: Text, evaluations: seq<Evaluation>, positions: seq<nat>,
                          eligible: seq<Candidate>, groups: seq<seq<nat>>, replay: map<nat, ReplayOutcome>)
    requires Filtered(evaluations, eligible, positions)
    requires Grouping(eligible, scope, groups)
    requires forall m: nat :: m in replay <==> m < |eligible|
    requires forall m | 0 <= m < |eligible| :: replay[m] == Optional <==> eligible[m].nonce.None?
    requires forall m: nat, g: nat | Placed(groups, m, g) ::
               m < |eligible| && (replay[m] == Granted <==> Passed(eligible[m], env.runs(g)))
    ensures |positions| == |eligible|
    ensures forall k: nat | k < |positions| ::
              k in replay && Follows(env, eligible[k], positions[k], PlanOf(positions, groups), replay[k])
  {
    forall k | 0 <= k < |positions|
      ensures Follows(env, eligible[k], positions[k], PlanOf(positions, groups), replay[k])
    {
      PlanAt(positions, eligible, groups, scope, k);
    }
  }

  method FinalizeAll(env: Environment, evaluations: seq<Evaluation>, eligible: seq<Candidate>, positions: seq<nat>,
                     replay: map<nat, ReplayOutcome>, ghost plan: map<nat, nat>) returns (results: seq<CandidateResult>)
    requires evaluations == Gated(env)
    requires Filtered(evaluations, eligible, positions)
    requires env.completion.Ok?
    requires forall k: nat | k < |positions| ::
               k in replay && Follows(env, eligible[k], positions[k], plan, replay[k])
    ensures |results| == |env.evaluations|
    ensures Reports(env, evaluations, eligible, positions, replay, results)
    ensures forall i | 0 <= i < |results| :: Justified(env, plan, i, results[i])
  {
    hide Follows, Justified, Final, Finalize, Filtered, Reports;
    results := [];
    var k := 0;
    FilteredShape(evaluations, eligible, positions);
    for i := 0 to |evaluations|
      invariant |results| == i
      invariant 0 <= k <= |positions|
      invariant forall j | 0 <= j < k :: positions[j] < i
      invariant forall j | k <= j < |positions| :: i <= positions[j]
      invariant forall j | 0 <= j < i && evaluations[j].RejectedEvaluation? :: results[j] == Rejected(evaluations[j].rejection)
      invariant forall j: nat | j < k :: results[positions[j]] == Final(env, eligible[j], positions[j], replay[j])
      invariant forall j | 0 <= j < i :: Justified(env, plan, j, results[j])
    {
      var result;
      NextPosition(evaluations, eligible, positions, k, i);
      if evaluations[i].RejectedEvaluation? {
        result := Rejected(evaluations[i].rejection);
        RejectedIsJustified(env, plan, i, result);
      } else {
        result := FinalizeOne(env, i, eligible[k], replay[k], plan);
        k := k + 1;
      }
      results := results + [result];
    }
    ReportsAll(env, evaluations, eligible, positions, replay, results, k);
  }

  lemma FilteredShape(evaluations: seq<Evaluation>, eligible: seq<Candidate>, positions: seq<nat>)
    requires Filtered(evaluations, eligible, positions)
    ensures |eligible| == |positions|
  {
  }

  /** Going through the evaluations in order, the next eligible one is the next position. */
  lemma NextPosition(evaluations: seq<Evaluation>, eligible: seq<Candidate>, positions: seq<nat>, k: nat, i: nat)
    requires Filtered(evaluations, eligible, positions) && i < |evaluations| && k <= |positions|
    requires forall j | 0 <= j < k :: positions[j] < i
    requires forall j | k <= j < |positions| :: i <= positions[j]
    ensures evaluations[i].Eligible? ==> k < |positions| == |eligible| && positions[k] == i && evaluations[i] == Eligible(eligible[k])
    ensures evaluations[i].RejectedEvaluation? ==> forall j | k <= j < |positions| :: i < positions[j]
    ensures forall j | k < j < |positions| :: i < positions[j]
  {
    if evaluations[i].Eligible? {
      assert i in positions;
    }
  }

  lemma ReportsAll(env: Environment, evaluations: seq<Evaluation>, eligible: seq<Candidate>, positions: seq<nat>,
                   replay: map<nat, ReplayOutcome>, results: seq<CandidateResult>, k: nat)
    requires env.completion.Ok? && Filtered(evaluations, eligible, positions) && |results| == |evaluations|
    requires k <= |positions| && forall j | k <= j < |positions| :: |evaluations| <= positions[j]
    requires forall j: nat | j < |positions| :: j in replay
    requires forall j | 0 <= j < |results| && evaluations[j].RejectedEvaluation? :: results[j] == Rejected(evaluations[j].rejection)
    requires forall j: nat | j < k :: positions[j] < |results| && results[positions[j]] == Final(env, eligible[j], positions[j], replay[j])
    ensures Reports(env, evaluations, eligible, positions, replay, results)
  {
    assert forall j | 0 <= j < |positions| :: positions[j] < |evaluations|;
  }

  method FinalizeOne(env: Environment, i: nat, c: Candidate, outcome: ReplayOutcome, ghost plan: map<nat, nat>)
    returns (result: CandidateResult)
    requires i < |env.evaluations| && Gated(env)[i] == Eligible(c)
    requires env.completion.Ok?
    requires Follows(env, c, i, plan, outcome)
    ensures result == Final(env, c, i, outcome)
    ensures Justified(env, plan, i, result)
  {
    if env.evidenceAfter(i).Some? {
      result := Rejected(env.evidenceAfter(i).value);
    } else {
      FinalizeIsJustified(env, i, c, plan, outcome);
      result := Finalize(c, Some(outcome), env.completion.value).value;
    }
  }

  lemma RejectedIsJustified(env: Environment, plan: map<nat, nat>, i: nat, result: CandidateResult)
    requires i < |env.evaluations| && Gated(env)[i].RejectedEvaluation?
    requires result == Rejected(Gated(env)[i].rejection)
    ensures Justified(env, plan, i, result)
  {
  }

  ghost function IndexOf(positions: seq<nat>, i: nat): (k: nat)
    requires i in positions
    ensures k < |positions| && positions[k] == i
  {
    var k: nat :| k < |positions| && positions[k] == i;
    k
  }

  ghost function GroupNumber(groups: seq<seq<nat>>, k: nat): (g: nat)
    requires exists g: nat :: Placed(groups, k, g)
    ensures Placed(groups, k, g)
  {
    var g: nat :| Placed(groups, k, g);
    g
  }

  ghost predicate HasGroup(positions: seq<nat>, groups: seq<seq<nat>>, i: nat) {
    i in positions && exists g: nat :: Placed(groups, IndexOf(positions, i), g)
  }

  ghost function PlanOf(positions: seq<nat>, groups: seq<seq<nat>>): map<nat, nat> {
    map i: nat | i in positions && HasGroup(positions, groups, i) :: GroupNumber(groups, IndexOf(positions, i))
  }

  lemma PlanAt(positions: seq<nat>, eligible: seq<Candidate>, groups: seq<seq<nat>>, scope: Text, k: nat)
    requires k < |positions| == |eligible|
    requires forall i, j | 0 <= i < j < |positions| :: positions[i] < positions[j]
    requires Grouping(eligible, scope, groups)
    ensures var plan := PlanOf(positions, groups);
            && (positions[k] in plan <==> eligible[k].nonce.Some?)
            && (positions[k] in plan ==> Placed(groups, k, plan[positions[k]]))
  {
    var i := positions[k];
    assert IndexOf(positions, i) == k;
  }

  lemma PlanIsPlanned(env: Environment, scope: Text, evaluations: seq<Evaluation>, positions: seq<nat>,
                      eligible: seq<Candidate>, groups: seq<seq<nat>>)
    requires evaluations == Gated(env)
    requires Filtered(evaluations, eligible, positions)
    requires Grouping(eligible, scope, groups)
    ensures Planned(env, scope, PlanOf(positions, groups))
  {
    hide Grouping, PlanOf;
    var plan := PlanOf(positions, groups);
    forall i ensures i in plan <==> 0 <= i < |env.evaluations| && Replayable(env, i) {
      if i in plan {
        var _ := RankOf(evaluations, scope, positions, eligible, groups, i);
      } else if 0 <= i < |env.evaluations| && Replayable(env, i) {
        PlanAt(positions, eligible, groups, scope, IndexOf(positions, i));
      }
    }
    forall i, j | i in plan && j in plan
      ensures plan[i] == plan[j] <==>
              IdentityOf(scope, env.evaluations[i].candidate) == IdentityOf(scope, env.evaluations[j].candidate)
    {
      var k := RankOf(evaluations, scope, positions, eligible, groups, i);
      var l := RankOf(evaluations, scope, positions, eligible, groups, j);
      SamePlace(eligible, scope, groups, k, l, plan[i], plan[j]);
    }
  }

  /** The candidate of a planned position, and the group it is placed in. */
  lemma RankOf(evaluations: seq<Evaluation>, scope: Text, positions: seq<nat>, eligible: seq<Candidate>,
               groups: seq<seq<nat>>, i: nat) returns (k: nat)
    requires Filtered(evaluations, eligible, positions) && Grouping(eligible, scope, groups)
    requires i in PlanOf(positions, groups)
    ensures k < |eligible| && i < |evaluations| && evaluations[i] == Eligible(eligible[k]) && eligible[k].nonce.Some?
    ensures Placed(groups, k, PlanOf(positions, groups)[i])
  {
    k := IndexOf(positions, i);
    PlanAt(positions, eligible, groups, scope, k);
  }

  lemma SamePlace(eligible: seq<Candidate>, scope: Text, groups: seq<seq<nat>>, k: nat, l: nat, g: nat, h: nat)
    requires Grouping(eligible, scope, groups) && Placed(groups, k, g) && Placed(groups, l, h)
    ensures k < |eligible| && l < |eligible| && eligible[k].nonce.Some? && eligible[l].nonce.Some?
    ensures g == h <==> IdentityOf(scope, eligible[k]) == IdentityOf(scope, eligible[l])
  {
  }

  lemma FinalizeIsJustified(env: Environment, i: nat, c: Candidate, plan: map<nat, nat>, replay: ReplayOutcome)
    requires i < |env.evaluations|
    requires env.evaluations[i] == Eligible(c)
    requires env.evidenceBefore(i).None? && env.evidenceAfter(i).None?
    requires env.completion.Ok?
    requires Follows(env, c, i, plan, replay)
    ensures var final := Finalize(c, Some(replay), env.completion.value);
            final == Ok(Final(env, c, i, replay)) && Justified(env, plan, i, final.value)
  {
  }

  lemma UnfinishedIsJustified(env: Environment, plan: map<nat, nat>, results: seq<CandidateResult>)
    requires env.completion.Err?
    requires results == Unfinished(Gated(env), |env.evaluations|, env.completion.error)
    ensures forall i | 0 <= i < |results| :: Justified(env, plan, i, results[i])
  {
  }

  /** The results of an ambiguous request: a candidate still in time at the final gate fails for the ambiguity alone. */
  function Ambiguous(evaluations: seq<Evaluation>, completion: Result<int, Rejection>): (r: seq<CandidateResult>)
    ensures |r| == |evaluations|
    ensures forall i | 0 <= i < |r| :: r[i].Rejected?
    ensures forall i | 0 <= i < |r| && evaluations[i].RejectedEvaluation? :: r[i] == Rejected(evaluations[i].rejection)
    ensures forall i | 0 <= i < |r| && evaluations[i].Eligible? ::
              var c := evaluations[i].candidate;
              if completion.Err? then r[i].rejection == completion.error
              else if TP.Check(c.policy, c.created, c.expires, completion.value).None?
              then r[i].rejection == Invalid(AmbiguousSignatures)
              else Some(r[i].rejection) == TP.Check(c.policy, c.created, c.expires, completion.value)
  {
    seq(|evaluations|, i requires 0 <= i < |evaluations| =>
      match evaluations[i]
      case RejectedEvaluation(rejection) => Rejected(rejection)
      case Eligible(c) =>
        match completion
        case Err(rejection) => Rejected(rejection)
        case Ok(now) =>
          match TP.Check(c.policy, c.created, c.expires, now)
          case Some(rejection) => Rejected(rejection)
          case None => Rejected(Invalid(AmbiguousSignatures)))
  }

  /**
   * The results of a request that failed as a whole when `evaluated` candidates had been evaluated: those
   * already rejected keep their own reason, and every other candidate, evaluated or not, gets the failure.
   */
  function Unfinished(evaluations: seq<Evaluation>, evaluated: nat, failure: Rejection): (r: seq<CandidateResult>)
    ensures |r| == |evaluations|
    ensures forall i | 0 <= i < |r| :: r[i].Rejected?
    ensures forall i | 0 <= i < |r| && i < evaluated && evaluations[i].RejectedEvaluation? ::
              r[i].rejection == evaluations[i].rejection
    ensures forall i | 0 <= i < |r| && (i >= evaluated || evaluations[i].Eligible?) :: r[i].rejection == failure
  {
    seq(|evaluations|, i requires 0 <= i < |evaluations| =>
      if i < evaluated && evaluations[i].RejectedEvaluation? then Rejected(evaluations[i].rejection) else Rejected(failure))
  }
}
