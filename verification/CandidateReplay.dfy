/**
 * Grouped replay consumption of one invocation. Candidates are objects in the source, so they are
 * identified here by their index and never by their value.
 */
module CandidateReplay {
  import opened Basics
  import opened Codes
  import TP = TimePolicy
  import Mem = MemoryReplayStore

  /** An eligible candidate: its own time policy, the signed times and nonce, and the verified key. */
  datatype Candidate = Candidate(
    policy: TP.Policy,
    created: int,
    expires: int,
    nonce: Option<Text>,
    thumbprint: Text)

  datatype ReplayOutcome = Granted | Optional | Refused(rejection: Rejection)

  function IdentityOf(scope: Text, c: Candidate): Mem.Identity
    requires c.nonce.Some?
  {
    Mem.Identity(scope, c.thumbprint, c.nonce.value)
  }

  /** Candidates share an identity exactly if their scope, their key and their nonce are the same. */
  lemma IdentityIsExact(scope: Text, c: Candidate, otherScope: Text, other: Candidate)
    requires c.nonce.Some? && other.nonce.Some?
    ensures IdentityOf(scope, c) == IdentityOf(otherScope, other) <==>
              scope == otherScope && c.thumbprint == other.thumbprint && c.nonce == other.nonce
    ensures IdentityOf(scope, c).scope == scope && IdentityOf(scope, c).keyThumbprint == c.thumbprint
  {
  }

  function StoreRejection(outcome: StoreOutcome): Rejection
    requires outcome != Accepted
  {
    match outcome
    case Replayed => Invalid(ReplayDetected)
    case Unavailable => Unverified(ReplayStoreUnavailable)
    case QuotaExceeded => Unverified(PerKeyQuotaExceeded)
  }

  // ---------------------------------------------------------------- grouping

  ghost predicate Members(n: nat, group: seq<nat>) { forall i | 0 <= i < |group| :: group[i] < n }

  ghost predicate Placed(groups: seq<seq<nat>>, m: nat, g: nat) { g < |groups| && m in groups[g] }

  ghost predicate Increasing(group: seq<nat>) { forall i, j | 0 <= i < j < |group| :: group[i] < group[j] }

  /**
   * Every candidate with a nonce is in exactly one group, two of them share a group exactly when
   * they share the identity, members keep their header order, and groups that of their first members.
   */
  ghost predicate Grouping(candidates: seq<Candidate>, scope: Text, groups: seq<seq<nat>>) {
    && (forall g | 0 <= g < |groups| :: groups[g] != [] && Increasing(groups[g]))
    && (forall g, h | 0 <= g < h < |groups| :: groups[g][0] < groups[h][0])
    && (forall m: nat, g: nat | Placed(groups, m, g) :: m < |candidates| && candidates[m].nonce.Some?)
    && (forall m: nat, n: nat, g: nat, h: nat | Placed(groups, m, g) && Placed(groups, n, h) ::
          g == h <==> IdentityOf(scope, candidates[m]) == IdentityOf(scope, candidates[n]))
    && (forall m | 0 <= m < |candidates| && candidates[m].nonce.Some? :: exists g: nat :: Placed(groups, m, g))
  }

  /** The groups of the first `k` candidates, and the map from identities to their positions. */
  ghost predicate Indexed(candidates: seq<Candidate>, scope: Text, k: nat, groups: seq<seq<nat>>,
                          index: map<Mem.Identity, nat>)
    requires k <= |candidates|
  {
    && (forall g | 0 <= g < |groups| :: groups[g] != [] && Increasing(groups[g]))
    && (forall g, h | 0 <= g < h < |groups| :: groups[g][0] < groups[h][0])
    && (forall id | id in index :: index[id] < |groups|)
    && (forall id, other | id in index && other in index :: index[id] == index[other] ==> id == other)
    && (forall m: nat, g: nat | Placed(groups, m, g) ::
          && m < k && candidates[m].nonce.Some?
          && IdentityOf(scope, candidates[m]) in index && index[IdentityOf(scope, candidates[m])] == g)
    && (forall m | 0 <= m < k && candidates[m].nonce.Some? ::
          && IdentityOf(scope, candidates[m]) in index
          && Placed(groups, m, index[IdentityOf(scope, candidates[m])]))
  }

  lemma IndexedGrows(candidates: seq<Candidate>, scope: Text, k: nat, groups: seq<seq<nat>>,
                     index: map<Mem.Identity, nat>, groups': seq<seq<nat>>, index': map<Mem.Identity, nat>)
    requires k < |candidates| && candidates[k].nonce.Some?
    requires Indexed(candidates, scope, k, groups, index)
    requires var key := IdentityOf(scope, candidates[k]);
             if key in index
             then index' == index && groups' == groups[index[key] := groups[index[key]] + [k]]
             else index' == index[key := |groups|] && groups' == groups + [[k]]
    ensures Indexed(candidates, scope, k + 1, groups', index')
  {
    var key := IdentityOf(scope, candidates[k]);
    forall g | 0 <= g < |groups'| ensures groups'[g] != [] && Increasing(groups'[g]) {
      if key in index && g == index[key] {
        assert forall i | 0 <= i < |groups[g]| :: Placed(groups, groups[g][i], g);
      }
    }
    forall g, h | 0 <= g < h < |groups'| ensures groups'[g][0] < groups'[h][0] {
      assert groups'[g][0] == groups[g][0];
      if h < |groups| {
        assert groups'[h][0] == groups[h][0];
      } else {
        assert Placed(groups, groups[g][0], g);
      }
    }
    forall m: nat, g: nat | Placed(groups', m, g)
      ensures && m < k + 1 && candidates[m].nonce.Some?
              && IdentityOf(scope, candidates[m]) in index' && index'[IdentityOf(scope, candidates[m])] == g
    {
      if !Placed(groups, m, g) {
        assert m == k && g == index'[key];
      }
    }
    forall m | 0 <= m < k + 1 && candidates[m].nonce.Some?
      ensures && IdentityOf(scope, candidates[m]) in index'
              && Placed(groups', m, index'[IdentityOf(scope, candidates[m])])
    {
      if m < k {
        assert Placed(groups, m, index[IdentityOf(scope, candidates[m])]);
      }
    }
  }

  lemma IndexedIsGrouping(candidates: seq<Candidate>, scope: Text, groups: seq<seq<nat>>, index: map<Mem.Identity, nat>)
    requires Indexed(candidates, scope, |candidates|, groups, index)
    ensures Grouping(candidates, scope, groups)
  {
  }

  method GroupCandidates(candidates: seq<Candidate>, scope: Text)
    returns (outcomes: map<nat, ReplayOutcome>, groups: seq<seq<nat>>)
    ensures Grouping(candidates, scope, groups)
    ensures outcomes == map m: nat | m < |candidates| && candidates[m].nonce.None? :: Optional
  {
    outcomes, groups := map[], [];
    var index: map<Mem.Identity, nat> := map[];
    for k := 0 to |candidates|
      invariant outcomes == map m: nat | m < k && candidates[m].nonce.None? :: Optional
      invariant Indexed(candidates, scope, k, groups, index)
    {
      var candidate := candidates[k];
      if candidate.nonce.None? {
        outcomes := outcomes[k := Optional];
      } else {
        var key := IdentityOf(scope, candidate);
        ghost var groups0, index0 := groups, index;
        if key in index {
          groups := groups[index[key] := groups[index[key]] + [k]];
        } else {
          index := index[key := |groups|];
          groups := groups + [[k]];
        }
        IndexedGrows(candidates, scope, k, groups0, index0, groups, index);
      }
    }
    IndexedIsGrouping(candidates, scope, groups, index);
  }

  // ---------------------------------------------------------------- one group

  /** The gate of one member at dispatch: its window, then its retention deadline. */
  function Admit(c: Candidate, now: int): Result<int, Rejection> {
    match TP.Check(c.policy, c.created, c.expires, now)
    case Some(rejection) => Err(rejection)
    case None => TP.RetainUntil(c.policy, c.created, now)
  }

  /** What the dispatch-time callback computes over a group. */
  datatype Preparation = Preparation(
    ready: seq<nat>,
    retainUntil: int,
    failures: map<nat, Rejection>,
    lastFailure: Option<Rejection>)

  function Prepared(candidates: seq<Candidate>, group: seq<nat>, now: int): Preparation
    requires Members(|candidates|, group)
  {
    if group == [] then Preparation([], 0, map[], None)
    else
      var last := group[|group| - 1];
      var before := Prepared(candidates, group[..|group| - 1], now);
      match Admit(candidates[last], now)
      case Ok(deadline) => before.(ready := before.ready + [last], retainUntil := Max(before.retainUntil, deadline))
      case Err(rejection) =>
        before.(failures := before.failures[last := rejection], lastFailure := Some(rejection))
  }

  method Prepare(candidates: seq<Candidate>, group: seq<nat>, now: int) returns (p: Preparation)
    requires Members(|candidates|, group)
    ensures p == Prepared(candidates, group, now)
  {
    var ready, retainUntil := [], 0;
    var failures: map<nat, Rejection> := map[];
    var lastFailure := None;
    for i := 0 to |group|
      invariant Preparation(ready, retainUntil, failures, lastFailure) == Prepared(candidates, group[..i], now)
    {
      assert group[..i + 1][..i] == group[..i];
      match Admit(candidates[group[i]], now)
      case Ok(deadline) =>
        retainUntil := Max(retainUntil, deadline);
        ready := ready + [group[i]];
      case Err(rejection) =>
        failures := failures[group[i] := rejection];
        lastFailure := Some(rejection);
    }
    assert group[..|group|] == group;
    p := Preparation(ready, retainUntil, failures, lastFailure);
  }

  /**
   * The prepared members: ready ones pass their window at the dispatch sample, the others have a
   * rejection of their own, and there is no third kind.
   */
  lemma {:induction false} PreparedPartitions(candidates: seq<Candidate>, group: seq<nat>, now: int)
    requires Members(|candidates|, group)
    ensures var p := Prepared(candidates, group, now);
            && (forall m :: m in p.ready <==> m in group && m < |candidates| && Admit(candidates[m], now).Ok?)
            && (forall m :: m in p.failures <==> m in group && m < |candidates| && Admit(candidates[m], now).Err?)
            && (forall m | m in p.failures :: Err(p.failures[m]) == Admit(candidates[m], now))
            && (group != [] && p.ready == [] ==> p.lastFailure.Some?)
  {
    if group != [] {
      var init, last := group[..|group| - 1], group[|group| - 1];
      assert forall m :: m in group <==> m in init || m == last;
      PreparedPartitions(candidates, init, now);
    }
  }

  /** The common deadline covers every ready member, and is the deadline of one of them. */
  lemma {:induction false} PreparedDeadline(candidates: seq<Candidate>, group: seq<nat>, now: int)
    requires Members(|candidates|, group)
    ensures var p := Prepared(candidates, group, now);
            && (forall m | m in p.ready :: m < |candidates| && Admit(candidates[m], now).Ok?
                                            && Admit(candidates[m], now).value <= p.retainUntil)
            && (p.retainUntil == 0 || exists m :: m in p.ready && m < |candidates|
                                                  && Admit(candidates[m], now) == Ok(p.retainUntil))
  {
    if group != [] {
      var init, last := group[..|group| - 1], group[|group| - 1];
      PreparedDeadline(candidates, init, now);
      var p, before := Prepared(candidates, group, now), Prepared(candidates, init, now);
      if Admit(candidates[last], now).Ok? {
        assert last in p.ready;
        if p.retainUntil == before.retainUntil != 0 {
          var m :| m in before.ready && m < |candidates| && Admit(candidates[m], now) == Ok(before.retainUntil);
          assert m in p.ready;
        }
      }
    }
  }

  /** Adding outcomes for the members of a group that have none yet. */
  function FillFailures(outcomes: map<nat, ReplayOutcome>, group: seq<nat>, rejection: Rejection): map<nat, ReplayOutcome> {
    outcomes + map m | m in group && m !in outcomes :: Refused(rejection)
  }

  function RecordFailures(outcomes: map<nat, ReplayOutcome>, failures: map<nat, Rejection>): map<nat, ReplayOutcome> {
    outcomes + map m | m in failures :: Refused(failures[m])
  }

  function MemberOutcome(c: Candidate, outcome: StoreOutcome, now: int): ReplayOutcome {
    match TP.Check(c.policy, c.created, c.expires, now)
    case Some(rejection) => Refused(rejection)
    case None => if outcome == Accepted then Granted else Refused(StoreRejection(outcome))
  }

  /** The outcomes once the reply has arrived and the window was checked again. */
  function Settled(candidates: seq<Candidate>, outcomes: map<nat, ReplayOutcome>, ready: seq<nat>,
                   outcome: StoreOutcome, now: int): map<nat, ReplayOutcome>
  {
    outcomes + map m | m in ready && m < |candidates| :: MemberOutcome(candidates[m], outcome, now)
  }

  // ---------------------------------------------------------------- the whole function

  /** How the environment answers one group: each gate may close, the store may say anything. */
  datatype GroupRun =
    | DispatchClosed(closed: Rejection)
    | Dispatched(now: int, reply: Reply)

  datatype Reply = ReplyClosed(rejection: Rejection) | Replied(outcome: StoreOutcome, recheck: int)

  ghost predicate Passed(c: Candidate, run: GroupRun) {
    && run.Dispatched? && run.reply.Replied? && run.reply.outcome == Accepted
    && Admit(c, run.now).Ok?
    && TP.Check(c.policy, c.created, c.expires, run.reply.recheck).None?
  }

  /** One group, given the outcomes of the earlier ones. */
  function GroupOutcomes(candidates: seq<Candidate>, outcomes: map<nat, ReplayOutcome>, group: seq<nat>, run: GroupRun)
    : map<nat, ReplayOutcome>
    requires Members(|candidates|, group)
  {
    match run
    case DispatchClosed(rejection) => FillFailures(outcomes, group, rejection)
    case Dispatched(now, reply) =>
      var p := Prepared(candidates, group, now);
      var recorded := RecordFailures(outcomes, p.failures);
      if p.ready == [] then recorded
      else match reply
        case ReplyClosed(rejection) => FillFailures(recorded, group, rejection)
        case Replied(outcome, recheck) => Settled(candidates, recorded, p.ready, outcome, recheck)
  }

  lemma MembersBySet(n: nat, group: seq<nat>)
    requires Members(n, group)
    ensures forall m | m in group :: m < n
  {
  }

  /** Total on a group: earlier outcomes are kept, every member gets one, none of them `Optional`. */
  ghost predicate Totals(outcomes: map<nat, ReplayOutcome>, group: seq<nat>, next: map<nat, ReplayOutcome>) {
    && (forall m: nat :: m in next <==> m in outcomes || m in group)
    && (forall m: nat | m in outcomes :: next[m] == outcomes[m])
    && (forall m: nat | m in group :: next[m] != Optional)
  }

  lemma FillIsTotal(outcomes: map<nat, ReplayOutcome>, group: seq<nat>, failures: map<nat, Rejection>, rejection: Rejection)
    requires forall m | m in group :: m !in outcomes
    requires forall m | m in failures :: m in group
    ensures var next := FillFailures(RecordFailures(outcomes, failures), group, rejection);
            Totals(outcomes, group, next) && forall m: nat | m in group :: next[m] != Granted
  {
  }

  lemma SettleIsTotal(candidates: seq<Candidate>, outcomes: map<nat, ReplayOutcome>, group: seq<nat>,
                      ready: seq<nat>, failures: map<nat, Rejection>, outcome: StoreOutcome, recheck: int)
    requires forall m | m in group :: m < |candidates| && m !in outcomes
    requires forall m :: m in group <==> m in ready || m in failures
    ensures var next := Settled(candidates, RecordFailures(outcomes, failures), ready, outcome, recheck);
            && Totals(outcomes, group, next)
            && (forall m: nat | m in ready :: m < |candidates| && next[m] == MemberOutcome(candidates[m], outcome, recheck))
            && (forall m: nat | m in failures && m !in ready :: next[m] == Refused(failures[m]))
  {
    var settled := map m | m in ready && m < |candidates| :: MemberOutcome(candidates[m], outcome, recheck);
    assert forall m | m in settled :: settled[m] != Optional;
    assert forall m: nat :: m in settled <==> m in ready;
  }

  lemma GroupOutcomesWhenReplied(candidates: seq<Candidate>, outcomes: map<nat, ReplayOutcome>, group: seq<nat>, run: GroupRun)
    requires Members(|candidates|, group)
    requires run.Dispatched? && run.reply.Replied?
    requires Prepared(candidates, group, run.now).ready != []
    requires forall m | m in group :: m !in outcomes
    ensures var next := GroupOutcomes(candidates, outcomes, group, run);
            && Totals(outcomes, group, next)
            && (forall m: nat | m in group :: m < |candidates| && (next[m] == Granted <==> Passed(candidates[m], run)))
  {
    MembersBySet(|candidates|, group);
    var p := Prepared(candidates, group, run.now);
    PreparedPartitions(candidates, group, run.now);
    SettleIsTotal(candidates, outcomes, group, p.ready, p.failures, run.reply.outcome, run.reply.recheck);
    var next := GroupOutcomes(candidates, outcomes, group, run);
    forall m: nat | m in group ensures m < |candidates| && (next[m] == Granted <==> Passed(candidates[m], run)) {
      if m !in p.ready {
        assert next[m] == Refused(p.failures[m]);
      }
    }
  }

  /** One group adds exactly its own members, and grants exactly those that passed. */
  lemma GroupOutcomesAreTotal(candidates: seq<Candidate>, outcomes: map<nat, ReplayOutcome>, group: seq<nat>, run: GroupRun)
    requires Members(|candidates|, group)
    requires forall m | m in group :: m !in outcomes
    ensures var next := GroupOutcomes(candidates, outcomes, group, run);
            && Totals(outcomes, group, next)
            && (forall m: nat | m in group :: m < |candidates| && (next[m] == Granted <==> Passed(candidates[m], run)))
  {
    MembersBySet(|candidates|, group);
    match run
    case DispatchClosed(rejection) =>
      assert RecordFailures(outcomes, map[]) == outcomes;
      FillIsTotal(outcomes, group, map[], rejection);
    case Dispatched(now, reply) =>
      if Prepared(candidates, group, now).ready == [] {
        GroupOutcomesWhenNoneReady(candidates, outcomes, group, run);
      } else if reply.Replied? {
        GroupOutcomesWhenReplied(candidates, outcomes, group, run);
      } else {
        FailuresAreMembers(candidates, group, now);
        FillIsTotal(outcomes, group, Prepared(candidates, group, now).failures, reply.rejection);
      }
  }

  lemma FailuresAreMembers(candidates: seq<Candidate>, group: seq<nat>, now: int)
    requires Members(|candidates|, group)
    ensures forall m | m in Prepared(candidates, group, now).failures :: m in group
  {
    PreparedPartitions(candidates, group, now);
  }

  lemma GroupOutcomesWhenNoneReady(candidates: seq<Candidate>, outcomes: map<nat, ReplayOutcome>, group: seq<nat>, run: GroupRun)
    requires Members(|candidates|, group)
    requires run.Dispatched? && Prepared(candidates, group, run.now).ready == []
    requires forall m | m in group :: m !in outcomes
    ensures var next := GroupOutcomes(candidates, outcomes, group, run);
            && Totals(outcomes, group, next)
            && (forall m: nat | m in group :: m < |candidates| && next[m] != Granted && !Passed(candidates[m], run))
  {
    MembersBySet(|candidates|, group);
    PreparedPartitions(candidates, group, run.now);
  }

  /** One dispatch to the store: what is consumed, until when it is kept, and at which second it was sent. */
  datatype StoreCall = StoreCall(identity: Mem.Identity, retainUntil: int, at: int)

  ghost predicate Consumable(candidates: seq<Candidate>, group: seq<nat>) {
    Members(|candidates|, group) && forall i | 0 <= i < |group| :: candidates[group[i]].nonce.Some?
  }

  /** The dispatch a group makes: none if the gate is closed or no member is ready, and otherwise one. */
  function CallOf(candidates: seq<Candidate>, scope: Text, group: seq<nat>, run: GroupRun): seq<StoreCall>
    requires Consumable(candidates, group)
  {
    if run.DispatchClosed? then []
    else
      var p := Prepared(candidates, group, run.now);
      if p.ready == [] then []
      else
        ReadyAreMembers(candidates, group, run.now);
        assert p.ready[0] in p.ready;
        [StoreCall(IdentityOf(scope, candidates[p.ready[0]]), p.retainUntil, run.now)]
  }

  lemma ReadyAreMembers(candidates: seq<Candidate>, group: seq<nat>, now: int)
    requires Consumable(candidates, group)
    ensures forall m | m in Prepared(candidates, group, now).ready ::
              m in group && m < |candidates| && candidates[m].nonce.Some?
  {
    PreparedPartitions(candidates, group, now);
  }

  /** The outcomes of the first `n` groups, one after the other. */
  function OutcomesOf(candidates: seq<Candidate>, groups: seq<seq<nat>>, runs: nat -> GroupRun, n: nat): map<nat, ReplayOutcome>
    requires n <= |groups| && forall g | 0 <= g < n :: Consumable(candidates, groups[g])
  {
    if n == 0 then map m: nat | m < |candidates| && candidates[m].nonce.None? :: Optional
    else
      assert Consumable(candidates, groups[n - 1]);
      GroupOutcomes(candidates, OutcomesOf(candidates, groups, runs, n - 1), groups[n - 1], runs(n - 1))
  }

  /** The dispatches of the first `n` groups, in order. */
  function CallsOf(candidates: seq<Candidate>, scope: Text, groups: seq<seq<nat>>, runs: nat -> GroupRun, n: nat): seq<StoreCall>
    requires n <= |groups| && forall g | 0 <= g < n :: Consumable(candidates, groups[g])
  {
    if n == 0 then []
    else CallsOf(candidates, scope, groups, runs, n - 1) + CallOf(candidates, scope, groups[n - 1], runs(n - 1))
  }

  lemma GroupsAreConsumable(candidates: seq<Candidate>, scope: Text, groups: seq<seq<nat>>)
    requires Grouping(candidates, scope, groups)
    ensures forall g | 0 <= g < |groups| :: Consumable(candidates, groups[g])
  {
    forall g | 0 <= g < |groups| ensures Consumable(candidates, groups[g]) {
      assert forall i | 0 <= i < |groups[g]| :: Placed(groups, groups[g][i], g);
    }
  }

  /** The identity of a member of one of the first `n` groups. */
  ghost predicate OfGroup(candidates: seq<Candidate>, scope: Text, groups: seq<seq<nat>>, n: nat, identity: Mem.Identity) {
    exists m: nat, g: nat :: g < n && Placed(groups, m, g) && m < |candidates| && candidates[m].nonce.Some?
                             && IdentityOf(scope, candidates[m]) == identity
  }

  lemma CallIsOfGroup(candidates: seq<Candidate>, scope: Text, groups: seq<seq<nat>>, g: nat, run: GroupRun)
    requires g < |groups| && Consumable(candidates, groups[g])
    ensures |CallOf(candidates, scope, groups[g], run)| <= 1
    ensures forall call | call in CallOf(candidates, scope, groups[g], run) ::
              exists m: nat :: Placed(groups, m, g) && m < |candidates| && candidates[m].nonce.Some?
                               && IdentityOf(scope, candidates[m]) == call.identity
  {
    if CallOf(candidates, scope, groups[g], run) != [] {
      ReadyAreMembers(candidates, groups[g], run.now);
      var ready := Prepared(candidates, groups[g], run.now).ready;
      assert ready[0] in ready && Placed(groups, ready[0], g);
    }
  }

  /**
   * A group is sent to the store unless its gate is closed or no member passes at dispatch: with the identity
   * of all its members, the second of dispatch, and the latest of the deadlines of those that pass.
   */
  lemma CallIsExact(candidates: seq<Candidate>, scope: Text, groups: seq<seq<nat>>, g: nat, run: GroupRun)
    requires Grouping(candidates, scope, groups) && g < |groups| && Consumable(candidates, groups[g])
    ensures var call := CallOf(candidates, scope, groups[g], run);
      && (call == [] <==>
            run.DispatchClosed? || forall m: nat | Placed(groups, m, g) :: m < |candidates| && Admit(candidates[m], run.now).Err?)
      && (call != [] ==>
            && |call| == 1 && call[0].at == run.now
            && (forall m: nat | Placed(groups, m, g) :: m < |candidates| && candidates[m].nonce.Some?
                  && IdentityOf(scope, candidates[m]) == call[0].identity
                  && (Admit(candidates[m], run.now).Ok? ==> Admit(candidates[m], run.now).value <= call[0].retainUntil))
            && (call[0].retainUntil == 0 ||
                  exists m: nat :: Placed(groups, m, g) && m < |candidates|
                                   && Admit(candidates[m], run.now) == Ok(call[0].retainUntil)))
  {
    hide Admit, Prepared;
    if run.Dispatched? {
      var p := Prepared(candidates, groups[g], run.now);
      PreparedPartitions(candidates, groups[g], run.now);
      PreparedDeadline(candidates, groups[g], run.now);
      assert groups[g] != [];
      if p.ready == [] {
        forall m: nat | Placed(groups, m, g) ensures m < |candidates| && Admit(candidates[m], run.now).Err? {
          assert m !in p.ready;
        }
      } else {
        ReadyAreMembers(candidates, groups[g], run.now);
        assert p.ready[0] in p.ready;
        assert Placed(groups, p.ready[0], g);
      }
    }
  }

  /** However many candidates share an identity, it is sent to the store at most once in an invocation. */
  lemma {:induction false} OneCallPerIdentity(candidates: seq<Candidate>, scope: Text, groups: seq<seq<nat>>,
                                              runs: nat -> GroupRun, n: nat)
    requires Grouping(candidates, scope, groups) && n <= |groups|
    requires forall g | 0 <= g < |groups| :: Consumable(candidates, groups[g])
    ensures var calls := CallsOf(candidates, scope, groups, runs, n);
            && |calls| <= n
            && (forall i, j | 0 <= i < j < |calls| :: calls[i].identity != calls[j].identity)
            && (forall i | 0 <= i < |calls| :: OfGroup(candidates, scope, groups, n, calls[i].identity))
  {
    hide CallOf, Grouping, OfGroup, Consumable;
    if n > 0 {
      OneCallPerIdentity(candidates, scope, groups, runs, n - 1);
      var before := CallsOf(candidates, scope, groups, runs, n - 1);
      var call := CallOf(candidates, scope, groups[n - 1], runs(n - 1));
      CallIsOfGroup(candidates, scope, groups, n - 1, runs(n - 1));
      forall i | 0 <= i < |before|
        ensures OfGroup(candidates, scope, groups, n, before[i].identity)
        ensures call != [] ==> before[i].identity != call[0].identity
      {
        GroupsAreApart(candidates, scope, groups, n - 1, before[i].identity, call);
      }
      if call != [] {
        assert call[0] in call;
        CallIsOfGroups(candidates, scope, groups, n - 1, call[0]);
      }
    }
  }

  /** What is of an earlier group is not what a later group sends. */
  lemma GroupsAreApart(candidates: seq<Candidate>, scope: Text, groups: seq<seq<nat>>, g: nat, identity: Mem.Identity,
                       calls: seq<StoreCall>)
    requires Grouping(candidates, scope, groups) && OfGroup(candidates, scope, groups, g, identity)
    requires forall call | call in calls ::
               exists m: nat :: Placed(groups, m, g) && m < |candidates| && candidates[m].nonce.Some?
                                && IdentityOf(scope, candidates[m]) == call.identity
    ensures OfGroup(candidates, scope, groups, g + 1, identity)
    ensures calls != [] ==> identity != calls[0].identity
  {
    if calls != [] {
      assert calls[0] in calls;
    }
  }

  lemma CallIsOfGroups(candidates: seq<Candidate>, scope: Text, groups: seq<seq<nat>>, g: nat, call: StoreCall)
    requires exists m: nat :: Placed(groups, m, g) && m < |candidates| && candidates[m].nonce.Some?
                              && IdentityOf(scope, candidates[m]) == call.identity
    ensures OfGroup(candidates, scope, groups, g + 1, call.identity)
  {
  }

  /** What the store has been asked. */
  class StoreLog {
    var calls: seq<StoreCall>

    constructor ()
      ensures calls == []
    {
      calls := [];
    }

    method Dispatch(call: StoreCall)
      modifies this
      ensures calls == old(calls) + [call]
    {
      calls := calls + [call];
    }
  }

  method ConsumeOneGroup(log: StoreLog, candidates: seq<Candidate>, scope: Text, outcomes: map<nat, ReplayOutcome>,
                         group: seq<nat>, run: GroupRun) returns (next: map<nat, ReplayOutcome>)
    requires Consumable(candidates, group)
    modifies log
    ensures next == GroupOutcomes(candidates, outcomes, group, run)
    ensures log.calls == old(log.calls) + CallOf(candidates, scope, group, run)
  {
    match run
    case DispatchClosed(rejection) =>
      next := FillFailures(outcomes, group, rejection);
    case Dispatched(now, reply) =>
      var p := Prepare(candidates, group, now);
      next := RecordFailures(outcomes, p.failures);
      if p.ready == [] {
        return;
      }
      ReadyAreMembers(candidates, group, now);
      assert p.ready[0] in p.ready;
      log.Dispatch(StoreCall(IdentityOf(scope, candidates[p.ready[0]]), p.retainUntil, now));
      match reply {
        case ReplyClosed(rejection) => next := FillFailures(next, group, rejection);
        case Replied(outcome, recheck) => next := Settled(candidates, next, p.ready, outcome, recheck);
      }
  }

  /** What holds of the outcomes once the first `g` groups are done. */
  ghost predicate Progress(candidates: seq<Candidate>, groups: seq<seq<nat>>, runs: nat -> GroupRun, g: nat,
                           outcomes: map<nat, ReplayOutcome>)
    requires g <= |groups|
  {
    && (forall m: nat :: m in outcomes <==>
          m < |candidates| && (candidates[m].nonce.None? || exists h: nat :: h < g && Placed(groups, m, h)))
    && (forall m | m in outcomes :: outcomes[m] == Optional <==> candidates[m].nonce.None?)
    && (forall m: nat, h: nat | h < g && Placed(groups, m, h) :: m in outcomes && m < |candidates|
          && (outcomes[m] == Granted <==> Passed(candidates[m], runs(h))))
  }

  lemma ProgressStarts(candidates: seq<Candidate>, groups: seq<seq<nat>>, runs: nat -> GroupRun, outcomes: map<nat, ReplayOutcome>)
    requires outcomes == map m: nat | m < |candidates| && candidates[m].nonce.None? :: Optional
    ensures Progress(candidates, groups, runs, 0, outcomes)
  {
  }

  lemma ProgressEnds(candidates: seq<Candidate>, scope: Text, groups: seq<seq<nat>>, runs: nat -> GroupRun,
                     outcomes: map<nat, ReplayOutcome>)
    requires Grouping(candidates, scope, groups) && Progress(candidates, groups, runs, |groups|, outcomes)
    ensures forall m: nat :: m in outcomes <==> m < |candidates|
    ensures forall m | 0 <= m < |candidates| :: outcomes[m] == Optional <==> candidates[m].nonce.None?
    ensures forall m: nat, g: nat | Placed(groups, m, g) :: m < |candidates|
              && (outcomes[m] == Granted <==> Passed(candidates[m], runs(g)))
  {
  }

  lemma ProgressAdvances(candidates: seq<Candidate>, scope: Text, groups: seq<seq<nat>>, runs: nat -> GroupRun, g: nat,
                         outcomes: map<nat, ReplayOutcome>)
    requires Grouping(candidates, scope, groups)
    requires g < |groups|
    requires Progress(candidates, groups, runs, g, outcomes)
    ensures Members(|candidates|, groups[g])
    ensures Progress(candidates, groups, runs, g + 1, GroupOutcomes(candidates, outcomes, groups[g], runs(g)))
  {
    assert forall i | 0 <= i < |groups[g]| :: Placed(groups, groups[g][i], g);
    forall m | m in groups[g] ensures m !in outcomes {
      assert Placed(groups, m, g);
    }
    GroupOutcomesAreTotal(candidates, outcomes, groups[g], runs(g));
    var next := GroupOutcomes(candidates, outcomes, groups[g], runs(g));
    forall m: nat
      ensures m in next <==>
                m < |candidates| && (candidates[m].nonce.None? || exists h: nat :: h < g + 1 && Placed(groups, m, h))
    {
      if m in groups[g] {
        assert Placed(groups, m, g);
      } else if exists h: nat :: h < g + 1 && Placed(groups, m, h) {
        var h: nat :| h < g + 1 && Placed(groups, m, h);
        assert h < g;
      }
    }
    forall m: nat, h: nat | h < g + 1 && Placed(groups, m, h)
      ensures m in next && m < |candidates| && (next[m] == Granted <==> Passed(candidates[m], runs(h)))
    {
      if h < g {
        assert m in outcomes;
      }
    }
  }

  /**
   * What replay tells a candidate with a nonce, by what its own group met and nothing else: a closed gate,
   * its own window or retention at dispatch, the reply, and its window again when the reply arrived.
   */
  function Verdict(c: Candidate, run: GroupRun): ReplayOutcome {
    match run
    case DispatchClosed(rejection) => Refused(rejection)
    case Dispatched(now, reply) =>
      var window := TP.Check(c.policy, c.created, c.expires, now);
      var retention := TP.RetainUntil(c.policy, c.created, now);
      if window.Some? then Refused(window.value)
      else if retention.Err? then Refused(retention.error)
      else match reply
        case ReplyClosed(rejection) => Refused(rejection)
        case Replied(outcome, recheck) =>
          var again := TP.Check(c.policy, c.created, c.expires, recheck);
          if again.Some? then Refused(again.value)
          else if outcome == Accepted then Granted
          else if outcome == Replayed then Refused(Invalid(ReplayDetected))
          else if outcome == QuotaExceeded then Refused(Unverified(PerKeyQuotaExceeded))
          else Refused(Unverified(ReplayStoreUnavailable))
  }

  /** Every member of a group gets the verdict of its run. */
  lemma GroupVerdicts(candidates: seq<Candidate>, outcomes: map<nat, ReplayOutcome>, group: seq<nat>, run: GroupRun)
    requires Members(|candidates|, group)
    requires forall m | m in group :: m !in outcomes
    ensures forall m: nat | m in group :: m < |candidates|
              && m in GroupOutcomes(candidates, outcomes, group, run)
              && GroupOutcomes(candidates, outcomes, group, run)[m] == Verdict(candidates[m], run)
  {
    hide GroupOutcomes, Verdict;
    MembersBySet(|candidates|, group);
    forall m: nat | m in group
      ensures m in GroupOutcomes(candidates, outcomes, group, run)
      ensures GroupOutcomes(candidates, outcomes, group, run)[m] == Verdict(candidates[m], run)
    {
      MemberVerdict(candidates, outcomes, group, run, m);
    }
  }

  lemma MemberVerdict(candidates: seq<Candidate>, outcomes: map<nat, ReplayOutcome>, group: seq<nat>, run: GroupRun, m: nat)
    requires Members(|candidates|, group) && m in group && m < |candidates| && m !in outcomes
    ensures var next := GroupOutcomes(candidates, outcomes, group, run); m in next && next[m] == Verdict(candidates[m], run)
  {
    hide Prepared, RecordFailures, FillFailures, Settled, TP.Check, TP.RetainUntil;
    if run.Dispatched? {
      PreparedPartitions(candidates, group, run.now);
      var p := Prepared(candidates, group, run.now);
      RecordedAt(outcomes, p.failures, m);
      if run.reply.Replied? {
        SettledAt(candidates, RecordFailures(outcomes, p.failures), p.ready, run.reply.outcome, run.reply.recheck, m);
      } else {
        FilledAt(RecordFailures(outcomes, p.failures), group, run.reply.rejection, m);
      }
    } else {
      FilledAt(outcomes, group, run.closed, m);
    }
  }

  lemma RecordedAt(outcomes: map<nat, ReplayOutcome>, failures: map<nat, Rejection>, m: nat)
    requires m !in outcomes
    ensures var recorded := RecordFailures(outcomes, failures);
      (m in recorded <==> m in failures) && (m in failures ==> recorded[m] == Refused(failures[m]))
  {
  }

  lemma FilledAt(outcomes: map<nat, ReplayOutcome>, group: seq<nat>, rejection: Rejection, m: nat)
    requires m in group
    ensures var next := FillFailures(outcomes, group, rejection);
      m in next && next[m] == if m in outcomes then outcomes[m] else Refused(rejection)
  {
  }

  lemma SettledAt(candidates: seq<Candidate>, outcomes: map<nat, ReplayOutcome>, ready: seq<nat>, outcome: StoreOutcome,
                  now: int, m: nat)
    requires m < |candidates|
    ensures var next := Settled(candidates, outcomes, ready, outcome, now);
      if m in ready then m in next && next[m] == MemberOutcome(candidates[m], outcome, now)
      else (m in next <==> m in outcomes) && (m in outcomes ==> next[m] == outcomes[m])
  {
  }

  lemma {:induction false} OutcomesProgress(candidates: seq<Candidate>, scope: Text, groups: seq<seq<nat>>,
                                            runs: nat -> GroupRun, n: nat)
    requires Grouping(candidates, scope, groups) && n <= |groups|
    requires forall g | 0 <= g < |groups| :: Consumable(candidates, groups[g])
    ensures Progress(candidates, groups, runs, n, OutcomesOf(candidates, groups, runs, n))
  {
    hide Grouping, Progress, Consumable, GroupOutcomes;
    if n == 0 {
      ProgressStarts(candidates, groups, runs, OutcomesOf(candidates, groups, runs, 0));
    } else {
      OutcomesProgress(candidates, scope, groups, runs, n - 1);
      ProgressAdvances(candidates, scope, groups, runs, n - 1, OutcomesOf(candidates, groups, runs, n - 1));
    }
  }

  lemma NotYet(candidates: seq<Candidate>, scope: Text, groups: seq<seq<nat>>, runs: nat -> GroupRun, n: nat,
               outcomes: map<nat, ReplayOutcome>)
    requires Grouping(candidates, scope, groups) && n < |groups| && Progress(candidates, groups, runs, n, outcomes)
    requires Members(|candidates|, groups[n])
    ensures forall m | m in groups[n] :: m !in outcomes
  {
    forall m | m in groups[n] ensures m !in outcomes {
      assert Placed(groups, m, n);
    }
  }

  lemma KeepsEarlier(candidates: seq<Candidate>, outcomes: map<nat, ReplayOutcome>, group: seq<nat>, run: GroupRun, m: nat)
    requires Members(|candidates|, group) && (forall k | k in group :: k !in outcomes) && m in outcomes
    ensures var next := GroupOutcomes(candidates, outcomes, group, run); m in next && next[m] == outcomes[m]
  {
    GroupOutcomesAreTotal(candidates, outcomes, group, run);
  }

  /** Every candidate with a nonce is told the verdict of its own group. */
  lemma {:induction false} OutcomesAreVerdicts(candidates: seq<Candidate>, scope: Text, groups: seq<seq<nat>>,
                                               runs: nat -> GroupRun, n: nat)
    requires Grouping(candidates, scope, groups) && n <= |groups|
    requires forall g | 0 <= g < |groups| :: Consumable(candidates, groups[g])
    ensures forall m: nat, g: nat | g < n && Placed(groups, m, g) ::
              && m < |candidates| && m in OutcomesOf(candidates, groups, runs, n)
              && OutcomesOf(candidates, groups, runs, n)[m] == Verdict(candidates[m], runs(g))
  {
    hide Grouping, Progress, GroupOutcomes, Verdict;
    if n > 0 {
      var before := OutcomesOf(candidates, groups, runs, n - 1);
      OutcomesAreVerdicts(candidates, scope, groups, runs, n - 1);
      OutcomesProgress(candidates, scope, groups, runs, n - 1);
      assert Consumable(candidates, groups[n - 1]);
      NotYet(candidates, scope, groups, runs, n - 1, before);
      GroupVerdicts(candidates, before, groups[n - 1], runs(n - 1));
      forall m: nat, g: nat | g < n && Placed(groups, m, g)
        ensures m < |candidates| && m in OutcomesOf(candidates, groups, runs, n)
        ensures OutcomesOf(candidates, groups, runs, n)[m] == Verdict(candidates[m], runs(g))
      {
        if g < n - 1 {
          KeepsEarlier(candidates, before, groups[n - 1], runs(n - 1), m);
        }
      }
    }
  }

  /**
   * The whole of grouped consumption: whatever the gates and the store answer, every candidate gets
   * exactly one outcome; it is `Optional` for exactly the candidates without a nonce and `Granted`
   * for exactly those whose own group was accepted while their window was open at both samples. The
   * store is asked once for each group that is dispatched with a member ready, and nothing else.
   */
  method ConsumeCandidateGroups(log: StoreLog, candidates: seq<Candidate>, scope: Text, runs: nat -> GroupRun)
    returns (outcomes: map<nat, ReplayOutcome>, groups: seq<seq<nat>>)
    modifies log
    ensures Grouping(candidates, scope, groups)
    ensures forall g | 0 <= g < |groups| :: Consumable(candidates, groups[g])
    ensures outcomes == OutcomesOf(candidates, groups, runs, |groups|)
    ensures log.calls == old(log.calls) + CallsOf(candidates, scope, groups, runs, |groups|)
    ensures forall m: nat :: m in outcomes <==> m < |candidates|
    ensures forall m | 0 <= m < |candidates| :: outcomes[m] == Optional <==> candidates[m].nonce.None?
    ensures forall m: nat, g: nat | Placed(groups, m, g) :: m < |candidates|
              && (outcomes[m] == Granted <==> Passed(candidates[m], runs(g)))
  {
    hide CallOf, GroupOutcomes, Grouping, Progress, Consumable;
    outcomes, groups := GroupCandidates(candidates, scope);
    ProgressStarts(candidates, groups, runs, outcomes);
    GroupsAreConsumable(candidates, scope, groups);
    for g := 0 to |groups|
      invariant Progress(candidates, groups, runs, g, outcomes)
      invariant outcomes == OutcomesOf(candidates, groups, runs, g)
      invariant log.calls == old(log.calls) + CallsOf(candidates, scope, groups, runs, g)
    {
      ProgressAdvances(candidates, scope, groups, runs, g, outcomes);
      outcomes := ConsumeOneGroup(log, candidates, scope, outcomes, groups[g], runs(g));
    }
    ProgressEnds(candidates, scope, groups, runs, outcomes);
  }
}
