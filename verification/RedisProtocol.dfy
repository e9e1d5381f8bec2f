/** Replay protection over the shared server, with history that can be lost. */
module RedisProtocol {
  import opened Basics
  import TP = TimePolicy
  import Mem = MemoryReplayStore
  import opened CR = CandidateReplay
  import opened Digits
  import opened RS = RedisScript
  import opened RH = RedisHistory

  function Seconds(clock: nat): nat { clock / 1_000_000 }

  function TimeOf(clock: nat): Time { Time(clock / 1_000_000, clock % 1_000_000) }

  /** One consume of one candidate; the deadline may exceed its own when it shares a group. */
  datatype Request = Request(scope: Text, candidate: Candidate, dispatched: nat, retainUntil: int)

  datatype Invocation =
    | Sent(request: Request)
    | Executed(request: Request, reply: RS.Reply)
    | Verified(request: Request, at: nat)
    | Dropped

  datatype Acceptance = Acceptance(holder: nat, request: Request, executed: nat)

  datatype State = State(db: Db, clock: nat, invocations: map<nat, Invocation>, log: seq<Acceptance>)

  /** What an adapter is configured with, and the epoch it proposes with one command. */
  datatype Adapter = Adapter(horizon: Text, capacity: Text, quota: Text, proposedEpoch: Text)

  /**
   * One non-regressing clock of microseconds serves verifiers and server. The adversary chooses the
   * interleaving, delays, configurations, dropped replies, oversized states and losses of any key.
   */
  datatype Action =
    | Advance(elapsed: nat)
    | Dispatch(id: nat, scope: Text, candidate: Candidate, extra: nat)
    | Execute(id: nat, adapter: Adapter, tooLarge: bool)
    | SetUp(adapter: Adapter, tooLarge: bool)
    | Recheck(id: nat, dropped: bool)
    | Lose(epoch: bool, quarantineUntil: bool, state: bool)

  /** The command of one consume: the duration in milliseconds, from the dispatch sample to the deadline. */
  function ConsumeArgs(encode: Mem.Identity -> Text, adapter: Adapter, r: Request): Args
    requires r.candidate.nonce.Some? && r.dispatched < r.retainUntil
  {
    Args(Consume, adapter.horizon, adapter.capacity, adapter.quota, adapter.proposedEpoch,
         encode(IdentityOf(r.scope, r.candidate)), r.candidate.thumbprint, Decimal((r.retainUntil - r.dispatched) * 1000))
  }

  function SetupArgs(adapter: Adapter): Args {
    Args(Setup, adapter.horizon, adapter.capacity, adapter.quota, adapter.proposedEpoch, [], [], [48])
  }

  predicate Sendable(r: Request) {
    r.candidate.nonce.Some? && r.dispatched < r.retainUntil && (r.retainUntil - r.dispatched) * 1000 <= MAX_SAFE
  }

  function Next(encode: Mem.Identity -> Text, s: State, a: Action): State {
    match a
    case Advance(elapsed) => s.(clock := s.clock + elapsed)
    case Dispatch(id, scope, c, extra) =>
      var now := Seconds(s.clock);
      if id in s.invocations then s
      else if c.nonce.None? || Admit(c, now).Err? then s.(invocations := s.invocations[id := Dropped])
      else
        var r := Request(scope, c, now, Admit(c, now).value + extra);
        s.(invocations := s.invocations[id := if Sendable(r) then Sent(r) else Dropped])
    case Execute(id, adapter, tooLarge) =>
      if id !in s.invocations || !s.invocations[id].Sent? || !Sendable(s.invocations[id].request) then s
      else
        var r := s.invocations[id].request;
        var (db, reply) := RS.Run(s.db, ConsumeArgs(encode, adapter, r), TimeOf(s.clock), tooLarge);
        s.(db := db, invocations := s.invocations[id := Executed(r, reply)],
           log := if reply == AcceptedReply then s.log + [Acceptance(id, r, s.clock)] else s.log)
    case SetUp(adapter, tooLarge) =>
      s.(db := RS.Run(s.db, SetupArgs(adapter), TimeOf(s.clock), tooLarge).0)
    case Recheck(id, dropped) =>
      if id !in s.invocations || !s.invocations[id].Executed? then s
      else
        var r := s.invocations[id].request;
        var passed := !dropped && s.invocations[id].reply == AcceptedReply
                      && TP.Check(r.candidate.policy, r.candidate.created, r.candidate.expires, Seconds(s.clock)).None?;
        s.(invocations := s.invocations[id := if passed then Verified(r, Seconds(s.clock)) else Dropped])
    case Lose(epoch, quarantineUntil, state) =>
      s.(db := Db(if epoch then Missing else s.db.epoch,
                  if quarantineUntil then Missing else s.db.quarantineUntil,
                  if state then StateMissing else s.db.state))
  }

  function Run(encode: Mem.Identity -> Text, s: State, actions: seq<Action>): State
    decreases |actions|
  {
    if actions == [] then s
    else Next(encode, Run(encode, s, actions[..|actions| - 1]), actions[|actions| - 1])
  }

  /** Every command of the run is configured with a quarantine of at least `bound` seconds. */
  ghost predicate Generous(a: Action, bound: nat) {
    (a.Execute? || a.SetUp?) && Integer(a.adapter.horizon).Some? ==> bound * 1000 <= Integer(a.adapter.horizon).value
  }

  // ---------------------------------------------------------------- the invariant

  function Deadline(a: Acceptance): int {
    DeadlineBase(TimeOf(a.executed)) + (a.request.retainUntil - a.request.dispatched) * 1000
  }

  function Reopens(a: Acceptance, bound: nat): int { DeadlineBase(TimeOf(a.executed)) + bound * 1000 }

  ghost function IdentityText(encode: Mem.Identity -> Text, r: Request): Text
    requires r.candidate.nonce.Some?
  {
    encode(IdentityOf(r.scope, r.candidate))
  }

  predicate HistoryLost(db: Db) { db.epoch.Missing? || db.quarantineUntil.Missing? || db.state.StateMissing? }

  ghost predicate RecordsAcceptance(encode: Mem.Identity -> Text, db: Db, a: Acceptance) {
    && a.request.candidate.nonce.Some?
    && db.state.Decoded? && db.state.document.records.Listed?
    && exists r :: r in db.state.document.records.list && r.Record?
                   && r.identity == Some(IdentityText(encode, a.request))
                   && IntegerField(r.deadline).Some? && IntegerField(r.deadline).value == Deadline(a)
  }

  /** Why an accepted identity cannot be accepted again too early. */
  ghost predicate Guarded(encode: Mem.Identity -> Text, bound: nat, db: Db, now: nat, a: Acceptance) {
    || HistoryLost(db)
    || RecordsAcceptance(encode, db, a)
    || Deadline(a) <= now
    || (db.quarantineUntil.Value? && Integer(db.quarantineUntil.text).Some?
        && Reopens(a, bound) <= Integer(db.quarantineUntil.text).value)
  }

  ghost predicate AcceptanceOk(a: Acceptance, clock: nat) {
    && Sendable(a.request)
    && a.request.dispatched * 1_000_000 <= a.executed <= clock
    && Admit(a.request.candidate, a.request.dispatched).Ok?
    && Admit(a.request.candidate, a.request.dispatched).value <= a.request.retainUntil
  }

  /** A later acceptance of the same identity starts after the deadline or after a full horizon. */
  ghost predicate Apart(encode: Mem.Identity -> Text, bound: nat, a: Acceptance, b: Acceptance) {
    a.request.candidate.nonce.Some? && b.request.candidate.nonce.Some?
    && IdentityText(encode, a.request) == IdentityText(encode, b.request)
    ==> Min(Deadline(a), Reopens(a, bound)) <= Now(TimeOf(b.executed))
  }

  ghost predicate RequestOk(r: Request, clock: nat) {
    && Sendable(r)
    && r.dispatched * 1_000_000 <= clock
    && Admit(r.candidate, r.dispatched).Ok?
    && Admit(r.candidate, r.dispatched).value <= r.retainUntil
  }

  ghost predicate Backed(log: seq<Acceptance>, id: nat, r: Request, at: nat) {
    exists i :: 0 <= i < |log| && log[i].holder == id && log[i].request == r && Seconds(log[i].executed) <= at
  }

  ghost predicate InvocationOk(inv: Invocation, id: nat, clock: nat, log: seq<Acceptance>) {
    match inv
    case Sent(r) => RequestOk(r, clock)
    case Executed(r, reply) => reply == AcceptedReply ==> Backed(log, id, r, Seconds(clock))
    case Verified(r, at) =>
      && Backed(log, id, r, at)
      && TP.Check(r.candidate.policy, r.candidate.created, r.candidate.expires, at).None?
    case Dropped => true
  }

  ghost predicate Inv(encode: Mem.Identity -> Text, bound: nat, s: State) {
    && (forall i | 0 <= i < |s.log| :: AcceptanceOk(s.log[i], s.clock))
    && (forall i | 0 <= i < |s.log| :: Guarded(encode, bound, s.db, Now(TimeOf(s.clock)), s.log[i]))
    && (forall i, j | 0 <= i < j < |s.log| :: Apart(encode, bound, s.log[i], s.log[j]))
    && (forall id | id in s.invocations :: InvocationOk(s.invocations[id], id, s.clock, s.log))
  }

  lemma ClockIsMonotone(a: nat, b: nat)
    requires a <= b
    ensures Seconds(a) <= Seconds(b)
    ensures Now(TimeOf(a)) <= Now(TimeOf(b))
    ensures DeadlineBase(TimeOf(a)) <= DeadlineBase(TimeOf(b))
  {
    LaterReadsLater(TimeOf(a), TimeOf(b));
  }

  /** The accepted records: the live ones, and the new one. */
  lemma AcceptedMeans(db: Db, a: Args, t: Time, tooLarge: bool)
    requires RS.Run(db, a, t, tooLarge).1 == AcceptedReply
    ensures !HistoryLost(db) && a.mode.Consume? && ArgsOk(a)
    ensures db.quarantineUntil.Value? && Integer(db.quarantineUntil.text).Some?
            && Integer(db.quarantineUntil.text).value <= Now(t)
    ensures db.state.Decoded? && db.state.document.records.Listed?
    ensures ScanAll(db.state.document.records.list, a, Now(t)).Some?
    ensures !ScanAll(db.state.document.records.list, a, Now(t)).value.replayed
    ensures RS.Run(db, a, t, tooLarge).0
            == AcceptedDb(db, ScanAll(db.state.document.records.list, a, Now(t)).value.live, a, DeadlineBase(t))
  {
  }

  /** A document rewritten on acceptance keeps every acceptance guarded. */
  lemma AcceptKeepsGuard(encode: Mem.Identity -> Text, bound: nat, db: Db, a: Args, t: Time, tooLarge: bool, past: Acceptance)
    requires RS.Run(db, a, t, tooLarge).1 == AcceptedReply
    requires Guarded(encode, bound, db, Now(t), past)
    ensures Guarded(encode, bound, RS.Run(db, a, t, tooLarge).0, Now(t), past)
    ensures past.request.candidate.nonce.Some? && a.identity == IdentityText(encode, past.request) ==>
              Min(Deadline(past), Reopens(past, bound)) <= Now(t)
  {
    AcceptedMeans(db, a, t, tooLarge);
    var list := db.state.document.records.list;
    ScanKeepsLive(list, a, Now(t));
    ScanImpliesOk(list, a, Now(t));
    if RecordsAcceptance(encode, db, past) && Deadline(past) > Now(t) {
      var r :| r in list && r.Record? && r.identity == Some(IdentityText(encode, past.request))
               && IntegerField(r.deadline).Some? && IntegerField(r.deadline).value == Deadline(past);
      assert RecordOk(r) && Alive(r, Now(t));
      assert r in ScanAll(list, a, Now(t)).value.live;
      var after := RS.Run(db, a, t, tooLarge).0;
      assert r in after.state.document.records.list;
      assert RecordsAcceptance(encode, after, past);
    }
  }

  /** Any command keeps every earlier acceptance guarded. */
  lemma CommandKeepsGuard(encode: Mem.Identity -> Text, bound: nat, db: Db, a: Args, clock: nat, tooLarge: bool, past: Acceptance)
    requires Integer(a.horizon).Some? ==> bound * 1000 <= Integer(a.horizon).value
    requires past.executed <= clock
    requires Guarded(encode, bound, db, Now(TimeOf(clock)), past)
    ensures Guarded(encode, bound, RS.Run(db, a, TimeOf(clock), tooLarge).0, Now(TimeOf(clock)), past)
  {
    var t := TimeOf(clock);
    var (after, reply) := RS.Run(db, a, t, tooLarge);
    if reply == AcceptedReply {
      AcceptKeepsGuard(encode, bound, db, a, t, tooLarge, past);
    } else if after != db {
      ClockIsMonotone(past.executed, clock);
      assert after == QuarantineDb(a, DeadlineBase(t));
      IntegerDecimal(DeadlineBase(t) + Integer(a.horizon).value);
    }
  }

  lemma LaterKeepsGuard(encode: Mem.Identity -> Text, bound: nat, db: Db, now: nat, later: nat, past: Acceptance)
    requires Guarded(encode, bound, db, now, past) && now <= later
    ensures Guarded(encode, bound, db, later, past)
  {
  }

  lemma InvocationLater(inv: Invocation, id: nat, clock: nat, later: nat, log: seq<Acceptance>, more: seq<Acceptance>)
    requires InvocationOk(inv, id, clock, log) && clock <= later
    requires more == log || (|more| == |log| + 1 && more[..|log|] == log)
    ensures InvocationOk(inv, id, later, more)
  {
    ClockIsMonotone(clock, later);
    forall r, at: nat, until: nat | Backed(log, id, r, at) && at <= until ensures Backed(more, id, r, until) {
      var i :| 0 <= i < |log| && log[i].holder == id && log[i].request == r && Seconds(log[i].executed) <= at;
      assert more[i] == log[i];
    }
  }

  lemma QuietKeepsInv(encode: Mem.Identity -> Text, bound: nat, s: State, a: Action)
    requires Inv(encode, bound, s) && (a.Advance? || a.Lose?)
    requires a.Lose? ==> a.epoch || a.quarantineUntil || a.state
    ensures Inv(encode, bound, Next(encode, s, a))
  {
    var t := Next(encode, s, a);
    ClockIsMonotone(s.clock, t.clock);
    forall i | 0 <= i < |t.log| ensures Guarded(encode, bound, t.db, Now(TimeOf(t.clock)), t.log[i]) {
      if a.Advance? {
        LaterKeepsGuard(encode, bound, s.db, Now(TimeOf(s.clock)), Now(TimeOf(t.clock)), s.log[i]);
      }
    }
    forall id | id in t.invocations ensures InvocationOk(t.invocations[id], id, t.clock, t.log) {
      InvocationLater(s.invocations[id], id, s.clock, t.clock, s.log, s.log);
    }
  }

  lemma LocalKeepsInv(encode: Mem.Identity -> Text, bound: nat, s: State, a: Action)
    requires Inv(encode, bound, s) && (a.Dispatch? || a.Recheck?)
    ensures Inv(encode, bound, Next(encode, s, a))
  {
  }

  lemma SetUpKeepsInv(encode: Mem.Identity -> Text, bound: nat, s: State, a: Action)
    requires Inv(encode, bound, s) && a.SetUp? && Generous(a, bound)
    ensures Inv(encode, bound, Next(encode, s, a))
  {
    forall i | 0 <= i < |s.log|
      ensures Guarded(encode, bound, Next(encode, s, a).db, Now(TimeOf(s.clock)), s.log[i])
    {
      CommandKeepsGuard(encode, bound, s.db, SetupArgs(a.adapter), s.clock, a.tooLarge, s.log[i]);
    }
  }

  lemma ExecuteKeepsInv(encode: Mem.Identity -> Text, bound: nat, s: State, a: Action)
    requires Inv(encode, bound, s) && a.Execute? && Generous(a, bound)
    requires a.id in s.invocations && s.invocations[a.id].Sent? && Sendable(s.invocations[a.id].request)
    ensures Inv(encode, bound, Next(encode, s, a))
  {
    hide RS.Run, Guarded, Deadline, Reopens, RecordsAcceptance;
    var t := Next(encode, s, a);
    var r := s.invocations[a.id].request;
    var args := ConsumeArgs(encode, a.adapter, r);
    var (db, reply) := RS.Run(s.db, args, TimeOf(s.clock), a.tooLarge);
    forall i | 0 <= i < |s.log|
      ensures Guarded(encode, bound, db, Now(TimeOf(s.clock)), s.log[i])
      ensures reply == AcceptedReply ==> Apart(encode, bound, s.log[i], Acceptance(a.id, r, s.clock))
    {
      CommandKeepsGuard(encode, bound, s.db, args, s.clock, a.tooLarge, s.log[i]);
      if reply == AcceptedReply {
        AcceptKeepsGuard(encode, bound, s.db, args, TimeOf(s.clock), a.tooLarge, s.log[i]);
      }
    }
    if reply == AcceptedReply {
      NewAcceptanceIsGuarded(encode, bound, s, a);
      assert t.log[|s.log|] == Acceptance(a.id, r, s.clock);
      assert t.log[..|s.log|] == s.log;
    }
    forall id | id in t.invocations ensures InvocationOk(t.invocations[id], id, t.clock, t.log) {
      if id != a.id {
        InvocationLater(s.invocations[id], id, s.clock, t.clock, s.log, t.log);
      } else if reply == AcceptedReply {
        assert Backed(t.log, id, r, Seconds(s.clock));
      }
    }
  }

  lemma NewAcceptanceIsGuarded(encode: Mem.Identity -> Text, bound: nat, s: State, a: Action)
    requires a.Execute? && a.id in s.invocations && s.invocations[a.id].Sent? && Sendable(s.invocations[a.id].request)
    requires var r := s.invocations[a.id].request;
             RS.Run(s.db, ConsumeArgs(encode, a.adapter, r), TimeOf(s.clock), a.tooLarge).1 == AcceptedReply
    ensures Guarded(encode, bound, Next(encode, s, a).db, Now(TimeOf(s.clock)),
                    Acceptance(a.id, s.invocations[a.id].request, s.clock))
  {
    var r := s.invocations[a.id].request;
    var args := ConsumeArgs(encode, a.adapter, r);
    var db := Next(encode, s, a).db;
    IntegerDecimal((r.retainUntil - r.dispatched) * 1000);
    NewRecordIsWritten(s.db, args, TimeOf(s.clock), a.tooLarge);
    var entry := Acceptance(a.id, r, s.clock);
    var written := NewRecord(args, DeadlineBase(TimeOf(s.clock)));
    assert written.Record? && written.identity == Some(IdentityText(encode, entry.request));
    assert IntegerField(written.deadline).value == Deadline(entry);
    assert RecordsAcceptance(encode, db, entry);
  }

  lemma NewRecordIsWritten(db: Db, a: Args, t: Time, tooLarge: bool)
    requires RS.Run(db, a, t, tooLarge).1 == AcceptedReply
    ensures ArgsOk(a) && a.mode.Consume?
    ensures var after := RS.Run(db, a, t, tooLarge).0;
            && after.state.Decoded? && after.state.document.records.Listed?
            && NewRecord(a, DeadlineBase(t)) in after.state.document.records.list
    ensures IntegerField(NewRecord(a, DeadlineBase(t)).deadline) == Some(DeadlineBase(t) + Integer(a.duration).value)
  {
    AcceptedMeans(db, a, t, tooLarge);
    IntegerDecimal(DeadlineBase(t) + Integer(a.duration).value);
  }

  lemma StepKeepsInv(encode: Mem.Identity -> Text, bound: nat, s: State, a: Action)
    requires Inv(encode, bound, s) && Generous(a, bound)
    requires a.Lose? ==> a.epoch || a.quarantineUntil || a.state
    ensures Inv(encode, bound, Next(encode, s, a))
  {
    match a
    case Advance(_) => QuietKeepsInv(encode, bound, s, a);
    case Lose(_, _, _) => QuietKeepsInv(encode, bound, s, a);
    case Dispatch(_, _, _, _) => LocalKeepsInv(encode, bound, s, a);
    case Recheck(_, _) => LocalKeepsInv(encode, bound, s, a);
    case SetUp(_, _) => SetUpKeepsInv(encode, bound, s, a);
    case Execute(id, _, _) =>
      if Next(encode, s, a) != s && id in s.invocations && s.invocations[id].Sent? && Sendable(s.invocations[id].request) {
        ExecuteKeepsInv(encode, bound, s, a);
      }
  }

  /** A detected loss takes at least one of the three keys. */
  ghost predicate Detectable(a: Action) { a.Lose? ==> a.epoch || a.quarantineUntil || a.state }

  /** Every loss is detectable and every adapter's horizon is at least `bound`. */
  ghost predicate Admitted(actions: seq<Action>, bound: nat) {
    forall i | 0 <= i < |actions| :: Generous(actions[i], bound) && Detectable(actions[i])
  }

  lemma {:induction false} RunKeepsInv(encode: Mem.Identity -> Text, bound: nat, s: State, actions: seq<Action>)
    requires Inv(encode, bound, s)
    requires Admitted(actions, bound)
    ensures Inv(encode, bound, Run(encode, s, actions))
    decreases |actions|
  {
    if actions != [] {
      RunKeepsInv(encode, bound, s, actions[..|actions| - 1]);
      StepKeepsInv(encode, bound, Run(encode, s, actions[..|actions| - 1]), actions[|actions| - 1]);
    }
  }

  // ---------------------------------------------------------------- the theorem

  /** An empty server before any verifier has used it. */
  function Start(clock: nat): State { State(Db(Missing, Missing, StateMissing), clock, map[], []) }

  /** Some admitted run from an empty server leads to `s`. */
  ghost predicate Reachable(encode: Mem.Identity -> Text, bound: nat, s: State) {
    exists clock, actions :: Admitted(actions, bound) && s == Run(encode, Start(clock), actions)
  }

  ghost predicate VerifiedIn(s: State, id: nat, scope: Text, c: Candidate) {
    && id in s.invocations && s.invocations[id].Verified?
    && s.invocations[id].request.scope == scope && s.invocations[id].request.candidate == c
  }

  /** Of two acceptances of one signature, the later one is too late to pass its recheck. */
  lemma LaterAcceptanceFailsRecheck(encode: Mem.Identity -> Text, bound: nat, a: Acceptance, b: Acceptance,
                                    clock: nat, at: nat, c: Candidate)
    requires AcceptanceOk(a, clock) && AcceptanceOk(b, clock)
    requires Apart(encode, bound, a, b)
    requires a.request.candidate == b.request.candidate == c && a.request.scope == b.request.scope
    requires Seconds(b.executed) <= at
    requires TP.RecoveryHorizonSeconds(c.policy).Some? && TP.RecoveryHorizonSeconds(c.policy).value <= bound
    ensures TP.Check(c.policy, c.created, c.expires, at).Some?
  {
    var first := a.request.dispatched;
    assert first * 1000 <= DeadlineBase(TimeOf(a.executed));
    assert Now(TimeOf(b.executed)) / 1000 == Seconds(b.executed);
    if TP.Check(c.policy, c.created, c.expires, at).None? {
      TP.HorizonSeparatesAcceptances(c.policy, c.created, c.expires, first, at);
      TP.RetentionCoversWindow(c.policy, c.created, c.expires, first, at);
    }
  }

  /**
   * At most once through any number of losses: when every adapter's quarantine is at least the
   * recovery horizon of the policy, no signature is verified by two invocations, whichever keys are
   * lost and whenever.
   */
  lemma AtMostOnceAcrossLosses(encode: Mem.Identity -> Text, bound: nat, s: State,
                               first: nat, second: nat, scope: Text, c: Candidate)
    requires Reachable(encode, bound, s)
    requires TP.RecoveryHorizonSeconds(c.policy).Some? && TP.RecoveryHorizonSeconds(c.policy).value <= bound
    requires VerifiedIn(s, first, scope, c) && VerifiedIn(s, second, scope, c)
    ensures first == second
  {
    var clock, actions :| Admitted(actions, bound) && s == Run(encode, Start(clock), actions);
    RunKeepsInv(encode, bound, Start(clock), actions);
    var x, y := s.invocations[first], s.invocations[second];
    assert Backed(s.log, first, x.request, x.at) && Backed(s.log, second, y.request, y.at);
    var i :| 0 <= i < |s.log| && s.log[i].holder == first && s.log[i].request == x.request && Seconds(s.log[i].executed) <= x.at;
    var j :| 0 <= j < |s.log| && s.log[j].holder == second && s.log[j].request == y.request && Seconds(s.log[j].executed) <= y.at;
    if i < j {
      LaterAcceptanceFailsRecheck(encode, bound, s.log[i], s.log[j], s.clock, y.at, c);
    } else if j < i {
      LaterAcceptanceFailsRecheck(encode, bound, s.log[j], s.log[i], s.clock, x.at, c);
    }
  }
}
