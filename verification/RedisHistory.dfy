/** Runs of the replay script that nothing disturbs: no second quarantine, no shortened record. */
module RedisHistory {
  import opened Basics
  import opened Digits
  import opened RedisScript

  /** One execution of the script. */
  datatype Call = Call(args: Args, time: Time, tooLarge: bool)

  function Instant(t: Time): nat { t.seconds * 1_000_000 + t.microseconds }

  predicate ClockReading(t: Time) { t.microseconds < 1_000_000 }

  /** The database after a sequence of calls. */
  function After(db: Db, calls: seq<Call>): Db
    decreases |calls|
  {
    if calls == [] then db
    else
      var last := calls[|calls| - 1];
      Run(After(db, calls[..|calls| - 1]), last.args, last.time, last.tooLarge).0
  }

  /** A tuple that passes all of the script's own validation from `base` on, under one configuration. */
  ghost predicate Intact(db: Db, config: Args, base: nat, keyOf: Text -> Text) {
    && ArgsOk(config)
    && Validated(db, base).Some?
    && (var d := db.state.document;
        && d.horizon == Some(config.horizon) && d.capacity == Some(config.capacity) && d.quota == Some(config.quota)
        && d.records.Listed?
        && |d.records.list| <= Integer(config.capacity).value
        && RecordsOk(d.records.list)
        && forall i | 0 <= i < |d.records.list| :: KeyMatches(d.records.list[i], keyOf))
  }

  /** The encoded identity contains the thumbprint, so it determines it. */
  ghost predicate KeyMatches(r: Record, keyOf: Text -> Text) {
    r.Record? && r.identity.Some? && r.thumbprint.Some? && r.thumbprint.value == keyOf(r.identity.value)
  }

  /** A call of an adapter configured like `config`. */
  ghost predicate Belongs(c: Call, config: Args, keyOf: Text -> Text) {
    && c.args.horizon == config.horizon && c.args.capacity == config.capacity && c.args.quota == config.quota
    && (c.args.mode.Consume? ==> c.args.thumbprint == keyOf(c.args.identity))
    && ClockReading(c.time)
  }

  ghost predicate Ordered(calls: seq<Call>) {
    forall i, j | 0 <= i < j < |calls| :: Instant(calls[i].time) <= Instant(calls[j].time)
  }

  lemma LaterReadsLater(a: Time, b: Time)
    requires ClockReading(a) && ClockReading(b) && Instant(a) <= Instant(b)
    ensures Now(a) <= Now(b) && DeadlineBase(a) <= DeadlineBase(b)
    ensures Now(a) <= DeadlineBase(a) <= Now(a) + 1
  {
  }

  /** Rounding up when writing and down when reading never loses a microsecond of the duration. */
  lemma RoundingKeepsTheDuration(written: Time, read: Time, duration: nat)
    requires ClockReading(written) && ClockReading(read)
    requires Instant(read) < Instant(written) + 1000 * duration
    ensures Now(read) < DeadlineBase(written) + duration
  {
  }

  /** Everything the quarantine branch writes passes validation under the configuration that wrote it. */
  lemma QuarantineIsIntact(a: Args, base: nat, keyOf: Text -> Text)
    requires ArgsOk(a) && TimeFits(a, base)
    ensures Intact(QuarantineDb(a, base), a, base, keyOf)
    ensures Integer(QuarantineDb(a, base).quarantineUntil.text) == Some(base + Integer(a.horizon).value)
  {
    hide Decimal, Parse, Pow10;
    IntegerDecimal(base);
    IntegerDecimal(base + Integer(a.horizon).value);
    IntegerText(base + Integer(a.horizon).value);
  }

  lemma IntegerText(n: nat)
    requires n <= MAX_SAFE
    ensures |Decimal(n)| <= 16
  {
    Pow10Values();
    DecimalLength(n, 16);
  }

  lemma IntactLater(db: Db, config: Args, base: nat, later: nat, keyOf: Text -> Text)
    requires Intact(db, config, base, keyOf) && base <= later
    ensures Intact(db, config, later, keyOf)
  {
  }

  lemma IntactScans(db: Db, config: Args, base: nat, keyOf: Text -> Text, c: Call)
    requires Intact(db, config, base, keyOf) && Belongs(c, config, keyOf)
    ensures ScanAll(db.state.document.records.list, c.args, Now(c.time)).Some?
  {
    ScanSucceeds(db.state.document.records.list, c.args, Now(c.time));
  }

  /** The records written on acceptance: still distinct, well formed and within capacity. */
  lemma GrownRecordsAreOk(list: seq<Record>, a: Args, now: nat, base: nat, keyOf: Text -> Text)
    requires ArgsOk(a) && a.mode.Consume? && TimeFits(a, base)
    requires RecordsOk(list) && forall i | 0 <= i < |list| :: KeyMatches(list[i], keyOf)
    requires ScanAll(list, a, now).Some? && !ScanAll(list, a, now).value.replayed
    requires a.thumbprint == keyOf(a.identity)
    ensures var grown := ScanAll(list, a, now).value.live + [NewRecord(a, base)];
            RecordsOk(grown) && forall i | 0 <= i < |grown| :: KeyMatches(grown[i], keyOf)
  {
    var live := ScanAll(list, a, now).value.live;
    LiveStaysOk(list, a, now);
    ScanKeepsLive(list, a, now);
    IntegerDecimal(base + Integer(a.duration).value);
    var grown := live + [NewRecord(a, base)];
    forall i | 0 <= i < |grown| ensures RecordOk(grown[i]) && KeyMatches(grown[i], keyOf) {
      if i < |live| { assert live[i] in list; }
    }
    forall i, j | 0 <= i < j < |grown| ensures grown[i].identity != grown[j].identity {
      assert grown[i] == live[i] && live[i] in live;
      if j < |live| { assert grown[j] == live[j]; }
    }
  }

  lemma HeaderStaysOk(d: Document, untilText: Text, base: nat, later: nat, records: Records)
    requires HeaderOk(d, untilText, base) && base <= later <= MAX_SAFE && !records.NotATable?
    ensures HeaderOk(d.(records := records, lastTime := Some(Decimal(later))), untilText, later)
  {
    IntegerDecimal(later);
  }

  /** The accepted document is again intact. */
  lemma AcceptedIsIntact(db: Db, config: Args, base: nat, keyOf: Text -> Text, c: Call)
    requires Intact(db, config, base, keyOf) && Belongs(c, config, keyOf) && base <= DeadlineBase(c.time)
    requires Run(db, c.args, c.time, c.tooLarge).1 == AcceptedReply
    ensures Intact(Run(db, c.args, c.time, c.tooLarge).0, config, DeadlineBase(c.time), keyOf)
  {
    var d := db.state.document;
    var at := DeadlineBase(c.time);
    IntactScans(db, config, base, keyOf, c);
    GrownRecordsAreOk(d.records.list, c.args, Now(c.time), at, keyOf);
    var grown := ScanAll(d.records.list, c.args, Now(c.time)).value.live + [NewRecord(c.args, at)];
    HeaderStaysOk(d, db.quarantineUntil.text, base, at, Listed(grown));
    assert Run(db, c.args, c.time, c.tooLarge).0
           == db.(state := Decoded(d.(records := Listed(grown), lastTime := Some(Decimal(at)))));
  }

  /**
   * One undisturbed call: the markers are untouched, the tuple stays intact, and the reply is
   * `quarantine` only while the deadline already stored has not been reached.
   */
  lemma IntactStep(db: Db, config: Args, base: nat, keyOf: Text -> Text, c: Call)
    requires Intact(db, config, base, keyOf) && Belongs(c, config, keyOf) && base <= DeadlineBase(c.time)
    ensures var (next, reply) := Run(db, c.args, c.time, c.tooLarge);
            && next.epoch == db.epoch && next.quarantineUntil == db.quarantineUntil
            && Intact(next, config, DeadlineBase(c.time), keyOf)
            && reply != MismatchReply
            && (reply == QuarantineReply ==> next == db && Now(c.time) < Integer(db.quarantineUntil.text).value)
  {
    hide TimeFits, Integer, QuarantineDb, RecordsOk, KeyMatches, ScanAll, HeaderOk, DeadlineBase, Now;
    IntactLater(db, config, base, DeadlineBase(c.time), keyOf);
    if ArgsOk(c.args) && TimeFits(c.args, DeadlineBase(c.time)) {
      IntactScans(db, config, base, keyOf, c);
      if Run(db, c.args, c.time, c.tooLarge).1 == AcceptedReply {
        AcceptedIsIntact(db, config, base, keyOf, c);
      }
    }
  }

  /** Over any undisturbed run the epoch and the quarantine deadline never change again. */
  lemma {:induction false} UndisturbedNeverRequarantines(db: Db, config: Args, base: nat, keyOf: Text -> Text, calls: seq<Call>)
    requires Intact(db, config, base, keyOf)
    requires forall i | 0 <= i < |calls| :: Belongs(calls[i], config, keyOf) && base <= DeadlineBase(calls[i].time)
    requires Ordered(calls)
    ensures After(db, calls).epoch == db.epoch && After(db, calls).quarantineUntil == db.quarantineUntil
    ensures Intact(After(db, calls), config, if calls == [] then base else DeadlineBase(calls[|calls| - 1].time), keyOf)
    decreases |calls|
  {
    if calls != [] {
      var init, last := calls[..|calls| - 1], calls[|calls| - 1];
      UndisturbedNeverRequarantines(db, config, base, keyOf, init);
      if init != [] { LaterReadsLater(init[|init| - 1].time, last.time); }
      IntactStep(After(db, init), config, if init == [] then base else DeadlineBase(init[|init| - 1].time), keyOf, last);
    }
  }

  ghost predicate Holds(db: Db, r: Record) {
    db.state.Decoded? && db.state.document.records.Listed? && r in db.state.document.records.list
  }

  lemma LiveRecordStays(db: Db, config: Args, base: nat, keyOf: Text -> Text, c: Call, r: Record)
    requires Intact(db, config, base, keyOf) && Belongs(c, config, keyOf) && base <= DeadlineBase(c.time)
    requires Holds(db, r) && RecordOk(r) && Alive(r, Now(c.time))
    ensures Holds(Run(db, c.args, c.time, c.tooLarge).0, r)
    ensures c.args.mode.Consume? && r.identity == Some(c.args.identity) ==>
              Run(db, c.args, c.time, c.tooLarge).1 in {ReplayedReply, UnavailableReply, QuarantineReply}
  {
    if ArgsOk(c.args) && TimeFits(c.args, DeadlineBase(c.time)) {
      IntactScans(db, config, base, keyOf, c);
      ScanKeepsLive(db.state.document.records.list, c.args, Now(c.time));
    }
  }

  /**
   * A record stays, deadline and all, through every undisturbed run of calls made while it is live.
   */
  lemma {:induction false} LiveRecordSurvives(db: Db, config: Args, base: nat, keyOf: Text -> Text, calls: seq<Call>, r: Record)
    requires Intact(db, config, base, keyOf)
    requires forall i | 0 <= i < |calls| :: Belongs(calls[i], config, keyOf) && base <= DeadlineBase(calls[i].time)
    requires Ordered(calls)
    requires Holds(db, r) && RecordOk(r)
    requires forall i | 0 <= i < |calls| :: Alive(r, Now(calls[i].time))
    ensures Holds(After(db, calls), r)
    decreases |calls|
  {
    if calls != [] {
      var init, last := calls[..|calls| - 1], calls[|calls| - 1];
      LiveRecordSurvives(db, config, base, keyOf, init, r);
      UndisturbedNeverRequarantines(db, config, base, keyOf, init);
      if init != [] { LaterReadsLater(init[|init| - 1].time, last.time); }
      LiveRecordStays(After(db, init), config, if init == [] then base else DeadlineBase(init[|init| - 1].time), keyOf, last, r);
    }
  }

  /** Calls that follow `first` in time and precede `limit`. */
  ghost predicate Between(calls: seq<Call>, config: Args, keyOf: Text -> Text, first: Time, limit: Time) {
    && Ordered(calls)
    && forall i | 0 <= i < |calls| ::
         Belongs(calls[i], config, keyOf) && Instant(first) <= Instant(calls[i].time) <= Instant(limit)
  }

  function LastBase(base: nat, calls: seq<Call>): nat {
    if calls == [] then base else DeadlineBase(calls[|calls| - 1].time)
  }

  /** The record written at acceptance is still there after calls made within its duration. */
  lemma {:induction false} NewRecordSurvives(start: Db, config: Args, keyOf: Text -> Text, r: Record, written: Time, duration: nat,
                                             between: seq<Call>, limit: Time)
    requires Intact(start, config, DeadlineBase(written), keyOf)
    requires Holds(start, r) && RecordOk(r) && IntegerField(r.deadline).value == DeadlineBase(written) + duration
    requires ClockReading(written) && ClockReading(limit)
    requires Between(between, config, keyOf, written, limit)
    requires Instant(limit) < Instant(written) + 1000 * duration
    ensures Holds(After(start, between), r)
    ensures Intact(After(start, between), config, LastBase(DeadlineBase(written), between), keyOf)
  {
    var at := DeadlineBase(written);
    forall i | 0 <= i < |between|
      ensures at <= DeadlineBase(between[i].time) && Alive(r, Now(between[i].time))
    {
      LaterReadsLater(written, between[i].time);
      RoundingKeepsTheDuration(written, between[i].time, duration);
    }
    LiveRecordSurvives(start, config, at, keyOf, between, r);
    UndisturbedNeverRequarantines(start, config, at, keyOf, between);
  }

  lemma LastBaseIsEarlier(written: Time, config: Args, keyOf: Text -> Text, between: seq<Call>, limit: Time)
    requires ClockReading(written) && ClockReading(limit) && Instant(written) <= Instant(limit)
    requires Between(between, config, keyOf, written, limit)
    ensures LastBase(DeadlineBase(written), between) <= DeadlineBase(limit)
  {
    LaterReadsLater(written, limit);
    if between != [] { LaterReadsLater(between[|between| - 1].time, limit); }
  }

  /** The record of an acceptance, as the next database holds it. */
  lemma AcceptedHolds(db: Db, c: Call)
    requires Run(db, c.args, c.time, c.tooLarge).1 == AcceptedReply
    ensures var at := DeadlineBase(c.time);
            && ArgsOk(c.args) && c.args.mode.Consume?
            && Holds(Run(db, c.args, c.time, c.tooLarge).0, NewRecord(c.args, at)) && RecordOk(NewRecord(c.args, at))
            && IntegerField(NewRecord(c.args, at).deadline).value == at + Integer(c.args.duration).value
  {
    var at := DeadlineBase(c.time);
    hide Validated, ScanAll, Now, DeadlineBase;
    IntegerDecimal(at + Integer(c.args.duration).value);
    var next := Run(db, c.args, c.time, c.tooLarge).0;
    var records := next.state.document.records.list;
    assert records[|records| - 1] == NewRecord(c.args, at);
  }

  /**
   * Accepted at an instant with a duration, an identity is not accepted again in any undisturbed
   * run before that whole duration has passed, to the microsecond.
   */
  lemma {:induction false} AcceptedIsNotAcceptedAgain(db: Db, config: Args, base: nat, keyOf: Text -> Text,
                                                      first: Call, between: seq<Call>, second: Call)
    requires Intact(db, config, base, keyOf) && base <= DeadlineBase(first.time)
    requires first.args.mode.Consume? && second.args.mode.Consume? && first.args.identity == second.args.identity
    requires Run(db, first.args, first.time, first.tooLarge).1 == AcceptedReply
    requires Belongs(first, config, keyOf) && Belongs(second, config, keyOf)
    requires Instant(first.time) <= Instant(second.time)
    requires Between(between, config, keyOf, first.time, second.time)
    requires Instant(second.time) < Instant(first.time) + 1000 * Integer(first.args.duration).value
    ensures Run(After(Run(db, first.args, first.time, first.tooLarge).0, between), second.args, second.time, second.tooLarge).1
            != AcceptedReply
  {
    hide Run, Intact, Holds, RecordOk, Integer, Between, DeadlineBase, Now;
    var start := Run(db, first.args, first.time, first.tooLarge).0;
    AcceptedHolds(db, first);
    var at, duration := DeadlineBase(first.time), Integer(first.args.duration).value;
    var r := NewRecord(first.args, at);
    AcceptedIsIntact(db, config, base, keyOf, first);
    NewRecordSurvives(start, config, keyOf, r, first.time, duration, between, second.time);
    LastBaseIsEarlier(first.time, config, keyOf, between, second.time);
    RoundingKeepsTheDuration(first.time, second.time, duration);
    LiveRecordStays(After(start, between), config, LastBase(at, between), keyOf, second, r);
  }
}
