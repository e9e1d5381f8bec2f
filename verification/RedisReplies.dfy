/** Which reply the replay script gives to every call, by the records themselves. */
module RedisReplies {
  import opened Basics
  import opened Digits
  import opened RedisScript

  /** The numbers the arguments of a call spell. */
  datatype Asked = Asked(horizon: nat, capacity: nat, quota: nat, duration: nat)

  /** The numbers a stored document spells, its times in milliseconds. */
  datatype Stored = Stored(detected: nat, horizon: nat, capacity: nat, quota: nat, last: nat)

  predicate UrlSafe(t: Text) {
    forall i | 0 <= i < |t| ::
      t[i] == 45 || t[i] == 95 || 48 <= t[i] <= 57 || 65 <= t[i] <= 90 || 97 <= t[i] <= 122
  }

  predicate HexEpoch(t: Text) { |t| == 32 && forall i | 0 <= i < |t| :: 48 <= t[i] <= 57 || 97 <= t[i] <= 102 }

  /** A call at `base` milliseconds that the script accepts as arguments, with the numbers it spells. */
  predicate Proper(a: Args, base: nat, q: Asked) {
    && (a.mode.Setup? || a.mode.Consume?) && HexEpoch(a.proposedEpoch)
    && a.horizon == Decimal(q.horizon) && a.capacity == Decimal(q.capacity) && a.quota == Decimal(q.quota)
    && q.horizon > 0 && q.capacity <= 10000 && q.quota <= 10000 && base + q.horizon <= 9007199254740991
    && (a.mode.Consume? ==>
          && 1 <= |a.identity| <= 4096 && UrlSafe(a.identity) && |a.thumbprint| == 43 && UrlSafe(a.thumbprint)
          && a.duration == Decimal(q.duration) && q.duration > 0 && base + q.duration <= 9007199254740991)
  }

  /** All three keys are present, agree with each other, and spell numbers that fit together at `base`. */
  predicate Intelligible(db: Db, base: nat, n: Stored) {
    && db.epoch.Value? && db.quarantineUntil.Value? && db.state.Decoded? && HexEpoch(db.epoch.text)
    && (var d := db.state.document;
        && d.version == Some([49]) && d.epoch == Some(db.epoch.text) && d.quarantineUntil == Some(db.quarantineUntil.text)
        && db.quarantineUntil.text == Decimal(n.detected + n.horizon)
        && d.detectedAt == Some(Decimal(n.detected)) && d.lastTime == Some(Decimal(n.last))
        && d.horizon == Some(Decimal(n.horizon)) && d.capacity == Some(Decimal(n.capacity)) && d.quota == Some(Decimal(n.quota))
        && !d.records.NotATable?)
    && 0 < n.horizon && n.capacity <= 10000 && n.quota <= 10000 && n.detected + n.horizon <= 9007199254740991
    && n.detected <= n.last <= base && n.last <= 9007199254740991
  }

  ghost predicate Ends(r: Record, deadline: nat) {
    r.Record? && r.deadline == Some(Decimal(deadline)) && deadline <= 9007199254740991
  }

  /** A record the script can read. */
  ghost predicate Legible(r: Record) {
    && r.Record? && r.identity.Some? && 1 <= |r.identity.value| <= 4096 && UrlSafe(r.identity.value)
    && r.thumbprint.Some? && |r.thumbprint.value| == 43 && UrlSafe(r.thumbprint.value)
    && exists deadline: nat :: Ends(r, deadline)
  }

  ghost predicate Lives(r: Record, now: nat) { exists deadline: nat :: Ends(r, deadline) && now < deadline }

  /** At most the capacity of legible records of distinct identities, none of which contradicts the caller's key. */
  ghost predicate Orderly(d: Document, a: Args, now: nat, n: Stored) {
    && d.records.Listed? && |d.records.list| <= n.capacity
    && (forall i | 0 <= i < |d.records.list| :: Legible(d.records.list[i]))
    && (forall i, j | 0 <= i < j < |d.records.list| :: d.records.list[i].identity != d.records.list[j].identity)
    && (a.mode.Consume? ==>
          forall i | 0 <= i < |d.records.list| && Lives(d.records.list[i], now) && d.records.list[i].identity == Some(a.identity) ::
            d.records.list[i].thumbprint == Some(a.thumbprint))
  }

  ghost function LiveAt(records: seq<Record>, now: nat): set<nat> { set i: nat | i < |records| && Lives(records[i], now) }

  ghost function LiveOfKey(records: seq<Record>, now: nat, key: Text): set<nat> {
    set i: nat | i < |records| && Lives(records[i], now) && records[i].thumbprint == Some(key)
  }

  /** The live records in their order. */
  ghost function StillLive(records: seq<Record>, now: nat): seq<Record> {
    if records == [] then []
    else StillLive(records[..|records| - 1], now) + if Lives(records[|records| - 1], now) then [records[|records| - 1]] else []
  }

  // ---------------------------------------------------------------- the spelled numbers

  lemma IntegerSpells(t: Text, n: nat)
    ensures Integer(t) == Some(n) <==> n <= 9007199254740991 && t == Decimal(n)
  {
    if n <= MAX_SAFE {
      IntegerDecimal(n);
    }
  }

  lemma SpelledOnce(n: nat, m: nat)
    requires Decimal(n) == Decimal(m)
    ensures n == m
  {
    ParseDecimal(n);
    ParseDecimal(m);
  }

  /** The clock is read down to the millisecond when comparing and up to it when writing. */
  lemma ReadingIsTight(t: Time)
    ensures var instant := t.seconds * 1_000_000 + t.microseconds;
      && 1000 * Now(t) <= instant < 1000 * Now(t) + 1000
      && 1000 * DeadlineBase(t) - 1000 < instant <= 1000 * DeadlineBase(t)
  {
  }

  lemma ProperMeaning(a: Args, base: nat)
    ensures (ArgsOk(a) && TimeFits(a, base)) <==> exists q :: Proper(a, base, q)
    ensures forall q | Proper(a, base, q) ::
              && Integer(a.horizon) == Some(q.horizon) && Integer(a.capacity) == Some(q.capacity)
              && Integer(a.quota) == Some(q.quota) && (a.mode.Consume? ==> Integer(a.duration) == Some(q.duration))
  {
    hide Integer, Decimal;
    if ArgsOk(a) && TimeFits(a, base) {
      var duration := if a.mode.Consume? then Integer(a.duration).value else 0;
      var q := Asked(Integer(a.horizon).value, Integer(a.capacity).value, Integer(a.quota).value, duration);
      IntegerSpells(a.horizon, q.horizon);
      IntegerSpells(a.capacity, q.capacity);
      IntegerSpells(a.quota, q.quota);
      IntegerSpells(a.duration, q.duration);
      assert Proper(a, base, q);
    }
    forall q | Proper(a, base, q)
      ensures ArgsOk(a) && TimeFits(a, base)
      ensures && Integer(a.horizon) == Some(q.horizon) && Integer(a.capacity) == Some(q.capacity)
              && Integer(a.quota) == Some(q.quota) && (a.mode.Consume? ==> Integer(a.duration) == Some(q.duration))
    {
      IntegerSpells(a.horizon, q.horizon);
      IntegerSpells(a.capacity, q.capacity);
      IntegerSpells(a.quota, q.quota);
      IntegerSpells(a.duration, q.duration);
    }
  }

  lemma IntelligibleMeaning(db: Db, base: nat)
    ensures Validated(db, base).Some? <==> exists n :: Intelligible(db, base, n)
    ensures Validated(db, base).Some? ==> db.state.Decoded? && Validated(db, base) == Some(db.state.document)
    ensures forall n | Intelligible(db, base, n) ::
              && Integer(db.quarantineUntil.text) == Some(n.detected + n.horizon)
              && IntegerField(db.state.document.capacity) == Some(n.capacity)
  {
    hide Integer, Decimal;
    if Validated(db, base).Some? {
      var n := NumbersOf(db, base);
    }
    forall n | Intelligible(db, base, n)
      ensures Validated(db, base).Some?
      ensures Integer(db.quarantineUntil.text) == Some(n.detected + n.horizon)
      ensures IntegerField(db.state.document.capacity) == Some(n.capacity)
    {
      IntelligibleIsValid(db, base, n);
    }
  }

  lemma NumbersOf(db: Db, base: nat) returns (n: Stored)
    requires Validated(db, base).Some?
    ensures Intelligible(db, base, n)
  {
    hide Integer, Decimal;
    var d := db.state.document;
    n := Stored(IntegerField(d.detectedAt).value, IntegerField(d.horizon).value, IntegerField(d.capacity).value,
                IntegerField(d.quota).value, IntegerField(d.lastTime).value);
    IntegerSpells(d.detectedAt.value, n.detected);
    IntegerSpells(d.horizon.value, n.horizon);
    IntegerSpells(d.capacity.value, n.capacity);
    IntegerSpells(d.quota.value, n.quota);
    IntegerSpells(d.lastTime.value, n.last);
    IntegerSpells(db.quarantineUntil.text, n.detected + n.horizon);
  }

  lemma IntelligibleIsValid(db: Db, base: nat, n: Stored)
    requires Intelligible(db, base, n)
    ensures Validated(db, base).Some?
    ensures Integer(db.quarantineUntil.text) == Some(n.detected + n.horizon)
    ensures IntegerField(db.state.document.capacity) == Some(n.capacity)
  {
    hide Integer, Decimal;
    var d := db.state.document;
    IntegerSpells(d.detectedAt.value, n.detected);
    IntegerSpells(d.horizon.value, n.horizon);
    IntegerSpells(d.capacity.value, n.capacity);
    IntegerSpells(d.quota.value, n.quota);
    IntegerSpells(d.lastTime.value, n.last);
    IntegerSpells(db.quarantineUntil.text, n.detected + n.horizon);
    ShortText(db.quarantineUntil.text);
  }

  lemma ShortText(t: Text)
    requires Integer(t).Some?
    ensures |t| <= 16
  {
  }

  // ---------------------------------------------------------------- the records

  lemma RecordMeaning(r: Record, now: nat)
    ensures RecordOk(r) <==> Legible(r)
    ensures RecordOk(r) ==> (Alive(r, now) <==> Lives(r, now))
  {
    hide Integer, Decimal;
    if r.Record? && r.deadline.Some? {
      forall n: nat ensures Integer(r.deadline.value) == Some(n) <==> Ends(r, n) {
        IntegerSpells(r.deadline.value, n);
      }
      if Integer(r.deadline.value).Some? {
        assert Ends(r, Integer(r.deadline.value).value);
      }
    }
  }

  lemma OrderlyMeaning(d: Document, a: Args, now: nat, n: Stored)
    ensures Orderly(d, a, now, n) <==>
            d.records.Listed? && |d.records.list| <= n.capacity && ScanAll(d.records.list, a, now).Some?
  {
    hide Legible, Lives, RecordOk, Alive, ScanAll;
    if d.records.Listed? {
      var list := d.records.list;
      forall r ensures (RecordOk(r) <==> Legible(r)) && (RecordOk(r) ==> (Alive(r, now) <==> Lives(r, now))) {
        RecordMeaning(r, now);
      }
      ScanSucceeds(list, a, now);
      ScanFacts(list);
    }
  }

  lemma ScanFacts(list: seq<Record>)
    ensures RecordsOk(list) ==> forall i | 0 <= i < |list| :: list[i].Record? && list[i].identity.Some? && list[i].thumbprint.Some?
  {
  }

  lemma LastIndex(records: seq<Record>, now: nat, key: Text)
    requires records != []
    ensures var n := |records| - 1; var init, last := records[..n], records[n];
      && LiveAt(records, now) == (if Lives(last, now) then LiveAt(init, now) + {n} else LiveAt(init, now))
      && LiveOfKey(records, now, key) == (if Lives(last, now) && last.thumbprint == Some(key)
                                          then LiveOfKey(init, now, key) + {n} else LiveOfKey(init, now, key))
      && n !in LiveAt(init, now) && n !in LiveOfKey(init, now, key)
  {
    hide Lives;
    var n := |records| - 1;
    var init := records[..n];
    assert forall i: nat | i < n :: init[i] == records[i];
  }

  /** A record of the identity is live. */
  ghost predicate HasLive(records: seq<Record>, now: nat, identity: Text) {
    exists i :: 0 <= i < |records| && Lives(records[i], now) && records[i].identity == Some(identity)
  }

  lemma LastHasLive(records: seq<Record>, now: nat, identity: Text)
    requires records != []
    ensures var last := records[|records| - 1];
      HasLive(records, now, identity) <==>
      HasLive(records[..|records| - 1], now, identity) || (Lives(last, now) && last.identity == Some(identity))
  {
    hide Lives;
    var init := records[..|records| - 1];
    assert forall i | 0 <= i < |init| :: init[i] == records[i];
  }

  /** What a scan collects and counts, by the records alone. */
  lemma {:induction false} ScanMeaning(records: seq<Record>, a: Args, now: nat)
    requires a.mode.Consume? && ScanAll(records, a, now).Some?
    ensures var scan := ScanAll(records, a, now).value;
      && scan.live == StillLive(records, now) && |scan.live| == |LiveAt(records, now)|
      && scan.forKey == |LiveOfKey(records, now, a.thumbprint)|
      && (scan.replayed <==> HasLive(records, now, a.identity))
  {
    hide ScanOne, Lives, HasLive, LiveAt, LiveOfKey;
    if records != [] {
      var init, last := records[..|records| - 1], records[|records| - 1];
      ScanMeaning(init, a, now);
      StepMeaning(ScanAll(init, a, now).value, last, a, now);
      LastIndex(records, now, a.thumbprint);
      LastHasLive(records, now, a.identity);
    } else {
      NoneLive(now, a.identity, a.thumbprint);
    }
  }

  /** What one record adds to a scan. */
  lemma StepMeaning(s: Scan, r: Record, a: Args, now: nat)
    requires a.mode.Consume? && ScanOne(s, r, a, now).Some?
    ensures r.Record?
    ensures var next := ScanOne(s, r, a, now).value;
      && next.live == s.live + (if Lives(r, now) then [r] else [])
      && next.forKey == s.forKey + (if Lives(r, now) && r.thumbprint == Some(a.thumbprint) then 1 else 0)
      && (next.replayed <==> s.replayed || (Lives(r, now) && r.identity == Some(a.identity)))
  {
    hide RecordOk, Alive, Lives;
    RecordMeaning(r, now);
    LastParts(r);
  }

  lemma NoneLive(now: nat, identity: Text, key: Text)
    ensures !HasLive([], now, identity) && LiveAt([], now) == {} && LiveOfKey([], now, key) == {}
  {
  }

  lemma LastParts(r: Record)
    ensures RecordOk(r) ==> r.Record? && r.identity.Some? && r.thumbprint.Some?
  {
  }

  // ---------------------------------------------------------------- the replies

  /** What is stored when the history is found missing or unintelligible: a fresh and empty document in full quarantine. */
  predicate Restarted(db: Db, a: Args, base: nat, q: Asked) {
    && Intelligible(db, base, Stored(base, q.horizon, q.capacity, q.quota, base))
    && db.epoch == Value(a.proposedEpoch) && db.state.document.records == Listed([])
  }

  lemma QuarantineRestarts(a: Args, base: nat, q: Asked)
    requires Proper(a, base, q) && ArgsOk(a) && Integer(a.horizon) == Some(q.horizon)
    ensures Restarted(QuarantineDb(a, base), a, base, q)
  {
    hide Integer, Decimal;
  }

  lemma SameConfiguration(db: Db, a: Args, base: nat, q: Asked, n: Stored)
    requires Proper(a, base, q) && Intelligible(db, base, n)
    ensures db.state.document.horizon == Some(a.horizon) <==> n.horizon == q.horizon
    ensures db.state.document.capacity == Some(a.capacity) <==> n.capacity == q.capacity
    ensures db.state.document.quota == Some(a.quota) <==> n.quota == q.quota
    ensures n.capacity <= MAX_RECORDS && !db.state.document.records.NotATable?
  {
    hide Decimal;
    if db.state.document.horizon == Some(a.horizon) { SpelledOnce(n.horizon, q.horizon); }
    if db.state.document.capacity == Some(a.capacity) { SpelledOnce(n.capacity, q.capacity); }
    if db.state.document.quota == Some(a.quota) { SpelledOnce(n.quota, q.quota); }
  }

  /** The answer to a call under the configuration of the document, once its quarantine is over. */
  ghost predicate AnswersRecords(db: Db, list: seq<Record>, a: Args, t: Time, tooLarge: bool, q: Asked, next: Db, reply: Reply)
    requires db.state.Decoded?
  {
    var now := Now(t);
    var replayed := HasLive(list, now, a.identity);
    var full := |LiveOfKey(list, now, a.thumbprint)| >= q.quota;
    var crowded := |LiveAt(list, now)| >= q.capacity || tooLarge;
    && (reply == ReadyReply <==> a.mode.Setup?)
    && (reply == ReplayedReply <==> a.mode.Consume? && replayed)
    && (reply == QuotaReply <==> a.mode.Consume? && !replayed && full)
    && (reply == UnavailableReply <==> a.mode.Consume? && !replayed && !full && crowded)
    && (reply == AcceptedReply <==> a.mode.Consume? && !replayed && !full && !crowded)
    && (reply != AcceptedReply ==> next == db)
    && (reply == AcceptedReply ==>
          && next.epoch == db.epoch && next.quarantineUntil == db.quarantineUntil && next.state.Decoded?
          && next.state.document == db.state.document.(
               lastTime := Some(Decimal(DeadlineBase(t))),
               records := Listed(StillLive(list, now)
                                 + [Record(Some(a.identity), Some(a.thumbprint), Some(Decimal(DeadlineBase(t) + q.duration)))])))
  }

  /** A history that cannot be used is replaced by a fresh one in quarantine, if that fits. */
  ghost predicate Restarts(db: Db, a: Args, base: nat, tooLarge: bool, q: Asked, next: Db, reply: Reply) {
    if tooLarge then reply == UnavailableReply && next == db
    else reply == QuarantineReply && Restarted(next, a, base, q)
  }

  /** The answer to proper arguments when the keys hold an intelligible document. */
  ghost predicate Answers(db: Db, a: Args, t: Time, tooLarge: bool, q: Asked, n: Stored, next: Db, reply: Reply)
    requires db.state.Decoded?
  {
    var now := Now(t);
    if n.horizon != q.horizon || n.capacity != q.capacity || n.quota != q.quota then reply == MismatchReply && next == db
    else if !Orderly(db.state.document, a, now, n) then Restarts(db, a, DeadlineBase(t), tooLarge, q, next, reply)
    else if now < n.detected + n.horizon then reply == QuarantineReply && next == db
    else AnswersRecords(db, db.state.document.records.list, a, t, tooLarge, q, next, reply)
  }

  lemma ProperIsOk(a: Args, base: nat, q: Asked)
    requires Proper(a, base, q)
    ensures ArgsOk(a) && TimeFits(a, base)
    ensures Integer(a.horizon) == Some(q.horizon) && Integer(a.capacity) == Some(q.capacity) && Integer(a.quota) == Some(q.quota)
    ensures a.mode.Consume? ==> Integer(a.duration) == Some(q.duration)
    ensures !a.mode.OtherMode?
  {
    hide Integer, Decimal;
    IntegerSpells(a.horizon, q.horizon);
    IntegerSpells(a.capacity, q.capacity);
    IntegerSpells(a.quota, q.quota);
    IntegerSpells(a.duration, q.duration);
  }

  lemma RecordsAnswer(db: Db, a: Args, t: Time, tooLarge: bool, q: Asked, n: Stored)
    requires Proper(a, DeadlineBase(t), q) && Intelligible(db, DeadlineBase(t), n)
    requires n.horizon == q.horizon && n.capacity == q.capacity && n.quota == q.quota
    requires Orderly(db.state.document, a, Now(t), n) && n.detected + n.horizon <= Now(t)
    ensures AnswersRecords(db, db.state.document.records.list, a, t, tooLarge, q,
                           Run(db, a, t, tooLarge).0, Run(db, a, t, tooLarge).1)
  {
    hide Intelligible, TimeFits, Validated, Orderly, ScanAll, Integer, Decimal, DeadlineBase, Now, LiveAt, LiveOfKey, HasLive;
    ProperIsOk(a, DeadlineBase(t), q);
    hide Proper;
    IntelligibleMeaning(db, DeadlineBase(t));
    assert Proper(a, DeadlineBase(t), q);
    SameConfiguration(db, a, DeadlineBase(t), q, n);
    var list := db.state.document.records;
    OrderlyMeaning(db.state.document, a, Now(t), n);
    if a.mode.Consume? {
      ScanMeaning(list.list, a, Now(t));
    }
  }

  lemma DocumentAnswers(db: Db, a: Args, t: Time, tooLarge: bool, q: Asked, n: Stored)
    requires Proper(a, DeadlineBase(t), q) && Intelligible(db, DeadlineBase(t), n)
    ensures db.state.Decoded?
    ensures Answers(db, a, t, tooLarge, q, n, Run(db, a, t, tooLarge).0, Run(db, a, t, tooLarge).1)
  {
    hide Intelligible, TimeFits, Validated, Orderly, ScanAll, Integer, Decimal, DeadlineBase, Now, Restarted, QuarantineDb,
         AnswersRecords;
    ProperIsOk(a, DeadlineBase(t), q);
    QuarantineRestarts(a, DeadlineBase(t), q);
    hide Proper, ArgsOk;
    IntelligibleMeaning(db, DeadlineBase(t));
    SameConfiguration(db, a, DeadlineBase(t), q, n);
    OrderlyMeaning(db.state.document, a, Now(t), n);
    if n.horizon == q.horizon && n.capacity == q.capacity && n.quota == q.quota {
      if Orderly(db.state.document, a, Now(t), n) && n.detected + n.horizon <= Now(t) {
        RecordsAnswer(db, a, t, tooLarge, q, n);
      }
    }
  }

  /**
   * The reply to every call and what it leaves behind, by what the arguments, the keys and the records
   * spell: improper arguments change nothing; a missing or unintelligible document, or one of disorderly
   * records, starts a quarantine; another configuration is a mismatch; a quarantine that is not over is
   * waited for; and then only live records of the identity, of its key and of all keys decide.
   */
  lemma ReplyIsExact(db: Db, a: Args, t: Time, tooLarge: bool)
    ensures var (next, reply) := Run(db, a, t, tooLarge);
      var base := DeadlineBase(t);
      && (!(exists q :: Proper(a, base, q)) ==> reply == UnavailableReply && next == db)
      && (forall q | Proper(a, base, q) ::
            (!(exists n :: Intelligible(db, base, n)) ==> Restarts(db, a, base, tooLarge, q, next, reply)))
      && (forall q, n | Proper(a, base, q) && Intelligible(db, base, n) ::
            db.state.Decoded? && Answers(db, a, t, tooLarge, q, n, next, reply))
  {
    hide Proper, Intelligible, Answers, DeadlineBase, Now, ScanAll, Restarted, QuarantineDb, Integer, Decimal;
    var base := DeadlineBase(t);
    ProperMeaning(a, base);
    IntelligibleMeaning(db, base);
    forall q, n | Proper(a, base, q) && Intelligible(db, base, n)
      ensures db.state.Decoded? && Answers(db, a, t, tooLarge, q, n, Run(db, a, t, tooLarge).0, Run(db, a, t, tooLarge).1)
    {
      DocumentAnswers(db, a, t, tooLarge, q, n);
    }
    forall q | Proper(a, base, q) && !(exists n :: Intelligible(db, base, n))
      ensures Restarts(db, a, base, tooLarge, q, Run(db, a, t, tooLarge).0, Run(db, a, t, tooLarge).1)
    {
      ProperIsOk(a, base, q);
      QuarantineRestarts(a, base, q);
    }
  }
}
