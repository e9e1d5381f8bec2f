/**
 * The server-side replay script: three keys, validated before use, rewritten by one command.
 * Suspected loss of history starts a quarantine of one full horizon.
 */
module RedisScript {
  import opened Basics
  import opened Digits

  const MAX_RECORDS := 10000

  /** A string key, as TYPE, STRLEN and GET show it. */
  datatype Key = Missing | NotAString | Value(text: Text)

  /** The state document; a field that is not a string is `None`. */
  datatype Document = Document(
    version: Option<Text>,
    epoch: Option<Text>,
    quarantineUntil: Option<Text>,
    detectedAt: Option<Text>,
    lastTime: Option<Text>,
    horizon: Option<Text>,
    capacity: Option<Text>,
    quota: Option<Text>,
    records: Records)

  datatype Records = NotATable | KeyedTable | Listed(list: seq<Record>)

  datatype Record = NotARecord | Record(identity: Option<Text>, thumbprint: Option<Text>, deadline: Option<Text>)

  datatype StateKey = StateMissing | StateNotAString | StateTooLong | Undecodable | Decoded(document: Document)

  datatype Db = Db(epoch: Key, quarantineUntil: Key, state: StateKey)

  datatype Mode = Setup | Consume | OtherMode

  datatype Args = Args(
    mode: Mode,
    horizon: Text,
    capacity: Text,
    quota: Text,
    proposedEpoch: Text,
    identity: Text,
    thumbprint: Text,
    duration: Text)

  /** The TIME reply: whole seconds and the microseconds of the current one. */
  datatype Time = Time(seconds: nat, microseconds: nat)

  datatype Reply = UnavailableReply | QuarantineReply | MismatchReply | ReadyReply | ReplayedReply | QuotaReply | AcceptedReply

  /** A decimal string in canonical form, at most 16 digits and inside the exact range. */
  function Integer(text: Text): Option<nat> {
    if !(1 <= |text| <= 16 && AllDigits(text)) then None
    else
      var value := Parse(text);
      if value > MAX_SAFE || Decimal(value) != text then None else Some(value)
  }

  function IntegerField(field: Option<Text>): Option<nat> {
    if field.None? then None else Integer(field.value)
  }

  lemma IntegerDecimal(n: nat)
    requires n <= MAX_SAFE
    ensures Integer(Decimal(n)) == Some(n)
  {
    ParseDecimal(n);
    Pow10Values();
    DecimalLength(n, 16);
  }

  lemma IntegerIsCanonical(a: Text, b: Text)
    requires Integer(a).Some? && Integer(a) == Integer(b)
    ensures a == b
  {
  }

  predicate LowerHex(t: Text) { forall i | 0 <= i < |t| :: 48 <= t[i] <= 57 || 97 <= t[i] <= 102 }

  predicate Base64Url(t: Text) {
    forall i | 0 <= i < |t| ::
      (48 <= t[i] <= 57) || (65 <= t[i] <= 90) || (97 <= t[i] <= 122) || t[i] == 45 || t[i] == 95
  }

  predicate ValidIdentity(t: Text) { 1 <= |t| <= 4096 && Base64Url(t) }

  predicate ValidThumbprint(t: Text) { |t| == 43 && Base64Url(t) }

  predicate ArgsOk(a: Args) {
    && !a.mode.OtherMode?
    && Integer(a.horizon).Some? && Integer(a.horizon).value > 0
    && Integer(a.capacity).Some? && Integer(a.capacity).value <= MAX_RECORDS
    && Integer(a.quota).Some? && Integer(a.quota).value <= MAX_RECORDS
    && |a.proposedEpoch| == 32 && LowerHex(a.proposedEpoch)
    && (a.mode.Consume? ==>
          && ValidIdentity(a.identity) && ValidThumbprint(a.thumbprint)
          && Integer(a.duration).Some? && Integer(a.duration).value > 0)
  }

  /** Observation rounds down to the millisecond. */
  function Now(t: Time): nat { t.seconds * 1000 + t.microseconds / 1000 }

  /** New deadlines round up. */
  function DeadlineBase(t: Time): nat { t.seconds * 1000 + (t.microseconds + 999) / 1000 }

  predicate TimeFits(a: Args, base: nat)
    requires ArgsOk(a)
  {
    && base <= MAX_SAFE
    && Integer(a.horizon).value <= MAX_SAFE - base
    && (a.mode.Consume? ==> Integer(a.duration).value <= MAX_SAFE - base)
  }

  /** A fresh, empty document behind a full horizon from detection. */
  function QuarantineDb(a: Args, base: nat): Db
    requires ArgsOk(a)
  {
    var untilText := Decimal(base + Integer(a.horizon).value);
    Db(Value(a.proposedEpoch), Value(untilText),
       Decoded(Document(Some([49]), Some(a.proposedEpoch), Some(untilText), Some(Decimal(base)), Some(Decimal(base)),
                        Some(a.horizon), Some(a.capacity), Some(a.quota), Listed([]))))
  }

  /** The document if every check before the configuration comparison passes. */
  function Validated(db: Db, base: nat): Option<Document> {
    if !(db.epoch.Value? && |db.epoch.text| <= 64 && db.quarantineUntil.Value? && |db.quarantineUntil.text| <= 64
         && db.state.Decoded?) then None
    else
      var d := db.state.document;
      if d.version != Some([49]) || |db.epoch.text| != 32 || !LowerHex(db.epoch.text)
         || d.epoch != Some(db.epoch.text) || d.quarantineUntil != Some(db.quarantineUntil.text) then None
      else if !HeaderOk(d, db.quarantineUntil.text, base) then None
      else Some(d)
  }

  predicate HeaderOk(d: Document, untilText: Text, base: nat) {
    && Integer(untilText).Some?
    && IntegerField(d.detectedAt).Some?
    && IntegerField(d.lastTime).Some?
    && IntegerField(d.horizon).Some? && IntegerField(d.horizon).value > 0
    && IntegerField(d.capacity).Some? && IntegerField(d.capacity).value <= MAX_RECORDS
    && IntegerField(d.quota).Some? && IntegerField(d.quota).value <= MAX_RECORDS
    && IntegerField(d.detectedAt).value <= MAX_SAFE - IntegerField(d.horizon).value
    && Integer(untilText).value == IntegerField(d.detectedAt).value + IntegerField(d.horizon).value
    && IntegerField(d.detectedAt).value <= IntegerField(d.lastTime).value <= base
    && !d.records.NotATable?
  }

  predicate RecordOk(r: Record) {
    && r.Record?
    && r.identity.Some? && ValidIdentity(r.identity.value)
    && r.thumbprint.Some? && ValidThumbprint(r.thumbprint.value)
    && IntegerField(r.deadline).Some?
  }

  predicate Alive(r: Record, now: nat)
    requires RecordOk(r)
  {
    now < IntegerField(r.deadline).value
  }

  /** What one pass over the records finds. */
  datatype Scan = Scan(identities: set<Text>, live: seq<Record>, forKey: nat, replayed: bool)

  /** One record; `None` is a reason to quarantine. */
  function ScanOne(s: Scan, r: Record, a: Args, now: nat): Option<Scan> {
    if !RecordOk(r) || r.identity.value in s.identities then None
    else
      var seen := s.(identities := s.identities + {r.identity.value});
      if !Alive(r, now) then Some(seen)
      else
        var kept := seen.(live := seen.live + [r],
                          forKey := if a.mode.Consume? && r.thumbprint.value == a.thumbprint then seen.forKey + 1 else seen.forKey);
        if a.mode.Consume? && r.identity.value == a.identity then
          if r.thumbprint.value != a.thumbprint then None else Some(kept.(replayed := true))
        else Some(kept)
  }

  function ScanAll(records: seq<Record>, a: Args, now: nat): Option<Scan> {
    if records == [] then Some(Scan({}, [], 0, false))
    else
      var before := ScanAll(records[..|records| - 1], a, now);
      if before.None? then None else ScanOne(before.value, records[|records| - 1], a, now)
  }

  /** The whole script; `tooLarge` says that the encoded document would exceed the size ceiling. */
  function Run(db: Db, a: Args, t: Time, tooLarge: bool): (Db, Reply) {
    if !ArgsOk(a) || !TimeFits(a, DeadlineBase(t)) then (db, UnavailableReply)
    else
      var base := DeadlineBase(t);
      var quarantine := if tooLarge then (db, UnavailableReply) else (QuarantineDb(a, base), QuarantineReply);
      match Validated(db, base)
      case None => quarantine
      case Some(d) =>
        if d.horizon != Some(a.horizon) || d.capacity != Some(a.capacity) || d.quota != Some(a.quota) then (db, MismatchReply)
        else if d.records.KeyedTable? || |d.records.list| > MAX_RECORDS then quarantine
        else match ScanAll(d.records.list, a, Now(t))
          case None => quarantine
          case Some(scan) =>
            if |d.records.list| > IntegerField(d.capacity).value then quarantine
            else if Now(t) < Integer(db.quarantineUntil.text).value then (db, QuarantineReply)
            else if a.mode.Setup? then (db, ReadyReply)
            else if scan.replayed then (db, ReplayedReply)
            else if scan.forKey >= Integer(a.quota).value then (db, QuotaReply)
            else if |scan.live| >= Integer(a.capacity).value || tooLarge then (db, UnavailableReply)
            else (AcceptedDb(db, scan.live, a, base), AcceptedReply)
  }

  function NewRecord(a: Args, base: nat): Record
    requires ArgsOk(a) && a.mode.Consume?
  {
    Record(Some(a.identity), Some(a.thumbprint), Some(Decimal(base + Integer(a.duration).value)))
  }

  function AcceptedDb(db: Db, live: seq<Record>, a: Args, base: nat): Db
    requires ArgsOk(a) && a.mode.Consume? && db.state.Decoded?
  {
    db.(state := Decoded(db.state.document.(records := Listed(live + [NewRecord(a, base)]), lastTime := Some(Decimal(base)))))
  }

  // ---------------------------------------------------------------- what a scan says

  /** Distinct, well-formed records. */
  ghost predicate RecordsOk(records: seq<Record>) {
    && (forall i | 0 <= i < |records| :: RecordOk(records[i]))
    && (forall i, j | 0 <= i < j < |records| :: records[i].identity != records[j].identity)
  }

  /** No live record contradicts the thumbprint that comes with the requested identity. */
  ghost predicate Consistent(records: seq<Record>, a: Args, now: nat)
    requires RecordsOk(records)
  {
    a.mode.Consume? ==>
      forall i | 0 <= i < |records| && records[i].identity.value == a.identity && Alive(records[i], now) ::
        records[i].thumbprint.value == a.thumbprint
  }

  ghost predicate HasIdentity(records: seq<Record>, id: Text) {
    exists i :: 0 <= i < |records| && records[i].Record? && records[i].identity == Some(id)
  }

  lemma HasIdentitySplits(records: seq<Record>, id: Text)
    requires records != []
    ensures var last := records[|records| - 1];
            HasIdentity(records, id) <==>
            HasIdentity(records[..|records| - 1], id) || (last.Record? && last.identity == Some(id))
  {
    var init, last := records[..|records| - 1], records[|records| - 1];
    if HasIdentity(init, id) {
      var i :| 0 <= i < |init| && init[i].Record? && init[i].identity == Some(id);
      assert records[i] == init[i];
    }
    if HasIdentity(records, id) {
      var i :| 0 <= i < |records| && records[i].Record? && records[i].identity == Some(id);
      if i < |init| { assert init[i] == records[i]; }
    }
  }

  /** What a successful scan has collected. */
  lemma {:induction false} ScanCollectsIdentities(records: seq<Record>, a: Args, now: nat, id: Text)
    requires ScanAll(records, a, now).Some?
    ensures id in ScanAll(records, a, now).value.identities <==> HasIdentity(records, id)
  {
    if records != [] {
      ScanCollectsIdentities(records[..|records| - 1], a, now, id);
      HasIdentitySplits(records, id);
    }
  }

  lemma {:induction false} ScanImpliesOk(records: seq<Record>, a: Args, now: nat)
    requires ScanAll(records, a, now).Some?
    ensures RecordsOk(records) && Consistent(records, a, now)
  {
    if records != [] {
      var init, last := records[..|records| - 1], records[|records| - 1];
      ScanImpliesOk(init, a, now);
      ScanCollectsIdentities(init, a, now, last.identity.value);
      forall i | 0 <= i < |init| ensures records[i] == init[i] && init[i].identity != last.identity {
      }
    }
  }

  lemma {:induction false} OkImpliesScan(records: seq<Record>, a: Args, now: nat)
    requires RecordsOk(records) && Consistent(records, a, now)
    ensures ScanAll(records, a, now).Some?
  {
    if records != [] {
      var init, last := records[..|records| - 1], records[|records| - 1];
      assert forall i | 0 <= i < |init| :: init[i] == records[i];
      OkImpliesScan(init, a, now);
      ScanCollectsIdentities(init, a, now, last.identity.value);
      assert RecordOk(records[|records| - 1]);
    }
  }

  /** A scan succeeds exactly on distinct well-formed records that agree with the arguments. */
  lemma ScanSucceeds(records: seq<Record>, a: Args, now: nat)
    ensures ScanAll(records, a, now).Some? <==> RecordsOk(records) && Consistent(records, a, now)
  {
    if ScanAll(records, a, now).Some? {
      ScanImpliesOk(records, a, now);
    } else if RecordsOk(records) && Consistent(records, a, now) {
      OkImpliesScan(records, a, now);
    }
  }

  /** How many records belong to a key. */
  function KeyCount(records: seq<Record>, key: Text): nat {
    if records == [] then 0
    else
      var last := records[|records| - 1];
      KeyCount(records[..|records| - 1], key) + if last.Record? && last.thumbprint == Some(key) then 1 else 0
  }

  lemma KeyCountAppend(records: seq<Record>, r: Record, key: Text)
    ensures KeyCount(records + [r], key) == KeyCount(records, key) + if r.Record? && r.thumbprint == Some(key) then 1 else 0
  {
    assert (records + [r])[..|records|] == records;
  }

  /** The count the loop keeps is the number of live records of the key. */
  lemma {:induction false} ScanCountsKey(records: seq<Record>, a: Args, now: nat)
    requires a.mode.Consume? && ScanAll(records, a, now).Some?
    ensures ScanAll(records, a, now).value.forKey == KeyCount(ScanAll(records, a, now).value.live, a.thumbprint)
  {
    if records != [] {
      var init, last := records[..|records| - 1], records[|records| - 1];
      ScanCountsKey(init, a, now);
      KeyCountAppend(ScanAll(init, a, now).value.live, last, a.thumbprint);
    }
  }

  /** An accepted document holds at most the capacity, and at most the quota of the accepted key. */
  lemma AcceptedWithinQuota(db: Db, a: Args, t: Time, tooLarge: bool)
    requires Run(db, a, t, tooLarge).1 == AcceptedReply
    ensures var after := Run(db, a, t, tooLarge).0;
      && after.state.Decoded? && after.state.document.records.Listed?
      && |after.state.document.records.list| <= Integer(a.capacity).value
      && KeyCount(after.state.document.records.list, a.thumbprint) <= Integer(a.quota).value
  {
    var list := db.state.document.records.list;
    ScanCountsKey(list, a, Now(t));
    KeyCountAppend(ScanAll(list, a, Now(t)).value.live, NewRecord(a, DeadlineBase(t)), a.thumbprint);
  }

  /** The live list keeps exactly the live records, in order, and the flags count over it. */
  lemma {:induction false} ScanKeepsLive(records: seq<Record>, a: Args, now: nat)
    requires ScanAll(records, a, now).Some?
    ensures var scan := ScanAll(records, a, now).value;
            && |scan.live| <= |records|
            && (forall r :: r in scan.live <==> r in records && RecordOk(r) && Alive(r, now))
            && (a.mode.Consume? ==> (scan.replayed <==> exists r :: r in scan.live && r.identity == Some(a.identity)))
  {
    if records != [] {
      var init, last := records[..|records| - 1], records[|records| - 1];
      ScanKeepsLive(init, a, now);
      var before, scan := ScanAll(init, a, now).value, ScanAll(records, a, now).value;
      assert forall r :: r in records <==> r in init || r == last;
      if a.mode.Consume? {
        if Alive(last, now) && last.identity.value == a.identity {
          assert last in scan.live;
        } else if scan.replayed {
          var r :| r in before.live && r.identity == Some(a.identity);
          assert r in scan.live;
        }
      }
    }
  }

  /** Records kept by a scan stay distinct. */
  lemma {:induction false} LiveStaysOk(records: seq<Record>, a: Args, now: nat)
    requires RecordsOk(records) && ScanAll(records, a, now).Some?
    ensures RecordsOk(ScanAll(records, a, now).value.live)
  {
    if records != [] {
      var init, last := records[..|records| - 1], records[|records| - 1];
      LiveStaysOk(init, a, now);
      ScanKeepsLive(init, a, now);
      var live := ScanAll(init, a, now).value.live;
      forall r | r in live ensures r.identity != last.identity {
        var i :| 0 <= i < |init| && init[i] == r;
        assert records[i].identity != records[|records| - 1].identity;
      }
    }
  }

  // ---------------------------------------------------------------- the script as an object

  class Server {
    var epochKey: Key
    var untilKey: Key
    var stateKey: StateKey

    function Contents(): Db
      reads this
    {
      Db(epochKey, untilKey, stateKey)
    }

    constructor ()
      ensures Contents() == Db(Missing, Missing, StateMissing)
    {
      epochKey, untilKey, stateKey := Missing, Missing, StateMissing;
    }

    method Save(epoch: Text, untilText: Text, document: Document, tooLarge: bool) returns (saved: bool)
      modifies this
      ensures saved == !tooLarge
      ensures Contents() == if tooLarge then old(Contents()) else Db(Value(epoch), Value(untilText), Decoded(document))
    {
      if tooLarge {
        return false;
      }
      epochKey, untilKey, stateKey := Value(epoch), Value(untilText), Decoded(document);
      saved := true;
    }

    method Quarantine(a: Args, base: nat, tooLarge: bool) returns (reply: Reply)
      requires ArgsOk(a)
      modifies this
      ensures (Contents(), reply) ==
              if tooLarge then (old(Contents()), UnavailableReply) else (QuarantineDb(a, base), QuarantineReply)
    {
      var untilText := Decimal(base + Integer(a.horizon).value);
      var document := Document(Some([49]), Some(a.proposedEpoch), Some(untilText), Some(Decimal(base)), Some(Decimal(base)),
                               Some(a.horizon), Some(a.capacity), Some(a.quota), Listed([]));
      var saved := Save(a.proposedEpoch, untilText, document, tooLarge);
      reply := if saved then QuarantineReply else UnavailableReply;
    }

    method Execute(a: Args, t: Time, tooLarge: bool) returns (reply: Reply)
      modifies this
      ensures (Contents(), reply) == Run(old(Contents()), a, t, tooLarge)
    {
      if !ArgsOk(a) {
        return UnavailableReply;
      }
      var now, base := Now(t), DeadlineBase(t);
      if !TimeFits(a, base) {
        return UnavailableReply;
      }
      var validated := Validated(Contents(), base);
      if validated.None? {
        reply := Quarantine(a, base, tooLarge);
        return;
      }
      var document := validated.value;
      if document.horizon != Some(a.horizon) || document.capacity != Some(a.capacity) || document.quota != Some(a.quota) {
        return MismatchReply;
      }
      if document.records.KeyedTable? || |document.records.list| > MAX_RECORDS {
        reply := Quarantine(a, base, tooLarge);
        return;
      }
      var scan := ScanRecords(document.records.list, a, now);
      if scan.None? || |document.records.list| > IntegerField(document.capacity).value {
        reply := Quarantine(a, base, tooLarge);
        return;
      }
      if now < Integer(untilKey.text).value {
        return QuarantineReply;
      }
      if a.mode.Setup? {
        return ReadyReply;
      }
      if scan.value.replayed {
        return ReplayedReply;
      }
      if scan.value.forKey >= Integer(a.quota).value {
        return QuotaReply;
      }
      if |scan.value.live| >= Integer(a.capacity).value {
        return UnavailableReply;
      }
      var saved := Save(epochKey.text, untilKey.text,
                        document.(records := Listed(scan.value.live + [NewRecord(a, base)]), lastTime := Some(Decimal(base))),
                        tooLarge);
      reply := if saved then AcceptedReply else UnavailableReply;
    }

    /** The loop over the stored records. */
    method ScanRecords(records: seq<Record>, a: Args, now: nat) returns (r: Option<Scan>)
      ensures r == ScanAll(records, a, now)
    {
      var identities: set<Text>, live, forKey, replayed := {}, [], 0, false;
      for i := 0 to |records|
        invariant ScanAll(records[..i], a, now) == Some(Scan(identities, live, forKey, replayed))
      {
        assert records[..i + 1][..i] == records[..i];
        var record := records[i];
        ghost var before := Scan(identities, live, forKey, replayed);
        assert ScanAll(records[..i + 1], a, now) == ScanOne(before, record, a, now);
        if !RecordOk(record) || record.identity.value in identities {
          FailedScanStaysFailed(records, i + 1, a, now);
          return None;
        }
        identities := identities + {record.identity.value};
        if Alive(record, now) {
          live := live + [record];
          if a.mode.Consume? && record.thumbprint.value == a.thumbprint {
            forKey := forKey + 1;
          }
          if a.mode.Consume? && record.identity.value == a.identity {
            if record.thumbprint.value != a.thumbprint {
              FailedScanStaysFailed(records, i + 1, a, now);
              return None;
            }
            replayed := true;
          }
        }
        assert Some(Scan(identities, live, forKey, replayed)) == ScanOne(before, record, a, now);
      }
      assert records[..|records|] == records;
      r := Some(Scan(identities, live, forKey, replayed));
    }
  }

  lemma {:induction false} FailedScanStaysFailed(records: seq<Record>, n: nat, a: Args, now: nat)
    requires n <= |records|
    requires ScanAll(records[..n], a, now).None?
    ensures ScanAll(records, a, now).None?
  {
    if n == |records| {
      assert records[..n] == records;
    } else {
      var init := records[..|records| - 1];
      assert init[..n] == records[..n];
      FailedScanStaysFailed(init, n, a, now);
    }
  }
}
