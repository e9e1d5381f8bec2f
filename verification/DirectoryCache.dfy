/**
 * The directory cache of one profile: whole key sets per origin with byte accounting and first-in-first-out
 * eviction, and a bounded record of failures. Its operations are functions of the state and one clock reading,
 * and the class computes them.
 */
module DirectoryCache {
  import opened Basics

  type Origin = string
  type Thumbprint = string

  /** A validated key set: each thumbprint it knows, and whether its algorithm is supported. */
  datatype Document = Document(keys: map<Thumbprint, bool>, accountedBytes: nat)

  datatype Freshness = Freshness(persist: bool, remaining: int, received: int)

  datatype Prepared = Prepared(document: Document, freshness: Freshness)

  datatype Slot = Slot(origin: Origin, prepared: Prepared, bytes: nat)

  datatype Lookup = Found | UnknownKey | UnsupportedAlgorithm

  datatype Options = Options(negativeSeconds: nat, maxEntries: nat, maxBytes: nat, maxNegative: nat)

  const LONGEST := 300000

  /** Evidence is usable strictly before its remaining time has passed since receipt. */
  predicate Fresh(f: Freshness, now: int) {
    var elapsed := now - f.received;
    f.persist && elapsed >= 0 && 0 < f.remaining <= LONGEST && elapsed < f.remaining
  }

  /** Stale evidence never becomes fresh again. */
  lemma StaleStaysStale(f: Freshness, now: int, later: int)
    requires f.received <= now <= later && !Fresh(f, now)
    ensures !Fresh(f, later)
  {
  }

  function KeyIn(d: Document, t: Thumbprint): Lookup {
    if t !in d.keys then UnknownKey else if d.keys[t] then Found else UnsupportedAlgorithm
  }

  function Accounted(d: Document, o: Origin): nat { d.accountedBytes + 2 * |o| + 256 }

  // ---------------------------------------------------------------- insertion-ordered slots

  predicate Distinct(slots: seq<Slot>) { forall i, j | 0 <= i < j < |slots| :: slots[i].origin != slots[j].origin }

  function Find(slots: seq<Slot>, o: Origin): (i: nat)
    ensures i <= |slots|
    ensures i < |slots| ==> slots[i].origin == o
    ensures forall j | 0 <= j < i :: slots[j].origin != o
  {
    if slots == [] || slots[0].origin == o then 0 else 1 + Find(slots[1..], o)
  }

  predicate Has(slots: seq<Slot>, o: Origin) { Find(slots, o) < |slots| }

  function Total(slots: seq<Slot>): nat {
    if slots == [] then 0 else slots[0].bytes + Total(slots[1..])
  }

  lemma {:induction false} TotalConcat(a: seq<Slot>, b: seq<Slot>)
    ensures Total(a + b) == Total(a) + Total(b)
  {
    if a == [] {
      assert a + b == b;
    } else {
      TotalConcat(a[1..], b);
      assert (a + b)[1..] == a[1..] + b;
    }
  }

  function Without(slots: seq<Slot>, o: Origin): seq<Slot> {
    var i := Find(slots, o);
    if i == |slots| then slots else slots[..i] + slots[i + 1..]
  }

  lemma WithoutTotal(slots: seq<Slot>, o: Origin)
    ensures Total(Without(slots, o)) == Total(slots) - if Has(slots, o) then slots[Find(slots, o)].bytes else 0
  {
    hide Find, Total;
    var i := Find(slots, o);
    if i < |slots| {
      assert slots == slots[..i] + ([slots[i]] + slots[i + 1..]);
      TotalConcat(slots[..i], [slots[i]] + slots[i + 1..]);
      TotalConcat([slots[i]], slots[i + 1..]);
      TotalConcat(slots[..i], slots[i + 1..]);
      TotalOne(slots[i]);
    }
  }

  lemma TotalOne(s: Slot)
    ensures Total([s]) == s.bytes
  {
  }

  lemma WithoutMembers(slots: seq<Slot>, o: Origin)
    requires Distinct(slots)
    ensures Distinct(Without(slots, o)) && !Has(Without(slots, o), o)
    ensures forall s :: s in Without(slots, o) <==> s in slots && s.origin != o
  {
    hide Find;
    var i, r := Find(slots, o), Without(slots, o);
    if i < |slots| {
      assert forall k | 0 <= k < |r| :: r[k] == slots[if k < i then k else k + 1];
      forall s | s in slots && s.origin != o ensures s in r {
        var k :| 0 <= k < |slots| && slots[k] == s;
        assert r[if k < i then k else k - 1] == s;
      }
    }
    assert Find(r, o) == |r|;
  }

  lemma WithoutMeaning(slots: seq<Slot>, o: Origin)
    requires Distinct(slots)
    ensures Distinct(Without(slots, o)) && !Has(Without(slots, o), o)
    ensures Total(Without(slots, o)) == Total(slots) - if Has(slots, o) then slots[Find(slots, o)].bytes else 0
    ensures forall s :: s in Without(slots, o) <==> s in slots && s.origin != o
    ensures |Without(slots, o)| <= |slots| && Total(Without(slots, o)) <= Total(slots)
  {
    WithoutTotal(slots, o);
    WithoutMembers(slots, o);
  }

  lemma Appended(slots: seq<Slot>, s: Slot)
    requires Distinct(slots) && !Has(slots, s.origin)
    ensures Distinct(slots + [s]) && Total(slots + [s]) == Total(slots) + s.bytes
  {
    TotalConcat(slots, [s]);
    assert Total([s]) == s.bytes;
  }

  lemma DropFirst(slots: seq<Slot>)
    requires slots != [] && Distinct(slots)
    ensures Without(slots, slots[0].origin) == slots[1..]
  {
    assert slots[..0] + slots[1..] == slots[1..];
  }

  // ---------------------------------------------------------------- the operations on values

  function Duration(options: Options): nat { options.negativeSeconds * 1000 }

  function Entry(o: Origin, prepared: Prepared): Slot { Slot(o, prepared, Accounted(prepared.document, o)) }

  predicate Retainable(options: Options, o: Origin, prepared: Prepared, now: int) {
    && prepared.freshness.persist && options.maxEntries > 0 && Accounted(prepared.document, o) <= options.maxBytes
    && prepared.freshness.received <= now
  }

  predicate Roomy(options: Options, slots: seq<Slot>, accounted: nat) {
    |slots| < options.maxEntries && Total(slots) + accounted <= options.maxBytes
  }

  /** What is left of the slots once the oldest are given up until there is room for one more. */
  function Room(options: Options, slots: seq<Slot>, accounted: nat): seq<Slot>
    decreases |slots|
  {
    if slots == [] || Roomy(options, slots, accounted) then slots else Room(options, slots[1..], accounted)
  }

  function Live(negative: map<Origin, int>, now: int): map<Origin, int> {
    map o | o in negative && now < negative[o] :: negative[o]
  }

  function Later(failures: map<Origin, int>, o: Origin, deadline: int): map<Origin, int> {
    failures[o := if o in failures then Max(deadline, failures[o]) else deadline]
  }

  datatype State = State(
    positive: seq<Slot>, negative: map<Origin, int>, overflowUntil: int, lastTime: int, healthy: bool)

  const START := State([], map[], 0, 0, true)

  /** What the cache makes of one clock reading; `None` is a clock that threw or gave no finite number. */
  function Sampled(s: State, reading: Option<int>): Option<int> {
    if s.healthy && reading.Some? && s.lastTime <= reading.value <= MAX_SAFE then reading else None
  }

  /** A rejected reading is never forgiven. */
  function Read(s: State, reading: Option<int>): State {
    match Sampled(s, reading)
    case Some(now) => s.(lastTime := now)
    case None => s.(healthy := false)
  }

  /**
   * Replaces the set of an origin. A set that cannot be retained still removes the old one; room for
   * one that can is made by giving up the oldest others.
   */
  function Committed(options: Options, s: State, o: Origin, prepared: Prepared, reading: Option<int>): (State, bool) {
    match Sampled(s, reading)
    case None => (Read(s, reading), false)
    case Some(now) =>
      var others := Without(s.positive, o);
      var base := Read(s, reading).(negative := s.negative - {o}, positive := others);
      if !Retainable(options, o, prepared, now) then (base, false)
      else (base.(positive := Room(options, others, Accounted(prepared.document, o)) + [Entry(o, prepared)]), true)
  }

  function LookedUp(s: State, o: Origin, t: Thumbprint, reading: Option<int>): Lookup {
    var now := Sampled(s, reading);
    var i := Find(s.positive, o);
    if now.Some? && i < |s.positive| && Fresh(s.positive[i].prepared.freshness, now.value)
    then KeyIn(s.positive[i].prepared.document, t) else UnknownKey
  }

  /** On the record if there is room for the origin, and otherwise under the deadline that covers all of them. */
  function Noted(options: Options, s: State, o: Origin, deadline: int): State {
    if o in s.negative || |s.negative| < options.maxNegative
    then s.(negative := Later(s.negative, o, deadline))
    else s.(overflowUntil := Max(s.overflowUntil, deadline))
  }

  function Failed(options: Options, s: State, o: Origin, reading: Option<int>): State {
    match Sampled(s, reading)
    case None => Read(s, reading)
    case Some(now) =>
      var pruned := Read(s, reading).(negative := Live(s.negative, now));
      if Duration(options) == 0 then pruned
      else if now + Duration(options) > MAX_SAFE then pruned.(healthy := false)
      else Noted(options, pruned, o, now + Duration(options))
  }

  predicate Blocks(s: State, o: Origin, now: int) {
    now < s.overflowUntil || (o in s.negative && now < s.negative[o])
  }

  function Blocked(s: State, o: Origin, reading: Option<int>): (State, bool) {
    match Sampled(s, reading)
    case None => (Read(s, reading), true)
    case Some(now) => (Read(s, reading).(negative := Live(s.negative, now)), Blocks(s, o, now))
  }

  /** Slots of distinct origins with their accounted bytes, and both records within their limits. */
  ghost predicate WellFormed(options: Options, s: State) {
    && Distinct(s.positive) && |s.positive| <= options.maxEntries && Total(s.positive) <= options.maxBytes
    && (forall slot | slot in s.positive :: slot.bytes == Accounted(slot.prepared.document, slot.origin))
    && |s.negative| <= options.maxNegative
  }

  lemma ReadIsWellFormed(options: Options, s: State, reading: Option<int>)
    requires WellFormed(options, s)
    ensures WellFormed(options, Read(s, reading))
  {
  }

  /** Making room gives up the oldest slots and no more of them than needed. */
  lemma {:induction false} RoomMeaning(options: Options, slots: seq<Slot>, accounted: nat) returns (k: nat)
    requires options.maxEntries > 0 && accounted <= options.maxBytes
    ensures k <= |slots| && Room(options, slots, accounted) == slots[k..]
    ensures Roomy(options, slots[k..], accounted)
    ensures forall j: nat | j < k :: !Roomy(options, slots[j..], accounted)
    decreases |slots|
  {
    if slots == [] || Roomy(options, slots, accounted) {
      k := 0;
      assert slots[0..] == slots;
    } else {
      var rest := RoomMeaning(options, slots[1..], accounted);
      k := rest + 1;
      assert slots[1..][rest..] == slots[k..];
      forall j: nat | j < k ensures !Roomy(options, slots[j..], accounted) {
        if j > 0 {
          assert slots[1..][j - 1..] == slots[j..];
        } else {
          assert slots[0..] == slots;
        }
      }
    }
  }

  lemma RoomMembers(options: Options, slots: seq<Slot>, accounted: nat, o: Origin)
    requires Distinct(slots) && options.maxEntries > 0 && accounted <= options.maxBytes
    ensures var room := Room(options, slots, accounted);
            && Distinct(room) && Roomy(options, room, accounted)
            && (forall s | s in room :: s in slots)
            && (!Has(slots, o) ==> !Has(room, o))
  {
    var k := RoomMeaning(options, slots, accounted);
    var room := Room(options, slots, accounted);
    assert forall j | 0 <= j < |room| :: room[j] == slots[k + j];
    if !Has(slots, o) {
      assert Find(room, o) == |room|;
    }
  }

  lemma CommittedIsWellFormed(options: Options, s: State, o: Origin, prepared: Prepared, reading: Option<int>)
    requires WellFormed(options, s)
    ensures WellFormed(options, Committed(options, s, o, prepared, reading).0)
  {
    hide Find, Without, Room, Total, Distinct, Has, Roomy;
    ReadIsWellFormed(options, s, reading);
    var now := Sampled(s, reading);
    if now.Some? {
      WithoutMeaning(s.positive, o);
      FewerFailures(s.negative, o);
      var others := Without(s.positive, o);
      if Retainable(options, o, prepared, now.value) {
        var slot := Entry(o, prepared);
        RoomMembers(options, others, slot.bytes, o);
        var room := Room(options, others, slot.bytes);
        RoomyMeaning(options, room, slot.bytes);
        Appended(room, slot);
        assert forall x | x in room + [slot] :: x in room || x == slot;
      }
    }
  }

  lemma RoomyMeaning(options: Options, slots: seq<Slot>, accounted: nat)
    requires Roomy(options, slots, accounted)
    ensures |slots| < options.maxEntries && Total(slots) + accounted <= options.maxBytes
  {
  }

  lemma FewerFailures(negative: map<Origin, int>, o: Origin)
    ensures |negative - {o}| <= |negative|
  {
    assert (negative - {o}).Keys == negative.Keys - {o};
    SubsetIsSmaller((negative - {o}).Keys, negative.Keys);
    assert |negative - {o}| == |(negative - {o}).Keys| && |negative| == |negative.Keys|;
  }

  lemma FewerLive(negative: map<Origin, int>, now: int)
    ensures |Live(negative, now)| <= |negative|
  {
    SubsetIsSmaller(Live(negative, now).Keys, negative.Keys);
    assert |Live(negative, now)| == |Live(negative, now).Keys| && |negative| == |negative.Keys|;
  }

  lemma FailedIsWellFormed(options: Options, s: State, o: Origin, reading: Option<int>)
    requires WellFormed(options, s)
    ensures WellFormed(options, Failed(options, s, o, reading))
    ensures WellFormed(options, Blocked(s, o, reading).0)
  {
    var now := Sampled(s, reading);
    if now.Some? {
      FewerLive(s.negative, now.value);
      GrowKeys(Live(s.negative, now.value), o, Later(Live(s.negative, now.value), o, now.value + Duration(options))[o]);
    }
  }

  lemma GrowKeys(m: map<Origin, int>, o: Origin, v: int)
    ensures |m[o := v]| == if o in m then |m| else |m| + 1
  {
    assert m[o := v].Keys == m.Keys + {o};
    assert |m| == |m.Keys| && |m[o := v]| == |m[o := v].Keys|;
  }

  // ---------------------------------------------------------------- the cache

  class DirectoryCache {
    const options: Options
    var positive: seq<Slot>
    var negative: map<Origin, int>
    var bytes: nat
    var lastTime: int
    var healthy: bool
    var overflowUntil: int

    function Value(): State
      reads this
    {
      State(positive, negative, overflowUntil, lastTime, healthy)
    }

    /** The byte counter is exact. */
    ghost predicate Valid()
      reads this
    {
      WellFormed(options, Value()) && bytes == Total(positive)
    }

    constructor (options: Options)
      ensures Valid() && this.options == options && Value() == START
    {
      this.options := options;
      positive, negative, bytes, lastTime := [], map[], 0, 0;
      healthy, overflowUntil := true, 0;
    }

    method Now(reading: Option<int>) returns (now: Option<int>)
      requires Valid()
      modifies this`lastTime, this`healthy
      ensures Valid()
      ensures now == Sampled(old(Value()), reading) && Value() == Read(old(Value()), reading)
    {
      if !healthy { return None; }
      if reading.None? || reading.value < lastTime || reading.value > MAX_SAFE {
        healthy := false;
        return None;
      }
      lastTime := reading.value;
      now := reading;
    }

    method Remove(o: Origin)
      requires Valid()
      modifies this`positive, this`bytes
      ensures Valid() && positive == Without(old(positive), o)
    {
      hide Total, Find, Distinct, Has;
      WithoutMeaning(positive, o);
      var i := Find(positive, o);
      if i < |positive| {
        FindMeaning(positive, o);
        WithinTotal(positive, i);
        bytes := bytes - positive[i].bytes;
        positive := positive[..i] + positive[i + 1..];
      }
    }

    method Commit(o: Origin, prepared: Prepared, reading: Option<int>) returns (persisted: bool)
      requires Valid()
      modifies this`positive, this`bytes, this`negative, this`lastTime, this`healthy
      ensures Valid()
      ensures (Value(), persisted) == Committed(options, old(Value()), o, prepared, reading)
    {
      hide Total, Find, Without, Distinct, Has, Room;
      var sample := Now(reading);
      if sample.None? { return false; }
      WellFormedIsDistinct(options, Value());
      WithoutMeaning(positive, o);
      Remove(o);
      FewerFailures(negative, o);
      negative := negative - {o};
      persisted := Retain(o, prepared, sample.value);
    }

    /** Keeps a set that may be kept, behind all others. */
    method Retain(o: Origin, prepared: Prepared, now: int) returns (persisted: bool)
      requires Valid() && !Has(positive, o)
      modifies this`positive, this`bytes
      ensures Valid()
      ensures persisted <==> Retainable(options, o, prepared, now)
      ensures positive == if persisted then Room(options, old(positive), Accounted(prepared.document, o)) + [Entry(o, prepared)]
                          else old(positive)
    {
      hide Total, Find, Without, Distinct, Has, Room, Roomy;
      var accounted := Accounted(prepared.document, o);
      if !prepared.freshness.persist || options.maxEntries == 0 || accounted > options.maxBytes
         || prepared.freshness.received > now {
        return false;
      }
      WellFormedIsDistinct(options, Value());
      RoomMembers(options, positive, accounted, o);
      MakeRoom(accounted);
      RoomyMeaning(options, positive, accounted);
      Appended(positive, Entry(o, prepared));
      positive := positive + [Entry(o, prepared)];
      bytes := bytes + accounted;
      persisted := true;
    }

    /** Gives up the oldest slots until there is room for one more. */
    method MakeRoom(accounted: nat)
      requires Valid() && options.maxEntries > 0 && accounted <= options.maxBytes
      modifies this`positive, this`bytes
      ensures Valid() && positive == Room(options, old(positive), accounted)
    {
      hide Total, Find, Without, Distinct, Has;
      while |positive| >= options.maxEntries || bytes + accounted > options.maxBytes
        invariant Valid()
        invariant Room(options, positive, accounted) == Room(options, old(positive), accounted)
        decreases |positive|
      {
        // There is an oldest slot: an empty cache has room for anything retainable.
        if positive == [] {
          NothingIsFree();
        }
        WellFormedIsDistinct(options, Value());
        DropFirst(positive);
        Remove(positive[0].origin);
      }
    }

    method LookUp(o: Origin, t: Thumbprint, reading: Option<int>) returns (r: Lookup)
      requires Valid()
      modifies this`lastTime, this`healthy
      ensures Valid() && Value() == Read(old(Value()), reading)
      ensures r == LookedUp(old(Value()), o, t, reading)
    {
      var sample := Now(reading);
      var i := Find(positive, o);
      if sample.None? || i == |positive| || !Fresh(positive[i].prepared.freshness, sample.value) {
        return UnknownKey;
      }
      r := KeyIn(positive[i].prepared.document, t);
    }

    /** The final gate: whether a key selected earlier is still in the current set of its origin. */
    method Recheck(o: Origin, t: Thumbprint, reading: Option<int>) returns (ok: bool)
      requires Valid()
      modifies this`lastTime, this`healthy
      ensures Valid() && Value() == Read(old(Value()), reading)
      ensures ok <==> LookedUp(old(Value()), o, t, reading) == Found
    {
      var sample := Now(reading);
      if sample.None? { return false; }
      var i := Find(positive, o);
      if i == |positive| || !Fresh(positive[i].prepared.freshness, sample.value) { return false; }
      ok := KeyIn(positive[i].prepared.document, t) == Found;
    }

    method RecordFailure(o: Origin, reading: Option<int>)
      requires Valid()
      modifies this`negative, this`overflowUntil, this`lastTime, this`healthy
      ensures Valid() && Value() == Failed(options, old(Value()), o, reading)
    {
      hide Total, Distinct;
      FailedIsWellFormed(options, Value(), o, reading);
      var sample := Now(reading);
      if sample.None? { return; }
      var time := sample.value;
      FewerLive(negative, time);
      negative := Live(negative, time);
      var duration := options.negativeSeconds * 1000;
      if duration == 0 { return; }
      var deadline := time + duration;
      if deadline > MAX_SAFE {
        healthy := false;
        return;
      }
      if o in negative || |negative| < options.maxNegative {
        negative := Later(negative, o, deadline);
      } else {
        overflowUntil := Max(overflowUntil, deadline);
      }
    }

    method FetchBlocked(o: Origin, reading: Option<int>) returns (blocked: bool)
      requires Valid()
      modifies this`negative, this`lastTime, this`healthy
      ensures Valid() && (Value(), blocked) == Blocked(old(Value()), o, reading)
    {
      var sample := Now(reading);
      if sample.None? { return true; }
      var time := sample.value;
      FewerLive(negative, time);
      negative := Live(negative, time);
      blocked := time < overflowUntil || (o in negative && time < negative[o]);
    }
  }

  lemma FindMeaning(slots: seq<Slot>, o: Origin)
    ensures Has(slots, o) <==> Find(slots, o) < |slots|
  {
  }

  lemma WithinTotal(slots: seq<Slot>, i: nat)
    requires i < |slots|
    ensures slots[i].bytes <= Total(slots)
  {
    assert slots == slots[..i] + ([slots[i]] + slots[i + 1..]);
    TotalConcat(slots[..i], [slots[i]] + slots[i + 1..]);
    TotalConcat([slots[i]], slots[i + 1..]);
    assert Total([slots[i]]) == slots[i].bytes;
  }

  lemma WellFormedIsDistinct(options: Options, s: State)
    requires WellFormed(options, s)
    ensures Distinct(s.positive)
  {
  }

  lemma NothingIsFree()
    ensures Total([]) == 0
  {
  }
}
