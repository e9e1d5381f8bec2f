/**
 * Process-local replay memory: a lazily expiring store with per-key counters, proved equal to a
 * naive store that filters every expired record on every call.
 */
module MemoryReplayStore {
  import opened Basics
  import opened Codes
  import Base64

  /** The collision-free tuple of scope, key thumbprint and nonce. */
  datatype Identity = Identity(scope: Text, keyThumbprint: Text, nonce: Text)

  datatype Limits = Limits(maxScopeBytes: nat, maxNonceBytes: nat)

  datatype ReplayPolicy = ReplayPolicy(capacity: nat, maxPerKey: nat)

  datatype ConsumeInput = ConsumeInput(
    identity: Identity,
    nowEpochSeconds: int,
    retainUntilEpochSeconds: int)

  /** What the store remembers: the retention deadline of each identity, and its newest clock reading. */
  datatype History = History(records: map<Identity, int>, lastNow: int)

  const EMPTY := History(map[], 0)

  predicate Ascii(t: Text) { forall i | 0 <= i < |t| :: t[i] < 128 }

  predicate Base64UrlCode(c: Code) {
    (48 <= c <= 57) || (65 <= c <= 90) || (97 <= c <= 122) || c == 45 || c == 95
  }

  /** The six bits a base64url character stands for. */
  function Base64UrlValue(c: Code): int
    requires Base64UrlCode(c)
  {
    if 65 <= c <= 90 then c - 65
    else if 97 <= c <= 122 then c - 71
    else if 48 <= c <= 57 then c + 4
    else if c == 45 then 62
    else 63
  }

  /** 43 characters that are the canonical text of 32 bytes: the two bits beyond them are zero. */
  predicate ValidThumbprint(t: Text) {
    && |t| == 43
    && (forall i | 0 <= i < |t| :: Base64UrlCode(t[i]))
    && Base64UrlValue(t[42]) % 4 == 0
  }

  /** Base64url replaces the last two symbols of base64 by a hyphen and an underscore. */
  function UrlCode(c: Code): Code { if c == 43 then 45 else if c == 47 then 95 else c }

  function UrlText(t: Text): Text { seq(|t|, i requires 0 <= i < |t| => UrlCode(t[i])) }

  function StandardCode(c: Code): Code { if c == 45 then 43 else if c == 95 then 47 else c }

  lemma StandardMeaning(c: Code)
    requires Base64UrlCode(c)
    ensures Base64.Alphabet(StandardCode(c)) && Base64.Sextet(StandardCode(c)) == Base64UrlValue(c)
    ensures UrlCode(StandardCode(c)) == c
  {
  }

  /** A thumbprint is valid exactly if it is the base64url text of a hash of 32 bytes. */
  lemma ThumbprintIsHash(t: Text)
    ensures ValidThumbprint(t) <==> exists hash: seq<Byte> :: |hash| == 32 && t == UrlText(Base64.Content(hash))
  {
    hide ValidThumbprint, UrlText, Base64.Content;
    if ValidThumbprint(t) {
      var hash := HashOf(t);
    }
    forall hash: seq<Byte> | |hash| == 32 && t == UrlText(Base64.Content(hash)) ensures ValidThumbprint(t) {
      HashIsThumbprint(hash, t);
    }
  }

  lemma HashOf(t: Text) returns (hash: seq<Byte>)
    requires ValidThumbprint(t)
    ensures |hash| == 32 && t == UrlText(Base64.Content(hash))
  {
    hide Base64.Alphabet, Base64.Sextet, Base64.Content, Base64.Decode, UrlCode, StandardCode, Base64UrlCode, Base64UrlValue;
    forall i | 0 <= i < |t|
      ensures Base64.Alphabet(StandardCode(t[i])) && Base64.Sextet(StandardCode(t[i])) == Base64UrlValue(t[i])
      ensures UrlCode(StandardCode(t[i])) == t[i]
    {
      StandardMeaning(t[i]);
    }
    var u: Text := seq(|t|, i requires 0 <= i < |t| => StandardCode(t[i]));
    hash := Base64.Decode(u);
    Base64.ContentDecode(u);
    var v := Base64.Content(hash);
    Base64.SymbolBack(v[42]);
    Base64.SymbolBack(u[42]);
    assert v == u;
  }

  lemma HashIsThumbprint(hash: seq<Byte>, t: Text)
    requires |hash| == 32 && t == UrlText(Base64.Content(hash))
    ensures ValidThumbprint(t)
  {
    var v := Base64.Content(hash);
    assert v[42] == Base64.Symbol(Base64.SextetAt(hash, 42));
    assert 42 / 4 == 10 && 42 % 4 == 2;
    assert Base64.SextetAt(hash, 42) % 4 == 0;
    forall i | 0 <= i < |t| ensures Base64UrlCode(t[i]) && Base64UrlValue(t[i]) == Base64.Sextet(v[i]) {
      assert Base64.Alphabet(v[i]);
    }
  }

  predicate ValidNonce(t: Text, maximumBytes: nat) {
    && 1 <= |t| <= maximumBytes
    && forall i | 0 <= i < |t| :: 0x20 <= t[i] <= 0x7e
  }

  predicate ValidInput(limits: Limits, lastNow: int, input: ConsumeInput) {
    && 1 <= |input.identity.scope| <= limits.maxScopeBytes
    && Ascii(input.identity.scope)
    && ValidThumbprint(input.identity.keyThumbprint)
    && ValidNonce(input.identity.nonce, limits.maxNonceBytes)
    && 0 <= input.nowEpochSeconds <= MAX_SAFE
    && 0 <= input.retainUntilEpochSeconds <= MAX_SAFE
    && input.nowEpochSeconds < input.retainUntilEpochSeconds
    && lastNow <= input.nowEpochSeconds
  }

  function Live(records: map<Identity, int>, now: int): map<Identity, int> {
    map id | id in records && now < records[id] :: records[id]
  }

  function OfKey(records: map<Identity, int>, thumbprint: Text): set<Identity> {
    set id | id in records && id.keyThumbprint == thumbprint
  }

  /** The naive store: forget what expired, then replay, per-key quota, capacity, insertion. */
  function Consumed(h: History, policy: ReplayPolicy, limits: Limits, input: ConsumeInput): (History, StoreOutcome) {
    if !ValidInput(limits, h.lastNow, input) then (h, Unavailable)
    else
      var live := Live(h.records, input.nowEpochSeconds);
      var next := History(live, input.nowEpochSeconds);
      if input.identity in live then (next, Replayed)
      else if |OfKey(live, input.identity.keyThumbprint)| >= policy.maxPerKey then (next, QuotaExceeded)
      else if |live| >= policy.capacity then (next, Unavailable)
      else (next.(records := live[input.identity := input.retainUntilEpochSeconds]), Accepted)
  }

  ghost predicate Bounded(records: map<Identity, int>, policy: ReplayPolicy) {
    && |records| <= policy.capacity
    && forall t :: |OfKey(records, t)| <= policy.maxPerKey
  }

  lemma AddStaysBounded(records: map<Identity, int>, policy: ReplayPolicy, identity: Identity, until: int)
    requires Bounded(records, policy)
    requires identity !in records && |records| < policy.capacity
    requires |OfKey(records, identity.keyThumbprint)| < policy.maxPerKey
    ensures Bounded(records[identity := until], policy)
  {
    var more := records[identity := until];
    forall t ensures |OfKey(more, t)| <= policy.maxPerKey {
      if t == identity.keyThumbprint {
        assert OfKey(more, t) == OfKey(records, t) + {identity};
      } else {
        assert OfKey(more, t) == OfKey(records, t);
      }
    }
  }

  lemma LiveStaysBounded(records: map<Identity, int>, policy: ReplayPolicy, now: int)
    requires Bounded(records, policy)
    ensures Bounded(Live(records, now), policy)
  {
    SubmapIsSmaller(Live(records, now), records);
  }

  lemma SubmapIsSmaller(small: map<Identity, int>, big: map<Identity, int>)
    requires small.Keys <= big.Keys
    ensures |small| <= |big|
    ensures forall t :: |OfKey(small, t)| <= |OfKey(big, t)|
  {
    SubsetIsSmaller(small.Keys, big.Keys);
    assert |small| == |small.Keys| && |big| == |big.Keys|;
    forall t ensures |OfKey(small, t)| <= |OfKey(big, t)| {
      SubsetIsSmaller(OfKey(small, t), OfKey(big, t));
    }
  }

  /**
   * One call keeps both budgets, never evicts or changes a record that is still live, and adds at
   * most the record it accepts.
   */
  lemma ConsumeKeepsLiveRecords(h: History, policy: ReplayPolicy, limits: Limits, input: ConsumeInput)
    requires Bounded(h.records, policy)
    ensures var (next, outcome) := Consumed(h, policy, limits, input);
            && Bounded(next.records, policy)
            && (forall id | id in h.records && input.nowEpochSeconds < h.records[id] ::
                  id in next.records && next.records[id] == h.records[id])
            && (outcome == Accepted <==>
                  && input.identity in next.records
                  && (input.identity !in h.records || h.records[input.identity] <= input.nowEpochSeconds)
                  && next != h)
            && (outcome == Replayed <==>
                  && ValidInput(limits, h.lastNow, input)
                  && input.identity in h.records && input.nowEpochSeconds < h.records[input.identity])
            && (forall id | id in next.records && (outcome != Accepted || id != input.identity) ::
                  id in h.records && next.records[id] == h.records[id])
  {
    if ValidInput(limits, h.lastNow, input) {
      var live := Live(h.records, input.nowEpochSeconds);
      LiveStaysBounded(h.records, policy, input.nowEpochSeconds);
      if Consumed(h, policy, limits, input).1 == Accepted {
        AddStaysBounded(live, policy, input.identity, input.retainUntilEpochSeconds);
      }
    }
  }

  /** The identities with a record that is still live, of one key or of any. */
  ghost function LiveIdentities(h: History, now: int): set<Identity> { set id | id in h.records && now < h.records[id] }

  ghost function LiveOfKey(h: History, now: int, thumbprint: Text): set<Identity> {
    set id | id in h.records && now < h.records[id] && id.keyThumbprint == thumbprint
  }

  /** Why a call is not even considered: a malformed tuple, a deadline that is not later, or time that went back. */
  ghost predicate Malformed(limits: Limits, h: History, input: ConsumeInput) {
    var id, now, until := input.identity, input.nowEpochSeconds, input.retainUntilEpochSeconds;
    || id.scope == [] || |id.scope| > limits.maxScopeBytes || (exists i :: 0 <= i < |id.scope| && id.scope[i] >= 128)
    || !(exists hash: seq<Byte> :: |hash| == 32 && id.keyThumbprint == UrlText(Base64.Content(hash)))
    || id.nonce == [] || |id.nonce| > limits.maxNonceBytes || (exists i :: 0 <= i < |id.nonce| && !(32 <= id.nonce[i] <= 126))
    || now < 0 || until > 9007199254740991 || until <= now || now < h.lastNow
  }

  lemma MalformedIsInvalid(limits: Limits, h: History, input: ConsumeInput)
    ensures Malformed(limits, h, input) <==> !ValidInput(limits, h.lastNow, input)
  {
    ThumbprintIsHash(input.identity.keyThumbprint);
    hide ValidThumbprint;
  }

  /**
   * The outcome of every call, by the live records alone: a replay exactly if the identity has one, else
   * the quota exactly if its own key has as many as one key may have, else unavailable exactly if there
   * are as many as the store may hold, and accepted in all other cases.
   */
  lemma OutcomeIsExact(h: History, policy: ReplayPolicy, limits: Limits, input: ConsumeInput)
    ensures var (next, outcome) := Consumed(h, policy, limits, input);
      var id, now := input.identity, input.nowEpochSeconds;
      var live := LiveIdentities(h, now);
      && (Malformed(limits, h, input) ==> outcome == Unavailable && next == h)
      && (!Malformed(limits, h, input) ==>
            && (outcome == Replayed <==> id in live)
            && (outcome == QuotaExceeded <==> id !in live && |LiveOfKey(h, now, id.keyThumbprint)| >= policy.maxPerKey)
            && (outcome == Unavailable <==>
                  id !in live && |LiveOfKey(h, now, id.keyThumbprint)| < policy.maxPerKey && |live| >= policy.capacity)
            && next.lastNow == now
            && next.records.Keys == (if outcome == Accepted then live + {id} else live)
            && (forall other | other in live :: next.records[other] == h.records[other])
            && (outcome == Accepted ==> id !in live && next.records[id] == input.retainUntilEpochSeconds))
  {
    MalformedIsInvalid(limits, h, input);
    hide ValidInput, Malformed;
    var live := Live(h.records, input.nowEpochSeconds);
    assert live.Keys == LiveIdentities(h, input.nowEpochSeconds);
    assert |live| == |live.Keys|;
    assert OfKey(live, input.identity.keyThumbprint) == LiveOfKey(h, input.nowEpochSeconds, input.identity.keyThumbprint);
  }

  /** The store object. `entries` keeps its deadlines; the two derived fields are always exact. */
  class Store {
    const policy: ReplayPolicy
    const limits: Limits
    var entries: map<Identity, int>
    var perKey: map<Text, nat>
    var nextExpiry: Option<int>
    var lastNow: int

    /** The next expiry is the minimum deadline (`None` when there is none), each counter a count. */
    ghost predicate Valid()
      reads this
    {
      && ExactCounters(entries, perKey)
      && ExactExpiry(entries, nextExpiry)
      && Bounded(entries, policy)
    }

    function Value(): History
      reads this
    {
      History(entries, lastNow)
    }

    constructor (policy: ReplayPolicy, limits: Limits)
      ensures Valid() && Value() == EMPTY && this.policy == policy && this.limits == limits
    {
      this.policy, this.limits := policy, limits;
      entries, perKey, nextExpiry, lastNow := map[], map[], None, 0;
    }

    method Expire(now: int)
      requires Valid()
      modifies `entries, `perKey, `nextExpiry
      ensures Valid()
      ensures entries == Live(old(entries), now)
    {
      if nextExpiry.None? || now < nextExpiry.value {
        assert entries == Live(entries, now);
        return;
      }
      nextExpiry := None;
      var visiting := entries.Keys;
      ghost var before := entries;
      SweepStarts(entries, perKey, now);
      while visiting != {}
        invariant Sweeping(before, now, entries, perKey, nextExpiry, visiting)
      {
        var identity :| identity in visiting;
        var deadline := entries[identity];
        if deadline <= now {
          SweepDrops(before, now, entries, perKey, nextExpiry, visiting, identity);
          var count := perKey[identity.keyThumbprint] - 1;
          entries := entries - {identity};
          perKey := WithCount(perKey, identity.keyThumbprint, count);
        } else {
          SweepKeeps(before, now, entries, perKey, nextExpiry, visiting, identity);
          nextExpiry := Earlier(nextExpiry, deadline);
        }
        visiting := visiting - {identity};
      }
      SweepEnds(before, now, entries, perKey, nextExpiry);
      LiveStaysBounded(before, policy, now);
    }

    method Consume(input: ConsumeInput) returns (outcome: StoreOutcome)
      requires Valid()
      modifies `entries, `perKey, `nextExpiry, `lastNow
      ensures Valid()
      ensures (Value(), outcome) == Consumed(old(Value()), policy, limits, input)
    {
      if !ValidInput(limits, lastNow, input) {
        return Unavailable;
      }
      var now := input.nowEpochSeconds;
      var identity := input.identity;
      var thumbprint := identity.keyThumbprint;
      Expire(now);
      lastNow := now;
      if identity in entries {
        return Replayed;
      }
      var count := CountOf(thumbprint);
      if count >= policy.maxPerKey {
        return QuotaExceeded;
      }
      if |entries| >= policy.capacity {
        return Unavailable;
      }
      Insert(identity, input.retainUntilEpochSeconds, count);
      outcome := Accepted;
    }

    method CountOf(thumbprint: Text) returns (count: nat)
      requires Valid()
      ensures count == |OfKey(entries, thumbprint)|
    {
      count := if thumbprint in perKey then perKey[thumbprint] else 0;
    }

    method Insert(identity: Identity, until: int, count: nat)
      requires Valid()
      requires identity !in entries && |entries| < policy.capacity
      requires count == |OfKey(entries, identity.keyThumbprint)| < policy.maxPerKey
      modifies `entries, `perKey, `nextExpiry
      ensures Valid()
      ensures entries == old(entries)[identity := until]
    {
      AddOne(entries, perKey, identity, until);
      AddExpiry(entries, nextExpiry, identity, until);
      AddStaysBounded(entries, policy, identity, until);
      entries := entries[identity := until];
      perKey := perKey[identity.keyThumbprint := count + 1];
      nextExpiry := Earlier(nextExpiry, until);
    }

    method ClearForClockReset() returns (clearedRecords: nat, clearedQuotaCounters: nat)
      requires Valid()
      modifies `entries, `perKey, `nextExpiry, `lastNow
      ensures Valid() && Value() == EMPTY
      ensures clearedRecords == |old(entries)| && clearedQuotaCounters == |old(perKey)|
    {
      clearedRecords, clearedQuotaCounters := |entries|, |perKey|;
      entries, perKey, nextExpiry, lastNow := map[], map[], None, 0;
      assert forall t :: OfKey(entries, t) == {};
    }
  }

  ghost predicate ExactCounters(entries: map<Identity, int>, perKey: map<Text, nat>) {
    forall t :: (t in perKey <==> OfKey(entries, t) != {}) && (t in perKey ==> perKey[t] == |OfKey(entries, t)|)
  }

  ghost predicate ExactExpiry(entries: map<Identity, int>, nextExpiry: Option<int>) {
    && (nextExpiry.None? <==> entries == map[])
    && (forall id | id in entries :: nextExpiry.value <= entries[id])
    && (nextExpiry.Some? ==> exists id | id in entries :: entries[id] == nextExpiry.value)
  }

  /** A counter that reaches zero is removed. */
  function WithCount(perKey: map<Text, nat>, thumbprint: Text, count: nat): map<Text, nat> {
    if count == 0 then perKey - {thumbprint} else perKey[thumbprint := count]
  }

  function Earlier(nextExpiry: Option<int>, deadline: int): Option<int> {
    Some(if nextExpiry.Some? then Min(nextExpiry.value, deadline) else deadline)
  }

  /** The state of the expiry sweep: `visiting` are the records not looked at yet. */
  ghost predicate Sweeping(before: map<Identity, int>, now: int, entries: map<Identity, int>,
                           perKey: map<Text, nat>, nextExpiry: Option<int>, visiting: set<Identity>) {
    && visiting <= entries.Keys <= before.Keys
    && (forall id | id in entries :: entries[id] == before[id])
    && (forall id | id in before && id !in entries :: before[id] <= now)
    && (forall id | id in entries && id !in visiting :: now < entries[id])
    && ExactCounters(entries, perKey)
    && ExactExpiry(entries - visiting, nextExpiry)
  }

  lemma SweepStarts(entries: map<Identity, int>, perKey: map<Text, nat>, now: int)
    requires ExactCounters(entries, perKey)
    ensures Sweeping(entries, now, entries, perKey, None, entries.Keys)
  {
    assert entries - entries.Keys == map[];
  }

  lemma SweepDrops(before: map<Identity, int>, now: int, entries: map<Identity, int>, perKey: map<Text, nat>,
                   nextExpiry: Option<int>, visiting: set<Identity>, identity: Identity)
    requires Sweeping(before, now, entries, perKey, nextExpiry, visiting)
    requires identity in visiting && entries[identity] <= now
    ensures identity.keyThumbprint in perKey && perKey[identity.keyThumbprint] >= 1
    ensures Sweeping(before, now, entries - {identity},
                     WithCount(perKey, identity.keyThumbprint, perKey[identity.keyThumbprint] - 1),
                     nextExpiry, visiting - {identity})
  {
    DropOne(entries, perKey, identity);
    assert (entries - {identity}) - (visiting - {identity}) == entries - visiting;
  }

  lemma SweepKeeps(before: map<Identity, int>, now: int, entries: map<Identity, int>, perKey: map<Text, nat>,
                   nextExpiry: Option<int>, visiting: set<Identity>, identity: Identity)
    requires Sweeping(before, now, entries, perKey, nextExpiry, visiting)
    requires identity in visiting && now < entries[identity]
    ensures Sweeping(before, now, entries, perKey, Earlier(nextExpiry, entries[identity]), visiting - {identity})
  {
    assert entries - (visiting - {identity}) == (entries - visiting)[identity := entries[identity]];
    AddExpiry(entries - visiting, nextExpiry, identity, entries[identity]);
  }

  lemma SweepEnds(before: map<Identity, int>, now: int, entries: map<Identity, int>, perKey: map<Text, nat>,
                  nextExpiry: Option<int>)
    requires Sweeping(before, now, entries, perKey, nextExpiry, {})
    ensures entries == Live(before, now)
    ensures ExactCounters(entries, perKey) && ExactExpiry(entries, nextExpiry)
  {
    assert entries - {} == entries;
  }

  lemma AddExpiry(entries: map<Identity, int>, nextExpiry: Option<int>, identity: Identity, until: int)
    requires ExactExpiry(entries, nextExpiry)
    requires identity !in entries
    ensures ExactExpiry(entries[identity := until], Earlier(nextExpiry, until))
  {
    var more := entries[identity := until];
    var earliest := Earlier(nextExpiry, until).value;
    assert more[identity] == until;
    if earliest != until {
      var id :| id in entries && entries[id] == nextExpiry.value;
      assert more[id] == earliest;
    }
  }

  lemma DropOne(entries: map<Identity, int>, perKey: map<Text, nat>, identity: Identity)
    requires ExactCounters(entries, perKey)
    requires identity in entries
    ensures identity.keyThumbprint in perKey && perKey[identity.keyThumbprint] >= 1
    ensures ExactCounters(entries - {identity},
                          WithCount(perKey, identity.keyThumbprint, perKey[identity.keyThumbprint] - 1))
  {
    var less := entries - {identity};
    var key := identity.keyThumbprint;
    assert identity in OfKey(entries, key);
    assert OfKey(less, key) == OfKey(entries, key) - {identity};
    forall t | t != key ensures OfKey(less, t) == OfKey(entries, t) {
    }
    assert |OfKey(less, key)| == 0 <==> OfKey(less, key) == {};
  }

  lemma AddOne(entries: map<Identity, int>, perKey: map<Text, nat>, identity: Identity, until: int)
    requires ExactCounters(entries, perKey)
    requires identity !in entries
    ensures var count := if identity.keyThumbprint in perKey then perKey[identity.keyThumbprint] else 0;
            && count == |OfKey(entries, identity.keyThumbprint)|
            && ExactCounters(entries[identity := until], perKey[identity.keyThumbprint := count + 1])
  {
    var more := entries[identity := until];
    assert OfKey(more, identity.keyThumbprint) == OfKey(entries, identity.keyThumbprint) + {identity};
    forall t | t != identity.keyThumbprint ensures OfKey(more, t) == OfKey(entries, t) {
    }
  }
}
