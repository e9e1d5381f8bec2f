/** The freshness of directory evidence, from response headers and elapsed monotonic time. */
module Freshness {
  import opened Basics
  import Cache = DirectoryCache

  /** One cache-control directive, parsed; `None` is a value that is no delta of seconds. */
  datatype Directive = NoCache | NoStore | Private | MaxAge(seconds: Option<nat>) | SMaxAge(seconds: Option<nat>) | OtherDirective

  /** One header occurrence: what its value parses to, or nothing when it does not parse. */
  datatype Value =
    | CacheControl(directives: Option<seq<Directive>>)
    | Pragma(directives: Option<seq<Directive>>)
    | Date(at: Option<int>)
    | Expires(at: Option<int>)
    | Age(seconds: Option<nat>)
    | OtherHeader

  /** `bytes` counts the name, the value and four more. */
  datatype Header = Header(value: Value, bytes: nat)

  datatype Policy = Policy(fallbackSeconds: nat, maximumLifetimeSeconds: nat)

  /** Receipt times in milliseconds; none when the runtime gave something unusable. */
  datatype Receipt = Receipt(started: int, received: int, wall: int, usable: bool)

  const BUDGET := 16384

  predicate Sensible(p: Policy) { p.fallbackSeconds <= 300 && p.maximumLifetimeSeconds <= 300 }

  // ---------------------------------------------------------------- what headers say together

  /** Nothing, exactly one value, or too many. */
  datatype Once<T> = Never | Only(value: T) | Many

  function Both<T>(a: Once<T>, b: Once<T>): Once<T> {
    if a.Never? then b else if b.Never? then a else Many
  }

  function Least(a: Option<nat>, b: Option<nat>): Option<nat> {
    if a.None? then b else if b.None? then a else Some(if a.value < b.value then a.value else b.value)
  }

  datatype Summary = Summary(
    bytes: nat, forbidden: bool, broken: bool, revalidate: bool, lifetime: Option<nat>,
    maxAges: Once<()>, sMaxAges: Once<()>, date: Once<Option<int>>, expires: Once<Option<int>>, age: Once<Option<nat>>)

  const NOTHING := Summary(0, false, false, false, None, Never, Never, Never, Never, Never)

  function Merge(a: Summary, b: Summary): Summary {
    Summary(a.bytes + b.bytes, a.forbidden || b.forbidden, a.broken || b.broken, a.revalidate || b.revalidate,
            Least(a.lifetime, b.lifetime), Both(a.maxAges, b.maxAges), Both(a.sMaxAges, b.sMaxAges),
            Both(a.date, b.date), Both(a.expires, b.expires), Both(a.age, b.age))
  }

  function OfDirective(d: Directive, pragma: bool): Summary {
    match d
    case NoCache => NOTHING.(revalidate := true)
    case NoStore => NOTHING.(forbidden := !pragma)
    case Private => NOTHING.(forbidden := !pragma)
    case MaxAge(s) => if pragma then NOTHING else NOTHING.(maxAges := Only(()), lifetime := s, broken := s.None?)
    case SMaxAge(s) => if pragma then NOTHING else NOTHING.(sMaxAges := Only(()), lifetime := s, broken := s.None?)
    case OtherDirective => NOTHING
  }

  function OfDirectives(ds: seq<Directive>, pragma: bool): Summary {
    if ds == [] then NOTHING else Merge(OfDirectives(ds[..|ds| - 1], pragma), OfDirective(ds[|ds| - 1], pragma))
  }

  /** An unreadable cache-control list cannot show that storing is allowed. */
  function OfValue(v: Value): Summary {
    match v
    case CacheControl(None) => NOTHING.(broken := true, forbidden := true)
    case CacheControl(Some(ds)) => OfDirectives(ds, false)
    case Pragma(None) => NOTHING.(broken := true)
    case Pragma(Some(ds)) => OfDirectives(ds, true)
    case Date(at) => NOTHING.(date := Only(at))
    case Expires(at) => NOTHING.(expires := Only(at))
    case Age(seconds) => NOTHING.(age := Only(seconds))
    case OtherHeader => NOTHING
  }

  function OfHeader(h: Header): Summary { Merge(NOTHING.(bytes := h.bytes), OfValue(h.value)) }

  function OfHeaders(hs: seq<Header>): Summary {
    if hs == [] then NOTHING else Merge(OfHeaders(hs[..|hs| - 1]), OfHeader(hs[|hs| - 1]))
  }

  // ---------------------------------------------------------------- the order of headers does not matter

  lemma MergeLaws(a: Summary, b: Summary, c: Summary)
    ensures Merge(Merge(a, b), c) == Merge(Merge(a, c), b)
    ensures Merge(NOTHING, a) == a
  {
  }

  lemma {:induction false} HeaderMovesLast(before: seq<Header>, h: Header, after: seq<Header>)
    ensures OfHeaders(before + [h] + after) == Merge(OfHeaders(before + after), OfHeader(h))
    decreases |after|
  {
    hide Merge, OfHeader;
    var all := before + [h] + after;
    if after == [] {
      assert all[..|all| - 1] == before && before + after == before;
    } else {
      var init, last := after[..|after| - 1], after[|after| - 1];
      HeaderMovesLast(before, h, init);
      assert all[..|all| - 1] == before + [h] + init;
      assert (before + after)[..|before + after| - 1] == before + init;
      MergeLaws(OfHeaders(before + init), OfHeader(h), OfHeader(last));
    }
  }

  lemma RemoveOne(a: seq<Header>, h: Header, before: seq<Header>, after: seq<Header>)
    requires multiset(a + [h]) == multiset(before + [h] + after)
    ensures multiset(a) == multiset(before + after)
  {
    assert multiset(a) == multiset(a + [h]) - multiset{h};
    assert multiset(before + after) == multiset(before + [h] + after) - multiset{h};
  }

  /** Equal headers in any order say the same. */
  lemma {:induction false} OrderIsIrrelevant(a: seq<Header>, b: seq<Header>)
    requires multiset(a) == multiset(b)
    ensures OfHeaders(a) == OfHeaders(b)
    decreases |a|
  {
    hide Merge, OfHeader;
    if a == [] {
      assert |multiset(b)| == 0;
    } else {
      var h := a[|a| - 1];
      assert h in multiset(b);
      var i :| 0 <= i < |b| && b[i] == h;
      var before, after := b[..i], b[i + 1..];
      assert a == a[..|a| - 1] + [h] && b == before + [h] + after;
      RemoveOne(a[..|a| - 1], h, before, after);
      OrderIsIrrelevant(a[..|a| - 1], before + after);
      HeaderMovesLast(before, h, after);
    }
  }

  // ---------------------------------------------------------------- the result

  predicate Unparsed<T>(o: Once<Option<T>>) { o.Only? && o.value.None? }

  predicate Invalid(s: Summary, r: Receipt) {
    || s.broken || s.maxAges.Many? || s.sMaxAges.Many? || s.date.Many? || s.expires.Many? || s.age.Many?
    || Unparsed(s.date) || Unparsed(s.expires) || Unparsed(s.age)
    || !r.usable || r.started < 0 || r.received < r.started
  }

  function ValueOf<T>(o: Once<Option<T>>): Option<T> { if o.Only? then o.value else None }

  /** The lifetime in milliseconds before the cap, when one can be told. */
  function Lifetime(s: Summary, p: Policy): Option<int> {
    if s.lifetime.Some? then Some(s.lifetime.value * 1000)
    else if s.expires.Never? then Some(p.fallbackSeconds * 1000)
    else if ValueOf(s.date).None? || ValueOf(s.expires).None? then None
    else Some(Max(0, s.expires.value.value - s.date.value.value))
  }

  function InitialAge(s: Summary, r: Receipt): int {
    var apparent := if ValueOf(s.date).None? then 0 else Max(0, r.wall - s.date.value.value);
    var age: int := if ValueOf(s.age).None? then 0 else s.age.value.value;
    Max(apparent, age * 1000 + (r.received - r.started))
  }

  function Calculated(hs: seq<Header>, r: Receipt, p: Policy): Cache.Freshness {
    var s := OfHeaders(hs);
    if |hs| > BUDGET || s.bytes > BUDGET then Cache.Freshness(false, 0, r.received)
    else if Invalid(s, r) || s.revalidate || s.forbidden || Lifetime(s, p).None? then Cache.Freshness(!s.forbidden, 0, r.received)
    else
      var lifetime := Min(Lifetime(s, p).value, p.maximumLifetimeSeconds * 1000);
      Cache.Freshness(true, Max(0, lifetime - InitialAge(s, r)), r.received)
  }

  /** The result is the same however header lines were ordered. */
  lemma FreshnessIgnoresOrder(a: seq<Header>, b: seq<Header>, r: Receipt, p: Policy)
    requires multiset(a) == multiset(b)
    ensures Calculated(a, r, p) == Calculated(b, r, p)
  {
    OrderIsIrrelevant(a, b);
    assert |a| == |multiset(a)| == |multiset(b)| == |b|;
  }

  /** The age at a later time: the age at receipt and the time that has passed since. */
  function CurrentAge(hs: seq<Header>, r: Receipt, now: int): int { InitialAge(OfHeaders(hs), r) + (now - r.received) }

  /** Evidence found fresh is younger than its lifetime, than the cap, and than five minutes. */
  lemma FreshMeansYoung(hs: seq<Header>, r: Receipt, p: Policy, now: int)
    requires Sensible(p) && Cache.Fresh(Calculated(hs, r, p), now)
    ensures Lifetime(OfHeaders(hs), p).Some?
    ensures CurrentAge(hs, r, now) < Lifetime(OfHeaders(hs), p).value
    ensures CurrentAge(hs, r, now) < p.maximumLifetimeSeconds * 1000 <= 300000
  {
  }

  /** A response that may be used says nothing against storing, revalidating or its own readability. */
  lemma FreshMeansAllowed(hs: seq<Header>, r: Receipt, p: Policy, now: int)
    requires Sensible(p)
    ensures var s := OfHeaders(hs);
      Cache.Fresh(Calculated(hs, r, p), now) <==>
        && |hs| <= BUDGET && s.bytes <= BUDGET && !s.forbidden && !s.revalidate && !Invalid(s, r)
        && Lifetime(s, p).Some? && r.received <= now
        && CurrentAge(hs, r, now) < Min(Lifetime(s, p).value, p.maximumLifetimeSeconds * 1000)
  {
    var s := OfHeaders(hs);
    if Lifetime(s, p).Some? && !Invalid(s, r) {
      assert InitialAge(s, r) >= 0;
    }
  }

  // ---------------------------------------------------------------- what each occurrence means

  /** One thing said by the headers: an unreadable list, a directive of a readable one, or a date or an age. */
  datatype Occurrence = Unreadable(cacheControl: bool) | Said(directive: Directive, pragma: bool) | Stamped(value: Value)

  function OccurrencesIn(v: Value): seq<Occurrence> {
    match v
    case CacheControl(None) => [Unreadable(true)]
    case CacheControl(Some(ds)) => seq(|ds|, i requires 0 <= i < |ds| => Said(ds[i], false))
    case Pragma(None) => [Unreadable(false)]
    case Pragma(Some(ds)) => seq(|ds|, i requires 0 <= i < |ds| => Said(ds[i], true))
    case OtherHeader => []
    case _ => [Stamped(v)]
  }

  /** Everything the headers say, in order. */
  function Occurrences(hs: seq<Header>): seq<Occurrence> {
    if hs == [] then [] else Occurrences(hs[..|hs| - 1]) + OccurrencesIn(hs[|hs| - 1].value)
  }

  function Bytes(hs: seq<Header>): nat { if hs == [] then 0 else Bytes(hs[..|hs| - 1]) + hs[|hs| - 1].bytes }

  predicate Affordable(hs: seq<Header>) { |hs| <= 16384 && Bytes(hs) <= 16384 }

  /** Storing is forbidden by `no-store` and `private`, and by a list that might hold them. */
  predicate Forbids(os: seq<Occurrence>) {
    Unreadable(true) in os || Said(NoStore, false) in os || Said(Private, false) in os
  }

  predicate Revalidates(os: seq<Occurrence>) { Said(NoCache, false) in os || Said(NoCache, true) in os }

  /** What must not be said twice. */
  datatype Kind = MaxAgeKind | SMaxAgeKind | DateKind | ExpiresKind | AgeKind

  predicate OfKind(o: Occurrence, k: Kind) {
    match k
    case MaxAgeKind => o.Said? && !o.pragma && o.directive.MaxAge?
    case SMaxAgeKind => o.Said? && !o.pragma && o.directive.SMaxAge?
    case DateKind => o.Stamped? && o.value.Date?
    case ExpiresKind => o.Stamped? && o.value.Expires?
    case AgeKind => o.Stamped? && o.value.Age?
  }

  predicate SaidTwice(os: seq<Occurrence>, k: Kind) {
    exists i: nat, j: nat | i < j < |os| :: OfKind(os[i], k) && OfKind(os[j], k)
  }

  /** Something could not be read, or was said twice. */
  predicate Garbled(os: seq<Occurrence>) {
    || Unreadable(true) in os || Unreadable(false) in os
    || Said(MaxAge(None), false) in os || Said(SMaxAge(None), false) in os
    || Stamped(Date(None)) in os || Stamped(Expires(None)) in os || Stamped(Age(None)) in os
    || SaidTwice(os, MaxAgeKind) || SaidTwice(os, SMaxAgeKind)
    || SaidTwice(os, DateKind) || SaidTwice(os, ExpiresKind) || SaidTwice(os, AgeKind)
  }

  /** A `max-age` or `s-maxage` of so many seconds. */
  predicate Lasts(os: seq<Occurrence>, seconds: nat) {
    Said(MaxAge(Some(seconds)), false) in os || Said(SMaxAge(Some(seconds)), false) in os
  }

  ghost predicate SaysHowLong(os: seq<Occurrence>) { exists n: nat :: Lasts(os, n) }

  ghost predicate Expiring(os: seq<Occurrence>) { exists at :: Stamped(Expires(Some(at))) in os }

  ghost predicate Dated(os: seq<Occurrence>) { exists at :: Stamped(Date(Some(at))) in os }

  ghost predicate Aged(os: seq<Occurrence>) { exists n: nat :: Stamped(Age(Some(n))) in os }

  /** The least of the lifetimes given, otherwise the time from date to expiry, otherwise the fallback. */
  ghost predicate IsLifetime(os: seq<Occurrence>, p: Policy, lifetime: int) {
    if SaysHowLong(os) then
      exists n: nat :: Lasts(os, n) && lifetime == n * 1000 && forall m: nat | Lasts(os, m) :: n <= m
    else if Expiring(os) then
      exists from, to :: Stamped(Date(Some(from))) in os && Stamped(Expires(Some(to))) in os && lifetime == Max(0, to - from)
    else lifetime == p.fallbackSeconds * 1000
  }

  /** The larger of the age by the date and the age as stated, plus the time the transfer took. */
  ghost predicate IsAge(os: seq<Occurrence>, r: Receipt, age: int) {
    var transfer := r.received - r.started;
    && age >= transfer
    && (forall at | Stamped(Date(Some(at))) in os :: age >= r.wall - at)
    && (forall n: nat | Stamped(Age(Some(n))) in os :: age >= n * 1000 + transfer)
    && (|| (exists at :: Stamped(Date(Some(at))) in os && age == r.wall - at)
        || (exists n: nat :: Stamped(Age(Some(n))) in os && age == n * 1000 + transfer)
        || (!Aged(os) && age == transfer))
  }

  /** Why evidence is not reused at all. */
  ghost predicate Unfit(hs: seq<Header>, r: Receipt) {
    var os := Occurrences(hs);
    || !Affordable(hs) || Forbids(os) || Revalidates(os) || Garbled(os)
    || !r.usable || r.started < 0 || r.received < r.started
    || (!SaysHowLong(os) && Expiring(os) && !Dated(os))
  }

  /** What one occurrence adds to the summary. */
  function OfOccurrence(o: Occurrence): Summary {
    match o
    case Unreadable(true) => NOTHING.(broken := true, forbidden := true)
    case Unreadable(false) => NOTHING.(broken := true)
    case Said(d, pragma) => OfDirective(d, pragma)
    case Stamped(v) => if v.CacheControl? || v.Pragma? then NOTHING else OfValue(v)
  }

  function OfOccurrences(os: seq<Occurrence>): Summary {
    if os == [] then NOTHING else Merge(OfOccurrences(os[..|os| - 1]), OfOccurrence(os[|os| - 1]))
  }

  lemma MergeAssociates(a: Summary, b: Summary, c: Summary)
    ensures Merge(Merge(a, b), c) == Merge(a, Merge(b, c)) && Merge(a, NOTHING) == a
  {
  }

  lemma {:induction false} OccurrencesConcat(a: seq<Occurrence>, b: seq<Occurrence>)
    ensures OfOccurrences(a + b) == Merge(OfOccurrences(a), OfOccurrences(b))
    decreases |b|
  {
    hide Merge, OfOccurrence;
    if b == [] {
      assert a + b == a;
      MergeAssociates(OfOccurrences(a), NOTHING, NOTHING);
    } else {
      assert (a + b)[..|a + b| - 1] == a + b[..|b| - 1];
      OccurrencesConcat(a, b[..|b| - 1]);
      MergeAssociates(OfOccurrences(a), OfOccurrences(b[..|b| - 1]), OfOccurrence(b[|b| - 1]));
    }
  }

  lemma {:induction false} DirectivesSay(ds: seq<Directive>, pragma: bool)
    ensures OfDirectives(ds, pragma) == OfOccurrences(seq(|ds|, i requires 0 <= i < |ds| => Said(ds[i], pragma)))
  {
    hide Merge, OfDirective;
    if ds != [] {
      var init := ds[..|ds| - 1];
      var os := seq(|ds|, i requires 0 <= i < |ds| => Said(ds[i], pragma));
      DirectivesSay(init, pragma);
      assert os[..|os| - 1] == seq(|init|, i requires 0 <= i < |init| => Said(init[i], pragma));
    }
  }

  lemma ValueSays(v: Value)
    ensures OfValue(v) == OfOccurrences(OccurrencesIn(v))
  {
    match v {
      case CacheControl(Some(ds)) => DirectivesSay(ds, false);
      case Pragma(Some(ds)) => DirectivesSay(ds, true);
      case OtherHeader =>
      case _ =>
        var os := OccurrencesIn(v);
        assert os[..0] == [] && |os| == 1;
        MergeLaws(OfOccurrence(os[0]), NOTHING, NOTHING);
    }
  }

  lemma BytesApart(a: Summary, n: nat, b: Summary, bytes: nat)
    ensures Merge(a.(bytes := bytes), Merge(NOTHING.(bytes := n), b))
         == Merge(a, b).(bytes := bytes + n + b.bytes)
  {
  }

  lemma {:induction false} NoBytesSaid(os: seq<Occurrence>)
    ensures OfOccurrences(os).bytes == 0
  {
    if os != [] {
      NoBytesSaid(os[..|os| - 1]);
    }
  }

  /** The summary is that of all occurrences, and of all bytes. */
  lemma {:induction false} HeadersSay(hs: seq<Header>)
    ensures OfHeaders(hs) == OfOccurrences(Occurrences(hs)).(bytes := Bytes(hs))
  {
    hide Merge, OfOccurrences, OfValue, OccurrencesIn;
    if hs == [] {
      NothingSaid();
    } else {
      var init, last := hs[..|hs| - 1], hs[|hs| - 1];
      HeadersSay(init);
      ValueSays(last.value);
      OccurrencesConcat(Occurrences(init), OccurrencesIn(last.value));
      NoBytesSaid(OccurrencesIn(last.value));
      BytesApart(OfOccurrences(Occurrences(init)), last.bytes, OfValue(last.value), Bytes(init));
    }
  }

  lemma NothingSaid()
    ensures OfOccurrences([]) == NOTHING
  {
  }

  lemma LastSaid(os: seq<Occurrence>)
    requires os != []
    ensures forall o :: o in os <==> o in os[..|os| - 1] || o == os[|os| - 1]
  {
    assert os == os[..|os| - 1] + [os[|os| - 1]];
  }

  lemma {:induction false} FlagsSay(os: seq<Occurrence>)
    ensures var s := OfOccurrences(os);
      && (s.forbidden <==> Forbids(os)) && (s.revalidate <==> Revalidates(os))
      && (s.broken <==> Unreadable(true) in os || Unreadable(false) in os
                        || Said(MaxAge(None), false) in os || Said(SMaxAge(None), false) in os)
  {
    if os != [] {
      FlagsSay(os[..|os| - 1]);
      LastSaid(os);
    }
  }

  lemma LastLasts(os: seq<Occurrence>)
    requires os != []
    ensures forall m: nat :: Lasts(os, m) <==> Lasts(os[..|os| - 1], m) || OfOccurrence(os[|os| - 1]).lifetime == Some(m)
  {
    LastSaid(os);
  }

  lemma {:induction false} LifetimeSays(os: seq<Occurrence>)
    ensures var least := OfOccurrences(os).lifetime;
      && (least.Some? <==> SaysHowLong(os))
      && (least.Some? ==> Lasts(os, least.value) && forall m: nat | Lasts(os, m) :: least.value <= m)
  {
    if os != [] {
      var init, last := os[..|os| - 1], os[|os| - 1];
      hide Lasts, OfOccurrence;
      LifetimeSays(init);
      LastLasts(os);
      assert forall m: nat | Lasts(init, m) :: Lasts(os, m);
      assert OfOccurrence(last).lifetime.Some? ==> Lasts(os, OfOccurrence(last).lifetime.value);
    }
  }

  /** Whether something of a kind was said never, once or more often. */
  function Told(s: Summary, k: Kind): Once<()> {
    match k
    case MaxAgeKind => s.maxAges
    case SMaxAgeKind => s.sMaxAges
    case DateKind => Erased(s.date)
    case ExpiresKind => Erased(s.expires)
    case AgeKind => Erased(s.age)
  }

  function Erased<T>(o: Once<T>): Once<()> {
    match o
    case Never => Never
    case Only(_) => Only(())
    case Many => Many
  }

  lemma MergeTold(a: Summary, b: Summary, k: Kind)
    ensures Told(Merge(a, b), k) == Both(Told(a, k), Told(b, k))
  {
  }

  lemma OneTold(o: Occurrence, k: Kind)
    ensures Told(OfOccurrence(o), k) == if OfKind(o, k) then Only(()) else Never
  {
  }

  lemma {:induction false} KindSays(os: seq<Occurrence>, k: Kind)
    ensures var told := Told(OfOccurrences(os), k);
      && (told.Never? <==> forall i: nat | i < |os| :: !OfKind(os[i], k))
      && (told.Many? <==> SaidTwice(os, k))
  {
    hide Told, OfOccurrence, OfKind, Merge;
    if os != [] {
      var init, last := os[..|os| - 1], os[|os| - 1];
      KindSays(init, k);
      MergeTold(OfOccurrences(init), OfOccurrence(last), k);
      OneTold(last, k);
      assert forall i: nat | i < |init| :: os[i] == init[i];
      if SaidTwice(init, k) {
        var i: nat, j: nat :| i < j < |init| && OfKind(init[i], k) && OfKind(init[j], k);
        assert OfKind(os[i], k) && OfKind(os[j], k);
      }
      if SaidTwice(os, k) && !SaidTwice(init, k) {
        var i: nat, j: nat :| i < j < |os| && OfKind(os[i], k) && OfKind(os[j], k);
        assert j == |init|;
        assert OfKind(init[i], k);
      }
      if OfKind(last, k) && Told(OfOccurrences(init), k) != Never {
        var i: nat :| i < |init| && OfKind(init[i], k);
        assert OfKind(os[i], k) && OfKind(os[|init|], k);
      }
      assert OfKind(os[|init|], k) == OfKind(last, k);
    } else {
      NeverTold(k);
    }
  }

  lemma NeverTold(k: Kind)
    ensures Told(NOTHING, k) == Never
  {
  }

  /** A value that was told once is the one that was said. */
  lemma {:induction false} ValuesSay(os: seq<Occurrence>)
    ensures var s := OfOccurrences(os);
      && (s.date.Only? ==> Stamped(Date(s.date.value)) in os)
      && (s.expires.Only? ==> Stamped(Expires(s.expires.value)) in os)
      && (s.age.Only? ==> Stamped(Age(s.age.value)) in os)
  {
    if os != [] {
      ValuesSay(os[..|os| - 1]);
      LastSaid(os);
    }
  }

  lemma SaidOnce(os: seq<Occurrence>, k: Kind, a: Occurrence, b: Occurrence)
    requires !SaidTwice(os, k) && a in os && b in os && OfKind(a, k) && OfKind(b, k)
    ensures a == b
  {
    var i: nat :| i < |os| && os[i] == a;
    var j: nat :| j < |os| && os[j] == b;
    if i < j {
      assert OfKind(os[i], k) && OfKind(os[j], k);
    } else if j < i {
      assert OfKind(os[j], k) && OfKind(os[i], k);
    }
  }

  lemma StampsSay(os: seq<Occurrence>)
    ensures var s := OfOccurrences(os);
      && (forall at | Stamped(Date(at)) in os :: s.date.Many? || s.date == Only(at))
      && (forall at | Stamped(Expires(at)) in os :: s.expires.Many? || s.expires == Only(at))
      && (forall n | Stamped(Age(n)) in os :: s.age.Many? || s.age == Only(n))
  {
    hide OfOccurrences, SaidTwice;
    var s := OfOccurrences(os);
    ValuesSay(os);
    KindSays(os, DateKind);
    KindSays(os, ExpiresKind);
    KindSays(os, AgeKind);
    forall at | Stamped(Date(at)) in os ensures s.date.Many? || s.date == Only(at) {
      var i: nat :| i < |os| && os[i] == Stamped(Date(at));
      assert OfKind(os[i], DateKind);
      if s.date.Only? { SaidOnce(os, DateKind, Stamped(Date(at)), Stamped(Date(s.date.value))); }
    }
    forall at | Stamped(Expires(at)) in os ensures s.expires.Many? || s.expires == Only(at) {
      var i: nat :| i < |os| && os[i] == Stamped(Expires(at));
      assert OfKind(os[i], ExpiresKind);
      if s.expires.Only? { SaidOnce(os, ExpiresKind, Stamped(Expires(at)), Stamped(Expires(s.expires.value))); }
    }
    forall n | Stamped(Age(n)) in os ensures s.age.Many? || s.age == Only(n) {
      var i: nat :| i < |os| && os[i] == Stamped(Age(n));
      assert OfKind(os[i], AgeKind);
      if s.age.Only? { SaidOnce(os, AgeKind, Stamped(Age(n)), Stamped(Age(s.age.value))); }
    }
  }

  /** What the summary of all occurrences is, without naming how it is gathered. */
  ghost predicate Sums(s: Summary, os: seq<Occurrence>) {
    && (s.forbidden <==> Forbids(os)) && (s.revalidate <==> Revalidates(os))
    && (s.lifetime.Some? <==> SaysHowLong(os))
    && (s.lifetime.Some? ==> Lasts(os, s.lifetime.value) && forall m: nat | Lasts(os, m) :: s.lifetime.value <= m)
    && (Garbled(os) <==>
          || s.broken || s.maxAges.Many? || s.sMaxAges.Many? || s.date.Many? || s.expires.Many? || s.age.Many?
          || Unparsed(s.date) || Unparsed(s.expires) || Unparsed(s.age))
    && (!Garbled(os) ==>
          && (forall at :: Stamped(Date(Some(at))) in os <==> s.date == Only(Some(at)))
          && (forall at :: Stamped(Expires(Some(at))) in os <==> s.expires == Only(Some(at)))
          && (forall n: nat :: Stamped(Age(Some(n))) in os <==> s.age == Only(Some(n))))
  }

  lemma SummaryMeaning(os: seq<Occurrence>)
    ensures Sums(OfOccurrences(os), os)
  {
    hide OfOccurrences, SaidTwice, Forbids, Revalidates, SaysHowLong;
    FlagsSay(os);
    LifetimeSays(os);
    KindSays(os, MaxAgeKind);
    KindSays(os, SMaxAgeKind);
    KindSays(os, DateKind);
    KindSays(os, ExpiresKind);
    KindSays(os, AgeKind);
    ValuesSay(os);
    StampsSay(os);
  }

  /**
   * What the response headers mean, by what occurs in them. The evidence may be kept exactly if the
   * headers fit the budget and nothing forbids storing it; it is not reused for the reasons listed in
   * `Unfit`, and otherwise for what remains of its capped lifetime at receipt.
   */
  lemma FreshnessMeaning(hs: seq<Header>, r: Receipt, p: Policy)
    ensures var f, os := Calculated(hs, r, p), Occurrences(hs);
      && f.received == r.received
      && (f.persist <==> Affordable(hs) && !Forbids(os))
      && (Unfit(hs, r) ==> f.remaining == 0)
      && (!Unfit(hs, r) ==>
            && (exists lifetime :: IsLifetime(os, p, lifetime)) && (exists age :: IsAge(os, r, age))
            && forall lifetime, age | IsLifetime(os, p, lifetime) && IsAge(os, r, age) ::
                 f.remaining == Max(0, Min(lifetime, p.maximumLifetimeSeconds * 1000) - age))
  {
    hide OfHeaders, OfOccurrences, Occurrences, Forbids, Revalidates, Garbled, Lasts;
    var os, s := Occurrences(hs), OfHeaders(hs);
    HeadersSay(hs);
    SummaryMeaning(os);
    assert Sums(s, os);
    assert Calculated(hs, r, p).remaining >= 0;
    if !Unfit(hs, r) {
      LifetimeIs(os, s, p);
      AgeIs(os, s, r);
      assert IsLifetime(os, p, Lifetime(s, p).value) && IsAge(os, r, InitialAge(s, r));
    }
  }

  lemma LifetimeIs(os: seq<Occurrence>, s: Summary, p: Policy)
    requires Sums(s, os) && !Garbled(os) && (!SaysHowLong(os) && Expiring(os) ==> Dated(os))
    ensures Lifetime(s, p).Some?
    ensures forall lifetime :: IsLifetime(os, p, lifetime) <==> Lifetime(s, p) == Some(lifetime)
  {
    hide Garbled, Forbids, Revalidates, Lasts;
    if s.expires.Only? && s.expires.value.Some? {
      var at := s.expires.value.value;
      assert s.expires == Only(Some(at));
      assert Stamped(Expires(Some(at))) in os;
    }
    if !SaysHowLong(os) && Expiring(os) {
      var to :| Stamped(Expires(Some(to))) in os;
      var from :| Stamped(Date(Some(from))) in os;
    }
  }

  lemma AgeIs(os: seq<Occurrence>, s: Summary, r: Receipt)
    requires Sums(s, os) && !Garbled(os) && r.started <= r.received
    ensures forall age :: IsAge(os, r, age) <==> InitialAge(s, r) == age
  {
    hide Garbled, Forbids, Revalidates, Lasts;
  }

  // ---------------------------------------------------------------- the calculation

  lemma OneMore(hs: seq<Header>, i: nat)
    requires i < |hs|
    ensures OfHeaders(hs[..i + 1]) == Merge(OfHeaders(hs[..i]), OfHeader(hs[i]))
  {
    hide Merge, OfHeader;
    assert hs[..i + 1][..i] == hs[..i];
  }

  /** The flags and values gathered header by header are the summary so far. */
  method Gather(hs: seq<Header>) returns (overflow: bool, s: Summary)
    ensures overflow == (OfHeaders(hs).bytes > BUDGET)
    ensures !overflow ==> s == OfHeaders(hs)
  {
    var bytes: nat, persist, invalid, revalidate := 0, true, false, false;
    var lifetime: Option<nat> := None;
    var maxAges: Once<()>, sMaxAges: Once<()> := Never, Never;
    var date: Once<Option<int>>, expires: Once<Option<int>>, age: Once<Option<nat>> := Never, Never, Never;
    s := NOTHING;
    assert OfHeaders([]) == NOTHING;
    hide OfHeaders;
    for i := 0 to |hs|
      invariant s == OfHeaders(hs[..i]) == Summary(bytes, !persist, invalid, revalidate, lifetime, maxAges, sMaxAges, date, expires, age)
      invariant bytes <= BUDGET
    {
      OneMore(hs, i);
      bytes := bytes + hs[i].bytes;
      if bytes > BUDGET {
        BytesGrow(hs, i + 1);
        return true, s;
      }
      match hs[i].value {
        case CacheControl(ds) =>
          if ds.None? {
            invalid, persist := true, false;
          } else {
            var d := GatherDirectives(ds.value, false);
            persist, invalid, revalidate := persist && !d.forbidden, invalid || d.broken, revalidate || d.revalidate;
            lifetime, maxAges, sMaxAges := Least(lifetime, d.lifetime), Both(maxAges, d.maxAges), Both(sMaxAges, d.sMaxAges);
          }
        case Pragma(ds) =>
          if ds.None? {
            invalid := true;
          } else {
            var d := GatherDirectives(ds.value, true);
            revalidate := revalidate || d.revalidate;
          }
        case Date(at) => date := Both(date, Only(at));
        case Expires(at) => expires := Both(expires, Only(at));
        case Age(seconds) => age := Both(age, Only(seconds));
        case OtherHeader =>
      }
      s := Merge(s, OfHeader(hs[i]));
    }
    assert hs[..|hs|] == hs;
    overflow := false;
  }

  /** A list of directives says nothing about the rest, and in a pragma header only one thing at all. */
  predicate Narrow(s: Summary, pragma: bool) {
    && s.bytes == 0 && s.date.Never? && s.expires.Never? && s.age.Never?
    && (pragma ==> s == NOTHING.(revalidate := s.revalidate))
  }

  lemma NarrowStep(s: Summary, d: Directive, pragma: bool)
    requires Narrow(s, pragma)
    ensures Narrow(Merge(s, OfDirective(d, pragma)), pragma)
  {
  }

  method GatherDirectives(ds: seq<Directive>, pragma: bool) returns (s: Summary)
    ensures s == OfDirectives(ds, pragma) && Narrow(s, pragma)
  {
    hide Merge, OfDirective;
    s := NOTHING;
    for i := 0 to |ds|
      invariant s == OfDirectives(ds[..i], pragma) && Narrow(s, pragma)
    {
      assert ds[..i + 1][..i] == ds[..i];
      NarrowStep(s, ds[i], pragma);
      s := Merge(s, OfDirective(ds[i], pragma));
    }
    assert ds[..|ds|] == ds;
  }

  lemma {:induction false} BytesGrow(hs: seq<Header>, i: nat)
    requires i <= |hs|
    ensures OfHeaders(hs[..i]).bytes <= OfHeaders(hs).bytes
    decreases |hs| - i
  {
    if i == |hs| {
      assert hs[..i] == hs;
    } else {
      BytesGrow(hs, i + 1);
      assert hs[..i + 1][..i] == hs[..i];
    }
  }

  method CalculateDirectoryFreshness(hs: seq<Header>, r: Receipt, p: Policy) returns (f: Cache.Freshness)
    ensures f == Calculated(hs, r, p)
  {
    if |hs| > BUDGET { return Cache.Freshness(false, 0, r.received); }
    var overflow, s := Gather(hs);
    if overflow { return Cache.Freshness(false, 0, r.received); }
    if Invalid(s, r) || s.revalidate || s.forbidden { return Cache.Freshness(!s.forbidden, 0, r.received); }
    var lifetime := p.fallbackSeconds * 1000;
    if s.lifetime.Some? {
      lifetime := s.lifetime.value * 1000;
    } else if !s.expires.Never? {
      if ValueOf(s.date).None? || ValueOf(s.expires).None? { return Cache.Freshness(true, 0, r.received); }
      lifetime := Max(0, s.expires.value.value - s.date.value.value);
    }
    lifetime := Min(lifetime, p.maximumLifetimeSeconds * 1000);
    f := Cache.Freshness(true, Max(0, lifetime - InitialAge(s, r)), r.received);
  }
}
