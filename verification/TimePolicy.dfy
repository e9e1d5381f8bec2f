/** The time window of a signature, its retention deadline and the recovery horizon. */
module TimePolicy {
  import opened Basics
  import opened Codes

  const MAX_SF_INTEGER := 999_999_999_999_999

  datatype Policy = Policy(
    signingLifetimeSeconds: int,
    maxLifetimeSeconds: int,
    maxAgeSeconds: int,
    clockSkewSeconds: int)

  /** What resolving a time policy admits. */
  predicate Resolved(p: Policy) {
    && 0 < p.signingLifetimeSeconds <= MAX_SAFE
    && 0 < p.maxLifetimeSeconds <= MAX_SAFE
    && 0 < p.maxAgeSeconds <= MAX_SAFE
    && 0 <= p.clockSkewSeconds <= MAX_SAFE
    && p.signingLifetimeSeconds <= p.maxLifetimeSeconds
    && p.signingLifetimeSeconds <= p.maxAgeSeconds
    && p.maxAgeSeconds + p.clockSkewSeconds <= MAX_SAFE
    && p.maxLifetimeSeconds + p.clockSkewSeconds <= MAX_SAFE
  }

  predicate SafeSeconds(n: int) { 0 <= n <= MAX_SAFE }

  predicate Timestamp(n: int) { 0 <= n <= MAX_SF_INTEGER }

  /** The gate, in the order its tests are made; `None` means that the window is acceptable. */
  function Check(p: Policy, created: int, expires: int, now: int): Option<Rejection> {
    if !SafeSeconds(now) then Some(Unverified(ClockUnavailable))
    else if !Timestamp(created) || !Timestamp(expires) || expires <= created then Some(Invalid(InvalidTimeRange))
    else if expires - created > p.maxLifetimeSeconds then Some(Invalid(LifetimeExceeded))
    else if created > now + p.clockSkewSeconds then Some(Invalid(CreatedInFuture))
    else if now >= expires + p.clockSkewSeconds then Some(Invalid(SignatureExpired))
    else if now >= created + p.maxAgeSeconds + p.clockSkewSeconds then Some(Invalid(SignatureTooOld))
    else None
  }

  function RetainUntil(p: Policy, created: int, consumeNow: int): Result<int, Rejection> {
    if !SafeSeconds(consumeNow) then Err(Unverified(ClockUnavailable))
    else if !Timestamp(created) then Err(Invalid(InvalidTimeRange))
    else
      var deadline := Max(created, consumeNow) + p.maxAgeSeconds + p.clockSkewSeconds;
      if deadline > MAX_SAFE then Err(Unverified(ResourceLimit)) else Ok(deadline)
  }

  function RecoveryHorizonSeconds(p: Policy): Option<int> {
    var horizon := Min(p.maxAgeSeconds, p.maxLifetimeSeconds) + 2 * p.clockSkewSeconds;
    if horizon > MAX_SAFE then None else Some(horizon)
  }

  /** The first second at which a signature is too old or expired, whatever else holds. */
  function WindowEnd(p: Policy, created: int, expires: int): int {
    Min(expires, created + p.maxAgeSeconds) + p.clockSkewSeconds
  }

  /**
   * Accepting is an interval: for a well-formed signature, from `created - skew` up to and not
   * including `WindowEnd`.
   */
  lemma CheckIsAnInterval(p: Policy, created: int, expires: int, now: int)
    requires SafeSeconds(now)
    ensures Check(p, created, expires, now).None? <==>
            && Timestamp(created) && Timestamp(expires)
            && 0 < expires - created <= p.maxLifetimeSeconds
            && created - p.clockSkewSeconds <= now < WindowEnd(p, created, expires)
  {
  }

  /** The reason given: for a clock that cannot be used, for times no clock can mend, and for a window to come or gone. */
  lemma ReasonsAreExact(p: Policy, created: int, expires: int, now: int)
    requires Resolved(p)
    ensures var reason := Check(p, created, expires, now);
      var formed := 0 <= created < expires <= MAX_SF_INTEGER;
      var sensible := formed && expires - created <= p.maxLifetimeSeconds;
      && (reason == Some(Unverified(ClockUnavailable)) <==> now < 0 || now > MAX_SAFE)
      && (SafeSeconds(now) ==>
            && (reason == Some(Invalid(InvalidTimeRange)) <==> !formed)
            && (reason == Some(Invalid(LifetimeExceeded)) <==> formed && !sensible)
            && (reason == Some(Invalid(CreatedInFuture)) <==> sensible && now + p.clockSkewSeconds < created)
            && (reason == Some(Invalid(SignatureExpired)) <==> sensible && expires + p.clockSkewSeconds <= now)
            && (reason == Some(Invalid(SignatureTooOld)) <==>
                  sensible && created + p.maxAgeSeconds + p.clockSkewSeconds <= now < expires + p.clockSkewSeconds))
  {
  }

  /** A record kept until its deadline outlives every time at which the same signature passes. */
  lemma RetentionCoversWindow(p: Policy, created: int, expires: int, consumeNow: int, later: int)
    requires RetainUntil(p, created, consumeNow).Ok?
    requires Check(p, created, expires, later).None?
    ensures later < RetainUntil(p, created, consumeNow).value
    ensures consumeNow < RetainUntil(p, created, consumeNow).value || p.maxAgeSeconds + p.clockSkewSeconds <= 0
  {
  }

  /** The bound is past every second at which some signature created at `start` passes. */
  ghost predicate Outlasts(p: Policy, start: int, bound: int) {
    forall expires, later :: Check(p, start, expires, later).None? ==> later < bound
  }

  /**
   * The deadline counts the whole age and the skew from the creation, or from the consumption if that is later.
   * That is the least bound that outlasts every signature created then exactly if the age is the tighter limit.
   */
  lemma RetentionIsExact(p: Policy, created: int, consumeNow: int)
    requires Resolved(p) && SafeSeconds(consumeNow) && Timestamp(created)
    ensures var start := if created < consumeNow then consumeNow else created;
      var r := RetainUntil(p, created, consumeNow);
      && (r == Err(Unverified(ResourceLimit)) <==> start + p.maxAgeSeconds + p.clockSkewSeconds > MAX_SAFE)
      && (r.Ok? <==> start + p.maxAgeSeconds + p.clockSkewSeconds <= MAX_SAFE)
      && (r.Ok? && start + p.maxAgeSeconds <= MAX_SF_INTEGER ==>
            Outlasts(p, start, r.value) && (!Outlasts(p, start, r.value - 1) <==> p.maxAgeSeconds <= p.maxLifetimeSeconds))
  {
    var start := if created < consumeNow then consumeNow else created;
    var r := RetainUntil(p, created, consumeNow);
    if r.Ok? && start + p.maxAgeSeconds <= MAX_SF_INTEGER && p.maxAgeSeconds <= p.maxLifetimeSeconds {
      assert Check(p, start, start + p.maxAgeSeconds, r.value - 1).None?;
    }
  }

  /** Two acceptances of one signature are less than the recovery horizon apart. */
  lemma HorizonSeparatesAcceptances(p: Policy, created: int, expires: int, first: int, later: int)
    requires RecoveryHorizonSeconds(p).Some?
    requires Check(p, created, expires, first).None?
    requires Check(p, created, expires, later).None?
    ensures later - first < RecoveryHorizonSeconds(p).value
  {
  }

  /** The most seconds the window of one signature can span: a signature cannot expire after the largest timestamp. */
  function WidestWindow(p: Policy): int {
    Min(p.clockSkewSeconds + Min(p.maxAgeSeconds, p.maxLifetimeSeconds), MAX_SF_INTEGER) + p.clockSkewSeconds
  }

  /** One signature passes at the first second of time and throughout the widest window. */
  lemma WidestIsReached(p: Policy, now: int)
    requires Resolved(p)
    requires RecoveryHorizonSeconds(p).Some?
    ensures var created, expires := Min(p.clockSkewSeconds, MAX_SF_INTEGER - 1), WidestWindow(p) - p.clockSkewSeconds;
            Check(p, created, expires, now).None? <==> 0 <= now < WidestWindow(p)
  {
  }

  /**
   * A bound separates every two acceptances of one signature if and only if it is at least the widest
   * window. That is the recovery horizon exactly, unless the two limits and the skew reach past the
   * largest timestamp. The witness is a signature created as far in the future as the skew admits, with
   * the longest life both limits allow.
   */
  lemma HorizonIsExact(p: Policy, bound: int)
    requires Resolved(p)
    requires RecoveryHorizonSeconds(p).Some?
    ensures bound >= WidestWindow(p) <==>
            forall created, expires, first, later ::
              Check(p, created, expires, first).None? && Check(p, created, expires, later).None?
              ==> later - first < bound
    ensures WidestWindow(p) <= RecoveryHorizonSeconds(p).value
    ensures WidestWindow(p) == RecoveryHorizonSeconds(p).value <==>
            p.clockSkewSeconds + Min(p.maxAgeSeconds, p.maxLifetimeSeconds) <= MAX_SF_INTEGER
  {
    if bound >= WidestWindow(p) {
      forall created, expires, first, later |
        Check(p, created, expires, first).None? && Check(p, created, expires, later).None?
        ensures later - first < bound
      {
        CheckIsAnInterval(p, created, expires, first);
        CheckIsAnInterval(p, created, expires, later);
      }
    } else {
      WidestIsReached(p, 0);
      WidestIsReached(p, WidestWindow(p) - 1);
    }
  }
}
