/** Operation leases: an invalidation closes the epoch for good, a later epoch has a larger number. */
module OperationEpochs {
  import opened Basics

  datatype LeaseState = LeaseState(epoch: nat, finished: bool)

  /** The closure variables, with leases identified by keys of any type. */
  datatype Epochs<!K> = Epochs(last: nat, active: Option<nat>, inFlight: nat, leases: map<K, LeaseState>)

  function Start<K>(): Epochs<K> { Epochs(1, Some(1), 0, map[]) }

  /** `None` stands for the clock-unavailable rejection. */
  function Begun<K>(e: Epochs<K>, lease: K): Option<Epochs<K>> {
    if e.active.None? || e.inFlight >= MAX_SAFE then None
    else Some(e.(leases := e.leases[lease := LeaseState(e.active.value, false)], inFlight := e.inFlight + 1))
  }

  predicate Current<K(==)>(e: Epochs<K>, lease: K) {
    && lease in e.leases
    && !e.leases[lease].finished
    && e.active == Some(e.leases[lease].epoch)
  }

  function Finished<K>(e: Epochs<K>, lease: K): Epochs<K> {
    if lease !in e.leases || e.leases[lease].finished then e
    else
      var owned := e.leases[lease];
      e.(leases := e.leases[lease := owned.(finished := true)],
         inFlight := if e.active == Some(owned.epoch) && e.inFlight > 0 then e.inFlight - 1 else e.inFlight)
  }

  function Invalidated<K>(e: Epochs<K>): Epochs<K> { e.(active := None, inFlight := 0) }

  /** `None` when an epoch is still open or the identifiers are exhausted. */
  function Activated<K>(e: Epochs<K>): Option<Epochs<K>> {
    if e.active.Some? || e.last >= MAX_SAFE then None
    else Some(e.(last := e.last + 1, active := Some(e.last + 1)))
  }

  /** The unfinished leases of the active epoch. */
  ghost function Open<K>(e: Epochs<K>): set<K> {
    set k | k in e.leases && Current(e, k)
  }

  ghost predicate Valid<K>(e: Epochs<K>) {
    && 1 <= e.last
    && (e.active.Some? ==> e.active.value == e.last)
    && (forall k | k in e.leases :: e.leases[k].epoch <= e.last)
    && e.inFlight == |Open(e)|
  }

  /** The operations of the helper; keys of begun leases are fresh objects. */
  datatype Op<K> = DoBegin(begun: K) | DoFinish(finished: K) | DoInvalidate | DoActivate

  function Apply<K>(e: Epochs<K>, op: Op<K>): Epochs<K> {
    match op
    case DoBegin(k) => if k in e.leases then e else (match Begun(e, k) case Some(n) => n case None => e)
    case DoFinish(k) => Finished(e, k)
    case DoInvalidate => Invalidated(e)
    case DoActivate => match Activated(e) case Some(n) => n case None => e
  }

  function Run<K>(e: Epochs<K>, ops: seq<Op<K>>): Epochs<K>
    decreases |ops|
  {
    if ops == [] then e else Apply(Run(e, ops[..|ops| - 1]), ops[|ops| - 1])
  }

  lemma BegunIsValid<K>(e: Epochs<K>, lease: K)
    requires Valid(e) && lease !in e.leases
    requires Begun(e, lease).Some?
    ensures Valid(Begun(e, lease).value)
  {
    assert Open(Begun(e, lease).value) == Open(e) + {lease};
  }

  lemma FinishedIsValid<K>(e: Epochs<K>, lease: K)
    requires Valid(e)
    ensures Valid(Finished(e, lease))
  {
    var next := Finished(e, lease);
    if Current(e, lease) {
      assert lease in Open(e);
      assert Open(next) == Open(e) - {lease};
    } else {
      assert Open(next) == Open(e);
    }
  }

  lemma InvalidatedIsValid<K>(e: Epochs<K>)
    requires Valid(e)
    ensures Valid(Invalidated(e))
  {
    assert Open(Invalidated(e)) == {};
  }

  lemma ActivatedIsValid<K>(e: Epochs<K>)
    requires Valid(e) && Activated(e).Some?
    ensures Valid(Activated(e).value)
  {
    assert forall k | k in e.leases :: e.leases[k].epoch <= e.last;
    assert Open(e) == {};
    assert Open(Activated(e).value) == {};
  }

  lemma StepIsValid<K>(e: Epochs<K>, op: Op<K>)
    requires Valid(e)
    ensures Valid(Apply(e, op))
    ensures e.last <= Apply(e, op).last
    ensures op.DoActivate? && Apply(e, op) != e ==> e.last < Apply(e, op).last
  {
    match op
    case DoBegin(k) =>
      if k !in e.leases && Begun(e, k).Some? { BegunIsValid(e, k); }
    case DoFinish(k) => FinishedIsValid(e, k);
    case DoInvalidate => InvalidatedIsValid(e);
    case DoActivate =>
      if Activated(e).Some? { ActivatedIsValid(e); }
  }

  /** Over any run the counter is the number of unfinished leases of the active epoch. */
  lemma {:induction false} InFlightCountsOpenLeases<K>(ops: seq<Op<K>>)
    ensures Valid(Run(Start<K>(), ops))
    ensures Run(Start<K>(), ops).inFlight == |Open(Run(Start<K>(), ops))|
    decreases |ops|
  {
    if ops == [] {
      assert Open(Start<K>()) == {};
    } else {
      InFlightCountsOpenLeases(ops[..|ops| - 1]);
      StepIsValid(Run(Start<K>(), ops[..|ops| - 1]), ops[|ops| - 1]);
    }
  }

  /** A lease that fails the gate while its epoch is closed, superseded or done fails it for ever. */
  lemma {:induction false} LostLeaseStaysLost<K>(e: Epochs<K>, lease: K, ops: seq<Op<K>>)
    requires Valid(e)
    requires lease in e.leases && !Current(e, lease)
    ensures Valid(Run(e, ops))
    ensures lease in Run(e, ops).leases && !Current(Run(e, ops), lease)
    decreases |ops|
  {
    if ops != [] {
      LostLeaseStaysLost(e, lease, ops[..|ops| - 1]);
      var before := Run(e, ops[..|ops| - 1]);
      StepIsValid(before, ops[|ops| - 1]);
    }
  }

  /** After an invalidation no lease begun before it ever passes the gate again. */
  lemma InvalidationIsIrreversible<K>(e: Epochs<K>, lease: K, ops: seq<Op<K>>)
    requires Valid(e)
    requires lease in e.leases
    ensures !Current(Run(Invalidated(e), ops), lease)
  {
    StepIsValid(e, DoInvalidate);
    LostLeaseStaysLost(Invalidated(e), lease, ops);
  }

  /** An activation that opens the next epoch. */
  predicate ActivationSucceeds<K>(e: Epochs<K>, op: Op<K>) { op.DoActivate? && e.active.None? && e.last < MAX_SAFE }

  /** A closed helper is opened by a successful activation and by nothing else. */
  lemma ClosedStep<K>(e: Epochs<K>, op: Op<K>)
    requires e.active.None?
    ensures Apply(e, op).active == if ActivationSucceeds(e, op) then Some(e.last + 1) else None
    ensures Apply(e, op).leases.Keys == e.leases.Keys
  {
  }

  /** While closed, nothing begins until an activation succeeds, however many are refused before it. */
  lemma {:induction false} ClosedUntilActivated<K>(e: Epochs<K>, ops: seq<Op<K>>)
    requires e.active.None?
    requires forall i | 0 <= i < |ops| :: !ActivationSucceeds(Run(e, ops[..i]), ops[i])
    ensures Run(e, ops).active.None?
    ensures Run(e, ops).leases.Keys == e.leases.Keys
    decreases |ops|
  {
    if ops != [] {
      var n := |ops| - 1;
      forall i | 0 <= i < n ensures !ActivationSucceeds(Run(e, ops[..n][..i]), ops[..n][i]) {
        assert ops[..n][..i] == ops[..i];
      }
      ClosedUntilActivated(e, ops[..n]);
      ClosedStep(Run(e, ops[..n]), ops[n]);
    }
  }

  /** A lease begun while an epoch is open and a slot is free passes the gate, and no other lease is touched. */
  lemma BeginsExactly<K>(e: Epochs<K>, lease: K, other: K)
    requires Valid(e) && lease !in e.leases
    ensures Current(Apply(e, DoBegin(lease)), lease) <==> e.active.Some? && |Open(e)| < MAX_SAFE
    ensures other != lease ==> (Current(Apply(e, DoBegin(lease)), other) <==> Current(e, other))
  {
  }

  /** From then on it passes the gate exactly until it is finished or its epoch is closed. */
  lemma {:induction false} PassesUntilFinished<K>(e: Epochs<K>, lease: K, ops: seq<Op<K>>)
    requires Valid(e) && lease in e.leases
    ensures lease in Run(e, ops).leases && Valid(Run(e, ops))
    ensures Current(Run(e, ops), lease) <==> Current(e, lease) && DoFinish(lease) !in ops && DoInvalidate !in ops
    decreases |ops|
  {
    if ops != [] {
      var n := |ops| - 1;
      PassesUntilFinished(e, lease, ops[..n]);
      StepIsValid(Run(e, ops[..n]), ops[n]);
      assert forall op :: op in ops <==> op in ops[..n] || op == ops[n];
    }
  }

  /** An operation handle; its identity is what counts. */
  class Lease {
    const epoch: nat

    constructor (epoch: nat)
      ensures this.epoch == epoch
    {
      this.epoch := epoch;
    }
  }

  class Registry {
    var lastEpoch: nat
    var activeEpoch: Option<nat>
    var inFlight: nat
    var leases: map<Lease, LeaseState>

    function Value(): Epochs<Lease>
      reads this
    {
      Epochs(lastEpoch, activeEpoch, inFlight, leases)
    }

    constructor ()
      ensures Value() == Start() && Valid(Value())
    {
      lastEpoch, activeEpoch, inFlight, leases := 1, Some(1), 0, map[];
      new;
      assert Open(Value()) == {};
    }

    method Begin() returns (r: Option<Lease>)
      requires Valid(Value())
      modifies this
      ensures Valid(Value())
      ensures r.Some? ==> fresh(r.value) && Some(Value()) == Begun(old(Value()), r.value)
      ensures r.Some? ==> old(activeEpoch) == Some(r.value.epoch) && Current(Value(), r.value)
      ensures r.None? <==> old(activeEpoch).None? || old(inFlight) >= MAX_SAFE
      ensures r.None? ==> Value() == old(Value())
    {
      if activeEpoch.None? || inFlight >= MAX_SAFE {
        return None;
      }
      var lease := new Lease(activeEpoch.value);
      assert lease !in leases;
      ghost var before := Value();
      leases := leases[lease := LeaseState(activeEpoch.value, false)];
      inFlight := inFlight + 1;
      BegunIsValid(before, lease);
      r := Some(lease);
    }

    method AssertCurrent(lease: Lease) returns (ok: bool)
      ensures ok == Current(Value(), lease)
    {
      ok := lease in leases && !leases[lease].finished && activeEpoch.Some? && leases[lease].epoch == activeEpoch.value;
    }

    method Finish(lease: Lease)
      requires Valid(Value())
      modifies this
      ensures Valid(Value()) && Value() == Finished(old(Value()), lease)
    {
      ghost var before := Value();
      FinishedIsValid(before, lease);
      if lease !in leases || leases[lease].finished {
        return;
      }
      var owned := leases[lease];
      leases := leases[lease := owned.(finished := true)];
      if activeEpoch.Some? && owned.epoch == activeEpoch.value {
        assert lease in Open(before);
        inFlight := inFlight - 1;
      }
    }

    method Invalidate() returns (invalidated: nat)
      requires Valid(Value())
      modifies this
      ensures Valid(Value()) && Value() == Invalidated(old(Value()))
      ensures invalidated == |Open(old(Value()))|
    {
      InvalidatedIsValid(Value());
      invalidated := inFlight;
      activeEpoch, inFlight := None, 0;
    }

    method ActivateNext() returns (r: Option<nat>)
      requires Valid(Value())
      modifies this
      ensures Valid(Value())
      ensures r.Some? ==> r == activeEpoch && r.value > old(lastEpoch)
                          && Some(Value()) == Activated(old(Value()))
      ensures r.None? <==> old(activeEpoch).Some? || old(lastEpoch) >= MAX_SAFE
      ensures r.None? ==> Value() == old(Value())
    {
      if activeEpoch.Some? || lastEpoch >= MAX_SAFE {
        return None;
      }
      ActivatedIsValid(Value());
      lastEpoch := lastEpoch + 1;
      activeEpoch := Some(lastEpoch);
      r := activeEpoch;
    }
  }
}
