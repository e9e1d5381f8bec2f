/** How long a committed key set is kept: exactly until newer sets of other origins need its room. */
module DirectoryRetention {
  import opened Basics
  import opened Cache = DirectoryCache
  import opened DirectoryHistory

  /** The bytes a set is accounted for: its document, two for each code unit of the origin, and 256. */
  function Size(o: Origin, p: Prepared): nat { p.document.accountedBytes + (|o| + |o| + 256) }

  /** A set that may be kept at `now`: its response allowed it, it was not received later, and it fits an empty cache. */
  predicate Storable(options: Options, o: Origin, p: Prepared, now: int) {
    p.freshness.persist && p.freshness.received <= now && 1 <= options.maxEntries && Size(o, p) <= options.maxBytes
  }

  predicate FreshAt(p: Prepared, now: int) {
    var f := p.freshness;
    f.persist && 0 < f.remaining <= 300000 && f.received <= now < f.received + f.remaining
  }

  /** What a document says of a key. */
  function Says(d: Document, t: Thumbprint): Lookup {
    if t in d.keys && d.keys[t] then Found else if t in d.keys then UnsupportedAlgorithm else UnknownKey
  }

  function Forgotten(slots: seq<Slot>, o: Origin): seq<Slot> {
    if slots == [] then []
    else (if slots[0].origin == o then [] else [slots[0]]) + Forgotten(slots[1..], o)
  }

  /** The sets stored since a run, oldest first and one for each origin, in a cache without bounds. */
  function Since(options: Options, before: seq<Event>, after: seq<Event>): seq<Slot>
    decreases |after|
  {
    if after == [] then []
    else
      var init, e := after[..|after| - 1], after[|after| - 1];
      var older := Since(options, before, init);
      if !e.DoCommit? || Sampled(Run(options, before + init), e.reading).None? then older
      else
        Forgotten(older, e.origin)
        + if Storable(options, e.origin, e.prepared, e.reading.value)
          then [Slot(e.origin, e.prepared, Size(e.origin, e.prepared))] else []
  }

  predicate LeavesRoom(options: Options, bytes: nat, newer: seq<Slot>) {
    |newer| + 1 <= options.maxEntries && Total(newer) + bytes <= options.maxBytes
  }

  /** At no time since did the newer sets need the room of a set of so many bytes. */
  ghost predicate Undisplaced(options: Options, before: seq<Event>, bytes: nat, after: seq<Event>) {
    forall n: nat | n <= |after| :: LeavesRoom(options, bytes, Since(options, before, after[..n]))
  }

  // ---------------------------------------------------------------- forgetting

  lemma {:induction false} NothingForgotten(slots: seq<Slot>, o: Origin)
    requires forall i | 0 <= i < |slots| :: slots[i].origin != o
    ensures Forgotten(slots, o) == slots
  {
    if slots != [] {
      NothingForgotten(slots[1..], o);
    }
  }

  lemma WithoutLater(slots: seq<Slot>, o: Origin)
    requires slots != [] && slots[0].origin != o
    ensures Without(slots, o) == [slots[0]] + Without(slots[1..], o)
  {
    var rest := slots[1..];
    var i := Find(rest, o);
    assert Find(slots, o) == i + 1;
    if i < |rest| {
      assert slots[..i + 1] + slots[i + 2..] == [slots[0]] + (rest[..i] + rest[i + 1..]);
    } else {
      assert [slots[0]] + rest == slots;
    }
  }

  lemma {:induction false} ForgottenIsWithout(slots: seq<Slot>, o: Origin)
    requires Distinct(slots)
    ensures Forgotten(slots, o) == Without(slots, o)
  {
    if slots != [] {
      var rest := slots[1..];
      if slots[0].origin == o {
        NothingForgotten(rest, o);
        assert slots[..0] + slots[1..] == rest;
      } else {
        ForgottenIsWithout(rest, o);
        WithoutLater(slots, o);
      }
    }
  }

  lemma {:induction false} ForgottenConcat(a: seq<Slot>, b: seq<Slot>, o: Origin)
    ensures Forgotten(a + b, o) == Forgotten(a, o) + Forgotten(b, o)
  {
    if a == [] {
      assert a + b == b;
    } else {
      var head := if a[0].origin == o then [] else [a[0]];
      ForgottenConcat(a[1..], b, o);
      assert (a + b)[1..] == a[1..] + b;
      Regroup(head, Forgotten(a[1..], o), Forgotten(b, o));
    }
  }

  lemma Regroup(a: seq<Slot>, b: seq<Slot>, c: seq<Slot>)
    ensures (a + b) + c == a + (b + c)
  {
  }

  lemma ForgottenAround(older: seq<Slot>, mine: Slot, newer: seq<Slot>, o: Origin)
    requires mine.origin != o
    ensures Forgotten(older + ([mine] + newer), o) == Forgotten(older, o) + ([mine] + Forgotten(newer, o))
  {
    ForgottenConcat(older, [mine] + newer, o);
    ForgottenConcat([mine], newer, o);
    assert Forgotten([mine], o) == [mine];
  }

  // ---------------------------------------------------------------- making room

  lemma TotalSuffix(a: seq<Slot>, b: seq<Slot>)
    ensures Total(b) <= Total(a + b) && |b| <= |a + b|
  {
    TotalConcat(a, b);
  }

  /** Room for one more is made without a slot exactly if it and everything newer leave none. */
  lemma RoomAround(options: Options, older: seq<Slot>, mine: Slot, newer: seq<Slot>, accounted: nat)
    returns (kept: seq<Slot>)
    requires options.maxEntries > 0 && accounted <= options.maxBytes
    ensures var all := older + ([mine] + newer); var room := Room(options, all, accounted);
      if |newer| + 2 <= options.maxEntries && Total(newer) + mine.bytes + accounted <= options.maxBytes
      then room == kept + ([mine] + newer)
      else exists k: nat :: k <= |newer| && room == newer[k..]
  {
    hide Room, Total;
    var all := older + ([mine] + newer);
    var k := RoomMeaning(options, all, accounted);
    var tail := [mine] + newer;
    assert all[|older|..] == tail;
    TotalConcat([mine], newer);
    TotalOne(mine);
    assert Roomy(options, tail, accounted) <==>
           |newer| + 2 <= options.maxEntries && Total(newer) + mine.bytes + accounted <= options.maxBytes;
    if k <= |older| {
      kept := older[k..];
      assert all[k..] == kept + tail;
      TotalSuffix(kept, tail);
    } else {
      kept := [];
      var j := k - |older| - 1;
      assert all[k..] == newer[j..];
    }
  }

  // ---------------------------------------------------------------- one step

  ghost predicate Holds(positive: seq<Slot>, mine: Slot, newer: seq<Slot>) {
    exists older: seq<Slot> :: positive == older + ([mine] + newer)
  }

  lemma HeldIsFound(positive: seq<Slot>, mine: Slot, newer: seq<Slot>)
    requires Distinct(positive) && Holds(positive, mine, newer)
    ensures Find(positive, mine.origin) < |positive| && positive[Find(positive, mine.origin)] == mine
  {
    var older: seq<Slot> :| positive == older + ([mine] + newer);
    assert positive[|older|] == mine;
    var i := Find(positive, mine.origin);
    assert i <= |older|;
  }

  lemma NewerAreOthers(positive: seq<Slot>, mine: Slot, newer: seq<Slot>)
    requires Distinct(positive) && Holds(positive, mine, newer)
    ensures forall k | 0 <= k < |newer| :: newer[k].origin != mine.origin
  {
    var older: seq<Slot> :| positive == older + ([mine] + newer);
    var at := |older|;
    assert positive[at] == mine;
    forall k | 0 <= k < |newer| ensures newer[k].origin != mine.origin {
      assert positive[at + 1 + k] == newer[k];
    }
  }

  lemma RetainableMeaning(options: Options, o: Origin, p: Prepared, now: int)
    ensures Retainable(options, o, p, now) <==> Storable(options, o, p, now)
    ensures Entry(o, p) == Slot(o, p, Size(o, p)) && Accounted(p.document, o) == Size(o, p)
  {
  }

  /** A commit of another origin keeps a slot exactly if the newer sets leave it room. */
  lemma CommitKeeps(options: Options, s: State, mine: Slot, newer: seq<Slot>, q: Origin, p: Prepared, reading: Option<int>)
    requires Distinct(s.positive) && Holds(s.positive, mine, newer) && q != mine.origin && Sampled(s, reading).Some?
    ensures var next := Committed(options, s, q, p, reading).0.positive;
      var storable := Storable(options, q, p, reading.value);
      var after := Forgotten(newer, q) + if storable then [Slot(q, p, Size(q, p))] else [];
      if !storable || LeavesRoom(options, mine.bytes, after) then Holds(next, mine, after)
      else Find(next, mine.origin) == |next|
  {
    hide Room, Total, Find, Without, Forgotten, Distinct, Roomy, Retainable, Storable, Entry, Accounted, Size;
    var older: seq<Slot> :| s.positive == older + ([mine] + newer);
    ForgottenIsWithout(s.positive, q);
    ForgottenAround(older, mine, newer, q);
    RetainableMeaning(options, q, p, reading.value);
    var rest := Forgotten(newer, q);
    var others := Forgotten(older, q) + ([mine] + rest);
    if Storable(options, q, p, reading.value) {
      StorableFits(options, q, p, reading.value);
      var kept := RoomAround(options, Forgotten(older, q), mine, rest, Size(q, p));
      var added := Slot(q, p, Size(q, p));
      TotalConcat(rest, [added]);
      TotalOne(added);
      var room := Room(options, others, Size(q, p));
      if LeavesRoom(options, mine.bytes, rest + [added]) {
        assert room + [added] == kept + ([mine] + (rest + [added]));
      } else {
        NewerAreOthers(s.positive, mine, newer);
        Displaced(room, rest, mine.origin, added, newer, q);
      }
    } else {
      assert others == Forgotten(older, q) + ([mine] + (rest + []));
      assert rest + [] == rest;
    }
  }

  lemma StorableFits(options: Options, o: Origin, p: Prepared, now: int)
    requires Storable(options, o, p, now)
    ensures options.maxEntries > 0 && Size(o, p) <= options.maxBytes
  {
  }

  lemma {:induction false} ForgottenMembers(slots: seq<Slot>, q: Origin, o: Origin)
    requires forall k | 0 <= k < |slots| :: slots[k].origin != o
    ensures forall k | 0 <= k < |Forgotten(slots, q)| :: Forgotten(slots, q)[k].origin != o
  {
    if slots != [] {
      ForgottenMembers(slots[1..], q, o);
    }
  }

  lemma Displaced(room: seq<Slot>, rest: seq<Slot>, o: Origin, added: Slot, newer: seq<Slot>, q: Origin)
    requires (exists k: nat :: k <= |rest| && room == rest[k..]) && added.origin != o && rest == Forgotten(newer, q)
    requires forall k | 0 <= k < |newer| :: newer[k].origin != o
    ensures Find(room + [added], o) == |room + [added]|
  {
    ForgottenMembers(newer, q, o);
    var i := Find(room + [added], o);
  }

  /** An origin that has no slot gets none without a commit of its own. */
  lemma NoneComesBack(options: Options, s: State, o: Origin, e: Event)
    requires Distinct(s.positive) && Find(s.positive, o) == |s.positive|
    requires !(e.DoCommit? && e.origin == o && Sampled(s, e.reading).Some?)
    ensures var next := Step(options, s, e).positive; Find(next, o) == |next|
  {
    if e.DoCommit? && Sampled(s, e.reading).Some? {
      hide Find, Without, Room, Total, Distinct, Roomy;
      WithoutMeaning(s.positive, e.origin);
      var others := Without(s.positive, e.origin);
      NotFound(s.positive, o);
      if Retainable(options, e.origin, e.prepared, e.reading.value) {
        RoomMembers(options, others, Accounted(e.prepared.document, e.origin), o);
        var room := Room(options, others, Accounted(e.prepared.document, e.origin));
        assert forall x | x in room + [Entry(e.origin, e.prepared)] :: x in room || x == Entry(e.origin, e.prepared);
        FindsNothing(room + [Entry(e.origin, e.prepared)], o);
      } else {
        FindsNothing(others, o);
      }
    }
  }

  lemma NotFound(slots: seq<Slot>, o: Origin)
    requires Find(slots, o) == |slots|
    ensures forall s | s in slots :: s.origin != o
  {
  }

  lemma {:induction false} FindsNothing(slots: seq<Slot>, o: Origin)
    requires forall s | s in slots :: s.origin != o
    ensures Find(slots, o) == |slots|
  {
    if slots != [] {
      assert slots[0] in slots;
      FindsNothing(slots[1..], o);
    }
  }

  // ---------------------------------------------------------------- whole runs

  lemma QuietKeepsSlots(options: Options, s: State, e: Event)
    requires !e.DoCommit? || Sampled(s, e.reading).None?
    ensures Step(options, s, e).positive == s.positive
  {
  }

  lemma CommitsLast(options: Options, init: seq<Event>, e: Event, o: Origin)
    ensures CommitsAt(options, init + [e], |init|, o)
       <==> e.DoCommit? && e.origin == o && Sampled(Run(options, init), e.reading).Some?
  {
    assert (init + [e])[..|init|] == init;
  }

  lemma UndisplacedBefore(options: Options, before: seq<Event>, bytes: nat, after: seq<Event>)
    requires after != []
    ensures Undisplaced(options, before, bytes, after) <==>
            Undisplaced(options, before, bytes, after[..|after| - 1]) && LeavesRoom(options, bytes, Since(options, before, after))
  {
    hide LeavesRoom, Since;
    var init := after[..|after| - 1];
    assert after[..|after|] == after;
    forall n: nat | n <= |init| ensures init[..n] == after[..n] {
    }
    if Undisplaced(options, before, bytes, after) {
      forall n: nat | n <= |init| ensures LeavesRoom(options, bytes, Since(options, before, init[..n])) {
        assert LeavesRoom(options, bytes, Since(options, before, after[..n]));
      }
    } else {
      var n: nat :| n <= |after| && !LeavesRoom(options, bytes, Since(options, before, after[..n]));
    }
  }

  /** After a run, a slot that was there before it is held behind the newer ones, or it is gone. */
  lemma {:induction false} KeptOrDisplaced(options: Options, before: seq<Event>, mine: Slot, after: seq<Event>)
    requires Holds(Run(options, before).positive, mine, [])
    requires LeavesRoom(options, mine.bytes, [])
    requires forall i: nat | |before| <= i :: !CommitsAt(options, before + after, i, mine.origin)
    ensures Undisplaced(options, before, mine.bytes, after) ==>
              Holds(Run(options, before + after).positive, mine, Since(options, before, after))
    ensures !Undisplaced(options, before, mine.bytes, after) ==>
              var positive := Run(options, before + after).positive; Find(positive, mine.origin) == |positive|
    decreases |after|
  {
    if after == [] {
      assert before + after == before;
      assert after[..0] == [];
    } else {
      hide Run, Step, Committed, Find, Since, Undisplaced, LeavesRoom, Holds, Sampled, WellFormed, Retained, Covers, CommitsAt;
      var events, init, e := before + after, after[..|after| - 1], after[|after| - 1];
      var n := |events| - 1;
      assert events[..n] == before + init && events == (before + init) + [e] && after == init + [e];
      forall i: nat | |before| <= i ensures !CommitsAt(options, before + init, i, mine.origin) {
        if i < n { PrefixCommits(options, events, n, i, mine.origin); }
      }
      KeptOrDisplaced(options, before, mine, init);
      UndisplacedBefore(options, before, mine.bytes, after);
      CommitsLast(options, before + init, e, mine.origin);
      RunKeeps(options, before + init);
      OneMoreEvent(options, before, mine, init, e);
    }
  }

  /** The last event of a run. */
  lemma OneMoreEvent(options: Options, before: seq<Event>, mine: Slot, init: seq<Event>, e: Event)
    requires WellFormed(options, Run(options, before + init))
    requires !(e.DoCommit? && e.origin == mine.origin && Sampled(Run(options, before + init), e.reading).Some?)
    requires Undisplaced(options, before, mine.bytes, init) ==>
               Holds(Run(options, before + init).positive, mine, Since(options, before, init))
    requires !Undisplaced(options, before, mine.bytes, init) ==>
               var positive := Run(options, before + init).positive; Find(positive, mine.origin) == |positive|
    ensures var s := Run(options, (before + init) + [e]);
      var newer := Since(options, before, init + [e]);
      var stays := Undisplaced(options, before, mine.bytes, init) && LeavesRoom(options, mine.bytes, newer);
      (stays ==> Holds(s.positive, mine, newer)) && (!stays ==> Find(s.positive, mine.origin) == |s.positive|)
  {
    hide Step, Committed, Find, Undisplaced, LeavesRoom, Holds, Forgotten, Storable, WellFormed;
    var s := Run(options, before + init);
    assert ((before + init) + [e])[..|before + init|] == before + init;
    assert (init + [e])[..|init|] == init;
    WellFormedIsDistinct(options, s);
    if Undisplaced(options, before, mine.bytes, init) {
      var older := Since(options, before, init);
      if e.DoCommit? && Sampled(s, e.reading).Some? {
        CommitKeeps(options, s, mine, older, e.origin, e.prepared, e.reading);
        StepCommits(options, s, e);
        if !Storable(options, e.origin, e.prepared, e.reading.value) {
          SmallerLeavesRoom(options, before, mine.bytes, init, e.origin);
          assert Forgotten(older, e.origin) + [] == Forgotten(older, e.origin);
        }
      } else {
        QuietKeepsSlots(options, s, e);
        StillLeavesRoom(options, before, mine.bytes, init);
      }
    } else {
      NoneComesBack(options, s, mine.origin, e);
    }
  }

  lemma StepCommits(options: Options, s: State, e: Event)
    requires e.DoCommit?
    ensures Step(options, s, e) == Committed(options, s, e.origin, e.prepared, e.reading).0
  {
  }

  lemma StillLeavesRoom(options: Options, before: seq<Event>, bytes: nat, after: seq<Event>)
    requires Undisplaced(options, before, bytes, after)
    ensures LeavesRoom(options, bytes, Since(options, before, after))
  {
    assert after[..|after|] == after;
  }

  lemma {:induction false} ForgottenIsSmaller(slots: seq<Slot>, o: Origin)
    ensures |Forgotten(slots, o)| <= |slots| && Total(Forgotten(slots, o)) <= Total(slots)
  {
    if slots != [] {
      ForgottenIsSmaller(slots[1..], o);
      TotalConcat(if slots[0].origin == o then [] else [slots[0]], Forgotten(slots[1..], o));
    }
  }

  lemma SmallerLeavesRoom(options: Options, before: seq<Event>, bytes: nat, after: seq<Event>, o: Origin)
    requires Undisplaced(options, before, bytes, after)
    ensures LeavesRoom(options, bytes, Forgotten(Since(options, before, after), o))
  {
    StillLeavesRoom(options, before, bytes, after);
    ForgottenIsSmaller(Since(options, before, after), o);
  }

  lemma {:induction false} CommitHolds(options: Options, before: seq<Event>, o: Origin, p: Prepared, now: int)
    requires Sampled(Run(options, before), Some(now)).Some?
    ensures var positive := Run(options, before + [DoCommit(o, p, Some(now))]).positive;
      if Storable(options, o, p, now) then Holds(positive, Slot(o, p, Size(o, p)), [])
      else Find(positive, o) == |positive|
    ensures Committed(options, Run(options, before), o, p, Some(now)).1 <==> Storable(options, o, p, now)
  {
    hide Committed, Storable, Size, Find, WellFormed, Holds, Sampled;
    var committed := before + [DoCommit(o, p, Some(now))];
    assert committed[..|before|] == before;
    RunKeeps(options, before);
    CommitHoldsThen(options, Run(options, before), o, p, now);
  }

  lemma CommitHoldsThen(options: Options, s: State, o: Origin, p: Prepared, now: int)
    requires WellFormed(options, s) && Sampled(s, Some(now)).Some?
    ensures var (next, kept) := Committed(options, s, o, p, Some(now));
      && kept == Storable(options, o, p, now)
      && if kept then Holds(next.positive, Slot(o, p, Size(o, p)), []) else Find(next.positive, o) == |next.positive|
  {
    hide Room, Total, Without, Distinct, Roomy, Retainable, Storable, Entry, Accounted, Size, Find, WellFormed;
    RetainableMeaning(options, o, p, now);
    WellFormedIsDistinct(options, s);
    WithoutMeaning(s.positive, o);
    FindMeaning(Without(s.positive, o), o);
    if Storable(options, o, p, now) {
      var room := Room(options, Without(s.positive, o), Size(o, p));
      assert room + [Slot(o, p, Size(o, p))] == room + ([Slot(o, p, Size(o, p))] + []);
    } else {
      NoSlot(Without(s.positive, o), o);
    }
  }

  lemma NoSlot(slots: seq<Slot>, o: Origin)
    requires !Has(slots, o)
    ensures Find(slots, o) == |slots|
  {
  }

  lemma AnswerMeaning(s: State, o: Origin, t: Thumbprint, reading: int)
    requires s.healthy && s.lastTime <= reading <= 9007199254740991
    ensures var i := Find(s.positive, o);
      LookedUp(s, o, t, Some(reading))
      == if i < |s.positive| && FreshAt(s.positive[i].prepared, reading) then Says(s.positive[i].prepared.document, t)
         else UnknownKey
  {
  }

  /**
   * A commit decides every later answer for its origin until the next one: at every accepted reading at
   * which the set is fresh, a lookup says what its document says of the key, exactly as long as the set
   * could be stored when it was committed and the sets stored since, in first-in-first-out order, have
   * always left room for it; in all other cases the key is unknown.
   */
  lemma AnswersAreExact(options: Options, before: seq<Event>, o: Origin, p: Prepared, now: int, after: seq<Event>,
                        t: Thumbprint, reading: int)
    requires Run(options, before).healthy && Run(options, before).lastTime <= now <= 9007199254740991
    requires var events := before + [DoCommit(o, p, Some(now))] + after;
      && (forall i: nat | |before| < i :: !CommitsAt(options, events, i, o))
      && Run(options, events).healthy && Run(options, events).lastTime <= reading <= 9007199254740991
    ensures var committed := before + [DoCommit(o, p, Some(now))];
      LookedUp(Run(options, committed + after), o, t, Some(reading))
      == if Storable(options, o, p, now) && Undisplaced(options, committed, Size(o, p), after) && FreshAt(p, reading)
         then Says(p.document, t) else UnknownKey
    ensures Committed(options, Run(options, before), o, p, Some(now)).1 <==> Storable(options, o, p, now)
  {
    hide Run, Find, Storable, Undisplaced, FreshAt, Says, Holds, CommitsAt, LookedUp;
    var committed := before + [DoCommit(o, p, Some(now))];
    var s := Run(options, committed + after);
    CommitHolds(options, before, o, p, now);
    AnswerMeaning(s, o, t, reading);
    RunKeeps(options, committed + after);
    if Storable(options, o, p, now) {
      var mine := Slot(o, p, Size(o, p));
      StorableFits(options, o, p, now);
      assert LeavesRoom(options, mine.bytes, []) by { NothingIsFree(); }
      KeptOrDisplaced(options, committed, mine, after);
      if Undisplaced(options, committed, Size(o, p), after) {
        HeldIsFound(s.positive, mine, Since(options, committed, after));
      }
    } else {
      NeverComesBack(options, committed, o, after);
    }
  }

  lemma {:induction false} NeverComesBack(options: Options, before: seq<Event>, o: Origin, after: seq<Event>)
    requires var positive := Run(options, before).positive; Find(positive, o) == |positive|
    requires forall i: nat | |before| <= i :: !CommitsAt(options, before + after, i, o)
    ensures var positive := Run(options, before + after).positive; Find(positive, o) == |positive|
    decreases |after|
  {
    if after == [] {
      assert before + after == before;
    } else {
      var events, init, last := before + after, after[..|after| - 1], after[|after| - 1];
      var n := |events| - 1;
      assert events[..n] == before + init;
      assert events == (before + init) + [last];
      forall i: nat | |before| <= i ensures !CommitsAt(options, before + init, i, o) {
        if i < n { PrefixCommits(options, events, n, i, o); } else { NoSuchCall(options, before + init, i, o); }
      }
      hide Find, Run, CommitsAt;
      NeverComesBack(options, before, o, init);
      assert !CommitsAt(options, events, n, o);
      LastStepLeavesNone(options, before + init, o, last);
    }
  }

  lemma NoSuchCall(options: Options, events: seq<Event>, i: nat, o: Origin)
    requires |events| <= i
    ensures !CommitsAt(options, events, i, o)
  {
  }

  lemma {:induction false} LastStepLeavesNone(options: Options, events: seq<Event>, o: Origin, last: Event)
    requires var positive := Run(options, events).positive; Find(positive, o) == |positive|
    requires !CommitsAt(options, events + [last], |events|, o)
    ensures var positive := Run(options, events + [last]).positive; Find(positive, o) == |positive|
  {
    hide Find, Step, Sampled, WellFormed;
    var all := events + [last];
    assert all[..|events|] == events && all[|events|] == last;
    RunKeeps(options, events);
    WellFormedIsDistinct(options, Run(options, events));
    NoneComesBack(options, Run(options, events), o, last);
  }
}
