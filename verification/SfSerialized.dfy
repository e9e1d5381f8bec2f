/**
 * When the serializer succeeds: exactly on valid values within the limits whose text fits, and then its
 * output is the canonical text, whatever was charged on the way. Which error comes first plays no part here.
 */
module SfSerialized {
  import opened Basics
  import opened SfModel
  import opened SfSerializer
  import Utf8

  predicate Room(lim: Limits, out: Out, more: nat) { |out.text| + more <= lim.maxOutputBytes }

  predicate WithinLimits(lim: Limits, out: Out) {
    Room(lim, out, 0) && out.occurrences <= lim.maxTotalOccurrences
  }

  function Plus(out: Out, t: Text, occurrences: nat): Out {
    Out(out.text + t, out.occurrences + occurrences)
  }

  lemma PlusPlus(out: Out, t: Text, m: nat, u: Text, n: nat)
    ensures Plus(Plus(out, t, m), u, n) == Plus(out, t + u, m + n)
  {
    assert (out.text + t) + u == out.text + (t + u);
  }

  /**
   * What a step writes: it succeeds exactly when its value is acceptable and there is room,
   * and then adds `t` and `n` occurrences.
   */
  predicate Writes(lim: Limits, out: Out, r: Outcome<Out>, ok: bool, t: Text, n: nat) {
    && (r.Ok? <==> ok && out.occurrences + n <= lim.maxTotalOccurrences && Room(lim, out, |t|))
    && (r.Ok? ==> r.value == Plus(out, t, n))
  }

  lemma Sequence(lim: Limits, out: Out, r: Outcome<Out>, ok: bool, t: Text, n: nat,
                 last: Outcome<Out>, ok': bool, t': Text, n': nat)
    requires Writes(lim, out, r, ok, t, n)
    requires if r.Ok? then Writes(lim, r.value, last, ok', t', n') else last.Err?
    ensures Writes(lim, out, last, ok && ok', t + t', n + n')
  {
    PlusPlus(out, t, n, t', n');
  }

  // ---------------------------------------------------------------- bare items

  lemma {:induction false} MeasureStringMeaning(lim: Limits, length: nat, t: Text, i: nat, encoded: nat)
    requires i <= |t| && length + encoded <= lim.maxOutputBytes
    ensures MeasureString(lim, length, t, i, encoded).Ok? <==>
            (forall k | i <= k < |t| :: Printable(t[k])) && length + encoded + |Escape(t[i..])| <= lim.maxOutputBytes
    decreases |t| - i
  {
    if i < |t| && Printable(t[i]) {
      var next := encoded + if t[i] == 34 || t[i] == 92 then 2 else 1;
      assert t[i..][1..] == t[i + 1..];
      if length + next <= lim.maxOutputBytes {
        MeasureStringMeaning(lim, length, t, i + 1, next);
      }
    }
  }

  lemma WriteStringMeaning(lim: Limits, out: Out, t: Text)
    ensures WriteString(lim, out, t).Ok? <==>
            ValidBare(Str(t)) && BareFits(lim, Str(t)) && Room(lim, out, |BareText(Str(t))|)
    ensures WriteString(lim, out, t).Ok? ==> WriteString(lim, out, t).value == Plus(out, BareText(Str(t)), 0)
  {
    assert t[0..] == t;
    if Room(lim, out, 2) {
      MeasureStringMeaning(lim, |out.text|, t, 0, 2);
    }
  }

  lemma {:induction false} EscapeConcat(a: seq<Byte>, b: seq<Byte>)
    ensures EscapeBytes(a + b) == EscapeBytes(a) + EscapeBytes(b)
  {
    if a == [] {
      assert a + b == b;
    } else {
      var x, tail := EscapeByte(a[0]), a[1..];
      EscapeConcat(tail, b);
      assert (a + b)[1..] == tail + b && (a + b)[0] == a[0];
      assert x + (EscapeBytes(tail) + EscapeBytes(b)) == (x + EscapeBytes(tail)) + EscapeBytes(b);
    }
  }

  lemma EscapedUnescapable(b: seq<Byte>)
    requires forall i | 0 <= i < |b| :: !Plain(b[i])
    ensures |EscapeBytes(b)| == 3 * |b|
  {
  }

  lemma EscapedScalar(c: Code)
    requires !Utf8.High(c) && !Utf8.Low(c)
    ensures |Utf8.EncodeOne(c)| == ByteCount(c)
    ensures |EscapeBytes(Utf8.EncodeOne(c))| == if Plain(c) then 1 else 3 * ByteCount(c)
  {
    var b := Utf8.EncodeOne(c);
    if Plain(c) {
      assert b == [c] && b[1..] == [];
    } else {
      EscapedUnescapable(b);
    }
  }

  lemma EscapedPair(high: Code, low: Code)
    requires Utf8.High(high) && Utf8.Low(low)
    ensures |EscapeBytes(Utf8.EncodePair(high, low))| == 12
  {
    EscapedUnescapable(Utf8.EncodePair(high, low));
  }

  lemma {:induction false} MeasureDisplayMeaning(
    lim: Limits, length: nat, t: Text, i: nat, decoded: nat, encoded: nat)
    requires i <= |t| && length + encoded <= lim.maxOutputBytes && decoded <= lim.maxDecodedBytes
    ensures MeasureDisplay(lim, length, t, i, decoded, encoded).Ok? <==>
            && Utf8.WellFormed(t[i..])
            && decoded + |Utf8.Encode(t[i..])| <= lim.maxDecodedBytes
            && length + encoded + |EscapeBytes(Utf8.Encode(t[i..]))| <= lim.maxOutputBytes
    decreases |t| - i
  {
    if i < |t| {
      if Utf8.High(t[i]) {
        if i + 1 < |t| && Utf8.Low(t[i + 1]) {
          MeasurePair(lim, length, t, i, decoded, encoded);
        }
      } else if !Utf8.Low(t[i]) {
        MeasureScalar(lim, length, t, i, decoded, encoded);
      }
    }
  }

  lemma {:induction false} MeasurePair(lim: Limits, length: nat, t: Text, i: nat, decoded: nat, encoded: nat)
    requires i + 1 < |t| && Utf8.High(t[i]) && Utf8.Low(t[i + 1])
    requires length + encoded <= lim.maxOutputBytes && decoded <= lim.maxDecodedBytes
    ensures MeasureDisplay(lim, length, t, i, decoded, encoded).Ok? <==>
            && Utf8.WellFormed(t[i..])
            && decoded + |Utf8.Encode(t[i..])| <= lim.maxDecodedBytes
            && length + encoded + |EscapeBytes(Utf8.Encode(t[i..]))| <= lim.maxOutputBytes
    decreases |t| - i, 0
  {
    hide Utf8.EncodePair, EscapeBytes;
    var rest := t[i + 2..];
    assert t[i..][2..] == rest;
    var head := Utf8.EncodePair(t[i], t[i + 1]);
    EscapedPair(t[i], t[i + 1]);
    if Utf8.WellFormed(rest) {
      EscapeConcat(head, Utf8.Encode(rest));
    }
    if decoded + 4 <= lim.maxDecodedBytes && length + encoded + 12 <= lim.maxOutputBytes {
      MeasureDisplayMeaning(lim, length, t, i + 2, decoded + 4, encoded + 12);
    }
  }

  lemma {:induction false} MeasureScalar(lim: Limits, length: nat, t: Text, i: nat, decoded: nat, encoded: nat)
    requires i < |t| && !Utf8.High(t[i]) && !Utf8.Low(t[i])
    requires length + encoded <= lim.maxOutputBytes && decoded <= lim.maxDecodedBytes
    ensures MeasureDisplay(lim, length, t, i, decoded, encoded).Ok? <==>
            && Utf8.WellFormed(t[i..])
            && decoded + |Utf8.Encode(t[i..])| <= lim.maxDecodedBytes
            && length + encoded + |EscapeBytes(Utf8.Encode(t[i..]))| <= lim.maxOutputBytes
    decreases |t| - i, 0
  {
    var rest := t[i + 1..];
    assert t[i..][1..] == rest;
    var head := Utf8.EncodeOne(t[i]);
    EscapedScalar(t[i]);
    if Utf8.WellFormed(rest) {
      EscapeConcat(head, Utf8.Encode(rest));
    }
    var decoded', encoded' := decoded + |head|, encoded + |EscapeBytes(head)|;
    if decoded' <= lim.maxDecodedBytes && length + encoded' <= lim.maxOutputBytes {
      MeasureDisplayMeaning(lim, length, t, i + 1, decoded', encoded');
    }
  }

  lemma WriteDisplayMeaning(lim: Limits, out: Out, t: Text)
    ensures WriteDisplay(lim, out, t).Ok? <==>
            ValidBare(DisplayString(t)) && BareFits(lim, DisplayString(t)) && Room(lim, out, |BareText(DisplayString(t))|)
    ensures WriteDisplay(lim, out, t).Ok? ==> WriteDisplay(lim, out, t).value == Plus(out, BareText(DisplayString(t)), 0)
  {
    assert t[0..] == t;
    if Utf8.WellFormed(t) {
      Utf8.EncodeIsLonger(t);
    }
    if Room(lim, out, 3) {
      MeasureDisplayMeaning(lim, |out.text|, t, 0, 0, 3);
    }
  }

  predicate BareOk(lim: Limits, b: BareItem) { ValidBare(b) && BareFits(lim, b) }

  lemma WriteBareMeaning(lim: Limits, out: Out, b: BareItem)
    requires WithinLimits(lim, out)
    ensures Writes(lim, out, WriteBare(lim, out, b), BareOk(lim, b), if BareOk(lim, b) then BareText(b) else [], 0)
  {
    match b {
      case Str(t) => WriteStringMeaning(lim, out, t);
      case DisplayString(t) => WriteDisplayMeaning(lim, out, t);
      case _ =>
    }
  }

  // ---------------------------------------------------------------- parameters

  predicate ParameterFits(lim: Limits, p: Pair<BareItem>, seen: set<Text>) {
    ValidKey(p.key) && p.key !in seen && |p.key| <= lim.maxKeyLength && BareOk(lim, p.value)
  }

  /** What the parameters still to be written must satisfy, given the keys before them. */
  predicate RestFits(lim: Limits, ps: Parameters, seen: set<Text>) {
    DistinctKeys(ps) && forall i | 0 <= i < |ps| :: ParameterFits(lim, ps[i], seen)
  }

  lemma RestFitsStep(lim: Limits, ps: Parameters, seen: set<Text>)
    requires ps != []
    ensures RestFits(lim, ps, seen) <==> ParameterFits(lim, ps[0], seen) && RestFits(lim, ps[1..], seen + {ps[0].key})
  {
    var tail := ps[1..];
    if RestFits(lim, ps, seen) {
      assert forall i | 0 <= i < |tail| :: ParameterFits(lim, tail[i], seen + {ps[0].key});
    }
    if ParameterFits(lim, ps[0], seen) && RestFits(lim, tail, seen + {ps[0].key}) {
      forall i | 0 < i < |ps| ensures ParameterFits(lim, ps[i], seen) && ps[i].key != ps[0].key {
        assert ps[i] == tail[i - 1];
      }
      forall i, j | 0 <= i < j < |ps| ensures ps[i].key != ps[j].key {
        if i > 0 {
          assert ps[i] == tail[i - 1] && ps[j] == tail[j - 1];
        }
      }
    }
  }

  lemma WriteKeyMeaning(lim: Limits, out: Out, key: Text, seen: set<Text>)
    ensures WriteKey(lim, out, key, seen).Ok? <==>
            |key| <= lim.maxKeyLength && ValidKey(key) && key !in seen && Room(lim, out, |key|)
    ensures WriteKey(lim, out, key, seen).Ok? ==> WriteKey(lim, out, key, seen).value == Plus(out, key, 0)
  {
  }

  lemma WriteParameterValueMeaning(lim: Limits, out: Out, b: BareItem)
    requires WithinLimits(lim, out)
    ensures Writes(lim, out, WriteParameterValue(lim, out, b), BareOk(lim, b),
                   if BareOk(lim, b) then ParameterValueText(b) else [], 0)
  {
    var r := WriteParameterValue(lim, out, b);
    if b == TRUE {
      assert out == Plus(out, [], 0);
    } else {
      var equals := Appended(lim, out, [61]);
      var t := if BareOk(lim, b) then BareText(b) else [];
      assert Writes(lim, out, equals, true, [61], 0);
      if equals.Ok? {
        WriteBareMeaning(lim, equals.value, b);
      }
      Sequence(lim, out, equals, true, [61], 0, r, BareOk(lim, b), t, 0);
    }
  }

  /** One parameter: its count, its semicolon, its key and its value. */
  function WriteParameter(lim: Limits, out: Out, p: Pair<BareItem>, seen: set<Text>): Outcome<Out> {
    var counted :- Counted(lim, out);
    var started :- Appended(lim, counted, [59]);
    var keyed :- WriteKey(lim, started, p.key, seen);
    WriteParameterValue(lim, keyed, p.value)
  }

  function WriteKeyAndValue(lim: Limits, out: Out, p: Pair<BareItem>, seen: set<Text>): Outcome<Out> {
    var keyed :- WriteKey(lim, out, p.key, seen);
    WriteParameterValue(lim, keyed, p.value)
  }

  lemma WriteKeyAndValueMeaning(lim: Limits, out: Out, p: Pair<BareItem>, seen: set<Text>)
    requires WithinLimits(lim, out)
    ensures Writes(lim, out, WriteKeyAndValue(lim, out, p, seen), ParameterFits(lim, p, seen),
                   if ParameterFits(lim, p, seen) then p.key + ParameterValueText(p.value) else [], 0)
  {
    var r := WriteKeyAndValue(lim, out, p, seen);
    var keyed := WriteKey(lim, out, p.key, seen);
    var ok := |p.key| <= lim.maxKeyLength && ValidKey(p.key) && p.key !in seen;
    var t := if BareOk(lim, p.value) then ParameterValueText(p.value) else [];
    WriteKeyMeaning(lim, out, p.key, seen);
    assert Writes(lim, out, keyed, ok, p.key, 0);
    if keyed.Ok? {
      WriteParameterValueMeaning(lim, keyed.value, p.value);
    }
    Sequence(lim, out, keyed, ok, p.key, 0, r, BareOk(lim, p.value), t, 0);
  }

  lemma WriteParameterMeaning(lim: Limits, out: Out, p: Pair<BareItem>, seen: set<Text>)
    requires WithinLimits(lim, out)
    ensures Writes(lim, out, WriteParameter(lim, out, p, seen), ParameterFits(lim, p, seen),
                   if ParameterFits(lim, p, seen) then ParameterText(p) else [], 1)
  {
    var r := WriteParameter(lim, out, p, seen);
    var started := Plus(out, [59], 1);
    if WithinLimits(lim, started) {
      assert r == WriteKeyAndValue(lim, started, p, seen);
      var t := if ParameterFits(lim, p, seen) then p.key + ParameterValueText(p.value) else [];
      WriteKeyAndValueMeaning(lim, started, p, seen);
      Sequence(lim, out, Ok(started), true, [59], 1, r, ParameterFits(lim, p, seen), t, 0);
    }
  }

  lemma {:induction false} WriteRestMeaning(lim: Limits, out: Out, ps: Parameters, seen: set<Text>)
    requires WithinLimits(lim, out)
    ensures Writes(lim, out, WriteRest(lim, out, ps, seen), RestFits(lim, ps, seen),
                   if RestFits(lim, ps, seen) then ParametersText(ps) else [], |ps|)
    decreases |ps|
  {
    var r := WriteRest(lim, out, ps, seen);
    if ps == [] {
      assert out == Plus(out, [], 0);
    } else {
      var p, tail, seen' := ps[0], ps[1..], seen + {ps[0].key};
      RestFitsStep(lim, ps, seen);
      WriteParameterMeaning(lim, out, p, seen);
      var written := WriteParameter(lim, out, p, seen);
      var ok, ok' := ParameterFits(lim, p, seen), RestFits(lim, tail, seen');
      var t, t' := if ok then ParameterText(p) else [], if ok' then ParametersText(tail) else [];
      assert r == if written.Ok? then WriteRest(lim, written.value, tail, seen') else written;
      if written.Ok? {
        WriteRestMeaning(lim, written.value, tail, seen');
      }
      Sequence(lim, out, written, ok, t, 1, r, ok', t', |tail|);
    }
  }

  predicate ParametersOk(lim: Limits, ps: Parameters): (r: bool)
    ensures r ==> ValidValues(ps)
  {
    ValidParameters(ps) && ParametersFit(lim, ps)
  }

  lemma WriteParametersMeaning(lim: Limits, out: Out, ps: Parameters)
    requires WithinLimits(lim, out)
    ensures Writes(lim, out, WriteParameters(lim, out, ps), ParametersOk(lim, ps),
                   if ParametersOk(lim, ps) then ParametersText(ps) else [], |ps|)
  {
    NothingSeen(lim, ps);
    if |ps| <= lim.maxParameters {
      WriteRestMeaning(lim, out, ps, {});
      assert WriteParameters(lim, out, ps) == WriteRest(lim, out, ps, {});
    } else {
      assert WriteParameters(lim, out, ps).Err?;
    }
  }

  lemma NothingSeen(lim: Limits, ps: Parameters)
    ensures ParametersOk(lim, ps) <==> |ps| <= lim.maxParameters && RestFits(lim, ps, {})
  {
    if ValidParameters(ps) && ParametersFit(lim, ps) {
      assert forall i | 0 <= i < |ps| :: ParameterFits(lim, ps[i], {});
    }
    if RestFits(lim, ps, {}) {
      forall i | 0 <= i < |ps|
        ensures ValidKey(ps[i].key) && |ps[i].key| <= lim.maxKeyLength && BareOk(lim, ps[i].value)
      {
        assert ParameterFits(lim, ps[i], {});
      }
    }
  }

  // ---------------------------------------------------------------- items, members and fields

  predicate ItemOk(lim: Limits, i: Item): (r: bool)
    ensures r ==> ValidItem(i)
  {
    ValidItem(i) && ItemFits(lim, i)
  }

  function WriteBareAndParameters(lim: Limits, out: Out, i: Item): Outcome<Out> {
    var written :- WriteBare(lim, out, i.bare);
    WriteParameters(lim, written, i.params)
  }

  lemma WriteBareAndParametersMeaning(lim: Limits, out: Out, i: Item)
    requires WithinLimits(lim, out)
    ensures Writes(lim, out, WriteBareAndParameters(lim, out, i), ItemOk(lim, i), if ItemOk(lim, i) then ItemText(i) else [],
                   |i.params|)
  {
    var r := WriteBareAndParameters(lim, out, i);
    var written := WriteBare(lim, out, i.bare);
    var ok, ok' := BareOk(lim, i.bare), ParametersOk(lim, i.params);
    var t, t' := if ok then BareText(i.bare) else [], if ok' then ParametersText(i.params) else [];
    WriteBareMeaning(lim, out, i.bare);
    if written.Ok? {
      WriteParametersMeaning(lim, written.value, i.params);
    }
    Sequence(lim, out, written, ok, t, 0, r, ok', t', |i.params|);
    assert ItemOk(lim, i) <==> ok && ok';
  }

  lemma WriteItemMeaning(lim: Limits, out: Out, i: Item)
    requires WithinLimits(lim, out)
    ensures Writes(lim, out, WriteMember(lim, out, ItemMember(i)), ItemOk(lim, i), if ItemOk(lim, i) then ItemText(i) else [],
                   ItemOccurrences(i))
  {
    var r := WriteMember(lim, out, ItemMember(i));
    var counted := Out(out.text, out.occurrences + 1);
    if WithinLimits(lim, counted) {
      assert counted == Plus(out, [], 1);
      assert r == WriteBareAndParameters(lim, counted, i);
      var t := if ItemOk(lim, i) then ItemText(i) else [];
      WriteBareAndParametersMeaning(lim, counted, i);
      Sequence(lim, out, Ok(counted), true, [], 1, r, ItemOk(lim, i), t, |i.params|);
      assert [] + t == t;
    }
  }

  predicate ItemsFit(lim: Limits, items: seq<Item>) {
    forall k | 0 <= k < |items| :: ItemOk(lim, items[k])
  }

  lemma SeparatedMeaning(lim: Limits, out: Out, first: bool, separator: Text)
    requires WithinLimits(lim, out)
    ensures var lead := if first then [] else separator;
      && (Separated(lim, out, first, separator).Ok? <==> Room(lim, out, |lead|))
      && (Room(lim, out, |lead|) ==> Separated(lim, out, first, separator) == Ok(Plus(out, lead, 0)))
  {
    assert out == Plus(out, [], 0);
  }

  lemma {:induction false} WriteItemsMeaning(lim: Limits, out: Out, items: seq<Item>, first: bool)
    requires WithinLimits(lim, out)
    ensures Writes(lim, out, WriteItems(lim, out, items, first), ItemsFit(lim, items),
                   if ItemsFit(lim, items) then ItemsText(items, first) else [], ItemsOccurrences(items))
    decreases |items|
  {
    var r := WriteItems(lim, out, items, first);
    if items == [] {
      assert out == Plus(out, [], 0);
    } else {
      var i, tail := items[0], items[1..];
      var lead: Text := if first then [] else [32];
      assert ItemsFit(lim, items) <==> ItemOk(lim, i) && ItemsFit(lim, tail) by {
        assert items == [i] + tail;
      }
      SeparatedMeaning(lim, out, first, [32]);
      var separated := Separated(lim, out, first, [32]);
      assert Writes(lim, out, separated, true, lead, 0);
      if separated.Ok? {
        var written := WriteMember(lim, separated.value, ItemMember(i));
        var ok, t, n := ItemOk(lim, i), if ItemOk(lim, i) then ItemText(i) else [], ItemOccurrences(i);
        var ok', n' := ItemsFit(lim, tail), ItemsOccurrences(tail);
        var t' := if ok' then ItemsText(tail, false) else [];
        WriteItemMeaning(lim, separated.value, i);
        Sequence(lim, out, separated, true, lead, 0, written, ok, t, n);
        if written.Ok? {
          WriteItemsMeaning(lim, written.value, tail, false);
        }
        Sequence(lim, out, written, ok, lead + t, n, r, ok', t', n');
      }
    }
  }

  predicate MemberOk(lim: Limits, m: Member): (r: bool)
    ensures r ==> ValidMember(m)
  {
    ValidMember(m) && MemberFits(lim, m)
  }

  lemma WriteParenthesizedMeaning(lim: Limits, out: Out, items: seq<Item>)
    requires WithinLimits(lim, out)
    ensures Writes(lim, out, WriteParenthesized(lim, out, items), |items| <= lim.maxInnerListItems && ItemsFit(lim, items),
                   if ItemsFit(lim, items) then [40] + ItemsText(items, true) + [41] else [], ItemsOccurrences(items))
  {
    var r := WriteParenthesized(lim, out, items);
    var ok := ItemsFit(lim, items);
    var body := if ok then ItemsText(items, true) else [];
    if |items| <= lim.maxInnerListItems {
      var begun := Appended(lim, out, [40]);
      assert Writes(lim, out, begun, true, [40], 0);
      if begun.Ok? {
        WriteItemsMeaning(lim, begun.value, items, true);
        var written := WriteItems(lim, begun.value, items, true);
        assert Writes(lim, begun.value, written, ok, body, ItemsOccurrences(items));
        Sequence(lim, out, begun, true, [40], 0, written, ok, body, ItemsOccurrences(items));
        if written.Ok? {
          assert Writes(lim, written.value, r, true, [41], 0);
        }
        Sequence(lim, out, written, ok, [40] + body, ItemsOccurrences(items), r, true, [41], 0);
      }
    }
  }

  function WriteListBody(lim: Limits, out: Out, items: seq<Item>, ps: Parameters): Outcome<Out> {
    var closed :- WriteParenthesized(lim, out, items);
    WriteParameters(lim, closed, ps)
  }

  lemma WriteListBodyMeaning(lim: Limits, out: Out, items: seq<Item>, ps: Parameters)
    requires WithinLimits(lim, out)
    ensures var m := InnerList(items, ps);
      Writes(lim, out, WriteListBody(lim, out, items, ps), MemberOk(lim, m), if MemberOk(lim, m) then MemberText(m) else [],
             ItemsOccurrences(items) + |ps|)
  {
    var r := WriteListBody(lim, out, items, ps);
    var closed := WriteParenthesized(lim, out, items);
    var ok, n := |items| <= lim.maxInnerListItems && ItemsFit(lim, items), ItemsOccurrences(items);
    var ok' := ParametersOk(lim, ps);
    var body := if ItemsFit(lim, items) then [40] + ItemsText(items, true) + [41] else [];
    var rest := if ok' then ParametersText(ps) else [];
    WriteParenthesizedMeaning(lim, out, items);
    if closed.Ok? {
      WriteParametersMeaning(lim, closed.value, ps);
    }
    Sequence(lim, out, closed, ok, body, n, r, ok', rest, |ps|);
    InnerListOk(lim, items, ps);
  }

  lemma WriteInnerListMeaning(lim: Limits, out: Out, items: seq<Item>, ps: Parameters)
    requires WithinLimits(lim, out)
    ensures var m := InnerList(items, ps);
      Writes(lim, out, WriteMember(lim, out, m), MemberOk(lim, m), if MemberOk(lim, m) then MemberText(m) else [],
             MemberOccurrences(m))
  {
    var m := InnerList(items, ps);
    var r := WriteMember(lim, out, m);
    var counted := Out(out.text, out.occurrences + 1);
    if WithinLimits(lim, counted) {
      assert counted == Plus(out, [], 1);
      assert r == WriteListBody(lim, counted, items, ps);
      var t := if MemberOk(lim, m) then MemberText(m) else [];
      WriteListBodyMeaning(lim, counted, items, ps);
      Sequence(lim, out, Ok(counted), true, [], 1, r, MemberOk(lim, m), t, ItemsOccurrences(items) + |ps|);
      assert [] + t == t;
    }
  }

  lemma InnerListOk(lim: Limits, items: seq<Item>, ps: Parameters)
    ensures MemberOk(lim, InnerList(items, ps)) <==>
            |items| <= lim.maxInnerListItems && ItemsFit(lim, items) && ParametersOk(lim, ps)
  {
    var m := InnerList(items, ps);
    if ItemsFit(lim, items) {
      forall k | 0 <= k < |items| ensures ValidItem(items[k]) && ItemFits(lim, items[k]) {
        assert ItemOk(lim, items[k]);
      }
    }
    if MemberOk(lim, m) {
      forall k | 0 <= k < |items| ensures ItemOk(lim, items[k]) {
        assert ValidItem(items[k]);
      }
    }
  }

  lemma WriteMemberMeaning(lim: Limits, out: Out, m: Member)
    requires WithinLimits(lim, out)
    ensures Writes(lim, out, WriteMember(lim, out, m), MemberOk(lim, m), if MemberOk(lim, m) then MemberText(m) else [],
                   MemberOccurrences(m))
  {
    match m {
      case ItemMember(i) => WriteItemMeaning(lim, out, i);
      case InnerList(items, ps) => WriteInnerListMeaning(lim, out, items, ps);
    }
  }

  predicate MembersOk(lim: Limits, ms: seq<Member>) { forall k | 0 <= k < |ms| :: MemberOk(lim, ms[k]) }

  lemma {:induction false} WriteMembersMeaning(lim: Limits, out: Out, ms: seq<Member>, first: bool)
    requires WithinLimits(lim, out)
    ensures Writes(lim, out, WriteMembers(lim, out, ms, first), MembersOk(lim, ms),
                   if MembersOk(lim, ms) then MembersText(ms, first) else [], MembersOccurrences(ms))
    decreases |ms|
  {
    var r := WriteMembers(lim, out, ms, first);
    if ms == [] {
      assert out == Plus(out, [], 0);
    } else {
      var m, tail := ms[0], ms[1..];
      var lead: Text := if first then [] else [44, 32];
      assert MembersOk(lim, ms) <==> MemberOk(lim, m) && MembersOk(lim, tail) by {
        assert ms == [m] + tail;
      }
      SeparatedMeaning(lim, out, first, [44, 32]);
      var separated := Separated(lim, out, first, [44, 32]);
      assert Writes(lim, out, separated, true, lead, 0);
      if separated.Ok? {
        var written := WriteMember(lim, separated.value, m);
        var ok, t, n := MemberOk(lim, m), if MemberOk(lim, m) then MemberText(m) else [], MemberOccurrences(m);
        var ok', n' := MembersOk(lim, tail), MembersOccurrences(tail);
        var t' := if MembersOk(lim, tail) then MembersText(tail, false) else [];
        WriteMemberMeaning(lim, separated.value, m);
        Sequence(lim, out, separated, true, lead, 0, written, ok, t, n);
        if written.Ok? {
          WriteMembersMeaning(lim, written.value, tail, false);
        }
        Sequence(lim, out, written, ok, lead + t, n, r, ok', t', n');
      }
    }
  }

  lemma WriteImplicitMeaning(lim: Limits, out: Out, i: Item)
    requires WithinLimits(lim, out) && i.bare == TRUE
    ensures Writes(lim, out, WriteEntryValue(lim, out, ItemMember(i)), ParametersOk(lim, i.params),
                   if ParametersOk(lim, i.params) then ParametersText(i.params) else [], ItemOccurrences(i))
  {
    var r := WriteEntryValue(lim, out, ItemMember(i));
    var counted := Out(out.text, out.occurrences + 1);
    if WithinLimits(lim, counted) {
      var t := if ParametersOk(lim, i.params) then ParametersText(i.params) else [];
      WriteParametersMeaning(lim, counted, i.params);
      assert counted == Plus(out, [], 1);
      assert r == WriteParameters(lim, counted, i.params);
      Sequence(lim, out, Ok(counted), true, [], 1, r, ParametersOk(lim, i.params), t, |i.params|);
      assert [] + t == t;
    }
  }

  lemma WriteExplicitMeaning(lim: Limits, out: Out, m: Member)
    requires WithinLimits(lim, out) && !Implicit(m)
    ensures Writes(lim, out, WriteEntryValue(lim, out, m), MemberOk(lim, m),
                   if MemberOk(lim, m) then [61] + MemberText(m) else [], MemberOccurrences(m))
  {
    var r := WriteEntryValue(lim, out, m);
    var equals := Appended(lim, out, [61]);
    var t := if MemberOk(lim, m) then MemberText(m) else [];
    assert Writes(lim, out, equals, true, [61], 0);
    if equals.Ok? {
      WriteMemberMeaning(lim, equals.value, m);
    }
    Sequence(lim, out, equals, true, [61], 0, r, MemberOk(lim, m), t, MemberOccurrences(m));
  }

  lemma WriteEntryValueMeaning(lim: Limits, out: Out, m: Member)
    requires WithinLimits(lim, out)
    ensures Writes(lim, out, WriteEntryValue(lim, out, m), MemberOk(lim, m), if MemberOk(lim, m) then ValueText(m) else [],
                   MemberOccurrences(m))
  {
    if Implicit(m) {
      WriteImplicitMeaning(lim, out, m.item);
      assert MemberOk(lim, m) <==> ParametersOk(lim, m.item.params);
    } else {
      WriteExplicitMeaning(lim, out, m);
    }
  }

  predicate EntryFits(lim: Limits, e: Pair<Member>, seen: set<Text>): (r: bool)
    ensures r ==> ValidKey(e.key) && ValidMember(e.value)
  {
    ValidKey(e.key) && e.key !in seen && |e.key| <= lim.maxKeyLength && MemberOk(lim, e.value)
  }

  predicate EntriesFit(lim: Limits, es: seq<Pair<Member>>, seen: set<Text>) {
    DistinctKeys(es) && forall i | 0 <= i < |es| :: EntryFits(lim, es[i], seen)
  }

  lemma EntriesFitStep(lim: Limits, es: seq<Pair<Member>>, seen: set<Text>)
    requires es != []
    ensures EntriesFit(lim, es, seen) <==> EntryFits(lim, es[0], seen) && EntriesFit(lim, es[1..], seen + {es[0].key})
  {
    var tail := es[1..];
    if EntriesFit(lim, es, seen) {
      assert forall i | 0 <= i < |tail| :: EntryFits(lim, tail[i], seen + {es[0].key});
    }
    if EntryFits(lim, es[0], seen) && EntriesFit(lim, tail, seen + {es[0].key}) {
      forall i | 0 < i < |es| ensures EntryFits(lim, es[i], seen) && es[i].key != es[0].key {
        assert es[i] == tail[i - 1];
      }
      forall i, j | 0 <= i < j < |es| ensures es[i].key != es[j].key {
        if i > 0 {
          assert es[i] == tail[i - 1] && es[j] == tail[j - 1];
        }
      }
    }
  }

  function WriteEntry(lim: Limits, out: Out, e: Pair<Member>, seen: set<Text>): Outcome<Out> {
    var keyed :- WriteKey(lim, out, e.key, seen);
    WriteEntryValue(lim, keyed, e.value)
  }

  lemma WriteEntryMeaning(lim: Limits, out: Out, e: Pair<Member>, seen: set<Text>)
    requires WithinLimits(lim, out)
    ensures Writes(lim, out, WriteEntry(lim, out, e, seen), EntryFits(lim, e, seen),
                   if EntryFits(lim, e, seen) then EntryText(e) else [], MemberOccurrences(e.value))
  {
    var r := WriteEntry(lim, out, e, seen);
    var keyed := WriteKey(lim, out, e.key, seen);
    var ok := |e.key| <= lim.maxKeyLength && ValidKey(e.key) && e.key !in seen;
    var t := if MemberOk(lim, e.value) then ValueText(e.value) else [];
    WriteKeyMeaning(lim, out, e.key, seen);
    assert Writes(lim, out, keyed, ok, e.key, 0);
    if keyed.Ok? {
      WriteEntryValueMeaning(lim, keyed.value, e.value);
    }
    Sequence(lim, out, keyed, ok, e.key, 0, r, MemberOk(lim, e.value), t, MemberOccurrences(e.value));
  }

  lemma {:induction false} WriteEntriesMeaning(
    lim: Limits, out: Out, es: seq<Pair<Member>>, seen: set<Text>, first: bool)
    requires WithinLimits(lim, out)
    ensures Writes(lim, out, WriteEntries(lim, out, es, seen, first), EntriesFit(lim, es, seen),
                   if EntriesFit(lim, es, seen) then EntriesText(es, first) else [], EntriesOccurrences(es))
    decreases |es|
  {
    hide MemberOccurrences, EntryText, EntryFits;
    var r := WriteEntries(lim, out, es, seen, first);
    if es == [] {
      assert out == Plus(out, [], 0);
    } else {
      var e, tail, seen' := es[0], es[1..], seen + {es[0].key};
      var lead: Text := if first then [] else [44, 32];
      EntriesFitStep(lim, es, seen);
      SeparatedMeaning(lim, out, first, [44, 32]);
      var separated := Separated(lim, out, first, [44, 32]);
      assert Writes(lim, out, separated, true, lead, 0);
      if separated.Ok? {
        var written := WriteEntry(lim, separated.value, e, seen);
        var ok, n := EntryFits(lim, e, seen), MemberOccurrences(e.value);
        var t := if ok then EntryText(e) else [];
        var ok', n' := EntriesFit(lim, tail, seen'), EntriesOccurrences(tail);
        var t' := if ok' then EntriesText(tail, false) else [];
        WriteEntryMeaning(lim, separated.value, e, seen);
        Sequence(lim, out, separated, true, lead, 0, written, ok, t, n);
        assert r == if written.Ok? then WriteEntries(lim, written.value, tail, seen', false) else written;
        if written.Ok? {
          WriteEntriesMeaning(lim, written.value, tail, seen', false);
        }
        Sequence(lim, out, written, ok, lead + t, n, r, ok', t', n');
      }
    }
  }

  /** Serialization succeeds exactly on valid values that fit, and then gives the canonical text. */
  lemma SerializationSucceeds(lim: Limits, f: Field)
    ensures Serialized(lim, f).Ok? <==> Valid(f) && Fits(lim, f) && |FieldText(f)| <= lim.maxOutputBytes
    ensures Serialized(lim, f).Ok? ==> Serialized(lim, f).value == FieldText(f)
  {
    hide MemberFits, ValidMember, ItemFits, ValidItem, ItemText, ItemOccurrences, MemberOccurrences, EntryText;
    hide MembersText, EntriesText, WriteMember, WriteMembers, WriteEntries;
    match f {
      case ItemField(i) =>
        WriteItemMeaning(lim, EMPTY, i);
      case ListField(ms) =>
        WriteMembersMeaning(lim, EMPTY, ms, true);
      case DictionaryField(es) =>
        WriteEntriesMeaning(lim, EMPTY, es, {}, true);
        assert Valid(f) && Fits(lim, f) ==> EntriesFit(lim, es, {});
        if EntriesFit(lim, es, {}) {
          forall k | 0 <= k < |es|
            ensures ValidKey(es[k].key) && |es[k].key| <= lim.maxKeyLength && MemberOk(lim, es[k].value)
          {
            assert EntryFits(lim, es[k], {});
          }
        }
    }
  }
}
