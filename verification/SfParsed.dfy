/**
 * Whatever the parser accepts can be serialized: parsed values are valid and within the limits they were
 * parsed under, repeated keys included, so serializing after parsing is idempotent, and fails only for
 * want of room.
 */
module SfParsed {
  import opened Basics
  import opened Digits
  import opened SfModel
  import opened SfParser
  import opened SfParse
  import opened SfSerialized
  import Base64
  import Utf8
  import SfSerializer
  import SfRoundTrip

  // ---------------------------------------------------------------- keys and bare items

  lemma {:induction false} NameIsValid(lim: Limits, s: Text, start: nat, p: nat, class_: NameClass)
    requires start <= p <= |s| && ScanName(lim, s, start, p, class_).Ok?
    requires forall i | start <= i < p :: InName(s[i], class_)
    requires p - start <= Maximum(lim, NameLimit(class_))
    ensures var end := ScanName(lim, s, start, p, class_).value;
      end - start <= Maximum(lim, NameLimit(class_)) && forall i | start <= i < end :: InName(s[i], class_)
    decreases |s| - p
  {
    if InName(CodeAt(s, p), class_) {
      NameIsValid(lim, s, start, p + 1, class_);
    }
  }

  lemma KeyIsValid(lim: Limits, s: Text, p: nat)
    requires p <= |s| && ParseKey(lim, s, p).Ok?
    ensures var k := ParseKey(lim, s, p).value.value; ValidKey(k) && |k| <= lim.maxKeyLength
  {
    NameIsValid(lim, s, p, p, KeyName);
    var next := ScanName(lim, s, p, p, KeyName).value;
    assert next > p;
  }

  lemma {:induction false} DigitsAreBounded(s: Text, start: nat, p: nat, cap: nat, value: nat)
    requires start <= p <= |s| && p - start <= cap && value < Pow10(p - start)
    requires ScanDigits(s, start, p, cap, value).Ok?
    ensures var cut := ScanDigits(s, start, p, cap, value).value;
      p <= cut.next && cut.next - start <= cap && cut.value < Pow10(cut.next - start)
    decreases |s| - p
  {
    if IsDigit(CodeAt(s, p)) {
      assert Pow10(p + 1 - start) == 10 * Pow10(p - start);
      DigitsAreBounded(s, start, p + 1, cap, value * 10 + (CodeAt(s, p) - 48));
    }
  }

  lemma {:induction false} Pow10Grows(a: nat, b: nat)
    requires a <= b
    ensures Pow10(a) <= Pow10(b)
    decreases b - a
  {
    if a < b {
      Pow10Grows(a, b - 1);
    }
  }

  lemma FractionIsBounded(s: Text, point: nat)
    requires point <= |s| && ParseFraction(s, point).Ok?
    ensures ParseFraction(s, point).value.value < 1000
  {
    DigitsAreBounded(s, point, point, 3, 0);
    var cut := ScanDigits(s, point, point, 3, 0).value;
    var d := cut.next - point;
    Pow10Values();
    assert Pow10(0) == 1;
    if d == 1 {
      assert cut.value * Pow10(2) < 1000;
    } else if d == 2 {
      assert cut.value * Pow10(1) < 1000;
    } else {
      assert cut.value * Pow10(0) < 1000;
    }
  }

  lemma NumberIsValid(s: Text, p: nat)
    requires p <= |s| && ParseNumber(s, p).Ok?
    ensures ValidBare(ParseNumber(s, p).value.value)
  {
    var start := if CodeAt(s, p) == 45 then p + 1 else p;
    Pow10Values();
    DigitsAreBounded(s, start, start, 15, 0);
    var whole := ScanDigits(s, start, start, 15, 0).value;
    Pow10Grows(whole.next - start, 15);
    if CodeAt(s, whole.next) == 46 {
      Pow10Grows(whole.next - start, 12);
      FractionIsBounded(s, whole.next + 1);
    }
  }

  lemma {:induction false} StringIsValid(lim: Limits, s: Text, p: nat, sofar: Text)
    requires p <= |s| && StringFrom(lim, s, p, sofar).Ok?
    requires |sofar| <= lim.maxDecodedBytes && forall i | 0 <= i < |sofar| :: Printable(sofar[i])
    ensures var t := StringFrom(lim, s, p, sofar).value.value;
      |t| <= lim.maxDecodedBytes && forall i | 0 <= i < |t| :: Printable(t[i])
    decreases |s| - p
  {
    if s[p] == 92 {
      StringIsValid(lim, s, p + 2, sofar + [s[p + 1]]);
    } else if s[p] != 34 {
      StringIsValid(lim, s, p + 1, sofar + [s[p]]);
    }
  }

  lemma {:induction false} ContentIsBounded(lim: Limits, s: Text, start: nat, p: nat, padding: nat)
    requires start + padding <= p <= |s| && Base64.AllAlphabet(s[start..p - padding])
    requires ScanBytes(lim, s, start, p, padding).Ok? && (p - padding - start) * 6 / 8 <= lim.maxDecodedBytes
    ensures var cut := ScanBytes(lim, s, start, p, padding).value;
      (cut.next - cut.value - start) * 6 / 8 <= lim.maxDecodedBytes
    decreases |s| - p
  {
    hide Base64.Alphabet;
    if p < |s| && s[p] != 58 {
      if s[p] == 61 {
        ContentIsBounded(lim, s, start, p + 1, padding + 1);
      } else {
        assert s[start..p + 1] == s[start..p] + [s[p]];
        ContentIsBounded(lim, s, start, p + 1, 0);
      }
    }
  }

  lemma BytesAreBounded(lim: Limits, s: Text, p: nat)
    requires p < |s| && ParseBytes(lim, s, p).Ok?
    ensures |ParseBytes(lim, s, p).value.value| <= lim.maxDecodedBytes
  {
    ContentIsBounded(lim, s, p + 1, p + 1, 0);
  }

  lemma {:induction false} DisplayIsValid(lim: Limits, s: Text, p: nat, bytes: seq<Byte>)
    requires p <= |s| && DisplayFrom(lim, s, p, bytes).Ok? && |bytes| <= lim.maxDecodedBytes
    ensures var t := DisplayFrom(lim, s, p, bytes).value.value;
      Utf8.WellFormed(t) && |Utf8.Encode(t)| <= lim.maxDecodedBytes
    decreases |s| - p
  {
    hide Utf8.Decode, Utf8.Encode, Utf8.WellFormed;
    if s[p] == 34 {
      Utf8.EncodeDecode(bytes, Utf8.Decode(bytes).value);
    } else if s[p] == 37 {
      DisplayIsValid(lim, s, p + 3, bytes + [Nibble(CodeAt(s, p + 1)) * 16 + Nibble(CodeAt(s, p + 2))]);
    } else {
      DisplayIsValid(lim, s, p + 1, bytes + [s[p]]);
    }
  }

  lemma TokenIsValid(lim: Limits, s: Text, p: nat)
    requires p <= |s| && TokenFirst(CodeAt(s, p)) && ScanName(lim, s, p, p, TokenName).Ok?
    ensures var t := s[p..ScanName(lim, s, p, p, TokenName).value]; ValidToken(t) && |t| <= lim.maxTokenLength
  {
    NameIsValid(lim, s, p, p, TokenName);
    var next := ScanName(lim, s, p, p, TokenName).value;
    assert next > p;
  }

  lemma BareIsOk(lim: Limits, s: Text, p: nat)
    requires p <= |s| && ParseBare(lim, s, p).Ok?
    ensures BareOk(lim, ParseBare(lim, s, p).value.value)
  {
    hide StringFrom, DisplayFrom, ParseBytes, ScanName, ParseNumber, Utf8.WellFormed, Utf8.Encode, ValidToken;
    var code := CodeAt(s, p);
    if IsDigit(code) || code == 45 {
      NumberIsValid(s, p);
    } else if code == 34 {
      StringIsValid(lim, s, p + 1, []);
    } else if TokenFirst(code) {
      TokenIsValid(lim, s, p);
    } else if code == 58 {
      BytesAreBounded(lim, s, p);
    } else if code == 64 {
      NumberIsValid(s, p + 1);
    } else if code == 37 {
      DisplayIsValid(lim, s, p + 2, []);
    }
  }

  // ---------------------------------------------------------------- parameters

  predicate RawParameterOk(lim: Limits, raw: RawParameter) {
    ValidKey(raw.key) && |raw.key| <= lim.maxKeyLength && BareOk(lim, ValueOf(raw.bare))
  }

  predicate RawParametersOk(lim: Limits, raw: seq<RawParameter>) {
    |raw| <= lim.maxParameters && forall i | 0 <= i < |raw| :: RawParameterOk(lim, raw[i])
  }

  lemma ParameterIsOk(lim: Limits, s: Text, p: nat)
    requires p < |s| && ParseParameter(lim, s, p).Ok?
    ensures RawParameterOk(lim, ParseParameter(lim, s, p).value.value)
  {
    hide ParseKey, ParseBare, ValidKey;
    var start := SkipSpaces(s, p + 1, false);
    KeyIsValid(lim, s, start);
    var key := ParseKey(lim, s, start).value;
    if CodeAt(s, key.next) == 61 {
      BareIsOk(lim, s, key.next + 1);
    }
  }

  lemma {:induction false} ParametersAreOk(lim: Limits, s: Text, p: nat, occurrences: nat, sofar: seq<RawParameter>)
    requires p <= |s| && ParametersFrom(lim, s, p, occurrences, sofar).Ok? && RawParametersOk(lim, sofar)
    requires occurrences <= lim.maxTotalOccurrences
    ensures var r := ParametersFrom(lim, s, p, occurrences, sofar).value;
      && RawParametersOk(lim, r.value) && |sofar| <= |r.value|
      && r.occurrences == occurrences + |r.value| - |sofar| <= lim.maxTotalOccurrences
    decreases |s| - p
  {
    hide RawParameterOk, ParseParameter;
    if CodeAt(s, p) == 59 {
      ParameterIsOk(lim, s, p);
      var parameter := ParseParameter(lim, s, p).value;
      ParametersAreOk(lim, s, parameter.next, occurrences + 1, sofar + [parameter.value]);
    }
  }

  // ---------------------------------------------------------------- the last value wins

  /** The number of occurrences a pair stands for; an uninterpreted weight for everything else. */
  function Weight<V>(m: seq<Pair<V>>, w: V -> nat): nat {
    if m == [] then 0 else w(m[0].value) + Weight(m[1..], w)
  }

  lemma {:induction false} WeightAppend<V>(m: seq<Pair<V>>, p: Pair<V>, w: V -> nat)
    ensures Weight(m + [p], w) == Weight(m, w) + w(p.value)
  {
    if m == [] {
      assert (m + [p])[1..] == [];
    } else {
      WeightAppend(m[1..], p, w);
      assert (m + [p])[1..] == m[1..] + [p];
    }
  }

  lemma {:induction false} WeightUpdate<V>(m: seq<Pair<V>>, i: nat, p: Pair<V>, w: V -> nat)
    requires i < |m|
    ensures Weight(m[i := p], w) <= Weight(m, w) + w(p.value)
  {
    if i > 0 {
      WeightUpdate(m[1..], i - 1, p, w);
      assert m[i := p][1..] == m[1..][i - 1 := p];
    } else {
      assert m[i := p][1..] == m[1..];
    }
  }

  lemma {:induction false} SetAllBounds<V(!new)>(m: seq<Pair<V>>, pairs: seq<Pair<V>>, ok: Pair<V> -> bool, w: V -> nat)
    requires (forall i | 0 <= i < |m| :: ok(m[i])) && (forall i | 0 <= i < |pairs| :: ok(pairs[i])) && DistinctKeys(m)
    ensures var r := SetAll(m, pairs);
      && (forall i | 0 <= i < |r| :: ok(r[i])) && DistinctKeys(r) && |r| <= |m| + |pairs|
      && Weight(r, w) <= Weight(m, w) + Weight(pairs, w)
    decreases |pairs|
  {
    if pairs != [] {
      var p, i := pairs[0], IndexOf(m, pairs[0].key);
      var m' := Set(m, p);
      if i < |m| {
        WeightUpdate(m, i, p, w);
      } else {
        WeightAppend(m, p, w);
      }
      assert forall j | 0 <= j < |m'| :: ok(m'[j]);
      SetAllBounds(m', pairs[1..], ok, w);
    }
  }

  lemma ParametersConvertOk(lim: Limits, raw: seq<RawParameter>)
    requires RawParametersOk(lim, raw)
    ensures ParametersOk(lim, ParametersOf(raw)) && |ParametersOf(raw)| <= |raw|
  {
    hide BareOk;
    var pairs := PairsOf(raw);
    var ok := (p: Pair<BareItem>) => ValidKey(p.key) && |p.key| <= lim.maxKeyLength && BareOk(lim, p.value);
    assert forall i | 0 <= i < |raw| :: RawParameterOk(lim, raw[i]);
    SetAllBounds([], pairs, ok, (_: BareItem) => 0);
    var ps := LastWins(pairs);
    forall i | 0 <= i < |ps|
      ensures ValidKey(ps[i].key) && |ps[i].key| <= lim.maxKeyLength && BareOk(lim, ps[i].value)
    {
      assert ok(ps[i]);
    }
    AllParametersOk(lim, ps);
  }

  lemma AllParametersOk(lim: Limits, ps: Parameters)
    requires DistinctKeys(ps) && |ps| <= lim.maxParameters
    requires forall i | 0 <= i < |ps| :: ValidKey(ps[i].key) && |ps[i].key| <= lim.maxKeyLength && BareOk(lim, ps[i].value)
    ensures ParametersOk(lim, ps)
  {
    hide ValidKey, ValidBare, BareFits, DistinctKeys;
  }

  // ---------------------------------------------------------------- items and members

  predicate RawItemOk(lim: Limits, raw: RawItem) { BareOk(lim, ValueOf(raw.bare)) && RawParametersOk(lim, raw.params) }

  function RawItemOccurrences(raw: RawItem): nat { 1 + |raw.params| }

  function RawItemsOccurrences(raw: seq<RawItem>): nat {
    if raw == [] then 0 else RawItemOccurrences(raw[0]) + RawItemsOccurrences(raw[1..])
  }

  predicate RawMemberOk(lim: Limits, raw: RawMember) {
    match raw
    case RawItemMember(i) => RawItemOk(lim, i)
    case RawInnerList(items, ps) =>
      |items| <= lim.maxInnerListItems && RawParametersOk(lim, ps) && forall k | 0 <= k < |items| :: RawItemOk(lim, items[k])
  }

  function RawMemberOccurrences(raw: RawMember): nat {
    match raw
    case RawItemMember(i) => RawItemOccurrences(i)
    case RawInnerList(items, ps) => 1 + RawItemsOccurrences(items) + |ps|
  }

  lemma ItemIsOk(lim: Limits, s: Text, p: nat, occurrences: nat)
    requires p <= |s| && ParseItem(lim, s, p, occurrences).Ok? && occurrences <= lim.maxTotalOccurrences
    ensures var r := ParseItem(lim, s, p, occurrences).value;
      && RawItemOk(lim, r.value)
      && r.occurrences == occurrences + RawItemOccurrences(r.value) <= lim.maxTotalOccurrences
  {
    hide ParseBare, ParametersFrom, BareOk;
    BareIsOk(lim, s, p);
    ParametersAreOk(lim, s, ParseBare(lim, s, p).value.next, occurrences + 1, []);
  }

  lemma {:induction false} RawItemsAppend(raw: seq<RawItem>, item: RawItem)
    ensures RawItemsOccurrences(raw + [item]) == RawItemsOccurrences(raw) + RawItemOccurrences(item)
  {
    if raw == [] {
      assert (raw + [item])[1..] == [];
    } else {
      RawItemsAppend(raw[1..], item);
      assert (raw + [item])[1..] == raw[1..] + [item];
    }
  }

  lemma {:induction false} InnerListIsOk(lim: Limits, s: Text, p: nat, occurrences: nat, sofar: seq<RawItem>)
    requires p <= |s| && InnerListFrom(lim, s, p, occurrences, sofar).Ok? && occurrences <= lim.maxTotalOccurrences
    requires |sofar| <= lim.maxInnerListItems && forall k | 0 <= k < |sofar| :: RawItemOk(lim, sofar[k])
    ensures var r := InnerListFrom(lim, s, p, occurrences, sofar).value;
      && RawMemberOk(lim, r.value) && r.occurrences <= lim.maxTotalOccurrences
      && r.occurrences + 1 + RawItemsOccurrences(sofar) == occurrences + RawMemberOccurrences(r.value)
    decreases |s| - p
  {
    hide RawItemOk, ParseItem, ParametersFrom, RawParametersOk, RawItemOccurrences, RawItemsOccurrences;
    var q := SkipSpaces(s, p, false);
    if CodeAt(s, q) == 41 {
      assert RawParametersOk(lim, []) by { NoParameters(lim); }
      ParametersAreOk(lim, s, q + 1, occurrences, []);
    } else {
      ItemIsOk(lim, s, q, occurrences);
      var item := ParseItem(lim, s, q, occurrences).value;
      RawItemsAppend(sofar, item.value);
      InnerListIsOk(lim, s, item.next, item.occurrences, sofar + [item.value]);
    }
  }

  lemma NoParameters(lim: Limits)
    ensures RawParametersOk(lim, [])
  {
  }

  lemma MemberIsOk(lim: Limits, s: Text, p: nat, occurrences: nat)
    requires p <= |s| && ParseMember(lim, s, p, occurrences).Ok? && occurrences <= lim.maxTotalOccurrences
    ensures var r := ParseMember(lim, s, p, occurrences).value;
      && RawMemberOk(lim, r.value)
      && r.occurrences == occurrences + RawMemberOccurrences(r.value) <= lim.maxTotalOccurrences
  {
    hide ParseItem, InnerListFrom, RawItemOk;
    if CodeAt(s, p) == 40 {
      InnerListIsOk(lim, s, p + 1, occurrences + 1, []);
    } else {
      ItemIsOk(lim, s, p, occurrences);
    }
  }

  lemma ItemConvertsOk(lim: Limits, raw: RawItem)
    requires RawItemOk(lim, raw)
    ensures ItemOk(lim, ItemOf(raw)) && ItemOccurrences(ItemOf(raw)) <= RawItemOccurrences(raw)
  {
    hide BareFits, ValidBare, ParametersOf, RawParametersOk, ValidParameters, ParametersFit;
    ParametersConvertOk(lim, raw.params);
  }

  lemma {:induction false} ItemsConvertOk(lim: Limits, raw: seq<RawItem>)
    requires forall k | 0 <= k < |raw| :: RawItemOk(lim, raw[k])
    ensures ItemsFit(lim, ItemsOf(raw)) && ItemsOccurrences(ItemsOf(raw)) <= RawItemsOccurrences(raw)
  {
    hide RawItemOk, ItemOk, ItemOf, ItemOccurrences, RawItemOccurrences;
    if raw != [] {
      ItemConvertsOk(lim, raw[0]);
      ItemsConvertOk(lim, raw[1..]);
      assert ItemsOf(raw) == [ItemOf(raw[0])] + ItemsOf(raw[1..]);
    }
  }

  lemma MemberConvertsOk(lim: Limits, raw: RawMember)
    requires RawMemberOk(lim, raw)
    ensures MemberOk(lim, MemberOf(raw)) && MemberOccurrences(MemberOf(raw)) <= RawMemberOccurrences(raw)
  {
    hide RawItemOk, ItemOf, ParametersOf, RawParametersOk, ItemsFit, ParametersOk;
    match raw {
      case RawItemMember(i) =>
        ItemConvertsOk(lim, i);
      case RawInnerList(items, ps) =>
        ItemsConvertOk(lim, items);
        ParametersConvertOk(lim, ps);
        InnerListOk(lim, ItemsOf(items), ParametersOf(ps));
    }
  }

  // ---------------------------------------------------------------- fields

  function RawMembersOccurrences(raw: seq<RawMember>): nat {
    if raw == [] then 0 else RawMemberOccurrences(raw[0]) + RawMembersOccurrences(raw[1..])
  }

  lemma {:induction false} RawMembersAppend(raw: seq<RawMember>, member: RawMember)
    ensures RawMembersOccurrences(raw + [member]) == RawMembersOccurrences(raw) + RawMemberOccurrences(member)
  {
    if raw == [] {
      assert (raw + [member])[1..] == [];
    } else {
      RawMembersAppend(raw[1..], member);
      assert (raw + [member])[1..] == raw[1..] + [member];
    }
  }

  lemma {:induction false} ListIsOk(lim: Limits, s: Text, p: nat, occurrences: nat, sofar: seq<RawMember>)
    requires p <= |s| && ListFrom(lim, s, p, occurrences, sofar).Ok? && occurrences <= lim.maxTotalOccurrences
    requires |sofar| <= lim.maxMembers && forall k | 0 <= k < |sofar| :: RawMemberOk(lim, sofar[k])
    ensures var r := ListFrom(lim, s, p, occurrences, sofar).value;
      && |r.value| <= lim.maxMembers && (forall k | 0 <= k < |r.value| :: RawMemberOk(lim, r.value[k]))
      && r.occurrences <= lim.maxTotalOccurrences
      && r.occurrences + RawMembersOccurrences(sofar) == occurrences + RawMembersOccurrences(r.value)
    decreases |s| - p
  {
    hide RawMemberOk, ParseMember, ParseSeparator, RawMemberOccurrences, RawMembersOccurrences;
    if p < |s| {
      MemberIsOk(lim, s, p, occurrences);
      var member := ParseMember(lim, s, p, occurrences).value;
      var more := ParseSeparator(s, member.next).value;
      RawMembersAppend(sofar, member.value);
      if more.value {
        ListIsOk(lim, s, more.next, member.occurrences, sofar + [member.value]);
      }
    }
  }

  lemma {:induction false} MembersConvertOk(lim: Limits, raw: seq<RawMember>)
    requires forall k | 0 <= k < |raw| :: RawMemberOk(lim, raw[k])
    ensures MembersOk(lim, MembersOf(raw)) && MembersOccurrences(MembersOf(raw)) <= RawMembersOccurrences(raw)
  {
    hide RawMemberOk, MemberOk, MemberOf, MemberOccurrences, RawMemberOccurrences;
    if raw != [] {
      MemberConvertsOk(lim, raw[0]);
      MembersConvertOk(lim, raw[1..]);
      assert MembersOf(raw) == [MemberOf(raw[0])] + MembersOf(raw[1..]);
    }
  }

  predicate RawEntryOk(lim: Limits, raw: RawEntry) {
    ValidKey(raw.key) && |raw.key| <= lim.maxKeyLength && RawMemberOk(lim, raw.member)
  }

  lemma EntryIsOk(lim: Limits, s: Text, p: nat, occurrences: nat)
    requires p <= |s| && ParseEntry(lim, s, p, occurrences).Ok? && occurrences <= lim.maxTotalOccurrences
    ensures var r := ParseEntry(lim, s, p, occurrences).value;
      && RawEntryOk(lim, r.value)
      && r.occurrences == occurrences + RawMemberOccurrences(r.value.member) <= lim.maxTotalOccurrences
  {
    hide ParseKey, ParseMember, ParametersFrom, ValidKey;
    KeyIsValid(lim, s, p);
    var key := ParseKey(lim, s, p).value;
    if CodeAt(s, key.next) == 61 {
      MemberIsOk(lim, s, key.next + 1, occurrences);
    } else {
      ParametersAreOk(lim, s, key.next, occurrences + 1, []);
    }
  }

  function EntryWeight(): RawMember -> nat { (m: RawMember) => RawMemberOccurrences(m) }

  lemma {:induction false} DictionaryIsOk(lim: Limits, s: Text, p: nat, occurrences: nat, sofar: seq<RawEntry>)
    requires p <= |s| && DictionaryFrom(lim, s, p, occurrences, sofar).Ok? && occurrences <= lim.maxTotalOccurrences
    requires |sofar| <= lim.maxMembers && forall k | 0 <= k < |sofar| :: RawEntryOk(lim, sofar[k])
    ensures var r := DictionaryFrom(lim, s, p, occurrences, sofar).value;
      && |r.value| <= lim.maxMembers && (forall k | 0 <= k < |r.value| :: RawEntryOk(lim, r.value[k]))
      && r.occurrences <= lim.maxTotalOccurrences
      && r.occurrences + Weight(EntryPairs(sofar), EntryWeight())
      == occurrences + Weight(EntryPairs(r.value), EntryWeight())
    decreases |s| - p
  {
    hide RawEntryOk, ParseEntry, ParseSeparator, RawMemberOccurrences, Weight;
    if p < |s| {
      EntryIsOk(lim, s, p, occurrences);
      var entry := ParseEntry(lim, s, p, occurrences).value;
      var more := ParseSeparator(s, entry.next).value;
      var pair := Pair(entry.value.key, entry.value.member);
      assert EntryPairs(sofar + [entry.value]) == EntryPairs(sofar) + [pair];
      WeightAppend(EntryPairs(sofar), pair, EntryWeight());
      if more.value {
        DictionaryIsOk(lim, s, more.next, entry.occurrences, sofar + [entry.value]);
      }
    }
  }

  lemma {:induction false} EntriesConvertOk(lim: Limits, raw: seq<Pair<RawMember>>)
    requires forall k | 0 <= k < |raw| :: RawMemberOk(lim, raw[k].value)
    ensures forall k | 0 <= k < |raw| :: MemberOk(lim, MemberOf(raw[k].value))
    ensures EntriesOccurrences(EntriesOf(raw)) <= Weight(raw, EntryWeight())
  {
    hide RawMemberOk, MemberOk, MemberOf, MemberOccurrences, RawMemberOccurrences;
    if raw != [] {
      MemberConvertsOk(lim, raw[0].value);
      EntriesConvertOk(lim, raw[1..]);
      assert EntriesOf(raw)[1..] == EntriesOf(raw[1..]);
    }
  }

  lemma DictionaryConvertsOk(lim: Limits, raw: seq<RawEntry>)
    requires |raw| <= lim.maxMembers && forall k | 0 <= k < |raw| :: RawEntryOk(lim, raw[k])
    requires Weight(EntryPairs(raw), EntryWeight()) <= lim.maxTotalOccurrences
    ensures var f := FieldOf(RawDictionaryField(raw)); Valid(f) && Fits(lim, f)
  {
    hide RawMemberOk, MemberOf, MemberFits, ValidMember, ValidKey, MemberOccurrences, RawMemberOccurrences, Weight;
    var pairs := EntryPairs(raw);
    var ok := (p: Pair<RawMember>) => ValidKey(p.key) && |p.key| <= lim.maxKeyLength && RawMemberOk(lim, p.value);
    assert forall k | 0 <= k < |raw| :: RawEntryOk(lim, raw[k]);
    assert Weight([], EntryWeight()) == 0 by { NoWeight(EntryWeight()); }
    SetAllBounds([], pairs, ok, EntryWeight());
    var last := LastWins(pairs);
    forall k | 0 <= k < |last| ensures ValidKey(last[k].key) && |last[k].key| <= lim.maxKeyLength
      ensures RawMemberOk(lim, last[k].value)
    {
      assert ok(last[k]);
    }
    EntriesConvertOk(lim, last);
    var es := EntriesOf(last);
    forall k | 0 <= k < |es| ensures ValidMember(es[k].value) && MemberFits(lim, es[k].value) {
      assert MemberOk(lim, MemberOf(last[k].value));
    }
    assert DistinctKeys(es);
  }

  lemma NoWeight<V>(w: V -> nat)
    ensures Weight([], w) == 0
  {
  }

  lemma RootIsOk(lim: Limits, s: Text, p: nat, fieldType: FieldType)
    requires p <= |s| && ParseRoot(lim, s, p, fieldType).Ok?
    ensures var f := FieldOf(ParseRoot(lim, s, p, fieldType).value.value); Valid(f) && Fits(lim, f)
  {
    hide ParseItem, ListFrom, DictionaryFrom, RawItemOk, RawMemberOk, RawEntryOk, ItemOf, MemberOf, ItemFits, ValidItem,
         MemberFits, ValidMember, ItemOccurrences, RawItemOccurrences, MemberOccurrences, RawMemberOccurrences, Weight,
         LastWins, EntriesOf;
    match fieldType {
      case ItemType =>
        ItemIsOk(lim, s, p, 0);
        ItemConvertsOk(lim, ParseItem(lim, s, p, 0).value.value);
      case ListType =>
        ListIsOk(lim, s, p, 0, []);
        var raw := ListFrom(lim, s, p, 0, []).value.value;
        MembersConvertOk(lim, raw);
        assert forall k | 0 <= k < |raw| :: MemberOk(lim, MembersOf(raw)[k]);
      case DictionaryType =>
        DictionaryIsOk(lim, s, p, 0, []);
        NoWeight(EntryWeight());
        assert EntryPairs([]) == [];
        DictionaryConvertsOk(lim, DictionaryFrom(lim, s, p, 0, []).value.value);
    }
  }

  /** A parsed value is valid and within the limits it was parsed under, length of text apart. */
  lemma ParsedIsSerializable(lim: Limits, s: Text, fieldType: FieldType, f: Field)
    requires ParsedField(lim, s, fieldType) == Ok(f)
    ensures Valid(f) && Fits(lim, f) && TypeOf(f) == fieldType
  {
    RootIsOk(lim, s, SkipSpaces(s, 0, false), fieldType);
  }

  /** Serializing a parsed value succeeds whenever its text fits, and parsing that text gives the value again. */
  lemma SerializeAfterParse(lim: Limits, s: Text, fieldType: FieldType, f: Field)
    requires ParsedField(lim, s, fieldType) == Ok(f)
    ensures Valid(f)
    ensures |FieldText(f)| <= lim.maxOutputBytes <==> SfSerializer.Serialized(lim, f) == Ok(FieldText(f))
    ensures |FieldText(f)| <= lim.maxInputBytes ==> ParsedField(lim, FieldText(f), fieldType) == Ok(f)
  {
    ParsedIsSerializable(lim, s, fieldType, f);
    SerializationSucceeds(lim, f);
    if |FieldText(f)| <= lim.maxInputBytes {
      SfRoundTrip.CanonicalParses(lim, f);
    }
  }
}
