/**
 * Parsing is the inverse of serialization: the canonical text of a value is read back as that value
 * under the same limits, part by part from bare items to fields, and so equal texts come from equal values.
 */
module SfRoundTrip {
  import opened Basics
  import opened Digits
  import opened SfModel
  import opened SfParser
  import opened SfReading
  import opened SfParse
  import opened SfSerialized
  import Utf8
  import SfSerializer

  // ---------------------------------------------------------------- the raw tree of canonical text

  function RawParameterOf(p: Pair<BareItem>): RawParameter {
    RawParameter(p.key, if p.value == TRUE then None else Some(p.value))
  }

  function RawParametersOf(ps: Parameters): seq<RawParameter> {
    seq(|ps|, i requires 0 <= i < |ps| => RawParameterOf(ps[i]))
  }

  function RawItemOf(i: Item): RawItem { RawItem(Some(i.bare), RawParametersOf(i.params)) }

  function RawItemsOf(items: seq<Item>): seq<RawItem> {
    seq(|items|, i requires 0 <= i < |items| => RawItemOf(items[i]))
  }

  function RawMemberOf(m: Member): RawMember {
    match m
    case ItemMember(i) => RawItemMember(RawItemOf(i))
    case InnerList(items, ps) => RawInnerList(RawItemsOf(items), RawParametersOf(ps))
  }

  function RawMembersOf(ms: seq<Member>): seq<RawMember> {
    seq(|ms|, i requires 0 <= i < |ms| => RawMemberOf(ms[i]))
  }

  function RawEntryOf(e: Pair<Member>): RawEntry {
    if Implicit(e.value) then RawEntry(e.key, true, RawItemMember(RawItem(None, RawParametersOf(e.value.item.params))))
    else RawEntry(e.key, false, RawMemberOf(e.value))
  }

  function RawEntriesOf(es: seq<Pair<Member>>): seq<RawEntry> {
    seq(|es|, i requires 0 <= i < |es| => RawEntryOf(es[i]))
  }

  function RawFieldOf(f: Field): RawField {
    match f
    case ItemField(i) => RawItemField(RawItemOf(i))
    case ListField(ms) => RawListField(RawMembersOf(ms))
    case DictionaryField(es) => RawDictionaryField(RawEntriesOf(es))
  }

  // ---------------------------------------------------------------- parameters

  predicate ValidParameter(lim: Limits, p: Pair<BareItem>) {
    ValidKey(p.key) && |p.key| <= lim.maxKeyLength && BareOk(lim, p.value)
  }

  lemma ParameterReads(lim: Limits, s: Text, p: nat, q: Pair<BareItem>, next: nat)
    requires ValidParameter(lim, q) && At(s, p, ParameterText(q)) && next == p + |ParameterText(q)|
    requires EndsValue(CodeAt(s, next))
    ensures ParseParameter(lim, s, p) == Ok(Cut(RawParameterOf(q), next)) && CodeAt(s, p) == 59
  {
    hide BareText, BareFits, ValidBare, At, ParseBare, ParseKey;
    var k, v := q.key, ParameterValueText(q.value);
    var start, after := p + 1, p + 1 + |k|;
    AtSplit(s, p, [59], k + v);
    AtIndex(s, p, [59], 0);
    AtSplit(s, start, k, v);
    AtIndex(s, start, k, 0);
    if q.value == TRUE {
      KeyReads(lim, s, start, k);
    } else {
      AtSplit(s, after, [61], BareText(q.value));
      AtIndex(s, after, [61], 0);
      KeyReads(lim, s, start, k);
      BareReads(lim, s, after + 1, q.value);
    }
  }

  lemma ParametersStart(ps: Parameters)
    requires ValidValues(ps) && ps != []
    ensures ParametersText(ps) != [] && ParametersText(ps)[0] == 59
  {
  }

  /** After the text `t` of parameters that run to `end`, or after nothing, a value is over. */
  lemma ParametersFollow(s: Text, p: nat, ps: Parameters, end: nat)
    requires ValidValues(ps) && At(s, p, ParametersText(ps)) && end == p + |ParametersText(ps)| && EndsItem(CodeAt(s, end))
    ensures EndsValue(CodeAt(s, p))
  {
    hide At, ValidBare, ParameterText;
    if ps != [] {
      ParametersStart(ps);
      AtIndex(s, p, ParametersText(ps), 0);
    }
  }

  lemma {:induction false} ParametersRead(
    lim: Limits, s: Text, p: nat, occurrences: nat, sofar: seq<RawParameter>, ps: Parameters, end: nat, all: seq<RawParameter>)
    requires ValidValues(ps) && forall i | 0 <= i < |ps| :: ValidParameter(lim, ps[i])
    requires |sofar| + |ps| <= lim.maxParameters && occurrences + |ps| <= lim.maxTotalOccurrences
    requires At(s, p, ParametersText(ps)) && end == p + |ParametersText(ps)| && EndsItem(CodeAt(s, end))
    requires all == sofar + RawParametersOf(ps)
    ensures ParametersFrom(lim, s, p, occurrences, sofar) == Ok(Parsed(all, end, occurrences + |ps|))
    decreases |ps|
  {
    hide At, ValidBare, ParseParameter, ParameterText, RawParameterOf, ValidParameter;
    if ps == [] {
      assert all == sofar;
    } else {
      var t, tail := ParameterText(ps[0]), ps[1..];
      var next := p + |t|;
      assert ValidValues(tail);
      AtSplit(s, p, t, ParametersText(tail));
      ParametersFollow(s, next, tail, end);
      ParameterReads(lim, s, p, ps[0], next);
      assert all == (sofar + [RawParameterOf(ps[0])]) + RawParametersOf(tail);
      ParametersRead(lim, s, next, occurrences + 1, sofar + [RawParameterOf(ps[0])], tail, end, all);
    }
  }

  lemma ParametersReadAll(lim: Limits, s: Text, p: nat, occurrences: nat, ps: Parameters, end: nat)
    requires ParametersOk(lim, ps) && occurrences + |ps| <= lim.maxTotalOccurrences
    requires At(s, p, ParametersText(ps)) && end == p + |ParametersText(ps)| && EndsItem(CodeAt(s, end))
    ensures ParametersFrom(lim, s, p, occurrences, []) == Ok(Parsed(RawParametersOf(ps), end, occurrences + |ps|))
  {
    assert [] + RawParametersOf(ps) == RawParametersOf(ps);
    ParametersRead(lim, s, p, occurrences, [], ps, end, RawParametersOf(ps));
  }

  // ---------------------------------------------------------------- items and members

  lemma ItemStarts(i: Item)
    requires ValidItem(i)
    ensures ItemText(i) != []
    ensures var c := ItemText(i)[0]; c != 32 && c != 9 && c != 40 && c != 41 && c != 44
  {
    BareStarts(i.bare);
  }

  lemma ItemReads(lim: Limits, s: Text, p: nat, occurrences: nat, i: Item, end: nat)
    requires ItemOk(lim, i) && occurrences + ItemOccurrences(i) <= lim.maxTotalOccurrences
    requires At(s, p, ItemText(i)) && end == p + |ItemText(i)| && EndsItem(CodeAt(s, end))
    ensures ParseItem(lim, s, p, occurrences) == Ok(Parsed(RawItemOf(i), end, occurrences + ItemOccurrences(i)))
  {
    hide BareText, ParametersText, At, ValidBare, EndsValue, EndsItem, ParseBare, ParametersFrom, RawParametersOf,
         ValidParameters, ParametersFit, CodeAt;
    var next := p + |BareText(i.bare)|;
    AtSplit(s, p, BareText(i.bare), ParametersText(i.params));
    ParametersFollow(s, next, i.params, end);
    BareReads(lim, s, p, i.bare);
    ParametersReadAll(lim, s, next, occurrences + 1, i.params, end);
  }

  lemma SkipsOne(s: Text, p: nat, tab: bool)
    requires CodeAt(s, p) == 32 && !Space(CodeAt(s, p + 1), tab)
    ensures SkipSpaces(s, p, tab) == p + 1
  {
  }

  /** Where the next item of an inner list stands, and what ends it. */
  lemma ItemsHead(s: Text, p: nat, items: seq<Item>, first: bool, tail: Text, q: nat, next: nat)
    requires items != [] && (forall k | 0 <= k < |items| :: ValidItem(items[k])) && tail != [] && tail[0] == 41
    requires At(s, p, ItemsText(items, first) + tail)
    requires q == p + (if first then 0 else 1) && next == q + |ItemText(items[0])|
    ensures p < |s| && SkipSpaces(s, p, false) == q && At(s, q, ItemText(items[0])) && CodeAt(s, q) != 41
    ensures At(s, next, ItemsText(items[1..], false) + tail)
    ensures CodeAt(s, next) == 32 || CodeAt(s, next) == 41
  {
    hide BareText, ParametersText, At, BareFits, ValidKey, ValidBare, ItemText, ValidItem;
    var lead: Text := if first then [] else [32];
    var t, rest := ItemText(items[0]), ItemsText(items[1..], false);
    assert ItemsText(items, first) + tail == lead + (t + (rest + tail));
    AtSplit(s, p, lead, t + (rest + tail));
    AtSplit(s, q, t, rest + tail);
    ItemStarts(items[0]);
    AtIndex(s, q, t, 0);
    if !first {
      AtIndex(s, p, lead, 0);
      SkipsOne(s, p, false);
    }
    AtIndex(s, next, rest + tail, 0);
  }

  lemma ItemStep(lim: Limits, s: Text, p: nat, occurrences: nat, sofar: seq<RawItem>, q: nat, item: Parsed<RawItem>)
    requires p < |s| && SkipSpaces(s, p, false) == q && CodeAt(s, q) != 41 && |sofar| < lim.maxInnerListItems
    requires ParseItem(lim, s, q, occurrences) == Ok(item) && CodeAt(s, item.next) in {32, 41}
    ensures InnerListFrom(lim, s, p, occurrences, sofar)
         == InnerListFrom(lim, s, item.next, item.occurrences, sofar + [item.value])
  {
    hide ParseItem, SkipSpaces, CodeAt, ParametersFrom;
  }

  lemma ItemsEnd(lim: Limits, s: Text, p: nat, occurrences: nat, sofar: seq<RawItem>, ps: Parameters, end: nat)
    requires ParametersOk(lim, ps) && occurrences + |ps| <= lim.maxTotalOccurrences
    requires var t := [41] + ParametersText(ps); At(s, p, t) && end == p + |t|
    requires EndsItem(CodeAt(s, end))
    ensures InnerListFrom(lim, s, p, occurrences, sofar)
         == Ok(Parsed(RawInnerList(sofar, RawParametersOf(ps)), end, occurrences + |ps|))
  {
    hide At, ParametersText, ParametersFrom, ParametersOk, RawParametersOf;
    AtSplit(s, p, [41], ParametersText(ps));
    AtIndex(s, p, [41], 0);
    ParametersReadAll(lim, s, p + 1, occurrences, ps, end);
  }

  lemma {:induction false} ItemsRead(
    lim: Limits, s: Text, p: nat, occurrences: nat, sofar: seq<RawItem>, items: seq<Item>, first: bool,
    ps: Parameters, end: nat, all: seq<RawItem>)
    requires ItemsFit(lim, items) && ParametersOk(lim, ps) && |sofar| + |items| <= lim.maxInnerListItems
    requires occurrences + ItemsOccurrences(items) + |ps| <= lim.maxTotalOccurrences
    requires var t := ItemsText(items, first) + ([41] + ParametersText(ps)); At(s, p, t) && end == p + |t|
    requires EndsItem(CodeAt(s, end)) && all == sofar + RawItemsOf(items)
    ensures InnerListFrom(lim, s, p, occurrences, sofar)
         == Ok(Parsed(RawInnerList(all, RawParametersOf(ps)), end, occurrences + ItemsOccurrences(items) + |ps|))
    decreases |items|
  {
    hide At, ItemText, ParametersText, InnerListFrom, ParseItem, ParametersFrom, ParametersOk, RawItemOf, RawParametersOf,
         ItemOk, CodeAt;
    var tail := [41] + ParametersText(ps);
    if items == [] {
      assert ItemsText(items, first) + tail == tail && all == sofar;
      ItemsEnd(lim, s, p, occurrences, sofar, ps, end);
    } else {
      var i, rest, q := items[0], items[1..], p + if first then 0 else 1;
      assert ItemOk(lim, i) && ItemsFit(lim, rest);
      var next, counted := q + |ItemText(i)|, occurrences + ItemOccurrences(i);
      ItemsHead(s, p, items, first, tail, q, next);
      ItemReads(lim, s, q, occurrences, i, next);
      ItemStep(lim, s, p, occurrences, sofar, q, Parsed(RawItemOf(i), next, counted));
      assert all == (sofar + [RawItemOf(i)]) + RawItemsOf(rest);
      ItemsRead(lim, s, next, counted, sofar + [RawItemOf(i)], rest, false, ps, end, all);
    }
  }

  lemma MemberStarts(m: Member)
    requires ValidMember(m)
    ensures MemberText(m) != []
    ensures var c := MemberText(m)[0]; c != 32 && c != 9 && c != 44 && (m.InnerList? <==> c == 40)
  {
    if m.ItemMember? {
      ItemStarts(m.item);
    }
  }

  /** After an opening parenthesis a member is an inner list. */
  lemma ParenthesisOpens(lim: Limits, s: Text, p: nat, occurrences: nat, list: Parsed<RawMember>)
    requires p < |s| && CodeAt(s, p) == 40 && occurrences + 1 <= lim.maxTotalOccurrences
    requires InnerListFrom(lim, s, p + 1, occurrences + 1, []) == Ok(list)
    ensures ParseMember(lim, s, p, occurrences) == Ok(list)
  {
    hide CodeAt, InnerListFrom, ParseItem;
  }

  lemma InnerListText(s: Text, p: nat, items: seq<Item>, ps: Parameters)
    requires ValidMember(InnerList(items, ps)) && At(s, p, MemberText(InnerList(items, ps)))
    ensures p < |s| && CodeAt(s, p) == 40 && At(s, p + 1, ItemsText(items, true) + ([41] + ParametersText(ps)))
    ensures |MemberText(InnerList(items, ps))| == 1 + |ItemsText(items, true) + ([41] + ParametersText(ps))|
  {
    hide At, ItemsText, ParametersText, ValidItem, ValidParameters, ValidValues, CodeAt;
    var body := ItemsText(items, true) + ([41] + ParametersText(ps));
    assert MemberText(InnerList(items, ps)) == [40] + body;
    AtSplit(s, p, [40], body);
    AtIndex(s, p, [40], 0);
  }

  lemma InnerListReads(lim: Limits, s: Text, p: nat, occurrences: nat, items: seq<Item>, ps: Parameters, end: nat)
    requires MemberOk(lim, InnerList(items, ps))
    requires occurrences + MemberOccurrences(InnerList(items, ps)) <= lim.maxTotalOccurrences
    requires At(s, p, MemberText(InnerList(items, ps))) && end == p + |MemberText(InnerList(items, ps))|
    requires EndsItem(CodeAt(s, end))
    ensures ParseMember(lim, s, p, occurrences)
         == Ok(Parsed(RawMemberOf(InnerList(items, ps)), end, occurrences + MemberOccurrences(InnerList(items, ps))))
  {
    hide At, CodeAt, EndsItem, ValidMember, MemberFits, ValidItem, ValidParameters, ParametersOk, ItemsFit, ItemsText, ParametersText, MemberText,
         ItemsOccurrences, InnerListFrom, ParseMember, RawItemsOf, RawParametersOf;
    InnerListText(s, p, items, ps);
    InnerListOk(lim, items, ps);
    var raw := RawItemsOf(items);
    assert [] + raw == raw;
    ItemsRead(lim, s, p + 1, occurrences + 1, [], items, true, ps, end, raw);
    ParenthesisOpens(lim, s, p, occurrences,
                     Parsed(RawInnerList(raw, RawParametersOf(ps)), end, occurrences + 1 + ItemsOccurrences(items) + |ps|));
  }

  lemma MemberReads(lim: Limits, s: Text, p: nat, occurrences: nat, m: Member, end: nat)
    requires MemberOk(lim, m) && occurrences + MemberOccurrences(m) <= lim.maxTotalOccurrences
    requires At(s, p, MemberText(m)) && end == p + |MemberText(m)| && EndsItem(CodeAt(s, end))
    ensures ParseMember(lim, s, p, occurrences) == Ok(Parsed(RawMemberOf(m), end, occurrences + MemberOccurrences(m)))
  {
    hide BareText, ParametersText, At, BareFits, ValidKey, ValidBare, ItemText, ItemsText, ParseItem, InnerListFrom,
         EndsItem, CodeAt, ItemFits, ValidItem, ParametersFit, ValidParameters, ItemsOccurrences, RawItemOf;
    MemberStarts(m);
    AtIndex(s, p, MemberText(m), 0);
    match m {
      case ItemMember(i) => ItemReads(lim, s, p, occurrences, i, end);
      case InnerList(items, ps) => InnerListReads(lim, s, p, occurrences, items, ps, end);
    }
  }

  lemma EntryReads(lim: Limits, s: Text, p: nat, occurrences: nat, e: Pair<Member>, end: nat)
    requires EntryFits(lim, e, {}) && occurrences + MemberOccurrences(e.value) <= lim.maxTotalOccurrences
    requires At(s, p, EntryText(e)) && end == p + |EntryText(e)| && EndsItem(CodeAt(s, end))
    ensures ParseEntry(lim, s, p, occurrences) == Ok(Parsed(RawEntryOf(e), end, occurrences + MemberOccurrences(e.value)))
  {
    hide BareText, ParametersText, At, ValidKey, ValidBare, MemberText, ParseKey, ParseMember, ParametersFrom,
         ValidParameters, ParametersFit, RawParametersOf, RawMemberOf;
    var after := p + |e.key|;
    AtSplit(s, p, e.key, ValueText(e.value));
    if Implicit(e.value) {
      var ps := e.value.item.params;
      ParametersFollow(s, after, ps, end);
      KeyReads(lim, s, p, e.key);
      ParametersReadAll(lim, s, after, occurrences + 1, ps, end);
    } else {
      AtSplit(s, after, [61], MemberText(e.value));
      AtIndex(s, after, [61], 0);
      KeyReads(lim, s, p, e.key);
      MemberReads(lim, s, after + 1, occurrences, e.value, end);
    }
  }

  // ---------------------------------------------------------------- fields

  /** A comma and a space, and then something that is not blank. */
  lemma SeparatorReads(s: Text, p: nat)
    requires At(s, p, [44, 32]) && p + 2 < |s| && !Space(CodeAt(s, p + 2), true)
    ensures ParseSeparator(s, p) == Ok(Cut(true, p + 2))
  {
    AtIndex(s, p, [44, 32], 0);
    AtIndex(s, p, [44, 32], 1);
    SkipsOne(s, p + 1, true);
  }

  /** What follows an element: the end of the input, or a separator and the next element. */
  lemma ElementFollows(s: Text, p: nat, next: Text)
    requires At(s, p, next) && p + |next| == |s|
    requires next == [] || (|next| > 2 && next[..2] == [44, 32] && !Space(next[2], true))
    ensures EndsItem(CodeAt(s, p))
    ensures ParseSeparator(s, p) == if next == [] then Ok(Cut(false, p)) else Ok(Cut(true, p + 2))
    ensures next != [] ==> At(s, p + 2, next[2..])
  {
    if next != [] {
      assert next == [44, 32] + next[2..];
      AtSplit(s, p, [44, 32], next[2..]);
      AtIndex(s, p, next, 0);
      AtIndex(s, p, next, 2);
      SeparatorReads(s, p);
    }
  }

  lemma LaterMembers(ms: seq<Member>)
    requires forall k | 0 <= k < |ms| :: ValidMember(ms[k])
    requires ms != []
    ensures var t := MembersText(ms, false); |t| > 2 && t[..2] == [44, 32] && !Space(t[2], true) && t[2..] == MembersText(ms, true)
  {
    hide BareText, ParametersText, At, BareFits, ValidKey, ValidBare, MemberText, ValidMember;
    MemberStarts(ms[0]);
    var m, rest := MemberText(ms[0]), MembersText(ms[1..], false);
    var t := MembersText(ms, false);
    assert MembersText(ms, true) == m + rest;
    assert t == [44, 32] + (m + rest);
    assert t[2] == (m + rest)[0] == m[0];
  }

  lemma {:induction false} MembersRead(
    lim: Limits, s: Text, p: nat, occurrences: nat, sofar: seq<RawMember>, ms: seq<Member>, all: seq<RawMember>)
    requires MembersOk(lim, ms) && |sofar| + |ms| <= lim.maxMembers
    requires occurrences + MembersOccurrences(ms) <= lim.maxTotalOccurrences
    requires At(s, p, MembersText(ms, true)) && p + |MembersText(ms, true)| == |s| && all == sofar + RawMembersOf(ms)
    ensures ListFrom(lim, s, p, occurrences, sofar) == Ok(Parsed(all, |s|, occurrences + MembersOccurrences(ms)))
    decreases |ms|
  {
    hide At, MemberText, ValidMember, MemberFits, ParseMember, ParseSeparator, EndsItem, RawMemberOf,
         MemberOccurrences, CodeAt;
    if ms == [] {
      assert all == sofar;
    } else {
      var m, rest := ms[0], ms[1..];
      var t, later := MemberText(m), MembersText(rest, false);
      var next := p + |t|;
      assert MembersText(ms, true) == t + later;
      AtSplit(s, p, t, later);
      assert MemberOk(lim, m) && MembersOk(lim, rest);
      MemberStarts(m);
      if rest != [] {
        LaterMembers(rest);
      }
      ElementFollows(s, next, later);
      MemberReads(lim, s, p, occurrences, m, next);
      assert all == (sofar + [RawMemberOf(m)]) + RawMembersOf(rest);
      if rest == [] {
        assert all == sofar + [RawMemberOf(m)];
      } else {
        MembersRead(lim, s, next + 2, occurrences + MemberOccurrences(m), sofar + [RawMemberOf(m)], rest, all);
      }
    }
  }

  predicate ValidEntries(es: seq<Pair<Member>>) {
    forall k | 0 <= k < |es| :: ValidKey(es[k].key) && ValidMember(es[k].value)
  }

  lemma LaterEntries(es: seq<Pair<Member>>)
    requires ValidEntries(es) && es != []
    ensures var t := EntriesText(es, false); |t| > 2 && t[..2] == [44, 32] && !Space(t[2], true) && t[2..] == EntriesText(es, true)
  {
    hide ValueText, ValidMember;
    var e, rest := EntryText(es[0]), EntriesText(es[1..], false);
    assert e[0] == es[0].key[0];
    assert EntriesText(es, false) == [44, 32] + e + rest;
    assert EntriesText(es, true) == e + rest;
  }

  lemma {:induction false} EntriesRead(
    lim: Limits, s: Text, p: nat, occurrences: nat, sofar: seq<RawEntry>, es: seq<Pair<Member>>, all: seq<RawEntry>)
    requires ValidEntries(es) && (forall k | 0 <= k < |es| :: EntryFits(lim, es[k], {}))
    requires |sofar| + |es| <= lim.maxMembers
    requires occurrences + EntriesOccurrences(es) <= lim.maxTotalOccurrences
    requires At(s, p, EntriesText(es, true)) && p + |EntriesText(es, true)| == |s| && all == sofar + RawEntriesOf(es)
    ensures DictionaryFrom(lim, s, p, occurrences, sofar) == Ok(Parsed(all, |s|, occurrences + EntriesOccurrences(es)))
    decreases |es|
  {
    hide BareText, ParametersText, At, BareFits, ValidKey, ValidBare, EntryText, ValidMember, MemberFits, ParseEntry,
         ParseSeparator, EndsItem, RawEntryOf, MemberOccurrences, CodeAt;
    if es == [] {
      assert all == sofar;
    } else {
      var e, rest := es[0], es[1..];
      assert EntryFits(lim, e, {});
      var t, later := EntryText(e), EntriesText(rest, false);
      var next := p + |t|;
      assert EntriesText(es, true) == t + later;
      AtSplit(s, p, t, later);
      if rest != [] {
        assert forall k | 0 <= k < |rest| :: EntryFits(lim, rest[k], {});
        LaterEntries(rest);
      }
      ElementFollows(s, next, later);
      EntryReads(lim, s, p, occurrences, e, next);
      assert all == (sofar + [RawEntryOf(e)]) + RawEntriesOf(rest);
      if rest == [] {
        assert all == sofar + [RawEntryOf(e)];
      } else {
        EntriesRead(lim, s, next + 2, occurrences + MemberOccurrences(e.value), sofar + [RawEntryOf(e)], rest, all);
      }
    }
  }

  lemma FieldStarts(f: Field)
    requires Valid(f)
    ensures FieldText(f) == [] || !Space(FieldText(f)[0], false)
  {
    match f {
      case ItemField(i) => ItemStarts(i);
      case ListField(ms) =>
        if ms != [] {
          MemberStarts(ms[0]);
        }
      case DictionaryField(es) =>
        if es != [] {
          assert EntryText(es[0])[0] == es[0].key[0];
        }
    }
  }

  lemma ListReads(lim: Limits, ms: seq<Member>)
    requires Valid(ListField(ms)) && Fits(lim, ListField(ms))
    ensures var s := MembersText(ms, true);
      ListFrom(lim, s, 0, 0, []) == Ok(Parsed(RawMembersOf(ms), |s|, MembersOccurrences(ms)))
  {
    hide ListFrom, MembersText, ValidMember, MemberFits, MembersOccurrences, RawMemberOf;
    var s := MembersText(ms, true);
    assert s[0..] == s && [] + RawMembersOf(ms) == RawMembersOf(ms);
    assert MembersOk(lim, ms);
    MembersRead(lim, s, 0, 0, [], ms, RawMembersOf(ms));
  }

  lemma DictionaryReads(lim: Limits, es: seq<Pair<Member>>)
    requires Valid(DictionaryField(es)) && Fits(lim, DictionaryField(es))
    ensures var s := EntriesText(es, true);
      DictionaryFrom(lim, s, 0, 0, []) == Ok(Parsed(RawEntriesOf(es), |s|, EntriesOccurrences(es)))
  {
    hide DictionaryFrom, EntriesText, ValidMember, MemberFits, EntriesOccurrences, RawEntryOf, ValidKey;
    var s := EntriesText(es, true);
    assert s[0..] == s && [] + RawEntriesOf(es) == RawEntriesOf(es);
    assert forall k | 0 <= k < |es| :: EntryFits(lim, es[k], {});
    EntriesRead(lim, s, 0, 0, [], es, RawEntriesOf(es));
  }

  /** Canonical text parses to the raw tree of its value. */
  lemma RootReads(lim: Limits, f: Field)
    requires Valid(f) && Fits(lim, f)
    ensures ParseRoot(lim, FieldText(f), 0, TypeOf(f)) == Ok(Parsed(RawFieldOf(f), |FieldText(f)|, Occurrences(f)))
  {
    hide ItemText, MembersText, EntriesText, ParseItem, ListFrom, DictionaryFrom, ValidItem, ValidMember, ItemFits, MemberFits,
         RawItemOf, RawMembersOf, RawEntriesOf, ItemOccurrences, MembersOccurrences, EntriesOccurrences;
    var s := FieldText(f);
    assert s[0..] == s;
    match f {
      case ItemField(i) => ItemReads(lim, s, 0, 0, i, |s|);
      case ListField(ms) => ListReads(lim, ms);
      case DictionaryField(es) => DictionaryReads(lim, es);
    }
  }

  lemma FieldReads(lim: Limits, f: Field)
    requires Valid(f) && Fits(lim, f)
    ensures ParseField(lim, FieldText(f), TypeOf(f)) == Ok(RawFieldOf(f))
  {
    FieldStarts(f);
    RootReads(lim, f);
  }

  // ---------------------------------------------------------------- conversion undoes the raw tree

  lemma ParametersConvert(ps: Parameters)
    requires DistinctKeys(ps)
    ensures ParametersOf(RawParametersOf(ps)) == ps
  {
    assert PairsOf(RawParametersOf(ps)) == ps;
    LastWinsDistinct(ps);
  }

  lemma ItemConverts(i: Item)
    requires ValidItem(i)
    ensures ItemOf(RawItemOf(i)) == i
  {
    ParametersConvert(i.params);
  }

  lemma MemberConverts(m: Member)
    requires ValidMember(m)
    ensures MemberOf(RawMemberOf(m)) == m
  {
    match m {
      case ItemMember(i) => ItemConverts(i);
      case InnerList(items, ps) =>
        ParametersConvert(ps);
        forall k | 0 <= k < |items| ensures ItemOf(RawItemOf(items[k])) == items[k] {
          ItemConverts(items[k]);
        }
        assert ItemsOf(RawItemsOf(items)) == items;
    }
  }

  lemma EntryConverts(e: Pair<Member>)
    requires ValidMember(e.value)
    ensures RawEntryOf(e).key == e.key && MemberOf(RawEntryOf(e).member) == e.value
  {
    MemberConverts(e.value);
    if Implicit(e.value) {
      ParametersConvert(e.value.item.params);
    }
  }

  lemma FieldConverts(f: Field)
    requires Valid(f)
    ensures FieldOf(RawFieldOf(f)) == f
  {
    match f {
      case ItemField(i) => ItemConverts(i);
      case ListField(ms) =>
        forall k | 0 <= k < |ms| ensures MemberOf(RawMemberOf(ms[k])) == ms[k] {
          MemberConverts(ms[k]);
        }
        assert MembersOf(RawMembersOf(ms)) == ms;
      case DictionaryField(es) =>
        var pairs := EntryPairs(RawEntriesOf(es));
        forall k | 0 <= k < |es| ensures pairs[k].key == es[k].key && MemberOf(pairs[k].value) == es[k].value {
          EntryConverts(es[k]);
        }
        LastWinsDistinct(pairs);
        assert EntriesOf(pairs) == es;
    }
  }

  // ---------------------------------------------------------------- canonical text is printable

  predicate AllPrintable(t: Text) { forall i | 0 <= i < |t| :: Printable(t[i]) }

  lemma PrintableConcat(a: Text, b: Text)
    requires AllPrintable(a) && AllPrintable(b)
    ensures AllPrintable(a + b)
  {
  }

  lemma {:induction false} PrintableEscape(t: Text)
    requires AllPrintable(t)
    ensures AllPrintable(Escape(t))
  {
    if t != [] {
      PrintableEscape(t[1..]);
      PrintableConcat(if t[0] == 34 || t[0] == 92 then [92, t[0]] else [t[0]], Escape(t[1..]));
    }
  }

  lemma {:induction false} PrintableEscapeBytes(b: seq<Byte>)
    ensures AllPrintable(EscapeBytes(b))
  {
    if b != [] {
      PrintableEscapeBytes(b[1..]);
      PrintableConcat(EscapeByte(b[0]), EscapeBytes(b[1..]));
    }
  }

  lemma PrintableInteger(v: int)
    ensures AllPrintable(IntegerText(v))
  {
    PrintableConcat(Sign(v), Decimal(Abs(v)));
  }

  lemma PrintableDecimal(v: int)
    ensures AllPrintable(DecimalText(v))
  {
    var whole, fraction := Decimal(Abs(v) / 1000), FractionText(Abs(v) % 1000);
    FractionMeaning(Abs(v) % 1000);
    PrintableConcat(Sign(v), whole);
    PrintableConcat(Sign(v) + whole, [46]);
    PrintableConcat(Sign(v) + whole + [46], fraction);
  }

  lemma PrintableBare(b: BareItem)
    requires ValidBare(b)
    ensures AllPrintable(BareText(b))
  {
    match b {
      case Integer(v) => PrintableInteger(v);
      case Date(v) => PrintableInteger(v);
      case Decimals(v) => PrintableDecimal(v);
      case Str(t) =>
        PrintableEscape(t);
        PrintableConcat([34], Escape(t));
        PrintableConcat([34] + Escape(t), [34]);
      case DisplayString(t) =>
        PrintableEscapeBytes(Utf8.Encode(t));
        PrintableConcat([37, 34], EscapeBytes(Utf8.Encode(t)));
        PrintableConcat([37, 34] + EscapeBytes(Utf8.Encode(t)), [34]);
      case _ =>
    }
  }

  lemma {:induction false} PrintableParameters(ps: Parameters)
    requires ValidValues(ps) && forall i | 0 <= i < |ps| :: ValidKey(ps[i].key)
    ensures AllPrintable(ParametersText(ps))
  {
    if ps != [] {
      PrintableParameters(ps[1..]);
      PrintableBare(ps[0].value);
      PrintableConcat([61], BareText(ps[0].value));
      PrintableConcat(ps[0].key, ParameterValueText(ps[0].value));
      PrintableConcat([59], ps[0].key + ParameterValueText(ps[0].value));
      PrintableConcat(ParameterText(ps[0]), ParametersText(ps[1..]));
    }
  }

  lemma PrintableItem(i: Item)
    requires ValidItem(i)
    ensures AllPrintable(ItemText(i))
  {
    PrintableBare(i.bare);
    PrintableParameters(i.params);
    PrintableConcat(BareText(i.bare), ParametersText(i.params));
  }

  lemma {:induction false} PrintableItems(items: seq<Item>, first: bool)
    requires forall k | 0 <= k < |items| :: ValidItem(items[k])
    ensures AllPrintable(ItemsText(items, first))
  {
    if items != [] {
      var lead: Text := if first then [] else [32];
      PrintableItem(items[0]);
      PrintableItems(items[1..], false);
      PrintableConcat(lead, ItemText(items[0]));
      PrintableConcat(lead + ItemText(items[0]), ItemsText(items[1..], false));
    }
  }

  lemma PrintableMember(m: Member)
    requires ValidMember(m)
    ensures AllPrintable(MemberText(m))
  {
    match m {
      case ItemMember(i) => PrintableItem(i);
      case InnerList(items, ps) =>
        PrintableItems(items, true);
        PrintableParameters(ps);
        PrintableConcat([40], ItemsText(items, true));
        PrintableConcat([40] + ItemsText(items, true), [41]);
        PrintableConcat([40] + ItemsText(items, true) + [41], ParametersText(ps));
    }
  }

  lemma {:induction false} PrintableMembers(ms: seq<Member>, first: bool)
    requires forall k | 0 <= k < |ms| :: ValidMember(ms[k])
    ensures AllPrintable(MembersText(ms, first))
  {
    if ms != [] {
      var lead: Text := if first then [] else [44, 32];
      PrintableMember(ms[0]);
      PrintableMembers(ms[1..], false);
      PrintableConcat(lead, MemberText(ms[0]));
      PrintableConcat(lead + MemberText(ms[0]), MembersText(ms[1..], false));
    }
  }

  lemma PrintableEntry(e: Pair<Member>)
    requires ValidKey(e.key) && ValidMember(e.value)
    ensures AllPrintable(EntryText(e))
  {
    if Implicit(e.value) {
      PrintableParameters(e.value.item.params);
    } else {
      PrintableMember(e.value);
      PrintableConcat([61], MemberText(e.value));
    }
    PrintableConcat(e.key, ValueText(e.value));
  }

  lemma {:induction false} PrintableEntries(es: seq<Pair<Member>>, first: bool)
    requires ValidEntries(es)
    ensures AllPrintable(EntriesText(es, first))
  {
    if es != [] {
      var lead: Text := if first then [] else [44, 32];
      PrintableEntry(es[0]);
      PrintableEntries(es[1..], false);
      PrintableConcat(lead, EntryText(es[0]));
      PrintableConcat(lead + EntryText(es[0]), EntriesText(es[1..], false));
    }
  }

  lemma PrintableField(f: Field)
    requires Valid(f)
    ensures AllPrintable(FieldText(f))
  {
    match f {
      case ItemField(i) => PrintableItem(i);
      case ListField(ms) => PrintableMembers(ms, true);
      case DictionaryField(es) => PrintableEntries(es, true);
    }
  }

  // ---------------------------------------------------------------- the round trip

  /** The canonical text of a value that fits parses to that value. */
  lemma CanonicalParses(lim: Limits, f: Field)
    requires Valid(f) && Fits(lim, f) && |FieldText(f)| <= lim.maxInputBytes
    ensures ParsedField(lim, FieldText(f), TypeOf(f)) == Ok(f)
  {
    PrintableField(f);
    FieldReads(lim, f);
    FieldConverts(f);
  }

  /** Whatever the serializer writes, the parser reads back as the same value, within the same limits. */
  lemma ParseUndoesSerialize(lim: Limits, f: Field, text: Text)
    requires SfSerializer.Serialized(lim, f) == Ok(text) && |text| <= lim.maxInputBytes
    ensures ParsedField(lim, text, TypeOf(f)) == Ok(f)
  {
    SerializationSucceeds(lim, f);
    CanonicalParses(lim, f);
  }

  // ---------------------------------------------------------------- unique decodability

  function Generous(n: nat): Limits { Limits(n, n, n, n, n, n, n, n, n) }

  function BareSize(b: BareItem): nat
    requires ValidBare(b)
  {
    match b
    case Str(t) => |t|
    case Token(t) => |t|
    case Bytes(t) => |t|
    case DisplayString(t) => |Utf8.Encode(t)|
    case _ => 0
  }

  function ParametersSize(ps: Parameters): nat
    requires ValidValues(ps)
  {
    if ps == [] then 0 else 1 + |ps[0].key| + BareSize(ps[0].value) + ParametersSize(ps[1..])
  }

  lemma {:induction false} ParametersFitSize(n: nat, ps: Parameters)
    requires ValidValues(ps) && ParametersSize(ps) <= n
    ensures |ps| <= n && forall i | 0 <= i < |ps| :: |ps[i].key| <= n && BareFits(Generous(n), ps[i].value)
  {
    if ps != [] {
      var tail := ps[1..];
      ParametersFitSize(n - 1, tail);
      forall i | 0 <= i < |ps| ensures |ps[i].key| <= n && BareFits(Generous(n), ps[i].value) {
        if i > 0 {
          assert ps[i] == tail[i - 1];
          assert BareFits(Generous(n - 1), tail[i - 1].value);
        }
      }
    }
  }

  function ItemSize(i: Item): nat
    requires ValidItem(i)
  {
    1 + BareSize(i.bare) + ParametersSize(i.params)
  }

  function ItemsSize(items: seq<Item>): nat
    requires forall k | 0 <= k < |items| :: ValidItem(items[k])
  {
    if items == [] then 0 else ItemSize(items[0]) + ItemsSize(items[1..])
  }

  lemma ItemFitsSize(n: nat, i: Item)
    requires ValidItem(i) && ItemSize(i) <= n
    ensures ItemOk(Generous(n), i) && ItemOccurrences(i) <= ItemSize(i)
  {
    ParametersFitSize(n, i.params);
    ParametersFitSize(ParametersSize(i.params), i.params);
  }

  lemma {:induction false} ItemsFitSize(n: nat, items: seq<Item>)
    requires (forall k | 0 <= k < |items| :: ValidItem(items[k])) && ItemsSize(items) <= n
    ensures |items| <= n && ItemsFit(Generous(n), items) && ItemsOccurrences(items) <= ItemsSize(items)
    ensures |items| <= ItemsSize(items)
    decreases |items|
  {
    if items != [] {
      var tail := items[1..];
      ItemFitsSize(n, items[0]);
      ItemsFitSize(n, tail);
      forall k | 0 <= k < |items| ensures ItemOk(Generous(n), items[k]) {
        if k > 0 {
          assert items[k] == tail[k - 1];
        }
      }
    }
  }

  /** Every valid member fits some limits, and so does everything it fits alone. */
  function MemberSize(m: Member): nat
    requires ValidMember(m)
  {
    match m
    case ItemMember(i) => ItemSize(i)
    case InnerList(items, ps) => 1 + ItemsSize(items) + ParametersSize(ps)
  }

  lemma MemberFitsSize(n: nat, m: Member)
    requires ValidMember(m) && MemberSize(m) <= n
    ensures MemberOk(Generous(n), m) && MemberOccurrences(m) <= n
  {
    match m {
      case ItemMember(i) => ItemFitsSize(n, i);
      case InnerList(items, ps) =>
        ItemsFitSize(n, items);
        ParametersFitSize(n, ps);
        ParametersFitSize(ParametersSize(ps), ps);
        InnerListOk(Generous(n), items, ps);
    }
  }

  /** The text of a member determines the member. */
  lemma MemberTextIsInjective(a: Member, b: Member)
    requires ValidMember(a) && ValidMember(b) && MemberText(a) == MemberText(b)
    ensures a == b
  {
    var n := MemberSize(a) + MemberSize(b) + |MemberText(a)| + 1;
    SingletonParses(n, a);
    SingletonParses(n, b);
  }

  lemma SingletonParses(n: nat, m: Member)
    requires ValidMember(m) && MemberSize(m) <= n && |MemberText(m)| <= n && 1 <= n
    ensures ParsedField(Generous(n), MemberText(m), ListType) == Ok(ListField([m]))
  {
    hide MemberText, MemberFits, ValidMember, MemberOccurrences, ParsedField;
    var f := ListField([m]);
    MemberFitsSize(n, m);
    assert MembersText([m], true) == MemberText(m) by {
      assert [m][1..] == [];
      assert [] + MemberText(m) + [] == MemberText(m);
    }
    assert MembersOccurrences([m]) == MemberOccurrences(m) by {
      assert [m][1..] == [];
    }
    assert MemberOk(Generous(n), m);
    CanonicalParses(Generous(n), f);
  }
}
