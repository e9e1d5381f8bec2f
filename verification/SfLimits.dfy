/**
 * Limits never change what is read or written: they refuse, and the error names a limit that is exceeded.
 * So a text of the grammar is refused for a limit alone, and since a text bounds what it spells, it spells
 * at most one field of a type.
 */
module SfLimits {
  import opened Basics
  import opened SfModel
  import opened SfParser
  import opened SfGrammar
  import opened SfExact
  import SfAccepted
  import SfSerialized
  import W = SfSerializer
  import Base64
  import Utf8

  ghost predicate Wider(lim: Limits, wide: Limits) { forall name :: Maximum(lim, name) <= Maximum(wide, name) }

  /** The error names a limit, what it allows, and an amount beyond it. */
  predicate Exceeded(lim: Limits, e: SfError) {
    e.LimitExceeded? && e.maximum == Maximum(lim, e.limit) && e.observed > e.maximum
  }

  /** What wider limits give, or an exceeded limit. */
  predicate Same<T(==)>(lim: Limits, narrow: Outcome<T>, wide: Outcome<T>) {
    narrow == wide || (narrow.Err? && Exceeded(lim, narrow.error))
  }

  lemma LimitSame(lim: Limits, wide: Limits, name: LimitName, observed: nat)
    requires Wider(lim, wide)
    ensures Same(lim, CheckLimit(lim, name, observed), CheckLimit(wide, name, observed))
  {
    assert Maximum(lim, name) <= Maximum(wide, name);
  }

  lemma OccurrenceSame(lim: Limits, wide: Limits, occurrences: nat)
    requires Wider(lim, wide)
    ensures Same(lim, Occurrence(lim, occurrences), Occurrence(wide, occurrences))
  {
    LimitSame(lim, wide, MaxTotalOccurrences, occurrences + 1);
  }

  lemma {:induction false} NameSame(lim: Limits, wide: Limits, s: Text, start: nat, p: nat, class_: NameClass)
    requires Wider(lim, wide) && start <= p <= |s|
    ensures Same(lim, ScanName(lim, s, start, p, class_), ScanName(wide, s, start, p, class_))
    decreases |s| - p
  {
    hide Wider;
    if InName(CodeAt(s, p), class_) {
      LimitSame(lim, wide, NameLimit(class_), p - start + 1);
      NameSame(lim, wide, s, start, p + 1, class_);
    }
  }

  lemma KeySame(lim: Limits, wide: Limits, s: Text, p: nat)
    requires Wider(lim, wide) && p <= |s|
    ensures Same(lim, ParseKey(lim, s, p), ParseKey(wide, s, p))
  {
    hide Wider, ScanName;
    NameSame(lim, wide, s, p, p, KeyName);
  }

  lemma {:induction false} StringSame(lim: Limits, wide: Limits, s: Text, p: nat, sofar: Text)
    requires Wider(lim, wide) && p <= |s|
    ensures Same(lim, StringFrom(lim, s, p, sofar), StringFrom(wide, s, p, sofar))
    decreases |s| - p
  {
    hide Wider;
    LimitSame(lim, wide, MaxDecodedBytes, |sofar| + 1);
    if p < |s| && s[p] == 92 && (CodeAt(s, p + 1) == 34 || CodeAt(s, p + 1) == 92) {
      StringSame(lim, wide, s, p + 2, sofar + [s[p + 1]]);
    } else if p < |s| && Printable(s[p]) {
      StringSame(lim, wide, s, p + 1, sofar + [s[p]]);
    }
  }

  lemma {:induction false} ContentSame(lim: Limits, wide: Limits, s: Text, start: nat, p: nat, padding: nat)
    requires Wider(lim, wide) && start + padding <= p <= |s| && Base64.AllAlphabet(s[start..p - padding])
    ensures Same(lim, ScanBytes(lim, s, start, p, padding), ScanBytes(wide, s, start, p, padding))
    decreases |s| - p
  {
    hide Wider, Base64.Alphabet;
    if p < |s| && s[p] != 58 {
      if s[p] == 61 {
        if padding < 2 { ContentSame(lim, wide, s, start, p + 1, padding + 1); }
      } else if padding == 0 && Base64.Alphabet(s[p]) {
        assert s[start..p + 1] == s[start..p] + [s[p]];
        LimitSame(lim, wide, MaxDecodedBytes, (p + 1 - start) * 6 / 8);
        ContentSame(lim, wide, s, start, p + 1, 0);
      }
    }
  }

  lemma {:induction false} DisplaySame(lim: Limits, wide: Limits, s: Text, p: nat, bytes: seq<Byte>)
    requires Wider(lim, wide) && p <= |s|
    ensures Same(lim, DisplayFrom(lim, s, p, bytes), DisplayFrom(wide, s, p, bytes))
    decreases |s| - p
  {
    hide Wider, Utf8.Decode;
    LimitSame(lim, wide, MaxDecodedBytes, |bytes| + 1);
    if p < |s| && Printable(s[p]) && s[p] != 34 {
      if s[p] == 37 {
        if Hex(CodeAt(s, p + 1)) && Hex(CodeAt(s, p + 2)) {
          DisplaySame(lim, wide, s, p + 3, bytes + [Nibble(CodeAt(s, p + 1)) * 16 + Nibble(CodeAt(s, p + 2))]);
        }
      } else {
        DisplaySame(lim, wide, s, p + 1, bytes + [s[p]]);
      }
    }
  }

  lemma BareSame(lim: Limits, wide: Limits, s: Text, p: nat)
    requires Wider(lim, wide) && p <= |s|
    ensures Same(lim, ParseBare(lim, s, p), ParseBare(wide, s, p))
  {
    hide Wider, StringFrom, ScanName, ScanBytes, DisplayFrom, ParseNumber, CloseBytes;
    if p < |s| {
      StringSame(lim, wide, s, p + 1, []);
      NameSame(lim, wide, s, p, p, TokenName);
      ContentSame(lim, wide, s, p + 1, p + 1, 0);
    }
    if p + 2 <= |s| { DisplaySame(lim, wide, s, p + 2, []); }
  }

  lemma ParameterSame(lim: Limits, wide: Limits, s: Text, p: nat)
    requires Wider(lim, wide) && p < |s|
    ensures Same(lim, ParseParameter(lim, s, p), ParseParameter(wide, s, p))
  {
    hide Wider, ParseKey, ParseBare, SkipSpaces;
    var start := SkipSpaces(s, p + 1, false);
    KeySame(lim, wide, s, start);
    var key := ParseKey(lim, s, start);
    if key.Ok? && CodeAt(s, key.value.next) == 61 {
      BareSame(lim, wide, s, key.value.next + 1);
    }
  }

  lemma {:induction false} ParametersSame(
    lim: Limits, wide: Limits, s: Text, p: nat, occurrences: nat, sofar: seq<RawParameter>)
    requires Wider(lim, wide) && p <= |s|
    ensures Same(lim, ParametersFrom(lim, s, p, occurrences, sofar), ParametersFrom(wide, s, p, occurrences, sofar))
    decreases |s| - p
  {
    hide Wider, ParseParameter, Occurrence;
    if CodeAt(s, p) == 59 {
      LimitSame(lim, wide, MaxParameters, |sofar| + 1);
      OccurrenceSame(lim, wide, occurrences);
      ParameterSame(lim, wide, s, p);
      var counted, parameter := Occurrence(lim, occurrences), ParseParameter(lim, s, p);
      if counted.Ok? && parameter.Ok? {
        ParametersSame(lim, wide, s, parameter.value.next, counted.value, sofar + [parameter.value.value]);
      }
    }
  }

  lemma ItemSame(lim: Limits, wide: Limits, s: Text, p: nat, occurrences: nat)
    requires Wider(lim, wide) && p <= |s|
    ensures Same(lim, ParseItem(lim, s, p, occurrences), ParseItem(wide, s, p, occurrences))
  {
    hide Wider, ParseBare, ParametersFrom, Occurrence;
    OccurrenceSame(lim, wide, occurrences);
    BareSame(lim, wide, s, p);
    var counted, bare := Occurrence(lim, occurrences), ParseBare(lim, s, p);
    if counted.Ok? && bare.Ok? {
      ParametersSame(lim, wide, s, bare.value.next, counted.value, []);
    }
  }

  lemma {:induction false} InnerListSame(lim: Limits, wide: Limits, s: Text, p: nat, occurrences: nat, items: seq<RawItem>)
    requires Wider(lim, wide) && p <= |s|
    ensures Same(lim, InnerListFrom(lim, s, p, occurrences, items), InnerListFrom(wide, s, p, occurrences, items))
    decreases |s| - p
  {
    hide Wider, ParseItem, ParametersFrom, SkipSpaces;
    if p < |s| {
      var q := SkipSpaces(s, p, false);
      if CodeAt(s, q) == 41 {
        ParametersSame(lim, wide, s, q + 1, occurrences, []);
      } else {
        LimitSame(lim, wide, MaxInnerListItems, |items| + 1);
        ItemSame(lim, wide, s, q, occurrences);
        var item := ParseItem(lim, s, q, occurrences);
        if item.Ok? && (CodeAt(s, item.value.next) == 32 || CodeAt(s, item.value.next) == 41) {
          InnerListSame(lim, wide, s, item.value.next, item.value.occurrences, items + [item.value.value]);
        }
      }
    }
  }

  lemma MemberSame(lim: Limits, wide: Limits, s: Text, p: nat, occurrences: nat)
    requires Wider(lim, wide) && p <= |s|
    ensures Same(lim, ParseMember(lim, s, p, occurrences), ParseMember(wide, s, p, occurrences))
  {
    hide Wider, ParseItem, InnerListFrom, Occurrence;
    if CodeAt(s, p) == 40 {
      OccurrenceSame(lim, wide, occurrences);
      var counted := Occurrence(lim, occurrences);
      if counted.Ok? { InnerListSame(lim, wide, s, p + 1, counted.value, []); }
    } else {
      ItemSame(lim, wide, s, p, occurrences);
    }
  }

  lemma {:induction false} ListSame(lim: Limits, wide: Limits, s: Text, p: nat, occurrences: nat, sofar: seq<RawMember>)
    requires Wider(lim, wide) && p <= |s|
    ensures Same(lim, ListFrom(lim, s, p, occurrences, sofar), ListFrom(wide, s, p, occurrences, sofar))
    decreases |s| - p
  {
    hide Wider, ParseMember, ParseSeparator;
    if p < |s| {
      LimitSame(lim, wide, MaxMembers, |sofar| + 1);
      MemberSame(lim, wide, s, p, occurrences);
      var member := ParseMember(lim, s, p, occurrences);
      if member.Ok? {
        var more := ParseSeparator(s, member.value.next);
        if more.Ok? && more.value.value {
          ListSame(lim, wide, s, more.value.next, member.value.occurrences, sofar + [member.value.value]);
        }
      }
    }
  }

  lemma EntrySame(lim: Limits, wide: Limits, s: Text, p: nat, occurrences: nat)
    requires Wider(lim, wide) && p <= |s|
    ensures Same(lim, ParseEntry(lim, s, p, occurrences), ParseEntry(wide, s, p, occurrences))
  {
    hide Wider, ParseKey, ParseMember, ParametersFrom, Occurrence;
    KeySame(lim, wide, s, p);
    var key := ParseKey(lim, s, p);
    if key.Ok? {
      if CodeAt(s, key.value.next) == 61 {
        MemberSame(lim, wide, s, key.value.next + 1, occurrences);
      } else {
        OccurrenceSame(lim, wide, occurrences);
        var counted := Occurrence(lim, occurrences);
        if counted.Ok? { ParametersSame(lim, wide, s, key.value.next, counted.value, []); }
      }
    }
  }

  lemma {:induction false} DictionarySame(lim: Limits, wide: Limits, s: Text, p: nat, occurrences: nat, sofar: seq<RawEntry>)
    requires Wider(lim, wide) && p <= |s|
    ensures Same(lim, DictionaryFrom(lim, s, p, occurrences, sofar), DictionaryFrom(wide, s, p, occurrences, sofar))
    decreases |s| - p
  {
    hide Wider, ParseEntry, ParseSeparator;
    if p < |s| {
      LimitSame(lim, wide, MaxMembers, |sofar| + 1);
      EntrySame(lim, wide, s, p, occurrences);
      var entry := ParseEntry(lim, s, p, occurrences);
      if entry.Ok? {
        var more := ParseSeparator(s, entry.value.next);
        if more.Ok? && more.value.value {
          DictionarySame(lim, wide, s, more.value.next, entry.value.occurrences, sofar + [entry.value.value]);
        }
      }
    }
  }

  lemma RootSame(lim: Limits, wide: Limits, s: Text, p: nat, fieldType: FieldType)
    requires Wider(lim, wide) && p <= |s|
    ensures Same(lim, ParseRoot(lim, s, p, fieldType), ParseRoot(wide, s, p, fieldType))
  {
    hide Wider, ParseItem, ListFrom, DictionaryFrom;
    match fieldType {
      case ItemType => ItemSame(lim, wide, s, p, 0);
      case ListType => ListSame(lim, wide, s, p, 0, []);
      case DictionaryType => DictionarySame(lim, wide, s, p, 0, []);
    }
  }

  /** Under narrower limits a text is read as before, with the same error if it has one, or a limit it exceeds is named. */
  lemma LimitsOnlyRefuse(lim: Limits, wide: Limits, t: Text, fieldType: FieldType)
    requires Wider(lim, wide)
    ensures Same(lim, ParsedRaw(lim, t, fieldType), ParsedRaw(wide, t, fieldType))
  {
    hide Wider, ParseRoot, SkipSpaces, FirstNonAscii;
    LimitSame(lim, wide, MaxInputBytes, |t|);
    RootSame(lim, wide, t, SkipSpaces(t, 0, false), fieldType);
  }

  // ---------------------------------------------------------------- a text bounds what it spells

  function Uniform(n: nat): Limits { Limits(n, n, n, n, n, n, n, n, n) }

  lemma {:induction false} CharsBound(t: Text, x: Text)
    requires SpellsChars(t, x)
    ensures |x| <= |t|
    decreases |x|
  {
    if x != [] {
      CharsBound(t[if x[0] == 34 || x[0] == 92 then 2 else 1..], x[1..]);
    }
  }

  lemma {:induction false} OctetsBound(t: Text, b: seq<Byte>)
    requires SpellsOctets(t, b)
    ensures |b| <= |t|
    decreases |b|
  {
    hide HexFigure;
    if b != [] {
      if t != [] && Visible(b[0]) && b[0] != 34 && b[0] != 37 && t[0] == b[0] && SpellsOctets(t[1..], b[1..]) {
        OctetsBound(t[1..], b[1..]);
      } else {
        OctetsBound(t[3..], b[1..]);
      }
    }
  }

  lemma Base64Bound(t: Text, b: seq<Byte>)
    requires SpellsBase64(t, b)
    ensures |b| <= |t|
  {
    var content, padding :| Base64Of(t, b, content, padding);
  }

  lemma BareBound(n: nat, t: Text, b: BareItem)
    requires SpellsBare(t, b) && |t| <= n
    ensures BareWithin(Uniform(n), b) && t != []
  {
    hide SpellsInteger, SpellsDecimal, SpellsChars, SpellsBase64, SpellsOctets, Utf8.Encode, Utf8.WellFormed;
    match b {
      case Integer(v) => NumberIsText(t, v);
      case Decimals(v) => DecimalIsText(t, v);
      case Str(x) => CharsBound(t[1..|t| - 1], x);
      case Bytes(x) => Base64Bound(t[1..|t| - 1], x);
      case DisplayString(x) => OctetsBound(t[2..|t| - 1], Utf8.Encode(x));
      case _ =>
    }
  }

  lemma NumberIsText(t: Text, v: int)
    requires SpellsInteger(t, v)
    ensures t != []
  {
  }

  lemma DecimalIsText(t: Text, v: int)
    requires SpellsDecimal(t, v)
    ensures t != []
  {
  }

  predicate ParameterBounded(n: nat, p: RawParameter) {
    |p.key| <= n && (p.bare.Some? ==> BareWithin(Uniform(n), p.bare.value))
  }

  lemma ParameterBound(n: nat, t: Text, p: RawParameter)
    requires SpellsParameter(t, p) && |t| <= n
    ensures ParameterBounded(n, p) && |t| >= 2
  {
    hide SpellsBare, BareWithin, SpellsParameter;
    var gap, value := SfAccepted.ParameterPieces(t, p);
    if p.bare.Some? { BareBound(n, value[1..], p.bare.value); }
  }

  lemma {:induction false} ParametersBound(n: nat, t: Text, ps: seq<RawParameter>)
    requires SpellsParameters(t, ps) && |t| <= n
    ensures 2 * |ps| <= |t| && forall i | 0 <= i < |ps| :: ParameterBounded(n, ps[i])
    decreases |ps|
  {
    hide SpellsParameter, ParameterBounded;
    if ps != [] {
      var k: nat :| k <= |t| && SpellsParameter(t[..k], ps[0]) && SpellsParameters(t[k..], ps[1..]);
      ParameterBound(n, t[..k], ps[0]);
      ParametersBound(n, t[k..], ps[1..]);
      assert forall i | 0 < i < |ps| :: ps[i] == ps[1..][i - 1];
    }
  }

  lemma ParametersFit(n: nat, t: Text, ps: seq<RawParameter>)
    requires SpellsParameters(t, ps) && |t| <= n
    ensures ParametersWithin(Uniform(n), ps) && 2 * |ps| <= |t|
  {
    hide BareWithin, SpellsParameters;
    ParametersBound(n, t, ps);
    assert forall i | 0 <= i < |ps| :: ParameterBounded(n, ps[i]);
  }

  lemma ItemBound(n: nat, t: Text, i: RawItem)
    requires SpellsItem(t, i) && |t| <= n
    ensures ItemWithin(Uniform(n), i) && CountItem(i) <= |t|
  {
    hide SpellsBare, SpellsParameters, BareWithin, ParametersWithin;
    var k: nat :| k <= |t| && SpellsBare(t[..k], i.bare.value) && SpellsParameters(t[k..], i.params);
    BareBound(n, t[..k], i.bare.value);
    ParametersFit(n, t[k..], i.params);
  }

  lemma {:induction false} ItemsBound(n: nat, t: Text, items: seq<RawItem>)
    requires SpellsItems(t, items) && |t| <= n
    ensures |items| + 1 <= |t| && CountItems(items) + 1 <= |t|
    ensures forall k | 0 <= k < |items| :: ItemWithin(Uniform(n), items[k])
    decreases |items|
  {
    hide SpellsItem, ItemWithin, CountItem, Gap;
    if items != [] {
      var j, k := SfAccepted.ItemsPieces(t, items);
      ItemBound(n, t[j..k], items[0]);
      CountsItself(items[0]);
      ItemsBound(n, t[k..], items[1..]);
      assert forall i | 0 < i < |items| :: items[i] == items[1..][i - 1];
    }
  }

  lemma CountsItself(i: RawItem)
    ensures CountItem(i) >= 1
  {
  }

  lemma MemberBound(n: nat, t: Text, m: RawMember)
    requires SpellsMember(t, m) && |t| <= n
    ensures MemberWithin(Uniform(n), m) && 1 <= CountMember(m) <= |t|
  {
    hide SpellsItem, SpellsItems, SpellsParameters, ItemWithin, ParametersWithin, CountItem, CountItems;
    match m {
      case RawItemMember(i) =>
        ItemBound(n, t, i);
        CountsItself(i);
      case RawInnerList(items, ps) =>
        var k: nat :| 1 <= k <= |t| && SpellsItems(t[1..k], items) && SpellsParameters(t[k..], ps);
        ItemsBound(n, t[1..k], items);
        ParametersFit(n, t[k..], ps);
    }
  }

  lemma {:induction false} MembersBound(n: nat, t: Text, ms: seq<RawMember>)
    requires ms != [] && SpellsMembers(t, ms) && |t| <= n
    ensures |ms| <= |t| && CountMembers(ms) <= |t|
    ensures forall k | 0 <= k < |ms| :: MemberWithin(Uniform(n), ms[k])
    decreases |ms|
  {
    hide SpellsMember, MemberWithin, CountMember, Separator, Blank;
    assert CountMembers(ms) == CountMember(ms[0]) + CountMembers(ms[1..]);
    if |ms| == 1 {
      var k := MembersLast(t, ms);
      MemberBound(n, t[..k], ms[0]);
    } else {
      var j, k := MembersPieces(t, ms);
      MemberBound(n, t[..j], ms[0]);
      MembersBound(n, t[k..], ms[1..]);
      assert forall i | 0 < i < |ms| :: ms[i] == ms[1..][i - 1];
    }
  }

  lemma EntryBound(n: nat, t: Text, e: RawEntry)
    requires SpellsEntry(t, e) && |t| <= n
    ensures EntryWithin(Uniform(n), e) && 1 <= CountMember(e.member) <= |t|
  {
    hide SpellsMember, SpellsParameters, ParametersWithin;
    var rest := t[|e.key|..];
    if e.implied {
      ParametersFit(n, rest, e.member.item.params);
    } else {
      MemberBound(n, rest[1..], e.member);
    }
  }

  lemma {:induction false} EntriesBound(n: nat, t: Text, es: seq<RawEntry>)
    requires es != [] && SpellsEntries(t, es) && |t| <= n
    ensures |es| <= |t| && CountEntries(es) <= |t|
    ensures forall k | 0 <= k < |es| :: EntryWithin(Uniform(n), es[k])
    decreases |es|
  {
    hide SpellsEntry, EntryWithin, CountMember, Separator, Blank;
    assert CountEntries(es) == CountMember(es[0].member) + CountEntries(es[1..]);
    if |es| == 1 {
      var k := EntriesLast(t, es);
      EntryBound(n, t[..k], es[0]);
    } else {
      var j, k := EntriesPieces(t, es);
      EntryBound(n, t[..j], es[0]);
      EntriesBound(n, t[k..], es[1..]);
      assert forall i | 0 < i < |es| :: es[i] == es[1..][i - 1];
    }
  }

  /** Whatever a text spells has no more parts, and none longer, than the text has characters. */
  lemma SpelledIsBounded(t: Text, f: RawField)
    requires Spells(t, f)
    ensures Within(Uniform(|t|), f)
  {
    hide Spells, Gap, SpellsItem, SpellsMembers, SpellsEntries, ItemWithin, MemberWithin, EntryWithin, CountItem;
    var j, k := Pieces(t, f);
    match f {
      case RawItemField(i) => ItemBound(|t|, t[j..k], i);
      case RawListField(ms) =>
        if ms != [] { MembersBound(|t|, t[j..k], ms); }
      case RawDictionaryField(es) =>
        if es != [] { EntriesBound(|t|, t[j..k], es); }
    }
  }

  /** A text spells at most one field of a type. */
  lemma Unambiguous(t: Text, f: RawField, g: RawField)
    requires Ascii(t) && Spells(t, f) && Spells(t, g) && RawTypeOf(f) == RawTypeOf(g)
    ensures f == g
  {
    hide Spells, Within, RawTypeOf;
    SpelledIsBounded(t, f);
    SpelledIsBounded(t, g);
    ParsesExactlySpellings(Uniform(|t|), t, RawTypeOf(f), f);
    ParsesExactlySpellings(Uniform(|t|), t, RawTypeOf(f), g);
  }

  /** A text of the grammar is read as the field it spells or refused for a limit it exceeds, and for nothing else. */
  lemma GrammarOrLimit(lim: Limits, t: Text, fieldType: FieldType, f: RawField)
    requires Ascii(t) && Spells(t, f) && RawTypeOf(f) == fieldType
    ensures Same(lim, ParsedRaw(lim, t, fieldType), Ok(f))
  {
    hide Spells, Within, RawTypeOf, ParsedRaw;
    var n := |t| + lim.maxInputBytes + lim.maxOutputBytes + lim.maxMembers + lim.maxInnerListItems + lim.maxParameters
             + lim.maxKeyLength + lim.maxTokenLength + lim.maxDecodedBytes + lim.maxTotalOccurrences;
    SpelledIsBounded(t, f);
    ParsesExactlySpellings(Uniform(|t|), t, fieldType, f);
    assert Wider(lim, Uniform(n)) && Wider(Uniform(|t|), Uniform(n));
    LimitsOnlyRefuse(Uniform(|t|), Uniform(n), t, fieldType);
    LimitsOnlyRefuse(lim, Uniform(n), t, fieldType);
  }

  // ---------------------------------------------------------------- writing

  lemma AppendSame(lim: Limits, wide: Limits, out: W.Out, t: Text)
    requires Wider(lim, wide)
    ensures Same(lim, W.Appended(lim, out, t), W.Appended(wide, out, t))
  {
    hide Wider;
    LimitSame(lim, wide, MaxOutputBytes, |out.text| + |t|);
  }

  lemma CountSame(lim: Limits, wide: Limits, out: W.Out)
    requires Wider(lim, wide)
    ensures Same(lim, W.Counted(lim, out), W.Counted(wide, out))
  {
    hide Wider, Occurrence;
    OccurrenceSame(lim, wide, out.occurrences);
  }

  lemma WriteKeySame(lim: Limits, wide: Limits, out: W.Out, key: Text, seen: set<Text>)
    requires Wider(lim, wide)
    ensures Same(lim, W.WriteKey(lim, out, key, seen), W.WriteKey(wide, out, key, seen))
  {
    hide Wider, ValidKey;
    LimitSame(lim, wide, MaxKeyLength, |key|);
    AppendSame(lim, wide, out, key);
  }

  lemma {:induction false} MeasureStringSame(lim: Limits, wide: Limits, length: nat, t: Text, i: nat, encoded: nat)
    requires Wider(lim, wide) && i <= |t|
    ensures Same(lim, W.MeasureString(lim, length, t, i, encoded), W.MeasureString(wide, length, t, i, encoded))
    decreases |t| - i
  {
    hide Wider;
    if i < |t| {
      var next := encoded + if t[i] == 34 || t[i] == 92 then 2 else 1;
      LimitSame(lim, wide, MaxOutputBytes, length + next);
      MeasureStringSame(lim, wide, length, t, i + 1, next);
    }
  }

  lemma {:induction false} MeasureDisplaySame(
    lim: Limits, wide: Limits, length: nat, t: Text, i: nat, decoded: nat, encoded: nat)
    requires Wider(lim, wide) && i <= |t|
    ensures Same(lim, W.MeasureDisplay(lim, length, t, i, decoded, encoded), W.MeasureDisplay(wide, length, t, i, decoded, encoded))
    decreases |t| - i
  {
    hide Wider;
    if i < |t| && !(Utf8.High(t[i]) && !(i + 1 < |t| && Utf8.Low(t[i + 1]))) && !Utf8.Low(t[i]) {
      var pair := Utf8.High(t[i]);
      var size := if pair then 4 else W.ByteCount(t[i]);
      var decoded', encoded' := decoded + size, encoded + if Plain(t[i]) then 1 else 3 * size;
      LimitSame(lim, wide, MaxDecodedBytes, decoded');
      LimitSame(lim, wide, MaxOutputBytes, length + encoded');
      MeasureDisplaySame(lim, wide, length, t, if pair then i + 2 else i + 1, decoded', encoded');
    }
  }

  lemma WriteBareSame(lim: Limits, wide: Limits, out: W.Out, b: BareItem)
    requires Wider(lim, wide)
    ensures Same(lim, W.WriteBare(lim, out, b), W.WriteBare(wide, out, b))
  {
    hide Wider, W.MeasureString, W.MeasureDisplay, W.Appended, Utf8.Encode, Utf8.WellFormed, ValidToken, IntegerText, DecimalText,
         Escape, EscapeBytes, Base64.Encode;
    match b {
      case Str(t) =>
        LimitSame(lim, wide, MaxDecodedBytes, |t|);
        LimitSame(lim, wide, MaxOutputBytes, |out.text| + (2 + |t|));
        MeasureStringSame(lim, wide, |out.text|, t, 0, 2);
        AppendSame(lim, wide, out, [34] + Escape(t) + [34]);
      case DisplayString(t) =>
        LimitSame(lim, wide, MaxDecodedBytes, |t|);
        LimitSame(lim, wide, MaxOutputBytes, |out.text| + (3 + |t|));
        MeasureDisplaySame(lim, wide, |out.text|, t, 0, 0, 3);
        if Utf8.WellFormed(t) { AppendSame(lim, wide, out, [37, 34] + EscapeBytes(Utf8.Encode(t)) + [34]); }
      case Token(t) =>
        LimitSame(lim, wide, MaxTokenLength, |t|);
        AppendSame(lim, wide, out, t);
      case Bytes(t) =>
        LimitSame(lim, wide, MaxDecodedBytes, |t|);
        AppendSame(lim, wide, out, [58] + Base64.Encode(t) + [58]);
      case Integer(v) => AppendSame(lim, wide, out, IntegerText(v));
      case Date(v) => AppendSame(lim, wide, out, [64] + IntegerText(v));
      case Decimals(v) => AppendSame(lim, wide, out, DecimalText(v));
      case Boolean(flag) => AppendSame(lim, wide, out, [63, if flag then 49 else 48]);
    }
  }

  lemma WriteValueSame(lim: Limits, wide: Limits, out: W.Out, b: BareItem)
    requires Wider(lim, wide)
    ensures Same(lim, W.WriteParameterValue(lim, out, b), W.WriteParameterValue(wide, out, b))
  {
    hide Wider, W.Appended, W.WriteBare;
    AppendSame(lim, wide, out, [61]);
    var equals := W.Appended(lim, out, [61]);
    if equals.Ok? { WriteBareSame(lim, wide, equals.value, b); }
  }

  lemma {:induction false} WriteRestSame(lim: Limits, wide: Limits, out: W.Out, ps: Parameters, seen: set<Text>)
    requires Wider(lim, wide)
    ensures Same(lim, W.WriteRest(lim, out, ps, seen), W.WriteRest(wide, out, ps, seen))
    decreases |ps|
  {
    hide Wider, W.Counted, W.Appended, W.WriteKey, W.WriteParameterValue;
    if ps != [] {
      CountSame(lim, wide, out);
      var counted := W.Counted(lim, out);
      if counted.Ok? {
        AppendSame(lim, wide, counted.value, [59]);
        var started := W.Appended(lim, counted.value, [59]);
        if started.Ok? {
          WriteKeySame(lim, wide, started.value, ps[0].key, seen);
          var keyed := W.WriteKey(lim, started.value, ps[0].key, seen);
          if keyed.Ok? {
            WriteValueSame(lim, wide, keyed.value, ps[0].value);
            var written := W.WriteParameterValue(lim, keyed.value, ps[0].value);
            if written.Ok? { WriteRestSame(lim, wide, written.value, ps[1..], seen + {ps[0].key}); }
          }
        }
      }
    }
  }

  lemma WriteParametersSame(lim: Limits, wide: Limits, out: W.Out, ps: Parameters)
    requires Wider(lim, wide)
    ensures Same(lim, W.WriteParameters(lim, out, ps), W.WriteParameters(wide, out, ps))
  {
    hide Wider, W.WriteRest;
    LimitSame(lim, wide, MaxParameters, |ps|);
    WriteRestSame(lim, wide, out, ps, {});
  }

  lemma WriteItemSame(lim: Limits, wide: Limits, out: W.Out, i: Item)
    requires Wider(lim, wide)
    ensures Same(lim, W.WriteMember(lim, out, ItemMember(i)), W.WriteMember(wide, out, ItemMember(i)))
  {
    hide Wider, W.Counted, W.WriteBare, W.WriteParameters;
    CountSame(lim, wide, out);
    var counted := W.Counted(lim, out);
    if counted.Ok? {
      WriteBareSame(lim, wide, counted.value, i.bare);
      var written := W.WriteBare(lim, counted.value, i.bare);
      if written.Ok? { WriteParametersSame(lim, wide, written.value, i.params); }
    }
  }

  lemma SeparatedSame(lim: Limits, wide: Limits, out: W.Out, first: bool, separator: Text)
    requires Wider(lim, wide)
    ensures Same(lim, W.Separated(lim, out, first, separator), W.Separated(wide, out, first, separator))
  {
    hide Wider, W.Appended;
    AppendSame(lim, wide, out, separator);
  }

  lemma {:induction false} WriteItemsSame(lim: Limits, wide: Limits, out: W.Out, items: seq<Item>, first: bool)
    requires Wider(lim, wide)
    ensures Same(lim, W.WriteItems(lim, out, items, first), W.WriteItems(wide, out, items, first))
    decreases |items|
  {
    hide Wider, W.Separated, W.WriteMember;
    if items != [] {
      SeparatedSame(lim, wide, out, first, [32]);
      var separated := W.Separated(lim, out, first, [32]);
      if separated.Ok? {
        WriteItemSame(lim, wide, separated.value, items[0]);
        var written := W.WriteMember(lim, separated.value, ItemMember(items[0]));
        if written.Ok? { WriteItemsSame(lim, wide, written.value, items[1..], false); }
      }
    }
  }

  lemma WriteParenthesizedSame(lim: Limits, wide: Limits, out: W.Out, items: seq<Item>)
    requires Wider(lim, wide)
    ensures Same(lim, W.WriteParenthesized(lim, out, items), W.WriteParenthesized(wide, out, items))
  {
    hide Wider, W.Appended, W.WriteItems;
    LimitSame(lim, wide, MaxInnerListItems, |items|);
    AppendSame(lim, wide, out, [40]);
    var begun := W.Appended(lim, out, [40]);
    if begun.Ok? {
      WriteItemsSame(lim, wide, begun.value, items, true);
      var written := W.WriteItems(lim, begun.value, items, true);
      if written.Ok? { AppendSame(lim, wide, written.value, [41]); }
    }
  }

  lemma WriteMemberSame(lim: Limits, wide: Limits, out: W.Out, m: Member)
    requires Wider(lim, wide)
    ensures Same(lim, W.WriteMember(lim, out, m), W.WriteMember(wide, out, m))
  {
    hide Wider, W.Counted, W.WriteParenthesized, W.WriteParameters, W.WriteBare;
    if m.ItemMember? {
      WriteItemSame(lim, wide, out, m.item);
    } else {
      CountSame(lim, wide, out);
      var counted := W.Counted(lim, out);
      if counted.Ok? {
        WriteParenthesizedSame(lim, wide, counted.value, m.items);
        var closed := W.WriteParenthesized(lim, counted.value, m.items);
        if closed.Ok? { WriteParametersSame(lim, wide, closed.value, m.params); }
      }
    }
  }

  lemma {:induction false} WriteMembersSame(lim: Limits, wide: Limits, out: W.Out, ms: seq<Member>, first: bool)
    requires Wider(lim, wide)
    ensures Same(lim, W.WriteMembers(lim, out, ms, first), W.WriteMembers(wide, out, ms, first))
    decreases |ms|
  {
    hide Wider, W.Separated, W.WriteMember;
    if ms != [] {
      SeparatedSame(lim, wide, out, first, [44, 32]);
      var separated := W.Separated(lim, out, first, [44, 32]);
      if separated.Ok? {
        WriteMemberSame(lim, wide, separated.value, ms[0]);
        var written := W.WriteMember(lim, separated.value, ms[0]);
        if written.Ok? { WriteMembersSame(lim, wide, written.value, ms[1..], false); }
      }
    }
  }

  lemma WriteEntryValueSame(lim: Limits, wide: Limits, out: W.Out, m: Member)
    requires Wider(lim, wide)
    ensures Same(lim, W.WriteEntryValue(lim, out, m), W.WriteEntryValue(wide, out, m))
  {
    hide Wider, W.Counted, W.Appended, W.WriteMember, W.WriteParameters;
    if Implicit(m) {
      CountSame(lim, wide, out);
      var counted := W.Counted(lim, out);
      if counted.Ok? { WriteParametersSame(lim, wide, counted.value, m.item.params); }
    } else {
      AppendSame(lim, wide, out, [61]);
      var equals := W.Appended(lim, out, [61]);
      if equals.Ok? { WriteMemberSame(lim, wide, equals.value, m); }
    }
  }

  lemma {:induction false} WriteEntriesSame(
    lim: Limits, wide: Limits, out: W.Out, es: seq<Pair<Member>>, seen: set<Text>, first: bool)
    requires Wider(lim, wide)
    ensures Same(lim, W.WriteEntries(lim, out, es, seen, first), W.WriteEntries(wide, out, es, seen, first))
    decreases |es|
  {
    hide Wider, W.Separated, W.WriteKey, W.WriteEntryValue;
    if es != [] {
      SeparatedSame(lim, wide, out, first, [44, 32]);
      var separated := W.Separated(lim, out, first, [44, 32]);
      if separated.Ok? {
        WriteKeySame(lim, wide, separated.value, es[0].key, seen);
        var keyed := W.WriteKey(lim, separated.value, es[0].key, seen);
        if keyed.Ok? {
          WriteEntryValueSame(lim, wide, keyed.value, es[0].value);
          var written := W.WriteEntryValue(lim, keyed.value, es[0].value);
          if written.Ok? { WriteEntriesSame(lim, wide, written.value, es[1..], seen + {es[0].key}, false); }
        }
      }
    }
  }

  lemma WriteFieldSame(lim: Limits, wide: Limits, out: W.Out, f: Field)
    requires Wider(lim, wide)
    ensures Same(lim, W.WriteField(lim, out, f), W.WriteField(wide, out, f))
  {
    hide Wider, W.WriteMember, W.WriteMembers, W.WriteEntries;
    match f {
      case ItemField(i) => WriteItemSame(lim, wide, out, i);
      case ListField(ms) =>
        LimitSame(lim, wide, MaxMembers, |ms|);
        WriteMembersSame(lim, wide, out, ms, true);
      case DictionaryField(es) =>
        LimitSame(lim, wide, MaxMembers, |es|);
        WriteEntriesSame(lim, wide, out, es, {}, true);
    }
  }

  /** Under narrower limits a value is written as before, with the same error if it has one, or a limit it exceeds is named. */
  lemma WritingLimitsOnlyRefuse(lim: Limits, wide: Limits, f: Field)
    requires Wider(lim, wide)
    ensures Same(lim, W.Serialized(lim, f), W.Serialized(wide, f))
  {
    hide Wider, W.WriteField;
    WriteFieldSame(lim, wide, W.EMPTY, f);
  }

  /** A valid value that fits some limits is refused by narrower ones for a limit it exceeds, and for nothing else. */
  lemma ValidOrLimit(lim: Limits, wide: Limits, f: Field)
    requires Wider(lim, wide) && Valid(f) && Fits(wide, f) && |FieldText(f)| <= wide.maxOutputBytes
    ensures Same(lim, W.Serialized(lim, f), Ok(FieldText(f)))
  {
    hide Wider, W.Serialized, FieldText, Fits, Valid;
    WritingLimitsOnlyRefuse(lim, wide, f);
    SfSerialized.SerializationSucceeds(wide, f);
  }
}
