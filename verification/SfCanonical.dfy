/** The canonical text of a field (RFC 9651, section 4.1): the shortest spelling of every bare item, and fixed separators. */
module SfCanonical {
  import opened Basics
  import opened Digits
  import opened SfModel
  import opened SfGrammar
  import opened SfReading
  import Base64
  import Utf8

  // ---------------------------------------------------------------- what canonical means

  /** No spelling of the bare item is shorter, except that a byte sequence has all of its padding. */
  ghost predicate CanonicalBare(t: Text, b: BareItem) {
    SpellsBare(t, b) && if b.Bytes? then |t| % 4 == 2 else forall u :: SpellsBare(u, b) ==> |t| <= |u|
  }

  /** The texts one after another with a separator between each two. */
  function Joined(texts: seq<Text>, separator: Text): Text {
    if texts == [] then [] else texts[0] + Continued(texts[1..], separator)
  }

  /** Each text after a separator. */
  function Continued(texts: seq<Text>, separator: Text): Text {
    if texts == [] then [] else separator + texts[0] + Continued(texts[1..], separator)
  }

  /** True is left out; every other value stands after an equals sign. */
  ghost predicate CanonicalValue(t: Text, b: BareItem) {
    if b == Boolean(true) then t == [] else exists u :: t == [61] + u && CanonicalBare(u, b)
  }

  ghost predicate CanonicalParameter(t: Text, p: Pair<BareItem>) {
    exists value :: t == [59] + (p.key + value) && CanonicalValue(value, p.value)
  }

  ghost predicate CanonicalParameters(t: Text, ps: Parameters) {
    exists texts: seq<Text> ::
      |texts| == |ps| && t == Joined(texts, []) && forall k | 0 <= k < |ps| :: CanonicalParameter(texts[k], ps[k])
  }

  ghost predicate CanonicalItem(t: Text, i: Item) {
    exists bare, params :: t == bare + params && CanonicalBare(bare, i.bare) && CanonicalParameters(params, i.params)
  }

  /** The items of an inner list, with one space between each two. */
  ghost predicate CanonicalItems(t: Text, items: seq<Item>) {
    exists texts: seq<Text> ::
      |texts| == |items| && t == Joined(texts, [32]) && forall k | 0 <= k < |items| :: CanonicalItem(texts[k], items[k])
  }

  ghost predicate CanonicalMember(t: Text, m: Member) {
    match m
    case ItemMember(i) => CanonicalItem(t, i)
    case InnerList(items, ps) =>
      exists inner, params ::
        t == [40] + inner + [41] + params && CanonicalItems(inner, items) && CanonicalParameters(params, ps)
  }

  /** An item that is true is left out and its parameters alone stand after the key. */
  ghost predicate CanonicalEntry(t: Text, e: Pair<Member>) {
    exists rest ::
      && t == e.key + rest
      && if e.value.ItemMember? && e.value.item.bare == Boolean(true) then CanonicalParameters(rest, e.value.item.params)
         else exists u :: rest == [61] + u && CanonicalMember(u, e.value)
  }

  /** Members and entries have a comma and one space between each two. */
  ghost predicate CanonicalField(t: Text, f: Field) {
    match f
    case ItemField(i) => CanonicalItem(t, i)
    case ListField(ms) =>
      exists texts: seq<Text> ::
        |texts| == |ms| && t == Joined(texts, [44, 32]) && forall k | 0 <= k < |ms| :: CanonicalMember(texts[k], ms[k])
    case DictionaryField(es) =>
      exists texts: seq<Text> ::
        |texts| == |es| && t == Joined(texts, [44, 32]) && forall k | 0 <= k < |es| :: CanonicalEntry(texts[k], es[k])
  }

  // ---------------------------------------------------------------- numbers

  lemma IntegerSpells(v: int)
    requires InRange(v)
    ensures SpellsInteger(IntegerText(v), v)
  {
    Pow10Values();
    DecimalLength(Abs(v), 15);
    ParseDecimal(Abs(v));
    assert IntegerOf(IntegerText(v), v, v < 0, Decimal(Abs(v)));
  }

  lemma IntegerIsLeast(v: int, u: Text)
    requires SpellsInteger(u, v)
    ensures |IntegerText(v)| <= |u|
  {
    hide Decimal, Parse, Pow10;
    var negative: bool, digits: Text :| IntegerOf(u, v, negative, digits);
    ParseBound(digits);
    DecimalLength(Abs(v), |digits|);
  }

  lemma DecimalSpells(v: int)
    requires InRange(v)
    ensures SpellsDecimal(DecimalText(v), v)
  {
    hide FractionText, Decimal;
    var m := Abs(v);
    var whole, part := Decimal(m / 1000), FractionText(m % 1000);
    Pow10Values();
    DecimalLength(m / 1000, 12);
    ParseDecimal(m / 1000);
    FractionMeaning(m % 1000);
    assert DecimalText(v) == Minus(v < 0) + (whole + ([46] + part));
    assert DecimalOf(DecimalText(v), v, v < 0, whole, part);
  }

  lemma {:induction false} TrimmedEnds(t: Text)
    ensures TrimZeros(t) == [] || TrimZeros(t)[|TrimZeros(t)| - 1] != 48
  {
    if t != [] && t[|t| - 1] == 48 {
      TrimmedEnds(t[..|t| - 1]);
    }
  }

  lemma LastDigit(t: Text)
    requires AllDigits(t) && t != []
    ensures Parse(t) % 10 == t[|t| - 1] - 48
  {
  }

  /** No digits shorter than the written fraction denote as many thousandths. */
  lemma FractionIsLeast(f: nat, part: Text)
    requires f < 1000 && 1 <= |part| <= 3 && AllDigits(part) && Parse(part) * Pow10(3 - |part|) == f
    ensures |FractionText(f)| <= |part|
  {
    hide Parse, Pow10;
    var t := FractionText(f);
    FractionMeaning(f);
    if |part| < |t| {
      TrimmedEnds(PadStart(Decimal(f), 3));
      assert t[|t| - 1] != 48;
      LastDigit(t);
      EndsInZero(Parse(t), Parse(part), |part|, |t|);
    }
  }

  /** As many thousandths in more digits end in zero. */
  lemma EndsInZero(x: nat, y: nat, k: nat, n: nat)
    requires 1 <= k < n <= 3 && x * Pow10(3 - n) == y * Pow10(3 - k)
    ensures x % 10 == 0
  {
    Pow10Values();
    assert Pow10(0) == 1;
  }

  lemma DecimalIsLeast(v: int, u: Text)
    requires SpellsDecimal(u, v)
    ensures |DecimalText(v)| <= |u|
  {
    hide FractionText, Decimal, Parse, Pow10;
    var negative: bool, whole: Text, part: Text :| DecimalOf(u, v, negative, whole, part);
    var m, w, f := Abs(v), Parse(whole), Parse(part) * Pow10(3 - |part|);
    ParseBound(whole);
    ParseBound(part);
    ThousandthsFit(part);
    assert m == 1000 * w + f && m / 1000 == w && m % 1000 == f;
    DecimalLength(w, |whole|);
    FractionIsLeast(f, part);
  }

  lemma ThousandthsFit(part: Text)
    requires 1 <= |part| <= 3 && AllDigits(part) && Parse(part) < Pow10(|part|)
    ensures Parse(part) * Pow10(3 - |part|) < 1000
  {
    Pow10Values();
    assert Pow10(0) == 1;
  }

  // ---------------------------------------------------------------- strings, bytes and display strings

  lemma {:induction false} CharsSpell(x: Text)
    requires forall i | 0 <= i < |x| :: Printable(x[i])
    ensures SpellsChars(Escape(x), x)
    decreases |x|
  {
    if x != [] {
      CharsSpell(x[1..]);
      var n := if x[0] == 34 || x[0] == 92 then 2 else 1;
      assert Escape(x)[n..] == Escape(x[1..]);
    }
  }

  lemma {:induction false} CharsAreLeast(x: Text, u: Text)
    requires SpellsChars(u, x)
    ensures |Escape(x)| <= |u|
    decreases |x|
  {
    if x != [] {
      CharsAreLeast(x[1..], u[if x[0] == 34 || x[0] == 92 then 2 else 1..]);
    }
  }

  lemma PaddingFills(n: nat)
    ensures var content, padding := (n * 8 + 5) / 6, (3 - n % 3) % 3;
      content % 4 != 1 && padding == (4 - content % 4) % 4 && (content + padding) % 4 == 0
  {
    var q, r := n / 3, n % 3;
    assert (n * 8 + 5) / 6 == 4 * q + (if r == 0 then 0 else r + 1);
  }

  lemma BytesSpell(b: seq<Byte>)
    ensures SpellsBase64(Base64.Encode(b), b) && |Base64.Encode(b)| % 4 == 0
  {
    Base64.DecodeContent(b);
    var content, padding := Base64.Content(b), Base64.Padding(|b|);
    PaddingFills(|b|);
    hide Base64.Content, Base64.Padding, Base64.Decode;
    assert Base64Of(Base64.Encode(b), b, content, padding);
  }

  lemma {:induction false} OctetsSpell(b: seq<Byte>)
    ensures SpellsOctets(EscapeBytes(b), b)
    decreases |b|
  {
    if b != [] {
      OctetsSpell(b[1..]);
      var t, n := EscapeBytes(b), |EscapeByte(b[0])|;
      assert t == EscapeByte(b[0]) + EscapeBytes(b[1..]);
      assert t[n..] == EscapeBytes(b[1..]);
      assert forall i | 0 <= i < n :: t[i] == EscapeByte(b[0])[i];
    }
  }

  lemma {:induction false} OctetsAreLeast(b: seq<Byte>, u: Text)
    requires SpellsOctets(u, b)
    ensures |EscapeBytes(b)| <= |u|
    decreases |b|
  {
    hide HexFigure;
    if b != [] {
      if u != [] && Visible(b[0]) && b[0] != 34 && b[0] != 37 && u[0] == b[0] && SpellsOctets(u[1..], b[1..]) {
        OctetsAreLeast(b[1..], u[1..]);
      } else {
        OctetsAreLeast(b[1..], u[3..]);
      }
    }
  }

  // ---------------------------------------------------------------- bare items

  lemma BareSpells(b: BareItem)
    requires ValidBare(b)
    ensures SpellsBare(BareText(b), b) && (b.Bytes? ==> |BareText(b)| % 4 == 2)
  {
    hide SpellsInteger, SpellsDecimal, SpellsChars, SpellsBase64, SpellsOctets, IsToken, ValidToken, IntegerText, DecimalText,
         Escape, EscapeBytes, Base64.Encode, Utf8.Encode, Utf8.WellFormed;
    var t := BareText(b);
    match b {
      case Integer(v) => IntegerSpells(v);
      case Decimals(v) => DecimalSpells(v);
      case Str(x) =>
        CharsSpell(x);
        assert t[1..|t| - 1] == Escape(x);
      case Token(x) => TokenClass(x);
      case Bytes(x) =>
        BytesSpell(x);
        assert t[1..|t| - 1] == Base64.Encode(x);
      case Boolean(_) =>
      case Date(v) =>
        IntegerSpells(v);
        assert t[1..] == IntegerText(v);
      case DisplayString(x) =>
        OctetsSpell(Utf8.Encode(x));
        assert t[2..|t| - 1] == EscapeBytes(Utf8.Encode(x));
    }
  }

  lemma BareIsLeast(b: BareItem, u: Text)
    requires ValidBare(b) && SpellsBare(u, b) && !b.Bytes?
    ensures |BareText(b)| <= |u|
  {
    hide SpellsInteger, SpellsDecimal, SpellsChars, SpellsOctets, IsToken, ValidToken, IntegerText, DecimalText,
         Escape, EscapeBytes, Utf8.Encode, Utf8.WellFormed;
    match b {
      case Integer(v) => IntegerIsLeast(v, u);
      case Decimals(v) => DecimalIsLeast(v, u);
      case Str(x) => CharsAreLeast(x, u[1..|u| - 1]);
      case Token(_) =>
      case Boolean(_) =>
      case Date(v) => IntegerIsLeast(v, u[1..]);
      case DisplayString(x) => OctetsAreLeast(Utf8.Encode(x), u[2..|u| - 1]);
    }
  }

  lemma BareIsCanonical(b: BareItem)
    requires ValidBare(b)
    ensures CanonicalBare(BareText(b), b)
  {
    hide SpellsBare, BareText, ValidBare;
    BareSpells(b);
    if !b.Bytes? {
      forall u | SpellsBare(u, b) ensures |BareText(b)| <= |u| {
        BareIsLeast(b, u);
      }
    }
  }

  // ---------------------------------------------------------------- parameters, items and members

  lemma ParameterIsCanonical(p: Pair<BareItem>)
    requires ValidBare(p.value)
    ensures CanonicalParameter(ParameterText(p), p)
  {
    hide CanonicalBare, BareText, ValidBare;
    BareIsCanonical(p.value);
    assert CanonicalValue(ParameterValueText(p.value), p.value);
  }

  lemma {:induction false} ParametersAreJoined(ps: Parameters)
    requires ValidValues(ps)
    ensures ParametersText(ps) == Joined(seq(|ps|, k requires 0 <= k < |ps| => ParameterText(ps[k])), [])
    ensures ParametersText(ps) == Continued(seq(|ps|, k requires 0 <= k < |ps| => ParameterText(ps[k])), [])
  {
    hide ParameterText;
    if ps != [] {
      var texts := seq(|ps|, k requires 0 <= k < |ps| => ParameterText(ps[k]));
      ParametersAreJoined(ps[1..]);
      assert texts[1..] == seq(|ps| - 1, k requires 0 <= k < |ps| - 1 => ParameterText(ps[1..][k]));
    }
  }

  lemma ParametersAreCanonical(ps: Parameters)
    requires ValidValues(ps)
    ensures CanonicalParameters(ParametersText(ps), ps)
  {
    hide CanonicalParameter, ParameterText, ParametersText, Joined, ValidBare;
    var texts := seq(|ps|, k requires 0 <= k < |ps| => ParameterText(ps[k]));
    ParametersAreJoined(ps);
    forall k | 0 <= k < |ps| ensures CanonicalParameter(texts[k], ps[k]) {
      ParameterIsCanonical(ps[k]);
    }
  }

  lemma ItemIsCanonical(i: Item)
    requires ValidItem(i)
    ensures CanonicalItem(ItemText(i), i)
  {
    hide CanonicalBare, CanonicalParameters, BareText, ParametersText;
    BareIsCanonical(i.bare);
    ParametersAreCanonical(i.params);
  }

  lemma {:induction false} ItemsAreJoined(items: seq<Item>)
    requires forall k | 0 <= k < |items| :: ValidItem(items[k])
    ensures var texts := seq(|items|, k requires 0 <= k < |items| => ItemText(items[k]));
      ItemsText(items, true) == Joined(texts, [32]) && ItemsText(items, false) == Continued(texts, [32])
  {
    hide ItemText, ValidItem;
    if items != [] {
      var texts := seq(|items|, k requires 0 <= k < |items| => ItemText(items[k]));
      ItemsAreJoined(items[1..]);
      assert texts[1..] == seq(|items| - 1, k requires 0 <= k < |items| - 1 => ItemText(items[1..][k]));
    }
  }

  lemma ItemsAreCanonical(items: seq<Item>)
    requires forall k | 0 <= k < |items| :: ValidItem(items[k])
    ensures CanonicalItems(ItemsText(items, true), items)
  {
    hide CanonicalItem, ItemText, ItemsText, Joined, ValidItem;
    var texts := seq(|items|, k requires 0 <= k < |items| => ItemText(items[k]));
    ItemsAreJoined(items);
    forall k | 0 <= k < |items| ensures CanonicalItem(texts[k], items[k]) {
      ItemIsCanonical(items[k]);
    }
  }

  lemma MemberIsCanonical(m: Member)
    requires ValidMember(m)
    ensures CanonicalMember(MemberText(m), m)
  {
    hide CanonicalItem, CanonicalItems, CanonicalParameters, ItemText, ItemsText, ParametersText, ValidItem;
    match m {
      case ItemMember(i) => ItemIsCanonical(i);
      case InnerList(items, ps) =>
        ItemsAreCanonical(items);
        ParametersAreCanonical(ps);
    }
  }

  lemma EntryIsCanonical(e: Pair<Member>)
    requires ValidMember(e.value)
    ensures CanonicalEntry(EntryText(e), e)
  {
    hide CanonicalMember, CanonicalParameters, MemberText, ParametersText;
    if Implicit(e.value) {
      ParametersAreCanonical(e.value.item.params);
    } else {
      MemberIsCanonical(e.value);
    }
    assert EntryText(e) == e.key + ValueText(e.value);
  }

  // ---------------------------------------------------------------- fields

  lemma {:induction false} MembersAreJoined(ms: seq<Member>)
    requires forall k | 0 <= k < |ms| :: ValidMember(ms[k])
    ensures var texts := seq(|ms|, k requires 0 <= k < |ms| => MemberText(ms[k]));
      MembersText(ms, true) == Joined(texts, [44, 32]) && MembersText(ms, false) == Continued(texts, [44, 32])
  {
    hide MemberText, ValidMember;
    if ms != [] {
      var texts := seq(|ms|, k requires 0 <= k < |ms| => MemberText(ms[k]));
      MembersAreJoined(ms[1..]);
      assert texts[1..] == seq(|ms| - 1, k requires 0 <= k < |ms| - 1 => MemberText(ms[1..][k]));
    }
  }

  lemma {:induction false} EntriesAreJoined(es: seq<Pair<Member>>)
    requires forall k | 0 <= k < |es| :: ValidMember(es[k].value)
    ensures var texts := seq(|es|, k requires 0 <= k < |es| => EntryText(es[k]));
      EntriesText(es, true) == Joined(texts, [44, 32]) && EntriesText(es, false) == Continued(texts, [44, 32])
  {
    hide EntryText, ValidMember;
    if es != [] {
      var texts := seq(|es|, k requires 0 <= k < |es| => EntryText(es[k]));
      EntriesAreJoined(es[1..]);
      assert texts[1..] == seq(|es| - 1, k requires 0 <= k < |es| - 1 => EntryText(es[1..][k]));
    }
  }

  /** The text the serializer writes is canonical in every part. */
  lemma TextIsCanonical(f: Field)
    requires Valid(f)
    ensures CanonicalField(FieldText(f), f)
  {
    hide CanonicalItem, CanonicalMember, CanonicalEntry, Joined, ItemText, MemberText, EntryText, MembersText, EntriesText,
         ValidItem, ValidMember;
    match f {
      case ItemField(i) => ItemIsCanonical(i);
      case ListField(ms) =>
        var texts := seq(|ms|, k requires 0 <= k < |ms| => MemberText(ms[k]));
        MembersAreJoined(ms);
        forall k | 0 <= k < |ms| ensures CanonicalMember(texts[k], ms[k]) {
          MemberIsCanonical(ms[k]);
        }
      case DictionaryField(es) =>
        var texts := seq(|es|, k requires 0 <= k < |es| => EntryText(es[k]));
        EntriesAreJoined(es);
        forall k | 0 <= k < |es| ensures CanonicalEntry(texts[k], es[k]) {
          EntryIsCanonical(es[k]);
        }
    }
  }
}
