/**
 * Structured Field values (RFC 9651), which of them are valid and within the limits an operation runs under,
 * their canonical text (section 4.1), and the errors of the codec. Everything that parses or writes a field
 * is stated over these.
 */
module SfModel {
  import opened Basics
  import opened Digits
  import Base64
  import Utf8

  // ---------------------------------------------------------------- values

  datatype BareItem =
    | Integer(integer: int)
    | Decimals(thousandths: int)
    | Str(text: Text)
    | Token(token: Text)
    | Bytes(bytes: seq<Byte>)
    | Boolean(flag: bool)
    | Date(epochSeconds: int)
    | DisplayString(display: Text)

  /** One entry of an insertion-ordered map. */
  datatype Pair<+V> = Pair(key: Text, value: V)

  type Parameters = seq<Pair<BareItem>>

  datatype Item = Item(bare: BareItem, params: Parameters)

  datatype Member = ItemMember(item: Item) | InnerList(items: seq<Item>, params: Parameters)

  datatype FieldType = ItemType | ListType | DictionaryType

  datatype Field =
    | ItemField(item: Item)
    | ListField(members: seq<Member>)
    | DictionaryField(entries: seq<Pair<Member>>)

  function TypeOf(f: Field): FieldType {
    match f
    case ItemField(_) => ItemType
    case ListField(_) => ListType
    case DictionaryField(_) => DictionaryType
  }

  const TRUE := Boolean(true)

  // ---------------------------------------------------------------- limits and errors

  datatype Limits = Limits(
    maxInputBytes: nat, maxOutputBytes: nat, maxMembers: nat, maxInnerListItems: nat, maxParameters: nat,
    maxKeyLength: nat, maxTokenLength: nat, maxDecodedBytes: nat, maxTotalOccurrences: nat)

  datatype LimitName =
    | MaxInputBytes | MaxOutputBytes | MaxMembers | MaxInnerListItems | MaxParameters
    | MaxKeyLength | MaxTokenLength | MaxDecodedBytes | MaxTotalOccurrences

  function Maximum(lim: Limits, name: LimitName): nat {
    match name
    case MaxInputBytes => lim.maxInputBytes
    case MaxOutputBytes => lim.maxOutputBytes
    case MaxMembers => lim.maxMembers
    case MaxInnerListItems => lim.maxInnerListItems
    case MaxParameters => lim.maxParameters
    case MaxKeyLength => lim.maxKeyLength
    case MaxTokenLength => lim.maxTokenLength
    case MaxDecodedBytes => lim.maxDecodedBytes
    case MaxTotalOccurrences => lim.maxTotalOccurrences
  }

  datatype SyntaxReason =
    | NonAscii | UnexpectedCharacter | UnexpectedEnd | TrailingData | InvalidKey | InvalidNumber
    | InvalidEscape | InvalidBase64 | InvalidUtf8 | InvalidBoolean

  datatype SerializationReason = BadKey | DuplicateKey | BadNumber | BadString | BadToken | BadUnicode

  datatype SfError =
    | Syntax(reason: SyntaxReason, offset: int)
    | LimitExceeded(limit: LimitName, maximum: nat, observed: nat)
    | Serialization(why: SerializationReason)

  type Outcome<+T> = Result<T, SfError>

  function CheckLimit(lim: Limits, name: LimitName, observed: nat): Outcome<()> {
    if observed > Maximum(lim, name) then Err(LimitExceeded(name, Maximum(lim, name), observed)) else Ok(())
  }

  /** Counts one more item, inner list or parameter. */
  function Occurrence(lim: Limits, occurrences: nat): Outcome<nat> {
    var _ :- CheckLimit(lim, MaxTotalOccurrences, occurrences + 1);
    Ok(occurrences + 1)
  }

  // ---------------------------------------------------------------- character classes

  predicate Alpha(c: int) { 65 <= c <= 90 || 97 <= c <= 122 }

  predicate KeyFirst(c: int) { 97 <= c <= 122 || c == 42 }

  predicate KeyRest(c: int) { KeyFirst(c) || IsDigit(c) || c == 95 || c == 45 || c == 46 }

  predicate TokenFirst(c: int) { Alpha(c) || c == 42 }

  /** Letters, digits and the characters !#$%&'*+-.^_`|~:/ */
  predicate TokenRest(c: int) {
    || Alpha(c) || IsDigit(c) || c == 33 || 35 <= c <= 39 || c == 42 || c == 43 || c == 45 || c == 46
    || 94 <= c <= 96 || c == 124 || c == 126 || c == 58 || c == 47
  }

  predicate Printable(c: int) { 32 <= c <= 126 }

  predicate ValidKey(k: Text) {
    k != [] && KeyFirst(k[0]) && forall i | 0 <= i < |k| :: KeyRest(k[i])
  }

  predicate ValidToken(t: Text) {
    t != [] && TokenFirst(t[0]) && forall i | 0 <= i < |t| :: TokenRest(t[i])
  }

  // ---------------------------------------------------------------- validity

  const MAX_INTEGER := 999_999_999_999_999

  predicate InRange(v: int) { -MAX_INTEGER <= v <= MAX_INTEGER }

  predicate ValidBare(b: BareItem) {
    match b
    case Integer(v) => InRange(v)
    case Decimals(v) => InRange(v)
    case Str(t) => forall i | 0 <= i < |t| :: Printable(t[i])
    case Token(t) => ValidToken(t)
    case Bytes(_) => true
    case Boolean(_) => true
    case Date(v) => InRange(v)
    case DisplayString(t) => Utf8.WellFormed(t)
  }

  predicate HasKey<V>(m: seq<Pair<V>>, k: Text) { exists i | 0 <= i < |m| :: m[i].key == k }

  predicate DistinctKeys<V>(m: seq<Pair<V>>) {
    forall i, j | 0 <= i < j < |m| :: m[i].key != m[j].key
  }

  predicate ValidValues(ps: Parameters) { forall i | 0 <= i < |ps| :: ValidBare(ps[i].value) }

  predicate ValidParameters(ps: Parameters): (r: bool)
    ensures r ==> ValidValues(ps)
  {
    && DistinctKeys(ps)
    && forall i | 0 <= i < |ps| :: ValidKey(ps[i].key) && ValidBare(ps[i].value)
  }

  predicate ValidItem(i: Item): (r: bool)
    ensures r ==> ValidBare(i.bare) && ValidValues(i.params)
  {
    ValidBare(i.bare) && ValidParameters(i.params)
  }

  predicate ValidMember(m: Member) {
    match m
    case ItemMember(i) => ValidItem(i)
    case InnerList(items, ps) => ValidParameters(ps) && forall k | 0 <= k < |items| :: ValidItem(items[k])
  }

  predicate Valid(f: Field) {
    match f
    case ItemField(i) => ValidItem(i)
    case ListField(ms) => forall k | 0 <= k < |ms| :: ValidMember(ms[k])
    case DictionaryField(es) =>
      DistinctKeys(es) && forall k | 0 <= k < |es| :: ValidKey(es[k].key) && ValidMember(es[k].value)
  }

  // ---------------------------------------------------------------- within the limits

  predicate BareFits(lim: Limits, b: BareItem)
    requires ValidBare(b)
  {
    match b
    case Str(t) => |t| <= lim.maxDecodedBytes
    case Token(t) => |t| <= lim.maxTokenLength
    case Bytes(t) => |t| <= lim.maxDecodedBytes
    case DisplayString(t) => |Utf8.Encode(t)| <= lim.maxDecodedBytes
    case _ => true
  }

  predicate ParametersFit(lim: Limits, ps: Parameters)
    requires ValidParameters(ps)
  {
    && |ps| <= lim.maxParameters
    && forall i | 0 <= i < |ps| :: |ps[i].key| <= lim.maxKeyLength && BareFits(lim, ps[i].value)
  }

  predicate ItemFits(lim: Limits, i: Item)
    requires ValidItem(i)
  {
    BareFits(lim, i.bare) && ParametersFit(lim, i.params)
  }

  predicate MemberFits(lim: Limits, m: Member)
    requires ValidMember(m)
  {
    match m
    case ItemMember(i) => ItemFits(lim, i)
    case InnerList(items, ps) =>
      |items| <= lim.maxInnerListItems && ParametersFit(lim, ps) && forall k | 0 <= k < |items| :: ItemFits(lim, items[k])
  }

  function ItemOccurrences(i: Item): nat { 1 + |i.params| }

  function ItemsOccurrences(items: seq<Item>): nat {
    if items == [] then 0 else ItemOccurrences(items[0]) + ItemsOccurrences(items[1..])
  }

  function MemberOccurrences(m: Member): nat {
    match m
    case ItemMember(i) => ItemOccurrences(i)
    case InnerList(items, ps) => 1 + ItemsOccurrences(items) + |ps|
  }

  function MembersOccurrences(ms: seq<Member>): nat {
    if ms == [] then 0 else MemberOccurrences(ms[0]) + MembersOccurrences(ms[1..])
  }

  function EntriesOccurrences(es: seq<Pair<Member>>): nat {
    if es == [] then 0 else MemberOccurrences(es[0].value) + EntriesOccurrences(es[1..])
  }

  function Occurrences(f: Field): nat {
    match f
    case ItemField(i) => ItemOccurrences(i)
    case ListField(ms) => MembersOccurrences(ms)
    case DictionaryField(es) => EntriesOccurrences(es)
  }

  /** Everything but the length of the text. */
  predicate Fits(lim: Limits, f: Field)
    requires Valid(f)
  {
    && Occurrences(f) <= lim.maxTotalOccurrences
    && match f
       case ItemField(i) => ItemFits(lim, i)
       case ListField(ms) => |ms| <= lim.maxMembers && forall k | 0 <= k < |ms| :: MemberFits(lim, ms[k])
       case DictionaryField(es) =>
         && |es| <= lim.maxMembers
         && forall k | 0 <= k < |es| :: |es[k].key| <= lim.maxKeyLength && MemberFits(lim, es[k].value)
  }

  // ---------------------------------------------------------------- canonical text

  function Abs(v: int): nat { if v < 0 then -v else v }

  function Sign(v: int): Text { if v < 0 then [45] else [] }

  function IntegerText(v: int): Text { Sign(v) + Decimal(Abs(v)) }

  function PadStart(t: Text, n: nat): Text { if |t| >= n then t else seq(n - |t|, _ => 48) + t }

  function TrimZeros(t: Text): Text {
    if t != [] && t[|t| - 1] == 48 then TrimZeros(t[..|t| - 1]) else t
  }

  function FractionText(f: nat): Text {
    var trimmed := TrimZeros(PadStart(Decimal(f), 3));
    if trimmed == [] then [48] else trimmed
  }

  function DecimalText(v: int): Text {
    Sign(v) + Decimal(Abs(v) / 1000) + [46] + FractionText(Abs(v) % 1000)
  }

  function Escape(t: Text): (e: Text)
    ensures |e| >= |t|
  {
    if t == [] then []
    else (if t[0] == 34 || t[0] == 92 then [92, t[0]] else [t[0]]) + Escape(t[1..])
  }

  function HexDigit(n: int): (c: Code)
    requires 0 <= n < 16
  {
    if n < 10 then 48 + n else 87 + n
  }

  predicate Plain(b: int) { Printable(b) && b != 34 && b != 37 }

  function EscapeByte(b: Byte): Text {
    if Plain(b) then [b] else [37, HexDigit(b / 16), HexDigit(b % 16)]
  }

  function EscapeBytes(b: seq<Byte>): (e: Text)
    ensures |e| >= |b|
  {
    if b == [] then [] else EscapeByte(b[0]) + EscapeBytes(b[1..])
  }

  function BareText(b: BareItem): Text
    requires ValidBare(b)
  {
    match b
    case Integer(v) => IntegerText(v)
    case Decimals(v) => DecimalText(v)
    case Str(t) => [34] + Escape(t) + [34]
    case Token(t) => t
    case Bytes(t) => [58] + Base64.Encode(t) + [58]
    case Boolean(flag) => [63, if flag then 49 else 48]
    case Date(v) => [64] + IntegerText(v)
    case DisplayString(t) => [37, 34] + EscapeBytes(Utf8.Encode(t)) + [34]
  }

  function ParameterText(p: Pair<BareItem>): Text
    requires ValidBare(p.value)
  {
    [59] + (p.key + ParameterValueText(p.value))
  }

  function ParameterValueText(b: BareItem): Text
    requires ValidBare(b)
  {
    if b == TRUE then [] else [61] + BareText(b)
  }

  function ParametersText(ps: Parameters): Text
    requires ValidValues(ps)
  {
    if ps == [] then [] else ParameterText(ps[0]) + ParametersText(ps[1..])
  }

  function ItemText(i: Item): Text
    requires ValidItem(i)
  {
    BareText(i.bare) + ParametersText(i.params)
  }

  /** Items of an inner list, each but the very first after a space. */
  function ItemsText(items: seq<Item>, first: bool): Text
    requires forall k | 0 <= k < |items| :: ValidItem(items[k])
  {
    if items == [] then []
    else (if first then [] else [32]) + ItemText(items[0]) + ItemsText(items[1..], false)
  }

  function MemberText(m: Member): Text
    requires ValidMember(m)
  {
    match m
    case ItemMember(i) => ItemText(i)
    case InnerList(items, ps) => [40] + ItemsText(items, true) + [41] + ParametersText(ps)
  }

  /** Members of a list, each but the very first after a comma and a space. */
  function MembersText(ms: seq<Member>, first: bool): Text
    requires forall k | 0 <= k < |ms| :: ValidMember(ms[k])
  {
    if ms == [] then []
    else (if first then [] else [44, 32]) + MemberText(ms[0]) + MembersText(ms[1..], false)
  }

  /** A dictionary value that is the Boolean true, which the text leaves out. */
  predicate Implicit(m: Member) { m.ItemMember? && m.item.bare == TRUE }

  function ValueText(m: Member): Text
    requires ValidMember(m)
  {
    if Implicit(m) then ParametersText(m.item.params) else [61] + MemberText(m)
  }

  function EntryText(e: Pair<Member>): Text
    requires ValidMember(e.value)
  {
    e.key + ValueText(e.value)
  }

  function EntriesText(es: seq<Pair<Member>>, first: bool): Text
    requires forall k | 0 <= k < |es| :: ValidMember(es[k].value)
  {
    if es == [] then []
    else (if first then [] else [44, 32]) + EntryText(es[0]) + EntriesText(es[1..], false)
  }

  function FieldText(f: Field): Text
    requires Valid(f)
  {
    match f
    case ItemField(i) => ItemText(i)
    case ListField(ms) => MembersText(ms, true)
    case DictionaryField(es) => EntriesText(es, true)
  }
}
