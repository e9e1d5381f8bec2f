/**
 * The texts that spell a Structured Field (RFC 9651, section 4.2), canonical or not, as a relation between
 * texts and raw fields that refers to no parser: any blanks, padding, zeros and explicit values the format
 * allows, and which fields are within the limits.
 */
module SfGrammar {
  import opened Basics
  import opened Digits
  import opened SfModel
  import opened SfParser
  import Base64
  import Utf8

  // ---------------------------------------------------------------- characters

  predicate Lower(c: int) { 97 <= c <= 122 }

  predicate Letter(c: int) { Lower(c) || 65 <= c <= 90 }

  predicate Figure(c: int) { 48 <= c <= 57 }

  /** The characters !#$%&'*+-.^_`|~ */
  predicate Mark(c: int) { c in {33, 35, 36, 37, 38, 39, 42, 43, 45, 46, 94, 95, 96, 124, 126} }

  /** Lower-case letters, digits, `_`, `-`, `.` and `*`, beginning with a letter or `*`. */
  predicate IsKey(t: Text) {
    && t != [] && (Lower(t[0]) || t[0] == 42)
    && forall i | 0 <= i < |t| :: Lower(t[i]) || Figure(t[i]) || t[i] in {95, 45, 46, 42}
  }

  /** Letters, digits, marks, `:` and `/`, beginning with a letter or `*`. */
  predicate IsToken(t: Text) {
    && t != [] && (Letter(t[0]) || t[0] == 42)
    && forall i | 0 <= i < |t| :: Letter(t[i]) || Figure(t[i]) || Mark(t[i]) || t[i] == 58 || t[i] == 47
  }

  predicate Visible(c: int) { 32 <= c <= 126 }

  /** Spaces alone. */
  predicate Gap(t: Text) { forall i | 0 <= i < |t| :: t[i] == 32 }

  /** Spaces and tabs. */
  predicate Blank(t: Text) { forall i | 0 <= i < |t| :: t[i] == 32 || t[i] == 9 }

  // ---------------------------------------------------------------- bare items

  function Minus(negative: bool): Text { if negative then [45] else [] }

  function Signum(negative: bool, n: int): int { if negative then -n else n }

  /** One to fifteen digits, perhaps after a minus sign. */
  predicate IntegerOf(t: Text, v: int, negative: bool, digits: Text) {
    t == Minus(negative) + digits && 1 <= |digits| <= 15 && AllDigits(digits) && v == Signum(negative, Parse(digits))
  }

  ghost predicate SpellsInteger(t: Text, v: int) {
    exists negative: bool, digits: Text :: IntegerOf(t, v, negative, digits)
  }

  /** One to twelve digits, a point, and one to three digits, in thousandths. */
  predicate DecimalOf(t: Text, v: int, negative: bool, whole: Text, part: Text) {
    && t == Minus(negative) + (whole + ([46] + part)) && 1 <= |whole| <= 12 && 1 <= |part| <= 3
    && AllDigits(whole) && AllDigits(part)
    && v == Signum(negative, 1000 * Parse(whole) + Parse(part) * Pow10(3 - |part|))
  }

  ghost predicate SpellsDecimal(t: Text, v: int) {
    exists negative: bool, whole: Text, part: Text :: DecimalOf(t, v, negative, whole, part)
  }

  /** A quote and a backslash stand after a backslash, and every other visible character for itself. */
  predicate SpellsChars(t: Text, x: Text)
    decreases |x|
  {
    if x == [] then t == []
    else if x[0] == 34 || x[0] == 92 then |t| >= 2 && t[0] == 92 && t[1] == x[0] && SpellsChars(t[2..], x[1..])
    else t != [] && Visible(x[0]) && t[0] == x[0] && SpellsChars(t[1..], x[1..])
  }

  /** Base64 content, and as much of its padding as one likes, or none. */
  predicate Base64Of(t: Text, b: seq<Byte>, content: Text, padding: Text) {
    && t == content + padding && Base64.AllAlphabet(content) && (forall i | 0 <= i < |padding| :: padding[i] == 61)
    && |content| % 4 != 1 && |padding| <= (4 - |content| % 4) % 4
    && b == Base64.Decode(content)
  }

  ghost predicate SpellsBase64(t: Text, b: seq<Byte>) {
    exists content: Text, padding: Text :: Base64Of(t, b, content, padding)
  }

  predicate HexFigure(c: int, n: int) { (0 <= n <= 9 && c == 48 + n) || (10 <= n <= 15 && c == 87 + n) }

  /** A visible byte that is neither a quote nor a percent sign, or a percent sign and two lower-case hexadecimal digits. */
  predicate SpellsOctets(t: Text, b: seq<Byte>)
    decreases |b|
  {
    if b == [] then t == []
    else
      || (t != [] && Visible(b[0]) && b[0] != 34 && b[0] != 37 && t[0] == b[0] && SpellsOctets(t[1..], b[1..]))
      || (|t| >= 3 && t[0] == 37 && HexFigure(t[1], b[0] / 16) && HexFigure(t[2], b[0] % 16) && SpellsOctets(t[3..], b[1..]))
  }

  ghost predicate SpellsBare(t: Text, b: BareItem) {
    match b
    case Integer(v) => SpellsInteger(t, v)
    case Decimals(v) => SpellsDecimal(t, v)
    case Str(x) => |t| >= 2 && t[0] == 34 && t[|t| - 1] == 34 && SpellsChars(t[1..|t| - 1], x)
    case Token(x) => t == x && IsToken(x)
    case Bytes(x) => |t| >= 2 && t[0] == 58 && t[|t| - 1] == 58 && SpellsBase64(t[1..|t| - 1], x)
    case Boolean(flag) => t == [63, if flag then 49 else 48]
    case Date(v) => t != [] && t[0] == 64 && SpellsInteger(t[1..], v)
    case DisplayString(x) =>
      && |t| >= 3 && t[0] == 37 && t[1] == 34 && t[|t| - 1] == 34
      && Utf8.WellFormed(x) && SpellsOctets(t[2..|t| - 1], Utf8.Encode(x))
  }

  // ---------------------------------------------------------------- parameters and items

  /** What stands after a key: nothing for an implied true, or an equals sign and a bare item. */
  ghost predicate SpellsValue(t: Text, bare: Option<BareItem>) {
    if bare.None? then t == [] else t != [] && t[0] == 61 && SpellsBare(t[1..], bare.value)
  }

  /** A semicolon, spaces, a key, and perhaps a value. */
  ghost predicate ParameterOf(t: Text, p: RawParameter, gap: Text, value: Text) {
    t == [59] + (gap + (p.key + value)) && Gap(gap) && IsKey(p.key) && SpellsValue(value, p.bare)
  }

  ghost predicate SpellsParameter(t: Text, p: RawParameter) {
    exists gap: Text, value: Text :: ParameterOf(t, p, gap, value)
  }

  ghost predicate SpellsParameters(t: Text, ps: seq<RawParameter>)
    decreases |ps|
  {
    if ps == [] then t == []
    else exists k: nat :: k <= |t| && SpellsParameter(t[..k], ps[0]) && SpellsParameters(t[k..], ps[1..])
  }

  ghost predicate SpellsItem(t: Text, i: RawItem) {
    i.bare.Some? && exists k: nat :: k <= |t| && SpellsBare(t[..k], i.bare.value) && SpellsParameters(t[k..], i.params)
  }

  /** The items of an inner list, spaces before each and after the last, at least one between two, and a parenthesis. */
  ghost predicate SpellsItems(t: Text, items: seq<RawItem>)
    decreases |items|
  {
    if items == [] then t != [] && t[|t| - 1] == 41 && Gap(t[..|t| - 1])
    else exists j: nat, k: nat ::
      && j <= k < |t| && Gap(t[..j]) && SpellsItem(t[j..k], items[0])
      && (t[k] == 32 || t[k] == 41) && SpellsItems(t[k..], items[1..])
  }

  ghost predicate SpellsMember(t: Text, m: RawMember) {
    match m
    case RawItemMember(i) => SpellsItem(t, i)
    case RawInnerList(items, ps) =>
      && t != [] && t[0] == 40
      && exists k: nat :: 1 <= k <= |t| && SpellsItems(t[1..k], items) && SpellsParameters(t[k..], ps)
  }

  /** A key with a member after an equals sign, or with parameters alone. */
  ghost predicate SpellsEntry(t: Text, e: RawEntry) {
    && IsKey(e.key) && |e.key| <= |t| && t[..|e.key|] == e.key
    && var rest := t[|e.key|..];
       if e.implied then e.member.RawItemMember? && e.member.item.bare.None? && SpellsParameters(rest, e.member.item.params)
       else rest != [] && rest[0] == 61 && SpellsMember(rest[1..], e.member)
  }

  // ---------------------------------------------------------------- fields

  /** A comma with any spaces and tabs around it. */
  predicate Separator(t: Text) { exists k: nat | k < |t| :: Blank(t[..k]) && t[k] == 44 && Blank(t[k + 1..]) }

  /** One or more members with separators between them, and spaces and tabs at the end. */
  ghost predicate SpellsMembers(t: Text, ms: seq<RawMember>)
    requires ms != []
    decreases |ms|
  {
    if |ms| == 1 then exists k: nat :: k <= |t| && SpellsMember(t[..k], ms[0]) && Blank(t[k..])
    else exists j: nat, k: nat ::
      j <= k <= |t| && SpellsMember(t[..j], ms[0]) && Separator(t[j..k]) && SpellsMembers(t[k..], ms[1..])
  }

  ghost predicate SpellsEntries(t: Text, es: seq<RawEntry>)
    requires es != []
    decreases |es|
  {
    if |es| == 1 then exists k: nat :: k <= |t| && SpellsEntry(t[..k], es[0]) && Blank(t[k..])
    else exists j: nat, k: nat ::
      j <= k <= |t| && SpellsEntry(t[..j], es[0]) && Separator(t[j..k]) && SpellsEntries(t[k..], es[1..])
  }

  ghost predicate SpellsRoot(t: Text, f: RawField) {
    match f
    case RawItemField(i) => SpellsItem(t, i)
    case RawListField(ms) => if ms == [] then t == [] else SpellsMembers(t, ms)
    case RawDictionaryField(es) => if es == [] then t == [] else SpellsEntries(t, es)
  }

  /** A field with spaces before it and after it. */
  ghost predicate Spells(t: Text, f: RawField) {
    exists j: nat, k: nat :: j <= k <= |t| && Gap(t[..j]) && SpellsRoot(t[j..k], f) && Gap(t[k..])
  }

  function RawTypeOf(f: RawField): FieldType {
    match f
    case RawItemField(_) => ItemType
    case RawListField(_) => ListType
    case RawDictionaryField(_) => DictionaryType
  }

  // ---------------------------------------------------------------- within the limits

  predicate BareWithin(lim: Limits, b: BareItem) {
    match b
    case Str(x) => |x| <= lim.maxDecodedBytes
    case Token(x) => |x| <= lim.maxTokenLength
    case Bytes(x) => |x| <= lim.maxDecodedBytes
    case DisplayString(x) => Utf8.WellFormed(x) && |Utf8.Encode(x)| <= lim.maxDecodedBytes
    case _ => true
  }

  predicate ParametersWithin(lim: Limits, ps: seq<RawParameter>) {
    && |ps| <= lim.maxParameters
    && forall i | 0 <= i < |ps| :: |ps[i].key| <= lim.maxKeyLength && (ps[i].bare.Some? ==> BareWithin(lim, ps[i].bare.value))
  }

  predicate ItemWithin(lim: Limits, i: RawItem) {
    (i.bare.Some? ==> BareWithin(lim, i.bare.value)) && ParametersWithin(lim, i.params)
  }

  predicate MemberWithin(lim: Limits, m: RawMember) {
    match m
    case RawItemMember(i) => ItemWithin(lim, i)
    case RawInnerList(items, ps) =>
      |items| <= lim.maxInnerListItems && ParametersWithin(lim, ps) && forall k | 0 <= k < |items| :: ItemWithin(lim, items[k])
  }

  predicate EntryWithin(lim: Limits, e: RawEntry) { |e.key| <= lim.maxKeyLength && MemberWithin(lim, e.member) }

  /** Items, inner lists and parameters, each counted every time it occurs. */
  function CountItem(i: RawItem): nat { 1 + |i.params| }

  function CountItems(items: seq<RawItem>): nat {
    if items == [] then 0 else CountItem(items[0]) + CountItems(items[1..])
  }

  function CountMember(m: RawMember): nat {
    match m
    case RawItemMember(i) => CountItem(i)
    case RawInnerList(items, ps) => 1 + CountItems(items) + |ps|
  }

  function CountMembers(ms: seq<RawMember>): nat {
    if ms == [] then 0 else CountMember(ms[0]) + CountMembers(ms[1..])
  }

  function CountEntries(es: seq<RawEntry>): nat {
    if es == [] then 0 else CountMember(es[0].member) + CountEntries(es[1..])
  }

  predicate Within(lim: Limits, f: RawField) {
    match f
    case RawItemField(i) => ItemWithin(lim, i) && CountItem(i) <= lim.maxTotalOccurrences
    case RawListField(ms) =>
      && |ms| <= lim.maxMembers && (forall k | 0 <= k < |ms| :: MemberWithin(lim, ms[k]))
      && CountMembers(ms) <= lim.maxTotalOccurrences
    case RawDictionaryField(es) =>
      && |es| <= lim.maxMembers && (forall k | 0 <= k < |es| :: EntryWithin(lim, es[k]))
      && CountEntries(es) <= lim.maxTotalOccurrences
  }

  // ---------------------------------------------------------------- the classes of the model

  lemma KeyClass(t: Text)
    ensures IsKey(t) <==> ValidKey(t)
  {
  }

  lemma TokenClass(t: Text)
    ensures IsToken(t) <==> ValidToken(t)
  {
    assert forall c: int :: Letter(c) || Figure(c) || Mark(c) || c == 58 || c == 47 <==> TokenRest(c);
  }
}
