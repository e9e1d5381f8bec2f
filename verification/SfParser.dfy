/**
 * The wire parser (RFC 9651, section 4.2): functions that say what is to be read at a position and how the
 * occurrence count grows, with the error and its position when there is nothing to be read, and the cursor
 * class whose methods compute them.
 */
module SfParser {
  import opened Basics
  import opened Digits
  import opened SfModel
  import Base64
  import Utf8

  // ---------------------------------------------------------------- the raw tree

  datatype RawParameter = RawParameter(key: Text, bare: Option<BareItem>)

  datatype RawItem = RawItem(bare: Option<BareItem>, params: seq<RawParameter>)

  datatype RawMember = RawItemMember(item: RawItem) | RawInnerList(items: seq<RawItem>, params: seq<RawParameter>)

  datatype RawEntry = RawEntry(key: Text, implied: bool, member: RawMember)

  datatype RawField =
    | RawItemField(item: RawItem)
    | RawListField(members: seq<RawMember>)
    | RawDictionaryField(entries: seq<RawEntry>)

  /** What was read and where reading goes on. */
  datatype Cut<+T> = Cut(value: T, next: nat)

  datatype Parsed<+T> = Parsed(value: T, next: nat, occurrences: nat)

  function Fail<T>(reason: SyntaxReason, offset: int): Outcome<T> { Err(Syntax(reason, offset)) }

  // ---------------------------------------------------------------- characters

  /** The code unit at a position, or a value outside every class past the end. */
  function CodeAt(s: Text, p: nat): int { if p < |s| then s[p] else -1 }

  predicate Space(c: int, tab: bool) { c == 32 || (tab && c == 9) }

  function SkipSpaces(s: Text, p: nat, tab: bool): (q: nat)
    requires p <= |s|
    ensures p <= q <= |s| && !Space(CodeAt(s, q), tab)
    decreases |s| - p
  {
    if Space(CodeAt(s, p), tab) then SkipSpaces(s, p + 1, tab) else p
  }

  datatype NameClass = KeyName | TokenName

  predicate InName(c: int, class_: NameClass) { if class_.KeyName? then KeyRest(c) else TokenRest(c) }

  function NameLimit(class_: NameClass): LimitName { if class_.KeyName? then MaxKeyLength else MaxTokenLength }

  /** The end of a key or token that began at `start`. */
  function ScanName(lim: Limits, s: Text, start: nat, p: nat, class_: NameClass): (r: Outcome<nat>)
    requires start <= p <= |s|
    ensures r.Ok? ==> p <= r.value <= |s|
    decreases |s| - p
  {
    if InName(CodeAt(s, p), class_) then
      var _ :- CheckLimit(lim, NameLimit(class_), p - start + 1);
      ScanName(lim, s, start, p + 1, class_)
    else Ok(p)
  }

  function ParseKey(lim: Limits, s: Text, p: nat): (r: Outcome<Cut<Text>>)
    requires p <= |s|
    ensures r.Ok? ==> p < r.value.next <= |s|
  {
    if !KeyFirst(CodeAt(s, p)) then Fail(InvalidKey, p)
    else
      var next :- ScanName(lim, s, p, p, KeyName);
      Ok(Cut(s[p..next], next))
  }

  // ---------------------------------------------------------------- bare items

  /** Digits from `p` on, at most `cap` counted from `start`, appended to `value`. */
  function ScanDigits(s: Text, start: nat, p: nat, cap: nat, value: nat): (r: Outcome<Cut<nat>>)
    requires start <= p <= |s|
    ensures r.Ok? ==> p <= r.value.next <= |s|
    ensures r.Ok? && p - start <= cap ==> r.value.next - start <= cap
    decreases |s| - p
  {
    if !IsDigit(CodeAt(s, p)) then Ok(Cut(value, p))
    else if p - start >= cap then Fail(InvalidNumber, p)
    else ScanDigits(s, start, p + 1, cap, value * 10 + (CodeAt(s, p) - 48))
  }

  function Signed(negative: bool, v: int): int { if negative && v != 0 then -v else v }

  /** One to three digits after the point, in thousandths. */
  function ParseFraction(s: Text, point: nat): (r: Outcome<Cut<nat>>)
    requires point <= |s|
    ensures r.Ok? ==> point < r.value.next <= |s|
  {
    var fraction :- ScanDigits(s, point, point, 3, 0);
    var digits := fraction.next - point;
    if digits == 0 then Fail(InvalidNumber, point) else Ok(Cut(fraction.value * Pow10(3 - digits), fraction.next))
  }

  function ParseNumber(s: Text, p: nat): (r: Outcome<Cut<BareItem>>)
    requires p <= |s|
    ensures r.Ok? ==> p < r.value.next <= |s| && (r.value.value.Integer? || r.value.value.Decimals?)
  {
    var negative := CodeAt(s, p) == 45;
    var start := if negative then p + 1 else p;
    if !IsDigit(CodeAt(s, start)) then Fail(InvalidNumber, start)
    else
      var whole :- ScanDigits(s, start, start, 15, 0);
      if CodeAt(s, whole.next) != 46 then Ok(Cut(Integer(Signed(negative, whole.value)), whole.next))
      else if whole.next - start > 12 then Fail(InvalidNumber, p)
      else
        var fraction :- ParseFraction(s, whole.next + 1);
        Ok(Cut(Decimals(Signed(negative, whole.value * 1000 + fraction.value)), fraction.next))
  }

  /** The rest of a string after what `sofar` holds. */
  function StringFrom(lim: Limits, s: Text, p: nat, sofar: Text): (r: Outcome<Cut<Text>>)
    requires p <= |s|
    ensures r.Ok? ==> p < r.value.next <= |s|
    decreases |s| - p
  {
    if p == |s| then Fail(UnexpectedEnd, p)
    else if s[p] == 34 then Ok(Cut(sofar, p + 1))
    else if s[p] == 92 then
      var code := CodeAt(s, p + 1);
      if code != 34 && code != 92 then Fail(InvalidEscape, p + 1)
      else
        var _ :- CheckLimit(lim, MaxDecodedBytes, |sofar| + 1);
        StringFrom(lim, s, p + 2, sofar + [s[p + 1]])
    else if !Printable(s[p]) then Fail(UnexpectedCharacter, p)
    else
      var _ :- CheckLimit(lim, MaxDecodedBytes, |sofar| + 1);
      StringFrom(lim, s, p + 1, sofar + [s[p]])
  }

  /** The end of base64 content that began at `start`, and the number of padding characters before it. */
  function ScanBytes(lim: Limits, s: Text, start: nat, p: nat, padding: nat): (r: Outcome<Cut<nat>>)
    requires start + padding <= p <= |s|
    requires Base64.AllAlphabet(s[start..p - padding])
    ensures r.Ok? ==> p <= r.value.next <= |s| && start + r.value.value <= r.value.next
    ensures r.Ok? ==> Base64.AllAlphabet(s[start..r.value.next - r.value.value])
    decreases |s| - p
  {
    if p == |s| || s[p] == 58 then Ok(Cut(padding, p))
    else if s[p] == 61 then
      if padding + 1 > 2 then Fail(InvalidBase64, p) else ScanBytes(lim, s, start, p + 1, padding + 1)
    else if padding > 0 || !Base64.Alphabet(s[p]) then Fail(InvalidBase64, p)
    else
      assert s[start..p + 1] == s[start..p] + [s[p]];
      var _ :- CheckLimit(lim, MaxDecodedBytes, (p + 1 - start) * 6 / 8);
      ScanBytes(lim, s, start, p + 1, 0)
  }

  /** Padding may be missing, in whole or in part, but never excessive. */
  predicate Padded(content: nat, padding: nat) {
    content % 4 != 1 && padding <= (4 - content % 4) % 4
  }

  /** The bytes of scanned base64 content that began at `start`, closed by a colon. */
  function CloseBytes(s: Text, start: nat, scan: Cut<nat>): (r: Outcome<Cut<seq<Byte>>>)
    requires start + scan.value <= scan.next <= |s|
    requires Base64.AllAlphabet(s[start..scan.next - scan.value])
    ensures r.Ok? ==> scan.next < r.value.next <= |s|
  {
    var content := s[start..scan.next - scan.value];
    if CodeAt(s, scan.next) != 58 then Fail(UnexpectedEnd, scan.next)
    else if !Padded(|content|, scan.value) then Fail(InvalidBase64, start)
    else Ok(Cut(Base64.Decode(content), scan.next + 1))
  }

  function ParseBytes(lim: Limits, s: Text, p: nat): (r: Outcome<Cut<seq<Byte>>>)
    requires p < |s|
    ensures r.Ok? ==> p < r.value.next <= |s|
  {
    var scan :- ScanBytes(lim, s, p + 1, p + 1, 0);
    CloseBytes(s, p + 1, scan)
  }

  predicate Hex(c: int) { IsDigit(c) || 97 <= c <= 102 }

  function Nibble(c: int): (n: int)
    requires Hex(c)
    ensures 0 <= n < 16
  {
    if c <= 57 then c - 48 else c - 87
  }

  /** The rest of a display string after the bytes already read. */
  function DisplayFrom(lim: Limits, s: Text, p: nat, bytes: seq<Byte>): (r: Outcome<Cut<Text>>)
    requires p <= |s|
    ensures r.Ok? ==> p < r.value.next <= |s|
    decreases |s| - p
  {
    if p == |s| then Fail(UnexpectedEnd, p)
    else if s[p] == 34 then
      match Utf8.Decode(bytes)
      case Some(t) => Ok(Cut(t, p + 1))
      case None => Fail(InvalidUtf8, p + 1)
    else if !Printable(s[p]) then Fail(UnexpectedCharacter, p)
    else if s[p] == 37 then
      var first, second := CodeAt(s, p + 1), CodeAt(s, p + 2);
      if !Hex(first) || !Hex(second) then Fail(InvalidEscape, p + 1)
      else
        var _ :- CheckLimit(lim, MaxDecodedBytes, |bytes| + 1);
        DisplayFrom(lim, s, p + 3, bytes + [Nibble(first) * 16 + Nibble(second)])
    else
      var _ :- CheckLimit(lim, MaxDecodedBytes, |bytes| + 1);
      DisplayFrom(lim, s, p + 1, bytes + [s[p]])
  }

  function ParseBare(lim: Limits, s: Text, p: nat): (r: Outcome<Cut<BareItem>>)
    requires p <= |s|
    ensures r.Ok? ==> p < r.value.next <= |s|
  {
    var code := CodeAt(s, p);
    if IsDigit(code) || code == 45 then ParseNumber(s, p)
    else if code == 34 then
      var t :- StringFrom(lim, s, p + 1, []);
      Ok(Cut(Str(t.value), t.next))
    else if TokenFirst(code) then
      var next :- ScanName(lim, s, p, p, TokenName);
      Ok(Cut(Token(s[p..next]), next))
    else if code == 58 then
      var b :- ParseBytes(lim, s, p);
      Ok(Cut(Bytes(b.value), b.next))
    else if code == 63 then
      var flag := CodeAt(s, p + 1);
      if flag != 48 && flag != 49 then Fail(InvalidBoolean, p + 1) else Ok(Cut(Boolean(flag == 49), p + 2))
    else if code == 64 then
      var n :- ParseNumber(s, p + 1);
      if !n.value.Integer? then Fail(InvalidNumber, p) else Ok(Cut(Date(n.value.integer), n.next))
    else if code == 37 then
      if CodeAt(s, p + 1) != 34 then Fail(UnexpectedCharacter, p + 1)
      else
        var t :- DisplayFrom(lim, s, p + 2, []);
        Ok(Cut(DisplayString(t.value), t.next))
    else Fail(if p == |s| then UnexpectedEnd else UnexpectedCharacter, p)
  }

  // ---------------------------------------------------------------- parameters, items and members

  /** One parameter, from its semicolon on. */
  function ParseParameter(lim: Limits, s: Text, p: nat): (r: Outcome<Cut<RawParameter>>)
    requires p < |s|
    ensures r.Ok? ==> p < r.value.next <= |s|
  {
    var key :- ParseKey(lim, s, SkipSpaces(s, p + 1, false));
    if CodeAt(s, key.next) == 61 then
      var bare :- ParseBare(lim, s, key.next + 1);
      Ok(Cut(RawParameter(key.value, Some(bare.value)), bare.next))
    else Ok(Cut(RawParameter(key.value, None), key.next))
  }

  function ParametersFrom(lim: Limits, s: Text, p: nat, occurrences: nat, sofar: seq<RawParameter>)
    : (r: Outcome<Parsed<seq<RawParameter>>>)
    requires p <= |s|
    ensures r.Ok? ==> p <= r.value.next <= |s|
    decreases |s| - p
  {
    if CodeAt(s, p) != 59 then Ok(Parsed(sofar, p, occurrences))
    else
      var _ :- CheckLimit(lim, MaxParameters, |sofar| + 1);
      var counted :- Occurrence(lim, occurrences);
      var parameter :- ParseParameter(lim, s, p);
      ParametersFrom(lim, s, parameter.next, counted, sofar + [parameter.value])
  }

  function ParseItem(lim: Limits, s: Text, p: nat, occurrences: nat): (r: Outcome<Parsed<RawItem>>)
    requires p <= |s|
    ensures r.Ok? ==> p < r.value.next <= |s|
  {
    var counted :- Occurrence(lim, occurrences);
    var bare :- ParseBare(lim, s, p);
    var params :- ParametersFrom(lim, s, bare.next, counted, []);
    Ok(Parsed(RawItem(Some(bare.value), params.value), params.next, params.occurrences))
  }

  function InnerListFrom(lim: Limits, s: Text, p: nat, occurrences: nat, items: seq<RawItem>)
    : (r: Outcome<Parsed<RawMember>>)
    requires p <= |s|
    ensures r.Ok? ==> p < r.value.next <= |s|
    decreases |s| - p
  {
    if p == |s| then Fail(UnexpectedEnd, p)
    else
      var q := SkipSpaces(s, p, false);
      if CodeAt(s, q) == 41 then
        var params :- ParametersFrom(lim, s, q + 1, occurrences, []);
        Ok(Parsed(RawInnerList(items, params.value), params.next, params.occurrences))
      else
        var _ :- CheckLimit(lim, MaxInnerListItems, |items| + 1);
        var item :- ParseItem(lim, s, q, occurrences);
        if CodeAt(s, item.next) != 32 && CodeAt(s, item.next) != 41 then Fail(UnexpectedCharacter, item.next)
        else InnerListFrom(lim, s, item.next, item.occurrences, items + [item.value])
  }

  function ParseMember(lim: Limits, s: Text, p: nat, occurrences: nat): (r: Outcome<Parsed<RawMember>>)
    requires p <= |s|
    ensures r.Ok? ==> p < r.value.next <= |s|
  {
    if CodeAt(s, p) == 40 then
      var counted :- Occurrence(lim, occurrences);
      InnerListFrom(lim, s, p + 1, counted, [])
    else
      var item :- ParseItem(lim, s, p, occurrences);
      Ok(Parsed(RawItemMember(item.value), item.next, item.occurrences))
  }

  // ---------------------------------------------------------------- fields

  /** Whether another member follows, and where it begins. */
  function ParseSeparator(s: Text, p: nat): (r: Outcome<Cut<bool>>)
    requires p <= |s|
    ensures r.Ok? ==> p <= r.value.next <= |s|
  {
    var q := SkipSpaces(s, p, true);
    if q == |s| then Ok(Cut(false, q))
    else if s[q] != 44 then Fail(UnexpectedCharacter, q)
    else
      var next := SkipSpaces(s, q + 1, true);
      if next == |s| then Fail(UnexpectedEnd, next) else Ok(Cut(true, next))
  }

  function ListFrom(lim: Limits, s: Text, p: nat, occurrences: nat, sofar: seq<RawMember>)
    : (r: Outcome<Parsed<seq<RawMember>>>)
    requires p <= |s|
    ensures r.Ok? ==> p <= r.value.next <= |s|
    decreases |s| - p
  {
    if p == |s| then Ok(Parsed(sofar, p, occurrences))
    else
      var _ :- CheckLimit(lim, MaxMembers, |sofar| + 1);
      var member :- ParseMember(lim, s, p, occurrences);
      var more :- ParseSeparator(s, member.next);
      if more.value then ListFrom(lim, s, more.next, member.occurrences, sofar + [member.value])
      else Ok(Parsed(sofar + [member.value], more.next, member.occurrences))
  }

  function ParseEntry(lim: Limits, s: Text, p: nat, occurrences: nat): (r: Outcome<Parsed<RawEntry>>)
    requires p <= |s|
    ensures r.Ok? ==> p < r.value.next <= |s|
  {
    var key :- ParseKey(lim, s, p);
    if CodeAt(s, key.next) == 61 then
      var member :- ParseMember(lim, s, key.next + 1, occurrences);
      Ok(Parsed(RawEntry(key.value, false, member.value), member.next, member.occurrences))
    else
      var counted :- Occurrence(lim, occurrences);
      var params :- ParametersFrom(lim, s, key.next, counted, []);
      Ok(Parsed(RawEntry(key.value, true, RawItemMember(RawItem(None, params.value))), params.next, params.occurrences))
  }

  function DictionaryFrom(lim: Limits, s: Text, p: nat, occurrences: nat, sofar: seq<RawEntry>)
    : (r: Outcome<Parsed<seq<RawEntry>>>)
    requires p <= |s|
    ensures r.Ok? ==> p <= r.value.next <= |s|
    decreases |s| - p
  {
    if p == |s| then Ok(Parsed(sofar, p, occurrences))
    else
      var _ :- CheckLimit(lim, MaxMembers, |sofar| + 1);
      var entry :- ParseEntry(lim, s, p, occurrences);
      var more :- ParseSeparator(s, entry.next);
      if more.value then DictionaryFrom(lim, s, more.next, entry.occurrences, sofar + [entry.value])
      else Ok(Parsed(sofar + [entry.value], more.next, entry.occurrences))
  }

  function ParseRoot(lim: Limits, s: Text, p: nat, fieldType: FieldType): (r: Outcome<Parsed<RawField>>)
    requires p <= |s|
    ensures r.Ok? ==> p <= r.value.next <= |s|
  {
    match fieldType
    case ItemType =>
      var item :- ParseItem(lim, s, p, 0);
      Ok(Parsed(RawItemField(item.value), item.next, item.occurrences))
    case ListType =>
      var list :- ListFrom(lim, s, p, 0, []);
      Ok(Parsed(RawListField(list.value), list.next, list.occurrences))
    case DictionaryType =>
      var entries :- DictionaryFrom(lim, s, p, 0, []);
      Ok(Parsed(RawDictionaryField(entries.value), entries.next, entries.occurrences))
  }

  function ParseField(lim: Limits, s: Text, fieldType: FieldType): Outcome<RawField> {
    var root :- ParseRoot(lim, s, SkipSpaces(s, 0, false), fieldType);
    var end := SkipSpaces(s, root.next, false);
    if end != |s| then Fail(TrailingData, end) else Ok(root.value)
  }

  predicate Ascii(s: Text) { forall i | 0 <= i < |s| :: s[i] <= 127 }

  /** The first code unit that is not ASCII, if there is one. */
  function FirstNonAscii(s: Text, i: nat): (k: nat)
    requires i <= |s|
    ensures i <= k <= |s|
    ensures k == |s| <==> forall j | i <= j < |s| :: s[j] <= 127
    decreases |s| - i
  {
    if i == |s| || s[i] > 127 then i else FirstNonAscii(s, i + 1)
  }

  function ParsedRaw(lim: Limits, s: Text, fieldType: FieldType): Outcome<RawField> {
    var _ :- CheckLimit(lim, MaxInputBytes, |s|);
    if FirstNonAscii(s, 0) < |s| then Fail(NonAscii, FirstNonAscii(s, 0)) else ParseField(lim, s, fieldType)
  }

  // ---------------------------------------------------------------- the cursor

  class Parser {
    const lim: Limits
    const source: Text
    var position: nat
    var occurrences: nat

    constructor (lim: Limits, source: Text)
      ensures this.lim == lim && this.source == source && position == 0 && occurrences == 0
    {
      this.lim := lim;
      this.source := source;
      position := 0;
      occurrences := 0;
    }

    /** The call read what the specification says, without counting anything. */
    ghost predicate Reads<T>(r: Outcome<T>, expected: Outcome<Cut<T>>)
      reads this
    {
      match expected
      case Ok(cut) => r == Ok(cut.value) && position == cut.next
      case Err(e) => r == Err(e)
    }

    ghost predicate Counts<T>(r: Outcome<T>, expected: Outcome<Parsed<T>>)
      reads this
    {
      match expected
      case Ok(parsed) => r == Ok(parsed.value) && position == parsed.next && occurrences == parsed.occurrences
      case Err(e) => r == Err(e)
    }

    function Here(): int
      reads this
    {
      CodeAt(source, position)
    }

    method Count() returns (r: Outcome<()>)
      modifies this`occurrences
      ensures match Occurrence(lim, old(occurrences))
              case Ok(n) => r == Ok(()) && occurrences == n
              case Err(e) => r == Err(e)
    {
      occurrences :- Occurrence(lim, occurrences);
      r := Ok(());
    }

    method Spaces(tab: bool)
      requires position <= |source|
      modifies this`position
      ensures position == SkipSpaces(source, old(position), tab)
    {
      while Space(Here(), tab)
        invariant old(position) <= position <= |source|
        invariant SkipSpaces(source, old(position), tab) == SkipSpaces(source, position, tab)
        decreases |source| - position
      {
        position := position + 1;
      }
    }

    method Name(class_: NameClass) returns (r: Outcome<Text>)
      requires position <= |source|
      modifies this`position
      ensures match ScanName(lim, source, old(position), old(position), class_)
              case Ok(end) => r == Ok(source[old(position)..end]) && position == end
              case Err(e) => r == Err(e)
    {
      var start := position;
      while InName(Here(), class_)
        invariant start <= position <= |source|
        invariant ScanName(lim, source, start, start, class_) == ScanName(lim, source, start, position, class_)
        decreases |source| - position
      {
        var _ :- CheckLimit(lim, NameLimit(class_), position - start + 1);
        position := position + 1;
      }
      r := Ok(source[start..position]);
    }

    method Key() returns (r: Outcome<Text>)
      requires position <= |source|
      modifies this`position
      ensures Reads(r, ParseKey(lim, source, old(position)))
    {
      if !KeyFirst(Here()) { return Fail(InvalidKey, position); }
      r := Name(KeyName);
    }

    method Digits(cap: nat) returns (r: Outcome<nat>)
      requires position <= |source|
      modifies this`position
      ensures Reads(r, ScanDigits(source, old(position), old(position), cap, 0))
    {
      var start: nat, value: nat := position, 0;
      while IsDigit(Here())
        invariant start <= position <= |source|
        invariant ScanDigits(source, start, start, cap, 0) == ScanDigits(source, start, position, cap, value)
        decreases |source| - position
      {
        if position - start >= cap { return Fail(InvalidNumber, position); }
        value := value * 10 + (Here() - 48);
        position := position + 1;
      }
      r := Ok(value);
    }

    method Number() returns (r: Outcome<BareItem>)
      requires position <= |source|
      modifies this`position
      ensures Reads(r, ParseNumber(source, old(position)))
    {
      var start := position;
      var negative := Here() == 45;
      if negative { position := position + 1; }
      var integerStart := position;
      if !IsDigit(Here()) { return Fail(InvalidNumber, position); }
      var integer :- Digits(15);
      if Here() != 46 { return Ok(Integer(Signed(negative, integer))); }
      if position - integerStart > 12 { return Fail(InvalidNumber, start); }
      position := position + 1;
      var fractionStart := position;
      var fraction :- Digits(3);
      var digits := position - fractionStart;
      if digits == 0 { return Fail(InvalidNumber, fractionStart); }
      r := Ok(Decimals(Signed(negative, integer * 1000 + fraction * Pow10(3 - digits))));
    }

    method String() returns (r: Outcome<Text>)
      requires position < |source|
      modifies this`position
      ensures Reads(r, StringFrom(lim, source, old(position) + 1, []))
    {
      position := position + 1;
      var output: Text := [];
      while position < |source|
        invariant position <= |source|
        invariant StringFrom(lim, source, old(position) + 1, []) == StringFrom(lim, source, position, output)
      {
        var code := source[position];
        position := position + 1;
        if code == 34 { return Ok(output); }
        if code == 92 {
          if Here() != 34 && Here() != 92 { return Fail(InvalidEscape, position); }
          code := source[position];
          position := position + 1;
        } else if !Printable(code) {
          return Fail(UnexpectedCharacter, position - 1);
        }
        var _ :- CheckLimit(lim, MaxDecodedBytes, |output| + 1);
        output := output + [code];
      }
      r := Fail(UnexpectedEnd, position);
    }

    method ByteSequence() returns (r: Outcome<seq<Byte>>)
      requires position < |source|
      modifies this`position
      ensures Reads(r, ParseBytes(lim, source, old(position)))
    {
      position := position + 1;
      var start := position;
      var padding :- Content();
      ghost var scan := ScanBytes(lim, source, start, start, 0);
      assert scan == Ok(Cut(padding, position));
      var content := source[start..position - padding];
      if Here() != 58 { return Fail(UnexpectedEnd, position); }
      if !Padded(|content|, padding) { return Fail(InvalidBase64, start); }
      position := position + 1;
      r := Ok(Base64.Decode(content));
    }

    /** Passes over base64 content and its padding, whose length it returns. */
    method Content() returns (r: Outcome<nat>)
      requires position <= |source|
      modifies this`position
      ensures Reads(r, ScanBytes(lim, source, old(position), old(position), 0))
    {
      var start: nat, contentLength: nat, padding: nat := position, 0, 0;
      while position < |source| && source[position] != 58
        invariant start <= position <= |source| && position == start + contentLength + padding
        invariant Base64.AllAlphabet(source[start..position - padding])
        invariant ScanBytes(lim, source, start, start, 0) == ScanBytes(lim, source, start, position, padding)
        decreases |source| - position
      {
        var code := source[position];
        if code == 61 {
          padding := padding + 1;
          if padding > 2 { return Fail(InvalidBase64, position); }
        } else {
          if padding > 0 || !Base64.Alphabet(code) { return Fail(InvalidBase64, position); }
          assert source[start..position + 1] == source[start..position] + [code];
          contentLength := contentLength + 1;
          var _ :- CheckLimit(lim, MaxDecodedBytes, contentLength * 6 / 8);
        }
        position := position + 1;
      }
      r := Ok(padding);
    }

    method Display() returns (r: Outcome<Text>)
      requires position < |source|
      modifies this`position
      ensures CodeAt(source, old(position) + 1) != 34 ==> r == Fail(UnexpectedCharacter, old(position) + 1)
      ensures CodeAt(source, old(position) + 1) == 34 ==> Reads(r, DisplayFrom(lim, source, old(position) + 2, []))
    {
      position := position + 1;
      if Here() != 34 { return Fail(UnexpectedCharacter, position); }
      position := position + 1;
      var bytes: seq<Byte> := [];
      while position < |source|
        invariant position <= |source|
        invariant DisplayFrom(lim, source, old(position) + 2, []) == DisplayFrom(lim, source, position, bytes)
      {
        var code: int := source[position];
        position := position + 1;
        if code == 34 {
          match Utf8.Decode(bytes) {
            case Some(t) => return Ok(t);
            case None => return Fail(InvalidUtf8, position);
          }
        }
        if !Printable(code) { return Fail(UnexpectedCharacter, position - 1); }
        if code == 37 {
          var first, second := Here(), CodeAt(source, position + 1);
          if !Hex(first) || !Hex(second) { return Fail(InvalidEscape, position); }
          code := Nibble(first) * 16 + Nibble(second);
          position := position + 2;
        }
        var _ :- CheckLimit(lim, MaxDecodedBytes, |bytes| + 1);
        bytes := bytes + [code];
      }
      r := Fail(UnexpectedEnd, position);
    }

    method Bare() returns (r: Outcome<BareItem>)
      requires position <= |source|
      modifies this`position
      ensures Reads(r, ParseBare(lim, source, old(position)))
    {
      var start, code := position, Here();
      if IsDigit(code) || code == 45 {
        r := Number();
      } else if code == 34 {
        var t :- String();
        r := Ok(Str(t));
      } else if TokenFirst(code) {
        var t :- Name(TokenName);
        r := Ok(Token(t));
      } else if code == 58 {
        var b :- ByteSequence();
        r := Ok(Bytes(b));
      } else if code == 63 {
        position := position + 1;
        if Here() != 48 && Here() != 49 { return Fail(InvalidBoolean, position); }
        r := Ok(Boolean(Here() == 49));
        position := position + 1;
      } else if code == 64 {
        position := position + 1;
        var n :- Number();
        if !n.Integer? { return Fail(InvalidNumber, start); }
        r := Ok(Date(n.integer));
      } else if code == 37 {
        var t :- Display();
        r := Ok(DisplayString(t));
      } else {
        r := Fail(if position == |source| then UnexpectedEnd else UnexpectedCharacter, position);
      }
    }

    method Params() returns (r: Outcome<seq<RawParameter>>)
      requires position <= |source|
      modifies this
      ensures Counts(r, ParametersFrom(lim, source, old(position), old(occurrences), []))
    {
      var params: seq<RawParameter> := [];
      while Here() == 59
        invariant position <= |source|
        invariant ParametersFrom(lim, source, old(position), old(occurrences), [])
               == ParametersFrom(lim, source, position, occurrences, params)
        decreases |source| - position
      {
        var _ :- CheckLimit(lim, MaxParameters, |params| + 1);
        var _ :- Count();
        var parameter :- Parameter();
        params := params + [parameter];
      }
      r := Ok(params);
    }

    method Parameter() returns (r: Outcome<RawParameter>)
      requires position < |source|
      modifies this`position
      ensures Reads(r, ParseParameter(lim, source, old(position)))
    {
      position := position + 1;
      Spaces(false);
      var key :- Key();
      if Here() == 61 {
        position := position + 1;
        var bare :- Bare();
        r := Ok(RawParameter(key, Some(bare)));
      } else {
        r := Ok(RawParameter(key, None));
      }
    }

    method Item() returns (r: Outcome<RawItem>)
      requires position <= |source|
      modifies this
      ensures Counts(r, ParseItem(lim, source, old(position), old(occurrences)))
    {
      var _ :- Count();
      var bare :- Bare();
      var params :- Params();
      r := Ok(RawItem(Some(bare), params));
    }

    /** The rest of an inner list whose parenthesis has been read and counted. */
    method InnerList() returns (r: Outcome<RawMember>)
      requires position <= |source|
      modifies this
      ensures Counts(r, InnerListFrom(lim, source, old(position), old(occurrences), []))
    {
      hide ParseItem, ParametersFrom, SkipSpaces;
      var items: seq<RawItem> := [];
      while position < |source|
        invariant position <= |source|
        invariant InnerListFrom(lim, source, old(position), old(occurrences), [])
               == InnerListFrom(lim, source, position, occurrences, items)
        decreases |source| - position
      {
        Spaces(false);
        if Here() == 41 {
          position := position + 1;
          var params :- Params();
          return Ok(RawInnerList(items, params));
        }
        var _ :- CheckLimit(lim, MaxInnerListItems, |items| + 1);
        var item :- Item();
        items := items + [item];
        if Here() != 32 && Here() != 41 { return Fail(UnexpectedCharacter, position); }
      }
      r := Fail(UnexpectedEnd, position);
    }

    method Member() returns (r: Outcome<RawMember>)
      requires position <= |source|
      modifies this
      ensures Counts(r, ParseMember(lim, source, old(position), old(occurrences)))
    {
      if Here() == 40 {
        var _ :- Count();
        position := position + 1;
        r := InnerList();
      } else {
        var item :- Item();
        r := Ok(RawItemMember(item));
      }
    }

    method Separator() returns (r: Outcome<bool>)
      requires position <= |source|
      modifies this`position
      ensures Reads(r, ParseSeparator(source, old(position)))
    {
      Spaces(true);
      if position == |source| { return Ok(false); }
      if Here() != 44 { return Fail(UnexpectedCharacter, position); }
      position := position + 1;
      Spaces(true);
      if position == |source| { return Fail(UnexpectedEnd, position); }
      r := Ok(true);
    }

    method List() returns (r: Outcome<seq<RawMember>>)
      requires position <= |source|
      modifies this
      ensures Counts(r, ListFrom(lim, source, old(position), old(occurrences), []))
    {
      var members: seq<RawMember> := [];
      while position < |source|
        invariant position <= |source|
        invariant ListFrom(lim, source, old(position), old(occurrences), [])
               == ListFrom(lim, source, position, occurrences, members)
        decreases |source| - position
      {
        var _ :- CheckLimit(lim, MaxMembers, |members| + 1);
        var member :- Member();
        members := members + [member];
        var more :- Separator();
        if !more { return Ok(members); }
      }
      r := Ok(members);
    }

    method Entry() returns (r: Outcome<RawEntry>)
      requires position <= |source|
      modifies this
      ensures Counts(r, ParseEntry(lim, source, old(position), old(occurrences)))
    {
      var key :- Key();
      var implied := Here() != 61;
      if !implied {
        position := position + 1;
        var member :- Member();
        r := Ok(RawEntry(key, implied, member));
      } else {
        var _ :- Count();
        var params :- Params();
        r := Ok(RawEntry(key, implied, RawItemMember(RawItem(None, params))));
      }
    }

    method Dictionary() returns (r: Outcome<seq<RawEntry>>)
      requires position <= |source|
      modifies this
      ensures Counts(r, DictionaryFrom(lim, source, old(position), old(occurrences), []))
    {
      var entries: seq<RawEntry> := [];
      while position < |source|
        invariant position <= |source|
        invariant DictionaryFrom(lim, source, old(position), old(occurrences), [])
               == DictionaryFrom(lim, source, position, occurrences, entries)
        decreases |source| - position
      {
        var _ :- CheckLimit(lim, MaxMembers, |entries| + 1);
        var entry :- Entry();
        entries := entries + [entry];
        var more :- Separator();
        if !more { return Ok(entries); }
      }
      r := Ok(entries);
    }

    method Field(fieldType: FieldType) returns (r: Outcome<RawField>)
      requires position == 0 && occurrences == 0
      modifies this
      ensures r == ParseField(lim, source, fieldType)
    {
      Spaces(false);
      var root: RawField;
      match fieldType {
        case DictionaryType =>
          var entries :- Dictionary();
          root := RawDictionaryField(entries);
        case ListType =>
          var members :- List();
          root := RawListField(members);
        case ItemType =>
          var item :- Item();
          root := RawItemField(item);
      }
      Spaces(false);
      if position != |source| { return Fail(TrailingData, position); }
      r := Ok(root);
    }
  }

  method ParseRaw(lim: Limits, input: Text, fieldType: FieldType) returns (r: Outcome<RawField>)
    ensures r == ParsedRaw(lim, input, fieldType)
  {
    var _ :- CheckLimit(lim, MaxInputBytes, |input|);
    for i := 0 to |input|
      invariant FirstNonAscii(input, 0) == FirstNonAscii(input, i)
    {
      if input[i] > 127 { return Fail(NonAscii, i); }
    }
    var parser := new Parser(lim, input);
    r := parser.Field(fieldType);
  }
}
