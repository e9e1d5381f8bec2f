/**
 * Whatever spells a part of a field within the limits is read as that part, wherever it stands in the text
 * and whatever follows it that may follow it: bare items, parameters, items, inner lists, members and entries.
 * Whole fields follow in the module after this one.
 */
module SfAccepted {
  import opened Basics
  import opened Digits
  import opened SfModel
  import opened SfParser
  import opened SfReading
  import opened SfGrammar
  import Base64
  import Utf8

  /** What may follow a member: the end, a tab, a space, a parenthesis or a comma. */
  predicate Closes(c: int) { c == -1 || c == 9 || c == 32 || c == 41 || c == 44 }

  predicate Stops(c: int) { Closes(c) || c == 59 }

  lemma AtParts(s: Text, p: nat, t: Text, k: nat)
    requires At(s, p, t) && k <= |t|
    ensures At(s, p, t[..k]) && At(s, p + k, t[k..]) && |t[..k]| == k
  {
    assert t == t[..k] + t[k..];
    AtSplit(s, p, t[..k], t[k..]);
  }

  lemma AtMiddle(s: Text, p: nat, t: Text, j: nat, k: nat)
    requires At(s, p, t) && j <= k <= |t|
    ensures At(s, p + j, t[j..k])
  {
    AtParts(s, p, t, k);
    AtParts(s, p, t[..k], j);
    assert t[..k][j..] == t[j..k];
  }

  // ---------------------------------------------------------------- numbers

  lemma SignIs(s: Text, p: nat, negative: bool, rest: Text)
    requires At(s, p, Minus(negative) + rest) && rest != [] && IsDigit(rest[0])
    ensures At(s, p + |Minus(negative)|, rest) && IsDigit(CodeAt(s, p + |Minus(negative)|))
    ensures if negative then CodeAt(s, p) == 45 else IsDigit(CodeAt(s, p))
  {
    AtSplit(s, p, Minus(negative), rest);
    AtIndex(s, p + |Minus(negative)|, rest, 0);
    if negative { AtIndex(s, p, Minus(negative), 0); }
  }

  lemma DigitsAccepted(s: Text, p: nat, t: Text, cap: nat)
    requires At(s, p, t) && AllDigits(t) && |t| <= cap && !IsDigit(CodeAt(s, p + |t|))
    ensures ScanDigits(s, p, p, cap, 0) == Ok(Cut(Parse(t), p + |t|))
  {
    assert t[..0] == [];
    DigitsRead(s, p, p, t, cap);
  }

  lemma IntegerAccepted(s: Text, p: nat, t: Text, v: int)
    requires At(s, p, t) && SpellsInteger(t, v) && Stops(CodeAt(s, p + |t|))
    ensures ParseNumber(s, p) == Ok(Cut(Integer(v), p + |t|))
    ensures CodeAt(s, p) == 45 || IsDigit(CodeAt(s, p))
  {
    hide At, ScanDigits, Parse;
    var negative: bool, digits: Text :| IntegerOf(t, v, negative, digits);
    SignIs(s, p, negative, digits);
    DigitsAccepted(s, p + |Minus(negative)|, digits, 15);
  }

  lemma DecimalAccepted(s: Text, p: nat, t: Text, v: int)
    requires At(s, p, t) && SpellsDecimal(t, v) && Stops(CodeAt(s, p + |t|))
    ensures ParseNumber(s, p) == Ok(Cut(Decimals(v), p + |t|))
    ensures CodeAt(s, p) == 45 || IsDigit(CodeAt(s, p))
  {
    hide At, ScanDigits, Parse, Pow10, ParseNumber, ParseFraction, SpellsDecimal, Minus, Signum;
    var negative, whole, part := DecimalParts(t, v);
    var start := p + |Minus(negative)|;
    var point := start + |whole|;
    SignIs(s, p, negative, whole + ([46] + part));
    PointBetween(s, start, whole, part);
    DigitsAccepted(s, start, whole, 15);
    FractionAccepted(s, point + 1, part);
    assert |t| == |Minus(negative)| + (|whole| + (1 + |part|));
    NumberAccepted(s, p, negative, start, Parse(whole), point, Parse(part) * Pow10(3 - |part|), p + |t|);
  }

  lemma DecimalParts(t: Text, v: int) returns (negative: bool, whole: Text, part: Text)
    requires SpellsDecimal(t, v)
    ensures t == Minus(negative) + (whole + ([46] + part)) && 1 <= |whole| <= 12 && 1 <= |part| <= 3
    ensures AllDigits(whole) && AllDigits(part)
    ensures v == Signum(negative, 1000 * Parse(whole) + Parse(part) * Pow10(3 - |part|))
  {
    negative, whole, part :| DecimalOf(t, v, negative, whole, part);
  }

  lemma FractionAccepted(s: Text, p: nat, part: Text)
    requires At(s, p, part) && 1 <= |part| <= 3 && AllDigits(part) && !IsDigit(CodeAt(s, p + |part|))
    ensures ParseFraction(s, p) == Ok(Cut(Parse(part) * Pow10(3 - |part|), p + |part|))
  {
    hide ScanDigits, Parse, Pow10, AllDigits;
    DigitsAccepted(s, p, part, 3);
  }

  lemma NumberAccepted(s: Text, p: nat, negative: bool, start: nat, whole: nat, point: nat, part: nat, next: nat)
    requires start == p + |Minus(negative)| && start <= |s| && point < |s| && point - start <= 12 && IsDigit(CodeAt(s, start))
    requires if negative then CodeAt(s, p) == 45 else IsDigit(CodeAt(s, p))
    requires ScanDigits(s, start, start, 15, 0) == Ok(Cut(whole, point)) && CodeAt(s, point) == 46
    requires ParseFraction(s, point + 1) == Ok(Cut(part, next))
    ensures ParseNumber(s, p) == Ok(Cut(Decimals(Signum(negative, 1000 * whole + part)), next))
  {
    hide ScanDigits, ParseFraction;
  }

  // ---------------------------------------------------------------- strings, bytes and display strings

  lemma {:induction false} CharsAccepted(lim: Limits, s: Text, p: nat, sofar: Text, t: Text, x: Text)
    requires At(s, p, t) && CodeAt(s, p + |t|) == 34 && SpellsChars(t, x) && |sofar| + |x| <= lim.maxDecodedBytes
    ensures StringFrom(lim, s, p, sofar) == Ok(Cut(sofar + x, p + |t| + 1))
    decreases |x|
  {
    hide At;
    if x == [] {
      assert sofar + x == sofar;
    } else {
      var n := if x[0] == 34 || x[0] == 92 then 2 else 1;
      AtIndex(s, p, t, 0);
      AtIndex(s, p, t, n - 1);
      AtParts(s, p, t, n);
      CharsAccepted(lim, s, p + n, sofar + [x[0]], t[n..], x[1..]);
      assert sofar + [x[0]] + x[1..] == sofar + x;
    }
  }

  lemma StrAccepted(lim: Limits, s: Text, p: nat, t: Text, x: Text)
    requires At(s, p, t) && SpellsBare(t, Str(x)) && |x| <= lim.maxDecodedBytes
    ensures ParseBare(lim, s, p) == Ok(Cut(Str(x), p + |t|))
  {
    hide At, StringFrom, SpellsChars;
    AtIndex(s, p, t, 0);
    AtIndex(s, p, t, |t| - 1);
    AtMiddle(s, p, t, 1, |t| - 1);
    CharsAccepted(lim, s, p + 1, [], t[1..|t| - 1], x);
    assert [] + x == x;
  }

  lemma BytesAccepted(lim: Limits, s: Text, p: nat, t: Text, b: seq<Byte>)
    requires At(s, p, t) && SpellsBare(t, Bytes(b)) && |b| <= lim.maxDecodedBytes
    ensures ParseBare(lim, s, p) == Ok(Cut(Bytes(b), p + |t|))
  {
    hide At, ParseBytes, Base64.AllAlphabet, Base64.Decode, SpellsBase64;
    var body := t[1..|t| - 1];
    var content, padding := Base64Parts(body, b);
    AtIndex(s, p, t, 0);
    assert t == [58] + (body + [58]);
    BytesReadParts(lim, s, p, content, padding);
  }

  lemma Base64Parts(t: Text, b: seq<Byte>) returns (content: Text, padding: Text)
    requires SpellsBase64(t, b)
    ensures t == content + padding && Base64.AllAlphabet(content) && forall i | 0 <= i < |padding| :: padding[i] == 61
    ensures Padded(|content|, |padding|) && |padding| <= 2 && b == Base64.Decode(content) && |content| * 6 / 8 == |b|
  {
    content, padding :| Base64Of(t, b, content, padding);
  }

  lemma HexRead(c: int, n: int)
    requires HexFigure(c, n)
    ensures Hex(c) && Nibble(c) == n
  {
  }

  lemma {:induction false} OctetsAccepted(lim: Limits, s: Text, p: nat, sofar: seq<Byte>, t: Text, b: seq<Byte>)
    requires At(s, p, t) && SpellsOctets(t, b) && |sofar| + |b| <= lim.maxDecodedBytes
    ensures DisplayFrom(lim, s, p, sofar) == DisplayFrom(lim, s, p + |t|, sofar + b)
    decreases |b|
  {
    hide At, Utf8.Decode, HexFigure;
    if b == [] {
      assert sofar + b == sofar;
    } else {
      var n := if t[0] == 37 then 3 else 1;
      AtIndex(s, p, t, 0);
      if n == 3 {
        AtIndex(s, p, t, 1);
        AtIndex(s, p, t, 2);
        HexRead(t[1], b[0] / 16);
        HexRead(t[2], b[0] % 16);
        assert Nibble(t[1]) * 16 + Nibble(t[2]) == b[0];
      }
      AtParts(s, p, t, n);
      OctetsAccepted(lim, s, p + n, sofar + [b[0]], t[n..], b[1..]);
      assert sofar + [b[0]] + b[1..] == sofar + b;
    }
  }

  lemma DisplayAccepted(lim: Limits, s: Text, p: nat, t: Text, x: Text)
    requires At(s, p, t) && SpellsBare(t, DisplayString(x)) && |Utf8.Encode(x)| <= lim.maxDecodedBytes
    ensures ParseBare(lim, s, p) == Ok(Cut(DisplayString(x), p + |t|))
  {
    hide At, DisplayFrom, SpellsOctets, Utf8.Encode, Utf8.Decode, Utf8.WellFormed;
    var bytes := Utf8.Encode(x);
    AtIndex(s, p, t, 0);
    AtIndex(s, p, t, 1);
    AtIndex(s, p, t, |t| - 1);
    AtMiddle(s, p, t, 2, |t| - 1);
    OctetsAccepted(lim, s, p + 2, [], t[2..|t| - 1], bytes);
    assert [] + bytes == bytes;
    Utf8.DecodeEncode(x);
    DisplayCloses(lim, s, p + |t| - 1, bytes, x);
    DisplayStarts(lim, s, p, x, p + |t|);
  }

  lemma TokenAccepted(lim: Limits, s: Text, p: nat, x: Text)
    requires At(s, p, x) && IsToken(x) && |x| <= lim.maxTokenLength && Stops(CodeAt(s, p + |x|))
    ensures ParseBare(lim, s, p) == Ok(Cut(Token(x), p + |x|))
  {
    hide ScanName, IsToken, Mark;
    TokenClass(x);
    AtIndex(s, p, x, 0);
    NameReads(lim, s, p, p, x, TokenName);
  }

  lemma BooleanAccepted(lim: Limits, s: Text, p: nat, flag: bool)
    requires At(s, p, [63, if flag then 49 else 48])
    ensures ParseBare(lim, s, p) == Ok(Cut(Boolean(flag), p + 2))
  {
    AtIndex(s, p, [63, if flag then 49 else 48], 0);
    AtIndex(s, p, [63, if flag then 49 else 48], 1);
  }

  lemma DateAccepted(lim: Limits, s: Text, p: nat, t: Text, v: int)
    requires At(s, p, t) && t != [] && t[0] == 64 && SpellsInteger(t[1..], v) && Stops(CodeAt(s, p + |t|))
    ensures ParseBare(lim, s, p) == Ok(Cut(Date(v), p + |t|))
  {
    hide At, ParseNumber, SpellsInteger;
    AtIndex(s, p, t, 0);
    AtParts(s, p, t, 1);
    IntegerAccepted(s, p + 1, t[1..], v);
  }

  lemma NumberBareAccepted(lim: Limits, s: Text, p: nat, t: Text, b: BareItem)
    requires At(s, p, t) && (b.Integer? || b.Decimals?) && SpellsBare(t, b) && Stops(CodeAt(s, p + |t|))
    ensures ParseBare(lim, s, p) == Ok(Cut(b, p + |t|))
  {
    hide At, ParseNumber, SpellsInteger, SpellsDecimal;
    match b {
      case Integer(v) => IntegerAccepted(s, p, t, v);
      case Decimals(v) => DecimalAccepted(s, p, t, v);
    }
  }

  lemma BareAccepted(lim: Limits, s: Text, p: nat, t: Text, b: BareItem)
    requires At(s, p, t) && SpellsBare(t, b) && BareWithin(lim, b) && Stops(CodeAt(s, p + |t|))
    ensures ParseBare(lim, s, p) == Ok(Cut(b, p + |t|))
  {
    hide At, ParseBare, SpellsInteger, SpellsDecimal, SpellsChars, SpellsBase64, SpellsOctets, IsToken, Utf8.Encode,
         Utf8.WellFormed, CodeAt, Stops;
    if b.Str? {
      StrAccepted(lim, s, p, t, b.text);
    } else if b.Token? {
      TokenAccepted(lim, s, p, t);
    } else if b.Bytes? {
      BytesAccepted(lim, s, p, t, b.bytes);
    } else if b.Boolean? {
      BooleanAccepted(lim, s, p, b.flag);
    } else if b.Date? {
      DateAccepted(lim, s, p, t, b.epochSeconds);
    } else if b.DisplayString? {
      DisplayAccepted(lim, s, p, t, b.display);
    } else {
      NumberBareAccepted(lim, s, p, t, b);
    }
  }

  /** No bare item begins with a space, a tab, a parenthesis, a comma or a semicolon. */
  lemma BareBegins(t: Text, b: BareItem)
    requires SpellsBare(t, b)
    ensures t != [] && t[0] != 9 && t[0] != 32 && t[0] != 40 && t[0] != 41 && t[0] != 44 && t[0] != 59
  {
    hide Parse, Pow10;
  }

  // ---------------------------------------------------------------- parameters and items

  lemma {:induction false} GapSkips(s: Text, p: nat, gap: Text)
    requires At(s, p, gap) && Gap(gap) && !Space(CodeAt(s, p + |gap|), false)
    ensures SkipSpaces(s, p, false) == p + |gap|
    decreases |gap|
  {
    hide At;
    if gap != [] {
      AtIndex(s, p, gap, 0);
      AtParts(s, p, gap, 1);
      GapSkips(s, p + 1, gap[1..]);
    }
  }

  lemma {:induction false} BlankSkips(s: Text, p: nat, blank: Text)
    requires At(s, p, blank) && Blank(blank) && !Space(CodeAt(s, p + |blank|), true)
    ensures SkipSpaces(s, p, true) == p + |blank|
    decreases |blank|
  {
    hide At;
    if blank != [] {
      AtIndex(s, p, blank, 0);
      AtParts(s, p, blank, 1);
      BlankSkips(s, p + 1, blank[1..]);
    }
  }

  lemma KeyAccepted(lim: Limits, s: Text, p: nat, k: Text)
    requires At(s, p, k) && IsKey(k) && |k| <= lim.maxKeyLength
    requires Stops(CodeAt(s, p + |k|)) || CodeAt(s, p + |k|) == 61
    ensures ParseKey(lim, s, p) == Ok(Cut(k, p + |k|)) && !Space(CodeAt(s, p), true)
  {
    hide At, ParseKey, ValidKey;
    KeyClass(k);
    AtIndex(s, p, k, 0);
    KeyReads(lim, s, p, k);
  }

  predicate ParameterWithin(lim: Limits, q: RawParameter) {
    |q.key| <= lim.maxKeyLength && (q.bare.Some? ==> BareWithin(lim, q.bare.value))
  }

  lemma ParameterPieces(t: Text, q: RawParameter) returns (gap: Text, value: Text)
    requires SpellsParameter(t, q)
    ensures ParameterOf(t, q, gap, value)
  {
    gap, value :| ParameterOf(t, q, gap, value);
  }

  lemma ParameterAccepted(lim: Limits, s: Text, p: nat, t: Text, q: RawParameter)
    requires At(s, p, t) && SpellsParameter(t, q) && ParameterWithin(lim, q) && Stops(CodeAt(s, p + |t|))
    ensures CodeAt(s, p) == 59 && ParseParameter(lim, s, p) == Ok(Cut(q, p + |t|))
  {
    hide At, ParseKey, ParseBare, ParseParameter, SkipSpaces, SpellsBare, SpellsParameter, SpellsValue, IsKey, BareWithin, Closes;
    var gap, value := ParameterPieces(t, q);
    var start := p + 1 + |gap|;
    AtSplit(s, p, [59], gap + (q.key + value));
    AtIndex(s, p, [59], 0);
    AtSplit(s, p + 1, gap, q.key + value);
    AtSplit(s, start, q.key, value);
    assert p + |t| == start + |q.key| + |value|;
    ValueAccepted(lim, s, start + |q.key|, value, q);
    KeyAccepted(lim, s, start, q.key);
    GapSkips(s, p + 1, gap);
    ParameterStep(lim, s, p, start, p + |t|, q);
  }

  /** What stands after a key is a bare item after an equals sign, or nothing. */
  ghost predicate Reads(lim: Limits, s: Text, p: nat, next: nat, bare: Option<BareItem>)
    requires p <= |s|
  {
    if bare.None? then CodeAt(s, p) != 61 && next == p
    else CodeAt(s, p) == 61 && ParseBare(lim, s, p + 1) == Ok(Cut(bare.value, next))
  }

  lemma ValueAccepted(lim: Limits, s: Text, p: nat, value: Text, q: RawParameter)
    requires At(s, p, value) && SpellsValue(value, q.bare) && ParameterWithin(lim, q) && Stops(CodeAt(s, p + |value|))
    ensures Reads(lim, s, p, p + |value|, q.bare) && (Stops(CodeAt(s, p)) || CodeAt(s, p) == 61)
  {
    hide At, ParseBare, SpellsBare, BareWithin;
    if q.bare.Some? {
      AtIndex(s, p, value, 0);
      AtParts(s, p, value, 1);
      BareAccepted(lim, s, p + 1, value[1..], q.bare.value);
    }
  }

  lemma ParameterStep(lim: Limits, s: Text, p: nat, start: nat, next: nat, q: RawParameter)
    requires p < |s| && SkipSpaces(s, p + 1, false) == start && ParseKey(lim, s, start) == Ok(Cut(q.key, start + |q.key|))
    requires Reads(lim, s, start + |q.key|, next, q.bare)
    ensures ParseParameter(lim, s, p) == Ok(Cut(q, next))
  {
    hide ParseKey, ParseBare, SkipSpaces, CodeAt;
  }

  lemma ParametersBegin(t: Text, ps: seq<RawParameter>)
    requires SpellsParameters(t, ps)
    ensures ps == [] ==> t == []
    ensures ps != [] ==> t != [] && t[0] == 59
  {
    if ps != [] {
      var k: nat :| k <= |t| && SpellsParameter(t[..k], ps[0]) && SpellsParameters(t[k..], ps[1..]);
      var gap, value := ParameterPieces(t[..k], ps[0]);
      assert t[0] == t[..k][0];
    }
  }

  /** What follows a value: its parameters, or what follows those. */
  lemma ParametersStop(s: Text, p: nat, t: Text, ps: seq<RawParameter>)
    requires At(s, p, t) && SpellsParameters(t, ps) && Closes(CodeAt(s, p + |t|))
    ensures Stops(CodeAt(s, p))
  {
    hide At;
    ParametersBegin(t, ps);
    if ps != [] {
      AtIndex(s, p, t, 0);
    }
  }

  lemma {:induction false} ParametersAccepted(
    lim: Limits, s: Text, p: nat, occurrences: nat, sofar: seq<RawParameter>, t: Text, ps: seq<RawParameter>)
    requires At(s, p, t) && SpellsParameters(t, ps) && (forall i | 0 <= i < |ps| :: ParameterWithin(lim, ps[i]))
    requires |sofar| + |ps| <= lim.maxParameters && occurrences + |ps| <= lim.maxTotalOccurrences
    requires Closes(CodeAt(s, p + |t|))
    ensures ParametersFrom(lim, s, p, occurrences, sofar) == Ok(Parsed(sofar + ps, p + |t|, occurrences + |ps|))
    decreases |ps|
  {
    hide At, ParseParameter, SpellsParameter, ParameterWithin, Stops;
    if ps == [] {
      assert sofar + ps == sofar;
    } else {
      var k: nat :| k <= |t| && SpellsParameter(t[..k], ps[0]) && SpellsParameters(t[k..], ps[1..]);
      AtParts(s, p, t, k);
      ParametersStop(s, p + k, t[k..], ps[1..]);
      ParameterAccepted(lim, s, p, t[..k], ps[0]);
      ParametersAccepted(lim, s, p + k, occurrences + 1, sofar + [ps[0]], t[k..], ps[1..]);
      assert (sofar + [ps[0]]) + ps[1..] == sofar + ps;
    }
  }

  lemma AllParametersAccepted(lim: Limits, s: Text, p: nat, occurrences: nat, t: Text, ps: seq<RawParameter>)
    requires At(s, p, t) && SpellsParameters(t, ps) && ParametersWithin(lim, ps)
    requires occurrences + |ps| <= lim.maxTotalOccurrences && Closes(CodeAt(s, p + |t|))
    ensures ParametersFrom(lim, s, p, occurrences, []) == Ok(Parsed(ps, p + |t|, occurrences + |ps|))
  {
    hide At, SpellsParameters, ParametersFrom;
    ParametersAccepted(lim, s, p, occurrences, [], t, ps);
    assert [] + ps == ps;
  }

  lemma ItemAccepted(lim: Limits, s: Text, p: nat, occurrences: nat, t: Text, i: RawItem)
    requires At(s, p, t) && SpellsItem(t, i) && ItemWithin(lim, i) && occurrences + CountItem(i) <= lim.maxTotalOccurrences
    requires Closes(CodeAt(s, p + |t|))
    ensures ParseItem(lim, s, p, occurrences) == Ok(Parsed(i, p + |t|, occurrences + CountItem(i)))
  {
    hide At, ParseBare, ParametersFrom, SpellsBare, SpellsParameters, BareWithin, ParametersWithin;
    var k: nat :| k <= |t| && SpellsBare(t[..k], i.bare.value) && SpellsParameters(t[k..], i.params);
    AtParts(s, p, t, k);
    ParametersStop(s, p + k, t[k..], i.params);
    BareAccepted(lim, s, p, t[..k], i.bare.value);
    AllParametersAccepted(lim, s, p + k, occurrences + 1, t[k..], i.params);
  }

  lemma ItemBegins(t: Text, i: RawItem)
    requires SpellsItem(t, i)
    ensures t != [] && t[0] != 9 && t[0] != 32 && t[0] != 40 && t[0] != 41 && t[0] != 44 && t[0] != 59
  {
    hide SpellsBare, SpellsParameters;
    var k: nat :| k <= |t| && SpellsBare(t[..k], i.bare.value) && SpellsParameters(t[k..], i.params);
    BareBegins(t[..k], i.bare.value);
    assert t[0] == t[..k][0];
  }

  lemma ItemsEnd(s: Text, p: nat, t: Text)
    requires At(s, p, t) && SpellsItems(t, [])
    ensures p < |s| && SkipSpaces(s, p, false) == p + |t| - 1 && CodeAt(s, p + |t| - 1) == 41
  {
    hide At;
    AtParts(s, p, t, |t| - 1);
    AtIndex(s, p, t, |t| - 1);
    AtIndex(s, p, t, 0);
    GapSkips(s, p, t[..|t| - 1]);
  }

  lemma ItemsPieces(t: Text, items: seq<RawItem>) returns (j: nat, k: nat)
    requires SpellsItems(t, items) && items != []
    ensures j <= k < |t| && Gap(t[..j]) && SpellsItem(t[j..k], items[0])
    ensures (t[k] == 32 || t[k] == 41) && SpellsItems(t[k..], items[1..])
  {
    hide SpellsItem, Gap;
    j, k :| j <= k < |t| && Gap(t[..j]) && SpellsItem(t[j..k], items[0])
            && (t[k] == 32 || t[k] == 41) && SpellsItems(t[k..], items[1..]);
  }

  lemma ItemStep(lim: Limits, s: Text, p: nat, q: nat, occurrences: nat, sofar: seq<RawItem>, item: Parsed<RawItem>)
    requires p < |s| && q == SkipSpaces(s, p, false) && CodeAt(s, q) != 41 && |sofar| < lim.maxInnerListItems
    requires ParseItem(lim, s, q, occurrences) == Ok(item) && (CodeAt(s, item.next) == 32 || CodeAt(s, item.next) == 41)
    ensures InnerListFrom(lim, s, p, occurrences, sofar)
         == InnerListFrom(lim, s, item.next, item.occurrences, sofar + [item.value])
  {
    hide ParseItem, SkipSpaces, ParametersFrom;
  }

  lemma ItemsStep(lim: Limits, s: Text, p: nat, occurrences: nat, sofar: seq<RawItem>, t: Text, i: RawItem, j: nat, k: nat)
    requires At(s, p, t) && j <= k < |t| && Gap(t[..j]) && SpellsItem(t[j..k], i) && (t[k] == 32 || t[k] == 41)
    requires ItemWithin(lim, i) && |sofar| < lim.maxInnerListItems && occurrences + CountItem(i) <= lim.maxTotalOccurrences
    ensures At(s, p + k, t[k..])
    ensures InnerListFrom(lim, s, p, occurrences, sofar)
         == InnerListFrom(lim, s, p + k, occurrences + CountItem(i), sofar + [i])
  {
    hide At, ParseItem, InnerListFrom, SkipSpaces, SpellsItem, ItemWithin, CountItem, Gap;
    AtParts(s, p, t, j);
    AtMiddle(s, p, t, j, k);
    AtParts(s, p, t, k);
    AtIndex(s, p, t, k);
    ItemBegins(t[j..k], i);
    AtIndex(s, p + j, t[j..k], 0);
    GapSkips(s, p, t[..j]);
    ItemAccepted(lim, s, p + j, occurrences, t[j..k], i);
    ItemStep(lim, s, p, p + j, occurrences, sofar, Parsed(i, p + k, occurrences + CountItem(i)));
  }

  lemma ItemsClose(lim: Limits, s: Text, p: nat, occurrences: nat, sofar: seq<RawItem>, t: Text, u: Text, ps: seq<RawParameter>)
    requires At(s, p, t) && SpellsItems(t, []) && At(s, p + |t|, u) && SpellsParameters(u, ps) && ParametersWithin(lim, ps)
    requires occurrences + |ps| <= lim.maxTotalOccurrences && Closes(CodeAt(s, p + |t| + |u|))
    ensures InnerListFrom(lim, s, p, occurrences, sofar)
         == Ok(Parsed(RawInnerList(sofar, ps), p + |t| + |u|, occurrences + |ps|))
  {
    hide At, ParseItem, ParametersFrom, SkipSpaces, SpellsItems, SpellsParameters, ParametersWithin;
    ItemsEnd(s, p, t);
    AllParametersAccepted(lim, s, p + |t|, occurrences, u, ps);
  }

  /** The items of an inner list, its parenthesis and its parameters. */
  lemma {:induction false} ItemsAccepted(
    lim: Limits, s: Text, p: nat, occurrences: nat, sofar: seq<RawItem>, t: Text, items: seq<RawItem>,
    u: Text, ps: seq<RawParameter>)
    requires At(s, p, t) && SpellsItems(t, items) && At(s, p + |t|, u) && SpellsParameters(u, ps)
    requires (forall i | 0 <= i < |items| :: ItemWithin(lim, items[i])) && ParametersWithin(lim, ps)
    requires |sofar| + |items| <= lim.maxInnerListItems && occurrences + CountItems(items) + |ps| <= lim.maxTotalOccurrences
    requires Closes(CodeAt(s, p + |t| + |u|))
    ensures InnerListFrom(lim, s, p, occurrences, sofar)
         == Ok(Parsed(RawInnerList(sofar + items, ps), p + |t| + |u|, occurrences + CountItems(items) + |ps|))
    decreases |items|
  {
    hide At, InnerListFrom, SpellsItem, SpellsItems, SpellsParameters, ItemWithin, ParametersWithin, CountItem, CodeAt, Closes, Gap;
    if items == [] {
      ItemsClose(lim, s, p, occurrences, sofar, t, u, ps);
      assert sofar + items == sofar;
    } else {
      var j, k := ItemsPieces(t, items);
      ItemsStep(lim, s, p, occurrences, sofar, t, items[0], j, k);
      ItemsAccepted(lim, s, p + k, occurrences + CountItem(items[0]), sofar + [items[0]], t[k..], items[1..], u, ps);
      assert (sofar + [items[0]]) + items[1..] == sofar + items;
    }
  }

  lemma MemberAccepted(lim: Limits, s: Text, p: nat, occurrences: nat, t: Text, m: RawMember)
    requires At(s, p, t) && SpellsMember(t, m) && MemberWithin(lim, m) && occurrences + CountMember(m) <= lim.maxTotalOccurrences
    requires Closes(CodeAt(s, p + |t|))
    ensures ParseMember(lim, s, p, occurrences) == Ok(Parsed(m, p + |t|, occurrences + CountMember(m)))
  {
    hide At, ParseItem, InnerListFrom, SpellsItem, SpellsItems, SpellsParameters, ItemWithin, ParametersWithin, CountItem, CountItems;
    match m {
      case RawItemMember(i) =>
        ItemBegins(t, i);
        AtIndex(s, p, t, 0);
        ItemAccepted(lim, s, p, occurrences, t, i);
      case RawInnerList(items, ps) =>
        var k: nat :| 1 <= k <= |t| && SpellsItems(t[1..k], items) && SpellsParameters(t[k..], ps);
        AtIndex(s, p, t, 0);
        AtMiddle(s, p, t, 1, k);
        AtParts(s, p, t, k);
        ItemsAccepted(lim, s, p + 1, occurrences + 1, [], t[1..k], items, t[k..], ps);
        assert [] + items == items;
    }
  }

  lemma MemberBegins(t: Text, m: RawMember)
    requires SpellsMember(t, m)
    ensures t != [] && t[0] != 9 && t[0] != 32 && t[0] != 44
  {
    hide SpellsItem, SpellsItems, SpellsParameters;
    if m.RawItemMember? {
      ItemBegins(t, m.item);
    }
  }

  lemma ImpliedStep(lim: Limits, s: Text, p: nat, occurrences: nat, key: Text, q: nat, ps: Parsed<seq<RawParameter>>)
    requires p <= q <= |s| && ParseKey(lim, s, p) == Ok(Cut(key, q)) && CodeAt(s, q) != 61
    requires occurrences < lim.maxTotalOccurrences && ParametersFrom(lim, s, q, occurrences + 1, []) == Ok(ps)
    ensures ParseEntry(lim, s, p, occurrences)
         == Ok(Parsed(RawEntry(key, true, RawItemMember(RawItem(None, ps.value))), ps.next, ps.occurrences))
  {
    hide ParseKey, ParametersFrom, ParseMember, CodeAt;
  }

  lemma ValuedStep(lim: Limits, s: Text, p: nat, occurrences: nat, key: Text, q: nat, m: Parsed<RawMember>)
    requires p <= q < |s| && ParseKey(lim, s, p) == Ok(Cut(key, q)) && CodeAt(s, q) == 61
    requires ParseMember(lim, s, q + 1, occurrences) == Ok(m)
    ensures ParseEntry(lim, s, p, occurrences) == Ok(Parsed(RawEntry(key, false, m.value), m.next, m.occurrences))
  {
    hide ParseKey, ParametersFrom, ParseMember, CodeAt;
  }

  lemma EntryAccepted(lim: Limits, s: Text, p: nat, occurrences: nat, t: Text, e: RawEntry)
    requires At(s, p, t) && SpellsEntry(t, e) && EntryWithin(lim, e)
    requires occurrences + CountMember(e.member) <= lim.maxTotalOccurrences && Closes(CodeAt(s, p + |t|))
    ensures ParseEntry(lim, s, p, occurrences) == Ok(Parsed(e, p + |t|, occurrences + CountMember(e.member)))
  {
    hide At, ParseKey, ParseEntry, ParseMember, ParametersFrom, SpellsMember, SpellsParameters, IsKey, MemberWithin, CountMember;
    var k := |e.key|;
    var rest := t[k..];
    AtParts(s, p, t, k);
    if e.implied {
      Implied(lim, e);
      ImpliedAccepted(lim, s, p, occurrences, e.key, rest, e.member.item.params);
      assert e == RawEntry(e.key, true, RawItemMember(RawItem(None, e.member.item.params)));
    } else {
      AtIndex(s, p + k, rest, 0);
      AtParts(s, p + k, rest, 1);
      KeyAccepted(lim, s, p, e.key);
      MemberAccepted(lim, s, p + k + 1, occurrences, rest[1..], e.member);
      ValuedStep(lim, s, p, occurrences, e.key, p + k, Parsed(e.member, p + |t|, occurrences + CountMember(e.member)));
    }
  }

  lemma Implied(lim: Limits, e: RawEntry)
    requires EntryWithin(lim, e) && e.member.RawItemMember?
    ensures |e.key| <= lim.maxKeyLength && ParametersWithin(lim, e.member.item.params)
    ensures CountMember(e.member) == 1 + |e.member.item.params|
  {
  }

  lemma ImpliedAccepted(lim: Limits, s: Text, p: nat, occurrences: nat, key: Text, rest: Text, ps: seq<RawParameter>)
    requires At(s, p, key) && At(s, p + |key|, rest) && IsKey(key) && |key| <= lim.maxKeyLength
    requires SpellsParameters(rest, ps) && ParametersWithin(lim, ps)
    requires occurrences + 1 + |ps| <= lim.maxTotalOccurrences && Closes(CodeAt(s, p + |key| + |rest|))
    ensures ParseEntry(lim, s, p, occurrences)
         == Ok(Parsed(RawEntry(key, true, RawItemMember(RawItem(None, ps))), p + |key| + |rest|, occurrences + 1 + |ps|))
  {
    hide At, ParseKey, ParseEntry, ParametersFrom, SpellsParameters, IsKey, ParametersWithin;
    var q := p + |key|;
    ParametersStop(s, q, rest, ps);
    KeyAccepted(lim, s, p, key);
    AllParametersAccepted(lim, s, q, occurrences + 1, rest, ps);
    ImpliedStep(lim, s, p, occurrences, key, q, Parsed(ps, q + |rest|, occurrences + 1 + |ps|));
  }

  lemma EntryBegins(t: Text, e: RawEntry)
    requires SpellsEntry(t, e)
    ensures t != [] && t[0] != 9 && t[0] != 32 && t[0] != 44
  {
    hide SpellsMember, SpellsParameters;
    assert t[0] == e.key[0];
  }
}
