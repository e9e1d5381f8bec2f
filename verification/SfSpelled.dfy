/**
 * What the parser reads is what the text spells: wherever the parser succeeds, the characters it passed
 * over are, by the grammar, a spelling of what it returned, for bare items, parameters, items, inner lists,
 * members, entries and whole fields.
 */
module SfSpelled {
  import opened Basics
  import opened Digits
  import opened SfModel
  import opened SfParser
  import opened SfGrammar
  import SfParsed
  import Base64
  import Utf8

  lemma Slice(s: Text, p: nat, q: nat, a: nat, b: nat)
    requires p <= q <= |s| && a <= b <= q - p
    ensures s[p..q][a..b] == s[p + a..p + b]
    ensures s[p..q][..b] == s[p..p + b] && s[p..q][a..] == s[p + a..q]
  {
    var t, u := s[p..q][a..b], s[p + a..p + b];
    assert |t| == |u| == b - a;
    assert forall i | 0 <= i < b - a :: t[i] == s[p + a + i] == u[i];
  }

  lemma SliceAt(s: Text, p: nat, q: nat, k: nat)
    requires p <= q <= |s| && k < q - p
    ensures s[p..q][k] == s[p + k]
  {
  }

  lemma SliceJoins(s: Text, p: nat, k: nat, q: nat)
    requires p <= k <= q <= |s|
    ensures s[p..q] == s[p..k] + s[k..q]
  {
  }

  lemma FourParts(s: Text, p: nat, a: nat, b: nat, c: nat, q: nat)
    requires p <= a <= b <= c <= q <= |s|
    ensures s[p..q] == s[p..a] + (s[a..b] + (s[b..c] + s[c..q]))
  {
    SliceJoins(s, b, c, q);
    SliceJoins(s, a, b, q);
    SliceJoins(s, p, a, q);
  }

  // ---------------------------------------------------------------- numbers

  lemma {:induction false} DigitsSpelled(s: Text, start: nat, p: nat, cap: nat, value: nat)
    requires start <= p <= |s| && AllDigits(s[start..p]) && value == Parse(s[start..p])
    requires p - start <= cap && ScanDigits(s, start, p, cap, value).Ok?
    ensures var r := ScanDigits(s, start, p, cap, value).value;
      && r.next - start <= cap && AllDigits(s[start..r.next]) && r.value == Parse(s[start..r.next])
    decreases |s| - p
  {
    if IsDigit(CodeAt(s, p)) {
      var more := s[start..p + 1];
      assert more[..|more| - 1] == s[start..p];
      DigitsSpelled(s, start, p + 1, cap, value * 10 + (CodeAt(s, p) - 48));
    }
  }

  lemma DigitsFromStart(s: Text, start: nat, cap: nat)
    requires start <= |s| && ScanDigits(s, start, start, cap, 0).Ok?
    ensures var r := ScanDigits(s, start, start, cap, 0).value;
      && r.next - start <= cap && AllDigits(s[start..r.next]) && r.value == Parse(s[start..r.next])
  {
    assert s[start..start] == [];
    DigitsSpelled(s, start, start, cap, 0);
  }

  lemma {:induction false} SomeDigits(s: Text, start: nat, p: nat, cap: nat, value: nat)
    requires start <= p <= |s| && IsDigit(CodeAt(s, p)) && ScanDigits(s, start, p, cap, value).Ok?
    ensures ScanDigits(s, start, p, cap, value).value.next > p
  {
  }

  lemma NumberSpelled(s: Text, p: nat)
    requires p <= |s| && ParseNumber(s, p).Ok?
    ensures var r := ParseNumber(s, p).value;
      if r.value.Integer? then SpellsInteger(s[p..r.next], r.value.integer)
      else r.value.Decimals? && SpellsDecimal(s[p..r.next], r.value.thousandths)
  {
    hide ScanDigits, Parse, Pow10, AllDigits, SpellsInteger, SpellsDecimal;
    var r := ParseNumber(s, p).value;
    var negative := CodeAt(s, p) == 45;
    var start := if negative then p + 1 else p;
    DigitsFromStart(s, start, 15);
    SomeDigits(s, start, start, 15, 0);
    var whole := ScanDigits(s, start, start, 15, 0).value;
    var digits := s[start..whole.next];
    assert s[p..start] == Minus(negative);
    if CodeAt(s, whole.next) != 46 {
      SliceJoins(s, p, start, whole.next);
      IntegerIs(negative, digits);
    } else {
      DigitsFromStart(s, whole.next + 1, 3);
      var part := s[whole.next + 1..r.next];
      FourParts(s, p, start, whole.next, whole.next + 1, r.next);
      assert s[whole.next..whole.next + 1] == [46];
      DecimalIs(negative, digits, part);
    }
  }

  lemma IntegerIs(negative: bool, digits: Text)
    requires 1 <= |digits| <= 15 && AllDigits(digits)
    ensures SpellsInteger(Minus(negative) + digits, Signum(negative, Parse(digits)))
  {
    assert IntegerOf(Minus(negative) + digits, Signum(negative, Parse(digits)), negative, digits);
  }

  lemma DecimalIs(negative: bool, whole: Text, part: Text)
    requires 1 <= |whole| <= 12 && 1 <= |part| <= 3 && AllDigits(whole) && AllDigits(part)
    ensures SpellsDecimal(Minus(negative) + (whole + ([46] + part)),
                          Signum(negative, 1000 * Parse(whole) + Parse(part) * Pow10(3 - |part|)))
  {
    assert DecimalOf(Minus(negative) + (whole + ([46] + part)),
                     Signum(negative, 1000 * Parse(whole) + Parse(part) * Pow10(3 - |part|)), negative, whole, part);
  }

  // ---------------------------------------------------------------- strings, bytes and display strings

  lemma {:induction false} CharsSpelled(lim: Limits, s: Text, p: nat, sofar: Text)
    requires p <= |s| && StringFrom(lim, s, p, sofar).Ok?
    ensures var r := StringFrom(lim, s, p, sofar).value;
      && r.next > p && s[r.next - 1] == 34 && sofar <= r.value
      && SpellsChars(s[p..r.next - 1], r.value[|sofar|..])
    decreases |s| - p
  {
    var r := StringFrom(lim, s, p, sofar).value;
    if s[p] == 92 {
      var c := s[p + 1];
      CharsSpelled(lim, s, p + 2, sofar + [c]);
      assert r.value[|sofar|] == c;
      assert r.value[|sofar|..][1..] == r.value[|sofar + [c]|..];
      Slice(s, p, r.next - 1, 2, r.next - 1 - p);
    } else if s[p] != 34 {
      CharsSpelled(lim, s, p + 1, sofar + [s[p]]);
      assert r.value[|sofar|] == s[p];
      assert r.value[|sofar|..][1..] == r.value[|sofar + [s[p]]|..];
      Slice(s, p, r.next - 1, 1, r.next - 1 - p);
    }
  }

  lemma {:induction false} ContentSpelled(lim: Limits, s: Text, start: nat, p: nat, padding: nat)
    requires start + padding <= p <= |s| && Base64.AllAlphabet(s[start..p - padding])
    requires (forall i | p - padding <= i < p :: s[i] == 61) && ScanBytes(lim, s, start, p, padding).Ok?
    ensures var r := ScanBytes(lim, s, start, p, padding).value;
      (forall i | r.next - r.value <= i < r.next :: s[i] == 61) && (r.next < |s| ==> s[r.next] == 58)
    decreases |s| - p
  {
    hide Base64.Alphabet;
    if p < |s| && s[p] != 58 {
      if s[p] == 61 {
        ContentSpelled(lim, s, start, p + 1, padding + 1);
      } else {
        assert s[start..p + 1] == s[start..p] + [s[p]];
        ContentSpelled(lim, s, start, p + 1, 0);
      }
    }
  }

  lemma Base64Spelled(lim: Limits, s: Text, p: nat)
    requires p < |s| && s[p] == 58 && ParseBytes(lim, s, p).Ok?
    ensures var r := ParseBytes(lim, s, p).value; SpellsBare(s[p..r.next], Bytes(r.value))
  {
    hide ScanBytes, CloseBytes, SpellsBase64;
    ContentSpelled(lim, s, p + 1, p + 1, 0);
    var scan := ScanBytes(lim, s, p + 1, p + 1, 0).value;
    ClosedSpelled(s, p + 1, scan);
    var r := ParseBytes(lim, s, p).value;
    var t := s[p..r.next];
    Slice(s, p, r.next, 1, |t| - 1);
    assert t[|t| - 1] == s[scan.next];
  }

  lemma ClosedSpelled(s: Text, start: nat, scan: Cut<nat>)
    requires start + scan.value <= scan.next <= |s| && Base64.AllAlphabet(s[start..scan.next - scan.value])
    requires (forall i | scan.next - scan.value <= i < scan.next :: s[i] == 61) && CloseBytes(s, start, scan).Ok?
    ensures var r := CloseBytes(s, start, scan).value;
      && r.next == scan.next + 1 && scan.next < |s| && s[scan.next] == 58
      && SpellsBase64(s[start..scan.next], r.value)
  {
    hide SpellsBase64, Base64.Decode, Base64.AllAlphabet;
    var middle := scan.next - scan.value;
    var content, padding := s[start..middle], s[middle..scan.next];
    SliceJoins(s, start, middle, scan.next);
    assert |padding| == scan.value && forall i | 0 <= i < |padding| :: padding[i] == 61;
    PaddedSpelling(content, padding);
  }

  lemma PaddedSpelling(content: Text, padding: Text)
    requires Base64.AllAlphabet(content) && (forall i | 0 <= i < |padding| :: padding[i] == 61)
    requires |content| % 4 != 1 && |padding| <= (4 - |content| % 4) % 4
    ensures SpellsBase64(content + padding, Base64.Decode(content))
  {
    assert Base64Of(content + padding, Base64.Decode(content), content, padding);
  }

  lemma HexMeaning(c: int, d: int)
    requires Hex(c) && Hex(d)
    ensures var b := Nibble(c) * 16 + Nibble(d); HexFigure(c, b / 16) && HexFigure(d, b % 16) && b < 256
  {
  }

  lemma {:induction false} EscapedOctet(s: Text, p: nat, q: nat, all: seq<Byte>, n: nat)
    requires p + 3 <= q <= |s| && n < |all| && s[p] == 37
    requires HexFigure(s[p + 1], all[n] / 16) && HexFigure(s[p + 2], all[n] % 16)
    requires SpellsOctets(s[p + 3..q], all[n + 1..])
    ensures SpellsOctets(s[p..q], all[n..])
  {
    hide HexFigure;
    Slice(s, p, q, 3, q - p);
    var t, b := s[p..q], all[n..];
    assert b[1..] == all[n + 1..] && b[0] == all[n];
    assert t[0] == s[p] && t[1] == s[p + 1] && t[2] == s[p + 2];
  }

  lemma {:induction false} PlainOctet(s: Text, p: nat, q: nat, all: seq<Byte>, n: nat)
    requires p + 1 <= q <= |s| && n < |all| && s[p] == all[n] && Visible(s[p]) && s[p] != 34 && s[p] != 37
    requires SpellsOctets(s[p + 1..q], all[n + 1..])
    ensures SpellsOctets(s[p..q], all[n..])
  {
    Slice(s, p, q, 1, q - p);
    var t, b := s[p..q], all[n..];
    assert b[1..] == all[n + 1..] && b[0] == all[n] && t[0] == s[p];
  }

  lemma {:induction false} OctetsSpelled(lim: Limits, s: Text, p: nat, bytes: seq<Byte>) returns (all: seq<Byte>)
    requires p <= |s| && DisplayFrom(lim, s, p, bytes).Ok?
    ensures var r := DisplayFrom(lim, s, p, bytes).value;
      && r.next > p && s[r.next - 1] == 34 && bytes <= all && Utf8.Decode(all) == Some(r.value)
      && SpellsOctets(s[p..r.next - 1], all[|bytes|..])
    decreases |s| - p
  {
    hide Utf8.Decode, HexFigure, SpellsOctets;
    var r := DisplayFrom(lim, s, p, bytes).value;
    if s[p] == 34 {
      all := bytes;
      NoOctets();
      assert s[p..r.next - 1] == [] && all[|bytes|..] == [];
    } else if s[p] == 37 {
      HexMeaning(s[p + 1], s[p + 2]);
      var b := Nibble(s[p + 1]) * 16 + Nibble(s[p + 2]);
      all := OctetsSpelled(lim, s, p + 3, bytes + [b]);
      assert all[|bytes|] == b;
      EscapedOctet(s, p, r.next - 1, all, |bytes|);
    } else {
      all := OctetsSpelled(lim, s, p + 1, bytes + [s[p]]);
      assert all[|bytes|] == s[p];
      PlainOctet(s, p, r.next - 1, all, |bytes|);
    }
  }

  lemma NoOctets()
    ensures SpellsOctets([], [])
  {
  }

  lemma DisplaySpelled(lim: Limits, s: Text, p: nat)
    requires p <= |s| && CodeAt(s, p) == 37 && CodeAt(s, p + 1) == 34 && DisplayFrom(lim, s, p + 2, []).Ok?
    ensures var r := DisplayFrom(lim, s, p + 2, []).value; SpellsBare(s[p..r.next], DisplayString(r.value))
  {
    hide DisplayFrom, Utf8.Decode, Utf8.Encode, Utf8.WellFormed;
    var r := DisplayFrom(lim, s, p + 2, []).value;
    var all := OctetsSpelled(lim, s, p + 2, []);
    Utf8.EncodeDecode(all, r.value);
    var t := s[p..r.next];
    Slice(s, p, r.next, 2, |t| - 1);
    assert all[0..] == all;
    assert t[|t| - 1] == s[r.next - 1];
  }

  lemma StrSpelled(lim: Limits, s: Text, p: nat)
    requires p <= |s| && CodeAt(s, p) == 34 && StringFrom(lim, s, p + 1, []).Ok?
    ensures var r := StringFrom(lim, s, p + 1, []).value; SpellsBare(s[p..r.next], Str(r.value))
  {
    hide StringFrom;
    var r := StringFrom(lim, s, p + 1, []).value;
    CharsSpelled(lim, s, p + 1, []);
    var t := s[p..r.next];
    Slice(s, p, r.next, 1, |t| - 1);
    assert r.value[0..] == r.value;
    assert t[|t| - 1] == s[r.next - 1];
  }

  lemma TokenSpelled(lim: Limits, s: Text, p: nat)
    requires p <= |s| && TokenFirst(CodeAt(s, p)) && ScanName(lim, s, p, p, TokenName).Ok?
    ensures var t := s[p..ScanName(lim, s, p, p, TokenName).value]; SpellsBare(t, Token(t))
  {
    hide ScanName, IsToken, ValidToken;
    SfParsed.TokenIsValid(lim, s, p);
    TokenClass(s[p..ScanName(lim, s, p, p, TokenName).value]);
  }

  lemma DateSpelled(s: Text, p: nat)
    requires p < |s| && s[p] == 64 && ParseNumber(s, p + 1).Ok? && ParseNumber(s, p + 1).value.value.Integer?
    ensures var r := ParseNumber(s, p + 1).value; SpellsBare(s[p..r.next], Date(r.value.integer))
  {
    hide ParseNumber, SpellsInteger;
    var r := ParseNumber(s, p + 1).value;
    NumberSpelled(s, p + 1);
    Slice(s, p, r.next, 1, r.next - p);
  }

  lemma BareSpelled(lim: Limits, s: Text, p: nat)
    requires p <= |s| && ParseBare(lim, s, p).Ok?
    ensures var r := ParseBare(lim, s, p).value; SpellsBare(s[p..r.next], r.value)
  {
    hide StringFrom, DisplayFrom, ParseBytes, ScanName, ParseNumber, SpellsBare;
    var code := CodeAt(s, p);
    if IsDigit(code) || code == 45 {
      NumberSpelled(s, p);
      NumberIsBare(s[p..ParseBare(lim, s, p).value.next]);
    } else if code == 34 {
      StrSpelled(lim, s, p);
    } else if TokenFirst(code) {
      TokenSpelled(lim, s, p);
    } else if code == 58 {
      Base64Spelled(lim, s, p);
    } else if code == 63 {
      BooleanSpelled(s, p);
    } else if code == 64 {
      DateSpelled(s, p);
    } else {
      DisplaySpelled(lim, s, p);
    }
  }

  lemma NumberIsBare(t: Text)
    ensures forall v :: SpellsInteger(t, v) ==> SpellsBare(t, Integer(v))
    ensures forall v :: SpellsDecimal(t, v) ==> SpellsBare(t, Decimals(v))
  {
    hide SpellsInteger, SpellsDecimal;
  }

  lemma BooleanSpelled(s: Text, p: nat)
    requires p + 1 < |s| && s[p] == 63 && (s[p + 1] == 48 || s[p + 1] == 49)
    ensures SpellsBare(s[p..p + 2], Boolean(s[p + 1] == 49))
  {
    assert s[p..p + 2] == [s[p], s[p + 1]];
  }

  // ---------------------------------------------------------------- parameters and items

  lemma {:induction false} SkippedGap(s: Text, p: nat)
    requires p <= |s|
    ensures Gap(s[p..SkipSpaces(s, p, false)])
    decreases |s| - p
  {
    if Space(CodeAt(s, p), false) {
      SkippedGap(s, p + 1);
      SliceJoins(s, p, p + 1, SkipSpaces(s, p, false));
    }
  }

  lemma {:induction false} SkippedBlank(s: Text, p: nat)
    requires p <= |s|
    ensures Blank(s[p..SkipSpaces(s, p, true)])
    decreases |s| - p
  {
    if Space(CodeAt(s, p), true) {
      SkippedBlank(s, p + 1);
      SliceJoins(s, p, p + 1, SkipSpaces(s, p, true));
    }
  }

  lemma KeySpelled(lim: Limits, s: Text, p: nat)
    requires p <= |s| && ParseKey(lim, s, p).Ok?
    ensures var r := ParseKey(lim, s, p).value; IsKey(r.value) && r.value == s[p..r.next]
  {
    hide IsKey, ValidKey, ScanName;
    SfParsed.KeyIsValid(lim, s, p);
    KeyClass(ParseKey(lim, s, p).value.value);
  }

  lemma ParameterSpelled(lim: Limits, s: Text, p: nat)
    requires p < |s| && s[p] == 59 && ParseParameter(lim, s, p).Ok?
    ensures var r := ParseParameter(lim, s, p).value; SpellsParameter(s[p..r.next], r.value)
  {
    hide ParseKey, ParseBare, SkipSpaces, SpellsBare, IsKey, Gap;
    var start := SkipSpaces(s, p + 1, false);
    SkippedGap(s, p + 1);
    KeySpelled(lim, s, start);
    var key, r := ParseKey(lim, s, start).value, ParseParameter(lim, s, p).value;
    var gap, value := s[p + 1..start], s[key.next..r.next];
    if CodeAt(s, key.next) == 61 {
      BareSpelled(lim, s, key.next + 1);
      Slice(s, key.next, r.next, 1, r.next - key.next);
    }
    assert SpellsValue(value, r.value.bare);
    FourParts(s, p, p + 1, start, key.next, r.next);
    assert s[p..p + 1] == [59];
    assert ParameterOf(s[p..r.next], r.value, gap, value);
  }

  lemma {:induction false} ParametersSpelled(lim: Limits, s: Text, p: nat, occurrences: nat, sofar: seq<RawParameter>)
    requires p <= |s| && ParametersFrom(lim, s, p, occurrences, sofar).Ok?
    ensures var r := ParametersFrom(lim, s, p, occurrences, sofar).value;
      sofar <= r.value && SpellsParameters(s[p..r.next], r.value[|sofar|..])
    decreases |s| - p
  {
    hide ParseParameter, SpellsParameter;
    var r := ParametersFrom(lim, s, p, occurrences, sofar).value;
    if CodeAt(s, p) == 59 {
      ParameterSpelled(lim, s, p);
      var parameter := ParseParameter(lim, s, p).value;
      ParametersSpelled(lim, s, parameter.next, occurrences + 1, sofar + [parameter.value]);
      assert r.value[|sofar|] == parameter.value;
      assert r.value[|sofar|..][1..] == r.value[|sofar + [parameter.value]|..];
      var t, k := s[p..r.next], parameter.next - p;
      Slice(s, p, r.next, k, k);
      assert SpellsParameter(t[..k], parameter.value) && SpellsParameters(t[k..], r.value[|sofar|..][1..]);
    }
  }

  lemma AllParametersSpelled(lim: Limits, s: Text, p: nat, occurrences: nat)
    requires p <= |s| && ParametersFrom(lim, s, p, occurrences, []).Ok?
    ensures var r := ParametersFrom(lim, s, p, occurrences, []).value; SpellsParameters(s[p..r.next], r.value)
  {
    hide ParametersFrom, SpellsParameters;
    ParametersSpelled(lim, s, p, occurrences, []);
    var all := ParametersFrom(lim, s, p, occurrences, []).value.value;
    assert all[0..] == all;
  }

  lemma ItemSpelled(lim: Limits, s: Text, p: nat, occurrences: nat)
    requires p <= |s| && ParseItem(lim, s, p, occurrences).Ok?
    ensures var r := ParseItem(lim, s, p, occurrences).value; SpellsItem(s[p..r.next], r.value)
  {
    hide ParseBare, ParametersFrom, SpellsBare, SpellsParameters;
    var bare, r := ParseBare(lim, s, p).value, ParseItem(lim, s, p, occurrences).value;
    BareSpelled(lim, s, p);
    AllParametersSpelled(lim, s, bare.next, occurrences + 1);
    var t, k := s[p..r.next], bare.next - p;
    Slice(s, p, r.next, k, k);
    assert SpellsBare(t[..k], r.value.bare.value) && SpellsParameters(t[k..], r.value.params);
  }

  /** The rest of an inner list up to its parenthesis at `close`, and its parameters. */
  lemma {:induction false} ItemsSpelled(lim: Limits, s: Text, p: nat, occurrences: nat, sofar: seq<RawItem>) returns (close: nat)
    requires p <= |s| && InnerListFrom(lim, s, p, occurrences, sofar).Ok?
    ensures var r := InnerListFrom(lim, s, p, occurrences, sofar).value;
      && r.value.RawInnerList? && p < close <= r.next && sofar <= r.value.items
      && SpellsItems(s[p..close], r.value.items[|sofar|..]) && SpellsParameters(s[close..r.next], r.value.params)
    decreases |s| - p
  {
    hide ParseItem, ParametersFrom, SkipSpaces, SpellsParameters, SpellsItem, Gap;
    var r := InnerListFrom(lim, s, p, occurrences, sofar).value;
    var q := SkipSpaces(s, p, false);
    SkippedGap(s, p);
    if CodeAt(s, q) == 41 {
      AllParametersSpelled(lim, s, q + 1, occurrences);
      close := q + 1;
      var t := s[p..close];
      Slice(s, p, close, 0, q - p);
      assert t[|t| - 1] == 41 && t[..|t| - 1] == s[p..q];
      assert r.value.items[|sofar|..] == [];
    } else {
      var item := ParseItem(lim, s, q, occurrences).value;
      ItemSpelled(lim, s, q, occurrences);
      close := ItemsSpelled(lim, s, item.next, item.occurrences, sofar + [item.value]);
      var items := r.value.items[|sofar|..];
      assert items[0] == item.value && items[1..] == r.value.items[|sofar + [item.value]|..];
      OneItem(s, p, q, item.next, close, items);
    }
  }

  lemma OneItem(s: Text, p: nat, q: nat, next: nat, close: nat, items: seq<RawItem>)
    requires p <= q <= next < close <= |s| && items != [] && Gap(s[p..q]) && SpellsItem(s[q..next], items[0])
    requires (s[next] == 32 || s[next] == 41) && SpellsItems(s[next..close], items[1..])
    ensures SpellsItems(s[p..close], items)
  {
    hide SpellsItem, Gap;
    var t, j, k := s[p..close], q - p, next - p;
    Slice(s, p, close, j, k);
    Slice(s, p, close, k, k);
    Slice(s, p, close, j, j);
    assert t[k] == s[next];
    assert Gap(t[..j]) && SpellsItem(t[j..k], items[0]) && SpellsItems(t[k..], items[1..]);
  }

  lemma MemberSpelled(lim: Limits, s: Text, p: nat, occurrences: nat)
    requires p <= |s| && ParseMember(lim, s, p, occurrences).Ok?
    ensures var r := ParseMember(lim, s, p, occurrences).value; SpellsMember(s[p..r.next], r.value)
  {
    hide ParseItem, InnerListFrom, SpellsItem, SpellsItems, SpellsParameters;
    var r := ParseMember(lim, s, p, occurrences).value;
    if CodeAt(s, p) == 40 {
      var close := ItemsSpelled(lim, s, p + 1, occurrences + 1, []);
      var t, k := s[p..r.next], close - p;
      Slice(s, p, r.next, 1, k);
      Slice(s, p, r.next, k, k);
      assert r.value.items[0..] == r.value.items;
      assert SpellsItems(t[1..k], r.value.items) && SpellsParameters(t[k..], r.value.params);
    } else {
      ItemSpelled(lim, s, p, occurrences);
    }
  }

  lemma EntrySpelled(lim: Limits, s: Text, p: nat, occurrences: nat)
    requires p <= |s| && ParseEntry(lim, s, p, occurrences).Ok?
    ensures var r := ParseEntry(lim, s, p, occurrences).value; SpellsEntry(s[p..r.next], r.value)
  {
    hide ParseKey, ParseMember, ParametersFrom, SpellsMember, SpellsParameters, IsKey;
    var key, r := ParseKey(lim, s, p).value, ParseEntry(lim, s, p, occurrences).value;
    KeySpelled(lim, s, p);
    var t, k := s[p..r.next], key.next - p;
    Slice(s, p, r.next, k, k);
    assert t[..k] == key.value;
    if CodeAt(s, key.next) == 61 {
      MemberSpelled(lim, s, key.next + 1, occurrences);
      Slice(s, key.next, r.next, 1, r.next - key.next);
    } else {
      AllParametersSpelled(lim, s, key.next, occurrences + 1);
    }
  }

  // ---------------------------------------------------------------- fields

  lemma SeparatorSpelled(s: Text, p: nat)
    requires p <= |s| && ParseSeparator(s, p).Ok?
    ensures var r := ParseSeparator(s, p).value;
      && (r.value ==> Separator(s[p..r.next]) && r.next < |s|)
      && (!r.value ==> Blank(s[p..r.next]) && r.next == |s|)
  {
    hide SkipSpaces, Blank;
    var q := SkipSpaces(s, p, true);
    SkippedBlank(s, p);
    if q < |s| {
      var next := SkipSpaces(s, q + 1, true);
      SkippedBlank(s, q + 1);
      var t, k := s[p..next], q - p;
      Slice(s, p, next, k, k);
      Slice(s, p, next, k + 1, k + 1);
      assert Blank(t[..k]) && t[k] == 44 && Blank(t[k + 1..]);
    }
  }

  lemma {:induction false} ListSpelled(lim: Limits, s: Text, p: nat, occurrences: nat, sofar: seq<RawMember>)
    requires p < |s| && ListFrom(lim, s, p, occurrences, sofar).Ok?
    ensures var r := ListFrom(lim, s, p, occurrences, sofar).value;
      && r.next == |s| && sofar < r.value && SpellsMembers(s[p..], r.value[|sofar|..])
    decreases |s| - p
  {
    hide ParseMember, ParseSeparator, SpellsMember, Separator, Blank;
    var r := ListFrom(lim, s, p, occurrences, sofar).value;
    var member := ParseMember(lim, s, p, occurrences).value;
    var more := ParseSeparator(s, member.next).value;
    MemberSpelled(lim, s, p, occurrences);
    SeparatorSpelled(s, member.next);
    var t, j := s[p..|s|], member.next - p;
    assert s[p..] == t;
    Slice(s, p, |s|, j, j);
    if more.value {
      ListSpelled(lim, s, more.next, member.occurrences, sofar + [member.value]);
      var ms := r.value[|sofar|..];
      assert ms[0] == member.value && ms[1..] == r.value[|sofar + [member.value]|..];
      var k := more.next - p;
      Slice(s, p, |s|, j, k);
      Slice(s, p, |s|, k, k);
      assert s[more.next..] == t[k..];
      assert SpellsMember(t[..j], ms[0]) && Separator(t[j..k]) && SpellsMembers(t[k..], ms[1..]);
    } else {
      var ms := r.value[|sofar|..];
      assert r.value == sofar + [member.value];
      assert ms == [member.value];
      assert s[member.next..|s|] == t[j..];
      assert SpellsMember(t[..j], ms[0]) && Blank(t[j..]);
    }
  }

  lemma {:induction false} DictionarySpelled(lim: Limits, s: Text, p: nat, occurrences: nat, sofar: seq<RawEntry>)
    requires p < |s| && DictionaryFrom(lim, s, p, occurrences, sofar).Ok?
    ensures var r := DictionaryFrom(lim, s, p, occurrences, sofar).value;
      && r.next == |s| && sofar < r.value && SpellsEntries(s[p..], r.value[|sofar|..])
    decreases |s| - p
  {
    hide ParseEntry, ParseSeparator, SpellsEntry, Separator, Blank;
    var r := DictionaryFrom(lim, s, p, occurrences, sofar).value;
    var entry := ParseEntry(lim, s, p, occurrences).value;
    var more := ParseSeparator(s, entry.next).value;
    EntrySpelled(lim, s, p, occurrences);
    SeparatorSpelled(s, entry.next);
    var t, j := s[p..|s|], entry.next - p;
    assert s[p..] == t;
    Slice(s, p, |s|, j, j);
    if more.value {
      DictionarySpelled(lim, s, more.next, entry.occurrences, sofar + [entry.value]);
      var es := r.value[|sofar|..];
      assert es[0] == entry.value && es[1..] == r.value[|sofar + [entry.value]|..];
      var k := more.next - p;
      Slice(s, p, |s|, j, k);
      Slice(s, p, |s|, k, k);
      assert s[more.next..] == t[k..];
      assert SpellsEntry(t[..j], es[0]) && Separator(t[j..k]) && SpellsEntries(t[k..], es[1..]);
    } else {
      var es := r.value[|sofar|..];
      assert r.value == sofar + [entry.value];
      assert es == [entry.value];
      assert s[entry.next..|s|] == t[j..];
      assert SpellsEntry(t[..j], es[0]) && Blank(t[j..]);
    }
  }

  lemma RootSpelled(lim: Limits, s: Text, p: nat, fieldType: FieldType)
    requires p <= |s| && ParseRoot(lim, s, p, fieldType).Ok?
    ensures var r := ParseRoot(lim, s, p, fieldType).value;
      RawTypeOf(r.value) == fieldType && SpellsRoot(s[p..r.next], r.value)
  {
    hide ParseItem, ListFrom, DictionaryFrom, SpellsItem, SpellsMembers, SpellsEntries;
    var r := ParseRoot(lim, s, p, fieldType).value;
    match fieldType {
      case ItemType => ItemSpelled(lim, s, p, 0);
      case ListType =>
        if p < |s| {
          ListSpelled(lim, s, p, 0, []);
          assert r.value.members[0..] == r.value.members && s[p..|s|] == s[p..];
        } else {
          NoMembers(lim, s);
        }
      case DictionaryType =>
        if p < |s| {
          DictionarySpelled(lim, s, p, 0, []);
          assert r.value.entries[0..] == r.value.entries && s[p..|s|] == s[p..];
        } else {
          NoMembers(lim, s);
        }
    }
  }

  lemma NoMembers(lim: Limits, s: Text)
    ensures ListFrom(lim, s, |s|, 0, []) == Ok(Parsed([], |s|, 0))
    ensures DictionaryFrom(lim, s, |s|, 0, []) == Ok(Parsed([], |s|, 0))
  {
  }

  /** A text that is parsed spells what it is parsed to. */
  lemma FieldSpelled(lim: Limits, s: Text, fieldType: FieldType)
    requires ParseField(lim, s, fieldType).Ok?
    ensures var f := ParseField(lim, s, fieldType).value; RawTypeOf(f) == fieldType && Spells(s, f)
  {
    hide ParseRoot, SkipSpaces, SpellsRoot, Gap, RawTypeOf;
    var f := ParseField(lim, s, fieldType).value;
    var j := SkipSpaces(s, 0, false);
    var root := ParseRoot(lim, s, j, fieldType).value;
    RootSpelled(lim, s, j, fieldType);
    SkippedGap(s, 0);
    SkippedGap(s, root.next);
    assert s[0..j] == s[..j] && s[root.next..|s|] == s[root.next..];
    assert Gap(s[..j]) && SpellsRoot(s[j..root.next], f) && Gap(s[root.next..]);
  }
}
