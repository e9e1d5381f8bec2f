/**
 * Canonical text is read back: wherever the text of a bare value or a key stands in the input and
 * the character after it ends the value, the parser reads exactly that value. These facts do not
 * depend on what surrounds the value, so that parameters, items, lists and dictionaries can be put
 * together from them.
 */
module SfReading {
  import opened Basics
  import opened Digits
  import opened SfModel
  import opened SfParser
  import Base64
  import Utf8

  /** `t` stands at position `p` of `s`. */
  predicate At(s: Text, p: nat, t: Text) { p + |t| <= |s| && s[p..p + |t|] == t }

  lemma AtSplit(s: Text, p: nat, a: Text, b: Text)
    requires At(s, p, a + b)
    ensures At(s, p, a) && At(s, p + |a|, b)
  {
    assert s[p..p + |a + b|][..|a|] == a;
    assert s[p..p + |a + b|][|a|..] == b;
    assert s[p..p + |a|] == s[p..p + |a + b|][..|a|];
    assert s[p + |a|..p + |a + b|] == s[p..p + |a + b|][|a|..];
  }

  lemma Associative(a: Text, b: Text, c: Text)
    ensures (a + b) + c == a + (b + c)
  {
  }

  lemma AtIndex(s: Text, p: nat, t: Text, i: nat)
    requires At(s, p, t) && i < |t|
    ensures p + i < |s| && s[p + i] == t[i] == CodeAt(s, p + i)
  {
    assert s[p..p + |t|][i] == t[i];
  }

  lemma AtThree(s: Text, p: nat, a: Text, b: Text, c: Text)
    requires At(s, p, a + b + c)
    ensures At(s, p, a) && At(s, p + |a|, b) && At(s, p + |a| + |b|, c)
  {
    AtSplit(s, p, a + b, c);
    AtSplit(s, p, a, b);
  }

  /** What may follow an item: the end, a space, a parenthesis or a comma. */
  predicate EndsItem(c: int) { c == -1 || c == 32 || c == 41 || c == 44 }

  predicate EndsValue(c: int) { EndsItem(c) || c == 59 }

  // ---------------------------------------------------------------- names

  lemma {:induction false} NameReads(lim: Limits, s: Text, start: nat, p: nat, t: Text, class_: NameClass)
    requires At(s, start, t) && start <= p <= start + |t|
    requires forall i | 0 <= i < |t| :: InName(t[i], class_)
    requires |t| <= Maximum(lim, NameLimit(class_)) && !InName(CodeAt(s, start + |t|), class_)
    ensures ScanName(lim, s, start, p, class_) == Ok(start + |t|)
    decreases start + |t| - p
  {
    if p < start + |t| {
      AtIndex(s, start, t, p - start);
      NameReads(lim, s, start, p + 1, t, class_);
    }
  }

  lemma KeyReads(lim: Limits, s: Text, p: nat, k: Text)
    requires ValidKey(k) && |k| <= lim.maxKeyLength && At(s, p, k) && !KeyRest(CodeAt(s, p + |k|))
    ensures ParseKey(lim, s, p) == Ok(Cut(k, p + |k|))
  {
    AtIndex(s, p, k, 0);
    NameReads(lim, s, p, p, k, KeyName);
  }

  // ---------------------------------------------------------------- numbers

  lemma {:induction false} DigitsRead(s: Text, start: nat, p: nat, t: Text, cap: nat)
    requires At(s, start, t) && AllDigits(t) && start <= p <= start + |t|
    requires |t| <= cap && !IsDigit(CodeAt(s, start + |t|))
    ensures ScanDigits(s, start, p, cap, Parse(t[..p - start])) == Ok(Cut(Parse(t), start + |t|))
    decreases start + |t| - p
  {
    var i := p - start;
    if i == |t| {
      assert t[..i] == t;
    } else {
      AtIndex(s, start, t, i);
      assert t[..i + 1][..i] == t[..i];
      DigitsRead(s, start, p + 1, t, cap);
    }
  }

  /** Canonical digits of at most `cap` places read as the number they denote. */
  lemma DecimalReads(s: Text, p: nat, n: nat, cap: nat)
    requires At(s, p, Decimal(n)) && 1 <= cap && n < Pow10(cap) && !IsDigit(CodeAt(s, p + |Decimal(n)|))
    ensures ScanDigits(s, p, p, cap, 0) == Ok(Cut(n, p + |Decimal(n)|))
    ensures IsDigit(CodeAt(s, p)) && |Decimal(n)| <= cap
  {
    var t := Decimal(n);
    DecimalLength(n, cap);
    ParseDecimal(n);
    AtIndex(s, p, t, 0);
    assert t[..0] == [];
    DigitsRead(s, p, p, t, cap);
  }

  lemma SignReads(s: Text, p: nat, v: int, rest: Text)
    requires At(s, p, Sign(v) + rest) && rest != [] && IsDigit(rest[0])
    ensures At(s, p + |Sign(v)|, rest)
    ensures if v < 0 then CodeAt(s, p) == 45 else IsDigit(CodeAt(s, p))
  {
    AtSplit(s, p, Sign(v), rest);
    AtIndex(s, p, Sign(v) + rest, 0);
  }

  lemma IntegerReads(s: Text, p: nat, v: int)
    requires InRange(v) && At(s, p, IntegerText(v))
    requires EndsValue(CodeAt(s, p + |IntegerText(v)|))
    ensures ParseNumber(s, p) == Ok(Cut(Integer(v), p + |IntegerText(v)|))
    ensures CodeAt(s, p) == 45 || IsDigit(CodeAt(s, p))
  {
    var start := p + |Sign(v)|;
    Pow10Values();
    SignReads(s, p, v, Decimal(Abs(v)));
    DecimalReads(s, start, Abs(v), 15);
  }

  lemma TenTimes(n: int, power: int)
    ensures n * (10 * power) == 10 * (n * power)
  {
  }

  lemma {:induction false} TrimmedZeros(t: Text)
    requires AllDigits(t)
    ensures |TrimZeros(t)| <= |t| && AllDigits(TrimZeros(t))
    ensures Parse(TrimZeros(t)) * Pow10(|t| - |TrimZeros(t)|) == Parse(t)
    ensures TrimZeros(t) != [] ==> TrimZeros(t)[|TrimZeros(t)| - 1] != 48
  {
    if t != [] && t[|t| - 1] == 48 {
      var init := t[..|t| - 1];
      TrimmedZeros(init);
      var u := TrimZeros(init);
      assert Pow10(|t| - |u|) == 10 * Pow10(|init| - |u|);
      TenTimes(Parse(u), Pow10(|init| - |u|));
    }
  }

  lemma {:induction false} ZerosAreNothing(t: Text)
    requires forall i | 0 <= i < |t| :: t[i] == 48
    ensures AllDigits(t) && Parse(t) == 0
  {
    if t != [] {
      ZerosAreNothing(t[..|t| - 1]);
    }
  }

  /** The written fraction: one to three digits that denote the thousandths. */
  lemma FractionMeaning(f: nat)
    requires f < 1000
    ensures var t := FractionText(f);
      1 <= |t| <= 3 && AllDigits(t) && Parse(t) * Pow10(3 - |t|) == f
  {
    Pow10Values();
    DecimalLength(f, 3);
    ParseDecimal(f);
    var d := Decimal(f);
    var zeros: Text := seq(3 - |d|, _ => 48);
    ZerosAreNothing(zeros);
    ParseConcat(zeros, d);
    var padded := PadStart(d, 3);
    assert zeros + d == padded;
    TrimmedZeros(padded);
    if TrimZeros(padded) == [] {
      assert f == 0;
      assert Parse([48]) == 10 * Parse([48][..0]) + 0 && [48][..0] == [];
    }
  }

  lemma FractionReads(s: Text, point: nat, f: nat)
    requires f < 1000 && At(s, point, FractionText(f)) && !IsDigit(CodeAt(s, point + |FractionText(f)|))
    ensures ParseFraction(s, point) == Ok(Cut(f, point + |FractionText(f)|))
  {
    var t := FractionText(f);
    FractionMeaning(f);
    assert t[..0] == [];
    DigitsRead(s, point, point, t, 3);
  }

  lemma PointBetween(s: Text, start: nat, whole: Text, fraction: Text)
    requires At(s, start, whole + ([46] + fraction))
    ensures At(s, start, whole) && CodeAt(s, start + |whole|) == 46 && At(s, start + |whole| + 1, fraction)
  {
    AtSplit(s, start, whole, [46] + fraction);
    AtSplit(s, start + |whole|, [46], fraction);
    AtIndex(s, start + |whole|, [46], 0);
  }

  /** The digits, the point and the fraction of a decimal, without its sign. */
  lemma MagnitudeReads(s: Text, start: nat, m: nat, whole: Text, fraction: Text)
    requires m <= MAX_INTEGER && whole == Decimal(m / 1000) && fraction == FractionText(m % 1000)
    requires At(s, start, whole + ([46] + fraction)) && !IsDigit(CodeAt(s, start + |whole| + 1 + |fraction|))
    ensures ScanDigits(s, start, start, 15, 0) == Ok(Cut(m / 1000, start + |whole|)) && |whole| <= 12
    ensures IsDigit(CodeAt(s, start)) && CodeAt(s, start + |whole|) == 46
    ensures ParseFraction(s, start + |whole| + 1) == Ok(Cut(m % 1000, start + |whole| + 1 + |fraction|))
  {
    hide Decimal, FractionText, ScanDigits, ParseFraction, At;
    PointBetween(s, start, whole, fraction);
    FractionReads(s, start + |whole| + 1, m % 1000);
    WholeReads(s, start, m / 1000);
  }

  lemma WholeReads(s: Text, p: nat, n: nat)
    requires At(s, p, Decimal(n)) && n <= 999_999_999_999 && !IsDigit(CodeAt(s, p + |Decimal(n)|))
    ensures ScanDigits(s, p, p, 15, 0) == Ok(Cut(n, p + |Decimal(n)|))
    ensures IsDigit(CodeAt(s, p)) && |Decimal(n)| <= 12
  {
    Pow10Values();
    DecimalReads(s, p, n, 12);
    WiderCap(s, p, p, 12, 15, 0);
  }

  lemma NumberAssembles(s: Text, p: nat, v: int, middle: nat, end: nat)
    requires InRange(v) && p + |Sign(v)| <= |s|
    requires if v < 0 then CodeAt(s, p) == 45 else CodeAt(s, p) != 45
    requires var start := p + |Sign(v)|;
      && IsDigit(CodeAt(s, start)) && start <= middle <= start + 12 && middle < |s|
      && ScanDigits(s, start, start, 15, 0) == Ok(Cut(Abs(v) / 1000, middle)) && CodeAt(s, middle) == 46
      && ParseFraction(s, middle + 1) == Ok(Cut(Abs(v) % 1000, end))
    ensures ParseNumber(s, p) == Ok(Cut(Decimals(v), end))
  {
    var m := Abs(v);
    assert m / 1000 * 1000 + m % 1000 == m;
  }

  lemma SignApart(sign: Text, whole: Text, fraction: Text)
    ensures sign + whole + [46] + fraction == sign + (whole + ([46] + fraction))
  {
  }

  lemma DecimalPartsRead(s: Text, p: nat, v: int, start: nat, middle: nat, end: nat)
    requires InRange(v) && start == p + |Sign(v)|
    requires At(s, p, Sign(v) + (Decimal(Abs(v) / 1000) + ([46] + FractionText(Abs(v) % 1000))))
    requires middle == start + |Decimal(Abs(v) / 1000)| && end == middle + 1 + |FractionText(Abs(v) % 1000)|
    requires EndsValue(CodeAt(s, end))
    ensures ParseNumber(s, p) == Ok(Cut(Decimals(v), end))
    ensures CodeAt(s, p) == 45 || IsDigit(CodeAt(s, p))
  {
    hide Decimal, FractionText, ScanDigits, ParseFraction, ParseNumber, At;
    var whole, fraction := Decimal(Abs(v) / 1000), FractionText(Abs(v) % 1000);
    SignReads(s, p, v, whole + ([46] + fraction));
    MagnitudeReads(s, start, Abs(v), whole, fraction);
    NumberAssembles(s, p, v, middle, end);
  }

  lemma DecimalNumberReads(s: Text, p: nat, v: int)
    requires InRange(v) && At(s, p, DecimalText(v))
    requires EndsValue(CodeAt(s, p + |DecimalText(v)|))
    ensures ParseNumber(s, p) == Ok(Cut(Decimals(v), p + |DecimalText(v)|))
    ensures CodeAt(s, p) == 45 || IsDigit(CodeAt(s, p))
  {
    var whole, fraction := Decimal(Abs(v) / 1000), FractionText(Abs(v) % 1000);
    SignApart(Sign(v), whole, fraction);
    var middle := p + |Sign(v)| + |whole|;
    DecimalPartsRead(s, p, v, p + |Sign(v)|, middle, middle + 1 + |fraction|);
  }

  lemma {:induction false} WiderCap(s: Text, start: nat, p: nat, cap: nat, wider: nat, value: nat)
    requires start <= p <= |s| && cap <= wider && ScanDigits(s, start, p, cap, value).Ok?
    ensures ScanDigits(s, start, p, wider, value) == ScanDigits(s, start, p, cap, value)
    decreases |s| - p
  {
    if IsDigit(CodeAt(s, p)) {
      WiderCap(s, start, p + 1, cap, wider, value * 10 + (CodeAt(s, p) - 48));
    }
  }

  // ---------------------------------------------------------------- strings and bytes

  lemma {:induction false} StringReads(lim: Limits, s: Text, p: nat, sofar: Text, t: Text)
    requires At(s, p, Escape(t) + [34]) && forall i | 0 <= i < |t| :: Printable(t[i])
    requires |sofar| + |t| <= lim.maxDecodedBytes
    ensures StringFrom(lim, s, p, sofar) == Ok(Cut(sofar + t, p + |Escape(t)| + 1))
    decreases |t|
  {
    hide At;
    AtIndex(s, p, Escape(t) + [34], 0);
    if t == [] {
      assert sofar + t == sofar;
    } else {
      var e: Text := if t[0] == 34 || t[0] == 92 then [92, t[0]] else [t[0]];
      assert Escape(t) + [34] == e + (Escape(t[1..]) + [34]);
      AtSplit(s, p, e, Escape(t[1..]) + [34]);
      AtIndex(s, p, e, |e| - 1);
      StringReads(lim, s, p + |e|, sofar + [t[0]], t[1..]);
      assert sofar + [t[0]] + t[1..] == sofar + t;
    }
  }

  lemma {:induction false} ContentReads(lim: Limits, s: Text, start: nat, p: nat, t: Text)
    requires At(s, start, t) && Base64.AllAlphabet(t) && start <= p <= start + |t|
    requires |t| * 6 / 8 <= lim.maxDecodedBytes
    ensures Base64.AllAlphabet(s[start..p]) && Base64.AllAlphabet(s[start..start + |t|])
    ensures ScanBytes(lim, s, start, p, 0) == ScanBytes(lim, s, start, start + |t|, 0)
    decreases start + |t| - p
  {
    assert s[start..p] == t[..p - start];
    if p < start + |t| {
      AtIndex(s, start, t, p - start);
      ContentReads(lim, s, start, p + 1, t);
    }
  }

  lemma {:induction false} PaddingReads(lim: Limits, s: Text, start: nat, p: nat, padding: nat, t: Text)
    requires start + padding <= p && At(s, p, t + [58]) && padding + |t| <= 2
    requires forall i | 0 <= i < |t| :: t[i] == 61
    requires Base64.AllAlphabet(s[start..p - padding])
    ensures ScanBytes(lim, s, start, p, padding) == Ok(Cut(padding + |t|, p + |t|))
    decreases |t|
  {
    AtIndex(s, p, t + [58], 0);
    if t != [] {
      assert t + [58] == [61] + (t[1..] + [58]);
      AtSplit(s, p, [61], t[1..] + [58]);
      PaddingReads(lim, s, start, p + 1, padding + 1, t[1..]);
    }
  }

  lemma PaddingIsExact(n: nat)
    ensures var content := (n * 8 + 5) / 6;
      content * 6 / 8 == n && Padded(content, (3 - n % 3) % 3)
  {
    var q, r := n / 3, n % 3;
    assert n == 3 * q + r;
    if r == 0 {
      assert (n * 8 + 5) / 6 == 4 * q;
    } else if r == 1 {
      assert (n * 8 + 5) / 6 == 4 * q + 2;
    } else {
      assert (n * 8 + 5) / 6 == 4 * q + 3;
    }
  }

  lemma EncodedReads(lim: Limits, s: Text, start: nat, content: Text, padding: Text)
    requires At(s, start, content + (padding + [58])) && Base64.AllAlphabet(content)
    requires |padding| <= 2 && forall i | 0 <= i < |padding| :: padding[i] == 61
    requires |content| * 6 / 8 <= lim.maxDecodedBytes
    ensures start + |content| <= |s| && s[start..start + |content|] == content
    ensures ScanBytes(lim, s, start, start, 0) == Ok(Cut(|padding|, start + |content| + |padding|))
    ensures CodeAt(s, start + |content| + |padding|) == 58
  {
    hide ScanBytes, Base64.Alphabet, CodeAt;
    AtSplit(s, start, content, padding + [58]);
    ContentReads(lim, s, start, start, content);
    PaddingReads(lim, s, start, start + |content|, 0, padding);
    AtIndex(s, start + |content|, padding + [58], |padding|);
  }

  lemma BytesClose(s: Text, start: nat, next: nat, content: Text, padding: nat)
    requires start + padding <= next < |s| && s[start..next - padding] == content
    requires CodeAt(s, next) == 58 && Base64.AllAlphabet(content) && Padded(|content|, padding)
    ensures CloseBytes(s, start, Cut(padding, next)) == Ok(Cut(Base64.Decode(content), next + 1))
  {
  }

  lemma BytesReadParts(lim: Limits, s: Text, p: nat, content: Text, padding: Text)
    requires At(s, p, [58] + ((content + padding) + [58])) && Base64.AllAlphabet(content)
    requires |padding| <= 2 && forall i | 0 <= i < |padding| :: padding[i] == 61
    requires |content| * 6 / 8 <= lim.maxDecodedBytes && Padded(|content|, |padding|)
    ensures ParseBytes(lim, s, p) == Ok(Cut(Base64.Decode(content), p + |content| + |padding| + 2))
  {
    AtSplit(s, p, [58], (content + padding) + [58]);
    Associative(content, padding, [58]);
    EncodedReads(lim, s, p + 1, content, padding);
    BytesClose(s, p + 1, p + 1 + |content| + |padding|, content, |padding|);
  }

  lemma BytesRead(lim: Limits, s: Text, p: nat, b: seq<Byte>)
    requires At(s, p, [58] + (Base64.Encode(b) + [58])) && |b| <= lim.maxDecodedBytes
    ensures ParseBytes(lim, s, p) == Ok(Cut(b, p + |Base64.Encode(b)| + 2))
  {
    hide Base64.Content, Base64.Padding, Base64.Decode;
    var content, padding := Base64.Content(b), Base64.Padding(|b|);
    assert |content| * 6 / 8 == |b| && Padded(|content|, |padding|) && |padding| <= 2 by {
      PaddingIsExact(|b|);
    }
    Base64.DecodeContent(b);
    BytesReadParts(lim, s, p, content, padding);
  }

  lemma HexReads(b: Byte)
    ensures Hex(HexDigit(b / 16)) && Hex(HexDigit(b % 16))
    ensures Nibble(HexDigit(b / 16)) * 16 + Nibble(HexDigit(b % 16)) == b
  {
  }

  /** One byte of a display string. */
  lemma ByteReads(lim: Limits, s: Text, p: nat, sofar: seq<Byte>, b: Byte)
    requires At(s, p, EscapeByte(b)) && |sofar| < lim.maxDecodedBytes
    ensures DisplayFrom(lim, s, p, sofar) == DisplayFrom(lim, s, p + |EscapeByte(b)|, sofar + [b])
  {
    AtIndex(s, p, EscapeByte(b), 0);
    if !Plain(b) {
      HexReads(b);
      AtIndex(s, p, EscapeByte(b), 1);
      AtIndex(s, p, EscapeByte(b), 2);
    }
  }

  lemma {:induction false} DisplayReads(
    lim: Limits, s: Text, p: nat, sofar: seq<Byte>, b: seq<Byte>, end: nat, all: seq<Byte>)
    requires At(s, p, EscapeBytes(b)) && end == p + |EscapeBytes(b)| && all == sofar + b && |all| <= lim.maxDecodedBytes
    ensures DisplayFrom(lim, s, p, sofar) == DisplayFrom(lim, s, end, all)
    decreases |b|
  {
    if b == [] {
      assert all == sofar;
    } else {
      var e, rest := EscapeByte(b[0]), b[1..];
      assert sofar + [b[0]] + rest == all;
      AtSplit(s, p, e, EscapeBytes(rest));
      ByteReads(lim, s, p, sofar, b[0]);
      DisplayReads(lim, s, p + |e|, sofar + [b[0]], rest, end, all);
    }
  }

  // ---------------------------------------------------------------- bare items

  /** No bare item begins like an inner list, like its end, or like a separator. */
  lemma BareStarts(b: BareItem)
    requires ValidBare(b)
    ensures BareText(b) != []
    ensures var c := BareText(b)[0]; c != 32 && c != 9 && c != 40 && c != 41 && c != 44
  {
    match b
    case Integer(v) => assert v >= 0 ==> IntegerText(v) == Decimal(v);
    case Decimals(v) => assert v >= 0 ==> DecimalText(v)[0] == Decimal(v / 1000)[0];
    case _ =>
  }

  lemma StrReads(lim: Limits, s: Text, p: nat, t: Text)
    requires ValidBare(Str(t)) && BareFits(lim, Str(t)) && At(s, p, BareText(Str(t)))
    ensures ParseBare(lim, s, p) == Ok(Cut(Str(t), p + |BareText(Str(t))|))
  {
    var rest := Escape(t) + [34];
    assert BareText(Str(t)) == [34] + rest;
    AtSplit(s, p, [34], rest);
    AtIndex(s, p, [34], 0);
    StringReads(lim, s, p + 1, [], t);
    assert [] + t == t;
  }

  lemma DisplayCloses(lim: Limits, s: Text, end: nat, bytes: seq<Byte>, t: Text)
    requires CodeAt(s, end) == 34 && Utf8.Decode(bytes) == Some(t)
    ensures DisplayFrom(lim, s, end, bytes) == Ok(Cut(t, end + 1))
  {
  }

  lemma DisplayBytesRead(lim: Limits, s: Text, p: nat, bytes: seq<Byte>, body: Text, t: Text)
    requires At(s, p, [37, 34] + body + [34]) && body == EscapeBytes(bytes)
    requires |bytes| <= lim.maxDecodedBytes && Utf8.Decode(bytes) == Some(t)
    ensures CodeAt(s, p) == 37 && CodeAt(s, p + 1) == 34
    ensures DisplayFrom(lim, s, p + 2, []) == Ok(Cut(t, p + |body| + 3))
  {
    hide EscapeBytes, Utf8.Decode, DisplayFrom, At;
    var end := p + 2 + |body|;
    AtThree(s, p, [37, 34], body, [34]);
    AtIndex(s, p, [37, 34], 0);
    AtIndex(s, p, [37, 34], 1);
    AtIndex(s, end, [34], 0);
    DisplayReads(lim, s, p + 2, [], bytes, end, bytes);
    DisplayCloses(lim, s, end, bytes, t);
  }

  lemma DisplayStarts(lim: Limits, s: Text, p: nat, t: Text, next: nat)
    requires CodeAt(s, p) == 37 && CodeAt(s, p + 1) == 34 && DisplayFrom(lim, s, p + 2, []) == Ok(Cut(t, next))
    ensures ParseBare(lim, s, p) == Ok(Cut(DisplayString(t), next))
  {
  }

  lemma DisplayStringReads(lim: Limits, s: Text, p: nat, t: Text)
    requires ValidBare(DisplayString(t)) && BareFits(lim, DisplayString(t)) && At(s, p, BareText(DisplayString(t)))
    ensures ParseBare(lim, s, p) == Ok(Cut(DisplayString(t), p + |BareText(DisplayString(t))|))
  {
    Utf8.DecodeEncode(t);
    var body := EscapeBytes(Utf8.Encode(t));
    DisplayBytesRead(lim, s, p, Utf8.Encode(t), body, t);
    DisplayStarts(lim, s, p, t, p + |body| + 3);
  }

  lemma ByteSequenceReads(lim: Limits, s: Text, p: nat, b: seq<Byte>)
    requires BareFits(lim, Bytes(b)) && At(s, p, BareText(Bytes(b)))
    ensures ParseBare(lim, s, p) == Ok(Cut(Bytes(b), p + |BareText(Bytes(b))|))
  {
    hide Base64.Encode, ParseBytes, At;
    var rest := Base64.Encode(b) + [58];
    assert BareText(Bytes(b)) == [58] + rest;
    AtIndex(s, p, BareText(Bytes(b)), 0);
    BytesRead(lim, s, p, b);
  }

  lemma DateReads(lim: Limits, s: Text, p: nat, v: int)
    requires InRange(v) && At(s, p, BareText(Date(v))) && EndsValue(CodeAt(s, p + |BareText(Date(v))|))
    ensures ParseBare(lim, s, p) == Ok(Cut(Date(v), p + |BareText(Date(v))|))
  {
    AtSplit(s, p, [64], IntegerText(v));
    AtIndex(s, p, [64], 0);
    IntegerReads(s, p + 1, v);
  }

  lemma TokenReads(lim: Limits, s: Text, p: nat, t: Text)
    requires ValidToken(t) && |t| <= lim.maxTokenLength && At(s, p, t) && EndsValue(CodeAt(s, p + |t|))
    ensures ParseBare(lim, s, p) == Ok(Cut(Token(t), p + |t|))
  {
    AtIndex(s, p, t, 0);
    NameReads(lim, s, p, p, t, TokenName);
  }

  lemma NumberReads(lim: Limits, s: Text, p: nat, b: BareItem)
    requires (b.Integer? || b.Decimals?) && ValidBare(b)
    requires At(s, p, BareText(b)) && EndsValue(CodeAt(s, p + |BareText(b)|))
    ensures ParseBare(lim, s, p) == Ok(Cut(b, p + |BareText(b)|))
  {
    hide ParseNumber, IntegerText, DecimalText, At;
    match b {
      case Integer(v) => IntegerReads(s, p, v);
      case Decimals(v) => DecimalNumberReads(s, p, v);
    }
  }

  lemma BooleanReads(lim: Limits, s: Text, p: nat, flag: bool)
    requires At(s, p, BareText(Boolean(flag)))
    ensures ParseBare(lim, s, p) == Ok(Cut(Boolean(flag), p + |BareText(Boolean(flag))|))
  {
    AtIndex(s, p, BareText(Boolean(flag)), 0);
    AtIndex(s, p, BareText(Boolean(flag)), 1);
  }

  /** What every reading of a bare item shows. */
  predicate BareRead(lim: Limits, s: Text, p: nat, b: BareItem)
    requires ValidBare(b) && p <= |s|
  {
    ParseBare(lim, s, p) == Ok(Cut(b, p + |BareText(b)|))
  }

  lemma BareReads(lim: Limits, s: Text, p: nat, b: BareItem)
    requires ValidBare(b) && BareFits(lim, b) && At(s, p, BareText(b)) && EndsValue(CodeAt(s, p + |BareText(b)|))
    ensures BareRead(lim, s, p, b)
  {
    hide ParseBare, ValidToken, Utf8.WellFormed, Utf8.Encode, Base64.Encode, IntegerText, DecimalText, Escape,
         EscapeBytes, At;
    if b.Str? {
      StrReads(lim, s, p, b.text);
    } else if b.Token? {
      TokenReads(lim, s, p, b.token);
    } else if b.Bytes? {
      ByteSequenceReads(lim, s, p, b.bytes);
    } else if b.Boolean? {
      BooleanReads(lim, s, p, b.flag);
    } else if b.Date? {
      DateReads(lim, s, p, b.epochSeconds);
    } else if b.DisplayString? {
      DisplayStringReads(lim, s, p, b.display);
    } else {
      NumberReads(lim, s, p, b);
    }
  }
}
