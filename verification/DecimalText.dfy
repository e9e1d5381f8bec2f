/**
 * Decimals from exact base-10 text: the value times one thousand, rounded half to even, digit by
 * digit, against a specification about the rational number that the text denotes.
 */
module DecimalText {
  import opened Basics
  import opened Digits
  import SfModel
  import SfReading

  type Outcome<+T> = SfModel.Outcome<T>

  // ---------------------------------------------------------------- the meaning of the text

  function Start(input: Text): nat { if input != [] && input[0] == 45 then 1 else 0 }

  /** The end of the digits that begin at `p`. */
  function DigitsEnd(input: Text, p: nat): (end: nat)
    requires p <= |input|
    ensures p <= end <= |input| && (forall i | p <= i < end :: IsDigit(input[i]))
    ensures end == |input| || !IsDigit(input[end])
    decreases |input| - p
  {
    if p < |input| && IsDigit(input[p]) then DigitsEnd(input, p + 1) else p
  }

  function PointAt(input: Text): (p: nat)
    ensures Start(input) <= p <= |input|
  {
    DigitsEnd(input, Start(input))
  }

  /** An optional minus, digits, and optionally a point with digits after it. */
  predicate WellFormed(input: Text) {
    var point := PointAt(input);
    && point > Start(input)
    && (point < |input| ==> input[point] == 46 && point + 1 < |input| && DigitsEnd(input, point + 1) == |input|)
  }

  function Whole(input: Text): (t: Text)
    ensures AllDigits(t)
  {
    input[Start(input)..PointAt(input)]
  }

  function Fraction(input: Text): (t: Text)
    requires WellFormed(input)
    ensures AllDigits(t)
  {
    if PointAt(input) == |input| then [] else input[PointAt(input) + 1..]
  }

  /** The nearest integer to a quotient, the even one when two are equally near. */
  function RoundHalfEven(num: nat, den: nat): nat
    requires den > 0
  {
    var q, r := num / den, num % den;
    if 2 * r > den || (2 * r == den && q % 2 == 1) then q + 1 else q
  }

  /** The magnitude in thousandths: all digits, without the point, times 1000 over the scale of the fraction. */
  function Thousandths(input: Text): nat
    requires WellFormed(input)
  {
    RoundHalfEven(1000 * Parse(Whole(input) + Fraction(input)), Pow10(|Fraction(input)|))
  }

  function FromText(lim: SfModel.Limits, input: Text): Outcome<int> {
    var _ :- SfModel.CheckLimit(lim, SfModel.MaxInputBytes, |input|);
    if WellFormed(input) && Thousandths(input) <= SfModel.MAX_INTEGER then
      var magnitude: int := Thousandths(input);
      Ok(if Start(input) == 1 then -magnitude else magnitude)
    else Err(SfModel.Serialization(SfModel.BadNumber))
  }

  // ---------------------------------------------------------------- arithmetic

  lemma Distribute(a: int, b: int, c: int)
    ensures (a + b) * c == a * c + b * c && (a - b) * c == a * c - b * c
  {
  }

  lemma AtLeastOnce(a: int, d: nat)
    requires a >= 1
    ensures a * d >= d
  {
    Distribute(a - 1, 1, d);
  }

  lemma DivModUnique(n: nat, d: nat, q: nat, r: nat)
    requires n == q * d + r && r < d
    ensures n / d == q && n % d == r
  {
    var q', r' := n / d, n % d;
    assert n == q' * d + r' && r' < d;
    Distribute(q, q', d);
    Distribute(q', q, d);
    if q > q' {
      AtLeastOnce(q - q', d);
    } else if q < q' {
      AtLeastOnce(q' - q, d);
    }
  }

  /** Rounding a quotient given by its whole part and remainder. */
  lemma RoundKnown(q: nat, d: nat, r: nat)
    requires r < d
    ensures RoundHalfEven(q * d + r, d) == if 2 * r > d || (2 * r == d && q % 2 == 1) then q + 1 else q
  {
    DivModUnique(q * d + r, d, q, r);
  }

  lemma ScaleCompares(c: nat, a: nat, b: nat)
    requires c > 0
    ensures (c * a < c * b) == (a < b) && (c * a == c * b) == (a == b)
  {
    Distribute(a, b, c);
    if a < b {
      AtLeastOnce(b - a, c);
    } else if a > b {
      AtLeastOnce(a - b, c);
    }
  }

  lemma ScaleParts(c: nat, q: nat, d: nat, r: nat)
    ensures c * (q * d + r) == q * (c * d) + c * r
  {
    Distribute(q * d, r, c);
    Reorder(c, q, d);
  }

  lemma RoundScales(q: nat, d: nat, r: nat, c: nat)
    requires r < d && c > 0
    ensures c * d > 0
    ensures RoundHalfEven(c * (q * d + r), c * d) == RoundHalfEven(q * d + r, d)
  {
    hide RoundHalfEven;
    RoundKnown(q, d, r);
    ScaleCompares(c, r, d);
    ScaleCompares(c, 2 * r, d);
    ScaleCompares(c, d, 2 * r);
    ScaleParts(c, q, d, r);
    Reorder(c, 2, r);
    RoundKnown(q, c * d, c * r);
  }

  lemma Reorder(a: int, b: int, c: int)
    ensures a * (b * c) == b * (a * c)
  {
  }

  /** Rounding by the first dropped digit `d` and the rest `t` below it. */
  lemma RoundByDigit(m: nat, d: nat, t: nat, e: nat)
    requires d < 10 && t < e
    ensures d * e + t < 10 * e
    ensures RoundHalfEven(m * (10 * e) + (d * e + t), 10 * e)
         == if d > 5 || (d == 5 && (t > 0 || m % 2 == 1)) then m + 1 else m
  {
    if d > 5 {
      Distribute(d - 6, 6, e);
    } else if d < 5 {
      Distribute(4 - d, d, e);
    }
    assert d * e + t < 10 * e by {
      Distribute(9 - d, d, e);
    }
    RoundKnown(m, 10 * e, d * e + t);
  }

  lemma {:induction false} Pow10Add(a: nat, b: nat)
    ensures Pow10(a + b) == Pow10(a) * Pow10(b)
  {
    if a > 0 {
      Pow10Add(a - 1, b);
      assert 10 * (Pow10(a - 1) * Pow10(b)) == (10 * Pow10(a - 1)) * Pow10(b);
    }
  }

  lemma ParseOne(t: Text)
    requires |t| == 1 && AllDigits(t)
    ensures Parse(t) == t[0] - 48
  {
    assert t[..0] == [];
  }

  lemma Exactly(w: nat, f: nat, p: nat, c: nat)
    requires p * c == 1000 && p > 0
    ensures RoundHalfEven(1000 * (w * p + f), p) == w * 1000 + f * c
  {
    var m := w * 1000 + f * c;
    assert 1000 * (w * p + f) == m * p + 0 by {
      Distribute(w * 1000, f * c, p);
      Reorder(1000, w, p);
      Reorder(p, f, c);
    }
    RoundKnown(m, p, 0);
  }

  /** Up to three fraction digits are exact. */
  lemma ShortFraction(whole: Text, fraction: Text)
    requires AllDigits(whole) && AllDigits(fraction) && |fraction| <= 3
    ensures AllDigits(whole + fraction)
    ensures RoundHalfEven(1000 * Parse(whole + fraction), Pow10(|fraction|))
         == Parse(whole) * 1000 + Parse(fraction) * Pow10(3 - |fraction|)
  {
    hide Parse;
    var k := |fraction|;
    ParseConcat(whole, fraction);
    assert Pow10(k) * Pow10(3 - k) == 1000 by {
      Pow10Values();
      Pow10Add(k, 3 - k);
    }
    Exactly(Parse(whole), Parse(fraction), Pow10(k), Pow10(3 - k));
  }

  lemma RoundAll(m: nat, d: nat, t: nat, e: nat)
    requires d < 10 && t < e
    ensures RoundHalfEven(1000 * ((m * 10 + d) * e + t), 1000 * (10 * e))
         == if d > 5 || (d == 5 && (t > 0 || m % 2 == 1)) then m + 1 else m
  {
    assert (m * 10 + d) * e + t == m * (10 * e) + (d * e + t) by {
      Distribute(m * 10, d, e);
      Reorder(10, m, e);
    }
    RoundByDigit(m, d, t, e);
    RoundScales(m, 10 * e, d * e + t, 1000);
  }

  /** The digits of a long fraction, split at the third and the fourth. */
  lemma SplitDigits(whole: Text, fraction: Text)
    requires AllDigits(whole) && AllDigits(fraction) && |fraction| > 3
    ensures AllDigits(whole + fraction)
    ensures var m := Parse(whole) * 1000 + Parse(fraction[..3]);
      Parse(whole + fraction) == (m * 10 + (fraction[3] - 48)) * Pow10(|fraction| - 4) + Parse(fraction[4..])
  {
    hide Parse, Pow10;
    assert AllDigits(fraction[..3]) && AllDigits([fraction[3]]) && AllDigits(fraction[4..]);
    hide AllDigits;
    var head, digit := whole + fraction[..3], [fraction[3]];
    Pow10Values();
    ParseConcat(whole, fraction[..3]);
    ParseConcat(head, digit);
    ParseOne(digit);
    ParseConcat(head + digit, fraction[4..]);
    assert whole + fraction == (head + digit) + fraction[4..];
  }

  /** Longer fractions are rounded by their fourth digit and what follows it. */
  lemma LongFraction(whole: Text, fraction: Text)
    requires AllDigits(whole) && AllDigits(fraction) && |fraction| > 3
    ensures AllDigits(whole + fraction)
    ensures var m := Parse(whole) * 1000 + Parse(fraction[..3]);
      var d := fraction[3] - 48;
      RoundHalfEven(1000 * Parse(whole + fraction), Pow10(|fraction|))
      == if d > 5 || (d == 5 && (Parse(fraction[4..]) > 0 || m % 2 == 1)) then m + 1 else m
  {
    hide Parse, RoundHalfEven;
    var k := |fraction|;
    var m := Parse(whole) * 1000 + Parse(fraction[..3]);
    var d, t, e := fraction[3] - 48, Parse(fraction[4..]), Pow10(k - 4);
    SplitDigits(whole, fraction);
    ParseBound(fraction[4..]);
    assert Pow10(k) == 1000 * (10 * e) by {
      Pow10Values();
      Pow10Add(4, k - 4);
      assert Pow10(4) == 10 * Pow10(3);
    }
    RoundAll(m, d, t, e);
  }

  // ---------------------------------------------------------------- leading zeros

  lemma LeadingZeros(zeros: Text, t: Text)
    requires AllDigits(t) && forall i | 0 <= i < |zeros| :: zeros[i] == 48
    ensures AllDigits(zeros + t) && Parse(zeros + t) == Parse(t)
  {
    SfReading.ZerosAreNothing(zeros);
    ParseConcat(zeros, t);
  }

  lemma {:induction false} TooManyDigits(t: Text, k: nat)
    requires AllDigits(t) && |t| > k && t[0] != 48
    ensures Parse(t) >= Pow10(k)
    decreases |t|
  {
    var init := t[..|t| - 1];
    if k > 0 {
      TooManyDigits(init, k - 1);
    } else {
      ParsePositive(t);
    }
  }

  lemma {:induction false} ZeroMeansZeros(t: Text)
    requires AllDigits(t)
    ensures Parse(t) == 0 <==> forall i | 0 <= i < |t| :: t[i] == 48
  {
    if t != [] {
      var init := t[..|t| - 1];
      ZeroMeansZeros(init);
      if forall i | 0 <= i < |init| :: init[i] == 48 {
      } else {
        assert !(forall i | 0 <= i < |t| :: t[i] == 48);
      }
    }
  }

  // ---------------------------------------------------------------- the digit scanner

  /** The integer part without its leading zeros denotes the same number. */
  lemma SignificantDigits(input: Text, start: nat, first: nat, end: nat)
    requires start <= first <= end <= |input| && AllDigits(input[start..end])
    requires forall i | start <= i < first :: input[i] == 48
    ensures AllDigits(input[first..end]) && Parse(input[start..end]) == Parse(input[first..end])
  {
    var whole := input[start..end];
    assert forall i | first <= i < end :: input[i] == whole[i - start];
    LeadingZeros(input[start..first], input[first..end]);
    assert whole == input[start..first] + input[first..end];
  }

  lemma MagnitudeIsAtLeast(input: Text)
    requires WellFormed(input)
    ensures Thousandths(input) >= Parse(Whole(input)) * 1000
  {
    hide Parse, RoundHalfEven, Pow10, WellFormed;
    if |Fraction(input)| <= 3 {
      ShortFraction(Whole(input), Fraction(input));
    } else {
      LongFraction(Whole(input), Fraction(input));
    }
  }

  /** More than twelve significant digits are always too many. */
  lemma TooLarge(input: Text, first: nat)
    requires WellFormed(input) && Start(input) <= first && PointAt(input) - first > 12 && input[first] != 48
    requires forall i | Start(input) <= i < first :: input[i] == 48
    ensures Thousandths(input) > SfModel.MAX_INTEGER
  {
    SignificantDigits(input, Start(input), first, PointAt(input));
    var t := input[first..PointAt(input)];
    TooManyDigits(t, 12);
    Pow10Values();
    MagnitudeIsAtLeast(input);
  }

  method FirstThree(fraction: Text) returns (v: nat)
    requires AllDigits(fraction)
    ensures v == if |fraction| >= 3 then Parse(fraction[..3]) else Parse(fraction) * Pow10(3 - |fraction|)
  {
    v := 0;
    for digit := 0 to 3
      invariant v == if digit <= |fraction| then Parse(fraction[..digit]) else Parse(fraction) * Pow10(digit - |fraction|)
    {
      v := v * 10;
      if digit < |fraction| {
        v := v + (fraction[digit] - 48);
        assert fraction[..digit + 1][..digit] == fraction[..digit];
      } else {
        assert fraction[..|fraction|] == fraction;
        assert Pow10(digit + 1 - |fraction|) == 10 * Pow10(digit - |fraction|);
      }
    }
    assert fraction[..|fraction|] == fraction;
  }

  /** Whether the digits after the third round the magnitude up. */
  method RoundsUp(fraction: Text, magnitude: nat) returns (up: bool)
    requires AllDigits(fraction) && |fraction| > 3
    ensures var d := fraction[3] - 48; up == (d > 5 || (d == 5 && (Parse(fraction[4..]) > 0 || magnitude % 2 == 1)))
  {
    var fourth := fraction[3] - 48;
    var nonzeroTail := false;
    ghost var tail := fraction[4..];
    ZeroMeansZeros(tail);
    if fourth == 5 {
      var index := 4;
      while index < |fraction|
        invariant 4 <= index <= |fraction| && !nonzeroTail
        invariant forall i | 0 <= i < index - 4 :: tail[i] == 48
      {
        if fraction[index] != 48 {
          assert tail[index - 4] != 48;
          nonzeroTail := true;
          break;
        }
        index := index + 1;
      }
    }
    up := fourth > 5 || (fourth == 5 && (nonzeroTail || magnitude % 2 != 0));
  }

  /** The first nonzero digit and the end of the digits that begin at `start`. */
  method ScanWhole(input: Text, start: nat) returns (firstSignificant: int, end: nat)
    requires start <= |input|
    ensures end == DigitsEnd(input, start)
    ensures firstSignificant == -1 ==> forall i | start <= i < end :: input[i] == 48
    ensures firstSignificant != -1 ==>
      start <= firstSignificant < end && input[firstSignificant] != 48
      && forall i | start <= i < firstSignificant :: input[i] == 48
  {
    end := start;
    firstSignificant := -1;
    while end < |input|
      invariant start <= end <= |input| && DigitsEnd(input, start) == DigitsEnd(input, end)
      invariant firstSignificant == -1 ==> forall i | start <= i < end :: input[i] == 48
      invariant firstSignificant != -1 ==>
        start <= firstSignificant < end && input[firstSignificant] != 48
        && forall i | start <= i < firstSignificant :: input[i] == 48
    {
      var code := input[end];
      if !IsDigit(code) { break; }
      if code != 48 && firstSignificant == -1 { firstSignificant := end; }
      end := end + 1;
    }
  }

  /** Where the fraction starts, if what follows the integer digits is nothing or a point with digits. */
  method ScanFraction(input: Text, integerEnd: nat) returns (fractionStart: Option<nat>)
    requires integerEnd == PointAt(input) && integerEnd > Start(input)
    ensures fractionStart.Some? <==> WellFormed(input)
    ensures fractionStart.Some? ==> fractionStart.value <= |input| && input[fractionStart.value..] == Fraction(input)
  {
    if integerEnd == |input| { return Some(|input|); }
    if input[integerEnd] != 46 { return None; }
    var start := integerEnd + 1;
    if start == |input| { return None; }
    var position := start;
    while position < |input|
      invariant start <= position <= |input|
      invariant DigitsEnd(input, start) == DigitsEnd(input, position)
    {
      if !IsDigit(input[position]) { return None; }
      position := position + 1;
    }
    fractionStart := Some(start);
  }

  method Round(integer: nat, fraction: Text, ghost whole: Text) returns (magnitude: nat)
    requires AllDigits(whole) && AllDigits(fraction) && integer == Parse(whole)
    ensures AllDigits(whole + fraction)
    ensures magnitude == RoundHalfEven(1000 * Parse(whole + fraction), Pow10(|fraction|))
  {
    hide RoundHalfEven, Parse;
    var three := FirstThree(fraction);
    magnitude := integer * 1000 + three;
    if |fraction| > 3 {
      LongFraction(whole, fraction);
      var up := RoundsUp(fraction, magnitude);
      if up { magnitude := magnitude + 1; }
    } else {
      ShortFraction(whole, fraction);
      if |fraction| == 3 {
        assert fraction[..3] == fraction;
        assert Pow10(0) == 1;
      }
    }
  }

  /** What the digits before the point denote, by their first nonzero digit. */
  lemma IntegerPart(input: Text, first: int)
    requires WellFormed(input)
    requires first == -1 ==> forall i | Start(input) <= i < PointAt(input) :: input[i] == 48
    requires first != -1 ==>
      Start(input) <= first < PointAt(input) && forall i | Start(input) <= i < first :: input[i] == 48
    ensures AllDigits(Whole(input)) && AllDigits(Fraction(input))
    ensures first == -1 ==> Parse(Whole(input)) == 0
    ensures first != -1 ==>
      AllDigits(input[first..PointAt(input)]) && Parse(Whole(input)) == Parse(input[first..PointAt(input)])
  {
    if first == -1 {
      assert forall i | 0 <= i < |Whole(input)| :: Whole(input)[i] == input[Start(input) + i];
      SfReading.ZerosAreNothing(Whole(input));
    } else {
      SignificantDigits(input, Start(input), first, PointAt(input));
    }
  }

  method DecimalFromString(lim: SfModel.Limits, input: Text) returns (r: Outcome<int>)
    ensures r == FromText(lim, input)
  {
    hide RoundHalfEven, Parse, WellFormed, DigitsEnd, Pow10, AllDigits;
    var bad: Outcome<int> := Err(SfModel.Serialization(SfModel.BadNumber));
    var _ :- SfModel.CheckLimit(lim, SfModel.MaxInputBytes, |input|);
    var negative := input != [] && input[0] == 45;
    var start := if negative then 1 else 0;
    var firstSignificant, integerEnd := ScanWhole(input, start);
    if integerEnd == start {
      NeedsDigits(input);
      return bad;
    }
    var fractionStart := ScanFraction(input, integerEnd);
    if fractionStart.None? { return bad; }
    if firstSignificant != -1 && integerEnd - firstSignificant > 12 {
      TooLarge(input, firstSignificant);
      return bad;
    }
    var integer := 0;
    IntegerPart(input, firstSignificant);
    if firstSignificant != -1 {
      integer := Parse(input[firstSignificant..integerEnd]);
    }
    var magnitude: int := Round(integer, input[fractionStart.value..], Whole(input));
    if magnitude > SfModel.MAX_INTEGER { return bad; }
    r := Ok(if negative && magnitude != 0 then -magnitude else magnitude);
  }

  lemma NeedsDigits(input: Text)
    requires PointAt(input) == Start(input)
    ensures !WellFormed(input)
  {
  }

  // ---------------------------------------------------------------- the canonical text

  lemma {:induction false} DigitsEndAt(input: Text, p: nat, end: nat)
    requires p <= end <= |input| && (forall i | p <= i < end :: IsDigit(input[i]))
    requires end == |input| || !IsDigit(input[end])
    ensures DigitsEnd(input, p) == end
    decreases end - p
  {
    if p < end {
      DigitsEndAt(input, p + 1, end);
    }
  }

  /** The parts of a sign, digits, a point and digits are what they look like. */
  lemma PartsOf(negative: bool, whole: Text, fraction: Text)
    requires AllDigits(whole) && AllDigits(fraction) && whole != [] && fraction != []
    ensures var input := (if negative then [45] else []) + whole + [46] + fraction;
      WellFormed(input) && Whole(input) == whole && Fraction(input) == fraction && Start(input) == if negative then 1 else 0
  {
    var sign: Text := if negative then [45] else [];
    var input := sign + whole + [46] + fraction;
    var start, point := |sign|, |sign| + |whole|;
    assert forall i | start <= i < point :: input[i] == whole[i - start];
    assert forall i | point < i < |input| :: input[i] == fraction[i - point - 1];
    assert input[point] == 46;
    assert Start(input) == start;
    DigitsEndAt(input, start, point);
    DigitsEndAt(input, point + 1, |input|);
    assert input[start..point] == whole && input[point + 1..] == fraction;
  }

  /** Reading the serializer's text of a decimal gives the decimal back. */
  lemma UndoesDecimalText(lim: SfModel.Limits, v: int)
    requires SfModel.InRange(v) && |SfModel.DecimalText(v)| <= lim.maxInputBytes
    ensures FromText(lim, SfModel.DecimalText(v)) == Ok(v)
  {
    hide Parse, RoundHalfEven, WellFormed, SfModel.FractionText;
    var m := SfModel.Abs(v);
    var whole, fraction := Decimal(m / 1000), SfModel.FractionText(m % 1000);
    SfReading.FractionMeaning(m % 1000);
    PartsOf(v < 0, whole, fraction);
    ParseDecimal(m / 1000);
    ShortFraction(whole, fraction);
    assert m / 1000 * 1000 + m % 1000 == m;
  }

  /** Text is refused, apart from its length, exactly when it is malformed or rounds out of range. */
  lemma RefusalIsExact(lim: SfModel.Limits, input: Text)
    requires |input| <= lim.maxInputBytes
    ensures FromText(lim, input).Err? <==> !WellFormed(input) || Thousandths(input) > SfModel.MAX_INTEGER
    ensures WellFormed(input) && Parse(Whole(input)) > 999_999_999_999 ==> FromText(lim, input).Err?
  {
    if WellFormed(input) {
      MagnitudeIsAtLeast(input);
    }
  }

  // ---------------------------------------------------------------- the accepted texts and their values

  /** A multiple of `den` is nearest to `num`, and even if another one is as near. */
  predicate Nearest(q: nat, num: nat, den: nat) {
    var gap: int := 2 * (q * den - num);
    -(den as int) <= gap <= den && (gap == den || gap == -(den as int) ==> q % 2 == 0)
  }

  lemma MultiplesApart(a: nat, q: nat, den: nat)
    ensures q < a ==> q * den <= a * den - den
    ensures q == a + 1 ==> q * den == a * den + den
    ensures q > a + 1 ==> q * den >= a * den + 2 * den
  {
    if q < a {
      Distribute(a, q, den);
      AtLeastOnce(a - q, den);
    } else if q > a {
      Distribute(q, a, den);
      if q > a + 1 {
        Distribute(q - a - 1, 1, den);
        AtLeastOnce(q - a - 1, den);
      }
    }
  }

  lemma RoundIsNearest(num: nat, den: nat, q: nat)
    requires den > 0
    ensures RoundHalfEven(num, den) == q <==> Nearest(q, num, den)
  {
    var a, r := num / den, num % den;
    MultiplesApart(a, q, den);
    NearestByRemainder(q, num, den, a, r, q * den, a * den);
  }

  lemma NearestByRemainder(q: nat, num: nat, den: nat, a: nat, r: nat, x: nat, y: nat)
    requires den > 0 && a == num / den && r == num % den && num == y + r && r < den && x == q * den && y == a * den
    requires (q < a ==> x <= y - den) && (q == a + 1 ==> x == y + den) && (q > a + 1 ==> x >= y + 2 * den)
    ensures RoundHalfEven(num, den) == q <==> Nearest(q, num, den)
  {
    assert RoundHalfEven(num, den) == if 2 * r > den || (2 * r == den && a % 2 == 1) then a + 1 else a;
    hide RoundHalfEven;
    assert Nearest(q, num, den) <==>
      -(den as int) <= 2 * (x - num) <= den && (2 * (x - num) == den || 2 * (x - num) == -(den as int) ==> q % 2 == 0);
    hide Nearest;
  }

  /** An optional minus sign, digits, and perhaps a point with digits after it. */
  predicate NumeralOf(input: Text, negative: bool, whole: Text, fraction: Text) {
    && whole != [] && AllDigits(whole) && AllDigits(fraction)
    && input == (if negative then [45] else []) + (whole + (if fraction == [] then [] else [46] + fraction))
  }

  lemma {:induction false} NumeralIsWellFormed(input: Text, negative: bool, whole: Text, fraction: Text)
    requires NumeralOf(input, negative, whole, fraction)
    ensures WellFormed(input) && Whole(input) == whole && Fraction(input) == fraction && (Start(input) == 1 <==> negative)
  {
    var sign: Text := if negative then [45] else [];
    if fraction == [] {
      assert input == sign + whole;
      WholeAlone(negative, whole);
    } else {
      assert input == sign + whole + [46] + fraction;
      PartsOf(negative, whole, fraction);
    }
  }

  lemma {:induction false} WholeAlone(negative: bool, whole: Text)
    requires AllDigits(whole) && whole != []
    ensures var input := (if negative then [45] else []) + whole;
      WellFormed(input) && Whole(input) == whole && Fraction(input) == [] && Start(input) == if negative then 1 else 0
  {
    var sign: Text := if negative then [45] else [];
    var input := sign + whole;
    var start := |sign|;
    assert IsDigit(whole[0]);
    assert input[start] == whole[0] && Start(input) == start;
    assert forall i | start <= i < |input| :: input[i] == whole[i - start];
    DigitsEndAt(input, start, |input|);
    assert input[start..|input|] == whole;
  }

  lemma {:induction false} WellFormedIsNumeral(input: Text)
    requires WellFormed(input)
    ensures NumeralOf(input, Start(input) == 1, Whole(input), Fraction(input))
  {
    WholeIsThere(input);
    SignOf(input);
    TailOf(input);
    hide DigitsEnd, PointAt, Start, Fraction, WellFormed, Whole;
    ThreeParts(input, Start(input), PointAt(input));
  }

  lemma {:induction false} WholeIsThere(input: Text)
    requires WellFormed(input)
    ensures Whole(input) != [] && Whole(input) == input[Start(input)..PointAt(input)]
  {
    hide DigitsEnd;
  }

  lemma ThreeParts(t: Text, i: nat, j: nat)
    requires i <= j <= |t|
    ensures t == t[..i] + (t[i..j] + t[j..])
  {
  }

  lemma {:induction false} TailOf(input: Text)
    requires WellFormed(input)
    ensures input[PointAt(input)..] == if Fraction(input) == [] then [] else [46] + Fraction(input)
  {
    hide DigitsEnd;
    RestOf(input, PointAt(input));
  }

  lemma RestOf(t: Text, point: nat)
    requires point <= |t| && (point < |t| ==> t[point] == 46)
    ensures t[point..] == if point < |t| then [46] + t[point + 1..] else []
  {
  }

  lemma SignOf(t: Text)
    ensures Start(t) <= |t| && t[..Start(t)] == if Start(t) == 1 then [45] else []
  {
  }

  /** The decimal of these digits in thousandths: the nearest one, within fifteen digits. */
  predicate ValueOf(v: int, negative: bool, whole: Text, fraction: Text)
    requires AllDigits(whole + fraction)
  {
    var magnitude: nat := if v < 0 then -v else v;
    && (if negative then v + magnitude == 0 else v == magnitude) && magnitude <= 999_999_999_999_999
    && Nearest(magnitude, 1000 * Parse(whole + fraction), Pow10(|fraction|))
  }

  ghost predicate Denotes(input: Text, v: int) {
    exists negative: bool, whole: Text, fraction: Text ::
      NumeralOf(input, negative, whole, fraction) && AllDigits(whole + fraction) && ValueOf(v, negative, whole, fraction)
  }

  /**
   * A text is read as a decimal exactly if it is not too long, is a numeral, and its value, rounded to the
   * nearest thousandth and to the even one of two, has at most fifteen digits.
   */
  lemma DecimalIsExact(lim: SfModel.Limits, input: Text, v: int)
    ensures FromText(lim, input) == Ok(v) <==> |input| <= lim.maxInputBytes && Denotes(input, v)
  {
    hide Parse, Pow10, RoundHalfEven, Nearest, WellFormed, Whole, Fraction, NumeralOf;
    if FromText(lim, input) == Ok(v) {
      WellFormedIsNumeral(input);
      ParseConcat(Whole(input), Fraction(input));
      RoundIsNearest(1000 * Parse(Whole(input) + Fraction(input)), Pow10(|Fraction(input)|), Thousandths(input));
      assert ValueOf(v, Start(input) == 1, Whole(input), Fraction(input));
    }
    if Denotes(input, v) {
      var negative: bool, whole: Text, fraction: Text :|
        NumeralOf(input, negative, whole, fraction) && AllDigits(whole + fraction) && ValueOf(v, negative, whole, fraction);
      NumeralIsWellFormed(input, negative, whole, fraction);
      RoundIsNearest(1000 * Parse(whole + fraction), Pow10(|fraction|), if v < 0 then -v else v);
    }
  }
}
