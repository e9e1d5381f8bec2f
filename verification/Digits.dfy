/**
 * Decimal text of natural numbers: numerals without leading zeros, the value of any string of digits,
 * and powers of ten. The numeral of a number has that number as its value, and a numeral without
 * leading zeros is that of its value.
 */
module Digits {
  import opened Basics

  predicate IsDigit(c: int) { 48 <= c <= 57 }

  predicate AllDigits(t: Text) { forall i | 0 <= i < |t| :: IsDigit(t[i]) }

  /** The canonical decimal text: no leading zero except in "0" itself. */
  function Decimal(n: nat): (t: Text)
    ensures |t| >= 1 && AllDigits(t)
    ensures n > 0 ==> t[0] != 48
    ensures n == 0 ==> t == [48]
  {
    if n < 10 then [48 + n] else Decimal(n / 10) + [48 + n % 10]
  }

  function Parse(t: Text): nat
    requires AllDigits(t)
  {
    if t == [] then 0 else 10 * Parse(t[..|t| - 1]) + (t[|t| - 1] - 48)
  }

  function Pow10(k: nat): (p: nat)
    ensures p >= 1
  {
    if k == 0 then 1 else 10 * Pow10(k - 1)
  }

  lemma {:induction false} ParseDecimal(n: nat)
    ensures Parse(Decimal(n)) == n
  {
    if n >= 10 {
      ParseDecimal(n / 10);
      var t := Decimal(n);
      assert t[..|t| - 1] == Decimal(n / 10);
    } else {
      assert Decimal(n)[..0] == [];
    }
  }

  /** A number has at most `k` digits exactly when it is below the `k`-th power of ten. */
  lemma {:induction false} DecimalLength(n: nat, k: nat)
    requires k >= 1
    ensures |Decimal(n)| <= k <==> n < Pow10(k)
  {
    if n < 10 {
      assert Pow10(k) == 10 * Pow10(k - 1);
    } else if k == 1 {
      assert |Decimal(n / 10)| >= 1;
      assert Pow10(1) == 10 * Pow10(0);
    } else {
      DecimalLength(n / 10, k - 1);
    }
  }

  /** Any digits denote a number below the power of ten of their count. */
  lemma {:induction false} ParseBound(t: Text)
    requires AllDigits(t)
    ensures Parse(t) < Pow10(|t|)
  {
    if t != [] {
      ParseBound(t[..|t| - 1]);
    }
  }

  lemma {:induction false} ParseConcat(a: Text, b: Text)
    requires AllDigits(a) && AllDigits(b)
    ensures AllDigits(a + b)
    ensures Parse(a + b) == Parse(a) * Pow10(|b|) + Parse(b)
  {
    if b == [] {
      assert a + b == a;
    } else {
      var init := b[..|b| - 1];
      ParseConcat(a, init);
      assert (a + b)[..|a + b| - 1] == a + init;
      ShiftDistributes(Parse(a), Pow10(|init|), Parse(init), b[|b| - 1] - 48);
    }
  }

  lemma ShiftDistributes(a: nat, p: nat, b: nat, d: nat)
    ensures 10 * (a * p + b) + d == a * (10 * p) + (10 * b + d)
  {
    assert a * (10 * p) == 10 * (a * p);
  }

  /** The canonical text is the only digit text of a number without a superfluous leading zero. */
  lemma {:induction false} DecimalParse(t: Text)
    requires AllDigits(t) && |t| >= 1
    requires t[0] != 48 || |t| == 1
    ensures Decimal(Parse(t)) == t
  {
    var init := t[..|t| - 1];
    if |t| == 1 {
      assert init == [];
    } else {
      DecimalParse(init);
      ParsePositive(init);
      assert Parse(t) / 10 == Parse(init);
      assert Parse(t) % 10 == t[|t| - 1] - 48;
      assert t == init + [t[|t| - 1]];
    }
  }

  lemma {:induction false} ParsePositive(t: Text)
    requires AllDigits(t) && |t| >= 1 && t[0] != 48
    ensures Parse(t) >= 1
  {
    if |t| > 1 {
      ParsePositive(t[..|t| - 1]);
    }
  }

  lemma Pow10Values()
    ensures Pow10(1) == 10 && Pow10(2) == 100 && Pow10(3) == 1000
    ensures Pow10(12) == 1_000_000_000_000 && Pow10(15) == 1_000_000_000_000_000
    ensures Pow10(16) == 10_000_000_000_000_000
  {
    assert Pow10(3) == 1000;
    assert Pow10(6) == 1_000_000;
    assert Pow10(9) == 1_000_000_000;
    assert Pow10(12) == 1_000_000_000_000;
    assert Pow10(15) == 1_000_000_000_000_000;
  }
}
