/** Decimal numbers as text, printed and read. */
module Numerals {
  function Digit(d: nat): char
    requires d < 10
  { ['0', '1', '2', '3', '4', '5', '6', '7', '8', '9'][d] }

  function Decimal(n: nat): string {
    if n < 10 then [Digit(n)] else Decimal(n / 10) + [Digit(n % 10)]
  }

  predicate IsDigit(c: char) { '0' <= c <= '9' }

  predicate AllDigits(s: string) { forall i :: 0 <= i < |s| ==> '0' <= s[i] <= '9' }

  function ParseNat(s: string): nat
    requires AllDigits(s)
  {
    if s == "" then 0
    else 10 * ParseNat(s[..|s| - 1]) + (s[|s| - 1] as int - '0' as int)
  }

  // ----- printing is injective -----

  lemma {:induction false} DecimalDigits(n: nat)
    ensures Decimal(n) != "" && forall c :: c in Decimal(n) ==> '0' <= c <= '9'
  {
    if n >= 10 { DecimalDigits(n / 10); }
  }

  lemma DecimalLast(n: nat)
    ensures var d := Decimal(n); d[|d| - 1] == Digit(n % 10) && d[..|d| - 1] == if n < 10 then "" else Decimal(n / 10)
  {}

  lemma DigitInjective(a: nat, b: nat)
    requires a < 10 && b < 10 && Digit(a) == Digit(b)
    ensures a == b
  {}

  lemma {:induction false} DecimalInjective(a: nat, b: nat)
    requires Decimal(a) == Decimal(b)
    ensures a == b
  {
    DecimalLast(a);
    DecimalLast(b);
    DigitInjective(a % 10, b % 10);
    DecimalDigits(a / 10);
    DecimalDigits(b / 10);
    if a >= 10 && b >= 10 { DecimalInjective(a / 10, b / 10); }
  }

  // ----- reading is the inverse of printing -----

  function Zeros(k: nat): string { seq(k, _ => '0') }

  lemma DigitValue(d: nat)
    requires d < 10
    ensures IsDigit(Digit(d)) && Digit(d) as int - '0' as int == d
  {}

  lemma ParseLast(s: string, d: nat)
    requires AllDigits(s) && d < 10
    ensures AllDigits(s + [Digit(d)]) && ParseNat(s + [Digit(d)]) == 10 * ParseNat(s) + d
  {
    var t := s + [Digit(d)];
    DigitValue(d);
    assert t[..|s|] == s && t[|t| - 1] == Digit(d);
    assert AllDigits(t);
  }

  lemma {:induction false} ParseZeros(k: nat)
    ensures AllDigits(Zeros(k)) && ParseNat(Zeros(k)) == 0
  {
    if k > 0 {
      ParseZeros(k - 1);
      ParseLast(Zeros(k - 1), 0);
      assert Zeros(k) == Zeros(k - 1) + ['0'];
    }
  }

  /** Leading zeros do not matter. */
  lemma {:induction false} ParseDecimal(k: nat, n: nat)
    ensures AllDigits(Zeros(k) + Decimal(n)) && ParseNat(Zeros(k) + Decimal(n)) == n
  {
    if n < 10 {
      ParseZeros(k);
      ParseLast(Zeros(k), n);
    } else {
      ParseDecimal(k, n / 10);
      ParseLast(Zeros(k) + Decimal(n / 10), n % 10);
      assert Zeros(k) + Decimal(n) == Zeros(k) + Decimal(n / 10) + [Digit(n % 10)];
    }
  }

  lemma DigitOf(c: char) returns (d: nat)
    requires IsDigit(c)
    ensures d < 10 && Digit(d) == c
  {
    d := c as int - '0' as int;
  }

  lemma DecimalLonger(m: nat, d: nat)
    requires m > 0 && d < 10
    ensures Decimal(10 * m + d) == Decimal(m) + [Digit(d)]
  {
    assert (10 * m + d) / 10 == m && (10 * m + d) % 10 == d;
  }

  lemma PrintedLonger(k: nat, m: nat, d: nat) returns (k': nat)
    requires d < 10
    ensures Zeros(k) + Decimal(m) + [Digit(d)] == Zeros(k') + Decimal(10 * m + d)
  {
    if m == 0 {
      k' := k + 1;
      assert Zeros(k') == Zeros(k) + ['0'];
    } else {
      k' := k;
      DecimalLonger(m, d);
      assert Zeros(k) + (Decimal(m) + [Digit(d)]) == Zeros(k) + Decimal(m) + [Digit(d)];
    }
  }

  /** Every text of digits is a printed number behind zeros. */
  lemma {:induction false} DigitsArePrinted(s: string) returns (k: nat)
    requires s != "" && AllDigits(s)
    ensures s == Zeros(k) + Decimal(ParseNat(s))
  {
    var n := |s| - 1;
    var front := s[..n];
    var d := DigitOf(s[n]);
    assert s == front + [Digit(d)];
    ParseLast(front, d);
    if front == "" {
      k := 0;
      assert Zeros(0) == "";
    } else {
      var j := DigitsArePrinted(front);
      k := PrintedLonger(j, ParseNat(front), d);
    }
  }

  /** A text of digits reads as `n` exactly when it is `n` as printed, behind any number
      of zeros. */
  lemma ReadsExactly(s: string, n: nat)
    ensures s != "" && AllDigits(s) && ParseNat(s) == n <==> exists k: nat :: s == Zeros(k) + Decimal(n)
  {
    if s != "" && AllDigits(s) && ParseNat(s) == n { var k := DigitsArePrinted(s); }
    if k: nat :| s == Zeros(k) + Decimal(n) {
      ParseDecimal(k, n);
      DecimalDigits(n);
    }
  }
}
