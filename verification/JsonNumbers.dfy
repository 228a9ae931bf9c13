/**
 The numbers of JSON texts: what a numeral with a fraction is worth, and what the printer
 writes for integers of a million and more.
 */
module JsonNumbers {
  import opened Bytes
  import opened JsonSpec
  import opened JsonRoundTrip

  /** The integer a string of decimal digits stands for. */
  function Whole(ds: bytes): int
    decreases |ds|
  {
    if ds == [] then 0 else Whole(ds[..|ds| - 1]) * 10 + ds[|ds| - 1] - 48
  }

  function Power(e: nat): int {
    if e == 0 then 1 else Power(e - 1) * 10
  }

  predicate DecimalDigits(ds: bytes) {
    forall i :: 0 <= i < |ds| ==> 48 <= ds[i] <= 57
  }

  /** The text does not go on with a digit. */
  predicate NoDigitNext(rest: bytes) {
    rest == [] || !(48 <= rest[0] <= 57)
  }

  predicate IsSign(sign: bytes) {
    sign == [] || sign == [43] || sign == [45]
  }

  function Signed(sign: bytes, n: int): int {
    if sign == [45] then -n else n
  }

  lemma {:induction false} PowerIsPow10(e: nat)
    ensures Power(e) == Pow10(e)
  {
    if e > 0 {
      PowerIsPow10(e - 1);
    }
  }

  lemma {:induction false} NumeralOfDigits(ds: bytes)
    requires DecimalDigits(ds)
    ensures Numeral(ds) == Whole(ds)
    decreases |ds|
  {
    if ds != [] {
      NumeralOfDigits(ds[..|ds| - 1]);
    }
  }

  lemma {:induction false} NumeralSkipsPoint(a: bytes, b: bytes)
    requires DecimalDigits(a) && DecimalDigits(b)
    ensures Numeral(a + ([46] + b)) == Whole(a + b)
    decreases |b|
  {
    var t := a + ([46] + b);
    if b == [] {
      assert t == a + [46] && t[..|t| - 1] == a && a + b == a;
      NumeralOfDigits(a);
    } else {
      var b' := b[..|b| - 1];
      assert t[..|t| - 1] == a + ([46] + b') && t[|t| - 1] == b[|b| - 1];
      assert (a + b)[..|a + b| - 1] == a + b' && (a + b)[|a + b| - 1] == b[|b| - 1];
      NumeralSkipsPoint(a, b');
    }
  }

  lemma {:induction false} PointCounts(a: bytes, b: bytes)
    requires DecimalDigits(a) && DecimalDigits(b)
    ensures DigitCount(a + ([46] + b)) == |a| + |b| && Decimals(a + ([46] + b)) == |b|
  {
    var t := a + ([46] + b);
    if a == [] {
      assert t == [46] + b;
      TailOfCons(46, b);
      DigitRun(b, [], true);
    } else {
      ConsAppends(a, [46] + b);
      PointCounts(a[1..], b);
    }
  }

  lemma SpanOfFraction(a: bytes, b: bytes, rest: bytes)
    requires DecimalDigits(a) && DecimalDigits(b) && NoDigitNext(rest)
    ensures Span(a + ([46] + (b + rest)), false) == |a| + 1 + |b|
  {
    hide Span;
    DigitRun(a, [46] + (b + rest), false);
    SpanOfPoint(b + rest);
    DigitRun(b, rest, true);
    SpanStops(rest);
  }

  lemma SpanOfPoint(t: bytes)
    ensures Span([46] + t, false) == 1 + Span(t, true)
  {
    TailOfCons(46, t);
  }

  lemma SpanStops(rest: bytes)
    requires NoDigitNext(rest)
    ensures Span(rest, true) == 0
  {
  }

  /** The sign and what follows it. */
  lemma SignIsRead(sign: bytes, u: bytes)
    requires IsSign(sign) && u != [] && (u[0] == 46 || 48 <= u[0] <= 57)
    ensures var t := sign + u;
            && SkipWs(t) == t && HasSign(t) == (sign != []) && (if HasSign(t) then t[1..] else t) == u
            && (HasSign(t) && t[0] == MINUS <==> sign == [45])
  {
    AppendNothing(u);
    if sign != [] {
      TailOfCons(sign[0], u);
    }
  }

  lemma ParsedNumeral(sign: bytes, numeral: bytes, rest: bytes)
    requires IsSign(sign) && numeral != [] && (numeral[0] == 46 || 48 <= numeral[0] <= 57)
    requires Span(numeral + rest, false) == |numeral| && DigitCount(numeral) > 0
    requires forall i :: 0 <= i < |numeral| ==> IsDigit(numeral[i]) || numeral[i] == DOT
    ensures ParseNumber(sign + (numeral + rest))
         == Ok(if sign == [45] then -NumeralValue(numeral) else NumeralValue(numeral), rest)
  {
    var u := numeral + rest;
    SignIsRead(sign, u);
    assert u[..|numeral|] == numeral && u[|numeral|..] == rest;
    hide Span, DigitCount, NumeralValue, SkipWs, HasSign;
  }

  /**
   A numeral with a point: digits a before and b behind it, not both missing, an optional sign,
   in front of text that does not go on with a digit. The value, times ten to the number of
   digits behind the point, is the integer with all the digits.
   */
  lemma Fraction(sign: bytes, a: bytes, b: bytes, rest: bytes)
    requires IsSign(sign) && DecimalDigits(a) && DecimalDigits(b) && |a| + |b| > 0 && NoDigitNext(rest)
    ensures var r := ParseNumber(sign + ((a + ([46] + b)) + rest));
            r.Ok? && r.rest == rest && r.value * Power(|b|) as real == Signed(sign, Whole(a + b)) as real
  {
    hide *;
    var t := FractionParts(a, b, rest);
    ParsedNumeral(sign, t, rest);
    NumeralTimesPower(t, Whole(a + b), |b|);
    SignedProduct(sign, NumeralValue(t), Power(|b|) as real, Whole(a + b));
  }

  lemma FractionParts(a: bytes, b: bytes, rest: bytes) returns (t: bytes)
    requires DecimalDigits(a) && DecimalDigits(b) && |a| + |b| > 0 && NoDigitNext(rest)
    ensures t == a + ([46] + b) && t != [] && (t[0] == 46 || 48 <= t[0] <= 57)
    ensures Span(t + rest, false) == |t| && DigitCount(t) > 0
    ensures forall i :: 0 <= i < |t| ==> IsDigit(t[i]) || t[i] == DOT
    ensures Numeral(t) == Whole(a + b) && Decimals(t) == |b|
  {
    t := a + ([46] + b);
    SpanOfFraction(a, b, rest);
    PointCounts(a, b);
    NumeralSkipsPoint(a, b);
    hide Span, DigitCount, Numeral, Decimals, Whole;
    assert t + rest == a + ([46] + (b + rest));
  }

  lemma NumeralTimesPower(t: bytes, n: int, k: nat)
    requires forall i :: 0 <= i < |t| ==> IsDigit(t[i]) || t[i] == DOT
    requires Numeral(t) == n && Decimals(t) == k
    ensures NumeralValue(t) * Power(k) as real == n as real
  {
    PowerIsPow10(k);
    hide Numeral, Decimals, Power, Pow10, IsDigit;
    Scaled(n as real, Pow10(k) as real);
  }

  lemma SignedProduct(sign: bytes, v: real, p: real, n: int)
    requires v * p == n as real
    ensures (if sign == [45] then -v else v) * p == Signed(sign, n) as real
  {
    Negated(v, p);
  }

  lemma Scaled(n: real, p: real)
    requires p != 0.0
    ensures n / p * p == n
  {
  }

  lemma Negated(v: real, p: real)
    ensures (-v) * p == -(v * p)
  {
  }

  /** A numeral without a point is worth its digits. */
  lemma WholeNumber(sign: bytes, a: bytes, rest: bytes)
    requires IsSign(sign) && DecimalDigits(a) && a != [] && NoDigitNext(rest) && (rest == [] || rest[0] != 46)
    ensures ParseNumber(sign + (a + rest)) == Ok(Signed(sign, Whole(a)) as real, rest)
  {
    DigitRun(a, rest, false);
    assert Span(rest, false) == 0;
    NumeralOfDigits(a);
    ParsedNumeral(sign, a, rest);
    assert Pow10(0) == 1;
    hide ParseNumber, Span, DigitCount, Numeral, Whole;
  }

  /** Without a digit there is no number: not behind a sign, and not around a lonely point. */
  lemma NoNumber(sign: bytes, rest: bytes)
    requires IsSign(sign) && NoDigitNext(rest) && (rest == [] || (rest[0] != 46 && !IsSpace(rest[0]) && rest[0] !in {43, 45}))
    ensures ParseNumber(sign + rest).Bad? && ParseNumber(sign + ([46] + rest)).Bad?
  {
    SignIsRead(sign, [46] + rest);
    TailOfCons(46, rest);
    var u := [46] + rest;
    assert Span(rest, true) == 0 && Span(u, false) == 1;
    assert u[..1] == [46] && DigitCount([46]) == 0 by { assert [46][1..] == []; }
    if sign == [] {
      AppendNothing(rest);
    } else {
      TailOfCons(sign[0], rest);
    }
    assert Span(rest, false) == 0 && rest[..0] == [];
  }

  // ---------------------------------------------------------------- six significant digits

  lemma {:induction false} DigitsBetweenPowers(n: nat)
    ensures |Digits(n)| > 0 && n < Power(|Digits(n)|) && (n > 0 ==> Power(|Digits(n)| - 1) <= n)
  {
    if n >= 10 {
      DigitsBetweenPowers(n / 10);
    } else {
      assert Power(1) == Power(0) * 10;
    }
  }

  lemma {:induction false} WholeOfDigits(n: nat)
    ensures DecimalDigits(Digits(n)) && Whole(Digits(n)) == n
  {
    var d := Digits(n);
    if n >= 10 {
      WholeOfDigits(n / 10);
      assert d[..|d| - 1] == Digits(n / 10);
    } else {
      assert d[..0] == [];
    }
  }

  lemma QuotientIsNearest(a: nat, b: nat)
    requires b > 0
    ensures var q := RoundedQuotient(a, b);
            && 2 * (q * b - a) <= b && 2 * (a - q * b) <= b
            && (2 * (q * b - a) == b || 2 * (a - q * b) == b ==> q % 2 == 0)
  {
    var q, r := a / b, a % b;
    assert a == q * b + r;
    assert (q + 1) * b == q * b + b;
  }

  /** Removing k trailing zeros divides by ten to the k and takes k digits away. */
  lemma {:induction false} StrippedTimesPower(n: nat) returns (k: nat)
    requires n > 0
    ensures StripZeros(n) * Power(k) == n && StripZeros(n) % 10 != 0
    ensures |Digits(n)| == |Digits(StripZeros(n))| + k
  {
    if n % 10 == 0 {
      k := StrippedTimesPower(n / 10);
      assert StripZeros(n) * Power(k + 1) == StripZeros(n) * Power(k) * 10;
      k := k + 1;
    } else {
      k := 0;
    }
  }

  lemma SixDigits(m: nat)
    requires 100_000 <= m < 1_000_000
    ensures |Digits(m)| == 6
  {
    var a := m / 10;
    var b := a / 10;
    var c := b / 10;
    var d := c / 10;
    var e := d / 10;
    assert |Digits(e)| == 1;
    assert |Digits(d)| == 2;
    assert |Digits(c)| == 3;
    assert |Digits(b)| == 4;
    assert |Digits(a)| == 5;
  }

  /** Six digits m and an exponent e with m times ten to e - 5 nearest to n, ties going to an even m. */
  lemma Rounded(n: nat) returns (m: nat, e: nat)
    requires n >= 1_000_000
    ensures 100_000 <= m < 1_000_000 && e >= 6
    ensures 2 * (m * Power(e - 5) - n) <= Power(e - 5) && 2 * (n - m * Power(e - 5)) <= Power(e - 5)
    ensures 2 * (m * Power(e - 5) - n) == Power(e - 5) || 2 * (n - m * Power(e - 5)) == Power(e - 5) ==> m % 2 == 0
    ensures var e0 := |Digits(n)| - 1;
            e0 > 5 && var q := RoundedQuotient(n, Pow10(e0 - 5));
            (m, e) == (if q >= 1_000_000 then (q / 10, e0 + 1) else (q, e0))
  {
    var e0 := |Digits(n)| - 1;
    DigitsBetweenPowers(n);
    AtLeastSeven(n);
    var p := Power(e0 - 5);
    PowerIsPow10(e0 - 5);
    PowerSplits(e0);
    assert Power(e0 + 1) == Power(e0) * 10;
    hide Power, Digits, Pow10;
    var q := RoundedQuotient(n, p);
    QuotientIsNearest(n, p);
    QuotientInRange(n, p);
    if q >= 1_000_000 {
      m, e := q / 10, e0 + 1;
      CarriedPower(e0);
      assert m * Power(e - 5) == q * p;
    } else {
      m, e := q, e0;
    }
  }

  lemma CarriedPower(e0: nat)
    requires e0 > 5
    ensures Power(e0 + 1 - 5) == Power(e0 - 5) * 10 && Power(e0 - 5) > 0
  {
    PowerIsPow10(e0 - 5);
  }

  lemma AtLeastSeven(n: nat)
    requires n >= 1_000_000
    ensures |Digits(n)| >= 7
  {
    var a := n / 10;
    var b := a / 10;
    var c := b / 10;
    var d := c / 10;
    var e := d / 10;
    var f := e / 10;
    DigitsBetweenPowers(f);
    assert |Digits(e)| >= 2;
    assert |Digits(d)| >= 3;
    assert |Digits(c)| >= 4;
    assert |Digits(b)| >= 5;
    assert |Digits(a)| >= 6;
  }

  lemma PowerSplits(e: nat)
    requires e > 5
    ensures Power(e) == 100_000 * Power(e - 5)
  {
    assert Power(e) == Power(e - 1) * 10 && Power(e - 1) == Power(e - 2) * 10 && Power(e - 2) == Power(e - 3) * 10;
    assert Power(e - 3) == Power(e - 4) * 10 && Power(e - 4) == Power(e - 5) * 10;
  }

  lemma QuotientInRange(n: nat, p: nat)
    requires p > 0 && 100_000 * p <= n < 1_000_000 * p
    ensures 100_000 <= RoundedQuotient(n, p) <= 1_000_000
  {
    var q, r := n / p, n % p;
    assert n == q * p + r;
    QuotientBetween(q, r, p, n);
  }

  lemma QuotientBetween(q: nat, r: nat, p: nat, n: nat)
    requires n == q * p + r && r < p && 100_000 * p <= n < 1_000_000 * p
    ensures 100_000 <= q < 1_000_000
  {
    Monotone(q + 1, 100_000, p);
    Monotone(1_000_000, q, p);
    assert (q + 1) * p == q * p + p;
  }

  lemma Monotone(x: nat, y: nat, p: nat)
    ensures x <= y ==> x * p <= y * p
  {
  }

  /**
   The text of an integer of a million or more: one digit, a point and up to five more without
   trailing zeros, then e+ and the exponent in at least two digits. The six digits, zeros
   added back, make the nearest number of that form,
   an even one if there are two.
   */
  lemma MillionText(n: nat) returns (m: nat, e: nat, k: nat, head: bytes, frac: bytes, exponent: bytes)
    requires n >= 1_000_000
    ensures NumberText(n) == head + ((if frac == [] then [] else [46] + frac) + ([101, 43] + exponent))
    ensures |head| == 1 && |frac| + k == 5 && DecimalDigits(head + frac)
    ensures Whole(head + frac) * Power(k) == m && Whole(head + frac) % 10 != 0
    ensures DecimalDigits(exponent) && Whole(exponent) == e && |exponent| >= 2 && (|exponent| > 2 ==> exponent[0] != 48)
    ensures 100_000 <= m < 1_000_000 && e >= 6
    ensures 2 * (m * Power(e - 5) - n) <= Power(e - 5) && 2 * (n - m * Power(e - 5)) <= Power(e - 5)
    ensures 2 * (m * Power(e - 5) - n) == Power(e - 5) || 2 * (n - m * Power(e - 5)) == Power(e - 5) ==> m % 2 == 0
  {
    m, e := Rounded(n);
    k := StrippedTimesPower(m);
    SixDigits(m);
    var shown := StripZeros(m);
    var d := Digits(shown);
    WholeOfDigits(shown);
    head, frac := d[..1], d[1..];
    assert head + frac == d;
    exponent := (if e < 10 then [48] else []) + Digits(e);
    ExponentText(e);
    ScientificText(n, m, e, d, exponent);
    hide Scientific, Digits, Whole, Power, StripZeros;
    AppendNothing(Scientific(n));
  }

  lemma ScientificText(n: nat, m: nat, e: nat, d: bytes, exponent: bytes)
    requires n >= 1_000_000 && d == Digits(StripZeros(m)) && exponent == (if e < 10 then [48] else []) + Digits(e)
    requires var e0 := |Digits(n)| - 1;
             e0 > 5 && var q := RoundedQuotient(n, Pow10(e0 - 5));
             (m, e) == (if q >= 1_000_000 then (q / 10, e0 + 1) else (q, e0))
    ensures |d| > 0
    ensures Scientific(n) == d[..1] + ((if d[1..] == [] then [] else [46] + d[1..]) + ([101, 43] + exponent))
  {
    DigitsBetweenPowers(StripZeros(m));
    hide Digits, StripZeros, RoundedQuotient, Pow10;
    assert d[..1] == [d[0]];
  }

  lemma ExponentText(e: nat)
    requires e >= 6
    ensures var x := (if e < 10 then [48] else []) + Digits(e);
            DecimalDigits(x) && Whole(x) == e && |x| >= 2 && (|x| > 2 ==> x[0] != 48)
  {
    var d := Digits(e);
    WholeOfDigits(e);
    if e < 10 {
      var x: bytes := [48] + d;
      assert x[..1] == [48] && x[1] == d[0];
      var zero: bytes := [48];
      assert zero[..0] == [];
      assert Whole(zero) == 0;
      assert Whole(x) == Whole(x[..1]) * 10 + x[1] - 48;
    } else {
      AppendNothing(d);
      NoLeadingZero(e);
    }
  }

  lemma {:induction false} NoLeadingZero(n: nat)
    requires n > 0
    ensures |Digits(n)| > 0 && Digits(n)[0] != 48 && (n >= 10 ==> |Digits(n)| >= 2)
  {
    if n >= 10 {
      NoLeadingZero(n / 10);
    }
  }
}
