/** The first half of UnityPrintFloat: scale a positive number to seven or nine digits before the
    point, and round. Floating-point operations are taken exactly, on reals. */
module FloatScaling {
  import opened Arithmetic
  import opened Decimal

  newtype int32 = x: int | -0x8000_0000 <= x < 0x8000_0000

  /** The two builds: single precision prints 7 significant digits, double precision 9. */
  datatype Precision = Single | Double {
    function SigDigits(): nat {
      if Single? then 7 else 9
    }

    function MinScaled(): int32 {
      if Single? then 1000000 else 100000000
    }

    function MaxScaled(): int32 {
      if Single? then 10000000 else 1000000000
    }

    function Min(): real {
      if Single? then 1000000.0 else 100000000.0
    }

    function Max(): real {
      if Single? then 10000000.0 else 1000000000.0
    }
  }

  /** x * 10^e: the number x with its decimal point moved by e places. */
  function Scaled(x: real, e: int): real
    decreases if e < 0 then -e else e
  {
    if e == 0 then x
    else if e > 0 then Scaled(10.0 * x, e - 1)
    else Scaled(x / 10.0, e + 1)
  }

  /** Moving one power of ten from the exponent to the number. */
  lemma ShiftOne(x: real, e: int)
    ensures Scaled(10.0 * x, e - 1) == Scaled(x, e)
  {
    assert 10.0 * x / 10.0 == x;
  }

  lemma ShiftTen(x: real, e: int)
    ensures Scaled(10000000000.0 * x, e - 10) == Scaled(x, e)
  {
    ShiftOne(x, e);
    ShiftOne(10.0 * x, e - 1);
    ShiftOne(100.0 * x, e - 2);
    ShiftOne(1000.0 * x, e - 3);
    ShiftOne(10000.0 * x, e - 4);
    hide Scaled;
    ShiftOne(100000.0 * x, e - 5);
    ShiftOne(1000000.0 * x, e - 6);
    ShiftOne(10000000.0 * x, e - 7);
    ShiftOne(100000000.0 * x, e - 8);
    ShiftOne(1000000000.0 * x, e - 9);
  }

  /** Scaling is multiplication by the power of ten. */
  lemma {:induction false} ScaledIsProduct(x: real, e: int)
    ensures Scaled(x, e) == if e >= 0 then x * Pow10(e) as real else x / Pow10(-e) as real
    decreases if e < 0 then -e else e
  {
    if e > 0 {
      ScaledIsProduct(10.0 * x, e - 1);
      assert (10.0 * x) * Pow10(e - 1) as real == x * (10.0 * Pow10(e - 1) as real);
    } else if e < 0 {
      ScaledIsProduct(x / 10.0, e + 1);
      DivideByTen(x, Pow10(-e - 1) as real);
      assert Pow10(-e) as real == 10.0 * Pow10(-e - 1) as real;
    }
  }

  /** The branch for numbers below 1: multiply up, first by 10^10, then by 10. */
  method ScaleUp(x: real, prec: Precision) returns (number: real, exponent: int)
    requires 0.0 < x < 1.0
    ensures prec.Min() <= number < prec.Max()
    ensures Scaled(number, exponent) == x
    ensures exponent < 0
  {
    number, exponent := x, 0;
    assert Scaled(x, 0) == x;
    hide Scaled;
    var factor := 1.0;
    while number < prec.Max() / 10000000000.0
      invariant 0.0 < number < prec.Max()
      invariant Scaled(number, exponent) == x
      invariant exponent <= 0 && (exponent == 0 ==> number < 1.0)
      decreases 1.0 / number
    {
      ShiftTen(number, exponent);
      ScalingShrinksInverse(number);
      number := number * 10000000000.0;
      exponent := exponent - 10;
    }
    ghost var scaled := number;
    while number * factor < prec.Min()
      invariant factor >= 1.0 && scaled == number * factor
      invariant 0.0 < scaled < prec.Max()
      invariant Scaled(scaled, exponent) == x
      invariant exponent <= 0 && (exponent == 0 ==> scaled < 1.0)
      decreases prec.Min() / number - factor
    {
      ShiftOne(scaled, exponent);
      FactorIsBelow(number, factor, prec.Min());
      assert number * (factor * 10.0) == 10.0 * scaled;
      factor := factor * 10.0;
      exponent := exponent - 1;
      scaled := 10.0 * scaled;
    }
    number := number * factor;
  }

  lemma ScalingShrinksInverse(x: real)
    requires 0.0 < x < 0.5
    ensures 1.0 / (x * 10000000000.0) <= 1.0 / x - 1.0
  {
    var y := 1.0 / x;
    assert y * x == 1.0;
    assert y > 2.0;
    assert 1.0 / (x * 10000000000.0) == y / 10000000000.0;
  }

  lemma FactorIsBelow(number: real, factor: real, bound: real)
    requires 0.0 < number && number * factor < bound
    ensures factor < bound / number
  {
  }

  /** The branch for numbers above the largest: divide down, first by 10^10, then by 10. */
  method ScaleDown(x: real, prec: Precision) returns (number: real, exponent: int)
    requires x > prec.Max()
    ensures prec.Min() < number <= prec.Max()
    ensures Scaled(number, exponent) == x
    ensures exponent > 0
  {
    number, exponent := x, 0;
    assert Scaled(x, 0) == x;
    hide Scaled;
    var divisor := 1.0;
    while number > prec.Min() * 10000000000.0
      invariant number > prec.Min()
      invariant Scaled(number, exponent) == x
      invariant exponent >= 0 && (exponent == 0 ==> number > prec.Max())
      decreases number
    {
      ShiftTen(number / 10000000000.0, exponent + 10);
      number := number / 10000000000.0;
      exponent := exponent + 10;
    }
    ghost var scaled := number;
    while number / divisor > prec.Max()
      invariant divisor >= 1.0 && scaled == number / divisor
      invariant scaled > prec.Min()
      invariant Scaled(scaled, exponent) == x
      invariant exponent >= 0 && (exponent == 0 ==> scaled > prec.Max())
      decreases scaled
    {
      ShiftOne(scaled / 10.0, exponent + 1);
      DivideByTen(number, divisor);
      divisor := divisor * 10.0;
      exponent := exponent + 1;
      scaled := scaled / 10.0;
    }
    number := number / divisor;
  }

  lemma DivideByTen(x: real, d: real)
    requires d >= 1.0
    ensures x / (d * 10.0) == x / d / 10.0
  {
    var q := x / d;
    assert x == q * d;
    assert q / 10.0 * (d * 10.0) == q * d;
  }

  // ---------------------------------------------------------------- the middle range

  predicate SmallPower(f: int) {
    f == 1 || f == 10 || f == 100 || f == 1000 || f == 10000 || f == 100000 || f == 1000000 || f == 10000000
    || f == 100000000
  }

  /** The scaled integer part `n`, a multiple of the power `f` by which it was scaled, which was
      still below the smallest scaled number one power earlier. */
  predicate Grown(n: int, f: int, prec: Precision) {
    && SmallPower(f)
    && n >= f
    && n % f == 0
    && (f > 1 ==> n % 10 == 0 && n / 10 < prec.MinScaled() as int)
  }

  lemma TenfoldMultiple(n: nat, f: nat)
    requires f > 0
    ensures n % f == 0 <==> (10 * n) % (10 * f) == 0
  {
    Quotient(n, f);
    QuotientIsUnique(10 * n, n / f, 10 * (n % f), 10 * f);
  }

  lemma GrowsOn(n: int, f: int, prec: Precision)
    requires Grown(n, f, prec) && n < prec.MinScaled() as int
    ensures Grown(10 * n, 10 * f, prec)
  {
    TenfoldMultiple(n, f);
  }

  /** Then the whole number, which is less than n + f, is within the largest scaled number. */
  lemma GrownFits(n: int, f: int, prec: Precision)
    requires Grown(n, f, prec)
    ensures 1 <= f <= 100000000
    ensures f > 1 ==> n % 10 == 0 && n + f <= prec.MaxScaled() as int
  {
    if f > 1 {
      TenfoldMultiple(n / 10, f / 10);
      assert prec.MinScaled() as int % (f / 10) == 0;
      hide SmallPower;
      MultiplesAreApart(n / 10, prec.MinScaled() as int, f / 10);
    }
  }

  /** What the integer part and the fraction, scaled, add up to. */
  function Sum(nInt: int32, number: real, factor: real): real {
    nInt as real + number * factor
  }

  lemma SumGrows(nInt: int32, number: real, factor: real)
    requires 0 <= nInt < 200000000
    ensures Sum(nInt * 10, number, factor * 10.0) == 10.0 * Sum(nInt, number, factor)
  {
    assert number * (factor * 10.0) == 10.0 * (number * factor);
  }

  /** The branch for numbers in between: split off the integer part, then scale both parts. */
  method SplitUnits(x: real, prec: Precision) returns (nInt: int32, number: real, exponent: int)
    requires 1.0 <= x <= prec.Max()
    ensures prec.MinScaled() <= nInt
    ensures 0.0 <= number < 100000000.0 && nInt as real + number <= prec.Max()
    ensures Scaled(nInt as real + number, exponent) == x
    ensures exponent <= 0
    ensures if x < prec.Min() then nInt % 10 == 0
            else exponent == 0 && nInt as int == x.Floor && number == x - x.Floor as real
  {
    assert Scaled(x, 0) == x;
    hide Scaled;
    exponent := 0;
    var factor := 1.0;
    nInt := x.Floor as int32;
    number := x - nInt as real;
    ghost var f := 1;
    assert Sum(nInt, number, factor) == x;
    assert Grown(nInt as int, f, prec);
    hide Grown, Sum;
    while nInt < prec.MinScaled()
      invariant factor == f as real && Grown(nInt as int, f, prec)
      invariant 1 <= nInt <= prec.MaxScaled()
      invariant Scaled(Sum(nInt, number, factor), exponent) == x
      invariant exponent <= 0
      invariant f == 1 ==> exponent == 0 && nInt as int == x.Floor
      invariant f > 1 ==> x < prec.Min()
      decreases prec.MinScaled() as int - nInt as int
    {
      GrowsOn(nInt as int, f, prec);
      ShiftOne(Sum(nInt, number, factor), exponent);
      SumGrows(nInt, number, factor);
      nInt := nInt * 10;
      factor := factor * 10.0;
      exponent := exponent - 1;
      f := f * 10;
    }
    FractionIsBelow(nInt, number, factor);
    number := number * factor;
    SplitEnds(nInt, number, f, prec);
  }

  /** Where the scaling loop ends: the fraction is in range, and both parts together are. */
  lemma SplitEnds(nInt: int32, fraction: real, f: int, prec: Precision)
    requires 0.0 <= fraction < f as real && Grown(nInt as int, f, prec)
    ensures 0.0 <= fraction < 100000000.0
    ensures f > 1 ==> nInt % 10 == 0 && nInt as real + fraction <= prec.Max()
  {
    hide Grown, SmallPower;
    GrownFits(nInt as int, f, prec);
  }

  lemma FractionIsBelow(nInt: int32, fraction: real, factor: real)
    requires 0.0 <= fraction < 1.0 && factor >= 1.0
    ensures 0.0 <= fraction * factor < factor
    ensures Sum(nInt, fraction, factor) == nInt as real + fraction * factor
    ensures factor == 1.0 ==> fraction * factor == fraction
  {
  }

  // ---------------------------------------------------------------- rounding

  /** A conversion to int32, which cuts off the fraction; it is only defined in range. */
  function CastInt32(r: real): int32
    requires 0.0 <= r < 2147483648.0
  {
    r.Floor as int32
  }

  /** Round to the nearest integer, and a half to the even one. */
  function RoundHalf(number: real): int32
    requires 0.0 <= number <= 1000000000.0
  {
    var n := (CastInt32(number + number) + 1) / 2;
    if n % 2 != 0 && n as real - number == 0.5 then n - 1 else n
  }

  lemma RoundHalfIsNearest(number: real)
    requires 0.0 <= number <= 1000000000.0
    ensures var n := RoundHalf(number) as int;
            && 0 <= n
            && -0.5 <= n as real - number <= 0.5
            && ((n as real - number == 0.5 || n as real - number == -0.5) ==> n % 2 == 0)
  {
    var t := (number + number).Floor;
    var m := (t + 1) / 2;
    assert t as real <= number + number < t as real + 1.0;
    assert t == 2 * m || t + 1 == 2 * m;
    assert ((CastInt32(number + number) + 1) / 2) as int == m;
  }

  /** The distance of x from n * 10^e is at most half a unit of 10^e. */
  predicate WithinHalfUnit(x: real, n: int, e: int) {
    Scaled(-0.5, e) <= x - Scaled(n as real, e) <= Scaled(0.5, e)
  }

  predicate IsTie(x: real, n: int, e: int) {
    x - Scaled(n as real, e) == Scaled(0.5, e) || x - Scaled(n as real, e) == Scaled(-0.5, e)
  }

  /** n * 10^e is x rounded to the significant digits of the build: n has that many digits, it is
      within half a unit, and e is the exponent at which x has that many digits before the point,
      or one more where rounding carried over to the next power of ten. */
  predicate CorrectlyRounded(x: real, n: int, e: int, prec: Precision) {
    && prec.MinScaled() as int <= n < prec.MaxScaled() as int
    && WithinHalfUnit(x, n, e)
    && (|| Scaled(prec.Min(), e) <= x
        || (n == prec.MinScaled() as int && x < Scaled(prec.Min(), e) && Scaled(prec.Max() - 0.5, e - 1) <= x))
  }

  // ---------------------------------------------------------------- scaled values

  lemma {:induction false} ScaledDifference(a: real, b: real, e: int)
    ensures Scaled(a, e) - Scaled(b, e) == Scaled(a - b, e)
    decreases if e < 0 then -e else e
  {
    if e > 0 {
      ScaledDifference(10.0 * a, 10.0 * b, e - 1);
      assert 10.0 * a - 10.0 * b == 10.0 * (a - b);
    } else if e < 0 {
      ScaledDifference(a / 10.0, b / 10.0, e + 1);
      assert a / 10.0 - b / 10.0 == (a - b) / 10.0;
    }
  }

  lemma {:induction false} ScaledSign(c: real, e: int)
    ensures c > 0.0 <==> Scaled(c, e) > 0.0
    decreases if e < 0 then -e else e
  {
    if e > 0 {
      ScaledSign(10.0 * c, e - 1);
    } else if e < 0 {
      ScaledSign(c / 10.0, e + 1);
    }
  }

  lemma ScaledOrder(a: real, b: real, e: int)
    ensures a < b <==> Scaled(a, e) < Scaled(b, e)
  {
    hide Scaled;
    ScaledDifference(b, a, e);
    ScaledSign(b - a, e);
  }

  lemma ScaledNegative(a: real, e: int)
    ensures Scaled(0.0, e) == 0.0 && Scaled(-a, e) == 0.0 - Scaled(a, e)
  {
    hide Scaled;
    ScaledDifference(0.0, 0.0, e);
    ScaledDifference(0.0, a, e);
    assert 0.0 - a == -a;
  }

  lemma {:induction false} ScaledTimes(c: real, a: real, product: real, e: int)
    requires product == c * a
    ensures c * Scaled(a, e) == Scaled(product, e)
    decreases if e < 0 then -e else e
  {
    if e > 0 {
      assert 10.0 * product == c * (10.0 * a);
      ScaledTimes(c, 10.0 * a, 10.0 * product, e - 1);
    } else if e < 0 {
      assert product / 10.0 == c * (a / 10.0);
      ScaledTimes(c, a / 10.0, product / 10.0, e + 1);
    }
  }

  lemma {:induction false} ScaledInExponent(a: real, d: int, e: int)
    requires a >= 0.0 && d <= e
    ensures Scaled(a, d) <= Scaled(a, e)
    decreases e - d
  {
    hide Scaled;
    if d < e {
      ScaledInExponent(a, d, e - 1);
      ShiftOne(a, e);
      ScaledOrder(10.0 * a, a, e - 1);
    }
  }

  // ---------------------------------------------------------------- the result

  /** Rounding a scaled number s to n is right: as it is, or carried over to the next power. */
  lemma RoundingIsCorrect(x: real, s: real, e: int, n: int, prec: Precision)
    requires Scaled(s, e) == x && prec.Min() <= s <= prec.Max()
    requires -0.5 <= n as real - s <= 0.5
    ensures prec.MinScaled() as int <= n <= prec.MaxScaled() as int
    ensures n < prec.MaxScaled() as int ==>
              && CorrectlyRounded(x, n, e, prec)
              && (IsTie(x, n, e) <==> n as real - s == 0.5 || n as real - s == -0.5)
    ensures n == prec.MaxScaled() as int ==>
              && CorrectlyRounded(x, prec.MinScaled() as int, e + 1, prec)
              && !IsTie(x, prec.MinScaled() as int, e + 1)
  {
    hide Scaled;
    var t := n as real;
    ScaledDifference(s, t, e);
    ScaledOrder(s - t, 0.5, e);
    ScaledOrder(0.5, s - t, e);
    ScaledOrder(s - t, -0.5, e);
    ScaledOrder(-0.5, s - t, e);
    ScaledOrder(s, prec.Min(), e);
    assert WithinHalfUnit(x, n, e);
    if n == prec.MaxScaled() as int {
      ScaledOrder(s, prec.Max(), e);
      ScaledOrder(s, prec.Max() - 0.5, e);
      ShiftOne(prec.Min(), e + 1);
      ShiftOne(0.5, e + 1);
      ShiftOne(-0.5, e + 1);
      ScaledOrder(0.5, 5.0, e);
      ScaledOrder(-5.0, -0.5, e);
    }
  }

  /** The number is in the range where its integer part is kept as it is, and that part is odd. */
  predicate KeepsOddUnits(x: real, prec: Precision) {
    prec.Min() <= x <= prec.Max() && x.Floor % 2 != 0
  }

  /** The three ways of scaling: x is (nInt + number) * 10^exponent, with as many digits before the
      point as are significant. */
  method Scale(x: real, prec: Precision) returns (nInt: int32, number: real, exponent: int)
    requires x > 0.0
    ensures 0 <= nInt <= prec.MaxScaled() && 0.0 <= number <= prec.Max()
    ensures prec.Min() <= nInt as real + number <= prec.Max()
    ensures Scaled(nInt as real + number, exponent) == x
    ensures nInt % 2 == 0 <==> !KeepsOddUnits(x, prec)
    ensures prec.Min() <= x <= prec.Max() ==>
              exponent == 0 && nInt as int == x.Floor && number == x - x.Floor as real
  {
    hide Scaled;
    nInt, number := 0, x;
    if number < 1.0 {
      number, exponent := ScaleUp(x, prec);
    } else if number > prec.Max() {
      number, exponent := ScaleDown(x, prec);
    } else {
      nInt, number, exponent := SplitUnits(x, prec);
    }
  }

  /** UnityPrintFloat up to the rounded digits, for a positive number. The types int32 show that no
      conversion and no product on the way overflows. Digits and exponent are x correctly rounded.
      On a tie the even neighbour is taken, as the code intends, except in the range where the
      integer part is kept as it is and is odd: there the tie goes down to the odd one. So a number
      of that range that is half way between two integers always goes down. */
  method ScaleAndRound(x: real, prec: Precision) returns (n: int32, exponent: int)
    requires x > 0.0
    ensures CorrectlyRounded(x, n as int, exponent, prec)
    ensures IsTie(x, n as int, exponent) ==> (n % 2 == 0 <==> !KeepsOddUnits(x, prec))
    ensures HalfWay(x, prec) ==> n as int == x.Floor && exponent == 0
  {
    hide Scaled, CorrectlyRounded, IsTie, RoundHalf, KeepsOddUnits;
    var nInt, number;
    nInt, number, exponent := Scale(x, prec);
    n := RoundHalf(number);
    RoundHalfIsNearest(number);
    RoundHalfOfHalf();
    RoundingIsCorrect(x, nInt as real + number, exponent, n as int + nInt as int, prec);
    ParityOfSum(n, nInt);
    n := n + nInt;
    if n >= prec.MaxScaled() {
      n := prec.MinScaled();
      exponent := exponent + 1;
    }
  }

  lemma RoundHalfOfHalf()
    ensures RoundHalf(0.5) == 0
  {
  }

  lemma ParityOfSum(a: int32, b: int32)
    requires 0 <= a <= 1000000000 && 0 <= b <= 1000000000
    ensures a % 2 == 0 ==> ((a + b) % 2 == 0 <==> b % 2 == 0)
  {
  }

  /** The result of rounding is determined by the number: two correct ones are equal unless one of
      them is a tie. */
  lemma RoundingIsUnique(x: real, n: int, e: int, n': int, e': int, prec: Precision)
    requires CorrectlyRounded(x, n, e, prec) && CorrectlyRounded(x, n', e', prec)
    requires !IsTie(x, n, e) && !IsTie(x, n', e')
    ensures n == n' && e == e'
  {
    hide Scaled;
    if e < e' {
      ExponentIsLeast(x, n, e, n', e', prec);
    } else if e' < e {
      ExponentIsLeast(x, n', e', n, e, prec);
    } else {
      ScaledDifference(n as real, n' as real, e);
      ScaledDifference(0.5, -0.5, e);
      ScaledDifference(-0.5, 0.5, e);
      ScaledOrder(n as real - n' as real, 1.0, e);
      ScaledOrder(-1.0, n as real - n' as real, e);
    }
  }

  /** A correct result at a lower exponent lies below every correct result at a higher one. */
  lemma ExponentIsLeast(x: real, n: int, e: int, n': int, e': int, prec: Precision)
    requires CorrectlyRounded(x, n, e, prec) && CorrectlyRounded(x, n', e', prec)
    requires e < e'
    ensures IsTie(x, n, e)
  {
    hide Scaled, CorrectlyRounded, IsTie;
    LowerBound(x, n', e', prec);
    UpperBound(x, n, e, prec);
    ScaledInExponent(prec.Max() - 0.5, e, e' - 1);
  }

  lemma LowerBound(x: real, n: int, e: int, prec: Precision)
    requires CorrectlyRounded(x, n, e, prec)
    ensures Scaled(prec.Max() - 0.5, e - 1) <= x
  {
    hide Scaled;
    ShiftOne(prec.Min(), e);
    ScaledOrder(prec.Max() - 0.5, prec.Max(), e - 1);
  }

  lemma UpperBound(x: real, n: int, e: int, prec: Precision)
    requires CorrectlyRounded(x, n, e, prec)
    ensures x <= Scaled(prec.Max() - 0.5, e)
    ensures x == Scaled(prec.Max() - 0.5, e) ==> IsTie(x, n, e)
  {
    hide Scaled;
    var top := prec.Max() - 0.5;
    ScaledDifference(n as real + 0.5, n as real, e);
    ScaledOrder(top, n as real + 0.5, e);
    assert n as real + 0.5 <= top;
  }

  /** Half way between two integers, in the range where no scaling is needed. */
  predicate HalfWay(x: real, prec: Precision) {
    prec.Min() <= x < prec.Max() && x == x.Floor as real + 0.5
  }

  lemma HalfWayExponent(x: real, n: int, e: int, prec: Precision)
    requires HalfWay(x, prec) && CorrectlyRounded(x, n, e, prec)
    ensures 0 <= e <= 1
  {
    var top := prec.Max() - 0.5;
    assert Scaled(top, -1) < prec.Min() && Scaled(top, 1) > x;
    hide Scaled, CorrectlyRounded;
    if e > 1 {
      LowerBound(x, n, e, prec);
      ScaledInExponent(top, 1, e - 1);
      assert false;
    } else if e < 0 {
      UpperBound(x, n, e, prec);
      ScaledInExponent(top, e, -1);
      assert false;
    }
  }

  lemma ScaledByTen(x: real)
    ensures Scaled(x, 0) == x && Scaled(x, 1) == 10.0 * x
  {
  }

  lemma HalfWayUnscaled(x: real, n: int, prec: Precision)
    requires HalfWay(x, prec)
    ensures CorrectlyRounded(x, n, 0, prec) <==> (n == x.Floor || n == x.Floor + 1) && n < prec.MaxScaled() as int
    ensures CorrectlyRounded(x, n, 0, prec) ==> IsTie(x, n, 0)
  {
    hide Scaled;
    ScaledByTen(0.5);
    ScaledByTen(-0.5);
    ScaledByTen(n as real);
    ScaledByTen(prec.Min());
  }

  lemma HalfWayCarried(x: real, n: int, prec: Precision)
    requires HalfWay(x, prec)
    ensures CorrectlyRounded(x, n, 1, prec) <==> n == prec.MinScaled() as int && x == prec.Max() - 0.5
    ensures CorrectlyRounded(x, n, 1, prec) ==> !IsTie(x, n, 1)
  {
    hide Scaled;
    ScaledByTen(0.5);
    ScaledByTen(-0.5);
    ScaledByTen(n as real);
    ScaledByTen(prec.Min());
    ScaledByTen(prec.Max() - 0.5);
  }

  /** The correct roundings of such a number are both its neighbours, and both are ties; except that
      the largest one has no upper neighbour with enough digits, but the next power of ten. */
  lemma HalfWayIsTie(x: real, n: int, e: int, prec: Precision)
    requires HalfWay(x, prec)
    ensures CorrectlyRounded(x, n, e, prec) <==>
              || (e == 0 && n == x.Floor)
              || (e == 0 && n == x.Floor + 1 && n < prec.MaxScaled() as int)
              || (e == 1 && n == prec.MinScaled() as int && x == prec.Max() - 0.5)
    ensures CorrectlyRounded(x, n, e, prec) ==> (IsTie(x, n, e) <==> e == 0)
  {
    hide CorrectlyRounded, IsTie;
    HalfWayUnscaled(x, n, prec);
    HalfWayCarried(x, n, prec);
    if CorrectlyRounded(x, n, e, prec) {
      HalfWayExponent(x, n, e, prec);
    }
  }

  /** In relative terms: the result differs from x by at most one part in twice the smallest scaled
      number, 5e-7 in single and 5e-9 in double precision. */
  lemma RelativeError(x: real, n: int, e: int, prec: Precision)
    requires CorrectlyRounded(x, n, e, prec)
    ensures -x <= (x - Scaled(n as real, e)) * (2.0 * prec.Min()) <= x
  {
    hide Scaled;
    ScaledNegative(0.5, e);
    ScaledTimes(2.0 * prec.Min(), 0.5, prec.Min(), e);
    if Scaled(prec.Min(), e) > x {
      ShiftOne(prec.Min(), e);
      ScaledDifference(prec.Max(), prec.Max() - 0.5, e - 1);
      ScaledTimes(2.0 * prec.Min(), 0.5, prec.Min(), e - 1);
      ScaledOrder(prec.Min(), prec.Max() - 0.5, e - 1);
    }
  }

  /** Bounds on the number give bounds on the exponent. */
  lemma ExponentIsBounded(x: real, n: int, e: int, prec: Precision, lo: int, hi: int)
    requires CorrectlyRounded(x, n, e, prec)
    requires Scaled(1.0, lo) <= x <= Scaled(1.0, hi)
    ensures lo - 10 <= e <= hi + 1
  {
    hide Scaled, CorrectlyRounded;
    if e > hi + 1 {
      LowerBound(x, n, e, prec);
      ScaledInExponent(1.0, hi, e - 1);
      ScaledOrder(1.0, prec.Max() - 0.5, e - 1);
      assert false;
    }
    if e < lo - 10 {
      UpperBound(x, n, e, prec);
      ShiftTen(1.0, e + 10);
      ScaledOrder(prec.Max() - 0.5, 10000000000.0, e);
      ScaledInExponent(1.0, e + 10, lo);
      assert false;
    }
  }

  /** 123456789.5 in double precision: the even neighbour is as near, the odd one is returned. */
  method TieCanGoToOdd() returns (n: int32, exponent: int)
    ensures n == 123456789 && exponent == 0
    ensures IsTie(123456789.5, 123456790, 0) && CorrectlyRounded(123456789.5, 123456790, 0, Double)
  {
    assert 123456789.5.Floor == 123456789;
    n, exponent := ScaleAndRound(123456789.5, Double);
  }
}
