/** The second half of UnityPrintFloat: lay out n * 10^exponent as decimal text, and the reading of
    such text. */
module FloatLayout {
  import opened Decimal
  import opened FloatScaling

  // ---------------------------------------------------------------- the text

  /** The digits of n, with leading zeros up to a width. */
  function Padded(n: nat, width: nat): (s: string)
    ensures AllDigits(s) && |s| >= width
    decreases n + width
  {
    if n == 0 && width == 0 then []
    else Padded(n / 10, if width == 0 then 0 else width - 1) + [DigitChar(n % 10)]
  }

  /** The number of digits after the point before trailing zeros are dropped. */
  function DecimalsFor(exponent: int, sig: nat): (d: int)
    requires sig >= 1
    ensures d >= 0
  {
    if exponent <= 0 && exponent >= -(sig + 3) then -exponent else sig - 1
  }

  /** n and the decimals after dropping trailing zeros behind the point. */
  function Trimmed(n: nat, decimals: nat): (nat, nat)
    decreases decimals
  {
    if decimals > 0 && n % 10 == 0 then Trimmed(n / 10, decimals - 1) else (n, decimals)
  }

  function Mantissa(n: nat, decimals: nat): string {
    var p := Padded(n, decimals + 1);
    WithPoint(p, |p| - decimals)
  }

  /** The text with a point at an index, unless that is its end. */
  function WithPoint(p: string, at: nat): string
    requires at <= |p|
  {
    if at == |p| then p else p[..at] + "." + p[at..]
  }

  function ExponentText(e: int): string {
    if e == 0 then ""
    else if e < 0 then "e-" + Padded(-e, 2)
    else "e+" + Padded(e, 2)
  }

  function FloatText(n: nat, exponent: int, sig: nat): string
    requires sig >= 1
  {
    var d := DecimalsFor(exponent, sig);
    var (n', d') := Trimmed(n, d);
    Mantissa(n', d') + ExponentText(exponent + d)
  }

  // ---------------------------------------------------------------- reading it

  /** The index of the first `c`, or the length. */
  function IndexOf(s: string, c: char): (i: nat)
    ensures i <= |s|
    ensures i < |s| ==> s[i] == c
    ensures forall k :: 0 <= k < i ==> s[k] != c
  {
    if s == [] || s[0] == c then 0 else 1 + IndexOf(s[1..], c)
  }

  /** Digits, and possibly a point with at least one digit on either side. */
  predicate IsMantissa(m: string) {
    var i := IndexOf(m, '.');
    && m != []
    && AllDigits(m[..i])
    && (i < |m| ==> 0 < i < |m| - 1 && AllDigits(m[i + 1..]))
  }

  function ReadMantissa(m: string): real
    requires IsMantissa(m)
  {
    var i := IndexOf(m, '.');
    if i == |m| then Value(m) as real
    else Scaled(Value(m[..i] + m[i + 1..]) as real, -(|m| - i - 1))
  }

  /** Nothing, or `e`, a sign, and at least two digits. */
  predicate IsExponent(t: string) {
    t != [] ==> |t| >= 4 && t[0] == 'e' && (t[1] == '+' || t[1] == '-') && AllDigits(t[2..])
  }

  function ReadExponent(t: string): int
    requires IsExponent(t)
  {
    if t == [] then 0
    else if t[1] == '-' then 0 - Value(t[2..])
    else Value(t[2..])
  }

  predicate IsFloat(s: string) {
    IsMantissa(s[..IndexOf(s, 'e')]) && IsExponent(s[IndexOf(s, 'e')..])
  }

  /** The number that a text in scientific notation denotes. */
  function ReadFloat(s: string): real
    requires IsFloat(s)
  {
    Scaled(ReadMantissa(s[..IndexOf(s, 'e')]), ReadExponent(s[IndexOf(s, 'e')..]))
  }

  // ---------------------------------------------------------------- reading back

  lemma {:induction false} PaddedReadsBack(n: nat, width: nat)
    ensures Value(Padded(n, width)) == n
    decreases n + width
  {
    if n != 0 || width != 0 {
      var w := if width == 0 then 0 else width - 1;
      PaddedReadsBack(n / 10, w);
      var p := Padded(n, width);
      assert p[..|p| - 1] == Padded(n / 10, w);
    }
  }

  /** Padding gives no more digits than the number needs or the width asks for. */
  lemma {:induction false} PaddedLength(n: nat, width: nat, k: nat)
    requires n < Pow10(k)
    ensures |Padded(n, width)| <= if width < k then k else width
    decreases n + width
  {
    if n != 0 || width != 0 {
      var w := if width == 0 then 0 else width - 1;
      PaddedLength(n / 10, w, if k == 0 then 0 else k - 1);
    }
  }

  lemma {:induction false} FirstIndex(s: string, i: nat, c: char)
    requires i <= |s| && (i < |s| ==> s[i] == c)
    requires forall k :: 0 <= k < i ==> s[k] != c
    ensures IndexOf(s, c) == i
  {
    if i > 0 {
      FirstIndex(s[1..], i - 1, c);
    }
  }

  lemma {:induction false} ScaledTwice(x: real, a: int, b: int)
    ensures Scaled(Scaled(x, a), b) == Scaled(x, a + b)
    decreases if a < 0 then -a else a
  {
    hide Scaled;
    if a == 0 {
      ScaledZero(x);
    } else if a > 0 {
      ScaledTwice(10.0 * x, a - 1, b);
      ShiftOne(x, a);
      ShiftOne(x, a + b);
    } else {
      ScaledTwice(x / 10.0, a + 1, b);
      ShiftOne(x / 10.0, a + 1);
      ShiftOne(x / 10.0, a + b + 1);
      assert 10.0 * (x / 10.0) == x;
    }
  }

  /** Dropping trailing zeros behind the point does not change the value, and leaves none. */
  lemma {:induction false} TrimmedKeepsValue(n: nat, decimals: nat, e: int)
    ensures var (n', d') := Trimmed(n, decimals);
            && d' <= decimals
            && n' <= n
            && (d' > 0 ==> n' % 10 != 0)
            && Scaled(n' as real, e - d') == Scaled(n as real, e - decimals)
    decreases decimals
  {
    hide Scaled;
    if decimals > 0 && n % 10 == 0 {
      TrimmedKeepsValue(n / 10, decimals - 1, e);
      ShiftOne((n / 10) as real, e - decimals + 1);
      assert n as real == 10.0 * (n / 10) as real;
    }
  }

  lemma WithPointChars(p: string, at: nat)
    requires AllDigits(p) && 0 < at <= |p|
    ensures var m := WithPoint(p, at);
            && m != []
            && m[|m| - 1] == p[|p| - 1]
            && 'e' !in m
            && ('.' in m <==> at < |p|)
            && IndexOf(m, '.') == at
  {
    var m := WithPoint(p, at);
    FirstIndex(m, at, '.');
    assert at < |p| ==> m[at] == '.';
    hide IndexOf;
  }

  lemma WithPointParts(p: string, at: nat)
    requires AllDigits(p) && 0 < at < |p|
    ensures var m := WithPoint(p, at);
            && |m| == |p| + 1
            && m[..at] == p[..at]
            && m[at + 1..] == p[at..]
    ensures AllDigits(p[..at]) && AllDigits(p[at..]) && p[..at] + p[at..] == p
  {
  }

  lemma WholeReadsBack(p: string)
    requires AllDigits(p) && p != []
    ensures IsMantissa(p) && ReadMantissa(p) == Value(p) as real
  {
    hide Scaled, Value;
    FirstIndex(p, |p|, '.');
    assert p[..|p|] == p;
    hide IndexOf;
  }

  /** Reading digits with a point at an index. */
  lemma WithPointReadsBack(p: string, at: nat)
    requires AllDigits(p) && 0 < at <= |p|
    ensures var m := WithPoint(p, at);
            && IsMantissa(m)
            && ReadMantissa(m) == Scaled(Value(p) as real, at - |p|)
  {
    if at == |p| {
      hide Scaled, Value, IndexOf, AllDigits, IsMantissa, ReadMantissa;
      WholeReadsBack(p);
      ScaledZero(Value(p) as real);
    } else {
      hide Scaled, Value, IndexOf, AllDigits;
      WithPointChars(p, at);
      hide WithPoint;
      WithPointParts(p, at);
    }
  }

  lemma ScaledZero(x: real)
    ensures Scaled(x, 0) == x
  {
  }

  lemma MantissaReadsBack(n: nat, decimals: nat)
    ensures var m := Mantissa(n, decimals);
            && IsMantissa(m)
            && ReadMantissa(m) == Scaled(n as real, 0 - decimals)
            && m[|m| - 1] == DigitChar(n % 10)
            && ('.' in m <==> decimals > 0)
            && 'e' !in m
  {
    hide Scaled, Value, WithPoint, IsMantissa, ReadMantissa;
    var p := Padded(n, decimals + 1);
    PaddedReadsBack(n, decimals + 1);
    WithPointReadsBack(p, |p| - decimals);
    WithPointChars(p, |p| - decimals);
  }

  lemma ExponentReadsBack(e: int)
    ensures IsExponent(ExponentText(e)) && ReadExponent(ExponentText(e)) == e
    ensures ExponentText(e) != [] ==> ExponentText(e)[0] == 'e'
  {
    var t := ExponentText(e);
    if e != 0 {
      var p := Padded(if e < 0 then -e else e, 2);
      PaddedReadsBack(if e < 0 then -e else e, 2);
      assert t[2..] == p;
    }
  }

  lemma PartsReadBack(m: string, t: string)
    requires IsMantissa(m) && IsExponent(t) && 'e' !in m && (t != [] ==> t[0] == 'e')
    ensures IsFloat(m + t) && (m + t)[..IndexOf(m + t, 'e')] == m
    ensures ReadFloat(m + t) == Scaled(ReadMantissa(m), ReadExponent(t))
  {
    hide Scaled, IsMantissa, ReadMantissa, IsExponent, ReadExponent;
    FirstIndex(m + t, |m|, 'e');
    assert (m + t)[..|m|] == m && (m + t)[|m|..] == t;
  }

  /** Reading the text back gives exactly n * 10^exponent. The text is well formed: at least one
      digit before the point, and behind a point no trailing zero. */
  lemma FloatTextReadsBack(n: nat, exponent: int, sig: nat)
    requires sig >= 1
    ensures var s := FloatText(n, exponent, sig);
            var m := s[..IndexOf(s, 'e')];
            && IsFloat(s)
            && ReadFloat(s) == Scaled(n as real, exponent)
            && ('.' in m ==> m[|m| - 1] != '0')
  {
    hide Scaled, Mantissa, ExponentText, Trimmed, IsFloat;
    hide ReadFloat, IsMantissa, ReadMantissa, IsExponent, ReadExponent;
    var d := DecimalsFor(exponent, sig);
    var (n', d') := Trimmed(n, d);
    TrimmedKeepsValue(n, d, exponent + d);
    MantissaReadsBack(n', d');
    ExponentReadsBack(exponent + d);
    PartsReadBack(Mantissa(n', d'), ExponentText(exponent + d));
    ScaledTwice(n' as real, 0 - d', exponent + d);
  }

  /** Dropping trailing zeros keeps one digit more than there are decimals. */
  lemma {:induction false} TrimmedKeepsWidth(n: nat, decimals: nat)
    requires Pow10(decimals) <= n < Pow10(decimals + 1)
    ensures var (n', d') := Trimmed(n, decimals); Pow10(d') <= n' < Pow10(d' + 1)
    decreases decimals
  {
    if decimals > 0 && n % 10 == 0 {
      TrimmedKeepsWidth(n / 10, decimals - 1);
    }
  }

  lemma {:induction false} PaddedExact(n: nat, d: nat)
    requires Pow10(d) <= n < Pow10(d + 1)
    ensures |Padded(n, d + 1)| == d + 1 && Padded(n, d + 1)[0] != '0'
    decreases d
  {
    PaddedLength(n, d + 1, d + 1);
    if d == 0 {
      assert Padded(n, 1) == Padded(0, 0) + [DigitChar(n % 10)];
      assert Padded(0, 0) == [];
    } else {
      PaddedExact(n / 10, d - 1);
      assert Padded(n, d + 1) == Padded(n / 10, d) + [DigitChar(n % 10)];
    }
  }

  lemma MantissaIsNormal(n: nat, decimals: nat)
    requires Pow10(decimals) <= n < Pow10(decimals + 1)
    ensures var (n', d') := Trimmed(n, decimals);
            var m := Mantissa(n', d');
            IndexOf(m, '.') == 1 && m != [] && m[0] != '0'
  {
    hide Trimmed, Padded, Pow10, IndexOf;
    var (n', d') := Trimmed(n, decimals);
    TrimmedKeepsWidth(n, decimals);
    PaddedExact(n', d');
    WithPointChars(Padded(n', d' + 1), 1);
  }

  lemma ExponentIsPresent(m: string, e: int)
    requires 'e' !in m
    ensures 'e' in m + ExponentText(e) <==> e != 0
  {
    ExponentReadsBack(e);
    var s := m + ExponentText(e);
    if e != 0 {
      assert s[|m|] == ExponentText(e)[0];
    }
  }

  /** Which form is chosen for digits that fill the precision: plain notation exactly for exponents
      from -(sig + 3) to 0, else scientific notation with a single nonzero digit before the point. */
  lemma FormOfText(n: nat, exponent: int, sig: nat)
    requires sig >= 1 && Pow10(sig - 1) <= n < Pow10(sig)
    ensures var s := FloatText(n, exponent, sig);
            var m := s[..IndexOf(s, 'e')];
            && ('e' in s <==> exponent > 0 || exponent < -(sig + 3))
            && ('e' in s ==> IndexOf(m, '.') == 1 && m != [] && m[0] != '0')
  {
    hide Scaled, Trimmed, Padded, Pow10, Mantissa, ExponentText, IndexOf, IsMantissa, ReadMantissa;
    hide IsExponent, ReadExponent, IsFloat, ReadFloat;
    var d := DecimalsFor(exponent, sig);
    var (n', d') := Trimmed(n, d);
    MantissaReadsBack(n', d');
    ExponentReadsBack(exponent + d);
    PartsReadBack(Mantissa(n', d'), ExponentText(exponent + d));
    ExponentIsPresent(Mantissa(n', d'), exponent + d);
    if exponent > 0 || exponent < -(sig + 3) {
      MantissaIsNormal(n, d);
    }
  }

  // ---------------------------------------------------------------- the printed text

  /** The significant digits of a correctly rounded number: nine in double, seven in single
      precision. */
  lemma SignificantDigits(x: real, n: int, e: int, prec: Precision)
    requires CorrectlyRounded(x, n, e, prec)
    ensures prec.Double? ==> 100000000 <= n < 1000000000
    ensures prec.Single? ==> 1000000 <= n < 10000000
  {
    hide Scaled;
  }

  /** In powers of ten: the number is within half a unit of the last digit. */
  lemma HalfUnitLaw(x: real, n: int, e: int, prec: Precision)
    requires CorrectlyRounded(x, n, e, prec)
    ensures e >= 0 ==>
              0.0 - Pow10(e) as real <= 2.0 * (x - n as real * Pow10(e) as real) <= Pow10(e) as real
    ensures e < 0 ==>
              -1.0 <= 2.0 * (x * Pow10(-e) as real - n as real) <= 1.0
  {
    hide Scaled, Pow10;
    ScaledIsProduct(n as real, e);
    ScaledIsProduct(0.5, e);
    ScaledIsProduct(-0.5, e);
    if e < 0 {
      Quotients(x, n as real, Pow10(-e) as real);
    }
  }

  lemma Quotients(x: real, n: real, p: real)
    requires p >= 1.0 && -0.5 / p <= x - n / p <= 0.5 / p
    ensures -0.5 <= x * p - n <= 0.5
  {
    var d := x - n / p;
    assert n / p * p == n && 0.5 / p * p == 0.5 && -0.5 / p * p == -0.5;
    assert d * p == x * p - n / p * p;
    TimesPositive(-0.5 / p, d, p);
    TimesPositive(d, 0.5 / p, p);
  }

  lemma TimesPositive(a: real, b: real, p: real)
    requires a <= b && p >= 1.0
    ensures a * p <= b * p
  {
  }

  lemma PowersOfTen()
    ensures Pow10(6) == 1000000 && Pow10(7) == 10000000
    ensures Pow10(8) == 100000000 && Pow10(9) == 1000000000
  {
    assert Pow10(3) == 1000;
    assert Pow10(6) == 10 * (10 * (10 * Pow10(3)));
    assert Pow10(9) == 10 * (10 * (10 * Pow10(6)));
  }

  /** Padding gives no superfluous zero: there is one in front only up to the width. */
  lemma {:induction false} PaddedStart(n: nat, width: nat)
    requires |Padded(n, width)| > width
    ensures Padded(n, width)[0] != '0'
    decreases n + width
  {
    var w := if width == 0 then 0 else width - 1;
    assert n != 0 || width != 0;
    assert Padded(n, width) == Padded(n / 10, w) + [DigitChar(n % 10)];
    if |Padded(n / 10, w)| > w {
      PaddedStart(n / 10, w);
    }
  }

  /** A zero stands before the point only alone. */
  lemma MantissaStart(n: nat, decimals: nat)
    ensures var m := Mantissa(n, decimals);
            m != [] && (m[0] == '0' ==> IndexOf(m, '.') == 1)
  {
    hide Padded, IndexOf;
    var p := Padded(n, decimals + 1);
    WithPointChars(p, |p| - decimals);
    if |p| > decimals + 1 {
      PaddedStart(n, decimals + 1);
    }
  }

  /** An exponent has two digits, or more of which the first is not zero. */
  lemma ExponentStart(e: int)
    requires e != 0
    ensures var t := ExponentText(e);
            |t| >= 4 && (t[2] == '0' ==> |t| == 4)
  {
    hide Padded;
    var p := Padded(if e < 0 then -e else e, 2);
    assert ExponentText(e)[2..] == p;
    if |p| > 2 {
      PaddedStart(if e < 0 then -e else e, 2);
    }
  }

  lemma ExponentSign(e: int)
    requires e != 0
    ensures |ExponentText(e)| > 1 && ExponentText(e)[1] == if e > 0 then '+' else '-'
  {
  }

  /** The text in two parts. */
  lemma TextParts(n: nat, exponent: int, sig: nat)
    requires sig >= 1
    ensures var s := FloatText(n, exponent, sig);
            var d := DecimalsFor(exponent, sig);
            var (n', d') := Trimmed(n, d);
            && s[..IndexOf(s, 'e')] == Mantissa(n', d')
            && s[IndexOf(s, 'e')..] == ExponentText(exponent + d)
  {
    hide Scaled, Mantissa, ExponentText, Trimmed, IsMantissa, ReadMantissa, IsExponent, ReadExponent;
    hide IsFloat, ReadFloat;
    var d := DecimalsFor(exponent, sig);
    var (n', d') := Trimmed(n, d);
    MantissaReadsBack(n', d');
    ExponentReadsBack(exponent + d);
    FirstIndex(Mantissa(n', d') + ExponentText(exponent + d), |Mantissa(n', d')|, 'e');
  }

  /** The text printed for a number. It has an exponent exactly when the rounded digits stand left of
      the units, or start more than three places right of the point; then a single nonzero digit
      stands before the point, and the exponent counts the places from there, in at least two digits.
      Nowhere is there a superfluous leading zero. */
  lemma PrintedForm(x: real, n: nat, e: int, prec: Precision)
    requires CorrectlyRounded(x, n, e, prec)
    ensures var s := FloatText(n, e, prec.SigDigits());
            var (m, t) := (s[..IndexOf(s, 'e')], s[IndexOf(s, 'e')..]);
            && ('e' in s <==> e > 0 || e < if prec.Double? then -12 else -10)
            && m != []
            && (m[0] == '0' ==> IndexOf(m, '.') == 1)
            && ('e' in s ==>
                  && IndexOf(m, '.') == 1
                  && m[0] != '0'
                  && IsExponent(t)
                  && t[1] == (if e > 0 then '+' else '-')
                  && ReadExponent(t) == e + (if prec.Double? then 8 else 6)
                  && (t[2] == '0' ==> |t| == 4))
  {
    hide Scaled, Trimmed, Padded, Pow10, Mantissa, ExponentText, FloatText, IndexOf, CorrectlyRounded;
    hide IsExponent, ReadExponent;
    SignificantDigits(x, n, e, prec);
    PowersOfTen();
    FormOfText(n, e, prec.SigDigits());
    TextParts(n, e, prec.SigDigits());
    var d := DecimalsFor(e, prec.SigDigits());
    var (n', d') := Trimmed(n, d);
    MantissaStart(n', d');
    ExponentReadsBack(e + d);
    if e + d != 0 {
      ExponentStart(e + d);
      ExponentSign(e + d);
    }
  }

  /** End to end: the digits printed for a correctly rounded number read back as a number that is
      within one part in twice the smallest scaled number of it. */
  lemma PrintedIsClose(x: real, n: nat, e: int, prec: Precision)
    requires CorrectlyRounded(x, n, e, prec)
    ensures var s := FloatText(n, e, prec.SigDigits());
            && IsFloat(s)
            && -x <= (x - ReadFloat(s)) * (if prec.Double? then 200000000.0 else 2000000.0) <= x
  {
    hide FloatText, ReadFloat, IsFloat, Scaled, CorrectlyRounded;
    FloatTextReadsBack(n, e, prec.SigDigits());
    RelativeError(x, n, e, prec);
  }
}
