/** UnityPrintFloat in its own form: loops over a 16-byte buffer, appending to the output. */
module FloatPrinter {
  import opened Decimal
  import opened FloatScaling
  import opened FloatLayout

  /** The text of p up to index `at`, with a point where WithPoint puts it once that is passed. */
  function Emitted(p: string, at: nat, point: nat): string
    requires at <= |p| && point <= |p|
  {
    if at <= point then p[..at] else p[..point] + "." + p[point..at]
  }

  lemma EmitNext(p: string, at: nat, point: nat)
    requires at < |p| && point <= |p|
    ensures Emitted(p, at + 1, point) == Emitted(p, at, point) + (if at == point then "." else "") + [p[at]]
  {
    if at < point {
      assert p[..at + 1] == p[..at] + [p[at]];
    } else {
      assert p[point..at + 1] == p[point..at] + [p[at]];
    }
  }

  lemma EmittedAll(p: string, point: nat)
    requires point <= |p|
    ensures Emitted(p, 0, point) == ""
    ensures Emitted(p, |p|, point) == WithPoint(p, point)
  {
    assert p[..|p|] == p;
    if point < |p| {
      assert p[point..|p|] == p[point..];
    }
  }

  /** The digit at `at` from the front of p lies at this index of the buffer. */
  predicate Reversed(buf: array<char>, digits: nat, p: string)
    reads buf
  {
    && digits <= |p|
    && digits <= buf.Length
    && forall i :: 0 <= i < digits ==> buf[i] == p[|p| - 1 - i]
  }

  lemma PaddedStep(n: nat, width: nat)
    requires n != 0 || width > 0
    ensures Padded(n, width) == Padded(n / 10, if width == 0 then 0 else width - 1) + [DigitChar(n % 10)]
    ensures |Padded(n, width)| >= 1
  {
  }

  lemma PaddedEmpty()
    ensures Padded(0, 0) == []
  {
  }

  lemma LastOfPrefix(p: string, i: nat, q: string, c: char)
    requires 0 < i <= |p| && p[..i] == q + [c]
    ensures p[i - 1] == c && p[..i - 1] == q
  {
    assert p[i - 1] == p[..i][i - 1];
    assert p[..i - 1] == p[..i][..i - 1];
  }

  /** Collect the digits of n, at least `width` of them, in reverse. They fit the buffer. */
  method CollectDigits(n: nat, width: nat, buf: array<char>) returns (digits: nat)
    requires buf.Length == 16
    requires n < Pow10(16) && width <= 16
    modifies buf
    ensures digits == |Padded(n, width)| && Reversed(buf, digits, Padded(n, width))
  {
    hide Padded, DigitChar, Pow10, AllDigits;
    ghost var p := Padded(n, width);
    PaddedLength(n, width, 16);
    digits := 0;
    var rest := n;
    assert p[..|p|] == p;
    while rest != 0 || digits < width
      invariant Reversed(buf, digits, p)
      invariant p[..|p| - digits] == Padded(rest, if digits < width then width - digits else 0)
      decreases |p| - digits
    {
      ghost var w := if digits < width then width - digits else 0;
      PaddedStep(rest, w);
      LastOfPrefix(p, |p| - digits, Padded(rest / 10, if w == 0 then 0 else w - 1), DigitChar(rest % 10));
      buf[digits] := DigitChar(rest % 10);
      digits := digits + 1;
      rest := rest / 10;
    }
    PaddedEmpty();
  }

  /** Put out a reversed string, with a point before the last `decimals` characters. */
  method EmitReversed(out: Output, buf: array<char>, count: nat, decimals: nat, ghost p: string)
    requires count == |p| && decimals < |p| && Reversed(buf, count, p)
    modifies out
    ensures out.text == old(out.text) + WithPoint(p, |p| - decimals)
  {
    hide WithPoint, Emitted;
    var digits := count;
    ghost var point := |p| - decimals;
    EmittedAll(p, point);
    while digits > 0
      invariant 0 <= digits <= |p|
      invariant out.text == old(out.text) + Emitted(p, |p| - digits, point)
    {
      EmitNext(p, |p| - digits, point);
      if digits == decimals {
        out.PutChar('.');
      }
      digits := digits - 1;
      out.PutChar(buf[digits]);
    }
  }

  /** Truncate trailing zeros after the decimal point. */
  method TrimZeros(n0: int32, decimals0: int32) returns (n: int32, decimals: int32)
    requires 0 <= n0 < 1000000000 && 0 <= decimals0 <= 12
    ensures 0 <= n < 1000000000 && 0 <= decimals <= 12
    ensures (n as int, decimals as int) == Trimmed(n0 as int, decimals0 as int)
  {
    n, decimals := n0, decimals0;
    while decimals > 0 && n % 10 == 0
      invariant 0 <= n < 1000000000 && 0 <= decimals <= 12
      invariant Trimmed(n as int, decimals as int) == Trimmed(n0 as int, decimals0 as int)
      decreases decimals as int
    {
      n := n / 10;
      decimals := decimals - 1;
    }
  }

  lemma ExponentPieces(t: string, e: int)
    ensures e == 0 ==> t + ExponentText(e) == t
    ensures e < 0 ==> t + ['e'] + ['-'] + Padded(-e, 2) == t + ExponentText(e)
    ensures e > 0 ==> t + ['e'] + ['+'] + Padded(e, 2) == t + ExponentText(e)
  {
    hide Padded;
    if e < 0 {
      assert t + ['e'] + ['-'] + Padded(-e, 2) == t + ("e-" + Padded(-e, 2));
    } else if e > 0 {
      assert t + ['e'] + ['+'] + Padded(e, 2) == t + ("e+" + Padded(e, 2));
    }
  }

  method PrintExponent(out: Output, exponent0: int32, buf: array<char>)
    requires exponent0 > -0x8000_0000 && buf.Length == 16
    modifies out, buf
    ensures out.text == old(out.text) + ExponentText(exponent0 as int)
  {
    hide Padded, WithPoint, Pow10, ExponentText;
    ExponentPieces(out.text, exponent0 as int);
    var exponent := exponent0;
    if exponent != 0 {
      out.PutChar('e');
      if exponent < 0 {
        out.PutChar('-');
        exponent := -exponent;
      } else {
        out.PutChar('+');
      }
      PowerOfSixteen();
      WithoutPoint(exponent as int);
      var digits := CollectDigits(exponent as int, 2, buf);
      EmitReversed(out, buf, digits, 0, Padded(exponent as int, 2));
    }
  }

  /** Lay out n * 10^exponent. Only the exponents are excluded to which the code cannot add the
      number of decimals without overflow. */
  method PrintScaled(out: Output, n0: int32, exponent0: int32, prec: Precision)
    requires 1 <= n0 < prec.MaxScaled() && exponent0 as int + prec.SigDigits() <= 0x8000_0000
    modifies out
    ensures out.text == old(out.text) + FloatText(n0 as int, exponent0 as int, prec.SigDigits())
  {
    hide Padded, WithPoint, ExponentText, Trimmed, Pow10;
    var buf := new char[16](_ => '\0');
    var sigDigits: int32 := if prec.Single? then 7 else 9;
    var decimals: int32 := if exponent0 <= 0 && exponent0 >= -(sigDigits + 3) then -exponent0 else sigDigits - 1;
    var exponent := exponent0 + decimals;
    assert decimals as int == DecimalsFor(exponent0 as int, prec.SigDigits());
    var n;
    n, decimals := TrimZeros(n0, decimals);
    PowerOfSixteen();
    ghost var p := Padded(n as int, decimals as int + 1);
    var digits := CollectDigits(n as int, decimals as int + 1, buf);
    EmitReversed(out, buf, digits, decimals as int, p);
    PrintExponent(out, exponent, buf);
  }

  lemma WithoutPoint(n: nat)
    ensures WithPoint(Padded(n, 2), |Padded(n, 2)| - 0) == Padded(n, 2)
  {
  }

  lemma PowerOfSixteen()
    ensures Pow10(16) == 1_0000_0000_0000_0000
  {
    assert Pow10(4) == 10000;
    assert Pow10(8) == 10 * (10 * (10 * (10 * Pow10(4))));
    assert Pow10(12) == 10 * (10 * (10 * (10 * Pow10(8))));
    assert Pow10(16) == 10 * (10 * (10 * (10 * Pow10(12))));
  }

  /** The magnitudes that are printed: the finite nonzero doubles all lie in here. */
  predicate Printable(x: real) {
    Scaled(1.0, -400) <= x <= Scaled(1.0, 400)
  }

  /** A floating-point number. */
  datatype Number = Finite(value: real) | Infinite(negative: bool) | NotANumber {
    /** Less than zero, as the processor compares: what is not a number is not. */
    predicate IsNegative() {
      (Finite? && value < 0.0) || (Infinite? && negative)
    }

    function Negated(): Number {
      match this
      case Finite(x) => Finite(-x)
      case Infinite(minus) => Infinite(!minus)
      case NotANumber => NotANumber
    }

    function Magnitude(): Number {
      if IsNegative() then Negated() else this
    }
  }

  /** UnityPrintFloat. Zero is "0", infinities are "inf" and "-inf", what is not a number is "nan".
      The text of any other number is its sign and the layout of its magnitude correctly rounded; by
      PrintedIsClose it reads back as nearly that number. */
  method PrintFloat(out: Output, inputNumber: Number, prec: Precision) returns (ghost n: int, ghost e: int)
    requires inputNumber.Finite? && inputNumber.value != 0.0 ==> Printable(inputNumber.Magnitude().value)
    modifies out
    ensures match inputNumber
            case NotANumber => out.text == old(out.text) + "nan"
            case Infinite(minus) => out.text == old(out.text) + if minus then "-inf" else "inf"
            case Finite(x) =>
              if x == 0.0 then
                out.text == old(out.text) + "0"
              else if x > 0.0 then
                CorrectlyRounded(x, n, e, prec) && out.text == old(out.text) + FloatText(n, e, prec.SigDigits())
              else
                CorrectlyRounded(-x, n, e, prec) && out.text == old(out.text) + "-" + FloatText(n, e, prec.SigDigits())
  {
    hide FloatText, Scaled, CorrectlyRounded, IsTie;
    n, e := 0, 0;
    var number := inputNumber;
    if number.IsNegative() {
      out.PutChar('-');
      number := number.Negated();
    }
    ghost var before := out.text;
    if number == Finite(0.0) {
      out.PutChar('0');
    } else if number.NotANumber? {
      out.PutChar('n');
      out.PutChar('a');
      out.PutChar('n');
      assert out.text == before + "nan";
    } else if number.Infinite? {
      out.PutChar('i');
      out.PutChar('n');
      out.PutChar('f');
      assert out.text == before + "inf";
      assert before == old(out.text) + "-" ==> out.text == old(out.text) + "-inf";
    } else {
      var scaled, exponent := ScaleAndRound(number.value, prec);
      ExponentIsBounded(number.value, scaled as int, exponent, prec, -400, 400);
      n, e := scaled as int, exponent;
      RoundedInRange(number.value, n, e, prec);
      PrintScaled(out, scaled, exponent as int32, prec);
    }
  }

  lemma RoundedInRange(x: real, n: int, e: int, prec: Precision)
    requires CorrectlyRounded(x, n, e, prec)
    ensures prec.MinScaled() as int <= n < prec.MaxScaled() as int
  {
    hide Scaled, WithinHalfUnit;
  }
}
