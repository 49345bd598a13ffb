/** Decimal text: the printers of unity.c, the number loop of unity_fixture.c, and the reading of
    such text that they are judged by. */
module Decimal {
  import opened Arithmetic

  function Pow10(n: nat): (p: nat)
    ensures p >= 1
  {
    if n == 0 then 1 else 10 * Pow10(n - 1)
  }

  predicate IsDigit(c: char) {
    '0' <= c <= '9'
  }

  predicate AllDigits(s: string) {
    forall i :: 0 <= i < |s| ==> IsDigit(s[i])
  }

  function DigitChar(d: nat): (c: char)
    requires d < 10
    ensures IsDigit(c) && DigitValue(c) == d
  {
    '0' + d as char
  }

  function DigitValue(c: char): (d: nat)
    requires IsDigit(c)
    ensures d < 10
  {
    c as int - '0' as int
  }

  /** The number that a string of digits denotes. */
  function Value(s: string): nat
    requires AllDigits(s)
  {
    if s == [] then 0 else 10 * Value(s[..|s| - 1]) + DigitValue(s[|s| - 1])
  }

  lemma DigitsInOrder(d: nat)
    requires d < 10
    ensures DigitChar(d) == "0123456789"[d]
  {
  }

  /** The value of a string of digits, a digit at a time. */
  lemma ValueLaw(s: string, c: char)
    requires AllDigits(s) && '0' <= c <= '9'
    ensures Value(s + [c]) == 10 * Value(s) + (c as int - '0' as int)
    ensures Value("") == 0
  {
    assert (s + [c])[..|s|] == s;
  }

  /** The decimal text of a number. */
  function Digits(n: nat): (s: string)
    ensures s != [] && AllDigits(s)
  {
    if n < 10 then [DigitChar(n)] else Digits(n / 10) + [DigitChar(n % 10)]
  }

  lemma {:induction false} DigitsReadBack(n: nat)
    ensures Value(Digits(n)) == n
  {
    if n < 10 {
      assert Digits(n)[..0] == [];
    } else {
      DigitsReadBack(n / 10);
      assert Digits(n)[..|Digits(n)| - 1] == Digits(n / 10);
    }
  }

  /** A string of digits with no superfluous leading zero is the text that Digits gives. */
  lemma {:induction false} CanonicalText(s: string)
    requires AllDigits(s) && s != [] && (|s| > 1 ==> s[0] != '0')
    ensures s == Digits(Value(s))
    ensures s[0] != '0' ==> Value(s) > 0
    decreases |s|
  {
    var k := |s| - 1;
    if k > 0 {
      CanonicalText(s[..k]);
      assert s == s[..k] + [s[k]];
    }
  }

  /** Any digits that denote n are at least as many as those of Digits(n). */
  lemma {:induction false} DigitsAreFewest(s: string)
    requires AllDigits(s) && s != []
    ensures |Digits(Value(s))| <= |s|
    decreases |s|
  {
    var k := |s| - 1;
    if k > 0 && s[0] == '0' {
      DropLeadingZero(s);
      DigitsAreFewest(s[1..]);
    } else {
      CanonicalText(s);
    }
  }

  lemma {:induction false} DropLeadingZero(s: string)
    requires AllDigits(s) && s != [] && s[0] == '0'
    ensures Value(s[1..]) == Value(s)
    decreases |s|
  {
    var k := |s| - 1;
    if k > 0 {
      DropLeadingZero(s[..k]);
      assert s[1..][..k - 1] == s[..k][1..];
    }
  }

  /** The text of a signed number. */
  function SignedDigits(n: int): string {
    if n < 0 then "-" + Digits(-n) else Digits(n)
  }

  /** The reading of a signed decimal, for text that has the form of one. */
  function SignedValue(s: string): (v: int)
    requires s != [] && AllDigits(if s[0] == '-' then s[1..] else s)
  {
    if s[0] == '-' then 0 - Value(s[1..]) else Value(s)
  }

  lemma SignedReadBack(n: int)
    ensures var s := SignedDigits(n);
            && s != []
            && AllDigits(if s[0] == '-' then s[1..] else s)
            && SignedValue(s) == n
            && (s[0] == '-' <==> n < 0)
  {
    var m := if n < 0 then -n else n;
    DigitsReadBack(m);
    assert ("-" + Digits(m))[1..] == Digits(m);
    assert IsDigit(Digits(m)[0]);
  }

  // ---------------------------------------------------------------- the printers

  /** The stream that UNITY_OUTPUT_CHAR appends to. */
  class Output {
    var text: string

    constructor ()
      ensures text == ""
    {
      text := "";
    }

    method PutChar(c: char)
      modifies this
      ensures text == old(text) + [c]
    {
      text := text + [c];
    }

    /** UnityPrintNumberUnsigned, for an unsigned type of `modulus` values. The multiplication is
        the wrapping one; that the text is right shows that it never wraps. */
    method PrintNumberUnsigned(number: nat, modulus: nat)
      requires number < modulus
      modifies this
      ensures text == old(text) + Digits(number)
    {
      hide Digits, DigitChar, WrapTo;
      var divisor := 1;
      ghost var k: nat := 0;
      while number / divisor > 9
        invariant divisor == Pow10(k)
        invariant divisor == 1 || divisor <= number
        invariant text == old(text)
        decreases number - divisor
      {
        ScaledDivisorFits(number, divisor);
        divisor := WrapTo(divisor * 10, modulus);
        k := k + 1;
      }
      QuotientIsNatural(number, divisor);
      LeadingDigit(number, k);
      hide DigitsAbove;
      PutChar(DigitChar(number / divisor % 10));
      divisor := divisor / 10;
      while divisor > 0
        invariant divisor == if k == 0 then 0 else Pow10(k - 1)
        invariant k == 0 || Pow10(k) <= number
        invariant text == old(text) + DigitsAbove(number, k)
        decreases k
      {
        NextDigit(number, k);
        PutChar(DigitChar(number / divisor % 10));
        k := k - 1;
        divisor := divisor / 10;
      }
      AllDigitsPrinted(number);
    }

    /** UnityPrintNumber: the magnitude of a negative number is taken in the unsigned type, as the
        complement plus one, so the least number needs no special case. */
    method PrintNumber(numberToPrint: int, modulus: nat)
      requires modulus % 2 == 0 && -(modulus / 2) <= numberToPrint < modulus / 2
      modifies this
      ensures text == old(text) + SignedDigits(numberToPrint)
    {
      hide Digits, WrapTo;
      var number := if numberToPrint < 0 then numberToPrint + modulus else numberToPrint;
      if numberToPrint < 0 {
        PutChar('-');
        number := WrapTo((modulus - 1 - number) + 1, modulus);
      }
      PrintNumberUnsigned(number, modulus);
    }
  }

  /** Arithmetic of an unsigned type of `modulus` values. */
  function WrapTo(x: nat, modulus: nat): (r: nat)
    requires modulus > 0
    ensures r < modulus
    ensures x < modulus ==> r == x
  {
    Quotient(x, modulus);
    if x < modulus then QuotientIsUnique(x, 0, x, modulus); x % modulus else x % modulus
  }

  lemma ScaledDivisorFits(number: nat, divisor: nat)
    requires divisor >= 1 && number / divisor > 9
    ensures divisor * 10 <= number
  {
    Quotient(number, divisor);
    NextMultiple(9, number / divisor, divisor);
  }

  /** The digits of a number down to the one that counts the k-th powers of ten. */
  function DigitsAbove(number: nat, k: nat): string {
    QuotientIsNatural(number, Pow10(k));
    Digits(number / Pow10(k))
  }

  lemma AllDigitsPrinted(number: nat)
    ensures DigitsAbove(number, 0) == Digits(number)
  {
    assert Pow10(0) == 1;
  }

  lemma LeadingDigit(number: nat, k: nat)
    requires 0 <= number / Pow10(k) <= 9
    ensures DigitsAbove(number, k) == [DigitChar(number / Pow10(k) % 10)]
  {
  }

  lemma NextDigit(number: nat, k: nat)
    requires k > 0 && Pow10(k) <= number
    ensures DigitsAbove(number, k - 1) == DigitsAbove(number, k) + [DigitChar(number / Pow10(k - 1) % 10)]
  {
    hide DigitChar;
    var divisor := Pow10(k - 1);
    DivideTwice(number, divisor);
    Quotient(number, divisor);
    if number / divisor < 10 {
      NextMultiple(number / divisor, 10, divisor);
    }
  }

  // ---------------------------------------------------------------- the -r option

  const UINT_MODULUS: nat := 0x1_0000_0000

  /** The digits that a text starts with. */
  function LeadingDigits(s: string): (p: string)
    ensures AllDigits(p) && p <= s
    ensures |p| < |s| ==> !IsDigit(s[|p|])
  {
    if s != [] && IsDigit(s[0]) then [s[0]] + LeadingDigits(s[1..]) else []
  }

  /** The repeat count that `-r` takes from the next argument: 2 when it does not start with a
      digit, else its leading digits read as an unsigned int, wrapping. */
  function RepeatCountOf(arg: string): nat {
    var p := LeadingDigits(arg);
    if p == [] then 2 else Value(p) % UINT_MODULUS
  }

  /** The count by the start of the argument: 2 when no digit stands there, else what the digits
      denote, wrapped to 32 bits. */
  lemma RepeatCountLaw(arg: string, n: nat)
    requires n <= |arg| && AllDigits(arg[..n]) && (n < |arg| ==> !('0' <= arg[n] <= '9'))
    ensures RepeatCountOf(arg) == if n == 0 then 2 else Value(arg[..n]) % 4294967296
  {
    LeadingDigitsUnique(arg, n);
  }

  /** One more digit, in unsigned arithmetic: the product wraps, then the sum does. */
  function Accumulate(count: nat, digit: nat): nat {
    (count * 10 % UINT_MODULUS + digit) % UINT_MODULUS
  }

  lemma AccumulateIsModular(v: nat, digit: nat)
    ensures Accumulate(v % UINT_MODULUS, digit) == (10 * v + digit) % UINT_MODULUS
  {
    var r := v % UINT_MODULUS;
    var t := r * 10 % UINT_MODULUS + digit;
    var q := 10 * (v / UINT_MODULUS) + r * 10 / UINT_MODULUS + t / UINT_MODULUS;
    QuotientIsUnique(10 * v + digit, q, t % UINT_MODULUS, UINT_MODULUS);
  }

  /** The digit loop of the -r option; the end of `arg` is its terminating NUL. */
  method ParseRepeatCount(arg: string) returns (repeatCount: nat)
    ensures repeatCount == RepeatCountOf(arg)
  {
    repeatCount := 2;
    if |arg| > 0 && IsDigit(arg[0]) {
      hide LeadingDigits, Accumulate, DigitValue;
      var digit := 0;
      repeatCount := 0;
      while digit < |arg| && IsDigit(arg[digit])
        invariant digit <= |arg| && AllDigits(arg[..digit])
        invariant repeatCount == Value(arg[..digit]) % UINT_MODULUS
      {
        assert arg[..digit + 1][..digit] == arg[..digit];
        AccumulateIsModular(Value(arg[..digit]), DigitValue(arg[digit]));
        repeatCount := Accumulate(repeatCount, DigitValue(arg[digit]));
        digit := digit + 1;
      }
      LeadingDigitsUnique(arg, digit);
    }
  }

  lemma {:induction false} LeadingDigitsUnique(s: string, n: nat)
    requires n <= |s| && AllDigits(s[..n]) && (n < |s| ==> !IsDigit(s[n]))
    ensures LeadingDigits(s) == s[..n]
  {
    if n > 0 {
      assert forall i :: 0 <= i < n - 1 ==> s[1..][i] == s[..n][i + 1];
      assert IsDigit(s[..n][0]);
      LeadingDigitsUnique(s[1..], n - 1);
      assert s[..n] == [s[0]] + s[1..][..n - 1];
    }
  }

  /** Running the -r loop on the text that the printer gives for k yields k, exactly for the k that
      an unsigned int can hold; in general it yields k modulo 2^32. */
  lemma RepeatCountRoundTrip(k: nat)
    ensures RepeatCountOf(Digits(k)) == k % 4294967296
    ensures RepeatCountOf(Digits(k)) == k <==> k < 4294967296
  {
    LeadingDigitsUnique(Digits(k), |Digits(k)|);
    assert Digits(k)[..|Digits(k)|] == Digits(k);
    DigitsReadBack(k);
  }
}
