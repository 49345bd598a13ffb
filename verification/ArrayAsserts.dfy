/** The comparison loops behind the memory and the number-array assertions of unity.c. A null array
    is the null reference; a test that has already failed or been ignored never gets here. */
module ArrayAsserts {
  import opened Arithmetic
  import opened Bytes

  // ---------------------------------------------------------------- memory

  datatype MemoryVerdict =
    | Equal
    | Pointless
    | NullMemory
    | Differ(element: nat, offset: nat)

  /** What the other array is compared with: an array element by element, or one value. */
  datatype Flags = ArrayToArray | ArrayToVal

  /** The index at which element `k` starts. */
  function Row(k: nat, length: nat): nat {
    k * length
  }

  function ExpectedRow(k: nat, length: nat, flags: Flags): nat {
    if flags.ArrayToVal? then 0 else Row(k, length)
  }

  predicate LongEnough(expected: seq<byte>, actual: seq<byte>, length: nat, numElements: nat, flags: Flags) {
    && |actual| >= Row(numElements, length)
    && |expected| >= if flags.ArrayToVal? then length else Row(numElements, length)
  }

  lemma RowsInOrder(k: nat, numElements: nat, length: nat)
    ensures Row(0, length) == 0 && Row(k + 1, length) == Row(k, length) + length
    ensures k < numElements ==> Row(k, length) + length <= Row(numElements, length)
  {
    NextMultiple(k, numElements, length);
    NextMultiple(k, k + 1, length);
    assert (k + 1) * length == k * length + length;
  }

  /** Byte `b` of element `k` exists and differs from its counterpart. */
  predicate DiffersAt(expected: seq<byte>, actual: seq<byte>, length: nat, numElements: nat,
                      flags: Flags, k: nat, b: nat)
    requires LongEnough(expected, actual, length, numElements, flags)
  {
    && k < numElements
    && b < length
    && (RowsInOrder(k, numElements, length);
        expected[ExpectedRow(k, length, flags) + b] != actual[Row(k, length) + b])
  }

  /** The two modes: byte `b` of element `k` is compared with the same byte of the same element, or
      with the same byte of the one expected value. */
  lemma DiffersLaw(expected: seq<byte>, actual: seq<byte>, length: nat, numElements: nat, flags: Flags, k: nat, b: nat)
    requires LongEnough(expected, actual, length, numElements, flags)
    ensures k < numElements && b < length ==>
              && 0 <= k * length + b < |actual|
              && (if flags == ArrayToArray then k * length + b else b) < |expected|
              && (DiffersAt(expected, actual, length, numElements, flags, k, b) <==>
                  actual[k * length + b] != expected[if flags == ArrayToArray then k * length + b else b])
    ensures DiffersAt(expected, actual, length, numElements, flags, k, b) ==> k < numElements && b < length
  {
    RowsInOrder(k, numElements, length);
    RowsInOrder(0, numElements, length);
    if k < numElements {
      RowsInOrder(numElements - 1, numElements, length);
      NextMultiple(0, numElements, length);
    }
  }

  /** For distinct arrays the assertion fails exactly when some byte differs from its counterpart,
      and it reports the first such byte of the first such element. */
  method AssertEqualMemory(expected: array?<byte>, actual: array?<byte>, length: nat, numElements: nat, flags: Flags)
    returns (v: MemoryVerdict)
    requires expected != null && actual != null ==> LongEnough(expected[..], actual[..], length, numElements, flags)
    ensures v == Pointless <==> numElements == 0 || length == 0
    ensures v == NullMemory <==>
      numElements > 0 && length > 0 && expected != actual && (expected == null || actual == null)
    ensures expected == actual && v != Pointless ==> v == Equal
    ensures expected != null && actual != null && expected != actual && numElements > 0 && length > 0 ==>
              (v == Equal <==>
               forall k: nat, b: nat :: !DiffersAt(expected[..], actual[..], length, numElements, flags, k, b))
    ensures v.Differ? ==>
              && expected != null && actual != null
              && DiffersAt(expected[..], actual[..], length, numElements, flags, v.element, v.offset)
              && forall k: nat, b: nat :: k < v.element || (k == v.element && b < v.offset) ==>
                   !DiffersAt(expected[..], actual[..], length, numElements, flags, k, b)
  {
    hide Row;
    if numElements == 0 || length == 0 {
      return Pointless;
    }
    if expected == actual {
      return Equal;
    }
    if expected == null || actual == null {
      return NullMemory;
    }
    ghost var ex, ac := expected[..], actual[..];
    var ptrExp, ptrAct := 0, 0;
    var elements := numElements;
    RowsInOrder(0, numElements, length);
    while elements > 0
      invariant 0 <= elements <= numElements
      invariant ptrExp == ExpectedRow(numElements - elements, length, flags)
      invariant ptrAct == Row(numElements - elements, length)
      invariant forall k: nat, b: nat :: k < numElements - elements ==>
                  !DiffersAt(ex, ac, length, numElements, flags, k, b)
    {
      ghost var row := numElements - elements;
      RowsInOrder(row, numElements, length);
      elements := elements - 1;
      var bytes := length;
      while bytes > 0
        invariant 0 <= bytes <= length
        invariant ptrExp == ExpectedRow(row, length, flags) + (length - bytes)
        invariant ptrAct == Row(row, length) + (length - bytes)
        invariant forall b: nat :: b < length - bytes ==>
                    !DiffersAt(ex, ac, length, numElements, flags, row, b)
      {
        bytes := bytes - 1;
        if expected[ptrExp] != actual[ptrAct] {
          v := Differ(numElements - elements - 1, length - bytes - 1);
          assert DiffersAt(expected[..], actual[..], length, numElements, flags, v.element, v.offset);
          return;
        }
        ptrExp := ptrExp + 1;
        ptrAct := ptrAct + 1;
      }
      if flags == ArrayToVal {
        ptrExp := 0;
      }
    }
    return Equal;
  }

  // ---------------------------------------------------------------- numbers

  /** The integer widths. UNITY_INT itself has 32 or 64 bits. */
  datatype Width = W8 | W16 | W32 | W64 {
    function Modulus(): nat {
      match this
      case W8 => 0x100
      case W16 => 0x1_0000
      case W32 => 0x1_0000_0000
      case W64 => 0x1_0000_0000_0000_0000
    }

    function Half(): nat {
      Modulus() / 2
    }
  }

  datatype Style = Signed | Unsigned

  /** Elements are loaded through a signed type whatever the style. */
  function Load(raw: nat, width: Width): int
    requires raw < width.Modulus()
  {
    if raw < width.Half() then raw else raw - width.Modulus()
  }

  /** Two's complement, width by width. */
  lemma LoadLaw(raw: nat)
    ensures raw < 256 ==> Load(raw, W8) == if raw < 128 then raw else raw - 256
    ensures raw < 65536 ==> Load(raw, W16) == if raw < 32768 then raw else raw - 65536
    ensures raw < 4294967296 ==> Load(raw, W32) == if raw < 2147483648 then raw else raw - 4294967296
    ensures raw < 18446744073709551616 ==>
              Load(raw, W64) == if raw < 9223372036854775808 then raw else raw - 18446744073709551616
  {
  }

  /** The conversion to UNITY_UINT. */
  function ToUint(v: int, w: Width): nat
    requires 0 - w.Half() <= v < w.Modulus()
  {
    if v < 0 then v + w.Modulus() else v
  }

  function SubUint(a: nat, b: nat, w: Width): nat
    requires a < w.Modulus() && b < w.Modulus()
  {
    if a >= b then a - b else a - b + w.Modulus()
  }

  predicate FitsInt(v: int, w: Width) {
    0 - w.Half() <= v < w.Half()
  }

  /** The test that one pair of loaded elements is put to. */
  predicate ElementFails(delta: nat, expectVal: int, actualVal: int, style: Style, w: Width)
    requires FitsInt(expectVal, w) && FitsInt(actualVal, w)
  {
    var e, a := ToUint(expectVal, w), ToUint(actualVal, w);
    if (if style.Signed? then actualVal > expectVal else a > e) then SubUint(a, e, w) > delta
    else SubUint(e, a, w) > delta
  }

  function Distance(a: int, b: int): nat {
    if a > b then a - b else b - a
  }

  /** In the signed styles the test is right over the unbounded integers, although it subtracts
      modulo 2^w. */
  lemma SignedTestIsExact(delta: nat, expectVal: int, actualVal: int, w: Width)
    requires FitsInt(expectVal, w) && FitsInt(actualVal, w)
    ensures ElementFails(delta, expectVal, actualVal, Signed, w) <==> Distance(actualVal, expectVal) > delta
  {
  }

  lemma UnsignedTestComparesLoaded(delta: nat, expectVal: int, actualVal: int, w: Width)
    requires FitsInt(expectVal, w) && FitsInt(actualVal, w)
    ensures ElementFails(delta, expectVal, actualVal, Unsigned, w)
            <==> Distance(ToUint(actualVal, w), ToUint(expectVal, w)) > delta
  {
  }

  /** Sign extension moves the upper half of a narrow type to the top of UNITY_UINT. */
  lemma LoadExtends(raw: nat, width: Width, w: Width)
    requires raw < width.Modulus() <= w.Modulus()
    ensures FitsInt(Load(raw, width), w)
    ensures ToUint(Load(raw, width), w) == raw + if raw < width.Half() then 0 else w.Modulus() - width.Modulus()
  {
    match width { case W8 => case W16 => case W32 => case W64 => }
  }

  /** In the unsigned styles the test is meant for the unsigned elements. Because they are loaded
      through a signed type, it is right exactly when both lie in the same half of their range, or
      the elements are as wide as UNITY_INT, or delta is so small or so large that the extra
      distance makes no difference. */
  lemma UnsignedTestIsExactIff(delta: nat, expected: nat, actual: nat, width: Width, w: Width)
    requires expected < width.Modulus() && actual < width.Modulus() && width.Modulus() <= w.Modulus()
    ensures FitsInt(Load(expected, width), w) && FitsInt(Load(actual, width), w)
    ensures (ElementFails(delta, Load(expected, width), Load(actual, width), Unsigned, w)
             <==> Distance(actual, expected) > delta)
            <==>
            || (expected < width.Half() <==> actual < width.Half())
            || width == w
            || delta < Distance(actual, expected)
            || delta >= Distance(actual, expected) + (w.Modulus() - width.Modulus())
  {
    LoadExtends(expected, width, w);
    LoadExtends(actual, width, w);
    UnsignedTestComparesLoaded(delta, Load(expected, width), Load(actual, width), w);
    assert width == w <==> width.Modulus() == w.Modulus();
    hide ElementFails, Load, ToUint, Width.Modulus;
  }

  /** The elements 127 and 128 of type uint8 with a tolerance of 1: they are reported as too far
      apart. */
  lemma UnsignedTestCanBeWrong()
    ensures FitsInt(Load(127, W8), W64) && FitsInt(Load(128, W8), W64)
    ensures Distance(128, 127) == 1 && ElementFails(1, Load(127, W8), Load(128, W8), Unsigned, W64)
  {
    UnsignedTestIsExactIff(1, 127, 128, W8, W64);
  }

  /** An element as its style reads it. */
  function Value(raw: nat, width: Width, style: Style): int
    requires raw < width.Modulus()
  {
    if style.Signed? then Load(raw, width) else raw
  }

  /** What sign extension adds to the distance of two unsigned elements. */
  function Gap(expected: nat, actual: nat, width: Width, w: Width, style: Style): nat
    requires width.Modulus() <= w.Modulus()
  {
    if style.Unsigned? && (expected < width.Half()) != (actual < width.Half()) then w.Modulus() - width.Modulus()
    else 0
  }

  /** Two elements are further apart than delta, over the unbounded integers. In the signed styles
      nothing is added to their distance. */
  predicate TooFar(delta: nat, expected: nat, actual: nat, width: Width, w: Width, style: Style)
    requires expected < width.Modulus() && actual < width.Modulus() && width.Modulus() <= w.Modulus()
  {
    Distance(Value(actual, width, style), Value(expected, width, style)) + Gap(expected, actual, width, w, style)
    > delta
  }

  lemma UnsignedTestIsTooFar(delta: nat, expected: nat, actual: nat, width: Width, w: Width)
    requires expected < width.Modulus() && actual < width.Modulus() && width.Modulus() <= w.Modulus()
    ensures FitsInt(Load(expected, width), w) && FitsInt(Load(actual, width), w)
    ensures ElementFails(delta, Load(expected, width), Load(actual, width), Unsigned, w)
            <==> Distance(actual, expected) + Gap(expected, actual, width, w, Unsigned) > delta
  {
    LoadExtends(expected, width, w);
    LoadExtends(actual, width, w);
    UnsignedTestComparesLoaded(delta, Load(expected, width), Load(actual, width), w);
    hide ElementFails, Load, ToUint, Width.Modulus;
  }

  /** What the modular test of a pair of elements comes to. */
  lemma TestIsTooFar(delta: nat, expected: nat, actual: nat, width: Width, w: Width, style: Style)
    requires expected < width.Modulus() && actual < width.Modulus() && width.Modulus() <= w.Modulus()
    ensures FitsInt(Load(expected, width), w) && FitsInt(Load(actual, width), w)
    ensures ElementFails(delta, Load(expected, width), Load(actual, width), style, w)
            <==> TooFar(delta, expected, actual, width, w, style)
  {
    hide ElementFails, ToUint, Load, Width.Modulus, Width.Half, Distance, FitsInt;
    if style.Signed? {
      LoadExtends(expected, width, w);
      LoadExtends(actual, width, w);
      SignedTestIsExact(delta, Load(expected, width), Load(actual, width), w);
    } else {
      UnsignedTestIsTooFar(delta, expected, actual, width, w);
    }
  }

  datatype NumberVerdict =
    | Within
    | NoElements
    | NullArray
    | Outside(index: nat)

  predicate AllFit(raw: seq<nat>, width: Width) {
    forall i :: 0 <= i < |raw| ==> raw[i] < width.Modulus()
  }

  /** Element `k` of both arrays exists, and they are too far apart. */
  predicate FailsAt(delta: nat, expected: seq<nat>, actual: seq<nat>, numElements: nat, width: Width, w: Width,
                    style: Style, flags: Flags, k: nat)
    requires width.Modulus() <= w.Modulus()
    requires AllFit(expected, width) && AllFit(actual, width)
  {
    var e := if flags.ArrayToVal? then 0 else k;
    && k < numElements
    && k < |actual|
    && e < |expected|
    && TooFar(delta, expected[e], actual[k], width, w, style)
  }

  /** The two modes and the two styles: element `k` is compared with the same element, or with the one
      expected value; signed elements by their difference, and unsigned ones too as long as both lie
      in the same half of their range or are as wide as UNITY_INT. */
  lemma FailsLaw(delta: nat, expected: seq<nat>, actual: seq<nat>, numElements: nat, width: Width, w: Width,
                 style: Style, flags: Flags, k: nat)
    requires width.Modulus() <= w.Modulus() && AllFit(expected, width) && AllFit(actual, width)
    requires k < numElements <= |actual|
    requires |expected| >= if flags == ArrayToArray then numElements else 1
    ensures var e := expected[if flags == ArrayToArray then k else 0];
            var a := actual[k];
            && (style == Signed ==>
                  (FailsAt(delta, expected, actual, numElements, width, w, style, flags, k) <==>
                   !(0 - delta <= Load(a, width) - Load(e, width) <= delta)))
            && (style == Unsigned && ((a < width.Half() <==> e < width.Half()) || width == w) ==>
                  (FailsAt(delta, expected, actual, numElements, width, w, style, flags, k) <==>
                   !(0 - delta <= a - e <= delta)))
  {
    hide Load, Width.Modulus, Width.Half, Distance;
    var e := expected[if flags == ArrayToArray then k else 0];
    DistanceLaw(Load(actual[k], width), Load(e, width), delta);
    DistanceLaw(actual[k], e, delta);
  }

  lemma DistanceLaw(a: int, b: int, delta: nat)
    ensures Distance(a, b) > delta <==> !(0 - delta <= a - b <= delta)
  {
  }

  /** For distinct arrays the assertion fails exactly when some elements are too far apart, and
      reports the first ones. */
  method AssertNumbersArrayWithin(delta: nat, expected: array?<nat>, actual: array?<nat>, numElements: nat,
                                  width: Width, w: Width, style: Style, flags: Flags)
    returns (v: NumberVerdict)
    requires width.Modulus() <= w.Modulus()
    requires expected != null && actual != null ==>
               && actual.Length >= numElements
               && expected.Length >= (if flags.ArrayToVal? then 1 else numElements)
               && AllFit(expected[..], width) && AllFit(actual[..], width)
    ensures v == NoElements <==> numElements == 0
    ensures v == NullArray <==> numElements > 0 && expected != actual && (expected == null || actual == null)
    ensures expected == actual && v != NoElements ==> v == Within
    ensures expected != null && actual != null && expected != actual && numElements > 0 ==>
              (v == Within <==>
               forall k: nat :: !FailsAt(delta, expected[..], actual[..], numElements, width, w, style, flags, k))
    ensures v.Outside? ==>
              && expected != null && actual != null
              && FailsAt(delta, expected[..], actual[..], numElements, width, w, style, flags, v.index)
              && forall k: nat :: k < v.index ==>
                !FailsAt(delta, expected[..], actual[..], numElements, width, w, style, flags, k)
  {
    hide ElementFails, TooFar;
    if numElements == 0 {
      return NoElements;
    }
    if expected == actual {
      return Within;
    }
    if expected == null || actual == null {
      return NullArray;
    }
    var elements := numElements;
    var ptrExp, ptrAct := 0, 0;
    while elements > 0
      invariant 0 <= elements <= numElements
      invariant ptrAct == numElements - elements
      invariant ptrExp == if flags.ArrayToVal? then 0 else ptrAct
      invariant forall k: nat :: k < ptrAct ==>
        !FailsAt(delta, expected[..], actual[..], numElements, width, w, style, flags, k)
    {
      elements := elements - 1;
      assert expected[..][ptrExp] == expected[ptrExp] && actual[..][ptrAct] == actual[ptrAct];
      TestIsTooFar(delta, expected[ptrExp], actual[ptrAct], width, w, style);
      var expectVal := Load(expected[ptrExp], width);
      var actualVal := Load(actual[ptrAct], width);
      if ElementFails(delta, expectVal, actualVal, style, w) {
        assert FailsAt(delta, expected[..], actual[..], numElements, width, w, style, flags, ptrAct);
        v := Outside(numElements - elements - 1);
        return;
      }
      if flags == ArrayToArray {
        ptrExp := ptrExp + 1;
      }
      ptrAct := ptrAct + 1;
    }
    return Within;
  }
}
