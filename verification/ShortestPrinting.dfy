// __to_chars behind Ryu: printing the shortest decimal n * 10^k of a number, or the
// number itself where zero-filling n would not be exact.
module ShortestPrinting {
  import opened Arith
  import opened Words
  import opened Digits
  import opened Shortest
  import opened ExactFixed
  import opened Ryu
  import opened ToChars
  import opened Notation
  import opened ScientificNotation
  import LargeInteger
  import Blocks
  import Rounding
  import FixedNotation
  import FixedPrecision

  // --- decimals without a fraction ---

  // Ryu's decimal seen from the unscaled interval, when its exponent is not negative:
  // n * 10^k is accepted, no multiple of 10^(k + 1) is, and n is next to the number.
  ghost predicate WholeOutput(i: Interval, n: nat, k: nat)
    requires i.Valid()
  {
    && n > 0 && i.Accepted(n, k) && i.NoneAccepted(k + 1)
    && i.Unit(k) > 0 && (n == i.b / i.Unit(k) || n == i.b / i.Unit(k) + 1)
  }

  lemma WholeFromRyu(i: Interval, n: nat, k: nat, e10: int)
    requires i.Valid() && RyuOutput(i, n, k, e10)
    ensures WholeOutput(i, n, k)
  {
    ScaleZero(i);
    ScaleFactor(i, 0, k);
    var s, t := AtScale(i, k), Pow(10, Above(0) - Above(0 - k));
    MulAtLeast(Pow(10, k), i.d);
    hide Pow, AtScale, Interval.Accepted, Interval.NoneAccepted;
    Rescale(i, 0, k, n);
    RescaleNone(i, 0, k + 1);
    hide Interval.Unit;
    DivCancel(s.b, s.d, t);
  }

  // --- how many digits the number itself has ---

  lemma DecimalUnits(i: Interval, p: nat, k: nat)
    ensures p * i.Unit(k) == p * Pow(10, k) * i.d
  {
    hide Pow;
    MulAssociate(p, Pow(10, k), i.d);
  }

  lemma Between(i: Interval, v: nat, x: nat, y: nat)
    requires i.Valid() && i.b == v * i.d && i.Inside(x * i.d) && (x <= y <= v || v <= y <= x)
    ensures i.Inside(y * i.d)
  {
    if x <= y <= v {
      MulMonotone(x, y, i.d, i.d);
      MulMonotone(y, v, i.d, i.d);
    } else {
      MulMonotone(v, y, i.d, i.d);
      MulMonotone(y, x, i.d, i.d);
    }
  }

  // A power of ten above 10^k inside the interval would have been found.
  lemma NoPowerInside(i: Interval, k: nat, e: nat)
    requires i.NoneAccepted(k + 1) && e > k
    ensures !i.Inside(Pow(10, e) * i.d)
  {
    var next := k + 1;
    PowAdd(10, e - next, next);
    hide Pow;
    DecimalUnits(i, Pow(10, e - next), next);
    assert !i.Accepted(Pow(10, e - next), next);
  }

  lemma BelowNextPower(i: Interval, n: nat, k: nat, v: nat, len: nat)
    requires i.Valid() && WholeOutput(i, n, k) && i.b == v * i.d && len == DecimalLength(n)
    ensures v < Pow(10, len + k)
  {
    hide Pow, DecimalLength, Interval.Inside, Interval.Unit;
    OutputBounds(n, k, len);
    DecimalUnits(i, n, k);
    NoPowerInside(i, k, len + k);
    if v >= Pow(10, len + k) {
      Between(i, v, n * Pow(10, k), Pow(10, len + k));
    }
  }

  lemma SingleDigitBelow(i: Interval, n: nat, k: nat, v: nat)
    requires i.Valid() && WholeOutput(i, n, k) && i.b == v * i.d && v < Pow(10, k)
    ensures n == 1
  {
    hide Pow;
    DistributeSub(Pow(10, k), v, i.d);
    MulAtLeast(Pow(10, k) - v, i.d);
    DivUnique(i.b, i.Unit(k), 0, i.b);
  }

  lemma AtLeastPower(i: Interval, n: nat, k: nat, v: nat, len: nat)
    requires i.Valid() && WholeOutput(i, n, k) && i.b == v * i.d && len == DecimalLength(n)
    ensures v >= Pow(10, len - 1 + k) || (n == 1 && v < Pow(10, k))
  {
    hide Pow, DecimalLength, Interval.Inside, Interval.Unit;
    if v < Pow(10, len - 1 + k) {
      if len > 1 {
        OutputBounds(n, k, len);
        DecimalUnits(i, n, k);
        NoPowerInside(i, k, len - 1 + k);
        Between(i, v, n * Pow(10, k), Pow(10, len - 1 + k));
      } else {
        SingleDigitBelow(i, n, k, v);
      }
    }
  }

  // A power of ten that reads back as a smaller number is less than half as much again.
  lemma CloseToPower(i: Interval, k: nat, v: nat)
    requires i.Valid() && i.Accepted(1, k) && i.b == v * i.d && 2 * i.c <= 3 * i.b && v < Pow(10, k)
    ensures k > 0 && Pow(10, k - 1) <= v
  {
    PositiveExponent(k, v);
    PowStep(10, k);
    var p := Pow(10, k - 1);
    hide Pow;
    DecimalUnits(i, 1, k);
    if v < p {
      MulMonotone(v + 1, p, i.d, i.d);
      DistributeAdd(v, 1, i.d);
      MulAssociate(10, p, i.d);
    }
  }

  lemma PositiveExponent(k: nat, v: nat)
    requires 0 < v < Pow(10, k)
    ensures k > 0
  {
  }

  /** The number printed exactly has as many digits as n * 10^k, except that a power of
      ten can stand for a number just below it, which has one digit less. */
  lemma ExactLength(i: Interval, n: nat, k: nat, v: nat)
    requires i.Valid() && WholeOutput(i, n, k) && i.b == v * i.d && 2 * i.c <= 3 * i.b
    ensures DecimalLength(v) == DecimalLength(n) + k - if n == 1 && v < Pow(10, k) then 1 else 0
  {
    var len := DecimalLength(n);
    BelowNextPower(i, n, k, v, len);
    AtLeastPower(i, n, k, v, len);
    if n == 1 && v < Pow(10, k) {
      ShortLength(1);
      CloseToPower(i, k, v);
      hide Pow, DecimalLength;
      LengthIs(v, k);
    } else {
      PowerFloor(n, k, v, len);
      hide Pow, DecimalLength;
      LengthIs(v, len + k);
    }
  }

  lemma PowerFloor(n: nat, k: nat, v: nat, len: nat)
    requires len > 0 && (v >= Pow(10, len - 1 + k) || (n == 1 && v < Pow(10, k)))
    requires !(n == 1 && v < Pow(10, k))
    ensures v >= Pow(10, len + k - 1)
  {
  }

  // --- printing ---

  // m * 2^e2 is a normal number of the format and n * 10^k its shortest decimal.
  ghost predicate ShortensWhole(f: Format, m: nat, e2: int, mmShift: bool, n: nat, k: nat)
    requires f.Valid()
  {
    m > 0 && Normal(f, m, e2, mmShift) && WholeOutput(RoundingInterval(m, mmShift, Num(e2), Den(e2)), n, k)
  }

  // Only normal numbers are printed without a fraction.
  lemma WholeIsNormal(f: Format, m: nat, e2: int, mmShift: bool, n: nat, k: nat, e10: int)
    requires f.Valid() && Shortens(f, m, e2, mmShift, n, k, e10)
    ensures ShortensWhole(f, m, e2, mmShift, n, k)
  {
    WholeFromRyu(IntervalOf(m, e2, mmShift), n, k, e10);
    if Subnormal(f, m, e2, mmShift) {
      var i := RoundingInterval(m, mmShift, Num(e2), Den(e2));
      PowExponentMonotone(2, f.width - 1, -e2);
      PowZeroOf2();
      MulAtLeast(n, Pow(10, k));
      QuarterUnits(i, n, k, Den(e2));
      hide Pow;
      MulAtLeast(n * Pow(10, k), Den(e2));
    }
  }

  // The number, where it is an integer.
  ghost function Integer(m: nat, e2: int): (v: nat) { m * Num(e2) / Den(e2) }

  // Only integers are printed without a fraction; below 2^width they are n * 10^k.
  lemma IntegerBehind(f: Format, m: nat, e2: int, mmShift: bool, n: nat, k: nat)
    requires f.Valid() && ShortensWhole(f, m, e2, mmShift, n, k)
    ensures Integer(m, e2) * Den(e2) == m * Num(e2)
    ensures e2 <= 0 ==> Integer(m, e2) == n * Pow(10, k)
  {
    var i := RoundingInterval(m, mmShift, Num(e2), Den(e2));
    if e2 <= 0 {
      IntervalUnit(m, mmShift, Num(e2), Den(e2));
      QuarterUnits(i, n, k, Den(e2));
      PowZeroOf2();
      hide Pow, Num, Den, RoundingInterval;
      CoarserGrid(m, e2, mmShift, 0, n * Pow(10, k));
      DivUnique(m * Num(e2), Den(e2), n * Pow(10, k), 0);
    }
  }

  lemma IntervalOfInteger(m: nat, mmShift: bool, num: nat, den: nat, v: nat)
    requires m > 0 && num > 0 && den > 0 && v * den == m * num
    ensures var i := RoundingInterval(m, mmShift, num, den); i.b == v * i.d && 2 * i.c <= 3 * i.b
  {
    MulAssociate(v, 4, den);
    MulAssociate(4, v, den);
    MulAssociate(4, m, num);
    MulMonotone(8 * m + 4, 12 * m, num, num);
  }

  // Line 1375 and its table: one character less for a power of ten that stands for less.
  ghost predicate AdjustmentFor(adjustment: nat, m: nat, e2: int, n: nat, k: int)
  {
    n == 1 && k >= 0 ==> adjustment == if k > 0 && Integer(m, e2) < Pow(10, k) then 1 else 0
  }

  function AdjustedLength(olength: int, n: nat, k: int, adjustment: nat): (len: int)
  {
    FixedLength(olength, k) - if n == 1 && k >= 0 then adjustment else 0
  }

  // What is printed: integers beyond the shortest digits exactly, everything else as n * 10^k.
  ghost function PrintedText(fmt: CharsFormat, m: nat, e2: int, n: nat, k: int): (s: string)
  {
    if !ChoosesFixed(fmt, DecimalLength(n), k) then ScientificForm(n, k)
    else if k > 0 then Decimal(Integer(m, e2))
    else FixedForm(n, k)
  }

  /** It is in the notation the format asks for. */
  lemma PrintedInNotation(fmt: CharsFormat, m: nat, e2: int, n: nat, k: int)
    requires 0 < n < 100000000000000000 && Magnitude(k + DecimalLength(n) - 1) < 1000
    ensures InNotation(fmt, PrintedText(fmt, m, e2, n, k), n, k)
  {
    hide Integer, Decimal, DecimalLength, FixedForm, ScientificForm, WantsExponent, ChoosesFixed, InNotation,
         FixedShape;
    ChoiceIsWanted(fmt, n, k);
    if WantsExponent(fmt, n, k) {
      ScientificIsInNotation(fmt, n, k);
    } else {
      DecimalShape(Integer(m, e2));
      FixedFormShape(n, k);
      FixedIsInNotation(fmt, PrintedText(fmt, m, e2, n, k), n, k);
    }
  }

  lemma PrintedLength(f: Format, m: nat, e2: int, mmShift: bool, n: nat, k: int, adjustment: nat)
    requires f.Valid() && n > 0 && (k > 0 ==> ShortensWhole(f, m, e2, mmShift, n, k))
    requires AdjustmentFor(adjustment, m, e2, n, k)
    ensures k > 0 ==> DecimalLength(Integer(m, e2)) == AdjustedLength(DecimalLength(n), n, k, adjustment)
    ensures k <= 0 ==> |FixedForm(n, k)| == AdjustedLength(DecimalLength(n), n, k, adjustment)
  {
    FixedLengthIs(n, k);
    if k > 0 {
      hide Pow, DecimalLength, Num, Den, RoundingInterval, FixedForm, Normal;
      IntegerBehind(f, m, e2, mmShift, n, k);
      IntervalOfInteger(m, mmShift, Num(e2), Den(e2), Integer(m, e2));
      ExactLength(RoundingInterval(m, mmShift, Num(e2), Den(e2)), n, k, Integer(m, e2));
    }
  }

  // Zero-filling is used exactly when it prints the number itself.
  lemma ZeroFillingExact(m: nat, e2: int, n: nat, k: nat, v: nat, canUse: bool)
    requires v == Integer(m, e2) && v * Den(e2) == m * Num(e2)
    requires canUse <==> n * Pow(10, k) * Den(e2) == m * Num(e2)
    ensures canUse <==> n * Pow(10, k) == v
  {
    hide Pow, Num, Den;
    if canUse {
      CancelEqual(n * Pow(10, k), v, Den(e2));
    }
  }

  method LayOut(buf: array<char>, first: nat, last: nat, fixed: bool, olength: nat, n: U64, k: int, ghost orig: string)
    returns (ok: bool, end: nat)
    requires first <= last <= buf.Length && buf[..] == orig && n > 0 && olength == DecimalLength(n)
    requires Magnitude(k + olength - 1) < 1000
    modifies buf
    ensures var text := if fixed then FixedForm(n, k) else ScientificForm(n, k);
            && (ok <==> first + |text| <= last)
            && (ok ==> end == first + |text| && buf[..] == Splice(orig, first, text))
    ensures !ok ==> end == last && buf[..] == orig
  {
    hide FixedForm, ScientificForm, Splice, DecimalLength;
    FixedLengthIs(n, k);
    ScientificLengthIs(n, k);
    var total := if fixed then FixedLength(olength, k) else ScientificLength(olength, k);
    if last - first < total {
      return false, last;
    }
    if fixed {
      PutFixed(buf, first, olength, n, k, orig);
    } else {
      PutScientific(buf, first, olength, n, k, orig);
    }
    return true, first + total;
  }

  lemma FloatSignificand(ieeeMantissa: nat, ieeeExponent: nat, mmShift: bool)
    requires ieeeMantissa < 0x80_0000
    requires Normal(FLOAT, FloatM(ieeeMantissa, ieeeExponent), FloatE(ieeeExponent), mmShift)
    ensures LargeInteger.Significand(FloatM(ieeeMantissa, ieeeExponent)) && ieeeExponent > 0
  {
    LargeInteger.Pow2At23();
  }

  // The significand and exponent of a float (lines 1042-1049).
  function FloatM(ieeeMantissa: nat, ieeeExponent: nat): (m: nat)
  {
    if ieeeExponent == 0 then ieeeMantissa else 0x80_0000 + ieeeMantissa
  }

  function FloatE(ieeeExponent: nat): (e2: int)
  {
    (if ieeeExponent == 0 then 1 else ieeeExponent) - 127 - 23
  }

  /** __to_chars for float prints its text, and fails, leaving the buffer alone, exactly
      when the text does not fit. */
  method FloatToChars(buf: array<char>, first: nat, last: nat, n: U32, k: int, fmt: CharsFormat, ieeeMantissa: nat,
                      ieeeExponent: nat, adjustment: nat, ghost mmShift: bool)
    returns (ok: bool, end: nat)
    requires first <= last <= buf.Length && 0 < n < 1000000000 && Magnitude(k + DecimalLength(n) - 1) < 100
    requires ieeeMantissa < 0x80_0000 && ieeeExponent < 255
    requires k > 0 ==> ShortensWhole(FLOAT, FloatM(ieeeMantissa, ieeeExponent), FloatE(ieeeExponent), mmShift, n, k)
    requires AdjustmentFor(adjustment, FloatM(ieeeMantissa, ieeeExponent), FloatE(ieeeExponent), n, k)
    modifies buf
    ensures var text := PrintedText(fmt, FloatM(ieeeMantissa, ieeeExponent), FloatE(ieeeExponent), n, k);
            && (ok <==> first + |text| <= last)
            && (ok ==> end == first + |text| && buf[..] == Splice(old(buf[..]), first, text))
            && InNotation(fmt, text, n, k)
    ensures !ok ==> end == last && buf[..] == old(buf[..])
  {
    hide FixedForm, ScientificForm, Splice, DecimalLength, RoundingInterval, Num, Den, Pow, WholeOutput, AdjustmentFor,
         Integer, CanUseRyuFloat, Normal, InNotation;
    ghost var m, e2 := FloatM(ieeeMantissa, ieeeExponent), FloatE(ieeeExponent);
    PrintedInNotation(fmt, m, e2, n, k);
    var olength := DecimalLength9(n);
    if !ChoosesFixed(fmt, olength, k) {
      ok, end := LayOut(buf, first, last, false, olength, n, k, buf[..]);
      return;
    }
    var total := AdjustedLength(olength, n, k, adjustment);
    PrintedLength(FLOAT, m, e2, mmShift, n, k, adjustment);
    if last - first < total {
      return false, last;
    }
    if k > 0 {
      IntegerBehind(FLOAT, m, e2, mmShift, n, k);
      AcceptedOutput(FLOAT, m, e2, mmShift, n, k);
      CanUseRyuFloatExact(m, e2, mmShift, n, k);
      ZeroFillingExact(m, e2, n, k, Integer(m, e2), CanUseRyuFloat(n, k));
      if !CanUseRyuFloat(n, k) {
        FloatSignificand(ieeeMantissa, ieeeExponent, mmShift);
        var m2, exponent := 0x80_0000 + ieeeMantissa, ieeeExponent - 127 - 23;
        IntegerOf(m2, exponent);
        ok, end := LargeInteger.LargeIntegerToChars(buf, first, last, m2, exponent);
        return;
      }
      FormOfInteger(n, k);
    }
    ok, end := LayOut(buf, first, last, true, olength, n, k, buf[..]);
  }

  lemma AcceptedOutput(f: Format, m: nat, e2: int, mmShift: bool, n: nat, k: nat)
    requires f.Valid() && ShortensWhole(f, m, e2, mmShift, n, k)
    ensures n > 0 && RoundingInterval(m, mmShift, Num(e2), Den(e2)).Accepted(n, k)
  {
  }

  lemma IntegerOf(m: nat, e2: int)
    requires e2 > 0
    ensures Integer(m, e2) == m * Pow(2, e2)
  {
  }

  lemma FormOfInteger(n: nat, k: nat)
    ensures FixedForm(n, k) == Decimal(n * Pow(10, k))
  {
  }

  // --- doubles ---

  // Printing with no digits behind the point is exact for integers.
  lemma ExactFallback(m: nat, e2: int)
    requires e2 > 0
    ensures FixedNotation.FixedText(Rounding.NearestAt(m, e2, 0), 0) == Decimal(Integer(m, e2))
  {
    FixedPrecision.IntegerScale(m, e2, 0);
    IntegerOf(m, e2);
    assert Pow(10, 0) == 1;
    hide Decimal;
  }

  ghost predicate DoubleTables(ieeeMantissa: nat, ieeeExponent: nat, whole: seq<nat>, fraction: Blocks.FractionTable)
  {
    && Blocks.FiniteFields(ieeeMantissa, ieeeExponent)
    && (ieeeMantissa != 0 || ieeeExponent != 0)
    && Blocks.TablesFor(Blocks.DecodedM(ieeeMantissa, ieeeExponent), Blocks.DecodedE(ieeeExponent), whole, fraction)
  }

  /** __to_chars for double. */
  method DoubleToChars(buf: array<char>, first: nat, last: nat, n: U64, k: int, fmt: CharsFormat, ieeeMantissa: nat,
                       ieeeExponent: nat, adjustment: nat, whole: seq<nat>, fraction: Blocks.FractionTable,
                       ghost mmShift: bool)
    returns (ok: bool, end: nat)
    requires first <= last <= buf.Length && 0 < n < 100000000000000000 && Magnitude(k + DecimalLength(n) - 1) < 1000
    requires DoubleTables(ieeeMantissa, ieeeExponent, whole, fraction)
    requires k > 0 ==>
               var m, e2 := Blocks.DecodedM(ieeeMantissa, ieeeExponent), Blocks.DecodedE(ieeeExponent);
               ShortensWhole(DOUBLE, m, e2, mmShift, n, k)
    requires AdjustmentFor(adjustment, Blocks.DecodedM(ieeeMantissa, ieeeExponent), Blocks.DecodedE(ieeeExponent), n, k)
    modifies buf
    ensures var text := PrintedText(fmt, Blocks.DecodedM(ieeeMantissa, ieeeExponent), Blocks.DecodedE(ieeeExponent), n,
                                    k);
            && (ok <==> first + |text| <= last)
            && (ok ==> end == first + |text| && buf[..] == Splice(old(buf[..]), first, text))
            && InNotation(fmt, text, n, k)
    ensures !ok ==> end == last && buf[..] == old(buf[..])
  {
    hide FixedForm, ScientificForm, Splice, DecimalLength, RoundingInterval, Num, Den, Pow, WholeOutput, AdjustmentFor,
         Integer, CanUseRyuDouble, Normal, InNotation,
         Blocks.TablesFor, Blocks.DecodedM, Blocks.DecodedE, FixedNotation.FixedText, Rounding.NearestAt;
    ghost var m, e2 := Blocks.DecodedM(ieeeMantissa, ieeeExponent), Blocks.DecodedE(ieeeExponent);
    PrintedInNotation(fmt, m, e2, n, k);
    var olength := DecimalLength17(n);
    if !ChoosesFixed(fmt, olength, k) {
      ok, end := LayOut(buf, first, last, false, olength, n, k, buf[..]);
      return;
    }
    var total := AdjustedLength(olength, n, k, adjustment);
    PrintedLength(DOUBLE, m, e2, mmShift, n, k, adjustment);
    if last - first < total {
      return false, last;
    }
    if k > 0 {
      IntegerBehind(DOUBLE, m, e2, mmShift, n, k);
      AcceptedOutput(DOUBLE, m, e2, mmShift, n, k);
      CanUseRyuDoubleExact(m, e2, mmShift, n, k);
      ZeroFillingExact(m, e2, n, k, Integer(m, e2), CanUseRyuDouble(n, k));
      if !CanUseRyuDouble(n, k) {
        ExactFallback(m, e2);
        ok, end := FixedPrecision.D2fixedBufferedN(buf, first, last, ieeeMantissa, ieeeExponent, 0, whole, fraction);
        return;
      }
      FormOfInteger(n, k);
    }
    ok, end := LayOut(buf, first, last, true, olength, n, k, buf[..]);
  }
}
