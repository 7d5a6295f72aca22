// __f2s_buffered_n and __d2s_buffered_n as a whole, and what reading their text gives.
module Buffered {
  import opened Arith
  import opened Words
  import opened Digits
  import opened Shortest
  import opened ExactFixed
  import opened Ryu
  import opened Reading
  import opened Nearest
  import opened Scales
  import opened ToDecimal
  import opened ToChars
  import opened Notation
  import opened ScientificNotation
  import opened ShortestPrinting
  import opened Adjustment
  import opened DoubleAdjustment
  import LargeInteger
  import Blocks
  import Rounding
  import FixedNotation
  import FixedPrecision

  // --- small integers, which need no Ryu ---

  predicate SmallInt(m: nat, e2: int) { -52 <= e2 <= 0 && m % Den(e2) == 0 }

  // __d2d_small_int and the loop of lines 2310-2318.
  method SmallInteger(m: U64, e2: int) returns (small: bool, n: U64, k: nat)
    requires m > 0
    ensures small <==> SmallInt(m, e2)
    ensures small ==> n > 0 && n % 10 != 0 && n * Pow(10, k) * Den(e2) == m
  {
    small, n, k := false, 0, 0;
    if e2 > 0 || e2 < -52 {
      return;
    }
    hide Den, Pow;
    var fraction := m % Den(e2);
    if fraction != 0 {
      return;
    }
    DivMod(m, Den(e2));
    Shrinks(m, Den(e2));
    small, n := true, m / Den(e2);
    TimesOne(n);
    ghost var v := n;
    while true
      invariant n > 0 && n * Pow(10, k) == v
      decreases n
    {
      var q := Div10(n);
      var r := ModBy(n, 10, q);
      if r != 0 {
        break;
      }
      StripZero(n, k);
      n := q;
      k := k + 1;
    }
  }

  lemma Shrinks(m: nat, d: nat)
    requires d > 0 && m > 0 && m % d == 0
    ensures 0 < m / d <= m
  {
    DivMod(m, d);
    MulMonotone(m / d, m / d, 1, d);
  }

  lemma StripZero(n: nat, k: nat)
    requires n > 0 && n % 10 == 0
    ensures 0 < n / 10 < n && n / 10 * Pow(10, k + 1) == n * Pow(10, k)
  {
    PowStep(10, k + 1);
    hide Pow;
    MulAssociate(n / 10, 10, Pow(10, k));
  }

  /** Stripping the zeros of a small integer finds its shortest decimal. */
  lemma SmallIntegerShortens(m: nat, e2: int, mmShift: bool, n: nat, k: nat)
    requires m > 0 && n > 0 && e2 <= 0 && n % 10 != 0 && n * Pow(10, k) * Den(e2) == m
    ensures forall e10: int :: RyuOutput(IntervalOf(m, e2, mmShift), n, k, e10)
    ensures ClosestAt(IntervalOf(m, e2, mmShift), n, k)
  {
    var i := IntervalOf(m, e2, mmShift);
    ScaleZero(i);
    hide IntervalOf, AtScale, Interval.Accepted, Interval.NoneAccepted, Interval.Unit, Pow, Den;
    NoneRounder(m, e2, mmShift, n, k);
    ExactDecimal(m, e2, mmShift, n, k);
    RescaleNone(i, 0, k + 1);
    Rescale(i, 0, k, n);
    ExactIsClosest(i, n, k);
  }

  lemma ExactDecimal(m: nat, e2: int, mmShift: bool, n: nat, k: nat)
    requires m > 0 && n * Pow(10, k) * Den(e2) == m * Num(e2)
    ensures var i := IntervalOf(m, e2, mmShift); n * i.Unit(k) == i.b && i.Accepted(n, k)
  {
    var i := IntervalOf(m, e2, mmShift);
    IntervalUnit(m, mmShift, Num(e2), Den(e2));
    QuarterUnits(i, n, k, Den(e2));
    hide Pow, Den, Num, Interval.Unit;
    MulAssociate(4, m, Num(e2));
  }

  // A decimal equal to the number is the nearest.
  lemma ExactIsClosest(i: Interval, n: nat, k: nat)
    requires i.Valid() && n * i.Unit(k) == i.b
    ensures NextTo(i, n, k) && ClosestAt(i, n, k)
  {
    var s := AtScale(i, k);
    ScaleZero(i);
    ScaleFactor(i, 0, k);
    PowZero(0);
    UnitZero(s);
    hide Pow, AtScale, Interval.Unit, Interval.Accepted;
    MulAssociate(n, s.d, 1);
    DivUnique(s.b, s.d, n, 0);
    forall n': nat | n' != n ensures s.Distance(n', 0) > 0 {
      if n' * s.d == s.b {
        CancelEqual(n', n, s.d);
      }
    }
  }

  lemma NoneRounder(m: nat, e2: int, mmShift: bool, n: nat, k: nat)
    requires m > 0 && e2 <= 0 && n % 10 != 0 && n * Pow(10, k) * Den(e2) == m
    ensures IntervalOf(m, e2, mmShift).NoneAccepted(k + 1) && Num(e2) == 1
  {
    PowZeroOf2();
    var i, next := IntervalOf(m, e2, mmShift), k + 1;
    assert Num(e2) == 1;
    hide Interval.Accepted, Pow, Den, Num;
    forall p: nat ensures !i.Accepted(p, next) {
      NotRounder(m, e2, mmShift, n, k, p);
    }
  }

  lemma NotRounder(m: nat, e2: int, mmShift: bool, n: nat, k: nat, p: nat)
    requires m > 0 && e2 <= 0 && n % 10 != 0 && n * Pow(10, k) * Den(e2) == m && Num(e2) == 1
    ensures !RoundingInterval(m, mmShift, Num(e2), Den(e2)).Accepted(p, k + 1)
  {
    var i := RoundingInterval(m, mmShift, Num(e2), Den(e2));
    PowZeroOf2();
    PowStep(10, k + 1);
    IntervalUnit(m, mmShift, Num(e2), Den(e2));
    QuarterUnits(i, p, k + 1, Den(e2));
    hide Pow, Den, Num, RoundingInterval;
    if i.Accepted(p, k + 1) {
      CoarserGrid(m, e2, mmShift, 0, p * Pow(10, k + 1));
      OtherMultiple(p, n, Pow(10, k), Den(e2));
    }
  }

  lemma OtherMultiple(p: nat, n: nat, t: nat, den: nat)
    requires t > 0 && den > 0 && p * (10 * t) * den == n * t * den
    ensures n % 10 == 0
  {
    CancelEqual(p * (10 * t), n * t, den);
    MulAssociate(p, 10, t);
    CancelEqual(p * 10, n, t);
  }

  // --- the numbers the fields stand for ---

  // The gap below is halved at every power of two but the smallest.
  function HasWideGap(ieeeMantissa: nat, ieeeExponent: nat): (mmShift: bool) { ieeeMantissa != 0 || ieeeExponent <= 1 }

  lemma FloatIsFinite(ieeeMantissa: nat, ieeeExponent: nat)
    requires ieeeMantissa < 0x80_0000 && ieeeExponent < 255 && (ieeeMantissa != 0 || ieeeExponent != 0)
    ensures Finite(FLOAT, FloatM(ieeeMantissa, ieeeExponent), FloatE(ieeeExponent),
                   HasWideGap(ieeeMantissa, ieeeExponent))
  {
    FloatWidth();
    hide Pow;
  }

  lemma DoubleIsFinite(ieeeMantissa: nat, ieeeExponent: nat)
    requires Blocks.FiniteFields(ieeeMantissa, ieeeExponent) && (ieeeMantissa != 0 || ieeeExponent != 0)
    ensures Finite(DOUBLE, Blocks.DecodedM(ieeeMantissa, ieeeExponent), Blocks.DecodedE(ieeeExponent),
                   HasWideGap(ieeeMantissa, ieeeExponent))
  {
    Pow2At53();
    PowStep(2, 53);
    hide Pow;
  }

  // --- what is printed ---

  // Lines 1553-1571 and 2255-2273.
  method PutZero(buf: array<char>, first: nat, last: nat, fmt: CharsFormat) returns (ok: bool, end: nat)
    requires first <= last <= buf.Length
    modifies buf
    ensures ok <==> first + |ZeroText(fmt)| <= last
    ensures ok ==> end == first + |ZeroText(fmt)| && buf[..] == Splice(old(buf[..]), first, ZeroText(fmt))
    ensures !ok ==> end == last && buf[..] == old(buf[..])
  {
    if fmt.Scientific? {
      if last - first < 5 {
        return false, last;
      }
      buf[first], buf[first + 1], buf[first + 2], buf[first + 3], buf[first + 4] := '0', 'e', '+', '0', '0';
      return true, first + 5;
    }
    if first == last {
      return false, last;
    }
    buf[first] := '0';
    return true, first + 1;
  }

  function ZeroText(fmt: CharsFormat): (s: string) { if fmt.Scientific? then "0e+00" else "0" }

  // Integers beyond the significand skip Ryu when the format is fixed.
  predicate SkipsRyu(fmt: CharsFormat, e2: int) { fmt.Fixed? && e2 > 0 }

  ghost function BufferedText(fmt: CharsFormat, m: nat, e2: int, n: nat, k: int): (s: string)
  {
    if m == 0 then ZeroText(fmt)
    else if SkipsRyu(fmt, e2) then Decimal(Integer(m, e2))
    else PrintedText(fmt, m, e2, n, k)
  }

  lemma ZeroInNotation(fmt: CharsFormat)
    ensures InNotation(fmt, ZeroText(fmt), 0, 0)
  {
    ShortLength(0);
    ShorterZero();
    hide ScientificForm, FixedForm, DecimalLength;
    var s := ZeroText(fmt);
    if fmt.Scientific? {
      assert s[1..] == "e+00" && s[1..][2..] == "00";
      assert DigitsValue("00") == 0;
      assert s[1] == 'e';
    }
  }

  lemma ShorterZero()
    ensures |FixedForm(0, 0)| <= |ScientificForm(0, 0)|
  {
    ShortLength(0);
    assert 0 * Pow(10, 0) == 0;
  }

  // Every text is in the notation its format asks for, zero and the integers that need
  // no Ryu included; those have no decimal of their own.
  lemma BufferedInNotation(fmt: CharsFormat, m: nat, e2: int, n: nat, k: int)
    requires if m == 0 || SkipsRyu(fmt, e2) then n == 0 && k == 0
             else 0 < n < 100000000000000000 && Magnitude(k + DecimalLength(n) - 1) < 1000
    ensures InNotation(fmt, BufferedText(fmt, m, e2, n, k), n, k)
  {
    hide PrintedText, ZeroText, Decimal, Integer, DecimalLength, InNotation, FixedShape;
    if m == 0 {
      ZeroInNotation(fmt);
    } else if SkipsRyu(fmt, e2) {
      DecimalShape(Integer(m, e2));
      FixedIsInNotation(fmt, Decimal(Integer(m, e2)), 0, 0);
    } else {
      PrintedInNotation(fmt, m, e2, n, k);
    }
  }

  // --- what it reads back as ---

  // A number whose fraction is empty.
  ghost predicate IsInteger(m: nat, e2: int) { m * Num(e2) % Den(e2) == 0 }

  lemma IntegerValue(m: nat, e2: int)
    requires IsInteger(m, e2)
    ensures Integer(m, e2) * Den(e2) == m * Num(e2)
  {
    hide Num, Den;
    DivMod(m * Num(e2), Den(e2));
  }

  lemma IntegerAccepted(m: nat, e2: int, mmShift: bool, v: nat)
    requires m > 0 && v * Den(e2) == m * Num(e2)
    ensures AcceptedAt(IntervalOf(m, e2, mmShift), v, 0)
  {
    var i := IntervalOf(m, e2, mmShift);
    hide Pow, Num, Den, RoundingInterval, AtScale, Interval.Inside, Interval.Unit;
    TimesOne(v);
    ExactDecimal(m, e2, mmShift, v, 0);
    ScaleZero(i);
  }

  lemma ReadInteger(v: nat)
    ensures Read(Decimal(v)) == Dec(v, 0)
  {
    ReadFixed(v, 0);
    TimesOne(v);
    hide Read, Decimal, Pow;
  }

  // The text is exact where it is an integer that need not be n * 10^k.
  predicate PrintsInteger(fmt: CharsFormat, e2: int, n: nat, k: int)
  {
    SkipsRyu(fmt, e2) || (ChoosesFixed(fmt, DecimalLength(n), k) && k > 0)
  }

  lemma ReadPrinted(fmt: CharsFormat, m: nat, e2: int, n: nat, k: int)
    requires Magnitude(k + DecimalLength(n) - 1) < 1000
    ensures Read(PrintedText(fmt, m, e2, n, k)) ==
              if ChoosesFixed(fmt, DecimalLength(n), k) && k > 0 then Dec(Integer(m, e2), 0) else Dec(n, k)
  {
    hide Read, FixedForm, ScientificForm, Decimal, Integer, DecimalLength;
    if !ChoosesFixed(fmt, DecimalLength(n), k) {
      ReadScientific(n, k);
    } else if k > 0 {
      ReadInteger(Integer(m, e2));
    } else {
      ReadFixed(n, k);
      TimesOne(n);
    }
  }

  // The text s reads back as the number m * 2^e2 of the format.
  ghost predicate ReadsAs(f: Format, s: string, m: nat, e2: int)
    requires f.Valid() && e2 + Depth(f) >= 0
  {
    if m == 0 then Read(s).n == 0 else RoundsTo(f, Read(s).n, Read(s).k, m, e2)
  }

  // What Ryu computes where it is needed.
  ghost predicate GivenRyu(f: Format, fmt: CharsFormat, m: nat, e2: int, mmShift: bool, n: nat, k: int, e10: int)
    requires f.Valid()
  {
    && Finite(f, m, e2, mmShift)
    && (!SkipsRyu(fmt, e2) ==> Shortens(f, m, e2, mmShift, n, k, e10) && Magnitude(k + DecimalLength(n) - 1) < 1000)
  }

  // Where the number itself is printed it is an integer.
  lemma PrintedInteger(f: Format, fmt: CharsFormat, m: nat, e2: int, mmShift: bool, n: nat, k: int, e10: int)
    requires f.Valid() && GivenRyu(f, fmt, m, e2, mmShift, n, k, e10) && PrintsInteger(fmt, e2, n, k)
    ensures Integer(m, e2) * Den(e2) == m * Num(e2)
  {
    if !SkipsRyu(fmt, e2) {
      WholeIsNormal(f, m, e2, mmShift, n, k, e10);
      IntegerBehind(f, m, e2, mmShift, n, k);
    }
  }

  /** Reading what is printed gives the number back, in every format. */
  lemma RoundTrip(f: Format, fmt: CharsFormat, m: nat, e2: int, mmShift: bool, n: nat, k: int, e10: int)
    requires f.Valid() && GivenRyu(f, fmt, m, e2, mmShift, n, k, e10)
    ensures e2 + Depth(f) >= 0 && ReadsAs(f, BufferedText(fmt, m, e2, n, k), m, e2)
    ensures Read(BufferedText(fmt, m, e2, n, k)) ==
              if PrintsInteger(fmt, e2, n, k) then Dec(Integer(m, e2), 0) else Dec(n, k)
  {
    hide Read, PrintedText, Integer, Pow, RyuOutput, IntervalOf, AcceptedAt, RoundsTo, Decimal, DecimalLength;
    FinitePositive(f, m, e2, mmShift);
    FiniteRange(f, m, e2, mmShift);
    FiniteIsNumber(f, m, e2, mmShift);
    hide Finite;
    if SkipsRyu(fmt, e2) {
      ReadInteger(Integer(m, e2));
    } else {
      ReadPrinted(fmt, m, e2, n, k);
    }
    if PrintsInteger(fmt, e2, n, k) {
      PrintedInteger(f, fmt, m, e2, mmShift, n, k, e10);
      IntegerAccepted(m, e2, mmShift, Integer(m, e2));
      AcceptedIffRoundsTo(f, m, e2, mmShift, Integer(m, e2), 0);
    } else {
      OutputParts(f, m, e2, mmShift, n, k, e10);
      AcceptedIffRoundsTo(f, m, e2, mmShift, n, k);
    }
  }

  lemma FiniteIsNumber(f: Format, m: nat, e2: int, mmShift: bool)
    requires f.Valid() && Finite(f, m, e2, mmShift)
    ensures Number(f, m, e2, mmShift)
  {
  }

  /** And no decimal that reads back as the number has fewer digits. */
  lemma NothingShorter(f: Format, m: nat, e2: int, mmShift: bool, n: nat, k: int, e10: int, n': nat, k': int)
    requires f.Valid() && Shortens(f, m, e2, mmShift, n, k, e10) && e2 + Depth(f) >= 0
    requires n' > 0 && RoundsTo(f, n', k', m, e2)
    ensures DecimalLength(n) <= DecimalLength(n')
  {
    FinitePositive(f, m, e2, mmShift);
    FiniteIsNumber(f, m, e2, mmShift);
    hide Finite, RoundsTo, DecimalLength, IntervalOf, RyuOutput;
    AcceptedIffRoundsTo(f, m, e2, mmShift, n', k');
    ShortestOfAll(IntervalOf(m, e2, mmShift), n, k, e10, n', k');
  }

  lemma ReadZero(fmt: CharsFormat)
    ensures Read(ZeroText(fmt)).n == 0
  {
    if fmt.Scientific? {
      assert "0" + "e+00" == "0e+00";
      ReadParts("0", "e+00");
    } else {
      assert "0" + "" == "0";
      ReadParts("0", "");
    }
    assert DigitsValue("0") == 0;
    hide Read;
  }

  // --- the printers as a whole ---

  lemma FloatTableAdjusts(m: nat, e2: int, mmShift: bool, n: nat, k: int)
    requires k < 39 && (k > 0 ==> ShortensWhole(FLOAT, m, e2, mmShift, n, k))
    ensures |FLOAT_ADJUSTMENT| == 39
    ensures AdjustmentFor(if n == 1 && k >= 0 then FLOAT_ADJUSTMENT[k] else 0, m, e2, n, k)
  {
    SmallAdjustments(0);
    hide ShortensWhole, Integer, Pow;
    if n == 1 && k > 0 {
      FloatAdjusts(m, e2, mmShift, k);
    }
  }

  // The text of a float reads back, given Ryu's decimal.
  lemma FloatReadsBack(ieeeMantissa: nat, ieeeExponent: nat, fmt: CharsFormat, n: nat, k: int, e10: int)
    requires ieeeMantissa < 0x80_0000 && ieeeExponent < 255
    requires var m, e2 := FloatM(ieeeMantissa, ieeeExponent), FloatE(ieeeExponent);
             m > 0 && !SkipsRyu(fmt, e2) ==> Shortens(FLOAT, m, e2, HasWideGap(ieeeMantissa, ieeeExponent), n, k, e10)
    ensures var m, e2 := FloatM(ieeeMantissa, ieeeExponent), FloatE(ieeeExponent);
            e2 + Depth(FLOAT) >= 0 && ReadsAs(FLOAT, BufferedText(fmt, m, e2, n, k), m, e2)
  {
    var m, e2, wide := FloatM(ieeeMantissa, ieeeExponent), FloatE(ieeeExponent),
                       HasWideGap(ieeeMantissa, ieeeExponent);
    hide PrintedText, Pow, ZeroText, DecimalLength, Integer, Read, RoundsTo, RyuOutput;
    if m == 0 {
      ReadZero(fmt);
    } else {
      FloatIsFinite(ieeeMantissa, ieeeExponent);
      hide Finite;
      if !SkipsRyu(fmt, e2) {
        FloatFits(m, e2, wide, n, k, e10);
      }
      RoundTrip(FLOAT, fmt, m, e2, wide, n, k, e10);
    }
  }

  lemma DoubleReadsBack(ieeeMantissa: nat, ieeeExponent: nat, fmt: CharsFormat, n: nat, k: int, e10: int)
    requires Blocks.FiniteFields(ieeeMantissa, ieeeExponent)
    requires var m, e2 := Blocks.DecodedM(ieeeMantissa, ieeeExponent), Blocks.DecodedE(ieeeExponent);
             m > 0 && !SkipsRyu(fmt, e2) ==> Shortens(DOUBLE, m, e2, HasWideGap(ieeeMantissa, ieeeExponent), n, k, e10)
    ensures var m, e2 := Blocks.DecodedM(ieeeMantissa, ieeeExponent), Blocks.DecodedE(ieeeExponent);
            e2 + Depth(DOUBLE) >= 0 && ReadsAs(DOUBLE, BufferedText(fmt, m, e2, n, k), m, e2)
  {
    var m, e2, wide := Blocks.DecodedM(ieeeMantissa, ieeeExponent), Blocks.DecodedE(ieeeExponent),
                       HasWideGap(ieeeMantissa, ieeeExponent);
    hide PrintedText, Pow, ZeroText, DecimalLength, Integer, Read, RoundsTo, RyuOutput;
    if m == 0 {
      ReadZero(fmt);
    } else {
      DoubleIsFinite(ieeeMantissa, ieeeExponent);
      hide Finite;
      if !SkipsRyu(fmt, e2) {
        DoubleFits(m, e2, wide, n, k, e10);
      }
      RoundTrip(DOUBLE, fmt, m, e2, wide, n, k, e10);
    }
  }

  // n * 10^k is a shortest decimal that reads back as the number, and the nearest such,
  // whatever the exponents of the others.
  ghost predicate ShortestAndNearest(f: Format, m: nat, e2: int, mmShift: bool, n: nat, k: int)
    requires f.Valid() && m > 0
  {
    var i := IntervalOf(m, e2, mmShift);
    && (exists e10: int :: Shortens(f, m, e2, mmShift, n, k, e10))
    && ClosestAt(i, n, k) && NearestOfShortest(i, n, k)
  }

  /** So no decimal that reads back as the number with as few digits is nearer to it. */
  lemma NothingNearer(f: Format, m: nat, e2: int, mmShift: bool, n: nat, k: int, n': nat, k': int)
    requires f.Valid() && m > 0 && ShortestAndNearest(f, m, e2, mmShift, n, k) && e2 + Depth(f) >= 0
    requires RoundsTo(f, n', k', m, e2) && DecimalLength(n') <= DecimalLength(n)
    ensures NoFarther(IntervalOf(m, e2, mmShift), n, k, n', k')
  {
    var e10: int :| Shortens(f, m, e2, mmShift, n, k, e10);
    FiniteIsNumber(f, m, e2, mmShift);
    hide Finite, RoundsTo, DecimalLength, IntervalOf, RyuOutput, NoFarther;
    AcceptedIffRoundsTo(f, m, e2, mmShift, n', k');
  }

  /** __f2s_buffered_n, given the floors that the multiplications in __f2d yield. */
  method F2sBufferedN(buf: array<char>, first: nat, last: nat, ieeeMantissa: U32, ieeeExponent: nat, fmt: CharsFormat,
                      vr: U32, vp: U32, vm: U32, finer: U32)
    returns (ok: bool, end: nat, ghost n: nat, ghost k: int)
    requires first <= last <= buf.Length && ieeeMantissa < 0x80_0000 && ieeeExponent < 255
    requires var m, e2 := FloatM(ieeeMantissa, ieeeExponent), FloatE(ieeeExponent);
             m > 0 && !SkipsRyu(fmt, e2) ==>
               FloatFloors(m, HasWideGap(ieeeMantissa, ieeeExponent), e2 - 2, vr, vp, vm, finer)
    modifies buf
    ensures var m, e2 := FloatM(ieeeMantissa, ieeeExponent), FloatE(ieeeExponent);
            var text := BufferedText(fmt, m, e2, n, k);
            && (ok <==> first + |text| <= last)
            && (ok ==> end == first + |text| && buf[..] == Splice(old(buf[..]), first, text))
            && e2 + Depth(FLOAT) >= 0 && ReadsAs(FLOAT, text, m, e2)
            && InNotation(fmt, text, n, k) && (m == 0 || SkipsRyu(fmt, e2) ==> n == 0 && k == 0)
            && (m > 0 && !SkipsRyu(fmt, e2) ==>
                  ShortestAndNearest(FLOAT, m, e2, HasWideGap(ieeeMantissa, ieeeExponent), n, k))
    ensures !ok ==> end == last && buf[..] == old(buf[..])
  {
    hide PrintedText, Splice, Shortens, Pow, ZeroText, DecimalLength, Integer, AdjustmentFor, ReadsAs, ShortensWhole,
         FloatFloors, Finite, IntervalOf, ClosestAt, NearestOfShortest, InNotation;
    n, k := 0, 0;
    if ieeeMantissa == 0 && ieeeExponent == 0 {
      FloatReadsBack(ieeeMantissa, ieeeExponent, fmt, n, k, 0);
      BufferedInNotation(fmt, FloatM(ieeeMantissa, ieeeExponent), FloatE(ieeeExponent), n, k);
      ok, end := PutZero(buf, first, last, fmt);
      return;
    }
    var m2, exponent := 0x80_0000 + ieeeMantissa, ieeeExponent - 127 - 23;
    if fmt.Fixed? && exponent > 0 {
      FloatReadsBack(ieeeMantissa, ieeeExponent, fmt, n, k, 0);
      BufferedInNotation(fmt, FloatM(ieeeMantissa, ieeeExponent), FloatE(ieeeExponent), n, k);
      IntegerOf(m2, exponent);
      ok, end := LargeInteger.LargeIntegerToChars(buf, first, last, m2, exponent);
      return;
    }
    var m, e2, wide := FloatM(ieeeMantissa, ieeeExponent), FloatE(ieeeExponent),
                       HasWideGap(ieeeMantissa, ieeeExponent);
    FloatIsFinite(ieeeMantissa, ieeeExponent);
    ghost var scale: int;
    var outN, outK;
    outN, outK, scale := F2d(m, wide, e2 - 2, vr, vp, vm, finer);
    n, k := outN, outK;
    FloatReadsBack(ieeeMantissa, ieeeExponent, fmt, n, k, scale);
    FloatFits(m, e2, wide, n, k, scale);
    BufferedInNotation(fmt, m, e2, n, k);
    if k > 0 {
      WholeIsNormal(FLOAT, m, e2, wide, n, k, scale);
    }
    FloatTableAdjusts(m, e2, wide, n, k);
    ok, end := FloatToChars(buf, first, last, outN, outK, fmt, ieeeMantissa, ieeeExponent,
                            if outN == 1 && outK >= 0 then FLOAT_ADJUSTMENT[outK] else 0, wide);
  }

  lemma DoubleTableAdjusts(m: nat, e2: int, mmShift: bool, n: nat, k: int)
    requires k < 309 && (k > 0 ==> ShortensWhole(DOUBLE, m, e2, mmShift, n, k))
    ensures AdjustmentFor(if n == 1 && k >= 0 then AdjustmentOf(k) else 0, m, e2, n, k)
  {
    FirstEntries(0);
    hide ShortensWhole, Integer, Pow, Row;
    if n == 1 && k > 0 {
      DoubleAdjusts(m, e2, mmShift, k);
    }
  }

  lemma ZeroFields(ieeeMantissa: nat, ieeeExponent: nat)
    requires Blocks.FiniteFields(ieeeMantissa, ieeeExponent)
    ensures var m := Blocks.DecodedM(ieeeMantissa, ieeeExponent);
            (m == 0 <==> ieeeMantissa == 0 && ieeeExponent == 0) && m < 0x1_0000_0000_0000_0000
  {
  }

  ghost function DoubleE10(e2: int): (e10: int)
    requires D2dExponent(e2 - 2)
  {
    E10(e2 - 2, DoubleQ(e2 - 2))
  }

  // The decimal of a small integer, or Ryu's.
  method ChooseDecimal(m: U64, e2: int, mmShift: bool, vr: U64, vp: U64, vm: U64) returns (n: U64, k: int)
    requires m > 0 && Finite(DOUBLE, m, e2, mmShift) && D2dExponent(e2 - 2)
    requires !SmallInt(m, e2) ==> Floors(m, mmShift, e2 - 2, DoubleQ(e2 - 2), vr, vp, vm)
    ensures Shortens(DOUBLE, m, e2, mmShift, n, k, DoubleE10(e2)) && ClosestAt(IntervalOf(m, e2, mmShift), n, k)
    ensures NearestOfShortest(IntervalOf(m, e2, mmShift), n, k)
  {
    hide Finite, RyuOutput, Pow, Den, DoubleQ, E10, IntervalOf, ClosestAt, Floors, NearestOfShortest;
    var small, mantissa, exponent := SmallInteger(m, e2);
    if small {
      SmallIntegerShortens(m, e2, mmShift, mantissa, exponent);
      n, k := mantissa, exponent;
      RyuIsNearest(DOUBLE, m, e2, mmShift, n, k, DoubleE10(e2));
    } else {
      n, k := D2d(m, mmShift, e2 - 2, vr, vp, vm);
    }
  }

  // What the double printer is given: the tables, and the floors where Ryu is needed.
  ghost predicate DoubleGiven(ieeeMantissa: nat, ieeeExponent: nat, fmt: CharsFormat, vr: nat, vp: nat, vm: nat,
                              whole: seq<nat>, fraction: Blocks.FractionTable)
  {
    var m, e2 := Blocks.DecodedM(ieeeMantissa, ieeeExponent), Blocks.DecodedE(ieeeExponent);
    var mmShift := HasWideGap(ieeeMantissa, ieeeExponent);
    && DoubleTables(ieeeMantissa, ieeeExponent, whole, fraction)
    && (m > 0 && D2dExponent(e2 - 2) && !SkipsRyu(fmt, e2) && !SmallInt(m, e2) ==>
          Floors(m, mmShift, e2 - 2, DoubleQ(e2 - 2), vr, vp, vm))
  }

  /** __d2s_buffered_n, given the floors that the multiplications in __d2d yield. */
  method D2sBufferedN(buf: array<char>, first: nat, last: nat, ieeeMantissa: nat, ieeeExponent: nat, fmt: CharsFormat,
                      vr: U64, vp: U64, vm: U64, whole: seq<nat>, fraction: Blocks.FractionTable)
    returns (ok: bool, end: nat, ghost n: nat, ghost k: int)
    requires first <= last <= buf.Length && Blocks.FiniteFields(ieeeMantissa, ieeeExponent)
    requires ieeeMantissa != 0 || ieeeExponent != 0 ==>
               DoubleGiven(ieeeMantissa, ieeeExponent, fmt, vr, vp, vm, whole, fraction)
    modifies buf
    ensures var m, e2 := Blocks.DecodedM(ieeeMantissa, ieeeExponent), Blocks.DecodedE(ieeeExponent);
            var text := BufferedText(fmt, m, e2, n, k);
            && (ok <==> first + |text| <= last)
            && (ok ==> end == first + |text| && buf[..] == Splice(old(buf[..]), first, text))
            && e2 + Depth(DOUBLE) >= 0 && ReadsAs(DOUBLE, text, m, e2)
            && InNotation(fmt, text, n, k) && (m == 0 || SkipsRyu(fmt, e2) ==> n == 0 && k == 0)
            && (m > 0 && !SkipsRyu(fmt, e2) ==>
                  ShortestAndNearest(DOUBLE, m, e2, HasWideGap(ieeeMantissa, ieeeExponent), n, k))
    ensures !ok ==> end == last && FixedNotation.Outside(buf[..], old(buf[..]), first, last)
    ensures !ok && !SkipsRyu(fmt, Blocks.DecodedE(ieeeExponent)) ==> buf[..] == old(buf[..])
  {
    hide PrintedText, Splice, Shortens, Pow, ZeroText, DecimalLength, Integer, AdjustmentFor, Row,
         ReadsAs, ShortensWhole, Finite, SmallInt, DoubleE10, DoubleQ, IntervalOf, ClosestAt, Floors, NearestOfShortest,
         Blocks.DecodedM, Blocks.DecodedE, Blocks.TablesFor, FixedNotation.FixedText, Rounding.NearestAt,
         InNotation;
    n, k := 0, 0;
    ZeroFields(ieeeMantissa, ieeeExponent);
    if ieeeMantissa == 0 && ieeeExponent == 0 {
      DoubleReadsBack(ieeeMantissa, ieeeExponent, fmt, n, k, 0);
      BufferedInNotation(fmt, Blocks.DecodedM(ieeeMantissa, ieeeExponent), Blocks.DecodedE(ieeeExponent), n, k);
      ok, end := PutZero(buf, first, last, fmt);
      return;
    }
    var m, e2 := Blocks.DecodedM(ieeeMantissa, ieeeExponent), Blocks.DecodedE(ieeeExponent);
    var wide := HasWideGap(ieeeMantissa, ieeeExponent);
    if fmt.Fixed? && e2 > 0 {
      DoubleReadsBack(ieeeMantissa, ieeeExponent, fmt, n, k, 0);
      BufferedInNotation(fmt, Blocks.DecodedM(ieeeMantissa, ieeeExponent), Blocks.DecodedE(ieeeExponent), n, k);
      ExactFallback(m, e2);
      ok, end := FixedPrecision.D2fixedBufferedN(buf, first, last, ieeeMantissa, ieeeExponent, 0, whole, fraction);
      return;
    }
    DoubleIsFinite(ieeeMantissa, ieeeExponent);
    FiniteDouble(m, e2, wide);
    var outN, outK := ChooseDecimal(m, e2, wide, vr, vp, vm);
    n, k := outN, outK;
    DoubleReadsBack(ieeeMantissa, ieeeExponent, fmt, n, k, DoubleE10(e2));
    DoubleFits(m, e2, wide, n, k, DoubleE10(e2));
    BufferedInNotation(fmt, m, e2, n, k);
    if k > 0 {
      WholeIsNormal(DOUBLE, m, e2, wide, n, k, DoubleE10(e2));
    }
    DoubleTableAdjusts(m, e2, wide, n, k);
    var adjustment := if outN == 1 && outK >= 0 then AdjustmentOf(outK) else 0;
    ok, end := DoubleToChars(buf, first, last, outN, outK, fmt, ieeeMantissa, ieeeExponent, adjustment,
                             whole, fraction, wide);
  }

  // --- integers ---

  // An integer up to the width of the significand needs no exponent below zero.
  lemma IntegerHasNoFraction(f: Format, m: nat, e2: int, mmShift: bool, n: nat, k: int, e10: int)
    requires f.Valid() && IsInteger(m, e2) && Shortens(f, m, e2, mmShift, n, k, e10)
    ensures k >= 0
  {
    FinitePositive(f, m, e2, mmShift);
    hide Finite, IntervalOf, AcceptedAt, Integer, IsInteger, Pow, Num, Den;
    IntegerValue(m, e2);
    IntegerAccepted(m, e2, mmShift, Integer(m, e2));
    if k < 0 {
      HigherAccepted(IntervalOf(m, e2, mmShift), Integer(m, e2), k + 1, 0);
    }
  }

  /** In fixed notation every integer is printed exactly, by both printers, whatever
      decimal is shortest. */
  lemma IntegersPrintExactly(f: Format, m: nat, e2: int, mmShift: bool, n: nat, k: int, e10: int)
    requires f.Valid() && m > 0 && IsInteger(m, e2) && (e2 <= 0 ==> Shortens(f, m, e2, mmShift, n, k, e10))
    ensures BufferedText(Fixed, m, e2, n, k) == Decimal(Integer(m, e2))
  {
    hide Shortens, IsInteger, Integer, Pow, Decimal;
    if e2 <= 0 {
      IntegerHasNoFraction(f, m, e2, mmShift, n, k, e10);
      WholeIsNormal(f, m, e2, mmShift, n, k, e10);
      IntegerBehind(f, m, e2, mmShift, n, k);
      FormOfInteger(n, k);
    }
  }
}
