// What __d2d and __f2d return: the shortest decimal that reads back as the number, for
// every finite number and every decimal exponent.
module Ryu {
  import opened Arith
  import opened Digits
  import opened Shortest
  import opened ExactFixed
  import Rounding
  import ScientificPrecision
  import opened ScientificNotation

  // --- from Step 4 to the decimal ---

  // n * 10^k is accepted, no multiple of the next power of ten is, n is next to the
  // number, and nearest if Step 4 removed a digit from the scale 10^e10 of Step 3.
  ghost predicate RyuOutput(i: Interval, n: nat, k: int, e10: int)
    requires i.Valid()
  {
    n > 0 && AcceptedAt(i, n, k) && NoneAcceptedAt(i, k + 1) && NextTo(i, n, k) && (k > e10 ==> ClosestAt(i, n, k))
  }

  // The result of Step 4 at any scale, seen from the number.
  lemma Step4IsRyuOutput(i: Interval, e10: int, n: nat, removed: nat)
    requires i.Valid() && i.a > 0 && AtScale(i, e10).ShortestNearest(n, removed)
    ensures RyuOutput(i, n, e10 + removed, e10)
  {
    hide AtScale, Interval.Accepted, Interval.NoneAccepted, Interval.Nearest;
    Rescale(i, e10, removed, n);
    RescaleNone(i, e10, removed + 1);
    StaysNextTo(i, e10, n, removed);
    PositiveDecimal(i, n, e10 + removed);
    if removed > 0 {
      RescaleNearest(i, e10, removed, n);
    }
  }

  // Zero reads back as no number above it.
  lemma PositiveDecimal(i: Interval, n: nat, k: int)
    requires i.Valid() && i.a > 0 && AcceptedAt(i, n, k)
    ensures n > 0
  {
    MulAtLeast(i.a, Pow(10, Above(-k)));
  }

  lemma StaysNextTo(i: Interval, e10: int, n: nat, removed: nat)
    requires i.Valid() && AtScale(i, e10).ShortestNearest(n, removed)
    ensures NextTo(i, n, e10 + removed)
  {
    var s, s', t := AtScale(i, e10), AtScale(i, e10 + removed), Pow(10, Above(-e10) - Above(-(e10 + removed)));
    ScaleFactor(i, e10, removed);
    hide AtScale, Pow, Interval.ShortestNearest;
    NextToB(s, n, removed);
    hide Interval.Unit;
    DivCancel(s'.b, s'.d, t);
  }

  lemma NextToB(i: Interval, n: nat, k: nat)
    requires i.Valid() && i.ShortestNearest(n, k)
    ensures i.Unit(k) > 0 && (n == i.b / i.Unit(k) || n == i.b / i.Unit(k) + 1)
  {
    var w := i.Unit(k);
    MulAtLeast(Pow(10, k), i.d);
    var u := i.b / w;
    DivMod(i.b, w);
    DivAtLeast(i.b, w, 0);
    if k > 0 {
      OnlyNeighbours(i, k, u, n);
      NeighbourAccepted(i, k, u, n);
    } else {
      assert Pow(10, 0) == 1;
    }
  }

  lemma UnitOne(s: Interval)
    ensures s.Unit(1) == 10 * s.d
  {
    assert Pow(10, 1) == 10;
  }

  // An interval longer than w holds a multiple of w, the first one above its lower end.
  lemma MultipleInside(s: Interval, w: nat) returns (q: nat)
    requires s.Valid() && 0 < w < s.c - s.a
    ensures s.Inside(q * w) && s.a < q * w <= s.a + w
  {
    DivMod(s.a, w);
    DivAtLeast(s.a, w, 0);
    q := s.a / w + 1;
    DistributeAdd(s.a / w, 1, w);
  }

  // --- finite numbers ---

  predicate Subnormal(f: Format, m: nat, e2: int, mmShift: bool)
    requires f.Valid()
  {
    m < Pow(2, f.width - 1) && e2 == 2 - f.bias - f.width && mmShift
  }

  // A positive number of the format.
  predicate Finite(f: Format, m: nat, e2: int, mmShift: bool)
    requires f.Valid()
  {
    m > 0 && e2 <= f.bias - f.width + 1 && (Normal(f, m, e2, mmShift) || Subnormal(f, m, e2, mmShift))
  }

  lemma FinitePositive(f: Format, m: nat, e2: int, mmShift: bool)
    requires f.Valid() && Finite(f, m, e2, mmShift)
    ensures m > 0
  {
  }

  function IntervalOf(m: nat, e2: int, mmShift: bool): (i: Interval)
    requires m > 0
    ensures i.Valid()
  {
    RoundingInterval(m, mmShift, Num(e2), Den(e2))
  }

  // n * 10^k is what Ryu returns for m * 2^e2.
  ghost predicate Shortens(f: Format, m: nat, e2: int, mmShift: bool, n: nat, k: int, e10: int)
    requires f.Valid()
  {
    Finite(f, m, e2, mmShift) && RyuOutput(IntervalOf(m, e2, mmShift), n, k, e10)
  }

  // No decimal with any exponent that reads back as the number has fewer digits.
  lemma ShortestOfAll(i: Interval, n: nat, k: int, e10: int, n': nat, k': int)
    requires i.Valid() && RyuOutput(i, n, k, e10) && n' > 0 && AcceptedAt(i, n', k')
    ensures DecimalLength(n) <= DecimalLength(n')
  {
    var len := DecimalLength(n');
    LengthBounds(n');
    LengthBounds(n);
    hide AtScale, Pow, DecimalLength, AcceptedAt;
    NoShorterAt(i, n, k, n', k', len);
    if DecimalLength(n) > len {
      PowExponentMonotone(10, len, DecimalLength(n) - 1);
    }
  }

  // --- how many digits are enough ---

  // The interval at a scale, by its gap g and its unit.
  lemma ScaledParts(m: nat, e2: int, mmShift: bool, k: int)
    requires m > 0
    ensures var s, g := AtScale(IntervalOf(m, e2, mmShift), k), Num(e2) * Pow(10, Above(-k));
            && s.a == (4 * m - 1 - if mmShift then 1 else 0) * g && s.b == 4 * m * g && s.c == (4 * m + 2) * g
            && s.d == 4 * Rounding.ScaledDen(e2, -k) && m * g == Rounding.ScaledNum(m, e2, -k)
  {
    assert Pow(2, 0) == 1;
    hide Pow;
    var up, down := Pow(10, Above(-k)), Pow(10, Above(k));
    MulAssociate(4 * m - 1 - if mmShift then 1 else 0, Num(e2), up);
    MulAssociate(4 * m, Num(e2), up);
    MulAssociate(4 * m + 2, Num(e2), up);
    MulAssociate(4, Den(e2), down);
    MulAssociate(m, Num(e2), up);
  }

  lemma GapExceeds(m: nat, g: nat, p: nat, d: nat, times: nat)
    requires m * g >= p * d && times * m < p && d > 0
    ensures g > times * d
  {
    if g <= times * d {
      MulMonotone(m, m, g, times * d);
      MulAssociate(m, times, d);
      MulMonotone(times * m + 1, p, d, d);
      DistributeAdd(times * m, 1, d);
    }
  }

  // Seen with more digits than the significand has bits for, an interval is longer than
  // a unit.
  lemma LongerThanUnit(f: Format, m: nat, e2: int, mmShift: bool, k: int, p: nat)
    requires f.Valid() && Finite(f, m, e2, mmShift) && Pow(2, f.width) < p
    requires p * Rounding.ScaledDen(e2, -k) <= Rounding.ScaledNum(m, e2, -k)
    ensures var s := AtScale(IntervalOf(m, e2, mmShift), k); s.d < s.c - s.a
  {
    PowStep(2, f.width);
    ScaledParts(m, e2, mmShift, k);
    var g, d := Num(e2) * Pow(10, Above(-k)), Rounding.ScaledDen(e2, -k);
    hide Pow, AtScale, IntervalOf, Num, Rounding.ScaledDen, Rounding.ScaledNum;
    GapExceeds(m, g, p, d, if mmShift then 1 else 2);
    var low := 4 * m - 1 - if mmShift then 1 else 0;
    DistributeSub(4 * m + 2, low, g);
  }

  lemma LeadingDigits(m: nat, e2: int, digits: nat) returns (k: int)
    requires m > 0 && ScientificPrecision.DoubleExponent(e2) && digits > 0
    ensures var num, den := Rounding.ScaledNum(m, e2, -k), Rounding.ScaledDen(e2, -k);
            Pow(10, digits - 1) * den <= num < Pow(10, digits) * den
  {
    var x := ScientificPrecision.ExponentExists(m, e2);
    k := x - (digits - 1);
    var num, den := Rounding.ScaledNum(m, e2, -k), Rounding.ScaledDen(e2, -k);
    var q := Rounding.FloorAt(m, e2, digits - 1 - x);
    ScientificPrecision.DigitsFromLeading(m, e2, digits - 1, x);
    LengthBounds(q);
    PositiveFloor(m, e2, digits - 1, x);
    assert digits - 1 - x == -k;
    hide Pow, Rounding.ScaledNum, Rounding.ScaledDen, DecimalLength;
    DivAtLeast(num, den, Pow(10, digits - 1));
    DivAtLeast(num, den, Pow(10, digits));
  }

  lemma PositiveFloor(m: nat, e2: int, precision: nat, x: int)
    requires ScientificPrecision.LeadingExponent(m, e2, x)
    ensures Rounding.FloorAt(m, e2, precision - x) > 0
  {
    hide Rounding.FloorAt, Pow;
    Rounding.FloorDrop(m, e2, precision - x, precision);
    DivUnique(0, Pow(10, precision), 0, 0);
  }

  // Some accepted decimal has at most that many digits.
  lemma SomeShort(f: Format, m: nat, e2: int, mmShift: bool, digits: nat) returns (q: nat, k: int)
    requires f.Valid() && Finite(f, m, e2, mmShift) && ScientificPrecision.DoubleExponent(e2)
    requires digits > 0 && Pow(2, f.width) < Pow(10, digits - 1)
    ensures AcceptedAt(IntervalOf(m, e2, mmShift), q, k) && 0 < q <= Pow(10, digits)
  {
    hide Pow, AtScale, IntervalOf, Num, Finite, Rounding.ScaledDen, Rounding.ScaledNum, Interval.Unit, Interval.Inside;
    FinitePositive(f, m, e2, mmShift);
    k := LeadingDigits(m, e2, digits);
    LongerThanUnit(f, m, e2, mmShift, k, Pow(10, digits - 1));
    var s := AtScale(IntervalOf(m, e2, mmShift), k);
    UnitZero(s);
    TopAtScale(m, e2, mmShift, k, Pow(10, digits));
    q := MultipleInside(s, s.d);
    BelowTop(q, s.a, s.b, s.d, Pow(10, digits));
  }

  lemma TopAtScale(m: nat, e2: int, mmShift: bool, k: int, p: nat)
    requires m > 0 && Rounding.ScaledNum(m, e2, -k) < p * Rounding.ScaledDen(e2, -k)
    ensures var s := AtScale(IntervalOf(m, e2, mmShift), k); s.b < p * s.d
  {
    ScaledParts(m, e2, mmShift, k);
    var g, den := Num(e2) * Pow(10, Above(-k)), Rounding.ScaledDen(e2, -k);
    hide Pow, AtScale, IntervalOf, Num, Rounding.ScaledDen, Rounding.ScaledNum;
    MulAssociate(4, m, g);
    MulAssociate(p, 4, den);
    MulAssociate(4, p, den);
  }

  lemma BelowTop(q: nat, a: nat, b: nat, d: nat, p: nat)
    requires a < q * d <= a + d && a < b && b < p * d && d > 0
    ensures 0 < q <= p
  {
    if q >= p + 1 {
      MulMonotone(p + 1, q, d, d);
      DistributeAdd(p, 1, d);
    }
  }

  // So the shortest one has no more.
  lemma EnoughDigits(f: Format, m: nat, e2: int, mmShift: bool, n: nat, k: int, e10: int, digits: nat)
    requires f.Valid() && Shortens(f, m, e2, mmShift, n, k, e10) && ScientificPrecision.DoubleExponent(e2)
    requires digits > 0 && Pow(2, f.width) < Pow(10, digits - 1)
    ensures n < Pow(10, digits)
  {
    var i := IntervalOf(m, e2, mmShift);
    var q, k' := SomeShort(f, m, e2, mmShift, digits);
    PowExponentMonotone(10, 1, digits);
    if q < Pow(10, digits) {
      NoShorterAt(i, n, k, q, k', digits);
    } else {
      JustAPower(i, k', digits);
      NoShorterAt(i, n, k, 1, k' + digits, digits);
    }
  }

  lemma JustAPower(i: Interval, k: int, digits: nat)
    requires i.Valid() && AcceptedAt(i, Pow(10, digits), k)
    ensures AcceptedAt(i, 1, k + digits)
  {
    hide AtScale, Pow, Interval.Unit, Interval.Inside;
    var s := AtScale(i, k);
    HigherMultiple(s, 1, 0, digits);
    assert s.Accepted(1, digits);
    Rescale(i, k, digits, 1);
  }

  // --- how large the exponent gets ---

  // An accepted decimal is at most one and a half times the number, and at least half.
  lemma WithinFactor(m: nat, e2: int, mmShift: bool, n: nat, k: int)
    requires m > 0 && AcceptedAt(IntervalOf(m, e2, mmShift), n, k)
    ensures var num, den := Rounding.ScaledNum(m, e2, -k), Rounding.ScaledDen(e2, -k);
            num <= 2 * (n * den) && 2 * (n * den) <= 3 * num
  {
    var s := AtScale(IntervalOf(m, e2, mmShift), k);
    ScaledParts(m, e2, mmShift, k);
    UnitZero(s);
    var g, den := Num(e2) * Pow(10, Above(-k)), Rounding.ScaledDen(e2, -k);
    hide Pow, AtScale, IntervalOf, Num, Rounding.ScaledDen, Rounding.ScaledNum, Interval.Unit;
    MulAssociate(n, 4, den);
    MulAssociate(4, n, den);
    MulAssociate(2, m, g);
    MulAssociate(6, m, g);
    MulMonotone(2 * m, 4 * m - 1 - if mmShift then 1 else 0, g, g);
    MulMonotone(4 * m + 2, 6 * m, g, g);
  }

  lemma ExponentBelow(m: nat, e2: int, mmShift: bool, n: nat, k: int, top: nat)
    requires m > 0 && n > 0 && AcceptedAt(IntervalOf(m, e2, mmShift), n, k)
    requires 3 * (m * Pow(2, Above(e2))) < 2 * Pow(10, top)
    ensures k < top
  {
    WithinFactor(m, e2, mmShift, n, k);
    if k >= top {
      PowExponentMonotone(10, top, k);
      assert Pow(10, 0) == 1;
      var den := Rounding.ScaledDen(e2, -k);
      MulAtLeast(Pow(2, Above(-e2)), Pow(10, k));
      MulAtLeast(n, den);
    }
  }

  lemma ExponentAbove(m: nat, e2: int, mmShift: bool, n: nat, k: int, digits: nat, p: nat)
    requires m > 0 && AcceptedAt(IntervalOf(m, e2, mmShift), n, k) && n < Pow(10, digits) && -e2 <= 3 * p
    ensures -k <= digits + p
  {
    hide Pow, AcceptedAt;
    if -k > digits + p {
      WithinFactor(m, e2, mmShift, n, k);
      ScientificPrecision.EightToTen(Above(-e2), p);
      PowAdd(10, digits, p);
      PowExponentMonotone(10, digits + p + 1, -k);
      PowStep(10, digits + p + 1);
      ScientificPrecision.PowZero();
      SmallProduct(n, Pow(10, digits), Pow(2, Above(-e2)), Pow(10, p));
      MulAtLeast(m, Pow(2, Above(e2)));
      MulAtLeast(m * Pow(2, Above(e2)), Pow(10, -k));
    }
  }

  lemma SmallProduct(n: nat, a: nat, den: nat, b: nat)
    requires n < a && den <= b && b > 0
    ensures n * den < a * b
  {
    MulMonotone(n, n, den, b);
    MulMonotone(n + 1, a, b, b);
    DistributeAdd(n, 1, b);
  }

  // 2^1024 and 2^128 against powers of ten.
  lemma LargestPowers()
    ensures 3 * Pow(2, 1024) < 2 * Pow(10, 309) && 3 * Pow(2, 128) < 2 * Pow(10, 39)
  {
    hide Pow;
    ClosePowers();
    PowMul(2, 93, 11);
    PowMul(10, 28, 11);
    PowBaseMonotone(Pow(2, 93), Pow(10, 28), 11);
    PowStep(2, 1024);
    PowStep(10, 309);
    Pow2At128();
    TenTo39();
  }

  lemma ClosePowers()
    ensures Pow(2, 93) < Pow(10, 28)
  {
    Pow2At64();
    Pow2At21();
    PowAdd(2, 64, 29);
    PowAdd(2, 21, 8);
    assert Pow(2, 8) == 256;
    NineDigits();
    PowAdd(10, 9, 9);
    PowAdd(10, 18, 9);
    PowStep(10, 28);
    hide Pow;
  }

  lemma TenTo39()
    ensures Pow(10, 39) == 1000000000000000000000000000000000000000
  {
    NineDigits();
    PowAdd(10, 9, 9);
    PowAdd(10, 18, 18);
    PowAdd(10, 36, 3);
    assert Pow(10, 3) == 1000;
    hide Pow;
  }

  lemma BoundedNumber(f: Format, m: nat, e2: int, mmShift: bool)
    requires f.Valid() && f.width <= f.bias + 1 && Finite(f, m, e2, mmShift)
    ensures m * Pow(2, Above(e2)) < Pow(2, f.bias + 1)
  {
    PowExponentMonotone(2, f.width - 1, f.width);
    PowAdd(2, f.width, Above(e2));
    PowExponentMonotone(2, f.width + Above(e2), f.bias + 1);
    var p := Pow(2, Above(e2));
    hide Pow;
    MulMonotone(m + 1, Pow(2, f.width), p, p);
    DistributeAdd(m, 1, p);
  }

  lemma EnoughForDouble()
    ensures Pow(2, 53) < Pow(10, 16) && Pow(10, 17) == 100000000000000000
  {
    Pow2At53();
    NineDigits();
    SevenDigits();
    PowAdd(10, 9, 7);
    PowStep(10, 17);
    hide Pow;
  }

  lemma EnoughForFloat()
    ensures Pow(2, 24) < Pow(10, 8)
  {
    Pow2At21();
    PowAdd(2, 21, 3);
    SevenDigits();
    PowStep(10, 8);
    assert Pow(2, 3) == 8;
    hide Pow;
  }

  lemma SevenDigits()
    ensures Pow(10, 7) == 10000000
  {
    assert Pow(10, 3) == 1000 && Pow(10, 4) == 10000;
    PowAdd(10, 3, 4);
  }

  lemma LengthAtMost(n: nat, digits: nat)
    requires digits > 0 && n < Pow(10, digits)
    ensures DecimalLength(n) <= digits
  {
    LengthBounds(n);
    hide Pow, DecimalLength;
    if DecimalLength(n) > digits {
      PowExponentMonotone(10, digits, DecimalLength(n) - 1);
      if n == 0 {
        ShortLength(0);
      }
    }
  }

  /** Seventeen digits are enough for every double, and its exponent stays within the
      tables and the three digits the printers allow for. */
  lemma DoubleFits(m: nat, e2: int, mmShift: bool, n: nat, k: int, e10: int)
    requires Shortens(DOUBLE, m, e2, mmShift, n, k, e10)
    ensures 0 < n < 100000000000000000 && k < 309 && Magnitude(k + DecimalLength(n) - 1) < 1000
  {
    hide Pow, RyuOutput, AcceptedAt, DecimalLength;
    FiniteRange(DOUBLE, m, e2, mmShift);
    EnoughForDouble();
    EnoughDigits(DOUBLE, m, e2, mmShift, n, k, e10, 17);
    OutputParts(DOUBLE, m, e2, mmShift, n, k, e10);
    BoundedNumber(DOUBLE, m, e2, mmShift);
    LargestPowers();
    ExponentBelow(m, e2, mmShift, n, k, 309);
    ExponentAbove(m, e2, mmShift, n, k, 17, 358);
    LengthAtMost(n, 17);
  }

  /** And nine are enough for every float. */
  lemma FloatFits(m: nat, e2: int, mmShift: bool, n: nat, k: int, e10: int)
    requires Shortens(FLOAT, m, e2, mmShift, n, k, e10)
    ensures 0 < n < 1000000000 && k < 39 && Magnitude(k + DecimalLength(n) - 1) < 100
  {
    hide Pow, RyuOutput, AcceptedAt, DecimalLength;
    FiniteRange(FLOAT, m, e2, mmShift);
    EnoughForFloat();
    NineDigits();
    EnoughDigits(FLOAT, m, e2, mmShift, n, k, e10, 9);
    OutputParts(FLOAT, m, e2, mmShift, n, k, e10);
    BoundedNumber(FLOAT, m, e2, mmShift);
    LargestPowers();
    ExponentBelow(m, e2, mmShift, n, k, 39);
    ExponentAbove(m, e2, mmShift, n, k, 9, 50);
    LengthAtMost(n, 9);
  }

  lemma FiniteRange(f: Format, m: nat, e2: int, mmShift: bool)
    requires f.Valid() && Finite(f, m, e2, mmShift)
    ensures 2 - f.bias - f.width <= e2 <= f.bias - f.width + 1
  {
  }

  lemma OutputParts(f: Format, m: nat, e2: int, mmShift: bool, n: nat, k: int, e10: int)
    requires f.Valid() && Shortens(f, m, e2, mmShift, n, k, e10)
    ensures m > 0 && n > 0 && AcceptedAt(IntervalOf(m, e2, mmShift), n, k)
  {
  }
}
