// Among all shortest decimals of a number, whatever their exponents, Ryu's is nearest.
module Nearest {
  import opened Arith
  import opened Digits
  import opened Shortest
  import opened ExactFixed
  import opened Ryu
  import Rounding

  // n * 10^k is at least as near to the number as n' * 10^k', and strictly nearer unless
  // both are multiples of one power of ten and n is even.
  ghost predicate NoFarther(i: Interval, n: nat, k: int, n': nat, k': int)
    requires i.Valid()
  {
    var x := AtScale(i, k).Distance(n, 0) * Pow(10, Above(-k'));
    var y := AtScale(i, k').Distance(n', 0) * Pow(10, Above(-k));
    x <= y && (x == y && (n', k') != (n, k) ==> k' == k && n % 2 == 0)
  }

  ghost predicate NearestOfShortest(i: Interval, n: nat, k: int)
    requires i.Valid()
  {
    forall n': nat, k': int :: AcceptedAt(i, n', k') && DecimalLength(n') <= DecimalLength(n) ==>
      NoFarther(i, n, k, n', k')
  }

  // --- one scale ---

  lemma NoFartherAtK(i: Interval, n: nat, k: int, n': nat)
    requires i.Valid() && ClosestAt(i, n, k) && AcceptedAt(i, n', k)
    ensures NoFarther(i, n, k, n', k)
  {
    hide AtScale, Pow, Interval.Distance, Interval.Accepted;
    var s := AtScale(i, k);
    CompareScaled(s.Distance(n, 0), s.Distance(n', 0), Pow(10, Above(-k)));
    CompareScaled(s.Distance(n', 0), s.Distance(n, 0), Pow(10, Above(-k)));
  }

  // Seen from the finer of two scales.
  lemma NearerFromFiner(i: Interval, n: nat, k: int, n': nat, r: nat)
    requires i.Valid() && AtScale(i, k).Distance(n, r) < AtScale(i, k).Distance(n', 0) && r > 0
    ensures NoFarther(i, n, k + r, n', k)
  {
    var s, s' := AtScale(i, k), AtScale(i, k + r);
    var x := Above(-k) - Above(-(k + r));
    PowAdd(10, x, Above(-(k + r)));
    ScaleFactor(i, k, r);
    hide AtScale, Pow;
    RescaleDistance(s, s', Pow(10, x), s.Unit(r), r, n);
    hide Interval.Distance, Interval.Unit;
    MulAssociate(s'.Distance(n, 0), Pow(10, x), Pow(10, Above(-(k + r))));
    CompareScaled(s.Distance(n, r), s.Distance(n', 0), Pow(10, Above(-(k + r))));
  }

  // --- the digits ---

  // A power of ten lies between a decimal and one with no more digits at a finer scale.
  lemma PowerInside(s: Interval, n: nat, r: nat, n': nat, len: nat)
    requires s.Valid() && r > 0 && n > 0 && len == DecimalLength(n) && DecimalLength(n') <= len
    ensures n' * s.d < Pow(10, len - 1) * s.Unit(r) <= n * s.Unit(r)
    ensures len == 1 ==> 10 * (n' * s.d) <= 9 * s.Unit(r)
  {
    LengthBounds(n);
    LengthBounds(n');
    ShortBound(n', len);
    PowAdd(10, len - 1, r);
    PowExponentMonotone(10, len, len - 1 + r);
    PowExponentMonotone(10, 1, r);
    assert Pow(10, 0) == 1 && Pow(10, 1) == 10;
    var p := Pow(10, len - 1);
    hide Pow, DecimalLength;
    MulAssociate(p, Pow(10, r), s.d);
    CompareScaled(n', p * Pow(10, r), s.d);
    MulMonotone(p, n, s.Unit(r), s.Unit(r));
    if len == 1 {
      MulMonotone(10 * n', 9 * Pow(10, r), s.d, s.d);
      MulAssociate(10, n', s.d);
      MulAssociate(9, Pow(10, r), s.d);
    }
  }

  lemma ShortBound(n: nat, len: nat)
    requires DecimalLength(n) <= len
    ensures n < Pow(10, len)
  {
    LengthBounds(n);
    hide Pow, DecimalLength;
    PowExponentMonotone(10, DecimalLength(n), len);
  }

  lemma RounderFound(s: Interval, r: nat, len: nat)
    requires len > 1 && s.Inside(Pow(10, len - 1) * s.Unit(r))
    ensures !s.NoneAccepted(r + 1)
  {
    var next := r + 1;
    ShiftDigit(s, len - 1, r);
    hide Pow, Interval.Unit;
    assert s.Accepted(Pow(10, len - 2), next);
  }

  // With more than one digit it would have been found.
  lemma OneDigit(s: Interval, n: nat, r: nat, n': nat)
    requires s.Valid() && r > 0 && n > 0 && s.Accepted(n, r) && s.NoneAccepted(r + 1) && s.Accepted(n', 0)
    requires DecimalLength(n') <= DecimalLength(n)
    ensures DecimalLength(n) == 1 && s.Accepted(1, r) && n' * s.d < s.Unit(r) && 10 * (n' * s.d) <= 9 * s.Unit(r)
  {
    var len := DecimalLength(n);
    UnitZero(s);
    PowerInside(s, n, r, n', len);
    assert Pow(10, 0) == 1;
    hide Pow, DecimalLength, Interval.Unit;
    if len > 1 {
      RounderFound(s, r, len);
    }
  }

  // --- numbers next to a power of ten ---

  // Where an interval holds a power of ten above the number and reaches down to nine tenths
  // of it, the number is nearer to the power.
  ghost predicate NearItsPower(s: Interval)
  {
    s.b < s.d <= s.c && 10 * s.a <= 9 * s.d ==> 20 * s.b > 19 * s.d
  }

  // Only the smallest numbers have an interval that wide.
  lemma WideNumber(m: nat, mmShift: bool, g: nat, d: nat)
    requires m > 0 && g > 0 && d <= (4 * m + 2) * g
    requires 10 * ((4 * m - 1 - if mmShift then 1 else 0) * g) <= 9 * d
    ensures m <= 9
  {
    var low := 4 * m - 1 - if mmShift then 1 else 0;
    MulAssociate(10, low, g);
    MulAssociate(9, 4 * m + 2, g);
    CompareScaled(10 * low, 9 * (4 * m + 2), g);
  }

  // The powers of ten around the smallest double and the smallest float.
  lemma AroundSmallest()
    ensures 49 * Pow(2, 1074) < 100 * Pow(10, 323) && 100 * Pow(10, 323) < 50 * Pow(2, 1074)
    ensures 14 * Pow(2, 149) < 100 * Pow(10, 44) && 100 * Pow(10, 44) < 15 * Pow(2, 149)
  {
    hide Pow;
    CloseFives();
    PowOfProduct(2, 5, 323);
    PowAdd(2, 751, 323);
    TimesTwos(Pow(2, 751), Pow(5, 323), Pow(2, 323));
    Pow2At128();
    Pow2At21();
    PowAdd(2, 128, 21);
    TenTo39();
    SomePowers();
    PowAdd(10, 39, 5);
  }

  lemma TimesTwos(a: nat, b: nat, t: nat)
    requires t > 0 && 49 * a < 100 * b && 100 * b < 50 * a
    ensures 49 * (a * t) < 100 * (t * b) && 100 * (t * b) < 50 * (a * t)
  {
    MulAssociate(49, a, t);
    MulAssociate(50, a, t);
    MulAssociate(100, b, t);
    CompareScaled(49 * a, 100 * b, t);
    CompareScaled(100 * b, 50 * a, t);
  }

  lemma SomePowers()
    ensures Pow(10, 5) == 100000 && Pow(5, 5) == 3125 && Pow(5, 3) == 125 && Pow(2, 2) == 4
  {
  }

  lemma CloseFives()
    ensures 49 * Pow(2, 751) < 100 * Pow(5, 323) && 100 * Pow(5, 323) < 50 * Pow(2, 751)
  {
    hide Pow;
    SomePowers();
    PowAdd(5, 5, 5);
    PowAdd(5, 10, 10);
    PowAdd(5, 20, 20);
    PowAdd(5, 40, 40);
    PowAdd(5, 80, 80);
    PowAdd(5, 160, 160);
    PowAdd(5, 320, 3);
    Pow2At128();
    Pow2At53();
    PowAdd(2, 53, 53);
    PowAdd(2, 128, 128);
    PowAdd(2, 256, 256);
    PowAdd(2, 512, 128);
    PowAdd(2, 640, 106);
    PowAdd(2, 746, 2);
    PowAdd(2, 748, 2);
    PowStep(2, 751);
  }

  // The two formats at hand.
  predicate Known(f: Format) { f == FLOAT || f == DOUBLE }

  lemma SmallIsSubnormal(f: Format, m: nat, e2: int, mmShift: bool)
    requires Known(f) && Finite(f, m, e2, mmShift) && m <= 9
    ensures mmShift && e2 == if f == FLOAT then -149 else -1074
  {
    PowExponentMonotone(2, 4, f.width - 1);
    assert Pow(2, 4) == 16;
    hide Pow;
  }

  // How 2^1074 compares with 10^323, and 2^149 with 10^44.
  predicate Smallest(u: nat, t: nat)
  {
    (49 * u < 100 * t && 100 * t < 50 * u) || (14 * u < 100 * t && 100 * t < 15 * u)
  }

  lemma SmallestNearPower(m: nat, u: nat, t: nat)
    requires 0 < m <= 9 && Smallest(u, t)
    requires 4 * m * t < 4 * u && 4 * u <= (4 * m + 2) * t && 10 * ((4 * m - 2) * t) <= 9 * (4 * u)
    ensures 20 * (4 * m * t) > 19 * (4 * u)
  {
    match m {
      case 1 =>
      case 2 =>
      case 3 =>
      case 4 =>
      case 5 =>
      case 6 =>
      case 7 =>
      case 8 =>
      case 9 =>
    }
  }

  // No power of ten but that one is in question.
  lemma OtherPowers(m: nat, u: nat, t: nat, g: nat, den: nat)
    requires 0 < m <= 9 && Smallest(u, t) && u <= den && ((g >= 10 * t && den == u) || 10 * g <= t)
    ensures !(4 * m * g < 4 * den && 4 * den <= (4 * m + 2) * g)
  {
    MulMonotone(4, 4 * m, g, g);
    MulMonotone(4 * m + 2, 38, g, g);
  }

  lemma SmallNumber(f: Format, m: nat, e2: int, mmShift: bool, k: int)
    requires Known(f) && Finite(f, m, e2, mmShift) && m <= 9
    ensures NearItsPower(AtScale(IntervalOf(m, e2, mmShift), k))
  {
    hide Pow, Finite, AtScale, IntervalOf, Num, Rounding.ScaledDen;
    var top := if f == FLOAT then 44 else 323;
    FinitePositive(f, m, e2, mmShift);
    SmallIsSubnormal(f, m, e2, mmShift);
    AroundSmallest();
    ScaledParts(m, e2, mmShift, k);
    SubnormalParts(-e2, k);
    var u, t, g, den := Pow(2, -e2), Pow(10, top), Num(e2) * Pow(10, Above(-k)), Rounding.ScaledDen(e2, -k);
    if k == -top {
      SmallestOrFarther(m, u, t);
    } else {
      if k < -top {
        PowExponentMonotone(10, top + 1, -k);
        PowStep(10, top + 1);
      } else {
        PowExponentMonotone(10, Above(-k), top - 1);
        PowStep(10, top);
      }
      OtherPowers(m, u, t, g, den);
    }
  }

  lemma SmallestOrFarther(m: nat, u: nat, t: nat)
    requires 0 < m <= 9 && Smallest(u, t)
    ensures 4 * m * t < 4 * u && 4 * u <= (4 * m + 2) * t && 10 * ((4 * m - 2) * t) <= 9 * (4 * u) ==>
              20 * (4 * m * t) > 19 * (4 * u)
  {
    if 4 * m * t < 4 * u && 4 * u <= (4 * m + 2) * t && 10 * ((4 * m - 2) * t) <= 9 * (4 * u) {
      SmallestNearPower(m, u, t);
    }
  }

  lemma SubnormalParts(x: nat, k: int)
    requires x > 0
    ensures Num(0 - x) == 1 && Rounding.ScaledDen(0 - x, -k) == Pow(2, x) * Pow(10, Above(k))
    ensures Rounding.ScaledDen(0 - x, -k) >= Pow(2, x) && (k <= 0 ==> Rounding.ScaledDen(0 - x, -k) == Pow(2, x))
  {
    assert Pow(10, 0) == 1;
    MulAtLeast(Pow(10, Above(k)), Pow(2, x));
  }

  lemma EveryNumberNearItsPower(f: Format, m: nat, e2: int, mmShift: bool, k: int)
    requires Known(f) && Finite(f, m, e2, mmShift)
    ensures NearItsPower(AtScale(IntervalOf(m, e2, mmShift), k))
  {
    FinitePositive(f, m, e2, mmShift);
    var s, g := AtScale(IntervalOf(m, e2, mmShift), k), Num(e2) * Pow(10, Above(-k));
    MulAtLeast(Num(e2), Pow(10, Above(-k)));
    ScaledParts(m, e2, mmShift, k);
    hide Pow, Finite, AtScale, IntervalOf, Num, Rounding.ScaledDen;
    if s.b < s.d <= s.c && 10 * s.a <= 9 * s.d {
      WideNumber(m, mmShift, g, s.d);
      SmallNumber(f, m, e2, mmShift, k);
    }
  }

  lemma NearItsPowerFiner(s: Interval, s': Interval, t: nat, u: nat)
    requires Multiplied(s, s', t, u) && NearItsPower(s')
    ensures s.b < u <= s.c && 10 * s.a <= 9 * u ==> 20 * s.b > 19 * u
  {
    CompareScaled(s'.b, s'.d, t);
    CompareScaled(s'.d, s'.c, t);
    MulAssociate(10, s'.a, t);
    MulAssociate(9, s'.d, t);
    CompareScaled(10 * s'.a, 9 * s'.d, t);
    MulAssociate(20, s'.b, t);
    MulAssociate(19, s'.d, t);
    CompareScaled(19 * s'.d, 20 * s'.b, t);
  }

  // --- all shortest decimals ---

  lemma NoFartherThanPower(i: Interval, n: nat, k: int, r: nat)
    requires i.Valid() && ClosestAt(i, n, k + r) && AtScale(i, k).Accepted(1, r)
    ensures AtScale(i, k).Distance(n, r) <= AtScale(i, k).Distance(1, r)
  {
    var s, s', t := AtScale(i, k), AtScale(i, k + r), Pow(10, Above(-k) - Above(-(k + r)));
    Rescale(i, k, r, 1);
    ScaleFactor(i, k, r);
    hide AtScale, Pow, Interval.Accepted;
    RescaleDistance(s, s', t, s.Unit(r), r, n);
    RescaleDistance(s, s', t, s.Unit(r), r, 1);
    hide Interval.Distance, Interval.Unit;
    CompareScaled(s'.Distance(n, 0), s'.Distance(1, 0), t);
  }

  // A competitor below the power of ten is farther from the number.
  lemma PowerIsNearer(s: Interval, r: nat, n': nat)
    requires s.Valid() && s.Accepted(1, r) && s.Accepted(n', 0) && n' * s.d < s.Unit(r)
    requires 10 * (n' * s.d) <= 9 * s.Unit(r)
    requires s.b < s.Unit(r) <= s.c && 10 * s.a <= 9 * s.Unit(r) ==> 20 * s.b > 19 * s.Unit(r)
    ensures s.Distance(1, r) < s.Distance(n', 0)
  {
    UnitZero(s);
    hide Interval.Unit;
  }

  lemma FinerIsFarther(i: Interval, n: nat, k: int, n': nat, r: nat)
    requires i.Valid() && n > 0 && r > 0 && NearItsPower(AtScale(i, k + r)) && ClosestAt(i, n, k + r)
    requires AcceptedAt(i, n, k + r) && NoneAcceptedAt(i, k + r + 1)
    requires AcceptedAt(i, n', k) && DecimalLength(n') <= DecimalLength(n)
    ensures NoFarther(i, n, k + r, n', k)
  {
    var s, s' := AtScale(i, k), AtScale(i, k + r);
    hide AtScale, Interval.Accepted, Interval.NoneAccepted, Interval.Distance, DecimalLength, NoFarther, ClosestAt,
         NearItsPower, Interval.Unit, Multiplied, Pow;
    Rescale(i, k, r, n);
    RescaleNone(i, k, r + 1);
    assert k + r + 1 == k + (r + 1);
    OneDigit(s, n, r, n');
    ScaleFactor(i, k, r);
    NearItsPowerFiner(s, s', Pow(10, Above(-k) - Above(-(k + r))), s.Unit(r));
    PowerIsNearer(s, r, n');
    NoFartherThanPower(i, n, k, r);
    NearerFromFiner(i, n, k, n', r);
  }

  lemma ShortestIsNearest(i: Interval, n: nat, k: int)
    requires i.Valid() && n > 0 && NearItsPower(AtScale(i, k)) && ClosestAt(i, n, k)
    requires AcceptedAt(i, n, k) && NoneAcceptedAt(i, k + 1)
    ensures NearestOfShortest(i, n, k)
  {
    hide AtScale, AcceptedAt, ClosestAt, DecimalLength, NoFarther, NearItsPower;
    forall n': nat, k': int | AcceptedAt(i, n', k') && DecimalLength(n') <= DecimalLength(n)
      ensures NoFarther(i, n, k, n', k')
    {
      if k' < k {
        var r: nat := k - k';
        assert k' + r == k;
        FinerIsFarther(i, n, k', n', r);
      } else if k' == k {
        NoFartherAtK(i, n, k, n');
      } else {
        HigherAccepted(i, n', k + 1, k');
      }
    }
  }

  /** No decimal that reads back as the number and has no more digits than Ryu's is nearer
      to it, whatever its exponent, and none is as near but for a tie that goes to even. */
  lemma RyuIsNearest(f: Format, m: nat, e2: int, mmShift: bool, n: nat, k: int, e10: int)
    requires Known(f) && Shortens(f, m, e2, mmShift, n, k, e10) && ClosestAt(IntervalOf(m, e2, mmShift), n, k)
    ensures NearestOfShortest(IntervalOf(m, e2, mmShift), n, k)
  {
    hide IntervalOf, Finite, AcceptedAt, ClosestAt, NearItsPower, NearestOfShortest, AtScale;
    FinitePositive(f, m, e2, mmShift);
    EveryNumberNearItsPower(f, m, e2, mmShift, k);
    ShortestIsNearest(IntervalOf(m, e2, mmShift), n, k);
  }
}
