// The decimal scale that Step 3 of __d2d and __f2d chooses, and the rounding interval at it.
module Scales {
  import opened Arith
  import opened Digits
  import opened Shortest
  import opened ExactFixed
  import opened Ryu
  import Rounding

  // --- how many powers of ten are taken out ---

  // __log10Pow2 and __log10Pow5 (lines 95-109).
  function Log10Pow2(e: nat): (l: nat)
    requires e <= 1650
  {
    e * 78913 / 262144
  }

  function Log10Pow5(e: nat): (l: nat)
    requires e <= 2620
  {
    e * 732923 / 1048576
  }

  // The binary exponents of __d2d and __f2d, two less than those of the number.
  predicate D2dExponent(e: int) { -1076 <= e <= 969 }

  predicate F2dExponent(e: int) { -151 <= e <= 102 }

  // Lines 1758 and 1782.
  function DoubleQ(e: int): (q: nat)
    requires D2dExponent(e)
    ensures Takes(e, q) && (-1 <= e <= 3 ==> q == 0)
    ensures e > 3 ==> 196 * (q + 1) <= 59 * e + 1 && 28 * e <= 93 * (q + 2) + 5
    ensures e < -1 ==> 93 * (q + 1) <= 65 * -e + 4 && 137 * -e <= 196 * (q + 2) + 3
  {
    if e >= 0 then Log10Pow2(e) - (if e > 3 then 1 else 0) else Log10Pow5(-e) - if -e > 1 then 1 else 0
  }

  // Lines 1067 and 1094.
  function FloatQ(e: int): (q: nat)
    requires F2dExponent(e)
    ensures Takes(e, q)
    ensures if e >= 0 then 196 * q <= 59 * e && 28 * e <= 93 * (q + 1) + 5
            else 93 * q <= 65 * -e && 137 * -e <= 196 * (q + 1) + 3
  {
    if e >= 0 then Log10Pow2(e) else Log10Pow5(-e)
  }

  // A number x * 2^e can be taken in units of 10^E10(e, q), where it is x * F / G.
  predicate Takes(e: int, q: nat) { if e >= 0 then q <= e else q < -e }

  function E10(e: int, q: nat): (e10: int)
  {
    if e >= 0 then q else q + e
  }

  function F(e: int, q: nat): (f: nat)
    requires Takes(e, q)
    ensures f > 0
  {
    if e >= 0 then Pow(2, e - q) else Pow(5, -e - q)
  }

  function G(e: int, q: nat): (g: nat)
    ensures g > 0
  {
    if e >= 0 then Pow(5, q) else Pow(2, q)
  }

  // The rounding interval at that scale.
  function Scaled(m: nat, mmShift: bool, e: int, q: nat): (s: Interval)
    requires m > 0
    ensures s.Valid() && s.accept == (m % 2 == 0)
  {
    AtScale(IntervalOf(m, e + 2, mmShift), E10(e, q))
  }

  // --- how fine the scale is ---

  lemma {:induction false} PowStrict(x: nat, y: nat, p: nat)
    requires x < y && p > 0
    ensures Pow(x, p) < Pow(y, p)
  {
    PowStep(x, p);
    PowStep(y, p);
    if p > 1 {
      PowStrict(x, y, p - 1);
      hide Pow;
      LargerProduct(x, y, Pow(x, p - 1), Pow(y, p - 1));
    }
  }

  lemma LargerProduct(x: nat, y: nat, a: nat, b: nat)
    requires x < y && a < b
    ensures x * a < y * b
  {
    MulMonotone(x, x, a, b);
    MulMonotone(x + 1, y, b, b);
    DistributeAdd(x, 1, b);
  }

  lemma PowSwap(a: nat, x: nat, p: nat)
    ensures Pow(Pow(a, x), p) == Pow(Pow(a, p), x)
  {
    PowProduct(a, x, p);
    PowProduct(a, p, x);
    assert Product(x, p) == Product(p, x);
    hide Pow, Product;
  }

  predicate Exponents(r: nat, x: nat, p: nat, y: nat, z: nat) { Product(r, x) <= Product(y, p) + z }

  // Comparing powers of two bases through one pair of close powers.
  lemma RootCompare(a: nat, p: nat, b: nat, r: nat, x: nat, y: nat, z: nat, c: nat)
    requires a > 0 && b > 0 && c > 0 && p > 0
    requires Pow(a, p) <= Pow(b, r) && Exponents(r, x, p, y, z) && Pow(b, z) <= Pow(c, p)
    ensures Pow(a, x) <= c * Pow(b, y)
  {
    hide Pow, Exponents;
    MulAtLeast(c, Pow(b, y));
    var low: nat := c * Pow(b, y);
    Raised(a, p, b, r, x, y, z, c, low);
    if Pow(a, x) > low {
      PowStrict(low, Pow(a, x), p);
    }
  }

  lemma Raised(a: nat, p: nat, b: nat, r: nat, x: nat, y: nat, z: nat, c: nat, low: nat)
    requires a > 0 && b > 0 && p > 0 && low == c * Pow(b, y)
    requires Pow(a, p) <= Pow(b, r) && Exponents(r, x, p, y, z) && Pow(b, z) <= Pow(c, p)
    ensures Pow(Pow(a, x), p) <= Pow(low, p)
  {
    hide Pow, Exponents;
    PowSwap(a, x, p);
    PowBaseMonotone(Pow(a, p), Pow(b, r), x);
    RaisedExponents(b, r, x, p, y, z);
    PowOfProduct(c, Pow(b, y), p);
    MulMonotone(Pow(b, z), Pow(c, p), Pow(Pow(b, y), p), Pow(Pow(b, y), p));
  }

  lemma RaisedExponents(b: nat, r: nat, x: nat, p: nat, y: nat, z: nat)
    requires b > 0 && Exponents(r, x, p, y, z)
    ensures Pow(Pow(b, r), x) <= Pow(b, z) * Pow(Pow(b, y), p)
  {
    var u, v := Product(r, x), Product(y, p);
    hide Pow, Product;
    PowProduct(b, r, x);
    PowProduct(b, y, p);
    PowExponentMonotone(b, u, z + v);
    PowAdd(b, z, v);
  }

  function Product(x: nat, y: nat): (p: nat) { x * y }

  lemma PowProduct(b: nat, e: nat, f: nat)
    ensures Pow(Pow(b, e), f) == Pow(b, Product(e, f))
  {
    PowMul(b, e, f);
  }

  lemma CloseTo196()
    ensures Pow(10, 59) <= Pow(2, 196)
  {
    hide Pow;
    Pow2At128();
    Pow2At64();
    PowAdd(2, 128, 64);
    PowAdd(2, 192, 4);
    SixteenAndTwo();
    TenTo39();
    NineDigits();
    PowAdd(10, 9, 9);
    PowAdd(10, 39, 18);
    PowAdd(10, 57, 2);
  }

  lemma SixteenAndTwo()
    ensures Pow(2, 4) == 16 && Pow(10, 2) == 100 && Pow(5, 4) == 625
  {
  }

  lemma CloseTo93()
    ensures Pow(10, 65) <= Pow(5, 93)
  {
    hide Pow;
    ClosePowers();
    PowOfProduct(2, 5, 93);
    PowAdd(10, 28, 65);
    if Pow(5, 93) < Pow(10, 65) {
      MulMonotone(Pow(2, 93), Pow(10, 28), Pow(5, 93), Pow(5, 93));
      CompareScaled(Pow(5, 93), Pow(10, 65), Pow(10, 28));
    }
  }

  // The scale of the double printer keeps one more digit than needed, or all of them.
  lemma DoubleIsFine(e: int)
    requires D2dExponent(e)
    ensures var q := DoubleQ(e); if -1 <= e <= 3 then q == 0 && G(e, q) == 1 else 5 * G(e, q) <= F(e, q)
    ensures G(e, DoubleQ(e)) <= F(e, DoubleQ(e))
  {
    if e > 3 {
      FineAbove(e, DoubleQ(e));
    } else if e < -1 {
      FineBelow(-e, DoubleQ(e));
    }
  }

  lemma FineAbove(e: nat, q: nat)
    requires q <= e && 196 * (q + 1) <= 59 * e + 1
    ensures 5 * Pow(5, q) <= Pow(2, e - q)
  {
    hide Pow;
    CloseTo196();
    PowExponentMonotone(2, 1, 59);
    RootCompare(10, 59, 2, 196, q + 1, e, 1, 2);
    PowStep(10, q + 1);
    PowAdd(2, e - q, q);
    PowOfProduct(2, 5, q);
    FinePart(Pow(2, q), Pow(5, q), Pow(2, e - q));
  }

  lemma FineBelow(x: nat, q: nat)
    requires q <= x && 93 * (q + 1) <= 65 * x + 4
    ensures 5 * Pow(2, q) <= Pow(5, x - q)
  {
    hide Pow;
    CloseTo93();
    FiveTo4();
    RootCompare(10, 65, 5, 93, q + 1, x, 4, 2);
    PowStep(10, q + 1);
    PowAdd(5, x - q, q);
    PowOfProduct(2, 5, q);
    FinePart(Pow(5, q), Pow(2, q), Pow(5, x - q));
  }

  // That of the float printer keeps enough.
  lemma FloatIsFine(e: int)
    requires F2dExponent(e)
    ensures G(e, FloatQ(e)) <= F(e, FloatQ(e))
  {
    var q := FloatQ(e);
    if e >= 0 {
      JustFineAbove(e, q);
    } else {
      JustFineBelow(-e, q);
    }
  }

  lemma JustFineAbove(e: nat, q: nat)
    requires q <= e && 196 * q <= 59 * e
    ensures Pow(5, q) <= Pow(2, e - q)
  {
    hide Pow;
    CloseTo196();
    PowExponentMonotone(1, 0, 59);
    UnitPowers();
    RootCompare(10, 59, 2, 196, q, e, 0, 1);
    PowAdd(2, e - q, q);
    PowOfProduct(2, 5, q);
    CompareScaled(Pow(2, e - q), Pow(5, q), Pow(2, q));
  }

  lemma JustFineBelow(x: nat, q: nat)
    requires q <= x && 93 * q <= 65 * x
    ensures Pow(2, q) <= Pow(5, x - q)
  {
    hide Pow;
    CloseTo93();
    PowExponentMonotone(1, 0, 65);
    UnitPowers();
    RootCompare(10, 65, 5, 93, q, x, 0, 1);
    PowAdd(5, x - q, q);
    PowOfProduct(2, 5, q);
    CompareScaled(Pow(5, x - q), Pow(2, q), Pow(5, q));
  }

  // Nor do they keep much more than that.
  lemma NotCoarseAbove(e: nat, q: nat, more: nat, t: nat)
    requires t == Pow(10, more) && q <= e && 28 * e <= 93 * (q + more) + 5
    ensures Pow(2, e - q) <= 2 * t * Pow(5, q)
  {
    hide Pow;
    ClosePowers();
    TenTo5();
    RootCompare(2, 93, 10, 28, e, q + more, 5, 2);
    PowAdd(10, more, q);
    PowAdd(2, e - q, q);
    PowOfProduct(2, 5, q);
    CoarsePart(Pow(2, q), Pow(5, q), Pow(2, e - q), t);
  }

  lemma NotCoarseBelow(x: nat, q: nat, more: nat, t: nat)
    requires t == Pow(10, more) && q <= x && 137 * x <= 196 * (q + more) + 3
    ensures Pow(5, x - q) <= 2 * t * Pow(2, q)
  {
    hide Pow;
    FivesTo196();
    TenTo5();
    RootCompare(5, 196, 10, 137, x, q + more, 3, 2);
    PowAdd(10, more, q);
    PowAdd(5, x - q, q);
    PowOfProduct(2, 5, q);
    CoarsePart(Pow(5, q), Pow(2, q), Pow(5, x - q), t);
  }

  lemma CoarsePart(p: nat, g: nat, f: nat, t: nat)
    requires p > 0 && f * p <= 2 * (t * (p * g))
    ensures f <= 2 * t * g
  {
    MulAssociate(t, g, p);
    MulAssociate(2, t * g, p);
    MulAssociate(2, t, g);
    CompareScaled(2 * (t * g), f, p);
  }

  lemma TenTo5()
    ensures Pow(10, 5) <= Pow(2, 93) && Pow(10, 3) <= Pow(2, 196) && Pow(10, 1) == 10 && Pow(10, 2) == 100
  {
    assert Pow(10, 5) == 100000 && Pow(10, 3) == 1000 && Pow(10, 1) == 10 && Pow(10, 2) == 100;
    Pow2At21();
    hide Pow;
    PowExponentMonotone(2, 21, 93);
    PowExponentMonotone(2, 21, 196);
  }

  lemma FivesTo196()
    ensures Pow(5, 196) <= Pow(10, 137)
  {
    hide Pow;
    CloseTo196();
    PowOfProduct(2, 5, 196);
    PowAdd(10, 59, 137);
    if Pow(5, 196) > Pow(10, 137) {
      MulMonotone(Pow(10, 59), Pow(2, 196), Pow(5, 196), Pow(5, 196));
      CompareScaled(Pow(10, 137), Pow(5, 196), Pow(10, 59));
    }
  }

  lemma DoubleNotCoarse(e: int)
    requires D2dExponent(e)
    ensures F(e, DoubleQ(e)) <= 200 * G(e, DoubleQ(e))
  {
    hide Pow, DoubleQ;
    TenTo5();
    if e > 3 {
      NotCoarseAbove(e, DoubleQ(e), 2, 100);
    } else if e < -1 {
      NotCoarseBelow(-e, DoubleQ(e), 2, 100);
    } else {
      FineEnough(e);
    }
  }

  lemma FineEnough(e: int)
    requires -1 <= e <= 3
    ensures F(e, 0) <= 200 * G(e, 0)
  {
    SmallPowers();
    SixteenAndTwo();
    UnitPowers();
    hide Pow;
    PowExponentMonotone(2, if e >= 0 then e else 0, 4);
  }

  lemma FloatNotCoarse(e: int)
    requires F2dExponent(e)
    ensures F(e, FloatQ(e)) <= 20 * G(e, FloatQ(e))
  {
    hide Pow, FloatQ;
    TenTo5();
    if e >= 0 {
      NotCoarseAbove(e, FloatQ(e), 1, 10);
    } else {
      NotCoarseBelow(-e, FloatQ(e), 1, 10);
    }
  }

  lemma UnitPowers()
    ensures Pow(1, 0) == 1 && Pow(2, 0) == 1 && Pow(5, 0) == 1
  {
  }

  lemma FiveTo4()
    ensures Pow(5, 4) <= Pow(2, 65)
  {
    SixteenAndTwo();
    Pow2At64();
    hide Pow;
    PowExponentMonotone(2, 64, 65);
  }

  lemma FinePart(p: nat, g: nat, f: nat)
    requires p > 0 && 10 * (p * g) <= 2 * (f * p)
    ensures 5 * g <= f
  {
    MulAssociate(5, g, p);
    CompareScaled(f, 5 * g, p);
  }

  // --- the interval, reduced ---

  function Mm(m: nat, mmShift: bool): (mm: nat)
    requires m > 0
  {
    4 * m - 1 - if mmShift then 1 else 0
  }

  // The interval and its scale are a common multiple of F(e, q) and G(e, q).
  lemma Reduced(e: int, q: nat) returns (t: nat)
    requires Takes(e, q)
    ensures t > 0 && Num(e + 2) * Pow(10, Above(-E10(e, q))) == F(e, q) * t
    ensures 4 * (Den(e + 2) * Pow(10, Above(E10(e, q)))) == G(e, q) * t
  {
    ScaleParts(e, q);
    hide Pow, Num, Den, F, G, E10;
    if e >= 0 {
      t := Pow(2, q + 2);
      ReducedAbove(e, q);
    } else if e == -1 {
      t := 4;
    } else {
      t := Pow(2, -e - q);
      ReducedBelow(-e, q);
    }
  }

  lemma ScaleParts(e: int, q: nat)
    requires Takes(e, q)
    ensures if e >= 0 then
              && Num(e + 2) == Pow(2, e + 2) && Den(e + 2) == 1 && F(e, q) == Pow(2, e - q) && G(e, q) == Pow(5, q)
              && Pow(10, Above(-E10(e, q))) == 1 && Pow(10, Above(E10(e, q))) == Pow(10, q)
            else if e == -1 then
              && Num(e + 2) == 2 && Den(e + 2) == 1 && F(e, q) == 5 && G(e, q) == 1
              && Pow(10, Above(-E10(e, q))) == 10 && Pow(10, Above(E10(e, q))) == 1
            else
              && Num(e + 2) == 1 && Den(e + 2) == Pow(2, -e - 2) && F(e, q) == Pow(5, -e - q) && G(e, q) == Pow(2, q)
              && Pow(10, Above(-E10(e, q))) == Pow(10, -e - q) && Pow(10, Above(E10(e, q))) == 1
  {
    SmallPowers();
    hide Pow;
  }

  lemma SmallPowers()
    ensures Pow(10, 0) == 1 && Pow(2, 0) == 1 && Pow(2, 1) == 2 && Pow(2, 2) == 4 && Pow(10, 1) == 10 && Pow(5, 1) == 5
  {
  }

  lemma ReducedAbove(e: nat, q: nat)
    requires q <= e
    ensures Pow(2, e + 2) == Pow(2, e - q) * Pow(2, q + 2) && 4 * Pow(10, q) == Pow(5, q) * Pow(2, q + 2)
  {
    PowAdd(2, e - q, q + 2);
    PowAdd(2, 2, q);
    PowOfProduct(2, 5, q);
    SmallPowers();
    hide Pow;
    MulAssociate(4, Pow(2, q), Pow(5, q));
  }

  lemma ReducedBelow(x: nat, q: nat)
    requires q <= x && x >= 2
    ensures Pow(10, x - q) == Pow(5, x - q) * Pow(2, x - q) && 4 * Pow(2, x - 2) == Pow(2, q) * Pow(2, x - q)
  {
    PowOfProduct(2, 5, x - q);
    PowAdd(2, 2, x - 2);
    PowAdd(2, q, x - q);
    SmallPowers();
    hide Pow;
  }

  lemma ReducedFloor(x: nat, f: nat, g: nat, t: nat)
    requires g > 0 && t > 0
    ensures g * t > 0 && x * (f * t) / (g * t) == x * f / g && (x * (f * t) % (g * t) == 0 <==> x * f % g == 0)
  {
    MulAssociate(x, f, t);
    MulAtLeast(g, t);
    DivCancel(x * f, g, t);
    Rounding.ScaledDivides(x * f, g, t);
  }

  // Only the other prime can keep a multiple from being exact.
  lemma FactorIrrelevant(x: nat, e: int, q: nat)
    requires Takes(e, q)
    ensures x * F(e, q) % G(e, q) == 0 <==> x % G(e, q) == 0
  {
    if e >= 0 {
      Rounding.CancelPower(x, 5, 2, e - q, q);
    } else {
      Rounding.CancelPower(x, 2, 5, -e - q, q);
    }
  }

  ghost predicate Seen(s: Interval, m: nat, mmShift: bool, e: int, q: nat)
    requires m > 0 && Takes(e, q)
  {
    var mm, f, g := Mm(m, mmShift), F(e, q), G(e, q);
    && s.Valid() && s.accept == (m % 2 == 0)
    && s.a / s.d == mm * f / g && s.b / s.d == 4 * m * f / g && s.c / s.d == (4 * m + 2) * f / g
    && (s.a % s.d == 0 <==> mm % g == 0) && (s.b % s.d == 0 <==> 4 * m % g == 0)
    && (s.c % s.d == 0 <==> (4 * m + 2) % g == 0)
  }

  lemma ScaledIsSeen(m: nat, mmShift: bool, e: int, q: nat)
    requires m > 0 && Takes(e, q)
    ensures Seen(Scaled(m, mmShift, e, q), m, mmShift, e, q)
  {
    var s, mm, f, g := Scaled(m, mmShift, e, q), Mm(m, mmShift), F(e, q), G(e, q);
    ScaledParts(m, e + 2, mmShift, E10(e, q));
    DenAsPower(e + 2);
    hide Pow, Num, Den, F, G, E10, Scaled, AtScale, IntervalOf;
    var t := Reduced(e, q);
    ReducedFloor(mm, f, g, t);
    ReducedFloor(4 * m, f, g, t);
    ReducedFloor(4 * m + 2, f, g, t);
    FactorIrrelevant(mm, e, q);
    FactorIrrelevant(4 * m, e, q);
    FactorIrrelevant(4 * m + 2, e, q);
  }

  lemma DenAsPower(e2: int)
    ensures Den(e2) == Pow(2, Above(-e2))
  {
    assert Pow(2, 0) == 1;
  }

  // The floors below and at the number differ.
  lemma FloorsDiffer(m: nat, mmShift: bool, e: int, q: nat)
    requires m > 0 && Takes(e, q) && G(e, q) <= F(e, q)
    ensures 0 < Mm(m, mmShift) * F(e, q) / G(e, q) < 4 * m * F(e, q) / G(e, q)
  {
    hide F, G;
    FloorsApart(Mm(m, mmShift), 4 * m, F(e, q), G(e, q));
  }

  lemma FloorsApart(a: nat, b: nat, f: nat, g: nat)
    requires 0 < a < b && 0 < g <= f
    ensures 0 < a * f / g < b * f / g
  {
    var low := a * f / g;
    DivMod(a * f, g);
    DivAtLeast(a * f, g, 1);
    MulAtLeast(a, f);
    DistributeSub(b, a, f);
    MulAtLeast(b - a, f);
    DistributeAdd(low, 1, g);
    DivAtLeast(b * f, g, low + 1);
  }
}
