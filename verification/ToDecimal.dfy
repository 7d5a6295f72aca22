// __d2d and __f2d: Steps 3 and 4 together, given the floors that the multiplications with
// a table entry yield.  The flags of Step 3 are not always exact; they never matter where
// they are not.
module ToDecimal {
  import opened Arith
  import opened Words
  import opened Shortest
  import opened ExactFixed
  import opened Ryu
  import opened Nearest
  import opened Scales
  import Rounding

  // --- the flags of Step 3 ---

  // The upper bound and the two flags, as Step 3 leaves them.
  datatype Start = Start(vp: nat, vmExact: bool, vrExact: bool)

  // Lines 1763-1806 and 1082-1119.  The powers of five are looked at up to the given one,
  // and the powers of two below the given one.
  ghost function Flags(m: nat, mmShift: bool, e: int, q: nat, vp: nat, fives: nat, twos: nat): (s: Start)
    requires m > 0 && vp > 0
  {
    var even := m % 2 == 0;
    if e >= 0 && q <= fives then
      if 4 * m % 5 == 0 then Start(vp, false, 4 * m % Pow(5, q) == 0)
      else if even then Start(vp, Mm(m, mmShift) % Pow(5, q) == 0, false)
      else Start(if (4 * m + 2) % Pow(5, q) == 0 then vp - 1 else vp, false, false)
    else if e < 0 && q <= 1 then
      if even then Start(vp, mmShift, true) else Start(vp - 1, false, true)
    else if e < 0 && q < twos then
      Start(vp, false, 4 * m % Pow(2, q - 1) == 0)
    else
      Start(vp, false, false)
  }

  // Where the powers of five are not looked at, one more five does not divide, and where
  // the powers of two are not, they are too large.
  ghost predicate Beyond(m: nat, mmShift: bool, e: int, q: nat, fives: nat, twos: nat)
    requires m > 0
  {
    && twos > 1
    && (e >= 0 && q > fives ==>
          && 4 * m % Pow(5, q + 1) != 0
          && (m % 2 == 0 ==> Mm(m, mmShift) % Pow(5, q + 1) != 0)
          && (m % 2 != 0 ==> (4 * m + 2) % Pow(5, q + 1) != 0))
    && (e < 0 && q >= twos ==> 4 * m < Pow(2, q - 1))
  }

  // An exact quotient is a multiple of five only if one more five divides.
  lemma QuotientByFive(x: nat, e: nat, q: nat)
    requires q <= e && x % Pow(5, q) == 0 && x % Pow(5, q + 1) != 0
    ensures x * F(e, q) / G(e, q) % 5 != 0
  {
    var y, f, g := x / G(e, q), F(e, q), G(e, q);
    PowStep(5, q + 1);
    DivMod(x, g);
    Rounding.DivisibleStep(x, g, 5);
    Rounding.CancelPower(y, 5, 2, e - q, 1);
    SmallPowers();
    hide Pow, G;
    MulAssociate(y, f, g);
    MulAssociate(y, g, f);
    Rounding.Multiple(x * f, g, y * f);
    hide F;
  }

  lemma NotTen(x: nat)
    requires x % 5 != 0
    ensures x % 10 != 0
  {
    LastDigitByFive(x);
  }

  lemma Fives(x: nat, q: nat)
    requires q > 0 && x % Pow(5, q) == 0
    ensures x % 5 == 0
  {
    Rounding.PowDivides(x, 1, q);
    SmallPowers();
  }

  lemma EndsNotByFive(m: nat, mmShift: bool)
    requires m > 0 && 4 * m % 5 == 0
    ensures Mm(m, mmShift) % 5 != 0 && (4 * m + 2) % 5 != 0
  {
    var c := 4 * m / 5;
    DivMod(4 * m, 5);
    DivUnique(4 * m + 2, 5, c, 2);
    DivUnique(Mm(m, mmShift), 5, c - 1, if mmShift then 3 else 4);
  }

  lemma ByOne(x: nat)
    ensures x % Pow(5, 0) == 0 && Pow(5, 0 + 1) == 5
  {
    SmallPowers();
    assert Pow(5, 0) == 1;
  }

  // --- the bounds ---

  ghost predicate HarmlessBounds(s: Interval, st: Start)
    requires s.Valid()
  {
    CloseBounds(s.b / s.d, s.a / s.d, st.vp, st.vmExact, s.Vp(), s.VmIsTrailingZeros())
  }

  // What the case distinctions below start from.
  ghost predicate Given(s: Interval, m: nat, mmShift: bool, e: int, q: nat)
  {
    && m > 0 && Takes(e, q) && Seen(s, m, mmShift, e, q) && 0 <= s.a / s.d < s.b / s.d && s.c / s.d > 0
  }

  // No power of ten is taken out.
  lemma BoundsAtZero(s: Interval, m: nat, mmShift: bool, e: int, fives: nat, twos: nat)
    requires Given(s, m, mmShift, e, 0) && e >= 0
    ensures HarmlessBounds(s, Flags(m, mmShift, e, 0, s.c / s.d, fives, twos))
  {
    var mm, mv, mp := Mm(m, mmShift), 4 * m, 4 * m + 2;
    ByOne(mm);
    ByOne(mp);
    assert G(e, 0) == Pow(5, 0);
    hide Pow, F, G;
    if mv % 5 == 0 {
      EndsNotByFive(m, mmShift);
      QuotientByFive(mm, e, 0);
      NotTen(s.a / s.d);
      QuotientByFive(mp, e, 0);
      NotTen(s.c / s.d);
    }
  }

  lemma BoundsInTable(s: Interval, m: nat, mmShift: bool, e: int, q: nat, fives: nat, twos: nat)
    requires Given(s, m, mmShift, e, q) && e >= 0 && 0 < q <= fives
    ensures HarmlessBounds(s, Flags(m, mmShift, e, q, s.c / s.d, fives, twos))
  {
    var mm, mv, mp := Mm(m, mmShift), 4 * m, 4 * m + 2;
    assert G(e, q) == Pow(5, q);
    hide Pow, F, G;
    if mv % 5 == 0 {
      EndsNotByFive(m, mmShift);
      if mm % Pow(5, q) == 0 {
        Fives(mm, q);
      }
      if mp % Pow(5, q) == 0 {
        Fives(mp, q);
      }
    }
  }

  lemma BoundsBeyond(s: Interval, m: nat, mmShift: bool, e: int, q: nat, fives: nat, twos: nat)
    requires Given(s, m, mmShift, e, q) && e >= 0 && q > fives && Beyond(m, mmShift, e, q, fives, twos)
    ensures HarmlessBounds(s, Flags(m, mmShift, e, q, s.c / s.d, fives, twos))
  {
    var mm, mp := Mm(m, mmShift), 4 * m + 2;
    assert G(e, q) == Pow(5, q);
    hide Pow, F, G;
    if m % 2 == 0 && mm % Pow(5, q) == 0 {
      QuotientByFive(mm, e, q);
      NotTen(s.a / s.d);
    }
    if m % 2 != 0 && mp % Pow(5, q) == 0 {
      QuotientByFive(mp, e, q);
      NotTen(s.c / s.d);
    }
  }

  lemma OddIsNotTen(x: nat, i: nat)
    requires x % 2 == 1
    ensures x * Pow(5, i) % 10 != 0
  {
    PowerOf5IsOdd(i);
    OddTimesOdd(x, Pow(5, i));
    hide Pow;
    var y := x * Pow(5, i);
    DivMod(y, 10);
    ModAddMultiple(y % 10, 5 * (y / 10), 2);
  }

  lemma LowBits(m: nat, mmShift: bool)
    requires m > 0
    ensures Mm(m, mmShift) % 2 == (if mmShift then 0 else 1) && Mm(m, mmShift) % 4 != 0
    ensures 4 * m % 2 == 0 && (4 * m + 2) % 2 == 0 && (4 * m + 2) % 4 != 0
  {
    DivUnique(4 * m, 2, 2 * m, 0);
    DivUnique(4 * m + 2, 2, 2 * m + 1, 0);
    DivUnique(4 * m + 2, 4, m, 2);
    DivUnique(Mm(m, mmShift), 2, 2 * m - 1, if mmShift then 0 else 1);
    DivUnique(Mm(m, mmShift), 4, m - 1, if mmShift then 2 else 3);
  }

  lemma BoundsSmall(s: Interval, m: nat, mmShift: bool, e: int, q: nat, fives: nat, twos: nat)
    requires Given(s, m, mmShift, e, q) && e < 0 && q <= 1
    ensures HarmlessBounds(s, Flags(m, mmShift, e, q, s.c / s.d, fives, twos))
  {
    LowBits(m, mmShift);
    SmallPowers();
    assert G(e, q) == if q == 0 then 1 else 2;
    if q == 0 && !mmShift {
      OddIsNotTen(Mm(m, mmShift), -e);
    }
    hide Pow;
  }

  lemma Twos(x: nat, p: nat, q: nat)
    requires p <= q && x % Pow(2, q) == 0
    ensures x % Pow(2, p) == 0
  {
    PowAdd(2, p, q - p);
    hide Pow;
    Rounding.DivisibleStep(x, Pow(2, p), Pow(2, q - p));
  }

  lemma BoundsBelow(s: Interval, m: nat, mmShift: bool, e: int, q: nat, fives: nat, twos: nat)
    requires Given(s, m, mmShift, e, q) && e < 0 && q >= 2
    ensures HarmlessBounds(s, Flags(m, mmShift, e, q, s.c / s.d, fives, twos))
  {
    var mm, mp := Mm(m, mmShift), 4 * m + 2;
    LowBits(m, mmShift);
    SmallPowers();
    assert G(e, q) == Pow(2, q);
    hide Pow, F, G;
    if mm % Pow(2, q) == 0 {
      Twos(mm, 2, q);
    }
    if mp % Pow(2, q) == 0 {
      Twos(mp, 2, q);
    }
  }

  lemma BoundsAreHarmless(s: Interval, m: nat, mmShift: bool, e: int, q: nat, fives: nat, twos: nat)
    requires Given(s, m, mmShift, e, q) && Beyond(m, mmShift, e, q, fives, twos)
    ensures HarmlessBounds(s, Flags(m, mmShift, e, q, s.c / s.d, fives, twos))
  {
    hide HarmlessBounds, Flags, Given, Beyond;
    if e >= 0 {
      if q == 0 {
        BoundsAtZero(s, m, mmShift, e, fives, twos);
      } else if q <= fives {
        BoundsInTable(s, m, mmShift, e, q, fives, twos);
      } else {
        BoundsBeyond(s, m, mmShift, e, q, fives, twos);
      }
    } else if q <= 1 {
      BoundsSmall(s, m, mmShift, e, q, fives, twos);
    } else {
      BoundsBelow(s, m, mmShift, e, q, fives, twos);
    }
  }

  // --- the number ---

  // A quotient that ends in one half.
  lemma HalfQuotient(x: nat, h: nat, f: nat)
    requires h > 0 && x % h == 0 && x % (2 * h) != 0 && f % 5 == 0 && f % 2 == 1
    ensures x * f / (2 * h) % 5 != 0
  {
    var y := x / h;
    DivMod(x, h);
    Rounding.DivisibleStep(x, h, 2);
    MulAssociate(y, h, f);
    MulAssociate(y, f, h);
    DivCancel(y * f, 2, h);
    OddTimesOdd(y, f);
    DivMod(f, 5);
    MulAssociate(y, f / 5, 5);
    HalfOfOdd(y * f, y * (f / 5));
  }

  lemma HalfOfOdd(w: nat, u: int)
    requires w == u * 5 && w % 2 == 1
    ensures w / 2 % 5 != 0
  {
    DivMod(w, 2);
    DivMod(w / 2, 5);
    Rounding.Multiple(w, 5, u);
    if w / 2 % 5 == 0 {
      DivUnique(w, 5, 2 * (w / 2 / 5), 1);
    }
  }

  lemma FivesOf(i: nat)
    requires i > 0
    ensures Pow(5, i) % 5 == 0 && Pow(5, i) % 2 == 1
  {
    PowerOf5IsOdd(i);
    PowStep(5, i);
    hide Pow;
    Rounding.Multiple(Pow(5, i), 5, Pow(5, i - 1));
  }

  lemma TooLarge(x: nat, q: nat)
    requires q > 0 && 0 < x < Pow(2, q - 1)
    ensures x % Pow(2, q) != 0 && x % Pow(2, q - 1) != 0
  {
    PowStep(2, q);
    hide Pow;
    DivUnique(x, Pow(2, q), 0, x);
    DivUnique(x, Pow(2, q - 1), 0, x);
  }

  // Before any digit is removed.
  lemma ValueIsHarmless(m: nat, mmShift: bool, e: int, q: nat, vp: nat, fives: nat, twos: nat)
    requires m > 0 && Takes(e, q) && vp > 0 && Beyond(m, mmShift, e, q, fives, twos)
    ensures var st := Flags(m, mmShift, e, q, vp, fives, twos);
            0 <= 4 * m * F(e, q) / G(e, q) &&
            CloseValue(4 * m * F(e, q) / G(e, q), 0, st.vrExact, 4 * m % G(e, q) == 0)
  {
    DivAtLeast(4 * m * F(e, q), G(e, q), 0);
    if e >= 0 {
      ValueAbove(m, mmShift, e, q, vp, fives, twos);
    } else {
      ValueBelow(m, mmShift, e, q, vp, fives, twos);
    }
  }

  lemma ValueAbove(m: nat, mmShift: bool, e: nat, q: nat, vp: nat, fives: nat, twos: nat)
    requires m > 0 && q <= e && vp > 0 && Beyond(m, mmShift, e, q, fives, twos)
    ensures var st := Flags(m, mmShift, e, q, vp, fives, twos);
            st.vrExact == (4 * m % G(e, q) == 0) || 4 * m * F(e, q) / G(e, q) % 5 != 0
  {
    var mv := 4 * m;
    assert G(e, q) == Pow(5, q);
    if q == 0 {
      ByOne(mv);
    }
    hide Pow, F, G;
    if mv % Pow(5, q) == 0 {
      if q > fives {
        QuotientByFive(mv, e, q);
      } else if q > 0 {
        Fives(mv, q);
      } else if mv % 5 != 0 {
        QuotientByFive(mv, e, q);
      }
    }
  }

  lemma ValueBelow(m: nat, mmShift: bool, e: int, q: nat, vp: nat, fives: nat, twos: nat)
    requires m > 0 && e < 0 && Takes(e, q) && vp > 0 && Beyond(m, mmShift, e, q, fives, twos)
    ensures var st := Flags(m, mmShift, e, q, vp, fives, twos);
            st.vrExact == (4 * m % G(e, q) == 0) || 4 * m * F(e, q) / G(e, q) % 5 != 0
  {
    var mv := 4 * m;
    assert G(e, q) == Pow(2, q) && F(e, q) == Pow(5, -e - q);
    LowBits(m, mmShift);
    SmallPowers();
    FivesOf(-e - q);
    if q > 0 {
      PowStep(2, q);
    }
    hide Pow, F, G;
    if 1 < q < twos {
      if mv % Pow(2, q) == 0 {
        Twos(mv, q - 1, q);
      } else if mv % Pow(2, q - 1) == 0 {
        HalfQuotient(mv, Pow(2, q - 1), F(e, q));
      }
    } else if q >= twos {
      TooLarge(mv, q);
    }
  }

  // With one digit removed already: vr0 is the floor at the next finer scale.
  lemma FinerIsHarmless(m: nat, mmShift: bool, e: int, q: nat, vp: nat, fives: nat, twos: nat, vr: nat, vr0: nat)
    requires m > 0 && q > 0 && Takes(e, q) && Takes(e, q - 1) && vp > 0 && Beyond(m, mmShift, e, q, fives, twos)
    requires vr == 4 * m * F(e, q) / G(e, q) && vr0 == 4 * m * F(e, q - 1) / G(e, q - 1)
    ensures var st := Flags(m, mmShift, e, q, vp, fives, twos);
            CloseValue(vr, vr0 % 10, st.vrExact, 4 * m % G(e, q - 1) == 0)
  {
    var mv := 4 * m;
    if e >= 0 {
      FinerAbove(m, mmShift, e, q, vp, fives, twos, vr, vr0);
    } else {
      LowBits(m, mmShift);
      SmallPowers();
      assert G(e, q - 1) == Pow(2, q - 1);
      hide Pow, F, G;
      if q >= twos {
        TooLarge(mv, q);
      }
    }
  }

  lemma FinerAbove(m: nat, mmShift: bool, e: nat, q: nat, vp: nat, fives: nat, twos: nat, vr: nat, vr0: nat)
    requires m > 0 && 0 < q <= e && vp > 0 && Beyond(m, mmShift, e, q, fives, twos)
    requires vr == 4 * m * F(e, q) / G(e, q) && vr0 == 4 * m * F(e, q - 1) / G(e, q - 1)
    ensures var st := Flags(m, mmShift, e, q, vp, fives, twos);
            CloseValue(vr, vr0 % 10, st.vrExact, 4 * m % G(e, q - 1) == 0)
  {
    var mv := 4 * m;
    assert G(e, q) == Pow(5, q) && G(e, q - 1) == Pow(5, q - 1);
    hide Pow, F, G;
    if mv % Pow(5, q - 1) == 0 {
      EvenQuotient(mv, e, q - 1);
      NotFive(vr0);
      if mv % Pow(5, q) != 0 {
        QuotientByFive(mv, e, q - 1);
        NotTen(vr0);
      } else if q > fives {
        QuotientByFive(mv, e, q);
      } else {
        Fives(mv, q);
      }
    } else if mv % Pow(5, q) == 0 {
      Rounding.PowDivides(mv, q - 1, q);
    }
  }

  lemma NotFive(x: nat)
    requires x % 2 == 0
    ensures x % 10 != 5
  {
    DivMod(x, 10);
    ModAddMultiple(x % 10, 5 * (x / 10), 2);
  }

  lemma EvenQuotient(x: nat, e: nat, q: nat)
    requires q < e && x % Pow(5, q) == 0
    ensures x * F(e, q) / G(e, q) % 2 == 0
  {
    var y, f, g := x / G(e, q), F(e, q), G(e, q);
    PowStep(2, e - q);
    DivMod(x, g);
    var h := Pow(2, e - q - 1);
    assert f == 2 * h;
    hide Pow, F, G;
    MulAssociate(y, f, g);
    MulAssociate(y, g, f);
    Rounding.Multiple(x * f, g, y * f);
    MulAssociate(y, 2, h);
    Rounding.Multiple(y * f, 2, y * h);
  }

  // --- nothing is missed ---

  // The significands; the gap below is halved at powers of two only.
  predicate D2dSignificand(m: nat, mmShift: bool)
  {
    0 < m < 0x20_0000_0000_0000 && (mmShift || m == 0x10_0000_0000_0000)
  }

  predicate F2dSignificand(m: nat, mmShift: bool)
  {
    0 < m < 0x100_0000 && (mmShift || m == 0x80_0000)
  }

  lemma FiniteDouble(m: nat, e2: int, mmShift: bool)
    requires Finite(DOUBLE, m, e2, mmShift)
    ensures D2dSignificand(m, mmShift) && D2dExponent(e2 - 2)
  {
    Pow2At53();
    PowStep(2, 53);
    hide Pow;
  }

  lemma FiniteFloat(m: nat, e2: int, mmShift: bool)
    requires Finite(FLOAT, m, e2, mmShift)
    ensures F2dSignificand(m, mmShift) && F2dExponent(e2 - 2)
  {
    Pow2At21();
    PowStep(2, 22);
    PowStep(2, 23);
    PowStep(2, 24);
    hide Pow;
  }

  lemma FiveTo23()
    ensures Pow(5, 11) == 48828125 && Pow(5, 23) == 11920928955078125
  {
    assert Pow(5, 5) == 3125 && Pow(5, 3) == 125;
    PowAdd(5, 5, 5);
    PowStep(5, 11);
    PowAdd(5, 10, 10);
    PowAdd(5, 20, 3);
  }

  lemma OnlyMultiple(x: nat, d: nat)
    requires 0 < x < 2 * d && x % d == 0
    ensures x == d
  {
    DivMod(x, d);
    if x / d >= 2 {
      MulMonotone(2, x / d, d, d);
    }
  }

  // Beyond 5^22 there is hardly room for another five.
  lemma TooManyFives(m: nat, mmShift: bool, q: nat)
    requires D2dSignificand(m, mmShift) && q >= 22
    ensures 4 * m % Pow(5, q + 1) != 0
    ensures m % 2 == 0 ==> Mm(m, mmShift) % Pow(5, q + 1) != 0
    ensures m % 2 != 0 ==> (4 * m + 2) % Pow(5, q + 1) != 0
  {
    FiveTo23();
    hide Pow;
    if 4 * m % Pow(5, q + 1) == 0 {
      Rounding.PowDivides(4 * m, 23, q + 1);
      Rounding.CancelFactor(2 * m, 5, 2, 23);
      Rounding.CancelFactor(m, 5, 2, 23);
      OnlyMultiple(m, Pow(5, 23));
    }
    if m % 2 == 0 && Mm(m, mmShift) % Pow(5, q + 1) == 0 {
      Rounding.PowDivides(Mm(m, mmShift), 23, q + 1);
      if mmShift {
        Rounding.CancelFactor(2 * m - 1, 5, 2, 23);
        OnlyMultiple(2 * m - 1, Pow(5, 23));
      }
    }
    if m % 2 != 0 && (4 * m + 2) % Pow(5, q + 1) == 0 {
      Rounding.PowDivides(4 * m + 2, 23, q + 1);
      Rounding.CancelFactor(2 * m + 1, 5, 2, 23);
      OnlyMultiple(2 * m + 1, Pow(5, 23));
    }
  }

  lemma NotMultiple(x: nat, d: nat)
    requires 0 < x < d
    ensures x % d != 0
  {
    DivUnique(x, d, 0, x);
  }

  lemma NoFivesLeft(x: nat, q: nat)
    requires 0 < x < 48828125 && q >= 10
    ensures 2 * x % Pow(5, q + 1) != 0
  {
    FiveTo23();
    hide Pow;
    NotMultiple(x, Pow(5, 11));
    if 2 * x % Pow(5, q + 1) == 0 {
      Rounding.PowDivides(2 * x, 11, q + 1);
      Rounding.CancelFactor(x, 5, 2, 11);
    }
  }

  // Beyond 5^9 there is none at all for float.
  lemma TooManyFivesFloat(m: nat, mmShift: bool, q: nat)
    requires F2dSignificand(m, mmShift) && q >= 10
    ensures 4 * m % Pow(5, q + 1) != 0 && Mm(m, mmShift) % Pow(5, q + 1) != 0 && (4 * m + 2) % Pow(5, q + 1) != 0
  {
    FiveTo23();
    hide Pow;
    NoFivesLeft(2 * m, q);
    NoFivesLeft(2 * m + 1, q);
    if mmShift {
      NoFivesLeft(2 * m - 1, q);
    } else if Mm(m, mmShift) % Pow(5, q + 1) == 0 {
      Rounding.PowDivides(Mm(m, mmShift), 11, q + 1);
    }
  }

  lemma DoubleBeyond(m: nat, mmShift: bool, e: int, q: nat)
    requires D2dSignificand(m, mmShift)
    ensures Beyond(m, mmShift, e, q, 21, 63)
  {
    hide Pow;
    if e >= 0 && q > 21 {
      TooManyFives(m, mmShift, q);
    }
    if q >= 63 {
      Pow2At53();
      PowExponentMonotone(2, 53 + 9, q - 1);
      PowAdd(2, 53, 9);
      NinthPower();
    }
  }

  lemma NinthPower()
    ensures Pow(2, 9) == 512
  {
  }

  lemma FloatBeyond(m: nat, mmShift: bool, e: int, q: nat)
    requires F2dSignificand(m, mmShift)
    ensures Beyond(m, mmShift, e, q, 9, 31)
  {
    hide Pow;
    if e >= 0 && q > 9 {
      TooManyFivesFloat(m, mmShift, q);
    }
    if q >= 31 {
      Pow2At21();
      PowExponentMonotone(2, 21 + 9, q - 1);
      PowAdd(2, 21, 9);
      NinthPower();
    }
  }

  // --- Steps 3 and 4 ---

  // Lines 1763-1806 and 1082-1119.
  method Step3(m: U64, mmShift: bool, e: int, q: nat, vp0: U64, fives: nat, twos: nat)
    returns (vp: U64, vmExact: bool, vrExact: bool)
    requires 0 < m < 0x20_0000_0000_0000 && vp0 > 0
    ensures Start(vp, vmExact, vrExact) == Flags(m, mmShift, e, q, vp0, fives, twos) && vp <= vp0
  {
    hide Pow;
    var accept, mv := m % 2 == 0, 4 * m;
    vp, vmExact, vrExact := vp0, false, false;
    if e >= 0 {
      if q <= fives {
        if mv % 5 == 0 {
          vrExact := Rounding.MultipleOfPowerOf5(mv, q);
        } else if accept {
          vmExact := Rounding.MultipleOfPowerOf5(mv - 1 - (if mmShift then 1 else 0), q);
        } else {
          var vpExact := Rounding.MultipleOfPowerOf5(mv + 2, q);
          vp := vp - if vpExact then 1 else 0;
        }
      }
    } else if q <= 1 {
      vrExact := true;
      if accept {
        vmExact := mmShift;
      } else {
        vp := vp - 1;
      }
    } else if q < twos {
      vrExact := mv % Pow(2, q - 1) == 0;
    }
  }

  // The floors that the multiplications with the table entry yield.
  ghost predicate Floors(m: nat, mmShift: bool, e: int, q: nat, vr: nat, vp: nat, vm: nat)
    requires m > 0
  {
    var s := Scaled(m, mmShift, e, q);
    vr == s.b / s.d && vp == s.c / s.d && vm == s.a / s.d
  }

  lemma ScaledIsGiven(m: nat, mmShift: bool, e: int, q: nat)
    requires m > 0 && Takes(e, q) && G(e, q) <= F(e, q)
    ensures var s := Scaled(m, mmShift, e, q); Given(s, m, mmShift, e, q) && 0 < s.Vm() < s.Vr() <= s.Vp() <= s.c / s.d
  {
    var s := Scaled(m, mmShift, e, q);
    ScaledIsSeen(m, mmShift, e, q);
    FloorsDiffer(m, mmShift, e, q);
    TopQuotient(s);
    hide Scaled, F, G;
  }

  /** Whatever the flags of Step 3 miss makes no difference to Step 4. */
  lemma FlagsAreHarmless(m: nat, mmShift: bool, e: int, q: nat, fives: nat, twos: nat)
    requires m > 0 && Takes(e, q) && G(e, q) <= F(e, q) && Beyond(m, mmShift, e, q, fives, twos)
    ensures var s := Scaled(m, mmShift, e, q);
            s.c / s.d > 0 &&
            var st := Flags(m, mmShift, e, q, s.c / s.d, fives, twos);
            Near(s, 0, s.Vr(), st.vp, s.Vm(), st.vmExact, st.vrExact, 0)
  {
    var s := Scaled(m, mmShift, e, q);
    ScaledIsGiven(m, mmShift, e, q);
    hide Scaled, F, G, Flags, Beyond, Near, CloseValue, CloseBounds;
    BoundsAreHarmless(s, m, mmShift, e, q, fives, twos);
    ValueIsHarmless(m, mmShift, e, q, s.c / s.d, fives, twos);
    var st := Flags(m, mmShift, e, q, s.c / s.d, fives, twos);
    StartNear(s, st.vp, st.vmExact, st.vrExact);
  }

  // At the scale of the double printer the interval is longer than ten units, or the
  // number is an integer.
  lemma ScaledWide(m: nat, mmShift: bool, e: int)
    requires m > 0 && D2dExponent(e)
    ensures var s := Scaled(m, mmShift, e, DoubleQ(e)); s.c - s.a > 10 * s.d || s.b % s.d == 0
  {
    var q := DoubleQ(e);
    var s, f, g := Scaled(m, mmShift, e, q), F(e, q), G(e, q);
    ScaledIsSeen(m, mmShift, e, q);
    DoubleIsFine(e);
    ScaledParts(m, e + 2, mmShift, E10(e, q));
    DenAsPower(e + 2);
    hide Pow, Num, Den, F, G, DoubleQ, E10, Scaled, AtScale, IntervalOf;
    var t := Reduced(e, q);
    if !(-1 <= e <= 3) {
      DistributeSub(4 * m + 2, Mm(m, mmShift), f * t);
      MulMonotone(3, 4 * m + 2 - Mm(m, mmShift), f * t, f * t);
      MulMonotone(5 * g, f, t, t);
      MulAssociate(5, g, t);
    }
  }

  lemma WideAccepts(s: Interval)
    requires s.Valid() && s.c - s.a > 10 * s.d
    ensures !s.NoneAccepted(1)
  {
    UnitOne(s);
    hide Interval.Unit;
    var q := MultipleInside(s, 10 * s.d);
    assert s.Accepted(q, 1);
  }

  // A digit was removed, or the number is an integer.
  lemma AlwaysNearest(s: Interval, n: nat, removed: nat)
    requires s.Valid() && s.ShortestNearest(n, removed) && (!s.NoneAccepted(1) || s.b % s.d == 0)
    ensures s.Nearest(n, removed)
  {
    UnitZero(s);
    hide Interval.Unit;
    if removed == 0 && s.NoneAccepted(1) {
      DivMod(s.b, s.d);
      forall n': nat | n' != n ensures s.Distance(n', 0) > 0 {
        if n' * s.d == s.b {
          CancelEqual(n', n, s.d);
        }
      }
    }
  }

  lemma PositiveEnd(m: nat, mmShift: bool, e: int)
    requires m > 0
    ensures IntervalOf(m, e + 2, mmShift).a > 0
  {
    hide Num, Den;
    MulAtLeast(Mm(m, mmShift), Num(e + 2));
  }

  // From the scale of Step 4 back to the number.
  lemma FromScale(m: nat, mmShift: bool, e: int, e10: int, n: nat, removed: nat)
    requires m > 0 && AtScale(IntervalOf(m, e + 2, mmShift), e10).ShortestNearest(n, removed)
    requires AtScale(IntervalOf(m, e + 2, mmShift), e10).Nearest(n, removed)
    ensures var i, k := IntervalOf(m, e + 2, mmShift), e10 + removed; RyuOutput(i, n, k, e10) && ClosestAt(i, n, k)
  {
    hide IntervalOf, AtScale, RyuOutput, Interval.ShortestNearest, Interval.Nearest, ClosestAt;
    PositiveEnd(m, mmShift, e);
    Step4IsRyuOutput(IntervalOf(m, e + 2, mmShift), e10, n, removed);
    RescaleNearest(IntervalOf(m, e + 2, mmShift), e10, removed, n);
  }

  // What Step 4 starts from, at a scale that is fine enough.
  ghost predicate Ready(s: Interval, st: Start)
  {
    && s.Valid() && 0 < s.Vm() < s.Vr() && s.Vm() < st.vp
    && Near(s, 0, s.Vr(), st.vp, s.Vm(), st.vmExact, st.vrExact, 0)
  }

  lemma ScaledIsReady(m: nat, mmShift: bool, e: int, q: nat, vp: nat, fives: nat, twos: nat)
    requires m > 0 && Takes(e, q) && G(e, q) <= F(e, q) && Beyond(m, mmShift, e, q, fives, twos)
    requires var s := Scaled(m, mmShift, e, q); vp == s.c / s.d
    ensures vp > 0 && Ready(Scaled(m, mmShift, e, q), Flags(m, mmShift, e, q, vp, fives, twos))
  {
    hide F, G, Beyond, Near, Given, Scaled, Flags;
    ScaledIsGiven(m, mmShift, e, q);
    FlagsAreHarmless(m, mmShift, e, q, fives, twos);
    var s, st := Scaled(m, mmShift, e, q), Flags(m, mmShift, e, q, vp, fives, twos);
    NearOrder(s, 0, s.Vr(), st.vp, s.Vm(), st.vmExact, st.vrExact, 0);
  }

  lemma DoubleIsReady(m: nat, mmShift: bool, e: int, vp: nat)
    requires Finite(DOUBLE, m, e + 2, mmShift) && D2dExponent(e)
    requires var s := Scaled(m, mmShift, e, DoubleQ(e)); vp == s.c / s.d
    ensures 0 < m < 0x20_0000_0000_0000 && vp > 0
    ensures Ready(Scaled(m, mmShift, e, DoubleQ(e)), Flags(m, mmShift, e, DoubleQ(e), vp, 21, 63))
  {
    FiniteDouble(m, e + 2, mmShift);
    DoubleIsFine(e);
    hide F, G, Beyond, Ready, Scaled, Flags, DoubleQ, Finite;
    DoubleBeyond(m, mmShift, e, DoubleQ(e));
    ScaledIsReady(m, mmShift, e, DoubleQ(e), vp, 21, 63);
  }

  lemma DoubleIsNearest(m: nat, mmShift: bool, e: int, n: nat, removed: nat)
    requires m > 0 && D2dExponent(e) && Scaled(m, mmShift, e, DoubleQ(e)).ShortestNearest(n, removed)
    ensures Scaled(m, mmShift, e, DoubleQ(e)).Nearest(n, removed)
  {
    var s := Scaled(m, mmShift, e, DoubleQ(e));
    hide Scaled, DoubleQ, Interval.ShortestNearest, Interval.Nearest, Interval.NoneAccepted;
    ScaledWide(m, mmShift, e);
    if s.c - s.a > 10 * s.d {
      WideAccepts(s);
    }
    AlwaysNearest(s, n, removed);
  }

  /** __d2d, given those floors, returns a shortest decimal of the double and the nearest
      such one. */
  method D2d(m: U64, mmShift: bool, e: int, vr: U64, vp0: U64, vm: U64) returns (n: U64, k: int)
    requires Finite(DOUBLE, m, e + 2, mmShift) && D2dExponent(e) && Floors(m, mmShift, e, DoubleQ(e), vr, vp0, vm)
    ensures var i := IntervalOf(m, e + 2, mmShift);
            && Shortens(DOUBLE, m, e + 2, mmShift, n, k, E10(e, DoubleQ(e))) && ClosestAt(i, n, k)
            && NearestOfShortest(i, n, k)
  {
    hide Finite, Flags, Near, AtScale, IntervalOf, Interval.ShortestNearest, RyuOutput, ClosestAt, Interval.Nearest,
         DoubleQ, E10, NearestOfShortest;
    DoubleIsReady(m, mmShift, e, vp0);
    var q := DoubleQ(e);
    var vp, vmExact, vrExact := Step3(m, mmShift, e, q, vp0, 21, 63);
    var removed;
    n, removed := Step4(Scaled(m, mmShift, e, q), vr, vp, vm, m % 2 == 0, vmExact, vrExact);
    k := E10(e, q) + removed;
    DoubleIsNearest(m, mmShift, e, n, removed);
    FromScale(m, mmShift, e, E10(e, q), n, removed);
    RyuIsNearest(DOUBLE, m, e + 2, mmShift, n, k, E10(e, q));
  }

  // --- float, with a digit removed ahead ---

  lemma TenthFloor(x: nat, d0: nat, t: nat, d: nat)
    requires d0 > 0 && d > 0 && t > 0 && 10 * d0 == d * t
    ensures x * t / d0 / 10 == x / d && (x * t % d0 == 0 && x * t / d0 % 10 == 0 <==> x % d == 0)
  {
    DivDiv(x * t, d0, 10);
    DivCancel(x, d, t);
    Rounding.DivisibleStep(x * t, d0, 10);
    Rounding.ScaledDivides(x, d, t);
  }

  lemma TenthBelow(c: nat, d0: nat, t: nat, d: nat)
    requires c > 0 && d0 > 0 && d > 0 && t > 0 && 10 * d0 == d * t
    ensures (c * t - 1) / d0 / 10 == (c - 1) / d
  {
    MulAtLeast(c, t);
    DivDiv(c * t - 1, d0, 10);
    DivMod(c - 1, d);
    var high, low := (c - 1) / d, (c - 1) % d;
    DistributeAdd(high * d, low + 1, t);
    MulAssociate(high, d, t);
    MulMonotone(low + 1, d, t, t);
    MulAtLeast(low + 1, t);
    DivUnique(c * t - 1, d * t, high, (low + 1) * t - 1);
  }

  lemma TenthOf(s0: Interval, s: Interval, t: nat)
    requires s0.Valid() && s.Valid() && Multiplied(s0, s, t, 10 * s0.d)
    ensures s0.Vr() / 10 == s.Vr() && s0.Vm() / 10 == s.Vm() && s0.Vp() / 10 == s.Vp()
    ensures s.VmIsTrailingZeros() == (s0.VmIsTrailingZeros() && s0.Vm() % 10 == 0)
  {
    TenthFloor(s.a, s0.d, t, s.d);
    TenthFloor(s.b, s0.d, t, s.d);
    TenthFloor(s.c, s0.d, t, s.d);
    TenthBelow(s.c, s0.d, t, s.d);
    TopQuotient(s);
    TopQuotient(s0);
    hide Interval.Vp;
  }

  // Removing one digit leads to the next scale.
  lemma StrippedOnce(i: Interval, e0: int)
    requires i.Valid()
    ensures var s0, s := AtScale(i, e0), AtScale(i, e0 + 1);
            && 0 <= s.Vr() && 0 <= s.Vm() && 0 <= s.Vp() && 0 <= s0.Vr()
            && Stripped(s0, 1, s.Vr(), s.Vp(), s.Vm(), s.VmIsTrailingZeros(), s0.VrIsTrailingZeros(), s0.Vr() % 10)
  {
    var s0, s := AtScale(i, e0), AtScale(i, e0 + 1);
    UnitOne(s0);
    ScaleFactor(i, e0, 1);
    hide AtScale, Interval.Unit, Stripped;
    TenthOf(s0, s, Pow(10, Above(-e0) - Above(-(e0 + 1))));
    StartState(s0);
    StartState(s);
    StripStep(s0, 0, s0.Vr(), s0.Vp(), s0.Vm(), s0.VmIsTrailingZeros(), s0.VrIsTrailingZeros(), 0);
  }

  lemma FinerIsNear(m: nat, mmShift: bool, e: int, q: nat, fives: nat, twos: nat)
    requires m > 0 && q > 0 && Takes(e, q) && Takes(e, q - 1) && G(e, q) <= F(e, q)
    requires Beyond(m, mmShift, e, q, fives, twos)
    ensures var s0, s := Scaled(m, mmShift, e, q - 1), Scaled(m, mmShift, e, q);
            s.c / s.d > 0 &&
            var st := Flags(m, mmShift, e, q, s.c / s.d, fives, twos);
            Near(s0, 1, s.Vr(), st.vp, s.Vm(), st.vmExact, st.vrExact, s0.Vr() % 10)
  {
    var s0, s := Scaled(m, mmShift, e, q - 1), Scaled(m, mmShift, e, q);
    assert E10(e, q - 1) + 1 == E10(e, q);
    hide F, G, Flags, Beyond, CloseValue, CloseBounds, AtScale, IntervalOf, Stripped;
    StrippedOnce(IntervalOf(m, e + 2, mmShift), E10(e, q - 1));
    ScaledIsGiven(m, mmShift, e, q);
    ScaledIsSeen(m, mmShift, e, q - 1);
    BoundsAreHarmless(s, m, mmShift, e, q, fives, twos);
    FinerIsHarmless(m, mmShift, e, q, s.c / s.d, fives, twos, s.Vr(), s0.Vr());
  }

  // The floors that __f2d computes, the last one only where its digit is needed.
  ghost predicate FloatFloors(m: nat, mmShift: bool, e: int, vr: nat, vp: nat, vm: nat, finer: nat)
    requires m > 0 && F2dExponent(e)
  {
    var q := FloatQ(e);
    && Floors(m, mmShift, e, q, vr, vp, vm)
    && (q > 0 && (vp - 1) / 10 <= vm / 10 ==>
          var s0 := Scaled(m, mmShift, e, q - 1); finer == s0.b / s0.d)
  }

  // Where it is not needed a digit is going to be removed.
  lemma DigitGoes(s: Interval)
    requires s.Valid() && s.c / s.d > 0 && (s.c / s.d - 1) / 10 > s.a / s.d / 10
    ensures !s.NoneAccepted(1)
  {
    var n := (s.c / s.d - 1) / 10;
    UnitOne(s);
    DivMod(s.a, s.d);
    DivMod(s.c, s.d);
    hide Interval.Unit;
    MulAssociate(n, 10, s.d);
    DivAtLeast(s.a, s.d, 0);
    MulMonotone(s.a / s.d + 1, n * 10, s.d, s.d);
    MulMonotone(n * 10, s.c / s.d - 1, s.d, s.d);
    DistributeAdd(s.a / s.d, 1, s.d);
    DistributeSub(s.c / s.d, 1, s.d);
    assert s.Accepted(n, 1);
  }

  lemma FloatIsReady(m: nat, mmShift: bool, e: int, vp: nat)
    requires Finite(FLOAT, m, e + 2, mmShift) && F2dExponent(e)
    requires var s := Scaled(m, mmShift, e, FloatQ(e)); vp == s.c / s.d
    ensures 0 < m < 0x100_0000 && vp > 0
    ensures var s0, q, st := Scaled(m, mmShift, e, FloatQ(e)), FloatQ(e), Flags(m, mmShift, e, FloatQ(e), vp, 9, 31);
            && Ready(s0, st)
            && (q > 0 ==>
                  var finer := Scaled(m, mmShift, e, q - 1);
                  Near(finer, 1, s0.Vr(), st.vp, s0.Vm(), st.vmExact, st.vrExact, finer.Vr() % 10))
  {
    FiniteFloat(m, e + 2, mmShift);
    FloatIsFine(e);
    hide F, G, Beyond, Ready, Near, Scaled, Flags, FloatQ, Finite;
    FloatBeyond(m, mmShift, e, FloatQ(e));
    ScaledIsReady(m, mmShift, e, FloatQ(e), vp, 9, 31);
    if FloatQ(e) > 0 {
      FinerIsNear(m, mmShift, e, FloatQ(e), 9, 31);
    }
  }

  // An integer if no power of ten is taken out.
  lemma WholeAtZero(m: nat, mmShift: bool, e: int)
    requires m > 0 && Takes(e, 0)
    ensures var s := Scaled(m, mmShift, e, 0); s.b % s.d == 0
  {
    ScaledIsSeen(m, mmShift, e, 0);
    UnitPowers();
    hide Pow, Scaled, F;
  }

  // Line 1074: whether the digit behind the scale is computed ahead.
  predicate DigitAhead(q: nat, vp: nat, vm: nat) { q != 0 && (vp - 1) / 10 <= vm / 10 }

  // The scale that Step 4 can be said to start from.
  function StartScale(m: nat, mmShift: bool, e: int, ahead: bool): (s: Interval)
    requires m > 0 && F2dExponent(e) && (ahead ==> FloatQ(e) > 0)
    ensures s.Valid() && s.accept == (m % 2 == 0)
  {
    Scaled(m, mmShift, e, if ahead then FloatQ(e) - 1 else FloatQ(e))
  }

  lemma FloatStart(m: nat, mmShift: bool, e: int, vr: nat, vp: nat, vm: nat, finer: nat)
    requires Finite(FLOAT, m, e + 2, mmShift) && F2dExponent(e) && FloatFloors(m, mmShift, e, vr, vp, vm, finer)
    ensures 0 < m < 0x100_0000 && vp > 0
    ensures var st, ahead := Flags(m, mmShift, e, FloatQ(e), vp, 9, 31), DigitAhead(FloatQ(e), vp, vm);
            && 0 < vm < st.vp
            && Near(StartScale(m, mmShift, e, ahead), if ahead then 1 else 0, vr, st.vp, vm, st.vmExact, st.vrExact,
                    if ahead then finer % 10 else 0)
  {
    FloatIsReady(m, mmShift, e, vp);
    hide Finite, Flags, Near, Scaled, FloatQ;
  }

  lemma FloatIsNearest(m: nat, mmShift: bool, e: int, vr: nat, vp: nat, vm: nat, finer: nat, n: nat, removed: nat)
    requires m > 0 && F2dExponent(e) && FloatFloors(m, mmShift, e, vr, vp, vm, finer) && vp > 0
    requires var ahead := DigitAhead(FloatQ(e), vp, vm);
             StartScale(m, mmShift, e, ahead).ShortestNearest(n, (if ahead then 1 else 0) + removed)
    ensures var ahead := DigitAhead(FloatQ(e), vp, vm);
            StartScale(m, mmShift, e, ahead).Nearest(n, (if ahead then 1 else 0) + removed)
  {
    var ahead := DigitAhead(FloatQ(e), vp, vm);
    var s := StartScale(m, mmShift, e, ahead);
    hide Scaled, Interval.ShortestNearest, Interval.Nearest, Interval.NoneAccepted;
    if ahead {
      NearestBehindDigit(s, n, 1 + removed);
    } else {
      if FloatQ(e) == 0 {
        WholeAtZero(m, mmShift, e);
      } else {
        DigitGoes(s);
      }
      AlwaysNearest(s, n, removed);
    }
  }

  lemma NearestBehindDigit(s: Interval, n: nat, removed: nat)
    requires s.Valid() && s.ShortestNearest(n, removed) && removed > 0
    ensures s.Nearest(n, removed)
  {
  }

  /** __f2d, given those floors, returns a shortest decimal of the float and the nearest
      such one. */
  method F2d(m: U32, mmShift: bool, e: int, vr: U32, vp0: U32, vm: U32, finer: U32)
    returns (n: U32, k: int, ghost scale: int)
    requires Finite(FLOAT, m, e + 2, mmShift) && F2dExponent(e) && FloatFloors(m, mmShift, e, vr, vp0, vm, finer)
    ensures Shortens(FLOAT, m, e + 2, mmShift, n, k, scale)
    ensures var i := IntervalOf(m, e + 2, mmShift);
            AcceptedAt(i, n, k) && NoneAcceptedAt(i, k + 1) && ClosestAt(i, n, k) && NearestOfShortest(i, n, k)
  {
    hide Finite, Flags, Near, AtScale, IntervalOf, Interval.ShortestNearest, RyuOutput, ClosestAt, Interval.Nearest,
         FloatQ, FloatFloors, StartScale, E10, NearestOfShortest;
    FloatStart(m, mmShift, e, vr, vp0, vm, finer);
    var q := FloatQ(e);
    var ahead := DigitAhead(q, vp0, vm);
    var lastDigit := if ahead then finer % 10 else 0;
    var vp, vmExact, vrExact := Step3(m, mmShift, e, q, vp0, 9, 31);
    ghost var k0 := if ahead then 1 else 0;
    var removed;
    n, removed := FloatStep4(StartScale(m, mmShift, e, ahead), k0, vr, vp, vm, m % 2 == 0, vmExact, vrExact, lastDigit);
    k := E10(e, q) + removed;
    scale := E10(e, q) - k0;
    FloatIsNearest(m, mmShift, e, vr, vp0, vm, finer, n, removed);
    FloatOutput(m, mmShift, e, ahead, n, removed);
    AcceptedAndLast(IntervalOf(m, e + 2, mmShift), n, k, scale);
    RyuIsNearest(FLOAT, m, e + 2, mmShift, n, k, scale);
  }

  lemma AcceptedAndLast(i: Interval, n: nat, k: int, e10: int)
    requires i.Valid() && RyuOutput(i, n, k, e10)
    ensures AcceptedAt(i, n, k) && NoneAcceptedAt(i, k + 1)
  {
  }

  lemma FloatOutput(m: nat, mmShift: bool, e: int, ahead: bool, n: nat, removed: nat)
    requires m > 0 && F2dExponent(e) && (ahead ==> FloatQ(e) > 0)
    requires var s, r := StartScale(m, mmShift, e, ahead), (if ahead then 1 else 0) + removed;
             s.ShortestNearest(n, r) && s.Nearest(n, r)
    ensures var i, e10 := IntervalOf(m, e + 2, mmShift), E10(e, FloatQ(e));
            RyuOutput(i, n, e10 + removed, e10 - if ahead then 1 else 0) && ClosestAt(i, n, e10 + removed)
  {
    hide FloatQ, IntervalOf, AtScale, RyuOutput, ClosestAt, Interval.ShortestNearest, Interval.Nearest;
    var k0 := if ahead then 1 else 0;
    FromScale(m, mmShift, e, E10(e, FloatQ(e)) - k0, n, k0 + removed);
  }

  // --- the floors fit their words ---

  lemma FloorBound(x: nat, f: nat, g: nat, times: nat)
    requires g > 0 && f <= times * g
    ensures 0 <= x * f / g <= x * times
  {
    DivAtLeast(x * f, g, 0);
    DivAtLeast(x * f, g, x * times + 1);
    MulMonotone(x, x, f, times * g);
    MulAssociate(x, times, g);
    DistributeAdd(x * times, 1, g);
  }

  // The floors of __d2d fit into 64 bits.
  lemma DoubleFloorsFit(m: nat, mmShift: bool, e: int)
    requires Finite(DOUBLE, m, e + 2, mmShift) && D2dExponent(e)
    ensures 0 < m < 0x20_0000_0000_0000
    ensures var s := Scaled(m, mmShift, e, DoubleQ(e));
            0 <= s.a / s.d <= s.b / s.d <= s.c / s.d < 0x1_0000_0000_0000_0000
  {
    var q := DoubleQ(e);
    var s := Scaled(m, mmShift, e, q);
    FiniteDouble(m, e + 2, mmShift);
    ScaledIsSeen(m, mmShift, e, q);
    DoubleNotCoarse(e);
    hide Scaled, F, G, DoubleQ, Finite;
    FloorBound(4 * m + 2, F(e, q), G(e, q), 200);
    DivAtLeast(s.a, s.d, 0);
    DivMonotone(s.a, s.b, s.d);
    DivMonotone(s.b, s.c, s.d);
  }

  // If the upper bound is at most ten above the lower one, the scale is coarse.
  lemma FewUnits(a: nat, b: nat, f: nat, g: nat)
    requires g > 0 && b >= a + 3 && b * f / g <= a * f / g + 10
    ensures f <= 4 * g
  {
    var low := a * f / g;
    DivMod(a * f, g);
    DivMod(b * f, g);
    DistributeSub(b, a, f);
    MulMonotone(3, b - a, f, f);
    MulMonotone(b * f / g, low + 10, g, g);
    DistributeAdd(low, 10, g);
  }

  // Those of __f2d fit into 32 bits, and where it looks at a digit ahead, so does that
  // floor (lines 1075-1077).
  lemma FloatFloorsFit(m: nat, mmShift: bool, e: int)
    requires Finite(FLOAT, m, e + 2, mmShift) && F2dExponent(e)
    ensures 0 < m < 0x100_0000
    ensures var q, s := FloatQ(e), Scaled(m, mmShift, e, FloatQ(e));
            && 0 <= s.a / s.d <= s.b / s.d <= s.c / s.d < 0x1_0000_0000
            && (DigitAhead(q, s.c / s.d, s.a / s.d) ==>
                  var s0 := Scaled(m, mmShift, e, q - 1); 0 <= s0.b / s0.d < 0x1_0000_0000)
  {
    var q := FloatQ(e);
    var s := Scaled(m, mmShift, e, q);
    FiniteFloat(m, e + 2, mmShift);
    ScaledIsSeen(m, mmShift, e, q);
    FloatNotCoarse(e);
    hide Scaled, F, G, FloatQ, Finite;
    FloorBound(4 * m + 2, F(e, q), G(e, q), 20);
    DivAtLeast(s.a, s.d, 0);
    DivMonotone(s.a, s.b, s.d);
    DivMonotone(s.b, s.c, s.d);
    if DigitAhead(q, s.c / s.d, s.a / s.d) {
      AheadFits(m, mmShift, e, q);
    }
  }

  lemma AheadFits(m: nat, mmShift: bool, e: int, q: nat)
    requires 0 < m < 0x100_0000 && q > 0 && Takes(e, q) && Takes(e, q - 1)
    requires var s := Scaled(m, mmShift, e, q); s.c / s.d <= s.a / s.d + 10
    ensures var s0 := Scaled(m, mmShift, e, q - 1); 0 <= s0.b / s0.d < 0x1_0000_0000
  {
    var s0, s := Scaled(m, mmShift, e, q - 1), Scaled(m, mmShift, e, q);
    assert E10(e, q - 1) + 1 == E10(e, q);
    ScaledIsSeen(m, mmShift, e, q);
    hide F, G, AtScale, IntervalOf;
    FewUnits(Mm(m, mmShift), 4 * m + 2, F(e, q), G(e, q));
    FloorBound(4 * m, F(e, q), G(e, q), 4);
    OneDigitFiner(IntervalOf(m, e + 2, mmShift), E10(e, q - 1));
  }

  lemma OneDigitFiner(i: Interval, e0: int)
    requires i.Valid()
    ensures var s0, s := AtScale(i, e0), AtScale(i, e0 + 1); 0 <= s0.Vr() <= 10 * s.Vr() + 9
  {
    var s0, s := AtScale(i, e0), AtScale(i, e0 + 1);
    UnitOne(s0);
    ScaleFactor(i, e0, 1);
    hide AtScale, Interval.Unit;
    TenthOf(s0, s, Pow(10, Above(-e0) - Above(-(e0 + 1))));
    DivAtLeast(s0.b, s0.d, 0);
  }
}
