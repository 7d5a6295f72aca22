// The table that corrects the length of a power of ten in __to_chars for float: which
// powers of ten have a float below them as their nearest, and so print a digit less.
module Adjustment {
  import opened Arith
  import opened Shortest
  import opened ExactFixed
  import opened Ryu
  import opened Reading
  import opened ShortestPrinting

  // Lines 1373-1374.
  const FLOAT_ADJUSTMENT: seq<nat> :=
    [0, 0, 0, 0, 0, 0, 0, 0, 0, 0, 0, 1, 1, 1, 0, 1, 0, 1, 1, 1,
     0, 0, 1, 1, 0, 1, 0, 1, 1, 0, 0, 1, 0, 1, 1, 0, 1, 1, 1]

  // --- on which side of a power of ten its nearest number lies ---

  // v is no farther from a + r than a and a + g are, and not strictly between them; where
  // it is as near as another it is even.
  lemma SideOnGrid(v: int, a: int, r: int, g: int, even: bool, low: nat)
    requires 0 < r < g && (v > a ==> v >= a + g)
    requires v != a ==> Abs(a + r - v) <= r && (Abs(a + r - v) == r ==> even)
    requires v != a + g ==> Abs(a + r - v) <= g - r && (Abs(a + r - v) == g - r ==> even)
    requires (v == a ==> even == (low % 2 == 0)) && (v == a + g ==> even == ((low + 1) % 2 == 0))
    ensures v < a + r <==> 2 * r < g || (2 * r == g && low % 2 == 0)
  {
  }

  lemma AcceptedPower(f: Format, m: nat, e2: int, mmShift: bool, k: nat)
    requires f.Valid() && ShortensWhole(f, m, e2, mmShift, 1, k)
    ensures m > 0 && Normal(f, m, e2, mmShift) && AcceptedAt(IntervalOf(m, e2, mmShift), 1, k)
  {
    var i := IntervalOf(m, e2, mmShift);
    ScaleZero(i);
    Rescale(i, 0, k, 1);
  }

  // The power p lies between q * t and (q + 1) * t, t being the gap of the format there.
  ghost predicate Straddles(f: Format, p: nat, e: nat, t: nat)
    requires f.Valid()
  {
    && t == Pow(2, e) && Pow(2, f.width - 1) <= p / t && p / t + 1 < Pow(2, f.width)
    && p % t != 0
  }

  // It is nearer to the number below, or as near, and that one is even.
  predicate NearerBelow(p: nat, t: nat)
    requires t > 0
  {
    2 * (p % t) < t || (2 * (p % t) == t && p / t % 2 == 0)
  }

  lemma Neighbours(f: Format, p: nat, e: nat, t: nat) returns (wide: bool)
    requires f.Valid() && Straddles(f, p, e, t)
    ensures Number(f, p / t, e, wide) && Number(f, p / t + 1, e, true)
    ensures var low, g := Grid(f, p / t, e), t * Pow(2, Depth(f));
            && g == Pow(2, e + Depth(f)) && Grid(f, p / t + 1, e) == low + g
            && p * Pow(2, Depth(f)) == low + p % t * Pow(2, Depth(f))
  {
    wide := p / t != Pow(2, f.width - 1);
    PowAdd(2, e, Depth(f));
    DivMod(p, t);
    var d := Pow(2, Depth(f));
    hide Pow;
    DistributeAdd(p / t, 1, t * d);
    DistributeAdd(p / t * t, p % t, d);
    MulAssociate(p / t, t, d);
  }

  lemma SideOfPower(f: Format, m: nat, e2: int, mmShift: bool, k: nat, p: nat, e: nat, t: nat)
    requires f.Valid() && ShortensWhole(f, m, e2, mmShift, 1, k) && Pow(10, k) == p && Straddles(f, p, e, t)
    ensures t > 0 && e2 + Depth(f) >= 0 && (Grid(f, m, e2) < p * Pow(2, Depth(f)) <==> NearerBelow(p, t))
  {
    hide ShortensWhole, Straddles, Number, Normal, AcceptedAt, Grid, RoundsTo, IntervalOf, Pow;
    RemainderOf(f, p, e, t);
    AcceptedPower(f, m, e2, mmShift, k);
    NormalIsNumber(f, m, e2, mmShift);
    AcceptedIffRoundsTo(f, m, e2, mmShift, 1, k);
    var wide := Neighbours(f, p, e, t);
    Gaps(f, p / t, e, wide, m, e2, mmShift);
    NearPower(f, k, m, e2, p / t, e, wide, p);
    NearPower(f, k, m, e2, p / t + 1, e, true, p);
    SameSignificand(f, m, e2, mmShift, p / t, e);
    SameSignificand(f, m, e2, mmShift, p / t + 1, e);
    var d := Pow(2, Depth(f));
    ScaledRemainder(p % t, t, d);
    SideOnGrid(Grid(f, m, e2), Grid(f, p / t, e), p % t * d, t * d, m % 2 == 0, p / t);
  }

  // A number has one significand.
  lemma SameSignificand(f: Format, m: nat, e2: int, mmShift: bool, q: nat, e: nat)
    requires f.Valid() && Normal(f, m, e2, mmShift) && Pow(2, f.width - 1) <= q < Pow(2, f.width)
    ensures e2 + Depth(f) >= 0 && (Grid(f, m, e2) == Grid(f, q, e) ==> m == q)
  {
    PowStep(2, f.width);
    var low: nat := if e2 <= e then e2 + Depth(f) else e + Depth(f);
    PowAdd(2, e2 + Depth(f) - low, low);
    PowAdd(2, e + Depth(f) - low, low);
    if e2 < e {
      PowExponentMonotone(2, 1, e - e2);
    } else if e2 > e {
      PowExponentMonotone(2, 1, e2 - e);
    }
    SmallTwos();
    hide Pow;
    if Grid(f, m, e2) == Grid(f, q, e) {
      OneSignificand(m, q, Pow(2, e2 + Depth(f) - low), Pow(2, e + Depth(f) - low), Pow(2, low), Pow(2, f.width - 1));
    }
  }

  lemma SmallTwos()
    ensures Pow(2, 0) == 1 && Pow(2, 1) == 2
  {
  }

  lemma OneSignificand(m: nat, q: nat, a: nat, b: nat, t: nat, half: nat)
    requires t > 0 && m * (a * t) == q * (b * t) && half <= m < 2 * half && half <= q < 2 * half
    requires (a == 1 && b == 1) || (a == 1 && b >= 2) || (a >= 2 && b == 1)
    ensures m == q
  {
    MulAssociate(m, a, t);
    MulAssociate(q, b, t);
    CancelEqual(m * a, q * b, t);
    if b >= 2 {
      MulMonotone(half, q, 2, b);
    } else if a >= 2 {
      MulMonotone(half, m, 2, a);
    }
  }

  lemma ScaledRemainder(r: nat, t: nat, d: nat)
    requires 0 < r < t && d > 0
    ensures 0 < r * d < t * d && (2 * (r * d) < t * d <==> 2 * r < t) && (2 * (r * d) == t * d <==> 2 * r == t)
  {
    CompareScaled(r, t, d);
    MulAtLeast(r, d);
    MulAssociate(2, r, d);
    CompareScaled(2 * r, t, d);
  }

  lemma NormalIsNumber(f: Format, m: nat, e2: int, mmShift: bool)
    requires f.Valid() && Normal(f, m, e2, mmShift)
    ensures Number(f, m, e2, mmShift)
  {
  }

  lemma RemainderOf(f: Format, p: nat, e: nat, t: nat)
    requires f.Valid() && Straddles(f, p, e, t)
    ensures t > 0 && 0 < p % t < t && Pow(2, f.width - 1) <= p / t && p / t + 1 < Pow(2, f.width)
  {
    DivMod(p, t);
  }

  lemma NearPower(f: Format, k: nat, m: nat, e2: int, m': nat, e2': int, wide: bool, p: nat)
    requires f.Valid() && e2 + Depth(f) >= 0 && e2' + Depth(f) >= 0 && RoundsTo(f, 1, k, m, e2)
    requires Number(f, m', e2', wide) && p == Pow(10, k)
    ensures var x, v, w := p * Pow(2, Depth(f)), Grid(f, m, e2), Grid(f, m', e2');
            v != w ==> Abs(x - v) <= Abs(x - w) && (Abs(x - v) == Abs(x - w) ==> m % 2 == 0)
  {
    hide Number, NoNearer, Off;
    assert NoNearer(f, 1, k, m, e2, m', e2');
    OffPower(f, k, p, Grid(f, m, e2));
    OffPower(f, k, p, Grid(f, m', e2'));
    NearOff(f, k, m, e2, m', e2');
  }

  lemma NearOff(f: Format, k: nat, m: nat, e2: int, m': nat, e2': int)
    requires f.Valid() && e2 + Depth(f) >= 0 && e2' + Depth(f) >= 0 && NoNearer(f, 1, k, m, e2, m', e2')
    ensures var x, y := Abs(Off(f, 1, k, Grid(f, m, e2))), Abs(Off(f, 1, k, Grid(f, m', e2')));
            Grid(f, m, e2) != Grid(f, m', e2') ==> x <= y && (x == y ==> m % 2 == 0)
  {
    hide Off, Grid, Abs;
  }

  lemma OffPower(f: Format, k: nat, p: nat, g: nat)
    requires f.Valid() && p == Pow(10, k)
    ensures Off(f, 1, k, g) == p * Pow(2, Depth(f)) - g
  {
    assert Pow(10, 0) == 1;
    hide Pow;
  }

  lemma IntegerOnGrid(f: Format, m: nat, e2: int, v: nat)
    requires f.Valid() && e2 + Depth(f) >= 0 && v * Den(e2) == m * Num(e2)
    ensures Grid(f, m, e2) == v * Pow(2, Depth(f))
  {
    SameRatio(e2, Depth(f));
    var d, g := Pow(2, Depth(f)), Pow(2, e2 + Depth(f));
    hide Pow, Num, Den;
    MulAssociate(m, Num(e2), d);
    MulAssociate(m, g, Den(e2));
    MulAssociate(v, Den(e2), d);
    MulAssociate(v, d, Den(e2));
    CancelEqual(m * g, v * d, Den(e2));
  }

  /** The number that prints as 10^k lies below it exactly if 10^k is less than half a gap
      above the number below, or half a gap above an even one. */
  lemma BelowPower(f: Format, m: nat, e2: int, mmShift: bool, k: nat, p: nat, e: nat, t: nat)
    requires f.Valid() && ShortensWhole(f, m, e2, mmShift, 1, k) && Pow(10, k) == p && Straddles(f, p, e, t)
    ensures t > 0 && (Integer(m, e2) < Pow(10, k) <==> NearerBelow(p, t))
  {
    hide ShortensWhole, Straddles, Grid, Integer, Pow, NearerBelow;
    SideOfPower(f, m, e2, mmShift, k, p, e, t);
    IntegerBehind(f, m, e2, mmShift, 1, k);
    IntegerOnGrid(f, m, e2, Integer(m, e2));
    CompareScaled(Integer(m, e2), p, Pow(2, Depth(f)));
  }

  // --- the float table ---

  ghost predicate FloatPower(k: nat, p: nat, e: nat, t: nat)
  {
    Pow(10, k) == p && Pow(2, e) == t && 0x80_0000 <= p / t < 0xFF_FFFF && p % t != 0 && 2 * (p % t) != t
  }

  lemma NextPower(k: nat, p: nat, e: nat, t: nat)
    requires Pow(10, k) == p && Pow(2, e) == t
    ensures Pow(10, k + 1) == 10 * p && Pow(2, e + 3) == 8 * t && Pow(2, e + 4) == 16 * t
  {
    PowStep(10, k + 1);
    PowStep(2, e + 1);
    PowStep(2, e + 2);
    PowStep(2, e + 3);
    PowStep(2, e + 4);
    hide Pow;
  }

  lemma FloatPowers11To17()
    ensures FloatPower(11, 100000000000, 13, 8192)
    ensures FloatPower(12, 1000000000000, 16, 65536)
    ensures FloatPower(13, 10000000000000, 20, 1048576)
    ensures FloatPower(14, 100000000000000, 23, 8388608)
    ensures FloatPower(15, 1000000000000000, 26, 67108864)
    ensures FloatPower(16, 10000000000000000, 30, 1073741824)
    ensures FloatPower(17, 100000000000000000, 33, 8589934592)
  {
    hide Pow;
    FirstPower();
    NextPower(11, 100000000000, 13, 8192);
    NextPower(12, 1000000000000, 16, 65536);
    NextPower(13, 10000000000000, 20, 1048576);
    NextPower(14, 100000000000000, 23, 8388608);
    NextPower(15, 1000000000000000, 26, 67108864);
    NextPower(16, 10000000000000000, 30, 1073741824);
  }

  lemma FloatPowers18To24()
    ensures FloatPower(18, 1000000000000000000, 36, 68719476736)
    ensures FloatPower(19, 10000000000000000000, 40, 1099511627776)
    ensures FloatPower(20, 100000000000000000000, 43, 8796093022208)
    ensures FloatPower(21, 1000000000000000000000, 46, 70368744177664)
    ensures FloatPower(22, 10000000000000000000000, 50, 1125899906842624)
    ensures FloatPower(23, 100000000000000000000000, 53, 9007199254740992)
    ensures FloatPower(24, 1000000000000000000000000, 56, 72057594037927936)
  {
    hide Pow;
    FloatPowers11To17();
    NextPower(17, 100000000000000000, 33, 8589934592);
    NextPower(18, 1000000000000000000, 36, 68719476736);
    NextPower(19, 10000000000000000000, 40, 1099511627776);
    NextPower(20, 100000000000000000000, 43, 8796093022208);
    NextPower(21, 1000000000000000000000, 46, 70368744177664);
    NextPower(22, 10000000000000000000000, 50, 1125899906842624);
    NextPower(23, 100000000000000000000000, 53, 9007199254740992);
  }

  lemma FloatPowers25To31()
    ensures FloatPower(25, 10000000000000000000000000, 60, 1152921504606846976)
    ensures FloatPower(26, 100000000000000000000000000, 63, 9223372036854775808)
    ensures FloatPower(27, 1000000000000000000000000000, 66, 73786976294838206464)
    ensures FloatPower(28, 10000000000000000000000000000, 70, 1180591620717411303424)
    ensures FloatPower(29, 100000000000000000000000000000, 73, 9444732965739290427392)
    ensures FloatPower(30, 1000000000000000000000000000000, 76, 75557863725914323419136)
    ensures FloatPower(31, 10000000000000000000000000000000, 79, 604462909807314587353088)
  {
    hide Pow;
    FloatPowers18To24();
    NextPower(24, 1000000000000000000000000, 56, 72057594037927936);
    NextPower(25, 10000000000000000000000000, 60, 1152921504606846976);
    NextPower(26, 100000000000000000000000000, 63, 9223372036854775808);
    NextPower(27, 1000000000000000000000000000, 66, 73786976294838206464);
    NextPower(28, 10000000000000000000000000000, 70, 1180591620717411303424);
    NextPower(29, 100000000000000000000000000000, 73, 9444732965739290427392);
    NextPower(30, 1000000000000000000000000000000, 76, 75557863725914323419136);
  }

  lemma FloatPowers32To38()
    ensures FloatPower(32, 100000000000000000000000000000000, 83, 9671406556917033397649408)
    ensures FloatPower(33, 1000000000000000000000000000000000, 86, 77371252455336267181195264)
    ensures FloatPower(34, 10000000000000000000000000000000000, 89, 618970019642690137449562112)
    ensures FloatPower(35, 100000000000000000000000000000000000, 93, 9903520314283042199192993792)
    ensures FloatPower(36, 1000000000000000000000000000000000000, 96, 79228162514264337593543950336)
    ensures FloatPower(37, 10000000000000000000000000000000000000, 99, 633825300114114700748351602688)
    ensures FloatPower(38, 100000000000000000000000000000000000000, 103, 10141204801825835211973625643008)
  {
    hide Pow;
    FloatPowers25To31();
    NextPower(31, 10000000000000000000000000000000, 79, 604462909807314587353088);
    NextPower(32, 100000000000000000000000000000000, 83, 9671406556917033397649408);
    NextPower(33, 1000000000000000000000000000000000, 86, 77371252455336267181195264);
    NextPower(34, 10000000000000000000000000000000000, 89, 618970019642690137449562112);
    NextPower(35, 100000000000000000000000000000000000, 93, 9903520314283042199192993792);
    NextPower(36, 1000000000000000000000000000000000000, 96, 79228162514264337593543950336);
    NextPower(37, 10000000000000000000000000000000000000, 99, 633825300114114700748351602688);
  }

  lemma FirstPower()
    ensures Pow(10, 11) == 100000000000 && Pow(2, 13) == 8192
  {
    assert Pow(10, 5) == 100000 && Pow(10, 6) == 1000000;
    PowAdd(10, 5, 6);
  }

  ghost predicate TableEntry(k: nat, p: nat, t: nat)
    requires t > 0
  {
    k < |FLOAT_ADJUSTMENT| && FLOAT_ADJUSTMENT[k] == if 2 * (p % t) < t then 1 else 0
  }

  lemma FloatPowerFrom11(k: nat) returns (p: nat, e: nat, t: nat)
    requires 11 <= k <= 17
    ensures FloatPower(k, p, e, t) && t > 0 && TableEntry(k, p, t)
  {
    hide FloatPower, Pow;
    FloatPowers11To17();
    match k {
      case 11 => p, e, t := 100000000000, 13, 8192;
      case 12 => p, e, t := 1000000000000, 16, 65536;
      case 13 => p, e, t := 10000000000000, 20, 1048576;
      case 14 => p, e, t := 100000000000000, 23, 8388608;
      case 15 => p, e, t := 1000000000000000, 26, 67108864;
      case 16 => p, e, t := 10000000000000000, 30, 1073741824;
      case 17 => p, e, t := 100000000000000000, 33, 8589934592;
    }
  }

  lemma FloatPowerFrom18(k: nat) returns (p: nat, e: nat, t: nat)
    requires 18 <= k <= 24
    ensures FloatPower(k, p, e, t) && t > 0 && TableEntry(k, p, t)
  {
    hide FloatPower, Pow;
    FloatPowers18To24();
    match k {
      case 18 => p, e, t := 1000000000000000000, 36, 68719476736;
      case 19 => p, e, t := 10000000000000000000, 40, 1099511627776;
      case 20 => p, e, t := 100000000000000000000, 43, 8796093022208;
      case 21 => p, e, t := 1000000000000000000000, 46, 70368744177664;
      case 22 => p, e, t := 10000000000000000000000, 50, 1125899906842624;
      case 23 => p, e, t := 100000000000000000000000, 53, 9007199254740992;
      case 24 => p, e, t := 1000000000000000000000000, 56, 72057594037927936;
    }
  }

  lemma FloatPowerFrom25(k: nat) returns (p: nat, e: nat, t: nat)
    requires 25 <= k <= 31
    ensures FloatPower(k, p, e, t) && t > 0 && TableEntry(k, p, t)
  {
    hide FloatPower, Pow;
    FloatPowers25To31();
    match k {
      case 25 => p, e, t := 10000000000000000000000000, 60, 1152921504606846976;
      case 26 => p, e, t := 100000000000000000000000000, 63, 9223372036854775808;
      case 27 => p, e, t := 1000000000000000000000000000, 66, 73786976294838206464;
      case 28 => p, e, t := 10000000000000000000000000000, 70, 1180591620717411303424;
      case 29 => p, e, t := 100000000000000000000000000000, 73, 9444732965739290427392;
      case 30 => p, e, t := 1000000000000000000000000000000, 76, 75557863725914323419136;
      case 31 => p, e, t := 10000000000000000000000000000000, 79, 604462909807314587353088;
    }
  }

  lemma FloatPowerFrom32(k: nat) returns (p: nat, e: nat, t: nat)
    requires 32 <= k <= 38
    ensures FloatPower(k, p, e, t) && t > 0 && TableEntry(k, p, t)
  {
    hide FloatPower, Pow;
    FloatPowers32To38();
    match k {
      case 32 => p, e, t := 100000000000000000000000000000000, 83, 9671406556917033397649408;
      case 33 => p, e, t := 1000000000000000000000000000000000, 86, 77371252455336267181195264;
      case 34 => p, e, t := 10000000000000000000000000000000000, 89, 618970019642690137449562112;
      case 35 => p, e, t := 100000000000000000000000000000000000, 93, 9903520314283042199192993792;
      case 36 => p, e, t := 1000000000000000000000000000000000000, 96, 79228162514264337593543950336;
      case 37 => p, e, t := 10000000000000000000000000000000000000, 99, 633825300114114700748351602688;
      case 38 => p, e, t := 100000000000000000000000000000000000000, 103, 10141204801825835211973625643008;
    }
  }

  lemma FloatPowerAt(k: nat) returns (p: nat, e: nat, t: nat)
    requires 11 <= k < 39
    ensures FloatPower(k, p, e, t) && t > 0 && TableEntry(k, p, t)
  {
    hide FloatPower, TableEntry;
    if k <= 17 {
      p, e, t := FloatPowerFrom11(k);
    } else if k <= 24 {
      p, e, t := FloatPowerFrom18(k);
    } else if k <= 31 {
      p, e, t := FloatPowerFrom25(k);
    } else {
      p, e, t := FloatPowerFrom32(k);
    }
  }

  // A power of ten whose fives fit the significand is a number of the format.
  lemma ExactPower(f: Format, m: nat, e2: int, mmShift: bool, k: nat)
    requires f.Valid() && ShortensWhole(f, m, e2, mmShift, 1, k) && Pow(5, k) < Pow(2, f.width)
    ensures Integer(m, e2) == Pow(10, k)
  {
    assert OddPart(1) == 1;
    hide Pow, Num, Den, RoundingInterval, Normal, Integer;
    AcceptedOutput(f, m, e2, mmShift, 1, k);
    FitsIsExact(f, m, e2, mmShift, 1, k);
    IntegerBehind(f, m, e2, mmShift, 1, k);
    CancelEqual(Integer(m, e2), Pow(10, k), Den(e2));
  }

  lemma FivesFit(k: nat)
    requires k <= 10
    ensures Pow(5, k) < Pow(2, 24)
  {
    PowExponentMonotone(5, k, 10);
    assert Pow(5, 5) == 3125;
    PowAdd(5, 5, 5);
    FloatTable();
    hide Pow;
  }

  lemma SmallAdjustments(k: nat)
    requires k <= 10
    ensures |FLOAT_ADJUSTMENT| == 39 && FLOAT_ADJUSTMENT[k] == 0
  {
  }

  /** The table is right for every float that prints as a power of ten. */
  lemma FloatAdjusts(m: nat, e2: int, mmShift: bool, k: nat)
    requires ShortensWhole(FLOAT, m, e2, mmShift, 1, k) && k < 39
    ensures k < |FLOAT_ADJUSTMENT| && AdjustmentFor(FLOAT_ADJUSTMENT[k], m, e2, 1, k)
  {
    hide ShortensWhole, Integer;
    if k <= 10 {
      FivesFit(k);
      ExactPower(FLOAT, m, e2, mmShift, k);
      SmallAdjustments(k);
    } else {
      var p, e, t := FloatPowerAt(k);
      FloatWidth();
      hide Pow;
      BelowPower(FLOAT, m, e2, mmShift, k, p, e, t);
    }
  }

  lemma FloatWidth()
    ensures Pow(2, 23) == 0x80_0000 && Pow(2, 24) == 0x100_0000
  {
    FloatTable();
    PowStep(2, 24);
    hide Pow;
  }
}
