// The table that corrects the length of a power of ten in __to_chars for double.  Every
// power of ten is followed to 128 bits, which is enough to tell on which side of it its
// nearest double lies.
module DoubleAdjustment {
  import opened Arith
  import opened Shortest
  import opened ExactFixed
  import opened Ryu
  import opened ShortestPrinting
  import opened Adjustment

  type Bit = n: nat | n < 2

  // Lines 1972-1978, by rows of fifteen entries.
  function Row(r: nat): (row: seq<Bit>)
    requires r < 21
    ensures |row| == if r < 20 then 15 else 9
  {
    match r
    case 0 => [0, 0, 0, 0, 0, 0, 0, 0, 0, 0, 0, 0, 0, 0, 0]
    case 1 => [0, 0, 0, 0, 0, 0, 0, 0, 1, 1, 0, 0, 0, 1, 1]
    case 2 => [0, 1, 0, 1, 1, 1, 0, 1, 1, 1, 0, 0, 0, 0, 0]
    case 3 => [1, 1, 0, 0, 1, 0, 1, 1, 1, 0, 0, 0, 0, 1, 1]
    case 4 => [1, 1, 0, 0, 0, 1, 1, 1, 1, 0, 0, 0, 1, 1, 1]
    case 5 => [1, 0, 1, 0, 1, 0, 1, 1, 0, 0, 0, 0, 1, 1, 1]
    case 6 => [1, 0, 0, 0, 0, 0, 0, 0, 1, 1, 0, 1, 1, 0, 0]
    case 7 => [1, 0, 1, 0, 1, 0, 1, 1, 0, 0, 0, 0, 0, 1, 1]
    case 8 => [1, 0, 0, 1, 1, 1, 1, 1, 0, 1, 0, 1, 1, 0, 1]
    case 9 => [1, 0, 0, 0, 0, 0, 0, 0, 0, 0, 1, 1, 1, 0, 0]
    case 10 => [1, 0, 0, 1, 0, 0, 1, 1, 1, 1, 0, 0, 1, 1, 0]
    case 11 => [1, 1, 0, 1, 1, 0, 1, 0, 0, 0, 1, 0, 0, 0, 1]
    case 12 => [0, 1, 0, 1, 0, 1, 1, 1, 0, 0, 0, 0, 0, 0, 1]
    case 13 => [1, 1, 1, 0, 0, 1, 0, 1, 1, 1, 0, 0, 0, 1, 0]
    case 14 => [1, 1, 1, 1, 1, 1, 0, 1, 0, 1, 1, 0, 0, 0, 1]
    case 15 => [1, 1, 0, 1, 1, 0, 0, 0, 1, 0, 0, 0, 1, 0, 1]
    case 16 => [0, 0, 0, 0, 0, 0, 0, 1, 0, 1, 1, 0, 0, 1, 1]
    case 17 => [1, 0, 0, 0, 1, 0, 1, 0, 0, 0, 0, 0, 1, 1, 0]
    case 18 => [0, 1, 0, 1, 1, 1, 0, 0, 1, 0, 0, 0, 0, 1, 0]
    case 19 => [1, 0, 0, 0, 0, 0, 1, 0, 1, 0, 1, 1, 0, 1, 0]
    case 20 => [0, 0, 0, 0, 1, 1, 0, 1, 0]
  }

  function AdjustmentOf(k: nat): (a: Bit)
    requires k < 309
  {
    Row(k / 15)[k % 15]
  }

  // --- 128 bits of a power of ten ---

  const MANY := 0x100_0000_0000_0000_0000_0000_0000_0000  // 2^120
  const WIDE := 0x1_0000_0000_0000_0000_0000_0000_0000_0000  // 2^128

  // x * 2^s is 10^k * 2^128 but for a relative error of err / 2^120.
  ghost predicate Follows(k: nat, x: nat, s: nat, err: nat)
  {
    var p, z := Pow(10, k) * WIDE, x * Pow(2, s);
    z <= p && p * MANY <= z * (MANY + err)
  }

  lemma FollowsNext(k: nat, x: nat, s: nat, err: nat, y: nat, b: nat, g: nat)
    requires Follows(k, x, s, err) && g == Pow(2, b) && y * g <= x * 1000000000000000 < (y + 1) * g
    requires MANY + err <= y
    ensures Follows(k + 15, y, s + b, err + 1)
  {
    TenTo15();
    PowAdd(10, k, 15);
    PowAdd(2, s, b);
    hide Pow;
    NextBounds(Pow(10, k) * WIDE, x, Pow(2, s), err, y, g);
    MulAssociate(Pow(10, k), 1000000000000000, WIDE);
  }

  lemma TenTo15()
    ensures Pow(10, 15) == 1000000000000000
  {
    assert Pow(10, 5) == 100000;
    PowAdd(10, 5, 5);
    PowAdd(10, 10, 5);
  }

  lemma NextBounds(p: nat, x: nat, z: nat, err: nat, y: nat, g: nat)
    requires x * z <= p && p * MANY <= x * z * (MANY + err) && MANY + err <= y
    requires y * g <= x * 1000000000000000 < (y + 1) * g
    ensures y * (z * g) <= p * 1000000000000000
    ensures p * 1000000000000000 * MANY <= y * (z * g) * (MANY + err + 1)
  {
    LowerBound(p, x, z, y, g, 1000000000000000);
    UpperBound(p, x, z, MANY + err, y, g, 1000000000000000);
  }

  lemma LowerBound(p: nat, x: nat, z: nat, y: nat, g: nat, n: nat)
    requires x * z <= p && y * g <= x * n
    ensures y * (z * g) <= p * n
  {
    MulMonotone(y * g, x * n, z, z);
    MulMonotone(x * z, p, n, n);
    MulAssociate(y, g, z);
    MulAssociate(x, n, z);
    MulAssociate(x, z, n);
  }

  lemma UpperBound(p: nat, x: nat, z: nat, e: nat, y: nat, g: nat, n: nat)
    requires p * MANY <= x * z * e && x * n <= (y + 1) * g && e <= y
    ensures p * n * MANY <= y * (z * g) * (e + 1)
  {
    MulAssociate(p, n, MANY);
    MulAssociate(p, MANY, n);
    MulMonotone(p * MANY, x * z * e, n, n);
    MulInterchange(x, n, z, e);
    MulAssociate(x * z, e, n);
    MulMonotone(x * n, (y + 1) * g, z * e, z * e);
    MulInterchange(y + 1, g, e, z);
    DistributeAdd(y, 1, e);
    MulMonotone((y + 1) * e, y * (e + 1), z * g, z * g);
    MulAssociate(y, e + 1, z * g);
    MulAssociate(y, z * g, e + 1);
  }

  // --- on which side the nearest double lies ---

  // v is q * T and a rest that stays clear of zero, of T / 2 and of T, T being 2^75 * g,
  // whatever an error of 2^17 * g may add.
  predicate Clear(v: nat, q: nat, g: nat, below: bool)
  {
    var rest, whole, error := v - q * (0x800_0000_0000_0000_0000 * g), 0x800_0000_0000_0000_0000 * g, 0x2_0000 * g;
    && 0x10_0000_0000_0000 <= q && q + 1 < 0x20_0000_0000_0000
    && if below then 0 < rest && 2 * (rest + error) < whole else 2 * rest > whole && rest + error < whole
  }

  ghost predicate Settled(k: nat, below: bool)
  {
    exists e: nat, t: nat :: Straddles(DOUBLE, Pow(10, k), e, t) && t > 0 && NearerBelow(Pow(10, k), t) == below
  }

  // The error that the relative one amounts to.
  lemma SmallError(p: nat, v: nat, z: nat, err: nat, g: nat)
    requires v * z <= p && p * MANY <= v * z * (MANY + err) && err < 512 && v < WIDE * g && z > 0
    ensures p < (v + 0x2_0000 * g) * z
  {
    var error := 0x2_0000 * g;
    DistributeAdd(v, error, z);
    DistributeAdd(MANY, err, v * z);
    if p >= (v + error) * z {
      MulMonotone((v + error) * z, p, MANY, MANY);
      MulAssociate(v * z + error * z, 1, MANY);
      DistributeAdd(v * z, error * z, MANY);
      TooSmall(v, z, err, g);
    }
  }

  lemma TooSmall(v: nat, z: nat, err: nat, g: nat)
    requires err < 512 && v < WIDE * g && z > 0
    ensures err * (v * z) < 0x2_0000 * g * z * MANY
  {
    MulMonotone(err, 512, v, v);
    MulAssociate(err, v, z);
    CompareScaled(err * v, 512 * (WIDE * g), z);
    MulAssociate(0x2_0000 * g, z, MANY);
    MulAssociate(0x2_0000 * g, MANY, z);
  }

  // From 10^k * 2^128 to 10^k: tw is the gap there, in the same units.
  lemma QuotientSettles(p: nat, t: nat, w: nat, v: nat, z: nat, q: nat, g: nat, below: bool)
    requires t > 0 && w > 0 && z > 0 && v * z <= p * w && p * w < (v + 0x2_0000 * g) * z && Clear(v, q, g, below)
    requires t * w == 0x800_0000_0000_0000_0000 * g * z
    ensures p / t == q && p % t != 0 && 2 * (p % t) != t && (2 * (p % t) < t <==> below)
  {
    var whole, error := 0x800_0000_0000_0000_0000 * g, 0x2_0000 * g;
    var rest := v - q * whole;
    MulAssociate(q, t, w);
    MulAssociate(q, whole, z);
    DistributeSub(p, q * t, w);
    DistributeSub(v, q * whole, z);
    DistributeSub(v + error, q * whole, z);
    RestSettles(p - q * t, t, w, rest, error, whole, z, below);
    DivUnique(p, t, q, p - q * t);
  }

  lemma RestSettles(r: int, t: nat, w: nat, rest: int, error: nat, whole: nat, z: nat, below: bool)
    requires w > 0 && z > 0 && t * w == whole * z && rest * z <= r * w < (rest + error) * z
    requires if below then 0 < rest && 2 * (rest + error) < whole else 2 * rest > whole && rest + error < whole
    ensures 0 < r < t && 2 * r != t && (2 * r < t <==> below)
  {
    MulAtLeast(if rest > 0 then rest else 1, z);
    MulAssociate(2, r, w);
    MulAssociate(2, rest, z);
    MulAssociate(2, rest + error, z);
    CompareScaled(0, r, w);
    CompareScaled(r, t, w);
    CompareScaled(2 * r, t, w);
    CompareScaled(t, 2 * r, w);
    CompareScaled(rest + error, whole, z);
    CompareScaled(2 * (rest + error), whole, z);
    CompareScaled(whole, 2 * rest, z);
  }

  // One more digit each, from 128 bits of 10^k0 and up to 10^14.
  lemma Entry(k0: nat, x: nat, s: nat, err: nat, j: nat, p: nat, h: nat, g: nat, q: nat, below: bool)
    requires Follows(k0, x, s, err) && err < 512 && p == Pow(10, j) && g == Pow(2, h) && s + h >= 53
    requires Clear(x * p, q, g, below)
    ensures Settled(k0 + j, below)
  {
    hide Pow, Follows, Clear;
    ClearPower(k0, x, s, err, j, p, h, g, q, below);
    var e: nat := s + h - 53;
    QuotientSettles(Pow(10, k0 + j), Pow(2, e), WIDE, x * p, Pow(2, s), q, g, below);
    DoubleWidth();
    assert Straddles(DOUBLE, Pow(10, k0 + j), e, Pow(2, e));
  }

  lemma ClearPower(k0: nat, x: nat, s: nat, err: nat, j: nat, p: nat, h: nat, g: nat, q: nat, below: bool)
    requires Follows(k0, x, s, err) && err < 512 && p == Pow(10, j) && g == Pow(2, h) && s + h >= 53
    requires Clear(x * p, q, g, below)
    ensures 0 <= x * p && x * p * Pow(2, s) <= Pow(10, k0 + j) * WIDE
    ensures Pow(10, k0 + j) * WIDE < (x * p + 0x2_0000 * g) * Pow(2, s)
    ensures Pow(2, s + h - 53) * WIDE == 0x800_0000_0000_0000_0000 * g * Pow(2, s)
    ensures 0x10_0000_0000_0000 <= q && q + 1 < 0x20_0000_0000_0000
  {
    hide Pow;
    var w, z := Pow(10, k0) * WIDE, Pow(2, s);
    MulMonotone(0, x, 0, p);
    ScaledFollows(w, x, z, err, p);
    ClearBound(x * p, q, g, below);
    SmallError(w * p, x * p, z, err, g);
    PowAdd(10, k0, j);
    MulAssociate(Pow(10, k0), p, WIDE);
    MulAssociate(Pow(10, k0), WIDE, p);
    GapThere(s, h);
  }

  lemma ClearBound(v: nat, q: nat, g: nat, below: bool)
    requires Clear(v, q, g, below)
    ensures v < WIDE * g
  {
    MulMonotone(q + 1, 0x20_0000_0000_0000, 0x800_0000_0000_0000_0000 * g, 0x800_0000_0000_0000_0000 * g);
    DistributeAdd(q, 1, 0x800_0000_0000_0000_0000 * g);
  }

  lemma ScaledFollows(w: nat, x: nat, z: nat, err: nat, p: nat)
    requires x * z <= w && w * MANY <= x * z * (MANY + err)
    ensures x * p * z <= w * p && w * p * MANY <= x * p * z * (MANY + err)
  {
    MulMonotone(x * z, w, p, p);
    MulAssociate(x, p, z);
    MulAssociate(x, z, p);
    MulMonotone(w * MANY, x * z * (MANY + err), p, p);
    MulAssociate(w, p, MANY);
    MulAssociate(w, MANY, p);
    MulAssociate(x * z, p, MANY + err);
    MulAssociate(x * z, MANY + err, p);
  }

  lemma GapThere(s: nat, h: nat)
    requires s + h >= 53
    ensures Pow(2, s + h - 53) * WIDE == 0x800_0000_0000_0000_0000 * Pow(2, h) * Pow(2, s)
  {
    hide Pow;
    Pow2At128();
    TwoTo75();
    PowAdd(2, s + h - 53, 128);
    PowAdd(2, s, h);
    PowAdd(2, s + h, 75);
    MulAssociate(0x800_0000_0000_0000_0000, Pow(2, h), Pow(2, s));
  }

  lemma TwoTo75()
    ensures Pow(2, 75) == 0x800_0000_0000_0000_0000
  {
    hide Pow;
    Pow2At53();
    Pow2At21();
    PowStep(2, 22);
    PowAdd(2, 53, 22);
  }

  lemma DoubleWidth()
    ensures Pow(2, 52) == 0x10_0000_0000_0000 && Pow(2, 53) == 0x20_0000_0000_0000
  {
    Pow2At53();
    hide Pow;
    PowStep(2, 53);
  }

  // --- every entry ---

  lemma SomeTens()
    ensures Pow(10, 0) == 1 && Pow(10, 1) == 10 && Pow(10, 2) == 100
    ensures Pow(10, 3) == 1000 && Pow(10, 4) == 10000 && Pow(10, 5) == 100000
    ensures Pow(10, 6) == 1000000 && Pow(10, 7) == 10000000 && Pow(10, 8) == 100000000
    ensures Pow(10, 9) == 1000000000 && Pow(10, 10) == 10000000000 && Pow(10, 11) == 100000000000
    ensures Pow(10, 12) == 1000000000000 && Pow(10, 13) == 10000000000000 && Pow(10, 14) == 100000000000000
  {
    SmallPowers();
    hide Pow;
    PowStep(10, 1);
    PowStep(10, 2);
    PowStep(10, 3);
    PowStep(10, 4);
    PowStep(10, 5);
    PowStep(10, 6);
    PowStep(10, 7);
    PowStep(10, 8);
    PowStep(10, 9);
    PowStep(10, 10);
    PowStep(10, 11);
    PowStep(10, 12);
    PowStep(10, 13);
    PowStep(10, 14);
  }

  lemma SmallPowers()
    ensures Pow(10, 0) == 1 && Pow(2, 0) == 1 && Pow(2, 1) == 2 && Pow(2, 2) == 4 && Pow(2, 3) == 8
  {
  }

  lemma SomeTwos()
    ensures Pow(2, 0) == 0x1 && Pow(2, 3) == 0x8 && Pow(2, 4) == 0x10
    ensures Pow(2, 6) == 0x40 && Pow(2, 7) == 0x80 && Pow(2, 10) == 0x400
    ensures Pow(2, 13) == 0x2000 && Pow(2, 14) == 0x4000 && Pow(2, 16) == 0x1_0000
    ensures Pow(2, 17) == 0x2_0000 && Pow(2, 20) == 0x10_0000 && Pow(2, 23) == 0x80_0000
    ensures Pow(2, 24) == 0x100_0000 && Pow(2, 26) == 0x400_0000 && Pow(2, 27) == 0x800_0000
    ensures Pow(2, 29) == 0x2000_0000 && Pow(2, 30) == 0x4000_0000 && Pow(2, 33) == 0x2_0000_0000
    ensures Pow(2, 34) == 0x4_0000_0000 && Pow(2, 36) == 0x10_0000_0000 && Pow(2, 37) == 0x20_0000_0000
    ensures Pow(2, 39) == 0x80_0000_0000 && Pow(2, 40) == 0x100_0000_0000 && Pow(2, 43) == 0x800_0000_0000
    ensures Pow(2, 44) == 0x1000_0000_0000 && Pow(2, 46) == 0x4000_0000_0000 && Pow(2, 47) == 0x8000_0000_0000
    ensures Pow(2, 49) == 0x2_0000_0000_0000 && Pow(2, 50) == 0x4_0000_0000_0000
  {
    SmallPowers();
    hide Pow;
    PowAdd(2, 3, 1);
    PowAdd(2, 4, 2);
    PowAdd(2, 6, 1);
    PowAdd(2, 7, 3);
    PowAdd(2, 10, 3);
    PowAdd(2, 13, 1);
    PowAdd(2, 14, 2);
    PowAdd(2, 16, 1);
    PowAdd(2, 17, 3);
    PowAdd(2, 20, 3);
    PowAdd(2, 23, 1);
    PowAdd(2, 24, 2);
    PowAdd(2, 26, 1);
    PowAdd(2, 27, 2);
    PowAdd(2, 29, 1);
    PowAdd(2, 30, 3);
    PowAdd(2, 33, 1);
    PowAdd(2, 34, 2);
    PowAdd(2, 36, 1);
    PowAdd(2, 37, 2);
    PowAdd(2, 39, 1);
    PowAdd(2, 40, 3);
    PowAdd(2, 43, 1);
    PowAdd(2, 44, 2);
    PowAdd(2, 46, 1);
    PowAdd(2, 47, 2);
    PowAdd(2, 49, 1);
  }

  lemma FirstFollows()
    ensures Follows(15, 302231454903657293676544000000000000000, 50, 0)
  {
    hide Pow;
    TenTo15();
    SomeTwos();
  }

  lemma Powers24To29()
    ensures forall j: nat :: 9 <= j <= 14 ==> Settled(15 + j, Row(1)[j] == 1)
    ensures Follows(30, 268435456000000000000000000000000000000, 100, 1)
  {
    hide Pow, Follows, Settled;
    SomeTens();
    SomeTwos();
    FirstFollows();
    var x := 302231454903657293676544000000000000000;
    Entry(15, x, 50, 0, 9, 1000000000, 30, 0x4000_0000, 7450580596923828, true);
    Entry(15, x, 50, 0, 10, 10000000000, 34, 0x4_0000_0000, 4656612873077392, false);
    Entry(15, x, 50, 0, 11, 100000000000, 37, 0x20_0000_0000, 5820766091346740, false);
    Entry(15, x, 50, 0, 12, 1000000000000, 40, 0x100_0000_0000, 7275957614183425, false);
    Entry(15, x, 50, 0, 13, 10000000000000, 44, 0x1000_0000_0000, 4547473508864641, true);
    Entry(15, x, 50, 0, 14, 100000000000000, 47, 0x8000_0000_0000, 5684341886080801, true);
    FollowsNext(15, x, 50, 0, 268435456000000000000000000000000000000, 50, 0x4_0000_0000_0000);
  }

  lemma Powers30To44()
    ensures forall j: nat :: 0 <= j <= 14 ==> Settled(30 + j, Row(2)[j] == 1)
    ensures Follows(45, 238418579101562500000000000000000000000, 150, 2)
  {
    hide Pow, Follows, Settled;
    SomeTens();
    SomeTwos();
    Powers24To29();
    var x := 268435456000000000000000000000000000000;
    Entry(30, x, 100, 1, 0, 1, 0, 0x1, 7105427357601001, false);
    Entry(30, x, 100, 1, 1, 10, 3, 0x8, 8881784197001252, true);
    Entry(30, x, 100, 1, 2, 100, 7, 0x80, 5551115123125782, false);
    Entry(30, x, 100, 1, 3, 1000, 10, 0x400, 6938893903907228, true);
    Entry(30, x, 100, 1, 4, 10000, 13, 0x2000, 8673617379884035, true);
    Entry(30, x, 100, 1, 5, 100000, 17, 0x2_0000, 5421010862427522, true);
    Entry(30, x, 100, 1, 6, 1000000, 20, 0x10_0000, 6776263578034402, false);
    Entry(30, x, 100, 1, 7, 10000000, 23, 0x80_0000, 8470329472543003, true);
    Entry(30, x, 100, 1, 8, 100000000, 27, 0x800_0000, 5293955920339377, true);
    Entry(30, x, 100, 1, 9, 1000000000, 30, 0x4000_0000, 6617444900424221, true);
    Entry(30, x, 100, 1, 10, 10000000000, 33, 0x2_0000_0000, 8271806125530276, false);
    Entry(30, x, 100, 1, 11, 100000000000, 37, 0x20_0000_0000, 5169878828456422, false);
    Entry(30, x, 100, 1, 12, 1000000000000, 40, 0x100_0000_0000, 6462348535570528, false);
    Entry(30, x, 100, 1, 13, 10000000000000, 43, 0x800_0000_0000, 8077935669463160, false);
    Entry(30, x, 100, 1, 14, 100000000000000, 47, 0x8000_0000_0000, 5048709793414475, false);
    FollowsNext(30, x, 100, 1, 238418579101562500000000000000000000000, 50, 0x4_0000_0000_0000);
  }

  lemma Powers45To59()
    ensures forall j: nat :: 0 <= j <= 14 ==> Settled(45 + j, Row(3)[j] == 1)
    ensures Follows(60, 211758236813575084767080625169910490512, 200, 3)
  {
    hide Pow, Follows, Settled;
    SomeTens();
    SomeTwos();
    Powers30To44();
    var x := 238418579101562500000000000000000000000;
    Entry(45, x, 150, 2, 0, 1, 0, 0x1, 6310887241768094, true);
    Entry(45, x, 150, 2, 1, 10, 3, 0x8, 7888609052210118, true);
    Entry(45, x, 150, 2, 2, 100, 7, 0x80, 4930380657631323, false);
    Entry(45, x, 150, 2, 3, 1000, 10, 0x400, 6162975822039154, false);
    Entry(45, x, 150, 2, 4, 10000, 13, 0x2000, 7703719777548943, true);
    Entry(45, x, 150, 2, 5, 100000, 17, 0x2_0000, 4814824860968089, false);
    Entry(45, x, 150, 2, 6, 1000000, 20, 0x10_0000, 6018531076210112, true);
    Entry(45, x, 150, 2, 7, 10000000, 23, 0x80_0000, 7523163845262640, true);
    Entry(45, x, 150, 2, 8, 100000000, 27, 0x800_0000, 4701977403289150, true);
    Entry(45, x, 150, 2, 9, 1000000000, 30, 0x4000_0000, 5877471754111437, false);
    Entry(45, x, 150, 2, 10, 10000000000, 33, 0x2_0000_0000, 7346839692639296, false);
    Entry(45, x, 150, 2, 11, 100000000000, 37, 0x20_0000_0000, 4591774807899560, false);
    Entry(45, x, 150, 2, 12, 1000000000000, 40, 0x100_0000_0000, 5739718509874450, false);
    Entry(45, x, 150, 2, 13, 10000000000000, 43, 0x800_0000_0000, 7174648137343063, true);
    Entry(45, x, 150, 2, 14, 100000000000000, 46, 0x4000_0000_0000, 8968310171678829, true);
    FollowsNext(45, x, 150, 2, 211758236813575084767080625169910490512, 50, 0x4_0000_0000_0000);
  }

  lemma Powers60To74()
    ensures forall j: nat :: 0 <= j <= 14 ==> Settled(60 + j, Row(4)[j] == 1)
    ensures Follows(75, 188079096131566001274997845955559308450, 250, 4)
  {
    hide Pow, Follows, Settled;
    SomeTens();
    SomeTwos();
    Powers45To59();
    var x := 211758236813575084767080625169910490512;
    Entry(60, x, 200, 3, 0, 1, 0, 0x1, 5605193857299268, true);
    Entry(60, x, 200, 3, 1, 10, 3, 0x8, 7006492321624085, true);
    Entry(60, x, 200, 3, 2, 100, 6, 0x40, 8758115402030106, false);
    Entry(60, x, 200, 3, 3, 1000, 10, 0x400, 5473822126268816, false);
    Entry(60, x, 200, 3, 4, 10000, 13, 0x2000, 6842277657836020, false);
    Entry(60, x, 200, 3, 5, 100000, 16, 0x1_0000, 8552847072295026, true);
    Entry(60, x, 200, 3, 6, 1000000, 20, 0x10_0000, 5345529420184391, true);
    Entry(60, x, 200, 3, 7, 10000000, 23, 0x80_0000, 6681911775230489, true);
    Entry(60, x, 200, 3, 8, 100000000, 26, 0x400_0000, 8352389719038111, true);
    Entry(60, x, 200, 3, 9, 1000000000, 30, 0x4000_0000, 5220243574398819, false);
    Entry(60, x, 200, 3, 10, 10000000000, 33, 0x2_0000_0000, 6525304467998524, false);
    Entry(60, x, 200, 3, 11, 100000000000, 36, 0x10_0000_0000, 8156630584998155, false);
    Entry(60, x, 200, 3, 12, 1000000000000, 40, 0x100_0000_0000, 5097894115623847, true);
    Entry(60, x, 200, 3, 13, 10000000000000, 43, 0x800_0000_0000, 6372367644529809, true);
    Entry(60, x, 200, 3, 14, 100000000000000, 46, 0x4000_0000_0000, 7965459555662261, true);
    FollowsNext(60, x, 200, 3, 188079096131566001274997845955559308450, 50, 0x4_0000_0000_0000);
  }

  lemma Powers75To89()
    ensures forall j: nat :: 0 <= j <= 14 ==> Settled(75 + j, Row(5)[j] == 1)
    ensures Follows(90, 334095588761524455767567058393935234850, 299, 5)
  {
    hide Pow, Follows, Settled;
    SomeTens();
    SomeTwos();
    Powers60To74();
    var x := 188079096131566001274997845955559308450;
    Entry(75, x, 250, 4, 0, 1, 0, 0x1, 4978412222288913, true);
    Entry(75, x, 250, 4, 1, 10, 3, 0x8, 6223015277861141, false);
    Entry(75, x, 250, 4, 2, 100, 6, 0x40, 7778769097326427, true);
    Entry(75, x, 250, 4, 3, 1000, 10, 0x400, 4861730685829016, false);
    Entry(75, x, 250, 4, 4, 10000, 13, 0x2000, 6077163357286271, true);
    Entry(75, x, 250, 4, 5, 100000, 16, 0x1_0000, 7596454196607838, false);
    Entry(75, x, 250, 4, 6, 1000000, 20, 0x10_0000, 4747783872879899, true);
    Entry(75, x, 250, 4, 7, 10000000, 23, 0x80_0000, 5934729841099874, true);
    Entry(75, x, 250, 4, 8, 100000000, 26, 0x400_0000, 7418412301374842, false);
    Entry(75, x, 250, 4, 9, 1000000000, 30, 0x4000_0000, 4636507688359276, false);
    Entry(75, x, 250, 4, 10, 10000000000, 33, 0x2_0000_0000, 5795634610449095, false);
    Entry(75, x, 250, 4, 11, 100000000000, 36, 0x10_0000_0000, 7244543263061369, false);
    Entry(75, x, 250, 4, 12, 1000000000000, 40, 0x100_0000_0000, 4527839539413356, true);
    Entry(75, x, 250, 4, 13, 10000000000000, 43, 0x800_0000_0000, 5659799424266695, true);
    Entry(75, x, 250, 4, 14, 100000000000000, 46, 0x4000_0000_0000, 7074749280333369, true);
    FollowsNext(75, x, 250, 4, 334095588761524455767567058393935234850, 49, 0x2_0000_0000_0000);
  }

  lemma Powers90To104()
    ensures forall j: nat :: 0 <= j <= 14 ==> Settled(90 + j, Row(6)[j] == 1)
    ensures Follows(105, 296736492054993710858538820923811161067, 349, 6)
  {
    hide Pow, Follows, Settled;
    SomeTens();
    SomeTwos();
    Powers75To89();
    var x := 334095588761524455767567058393935234850;
    Entry(90, x, 299, 5, 0, 1, 0, 0x1, 8843436600416711, true);
    Entry(90, x, 299, 5, 1, 10, 4, 0x10, 5527147875260444, false);
    Entry(90, x, 299, 5, 2, 100, 7, 0x80, 6908934844075555, false);
    Entry(90, x, 299, 5, 3, 1000, 10, 0x400, 8636168555094444, false);
    Entry(90, x, 299, 5, 4, 10000, 14, 0x4000, 5397605346934027, false);
    Entry(90, x, 299, 5, 5, 100000, 17, 0x2_0000, 6747006683667534, false);
    Entry(90, x, 299, 5, 6, 1000000, 20, 0x10_0000, 8433758354584418, false);
    Entry(90, x, 299, 5, 7, 10000000, 24, 0x100_0000, 5271098971615261, false);
    Entry(90, x, 299, 5, 8, 100000000, 27, 0x800_0000, 6588873714519077, true);
    Entry(90, x, 299, 5, 9, 1000000000, 30, 0x4000_0000, 8236092143148846, true);
    Entry(90, x, 299, 5, 10, 10000000000, 34, 0x4_0000_0000, 5147557589468028, false);
    Entry(90, x, 299, 5, 11, 100000000000, 37, 0x20_0000_0000, 6434446986835036, true);
    Entry(90, x, 299, 5, 12, 1000000000000, 40, 0x100_0000_0000, 8043058733543795, true);
    Entry(90, x, 299, 5, 13, 10000000000000, 44, 0x1000_0000_0000, 5026911708464871, false);
    Entry(90, x, 299, 5, 14, 100000000000000, 47, 0x8000_0000_0000, 6283639635581089, false);
    FollowsNext(90, x, 299, 5, 296736492054993710858538820923811161067, 50, 0x4_0000_0000_0000);
  }

  lemma Powers105To119()
    ensures forall j: nat :: 0 <= j <= 14 ==> Settled(105 + j, Row(7)[j] == 1)
    ensures Follows(120, 263554948580763080608714351281750475190, 399, 7)
  {
    hide Pow, Follows, Settled;
    SomeTens();
    SomeTwos();
    Powers90To104();
    var x := 296736492054993710858538820923811161067;
    Entry(105, x, 349, 6, 0, 1, 0, 0x1, 7854549544476362, true);
    Entry(105, x, 349, 6, 1, 10, 4, 0x10, 4909093465297726, false);
    Entry(105, x, 349, 6, 2, 100, 7, 0x80, 6136366831622158, true);
    Entry(105, x, 349, 6, 3, 1000, 10, 0x400, 7670458539527697, false);
    Entry(105, x, 349, 6, 4, 10000, 14, 0x4000, 4794036587204811, true);
    Entry(105, x, 349, 6, 5, 100000, 17, 0x2_0000, 5992545734006013, false);
    Entry(105, x, 349, 6, 6, 1000000, 20, 0x10_0000, 7490682167507517, true);
    Entry(105, x, 349, 6, 7, 10000000, 24, 0x100_0000, 4681676354692198, true);
    Entry(105, x, 349, 6, 8, 100000000, 27, 0x800_0000, 5852095443365247, false);
    Entry(105, x, 349, 6, 9, 1000000000, 30, 0x4000_0000, 7315119304206559, false);
    Entry(105, x, 349, 6, 10, 10000000000, 34, 0x4_0000_0000, 4571949565129099, false);
    Entry(105, x, 349, 6, 11, 100000000000, 37, 0x20_0000_0000, 5714936956411374, false);
    Entry(105, x, 349, 6, 12, 1000000000000, 40, 0x100_0000_0000, 7143671195514218, false);
    Entry(105, x, 349, 6, 13, 10000000000000, 43, 0x800_0000_0000, 8929588994392773, true);
    Entry(105, x, 349, 6, 14, 100000000000000, 47, 0x8000_0000_0000, 5580993121495483, true);
    FollowsNext(105, x, 349, 6, 263554948580763080608714351281750475190, 50, 0x4_0000_0000_0000);
  }

  lemma Powers120To134()
    ensures forall j: nat :: 0 <= j <= 14 ==> Settled(120 + j, Row(8)[j] == 1)
    ensures Follows(135, 234083817734609916357792470692933828493, 449, 8)
  {
    hide Pow, Follows, Settled;
    SomeTens();
    SomeTwos();
    Powers105To119();
    var x := 263554948580763080608714351281750475190;
    Entry(120, x, 399, 7, 0, 1, 0, 0x1, 6976241401869354, true);
    Entry(120, x, 399, 7, 1, 10, 3, 0x8, 8720301752336692, false);
    Entry(120, x, 399, 7, 2, 100, 7, 0x80, 5450188595210432, false);
    Entry(120, x, 399, 7, 3, 1000, 10, 0x400, 6812735744013041, true);
    Entry(120, x, 399, 7, 4, 10000, 13, 0x2000, 8515919680016301, true);
    Entry(120, x, 399, 7, 5, 100000, 17, 0x2_0000, 5322449800010188, true);
    Entry(120, x, 399, 7, 6, 1000000, 20, 0x10_0000, 6653062250012735, true);
    Entry(120, x, 399, 7, 7, 10000000, 23, 0x80_0000, 8316327812515919, true);
    Entry(120, x, 399, 7, 8, 100000000, 27, 0x800_0000, 5197704882822449, false);
    Entry(120, x, 399, 7, 9, 1000000000, 30, 0x4000_0000, 6497131103528062, true);
    Entry(120, x, 399, 7, 10, 10000000000, 33, 0x2_0000_0000, 8121413879410077, false);
    Entry(120, x, 399, 7, 11, 100000000000, 37, 0x20_0000_0000, 5075883674631298, true);
    Entry(120, x, 399, 7, 12, 1000000000000, 40, 0x100_0000_0000, 6344854593289123, true);
    Entry(120, x, 399, 7, 13, 10000000000000, 43, 0x800_0000_0000, 7931068241611403, false);
    Entry(120, x, 399, 7, 14, 100000000000000, 47, 0x8000_0000_0000, 4956917651007127, true);
    FollowsNext(120, x, 399, 7, 234083817734609916357792470692933828493, 50, 0x4_0000_0000_0000);
  }

  lemma Powers135To149()
    ensures forall j: nat :: 0 <= j <= 14 ==> Settled(135 + j, Row(9)[j] == 1)
    ensures Follows(150, 207908195312897984370608091613638127353, 499, 9)
  {
    hide Pow, Follows, Settled;
    SomeTens();
    SomeTwos();
    Powers120To134();
    var x := 234083817734609916357792470692933828493;
    Entry(135, x, 449, 8, 0, 1, 0, 0x1, 6196147063758909, true);
    Entry(135, x, 449, 8, 1, 10, 3, 0x8, 7745183829698636, false);
    Entry(135, x, 449, 8, 2, 100, 7, 0x80, 4840739893561647, false);
    Entry(135, x, 449, 8, 3, 1000, 10, 0x400, 6050924866952059, false);
    Entry(135, x, 449, 8, 4, 10000, 13, 0x2000, 7563656083690074, false);
    Entry(135, x, 449, 8, 5, 100000, 17, 0x2_0000, 4727285052306296, false);
    Entry(135, x, 449, 8, 6, 1000000, 20, 0x10_0000, 5909106315382870, false);
    Entry(135, x, 449, 8, 7, 10000000, 23, 0x80_0000, 7386382894228588, false);
    Entry(135, x, 449, 8, 8, 100000000, 27, 0x800_0000, 4616489308892867, false);
    Entry(135, x, 449, 8, 9, 1000000000, 30, 0x4000_0000, 5770611636116084, false);
    Entry(135, x, 449, 8, 10, 10000000000, 33, 0x2_0000_0000, 7213264545145106, true);
    Entry(135, x, 449, 8, 11, 100000000000, 37, 0x20_0000_0000, 4508290340715691, true);
    Entry(135, x, 449, 8, 12, 1000000000000, 40, 0x100_0000_0000, 5635362925894614, true);
    Entry(135, x, 449, 8, 13, 10000000000000, 43, 0x800_0000_0000, 7044203657368267, false);
    Entry(135, x, 449, 8, 14, 100000000000000, 46, 0x4000_0000_0000, 8805254571710334, false);
    FollowsNext(135, x, 449, 8, 207908195312897984370608091613638127353, 50, 0x4_0000_0000_0000);
  }

  lemma Powers150To164()
    ensures forall j: nat :: 0 <= j <= 14 ==> Settled(150 + j, Row(10)[j] == 1)
    ensures Follows(165, 184659572355714715615178615249936668754, 549, 10)
  {
    hide Pow, Follows, Settled;
    SomeTens();
    SomeTwos();
    Powers135To149();
    var x := 207908195312897984370608091613638127353;
    Entry(150, x, 499, 9, 0, 1, 0, 0x1, 5503284107318959, true);
    Entry(150, x, 499, 9, 1, 10, 3, 0x8, 6879105134148698, false);
    Entry(150, x, 499, 9, 2, 100, 6, 0x40, 8598881417685873, false);
    Entry(150, x, 499, 9, 3, 1000, 10, 0x400, 5374300886053671, true);
    Entry(150, x, 499, 9, 4, 10000, 13, 0x2000, 6717876107567088, false);
    Entry(150, x, 499, 9, 5, 100000, 16, 0x1_0000, 8397345134458860, false);
    Entry(150, x, 499, 9, 6, 1000000, 20, 0x10_0000, 5248340709036788, true);
    Entry(150, x, 499, 9, 7, 10000000, 23, 0x80_0000, 6560425886295985, true);
    Entry(150, x, 499, 9, 8, 100000000, 26, 0x400_0000, 8200532357869981, true);
    Entry(150, x, 499, 9, 9, 1000000000, 30, 0x4000_0000, 5125332723668738, true);
    Entry(150, x, 499, 9, 10, 10000000000, 33, 0x2_0000_0000, 6406665904585922, false);
    Entry(150, x, 499, 9, 11, 100000000000, 36, 0x10_0000_0000, 8008332380732403, false);
    Entry(150, x, 499, 9, 12, 1000000000000, 40, 0x100_0000_0000, 5005207737957752, true);
    Entry(150, x, 499, 9, 13, 10000000000000, 43, 0x800_0000_0000, 6256509672447190, true);
    Entry(150, x, 499, 9, 14, 100000000000000, 46, 0x4000_0000_0000, 7820637090558987, false);
    FollowsNext(150, x, 499, 9, 184659572355714715615178615249936668754, 50, 0x4_0000_0000_0000);
  }

  lemma Powers165To179()
    ensures forall j: nat :: 0 <= j <= 14 ==> Settled(165 + j, Row(11)[j] == 1)
    ensures Follows(180, 328021294314799255458543241647960309055, 598, 11)
  {
    hide Pow, Follows, Settled;
    SomeTens();
    SomeTwos();
    Powers150To164();
    var x := 184659572355714715615178615249936668754;
    Entry(165, x, 549, 10, 0, 1, 0, 0x1, 4887898181599367, true);
    Entry(165, x, 549, 10, 1, 10, 3, 0x8, 6109872726999209, true);
    Entry(165, x, 549, 10, 2, 100, 6, 0x40, 7637340908749011, false);
    Entry(165, x, 549, 10, 3, 1000, 10, 0x400, 4773338067968132, true);
    Entry(165, x, 549, 10, 4, 10000, 13, 0x2000, 5966672584960165, true);
    Entry(165, x, 549, 10, 5, 100000, 16, 0x1_0000, 7458340731200206, false);
    Entry(165, x, 549, 10, 6, 1000000, 20, 0x10_0000, 4661462957000129, true);
    Entry(165, x, 549, 10, 7, 10000000, 23, 0x80_0000, 5826828696250161, false);
    Entry(165, x, 549, 10, 8, 100000000, 26, 0x400_0000, 7283535870312701, false);
    Entry(165, x, 549, 10, 9, 1000000000, 30, 0x4000_0000, 4552209918945438, false);
    Entry(165, x, 549, 10, 10, 10000000000, 33, 0x2_0000_0000, 5690262398681798, true);
    Entry(165, x, 549, 10, 11, 100000000000, 36, 0x10_0000_0000, 7112827998352247, false);
    Entry(165, x, 549, 10, 12, 1000000000000, 39, 0x80_0000_0000, 8891034997940309, false);
    Entry(165, x, 549, 10, 13, 10000000000000, 43, 0x800_0000_0000, 5556896873712693, false);
    Entry(165, x, 549, 10, 14, 100000000000000, 46, 0x4000_0000_0000, 6946121092140867, true);
    FollowsNext(165, x, 549, 10, 328021294314799255458543241647960309055, 49, 0x2_0000_0000_0000);
  }

  lemma Powers180To194()
    ensures forall j: nat :: 0 <= j <= 14 ==> Settled(180 + j, Row(12)[j] == 1)
    ensures Follows(195, 291341434812508075909803332635270853017, 648, 12)
  {
    hide Pow, Follows, Settled;
    SomeTens();
    SomeTwos();
    Powers165To179();
    var x := 328021294314799255458543241647960309055;
    Entry(180, x, 598, 11, 0, 1, 0, 0x1, 8682651365176083, false);
    Entry(180, x, 598, 11, 1, 10, 4, 0x10, 5426657103235052, true);
    Entry(180, x, 598, 11, 2, 100, 7, 0x80, 6783321379043815, false);
    Entry(180, x, 598, 11, 3, 1000, 10, 0x400, 8479151723804769, true);
    Entry(180, x, 598, 11, 4, 10000, 14, 0x4000, 5299469827377980, false);
    Entry(180, x, 598, 11, 5, 100000, 17, 0x2_0000, 6624337284222476, true);
    Entry(180, x, 598, 11, 6, 1000000, 20, 0x10_0000, 8280421605278095, true);
    Entry(180, x, 598, 11, 7, 10000000, 24, 0x100_0000, 5175263503298809, true);
    Entry(180, x, 598, 11, 8, 100000000, 27, 0x800_0000, 6469079379123511, false);
    Entry(180, x, 598, 11, 9, 1000000000, 30, 0x4000_0000, 8086349223904389, false);
    Entry(180, x, 598, 11, 10, 10000000000, 34, 0x4_0000_0000, 5053968264940243, false);
    Entry(180, x, 598, 11, 11, 100000000000, 37, 0x20_0000_0000, 6317460331175304, false);
    Entry(180, x, 598, 11, 12, 1000000000000, 40, 0x100_0000_0000, 7896825413969130, false);
    Entry(180, x, 598, 11, 13, 10000000000000, 44, 0x1000_0000_0000, 4935515883730706, false);
    Entry(180, x, 598, 11, 14, 100000000000000, 47, 0x8000_0000_0000, 6169394854663383, true);
    FollowsNext(180, x, 598, 11, 291341434812508075909803332635270853017, 50, 0x4_0000_0000_0000);
  }

  lemma Powers195To209()
    ensures forall j: nat :: 0 <= j <= 14 ==> Settled(195 + j, Row(13)[j] == 1)
    ensures Follows(210, 258763175164940474024358370140027266097, 698, 13)
  {
    hide Pow, Follows, Settled;
    SomeTens();
    SomeTwos();
    Powers180To194();
    var x := 291341434812508075909803332635270853017;
    Entry(195, x, 648, 12, 0, 1, 0, 0x1, 7711743568329229, true);
    Entry(195, x, 648, 12, 1, 10, 4, 0x10, 4819839730205768, true);
    Entry(195, x, 648, 12, 2, 100, 7, 0x80, 6024799662757210, true);
    Entry(195, x, 648, 12, 3, 1000, 10, 0x400, 7530999578446512, false);
    Entry(195, x, 648, 12, 4, 10000, 14, 0x4000, 4706874736529070, false);
    Entry(195, x, 648, 12, 5, 100000, 17, 0x2_0000, 5883593420661338, true);
    Entry(195, x, 648, 12, 6, 1000000, 20, 0x10_0000, 7354491775826672, false);
    Entry(195, x, 648, 12, 7, 10000000, 24, 0x100_0000, 4596557359891670, true);
    Entry(195, x, 648, 12, 8, 100000000, 27, 0x800_0000, 5745696699864588, true);
    Entry(195, x, 648, 12, 9, 1000000000, 30, 0x4000_0000, 7182120874830735, true);
    Entry(195, x, 648, 12, 10, 10000000000, 33, 0x2_0000_0000, 8977651093538418, false);
    Entry(195, x, 648, 12, 11, 100000000000, 37, 0x20_0000_0000, 5611031933461511, false);
    Entry(195, x, 648, 12, 12, 1000000000000, 40, 0x100_0000_0000, 7013789916826889, false);
    Entry(195, x, 648, 12, 13, 10000000000000, 43, 0x800_0000_0000, 8767237396033612, true);
    Entry(195, x, 648, 12, 14, 100000000000000, 47, 0x8000_0000_0000, 5479523372521007, false);
    FollowsNext(195, x, 648, 12, 258763175164940474024358370140027266097, 50, 0x4_0000_0000_0000);
  }

  lemma Powers210To224()
    ensures forall j: nat :: 0 <= j <= 14 ==> Settled(210 + j, Row(14)[j] == 1)
    ensures Follows(225, 229827867994583522581171992751360791815, 748, 14)
  {
    hide Pow, Follows, Settled;
    SomeTens();
    SomeTwos();
    Powers195To209();
    var x := 258763175164940474024358370140027266097;
    Entry(210, x, 698, 13, 0, 1, 0, 0x1, 6849404215651259, true);
    Entry(210, x, 698, 13, 1, 10, 3, 0x8, 8561755269564074, true);
    Entry(210, x, 698, 13, 2, 100, 7, 0x80, 5351097043477546, true);
    Entry(210, x, 698, 13, 3, 1000, 10, 0x400, 6688871304346933, true);
    Entry(210, x, 698, 13, 4, 10000, 13, 0x2000, 8361089130433666, true);
    Entry(210, x, 698, 13, 5, 100000, 17, 0x2_0000, 5225680706521041, true);
    Entry(210, x, 698, 13, 6, 1000000, 20, 0x10_0000, 6532100883151301, false);
    Entry(210, x, 698, 13, 7, 10000000, 23, 0x80_0000, 8165126103939127, true);
    Entry(210, x, 698, 13, 8, 100000000, 27, 0x800_0000, 5103203814961954, false);
    Entry(210, x, 698, 13, 9, 1000000000, 30, 0x4000_0000, 6379004768702443, true);
    Entry(210, x, 698, 13, 10, 10000000000, 33, 0x2_0000_0000, 7973755960878054, true);
    Entry(210, x, 698, 13, 11, 100000000000, 37, 0x20_0000_0000, 4983597475548783, false);
    Entry(210, x, 698, 13, 12, 1000000000000, 40, 0x100_0000_0000, 6229496844435979, false);
    Entry(210, x, 698, 13, 13, 10000000000000, 43, 0x800_0000_0000, 7786871055544974, false);
    Entry(210, x, 698, 13, 14, 100000000000000, 47, 0x8000_0000_0000, 4866794409715609, true);
    FollowsNext(210, x, 698, 13, 229827867994583522581171992751360791815, 50, 0x4_0000_0000_0000);
  }

  lemma Powers225To239()
    ensures forall j: nat :: 0 <= j <= 14 ==> Settled(225 + j, Row(15)[j] == 1)
    ensures Follows(240, 204128152598478183127259193653345185572, 798, 15)
  {
    hide Pow, Follows, Settled;
    SomeTens();
    SomeTwos();
    Powers210To224();
    var x := 229827867994583522581171992751360791815;
    Entry(225, x, 748, 14, 0, 1, 0, 0x1, 6083493012144511, true);
    Entry(225, x, 748, 14, 1, 10, 3, 0x8, 7604366265180639, true);
    Entry(225, x, 748, 14, 2, 100, 7, 0x80, 4752728915737899, false);
    Entry(225, x, 748, 14, 3, 1000, 10, 0x400, 5940911144672374, true);
    Entry(225, x, 748, 14, 4, 10000, 13, 0x2000, 7426138930840468, true);
    Entry(225, x, 748, 14, 5, 100000, 17, 0x2_0000, 4641336831775292, false);
    Entry(225, x, 748, 14, 6, 1000000, 20, 0x10_0000, 5801671039719115, false);
    Entry(225, x, 748, 14, 7, 10000000, 23, 0x80_0000, 7252088799648894, false);
    Entry(225, x, 748, 14, 8, 100000000, 27, 0x800_0000, 4532555499780559, true);
    Entry(225, x, 748, 14, 9, 1000000000, 30, 0x4000_0000, 5665694374725698, false);
    Entry(225, x, 748, 14, 10, 10000000000, 33, 0x2_0000_0000, 7082117968407123, false);
    Entry(225, x, 748, 14, 11, 100000000000, 36, 0x10_0000_0000, 8852647460508904, false);
    Entry(225, x, 748, 14, 12, 1000000000000, 40, 0x100_0000_0000, 5532904662818065, true);
    Entry(225, x, 748, 14, 13, 10000000000000, 43, 0x800_0000_0000, 6916130828522581, false);
    Entry(225, x, 748, 14, 14, 100000000000000, 46, 0x4000_0000_0000, 8645163535653227, true);
    FollowsNext(225, x, 748, 14, 204128152598478183127259193653345185572, 50, 0x4_0000_0000_0000);
  }

  lemma Powers240To254()
    ensures forall j: nat :: 0 <= j <= 14 ==> Settled(240 + j, Row(16)[j] == 1)
    ensures Follows(255, 181302219991222364760882607062826453134, 848, 16)
  {
    hide Pow, Follows, Settled;
    SomeTens();
    SomeTwos();
    Powers225To239();
    var x := 204128152598478183127259193653345185572;
    Entry(240, x, 798, 15, 0, 1, 0, 0x1, 5403227209783266, false);
    Entry(240, x, 798, 15, 1, 10, 3, 0x8, 6754034012229083, false);
    Entry(240, x, 798, 15, 2, 100, 6, 0x40, 8442542515286354, false);
    Entry(240, x, 798, 15, 3, 1000, 10, 0x400, 5276589072053971, false);
    Entry(240, x, 798, 15, 4, 10000, 13, 0x2000, 6595736340067464, false);
    Entry(240, x, 798, 15, 5, 100000, 16, 0x1_0000, 8244670425084330, false);
    Entry(240, x, 798, 15, 6, 1000000, 20, 0x10_0000, 5152919015677706, false);
    Entry(240, x, 798, 15, 7, 10000000, 23, 0x80_0000, 6441148769597133, true);
    Entry(240, x, 798, 15, 8, 100000000, 26, 0x400_0000, 8051435961996416, false);
    Entry(240, x, 798, 15, 9, 1000000000, 30, 0x4000_0000, 5032147476247760, true);
    Entry(240, x, 798, 15, 10, 10000000000, 33, 0x2_0000_0000, 6290184345309700, true);
    Entry(240, x, 798, 15, 11, 100000000000, 36, 0x10_0000_0000, 7862730431637125, false);
    Entry(240, x, 798, 15, 12, 1000000000000, 40, 0x100_0000_0000, 4914206519773203, false);
    Entry(240, x, 798, 15, 13, 10000000000000, 43, 0x800_0000_0000, 6142758149716504, true);
    Entry(240, x, 798, 15, 14, 100000000000000, 46, 0x4000_0000_0000, 7678447687145630, true);
    FollowsNext(240, x, 798, 15, 181302219991222364760882607062826453134, 50, 0x4_0000_0000_0000);
  }

  lemma Powers255To269()
    ensures forall j: nat :: 0 <= j <= 14 ==> Settled(255 + j, Row(17)[j] == 1)
    ensures Follows(270, 322057438479856665411351825168442625251, 897, 17)
  {
    hide Pow, Follows, Settled;
    SomeTens();
    SomeTwos();
    Powers240To254();
    var x := 181302219991222364760882607062826453134;
    Entry(255, x, 848, 16, 0, 1, 0, 0x1, 4799029804466019, true);
    Entry(255, x, 848, 16, 1, 10, 3, 0x8, 5998787255582523, false);
    Entry(255, x, 848, 16, 2, 100, 6, 0x40, 7498484069478154, false);
    Entry(255, x, 848, 16, 3, 1000, 10, 0x400, 4686552543423846, false);
    Entry(255, x, 848, 16, 4, 10000, 13, 0x2000, 5858190679279808, true);
    Entry(255, x, 848, 16, 5, 100000, 16, 0x1_0000, 7322738349099760, false);
    Entry(255, x, 848, 16, 6, 1000000, 20, 0x10_0000, 4576711468187350, true);
    Entry(255, x, 848, 16, 7, 10000000, 23, 0x80_0000, 5720889335234187, false);
    Entry(255, x, 848, 16, 8, 100000000, 26, 0x400_0000, 7151111669042734, false);
    Entry(255, x, 848, 16, 9, 1000000000, 29, 0x2000_0000, 8938889586303418, false);
    Entry(255, x, 848, 16, 10, 10000000000, 33, 0x2_0000_0000, 5586805991439636, false);
    Entry(255, x, 848, 16, 11, 100000000000, 36, 0x10_0000_0000, 6983507489299545, false);
    Entry(255, x, 848, 16, 12, 1000000000000, 39, 0x80_0000_0000, 8729384361624432, true);
    Entry(255, x, 848, 16, 13, 10000000000000, 43, 0x800_0000_0000, 5455865226015270, true);
    Entry(255, x, 848, 16, 14, 100000000000000, 46, 0x4000_0000_0000, 6819831532519087, false);
    FollowsNext(255, x, 848, 16, 322057438479856665411351825168442625251, 49, 0x2_0000_0000_0000);
  }

  lemma Powers270To284()
    ensures forall j: nat :: 0 <= j <= 14 ==> Settled(270 + j, Row(18)[j] == 1)
    ensures Follows(285, 286044466761709395373848807836163588237, 947, 18)
  {
    hide Pow, Follows, Settled;
    SomeTens();
    SomeTwos();
    Powers255To269();
    var x := 322057438479856665411351825168442625251;
    Entry(270, x, 897, 17, 0, 1, 0, 0x1, 8524789415648859, false);
    Entry(270, x, 897, 17, 1, 10, 4, 0x10, 5327993384780537, true);
    Entry(270, x, 897, 17, 2, 100, 7, 0x80, 6659991730975671, false);
    Entry(270, x, 897, 17, 3, 1000, 10, 0x400, 8324989663719589, true);
    Entry(270, x, 897, 17, 4, 10000, 14, 0x4000, 5203118539824743, true);
    Entry(270, x, 897, 17, 5, 100000, 17, 0x2_0000, 6503898174780929, true);
    Entry(270, x, 897, 17, 6, 1000000, 20, 0x10_0000, 8129872718476161, false);
    Entry(270, x, 897, 17, 7, 10000000, 24, 0x100_0000, 5081170449047600, false);
    Entry(270, x, 897, 17, 8, 100000000, 27, 0x800_0000, 6351463061309501, true);
    Entry(270, x, 897, 17, 9, 1000000000, 30, 0x4000_0000, 7939328826636876, false);
    Entry(270, x, 897, 17, 10, 10000000000, 34, 0x4_0000_0000, 4962080516648047, false);
    Entry(270, x, 897, 17, 11, 100000000000, 37, 0x20_0000_0000, 6202600645810059, false);
    Entry(270, x, 897, 17, 12, 1000000000000, 40, 0x100_0000_0000, 7753250807262574, false);
    Entry(270, x, 897, 17, 13, 10000000000000, 44, 0x1000_0000_0000, 4845781754539109, true);
    Entry(270, x, 897, 17, 14, 100000000000000, 47, 0x8000_0000_0000, 6057227193173886, false);
    FollowsNext(270, x, 897, 17, 286044466761709395373848807836163588237, 50, 0x4_0000_0000_0000);
  }

  lemma Powers285To299()
    ensures forall j: nat :: 0 <= j <= 14 ==> Settled(285 + j, Row(19)[j] == 1)
    ensures Follows(300, 254058522452380049271391022923583936187, 997, 19)
  {
    hide Pow, Follows, Settled;
    SomeTens();
    SomeTwos();
    Powers270To284();
    var x := 286044466761709395373848807836163588237;
    Entry(285, x, 947, 18, 0, 1, 0, 0x1, 7571533991467358, true);
    Entry(285, x, 947, 18, 1, 10, 4, 0x10, 4732208744667098, false);
    Entry(285, x, 947, 18, 2, 100, 7, 0x80, 5915260930833873, false);
    Entry(285, x, 947, 18, 3, 1000, 10, 0x400, 7394076163542341, false);
    Entry(285, x, 947, 18, 4, 10000, 14, 0x4000, 4621297602213963, false);
    Entry(285, x, 947, 18, 5, 100000, 17, 0x2_0000, 5776622002767454, false);
    Entry(285, x, 947, 18, 6, 1000000, 20, 0x10_0000, 7220777503459318, true);
    Entry(285, x, 947, 18, 7, 10000000, 24, 0x100_0000, 4512985939662073, false);
    Entry(285, x, 947, 18, 8, 100000000, 27, 0x800_0000, 5641232424577592, true);
    Entry(285, x, 947, 18, 9, 1000000000, 30, 0x4000_0000, 7051540530721990, false);
    Entry(285, x, 947, 18, 10, 10000000000, 33, 0x2_0000_0000, 8814425663402488, true);
    Entry(285, x, 947, 18, 11, 100000000000, 37, 0x20_0000_0000, 5509016039626555, true);
    Entry(285, x, 947, 18, 12, 1000000000000, 40, 0x100_0000_0000, 6886270049533193, false);
    Entry(285, x, 947, 18, 13, 10000000000000, 43, 0x800_0000_0000, 8607837561916492, true);
    Entry(285, x, 947, 18, 14, 100000000000000, 47, 0x8000_0000_0000, 5379898476197807, false);
    FollowsNext(285, x, 947, 18, 254058522452380049271391022923583936187, 50, 0x4_0000_0000_0000);
  }

  lemma Powers300To308()
    ensures forall j: nat :: 0 <= j <= 8 ==> Settled(300 + j, Row(20)[j] == 1)
  {
    hide Pow, Follows, Settled;
    SomeTens();
    SomeTwos();
    Powers285To299();
    var x := 254058522452380049271391022923583936187;
    Entry(300, x, 997, 19, 0, 1, 0, 0x1, 6724873095247259, false);
    Entry(300, x, 997, 19, 1, 10, 3, 0x8, 8406091369059074, false);
    Entry(300, x, 997, 19, 2, 100, 7, 0x80, 5253807105661921, false);
    Entry(300, x, 997, 19, 3, 1000, 10, 0x400, 6567258882077401, false);
    Entry(300, x, 997, 19, 4, 10000, 13, 0x2000, 8209073602596752, true);
    Entry(300, x, 997, 19, 5, 100000, 17, 0x2_0000, 5130671001622970, true);
    Entry(300, x, 997, 19, 6, 1000000, 20, 0x10_0000, 6413338752028712, false);
    Entry(300, x, 997, 19, 7, 10000000, 23, 0x80_0000, 8016673440035891, true);
    Entry(300, x, 997, 19, 8, 100000000, 27, 0x800_0000, 5010420900022431, false);
  }

  // The rows are right from 10^24 on.
  lemma RowSettles(c: nat, j: nat)
    requires 24 <= 15 * c + j < 309 && j < 15
    ensures c < 21 && j < |Row(c)| && Settled(15 * c + j, Row(c)[j] == 1)
  {
    hide Row, Settled, Follows;
    match c {
      case 1 => Powers24To29();
      case 2 => Powers30To44();
      case 3 => Powers45To59();
      case 4 => Powers60To74();
      case 5 => Powers75To89();
      case 6 => Powers90To104();
      case 7 => Powers105To119();
      case 8 => Powers120To134();
      case 9 => Powers135To149();
      case 10 => Powers150To164();
      case 11 => Powers165To179();
      case 12 => Powers180To194();
      case 13 => Powers195To209();
      case 14 => Powers210To224();
      case 15 => Powers225To239();
      case 16 => Powers240To254();
      case 17 => Powers255To269();
      case 18 => Powers270To284();
      case 19 => Powers285To299();
      case 20 => Powers300To308();
    }
  }

  // 10^23 is half a gap above an even double.
  lemma HalfGap()
    ensures Settled(23, true)
  {
    SomeTens();
    SomeTwos();
    DoubleWidth();
    hide Pow;
    PowAdd(10, 14, 9);
    assert Straddles(DOUBLE, Pow(10, 23), 24, Pow(2, 24));
  }

  lemma DoubleFivesFit(k: nat)
    requires k <= 22
    ensures Pow(5, k) < Pow(2, 53)
  {
    hide Pow;
    PowExponentMonotone(5, k, 22);
    SmallFives();
    PowAdd(5, 5, 5);
    PowAdd(5, 10, 10);
    PowAdd(5, 20, 2);
    DoubleWidth();
  }

  lemma SmallFives()
    ensures Pow(5, 5) == 3125 && Pow(5, 2) == 25
  {
  }

  lemma FirstEntries(k: nat)
    requires k <= 23
    ensures AdjustmentOf(k) == if k == 23 then 1 else 0
  {
  }

  lemma SettledAdjusts(m: nat, e2: int, mmShift: bool, k: nat, below: bool)
    requires ShortensWhole(DOUBLE, m, e2, mmShift, 1, k) && Settled(k, below)
    ensures Integer(m, e2) < Pow(10, k) <==> below
  {
    hide ShortensWhole, Integer, Pow, Straddles;
    var e: nat, t: nat :| Straddles(DOUBLE, Pow(10, k), e, t) && t > 0 && NearerBelow(Pow(10, k), t) == below;
    BelowPower(DOUBLE, m, e2, mmShift, k, Pow(10, k), e, t);
  }

  /** The table is right for every double that prints as a power of ten. */
  lemma DoubleAdjusts(m: nat, e2: int, mmShift: bool, k: nat)
    requires ShortensWhole(DOUBLE, m, e2, mmShift, 1, k) && k < 309
    ensures AdjustmentFor(AdjustmentOf(k), m, e2, 1, k)
  {
    hide ShortensWhole, Integer, Pow, Settled, Row;
    if k <= 22 {
      DoubleFivesFit(k);
      ExactPower(DOUBLE, m, e2, mmShift, k);
      FirstEntries(k);
    } else if k == 23 {
      HalfGap();
      SettledAdjusts(m, e2, mmShift, k, true);
      FirstEntries(k);
    } else {
      DivMod(k, 15);
      RowSettles(k / 15, k % 15);
      SettledAdjusts(m, e2, mmShift, k, AdjustmentOf(k) == 1);
    }
  }
}
