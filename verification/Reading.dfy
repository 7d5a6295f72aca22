// Reading a decimal: rounding it to the nearest number of a binary format, ties to even.
// The decimals that are read as a number are exactly those its rounding interval accepts.
module Reading {
  import opened Arith
  import opened Shortest
  import opened ExactFixed
  import opened Ryu

  // Zero and the positive numbers of a format, the exponent being unbounded above, as it
  // is when a decimal is rounded.
  predicate Number(f: Format, m: nat, e2: int, mmShift: bool)
    requires f.Valid()
  {
    Normal(f, m, e2, mmShift) || Subnormal(f, m, e2, mmShift)
  }

  // The numbers of a format as multiples of its smallest one.
  function Depth(f: Format): (l: nat)
    requires f.Valid()
  {
    f.bias + f.width - 2
  }

  function Grid(f: Format, m: nat, e2: int): (g: nat)
    requires f.Valid() && e2 + Depth(f) >= 0
  {
    m * Pow(2, e2 + Depth(f))
  }

  // n * 10^k minus a multiple of the smallest number, both scaled to integers.
  function Off(f: Format, n: nat, k: int, g: nat): (x: int)
    requires f.Valid()
  {
    n * Pow(10, Above(k)) * Pow(2, Depth(f)) - g * Pow(10, Above(-k))
  }

  function Abs(x: int): (r: nat) { if x < 0 then -x else x }

  // m * 2^e2 is nearest to n * 10^k among the numbers of the format, and its significand
  // is even if another one is as near.
  ghost predicate RoundsTo(f: Format, n: nat, k: int, m: nat, e2: int)
    requires f.Valid() && e2 + Depth(f) >= 0
  {
    forall m': nat, e2': int, mmShift': bool :: Number(f, m', e2', mmShift') ==>
      NoNearer(f, n, k, m, e2, m', e2')
  }

  ghost predicate NoNearer(f: Format, n: nat, k: int, m: nat, e2: int, m': nat, e2': int)
    requires f.Valid() && e2 + Depth(f) >= 0
  {
    e2' + Depth(f) >= 0 && Grid(f, m', e2') != Grid(f, m, e2) ==>
      var x, y := Abs(Off(f, n, k, Grid(f, m, e2))), Abs(Off(f, n, k, Grid(f, m', e2')));
      x <= y && (x == y ==> m % 2 == 0)
  }

  // --- the gaps around a number ---

  lemma CoarserNumber(m: nat, g: nat, m': nat, t: nat)
    requires g > 0
    ensures m' * (g * t) < m * g ==> m' * (g * t) + g <= m * g
    ensures m' * (g * t) > m * g ==> m' * (g * t) >= m * g + g
  {
    MulAssociate(m', t, g);
    var x := m' * t;
    assert m' * (g * t) == x * g;
    CompareScaled(x, m, g);
    CompareScaled(m, x, g);
    DistributeAdd(x, 1, g);
    DistributeAdd(m, 1, g);
    if x < m {
      MulMonotone(x + 1, m, g, g);
    } else if x > m {
      MulMonotone(m + 1, x, g, g);
    }
  }

  // A number with a smaller exponent lies below, at least half a gap away.
  lemma FinerNumber(m: nat, h: nat, m': nat, g': nat, bits: nat, wide: bool)
    requires m' < bits && g' <= h && 2 * m >= bits && (wide ==> 2 * m >= bits + 2)
    ensures m' * g' + (if wide then 2 * h else h) <= m * (2 * h)
  {
    MulMonotone(m', m', g', h);
    MulAssociate(m, 2, h);
    var extra := if wide then 2 else 1;
    MulMonotone(m' + extra, 2 * m, h, h);
    DistributeAdd(m', extra, h);
  }

  // Every other number is a whole gap above, or a gap below, or half a gap where it is
  // halved.
  lemma Gaps(f: Format, m: nat, e2: int, mmShift: bool, m': nat, e2': int, mmShift': bool)
    requires f.Valid() && Number(f, m, e2, mmShift) && Number(f, m', e2', mmShift')
    ensures e2 + Depth(f) >= 0 && e2' + Depth(f) >= 0
    ensures var g, x, x' := Pow(2, e2 + Depth(f)), Grid(f, m, e2), Grid(f, m', e2');
            && (x' > x ==> x' >= x + g)
            && (x' < x ==> 2 * x' + (if mmShift then 2 * g else g) <= 2 * x)
  {
    var g, g' := Pow(2, e2 + Depth(f)), Pow(2, e2' + Depth(f));
    PowStep(2, f.width);
    if e2' >= e2 {
      PowAdd(2, e2 + Depth(f), e2' - e2);
      hide Pow;
      CoarserNumber(m, g, m', Pow(2, e2' - e2));
    } else {
      PowStep(2, e2 + Depth(f));
      PowExponentMonotone(2, e2' + Depth(f), e2 + Depth(f) - 1);
      hide Pow;
      FinerNumber(m, Pow(2, e2 + Depth(f) - 1), m', g', Pow(2, f.width), mmShift);
    }
  }

  // --- inside the interval ---

  // The rounding interval on the grid, everything being a multiple of gu.
  predicate Within(m: nat, mmShift: bool, gu: nat, x: nat)
  {
    var low, high := (4 * m - 1 - if mmShift then 1 else 0) * gu, (4 * m + 2) * gu;
    if m % 2 == 0 then low <= 4 * x <= high else low < 4 * x < high
  }

  lemma GridInterval(f: Format, m: nat, e2: int, mmShift: bool, n: nat, k: int)
    requires f.Valid() && m > 0 && e2 + Depth(f) >= 0
    ensures AcceptedAt(IntervalOf(m, e2, mmShift), n, k) <==>
              Within(m, mmShift, Pow(2, e2 + Depth(f)) * Pow(10, Above(-k)), n * Pow(10, Above(k)) * Pow(2, Depth(f)))
  {
    var i := IntervalOf(m, e2, mmShift);
    var low, up, down := 4 * m - 1 - (if mmShift then 1 else 0), Pow(10, Above(-k)), Pow(10, Above(k));
    var t, g := Pow(2, Depth(f)), Pow(2, e2 + Depth(f));
    UnitZero(AtScale(i, k));
    SameRatio(e2, Depth(f));
    hide Pow, Num, Den, Interval.Unit;
    GridSide(low, Num(e2), Den(e2), up, down, n, t, g);
    GridSide(4 * m + 2, Num(e2), Den(e2), up, down, n, t, g);
  }

  lemma SameRatio(e2: int, l: nat)
    requires e2 + l >= 0
    ensures Num(e2) * Pow(2, l) == Den(e2) * Pow(2, e2 + l)
  {
    if e2 >= 0 {
      PowAdd(2, e2, l);
    } else {
      PowAdd(2, -e2, e2 + l);
    }
  }

  // One end of the interval: num / den and g / t are the same number.
  lemma GridSide(c: nat, num: nat, den: nat, up: nat, down: nat, n: nat, t: nat, g: nat)
    requires den > 0 && t > 0 && num * t == den * g
    ensures c * num * up <= n * (4 * den * down) <==> c * (g * up) <= 4 * (n * down * t)
    ensures c * num * up < n * (4 * den * down) <==> c * (g * up) < 4 * (n * down * t)
    ensures c * num * up >= n * (4 * den * down) <==> c * (g * up) >= 4 * (n * down * t)
    ensures c * num * up > n * (4 * den * down) <==> c * (g * up) > 4 * (n * down * t)
  {
    var left, right := c * num * up, n * (4 * den * down);
    ScaledLeft(c, num, up, t, den, g);
    ScaledRight(n, den, down, t);
    CompareScaled(left, right, t);
    CompareScaled(right, left, t);
    CompareScaled(c * (g * up), 4 * (n * down * t), den);
    CompareScaled(4 * (n * down * t), c * (g * up), den);
  }

  lemma ScaledLeft(c: int, num: int, up: int, t: int, den: int, g: int)
    requires num * t == den * g
    ensures c * num * up * t == c * (g * up) * den
  {
    MulAssociate(c * num, up, t);
    MulAssociate(c * num, t, up);
    MulAssociate(c, num, t);
    MulAssociate(c, den, g);
    assert c * num * up * t == c * den * g * up;
    MulAssociate(c * den, g, up);
    MulAssociate(c, g * up, den);
    MulAssociate(c, den, g * up);
  }

  lemma ScaledRight(n: int, den: int, down: int, t: int)
    ensures n * (4 * den * down) * t == 4 * (n * down * t) * den
  {
    MulAssociate(4 * den, n * down, t);
    MulAssociate(n, 4 * den, down);
    MulAssociate(4 * den, n, down);
    MulAssociate(4, den, n * down * t);
    MulAssociate(4, n * down * t, den);
  }

  lemma AboveIsFarther(x: int, a: int, b: int, g: int)
    requires 4 * x <= 4 * a + 2 * g && b >= a + g && g > 0
    ensures Abs(x - a) <= Abs(x - b) && (Abs(x - a) == Abs(x - b) ==> 4 * x == 4 * a + 2 * g)
  {
  }

  lemma BelowIsFarther(x: int, a: int, b: int, h: int)
    requires 4 * x >= 4 * a - h && 2 * b + h <= 2 * a && h > 0
    ensures Abs(x - a) <= Abs(x - b) && (Abs(x - a) == Abs(x - b) ==> 4 * x == 4 * a - h)
  {
  }

  // A point inside, against points at least a gap, or half of one, away.
  lemma NearestOnGrid(m: nat, g: nat, u: nat, x: nat, b: nat, mmShift: bool)
    requires m > 0 && g > 0 && u > 0 && Within(m, mmShift, g * u, x)
    requires b > m * g ==> b >= m * g + g
    requires b < m * g ==> 2 * b + (if mmShift then 2 * g else g) <= 2 * (m * g)
    ensures b != m * g ==>
              var near, far := Abs(x - m * g * u), Abs(x - b * u);
              near <= far && (near == far ==> m % 2 == 0)
  {
    ScaledGaps(m, g, u, m * g, b, mmShift);
    hide Abs;
    if b > m * g {
      AboveIsFarther(x, m * g * u, b * u, g * u);
    } else if b < m * g {
      BelowIsFarther(x, m * g * u, b * u, (if mmShift then 2 else 1) * (g * u));
    }
  }

  lemma ScaledGaps(m: nat, g: nat, u: nat, a: nat, b: nat, mmShift: bool)
    requires g > 0 && u > 0 && a == m * g && m > 0
    ensures (4 * m + 2) * (g * u) == 4 * (a * u) + 2 * (g * u)
    ensures (4 * m - 1 - if mmShift then 1 else 0) * (g * u) == 4 * (a * u) - (if mmShift then 2 else 1) * (g * u)
    ensures g * u > 0
    ensures b >= a + g ==> b * u >= a * u + g * u
    ensures 2 * b + (if mmShift then 2 * g else g) <= 2 * a ==>
              2 * (b * u) + (if mmShift then 2 else 1) * (g * u) <= 2 * (a * u)
  {
    var s := if mmShift then 2 else 1;
    MulAssociate(m, g, u);
    MulAssociate(4, m, g * u);
    DistributeAdd(4 * m, 2, g * u);
    DistributeSub(4 * m, s, g * u);
    MulAtLeast(g, u);
    DistributeAdd(a, g, u);
    MulAssociate(2, b, u);
    MulAssociate(2, a, u);
    MulAssociate(s, g, u);
    DistributeAdd(2 * b, s * g, u);
    if b >= a + g {
      MulMonotone(a + g, b, u, u);
    }
    if 2 * b + s * g <= 2 * a {
      MulMonotone(2 * b + s * g, 2 * a, u, u);
    }
  }

  lemma NoNumberNearer(f: Format, m: nat, e2: int, mmShift: bool, n: nat, k: int, m': nat, e2': int, mmShift': bool)
    requires f.Valid() && m > 0 && Number(f, m, e2, mmShift) && Number(f, m', e2', mmShift')
    requires AcceptedAt(IntervalOf(m, e2, mmShift), n, k)
    ensures e2 + Depth(f) >= 0 && NoNearer(f, n, k, m, e2, m', e2')
  {
    Gaps(f, m, e2, mmShift, m', e2', mmShift');
    hide Pow, Number, AcceptedAt, IntervalOf;
    GridInterval(f, m, e2, mmShift, n, k);
    var x, u, g := n * Pow(10, Above(k)) * Pow(2, Depth(f)), Pow(10, Above(-k)), Pow(2, e2 + Depth(f));
    NearestOnGrid(m, g, u, x, Grid(f, m', e2'), mmShift);
  }

  // --- outside the interval ---

  lemma NextNumber(f: Format, m: nat, e2: int, mmShift: bool) returns (m': nat, e2': int, mmShift': bool)
    requires f.Valid() && Number(f, m, e2, mmShift)
    ensures Number(f, m', e2', mmShift') && e2 + Depth(f) >= 0 && e2' + Depth(f) >= 0
    ensures Grid(f, m', e2') == Grid(f, m, e2) + Pow(2, e2 + Depth(f))
  {
    PowStep(2, f.width);
    PowStep(2, e2 + Depth(f) + 1);
    PowExponentMonotone(2, 1, f.width - 1);
    var g := Pow(2, e2 + Depth(f));
    DistributeAdd(m, 1, g);
    if m + 1 == Pow(2, f.width) {
      m', e2', mmShift' := Pow(2, f.width - 1), e2 + 1, false;
      hide Pow;
      MulAssociate(m', 2, g);
    } else {
      m', e2', mmShift' := m + 1, e2, true;
      hide Pow;
    }
  }

  lemma PreviousNumber(f: Format, m: nat, e2: int, mmShift: bool) returns (m': nat, e2': int, mmShift': bool)
    requires f.Valid() && m > 0 && Number(f, m, e2, mmShift)
    ensures Number(f, m', e2', mmShift') && e2 + Depth(f) >= 0 && e2' + Depth(f) >= 0
    ensures var g := Pow(2, e2 + Depth(f)); 2 * Grid(f, m', e2') + (if mmShift then 2 * g else g) == 2 * Grid(f, m, e2)
  {
    PowStep(2, f.width);
    PowExponentMonotone(2, 1, f.width - 1);
    var g := Pow(2, e2 + Depth(f));
    if mmShift {
      m', e2', mmShift' := m - 1, e2, m - 1 != Pow(2, f.width - 1) || e2 == 2 - f.bias - f.width;
      DistributeSub(m, 1, g);
    } else {
      PowStep(2, e2 + Depth(f));
      m', e2', mmShift' := 2 * m - 1, e2 - 1, true;
      var h := Pow(2, e2 + Depth(f) - 1);
      hide Pow;
      DistributeSub(2 * m, 1, h);
      MulAssociate(m, 2, h);
    }
  }

  // A point outside is nearer to the next number on its side, or as near while m is odd.
  lemma NearerOnGrid(m: nat, g: nat, u: nat, x: nat, above: nat, below: nat, mmShift: bool)
    requires m > 0 && g > 0 && u > 0 && !Within(m, mmShift, g * u, x)
    requires above == m * g + g && 2 * below + (if mmShift then 2 * g else g) == 2 * (m * g)
    ensures var near := Abs(x - m * g * u);
            || near > Abs(x - above * u) || near > Abs(x - below * u)
            || (m % 2 != 0 && (near == Abs(x - above * u) || near == Abs(x - below * u)))
  {
    ScaledGaps(m, g, u, m * g, above, mmShift);
    ScaledGaps(m, g, u, m * g, below, mmShift);
    DistributeAdd(m * g, g, u);
    Halved(below, m * g, if mmShift then 2 else 1, g, u);
    OutsideIsNearer(x, m * g * u, above * u, below * u, g * u, (if mmShift then 2 else 1) * (g * u), m % 2 == 0);
  }

  lemma Halved(b: nat, a: nat, s: nat, g: nat, u: nat)
    requires 2 * b + s * g == 2 * a
    ensures 2 * (b * u) + s * (g * u) == 2 * (a * u)
  {
    MulAssociate(2, b, u);
    MulAssociate(s, g, u);
    MulAssociate(2, a, u);
    DistributeAdd(2 * b, s * g, u);
  }

  lemma OutsideIsNearer(x: int, a: int, above: int, below: int, g: int, h: int, even: bool)
    requires g > 0 && h > 0 && above == a + g && 2 * below + h == 2 * a
    requires if even then 4 * x < 4 * a - h || 4 * x > 4 * a + 2 * g
             else 4 * x <= 4 * a - h || 4 * x >= 4 * a + 2 * g
    ensures || Abs(x - a) > Abs(x - above) || Abs(x - a) > Abs(x - below)
            || (!even && (Abs(x - a) == Abs(x - above) || Abs(x - a) == Abs(x - below)))
  {
  }

  lemma SomeNumberNearer(f: Format, m: nat, e2: int, mmShift: bool, n: nat, k: int)
    requires f.Valid() && m > 0 && Number(f, m, e2, mmShift) && e2 + Depth(f) >= 0
    requires !AcceptedAt(IntervalOf(m, e2, mmShift), n, k)
    ensures !RoundsTo(f, n, k, m, e2)
  {
    var m1, e1, s1 := NextNumber(f, m, e2, mmShift);
    var m0, e0, s0 := PreviousNumber(f, m, e2, mmShift);
    hide Pow, Number, AcceptedAt, IntervalOf;
    GridInterval(f, m, e2, mmShift, n, k);
    var x, u, g := n * Pow(10, Above(k)) * Pow(2, Depth(f)), Pow(10, Above(-k)), Pow(2, e2 + Depth(f));
    NearerOnGrid(m, g, u, x, Grid(f, m1, e1), Grid(f, m0, e0), mmShift);
    assert !NoNearer(f, n, k, m, e2, m1, e1) || !NoNearer(f, n, k, m, e2, m0, e0);
  }

  lemma Deep(f: Format, m: nat, e2: int, mmShift: bool)
    requires f.Valid() && Number(f, m, e2, mmShift)
    ensures e2 + Depth(f) >= 0
  {
  }

  /** The decimals that are read as a number are the ones its interval accepts. */
  lemma AcceptedIffRoundsTo(f: Format, m: nat, e2: int, mmShift: bool, n: nat, k: int)
    requires f.Valid() && m > 0 && Number(f, m, e2, mmShift)
    ensures e2 + Depth(f) >= 0 && (AcceptedAt(IntervalOf(m, e2, mmShift), n, k) <==> RoundsTo(f, n, k, m, e2))
  {
    Deep(f, m, e2, mmShift);
    hide Number, AcceptedAt, IntervalOf, NoNearer;
    if AcceptedAt(IntervalOf(m, e2, mmShift), n, k) {
      forall m': nat, e2': int, mmShift': bool | Number(f, m', e2', mmShift')
        ensures NoNearer(f, n, k, m, e2, m', e2')
      {
        NoNumberNearer(f, m, e2, mmShift, n, k, m', e2', mmShift');
      }
    } else {
      SomeNumberNearer(f, m, e2, mmShift, n, k);
    }
  }
}
