// The test that lets __to_chars print a shortest decimal zero-filled: the decimal
// equals the floating-point number exactly if and only if the odd part of its
// mantissa is small enough.
module ExactFixed {
  import opened Arith
  import opened Shortest

  const MAX_SHIFTED_MANTISSA_FLOAT: seq<nat> :=
    [16777215, 3355443, 671088, 134217, 26843, 5368, 1073, 214, 42, 8, 1]

  const MAX_SHIFTED_MANTISSA_DOUBLE: seq<nat> :=
    [9007199254740991, 1801439850948198, 360287970189639, 72057594037927, 14411518807585,
     2882303761517, 576460752303, 115292150460, 23058430092, 4611686018, 922337203, 184467440,
     36893488, 7378697, 1475739, 295147, 59029, 11805, 2361, 472, 94, 18, 3]

  // The mantissa shifted right by the number of its trailing zero bits.
  function OddPart(n: nat): (r: nat)
    requires n > 0
    ensures 0 < r <= n && r % 2 == 1
  {
    if n % 2 == 1 then n else OddPart(n / 2)
  }

  predicate CanUseRyuFloat(mantissa: nat, exponent: nat)
    requires mantissa > 0
  {
    exponent <= 10 && OddPart(mantissa) <= MAX_SHIFTED_MANTISSA_FLOAT[exponent]
  }

  predicate CanUseRyuDouble(mantissa: nat, exponent: nat)
    requires mantissa > 0
  {
    exponent <= 22 && OddPart(mantissa) <= MAX_SHIFTED_MANTISSA_DOUBLE[exponent]
  }

  lemma OddPartOfTwice(x: nat, y: nat)
    requires x > 0 && y == 2 * x
    ensures OddPart(y) == OddPart(x)
  {
  }

  lemma Twice(n: nat, p: nat, q: nat)
    requires q == 2 * p
    ensures n * q == 2 * (n * p) && q * n == 2 * (p * n)
  {
  }

  lemma {:induction false} OddPartOfShifted(n: nat, e: nat)
    requires n > 0
    ensures n * Pow(2, e) > 0 && OddPart(n * Pow(2, e)) == OddPart(n)
  {
    if e > 0 {
      OddPartOfShifted(n, e - 1);
      Twice(n, Pow(2, e - 1), Pow(2, e));
      hide Pow, OddPart;
      OddPartOfTwice(n * Pow(2, e - 1), n * Pow(2, e));
    }
  }

  lemma {:induction false} OddPartOfProduct(n: nat, y: nat)
    requires n > 0 && y % 2 == 1
    ensures n * y > 0 && OddPart(n * y) == OddPart(n) * y
  {
    MulMonotone(1, n, 1, y);
    if n % 2 == 1 {
      OddTimesOdd(n, y);
    } else {
      OddPartOfProduct(n / 2, y);
      OddPartOfTwice(n / 2, n);
      hide OddPart;
      Twice(y, n / 2, n);
      OddPartOfTwice(n / 2 * y, n * y);
    }
  }

  lemma OddTimesOdd(x: nat, y: nat)
    requires x % 2 == 1 && y % 2 == 1
    ensures x * y % 2 == 1
  {
    assert x * y == 2 * (x / 2 * y) + y;
  }

  lemma {:induction false} PowerOf5IsOdd(e: nat)
    ensures Pow(5, e) % 2 == 1
  {
    if e > 0 {
      PowerOf5IsOdd(e - 1);
      OddTimesOdd(5, Pow(5, e - 1));
    }
  }

  lemma {:induction false} SplitOdd(n: nat) returns (t: nat)
    requires n > 0
    ensures n == OddPart(n) * Pow(2, t)
  {
    if n % 2 == 1 {
      t := 0;
    } else {
      t := SplitOdd(n / 2);
      Twice(OddPart(n / 2), Pow(2, t), Pow(2, t + 1));
      t := t + 1;
    }
  }

  // A binary floating-point format: its significand width and its exponent bias.
  datatype Format = Format(width: nat, bias: nat) {
    predicate Valid() { width > 1 && bias > 2 }
  }

  const FLOAT := Format(24, 127)
  const DOUBLE := Format(53, 1023)

  // The number m * 2^e2 as a fraction.
  function Num(e2: int): (r: nat) ensures r > 0 { if e2 >= 0 then Pow(2, e2) else 1 }
  function Den(e2: int): (r: nat) ensures r > 0 { if e2 >= 0 then 1 else Pow(2, -e2) }

  // A normal number of the format.  Its lower gap is halved (mmShift is off) at
  // every power of two but the smallest.
  predicate Normal(f: Format, m: nat, e2: int, mmShift: bool)
    requires f.Valid()
  {
    && Pow(2, f.width - 1) <= m < Pow(2, f.width)
    && 2 - f.bias - f.width <= e2
    && mmShift == (m != Pow(2, f.width - 1) || e2 == 2 - f.bias - f.width)
  }

  lemma NearMultiple(m: nat, y: nat, n: nat)
    requires n > 0 && (4 * m - 2) * n <= 4 * (y * n) <= (4 * m + 2) * n
    ensures y == m
  {
    DistributeSub(4 * m, 2, n);
    DistributeAdd(4 * m, 2, n);
    if y < m {
      DistributeSub(m, y, n);
      MulAtLeast(m - y, n);
    } else if y > m {
      DistributeSub(y, m, n);
      MulAtLeast(y - m, n);
    }
  }

  // A multiple of the gap that lies in the interval is the number itself.
  lemma CoarserGrid(m: nat, e2: int, mmShift: bool, s: nat, x: nat)
    requires m > 0 && e2 <= s
    requires RoundingInterval(m, mmShift, Num(e2), Den(e2)).Inside(4 * (x * Pow(2, s) * Den(e2)))
    ensures x * Pow(2, s) * Den(e2) == m * Num(e2)
  {
    var y := if e2 >= 0 then x * Pow(2, s - e2) else x * Pow(2, s) * Den(e2);
    assert x * Pow(2, s) * Den(e2) == y * Num(e2) by {
      if e2 >= 0 {
        PowAdd(2, s - e2, e2);
        MulAssociate(x, Pow(2, s - e2), Pow(2, e2));
      }
    }
    var mm := 4 * m - 1 - (if mmShift then 1 else 0);
    MulMonotone(4 * m - 2, mm, Num(e2), Num(e2));
    hide Pow, Num, Den;
    NearMultiple(m, y, Num(e2));
  }

  // A number too fine to be a multiple of the gap has too few bits to reach it.
  lemma FinerGrid(f: Format, m: nat, e2: int, mmShift: bool, s: nat, x: nat)
    requires f.Valid()
    requires Normal(f, m, e2, mmShift) && s < e2 && x < Pow(2, f.width)
    ensures m > 0 && !RoundingInterval(m, mmShift, Num(e2), Den(e2)).Inside(4 * (x * Pow(2, s) * Den(e2)))
  {
    hide Pow;
    PowStep(2, f.width);
    PowStep(2, e2 - s);
    PowAdd(2, e2 - s, s);
    var r := Pow(2, e2 - s);
    var mm := 4 * m - 1 - (if mmShift then 1 else 0);
    MulMonotone(2, r, mm, mm);
    BelowScaled(x, Pow(2, s), mm, r);
  }

  lemma BelowScaled(x: nat, q: nat, mm: nat, r: nat)
    requires q > 0 && 4 * x < r * mm
    ensures 4 * (x * q) < mm * (r * q)
  {
    MulAssociate(mm, r, q);
    DistributeSub(r * mm, 4 * x, q);
    MulAtLeast(r * mm - 4 * x, q);
  }

  // A number with as many significant bits as the format has, inside the rounding
  // interval of a normal number, is that number.
  lemma OnlyOneInInterval(f: Format, m: nat, e2: int, mmShift: bool, s: nat, x: nat)
    requires f.Valid()
    requires m > 0 && Normal(f, m, e2, mmShift) && x < Pow(2, f.width)
    requires RoundingInterval(m, mmShift, Num(e2), Den(e2)).Inside(4 * (x * Pow(2, s) * Den(e2)))
    ensures x * Pow(2, s) * Den(e2) == m * Num(e2)
  {
    if e2 <= s {
      CoarserGrid(m, e2, mmShift, s, x);
    } else {
      FinerGrid(f, m, e2, mmShift, s, x);
    }
  }

  // n * 10^k is x * 2^s with x the part that needs significand bits.
  lemma BinaryForm(n: nat, k: nat) returns (s: nat)
    requires n > 0
    ensures n * Pow(10, k) == (OddPart(n) * Pow(5, k)) * Pow(2, s)
  {
    var t := SplitOdd(n);
    s := t + k;
    PowOfProduct(2, 5, k);
    PowAdd(2, t, k);
    hide Pow, OddPart;
    Rearrange(n, OddPart(n), Pow(2, t), Pow(2, k), Pow(5, k), Pow(10, k), Pow(2, t + k));
  }

  lemma Rearrange(n: int, odd: int, a: int, b: int, c: int, ten: int, two: int)
    requires n == odd * a && ten == b * c && two == a * b
    ensures n * ten == (odd * c) * two
  {
    MulInterchange(odd, c, a, b);
  }

  lemma OddPartBounds(n: nat, k: nat)
    requires n > 0
    ensures n * Pow(10, k) > 0 && OddPart(n * Pow(10, k)) == OddPart(n) * Pow(5, k)
  {
    PowOfProduct(2, 5, k);
    PowerOf5IsOdd(k);
    OddPartOfProduct(n, Pow(5, k));
    OddPartOfShifted(n * Pow(5, k), k);
    hide Pow, OddPart;
    MulAssociate(n, Pow(5, k), Pow(2, k));
  }

  lemma QuarterUnits(i: Interval, n: nat, k: nat, den: nat)
    requires i.d == 4 * den
    ensures n * i.Unit(k) == 4 * (n * Pow(10, k) * den)
  {
    hide Pow;
    MulAssociate(n, Pow(10, k), 4 * den);
  }

  lemma FitsIsExact(f: Format, m: nat, e2: int, mmShift: bool, n: nat, k: nat)
    requires f.Valid()
    requires n > 0 && m > 0 && Normal(f, m, e2, mmShift)
    requires RoundingInterval(m, mmShift, Num(e2), Den(e2)).Accepted(n, k)
    requires OddPart(n) * Pow(5, k) < Pow(2, f.width)
    ensures n * Pow(10, k) * Den(e2) == m * Num(e2)
  {
    hide Pow, OddPart, Normal, Num, Den, RoundingInterval;
    var s := BinaryForm(n, k);
    IntervalUnit(m, mmShift, Num(e2), Den(e2));
    QuarterUnits(RoundingInterval(m, mmShift, Num(e2), Den(e2)), n, k, Den(e2));
    OnlyOneInInterval(f, m, e2, mmShift, s, OddPart(n) * Pow(5, k));
  }

  lemma IntervalUnit(m: nat, mmShift: bool, num: nat, den: nat)
    requires m > 0 && num > 0 && den > 0
    ensures RoundingInterval(m, mmShift, num, den).d == 4 * den
  {
  }

  lemma ExactFits(m: nat, e2: int, n: nat, k: nat)
    requires n > 0 && m > 0 && n * Pow(10, k) * Den(e2) == m * Num(e2)
    ensures OddPart(n) * Pow(5, k) <= m
  {
    hide Pow, OddPart;
    PowZeroOf2();
    OddPartBounds(n, k);
    OddPartOfShifted(n * Pow(10, k), if e2 >= 0 then 0 else -e2);
    OddPartOfShifted(m, if e2 >= 0 then e2 else 0);
  }

  lemma PowZeroOf2()
    ensures Pow(2, 0) == 1
  {
  }

  // The exactness criterion, with the width of the format in place of the table.
  lemma ExactIffFits(f: Format, m: nat, e2: int, mmShift: bool, n: nat, k: nat)
    requires f.Valid()
    requires n > 0 && m > 0 && Normal(f, m, e2, mmShift)
    requires RoundingInterval(m, mmShift, Num(e2), Den(e2)).Accepted(n, k)
    ensures OddPart(n) * Pow(5, k) < Pow(2, f.width) <==> n * Pow(10, k) * Den(e2) == m * Num(e2)
  {
    hide Pow, OddPart, Num, Den, RoundingInterval;
    if OddPart(n) * Pow(5, k) < Pow(2, f.width) {
      FitsIsExact(f, m, e2, mmShift, n, k);
    }
    if n * Pow(10, k) * Den(e2) == m * Num(e2) {
      ExactFits(m, e2, n, k);
    }
  }

  // Each table entry is a fifth of the one before it, and the last is below 5.
  predicate IsThresholdTable(table: seq<nat>, limit: nat)
  {
    && |table| > 0 && table[0] == limit && table[|table| - 1] < 5
    && forall k: nat :: 0 < k < |table| ==> table[k] == table[k - 1] / 5
  }

  lemma {:induction false} ThresholdEntry(table: seq<nat>, limit: nat, k: nat)
    requires IsThresholdTable(table, limit) && k < |table|
    ensures table[k] == limit / Pow(5, k)
  {
    if k > 0 {
      ThresholdEntry(table, limit, k - 1);
      DivDiv(limit, Pow(5, k - 1), 5);
      PowStep(5, k);
    }
  }

  // Comparing with the table is comparing with the limit after multiplying.
  lemma ThresholdTest(table: seq<nat>, limit: nat, k: nat, x: nat)
    requires IsThresholdTable(table, limit) && x > 0
    ensures (k < |table| && x <= table[k]) <==> x * Pow(5, k) <= limit
  {
    if k < |table| {
      ThresholdEntry(table, limit, k);
      DivAtLeast(limit, Pow(5, k), x);
    } else {
      BeyondTable(table, limit, k);
      MulMonotone(1, x, Pow(5, k), Pow(5, k));
    }
  }

  lemma BeyondTable(table: seq<nat>, limit: nat, k: nat)
    requires IsThresholdTable(table, limit) && k >= |table|
    ensures Pow(5, k) > limit
  {
    var last := |table| - 1;
    ThresholdEntry(table, limit, last);
    DivAtLeast(limit, Pow(5, last), 5);
    PowStep(5, |table|);
    PowExponentMonotone(5, |table|, k);
  }

  lemma FloatTable()
    ensures IsThresholdTable(MAX_SHIFTED_MANTISSA_FLOAT, 16777215) && Pow(2, 24) == 16777216
  {
    PowAdd(2, 12, 12);
  }

  lemma DoubleTable()
    ensures IsThresholdTable(MAX_SHIFTED_MANTISSA_DOUBLE, 9007199254740991) && Pow(2, 53) == 9007199254740992
  {
    hide Pow;
    Pow2At53();
  }

  // The zero-filled output of a float is exact if and only if it is chosen.
  lemma CanUseRyuFloatExact(m: nat, e2: int, mmShift: bool, n: nat, k: nat)
    requires n > 0 && m > 0 && Normal(FLOAT, m, e2, mmShift)
    requires RoundingInterval(m, mmShift, Num(e2), Den(e2)).Accepted(n, k)
    ensures CanUseRyuFloat(n, k) <==> n * Pow(10, k) * Den(e2) == m * Num(e2)
  {
    hide Pow, OddPart, Num, Den, RoundingInterval, Normal, IsThresholdTable;
    FloatTable();
    ThresholdTest(MAX_SHIFTED_MANTISSA_FLOAT, 16777215, k, OddPart(n));
    ExactIffFits(FLOAT, m, e2, mmShift, n, k);
  }

  // And likewise for a double.
  lemma CanUseRyuDoubleExact(m: nat, e2: int, mmShift: bool, n: nat, k: nat)
    requires n > 0 && m > 0 && Normal(DOUBLE, m, e2, mmShift)
    requires RoundingInterval(m, mmShift, Num(e2), Den(e2)).Accepted(n, k)
    ensures CanUseRyuDouble(n, k) <==> n * Pow(10, k) * Den(e2) == m * Num(e2)
  {
    hide Pow, OddPart, Num, Den, RoundingInterval, Normal, IsThresholdTable;
    DoubleTable();
    ThresholdTest(MAX_SHIFTED_MANTISSA_DOUBLE, 9007199254740991, k, OddPart(n));
    ExactIffFits(DOUBLE, m, e2, mmShift, n, k);
  }
}
