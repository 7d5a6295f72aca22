// Deciding how to round: __pow5Factor, __multipleOfPowerOf2 and _5, and the
// three-way rounding mode of __d2fixed_buffered_n and __d2exp_buffered_n.
module Rounding {
  import opened Arith
  import opened Words

  // --- round half to even ---

  // The integer nearest to num / den, the even one of two that are equally near.
  function RoundHalfEven(num: nat, den: nat): (n: nat)
    requires den > 0
  {
    var q, r := num / den, num % den;
    if 2 * r < den || (2 * r == den && q % 2 == 0) then q else q + 1
  }

  ghost predicate NearestEven(n: nat, num: nat, den: int)
  {
    var off := 2 * (n * den - num);
    -den <= off <= den && (off == den || off == -den ==> n % 2 == 0)
  }

  // RoundHalfEven is the one integer that is nearest, ties going to even.
  lemma RoundHalfEvenIff(n: nat, num: nat, den: nat)
    requires den > 0
    ensures n == RoundHalfEven(num, den) <==> NearestEven(n, num, den)
  {
    var q, r := num / den, num % den;
    DivMod(num, den);
    DistributeSub(n, q, den);
    var d := n - q;
    if d <= -1 {
      MulAtLeast(-d, den);
      NegateProduct(d, den);
      FarBelow(d, den, r);
    } else if d >= 2 {
      DistributeSub(d, 1, den);
      MulAtLeast(d - 1, den);
    } else {
      assert d == 0 || d == 1;
    }
  }

  lemma NegateProduct(d: int, den: int)
    ensures (-d) * den == -(d * den)
  {
  }

  lemma FarBelow(d: int, den: int, r: int)
    requires d * den <= -den && 0 <= r < den
    ensures 2 * (d * den - r) <= -den - den
  {
  }

  // 0: keep the digits; 1: round up; 2: round up if odd (lines 630-638 and 837-851).
  function RoundMode(lastDigit: nat, trailingZeros: bool): (mode: nat)
  {
    if lastDigit != 5 then (if lastDigit > 5 then 1 else 0)
    else if trailingZeros then 2 else 1
  }

  function Rounded(q: nat, mode: nat): (n: nat)
  {
    if mode == 1 || (mode == 2 && q % 2 != 0) then q + 1 else q
  }

  // Which mode is right: the remainder is below, above or equal to one half.
  function TrueMode(num: nat, den: nat): (mode: nat)
    requires den > 0
    ensures mode <= 2
  {
    var r := num % den;
    if 2 * r < den then 0 else if 2 * r > den then 1 else 2
  }

  lemma TrueModeRounds(num: nat, den: nat)
    requires den > 0
    ensures Rounded(num / den, TrueMode(num, den)) == RoundHalfEven(num, den)
  {
  }

  lemma NextDigit(num: nat, den: nat)
    requires den > 0
    ensures num * 10 / den == 10 * (num / den) + num % den * 10 / den
    ensures num % den * 10 / den < 10
    ensures num * 10 % den == num % den * 10 % den
  {
    DivMod(num, den);
    var q, r := num / den, num % den;
    DistributeAdd(q * den, r, 10);
    assert num * 10 == r * 10 + (10 * q) * den;
    ModAddMultiple(r * 10, 10 * q, den);
    DivAtLeast(r * 10, den, 10);
  }

  // One more digit, and whether anything follows it, tell the remainder from one half.
  lemma ModeDecides(num: nat, den: nat, lastDigit: nat, trailingZeros: bool)
    requires den > 0 && lastDigit == num * 10 / den % 10
    requires lastDigit == 5 ==> (trailingZeros <==> num * 10 % den == 0)
    ensures num * 10 / den / 10 == num / den
    ensures RoundMode(lastDigit, trailingZeros) == TrueMode(num, den)
  {
    NextDigit(num, den);
    var q, r := num / den, num % den;
    DivUnique(num * 10 / den, 10, q, r * 10 / den);
    assert lastDigit == r * 10 / den;
    DivMod(r * 10, den);
    DivAtLeast(r * 10, den, 5);
    DivAtLeast(r * 10, den, 6);
  }

  // --- what divides what ---

  predicate TwoAndFive(p: nat, q: nat) { (p == 2 && q == 5) || (p == 5 && q == 2) }

  lemma Multiple(x: int, d: int, y: int)
    requires d > 0 && x == y * d
    ensures x % d == 0 && x / d == y
  {
    DivUnique(x, d, y, 0);
  }

  lemma DivisibleStep(m: nat, p: nat, d: nat)
    requires p > 0 && d > 0
    ensures p * d > 0 && (m % (p * d) == 0 <==> m % p == 0 && m / p % d == 0)
  {
    ModProduct(m, p, d);
    var r := m / p % d;
    if r > 0 {
      MulAtLeast(r, p);
    }
  }

  lemma PrimeCancels(m: nat, p: nat, q: nat)
    requires TwoAndFive(p, q)
    ensures (q * m) % p == 0 <==> m % p == 0
    ensures m % p == 0 ==> q * m / p == q * (m / p)
  {
  }

  // The other prime makes no difference.
  lemma {:induction false} CancelFactor(m: nat, p: nat, q: nat, j: nat)
    requires TwoAndFive(p, q)
    ensures (q * m) % Pow(p, j) == 0 <==> m % Pow(p, j) == 0
    decreases j
  {
    if j > 0 {
      PowStep(p, j);
      var d := Pow(p, j - 1);
      hide Pow;
      DivisibleStep(m, p, d);
      DivisibleStep(q * m, p, d);
      PrimeCancels(m, p, q);
      CancelFactor(m / p, p, q, j - 1);
    }
  }

  lemma {:induction false} CancelPower(m: nat, p: nat, q: nat, f: nat, j: nat)
    requires TwoAndFive(p, q)
    ensures (m * Pow(q, f)) % Pow(p, j) == 0 <==> m % Pow(p, j) == 0
    decreases f
  {
    if f > 0 {
      CancelPower(m, p, q, f - 1, j);
      CancelFactor(m * Pow(q, f - 1), p, q, j);
      PowStep(q, f);
      hide Pow;
      Reorder(m, q, Pow(q, f - 1));
    } else {
      assert m * Pow(q, 0) == m;
    }
  }

  lemma Reorder(m: int, q: int, r: int)
    ensures q * (m * r) == m * (q * r)
  {
  }

  lemma BothDivide(m: nat, s: nat, f: nat)
    ensures m % (Pow(2, s) * Pow(5, f)) == 0 <==> m % Pow(2, s) == 0 && m % Pow(5, f) == 0
  {
    var a, b := Pow(2, s), Pow(5, f);
    DivisibleStep(m, b, a);
    if m % b == 0 {
      DivMod(m, b);
      CancelPower(m / b, 2, 5, f, s);
    } else if m % (a * b) == 0 {
      DivisibleStep(m, b, a);
    }
  }

  lemma {:induction false} TwosNeeded(m: nat, x: nat, y: nat)
    ensures (m * Pow(2, x)) % Pow(2, y) == 0 <==> y <= x || m % Pow(2, y - x) == 0
  {
    if y <= x {
      PowAdd(2, x - y, y);
      hide Pow;
      MulAssociate(m, Pow(2, x - y), Pow(2, y));
      Multiple(m * Pow(2, x), Pow(2, y), m * Pow(2, x - y));
    } else {
      PowAdd(2, x, y - x);
      hide Pow;
      ScaledDivides(m, Pow(2, y - x), Pow(2, x));
    }
  }

  lemma ScaledDivides(m: nat, d: nat, k: nat)
    requires d > 0 && k > 0
    ensures k * d > 0 && ((m * k) % (k * d) == 0 <==> m % d == 0)
  {
    DivisibleStep(m * k, k, d);
    Multiple(m * k, k, m);
  }

  // --- trailing zeros ---

  // m * 2^e2 * 10^rexp as a fraction.
  ghost function ScaledNum(m: nat, e2: int, rexp: int): nat
  {
    m * Pow(2, Above(e2)) * Pow(10, Above(rexp))
  }

  ghost function ScaledDen(e2: int, rexp: int): (den: nat)
    ensures den > 0
  {
    var a, b := Pow(2, Above(-e2)), Pow(10, Above(-rexp));
    MulAtLeast(a, b);
    a * b
  }

  // m * 2^e2 * 10^rexp, cut off and rounded.
  ghost function FloorAt(m: nat, e2: int, rexp: int): nat { ScaledNum(m, e2, rexp) / ScaledDen(e2, rexp) }

  ghost function NearestAt(m: nat, e2: int, rexp: int)
    : nat { RoundHalfEven(ScaledNum(m, e2, rexp), ScaledDen(e2, rexp)) }

  lemma NumScale(m: nat, e2: int, rexp: int, x: int)
    requires x <= rexp
    ensures ScaledNum(m, e2, rexp) == ScaledNum(m, e2, x) * Pow(10, Above(rexp) - Above(x))
  {
    PowAdd(10, Above(x), Above(rexp) - Above(x));
    hide Pow;
    MulAssociate(m * Pow(2, Above(e2)), Pow(10, Above(x)), Pow(10, Above(rexp) - Above(x)));
  }

  lemma DenScale(e2: int, rexp: int, x: int)
    requires x <= rexp
    ensures ScaledDen(e2, rexp) * Pow(10, rexp - x) == ScaledDen(e2, x) * Pow(10, Above(rexp) - Above(x))
  {
    var t := Above(rexp) - Above(x);
    PowAdd(10, Above(-rexp), rexp - x);
    PowAdd(10, Above(-x), t);
    hide Pow;
    MulAssociate(Pow(2, Above(-e2)), Pow(10, Above(-rexp)), Pow(10, rexp - x));
    MulAssociate(Pow(2, Above(-e2)), Pow(10, Above(-x)), Pow(10, t));
  }

  lemma RatioDrop(num: nat, den: nat, num': nat, den': nat, t: nat, p: nat)
    requires den > 0 && den' > 0 && t > 0 && p > 0 && num == num' * t && den * p == den' * t
    ensures num / den / p == num' / den'
  {
    DivDiv(num, den, p);
    DivCancel(num', den', t);
  }

  // How the scaled value is to be rounded.
  ghost function ModeOf(m: nat, e2: int, rexp: int): (mode: nat)
    ensures mode <= 2
  {
    TrueMode(ScaledNum(m, e2, rexp), ScaledDen(e2, rexp))
  }

  lemma ModeRounds(m: nat, e2: int, rexp: int)
    ensures Rounded(FloorAt(m, e2, rexp), ModeOf(m, e2, rexp)) == NearestAt(m, e2, rexp)
  {
    hide ScaledNum, ScaledDen;
    TrueModeRounds(ScaledNum(m, e2, rexp), ScaledDen(e2, rexp));
  }

  // Cutting off d digits of the scaled value scales it back.
  lemma FloorDrop(m: nat, e2: int, rexp: int, d: nat)
    ensures FloorAt(m, e2, rexp) / Pow(10, d) == FloorAt(m, e2, rexp - d)
  {
    hide Pow, ScaledNum, ScaledDen;
    var x := rexp - d;
    NumScale(m, e2, rexp, x);
    DenScale(e2, rexp, x);
    RatioDrop(ScaledNum(m, e2, rexp), ScaledDen(e2, rexp), ScaledNum(m, e2, x), ScaledDen(e2, x),
              Pow(10, Above(rexp) - Above(x)), Pow(10, d));
  }

  // The scaled value is an integer.
  ghost predicate Exact(m: nat, e2: int, rexp: int) { ScaledNum(m, e2, rexp) % ScaledDen(e2, rexp) == 0 }

  // More digits of an integer are zeros.
  lemma ExactScales(m: nat, e2: int, rexp: int, d: nat)
    requires Exact(m, e2, rexp)
    ensures Exact(m, e2, rexp + d) && FloorAt(m, e2, rexp + d) == FloorAt(m, e2, rexp) * Pow(10, d)
    ensures ModeOf(m, e2, rexp + d) == 0
  {
    hide Pow, ScaledNum, ScaledDen;
    var x := rexp + d;
    NumScale(m, e2, x, rexp);
    DenScale(e2, x, rexp);
    ExactRatio(ScaledNum(m, e2, x), ScaledDen(e2, x), ScaledNum(m, e2, rexp), ScaledDen(e2, rexp),
               Pow(10, Above(x) - Above(rexp)), Pow(10, d));
  }

  lemma ExactRatio(num: nat, den: nat, num': nat, den': nat, t: nat, p: nat)
    requires den > 0 && den' > 0 && num == num' * t && den * p == den' * t && num' % den' == 0
    ensures num % den == 0 && num / den == num' / den' * p
  {
    var q := num' / den';
    DivMod(num', den');
    MulAssociate(q, den', t);
    MulAssociate(q, p, den);
    DivUnique(num, den, q * p, 0);
  }

  // Seeing one more digit of the scaled value.
  lemma OneMoreDigit(m: nat, e2: int, rexp: int)
    ensures ScaledNum(m, e2, rexp) * 10 / ScaledDen(e2, rexp) == FloorAt(m, e2, rexp + 1)
    ensures ScaledNum(m, e2, rexp) * 10 % ScaledDen(e2, rexp) == 0 <==> Exact(m, e2, rexp + 1)
  {
    NumScale(m, e2, rexp + 1, rexp);
    DenScale(e2, rexp + 1, rexp);
    var num, den, num', den' := ScaledNum(m, e2, rexp), ScaledDen(e2, rexp), ScaledNum(m, e2, rexp + 1), ScaledDen(e2,
                                          rexp + 1);
    assert Pow(10, 1) == 10;
    if rexp >= 0 {
      hide Pow, ScaledNum, ScaledDen;
      assert num' == num * 10 && den' == den;
    } else {
      assert Pow(10, 0) == 1;
      hide Pow, ScaledNum, ScaledDen;
      assert num' == num && den' * 10 == den;
      DivCancel(num, den', 10);
      ScaledDivides(num, den', 10);
    }
  }

  // The digit behind the ones kept, and the trailing-zero test, give the right mode.
  lemma ModeAt(m: nat, e2: int, rexp: int, lastDigit: nat)
    requires DoubleSignificand(m) && lastDigit == FloorAt(m, e2, rexp + 1) % 10
    ensures RoundMode(lastDigit, TrailingZeros(m, e2, rexp + 1)) == ModeOf(m, e2, rexp)
  {
    hide Pow, ScaledNum, ScaledDen, DoubleSignificand, TrailingZeros, RoundMode, TrueMode;
    OneMoreDigit(m, e2, rexp);
    TrailingZerosExact(m, e2, rexp + 1);
    ModeDecides(ScaledNum(m, e2, rexp), ScaledDen(e2, rexp), lastDigit, TrailingZeros(m, e2, rexp + 1));
  }

  // The binary half of the test (lines 634-636 and 843-845).
  predicate EnoughTwos(m: nat, requiredTwos: int)
  {
    requiredTwos <= 0 || (requiredTwos < 60 && m % Pow(2, requiredTwos) == 0)
  }

  // The significand of a nonzero double: 53 bits.
  ghost predicate DoubleSignificand(m: nat) { 0 < m < Pow(2, 53) }

  // A double's significand never has 60 factors of two.
  lemma EnoughTwosExact(m: nat, requiredTwos: int)
    requires DoubleSignificand(m)
    ensures EnoughTwos(m, requiredTwos) <==> requiredTwos <= 0 || m % Pow(2, requiredTwos) == 0
  {
    if requiredTwos >= 60 {
      PowExponentMonotone(2, 53, requiredTwos);
      hide Pow;
      DivUnique(m, Pow(2, requiredTwos), 0, m);
    }
  }

  lemma TenSplits(n: nat)
    ensures Pow(10, n) == Pow(2, n) * Pow(5, n)
  {
    PowOfProduct(2, 5, n);
  }

  lemma WithoutFives(m: nat, e2: int, b: nat)
    ensures Exact(m, e2, b) <==> -e2 - b <= 0 || m % Pow(2, -e2 - b) == 0
  {
    var a, c := Above(e2), Above(-e2);
    TenSplits(b);
    assert ScaledDen(e2, b) == Pow(2, c) by { assert Pow(10, 0) == 1; }
    PowAdd(2, a, b);
    CancelPower(m * Pow(2, a + b), 2, 5, b, c);
    TwosNeeded(m, a + b, c);
    hide Pow;
    Regroup(m, Pow(2, a), Pow(2, b), Pow(5, b));
  }

  lemma Regroup(m: int, x: int, y: int, z: int)
    ensures m * x * (y * z) == m * (x * y) * z
  {
    MulAssociate(m * x, y, z);
    MulAssociate(m, x, y);
  }

  lemma WithFives(m: nat, e2: int, f: int)
    requires f > 0
    ensures Exact(m, e2, -f)
        <==> (-e2 + f <= 0 || m % Pow(2, -e2 + f) == 0) && m % Pow(5, f) == 0
  {
    var a, c := Above(e2), Above(-e2);
    TenSplits(f);
    PowAdd(2, c, f);
    assert ScaledNum(m, e2, -f) == m * Pow(2, a) by { assert Pow(10, 0) == 1; }
    BothDivide(m * Pow(2, a), c + f, f);
    CancelPower(m, 5, 2, a, f);
    TwosNeeded(m, a, c + f);
    hide Pow;
    MulAssociate(Pow(2, c), Pow(2, f), Pow(5, f));
  }

  // What lines 634-636 and 842-849 ask for: m * 2^e2 * 10^rexp is an integer.
  predicate TrailingZeros(m: nat, e2: int, rexp: int)
  {
    EnoughTwos(m, -e2 - rexp) && (rexp < 0 ==> m % Pow(5, -rexp) == 0)
  }

  lemma TrailingZerosExact(m: nat, e2: int, rexp: int)
    requires DoubleSignificand(m)
    ensures TrailingZeros(m, e2, rexp) <==> Exact(m, e2, rexp)
  {
    hide Pow, ScaledNum, ScaledDen, EnoughTwos, DoubleSignificand;
    EnoughTwosExact(m, -e2 - rexp);
    if rexp >= 0 {
      WithoutFives(m, e2, rexp);
    } else {
      WithFives(m, e2, -rexp);
    }
  }

  // __pow5Factor, with the 32-bit remainder of lines 293-294.
  method Pow5Factor(x: U64) returns (count: nat)
    requires x != 0
    ensures x % Pow(5, count) == 0 && x % Pow(5, count + 1) != 0
  {
    var value := x;
    count := 0;
    StartFactor(x);
    while true
      invariant value != 0 && x == value * Pow(5, count)
      decreases value
    {
      var q := Div5(value);
      var r := ModBy(value, 5, q);
      FactorStep(x, value, count);
      if r != 0 {
        break;
      }
      value := q;
      count := count + 1;
    }
  }

  lemma StartFactor(x: nat)
    ensures x == x * Pow(5, 0)
  {
  }

  lemma FactorStep(x: nat, value: nat, count: nat)
    requires value > 0 && x == value * Pow(5, count)
    ensures x % Pow(5, count) == 0
    ensures value % 5 != 0 ==> x % Pow(5, count + 1) != 0
    ensures value % 5 == 0 ==> 0 < value / 5 < value && x == value / 5 * Pow(5, count + 1)
  {
    PowStep(5, count + 1);
    var p := Pow(5, count);
    hide Pow;
    Multiple(x, p, value);
    DivisibleStep(x, p, 5);
    if value % 5 == 0 {
      MulAssociate(value / 5, 5, p);
    }
  }

  lemma PowDivides(x: nat, p: nat, count: nat)
    requires x % Pow(5, count) == 0 && p <= count
    ensures x % Pow(5, p) == 0
  {
    PowAdd(5, p, count - p);
    hide Pow;
    DivisibleStep(x, Pow(5, p), Pow(5, count - p));
  }

  method MultipleOfPowerOf5(x: U64, p: nat) returns (r: bool)
    requires x != 0
    ensures r <==> x % Pow(5, p) == 0
  {
    hide Pow;
    var count := Pow5Factor(x);
    r := count >= p;
    if r {
      PowDivides(x, p, count);
    } else if x % Pow(5, p) == 0 {
      PowDivides(x, count + 1, p);
    }
  }
}
