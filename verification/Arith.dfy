// Powers, Euclidean division and the few facts about them that the rest of the
// project is built on.  Everything here is about mathematical integers.
module Arith {

  function Pow(b: nat, e: nat): (p: nat)
    ensures b > 0 ==> p > 0
  {
    if e == 0 then 1 else b * Pow(b, e - 1)
  }

  // The part of an exponent above zero.
  function Above(e: int): (n: nat) { if e > 0 then e else 0 }

  lemma PowStep(b: nat, e: nat)
    requires e > 0
    ensures Pow(b, e) == b * Pow(b, e - 1)
  {
  }

  lemma MulAssociate(a: int, b: int, c: int)
    ensures a * (b * c) == (a * b) * c
  {
  }

  // Replacing a product by its value inside a larger product.
  lemma MulSubstitute(a: int, b: int, c: int, r: int)
    requires b * c == a
    ensures (r * b) * c == r * a && r * (b * c) == r * a
  {
  }

  lemma MulInterchange(a: int, b: int, c: int, d: int)
    ensures (a * b) * (c * d) == (a * c) * (b * d)
  {
    MulAssociate(a, b, c * d);
    MulAssociate(b, c, d);
    MulAssociate(c, b, d);
    MulAssociate(a, c, b * d);
  }

  lemma {:induction false} PowAdd(b: nat, e: nat, f: nat)
    ensures Pow(b, e + f) == Pow(b, e) * Pow(b, f)
  {
    if e == 0 {
    } else {
      PowAdd(b, e - 1, f);
      MulAssociate(b, Pow(b, e - 1), Pow(b, f));
    }
  }

  lemma {:induction false} PowMul(b: nat, e: nat, f: nat)
    ensures Pow(Pow(b, e), f) == Pow(b, e * f)
  {
    if f == 0 {
    } else {
      PowMul(b, e, f - 1);
      assert e * f == e + e * (f - 1);
      PowAdd(b, e, e * (f - 1));
    }
  }

  lemma {:induction false} PowOfProduct(a: nat, b: nat, e: nat)
    ensures Pow(a * b, e) == Pow(a, e) * Pow(b, e)
  {
    if e == 0 {
    } else {
      PowOfProduct(a, b, e - 1);
      MulInterchange(a, b, Pow(a, e - 1), Pow(b, e - 1));
    }
  }

  lemma MulMonotone(a: nat, b: nat, c: nat, d: nat)
    requires a <= b && c <= d
    ensures a * c <= b * d
  {
    assert a * c <= b * c;
    assert b * c <= b * d;
  }

  lemma {:induction false} PowBaseMonotone(a: nat, b: nat, e: nat)
    requires a <= b
    ensures Pow(a, e) <= Pow(b, e)
  {
    if e == 0 {
    } else {
      PowBaseMonotone(a, b, e - 1);
      MulMonotone(a, b, Pow(a, e - 1), Pow(b, e - 1));
    }
  }

  lemma {:induction false} PowExponentMonotone(b: nat, e: nat, f: nat)
    requires b > 0 && e <= f
    ensures Pow(b, e) <= Pow(b, f)
    decreases f - e
  {
    if e < f {
      PowExponentMonotone(b, e, f - 1);
      MulMonotone(1, b, Pow(b, f - 1), Pow(b, f - 1));
    }
  }

  lemma MulAtLeast(k: int, d: int)
    requires k >= 1 && d >= 0
    ensures k * d >= d
  {
    assert (k - 1) * d >= 0;
  }

  lemma CancelLess(a: nat, b: nat, d: nat)
    requires a * d < b * d
    ensures a < b
  {
    if b <= a {
      MulMonotone(b, a, d, d);
    }
  }

  lemma CancelEqual(a: int, b: int, d: int)
    requires d != 0 && a * d == b * d
    ensures a == b
  {
  }

  lemma DistributeSub(a: int, b: int, d: int)
    ensures (a - b) * d == a * d - b * d
  {
  }

  lemma DistributeAdd(a: int, b: int, d: int)
    ensures (a + b) * d == a * d + b * d
  {
  }

  lemma DivMod(x: int, d: int)
    requires d > 0
    ensures x == (x / d) * d + x % d && 0 <= x % d < d
  {
  }

  // The quotient and remainder are the only ones there are.
  lemma DivUnique(x: int, d: int, q: int, r: int)
    requires 0 <= r < d && x == q * d + r
    ensures x / d == q && x % d == r
  {
    SameQuotient(d, q, r, x / d, x % d);
  }

  lemma SameQuotient(d: int, q: int, r: int, q': int, r': int)
    requires 0 <= r < d && 0 <= r' < d && q * d + r == q' * d + r'
    ensures q == q' && r == r'
  {
    if q > q' {
      DistributeSub(q, q', d);
      MulAtLeast(q - q', d);
    } else if q < q' {
      DistributeSub(q', q, d);
      MulAtLeast(q' - q, d);
    }
  }

  lemma DivDiv(x: nat, a: nat, b: nat)
    requires a > 0 && b > 0
    ensures a * b > 0 && x / a / b == x / (a * b)
  {
    var q, r := x / a, x % a;
    var s, t := q / b, q % b;
    DivMod(x, a);
    DivMod(q, b);
    DistributeAdd(s * b, t, a);
    assert (s * b) * a == s * (a * b);
    DistributeSub(b, t, a);
    MulAtLeast(b - t, a);
    DivUnique(x, a * b, s, t * a + r);
  }

  // Being divisible by a product, digit group by digit group.
  lemma ModProduct(x: nat, a: nat, b: nat)
    requires a > 0 && b > 0
    ensures a * b > 0 && x % (a * b) == x / a % b * a + x % a
  {
    var q, r := x / a, x % a;
    var s, t := q / b, q % b;
    DivMod(x, a);
    DivMod(q, b);
    DistributeAdd(s * b, t, a);
    MulAssociate(s, b, a);
    DistributeSub(b, t, a);
    MulAtLeast(b - t, a);
    DivUnique(x, a * b, s, t * a + r);
  }

  lemma DivAtLeast(x: int, d: int, q: int)
    requires d > 0
    ensures q <= x / d <==> q * d <= x
  {
    DivMod(x, d);
    if q <= x / d {
      assert (x / d - q) * d >= 0;
      DistributeSub(x / d, q, d);
    } else {
      DistributeSub(q, x / d, d);
      MulAtLeast(q - x / d, d);
    }
  }

  lemma DivMonotone(x: int, y: int, d: int)
    requires d > 0 && x <= y
    ensures x / d <= y / d
  {
    DivMod(x, d);
    DivAtLeast(y, d, x / d);
  }

  lemma DivCancel(x: nat, d: nat, k: nat)
    requires d > 0 && k > 0
    ensures d * k > 0 && (x * k) / (d * k) == x / d
  {
    DivMod(x, d);
    var q, r := x / d, x % d;
    assert x * k == (q * d + r) * k;
    assert (q * d + r) * k == q * (d * k) + r * k;
    assert r * k < d * k;
    DivUnique(x * k, d * k, q, r * k);
  }

  lemma ModAddMultiple(x: int, k: int, d: int)
    requires d > 0
    ensures (x + k * d) % d == x % d && (x + k * d) / d == x / d + k
  {
    DivMod(x, d);
    assert x + k * d == (x / d + k) * d + x % d;
    DivUnique(x + k * d, d, x / d + k, x % d);
  }

  lemma Pow2At32()
    ensures Pow(2, 32) == 0x1_0000_0000
  {
    PowAdd(2, 8, 8);
    PowAdd(2, 16, 16);
    assert Pow(2, 8) == 256;
  }

  lemma Pow2At64()
    ensures Pow(2, 64) == 0x1_0000_0000_0000_0000
  {
    Pow2At32();
    PowAdd(2, 32, 32);
  }

  lemma Pow2At128()
    ensures Pow(2, 128) == 0x1_0000_0000_0000_0000_0000_0000_0000_0000
  {
    Pow2At64();
    PowAdd(2, 64, 64);
  }

  lemma Pow2At21()
    ensures Pow(2, 21) == 0x20_0000
  {
    assert Pow(2, 10) == 1024;
    PowStep(2, 11);
    PowAdd(2, 10, 11);
  }

  lemma Pow2At53()
    ensures Pow(2, 53) == 0x20_0000_0000_0000
  {
    Pow2At32();
    Pow2At21();
    PowAdd(2, 32, 21);
  }
}
