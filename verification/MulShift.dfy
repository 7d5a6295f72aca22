// Multiplying a mantissa by a table entry of several words and shifting the
// product right: __mulShift_mod1e9, __mulShift and __mulShiftAll, each in the
// form for 64-bit targets and in the portable form.
module MulShift {
  import opened Arith
  import opened Words

  // An entry of the three-word tables (__POW10_SPLIT and __POW10_SPLIT_2).
  datatype Mul3 = Mul3(w0: U64, w1: U64, w2: U64) {
    function Value(): (v: nat) {
      w2 * 0x1_0000_0000_0000_0000_0000_0000_0000_0000 + w1 * 0x1_0000_0000_0000_0000 + w0
    }
  }

  // The upper 128 of the 256 bits of m * mul (the words at bit 128 and bit 192).
  function High128(m: U64, mul: Mul3): (r: Wide)
  {
    var p0, p1, p2 := Umul128(m, mul.w0), Umul128(m, mul.w1), Umul128(m, mul.w2);
    var s0high := Low64(p1.lo + p0.hi);
    var c1 := if s0high < p1.lo then 1 else 0;
    var s1low := Low64(p2.lo + p1.hi + c1);
    var c2 := if s1low < p2.lo then 1 else 0;
    Wide(s1low, Low64(p2.hi + c2))
  }

  lemma High128Exact(m: U64, mul: Mul3)
    ensures High128(m, mul).Value() == m * mul.Value() / 0x1_0000_0000_0000_0000_0000_0000_0000_0000
  {
    hide Umul128, Low64, Wide.Value;
    Umul128Exact(m, mul.w0);
    Umul128Exact(m, mul.w1);
    Umul128Exact(m, mul.w2);
    ProductRoom(m, mul.w1);
    ProductRoom(m, mul.w2);
    ThreeWordProduct(m, mul);
    TwoCarries(Umul128(m, mul.w0), Umul128(m, mul.w1), Umul128(m, mul.w2), m * mul.Value());
  }

  lemma ThreeWordProduct(m: U64, mul: Mul3)
    ensures m * mul.Value() == (m * mul.w2) * 0x1_0000_0000_0000_0000_0000_0000_0000_0000
                             + (m * mul.w1) * 0x1_0000_0000_0000_0000 + m * mul.w0
  {
    DistributeAdd(mul.w2 * 0x1_0000_0000_0000_0000_0000_0000_0000_0000 + mul.w1 * 0x1_0000_0000_0000_0000, mul.w0, m);
    DistributeAdd(mul.w2 * 0x1_0000_0000_0000_0000_0000_0000_0000_0000, mul.w1 * 0x1_0000_0000_0000_0000, m);
  }

  lemma CarryChain(p0: Wide, p1: Wide, p2: Wide)
    requires p1.hi < 0xFFFF_FFFF_FFFF_FFFF
    ensures var s0high := Low64(p1.lo + p0.hi);
            var c1 := if s0high < p1.lo then 1 else 0;
            var s1low := Low64(p2.lo + p1.hi + c1);
            var c2 := if s1low < p2.lo then 1 else 0;
            Wide(s1low, Low64(p2.hi + c2)) == AddCarry(p2, AddCarry(p1, p0.hi).hi)
  {
    var c1 := if Low64(p1.lo + p0.hi) < p1.lo then 1 else 0;
    Fits64(p1.hi + c1);
  }

  lemma TwoCarries(p0: Wide, p1: Wide, p2: Wide, product: nat)
    requires p1.hi < 0xFFFF_FFFF_FFFF_FFFF && p2.hi < 0xFFFF_FFFF_FFFF_FFFF
    requires product == p2.Value() * 0x1_0000_0000_0000_0000_0000_0000_0000_0000
                      + p1.Value() * 0x1_0000_0000_0000_0000 + p0.Value()
    ensures var s0high := Low64(p1.lo + p0.hi);
            var c1 := if s0high < p1.lo then 1 else 0;
            var s1low := Low64(p2.lo + p1.hi + c1);
            var c2 := if s1low < p2.lo then 1 else 0;
            Wide(s1low, Low64(p2.hi + c2)).Value()
            == product / 0x1_0000_0000_0000_0000_0000_0000_0000_0000
  {
    var first, second := AddCarry(p1, p0.hi), AddCarry(p2, AddCarry(p1, p0.hi).hi);
    CarryChain(p0, p1, p2);
    hide Low64, AddCarry;
    AddCarryExact(p1, p0.hi);
    AddCarryExact(p2, first.hi);
    DivUnique(product, 0x1_0000_0000_0000_0000_0000_0000_0000_0000, second.Value(),
              first.lo * 0x1_0000_0000_0000_0000 + p0.lo);
  }

  lemma Pow2Split(j: nat)
    requires j >= 128
    ensures Pow(2, j) == 0x1_0000_0000_0000_0000_0000_0000_0000_0000 * Pow(2, j - 128)
  {
    PowAdd(2, 128, j - 128);
    Pow2At128();
  }

  // The number whose residue both forms of __mulShift_mod1e9 compute.
  lemma High128Shifted(m: U64, mul: Mul3, j: nat)
    requires j >= 128
    ensures High128(m, mul).Value() / Pow(2, j - 128) == m * mul.Value() / Pow(2, j)
  {
    hide High128, Wide.Value, Mul3.Value;
    High128Exact(m, mul);
    DivDiv(m * mul.Value(), 0x1_0000_0000_0000_0000_0000_0000_0000_0000, Pow(2, j - 128));
    Pow2Split(j);
  }

  // __mulShift_mod1e9 for x64: a 128-bit shift, then one 256-bit product.
  function MulShiftMod1e9X64(m: U64, mul: Mul3, j: nat): (r: U32)
    requires 128 <= j <= 180
  {
    var s1, p := High128(m, mul), Pow(2, j - 128);
    Uint128Mod1e9(Wide(Low64(s1.Value() / p), Low64(s1.hi / p)))
  }

  lemma ShiftWide(v: Wide, p: nat)
    requires p > 0
    ensures Wide(Low64(v.Value() / p), Low64(v.hi / p)).Value() == v.Value() / p
  {
    hide Low64, Wide.Value;
    var x := v.Value();
    WideQuotient(v);
    DivDiv(x, 0x1_0000_0000_0000_0000, p);
    DivDiv(x, p, 0x1_0000_0000_0000_0000);
    QuotientShrinks(v.hi, p);
    Fits64(v.hi / p);
    SplitWide(x / p);
  }

  lemma QuotientShrinks(x: nat, p: nat)
    requires p > 0
    ensures 0 <= x / p <= x
  {
    DivAtLeast(x, p, 0);
    DivAtLeast(x, p, x + 1);
    MulMonotone(1, p, x + 1, x + 1);
  }

  lemma SplitWide(y: nat)
    requires y / 0x1_0000_0000_0000_0000 < 0x1_0000_0000_0000_0000
    ensures Wide(Low64(y), y / 0x1_0000_0000_0000_0000).Value() == y
  {
  }

  lemma MulShiftMod1e9X64Exact(m: U64, mul: Mul3, j: nat)
    requires 128 <= j <= 180
    ensures MulShiftMod1e9X64(m, mul, j) == m * mul.Value() / Pow(2, j) % 1000000000
  {
    hide High128, Uint128Mod1e9, Mul3.Value, Low64, Wide.Value;
    var s1, p := High128(m, mul), Pow(2, j - 128);
    ShiftWide(s1, p);
    High128Shifted(m, mul, j);
    Uint128Mod1e9Exact(Wide(Low64(s1.Value() / p), Low64(s1.hi / p)));
  }

  // The portable __mulShift_mod1e9: reduce from the top, 32 bits at a time, and
  // shift only what is left.
  function MulShiftMod1e9Portable(m: U64, mul: Mul3, j: nat): (r: U32)
    requires 128 <= j <= 180
  {
    var s1 := High128(m, mul);
    var r0 := Mod1e9(s1.hi);
    if j < 160 then
      var r1 := Mod1e9(r0 * 0x1_0000_0000 + High32(s1.lo));
      var r2 := r1 * 0x1_0000_0000 + Low32(s1.lo);
      Mod1e9(Low64(r2 / Pow(2, j - 128)))
    else
      var r1 := r0 * 0x1_0000_0000 + High32(s1.lo);
      Mod1e9(Low64(r1 / Pow(2, j - 160)))
  }

  // Dropping a multiple of n before a shift by p keeps the residue modulo n,
  // as long as that multiple is also a multiple of p.
  lemma ResidueAfterShift(v: nat, x: nat, n: nat, t: nat, p: nat)
    requires n > 0 && p > 0 && v == x + (t * n) * p
    ensures v / p % n == x / p % n
  {
    ModAddMultiple(x, t * n, p);
    ModAddMultiple(x / p, t, n);
  }

  lemma ResidueAfterShift32(v: nat, x: nat, k: nat, s: nat)
    requires s <= 32 && v == x + k * 0x1_0000_0000 * 1000000000
    ensures v / Pow(2, s) % 1000000000 == x / Pow(2, s) % 1000000000
  {
    hide Pow;
    var r, p := Pow(2, 32 - s), Pow(2, s);
    assert r * p == 0x1_0000_0000 by {
      PowAdd(2, 32 - s, s);
      Pow2At32();
    }
    MulSubstitute(0x1_0000_0000, r, p, k);
    assert (k * r * 1000000000) * p == ((k * r) * p) * 1000000000;
    ResidueAfterShift(v, x, 1000000000, k * r, p);
  }

  lemma StagedBelow160(v: Wide, s: nat)
    requires s < 32
    ensures var high := Mod1e9(Mod1e9(v.hi) * 0x1_0000_0000 + High32(v.lo));
            Mod1e9(Low64((high * 0x1_0000_0000 + Low32(v.lo)) / Pow(2, s))) == v.Value() / Pow(2, s) % 1000000000
  {
    WideHalves(v);
    hide Low64, Mod1e9, Low32, High32, Wide.Value, Pow;
    var h: int, l: int, r0: int := High32(v.lo), Low32(v.lo), Mod1e9(v.hi);
    DivMod(v.hi, 1000000000);
    var t: int := r0 * 0x1_0000_0000 + h;
    var r1: int := Mod1e9(t);
    DivMod(t, 1000000000);
    TwoReductions(v.hi, h, l, r0, v.hi / 1000000000, r1, t / 1000000000);
    var r2: int := r1 * 0x1_0000_0000 + l;
    ResidueAfterShift32(v.Value(), r2, v.hi / 1000000000 * 0x1_0000_0000 + t / 1000000000, s);
    ShiftedFits(r2, s);
  }

  lemma WideHalves(v: Wide)
    ensures v.Value() == v.hi * 0x1_0000_0000_0000_0000 + (High32(v.lo) * 0x1_0000_0000 + Low32(v.lo))
  {
    Halves(v.lo);
    hide High32, Low32;
  }

  lemma TwoReductions(hi: int, h: int, l: int, r0: int, q0: int, r1: int, q1: int)
    requires hi == q0 * 1000000000 + r0 && r0 * 0x1_0000_0000 + h == q1 * 1000000000 + r1
    ensures hi * 0x1_0000_0000_0000_0000 + (h * 0x1_0000_0000 + l)
         == r1 * 0x1_0000_0000 + l + (q0 * 0x1_0000_0000 + q1) * 0x1_0000_0000 * 1000000000
  {
  }

  lemma StagedFrom160(v: Wide, s: nat)
    requires s <= 20
    ensures Mod1e9(Low64((Mod1e9(v.hi) * 0x1_0000_0000 + High32(v.lo)) / Pow(2, s)))
         == v.Value() / 0x1_0000_0000 / Pow(2, s) % 1000000000
  {
    UpperWords(v);
    hide Low64, Mod1e9, High32, Wide.Value, Pow;
    var h: int, r0: int := High32(v.lo), Mod1e9(v.hi);
    DivMod(v.hi, 1000000000);
    OneReduction(v.hi, h, r0, v.hi / 1000000000);
    ResidueAfterShift32(v.hi * 0x1_0000_0000 + h, r0 * 0x1_0000_0000 + h, v.hi / 1000000000, s);
    ShiftedFits(r0 * 0x1_0000_0000 + h, s);
  }

  lemma ShiftedFits(x: U64, s: nat)
    ensures 0 <= x / Pow(2, s) < 0x1_0000_0000_0000_0000 && Low64(x / Pow(2, s)) == x / Pow(2, s)
  {
    hide Pow, Low64;
    QuotientShrinks(x, Pow(2, s));
    Fits64(x / Pow(2, s));
  }

  lemma UpperWords(v: Wide)
    ensures v.Value() / 0x1_0000_0000 == v.hi * 0x1_0000_0000 + High32(v.lo)
  {
    Halves(v.lo);
    hide High32, Low32;
    DivUnique(v.Value(), 0x1_0000_0000, v.hi * 0x1_0000_0000 + High32(v.lo), Low32(v.lo));
  }

  lemma OneReduction(hi: int, h: int, r0: int, q0: int)
    requires hi == q0 * 1000000000 + r0
    ensures hi * 0x1_0000_0000 + h == r0 * 0x1_0000_0000 + h + q0 * 0x1_0000_0000 * 1000000000
  {
  }

  lemma TwoShifts(x: nat, j: nat)
    requires j >= 160
    ensures x / 0x1_0000_0000 / Pow(2, j - 160) == x / Pow(2, j - 128)
  {
    PowAdd(2, 32, j - 160);
    Pow2At32();
    hide Pow;
    DivDiv(x, 0x1_0000_0000, Pow(2, j - 160));
  }

  lemma MulShiftMod1e9PortableExact(m: U64, mul: Mul3, j: nat)
    requires 128 <= j <= 180
    ensures MulShiftMod1e9Portable(m, mul, j) == m * mul.Value() / Pow(2, j) % 1000000000
  {
    hide High128, Mul3.Value, Low64, Wide.Value, Low32, High32, Mod1e9, Pow;
    var s1 := High128(m, mul);
    High128Shifted(m, mul, j);
    if j < 160 {
      StagedBelow160(s1, j - 128);
    } else {
      StagedFrom160(s1, j - 160);
      TwoShifts(s1.Value(), j);
    }
  }

  // __mulShift_mod1e9 is one function, whichever way it was compiled.
  lemma MulShiftMod1e9Agree(m: U64, mul: Mul3, j: nat)
    requires 128 <= j <= 180
    ensures MulShiftMod1e9X64(m, mul, j) == MulShiftMod1e9Portable(m, mul, j)
  {
    MulShiftMod1e9X64Exact(m, mul, j);
    MulShiftMod1e9PortableExact(m, mul, j);
  }

  // __ryu_shiftright128 without the intrinsic, on 64-bit targets.  The two parts
  // have no bit in common, so combining them with a bitwise or is adding them.
  function ShiftRight128(lo: U64, hi: U64, dist: nat): (r: U64)
    requires 0 < dist < 64
    ensures r == Low64(Wide(lo, hi).Value() / Pow(2, dist))
  {
    ShiftParts(lo, hi, Pow(2, dist), Pow(2, 64 - dist), dist);
    Low64(hi * Pow(2, 64 - dist)) + lo / Pow(2, dist)
  }

  lemma ShiftParts(lo: U64, hi: U64, p: nat, r: nat, dist: nat)
    requires 0 < dist < 64 && p == Pow(2, dist) && r == Pow(2, 64 - dist)
    ensures Low64(hi * r) + lo / p == Low64(Wide(lo, hi).Value() / p)
  {
    hide Low64, Pow, Wide.Value;
    PowAdd(2, 64 - dist, dist);
    Pow2At64();
    ShiftedValue(lo, hi, p, r);
    ShiftedHigh(hi, p, r);
    LowOfShifted(hi / p, hi % p, p, r, lo);
  }

  lemma ShiftedValue(lo: U64, hi: U64, p: nat, r: nat)
    requires r * p == 0x1_0000_0000_0000_0000
    ensures p > 0 && Wide(lo, hi).Value() / p == hi * r + lo / p
  {
    MulSubstitute(0x1_0000_0000_0000_0000, r, p, hi);
    ModAddMultiple(lo, hi * r, p);
  }

  lemma ShiftedHigh(hi: U64, p: nat, r: nat)
    requires r * p == 0x1_0000_0000_0000_0000
    ensures p > 0 && hi / p >= 0 && hi * r == hi / p * 0x1_0000_0000_0000_0000 + hi % p * r
  {
    DivMod(hi, p);
    DivAtLeast(hi, p, 0);
    ScaleSplit(hi, hi / p, hi % p, p, r);
  }

  lemma ScaleSplit(x: int, a: int, b: int, p: int, r: int)
    requires x == a * p + b && r * p == 0x1_0000_0000_0000_0000
    ensures x * r == a * 0x1_0000_0000_0000_0000 + b * r
  {
    DistributeAdd(a * p, b, r);
    MulSubstitute(0x1_0000_0000_0000_0000, p, r, a);
  }

  // The word (a * p + b) * r with the bits shifted out at the top dropped.
  lemma LowOfShifted(a: nat, b: nat, p: nat, r: nat, lo: U64)
    requires b < p && r * p == 0x1_0000_0000_0000_0000
    ensures Low64(a * 0x1_0000_0000_0000_0000 + b * r) == b * r
    ensures Low64(a * 0x1_0000_0000_0000_0000 + b * r + lo / p) == b * r + lo / p
  {
    hide Low64;
    var q := lo / p;
    assert 0 <= q < r by {
      DivMod(lo, p);
      DivAtLeast(lo, p, 0);
      DivAtLeast(lo, p, r);
    }
    assert 0 <= b * r <= 0x1_0000_0000_0000_0000 - r by {
      MulMonotone(b, p - 1, r, r);
      DistributeSub(p, 1, r);
    }
    Low64Congruent(b * r, a);
    Fits64(b * r);
    Low64Congruent(b * r + q, a);
    Fits64(b * r + q);
  }

  // __ryu_shiftright128 on 32-bit targets, which uses that the distance is at least 32.
  function ShiftRight128Narrow(lo: U64, hi: U64, dist: nat): (r: U64)
    requires 32 <= dist < 64
    ensures r == ShiftRight128(lo, hi, dist)
  {
    DivDiv(lo, 0x1_0000_0000, Pow(2, dist - 32));
    PowAdd(2, 32, dist - 32);
    Pow2At32();
    assert Low64(hi * Pow(2, 64 - dist)) + High32(lo) / Pow(2, dist - 32) == ShiftRight128(lo, hi, dist);
    Low64(hi * Pow(2, 64 - dist)) + High32(lo) / Pow(2, dist - 32)
  }

  // __mulShift for x64: the entry of the two-word table is mul.lo, mul.hi.
  function MulShiftX64(m: U64, mul: Wide, j: nat): (r: U64)
    requires 64 < j < 128
  {
    var high1, high0 := Umul128(m, mul.hi), Umul128(m, mul.lo).hi;
    var sum := Low64(high0 + high1.lo);
    ShiftRight128(sum, if sum < high0 then Low64(high1.hi + 1) else high1.hi, j - 64)
  }

  lemma TwoWordProduct(m: U64, mul: Wide)
    ensures m * mul.Value() == (m * mul.hi) * 0x1_0000_0000_0000_0000 + m * mul.lo
  {
    DistributeAdd(mul.hi * 0x1_0000_0000_0000_0000, mul.lo, m);
  }

  lemma MulShiftX64Exact(m: U64, mul: Wide, j: nat)
    requires 64 < j < 128
    ensures MulShiftX64(m, mul, j) == Low64(m * mul.Value() / Pow(2, j))
  {
    hide Umul128, Wide.Value, Pow;
    var high1, low := Umul128(m, mul.hi), Umul128(m, mul.lo);
    var sum := Low64(low.hi + high1.lo);
    var v := Wide(sum, if sum < low.hi then Low64(high1.hi + 1) else high1.hi);
    Umul128Exact(m, mul.hi);
    Umul128Exact(m, mul.lo);
    ProductRoom(m, mul.hi);
    TwoWordProduct(m, mul);
    MiddleCarry(low, high1, m * mul.Value());
    DivDiv(m * mul.Value(), 0x1_0000_0000_0000_0000, Pow(2, j - 64));
    PowAdd(2, 64, j - 64);
    Pow2At64();
  }

  lemma MiddleCarry(low: Wide, high1: Wide, product: nat)
    requires high1.hi < 0xFFFF_FFFF_FFFF_FFFF
    requires product == high1.Value() * 0x1_0000_0000_0000_0000 + low.Value()
    ensures var sum := Low64(low.hi + high1.lo);
            Wide(sum, if sum < low.hi then Low64(high1.hi + 1) else high1.hi).Value()
            == product / 0x1_0000_0000_0000_0000
  {
    var sum := Low64(low.hi + high1.lo);
    DivUnique(product, 0x1_0000_0000_0000_0000, high1.Value() + low.hi, low.lo);
  }
}
