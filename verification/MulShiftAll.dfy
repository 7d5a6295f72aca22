// Portable __mulShiftAll: the three products of Step 3 are derived from one
// shared product by adding, subtracting and doubling in three words.
module MulShiftAll {
  import opened Arith
  import opened Words
  import opened MulShift

  datatype Triple = Triple(lo: U64, mid: U64, hi: U64) {
    function Value(): (v: nat) {
      hi * 0x1_0000_0000_0000_0000_0000_0000_0000_0000 + mid * 0x1_0000_0000_0000_0000 + lo
    }
  }

  datatype Bounds = Bounds(vr: U64, vp: U64, vm: U64)

  function Bit(b: bool): (r: int) { if b then 1 else 0 }

  // Lines 1667-1670: the product of a word and a table entry of two words.
  function SharedProduct(m: U64, mul: Wide): (t: Triple)
  {
    var p0, p1 := Umul128(m, mul.lo), Umul128(m, mul.hi);
    var mid := Low64(p0.hi + p1.lo);
    Triple(p0.lo, mid, Low64(p1.hi + Bit(mid < p0.hi)))
  }

  // Lines 1672-1674.
  function AddEntry(t: Triple, mul: Wide): (r: Triple)
  {
    var lo := Low64(t.lo + mul.lo);
    var mid := Low64(t.mid + mul.hi + Bit(lo < t.lo));
    Triple(lo, mid, Low64(t.hi + Bit(mid < t.mid)))
  }

  // Lines 1678-1680 and 1686-1688.
  function SubtractEntry(t: Triple, mul: Wide): (r: Triple)
  {
    var lo := Low64(t.lo - mul.lo);
    var mid := Low64(t.mid - mul.hi - Bit(lo > t.lo));
    Triple(lo, mid, Low64(t.hi - Bit(mid > t.mid)))
  }

  // Lines 1683-1685.
  function DoubleTriple(t: Triple): (r: Triple)
  {
    var lo := Low64(t.lo + t.lo);
    var mid := Low64(t.mid + t.mid + Bit(lo < t.lo));
    Triple(lo, mid, Low64(t.hi + t.hi + Bit(mid < t.mid)))
  }

  // What the function's comments ask for: at most 54 bits of mantissa, at most 124
  // bits of table entry, and a shift distance in the range of the 32-bit code path.
  predicate Admissible(m: nat, mul: Wide, j: nat)
  {
    1 <= m < 0x40_0000_0000_0000 && mul.hi < 0x1000_0000_0000_0000 && 97 <= j < 128
  }

  function MulShiftAllPortable(m: nat, mul: Wide, j: nat, mmShift: bool): (r: Bounds)
    requires Admissible(m, mul, j)
  {
    var t := SharedProduct(2 * m, mul);
    var up := AddEntry(t, mul);
    var down := if mmShift then SubtractEntry(t, mul) else SubtractEntry(DoubleTriple(t), mul);
    Bounds(ShiftRight128Narrow(t.mid, t.hi, j - 65),
           ShiftRight128Narrow(up.mid, up.hi, j - 65),
           ShiftRight128Narrow(down.mid, down.hi, if mmShift then j - 65 else j - 64))
  }

  function MulShiftAllX64(m: nat, mul: Wide, j: nat, mmShift: bool): (r: Bounds)
    requires Admissible(m, mul, j)
  {
    Bounds(MulShiftX64(4 * m, mul, j),
           MulShiftX64(4 * m + 2, mul, j),
           MulShiftX64(4 * m - 1 - Bit(mmShift), mul, j))
  }

  // One word of an addition or a subtraction, with the carry or borrow found by
  // comparing the truncated result with the first operand.
  lemma AddWord(a: U64, b: int)
    requires 0 <= b < 0x1_0000_0000_0000_0000
    ensures a + b == Low64(a + b) + Bit(Low64(a + b) < a) * 0x1_0000_0000_0000_0000
  {
  }

  lemma SubtractWord(a: U64, b: int)
    requires 0 <= b < 0x1_0000_0000_0000_0000
    ensures a - b == Low64(a - b) - Bit(Low64(a - b) > a) * 0x1_0000_0000_0000_0000
  {
  }

  lemma SharedProductExact(m: U64, mul: Wide)
    ensures SharedProduct(m, mul).Value() == m * mul.Value()
  {
    hide Umul128, Low64, Wide.Value;
    var p0, p1 := Umul128(m, mul.lo), Umul128(m, mul.hi);
    Umul128Exact(m, mul.lo);
    Umul128Exact(m, mul.hi);
    ProductRoom(m, mul.hi);
    TwoWordProduct(m, mul);
    SharedCarry(p0, p1);
  }

  lemma SharedCarry(p0: Wide, p1: Wide)
    requires p1.hi < 0xFFFF_FFFF_FFFF_FFFF
    ensures var mid := Low64(p0.hi + p1.lo);
            Triple(p0.lo, mid, Low64(p1.hi + Bit(mid < p0.hi))).Value()
            == p1.Value() * 0x1_0000_0000_0000_0000 + p0.Value()
  {
    AddWord(p0.hi, p1.lo);
    Fits64(p1.hi + Bit(Low64(p0.hi + p1.lo) < p0.hi));
    hide Low64;
  }

  lemma TripleSum(t: Triple, mul: Wide, lo: U64, mid: U64, hi: U64, c0: int, c1: int, sign: int)
    requires sign == 1 || sign == -1
    requires t.lo + sign * mul.lo == lo + sign * (c0 * 0x1_0000_0000_0000_0000)
    requires t.mid + sign * (mul.hi + c0) == mid + sign * (c1 * 0x1_0000_0000_0000_0000)
    requires hi == t.hi + sign * c1
    ensures Triple(lo, mid, hi).Value() == t.Value() + sign * mul.Value()
  {
  }

  lemma AddEntryExact(t: Triple, mul: Wide)
    requires t.hi < 0xFFFF_FFFF_FFFF_FFFF && mul.hi < 0xFFFF_FFFF_FFFF_FFFF
    ensures AddEntry(t, mul).Value() == t.Value() + mul.Value()
  {
    hide Low64, Triple.Value, Wide.Value;
    AddWord(t.lo, mul.lo);
    var c0 := Bit(Low64(t.lo + mul.lo) < t.lo);
    AddWord(t.mid, mul.hi + c0);
    var c1 := Bit(Low64(t.mid + mul.hi + c0) < t.mid);
    Fits64(t.hi + c1);
    var r := AddEntry(t, mul);
    TripleSum(t, mul, r.lo, r.mid, r.hi, c0, c1, 1);
  }

  lemma SubtractEntryExact(t: Triple, mul: Wide)
    requires mul.Value() <= t.Value() && mul.hi < 0xFFFF_FFFF_FFFF_FFFF
    ensures SubtractEntry(t, mul).Value() == t.Value() - mul.Value()
  {
    hide Low64;
    SubtractWord(t.lo, mul.lo);
    var c0 := Bit(Low64(t.lo - mul.lo) > t.lo);
    SubtractWord(t.mid, mul.hi + c0);
    var c1 := Bit(Low64(t.mid - mul.hi - c0) > t.mid);
    Fits64(t.hi - c1);
    var r := SubtractEntry(t, mul);
    hide Triple.Value, Wide.Value;
    TripleSum(t, mul, r.lo, r.mid, r.hi, c0, c1, -1);
  }

  // The comparison that detects the carry out of the middle word misses it in one
  // case: every bit of the word is set and a carry comes in.
  predicate DoublingLosesCarry(t: Triple)
  {
    t.mid == 0xFFFF_FFFF_FFFF_FFFF && t.lo >= 0x8000_0000_0000_0000
  }

  lemma DoubleTripleExact(t: Triple)
    requires t.hi < 0x7FFF_FFFF_FFFF_FFFF
    ensures DoubleTriple(t).Value()
         == 2 * t.Value() - Bit(DoublingLosesCarry(t)) * 0x1_0000_0000_0000_0000_0000_0000_0000_0000
    ensures DoubleTriple(t).mid == Low64(2 * t.mid + Bit(t.lo >= 0x8000_0000_0000_0000))
  {
    hide Low64;
    AddWord(t.lo, t.lo);
    var carry := Bit(Low64(t.lo + t.lo) < t.lo);
    assert carry == Bit(t.lo >= 0x8000_0000_0000_0000);
    DoubleMiddle(t.mid, carry);
    Fits64(t.hi + t.hi + Bit(Low64(t.mid + t.mid + carry) < t.mid));
  }

  lemma DoubleMiddle(mid: U64, carry: int)
    requires 0 <= carry <= 1
    ensures var low, lost := Low64(mid + mid + carry), Bit(mid == 0xFFFF_FFFF_FFFF_FFFF && carry == 1);
            2 * mid + carry == low + (Bit(low < mid) + lost) * 0x1_0000_0000_0000_0000
  {
  }

  lemma ShiftTriple(t: Triple, dist: nat)
    requires 32 <= dist < 64
    ensures ShiftRight128Narrow(t.mid, t.hi, dist) == Low64(t.Value() / Pow(2, 64 + dist))
  {
    hide Low64, ShiftRight128Narrow, ShiftRight128, Pow;
    DivUnique(t.Value(), 0x1_0000_0000_0000_0000, Wide(t.mid, t.hi).Value(), t.lo);
    DivDiv(t.Value(), 0x1_0000_0000_0000_0000, Pow(2, dist));
    PowAdd(2, 64, dist);
    Pow2At64();
  }

  // Shifting the doubled product one place further.
  lemma HalfShift(x: nat, j: nat)
    requires j > 0
    ensures x / Pow(2, j - 1) == (2 * x) / Pow(2, j)
  {
    DivCancel(x, Pow(2, j - 1), 2);
  }

  lemma ProductSize(m: nat, mul: Wide)
    requires 1 <= m < 0x40_0000_0000_0000 && mul.hi < 0x1000_0000_0000_0000
    ensures SharedProduct(2 * m, mul).hi < 0x1000_0000_0000_0000
    ensures mul.Value() <= (2 * m) * mul.Value()
  {
    hide SharedProduct;
    SharedProductExact(2 * m, mul);
    MulMonotone(2 * m, 0x80_0000_0000_0000, mul.Value(), 0x1000_0000_0000_0000_0000_0000_0000_0000);
    MulMonotone(1, 2 * m, mul.Value(), mul.Value());
  }

  lemma Multiples(m: nat, v: nat)
    ensures 2 * ((2 * m) * v) == (4 * m) * v
    ensures 2 * ((2 * m) * v + v) == (4 * m + 2) * v
    ensures 2 * ((2 * m) * v - v) == (4 * m - 2) * v
    ensures 2 * ((2 * m) * v) - v == (4 * m - 1) * v
  {
  }

  lemma MiddleAgrees(m: nat, mul: Wide, j: nat, mmShift: bool)
    requires Admissible(m, mul, j)
    ensures MulShiftAllPortable(m, mul, j, mmShift).vr == MulShiftX64(4 * m, mul, j)
  {
    hide SharedProduct, AddEntry, SubtractEntry, DoubleTriple, ShiftRight128Narrow, MulShiftX64, Low64, Pow,
         Triple.Value, Wide.Value;
    var t := SharedProduct(2 * m, mul);
    SharedProductExact(2 * m, mul);
    ShiftTriple(t, j - 65);
    HalfShift(t.Value(), j);
    Multiples(m, mul.Value());
    MulShiftX64Exact(4 * m, mul, j);
  }

  lemma UpperAgrees(m: nat, mul: Wide, j: nat, mmShift: bool)
    requires Admissible(m, mul, j)
    ensures MulShiftAllPortable(m, mul, j, mmShift).vp == MulShiftX64(4 * m + 2, mul, j)
  {
    hide SharedProduct, AddEntry, SubtractEntry, DoubleTriple, ShiftRight128Narrow, MulShiftX64, Low64, Pow,
         Triple.Value, Wide.Value;
    var t := SharedProduct(2 * m, mul);
    SharedProductExact(2 * m, mul);
    ProductSize(m, mul);
    AddEntryExact(t, mul);
    ShiftTriple(AddEntry(t, mul), j - 65);
    HalfShift(t.Value() + mul.Value(), j);
    Multiples(m, mul.Value());
    MulShiftX64Exact(4 * m + 2, mul, j);
  }

  lemma LowerAgrees(m: nat, mul: Wide, j: nat)
    requires Admissible(m, mul, j)
    ensures MulShiftAllPortable(m, mul, j, true).vm == MulShiftX64(4 * m - 2, mul, j)
  {
    hide SharedProduct, AddEntry, SubtractEntry, DoubleTriple, ShiftRight128Narrow, MulShiftX64, Low64, Pow,
         Triple.Value, Wide.Value;
    var t := SharedProduct(2 * m, mul);
    SharedProductExact(2 * m, mul);
    ProductSize(m, mul);
    SubtractEntryExact(t, mul);
    ShiftTriple(SubtractEntry(t, mul), j - 65);
    HalfShift(t.Value() - mul.Value(), j);
    Multiples(m, mul.Value());
    MulShiftX64Exact(4 * m - 2, mul, j);
  }

  // The one family of inputs on which line 1685 misses a carry, as the caller
  // sees it: the low 128 bits of twice the product are within 2^63 of wrapping.
  predicate NearWrap(m: nat, mul: Wide)
  {
    (2 * m) * mul.Value() % 0x1_0000_0000_0000_0000_0000_0000_0000_0000
      >= 0x1_0000_0000_0000_0000_0000_0000_0000_0000 - 0x8000_0000_0000_0000
  }

  lemma NearWrapIsLostCarry(m: nat, mul: Wide)
    requires m < 0x40_0000_0000_0000
    ensures NearWrap(m, mul) <==> DoublingLosesCarry(SharedProduct(2 * m, mul))
  {
    hide SharedProduct;
    var t := SharedProduct(2 * m, mul);
    SharedProductExact(2 * m, mul);
    DivUnique(t.Value(), 0x1_0000_0000_0000_0000_0000_0000_0000_0000, t.hi, t.mid * 0x1_0000_0000_0000_0000 + t.lo);
  }

  lemma Low64Distinct(x: int, r: int)
    requires 0 < r < 0x1_0000_0000_0000_0000
    ensures Low64(x - r) != Low64(x)
  {
  }

  lemma PowBelow64(d: nat)
    requires d < 64
    ensures Pow(2, d) < 0x1_0000_0000_0000_0000
  {
    PowExponentMonotone(2, d, 63);
    PowAdd(2, 1, 63);
    Pow2At64();
  }

  // Every bit of the high word that survives the shift shows in the result.
  lemma HighWordMatters(lo: U64, hi: U64, dist: nat)
    requires 0 < dist < 64
    ensures ShiftRight128(lo, Low64(hi - 1), dist) != ShiftRight128(lo, hi, dist)
  {
    var r := Pow(2, 64 - dist);
    PowBelow64(64 - dist);
    OneLess(hi, r);
    Low64Distinct(hi * r, r);
    hide Pow, Low64;
  }

  lemma OneLess(hi: U64, r: nat)
    ensures Low64(Low64(hi - 1) * r) == Low64(hi * r - r)
  {
    var k := (hi - 1) / 0x1_0000_0000_0000_0000;
    DivMod(hi - 1, 0x1_0000_0000_0000_0000);
    hide Low64;
    Low64Remainder(hi - 1);
    DistributeSub(hi - 1, k * 0x1_0000_0000_0000_0000, r);
    DistributeSub(hi, 1, r);
    Low64Congruent(hi * r - r, -(k * r));
  }

  lemma Low64Remainder(x: int)
    ensures Low64(x) == x - x / 0x1_0000_0000_0000_0000 * 0x1_0000_0000_0000_0000
  {
  }

  // What DoubleTriple should have returned.
  function Doubled(t: Triple): (r: Triple)
    requires t.hi < 0x7FFF_FFFF_FFFF_FFFF
  {
    DoubleTripleExact(t);
    var d := DoubleTriple(t);
    Triple(d.lo, d.mid, Low64(d.hi + Bit(DoublingLosesCarry(t))))
  }

  lemma DoubledExact(t: Triple)
    requires t.hi < 0x1000_0000_0000_0000
    ensures Doubled(t).Value() == 2 * t.Value()
  {
    hide DoubleTriple, Low64;
    DoubleTripleExact(t);
    var d := DoubleTriple(t);
    assert d.hi < 0x7FFF_FFFF_FFFF_FFFF;
    Fits64(d.hi + Bit(DoublingLosesCarry(t)));
  }

  lemma SubtractFromDoubled(t: Triple, mul: Wide)
    requires t.hi < 0x7FFF_FFFF_FFFF_FFFF
    ensures var wrong, right := SubtractEntry(DoubleTriple(t), mul), SubtractEntry(Doubled(t), mul);
            wrong.mid == right.mid && wrong.hi == Low64(right.hi - Bit(DoublingLosesCarry(t)))
  {
    hide DoubleTriple, Low64;
    var d := DoubleTriple(t);
    var lo := Low64(d.lo - mul.lo);
    var mid := Low64(d.mid - mul.hi - Bit(lo > d.lo));
    LostBitSurvives(d.hi, Bit(mid > d.mid), Bit(DoublingLosesCarry(t)));
  }

  lemma LostBitSurvives(hi: U64, borrow: int, lost: int)
    ensures Low64(hi - borrow) == Low64(Low64(Low64(hi + lost) - borrow) - lost)
  {
    Low64Remainder(hi + lost);
    Low64Congruent(hi + lost - borrow, -((hi + lost) / 0x1_0000_0000_0000_0000));
    Low64Remainder(hi + lost - borrow);
    Low64Congruent(hi - borrow, -((hi + lost - borrow) / 0x1_0000_0000_0000_0000));
  }

  lemma DoubledLower(m: nat, mul: Wide, j: nat)
    requires Admissible(m, mul, j)
    ensures SharedProduct(2 * m, mul).hi < 0x1000_0000_0000_0000
    ensures var right := SubtractEntry(Doubled(SharedProduct(2 * m, mul)), mul);
            MulShiftX64(4 * m - 1, mul, j) == ShiftRight128Narrow(right.mid, right.hi, j - 64)
  {
    hide SharedProduct, SubtractEntry, DoubleTriple, Doubled, ShiftRight128Narrow, MulShiftX64, Low64, Pow,
         Triple.Value, Wide.Value;
    var t := SharedProduct(2 * m, mul);
    SharedProductExact(2 * m, mul);
    ProductSize(m, mul);
    DoubledExact(t);
    SubtractEntryExact(Doubled(t), mul);
    ShiftTriple(SubtractEntry(Doubled(t), mul), j - 64);
    Multiples(m, mul.Value());
    MulShiftX64Exact(4 * m - 1, mul, j);
  }

  lemma HalvedGapAgrees(m: nat, mul: Wide, j: nat)
    requires Admissible(m, mul, j)
    ensures MulShiftAllPortable(m, mul, j, false).vm == MulShiftX64(4 * m - 1, mul, j) <==> !NearWrap(m, mul)
  {
    hide SharedProduct, AddEntry, SubtractEntry, DoubleTriple, Doubled, MulShiftX64, Low64, Pow, Triple.Value,
         Wide.Value, NearWrap, ShiftRight128;
    var t := SharedProduct(2 * m, mul);
    DoubledLower(m, mul, j);
    SubtractFromDoubled(t, mul);
    NearWrapIsLostCarry(m, mul);
    var wrong, right := SubtractEntry(DoubleTriple(t), mul), SubtractEntry(Doubled(t), mul);
    if NearWrap(m, mul) {
      HighWordMatters(right.mid, right.hi, j - 64);
    } else {
      Fits64(right.hi);
    }
  }

  // Portable and x64 __mulShiftAll agree on all three results exactly when the
  // gap below is not halved or the doubled product stays clear of the wrap.
  lemma MulShiftAllAgree(m: nat, mul: Wide, j: nat, mmShift: bool)
    requires Admissible(m, mul, j)
    ensures MulShiftAllPortable(m, mul, j, mmShift) == MulShiftAllX64(m, mul, j, mmShift)
       <==> (mmShift || !NearWrap(m, mul))
  {
    hide MulShiftAllPortable, MulShiftX64, NearWrap, Low64;
    MiddleAgrees(m, mul, j, mmShift);
    UpperAgrees(m, mul, j, mmShift);
    if mmShift {
      LowerAgrees(m, mul, j);
    } else {
      HalvedGapAgrees(m, mul, j);
    }
  }

  // --- what __d2d passes ---

  // The entries of both tables are normalised, and the lower gap is halved only at
  // a power of two.
  predicate Passed(m: nat, mul: Wide, j: nat, mmShift: bool)
  {
    && Admissible(m, mul, j) && 0x100_0000_0000_0000 <= mul.hi <= 0x400_0000_0000_0000
    && (!mmShift ==> m == 0x10_0000_0000_0000)
  }

  // Bits 10 to 74 of the entry are all set.
  predicate LowOnes(mul: Wide)
  {
    mul.Value() / 1024 % 0x2_0000_0000_0000_0000 == 0x1_FFFF_FFFF_FFFF_FFFF
  }

  lemma ScaledWrap(v: nat)
    ensures 0x20_0000_0000_0000 * v % 0x1_0000_0000_0000_0000_0000_0000_0000_0000
         == 0x20_0000_0000_0000 * (v % 0x800_0000_0000_0000_0000)
  {
    DivMod(v, 0x800_0000_0000_0000_0000);
    DivUnique(0x20_0000_0000_0000 * v, 0x1_0000_0000_0000_0000_0000_0000_0000_0000,
              v / 0x800_0000_0000_0000_0000, 0x20_0000_0000_0000 * (v % 0x800_0000_0000_0000_0000));
  }

  // At that mantissa the lost carry is a matter of the entry alone.
  lemma NearWrapIsLowOnes(mul: Wide)
    ensures NearWrap(0x10_0000_0000_0000, mul) <==> LowOnes(mul)
  {
    var v := mul.Value();
    hide Wide.Value;
    ScaledWrap(v);
    ModProduct(v, 1024, 0x2_0000_0000_0000_0000);
  }

  lemma PassedAgree(m: nat, mul: Wide, j: nat, mmShift: bool)
    requires Passed(m, mul, j, mmShift)
    ensures MulShiftAllPortable(m, mul, j, mmShift) == MulShiftAllX64(m, mul, j, mmShift)
       <==> (mmShift || !LowOnes(mul))
  {
    hide MulShiftAllPortable, MulShiftAllX64, NearWrap, LowOnes;
    MulShiftAllAgree(m, mul, j, mmShift);
    NearWrapIsLowOnes(mul);
  }

  // A normalised entry on which the two compilations would differ.
  lemma LostCarryExample() returns (m: nat, mul: Wide, j: nat)
    ensures Passed(m, mul, j, false)
    ensures MulShiftAllPortable(m, mul, j, false) != MulShiftAllX64(m, mul, j, false)
  {
    hide MulShiftAllPortable, MulShiftAllX64;
    m, mul, j := 0x10_0000_0000_0000, Wide(0xFFFF_FFFF_FFFF_FFFF, 0x100_0000_0000_07FF), 115;
    PassedAgree(m, mul, j, false);
  }
}
