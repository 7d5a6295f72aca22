// 32-bit and 64-bit unsigned words: the multi-word multiplication and the
// division by reciprocal multiplication of the Ryu header, with every
// truncation written out.
module Words {
  import opened Arith

  type U32 = x: int | 0 <= x < 0x1_0000_0000
  type U64 = x: int | 0 <= x < 0x1_0000_0000_0000_0000

  // A cast to uint32_t, a cast to uint64_t, and the high half of a word.
  function Low32(x: int): (r: U32) { x % 0x1_0000_0000 }
  function Low64(x: int): (r: U64) { x % 0x1_0000_0000_0000_0000 }
  function High32(x: U64): (r: U32) { x / 0x1_0000_0000 }

  datatype Wide = Wide(lo: U64, hi: U64) {
    function Value(): (v: nat) { hi * 0x1_0000_0000_0000_0000 + lo }
  }

  // __ryu_umul128: four 32x32-bit products, then three column sums.
  function Umul128(a: U64, b: U64): (r: Wide)
  {
    var aLo: int, aHi: int, bLo: int, bHi: int := Low32(a), High32(a), Low32(b), High32(b);
    SumColumns(Low64(aLo * bLo), Low64(aLo * bHi), Low64(aHi * bLo), Low64(aHi * bHi))
  }

  function SumColumns(b00: U64, b01: U64, b10: U64, b11: U64): (r: Wide)
  {
    var mid1 := Low64(b10 + High32(b00));
    var mid2 := Low64(b01 + Low32(mid1));
    Wide(Low64(Low32(mid2) * 0x1_0000_0000) + Low32(b00),
         Low64(b11 + High32(mid1) + High32(mid2)))
  }

  lemma ColumnSums(b00: int, b01: int, b10: int, b11: int, h0: int, l0: int, h1: int, l1: int, h2: int, l2: int)
    requires 0 <= b00 <= 0xFFFF_FFFE_0000_0001 && 0 <= b01 <= 0xFFFF_FFFE_0000_0001
    requires 0 <= b10 <= 0xFFFF_FFFE_0000_0001 && 0 <= b11 <= 0xFFFF_FFFE_0000_0001
    requires b00 == h0 * 0x1_0000_0000 + l0 && 0 <= l0 < 0x1_0000_0000
    requires b10 + h0 == h1 * 0x1_0000_0000 + l1 && 0 <= l1 < 0x1_0000_0000
    requires b01 + l1 == h2 * 0x1_0000_0000 + l2 && 0 <= l2 < 0x1_0000_0000
    ensures b10 + h0 < 0x1_0000_0000_0000_0000 && b01 + l1 < 0x1_0000_0000_0000_0000
    ensures b11 + h1 + h2 < 0x1_0000_0000_0000_0000
    ensures (b11 + h1 + h2) * 0x1_0000_0000_0000_0000 + l2 * 0x1_0000_0000 + l0
         == b11 * 0x1_0000_0000_0000_0000 + (b10 + b01) * 0x1_0000_0000 + b00
  {
  }

  // No partial sum overflows when each column is a product of two 32-bit words.
  lemma SumColumnsExact(b00: U64, b01: U64, b10: U64, b11: U64)
    requires b00 <= 0xFFFF_FFFE_0000_0001 && b01 <= 0xFFFF_FFFE_0000_0001
    requires b10 <= 0xFFFF_FFFE_0000_0001 && b11 <= 0xFFFF_FFFE_0000_0001
    ensures SumColumns(b00, b01, b10, b11).Value()
         == b11 * 0x1_0000_0000_0000_0000 + (b10 + b01) * 0x1_0000_0000 + b00
  {
    hide Low32, Low64, High32;
    Halves(b00);
    var s: int := b10 + High32(b00);
    Fits64(s);
    Halves(s);
    var t: int := b01 + Low32(s);
    Fits64(t);
    Halves(t);
    ColumnSums(b00, b01, b10, b11, High32(b00), Low32(b00), High32(s), Low32(s), High32(t), Low32(t));
    Fits64(Low32(t) * 0x1_0000_0000);
    Fits64(b11 + High32(s) + High32(t));
  }

  lemma Fits64(x: U64)
    ensures Low64(x) == x
  {
  }

  lemma Halves(a: U64)
    ensures a == High32(a) * 0x1_0000_0000 + Low32(a)
  {
  }

  lemma Product32(x: U32, y: U32)
    ensures 0 <= x * y <= 0xFFFF_FFFE_0000_0001 && Low64(x * y) == x * y
  {
    MulMonotone(x, 0xFFFF_FFFF, y, 0xFFFF_FFFF);
  }

  lemma SchoolbookProduct(a: int, b: int, aLo: int, aHi: int, bLo: int, bHi: int, w: int)
    requires a == aHi * w + aLo && b == bHi * w + bLo
    ensures a * b == (aHi * bHi) * (w * w) + (aHi * bLo + aLo * bHi) * w + aLo * bLo
  {
    DistributeAdd(aHi * w, aLo, b);
    assert (aHi * w) * b == (aHi * bHi) * (w * w) + (aHi * bLo) * w;
    assert aLo * b == (aLo * bHi) * w + aLo * bLo;
    DistributeAdd(aHi * bLo, aLo * bHi, w);
  }

  // The portable product is the product the _umul128 intrinsic delivers.
  lemma Umul128Exact(a: U64, b: U64)
    ensures Umul128(a, b).Value() == a * b
  {
    Halves(a);
    Halves(b);
    Umul128Halves(a, b, Low32(a), High32(a), Low32(b), High32(b));
  }

  lemma Umul128Halves(a: U64, b: U64, aLo: U32, aHi: U32, bLo: U32, bHi: U32)
    requires a == aHi * 0x1_0000_0000 + aLo && b == bHi * 0x1_0000_0000 + bLo
    ensures SumColumns(Low64(aLo * bLo), Low64(aLo * bHi), Low64(aHi * bLo), Low64(aHi * bHi)).Value() == a * b
  {
    Product32(aLo, bLo);
    Product32(aLo, bHi);
    Product32(aHi, bLo);
    Product32(aHi, bHi);
    SumColumnsExact(aLo * bLo, aLo * bHi, aHi * bLo, aHi * bHi);
    SchoolbookProduct(a, b, aLo, aHi, bLo, bHi, 0x1_0000_0000);
  }

  // __umulh
  function Umulh(a: U64, b: U64): (r: U64)
    ensures r == a * b / 0x1_0000_0000_0000_0000
  {
    Umul128Exact(a, b);
    WideQuotient(Umul128(a, b));
    Umul128(a, b).hi
  }

  lemma WideQuotient(w: Wide)
    ensures w.Value() / 0x1_0000_0000_0000_0000 == w.hi
  {
  }

  // Multiplying by m and dropping the low part divides exactly by d, for every
  // x small enough that the excess of m*d over the power of two never reaches it.
  lemma Reciprocal(x: nat, d: nat, m: nat, power: nat, excess: nat)
    requires d > 0 && m * d == power + excess && excess * x < power
    ensures x * m / power == x / d
  {
    var q, r := x / d, x % d;
    DivMod(x, d);
    ReciprocalProduct(x, d, m, power, excess, q, r);
    ReciprocalRemainder(x, d, m, power, excess, q, r);
    DivUnique(x * m, power, q, q * excess + r * m);
  }

  lemma ReciprocalProduct(x: nat, d: nat, m: nat, power: nat, excess: nat, q: nat, r: nat)
    requires m * d == power + excess && x == q * d + r
    ensures x * m == q * power + (q * excess + r * m)
  {
    DistributeAdd(q * d, r, m);
    MulSubstitute(power + excess, d, m, q);
    DistributeAdd(power, excess, q);
  }

  lemma ScaledRemainder(x: nat, d: nat, m: nat, power: nat, excess: nat, q: nat, r: nat)
    requires m * d == power + excess && x == q * d + r
    ensures (q * excess + r * m) * d == excess * x + power * r
  {
    DistributeAdd(q * excess, r * m, d);
    MulSubstitute(x - r, q, d, excess);
    MulSubstitute(power + excess, m, d, r);
    DistributeAdd(power, excess, r);
    DistributeSub(x, r, excess);
  }

  lemma ReciprocalRemainder(x: nat, d: nat, m: nat, power: nat, excess: nat, q: nat, r: nat)
    requires m * d == power + excess && excess * x < power
    requires x == q * d + r && r < d
    ensures q * excess + r * m < power
  {
    ScaledRemainder(x, d, m, power, excess, q, r);
    BoundRemainder(q * excess + r * m, d, power, r, excess * x);
  }

  lemma BoundRemainder(rest: nat, d: nat, power: nat, r: nat, slack: nat)
    requires rest * d == slack + power * r && slack < power && r < d
    ensures rest < power
  {
    MulMonotone(r, d - 1, power, power);
    DistributeSub(d, 1, power);
    CancelLess(rest, power, d);
  }

  // __umulh followed by a right shift.
  lemma ScaledReciprocal(x: U64, d: nat, m: U64, scale: nat, excess: nat)
    requires d > 0 && scale > 0
    requires m * d == 0x1_0000_0000_0000_0000 * scale + excess && excess * x < 0x1_0000_0000_0000_0000 * scale
    ensures Umulh(x, m) / scale == x / d
  {
    DivDiv(x * m, 0x1_0000_0000_0000_0000, scale);
    Reciprocal(x, d, m, 0x1_0000_0000_0000_0000 * scale, excess);
  }

  function Div5(x: U64): (r: U64)
    ensures r == x / 5
  {
    ScaledReciprocal(x, 5, 0xCCCC_CCCC_CCCC_CCCD, 4, 1);
    Umulh(x, 0xCCCC_CCCC_CCCC_CCCD) / 4
  }

  function Div10(x: U64): (r: U64)
    ensures r == x / 10
  {
    ScaledReciprocal(x, 10, 0xCCCC_CCCC_CCCC_CCCD, 8, 2);
    Umulh(x, 0xCCCC_CCCC_CCCC_CCCD) / 8
  }

  function Div100(x: U64): (r: U64)
    ensures r == x / 100
  {
    DivDiv(x, 4, 25);
    ScaledReciprocal(x / 4, 25, 0x28F5_C28F_5C28_F5C3, 4, 11);
    Umulh(x / 4, 0x28F5_C28F_5C28_F5C3) / 4
  }

  function Div1e8(x: U64): (r: U64)
    ensures r == x / 100000000
  {
    ScaledReciprocal(x, 100000000, 0xABCC_7711_8461_CEFD, 0x400_0000, 875776);
    Umulh(x, 0xABCC_7711_8461_CEFD) / 0x400_0000
  }

  function Div1e9(x: U64): (r: U64)
    ensures r == x / 1000000000
  {
    DivDiv(x, 512, 1953125);
    ScaledReciprocal(x / 512, 1953125, 0x44_B82F_A09B_5A53, 0x800, 399807);
    Umulh(x / 512, 0x44_B82F_A09B_5A53) / 0x800
  }

  // Subtracting in 32 bits recovers a remainder that fits in 32 bits, however
  // many high bits x and its quotient have lost.
  lemma TruncatedRemainder(x: int, d: int, q: int)
    requires 0 <= x - d * q < 0x1_0000_0000
    ensures Low32(Low32(x) - Low32(d * Low32(q))) == x - d * q
  {
    hide Low32;
    Low32Quotient(q);
    MulSubstitute(q - Low32(q), q / 0x1_0000_0000, 0x1_0000_0000, d);
    DistributeSub(q, Low32(q), d);
    LowDifference(x, d * Low32(q), x - d * q, d * (q / 0x1_0000_0000));
  }

  lemma Low32Quotient(x: int)
    ensures x - Low32(x) == x / 0x1_0000_0000 * 0x1_0000_0000
  {
  }

  lemma LowDifference(x: int, y: int, r: int, k: int)
    requires x - y == r + k * 0x1_0000_0000 && 0 <= r < 0x1_0000_0000
    ensures Low32(Low32(x) - Low32(y)) == r
  {
  }

  // __mod1e9 as compiled for 32-bit targets.
  function Mod1e9(x: U64): (r: U32)
    ensures r == x % 1000000000
  {
    TruncatedRemainder(x, 1000000000, x / 1000000000);
    Low32(Low32(x) - Low32(1000000000 * Low32(Div1e9(x))))
  }

  // The remainder by 10 or by 100, from the quotient and 32-bit truncations.
  function ModBy(x: U64, d: U32, q: U64): (r: U32)
    requires d > 0 && q == x / d
    ensures r == x % d
  {
    DivMod(x, d);
    TruncatedRemainder(x, d, q);
    Low32(Low32(x) - Low32(d * Low32(q)))
  }

  // Adding a word into a double word, with the carry detected by comparison.
  function AddCarry(p: Wide, c: U64): (r: Wide)
  {
    var lo := Low64(p.lo + c);
    Wide(lo, Low64(p.hi + (if lo < p.lo then 1 else 0)))
  }

  lemma AddCarryExact(p: Wide, c: U64)
    requires p.hi < 0xFFFF_FFFF_FFFF_FFFF
    ensures AddCarry(p, c).Value() == p.Value() + c
  {
  }

  // A product of two words leaves room for one more word to be added.
  lemma ProductRoom(a: U64, b: U64)
    ensures Umul128(a, b).hi < 0xFFFF_FFFF_FFFF_FFFF
  {
    Umul128Exact(a, b);
    MulMonotone(a, 0xFFFF_FFFF_FFFF_FFFF, b, 0xFFFF_FFFF_FFFF_FFFF);
  }

  // __umul256_hi128_lo64
  function Umul256Hi128Lo64(a: Wide, b: Wide): (r: U64)
  {
    var b00, b01, b10, b11 := Umul128(a.lo, b.lo), Umul128(a.lo, b.hi), Umul128(a.hi, b.lo), Umul128(a.hi, b.hi);
    var temp1 := AddCarry(b10, b00.hi);
    var temp2 := AddCarry(b01, temp1.lo);
    Low64(b11.lo + temp1.hi + temp2.hi)
  }

  lemma Umul256Hi128Lo64Exact(a: Wide, b: Wide)
    ensures Umul256Hi128Lo64(a, b)
         == Low64(a.Value() * b.Value() / 0x1_0000_0000_0000_0000_0000_0000_0000_0000)
  {
    hide Umul128, AddCarry, Wide.Value, Low64;
    Umul128Exact(a.lo, b.lo);
    Umul128Exact(a.lo, b.hi);
    Umul128Exact(a.hi, b.lo);
    Umul128Exact(a.hi, b.hi);
    ProductRoom(a.hi, b.lo);
    ProductRoom(a.lo, b.hi);
    WideProduct(a, b);
    WideColumns(Umul128(a.lo, b.lo), Umul128(a.lo, b.hi), Umul128(a.hi, b.lo), Umul128(a.hi, b.hi),
                a.Value() * b.Value());
  }

  lemma WideProduct(a: Wide, b: Wide)
    ensures a.Value() * b.Value()
         == a.hi * b.hi * 0x1_0000_0000_0000_0000_0000_0000_0000_0000
          + (a.hi * b.lo + a.lo * b.hi) * 0x1_0000_0000_0000_0000 + a.lo * b.lo
  {
    SchoolbookProduct(a.Value(), b.Value(), a.lo, a.hi, b.lo, b.hi, 0x1_0000_0000_0000_0000);
  }

  lemma WideColumns(b00: Wide, b01: Wide, b10: Wide, b11: Wide, product: nat)
    requires b10.hi < 0xFFFF_FFFF_FFFF_FFFF && b01.hi < 0xFFFF_FFFF_FFFF_FFFF
    requires product == b11.Value() * 0x1_0000_0000_0000_0000_0000_0000_0000_0000
                      + (b10.Value() + b01.Value()) * 0x1_0000_0000_0000_0000 + b00.Value()
    ensures var temp1 := AddCarry(b10, b00.hi);
            var temp2 := AddCarry(b01, temp1.lo);
            Low64(b11.lo + temp1.hi + temp2.hi)
            == Low64(product / 0x1_0000_0000_0000_0000_0000_0000_0000_0000)
  {
    hide Low64, AddCarry;
    var temp1 := AddCarry(b10, b00.hi);
    var temp2 := AddCarry(b01, temp1.lo);
    AddCarryExact(b10, b00.hi);
    AddCarryExact(b01, temp1.lo);
    DivUnique(product, 0x1_0000_0000_0000_0000_0000_0000_0000_0000, b11.Value() + temp1.hi + temp2.hi,
              temp2.lo * 0x1_0000_0000_0000_0000 + b00.lo);
    Low64Congruent(b11.lo + temp1.hi + temp2.hi, b11.hi);
  }

  lemma Low64Congruent(x: int, k: int)
    ensures Low64(x + k * 0x1_0000_0000_0000_0000) == Low64(x)
  {
    ModAddMultiple(x, k, 0x1_0000_0000_0000_0000);
  }

  // __uint128_mod1e9
  function Uint128Mod1e9(v: Wide): (r: U32)
  {
    var multiplied := Umul256Hi128Lo64(v, Wide(0x3168_0A88_F895_3031, 0x8970_5F41_36B4_A597));
    var shifted := Low32(multiplied / 0x2000_0000);
    Low32(Low32(v.lo) - Low32(1000000000 * shifted))
  }

  lemma Uint128Mod1e9Exact(v: Wide)
    ensures Uint128Mod1e9(v) == v.Value() % 1000000000
  {
    hide Umul256Hi128Lo64, Low32, Wide.Value;
    ReciprocalOf1e9();
    WideBound(v);
    var b := Wide(0x3168_0A88_F895_3031, 0x8970_5F41_36B4_A597);
    var x, q := v.Value(), v.Value() / 1000000000;
    var t := x * b.Value() / 0x1_0000_0000_0000_0000_0000_0000_0000_0000;
    Umul256Hi128Lo64Exact(v, b);
    BigQuotient(x, b.Value());
    MiddleBits(t);
    LowHalf(v);
    TruncatedRemainder(x, 1000000000, q);
  }

  lemma BigQuotient(x: nat, m: nat)
    requires m == 0x8970_5F41_36B4_A597_3168_0A88_F895_3031
    requires x < 0x1_0000_0000_0000_0000_0000_0000_0000_0000
    ensures x * m / 0x1_0000_0000_0000_0000_0000_0000_0000_0000 / 0x2000_0000 == x / 1000000000
  {
    DivDiv(x * m, 0x1_0000_0000_0000_0000_0000_0000_0000_0000, 0x2000_0000);
    Reciprocal(x, 1000000000, m, 0x2000_0000_0000_0000_0000_0000_0000_0000_0000_0000, 8432128);
  }

  lemma ReciprocalOf1e9()
    ensures Wide(0x3168_0A88_F895_3031, 0x8970_5F41_36B4_A597).Value() == 0x8970_5F41_36B4_A597_3168_0A88_F895_3031
  {
  }

  lemma WideBound(v: Wide)
    ensures v.Value() < 0x1_0000_0000_0000_0000_0000_0000_0000_0000
  {
  }

  lemma LowHalf(v: Wide)
    ensures Low32(v.lo) == Low32(v.Value())
  {
    ModAddMultiple(v.lo, v.hi * 0x1_0000_0000, 0x1_0000_0000);
  }

  // 29 + 32 bits fit in a word, so cutting to 64 bits before shifting loses nothing.
  lemma MiddleBits(t: nat)
    ensures Low32((t % 0x1_0000_0000_0000_0000) / 0x2000_0000) == Low32(t / 0x2000_0000)
  {
    var k := t / 0x1_0000_0000_0000_0000;
    DivMod(t, 0x1_0000_0000_0000_0000);
    var y := t % 0x1_0000_0000_0000_0000;
    ModAddMultiple(y, k * 0x8_0000_0000, 0x2000_0000);
    ModAddMultiple(y / 0x2000_0000, k * 8, 0x1_0000_0000);
  }
}
