// What __d2fixed_buffered_n and __d2exp_buffered_n start from: the fields of a
// double and its digits in blocks of nine.
module Blocks {
  import opened Arith
  import opened Digits
  import opened Rounding

  // Lines 525-537: the fields of a finite double as significand and exponent.
  predicate FiniteFields(ieeeMantissa: nat, ieeeExponent: nat)
  {
    ieeeMantissa < 0x10_0000_0000_0000 && ieeeExponent < 2047
  }

  function DecodedM(ieeeMantissa: nat, ieeeExponent: nat): (m2: nat)
  {
    if ieeeExponent == 0 then ieeeMantissa else 0x10_0000_0000_0000 + ieeeMantissa
  }

  function DecodedE(ieeeExponent: nat): (e2: int)
  {
    (if ieeeExponent == 0 then 1 else ieeeExponent) - 1023 - 52
  }

  lemma DecodedIsSignificand(ieeeMantissa: nat, ieeeExponent: nat)
    requires FiniteFields(ieeeMantissa, ieeeExponent) && (ieeeMantissa != 0 || ieeeExponent != 0)
    ensures DoubleSignificand(DecodedM(ieeeMantissa, ieeeExponent))
  {
    Pow2At53();
  }

  // --- the blocks ---

  // The source reads each block off a table of precomputed powers with
  // __mulShift_mod1e9.  Here the blocks are given, and this is what they hold.

  const BILLION := 1000000000

  // Block i of an integer v: its digits 9*i to 9*i + 8.
  ghost predicate WholeBlocks(w: seq<nat>, v: nat)
  {
    v < Pow(10, 9 * |w|) && forall i :: 0 <= i < |w| ==> w[i] == BlockOf(v, i)
  }

  ghost function BlockOf(v: nat, i: nat): nat { Dropped(v, i) % BILLION }

  ghost function Dropped(v: nat, i: nat): nat { Cut(v, 9 * i) }

  datatype FractionTable = FractionTable(minBlock: nat, digits: seq<nat>)

  // Block b behind the point of m * 2^e2 holds the digits 9*b + 1 to 9*b + 9; the
  // blocks before minBlock are zero, and so is everything behind the last one.
  ghost predicate FractionBlocks(t: FractionTable, m: nat, e2: int)
  {
    && (t.minBlock > 0 ==> FloorAt(m, e2, 9 * t.minBlock) == 0)
    && (forall b :: 0 <= b < |t.digits| ==> t.digits[b] == FractionBlock(m, e2, t.minBlock + b))
    && Exact(m, e2, 9 * (t.minBlock + |t.digits|))
  }

  ghost function FractionBlock(m: nat, e2: int, b: nat): nat { FloorAt(m, e2, 9 * b + 9) % BILLION }

  ghost predicate TablesFor(m2: nat, e2: int, whole: seq<nat>, fraction: FractionTable)
  {
    (e2 >= -52 ==> WholeBlocks(whole, FloorAt(m2, e2, 0))) && (e2 < 0 ==> FractionBlocks(fraction, m2, e2))
  }

  lemma NoWholePart(m2: nat, e2: int)
    requires DoubleSignificand(m2) && e2 < -52
    ensures WholeBlocks([], FloorAt(m2, e2, 0))
  {
    PowExponentMonotone(2, 53, -e2);
    assert FloorAt(m2, e2, 0) == m2 / Pow(2, -e2) by { assert Pow(2, 0) == 1; }
    hide FloorAt;
    DivUnique(m2, Pow(2, -e2), 0, m2);
    assert Pow(10, 0) == 1;
  }

  // Such blocks exist for every double, 120 behind the point being enough.
  lemma TablesExist(m2: nat, e2: int) returns (whole: seq<nat>, fraction: FractionTable)
    requires -1074 <= e2
    ensures TablesFor(m2, e2, whole, fraction) && fraction.minBlock + |fraction.digits| <= 120
  {
    var v := FloorAt(m2, e2, 0);
    var len := DecimalLength(v);
    whole := seq(len, i requires 0 <= i < len => BlockOf(v, i));
    LengthBounds(v);
    PowExponentMonotone(10, len, 9 * len);
    fraction := FractionTable(0, seq(120, b requires 0 <= b < 120 => FractionBlock(m2, e2, b)));
    hide Pow, FloorAt, Exact, DecimalLength;
    WithoutFives(m2, e2, 1080);
  }

  lemma DroppedStep(v: nat, i: nat)
    ensures Dropped(v, i) == Dropped(v, i + 1) * BILLION + BlockOf(v, i)
    ensures BlockOf(v, i) < BILLION
  {
    NineDigits();
    QuotientStep(v, 9 * i, 9);
  }

  lemma DroppedAll(v: nat, w: seq<nat>)
    requires WholeBlocks(w, v)
    ensures Dropped(v, 0) == v && Dropped(v, |w|) == 0
  {
    assert v / Pow(10, 0) == v;
    DivUnique(v, Pow(10, 9 * |w|), 0, v);
  }

  lemma BlockIsSmall(v: nat, i: nat)
    ensures BlockOf(v, i) < BILLION
  {
  }

  // --- the digits behind the point ---

  lemma TableBlock(t: FractionTable, m: nat, e2: int, b: nat)
    requires FractionBlocks(t, m, e2) && t.minBlock <= b < t.minBlock + |t.digits|
    ensures t.digits[b - t.minBlock] == FractionBlock(m, e2, b) < BILLION
  {
  }

  lemma ModDiv(x: nat, a: nat, b: nat)
    requires a > 0 && b > 0
    ensures a * b > 0 && x % (a * b) / a == x / a % b && x % (a * b) % a == x % a
  {
    ModProduct(x, a, b);
    DivUnique(x % (a * b), a, x / a % b, x % a);
  }

  // Dropping digits from the block that holds them.
  lemma BlockDrop(x: nat, drop: nat)
    requires drop <= 9
    ensures x % BILLION / Pow(10, drop) == x / Pow(10, drop) % Pow(10, 9 - drop)
  {
    NineDigits();
    PowAdd(10, drop, 9 - drop);
    hide Pow;
    ModDiv(x, Pow(10, drop), Pow(10, 9 - drop));
  }

  lemma BlockDigit(x: nat, drop: nat)
    requires 1 <= drop <= 9
    ensures x % BILLION / Pow(10, drop - 1) % 10 == x / Pow(10, drop - 1) % 10
  {
    hide Pow;
    BlockDrop(x, drop - 1);
    PowStep(10, 10 - drop);
    ModDiv(x / Pow(10, drop - 1), 10, Pow(10, 9 - drop));
  }

  // What is left of a block when only some of its digits are kept.
  lemma KeptDigits(m: nat, e2: int, rexp: int, drop: nat, block: nat)
    requires 1 <= drop <= 9 && block == FloorAt(m, e2, rexp) % BILLION
    ensures Cut(block, drop) == FloorAt(m, e2, rexp - drop) % Pow(10, 9 - drop)
    ensures FixedDigits(Cut(block, drop), 9 - drop) == FixedDigits(FloorAt(m, e2, rexp - drop), 9 - drop)
    ensures Cut(block, drop - 1) % 10 == FloorAt(m, e2, rexp - drop + 1) % 10
  {
    hide Pow, FixedDigits, FloorAt;
    var x := FloorAt(m, e2, rexp);
    FloorDrop(m, e2, rexp, drop);
    FloorDrop(m, e2, rexp, drop - 1);
    BlockDrop(x, drop);
    BlockDigit(x, drop);
    FixedDigitsMod(FloorAt(m, e2, rexp - drop), 9 - drop);
  }

  // A few more digits.
  lemma FractionMore(m: nat, e2: int, j: nat, d: nat)
    ensures FixedDigits(FloorAt(m, e2, j + d), j + d) ==
              FixedDigits(FloorAt(m, e2, j), j) + FixedDigits(FloorAt(m, e2, j + d), d)
  {
    hide Pow, FixedDigits, FloorAt;
    FixedDigitsSplit(FloorAt(m, e2, j + d), j, d);
    FloorDrop(m, e2, j + d, d);
  }

  // One more block of digits.
  lemma FractionStep(m: nat, e2: int, b: nat)
    ensures FixedDigits(FloorAt(m, e2, 9 * b + 9), 9 * b + 9)
         == FixedDigits(FloorAt(m, e2, 9 * b), 9 * b) + FixedDigits(FractionBlock(m, e2, b), 9)
  {
    FractionMore(m, e2, 9 * b, 9);
    FixedDigitsMod(FloorAt(m, e2, 9 * b + 9), 9);
    NineDigits();
    hide Pow, FixedDigits, FloorAt;
  }

  lemma LeadingZeros(t: FractionTable, m: nat, e2: int, j: nat)
    requires FractionBlocks(t, m, e2) && t.minBlock > 0 && j <= 9 * t.minBlock
    ensures FloorAt(m, e2, j) == 0
  {
    hide Pow, FloorAt;
    FloorDrop(m, e2, 9 * t.minBlock, 9 * t.minBlock - j);
  }

  // Behind the last block there are only zeros.
  lemma OnlyZerosBehind(t: FractionTable, m: nat, e2: int, j: nat)
    requires FractionBlocks(t, m, e2) && j >= 9 * (t.minBlock + |t.digits|)
    ensures Exact(m, e2, j)
  {
    var e := 9 * (t.minBlock + |t.digits|);
    hide Exact;
    ExactScales(m, e2, e, j - e);
  }

  // Lines 625-629 and 828-834: digits off the end of a block.
  method DropDigits(block: nat, count: nat) returns (digits: nat, lastDigit: nat)
    ensures digits == Cut(block, count)
    ensures lastDigit == if count == 0 then 0 else Cut(block, count - 1) % 10
  {
    digits, lastDigit := block, 0;
    assert block / Pow(10, 0) == block;
    for k := 0 to count
      invariant digits == Cut(block, k)
      invariant lastDigit == if k == 0 then 0 else Cut(block, k - 1) % 10
    {
      lastDigit := digits % 10;
      digits := digits / 10;
      QuotientStep(block, k, 1);
      assert Pow(10, 1) == 10;
    }
  }
}
