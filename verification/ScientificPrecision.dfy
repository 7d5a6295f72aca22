// __d2exp_buffered_n: a double in scientific notation with a given number of digits
// after the point, rounded half to even from the exact value.
module ScientificPrecision {
  import opened Arith
  import opened Words
  import opened Digits
  import opened Rounding
  import opened Blocks
  import opened FixedNotation
  import FixedPrecision
  import opened ScientificNotation
  import opened ToChars
  import opened Notation

  // --- how far the printing has come ---

  // All digits of m * 2^e2 down to 10^(9*i).
  ghost function Prefix(m: nat, e2: int, i: int): nat { FloorAt(m, e2, -9 * i) }

  lemma PrefixStep(m: nat, e2: int, i: int)
    ensures Prefix(m, e2, i) == Prefix(m, e2, i + 1) * BILLION + Prefix(m, e2, i) % BILLION
  {
    hide FloorAt, Pow;
    FloorDrop(m, e2, -9 * i, 9);
    NineDigits();
  }

  ghost function TextSoFar(t: nat, point: bool): (s: string) { if t == 0 then "" else SignificandText(t, point) }

  // The blocks down to i are done: printed digits so far, x the decimal exponent.
  ghost predicate Progress(t: nat, i: int, digits: nat, printed: nat, x: int)
  {
    if t == 0 then printed == 0 else printed == DecimalLength(t) <= digits && x == 9 * i + printed - 1
  }

  datatype Step = Next | Enough | NoRoom

  // More digits at hand than are wanted: block is the current one, of which
  // available digits count.
  ghost predicate Surplus(t: nat, t': nat, i: int, digits: nat, printed: nat, available: nat, x: int)
  {
    && t' == t * BILLION + t' % BILLION
    && 0 < available <= 9 && printed + available == DecimalLength(t') > digits && x == 9 * i + printed + available - 1
    && printed <= digits && (if t == 0 then printed == 0 else printed == DecimalLength(t) && available == 9)
  }

  lemma NextLength(t: nat, block: nat)
    requires block < BILLION
    ensures t > 0 ==> DecimalLength(t * BILLION + block) == DecimalLength(t) + 9
  {
    NineDigits();
    if t > 0 {
      LengthAppend(t, block, 9, BILLION);
    }
  }

  lemma SoFarLength(t: nat, point: bool)
    requires t > 0
    ensures |TextSoFar(t, point)| == DecimalLength(t) + if point then 1 else 0
  {
  }

  lemma FirstText(block: nat, point: bool)
    ensures TextSoFar(0, point) == ""
    ensures block > 0 ==> TextSoFar(block, point) == SignificandText(block, point)
  {
  }

  lemma NextText(t: nat, block: nat, point: bool)
    requires block < BILLION && t > 0
    ensures TextSoFar(t * BILLION + block, point) == TextSoFar(t, point) + FixedDigits(block, 9)
  {
    NineDigits();
    hide Pow, FixedDigits, Decimal;
    DecimalAppend(t, block, 9);
    if point {
      DottedConcat(Decimal(t), FixedDigits(block, 9));
    }
  }

  lemma DottedConcat(a: string, b: string)
    requires a != ""
    ensures Dotted(a + b) == Dotted(a) + b
  {
    assert (a + b)[..1] == a[..1] && (a + b)[1..] == a[1..] + b;
  }

  // The first digits, with the point among them (lines 763-774 and 806-817).
  method PrintFirst(buf: array<char>, at: nat, last: nat, block: nat, available: nat, point: bool, ghost orig: string)
    returns (ok: bool, end: nat)
    requires at <= last <= buf.Length && buf[..] == orig && available == DecimalLength(block)
    requires (!point ==> available == 1)
    modifies buf
    ensures ok <==> at + |SignificandText(block, point)| <= last
    ensures ok ==> end == at + |SignificandText(block, point)|
    ensures ok ==> buf[..] == Splice(orig, at, SignificandText(block, point))
    ensures !ok ==> end == last && buf[..] == orig
  {
    hide Splice, FixedDigits, DecimalLength, Decimal;
    if point {
      if last - at < available + 1 {
        return false, last;
      }
      AppendDDigits(available, block, buf, at);
      return true, at + available + 1;
    } else {
      if at == last {
        return false, last;
      }
      SpliceNothing(orig, at);
      SingleDigit(block);
      SpliceBack(orig, at, "", DigitChar(block));
      buf[at] := DigitChar(block);
      return true, at + 1;
    }
  }

  // What one more block makes of the state, behind digits or as the first of them.
  lemma NextBlock(t: nat, block: nat, i: int, digits: nat, printed: nat, x: int)
    requires digits > 0 && block < BILLION && Progress(t, i + 1, digits, printed, x) && printed != 0
    ensures t > 0 && printed == DecimalLength(t) <= digits
    ensures var t' := t * BILLION + block;
            if printed + 9 > digits then Surplus(t, t', i, digits, printed, 9, x)
            else Progress(t', i, digits, printed + 9, x)
  {
    NextLength(t, block);
    ModAddMultiple(block, t, BILLION);
    DivUnique(block, BILLION, 0, block);
    hide DecimalLength;
  }

  lemma FirstBlock(t: nat, block: nat, i: int, digits: nat, x: int)
    requires digits > 0 && block < BILLION && Progress(t, i + 1, digits, 0, x)
    ensures t == 0
    ensures var len := DecimalLength(block);
            if block == 0 then Progress(0, i, digits, 0, x)
            else if len > digits then Surplus(0, block, i, digits, 0, len, i * 9 + len - 1)
            else Progress(block, i, digits, len, i * 9 + len - 1)
  {
    DivUnique(block, BILLION, 0, block);
    hide DecimalLength;
    if block > 0 {
      ShortBlock(block);
    }
  }

  // The body both loops share (lines 746-777 and 789-820), for block i.
  method PrintBlock(buf: array<char>, first: nat, last: nat, end: nat, block: nat, i: int, digits: nat, point: bool,
                    printed: nat, x: int, ghost t: nat, ghost orig: string)
    returns (step: Step, end': nat, printed': nat, available: nat, x': int)
    requires digits > 0 && (point <==> digits > 1) && block < BILLION && Progress(t, i + 1, digits, printed, x)
    requires first + |TextSoFar(t, point)| == end <= last <= buf.Length == |orig|
    requires buf[..] == Splice(orig, first, TextSoFar(t, point))
    modifies buf
    ensures step.Next? ==> available == 0 && Progress(t * BILLION + block, i, digits, printed', x')
    ensures step.Next? ==>
      var text := TextSoFar(t * BILLION + block, point);
      first + |text| == end' <= last && buf[..] == Splice(orig, first, text)
    ensures step.Enough? ==> end' == end && printed' == printed && buf[..] == old(buf[..])
    ensures step.Enough? ==> Surplus(t, t * BILLION + block, i, digits, printed, available, x')
    ensures step.NoRoom? ==> end' == last && buf[..] == old(buf[..]) && first + digits + (if point then 1 else 0) > last
  {
    end', printed', available, x' := end, printed, 0, x;
    hide Splice, FixedDigits, DecimalLength, SignificandText;
    hide Progress, Surplus, TextSoFar;
    if printed != 0 {
      NextBlock(t, block, i, digits, printed, x);
      SoFarLength(t, point);
      if printed + 9 > digits {
        return Enough, end, printed, 9, x;
      }
      if last - end < 9 {
        return NoRoom, last, printed, 0, x;
      }
      NextText(t, block, point);
      AppendNineDigits(block, buf, end);
      SpliceTwo(orig, first, TextSoFar(t, point), FixedDigits(block, 9));
      end' := end + 9;
      printed' := printed + 9;
    } else if block != 0 {
      FirstBlock(t, block, i, digits, x);
      FirstText(block, point);
      available := DecimalLength9(block);
      x' := i * 9 + available - 1;
      if available > digits {
        return Enough, end, printed, available, x';
      }
      SpliceNothing(orig, first);
      var ok;
      ok, end' := PrintFirst(buf, end, last, block, available, point, orig);
      if !ok {
        return NoRoom, last, printed, 0, x;
      }
      printed' := available;
      available := 0;
    } else {
      FirstBlock(t, block, i, digits, x);
    }
    step := Next;
  }

  lemma ShortBlock(block: nat)
    requires 0 < block < BILLION
    ensures DecimalLength(block) <= 9
  {
    LengthSteps(block);
  }

  lemma SingleDigit(n: nat)
    requires DecimalLength(n) == 1
    ensures n < 10 && "" + [DigitChar(n)] == Decimal(n)
  {
    ShortLength(n);
    LastDigits(n);
    hide FixedDigits, DigitChar;
  }

  // --- the two loops ---

  // Where a loop has stopped, at block j.
  ghost predicate Stage(step: Step, m: nat, e2: int, j: int, digits: nat, point: bool, printed: nat, available: nat,
                        x: int, block: nat, text: string)
  {
    match step
    case Next =>
      available == 0 && Progress(Prefix(m, e2, j), j, digits, printed, x) && text == TextSoFar(Prefix(m, e2, j), point)
    case Enough =>
      && Surplus(Prefix(m, e2, j + 1), Prefix(m, e2, j), j, digits, printed, available, x)
      && block == Prefix(m, e2, j) % BILLION && text == TextSoFar(Prefix(m, e2, j + 1), point)
    case NoRoom => true
  }

  lemma WholeBlockIs(w: seq<nat>, m: nat, e2: int, i: nat)
    requires WholeBlocks(w, FloorAt(m, e2, 0)) && i < |w|
    ensures w[i] == Prefix(m, e2, i) % BILLION
  {
    FloorDrop(m, e2, 0, 9 * i);
  }

  lemma NothingAbove(w: seq<nat>, m: nat, e2: int)
    requires WholeBlocks(w, FloorAt(m, e2, 0))
    ensures Prefix(m, e2, |w|) == 0
  {
    DroppedAll(FloorAt(m, e2, 0), w);
    FloorDrop(m, e2, 0, 9 * |w|);
  }

  // Lines 736-779.
  method PrintWhole(buf: array<char>, first: nat, last: nat, w: seq<nat>, digits: nat, point: bool, ghost m: nat,
                    ghost e2: int, ghost orig: string)
    returns (step: Step, end: nat, printed: nat, available: nat, x: int, block: nat, ghost j: int, ghost text: string)
    requires first <= last <= buf.Length && buf[..] == orig && WholeBlocks(w, FloorAt(m, e2, 0))
    requires digits > 0 && (point <==> digits > 1)
    modifies buf
    ensures Stage(step, m, e2, j, digits, point, printed, available, x, block, text) && (step.Next? ==> j == 0)
    ensures first + |text| <= last <= |orig| && buf[..] == Splice(orig, first, text)
    ensures if step.NoRoom? then end == last
        && first + digits + (if point then 1 else 0) > last else end == first + |text|
  {
    hide WholeBlocks, FloorAt, Prefix, Splice, SignificandText, DecimalLength, Pow, Surplus;
    step, end, printed, available, x, block := Next, first, 0, 0, 0, 0;
    var i: int := |w|;
    NothingAbove(w, m, e2);
    SpliceNothing(orig, first);
    text := "";
    while i > 0
      invariant 0 <= i <= |w| && Progress(Prefix(m, e2, i), i, digits, printed, x) && available == 0
      invariant text == TextSoFar(Prefix(m, e2, i), point) && first + |text| == end <= last
      invariant buf.Length == |orig| && buf[..] == Splice(orig, first, text)
      decreases i
    {
      i := i - 1;
      WholeBlockIs(w, m, e2, i);
      PrefixStep(m, e2, i);
      block := w[i];
      step, end, printed, available, x := PrintBlock(buf, first, last, end, block, i, digits, point, printed, x,
                                                     Prefix(m, e2, i + 1), orig);
      j := i;
      if !step.Next? {
        return;
      }
      text := TextSoFar(Prefix(m, e2, i), point);
    }
    step, j := Next, 0;
  }

  lemma FractionBlockIs(t: FractionTable, m: nat, e2: int, b: nat)
    requires FractionBlocks(t, m, e2) && t.minBlock <= b
    ensures (if b < t.minBlock + |t.digits| then t.digits[b - t.minBlock] else 0) == Prefix(m, e2, -1 - b) % BILLION
  {
    if b < t.minBlock + |t.digits| {
      TableBlock(t, m, e2, b);
    } else {
      OnlyZerosBehind(t, m, e2, 9 * b);
      hide Exact, FloorAt, Pow;
      ExactScales(m, e2, 9 * b, 9);
      NineDigits();
    }
  }

  lemma StartOfFraction(t: FractionTable, m: nat, e2: int)
    requires FractionBlocks(t, m, e2)
    ensures Prefix(m, e2, 0 - t.minBlock) == Prefix(m, e2, 0)
    ensures t.minBlock > 0 ==> Prefix(m, e2, 0) == 0
  {
    if t.minBlock > 0 {
      LeadingZeros(t, m, e2, 0);
      LeadingZeros(t, m, e2, 9 * t.minBlock);
    }
  }

  // Lines 781-822.
  method PrintFraction(buf: array<char>, first: nat, last: nat, end0: nat, t: FractionTable, digits: nat, point: bool,
                       printed0: nat, x0: int, ghost m: nat, ghost e2: int, ghost orig: string, ghost text0: string)
    returns (step: Step, end: nat, printed: nat, available: nat, x: int, block: nat, ghost j: int, ghost text: string)
    requires FractionBlocks(t, m, e2) && t.minBlock + |t.digits| <= 200 && digits > 0 && (point <==> digits > 1)
    requires Stage(Next, m, e2, 0, digits, point, printed0, 0, x0, 0, text0)
    requires first + |text0| == end0 <= last <= buf.Length == |orig| && buf[..] == Splice(orig, first, text0)
    modifies buf
    ensures Stage(step, m, e2, j, digits, point, printed, available, x, block, text) && (step.Next? ==> j == -200)
    ensures first + |text| <= last <= |orig| && buf[..] == Splice(orig, first, text)
    ensures if step.NoRoom? then end == last
        && first + digits + (if point then 1 else 0) > last else end == first + |text|
  {
    hide FractionBlocks, FloorAt, Prefix, Splice, SignificandText, DecimalLength, Pow, Surplus;
    step, end, printed, available, x, block := Next, end0, printed0, 0, x0, 0;
    var b := t.minBlock;
    StartOfFraction(t, m, e2);
    text := text0;
    while b < 200
      invariant t.minBlock <= b <= 200 && available == 0
      invariant Progress(Prefix(m, e2, 0 - b), 0 - b, digits, printed, x)
      invariant text == TextSoFar(Prefix(m, e2, 0 - b), point) && first + |text| == end <= last
      invariant buf.Length == |orig| && buf[..] == Splice(orig, first, text)
      decreases 200 - b
    {
      FractionBlockIs(t, m, e2, b);
      PrefixStep(m, e2, -1 - b);
      block := if b < t.minBlock + |t.digits| then t.digits[b - t.minBlock] else 0;
      step, end, printed, available, x := PrintBlock(buf, first, last, end, block, -1 - b, digits, point, printed, x,
                                                     Prefix(m, e2, 0 - b), orig);
      j := -1 - b;
      if !step.Next? {
        return;
      }
      b := b + 1;
      text := TextSoFar(Prefix(m, e2, 0 - b), point);
    }
    step, j := Next, -200;
  }

  // --- the last digits and how to round them ---

  // The digits wanted, out of a surplus.
  lemma SurplusDigits(m: nat, e2: int, j: int, digits: nat, printed: nat, available: nat, x: int, drop: int)
    requires Surplus(Prefix(m, e2, j + 1), Prefix(m, e2, j), j, digits, printed, available, x) && digits > 0
    requires drop == available - (digits - printed)
    ensures 1 <= drop <= 9 && digits - 1 - x == -9 * j - drop
    ensures FloorAt(m, e2, digits - 1 - x) == Cut(Prefix(m, e2, j), drop) > 0
    ensures DecimalLength(FloorAt(m, e2, digits - 1 - x)) == digits
  {
    var t' := Prefix(m, e2, j);
    hide FloorAt, DecimalLength, Pow;
    FloorDrop(m, e2, -9 * j, drop);
    LengthOfCut(t', drop);
    if t' == 0 {
      ShortLength(0);
    }
  }

  // More digits behind those printed.
  lemma SurplusText(m: nat, e2: int, rexp: int, more: nat, point: bool)
    requires FloorAt(m, e2, rexp - more) > 0
    ensures SignificandText(FloorAt(m, e2, rexp), point)
         == SignificandText(FloorAt(m, e2, rexp - more), point) + FixedDigits(FloorAt(m, e2, rexp), more)
  {
    var n, d := FloorAt(m, e2, rexp), Pow(10, more);
    hide FloorAt, Pow, FixedDigits, Decimal;
    FloorDrop(m, e2, rexp, more);
    DivMod(n, d);
    DecimalAppend(n / d, n % d, more);
    FixedDigitsMod(n, more);
    if point {
      DottedConcat(Decimal(n / d), FixedDigits(n, more));
    }
  }

  // Lines 837-851.
  method RoundingMode(m: U64, e2: int, rexp: int, lastDigit: nat) returns (mode: nat)
    requires m != 0
    ensures mode == RoundMode(lastDigit, TrailingZeros(m, e2, rexp))
  {
    if lastDigit != 5 {
      return if lastDigit > 5 then 1 else 0;
    }
    hide Pow;
    var trailingZeros := EnoughTwos(m, -e2 - rexp);
    if rexp < 0 && trailingZeros {
      trailingZeros := MultipleOfPowerOf5(m, -rexp);
    }
    return if trailingZeros then 2 else 1;
  }

  // What is on paper before the rounding pass.
  ghost predicate Unrounded(m: nat, e2: int, digits: nat, x: int, mode: nat)
  {
    && DecimalLength(FloorAt(m, e2, digits - 1 - x)) == digits && FloorAt(m, e2, digits - 1 - x) > 0
    && mode == ModeOf(m, e2, digits - 1 - x)
  }

  // Lines 824-875 when digits are left over.
  method FinishSurplus(buf: array<char>, first: nat, last: nat, end0: nat, digits: nat, point: bool, printed: nat,
                       available: nat, x: int, block: nat, m: U64, e2: int, ghost j: int, ghost orig: string,
                       ghost text: string)
    returns (ok: bool, end: nat, mode: nat)
    requires Stage(Enough, m, e2, j, digits, point, printed, available, x, block, text)
    requires DoubleSignificand(m) && digits > 0 && (point <==> digits > 1)
    requires first + |text| == end0 <= last <= buf.Length == |orig| && buf[..] == Splice(orig, first, text)
    modifies buf
    ensures ok <==> first + digits + (if point then 1 else 0) <= last
    ensures ok ==> Unrounded(m, e2, digits, x, mode)
    ensures ok ==>
      var s := SignificandText(FloorAt(m, e2, digits - 1 - x), point);
      end == first + |s| && buf[..] == Splice(orig, first, s)
    ensures !ok ==> end == last && buf[..] == old(buf[..])
  {
    hide FloorAt, Splice, SignificandText, DecimalLength, Pow, FixedDigits, Cut, DoubleSignificand, TrailingZeros,
         ModeOf;
    var maximum := digits - printed;
    ghost var n := FloorAt(m, e2, digits - 1 - x);
    SurplusDigits(m, e2, j, digits, printed, available, x, available - maximum);
    var kept, lastDigit := DropDigits(block, available - maximum);
    KeptDigits(m, e2, -9 * j, available - maximum, block);
    NonzeroSignificand(m);
    mode := RoundingMode(m, e2, digits - x, lastDigit);
    ModeAt(m, e2, digits - 1 - x, lastDigit);
    if printed != 0 {
      SurplusText(m, e2, digits - 1 - x, maximum, point);
      SignificandLength(n, point);
      SignificandLength(Prefix(m, e2, j + 1), point);
      if last - end0 < maximum {
        return false, last, mode;
      }
      if kept == 0 {
        FillZeros(buf, end0, maximum);
      } else {
        KeptIsShort(FloorAt(m, e2, digits - 1 - x), maximum, kept);
        AppendCDigits(maximum, kept, buf, end0);
      }
      SpliceTwo(orig, first, text, FixedDigits(kept, maximum));
      end := end0 + maximum;
      ok := true;
    } else {
      SpliceNothing(orig, first);
      FirstBlockOnly(block);
      SignificandLength(n, point);
      ok, end := PrintFirst(buf, end0, last, kept, maximum, point, orig);
    }
  }

  lemma NonzeroSignificand(m: nat)
    requires DoubleSignificand(m)
    ensures m != 0
  {
  }

  lemma KeptIsShort(n: nat, maximum: nat, kept: nat)
    requires kept == n % Pow(10, maximum) && kept != 0
    ensures maximum > 0
  {
    assert Pow(10, 0) == 1;
  }

  lemma FirstBlockOnly(block: nat)
    requires block < BILLION
    ensures 0 * BILLION + block == block && block % BILLION == block
  {
  }

  // Every block is printed: only zeros are missing.
  lemma ExactDigits(m: nat, e2: int, j: int, digits: nat, printed: nat, x: int)
    requires Progress(Prefix(m, e2, j), j, digits, printed, x) && Prefix(m, e2, j) > 0 && Exact(m, e2, -9 * j)
    ensures digits - 1 - x == -9 * j + (digits - printed)
    ensures FixedDigits(FloorAt(m, e2, digits - 1 - x), digits - printed) == FixedDigits(0, digits - printed)
    ensures Unrounded(m, e2, digits, x, 0)
  {
    var t, more, p := Prefix(m, e2, j), digits - printed, Pow(10, digits - printed);
    hide FloorAt, Exact, DecimalLength, Pow, ModeOf, FixedDigits;
    ExactScales(m, e2, -9 * j, more);
    LengthAppend(t, 0, more, p);
    MulAtLeast(t, p);
    Multiple(t * p, p, t);
    FixedDigitsMod(t * p, more);
  }

  // Lines 824-875 when the digits have run out.
  method FinishExact(buf: array<char>, first: nat, last: nat, end0: nat, digits: nat, point: bool, printed: nat,
                     x: int, ghost m: nat, ghost e2: int, ghost j: int, ghost orig: string, ghost text: string)
    returns (ok: bool, end: nat)
    requires Stage(Next, m, e2, j, digits, point, printed, 0, x, 0, text) && Prefix(m, e2, j) > 0
    requires Exact(m, e2, -9 * j)
    requires first + |text| == end0 <= last <= buf.Length == |orig| && buf[..] == Splice(orig, first, text)
    modifies buf
    ensures ok <==> first + digits + (if point then 1 else 0) <= last
    ensures ok ==> Unrounded(m, e2, digits, x, 0)
    ensures ok ==>
      var s := SignificandText(FloorAt(m, e2, digits - 1 - x), point);
      end == first + |s| && buf[..] == Splice(orig, first, s)
    ensures !ok ==> end == last && buf[..] == old(buf[..])
  {
    hide FloorAt, Splice, SignificandText, DecimalLength, Pow, FixedDigits, Exact, ModeOf;
    var maximum := digits - printed;
    ExactDigits(m, e2, j, digits, printed, x);
    SurplusText(m, e2, digits - 1 - x, maximum, point);
    SignificandLength(FloorAt(m, e2, digits - 1 - x), point);
    SignificandLength(Prefix(m, e2, j), point);
    if last - end0 < maximum {
      return false, last;
    }
    FillZeros(buf, end0, maximum);
    SpliceTwo(orig, first, text, FixedDigits(0, maximum));
    return true, end0 + maximum;
  }

  // --- the exponent ---

  // 10^x <= m * 2^e2 < 10^(x + 1)
  ghost predicate LeadingExponent(m: nat, e2: int, x: int) { 1 <= FloorAt(m, e2, -x) <= 9 }

  lemma LeadingFromDigits(m: nat, e2: int, digits: nat, x: int)
    requires digits > 0 && DecimalLength(FloorAt(m, e2, digits - 1 - x)) == digits && FloorAt(m, e2, digits - 1 - x) > 0
    ensures LeadingExponent(m, e2, x)
  {
    hide FloorAt, Pow;
    FloorDrop(m, e2, digits - 1 - x, digits - 1);
    LengthOfCut(FloorAt(m, e2, digits - 1 - x), digits - 1);
  }

  lemma {:induction false} OneExponent(m: nat, e2: int, x: int, y: int)
    requires LeadingExponent(m, e2, x) && LeadingExponent(m, e2, y)
    ensures x == y
  {
    if x < y {
      SmallerExponent(m, e2, x, y);
    } else if y < x {
      SmallerExponent(m, e2, y, x);
    }
  }

  lemma SmallerExponent(m: nat, e2: int, x: int, y: int)
    requires x < y && FloorAt(m, e2, -x) <= 9
    ensures FloorAt(m, e2, -y) == 0
  {
    hide FloorAt, Pow;
    FloorDrop(m, e2, -x, y - x);
    PowExponentMonotone(10, 1, y - x);
    assert Pow(10, 1) == 10 by { PowStep(10, 1); PowZero(); }
    DivUnique(FloorAt(m, e2, -x), Pow(10, y - x), 0, FloorAt(m, e2, -x));
  }

  lemma PowZero()
    ensures Pow(10, 0) == 1
  {
  }

  lemma EightToTen(c: nat, k: nat)
    requires c <= 3 * k
    ensures Pow(2, c) <= Pow(10, k)
  {
    PowExponentMonotone(2, c, 3 * k);
    PowMul(2, 3, k);
    assert Pow(2, 3) == 8;
    PowBaseMonotone(8, 10, k);
  }

  lemma SixteenToHundred(k: nat)
    ensures Pow(2, 4 * k) <= Pow(10, 2 * k)
  {
    PowMul(2, 4, k);
    PowMul(10, 2, k);
    assert Pow(2, 4) == 16 && Pow(10, 2) == 100;
    PowBaseMonotone(16, 100, k);
  }

  lemma AtLeastOne(m: nat, e2: int, k: nat)
    requires m > 0 && e2 >= -3 * k
    ensures FloorAt(m, e2, k) >= 1
  {
    EightToTen(Above(-e2), k);
    assert Pow(10, 0) == 1;
    var a, t := Pow(2, Above(e2)), Pow(10, k);
    hide Pow;
    MulAtLeast(m, a);
    MulMonotone(1, m * a, t, t);
    DivAtLeast(ScaledNum(m, e2, k), ScaledDen(e2, k), 1);
  }

  lemma BelowPower(m: nat, e2: int, k: nat)
    requires m * Pow(2, Above(e2)) < Pow(2, 4 * k)
    ensures FloorAt(m, e2, -2 * k) == 0
  {
    SixteenToHundred(k);
    assert Pow(10, 0) == 1;
    var c, t := Pow(2, Above(-e2)), Pow(10, 2 * k);
    hide Pow;
    MulMonotone(1, c, t, t);
    DivUnique(ScaledNum(m, e2, -2 * k), ScaledDen(e2, -2 * k), 0, ScaledNum(m, e2, -2 * k));
  }

  // The exponents of doubles, subnormals included.
  predicate DoubleExponent(e2: int) { -1074 <= e2 <= 971 }

  lemma DoubleIsBounded(m: nat, e2: int)
    requires DoubleSignificand(m) && DoubleExponent(e2)
    ensures m * Pow(2, Above(e2)) < Pow(2, 1024)
  {
    hide Pow;
    PowExponentMonotone(2, Above(e2), 971);
    PowAdd(2, 53, 971);
    MulMonotone(m + 1, Pow(2, 53), Pow(2, Above(e2)), Pow(2, 971));
    DistributeAdd(m, 1, Pow(2, Above(e2)));
  }

  lemma ExponentIsShort(m: nat, e2: int, x: int)
    requires DoubleSignificand(m) && DoubleExponent(e2) && LeadingExponent(m, e2, x)
    ensures -358 <= x < 512
  {
    hide FloorAt, Pow;
    DoubleIsBounded(m, e2);
    AtLeastOne(m, e2, 358);
    BelowPower(m, e2, 256);
    if x < -358 {
      SmallerExponent(m, e2, x, -358);
    } else if x >= 512 {
      ZeroStays(m, e2, 512, x);
    }
  }

  lemma ZeroStays(m: nat, e2: int, y: int, x: int)
    requires y <= x && FloorAt(m, e2, -y) == 0
    ensures FloorAt(m, e2, -x) == 0
  {
    hide FloorAt, Pow;
    FloorDrop(m, e2, -y, x - y);
    DivUnique(0, Pow(10, x - y), 0, 0);
  }

  // Every double has a decimal exponent; OneExponent says it has only one.
  lemma ExponentExists(m: nat, e2: int) returns (x: int)
    requires m > 0 && DoubleExponent(e2)
    ensures LeadingExponent(m, e2, x)
  {
    hide FloorAt, DecimalLength;
    AtLeastOne(m, e2, 358);
    var len: int := DecimalLength(FloorAt(m, e2, 358));
    x := len - 1 - 358;
    LeadingFromDigits(m, e2, len, x);
  }

  // --- the whole printer ---

  // What is printed for m * 2^e2 with decimal exponent x.
  ghost function ScientificText(m: nat, e2: int, precision: nat, x: int): (s: string)
  {
    var n := NearestAt(m, e2, precision - x);
    SignificandText(Normalized(n, precision + 1), precision > 0) + ExponentText(ExponentAfter(n, precision + 1, x))
  }

  lemma DigitsFromLeading(m: nat, e2: int, precision: nat, x: int)
    requires LeadingExponent(m, e2, x)
    ensures DecimalLength(FloorAt(m, e2, precision - x)) == precision + 1 && FloorAt(m, e2, precision - x) > 0
  {
    var n, p := FloorAt(m, e2, precision - x), Pow(10, precision);
    hide FloorAt;
    FloorDrop(m, e2, precision - x, precision);
    PowStep(10, precision + 1);
    hide Pow, DecimalLength;
    DivMod(n, p);
    DivAtLeast(n, p, 1);
    DivAtLeast(n, p, 10);
    LengthIs(n, precision + 1);
  }

  lemma TextLength(m: nat, e2: int, precision: nat, x: int)
    requires LeadingExponent(m, e2, x)
    ensures |ScientificText(m, e2, precision, x)| >= precision + 1 + if precision > 0 then 1 else 0
  {
    DigitsFromLeading(m, e2, precision, x);
    NormalizedLength(FloorAt(m, e2, precision - x), precision + 1, NearestAt(m, e2, precision - x));
  }

  // The text has p digits behind the point, and reads as m * 2^e2 rounded half to even at
  // the last digit that the exponent x leaves for it.
  ghost predicate ReadsRounded(s: string, m: nat, e2: int, p: nat, x: int)
  {
    ScientificShape(s, p) && if m == 0 then Read(s) == Dec(0, 0 - p) else IsRounded(Read(s), m, e2, p, x)
  }

  ghost predicate IsRounded(d: Dec, m: nat, e2: int, p: nat, x: int)
  {
    && Pow(10, p) <= d.n < Pow(10, p + 1) && d.k >= x - p
    && d.n * Pow(10, d.k - (x - p)) == NearestAt(m, e2, p - x)
  }

  /** What is printed reads back as the rounded value, whether or not the rounding
      carried into the exponent. */
  lemma ScientificTextReadsRounded(m: nat, e2: int, precision: nat, x: int)
    requires m > 0 && LeadingExponent(m, e2, x) && Magnitude(x) < 999
    ensures ReadsRounded(ScientificText(m, e2, precision, x), m, e2, precision, x)
  {
    hide NearestAt, DecimalLength, Read, ScientificShape, SignificandText, ExponentText, Normalized, IsRounded,
         LeadingExponent;
    var r := NearestAt(m, e2, precision - x);
    var s, y := Normalized(r, precision + 1), ExponentAfter(r, precision + 1, x);
    NormalizedIsRounded(m, e2, precision, x);
    ScientificTextShape(s, y);
    ReadText(s, y);
  }

  lemma NormalizedIsRounded(m: nat, e2: int, p: nat, x: int)
    requires LeadingExponent(m, e2, x)
    ensures var r := NearestAt(m, e2, p - x);
            var s := Normalized(r, p + 1);
            DecimalLength(s) == p + 1 && IsRounded(Dec(s, ExponentAfter(r, p + 1, x) - p), m, e2, p, x)
  {
    hide FloorAt, NearestAt, DecimalLength, Pow, Normalized, LeadingExponent;
    NearestIsNext(m, e2, p - x);
    DigitsFromLeading(m, e2, p, x);
    CarryIsPower(FloorAt(m, e2, p - x), p + 1, NearestAt(m, e2, p - x));
  }

  lemma NearestIsNext(m: nat, e2: int, rexp: int)
    ensures NearestAt(m, e2, rexp) == FloorAt(m, e2, rexp) || NearestAt(m, e2, rexp) == FloorAt(m, e2, rexp) + 1
  {
  }

  lemma ReadText(n: nat, x: int)
    requires Magnitude(x) < 1000
    ensures Read(SignificandText(n, DecimalLength(n) > 1) + ExponentText(x)) == Dec(n, x - (DecimalLength(n) - 1))
  {
    hide SignificandText, ExponentText, Read;
    ReadScientific(n, x - (DecimalLength(n) - 1));
  }

  lemma ZeroReadsRounded(e2: int, precision: nat, x: int)
    ensures ReadsRounded(FixedText(0, precision) + "e+00", 0, e2, precision, x)
  {
    hide FixedText, Read, DigitsValue, AfterPoint, FixedShape, ScientificShape, ReadExponent;
    var s := FixedText(0, precision);
    FixedTextShape(0, precision);
    LetterInShape(s, precision);
    FixedTextValue(0, precision);
    FixedTextPlaces(0, precision);
    ZeroShape(precision);
    ReadParts(s, "e+00");
    ZeroExponent();
  }

  lemma ZeroExponent()
    ensures ExponentText(0) == "e+00" && ReadExponent("e+00") == 0
  {
    assert FixedDigits(0, 2) == "00";
    ExponentReadsBack(0);
  }

  lemma ZeroShape(precision: nat)
    ensures ScientificShape(FixedText(0, precision) + "e+00", precision)
  {
    FixedPrecision.ZeroText(precision);
    DecimalDigits(0, precision);
    ExponentTextShape(0);
    ZeroExponent();
    hide FixedText, FixedDigits, ExponentShape, ExponentText;
    var s, w := FixedText(0, precision) + "e+00", if precision > 0 then precision + 2 else 1;
    assert s[w..] == "e+00";
    if precision > 0 {
      assert s[2..w] == FixedDigits(0, precision);
    }
  }

  // Lines 697-714.
  method PrintZeroExponent(buf: array<char>, first: nat, last: nat, precision: nat, ghost orig: string)
    returns (ok: bool, end: nat)
    requires first <= last <= buf.Length && buf[..] == orig
    modifies buf
    ensures var text := FixedText(0, precision) + "e+00";
            && (ok <==> first + |text| <= last)
            && (ok ==> end == first + |text| && buf[..] == Splice(orig, first, text))
    ensures !ok ==> end == last && buf[..] == orig
  {
    FixedPrecision.ZeroText(precision);
    hide FixedText, Splice, FixedDigits;
    var total := 1 + (if precision != 0 then 1 else 0) + precision + 4;
    if last - first < total {
      return false, last;
    }
    ok, end := FixedPrecision.PrintZero(buf, first, last, precision, orig);
    ghost var text := FixedText(0, precision);
    PutTwo(buf, end, 'e', '+', orig, first, text);
    PutTwo(buf, end + 2, '0', '0', orig, first, text + ['e', '+']);
    assert text + ['e', '+'] + ['0', '0'] == text + "e+00";
    end := end + 4;
  }

  lemma AllPrinted(m: nat, e2: int, fraction: FractionTable)
    requires DoubleSignificand(m) && e2 < 0 && FractionBlocks(fraction, m, e2)
    requires fraction.minBlock + |fraction.digits| <= 200
    ensures Exact(m, e2, 1800) && Prefix(m, e2, -200) > 0
  {
    OnlyZerosBehind(fraction, m, e2, 1800);
    hide FloorAt, Pow, FractionBlocks;
    NonzeroSignificand(m);
    ExactIsPositive(m, e2, 1800);
  }

  lemma ExactIsPositive(m: nat, e2: int, rexp: int)
    requires m > 0 && Exact(m, e2, rexp)
    ensures FloorAt(m, e2, rexp) > 0
  {
    var a, b := Pow(2, Above(e2)), Pow(10, Above(rexp));
    hide Pow;
    MulAtLeast(m, a);
    MulAtLeast(m * a, b);
    DivMod(ScaledNum(m, e2, rexp), ScaledDen(e2, rexp));
  }

  lemma IntegerIsExact(m: nat, e2: nat)
    ensures Exact(m, e2, 0)
  {
    assert Pow(2, 0) == 1 && Pow(10, 0) == 1;
  }

  // Lines 730-875: every digit wanted, unrounded.
  method PrintDigits(buf: array<char>, first: nat, last: nat, m: U64, e2: int, digits: nat, point: bool,
                     whole: seq<nat>, fraction: FractionTable, ghost orig: string)
    returns (ok: bool, end: nat, x: int, mode: nat)
    requires first <= last <= buf.Length && buf[..] == orig && DoubleSignificand(m) && digits > 0
    requires (point <==> digits > 1)
    requires TablesFor(m, e2, whole, fraction) && fraction.minBlock + |fraction.digits| <= 200
    modifies buf
    ensures ok <==> first + digits + (if point then 1 else 0) <= last
    ensures ok ==> Unrounded(m, e2, digits, x, mode)
    ensures ok ==>
      var s := SignificandText(FloorAt(m, e2, digits - 1 - x), point);
      end == first + |s| && buf[..] == Splice(orig, first, s)
    ensures !ok ==> end == last && Outside(buf[..], orig, first, last)
  {
    hide FloorAt, Splice, SignificandText, DecimalLength, Pow, WholeBlocks, FractionBlocks, DoubleSignificand, Stage,
         Outside, Prefix, Unrounded, Exact;
    mode := 0;
    if e2 < -52 {
      NoWholePart(m, e2);
    }
    NonzeroSignificand(m);
    var step, printed, available, block;
    ghost var j, text;
    step, end, printed, available, x, block, j, text := PrintWhole(buf, first, last, if e2 >= -52 then whole else [],
        digits, point, m, e2, orig);
    SpliceOutside(orig, first, last, text);
    if step.NoRoom? {
      return false, last, x, 0;
    }
    if e2 < 0 && available == 0 {
      StageAvailable(step, m, e2, j, digits, point, printed, available, x, block, text);
      step, end, printed, available, x, block, j, text := PrintFraction(buf, first, last, end, fraction, digits, point,
          printed, x, m, e2, orig, text);
      SpliceOutside(orig, first, last, text);
      if step.NoRoom? {
        return false, last, x, 0;
      }
      AllPrinted(m, e2, fraction);
    } else if e2 >= 0 {
      IntegerIsExact(m, e2);
      ExactIsPositive(m, e2, 0);
    }
    StageAvailable(step, m, e2, j, digits, point, printed, available, x, block, text);
    if step.Enough? {
      ok, end, mode := FinishSurplus(buf, first, last, end, digits, point, printed, available, x, block, m, e2, j,
                                     orig, text);
    } else {
      ok, end := FinishExact(buf, first, last, end, digits, point, printed, x, m, e2, j, orig, text);
    }
  }

  lemma StageAvailable(step: Step, m: nat, e2: int, j: int, digits: nat, point: bool, printed: nat, available: nat,
                       x: int, block: nat, text: string)
    requires Stage(step, m, e2, j, digits, point, printed, available, x, block, text) && !step.NoRoom?
    ensures step.Next? <==> available == 0
    ensures step.Next? ==> Stage(Next, m, e2, j, digits, point, printed, 0, x, 0, text)
    ensures Prefix(m, e2, j) == FloorAt(m, e2, -9 * j)
  {
  }

  /** __d2exp_buffered_n prints the exact value rounded half to even to the given
      number of digits, with its decimal exponent x, and fails exactly when that text
      does not fit. */
  method D2expBufferedN(buf: array<char>, first: nat, last: nat, ieeeMantissa: nat, ieeeExponent: nat, precision: nat,
                        whole: seq<nat>, fraction: FractionTable, ghost x: int)
    returns (ok: bool, end: nat)
    requires first <= last <= buf.Length && FiniteFields(ieeeMantissa, ieeeExponent)
    requires ieeeMantissa != 0 || ieeeExponent != 0 ==>
      var m2, e2 := DecodedM(ieeeMantissa, ieeeExponent), DecodedE(ieeeExponent);
      TablesFor(m2, e2, whole, fraction) && fraction.minBlock + |fraction.digits| <= 200 && LeadingExponent(m2, e2, x)
    modifies buf
    ensures var m2, e2 := DecodedM(ieeeMantissa, ieeeExponent), DecodedE(ieeeExponent);
            var text := if m2 == 0 then FixedText(0, precision) + "e+00" else ScientificText(m2, e2, precision, x);
            && (ok <==> first + |text| <= last)
            && (ok ==> end == first + |text| && buf[..] == Splice(old(buf[..]), first, text))
            && ReadsRounded(text, m2, e2, precision, x)
    ensures !ok ==> end == last && Outside(buf[..], old(buf[..]), first, last)
  {
    hide FixedText, ScientificText, TablesFor, Splice, LeadingExponent, ReadsRounded;
    ghost var orig := buf[..];
    if ieeeMantissa == 0 && ieeeExponent == 0 {
      ZeroReadsRounded(DecodedE(ieeeExponent), precision, x);
      ok, end := PrintZeroExponent(buf, first, last, precision, orig);
    } else {
      DecodedIsSignificand(ieeeMantissa, ieeeExponent);
      DecodedFits(ieeeMantissa, ieeeExponent);
      DecodedReadsRounded(ieeeMantissa, ieeeExponent, precision, x);
      ok, end := PrintExponential(buf, first, last, DecodedM(ieeeMantissa, ieeeExponent), DecodedE(ieeeExponent),
                                  precision, whole, fraction, x, orig);
    }
  }

  lemma DecodedReadsRounded(ieeeMantissa: nat, ieeeExponent: nat, precision: nat, x: int)
    requires FiniteFields(ieeeMantissa, ieeeExponent) && (ieeeMantissa != 0 || ieeeExponent != 0)
    requires LeadingExponent(DecodedM(ieeeMantissa, ieeeExponent), DecodedE(ieeeExponent), x)
    ensures var m2, e2 := DecodedM(ieeeMantissa, ieeeExponent), DecodedE(ieeeExponent);
            ReadsRounded(ScientificText(m2, e2, precision, x), m2, e2, precision, x)
  {
    var m2, e2 := DecodedM(ieeeMantissa, ieeeExponent), DecodedE(ieeeExponent);
    DecodedIsSignificand(ieeeMantissa, ieeeExponent);
    DecodedFits(ieeeMantissa, ieeeExponent);
    hide DoubleSignificand, LeadingExponent, ScientificText, ReadsRounded, DecodedM, DecodedE;
    NonzeroSignificand(m2);
    ExponentIsShort(m2, e2, x);
    ScientificTextReadsRounded(m2, e2, precision, x);
  }

  lemma DecodedFits(ieeeMantissa: nat, ieeeExponent: nat)
    requires FiniteFields(ieeeMantissa, ieeeExponent)
    ensures DecodedM(ieeeMantissa, ieeeExponent) < 0x1_0000_0000_0000_0000 && DoubleExponent(DecodedE(ieeeExponent))
  {
  }

  method PrintExponential(buf: array<char>, first: nat, last: nat, m: U64, e2: int, precision: nat, whole: seq<nat>,
                          fraction: FractionTable, ghost x: int, ghost orig: string)
    returns (ok: bool, end: nat)
    requires first <= last <= buf.Length && buf[..] == orig && DoubleSignificand(m) && DoubleExponent(e2)
    requires TablesFor(m, e2, whole, fraction) && fraction.minBlock + |fraction.digits| <= 200
    requires LeadingExponent(m, e2, x)
    modifies buf
    ensures m > 0
    ensures var text := ScientificText(m, e2, precision, x);
            && (ok <==> first + |text| <= last)
            && (ok ==> end == first + |text| && buf[..] == Splice(orig, first, text))
    ensures !ok ==> end == last && Outside(buf[..], orig, first, last)
  {
    hide FloorAt, Splice, SignificandText, DecimalLength, Pow, TablesFor, DoubleSignificand, Outside, LeadingExponent,
         ExponentText, NearestAt, ModeOf;
    NonzeroSignificand(m);
    TextLength(m, e2, precision, x);
    var digits, point := precision + 1, precision > 0;
    var x0, mode;
    ok, end, x0, mode := PrintDigits(buf, first, last, m, e2, digits, point, whole, fraction, orig);
    if !ok {
      return;
    }
    LeadingFromDigits(m, e2, digits, x0);
    OneExponent(m, e2, x, x0);
    ExponentIsShort(m, e2, x);
    ghost var n := FloorAt(m, e2, precision - x);
    ModeRounds(m, e2, precision - x);
    x0 := RoundScientific(buf, first, end, mode, x0, orig, n, point);
    ghost var s := SignificandText(Normalized(Rounded(n, mode), digits), point);
    SpliceOutside(orig, first, last, s);
    ok, end := PutExponent(buf, end, last, x0, buf[..]);
    if ok {
      SpliceTwo(orig, first, s, ExponentText(x0));
    }
  }
}
