// __d2fixed_buffered_n: a double in fixed notation with a given number of digits
// after the point, rounded half to even from the exact value.
module FixedPrecision {
  import opened Arith
  import opened Digits
  import opened Rounding
  import opened Blocks
  import opened FixedNotation
  import opened ToChars
  import opened Notation

  // --- the digits before the point ---

  lemma {:induction false} LengthMonotone(a: nat, b: nat)
    requires a <= b
    ensures DecimalLength(a) <= DecimalLength(b)
    decreases a
  {
    if a >= 10 {
      LengthMonotone(a / 10, b / 10);
    }
  }

  lemma DroppedLength(v: nat, i: nat)
    ensures DecimalLength(Dropped(v, i)) <= DecimalLength(v)
  {
    var p := Pow(10, 9 * i);
    hide Pow;
    DivMod(v, p);
    MulMonotone(v / p, v / p, 1, p);
    LengthMonotone(Dropped(v, i), v);
  }

  // One more block behind the ones printed.
  lemma AppendBlock(v: nat, i: nat)
    requires Dropped(v, i + 1) > 0
    ensures Decimal(Dropped(v, i)) == Decimal(Dropped(v, i + 1)) + FixedDigits(BlockOf(v, i), 9)
  {
    DroppedStep(v, i);
    NineDigits();
    hide Dropped, Pow, Decimal;
    DecimalAppend(Dropped(v, i + 1), BlockOf(v, i), 9);
  }

  // The digits printed once the blocks from i on are done; leading zeros are not.
  ghost function WholeSoFar(v: nat, i: nat): string
  {
    if Dropped(v, i) == 0 then "" else Decimal(Dropped(v, i))
  }

  lemma WholeSoFarStep(v: nat, i: nat)
    ensures Dropped(v, i) == 0 <==> Dropped(v, i + 1) == 0 && BlockOf(v, i) == 0
    ensures Dropped(v, i + 1) > 0 ==> WholeSoFar(v, i) == WholeSoFar(v, i + 1) + FixedDigits(BlockOf(v, i), 9)
    ensures Dropped(v, i + 1) == 0 && BlockOf(v, i) > 0 ==>
              WholeSoFar(v, i) == WholeSoFar(v, i + 1) + Decimal(BlockOf(v, i))
    ensures Dropped(v, i) == 0 ==> WholeSoFar(v, i) == WholeSoFar(v, i + 1)
    ensures |WholeSoFar(v, i)| <= DecimalLength(v)
  {
    hide Dropped, BlockOf, FixedDigits, DecimalLength, Decimal, Pow;
    DroppedStep(v, i);
    DroppedLength(v, i);
    if Dropped(v, i + 1) > 0 {
      AppendBlock(v, i);
      assert Dropped(v, i) >= BILLION;
    } else {
      NothingInFront(Decimal(BlockOf(v, i)));
    }
  }

  lemma NothingInFront(s: string)
    ensures "" + s == s
  {
  }

  // Lines 539-572.
  method WholePart(buf: array<char>, first: nat, last: nat, w: seq<nat>, ghost v: nat, ghost orig: string)
    returns (ok: bool, end: nat)
    requires first <= last <= buf.Length && buf[..] == orig && WholeBlocks(w, v)
    modifies buf
    ensures ok <==> first + |Decimal(v)| <= last
    ensures ok ==> end == first + |Decimal(v)| && buf[..] == Splice(orig, first, Decimal(v))
    ensures !ok ==> end == last && Outside(buf[..], orig, first, last)
  {
    hide Dropped, BlockOf, FixedDigits, DecimalLength, Splice, Pow, WholeSoFar;
    end := first;
    var nonzero := false;
    var i: int := |w|;
    DroppedAll(v, w);
    NothingYet(v, |w|, orig, first);
    while i > 0
      invariant 0 <= i <= |w| && end <= last && end == first + |WholeSoFar(v, i)|
      invariant nonzero <==> Dropped(v, i) > 0
      invariant |orig| == buf.Length && buf[..] == Splice(orig, first, WholeSoFar(v, i))
      decreases i
    {
      i := i - 1;
      WholeSoFarStep(v, i);
      var digits := w[i];
      BlockIsSmall(v, i);
      ghost var text := WholeSoFar(v, i + 1);
      if nonzero {
        if last - end < 9 {
          SpliceOutside(orig, first, last, text);
          return false, last;
        }
        AppendNineDigits(digits, buf, end);
        SpliceTwo(orig, first, text, FixedDigits(digits, 9));
        end := end + 9;
      } else if digits != 0 {
        var olength := DecimalLength9(digits);
        if last - end < olength {
          SpliceOutside(orig, first, last, text);
          return false, last;
        }
        AppendNDigits(olength, digits, buf, end);
        SpliceTwo(orig, first, text, Decimal(digits));
        end := end + olength;
        nonzero := true;
      }
    }
    WholeDone(v);
    if !nonzero {
      ghost var text := WholeSoFar(v, 0);
      if end == last {
        SpliceOutside(orig, first, last, text);
        return false, last;
      }
      SpliceBack(orig, first, text, '0');
      buf[end] := '0';
      end := end + 1;
    }
    ok := true;
  }

  lemma NothingYet(v: nat, i: nat, orig: string, first: nat)
    requires Dropped(v, i) == 0 && first <= |orig|
    ensures WholeSoFar(v, i) == "" && Splice(orig, first, "") == orig
  {
  }

  lemma WholeDone(v: nat)
    ensures Dropped(v, 0) == v
    ensures v > 0 ==> WholeSoFar(v, 0) == Decimal(v)
    ensures v == 0 ==> WholeSoFar(v, 0) + "0" == Decimal(v) && WholeSoFar(v, 0) == ""
  {
    assert v / Pow(10, 0) == v;
    if v == 0 {
      ShortLength(0);
      LastDigits(0);
    }
  }

  // --- the digits behind the point ---

  // The next digit and the power-of-two test (lines 630-638).
  lemma FractionMode(m: nat, e2: int, precision: nat, lastDigit: nat)
    requires DoubleSignificand(m) && lastDigit == FloorAt(m, e2, precision + 1) % 10
    ensures RoundMode(lastDigit, EnoughTwos(m, -e2 - precision - 1)) == ModeOf(m, e2, precision)
  {
    hide DoubleSignificand, FloorAt, EnoughTwos, ModeOf;
    ModeAt(m, e2, precision, lastDigit);
  }

  // All of it before the first nonzero block (lines 585-591).
  lemma AllLeadingZeros(t: FractionTable, m: nat, e2: int, precision: nat)
    requires DoubleSignificand(m) && FractionBlocks(t, m, e2) && precision < 9 * t.minBlock
    ensures FloorAt(m, e2, precision) == 0 && ModeOf(m, e2, precision) == 0
  {
    hide DoubleSignificand, FloorAt, EnoughTwos, ModeOf;
    LeadingZeros(t, m, e2, precision + 1);
    LeadingZeros(t, m, e2, precision);
    FractionMode(m, e2, precision, 0);
  }

  // Nothing left to print or to round (lines 603-612).
  lemma OnlyZerosLeft(t: FractionTable, m: nat, e2: int, b: nat, precision: nat)
    requires FractionBlocks(t, m, e2) && t.minBlock + |t.digits| <= b && 9 * b <= precision
    ensures FixedDigits(FloorAt(m, e2, precision), precision)
         == FixedDigits(FloorAt(m, e2, 9 * b), 9 * b) + FixedDigits(0, precision - 9 * b)
    ensures ModeOf(m, e2, precision) == 0
  {
    var d := precision - 9 * b;
    hide Pow, FixedDigits, FractionBlocks, FloorAt, Exact, ModeOf;
    FractionMore(m, e2, 9 * b, d);
    OnlyZerosBehind(t, m, e2, 9 * b);
    ExactScales(m, e2, 9 * b, d);
    FixedDigitsMod(FloorAt(m, e2, precision), d);
    Multiple(FloorAt(m, e2, precision), Pow(10, d), FloorAt(m, e2, 9 * b));
  }

  // The block with the last digit to print (lines 623-646).
  method LastFractionBlock(buf: array<char>, pos: nat, last: nat, m: nat, e2: int, b: nat, block: nat, precision: nat,
                           ghost orig: string, ghost text: string)
    returns (ok: bool, end: nat, mode: nat)
    requires 9 * b <= precision < 9 * b + 9 && block == FractionBlock(m, e2, b) && DoubleSignificand(m)
    requires |text| == 9 * b && pos + |text| <= last <= buf.Length == |orig| && buf[..] == Splice(orig, pos, text)
    modifies buf
    ensures ok <==> pos + precision <= last
    ensures ok ==> end == pos + precision && mode == ModeOf(m, e2, precision)
    ensures ok ==> buf[..] == Splice(orig, pos, text + FixedDigits(FloorAt(m, e2, precision), precision - 9 * b))
    ensures !ok ==> buf[..] == old(buf[..])
  {
    hide Pow, Cut, FixedDigits, Splice, EnoughTwos, ModeOf, FloorAt, DoubleSignificand;
    var maximum := precision - 9 * b;
    var digits, lastDigit := DropDigits(block, 9 - maximum);
    KeptDigits(m, e2, 9 * b + 9, 9 - maximum, block);
    mode := RoundMode(lastDigit, EnoughTwos(m, -e2 - precision - 1));
    FractionMode(m, e2, precision, lastDigit);
    end := pos + 9 * b;
    if maximum > 0 {
      if last - end < maximum {
        return false, last, mode;
      }
      AppendCDigits(maximum, digits, buf, end);
      SpliceTwo(orig, pos, text, FixedDigits(digits, maximum));
      end := end + maximum;
    } else {
      NoDigits(FloorAt(m, e2, precision), text);
    }
    ok := true;
  }

  lemma NoDigits(n: nat, text: string)
    ensures text + FixedDigits(n, 0) == text
  {
  }

  // Lines 579-648: the digits behind the point and how to round them.
  method FractionPart(buf: array<char>, pos: nat, last: nat, m: nat, e2: int, precision: nat, t: FractionTable,
                      ghost orig: string)
    returns (ok: bool, end: nat, mode: nat)
    requires pos <= last <= buf.Length && buf[..] == orig && DoubleSignificand(m) && FractionBlocks(t, m, e2)
    modifies buf
    ensures ok <==> pos + precision <= last
    ensures ok ==> end == pos + precision && mode == ModeOf(m, e2, precision)
    ensures ok ==> buf[..] == Splice(orig, pos, FixedDigits(FloorAt(m, e2, precision), precision))
    ensures !ok ==> end == last && Outside(buf[..], orig, pos, last)
  {
    hide Pow, FixedDigits, Splice, ModeOf, FloorAt, FractionBlock, DoubleSignificand, FractionBlocks, Outside;
    var blocks := precision / 9 + 1;
    mode := 0;
    end := pos;
    var i := 0;
    SpliceNothing(orig, pos);
    NoDigits(FloorAt(m, e2, 0), "");
    if blocks <= t.minBlock {
      AllLeadingZeros(t, m, e2, precision);
      if last - end < precision {
        SpliceOutside(orig, pos, last, "");
        return false, last, mode;
      }
      FillZeros(buf, end, precision);
      return true, end + precision, mode;
    } else if i < t.minBlock {
      i := t.minBlock;
      LeadingZeros(t, m, e2, 9 * i);
      if last - end < 9 * i {
        SpliceOutside(orig, pos, last, "");
        return false, last, mode;
      }
      FillZeros(buf, end, 9 * i);
      end := end + 9 * i;
    }
    while true
      invariant t.minBlock <= i < blocks && end == pos + 9 * i <= last <= buf.Length == |orig|
      invariant buf[..] == Splice(orig, pos, FixedDigits(FloorAt(m, e2, 9 * i), 9 * i))
      decreases blocks - i
    {
      ghost var text := FixedDigits(FloorAt(m, e2, 9 * i), 9 * i);
      SpliceOutside(orig, pos, last, text);
      if i - t.minBlock >= |t.digits| {
        OnlyZerosLeft(t, m, e2, i, precision);
        var fill := precision - 9 * i;
        if last - end < fill {
          return false, last, 0;
        }
        FillZeros(buf, end, fill);
        SpliceTwo(orig, pos, text, FixedDigits(0, fill));
        return true, end + fill, 0;
      }
      TableBlock(t, m, e2, i);
      var digits := t.digits[i - t.minBlock];
      if i < blocks - 1 {
        if last - end < 9 {
          return false, last, 0;
        }
        FractionStep(m, e2, i);
        AppendNineDigits(digits, buf, end);
        SpliceTwo(orig, pos, text, FixedDigits(digits, 9));
        end := end + 9;
        i := i + 1;
      } else {
        FractionMore(m, e2, 9 * i, precision - 9 * i);
        ok, end, mode := LastFractionBlock(buf, pos, last, m, e2, i, digits, precision, orig, text);
        if !ok {
          end := last;
        }
        return;
      }
    }
  }

  // --- the whole printer ---

  lemma IntegerScale(m2: nat, e2: nat, precision: nat)
    ensures ScaledNum(m2, e2, precision) == m2 * Pow(2, e2) * Pow(10, precision) && ScaledDen(e2, precision) == 1
    ensures NearestAt(m2, e2, precision) == FloorAt(m2, e2, precision) == m2 * Pow(2, e2) * Pow(10, precision)
    ensures FloorAt(m2, e2, 0) == m2 * Pow(2, e2)
  {
    assert Pow(2, 0) == 1 && Pow(10, 0) == 1;
  }

  lemma WholeOfFloor(m2: nat, e2: int, precision: nat)
    ensures Cut(FloorAt(m2, e2, precision), precision) == FloorAt(m2, e2, 0)
    ensures e2 >= 0 ==> FixedDigits(FloorAt(m2, e2, precision), precision) == FixedDigits(0, precision)
  {
    hide FixedDigits, FloorAt;
    FloorDrop(m2, e2, precision, precision);
    if e2 >= 0 {
      IntegerScale(m2, e2, precision);
      var v, d := m2 * Pow(2, e2), Pow(10, precision);
      FixedDigitsMod(v * d, precision);
      hide Pow;
      DivUnique(v * d, d, v, 0);
    }
  }

  lemma FixedTextMonotone(a: nat, b: nat, p: nat)
    requires a <= b
    ensures |FixedText(a, p)| <= |FixedText(b, p)|
  {
    DivMonotone(a, b, Pow(10, p));
    LengthMonotone(Cut(a, p), Cut(b, p));
  }

  // Rounding never makes the text shorter.
  lemma NearestIsLonger(m2: nat, e2: int, precision: nat)
    ensures |FixedText(NearestAt(m2, e2, precision), precision)|
         >= DecimalLength(FloorAt(m2, e2, 0)) + if precision == 0 then 0 else precision + 1
  {
    WholeOfFloor(m2, e2, precision);
    FixedTextMonotone(FloorAt(m2, e2, precision), NearestAt(m2, e2, precision), precision);
  }

  // Lines 507-523.
  method PrintZero(buf: array<char>, first: nat, last: nat, precision: nat, ghost orig: string)
    returns (ok: bool, end: nat)
    requires first <= last <= buf.Length && buf[..] == orig
    modifies buf
    ensures ok <==> first + |FixedText(0, precision)| <= last
    ensures ok ==> end == first + |FixedText(0, precision)| && buf[..] == Splice(orig, first, FixedText(0, precision))
    ensures !ok ==> end == last && buf[..] == orig
  {
    ZeroText(precision);
    hide FixedText, FixedDigits;
    var total := 1 + (if precision != 0 then 1 else 0) + precision;
    if last - first < total {
      return false, last;
    }
    buf[first] := '0';
    end := first + 1;
    if precision > 0 {
      buf[end] := '.';
      end := end + 1;
      assert buf[..] == Splice(orig, first, "0.");
      hide Splice;
      FillZeros(buf, end, precision);
      SpliceTwo(orig, first, "0.", FixedDigits(0, precision));
      end := end + precision;
    }
    ok := true;
  }

  lemma ZeroText(precision: nat)
    ensures FixedText(0, precision) == if precision == 0 then "0" else "0." + FixedDigits(0, precision)
  {
    hide Pow, FixedDigits;
    DivUnique(0, Pow(10, precision), 0, 0);
    DecimalZero();
  }

  // Lines 573-578: the decimal point, if there is one.
  method PutPoint(buf: array<char>, first: nat, end: nat, last: nat, precision: nat, ghost orig: string,
                  ghost text: string)
    returns (ok: bool, newEnd: nat)
    requires first + |text| == end <= last <= buf.Length == |orig| && buf[..] == Splice(orig, first, text)
    modifies buf
    ensures ok <==> end + (if precision > 0 then 1 else 0) <= last
    ensures ok ==> newEnd == end + (if precision > 0 then 1 else 0)
    ensures ok ==> buf[..] == Splice(orig, first, text + if precision > 0 then "." else "")
    ensures !ok ==> newEnd == last && Outside(buf[..], orig, first, last)
  {
    hide Splice;
    newEnd := end;
    assert text + "" == text;
    if precision > 0 {
      if end == last {
        SpliceOutside(orig, first, last, text);
        return false, last;
      }
      SpliceBack(orig, first, text, '.');
      buf[end] := '.';
      newEnd := end + 1;
    }
    ok := true;
  }

  // Two pieces, the second behind the first, leave everything else alone.
  lemma OutsideTwo(t: string, orig: string, first: nat, text: string, last: nat)
    requires first + |text| <= last <= |orig| && Outside(t, Splice(orig, first, text), first + |text|, last)
    ensures Outside(t, orig, first, last)
  {
    assert t[..first] == t[..first + |text|][..first];
    assert Splice(orig, first, text)[..first + |text|][..first] == orig[..first];
  }

  lemma JoinText(n: nat, precision: nat, v: nat)
    requires Cut(n, precision) == v
    ensures Decimal(v) + (if precision > 0 then "." else "") + FixedDigits(n, precision) == FixedText(n, precision)
  {
    if precision == 0 {
      assert FixedDigits(n, 0) == "";
    }
  }

  method PrintNonzero(buf: array<char>, first: nat, last: nat, m2: nat, e2: int, precision: nat, whole: seq<nat>,
                      fraction: FractionTable, ghost orig: string)
    returns (ok: bool, end: nat)
    requires first <= last <= buf.Length && buf[..] == orig && DoubleSignificand(m2)
    requires TablesFor(m2, e2, whole, fraction)
    modifies buf
    ensures var text := FixedText(NearestAt(m2, e2, precision), precision);
            && (ok <==> first + |text| <= last)
            && (ok ==> end == first + |text| && buf[..] == Splice(orig, first, text))
    ensures !ok ==> end == last && Outside(buf[..], orig, first, last)
  {
    hide FixedText, NearestAt, ModeOf, Splice, FixedDigits, Decimal, Outside, DoubleSignificand, FloorAt, Pow,
         FractionBlocks, WholeBlocks;
    ghost var v := FloorAt(m2, e2, 0);
    NearestIsLonger(m2, e2, precision);
    if e2 < -52 {
      NoWholePart(m2, e2);
    }
    ok, end := WholePart(buf, first, last, if e2 >= -52 then whole else [], v, orig);
    if !ok {
      return;
    }
    ghost var text := Decimal(v);
    ok, end := PutPoint(buf, first, end, last, precision, orig, text);
    if !ok {
      return;
    }
    text := text + if precision > 0 then "." else "";
    ghost var n := FloorAt(m2, e2, precision);
    WholeOfFloor(m2, e2, precision);
    JoinText(n, precision, v);
    if e2 < 0 {
      var mode;
      ok, end, mode := FractionPart(buf, end, last, m2, e2, precision, fraction, buf[..]);
      if !ok {
        OutsideTwo(buf[..], orig, first, text, last);
        return;
      }
      SpliceTwo(orig, first, text, FixedDigits(n, precision));
      ModeRounds(m2, e2, precision);
      ok, end := RoundFixed(buf, first, end, last, mode, orig, n, precision);
    } else {
      IntegerScale(m2, e2, precision);
      if last - end < precision {
        SpliceOutside(orig, first, last, text);
        return false, last;
      }
      FillZeros(buf, end, precision);
      SpliceTwo(orig, first, text, FixedDigits(n, precision));
      end := end + precision;
    }
  }

  /** __d2fixed_buffered_n prints the exact value rounded half to even to the given
      number of digits, and fails exactly when that text does not fit. */
  method D2fixedBufferedN(buf: array<char>, first: nat, last: nat, ieeeMantissa: nat, ieeeExponent: nat,
                          precision: nat, whole: seq<nat>, fraction: FractionTable)
    returns (ok: bool, end: nat)
    requires first <= last <= buf.Length && FiniteFields(ieeeMantissa, ieeeExponent)
    requires ieeeMantissa != 0 || ieeeExponent != 0 ==>
      TablesFor(DecodedM(ieeeMantissa, ieeeExponent), DecodedE(ieeeExponent), whole, fraction)
    modifies buf
    ensures var value := NearestAt(DecodedM(ieeeMantissa, ieeeExponent), DecodedE(ieeeExponent), precision);
            var text := FixedText(value, precision);
            && (ok <==> first + |text| <= last)
            && (ok ==> end == first + |text| && buf[..] == Splice(old(buf[..]), first, text))
            && FixedShape(text, precision) && Read(text) == Dec(value, 0 - precision)
    ensures !ok ==> end == last && Outside(buf[..], old(buf[..]), first, last)
  {
    hide FixedText, NearestAt, TablesFor, Splice, FixedShape, Read;
    ghost var value := NearestAt(DecodedM(ieeeMantissa, ieeeExponent), DecodedE(ieeeExponent), precision);
    FixedTextShape(value, precision);
    FixedTextReads(value, precision);
    if ieeeMantissa == 0 && ieeeExponent == 0 {
      NearestOfZero(DecodedE(0), precision);
      ok, end := PrintZero(buf, first, last, precision, buf[..]);
    } else {
      DecodedIsSignificand(ieeeMantissa, ieeeExponent);
      ok, end := PrintNonzero(buf, first, last, DecodedM(ieeeMantissa, ieeeExponent), DecodedE(ieeeExponent),
                              precision, whole, fraction, buf[..]);
    }
  }

  lemma NearestOfZero(e2: int, precision: nat)
    ensures NearestAt(0, e2, precision) == 0
  {
    DivUnique(0, ScaledDen(e2, precision), 0, 0);
  }
}
