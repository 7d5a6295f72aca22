// __to_chars: laying out the shortest decimal n * 10^k in fixed or scientific notation.
module ToChars {
  import opened Arith
  import opened Words
  import opened Digits
  import opened Carry
  import opened FixedNotation
  import opened ScientificNotation

  datatype CharsFormat = Unspecified | Fixed | Scientific | General

  // The two notations of n * 10^k.
  function FixedForm(n: nat, k: int): (s: string)
  {
    if k >= 0 then Decimal(n * Pow(10, k)) else FixedText(n, -k)
  }

  function ScientificForm(n: nat, k: int): (s: string)
  {
    SignificandText(n, DecimalLength(n) > 1) + ExponentText(k + DecimalLength(n) - 1)
  }

  // --- which notation, and how long it is ---

  // Lines 1310-1344 and 1908-1942.
  predicate ChoosesFixed(fmt: CharsFormat, olength: int, k: int)
  {
    match fmt
    case Unspecified => if olength == 1 then -3 <= k <= 4 else -(olength + 3) <= k <= 5
    case General => -4 <= k + olength - 1 < 6
    case Fixed => true
    case Scientific => false
  }

  // Lines 1364-1382 without the adjustment of line 1375.
  function FixedLength(olength: int, k: int): (len: int)
  {
    if k >= 0 then olength + k else if olength + k > 0 then olength + 1 else 2 - k
  }

  // Lines 1485-1486 and 2124-2125.
  function ScientificLength(olength: int, k: int): (len: int)
  {
    olength + (if olength > 1 then 1 else 0) + if -100 < k + olength - 1 < 100 then 4 else 5
  }

  lemma FixedLengthIs(n: nat, k: int)
    requires n > 0
    ensures |FixedForm(n, k)| == FixedLength(DecimalLength(n), k)
  {
    var olength := DecimalLength(n);
    if k >= 0 {
      LengthAppend(n, 0, k, Pow(10, k));
    } else if olength + k > 0 {
      LengthOfCut(n, -k);
    } else {
      CutAway(n, -k);
      ShortLength(0);
    }
  }

  lemma CutAway(n: nat, d: nat)
    requires DecimalLength(n) <= d
    ensures Cut(n, d) == 0
  {
    LengthBounds(n);
    PowExponentMonotone(10, DecimalLength(n), d);
    hide Pow, DecimalLength;
    DivUnique(n, Pow(10, d), 0, n);
  }

  lemma ScientificLengthIs(n: nat, k: int)
    ensures |ScientificForm(n, k)| == ScientificLength(DecimalLength(n), k)
  {
    hide FixedDigits, DecimalLength;
    ShortExponent(k + DecimalLength(n) - 1);
  }

  lemma ShortExponent(x: int)
    ensures |ExponentText(x)| == if -100 < x < 100 then 4 else 5
  {
  }

  // Without a format the shorter notation is chosen, fixed when they are equally long.
  lemma ShorterIsChosen(n: nat, k: int)
    requires n > 0 && DecimalLength(n) <= 17
    ensures ChoosesFixed(Unspecified, DecimalLength(n), k) <==> |FixedForm(n, k)| <= |ScientificForm(n, k)|
  {
    hide FixedForm, ScientificForm, DecimalLength;
    FixedLengthIs(n, k);
    ScientificLengthIs(n, k);
  }

  lemma OutputBounds(n: nat, k: nat, len: nat)
    requires n > 0 && len == DecimalLength(n)
    ensures Pow(10, len - 1 + k) <= n * Pow(10, k) < Pow(10, len + k)
  {
    LengthBounds(n);
    PowAdd(10, len - 1, k);
    PowAdd(10, len, k);
    hide Pow, DecimalLength;
    MulMonotone(Pow(10, len - 1), n, Pow(10, k), Pow(10, k));
    DistributeSub(Pow(10, len), n, Pow(10, k));
    MulAtLeast(Pow(10, len) - n, Pow(10, k));
  }

  // The general format is fixed exactly for values from 10^-4 up to 10^6, whatever the
  // scale 10^m at which they are compared.
  lemma GeneralIsFixedInRange(n: nat, k: int, m: nat)
    requires n > 0 && m >= 4 && k + m >= 0
    ensures ChoosesFixed(General, DecimalLength(n), k) <==> Pow(10, m - 4) <= n * Pow(10, k + m) < Pow(10, m + 6)
  {
    var len := DecimalLength(n);
    OutputBounds(n, k + m, len);
    var low, high := len - 1 + k + m, len + k + m;
    hide Pow, DecimalLength;
    if low < m - 4 {
      PowExponentMonotone(10, high, m - 4);
    } else {
      PowExponentMonotone(10, m - 4, low);
    }
    if low >= m + 6 {
      PowExponentMonotone(10, m + 6, low);
    } else {
      PowExponentMonotone(10, high, m + 6);
    }
  }

  // --- reading the text back ---

  // The exponent behind an 'e' and a sign.
  function ReadExponent(s: string): (x: int)
    requires |s| >= 2
  {
    if s[1] == '-' then 0 - DigitsValue(s[2..]) else DigitsValue(s[2..])
  }

  lemma ExponentReadsBack(x: int)
    requires Magnitude(x) < 1000
    ensures |ExponentText(x)| >= 2 && ReadExponent(ExponentText(x)) == x
  {
    hide FixedDigits, DigitsValue;
    var e := Magnitude(x);
    var len := if e >= 100 then 3 else 2;
    assert ExponentText(x)[2..] == FixedDigits(e, len);
    FixedDigitsValue(e, len);
    AllDigits(e, len);
  }

  lemma AllDigits(e: nat, len: nat)
    requires e < 1000 && len == if e >= 100 then 3 else 2
    ensures e % Pow(10, len) == e
  {
    assert Pow(10, 2) == 100 && Pow(10, 3) == 1000;
  }

  lemma SignificandReadsBack(n: nat, point: bool)
    ensures DigitsValue(SignificandText(n, point)) == n
    ensures AfterPoint(SignificandText(n, point)) == if point then DecimalLength(n) - 1 else 0
  {
    var s := Decimal(n);
    DecimalValue(n);
    DigitsAreDigits(n, DecimalLength(n));
    if point {
      var a, b := s[..1], s[1..];
      assert s == a + b;
      hide DigitsValue, Decimal, DecimalLength, AfterPoint;
      ValueConcat(a, b);
      SkipDot(a);
      ValueConcat(a + ".", b);
      AfterDigits(a, "." + b);
      BehindPoint(b);
      assert a + "." + b == a + ("." + b);
    } else {
      AfterDigits(s, "");
      assert s + "" == s;
    }
  }

  lemma BehindPoint(b: string)
    ensures AfterPoint("." + b) == |b|
  {
  }

  // Both notations read back as n * 10^k, for every n and k.
  lemma FixedReadsBack(n: nat, k: int)
    ensures k >= 0 ==> DigitsValue(FixedForm(n, k)) == n * Pow(10, k) && AfterPoint(FixedForm(n, k)) == 0
    ensures k < 0 ==> DigitsValue(FixedForm(n, k)) == n && AfterPoint(FixedForm(n, k)) == -k
  {
    if k >= 0 {
      var v := n * Pow(10, k);
      SignificandReadsBack(v, false);
    } else {
      FixedTextValue(n, -k);
      FixedTextPlaces(n, -k);
    }
  }

  lemma ScientificReadsBack(n: nat, k: int)
    requires Magnitude(k + DecimalLength(n) - 1) < 1000
    ensures var s, e := SignificandText(n, DecimalLength(n) > 1), ExponentText(k + DecimalLength(n) - 1);
            && ScientificForm(n, k) == s + e && |e| >= 2
            && DigitsValue(s) == n && ReadExponent(e) - AfterPoint(s) == k
  {
    hide SignificandText, ExponentText, ReadExponent;
    SignificandReadsBack(n, DecimalLength(n) > 1);
    ExponentReadsBack(k + DecimalLength(n) - 1);
  }

  // The decimal n * 10^k, and the one a text stands for.
  datatype Dec = Dec(n: nat, k: int)

  function ExponentAt(s: string): (at: nat)
    ensures at <= |s|
  {
    if s == "" || s[0] == 'e' then 0 else 1 + ExponentAt(s[1..])
  }

  function Read(s: string): (d: Dec)
  {
    var at := ExponentAt(s);
    Dec(DigitsValue(s[..at]), (if |s| - at >= 2 then ReadExponent(s[at..]) else 0) - AfterPoint(s[..at]))
  }

  lemma {:induction false} ExponentBehind(a: string, b: string)
    requires 'e' !in a && (b == "" || b[0] == 'e')
    ensures ExponentAt(a + b) == |a|
  {
    if a == "" {
      assert a + b == b;
    } else {
      assert (a + b)[1..] == a[1..] + b;
      ExponentBehind(a[1..], b);
    }
  }

  lemma ReadParts(a: string, b: string)
    requires 'e' !in a && (b == "" || (b[0] == 'e' && |b| >= 2))
    ensures Read(a + b) == Dec(DigitsValue(a), (if b == "" then 0 else ReadExponent(b)) - AfterPoint(a))
  {
    ExponentBehind(a, b);
    hide ExponentAt, DigitsValue, AfterPoint, ReadExponent;
    assert (a + b)[..|a|] == a && (a + b)[|a|..] == b;
  }

  lemma OnlyDigitsInDecimal(n: nat, len: nat)
    ensures 'e' !in FixedDigits(n, len)
  {
    DigitsAreDigits(n, len);
  }

  lemma NoExponent(n: nat, k: int, point: bool)
    ensures 'e' !in FixedForm(n, k) && 'e' !in SignificandText(n, point)
  {
    OnlyDigitsInDecimal(n, DecimalLength(n));
    if k >= 0 {
      OnlyDigitsInDecimal(n * Pow(10, k), DecimalLength(n * Pow(10, k)));
    } else {
      OnlyDigitsInDecimal(Cut(n, -k), DecimalLength(Cut(n, -k)));
      OnlyDigitsInDecimal(n, -k);
    }
    hide FixedDigits, DecimalLength, Pow;
  }

  // Every fixed text stands for n * 10^k, an integer without an exponent of its own.
  lemma ReadFixed(n: nat, k: int)
    ensures Read(FixedForm(n, k)) == if k >= 0 then Dec(n * Pow(10, k), 0) else Dec(n, k)
  {
    hide FixedForm, SignificandText, Read, DigitsValue, AfterPoint, Pow;
    NoExponent(n, k, false);
    FixedReadsBack(n, k);
    ReadParts(FixedForm(n, k), "");
    assert FixedForm(n, k) + "" == FixedForm(n, k);
  }

  // And so does every scientific one.
  lemma ReadScientific(n: nat, k: int)
    requires Magnitude(k + DecimalLength(n) - 1) < 1000
    ensures Read(ScientificForm(n, k)) == Dec(n, k)
  {
    var x := k + DecimalLength(n) - 1;
    assert ExponentText(x)[0] == 'e';
    hide FixedForm, SignificandText, ExponentText, Read, DigitsValue, AfterPoint, ReadExponent, DecimalLength;
    NoExponent(n, k, DecimalLength(n) > 1);
    ScientificReadsBack(n, k);
    ReadParts(SignificandText(n, DecimalLength(n) > 1), ExponentText(x));
  }

  // --- digits of up to 17 places ---

  // Lines 2061-2079: the low eight digits of a number beyond 32 bits.
  method PrintLowEight(buf: array<char>, end: nat, n: U64, ghost orig: string) returns (rest: U64)
    requires 8 <= end <= |orig| && buf.Length == |orig| && buf[..] == orig
    modifies buf
    ensures rest == n / 100000000 && Printed(buf[..], orig, end, n, 8, rest)
  {
    StartPrinting(orig, end, n);
    hide Printed;
    rest := Div1e8(n);
    var low := n - 100000000 * rest;
    var c, d := low % 10000, low / 10000 % 10000;
    ghost var h, h2 := n / 100, n / 100 / 100;
    LowEight(n, low, c, d, h, h2);
    PrependPair(buf, end - 2, c, orig, end, n, 0, n);
    PrependPair(buf, end - 4, c / 100, orig, end, n, 2, h);
    PrependPair(buf, end - 6, d, orig, end, n, 4, h2);
    PrependPair(buf, end - 8, d / 100, orig, end, n, 6, h2 / 100);
  }

  lemma LowEight(n: nat, low: nat, c: nat, d: nat, h: nat, h2: nat)
    requires low == n % 100000000 && c == low % 10000 && d == low / 10000 % 10000 && h == n / 100 && h2 == h / 100
    ensures (c - n) % 100 == 0 && (c / 100 - h) % 100 == 0
    ensures (d - h2) % 100 == 0 && (d / 100 - h2 / 100) % 100 == 0
    ensures h2 / 100 / 100 == n / 100000000
  {
    ModProduct(n, 10000, 10000);
    DivUnique(low, 10000, n / 10000 % 10000, n % 10000);
    FourDigits(n);
    FourDigits(n / 10000);
  }

  // Lines 1442-1464 and 2057-2103.
  method AppendDigits(olength: nat, n: U64, buf: array<char>, at: nat)
    requires olength == DecimalLength(n) && at + olength <= buf.Length
    modifies buf
    ensures buf[..] == Splice(old(buf[..]), at, Decimal(n))
  {
    ghost var orig := buf[..];
    hide Printed, DecimalLength, Splice, FixedDigits;
    StartPrinting(orig, at + olength, n);
    if n >= 0x1_0000_0000 {
      LongerThanEight(n);
      var rest := PrintLowEight(buf, at + olength, n, orig);
      PrependRest(olength, rest, 8, buf, at, orig, n);
    } else {
      PrependRest(olength, n, 0, buf, at, orig, n);
    }
  }

  lemma LongerThanEight(n: nat)
    requires n >= 0x1_0000_0000
    ensures DecimalLength(n) == DecimalLength(n / 100000000) + 8
  {
    LengthOfQuotient(n);
    LengthOfQuotient(n / 10000);
    hide DecimalLength;
    assert n / 10000 / 10000 == n / 100000000;
  }

  // Lines 1492-1529 and 2130-2192.
  method AppendSignificand(olength: nat, n: U64, buf: array<char>, at: nat)
    requires olength == DecimalLength(n) && at + olength + 1 <= buf.Length
    modifies buf
    ensures buf[..] == Splice(old(buf[..]), at, SignificandText(n, olength > 1))
  {
    ghost var orig := buf[..];
    StartPrinting(orig, at + olength + 1, n);
    hide Printed, DecimalLength, Splice, FixedDigits, Decimal, Dotted, DigitChar;
    var digit;
    if n >= 0x1_0000_0000 {
      LongerThanEight(n);
      var rest := PrintLowEight(buf, at + olength + 1, n, orig);
      digit := PrependRestDotted(olength, rest, 8, buf, at, orig, n);
    } else {
      digit := PrependRestDotted(olength, n, 0, buf, at, orig, n);
    }
    if olength > 1 {
      PutFirstDigit(buf, at, digit, olength, orig, n);
    } else {
      OnlyDigit(buf[..], orig, at + 2, n, digit);
      SpliceNothing(orig, at);
      SpliceBack(orig, at, "", DigitChar(digit));
      buf[at] := DigitChar(digit);
    }
  }

  lemma OnlyDigit(t: string, orig: string, end: nat, n: nat, digit: nat)
    requires Printed(t, orig, end, n, 0, digit) && digit < 10 && DecimalLength(n) == 1
    ensures t == orig && "" + [DigitChar(digit)] == Decimal(n)
  {
    assert n / Pow(10, 0) == n;
    LastDigits(n);
  }

  // --- fixed notation ---

  lemma ZeroFilled(n: nat, k: nat)
    requires n > 0
    ensures Decimal(n) + FixedDigits(0, k) == Decimal(n * Pow(10, k))
  {
    DecimalAppend(n, 0, k);
  }

  // The point goes between the whole digits and the others.
  lemma PointInside(n: nat, p: nat, w: nat)
    requires p > 0 && w > 0 && w + p == DecimalLength(n)
    ensures FixedText(n, p) == Decimal(n)[..w] + "." + Decimal(n)[w..]
  {
    hide FixedDigits, Pow, DecimalLength;
    FixedDigitsSplit(n, w, p);
    LengthOfCut(n, p);
    PointBetween(FixedDigits(Cut(n, p), w), FixedDigits(n, p));
  }

  lemma PointBetween(a: string, b: string)
    ensures a + ("." + b) == (a + b)[..|a|] + "." + (a + b)[|a|..]
  {
  }

  // Zeros go between the point and the digits.
  lemma PointInFront(n: nat, p: nat, zeros: nat)
    requires zeros + DecimalLength(n) == p
    ensures FixedText(n, p) == "0." + FixedDigits(0, zeros) + Decimal(n)
  {
    var len := DecimalLength(n);
    hide FixedDigits, Pow, DecimalLength;
    CutAway(n, p);
    CutAway(n, len);
    FixedDigitsSplit(n, zeros, len);
    DecimalZero();
    ZeroInFront(FixedDigits(0, zeros), Decimal(n));
  }

  lemma ZeroInFront(a: string, b: string)
    ensures "0" + ("." + (a + b)) == "0." + a + b
  {
  }

  // memmove of the whole digits one place to the left, and the point (lines 1473-1474).
  method MovePoint(buf: array<char>, first: nat, w: nat, ghost orig: string, ghost s: string)
    requires w <= |s| && first + 1 + |s| <= buf.Length == |orig| && buf[..] == Splice(orig, first + 1, s)
    modifies buf
    ensures buf[..] == Splice(orig, first, s[..w] + "." + s[w..])
  {
    hide Splice;
    Unmoved(orig, first, s);
    for j := 0 to w
      invariant buf[..] == Splice(orig, first, s[..j] + [if j == 0 then orig[first] else s[j - 1]] + s[j..])
    {
      Moved(orig, first, s, j, if j == 0 then orig[first] else s[j - 1]);
      buf[first + j] := buf[first + j + 1];
    }
    PointPut(orig, first, s, w, if w == 0 then orig[first] else s[w - 1]);
    buf[first + w] := '.';
  }

  lemma Unmoved(orig: string, first: nat, s: string)
    requires first + 1 + |s| <= |orig|
    ensures Splice(orig, first + 1, s) == Splice(orig, first, s[..0] + [orig[first]] + s[0..])
  {
    assert s[..0] + [orig[first]] + s[0..] == [orig[first]] + s;
  }

  lemma Moved(orig: string, first: nat, s: string, j: nat, c: char)
    requires j < |s| && first + 1 + |s| <= |orig|
    ensures Splice(orig, first, s[..j] + [c] + s[j..])[first + j + 1] == s[j]
    ensures Splice(orig, first, s[..j] + [c] + s[j..])[first + j := s[j]] ==
              Splice(orig, first, s[..j + 1] + [s[j]] + s[j + 1..])
  {
    var t := s[..j] + [c] + s[j..];
    SpliceAt(orig, first, t, j + 1, c);
    assert t[j := s[j]] == s[..j + 1] + [s[j]] + s[j + 1..];
    SpliceAt(orig, first, t, j, s[j]);
  }

  lemma PointPut(orig: string, first: nat, s: string, w: nat, c: char)
    requires w <= |s| && first + 1 + |s| <= |orig|
    ensures Splice(orig, first, s[..w] + [c] + s[w..])[first + w := '.'] == Splice(orig, first, s[..w] + "." + s[w..])
  {
    var t := s[..w] + [c] + s[w..];
    assert t[w := '.'] == s[..w] + "." + s[w..];
    SpliceAt(orig, first, t, w, '.');
  }

  // "0." and zeros in front of digits already in place (lines 1477-1479).
  method PutLeadingZeros(buf: array<char>, first: nat, zeros: nat, ghost orig: string, ghost s: string)
    requires first + 2 + zeros + |s| <= buf.Length == |orig| && buf[..] == Splice(orig, first + 2 + zeros, s)
    modifies buf
    ensures buf[..] == Splice(orig, first, "0." + FixedDigits(0, zeros) + s)
  {
    buf[first] := '0';
    buf[first + 1] := '.';
    hide FixedDigits;
    FillZeros(buf, first + 2, zeros);
    InFront(orig, first, zeros, FixedDigits(0, zeros), s);
  }

  lemma InFront(orig: string, first: nat, zeros: nat, z: string, s: string)
    requires |z| == zeros && first + 2 + zeros + |s| <= |orig|
    ensures Splice(Splice(orig, first + 2 + zeros, s)[first := '0'][first + 1 := '.'], first + 2, z) ==
              Splice(orig, first, "0." + z + s)
  {
  }

  // Lines 1434-1480 and 2049-2119, when the digits of n are the ones to print.
  method PutFixed(buf: array<char>, first: nat, olength: nat, n: U64, k: int, ghost orig: string)
    requires n > 0 && olength == DecimalLength(n) && first + FixedLength(olength, k) <= buf.Length && buf[..] == orig
    modifies buf
    ensures first + |FixedForm(n, k)| <= |orig| && buf[..] == Splice(orig, first, FixedForm(n, k))
  {
    hide Splice, DecimalLength, FixedDigits, Decimal, FixedForm;
    FixedLengthIs(n, k);
    FixedFormParts(n, k, olength);
    var total := FixedLength(olength, k);
    var mid: nat := if k > 0 then first + olength else first + total;
    AppendDigits(olength, n, buf, mid - olength);
    var whole := olength + k;
    if k > 0 {
      FillZeros(buf, first + olength, k);
      SpliceTwo(orig, first, Decimal(n), FixedDigits(0, k));
    } else if k < 0 {
      if whole > 0 {
        MovePoint(buf, first, whole, orig, Decimal(n));
      } else {
        PutLeadingZeros(buf, first, -whole, orig, Decimal(n));
      }
    }
  }

  // The four layouts.
  lemma FixedFormParts(n: nat, k: int, olength: nat)
    requires n > 0 && olength == DecimalLength(n)
    ensures k > 0 ==> FixedForm(n, k) == Decimal(n) + FixedDigits(0, k)
    ensures k == 0 ==> FixedForm(n, k) == Decimal(n)
    ensures k < 0 < olength + k ==> FixedForm(n, k) == Decimal(n)[..olength + k] + "." + Decimal(n)[olength + k..]
    ensures k < 0 && olength + k <= 0 ==> FixedForm(n, k) == "0." + FixedDigits(0, -(olength + k)) + Decimal(n)
  {
    hide Decimal, FixedDigits, FixedText, DecimalLength, Pow;
    if k > 0 {
      ZeroFilled(n, k);
    } else if k == 0 {
      TimesOne(n);
    } else if olength + k > 0 {
      PointInside(n, -k, olength + k);
    } else {
      PointInFront(n, -k, -(olength + k));
    }
  }

  lemma TimesOne(n: nat)
    ensures n * Pow(10, 0) == n
  {
  }

  // --- scientific notation ---

  // Lines 1485-1543 and 2124-2213, once there is room.
  method PutScientific(buf: array<char>, first: nat, olength: nat, n: U64, k: int, ghost orig: string)
    requires olength == DecimalLength(n) && Magnitude(k + olength - 1) < 1000
    requires first + ScientificLength(olength, k) <= buf.Length && buf[..] == orig
    modifies buf
    ensures first + |ScientificForm(n, k)| <= |orig| && buf[..] == Splice(orig, first, ScientificForm(n, k))
  {
    hide Splice, DecimalLength, ExponentText, SignificandText;
    ScientificLengthIs(n, k);
    ghost var s := SignificandText(n, olength > 1);
    AppendSignificand(olength, n, buf, first);
    var index := if olength > 1 then olength + 1 else 1;
    SignificandLength(n, olength > 1);
    var ok, end := PutExponent(buf, first + index, first + ScientificLength(olength, k), k + olength - 1, buf[..]);
    SpliceTwo(orig, first, s, ExponentText(k + olength - 1));
  }
}
