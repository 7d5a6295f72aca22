// Decimal digits: what a digit string means, and the printers that write digits
// backwards into a character buffer.
module Digits {
  import opened Arith

  function DigitChar(d: nat): (c: char)
    requires d < 10
  {
    '0' + d as char
  }

  // The last len digits of n, padded with zeros.
  function FixedDigits(n: nat, len: nat): (s: string)
    ensures |s| == len
  {
    if len == 0 then "" else FixedDigits(n / 10, len - 1) + [DigitChar(n % 10)]
  }

  // n without its last d digits.
  function Cut(n: nat, d: nat): (q: nat) { n / Pow(10, d) }

  // How many digits n has; zero has one.
  function DecimalLength(n: nat): (len: nat)
    ensures len > 0
  {
    if n < 10 then 1 else DecimalLength(n / 10) + 1
  }

  function Decimal(n: nat): (s: string)
    ensures |s| == DecimalLength(n)
  {
    FixedDigits(n, DecimalLength(n))
  }

  predicate IsDigit(c: char) { '0' <= c <= '9' }

  // Reading digits back, skipping a decimal point.
  function DigitsValue(s: string): (n: nat)
  {
    if s == "" then 0
    else
      var last, rest := s[|s| - 1], DigitsValue(s[..|s| - 1]);
      if IsDigit(last) then 10 * rest + (last as int - '0' as int) else rest
  }

  // __DIGIT_TABLE, the two-digit forms of 0 to 99 one after the other, by the rows of
  // twenty characters in which the source writes it.
  function TableRow(r: nat): (s: string)
    requires r < 10
    ensures |s| == 20
  {
    match r
    case 0 => "00010203040506070809"
    case 1 => "10111213141516171819"
    case 2 => "20212223242526272829"
    case 3 => "30313233343536373839"
    case 4 => "40414243444546474849"
    case 5 => "50515253545556575859"
    case 6 => "60616263646566676869"
    case 7 => "70717273747576777879"
    case 8 => "80818283848586878889"
    case _ => "90919293949596979899"
  }

  function DigitTable(i: nat): (c: char)
    requires i < 200
  {
    TableRow(i / 20)[i % 20]
  }

  function PairRow(d: char): (s: string)
    ensures |s| == 20
  {
    [d, '0', d, '1', d, '2', d, '3', d, '4', d, '5', d, '6', d, '7', d, '8', d, '9']
  }

  lemma RowsArePairs(r: nat)
    requires r < 10
    ensures TableRow(r) == PairRow(DigitChar(r))
  {
  }

  lemma PairRowAt(d: char, k: nat)
    requires k < 10
    ensures PairRow(d)[2 * k] == d && PairRow(d)[2 * k + 1] == DigitChar(k)
  {
  }

  lemma LastTwo(n: nat)
    ensures n % 100 / 10 == n / 10 % 10 && n % 100 % 10 == n % 10
  {
    ModProduct(n, 10, 10);
    DivUnique(n % 100, 10, n / 10 % 10, n % 10);
  }

  lemma TableAt(k: nat)
    requires k < 100
    ensures DigitTable(2 * k) == DigitChar(k / 10) && DigitTable(2 * k + 1) == DigitChar(k % 10)
  {
    hide TableRow, PairRow, DigitChar;
    RowsArePairs(k / 10);
    PairRowAt(DigitChar(k / 10), k % 10);
    TableIndex(k);
  }

  lemma TableIndex(k: nat)
    ensures 2 * k / 20 == k / 10 && 2 * k % 20 == 2 * (k % 10)
    ensures (2 * k + 1) / 20 == k / 10 && (2 * k + 1) % 20 == 2 * (k % 10) + 1
  {
    DivMod(k, 10);
    DivUnique(2 * k, 20, k / 10, 2 * (k % 10));
    DivUnique(2 * k + 1, 20, k / 10, 2 * (k % 10) + 1);
  }

  lemma TablePair(n: nat)
    ensures n % 100 < 100
    ensures DigitTable(2 * (n % 100)) == DigitChar(n / 10 % 10) && DigitTable(2 * (n % 100) + 1) == DigitChar(n % 10)
  {
    hide DigitTable, DigitChar;
    LastTwo(n);
    TableAt(n % 100);
  }

  lemma {:induction false} FixedDigitsSplit(n: nat, a: nat, b: nat)
    ensures FixedDigits(n, a + b) == FixedDigits(n / Pow(10, b), a) + FixedDigits(n, b)
  {
    if b == 0 {
      assert n / Pow(10, 0) == n;
    } else {
      FixedDigitsSplit(n / 10, a, b - 1);
      DivDiv(n, 10, Pow(10, b - 1));
    }
  }

  lemma {:induction false} FixedDigitsMod(n: nat, b: nat)
    ensures FixedDigits(n, b) == FixedDigits(n % Pow(10, b), b)
  {
    if b > 0 {
      var p := Pow(10, b - 1);
      FixedDigitsMod(n / 10, b - 1);
      ModProduct(n, 10, p);
      assert n % Pow(10, b) == n / 10 % p * 10 + n % 10;
      hide Pow, FixedDigits;
      assert n % Pow(10, b) / 10 == n / 10 % p;
      FixedDigitsStep(n, b);
      FixedDigitsStep(n % Pow(10, b), b);
    }
  }

  lemma FixedDigitsStep(n: nat, b: nat)
    requires b > 0
    ensures FixedDigits(n, b) == FixedDigits(n / 10, b - 1) + [DigitChar(n % 10)]
  {
  }

  lemma {:induction false} FixedDigitsValue(n: nat, len: nat)
    ensures DigitsValue(FixedDigits(n, len)) == n % Pow(10, len)
  {
    if len > 0 {
      FixedDigitsValue(n / 10, len - 1);
      ModProduct(n, 10, Pow(10, len - 1));
    }
  }

  lemma {:induction false} LengthBounds(n: nat)
    ensures n < Pow(10, DecimalLength(n))
    ensures n > 0 ==> Pow(10, DecimalLength(n) - 1) <= n
  {
    if n >= 10 {
      LengthBounds(n / 10);
      PowStep(10, DecimalLength(n));
      PowStep(10, DecimalLength(n) - 1);
    } else {
      assert Pow(10, 1) == 10;
    }
  }

  // A decimal string reads back as the number it was made from.
  lemma DecimalValue(n: nat)
    ensures DigitsValue(Decimal(n)) == n
  {
    LengthBounds(n);
    FixedDigitsValue(n, DecimalLength(n));
    DivUnique(n, Pow(10, DecimalLength(n)), 0, n);
  }

  // The text s written over t from position pos on.
  function Splice(t: string, pos: nat, s: string): (r: string)
    requires pos + |s| <= |t|
    ensures |r| == |t|
  {
    t[..pos] + s + t[pos + |s|..]
  }

  lemma SpliceNothing(t: string, pos: nat)
    requires pos <= |t|
    ensures Splice(t, pos, "") == t
  {
  }

  lemma SpliceFront(t: string, pos: nat, s: string, x: char, y: char)
    requires 2 <= pos && pos + |s| <= |t|
    ensures Splice(t, pos, s)[pos - 2 := x][pos - 1 := y] == Splice(t, pos - 2, [x, y] + s)
  {
  }

  lemma SpliceFrontOne(t: string, pos: nat, s: string, x: char)
    requires 1 <= pos && pos + |s| <= |t|
    ensures Splice(t, pos, s)[pos - 1 := x] == Splice(t, pos - 1, [x] + s)
  {
  }

  lemma LastDigits(q: nat)
    ensures FixedDigits(q, 1) == [DigitChar(q % 10)]
    ensures FixedDigits(q, 2) == [DigitChar(q / 10 % 10), DigitChar(q % 10)]
  {
    assert FixedDigits(q / 10 / 10, 0) == "";
    assert FixedDigits(q / 10, 0) == "";
  }

  lemma TwoMoreDigits(n: nat, i: nat)
    ensures FixedDigits(n, i + 2) ==
              [DigitChar(n / Pow(10, i) / 10 % 10), DigitChar(n / Pow(10, i) % 10)] + FixedDigits(n, i)
  {
    hide FixedDigits, DigitChar, Pow;
    FixedDigitsSplit(n, 2, i);
    LastDigits(n / Pow(10, i));
  }

  lemma OneMoreDigit(n: nat, i: nat)
    ensures FixedDigits(n, i + 1) == [DigitChar(n / Pow(10, i) % 10)] + FixedDigits(n, i)
  {
    hide FixedDigits, DigitChar, Pow;
    FixedDigitsSplit(n, 1, i);
    LastDigits(n / Pow(10, i));
  }

  lemma QuotientStep(n: nat, i: nat, j: nat)
    ensures n / Pow(10, i) / Pow(10, j) == n / Pow(10, i + j)
  {
    DivDiv(n, Pow(10, i), Pow(10, j));
    PowAdd(10, i, j);
  }

  // memcpy of one table entry; the value is the last two digits of q.
  method WritePair(buf: array<char>, pos: nat, q: nat)
    requires pos + 2 <= buf.Length
    modifies buf
    ensures buf[..] == old(buf[..])[pos := DigitChar(q / 10 % 10)][pos + 1 := DigitChar(q % 10)]
  {
    hide DigitChar, DigitTable;
    TablePair(q);
    var c := 2 * (q % 100);
    buf[pos] := DigitTable(c);
    buf[pos + 1] := DigitTable(c + 1);
  }

  // The last i digits of n stand before position end of an otherwise untouched
  // buffer, and digits is what is still to be printed in front of them.
  ghost predicate Printed(t: string, orig: string, end: nat, n: nat, i: nat, digits: nat)
  {
    i <= end <= |orig| && t == Splice(orig, end - i, FixedDigits(n, i)) && digits == n / Pow(10, i)
  }

  lemma StartPrinting(orig: string, end: nat, n: nat)
    requires end <= |orig|
    ensures Printed(orig, orig, end, n, 0, n)
  {
    assert n == n / Pow(10, 0);
  }

  method PrependPair(buf: array<char>, pos: nat, q: nat, ghost orig: string, ghost end: nat, ghost n: nat,
                     ghost i: nat, ghost digits: nat)
    requires Printed(buf[..], orig, end, n, i, digits) && pos + i + 2 == end && (q - digits) % 100 == 0
    modifies buf
    ensures Printed(buf[..], orig, end, n, i + 2, digits / 100)
  {
    SameLastTwo(q, digits);
    TwoMoreDigits(n, i);
    QuotientStep(n, i, 2);
    assert Pow(10, 2) == 100;
    hide DigitChar, FixedDigits, Pow;
    SpliceFront(orig, end - i, FixedDigits(n, i), DigitChar(q / 10 % 10), DigitChar(q % 10));
    WritePair(buf, pos, q);
  }

  method PrependOne(buf: array<char>, pos: nat, digit: nat, ghost orig: string, ghost end: nat, ghost n: nat,
                    ghost i: nat, ghost digits: nat)
    requires Printed(buf[..], orig, end, n, i, digits) && pos + i + 1 == end && digit == digits % 10
    modifies buf
    ensures Printed(buf[..], orig, end, n, i + 1, digits / 10)
  {
    OneMoreDigit(n, i);
    QuotientStep(n, i, 1);
    assert Pow(10, 1) == 10;
    hide DigitChar, FixedDigits, Pow;
    SpliceFrontOne(orig, end - i, FixedDigits(n, i), DigitChar(digit));
    buf[pos] := DigitChar(digit);
  }

  // Four digits, two table entries at a time.
  method PrependFour(buf: array<char>, pos: nat, digits: nat, ghost orig: string, ghost end: nat, ghost n: nat,
                     ghost i: nat)
    requires Printed(buf[..], orig, end, n, i, digits) && pos + i + 4 == end
    modifies buf
    ensures Printed(buf[..], orig, end, n, i + 4, digits / 10000)
  {
    hide Printed;
    var c := digits % 10000;
    FourDigits(digits);
    PrependPair(buf, pos + 2, c, orig, end, n, i, digits);
    PrependPair(buf, pos, c / 100, orig, end, n, i + 2, digits / 100);
  }

  lemma SameLastTwo(q: nat, m: nat)
    requires (q - m) % 100 == 0
    ensures q / 10 % 10 == m / 10 % 10 && q % 10 == m % 10
  {
    var k := (q - m) / 100;
    assert q == m + (10 * k) * 10;
    ModAddMultiple(m, 10 * k, 10);
    assert q / 10 == m / 10 + k * 10;
    ModAddMultiple(m / 10, k, 10);
  }

  lemma {:induction false} LengthOfQuotient(n: nat)
    ensures n >= 10 ==> DecimalLength(n) == DecimalLength(n / 10) + 1
    ensures n >= 100 ==> DecimalLength(n) == DecimalLength(n / 100) + 2
    ensures n >= 10000 ==> DecimalLength(n) == DecimalLength(n / 10000) + 4
  {
    assert n / 10 / 10 == n / 100 && n / 100 / 10 == n / 1000 && n / 1000 / 10 == n / 10000;
  }

  lemma FourDigits(d: nat)
    ensures (d % 10000 - d) % 100 == 0 && (d % 10000 / 100 - d / 100) % 100 == 0
    ensures d / 100 / 100 == d / 10000
  {
    var k := d / 10000;
    assert d == d % 10000 + (100 * k) * 100;
    ModAddMultiple(d % 10000, 100 * k, 100);
  }

  // The digits in front of the i already printed, four at a time.
  method PrependRest(olength: nat, rest: nat, printed: nat, buf: array<char>, at: nat, ghost orig: string, ghost n: nat)
    requires at + olength <= buf.Length && printed + DecimalLength(rest) == olength
    requires Printed(buf[..], orig, at + olength, n, printed, rest)
    modifies buf
    ensures buf[..] == Splice(orig, at, FixedDigits(n, olength))
  {
    hide Printed, DecimalLength, Splice, FixedDigits;
    ghost var end := at + olength;
    var digits: nat, i: nat := rest, printed;
    while digits >= 10000
      invariant Printed(buf[..], orig, end, n, i, digits) && i + DecimalLength(digits) == olength
      decreases digits
    {
      LengthOfQuotient(digits);
      PrependFour(buf, at + olength - i - 4, digits, orig, end, n, i);
      digits := digits / 10000;
      i := i + 4;
    }
    if digits >= 100 {
      LengthOfQuotient(digits);
      PrependPair(buf, at + olength - i - 2, digits, orig, end, n, i, digits);
      digits := digits / 100;
      i := i + 2;
    }
    ShortLength(digits);
    if digits >= 10 {
      PrependPair(buf, at + olength - i - 2, digits, orig, end, n, i, digits);
      FinishPrinting(buf[..], orig, end, n, i + 2, digits / 100);
    } else {
      PrependOne(buf, at, digits, orig, end, n, i, digits);
      FinishPrinting(buf[..], orig, end, n, i + 1, digits / 10);
    }
  }

  // __append_n_digits
  method AppendNDigits(olength: nat, n: nat, buf: array<char>, at: nat)
    requires olength == DecimalLength(n) && at + olength <= buf.Length
    modifies buf
    ensures buf[..] == Splice(old(buf[..]), at, Decimal(n))
  {
    StartPrinting(buf[..], at + olength, n);
    hide Printed, DecimalLength, Splice, FixedDigits;
    PrependRest(olength, n, 0, buf, at, buf[..], n);
  }

  lemma FinishPrinting(t: string, orig: string, end: nat, n: nat, i: nat, digits: nat)
    requires Printed(t, orig, end, n, i, digits)
    ensures i <= end <= |orig| && t == Splice(orig, end - i, FixedDigits(n, i))
  {
  }

  lemma ShortLength(d: nat)
    ensures d < 10 ==> DecimalLength(d) == 1
    ensures 10 <= d < 100 ==> DecimalLength(d) == 2
  {
  }

  lemma DecimalZero()
    ensures Decimal(0) == "0"
  {
    ShortLength(0);
    LastDigits(0);
  }

  // __append_c_digits: exactly count digits.
  method AppendCDigits(count: nat, n: nat, buf: array<char>, at: nat)
    requires count > 0 && at + count <= buf.Length
    modifies buf
    ensures buf[..] == Splice(old(buf[..]), at, FixedDigits(n, count))
  {
    hide Printed;
    ghost var orig, end := buf[..], at + count;
    var digits, i := n, 0;
    StartPrinting(orig, end, n);
    while i < count - 1
      invariant Printed(buf[..], orig, end, n, i, digits) && i <= count
      decreases count - i
    {
      PrependPair(buf, at + count - i - 2, digits, orig, end, n, i, digits);
      digits := digits / 100;
      i := i + 2;
    }
    if i < count {
      PrependOne(buf, at, digits % 10, orig, end, n, i, digits);
      digits := digits / 10;
      i := i + 1;
    }
    FinishPrinting(buf[..], orig, end, n, i, digits);
  }

  // memset with '0'
  method FillZeros(buf: array<char>, at: nat, count: nat)
    requires at + count <= buf.Length
    modifies buf
    ensures buf[..] == Splice(old(buf[..]), at, FixedDigits(0, count))
  {
    ghost var orig := buf[..];
    for k := 0 to count
      invariant buf[..] == Splice(orig, at, FixedDigits(0, k))
    {
      buf[at + k] := '0';
      SpliceBack(orig, at, FixedDigits(0, k), '0');
    }
  }

  lemma SpliceBack(t: string, pos: nat, s: string, x: char)
    requires pos + |s| < |t|
    ensures Splice(t, pos, s)[pos + |s| := x] == Splice(t, pos, s + [x])
  {
  }

  lemma SpliceAt(t: string, pos: nat, s: string, i: nat, c: char)
    requires pos + |s| <= |t| && i < |s|
    ensures Splice(t, pos, s)[pos + i] == s[i]
    ensures Splice(t, pos, s)[pos + i := c] == Splice(t, pos, s[i := c])
  {
  }

  // Two texts written one behind the other.
  lemma SpliceTwo(t: string, pos: nat, s: string, u: string)
    requires pos + |s| + |u| <= |t|
    ensures Splice(Splice(t, pos, s), pos + |s|, u) == Splice(t, pos, s + u)
  {
  }

  // __append_nine_digits
  method AppendNineDigits(n: nat, buf: array<char>, at: nat)
    requires n < 1000000000 && at + 9 <= buf.Length
    modifies buf
    ensures buf[..] == Splice(old(buf[..]), at, FixedDigits(n, 9))
  {
    hide Printed;
    if n == 0 {
      FillZeros(buf, at, 9);
      return;
    }
    ghost var orig, end := buf[..], at + 9;
    var digits, i := n, 0;
    StartPrinting(orig, end, n);
    while i < 5
      invariant Printed(buf[..], orig, end, n, i, digits) && (i == 0 || i == 4 || i == 8)
      invariant i == 0 ==> digits < 1000000000
      invariant i == 4 ==> digits < 100000
      invariant i == 8 ==> digits < 10
      decreases 8 - i
    {
      PrependFour(buf, at + 5 - i, digits, orig, end, n, i);
      digits := digits / 10000;
      i := i + 4;
    }
    PrependOne(buf, at, digits, orig, end, n, i, digits);
    FinishPrinting(buf[..], orig, end, n, i + 1, digits / 10);
  }

  lemma {:induction false} LengthIs(n: nat, len: nat)
    requires len > 0 && n < Pow(10, len) && (len > 1 ==> Pow(10, len - 1) <= n)
    ensures DecimalLength(n) == len
  {
    LengthBounds(n);
    var l := DecimalLength(n);
    hide DecimalLength;
    if l < len {
      PowExponentMonotone(10, l, len - 1);
    } else if len < l {
      PowExponentMonotone(10, len, l - 1);
    }
    if n == 0 {
      ShortLength(0);
      PowExponentMonotone(10, 0, len - 1);
    }
  }

  lemma LengthAppend(d: nat, r: nat, k: nat, p: nat)
    requires d > 0 && p == Pow(10, k) && r < p
    ensures DecimalLength(d * p + r) == DecimalLength(d) + k
  {
    var l := DecimalLength(d);
    LengthBounds(d);
    PowAdd(10, l, k);
    PowAdd(10, l - 1, k);
    hide Pow, DecimalLength;
    MulMonotone(Pow(10, l - 1), d, p, p);
    MulMonotone(d + 1, Pow(10, l), p, p);
    DistributeAdd(d, 1, p);
    LengthIs(d * p + r, l + k);
  }

  // Appending k more digits to a number appends them to its decimal form.
  lemma DecimalAppend(d: nat, r: nat, k: nat)
    requires d > 0 && r < Pow(10, k)
    ensures Decimal(d * Pow(10, k) + r) == Decimal(d) + FixedDigits(r, k)
  {
    hide Pow, FixedDigits, DecimalLength;
    var p := Pow(10, k);
    var n := d * p + r;
    LengthAppend(d, r, k, p);
    DivUnique(n, p, d, r);
    FixedDigitsSplit(n, DecimalLength(d), k);
    FixedDigitsMod(n, k);
  }

  lemma {:induction false} LengthOfCut(t: nat, drop: nat)
    requires drop < DecimalLength(t)
    ensures DecimalLength(Cut(t, drop)) == DecimalLength(t) - drop && (t > 0 ==> Cut(t, drop) > 0)
    decreases drop
  {
    if drop == 0 {
      assert Cut(t, 0) == t;
    } else {
      LengthOfCut(t / 10, drop - 1);
      DivDiv(t, 10, Pow(10, drop - 1));
    }
  }

  lemma NineDigits()
    ensures Pow(10, 9) == 1000000000
  {
    assert Pow(10, 4) == 10000;
    assert Pow(10, 5) == 100000;
    PowAdd(10, 4, 5);
  }

  // __decimalLength9
  function DecimalLength9(v: nat): (len: nat)
    requires v < 1000000000
    ensures len == DecimalLength(v)
  {
    LengthSteps(v);
    if v >= 100000000 then 9
    else if v >= 10000000 then 8
    else if v >= 1000000 then 7
    else if v >= 100000 then 6
    else if v >= 10000 then 5
    else if v >= 1000 then 4
    else if v >= 100 then 3
    else if v >= 10 then 2
    else 1
  }

  // __decimalLength17
  function DecimalLength17(v: nat): (len: nat)
    requires v < 100000000000000000
    ensures len == DecimalLength(v)
  {
    LongLengthSteps(v);
    if v >= 10000000000000000 then 17
    else if v >= 1000000000000000 then 16
    else if v >= 100000000000000 then 15
    else if v >= 10000000000000 then 14
    else if v >= 1000000000000 then 13
    else if v >= 100000000000 then 12
    else if v >= 10000000000 then 11
    else if v >= 1000000000 then 10
    else DecimalLength9(v)
  }

  lemma LongLengthSteps(v: nat)
    ensures 1000000000 <= v < 10000000000 ==> DecimalLength(v) == 10
    ensures 10000000000 <= v < 100000000000 ==> DecimalLength(v) == 11
    ensures 100000000000 <= v < 1000000000000 ==> DecimalLength(v) == 12
    ensures 1000000000000 <= v < 10000000000000 ==> DecimalLength(v) == 13
    ensures 10000000000000 <= v < 100000000000000 ==> DecimalLength(v) == 14
    ensures 100000000000000 <= v < 1000000000000000 ==> DecimalLength(v) == 15
    ensures 1000000000000000 <= v < 10000000000000000 ==> DecimalLength(v) == 16
    ensures 10000000000000000 <= v < 100000000000000000 ==> DecimalLength(v) == 17
  {
    LengthOfQuotient(v);
    LengthOfQuotient(v / 10000);
    LengthSteps(v / 10000 / 10000);
    hide DecimalLength;
  }

  lemma LengthSteps(v: nat)
    ensures v < 10 ==> DecimalLength(v) == 1
    ensures 10 <= v < 100 ==> DecimalLength(v) == 2
    ensures 100 <= v < 1000 ==> DecimalLength(v) == 3
    ensures 1000 <= v < 10000 ==> DecimalLength(v) == 4
    ensures 10000 <= v < 100000 ==> DecimalLength(v) == 5
    ensures 100000 <= v < 1000000 ==> DecimalLength(v) == 6
    ensures 1000000 <= v < 10000000 ==> DecimalLength(v) == 7
    ensures 10000000 <= v < 100000000 ==> DecimalLength(v) == 8
    ensures 100000000 <= v < 1000000000 ==> DecimalLength(v) == 9
    ensures 1000000000 <= v < 10000000000 ==> DecimalLength(v) == 10
  {
    LengthOfQuotient(v);
    LengthOfQuotient(v / 10000);
    ShortLength(v);
    ShortLength(v / 100);
    ShortLength(v / 10000);
    ShortLength(v / 10000 / 100);
    ShortLength(v / 10000 / 10000);
    hide DecimalLength;
  }
}
