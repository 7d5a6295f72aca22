// Scientific notation: a digit, the point, the other digits and the exponent.
module ScientificNotation {
  import opened Arith
  import opened Digits
  import opened Carry
  import opened Rounding
  import opened FixedNotation

  function Dotted(s: string): (r: string)
    requires s != ""
    ensures |r| == |s| + 1
  {
    s[..1] + "." + s[1..]
  }

  // The digits of n, with the point behind the first one if there is to be a point.
  function SignificandText(n: nat, point: bool): (s: string)
    ensures |s| == DecimalLength(n) + if point then 1 else 0
  {
    if point then Dotted(Decimal(n)) else Decimal(n)
  }

  function Magnitude(x: int): (n: nat) { if x < 0 then -x else x }

  // At least two digits of exponent.
  function ExponentText(x: int): (s: string)
  {
    "e" + (if x < 0 then "-" else "+") + FixedDigits(Magnitude(x), if Magnitude(x) >= 100 then 3 else 2)
  }

  lemma SignificandLength(n: nat, point: bool)
    ensures |SignificandText(n, point)| == DecimalLength(n) + if point then 1 else 0
  {
  }

  // --- writing the digits around the point ---

  lemma DottedDecimal(n: nat, len: nat)
    requires len + 1 == DecimalLength(n)
    ensures n / Pow(10, len) < 10
    ensures Dotted(Decimal(n)) == [DigitChar(n / Pow(10, len) % 10)] + "." + FixedDigits(n, len)
  {
    LengthBounds(n);
    PowStep(10, len + 1);
    Digits.OneMoreDigit(n, len);
    hide Pow, FixedDigits, DigitChar, DecimalLength;
    DivAtLeast(n, Pow(10, len), 10);
  }

  lemma SpliceDot(t: string, at: nat, w: string, c: char)
    requires at + 2 + |w| <= |t|
    ensures Splice(t, at + 2, w)[at + 1 := '.'][at := c] == Splice(t, at, [c] + "." + w)
  {
  }

  // The digits in front of the i already printed, down to the one before the point.
  method PrependRestDotted(olength: nat, rest: nat, printed: nat, buf: array<char>, at: nat, ghost orig: string,
                           ghost n: nat)
    returns (digit: nat)
    requires at + olength + 1 <= buf.Length && printed + DecimalLength(rest) == olength
    requires Printed(buf[..], orig, at + olength + 1, n, printed, rest)
    modifies buf
    ensures digit < 10 && Printed(buf[..], orig, at + olength + 1, n, olength - 1, digit)
  {
    hide Printed, DecimalLength;
    ghost var end := at + olength + 1;
    var digits: nat, i: nat := rest, printed;
    while digits >= 10000
      invariant Printed(buf[..], orig, end, n, i, digits) && i + DecimalLength(digits) == olength
      decreases digits
    {
      LengthOfQuotient(digits);
      PrependFour(buf, at + olength - i - 3, digits, orig, end, n, i);
      digits := digits / 10000;
      i := i + 4;
    }
    if digits >= 100 {
      LengthOfQuotient(digits);
      PrependPair(buf, at + olength - i - 1, digits, orig, end, n, i, digits);
      digits := digits / 100;
      i := i + 2;
    }
    ShortLength(digits);
    if digits >= 10 {
      PrependOne(buf, at + 2, digits % 10, orig, end, n, i, digits);
      digits := digits / 10;
    }
    digit := digits;
  }

  // __append_d_digits
  method AppendDDigits(olength: nat, n: nat, buf: array<char>, at: nat)
    requires olength == DecimalLength(n) && at + olength + 1 <= buf.Length
    modifies buf
    ensures buf[..] == Splice(old(buf[..]), at, Dotted(Decimal(n)))
  {
    hide Printed, DecimalLength, Splice, Decimal, FixedDigits, DigitChar;
    ghost var orig := buf[..];
    StartPrinting(orig, at + olength + 1, n);
    var digit := PrependRestDotted(olength, n, 0, buf, at, orig, n);
    PutFirstDigit(buf, at, digit, olength, orig, n);
  }

  // The first digit and the point in front of the others.
  method PutFirstDigit(buf: array<char>, at: nat, digit: nat, olength: nat, ghost orig: string, ghost n: nat)
    requires at + olength + 1 <= buf.Length && olength == DecimalLength(n) && digit < 10
    requires Printed(buf[..], orig, at + olength + 1, n, olength - 1, digit)
    modifies buf
    ensures at + olength + 1 <= |orig| && buf[..] == Splice(orig, at, Dotted(Decimal(n)))
  {
    hide Splice, DigitChar, Dotted, Decimal, Printed, DecimalLength;
    FirstDigitPlaced(buf[..], orig, at, digit, olength, n);
    buf[at + 1] := '.';
    buf[at] := DigitChar(digit);
  }

  lemma FirstDigitPlaced(t: string, orig: string, at: nat, digit: nat, olength: nat, n: nat)
    requires at + olength + 1 <= |t| && olength == DecimalLength(n) && digit < 10
    requires Printed(t, orig, at + olength + 1, n, olength - 1, digit)
    ensures at + olength + 1 <= |orig|
    ensures t[at + 1 := '.'][at := DigitChar(digit)] == Splice(orig, at, Dotted(Decimal(n)))
  {
    hide Splice, FixedDigits, DigitChar, Dotted, Decimal, Printed, DecimalLength, Pow;
    PrintedDigits(t, orig, at + olength + 1, n, olength - 1, digit);
    DottedDecimal(n, olength - 1);
    SpliceDot(orig, at, FixedDigits(n, olength - 1), DigitChar(digit));
  }

  lemma PrintedDigits(t: string, orig: string, end: nat, n: nat, i: nat, digits: nat)
    requires Printed(t, orig, end, n, i, digits)
    ensures i <= end <= |orig| && t == Splice(orig, end - i, FixedDigits(n, i)) && digits == n / Pow(10, i)
  {
  }

  // --- the rounding pass ---

  lemma BumpDotted(s: string)
    requires s != ""
    ensures Bump(Dotted(s)) == Dotted(Bump(s)) && (NinesOnly(Dotted(s)) <==> NinesOnly(s))
  {
    var a, w := s[..1], s[1..];
    assert s == a + w;
    BumpConcat(a, w);
    NinesConcat(a, w);
    DotInFront(w);
    BumpConcat(a, "." + w);
    NinesConcat(a, "." + w);
    hide Bump, NinesOnly;
    assert Dotted(s) == a + ("." + w);
    DottedParts(if NinesOnly(w) then Bump(a) else a, Bump(w));
  }

  lemma DottedParts(a: string, w: string)
    requires |a| == 1
    ensures Dotted(a + w) == a + ("." + w)
  {
    assert (a + w)[..1] == a && (a + w)[1..] == w;
  }

  // Digits after rounding up past the top: one digit fewer, one more in the exponent.
  function Normalized(n: nat, len: nat): (r: nat) { if DecimalLength(n) > len then n / 10 else n }

  function ExponentAfter(n: nat, len: nat, x: int): (r: int) { if DecimalLength(n) > len then x + 1 else x }

  lemma SignificandIsPlain(n: nat, point: bool)
    requires point ==> DecimalLength(n) > 1
    ensures var s := SignificandText(n, point); PlainNumber(s) && (LastOdd(s) <==> n % 2 != 0)
  {
    var len := DecimalLength(n);
    DigitsAreDigits(n, len);
    OddDigit(n);
    FixedDigitsStep(n, len);
    hide FixedDigits, DecimalLength, DigitChar;
  }

  lemma BumpSignificand(n: nat, point: bool)
    ensures !NinesOnly(SignificandText(n, point)) ==>
      DecimalLength(n + 1) == DecimalLength(n) && Bump(SignificandText(n, point)) == SignificandText(n + 1, point)
    ensures NinesOnly(SignificandText(n, point)) ==>
      && DecimalLength(n + 1) == DecimalLength(n) + 1
      && Bump(SignificandText(n, point))[0 := '1'] == SignificandText((n + 1) / 10, point)
  {
    var len := DecimalLength(n);
    BumpDecimal(n);
    BumpDotted(Decimal(n));
    hide Bump, NinesOnly, FixedDigits, DecimalLength, Pow;
    if NinesOnly(Decimal(n)) {
      TenthOfNext(n, len);
      ZerosWithOne(len, point);
    }
  }

  lemma TenthOfNext(n: nat, len: nat)
    requires len == DecimalLength(n) && NinesOnly(Decimal(n))
    ensures Decimal((n + 1) / 10) == "1" + FixedDigits(0, len - 1)
  {
    LengthOfNext(n);
    BumpDigits(n, len);
    PowStep(10, len);
    hide NinesOnly, FixedDigits, DecimalLength, Bump;
    DecimalAppend(1, 0, len - 1);
    One();
  }

  lemma ZerosWithOne(len: nat, point: bool)
    requires len > 0
    ensures FixedDigits(0, len)[0 := '1'] == "1" + FixedDigits(0, len - 1)
    ensures Dotted(FixedDigits(0, len))[0 := '1'] == Dotted("1" + FixedDigits(0, len - 1))
  {
    ZeroDigits(len);
    ZeroDigits(len - 1);
  }

  // Rounding keeps the number of digits, once the exponent has taken the carry.
  lemma NormalizedLength(n: nat, len: nat, r: nat)
    requires DecimalLength(n) == len && (r == n || r == n + 1)
    ensures DecimalLength(Normalized(r, len)) == len
  {
    BumpSignificand(n, false);
    SignificandLength(n, false);
    SignificandLength((n + 1) / 10, false);
  }

  // A carry out of the top digit leaves a power of ten.
  lemma CarryIsPower(n: nat, len: nat, r: nat)
    requires DecimalLength(n) == len && (r == n || r == n + 1)
    ensures var s := Normalized(r, len);
            && DecimalLength(s) == len && (n > 0 ==> Pow(10, len - 1) <= s < Pow(10, len))
            && s * Pow(10, if DecimalLength(r) > len then 1 else 0) == r
  {
    NormalizedLength(n, len, r);
    LengthBounds(n);
    LengthBounds(r);
    LengthBounds(Normalized(r, len));
    PowStep(10, len);
    assert Pow(10, 0) == 1 && Pow(10, 1) == 10;
    hide Pow, DecimalLength;
    if DecimalLength(r) > len {
      PowExponentMonotone(10, len, DecimalLength(r) - 1);
    }
  }

  // Lines 876-898.
  method RoundScientific(buf: array<char>, first: nat, end: nat, mode: nat, x: int, ghost orig: string, ghost n: nat,
                         ghost point: bool)
    returns (x': int)
    requires first + |SignificandText(n, point)| == end <= buf.Length == |orig|
    requires buf[..] == Splice(orig, first, SignificandText(n, point)) && mode <= 2 && (point ==> DecimalLength(n) > 1)
    modifies buf
    ensures var r := Rounded(n, mode);
            && x' == ExponentAfter(r, DecimalLength(n), x) && x <= x' <= x + 1
            && Normalized(r, DecimalLength(n)) * Pow(10, x' - x) == r
            && |SignificandText(Normalized(r, DecimalLength(n)), point)| == |SignificandText(n, point)|
            && buf[..] == Splice(orig, first, SignificandText(Normalized(r, DecimalLength(n)), point))
  {
    hide Pow;
    x' := x;
    CarryIsPower(n, DecimalLength(n), Rounded(n, mode));
    if mode == 0 {
      return;
    }
    ghost var s := SignificandText(n, point);
    SignificandIsPlain(n, point);
    BumpSignificand(n, point);
    hide SignificandText, Bump, NinesOnly, Splice, DecimalLength, PlainNumber, DotAt, LastOdd;
    var overflow, dot := CarryBack(buf, first, end, mode, orig, s);
    if overflow {
      SpliceAt(orig, first, Bump(s), 0, '1');
      buf[first] := '1';
      x' := x + 1;
    }
  }

  // Lines 900-928.
  method PutExponent(buf: array<char>, end: nat, last: nat, x: int, ghost orig: string) returns (ok: bool, newEnd: nat)
    requires end <= last <= buf.Length && buf[..] == orig && Magnitude(x) < 1000
    modifies buf
    ensures ok <==> end + |ExponentText(x)| <= last
    ensures ok ==> newEnd == end + |ExponentText(x)| && buf[..] == Splice(orig, end, ExponentText(x))
    ensures !ok ==> newEnd == last && buf[..] == orig
  {
    var sign, e := if x < 0 then '-' else '+', Magnitude(x);
    hide FixedDigits, DigitChar, Splice;
    ExponentParts(x);
    var length := if e >= 100 then 5 else 4;
    if last - end < length {
      return false, last;
    }
    SpliceNothing(orig, end);
    PutTwo(buf, end, 'e', sign, orig, end, "");
    ghost var head := ['e', sign];
    assert "" + head == head;
    if e >= 100 {
      WritePair(buf, end + 2, e / 10);
      SpliceBackTwo(orig, end, head, DigitChar(e / 10 / 10 % 10), DigitChar(e / 10 % 10));
      head := head + [DigitChar(e / 10 / 10 % 10), DigitChar(e / 10 % 10)];
      SpliceBack(orig, end, head, DigitChar(e % 10));
      buf[end + 4] := DigitChar(e % 10);
      newEnd := end + 5;
    } else {
      WritePair(buf, end + 2, e);
      SpliceBackTwo(orig, end, head, DigitChar(e / 10 % 10), DigitChar(e % 10));
      newEnd := end + 4;
    }
    ok := true;
  }

  method PutTwo(buf: array<char>, at: nat, c: char, d: char, ghost orig: string, ghost pos: nat, ghost text: string)
    requires pos + |text| == at && at + 2 <= buf.Length == |orig| && buf[..] == Splice(orig, pos, text)
    modifies buf
    ensures buf[..] == Splice(orig, pos, text + [c, d])
  {
    SpliceBackTwo(orig, pos, text, c, d);
    buf[at] := c;
    buf[at + 1] := d;
  }

  lemma SpliceBackTwo(t: string, pos: nat, s: string, c: char, d: char)
    requires pos + |s| + 2 <= |t|
    ensures Splice(t, pos, s)[pos + |s| := c][pos + |s| + 1 := d] == Splice(t, pos, s + [c, d])
  {
  }

  lemma ExponentParts(x: int)
    ensures var e, head := Magnitude(x), ['e', if x < 0 then '-' else '+'];
            ExponentText(x) ==
              if e >= 100 then head + [DigitChar(e / 10 / 10 % 10), DigitChar(e / 10 % 10)] + [DigitChar(e % 10)]
              else head + [DigitChar(e / 10 % 10), DigitChar(e % 10)]
  {
    var e := Magnitude(x);
    ThreeDigits(e);
    LastDigits(e);
    hide FixedDigits, DigitChar;
  }

  lemma ThreeDigits(e: nat)
    ensures FixedDigits(e, 3) == [DigitChar(e / 10 / 10 % 10), DigitChar(e / 10 % 10), DigitChar(e % 10)]
  {
    FixedDigitsStep(e, 3);
    LastDigits(e / 10);
  }
}
