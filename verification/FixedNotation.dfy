// Fixed notation: what the text with p digits after the point means, and rounding
// it in place.
module FixedNotation {
  import opened Arith
  import opened Digits
  import opened Carry
  import opened Rounding

  // n / 10^p with p digits after the decimal point.
  function FixedText(n: nat, p: nat): (s: string)
  {
    Decimal(Cut(n, p)) + Tail(n, p)
  }

  function Tail(n: nat, p: nat): (s: string)
    ensures |s| == if p == 0 then 0 else p + 1
  {
    if p == 0 then "" else "." + FixedDigits(n, p)
  }

  // Nothing outside [first, last) differs.
  predicate Outside(t: string, orig: string, first: nat, last: nat)
  {
    |t| == |orig| && first <= last <= |orig| && t[..first] == orig[..first] && t[last..] == orig[last..]
  }

  lemma SpliceOutside(orig: string, first: nat, last: nat, s: string)
    requires first + |s| <= last <= |orig|
    ensures Outside(Splice(orig, first, s), orig, first, last)
  {
  }

  // --- reading it back ---

  lemma {:induction false} ValueConcat(a: string, b: string)
    requires forall i :: 0 <= i < |b| ==> IsDigit(b[i])
    ensures DigitsValue(a + b) == DigitsValue(a) * Pow(10, |b|) + DigitsValue(b)
  {
    if b == "" {
      assert a + b == a && Pow(10, 0) == 1;
    } else {
      var k := |b| - 1;
      assert (a + b)[..|a| + k] == a + b[..k] && (a + b)[|a| + k] == b[k];
      ValueConcat(a, b[..k]);
      PowStep(10, k + 1);
      hide Pow;
      ShiftIn(DigitsValue(a), Pow(10, k), DigitsValue(b[..k]), b[k] as int - '0' as int);
    }
  }

  lemma ShiftIn(a: int, p: int, b: int, d: int)
    ensures 10 * (a * p + b) + d == a * (10 * p) + (10 * b + d)
  {
  }

  // The digits of a fixed text, read without the point, are those of n.
  lemma FixedTextValue(n: nat, p: nat)
    ensures DigitsValue(FixedText(n, p)) == n
  {
    hide DigitsValue, Decimal, FixedDigits, Pow;
    if p == 0 {
      NoFraction(n);
      DecimalValue(n);
    } else {
      var i, t := Cut(n, p), FixedDigits(n, p);
      DecimalValue(i);
      FixedDigitsValue(n, p);
      DigitsAreDigits(n, p);
      SkipDot(Decimal(i));
      ValueConcat(Decimal(i) + ".", t);
      DivMod(n, Pow(10, p));
      assert FixedText(n, p) == Decimal(i) + "." + t;
    }
  }

  lemma NoFraction(n: nat)
    ensures FixedText(n, 0) == Decimal(n)
  {
    assert Cut(n, 0) == n;
  }

  lemma SkipDot(a: string)
    ensures DigitsValue(a + ".") == DigitsValue(a)
  {
    assert (a + ".")[..|a|] == a;
  }

  // How many characters stand behind the decimal point.
  function AfterPoint(s: string): (p: nat)
  {
    if s == "" then 0 else if s[0] == '.' then |s| - 1 else AfterPoint(s[1..])
  }

  lemma {:induction false} AfterDigits(a: string, b: string)
    requires forall i :: 0 <= i < |a| ==> IsDigit(a[i])
    ensures AfterPoint(a + b) == AfterPoint(b)
  {
    if a == "" {
      assert a + b == b;
    } else {
      assert (a + b)[1..] == a[1..] + b;
      AfterDigits(a[1..], b);
    }
  }

  lemma FixedTextPlaces(n: nat, p: nat)
    ensures AfterPoint(FixedText(n, p)) == p
  {
    var i := Cut(n, p);
    DigitsAreDigits(i, DecimalLength(i));
    AfterDigits(Decimal(i), Tail(n, p));
  }

  // --- adding one ---

  lemma LengthOfNext(i: nat)
    ensures i + 1 <= Pow(10, DecimalLength(i))
    ensures i + 1 < Pow(10, DecimalLength(i)) ==> DecimalLength(i + 1) == DecimalLength(i)
  {
    var len := DecimalLength(i);
    LengthBounds(i);
    if i == 0 {
      ShortLength(0);
      ShortLength(1);
    } else if i + 1 < Pow(10, len) {
      hide DecimalLength, Pow;
      LengthIs(i + 1, len);
    }
  }

  lemma BumpDecimal(i: nat)
    ensures !NinesOnly(Decimal(i)) ==> Bump(Decimal(i)) == Decimal(i + 1)
    ensures NinesOnly(Decimal(i)) ==>
      Bump(Decimal(i)) == FixedDigits(0, DecimalLength(i)) && Decimal(i + 1) == "1" + FixedDigits(0, DecimalLength(i))
  {
    hide FixedDigits, DecimalLength, Pow, NinesOnly, Bump;
    var len := DecimalLength(i);
    LengthOfNext(i);
    BumpDigits(i, len);
    if i + 1 == Pow(10, len) {
      DecimalAppend(1, 0, len);
      One();
    }
  }

  lemma One()
    ensures Decimal(1) == "1"
  {
    ShortLength(1);
    LastDigits(1);
  }

  lemma QuotientOfNext(n: nat, d: nat)
    requires d > 0
    ensures n % d + 1 < d ==> (n + 1) / d == n / d && (n + 1) % d == n % d + 1
    ensures n % d + 1 == d ==> (n + 1) / d == n / d + 1 && (n + 1) % d == 0
  {
    DivMod(n, d);
    if n % d + 1 < d {
      DivUnique(n + 1, d, n / d, n % d + 1);
    } else {
      DistributeAdd(n / d, 1, d);
      DivUnique(n + 1, d, n / d + 1, 0);
    }
  }

  lemma BumpTail(n: nat, p: nat)
    ensures Bump(Tail(n, p)) == Tail(n + 1, p)
    ensures NinesOnly(Tail(n, p)) ==> Tail(n + 1, p) == Tail(0, p) && Cut(n + 1, p) == Cut(n, p) + 1
    ensures !NinesOnly(Tail(n, p)) ==> Cut(n + 1, p) == Cut(n, p)
  {
    var d := Pow(10, p);
    DivMod(n, d);
    QuotientOfNext(n, d);
    if p > 0 {
      BumpDigitsMod(n, p);
      hide Pow, FixedDigits, Bump, NinesOnly;
      DotInFront(FixedDigits(n, p));
    }
  }

  lemma BumpDigitsMod(n: nat, p: nat)
    ensures Bump(FixedDigits(n, p)) == FixedDigits(n + 1, p)
    ensures NinesOnly(FixedDigits(n, p)) <==> n % Pow(10, p) + 1 == Pow(10, p)
    ensures NinesOnly(FixedDigits(n, p)) ==> FixedDigits(n + 1, p) == FixedDigits(0, p)
  {
    hide FixedDigits, Bump, NinesOnly;
    var d := Pow(10, p);
    hide Pow;
    DivMod(n, d);
    QuotientOfNext(n, d);
    FixedDigitsMod(n, p);
    FixedDigitsMod(n + 1, p);
    BumpDigits(n % d, p);
  }

  lemma DotInFront(f: string)
    ensures NinesOnly("." + f) <==> NinesOnly(f)
    ensures Bump("." + f) == "." + Bump(f)
  {
    NinesConcat(".", f);
    BumpConcat(".", f);
    hide NinesOnly, Bump;
    JustPoint();
  }

  lemma JustPoint()
    ensures NinesOnly(".") && Bump(".") == "."
  {
    assert "" + "." == ".";
    BumpLast("", '.');
  }

  lemma NinesConcat(a: string, b: string)
    ensures NinesOnly(a + b) <==> NinesOnly(a) && NinesOnly(b)
  {
    if NinesOnly(a + b) {
      forall i | 0 <= i < |a| ensures a[i] == '9' || a[i] == '.' { assert (a + b)[i] == a[i]; }
      forall i | 0 <= i < |b| ensures b[i] == '9' || b[i] == '.' { assert (a + b)[|a| + i] == b[i]; }
    }
  }

  // Bumping the text adds one; when every digit is a nine a leading one is missing.
  lemma BumpFixedText(n: nat, p: nat)
    ensures !NinesOnly(FixedText(n, p)) ==> Bump(FixedText(n, p)) == FixedText(n + 1, p)
    ensures NinesOnly(FixedText(n, p)) ==>
      var len := DecimalLength(Cut(n, p));
      && Bump(FixedText(n, p)) == FixedDigits(0, len) + Tail(0, p)
      && FixedText(n + 1, p) == "1" + FixedDigits(0, len) + Tail(0, p)
  {
    var i, t := Cut(n, p), Tail(n, p);
    BumpTail(n, p);
    BumpDecimal(i);
    hide Cut, Bump, NinesOnly, Decimal, Tail, FixedDigits, DecimalLength;
    BumpConcat(Decimal(i), t);
    NinesConcat(Decimal(i), t);
  }

  // --- the pass on a fixed text ---

  lemma LastOfFixedText(n: nat, p: nat)
    ensures var s := FixedText(n, p); s != "" && s[|s| - 1] == DigitChar(n % 10)
  {
    var s := FixedText(n, p);
    if p > 0 {
      FixedDigitsStep(n, p);
      assert s[|s| - 1] == FixedDigits(n, p)[p - 1];
    } else {
      assert Cut(n, 0) == n;
      FixedDigitsStep(n, DecimalLength(n));
    }
  }

  lemma FixedTextIsPlain(n: nat, p: nat)
    ensures var s := FixedText(n, p); PlainNumber(s) && (LastOdd(s) <==> n % 2 != 0)
  {
    var i := Cut(n, p);
    LastOfFixedText(n, p);
    OddDigit(n);
    DigitsAreDigits(i, DecimalLength(i));
    DigitsAreDigits(n, p);
    hide Pow, DigitChar, FixedDigits, DecimalLength, Cut;
  }

  lemma OddDigit(n: nat)
    ensures IsDigit(DigitChar(n % 10)) && (DigitChar(n % 10) as int % 2 != 0 <==> n % 2 != 0)
  {
    hide DigitChar, IsDigit;
    DigitCode(n % 10);
    LastDigitParity(n);
    EvenOffset(n % 10);
  }

  lemma EvenOffset(d: nat)
    ensures (48 + d) % 2 == d % 2
  {
  }

  lemma DigitCode(d: nat)
    requires d < 10
    ensures DigitChar(d) as int == 48 + d && IsDigit(DigitChar(d))
  {
  }

  lemma LastDigitParity(n: nat)
    ensures n % 10 % 2 == n % 2
  {
    ModProduct(n, 2, 5);
    DivUnique(n % 10, 2, n / 2 % 5, n % 2);
  }

  lemma DotOfFixedText(n: nat, p: nat, dot: int)
    requires DotAt(FixedText(n, p), dot)
    ensures dot == if p == 0 then -1 else DecimalLength(Cut(n, p))
  {
    var i := Cut(n, p);
    DigitsAreDigits(i, DecimalLength(i));
    hide FixedDigits, Cut, DotAt, DecimalLength;
    DotOfParts(Decimal(i), Tail(n, p), dot);
  }

  lemma InPrefix(s: string, i: int, k: int)
    ensures 0 <= i < k <= |s| ==> s[i] in s[..k]
  {
    if 0 <= i < k <= |s| {
      assert s[..k][i] == s[i];
    }
  }

  lemma DotOfParts(a: string, b: string, dot: int)
    requires (forall k :: 0 <= k < |a| ==> IsDigit(a[k])) && (b != "" ==> b[0] == '.') && DotAt(a + b, dot)
    ensures dot == if b == "" then -1 else |a|
  {
    var s := a + b;
    assert forall k :: 0 <= k < |a| ==> s[k] == a[k];
    if b != "" {
      assert s[|a|] == '.';
      InPrefix(s, |a|, dot);
    }
  }

  // The two stores and the extra zero of lines 654-662.
  lemma OverflowText(len: nat, p: nat)
    requires len > 0
    ensures p == 0 ==> (FixedDigits(0, len) + Tail(0, p))[0 := '1'] + "0" == "1" + FixedDigits(0, len) + Tail(0, p)
    ensures p > 0 ==>
      (FixedDigits(0, len) + Tail(0, p))[0 := '1'][len := '0'][len + 1 := '.'] + "0" ==
        "1" + FixedDigits(0, len) + Tail(0, p)
  {
    ZeroDigits(len);
    ZeroDigits(p);
    hide FixedDigits;
  }

  method RoundFixed(buf: array<char>, first: nat, end: nat, last: nat, mode: nat, ghost orig: string, ghost n: nat,
                    ghost p: nat)
    returns (ok: bool, newEnd: nat)
    requires first + |FixedText(n, p)| == end <= last <= buf.Length == |orig|
    requires buf[..] == Splice(orig, first, FixedText(n, p)) && mode <= 2
    modifies buf
    ensures ok <==> first + |FixedText(Rounded(n, mode), p)| <= last
    ensures ok ==> newEnd == first + |FixedText(Rounded(n, mode), p)|
    ensures ok ==> buf[..] == Splice(orig, first, FixedText(Rounded(n, mode), p))
    ensures !ok ==> newEnd == last && Outside(buf[..], orig, first, last)
  {
    if mode == 0 {
      return true, end;
    }
    ghost var s := FixedText(n, p);
    FixedTextIsPlain(n, p);
    BumpFixedText(n, p);
    hide FixedText, Tail, Bump, NinesOnly, Splice, DecimalLength, FixedDigits, Cut, PlainNumber, DotAt, LastOdd;
    var overflow, dot := CarryBack(buf, first, end, mode, orig, s);
    if !overflow {
      return true, end;
    }
    DotOfFixedText(n, p, dot);
    ok, newEnd := PutOverflow(buf, first, end, last, dot, orig, DecimalLength(Cut(n, p)), p);
  }

  method PutOverflow(buf: array<char>, first: nat, end: nat, last: nat, dot: int, ghost orig: string, ghost len: nat,
                     ghost p: nat)
    returns (ok: bool, newEnd: nat)
    requires len > 0 && first + len + |Tail(0, p)| == end <= last <= buf.Length == |orig|
    requires buf[..] == Splice(orig, first, FixedDigits(0, len) + Tail(0, p))
    requires dot == if p == 0 then -1 else len
    modifies buf
    ensures ok <==> end < last
    ensures ok ==> newEnd == end + 1 && buf[..] == Splice(orig, first, "1" + FixedDigits(0, len) + Tail(0, p))
    ensures !ok ==> newEnd == last && Outside(buf[..], orig, first, last)
  {
    hide Splice, FixedDigits;
    OverflowText(len, p);
    ghost var z := FixedDigits(0, len) + Tail(0, p);
    hide Tail;
    SpliceAt(orig, first, z, 0, '1');
    buf[first] := '1';
    z := z[0 := '1'];
    if dot != -1 {
      SpliceAt(orig, first, z, len, '0');
      buf[first + dot] := '0';
      z := z[len := '0'];
      SpliceAt(orig, first, z, len + 1, '.');
      buf[first + dot + 1] := '.';
      z := z[len + 1 := '.'];
    }
    if end == last {
      SpliceOutside(orig, first, last, z);
      return false, last;
    }
    SpliceBack(orig, first, z, '0');
    buf[end] := '0';
    return true, end + 1;
  }
}
