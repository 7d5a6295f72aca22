// The two notations as texts: where the digits, the point and the exponent stand.
// With what a text reads as, this leaves one text for each notation of a decimal.
module Notation {
  import opened Arith
  import opened Digits
  import opened Carry
  import opened FixedNotation
  import opened ScientificNotation
  import opened ToChars

  predicate OnlyDigits(s: string) { forall i :: 0 <= i < |s| ==> IsDigit(s[i]) }

  // Digits, p of them behind a point if there are to be any, and no zero in front of
  // other whole digits.
  predicate FixedShape(s: string, p: nat)
  {
    var w := |s| - if p > 0 then p + 1 else 0;
    && w > 0 && OnlyDigits(s[..w]) && (s[0] == '0' ==> w == 1)
    && (p > 0 ==> s[w] == '.' && OnlyDigits(s[w + 1..]))
  }

  // One digit, p more behind a point if there are to be any, and an exponent.
  predicate ScientificShape(s: string, p: nat)
  {
    var w := if p > 0 then p + 2 else 1;
    && w <= |s| && IsDigit(s[0]) && (p > 0 ==> s[1] == '.' && OnlyDigits(s[2..w]))
    && ExponentShape(s[w..])
  }

  // A sign and two digits, or three where two are not enough; minus only below zero.
  predicate ExponentShape(s: string)
  {
    && 4 <= |s| <= 5 && s[0] == 'e' && (s[1] == '+' || s[1] == '-') && OnlyDigits(s[2..])
    && (|s| == 5 ==> s[2] != '0') && (s[1] == '-' ==> DigitsValue(s[2..]) > 0)
  }

  lemma {:induction false} NoZeroInFront(n: nat)
    requires n > 0
    ensures Decimal(n)[0] != '0'
  {
    if n >= 10 {
      NoZeroInFront(n / 10);
    } else {
      LastDigits(n);
    }
  }

  lemma DecimalDigits(n: nat, len: nat)
    ensures OnlyDigits(FixedDigits(n, len))
  {
    DigitsAreDigits(n, len);
  }

  lemma FixedTextShape(n: nat, p: nat)
    ensures FixedShape(FixedText(n, p), p)
  {
    hide FixedDigits, Decimal, Cut, OnlyDigits;
    var i := Cut(n, p);
    WholeDigits(i);
    DecimalDigits(n, p);
    PartsShape(Decimal(i), FixedDigits(n, p));
  }

  lemma WholeDigits(i: nat)
    ensures OnlyDigits(Decimal(i)) && (Decimal(i)[0] == '0' ==> |Decimal(i)| == 1)
  {
    DecimalDigits(i, DecimalLength(i));
    ShortLength(0);
    hide FixedDigits, DecimalLength;
    if i > 0 {
      NoZeroInFront(i);
    }
  }

  lemma PartsShape(a: string, f: string)
    requires a != "" && OnlyDigits(a) && OnlyDigits(f) && (a[0] == '0' ==> |a| == 1)
    ensures FixedShape(a + (if f == "" then "" else "." + f), |f|)
  {
    hide OnlyDigits;
    var s := a + if f == "" then "" else "." + f;
    assert s[..|a|] == a;
    if f != "" {
      assert s[|a| + 1..] == f;
    }
  }

  // A fixed text is n / 10^p to the last of its p digits.
  lemma FixedTextReads(n: nat, p: nat)
    ensures Read(FixedText(n, p)) == Dec(n, 0 - p)
  {
    hide Read, FixedText, DigitsValue, AfterPoint, FixedShape;
    FixedTextShape(n, p);
    LetterInShape(FixedText(n, p), p);
    FixedTextValue(n, p);
    FixedTextPlaces(n, p);
    ReadParts(FixedText(n, p), "");
    assert FixedText(n, p) + "" == FixedText(n, p);
  }

  lemma ExponentTextShape(x: int)
    requires Magnitude(x) < 1000
    ensures ExponentShape(ExponentText(x))
  {
    var e, s := Magnitude(x), ExponentText(x);
    var len := if e >= 100 then 3 else 2;
    DecimalDigits(e, len);
    FixedDigitsValue(e, len);
    AllDigits(e, len);
    if e >= 100 {
      NoZeroInFront(e);
      ThreeDigits(e);
    }
    hide FixedDigits, DigitsValue, DecimalLength, Pow;
    assert s[2..] == FixedDigits(e, len);
  }

  lemma ThreeDigits(e: nat)
    requires 100 <= e < 1000
    ensures DecimalLength(e) == 3
  {
    assert Pow(10, 2) == 100 && Pow(10, 3) == 1000;
    hide DecimalLength, Pow;
    LengthIs(e, 3);
  }

  lemma ScientificTextShape(n: nat, x: int)
    requires Magnitude(x) < 1000
    ensures var s := SignificandText(n, DecimalLength(n) > 1) + ExponentText(x);
            ScientificShape(s, DecimalLength(n) - 1) && (n > 0 ==> s[0] != '0')
  {
    var t, len, e := Decimal(n), DecimalLength(n), ExponentText(x);
    if n > 0 {
      NoZeroInFront(n);
    }
    DecimalDigits(n, len);
    ExponentTextShape(x);
    hide FixedDigits, DecimalLength, ExponentText, ExponentShape;
    var s := SignificandText(n, len > 1) + e;
    assert s[|SignificandText(n, len > 1)|..] == e;
    if len > 1 {
      assert s[2..len + 1] == t[1..];
    }
  }

  // An exponent shows in one notation only.
  lemma LetterInShape(s: string, p: nat)
    ensures FixedShape(s, p) ==> 'e' !in s
    ensures ScientificShape(s, p) ==> 'e' in s
  {
    var w := |s| - if p > 0 then p + 1 else 0;
    if FixedShape(s, p) && 'e' in s {
      var i :| 0 <= i < |s| && s[i] == 'e';
      LetterAt(s, p, w, i);
    }
    if ScientificShape(s, p) {
      var e := if p > 0 then p + 2 else 1;
      assert s[e..][0] == s[e];
    }
  }

  lemma LetterAt(s: string, p: nat, w: int, i: int)
    requires FixedShape(s, p) && 0 <= i < |s| && w == |s| - if p > 0 then p + 1 else 0
    ensures s[i] != 'e'
  {
    if i < w {
      assert s[i] == s[..w][i];
    } else if i > w {
      assert s[i] == s[w + 1..][i - (w + 1)];
    }
  }

  // --- reading and printing again ---

  lemma {:induction false} DigitsAgain(s: string)
    requires OnlyDigits(s)
    ensures FixedDigits(DigitsValue(s), |s|) == s
  {
    if s != "" {
      var rest, last := s[..|s| - 1], s[|s| - 1];
      DigitsAgain(rest);
      DivUnique(DigitsValue(s), 10, DigitsValue(rest), last as int - '0' as int);
      assert DigitChar(last as int - '0' as int) == last;
      assert s == rest + [last];
    }
  }

  lemma {:induction false} ValueBounds(s: string)
    requires OnlyDigits(s) && s != ""
    ensures DigitsValue(s) < Pow(10, |s|) && (s[0] != '0' ==> Pow(10, |s| - 1) <= DigitsValue(s))
  {
    assert Pow(10, 0) == 1;
    PowStep(10, |s|);
    if |s| == 1 {
      assert s[..0] == "";
    } else {
      ValueBounds(s[..|s| - 1]);
      PowStep(10, |s| - 1);
      hide Pow;
    }
  }

  // Digits without a zero in front are those of a number.
  lemma DecimalAgain(s: string)
    requires OnlyDigits(s) && s != "" && (s[0] == '0' ==> |s| == 1)
    ensures Decimal(DigitsValue(s)) == s
  {
    hide Pow, DecimalLength, DigitsValue, FixedDigits;
    DigitsAgain(s);
    ValueBounds(s);
    if s[0] == '0' {
      assert s == "0";
      ZeroAgain();
    } else {
      LengthIs(DigitsValue(s), |s|);
    }
  }

  lemma ZeroAgain()
    ensures DecimalLength(DigitsValue("0")) == 1
  {
    assert DigitsValue("") == 0;
    ShortLength(0);
    hide DecimalLength;
  }

  /** Whatever is in fixed notation is printed again as it stands once it is read. */
  lemma FixedTextAgain(s: string, p: nat)
    requires FixedShape(s, p)
    ensures FixedText(Read(s).n, p) == s
  {
    hide FixedShape, FixedText, DigitsValue, AfterPoint, Read, Decimal, FixedDigits, OnlyDigits, Pow;
    var w := |s| - if p > 0 then p + 1 else 0;
    FixedParts(s, p, w);
    LetterInShape(s, p);
    ReadParts(s, "");
    assert s + "" == s;
    var a := s[..w];
    DecimalAgain(a);
    if p > 0 {
      var f := s[w + 1..];
      WholeAndFraction(a, f);
      DigitsAgain(f);
      ValueBounds(f);
      CutAndTail(DigitsValue(a), DigitsValue(f), p);
    } else {
      NoFraction(DigitsValue(a));
    }
  }

  lemma FixedParts(s: string, p: nat, w: int)
    requires FixedShape(s, p) && w == |s| - if p > 0 then p + 1 else 0
    ensures 0 < w <= |s| && OnlyDigits(s[..w]) && s[..w][0] == s[0] && (s[0] == '0' ==> w == 1)
    ensures p == 0 ==> s == s[..w]
    ensures p > 0 ==> w < |s| && s == s[..w] + "." + s[w + 1..] && OnlyDigits(s[w + 1..]) && |s[w + 1..]| == p
  {
  }

  lemma WholeAndFraction(a: string, f: string)
    requires OnlyDigits(f)
    ensures DigitsValue(a + "." + f) == DigitsValue(a) * Pow(10, |f|) + DigitsValue(f)
  {
    hide DigitsValue, Pow;
    SkipDot(a);
    ValueConcat(a + ".", f);
  }

  lemma CutAndTail(v: nat, t: nat, p: nat)
    requires p > 0 && t < Pow(10, p)
    ensures FixedText(v * Pow(10, p) + t, p) == Decimal(v) + "." + FixedDigits(t, p)
  {
    var n := v * Pow(10, p) + t;
    hide Pow, Decimal, FixedDigits;
    DivUnique(n, Pow(10, p), v, t);
    FixedDigitsMod(n, p);
  }

  lemma ExponentAgain(e: string)
    requires ExponentShape(e)
    ensures Magnitude(ReadExponent(e)) < 1000 && ExponentText(ReadExponent(e)) == e
  {
    hide FixedDigits, DigitsValue, OnlyDigits, ExponentText;
    var t := e[2..];
    assert e == "e" + [e[1]] + t && t[0] == e[2];
    ExponentDigits(t);
    SignAgain(e[1], t, DigitsValue(t));
  }

  lemma ExponentDigits(t: string)
    requires OnlyDigits(t) && 2 <= |t| <= 3 && (|t| == 3 ==> t[0] != '0')
    ensures var v := DigitsValue(t);
            v < 1000 && |t| == (if v >= 100 then 3 else 2) && FixedDigits(v, |t|) == t
  {
    hide FixedDigits, DigitsValue, OnlyDigits, Pow;
    DigitsAgain(t);
    ValueBounds(t);
    SmallPowers();
  }

  lemma SignAgain(sign: char, t: string, v: int)
    requires (sign == '+' || sign == '-') && v >= 0 && (sign == '-' ==> v > 0)
    requires |t| == (if v >= 100 then 3 else 2) && FixedDigits(v, |t|) == t
    ensures ExponentText(if sign == '-' then 0 - v else v) == "e" + [sign] + t
  {
    hide FixedDigits;
  }

  lemma SmallPowers()
    ensures Pow(10, 1) == 10 && Pow(10, 2) == 100 && Pow(10, 3) == 1000
  {
  }

  // A digit and others behind a point, as a significand.
  function Joined(c: char, f: string): (s: string) { if f == "" then [c] else [c] + "." + f }

  lemma JoinedAgain(c: char, f: string)
    requires IsDigit(c) && c != '0' && OnlyDigits(f)
    ensures var n := DigitsValue(Joined(c, f));
            && DecimalLength(n) == |f| + 1 && SignificandText(n, f != "") == Joined(c, f)
            && AfterPoint(Joined(c, f)) == |f|
  {
    var g := [c] + f;
    hide DigitsValue, AfterPoint, FixedDigits, DecimalLength;
    DecimalAgain(g);
    SignificandReadsBack(DigitsValue(g), f != "");
    if f == "" {
      assert g == [c];
    } else {
      assert g[..1] == [c] && g[1..] == f;
    }
  }

  lemma JoinedParts(s: string, p: nat)
    requires ScientificShape(s, p)
    ensures var w := if p > 0 then p + 2 else 1;
            var f := if p > 0 then s[2..w] else "";
            s == Joined(s[0], f) + s[w..] && |f| == p && 'e' !in Joined(s[0], f)
  {
    hide ExponentShape;
    var w := if p > 0 then p + 2 else 1;
    assert s == s[..w] + s[w..];
    if p > 0 {
      assert s[..w] == s[..2] + s[2..w] && s[..2] == [s[0]] + ".";
    }
  }

  /** And so is whatever is in scientific notation. */
  lemma ScientificTextAgain(s: string, p: nat)
    requires ScientificShape(s, p) && s[0] != '0'
    ensures ScientificForm(Read(s).n, Read(s).k) == s
  {
    hide DigitsValue, AfterPoint, Read, ExponentText, ExponentShape, ReadExponent, SignificandText, Joined,
         DecimalLength;
    var w := if p > 0 then p + 2 else 1;
    var f, e := if p > 0 then s[2..w] else "", s[w..];
    JoinedParts(s, p);
    JoinedAgain(s[0], f);
    ExponentAgain(e);
    ExponentStart(e);
    ReadParts(Joined(s[0], f), e);
  }

  lemma ExponentStart(e: string)
    requires ExponentShape(e)
    ensures |e| >= 2 && e[0] == 'e'
  {
  }

  // --- the notation of the shortest decimal ---

  // From 10^-4 up to 10^6, and zero, compared at a scale that makes the decimal an integer.
  ghost predicate InGeneralRange(n: nat, k: int)
  {
    var m := Above(-k) + 4;
    n == 0 || Pow(10, m - 4) <= n * Pow(10, k + m) < Pow(10, m + 6)
  }

  // Which notation the format asks for: one of the two, the shorter one, or by value.
  ghost predicate WantsExponent(fmt: CharsFormat, n: nat, k: int)
  {
    match fmt
    case Scientific => true
    case Fixed => false
    case Unspecified => |ScientificForm(n, k)| < |FixedForm(n, k)|
    case General => !InGeneralRange(n, k)
  }

  // The text is in the notation the format asks for, with the digits of n.
  ghost predicate InNotation(fmt: CharsFormat, s: string, n: nat, k: int)
  {
    && ('e' in s <==> WantsExponent(fmt, n, k))
    && ('e' in s ==> ScientificShape(s, DecimalLength(n) - 1) && (n > 0 ==> s[0] != '0'))
    && ('e' !in s ==> FixedShape(s, Above(-k)))
  }

  lemma ChoiceIsWanted(fmt: CharsFormat, n: nat, k: int)
    requires 0 < n < 100000000000000000
    ensures ChoosesFixed(fmt, DecimalLength(n), k) <==> !WantsExponent(fmt, n, k)
  {
    hide FixedForm, ScientificForm, DecimalLength, Pow;
    SeventeenDigits(n);
    ShorterIsChosen(n, k);
    GeneralIsFixedInRange(n, k, Above(-k) + 4);
  }

  lemma SeventeenDigits(n: nat)
    requires n < 100000000000000000
    ensures DecimalLength(n) <= 17
  {
    assert DecimalLength17(n) <= 17;
  }

  lemma ScientificIsInNotation(fmt: CharsFormat, n: nat, k: int)
    requires n > 0 && WantsExponent(fmt, n, k) && Magnitude(k + DecimalLength(n) - 1) < 1000
    ensures InNotation(fmt, ScientificForm(n, k), n, k)
  {
    hide SignificandText, ExponentText, WantsExponent, DecimalLength, ScientificShape;
    ScientificTextShape(n, k + DecimalLength(n) - 1);
    LetterInShape(ScientificForm(n, k), DecimalLength(n) - 1);
  }

  lemma FixedIsInNotation(fmt: CharsFormat, s: string, n: nat, k: int)
    requires !WantsExponent(fmt, n, k) && FixedShape(s, Above(-k))
    ensures InNotation(fmt, s, n, k)
  {
    hide WantsExponent, ScientificShape, FixedShape;
    LetterInShape(s, Above(-k));
  }

  lemma FixedFormShape(n: nat, k: int)
    ensures FixedShape(FixedForm(n, k), Above(-k))
  {
    hide FixedShape, FixedText, Decimal, Pow;
    if k >= 0 {
      DecimalShape(n * Pow(10, k));
    } else {
      FixedTextShape(n, -k);
    }
  }

  lemma DecimalShape(n: nat)
    ensures FixedShape(Decimal(n), 0)
  {
    hide FixedShape, FixedText, Decimal;
    NoFraction(n);
    FixedTextShape(n, 0);
  }
}
