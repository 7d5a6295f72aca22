// The in-place rounding pass: adding one to a printed number, from the last
// character backwards, through nines and the decimal point.
module Carry {
  import opened Arith
  import opened Digits

  predicate NinesOnly(s: string) { forall i :: 0 <= i < |s| ==> s[i] == '9' || s[i] == '.' }

  predicate PlainNumber(s: string)
  {
    s != "" && IsDigit(s[|s| - 1]) && forall i :: 0 <= i < |s| ==> IsDigit(s[i]) || s[i] == '.'
  }

  function Successor(c: char): (r: char)
  {
    if IsDigit(c) && c != '9' then c + 1 as char else c
  }

  // Adding one to the digits of s; the carry out of nines is lost.
  function Bump(s: string): (r: string)
    ensures |r| == |s|
  {
    if s == "" then ""
    else
      var c, rest := s[|s| - 1], s[..|s| - 1];
      if c == '.' then Bump(rest) + "."
      else if c == '9' then Bump(rest) + "0"
      else rest + [Successor(c)]
  }

  lemma {:induction false} BumpConcat(a: string, b: string)
    ensures Bump(a + b) == (if NinesOnly(b) then Bump(a) else a) + Bump(b)
  {
    if b == "" {
      assert a + b == a;
    } else {
      var c, rest := b[|b| - 1], b[..|b| - 1];
      assert (a + b)[..|a + b| - 1] == a + rest;
      assert b == rest + [c];
      BumpConcat(a, rest);
    }
  }

  // --- the digits of n and of n + 1 ---

  lemma NextInTens(n: nat, p: nat)
    requires n < 10 * p
    ensures n / 10 < p && (n + 1 < 10 * p <==> n / 10 + 1 < p || n % 10 != 9)
  {
  }

  lemma SuccessorDigit(d: nat)
    requires d < 10
    ensures d < 9 ==> DigitChar(d) != '9' && DigitChar(d) != '.' && Successor(DigitChar(d)) == DigitChar(d + 1)
    ensures d == 9 ==> DigitChar(d) == '9'
    ensures DigitChar(0) == '0' && IsDigit(DigitChar(d))
  {
  }

  lemma BumpLast(rest: string, c: char)
    ensures Bump(rest + [c]) ==
              if c == '.' then Bump(rest) + "." else if c == '9' then Bump(rest) + "0" else rest + [Successor(c)]
    ensures NinesOnly(rest + [c]) <==> NinesOnly(rest) && (c == '9' || c == '.')
  {
    var s := rest + [c];
    assert s[..|s| - 1] == rest;
    if NinesOnly(s) {
      assert s[|s| - 1] == c;
      assert forall i :: 0 <= i < |rest| ==> s[i] == rest[i];
    }
  }

  lemma {:induction false} BumpDigits(n: nat, len: nat)
    requires n < Pow(10, len)
    ensures n + 1 < Pow(10, len) ==>
              !NinesOnly(FixedDigits(n, len)) && Bump(FixedDigits(n, len)) == FixedDigits(n + 1, len)
    ensures n + 1 == Pow(10, len) ==> NinesOnly(FixedDigits(n, len)) && Bump(FixedDigits(n, len)) == FixedDigits(0, len)
  {
    if len > 0 {
      PowStep(10, len);
      hide Pow;
      NextInTens(n, Pow(10, len - 1));
      BumpDigits(n / 10, len - 1);
      if n % 10 == 9 {
        BumpNineAtEnd(n, len);
      } else {
        BumpOtherAtEnd(n, len);
      }
    }
  }

  lemma BumpNineAtEnd(n: nat, len: nat)
    requires len > 0 && n % 10 == 9
    ensures NinesOnly(FixedDigits(n, len)) <==> NinesOnly(FixedDigits(n / 10, len - 1))
    ensures Bump(FixedDigits(n, len)) == Bump(FixedDigits(n / 10, len - 1)) + "0"
    ensures FixedDigits(n + 1, len) == FixedDigits(n / 10 + 1, len - 1) + "0"
    ensures FixedDigits(0, len) == FixedDigits(0, len - 1) + "0"
  {
    FixedDigitsStep(n, len);
    FixedDigitsStep(n + 1, len);
    FixedDigitsStep(0, len);
    hide FixedDigits, NinesOnly, Bump;
    BumpLast(FixedDigits(n / 10, len - 1), '9');
  }

  lemma BumpOtherAtEnd(n: nat, len: nat)
    requires len > 0 && n % 10 != 9
    ensures !NinesOnly(FixedDigits(n, len)) && Bump(FixedDigits(n, len)) == FixedDigits(n + 1, len)
  {
    FixedDigitsStep(n, len);
    FixedDigitsStep(n + 1, len);
    SuccessorDigit(n % 10);
    hide FixedDigits, NinesOnly, Bump, DigitChar, Successor;
    BumpLast(FixedDigits(n / 10, len - 1), DigitChar(n % 10));
    assert (n + 1) / 10 == n / 10 && (n + 1) % 10 == n % 10 + 1;
  }

  lemma {:induction false} DigitsAreDigits(n: nat, len: nat)
    ensures forall i :: 0 <= i < len ==> IsDigit(FixedDigits(n, len)[i])
  {
    if len > 0 {
      DigitsAreDigits(n / 10, len - 1);
      SuccessorDigit(n % 10);
    }
  }

  lemma {:induction false} ZeroDigits(len: nat)
    ensures forall i :: 0 <= i < len ==> FixedDigits(0, len)[i] == '0'
  {
    if len > 0 {
      ZeroDigits(len - 1);
    }
  }

  // --- the pass ---

  predicate LastOdd(s: string)
    requires s != ""
  {
    s[|s| - 1] as int % 2 != 0
  }

  predicate Bumps(s: string, mode: nat)
    requires s != ""
  {
    mode == 1 || LastOdd(s)
  }

  // Where the decimal point of s is; -1 for none.
  predicate DotAt(s: string, dot: int)
  {
    if dot == -1 then '.' !in s else 0 <= dot < |s| && s[dot] == '.' && '.' !in s[..dot]
  }

  // The text after the characters from r on have been found to be nines.
  function Passed(s: string, r: nat): (t: string)
    requires r <= |s|
    ensures |t| == |s|
  {
    s[..r] + Bump(s[r..])
  }

  lemma PassStart(s: string)
    ensures Passed(s, |s|) == s && NinesOnly(s[|s|..])
  {
  }

  lemma PassStep(s: string, r: nat)
    requires r < |s| && NinesOnly(s[r + 1..])
    ensures Passed(s, r + 1)[r] == s[r]
    ensures s[r] == '9' ==> Passed(s, r) == Passed(s, r + 1)[r := '0'] && NinesOnly(s[r..])
    ensures s[r] == '.' ==> Passed(s, r) == Passed(s, r + 1) && NinesOnly(s[r..])
    ensures s[r] != '9' && s[r] != '.' ==> Bump(s) == Passed(s, r + 1)[r := Successor(s[r])] && !NinesOnly(s)
  {
    var z, c, w := s[..r], s[r], s[r + 1..];
    assert s[r..] == [c] + w && s[..r + 1] == z + [c] && s == z + [c] + w;
    BumpHead(c, w);
    BumpMiddle(z, c, w);
    hide Bump, NinesOnly, Successor;
  }

  lemma BumpHead(c: char, w: string)
    requires NinesOnly(w)
    ensures c == '9' ==> Bump([c] + w) == "0" + Bump(w) && NinesOnly([c] + w)
    ensures c == '.' ==> Bump([c] + w) == "." + Bump(w) && NinesOnly([c] + w)
  {
    assert "" + [c] == [c];
    BumpLast("", c);
    BumpConcat([c], w);
  }

  lemma BumpMiddle(z: string, c: char, w: string)
    requires NinesOnly(w)
    ensures c != '9' && c != '.' ==> Bump(z + [c] + w) == z + [Successor(c)] + Bump(w) && !NinesOnly(z + [c] + w)
  {
    BumpLast(z, c);
    BumpConcat(z + [c], w);
    if c != '9' && c != '.' {
      assert (z + [c] + w)[|z|] == c;
    }
  }

  lemma PassEnd(s: string)
    ensures Passed(s, 0) == Bump(s) && s[0..] == s
  {
    assert s[0..] == s;
  }

  lemma DotStep(s: string, r: nat, dot: int)
    requires r < |s| && DotAt(s[r + 1..], if dot == -1 then -1 else dot - r - 1) && (dot == -1 || dot > r)
    ensures s[r] == '.' ==> DotAt(s[r..], 0)
    ensures s[r] != '.' ==> DotAt(s[r..], if dot == -1 then -1 else dot - r)
  {
    assert s[r..] == [s[r]] + s[r + 1..];
    if dot != -1 && s[r] != '.' {
      assert s[r..][..dot - r] == [s[r]] + s[r + 1..][..dot - r - 1];
    }
  }

  /** Lines 649-679 and 876-898 up to the point where the pass stops or runs off the
      front: the number with its digits bumped, and whether the carry is left over. */
  method CarryBack(buf: array<char>, first: nat, end: nat, mode: nat, ghost orig: string, ghost s: string)
    returns (overflow: bool, dot: int)
    requires first + |s| == end <= buf.Length == |orig| && buf[..] == Splice(orig, first, s)
    requires PlainNumber(s) && (mode == 1 || mode == 2)
    modifies buf
    ensures overflow <==> Bumps(s, mode) && NinesOnly(s)
    ensures buf[..] == Splice(orig, first, if Bumps(s, mode) then Bump(s) else s)
    ensures overflow ==> DotAt(s, dot)
  {
    hide Splice, Bump, Passed, DotAt;
    var round, roundUp := end, mode;
    dot := -1;
    PassStart(s);
    NoDotYet();
    assert s[|s|..] == "";
    while true
      invariant first <= round <= end
      invariant NinesOnly(s[round - first..]) && buf[..] == Splice(orig, first, Passed(s, round - first))
      invariant roundUp == if round == end then mode else 1
      invariant round < end ==> Bumps(s, mode)
      invariant dot == -1 || round - first <= dot
      invariant DotAt(s[round - first..], if dot == -1 then -1 else dot - (round - first))
      decreases round
    {
      if round == first {
        PassEnd(s);
        return true, dot;
      }
      round := round - 1;
      ghost var r := round - first;
      PassStep(s, r);
      SpliceAt(orig, first, Passed(s, r + 1), r, '0');
      SpliceAt(orig, first, Passed(s, r + 1), r, Successor(s[r]));
      DotStep(s, r, dot);
      var c := buf[round];
      assert c == s[r];
      if c == '.' {
        dot := round - first;
      } else if c == '9' {
        buf[round] := '0';
        roundUp := 1;
      } else {
        if roundUp == 1 || c as int % 2 != 0 {
          buf[round] := c + 1 as char;
        } else {
          NotBumped(s, r);
        }
        return false, -1;
      }
    }
  }

  lemma NoDotYet()
    ensures DotAt("", -1)
  {
  }

  lemma NotBumped(s: string, r: nat)
    requires |s| == r + 1 && s[r] != '9' && s[r] != '.'
    ensures Passed(s, r + 1) == s && !NinesOnly(s)
  {
    PassStart(s);
  }
}
