// Step 4 of __d2d and __f2d: given the rounding interval of a floating-point
// number, scaled so that integers are the decimals considered so far, remove
// digits for as long as some accepted decimal remains.
module Shortest {
  import opened Arith
  import opened Words

  // The interval around the exact value b/d runs from a/d to c/d.  Its end points
  // are accepted when the binary mantissa is even.
  datatype Interval = Interval(a: nat, b: nat, c: nat, d: nat, accept: bool) {

    predicate Valid()
    {
      0 < d && a < b < c && b - a <= c - b
    }

    // What Step 3 hands over: two floors, a floor that skips an excluded end
    // point, and whether the first two are exact.
    function Vm(): (v: nat) requires Valid() { a / d }
    function Vr(): (v: nat) requires Valid() { b / d }
    function Vp(): (v: int) requires Valid() { if !accept && c % d == 0 then c / d - 1 else c / d }
    predicate VmIsTrailingZeros() requires Valid() { accept && a % d == 0 }
    predicate VrIsTrailingZeros() requires Valid() { b % d == 0 }

    function Unit(k: nat): (u: nat) { Pow(10, k) * d }

    predicate Inside(x: int)
    {
      if accept then a <= x <= c else a < x < c
    }

    // The decimal n * 10^k reads back as the number the interval belongs to.
    predicate Accepted(n: nat, k: nat)
    {
      Inside(n * Unit(k))
    }

    function Distance(n: nat, k: nat): (r: nat)
    {
      var x := n * Unit(k) - b;
      if x < 0 then -x else x
    }

    ghost predicate NoneAccepted(k: nat)
    {
      forall n: nat :: !Accepted(n, k)
    }

    // n * 10^k is an accepted decimal nearest to b/d, and it is the even one
    // when another accepted decimal is as near.
    ghost predicate Nearest(n: nat, k: nat)
    {
      forall n': nat :: Accepted(n', k) ==>
        Distance(n, k) <= Distance(n', k) && (n' != n && Distance(n, k) == Distance(n', k) ==> n % 2 == 0)
    }

    ghost predicate ShortestNearest(output: nat, removed: nat)
      requires Valid()
    {
      && Accepted(output, removed)
      && NoneAccepted(removed + 1)
      && (removed > 0 ==> Nearest(output, removed))
      && (removed == 0 ==> output == if Accepted(Vr(), 0) then Vr() else Vr() + 1)
    }
  }

  // The decimals n * 10^k that are accepted, in terms of the stripped digits.
  lemma AcceptedIff(i: Interval, n: nat, k: nat)
    requires i.Valid()
    ensures var least := if i.VmIsTrailingZeros() && i.Vm() % Pow(10, k) == 0 then 0 else 1;
            i.Accepted(n, k) <==> i.Vm() / Pow(10, k) + least <= n <= i.Vp() / Pow(10, k)
  {
    AcceptedFromBelow(i, n, k);
    AcceptedFromAbove(i, n, k);
  }

  lemma AcceptedFromBelow(i: Interval, n: nat, k: nat)
    requires i.Valid()
    ensures (if i.accept then i.a <= n * i.Unit(k) else i.a < n * i.Unit(k)) <==>
      i.Vm() / Pow(10, k) + (if i.VmIsTrailingZeros() && i.Vm() % Pow(10, k) == 0 then 0 else 1) <= n
  {
    hide Pow;
    var p := Pow(10, k);
    DivDiv(i.a, i.d, p);
    ModProduct(i.a, i.d, p);
    ZeroDigits(i.Vm() % p, i.a % i.d, i.d);
    assert i.d * p == i.Unit(k);
    AboveQuotient(i.a, i.Unit(k), n);
  }

  lemma ZeroDigits(high: int, low: int, d: nat)
    requires high >= 0 && low >= 0 && d > 0
    ensures high * d + low == 0 <==> high == 0 && low == 0
  {
    if high > 0 {
      MulAtLeast(high, d);
    }
  }

  lemma AboveQuotient(x: nat, u: nat, n: nat)
    requires u > 0
    ensures x < n * u <==> x / u < n
    ensures x <= n * u <==> x / u < n || (x / u == n && x % u == 0)
  {
    DivAtLeast(x, u, n);
    DivMod(x, u);
    if x / u < n {
    } else if x / u > n {
      DistributeSub(x / u, n, u);
      MulAtLeast(x / u - n, u);
    }
  }

  lemma AcceptedFromAbove(i: Interval, n: nat, k: nat)
    requires i.Valid()
    ensures (if i.accept then n * i.Unit(k) <= i.c else n * i.Unit(k) < i.c) <==> n <= i.Vp() / Pow(10, k)
    ensures i.Vp() >= 0
  {
    hide Pow;
    var p, top := Pow(10, k), if i.accept then i.c else i.c - 1;
    TopQuotient(i);
    DivDiv(top, i.d, p);
    assert i.d * p == i.Unit(k);
    DivAtLeast(top, i.Unit(k), n);
  }

  lemma TopQuotient(i: Interval)
    requires i.Valid()
    ensures i.Vp() == (if i.accept then i.c else i.c - 1) / i.d
    ensures 0 <= i.Vr() <= i.Vp()
  {
    if !i.accept {
      if i.c % i.d == 0 {
        BelowMultiple(i.c, i.d);
      } else {
        BelowOther(i.c, i.d);
      }
    }
    DivAtLeast(i.b, i.d, 0);
    DivMonotone(i.b, if i.accept then i.c else i.c - 1, i.d);
  }

  lemma BelowMultiple(c: int, d: int)
    requires d > 0 && c % d == 0
    ensures (c - 1) / d == c / d - 1
  {
    DivMod(c, d);
    DistributeSub(c / d, 1, d);
    DivUnique(c - 1, d, c / d - 1, d - 1);
  }

  lemma BelowOther(c: int, d: int)
    requires d > 0 && c % d != 0
    ensures (c - 1) / d == c / d
  {
    DivMod(c, d);
    DivUnique(c - 1, d, c / d, c % d - 1);
  }

  // The loop state after k digits have been removed.  lastRemoved is the digit
  // removed last, and vrZeros says that everything below that digit is zero.
  ghost predicate Stripped(i: Interval, k: nat, vr: nat, vp: nat, vm: nat, vmZeros: bool, vrZeros: bool,
                           lastRemoved: nat)
    requires i.Valid()
  {
    && vr == i.Vr() / Pow(10, k)
    && vp == i.Vp() / Pow(10, k)
    && vm == i.Vm() / Pow(10, k)
    && vmZeros == (i.VmIsTrailingZeros() && i.Vm() % Pow(10, k) == 0)
    && vrZeros == (i.VrIsTrailingZeros() && (k > 0 ==> i.Vr() % Pow(10, k - 1) == 0))
    && lastRemoved == (if k == 0 then 0 else i.Vr() / Pow(10, k - 1) % 10)
  }

  lemma StripDigit(x: nat, k: nat)
    ensures x / Pow(10, k + 1) == x / Pow(10, k) / 10
    ensures x % Pow(10, k + 1) == x / Pow(10, k) % 10 * Pow(10, k) + x % Pow(10, k)
    ensures x % Pow(10, k + 1) == 0 <==> x / Pow(10, k) % 10 == 0 && x % Pow(10, k) == 0
  {
    var p := Pow(10, k);
    assert Pow(10, k + 1) == p * 10;
    hide Pow;
    DivDiv(x, p, 10);
    ModProduct(x, p, 10);
    ZeroDigits(x / p % 10, x % p, p);
  }

  lemma StripStep(i: Interval, k: nat, vr: nat, vp: nat, vm: nat, vmZeros: bool, vrZeros: bool, lastRemoved: nat)
    requires i.Valid() && Stripped(i, k, vr, vp, vm, vmZeros, vrZeros, lastRemoved)
    ensures Stripped(i, k + 1, vr / 10, vp / 10, vm / 10, vmZeros && vm % 10 == 0, vrZeros && lastRemoved == 0, vr % 10)
  {
    TopQuotient(i);
    hide Pow, Interval.Vm, Interval.Vr, Interval.Vp, Interval.VmIsTrailingZeros, Interval.VrIsTrailingZeros;
    StripDigit(i.Vr(), k);
    StripDigit(i.Vp(), k);
    StripDigit(i.Vm(), k);
    if k > 0 {
      StripDigit(i.Vr(), k - 1);
    } else {
      PowZero(i.Vr());
    }
  }

  lemma PowZero(x: int)
    ensures Pow(10, 0) == 1 && x % Pow(10, 0) == 0 && x / Pow(10, 0) == x
  {
  }

  // Where b lies between its two neighbours u and u + 1 in units of 10^k.
  lemma LastDigitDecides(i: Interval, k: nat, vr: nat, lastRemoved: nat, vrZeros: bool)
    requires i.Valid() && k > 0
    requires vr == i.Vr() / Pow(10, k)
    requires vrZeros == (i.VrIsTrailingZeros() && i.Vr() % Pow(10, k - 1) == 0)
    requires lastRemoved == i.Vr() / Pow(10, k - 1) % 10
    ensures 0 <= i.b - vr * i.Unit(k) < i.Unit(k)
    ensures lastRemoved >= 5 <==> 2 * (i.b - vr * i.Unit(k)) >= i.Unit(k)
    ensures lastRemoved == 5 && vrZeros <==> 2 * (i.b - vr * i.Unit(k)) == i.Unit(k)
  {
    var p, d := Pow(10, k - 1), i.d;
    var u := d * p;
    TenUnits(i, k);
    StripDigit(i.Vr(), k - 1);
    DivDiv(i.b, d, p);
    ModProduct(i.b, d, p);
    ZeroDigits(i.Vr() % p, i.b % d, d);
    hide Pow, Interval.Unit;
    SplitLastDigit(i.b, u, vr, lastRemoved);
    HalfUnit(i.b, u, vr, lastRemoved, i.b % u);
  }

  lemma TenUnits(i: Interval, k: nat)
    requires k > 0
    ensures i.Unit(k) == 10 * (i.d * Pow(10, k - 1))
  {
    PowStep(10, k);
    hide Pow;
    MulAssociate(10, Pow(10, k - 1), i.d);
  }

  lemma SplitLastDigit(b: nat, u: nat, vr: nat, digit: nat)
    requires u > 0 && b / u == 10 * vr + digit
    ensures b == (10 * vr + digit) * u + b % u && b % u < u
  {
    DivMod(b, u);
  }

  lemma LastDigitDecidesStripped(i: Interval, k: nat, vr: nat, vp: nat, vm: nat, vmZeros: bool, vrZeros: bool,
                                 lastRemoved: nat)
    requires i.Valid() && Stripped(i, k, vr, vp, vm, vmZeros, vrZeros, lastRemoved) && k > 0
    ensures 0 <= i.b - vr * i.Unit(k) < i.Unit(k)
    ensures lastRemoved >= 5 <==> 2 * (i.b - vr * i.Unit(k)) >= i.Unit(k)
    ensures lastRemoved == 5 && vrZeros <==> 2 * (i.b - vr * i.Unit(k)) == i.Unit(k)
  {
    LastDigitDecides(i, k, vr, lastRemoved, vrZeros);
  }

  lemma HalfUnit(b: nat, u: nat, vr: nat, digit: nat, rest: nat)
    requires b == (10 * vr + digit) * u + rest && rest < u && digit < 10
    ensures 0 <= b - vr * (10 * u) < 10 * u
    ensures digit >= 5 <==> 2 * (b - vr * (10 * u)) >= 10 * u
    ensures digit == 5 && rest == 0 <==> 2 * (b - vr * (10 * u)) == 10 * u
  {
    DistributeAdd(10 * vr, digit, u);
    MulAssociate(vr, 10, u);
    var off := b - vr * (10 * u);
    assert off == digit * u + rest;
    if digit >= 6 {
      MulMonotone(6, digit, u, u);
      MulMonotone(digit, 9, u, u);
    } else if digit <= 4 {
      MulMonotone(digit, 4, u, u);
    }
  }

  // Rounding up stays inside the interval, because the gap above is at least as
  // wide as the gap below.
  lemma RoundUpAccepted(i: Interval, k: nat, u: nat)
    requires i.Valid()
    requires if i.accept then i.a <= u * i.Unit(k) else i.a < u * i.Unit(k)
    requires i.Unit(k) <= 2 * (i.b - u * i.Unit(k)) && i.b - u * i.Unit(k) < i.Unit(k)
    ensures i.Accepted(u + 1, k)
  {
    DistributeAdd(u, 1, i.Unit(k));
  }

  // The two neighbours of b are nearer than every other multiple of the unit.
  lemma OnlyNeighbours(i: Interval, k: nat, u: nat, n: nat)
    requires 0 <= i.b - u * i.Unit(k) < i.Unit(k)
    ensures n < u ==> i.Distance(n, k) > i.Distance(u, k)
    ensures n > u + 1 ==> i.Distance(n, k) > i.Distance(u + 1, k)
    ensures i.Distance(u, k) == i.b - u * i.Unit(k)
    ensures i.Distance(u + 1, k) == i.Unit(k) - (i.b - u * i.Unit(k))
  {
    hide Interval.Unit;
    var w := i.Unit(k);
    DistributeAdd(u, 1, w);
    if n < u {
      DistributeSub(u, n, w);
      MulAtLeast(u - n, w);
    } else if n > u + 1 {
      DistributeSub(n, u + 1, w);
      MulAtLeast(n - (u + 1), w);
    }
  }

  lemma RoundedIsNearest(i: Interval, k: nat, u: nat, output: nat)
    requires i.Valid() && 0 <= i.b - u * i.Unit(k) < i.Unit(k)
    requires output == u || output == u + 1
    requires output == u ==> i.Accepted(u, k)
    requires output == u ==> 2 * (i.b - u * i.Unit(k)) <= i.Unit(k)
    requires output == u && 2 * (i.b - u * i.Unit(k)) == i.Unit(k) ==> u % 2 == 0
    requires output == u + 1 && 2 * (i.b - u * i.Unit(k)) <= i.Unit(k) && i.Accepted(u, k) ==>
               2 * (i.b - u * i.Unit(k)) == i.Unit(k) && (u + 1) % 2 == 0
    ensures i.Nearest(output, k)
  {
    hide Interval.Unit, Interval.Inside;
    forall n: nat | i.Accepted(n, k)
      ensures i.Distance(output, k) <= i.Distance(n, k)
      ensures n != output && i.Distance(output, k) == i.Distance(n, k) ==> output % 2 == 0
    {
      hide Interval.Distance;
      OnlyNeighbours(i, k, u, n);
      if n < u {
        AcceptedUpToB(i, k, u, n);
      }
    }
  }

  lemma AcceptedUpToB(i: Interval, k: nat, u: nat, n: nat)
    requires i.Valid() && i.Accepted(n, k) && n <= u && u * i.Unit(k) <= i.b
    ensures i.Accepted(u, k)
  {
    MulMonotone(n, u, i.Unit(k), i.Unit(k));
  }

  // The last lines of Step 4 turn the stripped state into the result.
  function Rounded(accept: bool, vr: nat, vm: nat, vmZeros: bool, vrZeros: bool, lastRemoved: nat): (output: nat)
  {
    var digit := if vrZeros && lastRemoved == 5 && vr % 2 == 0 then 4 else lastRemoved;
    if (vr == vm && (!accept || !vmZeros)) || digit >= 5 then vr + 1 else vr
  }

  lemma RoundedAccepted(i: Interval, k: nat, vr: nat, vp: nat, vm: nat, vmZeros: bool, vrZeros: bool, lastRemoved: nat)
    requires i.Valid() && Stripped(i, k, vr, vp, vm, vmZeros, vrZeros, lastRemoved)
    requires vm < vp || vmZeros
    ensures i.Accepted(Rounded(i.accept, vr, vm, vmZeros, vrZeros, lastRemoved), k)
    ensures vm <= vr <= vp
    ensures i.Accepted(vr, k) <==> vm < vr || vmZeros
    ensures vmZeros ==> i.accept
  {
    TopQuotient(i);
    DivMonotone(i.Vr(), i.Vp(), Pow(10, k));
    DivMonotone(i.a, i.b, i.d);
    DivMonotone(i.Vm(), i.Vr(), Pow(10, k));
    hide Pow, Interval.Vm, Interval.Vr, Interval.Vp, Interval.VrIsTrailingZeros, Interval.Accepted, Interval.Unit;
    AcceptedIff(i, vr, k);
    AcceptedIff(i, vr + 1, k);
    if lastRemoved >= 5 && (vm < vr || vmZeros) {
      LastDigitDecides(i, k, vr, lastRemoved, vrZeros);
      AcceptedFromBelow(i, vr, k);
      RoundUpAccepted(i, k, vr);
    }
  }

  lemma RoundedNearest(i: Interval, k: nat, vr: nat, vp: nat, vm: nat, vmZeros: bool, vrZeros: bool, lastRemoved: nat)
    requires i.Valid() && Stripped(i, k, vr, vp, vm, vmZeros, vrZeros, lastRemoved)
    requires k > 0 && (vm < vp || vmZeros)
    ensures i.Nearest(Rounded(i.accept, vr, vm, vmZeros, vrZeros, lastRemoved), k)
  {
    hide Interval.Accepted, Interval.Unit, Interval.Nearest, Stripped;
    RoundedAccepted(i, k, vr, vp, vm, vmZeros, vrZeros, lastRemoved);
    LastDigitDecidesStripped(i, k, vr, vp, vm, vmZeros, vrZeros, lastRemoved);
    RoundedIsNearest(i, k, vr, Rounded(i.accept, vr, vm, vmZeros, vrZeros, lastRemoved));
  }

  lemma NoLongerMultiple(i: Interval, k: nat, vr: nat, vp: nat, vm: nat, vmZeros: bool, vrZeros: bool, lastRemoved: nat)
    requires i.Valid() && Stripped(i, k, vr, vp, vm, vmZeros, vrZeros, lastRemoved)
    requires vp / 10 <= vm / 10 && (vmZeros ==> vm % 10 != 0)
    ensures i.NoneAccepted(k + 1)
  {
    StripStep(i, k, vr, vp, vm, vmZeros, vrZeros, lastRemoved);
    hide Pow, Interval.Vm, Interval.Vr, Interval.Vp, Interval.VrIsTrailingZeros, Interval.Accepted, Interval.Unit;
    var next := k + 1;
    forall n: nat
      ensures !i.Accepted(n, next)
    {
      AcceptedIff(i, n, next);
    }
  }

  lemma Finished(i: Interval, k: nat, vr: nat, vp: nat, vm: nat, vmZeros: bool, vrZeros: bool, lastRemoved: nat)
    requires i.Valid() && Stripped(i, k, vr, vp, vm, vmZeros, vrZeros, lastRemoved)
    requires vm < vp || vmZeros
    requires vp / 10 <= vm / 10 && (vmZeros ==> vm % 10 != 0)
    ensures i.ShortestNearest(Rounded(i.accept, vr, vm, vmZeros, vrZeros, lastRemoved), k)
    ensures Rounded(i.accept, vr, vm, vmZeros, vrZeros, lastRemoved) <= vp
  {
    RoundedAccepted(i, k, vr, vp, vm, vmZeros, vrZeros, lastRemoved);
    NoLongerMultiple(i, k, vr, vp, vm, vmZeros, vrZeros, lastRemoved);
    AcceptedIff(i, Rounded(i.accept, vr, vm, vmZeros, vrZeros, lastRemoved), k);
    hide Interval.Vm, Interval.Vp, Interval.Accepted, Interval.Unit, Interval.Nearest;
    if k > 0 {
      RoundedNearest(i, k, vr, vp, vm, vmZeros, vrZeros, lastRemoved);
    } else {
      PowZero(i.Vr());
    }
  }

  // --- flags that are not exact ---

  // What Step 3 hands over need not be exact.  An upper bound or a flag about an end point
  // that is no multiple of ten makes no difference, as long as the number is not next to
  // it.
  predicate CloseBounds(vr: nat, vm: nat, vp: nat, vmZeros: bool, exactVp: int, exactVmZeros: bool)
  {
    || (vp == exactVp && vmZeros == exactVmZeros)
    || (&& vm < vr && (vp == exactVp || (vp == exactVp + 1 && vp % 10 != 0))
        && (vmZeros == exactVmZeros || (!vmZeros && vm % 10 != 0)))
  }

  // Nor does a flag about digits that do not end in a single five.
  predicate CloseValue(vr: nat, lastRemoved: nat, vrZeros: bool, exactVrZeros: bool)
  {
    vrZeros == exactVrZeros || (lastRemoved != 5 && (lastRemoved != 0 || vr % 5 != 0))
  }

  predicate Close(vr: nat, vm: nat, lastRemoved: nat, vp: nat, vmZeros: bool, vrZeros: bool, exactVp: int,
                  exactVmZeros: bool, exactVrZeros: bool)
  {
    CloseBounds(vr, vm, vp, vmZeros, exactVp, exactVmZeros) && CloseValue(vr, lastRemoved, vrZeros, exactVrZeros)
  }

  ghost predicate Near(i: Interval, k: nat, vr: nat, vp: nat, vm: nat, vmZeros: bool, vrZeros: bool, lastRemoved: nat)
    requires i.Valid()
  {
    exists exactVp: nat, exactVm: bool, exactVr: bool ::
      && Stripped(i, k, vr, exactVp, vm, exactVm, exactVr, lastRemoved)
      && Close(vr, vm, lastRemoved, vp, vmZeros, vrZeros, exactVp, exactVm, exactVr)
  }

  lemma LastDigitByFive(x: nat)
    ensures x % 5 == x % 10 % 5
  {
    DivMod(x, 10);
    ModAddMultiple(x % 10, 2 * (x / 10), 5);
  }

  lemma SameTenth(x: int, y: int)
    requires y == x + 1 && y % 10 != 0
    ensures x / 10 == y / 10
  {
    DivMod(y, 10);
    DivUnique(x, 10, y / 10, y % 10 - 1);
  }

  // Removing a digit makes the bounds exact.
  lemma CloseStep(vr: nat, vm: nat, lastRemoved: nat, vp: nat, vmZeros: bool, vrZeros: bool, exactVp: nat,
                  exactVmZeros: bool, exactVrZeros: bool)
    requires Close(vr, vm, lastRemoved, vp, vmZeros, vrZeros, exactVp, exactVmZeros, exactVrZeros)
    ensures Close(vr / 10, vm / 10, vr % 10, vp / 10, vmZeros && vm % 10 == 0, vrZeros && lastRemoved == 0,
                  exactVp / 10, exactVmZeros && vm % 10 == 0, exactVrZeros && lastRemoved == 0)
  {
    if vp != exactVp {
      SameTenth(exactVp, vp);
    }
    LastDigitByFive(vr);
  }

  lemma NearStep(i: Interval, k: nat, vr: nat, vp: nat, vm: nat, vmZeros: bool, vrZeros: bool, lastRemoved: nat)
    requires i.Valid() && Near(i, k, vr, vp, vm, vmZeros, vrZeros, lastRemoved)
    ensures Near(i, k + 1, vr / 10, vp / 10, vm / 10, vmZeros && vm % 10 == 0, vrZeros && lastRemoved == 0, vr % 10)
  {
    hide Stripped, Close;
    var exactVp: nat, exactVm: bool, exactVr: bool :|
      && Stripped(i, k, vr, exactVp, vm, exactVm, exactVr, lastRemoved)
      && Close(vr, vm, lastRemoved, vp, vmZeros, vrZeros, exactVp, exactVm, exactVr);
    StripStep(i, k, vr, exactVp, vm, exactVm, exactVr, lastRemoved);
    CloseStep(vr, vm, lastRemoved, vp, vmZeros, vrZeros, exactVp, exactVm, exactVr);
  }

  lemma FinishedNear(i: Interval, k: nat, vr: nat, vp: nat, vm: nat, vmZeros: bool, vrZeros: bool, lastRemoved: nat)
    requires i.Valid() && Near(i, k, vr, vp, vm, vmZeros, vrZeros, lastRemoved)
    requires vm < vp || vmZeros
    requires vp / 10 <= vm / 10 && (vmZeros ==> vm % 10 != 0)
    ensures i.ShortestNearest(Rounded(i.accept, vr, vm, vmZeros, vrZeros, lastRemoved), k)
    ensures Rounded(i.accept, vr, vm, vmZeros, vrZeros, lastRemoved) <= vp
  {
    hide Stripped, Interval.ShortestNearest;
    var exactVp: nat, exactVm: bool, exactVr: bool :|
      && Stripped(i, k, vr, exactVp, vm, exactVm, exactVr, lastRemoved)
      && Close(vr, vm, lastRemoved, vp, vmZeros, vrZeros, exactVp, exactVm, exactVr);
    StrippedOrder(i, k, vr, exactVp, vm, exactVm, exactVr, lastRemoved);
    DivMonotone(exactVp, vp, 10);
    Finished(i, k, vr, exactVp, vm, exactVm, exactVr, lastRemoved);
  }

  lemma NearOrder(i: Interval, k: nat, vr: nat, vp: nat, vm: nat, vmZeros: bool, vrZeros: bool, lastRemoved: nat)
    requires i.Valid() && Near(i, k, vr, vp, vm, vmZeros, vrZeros, lastRemoved)
    ensures vr <= vp
  {
    hide Stripped;
    var exactVp: nat, exactVm: bool, exactVr: bool :|
      && Stripped(i, k, vr, exactVp, vm, exactVm, exactVr, lastRemoved)
      && Close(vr, vm, lastRemoved, vp, vmZeros, vrZeros, exactVp, exactVm, exactVr);
    StrippedOrder(i, k, vr, exactVp, vm, exactVm, exactVr, lastRemoved);
  }

  lemma StrippedOrder(i: Interval, k: nat, vr: nat, vp: nat, vm: nat, vmZeros: bool, vrZeros: bool, lastRemoved: nat)
    requires i.Valid() && Stripped(i, k, vr, vp, vm, vmZeros, vrZeros, lastRemoved)
    ensures vr <= vp
  {
    TopQuotient(i);
    DivMonotone(i.Vr(), i.Vp(), Pow(10, k));
  }

  // The branch taken when vm or vr is exact (lines 1814-1856, and 1125-1155 for float).
  // The k0 digits that are gone already are those of a finer scale.
  method GeneralBranch(ghost i: Interval, ghost k0: nat, vr0: U64, vp0: U64, vm0: U64, accept: bool, vmExact: bool,
                       vrExact: bool, lastDigit: U32)
    returns (output: U64, removed: nat)
    requires i.Valid() && accept == i.accept && Near(i, k0, vr0, vp0, vm0, vmExact, vrExact, lastDigit)
    requires vm0 < vp0 && (vmExact ==> vm0 > 0)
    ensures i.ShortestNearest(output, k0 + removed) && output <= vp0
  {
    hide Div10, ModBy, Near, Interval.ShortestNearest, Interval.Valid;
    var vr: U64, vp: U64, vm: U64, vmZeros, vrZeros := vr0, vp0, vm0, vmExact, vrExact;
    var lastRemoved: U32 := lastDigit;
    removed := 0;
    while true
      invariant Near(i, k0 + removed, vr, vp, vm, vmZeros, vrZeros, lastRemoved)
      invariant vm < vp <= vp0 && (vmZeros ==> vm > 0)
      decreases vp
    {
      var vpDiv10, vmDiv10 := Div10(vp), Div10(vm);
      if vpDiv10 <= vmDiv10 {
        break;
      }
      var vmMod10 := ModBy(vm, 10, vmDiv10);
      var vrDiv10 := Div10(vr);
      var vrMod10 := ModBy(vr, 10, vrDiv10);
      NearStep(i, k0 + removed, vr, vp, vm, vmZeros, vrZeros, lastRemoved);
      vmZeros := vmZeros && vmMod10 == 0;
      vrZeros := vrZeros && lastRemoved == 0;
      lastRemoved := vrMod10;
      vr, vp, vm := vrDiv10, vpDiv10, vmDiv10;
      removed := removed + 1;
    }
    if vmZeros {
      while true
        invariant Near(i, k0 + removed, vr, vp, vm, vmZeros, vrZeros, lastRemoved)
        invariant vmZeros && vm > 0 && vp / 10 <= vm / 10 && vp <= vp0
        decreases vm
      {
        var vmDiv10 := Div10(vm);
        if ModBy(vm, 10, vmDiv10) != 0 {
          break;
        }
        var vpDiv10, vrDiv10 := Div10(vp), Div10(vr);
        var vrMod10 := ModBy(vr, 10, vrDiv10);
        NearStep(i, k0 + removed, vr, vp, vm, vmZeros, vrZeros, lastRemoved);
        vrZeros := vrZeros && lastRemoved == 0;
        lastRemoved := vrMod10;
        vr, vp, vm := vrDiv10, vpDiv10, vmDiv10;
        removed := removed + 1;
      }
    }
    FinishedNear(i, k0 + removed, vr, vp, vm, vmZeros, vrZeros, lastRemoved);
    if vrZeros && lastRemoved == 5 && vr % 2 == 0 {
      lastRemoved := 4;
    }
    output := if (vr == vm && (!accept || !vmZeros)) || lastRemoved >= 5 then vr + 1 else vr;
  }

  // Before any digit is removed.
  lemma StartNear(i: Interval, vp: nat, vmExact: bool, vrExact: bool)
    requires i.Valid()
    requires Close(i.Vr(), i.Vm(), 0, vp, vmExact, vrExact, i.Vp(), i.VmIsTrailingZeros(), i.VrIsTrailingZeros())
    ensures Near(i, 0, i.Vr(), vp, i.Vm(), vmExact, vrExact, 0)
  {
    StartState(i);
    hide Close, Stripped;
  }

  lemma StartState(i: Interval)
    requires i.Valid()
    ensures 0 <= i.Vp() && Stripped(i, 0, i.Vr(), i.Vp(), i.Vm(), i.VmIsTrailingZeros(), i.VrIsTrailingZeros(), 0)
  {
    TopQuotient(i);
    PowZero(i.Vr());
    PowZero(i.Vp());
    PowZero(i.Vm());
  }

  lemma StripTwo(i: Interval, vr: nat, vp: nat, vm: nat)
    requires i.Valid() && Near(i, 0, vr, vp, vm, false, false, 0)
    ensures Near(i, 2, vr / 100, vp / 100, vm / 100, false, false, vr / 10 % 10)
    ensures vr % 100 >= 50 <==> vr / 10 % 10 >= 5
  {
    hide Near, Interval.Valid;
    TwoDigits(vr);
    TwoDigits(vp);
    TwoDigits(vm);
    NearStep(i, 0, vr, vp, vm, false, false, 0);
    NearStep(i, 1, vr / 10, vp / 10, vm / 10, false, false, vr % 10);
  }

  lemma TwoDigits(x: nat)
    ensures x / 10 / 10 == x / 100 && (x % 100 >= 50 <==> x / 10 % 10 >= 5)
  {
    DivDiv(x, 10, 10);
    ModProduct(x, 10, 10);
  }

  // The branch taken when neither vm nor vr is exact (lines 1858-1890): two
  // digits go at once when possible, and only the rounding decision is kept.
  method CommonBranch(ghost i: Interval, vr0: U64, vp0: U64, vm0: U64) returns (output: U64, removed: nat)
    requires i.Valid() && Near(i, 0, vr0, vp0, vm0, false, false, 0) && vm0 < vp0
    ensures i.ShortestNearest(output, removed)
  {
    hide Div10, Div100, ModBy, Near, Interval.ShortestNearest, Interval.Valid;
    var vr, vp, vm := vr0, vp0, vm0;
    var roundUp := false;
    ghost var lastRemoved: nat := 0;
    removed := 0;
    var vpDiv100, vmDiv100 := Div100(vp), Div100(vm);
    if vpDiv100 > vmDiv100 {
      var vrDiv100 := Div100(vr);
      var vrMod100 := ModBy(vr, 100, vrDiv100);
      StripTwo(i, vr, vp, vm);
      roundUp := vrMod100 >= 50;
      lastRemoved := vr / 10 % 10;
      vr, vp, vm := vrDiv100, vpDiv100, vmDiv100;
      removed := removed + 2;
    }
    while true
      invariant Near(i, removed, vr, vp, vm, false, false, lastRemoved)
      invariant roundUp == (lastRemoved >= 5)
      invariant vm < vp
      decreases vp
    {
      var vpDiv10, vmDiv10 := Div10(vp), Div10(vm);
      if vpDiv10 <= vmDiv10 {
        break;
      }
      var vrDiv10 := Div10(vr);
      var vrMod10 := ModBy(vr, 10, vrDiv10);
      NearStep(i, removed, vr, vp, vm, false, false, lastRemoved);
      roundUp := vrMod10 >= 5;
      lastRemoved := vrMod10;
      vr, vp, vm := vrDiv10, vpDiv10, vmDiv10;
      removed := removed + 1;
    }
    FinishedNear(i, removed, vr, vp, vm, false, false, lastRemoved);
    output := if vr == vm || roundUp then vr + 1 else vr;
  }

  // The same for float, one digit at a time (lines 1157-1168).
  method FloatCommonBranch(ghost i: Interval, ghost k0: nat, vr0: U32, vp0: U32, vm0: U32, lastDigit: U32)
    returns (output: U32, removed: nat)
    requires i.Valid() && Near(i, k0, vr0, vp0, vm0, false, false, lastDigit) && vm0 < vp0
    ensures i.ShortestNearest(output, k0 + removed)
  {
    hide Near, Interval.ShortestNearest, Interval.Valid;
    var vr, vp, vm, lastRemoved := vr0, vp0, vm0, lastDigit;
    removed := 0;
    while vp / 10 > vm / 10
      invariant Near(i, k0 + removed, vr, vp, vm, false, false, lastRemoved)
      invariant vm < vp
      decreases vp
    {
      NearStep(i, k0 + removed, vr, vp, vm, false, false, lastRemoved);
      lastRemoved := vr % 10;
      vr, vp, vm := vr / 10, vp / 10, vm / 10;
      removed := removed + 1;
    }
    FinishedNear(i, k0 + removed, vr, vp, vm, false, false, lastRemoved);
    output := if vr == vm || lastRemoved >= 5 then vr + 1 else vr;
  }

  // Every multiple of a higher power of ten is a multiple of this one.
  lemma HigherMultiple(i: Interval, n: nat, k: nat, k': nat)
    requires k <= k'
    ensures n * i.Unit(k') == n * Pow(10, k' - k) * i.Unit(k)
  {
    PowAdd(10, k' - k, k);
    hide Pow;
    MulAssociate(Pow(10, k' - k), Pow(10, k), i.d);
    MulAssociate(n, Pow(10, k' - k), i.Unit(k));
  }

  lemma NoneAcceptedBeyond(i: Interval, n: nat, k: nat, k': nat)
    requires i.NoneAccepted(k) && k <= k'
    ensures !i.Accepted(n, k')
  {
    HigherMultiple(i, n, k, k');
    assert !i.Accepted(n * Pow(10, k' - k), k);
  }

  // The specification leaves no choice, so two branches that meet it agree.
  lemma ShortestNearestUnique(i: Interval, n: nat, k: nat, n': nat, k': nat)
    requires i.Valid() && i.ShortestNearest(n, k) && i.ShortestNearest(n', k')
    ensures k == k' && n == n'
  {
    if k < k' {
      NoneAcceptedBeyond(i, n', k + 1, k');
    } else if k' < k {
      NoneAcceptedBeyond(i, n, k' + 1, k);
    } else if k > 0 {
      EquallyNear(i, n, n', k);
    }
  }

  // Only the two neighbours of b can tie, and one of them is odd.
  lemma EquallyNear(i: Interval, n: nat, n': nat, k: nat)
    requires i.Valid() && i.Accepted(n, k) && i.Accepted(n', k) && i.Nearest(n, k) && i.Nearest(n', k)
    ensures n == n'
  {
    var w := i.Unit(k);
    var u := i.b / w;
    DivMod(i.b, w);
    DivAtLeast(i.b, w, 0);
    OnlyNeighbours(i, k, u, n);
    OnlyNeighbours(i, k, u, n');
    NeighbourAccepted(i, k, u, n);
    NeighbourAccepted(i, k, u, n');
    hide Interval.Distance, Interval.Accepted, Interval.Unit;
  }

  // An accepted decimal has an accepted neighbour of b on its own side.
  lemma NeighbourAccepted(i: Interval, k: nat, u: nat, n: nat)
    requires i.Valid() && i.Accepted(n, k) && 0 <= i.b - u * i.Unit(k) < i.Unit(k)
    ensures n <= u ==> i.Accepted(u, k)
    ensures n > u ==> i.Accepted(u + 1, k)
  {
    hide Interval.Unit;
    if n <= u {
      MulMonotone(n, u, i.Unit(k), i.Unit(k));
    } else {
      DistributeAdd(u, 1, i.Unit(k));
      MulMonotone(u + 1, n, i.Unit(k), i.Unit(k));
    }
  }

  // --- decimals of any exponent ---

  // The interval in units of 10^e.
  function AtScale(i: Interval, e: int): (r: Interval)
    requires i.Valid()
    ensures r.Valid() && r.accept == i.accept
  {
    var up, down := Pow(10, Above(-e)), Pow(10, Above(e));
    ScaledValid(i, up, down);
    Interval(i.a * up, i.b * up, i.c * up, i.d * down, i.accept)
  }

  lemma ScaledValid(i: Interval, up: nat, down: nat)
    requires i.Valid() && up > 0 && down > 0
    ensures Interval(i.a * up, i.b * up, i.c * up, i.d * down, i.accept).Valid()
  {
    MulAtLeast(i.d, down);
    DistributeSub(i.b, i.a, up);
    DistributeSub(i.c, i.b, up);
    MulAtLeast(i.b - i.a, up);
    MulMonotone(i.b - i.a, i.c - i.b, up, up);
    MulAtLeast(i.c - i.b, up);
  }

  // n * 10^k is accepted, for any integer k.
  ghost predicate AcceptedAt(i: Interval, n: nat, k: int)
    requires i.Valid()
  {
    AtScale(i, k).Accepted(n, 0)
  }

  ghost predicate NoneAcceptedAt(i: Interval, k: int)
    requires i.Valid()
  {
    forall n: nat :: !AcceptedAt(i, n, k)
  }

  // n * 10^k is nearest to b/d among the accepted multiples of 10^k, ties being even.
  ghost predicate ClosestAt(i: Interval, n: nat, k: int)
    requires i.Valid()
  {
    AtScale(i, k).Nearest(n, 0)
  }

  // n is one of the two multiples of 10^k next to b/d.
  ghost predicate NextTo(i: Interval, n: nat, k: int)
    requires i.Valid()
  {
    var s := AtScale(i, k);
    n == s.b / s.d || n == s.b / s.d + 1
  }

  lemma ScaleZero(i: Interval)
    requires i.Valid()
    ensures AtScale(i, 0) == i
  {
    assert Pow(10, 0) == 1;
  }

  // Two intervals that differ by a factor t, at points that differ by it.
  ghost predicate Multiplied(i: Interval, j: Interval, t: nat, u: nat)
  {
    t > 0 && i.a == j.a * t && i.b == j.b * t && i.c == j.c * t && u == j.d * t && i.accept == j.accept
  }

  lemma ScaleFactor(i: Interval, e: int, r: nat)
    requires i.Valid()
    ensures Multiplied(AtScale(i, e), AtScale(i, e + r), Pow(10, Above(-e) - Above(-(e + r))), AtScale(i, e).Unit(r))
  {
    var x := Above(-e) - Above(-(e + r));
    PowAdd(10, Above(-(e + r)), x);
    PowAdd(10, r, Above(e));
    PowAdd(10, Above(e + r), x);
    hide Pow;
    var up, t := Pow(10, Above(-(e + r))), Pow(10, x);
    MulAssociate(i.a, up, t);
    MulAssociate(i.b, up, t);
    MulAssociate(i.c, up, t);
    SameUnit(i.d, Pow(10, r), Pow(10, Above(e)), Pow(10, Above(e + r)), t);
  }

  lemma SameUnit(d: int, r: int, down: int, down': int, t: int)
    requires r * down == down' * t
    ensures r * (d * down) == d * down' * t
  {
    MulAssociate(r, d, down);
    MulAssociate(d, r, down);
    MulAssociate(d, down', t);
  }

  lemma CompareScaled(x: int, y: int, t: int)
    requires t > 0
    ensures x * t <= y * t <==> x <= y
    ensures x * t < y * t <==> x < y
    ensures x * t == y * t <==> x == y
  {
    if x < y {
      DistributeSub(y, x, t);
      MulAtLeast(y - x, t);
    } else if y < x {
      DistributeSub(x, y, t);
      MulAtLeast(x - y, t);
    }
  }

  lemma MultipliedInside(i: Interval, j: Interval, t: nat, u: nat, n: nat)
    requires Multiplied(i, j, t, u)
    ensures i.Inside(n * u) <==> j.Inside(n * j.d)
    ensures n * u == n * j.d * t
  {
    MulAssociate(n, j.d, t);
    CompareScaled(j.a, n * j.d, t);
    CompareScaled(n * j.d, j.c, t);
  }

  lemma UnitZero(i: Interval)
    ensures i.Unit(0) == i.d
  {
    assert Pow(10, 0) == 1;
  }

  // The same decimal, seen from another scale.
  lemma Rescale(i: Interval, e: int, r: nat, n: nat)
    requires i.Valid()
    ensures AtScale(i, e).Accepted(n, r) <==> AcceptedAt(i, n, e + r)
  {
    hide Pow, AtScale, Interval.Unit, Interval.Inside;
    ScaleFactor(i, e, r);
    UnitZero(AtScale(i, e + r));
    MultipliedInside(AtScale(i, e), AtScale(i, e + r), Pow(10, Above(-e) - Above(-(e + r))), AtScale(i, e).Unit(r), n);
  }

  lemma RescaleNone(i: Interval, e: int, r: nat)
    requires i.Valid()
    ensures AtScale(i, e).NoneAccepted(r) <==> NoneAcceptedAt(i, e + r)
  {
    hide AtScale, Interval.Accepted;
    var s, k := AtScale(i, e), e + r;
    forall n: nat ensures s.Accepted(n, r) <==> AcceptedAt(i, n, k) {
      Rescale(i, e, r, n);
    }
    if s.NoneAccepted(r) {
      forall n: nat ensures !AcceptedAt(i, n, k) {
        assert !s.Accepted(n, r);
      }
    } else {
      var n: nat :| s.Accepted(n, r);
      assert AcceptedAt(i, n, k);
    }
  }

  lemma RescaleDistance(i: Interval, j: Interval, t: nat, u: nat, k: nat, n: nat)
    requires Multiplied(i, j, t, u) && u == i.Unit(k)
    ensures i.Distance(n, k) == j.Distance(n, 0) * t
  {
    UnitZero(j);
    hide Interval.Unit;
    MultipliedInside(i, j, t, u, n);
    DistributeSub(n * j.d, j.b, t);
    DistributeSub(j.b, n * j.d, t);
  }

  lemma RescaleNearest(i: Interval, e: int, r: nat, n: nat)
    requires i.Valid() && AtScale(i, e).Nearest(n, r)
    ensures ClosestAt(i, n, e + r)
  {
    var s, s', t := AtScale(i, e), AtScale(i, e + r), Pow(10, Above(-e) - Above(-(e + r)));
    ScaleFactor(i, e, r);
    hide Pow, AtScale, Interval.Accepted;
    RescaleDistance(s, s', t, s.Unit(r), r, n);
    forall n': nat | s'.Accepted(n', 0)
      ensures s'.Distance(n, 0) <= s'.Distance(n', 0)
      ensures n' != n && s'.Distance(n, 0) == s'.Distance(n', 0) ==> n % 2 == 0
    {
      assert AcceptedAt(i, n', e + r);
      Rescale(i, e, r, n');
      RescaleDistance(s, s', t, s.Unit(r), r, n');
      CompareScaled(s'.Distance(n, 0), s'.Distance(n', 0), t);
      hide Interval.Distance;
    }
  }

  // A multiple of a higher power of ten is a multiple of this one.
  lemma HigherAccepted(i: Interval, n: nat, k: int, k': int)
    requires i.Valid() && k <= k' && AcceptedAt(i, n, k')
    ensures AcceptedAt(i, n * Pow(10, k' - k), k)
  {
    hide AtScale, Pow, Interval.Unit, Interval.Inside;
    var r: nat, s := k' - k, AtScale(i, k);
    assert k + r == k';
    Rescale(i, k, r, n);
    HigherMultiple(s, n, 0, r);
    assert s.Accepted(n, r) && s.Accepted(n * Pow(10, r), 0);
  }

  // No accepted decimal with any exponent has fewer digits.
  lemma NoShorterAt(i: Interval, output: nat, k: int, n: nat, k': int, digits: nat)
    requires i.Valid() && AcceptedAt(i, output, k) && NoneAcceptedAt(i, k + 1)
    requires n > 0 && AcceptedAt(i, n, k') && n < Pow(10, digits)
    ensures output < Pow(10, digits)
  {
    hide AtScale, Pow, Interval.Accepted, AcceptedAt;
    if k' > k {
      HigherAccepted(i, n, k + 1, k');
    } else if Pow(10, digits) <= output {
      PowerBetweenAt(i, output, k, n, k', digits);
    }
  }

  lemma PowerBetweenAt(i: Interval, output: nat, k: int, n: nat, k': int, digits: nat)
    requires i.Valid() && AcceptedAt(i, output, k) && AcceptedAt(i, n, k') && k' <= k
    requires 0 < n < Pow(10, digits) <= output
    ensures !NoneAcceptedAt(i, k + 1)
  {
    Rescale(i, k', k - k', output);
    RescaleNone(i, k', k - k' + 1);
    hide AtScale, Pow, Interval.Accepted;
    PowerBetween(AtScale(i, k'), output, k - k', n, 0, digits);
  }

  // In particular none that Step 4 could have returned.
  lemma NoShorterDecimal(i: Interval, output: nat, removed: nat, n: nat, k: int, digits: nat)
    requires i.Valid() && i.ShortestNearest(output, removed)
    requires n > 0 && AcceptedAt(i, n, k) && n < Pow(10, digits)
    ensures output < Pow(10, digits)
  {
    hide AtScale, Pow, Interval.Accepted;
    ScaleZero(i);
    Rescale(i, 0, removed, output);
    RescaleNone(i, 0, removed + 1);
    NoShorterAt(i, output, removed, n, k, digits);
  }

  lemma PowerBetween(i: Interval, output: nat, removed: nat, n: nat, k: nat, digits: nat)
    requires i.Accepted(output, removed) && i.Accepted(n, k) && 0 < n < Pow(10, digits) <= output
    requires k <= removed
    ensures !i.NoneAccepted(removed + 1)
  {
    var next := removed + 1;
    ShiftDigit(i, digits, removed);
    MulMonotone(Pow(10, digits), output, i.Unit(removed), i.Unit(removed));
    PowExponentMonotone(10, k, removed);
    MulMonotone(Pow(10, k), Pow(10, removed), i.d, i.d);
    MulMonotone(n, Pow(10, digits), i.Unit(k), i.Unit(removed));
    assert i.Accepted(Pow(10, digits - 1), next) by {
      hide Pow, Interval.Unit;
    }
  }

  lemma ShiftDigit(i: Interval, digits: nat, k: nat)
    requires digits > 0
    ensures Pow(10, digits - 1) * i.Unit(k + 1) == Pow(10, digits) * i.Unit(k)
  {
    HigherMultiple(i, Pow(10, digits - 1), k, k + 1);
    assert Pow(10, 1) == 10;
  }

  // Step 4 as a whole, with its choice of branch.
  method Step4(ghost i: Interval, vr: U64, vp: U64, vm: U64, accept: bool, vmExact: bool, vrExact: bool)
    returns (output: U64, removed: nat)
    requires i.Valid() && accept == i.accept && Near(i, 0, vr, vp, vm, vmExact, vrExact, 0)
    requires vm < vp && (vmExact ==> vm > 0)
    ensures i.ShortestNearest(output, removed)
  {
    if vmExact || vrExact {
      output, removed := GeneralBranch(i, 0, vr, vp, vm, accept, vmExact, vrExact, 0);
    } else {
      output, removed := CommonBranch(i, vr, vp, vm);
    }
  }

  // Step 4 for float, which may start from a digit removed already.
  method FloatStep4(ghost i: Interval, ghost k0: nat, vr: U32, vp: U32, vm: U32, accept: bool, vmExact: bool,
                    vrExact: bool, lastDigit: U32)
    returns (output: U32, removed: nat)
    requires i.Valid() && accept == i.accept && Near(i, k0, vr, vp, vm, vmExact, vrExact, lastDigit)
    requires vm < vp && (vmExact ==> vm > 0)
    ensures i.ShortestNearest(output, k0 + removed)
  {
    if vmExact || vrExact {
      output, removed := GeneralBranch(i, k0, vr, vp, vm, accept, vmExact, vrExact, lastDigit);
    } else {
      output, removed := FloatCommonBranch(i, k0, vr, vp, vm, lastDigit);
    }
  }

  // Running both branches on an input of the common one gives one result.
  method CompareBranches(ghost i: Interval, vr: U64, vp: U64, vm: U64, accept: bool)
    returns (general: (U64, nat), common: (U64, nat))
    requires i.Valid() && accept == i.accept && Near(i, 0, vr, vp, vm, false, false, 0) && vm < vp
    ensures general == common && i.ShortestNearest(common.0, common.1)
  {
    var n, k := GeneralBranch(i, 0, vr, vp, vm, accept, false, false, 0);
    var n', k' := CommonBranch(i, vr, vp, vm);
    ShortestNearestUnique(i, n, k, n', k');
    general, common := (n, k), (n', k');
  }

  // Step 2: the interval of the number m * num / den, in units of a quarter of
  // the gap above it.  The gap below is half as wide when mmShift is off.
  function RoundingInterval(m: nat, mmShift: bool, num: nat, den: nat): (i: Interval)
    requires m > 0 && num > 0 && den > 0
    ensures i.Valid()
  {
    var mv, mp, mm := 4 * m, 4 * m + 2, 4 * m - 1 - (if mmShift then 1 else 0);
    DistributeSub(mv, mm, num);
    DistributeSub(mp, mv, num);
    MulAtLeast(mv - mm, num);
    Interval(mm * num, mv * num, mp * num, 4 * den, m % 2 == 0)
  }
}
