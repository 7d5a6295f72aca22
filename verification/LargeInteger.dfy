// _Large_integer_to_chars: printing a large float exactly, by repeated long
// division of a 128-bit integer by 10^9.
module LargeInteger {
  import opened Arith
  import opened Words
  import opened Digits

  // The number with the given places, least significant first.  The last place
  // may exceed the base.
  function Places(s: seq<nat>, base: nat): (v: nat)
  {
    if s == [] then 0 else s[0] + base * Places(s[1..], base)
  }

  lemma {:induction false} PlacesAppend(s: seq<nat>, x: nat, base: nat)
    ensures Places(s + [x], base) == Places(s, base) + x * Pow(base, |s|)
  {
    if s == [] {
      assert s + [x] == [x];
      assert Places([x][1..], base) == 0;
    } else {
      assert (s + [x])[1..] == s[1..] + [x];
      PlacesAppend(s[1..], x, base);
      PlacesStep(s, base);
      PlacesStep(s + [x], base);
      PowStep(base, |s|);
      hide Places, Pow;
      ShiftPlace(Places(s[1..], base), x, base, Pow(base, |s| - 1));
    }
  }

  lemma ShiftPlace(r: int, x: int, base: int, p: int)
    ensures base * (r + x * p) == base * r + x * (base * p)
  {
    DistributeAdd(r, x * p, base);
    MulAssociate(x, base, p);
    MulAssociate(base, x, p);
  }

  lemma PlacesStep(s: seq<nat>, base: nat)
    requires s != []
    ensures Places(s, base) == s[0] + base * Places(s[1..], base)
  {
  }

  // Splitting the last place in quotient and remainder adds a place.
  lemma SplitTop(s: seq<nat>, x: nat, base: nat)
    requires base > 0
    ensures Places(s + [x], base) == Places(s + [x % base] + [x / base], base)
  {
    hide Places, Pow;
    PlacesAppend(s, x, base);
    PlacesAppend(s, x % base, base);
    PlacesAppend(s + [x % base], x / base, base);
    DivMod(x, base);
    PowStep(base, |s| + 1);
    SplitTerm(x, x / base, x % base, base, Pow(base, |s|));
  }

  lemma SplitTerm(x: int, q: int, r: int, base: int, p: int)
    requires x == q * base + r
    ensures x * p == r * p + q * (base * p)
  {
    DistributeAdd(q * base, r, p);
    MulAssociate(q, base, p);
  }

  // --- the integer in 32-bit elements ---

  const BASE32 := 0x1_0000_0000

  function Elements(data: seq<U32>): (v: nat) { Places(data, BASE32) }

  lemma ElementsStep(data: seq<U32>, idx: nat)
    requires idx < |data|
    ensures Elements(data[idx..]) == data[idx] + BASE32 * Elements(data[idx + 1..])
  {
    assert data[idx..][1..] == data[idx + 1..];
  }

  lemma {:induction false} ElementsZero(data: seq<U32>, idx: nat)
    requires idx <= |data| && forall k :: idx <= k < |data| ==> data[k] == 0
    ensures Elements(data[idx..]) == 0
    decreases |data| - idx
  {
    if idx < |data| {
      ElementsStep(data, idx);
      ElementsZero(data, idx + 1);
    }
  }

  // One element of the long division.
  lemma DivideElement(rem: nat, element: U32, high: nat, newHigh: nat)
    requires rem < 1000000000 && high == newHigh * 1000000000 + rem
    ensures var x := rem * BASE32 + element;
            && x < 0x1_0000_0000_0000_0000 && x / 1000000000 < BASE32
            && element + BASE32 * high == (x / 1000000000 + BASE32 * newHigh) * 1000000000 + x % 1000000000
  {
  }

  // One pass of lines 1238-1260: divide by 10^9 in place, from the top element down.
  method DividePass(data: array<U32>, maxidx: nat) returns (quotient: U32, remainder: U32)
    requires data.Length == 4 && 1 <= maxidx < 4
    requires forall k :: maxidx < k < 4 ==> data[k] == 0
    requires data[maxidx] != 0
    modifies data
    ensures Elements(data[..]) == Elements(old(data[..])) / 1000000000
    ensures remainder == Elements(old(data[..])) % 1000000000
    ensures quotient == data[maxidx] && forall k :: maxidx < k < 4 ==> data[k] == 0
    ensures quotient == 0 ==> data[maxidx - 1] != 0
  {
    hide Elements;
    ghost var start := data[..];
    var top := data[maxidx];
    var rem: U64 := top % 1000000000;
    quotient := top / 1000000000;
    data[maxidx] := quotient;
    var idx := maxidx;
    TopElement(start, data[..], maxidx);
    while idx != 0
      invariant 0 <= idx <= maxidx && rem < 1000000000
      invariant data[..idx] == start[..idx]
      invariant forall k :: maxidx < k < 4 ==> data[k] == 0
      invariant data[maxidx] == quotient
      invariant Elements(start[idx..]) == Elements(data[..][idx..]) * 1000000000 + rem
      invariant idx == maxidx ==> rem == start[maxidx] % 1000000000
      invariant quotient == 0 && idx < maxidx ==> data[maxidx - 1] != 0
      decreases idx
    {
      ghost var before := data[..];
      idx := idx - 1;
      DivideElement(rem, data[idx], Elements(start[idx + 1..]), Elements(before[idx + 1..]));
      var x := rem * BASE32 + data[idx];
      var q := Low32(Div1e9(x));
      FitsQuotient(x / 1000000000);
      rem := ModBy(x, 1000000000, Div1e9(x));
      data[idx] := q;
      ElementsStep(start, idx);
      ElementsStep(data[..], idx);
      assert data[..][idx + 1..] == before[idx + 1..];
    }
    remainder := rem;
    assert start[0..] == start && data[..][0..] == data[..];
    DivUnique(Elements(start), 1000000000, Elements(data[..]), rem);
  }

  lemma FitsQuotient(q: nat)
    requires q < BASE32
    ensures Low32(q) == q
  {
  }

  lemma TopElement(start: seq<U32>, data: seq<U32>, maxidx: nat)
    requires |start| == 4 == |data| && maxidx < 4 && data == start[maxidx := start[maxidx] / 1000000000]
    requires forall k :: maxidx < k < 4 ==> start[k] == 0
    ensures Elements(start[maxidx..]) == Elements(data[maxidx..]) * 1000000000 + start[maxidx] % 1000000000
  {
    hide Elements;
    ElementsStep(start, maxidx);
    ElementsStep(data, maxidx);
    ElementsZero(start, maxidx + 1);
    ElementsZero(data, maxidx + 1);
  }

  // --- the initial representation ---

  // _Mantissa2 is a 24-bit significand with its leading bit set.
  predicate Significand(m: nat) { 0x80_0000 <= m < 0x100_0000 }

  lemma PowersUpTo32(b: nat)
    requires b <= 32
    ensures 0 < Pow(2, b) <= BASE32 && Pow(2, b) * Pow(2, 32 - b) == BASE32
  {
    PowAdd(2, b, 32 - b);
    Pow2At32();
    PowExponentMonotone(2, b, 32);
  }

  // Shifting by a whole number of elements plus b bits.
  lemma ShiftByElements(m: nat, k: nat, b: nat)
    ensures (m * Pow(2, b)) * Pow(BASE32, k) == m * Pow(2, 32 * k + b)
  {
    PowAdd(2, b, 32 * k);
    PowMul(2, 32, k);
    Pow2At32();
    hide Pow;
    MulAssociate(m, Pow(2, b), Pow(BASE32, k));
  }

  lemma TopIndex(e: nat)
    requires 0 < e <= 104
    ensures var maxidx := (24 + e + 31) / 32 - 1;
            maxidx < 4 && maxidx == if e % 32 <= 8 then e / 32 else e / 32 + 1
  {
  }

  lemma SmallShift(m: nat, b: nat)
    requires Significand(m) && b <= 8
    ensures 0 < m * Pow(2, b) < BASE32
  {
    PowExponentMonotone(2, b, 8);
    assert Pow(2, 8) == 256;
    MulMonotone(m, 0xFF_FFFF, Pow(2, b), 256);
    MulMonotone(1, m, 1, Pow(2, b));
  }

  // The two elements a significand that crosses a boundary falls into.
  lemma CrossingShift(m: nat, b: nat)
    requires Significand(m) && 8 < b < 32
    ensures 0 < m / Pow(2, 32 - b) < BASE32
    ensures m * Pow(2, b) == Low32(m * Pow(2, b)) + BASE32 * (m / Pow(2, 32 - b))
  {
    PowersUpTo32(b);
    PowExponentMonotone(2, 32 - b, 23);
    Pow2At23();
    hide Pow;
    Crossing(m, Pow(2, b), Pow(2, 32 - b));
  }

  lemma Crossing(m: nat, p: nat, r: nat)
    requires Significand(m) && p > 0 && 0 < r <= 0x80_0000 && p * r == BASE32
    ensures 0 < m / r < BASE32
    ensures m * p == Low32(m * p) + BASE32 * (m / r)
  {
    DivAtLeast(m, r, 1);
    DivAtLeast(m, r, m + 1);
    MulMonotone(1, r, m + 1, m + 1);
    DivCancel(m, r, p);
    LowAndHigh(m * p, m / r);
  }

  lemma LowAndHigh(x: nat, q: nat)
    requires x / BASE32 == q
    ensures x == Low32(x) + BASE32 * q
  {
  }

  lemma Pow2At23()
    ensures Pow(2, 23) == 0x80_0000
  {
    PowAdd(2, 12, 11);
  }

  lemma {:induction false} SingleElement(data: seq<U32>, k: nat)
    requires k < |data| && forall i :: 0 <= i < |data| && i != k ==> data[i] == 0
    ensures Elements(data) == data[k] * Pow(BASE32, k)
  {
    if k == 0 {
      ElementsZero(data, 1);
      assert data[0..] == data;
      ElementsStep(data, 0);
      assert Pow(BASE32, 0) == 1;
    } else {
      SingleElement(data[1..], k - 1);
      assert data[0..] == data;
      ElementsStep(data, 0);
      PowStep(BASE32, k);
      MulAssociate(data[k], BASE32, Pow(BASE32, k - 1));
      MulAssociate(BASE32, data[k], Pow(BASE32, k - 1));
    }
  }

  lemma {:induction false} TwoElements(data: seq<U32>, k: nat)
    requires k + 1 < |data| && forall i :: 0 <= i < |data| && i != k && i != k + 1 ==> data[i] == 0
    ensures Elements(data) == (data[k] + BASE32 * data[k + 1]) * Pow(BASE32, k)
  {
    assert data[0..] == data;
    ElementsStep(data, 0);
    if k == 0 {
      ElementsStep(data, 1);
      ElementsZero(data, 2);
      assert Pow(BASE32, 0) == 1;
    } else {
      TwoElements(data[1..], k - 1);
      var x := data[k] + BASE32 * data[k + 1];
      PowStep(BASE32, k);
      MulAssociate(x, BASE32, Pow(BASE32, k - 1));
      MulAssociate(BASE32, x, Pow(BASE32, k - 1));
    }
  }

  // Lines 1209-1222: the integer as four elements, and where its top one is.
  method Represent(m: U32, e: nat) returns (data: array<U32>, maxidx: nat)
    requires Significand(m) && 0 < e <= 104
    ensures fresh(data) && data.Length == 4 && maxidx < 4
    ensures Elements(data[..]) == m * Pow(2, e)
    ensures data[maxidx] != 0 && forall k :: maxidx < k < 4 ==> data[k] == 0
  {
    hide Elements, Pow;
    data := new U32[4](_ => 0);
    maxidx := (24 + e + 31) / 32 - 1;
    var shift := e % 32;
    TopIndex(e);
    ShiftByElements(m, e / 32, shift);
    if shift <= 8 {
      SmallShift(m, shift);
      data[maxidx] := m * Pow(2, shift);
      SingleElement(data[..], maxidx);
    } else {
      CrossingShift(m, shift);
      data[maxidx - 1] := Low32(m * Pow(2, shift));
      data[maxidx] := m / Pow(2, 32 - shift);
      TwoElements(data[..], maxidx - 1);
    }
  }

  // --- how far the division goes ---

  lemma {:induction false} LargeWhileTopIsSet(data: seq<U32>, k: nat)
    requires 0 < k < |data| && data[k] != 0
    ensures Elements(data) >= BASE32
  {
    assert data[0..] == data;
    ElementsStep(data, 0);
    if k > 1 {
      LargeWhileTopIsSet(data[1..], k - 1);
    } else {
      ElementsStep(data, 1);
    }
  }

  lemma {:induction false} TopPlaceBounds(s: seq<nat>, x: nat, base: nat)
    ensures x * Pow(base, |s|) <= Places(s + [x], base)
  {
    PlacesAppend(s, x, base);
  }

  // A 128-bit integer has filled at most three blocks while more than 32 bits are left.
  lemma BlocksLeft(s: seq<nat>, x: nat)
    requires Places(s + [x], 1000000000) < Pow(2, 128) && x >= BASE32
    ensures |s| < 4
  {
    TopPlaceBounds(s, x, 1000000000);
    FourBlocks();
    Pow2At128();
    if |s| >= 4 {
      PowExponentMonotone(1000000000, 4, |s|);
      hide Pow, Places;
      MulMonotone(BASE32, x, Pow(1000000000, 4), Pow(1000000000, |s|));
    }
  }

  lemma FourBlocks()
    ensures Pow(1000000000, 4) == 1000000000000000000000000000000000000
  {
    assert Pow(1000000000, 2) == 1000000000000000000;
    PowAdd(1000000000, 2, 2);
  }

  lemma Below128Bits(m: nat, e: nat)
    requires Significand(m) && e <= 104
    ensures m * Pow(2, e) < Pow(2, 128)
  {
    PowAdd(2, 24, 104);
    Pow2At24();
    PowExponentMonotone(2, e, 104);
    hide Pow;
    MulMonotone(m, 0xFF_FFFF, Pow(2, e), Pow(2, 104));
  }

  lemma Pow2At24()
    ensures Pow(2, 24) == 0x100_0000
  {
    Pow2At23();
    PowStep(2, 24);
  }

  // Lines 1226-1272: all digits below the first element, in blocks of nine.
  method DivideOut(data: array<U32>, maxidx0: nat, ghost v: nat) returns (blocks: array<U32>, filled: nat)
    requires data.Length == 4 && maxidx0 < 4 && Elements(data[..]) == v < Pow(2, 128)
    requires data[maxidx0] != 0 && forall k :: maxidx0 < k < 4 ==> data[k] == 0
    modifies data
    ensures fresh(blocks) && blocks.Length == 4 && filled <= 4 && forall k :: 0 <= k < filled ==> blocks[k] < 1000000000
    ensures data[0] != 0 && Places(blocks[..filled] + [data[0]], 1000000000) == v
  {
    hide Elements, Places, Pow;
    blocks := new U32[4](_ => 0);
    filled := 0;
    var maxidx: nat := maxidx0;
    NoBlocks(v);
    assert blocks[..0] + [v] == [v];
    while maxidx != 0
      invariant maxidx < 4 && filled <= 4
      invariant data[maxidx] != 0 && forall k :: maxidx < k < 4 ==> data[k] == 0
      invariant forall k :: 0 <= k < filled ==> blocks[k] < 1000000000
      invariant Places(blocks[..filled] + [Elements(data[..])], 1000000000) == v
      decreases maxidx, Elements(data[..])
    {
      LargeWhileTopIsSet(data[..], maxidx);
      BlocksLeft(blocks[..filled], Elements(data[..]));
      SplitTop(blocks[..filled], Elements(data[..]), 1000000000);
      var quotient, remainder := DividePass(data, maxidx);
      ghost var before := blocks[..filled];
      blocks[filled] := remainder;
      filled := filled + 1;
      assert blocks[..filled] == before + [remainder];
      if quotient == 0 {
        maxidx := maxidx - 1;
      }
    }
    assert data[..][0..] == data[..];
    ElementsStep(data[..], 0);
    ElementsZero(data[..], 1);
  }

  lemma NoBlocks(v: nat)
    ensures Places([v], 1000000000) == v
  {
    assert Places([v][1..], 1000000000) == 0;
  }

  // --- printing ---

  // What blocks[k..filled] and the first element stand for.
  ghost function Upper(blocks: seq<nat>, first: nat, k: nat): nat
    requires k <= |blocks|
  {
    Places(blocks[k..] + [first], 1000000000)
  }

  lemma UpperStep(blocks: seq<nat>, first: nat, k: nat)
    requires k < |blocks|
    ensures Upper(blocks, first, k) == Upper(blocks, first, k + 1) * 1000000000 + blocks[k]
  {
    var s := blocks[k..] + [first];
    assert s[1..] == blocks[k + 1..] + [first];
    PlacesStep(s, 1000000000);
  }

  lemma {:induction false} UpperLength(blocks: seq<nat>, first: nat, k: nat)
    requires k <= |blocks| && first > 0 && forall i :: 0 <= i < |blocks| ==> blocks[i] < 1000000000
    ensures Upper(blocks, first, k) > 0
    ensures DecimalLength(Upper(blocks, first, k)) == DecimalLength(first) + 9 * (|blocks| - k)
    decreases |blocks| - k
  {
    if k == |blocks| {
      assert blocks[k..] + [first] == [first];
      NoBlocks(first);
    } else {
      UpperLength(blocks, first, k + 1);
      UpperStep(blocks, first, k);
      hide Upper, DecimalLength;
      NineDigits();
      LengthAppend(Upper(blocks, first, k + 1), blocks[k], 9, 1000000000);
    }
  }

  method AppendBlocks(buf: array<char>, start: nat, olength: nat, blocks: seq<nat>, first: nat, ghost orig: string)
    returns (end: nat)
    requires olength == DecimalLength(first) && first > 0 && forall i :: 0 <= i < |blocks| ==> blocks[i] < 1000000000
    requires start + olength + 9 * |blocks| <= buf.Length
    requires |orig| == buf.Length && buf[..] == Splice(orig, start, Decimal(first))
    modifies buf
    ensures var text := Decimal(Upper(blocks, first, 0));
            start + |text| == end <= |orig| && buf[..] == Splice(orig, start, text)
  {
    hide Decimal, Upper, Splice, FixedDigits, DecimalLength;
    ghost var text := Decimal(first);
    UpperStart(blocks, first);
    end := start + olength;
    var idx: int := |blocks|;
    while idx > 0
      invariant 0 <= idx <= |blocks| && text == Decimal(Upper(blocks, first, idx))
      invariant end == start + |text| && |text| == DecimalLength(first) + 9 * (|blocks| - idx)
      invariant |orig| == buf.Length && buf[..] == Splice(orig, start, text)
      decreases idx
    {
      idx := idx - 1;
      UpperLength(blocks, first, idx + 1);
      UpperStep(blocks, first, idx);
      NineDigits();
      DecimalAppend(Upper(blocks, first, idx + 1), blocks[idx], 9);
      AppendNineDigits(blocks[idx], buf, end);
      SpliceTwo(orig, start, text, FixedDigits(blocks[idx], 9));
      text := text + FixedDigits(blocks[idx], 9);
      end := end + 9;
    }
  }

  lemma UpperStart(blocks: seq<nat>, first: nat)
    ensures Upper(blocks, first, |blocks|) == first
  {
    assert blocks[|blocks|..] + [first] == [first];
    NoBlocks(first);
  }

  /** _Large_integer_to_chars prints m * 2^e exactly, and fails, leaving the buffer
      alone, exactly when the decimal form does not fit. */
  method LargeIntegerToChars(buf: array<char>, first: nat, last: nat, m: U32, e: nat) returns (ok: bool, end: nat)
    requires first <= last <= buf.Length && Significand(m) && 0 < e <= 104
    modifies buf
    ensures ok <==> |Decimal(m * Pow(2, e))| <= last - first
    ensures ok ==> end == first + |Decimal(m * Pow(2, e))|
    ensures ok ==> buf[..] == Splice(old(buf[..]), first, Decimal(m * Pow(2, e)))
    ensures !ok ==> end == last && buf[..] == old(buf[..])
  {
    hide Elements, Places, Pow, Upper, Splice, FixedDigits;
    ghost var v := m * Pow(2, e);
    Below128Bits(m, e);
    var data, maxidx := Represent(m, e);
    var blocks, filled := DivideOut(data, maxidx, v);
    var lead := data[0];
    LeadLength(lead);
    var olength := if lead >= 1000000000 then 10 else DecimalLength9(lead);
    var total := olength + 9 * filled;
    var rest: seq<nat> := blocks[..filled];
    AllBlocks(rest, lead, v);
    if last - first < total {
      return false, last;
    }
    ghost var orig := buf[..];
    AppendNDigits(olength, lead, buf, first);
    end := AppendBlocks(buf, first, olength, rest, lead, orig);
    ok := true;
  }

  lemma LeadLength(lead: U32)
    ensures lead >= 1000000000 ==> DecimalLength(lead) == 10
  {
    LengthSteps(lead);
  }

  lemma AllBlocks(rest: seq<nat>, lead: nat, v: nat)
    requires Places(rest + [lead], 1000000000) == v && lead > 0
    requires forall i :: 0 <= i < |rest| ==> rest[i] < 1000000000
    ensures Upper(rest, lead, 0) == v && DecimalLength(v) == DecimalLength(lead) + 9 * |rest|
  {
    assert rest[0..] == rest;
    UpperLength(rest, lead, 0);
  }
}
