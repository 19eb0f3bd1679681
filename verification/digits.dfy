/** Numbers written in a base: values, powers, and uniqueness of spelling. */
module Digits {

  function Pow(base: nat, n: nat): nat {
    if n == 0 then 1 else base * Pow(base, n - 1)
  }

  /** The number big-endian digits spell. */
  function Value(base: nat, digits: seq<nat>): nat {
    if digits == [] then 0 else Value(base, digits[..|digits| - 1]) * base + digits[|digits| - 1]
  }

  ghost predicate AreDigits(base: nat, digits: seq<nat>) {
    forall i :: 0 <= i < |digits| ==> digits[i] < base
  }

  /** The number of leading zero digits. */
  function Zeros(digits: seq<nat>): nat
    ensures Zeros(digits) <= |digits|
    ensures forall i :: 0 <= i < Zeros(digits) ==> digits[i] == 0
    ensures Zeros(digits) < |digits| ==> digits[Zeros(digits)] != 0
  {
    if digits == [] || digits[0] != 0 then 0 else 1 + Zeros(digits[1..])
  }

  function Repeat(d: nat, n: nat): (r: seq<nat>)
    ensures |r| == n && forall i :: 0 <= i < n ==> r[i] == d
  {
    seq(n, i => d)
  }

  lemma {:induction false} PowPositive(base: nat, n: nat)
    requires base > 0
    ensures Pow(base, n) > 0
    decreases n
  {
    if n > 0 {
      PowPositive(base, n - 1);
    }
  }

  lemma {:induction false} PowAdd(base: nat, m: nat, n: nat)
    ensures Pow(base, m + n) == Pow(base, m) * Pow(base, n)
    decreases m
  {
    if m > 0 {
      PowAdd(base, m - 1, n);
      MulAssociates(base, Pow(base, m - 1), Pow(base, n));
    }
  }

  lemma MulAssociates(a: nat, b: nat, c: nat)
    ensures a * (b * c) == (a * b) * c
  {
  }

  lemma MulGrows(a: nat, b: nat, c: nat)
    requires a <= b
    ensures a * c <= b * c && c * a <= c * b
  {
  }

  lemma {:induction false} PowMul(base: nat, m: nat, n: nat)
    ensures Pow(base, m * n) == Pow(Pow(base, m), n)
    decreases n
  {
    if n > 0 {
      PowMul(base, m, n - 1);
      assert m * n == m + m * (n - 1);
      PowAdd(base, m, m * (n - 1));
    }
  }

  lemma {:induction false} PowExponentGrows(base: nat, m: nat, n: nat)
    requires base > 0 && m <= n
    ensures Pow(base, m) <= Pow(base, n)
    decreases n
  {
    if m < n {
      PowExponentGrows(base, m, n - 1);
      MulGrows(1, base, Pow(base, n - 1));
    }
  }

  lemma {:induction false} PowBaseGrows(a: nat, b: nat, n: nat)
    requires a <= b
    ensures Pow(a, n) <= Pow(b, n)
    decreases n
  {
    if n > 0 {
      PowBaseGrows(a, b, n - 1);
      MulGrows(a, b, Pow(a, n - 1));
      MulGrows(Pow(a, n - 1), Pow(b, n - 1), b);
    }
  }

  lemma {:induction false} PowBaseGrowsStrictly(a: nat, b: nat, n: nat)
    requires a < b && n > 0
    ensures Pow(a, n) < Pow(b, n)
    decreases n
  {
    if n > 1 {
      PowBaseGrowsStrictly(a, b, n - 1);
      MulGrows(a, b, Pow(a, n - 1));
      MulStrict(b, Pow(a, n - 1), Pow(b, n - 1));
    } else {
      assert Pow(a, 0) == 1 && Pow(b, 0) == 1;
    }
  }

  lemma MulStrict(c: nat, a: nat, b: nat)
    requires c > 0 && a < b
    ensures c * a < c * b
  {
  }

  // ---- Values -------------------------------------------------------------

  lemma {:induction false} ValueBounded(base: nat, digits: seq<nat>)
    requires base > 0 && AreDigits(base, digits)
    ensures Value(base, digits) < Pow(base, |digits|)
    decreases |digits|
  {
    if digits != [] {
      var n := |digits| - 1;
      ValueBounded(base, digits[..n]);
      OneMoreDigit(base, Value(base, digits[..n]), digits[n], Pow(base, n));
    }
  }

  lemma OneMoreDigit(base: nat, v: nat, d: nat, bound: nat)
    requires v < bound && d < base
    ensures v * base + d < base * bound
  {
    MulGrows(v + 1, bound, base);
    assert (v + 1) * base == v * base + base;
  }

  lemma {:induction false} ValueConcat(base: nat, a: seq<nat>, b: seq<nat>)
    ensures Value(base, a + b) == Value(base, a) * Pow(base, |b|) + Value(base, b)
    decreases |b|
  {
    if b == [] {
      assert a + b == a;
    } else {
      var n := |b| - 1;
      assert (a + b)[..|a + b| - 1] == a + b[..n];
      ValueConcat(base, a, b[..n]);
      HornerStep(base, Value(base, a), Pow(base, n), Value(base, b[..n]), b[n]);
    }
  }

  lemma HornerStep(base: nat, v: nat, p: nat, w: nat, d: nat)
    ensures (v * p + w) * base + d == v * (base * p) + (w * base + d)
  {
    calc {
      (v * p + w) * base;
      (v * p) * base + w * base;
      v * (p * base) + w * base;
      v * (base * p) + w * base;
    }
  }

  lemma {:induction false} ZerosAreWorthless(base: nat, n: nat, b: seq<nat>)
    ensures Value(base, Repeat(0, n) + b) == Value(base, b)
  {
    ValueConcat(base, Repeat(0, n), b);
    RepeatedZero(base, n);
  }

  lemma {:induction false} RepeatedZero(base: nat, n: nat)
    ensures Value(base, Repeat(0, n)) == 0
    decreases n
  {
    if n > 0 {
      assert Repeat(0, n)[..n - 1] == Repeat(0, n - 1);
      RepeatedZero(base, n - 1);
    }
  }

  /** The head of a nonzero spelling bounds its value from below. */
  lemma LeadBounds(base: nat, digits: seq<nat>)
    requires base > 0 && digits != [] && digits[0] != 0
    ensures Value(base, digits) >= Pow(base, |digits| - 1)
  {
    assert digits == [digits[0]] + digits[1..];
    assert [digits[0]][..0] == [];
    assert Value(base, [digits[0]]) == digits[0];
    ValueConcat(base, [digits[0]], digits[1..]);
    MulGrows(1, digits[0], Pow(base, |digits| - 1));
  }

  lemma DivMod(base: nat, q: nat, r: nat, q': nat, r': nat)
    requires base > 0 && r < base && r' < base && q * base + r == q' * base + r'
    ensures q == q' && r == r'
  {
    if q < q' {
      MulGrows(q + 1, q', base);
    } else if q' < q {
      MulGrows(q' + 1, q, base);
    }
  }

  /** Spellings of the same length with the same value are the same. */
  lemma {:induction false} SameLengthUnique(base: nat, a: seq<nat>, b: seq<nat>)
    requires base > 0 && AreDigits(base, a) && AreDigits(base, b) && |a| == |b| && Value(base, a) == Value(base, b)
    ensures a == b
    decreases |a|
  {
    if a != [] {
      var n := |a| - 1;
      DivMod(base, Value(base, a[..n]), a[n], Value(base, b[..n]), b[n]);
      SameLengthUnique(base, a[..n], b[..n]);
      assert a == a[..n] + [a[n]] && b == b[..n] + [b[n]];
    }
  }

  /** Spellings without leading zeros are determined by their value. */
  lemma CanonicalUnique(base: nat, a: seq<nat>, b: seq<nat>)
    requires base > 1 && AreDigits(base, a) && AreDigits(base, b) && Zeros(a) == 0 && Zeros(b) == 0
    requires Value(base, a) == Value(base, b)
    ensures a == b
  {
    if |a| < |b| {
      ShorterIsSmaller(base, a, b);
    } else if |b| < |a| {
      ShorterIsSmaller(base, b, a);
    } else {
      SameLengthUnique(base, a, b);
    }
  }

  lemma ShorterIsSmaller(base: nat, a: seq<nat>, b: seq<nat>)
    requires base > 1 && AreDigits(base, a) && |a| < |b| && b[0] != 0
    ensures Value(base, a) < Value(base, b)
  {
    ValueBounded(base, a);
    LeadBounds(base, b);
    PowExponentGrows(base, |a|, |b| - 1);
  }

  /** A digit string is its leading zeros and the canonical rest. */
  lemma SplitZeros(digits: seq<nat>)
    ensures digits == Repeat(0, Zeros(digits)) + digits[Zeros(digits)..]
    ensures Zeros(digits[Zeros(digits)..]) == 0
  {
  }

  /** The same number of leading zeros and the same value make the same string. */
  lemma SpellingUnique(base: nat, a: seq<nat>, b: seq<nat>)
    requires base > 1 && AreDigits(base, a) && AreDigits(base, b)
    requires Zeros(a) == Zeros(b) && Value(base, a) == Value(base, b)
    ensures a == b
  {
    SplitZeros(a);
    SplitZeros(b);
    ZerosAreWorthless(base, Zeros(a), a[Zeros(a)..]);
    ZerosAreWorthless(base, Zeros(b), b[Zeros(b)..]);
    CanonicalUnique(base, a[Zeros(a)..], b[Zeros(b)..]);
  }

  // ---- Little-endian values -----------------------------------------------

  /** The number little-endian digits spell. */
  function LittleValue(base: nat, digits: seq<nat>): nat {
    if digits == [] then 0
    else LittleValue(base, digits[..|digits| - 1]) + digits[|digits| - 1] * Pow(base, |digits| - 1)
  }

  function Reversed(s: seq<nat>): (r: seq<nat>)
    ensures |r| == |s| && forall i :: 0 <= i < |s| ==> r[i] == s[|s| - 1 - i]
  {
    seq(|s|, i requires 0 <= i < |s| => s[|s| - 1 - i])
  }

  lemma LittleAppend(base: nat, digits: seq<nat>, d: nat)
    ensures LittleValue(base, digits + [d]) == LittleValue(base, digits) + d * Pow(base, |digits|)
  {
    assert (digits + [d])[..|digits|] == digits;
  }

  lemma {:induction false} ReversedValue(base: nat, digits: seq<nat>)
    ensures Value(base, Reversed(digits)) == LittleValue(base, digits)
    decreases |digits|
  {
    if digits == [] {
      assert Reversed(digits) == [];
    } else {
      var n := |digits| - 1;
      assert Reversed(digits) == [digits[n]] + Reversed(digits[..n]);
      assert [digits[n]][..0] == [] && Value(base, [digits[n]]) == digits[n];
      ValueConcat(base, [digits[n]], Reversed(digits[..n]));
      ReversedValue(base, digits[..n]);
    }
  }

  // ---- Base 58 needs fewer than 0.733 bytes a digit ------------------------

  lemma Times(base: nat, m: nat, n: nat, v: nat, w: nat)
    requires Pow(base, m) == v && Pow(base, n) == w
    ensures Pow(base, m + n) == v * w
  {
    PowAdd(base, m, n);
  }

  lemma PowOne(base: nat)
    ensures Pow(base, 1) == base
  {
    assert Pow(base, 0) == 1;
  }

  lemma SeventyFirstPower(base: nat, e: nat)
    requires base == 58 && e == 71
    ensures Pow(base, e) == 159730386663078066345306447337161584696769904898410078913243029577507397293846405390982563136983769384625594118558891106107392
  {
    PowOne(base);
    Times(base, 1, 1, 58, 58);
    Times(base, 2, 2, 3364, 3364);
    Times(base, 4, 4, 11316496, 11316496);
    Times(base, 8, 8, 128063081718016, 128063081718016);
    Times(base, 16, 16, 16400152899115243850138976256, 16400152899115243850138976256);
    Times(base, 32, 32, 268965015114358137726910587140455987105619365599731777536,
          268965015114358137726910587140455987105619365599731777536);
    Times(base, 64, 4, 72342179355466901471258927612150153907721848234316445933056526044582001260898145151856420451025374266490194231296, 11316496);
    Times(base, 68, 2, 818659983307423768631895769287186768096118664656249123135650444757408038940948816018402574608346843785239217057684258816, 3364);
    Times(base, 70, 1, 2753972183846173557677697367882096287875343187903622050228328096163920642997351817085906260982478782493544726182049846657024, 58);
  }

  lemma FiftySecondPower(base: nat, e: nat)
    requires base == 256 && e == 52
    ensures Pow(base, e) == 169230328010303641331690318856389386196071598838855992136870091590247882556495704531248437872567112920983350278405979725889536
  {
    PowOne(base);
    Times(base, 1, 1, 256, 256);
    Times(base, 2, 2, 65536, 65536);
    Times(base, 4, 4, 4294967296, 4294967296);
    Times(base, 8, 8, 18446744073709551616, 18446744073709551616);
    Times(base, 16, 16, 340282366920938463463374607431768211456, 340282366920938463463374607431768211456);
    Times(base, 32, 16, 115792089237316195423570985008687907853269984665640564039457584007913129639936, 340282366920938463463374607431768211456);
    Times(base, 48, 4, 39402006196394479212279040100143613805079739270465446667948293404245721771497210611414266254884915640806627990306816, 4294967296);
  }

  lemma FiftyEightToTheSeventyFirst()
    ensures Pow(58, 71) <= Pow(256, 52)
  {
    SeventyFirstPower(58, 71);
    FiftySecondPower(256, 52);
  }

  /** `k` base-58 digits fit in ceil(0.733 k) bytes, for every `k`: 58^71 < 256^52. */
  lemma DigitsFitBytes(k: nat, c: nat)
    requires 733 * k <= 1000 * c
    ensures Pow(58, k) <= Pow(256, c)
  {
    calc {
      Pow(Pow(58, k), 71);
      { PowMul(58, k, 71); }
      Pow(58, k * 71);
      { assert k * 71 == 71 * k; PowMul(58, 71, k); }
      Pow(Pow(58, 71), k);
      <= { FiftyEightToTheSeventyFirst(); PowBaseGrows(Pow(58, 71), Pow(256, 52), k); }
      Pow(Pow(256, 52), k);
      { PowMul(256, 52, k); }
      Pow(256, 52 * k);
      <= { PowExponentGrows(256, 52 * k, c * 71); }
      Pow(256, c * 71);
      { PowMul(256, c, 71); }
      Pow(Pow(256, c), 71);
    }
    if Pow(256, c) < Pow(58, k) {
      PowBaseGrowsStrictly(Pow(256, c), Pow(58, k), 71);
    }
  }

  /** A value of at least 256^length and below 58^k leaves room for one more byte
      in ceil(0.733 n) of them, n being at least k. */
  lemma RoomForByte(length: nat, value: nat, k: nat, n: nat, c: nat)
    requires Pow(256, length) <= value < Pow(58, k) && k <= n && 733 * n <= 1000 * c
    ensures length < c
  {
    DigitsFitBytes(k, c);
    if c <= length {
      PowExponentGrows(256, c, length);
    }
  }
}
