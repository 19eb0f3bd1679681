/** base58btc, three digits at a time: long division in place to encode, chunked
    multiplication into a preallocated buffer to decode. */
module Base58 {
  import opened Wrappers
  import opened Digits

  const ALPHABET := "123456789ABCDEFGHJKLMNPQRSTUVWXYZ" + "abcdefghijkmnopqrstuvwxyz"

  /** 58 cubed: the worth of three digits, divided out or multiplied in at once. */
  const CHUNK_BASE: nat := 195112

  const TWO_TO_26: nat := 0x400_0000

  type Byte = b: nat | b < 256

  // ---- The alphabet -------------------------------------------------------

  function Letter(d: nat): char
    requires d < 58
  {
    if d < 9 then '1' + d as char
    else if d < 17 then 'A' + (d - 9) as char
    else if d < 22 then 'J' + (d - 17) as char
    else if d < 33 then 'P' + (d - 22) as char
    else if d < 44 then 'a' + (d - 33) as char
    else 'm' + (d - 44) as char
  }

  /** The digit a character stands for, or -1 outside the alphabet. */
  function DigitOf(c: char): (d: int)
    ensures -1 <= d < 58 && (d >= 0 ==> Letter(d) == c)
  {
    if '1' <= c <= '9' then c as int - '1' as int
    else if 'A' <= c <= 'H' then c as int - 'A' as int + 9
    else if 'J' <= c <= 'N' then c as int - 'J' as int + 17
    else if 'P' <= c <= 'Z' then c as int - 'P' as int + 22
    else if 'a' <= c <= 'k' then c as int - 'a' as int + 33
    else if 'm' <= c <= 'z' then c as int - 'm' as int + 44
    else -1
  }

  lemma LetterRoundTrip(d: nat)
    requires d < 58
    ensures DigitOf(Letter(d)) == d
  {
  }

  lemma AlphabetIsLetters()
    ensures |ALPHABET| == 58 && forall d :: 0 <= d < 58 ==> ALPHABET[d] == Letter(d)
  {
    assert forall d :: 0 <= d < 9 ==> ALPHABET[d] == '1' + d as char;
    assert forall d :: 9 <= d < 17 ==> ALPHABET[d] == 'A' + (d - 9) as char;
    assert forall d :: 17 <= d < 22 ==> ALPHABET[d] == 'J' + (d - 17) as char;
    assert forall d :: 22 <= d < 33 ==> ALPHABET[d] == 'P' + (d - 22) as char;
    assert forall d :: 33 <= d < 44 ==> ALPHABET[d] == 'a' + (d - 33) as char;
    assert forall d :: 44 <= d < 58 ==> ALPHABET[d] == 'm' + (d - 44) as char;
  }

  predicate InAlphabet(text: string) {
    forall i :: 0 <= i < |text| ==> DigitOf(text[i]) >= 0
  }

  function DigitsOf(text: string): (digits: seq<nat>)
    requires InAlphabet(text)
    ensures |digits| == |text| && AreDigits(58, digits)
  {
    seq(|text|, i requires 0 <= i < |text| => DigitOf(text[i]) as nat)
  }

  function Letters(digits: seq<nat>): (text: string)
    requires AreDigits(58, digits)
    ensures |text| == |digits| && InAlphabet(text) && DigitsOf(text) == digits
  {
    var text := seq(|digits|, i requires 0 <= i < |digits| => Letter(digits[i]));
    assert forall i :: 0 <= i < |digits| ==> DigitOf(text[i]) == digits[i] by {
      forall i | 0 <= i < |digits| ensures DigitOf(text[i]) == digits[i] {
        LetterRoundTrip(digits[i]);
      }
    }
    text
  }

  // ---- What a spelling is -------------------------------------------------

  /** `text` spells `bytes`: as many leading '1's as leading zero bytes, and the
      same number. */
  ghost predicate Spells(text: string, bytes: seq<nat>) {
    InAlphabet(text) && Zeros(DigitsOf(text)) == Zeros(bytes) && Value(58, DigitsOf(text)) == Value(256, bytes)
  }

  /** Each byte string has one spelling. */
  lemma OneSpelling(s: string, t: string, bytes: seq<nat>)
    requires Spells(s, bytes) && Spells(t, bytes)
    ensures s == t
  {
    SpellingUnique(58, DigitsOf(s), DigitsOf(t));
    forall i | 0 <= i < |s| ensures |s| == |t| && s[i] == t[i] {
      assert DigitsOf(s)[i] == DigitsOf(t)[i];
      assert Letter(DigitOf(s[i])) == s[i] && Letter(DigitOf(t[i])) == t[i];
    }
    assert |s| == |DigitsOf(s)| && |t| == |DigitsOf(t)|;
  }

  /** Each spelling names one byte string. */
  lemma OneMeaning(text: string, a: seq<nat>, b: seq<nat>)
    requires Spells(text, a) && Spells(text, b) && AreDigits(256, a) && AreDigits(256, b)
    ensures a == b
  {
    SpellingUnique(256, a, b);
  }

  // ---- Encoding -----------------------------------------------------------

  method CountZeros(bytes: seq<nat>) returns (zeros: nat)
    ensures zeros == Zeros(bytes)
  {
    zeros := 0;
    while zeros < |bytes| && bytes[zeros] == 0
      invariant zeros <= |bytes| && Zeros(bytes) == zeros + Zeros(bytes[zeros..])
    {
      assert bytes[zeros..][1..] == bytes[zeros + 1..];
      zeros := zeros + 1;
    }
  }

  lemma DivisionStep(q: nat, r: nat, b: nat, accumulated: nat, quotient: nat)
    requires r < CHUNK_BASE && b < 256 && accumulated == r * 256 + b && quotient == accumulated / CHUNK_BASE
    ensures accumulated < TWO_TO_26 && quotient < 256 && accumulated - quotient * CHUNK_BASE < CHUNK_BASE
    ensures (q * CHUNK_BASE + r) * 256 + b == (q * 256 + quotient) * CHUNK_BASE + (accumulated - quotient * CHUNK_BASE)
  {
  }

  lemma SliceExtends(base: nat, s: seq<nat>, start: nat, i: nat)
    requires start <= i < |s|
    ensures Value(base, s[start..i + 1]) == Value(base, s[start..i]) * base + s[i]
  {
    assert s[start..i + 1][..i - start] == s[start..i];
  }

  /** One pass of long division: the number in place becomes its quotient by 58^3. */
  method DivideInPlace(number: array<nat>, start: nat) returns (remainder: nat)
    requires start <= number.Length && AreDigits(256, number[..])
    modifies number
    ensures AreDigits(256, number[..]) && number[..start] == old(number[..start])
    ensures remainder < CHUNK_BASE
    ensures Value(256, old(number[start..])) == Value(256, number[start..]) * CHUNK_BASE + remainder
  {
    remainder := 0;
    ghost var before := number[..];
    for index := start to number.Length
      invariant AreDigits(256, number[..]) && number[..start] == before[..start]
      invariant number[index..] == before[index..] && remainder < CHUNK_BASE
      invariant Value(256, before[start..index]) == Value(256, number[start..index]) * CHUNK_BASE + remainder
    {
      ghost var done := number[start..index];
      var b := number[index];
      assert b == number[index..][0] == before[index];
      var accumulated := remainder * 256 + b;
      var quotient := accumulated / CHUNK_BASE;
      DivisionStep(Value(256, done), remainder, b, accumulated, quotient);
      SliceExtends(256, before, start, index);
      number[index] := quotient;
      remainder := accumulated - quotient * CHUNK_BASE;
      assert number[start..index] == done;
      SliceExtends(256, number[..], start, index);
      assert number[..][start..index] == number[start..index];
      assert number[..][start..index + 1] == number[start..index + 1];
      assert number[index + 1..] == before[index + 1..];
    }
    assert before[start..number.Length] == before[start..];
    assert number[start..number.Length] == number[start..];
  }

  /** Moves past the leading zero bytes, which are worth nothing. */
  method SkipZeros(number: array<nat>, from: nat) returns (start: nat)
    requires from <= number.Length
    ensures from <= start <= number.Length && Value(256, number[start..]) == Value(256, number[from..])
    ensures start < number.Length ==> number[start] != 0
  {
    start := from;
    while start < number.Length && number[start] == 0
      invariant from <= start <= number.Length && Value(256, number[start..]) == Value(256, number[from..])
    {
      assert number[start..] == Repeat(0, 1) + number[start + 1..];
      ZerosAreWorthless(256, 1, number[start + 1..]);
      start := start + 1;
    }
  }

  lemma SplitChunk(r: nat)
    requires r < CHUNK_BASE
    ensures r == r % 58 + (r / 58 % 58) * 58 + (r / 3364) * 3364
    ensures r % 58 < 58 && r / 58 % 58 < 58 && r / 3364 < 58
  {
    var q := r / 58;
    assert r == q * 58 + r % 58 && q == (q / 58) * 58 + q % 58;
    assert q / 58 == r / 3364;
  }

  lemma AppendThree(digits: seq<nat>, a: nat, b: nat, c: nat)
    ensures LittleValue(58, digits + [a, b, c]) == LittleValue(58, digits) + (a + b * 58 + c * 3364) * Pow(58, |digits|)
    ensures Pow(58, |digits| + 3) == CHUNK_BASE * Pow(58, |digits|)
  {
    var p := Pow(58, |digits|);
    LittleAppend(58, digits, a);
    LittleAppend(58, digits + [a], b);
    LittleAppend(58, digits + [a] + [b], c);
    assert digits + [a, b, c] == digits + [a] + [b] + [c];
    NextPowers(|digits|);
    Regroup(a, b, c, p);
  }

  lemma NextPowers(n: nat)
    ensures Pow(58, n + 1) == 58 * Pow(58, n) && Pow(58, n + 2) == 58 * (58 * Pow(58, n))
    ensures Pow(58, n + 3) == CHUNK_BASE * Pow(58, n)
  {
    assert Pow(58, n + 2) == 58 * Pow(58, n + 1);
    assert Pow(58, n + 3) == 58 * Pow(58, n + 2);
  }

  lemma Regroup(a: nat, b: nat, c: nat, p: nat)
    ensures a * p + b * (58 * p) + c * (58 * (58 * p)) == (a + b * 58 + c * 3364) * p
  {
  }

  lemma QuotientStep(v: nat, q: nat, r: nat, p: nat, low: nat)
    requires v == (q * CHUNK_BASE + r) * p + low
    ensures v == q * (CHUNK_BASE * p) + (low + r * p)
  {
  }

  lemma QuotientShrinks(n: nat, q: nat, r: nat)
    requires n > 0 && n == q * CHUNK_BASE + r
    ensures q < n
  {
  }

  /** The three digits of one chunk, least significant first. */
  function ChunkDigits(r: nat): (digits: seq<nat>)
    requires r < CHUNK_BASE
    ensures AreDigits(58, digits)
  {
    SplitChunk(r);
    [r % 58, r / 58 % 58, r / 3364]
  }

  /** What is left of `v` once `digits` were divided out of it is `n`. */
  ghost predicate DividedTo(v: nat, n: nat, digits: seq<nat>) {
    v == n * Pow(58, |digits|) + LittleValue(58, digits)
  }

  lemma ChunkDivides(v: nat, n: nat, digits: seq<nat>, q: nat, r: nat)
    requires DividedTo(v, n, digits) && n == q * CHUNK_BASE + r && r < CHUNK_BASE
    ensures DividedTo(v, q, digits + ChunkDigits(r))
  {
    SplitChunk(r);
    AppendThree(digits, r % 58, r / 58 % 58, r / 3364);
    QuotientStep(v, q, r, Pow(58, |digits|), LittleValue(58, digits));
  }

  /** Divides out one chunk, and moves past the bytes that became zero. */
  method DivideChunk(number: array<nat>, from: nat) returns (start: nat, remainder: nat)
    requires from < number.Length && AreDigits(256, number[..]) && number[from] != 0
    modifies number
    ensures from <= start <= number.Length && AreDigits(256, number[..]) && (start < number.Length ==> number[start] != 0)
    ensures remainder < CHUNK_BASE
    ensures Value(256, old(number[from..])) == Value(256, number[start..]) * CHUNK_BASE + remainder
    ensures Value(256, number[start..]) < Value(256, old(number[from..]))
  {
    LeadBounds(256, number[from..]);
    PowPositive(256, number.Length - from - 1);
    ghost var n := Value(256, number[from..]);
    remainder := DivideInPlace(number, from);
    QuotientShrinks(n, Value(256, number[from..]), remainder);
    start := SkipZeros(number, from);
  }

  /** The base-58 digits of a big-endian number, least significant first, with
      the zero padding of the last chunk. The array is consumed. */
  method DivideOut(number: array<nat>) returns (digits: seq<nat>)
    requires AreDigits(256, number[..]) && (number.Length > 0 ==> number[0] != 0)
    modifies number
    ensures AreDigits(58, digits) && LittleValue(58, digits) == Value(256, old(number[..]))
  {
    digits := [];
    var start := 0;
    ghost var v := Value(256, number[..]);
    assert number[0..] == number[..];
    while start < number.Length
      invariant start <= number.Length && AreDigits(256, number[..]) && AreDigits(58, digits)
      invariant start < number.Length ==> number[start] != 0
      invariant DividedTo(v, Value(256, number[start..]), digits)
      decreases Value(256, number[start..])
    {
      ghost var n := Value(256, number[start..]);
      var remainder;
      start, remainder := DivideChunk(number, start);
      ChunkDivides(v, n, digits, Value(256, number[start..]), remainder);
      digits := digits + ChunkDigits(remainder);
    }
    assert number[start..] == [];
  }

  /** Drops the most significant zero digits. */
  method TrimTop(digits: seq<nat>) returns (end: nat)
    ensures end <= |digits| && (end > 0 ==> digits[end - 1] != 0)
    ensures LittleValue(58, digits[..end]) == LittleValue(58, digits)
  {
    end := |digits|;
    assert digits[..end] == digits;
    while end > 0 && digits[end - 1] == 0
      invariant end <= |digits| && LittleValue(58, digits[..end]) == LittleValue(58, digits)
    {
      assert digits[..end][..end - 1] == digits[..end - 1];
      end := end - 1;
    }
  }

  lemma ZerosOfConcat(zeros: nat, rest: seq<nat>)
    requires rest != [] ==> rest[0] != 0
    ensures Zeros(Repeat(0, zeros) + rest) == zeros
  {
    var all := Repeat(0, zeros) + rest;
    assert Zeros(all) >= zeros by {
      assert forall i :: 0 <= i < zeros ==> all[i] == 0;
    }
    assert rest != [] ==> all[zeros] == rest[0];
  }

  method Encode(bytes: seq<Byte>) returns (text: string)
    ensures Spells(text, bytes)
  {
    var zeros := CountZeros(bytes);
    var number := new nat[|bytes| - zeros](i requires 0 <= i < |bytes| - zeros => bytes[zeros + i]);
    assert number[..] == bytes[zeros..];
    var digits := DivideOut(number);
    var end := TrimTop(digits);
    var tail := digits[..end];
    var spelled := Repeat(0, zeros) + Reversed(tail);
    text := Letters(spelled);
    assert Zeros(spelled) == zeros by {
      ZerosOfConcat(zeros, Reversed(tail));
    }
    assert Value(58, spelled) == Value(256, bytes) by {
      ZerosAreWorthless(58, zeros, Reversed(tail));
      ReversedValue(58, tail);
      SplitZeros(bytes);
      ZerosAreWorthless(256, zeros, bytes[zeros..]);
    }
  }

  // ---- Decoding -----------------------------------------------------------

  /** The number a stretch of digits spells. */
  function Spelled(text: string, from: nat, to: nat): nat
    requires from <= to <= |text| && InAlphabet(text[from..to])
  {
    Value(58, DigitsOf(text[from..to]))
  }

  lemma SpelledConcat(text: string, a: nat, b: nat, c: nat)
    requires a <= b <= c <= |text| && InAlphabet(text[a..b]) && InAlphabet(text[b..c])
    ensures InAlphabet(text[a..c]) && Spelled(text, a, c) == Spelled(text, a, b) * Pow(58, c - b) + Spelled(text, b, c)
  {
    assert text[a..c] == text[a..b] + text[b..c];
    assert InAlphabet(text[a..c]);
    assert DigitsOf(text[a..c]) == DigitsOf(text[a..b]) + DigitsOf(text[b..c]);
    ValueConcat(58, DigitsOf(text[a..b]), DigitsOf(text[b..c]));
  }

  lemma SpelledOne(text: string, i: nat)
    requires i < |text| && DigitOf(text[i]) >= 0
    ensures InAlphabet(text[i..i + 1]) && Spelled(text, i, i + 1) == DigitOf(text[i])
  {
    var one := text[i..i + 1];
    var digits := [DigitOf(text[i]) as nat];
    assert DigitsOf(one) == digits;
    assert digits[..0] == [];
    assert Value(58, digits) == Value(58, digits[..0]) * 58 + digits[0];
  }

  lemma SpelledBounded(text: string, a: nat, b: nat)
    requires a <= b <= |text| && InAlphabet(text[a..b])
    ensures Spelled(text, a, b) < Pow(58, b - a)
  {
    ValueBounded(58, DigitsOf(text[a..b]));
  }

  lemma SmallPowers()
    ensures Pow(58, 0) == 1 && Pow(58, 1) == 58 && Pow(58, 2) == 3364 && Pow(58, 3) == CHUNK_BASE
  {
  }

  /** One chunk of up to three digits, or None at a character outside the alphabet. */
  method ParseChunk(text: string, offset: nat, width: nat) returns (value: Option<nat>)
    requires offset + width <= |text|
    ensures value.Some? <==> InAlphabet(text[offset..offset + width])
    ensures value.Some? ==> value.value == Spelled(text, offset, offset + width)
  {
    var v := 0;
    for position := 0 to width
      invariant InAlphabet(text[offset..offset + position])
      invariant v == Spelled(text, offset, offset + position)
    {
      var at := offset + position;
      var digit := DigitOf(text[at]);
      if digit < 0 {
        assert text[offset..offset + width][position] == text[at];
        return None;
      }
      SpelledOne(text, at);
      SpelledConcat(text, offset, at, at + 1);
      SmallPowers();
      v := v * 58 + digit;
    }
    return Some(v);
  }

  lemma CarryStep(number: nat, multiplier: nat, carry: nat, accumulated: nat)
    requires number < 256 && 1 <= multiplier <= CHUNK_BASE && carry < multiplier
    requires accumulated == number * multiplier + carry
    ensures accumulated < TWO_TO_26 && accumulated / 256 < multiplier
    ensures number > 0 && accumulated / 256 == 0 ==> accumulated % 256 > 0
  {
    MulGrows(number, 255, multiplier);
    assert accumulated < 256 * multiplier;
    if number > 0 {
      MulGrows(1, number, multiplier);
    }
  }

  lemma CarryValue(low: nat, carry: nat, p: nat, lowBefore: nat, m: nat, value: nat, d: nat, accumulated: nat)
    requires low + carry * p == lowBefore * m + value && accumulated == d * m + carry
    ensures low + (accumulated % 256) * p + (accumulated / 256) * (256 * p) == (lowBefore + d * p) * m + value
  {
    var q, r := accumulated / 256, accumulated % 256;
    assert q * 256 + r == accumulated;
    calc {
      r * p + q * (256 * p);
      (r + q * 256) * p;
      accumulated * p;
      (d * m + carry) * p;
      d * m * p + carry * p;
      (d * p) * m + carry * p;
    }
  }

  /** The low part of the product so far, with its carry, is the product. */
  ghost predicate Carried(before: seq<nat>, done: seq<nat>, m: nat, value: nat, carry: nat) {
    |done| <= |before| &&
    LittleValue(256, done) + carry * Pow(256, |done|) == LittleValue(256, before[..|done|]) * m + value
  }

  lemma CarryOn(before: seq<nat>, done: seq<nat>, m: nat, value: nat, carry: nat, low: nat, high: nat)
    requires Carried(before, done, m, value, carry) && |done| < |before|
    requires var accumulated := before[|done|] * m + carry; low == accumulated % 256 && high == accumulated / 256
    ensures Carried(before, done + [low], m, value, high)
  {
    var n := |done|;
    var d := before[n];
    CarryValue(LittleValue(256, done), carry, Pow(256, n), LittleValue(256, before[..n]), m, value, d, d * m + carry);
    LittleAppend(256, before[..n], d);
    assert before[..n + 1] == before[..n] + [d];
    LittleAppend(256, done, low);
    assert Pow(256, n + 1) == 256 * Pow(256, n);
  }

  /** Multiplies the little-endian number in place and adds a chunk's value; what
      does not fit is the carry. */
  method MultiplyAdd(number: array<nat>, length: nat, multiplier: nat, value: nat) returns (carry: nat)
    requires length <= number.Length && AreDigits(256, number[..length])
    requires 1 <= multiplier <= CHUNK_BASE && value < multiplier
    modifies number
    ensures AreDigits(256, number[..length]) && carry < multiplier
    ensures Carried(old(number[..length]), number[..length], multiplier, value, carry)
    ensures length > 0 && old(number[length - 1]) != 0 && carry == 0 ==> number[length - 1] != 0
  {
    carry := value;
    ghost var before := number[..length];
    for index := 0 to length
      invariant AreDigits(256, number[..index]) && carry < multiplier
      invariant forall j :: index <= j < length ==> number[j] == before[j]
      invariant Carried(before, number[..index], multiplier, value, carry)
      invariant index > 0 && before[index - 1] != 0 && carry == 0 ==> number[index - 1] != 0
    {
      ghost var done := number[..index];
      var low, high := CarryByte(number[index], multiplier, carry);
      CarryOn(before, done, multiplier, value, carry, low, high);
      number[index] := low;
      carry := high;
      assert number[..index + 1] == done + [low];
    }
    assert before[..length] == before;
  }

  /** One byte of the product: every intermediate stays below 2^26. */
  method CarryByte(number: nat, multiplier: nat, carry: nat) returns (low: nat, high: nat)
    requires number < 256 && 1 <= multiplier <= CHUNK_BASE && carry < multiplier
    ensures var accumulated := number * multiplier + carry;
            accumulated < TWO_TO_26 && low == accumulated % 256 && high == accumulated / 256
    ensures low < 256 && high < multiplier && (number != 0 && high == 0 ==> low != 0)
  {
    var accumulated := number * multiplier + carry;
    CarryStep(number, multiplier, carry, accumulated);
    low, high := accumulated % 256, accumulated / 256;
  }

  lemma PushValue(low: nat, carry: nat, p: nat)
    ensures low + carry * p == low + (carry % 256) * p + (carry / 256) * (256 * p)
  {
    CarryValue(low, carry, p, 0, 1, low + carry * p, 0, carry);
  }

  /** Writes the carry out as further bytes; the buffer has room for each of them. */
  method PushCarry(number: array<nat>, from: nat, rest: nat, ghost total: nat, ghost k: nat, ghost n: nat)
    returns (length: nat)
    requires from <= number.Length && AreDigits(256, number[..from])
    requires LittleValue(256, number[..from]) + rest * Pow(256, from) == total < Pow(58, k)
    requires k <= n && 733 * n <= 1000 * (number.Length - 1)
    requires rest == 0 && from > 0 ==> number[from - 1] != 0
    modifies number
    ensures length <= number.Length && AreDigits(256, number[..length])
    ensures LittleValue(256, number[..length]) == total
    ensures length > 0 ==> number[length - 1] != 0
  {
    length := from;
    var carry: nat := rest;
    while carry > 0
      invariant length <= number.Length && AreDigits(256, number[..length])
      invariant LittleValue(256, number[..length]) + carry * Pow(256, length) == total
      invariant carry == 0 && length > 0 ==> number[length - 1] != 0
      decreases carry
    {
      ghost var done, p := number[..length], Pow(256, length);
      MulGrows(1, carry, p);
      RoomForByte(length, total, k, n, number.Length - 1);
      PushValue(LittleValue(256, done), carry, p);
      LittleAppend(256, done, carry % 256);
      number[length] := carry % 256;
      assert number[..length + 1] == done + [carry % 256];
      assert Pow(256, length + 1) == 256 * p;
      length := length + 1;
      carry := carry / 256;
    }
  }

  /** The multiplier of a chunk: 58 to its width. */
  function Multiplier(width: nat): (m: nat)
    requires 1 <= width <= 3
    ensures m == Pow(58, width) && 1 <= m <= CHUNK_BASE
  {
    SmallPowers();
    if width == 3 then CHUNK_BASE else if width == 2 then 3364 else 58
  }

  /** Multiplies the number in place, adds a value and writes out the carry. */
  method FoldValue(number: array<nat>, before: nat, multiplier: nat, value: nat, ghost total: nat, ghost k: nat, ghost n: nat)
    returns (length: nat)
    requires before <= number.Length && AreDigits(256, number[..before]) && (before > 0 ==> number[before - 1] != 0)
    requires 1 <= multiplier <= CHUNK_BASE && value < multiplier
    requires LittleValue(256, number[..before]) * multiplier + value == total < Pow(58, k)
    requires k <= n && 733 * n <= 1000 * (number.Length - 1)
    modifies number
    ensures length <= number.Length && AreDigits(256, number[..length]) && (length > 0 ==> number[length - 1] != 0)
    ensures LittleValue(256, number[..length]) == total
  {
    ghost var was := number[..before];
    var carry := MultiplyAdd(number, before, multiplier, value);
    assert was[..before] == was;
    length := PushCarry(number, before, carry, total, k, n);
  }

  /** Reading one more chunk multiplies the number read so far and adds the chunk's. */
  lemma ChunkExtends(text: string, zeros: nat, offset: nat, width: nat)
    requires zeros <= offset && offset + width <= |text| && 1 <= width <= 3
    requires InAlphabet(text[zeros..offset]) && InAlphabet(text[offset..offset + width])
    ensures InAlphabet(text[zeros..offset + width]) && Spelled(text, offset, offset + width) < Multiplier(width)
    ensures Spelled(text, zeros, offset + width) ==
            Spelled(text, zeros, offset) * Multiplier(width) + Spelled(text, offset, offset + width)
    ensures Spelled(text, zeros, offset + width) < Pow(58, offset + width - zeros)
  {
    SpelledBounded(text, offset, offset + width);
    SpelledConcat(text, zeros, offset, offset + width);
    SpelledBounded(text, zeros, offset + width);
  }

  /** Folds one chunk into the number: the digits read so far grow by the chunk's. */
  method FoldChunk(text: string, zeros: nat, offset: nat, width: nat, value: nat, number: array<nat>, before: nat)
    returns (length: nat)
    requires offset + width <= |text| && 1 <= width <= 3 && InAlphabet(text[offset..offset + width])
    requires value == Spelled(text, offset, offset + width)
    requires before <= number.Length && Folded(text, zeros, offset, number[..before])
    requires 733 * (|text| - zeros) <= 1000 * (number.Length - 1)
    modifies number
    ensures length <= number.Length && Folded(text, zeros, offset + width, number[..length])
  {
    ChunkExtends(text, zeros, offset, width);
    length := FoldValue(number, before, Multiplier(width), value, Spelled(text, zeros, offset + width), offset + width - zeros, |text| - zeros);
  }

  method CountOnes(text: string) returns (zeros: nat)
    ensures zeros <= |text| && (forall i :: 0 <= i < zeros ==> text[i] == '1')
    ensures zeros < |text| ==> text[zeros] != '1'
  {
    zeros := 0;
    while zeros < |text| && text[zeros] == '1'
      invariant zeros <= |text| && forall i :: 0 <= i < zeros ==> text[i] == '1'
    {
      zeros := zeros + 1;
    }
  }

  lemma OnesAndRest(text: string, zeros: nat)
    requires zeros <= |text| && (forall i :: 0 <= i < zeros ==> text[i] == '1')
    requires zeros < |text| ==> text[zeros] != '1'
    ensures InAlphabet(text) <==> InAlphabet(text[zeros..])
    ensures InAlphabet(text) ==> Zeros(DigitsOf(text)) == zeros && Value(58, DigitsOf(text)) == Spelled(text, zeros, |text|)
  {
    assert forall i :: zeros <= i < |text| ==> text[zeros..][i - zeros] == text[i];
    if InAlphabet(text) {
      var rest := DigitsOf(text[zeros..]);
      assert text[zeros..|text|] == text[zeros..];
      assert DigitsOf(text) == Repeat(0, zeros) + rest;
      ZerosOfConcat(zeros, rest);
      ZerosAreWorthless(58, zeros, rest);
    }
  }

  lemma BadChunk(text: string, zeros: nat, offset: nat, width: nat)
    requires zeros <= offset && offset + width <= |text| && !InAlphabet(text[offset..offset + width])
    ensures !InAlphabet(text[zeros..])
  {
    var chunk := text[offset..offset + width];
    var i :| 0 <= i < |chunk| && DigitOf(chunk[i]) < 0;
    assert text[zeros..][offset - zeros + i] == chunk[i];
  }

  /** The chunk at an offset: the odd digits first, then three at a time. */
  function Width(total: nat, read: nat): (width: nat)
    requires read < total && (read > 0 ==> (total - read) % 3 == 0)
    ensures 1 <= width <= 3 && read + width <= total && (total - read - width) % 3 == 0
  {
    if read == 0 then if total % 3 == 0 then 3 else total % 3 else 3
  }

  function BufferSize(digits: nat): (size: nat)
    ensures size >= 1 && 733 * digits <= 1000 * (size - 1)
  {
    (digits * 733 + 999) / 1000 + 1
  }

  /** The buffer's first bytes are the number the digits read so far spell. */
  ghost predicate Folded(text: string, zeros: nat, offset: nat, little: seq<nat>) {
    zeros <= offset <= |text| && InAlphabet(text[zeros..offset]) && AreDigits(256, little) &&
    (little != [] ==> little[|little| - 1] != 0) && LittleValue(256, little) == Spelled(text, zeros, offset)
  }

  /** Reads one chunk into the number, or finds a character outside the alphabet. */
  method ReadChunk(text: string, zeros: nat, offset: nat, width: nat, number: array<nat>, before: nat)
    returns (length: Option<nat>)
    requires offset + width <= |text| && 1 <= width <= 3
    requires before <= number.Length && Folded(text, zeros, offset, number[..before])
    requires 733 * (|text| - zeros) <= 1000 * (number.Length - 1)
    modifies number
    ensures length.None? ==> !InAlphabet(text[zeros..])
    ensures length.Some? ==> length.value <= number.Length && Folded(text, zeros, offset + width, number[..length.value])
  {
    var value := ParseChunk(text, offset, width);
    if value.None? {
      BadChunk(text, zeros, offset, width);
      return None;
    }
    var read := FoldChunk(text, zeros, offset, width, value.value, number, before);
    return Some(read);
  }

  lemma NothingRead(text: string, zeros: nat)
    requires zeros <= |text|
    ensures Folded(text, zeros, zeros, [])
  {
    assert text[zeros..zeros] == [];
  }

  lemma AllRead(text: string, zeros: nat, little: seq<nat>)
    requires Folded(text, zeros, |text|, little)
    ensures InAlphabet(text[zeros..])
  {
    assert text[zeros..|text|] == text[zeros..];
  }

  /** The little-endian bytes of the number the digits after the leading '1's
      spell, without leading zeros of their own. */
  method DecodeNumber(text: string, zeros: nat) returns (little: Option<seq<nat>>)
    requires zeros <= |text|
    ensures little.Some? <==> InAlphabet(text[zeros..])
    ensures little.Some? ==> Folded(text, zeros, |text|, little.value)
  {
    var n := |text| - zeros;
    var number := new nat[BufferSize(n)];
    var length: nat := 0;
    var read: nat := 0;
    NothingRead(text, zeros);
    assert number[..0] == [];
    while read < n
      invariant read <= n && (read > 0 ==> (n - read) % 3 == 0)
      invariant length <= number.Length && Folded(text, zeros, zeros + read, number[..length])
    {
      var width := Width(n, read);
      var after := ReadChunk(text, zeros, zeros + read, width, number, length);
      if after.None? {
        return None;
      }
      length := after.value;
      read := read + width;
    }
    AllRead(text, zeros, number[..length]);
    return Some(number[..length]);
  }

  lemma Assembled(text: string, zeros: nat, little: seq<nat>)
    requires zeros <= |text| && InAlphabet(text) && InAlphabet(text[zeros..|text|])
    requires Zeros(DigitsOf(text)) == zeros && Value(58, DigitsOf(text)) == Spelled(text, zeros, |text|)
    requires Folded(text, zeros, |text|, little)
    ensures AreDigits(256, Repeat(0, zeros) + Reversed(little)) && Spells(text, Repeat(0, zeros) + Reversed(little))
  {
    var rest := Reversed(little);
    ReversedValue(256, little);
    assert Zeros(Repeat(0, zeros) + rest) == zeros by {
      ZerosOfConcat(zeros, rest);
    }
    assert Value(256, Repeat(0, zeros) + rest) == Value(256, rest) by {
      ZerosAreWorthless(256, zeros, rest);
    }
  }

  method Decode(text: string) returns (bytes: Option<seq<nat>>)
    ensures bytes.Some? <==> InAlphabet(text)
    ensures bytes.Some? ==> AreDigits(256, bytes.value) && Spells(text, bytes.value)
  {
    var zeros := CountOnes(text);
    OnesAndRest(text, zeros);
    var little := DecodeNumber(text, zeros);
    if little.None? {
      return None;
    }
    assert text[zeros..|text|] == text[zeros..];
    Assembled(text, zeros, little.value);
    return Some(Repeat(0, zeros) + Reversed(little.value));
  }

  // ---- Round trips --------------------------------------------------------

  /** Decoding what was encoded gives the bytes back. */
  method EncodeThenDecode(bytes: seq<Byte>) returns (back: Option<seq<nat>>)
    ensures back == Some(bytes)
  {
    var text := Encode(bytes);
    back := Decode(text);
    OneMeaning(text, back.value, bytes);
  }

  /** Encoding what was decoded gives the text back: no other string names those bytes. */
  method DecodeThenEncode(text: string) returns (back: Option<string>)
    ensures back == if InAlphabet(text) then Some(text) else None
  {
    var bytes := Decode(text);
    if bytes.None? {
      return None;
    }
    var same := AsBytes(bytes.value);
    assert same == bytes.value;
    var again := Encode(same);
    OneSpelling(text, again, same);
    back := Some(again);
  }

  function AsBytes(digits: seq<nat>): (bytes: seq<Byte>)
    requires AreDigits(256, digits)
    ensures |bytes| == |digits| && forall i :: 0 <= i < |digits| ==> bytes[i] == digits[i]
  {
    seq(|digits|, i requires 0 <= i < |digits| => digits[i])
  }
}
