/** Why an entry hash may stand for the number its multihash bytes spell:
    comparing the bytes, comparing the base58 strings, and comparing the numbers
    are one order. */
module ByteOrder {
  import opened Digits
  import opened Base58

  /** `a` comes before `b`: the first digit that differs is smaller, or `a` ends first. */
  predicate Before(a: seq<nat>, b: seq<nat>) {
    if b == [] then false
    else if a == [] then true
    else a[0] < b[0] || (a[0] == b[0] && Before(a[1..], b[1..]))
  }

  /** The byte comparison: negative, zero or positive as `a` comes before, equals
      or comes after `b`. */
  method CompareBytes(a: seq<Byte>, b: seq<Byte>) returns (order: int)
    ensures order < 0 <==> Before(a, b)
    ensures order == 0 <==> a == b
  {
    var length := if |a| < |b| then |a| else |b|;
    for index := 0 to length
      invariant a[..index] == b[..index]
      invariant Before(a, b) <==> Before(a[index..], b[index..])
    {
      var difference := a[index] as int - b[index] as int;
      assert a[index..][0] == a[index] && b[index..][0] == b[index];
      assert a[index..][1..] == a[index + 1..] && b[index..][1..] == b[index + 1..];
      if difference != 0 {
        return difference;
      }
    }
    assert |a| == |b| ==> a[..length] == a && b[..length] == b;
    order := |a| as int - |b| as int;
  }

  /** For strings of one length the order of digits is the order of numbers. */
  lemma {:induction false} BeforeIsLess(base: nat, a: seq<nat>, b: seq<nat>)
    requires base > 0 && AreDigits(base, a) && AreDigits(base, b) && |a| == |b|
    ensures Before(a, b) <==> Value(base, a) < Value(base, b)
    decreases |a|
  {
    if a != [] {
      SplitHead(base, a);
      SplitHead(base, b);
      ValueBounded(base, a[1..]);
      ValueBounded(base, b[1..]);
      BeforeIsLess(base, a[1..], b[1..]);
      HeadDecides(a[0], b[0], Value(base, a[1..]), Value(base, b[1..]), Pow(base, |a| - 1));
    }
  }

  lemma SplitHead(base: nat, a: seq<nat>)
    requires a != []
    ensures Value(base, a) == a[0] * Pow(base, |a| - 1) + Value(base, a[1..])
  {
    assert a == [a[0]] + a[1..];
    ValueConcat(base, [a[0]], a[1..]);
    assert [a[0]][..0] == [];
    assert Value(base, [a[0]]) == Value(base, [a[0]][..0]) * base + a[0];
  }

  lemma HeadDecides(x: nat, y: nat, v: nat, w: nat, p: nat)
    requires v < p && w < p
    ensures x * p + v < y * p + w <==> x < y || (x == y && v < w)
  {
    if x < y {
      MulGrows(x + 1, y, p);
      assert (x + 1) * p == x * p + p;
    } else if y < x {
      MulGrows(y + 1, x, p);
      assert (y + 1) * p == y * p + p;
    }
  }

  // ---- The hash strings ---------------------------------------------------

  /** The bytes of an entry's CID: version 1, dag-cbor, then the multihash. */
  function CidBytes(multihash: seq<Byte>): seq<Byte> { [1, 0x71] + multihash }

  const MULTIHASH_LENGTH := 66

  /** The number of base-58 digits of an entry's CID. */
  const CID_DIGITS: nat := 92

  lemma LettersAscend(d: nat, e: nat)
    requires d < e < 58
    ensures Letter(d) < Letter(e)
  {
  }

  /** Character order on strings. */
  predicate TextBefore(s: string, t: string) {
    if t == [] then false
    else if s == [] then true
    else s[0] < t[0] || (s[0] == t[0] && TextBefore(s[1..], t[1..]))
  }

  lemma {:induction false} TextBeforeIsBefore(s: string, t: string)
    requires InAlphabet(s) && InAlphabet(t)
    ensures TextBefore(s, t) <==> Before(DigitsOf(s), DigitsOf(t))
    decreases |s|
  {
    if s != [] && t != [] {
      var d, e := DigitOf(s[0]), DigitOf(t[0]);
      if d < e {
        LettersAscend(d, e);
      } else if e < d {
        LettersAscend(e, d);
      }
      assert DigitsOf(s)[1..] == DigitsOf(s[1..]) && DigitsOf(t)[1..] == DigitsOf(t[1..]);
      TextBeforeIsBefore(s[1..], t[1..]);
    }
  }

  lemma SixtySixthPower(base: nat, e: nat)
    requires base == 256 && e == 66
    ensures Pow(base, e) == 878694100496718043517683302282418331810487718418343092402491322775749527474899974671687634004666183037093927858109549828751614463963730408009475621262727315456
  {
    PowOne(base);
    Times(base, 1, 1, 256, 256);
    Times(base, 2, 2, 65536, 65536);
    Times(base, 4, 4, 4294967296, 4294967296);
    Times(base, 8, 8, 18446744073709551616, 18446744073709551616);
    Times(base, 16, 16, 340282366920938463463374607431768211456, 340282366920938463463374607431768211456);
    Times(base, 32, 32, 115792089237316195423570985008687907853269984665640564039457584007913129639936,
          115792089237316195423570985008687907853269984665640564039457584007913129639936);
    Times(base, 64, 2, 13407807929942597099574024998205846127479365820592393377723561443721764030073546976801874298166903427690031858186486050853753882811946569946433649006084096,
          65536);
  }

  lemma NinetyFirstPower(base: nat, e: nat)
    requires base == 58 && e == 91
    ensures Pow(base, e) == 29644724199368295988102054920540149823935264079524834914975939799231072844082693862654826796410056461247155042745631360826517540518719391939067512243559273070592
  {
    SeventyFirstPower(base, 71);
    PowOne(base);
    Times(base, 1, 1, 58, 58);
    Times(base, 2, 2, 3364, 3364);
    Times(base, 4, 4, 11316496, 11316496);
    Times(base, 8, 8, 128063081718016, 128063081718016);
    Times(base, 16, 4, 16400152899115243850138976256, 11316496);
    Times(base, 71, 20, 159730386663078066345306447337161584696769904898410078913243029577507397293846405390982563136983769384625594118558891106107392,
          185592264682226060569122324245118976);
  }

  /** A value between two successive powers fixes the number of digits. */
  lemma LengthFromBounds(base: nat, digits: seq<nat>, k: nat)
    requires base > 1 && AreDigits(base, digits) && Zeros(digits) == 0
    requires Pow(base, k) <= Value(base, digits) < Pow(base, k + 1)
    ensures |digits| == k + 1
  {
    if |digits| <= k {
      ValueBounded(base, digits);
      PowExponentGrows(base, |digits|, k);
    } else if |digits| > k + 1 {
      LeadBounds(base, digits);
      PowExponentGrows(base, k + 1, |digits| - 1);
    }
  }

  /** Every entry CID has 92 base-58 digits. */
  lemma CidTextLength(multihash: seq<Byte>, text: string, k: nat)
    requires |multihash| == MULTIHASH_LENGTH && Spells(text, CidBytes(multihash)) && k == 91
    ensures |text| == k + 1 == CID_DIGITS
  {
    CidValueBounds(multihash, k);
    assert CidBytes(multihash)[0] == 1;
    LengthFromBounds(58, DigitsOf(text), k);
  }

  lemma CidValueBounds(multihash: seq<Byte>, k: nat)
    requires |multihash| == MULTIHASH_LENGTH && k == 91
    ensures Pow(58, k) <= Value(256, CidBytes(multihash)) < Pow(58, k + 1)
  {
    var head: seq<nat> := [1, 0x71];
    ValueConcat(256, head, multihash);
    assert head[..1] == [1] && [1 as nat][..0] == [];
    assert Value(256, head) == Value(256, head[..1]) * 256 + 0x71;
    assert Value(256, head) == 369;
    ValueBounded(256, multihash);
    CidBounds(Pow(256, 66), Value(256, multihash), k);
  }

  lemma CidBounds(p: nat, rest: nat, k: nat)
    requires p == Pow(256, 66) && rest < p && k == 91
    ensures Pow(58, k) <= 369 * p + rest < Pow(58, k + 1)
  {
    SixtySixthPower(256, 66);
    NinetyFirstPower(58, k);
    PowOne(58);
    PowAdd(58, k, 1);
  }

  /** Comparing two entry hashes as strings, as bytes or as numbers agrees. */
  lemma HashOrder(a: seq<Byte>, b: seq<Byte>, s: string, t: string)
    requires |a| == |b| == MULTIHASH_LENGTH && Spells(s, CidBytes(a)) && Spells(t, CidBytes(b))
    ensures Before(a, b) <==> Value(256, a) < Value(256, b)
    ensures TextBefore(s, t) <==> Value(256, a) < Value(256, b)
    ensures s == t <==> a == b
  {
    BeforeIsLess(256, a, b);
    CidTextLength(a, s, 91);
    CidTextLength(b, t, 91);
    TextBeforeIsBefore(s, t);
    BeforeIsLess(58, DigitsOf(s), DigitsOf(t));
    var head: seq<nat> := [1, 0x71];
    ValueConcat(256, head, a);
    ValueConcat(256, head, b);
    if s == t {
      OneMeaning(s, CidBytes(a), CidBytes(b));
      assert a == CidBytes(a)[2..] && b == CidBytes(b)[2..];
    }
    if a == b {
      OneSpelling(s, t, CidBytes(a));
    }
  }
}
