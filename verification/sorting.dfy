/** Sorting a list of hashes by an order given as a function, and listing a set. */
module Sorting {
  import opened Entries

  /** The orders lists of entries are sorted by: revocations to judge, a batch to
      merge, heads to cite, and the parents of a new entry. */
  datatype Order = ToJudge | ToMerge | ToCite | ByHash

  predicate AtMost(lib: Library, order: Order, a: Hash, b: Hash) {
    match order
    case ToJudge =>
      Time(lib, a) < Time(lib, b) ||
      (Time(lib, a) == Time(lib, b) &&
       (Timestamp(lib, a) < Timestamp(lib, b) || (Timestamp(lib, a) == Timestamp(lib, b) && a <= b)))
    case ToMerge => Time(lib, a) < Time(lib, b) || (Time(lib, a) == Time(lib, b) && a <= b)
    case ToCite => Time(lib, a) > Time(lib, b) || (Time(lib, a) == Time(lib, b) && a <= b)
    case ByHash => a <= b
  }

  ghost predicate Ordered(lib: Library, order: Order, s: seq<Hash>) {
    forall i, j :: 0 <= i < j < |s| ==> AtMost(lib, order, s[i], s[j])
  }

  method Sort(lib: Library, order: Order, s: seq<Hash>) returns (r: seq<Hash>)
    ensures multiset(r) == multiset(s) && |r| == |s|
    ensures Ordered(lib, order, r)
  {
    r := [];
    for i := 0 to |s|
      invariant multiset(r) == multiset(s[..i]) && |r| == i
      invariant Ordered(lib, order, r)
    {
      r := Insert(lib, order, r, s[i]);
      assert s[..i + 1] == s[..i] + [s[i]];
    }
    assert s[..|s|] == s;
  }

  method Insert(lib: Library, order: Order, s: seq<Hash>, x: Hash) returns (r: seq<Hash>)
    requires Ordered(lib, order, s)
    ensures multiset(r) == multiset(s) + multiset{x} && |r| == |s| + 1
    ensures Ordered(lib, order, r)
  {
    var i := |s|;
    while i > 0 && AtMost(lib, order, x, s[i - 1])
      invariant 0 <= i <= |s|
      invariant forall j :: i <= j < |s| ==> AtMost(lib, order, x, s[j])
    {
      i := i - 1;
    }
    InsertedIsOrdered(lib, order, s, x, i);
    r := s[..i] + [x] + s[i..];
    assert s == s[..i] + s[i..];
  }

  lemma InsertedIsOrdered(lib: Library, order: Order, s: seq<Hash>, x: Hash, i: nat)
    requires Ordered(lib, order, s) && i <= |s|
    requires i > 0 ==> !AtMost(lib, order, x, s[i - 1])
    requires forall j :: i <= j < |s| ==> AtMost(lib, order, x, s[j])
    ensures Ordered(lib, order, s[..i] + [x] + s[i..])
  {
    forall j | 0 <= j < i ensures AtMost(lib, order, s[j], x) {
      assert j < i - 1 ==> AtMost(lib, order, s[j], s[i - 1]);
    }
  }

  lemma SameElements(s: seq<Hash>, r: seq<Hash>)
    requires multiset(s) == multiset(r)
    ensures forall h :: h in s <==> h in r
  {
    forall h ensures h in s <==> h in r {
      assert h in s <==> h in multiset(s);
      assert h in r <==> h in multiset(r);
    }
  }

  ghost predicate Distinct(s: seq<Hash>) {
    forall i, j :: 0 <= i < j < |s| ==> s[i] != s[j]
  }

  /** The members of a set, in some order. */
  method Listed(hashes: set<Hash>) returns (s: seq<Hash>)
    ensures (forall h :: h in s <==> h in hashes) && Distinct(s) && |s| == |hashes|
  {
    s := [];
    var rest := hashes;
    while exists h :: h in rest
      invariant rest <= hashes
      invariant forall h :: h in hashes <==> h in s || h in rest
      invariant forall h :: h in s ==> h !in rest
      invariant Distinct(s) && |s| + |rest| == |hashes|
      decreases rest
    {
      var h :| h in rest;
      s := s + [h];
      rest := rest - {h};
    }
  }

  lemma DistinctCount(s: seq<Hash>)
    requires Distinct(s)
    ensures forall h :: multiset(s)[h] <= 1
  {
    if |s| > 0 {
      var n := |s| - 1;
      DistinctCount(s[..n]);
      assert s == s[..n] + [s[n]];
      assert s[n] !in s[..n];
    }
  }

  lemma CountDistinct(s: seq<Hash>)
    requires forall h :: multiset(s)[h] <= 1
    ensures Distinct(s)
  {
    forall i, j | 0 <= i < j < |s| ensures s[i] != s[j] {
      assert s == s[..i] + [s[i]] + s[i + 1..j] + [s[j]] + s[j + 1..];
      assert s[i] == s[j] ==> multiset(s)[s[i]] >= 2;
    }
  }

  ghost function Members(s: seq<Hash>): set<Hash> { set h | h in s }

  lemma {:induction false} MembersCount(s: seq<Hash>)
    requires Distinct(s)
    ensures |Members(s)| == |s|
    decreases |s|
  {
    if s != [] {
      var n := |s| - 1;
      MembersCount(s[..n]);
      assert s == s[..n] + [s[n]];
      assert s[n] !in s[..n];
      assert forall h :: h in Members(s) <==> h in Members(s[..n]) + {s[n]};
      assert Members(s) == Members(s[..n]) + {s[n]};
    }
  }

  lemma LastsAgree(lib: Library, s: seq<Hash>, r: seq<Hash>)
    requires Ordered(lib, ByHash, s) && Ordered(lib, ByHash, r) && s != [] && r != []
    requires forall h :: h in s <==> h in r
    ensures s[|s| - 1] == r[|r| - 1]
  {
    var n, m := |s| - 1, |r| - 1;
    assert s[n] in s && r[m] in r;
    var i :| 0 <= i < |s| && s[i] == r[m];
    var j :| 0 <= j < |r| && r[j] == s[n];
    assert s[i] <= s[n] && r[j] <= r[m];
  }

  lemma SameWithoutLast(a: seq<Hash>, b: seq<Hash>, x: Hash)
    requires Distinct(a + [x]) && Distinct(b + [x]) && forall h :: h in a + [x] <==> h in b + [x]
    ensures forall h :: h in a <==> h in b
  {
    var s, r := a + [x], b + [x];
    assert forall i :: 0 <= i < |a| ==> s[i] == a[i] && s[i] != s[|a|];
    assert forall i :: 0 <= i < |b| ==> r[i] == b[i] && r[i] != r[|b|];
    assert x !in a && x !in b;
    assert forall h :: h in s <==> h in a || h == x;
    assert forall h :: h in r <==> h in b || h == x;
  }

  lemma InitIsSorted(lib: Library, s: seq<Hash>) returns (init: seq<Hash>)
    requires s != [] && Distinct(s) && Ordered(lib, ByHash, s)
    ensures Distinct(init) && Ordered(lib, ByHash, init) && s == init + [s[|s| - 1]]
  {
    init := s[..|s| - 1];
  }

  lemma BothEmpty(s: seq<Hash>, r: seq<Hash>)
    requires forall h :: h in s <==> h in r
    ensures s == [] <==> r == []
  {
    if s != [] {
      var x := s[0];
      assert x in s;
    }
    if r != [] {
      var x := r[0];
      assert x in r;
    }
  }

  /** One set of hashes has one list in hash order. */
  lemma {:induction false} SortedIsUnique(lib: Library, s: seq<Hash>, r: seq<Hash>)
    requires Distinct(s) && Distinct(r) && Ordered(lib, ByHash, s) && Ordered(lib, ByHash, r)
    requires forall h :: h in s <==> h in r
    ensures s == r
    decreases |s|
  {
    BothEmpty(s, r);
    if s != [] {
      LastsAgree(lib, s, r);
      var a := InitIsSorted(lib, s);
      var b := InitIsSorted(lib, r);
      SameWithoutLast(a, b, s[|s| - 1]);
      SortedIsUnique(lib, a, b);
    }
  }

  /** Reordering keeps elements distinct. */
  lemma PermutationIsDistinct(s: seq<Hash>, r: seq<Hash>)
    requires multiset(s) == multiset(r) && Distinct(s)
    ensures Distinct(r)
  {
    DistinctCount(s);
    CountDistinct(r);
  }
}
