/** Merging as a function of sets: the entries a batch adds, and why neither the
    order inside a batch nor the way a delivery is cut into batches matters. */
module Convergence {
  import opened Entries
  import opened Causal
  import opened Access
  import opened Log

  /** `h` ends up in the log when batch `B` is merged into `E`: it was there, or
      the batch carries it, its parents end up there, and it passes append
      verification over its own causal past. */
  ghost predicate Admitted(lib: Library, E: set<Hash>, B: set<Hash>, h: Hash)
    decreases Time(lib, h)
  {
    h in E ||
    (h in B && Accept(lib, PastIn(lib, E + B, h), h).Ok? &&
     forall p :: p in Next(lib, h) ==> Time(lib, p) < Time(lib, h) && Admitted(lib, E, B, p))
  }

  ghost function Merged(lib: Library, E: set<Hash>, B: set<Hash>): set<Hash> {
    set h | h in E + B && Admitted(lib, E, B, h)
  }

  /** `S` misses no entry of `B` that append verification over `S` would accept. */
  ghost predicate AdmissionClosed(lib: Library, B: set<Hash>, S: set<Hash>) {
    forall h :: h in B && Accept(lib, S, h).Ok? ==> h in S
  }

  lemma MergedIsGrounded(lib: Library, E: set<Hash>, B: set<Hash>)
    requires Valid(lib, E)
    ensures Grounded(lib, Merged(lib, E, B))
  {
    var M := Merged(lib, E, B);
    ValidIsGrounded(lib, E);
    forall h, p | h in M && p in Next(lib, h) ensures p in M && Time(lib, p) < Time(lib, h) {
      if h !in E {
        var P := PastIn(lib, E + B, h);
        AcceptedIsGrounded(lib, P, h);
        assert p in P;
      }
    }
    assert Clocked(lib, M);
    forall h | h in M && !ByWriter(lib, h)
      ensures Cited(lib, h).Some? && Cited(lib, h).value in M
      ensures IsCapability(lib, Cited(lib, h).value) && InPast(lib, Cited(lib, h).value, h)
    {
      if h !in E {
        AcceptedIsGrounded(lib, PastIn(lib, E + B, h), h);
        PastStaysInside(lib, M, Cited(lib, h).value, h);
      }
    }
  }

  /** For an entry whose parents are merged, judging it over its past within the
      delivery and judging it over the merged log is the same. */
  lemma JudgedOverMerged(lib: Library, E: set<Hash>, B: set<Hash>, h: Hash)
    requires Valid(lib, E)
    requires forall p :: p in Next(lib, h) ==> p in Merged(lib, E, B)
    ensures Accept(lib, PastIn(lib, E + B, h), h) == Accept(lib, Merged(lib, E, B), h)
  {
    var M := Merged(lib, E, B);
    MergedIsGrounded(lib, E, B);
    PastPartIsClosed(lib, M, h);
    assert PastIn(lib, E + B, h) == PastIn(lib, M, h);
    AcceptAgrees(lib, PastIn(lib, M, h), M, h);
  }

  lemma MergedIsValid(lib: Library, E: set<Hash>, B: set<Hash>)
    requires Valid(lib, E)
    ensures Valid(lib, Merged(lib, E, B)) && E <= Merged(lib, E, B)
  {
    var M := Merged(lib, E, B);
    ValidIsGrounded(lib, E);
    MergedIsGrounded(lib, E, B);
    forall h | h in M ensures Accept(lib, M, h).Ok? {
      if h in E {
        AcceptAgrees(lib, E, M, h);
      } else {
        JudgedOverMerged(lib, E, B, h);
      }
    }
  }

  lemma MergedIsClosed(lib: Library, E: set<Hash>, B: set<Hash>)
    requires Valid(lib, E)
    ensures AdmissionClosed(lib, B, Merged(lib, E, B))
  {
    var M := Merged(lib, E, B);
    forall h | h in B && Accept(lib, M, h).Ok? ensures h in M {
      AcceptedIsGrounded(lib, M, h);
      JudgedOverMerged(lib, E, B, h);
    }
  }

  lemma {:induction false} MergedIsWithin(lib: Library, E: set<Hash>, B: set<Hash>, S: set<Hash>, h: Hash)
    requires Valid(lib, E) && E <= S && AdmissionClosed(lib, B, S) && h in Merged(lib, E, B)
    ensures h in S
    decreases Time(lib, h)
  {
    if h !in E {
      var M := Merged(lib, E, B);
      MergedIsGrounded(lib, E, B);
      PastPartIsClosed(lib, M, h);
      var P := PastIn(lib, M, h);
      JudgedOverMerged(lib, E, B, h);
      AcceptAgrees(lib, P, M, h);
      forall x | x in P ensures x in S {
        PastIsReachedFromNext(lib, x, h);
        PastIsEarlier(lib, x, h);
        MergedIsWithin(lib, E, B, S, x);
      }
      AcceptAgrees(lib, P, S, h);
    }
  }

  /** The merged log is the least set that holds the log and misses no entry of
      the batch that it would accept. */
  lemma MergedIsLeast(lib: Library, E: set<Hash>, B: set<Hash>)
    requires Valid(lib, E)
    ensures E <= Merged(lib, E, B) <= E + B && AdmissionClosed(lib, B, Merged(lib, E, B))
    ensures forall S :: E <= S && AdmissionClosed(lib, B, S) ==> Merged(lib, E, B) <= S
  {
    MergedIsValid(lib, E, B);
    MergedIsClosed(lib, E, B);
    forall S | E <= S && AdmissionClosed(lib, B, S) ensures Merged(lib, E, B) <= S {
      forall h | h in Merged(lib, E, B) ensures h in S {
        MergedIsWithin(lib, E, B, S, h);
      }
    }
  }

  /** Any valid set between the log and the delivery that is closed under
      admission is the merged log. */
  lemma MergedIsTheClosure(lib: Library, E: set<Hash>, B: set<Hash>, S: set<Hash>)
    requires Valid(lib, E) && Valid(lib, S) && E <= S <= E + B && AdmissionClosed(lib, B, S)
    ensures S == Merged(lib, E, B)
  {
    MergedIsLeast(lib, E, B);
    forall h | h in S ensures h in Merged(lib, E, B) {
      ValidIsMerged(lib, E, B, S, h);
    }
  }

  lemma {:induction false} ValidIsMerged(lib: Library, E: set<Hash>, B: set<Hash>, S: set<Hash>, h: Hash)
    requires Valid(lib, E) && Valid(lib, S) && S <= E + B && h in S
    ensures h in Merged(lib, E, B)
    decreases Time(lib, h)
  {
    if h !in E {
      var M := Merged(lib, E, B);
      AcceptedIsGrounded(lib, S, h);
      forall p | p in Next(lib, h) ensures p in M {
        ValidIsMerged(lib, E, B, S, p);
      }
      MergedIsValid(lib, E, B);
      CausalPastDeterminism(lib, S, M, h);
      MergedIsClosed(lib, E, B);
    }
  }

  // ---- What a merge keeps, entry by entry ---------------------------------

  /** Some valid log holds `h`. */
  ghost predicate Admissible(lib: Library, h: Hash) {
    exists V: set<Hash> {:trigger Valid(lib, V)} :: Valid(lib, V) && h in V
  }

  /** The whole causal past of `h` is in `U`. */
  ghost predicate PastWithin(lib: Library, U: set<Hash>, h: Hash) {
    forall a :: InPast(lib, a, h) ==> a in U
  }

  /** `h` is in `U` with its whole past, and some valid log holds it. */
  ghost predicate Complete(lib: Library, U: set<Hash>, h: Hash) {
    h in U && Admissible(lib, h) && PastWithin(lib, U, h)
  }

  /** An entry of a valid log with its past is a valid log by itself. */
  lemma OwnHistory(lib: Library, V: set<Hash>, h: Hash) returns (P: set<Hash>)
    requires Valid(lib, V) && h in V
    ensures Valid(lib, P) && forall a :: a in P <==> a == h || InPast(lib, a, h)
  {
    P := set a | a in V && (a == h || InPast(lib, a, h));
    ValidIsGrounded(lib, V);
    forall a | InPast(lib, a, h) ensures a in V {
      PastStaysInside(lib, V, a, h);
    }
    forall x, p | x in P && p in Next(lib, x) ensures p in P {
      assert InPast(lib, p, x);
      if x != h {
        PastTransitive(lib, p, x, h);
      }
    }
    ClosedPartIsValid(lib, P, V);
  }

  /** An entry and its past within `U`. */
  ghost function History(lib: Library, U: set<Hash>, h: Hash): set<Hash> {
    set a | a in U && (a == h || InPast(lib, a, h))
  }

  lemma HistoryIsOwn(lib: Library, U: set<Hash>, V: set<Hash>, h: Hash)
    requires h in U && PastWithin(lib, U, h) && Valid(lib, V) && h in V
    ensures Valid(lib, History(lib, U, h))
  {
    var P := OwnHistory(lib, V, h);
    assert forall a :: a in P <==> a in History(lib, U, h);
    assert P == History(lib, U, h);
  }

  /** Whether any valid log holds an entry is decided by verifying its own history,
      wherever that is to be found. */
  lemma AdmissibleByHistory(lib: Library, U: set<Hash>, h: Hash)
    requires h in U && PastWithin(lib, U, h)
    ensures Admissible(lib, h) <==> Valid(lib, History(lib, U, h))
  {
    if Admissible(lib, h) {
      var V: set<Hash> :| Valid(lib, V) && h in V;
      HistoryIsOwn(lib, U, V, h);
    }
    assert h in History(lib, U, h);
  }

  /** The merged log, entry by entry: an entry of the log or the batch is kept
      exactly when some valid log holds it and its whole causal past is there. */
  lemma MergedExactly(lib: Library, E: set<Hash>, B: set<Hash>, h: Hash)
    requires Valid(lib, E)
    ensures h in Merged(lib, E, B) <==> Complete(lib, E + B, h)
  {
    var M := Merged(lib, E, B);
    MergedIsValid(lib, E, B);
    if h in M {
      ValidIsGrounded(lib, M);
      forall a | InPast(lib, a, h) ensures a in E + B {
        PastStaysInside(lib, M, a, h);
      }
    }
    if Complete(lib, E + B, h) {
      CompleteIsKept(lib, E, B, h);
    }
  }

  lemma CompleteIsKept(lib: Library, E: set<Hash>, B: set<Hash>, h: Hash)
    requires Valid(lib, E) && Complete(lib, E + B, h)
    ensures h in Merged(lib, E, B)
  {
    var V: set<Hash> :| Valid(lib, V) && h in V;
    var P := OwnHistory(lib, V, h);
    assert forall a :: a in P ==> a in E + B;
    assert P <= E + B;
    ValidIsMerged(lib, E, B, P, h);
  }

  // ---- Cutting a delivery into batches ------------------------------------

  /** Every admissible entry delivered only in the first batch, whose past the two
      batches complete, has its whole past by the end of the first. */
  ghost predicate PastsArriveFirst(lib: Library, E: set<Hash>, A: set<Hash>, B: set<Hash>) {
    forall x :: x in A && x !in B && Admissible(lib, x) && PastWithin(lib, E + A + B, x) ==> PastWithin(lib, E + A, x)
  }

  lemma KeptInTwoSteps(lib: Library, E: set<Hash>, A: set<Hash>, B: set<Hash>, h: Hash)
    requires Valid(lib, E) && PastsArriveFirst(lib, E, A, B) && h in Merged(lib, E, A + B)
    ensures h in Merged(lib, E, A) || h in B
  {
    assert E + (A + B) == E + A + B;
    MergedExactly(lib, E, A + B, h);
    MergedExactly(lib, E, A, h);
    if h in E {
      MergedIsValid(lib, E, A);
    }
  }

  lemma TwoStepsKeepAll(lib: Library, E: set<Hash>, A: set<Hash>, B: set<Hash>, h: Hash)
    requires Valid(lib, E) && PastsArriveFirst(lib, E, A, B) && h in Merged(lib, E, A + B)
    ensures h in Merged(lib, Merged(lib, E, A), B)
  {
    var first, all := Merged(lib, E, A), Merged(lib, E, A + B);
    MergedIsValid(lib, E, A);
    MergedIsValid(lib, E, A + B);
    ValidIsGrounded(lib, all);
    KeptInTwoSteps(lib, E, A, B, h);
    forall a | InPast(lib, a, h) ensures a in first + B {
      PastStaysInside(lib, all, a, h);
      KeptInTwoSteps(lib, E, A, B, a);
    }
    MergedExactly(lib, first, B, h);
  }

  lemma TwoStepsKeepNoMore(lib: Library, E: set<Hash>, A: set<Hash>, B: set<Hash>)
    requires Valid(lib, E)
    ensures Merged(lib, Merged(lib, E, A), B) <= Merged(lib, E, A + B)
  {
    MergedIsValid(lib, E, A);
    var two := Merged(lib, Merged(lib, E, A), B);
    MergedIsValid(lib, Merged(lib, E, A), B);
    forall h | h in two ensures h in Merged(lib, E, A + B) {
      ValidIsMerged(lib, E, A + B, two, h);
    }
  }

  /** Merging `A` and then `B` gives what merging both at once gives exactly when
      no entry comes, in `A` alone, before a part of its own past: an entry refused
      in an earlier batch is not kept. */
  lemma SplitIsExact(lib: Library, E: set<Hash>, A: set<Hash>, B: set<Hash>)
    requires Valid(lib, E)
    ensures Merged(lib, Merged(lib, E, A), B) == Merged(lib, E, A + B) <==> PastsArriveFirst(lib, E, A, B)
  {
    var first, all := Merged(lib, E, A), Merged(lib, E, A + B);
    MergedIsValid(lib, E, A);
    TwoStepsKeepNoMore(lib, E, A, B);
    if PastsArriveFirst(lib, E, A, B) {
      forall h | h in all ensures h in Merged(lib, first, B) {
        TwoStepsKeepAll(lib, E, A, B, h);
      }
    }
    if Merged(lib, first, B) == all {
      assert E + (A + B) == E + A + B;
      forall x | x in A && x !in B && Admissible(lib, x) && PastWithin(lib, E + A + B, x)
        ensures PastWithin(lib, E + A, x)
      {
        MergedExactly(lib, E, A + B, x);
        assert x in first;
        MergedExactly(lib, E, A, x);
      }
    }
  }

  /** Every parent a batch names is in the log or in the batch. */
  ghost predicate CausallyClosed(lib: Library, E: set<Hash>, B: set<Hash>) {
    forall h, p :: h in B && p in Next(lib, h) ==> p in E || p in B
  }

  lemma {:induction false} ClosedHoldsPast(lib: Library, E: set<Hash>, B: set<Hash>, a: Hash, h: Hash)
    requires Clocked(lib, E) && CausallyClosed(lib, E, B) && h in E + B && InPast(lib, a, h)
    ensures a in E + B
    decreases Time(lib, h)
  {
    var p :| p in Next(lib, h) && Time(lib, p) < Time(lib, h) && (p == a || InPast(lib, a, p));
    if p != a {
      ClosedHoldsPast(lib, E, B, a, p);
    }
  }

  /** A causally closed batch merges every one of its entries that any valid log holds. */
  lemma ClosedBatchMergesTheAdmissible(lib: Library, E: set<Hash>, B: set<Hash>, h: Hash)
    requires Valid(lib, E) && CausallyClosed(lib, E, B) && h in E + B
    ensures h in Merged(lib, E, B) <==> Admissible(lib, h)
  {
    ValidIsGrounded(lib, E);
    forall a | InPast(lib, a, h) ensures a in E + B {
      ClosedHoldsPast(lib, E, B, a, h);
    }
    MergedExactly(lib, E, B, h);
  }

  lemma ClosedSplit(lib: Library, E: set<Hash>, A: set<Hash>, B: set<Hash>)
    requires Valid(lib, E) && CausallyClosed(lib, E, A)
    ensures Merged(lib, Merged(lib, E, A), B) == Merged(lib, E, A + B)
  {
    ValidIsGrounded(lib, E);
    forall x, a | x in A && InPast(lib, a, x) ensures a in E + A {
      ClosedHoldsPast(lib, E, A, a, x);
    }
    SplitIsExact(lib, E, A, B);
  }

  ghost function Union(batches: seq<set<Hash>>): set<Hash> {
    if batches == [] then {} else Union(batches[..|batches| - 1]) + batches[|batches| - 1]
  }

  /** The log after merging the batches one after another. */
  ghost function MergedAll(lib: Library, E: set<Hash>, batches: seq<set<Hash>>): set<Hash> {
    if batches == [] then E
    else Merged(lib, MergedAll(lib, E, batches[..|batches| - 1]), batches[|batches| - 1])
  }

  /** Each batch names only parents held before it or delivered so far. */
  ghost predicate ClosedDelivery(lib: Library, E: set<Hash>, batches: seq<set<Hash>>) {
    forall i :: 0 <= i < |batches| ==> CausallyClosed(lib, E + Union(batches[..i]), batches[i])
  }

  lemma {:induction false} UnionIsClosed(lib: Library, E: set<Hash>, batches: seq<set<Hash>>)
    requires ClosedDelivery(lib, E, batches)
    ensures CausallyClosed(lib, E, Union(batches))
    decreases |batches|
  {
    if batches != [] {
      var n := |batches| - 1;
      PrefixIsClosed(lib, E, batches);
      UnionIsClosed(lib, E, batches[..n]);
    }
  }

  lemma PrefixIsClosed(lib: Library, E: set<Hash>, batches: seq<set<Hash>>)
    requires ClosedDelivery(lib, E, batches) && batches != []
    ensures ClosedDelivery(lib, E, batches[..|batches| - 1])
  {
    var before := batches[..|batches| - 1];
    forall i | 0 <= i < |before| ensures CausallyClosed(lib, E + Union(before[..i]), before[i]) {
      assert before[..i] == batches[..i];
    }
  }

  /** A causally closed delivery ends in the same log however it is cut. */
  lemma {:induction false} DeliveryIsOneMerge(lib: Library, E: set<Hash>, batches: seq<set<Hash>>)
    requires Valid(lib, E) && ClosedDelivery(lib, E, batches)
    ensures MergedAll(lib, E, batches) == Merged(lib, E, Union(batches))
    ensures Valid(lib, MergedAll(lib, E, batches))
    decreases |batches|
  {
    if batches == [] {
      MergedIsLeast(lib, E, {});
      assert Merged(lib, E, {}) == E;
    } else {
      var n := |batches| - 1;
      PrefixIsClosed(lib, E, batches);
      DeliveryIsOneMerge(lib, E, batches[..n]);
      UnionIsClosed(lib, E, batches[..n]);
      ClosedSplit(lib, E, Union(batches[..n]), batches[n]);
      MergedIsValid(lib, E, Union(batches));
    }
  }

  /** Convergence: two causally closed deliveries of the same entries, in any
      order and any number of batches, end in the same log. */
  lemma DeliveriesConverge(lib: Library, E: set<Hash>, batches: seq<set<Hash>>, others: seq<set<Hash>>)
    requires Valid(lib, E) && ClosedDelivery(lib, E, batches) && ClosedDelivery(lib, E, others)
    requires Union(batches) == Union(others)
    ensures MergedAll(lib, E, batches) == MergedAll(lib, E, others)
  {
    DeliveryIsOneMerge(lib, E, batches);
    DeliveryIsOneMerge(lib, E, others);
  }

  /** Merging a valid log's entries is set union. */
  lemma MergeOfValidIsUnion(lib: Library, E: set<Hash>, F: set<Hash>)
    requires Valid(lib, E) && Valid(lib, F)
    ensures Merged(lib, E, F) == E + F && Valid(lib, E + F)
  {
    MergedIsValid(lib, E, F);
    forall h | h in F ensures h in Merged(lib, E, F) {
      ValidIsMerged(lib, E, F, F, h);
    }
    assert Merged(lib, E, F) == E + F;
  }

  /** A child delivered in an earlier batch than its parent is lost: the closure
      condition of `DeliveriesConverge` cannot be dropped. */
  lemma EarlyChildIsLost() returns (lib: Library, parent: Hash, child: Hash)
    ensures Valid(lib, {})
    ensures parent != child && Merged(lib, {}, {parent, child}) == {parent, child}
    ensures Merged(lib, Merged(lib, {}, {child}), {parent}) == {parent}
  {
    parent, child := 1, 2;
    lib := Library(ListensLibrary, {0},
                   h => Entry(0, if h == 2 then [1] else [], [], if h == 2 then 2 else 1, 0, Listen),
                   h => Ok, h => Ok, h => true, (f, s) => true);
    assert Valid(lib, {});
    assert MaxTime(lib, []) == 0;
    assert [parent][..0] == [] && MaxTime(lib, [parent]) == 1;
    assert Valid(lib, {parent, child});
    MergedIsTheClosure(lib, {}, {parent, child}, {parent, child});
    assert Valid(lib, {parent});
    MergedIsTheClosure(lib, {}, {child}, {});
    MergedIsTheClosure(lib, {}, {parent}, {parent});
  }
}
