/** Why the derived state may be brought up to date from what changed alone. */
module Refresh {
  import opened Entries
  import opened Access
  import opened Log
  import opened Convergence

  ghost predicate Cites(lib: Library, E: set<Hash>, p: Hash) {
    exists e :: e in E && p in Next(lib, e)
  }

  lemma HeadsAfterInsert(lib: Library, E: set<Hash>, h: Hash)
    ensures forall x :: x in Heads(lib, E + {h}) <==>
              (x in Heads(lib, E) && x !in Next(lib, h)) || (x == h && !Cites(lib, E + {h}, h))
  {
    forall x ensures Cites(lib, E + {h}, x) <==> Cites(lib, E, x) || x in Next(lib, h) {
      if x in Next(lib, h) {
        assert h in E + {h};
      }
      if Cites(lib, E, x) {
        var e :| e in E && x in Next(lib, e);
        assert e in E + {h};
      }
    }
    forall x, F: set<Hash> ensures x in Heads(lib, F) <==> x in F && !Cites(lib, F, x) {
    }
  }

  /** With no new revocation the effective set stands, and so does the verdict on
      every entry already judged. */
  lemma AccessCarriesOver(lib: Library, E: set<Hash>, F: set<Hash>)
    requires Valid(lib, E) && E <= F && RevocationsIn(lib, E) == RevocationsIn(lib, F)
    ensures Effective(lib, E) == Effective(lib, F)
    ensures forall h :: h in E ==> (h in Inert(lib, E) <==> h in Inert(lib, F))
  {
    ValidIsGrounded(lib, E);
    EffectiveAmongAgrees(lib, E, F, RevocationsIn(lib, E));
    forall h | h in E ensures h in Inert(lib, E) <==> h in Inert(lib, F) {
      InertAgrees(lib, E, F, h, Effective(lib, E));
    }
  }

  /** While nothing is effective or inert, entries that are not revocations
      change neither. */
  lemma NothingToJudge(lib: Library, E: set<Hash>, F: set<Hash>)
    requires Valid(lib, E) && E <= F && RevocationsIn(lib, E) == RevocationsIn(lib, F)
    requires Effective(lib, E) == {} && Inert(lib, E) == {}
    ensures Effective(lib, F) == {} && Inert(lib, F) == {}
  {
    AccessCarriesOver(lib, E, F);
    forall h | h in F ensures h !in Inert(lib, F) {
      if h in RevocationsIn(lib, F) {
        assert h in E;
      }
    }
  }

  /** Judging every delegated entry, or only the new ones when no revocation is
      new, gives the inert set of the whole log. */
  lemma JudgedIsInert(lib: Library, E: set<Hash>, F: set<Hash>, judged: seq<Hash>, stale: set<Hash>, renewed: set<Hash>)
    requires Valid(lib, E) && E <= F && stale == Inert(lib, E)
    requires forall h :: h in renewed <==> if h in judged then IsInert(lib, F, h, Effective(lib, F)) else h in stale
    requires (forall h :: h in judged <==> h in F && !ByWriter(lib, h)) ||
             (RevocationsIn(lib, E) == RevocationsIn(lib, F) && forall h :: h in judged <==> h in F && h !in E && !ByWriter(lib, h))
    ensures renewed == Inert(lib, F)
  {
    if RevocationsIn(lib, E) == RevocationsIn(lib, F) {
      AccessCarriesOver(lib, E, F);
    }
    assert forall h :: h in renewed <==> h in Inert(lib, F);
  }

  /** A key none of whose entries is new or changed its inertness resolves as before. */
  lemma KeyCarriesOver(lib: Library, E: set<Hash>, F: set<Hash>, current: map<StateKey, Hash>, k: StateKey)
    requires E <= F && ResolvesKey(lib, E, Inert(lib, E), current, k)
    requires forall h :: h in F && k in StateKeys(lib, h) ==> h in E && (h in Inert(lib, E) <==> h in Inert(lib, F))
    ensures ResolvesKey(lib, F, Inert(lib, F), current, k)
  {
    assert Candidates(lib, E, Inert(lib, E), k) == Candidates(lib, F, Inert(lib, F), k);
  }

  // ---- One step of a merge ------------------------------------------------

  lemma AcceptedStep(lib: Library, E: set<Hash>, B: set<Hash>, S: set<Hash>, h: Hash)
    requires Valid(lib, E) && Valid(lib, S) && E <= S <= Merged(lib, E, B)
    requires h in B && Accept(lib, S, h).Ok?
    ensures Valid(lib, S + {h}) && h in Merged(lib, E, B)
  {
    InsertKeepsValid(lib, S, h);
    ValidIsMerged(lib, E, B, S + {h}, h);
  }

  /** In clock order a refusal is final: the merged log refuses the entry too,
      with the same code. */
  lemma RefusedStep(lib: Library, E: set<Hash>, B: set<Hash>, S: set<Hash>, h: Hash)
    requires Valid(lib, E) && Valid(lib, S) && E <= S <= Merged(lib, E, B)
    requires h in B && Accept(lib, S, h).Fail?
    requires forall p :: p in Merged(lib, E, B) && Time(lib, p) < Time(lib, h) ==> p in S
    ensures h !in Merged(lib, E, B) && Accept(lib, Merged(lib, E, B), h) == Accept(lib, S, h)
  {
    var M := Merged(lib, E, B);
    MergedIsValid(lib, E, B);
    ValidIsGrounded(lib, S);
    if ClockHolds(lib, M, h) {
      ClockHoldsDescends(lib, M, h);
      AcceptAgrees(lib, S, M, h);
    }
  }

  // ---- Restoring without verifying ---------------------------------------

  /** The check the trusted restore makes: the operation parses and the clock holds. */
  function RestoreVerdict(lib: Library, E: set<Hash>, h: Hash): Verdict {
    if lib.operationVerdict(h).Fail? then lib.operationVerdict(h)
    else if !ClockHolds(lib, E, h) then Fail(InvalidClock)
    else Ok
  }

  /** For an entry some valid log holds, the restore check and full verification
      over a part of that log give the same verdict. */
  lemma RestoreAgreesWithVerify(lib: Library, V: set<Hash>, S: set<Hash>, h: Hash)
    requires Valid(lib, V) && Valid(lib, S) && S <= V && h in V
    ensures RestoreVerdict(lib, S, h) == Accept(lib, S, h)
  {
    assert Accept(lib, V, h).Ok?;
    if ClockHolds(lib, S, h) {
      ValidIsGrounded(lib, S);
      AcceptAgrees(lib, S, V, h);
    }
  }
}
