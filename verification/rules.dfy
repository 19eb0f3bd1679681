/** What a log object's inert set and current state hold, in terms of the entries
    alone. */
module Rules {
  import opened Entries
  import opened Causal
  import opened Access
  import opened Log
  import opened Oplogs

  /** Which entries are inert: never one of the write list; a delegated revocation unless
      it is effective; any other delegated entry exactly when an effective revocation
      revokes a capability it stands on and no path of parents leads from that revocation
      to it. */
  lemma InertEntries(oplog: Oplog, h: Hash)
    requires oplog.Consistent() && h in oplog.entries
    ensures h in oplog.inert <==>
            EntryOf(oplog.lib, h).key !in oplog.lib.writeList &&
            if IsRevocation(oplog.lib, h) then h !in oplog.effective
            else exists r :: r in oplog.effective && IsRevocation(oplog.lib, r) &&
                   EntryOf(oplog.lib, r).operation.value.revokes in ChainOf(oplog.lib, oplog.entries.Keys, Cited(oplog.lib, h)) &&
                   !ReachedFrom(oplog.lib, EntryOf(oplog.lib, r).next, h)
  {
    ValidIsGrounded(oplog.lib, oplog.entries.Keys);
    Access.InertExactly(oplog.lib, oplog.entries.Keys, h, oplog.effective);
    assert forall r :: r in oplog.effective && RevokesUnseen(oplog.lib, oplog.entries.Keys, r, h) ==>
             EntryOf(oplog.lib, r).operation.value.revokes in ChainOf(oplog.lib, oplog.entries.Keys, Cited(oplog.lib, h)) &&
             !ReachedFrom(oplog.lib, EntryOf(oplog.lib, r).next, h);
  }

  /** A write that every effective revocation has seen keeps its effect. */
  lemma SeenIsNeverInert(oplog: Oplog, h: Hash)
    requires oplog.Consistent() && h in oplog.entries && !IsRevocation(oplog.lib, h)
    requires forall r :: r in oplog.effective ==> ReachedFrom(oplog.lib, EntryOf(oplog.lib, r).next, h)
    ensures h !in oplog.inert
  {
    InertEntries(oplog, h);
  }

  /** The effective revocations are the one outcome of judging all revocations held. */
  lemma EffectiveRevocationsOf(oplog: Oplog, S: set<Hash>)
    requires oplog.Consistent()
    ensures AllRevocations(oplog.lib, oplog.revocations)
    ensures Judges(oplog.lib, oplog.entries.Keys, oplog.revocations, S) <==> S == oplog.effective
  {
    EffectiveJudges(oplog.lib, oplog.entries.Keys, oplog.revocations);
    if Judges(oplog.lib, oplog.entries.Keys, oplog.revocations, S) {
      EffectiveIsUnique(oplog.lib, oplog.entries.Keys, oplog.revocations, S);
    }
  }

  /** `x` is held, is about the key, and is not inert. */
  ghost predicate Competes(oplog: Oplog, k: StateKey, x: Hash)
    reads oplog
  {
    x in oplog.entries && Concerns(EntryOf(oplog.lib, x).operation, k) && x !in oplog.inert
  }

  /** A key has a current entry exactly when some entry competes for it, and it is the one
      with the greatest clock, then the greatest timestamp, then the smallest hash. */
  lemma CurrentEntry(oplog: Oplog, k: StateKey)
    requires oplog.Consistent()
    ensures k in oplog.current <==> exists x :: Competes(oplog, k, x)
    ensures k in oplog.current ==>
              Competes(oplog, k, oplog.current[k]) &&
              forall x :: Competes(oplog, k, x) ==>
                var a, b := EntryOf(oplog.lib, x), EntryOf(oplog.lib, oplog.current[k]);
                a.time <= b.time && (a.time == b.time ==> a.timestamp <= b.timestamp) &&
                (a.time == b.time && a.timestamp == b.timestamp ==> oplog.current[k] <= x)
  {
    var lib, E := oplog.lib, oplog.entries.Keys;
    var candidates := Candidates(lib, E, oplog.inert, k);
    forall x ensures x in candidates <==> Competes(oplog, k, x) {
      StateKeysExactly(EntryOf(lib, x).operation, k);
    }
    assert ResolvesKey(lib, E, oplog.inert, oplog.current, k);
    if k in oplog.current {
      FirstExactly(lib, candidates, oplog.current[k]);
      assert forall x :: Competes(oplog, k, x) ==> NoLater(lib, x, oplog.current[k]);
    } else {
      assert forall x :: x !in candidates;
    }
  }
}
