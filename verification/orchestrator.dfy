/** Merge orchestration: fetched entries wait until ready, merge in batches one
    run at a time, and fall with an ancestor the merge refused. */
module Orchestrators {
  import opened Wrappers
  import opened Entries
  import opened Readiness
  import opened Sorting

  /** The orchestrator's records. `batch` is what a run in progress has handed to
      the merge; `stalled` records that the last run threw. */
  datatype Orchestrator = Orchestrator(
    waiting: set<Hash>,
    rejected: set<Hash>,
    scheduled: bool,
    batch: Option<set<Hash>>,
    stalled: bool)

  ghost function Idle(): Orchestrator { Orchestrator({}, {}, false, None, false) }

  ghost predicate HasRejectedParent(lib: Library, rejected: set<Hash>, h: Hash) {
    exists p :: p in Next(lib, h) && p in rejected
  }

  /** `h` waits, and a chain of waiting entries leads from it to a root. */
  ghost predicate DescendsIn(lib: Library, W: set<Hash>, roots: set<Hash>, h: Hash, n: nat)
    decreases n
  {
    h in W && exists p :: p in Next(lib, h) && (p in roots || (n > 0 && DescendsIn(lib, W, roots, p, n - 1)))
  }

  ghost predicate Descends(lib: Library, W: set<Hash>, roots: set<Hash>, h: Hash) {
    exists n: nat :: DescendsIn(lib, W, roots, h, n)
  }

  ghost function Descendants(lib: Library, W: set<Hash>, roots: set<Hash>): set<Hash> {
    set h | h in W && Descends(lib, W, roots, h)
  }

  lemma ChildDescends(lib: Library, W: set<Hash>, roots: set<Hash>, p: Hash, c: Hash)
    requires c in W && p in Next(lib, c) && (p in roots || Descends(lib, W, roots, p))
    ensures Descends(lib, W, roots, c)
  {
    if p in roots {
      assert DescendsIn(lib, W, roots, c, 0);
    } else {
      var n: nat :| DescendsIn(lib, W, roots, p, n);
      assert DescendsIn(lib, W, roots, c, n + 1);
    }
  }

  lemma {:induction false} DescendantsAreWithin(lib: Library, W: set<Hash>, roots: set<Hash>, D: set<Hash>, h: Hash, n: nat)
    requires forall c, p :: c in W && p in Next(lib, c) && (p in roots || p in D) ==> c in D
    requires DescendsIn(lib, W, roots, h, n)
    ensures h in D
    decreases n
  {
    var p :| p in Next(lib, h) && (p in roots || (n > 0 && DescendsIn(lib, W, roots, p, n - 1)));
    if p !in roots {
      DescendantsAreWithin(lib, W, roots, D, p, n - 1);
    }
  }

  /** A set of descendants closed under waiting children is all of them. */
  lemma DescendantsAre(lib: Library, W: set<Hash>, roots: set<Hash>, D: set<Hash>)
    requires D <= W && (forall h :: h in D ==> Descends(lib, W, roots, h))
    requires forall c, p :: c in W && p in Next(lib, c) && (p in roots || p in D) ==> c in D
    ensures D == Descendants(lib, W, roots)
  {
    forall h | Descends(lib, W, roots, h) ensures h in D {
      var n: nat :| DescendsIn(lib, W, roots, h, n);
      DescendantsAreWithin(lib, W, roots, D, h, n);
    }
  }

  /** What has been dropped so far descends from the roots, and the waiting
      children of anything rejected are dropped or will be. */
  ghost predicate Dropping(lib: Library, W: set<Hash>, roots: set<Hash>, D: set<Hash>, queue: seq<Hash>) {
    D <= W && (forall h :: h in D ==> Descends(lib, W, roots, h)) &&
    (forall h :: h in queue ==> h in roots || h in D) &&
    (forall c, p :: c in W && p in Next(lib, c) && (p in roots || p in D) ==> c in D || p in queue)
  }

  /** One round of dropping: the waiting children of one entry. */
  lemma DropStep(lib: Library, W: set<Hash>, roots: set<Hash>, D: set<Hash>, queue: seq<Hash>, dropped: seq<Hash>)
    requires Dropping(lib, W, roots, D, queue) && queue != []
    requires forall c :: c in dropped <==> c in W && c !in D && queue[|queue| - 1] in Next(lib, c)
    ensures var more := set c | c in dropped;
            Dropping(lib, W, roots, D + more, queue[..|queue| - 1] + dropped) &&
            (if dropped == [] then D + more == D else W - (D + more) < W - D)
  {
    var hash, rest := queue[|queue| - 1], queue[..|queue| - 1];
    var more := set c | c in dropped;
    assert queue == rest + [hash];
    assert hash in queue;
    forall c | c in more ensures Descends(lib, W, roots, c) {
      ChildDescends(lib, W, roots, hash, c);
    }
    assert forall h :: h in D + more ==> h in W;
    if dropped != [] {
      var c := dropped[0];
      assert c in dropped;
      assert c in W - D && c !in W - (D + more);
    } else {
      assert more == {};
    }
  }

  // ---- The steps as functions ---------------------------------------------

  ghost function Add(lib: Library, o: Orchestrator, h: Hash): Orchestrator {
    if HasRejectedParent(lib, o.rejected, h) then o.(rejected := o.rejected + {h})
    else o.(waiting := o.waiting + {h}, scheduled := true)
  }

  lemma AddLeavesBatch(lib: Library, o: Orchestrator, h: Hash)
    ensures Add(lib, o, h).batch == o.batch && Add(lib, o, h).stalled == o.stalled
  {
  }

  ghost function ReadyNow(lib: Library, o: Orchestrator, L: set<Hash>): set<Hash> {
    set h | h in o.waiting && Ready(lib, o.waiting, L, h)
  }

  ghost function StartRun(lib: Library, o: Orchestrator, L: set<Hash>): Orchestrator {
    var ready := ReadyNow(lib, o, L);
    if ready == {} then o.(scheduled := false, stalled := false)
    else o.(waiting := o.waiting - ready, scheduled := false, batch := Some(ready), stalled := false)
  }

  /** The merge returned; `L` is what has landed since. */
  ghost function FinishRun(lib: Library, o: Orchestrator, L: set<Hash>): Orchestrator
    requires o.batch.Some?
  {
    var failed := o.batch.value - L;
    var rejected := o.rejected + failed;
    var dropped := Descendants(lib, o.waiting - rejected, failed);
    o.(waiting := o.waiting - dropped, rejected := rejected + dropped, batch := None)
  }

  /** What the end of a run rejects: all of its batch that did not land, and of the entries
      waiting exactly those with a parent it rejects; none of their children waits on. */
  lemma FinishExactly(lib: Library, o: Orchestrator, L: set<Hash>)
    requires o.batch.Some?
    ensures var o' := FinishRun(lib, o, L);
            var lost := (o.batch.value - L) + (o'.rejected - o.rejected);
            o'.batch.None? && o.rejected <= o'.rejected && o.batch.value - L <= o'.rejected && o'.waiting <= o.waiting &&
            (forall c, p :: c in o'.waiting && p in Next(lib, c) && p in lost ==> c in o'.rejected) &&
            (forall c :: c in o.waiting && c !in o'.waiting ==> c in o'.rejected && exists p :: p in Next(lib, c) && p in lost)
  {
    var failed := o.batch.value - L;
    var W := o.waiting - (o.rejected + failed);
    var o' := FinishRun(lib, o, L);
    var lost := failed + (o'.rejected - o.rejected);
    var D := Descendants(lib, W, failed);
    forall c, p | c in W && p in Next(lib, c) && (p in failed || p in D) ensures c in D {
      ChildDescends(lib, W, failed, p, c);
    }
    forall c | c in D ensures exists p :: p in Next(lib, c) && p in lost {
      var n: nat :| DescendsIn(lib, W, failed, c, n);
      ParentDescends(lib, W, failed, c, n);
    }
  }

  lemma ParentDescends(lib: Library, W: set<Hash>, roots: set<Hash>, c: Hash, n: nat)
    requires DescendsIn(lib, W, roots, c, n)
    ensures exists p :: p in Next(lib, c) && (p in roots || p in Descendants(lib, W, roots))
  {
    var p :| p in Next(lib, c) && (p in roots || (n > 0 && DescendsIn(lib, W, roots, p, n - 1)));
    if p !in roots {
      assert Descends(lib, W, roots, p) && p in W;
      assert p in Descendants(lib, W, roots);
    }
  }

  ghost function FailRun(o: Orchestrator): Orchestrator
    requires o.batch.Some?
  {
    o.(waiting := o.waiting + o.batch.value, batch := None, stalled := true)
  }

  ghost function Clear(o: Orchestrator): Orchestrator { o.(waiting := {}, rejected := {}) }

  // ---- The object ---------------------------------------------------------

  class MergeOrchestrator {
    const lib: Library
    var fetched: set<Hash>
    var rejected: set<Hash>
    var children: map<Hash, set<Hash>>
    var scheduled: bool
    var batch: Option<seq<Hash>>
    ghost var stalled: bool

    constructor (lib: Library)
      ensures this.lib == lib && View() == Idle() && Indexed()
    {
      this.lib := lib;
      fetched, rejected, children, scheduled, batch, stalled := {}, {}, map[], false, None, false;
    }

    ghost function View(): Orchestrator
      reads this
    {
      Orchestrator(fetched, rejected, scheduled,
                   if batch.None? then None else Some(set h | h in batch.value), stalled)
    }

    /** The child index holds, under every parent, exactly its waiting children. */
    ghost predicate Indexed()
      reads this`fetched, this`children
    {
      (forall p, c :: (p in children && c in children[p]) <==> (c in fetched && p in Next(lib, c))) &&
      (forall p :: p in children ==> children[p] != {})
    }

    method Remember(h: Hash)
      requires Indexed()
      modifies this`fetched, this`children
      ensures Indexed() && fetched == old(fetched) + {h}
    {
      fetched := fetched + {h};
      var next := lib.entryOf(h).next;
      for i := 0 to |next|
        invariant forall p, c :: (p in children && c in children[p]) <==>
                    (c in old(fetched) && p in Next(lib, c)) || (c == h && p in next[..i])
        invariant forall p :: p in children ==> children[p] != {}
        modifies this`children
      {
        assert next[..i + 1] == next[..i] + [next[i]];
        var siblings := if next[i] in children then children[next[i]] else {};
        assert h in siblings + {h};
        children := children[next[i] := siblings + {h}];
      }
      assert next[..|next|] == next;
    }

    method Forget(h: Hash)
      requires Indexed()
      modifies this`fetched, this`children
      ensures Indexed() && fetched == old(fetched) - {h}
    {
      fetched := fetched - {h};
      var next := lib.entryOf(h).next;
      for i := 0 to |next|
        invariant forall p, c :: (p in children && c in children[p]) <==>
                    (c in old(fetched) && p in Next(lib, c)) && !(c == h && p in next[..i])
        invariant forall p :: p in children ==> children[p] != {}
        modifies this`children
      {
        var parent := next[i];
        assert next[..i + 1] == next[..i] + [parent];
        if parent in children {
          var siblings := children[parent] - {h};
          assert forall c :: c in children[parent] ==> c == h || c in siblings;
          children := if siblings == {} then children - {parent} else children[parent := siblings];
        }
      }
      assert next[..|next|] == next;
    }

    /** Drops the waiting children of one rejected entry, and lists them. */
    method DropChildren(hash: Hash) returns (dropped: seq<Hash>)
      requires Indexed()
      modifies this`fetched, this`children, this`rejected
      ensures Indexed()
      ensures forall c :: c in dropped <==> c in old(fetched) && c !in old(rejected) && hash in Next(lib, c)
      ensures forall c :: c in fetched <==> c in old(fetched) && c !in dropped
      ensures forall c :: c in rejected <==> c in old(rejected) || c in dropped
    {
      var list: seq<Hash> := [];
      if hash in children {
        list := Listed(children[hash]);
      }
      dropped := [];
      for i := 0 to |list|
        invariant Indexed()
        invariant forall c :: c in dropped <==> c in list[..i] && c in old(fetched) && c !in old(rejected)
        invariant forall c :: c in fetched <==> c in old(fetched) && c !in dropped
        invariant forall c :: c in rejected <==> c in old(rejected) || c in dropped
      {
        var child := list[i];
        assert list[..i + 1] == list[..i] + [child];
        if child in fetched && child !in rejected {
          Forget(child);
          rejected := rejected + {child};
          dropped := dropped + [child];
        }
      }
      assert list[..|list|] == list;
    }

    /** Everything waiting that stands on one of the roots goes with them. */
    method DropRejectedDescendants(roots: seq<Hash>)
      requires Indexed()
      modifies this`fetched, this`children, this`rejected
      ensures Indexed()
      ensures var D := Descendants(lib, old(fetched) - old(rejected), set r | r in roots);
              fetched == old(fetched) - D && rejected == old(rejected) + D
    {
      var queue := roots;
      ghost var W, R := fetched - rejected, set r | r in roots;
      ghost var D: set<Hash> := {};
      while queue != []
        invariant Indexed()
        invariant fetched == old(fetched) - D && rejected == old(rejected) + D
        invariant Dropping(lib, W, R, D, queue)
        decreases W - D, |queue|
      {
        var hash := queue[|queue| - 1];
        var dropped := DropChildren(hash);
        ghost var more := set c | c in dropped;
        DropStep(lib, W, R, D, queue, dropped);
        assert forall h :: h in fetched <==> h in old(fetched) - (D + more);
        assert forall h :: h in rejected <==> h in old(rejected) + (D + more);
        D := D + more;
        queue := queue[..|queue| - 1] + dropped;
      }
      DescendantsAre(lib, W, R, D);
    }

    method AnyRejected(next: seq<Hash>) returns (b: bool)
      ensures b <==> exists p :: p in next && p in rejected
    {
      for i := 0 to |next|
        invariant forall j :: 0 <= j < i ==> next[j] !in rejected
      {
        var p := next[i];
        if p in rejected {
          assert p in next;
          return true;
        }
      }
      return false;
    }

    method AddEntry(h: Hash)
      requires Indexed()
      modifies this
      ensures Indexed() && View() == Add(lib, old(View()), h)
      ensures if exists p :: p in lib.entryOf(h).next && p in old(rejected)
              then rejected == old(rejected) + {h} && fetched == old(fetched)
              else rejected == old(rejected) && fetched == old(fetched) + {h} && scheduled
    {
      var doomed := AnyRejected(lib.entryOf(h).next);
      if doomed {
        rejected := rejected + {h};
        return;
      }
      Remember(h);
      scheduled := true;
    }

    method ForgetAll(hashes: seq<Hash>)
      requires Indexed()
      modifies this`fetched, this`children
      ensures Indexed() && fetched == old(fetched) - (set h | h in hashes)
    {
      for i := 0 to |hashes|
        invariant Indexed() && forall h :: h in fetched <==> h in old(fetched) && h !in hashes[..i]
      {
        assert hashes[..i + 1] == hashes[..i] + [hashes[i]];
        Forget(hashes[i]);
      }
      assert hashes[..|hashes|] == hashes;
      assert forall h :: h in fetched <==> h in old(fetched) - (set x | x in hashes);
    }

    /** The first half of a run: takes the ready entries as the batch to merge. */
    method BeginRun(L: set<Hash>)
      requires Indexed() && batch.None?
      modifies this
      ensures Indexed() && View() == StartRun(lib, old(View()), L)
    {
      scheduled, stalled := false, false;
      var waiting := Listed(fetched);
      var ready := ReadyBatch(lib, waiting, L);
      assert forall h :: h in (set w | w in waiting) <==> h in fetched;
      assert (set w | w in waiting) == fetched;
      assert forall h :: h in ready <==> h in ReadyNow(lib, old(View()), L);
      if ready == [] {
        assert ReadyNow(lib, old(View()), L) == {};
        return;
      }
      assert ready[0] in ready;
      assert (set h | h in ready) == ReadyNow(lib, old(View()), L);
      ForgetAll(ready);
      batch := Some(ready);
    }

    method NotLanded(hashes: seq<Hash>, L: set<Hash>) returns (failed: seq<Hash>)
      ensures forall h :: h in failed <==> h in hashes && h !in L
    {
      failed := [];
      for i := 0 to |hashes|
        invariant forall h :: h in failed <==> h in hashes[..i] && h !in L
      {
        assert hashes[..i + 1] == hashes[..i] + [hashes[i]];
        if hashes[i] !in L {
          failed := failed + [hashes[i]];
        }
      }
      assert hashes[..|hashes|] == hashes;
    }

    /** The second half, once the merge returned: what did not land is rejected,
        and so is every waiting descendant of it. */
    method EndRun(L: set<Hash>)
      requires Indexed() && batch.Some?
      modifies this
      ensures Indexed() && View() == FinishRun(lib, old(View()), L)
    {
      var failed := NotLanded(batch.value, L);
      ghost var lost := old(View()).batch.value - L;
      assert forall h :: h in (set x | x in failed) <==> h in lost;
      assert (set h | h in failed) == lost;
      rejected := rejected + (set h | h in failed);
      batch := None;
      DropRejectedDescendants(failed);
    }

    /** The merge threw: the batch waits again for the next run. */
    method AbortRun()
      requires Indexed() && batch.Some?
      modifies this
      ensures Indexed() && View() == FailRun(old(View()))
      ensures batch.None? && rejected == old(rejected) && forall h :: h in fetched <==> h in old(fetched) || h in old(batch).value
    {
      var entries := batch.value;
      for i := 0 to |entries|
        invariant Indexed() && batch == old(batch) && rejected == old(rejected) && scheduled == old(scheduled)
        invariant forall h :: h in fetched <==> h in old(fetched) || h in entries[..i]
      {
        assert entries[..i + 1] == entries[..i] + [entries[i]];
        Remember(entries[i]);
      }
      assert entries[..|entries|] == entries;
      assert forall h :: h in fetched <==> h in old(fetched) + (set x | x in entries);
      assert fetched == old(fetched) + (set h | h in entries);
      batch, stalled := None, true;
    }

    method DiscardAll()
      modifies this`fetched, this`rejected, this`children
      ensures Indexed() && View() == Clear(old(View())) && fetched == {} && rejected == {}
    {
      fetched, rejected, children := {}, {}, map[];
    }
  }
}
