/** Causal past, as plain reachability along `next` and as the clock-pruned search
    that decides it. */
module Causal {
  import opened Entries

  /** `a` lies in the causal past of `h`. The clock guard makes the recursion
      well founded; `PastIsReachability` shows that it excludes no path in a log
      whose clocks were verified. */
  ghost predicate InPast(lib: Library, a: Hash, h: Hash)
    decreases Time(lib, h)
  {
    exists p :: p in Next(lib, h) && Time(lib, p) < Time(lib, h) && (p == a || InPast(lib, a, p))
  }

  /** `a` is one of `next` or in the causal past of one of them. */
  ghost predicate ReachedFrom(lib: Library, next: seq<Hash>, a: Hash) {
    exists p :: p in next && (p == a || InPast(lib, a, p))
  }

  /** Every parent of a member is a member with a smaller clock. */
  ghost predicate Clocked(lib: Library, E: set<Hash>) {
    forall h, p :: h in E && p in Next(lib, h) ==> p in E && Time(lib, p) < Time(lib, h)
  }

  /** A chain of `next` links, newest first. */
  ghost predicate Linked(lib: Library, path: seq<Hash>) {
    forall i :: 0 <= i < |path| - 1 ==> path[i + 1] in Next(lib, path[i])
  }

  lemma {:induction false} PastIsEarlier(lib: Library, a: Hash, h: Hash)
    requires InPast(lib, a, h)
    ensures Time(lib, a) < Time(lib, h)
    decreases Time(lib, h)
  {
    var p :| p in Next(lib, h) && Time(lib, p) < Time(lib, h) && (p == a || InPast(lib, a, p));
    if p != a {
      PastIsEarlier(lib, a, p);
    }
  }

  lemma {:induction false} PastTransitive(lib: Library, a: Hash, b: Hash, c: Hash)
    requires InPast(lib, a, b) && InPast(lib, b, c)
    ensures InPast(lib, a, c)
    decreases Time(lib, c)
  {
    var p :| p in Next(lib, c) && Time(lib, p) < Time(lib, c) && (p == b || InPast(lib, b, p));
    if p != b {
      PastTransitive(lib, a, b, p);
    }
  }

  lemma {:induction false} PastStaysInside(lib: Library, E: set<Hash>, a: Hash, h: Hash)
    requires Clocked(lib, E) && h in E && InPast(lib, a, h)
    ensures a in E
    decreases Time(lib, h)
  {
    var p :| p in Next(lib, h) && Time(lib, p) < Time(lib, h) && (p == a || InPast(lib, a, p));
    if p != a {
      PastStaysInside(lib, E, a, p);
    }
  }

  lemma ReachedStaysInside(lib: Library, E: set<Hash>, next: seq<Hash>, a: Hash)
    requires Clocked(lib, E) && (forall p :: p in next ==> p in E) && ReachedFrom(lib, next, a)
    ensures a in E
  {
    var p :| p in next && (p == a || InPast(lib, a, p));
    if p != a {
      PastStaysInside(lib, E, a, p);
    }
  }

  /** The past of an entry is what its parents reach, when their clocks are below its own. */
  lemma PastIsReachedFromNext(lib: Library, a: Hash, h: Hash)
    requires forall p :: p in Next(lib, h) ==> Time(lib, p) < Time(lib, h)
    ensures InPast(lib, a, h) <==> ReachedFrom(lib, Next(lib, h), a)
  {
  }

  /** In a clock-verified log the causal past is plain reachability: some chain
      of `next` links leads from `h` to `a`. */
  lemma PastIsReachability(lib: Library, E: set<Hash>, a: Hash, h: Hash)
    requires Clocked(lib, E) && h in E
    ensures InPast(lib, a, h) <==>
            exists path :: |path| >= 2 && path[0] == h && path[|path| - 1] == a && Linked(lib, path)
  {
    if InPast(lib, a, h) {
      var path := PathOfPast(lib, a, h);
      assert |path| >= 2 && path[0] == h && path[|path| - 1] == a && Linked(lib, path);
    }
    forall path: seq<Hash> | |path| >= 2 && path[0] == h && path[|path| - 1] == a && Linked(lib, path)
      ensures InPast(lib, a, h)
    {
      PastOfPath(lib, E, path);
    }
  }

  lemma {:induction false} PathOfPast(lib: Library, a: Hash, h: Hash) returns (path: seq<Hash>)
    requires InPast(lib, a, h)
    ensures |path| >= 2 && path[0] == h && path[|path| - 1] == a && Linked(lib, path)
    decreases Time(lib, h)
  {
    var p :| p in Next(lib, h) && Time(lib, p) < Time(lib, h) && (p == a || InPast(lib, a, p));
    if p == a {
      path := [h, a];
    } else {
      var rest := PathOfPast(lib, a, p);
      path := [h] + rest;
    }
  }

  lemma {:induction false} PastOfPath(lib: Library, E: set<Hash>, path: seq<Hash>)
    requires Clocked(lib, E) && |path| >= 2 && path[0] in E && Linked(lib, path)
    ensures InPast(lib, path[|path| - 1], path[0])
    decreases |path|
  {
    assert path[1] in Next(lib, path[0]);
    if |path| > 2 {
      assert path[1..][0] == path[1];
      PastOfPath(lib, E, path[1..]);
    }
  }

  // ---- The clock-pruned search -------------------------------------------

  /** A walk that has exhausted its stack has seen everything that leads to the
      ancestor: nothing below the ancestor's clock can. */
  lemma {:induction false} SeenClosure(lib: Library, E: set<Hash>, seen: set<Hash>, a: Hash, h: Hash)
    requires Clocked(lib, E) && a in E && h in E && h in seen
    requires forall s, p :: s in seen && s in E && Time(lib, s) > Time(lib, a) && p in Next(lib, s) ==> p in seen
    requires InPast(lib, a, h)
    ensures a in seen
    decreases Time(lib, h)
  {
    PastIsEarlier(lib, a, h);
    var p :| p in Next(lib, h) && Time(lib, p) < Time(lib, h) && (p == a || InPast(lib, a, p));
    if p != a {
      SeenClosure(lib, E, seen, a, p);
    }
  }

  /** What was seen or waits on the stack is reached, and the ancestor was not seen. */
  ghost predicate Reaching(lib: Library, E: set<Hash>, next: seq<Hash>, a: Hash, seen: set<Hash>, stack: seq<Hash>) {
    seen <= E && a !in seen &&
    (forall s :: s in stack ==> s in E && ReachedFrom(lib, next, s)) &&
    (forall s :: s in seen ==> ReachedFrom(lib, next, s))
  }

  /** Everything above the ancestor's clock that was seen had its parents noted. */
  ghost predicate Noted(lib: Library, next: seq<Hash>, a: Hash, seen: set<Hash>, stack: seq<Hash>) {
    (forall s :: s in next ==> s in seen || s in stack) &&
    (forall s, p :: s in seen && Time(lib, s) > Time(lib, a) && p in Next(lib, s) ==> p in seen || p in stack)
  }

  /** The walk's bookkeeping. */
  ghost predicate Searching(lib: Library, E: set<Hash>, next: seq<Hash>, a: Hash, seen: set<Hash>, stack: seq<Hash>) {
    Reaching(lib, E, next, a, seen, stack) && Noted(lib, next, a, seen, stack)
  }

  lemma SkipSeen(lib: Library, E: set<Hash>, next: seq<Hash>, a: Hash, seen: set<Hash>, stack: seq<Hash>)
    requires Searching(lib, E, next, a, seen, stack) && stack != [] && stack[|stack| - 1] in seen
    ensures Searching(lib, E, next, a, seen, stack[..|stack| - 1])
  {
    assert stack == stack[..|stack| - 1] + [stack[|stack| - 1]];
  }

  /** The parents the walk goes on to: none at or below the ancestor's clock. */
  function Above(lib: Library, a: Hash, hash: Hash): seq<Hash> {
    if Time(lib, hash) > Time(lib, a) then Next(lib, hash) else []
  }

  lemma NotedParents(lib: Library, next: seq<Hash>, a: Hash, seen: set<Hash>, rest: seq<Hash>, hash: Hash)
    requires Noted(lib, next, a, seen, rest + [hash])
    ensures Noted(lib, next, a, seen + {hash}, rest + Above(lib, a, hash))
  {
    var pushed := Above(lib, a, hash);
    assert forall s :: s in rest + [hash] <==> s in rest || s == hash;
    assert forall s :: s in rest + pushed <==> s in rest || s in pushed;
  }

  lemma ReachedParents(lib: Library, E: set<Hash>, next: seq<Hash>, a: Hash, seen: set<Hash>, rest: seq<Hash>, hash: Hash)
    requires Clocked(lib, E) && Reaching(lib, E, next, a, seen, rest + [hash]) && hash != a
    ensures Reaching(lib, E, next, a, seen + {hash}, rest + Above(lib, a, hash))
  {
    var pushed := Above(lib, a, hash);
    assert hash in rest + [hash] && forall s :: s in rest ==> s in rest + [hash];
    assert forall s :: s in rest + pushed <==> s in rest || s in pushed;
    forall p | p in pushed ensures p in E && ReachedFrom(lib, next, p) {
      ReachExtends(lib, next, hash, p);
    }
  }

  lemma NoteParents(lib: Library, E: set<Hash>, next: seq<Hash>, a: Hash, seen: set<Hash>, stack: seq<Hash>)
    requires Clocked(lib, E) && Searching(lib, E, next, a, seen, stack) && stack != [] && stack[|stack| - 1] != a
    ensures var hash := stack[|stack| - 1];
            Searching(lib, E, next, a, seen + {hash}, stack[..|stack| - 1] + Above(lib, a, hash))
  {
    var hash, rest := stack[|stack| - 1], stack[..|stack| - 1];
    assert stack == rest + [hash];
    NotedParents(lib, next, a, seen, rest, hash);
    ReachedParents(lib, E, next, a, seen, rest, hash);
  }

  method InCausalPast(lib: Library, entries: map<Hash, Entry>, ancestor: Hash, next: seq<Hash>) returns (found: bool)
    requires forall h :: h in entries ==> entries[h] == EntryOf(lib, h)
    requires Clocked(lib, entries.Keys)
    requires forall p :: p in next ==> p in entries
    ensures found <==> ReachedFrom(lib, next, ancestor)
  {
    if ancestor !in entries {
      if ReachedFrom(lib, next, ancestor) {
        ReachedStaysInside(lib, entries.Keys, next, ancestor);
      }
      return false;
    }
    var floor := entries[ancestor].time;
    var seen: set<Hash> := {};
    var stack := next;
    while stack != []
      invariant Searching(lib, entries.Keys, next, ancestor, seen, stack)
      decreases entries.Keys - seen, |stack|
    {
      var hash := stack[|stack| - 1];
      assert hash in stack;
      if hash == ancestor {
        return true;
      }
      if hash in seen {
        SkipSeen(lib, entries.Keys, next, ancestor, seen, stack);
        stack := stack[..|stack| - 1];
      } else {
        NoteParents(lib, entries.Keys, next, ancestor, seen, stack);
        seen := seen + {hash};
        stack := stack[..|stack| - 1] + if entries[hash].time > floor then entries[hash].next else [];
      }
    }
    if ReachedFrom(lib, next, ancestor) {
      var p :| p in next && (p == ancestor || InPast(lib, ancestor, p));
      SeenClosure(lib, entries.Keys, seen, ancestor, p);
    }
    return false;
  }

  lemma ReachExtends(lib: Library, next: seq<Hash>, h: Hash, p: Hash)
    requires ReachedFrom(lib, next, h) && p in Next(lib, h) && Time(lib, p) < Time(lib, h)
    ensures ReachedFrom(lib, next, p)
  {
    assert InPast(lib, p, h);
    var q :| q in next && (q == h || InPast(lib, h, q));
    if q != h {
      PastTransitive(lib, p, h, q);
    }
  }
}
