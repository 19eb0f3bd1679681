/** Replication end to end: one library's replicator as a step system over its
    log, its traversal and its merge orchestrator. */
module Sync {
  import opened Entries
  import opened Causal
  import opened Log
  import opened Convergence
  import opened Readiness
  import T = Traversals
  import O = Orchestrators

  /** A replicating peer: the entries landed, the traversal, the orchestrator,
      whether the batch of the run in progress has been merged, the heads heard
      while paused, whether the library was unlinked, and whether a local append has
      landed what a waiting entry names since the last run started. */
  datatype Peer = Peer(
    landed: set<Hash>,
    t: T.Traversal,
    o: O.Orchestrator,
    merged: bool,
    deferred: set<Hash>,
    unlinked: bool,
    stirred: bool)

  datatype Step =
    | Heard(heads: seq<Hash>)
    | Answered(h: Hash, ticket: nat, answer: T.Answer)
    | Paused
    | Resumed(retry: seq<Hash>, deferred: seq<Hash>)
    | Unlinked
    | RunStarted
    | BatchMerged
    | RunEnded
    | RunFailed
    | Appended(h: Hash)

  ghost function Batch(o: O.Orchestrator): set<Hash> {
    if o.batch.Some? then o.batch.value else {}
  }

  /** When a step can happen. Bytes pass only if the entry's own checks pass; a
      run starts only when scheduled and the previous one is over, its batch lands
      before it ends, and it may throw before or after that. */
  ghost predicate Enabled(lib: Library, s: Peer, step: Step) {
    match step
    case Heard(_) => true
    case Answered(h, _, answer) => answer == T.Bytes(Ok) ==> CheckEntry(lib, h).Ok?
    case Paused => !s.unlinked && !s.t.paused
    case Resumed(retry, deferred) =>
      !s.unlinked && s.t.paused && T.Retries(s.t, s.landed, retry) && forall h :: h in deferred <==> h in s.deferred
    case Unlinked => true
    case RunStarted => s.o.scheduled && s.o.batch.None?
    case BatchMerged => s.o.batch.Some? && !s.merged
    case RunEnded => s.o.batch.Some? && s.merged
    case RunFailed => s.o.batch.Some?
    case Appended(h) => Accept(lib, s.landed, h).Ok?
  }

  /** The orchestrator waits for `h`, as an entry or as a parent. */
  ghost predicate WaitsFor(lib: Library, o: O.Orchestrator, h: Hash) {
    h in o.waiting || exists w :: w in o.waiting && h in Next(lib, w)
  }

  ghost function Apply(lib: Library, concurrency: nat, s: Peer, step: Step): Peer
    requires Enabled(lib, s, step)
  {
    match step
    case Heard(heads) =>
      if s.unlinked then s
      else if s.t.paused then s.(deferred := s.deferred + (set h | h in heads))
      else s.(t := T.Enqueue(s.t, s.landed, concurrency, heads))
    case Answered(h, ticket, answer) =>
      var o := if T.Awaited(s.t, h, ticket) && answer == T.Bytes(Ok) then O.Add(lib, s.o, h) else s.o;
      s.(t := T.Respond(lib, s.t, s.landed, concurrency, h, ticket, answer), o := o)
    case Paused => s.(t := T.Pause(s.t))
    case Resumed(retry, deferred) =>
      var resumed := T.Resume(s.t, s.landed, concurrency, retry);
      s.(t := T.Enqueue(resumed, s.landed, concurrency, deferred), deferred := {})
    case Unlinked => s.(t := T.Discard(s.t), o := O.Clear(s.o), deferred := {}, unlinked := true)
    case RunStarted => s.(o := O.StartRun(lib, s.o, s.landed), merged := false, stirred := false)
    case BatchMerged => s.(landed := Merged(lib, s.landed, s.o.batch.value), merged := true)
    case RunEnded => s.(o := O.FinishRun(lib, s.o, s.landed))
    case RunFailed => s.(o := O.FailRun(s.o))
    case Appended(h) => s.(landed := s.landed + {h}, stirred := s.stirred || WaitsFor(lib, s.o, h))
  }

  // ---- What every step keeps ----------------------------------------------

  ghost predicate Handed(s: Peer) {
    forall h :: h in s.t.fetched ==> h in s.landed || h in s.o.waiting || h in Batch(s.o) || h in s.o.rejected
  }

  /** Unless a run is due, the last one threw, or a local append made it so, nothing
      waiting is ready. */
  ghost predicate Quiet(lib: Library, s: Peer) {
    !s.o.scheduled && !s.o.stalled && !s.stirred ==>
      forall h :: h in s.o.waiting ==> !Ready(lib, s.o.waiting, s.landed + Batch(s.o), h)
  }

  /** What the orchestrator has given up on is in no valid log, and so is what a
      merged batch did not land. */
  ghost predicate OnlyHopeless(lib: Library, s: Peer) {
    (forall h :: h in s.o.rejected ==> !Admissible(lib, h)) &&
    (s.merged ==> forall h :: h in Batch(s.o) ==> h in s.landed || !Admissible(lib, h))
  }

  ghost predicate Inv(lib: Library, concurrency: nat, s: Peer) {
    Valid(lib, s.landed) && T.Sound(lib, s.t, s.landed, concurrency) && !T.CanPump(s.t, concurrency) && Handed(s) &&
    OnlyHopeless(lib, s) && CausallyClosed(lib, s.landed, Batch(s.o)) && Quiet(lib, s) &&
    (s.o.batch.Some? ==> !s.o.stalled) && (s.deferred != {} ==> s.t.paused)
  }

  ghost function Fresh(E: set<Hash>): Peer { Peer(E, T.Empty(), O.Idle(), false, {}, false, false) }

  lemma FreshKeeps(lib: Library, concurrency: nat, E: set<Hash>)
    requires Valid(lib, E)
    ensures Inv(lib, concurrency, Fresh(E))
  {
  }

  /** Readiness can only shrink when waiting entries leave and what newly counts
      as landed was ready already. */
  lemma {:induction false} ReadyInCarriesBack(lib: Library, W: set<Hash>, L: set<Hash>, W': set<Hash>, L': set<Hash>, h: Hash, n: nat)
    requires W' <= W && (forall x :: x in L' ==> Ready(lib, W, L, x)) && ReadyIn(lib, W', L', h, n)
    ensures Ready(lib, W, L, h)
    decreases n
  {
    if h !in L' {
      forall p | p in Next(lib, h) ensures Ready(lib, W, L, p) {
        ReadyInCarriesBack(lib, W, L, W', L', p, n - 1);
      }
      ReadyFromParents(lib, W, L, h);
    }
  }

  lemma ReadyCarriesBack(lib: Library, W: set<Hash>, L: set<Hash>, W': set<Hash>, L': set<Hash>, h: Hash)
    requires W' <= W && (forall x :: x in L' ==> Ready(lib, W, L, x)) && Ready(lib, W', L', h)
    ensures Ready(lib, W, L, h)
  {
    var n: nat :| ReadyIn(lib, W', L', h, n);
    ReadyInCarriesBack(lib, W, L, W', L', h, n);
  }

  lemma LandedIsReady(lib: Library, W: set<Hash>, L: set<Hash>, x: Hash)
    requires x in L
    ensures Ready(lib, W, L, x)
  {
    assert ReadyIn(lib, W, L, x, 0);
  }

  lemma {:induction false} UnnamedIsIrrelevant(lib: Library, W: set<Hash>, L: set<Hash>, a: Hash, h: Hash, n: nat)
    requires (forall w :: w in W ==> a !in Next(lib, w)) && h != a && ReadyIn(lib, W, L + {a}, h, n)
    ensures ReadyIn(lib, W, L, h, n)
    decreases n
  {
    if h !in L {
      forall p | p in Next(lib, h) ensures ReadyIn(lib, W, L, p, n - 1) {
        UnnamedIsIrrelevant(lib, W, L, a, p, n - 1);
      }
    }
  }

  // ---- Rejected entries are in no valid log --------------------------------

  lemma HopelessChild(lib: Library, p: Hash, h: Hash)
    requires !Admissible(lib, p) && p in Next(lib, h)
    ensures !Admissible(lib, h)
  {
    forall V: set<Hash> | Valid(lib, V) ensures h !in V {
      ValidIsGrounded(lib, V);
      assert h in V ==> p in V;
    }
  }

  lemma {:induction false} DescendantIsHopeless(lib: Library, W: set<Hash>, roots: set<Hash>, h: Hash, n: nat)
    requires (forall r :: r in roots ==> !Admissible(lib, r)) && O.DescendsIn(lib, W, roots, h, n)
    ensures !Admissible(lib, h)
    decreases n
  {
    var p :| p in Next(lib, h) && (p in roots || (n > 0 && O.DescendsIn(lib, W, roots, p, n - 1)));
    if p !in roots {
      DescendantIsHopeless(lib, W, roots, p, n - 1);
    }
    HopelessChild(lib, p, h);
  }

  // ---- The invariant, step by step ----------------------------------------

  lemma AnsweredKeeps(lib: Library, concurrency: nat, s: Peer, h: Hash, ticket: nat, answer: T.Answer)
    requires Inv(lib, concurrency, s) && Enabled(lib, s, Answered(h, ticket, answer))
    ensures Inv(lib, concurrency, Apply(lib, concurrency, s, Answered(h, ticket, answer)))
  {
    var t' := T.Respond(lib, s.t, s.landed, concurrency, h, ticket, answer);
    T.RespondKeeps(lib, s.t, s.landed, concurrency, h, ticket, answer);
    if T.Awaited(s.t, h, ticket) {
      if answer == T.Bytes(Ok) {
        AddKeeps(lib, s, h);
        TookAnswer(lib, concurrency, s, t', O.Add(lib, s.o, h), {h});
      } else {
        TookAnswer(lib, concurrency, s, t', s.o, {});
      }
    }
  }

  /** The invariant after an answer, from what the traversal and the orchestrator keep. */
  lemma TookAnswer(lib: Library, concurrency: nat, s: Peer, t': T.Traversal, o': O.Orchestrator, more: set<Hash>)
    requires Inv(lib, concurrency, s) && T.Sound(lib, t', s.landed, concurrency) && !T.CanPump(t', concurrency)
    requires t'.paused == s.t.paused && t'.fetched == s.t.fetched + more
    requires OnlyHopeless(lib, s.(o := o')) && Quiet(lib, s.(o := o')) && o'.batch == s.o.batch && o'.stalled == s.o.stalled
    requires Handed(s.(o := o', t := s.t.(fetched := s.t.fetched + more)))
    ensures Inv(lib, concurrency, s.(t := t', o := o'))
  {
  }

  /** Handing a fetched entry to the orchestrator loses nothing and rejects only
      what no valid log holds. */
  lemma AddKeeps(lib: Library, s: Peer, h: Hash)
    requires Handed(s) && OnlyHopeless(lib, s) && Quiet(lib, s)
    ensures var o := O.Add(lib, s.o, h);
            OnlyHopeless(lib, s.(o := o)) && Quiet(lib, s.(o := o)) && o.batch == s.o.batch && o.stalled == s.o.stalled &&
            Handed(s.(o := o, t := s.t.(fetched := s.t.fetched + {h})))
  {
    if O.HasRejectedParent(lib, s.o.rejected, h) {
      var p :| p in Next(lib, h) && p in s.o.rejected;
      HopelessChild(lib, p, h);
    }
  }

  lemma FetchStepKeeps(lib: Library, concurrency: nat, s: Peer, step: Step)
    requires Inv(lib, concurrency, s) && Enabled(lib, s, step)
    requires step.Heard? || step.Paused? || step.Resumed? || step.Unlinked?
    ensures Inv(lib, concurrency, Apply(lib, concurrency, s, step))
  {
    match step
    case Heard(heads) => T.EnqueueKeeps(lib, s.t, s.landed, concurrency, heads);
    case Paused => T.PauseKeeps(lib, s.t, s.landed, concurrency);
    case Resumed(retry, deferred) =>
      T.ResumeKeeps(lib, s.t, s.landed, concurrency, retry);
      T.EnqueueKeeps(lib, T.Resume(s.t, s.landed, concurrency, retry), s.landed, concurrency, deferred);
    case Unlinked => T.DiscardKeeps(lib, s.t, s.landed, concurrency);
  }

  /** The batch a run takes names only parents that landed or that it takes too. */
  lemma ReadyIsClosed(lib: Library, o: O.Orchestrator, L: set<Hash>)
    requires Valid(lib, L)
    ensures CausallyClosed(lib, L, O.ReadyNow(lib, o, L))
  {
    var W, R := o.waiting, O.ReadyNow(lib, o, L);
    forall h, p | h in R && p in Next(lib, h) ensures p in L || p in R {
      if h in L {
        ValidIsGrounded(lib, L);
      } else {
        ReadyParents(lib, W, L, h);
        if p !in L {
          ReadyParents(lib, W, L, p);
        }
      }
    }
  }

  lemma RunStartedKeepsQuiet(lib: Library, s: Peer)
    requires Enabled(lib, s, RunStarted)
    ensures Quiet(lib, s.(o := O.StartRun(lib, s.o, s.landed), stirred := false))
  {
    var o := O.StartRun(lib, s.o, s.landed);
    var W, L := s.o.waiting, s.landed;
    forall h | h in o.waiting ensures !Ready(lib, o.waiting, L + Batch(o), h) {
      if Ready(lib, o.waiting, L + Batch(o), h) {
        forall x | x in L + Batch(o) ensures Ready(lib, W, L, x) {
          if x in L {
            LandedIsReady(lib, W, L, x);
          }
        }
        ReadyCarriesBack(lib, W, L, o.waiting, L + Batch(o), h);
      }
      assert Ready(lib, W, L, h) ==> h in O.ReadyNow(lib, s.o, L);
    }
  }

  lemma RunStartedKeeps(lib: Library, concurrency: nat, s: Peer)
    requires Inv(lib, concurrency, s) && Enabled(lib, s, RunStarted)
    ensures Inv(lib, concurrency, Apply(lib, concurrency, s, RunStarted))
  {
    ReadyIsClosed(lib, s.o, s.landed);
    RunStartedKeepsQuiet(lib, s);
  }

  /** A run's merge lands exactly the admissible entries of its batch. */
  lemma BatchMergedKeeps(lib: Library, concurrency: nat, s: Peer)
    requires Inv(lib, concurrency, s) && Enabled(lib, s, BatchMerged)
    ensures Inv(lib, concurrency, Apply(lib, concurrency, s, BatchMerged))
  {
    var B := s.o.batch.value;
    var landed := Merged(lib, s.landed, B);
    MergedIsLeast(lib, s.landed, B);
    MergedIsValid(lib, s.landed, B);
    T.LandedGrows(lib, s.t, s.landed, landed, concurrency);
    forall h | h in B ensures h in landed || !Admissible(lib, h) {
      ClosedBatchMergesTheAdmissible(lib, s.landed, B, h);
    }
    assert landed + B == s.landed + B;
  }

  lemma RunEndedKeepsQuiet(lib: Library, s: Peer)
    requires Quiet(lib, s) && Enabled(lib, s, RunEnded)
    ensures Quiet(lib, s.(o := O.FinishRun(lib, s.o, s.landed)))
  {
    var o := O.FinishRun(lib, s.o, s.landed);
    var W, L := s.o.waiting, s.landed + Batch(s.o);
    if !o.scheduled && !o.stalled && !s.stirred {
      forall h | h in o.waiting ensures !Ready(lib, o.waiting, s.landed + Batch(o), h) {
        if Ready(lib, o.waiting, s.landed + Batch(o), h) {
          forall x | x in s.landed + Batch(o) ensures Ready(lib, W, L, x) {
            LandedIsReady(lib, W, L, x);
          }
          ReadyCarriesBack(lib, W, L, o.waiting, s.landed + Batch(o), h);
        }
      }
    }
  }

  lemma RunEndedRejectsHopeless(lib: Library, s: Peer, h: Hash)
    requires OnlyHopeless(lib, s) && Enabled(lib, s, RunEnded) && h in O.FinishRun(lib, s.o, s.landed).rejected
    ensures !Admissible(lib, h)
  {
    var failed := s.o.batch.value - s.landed;
    var rest := s.o.waiting - (s.o.rejected + failed);
    if h in O.Descendants(lib, rest, failed) {
      var n: nat :| O.DescendsIn(lib, rest, failed, h, n);
      DescendantIsHopeless(lib, rest, failed, h, n);
    }
  }

  lemma RunEndedKeeps(lib: Library, concurrency: nat, s: Peer)
    requires Inv(lib, concurrency, s) && Enabled(lib, s, RunEnded)
    ensures Inv(lib, concurrency, Apply(lib, concurrency, s, RunEnded))
  {
    RunEndedKeepsQuiet(lib, s);
    forall h | h in O.FinishRun(lib, s.o, s.landed).rejected ensures !Admissible(lib, h) {
      RunEndedRejectsHopeless(lib, s, h);
    }
  }

  lemma AppendedKeepsQuiet(lib: Library, s: Peer, h: Hash)
    requires Quiet(lib, s) && !WaitsFor(lib, s.o, h)
    ensures Quiet(lib, s.(landed := s.landed + {h}))
  {
    var W, L := s.o.waiting, s.landed + Batch(s.o);
    forall w | w in W && Ready(lib, W, s.landed + {h} + Batch(s.o), w) ensures Ready(lib, W, L, w) {
      assert s.landed + {h} + Batch(s.o) == L + {h};
      var n: nat :| ReadyIn(lib, W, L + {h}, w, n);
      UnnamedIsIrrelevant(lib, W, L, h, w, n);
    }
  }

  lemma AppendedKeeps(lib: Library, concurrency: nat, s: Peer, h: Hash)
    requires Inv(lib, concurrency, s) && Enabled(lib, s, Appended(h))
    ensures Inv(lib, concurrency, Apply(lib, concurrency, s, Appended(h)))
  {
    InsertKeepsValid(lib, s.landed, h);
    T.LandedGrows(lib, s.t, s.landed, s.landed + {h}, concurrency);
    if !WaitsFor(lib, s.o, h) {
      AppendedKeepsQuiet(lib, s, h);
    }
  }

  lemma StepKeeps(lib: Library, concurrency: nat, s: Peer, step: Step)
    requires Inv(lib, concurrency, s) && Enabled(lib, s, step)
    ensures Inv(lib, concurrency, Apply(lib, concurrency, s, step))
    ensures s.landed <= Apply(lib, concurrency, s, step).landed
  {
    match step
    case Answered(h, ticket, answer) => AnsweredKeeps(lib, concurrency, s, h, ticket, answer);
    case RunStarted => RunStartedKeeps(lib, concurrency, s);
    case BatchMerged =>
      BatchMergedKeeps(lib, concurrency, s);
      MergedIsValid(lib, s.landed, s.o.batch.value);
    case RunEnded => RunEndedKeeps(lib, concurrency, s);
    case RunFailed =>
    case Appended(h) => AppendedKeeps(lib, concurrency, s, h);
    case Heard(_) => FetchStepKeeps(lib, concurrency, s, step);
    case Paused => FetchStepKeeps(lib, concurrency, s, step);
    case Resumed(_, _) => FetchStepKeeps(lib, concurrency, s, step);
    case Unlinked => FetchStepKeeps(lib, concurrency, s, step);
  }

  // ---- Runs ---------------------------------------------------------------

  /** `s` becomes `s'` by the given steps. */
  ghost predicate Runs(lib: Library, concurrency: nat, s: Peer, steps: seq<Step>, s': Peer)
    decreases |steps|
  {
    if steps == [] then s == s'
    else Enabled(lib, s, steps[0]) && Runs(lib, concurrency, Apply(lib, concurrency, s, steps[0]), steps[1..], s')
  }

  /** Safety of every run: the log stays valid and only grows, at most
      `concurrency` fetches are in flight, nothing fetched is lost, and whatever
      the orchestrator gave up on is in no valid log. */
  lemma {:induction false} EveryRunIsSafe(lib: Library, concurrency: nat, s: Peer, steps: seq<Step>, s': Peer)
    requires Inv(lib, concurrency, s) && Runs(lib, concurrency, s, steps, s')
    ensures Inv(lib, concurrency, s') && s.landed <= s'.landed
    decreases |steps|
  {
    if steps != [] {
      StepKeeps(lib, concurrency, s, steps[0]);
      EveryRunIsSafe(lib, concurrency, Apply(lib, concurrency, s, steps[0]), steps[1..], s');
    }
  }

  // ---- Catching up --------------------------------------------------------

  /** Nothing is in flight, queued or merging, no merge has thrown since, and
      every entry of `F` that was asked for was answered with its bytes. */
  ghost predicate Settled(s: Peer, F: set<Hash>) {
    T.Idle(s.t) && !s.t.paused && !s.o.scheduled && s.o.batch.None? && !s.o.stalled && !s.stirred &&
    forall h :: h in F ==> h !in s.t.unresolved && h !in s.t.rejected
  }

  lemma Fetched(lib: Library, concurrency: nat, s: Peer, F: set<Hash>, h: Hash)
    requires Inv(lib, concurrency, s) && Settled(s, F) && h in F && (h in s.t.enqueued || h in s.landed)
    ensures h in s.landed || h in s.t.fetched
  {
  }

  lemma {:induction false} PastIsFetched(lib: Library, concurrency: nat, s: Peer, F: set<Hash>, a: Hash, h: Hash)
    requires Inv(lib, concurrency, s) && Settled(s, F) && Valid(lib, F)
    requires h in F && InPast(lib, a, h) && (h in s.landed || h in s.t.fetched)
    ensures a in s.landed || a in s.t.fetched
    decreases Time(lib, h)
  {
    ValidIsGrounded(lib, F);
    ValidIsGrounded(lib, s.landed);
    var p :| p in Next(lib, h) && Time(lib, p) < Time(lib, h) && (p == a || InPast(lib, a, p));
    if h !in s.landed {
      assert p in Links(lib, h);
    }
    Fetched(lib, concurrency, s, F, p);
    if p != a {
      PastIsFetched(lib, concurrency, s, F, a, p);
    }
  }

  lemma AllFetched(lib: Library, concurrency: nat, s: Peer, F: set<Hash>, h: Hash)
    requires Inv(lib, concurrency, s) && Settled(s, F) && Valid(lib, F) && h in F
    requires forall g :: g in Heads(lib, F) ==> g in s.t.enqueued || g in s.landed
    ensures h in s.landed || h in s.t.fetched
  {
    ValidIsGrounded(lib, F);
    var head := EntryReachesHead(lib, F, h);
    Fetched(lib, concurrency, s, F, head);
    if head != h {
      PastIsFetched(lib, concurrency, s, F, h, head);
    }
  }

  lemma {:induction false} AllReady(lib: Library, concurrency: nat, s: Peer, F: set<Hash>, h: Hash)
    requires Inv(lib, concurrency, s) && Settled(s, F) && Valid(lib, F) && h in F
    requires forall x :: x in F ==> x in s.landed || x in s.t.fetched
    ensures Ready(lib, s.o.waiting, s.landed, h)
    decreases Time(lib, h)
  {
    if h in s.landed {
      LandedIsReady(lib, s.o.waiting, s.landed, h);
    } else {
      ValidIsGrounded(lib, F);
      forall p | p in Next(lib, h) ensures Ready(lib, s.o.waiting, s.landed, p) {
        AllReady(lib, concurrency, s, F, p);
      }
      assert h in s.o.waiting;
      ReadyFromParents(lib, s.o.waiting, s.landed, h);
    }
  }

  /** Once the heads of a valid log were enqueued and traversal and merging have
      settled, the receiver holds the whole of that log. */
  lemma ReceiverCatchesUp(lib: Library, concurrency: nat, s: Peer, F: set<Hash>)
    requires Inv(lib, concurrency, s) && Settled(s, F) && Valid(lib, F)
    requires forall g :: g in Heads(lib, F) ==> g in s.t.enqueued || g in s.landed
    ensures F <= s.landed
  {
    forall x | x in F ensures x in s.landed || x in s.t.fetched {
      AllFetched(lib, concurrency, s, F, x);
    }
    assert s.landed + Batch(s.o) == s.landed;
    forall h | h in F ensures h in s.landed {
      AllReady(lib, concurrency, s, F, h);
      assert h in s.t.fetched && h !in s.landed ==> h in s.o.waiting;
    }
  }

  // ---- Nothing else arrives -----------------------------------------------

  ghost predicate LinksInside(lib: Library, F: set<Hash>) {
    forall h, p :: h in F && p in Links(lib, h) ==> p in F
  }

  /** Everything asked for is from `F`, and everything landed from `F` or of the
      peer's own. */
  ghost predicate Confined(own: set<Hash>, F: set<Hash>, s: Peer) {
    s.t.enqueued <= F && s.deferred <= s.landed + F && s.o.waiting <= F && Batch(s.o) <= F && own <= s.landed <= own + F
  }

  /** A step that brings in nothing from outside: the heads heard are of `F`, or of
      entries the peer holds already. */
  predicate From(F: set<Hash>, s: Peer, step: Step) {
    step.Heard? ==> forall h :: h in step.heads ==> h in s.landed || h in F
  }

  /** The peer's own entries after a step. */
  function Own(own: set<Hash>, step: Step): set<Hash> {
    if step.Appended? then own + {step.h} else own
  }

  lemma {:induction false} PumpEnqueuesNothing(t: T.Traversal, L: set<Hash>, concurrency: nat)
    ensures T.Pump(t, L, concurrency).enqueued == t.enqueued
    decreases |t.queue|
  {
    if T.CanPump(t, concurrency) {
      PumpEnqueuesNothing(T.PumpOne(t, L), L, concurrency);
    }
  }

  lemma EnqueueConfined(t: T.Traversal, L: set<Hash>, concurrency: nat, hashes: seq<Hash>, F: set<Hash>)
    requires t.enqueued <= F && forall h :: h in hashes ==> h in F || h in L
    ensures T.Enqueue(t, L, concurrency, hashes).enqueued <= F
  {
    T.AddAllWithin(t, L, hashes, F);
    PumpEnqueuesNothing(T.AddAll(t, L, hashes), L, concurrency);
  }

  lemma ResumeEnqueuesNothing(t: T.Traversal, L: set<Hash>, concurrency: nat, retry: seq<Hash>)
    ensures T.Resume(t, L, concurrency, retry).enqueued == t.enqueued
  {
    PumpEnqueuesNothing(t.(paused := false,
                           unresolved := (t.unresolved - L) - (set h | h in retry),
                           queue := retry + T.Without(t.queue, retry)), L, concurrency);
  }

  lemma RespondConfined(lib: Library, t: T.Traversal, L: set<Hash>, concurrency: nat, h: Hash, ticket: nat, answer: T.Answer, F: set<Hash>)
    requires t.enqueued <= F && LinksInside(lib, F) && (h in t.inFlight ==> h in F)
    ensures T.Respond(lib, t, L, concurrency, h, ticket, answer).enqueued <= F
  {
    if T.Awaited(t, h, ticket) {
      var settled := t.(inFlight := t.inFlight - {h});
      match answer
      case NoBytes => PumpEnqueuesNothing(settled.(unresolved := t.unresolved + {h}), L, concurrency);
      case Bytes(verdict) =>
        var seen := settled.(unresolved := t.unresolved - {h}, checks := t.checks + [h]);
        T.AddAllWithin(seen.(fetched := t.fetched + {h}), L, Links(lib, h), F);
        PumpEnqueuesNothing(T.Land(lib, settled, L, h, verdict), L, concurrency);
    }
  }

  lemma StepConfined(lib: Library, concurrency: nat, s: Peer, step: Step, E: set<Hash>, F: set<Hash>)
    requires Inv(lib, concurrency, s) && Enabled(lib, s, step) && From(F, s, step)
    requires LinksInside(lib, F) && Confined(E, F, s)
    ensures Confined(Own(E, step), F, Apply(lib, concurrency, s, step))
  {
    match step
    case BatchMerged => MergedIsLeast(lib, s.landed, s.o.batch.value);
    case Paused =>
    case Unlinked =>
    case RunStarted =>
    case RunEnded =>
    case RunFailed =>
    case Appended(_) =>
    case Heard(_) => FetchStepConfined(lib, concurrency, s, step, E, F);
    case Answered(_, _, _) => FetchStepConfined(lib, concurrency, s, step, E, F);
    case Resumed(_, _) => FetchStepConfined(lib, concurrency, s, step, E, F);
  }

  lemma FetchStepConfined(lib: Library, concurrency: nat, s: Peer, step: Step, E: set<Hash>, F: set<Hash>)
    requires Enabled(lib, s, step) && From(F, s, step) && (step.Heard? || step.Answered? || step.Resumed?)
    requires LinksInside(lib, F) && Confined(E, F, s) && forall h :: h in s.t.inFlight ==> h in s.t.enqueued
    ensures Confined(E, F, Apply(lib, concurrency, s, step))
  {
    match step
    case Heard(heads) => EnqueueConfined(s.t, s.landed, concurrency, heads, F);
    case Answered(h, ticket, answer) => RespondConfined(lib, s.t, s.landed, concurrency, h, ticket, answer, F);
    case Resumed(retry, deferred) =>
      ResumeEnqueuesNothing(s.t, s.landed, concurrency, retry);
      EnqueueConfined(T.Resume(s.t, s.landed, concurrency, retry), s.landed, concurrency, deferred, F);
  }

  // ---- Heads that were heard ------------------------------------------------

  /** `g` was asked for, has landed, or waits for the next resume. */
  ghost predicate Asked(s: Peer, g: Hash) {
    g in s.t.enqueued || g in s.landed || g in s.deferred
  }

  lemma HeardIsAsked(lib: Library, concurrency: nat, s: Peer, heads: seq<Hash>, g: Hash)
    requires Inv(lib, concurrency, s) && !s.unlinked && g in heads
    ensures Asked(Apply(lib, concurrency, s, Heard(heads)), g)
  {
    if !s.t.paused {
      T.EnqueueKeeps(lib, s.t, s.landed, concurrency, heads);
    }
  }

  lemma AskedStays(lib: Library, concurrency: nat, s: Peer, step: Step, g: Hash)
    requires Inv(lib, concurrency, s) && Enabled(lib, s, step) && !step.Unlinked? && Asked(s, g)
    ensures Asked(Apply(lib, concurrency, s, step), g)
  {
    match step
    case Heard(heads) => T.EnqueueKeeps(lib, s.t, s.landed, concurrency, heads);
    case Answered(h, ticket, answer) => T.RespondKeeps(lib, s.t, s.landed, concurrency, h, ticket, answer);
    case Resumed(retry, deferred) =>
      ResumeEnqueuesNothing(s.t, s.landed, concurrency, retry);
      T.ResumeKeeps(lib, s.t, s.landed, concurrency, retry);
      T.EnqueueKeeps(lib, T.Resume(s.t, s.landed, concurrency, retry), s.landed, concurrency, deferred);
    case BatchMerged => MergedIsLeast(lib, s.landed, s.o.batch.value);
    case _ =>
  }

  /** In a run, all of `F`'s heads were heard at once, and the library stayed linked. */
  ghost predicate Hears(lib: Library, steps: seq<Step>, F: set<Hash>) {
    (forall i :: 0 <= i < |steps| ==> !steps[i].Unlinked?) &&
    exists i :: 0 <= i < |steps| && steps[i].Heard? && forall g :: g in Heads(lib, F) ==> g in steps[i].heads
  }

  lemma {:induction false} RunKeepsAsked(lib: Library, concurrency: nat, s: Peer, steps: seq<Step>, s': Peer, g: Hash)
    requires Inv(lib, concurrency, s) && Runs(lib, concurrency, s, steps, s') && !s.unlinked
    requires forall i :: 0 <= i < |steps| ==> !steps[i].Unlinked?
    requires Asked(s, g) || exists i :: 0 <= i < |steps| && steps[i].Heard? && g in steps[i].heads
    ensures Asked(s', g)
    decreases |steps|
  {
    if steps != [] {
      var next := Apply(lib, concurrency, s, steps[0]);
      StepKeeps(lib, concurrency, s, steps[0]);
      if Asked(s, g) {
        AskedStays(lib, concurrency, s, steps[0], g);
      } else if steps[0].Heard? && g in steps[0].heads {
        HeardIsAsked(lib, concurrency, s, steps[0].heads, g);
      } else {
        var i :| 0 <= i < |steps| && steps[i].Heard? && g in steps[i].heads;
        assert steps[1..][i - 1] == steps[i];
      }
      RunKeepsAsked(lib, concurrency, next, steps[1..], s', g);
    }
  }

  /** Along a run, every head heard is of `F` or held already. */
  ghost predicate HearsOnly(lib: Library, concurrency: nat, F: set<Hash>, s: Peer, steps: seq<Step>)
    decreases |steps|
  {
    steps != [] && Enabled(lib, s, steps[0]) ==>
      From(F, s, steps[0]) && HearsOnly(lib, concurrency, F, Apply(lib, concurrency, s, steps[0]), steps[1..])
  }

  /** The entries appended locally in a run. */
  function Appends(steps: seq<Step>): set<Hash>
    decreases |steps|
  {
    if steps == [] then {} else (if steps[0].Appended? then {steps[0].h} else {}) + Appends(steps[1..])
  }

  lemma {:induction false} RunConfined(lib: Library, concurrency: nat, s: Peer, steps: seq<Step>, s': Peer, own: set<Hash>, F: set<Hash>)
    requires Inv(lib, concurrency, s) && Runs(lib, concurrency, s, steps, s') && HearsOnly(lib, concurrency, F, s, steps)
    requires LinksInside(lib, F) && Confined(own, F, s)
    ensures Confined(own + Appends(steps), F, s')
    decreases |steps|
  {
    if steps == [] {
      assert own + Appends(steps) == own;
    } else {
      var next := Apply(lib, concurrency, s, steps[0]);
      StepConfined(lib, concurrency, s, steps[0], own, F);
      StepKeeps(lib, concurrency, s, steps[0]);
      RunConfined(lib, concurrency, next, steps[1..], s', Own(own, steps[0]), F);
      assert Own(own, steps[0]) + Appends(steps[1..]) == own + Appends(steps);
    }
  }

  // ---- What a peer at rest holds --------------------------------------------

  /** Everything landed or under way is the peer's own or was fetched. */
  ghost predicate Gathered(own: set<Hash>, s: Peer) {
    own <= s.landed <= own + s.t.fetched && s.o.waiting <= s.t.fetched && Batch(s.o) <= s.t.fetched
  }

  lemma FetchStepGathers(lib: Library, concurrency: nat, s: Peer, step: Step, own: set<Hash>)
    requires T.Sound(lib, s.t, s.landed, concurrency) && Enabled(lib, s, step) && Gathered(own, s)
    requires step.Heard? || step.Resumed?
    ensures Gathered(own, Apply(lib, concurrency, s, step))
  {
    match step
    case Heard(heads) => T.EnqueueKeeps(lib, s.t, s.landed, concurrency, heads);
    case Resumed(retry, deferred) =>
      T.ResumeKeeps(lib, s.t, s.landed, concurrency, retry);
      T.EnqueueKeeps(lib, T.Resume(s.t, s.landed, concurrency, retry), s.landed, concurrency, deferred);
  }

  lemma AnswerGathers(lib: Library, concurrency: nat, s: Peer, h: Hash, ticket: nat, answer: T.Answer, own: set<Hash>)
    requires T.Sound(lib, s.t, s.landed, concurrency) && Enabled(lib, s, Answered(h, ticket, answer)) && Gathered(own, s)
    ensures Gathered(own, Apply(lib, concurrency, s, Answered(h, ticket, answer)))
  {
    T.RespondKeeps(lib, s.t, s.landed, concurrency, h, ticket, answer);
    O.AddLeavesBatch(lib, s.o, h);
  }

  lemma StepGathers(lib: Library, concurrency: nat, s: Peer, step: Step, own: set<Hash>)
    requires Inv(lib, concurrency, s) && Enabled(lib, s, step) && !step.Unlinked? && Gathered(own, s)
    ensures Gathered(Own(own, step), Apply(lib, concurrency, s, step))
  {
    match step
    case Heard(_) => FetchStepGathers(lib, concurrency, s, step, own);
    case Resumed(_, _) => FetchStepGathers(lib, concurrency, s, step, own);
    case Answered(h, ticket, answer) => AnswerGathers(lib, concurrency, s, h, ticket, answer, own);
    case BatchMerged => MergedIsLeast(lib, s.landed, s.o.batch.value);
    case _ =>
  }

  lemma {:induction false} RunGathers(lib: Library, concurrency: nat, s: Peer, steps: seq<Step>, s': Peer, own: set<Hash>)
    requires Inv(lib, concurrency, s) && Runs(lib, concurrency, s, steps, s') && Gathered(own, s)
    requires forall i :: 0 <= i < |steps| ==> !steps[i].Unlinked?
    ensures Gathered(own + Appends(steps), s')
    decreases |steps|
  {
    if steps == [] {
      assert own + Appends(steps) == own;
    } else {
      StepGathers(lib, concurrency, s, steps[0], own);
      StepKeeps(lib, concurrency, s, steps[0]);
      RunGathers(lib, concurrency, Apply(lib, concurrency, s, steps[0]), steps[1..], s', Own(own, steps[0]));
      assert Own(own, steps[0]) + Appends(steps[1..]) == own + Appends(steps);
    }
  }

  /** No run is due or going on, and none would find anything ready. */
  ghost predicate AtRest(s: Peer) {
    !s.o.scheduled && s.o.batch.None? && !s.o.stalled && !s.stirred
  }

  lemma {:induction false} CompleteLands(lib: Library, concurrency: nat, own: set<Hash>, s: Peer, h: Hash)
    requires Inv(lib, concurrency, s) && Gathered(own, s) && AtRest(s) && Complete(lib, own + s.t.fetched, h)
    ensures h in s.landed
    decreases Time(lib, h)
  {
    if h !in s.landed {
      assert h in s.o.waiting;
      forall p | p in Next(lib, h) ensures p in s.landed {
        ParentIsComplete(lib, own + s.t.fetched, p, h);
        CompleteLands(lib, concurrency, own, s, p);
      }
      WouldBeReady(lib, s, h);
    }
  }

  lemma ParentIsComplete(lib: Library, U: set<Hash>, p: Hash, h: Hash)
    requires Complete(lib, U, h) && p in Next(lib, h)
    ensures Complete(lib, U, p) && Time(lib, p) < Time(lib, h)
  {
    var V: set<Hash> :| Valid(lib, V) && h in V;
    ValidIsGrounded(lib, V);
    assert InPast(lib, p, h);
    forall a | InPast(lib, a, p) ensures a in U {
      PastTransitive(lib, a, p, h);
    }
  }

  lemma WouldBeReady(lib: Library, s: Peer, h: Hash)
    requires Quiet(lib, s) && AtRest(s) && h in s.o.waiting
    ensures exists p :: p in Next(lib, h) && p !in s.landed
  {
    assert s.landed + Batch(s.o) == s.landed;
    if forall p :: p in Next(lib, h) ==> p in s.landed {
      forall p | p in Next(lib, h) ensures Ready(lib, s.o.waiting, s.landed, p) {
        LandedIsReady(lib, s.o.waiting, s.landed, p);
      }
      ReadyFromParents(lib, s.o.waiting, s.landed, h);
    }
  }

  /** At rest a peer holds, of its own entries and those it fetched, exactly the
      complete ones: what one merge of them all would keep. */
  lemma RestIsComplete(lib: Library, concurrency: nat, own: set<Hash>, s: Peer, h: Hash)
    requires Inv(lib, concurrency, s) && Gathered(own, s) && AtRest(s)
    ensures h in s.landed <==> Complete(lib, own + s.t.fetched, h)
  {
    if h in s.landed {
      ValidIsGrounded(lib, s.landed);
      forall a | InPast(lib, a, h) ensures a in own + s.t.fetched {
        PastStaysInside(lib, s.landed, a, h);
      }
    } else if Complete(lib, own + s.t.fetched, h) {
      CompleteLands(lib, concurrency, own, s, h);
    }
  }

  // ---- The end-to-end theorems --------------------------------------------

  /** A run of a peer that starts at `E`, hears all heads of `F` at some point, stays
      linked, and settles. */
  ghost predicate SyncRun(lib: Library, concurrency: nat, E: set<Hash>, F: set<Hash>, steps: seq<Step>, s: Peer) {
    Runs(lib, concurrency, Fresh(E), steps, s) && Hears(lib, steps, F) && Settled(s, F)
  }

  /** Nothing leads out of `F`: the links of its entries stay inside, and no other heads
      are heard but of entries held already. */
  ghost predicate Sealed(lib: Library, concurrency: nat, E: set<Hash>, F: set<Hash>, steps: seq<Step>) {
    LinksInside(lib, F) && HearsOnly(lib, concurrency, F, Fresh(E), steps)
  }

  /** All a peer has had in hand: what it started with, appended and fetched. */
  ghost function Known(E: set<Hash>, steps: seq<Step>, s: Peer): set<Hash> { E + Appends(steps) + s.t.fetched }

  /** A peer that starts at the valid log `E`, hears the heads of the valid log `F` and
      settles holds both and what it appended meanwhile, and in all exactly the complete
      ones of the entries it has had in hand. Where nothing leads out of `F` that is the
      union. */
  lemma SyncReachesUnion(lib: Library, concurrency: nat, E: set<Hash>, F: set<Hash>, steps: seq<Step>, s: Peer)
    requires Valid(lib, E) && Valid(lib, F) && SyncRun(lib, concurrency, E, F, steps, s)
    ensures Valid(lib, s.landed) && E + F + Appends(steps) <= s.landed
    ensures forall h :: h in s.landed <==> Complete(lib, Known(E, steps, s), h)
    ensures Sealed(lib, concurrency, E, F, steps) ==> s.landed == E + F + Appends(steps)
  {
    HoldsTheComplete(lib, concurrency, E, steps, s);
    HearingBringsAll(lib, concurrency, E, F, steps, s);
    if Sealed(lib, concurrency, E, F, steps) {
      FreshKeeps(lib, concurrency, E);
      RunConfined(lib, concurrency, Fresh(E), steps, s, E, F);
      assert E + Appends(steps) + F == E + F + Appends(steps);
    }
  }

  /** Any run that stays linked and comes to rest holds exactly the complete ones of the
      entries the peer has had in hand. */
  lemma HoldsTheComplete(lib: Library, concurrency: nat, E: set<Hash>, steps: seq<Step>, s: Peer)
    requires Valid(lib, E) && Runs(lib, concurrency, Fresh(E), steps, s) && AtRest(s)
    requires forall i :: 0 <= i < |steps| ==> !steps[i].Unlinked?
    ensures Valid(lib, s.landed) && E + Appends(steps) <= s.landed
    ensures forall h :: h in s.landed <==> Complete(lib, Known(E, steps, s), h)
  {
    FreshKeeps(lib, concurrency, E);
    EveryRunIsSafe(lib, concurrency, Fresh(E), steps, s);
    RunGathers(lib, concurrency, Fresh(E), steps, s, E);
    forall h ensures h in s.landed <==> Complete(lib, Known(E, steps, s), h) {
      RestIsComplete(lib, concurrency, E + Appends(steps), s, h);
    }
  }

  lemma HearingBringsAll(lib: Library, concurrency: nat, E: set<Hash>, F: set<Hash>, steps: seq<Step>, s: Peer)
    requires Valid(lib, E) && Valid(lib, F) && SyncRun(lib, concurrency, E, F, steps, s)
    ensures F <= s.landed
  {
    FreshKeeps(lib, concurrency, E);
    EveryRunIsSafe(lib, concurrency, Fresh(E), steps, s);
    forall g | g in Heads(lib, F) ensures g in s.t.enqueued || g in s.landed {
      RunKeepsAsked(lib, concurrency, Fresh(E), steps, s, g);
    }
    ReceiverCatchesUp(lib, concurrency, s, F);
  }

  /** Two logs hold the same entries, with the same heads, effective revocations and
      inert entries, and resolve every key alike. */
  ghost predicate SameState(lib: Library, A: set<Hash>, B: set<Hash>) {
    A == B && Heads(lib, A) == Heads(lib, B) && Effective(lib, A) == Effective(lib, B) && Inert(lib, A) == Inert(lib, B) &&
    forall a, b :: Resolves(lib, A, Inert(lib, A), a) && Resolves(lib, B, Inert(lib, B), b) ==> a == b
  }

  lemma SameLogSameState(lib: Library, A: set<Hash>, B: set<Hash>)
    requires A == B
    ensures SameState(lib, A, B)
  {
    forall a, b | Resolves(lib, A, Inert(lib, A), a) && Resolves(lib, B, Inert(lib, B), b) ensures a == b {
      CurrentIsUnique(lib, A, Inert(lib, A), a, b);
    }
  }

  /** After an exchange both ways two peers agree exactly when the same entries are
      complete for both. Where nothing leads out of either log and neither appended,
      that is so, and both hold the union. */
  lemma ExchangeConverges(lib: Library, concurrency: nat, E: set<Hash>, F: set<Hash>,
                          steps: seq<Step>, s: Peer, others: seq<Step>, r: Peer)
    requires Valid(lib, E) && Valid(lib, F)
    requires SyncRun(lib, concurrency, E, F, steps, s) && SyncRun(lib, concurrency, F, E, others, r)
    ensures E + F <= s.landed && E + F <= r.landed
    ensures SameState(lib, s.landed, r.landed) <==>
            forall h :: Complete(lib, Known(E, steps, s), h) <==> Complete(lib, Known(F, others, r), h)
    ensures Sealed(lib, concurrency, E, F, steps) && Sealed(lib, concurrency, F, E, others) && Appends(steps) == Appends(others) ==>
              SameState(lib, s.landed, r.landed) && s.landed == E + F + Appends(steps)
  {
    SyncReachesUnion(lib, concurrency, E, F, steps, s);
    SyncReachesUnion(lib, concurrency, F, E, others, r);
    SameExactly(lib, s.landed, r.landed, Known(E, steps, s), Known(F, others, r));
    assert E + F == F + E;
    if s.landed == r.landed {
      SameLogSameState(lib, s.landed, r.landed);
    }
  }

  lemma SameExactly(lib: Library, A: set<Hash>, B: set<Hash>, U: set<Hash>, V: set<Hash>)
    requires forall h :: h in A <==> Complete(lib, U, h)
    requires forall h :: h in B <==> Complete(lib, V, h)
    ensures SameState(lib, A, B) <==> forall h :: Complete(lib, U, h) <==> Complete(lib, V, h)
  {
    if forall h :: Complete(lib, U, h) <==> Complete(lib, V, h) {
      assert forall h :: h in A <==> h in B;
      SameLogSameState(lib, A, B);
    }
  }

  /** Whatever two peers of one library did before, local appends included: when each
      has asked for the other's heads and both have settled, they hold the same log
      and the same state. */
  lemma SettledPeersAgree(lib: Library, concurrency: nat, E: set<Hash>, F: set<Hash>,
                          steps: seq<Step>, s: Peer, others: seq<Step>, r: Peer)
    requires Valid(lib, E) && Runs(lib, concurrency, Fresh(E), steps, s) && Settled(s, r.landed)
    requires Valid(lib, F) && Runs(lib, concurrency, Fresh(F), others, r) && Settled(r, s.landed)
    requires forall g :: g in Heads(lib, r.landed) ==> Asked(s, g)
    requires forall g :: g in Heads(lib, s.landed) ==> Asked(r, g)
    ensures SameState(lib, s.landed, r.landed) && E + F <= s.landed
  {
    StaysValid(lib, concurrency, E, steps, s);
    StaysValid(lib, concurrency, F, others, r);
    HoldsTheOther(lib, concurrency, E, steps, s, r.landed);
    HoldsTheOther(lib, concurrency, F, others, r, s.landed);
    SameLogSameState(lib, s.landed, r.landed);
  }

  lemma StaysValid(lib: Library, concurrency: nat, E: set<Hash>, steps: seq<Step>, s: Peer)
    requires Valid(lib, E) && Runs(lib, concurrency, Fresh(E), steps, s)
    ensures Valid(lib, s.landed) && E <= s.landed
  {
    FreshKeeps(lib, concurrency, E);
    EveryRunIsSafe(lib, concurrency, Fresh(E), steps, s);
  }

  lemma HoldsTheOther(lib: Library, concurrency: nat, E: set<Hash>, steps: seq<Step>, s: Peer, F: set<Hash>)
    requires Valid(lib, E) && Runs(lib, concurrency, Fresh(E), steps, s) && Settled(s, F) && Valid(lib, F)
    requires forall g :: g in Heads(lib, F) ==> Asked(s, g)
    ensures F <= s.landed
  {
    FreshKeeps(lib, concurrency, E);
    EveryRunIsSafe(lib, concurrency, Fresh(E), steps, s);
    ReceiverCatchesUp(lib, concurrency, s, F);
  }

  // ---- Answered runs come to an end -----------------------------------------

  /** A step of work in hand: an awaited fetch answered with its own bytes, or a run
      starting, merging its batch or ending. */
  ghost predicate Works(lib: Library, s: Peer, step: Step) {
    Enabled(lib, s, step) &&
    match step
    case Answered(h, ticket, answer) => T.Awaited(s.t, h, ticket) && answer == T.Bytes(CheckEntry(lib, h))
    case RunStarted => true
    case BatchMerged => true
    case RunEnded => true
    case _ => false
  }

  /** The work left: each entry of `F` still to check, and the runs due or going on. */
  ghost function WorkLeft(F: set<Hash>, s: Peer): nat {
    4 * |F - s.t.fetched - s.t.rejected| + (if s.o.scheduled then 3 else 0) +
    (if s.o.batch.None? then 0 else if s.merged then 1 else 2)
  }

  lemma CheckedShrinks(F: set<Hash>, t: T.Traversal, h: Hash, verdict: Verdict, t': T.Traversal)
    requires h in F && h !in t.fetched && h !in t.rejected && T.Answers(t, h, T.Bytes(verdict), t')
    ensures |F - t'.fetched - t'.rejected| == |F - t.fetched - t.rejected| - 1
  {
    var before, after := F - t.fetched - t.rejected, F - t'.fetched - t'.rejected;
    assert forall x :: x in after <==> x in before - {h};
    assert after == before - {h};
  }

  lemma LessToCheck(F: set<Hash>, s: Peer, t': T.Traversal, o': O.Orchestrator)
    requires |F - t'.fetched - t'.rejected| < |F - s.t.fetched - s.t.rejected| && o'.batch == s.o.batch
    ensures WorkLeft(F, s.(t := t', o := o')) < WorkLeft(F, s)
  {
  }

  lemma AnswerShrinks(lib: Library, concurrency: nat, F: set<Hash>, s: Peer, h: Hash, ticket: nat, verdict: Verdict)
    requires T.Sound(lib, s.t, s.landed, concurrency) && s.t.enqueued <= F && Works(lib, s, Answered(h, ticket, T.Bytes(verdict)))
    ensures WorkLeft(F, Apply(lib, concurrency, s, Answered(h, ticket, T.Bytes(verdict)))) < WorkLeft(F, s)
  {
    var t' := T.Respond(lib, s.t, s.landed, concurrency, h, ticket, T.Bytes(verdict));
    T.AwaitedKeeps(lib, s.t, s.landed, concurrency, h, ticket, T.Bytes(verdict));
    T.InFlightIsUnchecked(lib, s.t, s.landed, concurrency, h);
    O.AddLeavesBatch(lib, s.o, h);
    CheckedShrinks(F, s.t, h, verdict, t');
    LessToCheck(F, s, t', if verdict.Ok? then O.Add(lib, s.o, h) else s.o);
  }

  lemma WorkShrinks(lib: Library, concurrency: nat, F: set<Hash>, s: Peer, step: Step)
    requires Inv(lib, concurrency, s) && s.t.enqueued <= F && Works(lib, s, step)
    ensures WorkLeft(F, Apply(lib, concurrency, s, step)) < WorkLeft(F, s)
  {
    if step.Answered? {
      AnswerShrinks(lib, concurrency, F, s, step.h, step.ticket, CheckEntry(lib, step.h));
    }
  }

  /** Nothing stands in the way of `F`: not paused, unlinked or stalled, and none of
      its entries given up or unresolved. */
  ghost predicate Clear(s: Peer, F: set<Hash>) {
    !s.t.paused && !s.unlinked && !s.o.stalled && !s.stirred && forall h :: h in F ==> h !in s.t.unresolved && h !in s.t.rejected
  }

  lemma WorkStaysClear(lib: Library, concurrency: nat, F: set<Hash>, s: Peer, step: Step)
    requires Inv(lib, concurrency, s) && Valid(lib, F) && Clear(s, F) && Works(lib, s, step)
    ensures Clear(Apply(lib, concurrency, s, step), F)
  {
    if step.Answered? {
      T.AwaitedKeeps(lib, s.t, s.landed, concurrency, step.h, step.ticket, step.answer);
      assert step.h in F ==> Accept(lib, F, step.h).Ok?;
    }
  }

  /** While the peer has not settled there is work it can do. */
  lemma UnsettledHasWork(lib: Library, concurrency: nat, F: set<Hash>, s: Peer) returns (step: Step)
    requires concurrency > 0 && Inv(lib, concurrency, s) && Clear(s, F) && !Settled(s, F)
    ensures Works(lib, s, step)
  {
    if s.o.batch.Some? {
      step := if s.merged then RunEnded else BatchMerged;
    } else if s.o.scheduled {
      step := RunStarted;
    } else {
      var h := SomeInFlight(s.t, concurrency);
      step := Answered(h, s.t.inFlight[h], T.Bytes(CheckEntry(lib, h)));
    }
  }

  lemma SomeInFlight(t: T.Traversal, concurrency: nat) returns (h: Hash)
    requires concurrency > 0 && !T.CanPump(t, concurrency) && !t.paused && !T.Idle(t)
    ensures h in t.inFlight
  {
    assert (forall x :: x !in t.inFlight) ==> t.inFlight == map[];
    h :| h in t.inFlight;
  }

  /** A run of work alone. */
  ghost predicate WorkRun(lib: Library, concurrency: nat, s: Peer, steps: seq<Step>, s': Peer)
    decreases |steps|
  {
    if steps == [] then s == s'
    else Works(lib, s, steps[0]) && WorkRun(lib, concurrency, Apply(lib, concurrency, s, steps[0]), steps[1..], s')
  }

  /** A state from which work reaches `F`: everything asked for is from `U`, whose links
      stay inside it, and nothing stands in the way of `F`. */
  ghost predicate OnItsWay(lib: Library, concurrency: nat, E: set<Hash>, F: set<Hash>, U: set<Hash>, s: Peer) {
    Inv(lib, concurrency, s) && Valid(lib, F) && F <= U && LinksInside(lib, U) &&
    Confined(E, U, s) && Gathered(E, s) && Clear(s, F)
  }

  lemma WorkGoesOn(lib: Library, concurrency: nat, E: set<Hash>, F: set<Hash>, U: set<Hash>, s: Peer, step: Step)
    requires OnItsWay(lib, concurrency, E, F, U, s) && Works(lib, s, step)
    ensures OnItsWay(lib, concurrency, E, F, U, Apply(lib, concurrency, s, step))
    ensures WorkLeft(U, Apply(lib, concurrency, s, step)) < WorkLeft(U, s)
  {
    StepKeeps(lib, concurrency, s, step);
    StepConfined(lib, concurrency, s, step, E, U);
    StepGathers(lib, concurrency, s, step, E);
    WorkShrinks(lib, concurrency, U, s, step);
    WorkStaysClear(lib, concurrency, F, s, step);
  }

  lemma {:induction false} WorkRunEnds(lib: Library, concurrency: nat, E: set<Hash>, F: set<Hash>, U: set<Hash>, s: Peer, steps: seq<Step>, s': Peer)
    requires OnItsWay(lib, concurrency, E, F, U, s) && WorkRun(lib, concurrency, s, steps, s')
    ensures |steps| + WorkLeft(U, s') <= WorkLeft(U, s)
    ensures OnItsWay(lib, concurrency, E, F, U, s')
    ensures forall g :: Asked(s, g) ==> Asked(s', g)
    decreases |steps|
  {
    if steps != [] {
      var next := Apply(lib, concurrency, s, steps[0]);
      WorkGoesOn(lib, concurrency, E, F, U, s, steps[0]);
      forall g | Asked(s, g) ensures Asked(next, g) {
        AskedStays(lib, concurrency, s, steps[0], g);
      }
      WorkRunEnds(lib, concurrency, E, F, U, next, steps[1..], s');
    }
  }

  /** From any such state some run of work goes on until there is none left. */
  lemma {:induction false} WorkCanFinish(lib: Library, concurrency: nat, E: set<Hash>, F: set<Hash>, U: set<Hash>, s: Peer)
    returns (steps: seq<Step>, s': Peer)
    requires OnItsWay(lib, concurrency, E, F, U, s)
    ensures WorkRun(lib, concurrency, s, steps, s') && forall step :: !Works(lib, s', step)
    decreases WorkLeft(U, s)
  {
    if forall step :: !Works(lib, s, step) {
      return [], s;
    }
    var step :| Works(lib, s, step);
    WorkGoesOn(lib, concurrency, E, F, U, s, step);
    var rest;
    rest, s' := WorkCanFinish(lib, concurrency, E, F, U, Apply(lib, concurrency, s, step));
    steps := [step] + rest;
    assert steps[1..] == rest;
  }

  /** The peer that has just heard the heads of `F`. */
  ghost function JustHeard(lib: Library, concurrency: nat, E: set<Hash>, heads: seq<Hash>): Peer {
    Apply(lib, concurrency, Fresh(E), Heard(heads))
  }

  lemma JustHeardIsOnItsWay(lib: Library, concurrency: nat, E: set<Hash>, F: set<Hash>, U: set<Hash>, heads: seq<Hash>)
    requires Valid(lib, E) && Valid(lib, F) && F <= U && LinksInside(lib, U) && forall g :: g in heads <==> g in Heads(lib, F)
    ensures var s := JustHeard(lib, concurrency, E, heads);
            OnItsWay(lib, concurrency, E, F, U, s) && WorkLeft(U, s) <= 4 * |U| && forall g :: g in Heads(lib, F) ==> Asked(s, g)
  {
    var start, s := Fresh(E), JustHeard(lib, concurrency, E, heads);
    FreshKeeps(lib, concurrency, E);
    StepKeeps(lib, concurrency, start, Heard(heads));
    StepConfined(lib, concurrency, start, Heard(heads), E, U);
    StepGathers(lib, concurrency, start, Heard(heads), E);
    HearingIsClear(lib, concurrency, E, F, U, heads);
    forall g | g in Heads(lib, F) ensures Asked(s, g) {
      HeardIsAsked(lib, concurrency, start, heads, g);
    }
  }

  lemma HearingIsClear(lib: Library, concurrency: nat, E: set<Hash>, F: set<Hash>, U: set<Hash>, heads: seq<Hash>)
    requires Inv(lib, concurrency, Fresh(E))
    ensures var s := JustHeard(lib, concurrency, E, heads); Clear(s, F) && WorkLeft(U, s) <= 4 * |U|
  {
    var start, s := Fresh(E), JustHeard(lib, concurrency, E, heads);
    T.AddAllKeeps(lib, start.t, E, heads, concurrency);
    AddAllFollowed(lib, start.t, E, heads, concurrency);
    T.PumpKeeps(lib, T.AddAll(start.t, E, heads), E, concurrency);
    assert U - s.t.fetched - s.t.rejected == U;
  }

  lemma AddAllFollowed(lib: Library, t: T.Traversal, L: set<Hash>, hashes: seq<Hash>, concurrency: nat)
    requires T.Sound(lib, t, L, concurrency)
    ensures T.Sound(lib, T.AddAll(t, L, hashes), L, concurrency)
  {
    T.AddAllKeeps(lib, t, L, hashes, concurrency);
  }

  /** Answered runs end: from the moment the heads are heard, every run of answered
      fetches and merges makes at most four steps for each entry that links lead to, in
      whatever order, and one that can go no further holds both logs and in all exactly
      the complete ones of what it started with and fetched. */
  lemma AnsweredRunsReachUnion(lib: Library, concurrency: nat, E: set<Hash>, F: set<Hash>, U: set<Hash>, heads: seq<Hash>, steps: seq<Step>, s: Peer)
    requires concurrency > 0 && Valid(lib, E) && Valid(lib, F) && F <= U && LinksInside(lib, U)
    requires forall g :: g in heads <==> g in Heads(lib, F)
    requires WorkRun(lib, concurrency, JustHeard(lib, concurrency, E, heads), steps, s)
    ensures |steps| <= 4 * |U|
    ensures (forall step :: !Works(lib, s, step)) ==>
              E + F <= s.landed <= E + U && forall h :: h in s.landed <==> Complete(lib, E + s.t.fetched, h)
  {
    JustHeardIsOnItsWay(lib, concurrency, E, F, U, heads);
    WorkRunEnds(lib, concurrency, E, F, U, JustHeard(lib, concurrency, E, heads), steps, s);
    if forall step :: !Works(lib, s, step) {
      OutOfWork(lib, concurrency, E, F, U, s);
    }
  }

  lemma OutOfWork(lib: Library, concurrency: nat, E: set<Hash>, F: set<Hash>, U: set<Hash>, s: Peer)
    requires concurrency > 0 && OnItsWay(lib, concurrency, E, F, U, s)
    requires (forall g :: g in Heads(lib, F) ==> Asked(s, g)) && forall step :: !Works(lib, s, step)
    ensures E + F <= s.landed <= E + U && forall h :: h in s.landed <==> Complete(lib, E + s.t.fetched, h)
  {
    if !Settled(s, F) {
      var step := UnsettledHasWork(lib, concurrency, F, s);
    }
    ReceiverCatchesUp(lib, concurrency, s, F);
    forall h ensures h in s.landed <==> Complete(lib, E + s.t.fetched, h) {
      RestIsComplete(lib, concurrency, E, s, h);
    }
  }
}
