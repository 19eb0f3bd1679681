/** Pins, unpins, puts and evictions as concurrent jobs: pins walk side by side
    behind a gate an eviction closes, jobs on one root take turns, and tables
    change in single transactions. */
module PinSystem {
  import opened Wrappers
  import opened Pins

  type JobId = int

  /** A job between two of its waits. A pin and an unpin hold their root's lock
      throughout and remember the kind of pin they found on it; a pin that is done or has
      failed gives back its walk in a step of its own. */
  datatype Job =
    | PinAtGate(root: Cid, recursive: bool, kind: Option<bool>)
    | PinWalking(root: Cid, recursive: bool, kind: Option<bool>, walk: Walk)
    | PinReleasing(root: Cid)
    | UnpinWalking(root: Cid, recursive: bool, walk: Walk)
    | EvictAtGate(cid: Cid)
    | EvictDraining(cid: Cid)
    | EvictChecking(cid: Cid)
    | EvictRemoving(cid: Cid)

  datatype State = State(
    stored: set<Cid>,
    roots: map<Cid, bool>,
    counts: Counts,
    jobs: map<JobId, Job>,
    walking: nat,
    evicting: Option<JobId>)

  /** Whatever may throw has its step: a walk at any block and a transaction, which is
      rolled back (`FailWalk`); and an eviction's reads and its removal, which may or may
      not have taken the block away (`FailEvict`). */
  datatype Step =
    | Put(cid: Cid)
    | StartPin(id: JobId, root: Cid, recursive: bool)
    | ClaimGate(id: JobId)
    | Visit(id: JobId)
    | FailWalk(id: JobId)
    | CommitPin(id: JobId)
    | Release(id: JobId)
    | StartUnpin(id: JobId, root: Cid)
    | CommitUnpin(id: JobId)
    | StartEvict(id: JobId, cid: Cid)
    | CloseGate(id: JobId)
    | JudgeEvict(id: JobId)
    | CheckStored(id: JobId)
    | Remove(id: JobId)
    | FailEvict(id: JobId, removed: bool)

  predicate HasRoot(job: Job) { job.PinAtGate? || job.PinWalking? || job.PinReleasing? || job.UnpinWalking? }

  predicate HoldsRoot(job: Job, root: Cid) { HasRoot(job) && job.root == root }

  predicate HoldsGate(job: Job) { job.EvictDraining? || job.EvictChecking? || job.EvictRemoving? }

  /** Counted among the walks an eviction waits for. */
  predicate Walks(job: Job) { job.PinWalking? || job.PinReleasing? }

  predicate HasWalk(job: Job) { job.PinWalking? || job.UnpinWalking? }

  ghost predicate RootFree(s: State, root: Cid) {
    forall id :: id in s.jobs ==> !HoldsRoot(s.jobs[id], root)
  }

  function KindOf(s: State, root: Cid): Option<bool> { if root in s.roots then Some(s.roots[root]) else None }

  /** A pin has nothing to do when the root is pinned as strongly already. */
  predicate AlreadyPinned(kind: Option<bool>, recursive: bool) {
    kind == Some(true) || (kind == Some(false) && !recursive)
  }

  ghost predicate Enabled(content: Content, s: State, step: Step) {
    match step
    case Put(_) => true
    case StartPin(id, root, _) => id !in s.jobs && RootFree(s, root)
    case ClaimGate(id) => id in s.jobs && s.jobs[id].PinAtGate? && s.evicting.None?
    case Visit(id) =>
      id in s.jobs && HasWalk(s.jobs[id]) && s.jobs[id].walk.pending != [] &&
      var next := s.jobs[id].walk.pending[0];
      (next in s.jobs[id].walk.visited || (next in s.stored && Readable(content, s.jobs[id].recursive, next)))
    case FailWalk(id) => id in s.jobs && HasWalk(s.jobs[id])
    case CommitPin(id) => id in s.jobs && s.jobs[id].PinWalking? && s.jobs[id].walk.pending == []
    case Release(id) => id in s.jobs && s.jobs[id].PinReleasing? && s.walking > 0
    case StartUnpin(id, root) => id !in s.jobs && RootFree(s, root)
    case CommitUnpin(id) => id in s.jobs && s.jobs[id].UnpinWalking? && s.jobs[id].walk.pending == []
    case StartEvict(id, _) => id !in s.jobs
    case CloseGate(id) => id in s.jobs && s.jobs[id].EvictAtGate? && s.evicting.None?
    case JudgeEvict(id) => id in s.jobs && s.jobs[id].EvictDraining? && s.walking == 0
    case CheckStored(id) => id in s.jobs && s.jobs[id].EvictChecking?
    case Remove(id) => id in s.jobs && s.jobs[id].EvictRemoving?
    case FailEvict(id, removed) =>
      id in s.jobs && HoldsGate(s.jobs[id]) && s.walking == 0 && (removed ==> s.jobs[id].EvictRemoving?)
  }

  ghost function Apply(content: Content, s: State, step: Step): State
    requires Enabled(content, s, step)
  {
    match step
    case Put(cid) => s.(stored := s.stored + {cid})
    case StartPin(id, root, recursive) =>
      var kind := KindOf(s, root);
      if AlreadyPinned(kind, recursive) then s else s.(jobs := s.jobs[id := PinAtGate(root, recursive, kind)])
    case ClaimGate(id) =>
      var job := s.jobs[id];
      s.(jobs := s.jobs[id := PinWalking(job.root, job.recursive, job.kind, StartWalk(job.root))], walking := s.walking + 1)
    case Visit(id) =>
      var job := s.jobs[id];
      s.(jobs := s.jobs[id := job.(walk := VisitNext(content, job.recursive, job.walk))])
    case FailWalk(id) =>
      s.(jobs := if s.jobs[id].PinWalking? then s.jobs[id := PinReleasing(s.jobs[id].root)] else s.jobs - {id})
    case CommitPin(id) =>
      var job := s.jobs[id];
      var covered := job.walk.visited;
      var blocks := if job.kind == Some(false) && covered != [] then covered[1..] else covered;
      s.(jobs := s.jobs[id := PinReleasing(job.root)],
         counts := ReferenceAll(s.counts, blocks), roots := s.roots[job.root := job.recursive])
    case Release(id) => s.(jobs := s.jobs - {id}, walking := s.walking - 1)
    case StartUnpin(id, root) =>
      if root !in s.roots then s else s.(jobs := s.jobs[id := UnpinWalking(root, s.roots[root], StartWalk(root))])
    case CommitUnpin(id) =>
      var job := s.jobs[id];
      s.(jobs := s.jobs - {id}, roots := s.roots - {job.root}, counts := DereferenceAll(s.counts, job.walk.visited))
    case StartEvict(id, cid) => s.(jobs := s.jobs[id := EvictAtGate(cid)])
    case CloseGate(id) => s.(jobs := s.jobs[id := EvictDraining(s.jobs[id].cid)], evicting := Some(id))
    case JudgeEvict(id) =>
      var cid := s.jobs[id].cid;
      if cid in s.counts then s.(jobs := s.jobs - {id}, evicting := None)
      else s.(jobs := s.jobs[id := EvictChecking(cid)])
    case CheckStored(id) =>
      var cid := s.jobs[id].cid;
      if cid !in s.stored then s.(jobs := s.jobs - {id}, evicting := None)
      else s.(jobs := s.jobs[id := EvictRemoving(cid)])
    case Remove(id) =>
      s.(stored := s.stored - {s.jobs[id].cid}, jobs := s.jobs - {id}, evicting := None)
    case FailEvict(id, removed) =>
      s.(stored := if removed then s.stored - {s.jobs[id].cid} else s.stored, jobs := s.jobs - {id}, evicting := None)
  }

  // ---- The invariant ------------------------------------------------------

  /** The pinned roots whose pin covers a block. */
  ghost function Pinning(content: Content, roots: map<Cid, bool>, b: Cid): set<Cid> {
    set r | r in roots && Covers(content, roots[r], r, b)
  }

  /** Counts are right: as many as there are covering pins, and no empty rows. */
  ghost predicate Counted(content: Content, roots: map<Cid, bool>, counts: Counts) {
    Positive(counts) && forall b :: Get(counts, b) == |Pinning(content, roots, b)|
  }

  ghost function Walkers(s: State): set<JobId> {
    set id | id in s.jobs && Walks(s.jobs[id])
  }

  ghost predicate JobOk(content: Content, s: State, job: Job) {
    match job
    case PinAtGate(root, recursive, kind) => kind == KindOf(s, root) && !AlreadyPinned(kind, recursive)
    case PinWalking(root, recursive, kind, walk) =>
      kind == KindOf(s, root) && !AlreadyPinned(kind, recursive) && WalkOk(content, recursive, root, walk) &&
      (forall b :: b in walk.visited ==> b in s.stored)
    case PinReleasing(_) => true
    case UnpinWalking(root, recursive, walk) => KindOf(s, root) == Some(recursive) && WalkOk(content, recursive, root, walk)
    case EvictAtGate(_) => true
    case EvictDraining(_) => true
    case EvictChecking(cid) => s.walking == 0 && cid !in s.counts
    case EvictRemoving(cid) => s.walking == 0 && cid !in s.counts
  }

  /** The links of every pinned block can be read: the walk that pinned it did. */
  ghost predicate PinsReadable(content: Content, roots: map<Cid, bool>) {
    forall r, b :: r in roots && Covers(content, roots[r], r, b) ==> Readable(content, roots[r], b)
  }

  ghost predicate Inv(content: Content, s: State) {
    Counted(content, s.roots, s.counts) && PinsReadable(content, s.roots) &&
    (forall b :: b in s.counts ==> b in s.stored) &&
    s.walking == |Walkers(s)| &&
    (forall id :: id in s.jobs ==> JobOk(content, s, s.jobs[id])) &&
    GateHeld(s.jobs, s.evicting) && RootsApart(s.jobs)
  }

  /** The gate's holder, if any, is the one eviction past it. */
  ghost predicate GateHeld(jobs: map<JobId, Job>, evicting: Option<JobId>) {
    (forall id :: id in jobs ==> (HoldsGate(jobs[id]) <==> evicting == Some(id))) &&
    (evicting.Some? ==> evicting.value in jobs)
  }

  /** No two jobs hold one root. */
  ghost predicate RootsApart(jobs: map<JobId, Job>) {
    forall a, b :: a in jobs && b in jobs && a != b && HasRoot(jobs[a]) ==> !HoldsRoot(jobs[b], jobs[a].root)
  }

  lemma JobPlaced(jobs: map<JobId, Job>, evicting: Option<JobId>, id: JobId, job: Job)
    requires GateHeld(jobs, evicting) && RootsApart(jobs) && (HoldsGate(job) <==> evicting == Some(id))
    requires HasRoot(job) ==> forall other :: other in jobs && other != id ==> !HoldsRoot(jobs[other], job.root)
    ensures GateHeld(jobs[id := job], evicting) && RootsApart(jobs[id := job])
  {
  }

  ghost function Fresh(stored: set<Cid>): State { State(stored, map[], map[], map[], 0, None) }

  lemma FreshOk(content: Content, stored: set<Cid>)
    ensures Inv(content, Fresh(stored))
  {
    assert Walkers(Fresh(stored)) == {};
    forall b ensures Pinning(content, map[], b) == {} {
    }
  }

  // ---- Counting -----------------------------------------------------------

  lemma PinRaises(content: Content, s: State, root: Cid, recursive: bool, kind: Option<bool>, walk: Walk)
    requires Counted(content, s.roots, s.counts) && kind == KindOf(s, root) && !AlreadyPinned(kind, recursive)
    requires WalkOk(content, recursive, root, walk) && walk.pending == []
    ensures walk.visited != []
    ensures var blocks := if kind == Some(false) then walk.visited[1..] else walk.visited;
            Counted(content, s.roots[root := recursive], ReferenceAll(s.counts, blocks)) &&
            forall b :: b in ReferenceAll(s.counts, blocks) ==> b in s.counts || b in walk.visited
  {
    FinishedWalkIsCover(content, recursive, root, walk);
    CoversRoot(content, recursive, root);
    var visited := walk.visited;
    assert visited == [root] + visited[1..];
    var blocks := if kind == Some(false) then visited[1..] else visited;
    ReferenceAllAdds(s.counts, blocks);
    var counts' := ReferenceAll(s.counts, blocks);
    forall b ensures Get(counts', b) == |Pinning(content, s.roots[root := recursive], b)| {
      OneMorePin(content, s, root, recursive, kind, visited, b);
      assert b in visited <==> b == root || b in visited[1..];
    }
    forall b | b in counts' ensures b in s.counts || b in visited {
      assert Get(counts', b) > 0;
    }
  }

  lemma PinIsReadable(content: Content, roots: map<Cid, bool>, root: Cid, recursive: bool, walk: Walk)
    requires PinsReadable(content, roots) && WalkOk(content, recursive, root, walk) && walk.pending == []
    ensures PinsReadable(content, roots[root := recursive])
  {
    FinishedWalkIsCover(content, recursive, root, walk);
  }

  lemma OneMorePin(content: Content, s: State, root: Cid, recursive: bool, kind: Option<bool>, visited: seq<Cid>, b: Cid)
    requires kind == KindOf(s, root) && !AlreadyPinned(kind, recursive)
    requires b in visited <==> Covers(content, recursive, root, b)
    ensures |Pinning(content, s.roots[root := recursive], b)| ==
            |Pinning(content, s.roots, b)| + if b in visited && !(kind == Some(false) && b == root) then 1 else 0
  {
    PinnedBy(content, s.roots, root, recursive, b);
    DirectPin(content, root, b);
    CoversRoot(content, recursive, root);
    OneMember(Pinning(content, s.roots, b), Pinning(content, s.roots[root := recursive], b), root, Covers(content, recursive, root, b));
  }

  lemma OneMember(before: set<Cid>, after: set<Cid>, root: Cid, has: bool)
    requires after == (before - {root}) + if has then {root} else {}
    ensures |after| == |before| - (if root in before then 1 else 0) + if has then 1 else 0
  {
    assert |before - {root}| == |before| - if root in before then 1 else 0;
    assert root !in before - {root};
  }

  lemma DirectPin(content: Content, root: Cid, b: Cid)
    ensures Covers(content, false, root, b) <==> b == root
  {
    CoversRoot(content, false, root);
    if Covers(content, false, root, b) {
      var n: nat :| CoversIn(content, false, root, b, n);
      DirectCoversOnlyRoot(content, root, b, n);
    }
  }

  /** Changing one root's pin changes only that root's part in a count. */
  lemma PinnedBy(content: Content, roots: map<Cid, bool>, root: Cid, recursive: bool, b: Cid)
    ensures Pinning(content, roots[root := recursive], b) ==
            (Pinning(content, roots, b) - {root}) + if Covers(content, recursive, root, b) then {root} else {}
    ensures root in Pinning(content, roots, b) <==> root in roots && Covers(content, roots[root], root, b)
  {
  }

  lemma UnpinLowers(content: Content, s: State, root: Cid, recursive: bool, walk: Walk)
    requires Counted(content, s.roots, s.counts) && KindOf(s, root) == Some(recursive)
    requires WalkOk(content, recursive, root, walk) && walk.pending == []
    ensures Counted(content, s.roots - {root}, DereferenceAll(s.counts, walk.visited))
    ensures forall b :: b in DereferenceAll(s.counts, walk.visited) ==> b in s.counts
  {
    FinishedWalkIsCover(content, recursive, root, walk);
    forall b | b in walk.visited ensures b in s.counts {
      CoveredIsCounted(content, s, root, b);
    }
    DereferenceAllSubtracts(s.counts, walk.visited);
    forall b ensures |Pinning(content, s.roots - {root}, b)| == |Pinning(content, s.roots, b)| - if b in walk.visited then 1 else 0 {
      assert Pinning(content, s.roots - {root}, b) == Pinning(content, s.roots, b) - {root};
      assert root in Pinning(content, s.roots, b) <==> b in walk.visited;
    }
    forall b | b in DereferenceAll(s.counts, walk.visited) ensures b in s.counts {
      assert Get(DereferenceAll(s.counts, walk.visited), b) > 0;
    }
  }

  lemma CoveredIsCounted(content: Content, s: State, root: Cid, b: Cid)
    requires Counted(content, s.roots, s.counts) && root in s.roots && Covers(content, s.roots[root], root, b)
    ensures b in s.counts
  {
    assert root in Pinning(content, s.roots, b);
    assert Get(s.counts, b) == |Pinning(content, s.roots, b)|;
  }

  // ---- Every step keeps the invariant --------------------------------------

  /** An unpin's walk always finds its blocks: they are counted, hence stored. */
  lemma UnpinFindsItsBlocks(content: Content, s: State, id: JobId)
    requires Inv(content, s) && id in s.jobs && s.jobs[id].UnpinWalking? && s.jobs[id].walk.pending != []
    ensures s.jobs[id].walk.pending[0] in s.stored && Enabled(content, s, Visit(id))
  {
    var job := s.jobs[id];
    assert JobOk(content, s, job);
    var next := job.walk.pending[0];
    assert next in job.walk.pending;
    CoveredIsCounted(content, s, job.root, next);
  }

  /** No eviction removes while a pin walks, and the gate has one holder. */
  lemma GateExcludes(content: Content, s: State, a: JobId, b: JobId)
    requires Inv(content, s) && a in s.jobs && b in s.jobs && Walks(s.jobs[a])
    ensures !s.jobs[b].EvictChecking? && !s.jobs[b].EvictRemoving?
  {
    assert a in Walkers(s);
    assert JobOk(content, s, s.jobs[b]);
    assert {a} <= Walkers(s) && |{a}| <= |Walkers(s)|;
  }

  lemma PutKeeps(content: Content, s: State, cid: Cid)
    requires Inv(content, s)
    ensures Inv(content, Apply(content, s, Put(cid)))
  {
    var s' := Apply(content, s, Put(cid));
    assert Walkers(s') == Walkers(s);
    forall id | id in s'.jobs ensures JobOk(content, s', s'.jobs[id]) {
      assert JobOk(content, s, s.jobs[id]);
    }
  }

  /** A new job, or a job moving on without touching gate or walk counters. */
  lemma JobMoves(content: Content, s: State, id: JobId, job: Job)
    requires Inv(content, s) && JobOk(content, s, job)
    requires HoldsGate(job) <==> s.evicting == Some(id)
    requires id in s.jobs && Walks(s.jobs[id]) <==> Walks(job)
    requires HasRoot(job) ==> forall other :: other in s.jobs && other != id ==> !HoldsRoot(s.jobs[other], job.root)
    ensures Inv(content, s.(jobs := s.jobs[id := job]))
  {
    var s' := s.(jobs := s.jobs[id := job]);
    JobPlaced(s.jobs, s.evicting, id, job);
    assert Walkers(s') == Walkers(s);
    forall a | a in s'.jobs ensures JobOk(content, s', s'.jobs[a]) {
      if a != id {
        assert JobOk(content, s, s.jobs[a]);
      }
    }
  }

  lemma StartKeeps(content: Content, s: State, step: Step)
    requires Inv(content, s) && Enabled(content, s, step) && (step.StartPin? || step.StartUnpin? || step.StartEvict?)
    ensures Inv(content, Apply(content, s, step))
  {
    match step
    case StartPin(id, root, recursive) =>
      var kind := KindOf(s, root);
      if !AlreadyPinned(kind, recursive) {
        JobMoves(content, s, id, PinAtGate(root, recursive, kind));
      }
    case StartUnpin(id, root) =>
      if root in s.roots {
        StartWalkOk(content, s.roots[root], root);
        JobMoves(content, s, id, UnpinWalking(root, s.roots[root], StartWalk(root)));
      }
    case StartEvict(id, cid) => JobMoves(content, s, id, EvictAtGate(cid));
  }

  lemma ClaimGateKeeps(content: Content, s: State, id: JobId)
    requires Inv(content, s) && Enabled(content, s, ClaimGate(id))
    ensures Inv(content, Apply(content, s, ClaimGate(id)))
  {
    var s' := Apply(content, s, ClaimGate(id));
    JobPlaced(s.jobs, s.evicting, id, s'.jobs[id]);
    assert Walkers(s') == Walkers(s) + {id};
    forall a | a in s'.jobs ensures JobOk(content, s', s'.jobs[a]) {
      ClaimJobOk(content, s, id, a);
    }
  }

  lemma ClaimJobOk(content: Content, s: State, id: JobId, a: JobId)
    requires Inv(content, s) && Enabled(content, s, ClaimGate(id)) && a in s.jobs
    ensures var s' := Apply(content, s, ClaimGate(id)); JobOk(content, s', s'.jobs[a])
  {
    assert JobOk(content, s, s.jobs[a]);
    StartWalkOk(content, s.jobs[id].recursive, s.jobs[id].root);
  }

  lemma VisitKeeps(content: Content, s: State, id: JobId)
    requires Inv(content, s) && Enabled(content, s, Visit(id))
    ensures Inv(content, Apply(content, s, Visit(id)))
  {
    var job := s.jobs[id];
    assert JobOk(content, s, job);
    VisitNextOk(content, job.recursive, job.root, job.walk);
    JobMoves(content, s, id, job.(walk := VisitNext(content, job.recursive, job.walk)));
  }

  /** A job ends without touching the tables. */
  lemma JobEnds(content: Content, s: State, id: JobId, walking: nat, evicting: Option<JobId>)
    requires Inv(content, s) && id in s.jobs
    requires walking == if Walks(s.jobs[id]) then s.walking - 1 else s.walking
    requires evicting == if HoldsGate(s.jobs[id]) then None else s.evicting
    ensures Inv(content, s.(jobs := s.jobs - {id}, walking := walking, evicting := evicting))
  {
    var s' := s.(jobs := s.jobs - {id}, walking := walking, evicting := evicting);
    assert Walkers(s') == Walkers(s) - {id};
    forall a | a in s'.jobs ensures JobOk(content, s', s'.jobs[a]) {
      assert JobOk(content, s, s.jobs[a]);
    }
  }

  lemma WalkersCounted(content: Content, s: State, id: JobId)
    requires Inv(content, s) && id in s.jobs && Walks(s.jobs[id])
    ensures s.walking > 0
  {
    assert id in Walkers(s);
    assert {id} <= Walkers(s) && |{id}| <= |Walkers(s)|;
  }

  lemma FailWalkKeeps(content: Content, s: State, id: JobId)
    requires Inv(content, s) && Enabled(content, s, FailWalk(id))
    ensures Inv(content, Apply(content, s, FailWalk(id)))
  {
    if s.jobs[id].PinWalking? {
      JobMoves(content, s, id, PinReleasing(s.jobs[id].root));
    } else {
      JobEnds(content, s, id, s.walking, s.evicting);
    }
  }

  /** A job commits new tables: other jobs are on other roots, and an eviction
      under way is of a block that stays uncounted. */
  lemma CommitKeeps(content: Content, s: State, root: Cid, roots: map<Cid, bool>, counts: Counts)
    requires Inv(content, s) && Counted(content, roots, counts) && PinsReadable(content, roots)
    requires forall b :: b in counts ==> b in s.stored
    requires forall r :: r != root ==> (r in roots <==> r in s.roots) && (r in roots ==> roots[r] == s.roots[r])
    requires forall id :: id in s.jobs && HoldsRoot(s.jobs[id], root) ==> s.jobs[id].PinReleasing?
    requires forall id :: id in s.jobs && (s.jobs[id].EvictChecking? || s.jobs[id].EvictRemoving?) ==> s.jobs[id].cid !in counts
    ensures Inv(content, s.(roots := roots, counts := counts))
  {
    var s' := s.(roots := roots, counts := counts);
    assert Walkers(s') == Walkers(s);
    forall id | id in s'.jobs ensures JobOk(content, s', s'.jobs[id]) {
      assert JobOk(content, s, s.jobs[id]);
    }
  }

  lemma CommitPinKeeps(content: Content, s: State, id: JobId)
    requires Inv(content, s) && Enabled(content, s, CommitPin(id))
    ensures Inv(content, Apply(content, s, CommitPin(id)))
  {
    var job := s.jobs[id];
    assert JobOk(content, s, job);
    PinRaises(content, s, job.root, job.recursive, job.kind, job.walk);
    PinIsReadable(content, s.roots, job.root, job.recursive, job.walk);
    var blocks := if job.kind == Some(false) then job.walk.visited[1..] else job.walk.visited;
    JobMoves(content, s, id, PinReleasing(job.root));
    var rest := s.(jobs := s.jobs[id := PinReleasing(job.root)]);
    forall other | other in rest.jobs
      ensures HoldsRoot(rest.jobs[other], job.root) ==> rest.jobs[other].PinReleasing?
      ensures !rest.jobs[other].EvictChecking? && !rest.jobs[other].EvictRemoving?
    {
      if other != id {
        GateExcludes(content, s, id, other);
      }
    }
    CommitKeeps(content, rest, job.root, s.roots[job.root := job.recursive], ReferenceAll(s.counts, blocks));
  }

  lemma ReleaseKeeps(content: Content, s: State, id: JobId)
    requires Inv(content, s) && Enabled(content, s, Release(id))
    ensures Inv(content, Apply(content, s, Release(id)))
  {
    JobEnds(content, s, id, s.walking - 1, s.evicting);
  }

  lemma CommitUnpinKeeps(content: Content, s: State, id: JobId)
    requires Inv(content, s) && Enabled(content, s, CommitUnpin(id))
    ensures Inv(content, Apply(content, s, CommitUnpin(id)))
  {
    var job := s.jobs[id];
    assert JobOk(content, s, job);
    UnpinLowers(content, s, job.root, job.recursive, job.walk);
    JobEnds(content, s, id, s.walking, s.evicting);
    var rest := s.(jobs := s.jobs - {id});
    forall other | other in rest.jobs && (rest.jobs[other].EvictChecking? || rest.jobs[other].EvictRemoving?)
      ensures rest.jobs[other].cid !in DereferenceAll(s.counts, job.walk.visited)
    {
      assert JobOk(content, s, s.jobs[other]);
    }
    CommitKeeps(content, rest, job.root, s.roots - {job.root}, DereferenceAll(s.counts, job.walk.visited));
  }

  lemma CloseGateKeeps(content: Content, s: State, id: JobId)
    requires Inv(content, s) && Enabled(content, s, CloseGate(id))
    ensures Inv(content, Apply(content, s, CloseGate(id)))
  {
    var s' := Apply(content, s, CloseGate(id));
    assert Walkers(s') == Walkers(s);
    forall a | a in s'.jobs ensures JobOk(content, s', s'.jobs[a]) {
      assert JobOk(content, s, s.jobs[a]);
    }
  }

  lemma EvictKeeps(content: Content, s: State, step: Step)
    requires Inv(content, s) && Enabled(content, s, step) && (step.JudgeEvict? || step.CheckStored?)
    ensures Inv(content, Apply(content, s, step))
  {
    var id := step.id;
    var job := s.jobs[id];
    assert JobOk(content, s, job);
    if step.JudgeEvict? {
      if job.cid in s.counts {
        JobEnds(content, s, id, s.walking, None);
      } else {
        JobMoves(content, s, id, EvictChecking(job.cid));
      }
    } else if job.cid !in s.stored {
      JobEnds(content, s, id, s.walking, None);
    } else {
      JobMoves(content, s, id, EvictRemoving(job.cid));
    }
  }

  /** Taking away an uncounted block while no pin walks. */
  lemma BlockGoes(content: Content, s: State, cid: Cid)
    requires Inv(content, s) && s.walking == 0 && cid !in s.counts
    ensures Inv(content, s.(stored := s.stored - {cid}))
  {
    var s' := s.(stored := s.stored - {cid});
    assert Walkers(s') == Walkers(s);
    forall a | a in s'.jobs ensures JobOk(content, s', s'.jobs[a]) {
      assert JobOk(content, s, s.jobs[a]);
      if s.jobs[a].PinWalking? {
        WalkersCounted(content, s, a);
      }
    }
  }

  /** A removal takes away only an uncounted block that no pin has walked over. */
  lemma RemoveKeeps(content: Content, s: State, id: JobId)
    requires Inv(content, s) && Enabled(content, s, Remove(id))
    ensures Inv(content, Apply(content, s, Remove(id)))
  {
    assert JobOk(content, s, s.jobs[id]);
    JobEnds(content, s, id, s.walking, None);
    BlockGoes(content, s.(jobs := s.jobs - {id}, evicting := None), s.jobs[id].cid);
  }

  /** An eviction that throws opens the gate, whether or not its block is gone. */
  lemma FailEvictKeeps(content: Content, s: State, id: JobId, removed: bool)
    requires Inv(content, s) && Enabled(content, s, FailEvict(id, removed))
    ensures Inv(content, Apply(content, s, FailEvict(id, removed)))
  {
    assert JobOk(content, s, s.jobs[id]);
    JobEnds(content, s, id, s.walking, None);
    if removed {
      BlockGoes(content, s.(jobs := s.jobs - {id}, evicting := None), s.jobs[id].cid);
    }
  }

  lemma StepKeeps(content: Content, s: State, step: Step)
    requires Inv(content, s) && Enabled(content, s, step)
    ensures Inv(content, Apply(content, s, step))
  {
    match step
    case Put(cid) => PutKeeps(content, s, cid);
    case StartPin(_, _, _) => StartKeeps(content, s, step);
    case ClaimGate(id) => ClaimGateKeeps(content, s, id);
    case Visit(id) => VisitKeeps(content, s, id);
    case FailWalk(id) => FailWalkKeeps(content, s, id);
    case CommitPin(id) => CommitPinKeeps(content, s, id);
    case Release(id) => ReleaseKeeps(content, s, id);
    case StartUnpin(_, _) => StartKeeps(content, s, step);
    case CommitUnpin(id) => CommitUnpinKeeps(content, s, id);
    case StartEvict(_, _) => StartKeeps(content, s, step);
    case CloseGate(id) => CloseGateKeeps(content, s, id);
    case JudgeEvict(_) => EvictKeeps(content, s, step);
    case CheckStored(_) => EvictKeeps(content, s, step);
    case Remove(id) => RemoveKeeps(content, s, id);
    case FailEvict(id, removed) => FailEvictKeeps(content, s, id, removed);
  }

  // ---- What the jobs come to -------------------------------------------------

  /** A pin walks unless the root is pinned recursively, or directly and no more is asked;
      once committed the root is pinned as asked. */
  lemma PinTakesHold(content: Content, s: State, id: JobId, root: Cid, recursive: bool)
    ensures Enabled(content, s, StartPin(id, root, recursive)) ==>
              var s' := Apply(content, s, StartPin(id, root, recursive));
              (id in s'.jobs <==> root !in s.roots || (!s.roots[root] && recursive)) &&
              (id in s'.jobs ==> s'.jobs[id].PinAtGate? && s'.jobs[id].root == root && s'.jobs[id].recursive == recursive)
    ensures Enabled(content, s, CommitPin(id)) ==>
              var s' := Apply(content, s, CommitPin(id));
              s.jobs[id].root in s'.roots && s'.roots[s.jobs[id].root] == s.jobs[id].recursive &&
              forall r :: r != s.jobs[id].root ==> (r in s'.roots <==> r in s.roots) && (r in s.roots ==> s'.roots[r] == s.roots[r])
  {
    var kind := KindOf(s, root);
    if root in s.roots {
      assert kind == Some(s.roots[root]);
      assert AlreadyPinned(kind, recursive) <==> s.roots[root] || !recursive;
    } else {
      assert kind == None && !AlreadyPinned(kind, recursive);
    }
  }

  /** An unpin walks exactly when there is a pin, and takes away that pin and no other. */
  lemma UnpinLetsGo(content: Content, s: State, id: JobId, root: Cid)
    ensures Enabled(content, s, StartUnpin(id, root)) ==>
              (id in Apply(content, s, StartUnpin(id, root)).jobs <==> root in s.roots)
    ensures Enabled(content, s, CommitUnpin(id)) ==>
              var s' := Apply(content, s, CommitUnpin(id));
              s.jobs[id].root !in s'.roots &&
              forall r :: r != s.jobs[id].root ==> (r in s'.roots <==> r in s.roots) && (r in s.roots ==> s'.roots[r] == s.roots[r])
  {
  }

  /** An eviction past the gate goes on to remove its block exactly when no pinned root
      covers it and it is stored, and then removes it. */
  lemma EvictionOutcome(content: Content, s: State, id: JobId)
    requires Inv(content, s)
    ensures Enabled(content, s, JudgeEvict(id)) ==>
              (id in Apply(content, s, JudgeEvict(id)).jobs <==>
               !exists r :: r in s.roots && Covers(content, s.roots[r], r, s.jobs[id].cid))
    ensures Enabled(content, s, CheckStored(id)) ==>
              (id in Apply(content, s, CheckStored(id)).jobs <==> s.jobs[id].cid in s.stored)
    ensures Enabled(content, s, Remove(id)) ==> Apply(content, s, Remove(id)).stored == s.stored - {s.jobs[id].cid}
  {
    if Enabled(content, s, JudgeEvict(id)) {
      CountedIsCovered(content, s, s.jobs[id].cid);
    }
  }

  lemma CountedIsCovered(content: Content, s: State, b: Cid)
    requires Counted(content, s.roots, s.counts)
    ensures b in s.counts <==> exists r :: r in s.roots && Covers(content, s.roots[r], r, b)
  {
    var pinning := Pinning(content, s.roots, b);
    assert Get(s.counts, b) == |pinning|;
    if exists r :: r in s.roots && Covers(content, s.roots[r], r, b) {
      var r :| r in s.roots && Covers(content, s.roots[r], r, b);
      CoveredIsCounted(content, s, r, b);
    } else {
      assert forall r :: r !in pinning;
      assert pinning == {};
    }
  }

  ghost predicate Runs(content: Content, s: State, steps: seq<Step>, s': State)
    decreases |steps|
  {
    if steps == [] then s == s'
    else Enabled(content, s, steps[0]) && Runs(content, Apply(content, s, steps[0]), steps[1..], s')
  }

  /** Over every interleaving, from an empty index: each block's count is the
      number of pinned roots whose cover holds it, every counted block is stored,
      and no eviction is judging or removing while a pin walks. */
  lemma CountsAreRight(content: Content, stored: set<Cid>, steps: seq<Step>, s: State)
    requires Runs(content, Fresh(stored), steps, s)
    ensures forall b :: Get(s.counts, b) == |Pinning(content, s.roots, b)| && (b in s.counts <==> Get(s.counts, b) > 0)
    ensures forall b :: b in s.counts ==> b in s.stored
    ensures forall a, b :: a in s.jobs && b in s.jobs && Walks(s.jobs[a]) ==>
              !s.jobs[b].EvictChecking? && !s.jobs[b].EvictRemoving?
  {
    FreshOk(content, stored);
    RunKeeps(content, Fresh(stored), steps, s);
    forall a, b | a in s.jobs && b in s.jobs && Walks(s.jobs[a])
      ensures !s.jobs[b].EvictChecking? && !s.jobs[b].EvictRemoving?
    {
      GateExcludes(content, s, a, b);
    }
  }

  lemma {:induction false} RunKeeps(content: Content, s: State, steps: seq<Step>, s': State)
    requires Inv(content, s) && Runs(content, s, steps, s')
    ensures Inv(content, s')
    decreases |steps|
  {
    if steps != [] {
      StepKeeps(content, s, steps[0]);
      RunKeeps(content, Apply(content, s, steps[0]), steps[1..], s');
    }
  }
}
