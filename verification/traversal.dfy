/** The bounded fetch traversal: a queue of hashes, a limited number of fetches at
    a time, and a record of how each of them ended. */
module Traversals {
  import opened Entries
  import opened Sorting

  /** The traversal's records. `inFlight` holds the ticket of each running fetch,
      so that a late answer to a settled fetch is told apart; `checks` lists the
      hashes whose bytes were verified since the last discard. */
  datatype Traversal = Traversal(
    enqueued: set<Hash>,
    fetched: set<Hash>,
    unresolved: set<Hash>,
    rejected: set<Hash>,
    inFlight: map<Hash, nat>,
    queue: seq<Hash>,
    paused: bool,
    issued: nat,
    checks: seq<Hash>)

  /** How a fetch ends: no bytes (an empty answer, an error or a timeout), or
      bytes that the entry's own checks accept or refuse. */
  datatype Answer = NoBytes | Bytes(verdict: Verdict)

  function Empty(): Traversal { Traversal({}, {}, {}, {}, map[], [], false, 0, []) }

  // ---- The steps as functions ---------------------------------------------

  function AddOne(t: Traversal, L: set<Hash>, h: Hash): Traversal {
    if h in L then t
    else if h !in t.enqueued then t.(enqueued := t.enqueued + {h}, queue := t.queue + [h])
    else if h in t.unresolved && h !in t.inFlight then t.(unresolved := t.unresolved - {h}, queue := t.queue + [h])
    else t
  }

  function AddAll(t: Traversal, L: set<Hash>, hashes: seq<Hash>): Traversal {
    if hashes == [] then t else AddOne(AddAll(t, L, hashes[..|hashes| - 1]), L, hashes[|hashes| - 1])
  }

  predicate CanPump(t: Traversal, concurrency: nat) {
    !t.paused && |t.inFlight| < concurrency && t.queue != []
  }

  function PumpOne(t: Traversal, L: set<Hash>): Traversal
    requires t.queue != []
  {
    var h := t.queue[0];
    var rest := t.(queue := t.queue[1..]);
    if h in L || h in t.fetched || h in t.inFlight then rest
    else rest.(inFlight := t.inFlight[h := t.issued], issued := t.issued + 1)
  }

  function Pump(t: Traversal, L: set<Hash>, concurrency: nat): Traversal
    decreases |t.queue|
  {
    if CanPump(t, concurrency) then Pump(PumpOne(t, L), L, concurrency) else t
  }

  function Enqueue(t: Traversal, L: set<Hash>, concurrency: nat, hashes: seq<Hash>): Traversal {
    Pump(AddAll(t, L, hashes), L, concurrency)
  }

  /** A fetch is still awaited under this ticket. */
  predicate Awaited(t: Traversal, h: Hash, ticket: nat) {
    h in t.inFlight && t.inFlight[h] == ticket
  }

  function Land(lib: Library, t: Traversal, L: set<Hash>, h: Hash, verdict: Verdict): Traversal {
    var seen := t.(unresolved := t.unresolved - {h}, checks := t.checks + [h]);
    if verdict.Fail? then seen.(rejected := t.rejected + {h})
    else AddAll(seen.(fetched := t.fetched + {h}), L, Links(lib, h))
  }

  function Respond(lib: Library, t: Traversal, L: set<Hash>, concurrency: nat, h: Hash, ticket: nat, answer: Answer): Traversal {
    if !Awaited(t, h, ticket) then t
    else
      var settled := t.(inFlight := t.inFlight - {h});
      var landed :=
        match answer
        case NoBytes => settled.(unresolved := t.unresolved + {h})
        case Bytes(verdict) => Land(lib, settled, L, h, verdict);
      Pump(landed, L, concurrency)
  }

  function Pause(t: Traversal): Traversal {
    t.(paused := true, unresolved := t.unresolved + t.inFlight.Keys)
  }

  function Without(queue: seq<Hash>, dropped: seq<Hash>): seq<Hash> {
    if queue == [] then []
    else
      var rest := Without(queue[..|queue| - 1], dropped);
      var last := queue[|queue| - 1];
      if last in dropped then rest else rest + [last]
  }

  /** `retry` lists what a resume puts back: unresolved, not landed, not in flight. */
  ghost predicate Retries(t: Traversal, L: set<Hash>, retry: seq<Hash>) {
    Distinct(retry) && forall h :: h in retry <==> h in t.unresolved && h !in L && h !in t.inFlight
  }

  function Resume(t: Traversal, L: set<Hash>, concurrency: nat, retry: seq<Hash>): Traversal {
    Pump(t.(paused := false,
            unresolved := (t.unresolved - L) - (set h | h in retry),
            queue := retry + Without(t.queue, retry)), L, concurrency)
  }

  function Discard(t: Traversal): Traversal {
    t.(enqueued := {}, fetched := {}, unresolved := {}, rejected := {}, inFlight := map[], queue := [], checks := [])
  }

  // ---- What every step keeps ----------------------------------------------

  ghost predicate Separate(t: Traversal) {
    Distinct(t.queue) &&
    (forall h :: h in t.queue ==>
      h in t.enqueued && h !in t.inFlight && h !in t.unresolved && h !in t.fetched && h !in t.rejected) &&
    (forall h :: h in t.inFlight ==> h in t.enqueued && h !in t.fetched && h !in t.rejected && t.inFlight[h] < t.issued) &&
    (forall h :: h in t.unresolved ==> h in t.enqueued && h !in t.fetched && h !in t.rejected) &&
    t.fetched <= t.enqueued && t.rejected <= t.enqueued && t.fetched !! t.rejected
  }

  /** Every enqueued hash is accounted for. */
  ghost predicate Conserved(t: Traversal, L: set<Hash>) {
    forall h :: h in t.enqueued ==>
      h in t.queue || h in t.inFlight || h in t.unresolved || h in t.fetched || h in t.rejected || h in L
  }

  /** Each hash was verified once, with a recorded outcome. */
  ghost predicate CheckedOnce(t: Traversal) {
    Distinct(t.checks) && forall h :: h in t.checks <==> h in t.fetched || h in t.rejected
  }

  /** Every link of a fetched entry was enqueued or had landed. */
  ghost predicate Followed(lib: Library, t: Traversal, L: set<Hash>) {
    forall h, p :: h in t.fetched && p in Links(lib, h) ==> p in t.enqueued || p in L
  }

  ghost predicate Sound(lib: Library, t: Traversal, L: set<Hash>, concurrency: nat) {
    Separate(t) && Conserved(t, L) && CheckedOnce(t) && Followed(lib, t, L) && |t.inFlight| <= concurrency
  }

  lemma AddOneKeeps(lib: Library, t: Traversal, L: set<Hash>, h: Hash, concurrency: nat)
    requires Separate(t) && Conserved(t, L) && CheckedOnce(t) && |t.inFlight| <= concurrency
    ensures var t' := AddOne(t, L, h);
            Separate(t') && Conserved(t', L) && CheckedOnce(t') && |t'.inFlight| <= concurrency &&
            t.enqueued <= t'.enqueued && t'.unresolved <= t.unresolved && (h in t'.enqueued || h in L) &&
            t' == t.(enqueued := t'.enqueued, unresolved := t'.unresolved, queue := t'.queue)
  {
  }

  lemma {:induction false} AddAllKeeps(lib: Library, t: Traversal, L: set<Hash>, hashes: seq<Hash>, concurrency: nat)
    requires Separate(t) && Conserved(t, L) && CheckedOnce(t) && |t.inFlight| <= concurrency
    ensures var t' := AddAll(t, L, hashes);
            Separate(t') && Conserved(t', L) && CheckedOnce(t') && |t'.inFlight| <= concurrency &&
            t.enqueued <= t'.enqueued && t'.unresolved <= t.unresolved &&
            (forall h :: h in hashes ==> h in t'.enqueued || h in L) &&
            t' == t.(enqueued := t'.enqueued, unresolved := t'.unresolved, queue := t'.queue)
    decreases |hashes|
  {
    if hashes != [] {
      var n := |hashes| - 1;
      AddAllKeeps(lib, t, L, hashes[..n], concurrency);
      AddOneKeeps(lib, AddAll(t, L, hashes[..n]), L, hashes[n], concurrency);
      assert hashes == hashes[..n] + [hashes[n]];
    }
  }

  /** Is being fetched, will be, or has an outcome. */
  predicate UnderWay(t: Traversal, h: Hash) {
    h in t.queue || h in t.inFlight || h in t.fetched || h in t.rejected
  }

  /** Every hash asked for that has not landed is under way, one left unresolved before
      included. */
  lemma {:induction false} AskedIsUnderWay(lib: Library, t: Traversal, L: set<Hash>, hashes: seq<Hash>, concurrency: nat)
    requires Separate(t) && Conserved(t, L) && CheckedOnce(t) && |t.inFlight| <= concurrency
    ensures forall h :: h in hashes && h !in L ==> UnderWay(AddAll(t, L, hashes), h)
    decreases |hashes|
  {
    if hashes != [] {
      var n := |hashes| - 1;
      var t1 := AddAll(t, L, hashes[..n]);
      AskedIsUnderWay(lib, t, L, hashes[..n], concurrency);
      AddAllKeeps(lib, t, L, hashes[..n], concurrency);
      assert hashes == hashes[..n] + [hashes[n]];
      var t2 := AddOne(t1, L, hashes[n]);
      assert hashes[n] !in L ==> UnderWay(t2, hashes[n]);
      assert forall h :: UnderWay(t1, h) ==> UnderWay(t2, h);
    }
  }

  /** Adding hashes enqueues only those that have not landed. */
  lemma {:induction false} AddAllWithin(t: Traversal, L: set<Hash>, hashes: seq<Hash>, G: set<Hash>)
    requires t.enqueued <= G && forall h :: h in hashes ==> h in G || h in L
    ensures AddAll(t, L, hashes).enqueued <= G
    decreases |hashes|
  {
    if hashes != [] {
      var n := |hashes| - 1;
      assert hashes[n] in hashes;
      AddAllWithin(t, L, hashes[..n], G);
    }
  }

  lemma PumpOneKeeps(lib: Library, t: Traversal, L: set<Hash>, concurrency: nat)
    requires Sound(lib, t, L, concurrency) && CanPump(t, concurrency)
    ensures Sound(lib, PumpOne(t, L), L, concurrency)
  {
    var h := t.queue[0];
    assert t.queue == [h] + t.queue[1..];
    assert h in t.queue;
    var t' := PumpOne(t, L);
    assert forall x :: x in t.queue <==> x == h || x in t'.queue;
    assert h !in t.inFlight;
    if h !in L && h !in t.fetched {
      OneMoreKey(t.inFlight, h, t.issued);
    }
  }

  lemma OneMoreKey(m: map<Hash, nat>, h: Hash, ticket: nat)
    requires h !in m
    ensures |m[h := ticket]| == |m| + 1
  {
    assert m[h := ticket].Keys == m.Keys + {h};
    assert |m[h := ticket]| == |m[h := ticket].Keys| && |m| == |m.Keys|;
  }

  /** A pump keeps the invariant, touches only the queue and the fetches, and,
      unless paused, leaves no hash queued while a fetch slot is free. */
  lemma {:induction false} PumpKeeps(lib: Library, t: Traversal, L: set<Hash>, concurrency: nat)
    requires Sound(lib, t, L, concurrency)
    ensures var t' := Pump(t, L, concurrency);
            Sound(lib, t', L, concurrency) && !CanPump(t', concurrency) &&
            t' == t.(queue := t'.queue, inFlight := t'.inFlight, issued := t'.issued)
    decreases |t.queue|
  {
    if CanPump(t, concurrency) {
      PumpOneKeeps(lib, t, L, concurrency);
      PumpKeeps(lib, PumpOne(t, L), L, concurrency);
    }
  }

  lemma EnqueueKeeps(lib: Library, t: Traversal, L: set<Hash>, concurrency: nat, hashes: seq<Hash>)
    requires Sound(lib, t, L, concurrency)
    ensures var t' := Enqueue(t, L, concurrency, hashes);
            Sound(lib, t', L, concurrency) && !CanPump(t', concurrency) && t'.fetched == t.fetched &&
            t.enqueued <= t'.enqueued && forall h :: h in hashes ==> h in t'.enqueued || h in L
  {
    AddAllKeeps(lib, t, L, hashes, concurrency);
    PumpKeeps(lib, AddAll(t, L, hashes), L, concurrency);
  }

  lemma InFlightIsUnchecked(lib: Library, t: Traversal, L: set<Hash>, concurrency: nat, h: Hash)
    requires Sound(lib, t, L, concurrency) && h in t.inFlight
    ensures h in t.enqueued && h !in t.fetched && h !in t.rejected
  {
  }

  /** A fetch leaves the flight: everything but its own hash stays accounted for. */
  lemma SettledFetch(lib: Library, t: Traversal, L: set<Hash>, concurrency: nat, h: Hash)
    requires Sound(lib, t, L, concurrency) && h in t.inFlight
    ensures var s := t.(inFlight := t.inFlight - {h});
            Separate(s) && CheckedOnce(s) && Followed(lib, s, L) && |s.inFlight| < concurrency &&
            h in s.enqueued && h !in s.queue && h !in s.fetched && h !in s.rejected &&
            forall x :: x in s.enqueued && x != h ==>
              x in s.queue || x in s.inFlight || x in s.unresolved || x in s.fetched || x in s.rejected || x in L
  {
    var s := t.(inFlight := t.inFlight - {h});
    assert s.inFlight.Keys == t.inFlight.Keys - {h};
    assert |s.inFlight| == |s.inFlight.Keys| && |t.inFlight| == |t.inFlight.Keys|;
  }

  lemma UnansweredKeeps(lib: Library, t: Traversal, L: set<Hash>, concurrency: nat, h: Hash)
    requires Sound(lib, t, L, concurrency) && h in t.inFlight
    ensures Sound(lib, t.(inFlight := t.inFlight - {h}, unresolved := t.unresolved + {h}), L, concurrency)
  {
    SettledFetch(lib, t, L, concurrency, h);
  }

  lemma RefusedKeeps(lib: Library, t: Traversal, L: set<Hash>, concurrency: nat, h: Hash, verdict: Verdict)
    requires Sound(lib, t, L, concurrency) && h in t.inFlight && verdict.Fail?
    ensures Sound(lib, Land(lib, t.(inFlight := t.inFlight - {h}), L, h, verdict), L, concurrency)
  {
    SettledFetch(lib, t, L, concurrency, h);
  }

  lemma AcceptedKeeps(lib: Library, t: Traversal, L: set<Hash>, concurrency: nat, h: Hash)
    requires Sound(lib, t, L, concurrency) && h in t.inFlight
    ensures var t' := Land(lib, t.(inFlight := t.inFlight - {h}), L, h, Ok);
            Sound(lib, t', L, concurrency) && t.enqueued <= t'.enqueued && t'.unresolved <= t.unresolved &&
            t'.fetched == t.fetched + {h} && t'.rejected == t.rejected && t'.paused == t.paused
  {
    var seen := t.(inFlight := t.inFlight - {h}, unresolved := t.unresolved - {h}, checks := t.checks + [h],
                   fetched := t.fetched + {h});
    SeenKeeps(lib, t, L, concurrency, h);
    AddAllKeeps(lib, seen, L, Links(lib, h), concurrency);
    assert forall x, p :: x in seen.fetched && p in Links(lib, x) ==> x == h || x in t.fetched;
  }

  lemma SeenKeeps(lib: Library, t: Traversal, L: set<Hash>, concurrency: nat, h: Hash)
    requires Sound(lib, t, L, concurrency) && h in t.inFlight
    ensures var seen := t.(inFlight := t.inFlight - {h}, unresolved := t.unresolved - {h}, checks := t.checks + [h],
                           fetched := t.fetched + {h});
            Separate(seen) && Conserved(seen, L) && CheckedOnce(seen) && |seen.inFlight| <= concurrency
  {
    SettledFetch(lib, t, L, concurrency, h);
  }

  /** What answering may change besides the queue and the fetches in flight. */
  ghost predicate Answers(t: Traversal, h: Hash, answer: Answer, t': Traversal) {
    t.enqueued <= t'.enqueued && t'.paused == t.paused &&
    t'.fetched == t.fetched + (if answer == Bytes(Ok) then {h} else {}) &&
    t'.rejected == t.rejected + (if answer.Bytes? && answer.verdict.Fail? then {h} else {}) &&
    (answer.Bytes? ==> t'.unresolved <= t.unresolved)
  }

  /** An awaited answer, an error or a timeout keeps the invariant and leaves no
      slot free beside a queued hash; only bytes make a hash fetched or abandoned,
      and only a missing answer makes one unresolved. */
  lemma AwaitedKeeps(lib: Library, t: Traversal, L: set<Hash>, concurrency: nat, h: Hash, ticket: nat, answer: Answer)
    requires Sound(lib, t, L, concurrency) && Awaited(t, h, ticket)
    ensures var t' := Respond(lib, t, L, concurrency, h, ticket, answer);
            Sound(lib, t', L, concurrency) && !CanPump(t', concurrency) && Answers(t, h, answer, t')
  {
    var settled := t.(inFlight := t.inFlight - {h});
    match answer
    case NoBytes =>
      UnansweredKeeps(lib, t, L, concurrency, h);
      PumpKeeps(lib, settled.(unresolved := t.unresolved + {h}), L, concurrency);
    case Bytes(verdict) =>
      if verdict.Ok? {
        AcceptedKeeps(lib, t, L, concurrency, h);
      } else {
        RefusedKeeps(lib, t, L, concurrency, h, verdict);
      }
      PumpKeeps(lib, Land(lib, settled, L, h, verdict), L, concurrency);
  }

  /** Any answer keeps the invariant; one that is not awaited changes nothing. */
  lemma RespondKeeps(lib: Library, t: Traversal, L: set<Hash>, concurrency: nat, h: Hash, ticket: nat, answer: Answer)
    requires Sound(lib, t, L, concurrency)
    ensures var t' := Respond(lib, t, L, concurrency, h, ticket, answer);
            Sound(lib, t', L, concurrency) &&
            if Awaited(t, h, ticket) then !CanPump(t', concurrency) && Answers(t, h, answer, t') else t' == t
  {
    if Awaited(t, h, ticket) {
      AwaitedKeeps(lib, t, L, concurrency, h, ticket, answer);
    }
  }

  lemma PauseKeeps(lib: Library, t: Traversal, L: set<Hash>, concurrency: nat)
    requires Sound(lib, t, L, concurrency)
    ensures Sound(lib, Pause(t), L, concurrency)
    ensures Pause(t).paused && Pause(t).inFlight == t.inFlight && Pause(t).queue == t.queue
    ensures forall h :: h in t.inFlight ==> h in Pause(t).unresolved
  {
  }

  lemma {:induction false} WithoutElements(queue: seq<Hash>, dropped: seq<Hash>)
    requires Distinct(queue)
    ensures Distinct(Without(queue, dropped))
    ensures forall h :: h in Without(queue, dropped) <==> h in queue && h !in dropped
    decreases |queue|
  {
    if queue != [] {
      var n := |queue| - 1;
      WithoutElements(queue[..n], dropped);
      assert queue == queue[..n] + [queue[n]];
      assert queue[n] !in queue[..n];
    }
  }

  lemma DistinctConcat(a: seq<Hash>, b: seq<Hash>)
    requires Distinct(a) && Distinct(b) && forall h :: h in a ==> h !in b
    ensures Distinct(a + b)
  {
    assert forall i :: 0 <= i < |a| ==> a[i] in a;
    assert forall i :: 0 <= i < |b| ==> b[i] in b;
  }

  lemma ResumeKeeps(lib: Library, t: Traversal, L: set<Hash>, concurrency: nat, retry: seq<Hash>)
    requires Sound(lib, t, L, concurrency) && Retries(t, L, retry)
    ensures var t' := Resume(t, L, concurrency, retry);
            Sound(lib, t', L, concurrency) && !CanPump(t', concurrency) && t'.fetched == t.fetched &&
            !t'.paused && forall h :: h in retry ==> h !in t'.unresolved
  {
    WithoutElements(t.queue, retry);
    var t1 := t.(paused := false,
                 unresolved := (t.unresolved - L) - (set h | h in retry),
                 queue := retry + Without(t.queue, retry));
    assert forall h :: h in t1.queue <==> h in retry || h in t.queue;
    DistinctConcat(retry, Without(t.queue, retry));
    PumpKeeps(lib, t1, L, concurrency);
  }

  /** Fetches start in queue order: what a pump leaves is the end of the queue, and each
      hash it took is in flight unless it had landed, was fetched or in flight already. */
  lemma {:induction false} PumpTakesInOrder(t: Traversal, L: set<Hash>, concurrency: nat) returns (n: nat)
    ensures n <= |t.queue| && Pump(t, L, concurrency).queue == t.queue[n..]
    ensures forall i :: 0 <= i < n ==>
              t.queue[i] in Pump(t, L, concurrency).inFlight || t.queue[i] in L || t.queue[i] in t.fetched
    ensures forall h :: h in t.inFlight ==> h in Pump(t, L, concurrency).inFlight
    decreases |t.queue|
  {
    if CanPump(t, concurrency) {
      var next := PumpOne(t, L);
      var m := PumpTakesInOrder(next, L, concurrency);
      n := m + 1;
      assert next.queue[m..] == t.queue[n..];
      assert forall i :: 0 < i < n ==> t.queue[i] == next.queue[i - 1];
    } else {
      n := 0;
    }
  }

  /** A resume turns to what was left unresolved before anything still queued. */
  lemma RetriesComeFirst(t: Traversal, L: set<Hash>, concurrency: nat, retry: seq<Hash>, r: Hash, q: Hash)
    requires Distinct(t.queue) && Retries(t, L, retry) && r in retry && q in t.queue && q !in retry
    requires r in Resume(t, L, concurrency, retry).queue
    ensures q in Resume(t, L, concurrency, retry).queue
  {
    WithoutElements(t.queue, retry);
    var later := Without(t.queue, retry);
    var t1 := t.(paused := false, unresolved := (t.unresolved - L) - (set h | h in retry), queue := retry + later);
    var n := PumpTakesInOrder(t1, L, concurrency);
    assert r !in later;
    assert n < |retry|;
    var j :| 0 <= j < |later| && later[j] == q;
    assert t1.queue[n..][|retry| - n + j] == q;
  }

  /** Every running fetch has a ticket issued at `n` or later. */
  ghost predicate TicketsFrom(t: Traversal, n: nat) {
    n <= t.issued && forall h :: h in t.inFlight ==> n <= t.inFlight[h]
  }

  /** A discard starts over, and every fetch started before it is forgotten: all its
      tickets are older than any that will be awaited. */
  lemma DiscardKeeps(lib: Library, t: Traversal, L: set<Hash>, concurrency: nat)
    ensures Sound(lib, Discard(t), L, concurrency) && TicketsFrom(Discard(t), t.issued)
    ensures Discard(t).enqueued == {} && Discard(t).queue == [] && Discard(t).inFlight == map[]
    ensures Sound(lib, t, L, concurrency) ==> forall h :: h in t.inFlight ==> t.inFlight[h] < t.issued
  {
  }

  lemma LateAnswersAreIgnored(lib: Library, t: Traversal, L: set<Hash>, concurrency: nat, n: nat, h: Hash, ticket: nat, answer: Answer)
    requires TicketsFrom(t, n) && ticket < n
    ensures Respond(lib, t, L, concurrency, h, ticket, answer) == t
  {
  }

  lemma {:induction false} PumpTickets(t: Traversal, L: set<Hash>, concurrency: nat, n: nat)
    requires TicketsFrom(t, n)
    ensures TicketsFrom(Pump(t, L, concurrency), n)
    decreases |t.queue|
  {
    if CanPump(t, concurrency) {
      PumpTickets(PumpOne(t, L), L, concurrency, n);
    }
  }

  lemma {:induction false} AddAllOnlyQueues(t: Traversal, L: set<Hash>, hashes: seq<Hash>)
    ensures AddAll(t, L, hashes).inFlight == t.inFlight && AddAll(t, L, hashes).issued == t.issued
    decreases |hashes|
  {
    if hashes != [] {
      AddAllOnlyQueues(t, L, hashes[..|hashes| - 1]);
    }
  }

  /** Old tickets stay old under every later step, so a fetch from before a discard
      is ignored however late it answers. */
  lemma TicketsStayNew(lib: Library, t: Traversal, L: set<Hash>, concurrency: nat, n: nat)
    requires TicketsFrom(t, n)
    ensures forall hashes :: TicketsFrom(Enqueue(t, L, concurrency, hashes), n)
    ensures forall h, ticket, answer :: TicketsFrom(Respond(lib, t, L, concurrency, h, ticket, answer), n)
    ensures TicketsFrom(Pause(t), n) && TicketsFrom(Discard(t), n)
    ensures forall retry :: TicketsFrom(Resume(t, L, concurrency, retry), n)
  {
    forall hashes ensures TicketsFrom(Enqueue(t, L, concurrency, hashes), n) {
      AddAllOnlyQueues(t, L, hashes);
      PumpTickets(AddAll(t, L, hashes), L, concurrency, n);
    }
    forall h, ticket, answer ensures TicketsFrom(Respond(lib, t, L, concurrency, h, ticket, answer), n) {
      AnsweredTickets(lib, t, L, concurrency, n, h, ticket, answer);
    }
    forall retry ensures TicketsFrom(Resume(t, L, concurrency, retry), n) {
      PumpTickets(t.(paused := false,
                     unresolved := (t.unresolved - L) - (set h | h in retry),
                     queue := retry + Without(t.queue, retry)), L, concurrency, n);
    }
  }

  lemma AnsweredTickets(lib: Library, t: Traversal, L: set<Hash>, concurrency: nat, n: nat, h: Hash, ticket: nat, answer: Answer)
    requires TicketsFrom(t, n)
    ensures TicketsFrom(Respond(lib, t, L, concurrency, h, ticket, answer), n)
  {
    if Awaited(t, h, ticket) {
      var settled := t.(inFlight := t.inFlight - {h});
      match answer
      case NoBytes => PumpTickets(settled.(unresolved := t.unresolved + {h}), L, concurrency, n);
      case Bytes(verdict) =>
        var seen := settled.(unresolved := t.unresolved - {h}, checks := t.checks + [h]);
        AddAllOnlyQueues(seen.(fetched := t.fetched + {h}), L, Links(lib, h));
        PumpTickets(Land(lib, settled, L, h, verdict), L, concurrency, n);
    }
  }

  /** The invariant survives entries landing by themselves. */
  lemma LandedGrows(lib: Library, t: Traversal, L: set<Hash>, M: set<Hash>, concurrency: nat)
    requires Sound(lib, t, L, concurrency) && L <= M
    ensures Sound(lib, t, M, concurrency)
  {
  }

  predicate Idle(t: Traversal) { t.inFlight == map[] && (t.paused || t.queue == []) }

  /** When idle and unpaused, every link of a fetched entry has landed, was
      fetched, was abandoned, or is recorded unresolved. */
  lemma IdleIsComplete(lib: Library, t: Traversal, L: set<Hash>, concurrency: nat, h: Hash, p: Hash)
    requires Sound(lib, t, L, concurrency) && Idle(t) && !t.paused
    requires h in t.fetched && p in Links(lib, h)
    ensures p in L || p in t.fetched || p in t.rejected || p in t.unresolved
  {
    assert p in t.enqueued || p in L;
  }

  // ---- The object ---------------------------------------------------------

  class BoundedTraversal {
    const lib: Library
    const concurrency: nat
    var enqueued: set<Hash>
    var fetched: set<Hash>
    var unresolved: set<Hash>
    var rejected: set<Hash>
    var inFlight: map<Hash, nat>
    var queue: seq<Hash>
    var paused: bool
    var issued: nat
    ghost var checks: seq<Hash>

    constructor (lib: Library, concurrency: nat)
      requires concurrency >= 1
      ensures this.lib == lib && this.concurrency == concurrency && View() == Empty()
    {
      this.lib, this.concurrency := lib, concurrency;
      enqueued, fetched, unresolved, rejected := {}, {}, {}, {};
      inFlight, queue, paused, issued, checks := map[], [], false, 0, [];
    }

    ghost function View(): Traversal
      reads this
    {
      Traversal(enqueued, fetched, unresolved, rejected, inFlight, queue, paused, issued, checks)
    }

    method AddHashes(L: set<Hash>, hashes: seq<Hash>)
      modifies this`enqueued, this`unresolved, this`queue
      ensures View() == AddAll(old(View()), L, hashes)
    {
      for i := 0 to |hashes|
        invariant View() == AddAll(old(View()), L, hashes[..i])
      {
        assert hashes[..i + 1][..i] == hashes[..i];
        var hash := hashes[i];
        if hash !in L {
          if hash !in enqueued {
            enqueued := enqueued + {hash};
            queue := queue + [hash];
          } else if hash in unresolved && hash !in inFlight {
            unresolved := unresolved - {hash};
            queue := queue + [hash];
          }
        }
      }
      assert hashes[..|hashes|] == hashes;
    }

    method PumpQueue(L: set<Hash>)
      modifies this`queue, this`inFlight, this`issued
      ensures View() == Pump(old(View()), L, concurrency)
    {
      if !paused {
        while |inFlight| < concurrency && queue != []
          invariant !paused
          invariant Pump(View(), L, concurrency) == Pump(old(View()), L, concurrency)
          decreases |queue|
        {
          var hash := queue[0];
          queue := queue[1..];
          if hash !in L && hash !in fetched && hash !in inFlight {
            inFlight := inFlight[hash := issued];
            issued := issued + 1;
          }
        }
      }
    }

    method EnqueueHashes(L: set<Hash>, hashes: seq<Hash>)
      requires Sound(lib, View(), L, concurrency)
      modifies this
      ensures View() == Enqueue(old(View()), L, concurrency, hashes)
      ensures Sound(lib, View(), L, concurrency)
    {
      ghost var before := View();
      AddHashes(L, hashes);
      PumpQueue(L);
      EnqueueKeeps(lib, before, L, concurrency, hashes);
    }

    method LandBytes(L: set<Hash>, hash: Hash, verdict: Verdict)
      modifies this`unresolved, this`checks, this`rejected, this`fetched, this`enqueued, this`queue
      ensures View() == Land(lib, old(View()), L, hash, verdict)
    {
      unresolved := unresolved - {hash};
      checks := checks + [hash];
      if verdict.Fail? {
        rejected := rejected + {hash};
        return;
      }
      fetched := fetched + {hash};
      AddHashes(L, lib.entryOf(hash).next + lib.entryOf(hash).refs);
    }

    /** A fetch answered, failed or timed out; a ticket no longer awaited is ignored. */
    method SettleFetch(L: set<Hash>, hash: Hash, ticket: nat, answer: Answer)
      requires Sound(lib, View(), L, concurrency)
      modifies this
      ensures View() == Respond(lib, old(View()), L, concurrency, hash, ticket, answer)
      ensures Sound(lib, View(), L, concurrency)
    {
      ghost var before := View();
      TakeAnswer(L, hash, ticket, answer);
      RespondKeeps(lib, before, L, concurrency, hash, ticket, answer);
    }

    method TakeAnswer(L: set<Hash>, hash: Hash, ticket: nat, answer: Answer)
      modifies this
      ensures View() == Respond(lib, old(View()), L, concurrency, hash, ticket, answer)
    {
      if hash !in inFlight || inFlight[hash] != ticket {
        return;
      }
      inFlight := inFlight - {hash};
      match answer
      case NoBytes =>
        unresolved := unresolved + {hash};
        PumpQueue(L);
      case Bytes(verdict) =>
        LandBytes(L, hash, verdict);
        PumpQueue(L);
    }

    method PauseFetching(L: set<Hash>)
      requires Sound(lib, View(), L, concurrency)
      modifies this`paused, this`unresolved
      ensures View() == Pause(old(View())) && Sound(lib, View(), L, concurrency)
    {
      PauseKeeps(lib, View(), L, concurrency);
      paused := true;
      unresolved := unresolved + inFlight.Keys;
    }

    method ResumeFetching(L: set<Hash>) returns (ghost retry: seq<Hash>)
      requires Sound(lib, View(), L, concurrency)
      modifies this
      ensures Retries(old(View()), L, retry) && View() == Resume(old(View()), L, concurrency, retry)
      ensures Sound(lib, View(), L, concurrency)
    {
      ghost var before := View();
      retry := Restart(L);
      ResumeKeeps(lib, before, L, concurrency, retry);
    }

    method Restart(L: set<Hash>) returns (ghost retry: seq<Hash>)
      modifies this
      ensures Retries(old(View()), L, retry) && View() == Resume(old(View()), L, concurrency, retry)
    {
      var list := Listed((unresolved - L) - inFlight.Keys);
      retry := list;
      paused := false;
      unresolved := (unresolved - L) - (set h | h in list);
      queue := list + Without(queue, list);
      PumpQueue(L);
    }

    method DiscardAll(L: set<Hash>)
      modifies this
      ensures View() == Discard(old(View())) && Sound(lib, View(), L, concurrency)
    {
      DiscardKeeps(lib, View(), L, concurrency);
      inFlight, queue := map[], [];
      enqueued, fetched, unresolved, rejected, checks := {}, {}, {}, {}, [];
    }
  }
}
