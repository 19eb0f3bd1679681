/** What a library's log is, as a set of entry hashes: which sets are valid, and
    the heads, effective revocations, inert entries and current state that such
    a set determines. */
module Log {
  import opened Wrappers
  import opened Entries
  import opened Causal
  import opened Access

  // ---- Append verification -----------------------------------------------

  /** What the entry alone decides. */
  function CheckEntry(lib: Library, h: Hash): Verdict {
    if lib.shapeVerdict(h).Fail? then lib.shapeVerdict(h)
    else if lib.operationVerdict(h).Fail? then lib.operationVerdict(h)
    else if !lib.signed(h) then Fail(InvalidSignature)
    else if lib.kind != Recordstore && !ByWriter(lib, h) then Fail(UnauthorisedWriter)
    else Ok
  }

  function MaxTime(lib: Library, next: seq<Hash>): nat {
    if next == [] then 0
    else
      var rest := MaxTime(lib, next[..|next| - 1]);
      var last := Time(lib, next[|next| - 1]);
      if last > rest then last else rest
  }

  /** The clock rule: the log has every parent, and the time is the least above all
      of theirs. */
  predicate ClockHolds(lib: Library, E: set<Hash>, h: Hash) {
    (forall p :: p in Next(lib, h) ==> p in E) && Time(lib, h) == MaxTime(lib, Next(lib, h)) + 1
  }

  ghost function Accept(lib: Library, E: set<Hash>, h: Hash): Verdict {
    if CheckEntry(lib, h).Fail? then CheckEntry(lib, h)
    else if !ClockHolds(lib, E, h) then Fail(InvalidClock)
    else Authorise(lib, E, h)
  }

  /** Every member passes append verification over the set. */
  ghost predicate Valid(lib: Library, E: set<Hash>) {
    forall h :: h in E ==> Accept(lib, E, h).Ok?
  }

  lemma {:induction false} MaxTimeBounds(lib: Library, next: seq<Hash>, p: Hash)
    requires p in next
    ensures Time(lib, p) <= MaxTime(lib, next)
  {
    var n := |next| - 1;
    assert next == next[..n] + [next[n]];
    if p in next[..n] {
      MaxTimeBounds(lib, next[..n], p);
    }
  }

  lemma ClockHoldsDescends(lib: Library, E: set<Hash>, h: Hash)
    requires ClockHolds(lib, E, h)
    ensures forall p :: p in Next(lib, h) ==> p in E && Time(lib, p) < Time(lib, h)
  {
    forall p | p in Next(lib, h) ensures Time(lib, p) < Time(lib, h) {
      MaxTimeBounds(lib, Next(lib, h), p);
    }
  }

  /** The greatest clock of some parents is that of one of them, or 0 without any. */
  lemma {:induction false} MaxTimeIsReached(lib: Library, next: seq<Hash>)
    ensures next == [] ==> MaxTime(lib, next) == 0
    ensures next != [] ==> exists p :: p in next && Time(lib, p) == MaxTime(lib, next)
    decreases |next|
  {
    if next != [] {
      var n := |next| - 1;
      var rest, last := next[..n], next[n];
      MaxTimeIsReached(lib, rest);
      assert next == rest + [last];
      if rest != [] {
        var p :| p in rest && Time(lib, p) == MaxTime(lib, rest);
        assert p in next && last in next;
      } else {
        assert last in next && MaxTime(lib, next) == Time(lib, last);
      }
    }
  }

  /** Every parent is held and earlier, and one of them by exactly one; without parents
      the clock is 1. */
  ghost predicate WellClocked(lib: Library, E: set<Hash>, h: Hash) {
    var entry := EntryOf(lib, h);
    (forall p :: p in entry.next ==> p in E && EntryOf(lib, p).time < entry.time) &&
    (if entry.next == [] then entry.time == 1 else exists p :: p in entry.next && entry.time == EntryOf(lib, p).time + 1)
  }

  lemma ClockExactly(lib: Library, E: set<Hash>, h: Hash)
    ensures ClockHolds(lib, E, h) <==> WellClocked(lib, E, h)
  {
    var next := Next(lib, h);
    MaxTimeIsReached(lib, next);
    forall p | p in next ensures Time(lib, p) <= MaxTime(lib, next) {
      MaxTimeBounds(lib, next, p);
    }
  }

  /** What an entry must pass whatever log it is for: its size, shape and operation, its
      signature, and outside a record store its signer's place in the write list. */
  predicate SelfChecked(lib: Library, h: Hash) {
    lib.shapeVerdict(h).Ok? && lib.operationVerdict(h).Ok? && lib.signed(h) &&
    (lib.kind == Recordstore || EntryOf(lib, h).key in lib.writeList)
  }

  /** The verdict on an entry, check by check. */
  lemma AcceptExactly(lib: Library, E: set<Hash>, h: Hash)
    ensures var verdict := Accept(lib, E, h);
            if lib.shapeVerdict(h).Fail? then verdict == lib.shapeVerdict(h)
            else if lib.operationVerdict(h).Fail? then verdict == lib.operationVerdict(h)
            else if !lib.signed(h) then verdict == Fail(InvalidSignature)
            else if lib.kind != Recordstore && EntryOf(lib, h).key !in lib.writeList then verdict == Fail(UnauthorisedWriter)
            else if !WellClocked(lib, E, h) then verdict == Fail(InvalidClock)
            else if EntryOf(lib, h).key in lib.writeList then verdict == Ok
            else verdict == Authorise(lib, E, h)
    ensures Accept(lib, E, h).Ok? ==> SelfChecked(lib, h) && WellClocked(lib, E, h)
    ensures Accept(lib, E, h) == Fail(InvalidSignature) <==>
            lib.shapeVerdict(h) == Fail(InvalidSignature) ||
            (lib.shapeVerdict(h).Ok? && lib.operationVerdict(h) == Fail(InvalidSignature)) ||
            (lib.shapeVerdict(h).Ok? && lib.operationVerdict(h).Ok? && !lib.signed(h))
  {
    ClockExactly(lib, E, h);
    if !ByWriter(lib, h) {
      AuthoriseExactly(lib, E, h);
    }
  }

  /** Every member of a valid log passed the checks it alone decides. */
  lemma MembersAreChecked(lib: Library, E: set<Hash>)
    requires Valid(lib, E)
    ensures forall h :: h in E ==> SelfChecked(lib, h) && WellClocked(lib, E, h)
  {
    forall h | h in E ensures SelfChecked(lib, h) && WellClocked(lib, E, h) {
      AcceptExactly(lib, E, h);
    }
  }

  /** An accepted delegated entry cites a capability held in its causal past. */
  lemma AcceptedIsGrounded(lib: Library, E: set<Hash>, h: Hash)
    requires Accept(lib, E, h).Ok?
    ensures forall p :: p in Next(lib, h) ==> p in E && Time(lib, p) < Time(lib, h)
    ensures !ByWriter(lib, h) ==>
              Cited(lib, h).Some? && Cited(lib, h).value in E &&
              IsCapability(lib, Cited(lib, h).value) && InPast(lib, Cited(lib, h).value, h)
  {
    ClockHoldsDescends(lib, E, h);
    if !ByWriter(lib, h) {
      PastIsReachedFromNext(lib, Cited(lib, h).value, h);
    }
  }

  lemma ValidIsGrounded(lib: Library, E: set<Hash>)
    requires Valid(lib, E)
    ensures Grounded(lib, E)
  {
    forall h | h in E
      ensures forall p :: p in Next(lib, h) ==> p in E && Time(lib, p) < Time(lib, h)
      ensures !ByWriter(lib, h) ==>
                Cited(lib, h).Some? && Cited(lib, h).value in E &&
                IsCapability(lib, Cited(lib, h).value) && InPast(lib, Cited(lib, h).value, h)
    {
      AcceptedIsGrounded(lib, E, h);
    }
  }

  lemma ClosedPartIsGrounded(lib: Library, P: set<Hash>, E: set<Hash>)
    requires Grounded(lib, E) && P <= E
    requires forall h, p :: h in P && p in Next(lib, h) ==> p in P
    ensures Grounded(lib, P)
  {
    forall h | h in P && !ByWriter(lib, h) ensures Cited(lib, h).value in P {
      PastStaysInside(lib, P, Cited(lib, h).value, h);
    }
  }

  lemma AcceptAgrees(lib: Library, P: set<Hash>, E: set<Hash>, h: Hash)
    requires Grounded(lib, P) && P <= E
    requires forall p :: p in Next(lib, h) ==> p in P
    ensures Accept(lib, P, h) == Accept(lib, E, h)
  {
    AuthoriseAgrees(lib, P, E, h);
  }

  /** A part of a valid log that holds its members' parents is itself valid. */
  lemma ClosedPartIsValid(lib: Library, P: set<Hash>, E: set<Hash>)
    requires Valid(lib, E) && P <= E
    requires forall h, p :: h in P && p in Next(lib, h) ==> p in P
    ensures Valid(lib, P)
  {
    ValidIsGrounded(lib, E);
    ClosedPartIsGrounded(lib, P, E);
    forall h | h in P ensures Accept(lib, P, h).Ok? {
      AcceptAgrees(lib, P, E, h);
    }
  }

  /** Accepting one more entry keeps every earlier verdict. */
  lemma InsertKeepsValid(lib: Library, E: set<Hash>, h: Hash)
    requires Valid(lib, E) && Accept(lib, E, h).Ok?
    ensures Valid(lib, E + {h})
  {
    ValidIsGrounded(lib, E);
    forall x | x in E + {h} ensures Accept(lib, E + {h}, x).Ok? {
      if x in E {
        AcceptedIsGrounded(lib, E, x);
      }
      AcceptAgrees(lib, E, E + {h}, x);
    }
  }

  // ---- Causal-past determinism -------------------------------------------

  ghost function PastIn(lib: Library, U: set<Hash>, h: Hash): set<Hash> {
    set a | a in U && ReachedFrom(lib, Next(lib, h), a)
  }

  lemma PastPartIsClosed(lib: Library, E: set<Hash>, h: Hash)
    requires Grounded(lib, E)
    requires forall p :: p in Next(lib, h) ==> p in E
    ensures Grounded(lib, PastIn(lib, E, h))
    ensures forall p :: p in Next(lib, h) ==> p in PastIn(lib, E, h)
    ensures forall a :: ReachedFrom(lib, Next(lib, h), a) ==> a in PastIn(lib, E, h)
  {
    var P := PastIn(lib, E, h);
    forall x, p | x in P && p in Next(lib, x) ensures p in P {
      ReachExtends(lib, Next(lib, h), x, p);
    }
    ClosedPartIsGrounded(lib, P, E);
    forall a | ReachedFrom(lib, Next(lib, h), a) ensures a in P {
      ReachedStaysInside(lib, E, Next(lib, h), a);
    }
  }

  /** Two valid logs that both hold an entry's parents give it the same verdict
      and, when they refuse it, the same error code, whatever else they hold. */
  lemma CausalPastDeterminism(lib: Library, E: set<Hash>, F: set<Hash>, h: Hash)
    requires Valid(lib, E) && Valid(lib, F)
    requires forall p :: p in Next(lib, h) ==> p in E && p in F
    ensures Authorise(lib, E, h) == Authorise(lib, F, h)
    ensures Accept(lib, E, h) == Accept(lib, F, h)
  {
    ValidIsGrounded(lib, E);
    ValidIsGrounded(lib, F);
    PastPartIsClosed(lib, E, h);
    PastPartIsClosed(lib, F, h);
    var P := PastIn(lib, E, h);
    assert P == PastIn(lib, F, h);
    AuthoriseAgrees(lib, P, E, h);
    AuthoriseAgrees(lib, P, F, h);
  }

  // ---- Valid logs are exactly the reachable ones --------------------------

  ghost function Elements(order: seq<Hash>): set<Hash> { set h | h in order }

  /** `order` is a run of accepted insertions into an empty log. */
  ghost predicate AcceptedRun(lib: Library, order: seq<Hash>) {
    forall i :: 0 <= i < |order| ==> Accept(lib, Elements(order[..i]), order[i]).Ok?
  }

  lemma {:induction false} RunsReachValidLogs(lib: Library, order: seq<Hash>)
    requires AcceptedRun(lib, order)
    ensures Valid(lib, Elements(order))
    decreases |order|
  {
    if order != [] {
      var before, last := LastInsertion(lib, order);
      RunsReachValidLogs(lib, before);
      InsertKeepsValid(lib, Elements(before), last);
    }
  }

  lemma LastInsertion(lib: Library, order: seq<Hash>) returns (before: seq<Hash>, last: Hash)
    requires AcceptedRun(lib, order) && order != []
    ensures |before| == |order| - 1 && AcceptedRun(lib, before) && Accept(lib, Elements(before), last).Ok?
    ensures Elements(order) == Elements(before) + {last}
  {
    before, last := order[..|order| - 1], order[|order| - 1];
    RunShortens(lib, order, |order| - 1);
    assert order == before + [last];
  }

  lemma RunShortens(lib: Library, order: seq<Hash>, n: nat)
    requires AcceptedRun(lib, order) && n <= |order|
    ensures AcceptedRun(lib, order[..n])
  {
    forall i | 0 <= i < n ensures Accept(lib, Elements(order[..n][..i]), order[..n][i]).Ok? {
      assert order[..n][..i] == order[..i];
    }
  }

  /** Some member's clock is greatest; nothing in the set names it as a parent. */
  lemma {:induction false} LatestEntry(lib: Library, E: set<Hash>) returns (latest: Hash)
    requires exists h :: h in E
    ensures latest in E && forall h :: h in E ==> Time(lib, h) <= Time(lib, latest)
    decreases E
  {
    latest :| latest in E;
    var rest := E - {latest};
    assert forall h :: h in E ==> h == latest || h in rest;
    if exists h :: h in rest {
      var other := LatestEntry(lib, rest);
      if Time(lib, other) > Time(lib, latest) {
        latest := other;
      }
    }
  }

  lemma {:induction false} ValidLogsAreReached(lib: Library, E: set<Hash>) returns (order: seq<Hash>)
    requires Valid(lib, E)
    ensures AcceptedRun(lib, order) && Elements(order) == E && |order| == |E|
    decreases E
  {
    if exists h :: h in E {
      var latest := LatestEntry(lib, E);
      LatestWasAccepted(lib, E, latest);
      var before := ValidLogsAreReached(lib, E - {latest});
      order := before + [latest];
      RunExtends(lib, before, latest);
      PutBack(E, latest);
    } else {
      order := [];
      assert Elements([]) == {} == E;
    }
  }

  lemma PutBack(E: set<Hash>, h: Hash)
    requires h in E
    ensures (E - {h}) + {h} == E && |E - {h}| == |E| - 1
  {
  }

  lemma LatestWasAccepted(lib: Library, E: set<Hash>, latest: Hash)
    requires Valid(lib, E) && latest in E && forall h :: h in E ==> Time(lib, h) <= Time(lib, latest)
    ensures Valid(lib, E - {latest}) && Accept(lib, E - {latest}, latest).Ok?
  {
    var rest := E - {latest};
    ValidIsGrounded(lib, E);
    ClosedPartIsValid(lib, rest, E);
    ValidIsGrounded(lib, rest);
    AcceptAgrees(lib, rest, E, latest);
  }

  lemma RunExtends(lib: Library, before: seq<Hash>, h: Hash)
    requires AcceptedRun(lib, before) && Accept(lib, Elements(before), h).Ok?
    ensures AcceptedRun(lib, before + [h]) && Elements(before + [h]) == Elements(before) + {h}
  {
    var order := before + [h];
    forall i | 0 <= i < |order| ensures Accept(lib, Elements(order[..i]), order[i]).Ok? {
      assert order[..i] == before[..i];
      assert before[..|before|] == before;
    }
  }

  // ---- Delegation never widens -------------------------------------------

  /** `chain` runs from a capability granted to `key` up to one signed by a
      write-list key; each link's signer is a grantee of the next link up. */
  ghost predicate Delegates(lib: Library, E: set<Hash>, key: PublicKey, chain: seq<Hash>)
    requires forall c :: c in chain ==> IsCapability(lib, c)
  {
    |chain| >= 1 &&
    (forall c :: c in chain ==> c in E) &&
    GranteeMatches(Record(lib, chain[0]).grantee, key) &&
    (forall i :: 0 <= i < |chain| - 1 ==>
      GranteeMatches(Record(lib, chain[i + 1]).grantee, EntryOf(lib, chain[i]).key)) &&
    ByWriter(lib, chain[|chain| - 1])
  }

  lemma {:induction false} ChainDelegates(lib: Library, E: set<Hash>, c: Hash, key: PublicKey)
    requires Valid(lib, E) && c in E && IsCapability(lib, c) && GranteeMatches(Record(lib, c).grantee, key)
    ensures Delegates(lib, E, key, Chain(lib, E, c))
    ensures forall x :: x in Chain(lib, E, c) ==> x == c || InPast(lib, x, c)
    decreases Time(lib, c)
  {
    if !ByWriter(lib, c) {
      AcceptedIsGrounded(lib, E, c);
      var d := Cited(lib, c).value;
      PastIsEarlier(lib, d, c);
      assert Accept(lib, E, c).Ok?;
      ChainDelegates(lib, E, d, EntryOf(lib, c).key);
      var rest := Chain(lib, E, d);
      assert Chain(lib, E, c) == [c] + rest;
      assert rest[0] == d;
      forall x | x in rest ensures InPast(lib, x, c) {
        if x != d {
          PastTransitive(lib, x, d, c);
        }
      }
    }
  }

  /** `chain` starts at the capability `c` and ends with it if the write list signed it;
      otherwise it goes on from the capability `c` was issued under. */
  ghost predicate IsChain(lib: Library, E: set<Hash>, c: Hash, chain: seq<Hash>)
    decreases |chain|
  {
    chain != [] && chain[0] == c && c in E && IsCapability(lib, c) &&
    if EntryOf(lib, c).key in lib.writeList then |chain| == 1
    else |chain| > 1 && EntryOf(lib, c).operation.capabilityId == Some(chain[1]) && IsChain(lib, E, chain[1], chain[1..])
  }

  /** In a valid log a capability has exactly one such chain. */
  lemma {:induction false} ChainIsUnique(lib: Library, E: set<Hash>, c: Hash, chain: seq<Hash>)
    requires Valid(lib, E) && c in E && IsCapability(lib, c)
    ensures IsChain(lib, E, c, chain) <==> chain == Chain(lib, E, c)
    decreases Time(lib, c)
  {
    if !ByWriter(lib, c) {
      AcceptedIsGrounded(lib, E, c);
      var d := Cited(lib, c).value;
      PastIsEarlier(lib, d, c);
      var rest := if chain == [] then [] else chain[1..];
      ChainIsUnique(lib, E, d, rest);
      ChainStartsAt(lib, E, d);
      assert chain != [] ==> chain == [chain[0]] + rest;
    }
  }

  lemma ChainStartsAt(lib: Library, E: set<Hash>, c: Hash)
    requires c in E && IsCapability(lib, c)
    ensures Chain(lib, E, c) != [] && Chain(lib, E, c)[0] == c
  {
  }

  /** In a valid log every entry signed outside the write list stands on a chain
      of one to eight capabilities in its causal past, rooted in a write-list
      key, none of them revoked by a revocation effective over that past; and a
      write that is not a revocation is within the actions, filter and
      conditions of every one of them. */
  lemma DelegationNeverWidens(lib: Library, E: set<Hash>, h: Hash)
    requires Valid(lib, E) && h in E && !ByWriter(lib, h)
    ensures EntryOf(lib, h).operation.Put? && Cited(lib, h).Some?
    ensures var chain := Chain(lib, E, Cited(lib, h).value);
            var value := EntryOf(lib, h).operation.value;
            1 <= |chain| <= MAX_CHAIN_LENGTH &&
            Delegates(lib, E, EntryOf(lib, h).key, chain) &&
            (forall c :: c in chain ==> InPast(lib, c, h)) &&
            !PastRevokes(lib, E, h, chain) &&
            (if value.Revocation? then MayRevoke(lib, E, h, value.revokes)
             else ChainCovers(lib, chain, value, EntryOf(lib, h).timestamp))
  {
    AcceptedIsGrounded(lib, E, h);
    assert Accept(lib, E, h).Ok?;
    var c := Cited(lib, h).value;
    ChainDelegates(lib, E, c, EntryOf(lib, h).key);
    var chain := Chain(lib, E, c);
    forall x | x in chain ensures InPast(lib, x, h) {
      if x != c {
        PastTransitive(lib, x, c, h);
      }
    }
    AuthoriseExactly(lib, E, h);
  }

  // ---- The state a log determines ----------------------------------------

  /** The entries that are nobody's parent. */
  ghost function Heads(lib: Library, E: set<Hash>): set<Hash> {
    set h | h in E && !exists e :: e in E && h in Next(lib, e)
  }

  ghost function RevocationsIn(lib: Library, E: set<Hash>): set<Hash> {
    set r | r in E && IsRevocation(lib, r)
  }

  ghost function Effective(lib: Library, E: set<Hash>): set<Hash> {
    EffectiveAmong(lib, E, RevocationsIn(lib, E))
  }

  /** A delegated revocation is inert unless effective; any other delegated
      entry is inert when an effective revocation silences it. */
  ghost predicate IsInert(lib: Library, E: set<Hash>, h: Hash, effective: set<Hash>) {
    if IsRevocation(lib, h) then h !in effective else InertUnder(lib, E, h, effective)
  }

  ghost function Inert(lib: Library, E: set<Hash>): set<Hash> {
    set h | h in E && !ByWriter(lib, h) && IsInert(lib, E, h, Effective(lib, E))
  }

  /** The current-state order: clock descending, timestamp descending, hash ascending. */
  predicate Supersedes(lib: Library, a: Hash, b: Hash) {
    Time(lib, a) > Time(lib, b) ||
    (Time(lib, a) == Time(lib, b) &&
     (Timestamp(lib, a) > Timestamp(lib, b) ||
      (Timestamp(lib, a) == Timestamp(lib, b) && a < b)))
  }

  /** `x` does not come before `c`: its clock is no greater; at equal clocks its timestamp
      is no greater; at equal timestamps its hash is no smaller. */
  predicate NoLater(lib: Library, x: Hash, c: Hash) {
    var (a, b) := (EntryOf(lib, x), EntryOf(lib, c));
    a.time <= b.time && (a.time == b.time ==> a.timestamp <= b.timestamp) &&
    (a.time == b.time && a.timestamp == b.timestamp ==> c <= x)
  }

  /** The first of some entries is the one nothing comes before. */
  lemma FirstExactly(lib: Library, hashes: set<Hash>, c: Hash)
    requires c in hashes
    ensures IsFirst(lib, hashes, c) <==> forall x :: x in hashes ==> NoLater(lib, x, c)
  {
    assert forall x :: x != c ==> (Supersedes(lib, c, x) <==> NoLater(lib, x, c));
  }

  ghost function Candidates(lib: Library, E: set<Hash>, inert: set<Hash>, k: StateKey): set<Hash> {
    set h | h in E && k in StateKeys(lib, h) && h !in inert
  }

  /** `h` comes first among `hashes` in the current-state order. */
  ghost predicate IsFirst(lib: Library, hashes: set<Hash>, h: Hash) {
    h in hashes && forall x :: x in hashes && x != h ==> Supersedes(lib, h, x)
  }

  /** `current` resolves every key over all entries that are not inert. */
  ghost predicate Resolves(lib: Library, E: set<Hash>, inert: set<Hash>, current: map<StateKey, Hash>) {
    forall k :: ResolvesKey(lib, E, inert, current, k)
  }

  ghost predicate ResolvesKey(lib: Library, E: set<Hash>, inert: set<Hash>, current: map<StateKey, Hash>, k: StateKey) {
    var candidates := Candidates(lib, E, inert, k);
    (k in current <==> candidates != {}) && (k in current ==> IsFirst(lib, candidates, current[k]))
  }

  lemma CurrentIsUnique(lib: Library, E: set<Hash>, inert: set<Hash>, a: map<StateKey, Hash>, b: map<StateKey, Hash>)
    requires Resolves(lib, E, inert, a) && Resolves(lib, E, inert, b)
    ensures a == b
  {
    forall k ensures (k in a <==> k in b) && (k in a ==> a[k] == b[k]) {
      assert ResolvesKey(lib, E, inert, a, k) && ResolvesKey(lib, E, inert, b, k);
    }
  }

  // ---- Heads determine the log -------------------------------------------

  ghost function Later(lib: Library, E: set<Hash>, h: Hash): set<Hash> {
    set x | x in E && Time(lib, x) > Time(lib, h)
  }

  lemma {:induction false} EntryReachesHead(lib: Library, E: set<Hash>, h: Hash) returns (head: Hash)
    requires Clocked(lib, E) && h in E
    ensures head in Heads(lib, E) && (head == h || InPast(lib, h, head))
    decreases Later(lib, E, h)
  {
    if h in Heads(lib, E) {
      return h;
    }
    var e :| e in E && h in Next(lib, e);
    assert e in Later(lib, E, h) && e !in Later(lib, E, e);
    head := EntryReachesHead(lib, E, e);
    assert InPast(lib, h, e);
    if head != e {
      PastTransitive(lib, h, e, head);
    }
  }

  lemma HeadsBound(lib: Library, E: set<Hash>, F: set<Hash>)
    requires Clocked(lib, E) && Clocked(lib, F) && Heads(lib, E) <= F
    ensures E <= F
  {
    forall h | h in E ensures h in F {
      var head := EntryReachesHead(lib, E, h);
      if head != h {
        PastStaysInside(lib, F, h, head);
      }
    }
  }

  /** Two clock-verified logs with the same heads hold the same entries. */
  lemma HeadsDetermineLog(lib: Library, E: set<Hash>, F: set<Hash>)
    requires Clocked(lib, E) && Clocked(lib, F) && Heads(lib, E) == Heads(lib, F)
    ensures E == F
  {
    HeadsBound(lib, E, F);
    HeadsBound(lib, F, E);
  }
}
