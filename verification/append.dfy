/** Local append: choosing the parents of a new entry, clocking it, and adding
    it once it has passed every check a received entry meets. */
module Appending {
  import opened Wrappers
  import opened Entries
  import opened Causal
  import opened Access
  import opened Log
  import opened Refresh
  import opened Sorting
  import opened Oplogs

  const MAX_CITED_HEADS := 256

  /** `head` is the capability or has it in its past; with no capability, always. */
  ghost predicate Keeps(lib: Library, capability: Option<Hash>, head: Hash) {
    capability.None? || head == capability.value || InPast(lib, capability.value, head)
  }

  method Reaches(oplog: Oplog, capability: Option<Hash>, head: Hash) returns (b: bool)
    requires oplog.Addressed() && Clocked(oplog.lib, oplog.entries.Keys) && head in oplog.entries
    ensures b <==> Keeps(oplog.lib, capability, head)
  {
    if capability.None? || head == capability.value {
      return true;
    }
    b := InCausalPast(oplog.lib, oplog.entries, capability.value, [head]);
    SingleReach(oplog.lib, head, capability.value);
  }

  lemma SingleReach(lib: Library, head: Hash, a: Hash)
    ensures ReachedFrom(lib, [head], a) <==> head == a || InPast(lib, a, head)
  {
    assert head in [head];
  }

  /** The index of the first listed head that keeps the capability, if any does. */
  method FirstKeeping(oplog: Oplog, capability: Option<Hash>, list: seq<Hash>) returns (found: Option<nat>)
    requires oplog.Addressed() && Clocked(oplog.lib, oplog.entries.Keys)
    requires forall h :: h in list ==> h in oplog.entries
    ensures found.Some? ==>
              found.value < |list| && Keeps(oplog.lib, capability, list[found.value]) &&
              forall j :: 0 <= j < found.value ==> !Keeps(oplog.lib, capability, list[j])
    ensures found.None? ==> forall j :: 0 <= j < |list| ==> !Keeps(oplog.lib, capability, list[j])
  {
    for i := 0 to |list|
      invariant forall j :: 0 <= j < i ==> !Keeps(oplog.lib, capability, list[j])
    {
      var head := list[i];
      assert head in list;
      var keeps := Reaches(oplog, capability, head);
      if keeps {
        return Some(i);
      }
    }
    return None;
  }

  /** The order heads are preferred in: greater clock first, then smaller hash. */
  predicate Newer(lib: Library, a: Hash, b: Hash) {
    Time(lib, a) > Time(lib, b) || (Time(lib, a) == Time(lib, b) && a < b)
  }

  /** `top` holds the newest 256 heads, or all when there are no more. */
  ghost predicate Newest(lib: Library, heads: set<Hash>, top: set<Hash>) {
    top <= heads && |top| == (if |heads| <= MAX_CITED_HEADS then |heads| else MAX_CITED_HEADS) &&
    forall x, y :: x in top && y in heads && y !in top ==> Newer(lib, x, y)
  }

  ghost predicate SomeKeeps(lib: Library, capability: Option<Hash>, hashes: set<Hash>) {
    exists h :: h in hashes && Keeps(lib, capability, h)
  }

  ghost predicate IsOldest(lib: Library, top: set<Hash>, h: Hash) {
    h in top && forall x :: x in top && x != h ==> Newer(lib, x, h)
  }

  ghost predicate IsNewestKeeping(lib: Library, capability: Option<Hash>, heads: set<Hash>, h: Hash) {
    h in heads && Keeps(lib, capability, h) &&
    forall x :: x in heads && x != h && Keeps(lib, capability, x) ==> Newer(lib, h, x)
  }

  /** The newest heads, or, when none of them keeps the capability and another head
      does, those with the oldest replaced by the newest head that does. */
  ghost predicate Chooses(lib: Library, heads: set<Hash>, capability: Option<Hash>, top: set<Hash>, chosen: set<Hash>) {
    if SomeKeeps(lib, capability, top) || !SomeKeeps(lib, capability, heads) then chosen == top
    else exists oldest, stand ::
      IsOldest(lib, top, oldest) && IsNewestKeeping(lib, capability, heads, stand) && chosen == top - {oldest} + {stand}
  }

  ghost predicate WellChosen(lib: Library, heads: set<Hash>, capability: Option<Hash>, next: seq<Hash>) {
    Distinct(next) && exists top :: Newest(lib, heads, top) && Chooses(lib, heads, capability, top, Members(next))
  }

  /** The sorted heads cut to the cap, with one stood in for the capability if need be. */
  method CutHeads(oplog: Oplog, capability: Option<Hash>, sorted: seq<Hash>) returns (chosen: seq<Hash>)
    requires oplog.Addressed() && Clocked(oplog.lib, oplog.entries.Keys) && oplog.heads <= oplog.entries.Keys
    requires Distinct(sorted) && Ordered(oplog.lib, ToCite, sorted) && |sorted| == |oplog.heads| > MAX_CITED_HEADS
    requires forall h :: h in sorted <==> h in oplog.heads
    ensures WellChosen(oplog.lib, oplog.heads, capability, chosen)
  {
    chosen := sorted[..MAX_CITED_HEADS];
    var rest := sorted[MAX_CITED_HEADS..];
    assert sorted == chosen + rest;
    CutIsNewest(oplog.lib, oplog.heads, sorted);
    var kept := FirstKeeping(oplog, capability, chosen);
    if kept.None? {
      var found := FirstKeeping(oplog, capability, rest);
      if found.Some? {
        StandIn(oplog.lib, oplog.heads, capability, sorted, found.value);
        chosen := chosen[MAX_CITED_HEADS - 1 := rest[found.value]];
        return;
      }
      NoneKeeps(oplog.lib, oplog.heads, capability, chosen, rest);
    } else {
      var head := chosen[kept.value];
      assert head in Members(chosen) && Keeps(oplog.lib, capability, head);
    }
  }

  lemma NoneKeeps(lib: Library, heads: set<Hash>, capability: Option<Hash>, chosen: seq<Hash>, rest: seq<Hash>)
    requires forall h :: h in heads <==> h in chosen + rest
    requires forall j :: 0 <= j < |chosen| ==> !Keeps(lib, capability, chosen[j])
    requires forall j :: 0 <= j < |rest| ==> !Keeps(lib, capability, rest[j])
    ensures !SomeKeeps(lib, capability, heads)
  {
    forall h | h in heads ensures !Keeps(lib, capability, h) {
      assert h in chosen || h in rest;
    }
  }

  method SelectNext(oplog: Oplog, capability: Option<Hash>) returns (next: seq<Hash>)
    requires oplog.Addressed() && Clocked(oplog.lib, oplog.entries.Keys) && oplog.heads <= oplog.entries.Keys
    ensures WellChosen(oplog.lib, oplog.heads, capability, next)
    ensures Ordered(oplog.lib, ByHash, next)
  {
    var listed := Listed(oplog.heads);
    var sorted := Sort(oplog.lib, ToCite, listed);
    SameElements(sorted, listed);
    PermutationIsDistinct(listed, sorted);
    var chosen := sorted;
    if |sorted| > MAX_CITED_HEADS {
      chosen := CutHeads(oplog, capability, sorted);
    } else {
      AllAreChosen(oplog.lib, oplog.heads, capability, sorted);
    }
    next := Sort(oplog.lib, ByHash, chosen);
    SameElements(next, chosen);
    PermutationIsDistinct(chosen, next);
    assert Members(next) == Members(chosen);
  }

  lemma AllAreChosen(lib: Library, heads: set<Hash>, capability: Option<Hash>, list: seq<Hash>)
    requires Distinct(list) && (forall h :: h in list <==> h in heads) && |heads| <= MAX_CITED_HEADS
    ensures WellChosen(lib, heads, capability, list)
  {
    assert forall h :: h in Members(list) <==> h in heads;
    assert Members(list) == heads;
    assert Newest(lib, heads, heads);
  }

  lemma OrderedIsNewer(lib: Library, sorted: seq<Hash>, i: nat, j: nat)
    requires Distinct(sorted) && Ordered(lib, ToCite, sorted) && i < j < |sorted|
    ensures Newer(lib, sorted[i], sorted[j])
  {
    assert AtMost(lib, ToCite, sorted[i], sorted[j]);
  }

  /** The first 256 of the sorted heads are the newest. */
  lemma CutIsNewest(lib: Library, heads: set<Hash>, sorted: seq<Hash>)
    requires Distinct(sorted) && Ordered(lib, ToCite, sorted) && |sorted| == |heads| > MAX_CITED_HEADS
    requires forall h :: h in sorted <==> h in heads
    ensures Distinct(sorted[..MAX_CITED_HEADS]) && Newest(lib, heads, Members(sorted[..MAX_CITED_HEADS]))
  {
    var cut := sorted[..MAX_CITED_HEADS];
    MembersCount(cut);
    assert forall x :: x in cut ==> x in sorted;
    assert forall k :: 0 <= k < MAX_CITED_HEADS ==> cut[k] == sorted[k] && cut[k] in cut;
    forall x, y | x in cut && y in heads && y !in cut ensures Newer(lib, x, y) {
      var i :| 0 <= i < |cut| && cut[i] == x;
      var j :| 0 <= j < |sorted| && sorted[j] == y;
      OrderedIsNewer(lib, sorted, i, j);
    }
  }

  lemma StandIn(lib: Library, heads: set<Hash>, capability: Option<Hash>, sorted: seq<Hash>, found: nat)
    requires Distinct(sorted) && Ordered(lib, ToCite, sorted) && |sorted| == |heads| > MAX_CITED_HEADS
    requires forall h :: h in sorted <==> h in heads
    requires found < |sorted| - MAX_CITED_HEADS && Keeps(lib, capability, sorted[MAX_CITED_HEADS + found])
    requires forall j :: 0 <= j < MAX_CITED_HEADS ==> !Keeps(lib, capability, sorted[..MAX_CITED_HEADS][j])
    requires forall j :: 0 <= j < found ==> !Keeps(lib, capability, sorted[MAX_CITED_HEADS..][j])
    ensures WellChosen(lib, heads, capability,
                       sorted[..MAX_CITED_HEADS][MAX_CITED_HEADS - 1 := sorted[MAX_CITED_HEADS + found]])
  {
    var cut, stand := sorted[..MAX_CITED_HEADS], sorted[MAX_CITED_HEADS + found];
    var oldest, next := cut[MAX_CITED_HEADS - 1], cut[MAX_CITED_HEADS - 1 := stand];
    CutIsNewest(lib, heads, sorted);
    FirstIsNewestKeeping(lib, heads, capability, sorted, found);
    LastIsOldest(lib, sorted);
    ReplacedLast(cut, stand);
    assert stand in heads && SomeKeeps(lib, capability, heads);
    assert !SomeKeeps(lib, capability, Members(cut));
    assert Chooses(lib, heads, capability, Members(cut), Members(next));
  }

  lemma LastIsOldest(lib: Library, sorted: seq<Hash>)
    requires Distinct(sorted) && Ordered(lib, ToCite, sorted) && |sorted| > MAX_CITED_HEADS
    ensures IsOldest(lib, Members(sorted[..MAX_CITED_HEADS]), sorted[..MAX_CITED_HEADS][MAX_CITED_HEADS - 1])
  {
    var cut := sorted[..MAX_CITED_HEADS];
    forall x | x in cut && x != cut[MAX_CITED_HEADS - 1] ensures Newer(lib, x, cut[MAX_CITED_HEADS - 1]) {
      var i :| 0 <= i < |cut| && cut[i] == x;
      OrderedIsNewer(lib, sorted, i, MAX_CITED_HEADS - 1);
    }
  }

  lemma FirstIsNewestKeeping(lib: Library, heads: set<Hash>, capability: Option<Hash>, sorted: seq<Hash>, found: nat)
    requires Distinct(sorted) && Ordered(lib, ToCite, sorted) && |sorted| > MAX_CITED_HEADS
    requires forall h :: h in sorted <==> h in heads
    requires found < |sorted| - MAX_CITED_HEADS && Keeps(lib, capability, sorted[MAX_CITED_HEADS + found])
    requires forall j :: 0 <= j < MAX_CITED_HEADS ==> !Keeps(lib, capability, sorted[..MAX_CITED_HEADS][j])
    requires forall j :: 0 <= j < found ==> !Keeps(lib, capability, sorted[MAX_CITED_HEADS..][j])
    ensures IsNewestKeeping(lib, capability, heads, sorted[MAX_CITED_HEADS + found])
    ensures sorted[MAX_CITED_HEADS + found] !in sorted[..MAX_CITED_HEADS]
  {
    var at, cut, rest := MAX_CITED_HEADS + found, sorted[..MAX_CITED_HEADS], sorted[MAX_CITED_HEADS..];
    assert forall k :: 0 <= k < MAX_CITED_HEADS ==> cut[k] == sorted[k];
    assert forall k :: MAX_CITED_HEADS <= k < |sorted| ==> rest[k - MAX_CITED_HEADS] == sorted[k];
    forall x | x in heads && x != sorted[at] && Keeps(lib, capability, x) ensures Newer(lib, sorted[at], x) {
      var j :| 0 <= j < |sorted| && sorted[j] == x;
      OrderedIsNewer(lib, sorted, at, j);
    }
  }

  lemma ReplacedLast(cut: seq<Hash>, stand: Hash)
    requires cut != [] && Distinct(cut) && stand !in cut
    ensures var last := |cut| - 1;
            Distinct(cut[last := stand]) && Members(cut[last := stand]) == Members(cut) - {cut[last]} + {stand}
  {
    var last := |cut| - 1;
    var next := cut[last := stand];
    assert cut == cut[..last] + [cut[last]] && next == cut[..last] + [stand];
    assert forall h :: h in Members(next) <==> h in Members(cut) - {cut[last]} + {stand};
  }

  /** What a good choice means for the new entry: at most 256 heads, all of them when
      they fit, and one that keeps the capability whenever any head does. */
  lemma ChoiceIsSound(lib: Library, heads: set<Hash>, capability: Option<Hash>, next: seq<Hash>)
    requires WellChosen(lib, heads, capability, next)
    ensures forall h :: h in next ==> h in heads
    ensures |next| == if |heads| <= MAX_CITED_HEADS then |heads| else MAX_CITED_HEADS
    ensures |heads| <= MAX_CITED_HEADS ==> forall h :: h in heads ==> h in next
    ensures SomeKeeps(lib, capability, heads) ==> SomeKeeps(lib, capability, Members(next))
  {
    var top :| Newest(lib, heads, top) && Chooses(lib, heads, capability, top, Members(next));
    MembersCount(next);
    if |heads| <= MAX_CITED_HEADS {
      SameSize(top, heads);
    }
    ChosenIsSound(lib, heads, capability, top, Members(next));
    assert forall h :: h in next <==> h in Members(next);
  }

  lemma ChosenIsSound(lib: Library, heads: set<Hash>, capability: Option<Hash>, top: set<Hash>, chosen: set<Hash>)
    requires Newest(lib, heads, top) && Chooses(lib, heads, capability, top, chosen)
    ensures chosen <= heads && |chosen| == |top| && (top == heads ==> chosen == heads)
    ensures SomeKeeps(lib, capability, heads) ==> SomeKeeps(lib, capability, chosen)
  {
    if !SomeKeeps(lib, capability, top) && SomeKeeps(lib, capability, heads) {
      var oldest, stand :| IsOldest(lib, top, oldest) && IsNewestKeeping(lib, capability, heads, stand) &&
                           chosen == top - {oldest} + {stand};
      Replaced(top, oldest, stand);
      assert stand in chosen;
    }
  }

  lemma Replaced(top: set<Hash>, oldest: Hash, stand: Hash)
    requires oldest in top && stand !in top
    ensures |top - {oldest} + {stand}| == |top|
  {
    assert |top - {oldest}| == |top| - 1;
  }

  lemma SameSize(a: set<Hash>, b: set<Hash>)
    requires a <= b && |a| == |b|
    ensures a == b
  {
    assert b == a + (b - a);
    assert |b - a| == 0;
    assert forall h :: h in b ==> h in a;
  }

  lemma NewestIsUnique(lib: Library, heads: set<Hash>, a: set<Hash>, b: set<Hash>)
    requires Newest(lib, heads, a) && Newest(lib, heads, b)
    ensures a == b
  {
    if forall x :: x in a ==> x in b {
      SameSize(a, b);
    } else {
      var x :| x in a && x !in b;
      assert forall y :: y in b ==> y in a || (Newer(lib, x, y) && Newer(lib, y, x));
      assert forall y :: y in b ==> y in a;
      SameSize(b, a);
    }
  }

  lemma ChosenIsUnique(lib: Library, heads: set<Hash>, capability: Option<Hash>, top: set<Hash>, a: set<Hash>, b: set<Hash>)
    requires Chooses(lib, heads, capability, top, a) && Chooses(lib, heads, capability, top, b)
    ensures a == b
  {
    if !SomeKeeps(lib, capability, top) && SomeKeeps(lib, capability, heads) {
      var oldest, stand :| IsOldest(lib, top, oldest) && IsNewestKeeping(lib, capability, heads, stand) &&
                           a == top - {oldest} + {stand};
      var oldest', stand' :| IsOldest(lib, top, oldest') && IsNewestKeeping(lib, capability, heads, stand') &&
                             b == top - {oldest'} + {stand'};
      assert oldest == oldest' && stand == stand';
    }
  }

  /** The heads, the cited capability and the clocks alone decide what is cited. */
  lemma ChoiceIsUnique(lib: Library, heads: set<Hash>, capability: Option<Hash>, next: seq<Hash>, other: seq<Hash>)
    requires WellChosen(lib, heads, capability, next) && Ordered(lib, ByHash, next)
    requires WellChosen(lib, heads, capability, other) && Ordered(lib, ByHash, other)
    ensures next == other
  {
    var top :| Newest(lib, heads, top) && Chooses(lib, heads, capability, top, Members(next));
    var also :| Newest(lib, heads, also) && Chooses(lib, heads, capability, also, Members(other));
    NewestIsUnique(lib, heads, top, also);
    ChosenIsUnique(lib, heads, capability, top, Members(next), Members(other));
    assert forall h :: h in next <==> h in Members(next);
    assert forall h :: h in other <==> h in Members(other);
    SortedIsUnique(lib, next, other);
  }

  /** A capability the log holds is kept: every entry reaches some head. */
  lemma HeldCapabilityIsKept(lib: Library, E: set<Hash>, capability: Hash, next: seq<Hash>)
    requires Clocked(lib, E) && capability in E && WellChosen(lib, Heads(lib, E), Some(capability), next)
    ensures ReachedFrom(lib, next, capability)
  {
    var head := EntryReachesHead(lib, E, capability);
    assert head in Heads(lib, E) && Keeps(lib, Some(capability), head);
    ChoiceIsSound(lib, Heads(lib, E), Some(capability), next);
  }

  method ClockAbove(oplog: Oplog, next: seq<Hash>) returns (time: nat)
    requires oplog.Addressed() && forall h :: h in next ==> h in oplog.entries
    ensures time == MaxTime(oplog.lib, next) + 1
  {
    var max := 0;
    for i := 0 to |next|
      invariant max == MaxTime(oplog.lib, next[..i])
    {
      var hash := next[i];
      assert hash in next;
      assert next[..i + 1] == next[..i] + [hash] && next[..i + 1][..i] == next[..i];
      if oplog.entries[hash].time > max {
        max := oplog.entries[hash].time;
      }
    }
    assert next[..|next|] == next;
    time := max + 1;
  }

  /** An entry that cites heads of the log was not in it. */
  lemma NewEntryIsNew(lib: Library, E: set<Hash>, capability: Option<Hash>, h: Hash)
    requires Clocked(lib, E) && WellChosen(lib, Heads(lib, E), capability, Next(lib, h))
    ensures h !in E
  {
    ChoiceIsSound(lib, Heads(lib, E), capability, Next(lib, h));
    forall x | x in E ensures x != h {
      var head := EntryReachesHead(lib, E, x);
      assert {head} <= Heads(lib, E) && |{head}| <= |Heads(lib, E)|;
      var p := Next(lib, h)[0];
      assert p in Next(lib, h);
      assert p in Heads(lib, E);
    }
  }

  // ---- A duplicate of the live track ---------------------------------------

  /** In a record store, a track PUT repeats the live one when the current entry of
      that track is a PUT of the same content; a deleted track is not live. */
  predicate Duplicates(lib: Library, current: map<StateKey, Hash>, operation: Operation) {
    lib.kind == Recordstore && operation.Put? && operation.value.Track? &&
    var k := TrackKey(operation.value.trackId);
    k in current && var live := EntryOf(lib, current[k]).operation;
    live.Put? && live.value.Track? && live.value == operation.value
  }

  method IsDuplicate(oplog: Oplog, operation: Operation) returns (duplicate: bool)
    requires oplog.Addressed() && forall k :: k in oplog.current ==> oplog.current[k] in oplog.entries
    ensures duplicate <==> Duplicates(oplog.lib, oplog.current, operation)
    ensures duplicate <==>
              oplog.lib.kind == Recordstore &&
              exists k, content :: k in oplog.current && operation.Put? && k.TrackKey? && operation.value == Track(k.trackId, content) &&
                                   EntryOf(oplog.lib, oplog.current[k]).operation.Put? &&
                                   EntryOf(oplog.lib, oplog.current[k]).operation.value == Track(k.trackId, content)
  {
    if oplog.lib.kind != Recordstore || !operation.Put? || !operation.value.Track? {
      return false;
    }
    var k := TrackKey(operation.value.trackId);
    if k !in oplog.current {
      return false;
    }
    var live := oplog.entries[oplog.current[k]].operation;
    return live.Put? && live.value == operation.value;
  }

  /** The entry a local operation becomes: well-chosen parents in hash order, no
      references, and a clock one above its parents'. */
  ghost predicate Drafted(lib: Library, heads: set<Hash>, key: PublicKey, operation: Operation, timestamp: int, entry: Entry) {
    entry == Entry(key, entry.next, [], MaxTime(lib, entry.next) + 1, timestamp, operation) &&
    WellChosen(lib, heads, CitedBy(operation), entry.next) && Ordered(lib, ByHash, entry.next)
  }

  method DraftEntry(oplog: Oplog, key: PublicKey, operation: Operation, timestamp: int) returns (entry: Entry)
    requires oplog.Indexed() && Valid(oplog.lib, oplog.entries.Keys)
    ensures Drafted(oplog.lib, oplog.heads, key, operation, timestamp, entry)
  {
    ValidIsGrounded(oplog.lib, oplog.entries.Keys);
    var next := SelectNext(oplog, CitedBy(operation));
    ChoiceIsSound(oplog.lib, oplog.heads, CitedBy(operation), next);
    var time := ClockAbove(oplog, next);
    entry := Entry(key, next, [], time, timestamp, operation);
  }

  /** A drafted entry is new, its clock passes, and a capability the log holds is in
      its causal past. */
  lemma DraftIsSound(lib: Library, E: set<Hash>, key: PublicKey, operation: Operation, timestamp: int, h: Hash)
    requires Valid(lib, E) && Drafted(lib, Heads(lib, E), key, operation, timestamp, EntryOf(lib, h))
    ensures h !in E && ClockHolds(lib, E, h)
    ensures CitedBy(operation).Some? && CitedBy(operation).value in E ==> ReachedFrom(lib, Next(lib, h), CitedBy(operation).value)
  {
    var capability := CitedBy(operation);
    ValidIsGrounded(lib, E);
    ChoiceIsSound(lib, Heads(lib, E), capability, Next(lib, h));
    NewEntryIsNew(lib, E, capability, h);
    if capability.Some? && capability.value in E {
      HeldCapabilityIsKept(lib, E, capability.value, Next(lib, h));
    }
  }

  /** Signs an operation against the log's heads and verifies it without appending.
      A duplicate is refused first. */
  method SignLocalEntry(oplog: Oplog, hash: Entry -> Hash, key: PublicKey, operation: Operation, timestamp: int)
    returns (signed: Option<Hash>, verdict: Verdict)
    requires oplog.Indexed() && Valid(oplog.lib, oplog.entries.Keys)
    requires forall k :: k in oplog.current ==> oplog.current[k] in oplog.entries
    requires forall e :: oplog.lib.entryOf(hash(e)) == e
    ensures signed.None? <==> Duplicates(oplog.lib, oplog.current, operation)
    ensures signed.None? ==> verdict == Fail(DuplicateEntry)
    ensures signed.Some? ==>
              var h := signed.value;
              Drafted(oplog.lib, oplog.heads, key, operation, timestamp, EntryOf(oplog.lib, h)) &&
              h !in oplog.entries && ClockHolds(oplog.lib, oplog.entries.Keys, h) &&
              verdict == Accept(oplog.lib, oplog.entries.Keys, h)
    ensures signed.Some? && CitedBy(operation).Some? && CitedBy(operation).value in oplog.entries ==>
              ReachedFrom(oplog.lib, Next(oplog.lib, signed.value), CitedBy(operation).value)
  {
    var duplicate := IsDuplicate(oplog, operation);
    if duplicate {
      return None, Fail(DuplicateEntry);
    }
    var entry := DraftEntry(oplog, key, operation, timestamp);
    var h := hash(entry);
    assert EntryOf(oplog.lib, h) == entry;
    DraftIsSound(oplog.lib, oplog.entries.Keys, key, operation, timestamp, h);
    verdict := oplog.VerifyEntry(h);
    signed := Some(h);
  }

  /** What a log becomes by a local append that cites every head: the new entry is
      its only head, is inert exactly when it is a delegated revocation of a
      capability it stands on itself, and is current under each of its keys. */
  ghost predicate TakesEffect(lib: Library, E: set<Hash>, current: map<StateKey, Hash>, h: Hash) {
    Heads(lib, E) == {h} &&
    (h in Inert(lib, E) <==>
      EntryOf(lib, h).key !in lib.writeList && IsRevocation(lib, h) &&
      EntryOf(lib, h).operation.value.revokes in ChainOf(lib, E, Cited(lib, h))) &&
    (forall k :: Concerns(EntryOf(lib, h).operation, k) ==> k in current && current[k] == h)
  }

  /** A record store refuses the same track PUT a second time, and takes any PUT of a
      track just deleted. */
  ghost predicate RepeatIsDuplicate(lib: Library, current: map<StateKey, Hash>, operation: Operation) {
    (lib.kind == Recordstore && operation.Put? && operation.value.Track? ==> Duplicates(lib, current, operation)) &&
    (operation.Del? ==> forall content, cited :: !Duplicates(lib, current, Put(Track(operation.trackId, content), cited)))
  }

  /** Appends a local operation if it is no duplicate and verifies. An append that
      cites every head takes effect at once, and the same track PUT again is then
      a duplicate. */
  method AppendEntry(oplog: Oplog, hash: Entry -> Hash, key: PublicKey, operation: Operation, timestamp: int)
    returns (signed: Option<Hash>, verdict: Verdict, inert: seq<Hash>, keys: set<StateKey>)
    requires oplog.Consistent()
    requires forall e :: oplog.lib.entryOf(hash(e)) == e
    modifies oplog
    ensures oplog.Consistent()
    ensures signed.None? <==> old(Duplicates(oplog.lib, oplog.current, operation))
    ensures signed.None? ==> verdict == Fail(DuplicateEntry)
    ensures signed.Some? ==>
              verdict == Accept(oplog.lib, old(oplog.entries.Keys), signed.value) &&
              signed.value !in old(oplog.entries) &&
              Drafted(oplog.lib, old(oplog.heads), key, operation, timestamp, EntryOf(oplog.lib, signed.value))
    ensures verdict.Ok? ==> oplog.entries.Keys == old(oplog.entries.Keys) + {signed.value}
    ensures verdict.Fail? ==> unchanged(oplog)
    ensures verdict.Ok? ==> SelfChecked(oplog.lib, signed.value)
    ensures verdict.Ok? && |old(oplog.heads)| <= MAX_CITED_HEADS ==>
              TakesEffect(oplog.lib, oplog.entries.Keys, oplog.current, signed.value) &&
              RepeatIsDuplicate(oplog.lib, oplog.current, operation)
    ensures forall x :: x in inert <==> x in oplog.inert && x !in old(oplog.inert)
    ensures forall k :: k in keys <==> Rejudged(oplog.lib, old(oplog.inert), oplog.inert, k)
    ensures forall k :: Moved(old(oplog.current), oplog.current, k) ==>
              signed.Some? && Touches(oplog.lib, [signed.value], keys, k)
  {
    ghost var lib, E := oplog.lib, oplog.entries.Keys;
    CurrentIsHeld(oplog);
    signed, verdict := SignLocalEntry(oplog, hash, key, operation, timestamp);
    inert, keys := [], {};
    if verdict.Ok? {
      if |oplog.heads| <= MAX_CITED_HEADS {
        EveryHeadIsCited(lib, oplog.heads, CitedBy(operation), Next(lib, signed.value));
      }
      inert, keys := AddVerified(oplog, signed.value);
    }
  }

  lemma EveryHeadIsCited(lib: Library, heads: set<Hash>, capability: Option<Hash>, next: seq<Hash>)
    requires WellChosen(lib, heads, capability, next) && |heads| <= MAX_CITED_HEADS
    ensures forall x :: x in heads ==> x in next
  {
    ChoiceIsSound(lib, heads, capability, next);
  }

  lemma LiveIsDuplicate(lib: Library, E: set<Hash>, current: map<StateKey, Hash>, h: Hash)
    requires TakesEffect(lib, E, current, h)
    ensures RepeatIsDuplicate(lib, current, EntryOf(lib, h).operation)
  {
    var operation := EntryOf(lib, h).operation;
    if operation.Put? && operation.value.Track? {
      assert Concerns(operation, TrackKey(operation.value.trackId));
    }
    if operation.Del? {
      assert Concerns(operation, TrackKey(operation.trackId));
    }
  }

  /** Inserts a verified new entry and brings every derived part up to date. */
  method AddVerified(oplog: Oplog, h: Hash) returns (inert: seq<Hash>, keys: set<StateKey>)
    requires oplog.Consistent() && h !in oplog.entries && Accept(oplog.lib, oplog.entries.Keys, h).Ok?
    modifies oplog
    ensures oplog.Consistent() && oplog.entries.Keys == old(oplog.entries.Keys) + {h}
    ensures forall x :: x in oplog.entries ==> SelfChecked(oplog.lib, x)
    ensures forall x :: x in inert <==> x in oplog.inert && x !in old(oplog.inert)
    ensures forall k :: k in keys <==> Rejudged(oplog.lib, old(oplog.inert), oplog.inert, k)
    ensures forall k :: Moved(old(oplog.current), oplog.current, k) ==> Touches(oplog.lib, [h], keys, k)
    ensures (forall x :: x in old(oplog.heads) ==> x in Next(oplog.lib, h)) ==>
              TakesEffect(oplog.lib, oplog.entries.Keys, oplog.current, h) &&
              RepeatIsDuplicate(oplog.lib, oplog.current, EntryOf(oplog.lib, h).operation)
  {
    ghost var lib, E := oplog.lib, oplog.entries.Keys;
    InsertKeepsValid(lib, E, h);
    var _ := oplog.InsertEntry(h);
    inert, keys := oplog.Settle([h], E);
    if forall x :: x in Heads(lib, E) ==> x in Next(lib, h) {
      AppendTakesEffect(lib, E, h, oplog.current);
      LiveIsDuplicate(lib, oplog.entries.Keys, oplog.current, h);
    }
    MembersAreChecked(lib, oplog.entries.Keys);
  }

  lemma CurrentIsHeld(oplog: Oplog)
    requires oplog.Consistent()
    ensures forall k :: k in oplog.current ==> oplog.current[k] in oplog.entries
  {
    forall k | k in oplog.current ensures oplog.current[k] in oplog.entries {
      assert ResolvesKey(oplog.lib, oplog.entries.Keys, oplog.inert, oplog.current, k);
    }
  }

  // ---- A local append takes effect -----------------------------------------

  /** An entry that cites every head has the whole log in its past, and a greater clock. */
  lemma WholeLogIsPast(lib: Library, E: set<Hash>, h: Hash, x: Hash)
    requires Clocked(lib, E) && x in E && ClockHolds(lib, E, h)
    requires forall y :: y in Heads(lib, E) ==> y in Next(lib, h)
    ensures ReachedFrom(lib, Next(lib, h), x) && Time(lib, x) < Time(lib, h)
  {
    var head := EntryReachesHead(lib, E, x);
    ClockHoldsDescends(lib, E, h);
    if head != x {
      PastIsEarlier(lib, x, head);
    }
  }

  /** A delegated revocation judged after every other leaves their verdicts alone. */
  lemma {:induction false} LastLeavesOthers(lib: Library, E: set<Hash>, R: set<Hash>, h: Hash, x: Hash)
    requires AllRevocations(lib, R) && h !in R && x in R
    requires IsRevocation(lib, h) && !ByWriter(lib, h)
    requires forall y :: y in R ==> Precedes(lib, y, h)
    ensures AllRevocations(lib, R + {h})
    ensures IsEffective(lib, E, R + {h}, x) == IsEffective(lib, E, R, x)
    decreases Earlier(lib, R, x)
  {
    if !ByWriter(lib, x) {
      forall e | e in R && Precedes(lib, e, x) ensures IsEffective(lib, E, R + {h}, e) == IsEffective(lib, E, R, e) {
        EarlierShrinks(lib, R, e, x);
        LastLeavesOthers(lib, E, R, h, e);
      }
      assert !Precedes(lib, h, x);
    }
  }

  /** A delegated entry that cites every head is judged over all the log's revocations. */
  lemma JudgedOverAll(lib: Library, E: set<Hash>, h: Hash)
    requires Valid(lib, E) && h !in E && Accept(lib, E + {h}, h).Ok? && ClockHolds(lib, E, h) && !ByWriter(lib, h)
    requires forall x :: x in Heads(lib, E) ==> x in Next(lib, h)
    ensures forall r :: r in EffectiveAmong(lib, E + {h}, RevocationsIn(lib, E)) ==> !Silences(lib, E + {h}, r, h)
  {
    var F, R := E + {h}, RevocationsIn(lib, E);
    ValidIsGrounded(lib, E);
    forall x | x in E ensures ReachedFrom(lib, Next(lib, h), x) {
      WholeLogIsPast(lib, E, h, x);
    }
    NotItsOwnPast(lib, E, h);
    assert PastRevocations(lib, F, h) == R;
    assert !RevokedInPast(lib, F, h, Chain(lib, F, Cited(lib, h).value));
  }

  lemma AppendedRevocation(lib: Library, E: set<Hash>, h: Hash)
    requires Valid(lib, E) && h !in E && Accept(lib, E + {h}, h).Ok? && ClockHolds(lib, E, h)
    requires !ByWriter(lib, h) && IsRevocation(lib, h)
    requires forall x :: x in Heads(lib, E) ==> x in Next(lib, h)
    ensures IsEffective(lib, E + {h}, RevocationsIn(lib, E) + {h}, h) <==> !SelfReferential(lib, E + {h}, h)
  {
    var R := RevocationsIn(lib, E);
    JudgedOverAll(lib, E, h);
    ValidIsGrounded(lib, E);
    forall e | e in R ensures Precedes(lib, e, h) {
      WholeLogIsPast(lib, E, h, e);
    }
    JudgedLast(lib, E + {h}, R, h);
  }

  lemma JudgedLast(lib: Library, E: set<Hash>, R: set<Hash>, h: Hash)
    requires AllRevocations(lib, R) && h !in R && IsRevocation(lib, h) && !ByWriter(lib, h)
    requires forall x :: x in R ==> Precedes(lib, x, h)
    requires forall r :: r in EffectiveAmong(lib, E, R) ==> !Silences(lib, E, r, h)
    ensures AllRevocations(lib, R + {h}) && (IsEffective(lib, E, R + {h}, h) <==> !SelfReferential(lib, E, h))
  {
    forall e | e in R && Silences(lib, E, e, h)
      ensures !ByWriter(lib, e) && !IsEffective(lib, E, R + {h}, e)
    {
      SilencerIsIneffective(lib, E, R, h, e);
    }
    UnsilencedIsEffective(lib, E, R, h);
  }

  lemma SilencerIsIneffective(lib: Library, E: set<Hash>, R: set<Hash>, h: Hash, e: Hash)
    requires AllRevocations(lib, R) && h !in R && IsRevocation(lib, h) && !ByWriter(lib, h)
    requires (forall x :: x in R ==> Precedes(lib, x, h)) && e in R && Silences(lib, E, e, h)
    requires forall r :: r in EffectiveAmong(lib, E, R) ==> !Silences(lib, E, r, h)
    ensures AllRevocations(lib, R + {h}) && !ByWriter(lib, e) && !IsEffective(lib, E, R + {h}, e)
  {
    LastLeavesOthers(lib, E, R, h, e);
    assert e !in EffectiveAmong(lib, E, R);
  }

  lemma UnsilencedIsEffective(lib: Library, E: set<Hash>, R: set<Hash>, h: Hash)
    requires AllRevocations(lib, R + {h}) && !ByWriter(lib, h)
    requires forall e :: e in R && Silences(lib, E, e, h) ==> !ByWriter(lib, e) && !IsEffective(lib, E, R + {h}, e)
    ensures IsEffective(lib, E, R + {h}, h) <==> !SelfReferential(lib, E, h)
  {
    assert !Precedes(lib, h, h);
  }

  lemma AppendedIsInertIff(lib: Library, E: set<Hash>, h: Hash)
    requires Valid(lib, E) && h !in E && Accept(lib, E + {h}, h).Ok? && ClockHolds(lib, E, h)
    requires forall x :: x in Heads(lib, E) ==> x in Next(lib, h)
    ensures h in Inert(lib, E + {h}) <==> !ByWriter(lib, h) && IsRevocation(lib, h) && SelfReferential(lib, E + {h}, h)
  {
    var F, R := E + {h}, RevocationsIn(lib, E);
    if !ByWriter(lib, h) {
      if IsRevocation(lib, h) {
        AppendedRevocation(lib, E, h);
        assert RevocationsIn(lib, F) == R + {h};
        assert h in Inert(lib, F) <==> !IsEffective(lib, F, R + {h}, h);
      } else {
        JudgedOverAll(lib, E, h);
        assert RevocationsIn(lib, F) == R;
        assert !InertUnder(lib, F, h, EffectiveAmong(lib, F, R));
      }
    }
  }

  lemma NotItsOwnPast(lib: Library, E: set<Hash>, h: Hash)
    requires Clocked(lib, E) && h !in E && (forall p :: p in Next(lib, h) ==> p in E)
    ensures !ReachedFrom(lib, Next(lib, h), h)
  {
    if ReachedFrom(lib, Next(lib, h), h) {
      ReachedStaysInside(lib, E, Next(lib, h), h);
    }
  }

  lemma AppendTakesEffect(lib: Library, E: set<Hash>, h: Hash, current: map<StateKey, Hash>)
    requires Valid(lib, E) && Valid(lib, E + {h}) && h !in E && ClockHolds(lib, E, h)
    requires forall x :: x in Heads(lib, E) ==> x in Next(lib, h)
    requires Resolves(lib, E + {h}, Inert(lib, E + {h}), current)
    ensures TakesEffect(lib, E + {h}, current, h)
  {
    OneHead(lib, E, h);
    AppendedIsInertIff(lib, E, h);
    ValidIsGrounded(lib, E);
    RevocationHasNoKeys(lib, h);
    LatestIsCurrentEverywhere(lib, E, h, Inert(lib, E + {h}), current);
    forall k | Concerns(EntryOf(lib, h).operation, k) ensures k in StateKeys(lib, h) {
      StateKeysExactly(EntryOf(lib, h).operation, k);
    }
  }

  lemma RevocationHasNoKeys(lib: Library, h: Hash)
    ensures IsRevocation(lib, h) ==> StateKeys(lib, h) == []
  {
  }

  lemma LatestIsCurrentEverywhere(lib: Library, E: set<Hash>, h: Hash, inert: set<Hash>, current: map<StateKey, Hash>)
    requires Clocked(lib, E) && ClockHolds(lib, E, h) && (h in inert ==> StateKeys(lib, h) == [])
    requires forall x :: x in Heads(lib, E) ==> x in Next(lib, h)
    requires Resolves(lib, E + {h}, inert, current)
    ensures forall k :: k in StateKeys(lib, h) ==> k in current && current[k] == h
  {
    forall k | k in StateKeys(lib, h) ensures k in current && current[k] == h {
      assert ResolvesKey(lib, E + {h}, inert, current, k);
      LatestIsCurrent(lib, E, h, inert, current, k);
    }
  }

  lemma LatestIsCurrent(lib: Library, E: set<Hash>, h: Hash, inert: set<Hash>, current: map<StateKey, Hash>, k: StateKey)
    requires Clocked(lib, E) && ClockHolds(lib, E, h) && h !in inert && k in StateKeys(lib, h)
    requires forall x :: x in Heads(lib, E) ==> x in Next(lib, h)
    requires ResolvesKey(lib, E + {h}, inert, current, k)
    ensures k in current && current[k] == h
  {
    assert h in Candidates(lib, E + {h}, inert, k);
    if current[k] != h {
      WholeLogIsPast(lib, E, h, current[k]);
    }
  }

  lemma OneHead(lib: Library, E: set<Hash>, h: Hash)
    requires Valid(lib, E) && Valid(lib, E + {h}) && h !in E
    requires forall x :: x in Heads(lib, E) ==> x in Next(lib, h)
    ensures Heads(lib, E + {h}) == {h}
  {
    ValidIsGrounded(lib, E);
    ValidIsGrounded(lib, E + {h});
    HeadsAfterInsert(lib, E, h);
    assert !Cites(lib, E + {h}, h);
    assert forall x :: x in Heads(lib, E + {h}) <==> x == h;
  }
}
