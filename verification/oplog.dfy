/** The log object: entries by hash with the indexes kept beside them, and the
    access and current state brought up to date after every insertion. */
module Oplogs {
  import opened Wrappers
  import opened Entries
  import opened Causal
  import opened Access
  import opened Log
  import opened Refresh
  import opened Sorting

  /** A key resolves to another entry than before. */
  ghost predicate Moved(before: map<StateKey, Hash>, after: map<StateKey, Hash>, k: StateKey) {
    (k in before) != (k in after) || (k in before && before[k] != after[k])
  }

  /** A key an added entry holds, or one reported as changed by access. */
  ghost predicate Touches(lib: Library, added: seq<Hash>, keys: set<StateKey>, k: StateKey) {
    k in keys || exists h :: h in added && k in StateKeys(lib, h)
  }

  /** `k` belongs to an entry whose inertness changed, either way. */
  ghost predicate Rejudged(lib: Library, before: set<Hash>, after: set<Hash>, k: StateKey) {
    exists h :: (h in before) != (h in after) && k in StateKeys(lib, h)
  }

  class Oplog {
    const lib: Library
    var entries: map<Hash, Entry>
    var heads: set<Hash>
    var referenced: set<Hash>
    var keyEntries: map<StateKey, set<Hash>>
    var current: map<StateKey, Hash>
    var capabilities: set<Hash>
    var revocations: set<Hash>
    var delegated: set<Hash>
    var effective: set<Hash>
    var inert: set<Hash>

    constructor (lib: Library)
      ensures this.lib == lib && entries == map[] && Consistent()
    {
      this.lib := lib;
      entries, heads, referenced, keyEntries, current := map[], {}, {}, map[], map[];
      capabilities, revocations, delegated, effective, inert := {}, {}, {}, {}, {};
    }

    /** Each hash names the entry held under it. */
    ghost predicate Addressed()
      reads this
    {
      forall h :: h in entries ==> entries[h] == EntryOf(lib, h)
    }

    /** Entries are addressed by content, and every index agrees with them. */
    ghost predicate Indexed()
      reads this
    {
      Addressed() &&
      LinksOf(entries.Keys) &&
      KeysOf(entries.Keys) &&
      capabilities == (set h | h in entries && IsCapability(lib, h)) &&
      revocations == RevocationsIn(lib, entries.Keys) &&
      delegated == (set h | h in entries && !ByWriter(lib, h))
    }

    /** Each state key lists exactly the entries of `E` it resolves over. */
    ghost predicate KeysOf(E: set<Hash>)
      reads this`keyEntries
    {
      forall k, h :: (k in keyEntries && h in keyEntries[k]) <==> (h in E && k in StateKeys(lib, h))
    }

    /** Heads and cited parents are those of `E`. */
    ghost predicate LinksOf(E: set<Hash>)
      reads this`heads, this`referenced
    {
      heads == Heads(lib, E) && forall p :: p in referenced <==> Cites(lib, E, p)
    }

    /** The effective and inert sets are those of the log `E`. */
    ghost predicate AccessOf(E: set<Hash>)
      reads this
    {
      effective == Effective(lib, E) && inert == Inert(lib, E)
    }

    /** What holds between operations: a valid log, and every derived part equal
        to its definition over all entries. */
    ghost predicate Consistent()
      reads this
    {
      Indexed() && Valid(lib, entries.Keys) && AccessOf(entries.Keys) &&
      Resolves(lib, entries.Keys, inert, current)
    }

    // ---- Reading the access state ------------------------------------------

    method CapabilityChain(cited: Option<Hash>) returns (chain: seq<Hash>)
      requires Addressed() && Grounded(lib, entries.Keys)
      ensures chain == ChainOf(lib, entries.Keys, cited)
    {
      chain := [];
      var hash := cited;
      while hash.Some?
        invariant ChainOf(lib, entries.Keys, cited) == chain + ChainOf(lib, entries.Keys, hash)
        decreases if hash.Some? then Time(lib, hash.value) + 1 else 0
      {
        var h := hash.value;
        ghost var rest := ChainOf(lib, entries.Keys, hash);
        if h !in entries || !IsCapability(lib, h) {
          assert rest == [] && chain + rest == chain;
          return;
        }
        if IsWriter(lib, entries[h].key) {
          assert rest == [h];
          return chain + [h];
        }
        ChainStep(lib, entries.Keys, h);
        assert chain + ([h] + ChainOf(lib, entries.Keys, Cited(lib, h))) == chain + [h] + ChainOf(lib, entries.Keys, Cited(lib, h));
        chain := chain + [h];
        hash := CitedBy(entries[h].operation);
      }
    }

    method IsInertUnder(h: Hash, effective: seq<Hash>) returns (b: bool)
      requires Addressed() && Grounded(lib, entries.Keys) && h in entries
      requires forall r :: r in effective ==> r in entries && IsRevocation(lib, r)
      ensures b == InertUnder(lib, entries.Keys, h, set r | r in effective)
      ensures b <==> EntryOf(lib, h).key !in lib.writeList && exists r :: r in effective && RevokesUnseen(lib, entries.Keys, r, h)
    {
      InertUnderListed(lib, entries.Keys, h, effective);
      if IsWriter(lib, entries[h].key) {
        return false;
      }
      var chain := CapabilityChain(CitedBy(entries[h].operation));
      b := AnyRevokesUnseen(h, chain, effective);
    }

    method AnyRevokesUnseen(h: Hash, chain: seq<Hash>, effective: seq<Hash>) returns (b: bool)
      requires Addressed() && Clocked(lib, entries.Keys) && chain == ChainOf(lib, entries.Keys, Cited(lib, h))
      requires forall r :: r in effective ==> r in entries && IsRevocation(lib, r)
      ensures b <==> exists r :: r in effective && RevokesUnseen(lib, entries.Keys, r, h)
    {
      for i := 0 to |effective|
        invariant forall j :: 0 <= j < i ==> !RevokesUnseen(lib, entries.Keys, effective[j], h)
      {
        var r := effective[i];
        assert r in effective;
        if Revokes(lib, r) in chain {
          var seen := InCausalPast(lib, entries, h, entries[r].next);
          if !seen {
            assert RevokesUnseen(lib, entries.Keys, r, h);
            return true;
          }
        }
      }
      return false;
    }

    method IsSelfReferential(r: Hash) returns (b: bool)
      requires Addressed() && Grounded(lib, entries.Keys) && r in entries && IsRevocation(lib, r)
      ensures b == SelfReferential(lib, entries.Keys, r)
    {
      var chain := CapabilityChain(CitedBy(entries[r].operation));
      return Revokes(lib, r) in chain;
    }

    /** The ordered effective-set procedure; as a set its result depends on the
        set of revocations alone. */
    method EffectiveRevocations(all: seq<Hash>) returns (found: seq<Hash>)
      requires Addressed() && Grounded(lib, entries.Keys)
      requires forall r :: r in all ==> r in entries && IsRevocation(lib, r)
      ensures (set r | r in found) == EffectiveAmong(lib, entries.Keys, set r | r in all)
      ensures forall r :: r in found ==> r in all
    {
      ghost var R := set r | r in all;
      found := [];
      var unsorted: seq<Hash> := [];
      for i := 0 to |all|
        invariant forall r :: r in found <==> r in all[..i] && ByWriter(lib, r)
        invariant forall r :: r in unsorted <==> r in all[..i] && !ByWriter(lib, r)
      {
        var r := all[i];
        assert r in all && all[..i + 1] == all[..i] + [r];
        if IsWriter(lib, entries[r].key) {
          found := found + [r];
        } else {
          unsorted := unsorted + [r];
        }
      }
      assert all[..|all|] == all;
      var sorted := Sort(lib, ToJudge, unsorted);
      SameElements(sorted, unsorted);
      for i := 0 to |sorted|
        invariant forall r :: r in found <==> r in R && IsEffective(lib, entries.Keys, R, r) && (ByWriter(lib, r) || r in sorted[..i])
      {
        var r := sorted[i];
        assert sorted[..i + 1] == sorted[..i] + [r];
        JudgedAfterEarlier(lib, entries.Keys, R, sorted, i, found);
        var selfish := IsSelfReferential(r);
        if !selfish {
          var silenced := IsInertUnder(r, found);
          if !silenced {
            found := found + [r];
          }
        }
      }
      assert sorted[..|sorted|] == sorted;
      assert forall r :: r in found <==> r in EffectiveAmong(lib, entries.Keys, R);
    }

    // ---- Authorising an entry ----------------------------------------------

    /** The revocations held in the causal past of an entry about to join. */
    method PastRevocationsOf(next: seq<Hash>) returns (past: seq<Hash>)
      requires Addressed() && Grounded(lib, entries.Keys) && revocations == RevocationsIn(lib, entries.Keys)
      requires forall p :: p in next ==> p in entries
      ensures forall r :: r in past <==> r in entries && IsRevocation(lib, r) && ReachedFrom(lib, next, r)
    {
      var all := Listed(revocations);
      past := [];
      for i := 0 to |all|
        invariant forall r :: r in past <==> r in all[..i] && ReachedFrom(lib, next, r)
      {
        assert all[..i + 1] == all[..i] + [all[i]];
        var inPast := InCausalPast(lib, entries, all[i], next);
        if inPast {
          past := past + [all[i]];
        }
      }
      assert all[..|all|] == all;
    }

    method IssuedAbove(target: Hash, key: PublicKey) returns (b: bool)
      requires Addressed() && Grounded(lib, entries.Keys)
      ensures b <==> exists c :: c in Chain(lib, entries.Keys, target) && EntryOf(lib, c).key == key
    {
      var chain := CapabilityChain(Some(target));
      for i := 0 to |chain|
        invariant forall j :: 0 <= j < i ==> EntryOf(lib, chain[j]).key != key
      {
        assert chain[i] in chain;
        if entries[chain[i]].key == key {
          return true;
        }
      }
      return false;
    }

    method AnyRevokes(found: seq<Hash>, chain: seq<Hash>) returns (b: bool)
      requires forall r :: r in found ==> IsRevocation(lib, r)
      ensures b <==> exists r :: r in found && Revokes(lib, r) in chain
    {
      for i := 0 to |found|
        invariant forall j :: 0 <= j < i ==> Revokes(lib, found[j]) !in chain
      {
        if Revokes(lib, found[i]) in chain {
          return true;
        }
      }
      return false;
    }

    method ChainAdmits(chain: seq<Hash>, value: Value, timestamp: int) returns (verdict: Verdict)
      requires forall c :: c in chain ==> IsCapability(lib, c)
      ensures verdict == ChainVerdict(lib, chain, value, timestamp)
    {
      for i := 0 to |chain|
        invariant ChainVerdict(lib, chain, value, timestamp) == ChainVerdict(lib, chain[i..], value, timestamp)
      {
        var link := LinkVerdict(lib, Record(lib, chain[i]), value, timestamp);
        assert chain[i..][0] == chain[i] && chain[i..][1..] == chain[i + 1..];
        if link.Fail? {
          return link;
        }
      }
      return Ok;
    }

    /** Judges an entry whose parents are held, over its causal past. */
    method AuthoriseEntry(h: Hash) returns (verdict: Verdict)
      requires Addressed() && Valid(lib, entries.Keys) && revocations == RevocationsIn(lib, entries.Keys)
      requires forall p :: p in Next(lib, h) ==> p in entries
      ensures verdict == Authorise(lib, entries.Keys, h)
    {
      ValidIsGrounded(lib, entries.Keys);
      var entry := lib.entryOf(h);
      if IsWriter(lib, entry.key) {
        return Ok;
      }
      if lib.kind != Recordstore {
        return Fail(UnauthorisedWriter);
      }
      if !entry.operation.Put? || entry.operation.capabilityId.None? {
        return Fail(UnauthorisedWriter);
      }
      var c := entry.operation.capabilityId.value;
      if c !in entries || !IsCapability(lib, c) {
        return Fail(CapabilityDenied);
      }
      var inPast := InCausalPast(lib, entries, c, entry.next);
      if !inPast || !GranteeMatches(Record(lib, c).grantee, entry.key) {
        return Fail(CapabilityDenied);
      }
      var chain := CapabilityChain(Some(c));
      if |chain| > MAX_CHAIN_LENGTH {
        return Fail(CapabilityDenied);
      }
      var past := PastRevocationsOf(entry.next);
      var found := EffectiveRevocations(past);
      assert forall r :: r in past <==> r in PastRevocations(lib, entries.Keys, h);
      assert (set r | r in past) == PastRevocations(lib, entries.Keys, h);
      var revoked := AnyRevokes(found, chain);
      assert revoked == RevokedInPast(lib, entries.Keys, h, chain);
      if revoked {
        return Fail(CapabilityRevoked);
      }
      if entry.operation.value.Revocation? {
        var target := entry.operation.value.revokes;
        if target !in entries || !IsCapability(lib, target) {
          return Fail(CapabilityDenied);
        }
        var targetInPast := InCausalPast(lib, entries, target, entry.next);
        var issued := IssuedAbove(target, entry.key);
        return if targetInPast && issued then Ok else Fail(CapabilityDenied);
      }
      verdict := ChainAdmits(chain, entry.operation.value, entry.timestamp);
    }

    // ---- Append verification -----------------------------------------------

    method ExpectedClockTime(next: seq<Hash>) returns (expected: Option<nat>)
      requires Addressed()
      ensures expected.Some? <==> forall p :: p in next ==> p in entries
      ensures expected.Some? ==> expected.value == MaxTime(lib, next) + 1
    {
      var max := 0;
      for i := 0 to |next|
        invariant forall p :: p in next[..i] ==> p in entries
        invariant max == MaxTime(lib, next[..i])
      {
        var hash := next[i];
        assert next[..i + 1] == next[..i] + [hash] && next[..i + 1][..i] == next[..i];
        if hash !in entries {
          assert hash in next;
          return None;
        }
        if entries[hash].time > max {
          max := entries[hash].time;
        }
      }
      assert next[..|next|] == next;
      return Some(max + 1);
    }

    method VerifyEntry(h: Hash) returns (verdict: Verdict)
      requires Addressed() && Valid(lib, entries.Keys) && revocations == RevocationsIn(lib, entries.Keys)
      ensures verdict == Accept(lib, entries.Keys, h)
      ensures verdict.Ok? ==> SelfChecked(lib, h) && WellClocked(lib, entries.Keys, h)
      ensures verdict == Fail(InvalidSignature) <==>
              lib.shapeVerdict(h) == Fail(InvalidSignature) ||
              (lib.shapeVerdict(h).Ok? && lib.operationVerdict(h) == Fail(InvalidSignature)) ||
              (lib.shapeVerdict(h).Ok? && lib.operationVerdict(h).Ok? && !lib.signed(h))
    {
      AcceptExactly(lib, entries.Keys, h);
      var check := CheckEntry(lib, h);
      if check.Fail? {
        return check;
      }
      var expected := ExpectedClockTime(lib.entryOf(h).next);
      if expected.None? || lib.entryOf(h).time != expected.value {
        return Fail(InvalidClock);
      }
      verdict := AuthoriseEntry(h);
    }

    method RestoreEntry(h: Hash) returns (verdict: Verdict)
      requires Addressed()
      ensures verdict == RestoreVerdict(lib, entries.Keys, h)
      ensures verdict ==
              if lib.operationVerdict(h).Fail? then lib.operationVerdict(h)
              else if WellClocked(lib, entries.Keys, h) then Ok else Fail(InvalidClock)
    {
      ClockExactly(lib, entries.Keys, h);
      if lib.operationVerdict(h).Fail? {
        return lib.operationVerdict(h);
      }
      var expected := ExpectedClockTime(lib.entryOf(h).next);
      if expected.None? || lib.entryOf(h).time != expected.value {
        return Fail(InvalidClock);
      }
      return Ok;
    }

    // ---- Insertion ---------------------------------------------------------

    method LinkEntry(h: Hash, next: seq<Hash>, ghost E: set<Hash>)
      requires next == Next(lib, h) && LinksOf(E) && h !in E
      modifies this`heads, this`referenced
      ensures LinksOf(E + {h})
    {
      for i := 0 to |next|
        invariant forall p :: p in referenced <==> p in old(referenced) || p in next[..i]
        invariant forall p :: p in heads <==> p in old(heads) && p !in next[..i]
      {
        assert next[..i + 1] == next[..i] + [next[i]];
        referenced := referenced + {next[i]};
        heads := heads - {next[i]};
      }
      assert next[..|next|] == next;
      ReferencedAfterInsert(lib, E, h, old(referenced), referenced);
      HeadsAfterInsert(lib, E, h);
      if h !in referenced {
        heads := heads + {h};
      }
      assert forall x :: x in heads <==> x in Heads(lib, E + {h});
    }

    method IndexKeys(h: Hash, keys: seq<StateKey>, ghost E: set<Hash>)
      requires keys == StateKeys(lib, h) && KeysOf(E) && h !in E
      modifies this`keyEntries
      ensures KeysOf(E + {h})
    {
      for i := 0 to |keys|
        invariant forall k, x :: (k in keyEntries && x in keyEntries[k]) <==>
                                 (x in E && k in StateKeys(lib, x)) || (k in keys[..i] && x == h)
      {
        assert keys[..i + 1] == keys[..i] + [keys[i]];
        var hashes := if keys[i] in keyEntries then keyEntries[keys[i]] else {};
        keyEntries := keyEntries[keys[i] := hashes + {h}];
      }
      assert keys[..|keys|] == keys;
    }

    /** Idempotent; heads stay those of all entries whatever order they arrive in. */
    method InsertEntry(h: Hash) returns (inserted: bool)
      requires Indexed()
      modifies this`entries, this`heads, this`referenced, this`keyEntries
      modifies this`capabilities, this`revocations, this`delegated
      ensures Indexed() && entries.Keys == old(entries.Keys) + {h}
      ensures inserted == (h !in old(entries))
    {
      if h in entries {
        return false;
      }
      ghost var before := entries.Keys;
      var entry := lib.entryOf(h);
      entries := entries[h := entry];
      assert entries.Keys == before + {h};
      LinkEntry(h, entry.next, before);
      IndexKeys(h, StateKeysOf(entry.operation), before);
      IndexAccess(h, entry);
      return true;
    }

    method IndexAccess(h: Hash, entry: Entry)
      requires entry == EntryOf(lib, h)
      modifies this`capabilities, this`revocations, this`delegated
      ensures capabilities == old(capabilities) + if IsCapability(lib, h) then {h} else {}
      ensures revocations == old(revocations) + if IsRevocation(lib, h) then {h} else {}
      ensures delegated == old(delegated) + if ByWriter(lib, h) then {} else {h}
    {
      if IsCapability(lib, h) {
        capabilities := capabilities + {h};
      } else if IsRevocation(lib, h) {
        revocations := revocations + {h};
      }
      if !IsWriter(lib, entry.key) {
        delegated := delegated + {h};
      }
    }

    // ---- Current state -----------------------------------------------------

    method ResolveCurrentState(hashes: set<Hash>) returns (first: Option<Hash>)
      requires Addressed() && hashes <= entries.Keys
      ensures first.None? <==> hashes == {}
      ensures first.Some? ==> IsFirst(lib, hashes, first.value)
      ensures first.Some? ==> first.value in hashes && forall x :: x in hashes ==> NoLater(lib, x, first.value)
    {
      var all := Listed(hashes);
      first := None;
      for i := 0 to |all|
        invariant first.None? <==> i == 0
        invariant first.Some? ==> first.value in all[..i]
        invariant first.Some? ==> forall x :: x in all[..i] && x != first.value ==> Supersedes(lib, first.value, x)
      {
        assert all[..i + 1] == all[..i] + [all[i]];
        if first.None? || Supersedes(lib, all[i], first.value) {
          first := Some(all[i]);
        }
      }
      assert all[..|all|] == all;
      if |all| > 0 {
        assert all[0] in hashes;
      }
    }

    /** Resolves the given keys afresh, from all their entries that still count. */
    method RefreshCurrentState(keys: set<StateKey>)
      requires Addressed() && KeysOf(entries.Keys)
      modifies this`current
      ensures forall k :: k in keys ==> ResolvesKey(lib, entries.Keys, inert, current, k)
      ensures forall k :: k !in keys ==> (k in current <==> k in old(current)) && (k in current ==> current[k] == old(current)[k])
    {
      var rest := keys;
      while rest != {}
        invariant rest <= keys
        invariant forall k :: k in keys && k !in rest ==> ResolvesKey(lib, entries.Keys, inert, current, k)
        invariant forall k :: k !in keys ==> (k in current <==> k in old(current)) && (k in current ==> current[k] == old(current)[k])
        decreases rest
      {
        var key :| key in rest;
        rest := rest - {key};
        var hashes := if key in keyEntries then keyEntries[key] - inert else {};
        assert forall h :: h in hashes <==> h in Candidates(lib, entries.Keys, inert, key);
        assert hashes == Candidates(lib, entries.Keys, inert, key);
        var first := ResolveCurrentState(hashes);
        ghost var earlier := current;
        current := if first.None? then current - {key} else current[key := first.value];
        assert ResolvesKey(lib, entries.Keys, inert, current, key);
        assert forall k :: k != key && ResolvesKey(lib, entries.Keys, inert, earlier, k) ==> ResolvesKey(lib, entries.Keys, inert, current, k);
      }
    }

    // ---- Access state ------------------------------------------------------

    method ListedRevocations() returns (all: seq<Hash>)
      ensures forall r :: r in all <==> r in revocations
    {
      all := Listed(revocations);
    }

    method DelegatedAmong(added: seq<Hash>) returns (judged: seq<Hash>)
      ensures forall h :: h in judged <==> h in added && h in delegated
    {
      judged := [];
      for i := 0 to |added|
        invariant forall h :: h in judged <==> h in added[..i] && h in delegated
      {
        assert added[..i + 1] == added[..i] + [added[i]];
        if added[i] in delegated {
          judged := judged + [added[i]];
        }
      }
      assert added[..|added|] == added;
    }

    method AnyRevocation(added: seq<Hash>) returns (b: bool)
      ensures b <==> exists h :: h in added && h in revocations
    {
      for i := 0 to |added|
        invariant forall j :: 0 <= j < i ==> added[j] !in revocations
      {
        var h := added[i];
        if h in revocations {
          assert h in added;
          return true;
        }
      }
      return false;
    }

    /** Whether one entry is inert; only the effective set decides about a revocation. */
    method JudgeOne(h: Hash, list: seq<Hash>) returns (isInert: bool)
      requires Addressed() && Grounded(lib, entries.Keys) && h in entries
      requires revocations == RevocationsIn(lib, entries.Keys) && effective <= revocations
      requires forall r :: r in list <==> r in effective
      ensures isInert == IsInert(lib, entries.Keys, h, effective)
    {
      if h in revocations {
        return h !in effective;
      }
      assert forall r :: r in (set x | x in list) <==> r in effective;
      assert (set r | r in list) == effective;
      isInert := IsInertUnder(h, list);
    }

    /** Judges each listed entry against the effective set and records the outcome. */
    method Judge(judged: seq<Hash>) returns (changed: seq<Hash>, keys: set<StateKey>)
      requires Addressed() && Grounded(lib, entries.Keys)
      requires revocations == RevocationsIn(lib, entries.Keys) && effective <= revocations
      requires forall h :: h in judged ==> h in entries
      modifies this`inert
      ensures forall h :: h in inert <==>
                if h in judged then IsInert(lib, entries.Keys, h, effective) else h in old(inert)
      ensures forall h :: h in changed <==> h in inert && h !in old(inert)
      ensures forall k :: k in keys <==> Rejudged(lib, old(inert), inert, k)
    {
      var list := Listed(effective);
      changed, keys := [], {};
      for i := 0 to |judged|
        invariant forall h :: h in inert <==>
                    if h in judged[..i] then IsInert(lib, entries.Keys, h, effective) else h in old(inert)
        invariant forall h :: h in changed <==> h in inert && h !in old(inert)
        invariant forall k :: k in keys <==> Rejudged(lib, old(inert), inert, k)
      {
        var h := judged[i];
        assert h in judged && judged[..i + 1] == judged[..i] + [h];
        var isInert := JudgeOne(h, list);
        if isInert != (h in inert) {
          assert h !in judged[..i];
          RejudgedGrows(lib, old(inert), inert, if isInert then inert + {h} else inert - {h}, h);
          if isInert {
            inert := inert + {h};
            changed := changed + [h];
          } else {
            inert := inert - {h};
          }
          keys := keys + (set k | k in StateKeysOf(entries[h].operation));
        }
      }
      assert judged[..|judged|] == judged;
    }

    /** Recomputes the effective set over every revocation held. */
    method RefreshEffective()
      requires Addressed() && Grounded(lib, entries.Keys) && revocations == RevocationsIn(lib, entries.Keys)
      modifies this`effective
      ensures effective == Effective(lib, entries.Keys)
    {
      var all := ListedRevocations();
      assert forall r :: r in (set x | x in all) <==> r in revocations;
      assert (set r | r in all) == revocations;
      var found := EffectiveRevocations(all);
      effective := set r | r in found;
    }

    /** Brings the effective and inert sets from those of the log `before` to those
        of the whole log, judging only what the added entries can have changed. */
    method RefreshAccessState(added: seq<Hash>, ghost before: set<Hash>) returns (changed: seq<Hash>, keys: set<StateKey>)
      requires Addressed() && Valid(lib, entries.Keys) && Valid(lib, before)
      requires revocations == RevocationsIn(lib, entries.Keys) && delegated == set h | h in entries && !ByWriter(lib, h)
      requires before <= entries.Keys && (forall h :: h in added <==> h in entries && h !in before)
      requires AccessOf(before)
      modifies this`effective, this`inert
      ensures AccessOf(entries.Keys)
      ensures forall h :: h in changed <==> h in inert && h !in old(inert)
      ensures forall k :: k in keys <==> Rejudged(lib, old(inert), inert, k)
    {
      ValidIsGrounded(lib, entries.Keys);
      var revocationAdded := AnyRevocation(added);
      var judged;
      if revocationAdded {
        RefreshEffective();
        judged := Listed(delegated);
      } else {
        assert RevocationsIn(lib, before) == RevocationsIn(lib, entries.Keys);
        AccessCarriesOver(lib, before, entries.Keys);
        if effective == {} && inert == {} {
          NothingToJudge(lib, before, entries.Keys);
          return [], {};
        }
        judged := DelegatedAmong(added);
      }
      assert effective == Effective(lib, entries.Keys) && effective <= revocations;
      assert forall h :: h in judged ==> h in entries;
      changed, keys := Judge(judged);
      JudgedIsInert(lib, before, entries.Keys, judged, old(inert), inert);
    }

    /** Steps 3 to 5 of a merge or an append: access state, then every touched key. */
    method Settle(added: seq<Hash>, ghost before: set<Hash>) returns (changed: seq<Hash>, keys: set<StateKey>)
      requires Indexed() && Valid(lib, entries.Keys) && Valid(lib, before)
      requires before <= entries.Keys && (forall h :: h in added <==> h in entries && h !in before)
      requires AccessOf(before) && Resolves(lib, before, inert, current)
      modifies this`effective, this`inert, this`current
      ensures Consistent()
      ensures forall h :: h in changed <==> h in inert && h !in old(inert)
      ensures forall k :: k in keys <==> Rejudged(lib, old(inert), inert, k)
      ensures forall k :: Moved(old(current), current, k) ==> Touches(lib, added, keys, k)
    {
      changed, keys := RefreshAccessState(added, before);
      var touched := keys;
      for i := 0 to |added|
        invariant keys <= touched
        invariant forall h, k :: h in added[..i] && k in StateKeys(lib, h) ==> k in touched
        invariant forall k :: k in touched ==> Touches(lib, added, keys, k)
      {
        var h := added[i];
        assert h in added && added[..i + 1] == added[..i] + [h];
        touched := touched + (set k | k in StateKeysOf(entries[h].operation));
      }
      assert added[..|added|] == added;
      ghost var stale := current;
      RefreshCurrentState(touched);
      forall k ensures ResolvesKey(lib, entries.Keys, inert, current, k) {
        if k !in touched {
          assert ResolvesKey(lib, before, Inert(lib, before), stale, k);
          KeyCarriesOver(lib, before, entries.Keys, stale, k);
        }
      }
    }
  }

  lemma InertUnderListed(lib: Library, E: set<Hash>, h: Hash, list: seq<Hash>)
    requires Clocked(lib, E) && forall r :: r in list ==> r in E && IsRevocation(lib, r)
    ensures InertUnder(lib, E, h, set r | r in list) <==>
            EntryOf(lib, h).key !in lib.writeList && exists r :: r in list && RevokesUnseen(lib, E, r, h)
  {
    var S := set r | r in list;
    assert forall r :: r in S <==> r in list;
    assert forall r :: r in S ==> r in E;
    InertExactly(lib, E, h, S);
  }

  lemma RejudgedGrows(lib: Library, was: set<Hash>, before: set<Hash>, after: set<Hash>, h: Hash)
    requires (h in was <==> h in before) && (h in before) != (h in after)
    requires forall x :: x != h ==> (x in before <==> x in after)
    ensures forall k :: Rejudged(lib, was, after, k) <==> Rejudged(lib, was, before, k) || k in StateKeys(lib, h)
  {
    forall k ensures Rejudged(lib, was, after, k) <==> Rejudged(lib, was, before, k) || k in StateKeys(lib, h) {
      if Rejudged(lib, was, before, k) {
        var x :| (x in was) != (x in before) && k in StateKeys(lib, x);
        assert (x in was) != (x in after);
      }
      if k in StateKeys(lib, h) {
        assert (h in was) != (h in after);
      }
    }
  }

  lemma ReferencedAfterInsert(lib: Library, E: set<Hash>, h: Hash, before: set<Hash>, after: set<Hash>)
    requires forall p :: p in before <==> Cites(lib, E, p)
    requires forall p :: p in after <==> p in before || p in Next(lib, h)
    ensures forall p :: p in after <==> Cites(lib, E + {h}, p)
  {
    forall p ensures p in after <==> Cites(lib, E + {h}, p) {
      if p in Next(lib, h) {
        assert h in E + {h};
      }
      if Cites(lib, E, p) {
        var e :| e in E && p in Next(lib, e);
        assert e in E + {h};
      }
    }
  }

  lemma ChainStep(lib: Library, E: set<Hash>, c: Hash)
    requires Grounded(lib, E) && c in E && IsCapability(lib, c) && !ByWriter(lib, c)
    ensures Cited(lib, c).Some? && Time(lib, Cited(lib, c).value) < Time(lib, c)
    ensures Chain(lib, E, c) == [c] + ChainOf(lib, E, Cited(lib, c))
  {
    PastIsEarlier(lib, Cited(lib, c).value, c);
  }

  /** When the delegated revocations are judged in order, those found effective
      before one of them silence it exactly when the definition says so. */
  lemma JudgedAfterEarlier(lib: Library, E: set<Hash>, R: set<Hash>, sorted: seq<Hash>, i: nat, found: seq<Hash>)
    requires AllRevocations(lib, R) && i < |sorted| && Ordered(lib, ToJudge, sorted)
    requires forall r :: r in sorted <==> r in R && !ByWriter(lib, r)
    requires forall r :: r in found <==> r in R && IsEffective(lib, E, R, r) && (ByWriter(lib, r) || r in sorted[..i])
    ensures IsEffective(lib, E, R, sorted[i]) <==>
            !SelfReferential(lib, E, sorted[i]) && !InertUnder(lib, E, sorted[i], set x | x in found)
  {
    var r := sorted[i];
    assert r in sorted;
    forall e | e in R && e != r
      ensures e in found <==> ByWriter(lib, e) || (Precedes(lib, e, r) && IsEffective(lib, E, R, e))
    {
      FoundSoFar(lib, E, R, sorted, i, found, e);
    }
    assert !Precedes(lib, r, r);
  }

  /** What was found before `sorted[i]`: the write-list revocations, and the effective
      ones that precede it. */
  lemma FoundSoFar(lib: Library, E: set<Hash>, R: set<Hash>, sorted: seq<Hash>, i: nat, found: seq<Hash>, e: Hash)
    requires AllRevocations(lib, R) && i < |sorted| && Ordered(lib, ToJudge, sorted) && e in R && e != sorted[i]
    requires forall r :: r in sorted <==> r in R && !ByWriter(lib, r)
    requires forall r :: r in found <==> r in R && IsEffective(lib, E, R, r) && (ByWriter(lib, r) || r in sorted[..i])
    ensures e in found <==> ByWriter(lib, e) || (Precedes(lib, e, sorted[i]) && IsEffective(lib, E, R, e))
  {
    if !ByWriter(lib, e) {
      PlacedBefore(lib, sorted, i, e);
    }
  }

  lemma PlacedBefore(lib: Library, sorted: seq<Hash>, i: nat, e: Hash)
    requires i < |sorted| && Ordered(lib, ToJudge, sorted) && e in sorted && e != sorted[i]
    ensures e in sorted[..i] <==> Precedes(lib, e, sorted[i])
  {
    var j :| 0 <= j < |sorted| && sorted[j] == e;
    if j < i {
      assert sorted[..i][j] == e;
      assert AtMost(lib, ToJudge, e, sorted[i]);
    } else {
      assert AtMost(lib, ToJudge, sorted[i], e);
      assert forall k :: 0 <= k < i && sorted[k] == e ==> AtMost(lib, ToJudge, e, sorted[i]);
    }
  }
}
