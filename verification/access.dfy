/** Delegated capabilities and revocations, as functions of the entries a log
    holds: chains, the ordered effective-set procedure, inertness, and the
    authorisation of one entry over its causal past. */
module Access {
  import opened Wrappers
  import opened Entries
  import opened Causal

  const MAX_CHAIN_LENGTH := 8

  /** From a capability up through the one each link was issued under, as far as the
      first that the write list signed. The clock guard only makes the function
      total; in a verified log it always holds. */
  function Chain(lib: Library, E: set<Hash>, c: Hash): (chain: seq<Hash>)
    ensures forall x :: x in chain ==> x in E && IsCapability(lib, x)
    decreases Time(lib, c)
  {
    if c !in E || !IsCapability(lib, c) then []
    else if ByWriter(lib, c) then [c]
    else
      match Cited(lib, c)
      case None => [c]
      case Some(d) => if Time(lib, d) < Time(lib, c) then [c] + Chain(lib, E, d) else [c]
  }

  function ChainOf(lib: Library, E: set<Hash>, cited: Option<Hash>): (chain: seq<Hash>)
    ensures forall x :: x in chain ==> x in E && IsCapability(lib, x)
  {
    match cited
    case None => []
    case Some(c) => Chain(lib, E, c)
  }

  /** The capabilities an entry depends on. */
  function Dependencies(lib: Library, E: set<Hash>, h: Hash): seq<Hash> {
    if ByWriter(lib, h) then [] else ChainOf(lib, E, Cited(lib, h))
  }

  /** Revocation `r`, if effective, makes `h` inert: it names a capability `h`
      depends on, and `h` is not in its causal past. */
  ghost predicate Silences(lib: Library, E: set<Hash>, r: Hash, h: Hash) {
    IsRevocation(lib, r) && Revokes(lib, r) in Dependencies(lib, E, h) && !InPast(lib, h, r)
  }

  ghost predicate InertUnder(lib: Library, E: set<Hash>, h: Hash, effective: set<Hash>) {
    exists r :: r in effective && Silences(lib, E, r, h)
  }

  predicate SelfReferential(lib: Library, E: set<Hash>, r: Hash)
    requires IsRevocation(lib, r)
  {
    Revokes(lib, r) in ChainOf(lib, E, Cited(lib, r))
  }

  /** The order delegated revocations are judged in: clock, then timestamp, then hash. */
  predicate Precedes(lib: Library, a: Hash, b: Hash) {
    Time(lib, a) < Time(lib, b) ||
    (Time(lib, a) == Time(lib, b) &&
     (Timestamp(lib, a) < Timestamp(lib, b) ||
      (Timestamp(lib, a) == Timestamp(lib, b) && a < b)))
  }

  ghost predicate AllRevocations(lib: Library, R: set<Hash>) {
    forall r :: r in R ==> IsRevocation(lib, r)
  }

  ghost function Earlier(lib: Library, R: set<Hash>, r: Hash): set<Hash> {
    set x | x in R && Precedes(lib, x, r)
  }

  lemma EarlierShrinks(lib: Library, R: set<Hash>, e: Hash, r: Hash)
    requires e in R && Precedes(lib, e, r)
    ensures Earlier(lib, R, e) < Earlier(lib, R, r)
  {
    assert e in Earlier(lib, R, r) && e !in Earlier(lib, R, e);
  }

  /** The effective revocations among `R`, without reference to any sequence:
      every write-list one, and each other one that is not self-referential and
      that no effective one judged before it silences. */
  ghost predicate IsEffective(lib: Library, E: set<Hash>, R: set<Hash>, r: Hash)
    requires AllRevocations(lib, R)
    decreases Earlier(lib, R, r)
  {
    r in R &&
    (ByWriter(lib, r) ||
     (!SelfReferential(lib, E, r) &&
      !exists e :: e in R && Silences(lib, E, e, r) &&
                   (ByWriter(lib, e) || (Precedes(lib, e, r) && (EarlierShrinks(lib, R, e, r); IsEffective(lib, E, R, e))))))
  }

  ghost function EffectiveAmong(lib: Library, E: set<Hash>, R: set<Hash>): set<Hash>
    requires AllRevocations(lib, R)
  {
    set r | r in R && IsEffective(lib, E, R, r)
  }

  // ---- Authorisation of one entry ----------------------------------------

  predicate GranteeMatches(grantee: Grantee, key: PublicKey) {
    match grantee
    case OneKey(k) => k == key
    case KeySet(keys) => key in keys
    case UnknownGrantee => false
  }

  /** The action that authorises a PUT. */
  function CoveringAction(value: Value): Option<Action> {
    match value
    case Track(_, _) => Some(AppendTrack)
    case Labels(_, _) => Some(WriteLabel)
    case About(_) => Some(UpdateAbout)
    case Capability(_) => Some(GrantCapability)
    case Identity(_, _) => None
    case Revocation(_) => None
    case Opaque => None
  }

  /** What a filter is evaluated against. */
  function FilterSubjects(value: Value): seq<Subject> {
    match value
    case Track(_, _) => [Whole(value)]
    case About(_) => [Whole(value)]
    case Labels(s, u) =>
      seq(|s|, i requires 0 <= i < |s| => Pair(true, s[i])) + seq(|u|, i requires 0 <= i < |u| => Pair(false, u[i]))
    case Identity(_, _) => []
    case Capability(_) => []
    case Revocation(_) => []
    case Opaque => []
  }

  predicate FilterAdmits(lib: Library, filter: Filter, value: Value) {
    forall subject :: subject in FilterSubjects(value) ==> lib.filterMatches(filter, subject)
  }

  predicate ConditionsRecognised(conditions: seq<Condition>) {
    forall c :: c in conditions ==> c.ExpiresAt?
  }

  predicate ConditionsHold(conditions: seq<Condition>, timestamp: int) {
    forall c :: c in conditions ==> c.ExpiresAt? && timestamp <= c.at
  }

  /** One capability's verdict on a write. */
  function LinkVerdict(lib: Library, record: CapabilityRecord, value: Value, timestamp: int): Verdict {
    var action := CoveringAction(value);
    if record.extraFields then Fail(CapabilityDenied)
    else if action.None? || action.value !in record.actions then Fail(CapabilityDenied)
    else if !FilterAdmits(lib, record.filter, value) then Fail(CapabilityDenied)
    else if !ConditionsRecognised(record.conditions) then Fail(CapabilityDenied)
    else if !ConditionsHold(record.conditions, timestamp) then Fail(CapabilityExpired)
    else Ok
  }

  /** The first refusal along a chain, or Ok when every link admits the write. */
  function ChainVerdict(lib: Library, chain: seq<Hash>, value: Value, timestamp: int): Verdict
    requires forall c :: c in chain ==> IsCapability(lib, c)
  {
    if chain == [] then Ok
    else
      var verdict := LinkVerdict(lib, Record(lib, chain[0]), value, timestamp);
      if verdict.Ok? then ChainVerdict(lib, chain[1..], value, timestamp) else verdict
  }

  /** A revocation's scope: its signer issued the target or a capability above it. */
  ghost predicate InScope(lib: Library, E: set<Hash>, h: Hash, target: Hash) {
    target in E && IsCapability(lib, target) && ReachedFrom(lib, Next(lib, h), target) &&
    exists c :: c in Chain(lib, E, target) && EntryOf(lib, c).key == EntryOf(lib, h).key
  }

  ghost function PastRevocations(lib: Library, E: set<Hash>, h: Hash): set<Hash> {
    set r | r in E && IsRevocation(lib, r) && ReachedFrom(lib, Next(lib, h), r)
  }

  ghost predicate RevokedInPast(lib: Library, E: set<Hash>, h: Hash, chain: seq<Hash>) {
    exists r :: r in EffectiveAmong(lib, E, PastRevocations(lib, E, h)) && Revokes(lib, r) in chain
  }

  /** Whether `h`, whose parents are in `E`, may join it. */
  ghost function Authorise(lib: Library, E: set<Hash>, h: Hash): Verdict {
    var entry := EntryOf(lib, h);
    if ByWriter(lib, h) then Ok
    else if lib.kind != Recordstore then Fail(UnauthorisedWriter)
    else if !entry.operation.Put? || entry.operation.capabilityId.None? then Fail(UnauthorisedWriter)
    else
      var c := entry.operation.capabilityId.value;
      if c !in E || !IsCapability(lib, c) || !ReachedFrom(lib, entry.next, c) then Fail(CapabilityDenied)
      else if !GranteeMatches(Record(lib, c).grantee, entry.key) then Fail(CapabilityDenied)
      else if |Chain(lib, E, c)| > MAX_CHAIN_LENGTH then Fail(CapabilityDenied)
      else if RevokedInPast(lib, E, h, Chain(lib, E, c)) then Fail(CapabilityRevoked)
      else if entry.operation.value.Revocation? then
        if InScope(lib, E, h, entry.operation.value.revokes) then Ok else Fail(CapabilityDenied)
      else ChainVerdict(lib, Chain(lib, E, c), entry.operation.value, entry.timestamp)
  }

  // ---- The rules written out ---------------------------------------------

  /** One capability covers a write, time aside: it has no unknown fields, grants the
      action of this kind of value, its filter matches what the value touches, and it
      holds no unknown condition. */
  predicate LinkCovers(lib: Library, record: CapabilityRecord, value: Value) {
    !record.extraFields && (forall c :: c in record.conditions ==> c.ExpiresAt?) &&
    match value
    case Track(_, _) => AppendTrack in record.actions && lib.filterMatches(record.filter, Whole(value))
    case About(_) => UpdateAbout in record.actions && lib.filterMatches(record.filter, Whole(value))
    case Capability(_) => GrantCapability in record.actions
    case Labels(set_, unset) =>
      WriteLabel in record.actions &&
      (forall p :: p in set_ ==> lib.filterMatches(record.filter, Pair(true, p))) &&
      (forall p :: p in unset ==> lib.filterMatches(record.filter, Pair(false, p)))
    case _ => false
  }

  /** None of its expiries has passed. */
  predicate InTime(record: CapabilityRecord, timestamp: int) {
    forall c :: c in record.conditions && c.ExpiresAt? ==> timestamp <= c.at
  }

  lemma LabelSubjects(lib: Library, filter: Filter, set_: seq<LabelPair>, unset: seq<LabelPair>)
    ensures FilterAdmits(lib, filter, Labels(set_, unset)) <==>
            (forall p :: p in set_ ==> lib.filterMatches(filter, Pair(true, p))) &&
            (forall p :: p in unset ==> lib.filterMatches(filter, Pair(false, p)))
  {
    var subjects := FilterSubjects(Labels(set_, unset));
    forall p | p in set_ ensures Pair(true, p) in subjects {
      var i :| 0 <= i < |set_| && set_[i] == p;
      assert subjects[i] == Pair(true, p);
    }
    forall p | p in unset ensures Pair(false, p) in subjects {
      var i :| 0 <= i < |unset| && unset[i] == p;
      assert subjects[|set_| + i] == Pair(false, p);
    }
  }

  /** One capability's verdict: denied unless it covers the write, then expired unless in time. */
  lemma LinkVerdictExactly(lib: Library, record: CapabilityRecord, value: Value, timestamp: int)
    ensures LinkVerdict(lib, record, value, timestamp) ==
            if !LinkCovers(lib, record, value) then Fail(CapabilityDenied)
            else if InTime(record, timestamp) then Ok else Fail(CapabilityExpired)
  {
    match value
    case Labels(set_, unset) => LabelSubjects(lib, record.filter, set_, unset);
    case Track(_, _) => assert FilterSubjects(value) == [Whole(value)];
    case About(_) => assert FilterSubjects(value) == [Whole(value)];
    case Capability(_) => assert FilterSubjects(value) == [];
    case _ =>
  }

  /** Every link of a chain covers a write and is in time. */
  ghost predicate ChainCovers(lib: Library, chain: seq<Hash>, value: Value, timestamp: int)
    requires forall c :: c in chain ==> IsCapability(lib, c)
  {
    forall c :: c in chain ==> LinkCovers(lib, Record(lib, c), value) && InTime(Record(lib, c), timestamp)
  }

  /** Link `i` is the first that does not admit the write; it covers it, and has expired. */
  ghost predicate ExpiresAtLink(lib: Library, chain: seq<Hash>, i: nat, value: Value, timestamp: int)
    requires forall c :: c in chain ==> IsCapability(lib, c)
  {
    i < |chain| && ChainCovers(lib, chain[..i], value, timestamp) &&
    LinkCovers(lib, Record(lib, chain[i]), value) && !InTime(Record(lib, chain[i]), timestamp)
  }

  ghost predicate ChainExpires(lib: Library, chain: seq<Hash>, value: Value, timestamp: int)
    requires forall c :: c in chain ==> IsCapability(lib, c)
  {
    exists i: nat :: ExpiresAtLink(lib, chain, i, value, timestamp)
  }

  lemma {:induction false} ChainVerdictExactly(lib: Library, chain: seq<Hash>, value: Value, timestamp: int)
    requires forall c :: c in chain ==> IsCapability(lib, c)
    ensures ChainVerdict(lib, chain, value, timestamp) ==
            if ChainCovers(lib, chain, value, timestamp) then Ok
            else if ChainExpires(lib, chain, value, timestamp) then Fail(CapabilityExpired) else Fail(CapabilityDenied)
    decreases |chain|
  {
    if chain != [] {
      var first, rest := chain[0], chain[1..];
      assert chain == [first] + rest;
      LinkVerdictExactly(lib, Record(lib, first), value, timestamp);
      ChainVerdictExactly(lib, rest, value, timestamp);
      if LinkCovers(lib, Record(lib, first), value) && InTime(Record(lib, first), timestamp) {
        ExpiryShifts(lib, first, rest, value, timestamp);
      } else {
        ExpiryIsFirst(lib, first, rest, value, timestamp);
      }
    }
  }

  lemma ExpiryShifts(lib: Library, first: Hash, rest: seq<Hash>, value: Value, timestamp: int)
    requires IsCapability(lib, first) && forall c :: c in rest ==> IsCapability(lib, c)
    requires LinkCovers(lib, Record(lib, first), value) && InTime(Record(lib, first), timestamp)
    ensures ChainExpires(lib, [first] + rest, value, timestamp) <==> ChainExpires(lib, rest, value, timestamp)
  {
    var chain := [first] + rest;
    if ChainExpires(lib, chain, value, timestamp) {
      var i: nat :| ExpiresAtLink(lib, chain, i, value, timestamp);
      assert i > 0;
      LinkShifts(lib, first, rest, i - 1, value, timestamp);
    }
    if ChainExpires(lib, rest, value, timestamp) {
      var i: nat :| ExpiresAtLink(lib, rest, i, value, timestamp);
      LinkShifts(lib, first, rest, i, value, timestamp);
    }
  }

  lemma LinkShifts(lib: Library, first: Hash, rest: seq<Hash>, i: nat, value: Value, timestamp: int)
    requires IsCapability(lib, first) && forall c :: c in rest ==> IsCapability(lib, c)
    requires LinkCovers(lib, Record(lib, first), value) && InTime(Record(lib, first), timestamp)
    ensures ExpiresAtLink(lib, [first] + rest, i + 1, value, timestamp) <==> ExpiresAtLink(lib, rest, i, value, timestamp)
  {
    if i < |rest| {
      assert ([first] + rest)[..i + 1] == [first] + rest[..i];
    }
  }

  lemma ExpiryIsFirst(lib: Library, first: Hash, rest: seq<Hash>, value: Value, timestamp: int)
    requires IsCapability(lib, first) && forall c :: c in rest ==> IsCapability(lib, c)
    requires !(LinkCovers(lib, Record(lib, first), value) && InTime(Record(lib, first), timestamp))
    ensures !ChainCovers(lib, [first] + rest, value, timestamp)
    ensures ChainExpires(lib, [first] + rest, value, timestamp) <==> LinkCovers(lib, Record(lib, first), value)
  {
    var chain := [first] + rest;
    assert first in chain && chain[..0] == [];
    forall i: nat | 0 < i < |chain| ensures !ChainCovers(lib, chain[..i], value, timestamp) {
      assert chain[..i][0] == first;
      assert first in chain[..i];
    }
    if LinkCovers(lib, Record(lib, first), value) {
      assert ExpiresAtLink(lib, chain, 0, value, timestamp);
    }
  }

  /** `h`, signed outside the write list, stands on the capability it cites: a record
      store's PUT, citing a capability held in its causal past that is granted to its
      signer and at most eight links from the write list. */
  ghost predicate StandsOn(lib: Library, E: set<Hash>, h: Hash, c: Hash) {
    var entry := EntryOf(lib, h);
    lib.kind == Recordstore && entry.operation.Put? && entry.operation.capabilityId == Some(c) &&
    c in E && IsCapability(lib, c) && ReachedFrom(lib, entry.next, c) && |Chain(lib, E, c)| <= 8 &&
    var grantee := Record(lib, c).grantee;
    grantee == OneKey(entry.key) || (grantee.KeySet? && entry.key in grantee.keys)
  }

  /** A revocation in the entry's past, effective among those in it, names a link of the chain. */
  ghost predicate PastRevokes(lib: Library, E: set<Hash>, h: Hash, chain: seq<Hash>) {
    exists r :: r in EffectiveAmong(lib, E, PastRevocations(lib, E, h)) && EntryOf(lib, r).operation.value.revokes in chain
  }

  /** The signer issued the capability it revokes, or one above it, and has seen it. */
  ghost predicate MayRevoke(lib: Library, E: set<Hash>, h: Hash, target: Hash) {
    target in E && IsCapability(lib, target) && ReachedFrom(lib, EntryOf(lib, h).next, target) &&
    exists c :: c in Chain(lib, E, target) && EntryOf(lib, c).key == EntryOf(lib, h).key
  }

  /** The verdict on a delegated entry, written out: which capability it needs, and with
      which code it is refused. */
  lemma AuthoriseExactly(lib: Library, E: set<Hash>, h: Hash)
    requires EntryOf(lib, h).key !in lib.writeList
    ensures var verdict, operation := Authorise(lib, E, h), EntryOf(lib, h).operation;
            if lib.kind != Recordstore || !operation.Put? || operation.capabilityId.None? then verdict == Fail(UnauthorisedWriter)
            else
              var c := operation.capabilityId.value;
              var chain := Chain(lib, E, c);
              if !StandsOn(lib, E, h, c) then verdict == Fail(CapabilityDenied)
              else if PastRevokes(lib, E, h, chain) then verdict == Fail(CapabilityRevoked)
              else if operation.value.Revocation? then
                verdict == if MayRevoke(lib, E, h, operation.value.revokes) then Ok else Fail(CapabilityDenied)
              else
                verdict ==
                if ChainCovers(lib, chain, operation.value, EntryOf(lib, h).timestamp) then Ok
                else if ChainExpires(lib, chain, operation.value, EntryOf(lib, h).timestamp) then Fail(CapabilityExpired)
                else Fail(CapabilityDenied)
  {
    var operation := EntryOf(lib, h).operation;
    if operation.Put? && operation.capabilityId.Some? {
      var chain := Chain(lib, E, operation.capabilityId.value);
      assert PastRevokes(lib, E, h, chain) == RevokedInPast(lib, E, h, chain);
      if !operation.value.Revocation? {
        ChainVerdictExactly(lib, chain, operation.value, EntryOf(lib, h).timestamp);
      }
    }
  }

  /** `r` revokes a capability `h` stands on and has not seen `h`. */
  ghost predicate RevokesUnseen(lib: Library, E: set<Hash>, r: Hash, h: Hash)
    requires IsRevocation(lib, r)
  {
    EntryOf(lib, r).operation.value.revokes in ChainOf(lib, E, Cited(lib, h)) && !ReachedFrom(lib, EntryOf(lib, r).next, h)
  }

  /** Revocations make an entry inert when it is delegated and one of them revokes what it
      stands on without having seen it. */
  lemma InertExactly(lib: Library, E: set<Hash>, h: Hash, S: set<Hash>)
    requires Clocked(lib, E) && S <= E && AllRevocations(lib, S)
    ensures InertUnder(lib, E, h, S) <==>
            EntryOf(lib, h).key !in lib.writeList && exists r :: r in S && RevokesUnseen(lib, E, r, h)
  {
    forall r | r in S ensures Silences(lib, E, r, h) <==> EntryOf(lib, h).key !in lib.writeList && RevokesUnseen(lib, E, r, h) {
      PastIsReachedFromNext(lib, h, r);
    }
  }

  /** `S` is what judging the revocations of `R` comes to: those of the write list, and of
      the others those that do not revoke what they stand on and that none of `S` judged
      before, by clock, then timestamp, then hash, revokes unseen. */
  ghost predicate Judges(lib: Library, E: set<Hash>, R: set<Hash>, S: set<Hash>)
    requires AllRevocations(lib, R)
  {
    S <= R && forall r :: r in R ==> (r in S <==> StaysEffective(lib, E, S, r))
  }

  ghost predicate StaysEffective(lib: Library, E: set<Hash>, S: set<Hash>, r: Hash)
    requires IsRevocation(lib, r)
  {
    EntryOf(lib, r).key in lib.writeList ||
    (EntryOf(lib, r).operation.value.revokes !in ChainOf(lib, E, Cited(lib, r)) &&
     forall e ::
       (e in S && IsRevocation(lib, e) && EntryOf(lib, e).operation.value.revokes in ChainOf(lib, E, Cited(lib, r)) &&
        (EntryOf(lib, e).key in lib.writeList || Before(lib, e, r))) ==> InPast(lib, r, e))
  }

  predicate Before(lib: Library, a: Hash, b: Hash) {
    var (x, y) := (EntryOf(lib, a), EntryOf(lib, b));
    x.time < y.time || (x.time == y.time && (x.timestamp < y.timestamp || (x.timestamp == y.timestamp && a < b)))
  }

  lemma EffectiveJudges(lib: Library, E: set<Hash>, R: set<Hash>)
    requires AllRevocations(lib, R)
    ensures Judges(lib, E, R, EffectiveAmong(lib, E, R))
  {
    var S := EffectiveAmong(lib, E, R);
    forall r | r in R ensures r in S <==> StaysEffective(lib, E, S, r) {
      EffectiveStays(lib, E, R, r);
    }
  }

  lemma EffectiveStays(lib: Library, E: set<Hash>, R: set<Hash>, r: Hash)
    requires AllRevocations(lib, R) && r in R
    ensures IsEffective(lib, E, R, r) <==> StaysEffective(lib, E, EffectiveAmong(lib, E, R), r)
  {
    var S := EffectiveAmong(lib, E, R);
    if !ByWriter(lib, r) {
      forall e | e in R ensures ByWriter(lib, e) ==> e in S {
      }
      assert forall e :: Before(lib, e, r) == Precedes(lib, e, r);
    }
  }

  /** The judging has one outcome, whatever order it is carried out in. */
  lemma EffectiveIsUnique(lib: Library, E: set<Hash>, R: set<Hash>, S: set<Hash>)
    requires AllRevocations(lib, R) && Judges(lib, E, R, S)
    ensures S == EffectiveAmong(lib, E, R)
  {
    EffectiveJudges(lib, E, R);
    forall r | r in R ensures r in S <==> r in EffectiveAmong(lib, E, R) {
      SameJudgement(lib, E, R, S, EffectiveAmong(lib, E, R), r);
    }
    assert forall r :: r in S <==> r in EffectiveAmong(lib, E, R);
  }

  lemma {:induction false} SameJudgement(lib: Library, E: set<Hash>, R: set<Hash>, S: set<Hash>, T: set<Hash>, r: Hash)
    requires AllRevocations(lib, R) && Judges(lib, E, R, S) && Judges(lib, E, R, T) && r in R
    ensures r in S <==> r in T
    decreases Earlier(lib, R, r)
  {
    forall e | e in R && (EntryOf(lib, e).key in lib.writeList || Before(lib, e, r)) ensures e in S <==> e in T {
      if EntryOf(lib, e).key in lib.writeList {
        assert StaysEffective(lib, E, S, e) && StaysEffective(lib, E, T, e);
      } else {
        assert Precedes(lib, e, r);
        EarlierShrinks(lib, R, e, r);
        SameJudgement(lib, E, R, S, T, e);
      }
    }
    assert StaysEffective(lib, E, S, r) == StaysEffective(lib, E, T, r);
  }

  // ---- Causal-past determinism -------------------------------------------

  /** `E` is clock-closed and every member signed outside the write list cites a
      capability that is in `E` and in its causal past. */
  ghost predicate Grounded(lib: Library, E: set<Hash>) {
    Clocked(lib, E) &&
    forall h :: h in E && !ByWriter(lib, h) ==>
      Cited(lib, h).Some? && Cited(lib, h).value in E &&
      IsCapability(lib, Cited(lib, h).value) && InPast(lib, Cited(lib, h).value, h)
  }

  lemma {:induction false} ChainAgrees(lib: Library, P: set<Hash>, E: set<Hash>, c: Hash)
    requires Grounded(lib, P) && P <= E && c in P
    ensures Chain(lib, P, c) == Chain(lib, E, c)
    decreases Time(lib, c)
  {
    if IsCapability(lib, c) && !ByWriter(lib, c) {
      var d := Cited(lib, c).value;
      PastIsEarlier(lib, d, c);
      ChainAgrees(lib, P, E, d);
    }
  }

  lemma DependenciesAgree(lib: Library, P: set<Hash>, E: set<Hash>, h: Hash)
    requires Grounded(lib, P) && P <= E && h in P
    ensures Dependencies(lib, P, h) == Dependencies(lib, E, h)
    ensures !ByWriter(lib, h) ==> ChainOf(lib, P, Cited(lib, h)) == ChainOf(lib, E, Cited(lib, h))
  {
    if !ByWriter(lib, h) {
      ChainAgrees(lib, P, E, Cited(lib, h).value);
    }
  }

  lemma InertAgrees(lib: Library, P: set<Hash>, E: set<Hash>, h: Hash, effective: set<Hash>)
    requires Grounded(lib, P) && P <= E && h in P
    ensures InertUnder(lib, P, h, effective) == InertUnder(lib, E, h, effective)
  {
    DependenciesAgree(lib, P, E, h);
    assert forall r :: Silences(lib, P, r, h) == Silences(lib, E, r, h);
  }

  lemma {:induction false} EffectiveAgrees(lib: Library, P: set<Hash>, E: set<Hash>, R: set<Hash>, r: Hash)
    requires Grounded(lib, P) && P <= E && R <= P && AllRevocations(lib, R)
    ensures IsEffective(lib, P, R, r) == IsEffective(lib, E, R, r)
    decreases Earlier(lib, R, r)
  {
    if r in R && !ByWriter(lib, r) {
      DependenciesAgree(lib, P, E, r);
      forall e | e in R
        ensures Silences(lib, P, e, r) == Silences(lib, E, e, r)
        ensures Precedes(lib, e, r) ==> IsEffective(lib, P, R, e) == IsEffective(lib, E, R, e)
      {
        if Precedes(lib, e, r) {
          EarlierShrinks(lib, R, e, r);
          EffectiveAgrees(lib, P, E, R, e);
        }
      }
    }
  }

  lemma EffectiveAmongAgrees(lib: Library, P: set<Hash>, E: set<Hash>, R: set<Hash>)
    requires Grounded(lib, P) && P <= E && R <= P && AllRevocations(lib, R)
    ensures EffectiveAmong(lib, P, R) == EffectiveAmong(lib, E, R)
  {
    forall r | r in R ensures IsEffective(lib, P, R, r) == IsEffective(lib, E, R, r) {
      EffectiveAgrees(lib, P, E, R, r);
    }
  }

  /** A verdict does not change when the log holds more than the grounded part
      `P` that already contains the entry's parents. */
  lemma AuthoriseAgrees(lib: Library, P: set<Hash>, E: set<Hash>, h: Hash)
    requires Grounded(lib, P) && P <= E
    requires forall p :: p in Next(lib, h) ==> p in P
    ensures Authorise(lib, P, h) == Authorise(lib, E, h)
  {
    forall a | ReachedFrom(lib, Next(lib, h), a) ensures a in P {
      ReachedStaysInside(lib, P, Next(lib, h), a);
    }
    var R := PastRevocations(lib, P, h);
    assert R == PastRevocations(lib, E, h);
    EffectiveAmongAgrees(lib, P, E, R);
    forall c | c in P ensures Chain(lib, P, c) == Chain(lib, E, c) {
      ChainAgrees(lib, P, E, c);
    }
    var operation := EntryOf(lib, h).operation;
    if operation.Put? && operation.value.Revocation? {
      ScopeAgrees(lib, P, E, h, operation.value.revokes);
    }
    if operation.Put? && operation.capabilityId.Some? && operation.capabilityId.value in P {
      var chain := Chain(lib, P, operation.capabilityId.value);
      assert RevokedInPast(lib, P, h, chain) == RevokedInPast(lib, E, h, chain);
    }
  }

  lemma ScopeAgrees(lib: Library, P: set<Hash>, E: set<Hash>, h: Hash, target: Hash)
    requires Grounded(lib, P) && P <= E
    requires forall p :: p in Next(lib, h) ==> p in P
    ensures InScope(lib, P, h, target) == InScope(lib, E, h, target)
  {
    if ReachedFrom(lib, Next(lib, h), target) {
      ReachedStaysInside(lib, P, Next(lib, h), target);
      ChainAgrees(lib, P, E, target);
    }
  }
}
