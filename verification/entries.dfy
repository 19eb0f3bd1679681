module Wrappers {
  datatype Option<+T> = None | Some(value: T)
}

/** The data model of one library's log: signed entries, the operations they
    carry, and the library they belong to. */
module Entries {
  import opened Wrappers

  /** An entry hash. Every entry multihash has the same length, so it is
      identified here with the number its bytes spell; `ByteOrder` shows that
      comparing the bytes and comparing the numbers is the same thing. */
  type Hash = int

  /** A compressed public key, compared for equality only. */
  type PublicKey = int

  datatype ErrorCode =
    | SizeExceeded
    | InvalidShape
    | InvalidOperation
    | InvalidSignature
    | UnauthorisedWriter
    | InvalidClock
    | CapabilityDenied
    | CapabilityRevoked
    | CapabilityExpired
    | DuplicateEntry

  /** The outcome of a check: accepted, or refused with a protocol error code. */
  datatype Verdict = Ok | Fail(code: ErrorCode)

  datatype Action = AppendTrack | WriteLabel | UpdateAbout | GrantCapability

  datatype Grantee =
    | OneKey(key: PublicKey)
    | KeySet(keys: set<PublicKey>)
    | UnknownGrantee

  datatype Condition = ExpiresAt(at: int) | UnknownCondition

  /** A FilterSpec, interpreted only through `Library.filterMatches`. */
  type Filter = int

  datatype CapabilityRecord = CapabilityRecord(
    grantee: Grantee,
    actions: set<Action>,
    filter: Filter,
    conditions: seq<Condition>,
    extraFields: bool)

  datatype LabelPair = LabelPair(trackId: int, name: int)

  /** The value of a PUT. `Opaque` stands for every value that merges with no
      effect of its own. */
  datatype Value =
    | Track(trackId: int, content: int)
    | Labels(set_: seq<LabelPair>, unset: seq<LabelPair>)
    | About(name: int)
    | Identity(recordType: int, recordKey: int)
    | Capability(record: CapabilityRecord)
    | Revocation(revokes: Hash)
    | Opaque

  datatype Operation =
    | Put(value: Value, capabilityId: Option<Hash>)
    | Del(trackId: int, capabilityId: Option<Hash>)
    | IdentityDel(recordType: int, recordKey: int)
    | OpaqueDel
    | Listen

  /** A slot that current-state resolution keys entries under. */
  datatype StateKey =
    | TrackKey(trackId: int)
    | AboutKey
    | LabelKey(pair: LabelPair)
    | IdentityKey(recordType: int, recordKey: int)

  /** A signed entry: its signer, causal parents, references, Lamport clock, the
      timestamp of its value (0 when it carries none) and its operation. */
  datatype Entry = Entry(
    key: PublicKey,
    next: seq<Hash>,
    refs: seq<Hash>,
    time: nat,
    timestamp: int,
    operation: Operation)

  datatype LibraryType = Recordstore | LabelsLibrary | ListensLibrary | IdentityLibrary

  /** What a filter is evaluated against: a whole value, or one label pair. */
  datatype Subject = Whole(value: Value) | Pair(setting: bool, pair: LabelPair)

  /** A library: its resolved access-control chain, content addressing as one
      function from hash to entry, and the checks this model leaves
      uninterpreted (size and shape, operation shape, signature, filters). */
  datatype Library = Library(
    kind: LibraryType,
    writeList: set<PublicKey>,
    entryOf: Hash -> Entry,
    shapeVerdict: Hash -> Verdict,
    operationVerdict: Hash -> Verdict,
    signed: Hash -> bool,
    filterMatches: (Filter, Subject) -> bool)

  function EntryOf(lib: Library, h: Hash): Entry { lib.entryOf(h) }

  function Next(lib: Library, h: Hash): seq<Hash> { EntryOf(lib, h).next }

  /** Everything an entry names: its parents, then its references. */
  function Links(lib: Library, h: Hash): seq<Hash> { EntryOf(lib, h).next + EntryOf(lib, h).refs }

  function Time(lib: Library, h: Hash): nat { EntryOf(lib, h).time }

  function Timestamp(lib: Library, h: Hash): int { EntryOf(lib, h).timestamp }

  predicate IsWriter(lib: Library, key: PublicKey) { key in lib.writeList }

  /** Signed by a write-list key. */
  predicate ByWriter(lib: Library, h: Hash) { IsWriter(lib, EntryOf(lib, h).key) }

  predicate IsCapability(lib: Library, h: Hash) {
    var operation := EntryOf(lib, h).operation;
    operation.Put? && operation.value.Capability?
  }

  predicate IsRevocation(lib: Library, h: Hash) {
    var operation := EntryOf(lib, h).operation;
    operation.Put? && operation.value.Revocation?
  }

  function Revokes(lib: Library, h: Hash): Hash
    requires IsRevocation(lib, h)
  {
    EntryOf(lib, h).operation.value.revokes
  }

  function Record(lib: Library, h: Hash): CapabilityRecord
    requires IsCapability(lib, h)
  {
    EntryOf(lib, h).operation.value.record
  }

  function CitedBy(operation: Operation): Option<Hash> {
    match operation
    case Put(_, cited) => cited
    case Del(_, cited) => cited
    case IdentityDel(_, _) => None
    case OpaqueDel => None
    case Listen => None
  }

  /** The capability an entry is written under, if it names one. */
  function Cited(lib: Library, h: Hash): Option<Hash> {
    CitedBy(EntryOf(lib, h).operation)
  }

  function LabelKeys(pairs: seq<LabelPair>): seq<StateKey> {
    seq(|pairs|, i requires 0 <= i < |pairs| => LabelKey(pairs[i]))
  }

  /** The slots in which an operation competes to be current. A label record takes
      part once for every pair it sets or unsets; most others in one slot or none. */
  function StateKeysOf(operation: Operation): seq<StateKey> {
    match operation
    case Put(Track(id, _), _) => [TrackKey(id)]
    case Put(Labels(s, u), _) => LabelKeys(s) + LabelKeys(u)
    case Put(About(_), _) => [AboutKey]
    case Put(Identity(t, k), _) => [IdentityKey(t, k)]
    case Put(_, _) => []
    case Del(id, _) => [TrackKey(id)]
    case IdentityDel(t, k) => [IdentityKey(t, k)]
    case OpaqueDel => []
    case Listen => []
  }

  /** An operation is about a key: a track's PUT or DEL, an About record, a label pair set
      or unset, an identity record's PUT or DEL. */
  predicate Concerns(operation: Operation, k: StateKey) {
    match k
    case TrackKey(id) =>
      (operation.Put? && operation.value.Track? && operation.value.trackId == id) || (operation.Del? && operation.trackId == id)
    case AboutKey => operation.Put? && operation.value.About?
    case LabelKey(pair) => operation.Put? && operation.value.Labels? && (pair in operation.value.set_ || pair in operation.value.unset)
    case IdentityKey(kind, key) =>
      (operation.Put? && operation.value == Identity(kind, key)) || operation == IdentityDel(kind, key)
  }

  lemma StateKeysExactly(operation: Operation, k: StateKey)
    ensures k in StateKeysOf(operation) <==> Concerns(operation, k)
  {
    if operation.Put? && operation.value.Labels? {
      var set_, unset := operation.value.set_, operation.value.unset;
      var keys := LabelKeys(set_) + LabelKeys(unset);
      if k.LabelKey? && k.pair in set_ {
        var i :| 0 <= i < |set_| && set_[i] == k.pair;
        assert keys[i] == k;
      } else if k.LabelKey? && k.pair in unset {
        var i :| 0 <= i < |unset| && unset[i] == k.pair;
        assert keys[|set_| + i] == k;
      }
    }
  }

  function StateKeys(lib: Library, h: Hash): seq<StateKey> {
    StateKeysOf(EntryOf(lib, h).operation)
  }
}
