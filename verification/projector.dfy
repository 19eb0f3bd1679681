/** The query index follows the log: rows are written from the current entry of
    each key, while content loads and further merges interleave. */
module Projection {
  import opened Wrappers
  import opened Entries
  import opened Sorting
  import opened Convergence
  import opened Oplogs
  import opened Merging
  import opened Appending

  predicate IsTrackPut(lib: Library, h: Hash) {
    var operation := EntryOf(lib, h).operation;
    operation.Put? && operation.value.Track?
  }

  // ---- What the log holds for a key ----------------------------------------

  ghost predicate IsLeast(times: set<int>, m: int) {
    m in times && forall x :: x in times ==> m <= x
  }

  lemma {:induction false} SomeLeast(times: set<int>) returns (m: int)
    requires exists x :: x in times
    ensures IsLeast(times, m)
    decreases times
  {
    m :| m in times;
    var rest := times - {m};
    assert forall x :: x in times ==> x == m || x in rest;
    if exists x :: x in rest {
      var other := SomeLeast(rest);
      if other < m {
        m := other;
      }
    }
  }

  /** The timestamps of every known track PUT for a key, inert or not. */
  ghost function PutTimes(lib: Library, E: set<Hash>, k: StateKey): set<int> {
    set h | h in E && k in StateKeys(lib, h) && IsTrackPut(lib, h) :: Timestamp(lib, h)
  }

  /** The earliest of them, if there is any. */
  ghost predicate IsAddedAt(lib: Library, E: set<Hash>, k: StateKey, at: Option<int>) {
    if at.None? then forall x :: x !in PutTimes(lib, E, k) else IsLeast(PutTimes(lib, E, k), at.value)
  }

  lemma SomeAddedAt(lib: Library, E: set<Hash>, k: StateKey)
    ensures exists at :: IsAddedAt(lib, E, k, at)
  {
    if exists x :: x in PutTimes(lib, E, k) {
      var m := SomeLeast(PutTimes(lib, E, k));
      assert IsAddedAt(lib, E, k, Some(m));
    } else {
      assert IsAddedAt(lib, E, k, None);
    }
  }

  ghost function AddedAt(lib: Library, E: set<Hash>, k: StateKey): (at: Option<int>)
    ensures IsAddedAt(lib, E, k, at)
  {
    SomeAddedAt(lib, E, k);
    var at :| IsAddedAt(lib, E, k, at);
    at
  }

  lemma AddedAtIsUnique(lib: Library, E: set<Hash>, k: StateKey, at: Option<int>)
    requires IsAddedAt(lib, E, k, at)
    ensures at == AddedAt(lib, E, k)
  {
  }

  /** `at` is the earliest timestamp of the held track PUTs about the key, if any. */
  ghost predicate FirstSeen(lib: Library, E: set<Hash>, k: StateKey, at: Option<int>) {
    match at
    case None => forall h :: h in E && Concerns(EntryOf(lib, h).operation, k) ==> !IsTrackPut(lib, h)
    case Some(t) =>
      (exists h :: h in E && Concerns(EntryOf(lib, h).operation, k) && IsTrackPut(lib, h) && EntryOf(lib, h).timestamp == t) &&
      forall h :: h in E && Concerns(EntryOf(lib, h).operation, k) && IsTrackPut(lib, h) ==> t <= EntryOf(lib, h).timestamp
  }

  lemma FirstSeenExactly(lib: Library, E: set<Hash>, k: StateKey, at: Option<int>)
    ensures FirstSeen(lib, E, k, at) <==> at == AddedAt(lib, E, k)
  {
    forall h ensures k in StateKeys(lib, h) <==> Concerns(EntryOf(lib, h).operation, k) {
      StateKeysExactly(EntryOf(lib, h).operation, k);
    }
    assert forall h :: h in E && Concerns(EntryOf(lib, h).operation, k) && IsTrackPut(lib, h) ==> Timestamp(lib, h) in PutTimes(lib, E, k);
    assert forall x :: x in PutTimes(lib, E, k) ==>
             exists h :: h in E && Concerns(EntryOf(lib, h).operation, k) && IsTrackPut(lib, h) && Timestamp(lib, h) == x;
    assert FirstSeen(lib, E, k, at) <==> IsAddedAt(lib, E, k, at);
    if IsAddedAt(lib, E, k, at) {
      AddedAtIsUnique(lib, E, k, at);
    }
  }

  method AddedAtOf(oplog: Oplog, key: StateKey) returns (at: Option<int>)
    requires oplog.Consistent()
    ensures at == AddedAt(oplog.lib, oplog.entries.Keys, key)
    ensures FirstSeen(oplog.lib, oplog.entries.Keys, key, at)
  {
    Holders(oplog, key);
    at := None;
    if key in oplog.keyEntries {
      at := EarliestPut(oplog, oplog.keyEntries[key]);
    }
    FirstSeenExactly(oplog.lib, oplog.entries.Keys, key, at);
  }

  lemma Holders(oplog: Oplog, key: StateKey)
    requires oplog.Indexed()
    ensures forall h :: key in oplog.keyEntries && h in oplog.keyEntries[key] <==>
              h in oplog.entries && Concerns(EntryOf(oplog.lib, h).operation, key)
    ensures key in oplog.keyEntries ==> oplog.keyEntries[key] <= oplog.entries.Keys
  {
    forall h ensures key in StateKeys(oplog.lib, h) <==> Concerns(EntryOf(oplog.lib, h).operation, key) {
      StateKeysExactly(EntryOf(oplog.lib, h).operation, key);
    }
    if key in oplog.keyEntries {
      assert forall h :: h in oplog.keyEntries[key] ==> h in oplog.entries;
    }
  }

  method EarliestPut(oplog: Oplog, hashes: set<Hash>) returns (at: Option<int>)
    requires oplog.Addressed() && hashes <= oplog.entries.Keys
    ensures at.None? ==> forall h :: h in hashes ==> !IsTrackPut(oplog.lib, h)
    ensures at.Some? ==>
              (exists h :: h in hashes && IsTrackPut(oplog.lib, h) && Timestamp(oplog.lib, h) == at.value) &&
              forall h :: h in hashes && IsTrackPut(oplog.lib, h) ==> at.value <= Timestamp(oplog.lib, h)
  {
    var all := Listed(hashes);
    at := None;
    for i := 0 to |all|
      invariant at.None? ==> forall h :: h in all[..i] ==> !IsTrackPut(oplog.lib, h)
      invariant at.Some? ==>
                  (exists h :: h in hashes && IsTrackPut(oplog.lib, h) && Timestamp(oplog.lib, h) == at.value) &&
                  forall h :: h in all[..i] && IsTrackPut(oplog.lib, h) ==> at.value <= Timestamp(oplog.lib, h)
    {
      var h := all[i];
      assert h in all && all[..i + 1] == all[..i] + [h];
      var entry := oplog.entries[h];
      if entry.operation.Put? && entry.operation.value.Track? && (at.None? || entry.timestamp < at.value) {
        at := Some(entry.timestamp);
      }
    }
    assert all[..|all|] == all;
  }

  /** A key's current entry, and when its track was first seen. */
  datatype Slot = Slot(entry: Option<Hash>, addedAt: Option<int>)

  function CurrentOf(current: map<StateKey, Hash>, k: StateKey): Option<Hash> {
    if k in current then Some(current[k]) else None
  }

  ghost function SlotOf(lib: Library, E: set<Hash>, current: map<StateKey, Hash>, k: StateKey): Slot {
    Slot(CurrentOf(current, k), AddedAt(lib, E, k))
  }

  // ---- Rows ----------------------------------------------------------------

  /** The rows one key projects to. */
  datatype Row =
    | LabelRow(hash: Hash)
    | AboutRow(hash: Hash, name: int)
    | TrackRow(hash: Hash, content: bool, addedAt: Option<int>)
    | TombstoneRow(hash: Hash)

  /** The rows of a key whose current entry is in `slot`, with or without its
      content payload. A label row stands while the current record sets the pair. */
  function Project(lib: Library, k: StateKey, slot: Slot, content: bool): Option<Row> {
    if slot.entry.None? then None
    else
      var h := slot.entry.value;
      match EntryOf(lib, h).operation
      case Put(Labels(set_, _), _) => if k.LabelKey? && k.pair in set_ then Some(LabelRow(h)) else None
      case Put(About(name), _) => if k.LabelKey? then None else Some(AboutRow(h, name))
      case Put(Track(_, _), _) => if k.LabelKey? then None else Some(TrackRow(h, content, slot.addedAt))
      case Del(_, _) => if k.LabelKey? then None else Some(TombstoneRow(h))
      case _ => None
  }

  type Rows = map<StateKey, Row>

  function RowOf(rows: Rows, k: StateKey): Option<Row> { if k in rows then Some(rows[k]) else None }

  /** Deletes the key's rows and inserts the new ones, if any. */
  function Replace(rows: Rows, k: StateKey, row: Option<Row>): Rows {
    if row.None? then rows - {k} else rows[k := row.value]
  }

  /** The content a load found for each key, with the entry it was loaded for. */
  datatype Load = Load(entry: Option<Hash>, content: bool)

  predicate Stable(current: map<StateKey, Hash>, loaded: map<StateKey, Load>, k: StateKey) {
    k in loaded && loaded[k].entry == CurrentOf(current, k)
  }

  ghost function WrittenRow(lib: Library, E: set<Hash>, current: map<StateKey, Hash>, loaded: map<StateKey, Load>, k: StateKey): Option<Row> {
    Project(lib, k, SlotOf(lib, E, current, k), k in loaded && loaded[k].content)
  }

  predicate LacksContent(lib: Library, load: Load) {
    load.entry.Some? && IsTrackPut(lib, load.entry.value) && !load.content
  }

  class Index {
    const lib: Library
    var rows: Rows
    var missing: set<StateKey>

    constructor (lib: Library)
      ensures this.lib == lib && rows == map[] && missing == {}
    {
      this.lib := lib;
      rows, missing := map[], {};
    }

    /** One transaction: writes the labels and the stable keys from the log as it
        is now, updates the keys whose content is missing, and returns the keys
        to load again. */
    method WriteRound(oplog: Oplog, labels: set<StateKey>, loaded: map<StateKey, Load>) returns (retry: set<StateKey>)
      requires oplog.lib == lib && oplog.Consistent()
      requires (forall k :: k in labels ==> k.LabelKey?) && (forall k :: k in loaded ==> !k.LabelKey?)
      modifies this
      ensures retry == set k | k in loaded && !Stable(oplog.current, loaded, k)
      ensures forall k :: RowOf(rows, k) ==
                if k in labels || Stable(oplog.current, loaded, k) then WrittenRow(lib, oplog.entries.Keys, oplog.current, loaded, k)
                else RowOf(old(rows), k)
      ensures forall k :: k in missing <==>
                if Stable(oplog.current, loaded, k) then LacksContent(lib, loaded[k]) else k in old(missing)
    {
      WriteLabels(oplog, labels);
      retry := WriteStable(oplog, loaded);
    }

    method WriteStable(oplog: Oplog, loaded: map<StateKey, Load>) returns (retry: set<StateKey>)
      requires oplog.lib == lib && oplog.Consistent()
      modifies this
      ensures retry == set k | k in loaded && !Stable(oplog.current, loaded, k)
      ensures forall k :: RowOf(rows, k) ==
                if Stable(oplog.current, loaded, k) then WrittenRow(lib, oplog.entries.Keys, oplog.current, loaded, k)
                else RowOf(old(rows), k)
      ensures forall k :: k in missing <==>
                if Stable(oplog.current, loaded, k) then LacksContent(lib, loaded[k]) else k in old(missing)
    {
      retry := {};
      var rest := loaded.Keys;
      ghost var done: set<StateKey> := {};
      while rest != {}
        invariant rest == loaded.Keys - done && done <= loaded.Keys
        invariant forall k :: k in retry <==> k in done && !Stable(oplog.current, loaded, k)
        invariant forall k :: RowOf(rows, k) ==
                    if k in done && Stable(oplog.current, loaded, k) then WrittenRow(lib, oplog.entries.Keys, oplog.current, loaded, k)
                    else RowOf(old(rows), k)
        invariant forall k :: k in missing <==>
                    if k in done && Stable(oplog.current, loaded, k) then LacksContent(lib, loaded[k]) else k in old(missing)
        decreases rest
      {
        var key :| key in rest;
        WriteKey(oplog, key, loaded[key]);
        if loaded[key].entry != CurrentOf(oplog.current, key) {
          retry := retry + {key};
        }
        rest, done := rest - {key}, done + {key};
      }
      assert done == loaded.Keys;
    }

    /** Replaces one key's rows if its current entry is still the one loaded for. */
    method WriteKey(oplog: Oplog, key: StateKey, load: Load)
      requires oplog.lib == lib && oplog.Consistent()
      modifies this
      ensures var stable := load.entry == CurrentOf(oplog.current, key);
              (forall k :: RowOf(rows, k) ==
                if k == key && stable then Project(lib, key, SlotOf(lib, oplog.entries.Keys, oplog.current, key), load.content)
                else RowOf(old(rows), k)) &&
              forall k :: k in missing <==> if k == key && stable then LacksContent(lib, load) else k in old(missing)
    {
      if load.entry == CurrentOf(oplog.current, key) {
        var addedAt := AddedAtOf(oplog, key);
        rows := Replace(rows, key, Project(lib, key, Slot(load.entry, addedAt), load.content));
        missing := if LacksContent(lib, load) then missing + {key} else missing - {key};
      }
    }

    method WriteLabels(oplog: Oplog, labels: set<StateKey>)
      requires oplog.lib == lib && forall k :: k in labels ==> k.LabelKey?
      modifies this`rows
      ensures forall k :: RowOf(rows, k) ==
                if k in labels then Project(lib, k, SlotOf(lib, oplog.entries.Keys, oplog.current, k), false) else RowOf(old(rows), k)
    {
      var rest := labels;
      while rest != {}
        invariant rest <= labels
        invariant forall k :: RowOf(rows, k) ==
                    if k in labels && k !in rest then Project(lib, k, SlotOf(lib, oplog.entries.Keys, oplog.current, k), false)
                    else RowOf(old(rows), k)
        decreases rest
      {
        var key :| key in rest;
        rest := rest - {key};
        rows := Replace(rows, key, Project(lib, key, Slot(CurrentOf(oplog.current, key), None), false));
      }
    }
  }

  // ---- Interleaving with the log ------------------------------------------

  /** The job being projected: the label keys of its first round, the keys still
      to write, and the loads in progress. */
  datatype Job = Job(first: bool, labels: set<StateKey>, pending: set<StateKey>, loading: Option<map<StateKey, Option<Hash>>>)

  /** The log, the index, the keys changed but not handed over yet, the jobs waiting
      and the one running, and the keys a job that threw has left behind. */
  datatype State = State(
    entries: set<Hash>,
    current: map<StateKey, Hash>,
    rows: Rows,
    missing: set<StateKey>,
    owed: set<StateKey>,
    queue: seq<set<StateKey>>,
    job: Option<Job>,
    lost: set<StateKey>)

  ghost const EMPTY := State({}, map[], map[], {}, {}, [], None, {})

  datatype Step =
    | Change(entries: set<Hash>, current: map<StateKey, Hash>, added: seq<Hash>, keys: set<StateKey>)
    | HandOver(keys: set<StateKey>)
    | StartJob
    | LoadRound
    | WriteJob(found: set<StateKey>)
    | ThrowJob
    | FinishJob

  /** A change of the log as a merge or an append reports it: the entries added, and
      keys that with theirs take in every key whose current entry moved. */
  ghost predicate Enabled(lib: Library, s: State, step: Step) {
    match step
    case Change(entries, current, added, keys) =>
      s.entries <= entries && (forall h :: h in added <==> h in entries && h !in s.entries) &&
      forall k :: Moved(s.current, current, k) ==> Touches(lib, added, keys, k)
    case HandOver(_) => true
    case StartJob => s.job.None? && s.queue != []
    case LoadRound => s.job.Some? && s.job.value.loading.None? && (s.job.value.first || s.job.value.pending != {})
    case WriteJob(_) => s.job.Some? && s.job.value.loading.Some?
    case ThrowJob => s.job.Some? && s.job.value.loading.Some?
    case FinishJob => s.job.Some? && s.job.value.loading.None? && !s.job.value.first && s.job.value.pending == {}
  }

  ghost function Touched(lib: Library, added: seq<Hash>, keys: set<StateKey>): set<StateKey> {
    keys + set h, k | h in added && k in StateKeys(lib, h) :: k
  }

  /** A merge is such a change. */
  method MergeIsAChange(oplog: Oplog, blocks: seq<Block>, ghost s: State)
    returns (merged: seq<Hash>, keys: set<StateKey>)
    requires oplog.Consistent() && s.entries == oplog.entries.Keys && s.current == oplog.current
    modifies oplog
    ensures oplog.Consistent() && Enabled(oplog.lib, s, Change(oplog.entries.Keys, oplog.current, merged, keys))
  {
    var rejected, inert;
    MergedIsValid(oplog.lib, oplog.entries.Keys, Decoded(blocks));
    merged, rejected, inert, keys := InsertBlocks(oplog, blocks, false, {});
  }

  /** So is a local append. */
  method AppendIsAChange(oplog: Oplog, hash: Entry -> Hash, key: PublicKey, operation: Operation, timestamp: int, ghost s: State)
    returns (added: seq<Hash>, keys: set<StateKey>)
    requires oplog.Consistent() && s.entries == oplog.entries.Keys && s.current == oplog.current
    requires forall e :: oplog.lib.entryOf(hash(e)) == e
    modifies oplog
    ensures oplog.Consistent() && Enabled(oplog.lib, s, Change(oplog.entries.Keys, oplog.current, added, keys))
  {
    var signed, verdict, inert;
    signed, verdict, inert, keys := AppendEntry(oplog, hash, key, operation, timestamp);
    added := if verdict.Ok? then [signed.value] else [];
  }

  ghost function Loads(job: Job, found: set<StateKey>): map<StateKey, Load>
    requires job.loading.Some?
  {
    map k | k in job.loading.value :: Load(job.loading.value[k], k in found)
  }

  ghost function Labels(job: Job): set<StateKey> { if job.first then job.labels else {} }

  /** What the running job has not written yet. */
  ghost function Unwritten(s: State): set<StateKey> {
    if s.job.None? then {} else s.job.value.pending + Labels(s.job.value)
  }

  /** A round's transaction writes this key. */
  ghost predicate Wrote(s: State, found: set<StateKey>, k: StateKey) {
    s.job.Some? && s.job.value.loading.Some? &&
    (k in Labels(s.job.value) || Stable(s.current, Loads(s.job.value, found), k))
  }

  /** The state after a round's transaction; relational where the index is. */
  ghost predicate Writes(lib: Library, s: State, found: set<StateKey>, s': State)
    requires s.job.Some? && s.job.value.loading.Some?
  {
    var job := s.job.value;
    var loaded := Loads(job, found);
    s'.entries == s.entries && s'.current == s.current && s'.owed == s.owed && s'.queue == s.queue &&
    s'.job == Some(Job(false, job.labels, (set k | k in loaded && !Stable(s.current, loaded, k)), None)) &&
    (forall k :: k in s'.lost <==> k in s.lost && !Wrote(s, found, k)) &&
    (forall k :: RowOf(s'.rows, k) ==
      if Wrote(s, found, k) then WrittenRow(lib, s.entries, s.current, loaded, k) else RowOf(s.rows, k)) &&
    (forall k :: k in s'.missing <==>
      if Stable(s.current, loaded, k) then LacksContent(lib, loaded[k]) else k in s.missing)
  }

  ghost predicate Next(lib: Library, s: State, step: Step, s': State) {
    Enabled(lib, s, step) &&
    match step
    case Change(entries, current, added, keys) =>
      s' == s.(entries := entries, current := current, owed := s.owed + Touched(lib, added, keys))
    case HandOver(keys) => s' == s.(queue := s.queue + [keys], owed := s.owed - keys)
    case StartJob =>
      s' == s.(queue := s.queue[1..],
               job := Some(Job(true, (set k | k in s.queue[0] && k.LabelKey?), (set k | k in s.queue[0] && !k.LabelKey?), None)))
    case LoadRound =>
      s' == s.(job := Some(s.job.value.(loading := Some(map k | k in s.job.value.pending :: CurrentOf(s.current, k)))))
    case WriteJob(found) => Writes(lib, s, found, s')
    case ThrowJob => s' == s.(job := None, lost := s.lost + Unwritten(s))
    case FinishJob => s' == s.(job := None)
  }

  /** The key's rows are the projection of its current slot. */
  ghost predicate Follows(lib: Library, s: State, k: StateKey) {
    var slot := SlotOf(lib, s.entries, s.current, k);
    RowOf(s.rows, k) == Project(lib, k, slot, true) || RowOf(s.rows, k) == Project(lib, k, slot, false)
  }

  ghost predicate Due(s: State, k: StateKey) {
    k in s.owed || (exists i :: 0 <= i < |s.queue| && k in s.queue[i]) || k in Unwritten(s)
  }

  ghost predicate Settled(lib: Library, s: State, k: StateKey) { Follows(lib, s, k) || Due(s, k) || k in s.lost }

  /** A track row without its content is listed as missing, and nothing else is. */
  ghost predicate MissingIsRight(s: State) {
    forall k :: k in s.missing <==> k in s.rows && s.rows[k].TrackRow? && !s.rows[k].content
  }

  ghost predicate Inv(lib: Library, s: State) {
    (forall k :: Settled(lib, s, k)) && MissingIsRight(s) && (forall k :: k in s.missing ==> !k.LabelKey?) &&
    (s.job.Some? ==>
      (forall k :: k in s.job.value.labels ==> k.LabelKey?) && (forall k :: k in s.job.value.pending ==> !k.LabelKey?) &&
      (s.job.value.loading.Some? ==> s.job.value.loading.value.Keys == s.job.value.pending))
  }

  lemma NothingYet(lib: Library)
    ensures Inv(lib, EMPTY)
  {
    forall k ensures Settled(lib, EMPTY, k) {
      assert Follows(lib, EMPTY, k);
    }
  }

  /** A key the change does not touch keeps its current entry and first sight. */
  lemma UntouchedSlot(lib: Library, s: State, entries: set<Hash>, current: map<StateKey, Hash>, added: seq<Hash>, keys: set<StateKey>, k: StateKey)
    requires Enabled(lib, s, Change(entries, current, added, keys)) && k !in Touched(lib, added, keys)
    ensures SlotOf(lib, entries, current, k) == SlotOf(lib, s.entries, s.current, k)
  {
    assert !Touches(lib, added, keys, k);
    assert !Moved(s.current, current, k);
    assert forall h :: h in entries && k in StateKeys(lib, h) ==> h in s.entries;
    assert forall x :: x in PutTimes(lib, entries, k) <==> x in PutTimes(lib, s.entries, k);
    assert PutTimes(lib, entries, k) == PutTimes(lib, s.entries, k);
    AddedAtIsUnique(lib, entries, k, AddedAt(lib, s.entries, k));
  }

  /** Every row a round writes is the projection of the entry current at that moment. */
  lemma WritesAreCurrent(lib: Library, s: State, found: set<StateKey>, s': State, k: StateKey)
    requires Inv(lib, s) && Enabled(lib, s, WriteJob(found)) && Writes(lib, s, found, s')
    ensures RowOf(s'.rows, k) != RowOf(s.rows, k) ==> Follows(lib, s', k)
    ensures k in Unwritten(s) && k !in Unwritten(s') ==> Follows(lib, s', k)
    ensures k in s.lost && k !in s'.lost ==> Follows(lib, s', k)
  {
    var loaded := Loads(s.job.value, found);
    assert RowOf(s'.rows, k) ==
      if Wrote(s, found, k) then WrittenRow(lib, s.entries, s.current, loaded, k) else RowOf(s.rows, k);
  }

  lemma WriteKeeps(lib: Library, s: State, found: set<StateKey>, s': State)
    requires Inv(lib, s) && Enabled(lib, s, WriteJob(found)) && Writes(lib, s, found, s')
    ensures Inv(lib, s')
  {
    forall k ensures Settled(lib, s', k) {
      WritesAreCurrent(lib, s, found, s', k);
      assert Settled(lib, s, k);
    }
    forall k ensures k in s'.missing <==> k in s'.rows && s'.rows[k].TrackRow? && !s'.rows[k].content {
      MissingStill(lib, s, found, s', k);
    }
  }

  lemma MissingStill(lib: Library, s: State, found: set<StateKey>, s': State, k: StateKey)
    requires Inv(lib, s) && Enabled(lib, s, WriteJob(found)) && Writes(lib, s, found, s')
    ensures k in s'.missing <==> k in s'.rows && s'.rows[k].TrackRow? && !s'.rows[k].content
  {
    var loaded := Loads(s.job.value, found);
    assert RowOf(s'.rows, k) ==
      if Wrote(s, found, k) then WrittenRow(lib, s.entries, s.current, loaded, k) else RowOf(s.rows, k);
  }

  lemma StepKeeps(lib: Library, s: State, step: Step, s': State)
    requires Inv(lib, s) && Next(lib, s, step, s')
    ensures Inv(lib, s')
  {
    if step.WriteJob? {
      WriteKeeps(lib, s, step.found, s');
    } else {
      forall k ensures Settled(lib, s', k) {
        assert Settled(lib, s, k);
        DueStays(lib, s, step, s', k);
      }
    }
  }

  lemma DueStays(lib: Library, s: State, step: Step, s': State, k: StateKey)
    requires Next(lib, s, step, s') && !step.WriteJob? && Settled(lib, s, k)
    ensures Settled(lib, s', k)
  {
    if step.Change? && k !in Touched(lib, step.added, step.keys) {
      UntouchedSlot(lib, s, step.entries, step.current, step.added, step.keys, k);
    }
    if Due(s, k) {
      WorkStays(lib, s, step, s', k);
    }
  }

  lemma WorkStays(lib: Library, s: State, step: Step, s': State, k: StateKey)
    requires Next(lib, s, step, s') && !step.WriteJob? && Due(s, k)
    ensures Due(s', k) || k in s'.lost
  {
    if exists i :: 0 <= i < |s.queue| && k in s.queue[i] {
      var i :| 0 <= i < |s.queue| && k in s.queue[i];
      if step.StartJob? {
        assert i > 0 ==> s'.queue[i - 1] == s.queue[i];
      } else {
        assert s'.queue[i] == s.queue[i];
      }
    }
    if step.HandOver? && k in step.keys {
      assert s'.queue[|s.queue|] == step.keys;
    }
  }

  ghost predicate Runs(lib: Library, states: seq<State>, steps: seq<Step>) {
    |states| == |steps| + 1 && forall i :: 0 <= i < |steps| ==> Next(lib, states[i], steps[i], states[i + 1])
  }

  lemma {:induction false} RunKeeps(lib: Library, states: seq<State>, steps: seq<Step>, n: nat)
    requires Runs(lib, states, steps) && Inv(lib, states[0]) && n < |states|
    ensures Inv(lib, states[n])
    decreases n
  {
    if n > 0 {
      RunKeeps(lib, states, steps, n - 1);
      assert Next(lib, states[n - 1], steps[n - 1], states[n]);
      StepKeeps(lib, states[n - 1], steps[n - 1], states[n]);
    }
  }

  /** The job running at step `i` threw before writing `k`, and no round between then
      and `n` wrote it. */
  ghost predicate ThrownAt(states: seq<State>, steps: seq<Step>, i: nat, n: nat, k: StateKey)
    requires |states| == |steps| + 1 && n < |states|
  {
    i < n && steps[i].ThrowJob? && k in Unwritten(states[i]) &&
    forall j :: i < j < n && steps[j].WriteJob? ==> !Wrote(states[j], steps[j].found, k)
  }

  /** A key is left behind exactly when a job threw before writing it and no later
      round wrote it. */
  lemma {:induction false} LostWasThrown(lib: Library, states: seq<State>, steps: seq<Step>, n: nat, k: StateKey)
    requires Runs(lib, states, steps) && states[0].lost == {} && n < |states|
    ensures k in states[n].lost <==> exists i: nat :: ThrownAt(states, steps, i, n, k)
    decreases n
  {
    if n > 0 {
      var m := n - 1;
      assert Next(lib, states[m], steps[m], states[n]);
      LostWasThrown(lib, states, steps, m, k);
      if steps[m].ThrowJob? && k in Unwritten(states[m]) {
        assert ThrownAt(states, steps, m, n, k);
      } else {
        ThrownEarlier(states, steps, m, n, k);
      }
    }
  }

  lemma ThrownEarlier(states: seq<State>, steps: seq<Step>, m: nat, n: nat, k: StateKey)
    requires |states| == |steps| + 1 && m + 1 == n < |states| && !(steps[m].ThrowJob? && k in Unwritten(states[m]))
    ensures (exists i: nat :: ThrownAt(states, steps, i, n, k)) <==>
            (exists i: nat :: ThrownAt(states, steps, i, m, k)) && !(steps[m].WriteJob? && Wrote(states[m], steps[m].found, k))
  {
    forall i: nat
      ensures ThrownAt(states, steps, i, n, k) <==>
              ThrownAt(states, steps, i, m, k) && !(steps[m].WriteJob? && Wrote(states[m], steps[m].found, k))
    {
    }
  }

  /** A key's row after a step: only a round that writes the key changes it. */
  ghost function RowAfter(lib: Library, s: State, step: Step, k: StateKey, row: Option<Row>): Option<Row> {
    if step.WriteJob? && Wrote(s, step.found, k)
    then WrittenRow(lib, s.entries, s.current, Loads(s.job.value, step.found), k) else row
  }

  /** The row the last round before `n` that wrote `k` gave it. */
  ghost function LastRow(lib: Library, states: seq<State>, steps: seq<Step>, n: nat, k: StateKey): Option<Row>
    requires |states| == |steps| + 1 && n < |states|
  {
    if n == 0 then None else RowAfter(lib, states[n - 1], steps[n - 1], k, LastRow(lib, states, steps, n - 1, k))
  }

  lemma RowsFollowSteps(lib: Library, states: seq<State>, steps: seq<Step>, k: StateKey)
    requires Runs(lib, states, steps)
    ensures forall i :: 0 <= i < |steps| ==>
              RowOf(states[i + 1].rows, k) == RowAfter(lib, states[i], steps[i], k, RowOf(states[i].rows, k))
  {
    forall i | 0 <= i < |steps|
      ensures RowOf(states[i + 1].rows, k) == RowAfter(lib, states[i], steps[i], k, RowOf(states[i].rows, k))
    {
      assert Next(lib, states[i], steps[i], states[i + 1]);
    }
  }

  lemma {:induction false} RowIsLastWritten(lib: Library, states: seq<State>, steps: seq<Step>, n: nat, k: StateKey)
    requires |states| == |steps| + 1 && states[0].rows == map[] && n < |states|
    requires forall i :: 0 <= i < |steps| ==>
               RowOf(states[i + 1].rows, k) == RowAfter(lib, states[i], steps[i], k, RowOf(states[i].rows, k))
    ensures RowOf(states[n].rows, k) == LastRow(lib, states, steps, n, k)
    decreases n
  {
    if n > 0 {
      RowIsLastWritten(lib, states, steps, n - 1, k);
    }
  }

  /** Every change was handed over and every job is done. */
  ghost predicate Drained(s: State) { s.owed == {} && s.queue == [] && s.job.None? }

  /** Once drained, the rows of a key are the projection of its current entry exactly
      when no thrown job has left it behind or what was last written for it still is
      that projection; and of the keys not left behind, exactly the track rows written
      without content are listed as missing it. */
  lemma DrainedIndexFollowsLog(lib: Library, states: seq<State>, steps: seq<Step>, k: StateKey)
    requires Runs(lib, states, steps) && states[0] == EMPTY && Drained(states[|steps|])
    ensures var s := states[|steps|];
            var slot, last := SlotOf(lib, s.entries, s.current, k), LastRow(lib, states, steps, |steps|, k);
            (Follows(lib, s, k) <==> k !in s.lost || last == Project(lib, k, slot, true) || last == Project(lib, k, slot, false)) &&
            (k !in s.lost ==> RowOf(s.rows, k) == Project(lib, k, slot, k !in s.missing))
  {
    NothingYet(lib);
    RunKeeps(lib, states, steps, |steps|);
    RowsFollowSteps(lib, states, steps, k);
    RowIsLastWritten(lib, states, steps, |steps|, k);
    var s := states[|steps|];
    assert Settled(lib, s, k);
  }

  /** Which row a key of a drained index has, kind by kind: a label's exactly while the
      current record sets the pair; otherwise that of the current About record, of the
      current track PUT, with whether its content was found and when the track was first
      put, or a tombstone exactly when the current entry is a DEL. */
  lemma DrainedRows(lib: Library, states: seq<State>, steps: seq<Step>, k: StateKey, h: Hash)
    requires Runs(lib, states, steps) && states[0] == EMPTY && Drained(states[|steps|]) && k !in states[|steps|].lost
    ensures var s := states[|steps|];
            var row, current, operation := RowOf(s.rows, k), k in s.current && s.current[k] == h, EntryOf(lib, h).operation;
            (row == Some(LabelRow(h)) <==>
              current && k.LabelKey? && operation.Put? && operation.value.Labels? && k.pair in operation.value.set_) &&
            (row == Some(TombstoneRow(h)) <==> current && !k.LabelKey? && operation.Del?) &&
            (forall name :: row == Some(AboutRow(h, name)) <==>
              current && !k.LabelKey? && operation.Put? && operation.value == About(name)) &&
            (forall content, at :: row == Some(TrackRow(h, content, at)) <==>
              current && !k.LabelKey? && operation.Put? && operation.value.Track? &&
              (content <==> k !in s.missing) && FirstSeen(lib, s.entries, k, at))
    ensures var s := states[|steps|];
            k !in s.current ==> k !in s.rows
  {
    DrainedIndexFollowsLog(lib, states, steps, k);
    var s := states[|steps|];
    ProjectExactly(lib, k, SlotOf(lib, s.entries, s.current, k), k !in s.missing, h);
    forall at ensures FirstSeen(lib, s.entries, k, at) <==> at == AddedAt(lib, s.entries, k) {
      FirstSeenExactly(lib, s.entries, k, at);
    }
  }

  lemma ProjectExactly(lib: Library, k: StateKey, slot: Slot, found: bool, h: Hash)
    ensures var row, current, operation := Project(lib, k, slot, found), slot.entry == Some(h), EntryOf(lib, h).operation;
            (row == Some(LabelRow(h)) <==>
              current && k.LabelKey? && operation.Put? && operation.value.Labels? && k.pair in operation.value.set_) &&
            (row == Some(TombstoneRow(h)) <==> current && !k.LabelKey? && operation.Del?) &&
            (forall name :: row == Some(AboutRow(h, name)) <==>
              current && !k.LabelKey? && operation.Put? && operation.value == About(name)) &&
            (forall content, at :: row == Some(TrackRow(h, content, at)) <==>
              current && !k.LabelKey? && operation.Put? && operation.value.Track? && content == found && at == slot.addedAt)
    ensures slot.entry.None? ==> Project(lib, k, slot, found).None?
  {
  }

  /** One track, and a read that throws: the index drains without its row. */
  lemma ThrownReadIsBehind() returns (lib: Library, states: seq<State>, steps: seq<Step>, k: StateKey)
    ensures Runs(lib, states, steps) && states[0] == EMPTY && Drained(states[|steps|])
    ensures !Follows(lib, states[|steps|], k)
  {
    k := TrackKey(5);
    lib := Library(Recordstore, {0}, h => Entry(0, [], [], 1, 0, Put(Track(5, 0), None)),
                   h => Ok, h => Ok, h => true, (f, s) => true);
    assert StateKeys(lib, 1) == [k];
    states, steps := ThrowRun(lib, k);
    TrackWithoutRow(lib, states[|steps|], k);
  }

  /** Entry 1 arrives, is handed over, and the job that loads its content throws. */
  lemma ThrowRun(lib: Library, k: StateKey) returns (states: seq<State>, steps: seq<Step>)
    requires StateKeys(lib, 1) == [k] && !k.LabelKey?
    ensures Runs(lib, states, steps) && states[0] == EMPTY && Drained(states[|steps|])
    ensures states[|steps|].current == map[k := 1] && states[|steps|].rows == map[]
  {
    var keys, current := {k}, map[k := 1 as Hash];
    var job := Job(true, {}, keys, None);
    var changed := State({1}, current, map[], {}, keys, [], None, {});
    var handed := changed.(owed := {}, queue := [keys]);
    var started := handed.(queue := [], job := Some(job));
    var loading := started.(job := Some(job.(loading := Some(map[k := Some(1 as Hash)]))));
    var thrown := loading.(job := None, lost := keys);
    steps := [Change({1}, current, [1], {}), HandOver(keys), StartJob, LoadRound, ThrowJob];
    states := [EMPTY, changed, handed, started, loading, thrown];
    FirstChange(lib, k, current);
    assert Next(lib, EMPTY, steps[0], changed);
    assert keys - keys == {} && [] + [keys] == [keys];
    assert Next(lib, changed, steps[1], handed);
    JobStarts(lib, handed, keys, started);
    assert (map x | x in keys :: CurrentOf(current, x)) == map[k := Some(1 as Hash)];
    assert Next(lib, started, steps[3], loading);
    assert Unwritten(loading) == keys;
    assert Next(lib, loading, steps[4], thrown);
  }

  lemma JobStarts(lib: Library, s: State, keys: set<StateKey>, s': State)
    requires s.job.None? && s.queue == [keys] && forall k :: k in keys ==> !k.LabelKey?
    requires s' == s.(queue := [], job := Some(Job(true, {}, keys, None)))
    ensures Next(lib, s, StartJob, s')
  {
    assert s.queue[1..] == [] && (set x | x in keys && x.LabelKey?) == {} && (set x | x in keys && !x.LabelKey?) == keys;
  }

  lemma TrackWithoutRow(lib: Library, s: State, k: StateKey)
    requires k in s.current && IsTrackPut(lib, s.current[k]) && !k.LabelKey? && k !in s.rows
    ensures !Follows(lib, s, k)
  {
  }

  lemma FirstChange(lib: Library, k: StateKey, current: map<StateKey, Hash>)
    requires StateKeys(lib, 1) == [k] && current == map[k := 1]
    ensures Enabled(lib, EMPTY, Change({1}, current, [1], {})) && Touched(lib, [1], {}) == {k}
  {
    forall x | Moved(map[], current, x) ensures Touches(lib, [1], {}, x) {
      var h: Hash := 1;
      assert h in [1] && x in StateKeys(lib, h);
    }
    var one: Hash := 1;
    assert one in [1] && k in StateKeys(lib, one);
    assert forall x :: x in Touched(lib, [1], {}) <==> x == k;
  }
}
