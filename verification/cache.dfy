/** Opening a library: the cache of verified entry blocks, the trusted restore
    that skips verification, and the walk from the block store. */
module Cache {
  import opened Wrappers
  import opened Entries
  import opened Causal
  import opened Log
  import opened Convergence
  import opened Oplogs
  import opened Merging
  import opened Sorting

  const RULES_VERSION := 2

  datatype Watermark = Watermark(heads: set<Hash>, rulesVersion: nat)

  /** One library's cached blocks, in row order, with the heads last recorded as
      verified and the rules version they were verified under. */
  class EntryBlockCache {
    var blocks: seq<Hash>
    var verified: Option<Watermark>

    constructor ()
      ensures blocks == [] && verified == None
    {
      blocks, verified := [], None;
    }

    /** Every cached block belongs to the log `V`. */
    ghost predicate Within(V: set<Hash>)
      reads this`blocks
    {
      forall h :: h in blocks ==> h in V
    }

    /** A watermark under the current rules vouches for the log `V`: it is valid,
        it has the recorded heads, and every cached block belongs to it. */
    ghost predicate Vouches(lib: Library, V: set<Hash>)
      reads this
    {
      verified.Some? && verified.value.rulesVersion == RULES_VERSION ==>
        Valid(lib, V) && Heads(lib, V) == verified.value.heads && Within(V)
    }

    method InsertAll(hashes: seq<Hash>)
      modifies this`blocks
      ensures forall h :: h in blocks <==> h in old(blocks) || h in hashes
    {
      for i := 0 to |hashes|
        invariant forall h :: h in blocks <==> h in old(blocks) || h in hashes[..i]
      {
        assert hashes[..i + 1] == hashes[..i] + [hashes[i]];
        if hashes[i] !in blocks {
          blocks := blocks + [hashes[i]];
        }
      }
      assert hashes[..|hashes|] == hashes;
    }

    /** Adds blocks of entries the log holds and records its heads. */
    method Save(oplog: Oplog, hashes: seq<Hash>)
      requires oplog.Consistent() && Within(oplog.entries.Keys)
      requires forall h :: h in hashes ==> h in oplog.entries
      modifies this
      ensures Within(oplog.entries.Keys) && Vouches(oplog.lib, oplog.entries.Keys)
      ensures forall h :: h in blocks <==> h in old(blocks) || h in hashes
      ensures verified == Some(Watermark(oplog.heads, RULES_VERSION))
    {
      InsertAll(hashes);
      verified := Some(Watermark(oplog.heads, RULES_VERSION));
    }

    /** Replaces the blocks with exactly the log's. */
    method Replace(oplog: Oplog, hashes: seq<Hash>)
      requires oplog.Consistent() && forall h :: h in hashes <==> h in oplog.entries
      modifies this
      ensures Within(oplog.entries.Keys) && Vouches(oplog.lib, oplog.entries.Keys)
      ensures forall h :: h in blocks <==> h in oplog.entries
      ensures verified == Some(Watermark(oplog.heads, RULES_VERSION))
    {
      blocks := [];
      InsertAll(hashes);
      verified := Some(Watermark(oplog.heads, RULES_VERSION));
    }

    /** Vouches for a log that was just verified from the cached blocks. */
    method MarkVerified(oplog: Oplog)
      requires oplog.Consistent() && Within(oplog.entries.Keys)
      modifies this`verified
      ensures Vouches(oplog.lib, oplog.entries.Keys)
      ensures verified == Some(Watermark(oplog.heads, RULES_VERSION))
    {
      verified := Some(Watermark(oplog.heads, RULES_VERSION));
    }
  }

  // ---- The walk from the block store --------------------------------------

  /** Everything the walk can name. */
  ghost function Named(lib: Library, store: map<Hash, Verdict>, heads: set<Hash>): set<Hash> {
    heads + set h, p | h in store && p in Links(lib, h) :: p
  }

  /** `walked` holds the stored heads and, for each walked entry, its stored links. */
  ghost predicate WalkClosed(lib: Library, store: map<Hash, Verdict>, heads: set<Hash>, walked: seq<Block>) {
    (forall h :: h in heads && h in store ==> Block(h, store[h]) in walked) &&
    (forall b, p :: b in walked && b.decodes.Ok? && p in Links(lib, b.cid) && p in store ==> Block(p, store[p]) in walked)
  }

  /** `h` is a head, or `n` links of stored entries lead to it from one. */
  ghost predicate LinkReachedIn(lib: Library, store: map<Hash, Verdict>, heads: set<Hash>, h: Hash, n: nat)
    decreases n
  {
    if n == 0 then h in heads
    else exists m :: LinkReachedIn(lib, store, heads, m, n - 1) && m in store && store[m].Ok? && h in Links(lib, m)
  }

  ghost predicate LinkReached(lib: Library, store: map<Hash, Verdict>, heads: set<Hash>, h: Hash) {
    exists n: nat :: LinkReachedIn(lib, store, heads, h, n)
  }

  /** The entries a walk from `heads` finds. */
  ghost function Reachable(lib: Library, store: map<Hash, Verdict>, heads: set<Hash>): set<Hash> {
    set h | h in store && store[h].Ok? && LinkReached(lib, store, heads, h)
  }

  lemma HeadsAreReached(lib: Library, store: map<Hash, Verdict>, heads: set<Hash>)
    ensures forall h :: h in heads ==> LinkReached(lib, store, heads, h)
  {
    assert forall h :: h in heads ==> LinkReachedIn(lib, store, heads, h, 0);
  }

  lemma LinksAreReached(lib: Library, store: map<Hash, Verdict>, heads: set<Hash>, m: Hash)
    requires LinkReached(lib, store, heads, m) && m in store && store[m].Ok?
    ensures forall p :: p in Links(lib, m) ==> LinkReached(lib, store, heads, p)
  {
    var n: nat :| LinkReachedIn(lib, store, heads, m, n);
    assert forall p :: p in Links(lib, m) ==> LinkReachedIn(lib, store, heads, p, n + 1);
  }

  lemma {:induction false} ReachedIsWalked(lib: Library, store: map<Hash, Verdict>, heads: set<Hash>, walked: seq<Block>, h: Hash, n: nat)
    requires WalkClosed(lib, store, heads, walked) && LinkReachedIn(lib, store, heads, h, n) && h in store
    ensures Block(h, store[h]) in walked
    decreases n
  {
    if n > 0 {
      var m :| LinkReachedIn(lib, store, heads, m, n - 1) && m in store && store[m].Ok? && h in Links(lib, m);
      ReachedIsWalked(lib, store, heads, walked, m, n - 1);
      assert Block(m, store[m]).cid == m;
    }
  }

  /** The walk's bookkeeping. */
  ghost predicate Walking(lib: Library, store: map<Hash, Verdict>, H: set<Hash>,
                          seen: set<Hash>, queue: seq<Hash>, walked: seq<Block>)
  {
    (forall b :: b in walked ==> b.cid in store && b.decodes == store[b.cid] && b.cid in seen) &&
    (forall h :: h in seen && h in store ==> Block(h, store[h]) in walked) &&
    (forall h :: h in H ==> h in seen || h in queue) &&
    (forall b, p :: b in walked && b.decodes.Ok? && p in Links(lib, b.cid) ==> p in seen || p in queue) &&
    (forall h :: h in queue || h in seen ==> LinkReached(lib, store, H, h))
  }

  lemma SkipSeenHash(lib: Library, store: map<Hash, Verdict>, H: set<Hash>,
                     seen: set<Hash>, queue: seq<Hash>, walked: seq<Block>)
    requires Walking(lib, store, H, seen, queue, walked) && queue != [] && queue[0] in seen
    ensures Walking(lib, store, H, seen, queue[1..], walked)
  {
    assert queue == [queue[0]] + queue[1..];
  }

  lemma SkipMissing(lib: Library, store: map<Hash, Verdict>, H: set<Hash>,
                    seen: set<Hash>, queue: seq<Hash>, walked: seq<Block>)
    requires Walking(lib, store, H, seen, queue, walked) && queue != [] && queue[0] !in store
    ensures Walking(lib, store, H, seen + {queue[0]}, queue[1..], walked)
  {
    var hash, rest := queue[0], queue[1..];
    assert queue == [hash] + rest;
    assert forall p :: p in queue <==> p == hash || p in rest;
  }

  lemma TakeBlock(lib: Library, store: map<Hash, Verdict>, H: set<Hash>,
                  seen: set<Hash>, queue: seq<Hash>, walked: seq<Block>)
    requires Walking(lib, store, H, seen, queue, walked) && queue != [] && queue[0] in store
    ensures var hash := queue[0];
            var pushed := if store[hash].Ok? then Links(lib, hash) else [];
            Walking(lib, store, H, seen + {hash}, queue[1..] + pushed, walked + [Block(hash, store[hash])])
  {
    var hash, rest := queue[0], queue[1..];
    var block := Block(hash, store[hash]);
    var pushed := if store[hash].Ok? then Links(lib, hash) else [];
    assert queue == [hash] + rest;
    assert hash in queue;
    if store[hash].Ok? {
      LinksAreReached(lib, store, H, hash);
    }
    assert forall b :: b in walked + [block] <==> b in walked || b == block;
    assert forall p :: p in rest + pushed <==> p in rest || p in pushed;
    assert forall p :: p in queue <==> p in rest || p == hash;
  }

  /** The walk names nothing outside `U`. */
  ghost predicate Inside(U: set<Hash>, seen: set<Hash>, queue: seq<Hash>) {
    seen <= U && forall h :: h in queue ==> h in U
  }

  lemma PopInside(U: set<Hash>, seen: set<Hash>, queue: seq<Hash>)
    requires Inside(U, seen, queue) && queue != []
    ensures queue[0] in U && Inside(U, seen, queue[1..]) && Inside(U, seen + {queue[0]}, queue[1..])
  {
    var hash := queue[0];
    assert queue == [hash] + queue[1..];
    assert hash in queue;
    assert hash in U;
  }

  lemma PushInside(lib: Library, store: map<Hash, Verdict>, H: set<Hash>, seen: set<Hash>, queue: seq<Hash>, hash: Hash)
    requires Inside(Named(lib, store, H), seen, queue) && hash in store
    ensures Inside(Named(lib, store, H), seen, queue + if store[hash].Ok? then Links(lib, hash) else [])
  {
    assert forall p :: p in Links(lib, hash) ==> p in Named(lib, store, H);
  }

  /** The walk collects exactly the stored blocks that links lead to from the heads. */
  method LoadEntryBlocks(lib: Library, store: map<Hash, Verdict>, heads: seq<Hash>) returns (walked: seq<Block>)
    ensures forall b :: b in walked <==>
              b.cid in store && b.decodes == store[b.cid] && LinkReached(lib, store, (set h | h in heads), b.cid)
    ensures Decoded(walked) == Reachable(lib, store, (set h | h in heads))
  {
    ghost var H := set h | h in heads;
    ghost var U := Named(lib, store, H);
    HeadsAreReached(lib, store, H);
    var seen: set<Hash> := {};
    var queue := heads;
    walked := [];
    while queue != []
      invariant Walking(lib, store, H, seen, queue, walked)
      invariant Inside(U, seen, queue)
      decreases U - seen, |queue|
    {
      var hash := queue[0];
      PopInside(U, seen, queue);
      if hash in seen {
        SkipSeenHash(lib, store, H, seen, queue, walked);
        queue := queue[1..];
      } else if hash !in store {
        SkipMissing(lib, store, H, seen, queue, walked);
        seen, queue := seen + {hash}, queue[1..];
      } else {
        TakeBlock(lib, store, H, seen, queue, walked);
        PushInside(lib, store, H, seen + {hash}, queue[1..], hash);
        seen := seen + {hash};
        walked := walked + [Block(hash, store[hash])];
        queue := queue[1..] + if store[hash].Ok? then Links(lib, hash) else [];
      }
    }
    WalkIsOver(lib, store, H, seen, walked);
    WalkedIsReachable(lib, store, H, walked);
  }

  lemma WalkIsOver(lib: Library, store: map<Hash, Verdict>, H: set<Hash>, seen: set<Hash>, walked: seq<Block>)
    requires Walking(lib, store, H, seen, [], walked)
    ensures WalkClosed(lib, store, H, walked)
    ensures forall b :: b in walked ==> b.cid in store && b.decodes == store[b.cid] && LinkReached(lib, store, H, b.cid)
  {
  }

  lemma WalkedIsReachable(lib: Library, store: map<Hash, Verdict>, H: set<Hash>, walked: seq<Block>)
    requires WalkClosed(lib, store, H, walked)
    requires forall b :: b in walked ==> b.cid in store && b.decodes == store[b.cid] && LinkReached(lib, store, H, b.cid)
    ensures forall b :: b in walked <==> b.cid in store && b.decodes == store[b.cid] && LinkReached(lib, store, H, b.cid)
    ensures Decoded(walked) == Reachable(lib, store, H)
  {
    forall b: Block | b.cid in store && b.decodes == store[b.cid] && LinkReached(lib, store, H, b.cid) ensures b in walked {
      var n: nat :| LinkReachedIn(lib, store, H, b.cid, n);
      ReachedIsWalked(lib, store, H, walked, b.cid, n);
      assert b == Block(b.cid, store[b.cid]);
    }
    forall h ensures h in Decoded(walked) <==> h in Reachable(lib, store, H) {
      if h in Reachable(lib, store, H) {
        assert Block(h, Ok).cid == h && Block(h, Ok) in walked;
      }
    }
    assert forall h :: h in Decoded(walked) <==> h in Reachable(lib, store, H);
  }

  // ---- Opening ------------------------------------------------------------

  method BlocksOf(hashes: seq<Hash>) returns (blocks: seq<Block>)
    ensures Decoded(blocks) == (set h | h in hashes) && forall b :: b in blocks ==> b.decodes.Ok?
  {
    blocks := [];
    for i := 0 to |hashes|
      invariant |blocks| == i && forall j :: 0 <= j < i ==> blocks[j] == Block(hashes[j], Ok)
    {
      blocks := blocks + [Block(hashes[i], Ok)];
    }
    forall h ensures h in Decoded(blocks) <==> h in hashes {
      if h in hashes {
        var j :| 0 <= j < |hashes| && hashes[j] == h;
        assert blocks[j] in blocks;
      }
    }
    assert forall h :: h in Decoded(blocks) <==> h in (set x | x in hashes);
  }

  datatype Source = Restored | Verified | Walked

  /** `P` is a valid log with the persisted heads whose blocks are all stored. */
  ghost predicate Persisted(lib: Library, store: map<Hash, Verdict>, heads: set<Hash>, P: set<Hash>) {
    Valid(lib, P) && Heads(lib, P) == heads && forall h :: h in P ==> h in store && store[h].Ok?
  }

  /** No entry outside `P` that any valid log holds is reached, with all its past, by
      the links of stored entries. */
  ghost predicate NothingElseReached(lib: Library, store: map<Hash, Verdict>, heads: set<Hash>, P: set<Hash>) {
    var found := Reachable(lib, store, heads);
    forall h :: Complete(lib, found, h) ==> h in P
  }

  /** References stay inside `P`. */
  ghost predicate RefsInside(lib: Library, P: set<Hash>) {
    forall h, p :: h in P && p in EntryOf(lib, h).refs ==> p in P
  }

  /** A new log filled from blocks. */
  method OpenFrom(lib: Library, blocks: seq<Block>, restore: bool, ghost vouched: set<Hash>)
    returns (oplog: Oplog, rejected: seq<Rejection>)
    requires restore ==> Valid(lib, vouched) && Decoded(blocks) <= vouched
    ensures fresh(oplog) && oplog.lib == lib && oplog.Consistent()
    ensures oplog.entries.Keys == Merged(lib, {}, Decoded(blocks)) && Valid(lib, oplog.entries.Keys)
    ensures oplog.heads == Heads(lib, oplog.entries.Keys)
    ensures Explains(lib, blocks, oplog.entries.Keys, rejected)
  {
    oplog := new Oplog(lib);
    ghost var none := oplog.entries.Keys;
    assert none == {};
    var merged, inert, keys;
    merged, rejected, inert, keys := InsertBlocks(oplog, blocks, restore, vouched);
  }

  /** Takes the log from the cache if it reproduces the persisted heads: the log
      its watermark vouches for when trusted, else the cached blocks verified. */
  method FromCache(lib: Library, cache: EntryBlockCache, heads: set<Hash>, ghost V: set<Hash>)
    returns (oplog: Oplog, trusted: bool, reproduced: bool)
    requires cache.Vouches(lib, V)
    ensures fresh(oplog) && oplog.lib == lib && oplog.Consistent()
    ensures reproduced ==> oplog.heads == heads && oplog.entries.Keys == set h | h in cache.blocks
    ensures reproduced && trusted ==> oplog.entries.Keys == V
    ensures trusted <==> cache.verified == Some(Watermark(heads, RULES_VERSION))
    ensures reproduced <==>
              var B := set h | h in cache.blocks;
              Merged(lib, {}, B) == B && Heads(lib, B) == heads
  {
    var blocks := BlocksOf(cache.blocks);
    trusted := cache.verified == Some(Watermark(heads, RULES_VERSION));
    var rejected;
    oplog, rejected := OpenFrom(lib, blocks, trusted, V);
    reproduced := rejected == [] && oplog.heads == heads;
    NothingRejected(lib, blocks, oplog.entries.Keys, rejected);
    if reproduced {
      if trusted {
        ReproducedLog(lib, oplog.entries.Keys, V);
      }
    }
  }

  /** Opens the log at the persisted heads. Read from the cache it is the log that has
      those heads: a trusted cache is not verified again, yet it is exactly the log
      its watermark vouches for. Walked from the block store it holds that log, and is
      that log exactly when references lead to no further valid entry. */
  method LoadOplog(lib: Library, cache: EntryBlockCache, heads: seq<Hash>, store: map<Hash, Verdict>,
                   ghost V: set<Hash>, ghost P: set<Hash>)
    returns (oplog: Oplog, source: Source)
    requires cache.Vouches(lib, V)
    modifies cache
    ensures fresh(oplog) && oplog.lib == lib && oplog.Consistent()
    ensures source.Restored? ==> oplog.entries.Keys == V
    ensures cache.Within(oplog.entries.Keys) && cache.Vouches(lib, oplog.entries.Keys)
    ensures Persisted(lib, store, (set h | h in heads), P) ==>
              P <= oplog.entries.Keys && (!source.Walked? || RefsInside(lib, P) ==> oplog.entries.Keys == P) &&
              (source.Walked? ==>
                 (oplog.entries.Keys == P <==> NothingElseReached(lib, store, (set h | h in heads), P)))
    ensures source.Walked? ==> oplog.entries.Keys == Merged(lib, {}, Reachable(lib, store, (set h | h in heads)))
  {
    ghost var H := set h | h in heads;
    var trusted, reproduced;
    oplog, trusted, reproduced := FromCache(lib, cache, (set h | h in heads), V);
    if reproduced {
      if Persisted(lib, store, H, P) {
        ReproducedLog(lib, oplog.entries.Keys, P);
      }
      if trusted {
        source := Restored;
      } else {
        cache.MarkVerified(oplog);
        source := Verified;
      }
      return;
    }
    oplog := WalkLog(lib, heads, store, P);
    var all := AllEntries(oplog);
    cache.Replace(oplog, all);
    source := Walked;
  }

  method WalkLog(lib: Library, heads: seq<Hash>, store: map<Hash, Verdict>, ghost P: set<Hash>) returns (oplog: Oplog)
    ensures fresh(oplog) && oplog.lib == lib && oplog.Consistent()
    ensures Persisted(lib, store, (set h | h in heads), P) ==>
              P <= oplog.entries.Keys && (RefsInside(lib, P) ==> oplog.entries.Keys == P) &&
              (oplog.entries.Keys == P <==> NothingElseReached(lib, store, (set h | h in heads), P))
    ensures oplog.entries.Keys == Merged(lib, {}, Reachable(lib, store, (set h | h in heads)))
  {
    var walked := LoadEntryBlocks(lib, store, heads);
    var rejected;
    oplog, rejected := OpenFrom(lib, walked, false, {});
    ghost var H := set h | h in heads;
    if Persisted(lib, store, H, P) {
      WalkedLog(lib, store, H, P);
    }
  }

  method AllEntries(oplog: Oplog) returns (all: seq<Hash>)
    ensures forall h :: h in all <==> h in oplog.entries
  {
    all := Listed(oplog.entries.Keys);
  }

  lemma NothingRejected(lib: Library, blocks: seq<Block>, E: set<Hash>, rejected: seq<Rejection>)
    requires Explains(lib, blocks, E, rejected) && E == Merged(lib, {}, Decoded(blocks))
    requires forall b :: b in blocks ==> b.decodes.Ok?
    ensures rejected == [] <==> E == Decoded(blocks)
  {
    assert rejected != [] ==> rejected[0] in rejected;
    if rejected == [] {
      assert forall h :: h in Decoded(blocks) ==> h in E;
      assert forall h :: h in E ==> h in Decoded(blocks);
    }
  }

  lemma ReproducedLog(lib: Library, E: set<Hash>, P: set<Hash>)
    requires Valid(lib, E) && Valid(lib, P) && Heads(lib, P) == Heads(lib, E)
    ensures E == P
  {
    ValidIsGrounded(lib, E);
    ValidIsGrounded(lib, P);
    HeadsDetermineLog(lib, E, P);
  }

  /** A walk from the heads of a stored log delivers that log, and no more exactly
      when nothing else is reached; references inside the log are enough for that. */
  lemma WalkedLog(lib: Library, store: map<Hash, Verdict>, heads: set<Hash>, P: set<Hash>)
    requires Persisted(lib, store, heads, P)
    ensures var M := Merged(lib, {}, Reachable(lib, store, heads));
            P <= M && (M == P <==> NothingElseReached(lib, store, heads, P)) && (RefsInside(lib, P) ==> M == P)
  {
    var found := Reachable(lib, store, heads);
    assert Valid(lib, {});
    ValidIsGrounded(lib, P);
    forall x | x in P ensures x in found {
      StoredLogIsReached(lib, store, heads, P, x);
    }
    forall h | h in P ensures h in Merged(lib, {}, found) {
      ValidIsMerged(lib, {}, found, P, h);
    }
    assert {} + found == found;
    forall h ensures h in Merged(lib, {}, found) <==> Complete(lib, found, h) {
      MergedExactly(lib, {}, found, h);
    }
    if RefsInside(lib, P) {
      forall h | h in found ensures h in P {
        var n: nat :| LinkReachedIn(lib, store, heads, h, n);
        ReachedStaysInLog(lib, store, heads, P, h, n);
      }
    }
  }

  /** An entry whose reference leads out of the log: the walk brings in what it names. */
  lemma ReferenceLeadsOut() returns (lib: Library, store: map<Hash, Verdict>, P: set<Hash>)
    ensures Persisted(lib, store, Heads(lib, P), P)
    ensures Merged(lib, {}, Reachable(lib, store, Heads(lib, P))) != P
  {
    var one: Hash, two: Hash := 1, 2;
    lib := Library(ListensLibrary, {0}, h => Entry(0, [], if h == 1 then [2] else [], 1, 0, Listen),
                   h => Ok, h => Ok, h => true, (f, s) => true);
    store, P := map[one := Ok, two := Ok], {one};
    assert MaxTime(lib, []) == 0;
    assert Valid(lib, P) && Valid(lib, {two});
    assert one in Heads(lib, P);
    HeadsAreReached(lib, store, Heads(lib, P));
    LinksAreReached(lib, store, Heads(lib, P), one);
    assert two in Links(lib, one);
    var found := Reachable(lib, store, Heads(lib, P));
    assert two in found && two !in P;
    assert two in {two} && Admissible(lib, two);
    assert forall a :: !InPast(lib, a, two);
    assert Complete(lib, found, two);
    MergedExactly(lib, {}, found, two);
    assert {} + found == found;
    assert two in Merged(lib, {}, found);
  }

  lemma {:induction false} ReachedStaysInLog(lib: Library, store: map<Hash, Verdict>, heads: set<Hash>, P: set<Hash>, h: Hash, n: nat)
    requires Clocked(lib, P) && Heads(lib, P) == heads && RefsInside(lib, P) && LinkReachedIn(lib, store, heads, h, n)
    ensures h in P
    decreases n
  {
    if n > 0 {
      var m :| LinkReachedIn(lib, store, heads, m, n - 1) && m in store && store[m].Ok? && h in Links(lib, m);
      ReachedStaysInLog(lib, store, heads, P, m, n - 1);
    }
  }

  lemma StoredLogIsReached(lib: Library, store: map<Hash, Verdict>, heads: set<Hash>, P: set<Hash>, h: Hash)
    requires Clocked(lib, P) && Heads(lib, P) == heads && h in P
    requires forall x :: x in P ==> x in store && store[x].Ok?
    ensures h in Reachable(lib, store, heads)
  {
    var head := EntryReachesHead(lib, P, h);
    HeadsAreReached(lib, store, heads);
    if head != h {
      PastIsLinkReached(lib, store, heads, P, h, head);
    }
  }

  lemma {:induction false} PastIsLinkReached(lib: Library, store: map<Hash, Verdict>, heads: set<Hash>, P: set<Hash>, a: Hash, h: Hash)
    requires Clocked(lib, P) && h in P && InPast(lib, a, h) && LinkReached(lib, store, heads, h)
    requires forall x :: x in P ==> x in store && store[x].Ok?
    ensures LinkReached(lib, store, heads, a)
    decreases Time(lib, h)
  {
    var p :| p in Next(lib, h) && Time(lib, p) < Time(lib, h) && (p == a || InPast(lib, a, p));
    LinksAreReached(lib, store, heads, h);
    assert p in Links(lib, h);
    if p != a {
      PastIsLinkReached(lib, store, heads, P, a, p);
    }
  }
}
