/** Merging a batch of blocks into a log, and the trusted restore of a cache. */
module Merging {
  import opened Entries
  import opened Log
  import opened Convergence
  import opened Refresh
  import opened Sorting
  import opened Oplogs

  /** A block as received: the hash of its bytes and whether it decodes. */
  datatype Block = Block(cid: Hash, decodes: Verdict)

  datatype Rejection = Rejection(hash: Hash, code: ErrorCode)

  ghost function Decoded(blocks: seq<Block>): set<Hash> {
    set b | b in blocks && b.decodes.Ok? :: b.cid
  }

  /** The rejections are the blocks that do not decode, and the decoded entries
      the merged log refuses, each with the code that log refuses it with. */
  ghost predicate Explains(lib: Library, blocks: seq<Block>, M: set<Hash>, rejected: seq<Rejection>) {
    (forall r :: r in rejected ==>
      Block(r.hash, Fail(r.code)) in blocks ||
      (r.hash in Decoded(blocks) && r.hash !in M && Accept(lib, M, r.hash) == Fail(r.code))) &&
    (forall h :: h in Decoded(blocks) && h !in M ==> exists r :: r in rejected && r.hash == h) &&
    (forall b :: b in blocks && b.decodes.Fail? ==> Rejection(b.cid, b.decodes.code) in rejected)
  }

  /** Splits a batch into entries not yet held and blocks that do not decode. */
  method Decode(oplog: Oplog, blocks: seq<Block>) returns (decoded: seq<Hash>, rejected: seq<Rejection>)
    ensures forall h :: h in decoded <==> h in Decoded(blocks) && h !in oplog.entries
    ensures forall r :: r in rejected <==> Block(r.hash, Fail(r.code)) in blocks
  {
    decoded, rejected := [], [];
    for i := 0 to |blocks|
      invariant forall h :: h in decoded <==> h in Decoded(blocks[..i]) && h !in oplog.entries
      invariant forall r :: r in rejected <==> Block(r.hash, Fail(r.code)) in blocks[..i]
    {
      var block := blocks[i];
      assert blocks[..i + 1] == blocks[..i] + [block];
      assert forall h :: h in Decoded(blocks[..i + 1]) <==> h in Decoded(blocks[..i]) || (block.decodes.Ok? && h == block.cid);
      match block.decodes
      case Fail(code) => rejected := rejected + [Rejection(block.cid, code)];
      case Ok =>
        if block.cid !in oplog.entries {
          decoded := decoded + [block.cid];
        }
    }
    assert blocks[..|blocks|] == blocks;
  }

  /** One entry's admission check: full verification, or the restore check for an
      entry a verified log `vouched` holds. */
  method Admit(oplog: Oplog, restore: bool, h: Hash, ghost vouched: set<Hash>) returns (verdict: Verdict)
    requires oplog.Addressed() && Valid(oplog.lib, oplog.entries.Keys)
    requires oplog.revocations == RevocationsIn(oplog.lib, oplog.entries.Keys)
    requires restore ==> Valid(oplog.lib, vouched) && oplog.entries.Keys <= vouched && h in vouched
    ensures verdict == Accept(oplog.lib, oplog.entries.Keys, h)
  {
    if restore {
      RestoreAgreesWithVerify(oplog.lib, vouched, oplog.entries.Keys, h);
      verdict := oplog.RestoreEntry(h);
    } else {
      verdict := oplog.VerifyEntry(h);
    }
  }

  lemma InClockOrder(lib: Library, E: set<Hash>, B: set<Hash>, S: set<Hash>, sorted: seq<Hash>, i: nat)
    requires i < |sorted| && Ordered(lib, ToMerge, sorted)
    requires E <= S && forall h :: h in sorted <==> h in B && h !in E
    requires forall h :: h in sorted[..i] && h in Merged(lib, E, B) ==> h in S
    ensures forall p :: p in Merged(lib, E, B) && Time(lib, p) < Time(lib, sorted[i]) ==> p in S
  {
    forall p | p in Merged(lib, E, B) && Time(lib, p) < Time(lib, sorted[i]) ensures p in S {
      if p !in E {
        var j :| 0 <= j < |sorted| && sorted[j] == p;
        assert j < i;
        assert p == sorted[..i][j];
      }
    }
  }

  /** Verifies and inserts the decoded entries in clock order. */
  method InsertInOrder(oplog: Oplog, sorted: seq<Hash>, restore: bool, ghost B: set<Hash>, ghost vouched: set<Hash>)
    returns (merged: seq<Hash>, refused: seq<Rejection>)
    requires oplog.Indexed() && Valid(oplog.lib, oplog.entries.Keys)
    requires Ordered(oplog.lib, ToMerge, sorted)
    requires forall h :: h in sorted <==> h in B && h !in oplog.entries
    requires restore ==> Valid(oplog.lib, vouched) && oplog.entries.Keys + B <= vouched
    modifies oplog`entries, oplog`heads, oplog`referenced, oplog`keyEntries
    modifies oplog`capabilities, oplog`revocations, oplog`delegated
    ensures oplog.Indexed() && oplog.entries.Keys == Merged(oplog.lib, old(oplog.entries.Keys), B)
    ensures forall h :: h in merged <==> h in oplog.entries && h !in old(oplog.entries)
    ensures forall r :: r in refused ==>
              r.hash in B && r.hash !in oplog.entries && Accept(oplog.lib, oplog.entries.Keys, r.hash) == Fail(r.code)
    ensures forall h :: h in B && h !in oplog.entries ==> exists r :: r in refused && r.hash == h
  {
    ghost var lib, E := oplog.lib, oplog.entries.Keys;
    ghost var M := Merged(lib, E, B);
    MergedIsValid(lib, E, B);
    merged, refused := [], [];
    for i := 0 to |sorted|
      invariant oplog.Indexed() && Valid(lib, oplog.entries.Keys)
      invariant E <= oplog.entries.Keys <= M
      invariant forall h :: h in sorted[..i] && h in M ==> h in oplog.entries
      invariant forall h :: h in merged <==> h in oplog.entries && h !in E
      invariant forall r :: r in refused ==> r.hash in B && r.hash !in M && Accept(lib, M, r.hash) == Fail(r.code)
      invariant forall h :: h in sorted[..i] && h !in M ==> exists r :: r in refused && r.hash == h
    {
      var h := sorted[i];
      assert h in sorted && sorted[..i + 1] == sorted[..i] + [h];
      if h !in oplog.entries {
        var verdict := Admit(oplog, restore, h, vouched);
        match verdict
        case Ok =>
          AcceptedStep(lib, E, B, oplog.entries.Keys, h);
          var _ := oplog.InsertEntry(h);
          merged := merged + [h];
        case Fail(code) =>
          InClockOrder(lib, E, B, oplog.entries.Keys, sorted, i);
          RefusedStep(lib, E, B, oplog.entries.Keys, h);
          var rejection := Rejection(h, code);
          assert rejection in refused + [rejection];
          refused := refused + [rejection];
      }
    }
    assert sorted[..|sorted|] == sorted;
    assert oplog.entries.Keys == M;
  }

  /** `merge_entries` and, with `restore`, `restore_entries`: the log becomes the
      merged log of the batch's decoded entries, in whatever order the batch
      lists them, and every derived part follows it. A restore reaches the same
      log as full verification would, given that a valid log holds the blocks. */
  method InsertBlocks(oplog: Oplog, blocks: seq<Block>, restore: bool, ghost vouched: set<Hash>)
    returns (merged: seq<Hash>, rejected: seq<Rejection>, inert: seq<Hash>, keys: set<StateKey>)
    requires oplog.Consistent()
    requires restore ==> Valid(oplog.lib, vouched) && oplog.entries.Keys + Decoded(blocks) <= vouched
    modifies oplog
    ensures oplog.Consistent()
    ensures oplog.entries.Keys == Merged(oplog.lib, old(oplog.entries.Keys), Decoded(blocks))
    ensures forall h :: h in oplog.entries ==> SelfChecked(oplog.lib, h)
    ensures forall h :: h in merged <==> h in oplog.entries && h !in old(oplog.entries)
    ensures Explains(oplog.lib, blocks, oplog.entries.Keys, rejected)
    ensures forall h :: h in inert <==> h in oplog.inert && h !in old(oplog.inert)
    ensures forall k :: k in keys <==> Rejudged(oplog.lib, old(oplog.inert), oplog.inert, k)
    ensures forall k :: Moved(old(oplog.current), oplog.current, k) ==> Touches(oplog.lib, merged, keys, k)
  {
    var decoded, undecoded := Decode(oplog, blocks);
    ghost var before, B := oplog.entries.Keys, Decoded(blocks);
    var sorted := Sort(oplog.lib, ToMerge, decoded);
    SameElements(sorted, decoded);
    var refused;
    merged, refused := InsertInOrder(oplog, sorted, restore, B, vouched);
    MergedIsValid(oplog.lib, before, B);
    rejected := undecoded + refused;
    assert Explains(oplog.lib, blocks, oplog.entries.Keys, rejected) by {
      Explained(oplog.lib, blocks, oplog.entries.Keys, undecoded, refused);
    }
    inert, keys := oplog.Settle(merged, before);
    MembersAreChecked(oplog.lib, oplog.entries.Keys);
  }

  lemma Explained(lib: Library, blocks: seq<Block>, M: set<Hash>, undecoded: seq<Rejection>, refused: seq<Rejection>)
    requires forall r :: r in undecoded <==> Block(r.hash, Fail(r.code)) in blocks
    requires forall r :: r in refused ==> r.hash in Decoded(blocks) && r.hash !in M && Accept(lib, M, r.hash) == Fail(r.code)
    requires forall h :: h in Decoded(blocks) && h !in M ==> exists r :: r in refused && r.hash == h
    ensures Explains(lib, blocks, M, undecoded + refused)
  {
    forall b | b in blocks && b.decodes.Fail? ensures Rejection(b.cid, b.decodes.code) in undecoded + refused {
      var r := Rejection(b.cid, b.decodes.code);
      assert Block(r.hash, Fail(r.code)) == b;
    }
    forall h | h in Decoded(blocks) && h !in M ensures exists r :: r in undecoded + refused && r.hash == h {
      var r :| r in refused && r.hash == h;
      assert r in undecoded + refused;
    }
  }

  // ---- The object-level consequences --------------------------------------

  /** Two consistent logs of one library that hold the same entries agree on
      heads, effective revocations, inert entries and current state. */
  lemma SameEntriesSameState(a: Oplog, b: Oplog)
    requires a.lib == b.lib && a.Consistent() && b.Consistent()
    requires a.entries.Keys == b.entries.Keys
    ensures a.entries == b.entries && a.heads == b.heads && a.effective == b.effective && a.inert == b.inert
    ensures a.current == b.current
  {
    assert forall h :: h in a.entries ==> a.entries[h] == b.entries[h];
    CurrentIsUnique(a.lib, a.entries.Keys, a.inert, a.current, b.current);
  }

  /** Two consistent logs with the same heads are the same log. */
  lemma SameHeadsSameState(a: Oplog, b: Oplog)
    requires a.lib == b.lib && a.Consistent() && b.Consistent() && a.heads == b.heads
    ensures a.entries == b.entries && a.effective == b.effective && a.inert == b.inert && a.current == b.current
  {
    ValidIsGrounded(a.lib, a.entries.Keys);
    ValidIsGrounded(b.lib, b.entries.Keys);
    HeadsDetermineLog(a.lib, a.entries.Keys, b.entries.Keys);
    SameEntriesSameState(a, b);
  }
}
