/** Pin accounting: what a pin covers, the walk that finds it, and the tables of
    counts that pins and unpins change. */
module Pins {
  import opened Wrappers

  type Cid = int

  /** Content-addressed blocks: which are raw leaves, which of the others decode under
      a supported codec, and what those link to. */
  datatype Content = Content(links: Cid -> seq<Cid>, raw: Cid -> bool, decodes: Cid -> bool)

  /** A walk need not read the block for its links, or can. */
  predicate Readable(content: Content, recursive: bool, c: Cid) {
    !recursive || content.raw(c) || content.decodes(c)
  }

  /** The blocks a walk goes on to from `c`. */
  function Children(content: Content, recursive: bool, c: Cid): seq<Cid> {
    if !recursive || content.raw(c) || !content.decodes(c) then [] else content.links(c)
  }

  /** `b` is reached from `root` in `n` links. */
  ghost predicate CoversIn(content: Content, recursive: bool, root: Cid, b: Cid, n: nat)
    decreases n
  {
    if n == 0 then b == root
    else exists m :: CoversIn(content, recursive, root, m, n - 1) && b in Children(content, recursive, m)
  }

  /** A pin on `root` covers `b`: some number of links, none for a direct pin, leads to it. */
  ghost predicate Covers(content: Content, recursive: bool, root: Cid, b: Cid) {
    exists n: nat :: CoversIn(content, recursive, root, b, n)
  }

  lemma CoversRoot(content: Content, recursive: bool, root: Cid)
    ensures Covers(content, recursive, root, root)
  {
    assert CoversIn(content, recursive, root, root, 0);
  }

  lemma CoversChild(content: Content, recursive: bool, root: Cid, m: Cid, b: Cid)
    requires Covers(content, recursive, root, m) && b in Children(content, recursive, m)
    ensures Covers(content, recursive, root, b)
  {
    var n: nat :| CoversIn(content, recursive, root, m, n);
    assert CoversIn(content, recursive, root, b, n + 1);
  }

  lemma {:induction false} DirectCoversOnlyRoot(content: Content, root: Cid, b: Cid, n: nat)
    requires CoversIn(content, false, root, b, n)
    ensures b == root
    decreases n
  {
  }

  /** With every block that is no raw leaf and decodes, `S` holds what it links to. */
  ghost predicate LinksWithin(content: Content, S: iset<Cid>) {
    forall m, b :: m in S && !content.raw(m) && content.decodes(m) && b in content.links(m) ==> b in S
  }

  /** A direct pin covers its root alone. A recursive pin covers the least set that holds
      its root and, with every block, all that block links to. */
  lemma CoverExactly(content: Content, root: Cid)
    ensures forall b :: Covers(content, false, root, b) <==> b == root
    ensures Covers(content, true, root, root)
    ensures forall m, b :: Covers(content, true, root, m) && !content.raw(m) && content.decodes(m) && b in content.links(m) ==>
              Covers(content, true, root, b)
    ensures forall S: iset<Cid> :: root in S && LinksWithin(content, S) ==> forall b :: Covers(content, true, root, b) ==> b in S
  {
    CoversRoot(content, false, root);
    CoversRoot(content, true, root);
    forall b | Covers(content, false, root, b) ensures b == root {
      var n: nat :| CoversIn(content, false, root, b, n);
      DirectCoversOnlyRoot(content, root, b, n);
    }
    forall m, b | Covers(content, true, root, m) && !content.raw(m) && content.decodes(m) && b in content.links(m)
      ensures Covers(content, true, root, b)
    {
      CoversChild(content, true, root, m, b);
    }
    forall S: iset<Cid>, b | root in S && LinksWithin(content, S) && Covers(content, true, root, b) ensures b in S {
      var n: nat :| CoversIn(content, true, root, b, n);
      CoverStaysWithin(content, root, S, b, n);
    }
  }

  lemma {:induction false} CoverStaysWithin(content: Content, root: Cid, S: iset<Cid>, b: Cid, n: nat)
    requires root in S && LinksWithin(content, S) && CoversIn(content, true, root, b, n)
    ensures b in S
    decreases n
  {
    if n > 0 {
      var m :| CoversIn(content, true, root, m, n - 1) && b in Children(content, true, m);
      CoverStaysWithin(content, root, S, m, n - 1);
    }
  }

  // ---- The tables ---------------------------------------------------------

  type Counts = map<Cid, nat>

  function Get(counts: Counts, b: Cid): nat { if b in counts then counts[b] else 0 }

  ghost predicate Positive(counts: Counts) { forall b :: b in counts ==> counts[b] > 0 }

  function Reference(counts: Counts, b: Cid): Counts { counts[b := Get(counts, b) + 1] }

  /** Decrements a count and drops the row when it is released. */
  function Dereference(counts: Counts, b: Cid): Counts {
    if b !in counts then counts
    else if counts[b] <= 1 then counts - {b}
    else counts[b := counts[b] - 1]
  }

  function ReferenceAll(counts: Counts, blocks: seq<Cid>): Counts {
    if blocks == [] then counts else Reference(ReferenceAll(counts, blocks[..|blocks| - 1]), blocks[|blocks| - 1])
  }

  function DereferenceAll(counts: Counts, blocks: seq<Cid>): Counts {
    if blocks == [] then counts else Dereference(DereferenceAll(counts, blocks[..|blocks| - 1]), blocks[|blocks| - 1])
  }

  ghost predicate Unrepeated(s: seq<Cid>) { forall i, j :: 0 <= i < j < |s| ==> s[i] != s[j] }

  lemma {:induction false} ReferenceAllAdds(counts: Counts, blocks: seq<Cid>)
    requires Positive(counts) && Unrepeated(blocks)
    ensures Positive(ReferenceAll(counts, blocks))
    ensures forall b :: Get(ReferenceAll(counts, blocks), b) == Get(counts, b) + if b in blocks then 1 else 0
    decreases |blocks|
  {
    if blocks != [] {
      var n := |blocks| - 1;
      ReferenceAllAdds(counts, blocks[..n]);
      assert blocks == blocks[..n] + [blocks[n]];
      assert blocks[n] !in blocks[..n];
    }
  }

  lemma {:induction false} DereferenceAllSubtracts(counts: Counts, blocks: seq<Cid>)
    requires Positive(counts) && Unrepeated(blocks) && forall b :: b in blocks ==> b in counts
    ensures Positive(DereferenceAll(counts, blocks))
    ensures forall b :: Get(DereferenceAll(counts, blocks), b) == Get(counts, b) - if b in blocks then 1 else 0
    decreases |blocks|
  {
    if blocks != [] {
      var n := |blocks| - 1;
      DereferenceAllSubtracts(counts, blocks[..n]);
      assert blocks == blocks[..n] + [blocks[n]];
      assert blocks[n] !in blocks[..n];
    }
  }

  /** The two tables of the index file; each method is one transaction. */
  class PinTables {
    var counts: Counts
    var roots: map<Cid, bool>

    constructor ()
      ensures counts == map[] && roots == map[]
    {
      counts, roots := map[], map[];
    }

    /** Counts every covered block once more, except the root a direct pin already counts. */
    method CommitPin(root: Cid, recursive: bool, kind: Option<bool>, covered: seq<Cid>)
      requires covered != []
      modifies this
      ensures counts == ReferenceAll(old(counts), if kind == Some(false) then covered[1..] else covered)
      ensures roots == old(roots)[root := recursive]
    {
      var blocks := if kind == Some(false) then covered[1..] else covered;
      for i := 0 to |blocks|
        invariant counts == ReferenceAll(old(counts), blocks[..i])
        modifies this`counts
      {
        assert blocks[..i + 1][..i] == blocks[..i];
        counts := counts[blocks[i] := Get(counts, blocks[i]) + 1];
      }
      assert blocks[..|blocks|] == blocks;
      roots := roots[root := recursive];
    }

    method CommitUnpin(root: Cid, covered: seq<Cid>)
      modifies this
      ensures counts == DereferenceAll(old(counts), covered) && roots == old(roots) - {root}
    {
      roots := roots - {root};
      for i := 0 to |covered|
        invariant counts == DereferenceAll(old(counts), covered[..i])
        modifies this`counts
      {
        assert covered[..i + 1][..i] == covered[..i];
        var b := covered[i];
        if b in counts {
          if counts[b] <= 1 {
            counts := counts - {b};
          } else {
            counts := counts[b := counts[b] - 1];
          }
        }
      }
      assert covered[..|covered|] == covered;
    }
  }

  // ---- The walk -----------------------------------------------------------

  /** A walk in progress: the blocks visited, root first, and those still to visit. */
  datatype Walk = Walk(visited: seq<Cid>, pending: seq<Cid>)

  function StartWalk(root: Cid): Walk { Walk([], [root]) }

  /** Visits the next block; it must be stored unless it was visited before. */
  function VisitNext(content: Content, recursive: bool, w: Walk): Walk
    requires w.pending != []
  {
    var next := w.pending[0];
    if next in w.visited then w.(pending := w.pending[1..])
    else Walk(w.visited + [next], Children(content, recursive, next) + w.pending[1..])
  }

  ghost predicate WalkOk(content: Content, recursive: bool, root: Cid, w: Walk) {
    Unrepeated(w.visited) && (w.visited == [] ==> w.pending == [root]) && (w.visited != [] ==> w.visited[0] == root) &&
    (forall b :: b in w.visited ==> Readable(content, recursive, b)) &&
    (forall b :: b in w.visited || b in w.pending ==> Covers(content, recursive, root, b)) &&
    (forall m, b :: m in w.visited && b in Children(content, recursive, m) ==> b in w.visited || b in w.pending)
  }

  lemma StartWalkOk(content: Content, recursive: bool, root: Cid)
    ensures WalkOk(content, recursive, root, StartWalk(root))
  {
    CoversRoot(content, recursive, root);
  }

  lemma VisitNextOk(content: Content, recursive: bool, root: Cid, w: Walk)
    requires WalkOk(content, recursive, root, w) && w.pending != []
    requires w.pending[0] in w.visited || Readable(content, recursive, w.pending[0])
    ensures WalkOk(content, recursive, root, VisitNext(content, recursive, w))
  {
    var next := w.pending[0];
    assert w.pending == [next] + w.pending[1..];
    assert next in w.pending;
    if next !in w.visited {
      forall b | b in Children(content, recursive, next) ensures Covers(content, recursive, root, b) {
        CoversChild(content, recursive, root, next, b);
      }
    }
  }

  lemma {:induction false} FinishedWalkHolds(content: Content, recursive: bool, root: Cid, w: Walk, b: Cid, n: nat)
    requires WalkOk(content, recursive, root, w) && w.pending == [] && CoversIn(content, recursive, root, b, n)
    ensures b in w.visited
    decreases n
  {
    if n == 0 {
      assert w.visited[0] in w.visited;
    } else {
      var m :| CoversIn(content, recursive, root, m, n - 1) && b in Children(content, recursive, m);
      FinishedWalkHolds(content, recursive, root, w, m, n - 1);
    }
  }

  /** A finished walk lists exactly the cover, each block once, and has read all it had to. */
  lemma FinishedWalkIsCover(content: Content, recursive: bool, root: Cid, w: Walk)
    requires WalkOk(content, recursive, root, w) && w.pending == []
    ensures forall b :: b in w.visited <==> Covers(content, recursive, root, b)
    ensures forall b :: Covers(content, recursive, root, b) ==> Readable(content, recursive, b)
  {
    forall b | Covers(content, recursive, root, b) ensures b in w.visited {
      var n: nat :| CoversIn(content, recursive, root, b, n);
      FinishedWalkHolds(content, recursive, root, w, b, n);
    }
  }

  lemma OnlyOne(s: seq<Cid>, root: Cid)
    requires Unrepeated(s) && s != [] && forall b :: b in s <==> b == root
    ensures s == [root]
  {
    assert |s| >= 2 ==> s[0] != s[1];
    forall i | 0 <= i < |s| ensures s[i] == root {
      assert s[i] in s;
    }
  }

  /** The walk over a store that does not change meanwhile: the cover, root first,
      or None when a covered block is missing or its links cannot be read. */
  method WalkBlocks(content: Content, stored: set<Cid>, root: Cid, recursive: bool) returns (covered: Option<seq<Cid>>)
    ensures covered.Some? ==> Unrepeated(covered.value) && covered.value != [] && covered.value[0] == root
    ensures covered.Some? ==> forall b :: b in covered.value <==> Covers(content, recursive, root, b)
    ensures covered.Some? && !recursive ==> covered.value == [root]
    ensures covered.Some? && recursive ==>
              (forall m, b :: m in covered.value && !content.raw(m) && b in content.links(m) ==> b in covered.value) &&
              forall S: iset<Cid> :: root in S && LinksWithin(content, S) ==> forall b :: b in covered.value ==> b in S
    ensures covered.Some? <==>
              forall b :: Covers(content, recursive, root, b) ==> b in stored && Readable(content, recursive, b)
  {
    var w := StartWalk(root);
    StartWalkOk(content, recursive, root);
    while w.pending != []
      invariant WalkOk(content, recursive, root, w) && forall b :: b in w.visited ==> b in stored
      decreases stored - (set b | b in w.visited), |w.pending|
    {
      var next := w.pending[0];
      assert next in w.pending;
      if next !in w.visited && (next !in stored || !Readable(content, recursive, next)) {
        assert Covers(content, recursive, root, next);
        return None;
      }
      VisitNextOk(content, recursive, root, w);
      if next !in w.visited {
        assert next in stored - (set b | b in w.visited);
        assert next in w.visited + [next];
      }
      w := VisitNext(content, recursive, w);
    }
    FinishedWalkIsCover(content, recursive, root, w);
    CoverExactly(content, root);
    assert !recursive ==> w.visited == [root] by {
      if !recursive {
        OnlyOne(w.visited, root);
      }
    }
    return Some(w.visited);
  }
}
