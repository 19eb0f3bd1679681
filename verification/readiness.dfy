/** Which fetched entries may merge: those whose whole `next` closure is landed
    or waiting, decided by an iterative walk that tolerates cycles. */
module Readiness {
  import opened Entries

  /** `h` is ready by at most `n` nested appeals to its waiting parents. */
  ghost predicate ReadyIn(lib: Library, W: set<Hash>, L: set<Hash>, h: Hash, n: nat)
    decreases n
  {
    h in L || (n > 0 && h in W && forall p :: p in Next(lib, h) ==> ReadyIn(lib, W, L, p, n - 1))
  }

  /** The least set with: a landed entry is ready, and so is a waiting one whose
      parents all are. */
  ghost predicate Ready(lib: Library, W: set<Hash>, L: set<Hash>, h: Hash) {
    exists n: nat :: ReadyIn(lib, W, L, h, n)
  }

  lemma {:induction false} ReadyInGrows(lib: Library, W: set<Hash>, L: set<Hash>, h: Hash, n: nat, m: nat)
    requires ReadyIn(lib, W, L, h, n) && n <= m
    ensures ReadyIn(lib, W, L, h, m)
    decreases n
  {
    if h !in L {
      forall p | p in Next(lib, h) ensures ReadyIn(lib, W, L, p, m - 1) {
        ReadyInGrows(lib, W, L, p, n - 1, m - 1);
      }
    }
  }

  lemma {:induction false} CommonBound(lib: Library, W: set<Hash>, L: set<Hash>, parents: seq<Hash>) returns (n: nat)
    requires forall p :: p in parents ==> Ready(lib, W, L, p)
    ensures forall p :: p in parents ==> ReadyIn(lib, W, L, p, n)
    decreases |parents|
  {
    n := 0;
    if parents != [] {
      var last := parents[|parents| - 1];
      var rest := parents[..|parents| - 1];
      assert parents == rest + [last];
      assert last in parents;
      var k := CommonBound(lib, W, L, rest);
      var m: nat :| ReadyIn(lib, W, L, last, m);
      n := k + m;
      forall p | p in parents ensures ReadyIn(lib, W, L, p, n) {
        ReadyInGrows(lib, W, L, p, if p == last then m else k, n);
      }
    }
  }

  lemma ReadyFromParents(lib: Library, W: set<Hash>, L: set<Hash>, h: Hash)
    requires h in W && forall p :: p in Next(lib, h) ==> Ready(lib, W, L, p)
    ensures Ready(lib, W, L, h)
  {
    var n := CommonBound(lib, W, L, Next(lib, h));
    assert ReadyIn(lib, W, L, h, n + 1);
  }

  lemma ReadyParents(lib: Library, W: set<Hash>, L: set<Hash>, h: Hash)
    requires Ready(lib, W, L, h) && h !in L
    ensures h in W && forall p :: p in Next(lib, h) ==> Ready(lib, W, L, p)
  {
    var n: nat :| ReadyIn(lib, W, L, h, n);
    forall p | p in Next(lib, h) ensures Ready(lib, W, L, p) {
      assert ReadyIn(lib, W, L, p, n - 1);
    }
  }

  /** Entries that each wait on another of them, none landed: a cycle and all
      that hangs on it. */
  ghost predicate Trap(lib: Library, L: set<Hash>, C: set<Hash>) {
    forall c {:trigger WaitsWithin(lib, C, c)} :: c in C ==> c !in L && WaitsWithin(lib, C, c)
  }

  ghost predicate WaitsWithin(lib: Library, C: set<Hash>, c: Hash) {
    exists p :: p in Next(lib, c) && p in C
  }

  lemma {:induction false} TrapIsNeverReadyIn(lib: Library, W: set<Hash>, L: set<Hash>, C: set<Hash>, c: Hash, n: nat)
    requires Trap(lib, L, C) && c in C
    ensures !ReadyIn(lib, W, L, c, n)
    decreases n
  {
    assert WaitsWithin(lib, C, c);
    var p :| p in Next(lib, c) && p in C;
    if n > 0 {
      TrapIsNeverReadyIn(lib, W, L, C, p, n - 1);
    }
  }

  lemma TrapIsNeverReady(lib: Library, W: set<Hash>, L: set<Hash>, C: set<Hash>, c: Hash)
    requires Trap(lib, L, C) && c in C
    ensures !Ready(lib, W, L, c)
  {
    forall n: nat ensures !ReadyIn(lib, W, L, c, n) {
      TrapIsNeverReadyIn(lib, W, L, C, c, n);
    }
  }

  // ---- The iterative walk -------------------------------------------------

  /** The walk's bookkeeping. `path` lists the entries being decided, outermost
      first, and `pos` where each of them sits on the stack; what lies above an
      entry up to the next one are parents of it that were pushed for it. */
  ghost predicate Walk(lib: Library, W: set<Hash>, L: set<Hash>, ready: map<Hash, bool>,
                       stack: seq<Hash>, path: seq<Hash>, pos: seq<nat>)
  {
    Placed(lib, stack, path, pos) && Undecided(lib, W, L, ready, path) &&
    (forall h :: h in ready ==> ready[h] == Ready(lib, W, L, h)) &&
    forall i :: 0 <= i < |path| ==> Accounted(lib, ready, stack, path, pos, i)
  }

  /** Where the path sits on the stack. */
  ghost predicate Placed(lib: Library, stack: seq<Hash>, path: seq<Hash>, pos: seq<nat>) {
    |pos| == |path| &&
    (path == [] ==> |stack| <= 1) && (path != [] ==> pos[0] == 0) &&
    (forall i :: 0 <= i < |path| ==> pos[i] < |stack| && stack[pos[i]] == path[i]) &&
    (forall i, j :: 0 <= i < j < |path| ==> pos[i] < pos[j]) &&
    (forall i :: 0 <= i < |path| ==> Segment(lib, stack, path, pos, i))
  }

  /** What was pushed for the path entry `i`, up to and including the next one. */
  ghost predicate Segment(lib: Library, stack: seq<Hash>, path: seq<Hash>, pos: seq<nat>, i: nat)
    requires i < |path| == |pos|
  {
    forall j :: pos[i] < j < |stack| && (i + 1 < |path| ==> j <= pos[i + 1]) ==> PushedFor(lib, path[..i + 1], stack[j])
  }

  ghost predicate PushedFor(lib: Library, path: seq<Hash>, h: Hash)
    requires path != []
  {
    h in Next(lib, path[|path| - 1]) && h !in path
  }

  ghost predicate Undecided(lib: Library, W: set<Hash>, L: set<Hash>, ready: map<Hash, bool>, path: seq<Hash>) {
    (forall i :: 0 <= i < |path| ==> path[i] in W && path[i] !in L && path[i] !in ready) &&
    (forall i :: 0 <= i < |path| - 1 ==> path[i + 1] in Next(lib, path[i]))
  }

  /** Each parent of a path entry is decided, on the path up to it, or above it. */
  ghost predicate Accounted(lib: Library, ready: map<Hash, bool>, stack: seq<Hash>, path: seq<Hash>, pos: seq<nat>, i: nat)
    requires i < |path| && |pos| == |path|
  {
    forall p :: p in Next(lib, path[i]) ==>
      p in ready || p in path[..i + 1] || exists j :: pos[i] < j < |stack| && stack[j] == p
  }

  ghost function OnPath(path: seq<Hash>): set<Hash> { set h | h in path }

  /** The top of the stack is the innermost path entry, or a parent pushed for it. */
  lemma TopOfStack(lib: Library, stack: seq<Hash>, path: seq<Hash>, pos: seq<nat>)
    requires Placed(lib, stack, path, pos) && stack != []
    ensures var top := stack[|stack| - 1];
            (top in path ==> path[|path| - 1] == top && pos[|path| - 1] == |stack| - 1) &&
            (top !in path && path != [] ==> top in Next(lib, path[|path| - 1]))
  {
    if path != [] {
      var n := |path| - 1;
      var j := |stack| - 1;
      assert path[..n + 1] == path && path[n] in path;
      assert Segment(lib, stack, path, pos, n);
      assert pos[n] < j ==> PushedFor(lib, path, stack[j]);
    }
  }

  lemma PopPlaced(lib: Library, stack: seq<Hash>, path: seq<Hash>, pos: seq<nat>)
    requires Placed(lib, stack, path, pos) && stack != [] && stack[|stack| - 1] !in path
    ensures Placed(lib, stack[..|stack| - 1], path, pos)
  {
    var less := stack[..|stack| - 1];
    forall i | 0 <= i < |path| ensures pos[i] < |less| && Segment(lib, less, path, pos, i) {
      assert path[i] in path;
      assert Segment(lib, stack, path, pos, i);
    }
  }

  lemma PopDecided(lib: Library, W: set<Hash>, L: set<Hash>, ready: map<Hash, bool>,
                   stack: seq<Hash>, path: seq<Hash>, pos: seq<nat>)
    requires Walk(lib, W, L, ready, stack, path, pos) && stack != []
    requires stack[|stack| - 1] in ready
    ensures Walk(lib, W, L, ready, stack[..|stack| - 1], path, pos)
  {
    var top := stack[|stack| - 1];
    TopOfStack(lib, stack, path, pos);
    assert top !in path;
    var less := stack[..|stack| - 1];
    PopPlaced(lib, stack, path, pos);
    forall i | 0 <= i < |path| ensures Accounted(lib, ready, less, path, pos, i) {
      assert Accounted(lib, ready, stack, path, pos, i);
      forall p | p in Next(lib, path[i]) && p !in ready && p !in path[..i + 1]
        ensures exists j :: pos[i] < j < |less| && less[j] == p
      {
        var j :| pos[i] < j < |stack| && stack[j] == p;
        assert less[j] == p;
      }
    }
  }

  lemma RecordDecided(lib: Library, W: set<Hash>, L: set<Hash>, ready: map<Hash, bool>,
                      stack: seq<Hash>, path: seq<Hash>, pos: seq<nat>, h: Hash, b: bool)
    requires Walk(lib, W, L, ready, stack, path, pos) && h !in path && b == Ready(lib, W, L, h)
    ensures Walk(lib, W, L, ready[h := b], stack, path, pos)
  {
    forall i | 0 <= i < |path|
      ensures path[i] !in ready[h := b] && Accounted(lib, ready[h := b], stack, path, pos, i)
    {
      assert path[i] in path;
      assert Accounted(lib, ready, stack, path, pos, i);
    }
  }

  /** The parents the walk pushes for a newly met entry. */
  function Pushed(ready: map<Hash, bool>, onPath: set<Hash>, next: seq<Hash>): seq<Hash> {
    if next == [] then []
    else
      var rest := Pushed(ready, onPath, next[..|next| - 1]);
      var last := next[|next| - 1];
      if last in ready || last in onPath then rest else rest + [last]
  }

  lemma {:induction false} PushedElements(ready: map<Hash, bool>, onPath: set<Hash>, next: seq<Hash>)
    ensures forall p :: p in Pushed(ready, onPath, next) <==> p in next && p !in ready && p !in onPath
    decreases |next|
  {
    if next != [] {
      PushedElements(ready, onPath, next[..|next| - 1]);
      assert next == next[..|next| - 1] + [next[|next| - 1]];
    }
  }

  lemma PushPlaced(lib: Library, stack: seq<Hash>, path: seq<Hash>, pos: seq<nat>, pushed: seq<Hash>)
    requires Placed(lib, stack, path, pos) && stack != [] && stack[|stack| - 1] !in path
    requires forall p :: p in pushed ==> p in Next(lib, stack[|stack| - 1]) && p !in path && p != stack[|stack| - 1]
    ensures Placed(lib, stack + pushed, path + [stack[|stack| - 1]], pos + [|stack| - 1])
  {
    var h := stack[|stack| - 1];
    var path', pos', stack' := path + [h], pos + [|stack| - 1], stack + pushed;
    forall i | 0 <= i < |path| ensures pos[i] < |stack| - 1 {
      assert path[i] in path;
    }
    forall i | 0 <= i < |path'| ensures Segment(lib, stack', path', pos', i) {
      if i < |path| {
        assert path'[..i + 1] == path[..i + 1];
        assert Segment(lib, stack, path, pos, i);
      } else {
        assert path'[..i + 1] == path';
        forall j | pos'[i] < j < |stack'| ensures PushedFor(lib, path', stack'[j]) {
          assert stack'[j] == pushed[j - |stack|];
          assert stack'[j] in pushed;
        }
      }
    }
  }

  lemma PushParents(lib: Library, W: set<Hash>, L: set<Hash>, ready: map<Hash, bool>,
                    stack: seq<Hash>, path: seq<Hash>, pos: seq<nat>)
    requires Walk(lib, W, L, ready, stack, path, pos) && stack != []
    requires var h := stack[|stack| - 1]; h !in ready && h !in L && h in W && h !in path
    ensures var h := stack[|stack| - 1];
            Walk(lib, W, L, ready, stack + Pushed(ready, OnPath(path) + {h}, Next(lib, h)), path + [h], pos + [|stack| - 1])
  {
    var h := stack[|stack| - 1];
    var pushed := Pushed(ready, OnPath(path) + {h}, Next(lib, h));
    PushedElements(ready, OnPath(path) + {h}, Next(lib, h));
    PushPlaced(lib, stack, path, pos, pushed);
    TopOfStack(lib, stack, path, pos);
    var path', pos', stack' := path + [h], pos + [|stack| - 1], stack + pushed;
    UndecidedGrows(lib, W, L, ready, path, h);
    forall i | 0 <= i < |path'| ensures Accounted(lib, ready, stack', path', pos', i) {
      if i < |path| {
        AccountedStill(lib, ready, stack, path, pos, i, h, pushed);
      } else {
        AccountedNew(lib, ready, stack, path, pos, pushed);
      }
    }
  }

  lemma UndecidedGrows(lib: Library, W: set<Hash>, L: set<Hash>, ready: map<Hash, bool>, path: seq<Hash>, h: Hash)
    requires Undecided(lib, W, L, ready, path) && h in W && h !in L && h !in ready
    requires path != [] ==> h in Next(lib, path[|path| - 1])
    ensures Undecided(lib, W, L, ready, path + [h])
  {
  }

  lemma AccountedStill(lib: Library, ready: map<Hash, bool>, stack: seq<Hash>, path: seq<Hash>, pos: seq<nat>,
                       i: nat, h: Hash, pushed: seq<Hash>)
    requires i < |path| == |pos| && Accounted(lib, ready, stack, path, pos, i) && stack != []
    ensures Accounted(lib, ready, stack + pushed, path + [h], pos + [|stack| - 1], i)
  {
    assert (path + [h])[..i + 1] == path[..i + 1];
    forall p | p in Next(lib, path[i]) && p !in ready && p !in path[..i + 1]
      ensures exists j :: pos[i] < j < |stack + pushed| && (stack + pushed)[j] == p
    {
      var j :| pos[i] < j < |stack| && stack[j] == p;
      assert (stack + pushed)[j] == p;
    }
  }

  lemma AccountedNew(lib: Library, ready: map<Hash, bool>, stack: seq<Hash>, path: seq<Hash>, pos: seq<nat>, pushed: seq<Hash>)
    requires stack != [] && |path| == |pos|
    requires var h := stack[|stack| - 1];
             forall p :: p in pushed <==> p in Next(lib, h) && p !in ready && p !in OnPath(path) + {h}
    ensures var h := stack[|stack| - 1];
            Accounted(lib, ready, stack + pushed, path + [h], pos + [|stack| - 1], |path|)
  {
    var h := stack[|stack| - 1];
    assert (path + [h])[..|path| + 1] == path + [h];
    forall p | p in Next(lib, h) && p !in ready && p !in path + [h]
      ensures exists j :: |stack| - 1 < j < |stack + pushed| && (stack + pushed)[j] == p
    {
      var k :| 0 <= k < |pushed| && pushed[k] == p;
      assert (stack + pushed)[|stack| + k] == p;
    }
  }

  /** When the innermost path entry comes back to the top, its parents are
      decided or on the path; one still on the path closes a cycle. */
  lemma DecideTop(lib: Library, W: set<Hash>, L: set<Hash>, ready: map<Hash, bool>,
                  stack: seq<Hash>, path: seq<Hash>, pos: seq<nat>)
    requires Walk(lib, W, L, ready, stack, path, pos) && path != []
    requires pos[|path| - 1] == |stack| - 1
    ensures var h := path[|path| - 1];
            Ready(lib, W, L, h) <==> forall p :: p in Next(lib, h) ==> p in ready && ready[p]
  {
    var n := |path| - 1;
    var h := path[n];
    assert Accounted(lib, ready, stack, path, pos, n);
    assert path[..n + 1] == path;
    if forall p :: p in Next(lib, h) ==> p in ready && ready[p] {
      ReadyFromParents(lib, W, L, h);
    } else {
      var p :| p in Next(lib, h) && !(p in ready && ready[p]);
      if p !in ready {
        var k :| 0 <= k < |path| && path[k] == p;
        CycleIsTrap(lib, W, L, ready, path, k);
        TrapIsNeverReady(lib, W, L, OnPath(path[k..]), path[k..][n - k]);
      } else if Ready(lib, W, L, h) {
        ReadyParents(lib, W, L, h);
      }
    }
  }

  lemma CycleIsTrap(lib: Library, W: set<Hash>, L: set<Hash>, ready: map<Hash, bool>, path: seq<Hash>, k: nat)
    requires Undecided(lib, W, L, ready, path) && k < |path| && path[k] in Next(lib, path[|path| - 1])
    ensures Trap(lib, L, OnPath(path[k..]))
  {
    var C := OnPath(path[k..]);
    forall c | c in C ensures c !in L && WaitsWithin(lib, C, c) {
      var i :| k <= i < |path| && path[i] == c;
      var p := if i == |path| - 1 then path[k] else path[i + 1];
      assert p == path[k..][if i == |path| - 1 then 0 else i + 1 - k];
      assert p in Next(lib, c) && p in C;
    }
  }

  lemma DropPlaced(lib: Library, stack: seq<Hash>, path: seq<Hash>, pos: seq<nat>)
    requires Placed(lib, stack, path, pos) && path != [] && pos[|path| - 1] == |stack| - 1
    ensures Placed(lib, stack[..|stack| - 1], path[..|path| - 1], pos[..|path| - 1])
  {
    var n := |path| - 1;
    var stack', path', pos' := stack[..|stack| - 1], path[..n], pos[..n];
    forall i | 0 <= i < |path'| ensures Segment(lib, stack', path', pos', i) {
      assert path'[..i + 1] == path[..i + 1];
      assert Segment(lib, stack, path, pos, i);
      assert i + 1 < |path'| || pos[i + 1] == |stack| - 1;
    }
  }

  lemma DropTop(lib: Library, W: set<Hash>, L: set<Hash>, ready: map<Hash, bool>,
                stack: seq<Hash>, path: seq<Hash>, pos: seq<nat>, b: bool)
    requires Walk(lib, W, L, ready, stack, path, pos) && path != []
    requires pos[|path| - 1] == |stack| - 1 && path[|path| - 1] !in path[..|path| - 1]
    requires b == Ready(lib, W, L, path[|path| - 1])
    ensures Walk(lib, W, L, ready[path[|path| - 1] := b], stack[..|stack| - 1], path[..|path| - 1], pos[..|path| - 1])
  {
    var n := |path| - 1;
    var h := path[n];
    var ready', stack', path', pos' := ready[h := b], stack[..|stack| - 1], path[..n], pos[..n];
    DropPlaced(lib, stack, path, pos);
    forall i | 0 <= i < |path'| ensures path'[i] !in ready' && Accounted(lib, ready', stack', path', pos', i) {
      assert path'[i] in path';
      assert Accounted(lib, ready, stack, path, pos, i);
      assert path'[..i + 1] == path[..i + 1];
      forall p | p in Next(lib, path'[i]) && p !in ready' && p !in path'[..i + 1]
        ensures exists j :: pos'[i] < j < |stack'| && stack'[j] == p
      {
        var j :| pos[i] < j < |stack| && stack[j] == p;
        assert stack'[j] == p;
      }
    }
  }

  method AllReady(ready: map<Hash, bool>, next: seq<Hash>) returns (b: bool)
    ensures b <==> forall p :: p in next ==> p in ready && ready[p]
  {
    for i := 0 to |next|
      invariant forall p :: p in next[..i] ==> p in ready && ready[p]
    {
      var p := next[i];
      assert next[..i + 1] == next[..i] + [p];
      if !(p in ready && ready[p]) {
        assert p in next;
        return false;
      }
    }
    assert next[..|next|] == next;
    return true;
  }

  /** The whole state of deciding one root. */
  ghost predicate Deciding(lib: Library, W: set<Hash>, L: set<Hash>, U: set<Hash>, root: Hash, ready: map<Hash, bool>,
                           stack: seq<Hash>, onPath: set<Hash>, path: seq<Hash>, pos: seq<nat>)
  {
    Walk(lib, W, L, ready, stack, path, pos) &&
    onPath == OnPath(path) && (forall i, j :: 0 <= i < j < |path| ==> path[i] != path[j]) &&
    ready.Keys <= U && (forall h :: h in stack ==> h in U) &&
    (root in ready || (stack != [] && stack[0] == root))
  }

  lemma MarkStep(lib: Library, W: set<Hash>, L: set<Hash>, U: set<Hash>, root: Hash, ready: map<Hash, bool>,
                 stack: seq<Hash>, onPath: set<Hash>, path: seq<Hash>, pos: seq<nat>, b: bool)
    requires Deciding(lib, W, L, U, root, ready, stack, onPath, path, pos) && stack != []
    requires var hash := stack[|stack| - 1]; hash !in ready && (hash in L || hash !in W) && b == (hash in L)
    ensures Deciding(lib, W, L, U, root, ready[stack[|stack| - 1] := b], stack, onPath, path, pos)
  {
    var hash := stack[|stack| - 1];
    assert hash in stack;
    assert hash in L ==> ReadyIn(lib, W, L, hash, 0);
    RecordDecided(lib, W, L, ready, stack, path, pos, hash, b);
  }

  lemma PopStep(lib: Library, W: set<Hash>, L: set<Hash>, U: set<Hash>, root: Hash, ready: map<Hash, bool>,
                stack: seq<Hash>, onPath: set<Hash>, path: seq<Hash>, pos: seq<nat>)
    requires Deciding(lib, W, L, U, root, ready, stack, onPath, path, pos) && stack != [] && stack[|stack| - 1] in ready
    ensures Deciding(lib, W, L, U, root, ready, stack[..|stack| - 1], onPath, path, pos)
  {
    PopDecided(lib, W, L, ready, stack, path, pos);
  }

  lemma PushStep(lib: Library, W: set<Hash>, L: set<Hash>, U: set<Hash>, root: Hash, ready: map<Hash, bool>,
                 stack: seq<Hash>, onPath: set<Hash>, path: seq<Hash>, pos: seq<nat>)
    requires Deciding(lib, W, L, U, root, ready, stack, onPath, path, pos) && stack != []
    requires var hash := stack[|stack| - 1]; hash !in ready && hash !in L && hash in W && hash !in onPath
    requires forall h, p :: h in W && p in Next(lib, h) ==> p in U
    ensures var hash := stack[|stack| - 1];
            Deciding(lib, W, L, U, root, ready, stack + Pushed(ready, onPath + {hash}, Next(lib, hash)),
                     onPath + {hash}, path + [hash], pos + [|stack| - 1])
  {
    var hash := stack[|stack| - 1];
    PushParents(lib, W, L, ready, stack, path, pos);
    PushedElements(ready, onPath + {hash}, Next(lib, hash));
    assert forall h :: h in OnPath(path + [hash]) <==> h in onPath + {hash};
    assert forall i :: 0 <= i < |path| ==> path[i] in onPath;
  }

  lemma FinishStep(lib: Library, W: set<Hash>, L: set<Hash>, U: set<Hash>, root: Hash, ready: map<Hash, bool>,
                   stack: seq<Hash>, onPath: set<Hash>, path: seq<Hash>, pos: seq<nat>, b: bool)
    requires Deciding(lib, W, L, U, root, ready, stack, onPath, path, pos) && stack != []
    requires stack[|stack| - 1] in onPath
    requires b == forall p :: p in Next(lib, stack[|stack| - 1]) ==> p in ready && ready[p]
    ensures var hash := stack[|stack| - 1];
            hash !in ready && hash !in L && hash in W &&
            Deciding(lib, W, L, U, root, ready[hash := b], stack[..|stack| - 1], onPath - {hash}, path[..|path| - 1], pos[..|path| - 1])
  {
    var hash := stack[|stack| - 1];
    assert hash in stack;
    TopOfStack(lib, stack, path, pos);
    DecideTop(lib, W, L, ready, stack, path, pos);
    DropTop(lib, W, L, ready, stack, path, pos, b);
    assert path == path[..|path| - 1] + [hash];
    assert forall h :: h in OnPath(path[..|path| - 1]) <==> h in onPath - {hash};
  }

  /** One turn of the walk: settles the top of the stack, or pushes what it waits on.
      More is decided, or more is on the path, or the stack is shorter. */
  method Turn(lib: Library, W: set<Hash>, L: set<Hash>, ghost U: set<Hash>, ghost root: Hash, ready: map<Hash, bool>,
              stack: seq<Hash>, onPath: set<Hash>, ghost path: seq<Hash>, ghost pos: seq<nat>)
    returns (ready': map<Hash, bool>, stack': seq<Hash>, onPath': set<Hash>, ghost path': seq<Hash>, ghost pos': seq<nat>)
    requires Deciding(lib, W, L, U, root, ready, stack, onPath, path, pos) && stack != []
    requires forall h, p :: h in W && p in Next(lib, h) ==> p in U
    ensures Deciding(lib, W, L, U, root, ready', stack', onPath', path', pos')
    ensures ready.Keys < ready'.Keys || (ready' == ready && onPath < onPath') ||
            (ready' == ready && onPath' == onPath && |stack'| < |stack|)
  {
    ready', stack', onPath', path', pos' := ready, stack, onPath, path, pos;
    var hash := stack[|stack| - 1];
    if hash in ready || hash in L || hash !in W {
      if hash !in ready {
        MarkStep(lib, W, L, U, root, ready, stack, onPath, path, pos, hash in L);
        ready' := ready[hash := hash in L];
        assert hash in ready';
      }
      PopStep(lib, W, L, U, root, ready', stack, onPath, path, pos);
      stack' := stack[..|stack| - 1];
    } else if hash !in onPath {
      PushStep(lib, W, L, U, root, ready, stack, onPath, path, pos);
      onPath' := onPath + {hash};
      path', pos' := path + [hash], pos + [|stack| - 1];
      stack' := stack + Pushed(ready, onPath', lib.entryOf(hash).next);
    } else {
      var all := AllReady(ready, lib.entryOf(hash).next);
      FinishStep(lib, W, L, U, root, ready, stack, onPath, path, pos, all);
      ready' := ready[hash := all];
      assert hash in ready';
      onPath' := onPath - {hash};
      path', pos' := path[..|path| - 1], pos[..|path| - 1];
      stack' := stack[..|stack| - 1];
    }
  }

  lemma FirstTurn(lib: Library, W: set<Hash>, L: set<Hash>, U: set<Hash>, root: Hash, ready: map<Hash, bool>)
    requires root in U && ready.Keys <= U && forall h :: h in ready ==> ready[h] == Ready(lib, W, L, h)
    ensures Deciding(lib, W, L, U, root, ready, [root], {}, [], [])
  {
  }

  lemma LastTurn(lib: Library, W: set<Hash>, L: set<Hash>, U: set<Hash>, root: Hash, ready: map<Hash, bool>,
                 onPath: set<Hash>, path: seq<Hash>, pos: seq<nat>)
    requires Deciding(lib, W, L, U, root, ready, [], onPath, path, pos)
    ensures root in ready && ready.Keys <= U && forall h :: h in ready ==> ready[h] == Ready(lib, W, L, h)
  {
  }

  /** Decides one root and whatever it waits on. */
  method DecideRoot(lib: Library, W: set<Hash>, L: set<Hash>, root: Hash, before: map<Hash, bool>, ghost U: set<Hash>)
    returns (ready: map<Hash, bool>)
    requires W <= U && (forall h, p :: h in W && p in Next(lib, h) ==> p in U) && root in U
    requires before.Keys <= U && forall h :: h in before ==> before[h] == Ready(lib, W, L, h)
    ensures before.Keys + {root} <= ready.Keys <= U
    ensures forall h :: h in ready ==> ready[h] == Ready(lib, W, L, h)
  {
    ready := before;
    var stack := [root];
    var onPath: set<Hash> := {};
    ghost var path: seq<Hash>, pos: seq<nat> := [], [];
    FirstTurn(lib, W, L, U, root, ready);
    while stack != []
      invariant Deciding(lib, W, L, U, root, ready, stack, onPath, path, pos) && before.Keys <= ready.Keys
      decreases U - ready.Keys, U - onPath, |stack|
    {
      assert onPath <= U by {
        PathInside(lib, W, L, U, root, ready, stack, onPath, path, pos);
      }
      ready, stack, onPath, path, pos := Turn(lib, W, L, U, root, ready, stack, onPath, path, pos);
      PathInside(lib, W, L, U, root, ready, stack, onPath, path, pos);
    }
    LastTurn(lib, W, L, U, root, ready, onPath, path, pos);
  }

  lemma PathInside(lib: Library, W: set<Hash>, L: set<Hash>, U: set<Hash>, root: Hash, ready: map<Hash, bool>,
                   stack: seq<Hash>, onPath: set<Hash>, path: seq<Hash>, pos: seq<nat>)
    requires Deciding(lib, W, L, U, root, ready, stack, onPath, path, pos)
    ensures onPath <= U
  {
    forall h | h in onPath ensures h in U {
      var i :| 0 <= i < |path| && path[i] == h;
      assert stack[pos[i]] in stack;
    }
  }

  /** The batch: exactly the waiting entries that are ready, in waiting order. */
  method ReadyBatch(lib: Library, waiting: seq<Hash>, L: set<Hash>) returns (batch: seq<Hash>)
    ensures forall h :: h in batch <==> h in waiting && Ready(lib, (set w | w in waiting), L, h)
  {
    var W := set w | w in waiting;
    ghost var U := W + set h, p | h in W && p in Next(lib, h) :: p;
    var ready: map<Hash, bool> := map[];
    for i := 0 to |waiting|
      invariant ready.Keys <= U && forall h :: h in ready ==> ready[h] == Ready(lib, W, L, h)
      invariant forall h :: h in waiting[..i] ==> h in ready
    {
      assert waiting[i] in waiting && waiting[..i + 1] == waiting[..i] + [waiting[i]];
      ready := DecideRoot(lib, W, L, waiting[i], ready, U);
    }
    assert waiting[..|waiting|] == waiting;
    batch := [];
    for i := 0 to |waiting|
      invariant forall h :: h in batch <==> h in waiting[..i] && Ready(lib, W, L, h)
    {
      var h := waiting[i];
      assert h in waiting && waiting[..i + 1] == waiting[..i] + [h];
      if ready[h] {
        batch := batch + [h];
      }
    }
    assert waiting[..|waiting|] == waiting;
  }
}
