/** The cycle check of a built tree (tech_tree/src/usecase/validation/no_cycles.rs): a
    depth-first search over the successor edges, started from every technology in tree
    order, with one `visited` and one `recursive` flag per technology. */
module NoCycles {
  import opened Wrappers
  import opened Seqs
  import opened Error
  import opened Name
  import opened Model
  import opened Graph

  /** The full names of a list of ids. */
  function FullNames(tree: Tree, ids: seq<nat>): (r: seq<string>)
    requires forall k :: 0 <= k < |ids| ==> ids[k] < |tree|
  {
    seq(|ids|, k requires 0 <= k < |ids| => GetFull(tree[ids[k]].name))
  }

  /** What get_circle reports, as ids: a walk from the re-entry node `id` along
      successor edges that visits no node twice and whose last node has an edge back
      into the walk. */
  predicate CircleList(tree: Tree, ids: seq<nat>, id: nat) {
    && IsPath(tree, ids)
    && ids[0] == id
    && Distinct(ids)
    && exists j :: 0 <= j < |ids| && IsEdge(tree, ids[|ids| - 1], ids[j])
  }

  /** The first entry of s that is in flagged, if any. */
  function FirstIn(s: seq<nat>, flagged: set<nat>): (r: Option<nat>)
    ensures r.Some? ==> r.value in s && r.value in flagged
    ensures r.Some? ==> exists k :: 0 <= k < |s| && s[k] == r.value && forall l :: 0 <= l < k ==> s[l] !in flagged
    ensures r.None? <==> forall l :: 0 <= l < |s| ==> s[l] !in flagged
  {
    if s == [] then None
    else if s[0] in flagged then Some(s[0])
    else
      var r := FirstIn(s[1..], flagged);
      assert forall l :: 1 <= l < |s| ==> s[l] == s[1..][l - 1];
      r
  }

  /** A walk stays a walk from any of its positions on. */
  lemma SuffixIsPath(tree: Tree, p: seq<nat>, i: nat)
    requires IsPath(tree, p) && i < |p|
    ensures IsPath(tree, p[i..]) && p[i..][0] == p[i] && p[i..][|p[i..]| - 1] == p[|p| - 1]
  {
    var q := p[i..];
    forall k | 0 <= k < |q| - 1 ensures IsEdge(tree, q[k], q[k + 1]) {
      assert q[k] == p[i + k] && q[k + 1] == p[i + k + 1];
    }
  }

  /** The cycle inside a circle list: the list from the position of the last node's
      first successor in the list, to its end. */
  function CutAtReentry(tree: Tree, ids: seq<nat>): (r: seq<nat>)
    requires ids != [] && CircleList(tree, ids, ids[0])
    ensures IsCycle(tree, r)
    ensures exists i :: 0 <= i < |ids| && r == ids[i..]
  {
    var last := ids[|ids| - 1];
    var found := FirstIn(tree[last].successors, Elements(ids));
    assert found.Some? by {
      var j :| 0 <= j < |ids| && IsEdge(tree, last, ids[j]);
      assert ids[j] in Elements(ids);
    }
    var i := IndexOf(ids, found.value);
    SuffixIsPath(tree, ids, i);
    ids[i..]
  }

  /** A circle list holds a cycle: its tail from the node the last edge returns to. */
  lemma CircleListHasCycle(tree: Tree, ids: seq<nat>, id: nat)
    requires CircleList(tree, ids, id)
    ensures HasCycle(tree)
  {
    assert IsCycle(tree, CutAtReentry(tree, ids));
  }

  /** The current recursion stack: distinct nodes joined by successor edges. */
  predicate OnStack(tree: Tree, stack: seq<nat>) {
    && Distinct(stack)
    && (forall k :: 0 <= k < |stack| ==> stack[k] < |tree|)
    && (forall k :: 0 <= k < |stack| - 1 ==> IsEdge(tree, stack[k], stack[k + 1]))
  }

  /** The finished nodes in the order they were finished: each one's successors were
      all finished before it. */
  predicate Finished(tree: Tree, done: seq<nat>) {
    && Distinct(done)
    && (forall j :: 0 <= j < |done| ==> done[j] < |tree|)
    && (forall j, s :: 0 <= j < |done| && done[j] < |tree| && s in tree[done[j]].successors ==> s in done[..j])
  }

  /** The state of the search between calls: `recursive` flags exactly the stack,
      `visited` flags exactly the stack and the finished nodes. */
  ghost predicate DfsState(tree: Tree, visited: array<bool>, recursive: array<bool>, stack: seq<nat>, done: seq<nat>)
    reads visited, recursive
  {
    && WellFormed(tree)
    && visited.Length == |tree| && recursive.Length == |tree|
    && OnStack(tree, stack) && Finished(tree, done)
    && (forall k :: k in stack ==> k !in done)
    && (forall k :: 0 <= k < |tree| ==> (recursive[k] <==> k in stack))
    && (forall k :: 0 <= k < |tree| ==> (visited[k] <==> k in stack || k in done))
  }

  /** The node a stack entry has an edge to: the next entry, or the re-entry node for the top. */
  function StackNext(stack: seq<nat>, id: nat, t: nat): nat
    requires t < |stack|
  {
    if t + 1 < |stack| then stack[t + 1] else id
  }

  /** get_circle's walk: take x and clear its flag, then go on at x's first successor
      whose flag is still set; `flagged` is the set of flags before x is taken. */
  function Walk(tree: Tree, flagged: set<nat>, x: nat): (r: seq<nat>)
    requires WellFormed(tree) && x < |tree| && x in flagged
    ensures r != [] && r[0] == x
    decreases |flagged|
  {
    var rest := flagged - {x};
    match FirstIn(tree[x].successors, rest)
    case None => [x]
    case Some(w) => [x] + Walk(tree, rest, w)
  }

  /** The walk invariant of get_circle's loop survives taking x, with `flags` the
      flags set before x is taken, and moving on to `next`. */
  lemma WalkAdvance(tree: Tree, whole: seq<nat>, ids: seq<nat>, flags: set<nat>, x: nat, next: Option<nat>)
    requires WellFormed(tree) && x < |tree| && x in flags
    requires ids + Walk(tree, flags, x) == whole
    requires next == FirstIn(tree[x].successors, flags - {x})
    ensures next.Some? ==> next.value < |tree| && next.value in flags - {x}
    ensures next.Some? ==> (ids + [x]) + Walk(tree, flags - {x}, next.value) == whole
    ensures next.None? ==> ids + [x] == whole
    ensures next.Some? ==> WalkRest(tree, flags - {x}, next.value) == WalkRest(tree, flags, x)
    ensures next.None? ==> flags - {x} == WalkRest(tree, flags, x)
  {
    if next.Some? {
      assert next.value in tree[x].successors;
      assert Walk(tree, flags, x) == [x] + Walk(tree, flags - {x}, next.value);
    }
  }

  /** Taking one more node appends its full name. */
  lemma FullNamesSnoc(tree: Tree, ids: seq<nat>, x: nat)
    requires forall k :: 0 <= k < |ids| ==> ids[k] < |tree|
    requires x < |tree|
    ensures FullNames(tree, ids + [x]) == FullNames(tree, ids) + [GetFull(tree[x].name)]
  {
    var a, b := FullNames(tree, ids + [x]), FullNames(tree, ids) + [GetFull(tree[x].name)];
    forall k | 0 <= k < |a| ensures a[k] == b[k] {
      if k < |ids| {
        assert (ids + [x])[k] == ids[k];
      }
    }
  }

  /** The flags still set when get_circle's walk from x ends. */
  function WalkRest(tree: Tree, flagged: set<nat>, x: nat): set<nat>
    requires WellFormed(tree) && x < |tree| && x in flagged
    decreases |flagged|
  {
    var rest := flagged - {x};
    match FirstIn(tree[x].successors, rest)
    case None => rest
    case Some(w) => WalkRest(tree, rest, w)
  }

  /** The walk clears exactly the flags of the nodes it takes. */
  lemma {:induction false} WalkRestUnflagsWalk(tree: Tree, flagged: set<nat>, x: nat)
    requires WellFormed(tree) && x < |tree| && x in flagged
    ensures WalkRest(tree, flagged, x) == flagged - Elements(Walk(tree, flagged, x))
    decreases |flagged|
  {
    var rest := flagged - {x};
    var r := Walk(tree, flagged, x);
    match FirstIn(tree[x].successors, rest)
    case None =>
      assert r == [x] && Elements(r) == {x};
    case Some(w) =>
      assert w in tree[x].successors;
      WalkRestUnflagsWalk(tree, rest, w);
      var t := Walk(tree, rest, w);
      assert r == [x] + t;
      assert Elements(r) == {x} + Elements(t);
  }

  /** A walk takes only flagged nodes. */
  lemma {:induction false} WalkWithin(tree: Tree, flagged: set<nat>, x: nat)
    requires WellFormed(tree) && x < |tree| && x in flagged
    ensures forall k :: k in Walk(tree, flagged, x) ==> k in flagged
    decreases |flagged|
  {
    var rest := flagged - {x};
    match FirstIn(tree[x].successors, rest)
    case None =>
    case Some(w) =>
      assert w in tree[x].successors;
      WalkWithin(tree, rest, w);
      assert Walk(tree, flagged, x) == [x] + Walk(tree, rest, w);
  }

  /** A walk follows successor edges. */
  lemma {:induction false} WalkIsPath(tree: Tree, flagged: set<nat>, x: nat)
    requires WellFormed(tree) && x < |tree| && x in flagged
    ensures IsPath(tree, Walk(tree, flagged, x))
    decreases |flagged|
  {
    var rest := flagged - {x};
    match FirstIn(tree[x].successors, rest)
    case None =>
    case Some(w) =>
      assert w in tree[x].successors;
      WalkIsPath(tree, rest, w);
      var r, t := Walk(tree, flagged, x), Walk(tree, rest, w);
      assert r == [x] + t;
      forall k | 0 <= k < |r| - 1 ensures IsEdge(tree, r[k], r[k + 1]) {
        if k > 0 {
          assert r[k] == t[k - 1] && r[k + 1] == t[k];
        }
      }
  }

  /** A walk never takes a node twice. */
  lemma {:induction false} WalkDistinct(tree: Tree, flagged: set<nat>, x: nat)
    requires WellFormed(tree) && x < |tree| && x in flagged
    ensures Distinct(Walk(tree, flagged, x))
    decreases |flagged|
  {
    var rest := flagged - {x};
    match FirstIn(tree[x].successors, rest)
    case None =>
    case Some(w) =>
      assert w in tree[x].successors;
      WalkDistinct(tree, rest, w);
      WalkWithin(tree, rest, w);
      var r, t := Walk(tree, flagged, x), Walk(tree, rest, w);
      assert r == [x] + t;
      forall i, j | 0 <= i < j < |r| ensures r[i] != r[j] {
        assert r[j] == t[j - 1] && t[j - 1] in t;
        if i > 0 {
          assert r[i] == t[i - 1];
        }
      }
  }

  /** Once a walk's own nodes are unflagged, its last node has no flagged successor. */
  lemma {:induction false} WalkEnds(tree: Tree, flagged: set<nat>, x: nat)
    requires WellFormed(tree) && x < |tree| && x in flagged
    ensures var r := Walk(tree, flagged, x);
      r[|r| - 1] < |tree| && FirstIn(tree[r[|r| - 1]].successors, flagged - Elements(r)).None?
    decreases |flagged|
  {
    var rest := flagged - {x};
    var r := Walk(tree, flagged, x);
    match FirstIn(tree[x].successors, rest)
    case None =>
      assert r == [x] && Elements(r) == {x};
    case Some(w) =>
      assert w in tree[x].successors;
      WalkEnds(tree, rest, w);
      var t := Walk(tree, rest, w);
      assert r == [x] + t;
      assert Elements(r) == {x} + Elements(t);
      assert r[|r| - 1] == t[|t| - 1];
      assert flagged - Elements(r) == rest - Elements(t);
  }

  /** Started at the re-entry node with exactly the stack flagged, the walk is a circle
      list on the stack: each stack node's next entry (or, for the top, the re-entry
      node) is one of its successors, so the last node of the walk has an edge back
      into the walk. */
  lemma WalkIsCircleList(tree: Tree, stack: seq<nat>, id: nat)
    requires WellFormed(tree) && OnStack(tree, stack) && stack != []
    requires id in stack && IsEdge(tree, stack[|stack| - 1], id)
    ensures CircleList(tree, Walk(tree, Elements(stack), id), id)
    ensures forall k :: k in Walk(tree, Elements(stack), id) ==> k in stack
  {
    var r := Walk(tree, Elements(stack), id);
    WalkWithin(tree, Elements(stack), id);
    WalkIsPath(tree, Elements(stack), id);
    WalkDistinct(tree, Elements(stack), id);
    WalkEnds(tree, Elements(stack), id);
    var y := r[|r| - 1];
    assert y in Elements(r);
    var t :| 0 <= t < |stack| && stack[t] == y;
    var n := StackNext(stack, id, t);
    assert IsEdge(tree, y, n);
    assert n in Elements(stack);
    var l :| 0 <= l < |tree[y].successors| && tree[y].successors[l] == n;
    assert n in Elements(r);
    var j :| 0 <= j < |r| && r[j] == n;
    assert IsEdge(tree, y, r[j]);
  }

  /** get_circle: starting at the re-entry node, clear its flag, record its name, and
      move on to its first successor that is still flagged, until there is none;
      `flagged` is the set of nodes whose flag is set on entry. */
  method GetCircle(tree: Tree, id: nat, recursive: array<bool>, ghost flagged: set<nat>)
    returns (circle: seq<string>, ghost ids: seq<nat>)
    requires WellFormed(tree) && recursive.Length == |tree|
    requires forall k :: 0 <= k < |tree| ==> (recursive[k] <==> k in flagged)
    requires id < |tree| && id in flagged
    modifies recursive
    ensures ids == Walk(tree, flagged, id)
    ensures forall k :: 0 <= k < |ids| ==> ids[k] < |tree|
    ensures circle == FullNames(tree, ids)
    ensures forall k :: 0 <= k < |tree| ==> (recursive[k] <==> k in flagged - Elements(ids))
  {
    circle := [];
    ids := [];
    var current: Option<nat> := Some(id);
    ghost var flags := flagged;
    while current.Some?
      invariant forall k :: 0 <= k < |tree| ==> (recursive[k] <==> k in flags)
      invariant forall k :: 0 <= k < |ids| ==> ids[k] < |tree|
      invariant circle == FullNames(tree, ids)
      invariant current.Some? ==> current.value < |tree| && current.value in flags
      invariant current.Some? ==> ids + Walk(tree, flags, current.value) == Walk(tree, flagged, id)
      invariant current.None? ==> ids == Walk(tree, flagged, id)
      invariant current.Some? ==> WalkRest(tree, flags, current.value) == WalkRest(tree, flagged, id)
      invariant current.None? ==> flags == WalkRest(tree, flagged, id)
      decreases |flags|
    {
      var x := current.value;
      circle := circle + [GetFull(tree[x].name)];
      ghost var before, flagsBefore := ids, flags;
      current := Take(tree, recursive, x, flags);
      FullNamesSnoc(tree, ids, x);
      ids, flags := ids + [x], flags - {x};
      WalkAdvance(tree, Walk(tree, flagged, id), before, flagsBefore, x, current);
    }
    WalkRestUnflagsWalk(tree, flagged, id);
  }

  /** One round of get_circle's loop: clear x's flag, then find x's first successor
      whose flag is still set. */
  method Take(tree: Tree, recursive: array<bool>, x: nat, ghost flags: set<nat>) returns (next: Option<nat>)
    requires WellFormed(tree) && recursive.Length == |tree| && x < |tree|
    requires forall k :: 0 <= k < |tree| ==> (recursive[k] <==> k in flags)
    modifies recursive
    ensures forall k :: 0 <= k < |tree| ==> (recursive[k] <==> k in flags - {x})
    ensures next == FirstIn(tree[x].successors, flags - {x})
  {
    recursive[x] := false;
    next := FirstFlagged(tree[x].successors, recursive, flags - {x});
  }

  /** The inner loop of get_circle: the first successor whose flag is still set. */
  method FirstFlagged(successors: seq<nat>, recursive: array<bool>, ghost flagged: set<nat>) returns (found: Option<nat>)
    requires forall l :: 0 <= l < |successors| ==> successors[l] < recursive.Length
    requires forall l :: 0 <= l < |successors| ==> (recursive[successors[l]] <==> successors[l] in flagged)
    ensures found == FirstIn(successors, flagged)
  {
    found := None;
    var k := 0;
    while k < |successors|
      invariant 0 <= k <= |successors|
      invariant forall l :: 0 <= l < k ==> !recursive[successors[l]]
      invariant FirstIn(successors, flagged) == FirstIn(successors[k..], flagged)
    {
      assert successors[k..][1..] == successors[k + 1..];
      if recursive[successors[k]] {
        found := Some(successors[k]);
        break;
      }
      k := k + 1;
    }
  }

  /** validate_technology: a flagged node closes a cycle; a visited one is finished;
      otherwise the node is flagged, its successors are searched in order, and it is
      unflagged and finished when none of them found a cycle. */
  method ValidateTechnology(tree: Tree, id: nat, visited: array<bool>, recursive: array<bool>,
                            ghost stack: seq<nat>, ghost done: seq<nat>)
    returns (r: Option<seq<string>>, ghost done': seq<nat>, ghost ids: seq<nat>)
    requires visited != recursive
    requires DfsState(tree, visited, recursive, stack, done)
    requires id < |tree|
    requires stack != [] ==> IsEdge(tree, stack[|stack| - 1], id)
    modifies visited, recursive
    ensures r.Some? ==> |ids| > 0 && CircleList(tree, ids, ids[0]) && r.value == FullNames(tree, ids)
    ensures r.None? ==> DfsState(tree, visited, recursive, stack, done') && done <= done' && id in done'
    decreases |tree| - |stack| - |done|
  {
    if recursive[id] {
      var circle;
      circle, ids := GetCircle(tree, id, recursive, Elements(stack));
      WalkIsCircleList(tree, stack, id);
      return Some(circle), done, ids;
    } else if visited[id] {
      return None, done, [];
    }
    assert id !in stack && id !in done;
    recursive[id] := true;
    visited[id] := true;
    ghost var inner := stack + [id];
    PushKeepsStack(tree, stack, done, id);
    done' := done;
    ids := [];
    var successors := tree[id].successors;
    var k := 0;
    while k < |successors|
      invariant 0 <= k <= |successors|
      invariant DfsState(tree, visited, recursive, inner, done')
      invariant done <= done'
      invariant forall l :: 0 <= l < k ==> successors[l] in done'
    {
      var sub;
      ghost var before := done';
      sub, done', ids := ValidateTechnology(tree, successors[k], visited, recursive, inner, done');
      if sub.Some? {
        return sub, done', ids;
      }
      assert forall l :: 0 <= l < k ==> successors[l] in done' by {
        assert before <= done';
      }
      k := k + 1;
    }
    recursive[id] := false;
    ghost var finished := done' + [id];
    FinishKeepsOrder(tree, done', id);
    done' := finished;
    r := None;
  }

  /** Pushing a node that is neither on the stack nor finished, along an edge from the
      top, keeps a stack, and stack and finished nodes together stay within the tree. */
  lemma PushKeepsStack(tree: Tree, stack: seq<nat>, done: seq<nat>, id: nat)
    requires OnStack(tree, stack) && Finished(tree, done)
    requires forall k :: k in stack ==> k !in done
    requires id < |tree| && id !in stack && id !in done
    requires stack != [] ==> IsEdge(tree, stack[|stack| - 1], id)
    ensures OnStack(tree, stack + [id])
    ensures |stack| + 1 + |done| <= |tree|
  {
    var inner := stack + [id];
    forall k | 0 <= k < |inner| - 1 ensures IsEdge(tree, inner[k], inner[k + 1]) {
      if k + 1 < |stack| {
        assert inner[k] == stack[k] && inner[k + 1] == stack[k + 1];
      }
    }
    var all := inner + done;
    forall a, b | 0 <= a < b < |all| ensures all[a] != all[b] {
      if b < |inner| {
        assert all[a] == inner[a] && all[b] == inner[b];
      } else if a >= |inner| {
        assert all[a] == done[a - |inner|] && all[b] == done[b - |inner|];
      } else {
        assert all[a] == inner[a] && all[b] == done[b - |inner|];
        assert inner[a] in stack || inner[a] == id;
        assert done[b - |inner|] in done;
      }
    }
    DistinctBelowLength(all, |tree|);
  }

  /** A node whose successors are all finished may be finished next. */
  lemma FinishKeepsOrder(tree: Tree, done: seq<nat>, id: nat)
    requires Finished(tree, done) && id < |tree| && id !in done
    requires forall s :: s in tree[id].successors ==> s in done
    ensures Finished(tree, done + [id])
  {
    var finished := done + [id];
    forall j, s | 0 <= j < |finished| && finished[j] < |tree| && s in tree[finished[j]].successors
      ensures s in finished[..j]
    {
      if j < |done| {
        assert finished[..j] == done[..j];
      } else {
        assert finished[..j] == done;
      }
    }
  }

  /** The position of an element. */
  function IndexOf(s: seq<nat>, x: nat): (r: nat)
    requires x in s
    ensures r < |s| && s[r] == x
  {
    if s[0] == x then 0 else 1 + IndexOf(s[1..], x)
  }

  /** A finish order that covers every node ranks the nodes so that every edge goes
      down; hence the tree has no cycle. */
  lemma FinishedAcyclic(tree: Tree, done: seq<nat>)
    requires Finished(tree, done)
    requires forall k :: 0 <= k < |tree| ==> k in done
    ensures !HasCycle(tree)
  {
    var rank := seq(|tree|, v requires 0 <= v < |tree| => IndexOf(done, v));
    forall u: nat, v: nat | u < |tree| && IsEdge(tree, u, v) && v < |tree|
      ensures rank[v] < rank[u]
    {
      var j := IndexOf(done, u);
      assert v in done[..j];
      var t :| 0 <= t < j && done[t] == v;
      assert IndexOf(done, v) == t;
    }
    DecreasingRankAcyclic(tree, rank);
  }

  /** validate_tree: None exactly when the successor graph has no cycle; otherwise the
      names of a circle that the search found. */
  method ValidateTree(tree: Tree) returns (r: Option<seq<string>>, ghost ids: seq<nat>)
    requires WellFormed(tree)
    ensures r.None? <==> !HasCycle(tree)
    ensures r.Some? ==> |ids| > 0 && CircleList(tree, ids, ids[0]) && r.value == FullNames(tree, ids)
    ensures r.Some? ==> IsCycle(tree, CutAtReentry(tree, ids))
  {
    var visited := new bool[|tree|](_ => false);
    var recursive := new bool[|tree|](_ => false);
    ghost var done: seq<nat> := [];
    ids := [];
    var i := 0;
    while i < |tree|
      invariant 0 <= i <= |tree|
      invariant DfsState(tree, visited, recursive, [], done)
      invariant forall k :: 0 <= k < i ==> k in done
    {
      var sub;
      ghost var before := done;
      sub, done, ids := ValidateTechnology(tree, tree[i].id, visited, recursive, [], done);
      if sub.Some? {
        CircleListHasCycle(tree, ids, ids[0]);
        return sub, ids;
      }
      assert forall k :: 0 <= k < i ==> k in done by {
        assert before <= done;
      }
      i := i + 1;
    }
    FinishedAcyclic(tree, done);
    return None, ids;
  }

  /** validate_no_cycles: the tree itself when it has no cycle, otherwise a Cycle error
      with the names of the circle found. */
  method ValidateNoCycles(tree: Tree) returns (r: Result<Tree, AddError>, ghost ids: seq<nat>)
    requires WellFormed(tree)
    ensures r.Ok? <==> !HasCycle(tree)
    ensures r.Ok? ==> r.value == tree
    ensures r.Err? ==> |ids| > 0 && CircleList(tree, ids, ids[0]) && r.error == Cycle(FullNames(tree, ids))
    ensures r.Err? ==> IsCycle(tree, CutAtReentry(tree, ids))
  {
    var circle;
    circle, ids := ValidateTree(tree);
    if circle.Some? {
      return Err(Cycle(circle.value)), ids;
    }
    return Ok(tree), ids;
  }

  /** Validating an accepted tree again accepts it again, unchanged. */
  method ValidateTwice(tree: Tree) returns (first: Result<Tree, AddError>, second: Result<Tree, AddError>)
    requires WellFormed(tree)
    ensures first.Ok? ==> second == first
    ensures first.Err? ==> first.error.Cycle?
  {
    ghost var ids;
    first, ids := ValidateNoCycles(tree);
    if first.Ok? {
      second, ids := ValidateNoCycles(first.value);
    } else {
      second := first;
    }
  }

  /** The tree of test_no_cycle: t2 after t0, t3 after t2 and t1, t4 after t3. */
  function AcyclicExample(): Tree {
    [ Technology(0, Simple("t0"), [], [2]),
      Technology(1, Simple("t1"), [], [3]),
      Technology(2, Simple("t2"), [0], [3]),
      Technology(3, Simple("t3"), [2, 1], [4]),
      Technology(4, Simple("t4"), [3], []) ]
  }

  /** The tree of test_error: as above, with t0 also after t3. */
  function CyclicExample(): Tree {
    [ Technology(0, Simple("t0"), [3], [2]),
      Technology(1, Simple("t1"), [], [3]),
      Technology(2, Simple("t2"), [0], [3]),
      Technology(3, Simple("t3"), [2, 1], [0, 4]),
      Technology(4, Simple("t4"), [3], []) ]
  }

  /** validate_tree gives None for the empty tree and for the tree of test_no_cycle. */
  lemma AcyclicExamples()
    ensures WellFormed([]) && !HasCycle([])
    ensures WellFormed(AcyclicExample()) && !HasCycle(AcyclicExample())
  {
    DecreasingRankAcyclic([], []);
    var tree := AcyclicExample();
    var rank: seq<nat> := [4, 4, 3, 2, 1];
    forall u: nat, v: nat | u < |tree| && IsEdge(tree, u, v) && v < |tree|
      ensures rank[v] < rank[u]
    {
      assert u == 0 ==> v == 2;
      assert u == 1 ==> v == 3;
      assert u == 2 ==> v == 3;
      assert u == 3 ==> v == 4;
      assert u != 4;
    }
    DecreasingRankAcyclic(tree, rank);
  }

  /** validate_no_cycles rejects the tree of test_error: t0, t2, t3 is a cycle. */
  lemma CyclicExampleHasCycle()
    ensures WellFormed(CyclicExample()) && HasCycle(CyclicExample())
    ensures CircleList(CyclicExample(), [0, 2, 3], 0)
    ensures FullNames(CyclicExample(), [0, 2, 3]) == ["t0", "t2", "t3"]
  {
    var tree := CyclicExample();
    var p: seq<nat> := [0, 2, 3];
    CyclicExampleEdges();
    assert IsPath(tree, p) by {
      assert forall k :: 0 <= k < |p| - 1 ==> IsEdge(tree, p[k], p[k + 1]);
    }
    assert IsCycle(tree, p);
    assert Distinct(p);
    assert IsEdge(tree, p[|p| - 1], p[0]);
    assert FullNames(tree, p) == ["t0", "t2", "t3"] by {
      assert GetFull(tree[0].name) == "t0" && GetFull(tree[2].name) == "t2" && GetFull(tree[3].name) == "t3";
    }
  }

  /** In the state test_error's search reaches (t0, t2, t3 flagged, t3 finding t0
      flagged), get_circle's walk from t0 is t0, t2, t3, which is already a cycle. */
  lemma CyclicExampleWalk()
    ensures WellFormed(CyclicExample())
    ensures Walk(CyclicExample(), {0, 2, 3}, 0) == [0, 2, 3]
    ensures CircleList(CyclicExample(), [0, 2, 3], 0)
    ensures CutAtReentry(CyclicExample(), [0, 2, 3]) == [0, 2, 3]
  {
    CyclicExampleHasCycle();
    var tree := CyclicExample();
    assert tree[0].successors == [2] && tree[2].successors == [3] && tree[3].successors == [0, 4];
    assert Walk(tree, {3}, 3) == [3] by {
      assert {3} - {3} == {};
      assert FirstIn([0, 4], {}) == None;
    }
    assert Walk(tree, {2, 3}, 2) == [2, 3] by {
      assert {2, 3} - {2} == {3};
      assert FirstIn([3], {3}) == Some(3);
    }
    assert Walk(tree, {0, 2, 3}, 0) == [0, 2, 3] by {
      assert {0, 2, 3} - {0} == {2, 3};
      assert FirstIn([2], {2, 3}) == Some(2);
    }
    var p: seq<nat> := [0, 2, 3];
    assert FirstIn([0, 4], Elements(p)) == Some(0) by {
      assert 0 in Elements(p);
    }
    assert IndexOf(p, 0) == 0;
  }

  lemma CyclicExampleEdges()
    ensures WellFormed(CyclicExample())
    ensures IsEdge(CyclicExample(), 0, 2) && IsEdge(CyclicExample(), 2, 3) && IsEdge(CyclicExample(), 3, 0)
  {
    var tree := CyclicExample();
    assert tree[0].successors == [2] && tree[2].successors == [3] && tree[3].successors == [0, 4];
  }

  /** A tree on which the node that get_circle's walk ends at has no edge back to the
      node it started at: t0 before t3, t1 before t4, t2 before t1 and t3, t3 before t2
      and t4, t4 before t1 and t2. */
  function LassoTree(): Tree {
    [ Technology(0, Simple("t0"), [], [3]),
      Technology(1, Simple("t1"), [2, 4], [4]),
      Technology(2, Simple("t2"), [3, 4], [1, 3]),
      Technology(3, Simple("t3"), [0, 2], [2, 4]),
      Technology(4, Simple("t4"), [1, 3], [1, 2]) ]
  }

  lemma LassoShape()
    ensures WellFormed(LassoTree())
    ensures LassoTree()[0].successors == [3] && LassoTree()[1].successors == [4]
    ensures LassoTree()[2].successors == [1, 3] && LassoTree()[3].successors == [2, 4]
    ensures LassoTree()[4].successors == [1, 2]
  {
    var tree := LassoTree();
    assert tree[0].successors == [3] && tree[1].successors == [4] && tree[2].successors == [1, 3];
    assert tree[3].successors == [2, 4] && tree[4].successors == [1, 2];
  }

  /** The predecessor lists of LassoTree agree with its successor lists. */
  lemma LassoConsistent()
    ensures Consistent(LassoTree())
  {
    LassoShape();
  }

  /** The search from t0 pushes t0, t3, t2, t1 and t4 in turn, and t4's first
      successor t1 is on the stack. */
  lemma LassoStack()
    ensures OnStack(LassoTree(), [0, 3, 2, 1, 4]) && IsEdge(LassoTree(), 4, 1)
  {
    LassoStackDistinct();
    LassoShape();
    var tree := LassoTree();
    var stack: seq<nat> := [0, 3, 2, 1, 4];
    forall k | 0 <= k < |stack| - 1 ensures IsEdge(tree, stack[k], stack[k + 1]) {
      assert stack[k] in {0, 3, 2, 1};
    }
  }

  lemma LassoStackDistinct()
    ensures Distinct([0, 3, 2, 1, 4])
  {
  }

  lemma BelowFive(k: nat)
    requires k < 5
    ensures k in {0, 1, 2, 3, 4}
  {
  }

  lemma LassoFlags()
    ensures {0, 1, 2, 3, 4} - {1} == {0, 2, 3, 4} && {0, 2, 3, 4} - {4} == {0, 2, 3}
    ensures {0, 2, 3} - {2} == {0, 3} && {0, 3} - {3} == {0}
  {
  }

  /** The walk from t1, with every node flagged, takes t1, t4, t2, t3: t4's first
      flagged successor after t1 is t2, not t1. */
  lemma LassoWalk()
    ensures WellFormed(LassoTree())
    ensures Walk(LassoTree(), {0, 1, 2, 3, 4}, 1) == [1, 4, 2, 3]
  {
    LassoShape();
    LassoFlags();
    var tree := LassoTree();
    assert FirstIn([2, 4], {0}) == None;
    assert Walk(tree, {0, 3}, 3) == [3];
    assert FirstIn([1, 3], {0, 3}) == Some(3);
    assert Walk(tree, {0, 2, 3}, 2) == [2, 3];
    assert FirstIn([1, 2], {0, 2, 3}) == Some(2);
    assert Walk(tree, {0, 2, 3, 4}, 4) == [4, 2, 3];
    assert FirstIn([4], {0, 2, 3, 4}) == Some(4);
  }

  /** The names reported for LassoTree, t1, t4, t2, t3, form a circle list but not a
      cycle: t3 has no edge to t1. The cycle is its tail from t2. */
  lemma LassoNotCycle()
    ensures WellFormed(LassoTree())
    ensures CircleList(LassoTree(), [1, 4, 2, 3], 1) && !IsCycle(LassoTree(), [1, 4, 2, 3])
    ensures CutAtReentry(LassoTree(), [1, 4, 2, 3]) == [2, 3]
  {
    LassoShape();
    var tree := LassoTree();
    var p: seq<nat> := [1, 4, 2, 3];
    forall k | 0 <= k < |p| - 1 ensures IsEdge(tree, p[k], p[k + 1]) {
      assert p[k] in {1, 4, 2};
    }
    assert IsEdge(tree, 3, p[2]);
    assert !IsEdge(tree, 3, 1);
    assert FirstIn([2, 4], Elements(p)) == Some(2) by {
      assert 2 in Elements(p);
    }
    assert IndexOf(p, 2) == 2;
  }

  lemma LassoNames()
    ensures FullNames(LassoTree(), [1, 4, 2, 3]) == ["t1", "t4", "t2", "t3"]
  {
    var tree := LassoTree();
    assert GetFull(tree[1].name) == "t1" && GetFull(tree[4].name) == "t4";
    assert GetFull(tree[2].name) == "t2" && GetFull(tree[3].name) == "t3";
  }

  /** get_circle as written, in the state the search reaches on LassoTree: every node
      flagged, re-entry at t1. */
  method LassoCircle() returns (circle: seq<string>, ghost ids: seq<nat>)
    ensures ids == [1, 4, 2, 3] && CircleList(LassoTree(), ids, 1) && !IsCycle(LassoTree(), ids)
    ensures circle == ["t1", "t4", "t2", "t3"]
    ensures CutAtReentry(LassoTree(), ids) == [2, 3]
  {
    var tree := LassoTree();
    var recursive := new bool[5](_ => true);
    forall k | 0 <= k < 5 ensures recursive[k] <==> k in {0, 1, 2, 3, 4} {
      BelowFive(k);
    }
    LassoShape();
    circle, ids := GetCircle(tree, 1, recursive, {0, 1, 2, 3, 4});
    LassoWalk();
    LassoNotCycle();
    LassoNames();
  }
}
