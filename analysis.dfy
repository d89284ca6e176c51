/** Depth analysis of an acyclic tree (tech_tree/src/usecase/analysis.rs): the length of
    the longest chain of predecessors of every technology, and the grouping of the ids
    by depth. */
module Analysis {
  import opened Wrappers
  import opened Seqs
  import opened Model
  import opened Graph
  import opened Name

  function Max(a: nat, b: nat): nat {
    if a < b then b else a
  }

  /** calculate_technologies_without_predecessors over the first k technologies: the ids
      of those with no predecessor, in tree order. */
  function RootsBelow(tree: Tree, k: nat): seq<nat>
    requires k <= |tree|
  {
    if k == 0 then []
    else if tree[k - 1].predecessors == [] then RootsBelow(tree, k - 1) + [tree[k - 1].id]
    else RootsBelow(tree, k - 1)
  }

  /** Every id collected belongs to a technology among the first k without predecessors;
      with ids equal to positions they come in ascending order and are exactly those. */
  lemma RootsBelowFacts(tree: Tree, k: nat)
    requires k <= |tree|
    ensures forall x :: x in RootsBelow(tree, k) ==> exists i :: 0 <= i < k && tree[i].id == x && tree[i].predecessors == []
    ensures (forall i :: 0 <= i < |tree| ==> tree[i].id == i) ==>
      StrictlyAscending(RootsBelow(tree, k)) && (forall x :: x in RootsBelow(tree, k) ==> x < k) &&
      forall v :: 0 <= v < k ==> (v in RootsBelow(tree, k) <==> tree[v].predecessors == [])
  {
    RootsAreRoots(tree, k);
    if forall i :: 0 <= i < |tree| ==> tree[i].id == i {
      RootsInOrder(tree, k);
    }
  }

  lemma {:induction false} RootsAreRoots(tree: Tree, k: nat)
    requires k <= |tree|
    ensures forall x :: x in RootsBelow(tree, k) ==> exists i :: 0 <= i < k && tree[i].id == x && tree[i].predecessors == []
  {
    if k > 0 {
      RootsAreRoots(tree, k - 1);
      var prev := RootsBelow(tree, k - 1);
      if tree[k - 1].predecessors == [] {
        var r := prev + [tree[k - 1].id];
        assert RootsBelow(tree, k) == r;
        forall x | x in r ensures exists i :: 0 <= i < k && tree[i].id == x && tree[i].predecessors == [] {
          if x !in prev {
            assert tree[k - 1].id == x;
          }
        }
      }
    }
  }

  lemma {:induction false} RootsInOrder(tree: Tree, k: nat)
    requires k <= |tree| && forall i :: 0 <= i < |tree| ==> tree[i].id == i
    ensures StrictlyAscending(RootsBelow(tree, k)) && (forall x :: x in RootsBelow(tree, k) ==> x < k)
    ensures forall v :: 0 <= v < k ==> (v in RootsBelow(tree, k) <==> tree[v].predecessors == [])
  {
    if k > 0 {
      RootsInOrder(tree, k - 1);
      var prev := RootsBelow(tree, k - 1);
      if tree[k - 1].predecessors == [] {
        var r := prev + [k - 1];
        assert RootsBelow(tree, k) == r;
        forall a, b | 0 <= a < b < |r| ensures r[a] < r[b] {
          if b < |prev| {
            assert r[a] == prev[a] && r[b] == prev[b];
          } else {
            assert r[a] == prev[a] && prev[a] in prev;
          }
        }
        forall v | 0 <= v < k ensures v in r <==> tree[v].predecessors == [] {
          assert v in r <==> v in prev || v == k - 1;
        }
      } else {
        assert RootsBelow(tree, k) == prev;
        assert k - 1 !in prev;
      }
    }
  }

  /** calculate_technologies_without_predecessors: the ids of the technologies that have
      no predecessor, in tree order. */
  function WithoutPredecessors(tree: Tree): (r: seq<nat>)
    ensures forall x :: x in r ==> exists i :: 0 <= i < |tree| && tree[i].id == x && tree[i].predecessors == []
    ensures WellFormed(tree) ==>
      StrictlyAscending(r) && forall v :: 0 <= v < |tree| ==> (v in r <==> tree[v].predecessors == [])
  {
    RootsBelowFacts(tree, |tree|);
    RootsBelow(tree, |tree|)
  }

  /** The trees calculate_depth is meant for: well formed, consistent and acyclic. */
  ghost predicate Dag(tree: Tree) {
    WellFormed(tree) && Consistent(tree) && !HasCycle(tree)
  }

  /** A predecessor of v is joined to v by an edge and has fewer ancestors. */
  lemma PredecessorEdge(tree: Tree, v: nat, j: nat)
    requires Dag(tree) && v < |tree| && j < |tree[v].predecessors|
    ensures IsEdge(tree, tree[v].predecessors[j], v)
    ensures |Ancestors(tree, tree[v].predecessors[j])| < |Ancestors(tree, v)|
  {
    var p := tree[v].predecessors[j];
    assert p < |tree|;
    assert p in tree[v].predecessors;
    AncestorsGrow(tree, p, v);
  }

  /** The depth of v: 0 without predecessors, otherwise one more than the deepest predecessor. */
  ghost function Depth(tree: Tree, v: nat): nat
    requires Dag(tree) && v < |tree|
    decreases |Ancestors(tree, v)|, |tree[v].predecessors| + 1
  {
    PredMax(tree, v, |tree[v].predecessors|)
  }

  /** The largest Depth(p) + 1 over the first k predecessors p of v, or 0 for none. */
  ghost function PredMax(tree: Tree, v: nat, k: nat): nat
    requires Dag(tree) && v < |tree| && k <= |tree[v].predecessors|
    decreases |Ancestors(tree, v)|, k
  {
    if k == 0 then 0
    else
      PredecessorEdge(tree, v, k - 1);
      Max(PredMax(tree, v, k - 1), Depth(tree, tree[v].predecessors[k - 1]) + 1)
  }

  /** PredMax is the largest Depth(p) + 1 over the first k predecessors. */
  lemma {:induction false} PredMaxIsMax(tree: Tree, v: nat, k: nat)
    requires Dag(tree) && v < |tree| && k <= |tree[v].predecessors|
    ensures forall j :: 0 <= j < k ==>
      (tree[v].predecessors[j] < |tree| && Depth(tree, tree[v].predecessors[j]) + 1 <= PredMax(tree, v, k))
    ensures k > 0 ==>
      exists j :: 0 <= j < k && (tree[v].predecessors[j] < |tree| && PredMax(tree, v, k) == Depth(tree, tree[v].predecessors[j]) + 1)
  {
    if k > 0 {
      PredMaxIsMax(tree, v, k - 1);
      PredecessorEdge(tree, v, k - 1);
    }
  }

  /** The defining property of depth: 0 without predecessors, at least one more than
      every predecessor, and exactly one more than some predecessor. */
  lemma DepthIsMax(tree: Tree, v: nat)
    requires Dag(tree) && v < |tree|
    ensures tree[v].predecessors == [] ==> Depth(tree, v) == 0
    ensures forall j :: 0 <= j < |tree[v].predecessors| ==>
      (tree[v].predecessors[j] < |tree| && Depth(tree, tree[v].predecessors[j]) + 1 <= Depth(tree, v))
    ensures tree[v].predecessors != [] ==>
      exists j :: 0 <= j < |tree[v].predecessors| && (tree[v].predecessors[j] < |tree| && Depth(tree, v) == Depth(tree, tree[v].predecessors[j]) + 1)
  {
    PredMaxIsMax(tree, v, |tree[v].predecessors|);
  }

  /** Depth along an edge grows by at least one. */
  lemma EdgeDepth(tree: Tree, u: nat, v: nat)
    requires Dag(tree) && IsEdge(tree, u, v)
    ensures v < |tree| && Depth(tree, u) + 1 <= Depth(tree, v)
  {
    assert v < |tree| by {
      var k :| 0 <= k < |tree[u].successors| && tree[u].successors[k] == v;
    }
    assert u in tree[v].predecessors;
    var j :| 0 <= j < |tree[v].predecessors| && tree[v].predecessors[j] == u;
    DepthIsMax(tree, v);
  }

  /** The depth is the length of the longest chain: no walk into v is longer ... */
  lemma {:induction false} ChainBelowDepth(tree: Tree, p: seq<nat>)
    requires Dag(tree) && IsPath(tree, p)
    ensures Depth(tree, p[0]) + |p| - 1 <= Depth(tree, p[|p| - 1])
  {
    if |p| > 1 {
      var q := p[..|p| - 1];
      assert IsPath(tree, q) by {
        forall k | 0 <= k < |q| - 1 ensures IsEdge(tree, q[k], q[k + 1]) {
          assert q[k] == p[k] && q[k + 1] == p[k + 1];
        }
      }
      ChainBelowDepth(tree, q);
      EdgeDepth(tree, p[|p| - 2], p[|p| - 1]);
    }
  }

  /** ... and some walk of exactly Depth(v) edges leads to v from a technology without
      predecessors. */
  lemma RootChain(tree: Tree, v: nat) returns (p: seq<nat>)
    requires Dag(tree) && v < |tree|
    ensures WalkTo(tree, p, v) && tree[p[0]].predecessors == []
    ensures |p| == Depth(tree, v) + 1
    decreases |Ancestors(tree, v)|
  {
    DepthIsMax(tree, v);
    if tree[v].predecessors == [] {
      p := [v];
    } else {
      var j :| 0 <= j < |tree[v].predecessors| && Depth(tree, v) == Depth(tree, tree[v].predecessors[j]) + 1;
      var u := tree[v].predecessors[j];
      PredecessorEdge(tree, v, j);
      var q := RootChain(tree, u);
      PathAppend(tree, q, v);
      p := q + [v];
    }
  }

  /** p is a walk that ends at u. */
  predicate WalkTo(tree: Tree, p: seq<nat>, u: nat) {
    IsPath(tree, p) && p[|p| - 1] == u
  }

  /** The number of walks that start at v; every dequeued id puts its successors in
      the queue, so this bounds the work left for one queue entry. */
  ghost function Paths(tree: Tree, v: nat): nat
    requires WellFormed(tree) && !HasCycle(tree) && v < |tree|
    decreases |Reach(tree, v)|, |tree[v].successors| + 1
  {
    1 + SuccPaths(tree, v, |tree[v].successors|)
  }

  ghost function SuccPaths(tree: Tree, v: nat, k: nat): nat
    requires WellFormed(tree) && !HasCycle(tree) && v < |tree| && k <= |tree[v].successors|
    decreases |Reach(tree, v)|, k
  {
    if k == 0 then 0
    else
      var s := tree[v].successors[k - 1];
      assert IsEdge(tree, v, s);
      ReachShrinks(tree, v, s);
      SuccPaths(tree, v, k - 1) + Paths(tree, s)
  }

  /** The work left for a whole queue. */
  ghost function SumPaths(tree: Tree, qs: seq<nat>): nat
    requires WellFormed(tree) && !HasCycle(tree) && forall k :: 0 <= k < |qs| ==> qs[k] < |tree|
  {
    if qs == [] then 0 else SumPaths(tree, qs[..|qs| - 1]) + Paths(tree, qs[|qs| - 1])
  }

  lemma {:induction false} SumPathsAppend(tree: Tree, a: seq<nat>, b: seq<nat>)
    requires WellFormed(tree) && !HasCycle(tree)
    requires forall k :: 0 <= k < |a| ==> a[k] < |tree|
    requires forall k :: 0 <= k < |b| ==> b[k] < |tree|
    ensures SumPaths(tree, a + b) == SumPaths(tree, a) + SumPaths(tree, b)
    decreases |b|
  {
    if b != [] {
      assert (a + b)[..|a + b| - 1] == a + b[..|b| - 1];
      SumPathsAppend(tree, a, b[..|b| - 1]);
    } else {
      assert a + b == a;
    }
  }

  lemma {:induction false} SuccPathsSum(tree: Tree, v: nat, k: nat)
    requires WellFormed(tree) && !HasCycle(tree) && v < |tree| && k <= |tree[v].successors|
    ensures SuccPaths(tree, v, k) == SumPaths(tree, tree[v].successors[..k])
  {
    if k > 0 {
      SuccPathsSum(tree, v, k - 1);
      assert tree[v].successors[..k][..k - 1] == tree[v].successors[..k - 1];
    }
  }

  /** Dequeuing id and enqueueing its successors lowers the work left by one. */
  lemma QueueStep(tree: Tree, queue: seq<nat>)
    requires WellFormed(tree) && !HasCycle(tree) && queue != []
    requires forall k :: 0 <= k < |queue| ==> queue[k] < |tree|
    ensures SumPaths(tree, queue[1..] + tree[queue[0]].successors) + 1 == SumPaths(tree, queue)
  {
    var id := queue[0];
    assert queue == [id] + queue[1..];
    SumPathsAppend(tree, [id], queue[1..]);
    assert [id][..0] == [];
    SuccPathsSum(tree, id, |tree[id].successors|);
    assert tree[id].successors[..|tree[id].successors|] == tree[id].successors;
    SumPathsAppend(tree, queue[1..], tree[id].successors);
  }

  /** u holds its depth, and so does the relaxation of its successors. */
  ghost predicate Settled(tree: Tree, numbers: seq<nat>, u: nat)
    requires Dag(tree) && |numbers| == |tree| && u < |tree|
  {
    && numbers[u] == Depth(tree, u)
    && forall k :: 0 <= k < |tree[u].successors| ==> numbers[tree[u].successors[k]] >= Depth(tree, u) + 1
  }

  /** Some queue entry starts a walk to u along which the relaxations still to come
      raise u to its depth. */
  ghost predicate Pending(tree: Tree, numbers: seq<nat>, queue: seq<nat>, u: nat)
    requires Dag(tree) && |numbers| == |tree| && u < |tree|
  {
    exists p :: WalkTo(tree, p, u) && p[0] in queue && numbers[p[0]] + |p| - 1 >= Depth(tree, u)
  }

  ghost predicate Covered(tree: Tree, numbers: seq<nat>, queue: seq<nat>, u: nat)
    requires Dag(tree) && |numbers| == |tree| && u < |tree|
  {
    Settled(tree, numbers, u) || Pending(tree, numbers, queue, u)
  }

  /** A settled technology stays settled while the numbers only grow up to the depths. */
  lemma SettledStays(tree: Tree, numbers0: seq<nat>, numbers1: seq<nat>, u: nat)
    requires Dag(tree) && |numbers0| == |tree| && |numbers1| == |tree| && u < |tree|
    requires forall v :: 0 <= v < |tree| ==> numbers0[v] <= numbers1[v] <= Depth(tree, v)
    requires Settled(tree, numbers0, u)
    ensures Settled(tree, numbers1, u)
  {
    forall k | 0 <= k < |tree[u].successors| ensures numbers1[tree[u].successors[k]] >= Depth(tree, u) + 1 {
      assert tree[u].successors[k] < |tree|;
    }
  }

  /** A walk from the front entry continues from the entry its second node got at the back. */
  lemma PendingStep(tree: Tree, numbers0: seq<nat>, queue0: seq<nat>, numbers1: seq<nat>, queue1: seq<nat>, u: nat, p: seq<nat>)
    requires Dag(tree) && |numbers0| == |tree| && |numbers1| == |tree| && u < |tree| && queue0 != []
    requires queue0[0] < |tree|
    requires queue1 == queue0[1..] + tree[queue0[0]].successors
    requires forall v :: 0 <= v < |tree| ==> numbers0[v] <= numbers1[v] <= Depth(tree, v)
    requires forall k :: 0 <= k < |tree[queue0[0]].successors| ==>
      numbers1[tree[queue0[0]].successors[k]] >= numbers0[queue0[0]] + 1
    requires WalkTo(tree, p, u) && p[0] in queue0 && numbers0[p[0]] + |p| - 1 >= Depth(tree, u)
    ensures Covered(tree, numbers1, queue1, u)
  {
    var id := queue0[0];
    if p[0] in queue0[1..] {
      assert p[0] in queue1;
      assert Pending(tree, numbers1, queue1, u);
    } else if |p| == 1 {
      assert u == id;
      SettledAtFront(tree, numbers0, numbers1, id);
    } else {
      var q := p[1..];
      assert IsEdge(tree, p[0], p[1]);
      assert p[0] == id;
      var k :| 0 <= k < |tree[id].successors| && tree[id].successors[k] == p[1];
      assert q[0] in queue1 by {
        assert queue1[|queue0[1..]| + k] == p[1];
      }
      assert IsPath(tree, q) by {
        forall i | 0 <= i < |q| - 1 ensures IsEdge(tree, q[i], q[i + 1]) {
          assert q[i] == p[i + 1] && q[i + 1] == p[i + 2];
        }
      }
      assert WalkTo(tree, q, u);
      assert numbers1[q[0]] + |q| - 1 >= Depth(tree, u);
      assert Pending(tree, numbers1, queue1, u);
    }
  }

  /** The front entry, dequeued at its depth, settles. */
  lemma SettledAtFront(tree: Tree, numbers0: seq<nat>, numbers1: seq<nat>, id: nat)
    requires Dag(tree) && |numbers0| == |tree| && |numbers1| == |tree| && id < |tree|
    requires forall v :: 0 <= v < |tree| ==> numbers0[v] <= numbers1[v] <= Depth(tree, v)
    requires numbers0[id] >= Depth(tree, id)
    requires forall k :: 0 <= k < |tree[id].successors| ==> numbers1[tree[id].successors[k]] >= numbers0[id] + 1
    ensures Settled(tree, numbers1, id)
  {
  }

  /** Processing the front entry keeps every technology covered. */
  lemma CoveredStep(tree: Tree, numbers0: seq<nat>, queue0: seq<nat>, numbers1: seq<nat>, queue1: seq<nat>, u: nat)
    requires Dag(tree) && |numbers0| == |tree| && |numbers1| == |tree| && u < |tree| && queue0 != []
    requires queue0[0] < |tree|
    requires queue1 == queue0[1..] + tree[queue0[0]].successors
    requires forall v :: 0 <= v < |tree| ==> numbers0[v] <= numbers1[v] <= Depth(tree, v)
    requires forall k :: 0 <= k < |tree[queue0[0]].successors| ==>
      numbers1[tree[queue0[0]].successors[k]] >= numbers0[queue0[0]] + 1
    requires Covered(tree, numbers0, queue0, u)
    ensures Covered(tree, numbers1, queue1, u)
  {
    if Settled(tree, numbers0, u) {
      SettledStays(tree, numbers0, numbers1, u);
    } else {
      var p :| WalkTo(tree, p, u) && p[0] in queue0 && numbers0[p[0]] + |p| - 1 >= Depth(tree, u);
      PendingStep(tree, numbers0, queue0, numbers1, queue1, u, p);
    }
  }

  /** At the start every technology is reached by a walk of its depth from a technology
      without predecessors, and those are all in the queue. */
  lemma InitiallyCovered(tree: Tree, numbers: seq<nat>, u: nat)
    requires Dag(tree) && |numbers| == |tree| && u < |tree|
    requires forall v :: 0 <= v < |tree| ==> numbers[v] == 0
    ensures Covered(tree, numbers, WithoutPredecessors(tree), u)
  {
    var p := RootChain(tree, u);
    assert p[0] in WithoutPredecessors(tree);
  }

  lemma InitiallyCoveredAll(tree: Tree, numbers: seq<nat>)
    requires Dag(tree) && |numbers| == |tree|
    requires forall v :: 0 <= v < |tree| ==> numbers[v] == 0
    ensures forall u :: 0 <= u < |tree| ==> Covered(tree, numbers, WithoutPredecessors(tree), u)
  {
    forall u | 0 <= u < |tree| ensures Covered(tree, numbers, WithoutPredecessors(tree), u) {
      InitiallyCovered(tree, numbers, u);
    }
  }

  /** calculate_depth: a FIFO relaxation from the technologies without predecessors;
      every dequeued id raises each successor to at least its own depth plus one and
      enqueues it. On an acyclic tree the result is the longest chain of predecessors
      of every technology. */
  method CalculateDepth(tree: Tree) returns (numbers: seq<nat>)
    requires WellFormed(tree) && Consistent(tree) && !HasCycle(tree)
    ensures |numbers| == |tree|
    ensures forall v :: 0 <= v < |tree| ==> numbers[v] == Depth(tree, v)
  {
    numbers := seq(|tree|, _ => 0 as nat);
    var queue: seq<nat> := WithoutPredecessors(tree);
    forall k | 0 <= k < |queue| ensures queue[k] < |tree| {
      assert queue[k] in queue;
    }
    InitiallyCoveredAll(tree, numbers);
    while queue != []
      invariant |numbers| == |tree|
      invariant forall k :: 0 <= k < |queue| ==> queue[k] < |tree|
      invariant forall v :: 0 <= v < |tree| ==> numbers[v] <= Depth(tree, v)
      invariant forall u :: 0 <= u < |tree| ==> Covered(tree, numbers, queue, u)
      decreases SumPaths(tree, queue)
    {
      ghost var queue0: seq<nat>, numbers0: seq<nat> := queue, numbers;
      var id := queue[0];
      queue := queue[1..];
      var technology := Get(tree, id);
      if technology.Some? {
        numbers, queue := RaiseSuccessors(tree, id, technology.value.successors, numbers, queue);
        QueueStep(tree, queue0);
        forall u | 0 <= u < |tree| ensures Covered(tree, numbers, queue, u) {
          CoveredStep(tree, numbers0, queue0, numbers, queue, u);
        }
      }
    }
    forall v | 0 <= v < |tree| ensures numbers[v] == Depth(tree, v) {
      CoveredAtEnd(tree, numbers, v);
    }
  }

  /** calculate_depth's inner loop: every successor of id is raised to at least the
      depth of id plus one, and is enqueued, in order; no number exceeds its depth. */
  method RaiseSuccessors(tree: Tree, id: nat, successors: seq<nat>, numbers0: seq<nat>, queue0: seq<nat>)
    returns (numbers: seq<nat>, queue: seq<nat>)
    requires Dag(tree) && id < |tree| && successors == tree[id].successors && |numbers0| == |tree|
    requires forall v :: 0 <= v < |tree| ==> numbers0[v] <= Depth(tree, v)
    ensures |numbers| == |tree|
    ensures queue == queue0 + successors
    ensures forall v :: 0 <= v < |tree| ==> numbers0[v] <= numbers[v] <= Depth(tree, v)
    ensures forall l :: 0 <= l < |successors| ==> numbers[successors[l]] >= numbers0[id] + 1
  {
    numbers, queue := numbers0, queue0;
    var next: nat := numbers[id] + 1;
    var k := 0;
    while k < |successors|
      invariant 0 <= k <= |successors|
      invariant |numbers| == |tree|
      invariant queue == queue0 + successors[..k]
      invariant forall v :: 0 <= v < |tree| ==> numbers0[v] <= numbers[v] <= Depth(tree, v)
      invariant forall l :: 0 <= l < k ==> numbers[successors[l]] >= next
    {
      var s := successors[k];
      assert IsEdge(tree, id, s);
      EdgeDepth(tree, id, s);
      numbers := numbers[s := Max(next, numbers[s])];
      queue := queue + [s];
      assert successors[..k + 1] == successors[..k] + [s];
      k := k + 1;
    }
    assert successors[..k] == successors;
  }

  /** With the queue empty nothing is pending, so every technology is settled. */
  lemma CoveredAtEnd(tree: Tree, numbers: seq<nat>, u: nat)
    requires Dag(tree) && |numbers| == |tree| && u < |tree|
    requires Covered(tree, numbers, [], u)
    ensures numbers[u] == Depth(tree, u)
  {
  }

  /** The largest depth, or 0 for an empty list (max().unwrap_or(&0)). */
  function MaxOf(s: seq<nat>): (m: nat)
    ensures forall i :: 0 <= i < |s| ==> s[i] <= m
    ensures s != [] ==> exists i :: 0 <= i < |s| && s[i] == m
    ensures s == [] ==> m == 0
  {
    if s == [] then 0 else Max(MaxOf(s[..|s| - 1]), s[|s| - 1])
  }

  /** The indices below k whose depth is d, in ascending order. */
  function AtDepth(depth: seq<nat>, d: nat, k: nat): (r: seq<nat>)
    requires k <= |depth|
    ensures StrictlyAscending(r)
    ensures forall i: nat :: i in r <==> i < k && depth[i] == d
  {
    if k == 0 then []
    else if depth[k - 1] == d then
      var prev := AtDepth(depth, d, k - 1);
      var r := prev + [k - 1];
      assert StrictlyAscending(r) by {
        forall a, b | 0 <= a < b < |r| ensures r[a] < r[b] {
          if b < |prev| {
            assert r[a] == prev[a] && r[b] == prev[b];
          } else {
            assert r[a] == prev[a] && prev[a] in prev;
          }
        }
      }
      r
    else AtDepth(depth, d, k - 1)
  }

  /** group_by_depth: one group per depth from 0 to the largest, the i-th index pushed
      onto the group of its depth; empty groups in between are kept. */
  method GroupByDepth(depth: seq<nat>) returns (groups: seq<seq<nat>>)
    ensures |groups| == MaxOf(depth) + 1
    ensures forall d :: 0 <= d < |groups| ==> groups[d] == AtDepth(depth, d, |depth|)
  {
    var maxDepth := MaxOf(depth);
    groups := seq(maxDepth + 1, _ => []);
    var i := 0;
    while i < |depth|
      invariant 0 <= i <= |depth|
      invariant |groups| == maxDepth + 1
      invariant forall d :: 0 <= d < |groups| ==> groups[d] == AtDepth(depth, d, i)
    {
      groups := groups[depth[i] := groups[depth[i]] + [i]];
      i := i + 1;
    }
  }

  /** A strictly ascending list holds each of its elements exactly once. */
  lemma {:induction false} AscendingCountOne(s: seq<nat>, x: nat)
    requires StrictlyAscending(s) && x in s
    ensures Count(s, x) == 1
  {
    var t := s[..|s| - 1];
    if s[|s| - 1] == x {
      forall j | 0 <= j < |t| ensures t[j] != x {
        assert s[j] < s[|s| - 1];
      }
    } else {
      assert x in t;
      AscendingCountOne(t, x);
    }
  }

  /** The groups partition the indices: index i is in the group of its depth exactly
      once, and in no other group. */
  lemma GroupsPartition(depth: seq<nat>, i: nat, d: nat)
    requires i < |depth|
    ensures d == depth[i] ==> Count(AtDepth(depth, d, |depth|), i) == 1
    ensures d != depth[i] ==> Count(AtDepth(depth, d, |depth|), i) == 0
    ensures depth[i] <= MaxOf(depth)
  {
    if d == depth[i] {
      AscendingCountOne(AtDepth(depth, d, |depth|), i);
    }
  }

  /** The tree of the analysis tests, with the successor lists create_tree derives. */
  function ExampleTree(): Tree {
    [ Technology(0, Simple("t0"), [], [2]),
      Technology(1, Simple("t1"), [], [3]),
      Technology(2, Simple("t2"), [0], [3]),
      Technology(3, Simple("t3"), [2, 1], [4]),
      Technology(4, Simple("t4"), [3], []) ]
  }

  lemma ExampleDag()
    ensures Dag(ExampleTree())
  {
    ExampleConsistent();
    ExampleAcyclic();
  }

  lemma ExampleConsistent()
    ensures WellFormed(ExampleTree()) && Consistent(ExampleTree())
  {
    ExampleWellFormed();
    ExampleEdgesMatch();
  }

  lemma ExampleWellFormed()
    ensures WellFormed(ExampleTree())
  {
  }

  lemma ExampleEdgesMatch()
    ensures Consistent(ExampleTree())
  {
    var tree := ExampleTree();
    forall a, b | 0 <= a < 5 && 0 <= b < 5
      ensures b in tree[a].successors <==> a in tree[b].predecessors
    {
      ExampleEdge(a, b);
    }
  }

  /** The edges of the example, read off both lists of every technology. */
  lemma ExampleEdge(a: nat, b: nat)
    requires a < 5 && b < 5
    ensures b in ExampleTree()[a].successors <==> (a, b) in {(0, 2), (1, 3), (2, 3), (3, 4)}
    ensures a in ExampleTree()[b].predecessors <==> (a, b) in {(0, 2), (1, 3), (2, 3), (3, 4)}
  {
    var tree := ExampleTree();
    var succ: seq<seq<nat>> := [[2], [3], [3], [4], []];
    var pred: seq<seq<nat>> := [[], [], [0], [2, 1], [3]];
    assert tree[a].successors == succ[a] && tree[b].predecessors == pred[b];
  }

  lemma ExampleAcyclic()
    ensures WellFormed(ExampleTree()) && !HasCycle(ExampleTree())
  {
    var tree := ExampleTree();
    var rank: seq<nat> := [4, 4, 3, 2, 1];
    forall u: nat, v: nat | u < |tree| && IsEdge(tree, u, v) && v < |tree|
      ensures rank[v] < rank[u]
    {
      assert u == 0 ==> v == 2;
      assert u == 1 ==> v == 3;
      assert u == 2 ==> v == 3;
      assert u == 3 ==> v == 4;
      assert u != 4;
    }
    DecreasingRankAcyclic(tree, rank);
  }

  /** test_calculate_depth: the depths are 0, 0, 1, 2, 3. */
  lemma DepthExample()
    ensures Dag(ExampleTree())
    ensures Depth(ExampleTree(), 0) == 0 && Depth(ExampleTree(), 1) == 0 && Depth(ExampleTree(), 2) == 1
    ensures Depth(ExampleTree(), 3) == 2 && Depth(ExampleTree(), 4) == 3
  {
    ExampleDag();
    var tree := ExampleTree();
    DepthIsMax(tree, 0);
    DepthIsMax(tree, 1);
    DepthIsMax(tree, 2);
    DepthIsMax(tree, 3);
    DepthIsMax(tree, 4);
  }

  /** test_calculate_technologies_without_predecessors: the roots are t0 and t1. */
  lemma RootsExample()
    ensures WithoutPredecessors(ExampleTree()) == [0, 1]
  {
    var tree := ExampleTree();
    assert RootsBelow(tree, 1) == [0];
    assert RootsBelow(tree, 2) == [0, 1];
    assert RootsBelow(tree, 3) == [0, 1];
    assert RootsBelow(tree, 4) == [0, 1];
  }

  function ExampleDepths(): seq<nat> {
    [0, 2, 2, 0, 2, 4]
  }

  lemma GroupZeroPrefix()
    ensures AtDepth(ExampleDepths(), 0, 3) == [0]
  {
    var depth := ExampleDepths();
    assert AtDepth(depth, 0, 1) == [0];
    assert AtDepth(depth, 0, 2) == [0];
  }

  lemma GroupZeroExample()
    ensures AtDepth(ExampleDepths(), 0, 6) == [0, 3]
  {
    var depth := ExampleDepths();
    GroupZeroPrefix();
    assert AtDepth(depth, 0, 4) == [0, 3];
    assert AtDepth(depth, 0, 5) == [0, 3];
  }

  lemma GroupTwoPrefix()
    ensures AtDepth(ExampleDepths(), 2, 3) == [1, 2]
  {
    var depth := ExampleDepths();
    assert AtDepth(depth, 2, 1) == [];
    assert AtDepth(depth, 2, 2) == [1];
  }

  lemma GroupTwoExample()
    ensures AtDepth(ExampleDepths(), 2, 6) == [1, 2, 4]
  {
    var depth := ExampleDepths();
    GroupTwoPrefix();
    assert AtDepth(depth, 2, 4) == [1, 2];
    assert AtDepth(depth, 2, 5) == [1, 2, 4];
  }

  lemma EmptyGroupExample(d: nat)
    requires d == 1 || d == 3
    ensures AtDepth(ExampleDepths(), d, 6) == []
  {
    var depth := ExampleDepths();
    assert AtDepth(depth, d, 1) == [];
    assert AtDepth(depth, d, 2) == [];
    assert AtDepth(depth, d, 3) == [];
    assert AtDepth(depth, d, 4) == [];
    assert AtDepth(depth, d, 5) == [];
  }

  lemma GroupFourExample()
    ensures AtDepth(ExampleDepths(), 4, 6) == [5]
  {
    var depth := ExampleDepths();
    assert AtDepth(depth, 4, 1) == [];
    assert AtDepth(depth, 4, 2) == [];
    assert AtDepth(depth, 4, 3) == [];
    assert AtDepth(depth, 4, 4) == [];
    assert AtDepth(depth, 4, 5) == [];
  }

  lemma MaxExample()
    ensures MaxOf(ExampleDepths()) == 4
  {
    var depth := ExampleDepths();
    var m := MaxOf(depth);
    assert depth[5] <= m;
    var i :| 0 <= i < |depth| && depth[i] == m;
  }

  /** test_group_by_depth: [0, 2, 2, 0, 2, 4] groups to [[0, 3], [], [1, 2, 4], [], [5]]. */
  lemma GroupExample()
    ensures MaxOf(ExampleDepths()) + 1 == 5
    ensures AtDepth(ExampleDepths(), 0, 6) == [0, 3]
    ensures AtDepth(ExampleDepths(), 1, 6) == []
    ensures AtDepth(ExampleDepths(), 2, 6) == [1, 2, 4]
    ensures AtDepth(ExampleDepths(), 3, 6) == []
    ensures AtDepth(ExampleDepths(), 4, 6) == [5]
  {
    MaxExample();
    GroupZeroExample();
    EmptyGroupExample(1);
    GroupTwoExample();
    EmptyGroupExample(3);
    GroupFourExample();
  }
}
