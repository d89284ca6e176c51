/** The graph structure of a tree: well-formedness, edges, paths, cycles and reachability. */
module Graph {
  import opened Seqs
  import opened Model

  /** Every technology's id is its position, and every id it refers to is in range. */
  predicate WellFormed(tree: Tree) {
    && (forall i :: 0 <= i < |tree| ==> tree[i].id == i)
    && (forall i, k :: 0 <= i < |tree| && 0 <= k < |tree[i].successors| ==> tree[i].successors[k] < |tree|)
    && (forall i, k :: 0 <= i < |tree| && 0 <= k < |tree[i].predecessors| ==> tree[i].predecessors[k] < |tree|)
  }

  /** b is a successor of a exactly when a is a predecessor of b. */
  predicate Consistent(tree: Tree) {
    forall a, b :: 0 <= a < |tree| && 0 <= b < |tree| ==>
      (b in tree[a].successors <==> a in tree[b].predecessors)
  }

  /** An edge of the successor relation. */
  predicate IsEdge(tree: Tree, u: nat, v: nat) {
    u < |tree| && v in tree[u].successors
  }

  /** A non-empty walk along successor edges. */
  predicate IsPath(tree: Tree, p: seq<nat>) {
    && |p| > 0
    && (forall k :: 0 <= k < |p| ==> p[k] < |tree|)
    && (forall k :: 0 <= k < |p| - 1 ==> IsEdge(tree, p[k], p[k + 1]))
  }

  /** A walk whose last node has an edge back to its first. */
  predicate IsCycle(tree: Tree, p: seq<nat>) {
    IsPath(tree, p) && IsEdge(tree, p[|p| - 1], p[0])
  }

  ghost predicate HasCycle(tree: Tree) {
    exists p :: IsCycle(tree, p)
  }

  /** A ranking that strictly decreases along every successor edge rules out cycles. */
  lemma DecreasingRankAcyclic(tree: Tree, rank: seq<nat>)
    requires |rank| == |tree|
    requires forall u: nat, v: nat :: u < |tree| && IsEdge(tree, u, v) && v < |tree| ==> rank[v] < rank[u]
    ensures !HasCycle(tree)
  {
    if p :| IsCycle(tree, p) {
      var k := 0;
      while k < |p| - 1
        invariant 0 <= k <= |p| - 1
        invariant rank[p[k]] + k <= rank[p[0]]
      {
        assert IsEdge(tree, p[k], p[k + 1]);
        k := k + 1;
      }
    }
  }

  /** p is a walk from a to b. */
  predicate Connects(tree: Tree, p: seq<nat>, a: nat, b: nat) {
    IsPath(tree, p) && p[0] == a && p[|p| - 1] == b
  }

  ghost predicate Reaches(tree: Tree, a: nat, b: nat) {
    exists p :: Connects(tree, p, a, b)
  }

  /** The nodes reachable from v (v included). */
  ghost function Reach(tree: Tree, v: nat): set<nat> {
    set w: nat | w < |tree| && Reaches(tree, v, w)
  }

  /** The nodes from which v is reachable (v included). */
  ghost function Ancestors(tree: Tree, v: nat): set<nat> {
    set w: nat | w < |tree| && Reaches(tree, w, v)
  }

  lemma PathPrepend(tree: Tree, u: nat, p: seq<nat>)
    requires IsPath(tree, p) && IsEdge(tree, u, p[0])
    ensures IsPath(tree, [u] + p)
  {
    var q := [u] + p;
    forall k | 0 <= k < |q| - 1 ensures IsEdge(tree, q[k], q[k + 1]) {
      if k > 0 { assert q[k] == p[k - 1] && q[k + 1] == p[k]; }
    }
  }

  lemma PathAppend(tree: Tree, p: seq<nat>, v: nat)
    requires IsPath(tree, p) && IsEdge(tree, p[|p| - 1], v) && v < |tree|
    ensures IsPath(tree, p + [v])
  {
    var q := p + [v];
    forall k | 0 <= k < |q| - 1 ensures IsEdge(tree, q[k], q[k + 1]) {
      if k < |p| - 1 { assert q[k] == p[k] && q[k + 1] == p[k + 1]; }
    }
  }

  lemma SingletonPath(tree: Tree, v: nat)
    requires v < |tree|
    ensures Connects(tree, [v], v, v)
  {
  }

  /** On an acyclic tree, following an edge strictly shrinks the reachable set. */
  lemma ReachShrinks(tree: Tree, u: nat, v: nat)
    requires WellFormed(tree) && !HasCycle(tree)
    requires IsEdge(tree, u, v)
    ensures |Reach(tree, v)| < |Reach(tree, u)|
  {
    forall w | w in Reach(tree, v) ensures w in Reach(tree, u) - {u} {
      var p :| Connects(tree, p, v, w);
      PathPrepend(tree, u, p);
      assert Connects(tree, [u] + p, u, w);
      if w == u {
        assert IsCycle(tree, p);
      }
    }
    SubsetCard(Reach(tree, v), Reach(tree, u) - {u});
    SingletonPath(tree, u);
    assert u in Reach(tree, u);
  }

  /** On an acyclic tree, following an edge strictly grows the set of ancestors. */
  lemma AncestorsGrow(tree: Tree, u: nat, v: nat)
    requires WellFormed(tree) && !HasCycle(tree)
    requires IsEdge(tree, u, v)
    ensures |Ancestors(tree, u)| < |Ancestors(tree, v)|
  {
    assert v < |tree|;
    forall w | w in Ancestors(tree, u) ensures w in Ancestors(tree, v) - {v} {
      var p :| Connects(tree, p, w, u);
      PathAppend(tree, p, v);
      assert Connects(tree, p + [v], w, v);
      if w == v {
        assert IsCycle(tree, p);
      }
    }
    SubsetCard(Ancestors(tree, u), Ancestors(tree, v) - {v});
    SingletonPath(tree, v);
    assert v in Ancestors(tree, v);
  }
}
