/** Paths through an adjacency map, and what they cost.

    An adjacency map sends each node to the set of its neighbours; a node
    missing from the map has no neighbours (the map behaves as a
    `defaultdict(set)`). A path is a non-empty sequence of nodes in which every
    node is a neighbour of the one before it; its cost is the sum of the edge
    cost over consecutive pairs, taken in the direction of travel. */
module Paths {

  /** The neighbours of `n`: empty for a node that was never connected. */
  function NeighborsOf<N(==)>(adj: map<N, set<N>>, n: N): set<N> {
    if n in adj then adj[n] else {}
  }

  /** Every node that is a neighbour of some node. */
  ghost function Targets<N>(adj: map<N, set<N>>): set<N> {
    set x, y | x in adj && y in adj[x] :: y
  }

  ghost predicate IsPath<N>(adj: map<N, set<N>>, p: seq<N>) {
    |p| >= 1 && forall i :: 0 <= i < |p| - 1 ==> p[i + 1] in NeighborsOf(adj, p[i])
  }

  /** `p` ends at `y`. */
  predicate EndsAt<N(==)>(p: seq<N>, y: N) {
    |p| > 0 && p[|p| - 1] == y
  }

  ghost predicate PathFromTo<N>(adj: map<N, set<N>>, p: seq<N>, a: N, b: N) {
    IsPath(adj, p) && p[0] == a && EndsAt(p, b)
  }

  ghost predicate Reachable<N(!new)>(adj: map<N, set<N>>, a: N, b: N) {
    exists p :: PathFromTo(adj, p, a, b)
  }

  /** No node occurs twice. */
  ghost predicate Simple<N>(p: seq<N>) {
    forall i, j :: 0 <= i < j < |p| ==> p[i] != p[j]
  }

  /** Sum of `cost` over the consecutive pairs of `p`, accumulated from the
      end so that extending a path by one node adds one edge cost. */
  function PathCost<N(==)>(cost: (N, N) -> nat, p: seq<N>): nat {
    if |p| <= 1 then 0 else PathCost(cost, p[..|p| - 1]) + cost(p[|p| - 2], p[|p| - 1])
  }

  /** No node outside `v` is a neighbour of a node inside it. */
  ghost predicate Closed<N>(adj: map<N, set<N>>, v: set<N>) {
    forall x, y :: x in v && y in NeighborsOf(adj, x) ==> y in v
  }

  /** Extending a path by a neighbour of its last node adds exactly that edge. */
  lemma ExtendPath<N>(adj: map<N, set<N>>, cost: (N, N) -> nat, p: seq<N>, y: N)
    requires IsPath(adj, p) && y in NeighborsOf(adj, p[|p| - 1])
    ensures IsPath(adj, p + [y])
    ensures PathCost(cost, p + [y]) == PathCost(cost, p) + cost(p[|p| - 1], y)
  {
    var q := p + [y];
    assert q[..|p|] == p;
    forall i | 0 <= i < |q| - 1 ensures q[i + 1] in NeighborsOf(adj, q[i]) {
      if i < |p| - 1 {
        assert q[i] == p[i] && q[i + 1] == p[i + 1];
      }
    }
    assert q[|q| - 2] == p[|p| - 1] && q[|q| - 1] == y;
  }

  lemma PrefixIsPath<N>(adj: map<N, set<N>>, p: seq<N>, k: nat)
    requires IsPath(adj, p) && 1 <= k <= |p|
    ensures IsPath(adj, p[..k])
  {
  }

  /** With non-negative costs a prefix never costs more than the whole path. */
  lemma {:induction false} PrefixCostAtMost<N>(cost: (N, N) -> nat, p: seq<N>, k: nat)
    requires 1 <= k <= |p|
    ensures PathCost(cost, p[..k]) <= PathCost(cost, p)
    decreases |p|
  {
    if k < |p| {
      var q := p[..|p| - 1];
      assert q[..k] == p[..k];
      PrefixCostAtMost(cost, q, k);
      assert PathCost(cost, p) == PathCost(cost, q) + cost(p[|p| - 2], p[|p| - 1]);
    } else {
      assert p[..k] == p;
    }
  }

  /** A path that starts inside a closed set never leaves it. */
  lemma {:induction false} ClosedTraps<N>(adj: map<N, set<N>>, v: set<N>, p: seq<N>)
    requires Closed(adj, v) && IsPath(adj, p) && p[0] in v
    ensures p[|p| - 1] in v
    decreases |p|
  {
    if |p| > 1 {
      var q := p[..|p| - 1];
      ClosedTraps(adj, v, q);
      assert p[|p| - 1] in NeighborsOf(adj, q[|q| - 1]);
    }
  }

  /** A path that starts inside `v` and ends outside it has a first node
      outside `v`; every node before it is inside. */
  lemma {:induction false} FirstExit<N>(p: seq<N>, v: set<N>, k: nat) returns (j: nat)
    requires k < |p| && p[|p| - 1] !in v
    requires forall i :: 0 <= i < k ==> p[i] in v
    ensures k <= j < |p| && p[j] !in v
    ensures forall i :: 0 <= i < j ==> p[i] in v
    decreases |p| - k
  {
    if p[k] !in v {
      j := k;
    } else {
      j := FirstExit(p, v, k + 1);
    }
  }

  /** A simple prefix followed by a node not in it is simple. */
  lemma SimpleSnoc<N>(p: seq<N>, y: N)
    requires Simple(p) && y !in p
    ensures Simple(p + [y])
  {
  }
}
