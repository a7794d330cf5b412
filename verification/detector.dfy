/**
  The separation-node classification pipeline up to the QUBO: every edge
  of the graph is explored by the two-root search and scored by the
  neighbourhood-connectivity estimator, and the estimates are written into
  the QUBO whose minima are the separator classifications.
 */
module Detector {
  import opened Wrappers
  import opened Graphs
  import opened Bfs
  import opened Estimator
  import opened Qubo

  /** e holds the score of the search from its edge to depth d. */
  ghost predicate Estimated(g: Graph, d: nat, a: real, e: Estimate)
  {
    exists s ::
      && SearchOf(g, e.edge.0, e.edge.1, d, s)
      && Fits(g, s) && e.edge.0 < |g.adj| && e.edge.1 < |g.adj|
      && Score(g, e.edge.0, e.edge.1, s, a) == Success(e.nc)
  }

  /**
    The estimate of one edge: search from (v, w) to depth d with the edge
    taken out, then score the search.
   */
  method EstimateEdge(g: Graph, v: Node, w: Node, d: nat, a: real) returns (sc: Result<real, Exception>)
    requires WellFormed(g) && Adjacent(g, v, w)
    ensures sc.Success? ==> Estimated(g, d, a, Estimate((v, w), sc.value))
    ensures sc.Failure? <==> d == 0 || d > 2
    ensures sc.Failure? ==> sc.error == KeyError
  {
    var _, s := Explore(g, v, w, d);
    SearchFits(g, v, w, d, s);
    sc := Score(g, v, w, s, a);
    if 1 <= d <= 2 {
      ScoreDefined(g, v, w, d, s, a);
    }
  }

  /**
    The estimate of every edge, in edge order; the first failing score
    stops the loop with its error.
   */
  method Estimations(g: Graph, d: nat, a: real) returns (r: Result<seq<Estimate>, Exception>)
    requires WellFormed(g)
    ensures r.Success? ==>
      && |r.value| == |EdgeList(g)|
      && forall k | 0 <= k < |r.value| :: r.value[k].edge == EdgeList(g)[k] && Estimated(g, d, a, r.value[k])
    ensures 1 <= d <= 2 ==> r.Success?
    ensures r.Failure? <==> (d == 0 || d > 2) && EdgeList(g) != []
    ensures r.Failure? ==> r.error == KeyError
  {
    var es := EdgeList(g);
    EdgeListSpec(g);
    var est: seq<Estimate> := [];
    var k := 0;
    while k < |es|
      invariant k <= |es| && |est| == k
      invariant forall l | 0 <= l < k :: est[l].edge == es[l] && Estimated(g, d, a, est[l])
      invariant k > 0 ==> 1 <= d <= 2
    {
      var (v, w) := es[k];
      assert es[k] in es;
      var sc := EstimateEdge(g, v, w, d, a);
      if sc.Failure? {
        return Failure(sc.error);
      }
      est := est + [Estimate((v, w), sc.value)];
      k := k + 1;
    }
    return Success(est);
  }

  /**
    The QUBO of the estimates: -1 on the diagonal; at (u, x) with u < x
    adjacent, 2 (1 - nc) for the estimate nc of that edge; 0 elsewhere.
   */
  method NcQubo(g: Graph, d: nat, a: real) returns (r: Result<Matrix, Exception>)
    requires WellFormed(g)
    ensures 1 <= d <= 2 ==> r.Success?
    ensures r.Failure? ==> r == Failure(KeyError)
    ensures r.Success? ==> OffEdges(g, r.value) && Encodes(g, d, a, r.value)
  {
    var est := Estimations(g, d, a);
    if est.Failure? {
      return Failure(est.error);
    }
    var e := est.value;
    EdgeKeys(g, e);
    var q := QuboNc(|g.adj|, e);
    assert OffEdges(g, q) by {
      QuboCells(g, e);
    }
    assert Encodes(g, d, a, q) by {
      CellsEstimated(g, d, a, e, q);
    }
    return Success(q);
  }

  /** q is square over the nodes, -1 on the diagonal and 0 off it except at edges, low end first. */
  predicate OffEdges(g: Graph, q: Matrix)
  {
    && Square(q, |g.adj|)
    && (forall i | 0 <= i < |g.adj| :: q[i][i] == -1.0)
    && (forall i, j | 0 <= i < |g.adj| && 0 <= j < |g.adj| && i != j && !(i < j && Adjacent(g, i, j)) ::
          q[i][j] == 0.0)
  }

  /** The cell of each edge (i, j) with i < j holds 2 (1 - nc) for the estimate nc of that edge. */
  ghost predicate Encodes(g: Graph, d: nat, a: real, q: Matrix)
  {
    && Square(q, |g.adj|)
    && forall i, j | 0 <= i < j < |g.adj| && Adjacent(g, i, j) ::
         Estimated(g, d, a, Estimate((i, j), 1.0 - q[i][j] / 2.0))
  }

  /** Off the edges the QUBO of the estimates holds -1 on the diagonal and 0 elsewhere. */
  lemma QuboCells(g: Graph, e: seq<Estimate>)
    requires WellFormed(g) && |e| == |EdgeList(g)|
    requires forall k | 0 <= k < |e| :: e[k].edge == EdgeList(g)[k]
    ensures KeysFit(|g.adj|, e)
    ensures OffEdges(g, QuboNc(|g.adj|, e))
  {
    EdgeKeys(g, e);
    var q := QuboNc(|g.adj|, e);
    forall i | 0 <= i < |g.adj|
      ensures q[i][i] == -1.0
    {
      NotKey(g, e, i, i);
    }
    forall i, j | 0 <= i < |g.adj| && 0 <= j < |g.adj| && i != j && !(i < j && Adjacent(g, i, j))
      ensures q[i][j] == 0.0
    {
      NotKey(g, e, i, j);
    }
  }

  /** A matrix whose cell at each edge, low end first, encodes that edge's estimate gives the estimates back. */
  lemma CellsEstimated(g: Graph, d: nat, a: real, e: seq<Estimate>, q: Matrix)
    requires WellFormed(g) && |e| == |EdgeList(g)| && Square(q, |g.adj|) && KeysFit(|g.adj|, e)
    requires forall k | 0 <= k < |e| :: e[k].edge == EdgeList(g)[k] && Estimated(g, d, a, e[k])
    requires forall k | 0 <= k < |e| :: q[e[k].edge.0][e[k].edge.1] == 2.0 * (1.0 - e[k].nc)
    ensures Encodes(g, d, a, q)
  {
    forall i, j | 0 <= i < j < |g.adj| && Adjacent(g, i, j)
      ensures Estimated(g, d, a, Estimate((i, j), 1.0 - q[i][j] / 2.0))
    {
      var k := EdgeIndex(g, i, j);
      assert e[k].edge == (i, j);
      assert e[k] == Estimate((i, j), 1.0 - q[i][j] / 2.0);
    }
  }

  /** The keys of the estimates are node pairs below n, each once: what the QUBO needs. */
  predicate KeysFit(n: nat, e: seq<Estimate>)
  {
    (forall k | 0 <= k < |e| :: e[k].edge.0 < n && e[k].edge.1 < n) && DistinctKeys(e)
  }

  /** Estimates keyed by the edge list have in-range, pairwise distinct, loop-free keys. */
  lemma EdgeKeys(g: Graph, e: seq<Estimate>)
    requires WellFormed(g) && |e| == |EdgeList(g)|
    requires forall k | 0 <= k < |e| :: e[k].edge == EdgeList(g)[k]
    ensures DistinctKeys(e) && KeysFit(|g.adj|, e)
    ensures forall k | 0 <= k < |e| :: e[k].edge.0 < |g.adj| && e[k].edge.1 < |g.adj| && e[k].edge.0 != e[k].edge.1
  {
    EdgeListSpec(g);
    forall k | 0 <= k < |e|
      ensures e[k].edge.0 < |g.adj| && e[k].edge.1 < |g.adj| && e[k].edge.0 != e[k].edge.1
    {
      assert EdgeList(g)[k] in EdgeList(g);
      NeighbourFacts(g, e[k].edge.0, e[k].edge.1);
    }
  }

  /** Only edges, low end first, are keys of the estimates. */
  lemma NotKey(g: Graph, e: seq<Estimate>, i: Node, j: Node)
    requires WellFormed(g) && |e| == |EdgeList(g)|
    requires forall k | 0 <= k < |e| :: e[k].edge == EdgeList(g)[k]
    requires !(i < j && Adjacent(g, i, j))
    ensures (i, j) !in Keys(e)
  {
    EdgeListSpec(g);
    forall k | 0 <= k < |e|
      ensures e[k].edge != (i, j)
    {
      assert EdgeList(g)[k] in EdgeList(g);
    }
  }

  /** The position of an edge in the edge list. */
  lemma EdgeIndex(g: Graph, i: Node, j: Node) returns (k: nat)
    requires WellFormed(g) && i < j && Adjacent(g, i, j)
    ensures k < |EdgeList(g)| && EdgeList(g)[k] == (i, j)
  {
    EdgeListSpec(g);
    assert (i, j) in EdgeList(g);
    k :| 0 <= k < |EdgeList(g)| && EdgeList(g)[k] == (i, j);
  }
}
