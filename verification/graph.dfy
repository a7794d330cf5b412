/**
  Undirected simple graphs on the nodes 0..n-1, stored as adjacency lists.
  The order of each list is the neighbour order of the graph library, so the
  order-sensitive loops of the detector can be modelled faithfully.
 */
module Graphs {

  type Node = nat

  /** adj[u] lists the neighbours of u in insertion order. */
  datatype Graph = Graph(adj: seq<seq<Node>>)

  function Size(g: Graph): nat
  {
    |g.adj|
  }

  /** The set 0..n-1. */
  function Range(n: nat): (r: set<Node>)
    ensures forall u: Node :: u in r <==> u < n
    ensures |r| == n
  {
    if n == 0 then {} else Range(n - 1) + {n - 1}
  }

  /** The node set 0..n-1. */
  function Nodes(g: Graph): set<Node>
  {
    Range(|g.adj|)
  }

  predicate Adjacent(g: Graph, u: Node, x: Node)
  {
    u < |g.adj| && x in g.adj[u]
  }

  /** Neighbours in range, no self loops, no repeated neighbour, symmetric. */
  predicate WellFormed(g: Graph)
  {
    && (forall u, k | 0 <= u < |g.adj| && 0 <= k < |g.adj[u]| :: g.adj[u][k] < |g.adj| && g.adj[u][k] != u)
    && (forall u, k, l | 0 <= u < |g.adj| && 0 <= k < l < |g.adj[u]| :: g.adj[u][k] != g.adj[u][l])
    && (forall u, x | 0 <= u < |g.adj| && 0 <= x < |g.adj| :: x in g.adj[u] <==> u in g.adj[x])
  }

  /** Number of neighbours of u, the graph library's `degree`. */
  function Degree(g: Graph, u: Node): nat
    requires u < |g.adj|
  {
    |g.adj[u]|
  }

  lemma NeighbourFacts(g: Graph, u: Node, x: Node)
    requires WellFormed(g) && u < |g.adj| && x in g.adj[u]
    ensures x < |g.adj| && x != u && u in g.adj[x]
  {
    var k :| 0 <= k < |g.adj[u]| && g.adj[u][k] == x;
  }

  /** Sum of the degrees of the nodes u < k that lie in s. */
  function DegreeSum(g: Graph, s: set<Node>, k: nat): nat
    requires k <= |g.adj|
  {
    if k == 0 then 0
    else DegreeSum(g, s, k - 1) + (if k - 1 in s then Degree(g, k - 1) else 0)
  }

  // ---------------------------------------------------------------------
  // The edge iteration order of the graph library
  // ---------------------------------------------------------------------

  /** The pairs (u, x) for the neighbours x of s with x > u, in list order. */
  function Above(u: Node, s: seq<Node>): (r: seq<(Node, Node)>)
    ensures forall p :: p in r <==> p.0 == u && p.1 in s && p.1 > u
  {
    if s == [] then []
    else (if s[0] > u then [(u, s[0])] else []) + Above(u, s[1..])
  }

  function EdgesFrom(g: Graph, u: Node): seq<(Node, Node)>
    decreases |g.adj| - u
  {
    if u >= |g.adj| then [] else Above(u, g.adj[u]) + EdgesFrom(g, u + 1)
  }

  /**
    The edges in the order the graph library reports them: every edge once,
    as (u, x) with u < x, grouped by u ascending and then in u's list order.
   */
  function EdgeList(g: Graph): seq<(Node, Node)>
  {
    EdgesFrom(g, 0)
  }

  /** The number of edges |E|. */
  function NumEdges(g: Graph): nat
  {
    |EdgeList(g)|
  }

  predicate Distinct<T(==)>(s: seq<T>)
  {
    forall i, j | 0 <= i < j < |s| :: s[i] != s[j]
  }

  lemma DistinctHead<T>(s: seq<T>)
    requires Distinct(s) && s != []
    ensures s[0] !in s[1..]
    ensures Distinct(s[1..])
  {
    forall k | 0 <= k < |s[1..]|
      ensures s[1..][k] != s[0]
    {
      assert s[1..][k] == s[k + 1];
    }
  }

  lemma AboveDistinct(u: Node, s: seq<Node>)
    requires Distinct(s)
    ensures Distinct(Above(u, s))
  {
    if s != [] {
      DistinctHead(s);
      AboveDistinct(u, s[1..]);
      var r := Above(u, s[1..]);
      assert (u, s[0]) !in r;
    }
  }

  lemma EdgesFromSpec(g: Graph, u: Node)
    requires WellFormed(g)
    ensures forall p :: p in EdgesFrom(g, u) <==> u <= p.0 && p.0 < p.1 && Adjacent(g, p.0, p.1)
    ensures Distinct(EdgesFrom(g, u))
    decreases |g.adj| - u
  {
    if u < |g.adj| {
      EdgesFromSpec(g, u + 1);
      AboveDistinct(u, g.adj[u]);
      var a := Above(u, g.adj[u]);
      var b := EdgesFrom(g, u + 1);
      forall i, j | 0 <= i < |a| && 0 <= j < |b|
        ensures a[i] != b[j]
      {
        assert a[i] in a && b[j] in b;
      }
      var ab := a + b;
      assert Distinct(ab) by {
        forall i, j | 0 <= i < j < |ab|
          ensures ab[i] != ab[j]
        {
          if j < |a| {
          } else if i >= |a| {
            assert ab[i] == b[i - |a|] && ab[j] == b[j - |a|];
          } else {
            assert ab[j] == b[j - |a|];
          }
        }
      }
    }
  }

  /** The edge list holds every edge exactly once, oriented low to high. */
  lemma EdgeListSpec(g: Graph)
    requires WellFormed(g)
    ensures forall p :: p in EdgeList(g) <==> p.0 < p.1 && Adjacent(g, p.0, p.1)
    ensures Distinct(EdgeList(g))
  {
    EdgesFromSpec(g, 0);
  }

  lemma EdgeInList(g: Graph, u: Node, x: Node)
    requires WellFormed(g) && Adjacent(g, u, x)
    ensures (if u < x then (u, x) else (x, u)) in EdgeList(g)
    ensures NumEdges(g) >= 1
  {
    EdgeListSpec(g);
    NeighbourFacts(g, u, x);
  }

  // ---------------------------------------------------------------------
  // Temporary removal of an edge
  // ---------------------------------------------------------------------

  /** s without the entry x; the order of the others is kept. */
  function Remove(s: seq<Node>, x: Node): (r: seq<Node>)
    ensures forall y :: y in r <==> y in s && y != x
    ensures |r| <= |s|
  {
    if s == [] then []
    else (if s[0] == x then [] else [s[0]]) + Remove(s[1..], x)
  }

  lemma RemoveDistinct(s: seq<Node>, x: Node)
    requires Distinct(s)
    ensures Distinct(Remove(s, x))
  {
    if s != [] {
      DistinctHead(s);
      RemoveDistinct(s[1..], x);
    }
  }

  /** The graph library's `remove_edge(v, w)`: deletes w from v's list and v from w's. */
  function RemoveEdge(g: Graph, v: Node, w: Node): Graph
  {
    Graph(seq(|g.adj|, u requires 0 <= u < |g.adj| =>
      if u == v then Remove(g.adj[u], w) else if u == w then Remove(g.adj[u], v) else g.adj[u]))
  }

  /** The graph library's `add_edge(v, w)` for a missing edge: appends at the end of both lists. */
  function AddEdge(g: Graph, v: Node, w: Node): Graph
  {
    Graph(seq(|g.adj|, u requires 0 <= u < |g.adj| =>
      if u == v then g.adj[u] + [w] else if u == w then g.adj[u] + [v] else g.adj[u]))
  }

  /** Removing an edge leaves a well-formed graph that lacks exactly that edge. */
  lemma RemoveEdgeSpec(g: Graph, v: Node, w: Node)
    requires WellFormed(g) && Adjacent(g, v, w)
    ensures WellFormed(RemoveEdge(g, v, w))
    ensures Size(RemoveEdge(g, v, w)) == Size(g)
    ensures forall a, b :: Adjacent(RemoveEdge(g, v, w), a, b) <==>
      Adjacent(g, a, b) && !(a == v && b == w) && !(a == w && b == v)
  {
    NeighbourFacts(g, v, w);
    var h := RemoveEdge(g, v, w);
    forall u | 0 <= u < |g.adj|
      ensures Distinct(h.adj[u])
      ensures forall y :: y in h.adj[u] <==> y in g.adj[u] && !(u == v && y == w) && !(u == w && y == v)
    {
      assert Distinct(g.adj[u]);
      if u == v {
        RemoveDistinct(g.adj[u], w);
      } else if u == w {
        RemoveDistinct(g.adj[u], v);
      }
    }
    forall u, k | 0 <= u < |h.adj| && 0 <= k < |h.adj[u]|
      ensures h.adj[u][k] < |h.adj| && h.adj[u][k] != u
    {
      assert h.adj[u][k] in h.adj[u];
      NeighbourFacts(g, u, h.adj[u][k]);
    }
    forall u, x | 0 <= u < |h.adj| && 0 <= x < |h.adj|
      ensures x in h.adj[u] <==> u in h.adj[x]
    {
    }
  }

  /** Taking o out of a list and appending it again keeps the list's contents. */
  lemma RestoreList(s: seq<Node>, o: Node)
    requires Distinct(s) && o in s
    ensures Distinct(Remove(s, o) + [o])
    ensures forall y :: y in Remove(s, o) + [o] <==> y in s
    ensures |Remove(s, o) + [o]| == |s|
  {
    var r := Remove(s, o);
    var t := r + [o];
    RemoveDistinct(s, o);
    forall i, j | 0 <= i < j < |t|
      ensures t[i] != t[j]
    {
      if j == |r| {
        assert t[i] == r[i] && r[i] in r;
      } else {
        assert t[i] == r[i] && t[j] == r[j];
      }
    }
    assert (set y: Node | y in t) == (set y: Node | y in s);
    DistinctCard<Node>(t);
    DistinctCard<Node>(s);
  }

  /**
    Removing an edge and adding it back yields the same edge relation; only
    the positions of v and w in each other's lists change.
   */
  lemma RestoreEdge(g: Graph, v: Node, w: Node)
    requires WellFormed(g) && Adjacent(g, v, w)
    ensures var g' := AddEdge(RemoveEdge(g, v, w), v, w);
      && WellFormed(g')
      && Size(g') == Size(g)
      && (forall a, b :: Adjacent(g', a, b) <==> Adjacent(g, a, b))
      && (forall u: Node | u < |g.adj| :: Degree(g', u) == Degree(g, u))
      && (forall u: Node | u < |g.adj| && u != v && u != w :: g'.adj[u] == g.adj[u])
  {
    NeighbourFacts(g, v, w);
    var g' := AddEdge(RemoveEdge(g, v, w), v, w);
    forall u | 0 <= u < |g.adj|
      ensures Distinct(g'.adj[u])
      ensures forall y :: y in g'.adj[u] <==> y in g.adj[u]
      ensures |g'.adj[u]| == |g.adj[u]|
    {
      assert Distinct(g.adj[u]);
      if u == v {
        RestoreList(g.adj[u], w);
      } else if u == w {
        RestoreList(g.adj[u], v);
      }
    }
    forall u, k | 0 <= u < |g'.adj| && 0 <= k < |g'.adj[u]|
      ensures g'.adj[u][k] < |g'.adj| && g'.adj[u][k] != u
    {
      assert g'.adj[u][k] in g'.adj[u];
      NeighbourFacts(g, u, g'.adj[u][k]);
    }
  }

  // ---------------------------------------------------------------------
  // Cardinality helpers
  // ---------------------------------------------------------------------

  lemma DistinctCard<T>(s: seq<T>)
    requires Distinct(s)
    ensures |set x | x in s| == |s|
  {
    if s != [] {
      DistinctHead(s);
      DistinctCard(s[1..]);
      assert (set x | x in s) == {s[0]} + (set x | x in s[1..]);
    }
  }

  lemma SubsetCard<T>(a: set<T>, b: set<T>)
    requires a <= b
    ensures |a| <= |b|
  {
    if a != {} {
      var x :| x in a;
      SubsetCard(a - {x}, b - {x});
    }
  }

  lemma ProperSubsetCard<T>(a: set<T>, b: set<T>)
    requires a <= b && a != b
    ensures |a| < |b|
  {
    var y :| y in b && y !in a;
    SubsetCard(a, b - {y});
  }

  /** The degree equals the size of the neighbour set. */
  lemma DegreeIsNeighbourCount(g: Graph, u: Node)
    requires WellFormed(g) && u < |g.adj|
    ensures Degree(g, u) == |set x: Node | x in g.adj[u]|
  {
    assert Distinct(g.adj[u]);
    DistinctCard<Node>(g.adj[u]);
  }
}
