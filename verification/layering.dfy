/**
  The layered neighbourhood of an edge (v, w): the graph h is the graph with
  that edge taken out, and layer k holds the nodes whose distance to {v, w}
  in h is exactly k.  Every node of a layer carries the subtree root(s) it
  descends from.  This module defines the reference that the breadth-first
  search is proved against.
 */
module Layering {
  import opened Graphs
  import opened Connectivity

  /** The subtree root of an explored node: v, w, or both ({v, w} in the source). */
  datatype Root = V | W | Both

  /** The nodes within k steps of v or w. */
  function Ball(h: Graph, v: Node, w: Node, k: nat): set<Node>
    decreases k, 0
  {
    if k == 0 then {v, w} else Spread(h, v, w, k - 1)
  }

  /** The nodes within k steps of v or w and their neighbours. */
  function Spread(h: Graph, v: Node, w: Node, k: nat): set<Node>
    decreases k, 1
  {
    Expand(h, Nodes(h), Ball(h, v, w, k))
  }

  /** The nodes at distance exactly k from {v, w}. */
  function Layer(h: Graph, v: Node, w: Node, k: nat): set<Node>
  {
    if k == 0 then {v, w} else Ball(h, v, w, k) - Ball(h, v, w, k - 1)
  }

  /** The layer of x if x lies within k steps of {v, w}, otherwise -1. */
  function Depth(h: Graph, v: Node, w: Node, k: nat, x: Node): (e: int)
    ensures e >= -1 && (e == -1 <==> x !in Ball(h, v, w, k))
  {
    if x !in Ball(h, v, w, k) then -1
    else if k == 0 || x !in Ball(h, v, w, k - 1) then k
    else Depth(h, v, w, k - 1, x)
  }

  /** The tag a node receives from its parents: their common root if they agree, else both. */
  function Combine(s: set<Root>): Root
  {
    if s == {V} then V else if s == {W} then W else Both
  }

  /** The source's update of a tag t by a further parent tag u. */
  function Merge(t: Root, u: Root): Root
  {
    if t == u then t else Both
  }

  /** The tags of the parents in layer k of a node x. */
  function ParentTags(h: Graph, v: Node, w: Node, k: nat, x: Node): set<Root>
    decreases k, 1
  {
    set p | p in Layer(h, v, w, k) && p < |h.adj| && x in h.adj[p] :: Tag(h, v, w, k, p)
  }

  /** The subtree root of a node x of layer k. */
  function Tag(h: Graph, v: Node, w: Node, k: nat, x: Node): Root
    decreases k, 0
  {
    if k == 0 then (if x == v then V else W)
    else Combine(ParentTags(h, v, w, k - 1, x))
  }

  /** The edges (a, b) from layer i to layer i + 1, in the orientation of the search. */
  function HalfLayer(h: Graph, v: Node, w: Node, i: nat): set<(Node, Node)>
  {
    set a, b | a in Layer(h, v, w, i) && a < |h.adj| && b in h.adj[a] && b in Layer(h, v, w, i + 1) :: (a, b)
  }

  /** The pairs (a, b) along the edges of h whose first node lies in s. */
  function PairsFrom(h: Graph, s: set<Node>): set<(Node, Node)>
  {
    set a, b | a in s && a < |h.adj| && b in h.adj[a] :: (a, b)
  }

  /**
    e keeps, of the pairs of r that end in l, exactly one orientation of each
    edge: every such pair or its reverse is in e, never both.
   */
  predicate OneWayOf(r: set<(Node, Node)>, l: set<Node>, e: set<(Node, Node)>)
  {
    && (forall p | p in e :: p in r && p.1 in l && (p.1, p.0) !in e)
    && (forall p | p in r && p.1 in l :: p in e || (p.1, p.0) in e)
  }

  /** e holds the edges inside layer i, each in exactly one of its two orientations. */
  predicate OneWay(h: Graph, v: Node, w: Node, i: nat, e: set<(Node, Node)>)
  {
    OneWayOf(PairsFrom(h, Layer(h, v, w, i)), Layer(h, v, w, i), e)
  }

  // ---------------------------------------------------------------------
  // Balls and layers
  // ---------------------------------------------------------------------

  /** The balls are the reachability sets of {v, w}. */
  lemma {:induction false} BallIsGrow(h: Graph, v: Node, w: Node, k: nat)
    ensures Ball(h, v, w, k) == Grow(h, Nodes(h), {v, w}, k)
  {
    if k > 0 {
      BallIsGrow(h, v, w, k - 1);
      assert Ball(h, v, w, k) == Spread(h, v, w, k - 1);
    }
  }

  lemma BallNodes(h: Graph, v: Node, w: Node, k: nat)
    requires v < |h.adj| && w < |h.adj|
    ensures {v, w} <= Ball(h, v, w, k) <= Nodes(h)
  {
    BallIsGrow(h, v, w, k);
    GrowBounds(h, Nodes(h), {v, w}, k);
  }

  lemma {:induction false} BallMonotone(h: Graph, v: Node, w: Node, j: nat, k: nat)
    requires j <= k
    ensures Ball(h, v, w, j) <= Ball(h, v, w, k)
    decreases k
  {
    if j < k {
      BallMonotone(h, v, w, j, k - 1);
      assert Ball(h, v, w, k) == Spread(h, v, w, k - 1) == Expand(h, Nodes(h), Ball(h, v, w, k - 1));
    }
  }

  /** One more step adds exactly the neighbours of the ball. */
  lemma BallStep(h: Graph, v: Node, w: Node, k: nat, x: Node)
    requires v < |h.adj| && w < |h.adj|
    ensures x in Ball(h, v, w, k + 1) <==>
      x in Ball(h, v, w, k) || exists p :: p in Ball(h, v, w, k) && p < |h.adj| && x in h.adj[p] && x < |h.adj|
  {
    assert Ball(h, v, w, k + 1) == Spread(h, v, w, k) == Expand(h, Nodes(h), Ball(h, v, w, k));
    assert x in Nodes(h) <==> x < |h.adj|;
  }

  /** A node lies in at most one layer. */
  lemma LayerUnique(h: Graph, v: Node, w: Node, j: nat, k: nat, x: Node)
    requires x in Layer(h, v, w, j) && x in Layer(h, v, w, k)
    ensures j == k
  {
    if j < k {
      LayerInBall(h, v, w, j, k - 1);
    } else if k < j {
      LayerInBall(h, v, w, k, j - 1);
    }
  }

  lemma LayerInBall(h: Graph, v: Node, w: Node, j: nat, k: nat)
    requires j <= k
    ensures Layer(h, v, w, j) <= Ball(h, v, w, k)
  {
    BallMonotone(h, v, w, j, k);
  }

  lemma {:induction false} DepthSpec(h: Graph, v: Node, w: Node, k: nat, x: Node)
    ensures var e := Depth(h, v, w, k, x);
      e != -1 ==> 0 <= e <= k && x in Layer(h, v, w, e)
  {
    if k > 0 && x in Ball(h, v, w, k - 1) {
      DepthSpec(h, v, w, k - 1, x);
      BallMonotone(h, v, w, k - 1, k);
    }
  }

  /** The depth of a node of layer j, looked up within any k >= j steps, is j. */
  lemma DepthOfLayer(h: Graph, v: Node, w: Node, k: nat, j: nat, x: Node)
    requires j <= k && x in Layer(h, v, w, j)
    ensures Depth(h, v, w, k, x) == j
  {
    DepthSpec(h, v, w, k, x);
    LayerInBall(h, v, w, j, k);
    LayerUnique(h, v, w, j, Depth(h, v, w, k, x), x);
  }

  /** The next layer holds the nodes outside the ball that are adjacent to the current layer. */
  lemma NextLayer(h: Graph, v: Node, w: Node, i: nat, x: Node)
    requires WellFormed(h) && v < |h.adj| && w < |h.adj|
    ensures x in Layer(h, v, w, i + 1) <==>
      x !in Ball(h, v, w, i) && exists p :: p in Layer(h, v, w, i) && p < |h.adj| && x in h.adj[p]
  {
    if x in Layer(h, v, w, i + 1) {
      BallStep(h, v, w, i, x);
      var p :| p in Ball(h, v, w, i) && p < |h.adj| && x in h.adj[p] && x < |h.adj|;
      if i > 0 {
        BallStep(h, v, w, i - 1, x);
      }
      assert p in Layer(h, v, w, i);
    }
    if x !in Ball(h, v, w, i) && exists p :: p in Layer(h, v, w, i) && p < |h.adj| && x in h.adj[p] {
      var p :| p in Layer(h, v, w, i) && p < |h.adj| && x in h.adj[p];
      LayerInBall(h, v, w, i, i);
      NeighbourFacts(h, p, x);
      BallStep(h, v, w, i, x);
    }
  }

  /** A neighbour of a node of layer i lies in layer i - 1, i or i + 1. */
  lemma NeighbourLayer(h: Graph, v: Node, w: Node, i: nat, a: Node, b: Node)
    requires WellFormed(h) && v < |h.adj| && w < |h.adj|
    requires a in Layer(h, v, w, i) && a < |h.adj| && b in h.adj[a]
    ensures b in Layer(h, v, w, i + 1) || b in Layer(h, v, w, i) || (i > 0 && b in Layer(h, v, w, i - 1))
    ensures b in Ball(h, v, w, i + 1)
  {
    NeighbourFacts(h, a, b);
    LayerInBall(h, v, w, i, i);
    BallStep(h, v, w, i, b);
    if b !in Ball(h, v, w, i) {
      NextLayer(h, v, w, i, b);
    } else if i > 0 && b in Ball(h, v, w, i - 1) {
      if i > 1 {
        BallStep(h, v, w, i - 2, a);
      }
    }
  }

  // ---------------------------------------------------------------------
  // Tags
  // ---------------------------------------------------------------------

  /** Folding Merge over the parent tags one at a time computes Combine. */
  lemma CombineAdd(s: set<Root>, u: Root)
    requires s != {}
    ensures Combine(s + {u}) == Merge(Combine(s), u)
  {
    if s == {V} || s == {W} {
    } else {
      var t :| t in s;
      if t == Both {
      } else {
        var t' :| t' in s && t' != t;
      }
    }
  }

  lemma CombineOne(u: Root)
    ensures Combine({u}) == u
  {
    if u == Both {
      assert {Both} != {V} && {Both} != {W};
    }
  }
}
