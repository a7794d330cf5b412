/**
  The neighbourhood-connectivity estimate of an edge (v, w) from the result
  of the two-root search: the observed edges of the first layers are
  compared with the number a configuration model expects from the free
  stubs of the two subtrees, and the result is rescaled into (nc + 1) / 2.
 */
module Estimator {
  import opened Wrappers
  import opened Graphs
  import opened Layering
  import opened Bfs

  /**
    Whether the estimator observes the explored pair p: inside a layer when
    the roots of its ends differ or its first end has both roots, between
    layers when either end has both roots.
   */
  predicate Selected(root: seq<Option<Root>>, p: (Node, Node), inside: bool)
    requires p.0 < |root| && p.1 < |root|
  {
    if inside then root[p.0] != root[p.1] || root[p.0] == Some(Both)
    else root[p.0] == Some(Both) || root[p.1] == Some(Both)
  }

  /** The observed pairs of the edge layer e. */
  function Observed(e: set<(Node, Node)>, root: seq<Option<Root>>, inside: bool): (o: set<(Node, Node)>)
    requires forall p | p in e :: p.0 < |root| && p.1 < |root|
    ensures o <= e
  {
    set p | p in e && Selected(root, p, inside)
  }

  /** The pairs of e that touch x. */
  function Touching(e: set<(Node, Node)>, x: Node): set<(Node, Node)>
  {
    set p | p in e && (p.0 == x || p.1 == x)
  }

  /** The search result fits the graph: its nodes and pairs are nodes of g. */
  predicate Fits(g: Graph, s: Search)
  {
    && |s.layers| >= 1 && |s.edges| == 2 * (|s.layers| - 1) && |s.root| == |g.adj|
    && (forall k, x | 0 <= k < |s.layers| && x in s.layers[k] :: x < |g.adj|)
    && (forall j, p | 0 <= j < |s.edges| && p in s.edges[j] :: p.0 < |g.adj| && p.1 < |g.adj|)
  }

  /**
    The free stubs of the nodes x < k of layer i whose root is t: the degree
    of x less the pairs of the edge layer just above that touch x.
   */
  function FreeStubs(g: Graph, s: Search, i: nat, t: Root, k: nat): int
    requires Fits(g, s) && 1 <= i < |s.layers| && k <= |g.adj|
  {
    if k == 0 then 0
    else
      var x := k - 1;
      var own := if x in s.layers[i] && s.root[x] == Some(t) then Degree(g, x) - |Touching(s.edges[2 * i - 1], x)| else 0;
      FreeStubs(g, s, i, t, x) + own
  }

  /** The free stubs of one layer, split by subtree root. */
  datatype Stubs = Stubs(v: int, w: int, both: int)

  function Total(st: Stubs): int
  {
    st.v + st.w + st.both
  }

  /** The free stubs of layer i; layer 0 holds v and w, less the edge between them. */
  function StubsAt(g: Graph, v: Node, w: Node, s: Search, i: nat): Stubs
    requires Fits(g, s) && v < |g.adj| && w < |g.adj| && i < |s.layers|
  {
    if i == 0 then Stubs(Degree(g, v) - 1, Degree(g, w) - 1, 0)
    else Stubs(FreeStubs(g, s, i, V, |g.adj|), FreeStubs(g, s, i, W, |g.adj|), FreeStubs(g, s, i, Both, |g.adj|))
  }

  /** The configuration model's expected number of edges between x and y stubs among m edges. */
  function Expected(x: int, y: int, m: nat): real
    requires m > 0
  {
    (x * y) as real / (2 * m) as real
  }

  /** The expected connections of the edge layer between layers i and i + 1. */
  function ExpectedBetween(g: Graph, v: Node, w: Node, s: Search, i: nat): real
    requires Fits(g, s) && v < |g.adj| && w < |g.adj| && i + 1 < |s.layers| && NumEdges(g) > 0
  {
    Expected(Total(StubsAt(g, v, w, s, i)), DegreeSum(g, s.layers[i + 1], |g.adj|), NumEdges(g))
  }

  /** The expected connections of the edge layer inside layer i. */
  function ExpectedInside(g: Graph, v: Node, w: Node, s: Search, i: nat): real
    requires Fits(g, s) && v < |g.adj| && w < |g.adj| && i < |s.layers| && NumEdges(g) > 0
  {
    var st := StubsAt(g, v, w, s, i);
    Expected(st.v, st.w, NumEdges(g)) + Expected(st.both, Total(st), NumEdges(g))
  }

  /** The observed share of an edge layer, less the share the configuration model expects. */
  function Excess(observed: nat, expected: real, size: nat): real
    requires size > 0
  {
    (observed as real - expected) / size as real
  }

  /** The a-weighted mean of the layer-0.5 and the layer-1 term. */
  function Mix(a: real, x: real, y: real): real
  {
    a * x + (1.0 - a) * y
  }

  function Rescale(nc: real): real
  {
    (nc + 1.0) / 2.0
  }

  /**
    The neighbourhood connectivity of (v, w) from a search to depth
    |s.layers| - 1, weighted by a between the layer-0.5 and the layer-1
    term.  Depths other than 1 and 2 miss a key of the search's maps.
   */
  function Score(g: Graph, v: Node, w: Node, s: Search, a: real): (r: Result<real, Exception>)
    requires Fits(g, s) && v < |g.adj| && w < |g.adj|
    ensures r == Failure(KeyError) <==> |s.layers| != 2 && |s.layers| != 3
    ensures r.Failure? ==> r.error == KeyError || r.error == ZeroDivisionError
  {
    var d := |s.layers| - 1;
    if d == 0 || d > 2 then Failure(KeyError)
    else if NumEdges(g) == 0 then Failure(ZeroDivisionError)
    else
      var e0 := s.edges[1];
      var o0 := Observed(e0, s.root, false);
      var c0 := ExpectedBetween(g, v, w, s, 0);
      if d == 2 && |s.edges[2]| != 0 then
        if |e0| == 0 then Failure(ZeroDivisionError)
        else
          var e1 := s.edges[2];
          var o1 := Observed(e1, s.root, true);
          var c1 := ExpectedInside(g, v, w, s, 1);
          Success(Rescale(Mix(a, Excess(|o0|, c0, |e0|), Excess(|o1|, c1, |e1|))))
      else if |e0| != 0 then Success(Rescale(Excess(|o0|, c0, |e0|)))
      else Success(Rescale(0.0))
  }

  // ---------------------------------------------------------------------
  // Selection
  // ---------------------------------------------------------------------

  /** The pairs of e, each recorded the other way round. */
  function Reversed(e: set<(Node, Node)>): set<(Node, Node)>
  {
    set p | p in e :: (p.1, p.0)
  }

  /** Reversing every pair keeps the number of pairs. */
  lemma {:induction false} ReversedSize(e: set<(Node, Node)>)
    ensures |Reversed(e)| == |e|
    decreases |e|
  {
    if e != {} {
      var p :| p in e;
      var rest := e - {p};
      ReversedSize(rest);
      assert Reversed(e) == Reversed(rest) + {(p.1, p.0)};
      assert (p.1, p.0) !in Reversed(rest);
    }
  }

  /**
    Which edges are observed, and how many, does not depend on the
    orientation in which the search recorded them.
   */
  lemma ObservedReversed(e: set<(Node, Node)>, root: seq<Option<Root>>, inside: bool)
    requires forall p | p in e :: p.0 < |root| && p.1 < |root|
    ensures forall p | p in Reversed(e) :: p.0 < |root| && p.1 < |root|
    ensures Observed(Reversed(e), root, inside) == Reversed(Observed(e, root, inside))
    ensures |Observed(Reversed(e), root, inside)| == |Observed(e, root, inside)|
  {
    var o := Observed(e, root, inside);
    forall q | q in Observed(Reversed(e), root, inside)
      ensures q in Reversed(o)
    {
      assert (q.1, q.0) in o;
    }
    ReversedSize(o);
  }

  /**
    On the result of a search, an edge inside a layer is observed iff the
    subtree roots of its ends differ or are both v and w, and an edge
    between layers iff one of its ends has both roots.
   */
  lemma ObservedTags(h: Graph, v: Node, w: Node, d: nat, s: Search, j: nat, p: (Node, Node))
    requires Stripped(h, v, w) && Searched(h, v, w, d, s) && j < 2 * d && p in s.edges[j]
    ensures p.0 < |h.adj| && p.1 < |h.adj|
    ensures var t0 := Tag(h, v, w, j / 2, p.0);
      var t1 := Tag(h, v, w, if j % 2 == 1 then j / 2 + 1 else j / 2, p.1);
      if j % 2 == 0 then Selected(s.root, p, true) <==> t0 != t1 || t0 == Both
      else Selected(s.root, p, false) <==> t0 == Both || t1 == Both
  {
    var i := j / 2;
    var k := if j % 2 == 1 then i + 1 else i;
    assert p.0 in Layer(h, v, w, i) && p.1 in Layer(h, v, w, k) && p.0 < |h.adj| && p.1 in h.adj[p.0];
    NeighbourFacts(h, p.0, p.1);
    LayerInBall(h, v, w, i, d);
    LayerInBall(h, v, w, k, d);
    DepthOfLayer(h, v, w, d, i, p.0);
    DepthOfLayer(h, v, w, d, k, p.1);
  }

  // ---------------------------------------------------------------------
  // The estimate on the result of a search
  // ---------------------------------------------------------------------

  /** The graph the search ran on: g without the edge (v, w). */
  predicate SearchOf(g: Graph, v: Node, w: Node, d: nat, s: Search)
  {
    WellFormed(g) && Adjacent(g, v, w) && Searched(RemoveEdge(g, v, w), v, w, d, s)
  }

  lemma SearchFits(g: Graph, v: Node, w: Node, d: nat, s: Search)
    requires SearchOf(g, v, w, d, s)
    ensures Stripped(RemoveEdge(g, v, w), v, w)
    ensures Fits(g, s) && v < |g.adj| && w < |g.adj| && |s.layers| == d + 1
  {
    var h := RemoveEdge(g, v, w);
    RemoveStrips(g, v, w);
    forall k, x | 0 <= k < |s.layers| && x in s.layers[k]
      ensures x < |g.adj|
    {
      LayerNodes(h, v, w, k);
    }
    forall j, p | 0 <= j < |s.edges| && p in s.edges[j]
      ensures p.0 < |g.adj| && p.1 < |g.adj|
    {
      ObservedTags(h, v, w, d, s, j, p);
    }
  }

  /** Pairs that all end in x and start in A are at most |A| many. */
  lemma {:induction false} EndingCard(ps: set<(Node, Node)>, x: Node, a: set<Node>)
    requires forall p | p in ps :: p.1 == x && p.0 in a
    ensures |ps| <= |a|
  {
    if ps != {} {
      var p :| p in ps;
      EndingCard(ps - {p}, x, a - {p.0});
    }
  }

  /** A node of layer i >= 1 is touched only by the edges to its parents, one per neighbour. */
  lemma TouchingBound(g: Graph, v: Node, w: Node, i: nat, x: Node)
    requires WellFormed(g) && Adjacent(g, v, w) && 1 <= i
    requires x in Layer(RemoveEdge(g, v, w), v, w, i)
    ensures x < |g.adj| && |Touching(HalfLayer(RemoveEdge(g, v, w), v, w, i - 1), x)| <= Degree(g, x)
  {
    var h := RemoveEdge(g, v, w);
    RemoveStrips(g, v, w);
    LayerNodes(h, v, w, i);
    var t := Touching(HalfLayer(h, v, w, i - 1), x);
    forall p | p in t
      ensures p.1 == x && p.0 in (set y: Node | y in g.adj[x])
    {
      NeighbourFacts(h, p.0, p.1);
    }
    EndingCard(t, x, set y: Node | y in g.adj[x]);
    if x == v || x == w {
      LayerUnique(h, v, w, 0, i, x);
    }
    DegreeIsNeighbourCount(g, x);
  }

  lemma {:induction false} FreeStubsNonNegative(g: Graph, s: Search, i: nat, t: Root, k: nat)
    requires Fits(g, s) && 1 <= i < |s.layers| && k <= |g.adj|
    requires forall x | x in s.layers[i] && x < |g.adj| :: |Touching(s.edges[2 * i - 1], x)| <= Degree(g, x)
    ensures FreeStubs(g, s, i, t, k) >= 0
  {
    if k > 0 {
      FreeStubsNonNegative(g, s, i, t, k - 1);
    }
  }

  /** On the result of a search no layer has a negative number of free stubs. */
  lemma StubsNonNegative(g: Graph, v: Node, w: Node, d: nat, s: Search, i: nat)
    requires SearchOf(g, v, w, d, s) && i <= d
    ensures Fits(g, s) && v < |g.adj| && w < |g.adj| && i < |s.layers|
    ensures var st := StubsAt(g, v, w, s, i); st.v >= 0 && st.w >= 0 && st.both >= 0
  {
    SearchFits(g, v, w, d, s);
    if i == 0 {
      NeighbourFacts(g, v, w);
    } else {
      LayerTouching(g, v, w, d, s, i);
      FreeStubsNonNegative(g, s, i, V, |g.adj|);
      FreeStubsNonNegative(g, s, i, W, |g.adj|);
      FreeStubsNonNegative(g, s, i, Both, |g.adj|);
    }
  }

  /** No node of layer i is touched by more pairs of the edge layer above it than its degree. */
  lemma LayerTouching(g: Graph, v: Node, w: Node, d: nat, s: Search, i: nat)
    requires SearchOf(g, v, w, d, s) && 1 <= i <= d
    ensures Fits(g, s) && i < |s.layers|
    ensures forall x | x in s.layers[i] && x < |g.adj| :: |Touching(s.edges[2 * i - 1], x)| <= Degree(g, x)
  {
    SearchFits(g, v, w, d, s);
    var h := RemoveEdge(g, v, w);
    var j := 2 * i - 1;
    assert j % 2 == 1 && j / 2 == i - 1;
    assert s.edges[j] == HalfLayer(h, v, w, i - 1);
    assert s.layers[i] == Layer(h, v, w, i);
    forall x | x in s.layers[i] && x < |g.adj|
      ensures |Touching(s.edges[j], x)| <= Degree(g, x)
    {
      TouchingBound(g, v, w, i, x);
    }
  }

  /** A layer-1 edge needs a layer-1 node, and that node a parent edge in layer 0.5. */
  lemma InsideNeedsBetween(g: Graph, v: Node, w: Node, s: Search)
    requires SearchOf(g, v, w, 2, s) && s.edges[2] != {}
    ensures s.edges[1] != {}
  {
    var h := RemoveEdge(g, v, w);
    RemoveStrips(g, v, w);
    var p :| p in s.edges[2];
    assert OneWay(h, v, w, 1, s.edges[2]);
    assert p.0 in Layer(h, v, w, 1);
    NextLayer(h, v, w, 0, p.0);
    var q :| q in Layer(h, v, w, 0) && q < |h.adj| && p.0 in h.adj[q];
    assert (q, p.0) in s.edges[1];
  }

  lemma ExpectedNonNegative(x: int, y: int, m: nat)
    requires x >= 0 && y >= 0 && m > 0
    ensures Expected(x, y, m) >= 0.0
  {
    assert x * y >= 0;
  }

  lemma ExcessAtMostOne(observed: nat, expected: real, size: nat)
    requires observed <= size && expected >= 0.0 && size > 0
    ensures Excess(observed, expected, size) <= 1.0
  {
  }

  lemma MixAtMostOne(a: real, x: real, y: real)
    requires 0.0 <= a <= 1.0 && x <= 1.0 && y <= 1.0
    ensures Mix(a, x, y) <= 1.0
  {
    assert a * x <= a * 1.0;
    assert (1.0 - a) * y <= (1.0 - a) * 1.0;
  }

  /** The search graph has an edge: (v, w) itself. */
  lemma HasEdges(g: Graph, v: Node, w: Node)
    requires WellFormed(g) && Adjacent(g, v, w)
    ensures NumEdges(g) > 0
  {
    EdgeInList(g, v, w);
  }

  /** On the result of a search to depth 1 or 2 the estimate raises no error. */
  lemma ScoreDefined(g: Graph, v: Node, w: Node, d: nat, s: Search, a: real)
    requires SearchOf(g, v, w, d, s) && 1 <= d <= 2
    ensures Fits(g, s) && v < |g.adj| && w < |g.adj|
    ensures Score(g, v, w, s, a).Success?
  {
    SearchFits(g, v, w, d, s);
    HasEdges(g, v, w);
    if d == 2 && s.edges[2] != {} {
      InsideNeedsBetween(g, v, w, s);
    }
  }

  /** The observed share of layer 0.5 less its expected share is at most 1. */
  lemma BetweenAtMostOne(g: Graph, v: Node, w: Node, d: nat, s: Search)
    requires SearchOf(g, v, w, d, s) && 1 <= d <= 2 && s.edges[1] != {}
    ensures Fits(g, s) && v < |g.adj| && w < |g.adj| && NumEdges(g) > 0
    ensures Excess(|Observed(s.edges[1], s.root, false)|, ExpectedBetween(g, v, w, s, 0), |s.edges[1]|) <= 1.0
  {
    SearchFits(g, v, w, d, s);
    HasEdges(g, v, w);
    StubsNonNegative(g, v, w, d, s, 0);
    ExpectedNonNegative(Total(StubsAt(g, v, w, s, 0)), DegreeSum(g, s.layers[1], |g.adj|), NumEdges(g));
    SubsetCard(Observed(s.edges[1], s.root, false), s.edges[1]);
    ExcessAtMostOne(|Observed(s.edges[1], s.root, false)|, ExpectedBetween(g, v, w, s, 0), |s.edges[1]|);
  }

  /** The observed share of layer 1 less its expected share is at most 1. */
  lemma InsideAtMostOne(g: Graph, v: Node, w: Node, s: Search)
    requires SearchOf(g, v, w, 2, s) && s.edges[2] != {}
    ensures Fits(g, s) && v < |g.adj| && w < |g.adj| && NumEdges(g) > 0
    ensures Excess(|Observed(s.edges[2], s.root, true)|, ExpectedInside(g, v, w, s, 1), |s.edges[2]|) <= 1.0
  {
    SearchFits(g, v, w, 2, s);
    HasEdges(g, v, w);
    StubsNonNegative(g, v, w, 2, s, 1);
    var st := StubsAt(g, v, w, s, 1);
    ExpectedNonNegative(st.v, st.w, NumEdges(g));
    ExpectedNonNegative(st.both, Total(st), NumEdges(g));
    SubsetCard(Observed(s.edges[2], s.root, true), s.edges[2]);
    ExcessAtMostOne(|Observed(s.edges[2], s.root, true)|, ExpectedInside(g, v, w, s, 1), |s.edges[2]|);
  }

  /** The estimate is at most 1 whenever both of its terms are. */
  lemma ScoreBound(g: Graph, v: Node, w: Node, s: Search, a: real)
    requires Fits(g, s) && v < |g.adj| && w < |g.adj| && NumEdges(g) > 0
    requires 2 <= |s.layers| <= 3 && 0.0 <= a <= 1.0
    requires s.edges[1] != {} ==>
      Excess(|Observed(s.edges[1], s.root, false)|, ExpectedBetween(g, v, w, s, 0), |s.edges[1]|) <= 1.0
    requires |s.layers| == 3 && s.edges[2] != {} ==>
      && s.edges[1] != {}
      && Excess(|Observed(s.edges[2], s.root, true)|, ExpectedInside(g, v, w, s, 1), |s.edges[2]|) <= 1.0
    ensures Score(g, v, w, s, a).Success? && Score(g, v, w, s, a).value <= 1.0
  {
    if |s.layers| == 3 && s.edges[2] != {} {
      MixAtMostOne(a,
        Excess(|Observed(s.edges[1], s.root, false)|, ExpectedBetween(g, v, w, s, 0), |s.edges[1]|),
        Excess(|Observed(s.edges[2], s.root, true)|, ExpectedInside(g, v, w, s, 1), |s.edges[2]|));
    }
  }

  /** With a between 0 and 1 the estimate is at most 1; no lower bound holds. */
  lemma ScoreAtMostOne(g: Graph, v: Node, w: Node, d: nat, s: Search, a: real)
    requires SearchOf(g, v, w, d, s) && 1 <= d <= 2 && 0.0 <= a <= 1.0
    ensures Fits(g, s) && v < |g.adj| && w < |g.adj|
    ensures Score(g, v, w, s, a).Success? && Score(g, v, w, s, a).value <= 1.0
  {
    SearchFits(g, v, w, d, s);
    HasEdges(g, v, w);
    if s.edges[1] != {} {
      BetweenAtMostOne(g, v, w, d, s);
    }
    if d == 2 && s.edges[2] != {} {
      InsideNeedsBetween(g, v, w, s);
      InsideAtMostOne(g, v, w, s);
    }
    ScoreBound(g, v, w, s, a);
  }

  /** Layer 0.5 is empty exactly when v and w have no neighbours but each other. */
  lemma NoOtherNeighbours(g: Graph, v: Node, w: Node, d: nat, s: Search)
    requires SearchOf(g, v, w, d, s) && d >= 1
    ensures v < |g.adj| && w < |g.adj|
    ensures s.edges[1] == {} <==> Degree(g, v) == 1 && Degree(g, w) == 1
  {
    NeighbourFacts(g, v, w);
    assert s.edges[1] == HalfLayer(RemoveEdge(g, v, w), v, w, 0);
    if Degree(g, v) == 1 && Degree(g, w) == 1 {
      IsolatedNoHalf(g, v, w);
    } else {
      OtherNeighbourHalf(g, v, w);
    }
  }

  lemma IsolatedNoHalf(g: Graph, v: Node, w: Node)
    requires WellFormed(g) && Adjacent(g, v, w) && v < |g.adj| && w < |g.adj|
    requires Degree(g, v) == 1 && Degree(g, w) == 1
    ensures HalfLayer(RemoveEdge(g, v, w), v, w, 0) == {}
  {
    var h := RemoveEdge(g, v, w);
    NeighbourFacts(g, v, w);
    assert g.adj[v] == [w] && g.adj[w] == [v];
    RemoveStrips(g, v, w);
    forall p | p in HalfLayer(h, v, w, 0)
      ensures false
    {
    }
  }

  lemma OtherNeighbourHalf(g: Graph, v: Node, w: Node)
    requires WellFormed(g) && Adjacent(g, v, w) && v < |g.adj| && w < |g.adj|
    requires Degree(g, v) != 1 || Degree(g, w) != 1
    ensures HalfLayer(RemoveEdge(g, v, w), v, w, 0) != {}
  {
    var h := RemoveEdge(g, v, w);
    RemoveStrips(g, v, w);
    NeighbourFacts(g, v, w);
    var a := if Degree(g, v) != 1 then v else w;
    var o := if a == v then w else v;
    assert Degree(g, a) >= 2 by {
      assert o in g.adj[a];
    }
    var y := if g.adj[a][0] != o then g.adj[a][0] else g.adj[a][1];
    assert Distinct(g.adj[a]);
    assert y in g.adj[a] && y != o;
    NeighbourFacts(g, a, y);
    assert y in h.adj[a];
    NextLayer(h, v, w, 0, y);
    assert (a, y) in HalfLayer(h, v, w, 0);
  }

  /** Without other neighbours of v and w the estimate is exactly one half. */
  lemma ScoreIsolated(g: Graph, v: Node, w: Node, d: nat, s: Search, a: real)
    requires SearchOf(g, v, w, d, s) && 1 <= d <= 2
    requires v < |g.adj| && w < |g.adj| && Degree(g, v) == 1 && Degree(g, w) == 1
    ensures Fits(g, s)
    ensures Score(g, v, w, s, a) == Success(0.5)
  {
    ScoreDefined(g, v, w, d, s, a);
    NoOtherNeighbours(g, v, w, d, s);
    if d == 2 && s.edges[2] != {} {
      InsideNeedsBetween(g, v, w, s);
    }
  }

  /**
    Without edges inside layer 1 the estimate is the rescaled layer-0.5
    term alone (0 when layer 0.5 is empty too), whatever a is.
   */
  lemma ScoreHalfOnly(g: Graph, v: Node, w: Node, d: nat, s: Search, a: real)
    requires SearchOf(g, v, w, d, s) && (d == 1 || (d == 2 && s.edges[2] == {}))
    ensures Fits(g, s) && v < |g.adj| && w < |g.adj| && |s.layers| == d + 1 && NumEdges(g) > 0
    ensures Score(g, v, w, s, a) == Success(Rescale(
      if s.edges[1] == {} then 0.0
      else Excess(|Observed(s.edges[1], s.root, false)|, ExpectedBetween(g, v, w, s, 0), |s.edges[1]|)))
  {
    assert Fits(g, s) && v < |g.adj| && w < |g.adj| && |s.layers| == d + 1 && NumEdges(g) > 0 by {
      SearchFits(g, v, w, d, s);
      HasEdges(g, v, w);
    }
    HalfTerm(g, v, w, s, a);
  }

  /** The score of a search without a layer-1 term, on a graph with an edge. */
  lemma HalfTerm(g: Graph, v: Node, w: Node, s: Search, a: real)
    requires Fits(g, s) && v < |g.adj| && w < |g.adj| && NumEdges(g) > 0
    requires |s.layers| == 2 || (|s.layers| == 3 && s.edges[2] == {})
    ensures Score(g, v, w, s, a) == Success(Rescale(
      if s.edges[1] == {} then 0.0
      else Excess(|Observed(s.edges[1], s.root, false)|, ExpectedBetween(g, v, w, s, 0), |s.edges[1]|)))
  {
  }

  /**
    Of two edge layers that each keep one orientation of the same edges,
    the second is the part they share plus the rest of the first reversed.
   */
  lemma OneWaySplit(r: set<(Node, Node)>, l: set<Node>, e1: set<(Node, Node)>, e2: set<(Node, Node)>)
    requires OneWayOf(r, l, e1) && OneWayOf(r, l, e2)
    ensures e2 == e1 * e2 + Reversed(e1 - e2)
    ensures e1 * e2 !! Reversed(e1 - e2)
  {
    var both := e1 * e2;
    var only := e1 - e2;
    forall p | p in e2
      ensures p in both + Reversed(only)
    {
      if p !in e1 {
        var q := (p.1, p.0);
        assert q in only;
        assert p == (q.1, q.0);
      }
    }
    forall p | p in Reversed(only)
      ensures p in e2 && p !in both
    {
      var q :| q in only && p == (q.1, q.0);
    }
  }

  /** Observing distributes over a union of edge layers. */
  lemma ObservedUnion(a: set<(Node, Node)>, b: set<(Node, Node)>, root: seq<Option<Root>>, inside: bool)
    requires forall p | p in a + b :: p.0 < |root| && p.1 < |root|
    ensures Observed(a + b, root, inside) == Observed(a, root, inside) + Observed(b, root, inside)
  {
  }

  /**
    Two edge layers that each keep one orientation of the same edges have
    as many pairs, and as many observed pairs.
   */
  lemma OneWaySize(r: set<(Node, Node)>, l: set<Node>, e1: set<(Node, Node)>, e2: set<(Node, Node)>,
                   root: seq<Option<Root>>, inside: bool)
    requires OneWayOf(r, l, e1) && OneWayOf(r, l, e2)
    requires forall p | p in e1 :: p.0 < |root| && p.1 < |root|
    requires forall p | p in e2 :: p.0 < |root| && p.1 < |root|
    ensures |e1| == |e2|
    ensures |Observed(e1, root, inside)| == |Observed(e2, root, inside)|
  {
    var both := e1 * e2;
    var only := e1 - e2;
    OneWaySplit(r, l, e1, e2);
    assert e1 == both + only;
    ReversedSize(only);
    ObservedReversed(only, root, inside);
    var ob := Observed(both, root, inside);
    var oo := Observed(only, root, inside);
    ReversedSize(oo);
    assert Observed(e1, root, inside) == ob + oo by {
      ObservedUnion(both, only, root, inside);
    }
    assert Observed(e2, root, inside) == ob + Reversed(oo) by {
      ObservedUnion(both, Reversed(only), root, inside);
    }
  }

  /** The free stubs read only the layers, the roots and the edge layer just above. */
  lemma {:induction false} FreeStubsSame(g: Graph, s1: Search, s2: Search, i: nat, t: Root, k: nat)
    requires Fits(g, s1) && Fits(g, s2) && 1 <= i < |s1.layers| && k <= |g.adj|
    requires s1.layers == s2.layers && s1.root == s2.root && s1.edges[2 * i - 1] == s2.edges[2 * i - 1]
    ensures FreeStubs(g, s1, i, t, k) == FreeStubs(g, s2, i, t, k)
  {
    if k > 0 {
      FreeStubsSame(g, s1, s2, i, t, k - 1);
    }
  }

  /**
    The estimate reads a search through its layers, its roots, the edge
    layer 0.5, the free stubs of layer 1 and the sizes of edge layer 1 and
    of its observed part.
   */
  lemma ScoreCongruent(g: Graph, v: Node, w: Node, s1: Search, s2: Search, a: real)
    requires Fits(g, s1) && Fits(g, s2) && v < |g.adj| && w < |g.adj|
    requires s1.layers == s2.layers && s1.root == s2.root && 2 <= |s1.layers| <= 3
    requires s1.edges[1] == s2.edges[1]
    requires |s1.layers| == 3 ==>
      && StubsAt(g, v, w, s1, 1) == StubsAt(g, v, w, s2, 1)
      && |s1.edges[2]| == |s2.edges[2]|
      && |Observed(s1.edges[2], s1.root, true)| == |Observed(s2.edges[2], s2.root, true)|
    ensures Score(g, v, w, s1, a) == Score(g, v, w, s2, a)
  {
    if NumEdges(g) > 0 {
      assert ExpectedBetween(g, v, w, s1, 0) == ExpectedBetween(g, v, w, s2, 0);
      if |s1.layers| == 3 && |s1.edges[2]| > 0 {
        assert ExpectedInside(g, v, w, s1, 1) == ExpectedInside(g, v, w, s2, 1);
        if |s1.edges[1]| > 0 {
          FullTerm(g, v, w, s1, a);
          FullTerm(g, v, w, s2, a);
        }
      } else {
        HalfTerm(g, v, w, s1, a);
        HalfTerm(g, v, w, s2, a);
      }
    }
  }

  /** The score of a search with both terms, on a graph with an edge. */
  lemma FullTerm(g: Graph, v: Node, w: Node, s: Search, a: real)
    requires Fits(g, s) && v < |g.adj| && w < |g.adj| && |s.layers| == 3 && NumEdges(g) > 0
    requires |s.edges[1]| > 0 && |s.edges[2]| > 0
    ensures Score(g, v, w, s, a) == Success(Rescale(Mix(a,
      Excess(|Observed(s.edges[1], s.root, false)|, ExpectedBetween(g, v, w, s, 0), |s.edges[1]|),
      Excess(|Observed(s.edges[2], s.root, true)|, ExpectedInside(g, v, w, s, 1), |s.edges[2]|))))
  {
  }

  /**
    The estimate does not depend on which orientation the search recorded
    for the edges inside a layer: any two results of the search from (v, w)
    to depth 1 or 2 score the same.
   */
  lemma ScoreUnique(g: Graph, v: Node, w: Node, d: nat, s1: Search, s2: Search, a: real)
    requires SearchOf(g, v, w, d, s1) && SearchOf(g, v, w, d, s2) && 1 <= d <= 2
    ensures Fits(g, s1) && Fits(g, s2) && v < |g.adj| && w < |g.adj|
    ensures Score(g, v, w, s1, a) == Score(g, v, w, s2, a)
  {
    SearchFits(g, v, w, d, s1);
    SearchFits(g, v, w, d, s2);
    var h := RemoveEdge(g, v, w);
    assert s1.layers == s2.layers by {
      forall k | 0 <= k <= d
        ensures s1.layers[k] == s2.layers[k]
      {
        assert s1.layers[k] == Layer(h, v, w, k);
      }
    }
    assert s1.root == s2.root by {
      forall x: Node | x < |h.adj|
        ensures s1.root[x] == s2.root[x]
      {
      }
    }
    assert s1.edges[1] == HalfLayer(h, v, w, 0) == s2.edges[1];
    if d == 2 {
      assert StubsAt(g, v, w, s1, 1) == StubsAt(g, v, w, s2, 1) by {
        FreeStubsSame(g, s1, s2, 1, V, |g.adj|);
        FreeStubsSame(g, s1, s2, 1, W, |g.adj|);
        FreeStubsSame(g, s1, s2, 1, Both, |g.adj|);
      }
      var l := Layer(h, v, w, 1);
      assert OneWay(h, v, w, 1, s1.edges[2]) && OneWay(h, v, w, 1, s2.edges[2]);
      OneWaySize(PairsFrom(h, l), l, s1.edges[2], s2.edges[2], s1.root, true);
    }
    ScoreCongruent(g, v, w, s1, s2, a);
  }
}
