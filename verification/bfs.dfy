/**
  The two-root breadth-first search: the edge (v, w) is taken out, the
  nodes are explored layer by layer from v and w together, and every
  explored node and edge is given a depth, every explored node a subtree
  root.  The nodes of a layer are visited in an arbitrary order, so the
  postconditions of `Explore` hold for every order the graph library may
  use.
 */
module Bfs {
  import opened Wrappers
  import opened Graphs
  import opened Connectivity
  import opened Layering

  /** The depth of an edge, counted in half steps; Unexplored is the source's -1. */
  datatype EdgeDepth = Unexplored | Explored(twice: nat)

  /**
    The search's bookkeeping.  depth[x] is the layer of x (-1 while
    unexplored), root[x] its subtree root (None while unexplored), layers[k]
    the nodes of layer k, and edges[j] the edges of layer j / 2: the source's
    key 0.5 is index 1, key 1 is index 2, and index 0, which has no key in
    the source, stays empty.  edgeDepth maps ordered pairs of nodes to the
    depth of their edge.
   */
  datatype Search = Search(
    depth: seq<int>,
    root: seq<Option<Root>>,
    layers: seq<set<Node>>,
    edges: seq<set<(Node, Node)>>,
    edgeDepth: map<(Node, Node), EdgeDepth>)

  /** The state before the first layer: v and w at depth 0, every listed edge unexplored. */
  function Start(h: Graph, v: Node, w: Node, d: nat): Search
  {
    Search(
      seq(|h.adj|, x => if x == v || x == w then 0 else -1),
      seq(|h.adj|, x => if x == v then Some(V) else if x == w then Some(W) else None),
      seq(d + 1, k => if k == 0 then {v, w} else {}),
      seq(2 * d, j => {}),
      (map p | p in EdgeList(h) :: Unexplored)[(v, w) := Explored(0)][(w, v) := Explored(0)])
  }

  /** One step of the search: node a of layer i looks at its neighbour b. */
  function Visit(s: Search, i: nat, a: Node, b: Node): Search
    requires a < |s.depth| && b < |s.depth| && |s.root| == |s.depth|
    requires i + 1 < |s.layers| && 2 * i + 1 < |s.edges|
  {
    var down := Explored(2 * i + 1);
    if s.depth[b] == -1 then
      s.(depth := s.depth[b := i + 1],
         layers := s.layers[i + 1 := s.layers[i + 1] + {b}],
         edges := s.edges[2 * i + 1 := s.edges[2 * i + 1] + {(a, b)}],
         edgeDepth := s.edgeDepth[(a, b) := down][(b, a) := down],
         root := s.root[b := s.root[a]])
    else if s.depth[b] == s.depth[a] then
      if (b, a) !in s.edges[2 * i] then
        s.(edges := s.edges[2 * i := s.edges[2 * i] + {(a, b)}],
           edgeDepth := s.edgeDepth[(a, b) := Explored(2 * i)][(b, a) := Explored(2 * i)])
      else s
    else if s.depth[b] == s.depth[a] + 1 then
      s.(edges := s.edges[2 * i + 1 := s.edges[2 * i + 1] + {(a, b)}],
         edgeDepth := s.edgeDepth[(a, b) := down][(b, a) := down],
         root := if s.root[b] != s.root[a] then s.root[b := Some(Both)] else s.root)
    else s
  }

  // ---------------------------------------------------------------------
  // The state of the search part-way through layer i
  // ---------------------------------------------------------------------

  /** The nodes the pairs of r lead to. */
  function Targets(r: set<(Node, Node)>): set<Node>
  {
    set p | p in r :: p.1
  }

  function Reverse(r: set<(Node, Node)>): set<(Node, Node)>
  {
    set p | p in r :: (p.1, p.0)
  }

  /** The nodes whose neighbours are all handled before layer i starts. */
  function Before(h: Graph, v: Node, w: Node, i: nat): set<Node>
  {
    if i == 0 then {} else Ball(h, v, w, i - 1)
  }

  /** The first j pairs (a, b) that node a examines. */
  function Prefix(h: Graph, a: Node, j: nat): set<(Node, Node)>
    requires a < |h.adj| && j <= |h.adj[a]|
  {
    set k | 0 <= k < j :: (a, h.adj[a][k])
  }

  /** The nodes known once the pairs r of layer i have been examined. */
  function Reached(h: Graph, v: Node, w: Node, i: nat, r: set<(Node, Node)>): set<Node>
  {
    Ball(h, v, w, i) + Targets(r)
  }

  /** The tags of the parents in layer i of x that have examined x so far. */
  function TagsSoFar(h: Graph, v: Node, w: Node, i: nat, r: set<(Node, Node)>, x: Node): set<Root>
  {
    set p | p in Layer(h, v, w, i) && (p, x) in r :: Tag(h, v, w, i, p)
  }

  /** The depth an edge of h is given: the sum of its ends' depths, in half steps. */
  function EdgeValue(h: Graph, v: Node, w: Node, k: nat, p: (Node, Node)): EdgeDepth
  {
    var a := Depth(h, v, w, k, p.0);
    var b := Depth(h, v, w, k, p.1);
    if a >= 0 && b >= 0 then Explored(a + b) else Unexplored
  }

  /** The pairs the edge depth map has keys for once the pairs rec are recorded. */
  function EdgeKeys(h: Graph, v: Node, w: Node, rec: set<(Node, Node)>): set<(Node, Node)>
  {
    (set q | q in EdgeList(h)) + {(v, w), (w, v)} + rec + Reverse(rec)
  }

  /** The depth recorded for the pair p once the pairs rec are recorded. */
  function EdgeEntry(h: Graph, v: Node, w: Node, k: nat, rec: set<(Node, Node)>, p: (Node, Node)): EdgeDepth
  {
    if p in rec || (p.1, p.0) in rec then EdgeValue(h, v, w, k, p)
    else if p == (v, w) || p == (w, v) then Explored(0)
    else Unexplored
  }

  /** The edge depths once the pairs rec are recorded; depths are looked up within k steps. */
  function EdgeDepths(h: Graph, v: Node, w: Node, k: nat, rec: set<(Node, Node)>): map<(Node, Node), EdgeDepth>
  {
    map p | p in EdgeKeys(h, v, w, rec) :: EdgeEntry(h, v, w, k, rec, p)
  }

  predicate Shape(h: Graph, d: nat, s: Search)
  {
    |s.depth| == |h.adj| && |s.root| == |h.adj| && |s.layers| == d + 1 && |s.edges| == 2 * d
  }

  predicate DepthsAt(h: Graph, v: Node, w: Node, i: nat, r: set<(Node, Node)>, s: Search)
    requires |s.depth| == |h.adj|
  {
    forall x: Node {:trigger s.depth[x]} | x < |h.adj| ::
      s.depth[x] == if x in Reached(h, v, w, i, r) then Depth(h, v, w, i + 1, x) else -1
  }

  predicate LayersAt(h: Graph, v: Node, w: Node, d: nat, i: nat, r: set<(Node, Node)>, s: Search)
    requires |s.layers| == d + 1
  {
    forall k {:trigger s.layers[k]} | 0 <= k <= d ::
      s.layers[k] == if k <= i then Layer(h, v, w, k) else if k == i + 1 then Layer(h, v, w, k) * Targets(r) else {}
  }

  predicate RootsAt(h: Graph, v: Node, w: Node, i: nat, r: set<(Node, Node)>, s: Search)
    requires |s.root| == |h.adj|
  {
    forall x: Node {:trigger s.root[x]} | x < |h.adj| ::
      s.root[x] ==
        if x in Ball(h, v, w, i) then Some(Tag(h, v, w, Depth(h, v, w, i, x), x))
        else if x in Targets(r) then Some(Combine(TagsSoFar(h, v, w, i, r, x)))
        else None
  }

  /** The edge layers finished before layer i. */
  predicate EdgesBefore(h: Graph, v: Node, w: Node, d: nat, i: nat, s: Search)
    requires |s.edges| == 2 * d
  {
    forall j {:trigger s.edges[j]} | 0 <= j < 2 * i && j < 2 * d ::
      if j % 2 == 1 then s.edges[j] == HalfLayer(h, v, w, j / 2) else OneWay(h, v, w, j / 2, s.edges[j])
  }

  /** The edge layers of layer i after the pairs r, and the untouched ones after them. */
  predicate EdgesAt(h: Graph, v: Node, w: Node, d: nat, i: nat, r: set<(Node, Node)>, s: Search)
    requires |s.edges| == 2 * d
  {
    && EdgesBefore(h, v, w, d, i, s)
    && (2 * i < 2 * d ==> OneWayOf(r, Layer(h, v, w, i), s.edges[2 * i]))
    && (2 * i + 1 < 2 * d ==> s.edges[2 * i + 1] == HalfLayer(h, v, w, i) * r)
    && (forall j | 2 * i + 1 < j < 2 * d :: s.edges[j] == {})
  }

  /** The pairs whose edges have a recorded depth part-way through layer i. */
  function Recorded(h: Graph, v: Node, w: Node, i: nat, r: set<(Node, Node)>): set<(Node, Node)>
  {
    PairsFrom(h, Before(h, v, w, i)) + r
  }

  lemma RecordedAdd(h: Graph, v: Node, w: Node, i: nat, r: set<(Node, Node)>, p: (Node, Node))
    ensures Recorded(h, v, w, i, r + {p}) == Recorded(h, v, w, i, r) + {p}
  {
  }

  predicate EdgeDepthsAt(h: Graph, v: Node, w: Node, i: nat, r: set<(Node, Node)>, s: Search)
  {
    s.edgeDepth == EdgeDepths(h, v, w, i + 1, Recorded(h, v, w, i, r))
  }

  /** What the search knows part-way through layer i, once the pairs r are examined. */
  predicate During(h: Graph, v: Node, w: Node, d: nat, i: nat, r: set<(Node, Node)>, s: Search)
  {
    && Shape(h, d, s)
    && DepthsAt(h, v, w, i, r, s)
    && LayersAt(h, v, w, d, i, r, s)
    && RootsAt(h, v, w, i, r, s)
    && EdgesAt(h, v, w, d, i, r, s)
    && EdgeDepthsAt(h, v, w, i, r, s)
  }

  /** The graph with the edge (v, w) taken out. */
  predicate Stripped(h: Graph, v: Node, w: Node)
  {
    WellFormed(h) && v < |h.adj| && w < |h.adj| && v != w && w !in h.adj[v]
  }

  lemma StartDuring(h: Graph, v: Node, w: Node, d: nat)
    requires Stripped(h, v, w)
    ensures During(h, v, w, d, 0, {}, Start(h, v, w, d))
  {
    var s := Start(h, v, w, d);
    assert Ball(h, v, w, 0) == {v, w};
    StartDepths(h, v, w, d);
    StartRoots(h, v, w, d);
    StartEdgeDepths(h, v, w, d);
  }

  lemma StartDepths(h: Graph, v: Node, w: Node, d: nat)
    requires Stripped(h, v, w)
    ensures DepthsAt(h, v, w, 0, {}, Start(h, v, w, d))
  {
    var s := Start(h, v, w, d);
    assert Ball(h, v, w, 0) == {v, w};
    forall x: Node | x < |h.adj|
      ensures s.depth[x] == if x in Reached(h, v, w, 0, {}) then Depth(h, v, w, 1, x) else -1
    {
      if x == v || x == w {
        DepthOfLayer(h, v, w, 1, 0, x);
      }
    }
  }

  lemma StartRoots(h: Graph, v: Node, w: Node, d: nat)
    requires Stripped(h, v, w)
    ensures RootsAt(h, v, w, 0, {}, Start(h, v, w, d))
  {
    var s := Start(h, v, w, d);
    assert Ball(h, v, w, 0) == {v, w};
    forall x: Node | x < |h.adj|
      ensures s.root[x] ==
        if x in Ball(h, v, w, 0) then Some(Tag(h, v, w, Depth(h, v, w, 0, x), x))
        else if x in Targets({}) then Some(Combine(TagsSoFar(h, v, w, 0, {}, x)))
        else None
    {
    }
  }

  lemma StartEdgeDepths(h: Graph, v: Node, w: Node, d: nat)
    ensures EdgeDepthsAt(h, v, w, 0, {}, Start(h, v, w, d))
  {
    var none: set<(Node, Node)> := {};
    assert Recorded(h, v, w, 0, none) == none;
    StartMap(h, v, w, 1);
  }

  /** With nothing recorded, the map holds Unexplored for every listed edge and 0 for (v, w). */
  lemma StartMap(h: Graph, v: Node, w: Node, k: nat)
    ensures EdgeDepths(h, v, w, k, {}) ==
      (map p | p in EdgeList(h) :: Unexplored)[(v, w) := Explored(0)][(w, v) := Explored(0)]
  {
    var none: set<(Node, Node)> := {};
    var m := EdgeDepths(h, v, w, k, none);
    var m' := (map p | p in EdgeList(h) :: Unexplored)[(v, w) := Explored(0)][(w, v) := Explored(0)];
    assert Reverse(none) == none;
    assert m.Keys == m'.Keys;
    forall p | p in m.Keys
      ensures m[p] == m'[p]
    {
    }
    assert m == m';
  }

  // ---------------------------------------------------------------------
  // One step
  // ---------------------------------------------------------------------

  /** Node a of layer i is about to examine its neighbour b, for the first time. */
  predicate Examining(h: Graph, v: Node, w: Node, d: nat, i: nat, r: set<(Node, Node)>, a: Node, b: Node)
  {
    && Stripped(h, v, w) && i < d
    && a in Layer(h, v, w, i) && a < |h.adj| && b in h.adj[a]
    && (a, b) !in r && r <= PairsFrom(h, Layer(h, v, w, i))
  }

  /** The pairs of layer i lead into balls i + 1. */
  lemma TargetsInBall(h: Graph, v: Node, w: Node, i: nat, r: set<(Node, Node)>)
    requires Stripped(h, v, w) && r <= PairsFrom(h, Layer(h, v, w, i))
    ensures Targets(r) <= Ball(h, v, w, i + 1)
    ensures Reached(h, v, w, i, r) <= Ball(h, v, w, i + 1)
  {
    forall x | x in Targets(r)
      ensures x in Ball(h, v, w, i + 1)
    {
      var p :| p in r && p.1 == x;
      NeighbourLayer(h, v, w, i, p.0, x);
    }
    BallMonotone(h, v, w, i, i + 1);
  }

  /** The branch Visit takes tells in which layer b lies. */
  lemma VisitCases(h: Graph, v: Node, w: Node, d: nat, i: nat, r: set<(Node, Node)>, s: Search, a: Node, b: Node)
    requires Examining(h, v, w, d, i, r, a, b) && Shape(h, d, s) && DepthsAt(h, v, w, i, r, s)
    ensures b < |h.adj| && s.depth[a] == i
    ensures s.depth[b] == -1 <==> b !in Reached(h, v, w, i, r)
    ensures s.depth[b] == -1 ==> b in Layer(h, v, w, i + 1)
    ensures s.depth[b] == i <==> b in Layer(h, v, w, i)
    ensures s.depth[b] == i + 1 <==> b in Layer(h, v, w, i + 1) && b in Targets(r)
    ensures s.depth[b] != -1 && s.depth[b] != i && s.depth[b] != i + 1 ==> i > 0 && b in Layer(h, v, w, i - 1)
  {
    NeighbourFacts(h, a, b);
    KnownDepth(h, v, w, d, i, r, s, i, a);
    NeighbourLayer(h, v, w, i, a, b);
    if b in Layer(h, v, w, i + 1) {
      NewDepth(h, v, w, d, i, r, s, b);
      if b in Layer(h, v, w, i) {
        LayerUnique(h, v, w, i, i + 1, b);
      }
    } else if b in Layer(h, v, w, i) {
      KnownDepth(h, v, w, d, i, r, s, i, b);
    } else {
      KnownDepth(h, v, w, d, i, r, s, i - 1, b);
    }
  }

  /** A node of a layer j <= i already has its depth j. */
  lemma KnownDepth(h: Graph, v: Node, w: Node, d: nat, i: nat, r: set<(Node, Node)>, s: Search, j: nat, x: Node)
    requires Stripped(h, v, w) && Shape(h, d, s) && DepthsAt(h, v, w, i, r, s)
    requires x < |h.adj| && j <= i && x in Layer(h, v, w, j)
    ensures x in Reached(h, v, w, i, r) && s.depth[x] == j
  {
    LayerInBall(h, v, w, j, i);
    DepthOfLayer(h, v, w, i + 1, j, x);
  }

  /** A node of layer i + 1 has depth i + 1 once it is reached, and -1 before. */
  lemma NewDepth(h: Graph, v: Node, w: Node, d: nat, i: nat, r: set<(Node, Node)>, s: Search, x: Node)
    requires Stripped(h, v, w) && Shape(h, d, s) && DepthsAt(h, v, w, i, r, s)
    requires x < |h.adj| && x in Layer(h, v, w, i + 1)
    ensures x in Reached(h, v, w, i, r) <==> x in Targets(r)
    ensures s.depth[x] == if x in Targets(r) then i + 1 else -1
  {
    DepthOfLayer(h, v, w, i + 1, i + 1, x);
  }

  lemma TargetsAdd(r: set<(Node, Node)>, a: Node, b: Node)
    ensures Targets(r + {(a, b)}) == Targets(r) + {b}
  {
    assert (a, b) in r + {(a, b)};
  }

  lemma VisitDepths(h: Graph, v: Node, w: Node, d: nat, i: nat, r: set<(Node, Node)>, s: Search, a: Node, b: Node)
    requires Examining(h, v, w, d, i, r, a, b) && Shape(h, d, s) && DepthsAt(h, v, w, i, r, s)
    ensures Shape(h, d, Visit(s, i, a, b))
    ensures DepthsAt(h, v, w, i, r + {(a, b)}, Visit(s, i, a, b))
  {
    VisitCases(h, v, w, d, i, r, s, a, b);
    TargetsAdd(r, a, b);
    var t := Visit(s, i, a, b);
    if s.depth[b] == -1 {
      DepthOfLayer(h, v, w, i + 1, i + 1, b);
    }
    forall x: Node | x < |h.adj|
      ensures t.depth[x] == if x in Reached(h, v, w, i, r + {(a, b)}) then Depth(h, v, w, i + 1, x) else -1
    {
    }
  }

  lemma VisitLayers(h: Graph, v: Node, w: Node, d: nat, i: nat, r: set<(Node, Node)>, s: Search, a: Node, b: Node)
    requires Examining(h, v, w, d, i, r, a, b) && Shape(h, d, s) && DepthsAt(h, v, w, i, r, s)
    requires LayersAt(h, v, w, d, i, r, s)
    ensures LayersAt(h, v, w, d, i, r + {(a, b)}, Visit(s, i, a, b))
  {
    VisitCases(h, v, w, d, i, r, s, a, b);
    TargetsAdd(r, a, b);
    var t := Visit(s, i, a, b);
    forall k | 0 <= k <= d
      ensures t.layers[k] ==
        if k <= i then Layer(h, v, w, k) else if k == i + 1 then Layer(h, v, w, k) * Targets(r + {(a, b)}) else {}
    {
    }
  }

  /** The tags of b's examining parents grow by a's tag. */
  lemma TagsSoFarAdd(h: Graph, v: Node, w: Node, i: nat, r: set<(Node, Node)>, a: Node, b: Node, x: Node)
    requires a in Layer(h, v, w, i)
    ensures TagsSoFar(h, v, w, i, r + {(a, b)}, x) ==
      if x == b then TagsSoFar(h, v, w, i, r, x) + {Tag(h, v, w, i, a)} else TagsSoFar(h, v, w, i, r, x)
  {
  }

  /** A node reached by a pair of r has a parent tag. */
  lemma TagsSoFarNonEmpty(h: Graph, v: Node, w: Node, i: nat, r: set<(Node, Node)>, x: Node)
    requires r <= PairsFrom(h, Layer(h, v, w, i)) && x in Targets(r)
    ensures TagsSoFar(h, v, w, i, r, x) != {}
  {
    var p :| p in r && p.1 == x;
    assert Tag(h, v, w, i, p.0) in TagsSoFar(h, v, w, i, r, x);
  }

  lemma VisitRoots(h: Graph, v: Node, w: Node, d: nat, i: nat, r: set<(Node, Node)>, s: Search, a: Node, b: Node)
    requires Examining(h, v, w, d, i, r, a, b) && Shape(h, d, s) && DepthsAt(h, v, w, i, r, s)
    requires RootsAt(h, v, w, i, r, s)
    ensures RootsAt(h, v, w, i, r + {(a, b)}, Visit(s, i, a, b))
  {
    TargetsAdd(r, a, b);
    var t := Visit(s, i, a, b);
    RootOfTarget(h, v, w, d, i, r, s, a, b);
    VisitRootElsewhere(s, i, a, b);
    forall x: Node | x < |h.adj| && x != b
      ensures t.root[x] ==
        if x in Ball(h, v, w, i) then Some(Tag(h, v, w, Depth(h, v, w, i, x), x))
        else if x in Targets(r + {(a, b)}) then Some(Combine(TagsSoFar(h, v, w, i, r + {(a, b)}, x)))
        else None
    {
      TagsSoFarAdd(h, v, w, i, r, a, b, x);
    }
  }

  /** The root Visit gives b is the combination of the tags of b's examining parents. */
  lemma RootOfTarget(h: Graph, v: Node, w: Node, d: nat, i: nat, r: set<(Node, Node)>, s: Search, a: Node, b: Node)
    requires Examining(h, v, w, d, i, r, a, b) && Shape(h, d, s) && DepthsAt(h, v, w, i, r, s)
    requires RootsAt(h, v, w, i, r, s)
    ensures b < |h.adj|
    ensures Visit(s, i, a, b).root[b] ==
      if b in Ball(h, v, w, i) then Some(Tag(h, v, w, Depth(h, v, w, i, b), b))
      else Some(Combine(TagsSoFar(h, v, w, i, r + {(a, b)}, b)))
  {
    VisitCases(h, v, w, d, i, r, s, a, b);
    var ta := Tag(h, v, w, i, a);
    assert s.root[a] == Some(ta) by {
      LayerInBall(h, v, w, i, i);
      DepthOfLayer(h, v, w, i, i, a);
    }
    TagsSoFarAdd(h, v, w, i, r, a, b, b);
    if b in Ball(h, v, w, i) {
      assert Visit(s, i, a, b).root == s.root;
    } else if b in Targets(r) {
      var tags := TagsSoFar(h, v, w, i, r, b);
      assert s.root[b] == Some(Combine(tags));
      assert Visit(s, i, a, b).root[b] == Some(Merge(Combine(tags), ta));
      TagsSoFarNonEmpty(h, v, w, i, r, b);
      CombineAdd(tags, ta);
    } else {
      assert Visit(s, i, a, b).root[b] == Some(ta);
      assert TagsSoFar(h, v, w, i, r, b) == {};
      CombineOne(ta);
    }
  }

  /** Examining (a, b) keeps one orientation of each edge inside layer i. */
  lemma OneWayAdd(r: set<(Node, Node)>, l: set<Node>, e: set<(Node, Node)>, a: Node, b: Node)
    requires OneWayOf(r, l, e) && a in l && a != b
    ensures b in l && (b, a) !in e ==> OneWayOf(r + {(a, b)}, l, e + {(a, b)})
    ensures b in l && (b, a) in e ==> OneWayOf(r + {(a, b)}, l, e)
    ensures b !in l ==> OneWayOf(r + {(a, b)}, l, e)
  {
  }

  lemma VisitEdges(h: Graph, v: Node, w: Node, d: nat, i: nat, r: set<(Node, Node)>, s: Search, a: Node, b: Node)
    requires Examining(h, v, w, d, i, r, a, b) && Shape(h, d, s) && DepthsAt(h, v, w, i, r, s)
    requires EdgesAt(h, v, w, d, i, r, s)
    ensures EdgesAt(h, v, w, d, i, r + {(a, b)}, Visit(s, i, a, b))
  {
    VisitCases(h, v, w, d, i, r, s, a, b);
    NeighbourFacts(h, a, b);
    var t := Visit(s, i, a, b);
    var l := Layer(h, v, w, i);
    OneWayAdd(r, l, s.edges[2 * i], a, b);
    assert OneWayOf(r + {(a, b)}, l, t.edges[2 * i]);
    assert (a, b) in HalfLayer(h, v, w, i) <==> b in Layer(h, v, w, i + 1);
    assert t.edges[2 * i + 1] == HalfLayer(h, v, w, i) * (r + {(a, b)});
    forall j | 0 <= j < 2 * d && j != 2 * i && j != 2 * i + 1
      ensures t.edges[j] == s.edges[j]
    {
    }
  }

  /** Recording (a, b) sets the entries of (a, b) and (b, a) and no others. */
  lemma EdgeDepthsAdd(h: Graph, v: Node, w: Node, k: nat, rec: set<(Node, Node)>, a: Node, b: Node)
    ensures EdgeDepths(h, v, w, k, rec + {(a, b)}) ==
      EdgeDepths(h, v, w, k, rec)[(a, b) := EdgeValue(h, v, w, k, (a, b))][(b, a) := EdgeValue(h, v, w, k, (a, b))]
  {
    var m := EdgeDepths(h, v, w, k, rec + {(a, b)});
    var m' := EdgeDepths(h, v, w, k, rec)[(a, b) := EdgeValue(h, v, w, k, (a, b))][(b, a) := EdgeValue(h, v, w, k, (a, b))];
    assert (b, a) in Reverse(rec + {(a, b)});
    forall p | p in Reverse(rec + {(a, b)})
      ensures p in Reverse(rec) || p == (b, a)
    {
    }
    forall p | p in Reverse(rec)
      ensures p in Reverse(rec + {(a, b)})
    {
    }
    assert m.Keys == m'.Keys;
    forall p | p in m.Keys
      ensures m[p] == m'[p]
    {
    }
    assert m == m';
  }

  lemma EdgeDepthsWrite(h: Graph, v: Node, w: Node, k: nat, rec: set<(Node, Node)>,
                        m: map<(Node, Node), EdgeDepth>, a: Node, b: Node, e: nat)
    requires m == EdgeDepths(h, v, w, k, rec) && EdgeValue(h, v, w, k, (a, b)) == Explored(e)
    ensures m[(a, b) := Explored(e)][(b, a) := Explored(e)] == EdgeDepths(h, v, w, k, rec + {(a, b)})
  {
    EdgeDepthsAdd(h, v, w, k, rec, a, b);
  }

  /** Recording a pair whose reverse is recorded changes nothing. */
  lemma EdgeDepthsKnown(h: Graph, v: Node, w: Node, k: nat, rec: set<(Node, Node)>, a: Node, b: Node)
    requires (b, a) in rec
    ensures EdgeDepths(h, v, w, k, rec + {(a, b)}) == EdgeDepths(h, v, w, k, rec)
  {
    var m := EdgeDepths(h, v, w, k, rec + {(a, b)});
    var m' := EdgeDepths(h, v, w, k, rec);
    assert (a, b) in Reverse(rec);
    forall p | p in Reverse(rec + {(a, b)})
      ensures p in Reverse(rec) || p == (b, a)
    {
    }
    assert m.Keys == m'.Keys;
    forall p | p in m.Keys
      ensures m[p] == m'[p]
    {
    }
    assert m == m';
  }

  lemma VisitEdgeDepths(h: Graph, v: Node, w: Node, d: nat, i: nat, r: set<(Node, Node)>, s: Search, a: Node, b: Node)
    requires Examining(h, v, w, d, i, r, a, b) && Shape(h, d, s) && DepthsAt(h, v, w, i, r, s)
    requires (b, a) in s.edges[2 * i] ==> (b, a) in r
    requires EdgeDepthsAt(h, v, w, i, r, s)
    ensures EdgeDepthsAt(h, v, w, i, r + {(a, b)}, Visit(s, i, a, b))
  {
    VisitCases(h, v, w, d, i, r, s, a, b);
    RecordedAdd(h, v, w, i, r, (a, b));
    if s.depth[b] == -1 || s.depth[b] == i + 1 || (s.depth[b] == i && (b, a) !in s.edges[2 * i]) {
      WriteEdgeDepth(h, v, w, d, i, r, s, a, b);
    } else {
      assert Visit(s, i, a, b) == s;
      assert (b, a) in Recorded(h, v, w, i, r) by {
        NeighbourFacts(h, a, b);
        if s.depth[b] != i {
          LayerInBall(h, v, w, i - 1, i - 1);
        }
      }
      EdgeDepthsKnown(h, v, w, i + 1, Recorded(h, v, w, i, r), a, b);
    }
  }

  /** When Visit writes the depth of (a, b), it writes the sum of the depths of a and b. */
  lemma WriteEdgeDepth(h: Graph, v: Node, w: Node, d: nat, i: nat, r: set<(Node, Node)>, s: Search, a: Node, b: Node)
    requires Examining(h, v, w, d, i, r, a, b) && Shape(h, d, s) && DepthsAt(h, v, w, i, r, s)
    requires EdgeDepthsAt(h, v, w, i, r, s)
    requires s.depth[b] == -1 || s.depth[b] == i + 1 || (s.depth[b] == i && (b, a) !in s.edges[2 * i])
    ensures Visit(s, i, a, b).edgeDepth == EdgeDepths(h, v, w, i + 1, Recorded(h, v, w, i, r) + {(a, b)})
  {
    VisitCases(h, v, w, d, i, r, s, a, b);
    var e := if s.depth[b] == i then 2 * i else 2 * i + 1;
    assert EdgeValue(h, v, w, i + 1, (a, b)) == Explored(e) by {
      DepthOfLayer(h, v, w, i + 1, i, a);
      DepthOfLayer(h, v, w, i + 1, e - i, b);
    }
    VisitWrites(s, i, a, b, e);
    EdgeDepthsWrite(h, v, w, i + 1, Recorded(h, v, w, i, r), s.edgeDepth, a, b, e);
  }

  lemma VisitWrites(s: Search, i: nat, a: Node, b: Node, e: nat)
    requires a < |s.depth| && b < |s.depth| && |s.root| == |s.depth|
    requires i + 1 < |s.layers| && 2 * i + 1 < |s.edges| && s.depth[a] == i
    requires || ((s.depth[b] == -1 || s.depth[b] == i + 1) && e == 2 * i + 1)
             || (s.depth[b] == i && (b, a) !in s.edges[2 * i] && e == 2 * i)
    ensures Visit(s, i, a, b).edgeDepth == s.edgeDepth[(a, b) := Explored(e)][(b, a) := Explored(e)]
  {
  }

  lemma VisitRootElsewhere(s: Search, i: nat, a: Node, b: Node)
    requires a < |s.depth| && b < |s.depth| && |s.root| == |s.depth|
    requires i + 1 < |s.layers| && 2 * i + 1 < |s.edges|
    ensures |Visit(s, i, a, b).root| == |s.root|
    ensures forall x | 0 <= x < |s.root| && x != b :: Visit(s, i, a, b).root[x] == s.root[x]
  {
  }

  /** One step of the search keeps the invariant, with one more pair examined. */
  lemma VisitDuring(h: Graph, v: Node, w: Node, d: nat, i: nat, r: set<(Node, Node)>, s: Search, a: Node, b: Node)
    requires Examining(h, v, w, d, i, r, a, b) && During(h, v, w, d, i, r, s)
    ensures During(h, v, w, d, i, r + {(a, b)}, Visit(s, i, a, b))
  {
    VisitDepths(h, v, w, d, i, r, s, a, b);
    VisitLayers(h, v, w, d, i, r, s, a, b);
    VisitRoots(h, v, w, d, i, r, s, a, b);
    VisitEdges(h, v, w, d, i, r, s, a, b);
    assert (b, a) in s.edges[2 * i] ==> (b, a) in r;
    VisitEdgeDepths(h, v, w, d, i, r, s, a, b);
  }

  // ---------------------------------------------------------------------
  // A finished layer
  // ---------------------------------------------------------------------

  /** Once every pair of layer i is examined, the known nodes are the ball i + 1. */
  lemma ReachedAll(h: Graph, v: Node, w: Node, i: nat)
    requires Stripped(h, v, w)
    ensures Reached(h, v, w, i, PairsFrom(h, Layer(h, v, w, i))) == Ball(h, v, w, i + 1)
  {
    var l := Layer(h, v, w, i);
    TargetsInBall(h, v, w, i, PairsFrom(h, l));
    forall x | x in Ball(h, v, w, i + 1) && x !in Ball(h, v, w, i)
      ensures x in Targets(PairsFrom(h, l))
    {
      NextLayer(h, v, w, i, x);
      var p :| p in l && p < |h.adj| && x in h.adj[p];
      assert (p, x) in PairsFrom(h, l);
    }
  }

  /** Looking a node of ball k up within one more step does not change its depth. */
  lemma DepthStable(h: Graph, v: Node, w: Node, k: nat, x: Node)
    requires x in Ball(h, v, w, k)
    ensures Depth(h, v, w, k + 1, x) == Depth(h, v, w, k, x)
  {
    DepthSpec(h, v, w, k, x);
    DepthOfLayer(h, v, w, k + 1, Depth(h, v, w, k, x), x);
  }

  lemma DoneDepths(h: Graph, v: Node, w: Node, d: nat, i: nat, s: Search)
    requires Stripped(h, v, w) && Shape(h, d, s)
    requires DepthsAt(h, v, w, i, PairsFrom(h, Layer(h, v, w, i)), s)
    ensures DepthsAt(h, v, w, i + 1, {}, s)
  {
    ReachedAll(h, v, w, i);
    assert Targets({}) == {};
    forall x: Node | x < |h.adj|
      ensures s.depth[x] == if x in Reached(h, v, w, i + 1, {}) then Depth(h, v, w, i + 2, x) else -1
    {
      if x in Ball(h, v, w, i + 1) {
        DepthStable(h, v, w, i + 1, x);
      }
    }
  }

  lemma DoneLayers(h: Graph, v: Node, w: Node, d: nat, i: nat, s: Search)
    requires Stripped(h, v, w) && Shape(h, d, s) && i < d
    requires LayersAt(h, v, w, d, i, PairsFrom(h, Layer(h, v, w, i)), s)
    ensures LayersAt(h, v, w, d, i + 1, {}, s)
  {
    ReachedAll(h, v, w, i);
    assert Layer(h, v, w, i + 1) * Targets(PairsFrom(h, Layer(h, v, w, i))) == Layer(h, v, w, i + 1);
  }

  /** Once all of layer i has examined x, the examining parents are all of x's parents. */
  lemma TagsSoFarAll(h: Graph, v: Node, w: Node, i: nat, x: Node)
    ensures TagsSoFar(h, v, w, i, PairsFrom(h, Layer(h, v, w, i)), x) == ParentTags(h, v, w, i, x)
  {
  }

  lemma DoneRoots(h: Graph, v: Node, w: Node, d: nat, i: nat, s: Search)
    requires Stripped(h, v, w) && Shape(h, d, s)
    requires RootsAt(h, v, w, i, PairsFrom(h, Layer(h, v, w, i)), s)
    ensures RootsAt(h, v, w, i + 1, {}, s)
  {
    ReachedAll(h, v, w, i);
    assert Targets({}) == {};
    forall x: Node | x < |h.adj|
      ensures s.root[x] == if x in Ball(h, v, w, i + 1) then Some(Tag(h, v, w, Depth(h, v, w, i + 1, x), x)) else None
    {
      if x in Ball(h, v, w, i) {
        DepthStable(h, v, w, i, x);
        BallMonotone(h, v, w, i, i + 1);
      } else if x in Ball(h, v, w, i + 1) {
        DepthOfLayer(h, v, w, i + 1, i + 1, x);
        TagsSoFarAll(h, v, w, i, x);
      }
    }
  }

  lemma DoneEdges(h: Graph, v: Node, w: Node, d: nat, i: nat, s: Search)
    requires Stripped(h, v, w) && Shape(h, d, s) && i < d
    requires EdgesAt(h, v, w, d, i, PairsFrom(h, Layer(h, v, w, i)), s)
    ensures EdgesAt(h, v, w, d, i + 1, {}, s)
  {
    var l := Layer(h, v, w, i);
    assert HalfLayer(h, v, w, i) <= PairsFrom(h, l);
    forall j | 0 <= j < 2 * (i + 1) && j < 2 * d
      ensures if j % 2 == 1 then s.edges[j] == HalfLayer(h, v, w, j / 2) else OneWay(h, v, w, j / 2, s.edges[j])
    {
      if j == 2 * i {
        assert j / 2 == i && j % 2 == 0;
      } else if j == 2 * i + 1 {
        assert j / 2 == i && j % 2 == 1;
      }
    }
  }

  /** The nodes handled before layer i, with layer i, are the ball i. */
  lemma BeforeAndLayer(h: Graph, v: Node, w: Node, i: nat)
    ensures Before(h, v, w, i) + Layer(h, v, w, i) == Ball(h, v, w, i)
  {
    if i > 0 {
      BallMonotone(h, v, w, i - 1, i);
    }
  }

  lemma PairsFromUnion(h: Graph, s: set<Node>, t: set<Node>)
    ensures PairsFrom(h, s + t) == PairsFrom(h, s) + PairsFrom(h, t)
  {
  }

  /** Once the pairs rec join nodes of ball k, their depths no longer change with k. */
  lemma EdgeDepthsDeeper(h: Graph, v: Node, w: Node, k: nat, rec: set<(Node, Node)>)
    requires forall p | p in rec :: p.0 in Ball(h, v, w, k) && p.1 in Ball(h, v, w, k)
    ensures EdgeDepths(h, v, w, k, rec) == EdgeDepths(h, v, w, k + 1, rec)
  {
    var m := EdgeDepths(h, v, w, k, rec);
    var m' := EdgeDepths(h, v, w, k + 1, rec);
    assert m.Keys == m'.Keys;
    forall p | p in m.Keys
      ensures m[p] == m'[p]
    {
      if p in rec || (p.1, p.0) in rec {
        DepthStable(h, v, w, k, p.0);
        DepthStable(h, v, w, k, p.1);
      }
    }
    assert m == m';
  }

  /** After layer i the recorded pairs are those leaving ball i, whichever way they are counted. */
  lemma RecordedDone(h: Graph, v: Node, w: Node, i: nat)
    ensures Recorded(h, v, w, i, PairsFrom(h, Layer(h, v, w, i))) == PairsFrom(h, Ball(h, v, w, i))
    ensures Recorded(h, v, w, i + 1, {}) == PairsFrom(h, Ball(h, v, w, i))
  {
    BeforeAndLayer(h, v, w, i);
    PairsFromUnion(h, Before(h, v, w, i), Layer(h, v, w, i));
  }

  /** The pairs leaving ball i join nodes of ball i + 1. */
  lemma PairsFromBall(h: Graph, v: Node, w: Node, i: nat)
    requires Stripped(h, v, w)
    ensures forall p | p in PairsFrom(h, Ball(h, v, w, i)) :: p.0 in Ball(h, v, w, i + 1) && p.1 in Ball(h, v, w, i + 1)
  {
    forall p | p in PairsFrom(h, Ball(h, v, w, i))
      ensures p.0 in Ball(h, v, w, i + 1) && p.1 in Ball(h, v, w, i + 1)
    {
      BallMonotone(h, v, w, i, i + 1);
      BallStep(h, v, w, i, p.1);
      NeighbourFacts(h, p.0, p.1);
    }
  }

  lemma DoneEdgeDepths(h: Graph, v: Node, w: Node, d: nat, i: nat, s: Search)
    requires Stripped(h, v, w)
    requires EdgeDepthsAt(h, v, w, i, PairsFrom(h, Layer(h, v, w, i)), s)
    ensures EdgeDepthsAt(h, v, w, i + 1, {}, s)
  {
    RecordedDone(h, v, w, i);
    PairsFromBall(h, v, w, i);
    EdgeDepthsDeeper(h, v, w, i + 1, PairsFrom(h, Ball(h, v, w, i)));
  }

  /** Examining every pair of layer i finishes the layer. */
  lemma LayerDone(h: Graph, v: Node, w: Node, d: nat, i: nat, s: Search)
    requires Stripped(h, v, w) && i < d
    requires During(h, v, w, d, i, PairsFrom(h, Layer(h, v, w, i)), s)
    ensures During(h, v, w, d, i + 1, {}, s)
  {
    DoneDepths(h, v, w, d, i, s);
    DoneLayers(h, v, w, d, i, s);
    DoneRoots(h, v, w, d, i, s);
    DoneEdges(h, v, w, d, i, s);
    DoneEdgeDepths(h, v, w, d, i, s);
  }

  // ---------------------------------------------------------------------
  // The search
  // ---------------------------------------------------------------------

  /** The pairs node a examines, in the order of its adjacency list. */
  lemma PrefixStep(h: Graph, a: Node, k: nat)
    requires a < |h.adj| && k < |h.adj[a]|
    ensures Prefix(h, a, k + 1) == Prefix(h, a, k) + {(a, h.adj[a][k])}
  {
  }

  lemma PrefixAll(h: Graph, a: Node)
    requires a < |h.adj|
    ensures Prefix(h, a, |h.adj[a]|) == PairsFrom(h, {a})
  {
    forall p | p in PairsFrom(h, {a})
      ensures p in Prefix(h, a, |h.adj[a]|)
    {
      var k :| 0 <= k < |h.adj[a]| && h.adj[a][k] == p.1;
    }
  }

  /** Node a examines each neighbour once: the adjacency list has no duplicates. */
  lemma PrefixFresh(h: Graph, a: Node, k: nat)
    requires WellFormed(h) && a < |h.adj| && k < |h.adj[a]|
    ensures (a, h.adj[a][k]) !in Prefix(h, a, k)
  {
  }

  /** The layers lie inside the graph. */
  lemma LayerNodes(h: Graph, v: Node, w: Node, i: nat)
    requires Stripped(h, v, w)
    ensures Layer(h, v, w, i) <= Nodes(h)
  {
    LayerInBall(h, v, w, i, i);
    BallNodes(h, v, w, i);
  }

  /** Node a of layer i examines all its neighbours. */
  method ExploreNode(h: Graph, v: Node, w: Node, d: nat, i: nat, a: Node, s: Search, ghost done: set<Node>)
    returns (t: Search)
    requires Stripped(h, v, w) && i < d
    requires done <= Layer(h, v, w, i) && a in Layer(h, v, w, i) && a !in done
    requires During(h, v, w, d, i, PairsFrom(h, done), s)
    ensures During(h, v, w, d, i, PairsFrom(h, done + {a}), t)
  {
    LayerNodes(h, v, w, i);
    ghost var before := PairsFrom(h, done);
    ghost var r := before;
    t := s;
    var k := 0;
    while k < |h.adj[a]|
      invariant k <= |h.adj[a]| && r == before + Prefix(h, a, k)
      invariant During(h, v, w, d, i, r, t)
    {
      var b := h.adj[a][k];
      PrefixFresh(h, a, k);
      PrefixStep(h, a, k);
      VisitDuring(h, v, w, d, i, r, t, a, b);
      t := Visit(t, i, a, b);
      r := r + {(a, b)};
      k := k + 1;
    }
    PrefixAll(h, a);
    PairsFromUnion(h, done, {a});
  }

  /** Every node of layer i examines its neighbours, in any order. */
  method ExploreLayer(h: Graph, v: Node, w: Node, d: nat, i: nat, s: Search) returns (t: Search)
    requires Stripped(h, v, w) && i < d
    requires During(h, v, w, d, i, {}, s)
    ensures During(h, v, w, d, i + 1, {}, t)
  {
    var todo := s.layers[i];
    ghost var done: set<Node> := {};
    ghost var r := PairsFrom(h, done);
    assert r == {};
    t := s;
    while todo != {}
      invariant todo + done == Layer(h, v, w, i) && todo !! done
      invariant r == PairsFrom(h, done) && During(h, v, w, d, i, r, t)
      decreases todo
    {
      var a :| a in todo;
      t := ExploreNode(h, v, w, d, i, a, t, done);
      done := done + {a};
      todo := todo - {a};
      r := PairsFrom(h, done);
    }
    assert done == Layer(h, v, w, i);
    LayerDone(h, v, w, d, i, t);
  }

  /**
    The result of a search to depth d: every node's depth and subtree root,
    the nodes of every layer, the edges of every edge layer, and the depth
    of every edge, as the layering of h defines them.
   */
  predicate Searched(h: Graph, v: Node, w: Node, d: nat, s: Search)
  {
    && |s.depth| == |h.adj| && |s.root| == |h.adj| && |s.layers| == d + 1 && |s.edges| == 2 * d
    && (forall x: Node {:trigger s.depth[x]} | x < |h.adj| :: s.depth[x] == Depth(h, v, w, d, x))
    && (forall k {:trigger s.layers[k]} | 0 <= k <= d :: s.layers[k] == Layer(h, v, w, k))
    && (forall x: Node {:trigger s.root[x]} | x < |h.adj| ::
          s.root[x] == if x in Ball(h, v, w, d) then Some(Tag(h, v, w, Depth(h, v, w, d, x), x)) else None)
    && (forall j {:trigger s.edges[j]} | 0 <= j < 2 * d ::
          if j % 2 == 1 then s.edges[j] == HalfLayer(h, v, w, j / 2) else OneWay(h, v, w, j / 2, s.edges[j]))
    && s.edgeDepth == EdgeDepths(h, v, w, d, PairsFrom(h, Before(h, v, w, d)))
  }

  /** After the last layer the invariant is the result. */
  lemma AllDone(h: Graph, v: Node, w: Node, d: nat, s: Search)
    requires Stripped(h, v, w) && During(h, v, w, d, d, {}, s)
    ensures Searched(h, v, w, d, s)
  {
    assert Targets({}) == {};
    forall x: Node | x < |h.adj| && x in Ball(h, v, w, d)
      ensures Depth(h, v, w, d + 1, x) == Depth(h, v, w, d, x)
    {
      DepthStable(h, v, w, d, x);
    }
    var rec := PairsFrom(h, Before(h, v, w, d));
    assert Recorded(h, v, w, d, {}) == rec;
    if d > 0 {
      PairsFromBall(h, v, w, d - 1);
    }
    EdgeDepthsDeeper(h, v, w, d, rec);
  }

  /**
    No edge joins the two roots once (v, w) is taken out, so the edge layer
    of depth 0 stays empty: the search never needs the source's missing
    key 0 of edges_in_layers.
   */
  lemma RootLayerEmpty(h: Graph, v: Node, w: Node, d: nat, s: Search)
    requires Stripped(h, v, w) && Searched(h, v, w, d, s) && d > 0
    ensures s.edges[0] == {}
  {
    assert OneWay(h, v, w, 0, s.edges[0]);
    forall p | p in s.edges[0]
      ensures false
    {
      NeighbourFacts(h, p.0, p.1);
    }
  }

  /** Taking out an edge of a well-formed graph leaves a stripped graph. */
  lemma RemoveStrips(g: Graph, v: Node, w: Node)
    requires WellFormed(g) && Adjacent(g, v, w)
    ensures Stripped(RemoveEdge(g, v, w), v, w)
  {
    RemoveEdgeSpec(g, v, w);
    NeighbourFacts(g, v, w);
    assert !Adjacent(RemoveEdge(g, v, w), v, w);
  }

  /** Layers 0 to d - 1 explore their neighbours in turn. */
  method ExploreLayers(h: Graph, v: Node, w: Node, d: nat) returns (s: Search)
    requires Stripped(h, v, w)
    ensures Searched(h, v, w, d, s)
  {
    StartDuring(h, v, w, d);
    s := Start(h, v, w, d);
    var i := 0;
    while i < d
      invariant i <= d && During(h, v, w, d, i, {}, s)
    {
      s := ExploreLayer(h, v, w, d, i, s);
      i := i + 1;
    }
    AllDone(h, v, w, d, s);
  }

  /**
    The search of neighborhoodConnectivity.bfs: the edge (v, w) is taken
    out, d layers are explored, and the edge is put back (at the end of the
    two adjacency lists).
   */
  method Explore(g: Graph, v: Node, w: Node, d: nat) returns (g': Graph, s: Search)
    requires WellFormed(g) && Adjacent(g, v, w)
    ensures Searched(RemoveEdge(g, v, w), v, w, d, s)
    ensures d > 0 ==> s.edges[0] == {}
    ensures WellFormed(g') && Size(g') == Size(g)
    ensures forall a, b :: Adjacent(g', a, b) <==> Adjacent(g, a, b)
  {
    var h := RemoveEdge(g, v, w);
    RemoveStrips(g, v, w);
    s := ExploreLayers(h, v, w, d);
    if d > 0 {
      RootLayerEmpty(h, v, w, d, s);
    }
    g' := AddEdge(h, v, w);
    RestoreEdge(g, v, w);
  }
}
