/**
  Connected components of induced subgraphs, defined as closures under
  adjacency, and their enumeration in the graph library's order (a new
  component starts at every node, taken ascending, that no earlier component
  contains).
 */
module Connectivity {
  import opened Graphs

  /** s together with every node of keep that is adjacent to a node of s. */
  function Expand(g: Graph, keep: set<Node>, s: set<Node>): set<Node>
  {
    s + (set x, y | x in s && x < |g.adj| && y in g.adj[x] && y in keep :: y)
  }

  /** The nodes reachable from s in at most k steps through nodes of keep. */
  function Grow(g: Graph, keep: set<Node>, s: set<Node>, k: nat): set<Node>
  {
    if k == 0 then s else Expand(g, keep, Grow(g, keep, s, k - 1))
  }

  /** No edge leaves s towards a node of keep outside s. */
  predicate Closed(g: Graph, keep: set<Node>, s: set<Node>)
  {
    Expand(g, keep, s) == s
  }

  /** The connected component of a in the subgraph induced by keep. */
  function Component(g: Graph, keep: set<Node>, a: Node): set<Node>
  {
    Grow(g, keep, {a}, |g.adj|)
  }

  lemma ExpandMonotone(g: Graph, keep: set<Node>, s: set<Node>, t: set<Node>)
    requires s <= t
    ensures Expand(g, keep, s) <= Expand(g, keep, t)
  {
  }

  /** A closed set keeps every keep-neighbour of its members. */
  lemma ClosedStep(g: Graph, keep: set<Node>, s: set<Node>, x: Node, y: Node)
    requires Closed(g, keep, s) && x in s && x < |g.adj| && y in g.adj[x] && y in keep
    ensures y in s
  {
    assert y in Expand(g, keep, s);
  }

  lemma ClosedIntro(g: Graph, keep: set<Node>, s: set<Node>)
    requires forall x, y | x in s && x < |g.adj| && y in g.adj[x] && y in keep :: y in s
    ensures Closed(g, keep, s)
  {
  }

  lemma {:induction false} GrowBounds(g: Graph, keep: set<Node>, s: set<Node>, k: nat)
    ensures s <= Grow(g, keep, s, k) <= s + keep
  {
    if k > 0 {
      GrowBounds(g, keep, s, k - 1);
    }
  }

  /** Reachability stays inside every closed set that contains the start. */
  lemma {:induction false} GrowMinimal(g: Graph, keep: set<Node>, s: set<Node>, k: nat, c: set<Node>)
    requires Closed(g, keep, c)
    ensures s <= c ==> Grow(g, keep, s, k) <= c
  {
    if k > 0 && s <= c {
      GrowMinimal(g, keep, s, k - 1, c);
      ExpandMonotone(g, keep, Grow(g, keep, s, k - 1), c);
    }
  }

  /** Each step either adds a node or has reached a closed set. */
  lemma {:induction false} GrowProgress(g: Graph, keep: set<Node>, s: set<Node>, k: nat)
    ensures Closed(g, keep, Grow(g, keep, s, k)) || |Grow(g, keep, s, k)| >= |s| + k
  {
    if k > 0 {
      GrowProgress(g, keep, s, k - 1);
      var t := Grow(g, keep, s, k - 1);
      if Closed(g, keep, t) {
        assert Grow(g, keep, s, k) == t;
      } else {
        ProperSubsetCard(t, Expand(g, keep, t));
      }
    }
  }

  /** The component of a node of keep contains it and lies in keep. */
  lemma ComponentFacts(g: Graph, keep: set<Node>, a: Node)
    requires a in keep
    ensures a in Component(g, keep, a)
    ensures Component(g, keep, a) <= keep
  {
    GrowBounds(g, keep, {a}, |g.adj|);
  }

  /** |g.adj| steps suffice: the component is closed. */
  lemma ComponentClosed(g: Graph, keep: set<Node>, a: Node)
    requires keep <= Nodes(g) && a in keep
    ensures Closed(g, keep, Component(g, keep, a))
  {
    GrowBounds(g, keep, {a}, |g.adj|);
    GrowProgress(g, keep, {a}, |g.adj|);
    SubsetCard(Component(g, keep, a), Nodes(g));
  }

  /** Components are the classes of an equivalence: every member has the same component. */
  lemma ComponentOf(g: Graph, keep: set<Node>, a: Node, x: Node)
    requires WellFormed(g) && keep <= Nodes(g) && a in keep
    requires x in Component(g, keep, a)
    ensures x in keep
    ensures Component(g, keep, x) == Component(g, keep, a)
  {
    var n := |g.adj|;
    ComponentFacts(g, keep, a);
    ComponentClosed(g, keep, a);
    ComponentFacts(g, keep, x);
    ComponentClosed(g, keep, x);
    var ca := Component(g, keep, a);
    var cx := Component(g, keep, x);
    GrowMinimal(g, keep, {x}, n, ca);
    var d := keep - cx;
    ComplementClosed(g, keep, cx);
    GrowMinimal(g, keep, {a}, n, d);
    assert a in cx;
    GrowMinimal(g, keep, {a}, n, cx);
  }

  /** In a symmetric graph, what keep holds outside a closed set is closed too. */
  lemma ComplementClosed(g: Graph, keep: set<Node>, c: set<Node>)
    requires WellFormed(g) && Closed(g, keep, c)
    ensures Closed(g, keep, keep - c)
  {
    forall y, z | y in keep - c && y < |g.adj| && z in g.adj[y] && z in keep
      ensures z in keep - c
    {
      NeighbourFacts(g, y, z);
      assert z in c ==> y in Expand(g, keep, c);
    }
    ClosedIntro(g, keep, keep - c);
  }

  /** Two components either coincide or are disjoint. */
  lemma ComponentsMeet(g: Graph, keep: set<Node>, a: Node, b: Node, x: Node)
    requires WellFormed(g) && keep <= Nodes(g) && a in keep && b in keep
    requires x in Component(g, keep, a) && x in Component(g, keep, b)
    ensures Component(g, keep, a) == Component(g, keep, b)
  {
    ComponentOf(g, keep, a, x);
    ComponentOf(g, keep, b, x);
  }

  // ---------------------------------------------------------------------
  // Enumeration
  // ---------------------------------------------------------------------

  /**
    comp sorts the nodes of keep into classes: the class of x lies in keep,
    contains x, and is the class of each of its members.
   */
  predicate Classes(keep: set<Node>, comp: Node -> set<Node>)
  {
    forall x | x in keep :: x in comp(x) && comp(x) <= keep && forall y | y in comp(x) :: comp(y) == comp(x)
  }

  /**
    The classes met while scanning the nodes u, u + 1, ..., n - 1 in order,
    each listed when its first member is reached; seen holds the nodes of
    the classes already listed.
   */
  function ClassesFrom(keep: set<Node>, n: nat, comp: Node -> set<Node>, u: nat, seen: set<Node>): seq<set<Node>>
    decreases n - u
  {
    if u >= n then []
    else if u in keep && u !in seen then [comp(u)] + ClassesFrom(keep, n, comp, u + 1, seen + comp(u))
    else ClassesFrom(keep, n, comp, u + 1, seen)
  }

  /** The class of y has a member below u. */
  predicate Below(comp: Node -> set<Node>, u: nat, y: Node)
  {
    exists x: Node :: x < u && x in comp(y)
  }

  /** seen holds exactly the nodes of keep whose class has a member below u. */
  predicate SeenBelow(keep: set<Node>, comp: Node -> set<Node>, u: nat, seen: set<Node>)
  {
    && seen <= keep
    && forall y {:trigger Below(comp, u, y)} | y in keep :: y in seen <==> Below(comp, u, y)
  }

  /**
    cs lists classes of comp: each is non-empty, lies in keep outside seen,
    is the class of each of its members, no two share a node, and together
    with seen they cover keep.
   */
  predicate ListsClasses(keep: set<Node>, comp: Node -> set<Node>, seen: set<Node>, cs: seq<set<Node>>)
  {
    ClassesInside(keep, seen, cs) && ClassesExact(comp, cs) && ClassesDisjoint(cs) && ClassesCover(keep, seen, cs)
  }

  predicate ClassesInside(keep: set<Node>, seen: set<Node>, cs: seq<set<Node>>)
  {
    forall i | 0 <= i < |cs| :: cs[i] != {} && cs[i] <= keep && cs[i] !! seen
  }

  predicate ClassesExact(comp: Node -> set<Node>, cs: seq<set<Node>>)
  {
    forall i, x | 0 <= i < |cs| && x in cs[i] :: comp(x) == cs[i]
  }

  predicate ClassesDisjoint(cs: seq<set<Node>>)
  {
    forall i, j | 0 <= i < j < |cs| :: cs[i] !! cs[j]
  }

  predicate ClassesCover(keep: set<Node>, seen: set<Node>, cs: seq<set<Node>>)
  {
    forall x | x in keep :: x in seen || exists i :: 0 <= i < |cs| && x in cs[i]
  }

  /** Raising the bound by one admits exactly the classes that contain u. */
  lemma BelowStep(comp: Node -> set<Node>, u: Node, y: Node)
    ensures Below(comp, u + 1, y) <==> Below(comp, u, y) || u in comp(y)
  {
    if x: Node :| x < u + 1 && x in comp(y) {
      assert x < u || x == u;
      if x < u {
        assert Below(comp, u, y);
      }
    }
    if x: Node :| x < u && x in comp(y) {
      assert x < u + 1;
    }
    assert u < u + 1;
  }

  /** Listing the class of an unseen node u keeps the seen-set invariant. */
  lemma EmitStep(keep: set<Node>, comp: Node -> set<Node>, u: Node, seen: set<Node>)
    requires Classes(keep, comp) && SeenBelow(keep, comp, u, seen) && u in keep && u !in seen
    ensures comp(u) !! seen
    ensures SeenBelow(keep, comp, u + 1, seen + comp(u))
  {
    assert !Below(comp, u, u);
    forall y | y in keep
      ensures y in seen + comp(u) <==> Below(comp, u + 1, y)
    {
      BelowStep(comp, u, y);
      assert y in seen <==> Below(comp, u, y);
      if u in comp(y) {
        assert comp(u) == comp(y);
      }
      if y in comp(u) {
        assert comp(y) == comp(u);
      }
    }
    forall z | z in comp(u)
      ensures z !in seen
    {
      assert comp(z) == comp(u);
      assert z in seen <==> Below(comp, u, z);
      assert Below(comp, u, z) ==> Below(comp, u, u);
    }
  }

  /** Skipping a node that is seen or outside keep keeps the seen-set invariant. */
  lemma SkipStep(keep: set<Node>, comp: Node -> set<Node>, u: Node, seen: set<Node>)
    requires Classes(keep, comp) && SeenBelow(keep, comp, u, seen) && !(u in keep && u !in seen)
    ensures SeenBelow(keep, comp, u + 1, seen)
  {
    forall y | y in keep
      ensures y in seen <==> Below(comp, u + 1, y)
    {
      BelowStep(comp, u, y);
      assert y in seen <==> Below(comp, u, y);
      if u in comp(y) {
        assert comp(u) == comp(y);
        assert u in seen <==> Below(comp, u, u);
        assert Below(comp, u, u) ==> Below(comp, u, y);
      }
    }
  }

  /** Prepending the class c of an unseen node to a list of the remaining classes. */
  lemma ListsClassesCons(keep: set<Node>, comp: Node -> set<Node>, seen: set<Node>, c: set<Node>, rest: seq<set<Node>>)
    requires c != {} && c <= keep && c !! seen
    requires forall x | x in c :: comp(x) == c
    requires ListsClasses(keep, comp, seen + c, rest)
    ensures ListsClasses(keep, comp, seen, [c] + rest)
  {
    ConsInside(keep, seen, c, rest);
    ConsExact(comp, c, rest);
    ConsDisjoint(c, rest);
    ConsCover(keep, seen, c, rest);
  }

  lemma ConsInside(keep: set<Node>, seen: set<Node>, c: set<Node>, rest: seq<set<Node>>)
    requires c != {} && c <= keep && c !! seen
    requires ClassesInside(keep, seen + c, rest)
    ensures ClassesInside(keep, seen, [c] + rest)
  {
  }

  lemma ConsExact(comp: Node -> set<Node>, c: set<Node>, rest: seq<set<Node>>)
    requires forall x | x in c :: comp(x) == c
    requires ClassesExact(comp, rest)
    ensures ClassesExact(comp, [c] + rest)
  {
  }

  lemma ConsDisjoint(c: set<Node>, rest: seq<set<Node>>)
    requires forall i | 0 <= i < |rest| :: rest[i] !! c
    requires ClassesDisjoint(rest)
    ensures ClassesDisjoint([c] + rest)
  {
  }

  lemma ConsCover(keep: set<Node>, seen: set<Node>, c: set<Node>, rest: seq<set<Node>>)
    requires ClassesCover(keep, seen + c, rest)
    ensures ClassesCover(keep, seen, [c] + rest)
  {
    var cs := [c] + rest;
    forall x | x in keep && x !in seen
      ensures exists i :: 0 <= i < |cs| && x in cs[i]
    {
      if x in c {
        assert x in cs[0];
      } else {
        var i :| 0 <= i < |rest| && x in rest[i];
        assert x in cs[i + 1];
      }
    }
  }

  lemma {:induction false} ClassesFromSpec(keep: set<Node>, n: nat, comp: Node -> set<Node>, u: nat, seen: set<Node>)
    requires keep <= Range(n) && u <= n
    requires Classes(keep, comp) && SeenBelow(keep, comp, u, seen)
    ensures ListsClasses(keep, comp, seen, ClassesFrom(keep, n, comp, u, seen))
    decreases n - u
  {
    if u == n {
      forall y | y in keep
        ensures y in seen
      {
        assert y < u && y in comp(y);
        assert Below(comp, u, y);
      }
    } else if u in keep && u !in seen {
      EmitStep(keep, comp, u, seen);
      ClassesFromSpec(keep, n, comp, u + 1, seen + comp(u));
      ListsClassesCons(keep, comp, seen, comp(u), ClassesFrom(keep, n, comp, u + 1, seen + comp(u)));
    } else {
      SkipStep(keep, comp, u, seen);
      ClassesFromSpec(keep, n, comp, u + 1, seen);
    }
  }

  /**
    cs lists the connected components of the subgraph induced by keep: each
    is non-empty, is the component of each of its members, no two share a
    node, and together they cover keep.
   */
  predicate IsComponentList(g: Graph, keep: set<Node>, cs: seq<set<Node>>)
  {
    && (forall i | 0 <= i < |cs| :: cs[i] != {} && cs[i] <= keep)
    && (forall i, x | 0 <= i < |cs| && x in cs[i] :: Component(g, keep, x) == cs[i])
    && (forall i, j | 0 <= i < j < |cs| :: cs[i] !! cs[j])
    && (forall x | x in keep :: exists i :: 0 <= i < |cs| && x in cs[i])
  }

  /** Components sort the nodes of keep into classes. */
  lemma ComponentClasses(g: Graph, keep: set<Node>)
    requires WellFormed(g) && keep <= Nodes(g)
    ensures Classes(keep, x => Component(g, keep, x))
  {
    forall x | x in keep
      ensures x in Component(g, keep, x) && Component(g, keep, x) <= keep
      ensures forall y | y in Component(g, keep, x) :: Component(g, keep, y) == Component(g, keep, x)
    {
      ComponentFacts(g, keep, x);
      forall y | y in Component(g, keep, x)
        ensures Component(g, keep, y) == Component(g, keep, x)
      {
        ComponentOf(g, keep, x, y);
      }
    }
  }

  /**
    The components of the subgraph induced by keep, ordered by ascending
    smallest node.  This is the graph library's order when the subgraph's
    nodes iterate in ascending order; a subgraph copy whose nodes iterate
    in another order numbers its components differently.
   */
  function Components(g: Graph, keep: set<Node>): (cs: seq<set<Node>>)
    requires WellFormed(g) && keep <= Nodes(g)
    ensures IsComponentList(g, keep, cs)
  {
    var comp := x => Component(g, keep, x);
    ComponentClasses(g, keep);
    ClassesFromSpec(keep, |g.adj|, comp, 0, {});
    ClassesFrom(keep, |g.adj|, comp, 0, {})
  }

  // ---------------------------------------------------------------------
  // Connectivity
  // ---------------------------------------------------------------------

  /** Every node is reachable from node 0. */
  predicate Connected(g: Graph)
  {
    |g.adj| > 0 ==> Component(g, Nodes(g), 0) == Nodes(g)
  }

  lemma ClosedIsAll(g: Graph, u: set<Node>)
    requires WellFormed(g) && Connected(g) && u != {} && u <= Nodes(g)
    ensures Closed(g, Nodes(g), u) ==> u == Nodes(g)
  {
    if Closed(g, Nodes(g), u) {
      var a :| a in u;
      ComponentFacts(g, Nodes(g), 0);
      ComponentOf(g, Nodes(g), 0, a);
      GrowMinimal(g, Nodes(g), {a}, |g.adj|, u);
    }
  }

  /** In a connected graph some edge leaves every non-empty proper node set. */
  lemma ConnectedCut(g: Graph, u: set<Node>)
    requires WellFormed(g) && Connected(g) && u != {} && u <= Nodes(g) && u != Nodes(g)
    ensures exists x, y :: x in u && x < |g.adj| && y in g.adj[x] && y !in u
  {
    ClosedIsAll(g, u);
  }
}
