/**
  The greedy post-processing of a separator classification: kept nodes
  without a kept neighbour become separators, the connected components of
  the kept nodes seed the communities, and the separators are then moved
  one per round into the community to which they have the most (cumulative)
  connections.
 */
module Greedy {
  import opened Wrappers
  import opened Graphs
  import opened Connectivity

  // ---------------------------------------------------------------------
  // Isolated nodes and separator lists
  // ---------------------------------------------------------------------

  /** The kept nodes of a classification (true = kept, false = separator). */
  function Keep(cls: seq<bool>): (r: set<Node>)
    ensures forall u: Node :: u in r <==> u < |cls| && cls[u]
  {
    set u | 0 <= u < |cls| && cls[u]
  }

  /** u has no kept neighbour. */
  predicate Lonely(h: Graph, cls: seq<bool>, u: Node)
  {
    u < |h.adj| && forall j | j in h.adj[u] :: !(j < |cls| && cls[j])
  }

  /** The classification after the kept nodes without a kept neighbour have been turned into separators. */
  function Declassify(h: Graph, cls: seq<bool>): (r: seq<bool>)
    requires |cls| == |h.adj|
    ensures |r| == |cls|
    ensures forall u | 0 <= u < |r| :: r[u] ==> cls[u]
  {
    seq(|cls|, u requires 0 <= u < |cls| => cls[u] && !Lonely(h, cls, u))
  }

  /** After declassification no kept node is isolated among the kept nodes. */
  lemma NoneLonely(h: Graph, cls: seq<bool>, u: Node)
    requires WellFormed(h) && |cls| == |h.adj| && u < |cls|
    ensures Declassify(h, cls)[u] ==> !Lonely(h, Declassify(h, cls), u)
  {
    var r := Declassify(h, cls);
    if r[u] {
      var j :| j in h.adj[u] && j < |cls| && cls[j];
      NeighbourFacts(h, u, j);
      assert !Lonely(h, cls, j);
      assert r[j];
    }
  }

  /** Declassifying twice changes nothing more: isolated nodes were the only ones cleared. */
  lemma DeclassifyIdempotent(h: Graph, cls: seq<bool>)
    requires WellFormed(h) && |cls| == |h.adj|
    ensures Declassify(h, Declassify(h, cls)) == Declassify(h, cls)
  {
    var r := Declassify(h, cls);
    forall u | 0 <= u < |cls|
      ensures Declassify(h, r)[u] == r[u]
    {
      NoneLonely(h, cls, u);
    }
  }

  /** The separators of a classification, ascending. */
  function SeparatorList(cls: seq<bool>): (r: seq<Node>)
    ensures forall u: Node :: u in r <==> u < |cls| && !cls[u]
    ensures forall i, j | 0 <= i < j < |r| :: r[i] < r[j]
  {
    if cls == [] then []
    else
      var init := SeparatorList(cls[..|cls| - 1]);
      assert forall i | 0 <= i < |init| :: init[i] < |cls| - 1 by {
        forall i | 0 <= i < |init| ensures init[i] < |cls| - 1 {
          assert init[i] in init;
        }
      }
      init + (if cls[|cls| - 1] then [] else [|cls| - 1])
  }

  // ---------------------------------------------------------------------
  // Connection counts
  // ---------------------------------------------------------------------

  /** The number of entries of ns that lie in c. */
  function Hits(ns: seq<Node>, c: set<Node>): nat
  {
    if ns == [] then 0 else Hits(ns[..|ns| - 1], c) + (if ns[|ns| - 1] in c then 1 else 0)
  }

  /** u has a neighbour in c. */
  predicate Attached(h: Graph, c: set<Node>, u: Node)
  {
    u < |h.adj| && exists j :: j in h.adj[u] && j in c
  }

  lemma {:induction false} HitsPositive(ns: seq<Node>, c: set<Node>)
    ensures Hits(ns, c) > 0 <==> exists j :: j in ns && j in c
  {
    if ns != [] {
      var init := ns[..|ns| - 1];
      HitsPositive(init, c);
      assert ns == init + [ns[|ns| - 1]];
    }
  }

  lemma HitsPrefix(ns: seq<Node>, c: set<Node>, a: nat)
    requires a < |ns|
    ensures Hits(ns[..a + 1], c) == Hits(ns[..a], c) + (if ns[a] in c then 1 else 0)
  {
    assert ns[..a + 1][..a] == ns[..a];
  }

  /** n rows of m connection counts. */
  type Table = seq<seq<nat>>

  predicate Shape(t: Table, n: nat, m: nat)
  {
    |t| == n && forall i | 0 <= i < n :: |t[i]| == m
  }

  function ZeroTable(n: nat, m: nat): (t: Table)
    ensures Shape(t, n, m) && forall i, k | 0 <= i < n && 0 <= k < m :: t[i][k] == 0
  {
    seq(n, i => seq(m, k => 0))
  }

  /** The most certain node so far, its community, and its count (-1 before any connection). */
  datatype Choice = Choice(best: int, node: Node, comm: nat)

  /**
    The choice keeps the largest count among the pairs T touched so far, or
    is the initial one while T is empty.
   */
  predicate Tracks(t: Table, c: Choice, T: set<(Node, nat)>, node0: Node, comm0: nat)
  {
    && (forall q | q in T :: q.0 < |t| && q.1 < |t[q.0]|)
    && (T == {} ==> c == Choice(-1, node0, comm0))
    && (T != {} ==>
          && (c.node, c.comm) in T
          && c.best == t[c.node][c.comm]
          && forall q | q in T :: t[q.0][q.1] <= c.best)
  }

  /** One more connection from i to community k. */
  function Bump(t: Table, i: Node, k: nat): (t': Table)
    requires i < |t| && k < |t[i]|
    ensures |t'| == |t| && forall i' | 0 <= i' < |t| :: |t'[i']| == |t[i']|
    ensures forall i', l | 0 <= i' < |t| && 0 <= l < |t[i']| ::
      t'[i'][l] == t[i'][l] + (if i' == i && l == k then 1 else 0)
  {
    t[i := t[i][k := t[i][k] + 1]]
  }

  lemma BumpTracks(t: Table, c: Choice, T: set<(Node, nat)>, node0: Node, comm0: nat, i: Node, k: nat)
    requires Tracks(t, c, T, node0, comm0) && i < |t| && k < |t[i]|
    ensures var t' := Bump(t, i, k);
      Tracks(t', if t'[i][k] > c.best then Choice(t'[i][k], i, k) else c, T + {(i, k)}, node0, comm0)
  {
  }

  /**
    One neighbour j of the separator i: every community holding j gets one
    more connection from i, and the choice moves to any count that now
    exceeds the best one.
   */
  method CountNeighbour(cs: seq<set<Node>>, i: Node, j: Node, t: Table, c: Choice,
                        ghost T: set<(Node, nat)>, ghost node0: Node, ghost comm0: nat)
    returns (t': Table, c': Choice, ghost T': set<(Node, nat)>)
    requires i < |t| && Shape(t, |t|, |cs|) && Tracks(t, c, T, node0, comm0)
    ensures Shape(t', |t|, |cs|) && Tracks(t', c', T', node0, comm0)
    ensures forall i', k {:trigger t'[i'][k]} | 0 <= i' < |t| && 0 <= k < |cs| ::
      t'[i'][k] == t[i'][k] + (if i' == i && j in cs[k] then 1 else 0)
    ensures forall q :: q in T' <==> q in T || (q.0 == i && q.1 < |cs| && j in cs[q.1])
  {
    t', c', T' := t, c, T;
    var k := 0;
    while k < |cs|
      invariant k <= |cs| && Shape(t', |t|, |cs|) && Tracks(t', c', T', node0, comm0)
      invariant forall i', l {:trigger t'[i'][l]} | 0 <= i' < |t| && 0 <= l < |cs| ::
        t'[i'][l] == t[i'][l] + (if i' == i && l < k && j in cs[l] then 1 else 0)
      invariant forall q :: q in T' <==> q in T || (q.0 == i && q.1 < k && j in cs[q.1])
    {
      if j in cs[k] {
        BumpTracks(t', c', T', node0, comm0, i, k);
        t' := Bump(t', i, k);
        if t'[i][k] > c'.best {
          c' := Choice(t'[i][k], i, k);
        }
        T' := T' + {(i, k)};
      }
      k := k + 1;
    }
  }

  /** All neighbours of the separator i, in adjacency order. */
  method CountNode(h: Graph, cs: seq<set<Node>>, i: Node, t: Table, c: Choice,
                   ghost T: set<(Node, nat)>, ghost node0: Node, ghost comm0: nat)
    returns (t': Table, c': Choice, ghost T': set<(Node, nat)>)
    requires i < |t| == |h.adj| && Shape(t, |t|, |cs|) && Tracks(t, c, T, node0, comm0)
    ensures Shape(t', |t|, |cs|) && Tracks(t', c', T', node0, comm0)
    ensures forall i', k {:trigger t'[i'][k]} | 0 <= i' < |t| && 0 <= k < |cs| ::
      t'[i'][k] == t[i'][k] + (if i' == i then Hits(h.adj[i], cs[k]) else 0)
    ensures forall q :: q in T' <==> q in T || (q.0 == i && q.1 < |cs| && Hits(h.adj[i], cs[q.1]) > 0)
  {
    t', c', T' := t, c, T;
    var ns := h.adj[i];
    var a := 0;
    assert ns[..0] == [];
    assert forall k | 0 <= k < |cs| :: Hits(ns[..0], cs[k]) == 0;
    while a < |ns|
      invariant a <= |ns| && Shape(t', |t|, |cs|) && Tracks(t', c', T', node0, comm0)
      invariant forall i', k {:trigger t'[i'][k]} | 0 <= i' < |t| && 0 <= k < |cs| ::
        t'[i'][k] == t[i'][k] + (if i' == i then Hits(ns[..a], cs[k]) else 0)
      invariant forall q :: q in T' <==> q in T || (q.0 == i && q.1 < |cs| && Hits(ns[..a], cs[q.1]) > 0)
    {
      forall k | 0 <= k < |cs|
        ensures Hits(ns[..a + 1], cs[k]) == Hits(ns[..a], cs[k]) + (if ns[a] in cs[k] then 1 else 0)
      {
        HitsPrefix(ns, cs[k], a);
      }
      t', c', T' := CountNeighbour(cs, i, ns[a], t', c', T', node0, comm0);
      a := a + 1;
    }
    assert ns[..a] == ns;
  }

  /**
    One scan over the pending separators, in list order: every connection of
    a pending node into a community is counted once more, and the choice ends
    on a pair with the largest count among the pairs connected in this scan.
    Without any connection the count stays -1 and the previous node and
    community are kept.
   */
  method Scan(h: Graph, cs: seq<set<Node>>, pending: seq<Node>, t: Table, node: Node, comm: nat)
    returns (t': Table, c: Choice)
    requires |t| == |h.adj| && Shape(t, |t|, |cs|)
    requires Distinct(pending) && forall i | i in pending :: i < |h.adj|
    ensures Shape(t', |t|, |cs|)
    ensures forall i, k {:trigger t'[i][k]} | 0 <= i < |t| && 0 <= k < |cs| ::
      t'[i][k] == t[i][k] + (if i in pending then Hits(h.adj[i], cs[k]) else 0)
    ensures c.best == -1 <==> forall i, k | i in pending && 0 <= k < |cs| :: !Attached(h, cs[k], i)
    ensures c.best == -1 ==> c.node == node && c.comm == comm
    ensures c.best != -1 ==>
      && c.node in pending && c.comm < |cs| && Attached(h, cs[c.comm], c.node)
      && c.best == t'[c.node][c.comm] >= 1
      && forall i, k | i in pending && 0 <= k < |cs| && Attached(h, cs[k], i) :: t'[i][k] <= c.best
  {
    t', c := t, Choice(-1, node, comm);
    ghost var T: set<(Node, nat)> := {};
    var a := 0;
    while a < |pending|
      invariant a <= |pending| && Shape(t', |t|, |cs|) && Tracks(t', c, T, node, comm)
      invariant forall i | i in pending[..a] :: i < |h.adj|
      invariant forall i, k {:trigger t'[i][k]} | 0 <= i < |t| && 0 <= k < |cs| ::
        t'[i][k] == t[i][k] + (if i in pending[..a] then Hits(h.adj[i], cs[k]) else 0)
      invariant forall q :: q in T <==> q.0 in pending[..a] && q.1 < |cs| && Hits(h.adj[q.0], cs[q.1]) > 0
    {
      var i := pending[a];
      assert i in pending;
      assert pending[..a + 1] == pending[..a] + [i];
      assert i !in pending[..a] by {
        forall b | 0 <= b < a ensures pending[b] != i { }
      }
      t', c, T := CountNode(h, cs, i, t', c, T, node, comm);
      a := a + 1;
    }
    assert pending[..a] == pending;
    forall i, k | 0 <= i < |h.adj| && 0 <= k < |cs|
      ensures Hits(h.adj[i], cs[k]) > 0 <==> Attached(h, cs[k], i)
    {
      HitsPositive(h.adj[i], cs[k]);
    }
    if T != {} {
      assert t'[c.node][c.comm] >= Hits(h.adj[c.node], cs[c.comm]);
      forall i, k | i in pending && 0 <= k < |cs| && Attached(h, cs[k], i)
        ensures t'[i][k] <= c.best
      {
        assert (i, k) in T;
      }
    } else {
      forall i, k | i in pending && 0 <= k < |cs|
        ensures !Attached(h, cs[k], i)
      {
        assert (i, k) !in T;
      }
    }
  }

  // ---------------------------------------------------------------------
  // Rounds
  // ---------------------------------------------------------------------

  /** Some community holds u. */
  predicate Placed(cs: seq<set<Node>>, u: Node)
  {
    exists k :: 0 <= k < |cs| && u in cs[k]
  }

  /**
    The communities are disjoint sets of nodes 0..n-1, and the pending
    separators are exactly the nodes no community holds.
   */
  predicate Placement(n: nat, cs: seq<set<Node>>, pending: seq<Node>)
  {
    && (forall k | 0 <= k < |cs| :: cs[k] <= Range(n))
    && (forall k, l | 0 <= k < l < |cs| :: cs[k] !! cs[l])
    && (forall u | u in pending :: u < n)
    && (forall u: Node | u < n :: u in pending <==> !Placed(cs, u))
  }

  /** What a scan leaves behind, as far as the rounds rely on it. */
  predicate Chosen(h: Graph, cs: seq<set<Node>>, pending: seq<Node>, c: Choice)
  {
    && (c.best == -1 <==> forall i, k | i in pending && 0 <= k < |cs| :: !Attached(h, cs[k], i))
    && (c.best != -1 ==> c.node in pending && c.comm < |cs| && Attached(h, cs[c.comm], c.node))
  }

  lemma {:induction false} RemoveOne(s: seq<Node>, x: Node)
    requires Distinct(s) && x in s
    ensures |Remove(s, x)| == |s| - 1
  {
    DistinctHead(s);
    if s[0] != x {
      RemoveOne(s[1..], x);
    } else {
      assert Remove(s[1..], x) == s[1..] by {
        RemoveAbsent(s[1..], x);
      }
    }
  }

  lemma {:induction false} RemoveAbsent(s: seq<Node>, x: Node)
    requires x !in s
    ensures Remove(s, x) == s
  {
    if s != [] {
      RemoveAbsent(s[1..], x);
    }
  }

  /** Moving a pending node into a community keeps the placement. */
  lemma PlaceStep(n: nat, cs: seq<set<Node>>, pending: seq<Node>, node: Node, comm: nat)
    requires Placement(n, cs, pending) && Distinct(pending) && node in pending && comm < |cs|
    ensures Placement(n, cs[comm := cs[comm] + {node}], Remove(pending, node))
    ensures Distinct(Remove(pending, node)) && |Remove(pending, node)| == |pending| - 1
  {
    RemoveDistinct(pending, node);
    RemoveOne(pending, node);
    var cs' := cs[comm := cs[comm] + {node}];
    forall u: Node | u < n
      ensures u in Remove(pending, node) <==> !Placed(cs', u)
    {
      if Placed(cs', u) && u != node {
        var k :| 0 <= k < |cs'| && u in cs'[k];
        assert u in cs[k];
      }
      if Placed(cs, u) {
        var k :| 0 <= k < |cs| && u in cs[k];
        assert u in cs'[k];
      }
      assert node in cs'[comm];
    }
  }

  /** The components of the kept nodes and the separator list start a placement. */
  lemma InitialPlacement(h: Graph, cls: seq<bool>)
    requires WellFormed(h) && |cls| == |h.adj|
    ensures Placement(|h.adj|, Components(h, Keep(cls)), SeparatorList(cls))
  {
    var cs := Components(h, Keep(cls));
    forall u: Node | u < |h.adj|
      ensures u in SeparatorList(cls) <==> !Placed(cs, u)
    {
      if u in Keep(cls) {
        var k :| 0 <= k < |cs| && u in cs[k];
      }
    }
  }

  /** No component means no kept node. */
  lemma NoCommunities(h: Graph, keep: set<Node>)
    requires WellFormed(h) && keep <= Nodes(h)
    ensures |Components(h, keep)| == 0 <==> keep == {}
  {
    var cs := Components(h, keep);
    if keep != {} {
      var u :| u in keep;
      var k :| 0 <= k < |cs| && u in cs[k];
    }
    if cs != [] {
      var u :| u in cs[0];
    }
  }

  /**
    In a connected graph, while separators are pending and some community
    is non-empty, some pending separator has a neighbour in some community.
   */
  lemma ScanFinds(h: Graph, cs: seq<set<Node>>, pending: seq<Node>)
    requires WellFormed(h) && Connected(h) && Placement(|h.adj|, cs, pending)
    requires pending != [] && cs != [] && cs[0] != {}
    ensures exists i, k :: i in pending && 0 <= k < |cs| && Attached(h, cs[k], i)
  {
    var n := |h.adj|;
    var u := set x: Node | x < n && x !in pending;
    var a :| a in cs[0];
    assert a < n by {
      assert cs[0] <= Range(n);
    }
    assert Placed(cs, a);
    assert a in u;
    assert pending[0] < n && pending[0] !in u;
    assert u <= Nodes(h);
    ConnectedCut(h, u);
    var x, y :| x in u && x < n && y in h.adj[x] && y !in u;
    NeighbourFacts(h, x, y);
    assert y in pending;
    var k :| 0 <= k < |cs| && x in cs[k];
    assert Attached(h, cs[k], y);
  }

  /** Growing a community keeps every node attached to it. */
  lemma AttachedGrows(h: Graph, c: set<Node>, c': set<Node>, u: Node)
    requires c <= c' && Attached(h, c, u)
    ensures Attached(h, c', u)
  {
  }

  /** Every node a community gained beyond its seed has a neighbour in it. */
  predicate GrownAttached(h: Graph, cs0: seq<set<Node>>, cs: seq<set<Node>>)
  {
    forall k, u | 0 <= k < |cs| && k < |cs0| && u in cs[k] && u !in cs0[k] :: Attached(h, cs[k], u)
  }

  lemma JoinAttached(h: Graph, cs0: seq<set<Node>>, cs: seq<set<Node>>, node: Node, comm: nat)
    requires GrownAttached(h, cs0, cs) && comm < |cs| && Attached(h, cs[comm], node)
    ensures GrownAttached(h, cs0, cs[comm := cs[comm] + {node}])
  {
    var cs' := cs[comm := cs[comm] + {node}];
    forall k, u | 0 <= k < |cs'| && k < |cs0| && u in cs'[k] && u !in cs0[k]
      ensures Attached(h, cs'[k], u)
    {
      if k == comm {
        AttachedGrows(h, cs[k], cs'[k], if u == node then node else u);
      }
    }
  }

  /**
    One round: the chosen separator joins the chosen community (KeyError if
    that community does not exist), leaves the pending list (ValueError if
    it is not there), and the pending separators are scanned again with the
    counts accumulated so far.
   */
  method Round(h: Graph, cs: seq<set<Node>>, pending: seq<Node>, t: Table, c: Choice, ghost cs0: seq<set<Node>>)
    returns (cs': seq<set<Node>>, pending': seq<Node>, t': Table, c': Choice, e: Option<Exception>)
    requires WellFormed(h) && |t| == |h.adj| && Shape(t, |t|, |cs|)
    requires Distinct(pending) && Placement(|h.adj|, cs, pending) && Chosen(h, cs, pending, c)
    requires |cs| > 0 ==> c.comm < |cs|
    ensures e == Some(KeyError) <==> |cs| == 0
    ensures e.Some? ==> e == Some(KeyError) || e == Some(ValueError)
    ensures Connected(h) && |cs| > 0 && cs[0] != {} && pending != [] ==> e.None?
    ensures e.None? ==>
      && |cs'| == |cs| && Shape(t', |t|, |cs|)
      && Distinct(pending') && |pending'| == |pending| - 1
      && Placement(|h.adj|, cs', pending') && Chosen(h, cs', pending', c') && c'.comm < |cs|
      && (forall k | 0 <= k < |cs| :: cs[k] <= cs'[k])
      && (GrownAttached(h, cs0, cs) && Connected(h) && cs[0] != {} ==> GrownAttached(h, cs0, cs'))
  {
    if c.comm >= |cs| {
      return cs, pending, t, c, Some(KeyError);
    }
    var n := |h.adj|;
    var found := Connected(h) && cs[0] != {} && pending != [];
    assert found ==> c.best != -1 by {
      if found {
        ScanFinds(h, cs, pending);
      }
    }
    cs' := cs[c.comm := cs[c.comm] + {c.node}];
    if c.node !in pending {
      return cs', pending, t, c, Some(ValueError);
    }
    pending' := Remove(pending, c.node);
    assert Placement(n, cs', pending') && Distinct(pending') && |pending'| == |pending| - 1 by {
      PlaceStep(n, cs, pending, c.node, c.comm);
    }
    assert GrownAttached(h, cs0, cs) && found ==> GrownAttached(h, cs0, cs') by {
      if GrownAttached(h, cs0, cs) && found {
        JoinAttached(h, cs0, cs, c.node, c.comm);
      }
    }
    t', c' := Scan(h, cs', pending', t, c.node, c.comm);
    e := None;
  }

  /**
    The communities after the greedy assignment: kept nodes without a kept
    neighbour become separators, the components of the remaining kept nodes
    are the initial communities, and one round runs per initial separator.
    Returns the updated classification and the communities, or the error
    of the first failing round.
   */
  method Assign(h: Graph, cls: seq<bool>) returns (cls': seq<bool>, r: Result<seq<set<Node>>, Exception>)
    requires WellFormed(h) && |cls| == |h.adj|
    ensures cls' == Declassify(h, cls)
    ensures r == Failure(KeyError) <==> |h.adj| > 0 && Keep(cls') == {}
    ensures r.Failure? ==> r.error == KeyError || r.error == ValueError
    ensures r.Success? ==>
      var cs0 := Components(h, Keep(cls'));
      && |r.value| == |cs0|
      && (forall k | 0 <= k < |cs0| :: cs0[k] <= r.value[k])
      && Placement(|h.adj|, r.value, [])
    ensures Connected(h) && Keep(cls') != {} ==> r.Success? && GrownAttached(h, Components(h, Keep(cls')), r.value)
  {
    var n := |h.adj|;
    cls' := Declassify(h, cls);
    var keep := Keep(cls');
    var pending := SeparatorList(cls');
    var rounds := |pending|;
    var cs := Components(h, keep);
    ghost var cs0 := cs;
    var m := |cs|;
    assert m == 0 <==> keep == {} by {
      NoCommunities(h, keep);
    }
    assert keep == {} ==> (pending != [] <==> n > 0) by {
      if keep == {} && n > 0 {
        assert 0 in pending;
      }
    }
    assert Placement(n, cs, pending) by {
      InitialPlacement(h, cls');
    }
    assert m > 0 ==> cs0[0] != {};
    var t, c := Scan(h, cs, pending, ZeroTable(n, m), 0, 0);
    r := Rounds(h, cs, pending, t, c, cs0);
  }

  /** One round per pending separator, stopping at the first error. */
  method Rounds(h: Graph, cs: seq<set<Node>>, pending: seq<Node>, t: Table, c: Choice, ghost cs0: seq<set<Node>>)
    returns (r: Result<seq<set<Node>>, Exception>)
    requires WellFormed(h) && |t| == |h.adj| && Shape(t, |t|, |cs|)
    requires Distinct(pending) && Placement(|h.adj|, cs, pending) && Chosen(h, cs, pending, c)
    requires |cs| > 0 ==> c.comm < |cs| && cs[0] != {}
    requires |cs0| == |cs| && forall k | 0 <= k < |cs| :: cs0[k] <= cs[k]
    requires Connected(h) ==> GrownAttached(h, cs0, cs)
    ensures r == Failure(KeyError) <==> |cs| == 0 && pending != []
    ensures r.Failure? ==> r.error == KeyError || r.error == ValueError
    ensures r.Success? ==>
      && |r.value| == |cs|
      && (forall k | 0 <= k < |cs| :: cs0[k] <= r.value[k])
      && Placement(|h.adj|, r.value, [])
    ensures Connected(h) && |cs| > 0 ==> r.Success? && GrownAttached(h, cs0, r.value)
  {
    var n, m, rounds := |h.adj|, |cs|, |pending|;
    var cs, pending, t, c := cs, pending, t, c;
    var a := 0;
    while a < rounds
      invariant a <= rounds && |pending| == rounds - a
      invariant |cs| == m && Shape(t, n, m)
      invariant Distinct(pending) && Placement(n, cs, pending) && Chosen(h, cs, pending, c)
      invariant forall k | 0 <= k < m :: cs0[k] <= cs[k]
      invariant m > 0 ==> c.comm < m && cs[0] != {}
      invariant Connected(h) ==> GrownAttached(h, cs0, cs)
      invariant m == 0 && rounds > 0 ==> a == 0
    {
      var e;
      cs, pending, t, c, e := Round(h, cs, pending, t, c, cs0);
      if e.Some? {
        return Failure(e.value);
      }
      a := a + 1;
    }
    return Success(cs);
  }
}
