/**
  Label helpers: numbering the ground-truth community labels by first
  appearance, counting the distinct labels, and mapping every node to the
  index of a community that holds it.  Labels are compared only for
  equality, so their type is a parameter.
 */
module Labels {
  import opened Wrappers
  import opened Graphs

  /** The first position of l in s (Python's `list.index`). */
  function IndexOf<L(==)>(s: seq<L>, l: L): (k: nat)
    requires l in s
    ensures k < |s| && s[k] == l && l !in s[..k]
  {
    if s[0] == l then 0
    else
      assert l in s[1..];
      var k := IndexOf(s[1..], l);
      assert s[..k + 1] == [s[0]] + s[1..][..k];
      k + 1
  }

  /**
    The list of labels seen so far and the index given to each node, after
    the first |ls| nodes: a label not seen before is appended, and a node
    gets the position of its label in the list.
   */
  function Number<L(==)>(ls: seq<L>): (r: (seq<L>, seq<nat>))
    ensures |r.1| == |ls|
  {
    if ls == [] then ([], [])
    else
      var r := Number(ls[..|ls| - 1]);
      var l := ls[|ls| - 1];
      var fs := if l in r.0 then r.0 else r.0 + [l];
      (fs, r.1 + [IndexOf(fs, l)])
  }

  /** The community index of every node (`assign_com_index_ground_truth`). */
  function ComIndex<L(==)>(ls: seq<L>): (r: seq<nat>)
    ensures |r| == |ls|
  {
    Number(ls).1
  }

  /** The number of distinct labels (`count_lfr_coms`). */
  function CountComs<L(==)>(ls: seq<L>): (r: nat)
    ensures r == 0 <==> ls == []
  {
    var seen := set l | l in ls;
    assert ls != [] ==> ls[0] in seen;
    |seen|
  }

  /**
    The list of seen labels holds every label of ls exactly once, and each
    node's index points at its own label in that list.
   */
  lemma {:induction false} NumberSpec<L>(ls: seq<L>)
    ensures Distinct(Number(ls).0)
    ensures forall l :: l in Number(ls).0 <==> l in ls
    ensures forall i | 0 <= i < |ls| :: Number(ls).1[i] < |Number(ls).0| && Number(ls).0[Number(ls).1[i]] == ls[i]
  {
    if ls != [] {
      var init := ls[..|ls| - 1];
      NumberSpec(init);
      var r := Number(init);
      var l := ls[|ls| - 1];
      var fs := Number(ls).0;
      assert fs[..|r.0|] == r.0;
      forall l' ensures l' in fs <==> l' in ls
      {
        assert l' in ls <==> l' in init || l' == l by {
          assert ls == init + [l];
        }
      }
      forall i | 0 <= i < |ls|
        ensures Number(ls).1[i] < |fs| && fs[Number(ls).1[i]] == ls[i]
      {
        if i < |init| {
          assert Number(ls).1[i] == r.1[i];
          assert ls[i] == init[i];
        }
      }
    }
  }

  /** Two nodes share an index exactly when they carry the same label. */
  lemma SameIndex<L>(ls: seq<L>, i: nat, j: nat)
    requires i < |ls| && j < |ls|
    ensures ComIndex(ls)[i] == ComIndex(ls)[j] <==> ls[i] == ls[j]
  {
    NumberSpec(ls);
    var fs := Number(ls).0;
  }

  /** The number of distinct labels is the length of the list of seen labels. */
  lemma CountIsLength<L>(ls: seq<L>)
    ensures CountComs(ls) == |Number(ls).0|
  {
    NumberSpec(ls);
    SameElements(ls, Number(ls).0);
    DistinctCard(Number(ls).0);
  }

  /** Every index lies below the number of distinct labels. */
  lemma IndexBelow<L>(ls: seq<L>, i: nat)
    requires i < |ls|
    ensures ComIndex(ls)[i] < CountComs(ls)
  {
    NumberSpec(ls);
    CountIsLength(ls);
  }

  /** Every number below the number of distinct labels is some node's index. */
  lemma IndexUsed<L>(ls: seq<L>, c: nat)
    requires c < CountComs(ls)
    ensures exists i :: 0 <= i < |ls| && ComIndex(ls)[i] == c
  {
    var fs := Number(ls).0;
    assert c < |fs| by {
      CountIsLength(ls);
    }
    NumberHas(ls, fs[c]);
    var i :| 0 <= i < |ls| && ls[i] == fs[c];
    assert ComIndex(ls)[i] == c by {
      NumberSpec(ls);
      assert fs[ComIndex(ls)[i]] == fs[c];
    }
  }

  lemma NumberHas<L>(ls: seq<L>, l: L)
    requires l in Number(ls).0
    ensures l in ls
  {
    NumberSpec(ls);
  }

  lemma SameElements<L>(a: seq<L>, b: seq<L>)
    requires forall l :: l in a <==> l in b
    ensures (set l | l in a) == (set l | l in b)
  {
    var sa := set l | l in a;
    var sb := set l | l in b;
    forall l | l in sa ensures l in sb {}
  }

  /** Numbering the first m nodes gives the first m indices of numbering them all. */
  lemma {:induction false} NumberPrefix<L>(ls: seq<L>, m: nat)
    requires m <= |ls|
    ensures Number(ls[..m]).1 == Number(ls).1[..m]
    decreases |ls|
  {
    if m < |ls| {
      var init := ls[..|ls| - 1];
      assert init[..m] == ls[..m];
      NumberPrefix(init, m);
    } else {
      assert ls[..m] == ls;
    }
  }

  /**
    Labels are numbered by first appearance: a node whose label has not
    appeared before it gets the number of distinct labels before it.
   */
  lemma FirstAppearance<L>(ls: seq<L>, i: nat)
    requires i < |ls| && ls[i] !in ls[..i]
    ensures ComIndex(ls)[i] == CountComs(ls[..i])
  {
    var pre := ls[..i + 1];
    NumberPrefix(ls, i + 1);
    assert pre[..i] == ls[..i];
    assert pre[i] == ls[i];
    var r := Number(ls[..i]);
    NumberSpec(ls[..i]);
    assert ls[i] !in r.0;
    assert ComIndex(ls)[i] == Number(pre).1[i];
    assert Number(pre).1[i] == IndexOf(r.0 + [ls[i]], ls[i]);
    assert (r.0 + [ls[i]])[|r.0|] == ls[i];
    SameElements(ls[..i], r.0);
    DistinctCard(r.0);
  }

  // ---------------------------------------------------------------------
  // Nodes to communities
  // ---------------------------------------------------------------------

  /**
    Scans the communities cs[k..] for x, keeping the index of the latest one
    that holds it; cur is the result of the scan so far.
   */
  function Holding(cs: seq<set<Node>>, x: Node, k: nat, cur: Option<nat>): Option<nat>
    requires k <= |cs|
    decreases |cs| - k
  {
    if k == |cs| then cur else Holding(cs, x, k + 1, if x in cs[k] then Some(k) else cur)
  }

  /** The community index of every node 0..n-1, or None (`assign_nodes_to_coms`). */
  function AssignNodes(n: nat, cs: seq<set<Node>>): (r: seq<Option<nat>>)
    ensures |r| == n
  {
    seq(n, x requires 0 <= x < n => Holding(cs, x, 0, None))
  }

  lemma {:induction false} HoldingSpec(cs: seq<set<Node>>, x: Node, k: nat, cur: Option<nat>)
    requires k <= |cs|
    requires cur.Some? ==> cur.value < k && x in cs[cur.value]
    ensures var r := Holding(cs, x, k, cur);
      && (r.None? <==> cur.None? && forall j | k <= j < |cs| :: x !in cs[j])
      && (r.Some? ==> r.value < |cs| && x in cs[r.value] && forall j | r.value < j < |cs| && j >= k :: x !in cs[j])
      && (r.Some? && r != cur ==> r.value >= k)
    decreases |cs| - k
  {
    if k < |cs| {
      HoldingSpec(cs, x, k + 1, if x in cs[k] then Some(k) else cur);
    }
  }

  /**
    A node is assigned None iff no community holds it, and otherwise the
    index of the last community that holds it.
   */
  lemma AssignSpec(n: nat, cs: seq<set<Node>>, x: Node)
    requires x < n
    ensures AssignNodes(n, cs)[x].None? <==> forall j | 0 <= j < |cs| :: x !in cs[j]
    ensures AssignNodes(n, cs)[x].Some? ==>
      var j := AssignNodes(n, cs)[x].value;
      j < |cs| && x in cs[j] && forall j' | j < j' < |cs| :: x !in cs[j']
  {
    HoldingSpec(cs, x, 0, None);
  }

  /** For pairwise disjoint communities, a node is assigned exactly the community holding it. */
  lemma AssignDisjoint(n: nat, cs: seq<set<Node>>, x: Node, j: nat)
    requires x < n && j < |cs|
    requires forall a, b | 0 <= a < b < |cs| :: cs[a] !! cs[b]
    ensures AssignNodes(n, cs)[x] == Some(j) <==> x in cs[j]
  {
    AssignSpec(n, cs, x);
  }
}
