/**
  The constraint violations of a separator labelling x (x[i] false marks a
  separator) against a ground-truth partition into blocks, and the
  acceptance test of the separator search.  The residual graph is the
  graph without the separators; its components should refine the blocks
  bijectively: every component inside one block, every block meeting
  exactly one component.
 */
module Validator {
  import opened Graphs
  import opened Connectivity
  import opened Labels

  // ---------------------------------------------------------------------
  // Lists of sizes
  // ---------------------------------------------------------------------

  function Sum(s: seq<nat>): nat
  {
    if s == [] then 0 else Sum(s[..|s| - 1]) + s[|s| - 1]
  }

  /** The largest entry, 0 for the empty list. */
  function Max(s: seq<nat>): (m: nat)
    ensures m <= Sum(s)
    ensures forall i | 0 <= i < |s| :: s[i] <= m
  {
    if s == [] then 0
    else
      var m := Max(s[..|s| - 1]);
      if s[|s| - 1] > m then s[|s| - 1] else m
  }

  /**
    The sum of all entries but one largest, counted only when there are at
    least two entries: sorting, dropping the last entry and summing the rest.
   */
  function Spill(s: seq<nat>): nat
  {
    if |s| > 1 then Sum(s) - Max(s) else 0
  }

  /** The entries vals[i] whose key keys[i] is positive, in order. */
  function Pick(keys: seq<nat>, vals: seq<nat>): seq<nat>
    requires |keys| == |vals|
  {
    if keys == [] then []
    else Pick(keys[..|keys| - 1], vals[..|vals| - 1]) + (if keys[|keys| - 1] > 0 then [vals[|vals| - 1]] else [])
  }

  // ---------------------------------------------------------------------
  // The violations
  // ---------------------------------------------------------------------

  /** The nodes kept by x: those not marked as separators. */
  function Residual(x: seq<bool>): set<Node>
  {
    set i | 0 <= i < |x| && x[i]
  }

  /** The nodes x marks as separators. */
  function Separators(x: seq<bool>): set<Node>
  {
    set i | 0 <= i < |x| && !x[i]
  }

  /** The blocks of the labelling ls: the node sets sharing one label, in order of first appearance. */
  function Blocks<L(==)>(ls: seq<L>): (bs: seq<set<Node>>)
    ensures |bs| == |Number(ls).0|
  {
    var fs := Number(ls).0;
    seq(|fs|, k requires 0 <= k < |fs| => set i | 0 <= i < |ls| && ls[i] == fs[k])
  }

  /** The sizes |c * b| > 0 over the blocks b. */
  function Overlaps(c: set<Node>, bs: seq<set<Node>>): seq<nat>
  {
    Pick(Intersections(c, bs), Intersections(c, bs))
  }

  /** The sizes |c * bs[k]|, one per block. */
  function Intersections(c: set<Node>, bs: seq<set<Node>>): (r: seq<nat>)
    ensures |r| == |bs| && forall k | 0 <= k < |bs| :: r[k] == |c * bs[k]|
  {
    seq(|bs|, k requires 0 <= k < |bs| => |c * bs[k]|)
  }

  /** The sizes |c| of the components c that meet b. */
  function Meeting(b: set<Node>, cs: seq<set<Node>>): seq<nat>
  {
    Pick(seq(|cs|, i requires 0 <= i < |cs| => |b * cs[i]|), seq(|cs|, i requires 0 <= i < |cs| => |cs[i]|))
  }

  /** Nodes of components lying outside the block they overlap most, summed over the components. */
  function SepCount(cs: seq<set<Node>>, bs: seq<set<Node>>): nat
  {
    if cs == [] then 0 else SepCount(cs[..|cs| - 1], bs) + Spill(Overlaps(cs[|cs| - 1], bs))
  }

  /** Sizes of the components a block meets besides its largest one, summed over the blocks. */
  function InjCount(bs: seq<set<Node>>, cs: seq<set<Node>>): nat
  {
    if bs == [] then 0
    else
      var s := Meeting(bs[|bs| - 1], cs);
      InjCount(bs[..|bs| - 1], cs) + (if |s| == 0 then 0 else Spill(s))
  }

  /** The number of blocks no component meets. */
  function SurCount(bs: seq<set<Node>>, cs: seq<set<Node>>): nat
  {
    if bs == [] then 0
    else SurCount(bs[..|bs| - 1], cs) + (if |Meeting(bs[|bs| - 1], cs)| == 0 then 1 else 0)
  }

  datatype Violations = Violations(sep: nat, inj: nat, sur: nat)

  /** The separation-set, injectivity and surjectivity violations of x. */
  function FindViolations<L(==)>(g: Graph, block: seq<L>, x: seq<bool>): Violations
    requires WellFormed(g) && |x| == |g.adj| && |block| == |g.adj|
  {
    ResidualNodes(g, x);
    var cs := Components(g, Residual(x));
    var bs := Blocks(block);
    Violations(SepCount(cs, bs), InjCount(bs, cs), SurCount(bs, cs))
  }

  lemma ResidualNodes(g: Graph, x: seq<bool>)
    requires |x| == |g.adj|
    ensures Residual(x) <= Nodes(g)
  {
  }

  // ---------------------------------------------------------------------
  // The acceptance test of the separator search
  // ---------------------------------------------------------------------

  /** Some block contains c (the search over the communities that stops at the first). */
  function Inside(c: set<Node>, bs: seq<set<Node>>): bool
  {
    bs != [] && (c <= bs[0] || Inside(c, bs[1..]))
  }

  /** The number of components contained in b. */
  function CountInside(b: set<Node>, cs: seq<set<Node>>): nat
  {
    if cs == [] then 0 else CountInside(b, cs[..|cs| - 1]) + (if cs[|cs| - 1] <= b then 1 else 0)
  }

  function AllInside(cs: seq<set<Node>>, bs: seq<set<Node>>): bool
  {
    cs == [] || (Inside(cs[0], bs) && AllInside(cs[1..], bs))
  }

  function AllOnce(bs: seq<set<Node>>, cs: seq<set<Node>>): bool
  {
    bs == [] || (CountInside(bs[0], cs) == 1 && AllOnce(bs[1..], cs))
  }

  /**
    The separators of x if every residual component lies in some community
    and every community contains exactly one of them, otherwise the empty set.
   */
  function SeparatorSet<L(==)>(g: Graph, community: seq<L>, x: seq<bool>): (r: set<Node>)
    requires WellFormed(g) && |x| == |g.adj| && |community| == |g.adj|
    ensures r == {} || r == Separators(x)
  {
    ResidualNodes(g, x);
    var cs := Components(g, Residual(x));
    var bs := Blocks(community);
    if AllInside(cs, bs) && AllOnce(bs, cs) then Separators(x) else {}
  }

  // ---------------------------------------------------------------------
  // Partitions
  // ---------------------------------------------------------------------

  predicate Meets(a: set<Node>, b: set<Node>)
  {
    a * b != {}
  }

  /**
    bs splits the nodes 0..n-1 into disjoint blocks, owner[u] naming the
    block of u.
   */
  predicate Partition(bs: seq<set<Node>>, owner: seq<nat>)
  {
    && (forall k, l | 0 <= k < l < |bs| :: bs[k] !! bs[l])
    && (forall u | 0 <= u < |owner| :: owner[u] < |bs| && u in bs[owner[u]])
  }

  /**
    The components refine the blocks bijectively: each lies inside some
    block, and each block meets exactly one component.
   */
  predicate Bijective(cs: seq<set<Node>>, bs: seq<set<Node>>)
  {
    EachInside(cs, bs) && EachMetOnce(cs, bs)
  }

  /** Every component lies inside some block. */
  predicate EachInside(cs: seq<set<Node>>, bs: seq<set<Node>>)
  {
    forall i | 0 <= i < |cs| :: exists k :: 0 <= k < |bs| && cs[i] <= bs[k]
  }

  /** b meets exactly one component. */
  predicate MeetsOne(cs: seq<set<Node>>, b: set<Node>)
  {
    && (exists i :: 0 <= i < |cs| && Meets(cs[i], b))
    && (forall i, j | 0 <= i < |cs| && 0 <= j < |cs| && Meets(cs[i], b) && Meets(cs[j], b) :: i == j)
  }

  /** Every block meets exactly one component. */
  predicate EachMetOnce(cs: seq<set<Node>>, bs: seq<set<Node>>)
  {
    forall k | 0 <= k < |bs| :: MeetsOne(cs, bs[k])
  }

  lemma BlocksPartition<L>(ls: seq<L>)
    ensures |ComIndex(ls)| == |ls|
    ensures Partition(Blocks(ls), ComIndex(ls))
  {
    NumberSpec(ls);
  }

  /** The facts about the components of the residual graph that the counting needs. */
  lemma ComponentsPartition(g: Graph, x: seq<bool>)
    requires WellFormed(g) && |x| == |g.adj|
    ensures var cs := Components(g, Residual(x));
      && (forall i | 0 <= i < |cs| :: cs[i] != {} && cs[i] <= Range(|x|))
      && (forall i, j | 0 <= i < j < |cs| :: cs[i] !! cs[j])
  {
  }

  // ---------------------------------------------------------------------
  // Counting lemmas
  // ---------------------------------------------------------------------

  /** Pick is empty iff no key is positive. */
  lemma {:induction false} PickEmpty(keys: seq<nat>, vals: seq<nat>)
    requires |keys| == |vals|
    ensures |Pick(keys, vals)| == 0 <==> forall i | 0 <= i < |keys| :: keys[i] == 0
  {
    if keys != [] {
      var n := |keys| - 1;
      PickEmpty(keys[..n], vals[..n]);
      assert forall i | 0 <= i < n :: keys[..n][i] == keys[i];
    }
  }

  /** Pick has at most one entry iff no two keys are positive. */
  lemma {:induction false} PickSingle(keys: seq<nat>, vals: seq<nat>)
    requires |keys| == |vals|
    ensures |Pick(keys, vals)| <= 1 <==> forall i, j | 0 <= i < j < |keys| :: keys[i] == 0 || keys[j] == 0
  {
    if keys != [] {
      var n := |keys| - 1;
      var ki := keys[..n];
      PickSingle(ki, vals[..n]);
      PickEmpty(ki, vals[..n]);
      assert forall i | 0 <= i < n :: ki[i] == keys[i];
      if keys[n] > 0 && |Pick(ki, vals[..n])| > 0 {
        var i :| 0 <= i < n && ki[i] != 0;
        assert keys[i] != 0 && keys[n] != 0;
      }
    }
  }

  /** Pick keeps only positive values if every positive key comes with a positive value. */
  lemma {:induction false} PickPositive(keys: seq<nat>, vals: seq<nat>)
    requires |keys| == |vals|
    requires forall i | 0 <= i < |keys| && keys[i] > 0 :: vals[i] > 0
    ensures forall e | e in Pick(keys, vals) :: e > 0
  {
    if keys != [] {
      var n := |keys| - 1;
      assert forall i | 0 <= i < n :: keys[..n][i] == keys[i] && vals[..n][i] == vals[i];
      PickPositive(keys[..n], vals[..n]);
    }
  }

  lemma {:induction false} SumAboveMax(s: seq<nat>)
    requires |s| >= 2 && forall e | e in s :: e > 0
    ensures Sum(s) > Max(s)
  {
    var init := s[..|s| - 1];
    assert forall e | e in init :: e in s;
    if |init| >= 2 {
      SumAboveMax(init);
    } else {
      assert s[0] in s && s[1] in s;
      assert init[..0] == [];
      assert Sum(init) == s[0] && Max(init) == s[0];
    }
  }

  /** A list of positive sizes spills nothing iff it has at most one entry. */
  lemma SpillZero(s: seq<nat>)
    requires forall e | e in s :: e > 0
    ensures Spill(s) == 0 <==> |s| <= 1
  {
    if |s| >= 2 {
      SumAboveMax(s);
    }
  }

  lemma {:induction false} SepCountZero(cs: seq<set<Node>>, bs: seq<set<Node>>)
    ensures SepCount(cs, bs) == 0 <==> forall i | 0 <= i < |cs| :: Spill(Overlaps(cs[i], bs)) == 0
  {
    if cs != [] {
      var init := cs[..|cs| - 1];
      SepCountZero(init, bs);
      assert forall i | 0 <= i < |init| :: init[i] == cs[i];
    }
  }

  lemma {:induction false} InjCountZero(bs: seq<set<Node>>, cs: seq<set<Node>>)
    ensures InjCount(bs, cs) == 0 <==>
      forall k | 0 <= k < |bs| :: |Meeting(bs[k], cs)| == 0 || Spill(Meeting(bs[k], cs)) == 0
  {
    if bs != [] {
      var init := bs[..|bs| - 1];
      InjCountZero(init, cs);
      assert forall k | 0 <= k < |init| :: init[k] == bs[k];
    }
  }

  lemma {:induction false} SurCountZero(bs: seq<set<Node>>, cs: seq<set<Node>>)
    ensures SurCount(bs, cs) == 0 <==> forall k | 0 <= k < |bs| :: |Meeting(bs[k], cs)| > 0
  {
    if bs != [] {
      var init := bs[..|bs| - 1];
      SurCountZero(init, cs);
      assert forall k | 0 <= k < |init| :: init[k] == bs[k];
    }
  }

  // ---------------------------------------------------------------------
  // Zero violations
  // ---------------------------------------------------------------------

  /** A set overlaps at most one block iff no two blocks meet it. */
  lemma OverlapCount(c: set<Node>, bs: seq<set<Node>>)
    ensures |Overlaps(c, bs)| <= 1 <==> forall k, l | 0 <= k < l < |bs| :: !Meets(c, bs[k]) || !Meets(c, bs[l])
    ensures forall e | e in Overlaps(c, bs) :: e > 0
  {
    var sizes := Intersections(c, bs);
    PickSingle(sizes, sizes);
    PickPositive(sizes, sizes);
  }

  /** A set inside one of disjoint blocks meets no other. */
  lemma InsideMeetsOne(c: set<Node>, bs: seq<set<Node>>, k: nat, l: nat)
    requires forall a, b | 0 <= a < b < |bs| :: bs[a] !! bs[b]
    requires k < |bs| && l < |bs| && k != l && c <= bs[k]
    ensures !Meets(c, bs[l])
  {
    if k < l {
      assert bs[k] !! bs[l];
    } else {
      assert bs[l] !! bs[k];
    }
  }

  /** A non-empty set of nodes that meets no two blocks lies inside the block of any of its nodes. */
  lemma MeetsOneInside(c: set<Node>, bs: seq<set<Node>>, owner: seq<nat>, u: Node)
    requires Partition(bs, owner) && c <= Range(|owner|) && u in c
    requires forall k, l | 0 <= k < l < |bs| :: !Meets(c, bs[k]) || !Meets(c, bs[l])
    ensures owner[u] < |bs| && c <= bs[owner[u]]
  {
    var k := owner[u];
    assert u in c * bs[k];
    forall v | v in c
      ensures v in bs[k]
    {
      var l := owner[v];
      assert v in c * bs[l];
    }
  }

  /** A non-empty set of nodes overlaps at most one block iff some block contains it. */
  lemma OneBlock(c: set<Node>, bs: seq<set<Node>>, owner: seq<nat>)
    requires Partition(bs, owner) && c != {} && c <= Range(|owner|)
    ensures |Overlaps(c, bs)| <= 1 <==> exists k :: 0 <= k < |bs| && c <= bs[k]
  {
    OverlapCount(c, bs);
    if |Overlaps(c, bs)| <= 1 {
      var u :| u in c;
      MeetsOneInside(c, bs, owner, u);
    } else {
      forall k | 0 <= k < |bs| && c <= bs[k]
        ensures false
      {
        forall l | 0 <= l < |bs| && l != k
          ensures !Meets(c, bs[l])
        {
          InsideMeetsOne(c, bs, k, l);
        }
      }
    }
  }

  /** The components each lie in a block iff the separation-set count is 0. */
  lemma SepZeroIffInside(cs: seq<set<Node>>, bs: seq<set<Node>>, owner: seq<nat>)
    requires Partition(bs, owner)
    requires forall i | 0 <= i < |cs| :: cs[i] != {} && cs[i] <= Range(|owner|)
    ensures SepCount(cs, bs) == 0 <==> EachInside(cs, bs)
  {
    SepCountZero(cs, bs);
    forall i | 0 <= i < |cs|
      ensures Spill(Overlaps(cs[i], bs)) == 0 <==> exists k :: 0 <= k < |bs| && cs[i] <= bs[k]
    {
      OverlapCount(cs[i], bs);
      SpillZero(Overlaps(cs[i], bs));
      OneBlock(cs[i], bs, owner);
    }
  }

  /** The components a block meets: none iff it meets none, at most one iff no two. */
  lemma MeetingCount(b: set<Node>, cs: seq<set<Node>>)
    requires forall i | 0 <= i < |cs| :: cs[i] != {}
    ensures |Meeting(b, cs)| == 0 <==> forall i | 0 <= i < |cs| :: !Meets(cs[i], b)
    ensures |Meeting(b, cs)| <= 1 <==> forall i, j | 0 <= i < j < |cs| :: !Meets(cs[i], b) || !Meets(cs[j], b)
    ensures Spill(Meeting(b, cs)) == 0 <==> |Meeting(b, cs)| <= 1
  {
    var keys := seq(|cs|, i requires 0 <= i < |cs| => |b * cs[i]|);
    var vals := seq(|cs|, i requires 0 <= i < |cs| => |cs[i]|);
    forall i | 0 <= i < |cs|
      ensures keys[i] > 0 <==> Meets(cs[i], b)
    {
      assert b * cs[i] == cs[i] * b;
    }
    PickEmpty(keys, vals);
    PickSingle(keys, vals);
    PickPositive(keys, vals);
    SpillZero(Meeting(b, cs));
  }

  /** The blocks each meet exactly one component iff the injectivity and surjectivity counts are 0. */
  lemma InjSurZeroIffOnce(bs: seq<set<Node>>, cs: seq<set<Node>>)
    requires forall i | 0 <= i < |cs| :: cs[i] != {}
    ensures InjCount(bs, cs) == 0 && SurCount(bs, cs) == 0 <==> EachMetOnce(cs, bs)
  {
    InjCountZero(bs, cs);
    SurCountZero(bs, cs);
    forall k | 0 <= k < |bs|
      ensures (|Meeting(bs[k], cs)| == 0 || Spill(Meeting(bs[k], cs)) == 0) && |Meeting(bs[k], cs)| > 0 <==>
        MeetsOne(cs, bs[k])
    {
      MeetingCount(bs[k], cs);
    }
  }

  /**
    x violates no constraint iff the components of its residual graph refine
    the blocks bijectively.
   */
  lemma ZeroIffBijective<L>(g: Graph, block: seq<L>, x: seq<bool>)
    requires WellFormed(g) && |x| == |g.adj| && |block| == |g.adj|
    ensures FindViolations(g, block, x) == Violations(0, 0, 0) <==>
      Bijective(Components(g, Residual(x)), Blocks(block))
  {
    ResidualNodes(g, x);
    var cs := Components(g, Residual(x));
    var bs := Blocks(block);
    BlocksPartition(block);
    SepZeroIffInside(cs, bs, ComIndex(block));
    InjSurZeroIffOnce(bs, cs);
  }

  lemma FirstIn(cs: seq<set<Node>>)
    requires cs != []
    ensures cs[0] in cs
  {
  }

  lemma {:induction false} NoComponents(bs: seq<set<Node>>)
    ensures InjCount(bs, []) == 0 && SurCount(bs, []) == |bs|
  {
    if bs != [] {
      NoComponents(bs[..|bs| - 1]);
    }
  }

  /** When every node is a separator, only the blocks count, each as one missed community. */
  lemma AllSeparators<L>(g: Graph, block: seq<L>, x: seq<bool>)
    requires WellFormed(g) && |x| == |g.adj| && |block| == |g.adj|
    requires forall i | 0 <= i < |x| :: !x[i]
    ensures FindViolations(g, block, x) == Violations(0, 0, CountComs(block))
  {
    assert Residual(x) == {};
    var cs := Components(g, Residual(x));
    if cs != [] {
      FirstIn(cs);
      assert false;
    }
    NoComponents(Blocks(block));
    CountIsLength(block);
  }

  // ---------------------------------------------------------------------
  // The acceptance test
  // ---------------------------------------------------------------------

  lemma {:induction false} InsideSpec(c: set<Node>, bs: seq<set<Node>>)
    ensures Inside(c, bs) <==> exists k :: 0 <= k < |bs| && c <= bs[k]
  {
    if bs != [] {
      InsideSpec(c, bs[1..]);
      if exists k :: 0 <= k < |bs| && c <= bs[k] {
        var k :| 0 <= k < |bs| && c <= bs[k];
        if k > 0 {
          assert bs[1..][k - 1] == bs[k];
        }
      }
    }
  }

  lemma {:induction false} AllInsideSpec(cs: seq<set<Node>>, bs: seq<set<Node>>)
    ensures AllInside(cs, bs) <==> EachInside(cs, bs)
  {
    if cs != [] {
      AllInsideSpec(cs[1..], bs);
      InsideSpec(cs[0], bs);
      assert forall i | 1 <= i < |cs| :: cs[1..][i - 1] == cs[i];
    }
  }

  lemma {:induction false} CountInsideSpec(b: set<Node>, cs: seq<set<Node>>)
    ensures CountInside(b, cs) == 0 <==> forall i | 0 <= i < |cs| :: !(cs[i] <= b)
    ensures CountInside(b, cs) == 1 <==>
      (exists i :: 0 <= i < |cs| && cs[i] <= b) &&
      (forall i, j | 0 <= i < j < |cs| :: !(cs[i] <= b) || !(cs[j] <= b))
  {
    if cs != [] {
      var n := |cs| - 1;
      var init := cs[..n];
      CountInsideSpec(b, init);
      assert forall i | 0 <= i < n :: init[i] == cs[i];
      if cs[n] <= b && CountInside(b, init) > 0 {
        var i :| 0 <= i < n && init[i] <= b;
        assert cs[i] <= b && cs[n] <= b;
      }
    }
  }

  lemma {:induction false} AllOnceSpec(bs: seq<set<Node>>, cs: seq<set<Node>>)
    ensures AllOnce(bs, cs) <==> forall k | 0 <= k < |bs| :: CountInside(bs[k], cs) == 1
  {
    if bs != [] {
      AllOnceSpec(bs[1..], cs);
      assert forall k | 1 <= k < |bs| :: bs[1..][k - 1] == bs[k];
    }
  }

  /** Once every component lies in a block, a component meets a block iff the block contains it. */
  lemma MeetsIsInside(cs: seq<set<Node>>, bs: seq<set<Node>>, owner: seq<nat>, i: nat, k: nat)
    requires Partition(bs, owner) && EachInside(cs, bs)
    requires i < |cs| && k < |bs| && cs[i] != {}
    ensures Meets(cs[i], bs[k]) <==> cs[i] <= bs[k]
  {
    var l :| 0 <= l < |bs| && cs[i] <= bs[l];
    if l != k {
      if l < k {
        assert bs[l] !! bs[k];
      } else {
        assert bs[k] !! bs[l];
      }
      assert cs[i] * bs[k] == {};
    }
  }

  /** Once every component lies in a block, a block contains exactly one component iff it meets exactly one. */
  lemma CountIffMeetsOne(cs: seq<set<Node>>, bs: seq<set<Node>>, owner: seq<nat>, k: nat)
    requires Partition(bs, owner) && EachInside(cs, bs) && k < |bs|
    requires forall i | 0 <= i < |cs| :: cs[i] != {}
    ensures CountInside(bs[k], cs) == 1 <==> MeetsOne(cs, bs[k])
  {
    CountInsideSpec(bs[k], cs);
    forall i | 0 <= i < |cs|
      ensures Meets(cs[i], bs[k]) <==> cs[i] <= bs[k]
    {
      MeetsIsInside(cs, bs, owner, i, k);
    }
  }

  /** The acceptance test passes iff the components refine the blocks bijectively. */
  lemma AcceptsIffBijective(cs: seq<set<Node>>, bs: seq<set<Node>>, owner: seq<nat>)
    requires Partition(bs, owner)
    requires forall i | 0 <= i < |cs| :: cs[i] != {}
    ensures AllInside(cs, bs) && AllOnce(bs, cs) <==> Bijective(cs, bs)
  {
    AllInsideSpec(cs, bs);
    AllOnceSpec(bs, cs);
    if EachInside(cs, bs) {
      forall k | 0 <= k < |bs|
        ensures CountInside(bs[k], cs) == 1 <==> MeetsOne(cs, bs[k])
      {
        CountIffMeetsOne(cs, bs, owner, k);
      }
    }
  }

  /**
    The separator search returns the separators of x exactly when x
    violates no constraint, and the empty set otherwise.
   */
  lemma SeparatorSetSpec<L>(g: Graph, community: seq<L>, x: seq<bool>)
    requires WellFormed(g) && |x| == |g.adj| && |community| == |g.adj|
    ensures SeparatorSet(g, community, x) ==
      if FindViolations(g, community, x) == Violations(0, 0, 0) then Separators(x) else {}
  {
    ResidualNodes(g, x);
    var cs := Components(g, Residual(x));
    var bs := Blocks(community);
    var accepts := AllInside(cs, bs) && AllOnce(bs, cs);
    var zero := FindViolations(g, community, x) == Violations(0, 0, 0);
    assert accepts == zero by {
      NonEmptyComponents(g, Residual(x));
      BlocksPartition(community);
      AcceptsIffBijective(cs, bs, ComIndex(community));
      ZeroIffBijective(g, community, x);
    }
  }

  lemma NonEmptyComponents(g: Graph, keep: set<Node>)
    requires WellFormed(g) && keep <= Nodes(g)
    ensures forall i | 0 <= i < |Components(g, keep)| :: Components(g, keep)[i] != {}
  {
  }
}
