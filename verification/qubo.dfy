/**
  The QUBO matrices of the detector and the quadratic objective x^T Q x on
  0/1 vectors.  Every builder starts from the n x n zero matrix, puts -1 on
  the diagonal and then writes at most one entry per edge, in the
  orientation the edge is listed in.
 */
module Qubo {
  import opened Wrappers
  import opened Graphs

  type Matrix = seq<seq<real>>

  /** The assignment Q[i][j] := value. */
  datatype Write = Write(i: Node, j: Node, value: real)

  predicate Square(q: Matrix, n: nat)
  {
    |q| == n && forall i | 0 <= i < n :: |q[i]| == n
  }

  predicate InRange(ws: seq<Write>, n: nat)
  {
    forall k | 0 <= k < |ws| :: ws[k].i < n && ws[k].j < n
  }

  /** No two writes hit the same cell. */
  predicate DistinctCells(ws: seq<Write>)
  {
    forall k, l | 0 <= k < l < |ws| :: ws[k].i != ws[l].i || ws[k].j != ws[l].j
  }

  predicate OffDiagonal(ws: seq<Write>)
  {
    forall k | 0 <= k < |ws| :: ws[k].i != ws[k].j
  }

  /** The value a cell that held c keeps after the writes ws: the last write to it wins. */
  function Final(ws: seq<Write>, i: Node, j: Node, c: real): real
  {
    if ws == [] then c
    else if ws[|ws| - 1].i == i && ws[|ws| - 1].j == j then ws[|ws| - 1].value
    else Final(ws[..|ws| - 1], i, j, c)
  }

  function Zeros(n: nat): (q: Matrix)
    ensures Square(q, n)
    ensures forall i, j | 0 <= i < n && 0 <= j < n :: q[i][j] == 0.0
  {
    seq(n, _ => seq(n, _ => 0.0))
  }

  /** Performs the writes one after the other. */
  function Apply(q: Matrix, n: nat, ws: seq<Write>): (r: Matrix)
    requires Square(q, n) && InRange(ws, n)
    ensures Square(r, n)
    ensures forall i, j | 0 <= i < n && 0 <= j < n :: r[i][j] == Final(ws, i, j, q[i][j])
  {
    if ws == [] then q
    else
      var p := Apply(q, n, ws[..|ws| - 1]);
      var u := ws[|ws| - 1];
      p[u.i := p[u.i][u.j := u.value]]
  }

  function Diagonal(n: nat): (ws: seq<Write>)
    ensures InRange(ws, n)
  {
    seq(n, i requires 0 <= i < n => Write(i, i, -1.0))
  }

  /** The zero matrix with -1 written on the diagonal and then the writes ws. */
  function Build(n: nat, ws: seq<Write>): (q: Matrix)
    requires InRange(ws, n)
    ensures Square(q, n)
    ensures forall i, j | 0 <= i < n && 0 <= j < n :: q[i][j] == Final(ws, i, j, if i == j then -1.0 else 0.0)
  {
    var z := Apply(Zeros(n), n, Diagonal(n));
    forall i, j | 0 <= i < n && 0 <= j < n
      ensures z[i][j] == if i == j then -1.0 else 0.0
    {
      FinalDiagonal(n, n, i, j);
    }
    Apply(z, n, ws)
  }

  // ---------------------------------------------------------------------
  // The objective
  // ---------------------------------------------------------------------

  /** The entries row[j] for j < k with x[j] set, summed. */
  function RowValue(row: seq<real>, x: seq<bool>, k: nat): real
    requires k <= |row| && k <= |x|
  {
    if k == 0 then 0.0 else RowValue(row, x, k - 1) + (if x[k - 1] then row[k - 1] else 0.0)
  }

  /** The part of x^T Q x from the rows i < k. */
  function Value(q: Matrix, x: seq<bool>, k: nat): real
    requires Square(q, |x|) && k <= |x|
  {
    if k == 0 then 0.0 else Value(q, x, k - 1) + (if x[k - 1] then RowValue(q[k - 1], x, |x|) else 0.0)
  }

  /** x^T Q x for a 0/1 vector x (`solution @ Q @ solution`). */
  function Objective(q: Matrix, x: seq<bool>): real
    requires Square(q, |x|)
  {
    Value(q, x, |x|)
  }

  /** The number of ones in x. */
  function Ones(x: seq<bool>): nat
  {
    if x == [] then 0 else Ones(x[..|x| - 1]) + (if x[|x| - 1] then 1 else 0)
  }

  /** The values of the writes whose two cells' indices are both set in x, summed. */
  function Gain(ws: seq<Write>, x: seq<bool>): real
    requires InRange(ws, |x|)
  {
    if ws == [] then 0.0
    else
      var u := ws[|ws| - 1];
      Gain(ws[..|ws| - 1], x) + (if x[u.i] && x[u.j] then u.value else 0.0)
  }

  // ---------------------------------------------------------------------
  // Writes and cells
  // ---------------------------------------------------------------------

  /** A cell no write touches keeps its value. */
  lemma {:induction false} FinalUntouched(ws: seq<Write>, i: Node, j: Node, c: real)
    requires forall k | 0 <= k < |ws| :: ws[k].i != i || ws[k].j != j
    ensures Final(ws, i, j, c) == c
  {
    if ws != [] {
      FinalUntouched(ws[..|ws| - 1], i, j, c);
    }
  }

  /** With distinct cells, a written cell holds the value of its one write. */
  lemma {:induction false} FinalWritten(ws: seq<Write>, k: nat, c: real)
    requires DistinctCells(ws) && k < |ws|
    ensures Final(ws, ws[k].i, ws[k].j, c) == ws[k].value
  {
    if k < |ws| - 1 {
      FinalWritten(ws[..|ws| - 1], k, c);
    }
  }

  lemma {:induction false} FinalDiagonal(n: nat, m: nat, i: Node, j: Node)
    requires m <= n && i < n && j < n
    ensures Final(Diagonal(m), i, j, 0.0) == if i == j && i < m then -1.0 else 0.0
  {
    if m > 0 {
      assert Diagonal(m)[..m - 1] == Diagonal(m - 1);
      FinalDiagonal(n, m - 1, i, j);
    }
  }

  /** The value of a matrix with one cell changed. */
  lemma {:induction false} RowUpdate(row: seq<real>, x: seq<bool>, k: nat, j: nat, c: real)
    requires k <= |row| && k <= |x| && j < |row|
    ensures RowValue(row[j := c], x, k) == RowValue(row, x, k) + (if j < k && x[j] then c - row[j] else 0.0)
  {
    if k > 0 {
      RowUpdate(row, x, k - 1, j, c);
    }
  }

  lemma {:induction false} ValueUpdate(q: Matrix, x: seq<bool>, k: nat, i: nat, j: nat, c: real)
    requires Square(q, |x|) && k <= |x| && i < |x| && j < |x|
    ensures Square(q[i := q[i][j := c]], |x|)
    ensures Value(q[i := q[i][j := c]], x, k) ==
      Value(q, x, k) + (if i < k && x[i] && x[j] then c - q[i][j] else 0.0)
  {
    var r := q[i := q[i][j := c]];
    if k > 0 {
      ValueUpdate(q, x, k - 1, i, j, c);
      if k - 1 == i {
        RowUpdate(q[i], x, |x|, j, c);
      }
    }
  }

  lemma {:induction false} ValueZeros(x: seq<bool>, k: nat)
    requires k <= |x|
    ensures Value(Zeros(|x|), x, k) == 0.0
  {
    if k > 0 {
      ValueZeros(x, k - 1);
      RowZeros(Zeros(|x|)[k - 1], x, |x|);
    }
  }

  lemma {:induction false} RowZeros(row: seq<real>, x: seq<bool>, k: nat)
    requires k <= |row| && k <= |x| && forall j | 0 <= j < |row| :: row[j] == 0.0
    ensures RowValue(row, x, k) == 0.0
  {
    if k > 0 {
      RowZeros(row, x, k - 1);
    }
  }

  /** Writing distinct cells that held 0 adds the gain of the writes to the objective. */
  lemma {:induction false} ApplyObjective(q: Matrix, x: seq<bool>, ws: seq<Write>)
    requires Square(q, |x|) && InRange(ws, |x|) && DistinctCells(ws)
    requires forall k | 0 <= k < |ws| :: q[ws[k].i][ws[k].j] == 0.0
    ensures Objective(Apply(q, |x|, ws), x) == Objective(q, x) + Gain(ws, x)
  {
    if ws != [] {
      var init := ws[..|ws| - 1];
      var u := ws[|ws| - 1];
      ApplyObjective(q, x, init);
      var p := Apply(q, |x|, init);
      FinalUntouched(init, u.i, u.j, q[u.i][u.j]);
      ValueUpdate(p, x, |x|, u.i, u.j, u.value);
    }
  }

  lemma {:induction false} DiagonalGain(x: seq<bool>, m: nat)
    requires m <= |x|
    ensures Gain(Diagonal(m), x) == -(Ones(x[..m]) as real)
  {
    if m > 0 {
      assert Diagonal(m)[..m - 1] == Diagonal(m - 1);
      assert x[..m][..m - 1] == x[..m - 1];
      DiagonalGain(x, m - 1);
    }
  }

  /**
    x^T Q x of a built matrix is minus the number of ones of x plus the
    entries written for index pairs that are both set in x.
   */
  lemma ObjectiveOfBuild(x: seq<bool>, ws: seq<Write>)
    requires InRange(ws, |x|) && DistinctCells(ws) && OffDiagonal(ws)
    ensures Objective(Build(|x|, ws), x) == Gain(ws, x) - Ones(x) as real
  {
    var n := |x|;
    var z := Apply(Zeros(n), n, Diagonal(n));
    ApplyObjective(Zeros(n), x, Diagonal(n));
    ValueZeros(x, n);
    DiagonalGain(x, n);
    assert x[..n] == x;
    forall k | 0 <= k < |ws|
      ensures z[ws[k].i][ws[k].j] == 0.0
    {
      FinalDiagonal(n, n, ws[k].i, ws[k].j);
    }
    ApplyObjective(z, x, ws);
  }

  // ---------------------------------------------------------------------
  // The three builders
  // ---------------------------------------------------------------------

  /** One entry (v, w) -> nc of the dictionary of edge estimates. */
  datatype Estimate = Estimate(edge: (Node, Node), nc: real)

  function Keys(est: seq<Estimate>): set<(Node, Node)>
  {
    set k | 0 <= k < |est| :: est[k].edge
  }

  /** A dictionary holds each key once. */
  predicate DistinctKeys(est: seq<Estimate>)
  {
    forall k, l | 0 <= k < l < |est| :: est[k].edge != est[l].edge
  }

  function NcWrites(est: seq<Estimate>): seq<Write>
  {
    seq(|est|, k requires 0 <= k < |est| => Write(est[k].edge.0, est[k].edge.1, 2.0 * (1.0 - est[k].nc)))
  }

  /**
    The QUBO of the estimates: -1 on the diagonal and 2 (1 - nc) at the
    cell (v, w) of every estimated edge, 0 elsewhere.
   */
  function QuboNc(n: nat, est: seq<Estimate>): (q: Matrix)
    requires forall k | 0 <= k < |est| :: est[k].edge.0 < n && est[k].edge.1 < n
    requires DistinctKeys(est)
    ensures Square(q, n)
    ensures forall k | 0 <= k < |est| :: q[est[k].edge.0][est[k].edge.1] == 2.0 * (1.0 - est[k].nc)
    ensures forall i, j | 0 <= i < n && 0 <= j < n && (i, j) !in Keys(est) ::
      q[i][j] == if i == j then -1.0 else 0.0
  {
    var ws := NcWrites(est);
    var q := Build(n, ws);
    forall k | 0 <= k < |est|
      ensures q[est[k].edge.0][est[k].edge.1] == 2.0 * (1.0 - est[k].nc)
    {
      FinalWritten(ws, k, if est[k].edge.0 == est[k].edge.1 then -1.0 else 0.0);
    }
    forall i, j | 0 <= i < n && 0 <= j < n && (i, j) !in Keys(est)
      ensures q[i][j] == if i == j then -1.0 else 0.0
    {
      forall k | 0 <= k < |ws|
        ensures ws[k].i != i || ws[k].j != j
      {
        assert est[k].edge in Keys(est);
      }
      FinalUntouched(ws, i, j, if i == j then -1.0 else 0.0);
    }
    q
  }

  /** For edge estimates without loops, x^T Q x adds 2 (1 - nc) for each estimated edge with both ends set. */
  lemma QuboNcObjective(x: seq<bool>, est: seq<Estimate>)
    requires forall k | 0 <= k < |est| :: est[k].edge.0 < |x| && est[k].edge.1 < |x| && est[k].edge.0 != est[k].edge.1
    requires DistinctKeys(est)
    ensures Objective(QuboNc(|x|, est), x) == Gain(NcWrites(est), x) - Ones(x) as real
  {
    ObjectiveOfBuild(x, NcWrites(est));
  }

  /** The writes f(p) for the edges p of es that f gives a value, in edge order. */
  function EdgeWrites(es: seq<(Node, Node)>, f: (Node, Node) -> Option<real>): (ws: seq<Write>)
    ensures forall k | 0 <= k < |ws| :: (ws[k].i, ws[k].j) in es && f(ws[k].i, ws[k].j) == Some(ws[k].value)
  {
    if es == [] then []
    else
      var p := es[|es| - 1];
      EdgeWrites(es[..|es| - 1], f) + (match f(p.0, p.1) case Some(c) => [Write(p.0, p.1, c)] case None => [])
  }

  lemma {:induction false} EdgeWritesCells(es: seq<(Node, Node)>, f: (Node, Node) -> Option<real>)
    requires Distinct(es)
    ensures DistinctCells(EdgeWrites(es, f))
    ensures forall p | p in es && f(p.0, p.1).Some? ::
      exists k :: 0 <= k < |EdgeWrites(es, f)| && EdgeWrites(es, f)[k] == Write(p.0, p.1, f(p.0, p.1).value)
  {
    if es != [] {
      var init := es[..|es| - 1];
      var p := es[|es| - 1];
      assert Distinct(init);
      EdgeWritesCells(init, f);
      var a := EdgeWrites(init, f);
      var ws := EdgeWrites(es, f);
      assert ws[..|a|] == a;
      forall k | 0 <= k < |a|
        ensures a[k].i != p.0 || a[k].j != p.1
      {
        var m :| 0 <= m < |init| && init[m] == (a[k].i, a[k].j);
      }
      forall q | q in es && f(q.0, q.1).Some?
        ensures exists k :: 0 <= k < |ws| && ws[k] == Write(q.0, q.1, f(q.0, q.1).value)
      {
        if q in init {
          var k :| 0 <= k < |a| && a[k] == Write(q.0, q.1, f(q.0, q.1).value);
          assert ws[k] == a[k];
        } else {
          assert q == p;
          assert ws[|ws| - 1] == Write(q.0, q.1, f(q.0, q.1).value);
        }
      }
    }
  }

  /**
    The matrix built from the writes of the edges of g: f(i, j) at a listed
    edge (i, j) that f gives a value, -1 on the diagonal, 0 elsewhere.
   */
  lemma EdgeWritesInRange(g: Graph, f: (Node, Node) -> Option<real>)
    requires WellFormed(g)
    ensures InRange(EdgeWrites(EdgeList(g), f), |g.adj|)
  {
    EdgeListSpec(g);
  }

  lemma EdgeBuild(g: Graph, f: (Node, Node) -> Option<real>, i: Node, j: Node)
    requires WellFormed(g) && i < |g.adj| && j < |g.adj|
    ensures InRange(EdgeWrites(EdgeList(g), f), |g.adj|)
    ensures Build(|g.adj|, EdgeWrites(EdgeList(g), f))[i][j] ==
      if i < j && Adjacent(g, i, j) && f(i, j).Some? then f(i, j).value
      else if i == j then -1.0 else 0.0
  {
    var es := EdgeList(g);
    var ws := EdgeWrites(es, f);
    EdgeListSpec(g);
    EdgeWritesCells(es, f);
    var c := if i == j then -1.0 else 0.0;
    if i < j && Adjacent(g, i, j) && f(i, j).Some? {
      assert (i, j) in es;
      var k :| 0 <= k < |ws| && ws[k] == Write(i, j, f(i, j).value);
      FinalWritten(ws, k, c);
    } else {
      FinalUntouched(ws, i, j, c);
    }
  }

  /** The entry of an edge in the annealing QUBO: 2 when its ends lie in different blocks, else none. */
  function AnnealEntry<L(==)>(block: seq<L>): (Node, Node) -> Option<real>
  {
    (i: Node, j: Node) => if i < |block| && j < |block| && block[i] != block[j] then Some(2.0) else None
  }

  /** The entry of an edge in the separator QUBO: 0 inside a community, 20 across. */
  function SeparatorEntry<L(==)>(community: seq<L>): (Node, Node) -> Option<real>
  {
    (i: Node, j: Node) => Some(if i < |community| && j < |community| && community[i] == community[j] then 0.0 else 20.0)
  }

  /** The annealing QUBO: 2 at (i, j) for every edge i < j whose ends lie in different blocks. */
  function AnnealQubo<L(==)>(g: Graph, block: seq<L>): (q: Matrix)
    requires WellFormed(g) && |block| == |g.adj|
    ensures Square(q, |g.adj|)
    ensures forall i, j | 0 <= i < |g.adj| && 0 <= j < |g.adj| ::
      q[i][j] == if i < j && Adjacent(g, i, j) && block[i] != block[j] then 2.0
        else if i == j then -1.0 else 0.0
  {
    var f := AnnealEntry(block);
    EdgeWritesInRange(g, f);
    var q := Build(|g.adj|, EdgeWrites(EdgeList(g), f));
    forall i, j | 0 <= i < |g.adj| && 0 <= j < |g.adj|
      ensures q[i][j] == if i < j && Adjacent(g, i, j) && block[i] != block[j] then 2.0
        else if i == j then -1.0 else 0.0
    {
      EdgeBuild(g, f, i, j);
    }
    q
  }

  /**
    The QUBO of the separator search: for every edge i < j, 0 if both ends
    carry the same community label and 20 otherwise.
   */
  function SeparatorQubo<L(==)>(g: Graph, community: seq<L>): (q: Matrix)
    requires WellFormed(g) && |community| == |g.adj|
    ensures Square(q, |g.adj|)
    ensures forall i, j | 0 <= i < |g.adj| && 0 <= j < |g.adj| ::
      q[i][j] == if i < j && Adjacent(g, i, j) && community[i] != community[j] then 20.0
        else if i == j then -1.0 else 0.0
  {
    var f := SeparatorEntry(community);
    EdgeWritesInRange(g, f);
    var q := Build(|g.adj|, EdgeWrites(EdgeList(g), f));
    forall i, j | 0 <= i < |g.adj| && 0 <= j < |g.adj|
      ensures q[i][j] == if i < j && Adjacent(g, i, j) && community[i] != community[j] then 20.0
        else if i == j then -1.0 else 0.0
    {
      EdgeBuild(g, f, i, j);
    }
    q
  }

  /** The edges of es with both ends set in x whose blocks differ. */
  function Crossing<L(==)>(es: seq<(Node, Node)>, block: seq<L>, x: seq<bool>): nat
  {
    if es == [] then 0
    else
      var p := es[|es| - 1];
      Crossing(es[..|es| - 1], block, x) + (if p.0 < |x| && p.1 < |x| && x[p.0] && x[p.1] && p.0 < |block| && p.1 < |block| && block[p.0] != block[p.1] then 1 else 0)
  }

  lemma {:induction false} CrossingGain<L>(es: seq<(Node, Node)>, block: seq<L>, x: seq<bool>)
    requires forall p | p in es :: p.0 < |x| && p.1 < |x| && p.0 < |block| && p.1 < |block|
    ensures InRange(EdgeWrites(es, AnnealEntry(block)), |x|)
    ensures Gain(EdgeWrites(es, AnnealEntry(block)), x) == 2.0 * Crossing(es, block, x) as real
  {
    if es != [] {
      var init := es[..|es| - 1];
      CrossingGain(init, block, x);
      var a := EdgeWrites(init, AnnealEntry(block));
      var ws := EdgeWrites(es, AnnealEntry(block));
      if |ws| > |a| {
        assert ws[..|ws| - 1] == a;
      } else {
        assert ws == a;
      }
    }
  }

  /**
    The annealing objective of x is twice the number of edges with both ends
    set whose blocks differ, minus the number of ones.
   */
  lemma AnnealObjective<L>(g: Graph, block: seq<L>, x: seq<bool>)
    requires WellFormed(g) && |block| == |g.adj| && |x| == |g.adj|
    ensures Objective(AnnealQubo(g, block), x) == 2.0 * Crossing(EdgeList(g), block, x) as real - Ones(x) as real
  {
    var es := EdgeList(g);
    EdgeListSpec(g);
    EdgeWritesCells(es, AnnealEntry(block));
    CrossingGain(es, block, x);
    ObjectiveOfBuild(x, EdgeWrites(es, AnnealEntry(block)));
  }
}
