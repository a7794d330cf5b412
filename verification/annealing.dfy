/**
  Simulated annealing over separator classifications with background
  knowledge: the objective is the crossing QUBO of the ground-truth blocks,
  a candidate flips one bit of the current point, and candidates are judged
  by their objective and by their separation-set, injectivity and
  surjectivity violations.  The random draws of the source (the flipped
  index and the Metropolis dice) are inputs.  The run is given twice: as
  the source writes it, computing the Metropolis factor on every
  iteration, and corrected, computing it only when the coin is needed.
 */
module Annealing {
  import opened Wrappers
  import opened Graphs
  import opened Qubo
  import opened Validator

  /** x with bit k negated. */
  function Flip(x: seq<bool>, k: nat): (r: seq<bool>)
    requires k < |x|
    ensures |r| == |x| && forall i | 0 <= i < |x| :: r[i] != x[i] <==> i == k
  {
    x[k := !x[k]]
  }

  /** The objective `x^T Q x` of the crossing QUBO. */
  function Eval<L(==)>(g: Graph, block: seq<L>, x: seq<bool>): real
    requires WellFormed(g) && |block| == |g.adj| && |x| == |g.adj|
  {
    Objective(AnnealQubo(g, block), x)
  }

  /** A point together with its objective and violation counts. */
  datatype Point = Point(x: seq<bool>, eval: real, viols: Violations)

  function Assess<L(==)>(g: Graph, block: seq<L>, x: seq<bool>): (p: Point)
    requires WellFormed(g) && |block| == |g.adj| && |x| == |g.adj|
    ensures p.x == x
  {
    Point(x, Eval(g, block, x), FindViolations(g, block, x))
  }

  /** p carries the true objective and violations of its bits. */
  predicate Assessed<L(==)>(g: Graph, block: seq<L>, p: Point)
    requires WellFormed(g) && |block| == |g.adj|
  {
    |p.x| == |g.adj| && p == Assess(g, block, p.x)
  }

  function Total(v: Violations): nat
  {
    v.sep + v.inj + v.sur
  }

  /** p is at least as good as q in the objective and in each violation count. */
  predicate NoWorse(p: Point, q: Point)
  {
    p.eval <= q.eval && p.viols.sep <= q.viols.sep && p.viols.sur <= q.viols.sur && p.viols.inj <= q.viols.inj
  }

  /** The current and the best point of a run. */
  datatype Run = Run(curr: Point, best: Point)

  /** The natural logarithm of the largest double: `math.exp` overflows above it. */
  const ExpLimit: real := 709.782712893384

  /**
    The error `math.exp(-diff / t)` raises at iteration i, where
    t = temp / (i + 1).  The objective is a numpy float, so at temperature 0
    the quotient is an infinity or NaN rather than a ZeroDivisionError, and
    `math.exp` returns inf, 0 or NaN for those without raising.
   */
  function ExpError(diff: real, temp: real, i: nat): (e: Option<Exception>)
    ensures e.Some? ==> e == Some(OverflowError) && temp != 0.0
    ensures temp == 0.0 ==> e == None
    ensures temp > 0.0 && diff >= 0.0 ==> e == None
  {
    var t := temp / (i + 1) as real;
    if t == 0.0 then None
    else if -diff / t > ExpLimit then Some(OverflowError)
    else None
  }

  /** The candidate of a step: the current point with bit `draw mod n` flipped (`randrange(n)`). */
  function Candidate<L(==)>(g: Graph, block: seq<L>, curr: Point, draw: nat): (p: Point)
    requires WellFormed(g) && |block| == |g.adj| && |curr.x| == |g.adj| > 0
    ensures |p.x| == |curr.x| && forall i | 0 <= i < |p.x| :: p.x[i] != curr.x[i] <==> i == draw % |g.adj|
  {
    Assess(g, block, Flip(curr.x, draw % |g.adj|))
  }

  /** The best point after meeting cand: replaced when cand is no worse in every respect. */
  function Ratchet(best: Point, cand: Point): (b: Point)
    ensures NoWorse(b, best)
    ensures b == cand || b == best
    ensures NoWorse(cand, best) <==> b == cand
  {
    if NoWorse(cand, best) then cand else best
  }

  /**
    The decision with the Metropolis factor computed only when the
    acceptance test consults it: a candidate with more violations is
    rejected, one that does not raise the objective is accepted, and any
    other is accepted on the coin.  At temperature 0 the factor is
    `exp(-inf) == 0`, so `rand() < 0` never holds and a raising candidate is
    always rejected.  Only a raising candidate can make it fail, and only
    for a negative temperature.
   */
  function Decide(run: Run, cand: Point, coin: bool, temp: real, i: nat): (r: Result<Run, Exception>)
    ensures r != Failure(ValueError) && r != Failure(KeyError) && r != Failure(ZeroDivisionError)
    ensures r == Failure(OverflowError) ==> temp < 0.0
    ensures r.Failure? ==> Total(cand.viols) <= Total(run.curr.viols) && cand.eval > run.curr.eval
    ensures temp >= 0.0 ==> r.Success?
    ensures temp == 0.0 ==>
      && r.Success?
      && (r.value.curr == cand <==> Total(cand.viols) <= Total(run.curr.viols) && cand.eval <= run.curr.eval)
    ensures r.Success? ==>
      && (r.value.curr == run.curr || r.value.curr == cand)
      && Total(r.value.curr.viols) <= Total(run.curr.viols)
      && (Total(cand.viols) <= Total(run.curr.viols) && cand.eval <= run.curr.eval ==> r.value.curr == cand)
      && (Total(cand.viols) > Total(run.curr.viols) ==> r.value.curr == run.curr)
      && r.value.best == Ratchet(run.best, cand)
  {
    var best := Ratchet(run.best, cand);
    var diff := cand.eval - run.curr.eval;
    if Total(cand.viols) > Total(run.curr.viols) then Success(Run(run.curr, best))
    else if diff <= 0.0 then Success(Run(cand, best))
    else
      match ExpError(diff, temp, i)
      case Some(e) => Failure(e)
      case None => Success(Run(if coin && temp != 0.0 then cand else run.curr, best))
  }

  /**
    The decision on a candidate as the source writes it: the Metropolis
    factor is computed before the acceptance test, whether or not the test
    needs it.  coin is the outcome of `rand()` against the factor, which
    cannot succeed at temperature 0 where the factor is 0.  It raises
    whatever computing the factor raises, and otherwise decides as Decide.
   */
  function DecideAsWritten(run: Run, cand: Point, coin: bool, temp: real, i: nat): (r: Result<Run, Exception>)
    ensures var e := ExpError(cand.eval - run.curr.eval, temp, i);
      && (e.Some? ==> r == Failure(e.value))
      && (e.None? ==> r == Decide(run, cand, coin, temp, i))
    ensures r != Failure(ZeroDivisionError)
    ensures temp == 0.0 ==>
      && r.Success?
      && (r.value.curr == cand <==> Total(cand.viols) <= Total(run.curr.viols) && cand.eval <= run.curr.eval)
  {
    var best := Ratchet(run.best, cand);
    var diff := cand.eval - run.curr.eval;
    match ExpError(diff, temp, i)
    case Some(e) => Failure(e)
    case None =>
      var accept := Total(cand.viols) <= Total(run.curr.viols) && (diff <= 0.0 || (coin && temp != 0.0));
      Success(Run(if accept then cand else run.curr, best))
  }

  /** One iteration, with the corrected decision: draw the index, assess the flipped point, decide. */
  function Step<L(==)>(g: Graph, block: seq<L>, run: Run, draw: nat, coin: bool, temp: real, i: nat)
    : (r: Result<Run, Exception>)
    requires WellFormed(g) && |block| == |g.adj| && |run.curr.x| == |g.adj|
    ensures |g.adj| == 0 <==> r == Failure(ValueError)
    ensures r != Failure(KeyError) && r != Failure(ZeroDivisionError)
    ensures r == Failure(OverflowError) ==> temp < 0.0
    ensures temp >= 0.0 ==> (r.Success? <==> |g.adj| > 0)
    ensures temp == 0.0 && |g.adj| > 0 ==>
      var cand := Candidate(g, block, run.curr, draw);
      && r.Success?
      && (r.value.curr == cand <==> Total(cand.viols) <= Total(run.curr.viols) && cand.eval <= run.curr.eval)
  {
    if |g.adj| == 0 then Failure(ValueError)
    else Decide(run, Candidate(g, block, run.curr, draw), coin, temp, i)
  }

  /**
    One iteration as the source writes it.  At temperature 0 nothing is
    raised and it agrees with Step; otherwise it can only add an
    OverflowError, and when it succeeds it agrees with Step.
   */
  function StepAsWritten<L(==)>(g: Graph, block: seq<L>, run: Run, draw: nat, coin: bool, temp: real, i: nat)
    : (r: Result<Run, Exception>)
    requires WellFormed(g) && |block| == |g.adj| && |run.curr.x| == |g.adj|
    ensures |g.adj| == 0 <==> r == Failure(ValueError)
    ensures r != Failure(KeyError) && r != Failure(ZeroDivisionError)
    ensures r == Failure(OverflowError) ==> |g.adj| > 0 && temp != 0.0
    ensures temp == 0.0 ==> r == Step(g, block, run, draw, coin, temp, i)
    ensures r.Success? ==> r == Step(g, block, run, draw, coin, temp, i)
  {
    if |g.adj| == 0 then Failure(ValueError)
    else DecideAsWritten(run, Candidate(g, block, run.curr, draw), coin, temp, i)
  }

  /**
    A step moves the current point by at most one bit, and points that
    carry their true objective and violations keep doing so.
   */
  lemma StepAssessed<L>(g: Graph, block: seq<L>, run: Run, draw: nat, coin: bool, temp: real, i: nat)
    requires WellFormed(g) && |block| == |g.adj| && |run.curr.x| == |g.adj|
    requires Assessed(g, block, run.curr) && Assessed(g, block, run.best)
    ensures var r := Step(g, block, run, draw, coin, temp, i);
      r.Success? ==>
        && Assessed(g, block, r.value.curr) && Assessed(g, block, r.value.best)
        && (r.value.curr.x == run.curr.x || exists k :: 0 <= k < |g.adj| && r.value.curr.x == Flip(run.curr.x, k))
  {
    if |g.adj| > 0 {
      var cand := Candidate(g, block, run.curr, draw);
      assert Assessed(g, block, cand);
    }
  }

  /**
    Where the source computes `math.exp(-diff / t)` for a candidate that
    lowers the objective far enough, it raises OverflowError although the
    acceptance test would take that candidate without consulting the
    factor; the decision that consults it only when needed succeeds.
   */
  lemma OverflowOnImprovement(run: Run, cand: Point, coin: bool, temp: real, i: nat)
    requires temp > 0.0
    requires cand.eval - run.curr.eval < -ExpLimit * temp / (i + 1) as real
    ensures DecideAsWritten(run, cand, coin, temp, i) == Failure(OverflowError)
    ensures Decide(run, cand, coin, temp, i).Success?
    ensures Total(cand.viols) <= Total(run.curr.viols) ==>
      Decide(run, cand, coin, temp, i) == Success(Run(cand, Ratchet(run.best, cand)))
  {
    var diff := cand.eval - run.curr.eval;
    var t := temp / (i + 1) as real;
    assert t > 0.0;
    assert -diff > ExpLimit * t;
    assert -diff / t > ExpLimit;
  }

  /** A concrete instance: lowering the objective by 1 at iteration 999 with temperature 1. */
  lemma OverflowExample()
    ensures var p := Point([false], 0.0, Violations(0, 0, 1));
      var q := Point([true], -1.0, Violations(0, 0, 0));
      && DecideAsWritten(Run(p, p), q, false, 1.0, 999) == Failure(OverflowError)
      && Decide(Run(p, p), q, false, 1.0, 999) == Success(Run(q, q))
  {
    var p := Point([false], 0.0, Violations(0, 0, 1));
    var q := Point([true], -1.0, Violations(0, 0, 0));
    OverflowOnImprovement(Run(p, p), q, false, 1.0, 999);
  }

  /**
    A whole run that overflows as written: one node, no warm start,
    temperature 0.001 and one iteration.  The first candidate sets the only
    bit, which lowers the objective from 0 to -1, so the source raises
    OverflowError at iteration 0 where the corrected step succeeds.
   */
  lemma OverflowFirstStep<L>(g: Graph, block: seq<L>)
    requires WellFormed(g) && |g.adj| == 1 && |block| == 1
    ensures var p := Assess(g, block, Start(1, None));
      && StepAsWritten(g, block, Run(p, p), 0, false, 0.001, 0) == Failure(OverflowError)
      && Step(g, block, Run(p, p), 0, false, 0.001, 0).Success?
  {
    SingleEvals(g, block);
    var p := Assess(g, block, Start(1, None));
    assert p.x == [false];
    var c := Candidate(g, block, p, 0);
    assert c.x == [true];
    assert c.eval - p.eval == -1.0;
    ThousandfoldOverflows();
    OverflowStep(g, block, Run(p, p), 0, false, 0.001, 0);
  }

  /** On a single node, no bit set scores 0 and the bit set scores -1. */
  lemma SingleEvals<L>(g: Graph, block: seq<L>)
    requires WellFormed(g) && |g.adj| == 1 && |block| == 1
    ensures Eval(g, block, [false]) == 0.0 && Eval(g, block, [true]) == -1.0
  {
    EdgeListSpec(g);
    assert g.adj[0] == [];
    assert EdgesFrom(g, 1) == [];
    assert EdgeList(g) == Above(0, []) + EdgesFrom(g, 1);
    AnnealObjective(g, block, [false]);
    AnnealObjective(g, block, [true]);
    assert Ones([false]) == 0 && Ones([true]) == 1;
  }

  /** Lowering the objective by 1 at temperature 0.001 puts 1000 into `math.exp`. */
  lemma ThousandfoldOverflows()
    ensures ExpError(-1.0, 0.001, 0) == Some(OverflowError)
  {
    assert 0.001 / (0 + 1) as real == 0.001;
    assert -(-1.0) / 0.001 == 1000.0;
  }

  /** A positive temperature whose factor overflows fails the step as written only. */
  lemma OverflowStep<L>(g: Graph, block: seq<L>, run: Run, draw: nat, coin: bool, temp: real, i: nat)
    requires WellFormed(g) && |block| == |g.adj| && |run.curr.x| == |g.adj| > 0 && temp > 0.0
    requires ExpError(Candidate(g, block, run.curr, draw).eval - run.curr.eval, temp, i) == Some(OverflowError)
    ensures StepAsWritten(g, block, run, draw, coin, temp, i) == Failure(OverflowError)
    ensures Step(g, block, run, draw, coin, temp, i).Success?
  {
  }

  /** Flipping bit k of x lowers the objective by at most ExpLimit times the temperature `temp / m`. */
  ghost predicate CalmFlip<L>(g: Graph, block: seq<L>, temp: real, m: nat, x: seq<bool>, k: nat)
    requires WellFormed(g) && |block| == |g.adj| && |x| == |g.adj| && k < |x|
  {
    (Eval(g, block, x) - Eval(g, block, Flip(x, k))) * m as real <= ExpLimit * temp
  }

  /**
    No single flip, from any point, lowers the objective by more than
    ExpLimit times the lowest temperature `temp / m` of m iterations.
   */
  ghost predicate Calm<L>(g: Graph, block: seq<L>, temp: real, m: nat)
    requires WellFormed(g) && |block| == |g.adj|
  {
    forall x: seq<bool>, k: nat | |x| == |g.adj| && k < |x| :: CalmFlip(g, block, temp, m, x, k)
  }

  /** A drop of at most ExpLimit times the temperature of iteration i does not overflow. */
  lemma NoOverflow(diff: real, temp: real, i: nat)
    requires temp > 0.0 && -diff * (i + 1) as real <= ExpLimit * temp
    ensures ExpError(diff, temp, i) == None
  {
    var n := (i + 1) as real;
    var t := temp / n;
    assert t > 0.0 && t * n == temp;
    var y := -diff / t;
    assert y * temp == -diff * n by {
      assert y * t == -diff;
      assert y * temp == y * t * n;
    }
  }

  /**
    A step at positive temperature, in iteration i of m, whose drawn flip
    lowers the objective by at most ExpLimit times the lowest temperature
    `temp / m`, succeeds as written.
   */
  lemma CalmStep<L>(g: Graph, block: seq<L>, run: Run, draw: nat, coin: bool, temp: real, i: nat, m: nat)
    requires WellFormed(g) && |block| == |g.adj| && |run.curr.x| == |g.adj| > 0
    requires Assessed(g, block, run.curr) && temp > 0.0 && i < m
    requires CalmFlip(g, block, temp, m, run.curr.x, draw % |g.adj|)
    ensures StepAsWritten(g, block, run, draw, coin, temp, i).Success?
  {
    var cand := Candidate(g, block, run.curr, draw);
    var drop := Eval(g, block, run.curr.x) - Eval(g, block, Flip(run.curr.x, draw % |g.adj|));
    assert cand.eval - run.curr.eval == -drop;
    WithinRun(drop, temp, i, m);
  }

  /** A drop bounded for the lowest temperature of m iterations does not overflow at any earlier one. */
  lemma WithinRun(drop: real, temp: real, i: nat, m: nat)
    requires temp > 0.0 && i < m && drop * m as real <= ExpLimit * temp
    ensures ExpError(-drop, temp, i) == None
  {
    if drop > 0.0 {
      assert drop * (i + 1) as real <= drop * m as real;
    }
    NoOverflow(-drop, temp, i);
  }

  /**
    A step as written keeps the run's points assessed and its best point no
    worse than p0; at temperature 0, or in a calm objective at positive
    temperature, it succeeds.
   */
  lemma StepAsWrittenKeeps<L>(g: Graph, block: seq<L>, run: Run, draw: nat, coin: bool, temp: real, i: nat, m: nat, p0: Point)
    requires WellFormed(g) && |block| == |g.adj| && |run.curr.x| == |g.adj| && i < m
    requires Assessed(g, block, run.curr) && Assessed(g, block, run.best) && NoWorse(run.best, p0)
    ensures var r := StepAsWritten(g, block, run, draw, coin, temp, i);
      && (r.Success? ==>
            && |r.value.curr.x| == |g.adj|
            && Assessed(g, block, r.value.curr) && Assessed(g, block, r.value.best)
            && NoWorse(r.value.best, p0))
      && (|g.adj| > 0 && (temp == 0.0 || (temp > 0.0 && Calm(g, block, temp, m))) ==> r.Success?)
  {
    StepAssessed(g, block, run, draw, coin, temp, i);
    if temp > 0.0 && |g.adj| > 0 && Calm(g, block, temp, m) {
      assert CalmFlip(g, block, temp, m, run.curr.x, draw % |g.adj|);
      CalmStep(g, block, run, draw, coin, temp, i, m);
    }
  }

  /** The starting point: the warm start, or all separators. */
  function Start(n: nat, warm: Option<seq<bool>>): (x: seq<bool>)
    requires warm.Some? ==> |warm.value| == n
    ensures |x| == n
    ensures warm.None? ==> forall i | 0 <= i < n :: !x[i]
  {
    match warm
    case None => seq(n, i => false)
    case Some(w) => w
  }

  /**
    The annealing run with the corrected decision: one step per draw,
    stopping at the first error, and the best point met, with its objective
    and violations.
   */
  method Anneal<L(==)>(g: Graph, block: seq<L>, warm: Option<seq<bool>>, temp: real, draws: seq<nat>, coins: seq<bool>)
    returns (r: Result<Point, Exception>)
    requires WellFormed(g) && |block| == |g.adj| && |coins| == |draws|
    requires warm.Some? ==> |warm.value| == |g.adj|
    ensures r.Success? ==>
      Assessed(g, block, r.value) && NoWorse(r.value, Assess(g, block, Start(|g.adj|, warm)))
    ensures r == Failure(ValueError) <==> |g.adj| == 0 && draws != []
    ensures r == Failure(OverflowError) ==> temp < 0.0
    ensures r != Failure(KeyError) && r != Failure(ZeroDivisionError)
    ensures temp >= 0.0 && (|g.adj| > 0 || draws == []) ==> r.Success?
  {
    var p0 := Assess(g, block, Start(|g.adj|, warm));
    var run := Run(p0, p0);
    var i := 0;
    while i < |draws|
      invariant i <= |draws| && |run.curr.x| == |g.adj|
      invariant Assessed(g, block, run.curr) && Assessed(g, block, run.best)
      invariant NoWorse(run.best, p0)
      invariant |g.adj| == 0 ==> i == 0
    {
      var next := Step(g, block, run, draws[i], coins[i], temp, i);
      StepAssessed(g, block, run, draws[i], coins[i], temp, i);
      if next.Failure? {
        return Failure(next.error);
      }
      run := next.value;
      i := i + 1;
    }
    return Success(run.best);
  }

  /**
    The annealing run as the source writes it.  Temperature 0 raises
    nothing; the first step's error is the run's; a positive temperature
    succeeds when the objective is calm, and may overflow otherwise.
   */
  method AnnealAsWritten<L(==)>(g: Graph, block: seq<L>, warm: Option<seq<bool>>, temp: real, draws: seq<nat>, coins: seq<bool>)
    returns (r: Result<Point, Exception>)
    requires WellFormed(g) && |block| == |g.adj| && |coins| == |draws|
    requires warm.Some? ==> |warm.value| == |g.adj|
    ensures r.Success? ==>
      Assessed(g, block, r.value) && NoWorse(r.value, Assess(g, block, Start(|g.adj|, warm)))
    ensures r == Failure(ValueError) <==> |g.adj| == 0 && draws != []
    ensures r == Failure(OverflowError) ==> temp != 0.0 && |g.adj| > 0
    ensures r != Failure(KeyError) && r != Failure(ZeroDivisionError)
    ensures temp == 0.0 && (|g.adj| > 0 || draws == []) ==> r.Success?
    ensures draws != [] ==>
      var p := Assess(g, block, Start(|g.adj|, warm));
      var first := StepAsWritten(g, block, Run(p, p), draws[0], coins[0], temp, 0);
      first.Failure? ==> r == Failure(first.error)
    ensures temp > 0.0 && (|g.adj| > 0 || draws == []) && Calm(g, block, temp, |draws|) ==> r.Success?
  {
    var p0 := Assess(g, block, Start(|g.adj|, warm));
    var run := Run(p0, p0);
    var i := 0;
    while i < |draws|
      invariant i <= |draws| && |run.curr.x| == |g.adj|
      invariant Assessed(g, block, run.curr) && Assessed(g, block, run.best)
      invariant NoWorse(run.best, p0)
      invariant |g.adj| == 0 ==> i == 0
      invariant i == 0 ==> run == Run(p0, p0)
      invariant i > 0 ==> StepAsWritten(g, block, Run(p0, p0), draws[0], coins[0], temp, 0).Success?
    {
      var next := StepAsWritten(g, block, run, draws[i], coins[i], temp, i);
      StepAsWrittenKeeps(g, block, run, draws[i], coins[i], temp, i, |draws|, p0);
      if next.Failure? {
        return Failure(next.error);
      }
      run := next.value;
      i := i + 1;
    }
    return Success(run.best);
  }
}
