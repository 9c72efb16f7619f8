/** The trellis of the unit-selection decoder, as values: corpus frames are the
    states `0 .. S-1`, target frames the observations `0 .. T-1`. `trans[y][y0]`
    is the cost of entering state `y` from state `y0` and `emit[t][y]` the cost
    of explaining observation `t` by state `y`. The functions here define what
    the imperative decoder in module Viterbi computes, and the lemmas prove
    what that computation achieves. */
module Trellis {
  import opened Costs

  /** Every row of `m` has `cols` entries. */
  predicate IsMatrix<X>(m: seq<seq<X>>, cols: nat)
  {
    forall i :: 0 <= i < |m| ==> |m[i]| == cols
  }

  /** `trans` is S x S and `emit` is T x S, the shapes the distance computation yields. */
  predicate WellFormed(trans: seq<seq<Cost>>, emit: seq<seq<real>>)
  {
    IsMatrix(trans, |trans|) && IsMatrix(emit, |trans|)
  }

  /** Every entry of `p` names a state. */
  predicate InRange(p: seq<nat>, states: nat)
  {
    forall k :: 0 <= k < |p| ==> p[k] < states
  }

  // ---------------------------------------------------------------------------
  // Masking: staying on a corpus frame is forbidden

  /** The transition costs: the state-to-state distances with every zero entry
      replaced by the infinity sentinel. */
  function Masked(dist: seq<seq<real>>): (trans: seq<seq<Cost>>)
    ensures |trans| == |dist|
    ensures forall i :: 0 <= i < |dist| ==> |trans[i]| == |dist[i]|
    ensures forall i, j :: 0 <= i < |dist| && 0 <= j < |dist[i]| ==>
              (trans[i][j] == Inf <==> dist[i][j] == 0.0)
    ensures forall i, j :: 0 <= i < |dist| && 0 <= j < |dist[i]| && trans[i][j].Fin? ==>
              trans[i][j].n == dist[i][j]
  {
    seq(|dist|, i requires 0 <= i < |dist| =>
      seq(|dist[i]|, j requires 0 <= j < |dist[i]| =>
        if dist[i][j] == 0.0 then Inf else Fin(dist[i][j])))
  }

  /** The distance of every frame to itself is zero. */
  predicate ZeroDiagonal(dist: seq<seq<real>>)
  {
    forall i :: 0 <= i < |dist| && i < |dist[i]| ==> dist[i][i] == 0.0
  }

  /** A self-distance matrix has every self-transition masked. */
  lemma SelfTransitionsForbidden(dist: seq<seq<real>>)
    requires ZeroDiagonal(dist)
    ensures forall i :: 0 <= i < |dist| && i < |dist[i]| ==> Masked(dist)[i][i] == Inf
  {
  }

  // ---------------------------------------------------------------------------
  // The forward recurrence

  /** The cost of reaching state `y` at time `t >= 1` through predecessor
      `y0`: `V[t-1][y0] + trans[y][y0] + emit[t][y]`, where `prev` is `V[t-1]`. */
  function Candidate(trans: seq<seq<Cost>>, emit: seq<seq<real>>, prev: seq<Cost>, t: nat, y: nat, y0: nat): Cost
    requires WellFormed(trans, emit) && |prev| == |trans|
    requires 0 < t < |emit| && y < |trans| && y0 < |trans|
  {
    Add(Add(prev[y0], trans[y][y0]), Fin(emit[t][y]))
  }

  /** The list `costs` the decoder builds for state `y` at time `t`, one
      candidate per predecessor, limited to the first `k` predecessors. */
  function CandidatesUpTo(trans: seq<seq<Cost>>, emit: seq<seq<real>>, prev: seq<Cost>, t: nat, y: nat, k: nat): (c: seq<Cost>)
    requires WellFormed(trans, emit) && |prev| == |trans|
    requires 0 < t < |emit| && y < |trans| && k <= |trans|
    ensures |c| == k
  {
    if k == 0 then []
    else CandidatesUpTo(trans, emit, prev, t, y, k - 1) + [Candidate(trans, emit, prev, t, y, k - 1)]
  }

  /** The full list `costs` for state `y` at time `t`. */
  function StepCosts(trans: seq<seq<Cost>>, emit: seq<seq<real>>, prev: seq<Cost>, t: nat, y: nat): (c: seq<Cost>)
    requires WellFormed(trans, emit) && |prev| == |trans|
    requires 0 < t < |emit| && y < |trans|
    ensures |c| == |trans|
  {
    CandidatesUpTo(trans, emit, prev, t, y, |trans|)
  }

  /** Entry `y0` of `costs` is the candidate through `y0`. */
  lemma {:induction false} CandidatesAt(trans: seq<seq<Cost>>, emit: seq<seq<real>>, prev: seq<Cost>, t: nat, y: nat, k: nat, y0: nat)
    requires WellFormed(trans, emit) && |prev| == |trans|
    requires 0 < t < |emit| && y < |trans| && y0 < k <= |trans|
    ensures CandidatesUpTo(trans, emit, prev, t, y, k)[y0] == Candidate(trans, emit, prev, t, y, y0)
    decreases k
  {
    if y0 < k - 1 {
      CandidatesAt(trans, emit, prev, t, y, k - 1, y0);
    }
  }

  lemma StepCostsAt(trans: seq<seq<Cost>>, emit: seq<seq<real>>, prev: seq<Cost>, t: nat, y: nat, y0: nat)
    requires WellFormed(trans, emit) && |prev| == |trans|
    requires 0 < t < |emit| && y < |trans| && y0 < |trans|
    ensures StepCosts(trans, emit, prev, t, y)[y0] == Candidate(trans, emit, prev, t, y, y0)
  {
    CandidatesAt(trans, emit, prev, t, y, |trans|, y0);
  }

  /** The Viterbi table entry `V[t][y]`: the emission cost at time 0, and
      afterwards the least candidate (`np.amin(costs)`). */
  function Entry(trans: seq<seq<Cost>>, emit: seq<seq<real>>, t: nat, y: nat): Cost
    requires WellFormed(trans, emit) && t < |emit| && y < |trans|
    decreases t, 0
  {
    if t == 0 then Fin(emit[0][y])
    else MinOf(StepCosts(trans, emit, Row(trans, emit, t - 1), t, y))
  }

  /** The first `k` entries of row `t` of the Viterbi table. */
  function RowUpTo(trans: seq<seq<Cost>>, emit: seq<seq<real>>, t: nat, k: nat): (row: seq<Cost>)
    requires WellFormed(trans, emit) && t < |emit| && k <= |trans|
    ensures |row| == k
    decreases t, 1, k
  {
    if k == 0 then [] else RowUpTo(trans, emit, t, k - 1) + [Entry(trans, emit, t, k - 1)]
  }

  /** Row `t` of the Viterbi table, `V[t]`. */
  function Row(trans: seq<seq<Cost>>, emit: seq<seq<real>>, t: nat): (row: seq<Cost>)
    requires WellFormed(trans, emit) && t < |emit|
    ensures |row| == |trans|
    decreases t, 2
  {
    RowUpTo(trans, emit, t, |trans|)
  }

  lemma {:induction false} RowUpToAt(trans: seq<seq<Cost>>, emit: seq<seq<real>>, t: nat, k: nat, y: nat)
    requires WellFormed(trans, emit) && t < |emit| && y < k <= |trans|
    ensures RowUpTo(trans, emit, t, k)[y] == Entry(trans, emit, t, y)
    decreases k
  {
    if y < k - 1 {
      RowUpToAt(trans, emit, t, k - 1, y);
    }
  }

  /** `V[t][y]` is the table entry for `(t, y)`. */
  lemma RowAt(trans: seq<seq<Cost>>, emit: seq<seq<real>>, t: nat, y: nat)
    requires WellFormed(trans, emit) && t < |emit| && y < |trans|
    ensures Row(trans, emit, t)[y] == Entry(trans, emit, t, y)
  {
    RowUpToAt(trans, emit, t, |trans|, y);
  }

  /** The predecessor recorded for state `y` at time `t >= 1`
      (`np.argmin(costs)`): the first candidate of minimal cost. */
  function Pred(trans: seq<seq<Cost>>, emit: seq<seq<real>>, t: nat, y: nat): (y0: nat)
    requires WellFormed(trans, emit) && 0 < t < |emit| && y < |trans|
    ensures y0 < |trans|
  {
    FirstMin(StepCosts(trans, emit, Row(trans, emit, t - 1), t, y))
  }

  /** `V[t][y]` is the candidate cost through the recorded predecessor. */
  lemma PredAttains(trans: seq<seq<Cost>>, emit: seq<seq<real>>, t: nat, y: nat)
    requires WellFormed(trans, emit) && 0 < t < |emit| && y < |trans|
    ensures Row(trans, emit, t)[y] == Candidate(trans, emit, Row(trans, emit, t - 1), t, y, Pred(trans, emit, t, y))
  {
    RowAt(trans, emit, t, y);
    StepCostsAt(trans, emit, Row(trans, emit, t - 1), t, y, Pred(trans, emit, t, y));
  }

  /** The path kept for state `y` after step `t`: the predecessor's path with
      `y` appended. */
  function PathTo(trans: seq<seq<Cost>>, emit: seq<seq<real>>, t: nat, y: nat): (p: seq<nat>)
    requires WellFormed(trans, emit) && t < |emit| && y < |trans|
    ensures |p| == t + 1 && p[t] == y
    ensures InRange(p, |trans|)
    decreases t
  {
    if t == 0 then [y] else PathTo(trans, emit, t - 1, Pred(trans, emit, t, y)) + [y]
  }

  /** The cost of the first `t + 1` steps of the state sequence `p`:
      `emit[0][p0] + sum over k in 1..t of (trans[p_k][p_{k-1}] + emit[k][p_k])`,
      summed in the decoder's order. */
  function PrefixCost(trans: seq<seq<Cost>>, emit: seq<seq<real>>, p: seq<nat>, t: nat): Cost
    requires WellFormed(trans, emit) && t < |p| && t < |emit| && InRange(p, |trans|)
    decreases t
  {
    if t == 0 then Fin(emit[0][p[0]])
    else Add(Add(PrefixCost(trans, emit, p, t - 1), trans[p[t]][p[t - 1]]), Fin(emit[t][p[t]]))
  }

  /** The total cost of a state sequence against the first `|p|` observations. */
  function PathCost(trans: seq<seq<Cost>>, emit: seq<seq<real>>, p: seq<nat>): Cost
    requires WellFormed(trans, emit) && 0 < |p| <= |emit| && InRange(p, |trans|)
  {
    PrefixCost(trans, emit, p, |p| - 1)
  }

  // ---------------------------------------------------------------------------
  // What the recurrence achieves

  /** The cost of a prefix depends only on the states in it. */
  lemma {:induction false} PrefixCostAgrees(trans: seq<seq<Cost>>, emit: seq<seq<real>>, p: seq<nat>, q: seq<nat>, t: nat)
    requires WellFormed(trans, emit) && t < |p| && t < |q| && t < |emit|
    requires InRange(p, |trans|) && InRange(q, |trans|)
    requires forall i :: 0 <= i <= t ==> p[i] == q[i]
    ensures PrefixCost(trans, emit, p, t) == PrefixCost(trans, emit, q, t)
    decreases t
  {
    if t > 0 {
      PrefixCostAgrees(trans, emit, p, q, t - 1);
      assert p[t] == q[t] && p[t - 1] == q[t - 1];
    }
  }

  /** The kept path realises the table entry: its cost is exactly `V[t][y]`. */
  lemma {:induction false} PathToCost(trans: seq<seq<Cost>>, emit: seq<seq<real>>, t: nat, y: nat)
    requires WellFormed(trans, emit) && t < |emit| && y < |trans|
    ensures PathCost(trans, emit, PathTo(trans, emit, t, y)) == Row(trans, emit, t)[y]
    decreases t
  {
    if t > 0 {
      var y0 := Pred(trans, emit, t, y);
      var q := PathTo(trans, emit, t - 1, y0);
      var p := PathTo(trans, emit, t, y);
      PathToCost(trans, emit, t - 1, y0);
      PredAttains(trans, emit, t, y);
      assert p == q + [y];
      PrefixCostAgrees(trans, emit, p, q, t - 1);
      assert p[t - 1] == y0;
    } else {
      RowAt(trans, emit, 0, y);
    }
  }

  /** No state sequence that is in state `p[t]` at time `t` has a prefix
      cheaper than `V[t][p[t]]`. */
  lemma {:induction false} RowIsLowerBound(trans: seq<seq<Cost>>, emit: seq<seq<real>>, p: seq<nat>, t: nat)
    requires WellFormed(trans, emit) && t < |p| && t < |emit| && InRange(p, |trans|)
    ensures Le(Row(trans, emit, t)[p[t]], PrefixCost(trans, emit, p, t))
    decreases t
  {
    if t > 0 {
      var y, y0 := p[t], p[t - 1];
      var prev := Row(trans, emit, t - 1);
      var c := StepCosts(trans, emit, prev, t, y);
      RowIsLowerBound(trans, emit, p, t - 1);
      RowAt(trans, emit, t, y);
      FirstMinIsFirst(c);
      StepCostsAt(trans, emit, prev, t, y, y0);
      AddMonotone(prev[y0], PrefixCost(trans, emit, p, t - 1), trans[y][y0]);
      AddMonotone(Add(prev[y0], trans[y][y0]),
                  Add(PrefixCost(trans, emit, p, t - 1), trans[y][y0]), Fin(emit[t][y]));
      LeTrans(Row(trans, emit, t)[y], c[y0], PrefixCost(trans, emit, p, t));
    } else {
      RowAt(trans, emit, 0, p[0]);
    }
  }

  /** `V[t][y]` is the least cost of any state sequence of length `t+1` ending
      in `y`, and the kept path attains it. */
  lemma RowIsOptimal(trans: seq<seq<Cost>>, emit: seq<seq<real>>, t: nat, y: nat)
    requires WellFormed(trans, emit) && t < |emit| && y < |trans|
    ensures PathCost(trans, emit, PathTo(trans, emit, t, y)) == Row(trans, emit, t)[y]
    ensures forall p :: |p| == t + 1 && InRange(p, |trans|) && p[t] == y ==>
              Le(Row(trans, emit, t)[y], PathCost(trans, emit, p))
  {
    PathToCost(trans, emit, t, y);
    forall p | |p| == t + 1 && InRange(p, |trans|) && p[t] == y
      ensures Le(Row(trans, emit, t)[y], PathCost(trans, emit, p))
    {
      RowIsLowerBound(trans, emit, p, t);
    }
  }

  // ---------------------------------------------------------------------------
  // Final selection

  /** The state chosen at the end: the lowest-index state of minimal `V[T-1]`. */
  function FinalState(trans: seq<seq<Cost>>, emit: seq<seq<real>>): (s: nat)
    requires WellFormed(trans, emit) && |emit| > 0 && |trans| > 0
    ensures s < |trans|
  {
    FirstMin(Row(trans, emit, |emit| - 1))
  }

  /** The decoded state sequence: the path kept for the final state. */
  function BestPath(trans: seq<seq<Cost>>, emit: seq<seq<real>>): (p: seq<nat>)
    requires WellFormed(trans, emit) && |emit| > 0 && |trans| > 0
    ensures |p| == |emit| && InRange(p, |trans|)
  {
    PathTo(trans, emit, |emit| - 1, FinalState(trans, emit))
  }

  /** The decoded sequence costs the minimum of the last table row. */
  lemma BestPathCost(trans: seq<seq<Cost>>, emit: seq<seq<real>>)
    requires WellFormed(trans, emit) && |emit| > 0 && |trans| > 0
    ensures PathCost(trans, emit, BestPath(trans, emit)) == Row(trans, emit, |emit| - 1)[FinalState(trans, emit)]
  {
    PathToCost(trans, emit, |emit| - 1, FinalState(trans, emit));
  }

  /** The decoded sequence is a cheapest state sequence over all observations:
      no sequence of the same length has a smaller total cost. */
  lemma BestPathIsOptimal(trans: seq<seq<Cost>>, emit: seq<seq<real>>, p: seq<nat>)
    requires WellFormed(trans, emit) && |emit| > 0 && |trans| > 0
    requires |p| == |emit| && InRange(p, |trans|)
    ensures Le(PathCost(trans, emit, BestPath(trans, emit)), PathCost(trans, emit, p))
  {
    var n, s := |emit| - 1, FinalState(trans, emit);
    var last := Row(trans, emit, n);
    BestPathCost(trans, emit);
    RowIsLowerBound(trans, emit, p, n);
    FirstMinIsFirst(last);
    LeTrans(last[s], last[p[n]], PathCost(trans, emit, p));
  }

  /** A prefix has finite cost exactly when every transition in it is finite
      (emission costs are always finite). */
  lemma {:induction false} FiniteCostSteps(trans: seq<seq<Cost>>, emit: seq<seq<real>>, p: seq<nat>, t: nat)
    requires WellFormed(trans, emit) && t < |p| && t < |emit| && InRange(p, |trans|)
    ensures PrefixCost(trans, emit, p, t).Fin? <==> forall k :: 0 < k <= t ==> trans[p[k]][p[k - 1]].Fin?
    decreases t
  {
    if t > 0 {
      FiniteCostSteps(trans, emit, p, t - 1);
      if !trans[p[t]][p[t - 1]].Fin? {
        assert PrefixCost(trans, emit, p, t) == Inf;
      }
    }
  }

  /** Over a self-distance matrix, a sequence of finite cost never stays on
      the same corpus frame for two consecutive observations. */
  lemma FiniteCostMoves(dist: seq<seq<real>>, emit: seq<seq<real>>, p: seq<nat>)
    requires WellFormed(Masked(dist), emit) && ZeroDiagonal(dist)
    requires 0 < |p| <= |emit| && InRange(p, |dist|)
    requires PathCost(Masked(dist), emit, p).Fin?
    ensures forall k :: 0 < k < |p| ==> p[k] != p[k - 1]
  {
    FiniteCostSteps(Masked(dist), emit, p, |p| - 1);
    SelfTransitionsForbidden(dist);
  }

  lemma FiniteBestPathMoves(dist: seq<seq<real>>, emit: seq<seq<real>>)
    requires WellFormed(Masked(dist), emit) && ZeroDiagonal(dist) && |emit| > 0 && |dist| > 0
    requires PathCost(Masked(dist), emit, BestPath(Masked(dist), emit)).Fin?
    ensures forall k :: 0 < k < |emit| ==>
              BestPath(Masked(dist), emit)[k] != BestPath(Masked(dist), emit)[k - 1]
  {
    FiniteCostMoves(dist, emit, BestPath(Masked(dist), emit));
  }

  /** Two corpus frames `a` and `b` at a nonzero distance give a state
      sequence of finite cost (alternate between them), so the decoded
      sequence, which costs no more, is finite too. */
  lemma FiniteDecodingExists(dist: seq<seq<real>>, emit: seq<seq<real>>, a: nat, b: nat)
    requires WellFormed(Masked(dist), emit) && |emit| > 0
    requires a < |dist| && b < |dist| && dist[a][b] != 0.0 && dist[b][a] != 0.0
    ensures PathCost(Masked(dist), emit, BestPath(Masked(dist), emit)).Fin?
  {
    var trans: seq<seq<Cost>> := Masked(dist);
    var p: seq<nat> := seq(|emit|, k => if k % 2 == 0 then a else b);
    assert InRange(p, |trans|);
    forall k: nat | 0 < k < |p|
      ensures trans[p[k]][p[k - 1]].Fin?
    {
      assert (p[k] == a && p[k - 1] == b) || (p[k] == b && p[k - 1] == a);
    }
    FiniteCostSteps(trans, emit, p, |p| - 1);
    BestPathIsOptimal(trans, emit, p);
  }
}
