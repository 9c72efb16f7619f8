/** The decoder `viterbiOld` of UnitSelection.py as it runs: it masks the
    transition table in place, fills the Viterbi table `V` one time step at a
    time, rebuilds the per-state paths at every step and finally returns the
    path of the cheapest last state. Each method is proved to compute what the
    functions of module Trellis define. */
module Viterbi {
  import opened Costs
  import opened Trellis
  import opened Search

  /** Why the decoder stops without a sequence. Each value names the point at
      which the source raises:
      - EmptyObservations: the initialisation reads the first emission row of
        an empty observation sequence;
      - UnboundTimeStep: with no observations and no states, choosing the
        last time step reads the loop variable `t`, which no iteration bound;
      - EmptyStates: the final selection takes the minimum of an empty row;
      - UnboundCosts: after a single observation, the decoder reads the list
        `costs`, which only the time loop binds. */
  datatype DecodeError = EmptyObservations | UnboundTimeStep | EmptyStates | UnboundCosts

  /** The shapes the distance computation yields: `dist` is S x S, `emit` is T x S. */
  predicate Shaped(dist: seq<seq<real>>, emit: seq<seq<real>>)
  {
    IsMatrix(dist, |dist|) && IsMatrix(emit, |dist|)
  }

  lemma ShapedMasked(dist: seq<seq<real>>, emit: seq<seq<real>>)
    requires Shaped(dist, emit)
    ensures WellFormed(Masked(dist), emit)
  {
  }

  // ---------------------------------------------------------------------------
  // What the decoder returns

  /** The outcome of `viterbiOld` as written, by the number of observations
      T = |emit| and of states S = |dist|. */
  function OldOutcome(dist: seq<seq<real>>, emit: seq<seq<real>>): (r: Result<seq<nat>, DecodeError>)
    requires Shaped(dist, emit)
    ensures r.Success? <==> |emit| >= 2 && |dist| >= 1
    ensures r.Success? ==> |r.value| == |emit| && InRange(r.value, |dist|)
  {
    ShapedMasked(dist, emit);
    if |emit| == 0 then Failure(if |dist| == 0 then UnboundTimeStep else EmptyObservations)
    else if |dist| == 0 then Failure(EmptyStates)
    else if |emit| == 1 then Failure(UnboundCosts)
    else Success(BestPath(Masked(dist), emit))
  }

  /** The outcome the decoder is meant to have: a single observation is
      answered by the best initial state instead of failing; every other
      input behaves as in `OldOutcome`. */
  function Outcome(dist: seq<seq<real>>, emit: seq<seq<real>>): (r: Result<seq<nat>, DecodeError>)
    requires Shaped(dist, emit)
    ensures r.Success? <==> |emit| >= 1 && |dist| >= 1
    ensures r.Success? ==> |r.value| == |emit| && InRange(r.value, |dist|)
  {
    ShapedMasked(dist, emit);
    if |emit| == 0 then Failure(if |dist| == 0 then UnboundTimeStep else EmptyObservations)
    else if |dist| == 0 then Failure(EmptyStates)
    else Success(BestPath(Masked(dist), emit))
  }

  /** The two outcomes differ only on a single observation. */
  lemma OutcomesAgree(dist: seq<seq<real>>, emit: seq<seq<real>>)
    requires Shaped(dist, emit)
    ensures OldOutcome(dist, emit) == Outcome(dist, emit) <==> |emit| != 1 || |dist| == 0
  {
  }

  /** As written, a single observation over a non-empty corpus always fails. */
  lemma SingleObservationFails(dist: seq<seq<real>>, emit: seq<seq<real>>)
    requires Shaped(dist, emit) && |emit| == 1 && |dist| >= 1
    ensures OldOutcome(dist, emit) == Failure(UnboundCosts)
  {
  }

  /** One corpus frame, one target frame: the decoder as written fails, where
      the answer is the only corpus frame. */
  lemma SingleObservationExample()
    ensures Shaped([[0.0]], [[1.0]])
    ensures OldOutcome([[0.0]], [[1.0]]) == Failure(UnboundCosts)
    ensures Outcome([[0.0]], [[1.0]]) == Success([0])
  {
  }

  /** With the failure removed, a single observation is answered by the
      nearest corpus frame, the same frame the linear search picks. */
  lemma SingleObservationNearest(dist: seq<seq<real>>, emit: seq<seq<real>>)
    requires Shaped(dist, emit) && |emit| == 1 && |dist| >= 1
    ensures Outcome(dist, emit) == Success([Nearest(emit[0])])
    ensures LinearSearch(emit, |dist|) == Success([Nearest(emit[0])])
  {
    var trans := Masked(dist);
    ShapedMasked(dist, emit);
    forall y | 0 <= y < |dist|
      ensures Row(trans, emit, 0)[y] == Finite(emit[0])[y]
    {
      RowAt(trans, emit, 0, y);
    }
    assert Row(trans, emit, 0) == Finite(emit[0]);
    assert LinearSearch(emit, |dist|).value == [Nearest(emit[0])];
  }

  /** A corpus of one frame: every transition is a self-transition, so the
      decoder returns the frame at every step although the path's cost is
      infinite. */
  lemma SingleFrameCorpus(dist: seq<seq<real>>, emit: seq<seq<real>>)
    requires Shaped(dist, emit) && ZeroDiagonal(dist) && |dist| == 1 && |emit| >= 2
    ensures OldOutcome(dist, emit).Success?
    ensures forall k :: 0 <= k < |emit| ==> OldOutcome(dist, emit).value[k] == 0
    ensures PathCost(Masked(dist), emit, OldOutcome(dist, emit).value) == Inf
  {
  }

  /** A worked example: three corpus frames on a line at 0, 10 and 20 ... */
  const ExampleDist: seq<seq<real>> := [[0.0, 10.0, 20.0], [10.0, 0.0, 10.0], [20.0, 10.0, 0.0]]

  /** ... and two target frames, at 1 and at 11. */
  const ExampleEmit: seq<seq<real>> := [[1.0, 9.0, 19.0], [11.0, 1.0, 9.0]]

  lemma ExampleTransitions()
    ensures Shaped(ExampleDist, ExampleEmit) && WellFormed(Masked(ExampleDist), ExampleEmit)
    ensures Masked(ExampleDist)[0] == [Inf, Fin(10.0), Fin(20.0)]
    ensures Masked(ExampleDist)[1] == [Fin(10.0), Inf, Fin(10.0)]
    ensures Masked(ExampleDist)[2] == [Fin(20.0), Fin(10.0), Inf]
  {
  }

  lemma ExampleFirstRow()
    ensures WellFormed(Masked(ExampleDist), ExampleEmit)
    ensures Row(Masked(ExampleDist), ExampleEmit, 0) == [Fin(1.0), Fin(9.0), Fin(19.0)]
  {
    ExampleTransitions();
    var trans := Masked(ExampleDist);
    RowAt(trans, ExampleEmit, 0, 0);
    RowAt(trans, ExampleEmit, 0, 1);
    RowAt(trans, ExampleEmit, 0, 2);
  }

  /** The candidates at the second target frame for corpus frame `y`. */
  lemma ExampleCandidates(y: nat, c: seq<Cost>)
    requires y < 3
    requires c == (if y == 0 then [Inf, Fin(30.0), Fin(50.0)]
                   else if y == 1 then [Fin(12.0), Inf, Fin(30.0)]
                   else [Fin(30.0), Fin(28.0), Inf])
    ensures WellFormed(Masked(ExampleDist), ExampleEmit)
    ensures StepCosts(Masked(ExampleDist), ExampleEmit, Row(Masked(ExampleDist), ExampleEmit, 0), 1, y) == c
  {
    ExampleTransitions();
    ExampleFirstRow();
    var trans := Masked(ExampleDist);
    var row0 := Row(trans, ExampleEmit, 0);
    StepCostsAt(trans, ExampleEmit, row0, 1, y, 0);
    StepCostsAt(trans, ExampleEmit, row0, 1, y, 1);
    StepCostsAt(trans, ExampleEmit, row0, 1, y, 2);
  }

  lemma ExampleSecondRow()
    ensures WellFormed(Masked(ExampleDist), ExampleEmit)
    ensures Row(Masked(ExampleDist), ExampleEmit, 1) == [Fin(30.0), Fin(12.0), Fin(28.0)]
    ensures Pred(Masked(ExampleDist), ExampleEmit, 1, 1) == 0
  {
    ExampleTransitions();
    var trans := Masked(ExampleDist);
    var c0, c1, c2 := [Inf, Fin(30.0), Fin(50.0)], [Fin(12.0), Inf, Fin(30.0)], [Fin(30.0), Fin(28.0), Inf];
    ExampleCandidates(0, c0);
    ExampleCandidates(1, c1);
    ExampleCandidates(2, c2);
    FirstMinUnique(c0, 1);
    FirstMinUnique(c1, 0);
    FirstMinUnique(c2, 1);
    RowAt(trans, ExampleEmit, 1, 0);
    RowAt(trans, ExampleEmit, 1, 1);
    RowAt(trans, ExampleEmit, 1, 2);
  }

  /** On the worked example the decoder answers frame 0 and then frame 1, the
      nearest frame for each target; the move between them costs 10, and every
      other way to finish costs more. */
  lemma WorkedExample()
    ensures Shaped(ExampleDist, ExampleEmit)
    ensures OldOutcome(ExampleDist, ExampleEmit) == Success([0, 1])
  {
    ExampleSecondRow();
    var trans := Masked(ExampleDist);
    FirstMinUnique(Row(trans, ExampleEmit, 1), 1);
    assert FinalState(trans, ExampleEmit) == 1;
    assert PathTo(trans, ExampleEmit, 0, 0) == [0];
    assert BestPath(trans, ExampleEmit) == PathTo(trans, ExampleEmit, 0, 0) + [1] == [0, 1];
  }

  /** Two identical corpus frames and two observations: every transition is
      masked, every path costs infinity, and the decoder stays on frame 0. */
  lemma IdenticalFramesRepeat(emit: seq<seq<real>>)
    requires |emit| == 2 && |emit[0]| == 2 && |emit[1]| == 2
    ensures Shaped([[0.0, 0.0], [0.0, 0.0]], emit)
    ensures OldOutcome([[0.0, 0.0], [0.0, 0.0]], emit) == Success([0, 0])
  {
    var dist := [[0.0, 0.0], [0.0, 0.0]];
    var trans := Masked(dist);
    ShapedMasked(dist, emit);
    assert trans[0] == [Inf, Inf] && trans[1] == [Inf, Inf];
    var row0 := Row(trans, emit, 0);
    var c0 := StepCosts(trans, emit, row0, 1, 0);
    StepCostsAt(trans, emit, row0, 1, 0, 0);
    StepCostsAt(trans, emit, row0, 1, 0, 1);
    FirstMinUnique(c0, 0);
    RowAt(trans, emit, 1, 0);
    RowAt(trans, emit, 1, 1);
    var row1 := Row(trans, emit, 1);
    var c1 := StepCosts(trans, emit, row0, 1, 1);
    StepCostsAt(trans, emit, row0, 1, 1, 0);
    StepCostsAt(trans, emit, row0, 1, 1, 1);
    FirstMinUnique(c1, 0);
    assert row1 == [Inf, Inf];
    FirstMinUnique(row1, 0);
    assert PathTo(trans, emit, 0, 0) == [0];
    assert BestPath(trans, emit) == PathTo(trans, emit, 0, 0) + [0] == [0, 0];
  }

  // ---------------------------------------------------------------------------
  // The imperative decoder

  /** The state-to-state distance table, freshly allocated as the distance
      computation returns it. */
  method DistanceTable(dist: seq<seq<real>>) returns (a: array2<Cost>)
    requires IsMatrix(dist, |dist|)
    ensures fresh(a) && a.Length0 == |dist| && a.Length1 == |dist|
    ensures forall i, j :: 0 <= i < |dist| && 0 <= j < |dist| ==> a[i, j] == Fin(dist[i][j])
  {
    a := new Cost[|dist|, |dist|]((i, j) => if 0 <= i < |dist| && 0 <= j < |dist[i]| then Fin(dist[i][j]) else Inf);
  }

  /** Replace every zero entry of `a` by infinity, in place; every other entry
      keeps its value. */
  method MaskZeros(a: array2<Cost>)
    modifies a
    ensures forall i, j :: 0 <= i < a.Length0 && 0 <= j < a.Length1 ==>
              a[i, j] == (if old(a[i, j]) == Fin(0.0) then Inf else old(a[i, j]))
  {
    for i := 0 to a.Length0
      invariant forall i', j :: 0 <= i' < i && 0 <= j < a.Length1 ==>
                  a[i', j] == (if old(a[i', j]) == Fin(0.0) then Inf else old(a[i', j]))
      invariant forall i', j :: i <= i' < a.Length0 && 0 <= j < a.Length1 ==> a[i', j] == old(a[i', j])
    {
      for j := 0 to a.Length1
        invariant forall i', j' :: 0 <= i' < i && 0 <= j' < a.Length1 ==>
                    a[i', j'] == (if old(a[i', j']) == Fin(0.0) then Inf else old(a[i', j']))
        invariant forall j' :: 0 <= j' < j ==>
                    a[i, j'] == (if old(a[i, j']) == Fin(0.0) then Inf else old(a[i, j']))
        invariant forall i', j' :: 0 <= i' < a.Length0 && 0 <= j' < a.Length1 && (i' > i || (i' == i && j' >= j)) ==>
                    a[i', j'] == old(a[i', j'])
      {
        if a[i, j] == Fin(0.0) {
          a[i, j] := Inf;
        }
      }
    }
  }

  /** The lowest-index minimum of row `n` of `V`: the tuple minimum over
      `(V[n][y], y)` of the final selection. */
  method ArgMinRow(V: array2<Cost>, n: nat) returns (state: nat)
    requires n < V.Length0 && V.Length1 > 0
    ensures state < V.Length1
    ensures forall y :: 0 <= y < V.Length1 ==> Le(V[n, state], V[n, y])
    ensures forall y :: 0 <= y < state ==> Lt(V[n, state], V[n, y])
  {
    state := 0;
    for y := 1 to V.Length1
      invariant state < y
      invariant forall y' :: 0 <= y' < y ==> Le(V[n, state], V[n, y'])
      invariant forall y' :: 0 <= y' < state ==> Lt(V[n, state], V[n, y'])
    {
      if Lt(V[n, y], V[n, state]) {
        state := y;
      }
    }
  }

  /** For state `y` at time `t >= 1`, the cheapest candidate
      `V[t-1][y0] + trans[y][y0] + emit[t][y]` and the first predecessor `y0`
      attaining it (`np.amin` and `np.argmin` over the list `costs`). */
  method BestPredecessor(V: array2<Cost>, trans: array2<Cost>, ghost tr: seq<seq<Cost>>,
                         emit: seq<seq<real>>, t: nat, y: nat, ghost prev: seq<Cost>)
    returns (minCost: Cost, minIndex: nat)
    requires WellFormed(tr, emit) && 0 < t < |emit| && y < |tr|
    requires V.Length0 == |emit| && V.Length1 == |tr|
    requires trans.Length0 == |tr| && trans.Length1 == |tr|
    requires forall i, j :: 0 <= i < |tr| && 0 <= j < |tr| ==> trans[i, j] == tr[i][j]
    requires prev == Row(tr, emit, t - 1)
    requires forall y0 :: 0 <= y0 < |tr| ==> V[t - 1, y0] == prev[y0]
    ensures minIndex == Pred(tr, emit, t, y)
    ensures minCost == Row(tr, emit, t)[y]
  {
    ghost var costs := StepCosts(tr, emit, prev, t, y);
    StepCostsAt(tr, emit, prev, t, y, 0);
    minCost := Add(Add(V[t - 1, 0], trans[y, 0]), Fin(emit[t][y]));
    minIndex := 0;
    for y0 := 1 to trans.Length1
      invariant minIndex < y0 && minCost == costs[minIndex]
      invariant forall j :: 0 <= j < y0 ==> Le(minCost, costs[j])
      invariant forall j :: 0 <= j < minIndex ==> Lt(minCost, costs[j])
    {
      var c := Add(Add(V[t - 1, y0], trans[y, y0]), Fin(emit[t][y]));
      StepCostsAt(tr, emit, prev, t, y, y0);
      if Lt(c, minCost) {
        forall j | 0 <= j < y0 ensures Le(c, costs[j]) {
          LtLeTrans(c, minCost, costs[j]);
        }
        minCost, minIndex := c, y0;
      }
    }
    FirstMinUnique(costs, minIndex);
    RowAt(tr, emit, t, y);
  }

  /** Rows `0 .. k-1` of `V` hold the Viterbi table `Row(tr, emit, 0 .. k-1)`. */
  ghost predicate TableUpTo(V: array2<Cost>, tr: seq<seq<Cost>>, emit: seq<seq<real>>, k: nat)
    reads V
    requires WellFormed(tr, emit) && k <= |emit|
  {
    V.Length0 == |emit| && V.Length1 == |tr| &&
    forall t, y :: 0 <= t < k && 0 <= y < |tr| ==> V[t, y] == Row(tr, emit, t)[y]
  }

  /** The paths kept after step `t`, one per state. */
  ghost predicate PathsAt(path: seq<seq<nat>>, tr: seq<seq<Cost>>, emit: seq<seq<real>>, t: nat)
    requires WellFormed(tr, emit) && t < |emit|
  {
    |path| == |tr| && forall y :: 0 <= y < |tr| ==> path[y] == PathTo(tr, emit, t, y)
  }

  /** Time step 0: `V[0][y] = emit[0][y]` and `path[y] = [y]` for every state. */
  method Initialise(V: array2<Cost>, ghost tr: seq<seq<Cost>>, emit: seq<seq<real>>) returns (path: seq<seq<nat>>)
    requires WellFormed(tr, emit) && |emit| > 0 && V.Length0 == |emit| && V.Length1 == |tr|
    modifies V
    ensures TableUpTo(V, tr, emit, 1)
    ensures PathsAt(path, tr, emit, 0)
  {
    path := [];
    for y := 0 to V.Length1
      invariant |path| == y
      invariant forall y' :: 0 <= y' < y ==> V[0, y'] == Row(tr, emit, 0)[y']
      invariant forall y' :: 0 <= y' < y ==> path[y'] == [y']
    {
      V[0, y] := Fin(emit[0][y]);
      RowAt(tr, emit, 0, y);
      path := path + [[y]];
    }
  }

  /** Time step `t >= 1`: row `t` of `V` from row `t - 1`, and the new paths,
      each the chosen predecessor's previous path with the state appended. */
  method Step(V: array2<Cost>, trans: array2<Cost>, ghost tr: seq<seq<Cost>>, emit: seq<seq<real>>,
              t: nat, path: seq<seq<nat>>) returns (newpath: seq<seq<nat>>)
    requires WellFormed(tr, emit) && 0 < t < |emit| && V != trans
    requires trans.Length0 == |tr| && trans.Length1 == |tr|
    requires forall i, j :: 0 <= i < |tr| && 0 <= j < |tr| ==> trans[i, j] == tr[i][j]
    requires TableUpTo(V, tr, emit, t) && PathsAt(path, tr, emit, t - 1)
    modifies V
    ensures TableUpTo(V, tr, emit, t + 1)
    ensures PathsAt(newpath, tr, emit, t)
  {
    ghost var prev, row := Row(tr, emit, t - 1), Row(tr, emit, t);
    ghost var done: seq<Cost> := [];
    newpath := [];
    for y := 0 to V.Length1
      invariant TableUpTo(V, tr, emit, t)
      invariant |done| == y && |newpath| == y
      invariant forall y' :: 0 <= y' < y ==> V[t, y'] == done[y']
      invariant forall y' :: 0 <= y' < y ==> done[y'] == row[y']
      invariant forall y' :: 0 <= y' < y ==> newpath[y'] == PathTo(tr, emit, t, y')
    {
      var minCost, minIndex := BestPredecessor(V, trans, tr, emit, t, y, prev);
      V[t, y] := minCost;
      done := done + [minCost];
      newpath := newpath + [path[minIndex] + [y]];
    }
  }

  /** The forward pass: the masked transition table, the full Viterbi table
      and the paths kept after the last step. */
  method Forward(dist: seq<seq<real>>, emit: seq<seq<real>>) returns (V: array2<Cost>, path: seq<seq<nat>>)
    requires Shaped(dist, emit) && |emit| > 0
    ensures fresh(V) && WellFormed(Masked(dist), emit)
    ensures TableUpTo(V, Masked(dist), emit, |emit|)
    ensures PathsAt(path, Masked(dist), emit, |emit| - 1)
  {
    ghost var tr := Masked(dist);
    ShapedMasked(dist, emit);
    var trans := DistanceTable(dist);
    MaskZeros(trans);
    assert forall i, j :: 0 <= i < |dist| && 0 <= j < |dist| ==> trans[i, j] == tr[i][j];
    V := new Cost[|emit|, |dist|];
    path := Initialise(V, tr, emit);
    for t := 1 to |emit|
      modifies V
      invariant TableUpTo(V, tr, emit, t) && PathsAt(path, tr, emit, t - 1)
    {
      path := Step(V, trans, tr, emit, t, path);
    }
  }

  /** `viterbiOld` as written, including the inputs on which it raises. */
  method ViterbiOld(dist: seq<seq<real>>, emit: seq<seq<real>>) returns (r: Result<seq<nat>, DecodeError>)
    requires Shaped(dist, emit)
    ensures r == OldOutcome(dist, emit)
  {
    if |emit| == 0 {
      return Failure(if |dist| == 0 then UnboundTimeStep else EmptyObservations);
    }
    var V, path := Forward(dist, emit);
    if |dist| == 0 {
      return Failure(EmptyStates);
    }
    var state := ArgMinRow(V, |emit| - 1);
    FirstMinUnique(Row(Masked(dist), emit, |emit| - 1), state);
    if |emit| == 1 {
      return Failure(UnboundCosts);
    }
    return Success(path[state]);
  }

  /** The decoder with the single-observation case answered as intended. */
  method Viterbi(dist: seq<seq<real>>, emit: seq<seq<real>>) returns (r: Result<seq<nat>, DecodeError>)
    requires Shaped(dist, emit)
    ensures r == Outcome(dist, emit)
  {
    if |emit| == 0 {
      return Failure(if |dist| == 0 then UnboundTimeStep else EmptyObservations);
    }
    var V, path := Forward(dist, emit);
    if |dist| == 0 {
      return Failure(EmptyStates);
    }
    var state := ArgMinRow(V, |emit| - 1);
    FirstMinUnique(Row(Masked(dist), emit, |emit| - 1), state);
    return Success(path[state]);
  }
}
