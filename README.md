# Unit selection by Viterbi decoding, in Dafny

PyConcat's concatenative synthesiser picks corpus frames (units) to imitate a target sound. Its `UnitSelection.py` offers two ways to choose them.

- **`viterbiOld`** treats corpus frames as the states of a hidden Markov model and target frames as its observations. Costs are distances, not probabilities.
  - Moving from corpus frame `y0` to `y` costs their distance. A zero distance means staying on the same frame, and it is masked to infinity.
  - Explaining target frame `t` by corpus frame `y` costs their distance.
  - The decoder fills the table `V[t][y]`, the least cost of explaining targets `0..t` and ending in `y`. It keeps one path per state and returns the path of the cheapest final state.
- **`linearSearch`** picks, independently for every target frame, the corpus frame at the least distance.

The model takes the distance matrices as inputs:
- `dist` is S x S and holds the corpus-to-corpus distances;
- `emit` is T x S and holds the target-to-corpus distances.

Costs are exact reals with an explicit infinity (`Costs.Cost`). Adding infinity gives infinity, and ties are broken towards the lowest index, as `np.argmin` and the tuple minimum do.

The project has four modules:

- `Costs` (costs.dfy) defines the cost type, addition and order, and the first-minimum scan `FirstMin` with its characterisation.
- `Trellis` (trellis.dfy) is the decoder as functions on values:
  - the masked transition table;
  - the candidate list `costs`;
  - the table rows `Row` and the chosen predecessor `Pred`;
  - the kept paths `PathTo` and the cost of any state sequence `PathCost`;
  - the final choice `BestPath`.
  
  Its lemmas prove that the table holds optimal costs, that the kept paths attain them, and that the decoded path is a cheapest state sequence.
- `Search` (search.dfy) models `linearSearch` on a given cost matrix.
- `Viterbi` (viterbi.dfy) is the decoder as it runs:
  - it masks the transition table in place in an `array2`;
  - it fills `V` (an `array2`) one time step at a time;
  - it rebuilds the list of paths at every step.
  
  `DistanceTable` builds the distance table as an array, and every other method is proved to compute the corresponding function of `Trellis` or `Viterbi`. The module also gives the decoder's outcome on every input, including the inputs on which it raises.

## Model

| member | source | states |
|---|---|---|
| Costs.Add | UnitSelection.py:64 | The sum is finite exactly when both terms are finite, and is then their real sum; infinity absorbs. |
| Costs.FirstMinIsFirst | UnitSelection.py:66-67 | The scan's index holds a minimum entry, and every earlier entry is strictly larger (the first minimum `np.argmin` reports). |
| Costs.FirstMinUnique | UnitSelection.py:67 | Any index that is a minimum with only strictly larger entries before it is the scan's index. |
| Trellis.Masked | UnitSelection.py:47-48 | The transition table has the shape of the distances; an entry is infinite exactly when the distance is zero, and otherwise equals the distance. |
| Trellis.SelfTransitionsForbidden | UnitSelection.py:47-48 | Over a self-distance matrix (zero diagonal), every self-transition is infinite. |
| Trellis.CandidatesAt | UnitSelection.py:64 | Entry `y0` of a partial candidate list is `V[t-1][y0] + trans[y][y0] + emit[t][y]`. |
| Trellis.StepCostsAt | UnitSelection.py:64 | Entry `y0` of the list `costs` for state `y` at time `t` is the cost through predecessor `y0`. |
| Trellis.RowUpToAt | UnitSelection.py:69 | Entry `y` of a partial table row is the table entry for `(t, y)`. |
| Trellis.RowAt | UnitSelection.py:54-69 | `V[t][y]` is `emit[0][y]` at time 0 and the least candidate of `costs` afterwards. |
| Trellis.Pred | UnitSelection.py:67 | The recorded predecessor is a state. |
| Trellis.PredAttains | UnitSelection.py:64-69 | `V[t][y]` equals the candidate through the recorded predecessor. |
| Trellis.PathTo | UnitSelection.py:56-74 | The path kept for `y` after step `t` has `t+1` states, all in range, and ends in `y`. |
| Trellis.PrefixCostAgrees | UnitSelection.py:64 | Two state sequences that agree up to time `t` have the same cost up to `t`. |
| Trellis.PathToCost | UnitSelection.py:54-74 | The path kept for `y` after step `t` costs exactly `V[t][y]`. |
| Trellis.RowIsLowerBound | UnitSelection.py:54-74 | No state sequence ending in `y` at time `t` costs less than `V[t][y]`. |
| Trellis.RowIsOptimal | UnitSelection.py:54-74 | `V[t][y]` is the least cost of any sequence of `t+1` states that ends in `y`, and the kept path attains it. |
| Trellis.FinalState | UnitSelection.py:76-80 | The chosen final state is a state. |
| Trellis.BestPath | UnitSelection.py:80-85 | The decoded sequence has one state per observation, each in range. |
| Trellis.BestPathCost | UnitSelection.py:80-85 | The decoded sequence costs the least entry of the last table row. |
| Trellis.BestPathIsOptimal | UnitSelection.py:40-85 | No state sequence of the same length costs less than the decoded one. |
| Trellis.FiniteCostSteps | UnitSelection.py:48-64 | A prefix has finite cost if and only if every transition in it is finite. |
| Trellis.FiniteCostMoves | UnitSelection.py:47-64 | Over a self-distance matrix, a sequence of finite cost never repeats a corpus frame on consecutive observations. |
| Trellis.FiniteBestPathMoves | UnitSelection.py:47-85 | If the decoded sequence has finite cost, it never repeats a corpus frame on consecutive observations. |
| Trellis.FiniteDecodingExists | UnitSelection.py:47-85 | If any two corpus frames `a`, `b` are at a nonzero distance (both ways), the decoded sequence has finite cost, so by `FiniteBestPathMoves` it never repeats a frame. |
| Search.Nearest | UnitSelection.py:15-17 | The frame chosen for one target row is at the least distance in that row. |
| Search.NearestTiesCostAlike | UnitSelection.py:15-17 | Any two nearest frames are equally distant, so the choice among ties does not change the cost. |
| Search.LinearSearch | UnitSelection.py:5-23 | With an empty corpus the search fails. Otherwise it yields one frame per target row, each in range and at the least distance in its row. |
| Viterbi.ShapedMasked | UnitSelection.py:47-49 | Masking square distances gives a well-formed trellis. |
| Viterbi.OldOutcome | UnitSelection.py:40-85 | The decoder as written succeeds exactly when there are at least two observations and one state, and then yields one state per observation, each in range. |
| Viterbi.Outcome | UnitSelection.py:76-85 | The intended decoder succeeds exactly when there is at least one observation and one state, with the same shape guarantee. |
| Viterbi.OutcomesAgree | UnitSelection.py:76-83 | The two outcomes agree exactly when the input is not a single observation over a non-empty corpus. |
| Viterbi.SingleObservationFails | UnitSelection.py:76-83 | As written, a single observation over a non-empty corpus always fails with the unbound `costs`. |
| Viterbi.SingleObservationExample | UnitSelection.py:76-85 | One corpus frame and one target frame: the decoder as written fails, while the intended one answers `[0]`. |
| Viterbi.SingleObservationNearest | UnitSelection.py:76-80 | With one observation, the intended decoder answers the nearest corpus frame of lowest index, the frame the model's `LinearSearch` picks. |
| Viterbi.SingleFrameCorpus | UnitSelection.py:47-85 | With one corpus frame and two or more observations, the decoder returns frame 0 throughout, although that path costs infinity. |
| Viterbi.IdenticalFramesRepeat | UnitSelection.py:47-85 | Two identical corpus frames (all distances zero) and two observations: the decoder as written answers `[0, 0]`, repeating a frame. |
| Viterbi.ExampleTransitions | UnitSelection.py:47-48 | On the worked example, masking forbids exactly the three self-transitions. |
| Viterbi.ExampleFirstRow | UnitSelection.py:54-56 | On the worked example, the first table row is the first emission row. |
| Viterbi.ExampleCandidates | UnitSelection.py:64 | On the worked example, these are the candidate lists at the second target frame. |
| Viterbi.ExampleSecondRow | UnitSelection.py:63-69 | On the worked example, this is the second table row, and frame 1 comes from frame 0. |
| Viterbi.WorkedExample | UnitSelection.py:40-85 | Corpus frames at 0, 10 and 20 and targets at 1 and 11: the decoder answers `[0, 1]`. |
| Viterbi.DistanceTable | UnitSelection.py:47 | A fresh S x S table holding the distances as finite costs. |
| Viterbi.MaskZeros | UnitSelection.py:48 | In place, every zero entry becomes infinity and every other entry keeps its value. |
| Viterbi.ArgMinRow | UnitSelection.py:80 | The returned state holds a minimum of row `n`, and every earlier state's entry is strictly larger (tuple minimum over `(V[n][y], y)`). |
| Viterbi.BestPredecessor | UnitSelection.py:63-67 | The scan over predecessors returns `Row(t)[y]` and `Pred(t, y)`: the least candidate and the first predecessor attaining it. |
| Viterbi.Initialise | UnitSelection.py:51-56 | Row 0 of `V` becomes `emit[0]`, and the path of each state is that state alone. |
| Viterbi.Step | UnitSelection.py:59-74 | Row `t` of `V` becomes `Row(t)` with the earlier rows kept, and the new paths are `PathTo(t, y)`. |
| Viterbi.Forward | UnitSelection.py:47-74 | The full table is filled with `Row(0..T-1)`, and the paths after the last step are `PathTo(T-1, y)`. |
| Viterbi.ViterbiOld | UnitSelection.py:40-85 | The decoder as written returns `OldOutcome`: the decoded best path, or the error the source raises. |
| Viterbi.Viterbi | UnitSelection.py:40-85 | The decoder without the dead lines returns `Outcome`. |

## Left out

- The distance computation (`distance.cdist`, lines 12 and 47-49) is not modelled. The model takes the resulting matrices as inputs, and its failures on mismatched or empty feature sets are not modelled.
- `kdTree` and `unitSelection` (with its normalisation) are not part of this model.
- Costs are exact reals: floating-point rounding of the Euclidean distances and of their sums is not modelled. The only non-finite value is the infinity produced by masking.
- Lines 82-83 recompute the minimum of the last `costs` list and discard it. When there are at least two observations they change nothing, so the model has no counterpart for them. Their effect on a single observation is the finding below.
- The source keeps `path` as a dictionary and `V` as a list of dictionaries and lists. The model keeps a sequence of paths and a two-dimensional array.
- At time 0 the source stores `path[y] = y`, a number, where the model stores the one-element path `[y]`. The two agree once `np.append` has extended them. The corrected single-observation answer `[state]` stands for the number `state` the source would return.
- Search.LinearSearch: `np.argsort` does not guarantee which of several equal minima comes first. The model picks the lowest index, but its contract claims only that the chosen frame is a nearest one.
- With a single corpus frame and two or more observations, every transition is infinite. The code does not report that no finite path exists; it returns frame 0 throughout. The model follows the code (`Viterbi.SingleFrameCorpus`).
- With no observations the code raises an index error, or a name error when the corpus is empty too. The model keeps these two cases apart (`EmptyObservations`, `UnboundTimeStep`).
- Repeated frames: the no-repeat promise (`Trellis.FiniteBestPathMoves`) holds only when the decoded path has finite cost. `Trellis.FiniteDecodingExists` proves that cost finite whenever some pair of corpus frames is at a nonzero distance. Without such a pair the decoder can repeat a frame: with two identical corpus frames (`dist = [[0, 0], [0, 0]]`) and two observations, every path costs infinity and the answer is `[0, 0]` (`Viterbi.IdenticalFramesRepeat`).

## Findings

| source | as written | input that shows it | evidently intended | confidence | as-written member | corrected member |
|---|---|---|---|---|---|---|
| UnitSelection.py:76-83 | With a single observation the time loop never runs. `costs` is unbound when line 82 reads it, so the decoder raises instead of returning. | `dist = [[0.0]]`, `emit = [[1.0]]` (one corpus frame, one target frame) | Line 76's comment: the answer comes from the initialisation values, that is, the nearest corpus frame. | not executed | Viterbi.SingleObservationExample | Viterbi.SingleObservationNearest |

The decoder as written is `Viterbi.ViterbiOld`, specified by `Viterbi.OldOutcome`. The corrected decoder is `Viterbi.Viterbi`, specified by `Viterbi.Outcome`. It drops lines 82-83 and is otherwise identical (`Viterbi.OutcomesAgree`).
