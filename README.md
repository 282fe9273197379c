# rustscanscore staff detection, modelled in Dafny

rustscanscore finds the staff lines of a music score in an edge mask. The
mask is a flat buffer of bytes, read column by column, `height` cells per
column. A cell value of 0 marks an edge. `detect_staves` scans the columns
from left to right and keeps a list of tracked lines, called staves. Each
staff carries a two-state Kalman filter (row and slope), its covariance and
its history of `(rows, column)` entries. In each column with edges it works
in four steps:

1. Every staff predicts where it will be in this column.
2. Every dark cell is matched to at most one staff. A staff qualifies when
   the cell centre is within 1.2 rows of its prediction. Among those, the
   staff seen most recently wins, then the one with the smallest signed
   slope, then the earliest one.
3. The cells matched to each staff are pushed into it. Each push is one
   Kalman predict/update step.
4. Every run of consecutive unmatched rows starts a new staff.

The project is organised as follows:

- `types.dfy` (`Types`) holds the 2x1 and 2x2 matrix shapes.
- `kalman.dfy` (`Kalman`) holds the matrix kernel and `predict`/`update`.
  The singular-matrix panic of `inv_2x2` becomes `Failure(SingularMatrix)`.
- `grouping.dfy` (`Grouping`) holds the two grouping helpers as methods with
  their loops.
  - Each is proved against a specification: the function `Runs`, or the
    predicate `IsGroupingOf`.
  - The library's stable `sort_by` is a stable insertion sort.
- `matching.dfy` (`Matching`) holds `match_position`. It is modelled as
  filter, stable sort, then first element. Its result is characterised
  completely.
- `tracking.dfy` (`Tracking`) holds `get_mean` and the class `Staff`, whose
  `push_pixels` updates its fields in place.
  - The class invariant says the Kalman state is always the replay of the
    buffer.
  - As a consequence, the covariance stays diagonal and non-negative, and
    `update` never fails.
- `scanner.dfy` (`Scanner`) states one column and the whole scan on values.
  - `NextBuffers` gives the buffers after one column. `ScanUpTo` gives the
    buffers after `n` columns.
  - The scan's invariants are proved on these: every dark cell of every
    scanned column is held by exactly one staff, histories only grow at the
    end, and staves are only appended.
  - A line seen on the same single row in every column is followed by one
    staff, with one entry per column (`Scanner.SingleLineScan`).
- `detection.dfy` (`Detection`) holds `detect_staves` itself, working on
  `Staff` objects.
  - Its methods are proved to produce exactly the buffers that `ScanUpTo`
    describes.
  - They also keep every staff valid and every object distinct.

Numbers are modelled as follows: `f32` is `real`, `usize` is `nat` and `u8`
is the newtype `Scanner.byte`. Rows are 1-based, as in the source. Columns
are 1-based, as the scan passes them to staves.

In three places the code does something other than the intent its
documentation describes. The model follows the code in all three:

- **Slope tie-break.** `match_position` breaks gap ties by the signed
  predicted slope, not by its magnitude: `Matching.SignedSlopeExample`
  shows a falling line beating a flatter rising one.
- **Measured slope.** `push_pixels` computes the measured slope as
  `x_mean - (last_x_mean / dy)`, because of operator precedence.
  `Tracking.SpeedPrecedence` shows this agrees with the change per column
  exactly when `dy = 1`, whenever the new mean row is not zero (a mean of
  1-based pixel centres never is).
- **Inverse layout.** `inv_2x2` also places its adjugate entries
  transposed. This does not matter for the symmetric matrices the tracker
  inverts (`Kalman.InvSymmetric`), and it does for others
  (`Kalman.InvAsymmetricExample`).

## Model

| member | source | states |
|---|---|---|
| Types.At | src/main.rs:3-10 | the 2x2 matrix type read as entries `(i, j)`, used by the kernel's index-wise contracts |
| Kalman.DotMV | src/kalman.rs:5-10 | each entry of `a·b` is row `i` of `a` times the vector |
| Kalman.Dot | src/kalman.rs:12-17 | entry `(i, j)` of `a·b` is row `i` of `a` times column `j` of `b` |
| Kalman.Transpose | src/kalman.rs:19-24 | entry `(i, j)` of the result is entry `(j, i)` of the input |
| Kalman.Add2x2 | src/kalman.rs:26-28 | entry-wise sum |
| Kalman.Add2x1 | src/kalman.rs:30-32 | entry-wise sum |
| Kalman.Sub2x1 | src/kalman.rs:34-36 | entry-wise difference |
| Kalman.Sub2x2 | src/kalman.rs:38-40 | entry-wise difference |
| Kalman.Inv2x2 | src/kalman.rs:42-51 | fails exactly when the determinant is zero; otherwise the transpose of the result is a two-sided inverse |
| Kalman.Predict | src/kalman.rs:59-67 | state `a·x`; the covariance's off-diagonal is zero and its diagonal holds the quadratic forms of `p` in the rows of `a` |
| Kalman.Update | src/kalman.rs:76-109 | fails exactly when `h·p·hᵀ + r` is singular |
| Kalman.Det | src/kalman.rs:43 | the determinant `inv_2x2` tests: the product of the diagonal for a triangular matrix, unchanged by transposition |
| Kalman.Innovation | src/kalman.rs:78-85 | the matrix `update` inverts, `h·p·hᵀ + r`, is symmetric whenever `p` and `r` are |
| Kalman.TransposeExample | src/kalman.rs:116-127 | the source's transpose test vector |
| Kalman.TransposeInvolution | src/kalman.rs:19-24 | transposing twice gives the input back |
| Kalman.DotExamples | src/kalman.rs:129-161 | the source's two product test vectors |
| Kalman.DotIdentity | src/kalman.rs:5-17 | the identity is neutral for both products |
| Kalman.AddSubExamples | src/kalman.rs:163-228 | the source's four sum and difference test vectors |
| Kalman.SubUndoesAdd | src/kalman.rs:26-40 | subtraction undoes addition, for both shapes |
| Kalman.InvSingularExample | src/kalman.rs:230-238 | `[[1,1],[2,2]]` makes `inv_2x2` fail, as the should-panic test expects |
| Kalman.InvSymmetric | src/kalman.rs:42-51 | for a symmetric non-singular matrix the result is a true two-sided inverse |
| Kalman.InvAsymmetricExample | src/kalman.rs:47-50 | for `[[1,2],[3,4]]` the product with the result is not the identity |
| Kalman.PredictExample | src/kalman.rs:241-264 | the source's predict test vector, including the off-diagonal terms that get dropped |
| Kalman.PredictKeepsDiagonalNonNeg | src/kalman.rs:59-67 | predict keeps a diagonal non-negative covariance diagonal and non-negative, for any transition |
| Kalman.InnovationWithIdentity | src/kalman.rs:77-85 | with `h = r = I` and a diagonal non-negative `p`, the inverted matrix is `diag(p00+1, p11+1)` with determinant at least 1 |
| Kalman.InvDiagonal | src/kalman.rs:42-51 | the inverse of a non-singular diagonal matrix is the diagonal of reciprocals |
| Kalman.GainWithIdentity | src/kalman.rs:77-87 | with `h = r = I`, the Kalman gain is `diag(q/(q+1))` of the variances |
| Kalman.GainEquation | src/kalman.rs:77-87 | for symmetric `p` and `r`, the gain `k = p·hᵀ·inv(s)` solves the defining equation `k·s = p·hᵀ` of the Kalman gain, despite the transposed inverse layout |
| Kalman.UpdateWithIdentity | src/kalman.rs:76-109 | closed form with `h = r = I`: each component moves towards its measurement by gain `q/(q+1)`, and each variance becomes `q/(q+1)`, which lies in `[0, 1)` |
| Kalman.StepKeepsDiagonalNonNeg | src/kalman.rs:59-109 | predict then update never fails and keeps the covariance diagonal and non-negative |
| Grouping.Runs | src/staves.rs:197-216 | the runs of consecutive values; empty exactly when the input is |
| Grouping.GroupByIncrementalValues | src/staves.rs:197-216 | the window loop returns exactly `Runs(v)` |
| Grouping.RunsFlatten | src/staves.rs:197-216 | concatenating the runs gives the input back |
| Grouping.RunsShape | src/staves.rs:204-213 | every run is non-empty and increases by one; neighbouring runs do not continue each other; the last run ends with the last value |
| Grouping.RunsGaps | src/staves.rs:204-213 | for a strictly increasing input, neighbouring runs are more than one apart |
| Grouping.RunsExamplePrefix | src/staves.rs:295-305 | the first half of the source's run test vector |
| Grouping.RunsExamples | src/staves.rs:295-323 | the source's three run tests: the vector, one value, and empty |
| Grouping.FlattenMembers | src/staves.rs:197-216 | a value is in the runs exactly when it is in one of them; runs of increasing input are disjoint |
| Grouping.SortByKeySortsStably | src/staves.rs:223-227 | the sort orders by key and keeps, for every key, its values in input order |
| Grouping.InsertByKey | src/staves.rs:223-227 | one insertion step of the stable sort by key: the result is the input plus the new element, as a multiset |
| Grouping.SortByKey | src/staves.rs:223-227 | `iter.sort_by` on the key: the result is a permutation of the input |
| Grouping.InsertByKeySorted | src/staves.rs:223-227 | one insertion step keeps the order and appends to its key's values |
| Grouping.GroupByEqualValue | src/staves.rs:218-246 | result keys strictly ascend; each key pairs with exactly its input values, in input order, never empty; every input key appears |
| Grouping.GroupingUnique | src/staves.rs:218-246 | `IsGroupingOf` admits one result only, so it determines the method's output |
| Grouping.GroupingOfEmpty | src/staves.rs:285-291 | an empty input gives an empty result |
| Grouping.GroupingExample1 | src/staves.rs:252-266 | the source's first grouping test vector |
| Grouping.GroupingExample2 | src/staves.rs:268-283 | the source's second grouping test vector |
| Matching.Candidates | src/staves.rs:172-179 | the candidates are the gated predictions with their own gap and bias, in index order |
| Matching.CandidatesComplete | src/staves.rs:175 | every gated prediction is a candidate |
| Matching.Sort | src/staves.rs:181-189 | `result.sort_by`: the result is a permutation of the candidates |
| Matching.SortSorted | src/staves.rs:181-189 | the stable sort returns a list ordered by `(gap, bias)` |
| Matching.SortHead | src/staves.rs:181-191 | the first element after the sort is the earliest least candidate |
| Matching.MatchPosition | src/staves.rs:171-195 | `None` exactly when no prediction is within 1.2 of the cell centre; otherwise a gated index that precedes every gated prediction, with no earlier gated one preceding it |
| Matching.MatchDetermined | src/staves.rs:171-195 | those properties allow one answer only |
| Matching.MatchIgnoresCloseness | src/staves.rs:175-178 | moving predicted rows without changing which are gated leaves the match unchanged |
| Matching.PixelCentreExample | src/staves.rs:325-336 | the source's pixel-centre test |
| Matching.ContinuityExample | src/staves.rs:338-347 | the source's continuity test |
| Matching.DistantStaffExample | src/staves.rs:350-359 | the source's distant-staff test |
| Matching.EqualKeysExample | src/staves.rs:360-374 | the source's equal-keys test, first order |
| Matching.EqualKeysSwappedExample | src/staves.rs:360-374 | the source's equal-keys test, swapped order |
| Matching.SignedSlopeExample | src/staves.rs:186-188 | the slope tie-break compares signed values |
| Tracking.Sum | src/staves.rs:104 | the sum of the rows: zero for no rows, and at least every single row |
| Tracking.Mean | src/staves.rs:99-109 | `None` exactly for an empty list; otherwise mean times count is the sum of the centres `x + 0.5` |
| Tracking.MeanBounds | src/staves.rs:99-109 | the mean lies between the centres of the lowest and the highest row |
| Tracking.MeanExamples | src/staves.rs:376-384 | the source's mean test vectors, plus the empty case |
| Tracking.Transition | src/staves.rs:47-50 | the transition `[[1, dy], [0, 1]]`; no gap gives the identity |
| Tracking.TransitionMoves | src/staves.rs:71-74 | the transition moves the row by `dy` times the slope and keeps the slope; its determinant is 1, and two gaps compose into their sum |
| Tracking.Speed | src/staves.rs:79-82 | the measured slope as the code computes it, `x_mean - last_x_mean / dy`; for neighbouring columns it is the change of the mean row |
| Tracking.SpeedPrecedence | src/staves.rs:79-82 | for a non-zero new mean, the measured slope as written equals the change per column `(x_mean - last_x_mean) / dy` exactly when `dy = 1` |
| Tracking.Absorbed | src/staves.rs:62-97 | from a diagonal non-negative covariance, `push_pixels`'s update cannot fail and the covariance stays diagonal and non-negative |
| Tracking.SteadyLineStaysPut | src/staves.rs:62-97 | a line at rest seen again on its row in the next column keeps its state |
| Tracking.PredictAt | src/staves.rs:44-60 | the prediction comes from the last column, its row is extrapolated along the slope, and its bias is the slope |
| Tracking.Replay | src/staves.rs:17-32 | the state after a history is the creation state absorbed through every later entry; its covariance is diagonal and non-negative |
| Tracking.HistoryAppend | src/staves.rs:95 | appending a later entry keeps a history well formed and its prefix intact |
| Tracking.Staff.constructor | src/staves.rs:17-32 | buffer of one entry, state `(mean, 0)`, identity covariance, valid |
| Tracking.Staff.GetPrediction | src/staves.rs:44-60 | a prediction from the last buffered column, extrapolated along the state's slope |
| Tracking.Staff.PushPixels | src/staves.rs:62-97 | appends the entry, installs the absorbed state and stays valid |
| Scanner.EdgeRows | src/staves.rs:118-123 | the 1-based rows of the zero cells, strictly ascending, and no others |
| Scanner.PredictionOf | src/staves.rs:44-60 | the prediction of a staff with a given history comes from its last column, with the slope of the state replayed from that history |
| Scanner.StatePredictions | src/staves.rs:129-132 | one prediction per staff, in staff order, each that staff's own |
| Scanner.Matches | src/staves.rs:134-140 | one match per dark cell: none exactly when no prediction gates the cell, otherwise an existing staff whose prediction gates it |
| Scanner.MatchesOf | src/staves.rs:129-140 | the matches taken from the predictions of all staves before the column changes anything, one per cell |
| Scanner.MatchedPairs | src/staves.rs:142-146 | the `(cell, staff)` pairs of the matched cells; together with the unmatched cells they account for every cell |
| Scanner.Unmatched | src/staves.rs:154-159 | the unmatched cells, never more than the cells of the column |
| Scanner.Absorb | src/staves.rs:148-150 | every old entry is kept, and a staff gains exactly one entry exactly when some cell was matched to it |
| Scanner.Spawn | src/staves.rs:161-163 | one new staff per run of unmatched cells |
| Scanner.SpawnStarts | src/staves.rs:161-163 | every new staff holds one well-formed entry, for this column, holding its run |
| Scanner.NextBuffers | src/staves.rs:129-163 | one column keeps every staff and adds at most one new staff per dark cell |
| Scanner.MatchedValues | src/staves.rs:142-146 | the cells matched to staff `i` are exactly the cells whose match is `i` |
| Scanner.UnmatchedMembers | src/staves.rs:154-159 | the unmatched cells are exactly those without a match, and stay ascending |
| Scanner.MatchedKeysBound | src/staves.rs:148-149 | every staff index a cell is matched to exists |
| Scanner.NextBuffersReady | src/staves.rs:148-163 | after a column every history is well formed and ends no later than that column |
| Scanner.NextBuffersAppendOnly | src/staves.rs:148-163 | a column keeps every old staff, each gains at most one entry, for this column, and every new staff holds a single entry for this column |
| Scanner.NextBuffersOwnership | src/staves.rs:134-163 | each dark cell of the column ends up in the new entry of exactly one staff, and no other cell does |
| Scanner.ScanUpTo | src/staves.rs:113-169 | the buffers after `n` columns are ready for column `n + 1` |
| Scanner.EmptyColumnChangesNothing | src/staves.rs:125 | a column without dark cells is skipped |
| Scanner.OwnershipAtColumn | src/staves.rs:113-169 | ownership holds for the column just scanned |
| Scanner.ScanOwnership | src/staves.rs:113-169 | for every scanned column, a cell is held for it by some staff exactly when it is dark there, and then by exactly one staff |
| Scanner.ScanGrows | src/staves.rs:113-169 | between two points of the scan, staves are only appended and histories only extended at their end |
| Scanner.SteadyReplay | src/staves.rs:17-32 | a line seen on one row in every column from the first stays at rest on the centre of that row |
| Scanner.SteadyStep | src/staves.rs:129-163 | a column holding only the row of a steady line extends that line by one entry and starts no staff |
| Scanner.FirstColumn | src/staves.rs:161-163 | with no staves yet, one dark cell starts exactly one staff |
| Scanner.SingleLineScan | src/staves.rs:113-169 | when each of the first `n` columns has one dark cell, always on the same row, the scan holds exactly one staff, with one entry per column |
| Scanner.TenColumnLine | src/staves.rs:113-169 | ten columns with the same single dark cell give one staff with ten entries |
| Detection.Chunks | src/staves.rs:116 | each column holds between 1 and `height` cells |
| Detection.ChunksCover | src/staves.rs:116 | the columns put back together give the buffer, and all but the last hold exactly `height` cells |
| Detection.ChunksExample | src/staves.rs:116 | a buffer cut into two full columns, and one whose last column is short |
| Detection.Predictions | src/staves.rs:129-132 | one prediction per staff, that staff's own prediction |
| Detection.PredictionsAgree | src/staves.rs:129-132 | the objects' predictions are the predictions of their buffers |
| Detection.PushOne | src/staves.rs:149 | `staves[s].push_pixels(xs, y)`: only staff `s` gains the entry `(xs, y)`, every staff stays valid and distinct |
| Detection.PushGroups | src/staves.rs:148-150 | pushes each group into its staff in place; the buffers become `Absorb` of the old ones, and every staff stays valid |
| Detection.StartStaff | src/staves.rs:162 | `staves.push(Staff::new(xs, y))`: one fresh staff holding `(xs, y)` is appended, the others stay |
| Detection.NewStaves | src/staves.rs:161-163 | one fresh, valid staff per run, holding that run |
| Detection.AbsorbColumn | src/staves.rs:129-150 | predicts every staff before any push, matches every cell and pushes the groups in place; the buffers become `Absorb` of the old ones with the matches of the old buffers |
| Detection.ScanColumn | src/staves.rs:127-163 | staves are updated in place and new ones appended; the buffers become `NextBuffers` of the old ones |
| Detection.SpawnColumn | src/staves.rs:154-163 | appends one fresh, valid staff per run of the unmatched cells and keeps the existing staves in place |
| Detection.ScanNth | src/staves.rs:116-127 | a column without dark cells leaves the staves alone; either way the buffers become `ScanUpTo` of one more column |
| Detection.ScanDarkColumn | src/staves.rs:125-163 | a column with dark cells, scanned as column `n + 1`, extends the scan by one column |
| Detection.DetectStaves | src/staves.rs:113-169 | returns fresh, valid, distinct staves whose buffers are `ScanUpTo` of all columns |

## Left out

- Floating point: `f32` is modelled as exact `real`. Rounding, NaN and the
  `partial_cmp(...).unwrap_or(Equal)` fallback for NaN keys are not
  modelled. With real keys every comparison is defined.
- `Tracking.Staff.PushPixels`: requires the new column to come after the
  last buffered one. The source has no such check, and `dy = 0` would give
  an infinite slope in `f32`. The scan always meets this requirement
  (`Scanner.NextBuffersReady`).
- `Tracking.Staff.PushPixels`: the `unwrap_or(&default)` fallback for an
  empty buffer is not modelled. A valid staff's buffer is never empty.
- `Tracking.Staff.GetPrediction`: requires a non-empty buffer, where the
  source panics in `unwrap`. A valid staff never has an empty buffer.
- `Tracking.Absorbed`: the Rust code would panic if `update` failed. The
  model proves this cannot happen under the staff invariant, so the panic
  path is not modelled.
- `Detection.DetectStaves`: requires `height > 0`, because `chunks(0)`
  panics.
- `Grouping.GroupByIncrementalValues`: `next - current` is computed on
  unbounded naturals. The possible `usize` underflow of the source cannot
  occur, because the scan only passes ascending rows.
- `Matching.Sort` and `Grouping.SortByKey` model the library's stable
  `sort_by` as insertion sorts. The standard library sort is not part of
  this model; only its stability and ordering matter.
- `src/main.rs` (`main`) and `src/simulator.rs` are the program's entry
  point and test-image generator. They do I/O and are not part of this
  model.
