# Diffraction-vector utilities and peak markers, modelled in Dafny

This project models two small pieces of a 4D-STEM analysis stack.

**pyxem.** `pyxem/utils/vector_utils.py` handles diffraction vectors: the peaks
found in one diffraction pattern, each a row of calibrated reciprocal-space
coordinates. The model covers:
- the magnitude and detector-edge filters;
- per-row norms and peak counts;
- in-place row normalisation;
- the scalar and row-wise angle between vectors;
- nearest-vector matching against a basis, with an optional distance limit;
- the detector-to-Ewald-sphere mapping;
- the degenerate-plane handling and identity selection of the first stage (R1) of the
  rotation solver.

**pixstem.** `pixstem/marker_tools.py` turns a scan grid of ragged peak lists into
HyperSpy point markers and stores them in a signal's metadata.

The model uses exact reals. `sqrt`, `arccos` and π are supplied as function values in
`Numerics.Maths`, and the predicates `SqrtLaw` and `ArccosLaw` state the facts the
proofs use about them. A NaN row is `None`, and so is a NaN k_z column of the
detector mapping, whose leading columns are kept.

Code that mutates its argument is modelled imperatively:
- the edge filter's `z`, `normalize_or_zero`'s `v`, `plane_normal_to` and the marker
  buffers are arrays that methods update under `modifies`;
- the metadata `Markers` node is a field of a `Signal` object;
- each such method is tied by its postcondition to a specification function;
- the properties are lemmas about that function.

Files:
- `numerics.dfy`: vectors, norms, cross products, closeness tests, and the supplied
  mathematical functions.
- `vector_utils.dfy`: the pyxem utilities.
- `marker_tools.dfy`: the pixstem marker tools.
- `scenarios.dfy`: concrete cases, proved on the diffraction-vector fixture of the
  repository's tests.

### Where the code decides

**R1 identity.** The common rotation axis is computed from the to-plane normal *before*
the degenerate normal is replaced. It is normalised before the closeness test at
vector_utils.py:202, and a nonzero unit vector never passes that test, so R1 is the
identity exactly when the unnormalised common axis is zero.
- `PlaneRotationIdentityIff` proves this.
- `NearlyDegeneratePairGetsRotation` shows a to-plane whose normal is near zero, and is
  replaced, but which still gets an axis-angle R1.
- One might expect every near-zero common axis to give the identity; the code gives it
  only when the axis is exactly zero, and the model follows the code.

**Edge threshold 0.26.** With both edge thresholds at 0.26, the code's strict `>`
comparison puts two rows of the fixture's cell (0, 1) beyond the edge, namely those
with y = 0.292971 and 0.277027. `Scenarios.EdgeThresholdSplitsFixtureCell` proves
this.

## Model

| member | source | states |
|---|---|---|
| VectorUtils.Select | pyxem/utils/vector_utils.py:124 | boolean-mask selection: at most as many rows as the input, each one of the input rows (order and exact contents: `SelectAtTrueIndices`) |
| VectorUtils.TrueIndices | pyxem/utils/vector_utils.py:124 | `np.where` of a mask: strictly increasing indices, each in range and set, and every set index occurs |
| VectorUtils.SelectAtTrueIndices | pyxem/utils/vector_utils.py:124 | boolean-mask selection returns one row per set mask entry, row k being the row at the k-th set index, so order is kept |
| VectorUtils.SelectMembership | pyxem/utils/vector_utils.py:124 | a row is in a selection iff some set position of the mask holds it |
| VectorUtils.SelectCongruent | pyxem/utils/vector_utils.py:148 | selections agree when the masks agree and the rows agree wherever the mask is set, whatever the unselected rows are |
| VectorUtils.SelectWhere | pyxem/utils/vector_utils.py:124 | the selection loop returns the mask selection |
| VectorUtils.GetNpeaks | pyxem/utils/vector_utils.py:264 | the number of peaks, zero exactly for an empty list |
| VectorUtils.NpeaksOfSelection | pyxem/utils/vector_utils.py:251-264 | `get_npeaks` of a filtered list is the number of set mask entries |
| VectorUtils.DetectorToFourier | pyxem/utils/vector_utils.py:57-61 | one output row per detector row, whose leading columns are always that detector row |
| VectorUtils.DetectorToFourierRows | pyxem/utils/vector_utils.py:57-61 | the leading columns of row i are `kxy[i]`; its k_z is NaN iff the squared length exceeds 1/λ², and otherwise k_z is the non-negative root, k_z + 1/λ ≥ 0, placing (kx, ky, k_z) on the Ewald sphere of radius 1/λ centred at (0, 0, −1/λ) |
| VectorUtils.DetectorOriginMapsToOrigin | pyxem/utils/vector_utils.py:57-61 | for λ > 0 a detector origin row maps to the reciprocal-space origin, k_z = 0 |
| VectorUtils.DetectorRowOutsideSphereKeepsColumns | pyxem/utils/vector_utils.py:57-61 | with λ = 1 the row (2, 0) maps to (2, 0, NaN): only k_z is NaN |
| VectorUtils.DetectorToFourierIgnoresCameraLength | pyxem/utils/vector_utils.py:25-61 | the result does not depend on the camera length |
| VectorUtils.CalculateNorms | pyxem/utils/vector_utils.py:77 | one norm per row (sign and zeros: `CalculateNormsMeaning`) |
| VectorUtils.CalculateNormsMeaning | pyxem/utils/vector_utils.py:64-77 | one norm per row, never negative, and zero exactly for the zero rows |
| VectorUtils.CalculateNormsRagged | pyxem/utils/vector_utils.py:94-97 | the appending loop returns the row norms of `calculate_norms` |
| VectorUtils.ZeroOutOfRange | pyxem/utils/vector_utils.py:122-123 | in place, each norm below the minimum and then above the maximum becomes 0, others unchanged |
| VectorUtils.FilterVectorsRagged | pyxem/utils/vector_utils.py:117-126 | the filter returns the selection of the input rows by the magnitude mask; the input is a value and is not changed |
| VectorUtils.MagnitudeMaskMeaning | pyxem/utils/vector_utils.py:117-126 | a row is kept iff min ≤ norm ≤ max and the row is not zero |
| VectorUtils.MagnitudeFilterDropsZeroRows | pyxem/utils/vector_utils.py:122-124 | no zero row is ever returned, whatever the bounds |
| VectorUtils.UnboundedMagnitudeFilterKeepsNonzero | pyxem/utils/vector_utils.py:122-124 | with bounds admitting every norm, exactly the nonzero rows are kept |
| VectorUtils.ZeroRowsBeyond | pyxem/utils/vector_utils.py:146-147 | in place, each row whose coordinate in the column exceeds the threshold in magnitude becomes a zero row, others unchanged |
| VectorUtils.FilterVectorsEdgeRagged | pyxem/utils/vector_utils.py:146-148 | the argument ends up with every row beyond either threshold zeroed, others unchanged, and the result is its rows with nonzero x, in order |
| VectorUtils.EdgeFilterSelectsOriginalRows | pyxem/utils/vector_utils.py:146-148 | the edge filter returns, unchanged and in order, the original rows within both thresholds whose x is nonzero |
| VectorUtils.EdgeFilterDropsInBoundsRowOnYAxis | pyxem/utils/vector_utils.py:148 | an in-bounds row with x = 0 is dropped |
| VectorUtils.NormalizeOrZero | pyxem/utils/vector_utils.py:161-164 | in place, every row becomes its normalised form: divided by its norm when positive, else unchanged |
| VectorUtils.NormalizedMeaning | pyxem/utils/vector_utils.py:161-164 | a zero row is left unchanged; every other row comes out with unit norm |
| VectorUtils.NormalizedIdempotent | pyxem/utils/vector_utils.py:161-164 | normalising a row twice gives what normalising once gives |
| VectorUtils.NormalizedRowsIdempotent | pyxem/utils/vector_utils.py:161-164 | a second `normalize_or_zero` over the rows changes nothing |
| VectorUtils.Clamp | pyxem/utils/vector_utils.py:316 | the clamp lands in [−1, 1] and is the identity there |
| VectorUtils.GetAngleCartesian | pyxem/utils/vector_utils.py:313-316 | the scalar angle lies in [0, π] |
| VectorUtils.AngleSymmetric | pyxem/utils/vector_utils.py:313-316 | the angle of a with b equals the angle of b with a |
| VectorUtils.AngleWithZeroVector | pyxem/utils/vector_utils.py:313-315 | the angle is 0.0 when either vector is zero |
| VectorUtils.CosineExtremes | pyxem/utils/vector_utils.py:316 | a ratio of exactly 1 gives angle 0, exactly −1 gives π |
| VectorUtils.AngleOfCosine | pyxem/utils/vector_utils.py:313-316 | for nonzero vectors, a dot product equal to the norm product gives 0 and its negation gives π |
| VectorUtils.AngleWithItself | pyxem/utils/vector_utils.py:313-316 | every vector makes angle 0 with itself |
| VectorUtils.AngleWithNegation | pyxem/utils/vector_utils.py:313-316 | a nonzero vector makes angle π with its negation |
| VectorUtils.GetAngleCartesianVec | pyxem/utils/vector_utils.py:282-297 | ValueError exactly when the shapes differ; otherwise one angle per row, equal to the scalar angle of that row pair (0 where the norm product is 0) |
| VectorUtils.ArgMin | pyxem/utils/vector_utils.py:344 | `np.argmin`: an index of a minimal entry, the first such |
| VectorUtils.ClosestVector | pyxem/utils/vector_utils.py:343-345 | the scan over the distance column returns the first minimal index and its distance |
| VectorUtils.ClosestIndices | pyxem/utils/vector_utils.py:343-345 | one closest index, in range, and its minimal distance per basis vector |
| VectorUtils.MaskBeyond | pyxem/utils/vector_utils.py:347-351 | in place, rows whose minimal distance exceeds the limit become NaN, others unchanged |
| VectorUtils.Match | pyxem/utils/vector_utils.py:343-351 | the row for one basis vector is NaN or one of the input vectors, and never NaN without a limit (minimality: `MatchMeaning`) |
| VectorUtils.FilterVectorsNearBasis | pyxem/utils/vector_utils.py:339-352 | one row per basis vector: all NaN for an empty vector list, otherwise the gated first closest vector |
| VectorUtils.MatchMeaning | pyxem/utils/vector_utils.py:343-351 | a row is NaN iff a limit is given and every vector lies beyond it; otherwise it is an input vector at minimal distance, and no earlier vector is as close |
| VectorUtils.ZeroLimitMatchesOnlyCoincidences | pyxem/utils/vector_utils.py:347-351 | with limit 0, a basis vector that no input vector equals gets NaN |
| VectorUtils.SubstitutedNormal | pyxem/utils/vector_utils.py:192-195 | the to-plane normal after both substitutions is a 3-vector |
| VectorUtils.ReplaceDegenerate | pyxem/utils/vector_utils.py:192-195 | in place, normals with near-zero absolute sum take the replacement row, others unchanged |
| VectorUtils.PlaneAxes | pyxem/utils/vector_utils.py:186-199 | the normalised to-normals after substitution, and normalised common axes from the unsubstituted normals |
| VectorUtils.AssembleR1 | pyxem/utils/vector_utils.py:202-216 | one R1 per entry: the identity where the axis is near zero, else the axis-angle rotation |
| VectorUtils.PlaneRotationStage | pyxem/utils/vector_utils.py:186-216 | the to-normals and the R1 of every target pair, as the per-pair specification gives them |
| VectorUtils.CrossWithZero | pyxem/utils/vector_utils.py:188 | a cross product with the zero vector is zero |
| VectorUtils.PlaneRotationIdentityIff | pyxem/utils/vector_utils.py:186-216 | R1 is the identity iff the cross product of the from-normal and the unsubstituted to-normal is exactly zero |
| VectorUtils.ZeroToNormalGetsIdentity | pyxem/utils/vector_utils.py:186-216 | a degenerate to-pair with zero normal gets R1 = identity, despite the substitution |
| VectorUtils.CollinearPairSubstitutedButIdentity | pyxem/utils/vector_utils.py:186-216 | a collinear to-pair has its normal replaced by from_v1 × to_v1 = (0, 0, −1) and still gets R1 = identity |
| VectorUtils.NearlyDegeneratePairGetsRotation | pyxem/utils/vector_utils.py:192-216 | a to-pair with near-zero but nonzero normal is substituted, yet gets an axis-angle R1 |
| Numerics.NormZeroIff | pyxem/utils/vector_utils.py:77 | a norm is never negative and is zero exactly for the zero vector |
| Numerics.DivByNormIsUnit | pyxem/utils/vector_utils.py:164 | a nonzero row divided by its norm has unit squared norm |
| Numerics.AbsSumZeroIff | pyxem/utils/vector_utils.py:192 | the summed absolute components are zero exactly for the zero vector |
| Numerics.UnitNotCloseToZero | pyxem/utils/vector_utils.py:202 | a unit vector's absolute sum is at least 1, so it never passes the near-zero test |
| MarkerTools.Trunc | pixstem/marker_tools.py:43-46 | `int()` truncates toward zero: within 1 of the argument, on the same side of zero, never overshooting it |
| MarkerTools.MaxOfRow | pixstem/marker_tools.py:28-34 | the most peaks in a grid row: an upper bound of every cell's count, attained or 0 |
| MarkerTools.MaxPeaks | pixstem/marker_tools.py:28-34 | `max_peaks` bounds every cell's count and is attained by some cell, or is 0 when no cell has peaks, in particular when every cell is None |
| MarkerTools.MaxPeaksOf | pixstem/marker_tools.py:28-34 | the scan in `np.ndindex` order computes `max_peaks` |
| MarkerTools.FillPosition | pixstem/marker_tools.py:41-46 | in place, slot k of one position receives the swapped, truncated, axis-mapped coordinates of peak k; every other position is unchanged |
| MarkerTools.FillRow | pixstem/marker_tools.py:39-46 | in place, every position of one grid row is filled; other rows unchanged |
| MarkerTools.FillMarkerArrays | pixstem/marker_tools.py:36-46 | both fresh `nx × ny × max_peaks` arrays hold slot k of every position: the mapped x (column) and y (row) coordinates of peak k, and −1000 for None cells and for slots at or past the cell's length |
| MarkerTools.CollectMarkers | pixstem/marker_tools.py:47-53 | one marker per slot, in increasing order, marker k built from slice `[..., k]` of both arrays |
| MarkerTools.ExpectedMarkers | pixstem/marker_tools.py:47-53 | the promised marker list has exactly `max_peaks` entries |
| MarkerTools.Get4dMarkerList | pixstem/marker_tools.py:5-53 | the marker list is exactly `max_peaks` markers, marker k holding slot k of every position, with the given colour and size |
| MarkerTools.EveryPeakHasAMarker | pixstem/marker_tools.py:28-53 | every peak k of every position appears in marker k at that position, with its swapped, truncated coordinates |
| MarkerTools.MarkersArePadded | pixstem/marker_tools.py:36-53 | every marker has some position with that many peaks, and holds −1000 at every position with fewer |
| MarkerTools.NatToString | pixstem/marker_tools.py:78 | decimal digits: nonempty and all digits |
| MarkerTools.NatToStringInjective | pixstem/marker_tools.py:78 | distinct numbers have distinct decimal strings |
| MarkerTools.MarkerNameInjective | pixstem/marker_tools.py:78 | equal names `marker{i}` come from equal indices |
| MarkerTools.MarkerNamesDistinct | pixstem/marker_tools.py:77-79 | distinct indices give distinct marker names, so no marker overwrites another |
| MarkerTools.Stored | pixstem/marker_tools.py:77-79 | storing keeps every existing key and adds `marker{i}` for every marker i |
| MarkerTools.StoredKeys | pixstem/marker_tools.py:77-79 | storing adds exactly the names `marker0` … to the node's keys |
| MarkerTools.StoredEntries | pixstem/marker_tools.py:77-79 | after storing, `marker{i}` holds marker i, overwriting any earlier entry of that name |
| MarkerTools.StoredKeepsOtherKeys | pixstem/marker_tools.py:77-79 | every key that is not a marker name keeps its value |
| MarkerTools.Signal.constructor | pixstem/marker_tools.py:56-79 | a signal with the given axes and optional `Markers` node |
| MarkerTools.AddPermanentMarkersToSignal | pixstem/marker_tools.py:75-79 | creates the `Markers` node if absent, then stores every marker under its name, in increasing order |
| MarkerTools.AddPeakArrayToSignalAsMarkers | pixstem/marker_tools.py:100-103 | the signal's node becomes the old node with the marker list of the peak array stored, built on the signal's own axes with the given colour and size |
| Scenarios.EdgeFilterOnFixtureCell | pyxem/tests/signals/test_diffraction_vectors.py:321-326 | with thresholds 0.128 and 0.118 the fixture's cell (0, 0) keeps only (−0.117587, 0.113601), the edge-filter test's answer |
| Scenarios.EdgeThresholdSplitsFixtureCell | pyxem/utils/vector_utils.py:146-147 | with both thresholds 0.26, exactly the first two of the thirteen vectors of cell (0, 1) lie beyond the edge |
| Scenarios.MagnitudeFilterOnFixtureCell | pyxem/tests/signals/test_diffraction_vectors.py:297-313 | bounds (0.1, 1.0) keep the first ten vectors of cell (0, 1) |
| Scenarios.InRangeCountOfShortCell | pyxem/tests/signals/test_diffraction_vectors.py:343-346 | bounds (0, 0.1) count the single vector of cell (1, 1) |
| Scenarios.SelectPrefix | pyxem/utils/vector_utils.py:124 | a mask set exactly on the first p rows selects the first p rows |
| Scenarios.SelectNone | pyxem/utils/vector_utils.py:124 | an all-false mask selects nothing |
| Scenarios.NormBetween | pyxem/utils/vector_utils.py:119-123 | a norm lies in [lo, hi] iff its square lies in [lo², hi²] |
| Scenarios.MarkersOfSmallGrid | pixstem/marker_tools.py:28-53 | a 1 × 2 grid (None, two peaks) gives two markers; the second holds −1000 at the None cell and the mapped coordinates (4 from 4.0, 3 from 3.9) at the other |

## Left out

- Floating point: the model computes in exact reals. Rounding, overflow, and NaN or
  infinity as IEEE values are not modelled, and a NaN row is `None`. An `int()` of a NaN
  peak coordinate, which raises, cannot occur.
- `sqrt`, `arccos` and π are supplied functions. The model assumes only the facts
  stated by `SqrtLaw` and `ArccosLaw`. `np.linalg.norm` of a row is `Numerics.Norm`, the
  supplied `sqrt` of the sum of squares, and `cdist` is the Euclidean distance written
  with that `sqrt`.
- The rest of `get_rotation_matrix_between_vectors` (vector_utils.py:218-248) is not
  modelled: `axangle2mat`, the `matmul` compositions, the second rotation R2, the angle
  averaging and the sign flip. An R1 rotation is the symbolic value
  `AxisAngle(axis, angle)`.
- The dtype promotion at vector_utils.py:348-349 only exists to allow NaN, and NaN is
  `None` here. The no-op branch at vector_utils.py:48-50 does nothing.
- `normalize_or_zero` applied to a single 1-D vector is not modelled. The model covers
  the array-of-rows form that its callers use.
- Shapes are sequences of rows. The model does not cover NumPy broadcasting, arrays of
  other ranks, or empty arrays with a shape other than zero rows.
- Library errors are `requires` clauses rather than modelled error paths:
  - VectorUtils.FilterVectorsNearBasis: requires rows of equal width (`Comparable`),
    where `cdist` raises.
  - VectorUtils.FilterVectorsEdgeRagged: requires rows of at least two coordinates,
    where NumPy raises IndexError.
  - VectorUtils.PlaneRotationStage: requires 3-vectors, where `np.cross` raises or
    changes meaning.
  - VectorUtils.DetectorToFourier: requires λ ≠ 0, where Python raises
    ZeroDivisionError or NumPy yields infinity.
- VectorUtils.GetAngleCartesian: requires `|a| == |b|`. For vectors of different
  lengths `np.dot` raises ValueError, except that when one norm is zero the source
  returns 0.0 at vector_utils.py:313-315 before `np.dot` is reached; neither outcome is
  modelled for unequal lengths.
- VectorUtils.NormalizeOrZero: rows are always real-valued. On an integer array NumPy's
  in-place division raises a same_kind casting error, so vector_utils.py:164 and the
  rotation solver's call at vector_utils.py:198 raise for integer input; that error is
  not modelled.
- MarkerTools.Get4dMarkerList: requires every peak to have a row and a column
  coordinate (`WellFormedPeaks`), where `peak[1]` raises IndexError. It also takes the
  grid as a 2-D array of optional peak lists rather than an object array of any rank.
- HyperSpy objects:
  - `axes_manager.signal_axes[i].index2value` is a total function in `SignalAxes`.
    HyperSpy's own range checks on the index are not modelled.
  - `hm.point` is the record `Marker.Point`.
  - The metadata is reduced to its optional `Markers` node, a map from names to
    markers. Other metadata nodes are not modelled.
- The default arguments `color='red'` and `size=20` are ordinary parameters.
- The `DiffractionVectors` signal class is not part of this model: unique vectors,
  DBSCAN clustering, flattening, metadata setters and plotting. Its source is not among
  the modelled files. The fixture scenarios apply the modelled functions directly; the
  class that wraps them, and the thresholds it derives for the edge filter, are not
  modelled.
- `map()` dispatch over a scan, lazy evaluation and parallelism are not modelled; each
  operation is modelled on one cell.
