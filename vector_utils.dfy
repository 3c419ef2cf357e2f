/** The per-scan-position vector routines of pyxem's vector utilities: the detector to
    reciprocal-space mapping, norms, the magnitude and detector-edge filters, normalisation
    with a zero guard, angles between vectors, matching vectors to a basis, and the plane
    alignment stage of the rotation solver. A vector list is a sequence of coordinate rows;
    a list the source changes in place is an array of rows. */
module VectorUtils {
  import opened Numerics

  /** The error the source raises itself (`raise ValueError`). */
  datatype Result<T> = Ok(value: T) | ValueError

  // =================================================================================
  // Row selection: `z[np.where(mask)]`, the rows whose mask entry is set, in order.

  function Select(z: seq<Vec>, keep: seq<bool>): (r: seq<Vec>)
    requires |keep| == |z|
    ensures |r| <= |z|
    ensures forall v :: v in r ==> v in z
  {
    if |z| == 0 then []
    else Select(z[..|z| - 1], keep[..|z| - 1]) + (if keep[|z| - 1] then [z[|z| - 1]] else [])
  }

  /** The indices whose mask entry is set, `np.where(mask)[0]`. */
  function TrueIndices(keep: seq<bool>): (idx: seq<nat>)
    ensures forall k :: 0 <= k < |idx| ==> idx[k] < |keep| && keep[idx[k]]
    ensures forall k, l :: 0 <= k < l < |idx| ==> idx[k] < idx[l]
    ensures forall i :: 0 <= i < |keep| && keep[i] ==> i in idx
  {
    if |keep| == 0 then []
    else TrueIndices(keep[..|keep| - 1]) + (if keep[|keep| - 1] then [|keep| - 1] else [])
  }

  /** The selected rows are exactly the rows at the set indices, in increasing order. */
  lemma {:induction false} SelectAtTrueIndices(z: seq<Vec>, keep: seq<bool>)
    requires |keep| == |z|
    ensures |Select(z, keep)| == |TrueIndices(keep)|
    ensures forall k :: 0 <= k < |Select(z, keep)| ==> Select(z, keep)[k] == z[TrueIndices(keep)[k]]
  {
    if |z| > 0 {
      var n := |z| - 1;
      SelectAtTrueIndices(z[..n], keep[..n]);
      var s0, i0 := Select(z[..n], keep[..n]), TrueIndices(keep[..n]);
      var s1: seq<Vec>, i1: seq<nat> := if keep[n] then [z[n]] else [], if keep[n] then [n] else [];
      var s, idx := Select(z, keep), TrueIndices(keep);
      assert s == s0 + s1 && idx == i0 + i1;
      forall k | 0 <= k < |s| ensures s[k] == z[idx[k]] {
        if k < |s0| {
          assert s[k] == s0[k] && idx[k] == i0[k];
          assert s0[k] == z[..n][i0[k]];
        } else {
          assert s[k] == z[n] && idx[k] == n;
        }
      }
    }
  }

  /** A row is selected exactly when some set index holds it. */
  lemma SelectMembership(z: seq<Vec>, keep: seq<bool>, v: Vec)
    requires |keep| == |z|
    ensures v in Select(z, keep) <==> exists i :: 0 <= i < |z| && keep[i] && z[i] == v
  {
    SelectAtTrueIndices(z, keep);
    var s, idx := Select(z, keep), TrueIndices(keep);
    if v in s {
      var k :| 0 <= k < |s| && s[k] == v;
      assert keep[idx[k]] && z[idx[k]] == v;
    }
    if exists i :: 0 <= i < |z| && keep[i] && z[i] == v {
      var i :| 0 <= i < |z| && keep[i] && z[i] == v;
      var k :| 0 <= k < |idx| && idx[k] == i;
      assert s[k] == v;
    }
  }

  /** Two selections agree when the masks agree and the rows agree where the mask is set. */
  lemma {:induction false} SelectCongruent(z: seq<Vec>, keep: seq<bool>, w: seq<Vec>, keep2: seq<bool>)
    requires |keep| == |z| == |w| == |keep2|
    requires forall i :: 0 <= i < |z| ==> keep[i] == keep2[i]
    requires forall i :: 0 <= i < |z| && keep[i] ==> z[i] == w[i]
    ensures Select(z, keep) == Select(w, keep2)
  {
    if |z| > 0 {
      var n := |z| - 1;
      SelectCongruent(z[..n], keep[..n], w[..n], keep2[..n]);
    }
  }

  /** Indexing with `np.where(mask)`, one row at a time. */
  method SelectWhere(z: seq<Vec>, keep: seq<bool>) returns (r: seq<Vec>)
    requires |keep| == |z|
    ensures r == Select(z, keep)
  {
    r := [];
    for i := 0 to |z|
      invariant r == Select(z[..i], keep[..i])
    {
      assert z[..i + 1][..i] == z[..i] && keep[..i + 1][..i] == keep[..i];
      if keep[i] {
        r := r + [z[i]];
      }
    }
    assert z[..|z|] == z && keep[..|z|] == keep;
  }

  /** The number of set entries of a mask. */
  function CountTrue(keep: seq<bool>): nat {
    if |keep| == 0 then 0
    else CountTrue(keep[..|keep| - 1]) + (if keep[|keep| - 1] then 1 else 0)
  }

  // =================================================================================
  // detector_to_fourier

  /** A row of `k`: the detector columns followed by the k_z column, which is `None`
      where NumPy's square root of a negative number yields NaN. */
  datatype KRow = KRow(xy: Vec, kz: Option<real>)

  /** k_z = sqrt(1/λ² − |xy|²) − 1/λ for one detector row, `None` for a negative radicand. */
  function KZ(m: Maths, xy: Vec, wavelength: real): Option<real>
    requires wavelength != 0.0
  {
    var radicand := 1.0 / (wavelength * wavelength) - SqNorm(xy);
    if radicand < 0.0 then None else Some(m.sqrt(radicand) - 1.0 / wavelength)
  }

  /** `detector_to_fourier`: every row keeps its columns and gains its k_z column; the
      camera length is not used. */
  function DetectorToFourier(m: Maths, kxy: seq<Vec>, wavelength: real, cameraLength: real): (k: seq<KRow>)
    requires wavelength != 0.0
    ensures |k| == |kxy|
    ensures forall i :: 0 <= i < |kxy| ==> k[i].xy == kxy[i]
  {
    seq(|kxy|, i requires 0 <= i < |kxy| => KRow(kxy[i], KZ(m, kxy[i], wavelength)))
  }

  /** Each output row keeps the input row as its leading columns; its k_z column is NaN
      exactly when the input row lies outside the radius 1/λ, and otherwise places the
      point on the Ewald sphere of radius 1/λ centred at (0, …, 0, −1/λ), on the root
      with k_z + 1/λ ≥ 0. */
  lemma DetectorToFourierRows(m: Maths, kxy: seq<Vec>, wavelength: real, cameraLength: real, i: nat)
    requires m.Lawful() && wavelength != 0.0 && i < |kxy|
    ensures var k := DetectorToFourier(m, kxy, wavelength, cameraLength);
      && k[i].xy == kxy[i]
      && (k[i].kz.None? <==> SqNorm(kxy[i]) > 1.0 / (wavelength * wavelength))
      && (k[i].kz.Some? ==>
          var kz := k[i].kz.value;
          && kz + 1.0 / wavelength >= 0.0
          && SqNorm(kxy[i]) + (kz + 1.0 / wavelength) * (kz + 1.0 / wavelength)
            == 1.0 / (wavelength * wavelength))
  {
    var k := DetectorToFourier(m, kxy, wavelength, cameraLength);
    if k[i].kz.Some? {
      var radicand := 1.0 / (wavelength * wavelength) - SqNorm(kxy[i]);
      assert k[i].kz.value + 1.0 / wavelength == m.sqrt(radicand);
    }
  }

  /** The origin of the detector maps to the origin of reciprocal space. */
  lemma DetectorOriginMapsToOrigin(m: Maths, kxy: seq<Vec>, wavelength: real, cameraLength: real, i: nat)
    requires m.Lawful() && wavelength > 0.0 && i < |kxy| && IsZero(kxy[i])
    ensures DetectorToFourier(m, kxy, wavelength, cameraLength)[i] == KRow(kxy[i], Some(0.0))
  {
    SqNormZeroIff(kxy[i]);
    var inv := 1.0 / wavelength;
    assert 1.0 / (wavelength * wavelength) == inv * inv;
    SqrtOfSquare(m, inv);
  }

  /** A row outside the radius keeps its detector columns; only k_z is NaN. */
  lemma DetectorRowOutsideSphereKeepsColumns(m: Maths)
    ensures DetectorToFourier(m, [[2.0, 0.0]], 1.0, 0.0) == [KRow([2.0, 0.0], None)]
  {
    assert SqNorm([2.0, 0.0]) == 4.0;
  }

  /** The camera length has no influence on the result. */
  lemma DetectorToFourierIgnoresCameraLength(m: Maths, kxy: seq<Vec>, wavelength: real, c1: real, c2: real)
    requires wavelength != 0.0
    ensures DetectorToFourier(m, kxy, wavelength, c1) == DetectorToFourier(m, kxy, wavelength, c2)
  {
  }

  // =================================================================================
  // calculate_norms, calculate_norms_ragged, get_npeaks

  /** `calculate_norms`: the norm of every row. */
  function CalculateNorms(m: Maths, z: seq<Vec>): (norms: seq<real>)
    ensures |norms| == |z|
  {
    seq(|z|, i requires 0 <= i < |z| => Norm(m, z[i]))
  }

  /** Every norm is nonnegative, and zero exactly for a zero row. */
  lemma CalculateNormsMeaning(m: Maths, z: seq<Vec>, i: nat)
    requires m.Lawful() && i < |z|
    ensures CalculateNorms(m, z)[i] >= 0.0
    ensures CalculateNorms(m, z)[i] == 0.0 <==> IsZero(z[i])
  {
    NormZeroIff(m, z[i]);
  }

  /** `calculate_norms_ragged`: the same norms, collected one row at a time. */
  method CalculateNormsRagged(m: Maths, z: seq<Vec>) returns (norms: seq<real>)
    ensures norms == CalculateNorms(m, z)
  {
    norms := [];
    for i := 0 to |z|
      invariant |norms| == i
      invariant forall k :: 0 <= k < i ==> norms[k] == Norm(m, z[k])
    {
      norms := norms + [Norm(m, z[i])];
    }
  }

  /** `get_npeaks`: the number of rows. */
  function GetNpeaks(foundPeaks: seq<Vec>): (n: nat)
    ensures n == 0 <==> foundPeaks == []
  {
    |foundPeaks|
  }

  /** Counting the rows a mask selects gives the number of set mask entries. */
  lemma {:induction false} NpeaksOfSelection(z: seq<Vec>, keep: seq<bool>)
    requires |keep| == |z|
    ensures GetNpeaks(Select(z, keep)) == CountTrue(keep)
  {
    if |z| > 0 {
      var n := |z| - 1;
      NpeaksOfSelection(z[..n], keep[..n]);
    }
  }

  // =================================================================================
  // filter_vectors_ragged

  /** A norm after `norms[norms < min] = 0` and then `norms[norms > max] = 0`. */
  function ZeroedNorm(n: real, minMagnitude: real, maxMagnitude: real): real {
    var n1 := if n < minMagnitude then 0.0 else n;
    if n1 > maxMagnitude then 0.0 else n1
  }

  /** The rows `np.where(norms)` keeps: those whose zeroed norm is nonzero. */
  function MagnitudeMask(m: Maths, z: seq<Vec>, minMagnitude: real, maxMagnitude: real): (keep: seq<bool>)
    ensures |keep| == |z|
  {
    seq(|z|, i requires 0 <= i < |z| => ZeroedNorm(Norm(m, z[i]), minMagnitude, maxMagnitude) != 0.0)
  }

  /** The two masked assignments to the norms, in place. */
  method ZeroOutOfRange(norms: array<real>, minMagnitude: real, maxMagnitude: real)
    modifies norms
    ensures forall k :: 0 <= k < norms.Length ==> norms[k] == ZeroedNorm(old(norms[k]), minMagnitude, maxMagnitude)
  {
    ghost var before := norms[..];
    // norms[norms < min_magnitude] = 0
    for i := 0 to norms.Length
      invariant forall k :: 0 <= k < i ==> norms[k] == if before[k] < minMagnitude then 0.0 else before[k]
      invariant forall k :: i <= k < norms.Length ==> norms[k] == before[k]
    {
      if norms[i] < minMagnitude {
        norms[i] := 0.0;
      }
    }
    // norms[norms > max_magnitude] = 0
    for i := 0 to norms.Length
      invariant forall k :: 0 <= k < i ==> norms[k] == ZeroedNorm(before[k], minMagnitude, maxMagnitude)
      invariant forall k :: i <= k < norms.Length ==> norms[k] == if before[k] < minMagnitude then 0.0 else before[k]
    {
      if norms[i] > maxMagnitude {
        norms[i] := 0.0;
      }
    }
  }

  /** `filter_vectors_ragged`: the norms are collected, out-of-range norms are overwritten
      with 0, and the rows whose norm is still nonzero are returned. */
  method FilterVectorsRagged(m: Maths, z: seq<Vec>, minMagnitude: real, maxMagnitude: real)
    returns (filteredVectors: seq<Vec>)
    ensures filteredVectors == Select(z, MagnitudeMask(m, z, minMagnitude, maxMagnitude))
  {
    var n := |z|;
    // the norms, collected row by row as `calculate_norms_ragged` does, then np.asarray
    var normList := CalculateNormsRagged(m, z);
    var norms := new real[n](i requires 0 <= i < n => normList[i]);
    ZeroOutOfRange(norms, minMagnitude, maxMagnitude);
    // z[np.where(norms)]
    var keep := seq(n, i requires 0 <= i < n reads norms => norms[i] != 0.0);
    assert keep == MagnitudeMask(m, z, minMagnitude, maxMagnitude);
    filteredVectors := SelectWhere(z, keep);
  }

  /** A row is kept exactly when its norm lies in [min, max] and the row is not zero. */
  lemma MagnitudeMaskMeaning(m: Maths, z: seq<Vec>, minMagnitude: real, maxMagnitude: real, i: nat)
    requires m.Lawful() && i < |z|
    ensures MagnitudeMask(m, z, minMagnitude, maxMagnitude)[i]
      <==> minMagnitude <= Norm(m, z[i]) <= maxMagnitude && !IsZero(z[i])
  {
    NormZeroIff(m, z[i]);
  }

  /** The magnitude filter never returns a zero row, whatever the bounds. */
  lemma MagnitudeFilterDropsZeroRows(m: Maths, z: seq<Vec>, minMagnitude: real, maxMagnitude: real, v: Vec)
    requires m.Lawful() && v in Select(z, MagnitudeMask(m, z, minMagnitude, maxMagnitude))
    ensures !IsZero(v)
  {
    var keep := MagnitudeMask(m, z, minMagnitude, maxMagnitude);
    SelectMembership(z, keep, v);
    var i :| 0 <= i < |z| && keep[i] && z[i] == v;
    MagnitudeMaskMeaning(m, z, minMagnitude, maxMagnitude, i);
  }

  /** With bounds that admit every norm, the filter returns exactly the nonzero rows, in order. */
  lemma UnboundedMagnitudeFilterKeepsNonzero(m: Maths, z: seq<Vec>, minMagnitude: real, maxMagnitude: real)
    requires m.Lawful() && minMagnitude <= 0.0
    requires forall i :: 0 <= i < |z| ==> Norm(m, z[i]) <= maxMagnitude
    ensures forall i :: 0 <= i < |z| ==>
      (MagnitudeMask(m, z, minMagnitude, maxMagnitude)[i] <==> !IsZero(z[i]))
  {
    forall i | 0 <= i < |z|
      ensures MagnitudeMask(m, z, minMagnitude, maxMagnitude)[i] <==> !IsZero(z[i])
    {
      MagnitudeMaskMeaning(m, z, minMagnitude, maxMagnitude, i);
    }
  }

  // =================================================================================
  // filter_vectors_edge_ragged

  /** The row lies beyond either threshold. */
  predicate BeyondEdge(v: Vec, xThreshold: real, yThreshold: real)
    requires |v| >= 2
  {
    Abs(v[0]) > xThreshold || Abs(v[1]) > yThreshold
  }

  /** The rows after `z[|x| > x_threshold] = 0` and `z[|y| > y_threshold] = 0`. */
  function EdgeZeroed(z: seq<Vec>, xThreshold: real, yThreshold: real): (r: seq<Vec>)
    requires forall i :: 0 <= i < |z| ==> |z[i]| >= 2
    ensures |r| == |z|
  {
    seq(|z|, i requires 0 <= i < |z| =>
      if BeyondEdge(z[i], xThreshold, yThreshold) then Zeros(|z[i]|) else z[i])
  }

  /** The mask `z.T[0] != 0`. */
  function NonzeroX(z: seq<Vec>): (keep: seq<bool>)
    requires forall i :: 0 <= i < |z| ==> |z[i]| >= 1
    ensures |keep| == |z|
  {
    seq(|z|, i requires 0 <= i < |z| => z[i][0] != 0.0)
  }

  /** `z[np.absolute(z.T[column]) > threshold] = 0`: rows whose coordinate in the column
      exceeds the threshold in magnitude become zero rows, in place. */
  method ZeroRowsBeyond(z: array<Vec>, column: nat, threshold: real)
    requires forall i :: 0 <= i < z.Length ==> |z[i]| > column
    modifies z
    ensures forall k :: 0 <= k < z.Length ==>
      z[k] == if Abs(old(z[k])[column]) > threshold then Zeros(|old(z[k])|) else old(z[k])
  {
    ghost var before := z[..];
    for i := 0 to z.Length
      invariant forall k :: 0 <= k < i ==>
        z[k] == if Abs(before[k][column]) > threshold then Zeros(|before[k]|) else before[k]
      invariant forall k :: i <= k < z.Length ==> z[k] == before[k]
    {
      if Abs(z[i][column]) > threshold {
        z[i] := Zeros(|z[i]|);
      }
    }
  }

  /** `filter_vectors_edge_ragged`: rows beyond either threshold are overwritten with zeros
      in the caller's array, which the result is then selected from by a nonzero x. */
  method FilterVectorsEdgeRagged(z: array<Vec>, xThreshold: real, yThreshold: real)
    returns (filteredVectors: seq<Vec>)
    requires forall i :: 0 <= i < z.Length ==> |z[i]| >= 2
    modifies z
    ensures z[..] == EdgeZeroed(old(z[..]), xThreshold, yThreshold)
    ensures filteredVectors == Select(z[..], NonzeroX(z[..]))
  {
    ghost var z0 := z[..];
    // z[np.absolute(z.T[0]) > x_threshold] = 0
    ZeroRowsBeyond(z, 0, xThreshold);
    // z[np.absolute(z.T[1]) > y_threshold] = 0
    ZeroRowsBeyond(z, 1, yThreshold);
    assert z[..] == EdgeZeroed(z0, xThreshold, yThreshold);
    // z[np.where(z.T[0])]
    filteredVectors := SelectWhere(z[..], NonzeroX(z[..]));
  }

  /** The mask in terms of the rows as they were before the call: a row is returned exactly
      when it lies within both thresholds and its x is nonzero, so an in-bounds row with
      x == 0 is dropped too. */
  function EdgeMask(z: seq<Vec>, xThreshold: real, yThreshold: real): (keep: seq<bool>)
    requires forall i :: 0 <= i < |z| ==> |z[i]| >= 2
    ensures |keep| == |z|
  {
    seq(|z|, i requires 0 <= i < |z| => !BeyondEdge(z[i], xThreshold, yThreshold) && z[i][0] != 0.0)
  }

  /** What the edge filter returns, stated on the rows it was given: the rows that lie
      within both thresholds and have a nonzero x, unchanged and in order. */
  lemma EdgeFilterSelectsOriginalRows(z: seq<Vec>, xThreshold: real, yThreshold: real)
    requires forall i :: 0 <= i < |z| ==> |z[i]| >= 2
    ensures var zeroed := EdgeZeroed(z, xThreshold, yThreshold);
      Select(zeroed, NonzeroX(zeroed)) == Select(z, EdgeMask(z, xThreshold, yThreshold))
  {
    var zeroed := EdgeZeroed(z, xThreshold, yThreshold);
    SelectCongruent(z, EdgeMask(z, xThreshold, yThreshold), zeroed, NonzeroX(zeroed));
  }

  /** The quirk of testing x alone: a row at x == 0 inside the thresholds is dropped. */
  lemma EdgeFilterDropsInBoundsRowOnYAxis()
    ensures var z := [[0.0, 0.1]];
      Select(EdgeZeroed(z, 1.0, 1.0), NonzeroX(EdgeZeroed(z, 1.0, 1.0))) == []
  {
    var z := [[0.0, 0.1]];
    var zeroed := EdgeZeroed(z, 1.0, 1.0);
    assert zeroed == z;
    assert Select(zeroed, NonzeroX(zeroed)) == Select([], []) + [];
  }

  // =================================================================================
  // normalize_or_zero

  /** One row after `normalize_or_zero`: divided by its norm when that is positive,
      otherwise unchanged. */
  function Normalized(m: Maths, v: Vec): (u: Vec)
    ensures |u| == |v|
  {
    var n := Norm(m, v);
    if n > 0.0 then Div(v, n) else v
  }

  function NormalizedRows(m: Maths, rows: seq<Vec>): (r: seq<Vec>)
    ensures |r| == |rows|
  {
    seq(|rows|, i requires 0 <= i < |rows| => Normalized(m, rows[i]))
  }

  /** `normalize_or_zero`: every row of positive norm is divided by its norm, in place. */
  method NormalizeOrZero(m: Maths, v: array<Vec>)
    modifies v
    ensures v[..] == NormalizedRows(m, old(v[..]))
  {
    ghost var v0 := v[..];
    for i := 0 to v.Length
      invariant forall k :: 0 <= k < i ==> v[k] == Normalized(m, v0[k])
      invariant forall k :: i <= k < v.Length ==> v[k] == v0[k]
    {
      var n := Norm(m, v[i]);
      if n > 0.0 {
        v[i] := Div(v[i], n);
      }
    }
  }

  /** A zero row is left as it is; any other row comes out with unit norm. */
  lemma NormalizedMeaning(m: Maths, v: Vec)
    requires m.Lawful()
    ensures IsZero(v) ==> Normalized(m, v) == v
    ensures !IsZero(v) ==> SqNorm(Normalized(m, v)) == 1.0 && Norm(m, Normalized(m, v)) == 1.0
  {
    NormZeroIff(m, v);
    if !IsZero(v) {
      DivByNormIsUnit(m, v);
      SqrtOfSquare(m, 1.0);
    }
  }

  /** Normalising twice changes nothing. */
  lemma NormalizedIdempotent(m: Maths, v: Vec)
    requires m.Lawful()
    ensures Normalized(m, Normalized(m, v)) == Normalized(m, v)
  {
    NormalizedMeaning(m, v);
    var u := Normalized(m, v);
    if !IsZero(v) {
      assert Norm(m, u) == 1.0;
      assert Div(u, 1.0) == u;
    }
  }

  lemma NormalizedRowsIdempotent(m: Maths, rows: seq<Vec>)
    requires m.Lawful()
    ensures NormalizedRows(m, NormalizedRows(m, rows)) == NormalizedRows(m, rows)
  {
    forall i | 0 <= i < |rows|
      ensures NormalizedRows(m, NormalizedRows(m, rows))[i] == NormalizedRows(m, rows)[i]
    {
      NormalizedIdempotent(m, rows[i]);
    }
  }

  // =================================================================================
  // get_angle_cartesian, get_angle_cartesian_vec

  /** `max(-1.0, min(1.0, x))`, equally `np.clip(x, -1.0, 1.0)`. */
  function Clamp(x: real): (c: real)
    ensures -1.0 <= c <= 1.0
    ensures -1.0 <= x <= 1.0 ==> c == x
  {
    var upper := if x < 1.0 then x else 1.0;
    if upper < -1.0 then -1.0 else upper
  }

  /** The product of the two norms, the denominator of the cosine. */
  function NormProduct(m: Maths, a: Vec, b: Vec): real {
    Norm(m, a) * Norm(m, b)
  }

  /** `get_angle_cartesian`: 0 when a norm is zero, else the arc cosine of the clamped
      cosine of the angle. */
  function GetAngleCartesian(m: Maths, a: Vec, b: Vec): (r: real)
    requires |a| == |b|
    ensures m.Lawful() ==> 0.0 <= r <= m.pi
  {
    var denom := NormProduct(m, a, b);
    if denom == 0.0 then 0.0 else m.arccos(Clamp(Dot(a, b) / denom))
  }

  /** The angle does not depend on the order of its arguments. */
  lemma AngleSymmetric(m: Maths, a: Vec, b: Vec)
    requires |a| == |b|
    ensures GetAngleCartesian(m, a, b) == GetAngleCartesian(m, b, a)
  {
    DotSymmetric(a, b);
  }

  /** A zero vector makes an angle of 0 with anything. */
  lemma AngleWithZeroVector(m: Maths, a: Vec, b: Vec)
    requires m.Lawful() && |a| == |b| && (IsZero(a) || IsZero(b))
    ensures GetAngleCartesian(m, a, b) == 0.0
  {
    NormZeroIff(m, a);
    NormZeroIff(m, b);
  }

  /** Away from a zero norm, the angle is the arc cosine of the clamped cosine. */
  lemma AngleUnfold(m: Maths, a: Vec, b: Vec, denom: real)
    requires |a| == |b|
    requires denom == NormProduct(m, a, b) && denom != 0.0
    ensures GetAngleCartesian(m, a, b) == m.arccos(Clamp(Dot(a, b) / denom))
  {
  }

  /** A cosine of exactly 1 or -1 gives the angle 0 or pi. */
  lemma CosineExtremes(m: Maths, dot: real, denom: real)
    requires m.ArccosLaw() && denom != 0.0
    ensures dot == denom ==> m.arccos(Clamp(dot / denom)) == 0.0
    ensures dot == -denom ==> m.arccos(Clamp(dot / denom)) == m.pi
  {
    DivSelf(denom);
  }

  /** The angle read off a dot product equal to plus or minus the norm product. */
  lemma AngleOfCosine(m: Maths, a: Vec, b: Vec)
    requires m.ArccosLaw() && |a| == |b|
    requires Norm(m, a) != 0.0 && Norm(m, b) != 0.0
    ensures Dot(a, b) == NormProduct(m, a, b) ==> GetAngleCartesian(m, a, b) == 0.0
    ensures Dot(a, b) == -NormProduct(m, a, b) ==> GetAngleCartesian(m, a, b) == m.pi
  {
    var denom := NormProduct(m, a, b);
    if denom == 0.0 {
      ZeroProduct(Norm(m, a), Norm(m, b));
    }
    AngleUnfold(m, a, b, denom);
    CosineExtremes(m, Dot(a, b), denom);
  }

  /** A vector makes the angle 0 with itself. */
  lemma AngleWithItself(m: Maths, v: Vec)
    requires m.Lawful()
    ensures GetAngleCartesian(m, v, v) == 0.0
  {
    DotSelf(v);
    NormSquared(m, v);
    NormZeroIff(m, v);
    if Norm(m, v) != 0.0 {
      AngleOfCosine(m, v, v);
    }
  }

  /** A nonzero vector makes the angle π with its negation. */
  lemma AngleWithNegation(m: Maths, v: Vec)
    requires m.Lawful() && !IsZero(v)
    ensures GetAngleCartesian(m, v, Neg(v)) == m.pi
  {
    DotNeg(v);
    NormSquared(m, v);
    NormZeroIff(m, v);
    assert Norm(m, Neg(v)) == Norm(m, v);
    AngleOfCosine(m, v, Neg(v));
  }

  /** Same number of rows, and the same width row by row. */
  predicate SameShape(a: seq<Vec>, b: seq<Vec>) {
    |a| == |b| && forall i :: 0 <= i < |a| ==> |a[i]| == |b[i]|
  }

  /** `get_angle_cartesian_vec`: a shape mismatch raises; otherwise one angle per row,
      0 where the norm product is 0. */
  method GetAngleCartesianVec(m: Maths, a: seq<Vec>, b: seq<Vec>) returns (r: Result<seq<real>>)
    ensures r.ValueError? <==> !SameShape(a, b)
    ensures r.Ok? ==> |r.value| == |a|
    ensures r.Ok? ==> forall i :: 0 <= i < |a| ==> r.value[i] == GetAngleCartesian(m, a[i], b[i])
  {
    if !SameShape(a, b) {
      return ValueError;
    }
    var n := |a|;
    var denom := seq(n, i requires 0 <= i < n => NormProduct(m, a[i], b[i]));
    // angles[denom_nonzero] = np.arccos(np.clip(..., -1.0, 1.0))
    var angles := new real[n](_ => 0.0);
    for i := 0 to n
      invariant forall k :: 0 <= k < i ==> angles[k] == GetAngleCartesian(m, a[k], b[k])
      invariant forall k :: i <= k < n ==> angles[k] == 0.0
    {
      if denom[i] != 0.0 {
        angles[i] := m.arccos(Clamp(Dot(a[i], b[i]) / denom[i]));
        AngleUnfold(m, a[i], b[i], denom[i]);
      }
    }
    r := Ok(angles[..]);
  }

  // =================================================================================
  // filter_vectors_near_basis

  /** The first index of a least entry, as `np.argmin` picks it. */
  function ArgMin(ds: seq<real>): (k: nat)
    requires |ds| > 0
    ensures k < |ds|
    ensures forall i :: 0 <= i < |ds| ==> ds[k] <= ds[i]
    ensures forall i :: 0 <= i < k ==> ds[k] < ds[i]
  {
    if |ds| == 1 then 0
    else
      var k := ArgMin(ds[..|ds| - 1]);
      if ds[|ds| - 1] < ds[k] then |ds| - 1 else k
  }

  /** One column of `cdist(vectors, basis)`: the distance of every vector to `b`. */
  function Distances(m: Maths, vectors: seq<Vec>, b: Vec): (ds: seq<real>)
    requires forall i :: 0 <= i < |vectors| ==> |vectors[i]| == |b|
    ensures |ds| == |vectors|
  {
    seq(|vectors|, i requires 0 <= i < |vectors| => Dist(m, vectors[i], b))
  }

  /** Every vector has the width of every basis vector, as `cdist` demands. */
  ghost predicate Comparable(vectors: seq<Vec>, basis: seq<Vec>) {
    forall i, j :: 0 <= i < |vectors| && 0 <= j < |basis| ==> |vectors[i]| == |basis[j]|
  }

  /** The row returned for one basis vector of a nonempty vector list: the first closest
      vector, or NaN when a distance limit is given and that closest vector is farther. */
  function Match(m: Maths, vectors: seq<Vec>, b: Vec, distance: Option<real>): (r: Option<Vec>)
    requires |vectors| > 0
    requires forall i :: 0 <= i < |vectors| ==> |vectors[i]| == |b|
    ensures r.Some? ==> r.value in vectors
    ensures distance.None? ==> r.Some?
  {
    var ds := Distances(m, vectors, b);
    var k := ArgMin(ds);
    if distance.Some? && ds[k] > distance.value then None else Some(vectors[k])
  }

  /** `np.argmin` of one column of the distance matrix, and the least distance. */
  method ClosestVector(m: Maths, vectors: seq<Vec>, b: Vec) returns (k: nat, best: real)
    requires |vectors| > 0
    requires forall i :: 0 <= i < |vectors| ==> |vectors[i]| == |b|
    ensures k == ArgMin(Distances(m, vectors, b)) && best == Dist(m, vectors[k], b)
  {
    ghost var ds := Distances(m, vectors, b);
    k, best := 0, Dist(m, vectors[0], b);
    for i := 1 to |vectors|
      invariant k == ArgMin(ds[..i]) && best == ds[k]
    {
      assert ds[..i + 1][..i] == ds[..i];
      var d := Dist(m, vectors[i], b);
      if d < best {
        k, best := i, d;
      }
    }
    assert ds[..|vectors|] == ds;
  }

  /** `np.argmin(distance_mat, axis=0)` and the least distance of every column. */
  method ClosestIndices(m: Maths, vectors: seq<Vec>, basis: seq<Vec>)
    returns (closestIndex: seq<nat>, minDistance: seq<real>)
    requires |vectors| > 0 && Comparable(vectors, basis)
    ensures |closestIndex| == |basis| && |minDistance| == |basis|
    ensures forall l :: 0 <= l < |basis| ==> closestIndex[l] < |vectors|
    ensures forall l :: 0 <= l < |basis| ==>
      && closestIndex[l] == ArgMin(Distances(m, vectors, basis[l]))
      && minDistance[l] == Dist(m, vectors[closestIndex[l]], basis[l])
  {
    closestIndex, minDistance := [], [];
    for j := 0 to |basis|
      invariant |closestIndex| == j && |minDistance| == j
      invariant forall l :: 0 <= l < j ==>
        && closestIndex[l] == ArgMin(Distances(m, vectors, basis[l]))
        && minDistance[l] == Dist(m, vectors[closestIndex[l]], basis[l])
    {
      var k, best := ClosestVector(m, vectors, basis[j]);
      closestIndex, minDistance := closestIndex + [k], minDistance + [best];
    }
  }

  lemma MatchAtIndex(m: Maths, vectors: seq<Vec>, b: Vec, distance: Option<real>, k: nat)
    requires |vectors| > 0
    requires forall i :: 0 <= i < |vectors| ==> |vectors[i]| == |b|
    requires k == ArgMin(Distances(m, vectors, b))
    ensures k < |vectors|
    ensures Match(m, vectors, b, distance)
      == if distance.Some? && Dist(m, vectors[k], b) > distance.value then None else Some(vectors[k])
  {
  }

  /** `filter_vectors_near_basis`: one row per basis vector, all NaN for an empty vector list. */
  method FilterVectorsNearBasis(m: Maths, vectors: seq<Vec>, basis: seq<Vec>, distance: Option<real>)
    returns (closestVectors: seq<Option<Vec>>)
    requires Comparable(vectors, basis)
    ensures |closestVectors| == |basis|
    ensures |vectors| == 0 ==> forall j :: 0 <= j < |basis| ==> closestVectors[j] == None
    ensures |vectors| > 0 ==> forall j :: 0 <= j < |basis| ==>
      closestVectors[j] == Match(m, vectors, basis[j], distance)
  {
    if |vectors| == 0 {
      return seq(|basis|, _ => None);
    }
    var nb := |basis|;
    var closestIndex, minDistance := ClosestIndices(m, vectors, basis);
    var closest := new Option<Vec>[nb](l requires 0 <= l < nb => Some(vectors[closestIndex[l]]));
    if distance.Some? {
      MaskBeyond(closest, minDistance, distance.value);
    }
    closestVectors := closest[..];
    forall l | 0 <= l < nb
      ensures closestVectors[l] == Match(m, vectors, basis[l], distance)
    {
      MatchAtIndex(m, vectors, basis[l], distance, closestIndex[l]);
    }
  }

  /** `closest_vectors[min_distance > distance, :] = np.nan`, in place. */
  method MaskBeyond(closest: array<Option<Vec>>, minDistance: seq<real>, limit: real)
    requires |minDistance| == closest.Length
    modifies closest
    ensures forall l :: 0 <= l < closest.Length ==>
      closest[l] == if minDistance[l] > limit then None else old(closest[l])
  {
    ghost var before := closest[..];
    for j := 0 to closest.Length
      invariant forall l :: 0 <= l < j ==> closest[l] == if minDistance[l] > limit then None else before[l]
      invariant forall l :: j <= l < closest.Length ==> closest[l] == before[l]
    {
      if minDistance[j] > limit {
        closest[j] := None;
      }
    }
  }

  /** The matched row is NaN exactly when a limit is given and even the closest vector lies
      beyond it; otherwise it is a closest vector, the first one among equals. */
  lemma MatchMeaning(m: Maths, vectors: seq<Vec>, b: Vec, distance: Option<real>)
    requires |vectors| > 0
    requires forall i :: 0 <= i < |vectors| ==> |vectors[i]| == |b|
    ensures var r := Match(m, vectors, b, distance);
      && (r.None? <==> distance.Some? && forall i :: 0 <= i < |vectors| ==> Dist(m, vectors[i], b) > distance.value)
      && (r.Some? ==> exists k :: (0 <= k < |vectors| && r.value == vectors[k]
            && (forall i :: 0 <= i < |vectors| ==> Dist(m, vectors[k], b) <= Dist(m, vectors[i], b))
            && (forall i :: 0 <= i < k ==> Dist(m, vectors[k], b) < Dist(m, vectors[i], b))))
  {
    var ds := Distances(m, vectors, b);
    var k := ArgMin(ds);
    assert forall i :: 0 <= i < |vectors| ==> ds[i] == Dist(m, vectors[i], b);
  }

  /** With a zero limit, a basis vector that no input vector coincides with gets NaN. */
  lemma ZeroLimitMatchesOnlyCoincidences(m: Maths, vectors: seq<Vec>, b: Vec)
    requires m.Lawful() && |vectors| > 0
    requires forall i :: 0 <= i < |vectors| ==> |vectors[i]| == |b| && vectors[i] != b
    ensures Match(m, vectors, b, Some(0.0)) == None
  {
    forall i | 0 <= i < |vectors| ensures Dist(m, vectors[i], b) > 0.0 {
      NormZeroIff(m, Sub(vectors[i], b));
      SubZeroIffEqual(vectors[i], b);
    }
    MatchMeaning(m, vectors, b, Some(0.0));
  }

  // =================================================================================
  // get_rotation_matrix_between_vectors: the choice of plane normals and of R1

  /** `np.isclose(np.sum(np.abs(v), axis=-1), 0.0)`. */
  predicate Degenerate(v: Vec) {
    IsCloseToZero(AbsSum(v))
  }

  /** The to-plane normal after both substitutions, before normalisation:
      to_v1 × to_v2, else from_v1 × to_v1, else from_v2 × to_v2. */
  function SubstitutedNormal(fromV1: Vec, fromV2: Vec, toV1: Vec, toV2: Vec): (n: Vec)
    requires |fromV1| == 3 && |fromV2| == 3 && |toV1| == 3 && |toV2| == 3
    ensures |n| == 3
  {
    var n1 := FirstSubstitution(fromV1, toV1, toV2);
    if Degenerate(n1) then Cross(fromV2, toV2) else n1
  }

  /** The to-plane normal after the first substitution only. */
  function FirstSubstitution(fromV1: Vec, toV1: Vec, toV2: Vec): (n: Vec)
    requires |fromV1| == 3 && |toV1| == 3 && |toV2| == 3
    ensures |n| == 3
  {
    var n0 := Cross(toV1, toV2);
    if Degenerate(n0) then Cross(fromV1, toV1) else n0
  }

  /** The plane alignment R1, kept symbolic: the identity, or the rotation about a unit
      axis by an angle (`axangle2mat(axis, angle)`). */
  datatype PlaneRotation = Identity | AxisAngle(axis: Vec, angle: real)

  /** R1 from a normalised common axis and an angle: the identity where the axis is
      degenerate (`~common_valid`), else the axis-angle rotation. */
  function R1For(axis: Vec, angle: real): PlaneRotation {
    if Degenerate(axis) then Identity else AxisAngle(axis, angle)
  }

  /** R1 for one target pair: the common axis is taken from the unsubstituted to-plane
      normal; the angle is the one between the from-normal and the substituted,
      normalised to-normal. */
  function PlaneRotationFor(m: Maths, fromV1: Vec, fromV2: Vec, toV1: Vec, toV2: Vec): PlaneRotation
    requires |fromV1| == 3 && |fromV2| == 3 && |toV1| == 3 && |toV2| == 3
  {
    var normalFrom := Cross(fromV1, fromV2);
    R1For(Normalized(m, Cross(normalFrom, Cross(toV1, toV2))),
          GetAngleCartesian(m, normalFrom, Normalized(m, SubstitutedNormal(fromV1, fromV2, toV1, toV2))))
  }

  ghost predicate AllWidth3(rows: seq<Vec>) {
    forall i :: 0 <= i < |rows| ==> |rows[i]| == 3
  }

  /** One substitution pass, `normals[degenerate] = replacement[degenerate]`, in place. */
  method ReplaceDegenerate(normals: array<Vec>, replacement: seq<Vec>)
    requires |replacement| == normals.Length
    modifies normals
    ensures forall k :: 0 <= k < normals.Length ==>
      normals[k] == if Degenerate(old(normals[k])) then replacement[k] else old(normals[k])
  {
    ghost var before := normals[..];
    for i := 0 to normals.Length
      invariant forall k :: 0 <= k < i ==>
        normals[k] == if Degenerate(before[k]) then replacement[k] else before[k]
      invariant forall k :: i <= k < normals.Length ==> normals[k] == before[k]
    {
      if Degenerate(normals[i]) {
        normals[i] := replacement[i];
      }
    }
  }

  /** The to-plane normals and the common axes of N target pairs, substituted and
      normalised in place as the source does before it computes any angle. */
  method PlaneAxes(m: Maths, fromV1: Vec, fromV2: Vec, toV1: seq<Vec>, toV2: seq<Vec>)
    returns (planeNormalTo: seq<Vec>, commonAxes: seq<Vec>)
    requires |fromV1| == 3 && |fromV2| == 3
    requires |toV1| == |toV2| && AllWidth3(toV1) && AllWidth3(toV2)
    ensures |planeNormalTo| == |toV1| && |commonAxes| == |toV1|
    ensures forall i :: 0 <= i < |toV1| ==>
      planeNormalTo[i] == Normalized(m, SubstitutedNormal(fromV1, fromV2, toV1[i], toV2[i]))
    ensures forall i :: 0 <= i < |toV1| ==>
      commonAxes[i] == Normalized(m, Cross(Cross(fromV1, fromV2), Cross(toV1[i], toV2[i])))
  {
    var n := |toV1|;
    var normalFrom := Cross(fromV1, fromV2);
    var normalTo := new Vec[n](i requires 0 <= i < n => Cross(toV1[i], toV2[i]));
    var axes := new Vec[n](i requires 0 <= i < n => Cross(normalFrom, Cross(toV1[i], toV2[i])));
    // plane_normal_to[to_degenerate] = np.cross(from_v1, to_v1[to_degenerate])
    ReplaceDegenerate(normalTo, seq(n, i requires 0 <= i < n => Cross(fromV1, toV1[i])));
    // plane_normal_to[to_degenerate] = np.cross(from_v2, to_v2[to_degenerate])
    ReplaceDegenerate(normalTo, seq(n, i requires 0 <= i < n => Cross(fromV2, toV2[i])));
    NormalizeOrZero(m, normalTo);
    NormalizeOrZero(m, axes);
    planeNormalTo, commonAxes := normalTo[..], axes[..];
  }

  /** The first stage of `get_rotation_matrix_between_vectors` for N target pairs: the
      normalised to-plane normals after the substitutions, and R1 for every pair. */
  method PlaneRotationStage(m: Maths, fromV1: Vec, fromV2: Vec, toV1: seq<Vec>, toV2: seq<Vec>)
    returns (planeNormalTo: seq<Vec>, r1: seq<PlaneRotation>)
    requires |fromV1| == 3 && |fromV2| == 3
    requires |toV1| == |toV2| && AllWidth3(toV1) && AllWidth3(toV2)
    ensures |planeNormalTo| == |toV1| && |r1| == |toV1|
    ensures forall i :: 0 <= i < |toV1| ==>
      planeNormalTo[i] == Normalized(m, SubstitutedNormal(fromV1, fromV2, toV1[i], toV2[i]))
    ensures forall i :: 0 <= i < |toV1| ==>
      r1[i] == PlaneRotationFor(m, fromV1, fromV2, toV1[i], toV2[i])
  {
    var commonAxes;
    planeNormalTo, commonAxes := PlaneAxes(m, fromV1, fromV2, toV1, toV2);
    var broadcastFrom := seq(|toV1|, _ => Cross(fromV1, fromV2));
    assert SameShape(broadcastFrom, planeNormalTo);
    var angles := GetAngleCartesianVec(m, broadcastFrom, planeNormalTo);
    r1 := AssembleR1(commonAxes, angles.value);
  }

  /** `R1[common_valid] = axangle2mat(axis, angle)` and `R1[~common_valid] = identity`. */
  method AssembleR1(axes: seq<Vec>, angles: seq<real>) returns (r1: seq<PlaneRotation>)
    requires |axes| == |angles|
    ensures |r1| == |axes|
    ensures forall k :: 0 <= k < |axes| ==> r1[k] == R1For(axes[k], angles[k])
  {
    var rotations := new PlaneRotation[|axes|](_ => Identity);
    for i := 0 to |axes|
      invariant forall k :: 0 <= k < i ==> rotations[k] == R1For(axes[k], angles[k])
      invariant forall k :: i <= k < |axes| ==> rotations[k] == Identity
    {
      if !Degenerate(axes[i]) {
        rotations[i] := AxisAngle(axes[i], angles[i]);
      }
    }
    r1 := rotations[..];
  }

  lemma CrossWithZero(a: Vec, b: Vec)
    requires |a| == 3 && |b| == 3 && IsZero(b)
    ensures IsZero(Cross(a, b))
  {
  }

  /** R1 is the identity exactly when the from-normal and the unsubstituted to-normal are
      parallel: their cross product is exactly zero. */
  lemma PlaneRotationIdentityIff(m: Maths, fromV1: Vec, fromV2: Vec, toV1: Vec, toV2: Vec)
    requires m.Lawful()
    requires |fromV1| == 3 && |fromV2| == 3 && |toV1| == 3 && |toV2| == 3
    ensures PlaneRotationFor(m, fromV1, fromV2, toV1, toV2) == Identity
      <==> IsZero(Cross(Cross(fromV1, fromV2), Cross(toV1, toV2)))
  {
    var c := Cross(Cross(fromV1, fromV2), Cross(toV1, toV2));
    NormalizedMeaning(m, c);
    if IsZero(c) {
      AbsSumZeroIff(c);
    } else {
      UnitNotCloseToZero(Normalized(m, c));
    }
  }

  /** A to-pair whose cross product is exactly zero gets R1 = identity, whatever normal
      the substitutions put in its place. */
  lemma ZeroToNormalGetsIdentity(m: Maths, fromV1: Vec, fromV2: Vec, toV1: Vec, toV2: Vec)
    requires m.Lawful()
    requires |fromV1| == 3 && |fromV2| == 3 && |toV1| == 3 && |toV2| == 3
    requires IsZero(Cross(toV1, toV2))
    ensures PlaneRotationFor(m, fromV1, fromV2, toV1, toV2) == Identity
  {
    CrossWithZero(Cross(fromV1, fromV2), Cross(toV1, toV2));
    PlaneRotationIdentityIff(m, fromV1, fromV2, toV1, toV2);
  }

  /** Collinear to-vectors: the substitution supplies from_v1 × to_v1 as the to-normal,
      yet R1 stays the identity because the common axis was taken before it. */
  lemma CollinearPairSubstitutedButIdentity(m: Maths)
    requires m.Lawful()
    ensures var fromV1, fromV2, to := [0.0, 1.0, 0.0], [0.0, 0.0, 1.0], [1.0, 0.0, 0.0];
      && SubstitutedNormal(fromV1, fromV2, to, to) == [0.0, 0.0, -1.0]
      && PlaneRotationFor(m, fromV1, fromV2, to, to) == Identity
  {
    var fromV1, fromV2, to := [0.0, 1.0, 0.0], [0.0, 0.0, 1.0], [1.0, 0.0, 0.0];
    assert Cross(to, to) == [0.0, 0.0, 0.0];
    assert AbsSum([0.0, 0.0, 0.0]) == 0.0;
    assert Cross(fromV1, to) == [0.0, 0.0, -1.0];
    assert AbsSum([0.0, 0.0, -1.0]) == 1.0;
    ZeroToNormalGetsIdentity(m, fromV1, fromV2, to, to);
  }

  /** A to-normal that is close to zero but not zero is substituted, and still yields a
      proper rotation R1 about a unit axis. */
  lemma NearlyDegeneratePairGetsRotation(m: Maths)
    requires m.Lawful()
    ensures var fromV1, fromV2, toV1, toV2 := [0.0, 1.0, 0.0], [0.0, 0.0, 1.0], [1.0, 0.0, 0.0], [0.0, 0.000000001, 0.0];
      && Degenerate(Cross(toV1, toV2))
      && PlaneRotationFor(m, fromV1, fromV2, toV1, toV2).AxisAngle?
  {
    var fromV1, fromV2, toV1, toV2 := [0.0, 1.0, 0.0], [0.0, 0.0, 1.0], [1.0, 0.0, 0.0], [0.0, 0.000000001, 0.0];
    assert Cross(toV1, toV2) == [0.0, 0.0, 0.000000001];
    assert AbsSum([0.0, 0.0, 0.000000001]) == 0.000000001;
    assert Cross(fromV1, fromV2) == [1.0, 0.0, 0.0];
    var c := Cross([1.0, 0.0, 0.0], [0.0, 0.0, 0.000000001]);
    assert c == [0.0, -0.000000001, 0.0];
    assert c[1] != 0.0;
    PlaneRotationIdentityIff(m, fromV1, fromV2, toV1, toV2);
  }
}
