/** Concrete cases, proved on the diffraction-vector fixture of the repository's tests: a
    2 × 2 map of ragged vector lists and what the filters' specifications give on it. */
module Scenarios {
  import opened Numerics
  import opened VectorUtils
  import MarkerTools

  /** Cell (0, 0) of the fixture: seven vectors. */
  const Cell00: seq<Vec> := [
    [0.089685, 0.292971], [0.017937, 0.277027], [-0.069755, 0.257097], [-0.165419, 0.241153],
    [0.049825, 0.149475], [-0.037867, 0.129545], [-0.117587, 0.113601]]

  /** Cell (0, 1) of the fixture: the seven vectors of cell (0, 0) and six more. */
  const Cell01: seq<Vec> := Cell00 + [
    [0.149475, 0.065769], [0.229195, 0.045839], [0.141503, 0.025909], [0.073741, 0.013951],
    [0.001993, 0.001993], [-0.069755, -0.009965]]

  /** Cell (1, 1) of the fixture: a single short vector. */
  const Cell11: seq<Vec> := [[0.001993, 0.001993]]

  /** A norm lies in [lo, hi] exactly when its square lies in [lo², hi²]. */
  lemma NormBetween(m: Maths, v: Vec, lo: real, hi: real)
    requires m.Lawful() && 0.0 <= lo && 0.0 <= hi
    ensures lo <= Norm(m, v) <= hi <==> lo * lo <= SqNorm(v) <= hi * hi
  {
    SqrtCompare(m, SqNorm(v), lo);
    SqrtCompare(m, SqNorm(v), hi);
  }

  /** A mask set exactly on the first p rows selects the first p rows. */
  lemma {:induction false} SelectPrefix(z: seq<Vec>, keep: seq<bool>, p: nat)
    requires |keep| == |z| && p <= |z|
    requires forall i :: 0 <= i < |z| ==> (keep[i] <==> i < p)
    ensures Select(z, keep) == z[..p]
  {
    if |z| > 0 {
      var n := |z| - 1;
      SelectPrefix(z[..n], keep[..n], if p <= n then p else n);
      if p == |z| {
        assert z[..n] + [z[n]] == z[..p];
      } else {
        assert z[..n][..p] == z[..p];
      }
    }
  }

  /** With x and y thresholds 0.128 and 0.118, only the last vector of cell (0, 0) stays,
      the answer the edge-filter test expects for that cell. */
  lemma EdgeFilterOnFixtureCell()
    ensures var zeroed := EdgeZeroed(Cell00, 0.128, 0.118);
      Select(zeroed, NonzeroX(zeroed)) == [[-0.117587, 0.113601]]
  {
    var zeroed := EdgeZeroed(Cell00, 0.128, 0.118);
    EdgeFilterSelectsOriginalRows(Cell00, 0.128, 0.118);
    var keep := EdgeMask(Cell00, 0.128, 0.118);
    assert forall i :: 0 <= i < 6 ==> !keep[i];
    assert keep[6];
    assert Select(Cell00, keep) == Select(Cell00[..6], keep[..6]) + [Cell00[6]];
    assert forall i :: 0 <= i < 6 ==> !keep[..6][i];
    SelectNone(Cell00[..6], keep[..6]);
  }

  /** With both thresholds at 0.26, two of the thirteen vectors of cell (0, 1) lie beyond
      the edge: the first two, whose y exceeds 0.26. */
  lemma EdgeThresholdSplitsFixtureCell()
    ensures forall i :: 0 <= i < |Cell01| ==> (BeyondEdge(Cell01[i], 0.26, 0.26) <==> i < 2)
  {
  }

  /** A mask with no entry set selects nothing. */
  lemma {:induction false} SelectNone(z: seq<Vec>, keep: seq<bool>)
    requires |keep| == |z| && forall i :: 0 <= i < |keep| ==> !keep[i]
    ensures Select(z, keep) == []
  {
    if |z| > 0 {
      SelectNone(z[..|z| - 1], keep[..|z| - 1]);
    }
  }

  /** The magnitude filter with bounds 0.1 and 1.0 keeps the first ten vectors of cell
      (0, 1), the answer the magnitude-filter test expects. */
  lemma MagnitudeFilterOnFixtureCell(m: Maths)
    requires m.Lawful()
    ensures Select(Cell01, MagnitudeMask(m, Cell01, 0.1, 1.0)) == Cell01[..10]
  {
    var keep := MagnitudeMask(m, Cell01, 0.1, 1.0);
    forall i | 0 <= i < |Cell01|
      ensures keep[i] <==> i < 10
    {
      MagnitudeMaskMeaning(m, Cell01, 0.1, 1.0, i);
      NormBetween(m, Cell01[i], 0.1, 1.0);
      assert Cell01[i][0] != 0.0;
    }
    SelectPrefix(Cell01, keep, 10);
  }

  /** With the bounds 0 and 0.1, the one short vector of cell (1, 1) counts as in range. */
  lemma InRangeCountOfShortCell(m: Maths)
    requires m.Lawful()
    ensures GetNpeaks(Select(Cell11, MagnitudeMask(m, Cell11, 0.0, 0.1))) == 1
  {
    MagnitudeMaskMeaning(m, Cell11, 0.0, 0.1, 0);
    NormBetween(m, Cell11[0], 0.0, 0.1);
    assert Cell11[0][0] != 0.0;
    NpeaksOfSelection(Cell11, MagnitudeMask(m, Cell11, 0.0, 0.1));
  }

  /** A 1 × 2 grid with no list at the first position and two peaks at the second gives
      two markers; the second holds the placeholder at the first position and the
      swapped, truncated coordinates of the second peak at the second. */
  lemma MarkersOfSmallGrid(axes: MarkerTools.SignalAxes)
    ensures var g := [[None, Some([[1.0, 2.5], [3.9, 4.0]])]];
      && MarkerTools.WellFormedGrid(g)
      && var ms := MarkerTools.ExpectedMarkers(axes, g, "red", 20);
      && |ms| == 2
      && ms[1].x[0][0] == MarkerTools.Placeholder && ms[1].x[0][1] == axes.xIndexToValue(4)
      && ms[1].y[0][0] == MarkerTools.Placeholder && ms[1].y[0][1] == axes.yIndexToValue(3)
  {
    var g: seq<seq<MarkerTools.Cell>> := [[None, Some([[1.0, 2.5], [3.9, 4.0]])]];
    assert MarkerTools.MaxOfRow(g[0][..1]) == 0;
    assert MarkerTools.MaxOfRow(g[0]) == 2;
    assert g[..0] == [];
    assert MarkerTools.Trunc(4.0) == 4 && MarkerTools.Trunc(3.9) == 3;
  }
}
