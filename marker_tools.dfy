/** pixstem's marker tools: a grid of ragged peak lists (one list per scan position, or
    none) becomes a list of point markers, marker i holding peak i of every position and a
    far-away placeholder where a position has fewer peaks; the markers are then stored in a
    signal's metadata under the names marker0, marker1, … */
module MarkerTools {
  import opened Numerics

  // =================================================================================
  // Values

  /** The peaks found at one scan position, each a row (row index, column index, …);
      `None` where the position holds no list. */
  type Cell = Option<seq<Vec>>

  /** `index2value` of the two signal axes of a HyperSpy axes manager, as functions. */
  datatype SignalAxes = SignalAxes(xIndexToValue: int -> real, yIndexToValue: int -> real)

  /** A HyperSpy point marker: one x and one y coordinate per scan position. */
  datatype Marker = Point(x: seq<seq<real>>, y: seq<seq<real>>, color: string, size: int)

  /** The coordinate written where a position has no peak for a marker. */
  const Placeholder: real := -1000.0

  /** Python's `int()` of a float: truncation toward zero. */
  function Trunc(x: real): (t: int)
    ensures 0.0 <= x ==> 0 <= t && t as real <= x < t as real + 1.0
    ensures x < 0.0 ==> t <= 0 && t as real - 1.0 < x <= t as real
  {
    if 0.0 <= x then x.Floor else -((-x).Floor)
  }

  /** Every peak of the cell has at least a row and a column coordinate. */
  ghost predicate TwoCoordinates(c: Cell) {
    c.Some? ==> forall p :: p in c.value ==> |p| >= 2
  }

  ghost predicate WellFormedGrid(g: seq<seq<Cell>>) {
    forall a, b :: 0 <= a < |g| && 0 <= b < |g[a]| ==> TwoCoordinates(g[a][b])
  }

  /** The number of peaks at a position, 0 for a position without a list. */
  function CellLength(c: Cell): nat {
    if c.Some? then |c.value| else 0
  }

  function MaxNat(a: nat, b: nat): nat {
    if b > a then b else a
  }

  /** The most peaks at any position of one grid row. */
  function MaxOfRow(row: seq<Cell>): (r: nat)
    ensures forall b :: 0 <= b < |row| ==> CellLength(row[b]) <= r
    ensures r == 0 || exists b :: 0 <= b < |row| && CellLength(row[b]) == r
  {
    if |row| == 0 then 0 else MaxNat(MaxOfRow(row[..|row| - 1]), CellLength(row[|row| - 1]))
  }

  /** `max_peaks`: the most peaks at any position of the grid, 0 when no position has any. */
  function MaxPeaks(g: seq<seq<Cell>>): (r: nat)
    ensures forall a, b :: 0 <= a < |g| && 0 <= b < |g[a]| ==> CellLength(g[a][b]) <= r
    ensures r == 0 || exists a, b :: 0 <= a < |g| && 0 <= b < |g[a]| && CellLength(g[a][b]) == r
  {
    if |g| == 0 then 0 else MaxNat(MaxPeaks(g[..|g| - 1]), MaxOfRow(g[|g| - 1]))
  }

  /** Slot k of a position in the x array: the column index of peak k, truncated and mapped
      through the x axis, or the placeholder. */
  function SlotX(axes: SignalAxes, c: Cell, k: nat): real
    requires TwoCoordinates(c)
  {
    if c.Some? && k < |c.value| then axes.xIndexToValue(Trunc(c.value[k][1])) else Placeholder
  }

  /** Slot k of a position in the y array: the row index of peak k, truncated and mapped
      through the y axis, or the placeholder. */
  function SlotY(axes: SignalAxes, c: Cell, k: nat): real
    requires TwoCoordinates(c)
  {
    if c.Some? && k < |c.value| then axes.yIndexToValue(Trunc(c.value[k][0])) else Placeholder
  }

  /** Slot k of every position in the x array, `marker_x_array[..., k]` as promised. */
  function SlotsX(axes: SignalAxes, g: seq<seq<Cell>>, k: nat): seq<seq<real>>
    requires WellFormedGrid(g)
  {
    seq(|g|, a requires 0 <= a < |g| => seq(|g[a]|, b requires 0 <= b < |g[a]| => SlotX(axes, g[a][b], k)))
  }

  /** Slot k of every position in the y array, `marker_y_array[..., k]` as promised. */
  function SlotsY(axes: SignalAxes, g: seq<seq<Cell>>, k: nat): seq<seq<real>>
    requires WellFormedGrid(g)
  {
    seq(|g|, a requires 0 <= a < |g| => seq(|g[a]|, b requires 0 <= b < |g[a]| => SlotY(axes, g[a][b], k)))
  }

  /** The marker list `_get_4d_marker_list` promises: `max_peaks` markers, marker k made of
      slot k of every position. */
  function ExpectedMarkers(axes: SignalAxes, g: seq<seq<Cell>>, color: string, size: int): (ms: seq<Marker>)
    requires WellFormedGrid(g)
    ensures |ms| == MaxPeaks(g)
  {
    seq(MaxPeaks(g), k requires 0 <= k < MaxPeaks(g) => Point(SlotsX(axes, g, k), SlotsY(axes, g, k), color, size))
  }

  /** The grid of an object array of peak lists, as a value. */
  function GridOf(peaks: array2<Cell>): (g: seq<seq<Cell>>)
    reads peaks
    ensures |g| == peaks.Length0
    ensures forall a :: 0 <= a < |g| ==> |g[a]| == peaks.Length1
  {
    seq(peaks.Length0, a requires 0 <= a < peaks.Length0 reads peaks =>
      seq(peaks.Length1, b requires 0 <= b < peaks.Length1 reads peaks => peaks[a, b]))
  }

  // =================================================================================
  // _get_4d_marker_list

  /** The scan for `max_peaks` over the positions in `np.ndindex` order. */
  method MaxPeaksOf(peaks: array2<Cell>) returns (maxPeaks: nat)
    ensures maxPeaks == MaxPeaks(GridOf(peaks))
  {
    ghost var g := GridOf(peaks);
    maxPeaks := 0;
    for ix := 0 to peaks.Length0
      invariant maxPeaks == MaxPeaks(g[..ix])
    {
      assert g[..ix + 1][..ix] == g[..ix];
      for iy := 0 to peaks.Length1
        invariant maxPeaks == MaxNat(MaxPeaks(g[..ix]), MaxOfRow(g[ix][..iy]))
      {
        assert g[ix][..iy + 1][..iy] == g[ix][..iy];
        var peakList := peaks[ix, iy];
        if peakList.Some? {
          var nPeaks := |peakList.value|;
          if nPeaks > maxPeaks {
            maxPeaks := nPeaks;
          }
        }
      }
      assert g[ix][..peaks.Length1] == g[ix];
    }
    assert g[..peaks.Length0] == g;
  }

  /** Every peak of every position of the object array has a row and a column coordinate. */
  ghost predicate WellFormedPeaks(peaks: array2<Cell>)
    reads peaks
  {
    forall a, b :: 0 <= a < peaks.Length0 && 0 <= b < peaks.Length1 ==> TwoCoordinates(peaks[a, b])
  }

  /** The placeholder array shape shared by `marker_x_array` and `marker_y_array`. */
  ghost predicate SameShape3(xs: array3<real>, ys: array3<real>) {
    xs.Length0 == ys.Length0 && xs.Length1 == ys.Length1 && xs.Length2 == ys.Length2
  }

  /** The writes for one position: slot k of the x and y arrays receives peak k. */
  method FillPosition(axes: SignalAxes, cell: Cell, xs: array3<real>, ys: array3<real>, ix: nat, iy: nat)
    requires xs != ys && SameShape3(xs, ys) && TwoCoordinates(cell) && CellLength(cell) <= xs.Length2
    requires ix < xs.Length0 && iy < xs.Length1
    requires forall k :: 0 <= k < xs.Length2 ==> xs[ix, iy, k] == Placeholder && ys[ix, iy, k] == Placeholder
    modifies xs, ys
    ensures forall k :: 0 <= k < xs.Length2 ==> xs[ix, iy, k] == SlotX(axes, cell, k) && ys[ix, iy, k] == SlotY(axes, cell, k)
    ensures forall a, b, k :: 0 <= a < xs.Length0 && 0 <= b < xs.Length1 && 0 <= k < xs.Length2 && (a != ix || b != iy) ==>
      xs[a, b, k] == old(xs[a, b, k]) && ys[a, b, k] == old(ys[a, b, k])
  {
    if cell.Some? {
      var peakList := cell.value;
      for iPeak := 0 to |peakList|
        invariant forall k :: 0 <= k < xs.Length2 ==>
          xs[ix, iy, k] == (if k < iPeak then SlotX(axes, cell, k) else Placeholder) &&
          ys[ix, iy, k] == (if k < iPeak then SlotY(axes, cell, k) else Placeholder)
        invariant forall a, b, k :: 0 <= a < xs.Length0 && 0 <= b < xs.Length1 && 0 <= k < xs.Length2 && (a != ix || b != iy) ==>
          xs[a, b, k] == old(xs[a, b, k]) && ys[a, b, k] == old(ys[a, b, k])
      {
        var peak := peakList[iPeak];
        assert peak in peakList;
        xs[ix, iy, iPeak] := axes.xIndexToValue(Trunc(peak[1]));
        ys[ix, iy, iPeak] := axes.yIndexToValue(Trunc(peak[0]));
      }
    }
  }

  /** The writes for the positions of row `ix`, in `np.ndindex` order. */
  method FillRow(axes: SignalAxes, peaks: array2<Cell>, xs: array3<real>, ys: array3<real>, ix: nat)
    requires WellFormedPeaks(peaks) && xs != ys && SameShape3(xs, ys)
    requires xs.Length0 == peaks.Length0 && xs.Length1 == peaks.Length1 && ix < xs.Length0
    requires forall b :: 0 <= b < peaks.Length1 ==> CellLength(peaks[ix, b]) <= xs.Length2
    requires forall b, k :: 0 <= b < xs.Length1 && 0 <= k < xs.Length2 ==>
      xs[ix, b, k] == Placeholder && ys[ix, b, k] == Placeholder
    modifies xs, ys
    ensures forall b, k :: 0 <= b < xs.Length1 && 0 <= k < xs.Length2 ==>
      xs[ix, b, k] == SlotX(axes, peaks[ix, b], k) && ys[ix, b, k] == SlotY(axes, peaks[ix, b], k)
    ensures forall a, b, k :: 0 <= a < xs.Length0 && 0 <= b < xs.Length1 && 0 <= k < xs.Length2 && a != ix ==>
      xs[a, b, k] == old(xs[a, b, k]) && ys[a, b, k] == old(ys[a, b, k])
  {
    for iy := 0 to peaks.Length1
      invariant forall b, k :: 0 <= b < iy && 0 <= k < xs.Length2 ==>
        xs[ix, b, k] == SlotX(axes, peaks[ix, b], k) && ys[ix, b, k] == SlotY(axes, peaks[ix, b], k)
      invariant forall b, k :: iy <= b < xs.Length1 && 0 <= k < xs.Length2 ==>
        xs[ix, b, k] == Placeholder && ys[ix, b, k] == Placeholder
      invariant forall a, b, k :: 0 <= a < xs.Length0 && 0 <= b < xs.Length1 && 0 <= k < xs.Length2 && a != ix ==>
        xs[a, b, k] == old(xs[a, b, k]) && ys[a, b, k] == old(ys[a, b, k])
    {
      FillPosition(axes, peaks[ix, iy], xs, ys, ix, iy);
    }
  }

  /** `marker_x_array` and `marker_y_array`: filled with the placeholder, then written
      position by position. */
  method FillMarkerArrays(axes: SignalAxes, peaks: array2<Cell>, maxPeaks: nat)
    returns (xs: array3<real>, ys: array3<real>)
    requires WellFormedPeaks(peaks)
    requires forall a, b :: 0 <= a < peaks.Length0 && 0 <= b < peaks.Length1 ==> CellLength(peaks[a, b]) <= maxPeaks
    ensures fresh(xs) && fresh(ys) && xs != ys && SameShape3(xs, ys)
    ensures xs.Length0 == peaks.Length0 && xs.Length1 == peaks.Length1 && xs.Length2 == maxPeaks
    ensures forall a, b, k :: 0 <= a < xs.Length0 && 0 <= b < xs.Length1 && 0 <= k < maxPeaks ==>
      xs[a, b, k] == SlotX(axes, peaks[a, b], k) && ys[a, b, k] == SlotY(axes, peaks[a, b], k)
  {
    var nx, ny := peaks.Length0, peaks.Length1;
    xs := new real[nx, ny, maxPeaks]((_, _, _) => Placeholder);
    ys := new real[nx, ny, maxPeaks]((_, _, _) => Placeholder);
    for ix := 0 to nx
      invariant forall a, b, k :: 0 <= a < ix && 0 <= b < ny && 0 <= k < maxPeaks ==>
        xs[a, b, k] == SlotX(axes, peaks[a, b], k) && ys[a, b, k] == SlotY(axes, peaks[a, b], k)
      invariant forall a, b, k :: ix <= a < nx && 0 <= b < ny && 0 <= k < maxPeaks ==>
        xs[a, b, k] == Placeholder && ys[a, b, k] == Placeholder
    {
      FillRow(axes, peaks, xs, ys, ix);
    }
  }

  /** `marker_x_array[..., k]`: slot k of every position. */
  function SliceAt(arr: array3<real>, k: nat): seq<seq<real>>
    requires k < arr.Length2
    reads arr
  {
    seq(arr.Length0, a requires 0 <= a < arr.Length0 reads arr =>
      seq(arr.Length1, b requires 0 <= b < arr.Length1 reads arr => arr[a, b, k]))
  }

  /** The array of peak lists and its grid of values agree position by position. */
  lemma GridOfWellFormed(peaks: array2<Cell>)
    requires WellFormedPeaks(peaks)
    ensures WellFormedGrid(GridOf(peaks))
    ensures forall a, b :: 0 <= a < peaks.Length0 && 0 <= b < peaks.Length1 ==> GridOf(peaks)[a][b] == peaks[a, b]
  {
  }

  /** Slices of arrays filled as `FillMarkerArrays` promises are the slots. */
  lemma SlicesAreSlots(axes: SignalAxes, peaks: array2<Cell>, xs: array3<real>, ys: array3<real>, k: nat)
    requires WellFormedPeaks(peaks) && SameShape3(xs, ys) && k < xs.Length2
    requires xs.Length0 == peaks.Length0 && xs.Length1 == peaks.Length1
    requires forall a, b :: 0 <= a < xs.Length0 && 0 <= b < xs.Length1 ==>
      xs[a, b, k] == SlotX(axes, peaks[a, b], k) && ys[a, b, k] == SlotY(axes, peaks[a, b], k)
    ensures WellFormedGrid(GridOf(peaks))
    ensures SliceAt(xs, k) == SlotsX(axes, GridOf(peaks), k)
    ensures SliceAt(ys, k) == SlotsY(axes, GridOf(peaks), k)
  {
    GridOfWellFormed(peaks);
    var g := GridOf(peaks);
    forall a | 0 <= a < xs.Length0
      ensures SliceAt(xs, k)[a] == SlotsX(axes, g, k)[a]
    {
    }
    forall a | 0 <= a < xs.Length0
      ensures SliceAt(ys, k)[a] == SlotsY(axes, g, k)[a]
    {
    }
  }

  /** The loop appending one marker per slot. */
  method CollectMarkers(xs: array3<real>, ys: array3<real>, color: string, size: int)
    returns (markerList: seq<Marker>)
    requires SameShape3(xs, ys)
    ensures |markerList| == xs.Length2
    ensures forall k :: 0 <= k < xs.Length2 ==> markerList[k] == Point(SliceAt(xs, k), SliceAt(ys, k), color, size)
  {
    markerList := [];
    for iPeak := 0 to xs.Length2
      invariant |markerList| == iPeak
      invariant forall k :: 0 <= k < iPeak ==> markerList[k] == Point(SliceAt(xs, k), SliceAt(ys, k), color, size)
    {
      markerList := markerList + [Point(SliceAt(xs, iPeak), SliceAt(ys, iPeak), color, size)];
    }
  }

  /** `_get_4d_marker_list`: one point marker per peak slot, slot k of every position in
      marker k. */
  method Get4dMarkerList(axes: SignalAxes, peaks: array2<Cell>, color: string, size: int)
    returns (markerList: seq<Marker>)
    requires WellFormedPeaks(peaks)
    ensures WellFormedGrid(GridOf(peaks))
    ensures markerList == ExpectedMarkers(axes, GridOf(peaks), color, size)
  {
    GridOfWellFormed(peaks);
    ghost var g := GridOf(peaks);
    var maxPeaks := MaxPeaksOf(peaks);
    var xs, ys := FillMarkerArrays(axes, peaks, maxPeaks);
    markerList := CollectMarkers(xs, ys, color, size);
    forall k | 0 <= k < maxPeaks
      ensures markerList[k] == ExpectedMarkers(axes, g, color, size)[k]
    {
      SlicesAreSlots(axes, peaks, xs, ys, k);
    }
  }

  /** Every peak of every position is shown: peak k of a position lands in marker k at that
      position, with the swapped, truncated coordinates mapped through the axes. */
  lemma EveryPeakHasAMarker(axes: SignalAxes, g: seq<seq<Cell>>, color: string, size: int, a: nat, b: nat, k: nat)
    requires WellFormedGrid(g) && a < |g| && b < |g[a]|
    requires g[a][b].Some? && k < |g[a][b].value|
    ensures var ms := ExpectedMarkers(axes, g, color, size);
      && k < |ms|
      && ms[k].x[a][b] == axes.xIndexToValue(Trunc(g[a][b].value[k][1]))
      && ms[k].y[a][b] == axes.yIndexToValue(Trunc(g[a][b].value[k][0]))
  {
    assert CellLength(g[a][b]) <= MaxPeaks(g);
  }

  /** No marker is made of placeholders only: for every marker some position has that
      many peaks; and at a position with fewer peaks, it holds the placeholder. */
  lemma MarkersArePadded(axes: SignalAxes, g: seq<seq<Cell>>, color: string, size: int, k: nat)
    requires WellFormedGrid(g)
    requires k < MaxPeaks(g)
    ensures exists a, b :: 0 <= a < |g| && 0 <= b < |g[a]| && k < CellLength(g[a][b])
    ensures var ms := ExpectedMarkers(axes, g, color, size);
      forall a, b :: 0 <= a < |g| && 0 <= b < |g[a]| && CellLength(g[a][b]) <= k ==>
        ms[k].x[a][b] == Placeholder && ms[k].y[a][b] == Placeholder
  {
  }

  // =================================================================================
  // _add_permanent_markers_to_signal, add_peak_array_to_signal_as_markers

  /** The decimal digits of a natural number, as `'{0}'.format(n)` writes them. */
  function NatToString(n: nat): (s: string)
    ensures |s| >= 1
    ensures forall c :: c in s ==> '0' <= c <= '9'
  {
    if n < 10 then [Digit(n)] else NatToString(n / 10) + [Digit(n % 10)]
  }

  function Digit(d: nat): (c: char)
    requires d < 10
    ensures '0' <= c <= '9'
  {
    "0123456789"[d]
  }

  /** `'marker{0}'.format(i)`. */
  function MarkerName(i: nat): string {
    "marker" + NatToString(i)
  }

  /** Different numbers have different decimal strings. */
  lemma {:induction false} NatToStringInjective(n: nat, m: nat)
    requires NatToString(n) == NatToString(m)
    ensures n == m
  {
    var s, t := NatToString(n), NatToString(m);
    if n < 10 && m < 10 {
      assert "0123456789"[n] == s[0] == t[0] == "0123456789"[m];
    } else if n < 10 || m < 10 {
    } else {
      assert s[|s| - 1] == Digit(n % 10) && t[|t| - 1] == Digit(m % 10);
      assert "0123456789"[n % 10] == "0123456789"[m % 10];
      assert NatToString(n / 10) == s[..|s| - 1] == t[..|t| - 1] == NatToString(m / 10);
      NatToStringInjective(n / 10, m / 10);
    }
  }

  lemma MarkerNameInjective(i: nat, j: nat)
    requires MarkerName(i) == MarkerName(j)
    ensures i == j
  {
    assert NatToString(i) == MarkerName(i)[6..] == MarkerName(j)[6..] == NatToString(j);
    NatToStringInjective(i, j);
  }

  lemma MarkerNamesDistinct(i: nat, j: nat)
    requires i != j
    ensures MarkerName(i) != MarkerName(j)
  {
    if MarkerName(i) == MarkerName(j) {
      MarkerNameInjective(i, j);
    }
  }

  /** The `Markers` node after storing `markerList` one entry at a time into `existing`. */
  function Stored(existing: map<string, Marker>, markerList: seq<Marker>): (r: map<string, Marker>)
    ensures existing.Keys <= r.Keys
    ensures forall i :: 0 <= i < |markerList| ==> MarkerName(i) in r
  {
    if |markerList| == 0 then existing
    else Stored(existing, markerList[..|markerList| - 1])[MarkerName(|markerList| - 1) := markerList[|markerList| - 1]]
  }

  /** The names `marker0` … `marker{n-1}`. */
  function MarkerNames(n: nat): set<string> {
    set i | 0 <= i < n :: MarkerName(i)
  }

  /** Storing adds exactly the marker names to the node's keys. */
  lemma {:induction false} StoredKeys(existing: map<string, Marker>, markerList: seq<Marker>)
    ensures Stored(existing, markerList).Keys == existing.Keys + MarkerNames(|markerList|)
  {
    if |markerList| > 0 {
      var n := |markerList| - 1;
      var before := Stored(existing, markerList[..n]);
      assert Stored(existing, markerList).Keys == before.Keys + {MarkerName(n)};
      StoredKeys(existing, markerList[..n]);
      assert MarkerNames(n + 1) == MarkerNames(n) + {MarkerName(n)};
    }
  }

  /** Storing puts marker i under `marker{i}`: a later name never overwrites an earlier one. */
  lemma {:induction false} StoredEntries(existing: map<string, Marker>, markerList: seq<Marker>)
    ensures var r := Stored(existing, markerList);
      forall i :: 0 <= i < |markerList| ==> MarkerName(i) in r && r[MarkerName(i)] == markerList[i]
  {
    if |markerList| > 0 {
      var n := |markerList| - 1;
      var before := Stored(existing, markerList[..n]);
      var r := before[MarkerName(n) := markerList[n]];
      assert Stored(existing, markerList) == r;
      StoredEntries(existing, markerList[..n]);
      forall i | 0 <= i < n
        ensures MarkerName(i) in r && r[MarkerName(i)] == markerList[i]
      {
        MarkerNamesDistinct(i, n);
        assert before[MarkerName(i)] == markerList[..n][i];
      }
    }
  }

  /** Storing leaves every key that is not a marker name with its value. */
  lemma {:induction false} StoredKeepsOtherKeys(existing: map<string, Marker>, markerList: seq<Marker>, key: string)
    requires key in existing && key !in MarkerNames(|markerList|)
    ensures key in Stored(existing, markerList) && Stored(existing, markerList)[key] == existing[key]
  {
    if |markerList| > 0 {
      var n := |markerList| - 1;
      assert MarkerName(n) in MarkerNames(n + 1);
      assert MarkerNames(n) <= MarkerNames(n + 1);
      StoredKeepsOtherKeys(existing, markerList[..n], key);
    }
  }

  /** A signal: its calibrated signal axes and the optional `Markers` node of its metadata. */
  class Signal {
    const axes: SignalAxes
    var markers: Option<map<string, Marker>>

    constructor(axes: SignalAxes, markers: Option<map<string, Marker>>)
      ensures this.axes == axes && this.markers == markers
    {
      this.axes := axes;
      this.markers := markers;
    }
  }

  /** The node's entries, the empty node where it is absent. */
  function NodeOf(markers: Option<map<string, Marker>>): map<string, Marker> {
    if markers.Some? then markers.value else map[]
  }

  /** `_add_permanent_markers_to_signal`: creates the node if absent, then sets
      `marker{i}` to marker i for every i, in increasing order. */
  method AddPermanentMarkersToSignal(signal: Signal, markerList: seq<Marker>)
    modifies signal
    ensures signal.markers == Some(Stored(NodeOf(old(signal.markers)), markerList))
  {
    if signal.markers.None? {
      signal.markers := Some(map[]);
    }
    for i := 0 to |markerList|
      invariant signal.markers == Some(Stored(NodeOf(old(signal.markers)), markerList[..i]))
    {
      assert markerList[..i + 1][..i] == markerList[..i];
      signal.markers := Some(signal.markers.value[MarkerName(i) := markerList[i]]);
    }
    assert markerList[..|markerList|] == markerList;
  }

  /** `add_peak_array_to_signal_as_markers`: the marker list of the peak grid, built on the
      signal's own axes with the given colour and size, stored in the signal. */
  method AddPeakArrayToSignalAsMarkers(signal: Signal, peakArray: array2<Cell>, color: string, size: int)
    requires WellFormedPeaks(peakArray)
    modifies signal
    ensures WellFormedGrid(GridOf(peakArray))
    ensures signal.markers == Some(Stored(NodeOf(old(signal.markers)),
      ExpectedMarkers(signal.axes, GridOf(peakArray), color, size)))
  {
    var markerList := Get4dMarkerList(signal.axes, peakArray, color, size);
    AddPermanentMarkersToSignal(signal, markerList);
  }
}
