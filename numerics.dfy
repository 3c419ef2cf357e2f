/** Exact-real stand-ins for the NumPy arithmetic that the vector utilities and the
    marker tools rely on: rows of coordinates, sums of squares, dot and cross products,
    and the square root and arc cosine, which are supplied from outside as values. */
module Numerics {

  /** One coordinate row: a 2D detector vector or a 3D reciprocal-space vector. */
  type Vec = seq<real>

  /** A row that may be missing; `None` stands for a row of NaN. */
  datatype Option<+T> = None | Some(value: T)

  /** The floating-point library functions the source calls (`np.sqrt`, `np.arccos`,
      `math.acos`) and the constant pi, as values. `Lawful` states the only facts about
      them that the model uses. */
  datatype Maths = Maths(sqrt: real -> real, arccos: real -> real, pi: real) {
    ghost predicate Lawful() {
      SqrtLaw() && ArccosLaw()
    }

    /** `sqrt` returns the nonnegative square root of a nonnegative argument. */
    ghost predicate SqrtLaw() {
      forall x :: 0.0 <= x ==> 0.0 <= sqrt(x) && sqrt(x) * sqrt(x) == x
    }

    /** `arccos` maps [-1, 1] into [0, pi], with arccos(1) = 0 and arccos(-1) = pi. */
    ghost predicate ArccosLaw() {
      && 3.14 < pi < 3.15
      && arccos(1.0) == 0.0
      && arccos(-1.0) == pi
      && (forall x :: -1.0 <= x <= 1.0 ==> 0.0 <= arccos(x) <= pi)
    }
  }

  function Abs(x: real): (r: real)
    ensures r >= 0.0 && (r == x || r == -x)
  {
    if x < 0.0 then -x else x
  }

  function Zeros(d: nat): (z: Vec)
    ensures |z| == d && IsZero(z)
  {
    seq(d, _ => 0.0)
  }

  /** Every coordinate is zero. */
  ghost predicate IsZero(v: Vec) {
    forall k :: 0 <= k < |v| ==> v[k] == 0.0
  }

  /** Sum of the squared coordinates. */
  function SqNorm(v: Vec): (r: real)
    ensures r >= 0.0
  {
    if |v| == 0 then 0.0 else v[0] * v[0] + SqNorm(v[1..])
  }

  /** The Euclidean norm, `np.linalg.norm` of one row. */
  function Norm(m: Maths, v: Vec): real {
    m.sqrt(SqNorm(v))
  }

  function Dot(a: Vec, b: Vec): real
    requires |a| == |b|
  {
    if |a| == 0 then 0.0 else a[0] * b[0] + Dot(a[1..], b[1..])
  }

  function Sub(a: Vec, b: Vec): (d: Vec)
    requires |a| == |b|
    ensures |d| == |a| && forall k :: 0 <= k < |a| ==> d[k] + b[k] == a[k]
  {
    seq(|a|, k requires 0 <= k < |a| => a[k] - b[k])
  }

  /** The difference of two rows is zero exactly when the rows are equal. */
  lemma SubZeroIffEqual(a: Vec, b: Vec)
    requires |a| == |b|
    ensures IsZero(Sub(a, b)) <==> a == b
  {
    if IsZero(Sub(a, b)) {
      assert forall k :: 0 <= k < |a| ==> a[k] == b[k];
    }
  }

  /** The Euclidean distance, one entry of `scipy.spatial.distance.cdist`. */
  function Dist(m: Maths, a: Vec, b: Vec): real
    requires |a| == |b|
  {
    Norm(m, Sub(a, b))
  }

  function Neg(v: Vec): (r: Vec)
    ensures |r| == |v| && forall k :: 0 <= k < |v| ==> r[k] + v[k] == 0.0
  {
    seq(|v|, k requires 0 <= k < |v| => -v[k])
  }

  /** Every coordinate divided by `c`, as NumPy's `v /= c` does to one row. */
  function Div(v: Vec, c: real): (r: Vec)
    requires c != 0.0
    ensures |r| == |v| && forall k :: 0 <= k < |v| ==> r[k] * c == v[k]
  {
    seq(|v|, k requires 0 <= k < |v| => v[k] / c)
  }

  /** Sum of the absolute coordinates, `np.sum(np.abs(v), axis=-1)` for one row. */
  function AbsSum(v: Vec): (r: real)
    ensures r >= 0.0
  {
    if |v| == 0 then 0.0 else Abs(v[0]) + AbsSum(v[1..])
  }

  /** `np.isclose(x, 0.0)` with NumPy's default tolerances: |x - 0| <= atol + rtol * |0|,
      where atol = 1e-8. */
  predicate IsCloseToZero(x: real) {
    Abs(x) <= 0.00000001
  }

  /** `np.cross` of two 3-vectors. */
  function Cross(a: Vec, b: Vec): (c: Vec)
    requires |a| == 3 && |b| == 3
    ensures |c| == 3
  {
    [a[1] * b[2] - a[2] * b[1], a[2] * b[0] - a[0] * b[2], a[0] * b[1] - a[1] * b[0]]
  }

  // ---------------------------------------------------------------------------------
  // Arithmetic steps, each stated over independent variables so that the solver needs
  // no nonlinear reasoning where they are used.

  lemma MulPos(a: real, b: real)
    requires a > 0.0 && b > 0.0
    ensures a * b > 0.0
  {
  }

  lemma ZeroProduct(a: real, b: real)
    requires a * b == 0.0
    ensures a == 0.0 || b == 0.0
  {
  }

  lemma MulMonotone(a: real, b: real, c: real)
    requires c >= 0.0 && a <= b
    ensures c * a <= c * b
  {
    assert c * b - c * a == c * (b - a);
  }

  lemma MulStrictMonotone(a: real, b: real, c: real)
    requires c > 0.0 && a < b
    ensures c * a < c * b
  {
    assert c * b - c * a == c * (b - a);
    MulPos(c, b - a);
  }

  lemma ProductStrictMonotone(a: real, b: real, c: real, d: real)
    requires 0.0 <= a < b && 0.0 <= c < d
    ensures a * c < b * d
  {
    MulMonotone(a, b, c);
    MulStrictMonotone(c, d, b);
  }

  lemma DivSelf(x: real)
    requires x != 0.0
    ensures x / x == 1.0 && -x / x == -1.0
  {
  }

  lemma SumOfSquaresBound(a: real, t: real, x: real, r: real)
    requires a >= 0.0 && t >= 0.0 && a * a == x && r <= t * t
    ensures x + r <= (a + t) * (a + t)
  {
    MulMonotone(0.0, t, a);
    assert (a + t) * (a + t) == a * a + 2.0 * (a * t) + t * t;
  }

  // ---------------------------------------------------------------------------------
  // Facts about the definitions above.

  lemma {:induction false} SqNormZeroIff(v: Vec)
    ensures SqNorm(v) == 0.0 <==> IsZero(v)
  {
    if |v| > 0 {
      SqNormZeroIff(v[1..]);
      if SqNorm(v) == 0.0 {
        var rest := SqNorm(v[1..]);
        assert v[0] * v[0] + rest == 0.0;
        assert v[0] * v[0] == 0.0;
        ZeroProduct(v[0], v[0]);
        forall k | 0 <= k < |v| ensures v[k] == 0.0 {
          if k > 0 { assert v[k] == v[1..][k - 1]; }
        }
      }
      if IsZero(v) {
        assert IsZero(v[1..]) by {
          forall k | 0 <= k < |v[1..]| ensures v[1..][k] == 0.0 { assert v[1..][k] == v[k + 1]; }
        }
      }
    }
  }

  lemma SqrtZeroIff(m: Maths, s: real)
    requires m.Lawful() && s >= 0.0
    ensures m.sqrt(s) >= 0.0
    ensures m.sqrt(s) == 0.0 <==> s == 0.0
  {
    var r := m.sqrt(s);
    assert r >= 0.0 && r * r == s;
    if s == 0.0 { ZeroProduct(r, r); }
  }

  /** The norm is zero exactly for the zero row. */
  lemma NormZeroIff(m: Maths, v: Vec)
    requires m.Lawful()
    ensures Norm(m, v) >= 0.0
    ensures Norm(m, v) == 0.0 <==> IsZero(v)
  {
    SqrtZeroIff(m, SqNorm(v));
    SqNormZeroIff(v);
  }

  lemma SqrtOfSquare(m: Maths, a: real)
    requires m.Lawful() && a >= 0.0
    ensures m.sqrt(a * a) == a
  {
    var r := m.sqrt(a * a);
    assert r >= 0.0 && r * r == a * a;
    if r < a { ProductStrictMonotone(r, a, r, a); }
    if a < r { ProductStrictMonotone(a, r, a, r); }
  }

  lemma NormSquared(m: Maths, v: Vec)
    requires m.Lawful()
    ensures Norm(m, v) * Norm(m, v) == SqNorm(v)
  {
  }

  /** Comparing a square root with a nonnegative bound is comparing squares. */
  lemma SqrtCompare(m: Maths, s: real, t: real)
    requires m.Lawful() && s >= 0.0 && t >= 0.0
    ensures m.sqrt(s) < t <==> s < t * t
    ensures m.sqrt(s) > t <==> s > t * t
  {
    var r := m.sqrt(s);
    assert r >= 0.0 && r * r == s;
    if r < t { ProductStrictMonotone(r, t, r, t); }
    if t < r { ProductStrictMonotone(t, r, t, r); }
  }

  lemma {:induction false} SqNormDiv(v: Vec, c: real)
    requires c != 0.0
    ensures SqNorm(Div(v, c)) * (c * c) == SqNorm(v)
  {
    if |v| > 0 {
      var d := Div(v, c);
      assert d[1..] == Div(v[1..], c);
      SqNormDiv(v[1..], c);
      assert d[0] * c == v[0];
      calc {
        SqNorm(d) * (c * c);
        (d[0] * d[0] + SqNorm(d[1..])) * (c * c);
        (d[0] * c) * (d[0] * c) + SqNorm(d[1..]) * (c * c);
        v[0] * v[0] + SqNorm(v[1..]);
      }
    }
  }

  /** Dividing a nonzero row by its own norm gives a row of unit norm. */
  lemma DivByNormIsUnit(m: Maths, v: Vec)
    requires m.Lawful() && Norm(m, v) != 0.0
    ensures SqNorm(Div(v, Norm(m, v))) == 1.0
  {
    var n := Norm(m, v);
    SqNormDiv(v, n);
    var q := SqNorm(Div(v, n));
    assert q * (n * n) == SqNorm(v);
    assert n * n == SqNorm(v);
    if n * n == 0.0 { ZeroProduct(n, n); }
    assert (q - 1.0) * (n * n) == 0.0;
    ZeroProduct(q - 1.0, n * n);
  }

  lemma {:induction false} DotSelf(v: Vec)
    ensures Dot(v, v) == SqNorm(v)
  {
    if |v| > 0 { DotSelf(v[1..]); }
  }

  lemma {:induction false} DotSymmetric(a: Vec, b: Vec)
    requires |a| == |b|
    ensures Dot(a, b) == Dot(b, a)
  {
    if |a| > 0 { DotSymmetric(a[1..], b[1..]); }
  }

  lemma {:induction false} DotNeg(v: Vec)
    ensures Dot(v, Neg(v)) == -SqNorm(v)
    ensures SqNorm(Neg(v)) == SqNorm(v)
  {
    if |v| > 0 {
      assert Neg(v)[1..] == Neg(v[1..]);
      DotNeg(v[1..]);
    }
  }

  lemma {:induction false} SqNormBelowAbsSumSquared(v: Vec)
    ensures SqNorm(v) <= AbsSum(v) * AbsSum(v)
  {
    if |v| > 0 {
      SqNormBelowAbsSumSquared(v[1..]);
      var a, t := Abs(v[0]), AbsSum(v[1..]);
      assert a * a == v[0] * v[0];
      SumOfSquaresBound(a, t, v[0] * v[0], SqNorm(v[1..]));
    }
  }

  /** A row of unit norm is far from zero in the sense of `np.isclose`. */
  lemma UnitNotCloseToZero(v: Vec)
    requires SqNorm(v) == 1.0
    ensures AbsSum(v) >= 1.0 && !IsCloseToZero(AbsSum(v))
  {
    SqNormBelowAbsSumSquared(v);
    var s := AbsSum(v);
    if s < 1.0 {
      MulMonotone(s, 1.0, s);
    }
    assert Abs(s) == s;
  }

  lemma {:induction false} AbsSumZeroIff(v: Vec)
    ensures AbsSum(v) == 0.0 <==> IsZero(v)
  {
    if |v| > 0 {
      AbsSumZeroIff(v[1..]);
      if IsZero(v) {
        assert IsZero(v[1..]) by {
          forall k | 0 <= k < |v[1..]| ensures v[1..][k] == 0.0 { assert v[1..][k] == v[k + 1]; }
        }
      }
      if AbsSum(v) == 0.0 {
        forall k | 0 <= k < |v| ensures v[k] == 0.0 {
          if k > 0 { assert v[k] == v[1..][k - 1]; }
        }
      }
    }
  }
}
