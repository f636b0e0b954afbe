/** What the spline evaluator promises: the layout of the extended poles, the
    algebra of the segment cubic, the shape of the output and how segments
    join. */
module CatmullRomProperties {
  import opened Vectors
  import opened Wrappers
  import opened CatmullRom

  // ---------------------------------------------------------------------------
  // Phantom points

  /** Positions 1..N of the extended sequence hold the poles in order; the
      phantoms wrap around when closed and repeat the end poles when open. */
  lemma ExtendedLayout(points: seq<Vec>, closed: bool)
    requires CanExtend(points, closed)
    ensures var r := Extended(points, closed); var N := |points|;
      |r| == (if closed then N + 3 else N + 2) &&
      (forall i :: 0 <= i < N ==> r[i + 1] == points[i]) &&
      (closed ==> r[0] == points[N - 1] && r[N + 1] == points[0] && r[N + 2] == points[1]) &&
      (!closed ==> r[0] == points[0] && r[N + 1] == points[N - 1])
  {
  }

  // ---------------------------------------------------------------------------
  // The segment cubic

  /** One coordinate of the derivative b + 2*c*t + 3*d*t^2 of `Poly`. */
  function PolyVelocity(b: real, c: real, d: real, t: real): real {
    b + 2.0 * c * t + 3.0 * d * t * t
  }

  /** One coordinate of the second-order rest of a step from t to t + h. */
  function PolyRest(c: real, d: real, t: real, h: real): real {
    c + d * (3.0 * t + h)
  }

  /** The rate of change of a cubic: b + 2*c*t + 3*d*t^2. */
  function Velocity(q: Cubic, t: real): Vec {
    Vec(PolyVelocity(q.b.x, q.c.x, q.d.x, t), PolyVelocity(q.b.y, q.c.y, q.d.y, t))
  }

  /** What is left of a step of the cubic once the velocity term is taken off. */
  function Rest(q: Cubic, t: real, h: real): Vec {
    Vec(PolyRest(q.c.x, q.d.x, t, h), PolyRest(q.c.y, q.d.y, t, h))
  }

  // Each nonlinear identity below is a lemma over plain real parameters; the
  // vector lemmas only instantiate them, coordinate by coordinate.

  lemma PolyStep(a: real, b: real, c: real, d: real, t: real, h: real)
    ensures Poly(a, b, c, d, t + h)
         == Poly(a, b, c, d, t) + h * PolyVelocity(b, c, d, t) + h * h * PolyRest(c, d, t, h)
  {
    assert c * (t + h) * (t + h) == c * t * t + 2.0 * c * t * h + c * h * h;
    assert d * (t + h) * (t + h) * (t + h) == d * t * t * t + 3.0 * d * t * t * h + 3.0 * d * t * h * h + d * h * h * h;
  }

  /** `Velocity` is the derivative of `At`: moving the parameter by h moves the
      point by h times the velocity, up to a term of order h^2. */
  lemma VelocityIsDerivative(q: Cubic, t: real, h: real)
    ensures At(q, t + h) == Add(Add(At(q, t), Scale(h, Velocity(q, t))), Scale(h * h, Rest(q, t, h)))
  {
    PolyStep(q.a.x, q.b.x, q.c.x, q.d.x, t, h);
    PolyStep(q.a.y, q.b.y, q.c.y, q.d.y, t, h);
  }

  /** The segment starts at p1 and ends at p2, and its tangents there are
      tension*(p2 - p0) and tension*(p3 - p1). */
  lemma SegmentEnds(tension: real, p0: Vec, p1: Vec, p2: Vec, p3: Vec)
    ensures var q := Coefficients(tension, p0, p1, p2, p3);
      At(q, 0.0) == p1 && At(q, 1.0) == p2 &&
      Velocity(q, 0.0) == Scale(tension, Sub(p2, p0)) &&
      Velocity(q, 1.0) == Scale(tension, Sub(p3, p1))
  {
  }

  /** One coordinate of the cubic Hermite interpolant from p1 with tangent m1
      to p2 with tangent m2. */
  function HermiteCoord(t: real, p1: real, m1: real, p2: real, m2: real): real {
    (2.0 * t * t * t - 3.0 * t * t + 1.0) * p1 + (t * t * t - 2.0 * t * t + t) * m1
    + (3.0 * t * t - 2.0 * t * t * t) * p2 + (t * t * t - t * t) * m2
  }

  /** The cubic Hermite interpolant from p1 with tangent m1 to p2 with tangent m2. */
  function Hermite(t: real, p1: Vec, m1: Vec, p2: Vec, m2: Vec): Vec {
    Vec(HermiteCoord(t, p1.x, m1.x, p2.x, m2.x), HermiteCoord(t, p1.y, m1.y, p2.y, m2.y))
  }

  /** One coordinate of the segment cubic, written over the chords
      d20 = p2 - p0, d21 = p2 - p1 and d31 = p3 - p1, is the Hermite form. */
  lemma HermiteScalar(tension: real, p1: real, p2: real, d20: real, d21: real, d31: real,
                      b: real, c: real, d: real, m1: real, m2: real, t: real)
    requires p2 == p1 + d21
    requires b == tension * d20 && m1 == tension * d20 && m2 == tension * d31
    requires c == 3.0 * d21 - tension * d31 - 2.0 * tension * d20
    requires d == -2.0 * d21 + tension * d31 + tension * d20
    ensures Poly(p1, b, c, d, t) == HermiteCoord(t, p1, m1, p2, m2)
  {
  }

  /** Every point of a segment is the cubic Hermite interpolant between p1 and
      p2 whose end tangents are the tension times the chords p2 - p0 and p3 - p1. */
  lemma PointIsHermite(t: real, tension: real, p0: Vec, p1: Vec, p2: Vec, p3: Vec)
    ensures CatmullRomPoint(t, tension, p0, p1, p2, p3)
         == Hermite(t, p1, Scale(tension, Sub(p2, p0)), p2, Scale(tension, Sub(p3, p1)))
  {
    var q := Coefficients(tension, p0, p1, p2, p3);
    var d20, d21, d31 := Sub(p2, p0), Sub(p2, p1), Sub(p3, p1);
    var m1, m2 := Scale(tension, d20), Scale(tension, d31);
    HermiteScalar(tension, p1.x, p2.x, d20.x, d21.x, d31.x, q.b.x, q.c.x, q.d.x, m1.x, m2.x, t);
    HermiteScalar(tension, p1.y, p2.y, d20.y, d21.y, d31.y, q.b.y, q.c.y, q.d.y, m1.y, m2.y, t);
  }

  /** With zero tension the tangents vanish: the segment no longer depends on
      the outer points p0 and p3. */
  lemma ZeroTensionIgnoresOuterPoints(t: real, p0: Vec, p1: Vec, p2: Vec, p3: Vec, p0': Vec, p3': Vec)
    ensures CatmullRomPoint(t, 0.0, p0, p1, p2, p3) == CatmullRomPoint(t, 0.0, p0', p1, p2, p3')
  {
    PointIsHermite(t, 0.0, p0, p1, p2, p3);
    PointIsHermite(t, 0.0, p0', p1, p2, p3');
    assert Scale(0.0, Sub(p2, p0)) == Scale(0.0, Sub(p2, p0'));
    assert Scale(0.0, Sub(p3, p1)) == Scale(0.0, Sub(p3', p1));
  }

  // ---------------------------------------------------------------------------
  // Output layout

  lemma MulMono(a: int, b: int, c: nat)
    requires a <= b
    ensures a * c <= b * c
  {
  }

  /** Window i+1 starts right after the n+1 samples of window i. */
  lemma NextStart(i: int, n: int)
    ensures (i - 1) * (n + 1) + n + 1 == i * (n + 1)
  {
  }

  /** Windows 1..k laid end to end: sample j of window i sits at (i-1)*(n+1) + j. */
  lemma {:induction false} WindowsAt(ext: seq<Vec>, tension: real, n: int, k: nat, i: int, j: int)
    requires n >= 1 && k <= WindowCount(ext) && 1 <= i <= k && 0 <= j <= n
    ensures (i - 1) * (n + 1) + j < |Windows(ext, tension, n, k)|
    ensures Windows(ext, tension, n, k)[(i - 1) * (n + 1) + j] == Window(ext, tension, n, i)[j]
    decreases k
  {
    var w := Windows(ext, tension, n, k - 1);
    assert Windows(ext, tension, n, k) == w + Window(ext, tension, n, k);
    NextStart(i, n);
    if i < k {
      MulMono(i, k - 1, n + 1);
      WindowsAt(ext, tension, n, k - 1, i, j);
    } else {
      assert |w| == (i - 1) * (n + 1);
    }
  }

  /** In the windows of an extended sequence, window i runs from extended
      point i to extended point i+1. */
  lemma WindowEnds(ext: seq<Vec>, tension: real, n: int, i: int)
    requires n >= 1 && 1 <= i <= WindowCount(ext)
    ensures var out := Windows(ext, tension, n, WindowCount(ext)); var s := (i - 1) * (n + 1);
      0 <= s && s + n < |out| && out[s] == ext[i] && out[s + n] == ext[i + 1]
  {
    MulMono(0, i - 1, n + 1);
    WindowsAt(ext, tension, n, WindowCount(ext), i, 0);
    WindowsAt(ext, tension, n, WindowCount(ext), i, n);
  }

  /** The extended sequence of valid poles and its window count. */
  lemma ExtendedWindows(points: seq<Vec>, closed: bool)
    requires |points| > 2
    ensures CanExtend(points, closed)
    ensures WindowCount(Extended(points, closed)) == if closed then |points| else |points| - 1
  {
  }

  /** The entry point fails exactly when the poles are absent, two or fewer,
      or fewer than one node is asked for, with the failure of the first check
      that does not pass. */
  lemma EvaluateFails(points: Option<seq<Vec>>, tension: real, n: int, closed: bool)
    ensures Evaluate(points, tension, n, closed).Failure?
        <==> points.None? || |points.value| <= 2 || n < 1
    ensures points.None? ==> Evaluate(points, tension, n, closed) == Failure(ArgumentNull)
    ensures points.Some? && |points.value| <= 2 ==> Evaluate(points, tension, n, closed) == Failure(TooFewPoles)
    ensures points.Some? && |points.value| > 2 && n < 1 ==> Evaluate(points, tension, n, closed) == Failure(TooFewNodes)
    ensures points.Some? && |points.value| > 2 && n >= 1
        ==> Evaluate(points, tension, n, closed) == Success(Spline(points.value, tension, n, closed))
  {
  }

  /** Window i of the extended poles runs from pole i-1 to pole i, which is
      pole 0 again after the last pole of a closed curve. */
  lemma ExtendedPoles(points: seq<Vec>, closed: bool, i: int)
    requires |points| > 2
    requires 1 <= i <= (if closed then |points| else |points| - 1)
    ensures CanExtend(points, closed)
    ensures var ext := Extended(points, closed);
      i + 1 < |ext| && ext[i] == points[i - 1] && ext[i + 1] == points[if i < |points| then i else 0]
  {
    ExtendedLayout(points, closed);
  }

  /** Sample j of window i is the j-th sample of the segment over extended
      points i-1 .. i+2, at position (i-1)*(n+1) + j of the output. */
  lemma OutputLayout(points: seq<Vec>, tension: real, n: int, closed: bool, i: int, j: int)
    requires |points| > 2 && n >= 1
    requires 1 <= i <= (if closed then |points| else |points| - 1) && 0 <= j <= n
    ensures var ext := Extended(points, closed);
      var out := Spline(points, tension, n, closed); var s := (i - 1) * (n + 1);
      0 <= s && s + j < |out| &&
      out[s + j] == Segment(tension, n, ext[i - 1], ext[i], ext[i + 1], ext[i + 2])[j]
  {
    var ext := Extended(points, closed);
    ExtendedWindows(points, closed);
    MulMono(0, i - 1, n + 1);
    WindowsAt(ext, tension, n, WindowCount(ext), i, j);
  }

  /** Window i, the n+1 samples from (i-1)*(n+1) on, starts at pole i-1 and
      ends at pole i (pole 0 again for the last window of a closed curve). */
  lemma WindowEndsAtPoles(points: seq<Vec>, tension: real, n: int, closed: bool, i: int)
    requires |points| > 2 && n >= 1
    requires 1 <= i <= (if closed then |points| else |points| - 1)
    ensures var out := Spline(points, tension, n, closed); var s := (i - 1) * (n + 1);
      0 <= s && s + n < |out| &&
      out[s] == points[i - 1] &&
      out[s + n] == points[if i < |points| then i else 0]
  {
    var ext := Extended(points, closed);
    ExtendedPoles(points, closed, i);
    WindowEnds(ext, tension, n, i);
  }

  /** Every pole is one of the output samples. */
  lemma EveryPoleAppears(points: seq<Vec>, tension: real, n: int, closed: bool, k: int)
    requires |points| > 2 && n >= 1 && 0 <= k < |points|
    ensures var out := Spline(points, tension, n, closed);
      exists idx :: 0 <= idx < |out| && out[idx] == points[k]
  {
    var out := Spline(points, tension, n, closed);
    var idx: int;
    if closed || k < |points| - 1 {
      var i := k + 1;
      WindowEndsAtPoles(points, tension, n, closed, i);
      idx := (i - 1) * (n + 1);
    } else {
      var i := k;
      WindowEndsAtPoles(points, tension, n, closed, i);
      idx := (i - 1) * (n + 1) + n;
    }
    assert 0 <= idx < |out| && out[idx] == points[k];
  }

  // ---------------------------------------------------------------------------
  // How segments join

  /** The cubic of window i of an extended sequence. */
  function WindowCubic(ext: seq<Vec>, tension: real, i: int): Cubic
    requires 1 <= i <= WindowCount(ext)
  {
    Coefficients(tension, ext[i - 1], ext[i], ext[i + 1], ext[i + 2])
  }

  /** The cubic of window i ends where the cubic of window i+1 starts, at
      extended point i+1, with the same tangent tension * (ext[i+2] - ext[i]). */
  lemma CubicJoin(ext: seq<Vec>, tension: real, i: int)
    requires 1 <= i < WindowCount(ext)
    ensures var here, next := WindowCubic(ext, tension, i), WindowCubic(ext, tension, i + 1);
      At(here, 1.0) == At(next, 0.0) == ext[i + 1] &&
      Velocity(here, 1.0) == Velocity(next, 0.0) == Scale(tension, Sub(ext[i + 2], ext[i]))
  {
    SegmentEnds(tension, ext[i - 1], ext[i], ext[i + 1], ext[i + 2]);
    SegmentEnds(tension, ext[i], ext[i + 1], ext[i + 2], ext[i + 3]);
  }

  /** Consecutive windows of the curve meet at pole i with the same tangent. */
  lemma SmoothJoin(points: seq<Vec>, tension: real, closed: bool, i: int)
    requires |points| > 2
    requires 1 <= i < (if closed then |points| else |points| - 1)
    ensures var ext := Extended(points, closed);
      var here, next := WindowCubic(ext, tension, i), WindowCubic(ext, tension, i + 1);
      At(here, 1.0) == At(next, 0.0) == points[i] &&
      Velocity(here, 1.0) == Velocity(next, 0.0)
  {
    ExtendedWindows(points, closed);
    ExtendedPoles(points, closed, i);
    CubicJoin(Extended(points, closed), tension, i);
  }

  /** The pole shared by windows i and i+1 appears twice in a row in the
      output: as the last sample of window i and the first of window i+1. */
  lemma JoinRepeatsPole(points: seq<Vec>, tension: real, n: int, closed: bool, i: int)
    requires |points| > 2 && n >= 1
    requires 1 <= i < (if closed then |points| else |points| - 1)
    ensures var out := Spline(points, tension, n, closed); var s := (i - 1) * (n + 1);
      0 <= s && s + n + 1 < |out| && out[s + n] == out[s + n + 1] == points[i]
  {
    WindowEndsAtPoles(points, tension, n, closed, i);
    WindowEndsAtPoles(points, tension, n, closed, i + 1);
    NextStart(i, n);
  }

  /** A closed curve has no seam: it ends where it starts, at pole 0, and the
      last window leaves pole 0 with the tangent the first window starts with,
      tension * (pole 1 - pole N-1). */
  lemma ClosedSeam(points: seq<Vec>, tension: real, n: int)
    requires |points| > 2 && n >= 1
    ensures var ext := Extended(points, true); var N := |points|;
      At(WindowCubic(ext, tension, N), 1.0) == At(WindowCubic(ext, tension, 1), 0.0) == points[0] &&
      Velocity(WindowCubic(ext, tension, N), 1.0) == Velocity(WindowCubic(ext, tension, 1), 0.0)
        == Scale(tension, Sub(points[1], points[N - 1]))
    ensures var out := Spline(points, tension, n, true);
      |out| > 0 && out[0] == out[|out| - 1] == points[0]
  {
    var ext := Extended(points, true);
    var N := |points|;
    ExtendedLayout(points, true);
    ExtendedWindows(points, true);
    SegmentEnds(tension, ext[N - 1], ext[N], ext[N + 1], ext[N + 2]);
    SegmentEnds(tension, ext[0], ext[1], ext[2], ext[3]);
    WindowEndsAtPoles(points, tension, n, true, 1);
    WindowEndsAtPoles(points, tension, n, true, N);
    NextStart(N, n);
  }

  /** An open curve runs from the first pole to the last; the repeated end
      poles make its end tangents tension * (pole 1 - pole 0) and
      tension * (pole N-1 - pole N-2). */
  lemma OpenEnds(points: seq<Vec>, tension: real, n: int)
    requires |points| > 2 && n >= 1
    ensures var ext := Extended(points, false); var N := |points|;
      Velocity(WindowCubic(ext, tension, 1), 0.0) == Scale(tension, Sub(points[1], points[0])) &&
      Velocity(WindowCubic(ext, tension, N - 1), 1.0) == Scale(tension, Sub(points[N - 1], points[N - 2]))
    ensures var out := Spline(points, tension, n, false);
      |out| > 0 && out[0] == points[0] && out[|out| - 1] == points[|points| - 1]
  {
    var ext := Extended(points, false);
    var N := |points|;
    ExtendedLayout(points, false);
    ExtendedWindows(points, false);
    SegmentEnds(tension, ext[0], ext[1], ext[2], ext[3]);
    SegmentEnds(tension, ext[N - 2], ext[N - 1], ext[N], ext[N + 1]);
    WindowEndsAtPoles(points, tension, n, false, 1);
    WindowEndsAtPoles(points, tension, n, false, N - 1);
    NextStart(N - 1, n);
  }
}
