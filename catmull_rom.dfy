/** The Catmull-Rom spline evaluator: the public entry point `Calculate`, the
    phantom-point builder `BuildVectors`, the per-segment sampler
    `CalculateSpline` and the cubic `CatmullRomPoint`, each beside the
    function that specifies it. */
module CatmullRom {
  import opened Vectors
  import opened Wrappers

  /** The failures `Calculate` reports before doing any work. */
  datatype Error =
    | ArgumentNull   // the pole array is absent
    | TooFewPoles    // two poles or fewer
    | TooFewNodes    // fewer than one node between poles

  /** The four vector coefficients of a cubic a + b*t + c*t^2 + d*t^3. */
  datatype Cubic = Cubic(a: Vec, b: Vec, c: Vec, d: Vec)

  /** One coordinate of a + b*dt + c*dt^2 + d*dt^3, grouped as the source groups it. */
  function Poly(a: real, b: real, c: real, d: real, dt: real): real {
    a + b * dt + c * dt * dt + d * dt * dt * dt
  }

  /** The cubic at `dt`. Vector2's operators act coordinate by coordinate, so
      the vector sum a + b*dt + c*dt*dt + d*dt*dt*dt is `Poly` in each coordinate. */
  function At(q: Cubic, dt: real): Vec {
    Vec(Poly(q.a.x, q.b.x, q.c.x, q.d.x, dt), Poly(q.a.y, q.b.y, q.c.y, q.d.y, dt))
  }

  /** The coefficients of the segment from p1 to p2, with p0 and p3 shaping
      the tangents and `tension` scaling them. */
  function Coefficients(tension: real, p0: Vec, p1: Vec, p2: Vec, p3: Vec): Cubic {
    Cubic(
      p1,
      Scale(tension, Sub(p2, p0)),
      Sub(Sub(Scale(3.0, Sub(p2, p1)), Scale(tension, Sub(p3, p1))), Scale(2.0 * tension, Sub(p2, p0))),
      Add(Add(Scale(-2.0, Sub(p2, p1)), Scale(tension, Sub(p3, p1))), Scale(tension, Sub(p2, p0))))
  }

  /** The point of the segment at parameter `dt`: it interpolates p1 at 0 and
      p2 at 1, whatever the tension and the outer points. */
  function CatmullRomPoint(dt: real, tension: real, p0: Vec, p1: Vec, p2: Vec, p3: Vec): (r: Vec)
    ensures dt == 0.0 ==> r == p1
    ensures dt == 1.0 ==> r == p2
  {
    At(Coefficients(tension, p0, p1, p2, p3), dt)
  }

  /** Enough poles for the phantom points to exist. */
  predicate CanExtend(points: seq<Vec>, closed: bool) {
    if closed then |points| >= 2 else |points| >= 1
  }

  /** The extended pole sequence: the poles in order at positions 1..N, with
      phantom points around them that wrap around (closed) or repeat the
      end poles (open). */
  function Extended(points: seq<Vec>, closed: bool): (r: seq<Vec>)
    requires CanExtend(points, closed)
    ensures |r| == if closed then |points| + 3 else |points| + 2
  {
    var last := points[|points| - 1];
    if closed then [last] + points + [points[0], points[1]]
    else [points[0]] + points + [last]
  }

  /** The samples of one segment: the cubic at t = j/n for j < n, then p2 itself. */
  function Segment(tension: real, n: int, p0: Vec, p1: Vec, p2: Vec, p3: Vec): (r: seq<Vec>)
    requires n >= 1
    ensures |r| == n + 1
    ensures forall j :: 0 <= j < n ==> r[j] == CatmullRomPoint(j as real / n as real, tension, p0, p1, p2, p3)
    ensures r[0] == p1 && r[n] == p2
    ensures r[n] == CatmullRomPoint(1.0, tension, p0, p1, p2, p3)
  {
    seq(n + 1, j requires 0 <= j <= n =>
      if j < n then CatmullRomPoint(j as real / n as real, tension, p0, p1, p2, p3) else p2)
  }

  /** The number of four-point windows of an extended sequence. */
  function WindowCount(ext: seq<Vec>): int {
    |ext| - 3
  }

  /** The samples of window `i` (1-based): the segment from ext[i] to ext[i+1]. */
  function Window(ext: seq<Vec>, tension: real, n: int, i: int): (r: seq<Vec>)
    requires n >= 1 && 1 <= i <= WindowCount(ext)
    ensures |r| == n + 1 && r[0] == ext[i] && r[n] == ext[i + 1]
  {
    Segment(tension, n, ext[i - 1], ext[i], ext[i + 1], ext[i + 2])
  }

  /** Windows 1..k concatenated in order. */
  function Windows(ext: seq<Vec>, tension: real, n: int, k: nat): (r: seq<Vec>)
    requires n >= 1 && k <= WindowCount(ext)
    ensures |r| == k * (n + 1)
    decreases k
  {
    if k == 0 then [] else Windows(ext, tension, n, k - 1) + Window(ext, tension, n, k)
  }

  /** The spline through valid poles: every window of the extended poles, in
      order, n+1 samples each, N windows when closed and N-1 when open. */
  function Spline(points: seq<Vec>, tension: real, n: int, closed: bool): (r: seq<Vec>)
    requires |points| > 2 && n >= 1
    ensures |r| == (if closed then |points| else |points| - 1) * (n + 1)
  {
    var ext := Extended(points, closed);
    Windows(ext, tension, n, WindowCount(ext))
  }

  /** What the entry point computes: the validation, in the order the checks
      are made, then all windows of the extended sequence concatenated. `None`
      stands for a null pole array. */
  function Evaluate(points: Option<seq<Vec>>, tension: real, n: int, closed: bool): (r: Result<seq<Vec>, Error>)
    ensures r.Success? ==> points.Some? && |points.value| > 2 && n >= 1
    ensures r.Success? ==> |r.value| == (if closed then |points.value| else |points.value| - 1) * (n + 1)
  {
    if points.None? then Failure(ArgumentNull)
    else if |points.value| <= 2 then Failure(TooFewPoles)
    else if n < 1 then Failure(TooFewNodes)
    else Success(Spline(points.value, tension, n, closed))
  }

  /** Builds the extended array: phantom slots first, then the poles copied into 1..N. */
  method BuildVectors(aPoints: array<Vec>, aIsClosedCurve: bool) returns (vectors: array<Vec>)
    requires CanExtend(aPoints[..], aIsClosedCurve)
    ensures fresh(vectors)
    ensures vectors[..] == Extended(aPoints[..], aIsClosedCurve)
  {
    var N := aPoints.Length;
    if aIsClosedCurve {
      vectors := new Vec[N + 3];
      vectors[0] := aPoints[N - 1];
      vectors[N + 1] := aPoints[0];
      vectors[N + 2] := aPoints[1];
    } else {
      vectors := new Vec[N + 2];
      vectors[0] := aPoints[0];
      vectors[N + 1] := aPoints[N - 1];
    }
    ghost var ext := Extended(aPoints[..], aIsClosedCurve);
    assert vectors.Length == |ext|;
    for i := 0 to N
      invariant forall k :: 0 <= k < vectors.Length && (k == 0 || k > N || k <= i) ==> vectors[k] == ext[k]
    {
      vectors[i + 1] := aPoints[i];
    }
    assert vectors[..] == ext;
  }

  /** Samples one segment into a fresh array of n+1 points. */
  method CalculateSpline(aTension: real, n: int, p0: Vec, p1: Vec, p2: Vec, p3: Vec) returns (resultVectors: array<Vec>)
    requires n >= 1
    ensures fresh(resultVectors)
    ensures resultVectors[..] == Segment(aTension, n, p0, p1, p2, p3)
  {
    resultVectors := new Vec[n + 1];
    var vectorIndex := 0;
    var step := 1.0 / n as real;
    for t := 0 to n
      invariant vectorIndex == t
      invariant forall j :: 0 <= j < t ==>
        resultVectors[j] == CatmullRomPoint(j as real / n as real, aTension, p0, p1, p2, p3)
    {
      assert t as real * step == t as real / n as real;
      var vector := CatmullRomPoint(t as real * step, aTension, p0, p1, p2, p3);
      resultVectors[vectorIndex] := vector;
      vectorIndex := vectorIndex + 1;
    }
    resultVectors[vectorIndex] := p2;
    assert resultVectors[..] == Segment(aTension, n, p0, p1, p2, p3);
  }

  /** The entry point: checks its arguments, then appends the samples of every
      window of the extended array and returns them as a fresh array. The pole
      array is only read. */
  method Calculate(aPoints: array?<Vec>, aTension: real, n: int, aIsClosedCurve: bool)
    returns (r: Result<array<Vec>, Error>)
    ensures var spec := Evaluate(if aPoints == null then None else Some(aPoints[..]), aTension, n, aIsClosedCurve);
      (spec.Failure? ==> r == Failure(spec.error)) &&
      (spec.Success? ==> r.Success? && fresh(r.value) && r.value[..] == spec.value)
    ensures aPoints != null ==> aPoints[..] == old(aPoints[..])
  {
    if aPoints == null {
      return Failure(ArgumentNull);
    }
    if aPoints.Length <= 2 {
      return Failure(TooFewPoles);
    }
    if n < 1 {
      return Failure(TooFewNodes);
    }

    var vectors := BuildVectors(aPoints, aIsClosedCurve);
    ghost var ext := vectors[..];
    var resultSpline: seq<Vec> := [];

    for i := 1 to vectors.Length - 2
      invariant vectors[..] == ext
      invariant resultSpline == Windows(ext, aTension, n, i - 1)
    {
      var singleSpline := CalculateSpline(aTension, n, vectors[i - 1], vectors[i], vectors[i + 1], vectors[i + 2]);
      assert singleSpline[..] == Window(ext, aTension, n, i);
      resultSpline := resultSpline + singleSpline[..];
    }

    assert resultSpline == Spline(aPoints[..], aTension, n, aIsClosedCurve);
    var result := new Vec[|resultSpline|](k requires 0 <= k < |resultSpline| => resultSpline[k]);
    assert result[..] == resultSpline;
    return Success(result);
  }
}
