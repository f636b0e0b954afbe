# Catmull-Rom spline evaluator, modelled in Dafny

The modelled code is `CatmullRomSpline.Calculate`. It takes a sequence of poles (control points), a tension, a node count `n` and an open/closed flag, and returns the sampled Catmull-Rom curve through the poles. Its three steps are:

- **`BuildVectors`** extends the pole array with phantom points.
  - A closed curve wraps around: last pole, poles, first pole, second pole.
  - An open curve repeats its end poles.
- **`Calculate`** slides a window of four consecutive extended points over the array. For each window it appends the segment that `CalculateSpline` samples.
- **`CalculateSpline`** writes `n + 1` samples of the tension-parameterised cubic evaluated by `ReturnCarmullRomVector`: `n` samples at `t = j/n` and the end pole `p2` itself.

Modules:

- `Vectors` (`vectors.dfy`): the `Vector2` value type as an exact pair of reals, with coordinatewise `+`, `-` and scaling.
- `Wrappers` (`wrappers.dfy`): `Option` and `Result`.
- `CatmullRom` (`catmull_rom.dfy`):
  - the cubic and its coefficients;
  - specification functions for the extended array (`Extended`), one segment (`Segment`), the concatenated windows (`Windows`, `Spline`) and the whole entry point with its error results (`Evaluate`);
  - the three source loops as methods on arrays, each proved equal to its specification function.
- `CatmullRomProperties` (`properties.dfy`): lemmas about those functions.
  - The extended-array layout.
  - The error cases.
  - The output layout and the position of every pole in it.
  - The algebra of the cubic: end points, end tangents, the cubic Hermite form and the derivative.
  - Continuity of position and tangent where segments join, including the seam of a closed curve.

Three facts about the modelled code:

- **Output length.** The output has `windows * (n + 1)` points, where the number of windows is `N` when closed and `N - 1` when open. Every window's last sample (`p2`, written exactly) is the same pole as the next window's first sample (`t = 0`), and both are appended. So each inner pole appears twice in a row. This follows the code (`AddRange` of the full `n + 1` samples). A layout with shared end points would give `windows * n + 1` points instead.
- **Pole count.** The doc comment of `Calculate` asks for at least two poles. The code rejects any array of length `<= 2`, and the model follows the code.
- **Null array.** A null pole array is an `array?` equal to `null` in `Calculate`. It is `None` in `Evaluate`.

## Model

| member | source | states |
|---|---|---|
| CatmullRom.CatmullRomPoint | CatmullRomSpline/CatmullRomSpline.cs:101-110 | The cubic built from coefficients `a = p1`, `b = tension * (p2 - p0)`, `c` and `d` as at lines 104-105. At `dt = 0` it is `p1` and at `dt = 1` it is `p2`, for every tension and outer points |
| CatmullRom.Evaluate | CatmullRomSpline/CatmullRomSpline.cs:16-40 | Succeeds only for a non-null array of more than two poles and `n >= 1`. Then it returns `N * (n + 1)` points when closed and `(N - 1) * (n + 1)` when open. The error cases are in `EvaluateFails` |
| CatmullRom.Extended | CatmullRomSpline/CatmullRomSpline.cs:48-63 | The extended array has `N + 3` points when closed and `N + 2` when open |
| CatmullRomProperties.ExtendedLayout | CatmullRomSpline/CatmullRomSpline.cs:51-63 | Extended point `i + 1` is pole `i`. Closed phantoms: pole `N-1` in front, poles 0 and 1 behind. Open phantoms: pole 0 in front, pole `N-1` behind |
| CatmullRom.BuildVectors | CatmullRomSpline/CatmullRomSpline.cs:48-66 | Returns a fresh array whose contents are exactly the extended sequence of the poles |
| CatmullRom.Segment | CatmullRomSpline/CatmullRomSpline.cs:78-89 | `n + 1` samples. Sample `j < n` is the cubic at `j / n`. The last sample is `p2`, the first is `p1`, and the last is also the cubic at `t = 1` |
| CatmullRom.CalculateSpline | CatmullRomSpline/CatmullRomSpline.cs:78-89 | The fresh array's contents are the segment's samples. The running `t * (1/n)` parameter equals `t / n` |
| CatmullRom.Window | CatmullRomSpline/CatmullRomSpline.cs:34-36 | Window `i` samples extended points `i-1 .. i+2` in `n + 1` points, starting at extended point `i` and ending at extended point `i + 1` |
| CatmullRom.Windows | CatmullRomSpline/CatmullRomSpline.cs:34-37 | The first `k` windows concatenated have `k * (n + 1)` points |
| CatmullRom.Spline | CatmullRomSpline/CatmullRomSpline.cs:29-39 | The output for valid arguments has `N * (n + 1)` points when closed and `(N - 1) * (n + 1)` when open |
| CatmullRom.Calculate | CatmullRomSpline/CatmullRomSpline.cs:16-40 | Fails exactly as `Evaluate` does. Otherwise it returns a fresh array holding `Evaluate`'s output, and it leaves the pole array unchanged |
| CatmullRomProperties.EvaluateFails | CatmullRomSpline/CatmullRomSpline.cs:17-27 | Fails if and only if the poles are null, there are at most two of them, or `n < 1`. Each case gets the error of the first check it fails. Valid arguments give the spline |
| CatmullRomProperties.WindowsAt | CatmullRomSpline/CatmullRomSpline.cs:34-36 | In the first `k` windows, position `(i-1)*(n+1) + j` holds sample `j` of window `i` |
| CatmullRomProperties.OutputLayout | CatmullRomSpline/CatmullRomSpline.cs:34-36 | Output position `(i-1)*(n+1) + j` is sample `j` of the segment over extended points `i-1 .. i+2` |
| CatmullRomProperties.WindowEnds | CatmullRomSpline/CatmullRomSpline.cs:34-36 | In the windows of an extended sequence, window `i` starts at extended point `i` and ends at extended point `i + 1` |
| CatmullRomProperties.ExtendedPoles | CatmullRomSpline/CatmullRomSpline.cs:51-63 | Extended point `i` is pole `i - 1`. Extended point `i + 1` is pole `i`, or pole 0 after the last pole of a closed curve |
| CatmullRomProperties.ExtendedWindows | CatmullRomSpline/CatmullRomSpline.cs:34 | For more than two poles, the window loop runs `N` times when closed and `N - 1` times when open |
| CatmullRomProperties.WindowEndsAtPoles | CatmullRomSpline/CatmullRomSpline.cs:34-36 | Window `i` of the output starts at pole `i - 1` and ends at pole `i`. A closed curve's last window ends at pole 0 |
| CatmullRomProperties.EveryPoleAppears | CatmullRomSpline/CatmullRomSpline.cs:34-36 | Every pole occurs somewhere in the output |
| CatmullRomProperties.SegmentEnds | CatmullRomSpline/CatmullRomSpline.cs:101-107 | The cubic starts at `p1` and ends at `p2`. Its tangents there are `tension * (p2 - p0)` and `tension * (p3 - p1)` |
| CatmullRomProperties.PointIsHermite | CatmullRomSpline/CatmullRomSpline.cs:101-110 | The evaluated point equals the cubic Hermite interpolant from `p1` to `p2` with those two tangents |
| CatmullRomProperties.VelocityIsDerivative | CatmullRomSpline/CatmullRomSpline.cs:107 | `Velocity` is the derivative of the cubic: a step `h` from `t` moves the point by `h * Velocity(t)` plus a term of order `h * h` |
| CatmullRomProperties.ZeroTensionIgnoresOuterPoints | CatmullRomSpline/CatmullRomSpline.cs:103-105 | At zero tension the segment does not depend on the outer points `p0` and `p3` |
| CatmullRomProperties.CubicJoin | CatmullRomSpline/CatmullRomSpline.cs:34-36 | The cubics of windows `i` and `i + 1` meet at extended point `i + 1`, both with tangent `tension * (ext[i+2] - ext[i])` |
| CatmullRomProperties.SmoothJoin | CatmullRomSpline/CatmullRomSpline.cs:34-36 | Consecutive windows meet at pole `i` with the same point and the same tangent |
| CatmullRomProperties.JoinRepeatsPole | CatmullRomSpline/CatmullRomSpline.cs:36 | The shared pole appears twice in a row in the output: last sample of one window, first sample of the next |
| CatmullRomProperties.ClosedSeam | CatmullRomSpline/CatmullRomSpline.cs:51-55 | A closed curve starts and ends at pole 0. Its last and first windows meet there with the same tangent, `tension * (pole 1 - pole N-1)` |
| CatmullRomProperties.OpenEnds | CatmullRomSpline/CatmullRomSpline.cs:56-59 | An open curve runs from pole 0 to pole `N-1`. Its end tangents are `tension * (pole 1 - pole 0)` and `tension * (pole N-1 - pole N-2)` |

## Left out

- Floating point: coordinates, tension and the sample parameter are exact reals. IEEE `double` rounding is not modelled. Neither are the `3f`/`2f` single-precision literals in the coefficients, the rounding of `1.0 / n` and of `t * step`, or NaN and infinity.
- `Vector2`: its class body is not part of this model. It is a value pair of reals with coordinatewise `+`, `-` and scalar products. The copies made by `new Vector2(...)` are value copies.
- Cubic evaluation: it is grouped coordinate by coordinate. This equals the source's vector expression under those coordinatewise operators.
- Exceptions: the source has two exception types. `ArgumentNullException` for a null array becomes `ArgumentNull`. `ArgumentException` is thrown for two cases, and the model splits it into `TooFewPoles` (at most two poles) and `TooFewNodes` (`n < 1`). In the source only the message text tells those two apart, and the texts themselves are not modelled.
- Integer width: `n` and all array lengths are unbounded integers. The model leaves out that `n` is a 32-bit `int`. For `n = 2147483647`, `n + 1` wraps to a negative array size at line 79 and the source throws an overflow exception, but `Evaluate` returns `Success`. Array and list size limits and memory exhaustion at lines 32-39 and 79 are not modelled either.
- Default argument values (`n = 5`, closed by default) are a calling convenience and are not modelled.
- `List<Vector2>`: the growing result list is a `seq` that the window loop appends to. `ToArray` is a fresh array with the same contents.
- The WinForms test form (mouse handling, painting, trackbar) is not part of this model.
- BuildVectors and CalculateSpline: these private helpers require what their only caller guarantees. BuildVectors needs at least two poles when closed and one when open. CalculateSpline needs `n >= 1`. Calculate checks both before calling them.
