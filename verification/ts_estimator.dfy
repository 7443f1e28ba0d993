/**
  `TSImageEstimator`: the constructor's method check and `run`, which fits
  every eligible pixel with `_ts_value` and writes the per-pixel results into
  output images filled with NaN, then derives the signed square root of TS.
 */
module TsEstimator {
  import opened Wrappers
  import opened Floats
  import opened Grids
  import opened TsWindow
  import opened TsPixels
  import opened TsSolvers
  import opened TsPixelValue

  /** The `downsample` parameter: 'auto' or an explicit factor. */
  datatype Downsample = Auto | Factor(n: int)

  /** The estimator's kernel and its parameters dict. */
  datatype Estimator = Estimator(
    kernel: Grid<real>,
    downsample: Downsample,
    solver: string,
    parallel: bool,
    threshold: Option<real>)

  /** A 2-D kernel with an odd number of rows and of columns. */
  predicate OddKernel(k: Grid<real>) {
    Rect(k) && |k| % 2 == 1 && Width(k) % 2 == 1
  }

  /** `TSImageEstimator.__init__`: refuses a method outside the three names
      with a ValueError, and otherwise keeps every parameter as given. */
  function NewEstimator(kernel: Grid<real>, downsample: Downsample, solver: string, parallel: bool,
                        threshold: Option<real>): (r: Result<Estimator, TsError>)
    ensures r.Success? <==> IsMethod(solver)
    ensures r.Failure? ==> r.error == InvalidMethod(solver)
    ensures r.Success? ==> r.value.kernel == kernel && r.value.solver == solver &&
                           r.value.downsample == downsample && r.value.parallel == parallel &&
                           r.value.threshold == threshold
  {
    if !(solver == BRENTQ || solver == NEWTON || solver == LEASTSQ) then Failure(InvalidMethod(solver))
    else Success(Estimator(kernel, downsample, solver, parallel, threshold))
  }

  /** The input images `run` requires; a name not in the list is None. */
  datatype Images = Images(counts: Option<Grid<real>>, background: Option<Grid<real>>, exposure: Option<Grid<real>>)

  /** The `which` argument: 'all' or a list of output names. */
  datatype Which = All | Names(names: seq<string>)

  /** The output names `which` asks for; 'all' stands for every output. */
  function Requested(which: Which): seq<string> {
    match which
    case All => ["ts", "sqrt_ts", "flux", "flux_err", "flux_err_profile", "niter"]
    case Names(names) => names
  }

  /** The outputs `run` writes per pixel, in the order it writes them. */
  const ASSEMBLED: seq<string> := ["ts", "flux", "flux_err", "flux_err_profile", "niter"]

  /** The first assembled output the request lacks; its lookup raises KeyError. */
  function FirstMissing(names: seq<string>, from: nat): (r: Option<string>)
    requires from <= |ASSEMBLED|
    decreases |ASSEMBLED| - from
    ensures r.None? <==> forall t :: from <= t < |ASSEMBLED| ==> ASSEMBLED[t] in names
    ensures r.Some? ==> r.value in ASSEMBLED && r.value !in names
  {
    if from == |ASSEMBLED| then None
    else if ASSEMBLED[from] !in names then Some(ASSEMBLED[from])
    else FirstMissing(names, from + 1)
  }

  /** sqrt_ts from ts: sqrt(ts) where ts > 0 and -sqrt(-ts) elsewhere; NaN stays NaN. */
  function SqrtTs(t: Float, sqrt: real -> real): Float {
    match t
    case NaN => NaN
    case Fin(v) => if v > 0.0 then Fin(sqrt(v)) else Fin(-sqrt(-v))
  }

  /** `sqrt` is the square root on the non-negative reals. */
  ghost predicate IsSqrt(sqrt: real -> real) {
    forall x :: x >= 0.0 ==> sqrt(x) >= 0.0 && sqrt(x) * sqrt(x) == x
  }

  /** sqrt_ts is the signed square root of ts: it has the sign of ts and its
      square, signed, gives back ts. */
  lemma SqrtTsIsSignedRoot(t: Float, sqrt: real -> real)
    requires IsSqrt(sqrt)
    ensures SqrtTs(t, sqrt).NaN? <==> t.NaN?
    ensures t.Fin? ==> SqrtTs(t, sqrt).v * Abs(SqrtTs(t, sqrt).v) == t.v
    ensures t.Fin? ==> (SqrtTs(t, sqrt).v > 0.0 <==> t.v > 0.0)
    ensures t.Fin? ==> (SqrtTs(t, sqrt).v < 0.0 <==> t.v < 0.0)
  {
    if t.Fin? {
      var v := t.v;
      if v > 0.0 {
        var s := sqrt(v);
        assert s >= 0.0 && s * s == v;
      } else {
        var s := sqrt(-v);
        assert s >= 0.0 && s * s == -v;
        if v == 0.0 && s != 0.0 { assert s * s > 0.0; }
      }
    }
  }

  /** The value of output image `name` at a pixel whose `_ts_value` result is
      `res`, or None for a pixel that was not fitted. */
  function OutputValue(name: string, res: Option<PixelResult>, sqrt: real -> real): Float {
    if res.None? then NaN
    else if name == "ts" then res.value.ts
    else if name == "flux" then res.value.flux
    else if name == "flux_err" then res.value.fluxErr
    else if name == "flux_err_profile" then res.value.fluxErrProfile
    else if name == "niter" then Fin(res.value.niter as real)
    else if name == "sqrt_ts" then SqrtTs(res.value.ts, sqrt)
    else NaN
  }

  /** No position occurs twice. */
  predicate Distinct(positions: seq<(int, int)>) {
    forall a, b :: 0 <= a < b < |positions| ==> positions[a] != positions[b]
  }

  /** The result stored for pixel p: the one at p's index in `positions`. */
  function ResultAt(positions: seq<(int, int)>, results: seq<PixelResult>, p: (int, int)): (r: Option<PixelResult>)
    requires |results| == |positions| && Distinct(positions)
    ensures r.None? <==> p !in positions
    ensures forall k :: 0 <= k < |positions| && positions[k] == p ==> r == Some(results[k])
  {
    if |positions| == 0 then None
    else if positions[0] == p then Some(results[0])
    else
      var rest := ResultAt(positions[1..], results[1..], p);
      assert forall k :: 1 <= k < |positions| ==> positions[k] == positions[1..][k - 1];
      rest
  }

  /** Consuming a `map` whose calls may raise: every value in order, or the
      first exception raised. */
  function Collect<T, E>(rs: seq<Result<T, E>>): (r: Result<seq<T>, E>)
    ensures r.Success? <==> forall k :: 0 <= k < |rs| ==> rs[k].Success?
    ensures r.Success? ==> |r.value| == |rs| && forall k :: 0 <= k < |rs| ==> r.value[k] == rs[k].value
    ensures r.Failure? ==> exists k :: 0 <= k < |rs| && rs[k] == Failure(r.error) &&
                                       forall t :: 0 <= t < k ==> rs[t].Success?
  {
    if |rs| == 0 then Success([])
    else
      var first :- rs[0];
      var rest := Collect(rs[1..]);
      assert forall k :: 1 <= k < |rs| ==> rs[k] == rs[1..][k - 1];
      if rest.Failure? then
        ghost var k :| 0 <= k < |rs[1..]| && rs[1..][k] == Failure(rest.error) &&
                       forall t :: 0 <= t < k ==> rs[1..][t].Success?;
        assert rs[k + 1] == Failure(rest.error);
        Failure(rest.error)
      else
        Success([first] + rest.value)
  }

  /** `map(_ts_value, positions)`, with the first exception raised. */
  function EvaluatePixels(fz: Frozen, positions: seq<(int, int)>): (r: Result<seq<PixelOutcome>, TsError>)
    requires fz.WellFormed() && forall k :: 0 <= k < |positions| ==> fz.Fits(positions[k])
    ensures r.Success? <==> forall k :: 0 <= k < |positions| ==> TsValue(fz, positions[k]).Success?
    ensures r.Success? ==> |r.value| == |positions|
    ensures r.Success? ==> forall k :: 0 <= k < |positions| ==> r.value[k] == TsValue(fz, positions[k]).value
    ensures r.Failure? ==> exists k :: 0 <= k < |positions| && TsValue(fz, positions[k]) == Failure(r.error)
  {
    var outcomes := seq(|positions|, k requires 0 <= k < |positions| => TsValue(fz, positions[k]));
    assert forall k :: 0 <= k < |positions| ==> outcomes[k] == TsValue(fz, positions[k]);
    Collect(outcomes)
  }

  /** One fresh output image per requested name, each filled with NaN
      (`SkyImage.empty_like(counts, fill=nan)`). */
  method NaNImages(names: seq<string>, h: nat, w: nat) returns (out: map<string, array2<Float>>)
    ensures out.Keys == set n | n in names
    ensures forall n :: n in out ==> fresh(out[n]) && out[n].Length0 == h && out[n].Length1 == w
    ensures forall n, m :: n in out && m in out && n != m ==> out[n] != out[m]
    ensures forall n, j, i :: n in out && 0 <= j < h && 0 <= i < w ==> out[n][j, i] == NaN
  {
    out := map[];
    var t := 0;
    while t < |names|
      invariant 0 <= t <= |names|
      invariant out.Keys == set n | n in names[..t]
      invariant forall n :: n in out ==> fresh(out[n]) && out[n].Length0 == h && out[n].Length1 == w
      invariant forall n, m :: n in out && m in out && n != m ==> out[n] != out[m]
      invariant forall n, j, i :: n in out && 0 <= j < h && 0 <= i < w ==> out[n][j, i] == NaN
    {
      var img := new Float[h, w]((_, _) => NaN);
      out := out[names[t] := img];
      assert names[..t + 1] == names[..t] + [names[t]];
      t := t + 1;
    }
    assert names[..t] == names;
  }

  /** `result[name].data[j, i] = [r[name] for r in results]`: writes the
      named value of each result at its position and nothing else. */
  method WriteColumn(img: array2<Float>, name: string, positions: seq<(int, int)>, results: seq<PixelResult>,
                     sqrt: real -> real)
    requires |results| == |positions| && Distinct(positions)
    requires forall k :: 0 <= k < |positions| ==>
               0 <= positions[k].0 < img.Length0 && 0 <= positions[k].1 < img.Length1
    modifies img
    ensures forall j, i :: 0 <= j < img.Length0 && 0 <= i < img.Length1 ==>
              img[j, i] == if (j, i) in positions then OutputValue(name, ResultAt(positions, results, (j, i)), sqrt)
                           else old(img[j, i])
  {
    var k := 0;
    while k < |positions|
      invariant 0 <= k <= |positions|
      invariant forall j, i :: 0 <= j < img.Length0 && 0 <= i < img.Length1 ==>
                  img[j, i] == if (j, i) in positions[..k] then OutputValue(name, ResultAt(positions, results, (j, i)), sqrt)
                               else old(img[j, i])
    {
      var p := positions[k];
      img[p.0, p.1] := OutputValue(name, Some(results[k]), sqrt);
      assert positions[..k + 1] == positions[..k] + [p];
      k := k + 1;
    }
    assert positions[..k] == positions;
  }

  /** `np.where(ts > 0, np.sqrt(ts), -np.sqrt(-ts))` stored as the sqrt_ts image. */
  method FillSqrtTs(sqrtImg: array2<Float>, ts: array2<Float>, sqrt: real -> real)
    requires sqrtImg != ts
    requires sqrtImg.Length0 == ts.Length0 && sqrtImg.Length1 == ts.Length1
    modifies sqrtImg
    ensures forall j, i :: 0 <= j < ts.Length0 && 0 <= i < ts.Length1 ==> sqrtImg[j, i] == SqrtTs(ts[j, i], sqrt)
  {
    var j := 0;
    while j < ts.Length0
      invariant 0 <= j <= ts.Length0
      invariant forall y, x :: 0 <= y < j && 0 <= x < ts.Length1 ==> sqrtImg[y, x] == SqrtTs(ts[y, x], sqrt)
    {
      var i := 0;
      while i < ts.Length1
        invariant 0 <= i <= ts.Length1
        invariant forall y, x :: ((0 <= y < j && 0 <= x < ts.Length1) || (y == j && 0 <= x < i)) ==>
                    sqrtImg[y, x] == SqrtTs(ts[y, x], sqrt)
      {
        sqrtImg[j, i] := SqrtTs(ts[j, i], sqrt);
        i := i + 1;
      }
      j := j + 1;
    }
  }

  /** Every output image holds, at each pixel, the value its name takes for
      that pixel's result, NaN where no result was stored. */
  predicate Holds(out: map<string, array2<Float>>, h: nat, w: nat, positions: seq<(int, int)>,
                  results: seq<PixelResult>, sqrt: real -> real)
    requires |results| == |positions| && Distinct(positions)
    reads set n | n in out :: out[n]
  {
    forall n, j, i :: n in out && 0 <= j < h && 0 <= i < w && j < out[n].Length0 && i < out[n].Length1 ==>
      out[n][j, i] == OutputValue(n, ResultAt(positions, results, (j, i)), sqrt)
  }

  /** The results of outcomes that are all fitted. */
  function Results(outcomes: seq<PixelOutcome>): (r: seq<PixelResult>)
    requires forall k :: 0 <= k < |outcomes| ==> outcomes[k].Fitted?
    ensures |r| == |outcomes| && forall k :: 0 <= k < |outcomes| ==> r[k] == outcomes[k].result
  {
    seq(|outcomes|, k requires 0 <= k < |outcomes| => outcomes[k].result)
  }

  /** One image of the loop over ASSEMBLED: written over its NaN fill, it
      holds the named value of the result at each position and NaN elsewhere. */
  method WriteImage(img: array2<Float>, h: nat, w: nat, name: string, positions: seq<(int, int)>,
                    results: seq<PixelResult>, sqrt: real -> real)
    requires |results| == |positions| && Distinct(positions)
    requires img.Length0 == h && img.Length1 == w
    requires forall k :: 0 <= k < |positions| ==> 0 <= positions[k].0 < h && 0 <= positions[k].1 < w
    requires forall j, i :: 0 <= j < h && 0 <= i < w ==> img[j, i] == NaN
    modifies img
    ensures forall j, i :: 0 <= j < h && 0 <= i < w ==> img[j, i] == OutputValue(name, ResultAt(positions, results, (j, i)), sqrt)
  {
    WriteColumn(img, name, positions, results, sqrt);
  }

  /** The loop over ASSEMBLED in `run`: each assembled image receives its
      values at the positions; every other image stays as it was. */
  method WriteAssembled(out: map<string, array2<Float>>, h: nat, w: nat, positions: seq<(int, int)>,
                        results: seq<PixelResult>, sqrt: real -> real)
    requires |results| == |positions| && Distinct(positions)
    requires forall k :: 0 <= k < |positions| ==> 0 <= positions[k].0 < h && 0 <= positions[k].1 < w
    requires forall t :: 0 <= t < |ASSEMBLED| ==> ASSEMBLED[t] in out
    requires forall n :: n in out ==> out[n].Length0 == h && out[n].Length1 == w
    requires forall n, m :: n in out && m in out && n != m ==> out[n] != out[m]
    requires forall n, j, i :: n in out && 0 <= j < h && 0 <= i < w ==> out[n][j, i] == NaN
    modifies set n | n in out :: out[n]
    ensures forall n, j, i :: n in out && n in ASSEMBLED && 0 <= j < h && 0 <= i < w ==>
              out[n][j, i] == OutputValue(n, ResultAt(positions, results, (j, i)), sqrt)
    ensures forall n, j, i :: n in out && n !in ASSEMBLED && 0 <= j < h && 0 <= i < w ==> out[n][j, i] == NaN
  {
    var t := 0;
    while t < |ASSEMBLED|
      invariant 0 <= t <= |ASSEMBLED|
      invariant forall n, j, i :: n in ASSEMBLED[..t] && 0 <= j < h && 0 <= i < w ==>
                  out[n][j, i] == OutputValue(n, ResultAt(positions, results, (j, i)), sqrt)
      invariant forall n, j, i :: n in out && n !in ASSEMBLED[..t] && 0 <= j < h && 0 <= i < w ==>
                  out[n][j, i] == NaN
    {
      var name := ASSEMBLED[t];
      assert forall s :: 0 <= s < t ==> |ASSEMBLED[s]| != |name|;
      assert name !in ASSEMBLED[..t];
      WriteImage(out[name], h, w, name, positions, results, sqrt);
      assert ASSEMBLED[..t + 1] == ASSEMBLED[..t] + [name];
      assert forall n :: n in ASSEMBLED[..t + 1] ==> n in ASSEMBLED[..t] || n == name;
      t := t + 1;
    }
    assert ASSEMBLED[..t] == ASSEMBLED;
  }

  /** The assembly at the end of `run`: the per-pixel results go into fresh
      NaN-filled images, one per requested name; a threshold tuple among the
      results raises TypeError and an assembled output missing from the request
      raises KeyError, in that order. */
  method Assemble(h: nat, w: nat, names: seq<string>, positions: seq<(int, int)>, outcomes: seq<PixelOutcome>,
                  sqrt: real -> real) returns (r: Result<map<string, array2<Float>>, TsError>)
    requires |outcomes| == |positions| && Distinct(positions)
    requires forall k :: 0 <= k < |positions| ==> 0 <= positions[k].0 < h && 0 <= positions[k].1 < w
    ensures r.Success? <==> (forall k :: 0 <= k < |outcomes| ==> outcomes[k].Fitted?) &&
                            (forall t :: 0 <= t < |ASSEMBLED| ==> ASSEMBLED[t] in names)
    ensures (exists k :: 0 <= k < |outcomes| && outcomes[k].BelowThreshold?) ==> r == Failure(TupleIndexedByName)
    ensures (forall k :: 0 <= k < |outcomes| ==> outcomes[k].Fitted?) && r.Failure? ==>
              r == Failure(MissingOutput(FirstMissing(names, 0).value))
    ensures r.Success? ==> r.value.Keys == set n | n in names
    ensures r.Success? ==> forall n :: n in r.value ==>
              fresh(r.value[n]) && r.value[n].Length0 == h && r.value[n].Length1 == w
    ensures r.Success? ==> forall n, m :: n in r.value && m in r.value && n != m ==> r.value[n] != r.value[m]
    ensures r.Success? ==> Holds(r.value, h, w, positions, Results(outcomes), sqrt)
  {
    if !(forall k | 0 <= k < |outcomes| :: outcomes[k].Fitted?) {
      return Failure(TupleIndexedByName);
    }
    var missing := FirstMissing(names, 0);
    if missing.Some? {
      return Failure(MissingOutput(missing.value));
    }
    var results := Results(outcomes);
    var out := NaNImages(names, h, w);
    WriteAssembled(out, h, w, positions, results, sqrt);
    if "sqrt_ts" in out {
      FillSqrtTs(out["sqrt_ts"], out["ts"], sqrt);
    }
    AssembledHolds(out, h, w, positions, results, sqrt);
    return Success(out);
  }

  /** The assembled images with sqrt_ts computed from ts, and every other
      image still NaN, hold the value of each name at each pixel. */
  lemma AssembledHolds(out: map<string, array2<Float>>, h: nat, w: nat, positions: seq<(int, int)>,
                       results: seq<PixelResult>, sqrt: real -> real)
    requires |results| == |positions| && Distinct(positions)
    requires forall n :: n in out ==> out[n].Length0 == h && out[n].Length1 == w
    requires forall n, j, i :: n in out && n in ASSEMBLED && 0 <= j < h && 0 <= i < w ==>
               out[n][j, i] == OutputValue(n, ResultAt(positions, results, (j, i)), sqrt)
    requires forall n, j, i :: n in out && n !in ASSEMBLED && n != "sqrt_ts" && 0 <= j < h && 0 <= i < w ==>
               out[n][j, i] == NaN
    requires "sqrt_ts" in out ==>
               "ts" in out && forall j, i :: 0 <= j < h && 0 <= i < w ==> out["sqrt_ts"][j, i] == SqrtTs(out["ts"][j, i], sqrt)
    ensures Holds(out, h, w, positions, results, sqrt)
  {
    forall n, j, i | n in out && 0 <= j < h && 0 <= i < w && j < out[n].Length0 && i < out[n].Length1
      ensures out[n][j, i] == OutputValue(n, ResultAt(positions, results, (j, i)), sqrt)
    {
      if n == "sqrt_ts" {
        assert "ts" in ASSEMBLED;
        assert out["ts"][j, i] == OutputValue("ts", ResultAt(positions, results, (j, i)), sqrt);
      }
    }
  }

  /** `images.check_required` and `_parse_image_data`: the counts, exposure
      and background images, which must all be present and of one shape. */
  function ParseImages(images: Images): (r: Result<(Grid<real>, Grid<real>, Grid<real>), TsError>)
    ensures images.counts.None? ==> r == Failure(MissingImage("counts"))
    ensures images.counts.Some? && images.background.None? ==> r == Failure(MissingImage("background"))
    ensures images.counts.Some? && images.background.Some? && images.exposure.None? ==>
              r == Failure(MissingImage("exposure"))
    ensures images.counts.Some? && images.background.Some? && images.exposure.Some? ==>
              (r.Success? <==> SameShape(images.counts.value, images.background.value) &&
                               SameShape(images.counts.value, images.exposure.value))
    ensures r.Failure? && images.counts.Some? && images.background.Some? && images.exposure.Some? ==>
              r.error == ShapeMismatch
    ensures r.Success? ==> r.value == (images.counts.value, images.exposure.value, images.background.value)
  {
    if images.counts.None? then Failure(MissingImage("counts"))
    else if images.background.None? then Failure(MissingImage("background"))
    else if images.exposure.None? then Failure(MissingImage("exposure"))
    else if !(SameShape(images.counts.value, images.background.value) &&
              SameShape(images.counts.value, images.exposure.value)) then Failure(ShapeMismatch)
    else Success((images.counts.value, images.exposure.value, images.background.value))
  }

  /** The exposure image after `_get_mask`. */
  function CorrectedGrid(exposure: Grid<real>, background: Grid<real>): (r: Grid<real>)
    requires SameShape(exposure, background)
    ensures SameShape(r, exposure)
  {
    Zip((e: real, b: real) => CorrectedExposure(e, b), exposure, background)
  }

  /** What `run` binds into `_ts_value`: the corrected exposure, the Cash
      statistic of counts against background as c_0_image, and no flux image
      (the flux estimate exists only for 'root newton', which fails first). */
  function FrozenOf(est: Estimator, counts: Grid<real>, exposure: Grid<real>, background: Grid<real>,
                    num: Numerics): (fz: Frozen)
    requires OddKernel(est.kernel) && Rect(counts)
    requires SameShape(counts, exposure) && SameShape(counts, background)
    ensures fz.WellFormed()
  {
    Frozen(counts, CorrectedGrid(exposure, background), background, Zip(num.cash, counts, background),
           est.kernel, None, est.solver, est.threshold, num)
  }

  /** A pixel `run` fits: inside the interior and with positive corrected exposure. */
  predicate Eligible(fz: Frozen, j: int, i: int)
    requires fz.WellFormed()
  {
    fz.Fits((j, i)) && fz.exposure[j][i] > 0.0
  }

  /** A fresh array holding the grid. */
  method ToArray(g: Grid<real>) returns (a: array2<real>)
    requires Rect(g)
    ensures fresh(a) && a.Length0 == |g| && a.Length1 == Width(g)
    ensures forall j, i :: 0 <= j < |g| && 0 <= i < Width(g) ==> a[j, i] == g[j][i]
  {
    a := new real[|g|, Width(g)]((j: int, i: int) requires 0 <= j < |g| && 0 <= i < Width(g) => g[j][i]);
  }

  /** The current contents of an array as a grid. */
  function Snapshot(a: array2<real>): (g: Grid<real>)
    reads a
    ensures IsGrid(g, a.Length0, a.Length1)
    ensures forall j, i :: 0 <= j < a.Length0 && 0 <= i < a.Length1 ==> g[j][i] == a[j, i]
  {
    seq(a.Length0, (j: int) reads a requires 0 <= j < a.Length0 =>
      seq(a.Length1, (i: int) reads a requires 0 <= i < a.Length1 => a[j, i]))
  }

  /** Row-major order is strict, so the positions are distinct. */
  lemma RowMajorDistinct(positions: seq<(int, int)>)
    requires forall a, b :: 0 <= a < b < |positions| ==> RowMajorBefore(positions[a], positions[b])
    ensures Distinct(positions)
  {
  }

  /** The first steps of `run`: the exposure is corrected in place by
      `_get_mask` and the eligible pixels are listed by `_get_positions`. */
  method MaskAndPositions(est: Estimator, counts: Grid<real>, exposure: Grid<real>, background: Grid<real>,
                          num: Numerics) returns (positions: seq<(int, int)>, corrected: Grid<real>)
    requires OddKernel(est.kernel) && Rect(counts)
    requires SameShape(counts, exposure) && SameShape(counts, background)
    ensures corrected == CorrectedGrid(exposure, background)
    ensures forall p :: p in positions <==> Eligible(FrozenOf(est, counts, exposure, background, num), p.0, p.1)
    ensures forall k :: 0 <= k < |positions| ==> FrozenOf(est, counts, exposure, background, num).Fits(positions[k])
    ensures Distinct(positions)
  {
    var fz := FrozenOf(est, counts, exposure, background, num);
    SameShapeRect(counts, exposure);
    SameShapeRect(counts, background);
    var h, w := |counts|, Width(counts);
    var exposureArr := ToArray(exposure);
    var backgroundArr := ToArray(background);
    var mask, warned := GetMask(exposureArr, backgroundArr);
    positions := GetPositions(mask, |est.kernel|, Width(est.kernel));
    corrected := Snapshot(exposureArr);
    GridsEqual(corrected, fz.exposure, h, w);
    RowMajorDistinct(positions);
  }

  /** With no flux image, every eligible pixel is fitted exactly when the
      method is Brent or least squares and no threshold is set; otherwise the
      first pixel already fails. */
  lemma PixelsFittedIff(fz: Frozen, positions: seq<(int, int)>)
    requires fz.WellFormed() && fz.flux.None? && |positions| > 0
    requires forall k :: 0 <= k < |positions| ==> fz.Fits(positions[k])
    ensures (EvaluatePixels(fz, positions).Success? &&
             forall k :: 0 <= k < |positions| ==> EvaluatePixels(fz, positions).value[k].Fitted?) <==>
            (fz.solver == BRENTQ || fz.solver == LEASTSQ) && fz.threshold.None?
  {
    if !((fz.solver == BRENTQ || fz.solver == LEASTSQ) && fz.threshold.None?) {
      var first := TsValue(fz, positions[0]);
      if fz.threshold.None? {
        assert first == FitAmplitude(fz, positions[0]).PropagateFailure();
      }
      assert first.Failure?;
    }
  }

  /** Where the result of pixel (j, i) is stored: at its index in
      `positions` if it is eligible, nowhere otherwise. */
  lemma StoredIndex(fz: Frozen, positions: seq<(int, int)>, results: seq<PixelResult>, j: int, i: int)
    returns (k: Option<nat>)
    requires fz.WellFormed() && Distinct(positions) && |results| == |positions|
    requires forall p :: p in positions <==> Eligible(fz, p.0, p.1)
    ensures k.Some? <==> Eligible(fz, j, i)
    ensures k.Some? ==> k.value < |positions| && positions[k.value] == (j, i) &&
                        ResultAt(positions, results, (j, i)) == Some(results[k.value])
    ensures k.None? ==> ResultAt(positions, results, (j, i)) == None
  {
    if Eligible(fz, j, i) {
      assert (j, i) in positions;
      var t :| 0 <= t < |positions| && positions[t] == (j, i);
      k := Some(t);
    } else {
      k := None;
    }
  }

  /** The result assembled at a pixel is that pixel's `_ts_value` when it is
      eligible, and nothing otherwise. */
  lemma ResultOfPixel(fz: Frozen, positions: seq<(int, int)>, outcomes: seq<PixelOutcome>, j: int, i: int)
    requires fz.WellFormed() && Distinct(positions) && |outcomes| == |positions|
    requires forall p :: p in positions <==> Eligible(fz, p.0, p.1)
    requires forall k :: 0 <= k < |positions| ==> fz.Fits(positions[k])
    requires forall k :: 0 <= k < |positions| ==> outcomes[k].Fitted?
    requires forall k :: 0 <= k < |positions| ==>
               TsValue(fz, positions[k]).Success? && outcomes[k] == TsValue(fz, positions[k]).value
    ensures ResultAt(positions, Results(outcomes), (j, i)) ==
            if Eligible(fz, j, i) then Some(TsValue(fz, (j, i)).value.result) else None
  {
    var k := StoredIndex(fz, positions, Results(outcomes), j, i);
    if k.Some? {
      assert outcomes[k.value] == TsValue(fz, positions[k.value]).value;
    }
  }

  /** The outputs of a successful `run`: every image holds, at each pixel,
      the value its name takes for that pixel's `_ts_value` result if the
      pixel is eligible, and NaN otherwise. */
  predicate HoldsFits(fz: Frozen, out: map<string, array2<Float>>)
    requires fz.WellFormed() && fz.flux.None? && (fz.solver == BRENTQ || fz.solver == LEASTSQ) && fz.threshold.None?
    reads set n | n in out :: out[n]
  {
    forall n, j, i :: n in out && 0 <= j < |fz.counts| && 0 <= i < Width(fz.counts) &&
                      j < out[n].Length0 && i < out[n].Length1 ==>
      out[n][j, i] == OutputValue(n, if Eligible(fz, j, i) then Some(TsValue(fz, (j, i)).value.result) else None,
                                  fz.num.sqrt)
  }

  /** Images holding the fitted results at the positions hold, at every
      pixel, the value of that pixel's `_ts_value` result if it is eligible
      and NaN otherwise. */
  lemma PixelValues(fz: Frozen, positions: seq<(int, int)>, outcomes: seq<PixelOutcome>,
                    out: map<string, array2<Float>>)
    requires fz.WellFormed() && fz.flux.None? && (fz.solver == BRENTQ || fz.solver == LEASTSQ) && fz.threshold.None?
    requires Distinct(positions) && |outcomes| == |positions|
    requires forall p :: p in positions <==> Eligible(fz, p.0, p.1)
    requires forall k :: 0 <= k < |positions| ==> fz.Fits(positions[k])
    requires forall k :: 0 <= k < |positions| ==> outcomes[k].Fitted?
    requires forall k :: 0 <= k < |positions| ==>
               TsValue(fz, positions[k]).Success? && outcomes[k] == TsValue(fz, positions[k]).value
    requires Holds(out, |fz.counts|, Width(fz.counts), positions, Results(outcomes), fz.num.sqrt)
    ensures HoldsFits(fz, out)
  {
    forall n, j, i | n in out && 0 <= j < |fz.counts| && 0 <= i < Width(fz.counts) &&
                     j < out[n].Length0 && i < out[n].Length1
      ensures out[n][j, i] == OutputValue(n, if Eligible(fz, j, i) then Some(TsValue(fz, (j, i)).value.result)
                                          else None, fz.num.sqrt)
    {
      ResultOfPixel(fz, positions, outcomes, j, i);
    }
  }

  /** The per-pixel fits over the eligible positions and the assembly of
      their results into the requested images. */
  method FitAndAssemble(fz: Frozen, positions: seq<(int, int)>, which: Which)
    returns (r: Result<map<string, array2<Float>>, TsError>)
    requires fz.WellFormed() && fz.flux.None? && Distinct(positions)
    requires forall p :: p in positions <==> Eligible(fz, p.0, p.1)
    requires forall k :: 0 <= k < |positions| ==> fz.Fits(positions[k])
    ensures r.Success? <==>
              && (fz.solver == BRENTQ || fz.solver == LEASTSQ) && fz.threshold.None?
              && (exists j, i :: Eligible(fz, j, i))
              && (forall t :: 0 <= t < |ASSEMBLED| ==> ASSEMBLED[t] in Requested(which))
    ensures r.Success? ==> r.value.Keys == set n | n in Requested(which)
    ensures r.Success? ==> forall n :: n in r.value ==>
              fresh(r.value[n]) && r.value[n].Length0 == |fz.counts| && r.value[n].Length1 == Width(fz.counts)
    ensures r.Success? ==> forall n, m :: n in r.value && m in r.value && n != m ==> r.value[n] != r.value[m]
    ensures r.Success? ==> HoldsFits(fz, r.value)
  {
    if |positions| == 0 {
      assert !(exists j, i :: Eligible(fz, j, i)) by {
        forall j, i | Eligible(fz, j, i) ensures (j, i) in positions { }
      }
      return Failure(NoPositions);
    }
    assert (exists j, i :: Eligible(fz, j, i)) by {
      assert Eligible(fz, positions[0].0, positions[0].1);
    }
    var evaluated := EvaluatePixels(fz, positions);
    PixelsFittedIff(fz, positions);
    if evaluated.Failure? {
      return Failure(evaluated.error);
    }
    var outcomes := evaluated.value;
    assert forall k :: 0 <= k < |positions| ==> 0 <= positions[k].0 < |fz.counts| && 0 <= positions[k].1 < Width(fz.counts);
    r := Assemble(|fz.counts|, Width(fz.counts), Requested(which), positions, outcomes, fz.num.sqrt);
    if r.Success? {
      PixelValues(fz, positions, outcomes, r.value);
    }
  }

  /** `run` on parsed images: mask, positions, the per-pixel fits and the
      assembly of the results. */
  method RunParsed(est: Estimator, counts: Grid<real>, exposure: Grid<real>, background: Grid<real>,
                   which: Which, num: Numerics) returns (r: Result<map<string, array2<Float>>, TsError>)
    requires OddKernel(est.kernel) && Rect(counts)
    requires SameShape(counts, exposure) && SameShape(counts, background)
    ensures est.solver == NEWTON ==> r == Failure(FluxEstimateUndefined)
    ensures r.Success? <==>
              && (est.solver == BRENTQ || est.solver == LEASTSQ) && est.threshold.None?
              && (exists j, i :: Eligible(FrozenOf(est, counts, exposure, background, num), j, i))
              && (forall t :: 0 <= t < |ASSEMBLED| ==> ASSEMBLED[t] in Requested(which))
    ensures r.Success? ==> r.value.Keys == set n | n in Requested(which)
    ensures r.Success? ==> forall n :: n in r.value ==>
              fresh(r.value[n]) && r.value[n].Length0 == |counts| && r.value[n].Length1 == Width(counts)
    ensures r.Success? ==> forall n, m :: n in r.value && m in r.value && n != m ==> r.value[n] != r.value[m]
    ensures r.Success? ==> HoldsFits(FrozenOf(est, counts, exposure, background, num), r.value)
  {
    ghost var fz0 := FrozenOf(est, counts, exposure, background, num);
    var positions, corrected := MaskAndPositions(est, counts, exposure, background, num);
    if est.solver == NEWTON {
      return Failure(FluxEstimateUndefined);
    }
    var fz := Frozen(counts, corrected, background, Zip(num.cash, counts, background),
                     est.kernel, None, est.solver, est.threshold, num);
    assert fz == fz0;
    r := FitAndAssemble(fz, positions, which);
  }

  /** `TSImageEstimator.run`: every output requested by `which` is a fresh
      image, NaN except at the eligible pixels, which hold their `_ts_value`
      results; sqrt_ts is the signed root of ts. It fails on a missing or
      mis-shaped input image, for 'root newton', when a threshold is set,
      when no pixel is eligible, and when an assembled output was not
      requested. */
  method Run(est: Estimator, images: Images, which: Which, num: Numerics)
    returns (r: Result<map<string, array2<Float>>, TsError>)
    requires OddKernel(est.kernel)
    requires images.counts.Some? ==> Rect(images.counts.value)
    ensures ParseImages(images).Failure? ==> r == Failure(ParseImages(images).error)
    ensures ParseImages(images).Success? && est.solver == NEWTON ==> r == Failure(FluxEstimateUndefined)
    ensures r.Success? <==>
              && ParseImages(images).Success?
              && (est.solver == BRENTQ || est.solver == LEASTSQ) && est.threshold.None?
              && (exists j, i :: Eligible(FrozenOf(est, images.counts.value, images.exposure.value,
                                                   images.background.value, num), j, i))
              && (forall t :: 0 <= t < |ASSEMBLED| ==> ASSEMBLED[t] in Requested(which))
    ensures r.Success? ==> r.value.Keys == set n | n in Requested(which)
    ensures r.Success? ==> forall n :: n in r.value ==>
              fresh(r.value[n]) &&
              r.value[n].Length0 == |images.counts.value| && r.value[n].Length1 == Width(images.counts.value)
    ensures r.Success? ==> forall n, m :: n in r.value && m in r.value && n != m ==> r.value[n] != r.value[m]
    ensures r.Success? ==>
              HoldsFits(FrozenOf(est, images.counts.value, images.exposure.value, images.background.value, num), r.value)
  {
    var parsed := ParseImages(images);
    if parsed.Failure? {
      return Failure(parsed.error);
    }
    var (counts, exposure, background) := parsed.value;
    r := RunParsed(est, counts, exposure, background, which, num);
  }
}
