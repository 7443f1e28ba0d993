/**
  The multi-scale front end of the TS estimator: the down-sampling factor
  `compute_ts_image_multiscale` picks per scale, and `compute_maximum_ts_image`,
  which reduces TS images computed on several scales to the pixel-wise
  maximum and the niter, amplitude and scale of the scale attaining it.
 */
module TsMultiscale {
  import opened Wrappers
  import opened Floats
  import opened Grids
  import opened TsEstimator

  /** np.select over the breakpoints 5, 10, 20 and 40 pixel sizes: the first
      condition that holds picks 1, 2, 4 or 4; past all of them the factor is 8. */
  function AutoFactor(scale: real, binsz: real): (f: int)
    ensures f == 1 || f == 2 || f == 4 || f == 8
    ensures f == 1 <==> scale < 5.0 * binsz
    ensures f == 2 <==> !(scale < 5.0 * binsz) && scale < 10.0 * binsz
    ensures f == 4 <==> !(scale < 10.0 * binsz) && (scale < 20.0 * binsz || scale < 40.0 * binsz)
    ensures f == 8 <==> !(scale < 5.0 * binsz || scale < 10.0 * binsz || scale < 20.0 * binsz || scale < 40.0 * binsz)
  {
    if scale < 5.0 * binsz then 1
    else if scale < 10.0 * binsz then 2
    else if scale < 20.0 * binsz then 4
    else if scale < 40.0 * binsz then 4
    else 8
  }

  /** A larger scale never gets a smaller automatic factor (the pixel size
      is an absolute value, so never negative). */
  lemma AutoFactorMonotone(s1: real, s2: real, binsz: real)
    requires binsz >= 0.0 && s1 <= s2
    ensures AutoFactor(s1, binsz) <= AutoFactor(s2, binsz)
  {
  }

  /** The factor a scale is computed at and whether the images are sampled
      down: the automatic or the given factor; a factor of 1 means no down
      sampling; otherwise a Shell2D morphology halves it (true division, so
      an odd explicit factor becomes fractional). */
  function ScaleFactor(scale: real, cdelt: real, downsample: Downsample, morphology: string): (r: (real, bool))
    ensures var factor := if downsample.Auto? then AutoFactor(scale, Abs(cdelt)) else downsample.n;
            && (r.1 <==> factor != 1)
            && (!r.1 ==> r.0 == 1.0)
            && (r.1 && morphology == "Shell2D" ==> 2.0 * r.0 == factor as real)
            && (r.1 && morphology != "Shell2D" ==> r.0 == factor as real)
  {
    var factor := match downsample
      case Auto => AutoFactor(scale, Abs(cdelt))
      case Factor(n) => n;
    if factor == 1 then (1.0, false)
    else if morphology == "Shell2D" then (factor as real / 2.0, true)
    else (factor as real, true)
  }

  /** The automatic factor under Shell2D is one of 1, 1, 2 or 4: never
      fractional, and sampling down happens exactly for scales of at least
      five pixels. */
  lemma ShellAutoFactor(scale: real, cdelt: real)
    ensures var r := ScaleFactor(scale, cdelt, Auto, "Shell2D");
            (r.0 == 1.0 || r.0 == 2.0 || r.0 == 4.0) && (r.1 <==> !(scale < 5.0 * Abs(cdelt)))
  {
  }

  /** One element of the list `compute_maximum_ts_image` reduces: a TS result
      on one scale. */
  datatype ScaleResult = ScaleResult(ts: Grid<Float>, niter: Grid<Float>, amplitude: Grid<Float>, scale: real,
                                     morphology: string)

  /** Why `np.dstack` refuses the list. */
  datatype StackError = NothingToStack | ShapesDiffer

  /** Every image of every scale has the shape of the first TS image. */
  predicate Stackable(results: seq<ScaleResult>) {
    |results| > 0 &&
    var h, w := |results[0].ts|, Width(results[0].ts);
    forall s :: 0 <= s < |results| ==>
      IsGrid(results[s].ts, h, w) && IsGrid(results[s].niter, h, w) && IsGrid(results[s].amplitude, h, w)
  }

  /** np.max over the first `upto` scales at a pixel: NaN as soon as one of
      them is NaN. */
  function MaxOver(results: seq<ScaleResult>, j: nat, i: nat, upto: nat): (r: Float)
    requires Stackable(results) && 0 < upto <= |results|
    requires j < |results[0].ts| && i < Width(results[0].ts)
    ensures r.NaN? <==> exists s :: 0 <= s < upto && results[s].ts[j][i].NaN?
    ensures r.Fin? ==> forall s :: 0 <= s < upto ==> r.v >= results[s].ts[j][i].v
    ensures r.Fin? ==> exists s :: 0 <= s < upto && results[s].ts[j][i] == r
  {
    if upto == 1 then results[0].ts[j][i]
    else MaxF(MaxOver(results, j, i, upto - 1), results[upto - 1].ts[j][i])
  }

  /** The last of the first `upto` scales whose TS at the pixel equals m under
      numpy's `==`. */
  function LastMatch(results: seq<ScaleResult>, j: nat, i: nat, m: Float, upto: nat): (r: Option<nat>)
    requires Stackable(results) && upto <= |results|
    requires j < |results[0].ts| && i < Width(results[0].ts)
    ensures r.None? <==> forall s :: 0 <= s < upto ==> !Eq(results[s].ts[j][i], m)
    ensures r.Some? ==> r.value < upto && Eq(results[r.value].ts[j][i], m)
    ensures r.Some? ==> forall s :: r.value < s < upto ==> !Eq(results[s].ts[j][i], m)
  {
    if upto == 0 then None
    else if Eq(results[upto - 1].ts[j][i], m) then Some(upto - 1)
    else LastMatch(results, j, i, m, upto - 1)
  }

  /** A finite maximum is attained, so some scale matches it; a NaN maximum
      matches no scale and the pixel keeps its zeros. */
  lemma {:induction false} MaximumMatchedIff(results: seq<ScaleResult>, j: nat, i: nat)
    requires Stackable(results)
    requires j < |results[0].ts| && i < Width(results[0].ts)
    ensures var m := MaxOver(results, j, i, |results|);
            LastMatch(results, j, i, m, |results|).Some? <==> m.Fin?
  {
    var m := MaxOver(results, j, i, |results|);
    if m.Fin? {
      var s :| 0 <= s < |results| && results[s].ts[j][i] == m;
      assert Eq(results[s].ts[j][i], m);
    }
  }

  /** The images `compute_maximum_ts_image` computes. scale_max is computed
      too, though the source does not return it. */
  datatype MaxImages = MaxImages(ts: array2<Float>, niter: array2<Float>, amplitude: array2<Float>,
                                 scale: array2<real>, morphology: string)

  /** `compute_maximum_ts_image`: ts_max is the pixel-wise maximum over the
      scales; scale, niter and amplitude at a pixel come from the last scale
      whose TS equals it, and stay 0 where none does. */
  method ComputeMaximumTsImage(results: seq<ScaleResult>) returns (r: Result<MaxImages, StackError>)
    ensures r.Failure? <==> !Stackable(results)
    ensures r.Failure? ==> (r.error == NothingToStack <==> |results| == 0)
    ensures r.Success? ==>
              var out, h, w := r.value, |results[0].ts|, Width(results[0].ts);
              && fresh(out.ts) && fresh(out.niter) && fresh(out.amplitude) && fresh(out.scale)
              && out.ts.Length0 == h && out.ts.Length1 == w
              && out.niter.Length0 == h && out.niter.Length1 == w
              && out.amplitude.Length0 == h && out.amplitude.Length1 == w
              && out.scale.Length0 == h && out.scale.Length1 == w
              && out.morphology == results[0].morphology
              && (forall j, i :: 0 <= j < h && 0 <= i < w ==> out.ts[j, i] == MaxOver(results, j, i, |results|))
              && (forall j, i :: 0 <= j < h && 0 <= i < w ==>
                    match LastMatch(results, j, i, out.ts[j, i], |results|)
                    case Some(k) => out.scale[j, i] == results[k].scale && out.niter[j, i] == results[k].niter[j][i] &&
                                    out.amplitude[j, i] == results[k].amplitude[j][i]
                    case None => out.scale[j, i] == 0.0 && out.niter[j, i] == Fin(0.0) && out.amplitude[j, i] == Fin(0.0))
  {
    if |results| == 0 {
      return Failure(NothingToStack);
    }
    if !Stackable(results) {
      return Failure(ShapesDiffer);
    }
    var h, w := |results[0].ts|, Width(results[0].ts);
    var tsMax := new Float[h, w]((j: int, i: int) requires 0 <= j < h && 0 <= i < w => MaxOver(results, j, i, |results|));
    var scaleMax, niterMax, amplitudeMax := PickScales(results, tsMax);
    return Success(MaxImages(tsMax, niterMax, amplitudeMax, scaleMax, results[0].morphology));
  }

  /** The loop over scales of `compute_maximum_ts_image`: at each pixel the
      scale, niter and amplitude of the last scale whose TS equals ts_max,
      and 0 where none does. */
  method PickScales(results: seq<ScaleResult>, tsMax: array2<Float>)
    returns (scaleMax: array2<real>, niterMax: array2<Float>, amplitudeMax: array2<Float>)
    requires Stackable(results)
    requires tsMax.Length0 == |results[0].ts| && tsMax.Length1 == Width(results[0].ts)
    ensures fresh(scaleMax) && fresh(niterMax) && fresh(amplitudeMax)
    ensures scaleMax.Length0 == tsMax.Length0 && scaleMax.Length1 == tsMax.Length1
    ensures niterMax.Length0 == tsMax.Length0 && niterMax.Length1 == tsMax.Length1
    ensures amplitudeMax.Length0 == tsMax.Length0 && amplitudeMax.Length1 == tsMax.Length1
    ensures forall j, i :: 0 <= j < tsMax.Length0 && 0 <= i < tsMax.Length1 ==>
              match LastMatch(results, j, i, tsMax[j, i], |results|)
              case Some(k) => scaleMax[j, i] == results[k].scale && niterMax[j, i] == results[k].niter[j][i] &&
                              amplitudeMax[j, i] == results[k].amplitude[j][i]
              case None => scaleMax[j, i] == 0.0 && niterMax[j, i] == Fin(0.0) && amplitudeMax[j, i] == Fin(0.0)
  {
    var h, w := tsMax.Length0, tsMax.Length1;
    scaleMax := new real[h, w]((_, _) => 0.0);
    niterMax := new Float[h, w]((_, _) => Fin(0.0));
    amplitudeMax := new Float[h, w]((_, _) => Fin(0.0));
    var s := 0;
    while s < |results|
      invariant 0 <= s <= |results|
      invariant forall j, i :: 0 <= j < h && 0 <= i < w ==>
                  match LastMatch(results, j, i, tsMax[j, i], s)
                  case Some(k) => scaleMax[j, i] == results[k].scale && niterMax[j, i] == results[k].niter[j][i] &&
                                  amplitudeMax[j, i] == results[k].amplitude[j][i]
                  case None => scaleMax[j, i] == 0.0 && niterMax[j, i] == Fin(0.0) && amplitudeMax[j, i] == Fin(0.0)
    {
      WriteMatches(results, s, tsMax, scaleMax, niterMax, amplitudeMax);
      s := s + 1;
    }
  }

  /** One pass of the loop over scales: where scale s's TS equals ts_max,
      its scale, niter and amplitude overwrite the previous ones. */
  method WriteMatches(results: seq<ScaleResult>, s: nat, tsMax: array2<Float>, scaleMax: array2<real>,
                      niterMax: array2<Float>, amplitudeMax: array2<Float>)
    requires Stackable(results) && s < |results|
    requires tsMax.Length0 == |results[0].ts| && tsMax.Length1 == Width(results[0].ts)
    requires scaleMax.Length0 == tsMax.Length0 && scaleMax.Length1 == tsMax.Length1
    requires niterMax.Length0 == tsMax.Length0 && niterMax.Length1 == tsMax.Length1
    requires amplitudeMax.Length0 == tsMax.Length0 && amplitudeMax.Length1 == tsMax.Length1
    requires niterMax != amplitudeMax && niterMax != tsMax && amplitudeMax != tsMax
    modifies scaleMax, niterMax, amplitudeMax
    ensures forall j, i :: 0 <= j < tsMax.Length0 && 0 <= i < tsMax.Length1 ==>
              if Eq(results[s].ts[j][i], tsMax[j, i]) then
                scaleMax[j, i] == results[s].scale && niterMax[j, i] == results[s].niter[j][i] &&
                amplitudeMax[j, i] == results[s].amplitude[j][i]
              else
                scaleMax[j, i] == old(scaleMax[j, i]) && niterMax[j, i] == old(niterMax[j, i]) &&
                amplitudeMax[j, i] == old(amplitudeMax[j, i])
  {
    var h, w := tsMax.Length0, tsMax.Length1;
    var j := 0;
    while j < h
      invariant 0 <= j <= h
      invariant forall y, x :: 0 <= y < h && 0 <= x < w ==> tsMax[y, x] == old(tsMax[y, x])
      invariant forall y, x :: 0 <= y < h && 0 <= x < w ==>
                  if y < j && Eq(results[s].ts[y][x], tsMax[y, x]) then
                    scaleMax[y, x] == results[s].scale && niterMax[y, x] == results[s].niter[y][x] &&
                    amplitudeMax[y, x] == results[s].amplitude[y][x]
                  else
                    scaleMax[y, x] == old(scaleMax[y, x]) && niterMax[y, x] == old(niterMax[y, x]) &&
                    amplitudeMax[y, x] == old(amplitudeMax[y, x])
    {
      var i := 0;
      while i < w
        invariant 0 <= i <= w
        invariant forall y, x :: 0 <= y < h && 0 <= x < w ==> tsMax[y, x] == old(tsMax[y, x])
        invariant forall y, x :: 0 <= y < h && 0 <= x < w ==>
                    if (y < j || (y == j && x < i)) && Eq(results[s].ts[y][x], tsMax[y, x]) then
                      scaleMax[y, x] == results[s].scale && niterMax[y, x] == results[s].niter[y][x] &&
                      amplitudeMax[y, x] == results[s].amplitude[y][x]
                    else
                      scaleMax[y, x] == old(scaleMax[y, x]) && niterMax[y, x] == old(niterMax[y, x]) &&
                      amplitudeMax[y, x] == old(amplitudeMax[y, x])
      {
        if Eq(results[s].ts[j][i], tsMax[j, i]) {
          scaleMax[j, i] := results[s].scale;
          niterMax[j, i] := results[s].niter[j][i];
          amplitudeMax[j, i] := results[s].amplitude[j][i];
        }
        i := i + 1;
      }
      j := j + 1;
    }
  }
}
