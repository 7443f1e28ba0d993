/**
  The amplitude solvers of the TS estimator (`_root_amplitude_brentq`,
  `_root_amplitude`, `_leastsq_iter_amplitude`) and the Cash statistic of a
  pixel window (`f_cash`). The floating-point routines they call (the Cython
  kernels and scipy's root finders) are fields of a `Numerics` record: the
  model fixes what is done with their answers, not how they compute them.
 */
module TsSolvers {
  import opened Wrappers
  import opened Floats
  import opened Grids

  /** Unit conversion between fitted amplitude and flux (1e-12). */
  const FLUX_FACTOR: real := 0.000000000001
  /** Iteration cap of every solver, and the niter recorded on failure. */
  const MAX_NITER: nat := 20
  /** Default relative tolerance of the least-squares iteration (rtol). */
  const LEASTSQ_RTOL: real := 0.001

  /** The ways `_ts_value` and `run` fail; each names the Python exception. */
  datatype TsError =
    | InvalidMethod(name: string)     // ValueError: not one of the three methods
    | NoneNotSubscriptable            // TypeError: flux[position] while flux is None
    | NewtonValueError                // ValueError raised inside scipy's newton, not caught
    | MissingImage(name: string)      // images.check_required
    | ShapeMismatch                   // AssertionError in _parse_image_data
    | FluxEstimateUndefined           // NameError: _estimate_flux reads undefined names
    | NoPositions                     // ValueError: `j, i = zip(*positions)` on no positions
    | TupleIndexedByName              // TypeError: a threshold tuple indexed by an image name
    | MissingOutput(name: string)     // KeyError: an assembled image not among `which`

  /** The counts, background and model (exposure times kernel) windows of one pixel. */
  datatype Window = Window(counts: Grid<real>, background: Grid<real>, model: Grid<real>) {
    predicate WellFormed() {
      SameShape(counts, background) && SameShape(counts, model)
    }
  }

  /** What `_amplitude_bounds_cython` returns: bracket and floor of the amplitude. */
  datatype Bounds = Bounds(min: real, max: real, minTotal: real)

  /** How a scipy root finder ends: a root with its iteration count, or an exception. */
  datatype RootOutcome = Root(x: real, iterations: nat) | RaisesRuntimeError | RaisesValueError

  /** The numerical routines the estimator calls and this model does not define. */
  datatype Numerics = Numerics(
    cash: (real, real) -> real,                            // Cash term of one pixel: counts, predicted counts
    bounds: Window -> Bounds,                              // _amplitude_bounds_cython
    brentq: (Window, real, real) -> RootOutcome,           // brentq on the statistic's derivative over [lo, hi]
    newton: (Window, real) -> RootOutcome,                 // newton on the derivative from a start value
    bestLeastsq: (Window, Grid<real>) -> real,             // _x_best_leastsq for the given weights
    amplitudeErr: (Window, Float) -> Float,                // _compute_amplitude_err
    amplitudeErrProfile: (Window, Float, Float) -> Float,  // _compute_amplitude_err_profile (amplitude, c_1)
    sqrt: real -> real                                     // numpy.sqrt on non-negative arguments
  )

  /** An amplitude and the iteration count reported with it. */
  datatype Fit = Fit(amplitude: Float, niter: nat)

  /** Predicted counts for amplitude x: background + x * FLUX_FACTOR * model. */
  function Predicted(w: Window, x: real): (r: Grid<real>)
    requires w.WellFormed()
    ensures SameShape(r, w.counts)
    ensures forall j, i :: 0 <= j < |w.counts| && 0 <= i < |w.counts[j]| ==>
              r[j][i] == w.background[j][i] + x * FLUX_FACTOR * w.model[j][i]
  {
    Zip((b: real, m: real) => b + x * FLUX_FACTOR * m, w.background, w.model)
  }

  /** At amplitude zero the prediction is the background alone. */
  lemma PredictedAtZero(w: Window)
    requires w.WellFormed()
    ensures Predicted(w, 0.0) == w.background
  {
    var p := Predicted(w, 0.0);
    forall j | 0 <= j < |p| ensures p[j] == w.background[j] {
      assert forall i :: 0 <= i < |p[j]| ==> p[j][i] == w.background[j][i];
    }
  }

  /** `f_cash`: the Cash statistic of the window's counts against the counts
      predicted for amplitude x. */
  function FCash(num: Numerics, w: Window, x: real): real
    requires w.WellFormed()
  {
    Sum(Zip(num.cash, w.counts, Predicted(w, x)))
  }

  /** At amplitude zero `f_cash` is the statistic of the counts against the
      background alone. */
  lemma FCashAtZero(num: Numerics, w: Window)
    requires w.WellFormed()
    ensures FCash(num, w, 0.0) == Sum(Zip(num.cash, w.counts, w.background))
  {
    PredictedAtZero(w);
  }

  /** `f_cash` at an amplitude that may be NaN; a NaN amplitude gives a NaN statistic. */
  function FCashAt(num: Numerics, w: Window, x: Float): (r: Float)
    requires w.WellFormed()
    ensures r.NaN? <==> x.NaN?
  {
    if x.NaN? then NaN else Fin(FCash(num, w, x.v))
  }

  /** `counts.sum() > 0`: the window holds counts to fit. */
  predicate HasCounts(w: Window) {
    Sum(w.counts) > 0.0
  }

  /** `_root_amplitude_brentq`: the floor without searching when the window has
      no counts; otherwise brentq's root raised to the floor, or NaN with
      MAX_NITER when brentq raises (it catches both RuntimeError and ValueError). */
  function BrentqAmplitude(num: Numerics, w: Window): (r: Fit)
    ensures !HasCounts(w) ==> r == Fit(Fin(num.bounds(w).minTotal), 0)
    ensures r.amplitude.Fin? ==> r.amplitude.v >= num.bounds(w).minTotal
    ensures r.amplitude.NaN? <==> HasCounts(w) && !num.brentq(w, num.bounds(w).min, num.bounds(w).max).Root?
    ensures r.amplitude.NaN? ==> r.niter == MAX_NITER
    ensures HasCounts(w) && r.amplitude.Fin? ==>
              r.niter == num.brentq(w, num.bounds(w).min, num.bounds(w).max).iterations
  {
    var b := num.bounds(w);
    if !(Sum(w.counts) > 0.0) then Fit(Fin(b.minTotal), 0)
    else
      match num.brentq(w, b.min, b.max)
      case Root(x, n) => Fit(Fin(Max(x, b.minTotal)), n)
      case _ => Fit(NaN, MAX_NITER)
  }

  /** `_root_amplitude`: newton's root with niter 0 on success, NaN with
      MAX_NITER when newton raises RuntimeError; a ValueError is not caught. */
  function NewtonAmplitude(num: Numerics, w: Window, start: real): (r: Result<Fit, TsError>)
    ensures r.Failure? <==> num.newton(w, start).RaisesValueError?
    ensures r.Failure? ==> r.error == NewtonValueError
    ensures r.Success? && r.value.amplitude.Fin? ==> r.value.niter == 0
    ensures r.Success? ==> (r.value.amplitude.NaN? <==> num.newton(w, start).RaisesRuntimeError?)
    ensures r.Success? && r.value.amplitude.NaN? ==> r.value.niter == MAX_NITER
  {
    match num.newton(w, start)
    case Root(x, _) => Success(Fit(Fin(x), 0))
    case RaisesRuntimeError => Success(Fit(NaN, MAX_NITER))
    case RaisesValueError => Failure(NewtonValueError)
  }

  /** np.ones(model.shape): the first weights of the least-squares iteration. */
  function Ones(w: Window): (r: Grid<real>)
    ensures SameShape(r, w.model)
  {
    seq(|w.model|, j requires 0 <= j < |w.model| => seq(|w.model[j]|, _ => 1.0))
  }

  /** The weights after estimate x: x * model + background. */
  function Reweight(w: Window, x: real): Grid<real>
    requires w.WellFormed()
  {
    Zip((m: real, b: real) => x * m + b, w.model, w.background)
  }

  /** The weights x_k is fitted with: uniform first, then those of the
      previous estimate. */
  function Weights(num: Numerics, w: Window, k: nat): Grid<real>
    requires w.WellFormed()
    decreases k, 0
  {
    if k == 0 then Ones(w) else Reweight(w, Estimate(num, w, k - 1))
  }

  /** x_k, the k-th least-squares estimate. */
  function Estimate(num: Numerics, w: Window, k: nat): real
    requires w.WellFormed()
    decreases k, 1
  {
    num.bestLeastsq(w, Weights(num, w, k))
  }

  /** x_old when x_k is computed: 0 before the first estimate. */
  function PreviousEstimate(num: Numerics, w: Window, k: nat): real
    requires w.WellFormed()
  {
    if k == 0 then 0.0 else Estimate(num, w, k - 1)
  }

  /** abs((x - x_old) / x) < rtol. A zero estimate never passes: numpy turns
      the division into nan or inf, and neither is below rtol. */
  predicate SmallChange(x: real, xOld: real) {
    x != 0.0 && Abs((x - xOld) / x) < LEASTSQ_RTOL
  }

  predicate ConvergedAt(num: Numerics, w: Window, k: nat)
    requires w.WellFormed()
  {
    SmallChange(Estimate(num, w, k), PreviousEstimate(num, w, k))
  }

  /** The first iteration at or after `from` whose estimate changed by less
      than rtol, or MAX_NITER if none before the cap did. */
  function FirstConvergence(num: Numerics, w: Window, from: nat): (k: nat)
    requires w.WellFormed()
    requires from <= MAX_NITER
    decreases MAX_NITER - from
    ensures from <= k <= MAX_NITER
    ensures k < MAX_NITER ==> ConvergedAt(num, w, k)
    ensures forall j :: from <= j < k ==> !ConvergedAt(num, w, j)
  {
    if from == MAX_NITER then MAX_NITER
    else if ConvergedAt(num, w, from) then from
    else FirstConvergence(num, w, from + 1)
  }

  /** The first estimate is compared with x_old = 0, a relative change of 1:
      the iteration never stops after one step. */
  lemma FirstIterationNeverConverges(num: Numerics, w: Window)
    requires w.WellFormed()
    ensures !ConvergedAt(num, w, 0)
  {
    var x := Estimate(num, w, 0);
    if x != 0.0 {
      assert (x - 0.0) / x == 1.0;
    }
  }

  /** `_leastsq_iter_amplitude` as a value: the floor with niter 0 when the
      window has no counts; otherwise the first converged estimate (niter is
      its iteration number) or the last one (niter MAX_NITER), converted to an
      amplitude and raised to the floor. */
  function LeastsqAmplitude(num: Numerics, w: Window): (r: Fit)
    requires w.WellFormed()
    ensures r.amplitude.Fin? && r.amplitude.v >= num.bounds(w).minTotal
    ensures r.niter == 0 <==> !HasCounts(w)
    ensures !HasCounts(w) ==> r.amplitude.v == num.bounds(w).minTotal
    ensures r.niter <= MAX_NITER && r.niter != 1
    ensures 0 < r.niter < MAX_NITER ==>
              ConvergedAt(num, w, r.niter - 1) && forall j :: 0 <= j < r.niter - 1 ==> !ConvergedAt(num, w, j)
    ensures r.niter == MAX_NITER ==> forall j :: 0 <= j < MAX_NITER - 1 ==> !ConvergedAt(num, w, j)
    ensures r.niter > 0 ==> r.amplitude.v == Max(Estimate(num, w, r.niter - 1) / FLUX_FACTOR, num.bounds(w).minTotal)
  {
    var b := num.bounds(w);
    if !(Sum(w.counts) > 0.0) then Fit(Fin(b.minTotal), 0)
    else
      var k := FirstConvergence(num, w, 0);
      FirstIterationNeverConverges(num, w);
      if k < MAX_NITER then Fit(Fin(Max(Estimate(num, w, k) / FLUX_FACTOR, b.minTotal)), k + 1)
      else Fit(Fin(Max(Estimate(num, w, MAX_NITER - 1) / FLUX_FACTOR, b.minTotal)), MAX_NITER)
  }

  /** The iteration stops with niter k + 1 when x_k is the first estimate that converged. */
  lemma LeastsqStopsAt(num: Numerics, w: Window, k: nat)
    requires w.WellFormed() && HasCounts(w) && k < MAX_NITER
    requires ConvergedAt(num, w, k) && forall j :: 0 <= j < k ==> !ConvergedAt(num, w, j)
    ensures LeastsqAmplitude(num, w) == Fit(Fin(Max(Estimate(num, w, k) / FLUX_FACTOR, num.bounds(w).minTotal)), k + 1)
  {
    var first := FirstConvergence(num, w, 0);
    assert first == k;
  }

  /** Without convergence the iteration ends after MAX_NITER steps with the last estimate. */
  lemma LeastsqRunsOut(num: Numerics, w: Window)
    requires w.WellFormed() && HasCounts(w)
    requires forall j :: 0 <= j < MAX_NITER ==> !ConvergedAt(num, w, j)
    ensures LeastsqAmplitude(num, w) ==
            Fit(Fin(Max(Estimate(num, w, MAX_NITER - 1) / FLUX_FACTOR, num.bounds(w).minTotal)), MAX_NITER)
  {
    var first := FirstConvergence(num, w, 0);
    assert first == MAX_NITER;
  }

  /** `_leastsq_iter_amplitude`: iterates weighted least-squares estimates,
      reweighting after each, until the relative change is below rtol. */
  method LeastsqIterAmplitude(num: Numerics, w: Window) returns (amplitude: real, niter: nat)
    requires w.WellFormed()
    ensures Fit(Fin(amplitude), niter) == LeastsqAmplitude(num, w)
  {
    var b := num.bounds(w);
    if !(Sum(w.counts) > 0.0) {
      return b.minTotal, 0;
    }
    var weights := Ones(w);
    var xOld := 0.0;
    var x := 0.0;
    var i := 0;
    while i < MAX_NITER
      invariant 0 <= i <= MAX_NITER
      invariant xOld == PreviousEstimate(num, w, i)
      invariant weights == Weights(num, w, i)
      invariant i > 0 ==> x == Estimate(num, w, i - 1)
      invariant forall j :: 0 <= j < i ==> !ConvergedAt(num, w, j)
    {
      x := num.bestLeastsq(w, weights);
      if SmallChange(x, xOld) {
        LeastsqStopsAt(num, w, i);
        return Max(x / FLUX_FACTOR, b.minTotal), i + 1;
      }
      weights := Reweight(w, x);
      xOld := x;
      i := i + 1;
    }
    LeastsqRunsOut(num, w);
    return Max(x / FLUX_FACTOR, b.minTotal), MAX_NITER;
  }
}
