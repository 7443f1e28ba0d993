/**
  `_ts_value`: the test statistic, flux and iteration count of one pixel. The
  windows of the counts, background and exposure around the pixel are cut
  out, the amplitude is fitted with the chosen method, and the TS is the drop
  of the Cash statistic from the null hypothesis to the fit, signed by the
  amplitude.
 */
module TsPixelValue {
  import opened Wrappers
  import opened Floats
  import opened Grids
  import opened TsWindow
  import opened TsSolvers

  const BRENTQ: string := "root brentq"
  const NEWTON: string := "root newton"
  const LEASTSQ: string := "leastsq iter"

  /** The three fitting methods the estimator accepts. */
  predicate IsMethod(m: string) {
    m == BRENTQ || m == NEWTON || m == LEASTSQ
  }

  /** The dict `_ts_value` returns for a fitted pixel. */
  datatype PixelResult = PixelResult(ts: Float, flux: Float, niter: nat, fluxErr: Float, fluxErrProfile: Float)

  /** A fitted pixel, or the tuple (c_0 - c_1, flux, 0) of a pixel whose
      initial estimate falls below the threshold. */
  datatype PixelOutcome = Fitted(result: PixelResult) | BelowThreshold(gap: real, flux: real)

  /** The images and settings `run` binds into `_ts_value` before mapping it
      over the positions. */
  datatype Frozen = Frozen(
    counts: Grid<real>,
    exposure: Grid<real>,
    background: Grid<real>,
    c0Image: Grid<real>,
    kernel: Grid<real>,
    flux: Option<Grid<real>>,
    solver: string,
    threshold: Option<real>,
    num: Numerics)
  {
    /** Images of one shape and a kernel with an odd number of rows and columns. */
    predicate WellFormed() {
      && Rect(counts)
      && SameShape(counts, exposure) && SameShape(counts, background) && SameShape(counts, c0Image)
      && Rect(kernel) && |kernel| % 2 == 1 && Width(kernel) % 2 == 1
      && (flux.Some? ==> SameShape(counts, flux.value))
    }

    function Shape(): (nat, nat) {
      (|kernel|, Width(kernel))
    }

    /** The kernel-sized window around the pixel lies inside the images. */
    predicate Fits(pos: (int, int)) {
      Interior(|counts|, Width(counts), |kernel|, Width(kernel), pos.0, pos.1)
    }
  }

  /** The counts, background and model windows of a pixel; the model is the
      exposure window times the kernel. */
  function WindowAt(fz: Frozen, pos: (int, int)): (w: Window)
    requires fz.WellFormed() && fz.Fits(pos)
    ensures w.WellFormed()
    ensures IsGrid(w.counts, |fz.kernel|, Width(fz.kernel))
  {
    SameShapeRect(fz.counts, fz.exposure);
    SameShapeRect(fz.counts, fz.background);
    var exposure := ExtractWindow(fz.exposure, fz.Shape(), pos);
    Window(ExtractWindow(fz.counts, fz.Shape(), pos),
           ExtractWindow(fz.background, fz.Shape(), pos),
           Zip((e: real, k: real) => e * k, exposure, fz.kernel))
  }

  /** c_0: the null-hypothesis statistic summed over the pixel's window. */
  function NullStatistic(fz: Frozen, pos: (int, int)): real
    requires fz.WellFormed() && fz.Fits(pos)
  {
    SameShapeRect(fz.counts, fz.c0Image);
    Sum(ExtractWindow(fz.c0Image, fz.Shape(), pos))
  }

  /** flux[position]: the start value image indexed at the pixel; None is not subscriptable. */
  function FluxAt(fz: Frozen, pos: (int, int)): (r: Result<real, TsError>)
    requires fz.WellFormed() && fz.Fits(pos)
    ensures r.Failure? <==> fz.flux.None?
    ensures r.Failure? ==> r.error == NoneNotSubscriptable
  {
    if fz.flux.None? then Failure(NoneNotSubscriptable) else Success(fz.flux.value[pos.0][pos.1])
  }

  /** The dispatch on the method name: each method's amplitude and iteration
      count, a ValueError for an unknown name. */
  function FitAmplitude(fz: Frozen, pos: (int, int)): (r: Result<Fit, TsError>)
    requires fz.WellFormed() && fz.Fits(pos)
    ensures !IsMethod(fz.solver) ==> r == Failure(InvalidMethod(fz.solver))
    ensures fz.solver == BRENTQ || fz.solver == LEASTSQ ==> r.Success?
    ensures fz.solver == NEWTON && fz.flux.None? ==> r == Failure(NoneNotSubscriptable)
    ensures r.Success? && fz.solver != NEWTON && r.value.amplitude.Fin? ==>
              r.value.amplitude.v >= fz.num.bounds(WindowAt(fz, pos)).minTotal
    ensures r.Success? && r.value.amplitude.NaN? ==> r.value.niter == MAX_NITER
    ensures r.Success? && fz.solver == NEWTON ==> r.value.niter == 0 || r.value.niter == MAX_NITER
    ensures r.Success? && fz.solver == LEASTSQ ==> r.value.amplitude.Fin?
    ensures r.Success? && fz.solver != NEWTON && !HasCounts(WindowAt(fz, pos)) ==>
              r.value == Fit(Fin(fz.num.bounds(WindowAt(fz, pos)).minTotal), 0)
  {
    var w := WindowAt(fz, pos);
    if fz.solver == BRENTQ then Success(BrentqAmplitude(fz.num, w))
    else if fz.solver == NEWTON then
      var start :- FluxAt(fz, pos);
      NewtonAmplitude(fz.num, w, start)
    else if fz.solver == LEASTSQ then Success(LeastsqAmplitude(fz.num, w))
    else Failure(InvalidMethod(fz.solver))
  }

  /** The flux is the amplitude in physical units; dividing by FLUX_FACTOR recovers it. */
  lemma AmplitudeOfFlux(amplitude: real)
    ensures (amplitude * FLUX_FACTOR) / FLUX_FACTOR == amplitude
  {
  }

  /** The estimator's sign convention: for a positive flux the TS is the gain
      c_0 - c_1 of the fit, for a negative flux its negation, for a zero flux
      zero; a NaN flux, from a failed fit, gives a NaN TS and MAX_NITER. */
  predicate SignedGain(fz: Frozen, pos: (int, int), res: PixelResult)
    requires fz.WellFormed() && fz.Fits(pos)
  {
    var c0 := NullStatistic(fz, pos);
    var w := WindowAt(fz, pos);
    && (res.ts.NaN? <==> res.flux.NaN?)
    && (res.flux.Fin? && res.flux.v > 0.0 ==> res.ts == Fin(c0 - FCash(fz.num, w, res.flux.v / FLUX_FACTOR)))
    && (res.flux.Fin? && res.flux.v < 0.0 ==> res.ts == Fin(FCash(fz.num, w, res.flux.v / FLUX_FACTOR) - c0))
    && (res.flux.Fin? && res.flux.v == 0.0 ==> res.ts == Fin(0.0))
  }

  /** The signed difference `(c_0 - c_1) * sign(amplitude)`, case by case. */
  lemma SignedDifference(c0: real, c1: Float, a: Float)
    ensures Mul(Sub(Fin(c0), c1), Sign(a)).NaN? <==> c1.NaN? || a.NaN?
    ensures c1.Fin? && a.Fin? && a.v > 0.0 ==> Mul(Sub(Fin(c0), c1), Sign(a)) == Fin(c0 - c1.v)
    ensures c1.Fin? && a.Fin? && a.v < 0.0 ==> Mul(Sub(Fin(c0), c1), Sign(a)) == Fin(c1.v - c0)
    ensures c1.Fin? && a.Fin? && a.v == 0.0 ==> Mul(Sub(Fin(c0), c1), Sign(a)) == Fin(0.0)
  {
  }

  /** Everything `_ts_value` reports for a fitted amplitude: the signed TS,
      the amplitude converted to flux, the solver's iteration count and the
      two flux errors. */
  function Report(fz: Frozen, pos: (int, int), fit: Fit): (r: PixelResult)
    requires fz.WellFormed() && fz.Fits(pos)
    ensures SignedGain(fz, pos, r)
    ensures r.niter == fit.niter
    ensures r.flux.NaN? <==> fit.amplitude.NaN?
    ensures r.flux.Fin? ==> r.flux.v / FLUX_FACTOR == fit.amplitude.v
  {
    var w := WindowAt(fz, pos);
    var c1 := FCashAt(fz.num, w, fit.amplitude);
    var r := PixelResult(
      ts := Mul(Sub(Fin(NullStatistic(fz, pos)), c1), Sign(fit.amplitude)),
      flux := Mul(fit.amplitude, Fin(FLUX_FACTOR)),
      niter := fit.niter,
      fluxErr := fz.num.amplitudeErr(w, fit.amplitude),
      fluxErrProfile := Mul(Fin(FLUX_FACTOR), fz.num.amplitudeErrProfile(w, fit.amplitude, c1)));
    ReportIsSignedGain(fz, pos, fit.amplitude, r);
    r
  }

  /** A result whose TS is `(c_0 - c_1) * sign(amplitude)` and whose flux is
      the amplitude times FLUX_FACTOR follows the sign convention. */
  lemma ReportIsSignedGain(fz: Frozen, pos: (int, int), a: Float, r: PixelResult)
    requires fz.WellFormed() && fz.Fits(pos)
    requires r.flux == Mul(a, Fin(FLUX_FACTOR))
    requires r.ts == Mul(Sub(Fin(NullStatistic(fz, pos)), FCashAt(fz.num, WindowAt(fz, pos), a)), Sign(a))
    ensures SignedGain(fz, pos, r)
    ensures r.flux.Fin? ==> r.flux.v / FLUX_FACTOR == a.v
  {
    var c1 := FCashAt(fz.num, WindowAt(fz, pos), a);
    SignedDifference(NullStatistic(fz, pos), c1, a);
    if a.Fin? {
      AmplitudeOfFlux(a.v);
      assert r.flux.v / FLUX_FACTOR == a.v;
      assert r.flux.v > 0.0 <==> a.v > 0.0;
      assert r.flux.v < 0.0 <==> a.v < 0.0;
    }
  }

  /** `c_0 - c_1` at the start value `flux[position]`, before any fit. */
  function Gap(fz: Frozen, pos: (int, int)): real
    requires fz.WellFormed() && fz.Fits(pos) && fz.flux.Some?
  {
    NullStatistic(fz, pos) - FCash(fz.num, WindowAt(fz, pos), fz.flux.value[pos.0][pos.1])
  }

  /** The threshold test of `_ts_value`: a threshold is set, the flux image
      is there, and the start value gains less than the threshold. */
  predicate Skipped(fz: Frozen, pos: (int, int))
    requires fz.WellFormed() && fz.Fits(pos)
  {
    fz.threshold.Some? && fz.flux.Some? && Gap(fz, pos) < fz.threshold.value
  }

  /** A reported result carries the fit: its niter, and its flux is the
      amplitude times FLUX_FACTOR (NaN exactly when the amplitude is). */
  predicate ReportsFit(res: PixelResult, fit: Fit) {
    && res.niter == fit.niter
    && (res.flux.NaN? <==> fit.amplitude.NaN?)
    && (res.flux.Fin? ==> res.flux.v / FLUX_FACTOR == fit.amplitude.v)
  }

  /** `_ts_value`. With a threshold, a pixel whose start value already gains
      less than the threshold is not fitted; otherwise the amplitude is fitted
      and the pixel's TS is c_0 - c_1, negated when the flux is negative. */
  function TsValue(fz: Frozen, pos: (int, int)): (r: Result<PixelOutcome, TsError>)
    requires fz.WellFormed() && fz.Fits(pos)
    ensures fz.threshold.Some? && fz.flux.None? ==> r == Failure(NoneNotSubscriptable)
    ensures fz.threshold.None? && !IsMethod(fz.solver) ==> r == Failure(InvalidMethod(fz.solver))
    ensures fz.threshold.None? && (fz.solver == BRENTQ || fz.solver == LEASTSQ) ==> r.Success? && r.value.Fitted?
    ensures r.Success? && r.value.BelowThreshold? ==>
              fz.threshold.Some? && r.value.gap < fz.threshold.value
    ensures r.Success? && r.value.Fitted? ==>
              SignedGain(fz, pos, r.value.result) &&
              (r.value.result.flux.NaN? ==> r.value.result.niter == MAX_NITER)
    ensures fz.threshold.Some? && fz.flux.Some? ==> ((r.Success? && r.value.BelowThreshold?) <==> Skipped(fz, pos))
    ensures Skipped(fz, pos) ==> r == Success(BelowThreshold(Gap(fz, pos), fz.flux.value[pos.0][pos.1] * FLUX_FACTOR))
    ensures r.Success? && r.value.Fitted? ==> FitAmplitude(fz, pos).Success? && ReportsFit(r.value.result, FitAmplitude(fz, pos).value)
    ensures (fz.threshold.None? || fz.flux.Some?) && !Skipped(fz, pos) && FitAmplitude(fz, pos).Failure? ==>
              r == Failure(FitAmplitude(fz, pos).error)
    ensures (fz.threshold.None? || fz.flux.Some?) && !Skipped(fz, pos) && FitAmplitude(fz, pos).Success? ==>
              r.Success? && r.value.Fitted?
  {
    if fz.threshold.Some? && fz.flux.None? then Failure(NoneNotSubscriptable)
    else if Skipped(fz, pos) then
      Success(BelowThreshold(Gap(fz, pos), fz.flux.value[pos.0][pos.1] * FLUX_FACTOR))
    else
      var fit :- FitAmplitude(fz, pos);
      Success(Fitted(Report(fz, pos, fit)))
  }

  /** When c_0_image is the Cash statistic of the counts against the
      background alone, c_0 is the statistic of the window at amplitude zero:
      the TS measures the gain of the fit over no source. */
  lemma NullStatisticIsCashAtZero(fz: Frozen, pos: (int, int))
    requires fz.WellFormed() && fz.Fits(pos)
    requires fz.c0Image == Zip(fz.num.cash, fz.counts, fz.background)
    ensures NullStatistic(fz, pos) == FCash(fz.num, WindowAt(fz, pos), 0.0)
  {
    var w := WindowAt(fz, pos);
    WindowOfZip(fz.num.cash, fz.counts, fz.background, fz.Shape(), pos);
    FCashAtZero(fz.num, w);
  }

  /** A pixel whose window holds no counts is not iterated: Brent and least
      squares both report the amplitude floor with niter 0. */
  lemma ZeroCountPixel(fz: Frozen, pos: (int, int))
    requires fz.WellFormed() && fz.Fits(pos)
    requires fz.threshold.None? && (fz.solver == BRENTQ || fz.solver == LEASTSQ)
    requires !HasCounts(WindowAt(fz, pos))
    ensures TsValue(fz, pos).Success? && TsValue(fz, pos).value.Fitted?
    ensures TsValue(fz, pos).value.result.niter == 0
    ensures TsValue(fz, pos).value.result.flux == Fin(fz.num.bounds(WindowAt(fz, pos)).minTotal * FLUX_FACTOR)
  {
    var fit := FitAmplitude(fz, pos);
    assert fit.value == Fit(Fin(fz.num.bounds(WindowAt(fz, pos)).minTotal), 0);
    assert ReportsFit(TsValue(fz, pos).value.result, fit.value);
  }
}
