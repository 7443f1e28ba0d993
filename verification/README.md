# gammapy core in Dafny

This project models three parts of gammapy and proves properties about them.

- **The TS image estimator** (`gammapy/detect/test_statistics.py`).
  - `TSImageEstimator` fits a source amplitude at every pixel of a counts image. The exposure is first corrected where the background is zero (`_get_mask`). Every exposed pixel of the image interior is then listed (`_get_positions`).
  - For each listed pixel, `_ts_value` cuts out a kernel-sized window and fits the amplitude with Brent's method, Newton's method or iterated least squares.
  - A pixel's TS is the drop of the Cash statistic from the null hypothesis to the fit, signed by the amplitude. `run` writes the per-pixel results into output images that are NaN elsewhere, and derives the signed square root of TS.
  - For the multi-scale front end, the model covers the down-sampling factor rule and `compute_maximum_ts_image`. That function reduces TS images computed at several scales to their pixel-wise maximum.
- **Models and the `Models` collection** (`gammapy/modeling/models/core.py`).
  - A `Model` holds one `Parameter` object per default parameter. Models are linked by sharing parameter objects. `_set_link` restores those links from link labels.
  - `Models` is a mutable sequence of models with unique names, supporting lookup by position, slice, name or identity. `to_dict` labels every parameter shared between models.
- **Data store helpers** (`gammapy/data/data_store.py`).
  - The header checks of the two index tables, and the OBS_ID consistency check.
  - `obs_list` with and without skipping missing observations.
  - How `from_config` finds the index files (`_find_file`).

How the Dafny files are organised:

- `wrappers.dfy`, `floats.dfy` and `grids.dfy` hold the shared vocabulary:
  - `Option` and `Result` stand for Python's raised exceptions;
  - `Float` is a real or NaN;
  - a read-only image is a `seq<seq<T>>`.
- Images that the source updates in place (the exposure in `_get_mask`, the output images of `run` and `compute_maximum_ts_image`) are `array2`. The methods that update them are proved against specification functions.
- `Parameter`, `Model` and `Models` are classes, because their fields are reassigned in place. The list operations of `Models` are first stated as functions on `seq<Model>`, and the methods apply them to the `models` field.
- The numerical kernels are fields of a `Numerics` record of functions. These are the per-pixel Cash term and the amplitude bounds of the Cython module, `_x_best_leastsq`, scipy's `brentq` and `newton`, the two error estimates, and `sqrt`. The model assumes nothing about the values of these functions, with one exception: `_cash_cython` is a pixel-by-pixel map of the `cash` field, and `_cash_sum_cython` is the sum of that map (see "## Left out").
- A file-system test, whether `obs(id)` can open an observation (the store's lookup of the id), and `make_name` are likewise passed in as functions.

## Model

| member | source | states |
|---|---|---|
| TsWindow.ExtractArray | gammapy/detect/test_statistics.py:36-58 | the window as written: 2·(shape[0]//2)+1 rows AND columns, entry (a, b) being the image at (y − shape[0]//2 + a, x − shape[0]//2 + b) |
| TsWindow.NonSquareKernelWindowMisfits | gammapy/detect/test_statistics.py:52-53 | for an odd kernel with shape[0] ≠ shape[1], the window as written has shape[0] rows, and no row of it has shape[1] columns |
| TsWindow.ExtractWindow | gammapy/detect/test_statistics.py:36-58 | the intended window: shape[0]//2 rows and shape[1]//2 columns on either side of the pixel, entry by entry |
| TsWindow.WindowHasKernelShape | gammapy/detect/test_statistics.py:440-444 | for an odd kernel at an interior pixel, the window has exactly the kernel's shape, so it can be multiplied with the kernel |
| TsWindow.SquareKernelWindowsAgree | gammapy/detect/test_statistics.py:52-53 | on a square kernel, the window as written and the intended window are equal |
| TsWindow.WindowOfZip | gammapy/detect/test_statistics.py:440-446 | cutting a window commutes with a pixel-wise map, so the window of c_0_image is the Cash statistic of the windows |
| TsPixels.CorrectedExposure | gammapy/detect/test_statistics.py:148-160 | the corrected exposure is the old exposure or 0; it is positive iff the exposure was positive and the background non-zero |
| TsPixels.CorrectionIdempotent | gammapy/detect/test_statistics.py:148-160 | applying the correction twice gives the same result as applying it once |
| TsPixels.GetMask | gammapy/detect/test_statistics.py:148-160 | every exposure pixel becomes its corrected value in place; mask[j, i] iff the new exposure is positive, and a masked pixel has non-zero background; the warning is issued iff some pixel had exposure but zero background |
| TsPixels.GetPositions | gammapy/detect/test_statistics.py:162-171 | a position is listed iff it is inside the kernel-shrunk interior and masked; positions are strictly increasing in row-major order |
| TsSolvers.Predicted | gammapy/detect/test_statistics.py:61-75 | f_cash's predicted counts have the window's shape and are background + x·FLUX_FACTOR·model at each pixel |
| TsSolvers.PredictedAtZero | gammapy/detect/test_statistics.py:61-75 | at amplitude zero, the prediction is the background alone |
| TsSolvers.FCashAtZero | gammapy/detect/test_statistics.py:61-75 | at amplitude 0, `f_cash` is the Cash statistic of the counts against the background alone |
| TsSolvers.FCashAt | gammapy/detect/test_statistics.py:464-465 | the statistic at a NaN amplitude is NaN, and only then |
| TsSolvers.BrentqAmplitude | gammapy/detect/test_statistics.py:585-624 | no counts: amplitude_min_total with niter 0. Otherwise the amplitude is never below amplitude_min_total; it is NaN with MAX_NITER exactly when brentq raises RuntimeError or ValueError, and otherwise niter is brentq's iteration count |
| TsSolvers.NewtonAmplitude | gammapy/detect/test_statistics.py:550-582 | a ValueError from newton propagates; a RuntimeError gives NaN with MAX_NITER; a root gives niter 0 |
| TsSolvers.FirstConvergence | gammapy/detect/test_statistics.py:508-514 | the result is the first iteration whose relative change is below rtol, or MAX_NITER when none before the cap is |
| TsSolvers.FirstIterationNeverConverges | gammapy/detect/test_statistics.py:507-510 | x_old starts at 0, so the first estimate never passes the rtol test |
| TsSolvers.LeastsqAmplitude | gammapy/detect/test_statistics.py:476-515 | the amplitude is finite and never below amplitude_min_total; niter is 0 iff the window has no counts, is at most MAX_NITER and is never 1; niter − 1 is the first converged iteration, or no iteration converged when niter is MAX_NITER; the amplitude is the estimate at niter − 1 divided by FLUX_FACTOR, raised to the floor |
| TsSolvers.LeastsqStopsAt | gammapy/detect/test_statistics.py:508-511 | when x_k is the first estimate to converge, the result is (max(x_k/FLUX_FACTOR, floor), k + 1) |
| TsSolvers.LeastsqRunsOut | gammapy/detect/test_statistics.py:508-515 | when no estimate converges, the result is the last estimate with niter MAX_NITER |
| TsSolvers.LeastsqIterAmplitude | gammapy/detect/test_statistics.py:476-515 | the iterative loop returns exactly the amplitude and niter described by LeastsqAmplitude |
| TsPixelValue.FluxAt | gammapy/detect/test_statistics.py:450-458 | flux[position] fails with a TypeError exactly when there is no flux image |
| TsPixelValue.FitAmplitude | gammapy/detect/test_statistics.py:455-462 | an unknown method raises ValueError; Brent and least squares always succeed, and their amplitude is never below the floor; Newton without a flux image fails; a NaN amplitude comes with MAX_NITER; a window without counts gives the floor with niter 0 |
| TsPixelValue.Report | gammapy/detect/test_statistics.py:464-473 | the TS is c_0 − c_1 for a positive flux, c_1 − c_0 for a negative flux, 0 for a zero flux and NaN for a NaN flux; the flux is the amplitude times FLUX_FACTOR; niter is passed through |
| TsPixelValue.SignedDifference | gammapy/detect/test_statistics.py:464-473 | (c_0 − c_1) · sign(amplitude) is c_0 − c_1, c_1 − c_0 or 0 by the amplitude's sign, and NaN iff c_1 or the amplitude is NaN |
| TsPixelValue.ReportIsSignedGain | gammapy/detect/test_statistics.py:464-473 | a TS of (c_0 − c_1) · sign(amplitude) with flux = amplitude · FLUX_FACTOR follows the sign convention, and flux / FLUX_FACTOR gives back the amplitude |
| TsPixelValue.TsValue | gammapy/detect/test_statistics.py:412-473 | a threshold without a flux image raises TypeError; an unknown method raises ValueError; with no threshold, Brent and least squares always give a fitted result; with a threshold and a flux image, the pixel is skipped iff the start value's gain c_0 - c_1 is below the threshold, giving (gain, flux[position]·FLUX_FACTOR); otherwise the solver's error propagates, or, when the solver returns, the pixel is fitted and its result has the solver's niter, flux = amplitude·FLUX_FACTOR (NaN iff the amplitude is), the signed gain, and MAX_NITER when NaN |
| TsPixelValue.NullStatisticIsCashAtZero | gammapy/detect/test_statistics.py:440-446 | c_0, summed from the Cash image of counts against background, is f_cash at amplitude 0, so the TS measures the gain over no source |
| TsPixelValue.ZeroCountPixel | gammapy/detect/test_statistics.py:502-503 | a window without counts is fitted without iterating: niter 0 and flux amplitude_min_total·FLUX_FACTOR |
| TsEstimator.NewEstimator | gammapy/detect/test_statistics.py:122-134 | construction succeeds iff the method is one of the three names (ValueError otherwise), and keeps every parameter |
| TsEstimator.FirstMissing | gammapy/detect/test_statistics.py:243-245 | the first assembled output name missing from `which` (whose lookup raises KeyError); None iff all five are requested |
| TsEstimator.SqrtTsIsSignedRoot | gammapy/detect/test_statistics.py:248-251 | sqrt_ts is NaN iff ts is; it has the sign of ts, and sqrt_ts·abs(sqrt_ts) == ts |
| TsEstimator.ResultAt | gammapy/detect/test_statistics.py:243-245 | the result stored for a pixel is the one at that pixel's index in positions, and none iff the pixel is not listed |
| TsEstimator.EvaluatePixels | gammapy/detect/test_statistics.py:229-240 | mapping `_ts_value` over positions succeeds iff every pixel succeeds, pairing result k with position k; a failure is some pixel's exception |
| TsEstimator.Collect | gammapy/detect/test_statistics.py:229-240 | consuming the map succeeds iff every call succeeds, giving the values in order; otherwise the error of the first call that raised |
| TsEstimator.NaNImages | gammapy/detect/test_statistics.py:207-212 | there is one fresh, distinct, image-sized array per requested name, filled with NaN |
| TsEstimator.WriteColumn | gammapy/detect/test_statistics.py:243-245 | one assembled image receives its field of each pixel's result at that pixel, and keeps its value elsewhere |
| TsEstimator.WriteImage | gammapy/detect/test_statistics.py:243-245 | an assembled image written over its NaN fill holds its field of the result at each fitted pixel and NaN at every other pixel |
| TsEstimator.FillSqrtTs | gammapy/detect/test_statistics.py:248-251 | each sqrt_ts pixel is the signed square root of the ts pixel |
| TsEstimator.WriteAssembled | gammapy/detect/test_statistics.py:244-245 | every assembled image holds each pixel's output value; the other requested images stay NaN |
| TsEstimator.Assemble | gammapy/detect/test_statistics.py:243-251 | success iff every outcome is fitted and all assembled names are requested; a threshold tuple raises TypeError before the KeyError of the first missing name; on success every requested image holds each pixel's output value |
| TsEstimator.AssembledHolds | gammapy/detect/test_statistics.py:243-251 | with the assembled images written, sqrt_ts computed from ts and every other image NaN, every image holds its name's value at every pixel |
| TsEstimator.ParseImages | gammapy/detect/test_statistics.py:173-180 | counts, background and exposure must be present, in that order, and have one shape; they are returned as (counts, exposure, background) |
| TsEstimator.MaskAndPositions | gammapy/detect/test_statistics.py:221-222 | the exposure is the corrected grid; the positions are exactly the eligible pixels, distinct and inside the interior |
| TsEstimator.PixelsFittedIff | gammapy/detect/test_statistics.py:448-462 | with no flux image and at least one position, every pixel is fitted iff the method is Brent or least squares and no threshold is set |
| TsEstimator.ResultOfPixel | gammapy/detect/test_statistics.py:243-245 | the result assembled at a pixel is its `_ts_value` result when the pixel is eligible, and none otherwise |
| TsEstimator.StoredIndex | gammapy/detect/test_statistics.py:243-245 | an eligible pixel has an index in positions where its result is stored; an ineligible one has none and no stored result |
| TsEstimator.PixelValues | gammapy/detect/test_statistics.py:243-251 | images holding the fitted results at the positions hold each eligible pixel's `_ts_value` value and NaN elsewhere |
| TsEstimator.RunParsed | gammapy/detect/test_statistics.py:214-251 | 'root newton' fails; success iff Brent or least squares, no threshold, some eligible pixel, and all assembled outputs requested; every output pixel equals its output value |
| TsEstimator.FitAndAssemble | gammapy/detect/test_statistics.py:229-251 | success iff Brent or least squares, no threshold, some eligible pixel and every assembled output requested; then fresh, distinct, image-shaped outputs for the requested names holding each eligible pixel's `_ts_value` value and NaN elsewhere |
| TsEstimator.Run | gammapy/detect/test_statistics.py:182-255 | input errors come first; success iff the inputs parse, the method is Brent or least squares, no threshold is set, some pixel is eligible and all assembled outputs are requested; then every requested image is fresh and NaN except at eligible pixels, which hold their `_ts_value` fields; sqrt_ts is the signed root of ts |
| TsMultiscale.AutoFactor | gammapy/detect/test_statistics.py:301-304 | the factor is 1, 2, 4 or 8, and each value holds exactly when its np.select condition is the first to hold |
| TsMultiscale.AutoFactorMonotone | gammapy/detect/test_statistics.py:301-304 | a larger scale never gets a smaller automatic factor |
| TsMultiscale.ScaleFactor | gammapy/detect/test_statistics.py:301-315 | down-sampling iff the factor is not 1; no down-sampling means factor 1; Shell2D halves the factor by true division |
| TsMultiscale.ShellAutoFactor | gammapy/detect/test_statistics.py:301-315 | under Shell2D the automatic factor is 1, 2 or 4, and down-sampling happens iff the scale is at least five pixels |
| TsMultiscale.MaxOver | gammapy/detect/test_statistics.py:391 | np.max over the scales is NaN iff some TS is NaN; otherwise it is at least every TS and equal to one of them |
| TsMultiscale.LastMatch | gammapy/detect/test_statistics.py:396-400 | the result is the last scale whose TS equals the maximum under `==`, or none iff no scale does |
| TsMultiscale.MaximumMatchedIff | gammapy/detect/test_statistics.py:391-400 | some scale matches the maximum iff it is finite, so a NaN maximum leaves the pixel's zeros |
| TsMultiscale.WriteMatches | gammapy/detect/test_statistics.py:396-400 | one pass overwrites scale, niter and amplitude exactly where this scale's TS equals ts_max |
| TsMultiscale.ComputeMaximumTsImage | gammapy/detect/test_statistics.py:371-409 | fails iff the images cannot be stacked; ts_max is the pixel-wise maximum; scale, niter and amplitude come from the last matching scale, or are 0 where none matches; MORPH is that of the first result |
| TsMultiscale.PickScales | gammapy/detect/test_statistics.py:392-400 | fresh images holding, at each pixel, the scale, niter and amplitude of the last scale whose TS equals ts_max, and 0 where none does |
| ModelBase.Model.constructor | gammapy/modeling/models/core.py:33-47 | every default name gets a slot: the Parameter passed for it, or else a fresh copy of the default carrying the passed quantity or the default value and its link label; parameters resolve to those slots |
| ModelBase.DefaultAttrs | gammapy/modeling/models/core.py:33-47 | one attribute per default name: the Parameter passed for it, or else a fresh copy of the default with its label and the passed or default value |
| ModelBase.Model.Parameters | gammapy/modeling/models/core.py:91-96 | there is one parameter per default parameter, in the order of the default names |
| ModelBase.Resolve | gammapy/modeling/models/core.py:91-96 | each default name resolves to the instance attribute of that name, else to the class default |
| ModelBase.RegisterOnlyGrows | gammapy/modeling/models/core.py:14-24 | the register never loses or replaces an entry |
| ModelBase.RegisterLabels | gammapy/modeling/models/core.py:14-24 | afterwards the register's labels are the old ones plus those of the parameters, and a new label maps to the first parameter carrying it |
| ModelBase.RegisterKeys | gammapy/modeling/models/core.py:14-24 | afterwards the register's labels are exactly the old ones plus those the parameters carry |
| ModelBase.RegisterCovers | gammapy/modeling/models/core.py:14-24 | every label a parameter carries is registered afterwards |
| ModelBase.RegisterFirst | gammapy/modeling/models/core.py:14-24 | a newly registered label maps to the first parameter carrying it |
| ModelBase.FirstCarrier | gammapy/modeling/models/core.py:14-24 | one more parameter keeps each label's first carrier, and registers a new label with the parameter that brings it |
| ModelBase.LinkSlot | gammapy/modeling/models/core.py:15-23 | one loop step: a labelled parameter's slot holds the register's object for its label, and other slots are unchanged |
| ModelBase.RelinkedShares | gammapy/modeling/models/core.py:14-24 | after `_set_link`, parameters of a model that carried the same label are one object |
| ModelBase.LinkedAcrossModels | gammapy/modeling/models/core.py:222-234 | with one register across `from_dict`'s models, a later parameter with an earlier model's label becomes that very object |
| ModelBase.SetLink | gammapy/modeling/models/core.py:14-24 | the returned register is the old register extended by the model's labels; each labelled slot now holds the register's object for its label, and unlabelled slots are unchanged |
| ModelsCollection.NamesOf | gammapy/modeling/models/core.py:193-195 | the names are the models' names, in list order |
| ModelsCollection.IndexOf | gammapy/modeling/models/core.py:343-345 | `list.index` finds the first occurrence, and fails iff the element is absent |
| ModelsCollection.IndexIn | gammapy/modeling/models/core.py:339-347 | ints and slices pass through; a name gives the first model with it, a model the first slot holding that object (ValueError when absent); any other key raises TypeError |
| ModelsCollection.Wrap | gammapy/modeling/models/core.py:319-320 | an int index is valid iff −n ≤ i < n; a negative index counts from the end |
| ModelsCollection.Clamp | gammapy/modeling/models/core.py:333-337 | slice bounds and insertion indices are clamped into [0, n], with negatives counted from the end |
| ModelsCollection.SliceBounds | gammapy/modeling/models/core.py:319-323 | a step-1 slice selects lo ≤ hi ≤ n; missing bounds are the ends |
| ModelsCollection.Selected | gammapy/modeling/models/core.py:319-323 | the positions a key refers to: one slot for an int, name or model, a run for a slice; an out-of-range int raises IndexError; index errors pass through |
| ModelsCollection.ItemIn | gammapy/modeling/models/core.py:319-320 | `__getitem__`: a name gives a model carrying it (and no earlier model carries it); a model gives itself iff present; a slice gives the sub-list; other keys raise TypeError |
| ModelsCollection.RemovalKeepsUnique | gammapy/modeling/models/core.py:322-323 | removing any run of slots keeps names unique |
| ModelsCollection.Deletion | gammapy/modeling/models/core.py:322-323 | the selected slots are removed and the rest keep their order; deleting one model removes exactly that model from the multiset; unique names stay unique |
| ModelsCollection.AssignmentAsWritten | gammapy/modeling/models/core.py:325-331 | as written: a SkyModel or SkyDiffuseCube replaces the selected slot whatever its name; another model raises TypeError; a slice raises TypeError |
| ModelsCollection.AssignmentAsWrittenBreaksUnique | gammapy/modeling/models/tests/test_cube.py:359-360 | on [a, b], `mods[1] = mods[0]` is accepted and leaves two models named like a |
| ModelsCollection.Assignment | gammapy/modeling/models/core.py:325-331 | corrected: accepted iff the code as written accepts it and no other slot carries the model's name, with the same result; otherwise ValueError; names stay unique |
| ModelsCollection.Inserted | gammapy/modeling/models/core.py:337 | one longer; the model sits at the clamped index, and removing it gives back the list |
| ModelsCollection.InsertedAt | gammapy/modeling/models/core.py:337 | models before the index keep their slots, and the ones after it move up by one |
| ModelsCollection.Insertion | gammapy/modeling/models/core.py:333-337 | refused with ValueError iff the name is present; otherwise inserted |
| ModelsCollection.InsertionKeepsUnique | gammapy/modeling/models/core.py:333-337 | an accepted insertion keeps names unique |
| ModelsCollection.Extension | gammapy/modeling/models/core.py:333-337 | extend appends a prefix of the models; it stops iff a model's name is already in the list, with ValueError |
| ModelsCollection.ExtensionKeepsUnique | gammapy/modeling/models/core.py:333-337 | each appended model's name was new at its turn, so names stay unique |
| ModelsCollection.Addition | gammapy/modeling/models/core.py:309-317 | a list or collection is concatenated and accepted iff names stay unique; a model already named raises ValueError; another type raises TypeError |
| ModelsCollection.AdditionOfOneModel | gammapy/modeling/models/core.py:313-316 | for unique names, adding a model succeeds iff its name is new, and the result is one longer |
| ModelsCollection.HasDuplicateName | gammapy/modeling/models/core.py:153-157 | the seen-names loop finds a duplicate iff the names are not unique |
| ModelsCollection.SharedIff | gammapy/modeling/models/core.py:281-287 | a parameter is collected as shared iff it occurs at least twice among the stacked parameters, and it is collected once |
| ModelsCollection.SharedParameters | gammapy/modeling/models/core.py:280-287 | the loop over the stacked parameters collects exactly SharedOf, in order of second occurrence |
| ModelsCollection.Records | gammapy/modeling/models/core.py:104 | one record per parameter, with its name, value and link label |
| ModelsCollection.Models.Init | gammapy/modeling/models/core.py:159-160 | the collection holds the given list and no covariance path |
| ModelsCollection.Models.New | gammapy/modeling/models/core.py:140-161 | None is empty; a collection, model or list gives its list; other types raise TypeError; success iff names are unique (ValueError otherwise); the names are the given ones in order; a new collection is `Valid` |
| ModelsCollection.Models.Insert | gammapy/modeling/models/core.py:333-337 | refused iff the name is present, with the list unchanged; otherwise the list is Insertion's result; unique model names stay unique (`Valid` is kept) |
| ModelsCollection.Models.Append | gammapy/modeling/models/core.py:333-337 | append is insert at the end: refused iff the name is present, otherwise the model is added last; unique model names stay unique (`Valid` is kept) |
| ModelsCollection.Models.Extend | gammapy/modeling/models/core.py:333-337 | the list and error are exactly Extension's; unique model names stay unique (`Valid` is kept) |
| ModelsCollection.Models.DelItem | gammapy/modeling/models/core.py:322-323 | the list becomes Deletion's result, or stays the same on its error; unique model names stay unique (`Valid` is kept) |
| ModelsCollection.Models.Remove | gammapy/modeling/models/core.py:322-323 | an absent model raises ValueError; a present one is removed at its first occurrence, with the other models in order; unique model names stay unique (`Valid` is kept) |
| ModelsCollection.Models.Pop | gammapy/modeling/models/core.py:319-323 | pop(i) returns the model at the wrapped index and removes exactly it; an out-of-range index raises IndexError with the list unchanged; unique model names stay unique (`Valid` is kept) |
| ModelsCollection.Models.SetItem | gammapy/modeling/models/core.py:325-331 | the corrected assignment: the list becomes Assignment's result, or stays the same on its error; unique model names stay unique (`Valid` is kept) |
| ModelsCollection.Models.Add | gammapy/modeling/models/core.py:309-317 | the result is a fresh collection holding Addition's list, or Addition's error; a new collection is `Valid` |
| ModelsCollection.Models.ToDict | gammapy/modeling/models/core.py:278-298 | the t-th shared parameter is labelled name@makeName(t); component k is model k's dict; the covariance entry is present iff a covariance path is set |
| ModelsCollection.LabelShared | gammapy/modeling/models/core.py:288-289 | every shared parameter is labelled with its name, "@" and a fresh name |
| ModelsCollection.Components | gammapy/modeling/models/core.py:291-294 | one component per model, in order |
| DataStoreChecks.HeaderErrors | gammapy/data/data_store.py:260-275 | there is one error for a bad HDUCLAS1, then one for a bad HDUCLAS2 (a missing key reads as ""); none iff both match; each names the table |
| DataStoreChecks.CheckObsTable | gammapy/data/data_store.py:260-275 | no record iff HDUCLAS1=INDEX and HDUCLAS2=OBS; at most two errors, on obs-index |
| DataStoreChecks.LookupErrors | gammapy/data/data_store.py:294-302 | at most one error per lookup, none iff all are found, and no table name; LookupErrorsConcat and LookupErrorsOne pin down the records exactly |
| DataStoreChecks.LookupErrorsConcat | gammapy/data/data_store.py:294-302 | the rows are checked one by one, so the errors of a concatenation are those of each part, in table order |
| DataStoreChecks.LookupErrorsOne | gammapy/data/data_store.py:294-302 | a found HDU gives no record; a missing one gives one error naming its location |
| DataStoreChecks.CheckHduTable | gammapy/data/data_store.py:277-302 | no record iff the header is INDEX/HDU and every HDU is found; header errors come first |
| DataStoreChecks.CheckHduTableAppends | gammapy/data/data_store.py:277-302 | more index rows only append their lookup errors after the records already reported |
| DataStoreChecks.SameElements | gammapy/data/data_store.py:310-312 | the two OBS_ID sets are equal iff every id of one column is in the other |
| DataStoreChecks.CheckConsistency | gammapy/data/data_store.py:307-316 | one error iff some OBS_ID is in one table and not the other |
| DataStoreChecks.ConsistencyIgnoresOrder | gammapy/data/data_store.py:310-312 | reordering or repeating ids never changes the verdict |
| DataStoreChecks.Obs | gammapy/data/data_store.py:137-150 | succeeds iff the observation can be opened, carrying that OBS_ID; otherwise the ValueError for that id |
| DataStoreChecks.Available | gammapy/data/data_store.py:167-181 | at most one observation per id; all ids are kept iff all can be opened |
| DataStoreChecks.AvailableMembers | gammapy/data/data_store.py:167-181 | only observations of ids that can be opened are in the list, and every such observation is in it |
| DataStoreChecks.AvailableConcat | gammapy/data/data_store.py:167-181 | skipping over a concatenation of id lists is the concatenation of the skipped lists |
| DataStoreChecks.AvailableOne | gammapy/data/data_store.py:167-181 | one id contributes its observation if it can be opened, and nothing otherwise |
| DataStoreChecks.AvailableStep | gammapy/data/data_store.py:167-181 | the observations of ids[k..] are those of ids[k], if it can be opened, followed by those of ids[k+1..] |
| DataStoreChecks.FirstUnreadable | gammapy/data/data_store.py:167-178 | the first id whose `obs()` raises ValueError (not an integer, or not in the store); none iff all can be opened |
| DataStoreChecks.FirstUnreadableAt | gammapy/data/data_store.py:168-178 | an id that cannot be opened, after ids that all can, is the first unreadable one |
| DataStoreChecks.PrefixStep | gammapy/data/data_store.py:168-180 | reading one more id appends that id's observation, if it can be opened, to those of the shorter prefix |
| DataStoreChecks.KeepStep | gammapy/data/data_store.py:168-180 | appending an opened observation keeps the list equal to the observations of the ids read so far |
| DataStoreChecks.SkipStep | gammapy/data/data_store.py:170-176 | skipping an id that cannot be opened keeps the list equal to the observations of the ids read so far |
| DataStoreChecks.ReadObservations | gammapy/data/data_store.py:167-180 | the list holds the observations of the ids read so far; it stops early only without skip_missing, at an id that cannot be opened, after ids that all could |
| DataStoreChecks.ObsList | gammapy/data/data_store.py:152-181 | with skip_missing, the observations that can be opened; without it, the ValueError of the first id that cannot be opened, or else every observation in order |
| DataStoreChecks.FindFile | gammapy/data/data_store.py:105-123 | the filename itself if it is a file, else the filename under dir; OSError iff neither is a file, naming both |
| DataStoreChecks.FromConfig | gammapy/data/data_store.py:89-103 | base_dir is required (KeyError); index names default to DEFAULT_HDU_TABLE and DEFAULT_OBS_TABLE; success iff both `_find_file` calls succeed, giving the store over the two found files; otherwise the HDU index's OSError first, then the observation index's |
| DataStoreChecks.FromConfigDefaults | gammapy/data/data_store.py:89-103 | with no names configured and both default files in base_dir only, the store reads base_dir/hdu-index.fits.gz and base_dir/obs-index.fits.gz |

## Left out

- The process pool of `run` (`parallel=True`) is modelled like the sequential `map`: results come in position order in both.
- `map(wrap, positions)` is modelled as a list, as Python 2's `map` and the pool's `map` produce. With `parallel=False` under Python 3 it is a one-shot iterator: the first assembled image would consume it, and the later ones would receive empty lists. That case is not modelled.
- `_estimate_flux` uses names it never defines, so `run` with 'root newton' fails before any fitting (`FluxEstimateUndefined`). Newton's method is modelled for `_ts_value` given a flux image.
- A threshold needs `flux[position]`, and `run` passes no flux image except for Newton. A threshold in `run` therefore always raises TypeError, which the model shows.
- The Cython kernels `_amplitude_bounds_cython`, `_f_cash_root_cython` and `_x_best_leastsq`, scipy's `brentq`, `newton` and `fftconvolve`, and `sqrt` are uninterpreted functions. The Cash kernels are not fully uninterpreted. `_cash_cython` is assumed to apply one function `cash(counts, mu)` to each pixel, and `_cash_sum_cython` is assumed to be the sum of that function over the window. `c_0_image` is built that way, `FCash` computes its sum that way, and `NullStatisticIsCashAtZero` rests on both. `_compute_amplitude_err` and `_compute_amplitude_err_profile` are uninterpreted too: `Report`'s body passes their results through to `flux_err` and `flux_err_profile`, and no contract mentions them.
- Float64 arithmetic, infinities, and the float32/int16 casts of the returned images are not modelled. Values are exact reals or NaN.
- TsSolvers.SmallChange: a zero estimate counts as not converged, as numpy's nan/inf quotient does. With a plain Python float, the source would raise ZeroDivisionError instead.
- `compute_ts_image_multiscale` is modelled only for its factor rule. It calls `compute_ts_image`, which is not part of this model, and its resampling and PSF kernels are image processing outside the core.
- TsMultiscale.ComputeMaximumTsImage: scale_max is computed but not returned by the source; the model returns it alongside the other images.
- TsEstimator.Run requires an odd kernel and rectangular images (what numpy arrays and astropy kernels are). Logging, timing and the meta dict are not modelled.
- ModelBase.Model.constructor requires a Parameter passed as a keyword to carry that keyword's name. The source stores such a Parameter under its own name.
- Parameter membership in `to_dict` (`param not in params_list`) is modelled as object identity. `Parameter.__eq__` is not part of this model.
- `make_name` is a parameter (`makeName`) giving the t-th fresh name.
- TsPixelValue.TsValue, TsEstimator.Run: the pixel window is the intended one (`ExtractWindow`, the kernel's own shape). With an odd non-square kernel the source's `_extract_array` uses shape[0] for both widths, so `exposure_ * kernel._array` (test_statistics.py:444) raises ValueError on the mismatched shapes; `NonSquareKernelWindowMisfits` shows the mismatch, and the exception itself is not modelled.
- TsSolvers.FCashAt, TsPixelValue.SignedGain, TsSolvers.LeastsqAmplitude: the Cash kernel and `_x_best_leastsq` are real-valued, so a NaN statistic or amplitude arises only from a failed root search. The source's kernel can give inf or NaN for non-positive predicted counts, and `max(nan, floor)` would then keep the NaN; those paths are not modelled.
- TsMultiscale.ComputeMaximumTsImage: stacking requires niter and amplitude to have the shape of the first TS image (`Stackable`), which is stricter than the three separate `np.dstack` calls, each of which only needs its own images to agree.
- TsEstimator.Run: a `which` other than 'all' is modelled as a list of names; a bare string other than 'all', which the loop at test_statistics.py:211 would walk character by character, is not modelled.
- Covariance matrices, YAML reading and writing, `covariance_from_table`, and the model registry used by `Models.from_dict` are not modelled. `from_dict`'s use of `_set_link` is covered by `LinkedAcrossModels`, and the submodels of a SkyModel are treated like any model.
- `Models.__init__` keeps the caller's list object, so later mutation is shared with it. The model copies the list's value, so this aliasing is not captured.
- Slices with a step other than 1 are not modelled. Assigning a single model to a slice is the TypeError Python raises.
- Paths are strings. `make_path`'s environment-variable expansion and pathlib's normalisation are not modelled, and `Join` covers only the absolute-path case.
- Reading FITS tables, `DataStoreObservation` beyond its OBS_ID, `copy_obs`, `info` and `check_observations` are not modelled.
- `check_hdu_table`'s message shows the location's `__dict__`; the model keeps the location as a string.

## Findings

| source | as written | input that shows it | evidently intended | confidence | as-written member | corrected member |
|---|---|---|---|---|---|---|
| gammapy/detect/test_statistics.py:52-53 | both half-widths of the window come from shape[0] | a kernel of shape (3, 5) at an interior pixel: the window is 3 × 3, and exposure_ * kernel._array cannot broadcast | x_width = shape[1] // 2 | high; not executed | TsWindow.ExtractArray, TsWindow.NonSquareKernelWindowMisfits | TsWindow.ExtractWindow |
| gammapy/modeling/models/core.py:325-331 | `__setitem__` stores the model without checking names | `mods[1] = mods[0]` on [a, b], which test_cube.py:359-360 expects to raise "Model names must be unique" | refuse a model whose name another slot carries | high; not executed | ModelsCollection.AssignmentAsWritten, ModelsCollection.AssignmentAsWrittenBreaksUnique | ModelsCollection.Assignment (used by ModelsCollection.Models.SetItem) |
