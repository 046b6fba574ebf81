# TrajFlow core in Dafny

TrajFlow predicts future trajectories with a conditional continuous normalizing
flow. This project models three parts of it:

- the natural cubic spline that turns sampled control points into a continuous
  signal, including the tridiagonal (Thomas algorithm) solve for the knot
  derivatives;
- the bookkeeping around the flow's ODE solve, which covers default arguments,
  time reversal, which states are returned and the log-density identity;
- the inD data loader: normalisation of columns to [0, 1], track filtering and
  200-frame windowing, column selection, the train/test split of a random
  permutation, the per-sample missing-value mask, the `InDDataset` wrapper and
  the lazily filled observation-site cache.

All arithmetic is over Dafny's exact `real`. A division by zero in the Python code
yields inf/NaN; here it is an explicit error outcome (`Degenerate`, `None`,
`ZeroWidth`). Batch and channel dimensions of the spline are independent copies
of one scalar construction.

Modules and files:

| file | module | models |
|---|---|---|
| wrappers.dfy | Wrappers | `Option` and `Result` |
| tridiagonal.dfy | Tridiagonal | `_tridiagonal_solve` |
| spline.dfy | Spline | `NaturalCubicSpline`: `_coefficients`, `_interpret_t`, `evaluate`, `derivative` |
| flow.dfy | Flow | `ConditionalCNF.forward` time handling, `TrajCNF.log_prob` |
| normalization.dfy | Normalization | `normalize`, `denormalize`, the loader's boundary constants |
| windowing.dfy | Windowing | `_parse`: track filter, windows, column selection |
| split.dfy | Split | the train/test split arithmetic |
| masking.dfy | Masking | `_mask` |
| ind.dfy | InD | `InDDataset`, `_load_observation_site`, `_get_observation_site`, site keys |

The segment lookup sums `t > times`, which counts the knot times strictly
below `t`. So `t` equal to an interior knot uses the segment
that ends there, not the one that starts there. Both give the same value
because the spline is continuous there (`Spline.ContinuousAcrossKnots`).

## Model

| member | source | states |
|---|---|---|
| Tridiagonal.ForwardSweep | TrajCNF.py:129-134 | Forward elimination over the first n rows gives n pivots and n right-hand sides. Every pivot used as a divisor is nonzero. Row 0 is copied unchanged. |
| Tridiagonal.EliminationStep | TrajCNF.py:132-134 | When x satisfies the previous eliminated row, the row with its sub-diagonal entry eliminated has the same residual at x as the row before elimination. |
| Tridiagonal.SweepPreservesSolutions | TrajCNF.py:131-134 | A vector satisfies the first n rows of A·x = b exactly when it satisfies the first n rows of the eliminated (upper-bidiagonal) system. |
| Tridiagonal.BackSubstitute | TrajCNF.py:136-138 | Back substitution from row i returns a suffix that satisfies every eliminated row from i to the end. |
| Tridiagonal.Solve | TrajCNF.py:87-140 | When the solver returns x (no zero pivot), x solves A·x = b in every row, which is the docstring's promise. |
| Tridiagonal.SweptSolutionUnique | TrajCNF.py:136-138 | Two vectors that both satisfy an upper-bidiagonal system with nonzero pivots agree from row i on. |
| Tridiagonal.SolutionIsUnique | TrajCNF.py:87-140 | Any solution of the system equals the returned one. |
| Tridiagonal.DominantPivots | TrajCNF.py:131-134 | On a strictly diagonally dominant system with non-negative off-diagonals, every pivot exceeds its row's super-diagonal entry and so is nonzero. |
| Tridiagonal.DominantSystemSolvable | TrajCNF.py:129-138 | The solver always succeeds on such a system. |
| Spline.Coefficients | TrajCNF.py:39-85 | Fewer than two knots is the ValueError (`TooShort`). A repeated consecutive time is `Degenerate`. Strictly increasing times always give a spline with one coefficient of each kind per segment. |
| Spline.ShortPathIsLinear | TrajCNF.py:48-52 | With two knots the spline is the straight line through them: `a = p0`, `b = (p1-p0)/(t1-t0)`, `two_c = three_d = 0`. `derivative` is that slope for every t and `evaluate` is the line everywhere. |
| Spline.SplineSystem | TrajCNF.py:55-71 | The knot-derivative system has one row per knot and is well shaped for the solver. |
| Spline.KnotSystemSolvable | TrajCNF.py:62-73 | For strictly increasing times the knot system is diagonally dominant, so the solve succeeds. |
| Spline.KnotDerivatives | TrajCNF.py:72-83 | A built spline's coefficients come from knot derivatives k that solve the knot system. |
| Spline.CountBelowExact | TrajCNF.py:144 | When exactly the first m knot times lie below t, the count is m. |
| Spline.InterpretT | TrajCNF.py:142-148 | The segment index is always a valid segment (never the last knot), and the offset is measured from that segment's start. |
| Spline.LookupCovers | TrajCNF.py:142-148 | For increasing knots, the lookup returns the segment covering t and the offset of t from that segment's first knot. |
| Spline.Evaluate | TrajCNF.py:150-155 | For increasing knots, `evaluate(t)` is the cubic of the segment covering t, taken at t's offset from that segment's first knot. Before the first knot and after the last knot the end segments are extrapolated. |
| Spline.Derivative | TrajCNF.py:157-162 | For increasing knots, `derivative(t)` is the slope of the segment covering t at t's offset. |
| Spline.SegmentLookup | TrajCNF.py:142-148 | For increasing knots, t in (times[i], times[i+1]] uses segment i. t at or before the first knot uses segment 0. t after the last knot uses the last segment. |
| Spline.CoefficientsAt | TrajCNF.py:76-83 | Segment i built from knot derivatives k has `a = p_i`, `b = k_i`, `two_c = (6·Δp·q - 4·k_i - 2·k_{i+1})·q` and `three_d = (-6·Δp·q + 3·(k_i + k_{i+1}))·q²`, where q is the reciprocal time step. |
| Spline.CubicEndpoint | TrajCNF.py:78-83 | For any knot derivatives k0 and k1, the segment cubic ends at the next knot value with slope k1. |
| Spline.SegmentEnd | TrajCNF.py:76-83 | Segment i of the spline ends at path[i+1] with slope k[i+1]. |
| Spline.AtKnot | TrajCNF.py:150-162 | At every knot, `evaluate` gives the knot value and `derivative` gives that knot's derivative. |
| Spline.Interpolates | TrajCNF.py:142-155 | For strictly increasing times, `evaluate(times[i]) == path[i]` for every knot i. |
| Spline.DerivativeAtKnots | TrajCNF.py:157-162 | At interior knots `derivative` equals the `b` coefficient of the segment starting there. |
| Spline.ContinuousAcrossKnots | TrajCNF.py:76-83 | The spline is C¹: where segment i ends, its value and slope equal those of segment i+1 at its start. |
| Spline.SlopeIsDerivative | TrajCNF.py:153-161 | The slope `derivative` computes is the exact linear term of the Taylor expansion of the cubic that `evaluate` computes on the same segment. |
| Spline.DerivativeOfEvaluate | TrajCNF.py:150-162 | The same at the level of `evaluate`/`derivative` at any t. |
| Spline.CurvatureIsDerivative | TrajCNF.py:78-83 | `two_c + 2·three_d·f` is the derivative of the slope, so `two_c` is the second derivative at a segment's start. |
| Spline.FirstCurvature | TrajCNF.py:63-80 | The second derivative vanishes at the first knot. |
| Spline.LastCurvature | TrajCNF.py:63-83 | The second derivative vanishes at the last knot. |
| Spline.InteriorCurvature | TrajCNF.py:63-83 | At every interior knot the second derivatives of the two adjoining segments agree. |
| Spline.NaturalBoundary | TrajCNF.py:63-83 | A built spline is a natural cubic spline: `two_c[0] = 0`, zero curvature at the end, and equal curvature at each interior knot. |
| Flow.Zeros | TrajCNF.py:291-292 | The default log-density change has shape (batch, seq) and all entries zero. |
| Flow.Reverse | TrajCNF.py:295-296 | Flipping the times puts entry i at position len-1-i. |
| Flow.ReverseInvolution | TrajCNF.py:295-296 | Flipping twice restores the times. |
| Flow.IntegrationTimes | TrajCNF.py:293-296 | Without times the integration runs over [0, 1], or [1, 0] when reversed. Given times are used exactly as given, or flipped end to end when reversed. |
| Flow.InitialDelta | TrajCNF.py:291-292 | A given log-density change is used as is. A missing one becomes zeros of shape (batch, seq). |
| Flow.CnfForward | TrajCNF.py:290-304 | With exactly two times only the state at the second time is returned, otherwise the whole trajectory. |
| Flow.DefaultTimesGiveTerminal | TrajCNF.py:293-302 | With the default times `forward` always returns the terminal state, integrated over [0, 1] or [1, 0]. |
| Flow.ReverseIsFlippedTimes | TrajCNF.py:295-299 | `reverse=True` is the same as passing the flipped times. |
| Flow.SampleThenForward | TrajCNF.py:335-338 | With an exact integrator, sampling (the reverse run) followed by a forward run that carries the change along returns the starting points with a zero change. |
| Flow.LogProb | TrajCNF.py:341-344 | `log_prob` gives the base log-density of each point, and `logpz_t1 + delta_logpz == logpz_t0` exactly. |
| Flow.ForwardCarriesChange | TrajCNF.py:290-302 | With a flow integrator, whose log-density change does not depend on the change carried in, passing `delta_logpz` into `forward` leaves the output points unchanged. `log_prob` on that output then gives the same `logpz_t0`, and its `logpz_t1` is lower by exactly the change passed in. |
| Normalization.NormalizePoint | InD.py:7-8 | `normalize` on a point fails exactly when its width differs from the number of boundaries or a boundary has zero width. Otherwise it keeps the width. numpy's size-1 broadcast is not modelled (see Left out). |
| Normalization.DenormalizePoint | InD.py:10-11 | `denormalize` on a point fails exactly when its width differs from the number of boundaries. numpy's size-1 broadcast is not modelled (see Left out). |
| Normalization.Normalize | InD.py:7-8 | `normalize` on a sequence of points keeps the number of points. |
| Normalization.Denormalize | InD.py:10-11 | `denormalize` on a sequence of points keeps the number of points. |
| Normalization.ValueRoundTrip | InD.py:7-11 | Per column, `denormalize(normalize(x)) == x` and `normalize(denormalize(y)) == y` when the boundary has distinct ends. |
| Normalization.PointRoundTrip | InD.py:7-11 | Both round trips hold for whole points. |
| Normalization.RoundTrip | InD.py:7-11 | `denormalize(normalize(data)) == data` wherever `normalize` succeeds. |
| Normalization.RoundTripBack | InD.py:7-11 | `normalize(denormalize(data)) == data` for non-degenerate boundaries. |
| Normalization.NormalizeSucceeds | InD.py:7-8 | `normalize` succeeds exactly when every point has one value per boundary and no boundary is degenerate (or there are no points). |
| Normalization.BoundsToUnit | InD.py:8 | The lower bound maps to 0 and the upper bound to 1. |
| Normalization.Increasing | InD.py:8 | For lo < hi, `normalize` is monotone. |
| Normalization.NormalizeMonotone | InD.py:8 | For lo < hi, `normalize` is monotone and maps [lo, hi] into [0, 1]. |
| Normalization.LoaderBoundaries | InD.py:190-191 | The spatial and feature boundaries used by the loader are increasing and never degenerate. |
| Windowing.TargetIds | InD.py:226-231 | The kept track ids are no more than the metadata records. |
| Windowing.TargetIdsExact | InD.py:226-231 | An id is kept exactly when some record with that id is a car or truck_bus with 200 < numFrames < 1000. |
| Windowing.RowsOfExact | InD.py:233-238 | A track's rows are exactly the table rows carrying its id. |
| Windowing.MaxLifetime | InD.py:239 | The largest lifetime bounds every row's lifetime and is attained. |
| Windowing.Windows | InD.py:240-245 | A track of length L yields max(0, L-w+1) windows, each of exactly w rows. |
| Windowing.CollectWindows | InD.py:240-245 | The appending loop produces exactly the windows, in order. |
| Windowing.WindowRows | InD.py:241-242 | Row k of window j is row j+k of the track. |
| Windowing.WindowsOverlap | InD.py:241-242 | Consecutive windows share all but one row. |
| Windowing.WindowsCover | InD.py:241-245 | In a track at least one window long, every row lies in some window. |
| Windowing.TrackWindows | InD.py:238-245 | A track passes the lifetime check only if it has rows. Its windows are then the 200-frame windows of its rows. |
| Windowing.AllWindows | InD.py:237-245 | Every collected window has exactly 200 rows, which is the loop's assert. |
| Windowing.AllWindowsFromTracks | InD.py:237-245 | Every collected window is 200 consecutive rows of one kept track. |
| Windowing.AllWindowsCount | InD.py:235-247 | The number of windows is the sum over kept tracks of max(0, L-199). |
| Windowing.SelectColumns | InD.py:249-250 | The positions are columns 4 and 5 and the features are columns 6, 9, 10, 11 and 12 of every row. Selection fails exactly when a row is too short. |
| Windowing.Parse | InD.py:226-250 | A successful parse has at least one window (numpy cannot concatenate nothing) and as many feature windows as position windows. |
| Windowing.ParseShape | InD.py:235-250 | A successful parse gives (N, 200, 2) positions and (N, 200, 5) features. |
| Split.TrainCount | InD.py:198 | With the product n·ratio taken exactly (a float product can round below an integer, so Python's `int()` may give one less), `n_train` is floor(n·ratio) for a non-negative ratio, lies in [0, n] for a ratio in [0, 1], and is at most 0 for a negative ratio. |
| Split.Trunc | InD.py:198 | Python's `int()` truncates toward zero, for positive and negative arguments. |
| Split.SliceBound | InD.py:201-202 | numpy slice bounds: a negative bound counts from the end, and bounds are clamped to [0, n]. |
| Split.TrainTestSplit | InD.py:196-202 | The two parts together are as long as the permutation. |
| Split.SplitIsPartition | InD.py:196-202 | For every ratio, even outside [0, 1], train followed by test is the permutation itself. |
| Split.SplitSizes | InD.py:198-202 | For a ratio in [0, 1] the training part holds floor(n·ratio) entries, the first ones, and the test part holds the rest. |
| Split.SplitDisjoint | InD.py:201-202 | No index of a permutation is in both parts. |
| Split.SplitCover | InD.py:201-202 | Every index 0..n-1 is in one of the parts. |
| Split.SplitDisjointCover | InD.py:196-202 | The parts are disjoint, their union is 0..n-1 and their sizes sum to n. |
| Split.PartsNonEmpty | InD.py:198-202 | For a ratio in [0, 1], both parts have entries exactly when 0 < `n_train` < n. |
| Split.WholeRatioEmptiesTest | InD.py:198-202 | A ratio of 1 or more leaves the test part empty. |
| Split.SplitNamesOnce | InD.py:196-202 | Each index 0..n-1 is in exactly one part, and neither part repeats an index. |
| Split.SplitInRange | InD.py:201-208 | Both parts index the data. |
| Split.Gather | InD.py:204-208 | `data[idx]` takes, at position k, row idx[k]. |
| Split.GatherSplit | InD.py:204-208 | The training rows followed by the test rows are the data reordered by the permutation. |
| Masking.NaNStep | InD.py:260-261 | A masked time step is NaN in every channel. |
| Masking.FromReals | InD.py:204-208 | Each number becomes a numeric cell in the same position. |
| Masking.Insert | InD.py:259 | Insertion adds exactly one entry (a permutation of the old entries plus x). |
| Masking.InsertSorted | InD.py:259 | Inserting into an ascending sequence keeps it ascending. |
| Masking.InsertDistinct | InD.py:259 | Inserting a new value keeps the entries distinct. |
| Masking.SortAscending | InD.py:259 | `.sort()` returns a permutation of its input. |
| Masking.SortAscendingSorted | InD.py:259 | The sorted output is ascending, and has no repeats when the input has none. |
| Masking.MaskIndices | InD.py:259 | The mask is `randperm(100)[:int(100·rate)]`, with numpy slice bounds, sorted ascending: it holds the same entries with the same multiplicities. |
| Masking.MaskIndicesShape | InD.py:256-259 | For a rate in [0, 1], with 100·rate taken exactly (in floats `int(100*0.29)` is 28, not 29), each mask holds exactly floor(100·rate) distinct steps in [0, 100), strictly ascending. |
| Masking.MaskIndicesBounded | InD.py:256-259 | For any rate, each mask has at most 100 steps, all in [0, 100). |
| Masking.MaskSample | InD.py:260 | Masking keeps the number of steps and each step's width. |
| Masking.MaskSampleMasks | InD.py:260-261 | Masked steps become NaN and every other step is unchanged. |
| Masking.MaskSampleIdempotent | InD.py:260-261 | Masking twice with the same indices is masking once. |
| Masking.MaskAll | InD.py:255-261 | `_mask` succeeds exactly when every mask fits its sample. Sample i of both positions and features is then masked at the indices drawn for i, with nothing else changed. |
| Masking.SameStepsMasked | InD.py:260-261 | Each time step is NaN in both positions and features, or unchanged in both. |
| Masking.MaskAllOnWindows | InD.py:255-261 | On samples of at least 100 steps, masking never fails. |
| Masking.MaskedPrefixStep | InD.py:258-261 | One more loop iteration extends the masked prefix by one sample. |
| Masking.MaskedPrefixComplete | InD.py:258-261 | After the last iteration, the masked prefix is the masked batch. |
| Masking.MaskLoop | InD.py:258-261 | The sample-by-sample loop computes what `MaskAll` specifies, including its failure. |
| InD.NewDataset | InD.py:14-18 | Construction fails exactly when the leading sizes differ. Otherwise it keeps both arrays and its length is the input's size. |
| InD.GetItem | InD.py:20-21 | Indexing returns `(input[i], feature[i])`. Indices -n..-1 count from the end, and any other index is an error. |
| InD.Items | InD.py:20-24 | Iteration yields `__len__` items. |
| InD.NegativeIndexAlias | InD.py:20-21 | Index i-n and index i give the same item. |
| InD.ItemsUnzip | InD.py:14-24 | Unzipping the items gives back the two arrays the dataset was built from. |
| InD.NormalizeAll | InD.py:193-194 | Each normalised window is `normalize` of the parsed window. |
| InD.NormalizeAllSucceeds | InD.py:193-194 | Normalising never fails when every point has one value per boundary. |
| InD.MaskDraws | InD.py:258-259 | Sample i's mask comes from the i-th draw. |
| InD.BuildPart | InD.py:204-214 | Sample k of the built dataset is window idx[k] of the positions and of the features, NaN at exactly the steps of the k-th mask draw and unchanged elsewhere. |
| InD.ShuffledLoader | InD.py:216-217 | `DataLoader(..., shuffle=True)` raises exactly when the dataset is empty, because its random sampler rejects zero samples. Otherwise it serves that dataset. |
| InD.SplitSite | InD.py:196-219 | The site carries the spatial boundaries. Training sample k is the window the permutation's k-th entry names, and test sample k the one its (n_train+k)-th entry names. Both are masked at the steps of the k-th draw of one shared mask stream, so test sample k and training sample k are masked at the same steps. Neither dataset of a returned site is empty, because each is wrapped in a shuffling loader. |
| InD.NormalizedParse | InD.py:184-194 | The loader's windows are the parsed windows normalised with the spatial and feature boundaries. |
| InD.LoadSite | InD.py:184-219 | The loaded site carries the spatial boundaries. Its datasets hold the normalised parsed windows the split names, masked as in `SplitSite`. |
| InD.GatherShape | InD.py:204-208 | Gathered windows keep their length. |
| InD.BuildPartSucceeds | InD.py:204-214 | A half built from 200-step windows always passes the mask and the dataset check. |
| InD.SplitSiteSucceeds | InD.py:196-219 | Splitting 200-step windows succeeds exactly when neither part of the split is empty. On success the dataset sizes sum to the number of windows, and each window index is named once, by exactly one part. |
| InD.NormalizeParsed | InD.py:190-194 | Parsed windows normalise without error and keep their 200 steps. |
| InD.LoadSiteSucceeds | InD.py:184-219 | Loading succeeds exactly when parsing succeeds and the split leaves neither part empty. On success each parsed window index is named by exactly one position of exactly one part. By `LoadSite`'s contract, every window therefore lands, masked, in exactly one dataset. |
| InD.GetObservationSite | InD.py:179-182 | A stored site is returned without loading. Otherwise the result is the load's. A successful load is stored under its key. A load that raises propagates its error and leaves the cache as it was. Other entries are always kept. |
| InD.SecondAccessIsCached | InD.py:179-182 | After a successful access, a second access returns the same site and leaves the cache unchanged, whatever a fresh load would give. |
| InD.FailedLoadIsRetried | InD.py:179-182 | After a load that raised, the next access loads again. |
| InD.DegenerateRatioNeverLoads | InD.py:196-217 | A training ratio of 0, or of 1 or more, never yields a site, because one part is always empty and its loader raises. |
| InD.UnparsableSiteNotCached | InD.py:179-182 | A site whose tables yield no window, or fail the lifetime check, raises on access (`np.concatenate` of nothing, or the assert) and is not stored. |
| InD.OtherSitesUnchanged | InD.py:179-182 | Accessing one site never adds, removes or changes another site's entry. |
| InD.SiteKey | InD.py:51-177 | The keys of sites 1..32 are two-digit strings "01".."32". |
| InD.SiteKeyRoundTrip | InD.py:51-177 | Reading a site key back gives the site number. |
| InD.SiteKeysDistinct | InD.py:51-177 | Different site properties use different cache keys. |

## Left out

- The adaptive ODE solve (`odeint_adjoint` with dopri5) is not modelled. `Flow.CnfForward` takes the integrator as a function that returns one state per time. Round-trip properties assume an exact integrator (`Flow.Reversible`).
- The neural layers (`MLP`, `CDE`, `ConditionalODE`, the GRU encoder) and the autograd Jacobian trace are not modelled. They are learned and transcendental; only the condition's type appears, as a type parameter.
- The base `MultivariateNormal` sampling and log-density are not modelled. `Flow.LogProb` takes the per-point log-density as a function.
- The CSV/pandas reading, file paths, the background image, `orthoPxToMeter`, `print` and the `DataLoader` batching and shuffle order are not modelled. They are I/O and plumbing. The tables arrive as sequences of records. The loader's rejection of an empty dataset is modelled (`InD.ShuffledLoader`).
- Random draws (`np.random.permutation`, `torch.randperm`) are parameters. Their promise (each is a permutation) is a precondition.
- `_mask` starts a fresh, unseeded `torch.Generator` on each call, and a fresh generator always starts from the same default seed. The model therefore has one mask stream (`InD.Draws.mask`), shared by the training and the test call. Its values are a parameter; the model does not pin down which fixed sequence PyTorch's default seed produces.
- Flow.ForwardCarriesChange: it assumes the integrator carries the log-density change additively (`Flow.CarriesChange`). That is exact for the flow's ODE. dopri5's step-size control also measures the change, so numerically the points agree only up to the solver tolerance.
- `InDObservationSite.normalize`/`denormalize` (InD.py:35-39) are `normalize`/`denormalize` with the spatial boundaries, which `Normalization` covers.
- Spline.Coefficients: floats become exact reals, and the inf/NaN the Python code produces from a repeated time or a zero pivot becomes the `Degenerate` error.
- Tridiagonal.Solve: a zero pivot, which the Python code divides by, is the `None` outcome instead of inf/NaN.
- Masking.MaskAll: `torch.FloatTensor`'s rounding to 32-bit floats is not modelled. The error carries no index.
- Windowing.Parse: a row's track id and lifetime are separate fields next to the full numeric row. `tracks.apply(...)` followed by selection on the id is modelled as one filter of the whole table by id. This is the same for every kept id.
- Masking.MaskIndicesShape: the exact count floor(100·rate) is stated for rates in [0, 1]. For other rates `Masking.MaskIndicesBounded` gives only the bounds, since a negative rate slices from the end.
- Flow.SampleThenForward: it holds only for an exact integrator. dopri5 with tolerance 1e-5 gives the identity only approximately.
- Normalization.NormalizePoint: when a point has one value, or there is one boundary row, numpy broadcasts it across the other size. The model reports this as `WidthMismatch`. The loader always passes matching widths (InD.py:190-194).
- Normalization.DenormalizePoint: the same size-1 broadcast is reported as `WidthMismatch`.
- The mask draws from 100 steps although windows hold 200 steps, as the code hard-codes. Only the first half of a window can be masked.
