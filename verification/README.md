# Dark-matter selection optimisation: counting and cut optimisation

This project models the event-selection core of a boosted-dark-matter
sensitivity study for a 10 kt liquid-argon detector module. Three
selection scripts scan a grid of cuts on simulated signal and
atmospheric-neutrino background events. For every analysis variable and
every cut, a scan counts the fiducial events that pass, and the pass
rate is that count over the number of fiducial events. An optimiser then
picks, per variable, the cut that minimises the figure of merit

    Sprime = 25 / (2 eff) + sqrt(25 B / eff^2 + 625 / (4 eff^2))

where `eff` is the signal pass rate and `B` is the background count scaled
to a 40 kt-year exposure (`* 40 / 28.705`, optionally times a user factor
`bgScale`). The scripts differ in how an event passes a cut:

- one-sided (`optSelection1D.py`): `cos theta >= c` with non-zero momentum;
- linear (`optSelection1DLinear.py`): `p (1 - c) <= ph (cos theta - c)`,
  where the slope parameter `ph` is looked up per boost `gamma`. The
  background is rescanned for each gamma and stored under `atmos_<gamma>`;
- two-dimensional (`optSelection2D.py`): a cos theta band `[low, high]`
  split at a momentum edge `pBin`. The small-momentum side of one band is
  added to the large-momentum side of another.

The angular-distribution script (`plotAngularDist.py`) counts the events
with cos theta strictly above 0.6 and writes an efficiency report. The
report divides the background numbers by 14.239.

Modules:

- `Results` holds the `Result`/`Option` types and the abort reasons: a
  missing leaf, a missing key, an unguarded division by zero, or
  `math.sqrt` of a negative number.
- `Counting` holds the generic count over a sequence and its lemmas.
- `Events` holds the event record, fiducial counting, leaf lookup, rates
  and the per-sample table `Selection`.
- `Grid` models `numpy.linspace` over exact reals.
- `CutScan` is the event loop shared by the one-sided and linear scripts.
  Its pass rule is a parameter.
- `Optimizer` is `optimizeSelection`, the first-minimum scan and the
  algebra of Sprime.
- `OneSided`, `Linear` and `TwoDim` are the three selection scripts.
- `AngularDist` covers the angular count and its report.

Events carry cos theta directly. The square root is a function
parameter: lemmas that need it to be the square root assume `IsSqrt`.
Python 2 dictionary iteration order is an explicit key sequence `keys`
that lists every cut of the signal table once.

The square root argument of Sprime, 25 B / eff^2 + 625 / (4 eff^2), is
positive whenever the background is non-negative. A negative `bgScale`
(the `-m` option accepts any float) can make it negative; `math.sqrt`
then raises, and the model aborts with `DomainError`.

## Model

| member | source | states |
|---|---|---|
| Events.FiducialCount | optSelection1D.py:43-45 | The fiducial counter counts the events whose flag is non-zero and never exceeds the number of entries. |
| Events.MissingVar | optSelection1D.py:47-50 | Gives the first variable, in order, whose leaf the event lacks: the result is one of the variables, the event lacks it, and the event has the leaf of every variable before it. It gives nothing exactly when every leaf is present. |
| Events.FirstMissing | optSelection1D.py:43-50 | Gives the leaf the loop trips over first, considering only the events it reads. It gives nothing exactly when every such event has every leaf. Otherwise it is the first missing variable (`MissingVar`) of some read event, and every read event before that one has all its leaves. |
| Events.FirstMissingConcat | optSelection1D.py:43-50 | Reading a concatenation fails at the first missing leaf of the prefix if there is one, and otherwise at the first missing leaf of the suffix. |
| Events.Rate | optSelection1D.py:57-59 | A rate is its count over the total: rate times total equals the count, and a count no larger than the total gives a rate in [0, 1]. |
| Events.RateMonotone | optSelection1D.py:57-59 | Over the same total, a larger count never gives a smaller rate. |
| Grid.Linspace | optSelection1D.py:34 | The grid has n points, starts at lo and ends at hi, with equal steps of (hi - lo) / (n - 1). It is strictly monotone, so its points are distinct when lo != hi. |
| Grid.EvenlySpaced | optSelection1D.py:34 | Points lo + i * step with step (hi - lo) / (n - 1) start at lo, end at hi, are evenly spaced and strictly ordered in the direction of the step. |
| CutScan.PassCount | optSelection1D.py:53-55 | No pass count exceeds the fiducial count. |
| CutScan.NonFiducialSkipped | optSelection1D.py:43-45 | An event with flag 0 adds to neither the fiducial count nor any pass count. |
| CutScan.OnlyFiducialMatter | optSelection1D.py:43-45 | Dropping the non-fiducial events beforehand changes neither the pass counts nor the fiducial count. |
| CutScan.AddToRow | optSelection1D.py:53-55 | One leaf raises the counter of every cut it passes by one and leaves the other counters unchanged. |
| CutScan.AddEvent | optSelection1D.py:47-55 | A fiducial event raises, for every variable, the counters of the cuts that variable's leaf passes and no others. |
| CutScan.EventStep | optSelection1D.py:43-50 | One turn of the loop on a prefix with every leaf adds one to the fiducial count when the event's flag is non-zero. When the event is fiducial and lacks a leaf, that missing variable is the sample's first missing leaf; otherwise the extended prefix still has every leaf. |
| CutScan.SkipKeepsCounts | optSelection1D.py:43-44 | Counters that hold the reference counts of a prefix still hold them after a non-fiducial event is appended. |
| CutScan.AddKeepsCounts | optSelection1D.py:47-55 | A fiducial event with every leaf, added by `AddEvent`, turns the reference counts of a prefix into those of the prefix extended by that event. |
| CutScan.CountEvents | optSelection1D.py:43-55 | The event loop fails at the first missing leaf of a fiducial event, with that variable's name. Otherwise its fiducial count and every counter equal the reference counts. |
| CutScan.TablesWellFormed | optSelection1D.py:57-59 | The tables built from the counters have exactly the variables and cuts of the scan, hold the reference counts, and hold each rate as its count over the fiducial count. |
| CutScan.SelectEvents | optSelection1D.py:27-62 | The scan fails exactly on a missing leaf of a fiducial event, or on a zero fiducial count when some entry needs a rate. Otherwise it returns the entry count, the fiducial count, and well-formed tables of the reference counts. |
| OneSided.EventCounts | optSelection1D.py:53-55 | An event adds one to the count of (v, c) exactly when it is fiducial, has the leaf, has non-zero momentum and has cos theta >= c. |
| OneSided.CutMonotone | optSelection1D.py:54 | A higher cut never passes more events. |
| OneSided.TableMonotone | optSelection1D.py:53-59 | In a table filled by the one-sided scan, a higher cut has a count and a rate no larger than a lower cut's. |
| OneSided.SelectionMonotone | optSelection1D.py:53-59 | In a well-formed table of one-sided counts, for every variable a higher cut has a count and a rate no larger than a lower cut's. |
| OneSided.SelectEvents1D | optSelection1D.py:27-62 | Same as `CutScan.SelectEvents` on `linspace(costhl, costhh, ncosth)` with the one-sided rule. In addition, counts and rates are non-increasing in the cut. |
| OneSided.Optimize1D | optSelection1D.py:65-90 | Every recorded cut is a key that both samples have. Its record holds the signal rate, the raw background count times bgScale * 40 / 28.705, and the square root of the raw count times the same factor. |
| OneSided.Recorded1D | optSelection1D.py:72-88 | The record kept for a variable is the record of its cut, scaled by bgScale * 40 / 28.705. |
| OneSided.Step1D | optSelection1D.py:139-153 | A skipped (mass, gamma) point gives nothing. Otherwise the step aborts exactly when the signal scan aborts (a missing leaf, or no fiducial event with some variable) or some cut of some variable is missing from the background, passed by no signal event, or gives a negative square root argument; a missing leaf aborts with `MissingField`. A success holds the one-sided table of the signal, in key order, and the optimiser's result against the background table. |
| Optimizer.ExposureScale | optSelection1D.py:72 | The factor times 28.705 equals bgScale times 40, so bgScale 1 gives exactly 40 / 28.705. |
| Optimizer.ScanFrom | optSelection1D.py:78-85 | From any state the loop can reach, the strict-less-than scan ends on a first minimum below the sentinel. It keeps nothing exactly when no cost is below 10000. |
| Optimizer.FirstMin | optSelection1D.py:78-85 | Starting from the 10000 sentinel, the scan keeps a position whose cost is below the sentinel, no larger than any cost, and strictly smaller than every earlier cost. It keeps nothing exactly when every cost is at least 10000. |
| Optimizer.FirstMinUnique | optSelection1D.py:83-85 | At most one position satisfies the first-minimum property, so the costs and their order determine the kept cut. |
| Optimizer.UsableAt | optSelection1D.py:80-82 | For a rate that is its count over a non-zero fiducial count, a key is usable in the rate table exactly when `CutUsable` holds for the count: the background has the cut, the count is non-zero and the square root argument is non-negative. |
| Optimizer.FirstAbort | optSelection1D.py:79-82 | The loop aborts exactly when some key has no background entry, a zero signal rate, or a negative square root argument in Sprime. The error comes from the first such key, every earlier key being usable, and is checked in the source's order: a missing key, then a division by zero, then a math domain error. |
| Optimizer.OptimizeVar | optSelection1D.py:77-88 | One variable's optimisation fails exactly when some key is unusable: no background entry, a zero rate, or a negative square root argument. It records nothing exactly when every Sprime is at least 10000. Otherwise its record is that of the first-minimum key. |
| Optimizer.WellFormedKeyOrder | optSelection1D.py:36-41 | For a table filled on a set of cuts, any duplicate-free listing of exactly those cuts is a key order: every rate table has exactly the listed keys. |
| Optimizer.KeyOrderCovers | optSelection1D.py:79-80 | Every key of a key order is a key of every rate table, so the rate lookup of the loop never fails. |
| Optimizer.OptimizeSelection | optSelection1D.py:65-90 | The optimiser fails exactly when some variable's lookup or scan fails. Otherwise it has an entry for exactly the variables whose scan recorded a cut, and that entry is the scan's record. |
| Optimizer.VarBest | optSelection1D.py:81-88 | A recorded cut is one of the keys and has a background entry. Its record holds the signal rate, the scaled raw count and the scaled square root of the raw count. |
| Optimizer.VarBestOptimal | optSelection1D.py:78-85 | The recorded cut's Sprime is below 10000 and at most every key's Sprime, and every key scanned before it has a strictly larger Sprime. |
| Optimizer.RecordedBest | optSelection1D.py:77-90 | A variable with an entry is one of the variables and appears in both samples. Its entry is the one-variable optimiser's record for that variable's tables. |
| Optimizer.VarBestOverTable | optSelection1D.py:77-88 | When `keys` lists exactly the cuts of the rate table, a recorded cut is usable, every cut of the table is usable, and the recorded cut's Sprime is at most every cut's. |
| Optimizer.VarAbortsOverTable | optSelection1D.py:79-82 | When `keys` lists exactly the cuts of the rate table, one variable's optimisation aborts exactly when some cut of the table is unusable, in whatever order the keys come. |
| Optimizer.SelectionAborts | optSelection1D.py:77-82 | For a well-formed signal table in key order, the optimiser aborts exactly when some variable has a cut the background lacks, a cut no signal event passes, or a cut whose square root argument is negative. |
| Optimizer.VarAborts | optSelection1D.py:79-82 | The same for one variable of a well-formed signal table: its run aborts exactly when one of its cuts fails `CutUsable`. |
| Optimizer.SqrtUnique | optSelection1D.py:82 | The non-negative square root of a number is unique. |
| Optimizer.SqrtMonotone | optSelection1D.py:82 | The square root is monotone. |
| Optimizer.SprimeClosedForm | optSelection1D.py:82 | For a positive efficiency and a non-negative background, Sprime equals (25 + 5 sqrt(4 B + 25)) / (2 eff). |
| Optimizer.SprimeDominance | optSelection1D.py:82-83 | A cut with at least the efficiency and at most the background never has a larger Sprime. |
| Optimizer.SprimeLowerBound | optSelection1D.py:78-83 | Sprime is at least 25 / eff, so a cut with efficiency below 0.0025 never beats the sentinel. |
| Optimizer.SqrtArgumentPositive | optSelection1D.py:82 | For a positive efficiency and a non-negative background, the argument of `math.sqrt` in Sprime is positive. |
| Optimizer.NonNegativeScaleUsable | optSelection1D.py:72-82 | With a non-negative scale and a non-negative rate, a key is usable exactly when the background has it and the rate is non-zero: the square root never aborts. |
| Optimizer.NegativeScaleAborts | optSelection1D.py:72-82 | A single cut with rate 1 and 7 background events, scaled by -1, aborts with the math domain error. |
| Linear.EventCountsLinear | optSelection1DLinear.py:53-57 | An event adds one to the count of (v, c) exactly when it is fiducial, has the leaf, has non-zero momentum and satisfies p (1 - c) <= ph (cos theta - c). |
| Linear.LinearAboveCut | optSelection1DLinear.py:56 | With p > 0, ph > 0 and c < 1, a passing event has cos theta strictly above c. |
| Linear.LinearSlopeMonotone | optSelection1DLinear.py:56 | Under the same conditions, an event that passes with a slope parameter passes with every larger one. |
| Linear.LinearWithinOneSided | optSelection1DLinear.py:56-57 | With non-negative momenta, ph > 0 and c < 1, the linear count is at most the strict one-sided count, which is at most the one-sided script's count at the same cut. |
| Linear.SlopeMonotoneCount | optSelection1DLinear.py:56-57 | With non-negative momenta and c < 1, a larger positive slope parameter never gives a smaller count. |
| Linear.PhTableCovers | optSelection1DLinear.py:124 | Every gamma of the main loop has a positive slope parameter, and a larger gamma has a larger one. |
| Linear.GammaLoopMonotone | optSelection1DLinear.py:144-147 | Along the order in which the main loop visits the gammas, with non-negative momenta and a cut below 1, the count of a variable at a cut never decreases, because the slope parameter grows. |
| Linear.SelectEventsLinear | optSelection1DLinear.py:27-65 | Same failure conditions and tables as the shared scan with the linear rule. With ph > 0 and non-negative momenta, no entry below cut 1 exceeds the one-sided count. |
| Linear.ScanLinear | optSelection1DLinear.py:147 | On the script's grid, a scan fails exactly on a missing leaf, or on no fiducial event when there are variables; a missing leaf fails with `MissingField`. A success is the linear table of the events: entry and fiducial counts, well-formed tables and the reference counts. |
| Linear.SignalStep | optSelection1DLinear.py:156-161 | Scans the signal with `ph` and optimises against the given table `bkg` with factor bgScale * 40 / 28.705. It aborts exactly when the scan aborts or some cut of some variable is missing from `bkg`, passed by no signal event, or gives a negative square root argument. A success is the linear table of the signal, in key order, and the optimiser's result. |
| Linear.SignalIntoStore | optSelection1DLinear.py:156-161 | Against a background table that is the linear scan of the background with the same `ph`, the signal half aborts exactly when `SignalAborts` holds. A success stores the signal table under its key and changes no other entry. |
| Linear.BackgroundHasCuts | optSelection1DLinear.py:147-161 | A background table of the linear scan has every cut, so against it a cut fails `CutUsable` exactly when no signal event passes it or the scaled background count of that scan makes the square root argument negative. |
| Linear.BackgroundCut | optSelection1DLinear.py:84-86 | At one cut, a background entry holding the reference count is unusable exactly when no signal event passes the cut or the scaled count makes the square root argument negative. |
| Linear.LinearStep | optSelection1DLinear.py:143-161 | An unknown gamma aborts with a missing key. Otherwise the step aborts exactly when the background scan aborts, or the point is not skipped and the signal half aborts against the background (a signal scan abort, a cut no signal event passes, or a negative square root argument). A success stores the background table scanned with ph[gamma] under atmos_<gamma>. A point is skipped exactly when no optimisation is recorded, and then no other entry changes. Otherwise the signal table, scanned with the same ph, is stored under its key, is in key order, and is optimised against the table stored under atmos_<gamma>; no other entry changes. |
| TwoDim.BandsFrom | optSelection2D.py:48-53 | The bands from one lower edge are exactly the upper edges strictly above it. |
| TwoDim.Bands | optSelection2D.py:48-53 | A band is created exactly for a lower and an upper edge of the grids with high > low; no band with high <= low appears. |
| TwoDim.BandsDistinct | optSelection2D.py:48-53 | Distinct edges give distinct bands. |
| TwoDim.EventCounts2D | optSelection2D.py:55-76 | An event adds one to the small side of (v, pBin, band) exactly when it is fiducial, has the leaf, has non-zero momentum below pBin and has low <= cos theta <= high. It adds one to the large side exactly when the same holds with momentum at or above pBin. |
| TwoDim.SidesPartitionBand | optSelection2D.py:70-76 | Every counted event of a band goes to exactly one side: small plus large equals the band count for any pBin. |
| TwoDim.CombinedBound | optSelection2D.py:78-83 | The small side of one band plus the large side of another is at most the fiducial count. |
| TwoDim.CombinedDiagonal | optSelection2D.py:73-83 | With the same band on both sides, the combined count is the band count, whatever pBin is. |
| TwoDim.BandWiden | optSelection2D.py:69 | Widening a band never lowers either side's count. |
| TwoDim.BinEdgeMonotone | optSelection2D.py:73-76 | Raising pBin never lowers the small-side count and never raises the large-side count. |
| TwoDim.CombinedRow | optSelection2D.py:78-83 | A variable's combined table has exactly the given cut keys. Each entry is at most the fiducial count, and an entry whose two sides use the same band equals that band's count. |
| TwoDim.SelectEvents2D | optSelection2D.py:27-91 | The scan fails exactly on a missing leaf of a fiducial event, or on a zero fiducial count with some entry. Otherwise it returns well-formed tables whose entries are the combined counts. |
| TwoDim.Tables2DWellFormed | optSelection2D.py:78-88 | The combined tables have exactly the variables and cuts of the scan, hold the combined counts, and hold each rate as its count over the fiducial count. |
| TwoDim.SelectEventsGrid | optSelection2D.py:36-53 | On the linspace grids, the failure conditions are those of `SelectEvents2D`. Every cut has two proper bands and a bin edge from the momentum grid. |
| TwoDim.ScriptSelection | optSelection2D.py:181 | The scan on the script's grids fails exactly on a missing leaf, or on no fiducial event when there are variables. A success has the entry and fiducial counts, well-formed tables over the script's cuts, and the combined counts. |
| TwoDim.ScriptCutsNonEmpty | optSelection2D.py:141-147 | The script's grids give at least one cut: bin edge 0.1 with the band from 0.2 to 1 on both sides. |
| TwoDim.SignalCountsInKeyOrder | optSelection2D.py:181 | The script's signal table holds, at every cut listed in `keys`, the combined count of that cut. |
| TwoDim.Optimize2D | optSelection2D.py:94-119 | A recorded cut is a key both samples have. Its record is that of the cut: the signal rate, the raw background count times exactly 40 / 28.705, and the square root of the raw count times the same factor. |
| TwoDim.Step2D | optSelection2D.py:169-183 | A skipped point gives nothing. Otherwise the step aborts exactly when the signal scan aborts or some cut of some variable is missing from the background, has a zero combined signal count, or gives a negative square root argument; a missing leaf aborts with `MissingField`. A success holds the script-grid scan, in key order, and the 2-D optimiser's result against the background table. |
| AngularDist.SelectAngular | plotAngularDist.py:66-112 | The scan fails on a missing leaf of any event, or on an empty sample when there are variables. Otherwise every count starts from zero and is the forward count, at most the number of entries, and every rate is that count over the entries, in [0, 1]. |
| AngularDist.AngularEventCounts | plotAngularDist.py:98-106 | An event adds one exactly when it has the leaf, its cos theta is strictly above 0.6, and it is a signal event or has flag 1. |
| AngularDist.AtCutNotCounted | plotAngularDist.py:102 | An event with cos theta exactly 0.6 is not counted. |
| AngularDist.SignalIgnoresFlag | plotAngularDist.py:103-104 | Samples that differ only in their fiducial flags have the same signal counts. |
| AngularDist.BackgroundBounds | plotAngularDist.py:105-106 | The background count is at most the number of events flagged 1, and at most the count the same events would give as signal. |
| AngularDist.MakeReport | plotAngularDist.py:231-241 | The background's total and pass counts times 14.239 are the raw numbers. Signal numbers and all rates are written unchanged, one line per variable in order. |
| AngularDist.ReportConsistent | plotAngularDist.py:231-241 | When every rate is its count over a non-zero entry count, every report line's pass count is its rate times the written total, background included. |
| AngularDist.LineConsistent | plotAngularDist.py:231-241 | The same for one line of the report. |

## Left out

- Reading ROOT files, `TChain` and the `eval`-based leaf access are not modelled. Events are an in-memory sequence, and a missing leaf is the `MissingField` failure.
- Histogram booking, filling, scaling and drawing are left out as plotting. In `plotAngularDist.py`, the leaves read only for histograms (`InDMP`, `InNuAngle`, ...) are not modelled as abort sources.
- Argument parsing, directory creation and the text formatting of reports are left out as I/O. The report loops of the selection scripts also look up every variable's record. That lookup aborts when a variable recorded no cut, and the model returns the partial map instead.
- The `Eround` logic and sample-key and file-name strings are not modelled, because they depend on floating-point products and Python 2 `str`. A sample is identified by `SampleKey`.
- IEEE floating point is replaced by exact reals. `cos`, `sqrt` and `numpy.linspace` rounding are not modelled: cos theta is an input and `sqrt` is a parameter.
- The 2-D cut keys are `%0.2f`/`%f` strings in the source. They are datatypes here, so two cuts whose strings would collide are not merged.
- The module-global `bestBkgErr` dictionary is reused and aliased across calls. The model returns a fresh record per call.
- The main loops over all (mass, gamma) points are modelled one step at a time (`Step1D`, `LinearStep`, `Step2D`). Python 2 dictionary order is not computed: the order of each table's keys is the parameter `keys`, one listing of every cut, shared by all variables.
- CutScan.SelectEvents requires distinct variables and cuts. With a repeated name the source would count the same entry twice, which the model does not cover.
- OneSided.SelectEvents1D, Linear.SelectEventsLinear, TwoDim.SelectEvents2D and TwoDim.SelectEventsGrid require distinct variables and grids with distinct points, for the same reason.
- AngularDist.SelectAngular requires distinct variables, for the same reason.
- OneSided.Optimize1D states the recorded background through `BestAt` (the raw count times the factor, and its square root times the factor) rather than as separate field equations.
