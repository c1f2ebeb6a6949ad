# Histogram and free-energy scripts, modelled in Dafny

The repository ships two command-line scripts.

- `Histogram.py` bins one column of samples, optionally weighted, with `numpy.histogram`. It prints each bin centre with its value.
  - With `--alldata`, the mass of samples outside `[minbin, maxbin]` is folded back into the histogram. The inside bins are rescaled by `1 - (leftsum + rightsum)`. One synthetic bin is added one bin width beyond each side that has outside mass.
  - With `--freeE`, each bin also carries its free energy `-log(h) * unitfactor`, shifted so that the smallest one is 0. An empty bin has infinite energy.
- `2DHistogram.py` does the same for pairs of columns with `numpy.histogram2d`, without the boundary correction. It prints one line per (x, y) bin, x outer and y inner, with a blank line after each x block.

This project models the logic of the scripts themselves, after numpy has produced the histogram values and bin edges:
- the centre loops;
- the boundary-mass correction;
- the unit dispatch;
- the free-energy list and grid with their running minimum `base`;
- the assembly of the optional range;
- the printed rows.

Numbers are exact `real`s. Python's floats with `inf` are `Extended.Ext` (`Fin(v)` or `PosInf`), so `1.0e1000` is `PosInf`. The printed `fe - base` is `Extended.Printed`, which also holds the `nan` of `inf - inf`. `math.log` is a parameter `ln: real -> real` about which nothing is assumed. Each way the scripts can stop with a Python exception or `exit` is modelled as an `Err` of `Common.Failure`:
- only one bound of the range given (`IncompleteRange`);
- a range whose minimum exceeds its maximum, which numpy rejects with a `ValueError` (`InvertedRange`);
- a zero total weight while the sums are still Python floats, where `leftsum /= wsum` raises (`ZeroTotalWeight`). This covers a run without a weight file, and a run with one but no samples, where no weight is ever added;
- a single bin when outside mass exists, where `bin_mid[1]` fails (`SingleBin`);
- a zero bin width in a run without a weight file (`ZeroBinWidth`);
- an undefined unit (`UndefinedUnit`).

With a weight file and at least one sample, the sums hold numpy floats once the first weight is added. Dividing numpy floats by zero does not raise: it gives `nan` or `inf`, and the script goes on. Where that leaves an infinite value in the histogram, the model stops with `NonFiniteValues` instead of continuing. When such a total weight is zero, `moresum > 0.0` holds only if both outside masses are positive, which makes both fractions `+inf`. Otherwise `moresum` is `nan` or `-inf`, the test fails and the histogram is kept unchanged, as in the script.

Modules:
- `Common`: `Option`, `Result` and the failures.
- `Extended`: the float-with-infinity order, the running minimum `MinOf` and the shifted value `Shift`.
- `Grid`: rectangular grids and their row-major `Flatten`.
- `Midpoints`: the centre loops.
- `Units`: the unit dispatch.
- `FreeEnergy`: the 1-D list, the 2-D grid and their relation.
- `Boundary`: the `--alldata` correction.
- `Histogram1D` and `Histogram2D`: the two scripts end to end.

## Model

| member | source | states |
|---|---|---|
| Extended.MinStep | Histogram.py:116-117 | one step of `if tmpfe < base: base = tmpfe` yields a value at most both the old base and the new entry, and it is one of the two |
| Extended.MinOf | Histogram.py:109-118 | the running minimum of `tmpfe` values started at `base = 1.0e1000` is +inf or one of the entries |
| Extended.MinOfIsMinimum | Histogram.py:109-118 | the running minimum started at +inf is at most every entry; it is +inf or equal to some entry; it is +inf exactly when every entry is +inf |
| Extended.MinOfSnoc | Histogram.py:116-118 | appending an entry to the list updates the minimum by one step, which is what the loop does |
| Extended.Shift | Histogram.py:125 | `fe - base` with `base <= fe` is `nan` exactly when base is +inf; otherwise it is +inf exactly when fe is, finite values are never negative, and the minimising entry prints 0 |
| Extended.LessScaled | Histogram.py:116 | the comparison `tmpfe < base` is unchanged when both sides are multiplied by a positive factor |
| Extended.MinOfScaled | Histogram.py:109-118 | scaling every entry by a positive factor scales the running minimum by the same factor |
| Extended.ShiftScaled | Histogram.py:125 | `fe - base` of scaled values is the scaled `fe - base` |
| Grid.FlattenLength | 2DHistogram.py:94-99 | the nested loops over an nx by ny grid emit nx*ny rows |
| Grid.FlattenIndex | 2DHistogram.py:94-99 | entry (i, j) is emitted at position i*ny + j (x outer, y inner) |
| Grid.FlattenSource | 2DHistogram.py:94-99 | every emitted position comes from some entry (i, j) of the grid |
| Midpoints.BinMidpoints | Histogram.py:54-56 | the loop yields `len(edges)-1` entries (none for no edges), entry i being `(edges[i]+edges[i+1])/2`; the list it builds is the comprehension `Centres(edges)`; the x and y loops at 2DHistogram.py lines 55-60 are this loop over `xedges` and `yedges` |
| Midpoints.MidpointsInsideBins | Histogram.py:54-56 | for increasing edges each centre lies strictly inside its bin and the centres increase |
| Midpoints.MidpointsKeepSpacing | Histogram.py:77 | for uniformly spaced edges the centres have the same spacing, so `bin_mid[1] - bin_mid[0]` is the bin width |
| Units.UnitOf | Histogram.py:95-107 | selector 0 gives factor 1.0 ("kBT"), 1 gives `kB*T` ("kcal/mol"), 2 gives `kB*T*4.184` ("kJ/mol"), anything else the undefined-unit error; the 2-D script has the same dispatch at its lines 65-77; a positive temperature gives a positive factor |
| FreeEnergy.BinEnergy | Histogram.py:112-115 | a bin's energy is +inf exactly when its value is 0.0 |
| FreeEnergy.Energies | Histogram.py:110-118 | `freeElsit` has one entry per bin, and entry i is +inf exactly when bin i is 0.0 |
| FreeEnergy.RelativeEnergy | Histogram.py:125 | a printed `freeElsit[i] - base` that is not `nan` is +inf exactly for an empty bin and otherwise never negative; a non-empty bin never prints `nan` |
| FreeEnergy.EnergyList | Histogram.py:109-118 | the loop produces one energy per bin (+inf for an empty bin, `-log(h)*unitfactor` otherwise) and ends with `base` equal to the running minimum of that list |
| FreeEnergy.RelativeEnergyMeaning | Histogram.py:121-126 | each printed `freeElsit[i] - base` is never negative; it is +inf exactly for an empty bin; it is `nan` exactly when every bin is empty; some bin prints 0 when any bin is non-empty |
| FreeEnergy.ConversionScalesOutput | Histogram.py:115 | multiplying the unit factor by c > 0 multiplies every printed energy by c |
| FreeEnergy.KcalScalesKbt | Histogram.py:97-102 | at a positive temperature every printed kcal/mol energy is the printed kBT energy times `kB*T` |
| FreeEnergy.KjScalesKcal | Histogram.py:100-105 | at a positive temperature every printed kJ/mol energy is the printed kcal/mol energy times 4.184 |
| FreeEnergy.EnergyRow | 2DHistogram.py:82-90 | the inner loop builds `tmplist` for one x bin and carries the running minimum over everything seen so far |
| FreeEnergy.EnergyGrid | 2DHistogram.py:79-91 | the nested loop yields a grid of the histogram's shape with each entry's energy; `base` is the minimum over both indices, at most every entry and +inf or attained |
| FreeEnergy.MinOfExtendRow | 2DHistogram.py:83-90 | running the minimum through one more row equals the minimum of the extended row-major list |
| FreeEnergy.GridMinimum | 2DHistogram.py:88-89 | the row-major minimum of a grid is at most every entry and is +inf or equal to some entry |
| FreeEnergy.GridEntryAtLeastMinimum | 2DHistogram.py:88-89 | every grid entry is at least the row-major minimum |
| FreeEnergy.GridMinimumAttained | 2DHistogram.py:88-89 | the row-major minimum is +inf or equals some grid entry |
| FreeEnergy.EnergiesConcat | 2DHistogram.py:84-87 | the per-bin transform distributes over concatenation |
| FreeEnergy.FlattenGridEnergies | 2DHistogram.py:81-91 | the energy grid read in row-major order is the energy list of the row-major histogram |
| FreeEnergy.GridEnergyIsFlatEnergy | 2DHistogram.py:94-98 | the 2-D printed energy of (i, j) is the 1-D printed energy of position i*ny + j of the flattened histogram |
| FreeEnergy.GridEmptyIffFlatEmpty | 2DHistogram.py:84-85 | a grid has only zero bins exactly when its row-major order does |
| FreeEnergy.RelativeGridEnergyMeaning | 2DHistogram.py:97-98 | each printed `freeElsit[i][j] - base` is never negative; it is +inf exactly for an empty bin; it is `nan` exactly when every bin of the grid is empty |
| FreeEnergy.RelativeGridEnergy | 2DHistogram.py:98 | a printed `freeElsit[i][j] - base` that is not `nan` is +inf exactly for an empty bin and otherwise never negative; a non-empty bin never prints `nan` |
| FreeEnergy.GridEnergyPosition | 2DHistogram.py:94-98 | bin (i, j) has a position in the row-major histogram holding its value, and its printed 2-D energy is the printed 1-D energy at that position |
| FreeEnergy.GridEnergyZeroAttained | 2DHistogram.py:88-98 | when some bin of the grid is non-empty, some bin prints exactly 0 |
| FreeEnergy.GridConversionScalesOutput | 2DHistogram.py:87 | multiplying the unit factor by c > 0 multiplies every printed 2-D energy by c |
| Boundary.SideOf | Histogram.py:69-72 | a sample is counted left exactly when `x < minbin`; it is counted right exactly when it is not left and `x > maxbin`, which for an ordered range is exactly `x > maxbin`; it is counted nowhere exactly when `minbin <= x <= maxbin`, both edges included, for every range |
| Boundary.SidesPartitionMass | Histogram.py:63-72 | the left, inside and right masses add up to `wsum`: every sample's weight (1.0 when unweighted) is counted on exactly one side |
| Boundary.MassOnNonNegative | Histogram.py:63-72 | with non-negative weights every side's mass is non-negative |
| Boundary.SampleWeight | Histogram.py:64-67 | a sample weighs 1.0 without a weight file, and its weight is non-negative when all weights are |
| Boundary.OutsideSums | Histogram.py:60-72 | the accumulation loop ends with `leftsum`, `rightsum` and `wsum` equal to the left mass, right mass and total weight |
| Boundary.FractionsBounded | Histogram.py:73-75 | with non-negative weights and a positive total, `leftsum/wsum` and `rightsum/wsum` are non-negative and add up to at most 1 |
| Boundary.SumScaled | Histogram.py:79-80 | scaling every bin by a factor scales the sum of the bins by it |
| Boundary.Corrected | Histogram.py:76-90 | with `moresum <= 0` nothing changes; otherwise the update fails exactly when there are fewer than two bins (IndexError) or the bin width is 0 (ZeroDivisionError); a successful update keeps the two lists the same length |
| Boundary.CorrectedGrowth | Histogram.py:76-90 | with `moresum > 0` each list grows by exactly one entry per positive side |
| Boundary.CorrectedKeepsBins | Histogram.py:78-80 | with `moresum > 0` each original value, shifted past a prepended bin, is multiplied by `1 - moresum` and keeps its centre |
| Boundary.CorrectedSyntheticBins | Histogram.py:81-90 | the prepended bin (when `leftsum > 0`) has centre `bin_mid[0]-binsize` and value `leftsum/binsize`; the appended bin (when `rightsum > 0`) has centre `bin_mid[-1]+binsize` and value `rightsum/binsize` |
| Boundary.CorrectedKeepsWidth | Histogram.py:77-89 | the corrected centres keep the original bin width |
| Boundary.ScaledMass | Histogram.py:78-80 | a density scaled by `factor` has integral `factor` |
| Boundary.AddBinMass | Histogram.py:82-85 | prepending a bin of value `x/binsize` adds x to the integral |
| Boundary.AppendBinMass | Histogram.py:87-90 | appending a bin of value `x/binsize` adds x to the integral |
| Boundary.LeftBinMass | Histogram.py:78-85 | after scaling and the optional left bin, the integral is `leftsum + factor` |
| Boundary.Correction | Histogram.py:60-90 | the zero-total-weight error arises exactly when `wsum` is 0 while the sums are Python floats (no weight file, or no samples); for a non-zero `wsum` the result is the bin update applied to `leftsum/wsum` and `rightsum/wsum`, except that the update's zero-bin-width error becomes the non-finite outcome in a weighted run; the zero-bin-width error arises only without a weight file; a zero numpy `wsum` leaves the bins unchanged unless both outside masses are positive; the non-finite outcome arises only once a weight has been added |
| Boundary.CorrectionConservesMass | Histogram.py:76-90 | for a density (sum of value times bin width equal to 1) with non-negative fractions the update succeeds and yields a density again |
| Boundary.CorrectHistogram | Histogram.py:60-90 | the in-place implementation (sums, division by `wsum`, in-place scaling, insert/append) equals the functional `Correction` on every input, so it inherits all of its outcomes: the errors without a weight file, the unchanged bins and non-finite outcome with one |
| Boundary.CorrectionKeepsDensity | Histogram.py:59-90 | with non-negative weights, a positive total and a density as input, the whole correction succeeds and yields a density |
| Histogram1D.DataRange | Histogram.py:43-49 | no range exactly when neither bound is given; an error exactly when only one is (numpy rejects the `None`); the inverted-range error exactly when both are given and `minbin > maxbin` (numpy's `ValueError`); otherwise the ordered pair `(minbin, maxbin)` |
| Histogram1D.Rows | Histogram.py:121-126 | one row per bin carrying that bin's centre and value and, with `--freeE`, `freeElsit[i] - base` |
| Histogram1D.Run | Histogram.py:42-126 | the run fails exactly when the range is rejected, when `--alldata` with a range makes the correction fail, or when `--freeE` meets an undefined unit, and in that order it names the failure: the range error, the correction's own error, `UndefinedUnit`; without a range or `--alldata` the rows are the bin centres and the histogram unchanged; with both, the rows are the successful correction of them; the energy column is present exactly with `--freeE` and holds the relative free energy of the final values |
| Histogram2D.XYRange | 2DHistogram.py:34-51 | no range exactly when neither option is given; the incomplete-range error exactly when only one is; the inverted-range error exactly when both are and `xmin > xmax` or `ymin > ymax` (numpy's `ValueError`); otherwise `((xmin, xmax), (ymin, ymax))` from the two pairs |
| Histogram2D.GridFreeEnergies | 2DHistogram.py:79-91 | the grid of energies with its global minimum as base has the histogram's shape, and no entry lies below the base |
| Histogram2D.TableEnergies | 2DHistogram.py:94-98 | with the grid minimum as base, the energy column of row (i, j) is the relative free energy of bin (i, j) |
| Histogram2D.PrintOrder | 2DHistogram.py:94-100 | the output has nx*ny rows, and row i*ny + j is `(xmid[i], ymid[j], hist[i][j], energy)`: every bin once, x outer and y inner |
| Histogram2D.Rows | 2DHistogram.py:94-100 | the nested print loop produces one block per x centre holding one row per y centre, as the table specifies |
| Histogram2D.Run | 2DHistogram.py:34-100 | a rejected range fails with the range's own error; otherwise an undefined unit fails with `UndefinedUnit` exactly when `--freeE` is on; no other failure occurs; a successful run's rows are the table of x and y centres and values, with the energies relative to the grid minimum exactly when `--freeE` is on |

## Left out

- Option parsing, the `#` echo of the command line and the `%g` formatting of each line are not modelled. A run is given an `Options` value and yields the rows as values. The blank line after each x block of the 2-D output is the block structure of `Histogram2D.Rows`.
- The parsing of the `x,y` strings for `--column` and `--nbins` in the 2-D script (2DHistogram.py:32-33) is not modelled. The `--minmid`/`--maxmid` pairs arrive already split.
- `numpy.loadtxt` and `numpy.histogram`/`histogram2d` are not part of this model, because they are file I/O and library code. Their results are inputs: the sample column, the weights, the histogram values and the edges. Their shapes are preconditions (`|edges| == |hist| + 1`, one weight per sample, a rectangular grid). Where mass conservation is stated, the density normalisation is a precondition.
- Floating-point rounding is not modelled: arithmetic is exact over `real`.
- `math.log` is an arbitrary function parameter. Its domain error for negative bin values (possible only with negative weights) is not modelled.
- `unitname` is computed by `Units.UnitOf` but never printed by either script.
- `Boundary.Correction`: with a weight file and at least one sample, a zero `wsum` with both outside masses positive, or a zero bin width, lets the script go on with `inf` or `nan` bin values (numpy float division does not raise). The model stops there with `NonFiniteValues` rather than carrying non-finite bin values and printing them.
- `Boundary.CorrectHistogram`: the same non-finite outcome as `Boundary.Correction`, for the same reason.
- `Histogram1D.Run`: a weighted `--alldata` run whose correction ends in `NonFiniteValues` stops, where the script would print rows holding `inf` or `nan`.
- Non-finite inputs are not modelled, because a `real` has no `inf` or `nan`. The script accepts them: optparse's `float` type takes `nan` and `inf` for `--temperature` and the range bounds (Histogram.py:17-22), and `numpy.loadtxt` reads them as samples and weights (Histogram.py:34 and 38). For example, `--temperature nan` with `--unit 1` makes `unitfactor` `nan`, so no `tmpfe < base` test succeeds, `base` stays infinite and every row prints `nan`. The model computes finite energies there.
- Both runs stop at the first failure and return no rows. The script prints the command-line echo before failing, which is not modelled.
