# Structure recognition: non-maximum suppression and scale detection

This project is a Dafny model of two parts of the nionswift structure-recognition
plugin, with proofs about that model.

**Non-maximum suppression** (`nms.py`) turns a batch of density maps into
peaks. Positions below a threshold are suppressed first. The scan then visits
every position in descending density order. A position that is not yet
suppressed is accepted, and every in-bounds pixel of the integer disc
`dx² + dy² < d²` around it is suppressed. At each accepted peak, the class
channels are summed over the disc with per-offset weights and normalised
into a probability vector.
- The module `Nms` states the scan as a function over sets (`Scan`, `Greedy`).
- It proves the threshold, separation, coverage and monotonicity properties
  about that function.
- It implements the batch loop imperatively, over the `accepted`,
  `suppressed` and `probabilities` arrays. Each row of those arrays is
  proved equal to the functional scan of its own map.

**Scale detection** (`scale.py`) works on the power spectrum of an image.
- `polar_bins` gives every pixel an id `angular * nbins_radial + radial`,
  or -1 outside the open annulus `inner < r < outer` (module `PolarBinning`).
- `unroll_powerspec` does three things (module `Unrolling`):
  - it averages the spectrum per id;
  - it reshapes the means into an (angular, radial) table;
  - it fills empty (NaN) cells column by column, by periodic linear
    interpolation, in place.
- `make_circular_template` folds its margin rows onto the opposite end
  (module `Template`).
- `find_circular_spots` wrap-pads the table and turns the best match into a
  radius and angles (module `Spots`).
- `find_hexagonal_scale` turns that radius into an image scale through
  √3/2, and `detect_scale` dispatches on the crystal system (module `Spots`).

Modelling choices:
- Reals stand in for floats, and every input value (density, class values,
  weights, spectrum) is finite. A cell is `Finite(v)` or `NonFinite` (the NaN
  of an empty bin or of a division by zero).
- A pixel's polar coordinates are an input. The angle is measured in turns
  (radians divided by 2π).
- √3/2 is the double-precision constant `0.8660254037844386`.
- Flat indices are row-major: `j = x * width + y`.

## Model

| member | source | states |
|---|---|---|
| Nms.IndexRoundTrip | nionswift_plugin/nionswift_structure_recognition/nms.py:40-50 | converting a pixel (x, y) to a flat index and back gives (x, y) again, for 0 ≤ y < width |
| Nms.IndexInRange | nionswift_plugin/nionswift_structure_recognition/nms.py:44-50 | a pixel that passes the bounds filter has a flat index in [0, H·W) |
| Nms.PositionInShape | nionswift_plugin/nionswift_structure_recognition/nms.py:40 | every flat index in [0, H·W) splits into an in-bounds pixel whose index is that flat index again |
| Nms.OffsetSquare | nionswift_plugin/nionswift_structure_recognition/nms.py:17-24 | the offset grid has (2d+1)² entries |
| Nms.OffsetSquareMembership | nionswift_plugin/nionswift_structure_recognition/nms.py:17-24 | an offset is in the grid exactly when -d ≤ dx ≤ d and -d ≤ dy ≤ d |
| Nms.KeepInside | nionswift_plugin/nionswift_structure_recognition/nms.py:26-29 | an offset is kept exactly when it was in the grid and dx² + dy² < d² |
| Nms.Disc | nionswift_plugin/nionswift_structure_recognition/nms.py:17-29 | the x_disc, y_disc offsets: the (2d+1)² grid in ravel order, filtered by the mask r2 < d²; every offset it keeps is strictly inside the circle (exact membership in Nms.DiscMembership) |
| Nms.DiscMembership | nionswift_plugin/nionswift_structure_recognition/nms.py:17-29 | the disc holds exactly the integer pairs with \|dx\|, \|dy\| ≤ d and dx² + dy² < d², the comparison strict |
| Nms.DiscHoldsCentre | nionswift_plugin/nionswift_structure_recognition/nms.py:26-29 | for d ≥ 1 the disc contains (0, 0), so an accepted peak suppresses itself |
| Nms.DiscOfZeroIsEmpty | nionswift_plugin/nionswift_structure_recognition/nms.py:26-29 | for d = 0 the disc is empty, because the comparison is strict |
| Nms.Neighbours | nionswift_plugin/nionswift_structure_recognition/nms.py:40-51 | the flat indices suppressed around peak j: each disc offset added to j's pixel, kept only when the pixel stays inside the map, then converted back to a flat index (characterised in Nms.NeighboursAreDisc) |
| Nms.NeighbourIsNear | nionswift_plugin/nionswift_structure_recognition/nms.py:40-51 | every suppressed neighbour lies inside the map, at squared distance < d² from the peak |
| Nms.NearIsNeighbour | nionswift_plugin/nionswift_structure_recognition/nms.py:40-51 | every position of the map at squared distance < d² from the peak is suppressed; no neighbour is lost at a row edge |
| Nms.NeighboursAreDisc | nionswift_plugin/nionswift_structure_recognition/nms.py:40-51 | the neighbours of a peak are exactly the positions of the map at squared distance < d² (both directions) |
| Nms.TargetsInRange | nionswift_plugin/nionswift_structure_recognition/nms.py:44-51 | every index written after the bounds filter lies in [0, H·W): no out-of-range write |
| Nms.Scan | nionswift_plugin/nionswift_structure_recognition/nms.py:34-51 | the scan after the first n positions of the visiting order: it starts from the below-threshold positions suppressed, and a visited position not yet suppressed is accepted and suppresses its neighbours; the below-threshold positions stay suppressed, and only visited positions are accepted |
| Nms.Greedy | nionswift_plugin/nionswift_structure_recognition/nms.py:34-51 | the whole scan of one map: below-threshold positions end suppressed, and every accepted position comes from the visiting order |
| Nms.ScanMonotone | nionswift_plugin/nionswift_structure_recognition/nms.py:35-51 | the accepted and suppressed sets only grow during the scan |
| Nms.ScanKeepsInvariant | nionswift_plugin/nionswift_structure_recognition/nms.py:34-51 | after every step of the scan: suppressed positions lie in the map; below-threshold positions are suppressed; accepted positions are above the threshold and at least as dense as every position still to visit; the disc of each accepted position is suppressed; accepted positions are pairwise apart; every suppressed position at or above the threshold is near an accepted one |
| Nms.AcceptedAboveThreshold | nionswift_plugin/nionswift_structure_recognition/nms.py:35-38 | no accepted position has density below the threshold |
| Nms.AcceptedAreSeparated | nionswift_plugin/nionswift_structure_recognition/nms.py:37-51 | no two distinct accepted positions lie at squared distance < d² |
| Nms.RejectedAreCovered | nionswift_plugin/nionswift_structure_recognition/nms.py:35-51 | every position at or above the threshold that is not accepted lies in the disc of an accepted position of at least its density |
| Nms.ClassTotal | nionswift_plugin/nionswift_structure_recognition/nms.py:53 | one class channel summed over the in-bounds disc offsets around j, each value times its offset's weight (non-negativity in Nms.ClassTotalNonNegative) |
| Nms.ClassTotals | nionswift_plugin/nionswift_structure_recognition/nms.py:53 | the weighted disc sum has one total per class channel |
| Nms.ClassTotalNonNegative | nionswift_plugin/nionswift_structure_recognition/nms.py:53 | with non-negative class values and weights, each weighted total is non-negative |
| Nms.Normalise | nionswift_plugin/nionswift_structure_recognition/nms.py:54 | dividing by the sum keeps one entry per channel |
| Nms.NormaliseSumsToOne | nionswift_plugin/nionswift_structure_recognition/nms.py:54 | when the total is non-zero, every normalised entry is finite and the entries sum to 1 |
| Nms.ProbabilitiesAreDistribution | nionswift_plugin/nionswift_structure_recognition/nms.py:53-54 | with non-negative classes and weights and a non-zero total, the probability vector is finite and non-negative and sums to 1 |
| Nms.ProbabilityAt | nionswift_plugin/nionswift_structure_recognition/nms.py:53-54 | the probability of channel c at position p: the normalised class totals when p is accepted, otherwise the 0 the array starts with (nms.py:12) (tied to the arrays by Nms.NonMaximumSuppression) |
| Nms.ScanStep | nionswift_plugin/nionswift_structure_recognition/nms.py:37-54 | one visit updates row i of the arrays from the scan state after n positions to the state after n + 1; other rows are untouched |
| Nms.SuppressMap | nionswift_plugin/nionswift_structure_recognition/nms.py:35-54 | starting from zeroed rows, row i ends with accepted = the greedy result, suppressed = the greedy suppressed set, and probabilities normalised at accepted positions and 0 elsewhere; other rows are untouched |
| Nms.NonMaximumSuppression | nionswift_plugin/nionswift_structure_recognition/nms.py:6-60 | for each map i, accepted[i] is the greedy result of density[i] alone (maps are independent); probabilities[i] are the normalised class totals at accepted positions and 0 elsewhere |
| PolarBinning.Trunc | nionswift_plugin/nionswift_structure_recognition/scale.py:19 | storing a float into the integer id array truncates toward zero; both sign cases are bounded |
| PolarBinning.Clip | nionswift_plugin/nionswift_structure_recognition/scale.py:24 | the clipped sector lies in [lo, hi] and is unchanged when already inside |
| PolarBinning.RadialIndex | nionswift_plugin/nionswift_structure_recognition/scale.py:18-19 | the ring of a radius inside the annulus: nR·(r − inner)/(outer − inner), truncated (range and ring edges in PolarBinning.RadialIndexInRange) |
| PolarBinning.AngularIndex | nionswift_plugin/nionswift_structure_recognition/scale.py:21-24 | the sector of an angle: floor(nA·turn), clipped to [0, nA − 1]; in range whenever nA ≥ 1 |
| PolarBinning.BinId | nionswift_plugin/nionswift_structure_recognition/scale.py:17-27 | a pixel's id: sector·nR + ring inside the open annulus, −1 outside (decoded in PolarBinning.BinIdDecodes) |
| PolarBinning.PolarBins | nionswift_plugin/nionswift_structure_recognition/scale.py:9-28 | every pixel gets exactly one id |
| PolarBinning.OutsideIffMinusOne | nionswift_plugin/nionswift_structure_recognition/scale.py:17-27 | a pixel's id is -1 exactly when it lies outside inner < r < outer (both strict) |
| PolarBinning.RadialIndexInRange | nionswift_plugin/nionswift_structure_recognition/scale.py:18-19 | inside the annulus, the ring index lies in [0, nR), and the radius lies between that ring's inner and outer edges |
| PolarBinning.DefaultRingIsUnitWide | nionswift_plugin/nionswift_structure_recognition/scale.py:10-19 | with the default ring count outer − inner, ring k holds exactly the radii in [inner + k, inner + k + 1) |
| PolarBinning.AngularIndexInRange | nionswift_plugin/nionswift_structure_recognition/scale.py:21-24 | the sector index is clamped to [0, nA); an angle in [0, 1) turn falls in [a/nA, (a+1)/nA) |
| PolarBinning.BinIdDecodes | nionswift_plugin/nionswift_structure_recognition/scale.py:19-27 | a binned pixel's id lies in [0, nA·nR); division and remainder by nR give back its sector and its ring |
| Unrolling.LabelMean | nionswift_plugin/nionswift_structure_recognition/scale.py:43-44 | the mean of the field over the pixels carrying an id, NaN when none does (properties in Unrolling.LabelMeanBounds) |
| Unrolling.LabelCountPositive | nionswift_plugin/nionswift_structure_recognition/scale.py:44 | an id has a non-zero pixel count exactly when some pixel carries it |
| Unrolling.LabelSumBounds | nionswift_plugin/nionswift_structure_recognition/scale.py:44 | the sum over an id lies between count·lo and count·hi when the field lies in [lo, hi] there |
| Unrolling.LabelMeanBounds | nionswift_plugin/nionswift_structure_recognition/scale.py:43-44 | the mean of an id is NaN exactly when no pixel carries it; otherwise it lies within any bounds of the field on that id |
| Unrolling.MaxOf | nionswift_plugin/nionswift_structure_recognition/scale.py:44 | the largest id is one of the ids and bounds them all |
| Unrolling.BinMeans | nionswift_plugin/nionswift_structure_recognition/scale.py:44 | there is one mean per id 0 .. max id, and none when the max id is -1 |
| Unrolling.ReshapeDims | nionswift_plugin/nionswift_structure_recognition/scale.py:46 | numpy's reshape of the means to (nA, nR): both sizes given must multiply to the length, a −1 size is inferred, anything else raises (properties in Unrolling.ReshapeKeepsSize) |
| Unrolling.ReshapeKeepsSize | nionswift_plugin/nionswift_structure_recognition/scale.py:46 | a successful reshape keeps the number of entries; with both sizes given it succeeds exactly when their product is the size |
| Unrolling.Grid | nionswift_plugin/nionswift_structure_recognition/scale.py:46 | the reshaped table has nA rows of nR entries |
| Unrolling.GridEntry | nionswift_plugin/nionswift_structure_recognition/scale.py:46 | table entry (a, b) is flat entry a·nR + b (row-major) |
| Unrolling.Column | nionswift_plugin/nionswift_structure_recognition/scale.py:49 | column b holds entry b of every row |
| Unrolling.Back | nionswift_plugin/nionswift_structure_recognition/scale.py:51 | the search backwards, going round the column, stops at the nearest known entry; everything it skipped is NaN |
| Unrolling.Forward | nionswift_plugin/nionswift_structure_recognition/scale.py:51 | the search forwards, going round the column, stops at the nearest known entry; everything it skipped is NaN |
| Unrolling.SamplesAround | nionswift_plugin/nionswift_structure_recognition/scale.py:51 | in a column with a known entry, a NaN entry has a known entry less than a full period away in each direction |
| Unrolling.Lerp | nionswift_plugin/nionswift_structure_recognition/scale.py:51 | np.interp's value s steps past sample a towards sample b, s + t steps further on: slope (b − a)/(s + t) times s, plus a (bounds in Unrolling.FilledBetweenNeighbours) |
| Unrolling.Interpolated | nionswift_plugin/nionswift_structure_recognition/scale.py:51 | the value filled into a NaN entry: Lerp between the nearest known entries behind and ahead of it, going round the column |
| Unrolling.FillColumn | nionswift_plugin/nionswift_structure_recognition/scale.py:49-52 | filling succeeds exactly when the column has a known entry and fails with no sample points otherwise; the length is kept and known entries are unchanged |
| Unrolling.FilledBetweenNeighbours | nionswift_plugin/nionswift_structure_recognition/scale.py:51 | a filled NaN lies between the nearest known entries before and after it, with period = column length |
| Unrolling.FillColumnBounded | nionswift_plugin/nionswift_structure_recognition/scale.py:48-52 | bounds on the known entries hold for every filled entry |
| Unrolling.FillColumns | nionswift_plugin/nionswift_structure_recognition/scale.py:48-52 | filling succeeds exactly when every column has a known entry, keeps the table's shape, and otherwise fails with no sample points |
| Unrolling.UnrollBins | nionswift_plugin/nionswift_structure_recognition/scale.py:35-41 | the defaults are filled in, and every pixel gets one id |
| Unrolling.Unroll | nionswift_plugin/nionswift_structure_recognition/scale.py:31-54 | a non-square field is refused; success implies a square, non-empty field |
| Unrolling.UnrollShape | nionswift_plugin/nionswift_structure_recognition/scale.py:44-46 | a successful unroll has nA rows of nR entries; the reshape succeeded only because the largest id present is nA·nR − 1 |
| Unrolling.UnrollEntryIsMean | nionswift_plugin/nionswift_structure_recognition/scale.py:43-46 | an entry whose bin holds pixels is the mean of the field over those pixels |
| Unrolling.UnrollBounded | nionswift_plugin/nionswift_structure_recognition/scale.py:41-54 | bounds of the field hold for every entry of the unrolled table, filled ones included |
| Unrolling.UnrollOfConstant | nionswift_plugin/nionswift_structure_recognition/scale.py:43-54 | a constant field unrolls to that constant in every entry |
| Unrolling.FillColumnInPlace | nionswift_plugin/nionswift_structure_recognition/scale.py:49-52 | column i of the array becomes the filled column, or nothing changes when it has no known entry |
| Unrolling.FillEmptyBins | nionswift_plugin/nionswift_structure_recognition/scale.py:48-52 | the in-place loop succeeds exactly when every original column has a known entry; the array then holds the filled columns |
| Unrolling.UnrollPowerspec | nionswift_plugin/nionswift_structure_recognition/scale.py:31-54 | the array version fails exactly when the functional unroll fails, with the same error; otherwise it has the same shape and entries |
| Template.Folded | nionswift_plugin/nionswift_structure_recognition/scale.py:63-65 | the folded template has nA rows of 2·margin + 1 entries |
| Template.MakeCircularTemplate | nionswift_plugin/nionswift_structure_recognition/scale.py:63-66 | the two in-place `+=` folds and the trim leave exactly the folded template |
| Template.FoldKeepsWeight | nionswift_plugin/nionswift_structure_recognition/scale.py:63-65 | when nA ≥ margin, each column of the template carries the same total weight as the widened template: folding loses nothing |
| Spots.WrapPad | nionswift_plugin/nionswift_structure_recognition/scale.py:75 | np.pad in wrap mode along the rows: the last n/2 rows, the table, then the first n/2 rows; the table itself sits unchanged in the middle |
| Spots.WrapPadRows | nionswift_plugin/nionswift_structure_recognition/scale.py:75 | the padded table has n/2 extra rows at each end, and its row i is unrolled row (i − n/2) mod n |
| Spots.SpotTurns | nionswift_plugin/nionswift_structure_recognition/scale.py:81 | one shifted angle per template angle |
| Spots.SpotsTurnRigidly | nionswift_plugin/nionswift_structure_recognition/scale.py:81 | all angles are shifted by the same amount, so differences between spots are unchanged |
| Spots.SpotRadius | nionswift_plugin/nionswift_structure_recognition/scale.py:82 | the reported radius cols + inner + 1 + 0.5 for the best match (its meaning in Spots.SpotRadiusIsRingCentre) |
| Spots.SpotRadiusIsRingCentre | nionswift_plugin/nionswift_structure_recognition/scale.py:82 | with one-pixel rings, every pixel of the ring under the template's middle column lies within half a pixel of the reported radius cols + inner + 1.5 |
| Spots.FindCircularSpots | nionswift_plugin/nionswift_structure_recognition/scale.py:69-83 | errors of unrolling propagate; a non-square spectrum is refused; success means the 64-row, 3-column template fits inside the wrap-padded table (at least 3 radial columns), and keeps one angle per template angle |
| Spots.HexagonalTurns | nionswift_plugin/nionswift_structure_recognition/scale.py:87 | the hexagonal template has six angles |
| Spots.FindHexagonalSpots | nionswift_plugin/nionswift_structure_recognition/scale.py:86-88 | a successful search on a square spectrum reports six spots |
| Spots.HexagonalSpotsAreSixfold | nionswift_plugin/nionswift_structure_recognition/scale.py:87-88 | spot k lies k/6 of a turn after spot 0 |
| Spots.HexagonalScale | nionswift_plugin/nionswift_structure_recognition/scale.py:94 | the scale radial·a / size·√3/2 (its meaning in Spots.ScaleSpansPlaneSpacing and Spots.ScaleGrowsWithRadius) |
| Spots.HalfSqrt3Squared | nionswift_plugin/nionswift_structure_recognition/scale.py:94 | the constant used for √3/2 squares to 3/4 within 10⁻¹⁵ |
| Spots.ScaleSpansPlaneSpacing | nionswift_plugin/nionswift_structure_recognition/scale.py:94 | the scale times the fringe period size/radius equals the plane spacing a·√3/2 |
| Spots.ScaleGrowsWithRadius | nionswift_plugin/nionswift_structure_recognition/scale.py:94 | for a positive lattice constant, a larger spot radius gives a larger scale |
| Spots.FindHexagonalScale | nionswift_plugin/nionswift_structure_recognition/scale.py:91-95 | a failed spot search fails the scale with the same error |
| Spots.DetectScale | nionswift_plugin/nionswift_structure_recognition/scale.py:130-139 | any crystal system other than "hexagonal" (None included) is refused; success means a hexagonal system on a square image, with scale = (cols + 4.5)·a / size · √3/2 |

## Left out

- The FFT power spectrum (scale.py:92) is not modelled. `Spots.FindHexagonalScale` and `Spots.DetectScale` take the power spectrum as an input of the image's shape.
- `np.hypot` and `np.arctan2` (scale.py:16, 21) are floating-point transcendental functions. Each pixel's radius and angle are an input (`PolarBinning.Polar`). The source measures the radius from (sx/2, sy/2) but the angle from (sx//2, sy//2); the model takes both as given and does not encode that difference.
- The Gaussian weights (nms.py:31) and the Gaussian template sums (scale.py:58-61) use `exp` and are not modelled. They are inputs: `weights` of `Nms.NonMaximumSuppression`, and the widened table `raw` of `Template.MakeCircularTemplate`.
- `Spots.FindCircularSpots`: `cv2.matchTemplate` and its argmax (scale.py:77-79) are a foreign call. The best match is the input `Match`, so the contract says nothing about which match is found. Only the call's size check is modelled: a template larger than the padded table gives the error `TemplateTooLarge`. The match is not required to lie inside the correlation map. The division by the maximum (scale.py:73) and the float32 cast (scale.py:75-76) feed only that call and are not modelled.
- Angle offset in `Spots.SpotTurns`: the reported row is a row of the padded table, which starts n/2 rows (half a turn) before the unrolled one. The model keeps the source's formula. For the six-fold template half a turn maps the pattern onto itself, and only the radius is used downstream.
- `Nms.NonMaximumSuppression`: the visiting order of `np.argsort` is an input, namely any permutation with non-increasing density. The sort is not stable, so nothing is claimed about ties.
- `Nms.NonMaximumSuppression`: the density batch is taken with one channel per map. With more channels, the flat index runs past H·W, and the first accepted position beyond it makes the probability write at nms.py:54 raise an index error.
- `Nms.NonMaximumSuppression`: the disc distance is a natural number. A negative distance makes numpy raise when the offset grid is allocated (nms.py:17); that error path is not modelled.
- `ind2sub`/`sub2ind` come from the plugin's `utils` module, which is not part of this model. They are taken as row-major conversions.
- `Template.MakeCircularTemplate` requires margin ≥ 1. With margin 0, numpy's `[-0:]` slice selects the whole table, so the first fold adds a whole table onto an empty slice and raises a broadcasting error (and the trim `[0:-0]` would be empty anyway). The source only uses margin 1.
- `Spots.DetectScale`: the lattice constant is a real. The case where it is still None (before parameters are fetched) is not modelled. The `len(data.shape) == 2` assertion is implied by the typing.
- `ndimage.mean`'s internals and `np.errstate` (scale.py:43-44) are replaced by an explicit per-id mean, with NaN for an id no pixel carries.
- The UI glue of `ScaleDetectionModule` (scale.py:105-128) and the presets table (scale.py:98-102) are widgets and text parsing. They are not modelled.
- NaN and infinite inputs are not modelled: every density, class value, weight and spectrum value is a real. In the source a NaN density is never pre-suppressed (`<` is false for NaN at nms.py:35) and is visited last by the argsort, so it can be accepted; a NaN spectrum pixel makes its bin's mean NaN at scale.py:44, and the fill at scale.py:51 then treats that bin as empty. Neither behaviour is captured, and `Nms.AcceptedAboveThreshold` says nothing about such positions.
- Floating-point rounding is not modelled: reals stand in for float64 and float32 values throughout.
