# Region-growing segmentation, modelled in Dafny

This project models the segmentation engine in `sampleCode.cpp` and proves what it computes. The engine has two parts:

- **The median noise filter (`filterNoise`).** An even kernel size returns a copy of the image. An odd kernel size replaces every pixel whose whole neighbourhood lies inside the image by the median of that neighbourhood, read from the unfiltered input.
- **The region grower (`RegionGrower`).** It runs six stages:
  1. It lays a near-square grid of ceil(sqrt(seedCount)) × ceil(sqrt(seedCount)) cells over the image and numbers the still-unlabelled cell centres 1, 2, … as seeds.
  2. It grows the regions breadth-first from a FIFO queue of `PixelInfo` samples. A region spreads into a 4-neighbour that is still unlabelled when the two intensities differ by at most 3.
  3. It counts, for every ordered pair of labels, the right and down adjacencies between them (border *effectiveness*). It also counts the subset of those whose intensities differ by at most 10 (border *similarity*).
  4. It sweeps the pairs (i, j), 1 ≤ i ≤ j ≤ seedCount, in row-major order. Where the effectiveness is positive, it replaces the similarity count by the ratio similarity / effectiveness, and redirects `mapping[j] := mapping[i]` when that ratio exceeds 0.5.
  5. It relabels every pixel with a single lookup in that mapping.
  6. It paints every label with its colour, label 0 in black. `drawRegionBorders` then marks every pixel whose colour differs from one of its four neighbours.

Modules, one concept each:

| file | module | contents |
|---|---|---|
| `raster.dfy` | `Raster` | grids, cells, colours, `PixelInfo`, the growth and merge criteria |
| `noise_filter.dfy` | `NoiseFilter` | `filterNoise` as an imperative loop nest over an `array2`, proved against the function `FilteredPixel` |
| `seeding.dfy` | `Seeding` | the seed layout and the seed sequence `Seeds` that the seeding loops produce |
| `growth.dfy` | `Growth` | breadth-first growth as a function (`BreadthFirstGrowth`), the invariant the growth loop keeps, and what a finished growth is (`GrownFrom`) |
| `border_statistics.dfy` | `BorderStatistics` | the counts the border scan produces, as functions of the label grid |
| `merging.dfy` | `Merging` | the merge sweep as a function (`FinalMapping`) and the one-step relabelling |
| `region_grower.dfy` | `Segmentation` | the class `RegionGrower`, whose methods update its label grid, queue and statistics in place |

How the model represents the source:
- The label grid, the statistics matrices, the colour map and the border mask are arrays, because the source updates them in place.
- The intensity image is read-only and is a `seq<seq<int>>`. A `PixelInfo` is a value, because the source copies it in and out of the queue.
- Each imperative method is proved against a function of its inputs. Then the properties the program promises are proved about those functions.

After the merge, every label is a fixed point of the final mapping: the mapping is idempotent, so one lookup already yields representatives. The single lookup that the source performs is therefore not a loss.

## Model

| member | source | states |
|---|---|---|
| Raster.GrowthCriterion | sampleCode.cpp:116-118 | a region grows into a neighbour exactly when the neighbour's intensity lies within 3 of the current sample's, on either side |
| Raster.MergeCriterion | sampleCode.cpp:120-122 | a border pair is similar exactly when the two intensities lie within 10 of each other, on either side |
| Raster.CriteriaRelated | sampleCode.cpp:116-122 | both intensity tests are symmetric, and a pair that passes the growth test (difference ≤ 3) also passes the merge test (difference ≤ 10) |
| NoiseFilter.Window | sampleCode.cpp:284-289 | the window of rows top..bottom and columns left..right holds (bottom − top)·(right − left) samples |
| NoiseFilter.SortSeq | sampleCode.cpp:292 | the sorted neighbourhood is sorted, has the same length and is a permutation (same multiset) of the samples |
| NoiseFilter.SortedPermutationUnique | sampleCode.cpp:292-293 | two sorted permutations of the same samples are equal, so the median does not depend on the sort routine |
| NoiseFilter.MedianOfAnySortedPermutation | sampleCode.cpp:292-293 | the middle element of any sorted permutation of the neighbourhood is the model's median |
| NoiseFilter.MedianIsASample | sampleCode.cpp:293 | the median is one of the neighbourhood's samples |
| NoiseFilter.Half | sampleCode.cpp:275 | C++'s `kernelSize / 2`, which rounds toward zero: the remainder `kernelSize − 2·h` is 0 or 1 for a non-negative size and 0 or −1 for a negative one, and h is never negative from −1 up |
| NoiseFilter.NeighborhoodMedian | sampleCode.cpp:281-293 | the two inner loops collect exactly the (2·pad+1)² window row by row, and the result is its median |
| NoiseFilter.FilterPixel | sampleCode.cpp:281-294 | pixel (i, j) of the output becomes its neighbourhood median and no other output pixel changes |
| NoiseFilter.FilterRow | sampleCode.cpp:280-295 | row i of the output becomes its filtered values and every other row is unchanged |
| NoiseFilter.FilterNoise | sampleCode.cpp:270-299 | the output is a fresh array, the separate copy `clone()` makes; it has the input's shape, and every pixel equals `FilteredPixel`: a copy for an even kernel, the median for an odd kernel inside the padded interior, the input value elsewhere |
| NoiseFilter.FilteredPixelInterior | sampleCode.cpp:279-294 | with an odd kernel, a pixel whose whole neighbourhood lies in the image gets the median of that neighbourhood |
| NoiseFilter.FilteredPixelAtEdge | sampleCode.cpp:271-280 | an even kernel, and any pixel within half a kernel of the image edge, keeps its input value |
| NoiseFilter.SingletonWindow | sampleCode.cpp:284-293 | with pad 0 the neighbourhood is the pixel alone, and its median is the pixel's value |
| NoiseFilter.UnitKernelIsIdentity | sampleCode.cpp:275-294 | with kernel size 1 (the size used before segmentation), and with −1, whose half rounds to 0, the filter is the identity |
| NoiseFilter.MedianInWindow | sampleCode.cpp:284-293 | the median of the window around (y, x) is the input sample of a pixel at most pad rows and pad columns away |
| NoiseFilter.FilteredPixelIsASample | sampleCode.cpp:279-294 | every output value is the pixel's own input value or the input sample of a pixel within half a kernel of it |
| NoiseFilter.FilteredPixelInRange | sampleCode.cpp:286-294 | an 8-bit input gives 8-bit output values |
| NoiseFilter.WindowMember | sampleCode.cpp:284-289 | every sample of a window is the sample of some pixel inside it |
| NoiseFilter.WindowLocal | sampleCode.cpp:284-289 | two images that agree inside a window have equal windows |
| NoiseFilter.NeighborhoodsAgree | sampleCode.cpp:284-289 | two images that agree within pad of (y, x) have the same neighbourhood window there |
| NoiseFilter.FilteredPixelIsLocal | sampleCode.cpp:284-294 | an output pixel depends only on the input samples of its own neighbourhood, so the visiting order of the pixels does not matter |
| Seeding.CeilSqrt | sampleCode.cpp:164-165 | the grid side g is the least natural number with g·g ≥ seedCount |
| Seeding.CeilSqrtLeast | sampleCode.cpp:164-165 | any side s with s·s ≥ seedCount is at least the grid side |
| Seeding.CellCentre | sampleCode.cpp:174-178 | the candidate of every grid cell, a cell centre clamped to the last row and column, lies inside the image |
| Seeding.SeedGridUnique | sampleCode.cpp:168-186 | the seeds determine the seeded label grid: two grids holding exactly the same seeds are equal |
| Seeding.SeedsWellFormed | sampleCode.cpp:168-186 | the seeds are inside the image, pairwise distinct and at most seedCount in number |
| Seeding.SeedsSaturated | sampleCode.cpp:172 | once seedCount seeds exist, the rest of a grid row adds nothing, so the inner `break` skips no seed |
| Seeding.SeedsAreCandidates | sampleCode.cpp:170-186 | every seed is the candidate of some grid cell |
| Seeding.SeedsCounted | sampleCode.cpp:170-186 | when the grid cells are at least one pixel wide and high and no centre is clamped, the seeds placed before cell (i, j) number min(seedCount, i·grid + j) |
| Seeding.SeedCountReached | sampleCode.cpp:164-186 | when the image is at least ceil(sqrt(seedCount)) pixels tall and wide, exactly seedCount seeds are placed |
| Seeding.StoredLabel | sampleCode.cpp:182 | the 8-bit label grid keeps an id modulo 256; ids up to 255 are kept unchanged and 256 is kept as 0. The same cast is used for the stores at lines 196 and 247 |
| Seeding.StoredSeedGrid | sampleCode.cpp:180-184 | the grid the seeding stores leave, with the cast written out: the cell of seed t holds `StoredLabel(t + 1)`, every other cell 0, and every cell lies in 0..255 |
| Seeding.StoredSeedGridIsSeedGrid | sampleCode.cpp:180-184 | with at most 255 distinct in-image seeds the cast loses nothing: the stored grid holds exactly the seeds, seed t as t + 1 |
| Seeding.SeedGridIsStored | sampleCode.cpp:180-184 | any grid holding exactly at most 255 seeds is the stored grid of those seeds |
| Seeding.SeedNumber256Lost | sampleCode.cpp:180-184 | with 256 distinct in-image seeds, the cell of the last one is stored as 0, so the stored grid does not hold the seeds |
| Seeding.LastSeedStoredAsUnlabelled | sampleCode.cpp:160-186 | 256 seeds on a 16 × 16 image: all 256 are placed, the last one inside the image, and its cell is 0 in the stored grid, which therefore does not hold the seeds |
| Segmentation.RegionGrower.constructor | sampleCode.cpp:92-94 | the grower keeps the image, starts with an empty queue and an all-zero label grid of the image's shape |
| Segmentation.RegionGrower.IsValidCoordinate | sampleCode.cpp:106-108 | (x, y) is valid exactly when row y and column x lie inside the image, which are also the bounds of the label grid |
| Segmentation.RegionGrower.AddNeighbor | sampleCode.cpp:110-114 | an in-image coordinate appends its sample, with its current label and intensity; any other coordinate leaves the list unchanged |
| Growth.NeighborSamples | sampleCode.cpp:96-104 | the neighbour list has at most four samples, all inside the image |
| Growth.NeighborSamplesCover | sampleCode.cpp:96-114 | each listed sample is the current sample of an in-image 4-neighbour, and every in-image 4-neighbour is listed |
| Segmentation.RegionGrower.FindNeighbors | sampleCode.cpp:96-104 | the result is exactly the in-image samples left, right, above and below, in that order, each read from the current label grid and image; it covers every in-image 4-neighbour |
| Segmentation.RegionGrower.NeighborSamplesAreCurrent | sampleCode.cpp:96-114 | every listed neighbour sample is an in-image 4-neighbour carrying its cell's current label and intensity, and every in-image 4-neighbour is listed |
| Segmentation.RegionGrower.PlaceSeed | sampleCode.cpp:180-184 | an unlabelled candidate becomes the next seed in the queue and, through the 8-bit cast, in the grid; a labelled one changes nothing |
| Segmentation.RegionGrower.SeedRow | sampleCode.cpp:171-185 | one grid row of seeding extends the placed seeds exactly as `SeedsBefore` prescribes |
| Segmentation.RegionGrower.Seed | sampleCode.cpp:164-186 | for 1 ≤ seedCount ≤ 255, the queue and grid hold exactly the seeds `Seeds(LayoutFor(...))`: seed t has id t+1 in both, and every other cell is 0 |
| Segmentation.RegionGrower.SeedingStartsGrowth | sampleCode.cpp:180-189 | the seeded grid and queue satisfy the growth invariant that growth starts from |
| Growth.SeedQueue | sampleCode.cpp:181 | the queue seeding leaves holds seed t as the sample with id t + 1, its position and its intensity, in seed order |
| Growth.VisitStep | sampleCode.cpp:195-199 | one neighbour visit keeps the label grid's shape |
| Growth.VisitAll | sampleCode.cpp:194-200 | the neighbour loop keeps the label grid's shape |
| Growth.VisitAllSnoc | sampleCode.cpp:194-200 | visiting one more neighbour is one more `VisitStep` |
| Growth.VisitStepCounts | sampleCode.cpp:195-199 | a claim labels one cell and lengthens the queue by one, so unlabelled cells plus queue length stay the same; a step that claims nothing changes nothing; queued samples stay in the image with a non-zero label |
| Growth.VisitCounts | sampleCode.cpp:194-200 | the same three facts for the whole neighbour loop |
| Growth.GrowthStep | sampleCode.cpp:190-200 | one iteration of the growth loop keeps the label grid's shape |
| Growth.GrowthStepProgress | sampleCode.cpp:189-200 | every iteration either labels a new cell or shortens the queue without changing the grid, so growth terminates |
| Growth.BreadthFirstGrowth | sampleCode.cpp:189-201 | the label grid growth leaves from a grid and a queue is a grid of the same shape; first-in, first-out order and the left, right, up, down neighbour order decide which region gets a contested pixel |
| Growth.BreadthFirstGrowthUnfolds | sampleCode.cpp:189-201 | growth from a non-empty queue is growth from the state one iteration leaves |
| Growth.WellFormedQueueSound | sampleCode.cpp:189-199 | every queued sample lies in the image and has a non-zero label |
| Growth.FullGridIsFixed | sampleCode.cpp:195 | growth only writes into unlabelled cells: on a grid with none left, the queue drains without changing the grid |
| Growth.UniformRowFirstStep | sampleCode.cpp:189-200 | on a uniform 1 × 4 row seeded at columns 1 and 3, seed 1's first iteration claims columns 0 and 2 |
| Growth.UniformRowFull | sampleCode.cpp:195 | the row labelled 1, 1, 1, 2 has no unlabelled cell |
| Growth.UniformRowGrowth | sampleCode.cpp:189-201 | on that row growth ends as 1, 1, 1, 2: the contested column 2 goes to the seed queued first, not to its other neighbour, seed 2 |
| Segmentation.RegionGrower.ClaimNeighbor | sampleCode.cpp:195-199 | a neighbour that passes the growth test and is unlabelled gets the current label in the grid, through the 8-bit cast, and joins the queue with the uncast label; otherwise nothing changes |
| Segmentation.RegionGrower.VisitNeighbor | sampleCode.cpp:194-200 | one neighbour visit gives exactly the grid and queue `VisitStep` prescribes; it keeps the growth invariant and labels already set, and leaves that neighbour absorbed |
| Segmentation.RegionGrower.VisitNext | sampleCode.cpp:194-200 | one iteration of the neighbour loop moves the state from `VisitAll` of the first t neighbours to `VisitAll` of the first t + 1 and absorbs neighbour t |
| Segmentation.RegionGrower.VisitNeighbors | sampleCode.cpp:193-200 | after the neighbour loop, the grid and queue are exactly `VisitAll` over the neighbour list; the dequeued pixel has no unlabelled growable neighbour left, and the growth invariant holds |
| Segmentation.RegionGrower.Grow | sampleCode.cpp:189-201 | growth terminates with an empty queue; the final grid is `BreadthFirstGrowth` of the seeded grid and queue, so queue order decides contested pixels, and it is `GrownFrom` the seeded grid |
| Growth.ClaimStep | sampleCode.cpp:195-199 | claiming a neighbour preserves the growth invariant |
| Growth.PopStep | sampleCode.cpp:190-191 | taking the front off the queue preserves the growth invariant, with that sample's cell exempt until its neighbours are visited |
| Growth.CloseStep | sampleCode.cpp:193-200 | once all of its neighbours are absorbed, the exempt cell is closed and the invariant holds again |
| Growth.ClosedByNeighbors | sampleCode.cpp:193-200 | a cell whose four in-image neighbours are all absorbed has no unlabelled growable neighbour |
| Growth.OrderReachesSeed | sampleCode.cpp:189-201 | every cell claimed during growth is joined to a seed by a growth chain that stays inside its region |
| Growth.GrowthEnds | sampleCode.cpp:189-201 | an empty queue means a finished growth: labels in 0..k, seed labels kept, no labelled pixel with an unlabelled growable neighbour, and every labelled pixel joined to a seed of its label |
| Growth.ChainStaysLabelled | sampleCode.cpp:189-201 | in a finished growth, every pixel reachable by a growth chain from a labelled pixel is labelled |
| Growth.LabelledIffReachable | sampleCode.cpp:189-201 | a pixel is labelled after growth if and only if a growth chain reaches it from a seed |
| Growth.FullGridUnchanged | sampleCode.cpp:189-201 | growth on a grid with no unlabelled pixel leaves it unchanged |
| BorderStatistics.CountsBounded | sampleCode.cpp:204-228 | during the scan, similarity never exceeds effectiveness, and a label is never counted against itself |
| BorderStatistics.SimilarityAtMostEffectiveness | sampleCode.cpp:209-212 | after the scan, similarity ≤ effectiveness for every pair, and the diagonal is zero |
| BorderStatistics.CountPositiveIffTouching | sampleCode.cpp:204-228 | a count is positive if and only if some pixel labelled a has a right or down neighbour labelled b, with b ≠ a, that qualifies for that count |
| BorderStatistics.SumAdd | sampleCode.cpp:204-228 | sums of sequences add up entry by entry |
| BorderStatistics.GridSumAdd | sampleCode.cpp:204-228 | sums of rasters add up entry by entry |
| BorderStatistics.SumSingle | sampleCode.cpp:204-228 | a sequence that is zero except at one position sums to its value there |
| BorderStatistics.GridSumSingle | sampleCode.cpp:204-228 | a raster that is zero except at one entry sums to its value there |
| BorderStatistics.GridSumZero | sampleCode.cpp:204-228 | an all-zero raster sums to 0 |
| BorderStatistics.CountMatrix | sampleCode.cpp:204-228 | the (n+1)² raster of effectiveness counts before pixel (i, j) |
| BorderStatistics.IndicatorTotal | sampleCode.cpp:210 | a raster holding a single 1 or nothing sums to 1 or 0 |
| BorderStatistics.RightTotal | sampleCode.cpp:206-210 | summed over all label pairs, the right pair at (i, j) counts once exactly when its two labels differ |
| BorderStatistics.DownTotal | sampleCode.cpp:217-221 | the same for the down pair |
| BorderStatistics.EventsTotal | sampleCode.cpp:206-226 | summed over all label pairs, pixel (i, j) adds its number of differing right and down pairs, 0, 1 or 2 |
| BorderStatistics.CountMatrixTotal | sampleCode.cpp:204-228 | with labels in 0..n, the counts before (i, j) sum to the number of differing right and down pairs before (i, j) |
| BorderStatistics.EffectivenessTotal | sampleCode.cpp:204-228 | with labels in 0..n, the whole effectiveness matrix sums to the number of right and down adjacencies whose labels differ, counting adjacencies, not pixels |
| Segmentation.RegionGrower.CountRight | sampleCode.cpp:206-215 | the right pair of (i, j) adds one to effectiveness[a][b] exactly when it is an effective pair, and one to similarity[a][b] exactly when it is also a similar pair |
| Segmentation.RegionGrower.CountDown | sampleCode.cpp:217-226 | the same for the down pair |
| Segmentation.RegionGrower.ScanRow | sampleCode.cpp:205-227 | after row i, the matrices hold the counts over all pixels up to the end of row i |
| Segmentation.RegionGrower.ComputeBorderStatistics | sampleCode.cpp:204-228 | the matrices end up holding `Effectiveness` and `Similarity` of the grown grid for every label pair in 0..n |
| Merging.RatioTest | sampleCode.cpp:236-238 | for a positive effectiveness, the ratio similarity / effectiveness exceeds 0.5 if and only if 2·similarity > effectiveness |
| Merging.SweepInvariantHolds | sampleCode.cpp:231-243 | throughout the sweep: 0 maps to 0, k maps into 1..k, every image of the mapping is a fixed point, and only ids of visited rows are images |
| Merging.FinalMappingShape | sampleCode.cpp:231-243 | the final mapping keeps 0, maps k into 1..k, and is idempotent |
| Merging.RedirectNeedsCriterion | sampleCode.cpp:234-240 | an id is redirected only if the merge test held for it and some smaller id |
| Merging.FinalRedirectNeedsCriterion | sampleCode.cpp:236-240 | the same for the mapping after the whole sweep |
| Merging.RelabelledAreRepresentatives | sampleCode.cpp:245-249 | after relabelling, every label is a fixed point of the mapping, never exceeds the label it replaced, and is 0 exactly where growth left the pixel unlabelled |
| Segmentation.RegionGrower.MergeRow | sampleCode.cpp:235-242 | row i of the sweep turns the visited counts into ratios and updates the mapping as `MappingBefore` prescribes |
| Segmentation.RegionGrower.MergeRegions | sampleCode.cpp:231-243 | the returned mapping is `FinalMapping` of the counts, and every visited pair with a positive effectiveness holds its ratio |
| Segmentation.RegionGrower.RemapRow | sampleCode.cpp:246-248 | row i of the grid is relabelled through the mapping, stored through the 8-bit cast, and later rows are untouched |
| Segmentation.RegionGrower.RemapRegions | sampleCode.cpp:245-249 | the grid becomes `Relabelled(labels, mapping)`: each label replaced by its image in one lookup |
| Segmentation.RegionGrower.BuildColorTable | sampleCode.cpp:252-255 | entry 0 is black and entry k is the k-th palette colour |
| Segmentation.RegionGrower.Colorize | sampleCode.cpp:258-264 | the colour map has the grid's shape and every pixel carries its label's colour |
| Segmentation.RegionGrower.DrawRegionBorders | sampleCode.cpp:124-143 | the mask has the colour map's shape, with 255 exactly at pixels whose colour differs from an in-image 4-neighbour's and 0 elsewhere |
| Segmentation.BordersFollowLabels | sampleCode.cpp:127-143 | every marked border pixel lies on a label border, and with pairwise distinct colours every label border is marked |
| Segmentation.RegionGrower.SeedAndGrow | sampleCode.cpp:163-201 | the outcome `SeedAndGrowOutcome`: the seeded grid holds exactly the seeds `Seeds(LayoutFor(...))`, at most seedCount of them, and equals their `StoredSeedGrid`; the final grid is `BreadthFirstGrowth` from them in seed order, finished, with an empty queue and labels in 0..seedCount |
| Segmentation.RegionGrower.AnalyseAndMerge | sampleCode.cpp:203-249 | the grid becomes the grown grid relabelled by `FinalMapping` of its `Effectiveness`/`Similarity` counts, with labels in 0..n |
| Segmentation.RegionGrower.Segment | sampleCode.cpp:158-249 | fresh (seedCount+1)² statistics matrices, the seeding and growth outcome above, the visited pairs holding their ratios, and the final grid equal to the grown grid relabelled by `FinalMapping` of its counts, with labels in 0..seedCount |
| Segmentation.RegionGrower.Execute | sampleCode.cpp:158-267 | the whole run. Everything `Segment` states, so the seeded grid is the unique grid of the seeds and the grown grid is fixed by breadth-first growth from them; in addition the colour map gives every pixel its label's colour, black for 0 |

## Left out

- Image loading, resizing, display, `processImage` and `main` are I/O around the engine. `ImageHandler` is not part of this model.
- `PixelInfo::display` prints to the console; it is not modelled. The class itself is the datatype `Raster.PixelInfo`, and its getters and setter are field access and field update.
- The `convertTo(CV_8UC1)` in the constructor is not modelled: the grower takes an image whose samples are already 8-bit (`IsImage`).
- The random colours (`rand() % 256`) are a `palette` parameter of `Execute` and `BuildColorTable`.
- Segmentation.RegionGrower.Execute: requires a fresh grower, meaning an all-zero label grid and an empty queue, as produced by the constructor. A second run on the same grower is not modelled.
- Segmentation.RegionGrower.Execute: requires 1 ≤ seedCount ≤ 255, because the source has no defined result outside that range:
  - seedCount = 0 makes the grid side ceil(sqrt(0)) = 0, and line 166 divides by it;
  - seedCount = −1 gives matrices of size 0 at line 160, but sqrt(−1) is NaN at line 164, and converting it to `int` is undefined;
  - seedCount ≤ −2 asks `Mat::zeros` for a negative size at line 160;
  - more than 255 seeds wrap around the 8-bit label grid (see Findings), and the model does not follow that wrap-around.
- Segmentation.RegionGrower.Execute: requires a non-empty image. On an empty image the clamped seed position is −1, and the source indexes outside the grid.
- NoiseFilter.FilterNoise: requires an even kernel size or an odd one ≥ −1. Size −1 is modelled: its half rounds toward zero to 0, and the filter is the identity (`UnitKernelIsIdentity`). For odd sizes ≤ −3 the half is negative: the neighbourhood loops run zero times, `neighbors[0]` is read from an empty vector, and the first write goes to pixel (−1, −1), outside the image.
- NoiseFilter.SortSeq: `std::sort` is modelled by an insertion sort. `SortedPermutationUnique` shows this choice cannot change the median.
- Segmentation.RegionGrower.DrawRegionBorders: covers border thickness 1 only, the value the program uses. The dilation with a structuring element for thicker borders is an OpenCV call and is not modelled.
- Floating-point arithmetic:
  - `borderSimilarity` is a matrix of exact `real`s. Its entries are small integer counts and their quotients. `RatioTest` connects the quotient test with the integer test the merge functions use. Rounding of the double division is not modelled.
  - `ceil(sqrt(seedCount))` at lines 164-165 is modelled by the integer `CeilSqrt`. The two agree for seedCount in 1..255, the range `Execute` accepts, because the correctly rounded double `sqrt` is exact on perfect squares, and for the other values in that range it stays far enough from an integer that `ceil` rounds it up to the same side.
- The `static_cast<uchar>` stores at lines 182, 196 and 247 are written out as `StoredLabel`, the value modulo 256. Every member that reaches one of them requires labels of at most 255 (the lines below). Under that bound the cast keeps every label unchanged.
- Segmentation.RegionGrower.Seed: requires seedCount ≤ 255, like `Execute`. With more seeds the stored ids wrap around and `Seeded` no longer describes the grid. For 256 seeds, `StoredSeedGrid` and `SeedNumber256Lost` describe the wrapped grid instead.
- Segmentation.RegionGrower.SeedRow: requires seedCount ≤ 255, for the same reason.
- Segmentation.RegionGrower.PlaceSeed: requires the seed id to be at most 255, for the same reason.
- Segmentation.RegionGrower.SeedAndGrow: requires seedCount ≤ 255, for the same reason. Growth from a wrapped label is not modelled (see the paragraph under Findings).
- Segmentation.RegionGrower.Segment: requires seedCount ≤ 255, for the same reason.
- Segmentation.RegionGrower.Grow: requires every queued label to be at most 255 (ghost bound k ≤ 255). Growth from a label the cast at line 196 wraps to 0 is not modelled.
- Segmentation.RegionGrower.VisitNeighbors: requires k ≤ 255, as `Grow` does.
- Segmentation.RegionGrower.VisitNext: requires k ≤ 255, as `Grow` does.
- Segmentation.RegionGrower.VisitNeighbor: requires k ≤ 255, as `Grow` does.
- Segmentation.RegionGrower.AnalyseAndMerge: requires n ≤ 255, so that the final mapping's labels (in 0..n) survive the cast at line 247.
- Segmentation.RegionGrower.RemapRegions: requires every mapping entry to lie in 0..255, which `FinalMapping` meets for n ≤ 255.
- Segmentation.RegionGrower.RemapRow: requires every mapping entry to lie in 0..255, like `RemapRegions`.
- `std::queue` and `std::vector` are modelled as sequences.

## Findings

| source | as written | input that shows it | evidently intended | confidence | as-written member | corrected member |
|---|---|---|---|---|---|---|
| sampleCode.cpp:160-186 | seed ids are stored in the 8-bit label grid with `static_cast<uchar>(seedIndex)`, while seedCount is unrestricted | seedCount = 256 on a 16 × 16 image: all 256 seeds are placed and seed 256 is stored as 0, the value for "no region" | every seed carries a distinct non-zero label, which holds only for seedCount ≤ 255 | not executed | Seeding.LastSeedStoredAsUnlabelled | Segmentation.RegionGrower.Execute |

The same cast at line 196 can also keep growth from ending; no member exhibits this. Take a 32 × 32 image whose pixels (31, 31), (31, 30) and (30, 31) have intensity 100 and all others 0, with seedCount = 256. Seed 256 sits at (31, 31) and is stored as 0. Only it can grow into its two neighbours, and it stores label 0 in them too. The three cells stay 0, so they claim each other again and again, and the queue never empties. The termination measure of `Grow` (the unlabelled cells, then the queue length) decreases only because every queued label is non-zero, which the bound k ≤ 255 on `Grow` secures.
