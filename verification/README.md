# MultiSeg region-growing segmenter in Dafny

MultiSeg segments an image by working through a resolution pyramid, coarse
level first. It repeats the same cycle at every level:

- Single-pixel regions grow by mutual-best-fit merging under an annealed
  similarity threshold.
- Small regions are absorbed into their closest neighbour.
- Pixels on region borders may change sides.
- Regions that fail a coefficient-of-variation test are split back into
  pixels.

The result on one level seeds the next. This project models that core in
Dafny and proves what the code promises about it.

The state of a segmentation (`Segmentation.Seg`) has three parts:

- the label grid, a `seq<seq<nat>>` holding the id of each cell's region;
- the region table, a `map<nat, Region>`;
- adjacency, held in each region's neighbour list.

Neighbour lists are duplicate-free `seq<nat>` in list order, because
`getClosestRegion` breaks ties by that order. Consistency is
`Segmentation.Valid`:

- adjacency is symmetric and no region is its own neighbour;
- every cell carries the id of a live region whose box holds it;
- every region is non-empty and fits the grid.

Each engine operation is proved to preserve `Valid`.

Modules, following the source files:

| module | models |
|---|---|
| `Regions` (region.dfy) | `Region`: bounding-box algebra, neighbour list |
| `Adjacency` (graph.dfy) | adjacency rewiring of `updateNeighborhoodAfterMerge` and `removeRegion` |
| `Mergers` (mergers.dfy) | `AbstractMerger`, `EuclideanMerger`, `CompositeMerger`, `RadarCartoonMerger`, `OpticalCartoonMerger` |
| `Utils` (utils.dfy) | `GenerateId`/`DecodeId`, `Tokenize`, `ComputeMaxLevels` |
| `CVTables` (cvtable.dfy) | `CVTable`: accepted levels, breakpoint schedule, `getCV` |
| `Pyramids` (pyramid.dfy) | `Pyramid`: slots, 2x2 averaging, release |
| `Xml` (xml.dfy) | `TerraAidaXML`: node list, queries, parser, rendering |
| `Segmentation` (segmentation.dfy) | `initializeRegions`, merging one pair, `getClosestRegion(s)`, `updateLabelledImage` |
| `Growing` (growing.dfy) | `mergeRegions`, `mergeRegionsRandomly`, `executeRegionGrowing`, `mergeSmallRegions`, `processSmallRegions` |
| `Borders` (borders.dfy) | `isBorderPixel`, `computeBorderDestiny`, `adjustRegionBorders` |
| `Splitting` (splitting.dfy) | `invalidateRegionPixels`, `splitRegion`, `splitRegions` |
| `Statistics` (statistics.dfy) | `updateRegionStatistics`, `resizeRegions` |
| `Thresholds` (thresholds.dfy) | `updateThresholds` |
| `Results`, `Sums` | shared `Result`/`Option` types and sums of reals |

Error handling follows the code:

- Asserts on the shape of the arguments become preconditions. Examples:
  - equal band counts (mseg/src/AbstractMerger.cpp:69,
    mseg/src/EuclideanMerger.cpp:46 and 69), which `Mergers` requires;
  - a sub-merger for every band (mseg/src/CompositeMerger.cpp:86), which is
    `Mergers.Routes`;
  - both regions larger than one pixel in the region-vs-region tests
    (mseg/src/RadarCartoonMerger.cpp:83, mseg/src/OpticalCartoonMerger.cpp:96),
    which is `Mergers.SizesTestable`;
  - a non-empty 2x2 block (mseg/src/Pyramid.cpp:224), which is
    `Pyramids.Fits`;
  - a level index in range (mseg/src/Pyramid.cpp:69 and 75).
- Asserts on the data become a `Fault`. Examples: a missing merger parameter, a
  zero pooled deviation in the region-vs-region test of the cartoon mergers
  (mseg/src/RadarCartoonMerger.cpp:110, mseg/src/OpticalCartoonMerger.cpp:103),
  and a `getCV` key that is not in the table.
- A few operations that the C++ performs without an assert also become a
  `Fault`. These are divisions by zero, where the C++ computes an infinity or
  NaN, and a pop of an empty stack, which is undefined behaviour. "## Left out"
  lists each one.
- A `TEAGN_TRUE_OR_THROW` also becomes a `Fault`.
- `std::random_shuffle` becomes an input permutation.
- The numerical library calls are function-valued parameters. These are
  `sqrt`, the Student-t and normal cumulative distributions, and the gamma
  quantile.

## Model

| member | source | states |
|---|---|---|
| Regions.NewRegion | mseg/src/Region.cpp:33-45 | A new region has size 1, its pixel as mean, zero variance and cv of the same length, no neighbours, and a box holding exactly its own cell |
| Regions.UpdateBoundsScaled | mseg/src/Region.cpp:66-78 | Only the box changes. A zero start stays 0 and a non-zero start becomes start*scale-1 (without wrap-around). Each bound becomes bound*scale clipped to the finer level's size (without wrap-around), and never exceeds that size. |
| Regions.UpscaledBoxCovers | mseg/src/Region.cpp:66-78 | The rescaled box covers every cell of the image of each old cell, clipped to the image |
| Regions.UpdateBoundsUnion | mseg/src/Region.cpp:80-86 | The new box is the least box enclosing both boxes, and nothing else changes |
| Regions.UnionLaws | mseg/src/Region.cpp:80-86 | The union with itself changes nothing, and the union box does not depend on argument order |
| Regions.UpdateXStart | mseg/src/Region.cpp:88-91 | The start never increases and moves only to the given column |
| Regions.UpdateYStart | mseg/src/Region.cpp:93-96 | The start never increases and moves only to the given line |
| Regions.UpdateXBound | mseg/src/Region.cpp:98-101 | The bound never decreases and moves only to the given column |
| Regions.UpdateYBound | mseg/src/Region.cpp:103-106 | The bound never decreases and moves only to the given line |
| Regions.ExtendIdempotent | mseg/src/Region.cpp:88-106 | Applying the same one-sided extension twice equals applying it once |
| Regions.AddNeighbour | mseg/src/Region.cpp:158-164 | Afterwards n is a neighbour and the neighbour set gains only n. An already listed n changes nothing. The list stays duplicate-free. |
| Regions.AddNeighbourIdempotent | mseg/src/Region.cpp:158-164 | Adding a neighbour twice equals adding it once |
| Regions.RemoveNeighbour | mseg/src/Region.cpp:166-182 | Afterwards isNeighbour(n) is false and every other neighbour is kept |
| Regions.RemoveNeighbourKeepsOrder | mseg/src/Region.cpp:166-169 | Removing n from p + [n] + q leaves p + q, so the other neighbours keep their relative order |
| Regions.AddThenRemove | mseg/src/Region.cpp:158-169 | Removing a neighbour that was just added restores the region |
| Adjacency.Contract | mseg/src/MultiSeg.cpp:801-819 | The absorbed id leaves the table and only neighbour lists change |
| Adjacency.ContractLinked | mseg/src/MultiSeg.cpp:801-819 | After the contraction, adjacency is still symmetric and without self-links, and nothing lists the absorbed region. Adjacency is the old relation with b folded into a. |
| Adjacency.RemoveRegion | mseg/src/MultiSeg.cpp:1421-1453 | Exactly the removed id leaves the table |
| Adjacency.RemoveRegionLinked | mseg/src/MultiSeg.cpp:1421-1453 | The table stays consistent and nothing lists the removed region. Other adjacencies survive. New links join only its former neighbours, and with link set they join every two of them. Non-neighbours are untouched. With two or more former neighbours, none is left without a neighbour, with or without link. |
| Adjacency.RemoveRegionFills | mseg/src/MultiSeg.cpp:1425-1448 | When the removed region had two or more neighbours, none of them is left without a neighbour, with or without link. A neighbour whose list empties is linked to the others. |
| Adjacency.UnlinkLinks | mseg/src/MultiSeg.cpp:1426-1448 | With link set, every former neighbour ends up adjacent to every other |
| Mergers.NewLeaf | mseg/src/AbstractMerger.cpp:32-35 | A new merger has no parameters and is in strict mode |
| Mergers.GetParam | mseg/src/AbstractMerger.cpp:51-58 | The stored value exactly when the name is present, otherwise a fault naming it |
| Mergers.SetParam | mseg/src/AbstractMerger.cpp:41-44 | On a leaf, only the named entry is set and the other entries are kept. The merger tree's shape never changes. |
| Mergers.SetParamBroadcast | mseg/src/CompositeMerger.cpp:44-48 | A parameter set on a composite reaches every leaf at every depth |
| Mergers.SetParamsBroadcast | mseg/src/CompositeMerger.cpp:50-54 | A parameter map set on a composite becomes the map of every leaf |
| Mergers.AddMerger | mseg/src/CompositeMerger.cpp:56-60 | The sub-merger and its stats flag are appended together, so the two lists keep equal length |
| Mergers.GetMergerAfterAdd | mseg/src/CompositeMerger.cpp:56-60 | The merger added i-th is the one getMerger(i) returns |
| Mergers.AggregateMeaning | mseg/src/AbstractMerger.cpp:65-93 | Without faults, strict aggregation means every band and at least one band, and non-strict means some band |
| Mergers.AggregateFault | mseg/src/AbstractMerger.cpp:65-93 | A fault of the aggregate is the fault of one of the bands |
| Mergers.PredicateMeaning | mseg/src/AbstractMerger.cpp:65-93 | In strict mode predicate(r1, r2) holds iff every band accepts and there is a band. In non-strict mode it holds iff some band accepts. A fault comes from a band. |
| Mergers.IsHomogeneousMeaning | mseg/src/AbstractMerger.cpp:105-131 | isHomogenous follows the same strict or non-strict rule over the band tests |
| Mergers.DissimilarityMeaning | mseg/src/AbstractMerger.cpp:95-103 | The dissimilarity is defined iff every band's is, and it is then their sum over the bands of p |
| Mergers.L1Metric | mseg/src/AbstractMerger.cpp:141-152 | The "squared Euclidean distance" is non-negative and symmetric, and it is zero exactly on equal vectors |
| Mergers.EuclideanDissimilarityIsL1 | mseg/src/EuclideanMerger.cpp:81-91 | For a Euclidean merger, the pixel-to-region dissimilarity is the L1 distance to the mean |
| Mergers.EuclideanMerge | mseg/src/EuclideanMerger.cpp:42-63 | r1 gets the union box, the summed size and the size-weighted means. Its id, variance, cv and neighbours are kept. |
| Mergers.WeightedMean | mseg/src/EuclideanMerger.cpp:52-59 | The merged mean times the total size is the size-weighted sum, and it lies between the two means |
| Mergers.EuclideanMergeCommutes | mseg/src/EuclideanMerger.cpp:42-63 | Merging either way gives the same mean, size and box |
| Mergers.EuclideanBand | mseg/src/EuclideanMerger.cpp:65-79 | Accepts iff \|m1 - m2\| <= euclidean_distance_threshold, and faults iff that parameter is missing |
| Mergers.EuclideanBandSymmetric | mseg/src/EuclideanMerger.cpp:65-79 | The Euclidean test does not depend on the order of the regions |
| Mergers.EuclideanDissimilarity | mseg/src/EuclideanMerger.cpp:81-91 | The band dissimilarity is non-negative and zero exactly when the pixel equals the mean |
| Mergers.HomogeneousBand | mseg/src/EuclideanMerger.cpp:93-102 | Homogeneous iff cv_b <= cv_threshold, and faults iff that parameter is missing |
| Mergers.Merge | mseg/src/CompositeMerger.cpp:62-67 | A composite merge performs EuclideanMerger::merge once per flagged sub-merger |
| Mergers.CompositeMergeSingleFlag | mseg/src/CompositeMerger.cpp:62-67 | One flagged leaf merges exactly like EuclideanMerger::merge, and no flagged merger leaves r1 unchanged |
| Mergers.BandPredicate | mseg/src/CompositeMerger.cpp:69-92 | A composite delegates band b to its b-th sub-merger |
| Mergers.RadarBand | mseg/src/RadarCartoonMerger.cpp:45-122 | A pixel r1 gets the Euclidean test. A region against a pixel accepts iff pixel <= vcritic_factor * mean. Two regions accept iff 1 - tcdf(dof, t) >= 1 - confidence, with t from the mean^2/ENL pooled variance. |
| Mergers.RadarRegionVsPixelAsymmetric | mseg/src/RadarCartoonMerger.cpp:62-80 | The region-vs-pixel test is asymmetric: a concrete pair is refused one way and accepted the other way |
| Mergers.RadarRegionsSymmetric | mseg/src/RadarCartoonMerger.cpp:83-121 | Between two regions the radar test does not depend on their order |
| Mergers.RadarDissimilarity | mseg/src/RadarCartoonMerger.cpp:124-139 | Defined iff ENL is set and the divisor is non-zero. The value times mean/sqrt(ENL) is the Euclidean dissimilarity. |
| Mergers.OpticalBand | mseg/src/OpticalCartoonMerger.cpp:49-115 | A pixel r1 gets the Euclidean test. A region against a pixel uses 1 - Phi(\|dm\|/sqrt(var_b)). Two regions use 1 - tcdf(dof, \|dm\|/sqrt(var_b (1/s1+1/s2))). Each accepts iff the value >= 1 - confidence. |
| Mergers.OpticalRegionsSymmetric | mseg/src/OpticalCartoonMerger.cpp:96-114 | Between two regions the optical test does not depend on their order |
| Mergers.OpticalCloserAccepted | mseg/src/OpticalCartoonMerger.cpp:96-114 | For a monotone cdf, a region accepts every same-sized region whose mean is at least as close as one it accepts |
| Mergers.OpticalDissimilarity | mseg/src/OpticalCartoonMerger.cpp:117-126 | Defined iff image_variance_b is set and non-zero. The value times the variance is the Euclidean dissimilarity. |
| Utils.DecodeGenerate | mseg/src/Utils.cpp:78-87 | Decoding the id of (lin, col) gives back (lin, col) for every col < nCols |
| Utils.GenerateIdInjective | mseg/src/Utils.cpp:78-81 | Distinct in-range cells get distinct ids |
| Utils.DecodeId | mseg/src/Utils.cpp:83-87 | The decoded column is in range and re-encodes to the id |
| Utils.Tokenize | mseg/src/Utils.cpp:89-101 | The earlier vector contents are kept and the tokens of the string are appended |
| Utils.TokensAreMaximalRuns | mseg/src/Utils.cpp:89-101 | The tokens are exactly the maximal runs of non-delimiters, as found by an independent character-at-a-time scanner |
| Utils.TokensWellFormed | mseg/src/Utils.cpp:89-101 | No token is empty and no token contains a delimiter |
| Utils.TokensConcat | mseg/src/Utils.cpp:89-101 | Concatenating the tokens gives the input with every delimiter removed |
| Utils.ComputeMaxLevels | mseg/src/Utils.cpp:322-335 | Every level up to the result keeps the smaller side at least minimumSize, and the next one does not |
| Utils.MaxLevelsExact | mseg/src/Utils.cpp:322-335 | Every deeper level is too small too, so the result counts {k >= 1 : floor(side/2^k) >= minimumSize} |
| Utils.NoLevelsForSmallImages | mseg/src/Utils.cpp:322-335 | There is no level when the smaller side is below twice the minimum |
| Utils.MaxLevelsMonotone | mseg/src/Utils.cpp:322-335 | A larger image never allows fewer levels |
| CVTables.VerifyCV | mseg/src/CVTable.cpp:107-113 | Succeeds exactly on the eight accepted confidence levels, and faults otherwise |
| CVTables.TableFile | mseg/src/CVTable.cpp:48-72 | Accepted levels above 0.999 load nothing, every other accepted level names a file, and other levels fault |
| CVTables.TableFilesDistinct | mseg/src/CVTable.cpp:58-71 | Each accepted level up to 0.999 selects its own file |
| CVTables.HeaderShape | mseg/src/CVTable.cpp:142-170 | The 39 breakpoints start at 10, end at 9000 and strictly increase |
| CVTables.NextBreakpointIsNext | mseg/src/CVTable.cpp:151-169 | The +10/+50/+500/+1000 step rule produces the closed-form schedule |
| CVTables.LoadRows | mseg/src/CVTable.cpp:130-150 | Row k (from 1) fills keys (k, header[j]) with its values, the header is the schedule, and no other key exists |
| CVTables.LoadRow | mseg/src/CVTable.cpp:136-170 | One row is stored under its look count and earlier rows are kept |
| CVTables.GetCVWith | mseg/src/CVTable.cpp:74-105 | An empty table answers the largest double and leaves the arguments unchanged. Otherwise the answer is the stored value at the clamped looks and rounded samples, both written back, and it faults iff that key is missing. |
| CVTables.ClampLooks | mseg/src/CVTable.cpp:79 | The exact clamp is min(ENL, 250) |
| CVTables.RoundIsNearest | mseg/src/CVTable.cpp:83-94 | Rounding picks a breakpoint nearest to n, and the first of equally near ones |
| CVTables.RoundToSchedule | mseg/src/CVTable.cpp:83-96 | On the schedule the rounded count is a nearest breakpoint in [10, 9000]. Ties go to the smaller one, and a breakpoint rounds to itself. |
| CVTables.GetCVMeaning | mseg/src/CVTable.cpp:74-105 | The written-back looks are at most 250 and the samples a nearest breakpoint. Repeating the lookup with them gives the same answer. |
| CVTables.GetCVAgrees | mseg/src/CVTable.cpp:79-92 | Below 2^31 the int casts lose nothing, and the as-written lookup equals the intended one |
| CVTables.ClampLooksWraps | mseg/src/CVTable.cpp:79 | 2^32 + 5 looks clamp to 5 as written, but to 250 exactly |
| CVTables.RoundWraps | mseg/src/CVTable.cpp:86 | 2^32 + 10 samples round to 10 as written, but to 9000 exactly |
| Pyramids.Element | mseg/src/Pyramid.cpp:200-222 | Reading a cell gives its value exactly when it lies in the image |
| Pyramids.Contributors | mseg/src/Pyramid.cpp:181-230 | The contributors are existing cells of the 2x2 block, and there is one iff the block's corner is in the image |
| Pyramids.Build | mseg/src/Pyramid.cpp:181-230 | Each new cell is the mean of the existing cells of its 2x2 block, for every band |
| Pyramids.BuildBetween | mseg/src/Pyramid.cpp:181-230 | Every new value lies between the least and greatest value of its band one level below, so a constant band stays constant |
| Pyramids.NewPyramid | mseg/src/Pyramid.cpp:38-56 | There are nLevels + 1 slots with slot 0 the input, and level i is built from level i - 1 in order |
| Pyramids.PyramidBetween | mseg/src/Pyramid.cpp:148-179 | A band within [lo, hi] in the input stays within [lo, hi] on every level |
| Pyramids.ReleaseLevel | mseg/src/Pyramid.cpp:73-77 | Only slot i is emptied and the slot count is unchanged |
| Xml.InsertNode | mseg-op/src/TerraAidaXML.cpp:214-238 | Always reports success. Exactly one node is appended, with the given type, level, name, value and parent, and earlier nodes are unchanged. |
| Xml.InsertNodePosition | mseg-op/src/TerraAidaXML.cpp:221-231 | Only the last TAG decides the position: a sibling gets its position + 1 and a child shares it. Otherwise, or with no tag, p is kept. |
| Xml.ModifyLastNode | mseg-op/src/TerraAidaXML.cpp:240-251 | Only the value of the last ATTRIBUTE node changes, and nothing changes when there is none |
| Xml.FindNodeMeaning | mseg-op/src/TerraAidaXML.cpp:253-265 | A value is returned iff a node with that parent and name carries it, with one value per matching node |
| Xml.FindNodeAfterInsert | mseg-op/src/TerraAidaXML.cpp:253-265 | Inserting a node adds its value at the end of the query it matches and of no other query |
| Xml.FindChildren | mseg-op/src/TerraAidaXML.cpp:267-279 | The set of names of the nodes with the given parent |
| Xml.GetNode | mseg-op/src/TerraAidaXML.cpp:281-290 | The first node with the given name, or the end |
| Xml.Step | mseg-op/src/TerraAidaXML.cpp:175-186 | The parser faults exactly on a '/' outside a value when no tag is open |
| Xml.ExtractValuesMeaning | mseg-op/src/TerraAidaXML.cpp:208-211 | Success is reported iff every opened tag was closed, and earlier nodes keep all but possibly their value |
| Xml.RenderStep | mseg-op/src/TerraAidaXML.cpp:55-91 | An attribute writes ` name="value"`. A tag writes its lead-in, 3 x level spaces and "<name". A level drop with no open tag faults. |
| Xml.RenderNodesAppends | mseg-op/src/TerraAidaXML.cpp:53-92 | Rendering only appends to the text |
| Xml.RenderNodesSnoc | mseg-op/src/TerraAidaXML.cpp:53-92 | Rendering one more node advances the renderer left by the others, and an earlier fault stays the fault |
| Xml.RenderEndsWithTag | mseg-op/src/TerraAidaXML.cpp:53-104 | When the last node is a tag, the file ends with its indented "<name". That tag never gets its '>', and only the closing tags of the still-open tags follow it. |
| Xml.RenderEndsWithAttribute | mseg-op/src/TerraAidaXML.cpp:84-104 | When the last node is an attribute, the file ends with that attribute, "/>" and the closing tags of the still-open tags |
| Segmentation.InitializeRegions | mseg/src/MultiSeg.cpp:446-508 | The state keeps the image's size and bands |
| Segmentation.InitialCell | mseg/src/MultiSeg.cpp:446-508 | The region of (lin, col) has id lin*nCols+col, labels that cell, is that cell's new region, and neighbours its 4-neighbours |
| Segmentation.InitialAdjacency | mseg/src/MultiSeg.cpp:446-508 | Two cells' regions are adjacent exactly when the cells share a side |
| Segmentation.InitializeRegionsValid | mseg/src/MultiSeg.cpp:446-508 | Exactly nLines * nCols regions exist and the state is consistent |
| Segmentation.Relabel | mseg/src/MultiSeg.cpp:1400-1419 | Only cells inside the box that carry the absorbed id change, and only to the survivor's id |
| Segmentation.MergePairEffect | mseg/src/MultiSeg.cpp:548-599 | The survivor has the summed size, the weighted means and a box holding both boxes. Other regions change only neighbours. Exactly the absorbed cells are relabelled, and the count drops by one. |
| Segmentation.MergePairValid | mseg/src/MultiSeg.cpp:801-819 | A merge keeps the state consistent, nothing lists the absorbed id, and adjacency is folded |
| Segmentation.Candidates | mseg/src/MultiSeg.cpp:770-799 | The candidates are exactly the listed live neighbours that pass the predicate, with region pairs skipped unless considered |
| Segmentation.CandidatesInOrder | mseg/src/MultiSeg.cpp:770-799 | The candidates are a subsequence of the neighbour list: they keep its order |
| Segmentation.EuclideanCriterion | mseg/src/EuclideanMerger.cpp:65-102 | With the default strict EuclideanMerger, the engine's merge test under t holds iff there are bands and the means differ by at most t in each. Homogeneity under t holds iff there are bands and every cv is at most t. The dissimilarity is the L1 distance. |
| Segmentation.ClosestScan | mseg/src/MultiSeg.cpp:749-765 | The loop from DBL_MAX with a strict comparison picks nothing exactly when no distance is below DBL_MAX. Otherwise it picks the first position of the least distance. |
| Segmentation.ClosestScanAgrees | mseg/src/MultiSeg.cpp:749-765 | The loop's pick is the first minimum when that minimum is below DBL_MAX, and nothing otherwise |
| Segmentation.Pick | mseg/src/MultiSeg.cpp:734-768 | None iff there is no candidate, or two or more of which none is closer than DBL_MAX. The sole candidate is taken without a distance check, and the pick is always a candidate. |
| Segmentation.PickClosest | mseg/src/MultiSeg.cpp:748-767 | The pick has the least distance and is strictly closer than every earlier candidate |
| Segmentation.FirstMinUnique | mseg/src/MultiSeg.cpp:753-765 | The strict comparison determines the pick uniquely |
| Segmentation.Nearest | mseg/src/MultiSeg.cpp:734-768 | With all neighbours considered, there is no pick exactly when there is no neighbour, or two or more of which none is closer than DBL_MAX. A pick is adjacent. |
| Segmentation.Closest | mseg/src/MultiSeg.cpp:734-799 | A pick is an adjacent eligible neighbour. There is none exactly when no neighbour is eligible, or two or more are and none of them is closer than DBL_MAX. |
| Segmentation.SortedIds | mseg/src/MultiSeg.cpp:553-556 | Map iteration order lists every id once, in ascending order |
| Growing.ShrinksByMerge | mseg/src/MultiSeg.cpp:548-599 | One merge keeps the state consistent, erases exactly the absorbed id from the working map, and counts one region removed |
| Growing.MergeTarget | mseg/src/MultiSeg.cpp:561-570 | A target is the closest region, and under mutual best fit x is that region's closest region |
| Growing.TraceCompose | mseg/src/MultiSeg.cpp:548-599 | Two logged merge sequences in a row, each merge allowed by the rule in the state the earlier merges left, form one |
| Growing.Grow | mseg/src/MultiSeg.cpp:561-595 | The inner loop keeps x alive and is a merge sequence, and it merges only when a target exists |
| Growing.GrowStops | mseg/src/MultiSeg.cpp:561-595 | x merges iff it has a merge target. Without growUntilStop it merges at most once, and with it the loop ends with no target left. |
| Growing.GrowTrace | mseg/src/MultiSeg.cpp:561-595 | Each logged merge is x's merge target at that moment merged into x, applied to the state the earlier merges left |
| Growing.GrowInto | mseg/src/MultiSeg.cpp:561-595 | Every merge of the inner loop is into x |
| Growing.PassFromTrace | mseg/src/MultiSeg.cpp:554-597 | Every merge of a pass is the current region's merge target merged into it, in the state the earlier merges left |
| Growing.PassFromInto | mseg/src/MultiSeg.cpp:554-597 | A pass merges only into regions the working map held when it began |
| Growing.MergeRegions | mseg/src/MultiSeg.cpp:548-599 | A merge sequence: the count is the regions removed, and surviving regions' cells keep their labels. The log lists the merges in order, each the survivor's merge target in the state the earlier ones left, and every survivor comes from the working map. |
| Growing.MergeRegionsRandomly | mseg/src/MultiSeg.cpp:601-672 | The same guarantees and merge log for any visiting order |
| Growing.SortedShuffleIsDeterministic | mseg/src/MultiSeg.cpp:548-672 | The random form with the ascending order is the deterministic form |
| Growing.ExecuteRegionGrowing | mseg/src/MultiSeg.cpp:510-546 | The state stays consistent, and on exit the threshold parameter is reset to the level's similarity |
| Growing.ExecuteRegionGrowingSchedule | mseg/src/MultiSeg.cpp:510-546 | The threshold starts at sim/(step+1) and rises by that after each zero-merge pass. At most maxIterations passes run, and the loop stops exactly at the cap or after step+1 zero-merge passes. Merges sum to the regions removed. |
| Growing.LoopThresholds | mseg/src/MultiSeg.cpp:516-543 | The thresholds rise after every zero-merge pass, and merge counts add up |
| Growing.LoopStops | mseg/src/MultiSeg.cpp:530-538 | The loop stops exactly when its exit test first fires |
| Growing.RaisedClosedForm | mseg/src/MultiSeg.cpp:533-542 | The k-th threshold is the first plus one increment per earlier zero-merge pass |
| Growing.ThresholdNeverAboveSimilarity | mseg/src/MultiSeg.cpp:516-542 | No pass runs above the level's (non-negative) similarity |
| Growing.SmallFrom | mseg/src/MultiSeg.cpp:680-719 | Each logged merge absorbs a region of at most minArea into the nearest of all its neighbours, in the state the earlier merges left. A pass merging nothing leaves every remaining visited region settled. |
| Growing.MergeSmallRegions | mseg/src/MultiSeg.cpp:674-722 | A merge sequence whose log lists each merge: a region of at most minArea absorbed into the nearest of all its neighbours, in the state the earlier merges left. MergePair gives the survivor the summed size (Segmentation.MergePairEffect). A pass merging nothing leaves every region larger than minArea or with no neighbour getClosestRegion picks. |
| Growing.SmallLoop | mseg/src/MultiSeg.cpp:1385-1398 | The repeated passes are one merge sequence under the same minimum-area rule |
| Growing.SmallLoopSettles | mseg/src/MultiSeg.cpp:1385-1398 | Repeating passes until none merges leaves every region settled: larger than minArea, or with no neighbour getClosestRegion picks |
| Growing.ProcessSmallRegions | mseg/src/MultiSeg.cpp:1385-1398 | Nothing happens when minArea <= 1. Otherwise every remaining region is larger than minArea or isolated, the state is consistent, and surviving regions keep their cells. |
| Borders.IsBorderPixel | mseg/src/MultiSeg.cpp:1076-1161 | None iff every in-grid 4-neighbour shares the id. Otherwise the answer is a differing neighbour on its side. |
| Borders.BorderPixelFirst | mseg/src/MultiSeg.cpp:1076-1161 | The reported side is the first differing one in left, right, top, bottom order |
| Borders.BorderDestiny | mseg/src/MultiSeg.cpp:1163-1193 | A iff VAa < VBa and VBb >= VAb. B iff VAa > VBa and VBb <= VAb. Otherwise undecided, and never both. |
| Borders.DestinyOfCloser | mseg/src/MultiSeg.cpp:1163-1193 | A region strictly closer to both pixels wins, and a tie at pixel A is undecided |
| Borders.DestinySymmetric | mseg/src/MultiSeg.cpp:1163-1193 | Without ties, swapping the two cells swaps the outcome |
| Borders.AdjustCell | mseg/src/MultiSeg.cpp:983-1070 | One cell's step changes at most a 4-neighbour's label, and only to x. Decided cells and cells outside x are skipped. |
| Borders.AdjustCellDestiny | mseg/src/MultiSeg.cpp:1005-1048 | A cell of x without a border neighbour, or whose border neighbour is already decided, changes nothing. Otherwise the neighbour takes label x iff the destiny on the linked statistics goes to x, and no label changes in the other outcomes. Both cells become decided unless the destiny goes to the neighbour, and then the decided set is unchanged. |
| Borders.AdjustRegionBorders | mseg/src/MultiSeg.cpp:941-1074 | Regions and statistics stay, and boxes and adjacency only grow. A cell changes label at most once, into a region adjacent to its old one. |
| Splitting.InvalidateRegionPixels | mseg/src/MultiSeg.cpp:1241-1262 | Exactly the region's cells take the npos mark and no other cell changes |
| Splitting.LinkAroundFacts | mseg/src/MultiSeg.cpp:1322-1377 | A new region is linked both ways to every unmarked region around its cell, and to nothing else |
| Splitting.SplitCellFacts | mseg/src/MultiSeg.cpp:1296-1377 | A marked cell becomes the single-pixel region lastId + 1, and the mark count drops by one |
| Splitting.SplitRegion | mseg/src/MultiSeg.cpp:1264-1383 | The cells of x get fresh consecutive ids above the old maximum, and no other cell changes. New regions are single-pixel, and x is gone. Others keep their statistics and adjacency. |
| Splitting.SplitRegionSplits | mseg/src/MultiSeg.cpp:1264-1383 | splitRegion dissolves x into the ids it hands out |
| Splitting.SplitsCompose | mseg/src/MultiSeg.cpp:1195-1239 | Splitting one set and then another splits both |
| Splitting.Thresholds | mseg/src/MultiSeg.cpp:1203-1221 | Without a table every region uses the current cv. An empty table gives the largest double. Otherwise each threshold is a lookup. |
| Splitting.ThresholdsAgree | mseg/src/MultiSeg.cpp:1203-1221 | For regions below 2^31 pixels and a start below 2^31 looks, the thresholds through getCV's int casts equal the intended ones |
| Splitting.ThresholdsChain | mseg/src/MultiSeg.cpp:1203-1221 | With a table, threshold k is the cv value of lookup k. Lookup k starts from the number of looks lookup k-1 wrote back, or from the given ENL for the first. The thresholds exist iff every lookup succeeds. |
| Splitting.SplitInOrder | mseg/src/MultiSeg.cpp:1195-1239 | Over the ascending snapshot with one threshold per region, exactly the regions failing their homogeneity test under their own threshold are split |
| Splitting.SplitRegions | mseg/src/MultiSeg.cpp:1195-1239 | Exactly the regions failing their homogeneity test under the thresholds looked up for them in ascending order are split. The new regions are returned apart, and the call faults iff a lookup fails. |
| Statistics.Scan | mseg/src/MultiSeg.cpp:866-898 | The scan meets exactly the box cells labelled x, each once, in row-major order |
| Statistics.ScanFindsAll | mseg/src/MultiSeg.cpp:866-898 | With labels inside boxes, the scan meets exactly the region's cells |
| Statistics.Measure | mseg/src/MultiSeg.cpp:856-933 | There is no measure iff no box cell carries the id. Otherwise only size, mean, variance and cv change, with variance >= 0. |
| Statistics.MeasureCounts | mseg/src/MultiSeg.cpp:866-912 | The new size is the number of cells carrying the id, and a region is dropped iff there are none |
| Statistics.MeanWithin | mseg/src/MultiSeg.cpp:883-909 | Each band of the new mean lies between the least and greatest value of that band over the region's cells |
| Statistics.UniformRegion | mseg/src/MultiSeg.cpp:907-933 | Cells with equal pixels give that pixel as the mean, and zero variance and cv |
| Statistics.SampleCount | mseg/src/MultiSeg.cpp:895-896 | All pixels are kept as samples when there are at most nSamples, and never none |
| Statistics.UpdateRegionStatistics | mseg/src/MultiSeg.cpp:821-939 | A region is kept iff some cell carries its id, and its new size is that cell count. Labels, boxes and surviving adjacency are kept, and the state stays consistent. |
| Statistics.ResizeRegions | mseg/src/MultiSeg.cpp:1472-1477 | Every region keeps all but its box, the box fits the finer grid, and the table stays consistent |
| Statistics.ResizeKeepsLabelsLive | mseg/src/MultiSeg.cpp:1472-1477 | With labels copied onto 2x2 blocks, every fine cell still lies in its region's rescaled box |
| Thresholds.FactorRange | mseg/src/MultiSeg.cpp:1483-1489 | The correction is 4 - 3/2^L, in [1, 4), and 1 at level 0 |
| Thresholds.ScaledRange | mseg/src/MultiSeg.cpp:1488-1503 | Level 0 passes a threshold through, and a non-negative threshold never grows |
| Thresholds.ScaledShrinks | mseg/src/MultiSeg.cpp:1488-1503 | One level up the pyramid (coarser), a positive threshold strictly shrinks |
| Thresholds.LevelLooks | mseg/src/MultiSeg.cpp:1495-1499 | The looks are the truncated value, capped at 250 |
| Thresholds.LevelLooksGrow | mseg/src/MultiSeg.cpp:1495-1499 | The looks never fall from one level to the next |
| Thresholds.SamplesWrap | mseg/src/MultiSeg.cpp:1508 | Starting from npos, after k < 32 levels the sample limit is 2^64 - 4^k, which is at least 2^62 |
| Thresholds.VCritic | mseg/src/MultiSeg.cpp:1512-1514 | Faults iff there are no looks. Otherwise vcritic times the looks is the gamma quantile. |
| Thresholds.SetVariances | mseg/src/MultiSeg.cpp:1521-1529 | Every band's image_variance_b is set and other keys are kept |
| Thresholds.UpdateThresholds | mseg/src/MultiSeg.cpp:1479-1530 | Faults iff radar cartoon with 0 looks. The stored similarity and cv are the base values over 4^L times the level factor 4 - 3/2^L (Thresholds.Scaled, Thresholds.FactorRange), so level 0 passes them through and otherwise they shrink within [0, base]. The looks are Thresholds.LevelLooks of the ENL, and the sample limit is 4 times the old one modulo 2^64. The merger gets the thresholds, and ENL and vcritic for radar cartoon. |

## Left out

- Raster input and output, TerraLib rasters and their parameters, and the
  output sinks. The image of a level is a `seq<seq<seq<real>>>`.
- RunImplementation and the per-level orchestration are not modelled. This
  covers the pyramid walk, the merger choice in initializeMerger, the
  parameter reading in initializeParameters and CheckParameters.
- The dB-to-intensity conversion is not modelled. The Texture model and the
  dB radar format do nothing in the source.
- Pyramid::resize (TeRasterRemap) is not modelled. Statistics.ResizeKeepsLabelsLive
  assumes the finer label grid copies each coarse cell onto its 2x2 block.
- Pyramid::buildStats and the level sizes derived from the bounding-box
  resolution are not modelled. Level sizes and per-band image variances are
  inputs.
- sqrt, pow, the Student-t and normal cumulative distributions and the gamma
  quantile are parameters of the model. Floating-point rounding is not
  modelled, and all arithmetic is exact real arithmetic.
- std::random_shuffle is an input permutation (the `shuffle` of
  `Growing.Schedule`).
- The CSV text parsing in CVTable::load(path) is not modelled. Rows arrive as
  sequences of reals, and only the key and breakpoint generation is modelled.
- Progress managers, std::cout, TerraAidaXML::ListTree and Print, and the file
  streams of LoadFromDisk and SaveToDisk are not modelled. SaveToDisk's output
  is a string.
- The ParallelMultiSegStrategy tiling, the GUI, the command-line front ends,
  Utils::SaveResult, GenerateOutputFilesNames and Amplitude2Intensity are not
  modelled.
- Utils.ComputeMaxLevels requires minimumSize > 0. With 0 the source loop
  never ends.
- Thresholds.LevelLooks requires the looks value below 2^64. The source's
  cast to std::size_t is undefined beyond that.
- Splitting.SplitRegion requires the new ids to stay below npos, the split
  mark. Splitting.SplitRegions requires the same. The source would reuse the
  mark as an id.
- Xml.Step makes a '/' with no open tag a fault. The source pops an empty
  stack, which is undefined.
- Xml.RenderStep makes a level drop with no open tag a fault
  (mseg-op/src/TerraAidaXML.cpp:68-73). The C++ calls top() and pop() on an
  empty stack there, which is undefined behaviour rather than an assert.
- Mergers.L1Metric, Mergers.EuclideanBand and Mergers.EuclideanDissimilarity
  read the unqualified `abs` of mseg/src/AbstractMerger.cpp:149 and
  mseg/src/EuclideanMerger.cpp:78,90 as the real absolute value. Neither file
  says `using namespace std`, and AbstractMerger.cpp does not include
  `<cmath>`. Which overload is found therefore depends on the standard
  library's headers. If `::abs(int)` were chosen, the difference would be
  truncated to an integer first, and the model does not cover that.
- Splitting.Thresholds uses the intended lookup (CVTables.GetCV), while
  mseg/src/MultiSeg.cpp:1219 calls getCV with its int casts. The two differ
  only for a region of 2^31 pixels or more (see "## Findings"), and there
  the engine model follows the intended rounding. Splitting.ThresholdsAgree
  proves that the two give the same thresholds below that size.
- Mergers.RadarBand faults when ENL is 0 in the region-vs-region test
  (mseg/src/RadarCartoonMerger.cpp:95). The C++ divides by zero there and goes
  on with infinities or NaN, so the model makes no claim about the answer the
  C++ would give.
- Mergers.OpticalBand faults when the square root of the band's image
  variance is 0 in the region-vs-pixel test
  (mseg/src/OpticalCartoonMerger.cpp:83). The C++ divides by zero there
  without an assert.
- Mergers.RadarDissimilarity faults when sqrt(ENL) or the band mean is 0
  (mseg/src/RadarCartoonMerger.cpp:136-138). The C++ returns an infinity or
  NaN.
- Mergers.OpticalDissimilarity faults when the band's image variance is 0
  (mseg/src/OpticalCartoonMerger.cpp:125). The C++ returns an infinity or NaN.
- Segmentation.CriterionOf reads a merger fault as a refusal, a
  non-homogeneous region or a distance of 0. The engine assumes the merger
  never faults and has no path for it, and the growth and split passes are
  stated for any criterion.
- Statistics.UpdateRegionStatistics requires every label to lie inside its
  region's box (`Segmentation.Valid`). The source only asserts that labels
  are live ids.
- Segmentation.Closest states the pick's neighbour relation and eligibility
  through the ids. Distances are stated in Segmentation.PickClosest.
- Borders.AdjustRegionBorders states what any adjustment keeps. It does not
  state that the final labelling is stable under another pass.

## Findings

| source | as written | input that shows it | evidently intended | confidence | as-written member | corrected member |
|---|---|---|---|---|---|---|
| mseg/src/CVTable.cpp:79 | ENL is clamped through `static_cast<int>`, which keeps only the low 32 bits of the size_t | ENL = 2^32 + 5 clamps to 5 | ENL clamped to min(ENL, 250) | low, not executed. The engine caps ENL at 250 before calling getCV. | CVTables.ClampLooksWraps | CVTables.GetCVMeaning |
| mseg/src/CVTable.cpp:86 | The distance to a breakpoint is computed as `abs(static_cast<int>(nSamples - h))` | nSamples = 2^32 + 10 has distance 0 to breakpoint 10 and rounds to 10 | Rounding to the nearest breakpoint, which gives 9000 | low, not executed. Only regions of 2^31 pixels or more reach it. | CVTables.RoundWraps | CVTables.RoundToSchedule |
