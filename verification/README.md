# sfmtool: models and proofs

A structure-from-motion toolkit and the scripts it is measured with. The parts modelled here are the
ones that hold an algorithm of their own: the rewriting of an edited reconstruction into compressed
rows, the depth layers behind a pixel, tracks from matches, storage orders for descriptors, the choice
of a reference view, the early-stop rule of a race between two solves, indexes and scans that must
agree, and three small searches. Each file is one module; a module proves what its script's own text
promises, or says exactly when it does not hold.

| file | what it holds |
|---|---|
| `Arrays.dfy`, `TrackSort.dfy`, `RowGather.dfy` | numpy's gathers, prefix sums, `repeat`, `bincount` and stable sort; sorting gathered rows by (point, image) |
| `CsrEdits.dfy`, `CsrEditLaws.dfy` | materialising a base plus its edits into one CSR value |
| `DepthLayers.dfy`, `AverageLinkage.dfy`, `Prominence.dfy`, `DistanceRange.dfy` | what lies along a pixel's ray |
| `Chains.dfy`, `MatchTracks.dfy` | chains of links; tracks by union-find with path compression |
| `RankAuc.dfy` | the rank-sum area |
| `MortonOrder.dfy`, `LeafPacking.dfy` | two storage orders |
| `ReferenceView.dfy`, `AngleForms.dfy`, `ViewCosts.dfy` | the reference-view rule, the forms of its angle factor, and what a view's cost is made of |
| `EarlyStop.dfy` | the early-stop rules |
| `GroundTruth.dfy`, `Grouping.dfy`, `NeighbourCells.dfy`, `ExactNearest.dfy` | indexes, per-cell collapse and the blocked scan |
| `WorkspacePath.dfy`, `Histogram.dfy`, `BudgetSearch.dfy` | path normaliser, percentile inverse, budget search |
| `ExtendedReals.dfy`, `RealProducts.dfy` | reals with an infinity; how products order |

Code that changes things step by step is a method (over arrays where the script writes into an array,
a class where it keeps an object) proved against a function; what the script promises is then proved
of that function for all inputs. Beside each such function stand laws in the inputs alone (their names
mostly end in `Says`, `Are` or `At`), which say what the function is without it.

## Where the code does not do what its text says

- `normalize_workspace_path` refuses more than paths that escape: a name that begins with two dots,
  such as `..a`, is refused as an escape although it stays inside (`WorkspacePath.DottedNameIsRejected`;
  `WorkspacePath.AcceptedExactly` is the exact rule).
- A normalised path is a fixed point unless its second character is a colon; then it is refused when
  normalised again (`WorkspacePath.NormalizeTwice`; `./a:b` is such a path,
  `WorkspacePath.ResultCanReadAsDrive`).
- `budget_for_recall` is described as the smallest budget that reaches the target. It returns a budget
  that does, and whose predecessor does not; with recall that dips it can pass over a smaller one
  (`BudgetSearch.SearchCanMissLeast`). `BudgetSearch.LeastIsFoundExactly` says exactly when it does
  not.
- `distance_range` for a point at infinity takes its starting distance as inside without reading it, so
  the near end can be out of tolerance (`DistanceRange.NearEndOfPointAtInfinity` says exactly when,
  `DistanceRange.NearEndCanBeOutOfTolerance` gives readings that do it; over one stretch of distances
  in tolerance it is exactly when the start is, `DistanceRange.NearEndOverOneStretch`).
- Under the quadrature, a view whose angle cannot be read can come out cheaper than one that can, though
  it takes the largest term: its factor is per radius (`AngleForms.QuadratureOrder` is the exact order,
  `AngleForms.QuadratureCanChargeUnreadLess` such a pair). In the other three forms it cannot.
- The buckets of a Morton axis are of equal population, give or take one, but for the top one, which
  holds the last rank alone (`MortonOrder.BucketsAreEven`, `MortonOrder.TopValueIsLastRank`).
- The early-stop rule's test that the dearer solve has finished comes one step late: at that solve's own
  last step the rule can fire and save nothing (`EarlyStop.FiringCanSaveNothing`;
  `EarlyStop.FiringSavesExactly` says exactly when a firing saves iterations).
- `auc` is the probability it is described as exactly when no positive score ties a negative one
  (`RankAuc.AucIsProbabilityExactly`).
- A Morton key of more axis bits than the 64-bit word drops its highest bits: cells are told apart
  exactly when the bits fit (`MortonOrder.WordKeysTellExactly`).

## Model

| member | source | states |
|---|---|---|
| CsrEdits.Materialise | scripts/measure_edit_costs.py:214-312 | The materialised columns, cut at their offsets, are exactly the list of tracks edited as a plain list: deleted tracks dropped, one row added to each modified track, new two-row tracks on the end, each track by image; the point columns keep the survivors and pad with zeros; the offsets and point indexes spell out the same cut |
| CsrEdits.SortedRowsAreTracks | scripts/measure_edit_costs.py:251-298 | One stable sort of all gathered rows on (point, image) lays the edited tracks end to end, and the points come out as each track's index repeated |
| CsrEdits.MaterialisedIsEdited | scripts/measure_edit_costs.py:295-311 | Any columns in that order, with counts by bincount, are a valid CSR value that reads back as the edited tracks |
| CsrEdits.RowMapIsBijection | scripts/measure_edit_costs.py:226-236 | The row map is -1 exactly on the deleted points and a strictly increasing bijection from the rest onto 0..survivors-1 |
| CsrEdits.BuildRowMap | scripts/measure_edit_costs.py:230-234 | The array written by prefix count and overwritten with -1 is that row map |
| CsrEdits.SurvivorCount | scripts/measure_edit_costs.py:235-236 | Deleting distinct points leaves exactly that many fewer |
| CsrEdits.KeptOwnersAsWritten | scripts/measure_edit_costs.py:255-263 | The points of the carried-over rows, read off through two gathers, are those the model uses |
| CsrEdits.SortObservations | scripts/measure_edit_costs.py:272-300 | Every observation column is gathered from base, modified and extra rows and permuted by one and the same re-sort |
| RowGather.AddedOwnersIsRepeat | scripts/measure_edit_costs.py:191-198 | The modified tracks' rows, gathered point by point, belong to the points `repeat` names |
| CsrEditLaws.SurvivorKeepsItsRows | scripts/measure_edit_costs.py:226-312 | At its mapped place a surviving point holds exactly its base rows plus its one added row if modified, as a multiset, in image order |
| CsrEditLaws.UntouchedTrackIsKept | scripts/measure_edit_costs.py:251-300 | An unedited track in image order comes through row for row |
| CsrEditLaws.TrackSays | scripts/measure_edit_costs.py:156-159 | A point's rows are its stretch of the columns, one row per count, each with its image and every column's cell |
| CsrEditLaws.ModifiedGainsItsRow | scripts/measure_edit_costs.py:251-300 | The m-th modified point holds its base rows and one added row, zero in every column, in the m-th image drawn, put in image order, rows of one image as they came |
| CsrEditLaws.OthersKeepTheirRows | scripts/measure_edit_costs.py:251-300 | Any other survivor holds its base rows put in that order |
| CsrEditLaws.NewPointHasItsRows | scripts/measure_edit_costs.py:262-300 | The j-th new point holds two added rows in the two images drawn for it, put in that order |
| CsrEditLaws.NoEditsIsIdentity | scripts/measure_edit_costs.py:214-312 | Materialising no edits gives back the base's tracks |
| CsrEditLaws.RowsAreConserved | scripts/measure_edit_costs.py:251-306 | Rows out are base rows less the deleted tracks' rows, plus one per modified and two per new point |
| CsrEditLaws.VerifyShape | scripts/measure_edit_costs.py:315-332 | Of every output: the offsets start at zero, end at the row count and differ by the counts, the rows are sorted by point, and every observation column has one cell per row |
| CsrEditLaws.VerifyEdits | scripts/measure_edit_costs.py:334-352 | Of every output: the mapped places sorted are 0, 1, 2, ...; every modified point carries one row more than in the base at its place, and every new point two, whether or not there are any of either |
| CsrEditLaws.BuildEditsIsValid | scripts/measure_edit_costs.py:144-176 | Whatever distinct points are drawn, the modified and deleted ones are sorted, in range and disjoint |
| CsrEditLaws.DrawsAreEdited | scripts/measure_edit_costs.py:161-166 | The first points drawn, as many as the edits asked for and the points there are allow, are the modified ones; the rest are the deleted ones, half as many or as many as are left |
| DepthLayers.Layers | scripts/track_at_pixel/anchors.py:1841-1854 | The sweep's layers hold the usable anchors in near order; each layer's range is the hull of its members', the ranges are disjoint and ascending, and each layer is held together by chains of overlaps |
| DepthLayers.EachUsableAnchorOnce | scripts/track_at_pixel/anchors.py:1841-1858 | Every usable anchor is in exactly one layer, once, and nothing else is in any |
| DepthLayers.LayersAreComponents | scripts/track_at_pixel/anchors.py:847-854 | Two usable anchors share a layer if and only if a chain of overlapping usable ranges joins them |
| DepthLayers.OverlapStaysInLayer | scripts/track_at_pixel/anchors.py:1849-1854 | Overlapping usable anchors are never in different layers |
| DepthLayers.LayeredAre | scripts/track_at_pixel/anchors.py:929-930 | The anchors in layers are exactly those that are bounded or far |
| DepthLayers.EarlierEndsFirst | scripts/track_at_pixel/anchors.py:1849-1854 | Every member of an earlier layer ends before any member of a later one begins |
| DepthLayers.LayerRuns | scripts/track_at_pixel/anchors.py:1849-1854 | A layer runs from the least near end of its members to their greatest far end |
| DepthLayers.MembersInOrder | scripts/track_at_pixel/anchors.py:1844-1847 | A layer lists its members by near end, those of one near end by index |
| DepthLayers.SupportAre | scripts/track_at_pixel/anchors.py:1731-1742 | An anchor's support lists, once each, the other anchors where both are usable, the ranges meet, and each is seen in an image the other is not |
| DepthLayers.SupportIsWithinLayer | scripts/track_at_pixel/anchors.py:1731-1742 | Every anchor counted in another's support is in that anchor's layer and counts it back; support is less than the layer's size |
| AverageLinkage.Cluster | scripts/track_at_pixel/anchors.py:1383-1398 | The groups are a partition of the indexes, no index twice in a group, each headed by its least member, heads ascending; it stops with one group or no pair at the cut, having made the merges of the full dendrogram it counts |
| AverageLinkage.MeanOfOne | scripts/track_at_pixel/anchors.py:1391 | Between two single indexes the mean is the entry |
| AverageLinkage.MeanOfJoined | scripts/track_at_pixel/anchors.py:1391 | Over two groups joined it is the mean of their means, each counted by its size |
| AverageLinkage.MeanOfJoinedSecond | scripts/track_at_pixel/anchors.py:1391 | So it is where the second group is two joined |
| AverageLinkage.SinglesFallShort | scripts/track_at_pixel/anchors.py:1394-1395 | No two indexes left alone have an entry at the cut or above |
| AverageLinkage.ClosestIsFirstBest | scripts/track_at_pixel/anchors.py:1388-1393 | The pair scan finds a pair of the largest mean, every earlier pair of it, by first group and then second, having less |
| AverageLinkage.MergedMeanAtMost | scripts/track_at_pixel/anchors.py:1391-1397 | The mean similarity to a merged group is no more than the larger of the means to its parts |
| AverageLinkage.MergeSimilaritiesFall | scripts/track_at_pixel/anchors.py:1387-1397 | After a merge no two groups are closer than the two merged were |
| AverageLinkage.LevelsFall | scripts/track_at_pixel/anchors.py:1387-1397 | So merge similarities never increase along a whole run |
| AverageLinkage.CutIsDendrogramCut | scripts/track_at_pixel/anchors.py:1394-1395 | A run makes merge k if and only if that merge's similarity in the full dendrogram is at least the cut |
| AverageLinkage.HigherCutRefines | scripts/track_at_pixel/anchors.py:1383-1398 | The groups at a higher cut each lie inside one of the groups at a lower cut |
| Prominence.Measure | scripts/track_at_pixel/anchors.py:1330-1344 | The value less its prominence is its key col: the highest, over all higher readings anywhere, of the lowest reading on the way there, an unread one being lowest; with none higher, the lowest reading read. Prominence is never negative, and is endless if and only if some reading is higher and every way to a higher one passes an unread one |
| Prominence.KeyColSays | scripts/track_at_pixel/anchors.py:1330-1343 | Where some reading is higher, every way to a higher one goes down to the key col or below, and one way to a higher one nowhere below it |
| Prominence.KeyColUnreadExactly | scripts/track_at_pixel/anchors.py:1337-1343 | The key col is unread if and only if some reading is higher and every way to a higher one passes an unread one |
| Prominence.KeyColIsUnique | scripts/track_at_pixel/anchors.py:1330-1333 | A reading has one key col |
| Prominence.NearestDecide | scripts/track_at_pixel/anchors.py:1335-1343 | The passes to the nearest higher reading on each side, or the lowest reading read where there is none, decide the key col over all readings |
| Prominence.OnlyNearestMatter | scripts/track_at_pixel/anchors.py:1337-1341 | A higher reading beyond the nearest one on its side has a pass no higher |
| DistanceRange.Compute | scripts/track_at_pixel/anchors.py:817-844 | The doubling and bisecting loops return the range the statements below are about |
| DistanceRange.RangeEnds | scripts/track_at_pixel/anchors.py:828-844 | For every point: the near end is open if and only if all 40 halvings of the start read in tolerance, and else is a distance no further than the start, past every halving before it, in tolerance if the start is and one gap from a distance that is not; the far end likewise by doublings where infinity is out of tolerance, and infinity where it is not or the point is there |
| DistanceRange.ToleranceIsLeast | scripts/track_at_pixel/anchors.py:817 | The tolerance is the least that is no less than the one asked for and than half a pixel over the error at t0 |
| DistanceRange.RangeIsSound | scripts/track_at_pixel/anchors.py:817-844 | For a finite distance near <= t0 <= far, each end found reads within tolerance, and the distance a factor 2^(1/2^rounds) past it does not |
| DistanceRange.RangeIsTheStretch | scripts/track_at_pixel/anchors.py:785-795 | Where the distances in tolerance, infinity the furthest, form one stretch, the range is that stretch up to that factor; with infinity in tolerance everything past t0 is |
| DistanceRange.NearEndFromGoodStart | scripts/track_at_pixel/anchors.py:828-836 | For a point at infinity whose start reads in tolerance, the near end is no further than the start, reads in tolerance, and a factor 2^(1/1024) nearer does not; it is open if and only if every halving of the start reads in tolerance |
| DistanceRange.RangeAtInfinityIsTheStretch | scripts/track_at_pixel/anchors.py:785-795 | Over one stretch the range is then the stretch up to that factor |
| DistanceRange.FiniteStretchIsNotEnough | scripts/track_at_pixel/anchors.py:835-836 | One stretch of finite distances does not give that: readings with an infinite far end and distances short of it out of tolerance |
| DistanceRange.NearEndOfPointAtInfinity | scripts/track_at_pixel/anchors.py:828-836 | For a point at infinity the near end is out of tolerance if and only if the start, half of it and every midpoint the bisection reads are |
| DistanceRange.NearEndOverOneStretch | scripts/track_at_pixel/anchors.py:828-836 | Where the distances in tolerance form one stretch, that is so if and only if the start alone is out of tolerance |
| DistanceRange.NearEndCanBeOutOfTolerance | scripts/track_at_pixel/anchors.py:828-836 | Readings that fall off to nothing with distance for which that happens |
| DistanceRange.RecedingIsContinuous | scripts/track_at_pixel/anchors.py:801-815 | Those readings have no jump, at infinity or short of it |
| DistanceRange.ScriptGap | scripts/track_at_pixel/anchors.py:820 | Ten rounds leave a factor 2^(1/1024) |
| MatchTracks.Tracks.Find | scripts/patch_crossval.py:242-248 | It ends on every reachable parent map, returns the root, and compression changes no root, no key and no parent but to its node's root |
| MatchTracks.Tracks.Union | scripts/patch_crossval.py:250-255 | One match is added: the keys are the endpoints seen, and roots agree exactly along chains of matches |
| MatchTracks.CompressKeepsForest | scripts/patch_crossval.py:246-247 | Pointing a node at its root keeps the forest with the same roots |
| MatchTracks.LinkKeepsForest | scripts/patch_crossval.py:254-255 | Hanging one root under another keeps a forest, the first's nodes taking the second's root |
| MatchTracks.RootsAreDetermined | scripts/patch_crossval.py:242-248 | A parent map has at most one root assignment |
| MatchTracks.SameRootIsJoined | scripts/patch_crossval.py:238-255 | Two nodes have one root if and only if a chain of matches joins them |
| MatchTracks.BuildTracks | scripts/patch_crossval.py:257-269 | The tracks returned are the connected components of the nodes that rows match, a row being one of the image pair whose stretch it is in, each node once; the tracks come in the order their first nodes do in the rows, and each has its nodes in that order, though collecting them compresses paths |
| MatchTracks.MatchListAt | scripts/patch_crossval.py:257-264 | Every row of every image pair's stretch is united, at its own place, as a match of the pair's two images' features |
| MatchTracks.MatchListLength | scripts/patch_crossval.py:257-264 | And nothing but those rows |
| MatchTracks.ComponentsOfRows | scripts/patch_crossval.py:257-269 | So the components of the matches united are the components of the nodes some row links |
| RankAuc.RankingInverts | scripts/patch_crossval.py:121 | Sorting an argsort inverts it: the second sort gives ranks, whatever the first did with ties |
| RankAuc.RankSumCountsPairs | scripts/patch_crossval.py:122-125 | The rank sum less its least value counts the pairs in which a positive ranks above a negative |
| RankAuc.AucBetweenWinsAndTies | scripts/patch_crossval.py:116-125 | For any tie order the area lies between the share of pairs won and the share won or tied |
| RankAuc.AucIsWinShare | scripts/patch_crossval.py:116-117 | Without ties across the two samples it is the share won |
| RankAuc.TiesCanCountAsWins | scripts/patch_crossval.py:121 | For any scores some sort makes it the share won or tied |
| RankAuc.AucIsProbabilityExactly | scripts/patch_crossval.py:116-125 | It is the promised probability for every sort if and only if no positive ties a negative |
| RankAuc.AucCountsPairsWon | scripts/patch_crossval.py:116-125 | The area times the number of pairs of a positive and a negative is the number of pairs the positive wins, as a set of pairs; it is undefined if and only if a side is empty |
| RankAuc.CleanSeparation | scripts/patch_crossval.py:116-125 | It is 1 where every positive scores above every negative |
| RankAuc.ReversedSeparation | scripts/patch_crossval.py:116-125 | And 0 the wrong way round |
| MortonOrder.KeyIsInjective | scripts/kdf_descriptor_orderings.py:102-108 | Different cells below 2^bits have different keys |
| MortonOrder.KeyIsMonotone | scripts/kdf_descriptor_orderings.py:102-108 | A cell no further along on any axis has no larger key |
| MortonOrder.KeyInterleaves | scripts/kdf_descriptor_orderings.py:102-108 | Bit b of axis e is bit b times the axes, plus the axes after e, of the key |
| MortonOrder.WordKeyIsModulo | scripts/kdf_descriptor_orderings.py:103-108 | A w-bit word holds the key modulo 2^w |
| MortonOrder.WordKeysTellExactly | scripts/kdf_descriptor_orderings.py:103-108 | The word key tells every two cells apart if and only if bits times axes fit the word |
| MortonOrder.GridValueInRange | scripts/kdf_descriptor_orderings.py:96-100 | The scaled rank stays below 2^bits |
| MortonOrder.CellValue | scripts/kdf_descriptor_orderings.py:96-100 | A point's value along an axis is its rank times (2^bits-1) over the ranks less one, rounded down |
| MortonOrder.BucketsAreEven | scripts/kdf_descriptor_orderings.py:92-100 | Along every ranked axis of two points or more the top value is one point's, and every other value the floor or the ceiling of (n-1)/(2^bits-1) points' |
| MortonOrder.TopValueIsLastRank | scripts/kdf_descriptor_orderings.py:92-100 | A point has the top value if and only if it is ranked last |
| MortonOrder.OrderProjection | scripts/kdf_descriptor_orderings.py:94-109 | The nested loops return the stable order of the word keys of the ranked cells |
| MortonOrder.OrderIsByKey | scripts/kdf_descriptor_orderings.py:103-109 | Of two places in it the earlier has the smaller key modulo 2^w, or the same and the smaller index |
| MortonOrder.OrderFollowsDomination | scripts/kdf_descriptor_orderings.py:94-109 | That order is a permutation in which a dominated cell comes before the cell that strictly dominates it, and points of one cell keep index order |
| MortonOrder.LowerRanksAreDominated | scripts/kdf_descriptor_orderings.py:98-100 | A point ranked no higher on any axis gets a dominated cell |
| LeafPacking.OrderGreedy | scripts/kdf_descriptor_orderings.py:130-147 | The array filled in place is each visited leaf's not-yet-placed members in turn and then the unclaimed ids ascending |
| LeafPacking.GreedyIsPermutation | scripts/kdf_descriptor_orderings.py:112-147 | For any trees whose leaves hold distinct ids in range, that is a permutation of 0..n-1 |
| LeafPacking.FreshMembersAreTogether | scripts/kdf_descriptor_orderings.py:115-118 | A leaf's members not placed when it is visited sit side by side in its order; the whole leaf does if none was |
| LeafPacking.EveryLeafVisited | scripts/kdf_descriptor_orderings.py:133-136 | The round-robin reaches every leaf of every tree |
| LeafPacking.VisitAt | scripts/kdf_descriptor_orderings.py:133-136 | Each leaf is visited right after the rounds before its own and the trees before its own in its round |
| LeafPacking.VisitsInOrder | scripts/kdf_descriptor_orderings.py:133-136 | So earlier rounds come first, and earlier trees within a round |
| LeafPacking.VisitsAreAllLeaves | scripts/kdf_descriptor_orderings.py:133-136 | There are exactly as many visits as leaves |
| ReferenceView.Choose | scripts/reference_view/analyze.py:301-415 | In every form of the angle factor, the pick is the least eligible row by cost, then semi-minor axis (unread last), then index; there is none if and only if no row is eligible |
| ViewCosts.PickSays | scripts/reference_view/analyze.py:403-415 | Against any other eligible row the pick's cost is less, or equal with a smaller semi-minor axis or the other's unread, or equal in both with a smaller index |
| ViewCosts.JudgeExcludes | scripts/reference_view/analyze.py:307-318 | A row is excluded for no coverage, or coverage under the least, or a viewing angle of 90 degrees or more, the first that holds; it is eligible if and only if none does |
| ViewCosts.VerdictHasCost | scripts/reference_view/analyze.py:384-401 | An eligible row's verdict holds its factors, and the cost it is compared by is their product |
| ViewCosts.RadiusSays | scripts/reference_view/analyze.py:324-361 | A row is charged the radius it reads, else the largest an eligible row reads, else the default |
| ViewCosts.CappedSays | scripts/reference_view/analyze.py:242-248 | A row takes the step if and only if the radius it reads is at its cap, 3 where none is given; a row that reads none, if and only if some eligible row reads the largest radius at its cap |
| ViewCosts.CapMovesStep | scripts/reference_view/analyze.py:361-363 | Raising the cap of a row that reads at it leaves every factor of its cost but the step |
| ViewCosts.StepMultiplies | scripts/reference_view/analyze.py:393-399 | And with it the row costs exactly the step times what it costs without |
| ViewCosts.AgreementSays | scripts/reference_view/analyze.py:335-372 | Agreement is hinged on how far the pair reading is short of the best eligible one, for a row with none on how far the worst is, and costs nothing where no eligible row reads one |
| ViewCosts.HingeSays | scripts/reference_view/analyze.py:251-252 | A hinge is 1 up to its band and rises past it with slope one over its scale |
| ViewCosts.HingesSay | scripts/reference_view/analyze.py:373-383 | Cells and clipped share are hinged where they are read and cost nothing where not; coverage on how far it is short of its band |
| ViewCosts.AngleSays | scripts/reference_view/analyze.py:342-368 | The angle factor is the form's over the eligible rows' angles, rays and charged radii |
| ReferenceView.PickIsUnique | scripts/reference_view/analyze.py:404-415 | There is one such pick |
| ReferenceView.FirstLeast | scripts/reference_view/analyze.py:404-414 | The scan that gives way only to something strictly less ends on the lexicographic minimum with the smallest index |
| ReferenceView.UnreadIsNoBetter | scripts/reference_view/analyze.py:318-344 | A row with no pair reading, or no radius, is charged at least what any row with one is. A row the angle form cannot read takes at least the term of any it can, in all four forms, and at least its factor in the three whose term is the factor; the quadrature's factor can be lower |
| ReferenceView.RuleFormIsSound | scripts/reference_view/analyze.py:264-265 | The rule's own angle factor is at least 1 for every eligible row |
| AngleForms.UnreadTakesLargestTerm | scripts/reference_view/analyze.py:279-298 | In all four forms a view that cannot be read takes at least the term of any that can |
| AngleForms.UnreadIsChargedMost | scripts/reference_view/analyze.py:279-298 | In the three forms whose term is the factor it takes at least the factor of any that can; the quadrature's factor can be lower |
| AngleForms.QuadratureOrder | scripts/reference_view/analyze.py:363-365 | The quadrature charges one view at most what it charges another if and only if its term per radius is at most the other's |
| AngleForms.QuadratureChargesUnread | scripts/reference_view/analyze.py:342-365 | So it charges an unread view at least what it charges a read one of no smaller radius |
| AngleForms.QuadratureCanChargeUnreadLess | scripts/reference_view/analyze.py:342-365 | Two views of which it charges the unread one less |
| AngleForms.OneBearingCostsNothing | scripts/reference_view/analyze.py:269-275 | Where every ray is one bearing, as for a patch at infinity, the factor by median ray angle is 1 for every view |
| AngleForms.TermSays | scripts/reference_view/analyze.py:283-298 | The term of a row that can be read, form by form: 1 + k tan of its angle, a power of its secant, 1 + k tan of the median angle to the other eligible rays, or the spread times tan, angles below zero counting as zero |
| AngleForms.FallbackSays | scripts/reference_view/analyze.py:297-298 | A row that cannot be read takes the largest term of an eligible row that can, and with none what leaves its factor at 1 |
| AngleForms.FactorSays | scripts/reference_view/analyze.py:363-368 | The factor is the term, or under the quadrature the hypotenuse of radius and term per radius |
| AngleForms.RayAnglesAre | scripts/reference_view/analyze.py:290-294 | The angles the median is of are those to every other eligible row's ray |
| AngleForms.MedianIsMiddle | scripts/reference_view/analyze.py:295 | The median of the values put in order any way is the middle one, or midway between the middle two |
| AngleForms.MedianIsBetween | scripts/reference_view/analyze.py:290-296 | The median of the ray angles lies between any bounds of them |
| ReferenceView.ShortfallsMove | scripts/reference_view/analyze.py:332-338 | What raising one row's pair reading does to every row's shortfall, fallback included |
| ReferenceView.BetterAgreementKeepsThePick | scripts/reference_view/analyze.py:301-415 | Raising only the picked row's pair reading never un-picks it, though it moves the best reading and the fallback others are charged |
| ReferenceView.CleanerReadingsKeepThePick | scripts/reference_view/analyze.py:355-415 | Nor does better coverage, a smaller cell deficit or a smaller clipped share of its own |
| EarlyStop.IterationPairs | scripts/scanlines_race_early_stop.py:80-97 | The loop lists every pair of the lockstep walk, each round to the longer solve's end, the shorter held at its last cost |
| EarlyStop.RanNeverFalls | scripts/scanlines_race_early_stop.py:93-96 | Iterations run never fall along the pairs and never exceed a solve's total |
| EarlyStop.EveryStepIsPaired | scripts/scanlines_race_early_stop.py:87-94 | Every step of every round up to the longer solve's last has its pair |
| EarlyStop.PairSays | scripts/scanlines_race_early_stop.py:91-94 | A pair holds each solve's cost at the step, or at its last once it has finished the round, in units of the round's mean squared noise, and the iterations run by then |
| EarlyStop.BeforeCounts | scripts/scanlines_race_early_stop.py:86-96 | Iterations run before a round are, round by round, one fewer than its costs |
| EarlyStop.Sigma2IsMean | scripts/scanlines_race_early_stop.py:75-77 | The unit is the mean of the two solves' squared noise |
| EarlyStop.RateIsMeanGain | scripts/scanlines_race_early_stop.py:100-107 | The rate is what the solve gained over the window per step: none before a first step, standing at the last window after its end |
| EarlyStop.LeftNeverRises | scripts/scanlines_race_early_stop.py:123 | The iterations left never rise from a pair to a later one |
| EarlyStop.LeftCounts | scripts/scanlines_race_early_stop.py:123 | In the last round the budget leaves max_iters less those run, down to none; a step within a round takes one off while any of the round's are left; at a round's start every round from it on has all |
| EarlyStop.JudgeSays | scripts/scanlines_race_early_stop.py:120-130 | A decision: the dearer solve trails, the second on a tie; it holds if and only if that solve is not past the last step of its last round, the gap is over the threshold, there is a rate, and under the budget test the gap is more than rate times iterations left |
| EarlyStop.BudgetClosesGap | scripts/scanlines_race_early_stop.py:130 | The budget test fails if and only if that rate closes the gap within the iterations left |
| EarlyStop.JudgeRoundSays | scripts/scanlines_race_early_stop.py:149-160 | A round's decision: the same of the last costs, the rate being the mean drop over the last three rounds, each in its own units, against the rounds left |
| EarlyStop.RunCounts | scripts/scanlines_race_early_stop.py:131-138 | The streaming counter reaches K if and only if the last K counted decisions all hold with one trailing solve |
| EarlyStop.EvaluateIteration | scripts/scanlines_race_early_stop.py:110-140 | It fires at the first pair where that is so, round starts neither counted nor resetting, and reports that pair, or not at all |
| EarlyStop.EvaluateRound | scripts/scanlines_race_early_stop.py:143-170 | The same per schedule round |
| EarlyStop.NothingLeftExactly | scripts/scanlines_race_early_stop.py:83-96 | A solve has iterations left after a step if and only if the step is short of its round's last or a later round of it runs any |
| EarlyStop.FiringSavesExactly | scripts/scanlines_race_early_stop.py:124-139 | What the rule stops had iterations left to save if and only if that holds where it fires |
| EarlyStop.FiringCanSaveNothing | scripts/scanlines_race_early_stop.py:124-127 | A race the rule fires in with every iteration of the solve it stops already run |
| EarlyStop.StricterNeverEarlier | scripts/scanlines_race_early_stop.py:110-140 | A higher threshold, a longer run or the budget test never moves the firing pair earlier |
| EarlyStop.StricterRoundNeverEarlier | scripts/scanlines_race_early_stop.py:143-170 | Nor the round reported when the rule is read at round ends |
| GroundTruth.Index.constructor | scripts/kdf_constellation_eval.py:186-213 | The sorted keys and the runs per point are built from exactly the rows whose image the corpus holds, renumbered |
| GroundTruth.KeptRowsAre | scripts/kdf_constellation_eval.py:186-194 | The rows kept are, in order, exactly those of an image the corpus names, each with its own feature and point and the last corpus index that names its image |
| GroundTruth.Index.PointOf | scripts/kdf_constellation_eval.py:234-241 | The packed-key binary search answers as the first hit of a scan of the rows, -1 where there is none |
| GroundTruth.SearchIsScan | scripts/kdf_constellation_eval.py:196-200 | Where the search lands in the stably sorted keys is the first matching row |
| GroundTruth.PointOrderIsRuns | scripts/kdf_constellation_eval.py:202-207 | Cut at the offsets, the stable order by point gives each point its rows in row order |
| GroundTruth.Index.Correspondences | scripts/kdf_constellation_eval.py:243-265 | The lists read off the runs are those a scan of all rows per feature gives, in order |
| GroundTruth.SlotMatchesAre | scripts/kdf_constellation_eval.py:250-262 | A feature's matches are, in row order, the image and feature of exactly the rows of its point in other images |
| GroundTruth.MatchesBySlot | scripts/kdf_constellation_eval.py:250-265 | The correspondences are the features' lists end to end |
| GroundTruth.Index.Covisible | scripts/kdf_constellation_eval.py:210-232 | The set is exactly the other images that share a point, and what was worked out before stays |
| GroundTruth.CovisibleIsSymmetric | scripts/kdf_constellation_eval.py:210-217 | Covisibility is mutual |
| GroundTruth.MatchesAreCovisible | scripts/kdf_constellation_eval.py:210-249 | Every image a correspondence names is covisible with the query's |
| NeighbourCells.ImageOfFeature | scripts/kdf_constellation_eval.py:290-292 | The search names the one image whose stretch of the corpus holds the feature, empty images included |
| NeighbourCells.HitsAreNeighbours | scripts/kdf_constellation_eval.py:316-328 | Every hit kept is a neighbour of its own row, by image and index within it, in another image |
| NeighbourCells.NeighboursAreHits | scripts/kdf_constellation_eval.py:316-328 | And every neighbour in another image gives a hit |
| NeighbourCells.RowHitsAre | scripts/kdf_constellation_eval.py:316-328 | A list's hits are, in the list's own order, exactly its neighbours that are not missing and lie in another image |
| NeighbourCells.HitsByRow | scripts/kdf_constellation_eval.py:316-328 | The batch's hits are the lists' hits end to end |
| NeighbourCells.CountMultiplicity | scripts/kdf_constellation_eval.py:330-358 | The counts are those of sets of cells: hit at all, hit twice or more, and of the latter with the first hit true or with a true one only further on; extra hits are hits less cells |
| NeighbourCells.ExtraHitsAreHitsLessCells | scripts/kdf_constellation_eval.py:343-356 | The hits beyond the first of each crowded cell are exactly the hits the cells leave over |
| NeighbourCells.OfferedCorrespondences | scripts/kdf_constellation_progressive_eval.py:1152-1160 | Per image, in list order, the entries of the hits that are first of their cell |
| NeighbourCells.OffersAre | scripts/kdf_constellation_progressive_eval.py:1152-1160 | What an image is offered is, in list order, the row and feature of exactly the hits in it that are the first of their row there |
| NeighbourCells.OfferedImages | scripts/kdf_constellation_progressive_eval.py:1152-1160 | The images offered something are exactly those of the hits, once each |
| NeighbourCells.FirstHitsAreCells | scripts/kdf_constellation_progressive_eval.py:1152-1160 | One hit is offered per cell, the cells in the order they were first hit |
| NeighbourCells.FirstHitsAreHeads | scripts/kdf_constellation_progressive_eval.py:1128-1136 | The hit offered for a cell is the first, so the nearest, of the list the other script counts for it on the same hits |
| NeighbourCells.OffersTotalCells | scripts/kdf_constellation_progressive_eval.py:1152-1160 | The offered lists together hold one entry per cell |
| Grouping.GroupsConserve | scripts/kdf_constellation_eval.py:330-332 | Grouping under keys neither loses nor repeats a value |
| Grouping.FirstSeenInOrder | scripts/kdf_constellation_progressive_eval.py:1152-1160 | A key ahead of another came before the other first did |
| ExactNearest.Find | scripts/benchmark_kdf_layouts.py:157-191 | For every block sizes of at least 1 each query gets the index of its nearest row as 32 bits hold it, and 0 from an empty index |
| ExactNearest.NearestRowIsNearest | scripts/benchmark_kdf_layouts.py:157-171 | That row is at the least squared distance and the first of those tied |
| ExactNearest.DistanceZeroExactly | scripts/benchmark_kdf_layouts.py:164-167 | A row is at distance zero if and only if it is the query |
| ExactNearest.ComparedIsDistance | scripts/benchmark_kdf_layouts.py:182-185 | What is compared differs from the squared distance by the query's own norm alone |
| ExactNearest.WordHoldsIndex | scripts/benchmark_kdf_layouts.py:180-190 | Up to 2^32 rows the stored index is the nearest row's |
| ExactNearest.SinglePrecisionIsExact | scripts/benchmark_kdf_layouts.py:174-176 | On 128 bytes every value formed, in any order of adding, is an integer of magnitude at most 2*128*255^2 < 2^24 |
| WorkspacePath.NormalizeWorkspacePath | src/sfmtool/_filenames.py:122-208 | The push and pop loop with its checks computes the normaliser the statements below are about |
| WorkspacePath.RefusedAtStart | src/sfmtool/_filenames.py:124-160 | Which paths are refused as not relative, and which as a drive's |
| WorkspacePath.ComponentsAre | src/sfmtool/_filenames.py:161-166 | The components joined by slashes are the path with its backslashes turned, and hold none |
| WorkspacePath.JoinOfSplit | src/sfmtool/_filenames.py:165-166 | Splitting at slashes and joining gives the path back |
| WorkspacePath.StackIsLocation | src/sfmtool/_filenames.py:165-185 | The stack is some parents then names only: as many parents as the walk climbs above its start, and the names that lead down from there |
| WorkspacePath.AcceptedExactly | src/sfmtool/_filenames.py:124-205 | Accepted if and only if relative, without a drive, never dropping above the start at any prefix, and no name the walk leads down to starts with two dots |
| WorkspacePath.EscapingIsRejected | src/sfmtool/_filenames.py:190-205 | A walk that drops above the workspace at some prefix is always refused |
| WorkspacePath.DottedNameIsRejected | src/sfmtool/_filenames.py:190-197 | A path that does not escape and is refused |
| WorkspacePath.ResultLeadsThere | src/sfmtool/_filenames.py:165-208 | An accepted result has no empty, dot or dot-dot component, no backslash, and leads where the input leads |
| WorkspacePath.NormalizeTwice | src/sfmtool/_filenames.py:152-208 | An accepted result normalises to itself, or is refused when its second character reads as a drive |
| WorkspacePath.ResultCanReadAsDrive | src/sfmtool/_filenames.py:152-208 | An accepted path whose result is refused so |
| Histogram.EstimateIsPercentile | src/sfmtool/_histogram_utils.py:9-46 | The value lies between the ends, the piecewise-linear cumulative count there is exactly the percentile's share, and no place to the left has it |
| Histogram.PlaceIsLeastReaching | src/sfmtool/_histogram_utils.py:27-44 | The bucket search and interpolation land on the least place with the target count |
| Histogram.CumulativeIsLinear | src/sfmtool/_histogram_utils.py:37-42 | Between a bucket's ends the cumulative count runs straight by the bucket's count |
| Histogram.WidthsFromLeft | src/sfmtool/_histogram_utils.py:31-35 | The value is as many widths from the left end as the place is buckets, the widths making up the range |
| Histogram.EmptyIsMiddle | src/sfmtool/_histogram_utils.py:22-24 | An empty histogram gives the middle of the range |
| Histogram.EstimateIsMonotone | src/sfmtool/_histogram_utils.py:9-46 | A higher percentile never reads a lower value |
| BudgetSearch.BudgetForRecall | scripts/kdf_leaf_size.py:65-86 | The ladder loop and the bisection return the outcome the statements below are about |
| BudgetSearch.SearchIsSound | scripts/kdf_leaf_size.py:65-86 | Empty, with the last budget's recall, if and only if every listed budget falls short; otherwise the budget meets the target and the one below does not |
| BudgetSearch.FirstRungIsBisected | scripts/kdf_leaf_size.py:70-84 | What comes back, with its own recall, is bisected between the first rung that meets the target and the rung before it |
| BudgetSearch.LeastIsFoundExactly | scripts/kdf_leaf_size.py:68-86 | The least budget meeting the target is returned if and only if the first rung at or above it meets the target and so does every candidate at or above it on the bisection from there; whatever is returned is no smaller |
| BudgetSearch.SearchFindsLeast | scripts/kdf_leaf_size.py:68-86 | Where recall stays at the target once there, what is returned is the least budget meeting it, and none is returned only if no budget up to the last rung meets it |
| BudgetSearch.SearchCanMissLeast | scripts/kdf_leaf_size.py:68 | A recall whose least budget meeting the target, 3, is passed over for 16, that condition failing |

## Left out

- DistanceRange.RangeIsSound: distances are their base-2 logarithms, so a doubling is a step of one and a square root of a product a midpoint; rounding of the square roots is not modelled.
- DepthLayers.LayersAreComponents: each range is taken with near no further than far, as the distance search gives it; the nearest pixel distance and view count put on a layer afterwards are left out.
- MatchTracks.BuildTracks: node numbers are unbounded integers; the 64-bit columns they are read from are not modelled.
- GroundTruth.Index.PointOf: features are below 2^32, as the packing assumes; images whose shifted number overflows 64 bits are not modelled.
- GroundTruth.Index.constructor: the check that the tracks carry feature indexes, and the error numpy raises when no row is kept, are left out.
- LeafPacking.GreedyIsPermutation: a leaf naming an id twice, which the forest never gives, is left out.
- ReferenceView.BetterAgreementKeepsThePick: as its companion on cleaner readings, for scales above zero and radii and angle factors not negative; the rule's own form has such factors, the one by median ray angle only while no median passes 90 degrees.
- ReferenceView.Choose: tangents, powers of secants, angles between rays and hypotenuses are arbitrary functions; a radius of zero under the quadrature, where the script divides by it, is left out.
- AngleForms.QuadratureOrder: for views of positive radius and a term not negative, where the hypotenuse is one; that function is otherwise arbitrary.
- EarlyStop.EvaluateIteration: noise levels are not zero and each round has a starting cost, as a recorded race has them.
- Prominence.Measure: of a reading that is read, the only kind the caller asks about (scripts/track_at_pixel/anchors.py:1272).
- MortonOrder.OrderProjection: the principal axes and projections are left out; any one ranking of the points per axis stands for them.
- CsrEdits.Materialise: columns are sequences of arbitrary cells with one zero; shapes, integer widths of the columns and the timing are left out, and the random draws are parameters.
- Rounding, NaN and signed zeros: numbers are reals or unbounded integers wherever the statement is not about the word.
- The Rust crates behind the bindings (the forest search, the solves, the bench's readings): their results are arbitrary inputs.
- Triangulation, projection, ZNCC sampling, principal components, `vet_cluster` and its robust refit: linear algebra and photometry.
- `grow_radius`, `best_runs`, `split`, `stable_sign`, `schedule_stages`, `first_hit`, `locked`, `plateau` and `render_histogram_string`: short scans over results of other crates, or samplers and printers.
- The ranking and confidence of layers, bootstrap intervals and summary tables: fitted statistics.
- Command line, JSON, drawing, timing loops and file handling: plumbing.
