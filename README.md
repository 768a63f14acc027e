# River-track extraction, modelled in Dafny

This project models the core of the Catoca tailings-failure analysis scripts.
Satellite rasters of turbidity, hue angle and water reflectance are sampled
along a pixel path that follows the river. The per-scene series are stitched
into one along-river track, and the rows that repeat a coordinate pair are
dropped. The model also covers the raster helpers the path generation relies
on:

- the water mask;
- nearest-cell lookup;
- the envelope test;
- the choice and ordering of the river's start and end cells;
- the in-place narrowing of the mask to the buffered river.

NaN is modelled as `None` in an `Option<real>`. The exceptions modelled are
the six constructors of `Common.Error`, each an `Err` of a `Result`:

- `UnknownDirection`: the `ValueError` of `get_start_end` (scripts/functions.py:175).
- `EndpointsUnbound`: an intersection type no branch of `classify_river` handles, leaving the endpoints unbound.
- `TooFewIntersections`: a `MultiPoint` with fewer than two members, where `it[-2]` fails.
- `ClosedRiver`: a closed river line, whose empty boundary cannot be unpacked into `s, e`.
- `FloatRange`: the `TypeError` of `range` with a float bound (scripts/extract_data_along_river_paths.py:51), raised only by `Stitcher.SearchBoundAsWritten`; see Findings.
- `RhowUnbound`: the `NameError` of building the table after no scene (scripts/extract_data_along_river_paths.py:65).

The exceptions that preconditions rule out are listed under "## Left out".

Modules, one per concern:

- `Common` (common.dfy): options, errors, cells, points, rasters.
- `Stats` (stats.dfy): insertion sort and the median `np.nanmedian` takes over the non-NaN values.
- `Sampler` (sampler.dfy): `get_pixel_values`, with Python's slice semantics, including a negative window start.
- `Grid` (grid.dfy): `find_index_nearest`, `find_closest_cell`, `inside_matrix`, pixel coordinates.
- `Classifier` (classifier.dfy): `classify_water`, `get_start_end`, `classify_river`.
- `Stitcher` (stitcher.dfy): the splice-point search, the splice, and the accumulator class `Track`.
- `Dedup` (dedup.dfy): `drop_duplicates(subset=['Latitude', 'Longitude'], keep='first')`.
- `Extraction` (extraction.dfy): one date of the extraction script, from scene rasters to the deduplicated table.

The imperative parts are methods:

- `get_pixel_values` is a loop that appends.
- `classify_water` fills a fresh two-dimensional array.
- `classify_river` overwrites the caller's mask in place.
- The splice-point search is the nested loop of the script.
- The six accumulator arrays are the fields of a `Track` object that every scene reassigns.

Behaviour of the code worth knowing:

- With integer halving at line 51 (`Stitcher.SearchBound`), an accumulator of fewer than four points has no tail position to search, so the next scene replaces it (scripts/extract_data_along_river_paths.py:51-58, `Stitcher.ShortTrackReplaced`).
- With the same corrected bound, an empty next scene wipes the accumulated track (scripts/extract_data_along_river_paths.py:52-58, `Stitcher.EmptySceneClearsTrack`).
- A negative window start is read from the bottom of the raster, so in a raster at least `2*group` rows high a cell within `group` rows of the top gets NaN (scripts/functions.py:58, `Sampler.NearTopEdgeNaN`).
- The geometry library reports an empty intersection as a `GeometryCollection`, which the code treats like a river lying wholly inside the raster: both river end vertices are used.

## Model

| member | source | states |
|---|---|---|
| Stats.SortSorted | scripts/functions.py:66 | the sorted copy of the survivors is in ascending order |
| Stats.CountSort | scripts/functions.py:66 | sorting keeps every value's multiplicity (the sorted copy is a permutation) |
| Stats.SortPermutation | scripts/functions.py:66 | the sorted copy is a permutation of the survivors: `multiset(Sort(s)) == multiset(s)` |
| Stats.MedianSplits | scripts/functions.py:66 | at least half of the values are `<=` the median and at least half are `>=` it |
| Stats.MedianBetween | scripts/functions.py:66 | some value is `<=` the median and some value is `>=` it |
| Stats.MedianWithin | scripts/functions.py:66 | a median of values that all lie in `[lo, hi]` lies in `[lo, hi]` |
| Sampler.Norm | scripts/functions.py:58 | a slice bound is clamped to `[0, n]`, and one already in range is unchanged |
| Sampler.SliceAt | scripts/functions.py:58 | `s[a:b]` holds exactly the elements between the normalised bounds, in order |
| Sampler.BlockHas | scripts/functions.py:58 | every value of the window comes from a pixel in the window's rows and columns |
| Sampler.BlockFrom | scripts/functions.py:58 | every pixel in the window's rows and columns is in the window |
| Sampler.SurvivorsContain | scripts/functions.py:59-63 | a value survives the filter iff it is a number of the window with `value <= max` (if set) and `value >= min` (if set) |
| Sampler.SurvivorsMultiset | scripts/functions.py:59-63 | the survivors hold each number of the window that passes the filter exactly as often as the window does, and nothing else |
| Sampler.SampleCell | scripts/functions.py:57-68 | one path cell's value: the windowed median (NaN when nothing survives) or the pixel itself |
| Sampler.GetPixelValues | scripts/functions.py:54-69 | one value per path cell, in path order; the k-th is the value of cell k, and with no window it is `matrix[r][c]`, NaN included |
| Sampler.WindowContains | scripts/functions.py:58 | a value is in `matrix[r-group:r+group, c-group:c+group]` iff some pixel the slice selects holds it |
| Sampler.AggregateNaN | scripts/functions.py:59-65 | the window's value is NaN iff no number of the window passes the filter |
| Sampler.AggregateMedian | scripts/functions.py:59-66 | a windowed number splits the survivors in half and lies within `[min, max]` when the bounds are set |
| Sampler.AggregateTighter | scripts/functions.py:59-63 | tightening `min`/`max` never turns a NaN output into a number |
| Sampler.WindowNaN | scripts/functions.py:57-65 | with a window, the cell's value is NaN iff no pixel the slice selects is a number passing the filter |
| Sampler.NearTopEdgeNaN | scripts/functions.py:58 | a cell fewer than `group` rows from the top (raster at least `2*group` high) gets an empty window and NaN |
| Sampler.WindowInterior | scripts/functions.py:58 | away from the top and left edges the slice selects exactly rows `r-group..r+group-1` and columns `c-group..c+group-1` that lie on the raster |
| Grid.ArgMinFrom | scripts/functions.py:74 | the scan returns the first index of a least element |
| Grid.ArgMin | scripts/functions.py:74 | `argmin` is the first index of a least element |
| Grid.IndexNearest | scripts/functions.py:72-75 | no index for an empty array (`argmin` raises); otherwise the first index minimising `abs(a[i] - v)` |
| Grid.FlattenLength | scripts/functions.py:84 | a rectangular array flattens to `rows * cols` values |
| Grid.FlattenAt | scripts/functions.py:84 | flat index `k` is row `k / cols`, column `k % cols` (`divmod`) |
| Grid.ClosestCell | scripts/functions.py:78-85 | the returned cell lies within the raster |
| Grid.ClosestCellAxes | scripts/functions.py:79-81 | on 1-D axes, row and column are independently the first nearest latitude and longitude |
| Grid.FlatArgMinCell | scripts/functions.py:82-84 | `divmod` of the first flat argmin is a least cell, and every cell before it in row-major order is strictly larger |
| Grid.ClosestCellMesh | scripts/functions.py:82-84 | on 2-D arrays no cell is closer, and earlier cells in row-major order are strictly farther |
| Grid.MeshDistOrder | scripts/functions.py:83 | ordering by the squared-then-squared distance is ordering by squared Euclidean distance |
| Grid.SeqMin | scripts/functions.py:170 | `np.min` is an element and below every element |
| Grid.SeqMax | scripts/functions.py:170 | `np.max` is an element and above every element |
| Grid.BetweenIff | scripts/functions.py:169-170 | `np.min(s) < v < np.max(s)` iff some coordinate is below `v` and some above it; `inside_matrix` is this test on the longitudes and on the latitudes |
| Classifier.ClassifyWater | scripts/functions.py:142-149 | a fresh mask of the matrix's shape, true exactly at numbers not below a numeric threshold |
| Classifier.StartEnd | scripts/functions.py:173-185 | `ValueError` iff the direction is not N, S, E or W; otherwise the pair, swapped only if needed, heads in the direction |
| Classifier.RiverLine.Ends | scripts/functions.py:203 | the boundary unpacks into the first and last vertex, and fails for a closed line |
| Classifier.BoundaryCells | scripts/functions.py:202-215 | the cells per intersection type (Point: hit plus start vertex if strictly inside, else end vertex; MultiPoint: last two; GeometryCollection: both ends); an error exactly for other types, short MultiPoints and closed rivers |
| Classifier.Endpoints | scripts/functions.py:202-217 | on success the result is the pair of boundary cells, swapped only when they do not already head in the direction; both cells are in the raster and ordered along the direction; an error iff the boundary cells fail or the direction is unknown |
| Classifier.NarrowRow | scripts/functions.py:224 | one row of the mask is narrowed to the buffer and the other rows are untouched |
| Classifier.NarrowMask | scripts/functions.py:196-197 | each pixel becomes true iff it was true and its (lon, lat) lies in the buffer |
| Classifier.ClassifyRiver | scripts/functions.py:188-225 | returns the ordered endpoints; on an error the mask is untouched, otherwise it is narrowed to the buffered river |
| Stitcher.Cut | scripts/extract_data_along_river_paths.py:58 | `s[0:-i]` is empty for `i == 0` and drops the last `i` elements otherwise |
| Stitcher.Drop | scripts/extract_data_along_river_paths.py:58 | `s[j:]` is the suffix from `j` |
| Stitcher.Splice | scripts/extract_data_along_river_paths.py:58-63 | splicing every array keeps the six arrays of one length |
| Stitcher.SpliceRows | scripts/extract_data_along_river_paths.py:58-63 | the table rows of the splice are the accumulator's cut rows followed by the scene's rows from `j` |
| Stitcher.SpliceShape | scripts/extract_data_along_river_paths.py:58-63 | length `len(acc) - i + len(next) - j`, at most `len(acc) + len(next) - 1`; a prefix of the accumulator then a suffix of the scene; `acc[-i]` dropped and `next[j]` kept |
| Stitcher.SpliceNoCandidate | scripts/extract_data_along_river_paths.py:48-50 | with no candidate, `i_c = j_c = 0`, and the result is the next scene |
| Stitcher.SearchBound | scripts/extract_data_along_river_paths.py:51 | at most 100 and at most half the accumulator; 100 from 200 points on |
| Stitcher.SearchBoundAsWritten | scripts/extract_data_along_river_paths.py:51 | `range` accepts the bound iff the accumulator has at least 200 points |
| Stitcher.SearchBoundAgrees | scripts/extract_data_along_river_paths.py:51 | where the written bound works, it equals the corrected bound |
| Stitcher.SearchBoundAsWrittenFails | scripts/extract_data_along_river_paths.py:51 | a 10-point accumulator makes the written code raise, while the corrected bound is 5 |
| Stitcher.FindSplice | scripts/extract_data_along_river_paths.py:48-57 | the pair found is the first closest pair below the initial distance over `1 <= i < K`, `0 <= j < len(next)`; `(0, 0)` if none |
| Stitcher.BestPairUnique | scripts/extract_data_along_river_paths.py:48-57 | the strict `<` makes the search result unique: ties keep the earliest pair |
| Stitcher.ShortTrackReplaced | scripts/extract_data_along_river_paths.py:51-58 | an accumulator of fewer than four points is replaced by the next scene |
| Stitcher.EmptySceneClearsTrack | scripts/extract_data_along_river_paths.py:52-58 | an empty next scene leaves an empty track |
| Stitcher.StepDeterministic | scripts/extract_data_along_river_paths.py:45-63 | one pass of the scene loop has one outcome |
| Stitcher.SpliceRowFrom | scripts/extract_data_along_river_paths.py:58-63 | every row of a splice is a row of the accumulator or of the scene |
| Stitcher.MergeStep | scripts/extract_data_along_river_paths.py:45-63 | what `Track.Merge` promises is one pass of the scene loop |
| Stitcher.StepRows | scripts/extract_data_along_river_paths.py:45-63 | a pass invents no row |
| Stitcher.Track.constructor | scripts/extract_data_along_river_paths.py:24 | the accumulator starts empty |
| Stitcher.Track.Merge | scripts/extract_data_along_river_paths.py:45-63 | the first non-empty accumulator is the scene unchanged; afterwards the arrays are spliced at the pair the search finds |
| Dedup.SubsequenceIn | scripts/extract_data_along_river_paths.py:67 | a subsequence holds only rows of its source |
| Dedup.DedupKeys | scripts/extract_data_along_river_paths.py:67 | the scan keeps distinct keys, exactly those not seen before |
| Dedup.DedupSubsequence | scripts/extract_data_along_river_paths.py:67 | the scan only removes rows and keeps their order |
| Dedup.SeenIffRepeat | scripts/extract_data_along_river_paths.py:67 | a row's key was seen earlier iff the row is not its key's first occurrence |
| Dedup.DedupIsFirsts | scripts/extract_data_along_river_paths.py:67 | scanning a suffix, with the prefix's keys seen, keeps exactly that suffix's first occurrences |
| Dedup.DropDuplicatesFirsts | scripts/extract_data_along_river_paths.py:67 | the result is the first occurrence of every key, in table order |
| Dedup.DropDuplicatesSpec | scripts/extract_data_along_river_paths.py:67 | no two output rows share (lat, lon), every input key survives, and the output is a subsequence |
| Dedup.DedupKeepsDistinct | scripts/extract_data_along_river_paths.py:67 | a table with distinct keys is left as it is |
| Dedup.DropDuplicatesIdempotent | scripts/extract_data_along_river_paths.py:67 | dropping duplicates twice is dropping them once |
| Extraction.Sampled | scripts/extract_data_along_river_paths.py:38-43 | a scene's six arrays have the path's length |
| Extraction.SampledRows | scripts/extract_data_along_river_paths.py:38-43 | every row carries the scene tag and its cell's coordinate pixels, and a numeric turbidity lies in `[0, 10000]` |
| Extraction.BuildScene | scripts/extract_data_along_river_paths.py:38-43 | the five `get_pixel_values` calls and the repeated tag give the scene's series |
| Extraction.TrailExtend | scripts/extract_data_along_river_paths.py:26-63 | merging the next scene extends the record of accumulators by one pass of the loop |
| Extraction.Advance | scripts/extract_data_along_river_paths.py:45-63 | one pass of the scene loop: the track is merged with the scene and the record of accumulators grows by its new contents |
| Extraction.TrailDeterministic | scripts/extract_data_along_river_paths.py:26-63 | the scene loop has one outcome |
| Extraction.TrailRows | scripts/extract_data_along_river_paths.py:26-63 | every row of the stitched track is a row of one of the scenes |
| Extraction.SingleScene | scripts/extract_data_along_river_paths.py:45-46 | with one scene the track is that scene |
| Extraction.ExtractTrack | scripts/extract_data_along_river_paths.py:24-67 | with no scene, building the table fails; otherwise the table is the deduplicated rows of the track the scene loop stitches |
| Extraction.TableSpec | scripts/extract_data_along_river_paths.py:65-67 | the written table has distinct coordinate pairs, its rows come from the scenes, and one scene is written as sampled |

## Left out

- File and console plumbing is not modelled: `log`, `parse_netcdf`, directory listing, JSON path files and CSV output. The rasters, paths and bounding-box tags are parameters. So is the choice between the `rhow_864` and `rhow_865` variables.
- Plotting and the interactive lasso deselection (`plot_graph`, `plot_matrix`, `plot_matrix_select`) are user interface code.
- `haversine`, `nan_helper` and `smooth` are floating-point trigonometry and convolution that the modelled core does not use.
- The geometry library is not modelled:
  - reading the river file;
  - building the boundary rectangle;
  - `intersection`;
  - `buffer`;
  - `Path.contains_points`.
  The intersection's type and points are an input (`Classifier.Intersection`), and buffer containment is a predicate on points.
- `get_intersections` builds lists and returns nothing, so it is dead code.
- `scripts/generate_river_paths.py` and the `sencast` driver are not part of this model. They are batch drivers around external tracing and processing.
- Classifier.ClassifyWater: the threshold is `Option<nat>`, which covers the values whose text is numeric. A threshold string such as `"5"`, which passes `isnumeric` and then fails the comparison, is not modelled.
- Classifier.NarrowMask: the gather `x[matrix]` and scatter `matrix[matrix] = grid` are modelled pointwise, pixel by pixel, with the same result.
- Grid.ClosestCell: coordinates are real numbers; NaN coordinates, for which `argmin` returns the first NaN, are not modelled.
- Stitcher.FindSplice: distances are compared as squares against the square of the initial `dist`, which is equivalent because both sides are non-negative. It uses the corrected `SearchBound` (see Findings).
- Sampler.GetPixelValues: without a window the path cells must lie on the raster. The code would raise `IndexError` otherwise, and the paths are generated on the same raster. Path cells are non-negative, so Python's negative-index wrapping of a single pixel does not arise.
- Stitcher.Track.Merge, Extraction.ExtractTrack, Stitcher.ShortTrackReplaced, Stitcher.EmptySceneClearsTrack: all use the corrected `SearchBound`, so the script's `FloatRange` failure at scripts/extract_data_along_river_paths.py:51 (any second scene after an accumulator shorter than 200 points) is never an outcome of `ExtractTrack`; `r.Err?` there describes the corrected script. As written, the accumulators of fewer than four points and the empty next scene that the two lemmas describe raise that `TypeError` instead.
- Preconditions exclude three exceptions of the code: the `IndexError` of a path cell off the raster (`Sampler.PathFits`), `argmin` on an empty axis (`Grid.Coords.Valid`), and the `TypeError` of comparing with a threshold string that passes `isnumeric` (`Classifier.ClassifyWater` takes `Option<nat>`).
- Extraction.ExtractTrack: models one date. The script's `rhow_arr` is never reset between dates, which matters only for a later date with no scene; with a single date, that case is the `RhowUnbound` error.
- Values are unbounded reals, not 64-bit floats: rounding in the median's average and in the distances is not modelled.

## Findings

| source | as written | input that shows it | evidently intended | confidence | as-written member | corrected member |
|---|---|---|---|---|---|---|
| scripts/extract_data_along_river_paths.py:51 | `range(1, min(100, len(lat_arr)/2))`: in Python 3 `len/2` is a float, so `range` raises `TypeError` whenever the float is the minimum, that is for every accumulator shorter than 200 points | a first scene of 10 points followed by any second scene | integer halving, `min(100, len(lat_arr) // 2)` | not executed; high | Stitcher.SearchBoundAsWrittenFails | Stitcher.SearchBound |
