# Carcassonne map placement — a Dafny model

This project models how the Carcassonne map generator grows its map. The map's outline is
a closed cycle of grid points called the **boundary** (`boundary.py`). Each point carries
the label of the edge that leaves it. Laying a tile **merges** the tile's unit square into
the boundary along their single **common segment**, a triple `(i, j, L)`. The triple says
that the walk forwards from point `i` of the boundary meets the walk backwards from point
`j + L` of the tile on `L + 1` points.

`carcassonne.py` keeps the free cells next to the map in a **candidate index**
(`CandidateTiles`):

- Positions are kept in an ordered list. Deleted entries stay in the list as tombstones
  until a resize drops them.
- Cells are ranked by contact length (longest first), with ties broken by L1 distance to
  the centre.
- After each placement, `update_border_and_candidate_tiles` merges the tile, rebuilds the
  cells around it and re-ranks the index.

The model has these modules:

- `Vectors` (`vect.dfy`): vectors, quarter turns, the cross product and the `(x, y)` key.
- `Outlines` (`outline.dfy`): the boundary as a value `Outline(points, labels)`. This covers
  cyclic slices, edges, orientation by the sum of turn cross products, `bottomleft`,
  `from_edge` and `get_tile`.
- `Segments` (`segments.dfy`): `common_segments`. It covers matching points, joining them
  into runs, the wrap-around fix-up, and the counterexample against the fix-up as written.
- `Boundaries` (`boundary.dfy`): the mutable `Boundary` class, with `append`, `__append`,
  `__replace`, `common_segments` and `merge`.
- `Sorting` (`sorting.dfy`): Python's stable `list.sort` as an insertion sort, and
  `filter` / `filterfalse`.
- `Tiles` (`tiles.dfy`): `PositionedTile` / `PlacedTile`, the segment getters,
  `get_boundary`, `iter_segment` / `iter_complement_segment`, `TileSubset.partition_iter`,
  `iterate_tilesets` and `select_tile_placement`.
- `Candidates` (`candidates.dfy`): the class `CandidateTiles`, with the invariant that links
  the position list, the tile map and the tombstone count.
- `Placement` (`placement.dfy`): `from_boundary_edge` and
  `update_border_and_candidate_tiles`.
- Helpers: `Wrappers` (`wrappers.dfy`), `Modular` (`modular.dfy`) and `SeqFacts`
  (`seqs.dfy`).

A Python `assert` that a caller can actually trigger is modelled as an error result
(`Checked`, `AssertionFailure`). These are: unique points in `common_segments`; the single
segment and equal orientation in `merge`; the tombstone tail checked by `__resize` when it
is reached from `sort`. Asserts that always hold are proved instead:

- the length law of `merge`;
- `nb_to_be_deleted > 0` when an entry is restored;
- `allocated() == len() + nb_to_be_deleted`.

## Model

| member | source | states |
|---|---|---|
| `Vectors.Vect.Rotate` | boundary.py:43-52 | a quarter-turn rotation maps the zero vector, and only it, to zero |
| `Vectors.Vect.L1Distance` | carcassonne.py:198-199 | the L1 distance is non-negative, zero exactly at the centre, and bounds both coordinates |
| `Vectors.Vect.Add` | boundary.py:19-20 | moving a point by a step leaves it in place exactly when the step is zero |
| `Vectors.Vect.Sub` | boundary.py:23-24 | the step between two points is zero exactly when the points coincide |
| `Vectors.Vect.Mult` | boundary.py:35-36 | `mult(-1)` gives the opposite vector, which added back gives zero, and `mult(0)` gives zero |
| `Vectors.Vect.CrossZ` | boundary.py:39-40 | the cross product of a vector with itself is 0 |
| `Vectors.Vect.CmpKey` | boundary.py:55-56 | the key `(x, y)` determines the vector, so no two points share a key |
| `Vectors.CrossUnitExample` | boundary.py:39-40 | `cross_z` of the x unit vector with the y unit vector is 1, and -1 the other way |
| `Vectors.QuarterTurns` | boundary.py:43-52 | `rotate(1)` is `(-y, x)` and `rotate(-1)` is `(y, -x)` |
| `Vectors.CrossAntisymmetric` | boundary.py:35-40 | `cross_z` is antisymmetric and vanishes on parallel vectors |
| `Vectors.CrossRotateInvariant` | boundary.py:39-52 | rotating both vectors by the same amount leaves `cross_z` unchanged |
| `Vectors.RotatePreservesNorm` | boundary.py:43-52 | rotation preserves the squared length |
| `Vectors.CrossWithQuarterTurn` | boundary.py:39-52 | the cross product of a vector with its own quarter turn is plus or minus its squared length |
| `Vectors.QuarterTurnCrossSign` | boundary.py:39-52 | that cross product is positive for a counter-clockwise turn, negative for a clockwise one, and zero only for the zero vector |
| `Vectors.FourQuarterTurnsSign` | boundary.py:120-127 | four equal quarter turns have a turn sum with the sign of the turn direction |
| `Vectors.CrossNegated` | boundary.py:35-40 | negating both vectors keeps `cross_z` |
| `Vectors.RotatePeriodic` | boundary.py:43-44 | `rotate(r)` depends only on `r % 4` |
| `Vectors.RotateCompose` | boundary.py:43-52 | rotations compose by adding their counts, and four quarter turns are the identity |
| `Vectors.KeyLeTotalOrder` | boundary.py:55-56 | the `(x, y)` key order is total, antisymmetric and transitive on vectors |
| `SeqFacts.DistinctIffCard` | boundary.py:130-131 | a point list has distinct points exactly when its set of points is as large as the list |
| `Outlines.Slice` | boundary.py:101-111 | `slice(i, j)` is valid and has the cyclic length from `i` to `j` (the whole cycle when `i ≡ j`); entry `k` is point and label `(i + k) % n` |
| `Outlines.SliceBetween` | boundary.py:105-110 | for reduced `imod` and `jmod`, the slice has `jmod - imod` entries, or `n - imod + jmod` when it wraps |
| `Outlines.SliceAt` | boundary.py:101-111 | each entry of the two-branch slice is the original entry `(i + k) % n` |
| `Outlines.SliceIndex` | boundary.py:102-110 | arithmetic for indexing inside and across the wrap of a cyclic slice |
| `Outlines.Concat` | boundary.py:91-93 | appending one boundary to another keeps points and labels paired and adds the lengths |
| `Outlines.GetEdge` | boundary.py:114-117 | `get_edge(idx)` leads from point `idx % n` to point `(idx + 1) % n` |
| `Outlines.EdgeWalk` | boundary.py:114-117 | the first `k` edges add up to the step from point 0 to point `k % n` |
| `Outlines.EdgesSumToZero` | boundary.py:114-117 | the edges of a closed boundary add up to zero |
| `Outlines.GetOrientation` | boundary.py:120-127 | `orientation()` is never `UNDEFINED`, and an empty boundary has orientation `0` |
| `Outlines.OrientationBySign` | boundary.py:120-127 | the orientation is counter-clockwise, clockwise or `0` as the turn sum is positive, negative or zero |
| `Outlines.EdgePeriodic` | boundary.py:114-121 | edges and turns repeat with the length of the cycle |
| `Outlines.TurnSumSplit` | boundary.py:121 | a turn sum over a range splits at any middle point |
| `Outlines.TurnSumWindow` | boundary.py:121 | the turn sum over any window of `n` turns equals the sum from 0 |
| `Outlines.WindowStep` | boundary.py:121 | moving a full window by one turn keeps its sum |
| `Outlines.ShiftedEdge` | boundary.py:101-117 | the edges of the rotation `slice(k, k)` are the original edges shifted by `k` |
| `Outlines.ShiftedTurn` | boundary.py:101-121 | the turns of `slice(k, k)` are the original turns shifted by `k` |
| `Outlines.ShiftedTurnSum` | boundary.py:101-121 | turn sums of `slice(k, k)` are the original turn sums shifted by `k` |
| `Outlines.TurnSumShift` | boundary.py:121 | two boundaries whose turns agree up to a shift have equal shifted turn sums |
| `Outlines.CyclicShiftKeepsOrientation` | boundary.py:101-127 | starting the cycle at another point does not change its orientation |
| `Outlines.SameTotalSameOrientation` | boundary.py:120-127 | boundaries with equal turn sums have equal orientation |
| `Outlines.Reversed` | boundary.py:120-127 | reversing a boundary keeps it valid and keeps its length |
| `Outlines.ReversedEdge` | boundary.py:114-117 | the edges of the reversed walk are the original edges negated, in reverse order |
| `Outlines.ReversedTurn` | boundary.py:121 | the turns of the reversed walk are the original turns negated, in reverse order |
| `Outlines.ReversedTurnSum` | boundary.py:121 | the turn sum of the reversed walk is the negated original turn sum |
| `Outlines.ReversalFlipsOrientation` | boundary.py:120-127 | reversal swaps clockwise and counter-clockwise and keeps `0`, in both directions |
| `Outlines.IsUniquePoints` | boundary.py:130-131 | `is_unique_points()` holds exactly when no point repeats |
| `Outlines.MinByKey` | boundary.py:198-200 | `min(points, key=cmp_key)` is one of the points and is no greater than any of them |
| `Outlines.BottomLeft` | boundary.py:198-200 | `bottomleft()` is the key of a point of the boundary and is at most the key of every point |
| `Outlines.GetTile` | boundary.py:218-225 | `get_tile(i, j, desc)` has four points starting at `(i, j)`, the labels `desc`, and edges that turn a quarter counter-clockwise each time from `(1, 0)` |
| `Outlines.GetTileOrientation` | boundary.py:218-225 | every tile boundary is counter-clockwise |
| `Outlines.GetTileBottomLeft` | boundary.py:198-225 | the bottom-left corner of `get_tile(i, j)` is `(i, j)` |
| `Outlines.GetTileUnique` | boundary.py:218-225 | a tile boundary has four distinct points |
| `Outlines.SquareTurns` | boundary.py:120-127 | a four-edge walk turning by equal quarter turns has a turn sum of four times one turn |
| `Outlines.QuarterTurnStep` | boundary.py:120-121 | each turn of such a walk is the cross product of the first edge with its quarter turn |
| `Outlines.FromEdge` | boundary.py:203-215 | `from_edge` lays four unlabelled points from `point`, starting in the direction fixed by the domain and turning a quarter each step; its orientation is the requested one, or `0` for a zero edge |
| `Outlines.StartDirection` | boundary.py:209-210 | inside, `from_edge` starts along the edge itself; its first direction is zero exactly when the edge is |
| `Outlines.StartDirectionSide` | boundary.py:209-210 | the first direction has the edge's length; outside, the edge is a quarter turn in the walking direction from it, so the square lies beyond the edge |
| `Outlines.TurnStep` | boundary.py:213-214 | turning the running direction once more gives the next multiple of the turn |
| `Outlines.WalkedSquare` | boundary.py:211-214 | the points the loop lays give edges `d0` turned `k` times and the matching turn sum |
| `Outlines.WalkedSquareOrientation` | boundary.py:203-215 | the walked square's edges and orientation follow from the requested orientation and domain |
| `Outlines.SquareOrientation` | boundary.py:120-127 | a square's orientation follows the direction of its quarter turns (zero edge: `0`) |
| `Segments.IndexOf` | boundary.py:134-135 | the index recorded for a point of a unique point list is where that point sits |
| `Segments.ZeroRuns` | boundary.py:147-151 | the length-0 segments are correct point matches, in increasing order of `i`, one per shared point |
| `Segments.StartsCons` | boundary.py:151 | the starts of a list with one more segment gain that segment's start |
| `Segments.PointRunsCons` | boundary.py:151 | a match before every other match can be put at the front of the sorted list |
| `Segments.RunLength` | boundary.py:158-166 | the inner loop stops at the last point that still extends the run, forwards in `i` and backwards in `j` |
| `Segments.JoinRuns` | boundary.py:154-169 | `recurse_join_segments` yields segments of non-negative length |
| `Segments.Expand` | boundary.py:167 | a joined segment `(i, j, L)` stands for `L + 1` point matches |
| `Segments.ExpandRunAt` | boundary.py:164-167 | point `k` of a run is recovered from the joined segment `(i, (prev_j - L) % m, L)` |
| `Segments.ExpandFirstRun` | boundary.py:157-168 | the first joined segment expands to the first run, and the recursion continues on what follows |
| `Segments.JoinRunsExpand` | boundary.py:154-169 | expanding the joined segments gives back exactly the sorted point matches, so nothing is lost or invented |
| `Segments.FirstRunSound` | boundary.py:157-167 | the first joined segment is a true common segment, starting and ending where its run does |
| `Segments.ExpandedMatch` | boundary.py:138-143 | a point match of the expansion is a match of the segment at that offset |
| `Segments.JoinRunsStraight` | boundary.py:154-169 | every joined segment is a true common segment that does not cross the end of this boundary |
| `Segments.PointRunsSuffix` | boundary.py:168 | the remaining matches after a run are still sorted matches |
| `Segments.StraightCons` | boundary.py:167-168 | consing a true segment keeps every segment true |
| `Segments.OrderedCons` | boundary.py:167-168 | a segment ending before the next one starts keeps the list ordered |
| `Segments.JoinRunsOrdered` | boundary.py:154-169 | the joined segments are ordered and do not overlap along this boundary |
| `Segments.JoinAcrossWrap` | boundary.py:176-177 | the fix-up drops the first segment and replaces the last with the joined one |
| `Segments.JoinAcrossWrapInPlace` | boundary.py:176-177 | the joined segment is `(i_last, j_first, L_first + L_last + 1)` |
| `Segments.WrapContiguousAsWritten` | boundary.py:175 | the wrap test as written agrees with the corrected one whenever the last run is a single point |
| `Segments.FixUp` | boundary.py:171-177 | the corrected fix-up merges at most once: either nothing changes, or the first segment goes, the middle ones stay, and the last one keeps its start and gains the first one's `L_first + 1` points |
| `Segments.FixUpAsWritten` | boundary.py:171-177 | the fix-up as written merges in the same way, under its own test |
| `Segments.ShorterThanBoth` | boundary.py:138-143 | a common segment shorter than a boundary with unique points is also shorter than the other |
| `Segments.StraightIsSound` | boundary.py:138-143 | a common segment inside a unique boundary is sound: it has length below both boundaries and all its points match |
| `Segments.AcrossWrapLastPart` | boundary.py:175-177 | under the intended wrap test, the joined segment matches on the last run's points |
| `Segments.AcrossWrapFirstPart` | boundary.py:175-177 | under the intended wrap test, the joined segment matches on the first run's points |
| `Segments.JoinAcrossWrapMatches` | boundary.py:171-177 | under the intended wrap test, joining the first and last runs gives a true common segment |
| `Segments.WrapContiguousIffContinues` | boundary.py:164-177 | for two true runs at the two ends of the first outline, the corrected gap test `(j_last - j_first) % len(other) == L_first + 1` holds exactly when the first outline's point 0 is the second outline's point `j_last - 1`, that is, when the runs continue each other across the wrap |
| `Segments.FixUpSound` | boundary.py:171-177 | after the corrected fix-up, every segment is sound and the starts strictly increase |
| `Segments.JoinedRuns` | boundary.py:144-169 | the joined segments are ordered true common segments (none when the other boundary is empty) |
| `Segments.CommonSegmentsOf` | boundary.py:138-179 | `common_segments` fails exactly when either boundary repeats a point; otherwise every returned segment is sound (all its points shared, in range, shorter than both boundaries) and their starts strictly increase; `CommonSegmentsComplete` adds that no shared point is missed |
| `Segments.CommonSegmentsAsWritten` | boundary.py:138-179 | the code as written fails on the same inputs, and agrees with the corrected version whenever the last segment has length 0 |
| `Segments.CommonSegmentsUnfold` | boundary.py:144-179 | on unique boundaries both versions are the joined runs followed by their fix-up |
| `Segments.ZeroRunAt` | boundary.py:147-151 | every point the two boundaries share is one of the length-0 matches |
| `Segments.ExpandAllMember` | boundary.py:154-169 | every match in the expansion of the joined segments is point `k` of one of them |
| `Segments.ExpandedRunOn` | boundary.py:164-167 | a match recovered from a joined segment lies on that segment, on both boundaries |
| `Segments.JoinedRunsComplete` | boundary.py:144-169 | every shared point lies on one of the joined runs |
| `Segments.FixUpComplete` | boundary.py:171-177 | the corrected fix-up loses no point: a point of the first segment becomes point `L_last + 1 + k` of the joined one |
| `Segments.CommonSegmentsComplete` | boundary.py:138-179 | nothing shared is missed: every point the two boundaries have in common is a point of one of the returned segments |
| `Segments.WrapTestAsWrittenCounterexample` | boundary.py:175 | on a concrete pair, the literal wrap test returns the segment `(2, 0, 2)`, which is not a common segment; the corrected test returns `(0, 0, 0), (2, 2, 1)` |
| `Segments.WrapTestAsWrittenNotchCounterexample` | boundary.py:175 | on the border left by laying tiles at `(0,0)`, `(1,0)`, `(0,1)`, `(0,2)`, `(1,2)` in that order, `[(1,2),(2,2),(2,3),(1,3),(0,3),(0,2),(0,1),(0,0),(1,0),(2,0),(2,1),(1,1)]`, against `get_tile(1, 1)`, the code as written keeps two segments `(0,2,1), (10,0,1)`; the corrected test joins them into the shared segment `(10,2,3)` |
| `Boundaries.Boundary.Value` | boundary.py:70-73 | the value view carries the object's points and labels and is valid exactly when the object is |
| `Boundaries.Boundary.constructor` | boundary.py:71-73 | a new boundary is empty and valid |
| `Boundaries.Boundary.Len` | boundary.py:80-82 | `len()` asserts equal point and label counts and otherwise returns that count |
| `Boundaries.Boundary.Append` | boundary.py:85-88 | `append` adds one point and its label at the end and keeps the pairing |
| `Boundaries.Boundary.AppendAll` | boundary.py:91-93 | `__append` extends both lists by the other boundary's |
| `Boundaries.Boundary.Replace` | boundary.py:96-98 | after `__replace`, the boundary holds the other's points and labels |
| `Boundaries.Boundary.CommonSegments` | boundary.py:138-179 | the method computes `CommonSegmentsOf` of the two current values, so its segments are sound and, by `CommonSegmentsComplete`, cover every shared point |
| `Boundaries.Boundary.Merge` | boundary.py:182-195 | `merge` succeeds exactly when `MergeOf` does and then holds its result; on failure the boundary is unchanged |
| `Boundaries.Stitched` | boundary.py:191-193 | a fresh boundary holding the two slices one after the other |
| `Boundaries.JoinSegments` | boundary.py:154-169 | the loop version of the run-joining recursion computes `JoinRuns` |
| `Boundaries.MeasureRun` | boundary.py:158-166 | the inner `while` loop measures the run length `RunLength` |
| `Boundaries.FixUpAcrossWrap` | boundary.py:171-177 | the in-place wrap fix-up computes the corrected `FixUp` |
| `Boundaries.Merged` | boundary.py:190-193 | the merged outline, `other.slice(j + L, j)` followed by `self.slice(i + L, i)`, is valid |
| `Boundaries.MergeOf` | boundary.py:182-195 | merging into an empty boundary gives the other one; otherwise the merge succeeds exactly when there is one common segment and the orientations agree; the result is valid and has `len(self) + len(other) - 2L` points |
| `Boundaries.MergeOfOne` | boundary.py:186-195 | with one common segment and equal orientations, the merge is the two complementary slices |
| `Boundaries.MergedLength` | boundary.py:194 | the asserted length law `len(merged) + 2L == len(self) + len(other)` holds for every sound segment |
| `Boundaries.ComplementLength` | boundary.py:101-111 | the slice from `x + L` round to `x` has `n - L` entries |
| `Sorting.Filter` | carcassonne.py:327 | `filter` keeps only elements meeting the predicate and is no longer than its input |
| `Sorting.FilterContains` | carcassonne.py:327 | an element is in the filtered list exactly when it is in the input and meets the predicate |
| `Sorting.Not` | carcassonne.py:331 | the negated predicate used by `filterfalse` |
| `Sorting.FilterConcat` | carcassonne.py:327 | filtering distributes over concatenation |
| `Sorting.FilterPartition` | carcassonne.py:325-331 | `filter` and `filterfalse` together hold every element exactly as often as the input |
| `Sorting.FilterAll` | carcassonne.py:327 | filtering a list whose elements all qualify gives it back |
| `Sorting.FilterNone` | carcassonne.py:327 | filtering a list with no qualifying element gives nothing |
| `Sorting.FilterKeepsOrder` | carcassonne.py:327 | filtering keeps the relative order of the kept elements |
| `Sorting.FilterAt` | carcassonne.py:327 | a kept element sits in the filtered list at the count of kept elements before it |
| `Sorting.FilterSame` | carcassonne.py:327 | predicates that agree on the list filter it alike |
| `Sorting.FilterCommute` | carcassonne.py:327 | two filters commute |
| `Sorting.FilterCount` | carcassonne.py:327 | filtering keeps the full multiplicity of qualifying elements and drops the others |
| `Sorting.FilterPermutation` | carcassonne.py:327-329 | permuting a list permutes its filtered list |
| `Sorting.FilterSorted` | carcassonne.py:553 | a sublist of a sorted list is sorted |
| `Sorting.KeyIs` | carcassonne.py:565 | the predicate "has key `c`" |
| `Sorting.Insert` | carcassonne.py:565 | insertion adds exactly the one element |
| `Sorting.StableSort` | carcassonne.py:553-565 | `list.sort(key=…)` returns a permutation of its input |
| `Sorting.InsertSorted` | carcassonne.py:565 | inserting into a sorted list keeps it sorted |
| `Sorting.SortedCons` | carcassonne.py:565 | an element no greater than the head extends a sorted list |
| `Sorting.SortedTail` | carcassonne.py:565 | the tail of a sorted list is sorted |
| `Sorting.FilterCons` | carcassonne.py:327 | filtering a list with one more element at the front |
| `Sorting.InsertStable` | carcassonne.py:565 | insertion puts an element after the existing elements with its key |
| `Sorting.StableSortSorted` | carcassonne.py:553-565 | `list.sort` orders by key |
| `Sorting.StableSortStable` | carcassonne.py:553-565 | `list.sort` is stable: elements with the same key keep their order |
| `Sorting.SortedSplit` | carcassonne.py:553 | sorting by the key "live 0, deleted 1" puts all kept elements, in order, before the others |
| `Sorting.LexOrder` | carcassonne.py:632-633 | a list sorted by the second key, and by the first key within each class of the second, is ordered lexicographically |
| `Sorting.TwoPassSort` | carcassonne.py:632-633 | a stable sort by `k1` then a stable sort by `k2` orders by `k2`, breaking ties by `k1` |
| `Tiles.NewPositionedTile` | carcassonne.py:174-180 | a positioned tile keeps its segment only when exactly one segment is given |
| `Tiles.NewPlacedTile` | carcassonne.py:231-235 | a placed tile carries its tile, position, turn and the given segment |
| `Tiles.FromPositionedTile` | carcassonne.py:243-247 | `from_positioned_tile` keeps the cell's position and segment and adds the tile and turn |
| `Tiles.GetSegment` | carcassonne.py:202-203 | a missing segment reads as `(0, 0, 0)` |
| `Tiles.GetSegmentLength` | carcassonne.py:206-208 | the contact length is the segment's `L` |
| `Tiles.GetL1Distance` | carcassonne.py:198-199 | the distance to the centre is non-negative and zero only at the origin |
| `Tiles.SegmentOnlyIfExactlyOne` | carcassonne.py:177-208 | a cell with zero or several common segments has contact length 0 |
| `Tiles.RotateRight` | carcassonne.py:258-259 | `deque.rotate` keeps the length |
| `Tiles.RotateRightAt` | carcassonne.py:258-259 | after `rotate(r)`, entry `k` is original entry `(k - r) % n` |
| `Tiles.RotateRightMoves` | carcassonne.py:258-259 | original entry `k` moves to `(k + r) % n` |
| `Tiles.RotateRightCompose` | carcassonne.py:258-259 | rotations compose by adding their amounts |
| `Tiles.RotateRightFullTurn` | carcassonne.py:258-259 | rotating by the length, or by 0, changes nothing |
| `Tiles.GetBoundaryWith` | carcassonne.py:225-226 | the tile boundary at `pos` is a valid, counter-clockwise unit square with unique points, starting at `pos` and labelled `desc` |
| `Tiles.GetBoundary` | carcassonne.py:225-260 | a positioned tile's boundary is unlabelled; a placed tile's sides carry its `desc` rotated right by `r` |
| `Tiles.Labels` | carcassonne.py:211-222 | the labels read along a walk, one per step |
| `Tiles.IterSlice` | carcassonne.py:211-213 | `iter_slice(i, j)` walks `(j - i) % n` steps from vertex `i`, each giving the vertex, its outgoing edge and its label |
| `Tiles.IterAll` | carcassonne.py:219-220 | `iter_all(j)` walks every step of the cycle from vertex `j` |
| `Tiles.IterSegment` | carcassonne.py:211-213 | `iter_segment` walks `L mod 4` steps of the cell |
| `Tiles.IterComplementSegment` | carcassonne.py:216-222 | `iter_complement_segment` carries on from `iter_segment` round the cell back to the segment's start, the two together being `iter_all(j)`; with `L == 0` it is all of `iter_all(j)` |
| `Tiles.CoverCycle` | carcassonne.py:211-222 | the steps along the segment and the steps off it together walk the cycle once from `j`; with no contact length, the complement is the whole cycle |
| `Tiles.SliceCoverCycle` | carcassonne.py:211-222 | `iter_slice(j, j + L)` followed by `iter_slice(j + L, j)` is `iter_all(j)` |
| `Tiles.SegmentLabels` | carcassonne.py:211-222 | for a tile with sides `f, p, t, q` and segment `(_, 1, 2)`: along `p, t`, off `q, f`; turned once, along `f, p`, off `t, q`; with `L = 0`, along nothing and off `p, t, q, f` |
| `Tiles.ContactLabels` | carcassonne.py:211-222 | with segment `(_, 1, 2)`, the contact reads rotated sides 1 and 2 and the rest reads sides 3 and 0 |
| `Tiles.NoContactLabels` | carcassonne.py:216-220 | with contact length 0, the segment walk is empty and the complement reads all four sides from side 1 |
| `Tiles.CellLabels` | carcassonne.py:211-222 | the labels read by the slices of a four-sided cycle |
| `Tiles.SelectTilePlacement` | carcassonne.py:639-643 | selection fails exactly on an empty list, and otherwise returns its first element |
| `Tiles.PartitionIter` | carcassonne.py:325-332 | the first part holds only selected tiles, drawn from the selection, in order when unshuffled, and `output_n` of them when `0 <= output_n` is below the selection size; the second part is exactly the rejected tiles in order |
| `Tiles.Cut` | carcassonne.py:329-330 | `selection[:n]` for `n >= 0` is a prefix of length `min(n, len)` |
| `Tiles.Reordered` | carcassonne.py:327-328 | a shuffle of a list of selected tiles holds only selected tiles |
| `Tiles.PartitionIterLosesOnlyCut` | carcassonne.py:325-332 | the two parts never hold more than the input, and hold all of it when `output_n` does not cut |
| `Tiles.SubMultisetSameSize` | carcassonne.py:327-330 | a sub-multiset of the same size is the whole multiset |
| `Tiles.TilesetRound` | carcassonne.py:421-434 | one round yields the river set (once when the period is 0, else every round) and then `max(1, period)` regular sets, always ending with a regular set |
| `Tiles.IterateTilesets` | carcassonne.py:418-436 | every yielded tileset is the river set or the regular set; the first is the river set when there is one; a finished pass ends with the regular set |
| `Tiles.IterateTilesetsLength` | carcassonne.py:418-436 | with a river set, `rounds` rounds yield `rounds + 1` sets for period 0, or `rounds * (1 + period)` sets otherwise, starting with the river set |
| `Candidates.Updated` | carcassonne.py:518-532 | the tile map after `update`: a to-be-deleted cell removes its position, any other is stored at its position, and other positions keep their cells |
| `Candidates.ToBeDeleted` | carcassonne.py:507-509 | a cell without a segment is always dropped; one with a segment is dropped exactly when its contact length is 0 |
| `Candidates.LiveTiles` | carcassonne.py:512-515 | `iterate` yields only cells stored in the map, at most one per listed position, and every cell whose position is listed |
| `Candidates.Live` | carcassonne.py:514 | the predicate "position is in `self.tiles`" |
| `Candidates.Lookup` | carcassonne.py:515 | looking up listed positions gives their cells in list order |
| `Candidates.Directed` | carcassonne.py:565 | `reverse=True` sorts by the negated key |
| `Candidates.SortKey` | carcassonne.py:557-565 | live positions sort by the cell's key; deleted ones by `sys.maxsize`, which `reverse` makes the largest again |
| `Candidates.Rank` | carcassonne.py:553 | `force_resize`'s key: 0 for live positions, 1 for deleted ones |
| `Candidates.CandidateTiles.constructor` | carcassonne.py:488-495 | a new index is empty, has no tombstones and is consistent |
| `Candidates.CandidateTiles.Len` | carcassonne.py:498-499 | `len()` counts the live cells, which are exactly the cells `iterate` yields |
| `Candidates.CandidateTiles.Allocated` | carcassonne.py:502-503 | `allocated()` is the list length, which is `len()` plus the tombstones |
| `Candidates.CandidateTiles.Iterate` | carcassonne.py:512-515 | `iterate` yields the live cells in list order |
| `Candidates.CandidateTiles.Delete` | carcassonne.py:535-541 | `delete` removes the position from the map, leaves the list, counts a tombstone only when the position was live, and keeps the index consistent |
| `Candidates.CandidateTiles.Update` | carcassonne.py:518-532 | `update` deletes a to-be-deleted cell; otherwise it stores the cell, appends a new position, and un-counts a tombstone when an old position is restored |
| `Candidates.CandidateTiles.Resize` | carcassonne.py:544-549 | `__resize` succeeds exactly when every tombstone is behind the live cells; it then truncates to `len()` and zeroes the count, and never changes the iteration |
| `Candidates.CandidateTiles.ForceResize` | carcassonne.py:552-554 | `force_resize` leaves exactly the live positions, in their order, with no tombstones |
| `Candidates.CandidateTiles.Sort` | carcassonne.py:564-572 | `sort` stably sorts the list by `SortKey` and resizes when the list is more than 1.333 times `len()`; it fails only if a tombstone is not at the tail; the live cells are a permutation of the old ones, ordered by the key |
| `Candidates.LiveCount` | carcassonne.py:498-503 | in a consistent index, the live positions of the list are exactly the map's |
| `Candidates.LiveTilesSnoc` | carcassonne.py:513-515 | `iterate` over one more position yields one more cell, if that position is live |
| `Candidates.DeleteKeepsConsistent` | carcassonne.py:539-541 | deleting a live position with one more tombstone keeps consistency |
| `Candidates.AppendKeepsConsistent` | carcassonne.py:525-532 | appending a new position keeps consistency |
| `Candidates.RestoreKeepsConsistent` | carcassonne.py:528-532 | restoring a tombstoned position finds a positive count and keeps consistency after the decrement |
| `Candidates.OverwriteKeepsConsistent` | carcassonne.py:532 | overwriting a live cell keeps consistency |
| `Candidates.DistinctSnoc` | carcassonne.py:526-527 | appending a position not yet listed keeps the list duplicate-free |
| `Candidates.TombstoneCounted` | carcassonne.py:528-530 | a listed but deleted position implies a positive tombstone count |
| `Candidates.SubsetCard` | carcassonne.py:498-503 | a subset is no larger than its superset |
| `Candidates.TruncateTail` | carcassonne.py:545-548 | with the tombstones at the tail, truncating to `len()` keeps consistency and the iteration |
| `Candidates.DistinctPrefix` | carcassonne.py:547 | a prefix of a duplicate-free list is duplicate-free |
| `Candidates.LiveInHead` | carcassonne.py:546-547 | with the tombstones at the tail, every live position lies in the first `len()` entries |
| `Candidates.TailNotLive` | carcassonne.py:546-547 | dropping a tail of tombstones does not change the live positions |
| `Candidates.SortKeepsConsistent` | carcassonne.py:553-565 | sorting the list keeps consistency |
| `Candidates.RankSortSplits` | carcassonne.py:553-554 | `force_resize`'s sort puts the live positions, in order, first |
| `Candidates.RankSortStable` | carcassonne.py:553 | that sort does not reorder the live positions |
| `Candidates.LiveThenTombstones` | carcassonne.py:546 | a list made of the live positions followed by tombstones has its tombstones at the tail |
| `Candidates.TombstonesLast` | carcassonne.py:557-565 | when no live key reaches the sentinel, sorting by `SortKey` puts every tombstone after every live position |
| `Candidates.SortOrdersIteration` | carcassonne.py:557-565 | after the sort, `iterate` yields cells ordered by the directed key, and the live positions are a permutation of the old ones |
| `Candidates.LiveKeysOrder` | carcassonne.py:512-561 | live positions sorted by `SortKey` give cells sorted by the key |
| `Candidates.RankedByContactThenDistance` | carcassonne.py:632-633 | after sorting by L1 distance and then by contact length with `reverse`, the live cells run by contact length descending and by distance ascending within equal lengths |
| `Placement.RotateToStartWith` | carcassonne.py:190 | the rotated boundary starts at the given point, with the same length and orientation |
| `Placement.RotateKeepsPoints` | carcassonne.py:190 | rotation keeps the set of points |
| `Placement.SliceKeepsPoints` | boundary.py:101-111 | the full-cycle slice `slice(k, k)` keeps the set of points |
| `Placement.RotateKeepsAllPoints` | carcassonne.py:190 | rotation keeps every point, in both directions |
| `Placement.FromBottomLeft` | carcassonne.py:189-190 | the boundary rotated to its bottom-left point starts at the point with the least key, with the same points, length and orientation |
| `Placement.CellOf` | carcassonne.py:188-190 | the cell across an edge is a valid four-corner outline |
| `Placement.CellOfShape` | carcassonne.py:188-190 | the cell has exactly the corners of the square `from_edge` walks from `point` along its first direction `d` (so it holds `point` and `point + d`) and starts at its least-key corner; for a unit edge it is the unlabelled `get_tile` at the square's lower-left corner |
| `Placement.SquareOutline` | boundary.py:211-214 | the outline `from_edge` lays is the unlabelled square `point, point + d, point + d + d', point + d'` with `d'` the quarter turn of `d` |
| `Placement.UnitSquareIsTile` | carcassonne.py:189-190 | read from its lowest-leftmost corner, the unlabelled square on a unit step is `get_tile` at that corner |
| `Placement.CellAcross` | carcassonne.py:188-190 | the cell built across an edge is `CellOf(point, edge, domain)`, and counter-clockwise when the edge is non-zero |
| `Placement.SegmentsWithCell` | carcassonne.py:191 | `border.common_segments(tile_border)` gives `CommonSegmentsOf` of the current border and the cell |
| `Placement.TileAcrossMeaning` | carcassonne.py:184-191 | the tile across an edge fails exactly when the border or the cell repeats a point; otherwise it is a positioned tile at the cell's first corner, with a segment exactly when there is one common segment, and then that segment |
| `Placement.FromBoundaryEdge` | carcassonne.py:184-191 | `from_boundary_edge` returns the cell `CellOf(point, edge, domain)` and the tile across the edge, `TileAcross` of the current border |
| `Placement.NeighborEdges` | carcassonne.py:625-626 | the neighbour list holds each complement step's `(point, edge)` pair, followed by the pairs moved one edge, for all but the last step |
| `Placement.MovedEdgeStartsAtNextVertex` | carcassonne.py:626 | along a walk, each moved pair `(point + edge, edge)` starts at the next step's vertex |
| `Placement.ApplyUpdatesSnoc` | carcassonne.py:628-629 | the update loop over one more cell applies `Updated` once more |
| `Placement.UntouchedKept` | carcassonne.py:628-629 | positions no update touches keep their cells |
| `Placement.LastUpdateWins` | carcassonne.py:628-629 | after the loop, a position holds its last update, or is gone if that update was to be deleted |
| `Wrappers.Collect` | carcassonne.py:627 | gathering results fails exactly when one of them fails, and otherwise holds every value in order |
| `Wrappers.CollectSnoc` | carcassonne.py:627 | gathering one more result adds its value, or fails |
| `Placement.TilesAcross` | carcassonne.py:627 | the rebuilt list fails exactly when the tile across one neighbour edge fails; otherwise it has one tile per edge, in order, each the tile across that edge |
| `Placement.RefreshedCells` | carcassonne.py:627 | the list comprehension computes `TilesAcross` of the border over the neighbour edges |
| `Placement.UpdateAll` | carcassonne.py:628-629 | the loop leaves the index consistent, with its map the old map after the updates in order |
| `Placement.RankCandidates` | carcassonne.py:632-633 | the two sorts keep the cells, and when both succeed the live cells are ranked by contact length then distance; they succeed whenever no key reaches `sys.maxsize` |
| `Placement.RefreshCandidates` | carcassonne.py:624-633 | the placed position is deleted, the cells across the neighbour edges of the placed tile's complement walk (`TilesAcross` of the border) are applied in order, and the index is ranked |
| `Placement.UpdateBorderAndCandidateTiles` | carcassonne.py:601-636 | if the merge fails, nothing changes and the failure is reported. Otherwise the border becomes the merge, the tile is returned, the index is the old one without the placed position plus the rebuilt neighbours, which are `TilesAcross` of the merged border over the neighbour edges, and it is ranked |

## Left out

- Graphics, image loading, JSON tileset parsing, `main`, logging and `debug_printout` are not part of this model.
- The `on_update` / `on_delete` callbacks of `CandidateTiles` are left out: they are user code the index only calls.
- `random.sample` is left out and becomes a parameter: `Tiles.PartitionIter` takes any permutation of the selection as the shuffle.
- `itertools.tee` laziness is left out: `partition_iter` works on a finite list.
- `iterate_tilesets` with `infinite=True` is an endless generator. `Tiles.IterateTilesets` instead takes a number of `rounds`.
- `CompositeTile`, `validate_tile_placement`, `find_candidate_placements`, the `TileSubset` predicates and `shuffle_tileset` are not part of this model.
- `Boundaries.Boundary.Replace` copies values: the list sharing (aliasing) that `__replace` creates in Python is not modelled.
- Several methods that `carcassonne.py` calls do not exist in `boundary.py`. They are modelled by what their names and uses say:
  - `bottom_left` is the vector of `bottomleft()`;
  - `rotate_to_start_with(p)` is the full-cycle slice starting at `p`'s index;
  - `iter_slice` and `iter_all` walk the slice with `get_edge`, and `iter_slice(j, j)` is empty;
  - `Vect.l1_distance` is `|x| + |y|`;
  - `get_tile(pos, desc)` is `get_tile(pos.x, pos.y, desc)`.
- `Candidates.CandidateTiles.Sort`: the float test `allocated / len > 1.333` is modelled exactly, as `1000 * allocated > 1333 * len` over integers.
- `Candidates.CandidateTiles.Sort`: `__resize`'s asserts are modelled as `ok == false` with the list left sorted but untruncated. The model only shows they cannot fail while live keys stay clear of `sys.maxsize`.
- `Placement.UpdateBorderAndCandidateTiles`: a failing `from_boundary_edge` assert (a neighbour cell with repeated points) is reported as an error. The index is then left partly updated, with the placed position already deleted, as in Python after the exception.
- `Segments.JoinRuns`: the model proves that runs are correct and cover every point match. It does not prove that each run is maximal beyond the inner loop's stopping condition (`Segments.RunLength`).
- `Vectors.Vect.Rotate` and the orientation lemmas use unbounded integers. Python's integers are unbounded too, so nothing is lost.
- `Segments.CommonSegmentsOf` uses the wrap-around test `(j_last - j_first) % len(other) == L_first + 1`, not the `L_first + L_last + 1` of `boundary.py:175`. The inner loop matches self's point `prev_i + L` with other's point `prev_j - L` (`boundary.py:164`), and the run is stored as `(prev_i, (prev_j - L) % m, L)` (`boundary.py:167`). So the last run ends, at self's point `n - 1`, on other's point `j_last`, and the first run starts, at self's point 0, on other's point `j_first + L_first`. Going on from self's point `n - 1` to point 0 steps one back on other exactly when `j_first + L_first + 1 == j_last` modulo `len(other)`; `L_last` plays no part. The literal test is `Segments.CommonSegmentsAsWritten`, and Findings shows inputs on which it goes wrong.
- `Boundaries.Boundary.CommonSegments` uses that corrected test. Laying tiles at `(0,0)`, `(1,0)`, `(0,1)`, `(0,2)`, `(1,2)` in that order leaves the border `[(1,2),(2,2),(2,3),(1,3),(0,3),(0,2),(0,1),(0,0),(1,0),(2,0),(2,1),(1,1)]`, with the free cell `(1, 1)` in a notch. Against `get_tile(1, 1)` (`Segments.WrapTestAsWrittenNotchCounterexample`) Python returns `[(0,2,1), (10,0,1)]` and the model returns `[(10,2,3)]`.
- `Boundaries.Boundary.Merge` uses the corrected test. For that border and a tile laid at `(1, 1)`, Python fails the `len(segments) == 1` assert at `boundary.py:188`, while the model merges along `(10,2,3)`.
- `Boundaries.MergeOf` uses the corrected test, with the same difference as `Boundaries.Boundary.Merge`.
- `Placement.FromBoundaryEdge` uses the corrected test through `Segments.CommonSegmentsOf`. For the notch cell `(1, 1)` of that border, the model gives the segment `(10,2,3)` and contact length 3. Python finds two segments, so the cell gets no segment and contact length 0.
- `Placement.UpdateBorderAndCandidateTiles` inherits that difference. In Python the notch cell is deleted from the index as `to_be_deleted`, and laying a tile there would fail the assert of `merge`. In the model the cell stays a candidate with contact length 3, and the merge succeeds.
- `Outlines.Slice` requires a non-empty outline. On an empty boundary Python raises `ZeroDivisionError` at `i % len(self)` (`boundary.py:102`). The core only slices a non-empty border in `merge`, after its `len(self) == 0` branch, and a tile or cell outline of four points.
- `Outlines.GetEdge` requires a non-empty outline. On an empty boundary Python raises `ZeroDivisionError` at `boundary.py:115`. The core only takes edges of outlines of four points and of the non-empty border.
- `Outlines.MinByKey` requires a non-empty list. Python's `min` raises `ValueError` on an empty one (`boundary.py:199`). It is only reached through `bottomleft()`.
- `Outlines.BottomLeft` requires a non-empty outline. Python's `min` would raise `ValueError` on an empty boundary (`boundary.py:199`), but the core only calls it on the four points `from_edge` lays (`carcassonne.py:188-189`).
- `Tiles.GetBoundary` requires `WellFormed()`: a placed tile has four side labels. `get_tile` asserts this at `boundary.py:219`. Tiles with other descriptions could only come from tileset loading, which is not part of this model.

## Findings

| source | as written | input that shows it | evidently intended | confidence | as-written member | corrected member |
|---|---|---|---|---|---|---|
| boundary.py:175 | the wrap-around join tests `(j_last - j_first) % len(other) == L_first + L_last + 1` | self `[(0,0),(5,5),(0,1),(1,1)]`, other `get_tile(0, 0)`: the matches are `(0,0,0)`, `(2,3,0)`, `(3,2,0)`, joined to `(0,0,0)`, `(2,2,1)`; the literal test joins them into `(2,0,2)`, which claims `(0,1)` meets `(1,1)` | the other boundary's `j` must step back by exactly `L_first + 1` from the last run to the first, so the test should be `== L_first + 1`, which makes the joined `(i_last, j_first, L_first + L_last + 1)` a true common segment | not executed | `Segments.WrapTestAsWrittenCounterexample` | `Segments.CommonSegmentsOf` |
| boundary.py:175 | the same test also refuses runs that are contiguous, whenever the last run has `L_last > 0` | self `[(1,2),(2,2),(2,3),(1,3),(0,3),(0,2),(0,1),(0,0),(1,0),(2,0),(2,1),(1,1)]`, the border after tiles are laid at `(0,0)`, `(1,0)`, `(0,1)`, `(0,2)`, `(1,2)` in that order; other `get_tile(1, 1)`, the cell refreshed from the neighbour edge `((1,2), (1,0))`: the runs are `(0,2,1)` and `(10,0,1)`, and `(0 - 2) % 4 == 2 == L_first + 1`, but the literal test asks for `3`, so two segments come back; the notch cell then gets contact length 0 and is dropped from the candidates, and laying a tile there would fail the assert at `boundary.py:188` | the test `== L_first + 1`, which holds exactly when the runs continue each other, joins them into the common segment `(10,2,3)` | not executed | `Segments.WrapTestAsWrittenNotchCounterexample` | `Segments.WrapContiguousIffContinues` |
