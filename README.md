# Ramp discovery in python-sc2, modelled in Dafny

This project models how python-sc2 finds the ramps of a StarCraft II map and
what it derives from each ramp. The code is in `sc2/game_info.py`.

- `GameInfo._find_ramps` takes the cells where the placement grid and the
  pathing grid both read 0. It groups them with `GameInfo._find_groups` and
  wraps each group in a `Ramp`.
- `GameInfo._find_groups` is a breadth-first flood fill over a sparse point
  set. It paints a `picture` label array in place, empties a `remaining`
  set and works through a FIFO queue. Two points are neighbours when
  |dx| + |dy| <= `max_distance_between_points`. Groups smaller than
  `minimum_points_per_group` are dropped.
- `Ramp` gives:
  - the cell count and the cell set;
  - the highest (`upper`) and lowest (`lower`) cells and their centres;
  - `upper2_for_ramp_wall`, the two upper cells a wall is built against;
  - the barracks and supply-depot positions of that wall.

Files:

- `grid.dfy` (module `Grid`): points, the map grids, diamond adjacency, and
  the `Outcome` type that stands for the exceptions the properties raise.
- `components.dfy` (module `Components`): connected components under
  diamond adjacency. A component is non-empty, closed and connected; two
  components that share a point are equal.
- `flood_fill.dfy` (module `FloodFill`): `_find_groups` as imperative code.
  - The picture is an `array2<int>`, indexed `[y, x]` as in the source.
  - `remaining` and the queue are local variables that the loops reassign.
  - The ghost variables `done` and `kept` record the finished groups and
    which of them were kept.
- `ramp.dfy` (module `Ramps`): the `Ramp` datatype and its derived values.
  - `upper` and `lower` are running-extremum loops. Each is proved equal to
    a set comprehension.
  - The centres are means over sets.
  - `upper2_for_ramp_wall` is a sort followed by trimming to two.
- `wall_placement.dfy` (module `WallPlacement`): the guard, the two `pop()`s
  and the selections of the wall accessors.
- `discovery.dfy` (module `Discovery`): `_find_ramps`.

Python set iteration, `set.pop()` and `next(iter(...))` return an element the
program does not control. The model uses `:|` (some element satisfying a
condition) for each of them, so every proof holds for any choice. The ghost
functions fix one choice per argument. This matches the caches the source
puts around these properties: they return the same value on every read.

## Model

| member | source | states |
|---|---|---|
| Discovery.RampCells | sc2/game_info.py:179-184 | a cell is a ramp candidate exactly when it is inside the map and both the placement grid and the pathing grid read 0 there |
| Discovery.FindRamps | sc2/game_info.py:177-185 | every ramp is built on this map. The ramps' cell sets are exactly the connected components of the candidate cells with at least 8 cells (diamond distance 2), each listed once and sharing no cell. Every candidate cell left out lies in a component of fewer than 8 cells |
| FloodFill.Nearby | sc2/game_info.py:205-210 | the offset set is exactly the integer (dx, dy) with \|dx\| + \|dy\| <= m, and it contains (0, 0) when m >= 0 |
| FloodFill.MarkPoints | sc2/game_info.py:212-213 | after painting every input point with NOT_COLORED_YET, a cell is NOT_COLORED_YET exactly when it holds an input point, every other cell is NOT_INTERESTED, and every point is still to be grouped |
| FloodFill.Paint | sc2/game_info.py:202-203 | painting a remaining point with the current colour moves it from `remaining` into the open group, and the labelling stays consistent |
| FloodFill.Visit | sc2/game_info.py:229-238 | an out-of-bounds or already-labelled cell is skipped and nothing changes. A NOT_COLORED_YET cell is removed from `remaining` and nothing else is, it is appended to the queue and added to the group, and the group stays a chain in discovery order |
| FloodFill.PaintNeighbours | sc2/game_info.py:227-238 | after the `for offset in nearby` loop over one `base`, exactly the remaining points adjacent to `base` have left `remaining` and joined the group. The queue only grew at its end, and no remaining point is adjacent to `base` |
| FloodFill.Take | sc2/game_info.py:234-238 | taking a remaining cell removes exactly it from `remaining`, paints it, appends it to the queue and adds it to the group |
| FloodFill.TakenNearStep | sc2/game_info.py:228-238 | each visit to a neighbour of `base` keeps the loop's record: only neighbours of `base` were removed, exactly those joined the group, and the queue only grew at its end |
| FloodFill.NeighboursTaken | sc2/game_info.py:228-238 | when no remaining point is adjacent to `base`, the removed points are exactly the remaining neighbours of `base` |
| FloodFill.ProcessedStep | sc2/game_info.py:226-238 | after each `popleft` and its neighbour loop, no point taken from the queue so far has a remaining neighbour |
| FloodFill.FillGroup | sc2/game_info.py:226-238 | when the queue is empty, the group is a connected component of the input points: non-empty, closed under adjacency, connected (its cells can be listed as a chain in which each cell touches an earlier one), and containing every cell the group held when the fill started. The labelling records it with the current colour |
| FloodFill.ClosedOnceDrained | sc2/game_info.py:226-238 | once no remaining point is adjacent to any point taken from the queue, the group is closed: a neighbour outside it would lie in an earlier closed group |
| FloodFill.NextGroup | sc2/game_info.py:218-238 | one pass of the outer loop takes a fresh colour and pops a start point. It fills a connected component and strictly shrinks `remaining` (the termination measure) |
| FloodFill.CloseGroup | sc2/game_info.py:218-225 | the finished group becomes a finished colour and no group is open, so the labelling invariant holds at the head of the outer loop |
| FloodFill.KeptGrows | sc2/game_info.py:239-240 | a group is kept exactly when its size is at least `minimum_points_per_group`, in the order the groups were found |
| FloodFill.KeptGroupsArePartition | sc2/game_info.py:218-241 | when `remaining` is empty, the kept groups are pairwise disjoint and every large component is among them. Every dropped point lies in a small component |
| FloodFill.KeptDisjoint | sc2/game_info.py:239-240 | kept groups carry different colours, so no two of them share a point |
| FloodFill.KeptCoverLarge | sc2/game_info.py:218-240 | every connected component with at least `minSize` points was filled as one colour, and that group was kept |
| FloodFill.DroppedAreSmall | sc2/game_info.py:239-240 | a point in no kept group belongs to a component of fewer than `minSize` points |
| FloodFill.FindGroups | sc2/game_info.py:187-241 | the result lists every connected component of `points` with at least `minSize` points, each exactly once and pairwise disjoint. Every other point lies in a smaller component, and there are at most \|points\| groups |
| FloodFill.LargeComponentsDetermined | sc2/game_info.py:218-225 | whichever points `remaining.pop()` picks, two results have the same length and the same groups, up to order |
| FloodFill.DistinctLength | sc2/game_info.py:239-241 | a list of pairwise-disjoint non-empty groups has as many entries as distinct groups |
| FloodFill.GroupsListedIn | sc2/game_info.py:239-241 | every group of one result is a group of any other result, and the groups of a result are non-empty and pairwise disjoint |
| FloodFill.SameMembersSameLength | sc2/game_info.py:239-241 | two lists of the same pairwise-disjoint non-empty groups have the same length |
| Components.ComponentsMeetOnlyIfEqual | sc2/game_info.py:219-238 | two connected components that share a point are equal, so a group does not depend on the point the fill starts from |
| Components.ConnectedMeetsClosed | sc2/game_info.py:226-238 | a connected subset that meets a closed subset lies inside it |
| Components.ChainGrows | sc2/game_info.py:237-238 | appending a point adjacent to an earlier one keeps the discovery order a chain |
| Grid.AdjacentSymmetric | sc2/game_info.py:205-210 | the diamond neighbourhood is symmetric |
| Ramps.Ramp.Size | sc2/game_info.py:27-29 | the size is the number of cells, and it is 0 exactly when there are no cells |
| Ramps.Ramp.Points | sc2/game_info.py:34-36 | `points` holds exactly the ramp's cells |
| Ramps.Ramp.HeightAt | sc2/game_info.py:31-32 | the height of a cell is the terrain height map's value there |
| Ramps.Ramp.Upper | sc2/game_info.py:38-52 | the running-maximum loop returns exactly the cells of maximal height, when that height reaches -10000 |
| Ramps.Ramp.UpperIsMaximum | sc2/game_info.py:38-52 | the upper cells are ramp cells of one common height that no cell exceeds. They are non-empty exactly when some cell's height is at least -10000 |
| Ramps.Ramp.Lower | sc2/game_info.py:74-87 | the running-minimum loop returns exactly the cells of minimal height, when that height is at most 10000 |
| Ramps.Ramp.LowerIsMinimum | sc2/game_info.py:74-87 | the lower cells are ramp cells of one common height below which no cell lies. They are non-empty exactly when some cell's height is at most 10000 |
| Ramps.Ramp.TopCenter | sc2/game_info.py:67-72 | the mean of the upper cells exists exactly when there are upper cells; otherwise it fails with a division by zero |
| Ramps.Ramp.BottomCenter | sc2/game_info.py:89-94 | the mean of the lower cells exists exactly when there are lower cells; otherwise it fails with a division by zero |
| Ramps.SumOf | sc2/game_info.py:71 | `sum(...)` over a set: one term plus the sum over the rest, the term taken in an arbitrary order (`SumRemove` shows the order does not matter) |
| Ramps.SumRemove | sc2/game_info.py:71 | the sum over a set equals any one element's term plus the sum over the others, so it does not depend on iteration order |
| Ramps.Center | sc2/game_info.py:71 | a mean exists exactly for a non-empty set; for the empty set it fails with a division by zero |
| Ramps.CenterInBox | sc2/game_info.py:71 | the mean of cells inside an axis-aligned box lies inside the box |
| Ramps.CenterOfSingleton | sc2/game_info.py:71 | one cell is its own mean |
| Ramps.CenterOfPair | sc2/game_info.py:71 | the mean of two distinct cells is halfway between them |
| Ramps.Ramp.Upper2ForRampWall | sc2/game_info.py:54-65 | the result is a subset of the upper cells, and it is empty when there are more than five upper cells. It succeeds exactly when there are no upper cells, more than five upper cells, or some lower cells; otherwise the bottom centre fails with a division by zero |
| Ramps.Ramp.Upper2KeepsFarthest | sc2/game_info.py:54-65 | with at most five upper cells, and some lower cells whenever there are upper cells, the call succeeds, min(2, \|upper\|) upper cells are kept, and no dropped upper cell is farther (squared distance) from the bottom centre than a kept one |
| Ramps.Ramp.Upper2NeedsLowerCells | sc2/game_info.py:62 | a non-empty result means the bottom centre, the sort key, was computed |
| Ramps.ListOf | sc2/game_info.py:62 | `list(self.upper)` lists every element of the set exactly once, in some order |
| Ramps.SortDesc | sc2/game_info.py:62 | `sorted(..., reverse=True)` keeps the length and the elements of its input; it is an insertion sort that puts each element before the first one with a key not larger |
| Ramps.SortDescPermutation | sc2/game_info.py:62 | the sort returns a permutation of its input |
| Ramps.SortDescOrdered | sc2/game_info.py:62 | the sort returns its input in non-increasing key order (`reverse=True`) |
| Ramps.SortedListing | sc2/game_info.py:62 | `sorted(list(upper))` holds each upper cell exactly once, in non-increasing key order |
| Ramps.PrefixKeepsLargest | sc2/game_info.py:63-65 | the first n entries of a sorted list of distinct cells are n distinct cells, none with a smaller key than a cell after them |
| Ramps.TrimToTwo | sc2/game_info.py:63-64 | popping from the end while more than two entries remain leaves the first min(2, length) entries |
| WallPlacement.Placed | sc2/game_info.py:101-102 | a placed position is its cell shifted by (`x_offset`, `y_offset`) = (0.5, -0.5) |
| WallPlacement.Midpoint | sc2/game_info.py:129 | moving half the distance from p1 towards p2 ends equally far from both, on the segment between them |
| WallPlacement.MaxBy | sc2/game_info.py:106 | `max` with a key returns a candidate whose key is not exceeded by any candidate, and fails exactly on an empty argument |
| WallPlacement.WallPair | sc2/game_info.py:99-102 | the guard passes exactly when `upper2_for_ramp_wall` is computed and has two cells. The two pops return both cells, distinct. Otherwise the error of `upper2_for_ramp_wall`, or the "wrong amount of upper points" exception, is raised |
| WallPlacement.PopTwo | sc2/game_info.py:100-102 | two pops from a two-cell set return two distinct cells making up the set |
| WallPlacement.AnyLowerPoint | sc2/game_info.py:105 | `next(iter(self.lower))` is some lower cell |
| WallPlacement.WallCandidates | sc2/game_info.py:104 | the intersection of the circles around the two placed wall cells, with the squared radius given |
| WallPlacement.AwayFromLowerSide | sc2/game_info.py:99-106 | the shared body of the two middle positions. It raises the guard's error, or the intersection's failure. Otherwise it returns a position exactly when the intersection is non-empty (else the `max` error): an intersection point that no other is farther from the lower cell than |
| WallPlacement.BarracksInMiddle | sc2/game_info.py:96-107 | with radius sqrt(5): the guard's error, or the intersection's failure, propagates. Once both succeed, a position exists exactly when the intersection is non-empty, and it is the intersection point farthest from the lower cell |
| WallPlacement.DepotInMiddle | sc2/game_info.py:109-120 | as for the barracks, with circles of radius sqrt(2.5) |
| WallPlacement.CornerDepots | sc2/game_info.py:122-134 | the corner depots are the outcome of intersecting the radius-sqrt(5) circles around the wall cells' midpoint and the middle depot. The guard's error, or the middle depot's, propagates |
| WallPlacement.BarracksCanFitAddon | sc2/game_info.py:136-142 | a decision exists exactly when the barracks exists and the corner depots exist and are non-empty. Otherwise the first failure in evaluation order (guard, barracks, corner depots, `max` of an empty set) is raised |
| WallPlacement.CanFitAddonAgainstEveryCorner | sc2/game_info.py:141 | the addon fits exactly when the barracks x + 1 exceeds the x of every corner depot, which is `max` by x |
| WallPlacement.BarracksCorrectPlacement | sc2/game_info.py:144-152 | a placement exists exactly when the addon decision does, with the same error otherwise |
| WallPlacement.CorrectPlacementShiftsOnlyWhenBlocked | sc2/game_info.py:147-151 | the placement is the middle barracks when the addon fits, and otherwise the middle barracks moved by (-2, 0) |
| WallPlacement.GuardsRaise | sc2/game_info.py:99-152 | all five wall accessors raise unless `upper2_for_ramp_wall` has exactly two cells. When `upper2_for_ramp_wall` itself succeeded, the exception is the "wrong amount of upper points" one |
| WallPlacement.WideRampsHaveNoWall | sc2/game_info.py:57-59 | a ramp with more than five upper cells makes every wall accessor raise the "wrong amount of upper points" exception |

## Left out

- `GameInfo.__init__` (sc2/game_info.py:156-175) decodes a protocol-buffer snapshot. The model instead takes a `GameInfo` value holding the map size and the three grids as total functions. `PixelMap`, `Player`, `Size` and `Rect` are not part of this model.
- `Point2.circle_intersection`, `towards` and `distance_to` live in `sc2/position.py`, which is not part of this model.
  - The intersection is a function parameter, called with the squared radius (5 and 2.5 instead of `5 ** 0.5` and `2.5 ** 0.5`).
  - The parameter returns the intersection points or a failure, and the model passes the failure on. Which centre pairs fail (coincident, or too far apart) is the parameter's business; the model does not state it.
  - `p1.towards(p2, p1.distance_to(p2) / 2)` is the exact midpoint.
- Floating-point arithmetic is modelled as exact `real` arithmetic: the means, the squared distances and the 0.5 and -0.5 offsets.
- The `property_immutable_cache` and `property_mutable_cache` decorators and `self.cache` are not modelled. `sc2/cache.py` is not part of this model.
  - Every derived value is a function of the cells and the height map.
  - `points.pop()` in the wall accessors acts on a copy, so the cached `upper2_for_ramp_wall` is never emptied.
  - `_height_map` and `_placement_grid` are field reads of `GameInfo`.
- Set iteration order, `set.pop()`, `next(iter(...))` and the tie order of `sorted` are unspecified choices. The model does not fix the order in which groups, upper cells or intersections come out.
- FloodFill.FindGroups requires every input point to lie inside the map. The only caller passes in-bounds cells. For a point outside, Python would wrap negative indices or raise `IndexError`, which the model does not cover.
- FloodFill.FindGroups reads the map size from `GameInfo.width` and `height`, not from a separate `pathing_grid` object.
- The `deque` is a sequence: `popleft` takes its head and `append` adds at its end.
- The body of `_find_groups` is split into helper methods (`MarkPoints`, `NextGroup`, `FillGroup`, `PaintNeighbours`, `Visit`, `Take`, `Paint`). Each is one loop or one loop body of the source.
- Ramps.Ramp.Upper2ForRampWall takes the first two sorted cells with a slice; `TrimToTwo` is the `while len(upper2) > 2: pop()` loop, proved to compute that slice.
- Ramps.Ramp.TopCenter and Ramps.Ramp.BottomCenter state only when the mean exists. What the mean is comes from `Center` and the lemmas `CenterInBox`, `CenterOfSingleton` and `CenterOfPair`.
- WallPlacement.BarracksCanFitAddon states when a decision exists in its own `ensures`; its value is characterised by the lemma `CanFitAddonAgainstEveryCorner`.
- `x_offset` and `y_offset` are constants of the model, not fields of each `Ramp`.
