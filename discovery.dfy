/**
 * `GameInfo._find_ramps`: the cells that are pathable on the pathing grid
 * yet unbuildable on the placement grid (both read 0) are grouped by the
 * flood fill, and each group becomes a `Ramp` on this map.
 */
module Discovery {
  import opened Grid
  import opened Components
  import opened FloodFill
  import opened Ramps

  /** The ramp candidates: in-bounds cells where both grids read 0. */
  function RampCells(info: GameInfo): (r: set<Point>)
    ensures forall p :: p in r <==>
      InBounds(p, info.width, info.height) && info.placementGrid(p) == 0 && info.pathingGrid(p) == 0
  {
    set x: int, y: int | 0 <= x < info.width && 0 <= y < info.height &&
                         info.placementGrid(Point(x, y)) == 0 && info.pathingGrid(Point(x, y)) == 0
      :: Point(x, y)
  }

  /** The cell sets of a list of ramps, in order. */
  function PointSets(ramps: seq<Ramp>): seq<set<Point>> {
    seq(|ramps|, i requires 0 <= i < |ramps| => ramps[i].pointSet)
  }

  /**
   * `_find_ramps()`: one `Ramp` per group `_find_groups(rampPoints)` returns
   * (at least 8 cells, diamond distance 2), in the same order. The ramps are
   * exactly the large connected components of the candidate cells, each
   * once, and share no cell.
   */
  method FindRamps(info: GameInfo) returns (ramps: seq<Ramp>)
    ensures forall i :: 0 <= i < |ramps| ==> ramps[i].info == info
    ensures LargeComponents(PointSets(ramps), RampCells(info),
                            DefaultMinimumPointsPerGroup, DefaultMaxDistanceBetweenPoints)
  {
    var rampPoints := RampCells(info);
    var groups := FindGroups(info, rampPoints, DefaultMinimumPointsPerGroup, DefaultMaxDistanceBetweenPoints);
    ramps := seq(|groups|, i requires 0 <= i < |groups| => Ramp(groups[i], info));
    assert PointSets(ramps) == groups;
  }
}
