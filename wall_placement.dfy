/**
 * The ramp-wall building positions of a `Ramp`: barracks and supply depots
 * placed against the two upper cells chosen by `upper2_for_ramp_wall`.
 * Each accessor raises unless there are exactly two such cells. The
 * circle-circle intersection is a parameter: it receives the two centres
 * and the SQUARE of the radius (the source passes `5 ** 0.5` and
 * `2.5 ** 0.5`), and returns its set of intersection points or fails,
 * and the accessors pass its failure on.
 */
module WallPlacement {
  import opened Grid
  import opened Ramps

  /** `x_offset` and `y_offset`: the shift from a cell to the position a building is placed at. */
  const XOffset: real := 0.5
  const YOffset: real := -0.5

  /** Barracks centre to upper cell, and corner depot to middle depot: offset (2, 1). */
  const BarracksRadiusSquared: real := 5.0
  /** Middle depot centre to upper cell: offset (1.5, 0.5). */
  const DepotRadiusSquared: real := 2.5

  /**
   * `circle_intersection(p, q, r)`, given `r * r`: the points where the
   * circles meet, or a failure (such as `NoIntersection`) when they do not.
   */
  type Intersect = (RPoint, RPoint, real) -> Outcome<set<RPoint>>

  /** The two upper cells, in the order `points.pop()` returns them. */
  datatype Pair = Pair(first: Point, second: Point)

  /** `p.offset((x_offset, y_offset))`. */
  function Placed(p: Point): (r: RPoint)
    ensures r.x - p.x as real == XOffset && r.y - p.y as real == YOffset
  {
    RPoint(p.x as real + XOffset, p.y as real + YOffset)
  }

  /** `p1.towards(p2, p1.distance_to(p2) / 2)`: the point halfway from `a` to `b`. */
  function Midpoint(a: RPoint, b: RPoint): (r: RPoint)
    ensures DistanceSquared(a, r) == DistanceSquared(r, b)
    ensures r.x - a.x == b.x - r.x && r.y - a.y == b.y - r.y
  {
    RPoint((a.x + b.x) / 2.0, (a.y + b.y) / 2.0)
  }

  /**
   * `max(candidates, key=key)`: an element with the largest key (which one
   * of several equal ones is left open), or the `ValueError` of an empty
   * argument.
   */
  ghost function MaxBy(candidates: set<RPoint>, key: RPoint -> real): (r: Outcome<RPoint>)
    ensures r.Ok? <==> candidates != {}
    ensures r.Fail? ==> r.error == EmptyMax
    ensures r.Ok? ==> r.value in candidates && forall c :: c in candidates ==> key(c) <= key(r.value)
  {
    if candidates == {} then Fail(EmptyMax)
    else
      HasMaximum(candidates, key);
      var best :| best in candidates && forall c :: c in candidates ==> key(c) <= key(best);
      Ok(best)
  }

  function DistanceTo(target: RPoint): RPoint -> real {
    c => DistanceSquared(c, target)
  }

  function XCoord(c: RPoint): real {
    c.x
  }

  /**
   * The guard `len(self.upper2_for_ramp_wall) == 2` and the two `pop()`s:
   * the two cells, or the error `upper2_for_ramp_wall` raised, or the
   * "wrong amount of upper points" exception.
   */
  ghost function WallPair(ramp: Ramp): (r: Outcome<Pair>)
    ensures r.Ok? <==> ramp.Upper2ForRampWall().Ok? && |ramp.Upper2ForRampWall().value| == 2
    ensures r.Ok? ==> (r.value.first != r.value.second &&
      ramp.Upper2ForRampWall().value == {r.value.first, r.value.second})
    ensures ramp.Upper2ForRampWall().Fail? ==> r == Fail(ramp.Upper2ForRampWall().error)
    ensures ramp.Upper2ForRampWall().Ok? && r.Fail? ==> r.error == DegenerateRamp
  {
    match ramp.Upper2ForRampWall()
    case Fail(e) => Fail(e)
    case Ok(upper2) =>
      if |upper2| != 2 then Fail(DegenerateRamp)
      else Ok(PopTwo(upper2))
  }

  /** Two `pop()`s from a set of two cells: both cells, in an unspecified order. */
  ghost function PopTwo(s: set<Point>): (r: Pair)
    requires |s| == 2
    ensures r.first != r.second && s == {r.first, r.second}
  {
    var p1 :| p1 in s;
    assert |s - {p1}| == 1;
    var p2 :| p2 in s - {p1};
    assert s == {p1, p2} by {
      assert |s - {p1} - {p2}| == 0;
      assert s - {p1} - {p2} == {};
    }
    Pair(p1, p2)
  }

  /** `next(iter(self.lower))`: some lower cell. */
  ghost function AnyLowerPoint(ramp: Ramp): (r: Point)
    requires ramp.LowerPoints() != {}
    ensures r in ramp.LowerPoints()
  {
    var p :| p in ramp.LowerPoints(); p
  }

  /** `p1.circle_intersection(p2, sqrt(radiusSquared))` for the two placed wall cells. */
  ghost function WallCandidates(ramp: Ramp, intersect: Intersect, radiusSquared: real): Outcome<set<RPoint>>
    requires WallPair(ramp).Ok?
  {
    intersect(Placed(WallPair(ramp).value.first), Placed(WallPair(ramp).value.second), radiusSquared)
  }

  /**
   * The candidate of `circle_intersection(p1, p2, sqrt(radiusSquared))`
   * (`p1`, `p2` the placed wall cells) farthest from a lower cell: the
   * shared body of `barracks_in_middle` and `depot_in_middle`.
   */
  ghost function AwayFromLowerSide(ramp: Ramp, intersect: Intersect, radiusSquared: real): (r: Outcome<RPoint>)
    ensures WallPair(ramp).Fail? ==> r == Fail(WallPair(ramp).error)
    ensures WallPair(ramp).Ok? ==> ramp.LowerPoints() != {}
    ensures WallPair(ramp).Ok? && WallCandidates(ramp, intersect, radiusSquared).Fail? ==>
      r == Fail(WallCandidates(ramp, intersect, radiusSquared).error)
    ensures WallPair(ramp).Ok? && WallCandidates(ramp, intersect, radiusSquared).Ok? ==>
      (r.Ok? <==> WallCandidates(ramp, intersect, radiusSquared).value != {}) &&
      (r.Fail? ==> r.error == EmptyMax)
    ensures r.Ok? ==>
      WallPair(ramp).Ok? && WallCandidates(ramp, intersect, radiusSquared).Ok? &&
      var candidates := WallCandidates(ramp, intersect, radiusSquared).value;
      var low := ToReal(AnyLowerPoint(ramp));
      r.value in candidates &&
      forall c :: c in candidates ==> DistanceSquared(c, low) <= DistanceSquared(r.value, low)
  {
    match WallPair(ramp)
    case Fail(e) => Fail(e)
    case Ok(pair) =>
      ramp.Upper2NeedsLowerCells();
      match WallCandidates(ramp, intersect, radiusSquared)
      case Fail(e) => Fail(e)
      case Ok(candidates) => MaxBy(candidates, DistanceTo(ToReal(AnyLowerPoint(ramp))))
  }

  /**
   * `barracks_in_middle`: the barracks between the two corner depots. It
   * lies where the circles of radius sqrt(5) around the two placed wall
   * cells meet, on the side away from the lower cells; it exists exactly
   * when the guard passes and those circles meet.
   */
  ghost function BarracksInMiddle(ramp: Ramp, intersect: Intersect): (r: Outcome<RPoint>)
    ensures WallPair(ramp).Fail? ==> r == Fail(WallPair(ramp).error)
    ensures WallPair(ramp).Ok? && WallCandidates(ramp, intersect, BarracksRadiusSquared).Fail? ==>
      r == Fail(WallCandidates(ramp, intersect, BarracksRadiusSquared).error)
    ensures WallPair(ramp).Ok? && WallCandidates(ramp, intersect, BarracksRadiusSquared).Ok? ==>
      (r.Ok? <==> WallCandidates(ramp, intersect, BarracksRadiusSquared).value != {}) &&
      (r.Fail? ==> r.error == EmptyMax)
    ensures r.Ok? ==>
      WallPair(ramp).Ok? && ramp.LowerPoints() != {} &&
      WallCandidates(ramp, intersect, BarracksRadiusSquared).Ok? &&
      var candidates := WallCandidates(ramp, intersect, BarracksRadiusSquared).value;
      var low := ToReal(AnyLowerPoint(ramp));
      r.value in candidates &&
      forall c :: c in candidates ==> DistanceSquared(c, low) <= DistanceSquared(r.value, low)
  {
    AwayFromLowerSide(ramp, intersect, BarracksRadiusSquared)
  }

  /**
   * `depot_in_middle`: the depot between the two corner depots. It lies
   * where the circles of radius sqrt(2.5) around the two placed wall cells
   * meet, on the side away from the lower cells; it exists exactly when the
   * guard passes and those circles meet.
   */
  ghost function DepotInMiddle(ramp: Ramp, intersect: Intersect): (r: Outcome<RPoint>)
    ensures WallPair(ramp).Fail? ==> r == Fail(WallPair(ramp).error)
    ensures WallPair(ramp).Ok? && WallCandidates(ramp, intersect, DepotRadiusSquared).Fail? ==>
      r == Fail(WallCandidates(ramp, intersect, DepotRadiusSquared).error)
    ensures WallPair(ramp).Ok? && WallCandidates(ramp, intersect, DepotRadiusSquared).Ok? ==>
      (r.Ok? <==> WallCandidates(ramp, intersect, DepotRadiusSquared).value != {}) &&
      (r.Fail? ==> r.error == EmptyMax)
    ensures r.Ok? ==>
      WallPair(ramp).Ok? && ramp.LowerPoints() != {} &&
      WallCandidates(ramp, intersect, DepotRadiusSquared).Ok? &&
      var candidates := WallCandidates(ramp, intersect, DepotRadiusSquared).value;
      var low := ToReal(AnyLowerPoint(ramp));
      r.value in candidates &&
      forall c :: c in candidates ==> DistanceSquared(c, low) <= DistanceSquared(r.value, low)
  {
    AwayFromLowerSide(ramp, intersect, DepotRadiusSquared)
  }

  /**
   * `corner_depots`: the intersection of the circles of radius sqrt(5)
   * around the midpoint of the two placed wall cells and around the middle
   * depot, or the failure of either.
   */
  ghost function CornerDepots(ramp: Ramp, intersect: Intersect): (r: Outcome<set<RPoint>>)
    ensures WallPair(ramp).Fail? ==> r == Fail(WallPair(ramp).error)
    ensures DepotInMiddle(ramp, intersect).Fail? ==> r == Fail(DepotInMiddle(ramp, intersect).error)
    ensures DepotInMiddle(ramp, intersect).Ok? ==>
      WallPair(ramp).Ok? &&
      var pair := WallPair(ramp).value;
      r == intersect(Midpoint(Placed(pair.first), Placed(pair.second)),
                     DepotInMiddle(ramp, intersect).value, BarracksRadiusSquared)
  {
    match WallPair(ramp)
    case Fail(e) => Fail(e)
    case Ok(pair) =>
      var center := Midpoint(Placed(pair.first), Placed(pair.second));
      match DepotInMiddle(ramp, intersect)
      case Fail(e) => Fail(e)
      case Ok(depot) => intersect(center, depot, BarracksRadiusSquared)
  }

  /**
   * `barracks_can_fit_addon`: the barracks in the middle, moved one to the
   * right, is beyond the rightmost corner depot.
   */
  ghost function BarracksCanFitAddon(ramp: Ramp, intersect: Intersect): (r: Outcome<bool>)
    ensures r.Ok? <==> (BarracksInMiddle(ramp, intersect).Ok? && CornerDepots(ramp, intersect).Ok? &&
      CornerDepots(ramp, intersect).value != {})
    ensures WallPair(ramp).Fail? ==> r == Fail(WallPair(ramp).error)
    ensures BarracksInMiddle(ramp, intersect).Fail? ==> r == Fail(BarracksInMiddle(ramp, intersect).error)
    ensures BarracksInMiddle(ramp, intersect).Ok? && CornerDepots(ramp, intersect).Fail? ==>
      r == Fail(CornerDepots(ramp, intersect).error)
    ensures BarracksInMiddle(ramp, intersect).Ok? && CornerDepots(ramp, intersect) == Ok({}) ==>
      r == Fail(EmptyMax)
  {
    match WallPair(ramp)
    case Fail(e) => Fail(e)
    case Ok(_) =>
      match BarracksInMiddle(ramp, intersect)
      case Fail(e) => Fail(e)
      case Ok(barracks) =>
        match CornerDepots(ramp, intersect)
        case Fail(e) => Fail(e)
        case Ok(corners) =>
          match MaxBy(corners, XCoord)
          case Fail(e) => Fail(e)
          case Ok(rightmost) => Ok(barracks.x + 1.0 > rightmost.x)
  }

  /** `barracks_correct_placement`: the middle barracks, moved two to the left when the addon would not fit. */
  ghost function BarracksCorrectPlacement(ramp: Ramp, intersect: Intersect): (r: Outcome<RPoint>)
    ensures r.Ok? <==> BarracksCanFitAddon(ramp, intersect).Ok?
    ensures r.Fail? ==> r.error == BarracksCanFitAddon(ramp, intersect).error
  {
    match WallPair(ramp)
    case Fail(e) => Fail(e)
    case Ok(_) =>
      match BarracksCanFitAddon(ramp, intersect)
      case Fail(e) => Fail(e)
      case Ok(fits) =>
        var barracks := BarracksInMiddle(ramp, intersect).value;
        if fits then Ok(barracks) else Ok(RPoint(barracks.x - 2.0, barracks.y))
  }

  /**
   * Every wall accessor raises unless `upper2_for_ramp_wall` has exactly
   * two cells; when `upper2_for_ramp_wall` itself succeeded, the exception
   * is the "wrong amount of upper points" one.
   */
  lemma GuardsRaise(ramp: Ramp, intersect: Intersect)
    requires !(ramp.Upper2ForRampWall().Ok? && |ramp.Upper2ForRampWall().value| == 2)
    ensures BarracksInMiddle(ramp, intersect).Fail? && DepotInMiddle(ramp, intersect).Fail?
    ensures CornerDepots(ramp, intersect).Fail? && BarracksCanFitAddon(ramp, intersect).Fail?
    ensures BarracksCorrectPlacement(ramp, intersect).Fail?
    ensures ramp.Upper2ForRampWall().Ok? ==>
      BarracksInMiddle(ramp, intersect).error == DegenerateRamp &&
      DepotInMiddle(ramp, intersect).error == DegenerateRamp &&
      CornerDepots(ramp, intersect).error == DegenerateRamp &&
      BarracksCanFitAddon(ramp, intersect).error == DegenerateRamp &&
      BarracksCorrectPlacement(ramp, intersect).error == DegenerateRamp
  {
  }

  /** A ramp with more than five upper cells has no wall positions at all. */
  lemma WideRampsHaveNoWall(ramp: Ramp, intersect: Intersect)
    requires |ramp.UpperPoints()| > 5
    ensures BarracksInMiddle(ramp, intersect) == Fail(DegenerateRamp)
    ensures DepotInMiddle(ramp, intersect) == Fail(DegenerateRamp)
    ensures CornerDepots(ramp, intersect) == Fail(DegenerateRamp)
    ensures BarracksCanFitAddon(ramp, intersect) == Fail(DegenerateRamp)
    ensures BarracksCorrectPlacement(ramp, intersect) == Fail(DegenerateRamp)
  {
    GuardsRaise(ramp, intersect);
  }

  /**
   * The addon decision compares with every corner depot: the barracks fits
   * exactly when its x + 1 exceeds the x of each corner depot.
   */
  lemma CanFitAddonAgainstEveryCorner(ramp: Ramp, intersect: Intersect)
    requires BarracksCanFitAddon(ramp, intersect).Ok?
    ensures BarracksCanFitAddon(ramp, intersect).value <==>
      forall c :: c in CornerDepots(ramp, intersect).value ==>
        c.x < BarracksInMiddle(ramp, intersect).value.x + 1.0
  {
    var corners := CornerDepots(ramp, intersect).value;
    var rightmost := MaxBy(corners, XCoord).value;
    assert XCoord(rightmost) == rightmost.x;
    assert forall c :: c in corners ==> XCoord(c) == c.x;
  }

  /**
   * The corrected barracks position is the middle one when the addon fits
   * and otherwise the middle one moved by (-2, 0); either way it shares the
   * middle one's y.
   */
  lemma CorrectPlacementShiftsOnlyWhenBlocked(ramp: Ramp, intersect: Intersect)
    requires BarracksCorrectPlacement(ramp, intersect).Ok?
    ensures BarracksInMiddle(ramp, intersect).Ok?
    ensures var placed := BarracksCorrectPlacement(ramp, intersect).value;
      var middle := BarracksInMiddle(ramp, intersect).value;
      placed.y == middle.y &&
      (BarracksCanFitAddon(ramp, intersect).value ==> placed == middle) &&
      (!BarracksCanFitAddon(ramp, intersect).value ==> placed.x == middle.x - 2.0)
  {
  }
}
