/**
 * Basic values shared by the ramp-discovery model: integer grid points,
 * real-valued points (centres and build positions), the map grids a
 * `GameInfo` exposes, and the outcome type that stands for Python's
 * exceptions.
 */
module Grid {

  /** An integer map cell (x, y), a `Point2` built from `range` values. */
  datatype Point = Point(x: int, y: int)

  /** A real-valued position, a `Point2` holding floats. */
  datatype RPoint = RPoint(x: real, y: real)

  /** The exceptions the ramp accessors can raise. */
  datatype Error =
    | DegenerateRamp   // "Not implemented. Trying to access a ramp that has a wrong amount of upper points."
    | ZeroDivision     // a mean over an empty set of points
    | EmptyMax         // `max` over an empty candidate collection
    | NoIntersection   // two circles that do not meet: coincident centres, or centres too far apart

  datatype Outcome<T> = Ok(value: T) | Fail(error: Error)

  /**
   * The part of a game snapshot the core reads: the map size and the three
   * pixel maps, each a total lookup from a cell to its value.
   */
  datatype GameInfo = GameInfo(
    width: nat,
    height: nat,
    pathingGrid: Point -> int,
    placementGrid: Point -> int,
    terrainHeight: Point -> int)

  function Abs(n: int): nat {
    if n < 0 then -n else n
  }

  predicate InBounds(p: Point, width: int, height: int) {
    0 <= p.x < width && 0 <= p.y < height
  }

  /** `p` moved by the offset `d`. */
  function Shift(p: Point, d: Point): Point {
    Point(p.x + d.x, p.y + d.y)
  }

  /** `q` lies at a diamond offset of radius `m` from `p`: |dx| + |dy| <= m. */
  predicate Adjacent(p: Point, q: Point, m: int) {
    Abs(q.x - p.x) + Abs(q.y - p.y) <= m
  }

  lemma AdjacentSymmetric(p: Point, q: Point, m: int)
    requires Adjacent(p, q, m)
    ensures Adjacent(q, p, m)
  {
  }

  function ToReal(p: Point): RPoint {
    RPoint(p.x as real, p.y as real)
  }

  /** `Point2._distance_squared`. */
  function DistanceSquared(a: RPoint, b: RPoint): real {
    (a.x - b.x) * (a.x - b.x) + (a.y - b.y) * (a.y - b.y)
  }

  /** A non-empty finite set has an element on which `key` is largest. */
  lemma {:induction false} MaximumExists<T>(s: set<T>, key: T -> real) returns (top: T)
    requires s != {}
    ensures top in s && forall q :: q in s ==> key(q) <= key(top)
    decreases s
  {
    var p :| p in s;
    if s == {p} {
      top := p;
    } else {
      var rest := MaximumExists(s - {p}, key);
      top := if key(p) <= key(rest) then rest else p;
    }
  }

  lemma HasMaximum<T>(s: set<T>, key: T -> real)
    requires s != {}
    ensures exists top :: top in s && forall q :: q in s ==> key(q) <= key(top)
  {
    var top := MaximumExists(s, key);
  }

  function Min(a: int, b: int): int {
    if a <= b then a else b
  }
}
