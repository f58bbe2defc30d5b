/**
 * `GameInfo._find_groups`: breadth-first connected-component labelling of
 * a sparse point set on a width x height map. A label array `picture`
 * (indexed [y, x]) starts at NOT_INTERESTED, every input point is marked
 * NOT_COLORED_YET, and each flood fill paints the points it reaches with a
 * fresh colour while removing them from `remaining`.
 */
module FloodFill {
  import opened Grid
  import opened Components

  const NotInterested: int := -2
  const NotColoredYet: int := -1
  const DefaultMinimumPointsPerGroup: int := 8
  const DefaultMaxDistanceBetweenPoints: int := 2

  /**
   * The neighbour offsets `nearby`: every integer (dx, dy) in the square of
   * radius `m` whose Manhattan length is at most `m`. The square bound is
   * implied, so the set is exactly the diamond of radius `m`; it contains
   * (0, 0) whenever `m` is not negative.
   */
  function Nearby(m: int): (r: set<Point>)
    ensures forall d :: d in r <==> Abs(d.x) + Abs(d.y) <= m
    ensures m >= 0 ==> Point(0, 0) in r
  {
    var r := set dx: int, dy: int | -m <= dx <= m && -m <= dy <= m && Abs(dx) + Abs(dy) <= m :: Point(dx, dy);
    assert forall d: Point :: Abs(d.x) + Abs(d.y) <= m ==> d in r;
    r
  }

  /**
   * The label array agrees with the bookkeeping: a cell is NOT_INTERESTED
   * exactly when it holds no input point, NOT_COLORED_YET exactly when its
   * point is still remaining, and otherwise carries the colour of the group
   * holding its point (`current` is the group being filled, colour |done|).
   */
  ghost predicate Labelled(picture: array2<int>, points: set<Point>, remaining: set<Point>,
                           done: seq<set<Point>>, current: set<Point>)
    reads picture
  {
    forall x, y {:trigger picture[y, x]} :: 0 <= y < picture.Length0 && 0 <= x < picture.Length1 ==>
      NotInterested <= picture[y, x] <= |done| &&
      (picture[y, x] == NotInterested <==> Point(x, y) !in points) &&
      (picture[y, x] == NotColoredYet <==> Point(x, y) in remaining) &&
      (0 <= picture[y, x] < |done| ==> Point(x, y) in done[picture[y, x]]) &&
      (picture[y, x] == |done| ==> Point(x, y) in current)
  }

  /** Every member of a finished group, and of the current one, is painted with its colour. */
  ghost predicate Painted(picture: array2<int>, done: seq<set<Point>>, current: set<Point>)
    reads picture
  {
    (forall i, p :: 0 <= i < |done| && p in done[i] ==>
       0 <= p.y < picture.Length0 && 0 <= p.x < picture.Length1 && picture[p.y, p.x] == i) &&
    (forall p :: p in current ==>
       0 <= p.y < picture.Length0 && 0 <= p.x < picture.Length1 && picture[p.y, p.x] == |done|)
  }

  /** `groups` are the finished groups of at least `minSize` points, in colour order. */
  ghost predicate KeptExactly(groups: seq<set<Point>>, kept: seq<int>, done: seq<set<Point>>, minSize: int) {
    |kept| == |groups| &&
    (forall i :: 0 <= i < |groups| ==> 0 <= kept[i] < |done| && groups[i] == done[kept[i]]) &&
    (forall i, j :: 0 <= i < j < |groups| ==> kept[i] < kept[j]) &&
    (forall i :: 0 <= i < |groups| ==> |groups[i]| >= minSize) &&
    (forall k :: 0 <= k < |done| && |done[k]| >= minSize ==> exists i :: 0 <= i < |groups| && kept[i] == k)
  }

  /**
   * What `_find_groups` returns: every connected component of `points`
   * (diamond distance `m`) with at least `minSize` points, each exactly once
   * and in no particular order; every point left out lies in a smaller
   * component.
   */
  ghost predicate LargeComponents(groups: seq<set<Point>>, points: set<Point>, minSize: int, m: int) {
    (forall i :: 0 <= i < |groups| ==> IsComponent(groups[i], points, m) && |groups[i]| >= minSize) &&
    (forall i, j :: 0 <= i < j < |groups| ==> groups[i] !! groups[j]) &&
    (forall c :: IsComponent(c, points, m) && |c| >= minSize ==>
       exists i :: 0 <= i < |groups| && groups[i] == c) &&
    (forall p :: p in points && (forall i :: 0 <= i < |groups| ==> p !in groups[i]) ==>
       exists c :: IsComponent(c, points, m) && p in c && |c| < minSize)
  }

  /**
   * `paint(pt)` while a group is open: the cell of a remaining point gets
   * the current colour, so the point moves from `remaining` to the group.
   */
  method Paint(picture: array2<int>, pt: Point, currentColor: int, ghost points: set<Point>,
               ghost remaining: set<Point>, ghost done: seq<set<Point>>, ghost current: set<Point>)
    modifies picture
    requires pt in remaining && currentColor == |done|
    requires 0 <= pt.y < picture.Length0 && 0 <= pt.x < picture.Length1
    requires Labelled(picture, points, remaining, done, current) && Painted(picture, done, current)
    ensures Labelled(picture, points, remaining - {pt}, done, current + {pt})
    ensures Painted(picture, done, current + {pt})
  {
    picture[pt.y, pt.x] := currentColor;
  }

  /** The state of a flood fill while the group `current` (discovered in `order`) is open. */
  ghost predicate Filling(picture: array2<int>, points: set<Point>, remaining: set<Point>,
                          done: seq<set<Point>>, current: set<Point>, order: seq<Point>, m: int)
    reads picture
  {
    remaining <= points && current <= points &&
    Labelled(picture, points, remaining, done, current) && Painted(picture, done, current) &&
    |order| > 0 && Elements(order) == current && IsChain(order, m)
  }

  /**
   * The `for offset in nearby` loop for one `base` taken from the queue: every
   * in-bounds NOT_COLORED_YET cell at a diamond offset from `base` is removed
   * from `remaining`, painted with the current colour and appended to the
   * queue and to the group. Afterwards no remaining point is adjacent to `base`.
   * `order` is the discovery order of the group: the points already taken
   * from the queue (`processed`, ending with `base`) followed by the queue.
   */
  method PaintNeighbours(picture: array2<int>, nearby: set<Point>, m: int, base: Point, currentColor: int,
                         remaining0: set<Point>, queue0: seq<Point>, group0: set<Point>,
                         ghost points: set<Point>, ghost done: seq<set<Point>>,
                         ghost processed: seq<Point>, ghost order0: seq<Point>)
    returns (remaining: set<Point>, queue: seq<Point>, currentGroup: set<Point>, ghost order: seq<Point>)
    modifies picture
    requires (forall d :: d in nearby <==> Abs(d.x) + Abs(d.y) <= m) && currentColor == |done|
    requires forall p :: p in points ==> InBounds(p, picture.Length1, picture.Length0)
    requires Filling(picture, points, remaining0, done, group0, order0, m)
    requires order0 == processed + queue0 && |processed| > 0 && processed[|processed| - 1] == base
    ensures Filling(picture, points, remaining, done, currentGroup, order, m)
    ensures order == processed + queue
    ensures remaining <= remaining0 && |remaining| + |order| == |remaining0| + |order0| && |order| >= |order0|
    ensures forall q :: q in remaining ==> !Adjacent(base, q, m)
    ensures TookNeighbours(base, m, remaining0, group0, queue0, remaining, currentGroup, queue)
  {
    remaining, queue, currentGroup, order := remaining0, queue0, group0, order0;
    var offsets := nearby;
    while offsets != {}
      invariant offsets <= nearby
      invariant Filling(picture, points, remaining, done, currentGroup, order, m)
      invariant order == processed + queue
      invariant remaining <= remaining0 && |remaining| + |order| == |remaining0| + |order0| && |order| >= |order0|
      invariant forall q :: q in remaining && Adjacent(base, q, m) ==> Point(q.x - base.x, q.y - base.y) in offsets
      invariant TakenNear(base, m, remaining0, group0, queue0, remaining, currentGroup, queue)
      decreases offsets
    {
      var offset :| offset in offsets;
      ghost var remainingBefore, groupBefore, queueBefore := remaining, currentGroup, queue;
      offsets := offsets - {offset};
      remaining, queue, currentGroup, order :=
        Visit(picture, Shift(base, offset), currentColor, remaining, queue, currentGroup,
              points, done, processed, order, m);
      UnvisitedOffsets(base, offset, offsets, remainingBefore, remaining, m);
      TakenNearStep(base, m, remaining0, group0, queue0, remainingBefore, groupBefore, queueBefore,
                    Shift(base, offset), remaining, currentGroup, queue);
    }
    NeighboursTaken(base, m, remaining0, group0, queue0, remaining, currentGroup, queue);
  }

  /**
   * What the `for offset in nearby` loop has done so far: it removed only
   * neighbours of `base` from `remaining`, moved exactly those into the
   * group, and only appended to the queue.
   */
  ghost predicate TakenNear(base: Point, m: int, remaining0: set<Point>, group0: set<Point>, queue0: seq<Point>,
                            remaining: set<Point>, group: set<Point>, queue: seq<Point>) {
    remaining <= remaining0 &&
    (forall q :: q in remaining0 - remaining ==> Adjacent(base, q, m)) &&
    group == group0 + (remaining0 - remaining) &&
    |queue| >= |queue0| && queue[..|queue0|] == queue0
  }

  /** One visit to a neighbour of `base` keeps `TakenNear`. */
  lemma TakenNearStep(base: Point, m: int, remaining0: set<Point>, group0: set<Point>, queue0: seq<Point>,
                      r1: set<Point>, g1: set<Point>, q1: seq<Point>, pt: Point,
                      r2: set<Point>, g2: set<Point>, q2: seq<Point>)
    requires TakenNear(base, m, remaining0, group0, queue0, r1, g1, q1) && Adjacent(base, pt, m)
    requires r2 == r1 - {pt} && q2 == q1 + (if pt in r1 then [pt] else [])
    requires g2 == g1 + (if pt in r1 then {pt} else {})
    ensures TakenNear(base, m, remaining0, group0, queue0, r2, g2, q2)
  {
    assert q2[..|queue0|] == q1[..|queue0|];
  }

  /** Once no remaining point is next to `base`, exactly the remaining neighbours of `base` were taken. */
  lemma NeighboursTaken(base: Point, m: int, remaining0: set<Point>, group0: set<Point>, queue0: seq<Point>,
                        remaining: set<Point>, group: set<Point>, queue: seq<Point>)
    requires TakenNear(base, m, remaining0, group0, queue0, remaining, group, queue)
    requires forall q :: q in remaining ==> !Adjacent(base, q, m)
    ensures TookNeighbours(base, m, remaining0, group0, queue0, remaining, group, queue)
  {
  }

  /**
   * One `for offset in nearby` loop in full: exactly the remaining
   * neighbours of `base` left `remaining` and joined the group, and the
   * queue only grew at its end.
   */
  ghost predicate TookNeighbours(base: Point, m: int, remaining0: set<Point>, group0: set<Point>, queue0: seq<Point>,
                                 remaining: set<Point>, group: set<Point>, queue: seq<Point>) {
    remaining == remaining0 - (set q | q in remaining0 && Adjacent(base, q, m)) &&
    group == group0 + (remaining0 - remaining) &&
    |queue| >= |queue0| && queue[..|queue0|] == queue0
  }

  /** Remaining points adjacent to `base` sit at offsets the loop has not visited yet. */
  lemma UnvisitedOffsets(base: Point, offset: Point, offsets: set<Point>,
                         before: set<Point>, after: set<Point>, m: int)
    requires forall q :: q in before && Adjacent(base, q, m) ==> Point(q.x - base.x, q.y - base.y) in offsets + {offset}
    requires after <= before && Shift(base, offset) !in after
    ensures forall q :: q in after && Adjacent(base, q, m) ==> Point(q.x - base.x, q.y - base.y) in offsets
  {
    forall q | q in after && Adjacent(base, q, m)
      ensures Point(q.x - base.x, q.y - base.y) in offsets
    {
      assert q != Shift(base, offset);
    }
  }

  /**
   * One pass of the `for offset in nearby` loop, at the cell `pt` next to the
   * last processed point: an out-of-bounds or already-labelled cell is
   * skipped; a NOT_COLORED_YET one is taken out of `remaining`, painted,
   * queued and added to the group.
   */
  method Visit(picture: array2<int>, pt: Point, currentColor: int,
               remaining0: set<Point>, queue0: seq<Point>, group0: set<Point>,
               ghost points: set<Point>, ghost done: seq<set<Point>>,
               ghost processed: seq<Point>, ghost order0: seq<Point>, ghost m: int)
    returns (remaining: set<Point>, queue: seq<Point>, currentGroup: set<Point>, ghost order: seq<Point>)
    modifies picture
    requires currentColor == |done|
    requires forall p :: p in points ==> InBounds(p, picture.Length1, picture.Length0)
    requires Filling(picture, points, remaining0, done, group0, order0, m)
    requires order0 == processed + queue0 && |processed| > 0 && Adjacent(processed[|processed| - 1], pt, m)
    ensures Filling(picture, points, remaining, done, currentGroup, order, m)
    ensures order == processed + queue
    ensures remaining <= remaining0 && |remaining| + |order| == |remaining0| + |order0| && |order| >= |order0|
    ensures remaining == remaining0 - {pt}
    ensures queue == queue0 + (if pt in remaining0 then [pt] else [])
    ensures currentGroup == group0 + (if pt in remaining0 then {pt} else {})
  {
    remaining, queue, currentGroup, order := remaining0, queue0, group0, order0;
    if pt.x < 0 || pt.y < 0 || pt.x >= picture.Length1 || pt.y >= picture.Length0 {
      assert pt !in points;
      return;
    }
    if picture[pt.y, pt.x] != NotColoredYet {
      assert pt !in remaining;
      return;
    }
    assert pt in remaining;  // `remaining.remove(point)` never raises
    remaining, queue, currentGroup, order :=
      Take(picture, pt, currentColor, remaining0, queue0, group0, points, done, processed, order0, m);
  }

  /** The taking branch of `Visit`: a remaining point is removed, painted, queued and added to the group. */
  method Take(picture: array2<int>, pt: Point, currentColor: int,
              remaining0: set<Point>, queue0: seq<Point>, group0: set<Point>,
              ghost points: set<Point>, ghost done: seq<set<Point>>,
              ghost processed: seq<Point>, ghost order0: seq<Point>, ghost m: int)
    returns (remaining: set<Point>, queue: seq<Point>, currentGroup: set<Point>, ghost order: seq<Point>)
    modifies picture
    requires currentColor == |done| && pt in remaining0
    requires forall p :: p in points ==> InBounds(p, picture.Length1, picture.Length0)
    requires Filling(picture, points, remaining0, done, group0, order0, m)
    requires order0 == processed + queue0 && |processed| > 0 && Adjacent(processed[|processed| - 1], pt, m)
    ensures Filling(picture, points, remaining, done, currentGroup, order, m)
    ensures order == processed + queue
    ensures remaining == remaining0 - {pt} && |remaining| + 1 == |remaining0|
    ensures queue == queue0 + [pt] && currentGroup == group0 + {pt} && |order| == |order0| + 1
  {
    assert order0[|processed| - 1] == processed[|processed| - 1];
    ChainGrows(order0, pt, |processed| - 1, m);
    Paint(picture, pt, currentColor, points, remaining0, done, group0);
    remaining := remaining0 - {pt};
    queue := queue0 + [pt];
    currentGroup := group0 + {pt};
    order := order0 + [pt];
    assert order == processed + queue;
  }

  /**
   * The `while queue` loop: breadth-first filling of the group seeded in
   * `queue0`. The finished group is a connected component of `points`.
   */
  method FillGroup(picture: array2<int>, nearby: set<Point>, m: int, currentColor: int,
                   remaining0: set<Point>, queue0: seq<Point>, group0: set<Point>,
                   ghost points: set<Point>, ghost done: seq<set<Point>>)
    returns (remaining: set<Point>, queue: seq<Point>, currentGroup: set<Point>)
    modifies picture
    requires (forall d :: d in nearby <==> Abs(d.x) + Abs(d.y) <= m) && currentColor == |done|
    requires forall p :: p in points ==> InBounds(p, picture.Length1, picture.Length0)
    requires forall i :: 0 <= i < |done| ==> IsComponent(done[i], points, m)
    requires Filling(picture, points, remaining0, done, group0, queue0, m)
    ensures queue == []
    ensures remaining <= remaining0 && |remaining| <= |remaining0| && currentGroup <= points
    ensures group0 <= currentGroup
    ensures Labelled(picture, points, remaining, done, currentGroup)
    ensures Painted(picture, done, currentGroup)
    ensures IsComponent(currentGroup, points, m)
  {
    remaining, queue, currentGroup := remaining0, queue0, group0;
    ghost var order := queue0;
    ghost var processed := [];
    while queue != []
      invariant Filling(picture, points, remaining, done, currentGroup, order, m)
      invariant order == processed + queue
      invariant remaining <= remaining0 && |remaining| + |order| == |remaining0| + |queue0| && |order| >= |queue0|
      invariant forall k, q :: 0 <= k < |processed| && q in remaining ==> !Adjacent(processed[k], q, m)
      invariant group0 <= currentGroup
      decreases |remaining| + |queue|
    {
      var base := queue[0];
      ghost var remainingBefore := remaining;
      PopFront(processed, queue);
      queue := queue[1..];
      processed := processed + [base];
      remaining, queue, currentGroup, order :=
        PaintNeighbours(picture, nearby, m, base, currentColor, remaining, queue, currentGroup,
                        points, done, processed, order);
      ProcessedStep(processed, remainingBefore, remaining, m);
    }
    ClosedOnceDrained(picture, points, remaining, done, currentGroup, order, m);
  }

  /** `queue.popleft()` moves the head of the queue to the end of the processed points. */
  lemma PopFront(processed: seq<Point>, queue: seq<Point>)
    requires queue != []
    ensures processed + queue == (processed + [queue[0]]) + queue[1..]
  {
    assert queue == [queue[0]] + queue[1..];
  }

  /** No point processed so far, the newest included, has a remaining neighbour. */
  lemma ProcessedStep(processed: seq<Point>, before: set<Point>, after: set<Point>, m: int)
    requires |processed| > 0 && after <= before
    requires forall k, q :: 0 <= k < |processed| - 1 && q in before ==> !Adjacent(processed[k], q, m)
    requires forall q :: q in after ==> !Adjacent(processed[|processed| - 1], q, m)
    ensures forall k, q :: 0 <= k < |processed| && q in after ==> !Adjacent(processed[k], q, m)
  {
  }

  /** A drained flood fill leaves its group closed: a neighbour outside it would lie in an earlier, closed group. */
  lemma ClosedOnceDrained(picture: array2<int>, points: set<Point>, remaining: set<Point>,
                          done: seq<set<Point>>, current: set<Point>, order: seq<Point>, m: int)
    requires forall p :: p in points ==> InBounds(p, picture.Length1, picture.Length0)
    requires forall i :: 0 <= i < |done| ==> IsComponent(done[i], points, m)
    requires Filling(picture, points, remaining, done, current, order, m)
    requires forall k, q :: 0 <= k < |order| && q in remaining ==> !Adjacent(order[k], q, m)
    ensures IsComponent(current, points, m)
  {
    ElementAt(order, 0);
    forall p, q | p in current && q in points && Adjacent(p, q, m)
      ensures q in current
    {
      var k := IndexOf(order, p);
      assert q !in remaining;
      AdjacentSymmetric(p, q, m);
      forall i | 0 <= i < |done|
        ensures q !in done[i]
      {
        if q in done[i] {
          assert false;
        }
      }
      var c := picture[q.y, q.x];
    }
  }

  /**
   * `GameInfo._find_groups(points, minimum_points_per_group,
   * max_distance_between_points)`. The result lists every connected
   * component of `points` (diamond adjacency of radius `maxDistance`) that
   * has at least `minSize` points, each exactly once; every other input
   * point lies in a component smaller than `minSize`.
   */
  method FindGroups(info: GameInfo, points: set<Point>, minSize: int, maxDistance: int)
    returns (groups: seq<set<Point>>)
    requires forall p :: p in points ==> InBounds(p, info.width, info.height)
    ensures LargeComponents(groups, points, minSize, maxDistance)
    ensures |groups| <= |points|
  {
    var mapWidth, mapHeight := info.width, info.height;
    var currentColor := NotColoredYet;
    var picture := new int[mapHeight, mapWidth]((_, _) => NotInterested);
    var nearby := Nearby(maxDistance);

    MarkPoints(picture, points, currentColor);

    var remaining := points;
    var queue: seq<Point> := [];
    groups := [];
    ghost var done: seq<set<Point>> := [];
    ghost var kept: seq<int> := [];
    while remaining != {}
      invariant remaining <= points
      invariant queue == []
      invariant currentColor == |done| - 1
      invariant Labelled(picture, points, remaining, done, {})
      invariant Painted(picture, done, {})
      invariant forall i :: 0 <= i < |done| ==> IsComponent(done[i], points, maxDistance)
      invariant KeptExactly(groups, kept, done, minSize)
      invariant |groups| <= |done| && |done| + |remaining| <= |points|
      decreases |remaining|
    {
      var currentGroup;
      remaining, queue, currentGroup, currentColor :=
        NextGroup(picture, nearby, maxDistance, currentColor, remaining, queue, points, done);
      CloseGroup(picture, points, remaining, done, currentGroup);
      ComponentsGrow(done, currentGroup, points, maxDistance);
      KeptGrows(groups, kept, done, currentGroup, minSize);
      if |currentGroup| >= minSize {
        groups := groups + [currentGroup];
        kept := kept + [|done|];
      }
      done := done + [currentGroup];
    }
    KeptGroupsArePartition(picture, points, done, groups, kept, minSize, maxDistance);
  }

  /**
   * One pass of the outer `while remaining` loop up to the size filter: with
   * the queue empty, a fresh colour is taken, an arbitrary remaining point
   * (`remaining.pop()`) seeds the queue, and the group is filled.
   */
  method NextGroup(picture: array2<int>, nearby: set<Point>, m: int, currentColor0: int,
                   remaining0: set<Point>, queue0: seq<Point>,
                   ghost points: set<Point>, ghost done: seq<set<Point>>)
    returns (remaining: set<Point>, queue: seq<Point>, currentGroup: set<Point>, currentColor: int)
    modifies picture
    requires (forall d :: d in nearby <==> Abs(d.x) + Abs(d.y) <= m)
    requires forall p :: p in points ==> InBounds(p, picture.Length1, picture.Length0)
    requires forall i :: 0 <= i < |done| ==> IsComponent(done[i], points, m)
    requires remaining0 != {} && remaining0 <= points && queue0 == [] && currentColor0 == |done| - 1
    requires Labelled(picture, points, remaining0, done, {}) && Painted(picture, done, {})
    ensures queue == [] && currentColor == |done|
    ensures remaining <= remaining0 && |remaining| < |remaining0|
    ensures Labelled(picture, points, remaining, done, currentGroup) && Painted(picture, done, currentGroup)
    ensures IsComponent(currentGroup, points, m)
  {
    remaining, queue, currentGroup, currentColor := remaining0, queue0, {}, currentColor0;
    if queue == [] {
      currentColor := currentColor + 1;
      var start :| start in remaining;
      Paint(picture, start, currentColor, points, remaining, done, currentGroup);
      remaining := remaining - {start};
      queue := queue + [start];
      currentGroup := currentGroup + {start};
      assert Elements(queue) == currentGroup by {
        assert queue[..0] == [];
      }
    }
    remaining, queue, currentGroup :=
      FillGroup(picture, nearby, m, currentColor, remaining, queue, currentGroup, points, done);
  }

  /**
   * The `for point in points: paint(point)` loop, run while the colour is
   * still NOT_COLORED_YET: afterwards exactly the cells of input points are
   * NOT_COLORED_YET and everything is still to be grouped.
   */
  method MarkPoints(picture: array2<int>, points: set<Point>, currentColor: int)
    modifies picture
    requires currentColor == NotColoredYet
    requires forall p :: p in points ==> InBounds(p, picture.Length1, picture.Length0)
    requires forall x, y :: 0 <= y < picture.Length0 && 0 <= x < picture.Length1 ==> picture[y, x] == NotInterested
    ensures Labelled(picture, points, points, [], {}) && Painted(picture, [], {})
  {
    var unpainted := points;
    while unpainted != {}
      invariant unpainted <= points
      invariant forall x, y :: 0 <= y < picture.Length0 && 0 <= x < picture.Length1 ==>
        (picture[y, x] == NotColoredYet <==> Point(x, y) in points - unpainted) &&
        (picture[y, x] == NotInterested <==> Point(x, y) !in points - unpainted)
      decreases unpainted
    {
      var point :| point in unpainted;
      unpainted := unpainted - {point};
      picture[point.y, point.x] := currentColor;
    }
  }

  /** Finishing the open group: it becomes the last entry of `done`, and no group is open. */
  lemma CloseGroup(picture: array2<int>, points: set<Point>, remaining: set<Point>,
                   done: seq<set<Point>>, current: set<Point>)
    requires Labelled(picture, points, remaining, done, current) && Painted(picture, done, current)
    ensures Labelled(picture, points, remaining, done + [current], {})
    ensures Painted(picture, done + [current], {})
  {
    var done' := done + [current];
    forall x, y | 0 <= y < picture.Length0 && 0 <= x < picture.Length1 && 0 <= picture[y, x] < |done'|
      ensures Point(x, y) in done'[picture[y, x]]
    {
    }
  }

  lemma ComponentsGrow(done: seq<set<Point>>, c: set<Point>, points: set<Point>, m: int)
    requires forall i :: 0 <= i < |done| ==> IsComponent(done[i], points, m)
    requires IsComponent(c, points, m)
    ensures forall i :: 0 <= i < |done + [c]| ==> IsComponent((done + [c])[i], points, m)
  {
  }

  /** The `len(currentGroup) >= minimum_points_per_group` filter keeps exactly the large groups. */
  lemma KeptGrows(groups: seq<set<Point>>, kept: seq<int>, done: seq<set<Point>>, c: set<Point>, minSize: int)
    requires KeptExactly(groups, kept, done, minSize)
    ensures |c| >= minSize ==> KeptExactly(groups + [c], kept + [|done|], done + [c], minSize)
    ensures |c| < minSize ==> KeptExactly(groups, kept, done + [c], minSize)
  {
    var done' := done + [c];
    if |c| >= minSize {
      var groups', kept' := groups + [c], kept + [|done|];
      forall k | 0 <= k < |done'| && |done'[k]| >= minSize
        ensures exists i :: 0 <= i < |groups'| && kept'[i] == k
      {
        if k == |done| {
          assert kept'[|groups|] == k;
        } else {
          var i :| 0 <= i < |groups| && kept[i] == k;
          assert kept'[i] == k;
        }
      }
    } else {
      forall k | 0 <= k < |done'| && |done'[k]| >= minSize
        ensures exists i :: 0 <= i < |groups| && kept[i] == k
      {
        assert done'[k] == done[k];
      }
    }
  }

  /** What the finished labelling says about the kept groups. */
  lemma KeptGroupsArePartition(picture: array2<int>, points: set<Point>, done: seq<set<Point>>,
                               groups: seq<set<Point>>, kept: seq<int>, minSize: int, m: int)
    requires forall p :: p in points ==> InBounds(p, picture.Length1, picture.Length0)
    requires Labelled(picture, points, {}, done, {}) && Painted(picture, done, {})
    requires forall i :: 0 <= i < |done| ==> IsComponent(done[i], points, m)
    requires KeptExactly(groups, kept, done, minSize)
    ensures LargeComponents(groups, points, minSize, m)
  {
    KeptDisjoint(picture, done, groups, kept, minSize);
    KeptCoverLarge(picture, points, done, groups, kept, minSize, m);
    DroppedAreSmall(picture, points, done, groups, kept, minSize, m);
  }

  /** Kept groups have different colours, so they share no point. */
  lemma KeptDisjoint(picture: array2<int>, done: seq<set<Point>>,
                     groups: seq<set<Point>>, kept: seq<int>, minSize: int)
    requires Painted(picture, done, {})
    requires KeptExactly(groups, kept, done, minSize)
    ensures forall i, j :: 0 <= i < j < |groups| ==> groups[i] !! groups[j]
  {
    forall i, j | 0 <= i < j < |groups|
      ensures groups[i] !! groups[j]
    {
      forall p | p in groups[i]
        ensures p !in groups[j]
      {
        assert picture[p.y, p.x] == kept[i];
      }
    }
  }

  /** Every large component was filled as some colour, and that colour was kept. */
  lemma KeptCoverLarge(picture: array2<int>, points: set<Point>, done: seq<set<Point>>,
                       groups: seq<set<Point>>, kept: seq<int>, minSize: int, m: int)
    requires forall p :: p in points ==> InBounds(p, picture.Length1, picture.Length0)
    requires Labelled(picture, points, {}, done, {})
    requires forall i :: 0 <= i < |done| ==> IsComponent(done[i], points, m)
    requires KeptExactly(groups, kept, done, minSize)
    ensures forall c :: IsComponent(c, points, m) && |c| >= minSize ==>
      exists i :: 0 <= i < |groups| && groups[i] == c
  {
    forall c | IsComponent(c, points, m) && |c| >= minSize
      ensures exists i :: 0 <= i < |groups| && groups[i] == c
    {
      var p :| p in c;
      var k := picture[p.y, p.x];
      assert p in done[k];
      ComponentsMeetOnlyIfEqual(c, done[k], points, m, p);
      var i :| 0 <= i < |groups| && kept[i] == k;
    }
  }

  /** A point in no kept group was filled into a group that the size filter dropped. */
  lemma DroppedAreSmall(picture: array2<int>, points: set<Point>, done: seq<set<Point>>,
                        groups: seq<set<Point>>, kept: seq<int>, minSize: int, m: int)
    requires forall p :: p in points ==> InBounds(p, picture.Length1, picture.Length0)
    requires Labelled(picture, points, {}, done, {})
    requires forall i :: 0 <= i < |done| ==> IsComponent(done[i], points, m)
    requires KeptExactly(groups, kept, done, minSize)
    ensures forall p :: p in points && (forall i :: 0 <= i < |groups| ==> p !in groups[i]) ==>
      exists c :: IsComponent(c, points, m) && p in c && |c| < minSize
  {
    forall p | p in points && (forall i :: 0 <= i < |groups| ==> p !in groups[i])
      ensures exists c :: IsComponent(c, points, m) && p in c && |c| < minSize
    {
      var k := picture[p.y, p.x];
      assert p in done[k];
    }
  }

  /**
   * The groups are determined by the points alone: whichever point each
   * `remaining.pop()` picks, two runs return the same groups, up to order.
   */
  lemma LargeComponentsDetermined(g1: seq<set<Point>>, g2: seq<set<Point>>, points: set<Point>,
                                  minSize: int, m: int)
    requires LargeComponents(g1, points, minSize, m) && LargeComponents(g2, points, minSize, m)
    ensures |g1| == |g2|
    ensures forall c :: c in g1 <==> c in g2
  {
    GroupsListedIn(g1, g2, points, minSize, m);
    GroupsListedIn(g2, g1, points, minSize, m);
    SameMembersSameLength(g1, g2);
  }

  /** Each group of one result is a group of the other; the groups are non-empty and disjoint. */
  lemma GroupsListedIn(g1: seq<set<Point>>, g2: seq<set<Point>>, points: set<Point>, minSize: int, m: int)
    requires LargeComponents(g1, points, minSize, m) && LargeComponents(g2, points, minSize, m)
    ensures forall c :: c in g1 ==> c in g2
    ensures forall i :: 0 <= i < |g1| ==> g1[i] != {}
    ensures forall i, j :: 0 <= i < j < |g1| ==> g1[i] !! g1[j]
  {
    forall c | c in g1
      ensures c in g2
    {
      var i :| 0 <= i < |g1| && g1[i] == c;
      assert IsComponent(c, points, m) && |c| >= minSize;
    }
  }

  /** Two listings of the same pairwise-disjoint non-empty sets have the same length. */
  lemma SameMembersSameLength(g1: seq<set<Point>>, g2: seq<set<Point>>)
    requires forall i :: 0 <= i < |g1| ==> g1[i] != {}
    requires forall i, j :: 0 <= i < j < |g1| ==> g1[i] !! g1[j]
    requires forall i :: 0 <= i < |g2| ==> g2[i] != {}
    requires forall i, j :: 0 <= i < j < |g2| ==> g2[i] !! g2[j]
    requires forall c :: c in g1 <==> c in g2
    ensures |g1| == |g2|
  {
    DistinctLength(g1);
    DistinctLength(g2);
    assert (set c | c in g1) == (set c | c in g2);
  }

  /** A listing of pairwise-disjoint non-empty sets has as many entries as distinct members. */
  lemma {:induction false} DistinctLength(g: seq<set<Point>>)
    requires forall i :: 0 <= i < |g| ==> g[i] != {}
    requires forall i, j :: 0 <= i < j < |g| ==> g[i] !! g[j]
    ensures |set c | c in g| == |g|
  {
    if g != [] {
      var last := g[|g| - 1];
      var init := g[..|g| - 1];
      DistinctLength(init);
      assert (set c | c in g) == (set c | c in init) + {last};
    }
  }
}
