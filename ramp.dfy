/**
 * `Ramp`: a group of ramp cells together with the map it lies on, and the
 * elevation-derived views of it: the highest and lowest cells, their
 * centres, and the two upper cells a ramp wall is built against. Every view
 * is a function of the cell set and the terrain height map (the source
 * caches them; caching does not change the values).
 */
module Ramps {
  import opened Grid

  /** `current_max` starts here in `upper`: cells lower than this are never upper cells. */
  const UpperSentinel: int := -10000
  /** `current_min` starts here in `lower`: cells higher than this are never lower cells. */
  const LowerSentinel: int := 10000

  datatype Ramp = Ramp(pointSet: set<Point>, info: GameInfo)
  {
    /** `size`: the number of cells. */
    function Size(): (r: nat)
      ensures r == |Points()|
      ensures r == 0 <==> Points() == {}
    {
      |pointSet|
    }

    /** `points`: a copy of the cell set; as a value it is the cell set itself. */
    function Points(): (r: set<Point>)
      ensures forall p :: p in r <==> p in pointSet
    {
      pointSet
    }

    /** `height_at(p)`: a lookup in the terrain height map. */
    function HeightAt(p: Point): (r: int)
      ensures r == info.terrainHeight(p)
    {
      info.terrainHeight(p)
    }

    /**
     * The cells of maximal height, provided that height reaches the
     * sentinel: what the `upper` loop computes.
     */
    function UpperPoints(): set<Point> {
      set p | p in pointSet && HeightAt(p) >= UpperSentinel &&
              forall q :: q in pointSet ==> HeightAt(q) <= HeightAt(p)
    }

    /** The cells of minimal height, provided that height does not exceed the sentinel. */
    function LowerPoints(): set<Point> {
      set p | p in pointSet && HeightAt(p) <= LowerSentinel &&
              forall q :: q in pointSet ==> HeightAt(p) <= HeightAt(q)
    }

    /**
     * `upper`: a running maximum over the cells in an arbitrary order. A
     * cell below the running maximum is skipped, one level with it joins the
     * result, one above it restarts the result.
     */
    method Upper() returns (result: set<Point>)
      ensures result == UpperPoints()
    {
      var currentMax := UpperSentinel;
      result := {};
      var todo := pointSet;
      while todo != {}
        invariant todo <= pointSet && currentMax >= UpperSentinel
        invariant forall q :: q in pointSet - todo ==> HeightAt(q) <= currentMax
        invariant currentMax == UpperSentinel || exists q :: q in pointSet - todo && HeightAt(q) == currentMax
        invariant result == set p | p in pointSet - todo && HeightAt(p) == currentMax
        decreases todo
      {
        var p :| p in todo;
        todo := todo - {p};
        var height := HeightAt(p);
        if height < currentMax {
          continue;
        } else if height == currentMax {
          result := result + {p};
        } else {
          currentMax := height;
          result := {p};
        }
      }
      assert pointSet - todo == pointSet;
    }

    /** `lower`: the running minimum, the mirror image of `upper`. */
    method Lower() returns (result: set<Point>)
      ensures result == LowerPoints()
    {
      var currentMin := LowerSentinel;
      result := {};
      var todo := pointSet;
      while todo != {}
        invariant todo <= pointSet && currentMin <= LowerSentinel
        invariant forall q :: q in pointSet - todo ==> currentMin <= HeightAt(q)
        invariant currentMin == LowerSentinel || exists q :: q in pointSet - todo && HeightAt(q) == currentMin
        invariant result == set p | p in pointSet - todo && HeightAt(p) == currentMin
        decreases todo
      {
        var p :| p in todo;
        todo := todo - {p};
        var height := HeightAt(p);
        if height > currentMin {
          continue;
        } else if height == currentMin {
          result := result + {p};
        } else {
          currentMin := height;
          result := {p};
        }
      }
      assert pointSet - todo == pointSet;
    }

    /**
     * The upper cells all share one height, no cell is higher, and there is
     * an upper cell exactly when some cell reaches the sentinel height.
     */
    lemma UpperIsMaximum()
      ensures UpperPoints() <= pointSet
      ensures forall p, q :: p in UpperPoints() && q in UpperPoints() ==> HeightAt(p) == HeightAt(q)
      ensures forall p, q :: p in UpperPoints() && q in pointSet ==> HeightAt(q) <= HeightAt(p)
      ensures UpperPoints() != {} <==> exists p :: p in pointSet && HeightAt(p) >= UpperSentinel
    {
      if p :| p in pointSet && HeightAt(p) >= UpperSentinel {
        var top := MaximumExists(pointSet, q => HeightAt(q) as real);
        assert top in UpperPoints();
      }
    }

    /** The mirror image of `UpperIsMaximum` for the lower cells. */
    lemma LowerIsMinimum()
      ensures LowerPoints() <= pointSet
      ensures forall p, q :: p in LowerPoints() && q in LowerPoints() ==> HeightAt(p) == HeightAt(q)
      ensures forall p, q :: p in LowerPoints() && q in pointSet ==> HeightAt(p) <= HeightAt(q)
      ensures LowerPoints() != {} <==> exists p :: p in pointSet && HeightAt(p) <= LowerSentinel
    {
      if p :| p in pointSet && HeightAt(p) <= LowerSentinel {
        var bottom := MaximumExists(pointSet, q => -HeightAt(q) as real);
        assert bottom in LowerPoints();
      }
    }

    /** `top_center`: the mean of the upper cells; a ramp without upper cells divides by zero. */
    ghost function TopCenter(): (r: Outcome<RPoint>)
      ensures r.Ok? <==> UpperPoints() != {}
      ensures r.Fail? ==> r.error == ZeroDivision
    {
      Center(UpperPoints())
    }

    /** `bottom_center`: the mean of the lower cells; a ramp without lower cells divides by zero. */
    ghost function BottomCenter(): (r: Outcome<RPoint>)
      ensures r.Ok? <==> LowerPoints() != {}
      ensures r.Fail? ==> r.error == ZeroDivision
    {
      Center(LowerPoints())
    }

    /**
     * `upper2_for_ramp_wall`: nothing for a ramp with more than five upper
     * cells; otherwise the upper cells sorted by squared distance to the
     * bottom centre, farthest first, cut to the first two. The sort key
     * needs the bottom centre only when there is something to sort, so an
     * empty upper set yields the empty set and does not divide by zero.
     */
    ghost function Upper2ForRampWall(): (r: Outcome<set<Point>>)
      ensures r.Ok? ==> r.value <= UpperPoints()
      ensures |UpperPoints()| > 5 ==> r == Ok({})
      ensures r.Ok? <==> (UpperPoints() == {} || |UpperPoints()| > 5 || LowerPoints() != {})
      ensures r.Fail? ==> r.error == ZeroDivision
    {
      var upper := UpperPoints();
      if |upper| > 5 then Ok({})
      else if upper == {} then Ok({})
      else match BottomCenter()
        case Fail(e) => Fail(e)
        case Ok(bottom) =>
          var sorted := SortDesc(ListOf(upper), DistanceFrom(bottom));
          SortedListing(upper, DistanceFrom(bottom));
          Ok(set p | p in sorted[..Min(2, |sorted|)])
    }

    /**
     * What `upper2_for_ramp_wall` keeps on a ramp with at most five upper
     * cells: min(2, |upper|) of them, and no dropped upper cell is farther
     * from the bottom centre than a kept one.
     */
    lemma {:induction false} Upper2KeepsFarthest()
      requires |UpperPoints()| <= 5
      requires UpperPoints() != {} ==> LowerPoints() != {}
      ensures Upper2ForRampWall().Ok?
      ensures |Upper2ForRampWall().value| == Min(2, |UpperPoints()|)
      ensures UpperPoints() != {} ==> BottomCenter().Ok?
      ensures UpperPoints() != {} ==>
        forall k, d :: k in Upper2ForRampWall().value && d in UpperPoints() - Upper2ForRampWall().value ==>
          DistanceSquared(ToReal(d), BottomCenter().value) <= DistanceSquared(ToReal(k), BottomCenter().value)
    {
      var upper := UpperPoints();
      if upper != {} {
        var key := DistanceFrom(BottomCenter().value);
        var sorted := SortDesc(ListOf(upper), key);
        SortedListing(upper, key);
        PrefixKeepsLargest(sorted, key, Min(2, |sorted|));
      }
    }

    /** Once there are upper cells to sort, the bottom centre exists; otherwise the sort fails. */
    lemma Upper2NeedsLowerCells()
      requires Upper2ForRampWall().Ok? && Upper2ForRampWall().value != {}
      ensures LowerPoints() != {} && BottomCenter().Ok?
    {
    }
  }

  /**
   * The sum of `f` over a finite set, taking the elements in an arbitrary
   * order (the order does not change the sum).
   */
  ghost function SumOf(s: set<Point>, f: Point -> int): int
    decreases s
  {
    if s == {} then 0 else var p :| p in s; f(p) + SumOf(s - {p}, f)
  }

  /** The sum does not depend on which element is taken first. */
  lemma {:induction false} SumRemove(s: set<Point>, f: Point -> int, y: Point)
    requires y in s
    ensures SumOf(s, f) == f(y) + SumOf(s - {y}, f)
    decreases s
  {
    var p :| p in s && SumOf(s, f) == f(p) + SumOf(s - {p}, f);
    if p != y {
      SumRemove(s - {p}, f, y);
      SumRemove(s - {y}, f, p);
      assert s - {p} - {y} == s - {y} - {p};
    }
  }

  /** A lower bound on every element bounds the sum from below. */
  lemma {:induction false} SumAtLeast(s: set<Point>, f: Point -> int, lo: int)
    requires forall p :: p in s ==> lo <= f(p)
    ensures |s| * lo <= SumOf(s, f)
    decreases s
  {
    if s != {} {
      var p :| p in s;
      SumRemove(s, f, p);
      SumAtLeast(s - {p}, f, lo);
      MulSucc(|s - {p}|, lo);
    }
  }

  lemma MulSucc(n: int, a: int)
    ensures (n + 1) * a == n * a + a
  {
  }

  /** An upper bound on every element bounds the sum from above. */
  lemma {:induction false} SumAtMost(s: set<Point>, f: Point -> int, hi: int)
    requires forall p :: p in s ==> f(p) <= hi
    ensures SumOf(s, f) <= |s| * hi
    decreases s
  {
    if s != {} {
      var p :| p in s;
      SumRemove(s, f, p);
      SumAtMost(s - {p}, f, hi);
      MulSucc(|s - {p}|, hi);
    }
  }

  function XOf(p: Point): int { p.x }
  function YOf(p: Point): int { p.y }

  /** The sort key of `upper2_for_ramp_wall`: squared distance to `bottom`. */
  function DistanceFrom(bottom: RPoint): Point -> real {
    p => DistanceSquared(ToReal(p), bottom)
  }

  /**
   * `Point2((sum(p.x for p in s) / len(s), sum(p.y for p in s) / len(s)))`:
   * the arithmetic mean of the cells, or a division by zero for no cells.
   */
  ghost function Center(s: set<Point>): (r: Outcome<RPoint>)
    ensures r.Ok? <==> s != {}
    ensures r.Fail? ==> r.error == ZeroDivision
  {
    if |s| == 0 then Fail(ZeroDivision)
    else Ok(RPoint(SumOf(s, XOf) as real / |s| as real, SumOf(s, YOf) as real / |s| as real))
  }

  /** The mean of cells inside an axis-aligned box lies inside the box. */
  lemma CenterInBox(s: set<Point>, minX: int, maxX: int, minY: int, maxY: int)
    requires s != {}
    requires forall p :: p in s ==> minX <= p.x <= maxX && minY <= p.y <= maxY
    ensures minX as real <= Center(s).value.x <= maxX as real
    ensures minY as real <= Center(s).value.y <= maxY as real
  {
    SumAtLeast(s, XOf, minX);
    SumAtMost(s, XOf, maxX);
    SumAtLeast(s, YOf, minY);
    SumAtMost(s, YOf, maxY);
    MeanBounds(SumOf(s, XOf), |s|, minX, maxX);
    MeanBounds(SumOf(s, YOf), |s|, minY, maxY);
  }

  /** A single cell is its own centre. */
  lemma CenterOfSingleton(p: Point)
    ensures Center({p}) == Ok(ToReal(p))
  {
    SumRemove({p}, XOf, p);
    SumRemove({p}, YOf, p);
    assert {p} - {p} == {};
  }

  /** The centre of two distinct cells lies halfway between them. */
  lemma CenterOfPair(p: Point, q: Point)
    requires p != q
    ensures Center({p, q}) == Ok(RPoint((p.x + q.x) as real / 2.0, (p.y + q.y) as real / 2.0))
  {
    SumRemove({p, q}, XOf, p);
    SumRemove({p, q}, YOf, p);
    assert {p, q} - {p} == {q};
    CenterOfSingleton(q);
    assert |{p, q}| == 2;
  }

  /** A total between n * lo and n * hi has its mean between lo and hi. */
  lemma MeanBounds(total: int, n: int, lo: int, hi: int)
    requires n > 0 && n * lo <= total <= n * hi
    ensures lo as real <= total as real / n as real <= hi as real
  {
    var m := total as real / n as real;
    assert total as real == m * n as real;
    assert (n * lo) as real == n as real * lo as real;
    assert (n * hi) as real == n as real * hi as real;
  }

  /** `list(s)`: the elements of a set in some order, each once. */
  ghost function ListOf(s: set<Point>): (r: seq<Point>)
    ensures |r| == |s| && (forall p :: p in r <==> p in s)
    ensures Distinct(r)
    decreases s
  {
    if s == {} then [] else var p :| p in s; [p] + ListOf(s - {p})
  }

  ghost predicate Distinct(s: seq<Point>) {
    forall i, j :: 0 <= i < j < |s| ==> s[i] != s[j]
  }

  /** `s` is ordered by `key`, largest first. */
  ghost predicate Descending(s: seq<Point>, key: Point -> real) {
    forall i, j :: 0 <= i < j < |s| ==> key(s[i]) >= key(s[j])
  }

  /** Insertion of `x` into a list kept largest-first by `key`. */
  function InsertDesc(x: Point, s: seq<Point>, key: Point -> real): (r: seq<Point>)
    ensures |r| == |s| + 1
    ensures forall p :: p in r <==> p == x || p in s
  {
    if s == [] || key(x) >= key(s[0]) then [x] + s else [s[0]] + InsertDesc(x, s[1..], key)
  }

  /** `sorted(s, key=key, reverse=True)`. */
  function SortDesc(s: seq<Point>, key: Point -> real): (r: seq<Point>)
    ensures |r| == |s|
    ensures forall p :: p in r <==> p in s
  {
    if s == [] then [] else InsertDesc(s[0], SortDesc(s[1..], key), key)
  }

  lemma {:induction false} InsertDescPermutation(x: Point, s: seq<Point>, key: Point -> real)
    ensures multiset(InsertDesc(x, s, key)) == multiset([x] + s)
    decreases |s|
  {
    if s != [] && key(x) < key(s[0]) {
      InsertDescPermutation(x, s[1..], key);
      assert s == [s[0]] + s[1..];
    }
  }

  /** Sorting only reorders. */
  lemma {:induction false} SortDescPermutation(s: seq<Point>, key: Point -> real)
    ensures multiset(SortDesc(s, key)) == multiset(s)
    decreases |s|
  {
    if s != [] {
      SortDescPermutation(s[1..], key);
      InsertDescPermutation(s[0], SortDesc(s[1..], key), key);
      assert s == [s[0]] + s[1..];
    }
  }

  lemma {:induction false} InsertDescOrdered(x: Point, s: seq<Point>, key: Point -> real)
    requires Descending(s, key)
    ensures Descending(InsertDesc(x, s, key), key)
    ensures forall i :: 0 <= i < |InsertDesc(x, s, key)| ==>
      InsertDesc(x, s, key)[i] == x || InsertDesc(x, s, key)[i] in s
    decreases |s|
  {
    if s != [] && key(x) < key(s[0]) {
      InsertDescOrdered(x, s[1..], key);
      var r := InsertDesc(x, s[1..], key);
      forall i | 0 <= i < |r|
        ensures key(r[i]) <= key(s[0])
      {
        if r[i] != x {
          var j :| 0 <= j < |s[1..]| && s[1..][j] == r[i];
          assert s[j + 1] == r[i];
        }
      }
    }
  }

  /** Sorting leaves the list largest-first. */
  lemma {:induction false} SortDescOrdered(s: seq<Point>, key: Point -> real)
    ensures Descending(SortDesc(s, key), key)
    decreases |s|
  {
    if s != [] {
      SortDescOrdered(s[1..], key);
      InsertDescOrdered(s[0], SortDesc(s[1..], key), key);
    }
  }

  /** Sorting the listing of a set lists every element once, largest first. */
  lemma SortedListing(s: set<Point>, key: Point -> real)
    ensures |SortDesc(ListOf(s), key)| == |s|
    ensures forall p :: p in SortDesc(ListOf(s), key) <==> p in s
    ensures Distinct(SortDesc(ListOf(s), key)) && Descending(SortDesc(ListOf(s), key), key)
  {
    var listed := ListOf(s);
    var sorted := SortDesc(listed, key);
    SortDescPermutation(listed, key);
    SortDescOrdered(listed, key);
    DistinctPermutation(listed, sorted);
    assert |sorted| == |multiset(sorted)| == |multiset(listed)| == |listed|;
    forall p
      ensures p in sorted <==> p in s
    {
      assert p in sorted <==> p in multiset(sorted);
      assert p in listed <==> p in multiset(listed);
    }
  }

  /**
   * The first `n` entries of a largest-first list without repetitions are
   * `n` distinct values, none smaller than an entry left out.
   */
  lemma PrefixKeepsLargest(sorted: seq<Point>, key: Point -> real, n: nat)
    requires Distinct(sorted) && Descending(sorted, key) && n <= |sorted|
    ensures |set p | p in sorted[..n]| == n
    ensures forall k, d :: k in sorted[..n] && d in sorted && d !in sorted[..n] ==> key(d) <= key(k)
  {
    DistinctCard(sorted[..n]);
    forall k, d | k in sorted[..n] && d in sorted && d !in sorted[..n]
      ensures key(d) <= key(k)
    {
      var i :| 0 <= i < n && sorted[i] == k;
      var j :| 0 <= j < |sorted| && sorted[j] == d;
      assert j >= n;
    }
  }

  /** A reordering of a list without repetitions has no repetitions. */
  lemma DistinctPermutation(s: seq<Point>, t: seq<Point>)
    requires Distinct(s) && multiset(s) == multiset(t)
    ensures Distinct(t)
  {
    forall i, j | 0 <= i < j < |t|
      ensures t[i] != t[j]
    {
      if t[i] == t[j] {
        TwiceCounted(t, i, j);
        DistinctCount(s, t[i]);
        assert false;
      }
    }
  }

  /** A value at two positions of a list occurs in it at least twice. */
  lemma TwiceCounted(t: seq<Point>, i: nat, j: nat)
    requires i < j < |t| && t[i] == t[j]
    ensures multiset(t)[t[i]] >= 2
  {
    assert t == t[..j] + t[j..];
    assert t[i] == t[..j][i];
    assert t[j] == t[j..][0];
  }

  /** In a list without repetitions every value occurs at most once. */
  lemma {:induction false} DistinctCount(s: seq<Point>, x: Point)
    requires Distinct(s)
    ensures multiset(s)[x] <= 1
    decreases |s|
  {
    if s != [] {
      DistinctCount(s[1..], x);
      assert s == [s[0]] + s[1..];
      if s[0] == x {
        assert x !in s[1..];
      }
    }
  }

  /** A list without repetitions has as many elements as its set. */
  lemma {:induction false} DistinctCard(s: seq<Point>)
    requires Distinct(s)
    ensures |set p | p in s| == |s|
    decreases |s|
  {
    if s != [] {
      DistinctCard(s[1..]);
      assert (set p | p in s) == {s[0]} + (set p | p in s[1..]);
      assert s[0] !in (set p | p in s[1..]);
    }
  }

  /**
   * The `while len(upper2) > 2: upper2.pop()` loop: popping from the end
   * until at most two remain keeps the first min(2, |s|) elements.
   */
  method TrimToTwo(s: seq<Point>) returns (r: seq<Point>)
    ensures r == s[..Min(2, |s|)]
  {
    r := s;
    while |r| > 2
      invariant Min(2, |s|) <= |r| <= |s| && r == s[..|r|]
      decreases |r|
    {
      r := r[..|r| - 1];
    }
  }
}
