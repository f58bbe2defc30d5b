/**
 * Connected components of a point set under the diamond adjacency of
 * radius `m`. A component is a non-empty subset that is closed (no point of
 * the whole set lies at a diamond offset from a member without being a
 * member) and connected (its members can be listed so that each one after
 * the first is adjacent to an earlier one, which is the order a flood fill
 * discovers them in).
 */
module Components {
  import opened Grid

  /** No point of `pts` adjacent to a member of `c` lies outside `c`. */
  ghost predicate Closed(c: set<Point>, pts: set<Point>, m: int) {
    forall p, q :: p in c && q in pts && Adjacent(p, q, m) ==> q in c
  }

  /** The set of elements of a listing. */
  ghost function Elements(s: seq<Point>): set<Point> {
    if s == [] then {} else Elements(s[..|s| - 1]) + {s[|s| - 1]}
  }

  /** Element `k` of the listing is adjacent to an element before it. */
  ghost predicate HasEarlierNeighbour(s: seq<Point>, k: int, m: int)
    requires 0 <= k < |s|
  {
    exists j :: 0 <= j < k && Adjacent(s[j], s[k], m)
  }

  /** Every element after the first is adjacent to some earlier element. */
  ghost predicate IsChain(s: seq<Point>, m: int) {
    forall k :: 0 < k < |s| ==> HasEarlierNeighbour(s, k, m)
  }

  ghost predicate Connected(c: set<Point>, m: int) {
    exists s :: |s| > 0 && Elements(s) == c && IsChain(s, m)
  }

  ghost predicate IsComponent(c: set<Point>, pts: set<Point>, m: int) {
    c != {} && c <= pts && Closed(c, pts, m) && Connected(c, m)
  }

  lemma {:induction false} ElementAt(s: seq<Point>, k: nat)
    requires k < |s|
    ensures s[k] in Elements(s)
    decreases |s|
  {
    if k < |s| - 1 {
      ElementAt(s[..|s| - 1], k);
    }
  }

  lemma {:induction false} IndexOf(s: seq<Point>, p: Point) returns (k: nat)
    requires p in Elements(s)
    ensures k < |s| && s[k] == p
    decreases |s|
  {
    if s[|s| - 1] == p {
      k := |s| - 1;
    } else {
      k := IndexOf(s[..|s| - 1], p);
    }
  }

  /** Appending a point adjacent to an earlier element keeps a listing a chain, and adds the point. */
  lemma ChainGrows(s: seq<Point>, p: Point, j: nat, m: int)
    requires IsChain(s, m)
    requires j < |s| && Adjacent(s[j], p, m)
    ensures IsChain(s + [p], m) && Elements(s + [p]) == Elements(s) + {p}
  {
    var t := s + [p];
    assert t[..|t| - 1] == s;
    forall k | 0 < k < |t|
      ensures HasEarlierNeighbour(t, k, m)
    {
      if k == |s| {
        assert t[j] == s[j];
      } else {
        assert HasEarlierNeighbour(s, k, m);
        var i :| 0 <= i < k && Adjacent(s[i], s[k], m);
        assert t[i] == s[i] && t[k] == s[k];
      }
    }
  }

  /** Walking back along a chain from a member of a closed set reaches the chain's root. */
  lemma {:induction false} RootInClosed(s: seq<Point>, i: nat, c: set<Point>, pts: set<Point>, m: int)
    requires IsChain(s, m) && i < |s|
    requires Elements(s) <= pts
    requires Closed(c, pts, m) && s[i] in c
    ensures s[0] in c
    decreases i
  {
    if i > 0 {
      assert HasEarlierNeighbour(s, i, m);
      var j :| 0 <= j < i && Adjacent(s[j], s[i], m);
      AdjacentSymmetric(s[j], s[i], m);
      ElementAt(s, j);
      RootInClosed(s, j, c, pts, m);
    }
  }

  /** Walking forward along a chain from its root stays inside a closed set. */
  lemma {:induction false} ChainInClosed(s: seq<Point>, k: nat, c: set<Point>, pts: set<Point>, m: int)
    requires IsChain(s, m) && k < |s|
    requires Elements(s) <= pts
    requires Closed(c, pts, m) && s[0] in c
    ensures s[k] in c
    decreases k
  {
    if k > 0 {
      assert HasEarlierNeighbour(s, k, m);
      var j :| 0 <= j < k && Adjacent(s[j], s[k], m);
      ChainInClosed(s, j, c, pts, m);
      ElementAt(s, k);
    }
  }

  /** A connected subset of `pts` that meets a closed subset lies inside it. */
  lemma ConnectedMeetsClosed(c1: set<Point>, c2: set<Point>, pts: set<Point>, m: int, p: Point)
    requires Connected(c1, m) && c1 <= pts
    requires Closed(c2, pts, m)
    requires p in c1 && p in c2
    ensures c1 <= c2
  {
    var s :| |s| > 0 && Elements(s) == c1 && IsChain(s, m);
    var i := IndexOf(s, p);
    RootInClosed(s, i, c2, pts, m);
    forall q | q in c1
      ensures q in c2
    {
      var k := IndexOf(s, q);
      ChainInClosed(s, k, c2, pts, m);
    }
  }

  /**
   * Two components that share a point are equal: the partition into
   * components does not depend on where a flood fill starts.
   */
  lemma ComponentsMeetOnlyIfEqual(c1: set<Point>, c2: set<Point>, pts: set<Point>, m: int, p: Point)
    requires IsComponent(c1, pts, m) && IsComponent(c2, pts, m)
    requires p in c1 && p in c2
    ensures c1 == c2
  {
    ConnectedMeetsClosed(c1, c2, pts, m, p);
    ConnectedMeetsClosed(c2, c1, pts, m, p);
  }
}
