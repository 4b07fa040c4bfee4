/**
 Andrew's monotone-chain convex hull: sort the points, sweep the lower chain
 over them and the upper chain over their reversal, and join the two chains
 without their last points.
 */
module HullBuilder {
  import opened Geometry
  import opened Sorting
  import opened Chains

  /** Python's c[:-1]: all but the last element; the empty list stays empty. */
  function DropLast(c: seq<Point>): seq<Point>
  {
    if c == [] then [] else c[..|c| - 1]
  }

  /** The lower chain: the sweep over the sorted points. */
  function LowerChain(points: seq<Point>): seq<Point>
  {
    Chain(SortPoints(points))
  }

  /** The upper chain: the sweep over the sorted points in reverse. */
  function UpperChain(points: seq<Point>): seq<Point>
  {
    Chain(Reverse(SortPoints(points)))
  }

  /** The hull convex_hull returns for these points. */
  function Hull(points: seq<Point>): seq<Point>
  {
    DropLast(LowerChain(points)) + DropLast(UpperChain(points))
  }

  /** The Python convex_hull, with its two sweeps. */
  method ConvexHull(points: seq<Point>) returns (hull: seq<Point>)
    ensures hull == Hull(points)
    ensures forall q :: q in hull ==> q in points
    ensures |points| <= 1 ==> hull == []
  {
    var sorted := SortPoints(points);
    var lower := BuildChain(sorted);
    var upper := BuildChain(Reverse(sorted));
    hull := DropLast(lower) + DropLast(upper);
    assert hull == Hull(points);
    HullElementsFromInput(points);
    if |points| <= 1 {
      HullOfAtMostOnePoint(points);
    }
  }

  /** Sorting neither adds nor loses points. */
  lemma SortedElements(points: seq<Point>)
    ensures forall q :: q in SortPoints(points) <==> q in points
  {
    var s := SortPoints(points);
    forall q ensures q in s <==> q in points {
      assert q in s <==> q in multiset(s);
      assert q in points <==> q in multiset(points);
    }
  }

  /** Reversal neither adds nor loses points. */
  lemma ReversedElements(s: seq<Point>)
    ensures forall q :: q in Reverse(s) <==> q in s
  {
    forall q | q in Reverse(s) ensures q in s {
      var k :| 0 <= k < |s| && Reverse(s)[k] == q;
      assert q == s[|s| - 1 - k];
    }
    forall q | q in s ensures q in Reverse(s) {
      var k :| 0 <= k < |s| && s[k] == q;
      assert Reverse(s)[|s| - 1 - k] == q;
    }
  }

  /** The lower chain turns strictly left, and has no more points than the input and at least two from two on. */
  lemma LowerChainShape(points: seq<Point>)
    ensures LeftTurns(LowerChain(points)) && |LowerChain(points)| <= |points|
    ensures |points| <= 1 ==> DropLast(LowerChain(points)) == []
    ensures points != [] ==> |LowerChain(points)| >= 1
    ensures |points| >= 2 ==> |LowerChain(points)| >= 2
  {
    var s := SortPoints(points);
    ChainShape(s);
    assert |s| == |points|;
    assert LowerChain(points) == Chain(s);
  }

  /** The lower chain runs from the first sorted point to the last. */
  lemma LowerChainEnds(points: seq<Point>)
    requires points != []
    ensures |LowerChain(points)| >= 1
    ensures LowerChain(points)[0] == SortPoints(points)[0]
    ensures LowerChain(points)[|LowerChain(points)| - 1] == SortPoints(points)[|points| - 1]
  {
    var s := SortPoints(points);
    ChainShape(s);
    assert |s| == |points|;
    assert LowerChain(points) == Chain(s);
  }

  /** The upper chain turns strictly left, and has no more points than the input and at least two from two on. */
  lemma UpperChainShape(points: seq<Point>)
    ensures LeftTurns(UpperChain(points)) && |UpperChain(points)| <= |points|
    ensures |points| <= 1 ==> DropLast(UpperChain(points)) == []
    ensures points != [] ==> |UpperChain(points)| >= 1
    ensures |points| >= 2 ==> |UpperChain(points)| >= 2
  {
    var r := Reverse(SortPoints(points));
    ChainShape(r);
    assert |r| == |points|;
    assert UpperChain(points) == Chain(r);
  }

  /** The upper chain runs from the last sorted point back to the first. */
  lemma UpperChainEnds(points: seq<Point>)
    requires points != []
    ensures |UpperChain(points)| >= 1
    ensures UpperChain(points)[0] == SortPoints(points)[|points| - 1]
    ensures UpperChain(points)[|UpperChain(points)| - 1] == SortPoints(points)[0]
  {
    var s := SortPoints(points);
    var r := Reverse(s);
    var u := Chain(r);
    assert u == UpperChain(points);
    assert |r| == |s| == |points|;
    assert u[0] == s[|s| - 1] && u[|u| - 1] == s[0] by {
      ChainShape(r);
      assert r[0] == s[|s| - 1] && r[|r| - 1] == s[0];
    }
  }

  /** Every element of the chains, and so of the hull, is an input point. */
  lemma HullElementsFromInput(points: seq<Point>)
    ensures forall q :: q in LowerChain(points) ==> q in points
    ensures forall q :: q in UpperChain(points) ==> q in points
    ensures forall q :: q in Hull(points) ==> q in points
  {
    var s := SortPoints(points);
    SortedElements(points);
    ReversedElements(s);
    ChainElements(s);
    ChainElements(Reverse(s));
    var l, u := LowerChain(points), UpperChain(points);
    assert forall q :: q in DropLast(l) ==> q in l;
    assert forall q :: q in DropLast(u) ==> q in u;
  }

  /** The first point of the sorted sequence is the least input point, the last the greatest. */
  lemma SortedEnds(points: seq<Point>)
    requires points != []
    ensures forall q :: q in points ==> LexLe(SortPoints(points)[0], q)
    ensures forall q :: q in points ==> LexLe(q, SortPoints(points)[|points| - 1])
  {
    var s := SortPoints(points);
    forall q | q in points
      ensures LexLe(s[0], q) && LexLe(q, s[|s| - 1])
    {
      assert q in s by {
        assert q in multiset(points);
      }
      SortedHeadIsLeast(s, q);
      SortedLastIsGreatest(s, q);
    }
  }

  /**
   For a non-empty input the lower chain runs from the least input point to
   the greatest, and the upper chain from the greatest back to the least.
   */
  lemma ChainsMeetAtExtremes(points: seq<Point>)
    requires points != []
    ensures |LowerChain(points)| >= 1 && |UpperChain(points)| >= 1
    ensures forall q :: q in points ==> LexLe(LowerChain(points)[0], q)
    ensures forall q :: q in points ==> LexLe(q, LowerChain(points)[|LowerChain(points)| - 1])
    ensures UpperChain(points)[0] == LowerChain(points)[|LowerChain(points)| - 1]
    ensures UpperChain(points)[|UpperChain(points)| - 1] == LowerChain(points)[0]
  {
    LowerChainEnds(points);
    UpperChainEnds(points);
    SortedEnds(points);
  }

  /**
   For a non-empty input the hull is the lower chain without its last point
   followed by the upper chain without its last point, so it has
   |lower| + |upper| - 2 points; from two points on, the hull starts with the
   lower chain's first point and switches to the upper chain at its first
   point.
   */
  lemma HullLayout(points: seq<Point>)
    requires points != []
    ensures |LowerChain(points)| >= 1 && |UpperChain(points)| >= 1
    ensures |Hull(points)| == |LowerChain(points)| + |UpperChain(points)| - 2
    ensures Hull(points)[..|LowerChain(points)| - 1] == LowerChain(points)[..|LowerChain(points)| - 1]
    ensures Hull(points)[|LowerChain(points)| - 1..] == UpperChain(points)[..|UpperChain(points)| - 1]
    ensures |points| >= 2 ==> |LowerChain(points)| >= 2 && |UpperChain(points)| >= 2
    ensures |points| >= 2 ==> Hull(points)[0] == LowerChain(points)[0]
    ensures |points| >= 2 ==> Hull(points)[|LowerChain(points)| - 1] == UpperChain(points)[0]
  {
    var l, u, h := LowerChain(points), UpperChain(points), Hull(points);
    assert |l| >= 1 && |u| >= 1 && (|points| >= 2 ==> |l| >= 2 && |u| >= 2) by {
      LowerChainShape(points);
      UpperChainShape(points);
    }
    assert h == DropLast(l) + DropLast(u);
    JoinLayout(l, u);
  }

  /** Joining two non-empty chains without their last points. */
  lemma JoinLayout(l: seq<Point>, u: seq<Point>)
    requires |l| >= 1 && |u| >= 1
    ensures |DropLast(l) + DropLast(u)| == |l| + |u| - 2
    ensures (DropLast(l) + DropLast(u))[..|l| - 1] == l[..|l| - 1]
    ensures (DropLast(l) + DropLast(u))[|l| - 1..] == u[..|u| - 1]
    ensures |l| >= 2 ==> (DropLast(l) + DropLast(u))[0] == l[0]
    ensures |u| >= 2 ==> (DropLast(l) + DropLast(u))[|l| - 1] == u[0]
  {
    var h := DropLast(l) + DropLast(u);
    assert h == l[..|l| - 1] + u[..|u| - 1];
  }

  /** Fewer than two points: both chains have at most one point, so nothing is returned. */
  lemma HullOfAtMostOnePoint(points: seq<Point>)
    requires |points| <= 1
    ensures Hull(points) == []
  {
    LowerChainShape(points);
    UpperChainShape(points);
  }

  /** Two points come back in sorted order, even when they coincide. */
  lemma HullOfTwoPoints(a: Point, b: Point)
    ensures Hull([a, b]) == if LexLe(a, b) then [a, b] else [b, a]
  {
    var lo, hi := if LexLe(a, b) then a else b, if LexLe(a, b) then b else a;
    var s := SortPoints([a, b]);
    assert s == [lo, hi] by {
      SortOfTwo(a, b);
    }
    var r := Reverse(s);
    assert r == [hi, lo] by {
      ReverseOfTwo(lo, hi);
    }
    var l, u := Chain(s), Chain(r);
    assert DropLast(l) == [lo] by {
      ChainOfTwo(lo, hi);
      DropLastOfTwo(lo, hi);
    }
    assert DropLast(u) == [hi] by {
      ChainOfTwo(hi, lo);
      DropLastOfTwo(hi, lo);
    }
    assert Hull([a, b]) == DropLast(l) + DropLast(u);
  }

  /** Python's [x, y][:-1]. */
  lemma DropLastOfTwo(x: Point, y: Point)
    ensures DropLast([x, y]) == [x]
  {
  }

  /** Python's [a, b, c][:-1]. */
  lemma DropLastOfThree(a: Point, b: Point, c: Point)
    ensures DropLast([a, b, c]) == [a, b]
  {
  }

  /** The sweep over a collinear triple pops its middle point. */
  lemma ChainOfCollinearTriple(a: Point, b: Point, c: Point)
    requires Orientation(a, b, c) == 0
    ensures Chain([a, b, c]) == [a, c]
  {
    ChainOfTwo(a, b);
    assert [a, b, c] == [a, b] + [c];
    ChainStepPops([a, b], a, b, c);
  }

  /** The upper sweep over a collinear triple also pops its middle point. */
  lemma UpperChainOfCollinearTriple(a: Point, b: Point, c: Point)
    requires LexLe(a, b) && LexLe(b, c)
    requires Orientation(a, b, c) == 0
    ensures UpperChain([a, b, c]) == [c, a]
  {
    var s := SortPoints([a, b, c]);
    assert Reverse(s) == [c, b, a] by {
      SortOfSortedTriple(a, b, c);
      ReverseOfThree(a, b, c);
    }
    assert Orientation(c, b, a) == 0 by {
      OrientationSwapNegates(c, a, b);
      OrientationRotates(a, b, c);
    }
    ChainOfCollinearTriple(c, b, a);
  }

  /**
   Three collinear points given in sorted order: the middle one is pruned from
   both chains, so only the two ends are returned.
   */
  lemma HullOfCollinearTriple(a: Point, b: Point, c: Point)
    requires LexLe(a, b) && LexLe(b, c)
    requires Orientation(a, b, c) == 0
    ensures Hull([a, b, c]) == [a, c]
  {
    var l, u := LowerChain([a, b, c]), UpperChain([a, b, c]);
    assert l == [a, c] by {
      SortOfSortedTriple(a, b, c);
      ChainOfCollinearTriple(a, b, c);
    }
    assert u == [c, a] by {
      UpperChainOfCollinearTriple(a, b, c);
    }
    assert DropLast(l) == [a] && DropLast(u) == [c] by {
      DropLastOfTwo(a, c);
      DropLastOfTwo(c, a);
    }
    assert Hull([a, b, c]) == [a] + [c];
  }

  /** The hull depends only on which points are given, with multiplicity, not on their order. */
  lemma HullOfPermutation(a: seq<Point>, b: seq<Point>)
    requires multiset(a) == multiset(b)
    ensures Hull(a) == Hull(b)
  {
    SortedPermutationUnique(SortPoints(a), SortPoints(b));
  }

  /** Three collinear points in any input order: only the two extreme ones are returned. */
  lemma HullOfCollinearPoints(points: seq<Point>, a: Point, b: Point, c: Point)
    requires LexLe(a, b) && LexLe(b, c)
    requires Orientation(a, b, c) == 0
    requires multiset(points) == multiset([a, b, c])
    ensures Hull(points) == [a, c]
  {
    HullOfPermutation(points, [a, b, c]);
    HullOfCollinearTriple(a, b, c);
  }

  /** Translating the input translates the hull. */
  lemma HullTranslate(points: seq<Point>, d: Point)
    ensures Hull(TranslateAll(points, d)) == TranslateAll(Hull(points), d)
  {
    var s := SortPoints(points);
    SortTranslate(points, d);
    ReverseTranslate(s, d);
    ChainTranslate(s, d);
    ChainTranslate(Reverse(s), d);
    var l, u := Chain(s), Chain(Reverse(s));
    DropLastTranslate(l, d);
    DropLastTranslate(u, d);
    TranslateAllAppend(DropLast(l), DropLast(u), d);
  }

  /** Dropping the last point commutes with translation. */
  lemma DropLastTranslate(c: seq<Point>, d: Point)
    ensures DropLast(TranslateAll(c, d)) == TranslateAll(DropLast(c), d)
  {
    if c != [] {
      assert c == c[..|c| - 1] + [c[|c| - 1]];
      TranslateAllAppend(c[..|c| - 1], [c[|c| - 1]], d);
    }
  }
}
