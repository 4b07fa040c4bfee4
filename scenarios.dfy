/**
 The configuration the source runs: the corners of a square plus a point M
 derived from a parameter lambda, M = (-2 + lambda, 3 - lambda).
 */
module Scenarios {
  import opened Geometry
  import opened Sorting
  import opened Chains
  import opened HullBuilder

  const A := Point(3, -3)
  const B := Point(3, 3)
  const C := Point(-3, -3)
  const D := Point(-3, 3)

  /** The fifth point for a given lambda. */
  function M(lambda: int): Point
  {
    Point(-2 + lambda, 3 - lambda)
  }

  /**
   The pattern both demo sweeps follow: the third and fourth points each
   replace the top of the chain, the fifth is pushed.
   */
  lemma ChainPopPopKeep(p0: Point, p1: Point, p2: Point, p3: Point, p4: Point)
    requires Orientation(p0, p1, p2) <= 0
    requires Orientation(p0, p2, p3) <= 0
    requires Orientation(p0, p3, p4) > 0
    ensures Chain([p0, p1, p2, p3, p4]) == [p0, p3, p4]
  {
    ChainOfTwo(p0, p1);
    assert [p0, p1, p2] == [p0, p1] + [p2];
    ChainStepPops([p0, p1], p0, p1, p2);
    assert [p0, p1, p2, p3] == [p0, p1, p2] + [p3];
    ChainStepPops([p0, p1, p2], p0, p2, p3);
    assert [p0, p1, p2, p3, p4] == [p0, p1, p2, p3] + [p4];
    ChainStepKeeps([p0, p1, p2, p3], p0, p3, p4);
  }

  /**
   The pattern of the upper sweep over a repeated least point: the third point
   replaces the top, the fourth is pushed, and the repeat of the fourth
   replaces it again, then is pushed back because the turn before it is left.
   */
  lemma ChainPopKeepRepop(p0: Point, p1: Point, p2: Point, p3: Point, p4: Point)
    requires Orientation(p0, p1, p2) <= 0
    requires Orientation(p0, p2, p3) > 0
    requires Orientation(p2, p3, p4) <= 0 && Orientation(p0, p2, p4) > 0
    ensures Chain([p0, p1, p2, p3, p4]) == [p0, p2, p4]
  {
    ChainOfTwo(p0, p1);
    assert [p0, p1, p2] == [p0, p1] + [p2];
    ChainStepPops([p0, p1], p0, p1, p2);
    assert [p0, p1, p2, p3] == [p0, p1, p2] + [p3];
    ChainStepKeeps([p0, p1, p2], p0, p2, p3);
    assert [p0, p1, p2, p3, p4] == [p0, p1, p2, p3] + [p4];
    ChainStepPopsThenKeeps([p0, p1, p2, p3], p0, p2, p3, p4);
  }

  /** Five points with the least one repeated, in the input order o, o, r, q, p. */
  lemma SortOfRepeatedLeast(o: Point, p: Point, q: Point, r: Point)
    requires LexLe(o, p) && LexLe(p, q) && LexLe(q, r)
    ensures SortPoints([o, o, r, q, p]) == [o, o, p, q, r]
  {
    var t, s := [o, o, r, q, p], [o, o, p, q, r];
    SortedOfFive(o, o, p, q, r);
    ReverseLastThreeOfFive(o, o, p, q, r);
    SortedPermutationIsSortPoints(t, s);
  }

  /** Reversing three points keeps the same points. */
  lemma MultisetReverseThree(x: Point, y: Point, z: Point)
    ensures multiset([x, y, z]) == multiset([z, y, x])
  {
  }

  /** Reversing the last three of five points keeps the same points. */
  lemma ReverseLastThreeOfFive(p0: Point, p1: Point, p2: Point, p3: Point, p4: Point)
    ensures multiset([p0, p1, p4, p3, p2]) == multiset([p0, p1, p2, p3, p4])
  {
    MultisetReverseThree(p4, p3, p2);
    assert [p0, p1, p4, p3, p2] == [p0, p1] + [p4, p3, p2];
    assert [p0, p1, p2, p3, p4] == [p0, p1] + [p2, p3, p4];
  }

  /** The lower chain over a repeated least point: the repeat is popped at once. */
  lemma LowerChainOfRepeatedLeast(o: Point, p: Point, q: Point, r: Point)
    requires LexLe(o, p) && LexLe(p, q) && LexLe(q, r)
    requires Orientation(o, p, q) <= 0 && Orientation(o, q, r) > 0
    ensures LowerChain([o, o, r, q, p]) == [o, q, r]
  {
    SortOfRepeatedLeast(o, p, q, r);
    ChainPopPopKeep(o, o, p, q, r);
  }

  /** The upper chain over a repeated least point: the repeat is popped at the end. */
  lemma UpperChainOfRepeatedLeast(o: Point, p: Point, q: Point, r: Point)
    requires LexLe(o, p) && LexLe(p, q) && LexLe(q, r)
    requires Orientation(r, q, p) <= 0 && Orientation(r, p, o) > 0
    ensures UpperChain([o, o, r, q, p]) == [r, p, o]
  {
    var s := SortPoints([o, o, r, q, p]);
    assert Reverse(s) == [r, q, p, o, o] by {
      SortOfRepeatedLeast(o, p, q, r);
      ReverseOfFive(o, o, p, q, r);
    }
    ChainPopKeepRepop(r, q, p, o, o);
  }

  /**
   Four corners p, q, r around a least point o given twice, in the input order
   o, o, r, q, p: the repeat of o is popped from both chains, so the hull holds
   each corner once.
   */
  lemma HullWithRepeatedLeast(o: Point, p: Point, q: Point, r: Point)
    requires LexLe(o, p) && LexLe(p, q) && LexLe(q, r)
    requires Orientation(o, p, q) <= 0 && Orientation(o, q, r) > 0
    requires Orientation(r, q, p) <= 0 && Orientation(r, p, o) > 0
    ensures Hull([o, o, r, q, p]) == [o, q, r, p]
  {
    LowerChainOfRepeatedLeast(o, p, q, r);
    UpperChainOfRepeatedLeast(o, p, q, r);
    DropLastOfThree(o, q, r);
    DropLastOfThree(r, p, o);
  }

  /**
   A square of side k with its least corner given twice, in the input order
   (0, 0), (0, 0), (k, k), (k, 0), (0, k): the hull holds each corner once,
   counter-clockwise from (0, 0).
   */
  lemma HullOfSquareWithRepeat(k: int)
    requires k > 0
    ensures Hull([Point(0, 0), Point(0, 0), Point(k, k), Point(k, 0), Point(0, k)])
         == [Point(0, 0), Point(k, 0), Point(k, k), Point(0, k)]
  {
    var o, p, q, r := Point(0, 0), Point(0, k), Point(k, 0), Point(k, k);
    assert k * k > 0;
    HullWithRepeatedLeast(o, p, q, r);
  }

  /** The turns the two demo sweeps test. */
  lemma DemoTurns(lambda: int)
    requires 0 <= lambda < 5
    ensures Orientation(C, D, M(lambda)) == -6 * (1 + lambda) < 0
    ensures Orientation(C, M(lambda), A) == -6 * (6 - lambda) < 0
    ensures Orientation(C, A, B) == 36
    ensures Orientation(B, A, M(lambda)) == 6 * (lambda - 5) < 0
    ensures Orientation(B, M(lambda), D) == -6 * lambda <= 0
    ensures Orientation(B, D, C) == 36
  {
  }

  /** Five points in non-decreasing order form a sorted sequence. */
  lemma SortedOfFive(p0: Point, p1: Point, p2: Point, p3: Point, p4: Point)
    requires LexLe(p0, p1) && LexLe(p1, p2) && LexLe(p2, p3) && LexLe(p3, p4)
    ensures Sorted([p0, p1, p2, p3, p4])
  {
    var s := [p0, p1, p2, p3, p4];
    forall i, j | 0 <= i < j < 5 ensures LexLe(s[i], s[j]) {
      LexLeIsTotalOrder(p0, p1, p2);
      LexLeIsTotalOrder(p1, p2, p3);
      LexLeIsTotalOrder(p2, p3, p4);
      LexLeIsTotalOrder(p0, p2, p3);
      LexLeIsTotalOrder(p1, p3, p4);
      LexLeIsTotalOrder(p0, p3, p4);
    }
  }

  /** Swapping the two halves of a sequence keeps its points. */
  lemma MultisetSwap(a: seq<Point>, b: seq<Point>)
    ensures multiset(a + b) == multiset(b + a)
  {
  }

  /** Moving the first two of five points to the back keeps the same points. */
  lemma RotateTwoOfFive(p0: Point, p1: Point, p2: Point, p3: Point, p4: Point)
    ensures multiset([p0, p1, p2, p3, p4]) == multiset([p2, p3, p4, p0, p1])
  {
    var a, b := [p0, p1], [p2, p3, p4];
    assert [p0, p1, p2, p3, p4] == a + b;
    assert [p2, p3, p4, p0, p1] == b + a;
    MultisetSwap(a, b);
  }

  /** The demo points in the order sorted() gives them. */
  lemma DemoSorted(lambda: int)
    requires 0 <= lambda < 5
    ensures SortPoints([A, B, C, D, M(lambda)]) == [C, D, M(lambda), A, B]
  {
    var m := M(lambda);
    SortedOfFive(C, D, m, A, B);
    RotateTwoOfFive(A, B, C, D, m);
    SortedPermutationIsSortPoints([A, B, C, D, m], [C, D, m, A, B]);
  }

  /** The lower chain of the demo: D and then M are popped. */
  lemma DemoLowerChain(lambda: int)
    requires 0 <= lambda < 5
    ensures LowerChain([A, B, C, D, M(lambda)]) == [C, A, B]
  {
    DemoSorted(lambda);
    DemoTurns(lambda);
    ChainPopPopKeep(C, D, M(lambda), A, B);
  }

  /** The upper chain of the demo: A and then M are popped. */
  lemma DemoUpperChain(lambda: int)
    requires 0 <= lambda < 5
    ensures UpperChain([A, B, C, D, M(lambda)]) == [B, D, C]
  {
    var m := M(lambda);
    var r := Reverse(SortPoints([A, B, C, D, m]));
    assert r == [B, A, m, D, C] by {
      DemoSorted(lambda);
      ReverseOfFive(C, D, m, A, B);
    }
    assert Chain(r) == [B, D, C] by {
      DemoTurns(lambda);
      ChainPopPopKeep(B, A, m, D, C);
    }
  }

  /**
   The source's configuration, for the parameter values it suggests (0, 1, 2)
   and every other one up to 4: M lies on the top edge (lambda = 0) or inside
   the square, the test orientation <= 0 pops it from both chains, and the
   hull is the four corners, counter-clockwise from the least corner.
   */
  lemma DemoHull(lambda: int)
    requires 0 <= lambda < 5
    ensures Hull([A, B, C, D, M(lambda)]) == [C, A, B, D]
  {
    DemoLowerChain(lambda);
    DemoUpperChain(lambda);
    DropLastOfThree(C, A, B);
    DropLastOfThree(B, D, C);
  }
}
