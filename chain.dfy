/**
 One sweep of the monotone chain: a stack of points that is popped while its
 last two points and the incoming point fail to turn strictly left, and then
 pushed. The Python source runs this sweep twice, over the sorted points for
 the lower hull and over their reversal for the upper hull.
 */
module Chains {
  import opened Geometry

  /** The triple of c starting at position k turns strictly left. */
  predicate LeftTurnAt(c: seq<Point>, k: nat)
    requires k + 2 < |c|
  {
    Orientation(c[k], c[k + 1], c[k + 2]) > 0
  }

  /** Every consecutive triple of c turns strictly left. */
  predicate LeftTurns(c: seq<Point>)
  {
    forall k: nat :: k + 2 < |c| ==> LeftTurnAt(c, k)
  }

  /**
   The stack c after the pops that precede pushing p: the last point is
   removed while at least two remain and the top two with p do not turn
   strictly left.
   */
  function PopNonLeft(c: seq<Point>, p: Point): (r: seq<Point>)
    ensures |r| <= |c| && r == c[..|r|]
    ensures |c| >= 1 ==> |r| >= 1
    decreases |c|
  {
    if |c| >= 2 && Orientation(c[|c| - 2], c[|c| - 1], p) <= 0 then
      PopNonLeft(c[..|c| - 1], p)
    else
      c
  }

  /** Popping stops at fewer than two points or at a strict left turn onto p. */
  lemma {:induction false} PopNonLeftStops(c: seq<Point>, p: Point)
    ensures var r := PopNonLeft(c, p); |r| >= 2 ==> Orientation(r[|r| - 2], r[|r| - 1], p) > 0
    decreases |c|
  {
    if |c| >= 2 && Orientation(c[|c| - 2], c[|c| - 1], p) <= 0 {
      PopNonLeftStops(c[..|c| - 1], p);
    }
  }

  /** One step of the sweep: pop, then push p. */
  function Push(c: seq<Point>, p: Point): seq<Point>
  {
    PopNonLeft(c, p) + [p]
  }

  /** The chain the sweep has built once it has processed pts in order. */
  function Chain(pts: seq<Point>): seq<Point>
    decreases |pts|
  {
    if pts == [] then [] else Push(Chain(pts[..|pts| - 1]), pts[|pts| - 1])
  }

  /**
   Only strict left turns survive on the chain, it is no longer than its
   input, a pop never empties it, it starts at the first point processed and
   ends at the last one, and from two points on it holds at least two.
   */
  lemma {:induction false} ChainShape(pts: seq<Point>)
    ensures LeftTurns(Chain(pts))
    ensures |Chain(pts)| <= |pts|
    ensures pts == [] ==> Chain(pts) == []
    ensures pts != [] ==> |Chain(pts)| >= 1 && Chain(pts)[0] == pts[0]
    ensures pts != [] ==> Chain(pts)[|Chain(pts)| - 1] == pts[|pts| - 1]
    ensures |pts| >= 2 ==> |Chain(pts)| >= 2
    decreases |pts|
  {
    if pts != [] {
      var init, p := pts[..|pts| - 1], pts[|pts| - 1];
      ChainShape(init);
      PushKeepsLeftTurns(Chain(init), p);
      var kept := PopNonLeft(Chain(init), p);
      assert Chain(pts) == kept + [p];
      if |init| >= 1 {
        assert kept[0] == Chain(init)[0] == init[0] == pts[0];
      }
    }
  }

  /** Sweeping one more point is one more pop-then-push step. */
  lemma ChainSnoc(pts: seq<Point>, p: Point)
    ensures Chain(pts + [p]) == Push(Chain(pts), p)
  {
    assert (pts + [p])[..|pts|] == pts;
  }

  /** The sweep over two points keeps both, even when they coincide. */
  lemma ChainOfTwo(a: Point, b: Point)
    ensures Chain([a, b]) == [a, b]
  {
    ChainSnoc([], a);
    ChainSnoc([a], b);
  }

  /** A point that does not turn left after a two-point chain replaces its top. */
  lemma ChainStepPops(s: seq<Point>, a: Point, b: Point, p: Point)
    requires Chain(s) == [a, b] && Orientation(a, b, p) <= 0
    ensures Chain(s + [p]) == [a, p]
  {
    ChainSnoc(s, p);
    PopOffTwo(a, b, p);
  }

  /** Two points that do not turn left onto p: the top one is popped. */
  lemma PopOffTwo(a: Point, b: Point, p: Point)
    requires Orientation(a, b, p) <= 0
    ensures PopNonLeft([a, b], p) == [a]
  {
    var t := [a, b];
    assert t[..1] == [a];
  }

  /** A point that turns left after a two-point chain is pushed on it. */
  lemma ChainStepKeeps(s: seq<Point>, a: Point, b: Point, p: Point)
    requires Chain(s) == [a, b] && Orientation(a, b, p) > 0
    ensures Chain(s + [p]) == [a, b, p]
  {
    ChainSnoc(s, p);
  }

  /**
   A point that does not turn left after a three-point chain replaces its top,
   and is then pushed because it turns left after the first two.
   */
  lemma ChainStepPopsThenKeeps(s: seq<Point>, a: Point, b: Point, c: Point, p: Point)
    requires Chain(s) == [a, b, c]
    requires Orientation(b, c, p) <= 0 && Orientation(a, b, p) > 0
    ensures Chain(s + [p]) == [a, b, p]
  {
    ChainSnoc(s, p);
    var t := [a, b, c];
    assert t[..2] == [a, b];
    assert PopNonLeft(t, p) == PopNonLeft([a, b], p);
  }

  /** Popping and then pushing keeps only strict left turns on the stack. */
  lemma PushKeepsLeftTurns(c: seq<Point>, p: Point)
    requires LeftTurns(c)
    ensures LeftTurns(Push(c, p))
  {
    var r := PopNonLeft(c, p);
    PopNonLeftStops(c, p);
    var s := r + [p];
    forall k: nat | k + 2 < |s|
      ensures LeftTurnAt(s, k)
    {
      if k + 2 < |r| {
        assert LeftTurnAt(c, k);
        assert s[k] == c[k] && s[k + 1] == c[k + 1] && s[k + 2] == c[k + 2];
      } else {
        assert s[k] == r[|r| - 2] && s[k + 1] == r[|r| - 1] && s[k + 2] == p;
      }
    }
  }

  /** A prefix of a chain of left turns is one too. */
  lemma LeftTurnsPrefix(c: seq<Point>, m: nat)
    requires LeftTurns(c) && m <= |c|
    ensures LeftTurns(c[..m])
  {
    forall k: nat | k + 2 < m ensures LeftTurnAt(c[..m], k) {
      assert LeftTurnAt(c, k);
    }
  }

  /**
   A chain of three or more points that turns strictly left never holds the
   same point twice in a row: a repeated point makes the turn through it
   degenerate.
   */
  lemma LeftTurnsNoAdjacentRepeat(c: seq<Point>)
    requires LeftTurns(c) && |c| >= 3
    ensures forall k :: 0 <= k < |c| - 1 ==> c[k] != c[k + 1]
  {
    forall k | 0 <= k < |c| - 1
      ensures c[k] != c[k + 1]
    {
      if k + 2 < |c| {
        assert LeftTurnAt(c, k);
      } else {
        assert LeftTurnAt(c, k - 1);
      }
    }
  }

  /** idx lists, in strictly increasing order, the positions in b of the elements of a. */
  ghost predicate IndexedBy(a: seq<Point>, b: seq<Point>, idx: seq<nat>)
  {
    && |idx| == |a|
    && (forall k :: 0 <= k < |idx| ==> idx[k] < |b| && a[k] == b[idx[k]])
    && (forall k, l :: 0 <= k < l < |idx| ==> idx[k] < idx[l])
  }

  /** a is obtained from b by deleting elements, keeping the order of the rest. */
  ghost predicate IsSubsequence(a: seq<Point>, b: seq<Point>)
  {
    exists idx :: IndexedBy(a, b, idx)
  }

  /** Every element of a subsequence is an element of the sequence. */
  lemma SubsequenceElements(a: seq<Point>, b: seq<Point>)
    requires IsSubsequence(a, b)
    ensures |a| <= |b|
    ensures forall q :: q in a ==> q in b
  {
    var idx :| IndexedBy(a, b, idx);
    forall q | q in a ensures q in b {
      var k :| 0 <= k < |a| && a[k] == q;
      assert b[idx[k]] == q;
    }
    IndexBound(idx, |b|);
  }

  /** A strictly increasing list of positions below n has at most n entries. */
  lemma {:induction false} IndexBound(idx: seq<nat>, n: nat)
    requires forall k :: 0 <= k < |idx| ==> idx[k] < n
    requires forall k, l :: 0 <= k < l < |idx| ==> idx[k] < idx[l]
    ensures |idx| <= n
    decreases n
  {
    if idx != [] {
      var last := idx[|idx| - 1];
      IndexBound(idx[..|idx| - 1], last);
    }
  }

  /** Keeping a prefix of a subsequence keeps the matching prefix of its positions. */
  lemma IndexedByPrefix(a: seq<Point>, b: seq<Point>, idx: seq<nat>, m: nat)
    requires IndexedBy(a, b, idx) && m <= |a|
    ensures IndexedBy(a[..m], b, idx[..m])
  {
  }

  /** Appending the same point to both sequences extends the positions by the new last one. */
  lemma IndexedByAppend(a: seq<Point>, b: seq<Point>, idx: seq<nat>, x: Point)
    requires IndexedBy(a, b, idx)
    ensures IndexedBy(a + [x], b + [x], idx + [|b|])
  {
  }

  /** The chain is an order-preserving subsequence of the points it swept. */
  lemma {:induction false} ChainIsSubsequence(pts: seq<Point>)
    ensures IsSubsequence(Chain(pts), pts)
    decreases |pts|
  {
    if pts == [] {
      assert IndexedBy([], pts, []);
    } else {
      var init, p := pts[..|pts| - 1], pts[|pts| - 1];
      assert pts == init + [p];
      ChainIsSubsequence(init);
      var prev := Chain(init);
      var idx :| IndexedBy(prev, init, idx);
      var kept := PopNonLeft(prev, p);
      IndexedByPrefix(prev, init, idx, |kept|);
      IndexedByAppend(kept, init, idx[..|kept|], p);
      assert Chain(pts) == kept + [p];
      assert IndexedBy(Chain(pts), pts, idx[..|kept|] + [|init|]);
    }
  }

  /** Every point of the chain is one of the swept points, and the chain is no longer than they are. */
  lemma ChainElements(pts: seq<Point>)
    ensures forall q :: q in Chain(pts) ==> q in pts
    ensures |Chain(pts)| <= |pts|
  {
    ChainIsSubsequence(pts);
    SubsequenceElements(Chain(pts), pts);
  }

  /**
   One iteration of the Python sweep on the list, held as a seq: pop while the top
   two points and p fail to turn strictly left, then append p. A list with
   only strict left turns keeps that property.
   */
  method PushPoint(stack: seq<Point>, p: Point) returns (chain: seq<Point>)
    requires LeftTurns(stack)
    ensures chain == Push(stack, p)
    ensures LeftTurns(chain)
  {
    chain := stack;
    while |chain| >= 2 && Orientation(chain[|chain| - 2], chain[|chain| - 1], p) <= 0
      invariant PopNonLeft(chain, p) == PopNonLeft(stack, p)
      invariant LeftTurns(chain)
      decreases |chain|
    {
      LeftTurnsPrefix(chain, |chain| - 1);
      chain := chain[..|chain| - 1];
    }
    PushKeepsLeftTurns(stack, p);
    chain := chain + [p];
  }

  /**
   The sweep of the Python source over all of pts. The loop keeps the list
   equal to the chain of the points processed so far, with only strict left
   turns on it.
   */
  method BuildChain(pts: seq<Point>) returns (chain: seq<Point>)
    ensures chain == Chain(pts)
    ensures LeftTurns(chain)
    ensures IsSubsequence(chain, pts)
  {
    chain := [];
    for i := 0 to |pts|
      invariant chain == Chain(pts[..i])
      invariant LeftTurns(chain)
    {
      chain := PushPoint(chain, pts[i]);
      assert pts[..i + 1][..i] == pts[..i];
    }
    assert pts[..|pts|] == pts;
    ChainIsSubsequence(pts);
  }

  /** The pop test gives the same answer on the translated stack and point. */
  lemma PopTestTranslate(c: seq<Point>, p: Point, d: Point)
    requires |c| >= 2
    ensures var tc, n := TranslateAll(c, d), |c|;
      Orientation(tc[n - 2], tc[n - 1], Translate(p, d)) == Orientation(c[n - 2], c[n - 1], p)
  {
    TranslateInvariance(c[|c| - 2], c[|c| - 1], p, d);
  }

  /** A stack that pops its top also pops it once translated. */
  lemma PopTranslatedPops(c: seq<Point>, p: Point, d: Point)
    requires |c| >= 2 && Orientation(c[|c| - 2], c[|c| - 1], p) <= 0
    ensures PopNonLeft(TranslateAll(c, d), Translate(p, d))
         == PopNonLeft(TranslateAll(c[..|c| - 1], d), Translate(p, d))
  {
    var n, init, tc, tp := |c|, c[..|c| - 1], TranslateAll(c, d), Translate(p, d);
    assert |tc| == n;
    assert Orientation(tc[n - 2], tc[n - 1], tp) <= 0 by {
      PopTestTranslate(c, p, d);
    }
    assert PopNonLeft(tc, tp) == PopNonLeft(tc[..n - 1], tp);
    TranslateAllPrefix(c, d, n - 1);
  }

  /** A stack that stops popping also stops once translated. */
  lemma PopTranslatedStops(c: seq<Point>, p: Point, d: Point)
    requires |c| < 2 || Orientation(c[|c| - 2], c[|c| - 1], p) > 0
    ensures PopNonLeft(TranslateAll(c, d), Translate(p, d)) == TranslateAll(c, d)
  {
    if |c| >= 2 {
      PopTestTranslate(c, p, d);
    }
  }

  /** Popping the translated stack pops the same points. */
  lemma {:induction false} PopNonLeftTranslate(c: seq<Point>, p: Point, d: Point)
    ensures PopNonLeft(TranslateAll(c, d), Translate(p, d)) == TranslateAll(PopNonLeft(c, p), d)
    decreases |c|
  {
    if |c| >= 2 && Orientation(c[|c| - 2], c[|c| - 1], p) <= 0 {
      PopTranslatedPops(c, p, d);
      PopNonLeftTranslate(c[..|c| - 1], p, d);
    } else {
      PopTranslatedStops(c, p, d);
    }
  }

  /** Sweeping translated points builds the translated chain. */
  lemma {:induction false} ChainTranslate(pts: seq<Point>, d: Point)
    ensures Chain(TranslateAll(pts, d)) == TranslateAll(Chain(pts), d)
    decreases |pts|
  {
    if pts != [] {
      var init, p := pts[..|pts| - 1], pts[|pts| - 1];
      var ti, tq := TranslateAll(init, d), Translate(p, d);
      var kept := PopNonLeft(Chain(init), p);
      assert pts == init + [p];
      assert TranslateAll(pts, d) == ti + [tq] by {
        TranslateAllAppend(init, [p], d);
      }
      assert Chain(ti + [tq]) == PopNonLeft(Chain(ti), tq) + [tq] by {
        ChainSnoc(ti, tq);
      }
      assert PopNonLeft(Chain(ti), tq) == TranslateAll(kept, d) by {
        ChainTranslate(init, d);
        PopNonLeftTranslate(Chain(init), p, d);
      }
      assert Chain(pts) == kept + [p] by {
        ChainSnoc(init, p);
      }
      TranslateAllAppend(kept, [p], d);
    }
  }
}
