/**
 The sort that opens the monotone chain: Python's sorted() on (x, y) tuples.
 It is modelled as an insertion sort whose result is proved to be a
 non-decreasing permutation of its input; since a sorted permutation is
 unique, any correct sort yields the same sequence.
 */
module Sorting {
  import opened Geometry

  /** s is non-decreasing in the tuple order. */
  predicate Sorted(s: seq<Point>)
  {
    forall i, j :: 0 <= i < j < |s| ==> LexLe(s[i], s[j])
  }

  /** Inserts p in front of the first element of s that p does not exceed. */
  function Insert(p: Point, s: seq<Point>): (r: seq<Point>)
    ensures |r| == |s| + 1
    ensures multiset(r) == multiset(s) + multiset{p}
    ensures r[0] == p || (s != [] && r[0] == s[0])
    decreases |s|
  {
    if s == [] then [p]
    else if LexLe(p, s[0]) then [p] + s
    else
      assert s == [s[0]] + s[1..];
      [s[0]] + Insert(p, s[1..])
  }

  /** x is below or equal to every point of s. */
  predicate LowerBound(x: Point, s: seq<Point>)
  {
    forall k :: 0 <= k < |s| ==> LexLe(x, s[k])
  }

  /** A lower bound of a sorted sequence can be put in front of it. */
  lemma SortedCons(x: Point, s: seq<Point>)
    requires LowerBound(x, s) && Sorted(s)
    ensures Sorted([x] + s)
  {
    var r := [x] + s;
    forall i, j | 0 <= i < j < |r| ensures LexLe(r[i], r[j]) {
      if i == 0 {
        assert r[j] == s[j - 1];
      } else {
        assert r[i] == s[i - 1] && r[j] == s[j - 1];
      }
    }
  }

  /** A lower bound of p and of s is a lower bound of s with p inserted. */
  lemma {:induction false} InsertBound(x: Point, p: Point, s: seq<Point>)
    requires LexLe(x, p) && LowerBound(x, s)
    ensures LowerBound(x, Insert(p, s))
    decreases |s|
  {
    if s != [] && !LexLe(p, s[0]) {
      var t := s[1..];
      assert LowerBound(x, t) by {
        forall k | 0 <= k < |t| ensures LexLe(x, t[k]) {
          assert t[k] == s[k + 1];
        }
      }
      InsertBound(x, p, t);
      var r := [s[0]] + Insert(p, t);
      assert Insert(p, s) == r;
      forall k | 0 <= k < |r| ensures LexLe(x, r[k]) {
        if k > 0 {
          assert r[k] == Insert(p, t)[k - 1];
        }
      }
    }
  }

  /** Inserting into a sorted sequence keeps it sorted. */
  lemma {:induction false} InsertSorted(p: Point, s: seq<Point>)
    requires Sorted(s)
    ensures Sorted(Insert(p, s))
    decreases |s|
  {
    if s == [] {
    } else if LexLe(p, s[0]) {
      assert LowerBound(p, s) by {
        forall k | 0 <= k < |s| ensures LexLe(p, s[k]) {
          assert k == 0 || LexLe(s[0], s[k]);
        }
      }
      SortedCons(p, s);
    } else {
      var t := s[1..];
      SortedTail(s);
      assert LowerBound(s[0], t) by {
        forall k | 0 <= k < |t| ensures LexLe(s[0], t[k]) {
          assert t[k] == s[k + 1];
        }
      }
      InsertSorted(p, t);
      InsertBound(s[0], p, t);
      SortedCons(s[0], Insert(p, t));
    }
  }

  /** The points of s in the tuple order, duplicates kept. */
  function SortPoints(s: seq<Point>): (r: seq<Point>)
    ensures |r| == |s|
    ensures multiset(r) == multiset(s)
    ensures Sorted(r)
  {
    if s == [] then []
    else
      assert s == [s[0]] + s[1..];
      InsertSorted(s[0], SortPoints(s[1..]));
      Insert(s[0], SortPoints(s[1..]))
  }

  /** The head of a sorted sequence is below or equal to each of its points. */
  lemma SortedHeadIsLeast(s: seq<Point>, x: Point)
    requires Sorted(s) && x in s
    ensures LexLe(s[0], x)
  {
    var k :| 0 <= k < |s| && s[k] == x;
    assert k == 0 || LexLe(s[0], s[k]);
  }

  /** The last point of a sorted sequence is above or equal to each of its points. */
  lemma SortedLastIsGreatest(s: seq<Point>, x: Point)
    requires Sorted(s) && x in s
    ensures LexLe(x, s[|s| - 1])
  {
    var k :| 0 <= k < |s| && s[k] == x;
    assert k == |s| - 1 || LexLe(s[k], s[|s| - 1]);
  }

  /** Removing equal heads from two sequences with the same points leaves tails with the same points. */
  lemma MultisetTail(a: seq<Point>, b: seq<Point>)
    requires a != [] && b != [] && a[0] == b[0] && multiset(a) == multiset(b)
    ensures multiset(a[1..]) == multiset(b[1..])
  {
    var x := a[0];
    assert a == [x] + a[1..] && b == [x] + b[1..];
    forall z ensures multiset(a[1..])[z] == multiset(b[1..])[z] {
      assert multiset(a)[z] == multiset{x}[z] + multiset(a[1..])[z];
      assert multiset(b)[z] == multiset{x}[z] + multiset(b[1..])[z];
    }
  }

  /** Two sorted permutations of the same points are equal. */
  lemma {:induction false} SortedPermutationUnique(a: seq<Point>, b: seq<Point>)
    requires Sorted(a) && Sorted(b)
    requires multiset(a) == multiset(b)
    ensures a == b
    decreases |a|
  {
    assert |a| == |multiset(a)| == |multiset(b)| == |b|;
    if a != [] {
      assert a[0] in multiset(b) && b[0] in multiset(a);
      SortedHeadIsLeast(a, b[0]);
      SortedHeadIsLeast(b, a[0]);
      assert a[0] == b[0];
      MultisetTail(a, b);
      assert Sorted(a[1..]) && Sorted(b[1..]) by {
        SortedTail(a);
        SortedTail(b);
      }
      SortedPermutationUnique(a[1..], b[1..]);
      assert a == [a[0]] + a[1..] && b == [b[0]] + b[1..];
    }
  }

  /** The tail of a sorted sequence is sorted. */
  lemma SortedTail(s: seq<Point>)
    requires Sorted(s) && s != []
    ensures Sorted(s[1..])
  {
    var t := s[1..];
    forall i, j | 0 <= i < j < |t| ensures LexLe(t[i], t[j]) {
      assert t[i] == s[i + 1] && t[j] == s[j + 1];
    }
  }

  /** Any sequence that a correct sort could return is the one SortPoints returns. */
  lemma SortedPermutationIsSortPoints(s: seq<Point>, t: seq<Point>)
    requires Sorted(t) && multiset(t) == multiset(s)
    ensures t == SortPoints(s)
  {
    SortedPermutationUnique(t, SortPoints(s));
  }

  /** Translating the points before sorting is the same as translating after. */
  lemma {:induction false} InsertTranslate(p: Point, s: seq<Point>, d: Point)
    ensures TranslateAll(Insert(p, s), d) == Insert(Translate(p, d), TranslateAll(s, d))
    decreases |s|
  {
    if s != [] {
      TranslateInvariance(p, s[0], p, d);
      if !LexLe(p, s[0]) {
        InsertTranslate(p, s[1..], d);
      }
    }
  }

  /** Sorting commutes with translation. */
  lemma {:induction false} SortTranslate(s: seq<Point>, d: Point)
    ensures TranslateAll(SortPoints(s), d) == SortPoints(TranslateAll(s, d))
  {
    if s != [] {
      SortTranslate(s[1..], d);
      InsertTranslate(s[0], SortPoints(s[1..]), d);
    }
  }

  /** Python's reversed(): the same points, last first. */
  function Reverse(s: seq<Point>): (r: seq<Point>)
    ensures |r| == |s|
    ensures forall k :: 0 <= k < |s| ==> r[k] == s[|s| - 1 - k]
  {
    if s == [] then [] else Reverse(s[1..]) + [s[0]]
  }

  /** Reversing x followed by s puts x last. */
  lemma ReverseCons(x: Point, s: seq<Point>)
    ensures Reverse([x] + s) == Reverse(s) + [x]
  {
    assert ([x] + s)[1..] == s;
  }

  /** Reversal commutes with translation. */
  lemma ReverseTranslate(s: seq<Point>, d: Point)
    ensures TranslateAll(Reverse(s), d) == Reverse(TranslateAll(s, d))
  {
    var l, r := TranslateAll(Reverse(s), d), Reverse(TranslateAll(s, d));
    assert |l| == |r|;
    assert forall k :: 0 <= k < |l| ==> l[k] == r[k];
  }

  /** Sorting two points puts the lesser first. */
  lemma SortOfTwo(a: Point, b: Point)
    ensures SortPoints([a, b]) == if LexLe(a, b) then [a, b] else [b, a]
  {
    assert [a, b][1..] == [b];
    assert SortPoints([b]) == [b] by {
      assert [b][1..] == [];
    }
  }

  /** Reversal of two points. */
  lemma ReverseOfTwo(x: Point, y: Point)
    ensures Reverse([x, y]) == [y, x]
  {
    assert [x, y][1..] == [y];
    assert [y][1..] == [];
  }

  /** Three points in non-decreasing order sort to themselves. */
  lemma SortOfSortedTriple(a: Point, b: Point, c: Point)
    requires LexLe(a, b) && LexLe(b, c)
    ensures SortPoints([a, b, c]) == [a, b, c]
  {
    assert Sorted([a, b, c]) by {
      LexLeIsTotalOrder(a, b, c);
    }
    SortedPermutationIsSortPoints([a, b, c], [a, b, c]);
  }

  /** Reversal of three points. */
  lemma ReverseOfThree(a: Point, b: Point, c: Point)
    ensures Reverse([a, b, c]) == [c, b, a]
  {
    assert [a, b, c] == [a] + [b, c];
    ReverseCons(a, [b, c]);
    ReverseOfTwo(b, c);
  }

  /** Reversal of five points. */
  lemma ReverseOfFive(p0: Point, p1: Point, p2: Point, p3: Point, p4: Point)
    ensures Reverse([p0, p1, p2, p3, p4]) == [p4, p3, p2, p1, p0]
  {
    ReverseCons(p4, []);
    assert [p4] == [p4] + [];
    ReverseCons(p3, [p4]);
    ReverseCons(p2, [p3, p4]);
    assert [p2, p3, p4] == [p2] + [p3, p4];
    ReverseCons(p1, [p2, p3, p4]);
    assert [p1, p2, p3, p4] == [p1] + [p2, p3, p4];
    ReverseCons(p0, [p1, p2, p3, p4]);
    assert [p0, p1, p2, p3, p4] == [p0] + [p1, p2, p3, p4];
  }
}
