# Monotone-chain convex hull

A Dafny model of the convex-hull core of `ex2.py`: the orientation predicate
`orientation(p, q, r)` and `convex_hull(points)`, Andrew's monotone-chain
algorithm. The points are sorted by `(x, y)`. A lower chain is swept over the
sorted points and an upper chain over the same points in reverse. Each
chain is a stack: while its last two points and the incoming point fail to
make a strict left turn (`orientation <= 0`), the top is popped; then the
incoming point is pushed. The result is `lower[:-1] + upper[:-1]`.

Files and modules:

- `geometry.dfy`, module `Geometry`: `Point` with `int` coordinates (Python
  ints do not overflow, so unbounded integers are exact), `Orientation`, the
  tuple order `LexLe` and translation.
- `sorting.dfy`, module `Sorting`: `sorted()` as a functional insertion sort
  `SortPoints`, proved to return a non-decreasing permutation. A lemma shows
  that a sorted permutation is unique, so any correct sort gives the same
  sequence. Also `reversed()` as `Reverse`.
- `chain.dfy`, module `Chains`: one sweep. The functions `PopNonLeft` and
  `Chain` specify it, and `ChainShape` states what the chain looks like. The
  method `PushPoint` is one iteration of the Python loop, popping and then
  appending, and `BuildChain` is the whole loop. Their loop invariants keep
  the stack equal to the chain of the points processed so far, with only
  strict left turns on it.
- `hull.dfy`, module `HullBuilder`: the function `Hull`, the method
  `ConvexHull` that runs the two sweeps, and the lemmas about the result.
- `scenarios.dfy`, module `Scenarios`: the demo configuration of the source
  (corners of a square plus `M = (-2 + lambda, 3 - lambda)`), and a square
  whose least corner is given twice.

The model follows the code at the degenerate edges. A one-point input
returns `[]`, because both chains are `[p]` and both lose their last point. Two
copies of one point return that point twice. The code special-cases neither
input, and neither does the model (`HullOfAtMostOnePoint`, `HullOfTwoPoints`).

## Model

| member | source | states |
|---|---|---|
| `Geometry.Orientation` | ex2.py:4-10 | the cross product is zero whenever two of the three points coincide |
| `Geometry.OrientationIsShoelace` | ex2.py:4-10 | the orientation is twice the signed area of triangle p q r given by the shoelace formula, which is what the sign meaning in the docstring rests on |
| `Geometry.OrientationSwapNegates` | ex2.py:10 | exchanging q and r negates the orientation |
| `Geometry.OrientationRotates` | ex2.py:10 | rotating (p, q, r) to (q, r, p) keeps the orientation |
| `Geometry.LexLeIsTotalOrder` | ex2.py:15 | the (x, y) tuple order used by `sorted` is reflexive, total, antisymmetric and transitive |
| `Geometry.TranslateInvariance` | ex2.py:10 | translating all three points keeps the orientation and the tuple order |
| `Sorting.Insert` | ex2.py:15 | inserting lengthens the sequence by one, adds the point to its multiset, and the result starts with the point or with the old head |
| `Sorting.InsertBound` | ex2.py:15 | a lower bound of the point and of the sequence stays a lower bound after the insertion |
| `Sorting.InsertSorted` | ex2.py:15 | inserting into a non-decreasing sequence keeps it non-decreasing |
| `Sorting.SortedCons` | ex2.py:15 | a lower bound of a sorted sequence can be put in front of it |
| `Sorting.SortPoints` | ex2.py:15 | the result has the input's length and multiset and is non-decreasing in (x, y) order |
| `Sorting.SortedHeadIsLeast` | ex2.py:15 | the first point of a sorted sequence is below or equal to each of its points |
| `Sorting.SortedLastIsGreatest` | ex2.py:15 | the last point of a sorted sequence is above or equal to each of its points |
| `Sorting.SortedPermutationUnique` | ex2.py:15 | two sorted sequences with the same multiset are equal |
| `Sorting.SortedPermutationIsSortPoints` | ex2.py:15 | any sequence a correct sort could return equals `SortPoints` of the input |
| `Sorting.SortTranslate` | ex2.py:15 | sorting translated points gives the translated sorted points |
| `Sorting.InsertTranslate` | ex2.py:15 | insertion commutes with translation |
| `Sorting.Reverse` | ex2.py:26 | the result has the same length and position k holds the input's position n-1-k |
| `Sorting.ReverseTranslate` | ex2.py:26 | reversal commutes with translation |
| `Sorting.SortOfTwo` | ex2.py:15 | helper: two points sort into (x, y) order |
| `Sorting.ReverseOfTwo` | ex2.py:26 | helper: reversing two points swaps them |
| `Sorting.SortOfSortedTriple` | ex2.py:15 | helper: three points already in (x, y) order sort to themselves |
| `Sorting.ReverseOfThree` | ex2.py:26 | helper: reversing three points gives them last first |
| `Sorting.ReverseOfFive` | ex2.py:26 | helper: reversing five points gives them last first |
| `Chains.PopNonLeft` | ex2.py:20-21 | popping leaves a prefix of the stack and never empties a non-empty stack |
| `Chains.PopNonLeftStops` | ex2.py:20-21 | popping stops with fewer than two points or with a strict left turn from the top two points onto p |
| `Chains.ChainShape` | ex2.py:18-22 | the chain turns strictly left at every consecutive triple, is no longer than the input, is empty only for empty input, starts with the first and ends with the last point processed, and has at least two points once two were processed |
| `Chains.PushKeepsLeftTurns` | ex2.py:20-22 | one pop-then-push step keeps every consecutive triple a strict left turn |
| `Chains.LeftTurnsPrefix` | ex2.py:21 | popping the top of a stack of strict left turns leaves one |
| `Chains.ChainOfTwo` | ex2.py:19-22 | a sweep over two points keeps both, even equal ones |
| `Chains.ChainStepPops` | ex2.py:20-22 | a point that does not turn left after a two-point chain replaces its top |
| `Chains.ChainStepKeeps` | ex2.py:20-22 | a point that turns left after a two-point chain is pushed onto it |
| `Chains.PopOffTwo` | ex2.py:20-21 | a two-point stack that does not turn left onto p loses its top point |
| `Chains.ChainStepPopsThenKeeps` | ex2.py:20-22 | a point that does not turn left after a three-point chain but turns left after its first two replaces the top |
| `Chains.LeftTurnsNoAdjacentRepeat` | ex2.py:20-22 | a stack of three or more points with only strict left turns never holds the same point twice in a row, so two equal neighbouring points survive on a chain only while it has two points |
| `Chains.ChainIsSubsequence` | ex2.py:18-22 | the chain is an order-preserving subsequence of the swept points |
| `Chains.ChainElements` | ex2.py:18-22 | every point on the chain is one of the swept points, and the chain is no longer than the swept points |
| `Chains.PushPoint` | ex2.py:20-22 | the pop loop on the local list followed by the append computes `Push` of the stack and keeps only strict left turns on it |
| `Chains.BuildChain` | ex2.py:18-29 | the imperative sweep returns exactly `Chain` of its input, with strict left turns throughout, as a subsequence of its input |
| `Chains.PopNonLeftTranslate` | ex2.py:20-21 | popping the translated stack removes the same points |
| `Chains.ChainTranslate` | ex2.py:18-22 | sweeping translated points gives the translated chain |
| `HullBuilder.ConvexHull` | ex2.py:13-32 | the method returns `Hull(points)`, every returned point is an input point, and at most one input point gives `[]` |
| `HullBuilder.SortedElements` | ex2.py:15 | a point is in the sorted sequence exactly when it is in the input |
| `HullBuilder.ReversedElements` | ex2.py:26 | a point is in the reversal exactly when it is in the original |
| `HullBuilder.LowerChainShape` | ex2.py:15-22 | the lower chain turns strictly left, has no more points than the input, at least one for non-empty input and at least two from two points on, and loses its only point in `[:-1]` for at most one point |
| `HullBuilder.LowerChainEnds` | ex2.py:15-22 | for non-empty input the lower chain starts at the first sorted point and ends at the last |
| `HullBuilder.UpperChainShape` | ex2.py:25-29 | the upper chain turns strictly left, has no more points than the input, at least one for non-empty input and at least two from two points on, and loses its only point in `[:-1]` for at most one point |
| `HullBuilder.UpperChainEnds` | ex2.py:25-29 | for non-empty input the upper chain starts at the last sorted point and ends at the first |
| `HullBuilder.HullElementsFromInput` | ex2.py:15-32 | every point of the lower chain, of the upper chain and of the hull is an input point |
| `HullBuilder.SortedEnds` | ex2.py:15 | the first sorted point is the least input point and the last sorted point is the greatest |
| `HullBuilder.ChainsMeetAtExtremes` | ex2.py:15-29 | for non-empty input the lower chain runs from the least input point to the greatest and the upper chain runs back from the greatest to the least |
| `HullBuilder.HullLayout` | ex2.py:18-32 | for non-empty input the hull has \|lower\| + \|upper\| - 2 points, the lower chain minus its last point and then the upper chain minus its last point; from two points on both chains have at least two points and the hull starts at the lower chain's first point and switches to the upper chain at its first point |
| `HullBuilder.JoinLayout` | ex2.py:32 | `l[:-1] + u[:-1]` of two non-empty lists has \|l\| + \|u\| - 2 points, l's prefix first and u's prefix from position \|l\| - 1 |
| `HullBuilder.HullOfAtMostOnePoint` | ex2.py:18-32 | an empty or one-point input returns `[]` |
| `HullBuilder.DropLastOfTwo` | ex2.py:32 | helper: `[x, y][:-1]` is `[x]` |
| `HullBuilder.DropLastOfThree` | ex2.py:32 | helper: `[a, b, c][:-1]` is `[a, b]` |
| `HullBuilder.HullOfTwoPoints` | ex2.py:15-32 | two points come back in sorted order, and two equal points come back twice |
| `HullBuilder.ChainOfCollinearTriple` | ex2.py:19-22 | a sweep over three collinear points pops the middle one |
| `HullBuilder.UpperChainOfCollinearTriple` | ex2.py:25-29 | the upper sweep over three sorted collinear points keeps only the two ends |
| `HullBuilder.HullOfCollinearTriple` | ex2.py:15-32 | three sorted collinear points give a hull of the two end points only |
| `HullBuilder.HullOfCollinearPoints` | ex2.py:13-32 | three collinear points given in any order whose (x, y) sort is a, b, c give a hull of a and c only |
| `HullBuilder.HullOfPermutation` | ex2.py:13-15 | the hull depends only on the multiset of input points, not on their order |
| `HullBuilder.HullTranslate` | ex2.py:13-32 | translating every input point translates the returned hull |
| `HullBuilder.DropLastTranslate` | ex2.py:32 | dropping the last point (Python `[:-1]`) commutes with translation |
| `Scenarios.DemoTurns` | ex2.py:90-98 | gives the orientations the demo sweeps test, as functions of lambda, with their signs for 0 <= lambda < 5 |
| `Scenarios.SortedOfFive` | ex2.py:15 | helper: five points in non-decreasing order form a sorted sequence |
| `Scenarios.RotateTwoOfFive` | ex2.py:15 | helper: moving the first two of five points to the back keeps the same multiset |
| `Scenarios.DemoSorted` | ex2.py:90-101 | sorting the demo points gives C, D, M, A, B |
| `Scenarios.ChainPopPopKeep` | ex2.py:19-22 | on five points where the third and fourth fail to turn left off the first and the fifth turns left, the chain is the first, fourth and fifth |
| `Scenarios.ChainPopKeepRepop` | ex2.py:19-22 | on five points where the third replaces the second, the fourth is pushed, and the fifth fails to turn left off the third and fourth but turns left off the first and third, the chain is the first, third and fifth |
| `Scenarios.MultisetReverseThree` | ex2.py:15 | helper: reversing three points keeps the same multiset |
| `Scenarios.ReverseLastThreeOfFive` | ex2.py:15 | helper: reversing the last three of five points keeps the same multiset |
| `Scenarios.SortOfRepeatedLeast` | ex2.py:15 | five points o, o, r, q, p with o <= p <= q <= r sort to o, o, p, q, r, the repeat kept |
| `Scenarios.LowerChainOfRepeatedLeast` | ex2.py:15-22 | under the stated turns, the repeated least point is popped as soon as p arrives and the lower chain is o, q, r |
| `Scenarios.UpperChainOfRepeatedLeast` | ex2.py:25-29 | under the stated turns, the second copy of o pops the first from the upper chain, which is r, p, o |
| `Scenarios.HullWithRepeatedLeast` | ex2.py:13-32 | four corners with the least one given twice: the hull is o, q, r, p, each corner once |
| `Scenarios.HullOfSquareWithRepeat` | ex2.py:13-32 | a square of any positive side k given as (0, 0), (0, 0), (k, k), (k, 0), (0, k) has the hull (0, 0), (k, 0), (k, k), (0, k): the duplicate collapses |
| `Scenarios.DemoLowerChain` | ex2.py:18-22 | the demo's lower chain is C, A, B |
| `Scenarios.DemoUpperChain` | ex2.py:25-29 | the demo's upper chain is B, D, C |
| `Scenarios.DemoHull` | ex2.py:90-101 | for lambda = 0, the source's value of M, and for every lambda up to 4, the hull is the four corners C, A, B, D and M is pruned |

## Left out

- `draw_points_and_hull` (ex2.py:35-86): turtle graphics, scaling and the vertex-count messages are presentation only.
- The module-level demo code (ex2.py:89-111): printing, the `hull_set` membership count, and the `lambda_value` global. The demo points become constants and the parameter in `Scenarios`.
- Floating-point coordinates. The coordinates are `int`, which matches the integer demo exactly.
- The algorithm inside Python's `sorted` (Timsort). The sort is an insertion sort, and `SortedPermutationIsSortPoints` shows that every correct sort returns the same sequence.
- The Python lists `lower` and `upper` are local. Each is modelled as a local `seq` that is reassigned on every pop and append. No other code can see them, so no aliasing is lost.
- The two sweeps of the source share one method, `BuildChain`, called on the sorted points and on their reversal. The iteration over `reversed(points)` is modelled by sweeping `Reverse(sorted)`.
- HullBuilder.ConvexHull: convexity is proved only for the turns inside each chain, not across the two joints of the hull (the turn at the greatest point where the chains meet, and the wrap-around at the least point). A joint turn is strictly left only because every input point lies on the left of every chain edge, which is the same global containment fact left out on the next line. For the same reason it is not proved in general that, once the input holds three points that are not collinear, the hull holds each point once: that needs the two chains to share only their end points. `LeftTurnsNoAdjacentRepeat` proves the local part (no point twice in a row on a chain of three or more), and `HullOfSquareWithRepeat` shows a duplicate collapsing in one configuration.
- Two global properties are not proved: that no input point lies outside the hull polygon, and that the hull of the hull's vertices is the same set. The source neither states nor tests them.
- Scenarios.DemoHull: covers lambda from 0 to 4 only. At lambda = 5, M lands on the right edge and sorts between A and B, which needs a different proof.
