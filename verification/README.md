# Closest pair of points: a verified model

This project models the two closest-pair routines of the Rust crate under
`v_rust/src`:

- `brute_force_closest_points` compares every pair `i < j`. It keeps the first
  strictly closer pair, and it returns `None` for fewer than two points.
- `divide_and_conquer_closest_points` presorts the points by x (`Px`) and by y
  (`Py`). Its recursion splits `Px` by count and partitions `Py` by membership
  in the left half. It solves both halves, then scans the strip around the
  dividing line, comparing each point with at most 15 successors in y order.
  It keeps the strip pair only when it is strictly closer than delta. Finally
  it maps the two winning points back to two distinct indices of the input.

Coordinates are integers and distances are squared (`Geometry.SqDist`). The
benchmark only ever feeds integer coordinates, and the square root is
monotone, so every comparison of the source (`d < d_min`,
`|x - x_star| < delta`, `min_d_pair < delta`, `d_q < d_r`) has the same
answer on squared distances. The source's `f64::INFINITY` starting values
become `Option` values meaning "no pair seen yet".

The three nested "keep the first strictly smaller pair" loops are one scan,
`PairScan.Scan(s, reach)`:

- the brute-force loop uses reach `n`;
- the base case uses reach `n`, with `n <= 3`;
- the strip scan uses reach 15, since `j_end = min(i + 16, len)`.

The brute-force routine is also a method with loops, `BruteForce.BruteForceClosestPoints`,
and it shares the scan's loop invariant `PairScan.BestSoFar`. The method and
`Scan` promise the same thing, the first closest pair in scan order, and that
pair is unique (`PairScan.FirstClosestUnique`). So the test examples, stated
on `Scan`, fix the method's answer too.

What is proved:

- The brute-force result is the first closest pair in lexicographic scan
  order, and it is `None` exactly for fewer than two points.
- On any input, the recursion returns two entries of `Px`, or two entries of
  `Py`, taken at different positions. So index recovery never fails, and the
  entry point returns two distinct in-range indices for every input with
  `n >= 2`, duplicates included.
- On pairwise-distinct points (what the benchmark generates), the recursion
  returns a closest pair. Its distance is therefore the brute-force distance.
- The packing argument behind the lookahead: two strip points closer than
  delta are at most 7 apart in y order (`Packing.StripLookahead`), so the
  source's 15 is enough.

When the two halves' pairs are equally close, the code
(`else if d_q < d_r { q } else { r }`, `v_rust/src/divide_and_conquer.rs:110-113`)
returns the right pair, and `CombineStep.Decide` states that. The test comment at
`v_rust/src/tests.rs:18-19` names the pair 2-4. The assertion, and the model,
give 0-1, whose squared distance is 5 against 8.

## Model

| member | source | states |
|---|---|---|
| Geometry.SqDist | v_rust/src/divide_and_conquer.rs:4-12 | the squared distance is non-negative, is zero exactly when the points are equal, and bounds each coordinate difference squared; the source's distance is its square root |
| Geometry.SqDistSymmetric | v_rust/src/divide_and_conquer.rs:4-6 | distance does not depend on argument order |
| PairScan.ImproveStep | v_rust/src/brute_force.rs:22-26 | replacing the candidate only on a strictly smaller distance keeps "first closest pair among the pairs scanned so far" true after one more pair |
| PairScan.ScanRow | v_rust/src/brute_force.rs:13-27 | after the inner loop over row `i`, the candidate is the first closest pair of all rows up to `i` |
| PairScan.ScanRows | v_rust/src/brute_force.rs:12-28 | after the outer loop, the result is `None` exactly when no pair lies in the window, and otherwise the first closest window pair |
| PairScan.Scan | v_rust/src/divide_and_conquer.rs:86-104 | the windowed scan yields `None` exactly for fewer than two points (or an empty window); otherwise a pair `i < j <= i + reach` of minimum distance, strictly closer than every window pair before it in scan order |
| PairScan.FirstClosestUnique | v_rust/src/brute_force.rs:22-26 | the strict-less tie-break makes the first closest pair unique |
| BruteForce.BruteForceClosestPoints | v_rust/src/brute_force.rs:1-32 | `None` exactly when `n < 2`; otherwise `Some((i, j))` with `i < j < n`, of minimum distance over all pairs, and every pair before it in `(i, j)` order strictly farther |
| Views.Sort | v_rust/src/divide_and_conquer.rs:119-124 | the presorted view is a permutation of the input sorted ascending by the chosen coordinate |
| Views.Partition | v_rust/src/divide_and_conquer.rs:49-66 | `Qy` and `Ry` are order-preserving subsequences of `Py`; together they hold each element of `Py` exactly once; `Qy` holds exactly the points of `Py` that are in `Qx`, and `Ry` exactly the others |
| Views.Strip | v_rust/src/divide_and_conquer.rs:78-84 | `Sy` is the order-preserving subsequence of `Py` of the points with `abs(x - x_star) < delta` |
| Views.SubseqSorted | v_rust/src/divide_and_conquer.rs:59-66 | an order-preserving subsequence of a y-sorted view is y-sorted |
| Views.SubseqDistinct | v_rust/src/divide_and_conquer.rs:59-66 | an order-preserving subsequence of a duplicate-free view is duplicate-free |
| Packing.StripLookahead | v_rust/src/divide_and_conquer.rs:90-93 | in a strip whose same-side points are at least delta apart, two points closer than delta are at most 7 positions apart in y order, within the 15 the scan visits |
| CombineStep.BaseCase | v_rust/src/divide_and_conquer.rs:20-42 | for 2 to 3 points, the result is the first closest pair in scan order, by value; it is two entries of `Px` at different positions, and a closest pair when the points are distinct |
| CombineStep.Decide | v_rust/src/divide_and_conquer.rs:106-114 | the result is one of the candidates, no farther apart than any of them; the strip pair wins only when strictly closer than delta; the left pair wins only when strictly closer than the right one, so ties go right |
| CombineStep.Combine | v_rust/src/divide_and_conquer.rs:72-114 | the combined pair is no farther apart than either half's pair; when it is neither, it is two entries of `Py` strictly closer than delta |
| DivideAndConquer.Split | v_rust/src/divide_and_conquer.rs:46-47 | for `n >= 4` the halves have sizes `n/2` and `n - n/2`, both at least 2 and below `n`, and concatenate back to `Px` |
| DivideAndConquer.ClosestRec | v_rust/src/divide_and_conquer.rs:14-115 | with `n >= 2` (the `unwrap` precondition), for any input the result is two entries of `Px`, or of `Py`, taken at different positions; on consistent views of distinct points it is two different points of `Px` whose distance is the minimum over all pairs |
| DivideAndConquer.FindFrom | v_rust/src/divide_and_conquer.rs:132-142 | the result is the first position from `k` on that holds the point and is not the excluded one, or `None` when there is no such position |
| DivideAndConquer.RecoverIndices | v_rust/src/divide_and_conquer.rs:128-144 | `index_1` is the first position of `p0_star`; `index_2` differs from it and holds `p1_star`; recovery succeeds exactly when the two points form a sub-multiset of the input |
| DivideAndConquer.ClosestPair | v_rust/src/divide_and_conquer.rs:117-145 | fewer than two points is the insufficient-input error; otherwise the result is always two distinct indices below `n`; on pairwise-distinct points those indices are a closest pair of the input |
| Views.PartitionKeepsViews | v_rust/src/divide_and_conquer.rs:46-66 | on distinct points, `(Qx, Qy)` and `(Rx, Ry)` are again x-sorted/y-sorted views of the same points |
| Views.PartitionIsPermutation | v_rust/src/divide_and_conquer.rs:51-66 | on distinct points, `Qy` is a permutation of `Qx` and `Ry` of `Rx` |
| CombineStep.StripShapeHolds | v_rust/src/divide_and_conquer.rs:73-84 | with optimal halves, the strip's left-half points lie on or left of `x_star`, the others on or right of it, and same-side points are at least delta apart |
| CombineStep.CrossPairSeen | v_rust/src/divide_and_conquer.rs:86-104 | a pair across the dividing line that is closer than delta lies in the strip within the lookahead, so the strip scan finds a pair at least as close |
| CombineStep.CombineOptimal | v_rust/src/divide_and_conquer.rs:72-114 | given closest pairs of both halves, the combine step returns a closest pair of the whole |
| Views.PresortConsistent | v_rust/src/divide_and_conquer.rs:119-126 | the two presorted views of a duplicate-free input satisfy the recursion's invariant |
| Correctness.AgreesWithBruteForce | v_rust/src/brute_force.rs:1-32 | on distinct points, both algorithms report pairs at the same minimum distance |
| Correctness.UniqueClosestFound | v_rust/src/divide_and_conquer.rs:117-145 | on pairwise-distinct points, when one pair is strictly closest, divide and conquer returns exactly its two indices, in some order |
| Examples.BruteForceThree | v_rust/src/tests.rs:22-32 | brute force on `[(0,0),(10,10),(0,1)]` gives `Some((0, 2))` |
| Examples.BruteForceSix | v_rust/src/tests.rs:5-20 | brute force on the six-point input gives `Some((0, 1))` |
| Examples.BruteForceRunThree | v_rust/src/tests.rs:22-32 | the brute-force method itself returns `Some((0, 2))` on `[(0,0),(10,10),(0,1)]` |
| Examples.BruteForceRunSix | v_rust/src/tests.rs:5-20 | the brute-force method itself returns `Some((0, 1))` on the six-point input |
| Examples.DivideAndConquerThree | v_rust/src/tests.rs:58-72 | divide and conquer on `[(0,0),(10,10),(0,1)]` gives the index set {0, 2} |
| Examples.DivideAndConquerSix | v_rust/src/tests.rs:37-56 | divide and conquer on the six-point input gives the index set {0, 1} |

## Left out

- The benchmark driver in `v_rust/src/main.rs` is left out. It covers random point generation, timing, averaging and printing, which are I/O and measurement rather than logic.
- IEEE-754 arithmetic is left out: `f64`, `powi`, `sqrt`, `OrderedFloat`, NaN and infinities. Coordinates are integers and distances are squared. For the benchmark's coordinates (below 2^15) the squared distances are exact in `f64`, and `sqrt` keeps them strictly ordered.
- The `HashSet` of `OrderedFloat` pairs is modelled as membership in the sequence `Qx`. Hashing adds nothing to the result.
- The library `sort_by_key` is modelled by an insertion sort. The insertion sort is stable, as `sort_by_key` is, so the views equal the source's. The proofs use only its sorted-permutation contract.
- Panics become error values. `n < 2` reaches `unwrap` on `None` in the base case, and the model returns `InsufficientPoints` instead. The `unwrap` and `expect` of index recovery become `PointNotFound` and `NoSecondIndex`, and `DivideAndConquer.ClosestPair` proves these never occur.
- DivideAndConquer.ClosestRec: optimality is stated only for consistent, duplicate-free views. With repeated points, the source's membership partition can send both copies to `Qy`, so `Qy` stops being a permutation of `Qx`. Optimality is not claimed there; only soundness and index recovery are.
- DivideAndConquer.ClosestPair: optimality is proved only for pairwise-distinct input points, which is what the benchmark generates. Soundness and distinct-index recovery hold for all inputs.
- Correctness.AgreesWithBruteForce: proved only for pairwise-distinct input points, for the same reason.
- Correctness.UniqueClosestFound: proved only for pairwise-distinct input points, for the same reason. A repeated point makes its own pair the strictly closest one, and that is the case where optimality is not proved.
- Running time (O(n log n), O(n^2)) and memory use are not modelled.
- Determinism is not stated separately: every operation is a pure function.
