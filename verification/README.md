# Ranges, quadrature and essential nodes — a Dafny model

This project models four small C++ samples. Three come from `examples/Part3` and one from `examples/Part2`:

- **Degree-of-freedom allocation and chain search** (`ranges.cpp`, module `Ranges`).
  - `DofAllocator` expands every node id of a connectivity into its block of `nodal_dofs` consecutive indices `node * nodal_dofs + d`.
  - `basic_search`, `stl_search` and `ranges_search` each locate the chain of a polymer that holds a given segment. They do this by comparing the segment with the running totals of the chain lengths.
- **Generic quadrature** (`NumericalIntegration.cpp`, module `Quadrature`).
  - `integrate(f, a, b, steps, m)` splits `[a, b]` into `steps` subintervals of width `h = (b - a) / steps`.
  - It accumulates `m(f, a + h * i, h)` for `i = 0 .. steps - 1` and returns `h` times the sum.
  - The rules are rectangular (left, middle or right sample), trapezoidal and Simpson.
  - The sample integrand is `f(x) = x * x`, with four fixed routines on `[0, 1]`.
- **Essential nodes** (`nodal_connectivities.cpp`, module `Nodal`): the node lists of all elements are joined, sorted and stripped of duplicates.
- **Doubling and de-duplication** (`transform.cpp`, module `Transform`).
  - Every element is doubled and runs of equal neighbours are collapsed.
  - This is written once with `std::transform` plus `erase(unique(...))` and once as the range pipeline `transform | unique`.

The standard algorithms the last two samples rely on are modelled once, in module `Algorithms`. They follow the C++ standard (ISO/IEC 14882) subclauses [sort] and [alg.unique]:

- `Sort` returns a sorted permutation.
- `Unique` keeps the first element of every run of equal neighbours.
- `StdUnique` is the in-place compaction loop of `std::unique`, and it is proved to compute `Unique`.

Range-v3 views are lazy and actions are eager; both are modelled as eager functions on sequences. Integers are unbounded. Quadrature is over exact `real` arithmetic, and the integrand is a parameter `real -> real`. The rules form a closed datatype, so a rectangular rule always has one of its three positions: the C++ `switch` without a `default` has no unhandled case here.

Both `stl_search` and `basic_search` are proved equal to one reference index, `ScissionIndex`: the number of leading running totals that do not exceed the segment. `ranges_search` instead counts the leading running totals strictly below the segment. It never answers a later chain than the other two. It answers an earlier chain exactly when the running total at its own answer equals the segment (`RangesVersusBasic`), and that is exactly one chain earlier when the next chain's length is positive (`RangesOneChainEarlier`). With zero or negative chain lengths the gap can be larger: on chains `{10, 3, 0, 7}` with segment 13, `ranges_search` answers chain 1 and the other two answer chain 3 (`SampleZeroLengthGap`).

Swapping the bounds of `integrate` negates the result for the middle, trapezoidal and Simpson rules. For rectangles the left and right rules trade places (`SwapBounds`): sampling the left end of every subinterval from `b` back to `a` is sampling the right end from `a` to `b`. A plain "swapping the bounds negates the result" therefore does not hold for the left and right rectangular rules (`SwapBoundsIsNotNegation` gives an instance), and the model states the mirrored form the code actually has.

## Model

| member | source | states |
|---|---|---|
| Ranges.DofAllocator | examples/Part3/ranges.cpp:11-18 | the result has `|conn| * nodal_dofs` entries, and it is empty exactly when the connectivity is empty or `nodal_dofs` is 0 |
| Ranges.NodeDofs | examples/Part3/ranges.cpp:15-17 | one node's block has `nd` entries, and entry `d` decodes by Euclidean division by `nd` to the node and `d` |
| Ranges.DofAllocatorAt | examples/Part3/ranges.cpp:14-16 | position `k * nd + d` (with `d < nd`) holds `conn[k] * nd + d`: one block per node, in connectivity order, each block consecutive |
| Ranges.DofAllocatorDecode | examples/Part3/ranges.cpp:14-16 | Euclidean division and remainder by `nd` of any allocated index give back its node and its local dof |
| Ranges.DofAllocatorInjective | examples/Part3/ranges.cpp:11-18 | with pairwise distinct node ids and `nd >= 1`, all allocated indices are pairwise distinct |
| Ranges.PartialSumsFrom | examples/Part3/ranges.cpp:25 | element `j` of the running totals started at `acc` is `acc` plus the sum of the first `j + 1` lengths |
| Ranges.PartialSums | examples/Part3/ranges.cpp:25 | element `j` of `view::partial_sum` is the total length of chains `0 .. j` |
| Ranges.TakeWhileLength | examples/Part3/ranges.cpp:25-28 | the distance of a `take_while` view: every element before it satisfies the predicate, the one at it (if any) does not |
| Ranges.ScissionIndex | examples/Part3/ranges.cpp:42-55 | the reference index: every running total before it is at most the segment, the one at it (if any) exceeds it |
| Ranges.ScissionIndexUnique | examples/Part3/ranges.cpp:42-55 | any index with that characterisation is the reference index, so the characterisation determines the answer |
| Ranges.BasicSearch | examples/Part3/ranges.cpp:42-55 | the loop returns an index in `[0, |chains|]` with the characterisation above, i.e. the reference index |
| Ranges.StlSearch | examples/Part3/ranges.cpp:32-40 | the `find_if` distance (`|chains|` for `end()`) has the same characterisation, so it equals `basic_search` for every input |
| Ranges.RangesSearch | examples/Part3/ranges.cpp:21-30 | the count of leading running totals strictly below the segment, in `[0, |chains|]` |
| Ranges.RangesVersusBasic | examples/Part3/ranges.cpp:21-55 | `ranges_search` never exceeds `basic_search`, and they are equal exactly when the running total at `ranges_search`'s answer is not the segment itself |
| Ranges.RangesOneChainEarlier | examples/Part3/ranges.cpp:21-55 | when the running total at `ranges_search`'s answer equals the segment and the next chain, if any, has positive length, `basic_search` and `stl_search` answer exactly one chain later (at `end()` after a tie at the last chain) |
| Ranges.SampleZeroLengthGap | examples/Part3/ranges.cpp:21-55 | on chains `{10, 3, 0, 7}` with segment 13, `ranges_search` answers 1 and the reference answers 3: a zero-length chain after a tie widens the gap |
| Ranges.RangesAgreesWithoutTies | examples/Part3/ranges.cpp:21-55 | when no running total equals the segment, `ranges_search` agrees with the other two searches |
| Ranges.RangesSearchFixed | examples/Part3/ranges.cpp:25-28 | with `<=` in the `take_while` test, the range search equals the reference index for every input |
| Ranges.SamplePartialSums | examples/Part3/ranges.cpp:59 | the sample chains `{10, 3, 7, 11}` have running totals 10, 13, 20, 31 |
| Ranges.SampleSearchAgrees | examples/Part3/ranges.cpp:57-66 | for segment 17 all three searches return chain 2 |
| Ranges.RangesSearchIsOneBased | examples/Part3/ranges.cpp:21-28 | with segments numbered from 1, `ranges_search(seg)` is the chain of segment `seg - 1` numbered from 0 |
| Ranges.SampleSearchDisagrees | examples/Part3/ranges.cpp:21-55 | for segment 13 `ranges_search` returns 1 while `basic_search`, `stl_search` and the corrected search return 2 |
| Quadrature.Apply | examples/Part3/NumericalIntegration.cpp:28-63 | the five sampling formulas: left `f(x)`, middle `f(x + h/2)`, right `f(x + h)`, trapezoidal `(f(x) + f(x + h)) / 2`, Simpson `(f(x) + 4 f(x + h/2) + f(x + h)) / 6`; each is a weighted mean of the three samples, so a value `f` takes at all three is returned unchanged |
| Quadrature.RuleSum | examples/Part3/NumericalIntegration.cpp:15 | the sum of the rule's values on subintervals `0 .. n - 1`, added in increasing index order; it is non-negative for a non-negative integrand |
| Quadrature.Integrate | examples/Part3/NumericalIntegration.cpp:9-18 | `integrate` returns `h` times the sum of the rule's values on subintervals `0 .. steps - 1`, with `h = (b - a) / steps` |
| Quadrature.Accumulate | examples/Part3/NumericalIntegration.cpp:11-15 | the loop applies the rule once per subinterval, at `a + h * i`, in increasing `i`, and accumulates the values |
| Quadrature.NodeNext | examples/Part3/NumericalIntegration.cpp:15 | subinterval `i` ends where subinterval `i + 1` starts |
| Quadrature.WidthCoversInterval | examples/Part3/NumericalIntegration.cpp:13-15 | the last subinterval ends exactly at `b` |
| Quadrature.IntegralSingleStep | examples/Part3/NumericalIntegration.cpp:13-17 | with one step the result is `(b - a) * m(f, a, b - a)` |
| Quadrature.IntegralOfEmptyInterval | examples/Part3/NumericalIntegration.cpp:13-17 | with `a == b` the result is 0 for every rule and every `steps >= 1` |
| Quadrature.TrapezoidalSumIsMean | examples/Part3/NumericalIntegration.cpp:46-54 | the trapezoidal sum is the mean of the left and right rectangular sums |
| Quadrature.TrapezoidalIsMeanOfRectangles | examples/Part3/NumericalIntegration.cpp:9-54 | trapezoidal integration is the mean of left and right rectangular integration |
| Quadrature.SimpsonSumIsWeighted | examples/Part3/NumericalIntegration.cpp:56-64 | the Simpson sum is `(left + 4 * middle + right) / 6` of the rectangular sums |
| Quadrature.SimpsonIsWeightedRectangles | examples/Part3/NumericalIntegration.cpp:9-64 | Simpson integration is `(left + 4 * middle + right) / 6` of the rectangular integrations |
| Quadrature.RightMinusLeftSum | examples/Part3/NumericalIntegration.cpp:28-40 | right minus left rectangular sum telescopes to the last sample minus the first |
| Quadrature.RightMinusLeft | examples/Part3/NumericalIntegration.cpp:9-40 | for every integrand, right minus left rectangular integration is `h * (f(b) - f(a))` |
| Quadrature.RuleSumIsSumTo | examples/Part3/NumericalIntegration.cpp:15 | the accumulated sum is the plain sum of the rule's values indexed by subinterval |
| Quadrature.SumToReverse | examples/Part3/NumericalIntegration.cpp:15 | adding the same values in decreasing index order gives the same sum (exact arithmetic) |
| Quadrature.SwapBoundsIsNotNegation | examples/Part3/NumericalIntegration.cpp:9-40 | one left rectangle under `x * x` gives -1 from 1 back to 0 but 0 from 0 to 1, so swapping the bounds does not negate a left-rectangle integral |
| Quadrature.ApplyBackwards | examples/Part3/NumericalIntegration.cpp:20-64 | applying a rule from the right end of a subinterval with width `-h` is applying the mirrored rule from its left end with width `h` |
| Quadrature.BackwardSumIsMirrored | examples/Part3/NumericalIntegration.cpp:13-15 | the sum walking back from `b` is the mirrored rule's sum walking forward from `a` |
| Quadrature.SwapBounds | examples/Part3/NumericalIntegration.cpp:9-40 | integrating from `b` to `a` is minus integrating from `a` to `b` with left and right rectangles exchanged |
| Quadrature.NodeSumTelescopes | examples/Part3/NumericalIntegration.cpp:15 | if each term is the increase of `F` across its subinterval, the sum is the increase of `F` across the partition |
| Quadrature.TelescopeRule | examples/Part3/NumericalIntegration.cpp:15-17 | `h` times the rule sum telescopes whenever `h` times the rule is a step increment of `F` |
| Quadrature.IntegralTelescopes | examples/Part3/NumericalIntegration.cpp:9-18 | under that condition the integral is `F(b) - F(a)` |
| Quadrature.SquareStep | examples/Part3/NumericalIntegration.cpp:20-67 | each rule applied to `x * x` on one subinterval is the increase of a rule-specific cubic |
| Quadrature.SquareIntegral | examples/Part3/NumericalIntegration.cpp:9-67 | the closed form of every rule's integral of `x * x` over any interval and step count |
| Quadrature.SimpsonExactOnSquare | examples/Part3/NumericalIntegration.cpp:56-67 | Simpson integrates `x * x` exactly: `(b^3 - a^3) / 3` for every step count |
| Quadrature.Square | examples/Part3/NumericalIntegration.cpp:67 | the integrand `x * x`, never negative |
| Quadrature.UnitSquareLeft | examples/Part3/NumericalIntegration.cpp:67-70 | left rectangles on `x * x` over `[0, 1]` give `1/3 - h/2 + h^2/6` |
| Quadrature.UnitSquareMiddle | examples/Part3/NumericalIntegration.cpp:67-74 | midpoint rectangles give `1/3 - h^2/12` |
| Quadrature.UnitSquareRight | examples/Part3/NumericalIntegration.cpp:67-72 | right rectangles give `1/3 + h/2 + h^2/6` |
| Quadrature.UnitSquareTrapezoidal | examples/Part3/NumericalIntegration.cpp:67-76 | trapezoids give `1/3 + h^2/6` |
| Quadrature.UnitSquareSimpson | examples/Part3/NumericalIntegration.cpp:56-67 | Simpson gives exactly 1/3 for every step count |
| Quadrature.UnitSquareLeftConverges | examples/Part3/NumericalIntegration.cpp:67-70 | left rectangles underestimate 1/3, and more steps give a strictly better estimate |
| Quadrature.UnitSquareMiddleConverges | examples/Part3/NumericalIntegration.cpp:67-74 | midpoint rectangles underestimate 1/3, and more steps give a strictly better estimate |
| Quadrature.UnitSquareRightConverges | examples/Part3/NumericalIntegration.cpp:67-72 | right rectangles overestimate 1/3, and more steps give a strictly better estimate |
| Quadrature.UnitSquareTrapezoidalConverges | examples/Part3/NumericalIntegration.cpp:67-76 | trapezoids overestimate 1/3, and more steps give a strictly better estimate |
| Quadrature.RectangleLeft | examples/Part3/NumericalIntegration.cpp:70 | `rectangle_left` is exactly 247/800, below the true integral 1/3 |
| Quadrature.RectangleRight | examples/Part3/NumericalIntegration.cpp:72 | `rectangle_right` is exactly 287/800, above 1/3 |
| Quadrature.RectangleMid | examples/Part3/NumericalIntegration.cpp:74 | `rectangle_mid` is exactly 533/1600, below 1/3 |
| Quadrature.Trap | examples/Part3/NumericalIntegration.cpp:76 | `trap` is exactly 131/392, above 1/3 |
| Nodal.Join | examples/Part3/nodal_connectivities.cpp:17-18 | the joined list has the total length of the element lists and holds exactly their nodes |
| Nodal.JoinAppend | examples/Part3/nodal_connectivities.cpp:17-18 | joining distributes over concatenation, so element lists appear in element order |
| Nodal.EssentialNodes | examples/Part3/nodal_connectivities.cpp:17-20 | the pipeline's result is strictly increasing, holds exactly the referenced nodes, and is no longer than the joined list |
| Nodal.EssentialNodesCharacterised | examples/Part3/nodal_connectivities.cpp:17-20 | a strictly increasing list equals the result if and only if it holds exactly the referenced nodes |
| Nodal.EssentialNodesOfIncreasing | examples/Part3/nodal_connectivities.cpp:19-20 | a single strictly increasing list passes through unchanged |
| Nodal.EssentialNodesIdempotent | examples/Part3/nodal_connectivities.cpp:17-20 | running the pipeline on its own result changes nothing |
| Nodal.EssentialNodesGrow | examples/Part3/nodal_connectivities.cpp:17-20 | the essential nodes of two meshes together are the union of each mesh's essential nodes |
| Nodal.SampleJoin | examples/Part3/nodal_connectivities.cpp:12-18 | the sample mesh joins to its eleven node references in order |
| Nodal.SampleEssentialNodes | examples/Part3/nodal_connectivities.cpp:12-20 | the sample mesh has essential nodes `[0, 1, 2, 3, 4, 7]` |
| Algorithms.Sort | examples/Part3/nodal_connectivities.cpp:19 | `action::sort`: a sorted permutation of the input |
| Algorithms.Unique | examples/Part2/transform.cpp:17 | the result is no longer than the input, keeps its first and last element and its element set, has no equal neighbours, and is strictly increasing when the input is sorted |
| Algorithms.UniqueSnoc | examples/Part2/transform.cpp:17 | the defining keep rule of `Unique`, restated in append form: appending `x` to the input appends it to the output exactly when it differs from the last input element |
| Algorithms.StdUnique | examples/Part2/transform.cpp:17 | the `std::unique` compaction loop leaves exactly `Unique(a)` before the returned end |
| Algorithms.UniqueOfNoAdjacentDuplicates | examples/Part2/transform.cpp:17 | a sequence with no equal neighbours is left unchanged |
| Algorithms.UniqueIdempotent | examples/Part2/transform.cpp:17 | `unique` applied to its own output changes nothing |
| Algorithms.UniqueOfConstant | examples/Part2/transform.cpp:13-17 | a run of `n >= 1` copies of one value collapses to that single value |
| Algorithms.IncreasingDeterminedByElements | examples/Part3/nodal_connectivities.cpp:19-20 | two strictly increasing sequences with the same elements are equal |
| Transform.Doubled | examples/Part2/transform.cpp:15 | the transform keeps the length and maps element `i` to `2 * a[i]` |
| Transform.HalvedDoubled | examples/Part2/transform.cpp:15 | halving undoes doubling, and every doubled element is even |
| Transform.DoubledHalved | examples/Part2/transform.cpp:15 | doubling undoes halving on sequences of even numbers |
| Transform.DoubledInjective | examples/Part2/transform.cpp:15 | distinct inputs have distinct doubled images |
| Transform.UniqueCommutesWithDoubling | examples/Part2/transform.cpp:15-17 | collapsing runs before or after doubling gives the same sequence |
| Transform.TransformInto | examples/Part2/transform.cpp:15 | `std::transform` into `b` writes the doubled input over the front of `b` and leaves the rest of `b` unchanged |
| Transform.StlPath | examples/Part2/transform.cpp:13-17 | the STL form returns the collapsed doubled input, the same as the range form |
| Transform.RangePath | examples/Part2/transform.cpp:28 | the range form has no equal neighbours, is no longer than the input, and holds exactly the doubles of the input's elements |
| Transform.RangePathIsDoubledUnique | examples/Part2/transform.cpp:28 | the range form is the doubled survivors of `unique` on the input, and collapsing it again changes nothing |
| Transform.SampleTransform | examples/Part2/transform.cpp:13-28 | ten ones become `[2]` |

## Left out

- Console output (`std::cout`) in every `main` is not modelled.
- `int` overflow is not modelled: `accumulated_length` in the searches, `local_node * nodal_dofs` in `DofAllocator` and the doubled values in `transform.cpp` are unbounded integers.
- `double` rounding in `integrate` is not modelled. All quadrature statements hold for exact reals only, and the routine values are the exact values the floating-point routines approximate.
- `integrate` with `steps <= 0` is a precondition violation (a division by zero or an empty loop), so `steps >= 1` is required.
- A `Rectangular` position outside left, middle and right cannot be represented: the rule is a closed datatype, so the missing `default` of the `switch` has no counterpart.
- Range-v3 laziness is not modelled. Views are evaluated eagerly on sequences, and `b.resize(10)` before the range assignment in `transform.cpp` has no effect on the result, so it is not modelled.
- Quadrature.Apply: the contract states the weighted-mean consequence only. The five formulas are the definition itself, and what they imply for whole sums is stated by `TrapezoidalSumIsMean`, `SimpsonSumIsWeighted`, `RightMinusLeftSum` and `SquareStep`.
- Quadrature.RuleSum: the contract states non-negativity only. Its value as an indexed sum is stated by `RuleSumIsSumTo`, and the loop that computes it by `Accumulate`.
- Ranges.DofAllocator: requires `nodal_dofs >= 0`. `view::ints(0, n)` with a negative `n` is not a valid range.
- Quadrature.UnitSquareLeftConverges: like the other three convergence lemmas, it states that the error shrinks strictly with every increase in step count and that the bias keeps its sign. The orders of accuracy (O(h), O(h^2)) are visible in the closed forms but are not stated as asymptotic bounds.
- Linear solvers, `accumulate`, `sort` and `for_each` on doubles, and the exercise files of the repository are not part of this model. They are floating-point demonstrations or calls into libraries whose code is not modelled.

## Findings

| source | as written | input that shows it | evidently intended | confidence | as-written member | corrected member |
|---|---|---|---|---|---|---|
| examples/Part3/ranges.cpp:27 | `ranges_search` keeps running totals with `i < segment_to_scission`, while `stl_search` and `basic_search` stop at the first total with `segment_to_scission < total` | chains `{10, 3, 7, 11}`, segment 13: `ranges_search` returns 1, `basic_search` and `stl_search` return 2 | `i <= segment_to_scission`, so that the three searches the sample prints side by side agree on every input. This assumes segments are numbered from 0. With numbering from 1, `ranges_search` is the correct one and the two loops are off by one (`Ranges.RangesSearchIsOneBased`) | medium, since it depends on the numbering; not executed | Ranges.SampleSearchDisagrees | Ranges.RangesSearchFixed |
