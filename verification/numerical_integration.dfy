/** The generic quadrature driver of `examples/Part3/NumericalIntegration.cpp`
    over exact real arithmetic.

    `integrate(f, a, b, steps, m)` splits `[a, b]` into `steps` subintervals of
    width `h = (b - a) / steps`, asks the rule `m` for one value per
    subinterval, in increasing order, and returns `h` times their sum. The C++
    rules are three function objects; here they are one closed datatype, so a
    rectangular rule always has one of its three positions. All statements hold
    for exact reals only; `double` rounding is not modelled. */
module Quadrature {

  /** Where a rectangular rule samples its subinterval. */
  datatype Position = Left | Middle | Right

  /** The interchangeable per-subinterval rules. */
  datatype Rule = Rectangular(position: Position) | Trapezoidal | Simpson

  /** One rule evaluation: the estimate of the mean of `f` over `[x, x + h]`.
      Every rule is a weighted mean of `f` at the left end, the midpoint and the
      right end, so a value that `f` takes at all three is returned unchanged. */
  function Apply(m: Rule, f: real -> real, x: real, h: real): (r: real)
    ensures f(x) == f(x + h / 2.0) == f(x + h) ==> r == f(x)
  {
    match m
    case Rectangular(Left) => f(x)
    case Rectangular(Middle) => f(x + h / 2.0)
    case Rectangular(Right) => f(x + h)
    case Trapezoidal => (f(x) + f(x + h)) / 2.0
    case Simpson => (f(x) + 4.0 * f(x + h / 2.0) + f(x + h)) / 6.0
  }

  /** The uniform subinterval width. */
  function Width(a: real, b: real, steps: int): real
    requires steps >= 1
  {
    (b - a) / (steps as real)
  }

  /** Start of subinterval `i`: `a + h * i`. */
  function Node(a: real, h: real, i: int): real {
    a + h * (i as real)
  }

  /** The rule's values on subintervals `0 .. n - 1`, added in increasing order
      of the subinterval index. */
  function RuleSum(m: Rule, f: real -> real, a: real, h: real, n: nat): (r: real)
    ensures (forall y :: 0.0 <= f(y)) ==> 0.0 <= r
  {
    if n == 0 then 0.0
    else RuleSum(m, f, a, h, n - 1) + Apply(m, f, Node(a, h, n - 1), h)
  }

  /** Consecutive subintervals abut: subinterval `i` ends where `i + 1` starts. */
  lemma NodeNext(a: real, h: real, i: int)
    ensures Node(a, h, i) + h == Node(a, h, i + 1)
  {
    assert h * ((i + 1) as real) == h * (i as real) + h;
  }

  /** What `integrate` computes: the width times the sum of the rule's values. */
  function Integral(f: real -> real, a: real, b: real, steps: int, m: Rule): real
    requires steps >= 1
  {
    var h := Width(a, b, steps);
    h * RuleSum(m, f, a, h, steps)
  }

  /** `integrate`: the width times the accumulated rule values. */
  method Integrate(f: real -> real, a: real, b: real, steps: int, m: Rule) returns (r: real)
    requires steps >= 1
    ensures r == Integral(f, a, b, steps, m)
  {
    var h := Width(a, b, steps);
    var s := Accumulate(m, f, a, h, steps);
    r := h * s;
  }

  /** The accumulation loop of `integrate`: one rule call per subinterval, in
      increasing order of the subinterval index. */
  method Accumulate(m: Rule, f: real -> real, a: real, h: real, n: nat) returns (s: real)
    ensures s == RuleSum(m, f, a, h, n)
  {
    s := 0.0;
    var i := 0;
    while i < n
      invariant 0 <= i <= n
      invariant s == RuleSum(m, f, a, h, i)
    {
      s := s + Apply(m, f, Node(a, h, i), h);
      i := i + 1;
    }
  }

  // ------------------------------------------------------- the driver's shape

  /** The last subinterval ends at `b`. */
  lemma WidthCoversInterval(a: real, b: real, steps: int)
    requires steps >= 1
    ensures Node(a, Width(a, b, steps), steps) == b
  {
  }

  /** With one step the rule is applied once, to the whole interval. */
  lemma IntegralSingleStep(f: real -> real, a: real, b: real, m: Rule)
    ensures Integral(f, a, b, 1, m) == (b - a) * Apply(m, f, a, b - a)
  {
    var h := Width(a, b, 1);
    assert h == b - a;
    assert Node(a, h, 0) == a;
    assert RuleSum(m, f, a, h, 1) == Apply(m, f, a, h);
  }

  /** An empty interval integrates to zero, whatever the rule and step count. */
  lemma IntegralOfEmptyInterval(f: real -> real, a: real, steps: int, m: Rule)
    requires steps >= 1
    ensures Integral(f, a, a, steps, m) == 0.0
  {
  }

  // ------------------------------------------- relations between the rules

  /** The trapezoidal sum is the mean of the left and right rectangular sums. */
  lemma {:induction false} TrapezoidalSumIsMean(f: real -> real, a: real, h: real, n: nat)
    ensures RuleSum(Trapezoidal, f, a, h, n) ==
              (RuleSum(Rectangular(Left), f, a, h, n) + RuleSum(Rectangular(Right), f, a, h, n)) / 2.0
  {
    if n > 0 {
      TrapezoidalSumIsMean(f, a, h, n - 1);
    }
  }

  /** Trapezoidal integration is the mean of left and right rectangular integration. */
  lemma TrapezoidalIsMeanOfRectangles(f: real -> real, a: real, b: real, steps: int)
    requires steps >= 1
    ensures Integral(f, a, b, steps, Trapezoidal) ==
              (Integral(f, a, b, steps, Rectangular(Left)) + Integral(f, a, b, steps, Rectangular(Right))) / 2.0
  {
    TrapezoidalSumIsMean(f, a, Width(a, b, steps), steps);
  }

  /** The Simpson sum weighs left, middle and right sums as 1 : 4 : 1. */
  lemma {:induction false} SimpsonSumIsWeighted(f: real -> real, a: real, h: real, n: nat)
    ensures RuleSum(Simpson, f, a, h, n) ==
              (RuleSum(Rectangular(Left), f, a, h, n)
               + 4.0 * RuleSum(Rectangular(Middle), f, a, h, n)
               + RuleSum(Rectangular(Right), f, a, h, n)) / 6.0
  {
    if n > 0 {
      SimpsonSumIsWeighted(f, a, h, n - 1);
    }
  }

  /** Simpson integration is `(left + 4 * middle + right) / 6` of the rectangular integrations. */
  lemma SimpsonIsWeightedRectangles(f: real -> real, a: real, b: real, steps: int)
    requires steps >= 1
    ensures Integral(f, a, b, steps, Simpson) ==
              (Integral(f, a, b, steps, Rectangular(Left))
               + 4.0 * Integral(f, a, b, steps, Rectangular(Middle))
               + Integral(f, a, b, steps, Rectangular(Right))) / 6.0
  {
    SimpsonSumIsWeighted(f, a, Width(a, b, steps), steps);
  }

  /** Right and left sums differ by the last sample minus the first. */
  lemma {:induction false} RightMinusLeftSum(f: real -> real, a: real, h: real, n: nat)
    ensures RuleSum(Rectangular(Right), f, a, h, n) - RuleSum(Rectangular(Left), f, a, h, n)
              == f(Node(a, h, n)) - f(a)
  {
    if n > 0 {
      RightMinusLeftSum(f, a, h, n - 1);
      NodeNext(a, h, n - 1);
    }
  }

  /** For every integrand, right minus left rectangular integration is `h * (f(b) - f(a))`. */
  lemma RightMinusLeft(f: real -> real, a: real, b: real, steps: int)
    requires steps >= 1
    ensures Integral(f, a, b, steps, Rectangular(Right)) - Integral(f, a, b, steps, Rectangular(Left))
              == Width(a, b, steps) * (f(b) - f(a))
  {
    var h := Width(a, b, steps);
    RightMinusLeftSum(f, a, h, steps);
    WidthCoversInterval(a, b, steps);
  }

  // ------------------------------------------------ sums of sample functions

  /** Sum of `g(0) .. g(n - 1)`, added in increasing order. */
  function SumTo(g: int -> real, n: nat): real {
    if n == 0 then 0.0 else SumTo(g, n - 1) + g(n - 1)
  }

  /** `g` read at the start of subinterval `i`, as a function of `i`. */
  function NodeSamples(g: real -> real, a: real, h: real): int -> real {
    i => g(Node(a, h, i))
  }

  /** The rule's value on subinterval `i`, as a function of `i`. */
  function Samples(m: Rule, f: real -> real, a: real, h: real): int -> real {
    NodeSamples(RuleAt(m, f, h), a, h)
  }

  /** A node sum is the sum of its samples. */
  lemma {:induction false} NodeSumIsSumTo(g: real -> real, a: real, h: real, n: nat)
    ensures NodeSum(g, a, h, n) == SumTo(NodeSamples(g, a, h), n)
  {
    if n > 0 {
      NodeSumIsSumTo(g, a, h, n - 1);
    }
  }

  /** The rule sum is the sum of the rule's values at the subinterval starts. */
  lemma RuleSumIsSumTo(m: Rule, f: real -> real, a: real, h: real, n: nat)
    ensures RuleSum(m, f, a, h, n) == SumTo(Samples(m, f, a, h), n)
  {
    RuleSumIsNodeSum(m, f, a, h, n);
    NodeSumIsSumTo(RuleAt(m, f, h), a, h, n);
  }

  /** Sums of functions that agree on `0 .. n - 1` are equal. */
  lemma {:induction false} SumToCongruent(g1: int -> real, g2: int -> real, n: nat)
    requires forall i :: 0 <= i < n ==> g1(i) == g2(i)
    ensures SumTo(g1, n) == SumTo(g2, n)
  {
    if n > 0 {
      SumToCongruent(g1, g2, n - 1);
    }
  }

  /** Splitting off the first term of a sum. */
  lemma {:induction false} SumToFirst(g: int -> real, n: nat)
    requires n >= 1
    ensures SumTo(g, n) == g(0) + SumTo(i => g(i + 1), n - 1)
  {
    if n > 1 {
      SumToFirst(g, n - 1);
    }
  }

  /** Adding in decreasing order gives the same sum. */
  lemma {:induction false} SumToReverse(g: int -> real, n: nat)
    ensures SumTo(i => g(n - 1 - i), n) == SumTo(g, n)
  {
    if n > 0 {
      var g' := i => g(i + 1);
      SumToFirst(g, n);
      SumToReverse(g', n - 1);
      SumToCongruent(i => g(n - 1 - i), i => g'(n - 2 - i), n - 1);
    }
  }

  /** `g` read at the starts of subintervals `0 .. n - 1`, added in increasing order. */
  function NodeSum(g: real -> real, a: real, h: real, n: nat): real {
    if n == 0 then 0.0 else NodeSum(g, a, h, n - 1) + g(Node(a, h, n - 1))
  }

  /** The rule at width `h`, as a function of the subinterval start. */
  function RuleAt(m: Rule, f: real -> real, h: real): real -> real {
    x => Apply(m, f, x, h)
  }

  /** `g` scaled by the constant `c`. */
  function Scale(c: real, g: real -> real): real -> real {
    x => c * g(x)
  }

  /** The rule sum is the node sum of the rule. */
  lemma {:induction false} RuleSumIsNodeSum(m: Rule, f: real -> real, a: real, h: real, n: nat)
    ensures RuleSum(m, f, a, h, n) == NodeSum(RuleAt(m, f, h), a, h, n)
  {
    if n > 0 {
      RuleSumIsNodeSum(m, f, a, h, n - 1);
    }
  }

  /** Scaling every term scales the node sum. */
  lemma {:induction false} NodeSumScale(c: real, g: real -> real, a: real, h: real, n: nat)
    ensures NodeSum(Scale(c, g), a, h, n) == c * NodeSum(g, a, h, n)
  {
    if n > 0 {
      NodeSumScale(c, g, a, h, n - 1);
      var s, t := NodeSum(g, a, h, n - 1), g(Node(a, h, n - 1));
      assert c * (s + t) == c * s + c * t;
    }
  }

  /** `g(x)` is the increase of `F` across `[x, x + h]`, for every `x`. */
  ghost predicate StepIncrements(g: real -> real, F: real -> real, h: real) {
    forall x {:trigger g(x)} :: g(x) == F(x + h) - F(x)
  }

  /** If `g(x)` is the increase of `F` over `[x, x + h]` everywhere, the node
      sum is the increase of `F` over the whole partition. */
  lemma {:induction false} NodeSumTelescopes(g: real -> real, F: real -> real, a: real, h: real, n: nat)
    requires StepIncrements(g, F, h)
    ensures NodeSum(g, a, h, n) == F(Node(a, h, n)) - F(a)
  {
    if n > 0 {
      NodeSumTelescopes(g, F, a, h, n - 1);
      NodeNext(a, h, n - 1);
    }
  }

  /** If `h` times the rule's value on every subinterval of width `h` is the
      increase of `F` across it, the scaled sum telescopes to the increase of
      `F` over the whole partition. */
  lemma TelescopeRule(m: Rule, f: real -> real, F: real -> real, a: real, h: real, n: nat)
    requires StepIncrements(Scale(h, RuleAt(m, f, h)), F, h)
    ensures h * RuleSum(m, f, a, h, n) == F(Node(a, h, n)) - F(a)
  {
    RuleSumIsNodeSum(m, f, a, h, n);
    ScaledNodeSumTelescopes(RuleAt(m, f, h), F, a, h, n);
  }

  /** If `h * g(x)` is the increase of `F` over `[x, x + h]` everywhere, `h`
      times the node sum is the increase of `F` over the whole partition. */
  lemma ScaledNodeSumTelescopes(g: real -> real, F: real -> real, a: real, h: real, n: nat)
    requires StepIncrements(Scale(h, g), F, h)
    ensures h * NodeSum(g, a, h, n) == F(Node(a, h, n)) - F(a)
  {
    NodeSumScale(h, g, a, h, n);
    NodeSumTelescopes(Scale(h, g), F, a, h, n);
  }

  /** `TelescopeRule` over the whole partition of `[a, b]`: the integral is the
      increase of `F` from `a` to `b`. */
  lemma IntegralTelescopes(m: Rule, f: real -> real, F: real -> real, a: real, b: real, steps: int)
    requires steps >= 1
    requires StepIncrements(Scale(Width(a, b, steps), RuleAt(m, f, Width(a, b, steps))), F, Width(a, b, steps))
    ensures Integral(f, a, b, steps, m) == F(b) - F(a)
  {
    TelescopeRule(m, f, F, a, Width(a, b, steps), steps);
    WidthCoversInterval(a, b, steps);
  }

  // ------------------------------------------------------ swapping the bounds

  /** The rule that samples the mirror image of a subinterval: left and right
      rectangles swap, the symmetric rules stay. */
  function Mirror(m: Rule): Rule {
    match m
    case Rectangular(Left) => Rectangular(Right)
    case Rectangular(Right) => Rectangular(Left)
    case _ => m
  }

  /** Walking a subinterval backwards from its right end with width `-h` is the
      mirrored rule walking it forwards. */
  lemma ApplyBackwards(m: Rule, f: real -> real, x: real, h: real)
    ensures Apply(m, f, x + h, -h) == Apply(Mirror(m), f, x, h)
  {
    assert x + h + -h == x;
    assert x + h + -h / 2.0 == x + h / 2.0;
  }

  /** Counting `i` subintervals back from node `n` lands at the end of
      subinterval `n - 1 - i`. */
  lemma NodeBackwards(a: real, h: real, n: int, i: int)
    ensures Node(Node(a, h, n), -h, i) == Node(a, h, n - 1 - i) + h
  {
    assert h * ((n - 1 - i) as real) == h * (n as real) - h - h * (i as real);
  }

  /** Sample `i` of the backward walk from node `n` with width `hb = -h` is
      sample `n - 1 - i` of the mirrored forward walk from `a`. */
  lemma BackwardsSamples(f: real -> real, a: real, h: real, hb: real, n: nat, m: Rule)
    requires hb == -h
    ensures forall i :: 0 <= i < n ==>
              Samples(m, f, Node(a, h, n), hb)(i) == Samples(Mirror(m), f, a, h)(n - 1 - i)
  {
    forall i | 0 <= i < n
      ensures Samples(m, f, Node(a, h, n), hb)(i) == Samples(Mirror(m), f, a, h)(n - 1 - i)
    {
      NodeBackwards(a, h, n, i);
      ApplyBackwards(m, f, Node(a, h, n - 1 - i), h);
      assert Samples(m, f, Node(a, h, n), hb)(i) == Apply(m, f, Node(Node(a, h, n), hb, i), hb);
      assert Samples(Mirror(m), f, a, h)(n - 1 - i) == Apply(Mirror(m), f, Node(a, h, n - 1 - i), h);
    }
  }

  /** The rule sum walking back from node `n` with width `-h` is the mirrored
      rule's sum walking forward from `a`. */
  lemma BackwardSumIsMirrored(f: real -> real, a: real, h: real, hb: real, n: nat, m: Rule)
    requires hb == -h
    ensures RuleSum(m, f, Node(a, h, n), hb, n) == RuleSum(Mirror(m), f, a, h, n)
  {
    var fwd := Samples(Mirror(m), f, a, h);
    RuleSumIsSumTo(m, f, Node(a, h, n), hb, n);
    RuleSumIsSumTo(Mirror(m), f, a, h, n);
    BackwardsSamples(f, a, h, hb, n, m);
    SumToCongruent(Samples(m, f, Node(a, h, n), hb), i => fwd(n - 1 - i), n);
    SumToReverse(fwd, n);
  }

  /** Swapping the bounds negates the integral of the mirrored rule: the
      rectangular left and right rules trade places, the middle, trapezoidal and
      Simpson rules are simply negated. */
  lemma SwapBounds(f: real -> real, a: real, b: real, steps: int, m: Rule)
    requires steps >= 1
    ensures Integral(f, b, a, steps, m) == -Integral(f, a, b, steps, Mirror(m))
  {
    var h := Width(a, b, steps);
    var hb := Width(b, a, steps);
    assert hb == -h;
    WidthCoversInterval(a, b, steps);
    BackwardSumIsMirrored(f, a, h, hb, steps, m);
  }

  // ----------------------------------------- the sample integrand f(x) = x^2

  /** The sample integrand `f(x) = x * x`; it is never negative. */
  function Square(x: real): (r: real)
    ensures 0.0 <= r
  {
    x * x
  }

  /** Swapping the bounds does not simply negate a left-rectangle integral: one
      left rectangle under `x^2` from 1 back to 0 samples `f(1)` and gives -1,
      while from 0 to 1 it samples `f(0)` and gives 0. */
  lemma SwapBoundsIsNotNegation()
    ensures Integral(Square, 1.0, 0.0, 1, Rectangular(Left)) == -1.0
    ensures Integral(Square, 0.0, 1.0, 1, Rectangular(Left)) == 0.0
  {
    IntegralSingleStep(Square, 1.0, 0.0, Rectangular(Left));
    IntegralSingleStep(Square, 0.0, 1.0, Rectangular(Left));
  }

  /** An antiderivative-like potential for `x^2` under each rule at width `h`:
      `h` times the rule's value on `[x, x + h]` is `Potential(x + h) - Potential(x)`. */
  function Potential(m: Rule, h: real, x: real): real {
    match m
    case Rectangular(Left) => x * x * x / 3.0 - h * x * x / 2.0 + h * h * x / 6.0
    case Rectangular(Middle) => x * x * x / 3.0 - h * h * x / 12.0
    case Rectangular(Right) => x * x * x / 3.0 + h * x * x / 2.0 + h * h * x / 6.0
    case Trapezoidal => x * x * x / 3.0 + h * h * x / 6.0
    case Simpson => x * x * x / 3.0
  }

  /** Each rule applied to `x^2` on one subinterval is the potential's increase. */
  lemma SquareStep(m: Rule, x: real, h: real)
    ensures h * Apply(m, Square, x, h) == Potential(m, h, x + h) - Potential(m, h, x)
  {
    Expansions(x, h);
    match m
    case Rectangular(Left) =>
    case Rectangular(Middle) =>
    case Rectangular(Right) =>
    case Trapezoidal =>
    case Simpson =>
  }

  /** The binomial expansions the potentials rest on. */
  lemma Expansions(x: real, h: real)
    ensures (x + h) * (x + h) * (x + h) == x * x * x + 3.0 * x * x * h + 3.0 * x * h * h + h * h * h
    ensures (x + h) * (x + h) == x * x + 2.0 * x * h + h * h
    ensures (x + h / 2.0) * (x + h / 2.0) == x * x + x * h + h * h / 4.0
  {
    assert (x + h) * (x + h) == x * x + 2.0 * x * h + h * h;
  }

  /** The potential at width `h`, as a function of the point. */
  function PotentialAt(m: Rule, h: real): real -> real {
    x => Potential(m, h, x)
  }

  /** `SquareStep` for every subinterval start at once. */
  lemma SquareIncrements(m: Rule, h: real)
    ensures StepIncrements(Scale(h, RuleAt(m, Square, h)), PotentialAt(m, h), h)
  {
    forall x
      ensures Scale(h, RuleAt(m, Square, h))(x) == PotentialAt(m, h)(x + h) - PotentialAt(m, h)(x)
    {
      SquareStepAt(m, h, x);
    }
  }

  /** `SquareStep` read through the function values. */
  lemma SquareStepAt(m: Rule, h: real, x: real)
    ensures Scale(h, RuleAt(m, Square, h))(x) == PotentialAt(m, h)(x + h) - PotentialAt(m, h)(x)
  {
    ScaledRuleAt(m, Square, h, x);
    PotentialAtIs(m, h, x);
    PotentialAtIs(m, h, x + h);
    SquareStep(m, x, h);
  }

  /** The scaled rule function evaluated at one point. */
  lemma ScaledRuleAt(m: Rule, f: real -> real, h: real, x: real)
    ensures Scale(h, RuleAt(m, f, h))(x) == h * Apply(m, f, x, h)
  {
  }

  /** The potential function evaluated at one point. */
  lemma PotentialAtIs(m: Rule, h: real, x: real)
    ensures PotentialAt(m, h)(x) == Potential(m, h, x)
  {
  }

  /** The rule's integral of `x^2` over `[a, b]` in closed form. */
  lemma SquareIntegral(m: Rule, a: real, b: real, steps: int)
    requires steps >= 1
    ensures Integral(Square, a, b, steps, m) ==
              Potential(m, Width(a, b, steps), b) - Potential(m, Width(a, b, steps), a)
  {
    var h := Width(a, b, steps);
    SquareIncrements(m, h);
    IntegralTelescopes(m, Square, PotentialAt(m, h), a, b, steps);
  }

  /** Simpson's rule integrates `x^2` exactly, for every interval and step count. */
  lemma SimpsonExactOnSquare(a: real, b: real, steps: int)
    requires steps >= 1
    ensures Integral(Square, a, b, steps, Simpson) == (b * b * b - a * a * a) / 3.0
  {
    SquareIntegral(Simpson, a, b, steps);
  }

  /** Left rectangles on `x^2` over `[0, 1]`: `1/3 - h/2 + h^2/6` with `h = 1 / steps`.
      The step width `h` and the value `v` are parameters pinned down by the
      requires rather than written out in the ensures: stated that way, the
      real arithmetic of a call with literal step counts stays small. */
  lemma UnitSquareLeft(steps: int, h: real, v: real)
    requires steps >= 1 && h == 1.0 / (steps as real) && v == 1.0 / 3.0 - h / 2.0 + h * h / 6.0
    ensures Integral(Square, 0.0, 1.0, steps, Rectangular(Left)) == v
  {
    SquareIntegral(Rectangular(Left), 0.0, 1.0, steps);
  }

  /** Midpoint rectangles on `x^2` over `[0, 1]`: `1/3 - h^2/12` with `h = 1 / steps`.
      The step width `h` and the value `v` are parameters pinned down by the
      requires rather than written out in the ensures: stated that way, the
      real arithmetic of a call with literal step counts stays small. */
  lemma UnitSquareMiddle(steps: int, h: real, v: real)
    requires steps >= 1 && h == 1.0 / (steps as real) && v == 1.0 / 3.0 - h * h / 12.0
    ensures Integral(Square, 0.0, 1.0, steps, Rectangular(Middle)) == v
  {
    SquareIntegral(Rectangular(Middle), 0.0, 1.0, steps);
  }

  /** Right rectangles on `x^2` over `[0, 1]`: `1/3 + h/2 + h^2/6` with `h = 1 / steps`.
      The step width `h` and the value `v` are parameters pinned down by the
      requires rather than written out in the ensures: stated that way, the
      real arithmetic of a call with literal step counts stays small. */
  lemma UnitSquareRight(steps: int, h: real, v: real)
    requires steps >= 1 && h == 1.0 / (steps as real) && v == 1.0 / 3.0 + h / 2.0 + h * h / 6.0
    ensures Integral(Square, 0.0, 1.0, steps, Rectangular(Right)) == v
  {
    SquareIntegral(Rectangular(Right), 0.0, 1.0, steps);
  }

  /** Trapezoids on `x^2` over `[0, 1]`: `1/3 + h^2/6` with `h = 1 / steps`.
      The step width `h` and the value `v` are parameters pinned down by the
      requires rather than written out in the ensures: stated that way, the
      real arithmetic of a call with literal step counts stays small. */
  lemma UnitSquareTrapezoidal(steps: int, h: real, v: real)
    requires steps >= 1 && h == 1.0 / (steps as real) && v == 1.0 / 3.0 + h * h / 6.0
    ensures Integral(Square, 0.0, 1.0, steps, Trapezoidal) == v
  {
    SquareIntegral(Trapezoidal, 0.0, 1.0, steps);
  }

  /** Simpson on `x^2` over `[0, 1]` is exactly 1/3 for every step count. */
  lemma UnitSquareSimpson(steps: int)
    requires steps >= 1
    ensures Integral(Square, 0.0, 1.0, steps, Simpson) == 1.0 / 3.0
  {
    SimpsonExactOnSquare(0.0, 1.0, steps);
  }

  /** More steps give a narrower subinterval, never wider than the interval. */
  lemma WidthsShrink(n1: int, n2: int, h1: real, h2: real)
    requires 1 <= n1 < n2 && h1 == 1.0 / (n1 as real) && h2 == 1.0 / (n2 as real)
    ensures 0.0 < h2 < h1 <= 1.0
  {
    var r1, r2 := n1 as real, n2 as real;
    assert h1 * r1 == 1.0 && h2 * r2 == 1.0;
    assert 0.0 < h1 && 0.0 < h2;
    ProductNonNegative(h1, r1 - 1.0, 1.0 - h1);
    var p := h1 * h2;
    ProductPositive(h1, h2, p);
    ProductPositive(p, r2 - r1, h1 - h2);
  }

  /** A product of non-negative factors is non-negative. */
  lemma ProductNonNegative(x: real, y: real, z: real)
    requires 0.0 <= x && 0.0 <= y && z == x * y
    ensures 0.0 <= z
  {
  }

  /** A product of positive factors is positive. */
  lemma ProductPositive(x: real, y: real, z: real)
    requires 0.0 < x && 0.0 < y && z == x * y
    ensures 0.0 < z
  {
  }

  /** The left-rectangle closed form stays below 1/3 and rises as `h` falls. */
  lemma LeftFormBelow(h1: real, h2: real, x1: real, x2: real)
    requires 0.0 < h2 < h1 <= 1.0
    requires x1 == 1.0 / 3.0 - h1 / 2.0 + h1 * h1 / 6.0 && x2 == 1.0 / 3.0 - h2 / 2.0 + h2 * h2 / 6.0
    ensures x1 < 1.0 / 3.0
    ensures x1 < x2
  {
    var s1, s2 := h1 * h1, h2 * h2;
    SquareAtMost(h1, s1);
    SquaresGap(h1, h2, s1, s2);
    LinearLeftForm(h1, h2, s1, s2, x1, x2);
  }

  /** A width in `(0, 1]` is at least its square. */
  lemma SquareAtMost(h: real, s: real)
    requires 0.0 < h <= 1.0 && s == h * h
    ensures s <= h
  {
    assert h * h <= h * 1.0;
  }

  /** Squares of widths in `(0, 1]` differ by less than three times the widths. */
  lemma SquaresGap(h1: real, h2: real, s1: real, s2: real)
    requires 0.0 < h2 < h1 <= 1.0 && s1 == h1 * h1 && s2 == h2 * h2
    ensures s1 - s2 < 3.0 * (h1 - h2)
  {
    var d := h1 - h2;
    assert h1 * h1 - h2 * h2 == d * (h1 + h2);
    assert d * (h1 + h2) < d * 3.0;
  }

  /** The linear core of `LeftFormBelow`, with the squares as plain unknowns. */
  lemma LinearLeftForm(h1: real, h2: real, s1: real, s2: real, x1: real, x2: real)
    requires 0.0 < h2 < h1 && s1 <= h1 && s1 - s2 < 3.0 * (h1 - h2)
    requires x1 == 1.0 / 3.0 - h1 / 2.0 + s1 / 6.0 && x2 == 1.0 / 3.0 - h2 / 2.0 + s2 / 6.0
    ensures x1 < 1.0 / 3.0 && x1 < x2
  {
  }

  /** The right-rectangle closed form stays above 1/3 and falls with `h`. */
  lemma RightFormAbove(h1: real, h2: real)
    requires 0.0 < h2 < h1 <= 1.0
    ensures 1.0 / 3.0 + h1 / 2.0 + h1 * h1 / 6.0 > 1.0 / 3.0
    ensures 1.0 / 3.0 + h2 / 2.0 + h2 * h2 / 6.0 < 1.0 / 3.0 + h1 / 2.0 + h1 * h1 / 6.0
  {
    SquaresShrink(h1, h2);
  }

  /** Squares of positive widths keep their order. */
  lemma SquaresShrink(h1: real, h2: real)
    requires 0.0 < h2 < h1
    ensures 0.0 < h2 * h2 < h1 * h1
  {
    assert h2 * h2 < h1 * h2 < h1 * h1;
  }

  /** Left rectangles underestimate 1/3 on `x^2`, and the error shrinks with more steps. */
  lemma UnitSquareLeftConverges(n1: int, n2: int)
    requires 1 <= n1 < n2
    ensures Integral(Square, 0.0, 1.0, n1, Rectangular(Left)) < 1.0 / 3.0
    ensures Integral(Square, 0.0, 1.0, n1, Rectangular(Left)) < Integral(Square, 0.0, 1.0, n2, Rectangular(Left))
  {
    var h1, h2 := 1.0 / (n1 as real), 1.0 / (n2 as real);
    WidthsShrink(n1, n2, h1, h2);
    UnitSquareLeft(n1, h1, 1.0 / 3.0 - h1 / 2.0 + h1 * h1 / 6.0);
    UnitSquareLeft(n2, h2, 1.0 / 3.0 - h2 / 2.0 + h2 * h2 / 6.0);
    LeftFormBelow(h1, h2, Integral(Square, 0.0, 1.0, n1, Rectangular(Left)), Integral(Square, 0.0, 1.0, n2, Rectangular(Left)));
  }

  /** Midpoint rectangles underestimate 1/3 on `x^2`, and the error shrinks with more steps. */
  lemma UnitSquareMiddleConverges(n1: int, n2: int)
    requires 1 <= n1 < n2
    ensures Integral(Square, 0.0, 1.0, n1, Rectangular(Middle)) < 1.0 / 3.0
    ensures Integral(Square, 0.0, 1.0, n1, Rectangular(Middle)) < Integral(Square, 0.0, 1.0, n2, Rectangular(Middle))
  {
    var h1, h2 := 1.0 / (n1 as real), 1.0 / (n2 as real);
    UnitSquareMiddle(n1, h1, 1.0 / 3.0 - h1 * h1 / 12.0);
    UnitSquareMiddle(n2, h2, 1.0 / 3.0 - h2 * h2 / 12.0);
    WidthsShrink(n1, n2, h1, h2);
    SquaresShrink(h1, h2);
  }

  /** Right rectangles overestimate 1/3 on `x^2`, and the error shrinks with more steps. */
  lemma UnitSquareRightConverges(n1: int, n2: int)
    requires 1 <= n1 < n2
    ensures Integral(Square, 0.0, 1.0, n1, Rectangular(Right)) > 1.0 / 3.0
    ensures Integral(Square, 0.0, 1.0, n2, Rectangular(Right)) < Integral(Square, 0.0, 1.0, n1, Rectangular(Right))
  {
    var h1, h2 := 1.0 / (n1 as real), 1.0 / (n2 as real);
    UnitSquareRight(n1, h1, 1.0 / 3.0 + h1 / 2.0 + h1 * h1 / 6.0);
    UnitSquareRight(n2, h2, 1.0 / 3.0 + h2 / 2.0 + h2 * h2 / 6.0);
    WidthsShrink(n1, n2, h1, h2);
    RightFormAbove(h1, h2);
  }

  /** Trapezoids overestimate 1/3 on `x^2`, and the error shrinks with more steps. */
  lemma UnitSquareTrapezoidalConverges(n1: int, n2: int)
    requires 1 <= n1 < n2
    ensures Integral(Square, 0.0, 1.0, n1, Trapezoidal) > 1.0 / 3.0
    ensures Integral(Square, 0.0, 1.0, n2, Trapezoidal) < Integral(Square, 0.0, 1.0, n1, Trapezoidal)
  {
    var h1, h2 := 1.0 / (n1 as real), 1.0 / (n2 as real);
    UnitSquareTrapezoidal(n1, h1, 1.0 / 3.0 + h1 * h1 / 6.0);
    UnitSquareTrapezoidal(n2, h2, 1.0 / 3.0 + h2 * h2 / 6.0);
    WidthsShrink(n1, n2, h1, h2);
    SquaresShrink(h1, h2);
  }

  /** Step counts of the sample program's rectangular and trapezoidal routines. */
  const RectangleSteps: int := 20
  const TrapSteps: int := 14

  /** `rectangle_left`: 20 left rectangles under `x^2` on `[0, 1]`, an
      underestimate of the exact 1/3. */
  function RectangleLeft(): (r: real)
    ensures r == 247.0 / 800.0 && r < 1.0 / 3.0
  {
    SampleLeft();
    Integral(Square, 0.0, 1.0, RectangleSteps, Rectangular(Left))
  }

  /** `rectangle_right`: 20 right rectangles, an overestimate of 1/3. */
  function RectangleRight(): (r: real)
    ensures r == 287.0 / 800.0 && r > 1.0 / 3.0
  {
    SampleRight();
    Integral(Square, 0.0, 1.0, RectangleSteps, Rectangular(Right))
  }

  /** `rectangle_mid`: 20 midpoint rectangles, an underestimate of 1/3. */
  function RectangleMid(): (r: real)
    ensures r == 533.0 / 1600.0 && r < 1.0 / 3.0
  {
    SampleMid();
    Integral(Square, 0.0, 1.0, RectangleSteps, Rectangular(Middle))
  }

  /** `trap`: 14 trapezoids, an overestimate of 1/3. */
  function Trap(): (r: real)
    ensures r == 131.0 / 392.0 && r > 1.0 / 3.0
  {
    SampleTrap();
    Integral(Square, 0.0, 1.0, TrapSteps, Trapezoidal)
  }

  /** The proof step of `RectangleLeft`: its closed form at the sample step count. */
  lemma SampleLeft()
    ensures Integral(Square, 0.0, 1.0, RectangleSteps, Rectangular(Left)) == 247.0 / 800.0 < 1.0 / 3.0
  {
    UnitSquareLeft(RectangleSteps, 1.0 / 20.0, 247.0 / 800.0);
  }

  /** The proof step of `RectangleRight`: its closed form at the sample step count. */
  lemma SampleRight()
    ensures Integral(Square, 0.0, 1.0, RectangleSteps, Rectangular(Right)) == 287.0 / 800.0 > 1.0 / 3.0
  {
    UnitSquareRight(RectangleSteps, 1.0 / 20.0, 287.0 / 800.0);
  }

  /** The proof step of `RectangleMid`: its closed form at the sample step count. */
  lemma SampleMid()
    ensures Integral(Square, 0.0, 1.0, RectangleSteps, Rectangular(Middle)) == 533.0 / 1600.0 < 1.0 / 3.0
  {
    UnitSquareMiddle(RectangleSteps, 1.0 / 20.0, 533.0 / 1600.0);
  }

  /** The proof step of `Trap`: its closed form at the sample step count. */
  lemma SampleTrap()
    ensures Integral(Square, 0.0, 1.0, TrapSteps, Trapezoidal) == 131.0 / 392.0 > 1.0 / 3.0
  {
    UnitSquareTrapezoidal(TrapSteps, 1.0 / 14.0, 131.0 / 392.0);
  }
}
