/** `simpson_integral(array, mode, x1, x2)`: the integral over [x1, x2] of a function given by
    its samples on a uniform grid, by one of four composite rules chosen by `mode`:
    0 rectangles, 1 trapezoids, 2 Simpson's 1/3 rule, 3 Simpson's 3/8 rule. The result is
    either the area or the exception the function raises. */
module Simpson {
  import opened RealSums
  import opened Outcome
  import opened Panels
  import opened Coefficients

  /** The grid step dx = (x2 - x1) / (len - 1), computed before the mode is looked at; a single
      sample divides by zero. With no samples the step is -(x2 - x1). */
  function Step(n: nat, x1: real, x2: real): (r: RealResult)
    ensures r.Raised? <==> n == 1
    ensures r.Raised? ==> r.failure == ZeroDivisionError
  {
    if n == 1 then Raised(ZeroDivisionError) else Value((x2 - x1) / ((n as int - 1) as real))
  }

  /** The grid that starts at x1 with the step dx reaches x2 at its last index len - 1 (with no
      samples, at index -1). */
  lemma StepSpansInterval(n: nat, x1: real, x2: real)
    requires n != 1
    ensures Abscissa(x1, Step(n, x1, x2).value, n as int - 1) == x2
  {
    var m := (n as int - 1) as real;
    assert m != 0.0;
    assert m * ((x2 - x1) / m) == x2 - x1;
  }

  /** What `simpson_integral(y, mode, x1, x2)` returns, or the exception it raises. A single
      sample always divides by zero, whatever the mode (so the one-sample tables of modes 2
      and 3 are never used); otherwise an unknown mode, or modes 2 and 3 without samples,
      raise NotImplementedError. Every other call returns a value, and modes 0 and 1 on no
      samples return 0. */
  function Integral(y: seq<real>, mode: int, x1: real, x2: real): (r: RealResult)
    ensures r == Raised(ZeroDivisionError) <==> |y| == 1
    ensures r == Raised(NotImplementedError) <==>
      |y| != 1 && (mode < 0 || mode > 3 || (|y| == 0 && (mode == 2 || mode == 3)))
    ensures r.Value? <==> |y| != 1 && 0 <= mode <= 3 && (|y| >= 2 || mode <= 1)
    ensures |y| == 0 && 0 <= mode <= 1 ==> r == Value(0.0)
  {
    match Step(|y|, x1, x2)
    case Raised(f) => Raised(f)
    case Value(dx) => Area(y, mode, dx)
  }

  /** The area the rule `mode` gives for the samples y at step dx: the rule's weights applied
      to the samples, times dx and the rule's scale factor. */
  function Area(y: seq<real>, mode: int, dx: real): (r: RealResult)
    ensures r.Raised? <==> mode < 0 || mode > 3 || (|y| == 0 && 2 <= mode)
    ensures r.Raised? ==> r.failure == NotImplementedError
    ensures |y| == 0 && 0 <= mode <= 1 ==> r == Value(0.0)
  {
    if mode == 0 then Value(Sum(y) * dx)
    else if mode == 1 then Value(WeightedSum(TrapezoidWeights(|y|), y) * dx / 2.0)
    else if mode == 2 then
      if |y| == 0 then Raised(NotImplementedError)
      else Value(WeightedSum(Simpson13Table(|y|), y) * dx * 2.0 / 6.0)
    else if mode == 3 then
      if |y| == 0 then Raised(NotImplementedError)
      else Value(WeightedSum(Simpson38Table(|y|), y) * dx * 3.0 / 8.0)
    else Raised(NotImplementedError)
  }

  /** The trapezoid loop of mode 1: one term (y[i] + y[i+1]) dx / 2 per interval. The terms
      add up to the weights [1, 2, ..., 2, 1] applied to the samples, times dx / 2. */
  method TrapezoidArea(y: seq<real>, dx: real) returns (area: real)
    ensures |y| != 1 ==> area == WeightedSum(TrapezoidWeights(|y|), y) * dx / 2.0
    ensures |y| <= 1 ==> area == 0.0
  {
    area := 0.0;
    var i := 0;
    while i + 1 < |y|
      invariant i == 0 || i < |y|
      invariant area == dx * Trapezoids(y, i)
    {
      TrapezoidAccumulates(dx, Trapezoids(y, i), Trapezoids(y, i + 1), y[i], y[i + 1]);
      area := area + (y[i] + y[i + 1]) * dx / 2.0;
      i := i + 1;
    }
    if |y| >= 2 {
      TrapezoidsAreWeighted(y);
      HalfScaled(dx, Trapezoids(y, |y| - 1), WeightedSum(TrapezoidWeights(|y|), y));
    }
  }

  /** The trapezoids over the first i intervals, in units of dx: the sum the loop of mode 1
      accumulates. */
  function Trapezoids(y: seq<real>, i: nat): real
    requires i < |y| || i == 0
  {
    if i == 0 then 0.0 else Trapezoids(y, i - 1) + (y[i - 1] + y[i]) / 2.0
  }

  /** The first i trapezoids are the first i trapezoid panels. */
  lemma {:induction false} TrapezoidsArePanels(y: seq<real>, i: nat)
    requires i < |y|
    ensures AllFit(|y|, Uniform(Trapezoid, i))
    ensures Trapezoids(y, i) == PanelSum(y, Uniform(Trapezoid, i))
  {
    if i > 0 {
      TrapezoidsArePanels(y, i - 1);
      TrapezoidStep(y, i - 1);
    }
  }

  /** All the trapezoids together weigh the samples by [1, 2, ..., 2, 1] / 2. */
  lemma TrapezoidsAreWeighted(y: seq<real>)
    requires |y| >= 2
    ensures Trapezoids(y, |y| - 1) == 1.0 / 2.0 * WeightedSum(TrapezoidWeights(|y|), y)
  {
    TrapezoidWeightsArePanels(|y|);
    assert Trapezoids(y, |y| - 1) == PanelSum(y, TrapezoidPanels(|y|)) by {
      TrapezoidsArePanels(y, |y| - 1);
    }
    ScaledWeights(TrapezoidWeights(|y|), 1.0 / 2.0, TrapezoidPanels(|y|), y);
  }

  /** Adding one trapezoid term (a + b) dx / 2 to dx times the sum before it gives dx times
      the sum after it. */
  lemma TrapezoidAccumulates(dx: real, before: real, after: real, a: real, b: real)
    requires after == before + (a + b) / 2.0
    ensures dx * before + (a + b) * dx / 2.0 == dx * after
  {
  }

  /** dx times half a weighted sum is the sum times dx / 2, as mode 1 is scaled. */
  lemma HalfScaled(dx: real, t: real, s: real)
    requires t == 1.0 / 2.0 * s
    ensures dx * t == s * dx / 2.0
  {
  }

  /** One more trapezoid adds half the two samples it spans. */
  lemma TrapezoidStep(y: seq<real>, i: nat)
    requires i + 1 < |y|
    ensures AllFit(|y|, Uniform(Trapezoid, i)) && AllFit(|y|, Uniform(Trapezoid, i + 1))
    ensures PanelSum(y, Uniform(Trapezoid, i + 1))
         == PanelSum(y, Uniform(Trapezoid, i)) + (y[i] + y[i + 1]) / 2.0
  {
    UniformTiles(Trapezoid, i + 1);
    TilesFit(Uniform(Trapezoid, i + 1), i + 1, |y|);
    UniformTiles(Trapezoid, i);
    TilesFit(Uniform(Trapezoid, i), i, |y|);
    var p := Panel(i, Trapezoid);
    assert Uniform(Trapezoid, i + 1)[..i] == Uniform(Trapezoid, i);
    WeightedSumOfTwo(Trapezoid, y[i .. i + 2]);
    assert Apply(y, p) == (y[i] + y[i + 1]) / 2.0;
  }

  /** A table that, scaled by k, is the superposition of panels weighs the samples as the
      panels do. */
  lemma ScaledWeights(w: seq<real>, k: real, ps: seq<Panel>, y: seq<real>)
    requires |w| == |y| && AllFit(|y|, ps)
    requires Scale(k, w) == Superpose(|y|, ps)
    ensures k * WeightedSum(w, y) == PanelSum(y, ps)
  {
    WeightedSumScale(k, w, y);
    SuperposeApplied(y, ps);
  }

  /** Weights that, scaled by f, are panels tiling the samples and exact for x^k, weigh samples
      of x^k, times f dx, to the integral of x^k over the grid. */
  lemma ScaledPanelsExact(y: seq<real>, w: seq<real>, f: real, ps: seq<Panel>, k: nat, x1: real, dx: real)
    requires |w| == |y| && |y| >= 2
    requires Tiles(ps, |y| - 1) && AllFit(|y|, ps) && Scale(f, w) == Superpose(|y|, ps)
    requires forall j :: 0 <= j < |ps| ==> ExactFor(ps[j].weights, k)
    requires SampledPower(y, k, x1, dx)
    ensures Times(dx, f * WeightedSum(w, y)) == PowerIntegral(Abscissa(x1, dx, |y| - 1), k) - PowerIntegral(x1, k)
  {
    CompositeExact(y, ps, |y| - 1, k, x1, dx);
    ScaledWeights(w, f, ps, y);
    assert dx * (f * WeightedSum(w, y)) == dx * PanelSum(y, ps);
  }

  /** Mode 1's area is dx times half the weighted sum. */
  lemma TrapezoidModeArea(y: seq<real>, dx: real, v: real)
    requires |y| >= 2
    requires Times(dx, 1.0 / 2.0 * WeightedSum(TrapezoidWeights(|y|), y)) == v
    ensures Area(y, 1, dx) == Value(v)
  {
    assert WeightedSum(TrapezoidWeights(|y|), y) * dx / 2.0 == Times(dx, 1.0 / 2.0 * WeightedSum(TrapezoidWeights(|y|), y));
  }

  /** Mode 2's area is dx times a third of the table's weighted sum. */
  lemma Simpson13ModeArea(y: seq<real>, dx: real, v: real)
    requires |y| >= 2
    requires Times(dx, 1.0 / 3.0 * WeightedSum(Simpson13Table(|y|), y)) == v
    ensures Area(y, 2, dx) == Value(v)
  {
    assert WeightedSum(Simpson13Table(|y|), y) * dx * 2.0 / 6.0 == Times(dx, 1.0 / 3.0 * WeightedSum(Simpson13Table(|y|), y));
  }

  /** Mode 3's area is dx times 3/8 of the table's weighted sum. */
  lemma Simpson38ModeArea(y: seq<real>, dx: real, v: real)
    requires |y| >= 2
    requires Times(dx, 3.0 / 8.0 * WeightedSum(Simpson38Table(|y|), y)) == v
    ensures Area(y, 3, dx) == Value(v)
  {
    assert WeightedSum(Simpson38Table(|y|), y) * dx * 3.0 / 8.0 == Times(dx, 3.0 / 8.0 * WeightedSum(Simpson38Table(|y|), y));
  }

  /** Mode 1 on samples of x^k, k <= 1, at x1, x1 + dx, ...: the integral of x^k over the grid. */
  lemma TrapezoidModeExact(y: seq<real>, k: nat, x1: real, dx: real)
    requires |y| >= 2 && k <= 1
    requires SampledPower(y, k, x1, dx)
    ensures Area(y, 1, dx) == Value(PowerIntegral(Abscissa(x1, dx, |y| - 1), k) - PowerIntegral(x1, k))
  {
    TrapezoidWeightsArePanels(|y|);
    TrapezoidPanelsExactFor(|y|, k);
    ScaledPanelsExact(y, TrapezoidWeights(|y|), 1.0 / 2.0, TrapezoidPanels(|y|), k, x1, dx);
    TrapezoidModeArea(y, dx, PowerIntegral(Abscissa(x1, dx, |y| - 1), k) - PowerIntegral(x1, k));
  }

  /** Mode 2 on samples of x^k, k up to the degree of its table: the integral of x^k over the
      grid. */
  lemma Simpson13ModeExact(y: seq<real>, k: nat, x1: real, dx: real)
    requires |y| >= 2 && k <= ExactDegree(2, |y|)
    requires SampledPower(y, k, x1, dx)
    ensures Area(y, 2, dx) == Value(PowerIntegral(Abscissa(x1, dx, |y| - 1), k) - PowerIntegral(x1, k))
  {
    Simpson13TableIsPanels(|y|);
    Simpson13PanelsExactFor(|y|, k);
    ScaledPanelsExact(y, Simpson13Table(|y|), 1.0 / 3.0, Simpson13Panels(|y|), k, x1, dx);
    Simpson13ModeArea(y, dx, PowerIntegral(Abscissa(x1, dx, |y| - 1), k) - PowerIntegral(x1, k));
  }

  /** Mode 3 on samples of x^k, k up to the degree of its table: the integral of x^k over the
      grid. */
  lemma Simpson38ModeExact(y: seq<real>, k: nat, x1: real, dx: real)
    requires |y| >= 2 && k <= ExactDegree(3, |y|)
    requires SampledPower(y, k, x1, dx)
    ensures Area(y, 3, dx) == Value(PowerIntegral(Abscissa(x1, dx, |y| - 1), k) - PowerIntegral(x1, k))
  {
    Simpson38TableIsPanels(|y|);
    Simpson38PanelsExactFor(|y|, k);
    ScaledPanelsExact(y, Simpson38Table(|y|), 3.0 / 8.0, Simpson38Panels(|y|), k, x1, dx);
    Simpson38ModeArea(y, dx, PowerIntegral(Abscissa(x1, dx, |y| - 1), k) - PowerIntegral(x1, k));
  }

  /** `simpson_integral`: the step first, then the rule `mode` selects. */
  method SimpsonIntegral(y: seq<real>, mode: int, x1: real, x2: real) returns (r: RealResult)
    ensures r == Integral(y, mode, x1, x2)
  {
    var n := |y|;
    if n == 1 {
      return Raised(ZeroDivisionError);
    }
    var dx := (x2 - x1) / ((n as int - 1) as real);
    var area := 0.0;
    if mode == 0 {
      area := Sum(y) * dx;
    } else if mode == 1 {
      area := TrapezoidArea(y, dx);
      if n == 0 {
        assert WeightedSum(TrapezoidWeights(n), y) == 0.0;
      }
    } else if mode == 2 {
      var coeff := Simpson13Coefficients(n);
      if coeff.Err? {
        return Raised(coeff.failure);
      }
      area := WeightedSum(coeff.value, y) * dx * 2.0 / 6.0;
    } else if mode == 3 {
      var coeff := Simpson38Coefficients(n);
      if coeff.Err? {
        return Raised(coeff.failure);
      }
      area := WeightedSum(coeff.value, y) * dx * 3.0 / 8.0;
    } else {
      return Raised(NotImplementedError);
    }
    return Value(area);
  }

  /** The degree up to which mode 1, 2 or 3 is proved exact on n samples: 3 when the rule
      needs no lower-order end panel, else 1. */
  function ExactDegree(mode: int, n: nat): nat
  {
    if mode == 2 && n % 2 == 1 then 3
    else if mode == 3 && n % 3 != 2 then 3
    else 1
  }

  /** Modes 1, 2 and 3 integrate x^k exactly for every k up to the rule's degree: on samples of
      x^k at x1, x1 + dx, ..., x2 the result is x2^(k+1)/(k+1) - x1^(k+1)/(k+1). */
  lemma MonomialExact(y: seq<real>, mode: int, x1: real, x2: real, k: nat)
    requires 1 <= mode <= 3 && |y| >= 2 && k <= ExactDegree(mode, |y|)
    requires SampledPower(y, k, x1, Step(|y|, x1, x2).value)
    ensures Integral(y, mode, x1, x2) == Value(PowerIntegral(x2, k) - PowerIntegral(x1, k))
  {
    var dx := Step(|y|, x1, x2).value;
    StepSpansInterval(|y|, x1, x2);
    if mode == 1 {
      TrapezoidModeExact(y, k, x1, dx);
    } else if mode == 2 {
      Simpson13ModeExact(y, k, x1, dx);
    } else {
      Simpson38ModeExact(y, k, x1, dx);
    }
  }

  /** Modes 1, 2 and 3 integrate a constant c exactly: c (x2 - x1). */
  lemma ConstantExact(y: seq<real>, mode: int, x1: real, x2: real, c: real)
    requires 1 <= mode <= 3 && |y| >= 2
    requires forall i :: 0 <= i < |y| ==> y[i] == c
    ensures Integral(y, mode, x1, x2) == Value(c * (x2 - x1))
  {
    assert y == Constant(|y|, c);
    if mode == 1 {
      TrapezoidOnConstant(|y|, c, x1, x2);
    } else if mode == 2 {
      Simpson13OnConstant(|y|, c, x1, x2);
    } else {
      Simpson38OnConstant(|y|, c, x1, x2);
    }
  }

  /** Mode 1 on n copies of c: the weights add up to 2 (n - 1). */
  lemma TrapezoidOnConstant(n: nat, c: real, x1: real, x2: real)
    requires n >= 2
    ensures Integral(Constant(n, c), 1, x1, x2) == Value(c * (x2 - x1))
  {
    StepSpansInterval(n, x1, x2);
    WeightedSumConstant(TrapezoidWeights(n), c);
    TrapezoidWeightsSum(n);
    TrapezoidConstantArea(WeightedSum(TrapezoidWeights(n), Constant(n, c)), c, Sum(TrapezoidWeights(n)),
      (n - 1) as real, Step(n, x1, x2).value, x2 - x1);
  }

  /** Weights adding up to 2 m, times dx / 2, span m steps of length dx. */
  lemma TrapezoidConstantArea(w: real, c: real, s: real, m: real, dx: real, span: real)
    requires w == c * s && s == 2.0 * m && m * dx == span
    ensures w * dx / 2.0 == c * span
  {
  }

  /** Mode 2 on n copies of c: the weights add up to 3 (n - 1). */
  lemma Simpson13OnConstant(n: nat, c: real, x1: real, x2: real)
    requires n >= 2
    ensures Integral(Constant(n, c), 2, x1, x2) == Value(c * (x2 - x1))
  {
    StepSpansInterval(n, x1, x2);
    WeightedSumConstant(Simpson13Table(n), c);
    Simpson13TableSum(n);
    Simpson13ConstantArea(WeightedSum(Simpson13Table(n), Constant(n, c)), c, Sum(Simpson13Table(n)),
      (n - 1) as real, Step(n, x1, x2).value, x2 - x1);
  }

  /** Weights adding up to 3 m, times dx 2 / 6, span m steps of length dx. */
  lemma Simpson13ConstantArea(w: real, c: real, s: real, m: real, dx: real, span: real)
    requires w == c * s && s == 3.0 * m && m * dx == span
    ensures w * dx * 2.0 / 6.0 == c * span
  {
  }

  /** Mode 3 on n copies of c: the weights add up to 8 (n - 1) / 3. */
  lemma Simpson38OnConstant(n: nat, c: real, x1: real, x2: real)
    requires n >= 2
    ensures Integral(Constant(n, c), 3, x1, x2) == Value(c * (x2 - x1))
  {
    StepSpansInterval(n, x1, x2);
    WeightedSumConstant(Simpson38Table(n), c);
    Simpson38TableSum(n);
    assert WeightedSum(Simpson38Table(n), Constant(n, c)) == c * (8.0 * ((n - 1) as real) / 3.0);
    Simpson38ConstantArea(WeightedSum(Simpson38Table(n), Constant(n, c)), c, Sum(Simpson38Table(n)),
      (n - 1) as real, Step(n, x1, x2).value, x2 - x1);
  }

  /** Weights adding up to 8 m / 3, times dx 3 / 8, span m steps of length dx. */
  lemma Simpson38ConstantArea(w: real, c: real, s: real, m: real, dx: real, span: real)
    requires w == c * s && s == 8.0 * m / 3.0 && m * dx == span
    ensures w * dx * 3.0 / 8.0 == c * span
  {
  }

  /** Mode 0 weighs every sample by dx, so on a constant c it covers n steps of the grid's
      n - 1: c (x2 - x1) n / (n - 1), one step more than the interval. */
  lemma RectangleOnConstant(y: seq<real>, x1: real, x2: real, c: real)
    requires |y| >= 2
    requires forall i :: 0 <= i < |y| ==> y[i] == c
    ensures Integral(y, 0, x1, x2) == Value(c * (x2 - x1) * (|y| as real) / ((|y| - 1) as real))
  {
    var n := |y|;
    assert y == Constant(n, c);
    ConstantSum(n, c);
  }

  /** Mode 0 as written on two samples of 1 over [0, 1]: the area 2, twice the interval. */
  lemma RectangleOvercounts()
    ensures Integral([1.0, 1.0], 0, 0.0, 1.0) == Value(2.0)
  {
    assert Sum([1.0, 1.0]) == 2.0;
  }

  /** The rectangle rule with the step (x2 - x1) / len: each of the len samples stands for one
      of len equal cells of [x1, x2]. With no samples the step divides by zero. */
  function IntendedRectangle(y: seq<real>, x1: real, x2: real): (r: RealResult)
    ensures r.Raised? <==> |y| == 0
    ensures r.Raised? ==> r.failure == ZeroDivisionError
  {
    if |y| == 0 then Raised(ZeroDivisionError)
    else Value(Sum(y) * ((x2 - x1) / (|y| as real)))
  }

  /** The intended rectangle rule integrates a constant c exactly: c (x2 - x1). */
  lemma IntendedRectangleOnConstant(y: seq<real>, x1: real, x2: real, c: real)
    requires |y| >= 1
    requires forall i :: 0 <= i < |y| ==> y[i] == c
    ensures IntendedRectangle(y, x1, x2) == Value(c * (x2 - x1))
  {
    var n := |y|;
    assert y == Constant(n, c);
    ConstantSum(n, c);
    assert (n as real) * ((x2 - x1) / (n as real)) == x2 - x1;
  }

  /** n copies of c add up to n c. */
  lemma {:induction false} ConstantSum(n: nat, c: real)
    ensures Sum(Constant(n, c)) == (n as real) * c
  {
    if n > 0 {
      assert Constant(n, c)[..n - 1] == Constant(n - 1, c);
      ConstantSum(n - 1, c);
    }
  }
}
