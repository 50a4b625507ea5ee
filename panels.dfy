/** Composite Newton-Cotes rules as sums of panels. Each panel lays the weights of one basic
    rule (trapezoid, Simpson's 1/3, Simpson's 3/8), in units of the step dx, over a run of
    consecutive samples; the weight vector of a composite rule is the superposition of its
    panels. This is the reference against which the coefficient tables of `simpson_integral`
    are checked, and the route by which their exactness is proved. */
module Panels {
  import opened RealSums

  /** The weights `weights` applied to the samples `start .. start + |weights| - 1`. */
  datatype Panel = Panel(start: nat, weights: seq<real>)

  /** The trapezoid rule over one interval: h/2 (f0 + f1). */
  const Trapezoid: seq<real> := [1.0 / 2.0, 1.0 / 2.0]

  /** Simpson's 1/3 rule over two intervals: h/3 (f0 + 4 f1 + f2). */
  const Simpson: seq<real> := [1.0 / 3.0, 4.0 / 3.0, 1.0 / 3.0]

  /** Simpson's 3/8 rule over three intervals: 3h/8 (f0 + 3 f1 + 3 f2 + f3). */
  const ThreeEighths: seq<real> := [3.0 / 8.0, 9.0 / 8.0, 9.0 / 8.0, 3.0 / 8.0]

  /** The index of the last sample a panel reads. */
  function End(p: Panel): int
  {
    p.start + |p.weights| - 1
  }

  predicate Fits(n: nat, p: Panel)
  {
    p.start + |p.weights| <= n
  }

  predicate AllFit(n: nat, ps: seq<Panel>)
  {
    forall j :: 0 <= j < |ps| ==> Fits(n, ps[j])
  }

  /** The weights of one panel as a vector over `n` samples, zero outside the panel. */
  function Place(n: nat, p: Panel): seq<real>
    requires Fits(n, p)
  {
    seq(n, i requires 0 <= i < n =>
      if p.start <= i < p.start + |p.weights| then p.weights[i - p.start] else 0.0)
  }

  /** The weight vector over `n` samples of the composite rule made of the panels `ps`. */
  function Superpose(n: nat, ps: seq<Panel>): (r: seq<real>)
    requires AllFit(n, ps)
    ensures |r| == n
  {
    if ps == [] then Constant(n, 0.0)
    else Plus(Superpose(n, ps[..|ps| - 1]), Place(n, ps[|ps| - 1]))
  }

  /** `count` panels of the stencil `w`, each starting at the sample where the previous one
      ends, the first at sample 0. */
  function Uniform(w: seq<real>, count: nat): (ps: seq<Panel>)
    requires |w| >= 2
    ensures |ps| == count
  {
    if count == 0 then []
    else
      var k: nat := |w| - 1;
      Uniform(w, count - 1) + [Panel((count - 1) * k, w)]
  }

  /** The panels `ps` cover the samples 0 .. e in order: each spans at least one interval and
      starts at the sample where the previous one ends. */
  predicate Tiles(ps: seq<Panel>, e: nat)
  {
    if ps == [] then e == 0
    else
      var p := ps[|ps| - 1];
      |p.weights| >= 2 && End(p) == e && Tiles(ps[..|ps| - 1], p.start)
  }

  /** One more panel, starting where a tiling ends, extends the tiling. */
  lemma TilesExtend(ps: seq<Panel>, e: nat, w: seq<real>)
    requires Tiles(ps, e) && |w| >= 2
    ensures Tiles(ps + [Panel(e, w)], e + |w| - 1)
  {
    assert (ps + [Panel(e, w)])[..|ps|] == ps;
  }

  lemma {:induction false} UniformTiles(w: seq<real>, count: nat)
    requires |w| >= 2
    ensures Tiles(Uniform(w, count), count * (|w| - 1))
  {
    if count > 0 {
      UniformTiles(w, count - 1);
      var k: nat := |w| - 1;
      var e: nat := (count - 1) * k;
      assert e + k == count * k;
      assert Uniform(w, count) == Uniform(w, count - 1) + [Panel(e, w)];
      TilesExtend(Uniform(w, count - 1), e, w);
    }
  }

  /** A tiling of 0 .. e lies within any `n > e` samples. */
  lemma {:induction false} TilesFit(ps: seq<Panel>, e: nat, n: nat)
    requires Tiles(ps, e) && e < n
    ensures AllFit(n, ps)
  {
    if ps != [] {
      var p := ps[|ps| - 1];
      TilesFit(ps[..|ps| - 1], p.start, n);
      assert forall j :: 0 <= j < |ps| - 1 ==> ps[j] == ps[..|ps| - 1][j];
    }
  }

  /** The contribution of one panel: its weights applied to the samples it covers. */
  function Apply(y: seq<real>, p: Panel): real
    requires Fits(|y|, p)
  {
    WeightedSum(p.weights, y[p.start .. p.start + |p.weights|])
  }

  /** The composite rule evaluated panel by panel. */
  function PanelSum(y: seq<real>, ps: seq<Panel>): real
    requires AllFit(|y|, ps)
  {
    if ps == [] then 0.0 else PanelSum(y, ps[..|ps| - 1]) + Apply(y, ps[|ps| - 1])
  }

  /** A placed panel is zeros, the panel's weights, zeros. */
  lemma PlaceSplits(n: nat, p: Panel)
    requires Fits(n, p)
    ensures Place(n, p) == Constant(p.start, 0.0) + p.weights + Constant(n - p.start - |p.weights|, 0.0)
  {
    var s, w := p.start, p.weights;
    var parts := Constant(s, 0.0) + w + Constant(n - s - |w|, 0.0);
    forall i | 0 <= i < n
      ensures Place(n, p)[i] == parts[i]
    {
      if s <= i < s + |w| {
        assert parts[i] == w[i - s];
      }
    }
  }

  /** The samples are their part before i, their part from i to j, and their part from j. */
  lemma SplitAt(y: seq<real>, i: nat, j: nat)
    requires i <= j <= |y|
    ensures y == y[..i] + y[i .. j] + y[j ..]
  {
  }

  /** Weighing the samples with a placed panel is applying the panel. */
  lemma PlaceApplied(y: seq<real>, p: Panel)
    requires Fits(|y|, p)
    ensures WeightedSum(Place(|y|, p), y) == Apply(y, p)
  {
    var n, s, w := |y|, p.start, p.weights;
    SplitAt(y, s, s + |w|);
    PlaceSplits(n, p);
    PaddedWeightedSum(Constant(s, 0.0), w, Constant(n - s - |w|, 0.0), y[..s], y[s .. s + |w|], y[s + |w| ..]);
  }

  /** Weights padded with zeros on both sides weigh only the samples between the pads. */
  lemma PaddedWeightedSum(lead: seq<real>, w: seq<real>, trail: seq<real>, before: seq<real>, inside: seq<real>, after: seq<real>)
    requires lead == Constant(|before|, 0.0) && trail == Constant(|after|, 0.0) && |inside| == |w|
    ensures WeightedSum(lead + w + trail, before + inside + after) == WeightedSum(w, inside)
  {
    WeightedSumAppend(lead + w, trail, before + inside, after);
    WeightedSumAppend(lead, w, before, inside);
    WeightedSumZeros(before);
    WeightedSumZeros(after);
  }

  /** Weighing the samples with the superposed weights is summing the panels. */
  lemma {:induction false} SuperposeApplied(y: seq<real>, ps: seq<Panel>)
    requires AllFit(|y|, ps)
    ensures WeightedSum(Superpose(|y|, ps), y) == PanelSum(y, ps)
  {
    if ps == [] {
      WeightedSumZeros(y);
    } else {
      var front, last := ps[..|ps| - 1], ps[|ps| - 1];
      SuperposeApplied(y, front);
      WeightedSumPlus(Superpose(|y|, front), Place(|y|, last), y);
      PlaceApplied(y, last);
    }
  }

  /** A panel list with one more panel at its end superposes to the old weights plus the new
      panel's. */
  lemma SuperposeSnoc(n: nat, ps: seq<Panel>, p: Panel, i: nat)
    requires AllFit(n, ps + [p]) && i < n
    ensures AllFit(n, ps)
    ensures Superpose(n, ps + [p])[i] == Superpose(n, ps)[i] + Place(n, p)[i]
  {
    assert (ps + [p])[..|ps|] == ps;
    assert forall j :: 0 <= j < |ps| ==> ps[j] == (ps + [p])[j];
  }

  /** A uniform run of `count` stencils covers the samples 0 .. count (|w| - 1). */
  lemma UniformFit(n: nat, w: seq<real>, count: nat)
    requires |w| >= 2 && count * (|w| - 1) < n
    ensures AllFit(n, Uniform(w, count))
  {
    UniformTiles(w, count);
    TilesFit(Uniform(w, count), count * (|w| - 1), n);
  }

  /** The last stencil of a run of `count` ends where the run does. */
  lemma LastStart(count: nat, k: nat)
    requires 0 < count
    ensures (count - 1) * k + k == count * k
  {
  }

  /** One more stencil at the end of a uniform run adds the stencil's weights over its own
      samples and nothing elsewhere. */
  lemma UniformSnoc(n: nat, w: seq<real>, count: nat, i: nat)
    requires |w| >= 2 && 0 < count && count * (|w| - 1) < n && i < n
    ensures AllFit(n, Uniform(w, count - 1)) && AllFit(n, Uniform(w, count))
    ensures Superpose(n, Uniform(w, count))[i] == Superpose(n, Uniform(w, count - 1))[i] +
      (if (count - 1) * (|w| - 1) <= i <= count * (|w| - 1) then w[i - (count - 1) * (|w| - 1)] else 0.0)
  {
    var k: nat := |w| - 1;
    var last := Panel((count - 1) * k, w);
    UniformFit(n, w, count);
    LastStart(count, k);
    assert Uniform(w, count) == Uniform(w, count - 1) + [last];
    SuperposeSnoc(n, Uniform(w, count - 1), last, i);
  }

  /** The weight at sample `i` after Trapezoid panel `c`, from the weight before it. */
  lemma TrapezoidWeightStep(c: nat, i: nat, before: real, after: real)
    requires 0 < c
    requires before == if (c - 1) == 0 || i > (c - 1) then 0.0
        else if i == 0 || i == (c - 1) then 1.0 / 2.0
        else 1.0
    requires after == before + (if i == c - 1 || i == c then 1.0 / 2.0 else 0.0)
    ensures after == if c == 0 || i > c then 0.0
        else if i == 0 || i == c then 1.0 / 2.0
        else 1.0
  {
  }

  /** The last of `count` Trapezoid panels adds its stencil over its own samples. */
  lemma TrapezoidSnoc(n: nat, count: nat, i: nat)
    requires 0 < count && count < n && i < n
    ensures AllFit(n, Uniform(Trapezoid, count - 1)) && AllFit(n, Uniform(Trapezoid, count))
    ensures Superpose(n, Uniform(Trapezoid, count))[i] == Superpose(n, Uniform(Trapezoid, count - 1))[i] +
      (if i == count - 1 || i == count then 1.0 / 2.0 else 0.0)
  {
    UniformSnoc(n, Trapezoid, count, i);
    assert |Trapezoid| == 2;
  }

  /** `count` trapezoid panels weigh the samples 1/2, 1, ..., 1, 1/2 over 0 .. count. */
  lemma {:induction false} UniformTrapezoidAt(n: nat, count: nat, i: nat)
    requires count < n && i < n
    ensures AllFit(n, Uniform(Trapezoid, count))
    ensures Superpose(n, Uniform(Trapezoid, count))[i] ==
      if count == 0 || i > count then 0.0
      else if i == 0 || i == count then 1.0 / 2.0
      else 1.0
  {
    if count == 0 {
      assert Superpose(n, []) == Constant(n, 0.0);
    } else {
      UniformTrapezoidAt(n, count - 1, i);
      TrapezoidSnoc(n, count, i);
      TrapezoidWeightStep(count, i, Superpose(n, Uniform(Trapezoid, count - 1))[i], Superpose(n, Uniform(Trapezoid, count))[i]);
    }
  }

  /** The weight at sample `i` after Simpson panel `c`, from the weight before it. */
  lemma SimpsonWeightStep(c: nat, i: nat, before: real, after: real)
    requires 0 < c
    requires before == if (c - 1) == 0 || i > 2 * (c - 1) then 0.0
        else if i == 0 || i == 2 * (c - 1) then 1.0 / 3.0
        else if i % 2 == 1 then 4.0 / 3.0
        else 2.0 / 3.0
    requires after == before + (if i == 2 * c - 2 || i == 2 * c then 1.0 / 3.0 else if i == 2 * c - 1 then 4.0 / 3.0 else 0.0)
    ensures after == if c == 0 || i > 2 * c then 0.0
        else if i == 0 || i == 2 * c then 1.0 / 3.0
        else if i % 2 == 1 then 4.0 / 3.0
        else 2.0 / 3.0
  {
  }

  /** The last of `count` Simpson panels adds its stencil over its own samples. */
  lemma SimpsonSnoc(n: nat, count: nat, i: nat)
    requires 0 < count && 2 * count < n && i < n
    ensures AllFit(n, Uniform(Simpson, count - 1)) && AllFit(n, Uniform(Simpson, count))
    ensures Superpose(n, Uniform(Simpson, count))[i] == Superpose(n, Uniform(Simpson, count - 1))[i] +
      (if i == 2 * count - 2 || i == 2 * count then 1.0 / 3.0 else if i == 2 * count - 1 then 4.0 / 3.0 else 0.0)
  {
    UniformSnoc(n, Simpson, count, i);
    assert |Simpson| == 3;
  }

  /** `count` Simpson panels weigh the samples 1/3, 4/3, 2/3, 4/3, ..., 2/3, 4/3, 1/3 over
      0 .. 2 count. */
  lemma {:induction false} UniformSimpsonAt(n: nat, count: nat, i: nat)
    requires 2 * count < n && i < n
    ensures AllFit(n, Uniform(Simpson, count))
    ensures Superpose(n, Uniform(Simpson, count))[i] ==
      if count == 0 || i > 2 * count then 0.0
      else if i == 0 || i == 2 * count then 1.0 / 3.0
      else if i % 2 == 1 then 4.0 / 3.0
      else 2.0 / 3.0
  {
    if count == 0 {
      assert Superpose(n, []) == Constant(n, 0.0);
    } else {
      UniformSimpsonAt(n, count - 1, i);
      SimpsonSnoc(n, count, i);
      SimpsonWeightStep(count, i, Superpose(n, Uniform(Simpson, count - 1))[i], Superpose(n, Uniform(Simpson, count))[i]);
    }
  }

  /** The weight at sample `i` after ThreeEighths panel `c`, from the weight before it. */
  lemma ThreeEighthsWeightStep(c: nat, i: nat, before: real, after: real)
    requires 0 < c
    requires before == if (c - 1) == 0 || i > 3 * (c - 1) then 0.0
        else if i == 0 || i == 3 * (c - 1) then 3.0 / 8.0
        else if i % 3 == 0 then 3.0 / 4.0
        else 9.0 / 8.0
    requires after == before + (if i == 3 * c - 3 || i == 3 * c then 3.0 / 8.0 else if 3 * c - 3 < i < 3 * c then 9.0 / 8.0 else 0.0)
    ensures after == if c == 0 || i > 3 * c then 0.0
        else if i == 0 || i == 3 * c then 3.0 / 8.0
        else if i % 3 == 0 then 3.0 / 4.0
        else 9.0 / 8.0
  {
  }

  /** The last of `count` ThreeEighths panels adds its stencil over its own samples. */
  lemma ThreeEighthsSnoc(n: nat, count: nat, i: nat)
    requires 0 < count && 3 * count < n && i < n
    ensures AllFit(n, Uniform(ThreeEighths, count - 1)) && AllFit(n, Uniform(ThreeEighths, count))
    ensures Superpose(n, Uniform(ThreeEighths, count))[i] == Superpose(n, Uniform(ThreeEighths, count - 1))[i] +
      (if i == 3 * count - 3 || i == 3 * count then 3.0 / 8.0 else if 3 * count - 3 < i < 3 * count then 9.0 / 8.0 else 0.0)
  {
    UniformSnoc(n, ThreeEighths, count, i);
    assert |ThreeEighths| == 4;
  }

  /** `count` 3/8 panels weigh the samples 3/8, 9/8, 9/8, 3/4, 9/8, 9/8, ..., 3/4, 9/8, 9/8,
      3/8 over 0 .. 3 count. */
  lemma {:induction false} UniformThreeEighthsAt(n: nat, count: nat, i: nat)
    requires 3 * count < n && i < n
    ensures AllFit(n, Uniform(ThreeEighths, count))
    ensures Superpose(n, Uniform(ThreeEighths, count))[i] ==
      if count == 0 || i > 3 * count then 0.0
      else if i == 0 || i == 3 * count then 3.0 / 8.0
      else if i % 3 == 0 then 3.0 / 4.0
      else 9.0 / 8.0
  {
    if count == 0 {
      assert Superpose(n, []) == Constant(n, 0.0);
    } else {
      UniformThreeEighthsAt(n, count - 1, i);
      ThreeEighthsSnoc(n, count, i);
      ThreeEighthsWeightStep(count, i, Superpose(n, Uniform(ThreeEighths, count - 1))[i], Superpose(n, Uniform(ThreeEighths, count))[i]);
    }
  }

  // Exactness. A panel integrates f over its intervals exactly when dx times its weighted
  // samples equals F(last abscissa) - F(first abscissa) for an antiderivative F of f.

  /** `x` to the power `k`. */
  function Power(x: real, k: nat): real
  {
    if k == 0 then 1.0 else x * Power(x, k - 1)
  }

  /** The antiderivative x^(k+1) / (k+1) of x^k. */
  function PowerIntegral(x: real, k: nat): real
  {
    Power(x, k + 1) / ((k + 1) as real)
  }

  /** x^0 = 1 and x^1 = x. */
  lemma PowerOne(x: real)
    ensures Power(x, 0) == 1.0 && Power(x, 1) == x
  {
    assert Power(x, 1) == x * Power(x, 0);
  }

  /** x^2 = x x. */
  lemma PowerTwo(x: real)
    ensures Power(x, 2) == x * x
  {
    PowerOne(x);
    assert Power(x, 2) == x * Power(x, 1);
  }

  /** x^3 = x x x. */
  lemma PowerThree(x: real)
    ensures Power(x, 3) == x * x * x
  {
    PowerTwo(x);
    assert Power(x, 3) == x * Power(x, 2);
  }

  /** x^4 = x x x x. */
  lemma PowerFour(x: real)
    ensures Power(x, 4) == x * x * x * x
  {
    PowerThree(x);
    assert Power(x, 4) == x * Power(x, 3);
  }

  /** The abscissa of sample `i` on the grid that starts at x1 with step dx. */
  function Abscissa(x1: real, dx: real, i: int): real
  {
    x1 + (i as real) * dx
  }

  /** The samples `y` are x^k at the abscissas x1, x1 + dx, x1 + 2 dx, ... */
  predicate SampledPower(y: seq<real>, k: nat, x1: real, dx: real)
  {
    forall i :: 0 <= i < |y| ==> y[i] == Power(Abscissa(x1, dx, i), k)
  }

  /** On the grid x1 + i dx, the panel `p` yields exactly F at its last abscissa minus F at
      its first. */
  predicate ExactOn(y: seq<real>, p: Panel, F: real -> real, x1: real, dx: real)
    requires Fits(|y|, p)
  {
    Times(dx, Apply(y, p)) == F(Abscissa(x1, dx, End(p))) - F(Abscissa(x1, dx, p.start))
  }

  /** Panels that tile 0 .. e and are each exact for F add up to F(x1 + e dx) - F(x1). */
  lemma {:induction false} Telescoping(y: seq<real>, ps: seq<Panel>, e: nat, F: real -> real, x1: real, dx: real)
    requires Tiles(ps, e) && AllFit(|y|, ps)
    requires forall j :: 0 <= j < |ps| ==> ExactOn(y, ps[j], F, x1, dx)
    ensures Times(dx, PanelSum(y, ps)) == F(Abscissa(x1, dx, e)) - F(x1)
  {
    if ps == [] {
      assert Abscissa(x1, dx, e) == x1;
    } else {
      var front, last := ps[..|ps| - 1], ps[|ps| - 1];
      var mid := last.start;
      ExactFront(y, ps, front, F, x1, dx);
      Telescoping(y, front, mid, F, x1, dx);
      assert Times(dx, Apply(y, last)) == F(Abscissa(x1, dx, e)) - F(Abscissa(x1, dx, mid));
      TelescopeStep(dx, PanelSum(y, front), Apply(y, last), PanelSum(y, ps),
        F(x1), F(Abscissa(x1, dx, mid)), F(Abscissa(x1, dx, e)));
    }
  }

  /** Dropping the last panel keeps a panel list fitting and exact. */
  lemma ExactFront(y: seq<real>, ps: seq<Panel>, front: seq<Panel>, F: real -> real, x1: real, dx: real)
    requires ps != [] && front == ps[..|ps| - 1] && AllFit(|y|, ps)
    requires forall j :: 0 <= j < |ps| ==> ExactOn(y, ps[j], F, x1, dx)
    ensures AllFit(|y|, front)
    ensures forall j :: 0 <= j < |front| ==> ExactOn(y, front[j], F, x1, dx)
  {
    forall j | 0 <= j < |front|
      ensures front[j] == ps[j]
    {
    }
  }

  /** One telescoping step: if d u spans f0 .. fm and d v spans fm .. fe, then d (u + v)
      spans f0 .. fe. */
  lemma TelescopeStep(d: real, u: real, v: real, w: real, f0: real, fm: real, fe: real)
    requires w == u + v
    requires Times(d, u) == fm - f0 && Times(d, v) == fe - fm
    ensures Times(d, w) == fe - f0
  {
  }

  lemma WeightedSumOfTwo(c: seq<real>, t: seq<real>)
    requires |c| == |t| == 2
    ensures WeightedSum(c, t) == c[0] * t[0] + c[1] * t[1]
  {
    assert WeightedSum(c[..1], t[..1]) == c[0] * t[0];
  }

  lemma WeightedSumOfThree(c: seq<real>, t: seq<real>)
    requires |c| == |t| == 3
    ensures WeightedSum(c, t) == c[0] * t[0] + c[1] * t[1] + c[2] * t[2]
  {
    WeightedSumOfTwo(c[..2], t[..2]);
  }

  lemma WeightedSumOfFour(c: seq<real>, t: seq<real>)
    requires |c| == |t| == 4
    ensures WeightedSum(c, t) == c[0] * t[0] + c[1] * t[1] + c[2] * t[2] + c[3] * t[3]
  {
    WeightedSumOfThree(c[..3], t[..3]);
  }

  /** The abscissas of the samples after sample s are one, two and three steps further. */
  lemma GridSteps(x1: real, dx: real, s: nat)
    ensures Abscissa(x1, dx, s + 1) == Abscissa(x1, dx, s) + dx
    ensures Abscissa(x1, dx, s + 2) == Abscissa(x1, dx, s) + 2.0 * dx
    ensures Abscissa(x1, dx, s + 3) == Abscissa(x1, dx, s) + 3.0 * dx
  {}

  /** The trapezoid rule is exact for 1 and x: h (f(a) + f(a+h)) / 2 = F(a+h) - F(a). */
  lemma TrapezoidRuleExact(a: real, h: real, k: nat)
    requires k <= 1
    ensures h * (1.0 / 2.0 * Power(a, k) + 1.0 / 2.0 * Power(a + h, k))
         == PowerIntegral(a + h, k) - PowerIntegral(a, k)
  {
    PowerOne(a);
    PowerOne(a + h);
    if k == 1 {
      PowerTwo(a);
      PowerTwo(a + h);
      assert (a + h) * (a + h) == a * a + 2.0 * a * h + h * h;
    }
  }

  /** Simpson's 1/3 panel is exact for x^1. */
  lemma SimpsonLinear(a: real, h: real)
    ensures h * (1.0 / 3.0 * Power(a, 1) + 4.0 / 3.0 * Power(a + h, 1) + 1.0 / 3.0 * Power(a + 2.0 * h, 1))
         == PowerIntegral(a + 2.0 * h, 1) - PowerIntegral(a, 1)
  {
    PowerOne(a);
    PowerOne(a + h);
    PowerOne(a + 2.0 * h);
    PowerTwo(a);
    PowerTwo(a + 2.0 * h);
    assert (a + 2.0 * h) * (a + 2.0 * h)
        == a * a + 4.0 * a * h + 4.0 * h * h;
  }

  /** Simpson's 1/3 panel is exact for x^2. */
  lemma SimpsonQuadratic(a: real, h: real)
    ensures h * (1.0 / 3.0 * Power(a, 2) + 4.0 / 3.0 * Power(a + h, 2) + 1.0 / 3.0 * Power(a + 2.0 * h, 2))
         == PowerIntegral(a + 2.0 * h, 2) - PowerIntegral(a, 2)
  {
    PowerTwo(a);
    PowerTwo(a + h);
    PowerTwo(a + 2.0 * h);
    PowerThree(a);
    PowerThree(a + 2.0 * h);
    assert (a + h) * (a + h) == a * a + 2.0 * a * h + h * h;
    assert (a + 2.0 * h) * (a + 2.0 * h) == a * a + 4.0 * a * h + 4.0 * h * h;
    assert (a + 2.0 * h) * (a + 2.0 * h) * (a + 2.0 * h)
        == a * a * a + 6.0 * a * a * h + 12.0 * a * h * h + 8.0 * h * h * h;
  }

  /** Simpson's 1/3 panel is exact for x^3. */
  lemma SimpsonCubic(a: real, h: real)
    ensures h * (1.0 / 3.0 * Power(a, 3) + 4.0 / 3.0 * Power(a + h, 3) + 1.0 / 3.0 * Power(a + 2.0 * h, 3))
         == PowerIntegral(a + 2.0 * h, 3) - PowerIntegral(a, 3)
  {
    SimpsonCubicNamed(a, h, Power(a, 3), Power(a + h, 3), Power(a + 2.0 * h, 3),
      PowerIntegral(a, 3), PowerIntegral(a + 2.0 * h, 3));
  }

  /** The cubic identity behind Simpson's 1/3 rule, on names for the cubes of the sample
      points and the antiderivatives at the ends. */
  lemma SimpsonCubicNamed(a: real, h: real, p0: real, p1: real, p2: real, i0: real, i2: real)
    requires p0 == Power(a, 3) && p1 == Power(a + h, 3) && p2 == Power(a + 2.0 * h, 3)
    requires i0 == PowerIntegral(a, 3) && i2 == PowerIntegral(a + 2.0 * h, 3)
    ensures h * (1.0 / 3.0 * p0 + 4.0 / 3.0 * p1 + 1.0 / 3.0 * p2) == i2 - i0
  {
    PowerThree(a);
    PowerThree(a + h);
    PowerThree(a + 2.0 * h);
    PowerFour(a);
    PowerFour(a + 2.0 * h);
    SimpsonCubicPolynomial(a, h, p0, p1, p2, i0, i2);
  }

  /** The cubic identity behind Simpson's 1/3 rule, multiplied out. */
  lemma SimpsonCubicPolynomial(a: real, h: real, p0: real, p1: real, p2: real, i0: real, i2: real)
    requires p0 == a * a * a && p1 == (a + h) * (a + h) * (a + h)
    requires p2 == (a + 2.0 * h) * (a + 2.0 * h) * (a + 2.0 * h)
    requires i0 == a * a * a * a / 4.0 && i2 == (a + 2.0 * h) * (a + 2.0 * h) * (a + 2.0 * h) * (a + 2.0 * h) / 4.0
    ensures h * (1.0 / 3.0 * p0 + 4.0 / 3.0 * p1 + 1.0 / 3.0 * p2) == i2 - i0
  {
    assert p1 == a * a * a + 3.0 * a * a * h + 3.0 * a * h * h + h * h * h;
    assert p2 == a * a * a + 6.0 * a * a * h + 12.0 * a * h * h + 8.0 * h * h * h;
    assert (a + 2.0 * h) * (a + 2.0 * h) * (a + 2.0 * h) * (a + 2.0 * h)
        == a * a * a * a + 8.0 * a * a * a * h + 24.0 * a * a * h * h + 32.0 * a * h * h * h + 16.0 * h * h * h * h;
  }

  /** Simpson's 1/3 rule is exact for 1, x, x^2 and x^3. */
  lemma SimpsonRuleExact(a: real, h: real, k: nat)
    requires k <= 3
    ensures h * (1.0 / 3.0 * Power(a, k) + 4.0 / 3.0 * Power(a + h, k) + 1.0 / 3.0 * Power(a + 2.0 * h, k))
         == PowerIntegral(a + 2.0 * h, k) - PowerIntegral(a, k)
  {
    if k == 0 {
      PowerOne(a);
      PowerOne(a + h);
      PowerOne(a + 2.0 * h);
    } else if k == 1 {
      SimpsonLinear(a, h);
    } else if k == 2 {
      SimpsonQuadratic(a, h);
    } else {
      SimpsonCubic(a, h);
    }
  }

  /** The 3/8 panel is exact for x^1. */
  lemma ThreeEighthsLinear(a: real, h: real)
    ensures h * (3.0 / 8.0 * Power(a, 1) + 9.0 / 8.0 * Power(a + h, 1) + 9.0 / 8.0 * Power(a + 2.0 * h, 1) + 3.0 / 8.0 * Power(a + 3.0 * h, 1))
         == PowerIntegral(a + 3.0 * h, 1) - PowerIntegral(a, 1)
  {
    PowerOne(a);
    PowerOne(a + h);
    PowerOne(a + 2.0 * h);
    PowerOne(a + 3.0 * h);
    PowerTwo(a);
    PowerTwo(a + 3.0 * h);
    assert (a + 3.0 * h) * (a + 3.0 * h)
        == a * a + 6.0 * a * h + 9.0 * h * h;
  }

  /** The 3/8 panel is exact for x^2. */
  lemma ThreeEighthsQuadratic(a: real, h: real)
    ensures h * (3.0 / 8.0 * Power(a, 2) + 9.0 / 8.0 * Power(a + h, 2) + 9.0 / 8.0 * Power(a + 2.0 * h, 2) + 3.0 / 8.0 * Power(a + 3.0 * h, 2))
         == PowerIntegral(a + 3.0 * h, 2) - PowerIntegral(a, 2)
  {
    PowerTwo(a);
    PowerTwo(a + h);
    PowerTwo(a + 2.0 * h);
    PowerTwo(a + 3.0 * h);
    PowerThree(a);
    PowerThree(a + 3.0 * h);
    assert (a + h) * (a + h) == a * a + 2.0 * a * h + h * h;
    assert (a + 2.0 * h) * (a + 2.0 * h) == a * a + 4.0 * a * h + 4.0 * h * h;
    assert (a + 3.0 * h) * (a + 3.0 * h) == a * a + 6.0 * a * h + 9.0 * h * h;
    assert (a + 3.0 * h) * (a + 3.0 * h) * (a + 3.0 * h)
        == a * a * a + 9.0 * a * a * h + 27.0 * a * h * h + 27.0 * h * h * h;
  }

  /** The 3/8 panel is exact for x^3. */
  lemma ThreeEighthsCubic(a: real, h: real)
    ensures h * (3.0 / 8.0 * Power(a, 3) + 9.0 / 8.0 * Power(a + h, 3) + 9.0 / 8.0 * Power(a + 2.0 * h, 3) + 3.0 / 8.0 * Power(a + 3.0 * h, 3))
         == PowerIntegral(a + 3.0 * h, 3) - PowerIntegral(a, 3)
  {
    ThreeEighthsCubicNamed(a, h, Power(a, 3), Power(a + h, 3), Power(a + 2.0 * h, 3), Power(a + 3.0 * h, 3),
      PowerIntegral(a, 3), PowerIntegral(a + 3.0 * h, 3));
  }

  /** The cubic identity behind the 3/8 rule, on names for the cubes of the sample points and
      the antiderivatives at the ends. */
  lemma ThreeEighthsCubicNamed(a: real, h: real, p0: real, p1: real, p2: real, p3: real, i0: real, i3: real)
    requires p0 == Power(a, 3) && p1 == Power(a + h, 3) && p2 == Power(a + 2.0 * h, 3) && p3 == Power(a + 3.0 * h, 3)
    requires i0 == PowerIntegral(a, 3) && i3 == PowerIntegral(a + 3.0 * h, 3)
    ensures h * (3.0 / 8.0 * p0 + 9.0 / 8.0 * p1 + 9.0 / 8.0 * p2 + 3.0 / 8.0 * p3) == i3 - i0
  {
    PowerThree(a);
    PowerThree(a + h);
    PowerThree(a + 2.0 * h);
    PowerThree(a + 3.0 * h);
    PowerFour(a);
    PowerFour(a + 3.0 * h);
    ThreeEighthsCubicPolynomial(a, h, p0, p1, p2, p3, i0, i3);
  }

  /** The cubic identity behind the 3/8 rule, multiplied out. */
  lemma ThreeEighthsCubicPolynomial(a: real, h: real, p0: real, p1: real, p2: real, p3: real, i0: real, i3: real)
    requires p0 == a * a * a && p1 == (a + h) * (a + h) * (a + h)
    requires p2 == (a + 2.0 * h) * (a + 2.0 * h) * (a + 2.0 * h) && p3 == (a + 3.0 * h) * (a + 3.0 * h) * (a + 3.0 * h)
    requires i0 == a * a * a * a / 4.0 && i3 == (a + 3.0 * h) * (a + 3.0 * h) * (a + 3.0 * h) * (a + 3.0 * h) / 4.0
    ensures h * (3.0 / 8.0 * p0 + 9.0 / 8.0 * p1 + 9.0 / 8.0 * p2 + 3.0 / 8.0 * p3) == i3 - i0
  {
    assert p1 == a * a * a + 3.0 * a * a * h + 3.0 * a * h * h + h * h * h;
    assert p2 == a * a * a + 6.0 * a * a * h + 12.0 * a * h * h + 8.0 * h * h * h;
    assert p3 == a * a * a + 9.0 * a * a * h + 27.0 * a * h * h + 27.0 * h * h * h;
    assert (a + 3.0 * h) * (a + 3.0 * h) * (a + 3.0 * h) * (a + 3.0 * h)
        == a * a * a * a + 12.0 * a * a * a * h + 54.0 * a * a * h * h + 108.0 * a * h * h * h + 81.0 * h * h * h * h;
  }

  /** Simpson's 3/8 rule is exact for 1, x, x^2 and x^3. */
  lemma ThreeEighthsRuleExact(a: real, h: real, k: nat)
    requires k <= 3
    ensures h * (3.0 / 8.0 * Power(a, k) + 9.0 / 8.0 * Power(a + h, k) + 9.0 / 8.0 * Power(a + 2.0 * h, k) + 3.0 / 8.0 * Power(a + 3.0 * h, k))
         == PowerIntegral(a + 3.0 * h, k) - PowerIntegral(a, k)
  {
    if k == 0 {
      PowerOne(a);
      PowerOne(a + h);
      PowerOne(a + 2.0 * h);
      PowerOne(a + 3.0 * h);
    } else if k == 1 {
      ThreeEighthsLinear(a, h);
    } else if k == 2 {
      ThreeEighthsQuadratic(a, h);
    } else {
      ThreeEighthsCubic(a, h);
    }
  }

  /** The degree up to which each basic rule integrates x^k exactly: 1 for the trapezoid
      rule, 3 for both Simpson rules. */
  predicate ExactFor(w: seq<real>, k: nat)
  {
    (w == Trapezoid && k <= 1) || ((w == Simpson || w == ThreeEighths) && k <= 3)
  }

  lemma TrapezoidPanelExact(y: seq<real>, s: nat, k: nat, x1: real, dx: real)
    requires s + 2 <= |y| && k <= 1
    requires SampledPower(y, k, x1, dx)
    ensures ExactOn(y, Panel(s, Trapezoid), x => PowerIntegral(x, k), x1, dx)
  {
    var a := Abscissa(x1, dx, s);
    var t := y[s .. s + 2];
    GridSteps(x1, dx, s);
    assert t[0] == y[s] && t[1] == y[s + 1];
    WeightedSumOfTwo(Trapezoid, t);
    TrapezoidRuleExact(a, dx, k);
    assert Times(dx, Apply(y, Panel(s, Trapezoid))) == dx * Apply(y, Panel(s, Trapezoid));
  }

  /** A Simpson panel weighs its three samples 1/3, 4/3, 1/3. */
  lemma SimpsonApplied(y: seq<real>, s: nat)
    requires s + 3 <= |y|
    ensures Apply(y, Panel(s, Simpson)) == 1.0 / 3.0 * y[s] + 4.0 / 3.0 * y[s + 1] + 1.0 / 3.0 * y[s + 2]
  {
    var t := y[s .. s + 3];
    assert t[0] == y[s] && t[1] == y[s + 1] && t[2] == y[s + 2];
    WeightedSumOfThree(Simpson, t);
  }

  /** A 3/8 panel weighs its four samples 3/8, 9/8, 9/8, 3/8. */
  lemma ThreeEighthsApplied(y: seq<real>, s: nat)
    requires s + 4 <= |y|
    ensures Apply(y, Panel(s, ThreeEighths))
         == 3.0 / 8.0 * y[s] + 9.0 / 8.0 * y[s + 1] + 9.0 / 8.0 * y[s + 2] + 3.0 / 8.0 * y[s + 3]
  {
    var t := y[s .. s + 4];
    assert t[0] == y[s] && t[1] == y[s + 1] && t[2] == y[s + 2] && t[3] == y[s + 3];
    WeightedSumOfFour(ThreeEighths, t);
  }

  /** Simpson's 1/3 rule on named samples of x^k at a, a + h, a + 2h. */
  lemma SimpsonOnSamples(a: real, h: real, k: nat, y0: real, y1: real, y2: real, v: real)
    requires k <= 3
    requires y0 == Power(a, k) && y1 == Power(a + h, k) && y2 == Power(a + 2.0 * h, k)
    requires v == 1.0 / 3.0 * y0 + 4.0 / 3.0 * y1 + 1.0 / 3.0 * y2
    ensures Times(h, v) == PowerIntegral(a + 2.0 * h, k) - PowerIntegral(a, k)
  {
    SimpsonRuleExact(a, h, k);
  }

  /** Simpson's 3/8 rule on named samples of x^k at a, a + h, a + 2h, a + 3h. */
  lemma ThreeEighthsOnSamples(a: real, h: real, k: nat, y0: real, y1: real, y2: real, y3: real, v: real)
    requires k <= 3
    requires y0 == Power(a, k) && y1 == Power(a + h, k) && y2 == Power(a + 2.0 * h, k) && y3 == Power(a + 3.0 * h, k)
    requires v == 3.0 / 8.0 * y0 + 9.0 / 8.0 * y1 + 9.0 / 8.0 * y2 + 3.0 / 8.0 * y3
    ensures Times(h, v) == PowerIntegral(a + 3.0 * h, k) - PowerIntegral(a, k)
  {
    ThreeEighthsRuleExact(a, h, k);
  }

  lemma SimpsonPanelExact(y: seq<real>, s: nat, k: nat, x1: real, dx: real)
    requires s + 3 <= |y| && k <= 3
    requires SampledPower(y, k, x1, dx)
    ensures ExactOn(y, Panel(s, Simpson), x => PowerIntegral(x, k), x1, dx)
  {
    var a := Abscissa(x1, dx, s);
    GridSteps(x1, dx, s);
    SimpsonApplied(y, s);
    SimpsonOnSamples(a, dx, k, y[s], y[s + 1], y[s + 2], Apply(y, Panel(s, Simpson)));
  }

  lemma ThreeEighthsPanelExact(y: seq<real>, s: nat, k: nat, x1: real, dx: real)
    requires s + 4 <= |y| && k <= 3
    requires SampledPower(y, k, x1, dx)
    ensures ExactOn(y, Panel(s, ThreeEighths), x => PowerIntegral(x, k), x1, dx)
  {
    var a := Abscissa(x1, dx, s);
    GridSteps(x1, dx, s);
    ThreeEighthsApplied(y, s);
    ThreeEighthsOnSamples(a, dx, k, y[s], y[s + 1], y[s + 2], y[s + 3], Apply(y, Panel(s, ThreeEighths)));
  }

  /** A panel of a basic rule over samples of x^k, k within the rule's degree, is exact. */
  lemma PanelExact(y: seq<real>, p: Panel, k: nat, x1: real, dx: real)
    requires Fits(|y|, p) && ExactFor(p.weights, k)
    requires SampledPower(y, k, x1, dx)
    ensures ExactOn(y, p, x => PowerIntegral(x, k), x1, dx)
  {
    if p.weights == Trapezoid {
      TrapezoidPanelExact(y, p.start, k, x1, dx);
    } else if p.weights == Simpson {
      SimpsonPanelExact(y, p.start, k, x1, dx);
    } else {
      ThreeEighthsPanelExact(y, p.start, k, x1, dx);
    }
  }

  /** A composite rule whose panels tile 0 .. e and are each exact for x^k integrates x^k
      exactly from x1 to x1 + e dx. */
  lemma CompositeExact(y: seq<real>, ps: seq<Panel>, e: nat, k: nat, x1: real, dx: real)
    requires Tiles(ps, e) && e < |y|
    requires forall j :: 0 <= j < |ps| ==> ExactFor(ps[j].weights, k)
    requires SampledPower(y, k, x1, dx)
    ensures AllFit(|y|, ps)
    ensures Times(dx, PanelSum(y, ps)) == PowerIntegral(Abscissa(x1, dx, e), k) - PowerIntegral(x1, k)
  {
    TilesFit(ps, e, |y|);
    forall j | 0 <= j < |ps|
      ensures ExactOn(y, ps[j], x => PowerIntegral(x, k), x1, dx)
    {
      PanelExact(y, ps[j], k, x1, dx);
    }
    Telescoping(y, ps, e, x => PowerIntegral(x, k), x1, dx);
  }

  /** Every panel of a uniform run carries the run's stencil. */
  lemma {:induction false} UniformWeights(w: seq<real>, count: nat, j: nat)
    requires |w| >= 2 && j < count
    ensures Uniform(w, count)[j].weights == w
  {
    if j < count - 1 {
      UniformWeights(w, count - 1, j);
    }
  }

  /** On constant unit samples a tiling of [0, e] by exact panels adds up to the span e. */
  lemma OnesPanelSum(n: nat, ps: seq<Panel>, e: nat)
    requires Tiles(ps, e) && e < n
    requires forall j :: 0 <= j < |ps| ==> ExactFor(ps[j].weights, 0)
    ensures AllFit(n, ps)
    ensures PanelSum(Constant(n, 1.0), ps) == e as real
  {
    TilesFit(ps, e, n);
    var ones := Constant(n, 1.0);
    forall i | 0 <= i < n
      ensures ones[i] == Power(Abscissa(0.0, 1.0, i), 0)
    {
    }
    CompositeExact(ones, ps, e, 0, 0.0, 1.0);
    var x := Abscissa(0.0, 1.0, e);
    PowerOne(x);
    PowerOne(0.0);
    assert PowerIntegral(x, 0) == x;
    assert PowerIntegral(0.0, 0) == 0.0;
  }
}
