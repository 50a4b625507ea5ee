/** Finite sums over sequences of reals: the model of numpy's `np.sum` and of the
    elementwise product `np.sum(c * y)` that every quadrature rule ends with. */
module RealSums {

  /** The sequence of `n` copies of `v`. */
  function Constant(n: nat, v: real): seq<real>
  {
    seq(n, _ => v)
  }

  /** `np.sum(s)`: the sum of all entries. */
  function Sum(s: seq<real>): real
  {
    if |s| == 0 then 0.0 else Sum(s[..|s| - 1]) + s[|s| - 1]
  }

  /** `np.sum(c * y)`: the sum of the elementwise products of two equally long sequences. */
  function WeightedSum(c: seq<real>, y: seq<real>): real
    requires |c| == |y|
  {
    if |c| == 0 then 0.0
    else WeightedSum(c[..|c| - 1], y[..|y| - 1]) + c[|c| - 1] * y[|y| - 1]
  }

  /** Every entry of `s` multiplied by `k`. */
  function Scale(k: real, s: seq<real>): seq<real>
  {
    seq(|s|, i requires 0 <= i < |s| => k * s[i])
  }

  /** The elementwise sum of two equally long sequences. */
  function Plus(a: seq<real>, b: seq<real>): seq<real>
    requires |a| == |b|
  {
    seq(|a|, i requires 0 <= i < |a| => a[i] + b[i])
  }

  /** A weighted sum over a concatenation splits into the weighted sums of the parts. */
  lemma {:induction false} WeightedSumAppend(a: seq<real>, b: seq<real>, y: seq<real>, z: seq<real>)
    requires |a| == |y| && |b| == |z|
    ensures WeightedSum(a + b, y + z) == WeightedSum(a, y) + WeightedSum(b, z)
  {
    if |b| == 0 {
      assert a + b == a && y + z == y;
    } else {
      var b', z' := b[..|b| - 1], z[..|z| - 1];
      assert (a + b)[..|a + b| - 1] == a + b' && (y + z)[..|y + z| - 1] == y + z';
      WeightedSumAppend(a, b', y, z');
    }
  }

  /** Weighing constant samples `v` gives `v` times the sum of the weights. */
  lemma {:induction false} WeightedSumConstant(c: seq<real>, v: real)
    ensures WeightedSum(c, Constant(|c|, v)) == v * Sum(c)
  {
    if |c| > 0 {
      assert Constant(|c|, v)[..|c| - 1] == Constant(|c| - 1, v);
      WeightedSumConstant(c[..|c| - 1], v);
    }
  }

  /** The sum of the weights is their weighted sum against samples that are all 1. */
  lemma SumIsWeightedSumOfOnes(c: seq<real>)
    ensures Sum(c) == WeightedSum(c, Constant(|c|, 1.0))
  {
    WeightedSumConstant(c, 1.0);
  }

  /** Scaling the weights scales the weighted sum. */
  lemma {:induction false} WeightedSumScale(k: real, c: seq<real>, y: seq<real>)
    requires |c| == |y|
    ensures WeightedSum(Scale(k, c), y) == k * WeightedSum(c, y)
  {
    if |c| > 0 {
      var c' := c[..|c| - 1];
      forall i | 0 <= i < |c'|
        ensures Scale(k, c)[..|c| - 1][i] == Scale(k, c')[i]
      {
        assert c'[i] == c[i];
      }
      assert Scale(k, c)[..|c| - 1] == Scale(k, c');
      WeightedSumScale(k, c[..|c| - 1], y[..|y| - 1]);
    }
  }

  /** Adding two weight vectors adds their weighted sums. */
  lemma {:induction false} WeightedSumPlus(a: seq<real>, b: seq<real>, y: seq<real>)
    requires |a| == |b| == |y|
    ensures WeightedSum(Plus(a, b), y) == WeightedSum(a, y) + WeightedSum(b, y)
  {
    if |a| > 0 {
      assert Plus(a, b)[..|a| - 1] == Plus(a[..|a| - 1], b[..|b| - 1]);
      WeightedSumPlus(a[..|a| - 1], b[..|b| - 1], y[..|y| - 1]);
    }
  }

  /** Zero weights give a zero sum. */
  lemma {:induction false} WeightedSumZeros(y: seq<real>)
    ensures WeightedSum(Constant(|y|, 0.0), y) == 0.0
  {
    if |y| > 0 {
      assert Constant(|y|, 0.0)[..|y| - 1] == Constant(|y| - 1, 0.0);
      WeightedSumZeros(y[..|y| - 1]);
    }
  }

  /** The product d a as a function of its two factors, for stating results about a product of
      two quantities that are themselves computed: equal factors then give equal products by
      substitution alone. */
  function Times(d: real, a: real): real
  {
    d * a
  }
}
