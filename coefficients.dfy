/** The coefficient tables of `simpson_integral` (example/simpson.py): how modes 2 and 3 build
    them, entry by entry what they are, and which composite rule each one is. */
module Coefficients {
  import opened RealSums
  import opened Outcome
  import opened Panels

  /** `(-1)**i`. */
  function MinusOnePower(i: nat): (r: real)
    ensures r == if i % 2 == 0 then 1.0 else -1.0
  {
    if i == 0 then 1.0 else -MinusOnePower(i - 1)
  }

  /** The weights the mode 1 loop gives the samples: 1, 2, ..., 2, 1 (each interior sample
      belongs to two intervals). */
  function TrapezoidWeights(n: nat): (r: seq<real>)
    ensures |r| == n
  {
    seq(n, i => if i == 0 || i == n - 1 then 1.0 else 2.0)
  }

  /** Mode 2, n >= 3, entry `i`: 1 at index 0; at an odd n, 1 at the last index; at an even n,
      2.5 and 1.5 at the last two; elsewhere 2 at even and 4 at odd indices. */
  function Simpson13Entry(n: nat, i: nat): real
    requires 3 <= n && i < n
  {
    if i == 0 then 1.0
    else if n % 2 == 1 && i == n - 1 then 1.0
    else if n % 2 == 0 && i == n - 2 then 2.5
    else if n % 2 == 0 && i == n - 1 then 1.5
    else if i % 2 == 0 then 2.0
    else 4.0
  }

  /** The mode 2 coefficients for `n` samples. */
  function Simpson13Table(n: nat): (r: seq<real>)
    requires n >= 1
    ensures |r| == n
  {
    if n == 1 then [3.0]
    else if n == 2 then [1.5, 1.5]
    else seq(n, i requires 0 <= i < n => Simpson13Entry(n, i))
  }

  /** The repeating unit of mode 3. */
  const Unit: seq<real> := [2.0, 3.0, 3.0]

  /** The entries mode 3 appends after its tiled prefix, by `n % 3`. */
  function Tail38(r: nat): seq<real>
    requires r < 3
  {
    if r == 1 then [1.0]
    else if r == 2 then [7.0 / 3.0, 4.0 / 3.0]
    else [17.0 / 9.0, 32.0 / 9.0, 8.0 / 9.0]
  }

  /** The length 3 ((n-1) div 3) of the tiled prefix of mode 3. */
  function Prefix38(n: nat): nat
    requires n >= 1
  {
    3 * ((n - 1) / 3)
  }

  /** Mode 3, n >= 4, entry `i`: in the prefix, 1 at index 0, 2 at the other multiples of 3, 3
      elsewhere; after it, the tail for n % 3. */
  function Simpson38Entry(n: nat, i: nat): real
    requires 4 <= n && i < n
  {
    var m := Prefix38(n);
    if i == 0 then 1.0
    else if i < m then (if i % 3 == 0 then 2.0 else 3.0)
    else Tail38(n % 3)[i - m]
  }

  /** The mode 3 coefficients for `n` samples. */
  function Simpson38Table(n: nat): (r: seq<real>)
    requires n >= 1
    ensures |r| == n
  {
    if n == 1 then [8.0 / 3.0]
    else if n == 2 then [4.0 / 3.0, 4.0 / 3.0]
    else if n == 3 then [8.0 / 9.0, 32.0 / 9.0, 8.0 / 9.0]
    else seq(n, i requires 0 <= i < n => Simpson38Entry(n, i))
  }

  /** Python's `unit * k`: `k` copies of `u`, one after another. */
  function Repeat(u: seq<real>, k: nat): (r: seq<real>)
    ensures |r| == k * |u|
    ensures |u| > 0 ==> forall i :: 0 <= i < |r| ==> r[i] == u[i % |u|]
  {
    if k == 0 then []
    else
      RepeatAppend(Repeat(u, k - 1), u, k - 1);
      Repeat(u, k - 1) + u
  }

  /** Appending one more copy of `u` to `q` copies keeps entry i equal to u[i mod |u|]. */
  lemma RepeatAppend(p: seq<real>, u: seq<real>, q: nat)
    requires |p| == q * |u|
    requires |u| > 0 ==> forall i :: 0 <= i < |p| ==> p[i] == u[i % |u|]
    ensures |p + u| == (q + 1) * |u|
    ensures |u| > 0 ==> forall i :: 0 <= i < |p + u| ==> (p + u)[i] == u[i % |u|]
  {
    if |u| > 0 {
      forall i | |p| <= i < |p + u|
        ensures (p + u)[i] == u[i % |u|]
      {
        ModUnique(i, q, i - |p|, |u|);
      }
    }
  }

  /** A positive multiple of m is at least m. */
  lemma MultipleAtLeast(p: int, m: int)
    requires p >= 1 && m > 0
    ensures p * m >= m
  {
    assert p * m == (p - 1) * m + m;
  }

  /** The only multiple of m strictly between -m and m is 0 m. */
  lemma SmallMultiple(p: int, m: int)
    requires m > 0 && -m < p * m < m
    ensures p == 0
  {
    if p >= 1 {
      MultipleAtLeast(p, m);
      assert false;
    } else if p <= -1 {
      MultipleAtLeast(-p, m);
      assert false;
    }
  }

  /** The remainder of a m + r, for 0 <= r < m, is r. */
  lemma ModUnique(x: int, a: int, r: int, m: int)
    requires m > 0 && 0 <= r < m && x == a * m + r
    ensures x % m == r
  {
    var d := x / m;
    assert (a - d) * m == x % m - r;
    SmallMultiple(a - d, m);
  }

  /** Builds the mode 2 coefficient list as lines 16-27 do: the pattern 3 - (-1)^i, then the
      first and last entries overwritten by parity; n = 0 raises. */
  method Simpson13Coefficients(n: nat) returns (r: Result<seq<real>>)
    ensures n == 0 ==> r == Err(NotImplementedError)
    ensures n >= 1 ==> r == Ok(Simpson13Table(n))
    ensures r.Ok? ==> |r.value| == n
  {
    if n >= 3 {
      var coeff := new real[n](i requires 0 <= i => 3.0 - MinusOnePower(i));
      if n % 2 == 1 {
        coeff[0], coeff[n - 1] := 1.0, 1.0;
      } else {
        coeff[0], coeff[n - 2], coeff[n - 1] := 1.0, 2.5, 1.5;
      }
      forall i | 0 <= i < n
        ensures coeff[i] == Simpson13Entry(n, i)
      {
        if 0 < i && i < n - 2 {
          assert coeff[i] == 3.0 - MinusOnePower(i);
        }
      }
      assert coeff[..] == Simpson13Table(n);
      r := Ok(coeff[..]);
    } else if n == 2 {
      r := Ok([1.5, 1.5]);
    } else if n == 1 {
      r := Ok([3.0]);
    } else {
      r := Err(NotImplementedError);
    }
  }

  /** Builds the mode 3 coefficient list as lines 31-48 do: `[2,3,3]` repeated (n-1) div 3
      times, its first entry set to 1, then a tail chosen by n % 3; n = 0 raises. */
  method Simpson38Coefficients(n: nat) returns (r: Result<seq<real>>)
    ensures n == 0 ==> r == Err(NotImplementedError)
    ensures n >= 1 ==> r == Ok(Simpson38Table(n))
    ensures r.Ok? ==> |r.value| == n
  {
    if n >= 4 {
      var k := (n - 1) / 3;
      var coeff := Repeat(Unit, k);
      coeff := coeff[0 := 1.0];
      if n % 3 == 1 {
        coeff := coeff + [1.0];
      } else if n % 3 == 2 {
        coeff := coeff + [7.0 / 3.0, 4.0 / 3.0];
      } else {
        coeff := coeff + [17.0 / 9.0, 32.0 / 9.0, 8.0 / 9.0];
      }
      assert |coeff| == n;
      forall i | 0 <= i < n
        ensures coeff[i] == Simpson38Entry(n, i)
      {
      }
      assert coeff == Simpson38Table(n);
      r := Ok(coeff);
    } else if n == 1 {
      r := Ok([8.0 / 3.0]);
    } else if n == 2 {
      r := Ok([4.0 / 3.0, 4.0 / 3.0]);
    } else if n == 3 {
      r := Ok([8.0 / 9.0, 32.0 / 9.0, 8.0 / 9.0]);
    } else {
      r := Err(NotImplementedError);
    }
  }

  // Each table is a composite rule: scaled by the factor the mode applies after the weighted
  // sum, it is the superposition of basic-rule panels that tile the samples.

  /** Mode 1: one trapezoid panel per interval. */
  function TrapezoidPanels(n: nat): seq<Panel>
    requires n >= 2
  {
    Uniform(Trapezoid, n - 1)
  }

  /** Mode 2: Simpson panels over pairs of intervals; at an even n the last interval is left
      over and gets a trapezoid panel. */
  function Simpson13Panels(n: nat): seq<Panel>
    requires n >= 2
  {
    if n % 2 == 1 then Uniform(Simpson, (n - 1) / 2)
    else Uniform(Simpson, (n - 2) / 2) + [Panel(n - 2, Trapezoid)]
  }

  /** Mode 3: 3/8 panels over triples of intervals; one left-over interval gets a trapezoid
      panel, two get a Simpson 1/3 panel. */
  function Simpson38Panels(n: nat): seq<Panel>
    requires n >= 2
  {
    if n % 3 == 1 then Uniform(ThreeEighths, (n - 1) / 3)
    else if n % 3 == 2 then Uniform(ThreeEighths, (n - 2) / 3) + [Panel(n - 2, Trapezoid)]
    else Uniform(ThreeEighths, (n - 3) / 3) + [Panel(n - 3, Simpson)]
  }

  /** The mode 1 weights, halved, are the composite trapezoid rule. */
  lemma TrapezoidWeightsArePanels(n: nat)
    requires n >= 2
    ensures Tiles(TrapezoidPanels(n), n - 1) && AllFit(n, TrapezoidPanels(n))
    ensures Scale(1.0 / 2.0, TrapezoidWeights(n)) == Superpose(n, TrapezoidPanels(n))
  {
    UniformTiles(Trapezoid, n - 1);
    TilesFit(TrapezoidPanels(n), n - 1, n);
    forall i | 0 <= i < n
      ensures Scale(1.0 / 2.0, TrapezoidWeights(n))[i] == Superpose(n, TrapezoidPanels(n))[i]
    {
      UniformTrapezoidAt(n, n - 1, i);
    }
  }

  lemma Simpson13PanelsTile(n: nat)
    requires n >= 2
    ensures Tiles(Simpson13Panels(n), n - 1) && AllFit(n, Simpson13Panels(n))
  {
    if n % 2 == 1 {
      UniformTiles(Simpson, (n - 1) / 2);
    } else {
      UniformTiles(Simpson, (n - 2) / 2);
      TilesExtend(Uniform(Simpson, (n - 2) / 2), n - 2, Trapezoid);
    }
    TilesFit(Simpson13Panels(n), n - 1, n);
  }

  /** Mode 2 at an odd n, entry `i` times 1/3: the weight of the (n - 1) / 2 Simpson panels. */
  lemma Simpson13OddAt(n: nat, i: nat)
    requires n >= 3 && n % 2 == 1 && i < n
    ensures AllFit(n, Simpson13Panels(n))
    ensures 1.0 / 3.0 * Simpson13Table(n)[i] == Superpose(n, Simpson13Panels(n))[i]
  {
    var c := (n - 1) / 2;
    assert 2 * c == n - 1;
    assert Simpson13Panels(n) == Uniform(Simpson, c);
    assert Simpson13Table(n)[i] == Simpson13Entry(n, i);
    UniformSimpsonAt(n, c, i);
  }

  /** At an even n, mode 2's rule is its Simpson run plus 1/2, 1/2 over the last interval. */
  lemma Simpson13EvenSnoc(n: nat, i: nat)
    requires n >= 2 && n % 2 == 0 && i < n
    ensures AllFit(n, Simpson13Panels(n)) && AllFit(n, Uniform(Simpson, (n - 2) / 2))
    ensures Superpose(n, Simpson13Panels(n))[i]
         == Superpose(n, Uniform(Simpson, (n - 2) / 2))[i] + (if i >= n - 2 then 1.0 / 2.0 else 0.0)
  {
    var front, last := Uniform(Simpson, (n - 2) / 2), Panel(n - 2, Trapezoid);
    Simpson13PanelsTile(n);
    assert Simpson13Panels(n) == front + [last];
    SuperposeSnoc(n, front, last, i);
    assert Place(n, last)[i] == if i >= n - 2 then 1.0 / 2.0 else 0.0;
  }

  /** At an even n, the weight mode 2's rule gives sample `i`: the Simpson pattern up to
      n - 2, then 5/6 and 1/2 (or, at n = 2, 1/2 and 1/2). */
  lemma Simpson13EvenWeight(n: nat, i: nat)
    requires n >= 2 && n % 2 == 0 && i < n
    ensures AllFit(n, Simpson13Panels(n))
    ensures Superpose(n, Simpson13Panels(n))[i] ==
      if i < n - 2 then (if i == 0 then 1.0 / 3.0 else if i % 2 == 1 then 4.0 / 3.0 else 2.0 / 3.0)
      else if i == n - 2 then (if n == 2 then 1.0 / 2.0 else 5.0 / 6.0)
      else 1.0 / 2.0
  {
    var c := (n - 2) / 2;
    assert 2 * c == n - 2;
    Simpson13EvenSnoc(n, i);
    UniformSimpsonAt(n, c, i);
  }

  /** Mode 2 at an even n, entry `i` times 1/3: the Simpson pattern up to n - 2, then 2.5 and
      1.5 (or, at n = 2, the table 1.5, 1.5). */
  lemma Simpson13EvenEntry(n: nat, i: nat)
    requires n >= 2 && n % 2 == 0 && i < n
    ensures 1.0 / 3.0 * Simpson13Table(n)[i] ==
      if i < n - 2 then (if i == 0 then 1.0 / 3.0 else if i % 2 == 1 then 4.0 / 3.0 else 2.0 / 3.0)
      else if i == n - 2 then (if n == 2 then 1.0 / 2.0 else 5.0 / 6.0)
      else 1.0 / 2.0
  {
    if n > 2 {
      assert Simpson13Table(n)[i] == Simpson13Entry(n, i);
    }
  }

  lemma Simpson13EvenAt(n: nat, i: nat)
    requires n >= 2 && n % 2 == 0 && i < n
    ensures AllFit(n, Simpson13Panels(n))
    ensures 1.0 / 3.0 * Simpson13Table(n)[i] == Superpose(n, Simpson13Panels(n))[i]
  {
    Simpson13EvenWeight(n, i);
    Simpson13EvenEntry(n, i);
  }

  /** The mode 2 table times 2/6 is composite Simpson 1/3, with a trapezoid panel over the
      last interval when n is even (for n = 2 that panel alone). */
  lemma Simpson13TableIsPanels(n: nat)
    requires n >= 2
    ensures Tiles(Simpson13Panels(n), n - 1) && AllFit(n, Simpson13Panels(n))
    ensures Scale(1.0 / 3.0, Simpson13Table(n)) == Superpose(n, Simpson13Panels(n))
  {
    Simpson13PanelsTile(n);
    var table, panels := Simpson13Table(n), Simpson13Panels(n);
    var lhs, rhs := Scale(1.0 / 3.0, table), Superpose(n, panels);
    assert |table| == n;
    forall i | 0 <= i < n
      ensures lhs[i] == rhs[i]
    {
      assert lhs[i] == 1.0 / 3.0 * table[i];
      if n % 2 == 1 {
        Simpson13OddAt(n, i);
      } else {
        Simpson13EvenAt(n, i);
      }
    }
    assert lhs == rhs;
  }

  /** A uniform run of `c` stencils `w` followed by one panel `v` where the run ends covers
      the samples 0 .. n - 1. */
  lemma UniformThenTiles(w: seq<real>, c: nat, v: seq<real>, n: nat)
    requires |w| >= 2 && |v| >= 2 && c * (|w| - 1) + |v| == n
    ensures Tiles(Uniform(w, c) + [Panel(c * (|w| - 1), v)], n - 1)
    ensures AllFit(n, Uniform(w, c) + [Panel(c * (|w| - 1), v)])
  {
    UniformTiles(w, c);
    TilesExtend(Uniform(w, c), c * (|w| - 1), v);
    TilesFit(Uniform(w, c) + [Panel(c * (|w| - 1), v)], n - 1, n);
  }

  lemma Simpson38PanelsTile(n: nat)
    requires n >= 2
    ensures Tiles(Simpson38Panels(n), n - 1) && AllFit(n, Simpson38Panels(n))
  {
    if n % 3 == 1 {
      Simpson38WholeTiles(n);
    } else if n % 3 == 2 {
      Simpson38TrapezoidEndTiles(n);
    } else {
      Simpson38SimpsonEndTiles(n);
    }
  }

  lemma Simpson38WholeTiles(n: nat)
    requires n >= 2 && n % 3 == 1
    ensures Tiles(Simpson38Panels(n), n - 1) && AllFit(n, Simpson38Panels(n))
  {
    var c := (n - 1) / 3;
    assert |ThreeEighths| == 4 && 3 * c == n - 1;
    UniformTiles(ThreeEighths, c);
    TilesFit(Uniform(ThreeEighths, c), n - 1, n);
  }

  lemma Simpson38TrapezoidEndTiles(n: nat)
    requires n >= 2 && n % 3 == 2
    ensures Tiles(Simpson38Panels(n), n - 1) && AllFit(n, Simpson38Panels(n))
  {
    var c := (n - 2) / 3;
    assert |ThreeEighths| == 4 && |Trapezoid| == 2 && 3 * c == n - 2;
    UniformThenTiles(ThreeEighths, c, Trapezoid, n);
  }

  lemma Simpson38SimpsonEndTiles(n: nat)
    requires n >= 3 && n % 3 == 0
    ensures Tiles(Simpson38Panels(n), n - 1) && AllFit(n, Simpson38Panels(n))
  {
    var c := (n - 3) / 3;
    assert |ThreeEighths| == 4 && |Simpson| == 3 && 3 * c == n - 3;
    UniformThenTiles(ThreeEighths, c, Simpson, n);
  }

  lemma Simpson38WholeAt(n: nat, i: nat)
    requires n >= 4 && n % 3 == 1 && i < n
    ensures AllFit(n, Simpson38Panels(n))
    ensures 3.0 / 8.0 * Simpson38Table(n)[i] == Superpose(n, Simpson38Panels(n))[i]
  {
    var c := (n - 1) / 3;
    assert 3 * c == n - 1 && Prefix38(n) == n - 1;
    assert Simpson38Table(n)[i] == Simpson38Entry(n, i);
    UniformThreeEighthsAt(n, c, i);
  }

  /** Mode 3 at n % 3 == 2, entry `i` times 3/8: the 3/8 pattern up to n - 2, then the tail
      7/3, 4/3 (or, at n = 2, the table 4/3, 4/3). */
  lemma Simpson38TrapezoidEndEntry(n: nat, i: nat)
    requires n >= 2 && n % 3 == 2 && i < n
    ensures 3.0 / 8.0 * Simpson38Table(n)[i] ==
      if i < n - 2 then (if i == 0 then 3.0 / 8.0 else if i % 3 == 0 then 3.0 / 4.0 else 9.0 / 8.0)
      else if i == n - 2 then (if n == 2 then 1.0 / 2.0 else 7.0 / 8.0)
      else 1.0 / 2.0
  {
    if n > 2 {
      assert Prefix38(n) == n - 2;
      assert Simpson38Table(n)[i] == Simpson38Entry(n, i);
    }
  }

  /** Mode 3 at n % 3 == 0, entry `i` times 3/8: the 3/8 pattern up to n - 3, then the tail
      17/9, 32/9, 8/9 (or, at n = 3, the table 8/9, 32/9, 8/9). */
  lemma Simpson38SimpsonEndEntry(n: nat, i: nat)
    requires n >= 3 && n % 3 == 0 && i < n
    ensures 3.0 / 8.0 * Simpson38Table(n)[i] ==
      if i < n - 3 then (if i == 0 then 3.0 / 8.0 else if i % 3 == 0 then 3.0 / 4.0 else 9.0 / 8.0)
      else if i == n - 3 then (if n == 3 then 1.0 / 3.0 else 17.0 / 24.0)
      else if i == n - 2 then 4.0 / 3.0
      else 1.0 / 3.0
  {
    if n > 3 {
      assert Prefix38(n) == n - 3;
      assert Simpson38Table(n)[i] == Simpson38Entry(n, i);
      if i >= n - 3 {
        assert Simpson38Entry(n, i) == Tail38(0)[i - (n - 3)];
      }
    }
  }

  /** At n % 3 == 2, mode 3's rule is its 3/8 run plus 1/2, 1/2 over the last interval. */
  lemma Simpson38TrapezoidEndSnoc(n: nat, i: nat)
    requires n >= 2 && n % 3 == 2 && i < n
    ensures AllFit(n, Simpson38Panels(n)) && AllFit(n, Uniform(ThreeEighths, (n - 2) / 3))
    ensures Superpose(n, Simpson38Panels(n))[i]
         == Superpose(n, Uniform(ThreeEighths, (n - 2) / 3))[i] + (if i >= n - 2 then 1.0 / 2.0 else 0.0)
  {
    var front, last := Uniform(ThreeEighths, (n - 2) / 3), Panel(n - 2, Trapezoid);
    Simpson38PanelsTile(n);
    assert Simpson38Panels(n) == front + [last];
    SuperposeSnoc(n, front, last, i);
    assert Place(n, last)[i] == if i >= n - 2 then 1.0 / 2.0 else 0.0;
  }

  /** At n % 3 == 0, mode 3's rule is its 3/8 run plus 1/3, 4/3, 1/3 over the last two
      intervals. */
  lemma Simpson38SimpsonEndSnoc(n: nat, i: nat)
    requires n >= 3 && n % 3 == 0 && i < n
    ensures AllFit(n, Simpson38Panels(n)) && AllFit(n, Uniform(ThreeEighths, (n - 3) / 3))
    ensures Superpose(n, Simpson38Panels(n))[i]
         == Superpose(n, Uniform(ThreeEighths, (n - 3) / 3))[i]
            + (if i == n - 3 || i == n - 1 then 1.0 / 3.0 else if i == n - 2 then 4.0 / 3.0 else 0.0)
  {
    var front, last := Uniform(ThreeEighths, (n - 3) / 3), Panel(n - 3, Simpson);
    Simpson38PanelsTile(n);
    assert Simpson38Panels(n) == front + [last];
    SuperposeSnoc(n, front, last, i);
    assert Place(n, last)[i] ==
      if i == n - 3 || i == n - 1 then 1.0 / 3.0 else if i == n - 2 then 4.0 / 3.0 else 0.0;
  }

  /** At n % 3 == 2, the weight mode 3's rule gives sample `i`: the 3/8 pattern up to n - 2,
      then 7/8 and 1/2 (or, at n = 2, 1/2 and 1/2). */
  lemma Simpson38TrapezoidEndWeight(n: nat, i: nat)
    requires n >= 2 && n % 3 == 2 && i < n
    ensures AllFit(n, Simpson38Panels(n))
    ensures Superpose(n, Simpson38Panels(n))[i] ==
      if i < n - 2 then (if i == 0 then 3.0 / 8.0 else if i % 3 == 0 then 3.0 / 4.0 else 9.0 / 8.0)
      else if i == n - 2 then (if n == 2 then 1.0 / 2.0 else 7.0 / 8.0)
      else 1.0 / 2.0
  {
    var c := (n - 2) / 3;
    assert 3 * c == n - 2;
    Simpson38TrapezoidEndSnoc(n, i);
    UniformThreeEighthsAt(n, c, i);
  }

  /** At n % 3 == 0, the weight mode 3's rule gives sample `i`: the 3/8 pattern up to n - 3,
      then 17/24, 4/3 and 1/3 (or, at n = 3, 1/3, 4/3 and 1/3). */
  lemma Simpson38SimpsonEndWeight(n: nat, i: nat)
    requires n >= 3 && n % 3 == 0 && i < n
    ensures AllFit(n, Simpson38Panels(n))
    ensures Superpose(n, Simpson38Panels(n))[i] ==
      if i < n - 3 then (if i == 0 then 3.0 / 8.0 else if i % 3 == 0 then 3.0 / 4.0 else 9.0 / 8.0)
      else if i == n - 3 then (if n == 3 then 1.0 / 3.0 else 17.0 / 24.0)
      else if i == n - 2 then 4.0 / 3.0
      else 1.0 / 3.0
  {
    var c := (n - 3) / 3;
    assert 3 * c == n - 3;
    Simpson38SimpsonEndSnoc(n, i);
    UniformThreeEighthsAt(n, c, i);
  }

  lemma Simpson38TrapezoidEndAt(n: nat, i: nat)
    requires n >= 2 && n % 3 == 2 && i < n
    ensures AllFit(n, Simpson38Panels(n))
    ensures 3.0 / 8.0 * Simpson38Table(n)[i] == Superpose(n, Simpson38Panels(n))[i]
  {
    Simpson38TrapezoidEndWeight(n, i);
    Simpson38TrapezoidEndEntry(n, i);
  }

  lemma Simpson38SimpsonEndAt(n: nat, i: nat)
    requires n >= 3 && n % 3 == 0 && i < n
    ensures AllFit(n, Simpson38Panels(n))
    ensures 3.0 / 8.0 * Simpson38Table(n)[i] == Superpose(n, Simpson38Panels(n))[i]
  {
    Simpson38SimpsonEndWeight(n, i);
    Simpson38SimpsonEndEntry(n, i);
  }

  /** The mode 3 table times 3/8 is composite Simpson 3/8, with a trapezoid panel over one
      left-over interval or a Simpson 1/3 panel over two; the explicit tables for n = 2 and
      n = 3 are these end panels alone. */
  lemma Simpson38TableIsPanels(n: nat)
    requires n >= 2
    ensures Tiles(Simpson38Panels(n), n - 1) && AllFit(n, Simpson38Panels(n))
    ensures Scale(3.0 / 8.0, Simpson38Table(n)) == Superpose(n, Simpson38Panels(n))
  {
    Simpson38PanelsTile(n);
    var table, panels := Simpson38Table(n), Simpson38Panels(n);
    var lhs, rhs := Scale(3.0 / 8.0, table), Superpose(n, panels);
    assert |table| == n;
    forall i | 0 <= i < n
      ensures lhs[i] == rhs[i]
    {
      assert lhs[i] == 3.0 / 8.0 * table[i];
      if n % 3 == 1 {
        Simpson38WholeAt(n, i);
      } else if n % 3 == 2 {
        Simpson38TrapezoidEndAt(n, i);
      } else {
        Simpson38SimpsonEndAt(n, i);
      }
    }
    assert lhs == rhs;
  }

  /** Every panel of mode 1's rule is a trapezoid panel. */
  lemma TrapezoidPanelsExactFor(n: nat, k: nat)
    requires n >= 2 && k <= 1
    ensures forall j :: 0 <= j < |TrapezoidPanels(n)| ==> ExactFor(TrapezoidPanels(n)[j].weights, k)
  {
    forall j | 0 <= j < n - 1
      ensures ExactFor(TrapezoidPanels(n)[j].weights, k)
    {
      UniformWeights(Trapezoid, n - 1, j);
    }
  }

  /** Mode 2's panels are all Simpson panels at an odd n; at an even n the last is a
      trapezoid panel. */
  lemma Simpson13PanelsExactFor(n: nat, k: nat)
    requires n >= 2 && k <= (if n % 2 == 1 then 3 else 1)
    ensures forall j :: 0 <= j < |Simpson13Panels(n)| ==> ExactFor(Simpson13Panels(n)[j].weights, k)
  {
    var c := if n % 2 == 1 then (n - 1) / 2 else (n - 2) / 2;
    forall j | 0 <= j < |Simpson13Panels(n)|
      ensures ExactFor(Simpson13Panels(n)[j].weights, k)
    {
      if j < c {
        UniformWeights(Simpson, c, j);
        assert Simpson13Panels(n)[j] == Uniform(Simpson, c)[j];
      }
    }
  }

  /** Mode 3's panels are 3/8 panels and at most one end panel: a trapezoid panel when
      n % 3 == 2, a Simpson 1/3 panel when n % 3 == 0. */
  lemma Simpson38PanelsExactFor(n: nat, k: nat)
    requires n >= 2 && k <= (if n % 3 != 2 then 3 else 1)
    ensures forall j :: 0 <= j < |Simpson38Panels(n)| ==> ExactFor(Simpson38Panels(n)[j].weights, k)
  {
    var c := if n % 3 == 1 then (n - 1) / 3 else if n % 3 == 2 then (n - 2) / 3 else (n - 3) / 3;
    forall j | 0 <= j < |Simpson38Panels(n)|
      ensures ExactFor(Simpson38Panels(n)[j].weights, k)
    {
      if j < c {
        UniformWeights(ThreeEighths, c, j);
        assert Simpson38Panels(n)[j] == Uniform(ThreeEighths, c)[j];
      }
    }
  }

  /** Weights that, scaled by `k`, form a composite rule over all |w| samples sum to
      (|w| - 1) / k: the rule integrates the constant 1 over |w| - 1 steps of length 1. */
  lemma CompositeSum(w: seq<real>, k: real, ps: seq<Panel>)
    requires |w| >= 2
    requires Tiles(ps, |w| - 1) && AllFit(|w|, ps)
    requires Scale(k, w) == Superpose(|w|, ps)
    requires forall j :: 0 <= j < |ps| ==> ExactFor(ps[j].weights, 0)
    ensures k * Sum(w) == (|w| - 1) as real
  {
    var n := |w|;
    var ones := Constant(n, 1.0);
    assert WeightedSum(Scale(k, w), ones) == (n - 1) as real by {
      SuperposeApplied(ones, ps);
      OnesPanelSum(n, ps, n - 1);
    }
    ScaledSum(w, k, ones);
  }

  /** Summing scaled entries is scaling the sum. */
  lemma ScaledSum(w: seq<real>, k: real, ones: seq<real>)
    requires ones == Constant(|w|, 1.0)
    ensures WeightedSum(Scale(k, w), ones) == k * Sum(w)
  {
    SumIsWeightedSumOfOnes(w);
    WeightedSumScale(k, w, ones);
  }

  /** The mode 1 weights sum to 2 (n - 1). */
  lemma TrapezoidWeightsSum(n: nat)
    requires n >= 2
    ensures Sum(TrapezoidWeights(n)) == 2.0 * ((n - 1) as real)
  {
    TrapezoidWeightsArePanels(n);
    TrapezoidPanelsExactFor(n, 0);
    CompositeSum(TrapezoidWeights(n), 1.0 / 2.0, TrapezoidPanels(n));
  }

  /** The mode 2 coefficients sum to 3 (n - 1), including the table [1.5, 1.5] for n = 2. */
  lemma Simpson13TableSum(n: nat)
    requires n >= 2
    ensures Sum(Simpson13Table(n)) == 3.0 * ((n - 1) as real)
  {
    Simpson13TableIsPanels(n);
    Simpson13PanelsExactFor(n, 0);
    CompositeSum(Simpson13Table(n), 1.0 / 3.0, Simpson13Panels(n));
  }

  /** The mode 3 coefficients sum to 8 (n - 1) / 3, for the three remainder tails and for the
      explicit tables for n = 2 and n = 3. */
  lemma Simpson38TableSum(n: nat)
    requires n >= 2
    ensures Sum(Simpson38Table(n)) == 8.0 * ((n - 1) as real) / 3.0
  {
    Simpson38TableIsPanels(n);
    Simpson38PanelsExactFor(n, 0);
    CompositeSum(Simpson38Table(n), 3.0 / 8.0, Simpson38Panels(n));
  }
}
