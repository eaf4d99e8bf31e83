/**
 * Lab_6/NumericIntegration_GUI.py: the midpoint-rectangle rule, the 5- and
 * 7-point Gauss–Legendre rules and their node/weight table.  The integrand
 * is an abstract total function on the reals and arithmetic is exact.
 */
module Quadrature {
  import opened Wrappers
  import opened RealOps

  // ---------------------------------------------------------------------
  // GAUSS_TABLE
  // ---------------------------------------------------------------------

  /** Nodes `t` on [-1, 1] and their weights `w`. */
  datatype Rule = Rule(t: seq<real>, w: seq<real>)

  const Gauss5: Rule := Rule(
    [-0.9061798459, -0.5384693101, 0.0, 0.5384693101, 0.9061798459],
    [0.2369268850, 0.4786286705, 0.5688888889, 0.4786286705, 0.2369268850])

  const Gauss7: Rule := Rule(
    [-0.9491079123, -0.7415311856, -0.4058451514, 0.0, 0.4058451514, 0.7415311856, 0.9491079123],
    [0.1294849662, 0.2797053915, 0.3818300505, 0.4179591837, 0.3818300505, 0.2797053915, 0.1294849662])

  /** `GAUSS_TABLE[m]`: only the keys 5 and 7 are present. */
  function GaussTable(m: int): (r: Option<Rule>)
    ensures r.Some? <==> m == 5 || m == 7
    ensures r.Some? ==> |r.value.t| == m && |r.value.w| == m
  {
    if m == 5 then Some(Gauss5)
    else if m == 7 then Some(Gauss7)
    else None
  }

  /**
   * Mirrored nodes of a table entry are negatives of each other, mirrored
   * weights are equal, and the middle node is 0.
   */
  ghost predicate Mirrored(r: Rule) {
    var m := |r.t|;
    && |r.w| == m && m % 2 == 1
    && (forall i {:trigger r.t[i]} :: 0 <= i < m ==> r.t[i] == -r.t[m - 1 - i])
    && (forall i {:trigger r.w[i]} :: 0 <= i < m ==> r.w[i] == r.w[m - 1 - i])
    && r.t[m / 2] == 0.0
  }

  /** The nodes increase strictly and lie in (-1, 1), and every weight is positive. */
  ghost predicate Ordered(r: Rule) {
    var m := |r.t|;
    && |r.w| == m
    && (forall i {:trigger r.t[i]} :: 0 <= i < m ==> -1.0 < r.t[i] < 1.0 && 0.0 < r.w[i])
    && (forall i {:trigger r.t[i]} :: 0 < i < m ==> r.t[i - 1] < r.t[i])
  }

  ghost predicate SymmetricRule(r: Rule) {
    Mirrored(r) && Ordered(r)
  }

  lemma Gauss5Mirrored()
    ensures Mirrored(Gauss5)
  {
    var t, w := Gauss5.t, Gauss5.w;
    assert forall i {:trigger t[i]} :: 0 <= i < 5 ==> i == 0 || i == 1 || i == 2 || i == 3 || i == 4;
  }

  lemma Gauss5Ordered()
    ensures Ordered(Gauss5)
  {
    var t, w := Gauss5.t, Gauss5.w;
    assert forall i {:trigger t[i]} :: 0 <= i < 5 ==> i == 0 || i == 1 || i == 2 || i == 3 || i == 4;
  }

  lemma Gauss7Mirrored()
    ensures Mirrored(Gauss7)
  {
    var t, w := Gauss7.t, Gauss7.w;
    assert forall i {:trigger t[i]} :: 0 <= i < 7 ==> i == 0 || i == 1 || i == 2 || i == 3 || i == 4 || i == 5 || i == 6;
  }

  lemma Gauss7Ordered()
    ensures Ordered(Gauss7)
  {
    var t, w := Gauss7.t, Gauss7.w;
    assert forall i {:trigger t[i]} :: 0 <= i < 7 ==> i == 0 || i == 1 || i == 2 || i == 3 || i == 4 || i == 5 || i == 6;
  }

  /** Both entries of the table are symmetric rules. */
  lemma TableSymmetric(m: int)
    requires GaussTable(m).Some?
    ensures SymmetricRule(GaussTable(m).value)
  {
    if m == 5 {
      Gauss5Mirrored();
      Gauss5Ordered();
    } else {
      Gauss7Mirrored();
      Gauss7Ordered();
    }
  }

  // ---------------------------------------------------------------------
  // rectangle_method
  // ---------------------------------------------------------------------

  /** The `j`-th midpoint node `a + (j - 0.5) h`. */
  function RectNode(a: real, h: real, j: int): real {
    a + (j as real - 0.5) * h
  }

  /** f summed over the first `k` midpoint nodes. */
  function RectSum(f: real -> real, a: real, h: real, k: nat): real {
    if k == 0 then 0.0 else RectSum(f, a, h, k - 1) + f(RectNode(a, h, k))
  }

  datatype QuadError =
    | NonPositiveN  // ValueError: n <= 0
    | UnsupportedM  // ValueError: m is not a key of the table

  /** `rectangle_method(func, a, b, n)`: h times the sum over n midpoints, h = (b - a) / n. */
  method RectangleMethod(f: real -> real, a: real, b: real, n: int) returns (r: Result<real, QuadError>)
    ensures r.Err? <==> n <= 0
    ensures r.Err? ==> r.error == NonPositiveN
    ensures r.Ok? ==> r.value == (b - a) / n as real * RectSum(f, a, (b - a) / n as real, n)
  {
    if n <= 0 {
      return Err(NonPositiveN);
    }
    var h := (b - a) / n as real;
    var s := 0.0;
    for j := 1 to n + 1
      invariant s == RectSum(f, a, h, j - 1)
    {
      var xj := a + (j as real - 0.5) * h;
      assert xj == RectNode(a, h, j);
      assert RectSum(f, a, h, j) == RectSum(f, a, h, j - 1) + f(xj);
      s := s + f(xj);
    }
    r := Ok(h * s);
  }

  /** With a constant integrand every midpoint contributes the same value. */
  lemma {:induction false} RectSumConstant(f: real -> real, c: real, a: real, h: real, k: nat)
    requires forall x :: f(x) == c
    ensures RectSum(f, a, h, k) == k as real * c
  {
    if k > 0 {
      RectSumConstant(f, c, a, h, k - 1);
      assert RectSum(f, a, h, k) == RectSum(f, a, h, k - 1) + f(RectNode(a, h, k));
      assert f(RectNode(a, h, k)) == c;
      assert (k - 1) as real * c + c == k as real * c;
    }
  }

  /** The rectangle rule integrates a constant c exactly: c (b - a). */
  lemma RectangleConstant(f: real -> real, c: real, a: real, b: real, n: nat)
    requires forall x :: f(x) == c
    requires n >= 1
    ensures (b - a) / n as real * RectSum(f, a, (b - a) / n as real, n) == c * (b - a)
  {
    var h := (b - a) / n as real;
    RectSumConstant(f, c, a, h, n);
    assert h * n as real == b - a;
  }

  /** Every midpoint node lies strictly inside (a, b). */
  lemma RectNodesInside(a: real, b: real, n: nat, j: int)
    requires a < b && 1 <= j <= n
    ensures a < RectNode(a, (b - a) / n as real, j) < b
  {
    var h := (b - a) / n as real;
    assert h > 0.0;
    assert h * n as real == b - a;
    assert (j as real - 0.5) * h <= (n as real - 0.5) * h;
  }

  // ---------------------------------------------------------------------
  // gauss_method
  // ---------------------------------------------------------------------

  /** Node `t` on [-1, 1] mapped to xm + xr t, with xm and xr the midpoint and half-width. */
  function GaussNode(a: real, b: real, t: real): real {
    0.5 * (b + a) + 0.5 * (b - a) * t
  }

  /** The weighted sum over the first `k` nodes of `rule`, mapped onto [a, b]. */
  function GaussSum(f: real -> real, rule: Rule, a: real, b: real, k: nat): real
    requires k <= |rule.t| && k <= |rule.w|
  {
    if k == 0 then 0.0
    else GaussSum(f, rule, a, b, k - 1) + rule.w[k - 1] * f(GaussNode(a, b, rule.t[k - 1]))
  }

  /** `gauss_method(func, a, b, m)`: the half-width times the weighted sum over the m mapped nodes. */
  method GaussMethod(f: real -> real, a: real, b: real, m: int) returns (r: Result<real, QuadError>)
    ensures r.Err? <==> m != 5 && m != 7
    ensures r.Err? ==> r.error == UnsupportedM
    ensures r.Ok? ==> r.value == 0.5 * (b - a) * GaussSum(f, GaussTable(m).value, a, b, m)
  {
    var rule := GaussTable(m);
    if rule.None? {
      return Err(UnsupportedM);
    }
    var s := WeightedSum(f, rule.value, a, b);
    var xr := 0.5 * (b - a);
    r := Ok(xr * s);
  }

  /** The loop of `gauss_method`: the weighted sum of f over the mapped nodes. */
  method WeightedSum(f: real -> real, rule: Rule, a: real, b: real) returns (s: real)
    requires |rule.t| == |rule.w|
    ensures s == GaussSum(f, rule, a, b, |rule.t|)
  {
    var t, w := rule.t, rule.w;
    var xm := 0.5 * (b + a);
    var xr := 0.5 * (b - a);
    s := 0.0;
    for i := 0 to |t|
      invariant s == GaussSum(f, rule, a, b, i)
    {
      assert xm + xr * t[i] == GaussNode(a, b, t[i]);
      assert GaussSum(f, rule, a, b, i + 1) == GaussSum(f, rule, a, b, i) + w[i] * f(xm + xr * t[i]);
      s := s + w[i] * f(xm + xr * t[i]);
    }
  }

  /** A node in [-1, 1] maps between a and b; the node 0 maps to the midpoint. */
  lemma GaussNodeBetween(a: real, b: real, t: real)
    requires -1.0 <= t <= 1.0
    ensures Between(a, b, GaussNode(a, b, t))
    ensures t == 0.0 ==> GaussNode(a, b, t) == (a + b) / 2.0
  {
    var x := GaussNode(a, b, t);
    assert x - a == 0.5 * (b - a) * (1.0 + t);
    assert b - x == 0.5 * (b - a) * (1.0 - t);
    var xr, p, q := 0.5 * (b - a), 1.0 + t, 1.0 - t;
    assert p >= 0.0 && q >= 0.0;
    if a <= b {
      assert xr >= 0.0;
      assert xr * p >= 0.0 && xr * q >= 0.0;
    } else {
      assert xr < 0.0;
      assert xr * p <= 0.0 && xr * q <= 0.0;
    }
  }

  /** Every mapped node of a table entry lies between a and b, and the middle one is (a + b) / 2. */
  lemma GaussNodesBetween(a: real, b: real, m: int, i: int)
    requires GaussTable(m).Some? && 0 <= i < m
    ensures Between(a, b, GaussNode(a, b, GaussTable(m).value.t[i]))
    ensures GaussNode(a, b, GaussTable(m).value.t[m / 2]) == (a + b) / 2.0
  {
    var rule := GaussTable(m).value;
    TableSymmetric(m);
    GaussNodeBetween(a, b, rule.t[i]);
    GaussNodeBetween(a, b, rule.t[m / 2]);
  }
}
