/**
 * Lab_6/gauss_and_rectangle_V_2.py: the same two rules without argument
 * guards.  Its GAUSS_TABLE holds the same numbers as the GUI script's and
 * is `Quadrature.GaussTable`; the sums are `Quadrature.RectSum` and
 * `Quadrature.GaussSum`, so the lemmas proved there hold here as well.
 */
module QuadratureV2 {
  import opened Wrappers
  import opened Quadrature

  /**
   * `rectangle_method(func, a, b, n)` with no guard on n: n = 0 divides by
   * zero, and a negative n gives an empty `range(1, n + 1)` and so 0.
   */
  method RectangleMethod(f: real -> real, a: real, b: real, n: int) returns (r: real)
    requires n != 0
    ensures n > 0 ==> r == (b - a) / n as real * RectSum(f, a, (b - a) / n as real, n)
    ensures n < 0 ==> r == 0.0
  {
    var h := (b - a) / n as real;
    var s := 0.0;
    var j := 1;
    while j <= n
      invariant n > 0 ==> 1 <= j <= n + 1
      invariant n > 0 ==> s == RectSum(f, a, h, j - 1)
      invariant n < 0 ==> j == 1 && s == 0.0
    {
      var xj := RectNode(a, h, j);
      assert RectSum(f, a, h, j) == RectSum(f, a, h, j - 1) + f(xj);
      s := s + f(xj);
      j := j + 1;
    }
    r := h * s;
  }

  /** `gauss_method(func, a, b, m)`: `None` is the KeyError of `GAUSS_TABLE[m]` for m other than 5 and 7. */
  method GaussMethod(f: real -> real, a: real, b: real, m: int) returns (r: Option<real>)
    ensures r.None? <==> m != 5 && m != 7
    ensures r.Some? ==> r.value == 0.5 * (b - a) * GaussSum(f, GaussTable(m).value, a, b, m)
  {
    var rule := GaussTable(m);
    if rule.None? {
      return None;
    }
    var s := WeightedSum(f, rule.value, a, b);
    var xr := 0.5 * (b - a);
    r := Some(xr * s);
  }
}
