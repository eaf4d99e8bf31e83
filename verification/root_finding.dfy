/**
 * lab_2/my_def_3.py: the parameter check of `calculate_f`, bisection and
 * Newton's method.  The target function and its derivative are abstract
 * total functions on the reals (the source passes `j, k, m` through to
 * them unchanged); arithmetic is exact.
 */
module RootFinding {
  import opened Wrappers
  import opened RealOps

  // ---------------------------------------------------------------------
  // calculate_f: the parameter check
  // ---------------------------------------------------------------------

  /** Which exponent `calculate_f` rejects first. */
  datatype ParamError = BadJ | BadK | BadM

  predicate InRange(p: int) {
    1 <= p <= 4
  }

  /** The checks of `calculate_f`, in the order j, k, m; `None` lets the evaluation go ahead. */
  function CheckParameters(j: int, k: int, m: int): (r: Option<ParamError>)
    ensures r.None? <==> InRange(j) && InRange(k) && InRange(m)
    ensures r == Some(BadJ) <==> !InRange(j)
    ensures r == Some(BadK) <==> InRange(j) && !InRange(k)
    ensures r == Some(BadM) <==> InRange(j) && InRange(k) && !InRange(m)
  {
    if !(1 <= j <= 4) then Some(BadJ)
    else if !(1 <= k <= 4) then Some(BadK)
    else if !(1 <= m <= 4) then Some(BadM)
    else None
  }

  // ---------------------------------------------------------------------
  // bisection
  // ---------------------------------------------------------------------

  datatype BisectError =
    | SameSign      // ValueError: f(a) and f(b) have the same sign
    | NoConvergence // RuntimeError after max_iter halvings

  function Pow2(k: nat): (r: real)
    ensures r >= 1.0
  {
    if k == 0 then 1.0 else 2.0 * Pow2(k - 1)
  }

  /** Keeping the half on which the signs differ keeps a sign change inside. */
  lemma SignChangeKept(fa: real, fb: real, fc: real)
    requires fa != 0.0 && fa * fb <= 0.0 && fa * fc >= 0.0
    ensures fc * fb <= 0.0
  {
    if fa > 0.0 {
      assert fb <= 0.0 && fc >= 0.0;
    } else {
      assert fb >= 0.0 && fc <= 0.0;
    }
  }

  /** Either half of an interval halved `i` times is the interval halved `i + 1` times. */
  lemma Halved(a: real, b: real, w: real, i: nat)
    requires b - a == w / Pow2(i)
    ensures b - (a + b) / 2.0 == w / Pow2(i + 1) && (a + b) / 2.0 - a == w / Pow2(i + 1)
  {
    assert Pow2(i + 1) == 2.0 * Pow2(i);
  }

  /**
   * What holds of the interval [a, b] after `i` halvings of [a0, b0]: it
   * lies inside the original, has the halved width and, when tol > 0 and
   * f(a0) != 0, f(a) is non-zero and f changes sign between a and b.
   */
  ghost predicate Bracket(f: real -> real, a0: real, b0: real, tol: real, a: real, b: real, i: nat) {
    && Between(a0, b0, a) && Between(a0, b0, b)
    && b - a == (b0 - a0) / Pow2(i)
    && (tol > 0.0 && f(a0) != 0.0 ==> f(a) != 0.0 && f(a) * f(b) <= 0.0)
  }

  /**
   * One halving of the loop of `bisection` that did not return: the
   * midpoint replaces `b` when f(a) and f(c) differ in sign, `a` otherwise.
   */
  method Narrow(f: real -> real, a0: real, b0: real, tol: real, a: real, b: real, fa: real, i: nat, ghost n: nat)
    returns (a': real, b': real, fa': real, fb': real)
    requires Bracket(f, a0, b0, tol, a, b, i) && fa == f(a)
    requires Abs(f((a + b) / 2.0)) >= tol && (b - a) / 2.0 >= tol && n >= 1
    ensures fa * f((a + b) / 2.0) < 0.0 ==> a' == a && b' == (a + b) / 2.0
    ensures fa * f((a + b) / 2.0) >= 0.0 ==> a' == (a + b) / 2.0 && b' == b
    ensures Bracket(f, a0, b0, tol, a', b', i + 1) && fa' == f(a') && fb' == f(b')
    ensures BisectRun(f, a, b, tol, n) == BisectRun(f, a', b', tol, n - 1)
  {
    var c := (a + b) / 2.0;
    var fc := f(c);
    if tol > 0.0 && f(a0) != 0.0 && fa * fc >= 0.0 {
      SignChangeKept(fa, f(b), fc);
    }
    Halved(a, b, b0 - a0, i);
    if fa * fc < 0.0 {
      a', b', fa', fb' := a, c, fa, fc;
    } else {
      a', b', fa', fb' := c, b, fc, f(b);
    }
  }

  /**
   * The loop of `bisection` on [a, b] with `n` iterations left: the
   * midpoint is returned as soon as |f(c)| < tol or half the interval is
   * below tol; otherwise `b` moves to it when f(a) and f(c) differ in sign
   * and `a` moves to it when they do not.
   */
  function BisectRun(f: real -> real, a: real, b: real, tol: real, n: nat): Result<real, BisectError>
    decreases n
  {
    if n == 0 then Err(NoConvergence)
    else
      var c := (a + b) / 2.0;
      if Abs(f(c)) < tol || (b - a) / 2.0 < tol then Ok(c)
      else if f(a) * f(c) < 0.0 then BisectRun(f, a, c, tol, n - 1)
      else BisectRun(f, c, b, tol, n - 1)
  }

  /** An iteration whose midpoint passes the stop test returns that midpoint. */
  lemma BisectRunStops(f: real -> real, a: real, b: real, tol: real, n: nat)
    requires n >= 1 && (Abs(f((a + b) / 2.0)) < tol || (b - a) / 2.0 < tol)
    ensures BisectRun(f, a, b, tol, n) == Ok((a + b) / 2.0)
  {
  }

  /** A midpoint that is a root is returned at once when tol > 0. */
  lemma BisectAtRoot(f: real -> real, a: real, b: real, tol: real, n: nat)
    requires f((a + b) / 2.0) == 0.0 && tol > 0.0 && n >= 1
    ensures BisectRun(f, a, b, tol, n) == Ok((a + b) / 2.0)
  {
  }

  /** The loop never reports a same-sign interval: that error comes only from the check before it. */
  lemma {:induction false} BisectRunErrors(f: real -> real, a: real, b: real, tol: real, n: nat)
    ensures BisectRun(f, a, b, tol, n) != Err(SameSign)
    decreases n
  {
    if n > 0 {
      var c := (a + b) / 2.0;
      BisectRunErrors(f, a, c, tol, n - 1);
      BisectRunErrors(f, c, b, tol, n - 1);
    }
  }

  /**
   * `bisection(func, a, b, j, k, m, tol, max_iter)`.  The ghost results
   * are the last interval [lo, hi] and the number of halvings before it.
   * A root is returned only as the midpoint of an interval that was halved
   * `steps` times, when |f(c)| < tol or half the interval is below tol.
   * With tol > 0 and f(a) != 0 every interval keeps a sign change.
   */
  method Bisection(f: real -> real, a0: real, b0: real, tol: real, maxIter: nat)
    returns (r: Result<real, BisectError>, ghost lo: real, ghost hi: real, ghost steps: nat)
    ensures r == if f(a0) * f(b0) > 0.0 then Err(SameSign) else BisectRun(f, a0, b0, tol, maxIter)
    ensures r == Err(SameSign) <==> f(a0) * f(b0) > 0.0
    ensures r == Err(SameSign) ==> lo == a0 && hi == b0 && steps == 0
    ensures r != Err(SameSign) ==> Bracket(f, a0, b0, tol, lo, hi, steps)
    ensures r == Err(NoConvergence) ==> steps == maxIter
    ensures r.Ok? ==> steps < maxIter && r.value == (lo + hi) / 2.0 && Between(a0, b0, r.value)
    ensures r.Ok? ==> Abs(f(r.value)) < tol || (hi - lo) / 2.0 < tol
  {
    var fa := f(a0);
    var fb := f(b0);
    if fa * fb > 0.0 {
      return Err(SameSign), a0, b0, 0;
    }
    BisectRunErrors(f, a0, b0, tol, maxIter);
    r, lo, hi, steps := BisectLoop(f, a0, b0, fa, fb, tol, maxIter);
  }

  /** The `for` loop of `bisection`, entered once f(a) and f(b) do not share a sign. */
  method BisectLoop(f: real -> real, a0: real, b0: real, fa0: real, fb0: real, tol: real, maxIter: nat)
    returns (r: Result<real, BisectError>, ghost lo: real, ghost hi: real, ghost steps: nat)
    requires fa0 == f(a0) && fb0 == f(b0) && fa0 * fb0 <= 0.0
    ensures r == BisectRun(f, a0, b0, tol, maxIter)
    ensures Bracket(f, a0, b0, tol, lo, hi, steps)
    ensures r == Err(NoConvergence) ==> steps == maxIter
    ensures r.Ok? ==> steps < maxIter && r.value == (lo + hi) / 2.0 && Between(a0, b0, r.value)
    ensures r.Ok? ==> Abs(f(r.value)) < tol || (hi - lo) / 2.0 < tol
  {
    var a, b, fa, fb := a0, b0, fa0, fb0;
    lo, hi, steps := a0, b0, 0;
    for i := 0 to maxIter
      invariant fa == f(a) && fb == f(b) && lo == a && hi == b && steps == i
      invariant Bracket(f, a0, b0, tol, a, b, i)
      invariant BisectRun(f, a, b, tol, maxIter - i) == BisectRun(f, a0, b0, tol, maxIter)
    {
      var c := (a + b) / 2.0;
      var fc := f(c);
      if Abs(fc) < tol || (b - a) / 2.0 < tol {
        MidpointBetween(a0, b0, a, b);
        BisectRunStops(f, a, b, tol, maxIter - i);
        return Ok(c), lo, hi, steps;
      }
      a, b, fa, fb := Narrow(f, a0, b0, tol, a, b, fa, i, maxIter - i);
      lo, hi, steps := a, b, i + 1;
    }
    r := Err(NoConvergence);
  }

  lemma MidpointBetween(a0: real, b0: real, a: real, b: real)
    requires Between(a0, b0, a) && Between(a0, b0, b)
    ensures Between(a0, b0, (a + b) / 2.0)
  {
  }

  // ---------------------------------------------------------------------
  // newton
  // ---------------------------------------------------------------------

  datatype NewtonError =
    | ZeroDerivative  // ZeroDivisionError: f'(x) = 0
    | NotConverged    // RuntimeError after max_iter steps

  /** Newton's method from `x` with `n` steps left: the specification of `newton`. */
  function NewtonRun(f: real -> real, df: real -> real, x: real, tol: real, n: nat): Result<real, NewtonError>
    decreases n
  {
    if n == 0 then Err(NotConverged)
    else if df(x) == 0.0 then Err(ZeroDerivative)
    else
      var next := x - f(x) / df(x);
      if Abs(next - x) < tol then Ok(next) else NewtonRun(f, df, next, tol, n - 1)
  }

  /** `newton(func, dfunc, x0, j, k, m, tol, max_iter)`. */
  method Newton(f: real -> real, df: real -> real, x0: real, tol: real, maxIter: nat)
    returns (r: Result<real, NewtonError>)
    ensures r == NewtonRun(f, df, x0, tol, maxIter)
  {
    var x := x0;
    for i := 0 to maxIter
      invariant NewtonRun(f, df, x, tol, maxIter - i) == NewtonRun(f, df, x0, tol, maxIter)
    {
      var fx := f(x);
      var dfx := df(x);
      if dfx == 0.0 {
        return Err(ZeroDerivative);
      }
      var xNew := x - fx / dfx;
      if Abs(xNew - x) < tol {
        return Ok(xNew);
      }
      x := xNew;
    }
    r := Err(NotConverged);
  }

  /** The `k`-th Newton iterate from `x`, for as long as the derivative is non-zero. */
  function Iterate(f: real -> real, df: real -> real, x: real, k: nat): real
    decreases k
  {
    if k == 0 || df(x) == 0.0 then x else Iterate(f, df, x - f(x) / df(x), k - 1)
  }

  /** `v` is the Newton step from `y`, and that step is shorter than tol. */
  predicate ConvergedAt(f: real -> real, df: real -> real, y: real, tol: real, v: real) {
    df(y) != 0.0 && v == y - f(y) / df(y) && Abs(v - y) < tol
  }

  /**
   * What `newton` returns is a Newton step `x - f(x) / f'(x)` taken from
   * one of the first `n` iterates, a step shorter than tol.
   */
  lemma {:induction false} NewtonResult(f: real -> real, df: real -> real, x: real, tol: real, n: nat)
    requires NewtonRun(f, df, x, tol, n).Ok?
    ensures exists k :: 0 <= k < n && ConvergedAt(f, df, Iterate(f, df, x, k), tol, NewtonRun(f, df, x, tol, n).value)
    decreases n
  {
    var next := x - f(x) / df(x);
    if Abs(next - x) < tol {
      assert Iterate(f, df, x, 0) == x;
    } else {
      NewtonResult(f, df, next, tol, n - 1);
      var k :| 0 <= k < n - 1 && ConvergedAt(f, df, Iterate(f, df, next, k), tol, NewtonRun(f, df, next, tol, n - 1).value);
      assert Iterate(f, df, x, k + 1) == Iterate(f, df, next, k);
    }
  }

  /** `newton` raises ZeroDivisionError only at an iterate where the derivative vanishes. */
  lemma {:induction false} NewtonZeroDerivative(f: real -> real, df: real -> real, x: real, tol: real, n: nat)
    requires NewtonRun(f, df, x, tol, n) == Err(ZeroDerivative)
    ensures exists k :: 0 <= k < n && df(Iterate(f, df, x, k)) == 0.0
    decreases n
  {
    if df(x) == 0.0 {
      assert Iterate(f, df, x, 0) == x;
    } else {
      var next := x - f(x) / df(x);
      NewtonZeroDerivative(f, df, next, tol, n - 1);
      var k :| 0 <= k < n - 1 && df(Iterate(f, df, next, k)) == 0.0;
      assert Iterate(f, df, x, k + 1) == Iterate(f, df, next, k);
    }
  }

  /** Started at a root with a non-zero derivative and tol > 0, `newton` returns that root at once. */
  lemma NewtonAtRoot(f: real -> real, df: real -> real, x: real, tol: real, n: nat)
    requires f(x) == 0.0 && df(x) != 0.0 && tol > 0.0 && n >= 1
    ensures NewtonRun(f, df, x, tol, n) == Ok(x)
  {
  }
}
