/**
 * The_run_through_method: the Thomas algorithm (tridiagonal matrix
 * algorithm) and the part of the window's `solve` that checks the matrix
 * is tridiagonal and extracts its three diagonals.  Arithmetic is exact.
 */
module Thomas {
  import opened Wrappers
  import opened RealOps

  /** The pivot threshold of the forward sweep, 1e-12. */
  const Tiny: real := 0.000000000001

  datatype ThomasError =
    | EmptySystem          // n = 0: `alpha[0] = ...` raises IndexError
    | ZeroPivot(row: nat)  // |b[i] + a[i] * alpha[i - 1]| < 1e-12

  /** The diagonals `a` (below), `b` (main), `c` (above) and the right-hand side `d` have one entry per row. */
  predicate WellShaped(a: seq<real>, b: seq<real>, c: seq<real>, d: seq<real>)
  {
    |a| == |b| && |c| == |b| && |d| == |b|
  }

  /** The denominator `b[i] + a[i] * alpha[i - 1]` of row `i >= 1` of the forward sweep. */
  function Pivot(a: seq<real>, b: seq<real>, alpha: seq<real>, i: nat): real
    requires |a| == |b| && |alpha| == |b| && 1 <= i < |b|
  {
    b[i] + a[i] * alpha[i - 1]
  }

  /**
   * Rows `0 .. k - 1` of the forward sweep: `alpha[0] = -c[0] / b[0]`,
   * `beta[0] = d[0] / b[0]`, and for each later row a pivot of size at
   * least 1e-12, `alpha[i] = -c[i] / pivot` (0 on the last row) and
   * `beta[i] = (d[i] - a[i] * beta[i - 1]) / pivot`.
   */
  predicate Swept(a: seq<real>, b: seq<real>, c: seq<real>, d: seq<real>, alpha: seq<real>, beta: seq<real>, k: nat)
    requires WellShaped(a, b, c, d)
  {
    && |alpha| == |b| && |beta| == |b| && 1 <= k <= |b|
    && b[0] != 0.0 && alpha[0] == -c[0] / b[0] && beta[0] == d[0] / b[0]
    && forall i :: 1 <= i < k ==> SweptRow(a, b, c, d, alpha, beta, i)
  }

  /** Row `i >= 1` of the forward sweep. */
  predicate SweptRow(a: seq<real>, b: seq<real>, c: seq<real>, d: seq<real>, alpha: seq<real>, beta: seq<real>, i: nat)
    requires WellShaped(a, b, c, d) && |alpha| == |b| && |beta| == |b| && 1 <= i < |b|
  {
    var p := Pivot(a, b, alpha, i);
    && Abs(p) >= Tiny
    && alpha[i] == (if i < |b| - 1 then -c[i] / p else 0.0)
    && beta[i] == (d[i] - a[i] * beta[i - 1]) / p
  }

  /** Rows below `k` read only the first `k` coefficients, so a sweep extends row by row. */
  lemma SweptExtend(a: seq<real>, b: seq<real>, c: seq<real>, d: seq<real>,
                    alpha: seq<real>, beta: seq<real>, alpha': seq<real>, beta': seq<real>, k: nat)
    requires WellShaped(a, b, c, d) && Swept(a, b, c, d, alpha, beta, k) && k < |b|
    requires |alpha'| == |b| && |beta'| == |b| && alpha'[..k] == alpha[..k] && beta'[..k] == beta[..k]
    requires SweptRow(a, b, c, d, alpha', beta', k)
    ensures Swept(a, b, c, d, alpha', beta', k + 1)
  {
    assert alpha'[0] == alpha[..k][0] && beta'[0] == beta[..k][0];
    forall i | 1 <= i < k ensures SweptRow(a, b, c, d, alpha', beta', i) {
      assert SweptRow(a, b, c, d, alpha, beta, i);
      assert alpha'[i] == alpha[..k][i] && alpha'[i - 1] == alpha[..k][i - 1];
      assert beta'[i] == beta[..k][i] && beta'[i - 1] == beta[..k][i - 1];
    }
  }

  /** Writing row `i` of the forward sweep into coefficients swept up to row `i` sweeps one row further. */
  lemma SweptStep(a: seq<real>, b: seq<real>, c: seq<real>, d: seq<real>,
                  alpha: seq<real>, beta: seq<real>, i: nat, al: real, be: real)
    requires WellShaped(a, b, c, d) && Swept(a, b, c, d, alpha, beta, i) && i < |b|
    requires Abs(Pivot(a, b, alpha, i)) >= Tiny
    requires al == (if i < |b| - 1 then -c[i] / Pivot(a, b, alpha, i) else 0.0)
    requires be == (d[i] - a[i] * beta[i - 1]) / Pivot(a, b, alpha, i)
    ensures Swept(a, b, c, d, alpha[i := al], beta[i := be], i + 1)
  {
    var alpha', beta' := alpha[i := al], beta[i := be];
    assert alpha'[..i] == alpha[..i] && beta'[..i] == beta[..i];
    assert Pivot(a, b, alpha', i) == Pivot(a, b, alpha, i);
    assert SweptRow(a, b, c, d, alpha', beta', i);
    SweptExtend(a, b, c, d, alpha, beta, alpha', beta', i);
  }

  /**
   * The back substitution: `x[n - 1] = beta[n - 1]` and
   * `x[i] = alpha[i] * x[i + 1] + beta[i]` below it.
   */
  predicate BackSubstituted(alpha: seq<real>, beta: seq<real>, x: seq<real>)
  {
    && |x| == |beta| && |alpha| == |beta| && |beta| >= 1
    && x[|x| - 1] == beta[|x| - 1]
    && forall i :: 0 <= i < |x| - 1 ==> x[i] == alpha[i] * x[i + 1] + beta[i]
  }

  /** Row `i` of the tridiagonal system, `a[0]` and `c[n - 1]` taken as 0. */
  function RowValue(a: seq<real>, b: seq<real>, c: seq<real>, x: seq<real>, i: nat): real
    requires |a| == |b| && |c| == |b| && |x| == |b| && i < |b|
  {
    (if i > 0 then a[i] * x[i - 1] else 0.0)
    + b[i] * x[i]
    + (if i < |b| - 1 then c[i] * x[i + 1] else 0.0)
  }

  /** `x` solves the tridiagonal system. */
  predicate Solves(a: seq<real>, b: seq<real>, c: seq<real>, d: seq<real>, x: seq<real>)
    requires WellShaped(a, b, c, d)
  {
    |x| == |b| && forall i :: 0 <= i < |b| ==> RowValue(a, b, c, x, i) == d[i]
  }

  /**
   * The algebra of one row: with `D = b + a * alpha'` non-zero,
   * `x' = alpha' * x + beta'` (the row above), `x = alpha * x'' + beta`
   * (this row), `alpha = -c / D` and `beta = (d - a * beta') / D`, the row
   * equation holds.
   */
  lemma RowAlgebra(a: real, b: real, c: real, d: real, xPrev: real, x: real, xNext: real,
                   alphaPrev: real, betaPrev: real, alpha: real, beta: real, D: real)
    requires D != 0.0 && D == b + a * alphaPrev
    requires xPrev == alphaPrev * x + betaPrev
    requires x == alpha * xNext + beta
    requires alpha == -c / D && beta == (d - a * betaPrev) / D
    ensures a * xPrev + b * x + c * xNext == d
  {
    assert D * alpha == -c;
    assert D * beta == d - a * betaPrev;
    calc {
      a * xPrev + b * x + c * xNext;
      a * alphaPrev * x + a * betaPrev + b * x + c * xNext;
      D * x + a * betaPrev + c * xNext;
      D * alpha * xNext + D * beta + a * betaPrev + c * xNext;
      d;
    }
  }

  /** The first row of the system holds for the back-substituted `x` of a complete sweep. */
  lemma FirstRow(a: seq<real>, b: seq<real>, c: seq<real>, d: seq<real>,
                 alpha: seq<real>, beta: seq<real>, x: seq<real>)
    requires WellShaped(a, b, c, d) && Swept(a, b, c, d, alpha, beta, |b|)
    requires BackSubstituted(alpha, beta, x)
    ensures RowValue(a, b, c, x, 0) == d[0]
  {
    // The row above is missing: its terms are 0.
    assert beta[0] == (d[0] - 0.0 * 0.0) / b[0];
    if |b| > 1 {
      RowAlgebra(0.0, b[0], c[0], d[0], 0.0, x[0], x[1], 0.0, 0.0, alpha[0], beta[0], b[0]);
    } else {
      RowAlgebra(0.0, b[0], 0.0, d[0], 0.0, x[0], 0.0, 0.0, 0.0, 0.0, beta[0], b[0]);
    }
  }

  /** Row `i >= 1` of the system holds for the back-substituted `x` of a complete sweep. */
  lemma LaterRow(a: seq<real>, b: seq<real>, c: seq<real>, d: seq<real>,
                 alpha: seq<real>, beta: seq<real>, x: seq<real>, i: nat)
    requires WellShaped(a, b, c, d) && Swept(a, b, c, d, alpha, beta, |b|)
    requires BackSubstituted(alpha, beta, x) && 1 <= i < |b|
    ensures RowValue(a, b, c, x, i) == d[i]
  {
    var p := Pivot(a, b, alpha, i);
    assert SweptRow(a, b, c, d, alpha, beta, i);
    if i < |b| - 1 {
      RowAlgebra(a[i], b[i], c[i], d[i], x[i - 1], x[i], x[i + 1], alpha[i - 1], beta[i - 1], alpha[i], beta[i], p);
      assert RowValue(a, b, c, x, i) == a[i] * x[i - 1] + b[i] * x[i] + c[i] * x[i + 1];
    } else {
      // The row below is missing: its terms are 0.
      assert 0.0 == -0.0 / p;
      RowAlgebra(a[i], b[i], 0.0, d[i], x[i - 1], x[i], 0.0, alpha[i - 1], beta[i - 1], 0.0, beta[i], p);
      assert RowValue(a, b, c, x, i) == a[i] * x[i - 1] + b[i] * x[i] + 0.0;
    }
  }

  /** In exact arithmetic the Thomas algorithm solves the system once the sweep gets through every row. */
  lemma ThomasSolves(a: seq<real>, b: seq<real>, c: seq<real>, d: seq<real>, alpha: seq<real>, beta: seq<real>, x: seq<real>)
    requires WellShaped(a, b, c, d) && Swept(a, b, c, d, alpha, beta, |b|)
    requires BackSubstituted(alpha, beta, x)
    ensures Solves(a, b, c, d, x)
  {
    forall i | 0 <= i < |b| ensures RowValue(a, b, c, x, i) == d[i] {
      if i == 0 {
        FirstRow(a, b, c, d, alpha, beta, x);
      } else {
        LaterRow(a, b, c, d, alpha, beta, x, i);
      }
    }
  }

  /**
   * The forward sweep of `thomas_method`: `alpha[0]`, `beta[0]` from the
   * first row, then row by row until a pivot falls below 1e-12.
   */
  method ForwardSweep(a: seq<real>, b: seq<real>, c: seq<real>, d: seq<real>)
    returns (alpha: array<real>, beta: array<real>, failed: Option<nat>)
    requires WellShaped(a, b, c, d) && |b| >= 1 && b[0] != 0.0
    ensures fresh(alpha) && fresh(beta)
    ensures failed.None? ==> Swept(a, b, c, d, alpha[..], beta[..], |b|)
    ensures failed.Some? ==>
      var k := failed.value;
      1 <= k < |b| && Swept(a, b, c, d, alpha[..], beta[..], k) && Abs(Pivot(a, b, alpha[..], k)) < Tiny
  {
    var n := |b|;
    alpha := new real[n];
    beta := new real[n];
    alpha[0] := -c[0] / b[0];
    beta[0] := d[0] / b[0];
    for i := 1 to n
      invariant Swept(a, b, c, d, alpha[..], beta[..], i)
    {
      var denom := b[i] + a[i] * alpha[i - 1];
      if Abs(denom) < Tiny {
        return alpha, beta, Some(i);
      }
      ghost var al0, be0 := alpha[..], beta[..];
      var al := if i < n - 1 then -c[i] / denom else 0.0;
      var be := (d[i] - a[i] * beta[i - 1]) / denom;
      SweptStep(a, b, c, d, al0, be0, i, al, be);
      alpha[i] := al;
      beta[i] := be;
      assert alpha[..] == al0[i := al] && beta[..] == be0[i := be];
    }
    failed := None;
  }

  /** Rows `j .. n - 2` of the back substitution hold. */
  predicate BackFrom(alpha: seq<real>, beta: seq<real>, x: seq<real>, j: nat)
    requires |alpha| == |beta| == |x|
  {
    forall k :: j <= k < |x| - 1 ==> x[k] == alpha[k] * x[k + 1] + beta[k]
  }

  /** Writing row `i` of the back substitution extends the rows that hold down to `i`. */
  lemma BackStep(alpha: seq<real>, beta: seq<real>, x: seq<real>, i: nat, v: real)
    requires |alpha| == |beta| == |x| && i < |x| - 1
    requires BackFrom(alpha, beta, x, i + 1) && v == alpha[i] * x[i + 1] + beta[i]
    ensures BackFrom(alpha, beta, x[i := v], i)
  {
    var x' := x[i := v];
    forall k | i <= k < |x| - 1 ensures x'[k] == alpha[k] * x'[k + 1] + beta[k] {
      assert x'[k + 1] == x[k + 1];
    }
  }

  /** The back substitution of `thomas_method`, from the last row up. */
  method BackSubstitution(alpha: array<real>, beta: array<real>) returns (x: array<real>)
    requires alpha.Length == beta.Length >= 1
    ensures fresh(x) && BackSubstituted(alpha[..], beta[..], x[..])
  {
    var n := beta.Length;
    x := new real[n];
    x[n - 1] := beta[n - 1];
    var i := n - 2;
    while i >= 0
      invariant -1 <= i <= n - 2
      invariant x[n - 1] == beta[n - 1]
      invariant BackFrom(alpha[..], beta[..], x[..], i + 1)
    {
      var v := alpha[i] * x[i + 1] + beta[i];
      BackStep(alpha[..], beta[..], x[..], i, v);
      x[i] := v;
      i := i - 1;
    }
  }

  /**
   * `thomas_method(a, b, c, d)`, with the sweep coefficients `alpha` and
   * `beta` as ghost results.  It fails on an empty system and at the first
   * row whose pivot is below 1e-12; otherwise its result solves the
   * system.  `b[0]` is not checked by the source (numpy would produce inf
   * or nan), so it is demanded here.
   */
  method ThomasMethod(a: seq<real>, b: seq<real>, c: seq<real>, d: seq<real>)
    returns (r: Result<seq<real>, ThomasError>, ghost alpha: seq<real>, ghost beta: seq<real>)
    requires WellShaped(a, b, c, d)
    requires |b| >= 1 ==> b[0] != 0.0
    ensures r == Err(EmptySystem) <==> |b| == 0
    ensures r.Err? && r.error.ZeroPivot? ==>
      var k := r.error.row;
      1 <= k < |b| && Swept(a, b, c, d, alpha, beta, k) && Abs(Pivot(a, b, alpha, k)) < Tiny
    ensures r.Ok? ==> Swept(a, b, c, d, alpha, beta, |b|) && BackSubstituted(alpha, beta, r.value)
    ensures r.Ok? ==> Solves(a, b, c, d, r.value)
  {
    var n := |b|;
    if n == 0 {
      return Err(EmptySystem), [], [];
    }
    var al, be, failed := ForwardSweep(a, b, c, d);
    alpha, beta := al[..], be[..];
    if failed.Some? {
      return Err(ZeroPivot(failed.value)), alpha, beta;
    }
    var x := BackSubstitution(al, be);
    ThomasSolves(a, b, c, d, alpha, beta, x[..]);
    r := Ok(x[..]);
  }

  // ---------------------------------------------------------------------
  // `TDMA_GUI.solve`: the checks around the call
  // ---------------------------------------------------------------------

  /** Every entry more than one place off the main diagonal is zero. */
  ghost predicate Tridiagonal(A: array2<real>)
    reads A
  {
    forall i, j :: 0 <= i < A.Length0 && 0 <= j < A.Length1 && (i - j > 1 || j - i > 1) ==> A[i, j] == 0.0
  }

  /** The tridiagonality test of `solve`, row by row as the nested loop scans. */
  method CheckTridiagonal(A: array2<real>) returns (ok: bool)
    ensures ok <==> Tridiagonal(A)
  {
    for i := 0 to A.Length0
      invariant forall r, j :: 0 <= r < i && 0 <= j < A.Length1 && (r - j > 1 || j - r > 1) ==> A[r, j] == 0.0
    {
      for j := 0 to A.Length1
        invariant forall r, l :: 0 <= r < i && 0 <= l < A.Length1 && (r - l > 1 || l - r > 1) ==> A[r, l] == 0.0
        invariant forall l :: 0 <= l < j && (i - l > 1 || l - i > 1) ==> A[i, l] == 0.0
      {
        if Abs((i - j) as real) > 1.0 && A[i, j] != 0.0 {
          return false;
        }
      }
    }
    return true;
  }

  /** The sub-diagonal of a square matrix, with 0 in row 0 where it has no entry. */
  function SubDiagonal(A: array2<real>): (a: seq<real>)
    reads A
    requires A.Length0 == A.Length1
    ensures |a| == A.Length0
    ensures forall i :: 0 <= i < A.Length0 ==> a[i] == if i > 0 then A[i, i - 1] else 0.0
  {
    seq(A.Length0, i requires 0 <= i < A.Length0 reads A => if i > 0 then A[i, i - 1] else 0.0)
  }

  /** The main diagonal of a square matrix. */
  function MainDiagonal(A: array2<real>): (main: seq<real>)
    reads A
    requires A.Length0 == A.Length1
    ensures |main| == A.Length0
    ensures forall i :: 0 <= i < A.Length0 ==> main[i] == A[i, i]
  {
    seq(A.Length0, i requires 0 <= i < A.Length0 reads A => A[i, i])
  }

  /** The super-diagonal of a square matrix, with 0 in the last row where it has no entry. */
  function SuperDiagonal(A: array2<real>): (c: seq<real>)
    reads A
    requires A.Length0 == A.Length1
    ensures |c| == A.Length0
    ensures forall i :: 0 <= i < A.Length0 ==> c[i] == if i < A.Length0 - 1 then A[i, i + 1] else 0.0
  {
    seq(A.Length0, i requires 0 <= i < A.Length0 reads A => if i < A.Length0 - 1 then A[i, i + 1] else 0.0)
  }

  /** Row `i` of `A` times `x`, summed over the columns `j < k`. */
  ghost function RowSum(A: array2<real>, i: nat, x: seq<real>, k: nat): real
    reads A
    requires i < A.Length0 && k <= A.Length1 && |x| == A.Length1
  {
    if k == 0 then 0.0 else RowSum(A, i, x, k - 1) + A[i, k - 1] * x[k - 1]
  }

  /** The part of the band of row `i` that lies in the columns `j < k`. */
  ghost function BandSum(A: array2<real>, i: nat, x: seq<real>, k: nat): real
    reads A
    requires i < A.Length0 && k <= A.Length1 && |x| == A.Length1
  {
    (if 1 <= i && i - 1 < k then A[i, i - 1] * x[i - 1] else 0.0)
    + (if i < k then A[i, i] * x[i] else 0.0)
    + (if i + 1 < k then A[i, i + 1] * x[i + 1] else 0.0)
  }

  /** In a tridiagonal matrix only the band contributes to a row product. */
  lemma {:induction false} RowSumBand(A: array2<real>, i: nat, x: seq<real>, k: nat)
    requires Tridiagonal(A) && i < A.Length0 && k <= A.Length1 && |x| == A.Length1
    ensures RowSum(A, i, x, k) == BandSum(A, i, x, k)
  {
    if k > 0 {
      RowSumBand(A, i, x, k - 1);
      var j := k - 1;
      if i - j > 1 || j - i > 1 {
        assert A[i, j] == 0.0;
      }
    }
  }

  /** For a tridiagonal matrix, a row product is the row of the system built from its diagonals. */
  lemma BandRow(A: array2<real>, a: seq<real>, main: seq<real>, c: seq<real>, x: seq<real>, i: nat)
    requires Tridiagonal(A) && A.Length0 == A.Length1 && i < A.Length0
    requires |a| == A.Length0 && |main| == A.Length0 && |c| == A.Length0 && |x| == A.Length0
    requires main[i] == A[i, i]
    requires a[i] == if i > 0 then A[i, i - 1] else 0.0
    requires c[i] == if i < A.Length0 - 1 then A[i, i + 1] else 0.0
    ensures RowSum(A, i, x, A.Length1) == RowValue(a, main, c, x, i)
  {
    RowSumBand(A, i, x, A.Length1);
  }

  datatype SolveError =
    | NotTridiagonal              // "Матрица не трёхдиагональная!"
    | SolverFailed(e: ThomasError)

  /**
   * `solve` after the entries are parsed: reject a matrix that is not
   * tridiagonal, extract the diagonals and run the Thomas algorithm on
   * them, with the ghost results its sweep coefficients.  The Thomas
   * algorithm fails only on an empty matrix or at a pivot below 1e-12;
   * on success the result solves `A x = rhs` for the whole matrix.
   */
  method Solve(A: array2<real>, rhs: seq<real>)
    returns (r: Result<seq<real>, SolveError>, ghost alpha: seq<real>, ghost beta: seq<real>)
    requires A.Length0 == A.Length1 && |rhs| == A.Length0
    requires Tridiagonal(A) && A.Length0 >= 1 ==> A[0, 0] != 0.0
    ensures r == Err(NotTridiagonal) <==> !Tridiagonal(A)
    ensures r == Err(SolverFailed(EmptySystem)) <==> Tridiagonal(A) && A.Length0 == 0
    ensures r.Err? && r.error.SolverFailed? && r.error.e.ZeroPivot? ==>
      var k, a, main, c := r.error.e.row, SubDiagonal(A), MainDiagonal(A), SuperDiagonal(A);
      && Tridiagonal(A) && 1 <= k < A.Length0
      && Swept(a, main, c, rhs, alpha, beta, k) && Abs(Pivot(a, main, alpha, k)) < Tiny
    ensures r.Ok? ==> |r.value| == A.Length0
    ensures r.Ok? ==> forall i :: 0 <= i < A.Length0 ==> RowSum(A, i, r.value, A.Length1) == rhs[i]
  {
    alpha, beta := [], [];
    var ok := CheckTridiagonal(A);
    if !ok {
      return Err(NotTridiagonal), alpha, beta;
    }
    var a, main, c := SubDiagonal(A), MainDiagonal(A), SuperDiagonal(A);
    var x;
    x, alpha, beta := ThomasMethod(a, main, c, rhs);
    if x.Err? {
      return Err(SolverFailed(x.error)), alpha, beta;
    }
    var n := A.Length0;
    forall i | 0 <= i < n ensures RowSum(A, i, x.value, n) == rhs[i] {
      BandRow(A, a, main, c, x.value, i);
    }
    r := Ok(x.value);
  }
}
