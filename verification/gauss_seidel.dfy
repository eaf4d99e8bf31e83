/**
 * Lab_8/main.py: `gauss_seidel`.  The iterate `x` is overwritten in place,
 * component by component: row i uses the components before it from the
 * current sweep and the ones after it from the snapshot `x_old` taken at
 * the start of the sweep.  Arithmetic is exact.
 */
module GaussSeidel {
  import opened RealOps

  /** A square, non-empty system with a right-hand side of matching length and no zero on the diagonal. */
  ghost predicate System(A: seq<seq<real>>, b: seq<real>)
  {
    && |A| >= 1 && |b| == |A| && (forall i :: 0 <= i < |A| ==> |A[i]| == |A|)
    && forall i :: 0 <= i < |A| ==> A[i][i] != 0.0
  }

  /** `np.dot(A[i, lo:hi], v[lo:hi])`. */
  function Dot(A: seq<seq<real>>, i: nat, v: seq<real>, lo: nat, hi: nat): real
    requires i < |A| && lo <= hi <= |A[i]| && |v| == |A[i]|
    decreases hi - lo
  {
    if lo == hi then 0.0 else Dot(A, i, v, lo, hi - 1) + A[i][hi - 1] * v[hi - 1]
  }

  /** A slice of `v` that holds only zeros contributes nothing, whatever the row of `A`. */
  lemma {:induction false} DotZero(A: seq<seq<real>>, i: nat, v: seq<real>, lo: nat, hi: nat)
    requires i < |A| && lo <= hi <= |A[i]| && |v| == |A[i]|
    requires forall j :: lo <= j < hi ==> v[j] == 0.0
    ensures Dot(A, i, v, lo, hi) == 0.0
    decreases hi - lo
  {
    if lo < hi {
      DotZero(A, i, v, lo, hi - 1);
    }
  }

  /** `np.linalg.norm(u - v, ord=np.inf)`: the largest componentwise distance. */
  function InfDist(u: seq<real>, v: seq<real>): real
    requires |u| == |v|
  {
    if |u| == 0 then 0.0
    else
      var d := Abs(u[|u| - 1] - v[|u| - 1]);
      var rest := InfDist(u[..|u| - 1], v[..|u| - 1]);
      if d < rest then rest else d
  }

  /** `InfDist` bounds every componentwise distance and, for non-empty vectors, equals one of them. */
  lemma {:induction false} InfDistIsMax(u: seq<real>, v: seq<real>)
    requires |u| == |v|
    ensures InfDist(u, v) >= 0.0
    ensures forall i :: 0 <= i < |u| ==> Abs(u[i] - v[i]) <= InfDist(u, v)
    ensures |u| >= 1 ==> exists i :: 0 <= i < |u| && Abs(u[i] - v[i]) == InfDist(u, v)
  {
    if |u| > 0 {
      var u', v' := u[..|u| - 1], v[..|u| - 1];
      InfDistIsMax(u', v');
      assert forall i :: 0 <= i < |u'| ==> u'[i] == u[i] && v'[i] == v[i];
      if |u'| >= 1 {
        var i :| 0 <= i < |u'| && Abs(u'[i] - v'[i]) == InfDist(u', v');
        assert Abs(u[i] - v[i]) == InfDist(u', v');
      }
    }
  }

  /** The new value of component i, from the current components before it and the previous ones after it. */
  function RowUpdate(A: seq<seq<real>>, b: seq<real>, cur: seq<real>, prev: seq<real>, i: nat): real
    requires System(A, b) && |cur| == |prev| == |A| && i < |A|
  {
    (b[i] - Dot(A, i, cur, 0, i) - Dot(A, i, prev, i + 1, |A|)) / A[i][i]
  }

  /** The vector after the first `k` components of a sweep from `prev` have been updated. */
  ghost function SweepPrefix(A: seq<seq<real>>, b: seq<real>, prev: seq<real>, k: nat): (r: seq<real>)
    requires System(A, b) && |prev| == |A| && k <= |A|
    ensures |r| == |A|
  {
    if k == 0 then prev
    else
      var p := SweepPrefix(A, b, prev, k - 1);
      p[k - 1 := RowUpdate(A, b, p, prev, k - 1)]
  }

  /** One full sweep from `prev`. */
  ghost function Sweep(A: seq<seq<real>>, b: seq<real>, prev: seq<real>): (r: seq<real>)
    requires System(A, b) && |prev| == |A|
    ensures |r| == |A|
  {
    SweepPrefix(A, b, prev, |A|)
  }

  /** The iterate after `k` sweeps from the zero vector. */
  ghost function Iterate(A: seq<seq<real>>, b: seq<real>, k: nat): (r: seq<real>)
    requires System(A, b)
    ensures |r| == |A|
  {
    if k == 0 then seq(|A|, _ => 0.0) else Sweep(A, b, Iterate(A, b, k - 1))
  }

  /** How far sweep `k` moved the iterate, in the infinity norm. */
  ghost function Change(A: seq<seq<real>>, b: seq<real>, k: nat): real
    requires System(A, b) && k >= 1
  {
    InfDist(Iterate(A, b, k), Iterate(A, b, k - 1))
  }

  /** Each of the first `k` sweeps moved the iterate by at least eps. */
  ghost predicate AllMoved(A: seq<seq<real>>, b: seq<real>, eps: real, k: nat)
    requires System(A, b)
  {
    forall j :: 1 <= j <= k ==> Change(A, b, j) >= eps
  }

  /** The inner loop of `gauss_seidel`: one sweep over `x`, with `xOld` its snapshot. */
  method SweepInPlace(A: seq<seq<real>>, b: seq<real>, x: array<real>, xOld: seq<real>)
    requires System(A, b) && x.Length == |A| && x[..] == xOld
    modifies x
    ensures x[..] == Sweep(A, b, xOld)
  {
    var n := |A|;
    for i := 0 to n
      invariant x[..] == SweepPrefix(A, b, xOld, i)
    {
      var s1 := Dot(A, i, x[..], 0, i);
      var s2 := Dot(A, i, xOld, i + 1, n);
      x[i] := (b[i] - s1 - s2) / A[i][i];
    }
  }

  /**
   * `gauss_seidel(A, b, eps, max_iter)`.  The ghost `sweeps` counts the
   * sweeps done: the result is the iterate after them; every sweep before
   * the last moved x by at least eps, and stopping before `max_iter`
   * sweeps means the last one moved it by less.
   */
  method Solve(A: seq<seq<real>>, b: seq<real>, eps: real, maxIter: nat) returns (x: array<real>, ghost sweeps: nat)
    requires System(A, b)
    ensures fresh(x) && x.Length == |A|
    ensures sweeps <= maxIter && (maxIter >= 1 ==> sweeps >= 1)
    ensures x[..] == Iterate(A, b, sweeps)
    ensures forall k :: 1 <= k < sweeps ==> Change(A, b, k) >= eps
    ensures 1 <= sweeps < maxIter ==> Change(A, b, sweeps) < eps
  {
    var n := |A|;
    x := new real[n](_ => 0.0);
    assert x[..] == Iterate(A, b, 0);
    for k := 0 to maxIter
      invariant x[..] == Iterate(A, b, k)
      invariant AllMoved(A, b, eps, k)
    {
      var xOld := x[..];
      SweepInPlace(A, b, x, xOld);
      assert x[..] == Iterate(A, b, k + 1);
      if InfDist(x[..], xOld) < eps {
        return x, k + 1;
      }
      assert Change(A, b, k + 1) >= eps;
      assert AllMoved(A, b, eps, k + 1) by {
        forall j | 1 <= j <= k + 1
          ensures Change(A, b, j) >= eps
        {
        }
      }
    }
    sweeps := maxIter;
  }

  // ---------------------------------------------------------------------
  // Properties of a sweep
  // ---------------------------------------------------------------------

  /** A sweep prefix leaves the components from k onwards as they were. */
  lemma {:induction false} PrefixUntouched(A: seq<seq<real>>, b: seq<real>, prev: seq<real>, k: nat, j: nat)
    requires System(A, b) && |prev| == |A| && k <= j < |A|
    ensures SweepPrefix(A, b, prev, k)[j] == prev[j]
  {
    if k > 0 {
      PrefixUntouched(A, b, prev, k - 1, j);
    }
  }

  /** Once component j has been updated, later updates of the sweep leave it alone. */
  lemma {:induction false} PrefixStable(A: seq<seq<real>>, b: seq<real>, prev: seq<real>, k: nat, j: nat)
    requires System(A, b) && |prev| == |A| && j < k <= |A|
    ensures SweepPrefix(A, b, prev, k)[j] == SweepPrefix(A, b, prev, j + 1)[j]
  {
    if k > j + 1 {
      PrefixStable(A, b, prev, k - 1, j);
    }
  }

  /** A dot product only looks at the components in its range. */
  lemma {:induction false} DotAgree(A: seq<seq<real>>, i: nat, u: seq<real>, v: seq<real>, lo: nat, hi: nat)
    requires i < |A| && lo <= hi <= |A[i]| && |u| == |v| == |A[i]|
    requires forall j :: lo <= j < hi ==> u[j] == v[j]
    ensures Dot(A, i, u, lo, hi) == Dot(A, i, v, lo, hi)
    decreases hi - lo
  {
    if lo < hi {
      DotAgree(A, i, u, v, lo, hi - 1);
    }
  }

  /**
   * The Gauss–Seidel equations: after a sweep from `prev`, component i is
   * the row-i update computed from the new components before it and the
   * previous components after it.
   */
  lemma SweepEquation(A: seq<seq<real>>, b: seq<real>, prev: seq<real>, i: nat)
    requires System(A, b) && |prev| == |A| && i < |A|
    ensures Sweep(A, b, prev)[i] == RowUpdate(A, b, Sweep(A, b, prev), prev, i)
  {
    var y, p := Sweep(A, b, prev), SweepPrefix(A, b, prev, i);
    PrefixStable(A, b, prev, |A|, i);
    forall j | 0 <= j < i
      ensures p[j] == y[j]
    {
      PrefixStable(A, b, prev, i, j);
      PrefixStable(A, b, prev, |A|, j);
    }
    DotAgree(A, i, p, y, 0, i);
  }

  /** The full row sum splits at the diagonal. */
  lemma {:induction false} DotSplit(A: seq<seq<real>>, i: nat, v: seq<real>, lo: nat, mid: nat, hi: nat)
    requires i < |A| && lo <= mid <= hi <= |A[i]| && |v| == |A[i]|
    ensures Dot(A, i, v, lo, hi) == Dot(A, i, v, lo, mid) + Dot(A, i, v, mid, hi)
    decreases hi - mid
  {
    if mid < hi {
      DotSplit(A, i, v, lo, mid, hi - 1);
    }
  }

  /** Row i of A x equals b[i]. */
  ghost predicate RowHolds(A: seq<seq<real>>, b: seq<real>, xs: seq<real>, i: nat)
    requires System(A, b) && |xs| == |A| && i < |A|
  {
    Dot(A, i, xs, 0, |A|) == b[i]
  }

  /** Scalar form of a row: (bi - d1 - d2) / p is x exactly when d1 + p x + d2 is bi. */
  lemma RowAlgebra(bi: real, d1: real, d2: real, p: real, x: real)
    requires p != 0.0
    ensures (bi - d1 - d2) / p == x <==> d1 + p * x + d2 == bi
  {
    var q := bi - d1 - d2;
    if q / p == x {
      assert q == p * (q / p);
    }
  }

  /** The diagonal term of row i. */
  lemma DotOne(A: seq<seq<real>>, i: nat, v: seq<real>, j: nat)
    requires i < |A| && j < |A[i]| && |v| == |A[i]|
    ensures Dot(A, i, v, j, j + 1) == A[i][j] * v[j]
  {
    assert Dot(A, i, v, j, j) == 0.0;
  }

  /** Row i, split around its diagonal term. */
  lemma RowSplit(A: seq<seq<real>>, i: nat, v: seq<real>)
    requires i < |A| && |A[i]| == |A| && |v| == |A|
    ensures Dot(A, i, v, 0, |A|) == Dot(A, i, v, 0, i) + A[i][i] * v[i] + Dot(A, i, v, i + 1, |A|)
  {
    var n := |A|;
    DotSplit(A, i, v, 0, i, n);
    DotSplit(A, i, v, i, i + 1, n);
    DotOne(A, i, v, i);
  }

  /** Row i is unchanged by its update exactly when it holds as an equation. */
  lemma RowFixed(A: seq<seq<real>>, b: seq<real>, xs: seq<real>, i: nat)
    requires System(A, b) && |xs| == |A| && i < |A|
    ensures RowUpdate(A, b, xs, xs, i) == xs[i] <==> RowHolds(A, b, xs, i)
  {
    var n := |A|;
    var d1, d2, p, x := Dot(A, i, xs, 0, i), Dot(A, i, xs, i + 1, n), A[i][i], xs[i];
    RowSplit(A, i, xs);
    assert Dot(A, i, xs, 0, n) == d1 + p * x + d2;
    assert RowUpdate(A, b, xs, xs, i) == (b[i] - d1 - d2) / p;
    RowAlgebra(b[i], d1, d2, p, x);
  }

  /**
   * The first k updates of a sweep from `xs` leave it unchanged exactly
   * when xs satisfies the first k equations.
   */
  lemma {:induction false} PrefixFixed(A: seq<seq<real>>, b: seq<real>, xs: seq<real>, k: nat)
    requires System(A, b) && |xs| == |A| && k <= |A|
    ensures SweepPrefix(A, b, xs, k) == xs <==> forall i :: 0 <= i < k ==> RowHolds(A, b, xs, i)
  {
    if k > 0 {
      PrefixFixed(A, b, xs, k - 1);
      var p := SweepPrefix(A, b, xs, k - 1);
      RowFixed(A, b, xs, k - 1);
      if SweepPrefix(A, b, xs, k) == xs {
        PrefixUntouched(A, b, xs, k - 1, k - 1);
        assert forall j :: 0 <= j < |xs| ==> p[j] == xs[j] by {
          forall j | 0 <= j < |xs|
            ensures p[j] == xs[j]
          {
            if j != k - 1 {
              assert SweepPrefix(A, b, xs, k)[j] == p[j];
            }
          }
        }
        assert p == xs;
      }
    }
  }

  /** A sweep leaves x unchanged exactly when x solves A x = b. */
  lemma SweepFixedPoint(A: seq<seq<real>>, b: seq<real>, xs: seq<real>)
    requires System(A, b) && |xs| == |A|
    ensures Sweep(A, b, xs) == xs <==> forall i :: 0 <= i < |A| ==> RowHolds(A, b, xs, i)
  {
    PrefixFixed(A, b, xs, |A|);
  }

  /** Once an iterate solves the system, every later iterate equals it. */
  lemma {:induction false} SolutionStays(A: seq<seq<real>>, b: seq<real>, k: nat, m: nat)
    requires System(A, b) && k <= m
    requires forall i :: 0 <= i < |A| ==> RowHolds(A, b, Iterate(A, b, k), i)
    ensures Iterate(A, b, m) == Iterate(A, b, k)
    decreases m - k
  {
    if k < m {
      SolutionStays(A, b, k, m - 1);
      SweepFixedPoint(A, b, Iterate(A, b, k));
    }
  }
}
