/**
 * Lab_10: Jacobi relaxation for the Dirichlet problem of Laplace's
 * equation on an N x N grid (h1 = h2, f = 0).  `PoissonSolver` keeps the
 * two grids `uOld` and `uNew`, the iteration counter and the status line
 * of the window; the widgets themselves are not modelled.
 */
module PoissonJacobi {
  import opened Wrappers
  import opened RealOps

  function Min(x: real, y: real): (r: real)
    ensures r <= x && r <= y && (r == x || r == y)
  {
    if x <= y then x else y
  }

  function Max(x: real, y: real): (r: real)
    ensures r >= x && r >= y && (r == x || r == y)
  {
    if x >= y then x else y
  }

  /** Every entry of the grid lies in [lo, hi]. */
  ghost predicate InRange(a: array2<real>, lo: real, hi: real)
    reads a
  {
    forall i, j :: 0 <= i < a.Length0 && 0 <= j < a.Length1 ==> lo <= a[i, j] <= hi
  }

  /** The text of the status line, by kind: "Max Diff: N/A", "Max Diff: ...", "Сходимость (ε=...) достигнута!". */
  datatype Status = NotAvailable | MaxDiff(diff: real) | Converged(epsilon: real)

  /** How a press of the step button ends. */
  datatype StepOutcome =
    | InvalidEpsilon       // `float(...)` raised ValueError
    | AlreadyConverged     // the status line already reports convergence
    | Stepped(maxDiff: real)

  /** `a[r, :] = v`. */
  method FillRow(a: array2<real>, r: nat, v: real)
    requires r < a.Length0
    modifies a
    ensures forall i, j :: 0 <= i < a.Length0 && 0 <= j < a.Length1 ==>
      a[i, j] == if i == r then v else old(a[i, j])
  {
    var j := 0;
    while j < a.Length1
      invariant 0 <= j <= a.Length1
      invariant forall i, k :: 0 <= i < a.Length0 && 0 <= k < a.Length1 ==>
        a[i, k] == if i == r && k < j then v else old(a[i, k])
    {
      a[r, j] := v;
      j := j + 1;
    }
  }

  /** `a[:, c] = v`. */
  method FillColumn(a: array2<real>, c: nat, v: real)
    requires c < a.Length1
    modifies a
    ensures forall i, j :: 0 <= i < a.Length0 && 0 <= j < a.Length1 ==>
      a[i, j] == if j == c then v else old(a[i, j])
  {
    var i := 0;
    while i < a.Length0
      invariant 0 <= i <= a.Length0
      invariant forall k, j :: 0 <= k < a.Length0 && 0 <= j < a.Length1 ==>
        a[k, j] == if j == c && k < i then v else old(a[k, j])
    {
      a[i, c] := v;
      i := i + 1;
    }
  }

  /** `a.copy()`: a fresh grid with the same entries. */
  method CopyGrid(a: array2<real>) returns (b: array2<real>)
    ensures fresh(b) && b.Length0 == a.Length0 && b.Length1 == a.Length1
    ensures forall i, j :: 0 <= i < a.Length0 && 0 <= j < a.Length1 ==> b[i, j] == a[i, j]
  {
    b := new real[a.Length0, a.Length1];
    var i := 0;
    while i < a.Length0
      invariant 0 <= i <= a.Length0
      invariant forall k, j :: 0 <= k < i && 0 <= j < a.Length1 ==> b[k, j] == a[k, j]
    {
      var j := 0;
      while j < a.Length1
        invariant 0 <= j <= a.Length1
        invariant forall k, l :: 0 <= k < i && 0 <= l < a.Length1 ==> b[k, l] == a[k, l]
        invariant forall l :: 0 <= l < j ==> b[i, l] == a[i, l]
      {
        b[i, j] := a[i, j];
        j := j + 1;
      }
      i := i + 1;
    }
  }

  /** The start grid: the top row (corners included) at 100, everything else at 0. */
  function InitialValue(i: int, j: int): real
  {
    if i == 0 then 100.0 else 0.0
  }

  /** After a reset: the left column at 50 (the top-left corner too), the rest of the top row at 100, the rest 0. */
  function ResetValue(i: int, j: int): real
  {
    if j == 0 then 50.0 else if i == 0 then 100.0 else 0.0
  }

  /**
   * `_initialize_grid(N)`: the boundary writes in the order the source
   * makes them (`-1` is index n - 1), the two corner corrections, and
   * `u_new` replaced by a copy of `u_old`.
   */
  method InitializeGrid(n: nat) returns (uOld: array2<real>, uNew: array2<real>)
    requires n >= 1
    ensures fresh(uOld) && fresh(uNew) && uOld != uNew
    ensures uOld.Length0 == n && uOld.Length1 == n && uNew.Length0 == n && uNew.Length1 == n
    ensures forall i, j :: 0 <= i < n && 0 <= j < n ==> uOld[i, j] == InitialValue(i, j)
    ensures forall i, j :: 0 <= i < n && 0 <= j < n ==> uNew[i, j] == uOld[i, j]
  {
    uOld := new real[n, n]((i, j) => 0.0);
    uNew := new real[n, n]((i, j) => 0.0);
    FillRow(uOld, 0, 100.0);
    FillRow(uNew, 0, 100.0);
    FillRow(uOld, n - 1, 0.0);
    FillRow(uNew, n - 1, 0.0);
    FillColumn(uOld, 0, 0.0);
    FillColumn(uNew, 0, 0.0);
    FillColumn(uOld, n - 1, 0.0);
    FillColumn(uNew, n - 1, 0.0);
    assert forall i, j :: 0 <= i < n && 0 <= j < n ==>
      uOld[i, j] == if j == 0 || j == n - 1 || i == n - 1 then 0.0 else InitialValue(i, j);
    uOld[0, 0] := 100.0;
    uOld[0, n - 1] := 100.0;
    uNew := CopyGrid(uOld);
  }

  class PoissonSolver {
    const N: nat
    var uOld: array2<real>
    var uNew: array2<real>
    var iteration: nat
    var status: Status

    /** Both grids are N x N and are distinct arrays. */
    ghost predicate Valid()
      reads this
    {
      && N >= 1
      && uOld.Length0 == N && uOld.Length1 == N
      && uNew.Length0 == N && uNew.Length1 == N
      && uOld != uNew
    }

    /** Between steps the two grids hold the same values. */
    ghost predicate Synced()
      reads this, uOld, uNew
      requires Valid()
    {
      forall i, j :: 0 <= i < N && 0 <= j < N ==> uOld[i, j] == uNew[i, j]
    }

    /** The mean of the four old neighbours of an interior cell. */
    function Average(i: int, j: int): real
      reads this, uOld
      requires Valid() && 1 <= i < N - 1 && 1 <= j < N - 1
    {
      (uOld[i + 1, j] + uOld[i - 1, j] + uOld[i, j + 1] + uOld[i, j - 1]) / 4.0
    }

    /** How far the Jacobi update moves an interior cell. */
    function Change(i: int, j: int): real
      reads this, uOld
      requires Valid() && 1 <= i < N - 1 && 1 <= j < N - 1
    {
      Abs(Average(i, j) - uOld[i, j])
    }

    /**
     * `m` is the largest change of an interior cell: it is at least 0,
     * bounds every change, and is 0 or attained at some interior cell.
     */
    ghost predicate IsMaxChange(m: real)
      reads this, uOld
      requires Valid()
    {
      && m >= 0.0
      && (forall i, j :: 1 <= i < N - 1 && 1 <= j < N - 1 ==> Change(i, j) <= m)
      && (m == 0.0 || exists i, j :: 1 <= i < N - 1 && 1 <= j < N - 1 && Change(i, j) == m)
    }

    /** A new interior value lies between the smallest and the largest of its four old neighbours. */
    lemma AverageBetween(i: int, j: int)
      requires Valid() && 1 <= i < N - 1 && 1 <= j < N - 1
      ensures Min(Min(uOld[i + 1, j], uOld[i - 1, j]), Min(uOld[i, j + 1], uOld[i, j - 1])) <= Average(i, j)
      ensures Average(i, j) <= Max(Max(uOld[i + 1, j], uOld[i - 1, j]), Max(uOld[i, j + 1], uOld[i, j - 1]))
    {
    }

    /** Discrete maximum principle: bounds on the old grid bound every new interior value. */
    lemma AverageInRange(lo: real, hi: real)
      requires Valid() && InRange(uOld, lo, hi)
      ensures forall i, j :: 1 <= i < N - 1 && 1 <= j < N - 1 ==> lo <= Average(i, j) <= hi
    {
      forall i, j | 1 <= i < N - 1 && 1 <= j < N - 1 ensures lo <= Average(i, j) <= hi {
        AverageBetween(i, j);
      }
    }

    /** `__init__` with the grid size as a parameter (the window fixes it at 10). */
    constructor (n: nat)
      requires n >= 1
      ensures N == n && Valid() && Synced()
      ensures forall i, j :: 0 <= i < n && 0 <= j < n ==> uOld[i, j] == InitialValue(i, j)
      ensures iteration == 0 && status == NotAvailable
      ensures fresh(uOld) && fresh(uNew)
    {
      N := n;
      var a, b := InitializeGrid(n);
      uOld, uNew := a, b;
      iteration := 0;
      status := NotAvailable;
    }

    /**
     * One pass of the inner loop of `_jacobi_step`, over row `i`: the
     * interior cells of that row get their averages, and the running
     * maximum grows to cover their changes.
     */
    method RelaxRow(i: int, maxIn: real) returns (maxOut: real, ghost wc: int)
      requires Valid() && 1 <= i < N - 1 && maxIn >= 0.0
      modifies uNew
      ensures forall r, c :: 0 <= r < N && 0 <= c < N ==>
        uNew[r, c] == if r == i && 1 <= c < N - 1 then Average(r, c) else old(uNew[r, c])
      ensures maxOut >= maxIn
      ensures forall c :: 1 <= c < N - 1 ==> Change(i, c) <= maxOut
      ensures maxOut == maxIn || (1 <= wc < N - 1 && Change(i, wc) == maxOut)
    {
      maxOut, wc := maxIn, 0;
      var j := 1;
      while j < N - 1
        invariant 1 <= j <= N - 1
        invariant forall r, c :: 0 <= r < N && 0 <= c < N ==>
          uNew[r, c] == if r == i && 1 <= c < j then Average(r, c) else old(uNew[r, c])
        invariant maxOut >= maxIn
        invariant forall c :: 1 <= c < j ==> Change(i, c) <= maxOut
        invariant maxOut == maxIn || (1 <= wc < j && Change(i, wc) == maxOut)
      {
        var sumNeighbors := uOld[i + 1, j] + uOld[i - 1, j] + uOld[i, j + 1] + uOld[i, j - 1];
        var newVal := sumNeighbors / 4.0;
        uNew[i, j] := newVal;
        var diff := Abs(newVal - uOld[i, j]);
        if diff > maxOut {
          maxOut, wc := diff, j;
        }
        j := j + 1;
      }
    }

    /**
     * `_jacobi_step`: every interior cell of `uNew` becomes the mean of
     * its four neighbours in `uOld`; nothing else is written.  The result
     * is the largest change of an interior cell, or 0 without interior.
     */
    method JacobiStep() returns (maxDiff: real)
      requires Valid()
      modifies uNew
      ensures forall i, j :: 0 <= i < N && 0 <= j < N ==>
        uNew[i, j] == if 1 <= i < N - 1 && 1 <= j < N - 1 then Average(i, j) else old(uNew[i, j])
      ensures IsMaxChange(maxDiff)
    {
      maxDiff := 0.0;
      ghost var wr, wc := 0, 0;
      var i := 1;
      while i < N - 1
        invariant 1 <= i <= if N >= 2 then N - 1 else 1
        invariant forall r, c :: 0 <= r < N && 0 <= c < N ==>
          uNew[r, c] == if 1 <= r < i && 1 <= c < N - 1 then Average(r, c) else old(uNew[r, c])
        invariant maxDiff >= 0.0
        invariant forall r, c :: 1 <= r < i && 1 <= c < N - 1 ==> Change(r, c) <= maxDiff
        invariant maxDiff == 0.0 || (1 <= wr < i && 1 <= wc < N - 1 && Change(wr, wc) == maxDiff)
      {
        var rowMax;
        ghost var c;
        rowMax, c := RelaxRow(i, maxDiff);
        if rowMax != maxDiff {
          wr, wc := i, c;
        }
        maxDiff := rowMax;
        i := i + 1;
      }
    }

    /**
     * `_apply_step`, given the parsed entry (`None` when `float` raises):
     * one Jacobi step, the counter advanced, `uOld` replaced by a copy of
     * `uNew`, and the status line set to the change or to convergence.
     */
    method ApplyStep(epsilon: Option<real>) returns (outcome: StepOutcome)
      requires Valid()
      modifies this, uNew
      ensures Valid()
      ensures outcome == InvalidEpsilon <==> epsilon.None?
      ensures outcome == AlreadyConverged <==> epsilon.Some? && old(status).Converged?
      ensures !outcome.Stepped? ==>
        uOld == old(uOld) && uNew == old(uNew) && iteration == old(iteration) && status == old(status)
        && unchanged(uNew)
      ensures outcome.Stepped? ==> uNew == old(uNew) && fresh(uOld) && iteration == old(iteration) + 1
      ensures outcome.Stepped? ==> Synced()
      ensures outcome.Stepped? ==> forall i, j :: 0 <= i < N && 0 <= j < N ==>
        uNew[i, j] == if 1 <= i < N - 1 && 1 <= j < N - 1 then old(Average(i, j)) else old(uNew[i, j])
      ensures outcome.Stepped? ==> old(IsMaxChange(outcome.maxDiff))
      ensures outcome.Stepped? ==>
        status == if outcome.maxDiff < epsilon.value then Converged(epsilon.value) else MaxDiff(outcome.maxDiff)
    {
      if epsilon.None? {
        return InvalidEpsilon;
      }
      if status.Converged? {
        return AlreadyConverged;
      }
      var maxDiff := JacobiStep();
      iteration := iteration + 1;
      uOld := CopyGrid(uNew);
      status := MaxDiff(maxDiff);
      if maxDiff < epsilon.value {
        status := Converged(epsilon.value);
      }
      outcome := Stepped(maxDiff);
    }

    /**
     * `_reset_grid`: fresh grids as at start-up, then the top row at 100
     * and the left column at 50 (written last, so the top-left corner is
     * 50), the counter at 0 and the status line back to "N/A".
     */
    method ResetGrid()
      requires Valid()
      modifies this
      ensures Valid() && Synced() && fresh(uOld) && fresh(uNew)
      ensures forall i, j :: 0 <= i < N && 0 <= j < N ==> uOld[i, j] == ResetValue(i, j)
      ensures iteration == 0 && status == NotAvailable
    {
      var a, b := InitializeGrid(N);
      FillRow(a, 0, 100.0);
      FillRow(b, 0, 100.0);
      FillColumn(a, 0, 50.0);
      FillColumn(b, 0, 50.0);
      uOld, uNew := a, b;
      iteration := 0;
      status := NotAvailable;
    }
  }
}
