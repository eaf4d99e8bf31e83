# Numerical-methods coursework, modelled in Dafny

This project models the algorithmic core of a set of Python numerical-methods
lab programs. Every entity and loop of the core has a counterpart here, and
the properties the programs promise are proved about those counterparts:

- **Adding two numbers stored as linked lists** (`lab_4`). Two scripts do
  this. A `ListNode` is a heap object whose `next` field is rewritten in
  place. `list_to_number` reads a list back into an integer through Python's
  `str`/`int` round trip. `addTwoNumbers` builds the list of the sum's
  digits, least significant first. The second script converts the digits
  with `map(int, ...)` before reversing them and adds `linked_list_to_list`.
- **Jacobi relaxation for the Poisson equation** on an N×N grid (`Lab_10`).
  The solver object keeps the grids `u_old`/`u_new`, an iteration counter
  and a status line. It initialises and resets the boundary values and
  performs one Jacobi step with a running maximum change.
- **The Thomas algorithm** for tridiagonal systems, with the tridiagonality
  check and the diagonal extraction of its calculator
  (`The_run_through_method`).
- **Bisection and Newton's method**, and the parameter check of the target
  function (`lab_2`).
- **Midpoint-rectangle and 5/7-point Gauss–Legendre quadrature**, in a
  guarded version and an unguarded one (`Lab_6`).
- **Gauss–Seidel iteration** with an infinity-norm stopping test (`Lab_8`).

Arithmetic is exact: Python floats are Dafny `real`, and Python integers are
unbounded `int`. Integrands, root-finding targets and their derivatives are
abstract total functions `real -> real`. Errors that the programs raise are
modelled as `Option`/`Result` values. A failure the programs do not guard
(a division by zero that numpy turns into `inf`) is a precondition instead.

Modules:

- `Wrappers`: `Option` and `Result`.
- `RealOps`: the absolute value and "lies between" on reals, which several modules share.
- `Decimal`: Python's `str(int)` and `int(str)` over the alphabet `-0123456789`, and `" -> ".join`.
- `LinkedList`: `ListNode` as the class `Node`. A list's shape is a ghost spine `nodes: seq<Node>` (`IsList`), and its contents are `Values(nodes)`. A node's `val` is an immutable field, since the scripts set it only in `__init__`; only `next` is rewired.
- `AddTwo`, `AddTwoBest`: the two `lab_4` scripts.
- `PoissonJacobi`: the grid logic of `PoissonSolverGUI`.
- `Thomas`: `thomas_method` and the checks of `TDMA_GUI.solve`.
- `RootFinding`: the parameter check of `calculate_f`, plus `bisection` and `newton`.
- `Quadrature`, `QuadratureV2`: the two `Lab_6` scripts.
- `GaussSeidel`: `gauss_seidel`.

## Model

| member | source | states |
|---|---|---|
| LinkedList.Node.constructor | lab_4/Add_Two_LeetCode.py:2-4 | The new node holds the given value and successor. |
| LinkedList.Node.AppendNext | lab_4/Add_Two_LeetCode.py:14-18 | Walks to the tail and links a fresh node there. The list stays well formed, grows by one, keeps every earlier node and value, and gains `val` as its last value. |
| LinkedList.Node.ToString | lab_4/Add_Two_LeetCode.py:6-12 | The text is the decimal spellings of the node values, in list order, joined with `" -> "`. |
| LinkedList.LinkNew | lab_4/Add_Two_LeetCode.py:50-52 | `current.next = ListNode(v)`: the list gains exactly one fresh tail node holding `v`, and all earlier values are kept. |
| Decimal.NatToDecimal | lab_4/Add_Two_LeetCode.py:43 | `str(n)` is non-empty and starts with `0` only for n = 0, so it has no leading zeros. |
| Decimal.IntToDecimal | lab_4/Add_Two_LeetCode.py:43 | `str(n)` is never empty. Its exact shape is stated by `IntToDecimalShape`, and `int` of it is n by `ParseIntToDecimal`. |
| Decimal.IntToDecimalShape | lab_4/Add_Two_LeetCode.py:43 | `str(n)` is all digits for n ≥ 0. For n < 0 it is `-` followed by digits. |
| Decimal.ParseInt | lab_4/Add_Two_LeetCode.py:28 | `int(s)` succeeds exactly on a non-empty digit string or on `-` followed by one. An all-digit string gives a non-negative value. |
| Decimal.ParseIntOneChar | lab_4/Add_Two_LeetCode.py:48-51 | `int(d)` of one character is its digit value when it is a digit. Otherwise it raises. |
| Decimal.DigitsValueOfDecimal | lab_4/Add_Two_LeetCode.py:43 | The digits of `str(n)`, read positionally, give back n. |
| Decimal.ParseIntToDecimal | lab_4/Add_Two_LeetCode.py:43-48 | Round trip: `int(str(n)) == n` for every integer n. |
| Decimal.Spellings | lab_4/Add_Two_LeetCode.py:10 | `map(str, vs)`: element i is `str(vs[i])`. |
| Decimal.JoinWithShape | lab_4/Add_Two_LeetCode.py:28 | `sep.join(parts)` starts with the first part and ends with the last. Its length is the parts' total length plus one separator between each two. |
| Decimal.SpellingsLength | lab_4/Add_Two_LeetCode.py:28 | Every `str(v)` of `map(str, vs)` has at least one character. |
| AddTwo.Reversed | lab_4/Add_Two_LeetCode.py:27 | `reverse()`: the same length, with element i taken from position \|s\|-1-i. |
| AddTwo.ListToNumber | lab_4/Add_Two_LeetCode.py:22-28 | The loop collects the values head first and then reverses, joins and parses them. The result is `ListNumber` of the list's values: 0 for an empty list, and `None` where `int` raises. |
| AddTwo.ListNumberOfDigits | lab_4/Add_Two_LeetCode.py:23-28 | For a list of digits 0..9, `list_to_number` is Σ dᵢ·10ⁱ, with the head least significant. |
| AddTwo.ListNumberDefined | lab_4/Add_Two_LeetCode.py:28 | `int` raises exactly when a value other than the most significant one is negative. Non-negative values always give a non-negative number. |
| AddTwo.ConcatLength | lab_4/Add_Two_LeetCode.py:28 | `"".join(map(str, vs))` has at least one character per value. |
| AddTwo.DecimalAllDigits | lab_4/Add_Two_LeetCode.py:28 | `str(v)` is all digits exactly when v ≥ 0. |
| AddTwo.ParseSpelledPrefix | lab_4/Add_Two_LeetCode.py:27-28 | `int(str(v) + tail)` succeeds exactly when `tail` is all digits, whatever the sign of v. It is ≥ 0 when v ≥ 0. |
| AddTwo.ConcatAllDigits | lab_4/Add_Two_LeetCode.py:28 | The joined spellings are all digits exactly when every value is non-negative. |
| AddTwo.DigitStringValue | lab_4/Add_Two_LeetCode.py:27-28 | For digit values, the reversed join has one character per node and reads back as Σ dᵢ·10ⁱ. |
| AddTwo.DecimalDigits | lab_4/Add_Two_LeetCode.py:43-48 | The digit list of n is non-empty and made of digits 0..9. Its last (most significant) digit is non-zero unless n = 0, and then the list is `[0]`. |
| AddTwo.DigitSumOfDecimalDigits | lab_4/Add_Two_LeetCode.py:43-52 | The digit list of n has positional value n. |
| AddTwo.ListNumberOfDecimalDigits | lab_4/Add_Two_LeetCode.py:31-54 | Round trip: `list_to_number` of the list built for n is n. |
| AddTwo.ReversedDecimal | lab_4/Add_Two_LeetCode.py:43-46 | The reversed characters of `str(n)` are digits, and their values are the digit list of n. |
| AddTwo.SumOfParts | lab_4/Add_Two_LeetCode.py:33-52 | When both lists parse, the sum is x + y. The built list is the digit list of x + y when that sum is ≥ 0, and the call raises otherwise. |
| AddTwo.NoSum | lab_4/Add_Two_LeetCode.py:33 | If either `list_to_number` call raises, so does `addTwoNumbers`. |
| AddTwo.NegativeSum | lab_4/Add_Two_LeetCode.py:43-51 | A non-digit character in the reversed spelling occurs only for a negative sum. |
| AddTwo.SumDigits | lab_4/Add_Two_LeetCode.py:43-51 | An all-digit reversed spelling comes from a sum ≥ 0, and its values are that sum's digit list. |
| AddTwo.DigitsToList | lab_4/Add_Two_LeetCode.py:46-52 | The build loop succeeds exactly when every character is a digit. It then returns a fresh well-formed list of their values in order. |
| AddTwo.AddTwoNumbers | lab_4/Add_Two_LeetCode.py:31-54 | The result exists exactly when the sum is defined and non-negative. It is then a fresh list whose values are the sum's digits, least significant first. |
| AddTwo.SumToList | lab_4/Add_Two_LeetCode.py:43-52 | Spelling, reversing and rebuilding the sum succeeds exactly when the sum is ≥ 0. The fresh list then holds its decimal digits, least significant first. |
| AddTwo.AddDigitsReadBack | lab_4/Add_Two_LeetCode.py:31-54 | Round trip: when `addTwoNumbers` returns a list, `list_to_number` of it is `list_to_number(l1) + list_to_number(l2)`. |
| AddTwo.Number342 | lab_4/Add_Two_LeetCode.py:59-62 | The list 2→4→3 reads back as 342. |
| AddTwo.Number465 | lab_4/Add_Two_LeetCode.py:64-67 | The list 5→6→4 reads back as 465. |
| AddTwo.Digits807 | lab_4/Add_Two_LeetCode.py:43-52 | The list built for 807 is 7→0→8. |
| AddTwo.ExampleDigits | lab_4/Add_Two_LeetCode.py:59-69 | 2→4→3 plus 5→6→4 gives 7→0→8. |
| AddTwo.ExampleText | lab_4/Add_Two_LeetCode.py:70 | The printed form of 7→0→8 is `7 -> 0 -> 8`. |
| AddTwo.ThreeNodes | lab_4/Add_Two_LeetCode.py:60-62 | `ListNode(a)` followed by two `append_next` calls holds exactly [a, b, c]. |
| AddTwo.Example | lab_4/Add_Two_LeetCode.py:56-70 | The script's main block produces the text `7 -> 0 -> 8`. |
| AddTwoBest.MapInt | lab_4/Add_Two_LeetCode_Best.py:25 | `list(map(int, s))` keeps the length. The exact behaviour is in `MapIntDigits`. |
| AddTwoBest.MapIntDigits | lab_4/Add_Two_LeetCode_Best.py:25 | `map(int, s)` succeeds exactly on all-digit strings, and then gives the digit values. |
| AddTwoBest.CharValuesReversed | lab_4/Add_Two_LeetCode_Best.py:25-26 | Reversing after `map(int, ...)` equals mapping after reversing. |
| AddTwoBest.ReversedValues | lab_4/Add_Two_LeetCode_Best.py:25-26 | For n ≥ 0, `map(int, str(n))` succeeds, and reversing it gives the digit list of n. |
| AddTwoBest.BuildList | lab_4/Add_Two_LeetCode_Best.py:28-32 | Builds a fresh well-formed list holding exactly the given values. |
| AddTwoBest.AddTwoNumbers | lab_4/Add_Two_LeetCode_Best.py:22-33 | Succeeds exactly when the first script's `addTwoNumbers` does, with the same digit list. |
| AddTwoBest.LinkedListToList | lab_4/Add_Two_LeetCode_Best.py:36-41 | Returns the node values, head first. |
| AddTwoBest.Example | lab_4/Add_Two_LeetCode_Best.py:44-56 | The script prints `[7, 0, 8]`. |
| PoissonJacobi.FillRow | Lab_10/poisson_jacobi.py:44-49 | `u[r, :] = v` sets row r to v and leaves every other entry unchanged. |
| PoissonJacobi.FillColumn | Lab_10/poisson_jacobi.py:50-53 | `u[:, c] = v` sets column c to v and leaves every other entry unchanged. |
| PoissonJacobi.CopyGrid | Lab_10/poisson_jacobi.py:61 | `.copy()` gives a fresh grid of the same shape and the same entries. |
| PoissonJacobi.InitializeGrid | Lab_10/poisson_jacobi.py:34-63 | Two distinct fresh N×N grids. `u_old` is 100 on row 0, corners included, and 0 everywhere else, and `u_new` equals it. |
| PoissonJacobi.PoissonSolver.constructor | Lab_10/poisson_jacobi.py:15-21 | The solver starts with the initial grids in sync, iteration 0 and status "N/A". |
| PoissonJacobi.PoissonSolver.AverageBetween | Lab_10/poisson_jacobi.py:146-151 | The Jacobi value lies between the smallest and the largest of its four neighbours. |
| PoissonJacobi.PoissonSolver.AverageInRange | Lab_10/poisson_jacobi.py:140-151 | Discrete maximum principle: if `u_old` lies in [lo, hi], so does every Jacobi value. |
| PoissonJacobi.PoissonSolver.RelaxRow | Lab_10/poisson_jacobi.py:141-159 | One interior row is set to the four-neighbour averages and nothing else changes. The running maximum covers the row's changes and is either kept or attained. |
| PoissonJacobi.PoissonSolver.JacobiStep | Lab_10/poisson_jacobi.py:130-161 | Every interior `u_new` entry becomes the average of its `u_old` neighbours and the boundary is unchanged. The result is the largest change \|new − old\|, or 0 when there is no interior. |
| PoissonJacobi.PoissonSolver.ApplyStep | Lab_10/poisson_jacobi.py:163-190 | A bad epsilon or an earlier convergence changes nothing. Otherwise the method takes one step and reports the largest interior change of that step: it is ≥ 0, bounds the change of every interior cell, and is 0 or attained at one. It increments the iteration, copies `u_new` into a fresh `u_old`, and sets the status to converged exactly when that change is below epsilon. |
| PoissonJacobi.PoissonSolver.ResetGrid | Lab_10/poisson_jacobi.py:195-209 | New grids: row 0 is 100, column 0 is 50 (the corner included) and the rest is 0. Both grids agree, the iteration is 0 and the status is "N/A". |
| Thomas.SweptExtend | The_run_through_method/gui_calculater.py:16-21 | One more forward row that satisfies the row relation extends the swept prefix. |
| Thomas.SweptStep | The_run_through_method/gui_calculater.py:16-21 | Writing row i's α and β, computed from a pivot with \|denom\| ≥ 1e-12, into coefficients swept up to row i sweeps through row i as well. α is 0 in the last row. |
| Thomas.RowAlgebra | The_run_through_method/gui_calculater.py:17-26 | A row's sweep coefficients plus the back-substitution relations give a·x[i−1] + b·x[i] + c·x[i+1] = d. |
| Thomas.FirstRow | The_run_through_method/gui_calculater.py:14-15 | With α₀ = −c₀/b₀ and β₀ = d₀/b₀, row 0 of the system holds. |
| Thomas.LaterRow | The_run_through_method/gui_calculater.py:17-26 | Every later row of the system holds, the last one included (where α = 0). |
| Thomas.ThomasSolves | The_run_through_method/gui_calculater.py:7-28 | A complete sweep followed by back substitution solves the tridiagonal system. |
| Thomas.ForwardSweep | The_run_through_method/gui_calculater.py:13-21 | Computes α, β row by row. It stops at the first row whose pivot has \|denom\| < 1e-12; otherwise every row satisfies its relation. |
| Thomas.BackStep | The_run_through_method/gui_calculater.py:25-26 | Setting x[i] = α[i]·x[i+1] + β[i] extends the back-substitution relations that hold below row i down to row i. |
| Thomas.BackSubstitution | The_run_through_method/gui_calculater.py:23-26 | x[n−1] = β[n−1], and x[i] = α[i]·x[i+1] + β[i] for every i. |
| Thomas.ThomasMethod | The_run_through_method/gui_calculater.py:7-28 | An empty system is an error. A small pivot is reported at its row. Otherwise the result solves a·x[i−1] + b·x[i] + c·x[i+1] = d in every row. |
| Thomas.CheckTridiagonal | The_run_through_method/gui_calculater.py:111-115 | Accepts exactly the matrices whose entries with \|i − j\| > 1 are zero. |
| Thomas.SubDiagonal | The_run_through_method/gui_calculater.py:118 | Entry i is A[i, i−1], with 0 in row 0. |
| Thomas.MainDiagonal | The_run_through_method/gui_calculater.py:119 | Entry i is A[i, i]. |
| Thomas.SuperDiagonal | The_run_through_method/gui_calculater.py:120 | Entry i is A[i, i+1], with 0 in the last row. |
| Thomas.RowSumBand | The_run_through_method/gui_calculater.py:112-120 | For a tridiagonal matrix, a row sum reduces to its three band terms. |
| Thomas.BandRow | The_run_through_method/gui_calculater.py:118-122 | A full matrix row times x equals the row value formed from the extracted diagonals. |
| Thomas.Solve | The_run_through_method/gui_calculater.py:101-128 | Rejects exactly the non-tridiagonal matrices. The Thomas algorithm then fails only for an empty matrix or at a row k whose pivot on the extracted diagonals is below 1e-12, with every earlier row swept. A result solves A·x = b row by row. |
| RootFinding.CheckParameters | lab_2/my_def_3.py:17-22 | The function rejects j, k and m outside 1..4 in that order, so the first bad one is reported. It passes when all three are in range. |
| RootFinding.SignChangeKept | lab_2/my_def_3.py:49-52 | When f(a) ≠ 0 and f(a)·f(c) ≥ 0, the kept half [c, b] still has a sign change. |
| RootFinding.Halved | lab_2/my_def_3.py:45-52 | Either half of an interval that has been halved i times has the original width divided by 2^(i+1). |
| RootFinding.Narrow | lab_2/my_def_3.py:49-52 | The midpoint replaces exactly one endpoint: b when f(a)·f(c) < 0, a otherwise. The new interval is within the original, has half the width, and keeps the sign change. The rest of the run continues on the kept half. |
| RootFinding.BisectRunStops | lab_2/my_def_3.py:45-48 | An iteration whose midpoint c has \|f(c)\| < tol, or whose half-width is below tol, returns c. |
| RootFinding.BisectAtRoot | lab_2/my_def_3.py:45-48 | A midpoint that is an exact root is returned at once when tol > 0. |
| RootFinding.BisectRunErrors | lab_2/my_def_3.py:41-53 | The loop never reports same-signed ends. That ValueError comes only from the check before it. |
| RootFinding.Bisection | lab_2/my_def_3.py:38-53 | Raises ValueError exactly when f(a)·f(b) > 0. Otherwise the result is `BisectRun`: the first midpoint that passes the stop test is returned, and RuntimeError means all max_iter tests failed. The ghost interval is the last one halved: it lies within [a, b], has width (b − a)/2^steps, and with tol > 0 and f(a) ≠ 0 keeps a sign change. A returned c is its midpoint, with \|f(c)\| < tol or half-width < tol. |
| RootFinding.BisectLoop | lab_2/my_def_3.py:44-53 | The `for` loop of `bisection` computes `BisectRun`. It ends on a bracketing interval halved `steps` times, with steps = max_iter on RuntimeError and the midpoint returned otherwise. |
| RootFinding.Newton | lab_2/my_def_3.py:56-67 | The result equals `NewtonRun`: a zero derivative raises, a step shorter than tol returns x_new, and max_iter steps without either raise. |
| RootFinding.NewtonResult | lab_2/my_def_3.py:58-65 | A returned value is x − f(x)/f′(x) for one of the first max_iter iterates x, with f′(x) ≠ 0 and a step shorter than tol. |
| RootFinding.NewtonZeroDerivative | lab_2/my_def_3.py:61-62 | ZeroDivisionError is raised only when f′ vanishes at one of the first max_iter iterates. |
| RootFinding.NewtonAtRoot | lab_2/my_def_3.py:56-65 | Started at a root with f′ ≠ 0 and tol > 0, `newton` returns that root at once. |
| Quadrature.GaussTable | Lab_6/NumericIntegration_GUI.py:31-40 | The table has entries for m = 5 and m = 7 only, each with m nodes and m weights. |
| Quadrature.TableSymmetric | Lab_6/NumericIntegration_GUI.py:31-40 | In each entry, t[i] = −t[m−1−i], A[i] = A[m−1−i] and the middle node is 0. The nodes increase strictly inside (−1, 1), and every weight is positive. The V2 table holds the same numbers. |
| Quadrature.RectangleMethod | Lab_6/NumericIntegration_GUI.py:44-52 | n ≤ 0 raises. Otherwise the result is h·Σⱼ₌₁..ₙ f(a + (j − ½)h) with h = (b − a)/n. |
| Quadrature.RectSumConstant | Lab_6/NumericIntegration_GUI.py:48-51 | Over a constant integrand c, the n-term midpoint sum is n·c. |
| Quadrature.RectangleConstant | Lab_6/NumericIntegration_GUI.py:47-52 | For a constant integrand c, the rectangle result is exactly c·(b − a). |
| Quadrature.RectNodesInside | Lab_6/NumericIntegration_GUI.py:49-50 | When a < b, every midpoint node lies strictly inside (a, b). |
| Quadrature.WeightedSum | Lab_6/NumericIntegration_GUI.py:62-64 | The loop's result is Σ A[i]·f(xm + xr·t[i]) over all nodes. |
| Quadrature.GaussMethod | Lab_6/NumericIntegration_GUI.py:55-65 | m other than 5 and 7 raises. Otherwise the result is xr·Σ A[i]·f(xm + xr·t[i]). |
| Quadrature.GaussNodeBetween | Lab_6/NumericIntegration_GUI.py:60-64 | A node t in [−1, 1] maps to xm + xr·t, which lies between a and b. The node 0 maps to (a + b)/2. |
| Quadrature.GaussNodesBetween | Lab_6/NumericIntegration_GUI.py:58-64 | Every mapped node of a table entry lies between a and b, and the middle node maps to (a + b)/2. |
| QuadratureV2.RectangleMethod | Lab_6/gauss_and_rectangle_V_2.py:18-24 | For n > 0, the result is h·Σⱼ₌₁..ₙ f(a + (j − ½)h). For n < 0 the range is empty and the result is 0. |
| QuadratureV2.GaussMethod | Lab_6/gauss_and_rectangle_V_2.py:44-54 | m other than 5 and 7 fails at the table lookup. Otherwise the result is the same weighted sum as the guarded version. |
| GaussSeidel.InfDistIsMax | Lab_8/main.py:46 | The ∞-norm distance bounds every componentwise distance and, for non-empty vectors, equals one of them. |
| GaussSeidel.SweepInPlace | Lab_8/main.py:42-45 | Updating x[0..n) in place, with the snapshot x_old held fixed, yields exactly one Gauss–Seidel sweep of x_old. |
| GaussSeidel.Solve | Lab_8/main.py:37-50 | A fresh vector that is the iterate after `sweeps` sweeps from zero, with 1 ≤ sweeps ≤ max_iter. Every earlier sweep moved x by at least eps. Stopping before max_iter sweeps means the last sweep moved x by less than eps. |
| GaussSeidel.PrefixUntouched | Lab_8/main.py:42-45 | Within a sweep, components that have not been reached yet keep their previous values. |
| GaussSeidel.PrefixStable | Lab_8/main.py:42-45 | Once component j is updated, the rest of the sweep leaves it alone. |
| GaussSeidel.DotZero | Lab_8/main.py:43-44 | `np.dot` over a slice where v is all zero is 0, whatever the row of A. |
| GaussSeidel.DotAgree | Lab_8/main.py:43-44 | A sliced dot product depends only on the components in its slice. |
| GaussSeidel.SweepEquation | Lab_8/main.py:42-45 | After a sweep, component i equals (b[i] − Σ_{j<i} A[i,j]·x_new[j] − Σ_{j>i} A[i,j]·x_old[j]) / A[i,i]. |
| GaussSeidel.DotSplit | Lab_8/main.py:43-44 | A row sum splits at any column. |
| GaussSeidel.RowSplit | Lab_8/main.py:43-45 | A full row sum is the part before the diagonal, plus the diagonal term, plus the part after it. |
| GaussSeidel.RowFixed | Lab_8/main.py:45 | The update of row i leaves x[i] unchanged exactly when row i of A·x = b holds. |
| GaussSeidel.PrefixFixed | Lab_8/main.py:42-45 | The first k updates leave x unchanged exactly when x satisfies the first k equations. |
| GaussSeidel.SweepFixedPoint | Lab_8/main.py:42-45 | A sweep leaves x unchanged exactly when x solves A·x = b. |
| GaussSeidel.SolutionStays | Lab_8/main.py:40-45 | Once an iterate solves the system, every later iterate equals it. |

## Left out

- The windows, buttons, message boxes, plots and LaTeX rendering of the GUI programs. This includes the widget methods of `PoissonSolverGUI` and `TDMA_GUI`, the reading of numbers from entry fields, and `_update_display`.
- `PoissonJacobi`: the text of the status line is modelled as a datatype (`NotAvailable`, `MaxDiff`, `Converged`) rather than as formatted strings. Reading epsilon from the entry is a parameter, with `None` for a `float()` failure.
- `PoissonJacobi`: the grid size is the class constant N = 10 in the program. Here it is a constructor argument N ≥ 1.
- `Thomas.ThomasMethod`: requires b[0] ≠ 0. The program divides by b[0] without a check, and for numpy arrays that gives `inf`/`nan` rather than an exception.
- `Thomas.Solve`: requires A[0,0] ≠ 0 for the same reason, but only for a tridiagonal A; a non-tridiagonal A with A[0,0] = 0 is accepted and rejected with `NotTridiagonal`, as the program's scan rejects it before any division. The program's window fixes the size at n = 5; here A may be any square size. Its `ZeroPivot` error stands for the `ValueError` the program shows in a message box.
- `Thomas.ThomasMethod`: takes diagonals of equal length n. The program reads `a[i]` and `c[i]` only for the rows it uses.
- The transcendental target function of `lab_2` (sinh, cos, π) and its derivative are not modelled. `RootFinding` takes f and f′ as abstract functions, and `CheckParameters` models the range checks that `calculate_f` makes before evaluating. `bisection` and `newton` pass j, k and m through to these functions, so here they are folded into f.
- Floating-point rounding, and all accuracy and convergence-rate claims: quadrature error, the Gauss weights summing only to about 2, and the convergence of Jacobi, Newton, bisection and Gauss–Seidel.
- `GaussSeidel.Solve`: requires a square, non-empty system with no zero on the diagonal. For n = 0 the program's `np.linalg.norm` raises, and a zero pivot gives `inf`. The matrix is a value (`seq<seq<real>>`), since the program never writes to it. The console message on convergence or non-convergence is not modelled.
- `QuadratureV2.RectangleMethod`: requires n ≠ 0. For n = 0 the program fails with a division by zero.
- Symbolic integration with sympy, `lambdify`, expression parsing, and the exact integral the scripts print for comparison.
- The module-level test data of `Lab_8/main.py` (a matrix built with fractional powers, `np.linalg.solve`, residual norms) is not part of this model. Neither are `Lab_7/main.py` and `Lab_9/main.py`, which use random numbers, nor `utils/sinh_def.py`.
- `lab_2/main*.py` are not part of this model. They handle CSV output, console input, and a point generator whose point count depends on float rounding.
- `LinkedList.IsList`: the model covers acyclic lists only, ending in `None` with no node repeated. The scripts build only such lists; on a cyclic list `__str__`, `list_to_number` and `linked_list_to_list` would never finish.
- `AddTwoBest`: its `ListNode` is the first script's without `__str__`, and its `list_to_number` is identical to the first script's. Both are modelled once, as `LinkedList.Node` (whose `ToString` only the first script has) and `AddTwo.ListToNumber`.
- `Quadrature.RectangleMethod`: "f is evaluated exactly n times" is stated only through the n-term sum. Calls to f are not counted.
- `Decimal.ParseInt`, `AddTwo.ListToNumber`, `AddTwo.AddTwoNumbers`, `AddTwoBest.AddTwoNumbers`: Python's configurable limit on int/str conversion (`sys.get_int_max_str_digits`, 4300 digits by default since CPython 3.10.7/3.11) is not modelled. Under it, `int(s)` and `str(n)` raise ValueError beyond that many digits, so `list_to_number` of a list longer than the limit and `addTwoNumbers` of such a sum raise. Here they succeed for every length, and so `ListNumberOfDigits` and `ParseIntToDecimal` hold without a length bound.
- Default arguments are not modelled as such. `ListNode(val=0)` always receives a value in the scripts. The defaults `tol=1e-6`, `max_iter=1000` (`lab_2`), `eps=1e-10`, `max_iter=10000` (`Lab_8`) and the initial epsilon 1e-4 (`Lab_10`) are ordinary parameters here.
