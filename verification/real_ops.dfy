/** Small facts about reals shared by the numerical modules. */
module RealOps {

  /** Python's `abs` on a float. */
  function Abs(x: real): (r: real)
    ensures r >= 0.0 && (r == x || r == -x)
  {
    if x < 0.0 then -x else x
  }

  /** `x` lies between `a` and `b`, in whichever order they come. */
  predicate Between(a: real, b: real, x: real) {
    (a <= x <= b) || (b <= x <= a)
  }
}
