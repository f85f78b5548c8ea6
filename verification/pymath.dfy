/** Python's integer operators where they differ from Dafny's. */
module PyMath {
  import opened Outcomes

  function Abs(x: int): nat { if x < 0 then -x else x }

  /** Python's `a % n`. Dafny's `%` is never negative; Python's takes the
      sign of `n`, so for `n < 0` a nonzero Euclidean remainder `e` becomes
      `e + n`. `n == 0` raises `ZeroDivisionError` (here `None`). */
  function PyMod(a: int, n: int): (r: Option<int>)
    ensures r.None? <==> n == 0
    ensures r.Some? && n > 0 ==> 0 <= r.value < n
    ensures r.Some? && n < 0 ==> n < r.value <= 0
    ensures r.Some? ==> (r.value == 0 <==> a % Abs(n) == 0)
  {
    if n == 0 then None
    else if n > 0 then Some(a % n)
    else
      var e := a % (-n);
      Some(if e == 0 then 0 else e + n)
  }

  /** Python's `int(a / b)` for `b > 0`: true division, truncated toward
      zero (Dafny's `/` rounds toward negative infinity instead). */
  function TruncDiv(a: int, b: int): (r: int)
    requires b > 0
    ensures Abs(r) == Abs(a) / b
    ensures a >= 0 ==> r >= 0
    ensures a < 0 ==> r <= 0
  {
    if a >= 0 then a / b else -((-a) / b)
  }
}
