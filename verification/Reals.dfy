/** Small functions on reals, and maps to reals read with a default of zero. */
module Reals {
  function Abs(x: real): real {
    if x < 0.0 then -x else x
  }

  function Min(x: real, y: real): real {
    if y < x then y else x
  }

  function Max(x: real, y: real): real {
    if y > x then y else x
  }

  /** max(lo, min(hi, x)). */
  function Clamp(lo: real, hi: real, x: real): (r: real)
    ensures lo <= x <= hi ==> r == x
    ensures lo <= hi ==> lo <= r <= hi && (x < lo ==> r == lo) && (x > hi ==> r == hi)
  {
    Max(lo, Min(hi, x))
  }

  /** A product under a name, for statements that need not look inside it. */
  function Times(x: real, y: real): real {
    x * y
  }

  /** dict.get(k, 0.0). */
  function Get<K>(m: map<K, real>, k: K): real {
    if k in m then m[k] else 0.0
  }
}
