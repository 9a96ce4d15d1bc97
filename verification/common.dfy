/** Small shared vocabulary: an optional value (the source's `T | null`) and
    the integer maximum used for `Math.max`. */
module Common {

  /** A value that may be absent; `None` models JavaScript's `null`. */
  datatype Option<T> = None | Some(value: T)

  /** `Math.max` on integers. */
  function Max(a: int, b: int): (m: int)
    ensures m >= a && m >= b
    ensures m == a || m == b
  {
    if a >= b then a else b
  }

  function Min(a: int, b: int): (m: int)
    ensures m <= a && m <= b
    ensures m == a || m == b
  {
    if a <= b then a else b
  }
}
