/** Optional values and Python's `x or default` idiom. */
module Options {

  /** A value that may be unset (Python `None`, a missing attribute or an empty cell). */
  datatype Option<+T> = None | Some(value: T)

  /** An outcome that is either a value or the error the source raises instead. */
  datatype Result<+T, +E> = Success(value: T) | Failure(error: E)

  /** Python `x or d` on an optional integer: unset and `0` are both falsy and give `d`. */
  function IntOr(x: Option<int>, d: int): (r: int)
    ensures x.Some? && x.value != 0 ==> r == x.value
    ensures (x.None? || x.value == 0) ==> r == d
  {
    match x
    case Some(v) => if v != 0 then v else d
    case None => d
  }

  /** Python `x or ""` on an optional string: unset and `""` both give `""`. */
  function TextOr(x: Option<string>): (r: string)
    ensures x.Some? ==> r == x.value
    ensures x.None? ==> r == ""
  {
    match x
    case Some(v) => v
    case None => ""
  }
}
