/** Shapes for the modelled programs' nullable values, raised errors and unchecked numbers, and what several
    modules need. */
module Wrappers {
  datatype Option<+T> = None | Some(value: T) {
    function GetOr(default: T): T {
      if Some? then value else default
    }
  }

  datatype Result<+T, +E> = Success(value: T) | Failure(error: E)

  /** A JavaScript number: finite, or NaN or an infinity. */
  datatype Number = NonFinite | Finite(v: real)

  function Max(a: real, b: real): real { if a >= b then a else b }

  predicate NoRepeats<T(==)>(s: seq<T>) {
    forall i, j :: 0 <= i < j < |s| ==> s[i] != s[j]
  }
}
