/** Failure-carrying values, and one sequence fact, shared by the modules of this model. */
module Wrappers {

  datatype Option<+T> = None | Some(value: T) {
    function GetOr(default: T): T {
      match this
      case Some(v) => v
      case None => default
    }
  }

  /** A value or an error, as Rust's `Result` and `anyhow::Result` carry them. */
  datatype Result<+T, +E> = Success(value: T) | Failure(error: E)

  /** Sequence concatenation regrouped, for proofs that build a log or a path piece by piece. */
  lemma AppendAssoc<T>(a: seq<T>, b: seq<T>, c: seq<T>)
    ensures a + b + c == a + (b + c)
  {
  }
}
