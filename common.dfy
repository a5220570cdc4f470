/** Shared helpers: `None`-or-value returns, raised errors, and a few sequence predicates. */
module Common {

  /** A value that may be absent (Python `Optional[T]`). */
  datatype Option<+T> = None | Some(value: T)

  /** The outcome of a call that may raise: the returned value, or the raised error. */
  datatype Result<+T, +E> = Ok(value: T) | Err(error: E)

  /** No element occurs twice. */
  predicate Distinct<T(==)>(s: seq<T>) {
    forall i, j :: 0 <= i < j < |s| ==> s[i] != s[j]
  }

  /** `a` is `b` with some elements dropped, the rest kept in order. */
  predicate Subsequence<T(==)>(a: seq<T>, b: seq<T>) {
    a == [] || (b != [] && ((a[0] == b[0] && Subsequence(a[1..], b[1..])) || Subsequence(a, b[1..])))
  }

  function Min(a: int, b: int): int { if a <= b then a else b }

  function Max(a: int, b: int): int { if a <= b then b else a }
}
