/** Small value types shared by every module of the model. */
module Common {

  /** A value that may be absent; used for a JavaScript property that may be `undefined`. */
  datatype Option<+T> = None | Some(value: T)

  /** The outcome of a step that may throw. */
  datatype Result<+T, +E> = Success(value: T) | Failure(error: E)

  /** No element occurs twice in `s`. */
  predicate NoDup<T(==)>(s: seq<T>)
  {
    forall i, j :: 0 <= i < j < |s| ==> s[i] != s[j]
  }

  /** `prefix` is an initial segment of `s`: an append-only log grew from `prefix` to `s`. */
  predicate Extends<T(==)>(prefix: seq<T>, s: seq<T>)
  {
    |prefix| <= |s| && s[..|prefix|] == prefix
  }
}
