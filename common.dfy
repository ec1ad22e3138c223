/** Small value types and sequence predicates shared by the server and agent models. */
module Common {

  /** A value that may be absent: Python's `None` or a present value. */
  datatype Option<+T> = None | Some(value: T) {

    /** `x or default` for a value whose only falsy form is `None`. */
    function GetOr(default: T): T {
      if Some? then value else default
    }
  }

  /** A handler outcome: a rendered value, or the body of an error response. */
  datatype Result<+T, +E> = Ok(value: T) | Err(error: E)

  /** `a` is obtained from `b` by deleting elements, without reordering the rest. */
  predicate IsSubsequence<T(==)>(a: seq<T>, b: seq<T>)
    decreases |b|
  {
    if b == [] then a == []
    else IsSubsequence(a, b[1..]) || (a != [] && a[0] == b[0] && IsSubsequence(a[1..], b[1..]))
  }

  /** No element occurs twice. */
  predicate NoDuplicates<T(==)>(s: seq<T>) {
    forall i, j :: 0 <= i < j < |s| ==> s[i] != s[j]
  }
}
