/** Small shared vocabulary: an optional value, standing in for JavaScript's
    `null`/`undefined` where the source stores "no value yet". */
module Base {

  datatype Option<+T> = None | Some(value: T)

  /** True when no element of `xs` occurs twice. */
  predicate NoDup<T(==)>(xs: seq<T>) {
    forall i, j :: 0 <= i < j < |xs| ==> xs[i] != xs[j]
  }
}
