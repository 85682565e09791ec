/** Result types and a fact about maps, shared by the models. */
module Wrappers {

  datatype Option<+T> = None | Some(value: T)

  /** What a Go expression comes to: a value, or a run-time panic (an index or a slice bound out
      of range). */
  datatype Checked<+T> = Value(value: T) | Panic {
    predicate IsFailure() {
      Panic?
    }

    function PropagateFailure<U>(): Checked<U>
      requires Panic?
    {
      Panic
    }

    function Extract(): T
      requires Value?
    {
      value
    }
  }

  lemma Overwrite<K, V>(m: map<K, V>, k: K, a: V, b: V)
    ensures m[k := a][k := b] == m[k := b]
  {
  }
}
