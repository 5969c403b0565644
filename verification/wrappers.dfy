/** Optional values and results with an error, usable with `:-`. */
module Wrappers {

  /** A value that may be absent (Python's `Optional[...]`). */
  datatype Option<+T> = None | Some(value: T)

  /** Either a value or the error the source would raise. */
  datatype Result<+T, +E> = Ok(value: T) | Err(error: E) {

    predicate IsFailure() {
      Err?
    }

    function PropagateFailure<U>(): Result<U, E>
      requires Err?
    {
      Err(error)
    }

    function Extract(): T
      requires Ok?
    {
      value
    }
  }

  /** Python's `d.get(k)`: the value under `k`, or None. */
  function Get<K, V>(m: map<K, V>, k: K): Option<V>
  {
    if k in m then Some(m[k]) else None
  }
}
