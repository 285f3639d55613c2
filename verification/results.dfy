/** Failure-carrying values shared by every module of the model. */
module Results {

  /** Stands for a Java reference or JavaScript value that may be null/undefined. */
  datatype Option<+T> = None | Some(value: T)

  /** The exceptions the modelled code can raise, named after what it throws. */
  datatype Error =
    | IllegalState       // Preconditions.checkState, or an explicit IllegalStateException
    | NoSuchElement      // getFirst / removeFirst / pop on an empty LinkedList
    | NullPointer        // the import map dereferenced outside a compilation unit
    | AssertionFailed    // a declaration an earlier pass must have found is missing
    | IndexOutOfBounds   // String.substring with a negative end index
    | DuplicateKey       // ImmutableMap.Builder.build with a repeated key
    | TypeError          // JavaScript: reading `length` of undefined

  /** A value, or the exception raised instead of returning one. */
  datatype Result<+T> = Ok(value: T) | Err(error: Error) {
    predicate IsFailure() {
      Err?
    }

    function PropagateFailure<U>(): Result<U>
      requires Err?
    {
      Err(error)
    }

    function Extract(): T
      requires Ok?
    {
      value
    }
  }

  /** `Map.get`: the value bound to `k`, or None. */
  function MapGet<K, V>(m: map<K, V>, k: K): (r: Option<V>)
    ensures r.Some? <==> k in m
    ensures r.Some? ==> r.value == m[k]
  {
    if k in m then Some(m[k]) else None
  }
}
