/** The exceptions the modelled Python code can raise, and the failure-compatible
    result type that stands for "returns a value or raises". */
module PyResult {

  /** The Python exceptions that the modelled functions raise. */
  datatype PyError =
    | IndexError                     // `xs[i]` with `i` past the end of a list
    | KeyError(key: string)          // `d[k]` for a key `k` that is not in the dict
    | ValueError(text: string)       // `int(s)` or `float(s)` of a malformed string `s`
    | UnknownTimeZone(name: string)  // raised by `getTzInfo` for an unrecognised zone name

  /** Either the value a Python call returns, or the exception it raises. */
  datatype Result<+T> = Ok(value: T) | Err(error: PyError) {
    predicate IsFailure() {
      Err?
    }

    function PropagateFailure<U>(): Result<U>
      requires Err?
    {
      Err(error)
    }

    function Extract(): T
      requires Ok?
    {
      value
    }
  }

  /** How a loop that updates rows in place ended: it ran to the end, or it raised. */
  datatype Outcome = Completed | Raised(error: PyError)

  /** Python's `xs[i]` for a non-negative index `i`. */
  function At<T>(xs: seq<T>, i: nat): (r: Result<T>)
    ensures r.Ok? <==> i < |xs|
    ensures r.Ok? ==> r.value == xs[i]
    ensures r.Err? ==> r.error == IndexError
  {
    if i < |xs| then Ok(xs[i]) else Err(IndexError)
  }
}
