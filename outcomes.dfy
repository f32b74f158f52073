/** Optional values and the Python exceptions the revision storage can raise. */
module Outcomes {

  /** Python's `Optional[T]`: `None` or a value. */
  datatype Option<+T> = None | Some(value: T)

  /** The exceptions the modelled code raises, each named after its Python counterpart. */
  datatype Error =
    | AttributeError   // `root_revision` is read before the first `add` created it
    | KeyError         // `self[key]` with a key that is not stored
    | UnpackError      // `a, b = children` when there are not exactly two children (a ValueError)
    | FixIsImpossible  // a fork whose two children are the same id
    | IndexError       // `del orphans[i]` with `i` past the end of the list
    | TypeError        // `<` between a datetime and None

  /** The value a call returns, or the exception it raises. */
  datatype Result<+T> = Ok(value: T) | Err(error: Error)

  /** A call that returns nothing useful, or raises. */
  datatype Outcome = Pass | Fail(error: Error)
}
