/** Optional values and results with an error alternative, used for the
    evaluator's "value or diagnostics" answers and the extractor's error returns. */
module Wrappers {

  datatype Option<+T> = None | Some(value: T)

  datatype Result<+T, +E> = Ok(value: T) | Err(error: E)
}
