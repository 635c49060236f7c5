/** Optional values and success-or-error results, as the handler uses them:
    `undefined` versus a value, and an early `return c.json({message}, 400)`
    versus falling through to the response. */
module Wrappers {

  datatype Option<+T> = None | Some(value: T)

  datatype Result<+T, +E> = Ok(value: T) | Err(error: E)
}
