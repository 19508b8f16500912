/** Optional values and results: `null`/`undefined` and rejected promises of the
    TypeScript source become explicit cases. */
module Wrappers {

  datatype Option<+T> = None | Some(value: T)

  datatype Result<+R, +E> = Ok(value: R) | Err(error: E)
}
