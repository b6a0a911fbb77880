/** Optional values and results with an error, used wherever the game engine
    can fail or a cast can miss an enumerator. */
module Outcomes {

  datatype Option<+T> = None | Some(value: T)

  datatype Result<+T, +E> = Ok(value: T) | Err(error: E)
}
