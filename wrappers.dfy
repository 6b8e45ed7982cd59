/** Optional values and error-carrying results shared by the other modules. */
module Wrappers {

  datatype Option<+T> = None | Some(value: T)

  datatype Result<+R, +E> = Success(value: R) | Failure(error: E)

  /** The Python exceptions the modelled code can raise. */
  datatype PyError =
    | AttributeError(attribute: string)
    | TypeError(reason: string)
    | ValueError(reason: string)
}
