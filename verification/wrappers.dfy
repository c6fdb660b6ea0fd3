/** Optional values, used for the checkout hint that only some reports carry
    and for the clone that only some fetches perform. */
module Wrappers {

  datatype Option<+T> = None | Some(value: T)
}
