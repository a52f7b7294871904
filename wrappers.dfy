/** Optional values: a quantization-table slot of the decoder is either empty or holds a table. */
module Wrappers {

  datatype Option<+T> = None | Some(value: T)
}
