/** Nullable values. `None` plays the part of a C null pointer wherever the
    source accepts one (a null payload, a null word, a null result). */
module Wrappers {
  datatype Option<+T> = None | Some(value: T)
}
