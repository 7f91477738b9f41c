/** Option type shared by the decoders and parsers of the model. */
module Wrappers {

  datatype Option<+T> = None | Some(value: T)
}
