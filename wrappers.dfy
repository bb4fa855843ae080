/** Option, used wherever the source hands back a possibly-null pointer or an
    empty function_wrapper. */
module Wrappers {

  datatype Option<+T> = None | Some(value: T)

}
