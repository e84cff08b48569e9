/** The optional value used wherever the modelled code may yield nothing
    (JavaScript `undefined`, a Swift optional, a failed parse). */
module Wrappers {

  datatype Option<+T> = None | Some(value: T)

}
