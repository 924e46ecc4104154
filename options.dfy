/** The optional value that the packing engine returns where Swift returns `nil`. */
module Options {

  datatype Option<+T> = None | Some(value: T)
}
