/** The optional value used for the staged reorder (`number[] | null`). */
module Options {

  datatype Option<T> = None | Some(value: T)
}
