/** The usual optional value, shared by the federation log and the template serialiser. */
module Options {

  datatype Option<T> = None | Some(value: T)
}
