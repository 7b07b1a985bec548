/** The one optional value every module shares. */
module Options {

  datatype Option<+T> = None | Some(value: T)
}
