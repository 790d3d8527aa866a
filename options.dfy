/** Swift's `Optional`, used for the evaluated value of an assertion target, for query results and for the optional change callback. */
module Options {

  datatype Option<T> = None | Some(value: T)
}
