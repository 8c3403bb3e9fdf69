/** A value that may be missing: a JavaScript `null`/`undefined`, or a file that does not exist. */
module Optional {

  datatype Option<T> = None | Some(value: T)

}
