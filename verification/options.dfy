/** A value that may be absent: a form field the browser did not submit. */
module Options {

  datatype Option<+T> = None | Some(value: T)

}
