/** The usual Some/None wrapper, for values that may be absent (a request
    field that was not sent, a nullable column, a lookup that found nothing). */
module Options {
  datatype Option<+T> = None | Some(value: T)
}
