/** A value that may be absent: JavaScript's `null`/`undefined` and regex
    `exec` results that found nothing are modelled as `None`. */
module Options {
  datatype Option<+T> = None | Some(value: T)
}
