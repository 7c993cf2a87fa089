// A value that may be missing: a C pointer that may be NULL.

module Options {
  datatype Option<T> = None | Some(value: T)

  function OrElse<T>(o: Option<T>, other: Option<T>): Option<T> { if o.Some? then o else other }
}
