/** Option and Result types, and the exceptions the modelled code can raise. */
module Outcomes {

  /** Python's `None` or a value. */
  datatype Option<+T> = None | Some(value: T)

  /** The exceptions raised along the modelled paths. */
  datatype Error =
    /** `str.split` with an empty separator, or a two-way unpacking of the wrong size */
    | ValueError
    /** a `http:`/`https:` path whose last `/` segment is empty */
    | TrailingSlash(path: string)
    /** no distribution tag found in an RPM release string */
    | WrongDistro(release: string)
    /** a `-o section.name=value` option without `=` or without `.` */
    | InvalidOption(option: string)
    /** `.values()` called on the `None` that `get_latest` returns for an empty name */
    | NoneHasNoValues

  /** A value, or the exception that aborted the computation. */
  datatype Result<+T> = Ok(value: T) | Err(error: Error)
}
