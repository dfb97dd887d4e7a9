/** Optional arguments, the driver's exceptions, and results that carry them. */
module Results {

  datatype Option<+T> = None | Some(value: T)

  /** RuntimeError(DEV_NOT_OPEN), the ValueError of a missing argument, the
      AttributeError of reading `page_time_ms` before open() stored it, and
      the TypeError of `end_page - start_page` on a missing page. */
  datatype Error = NotOpen | MissingArgument | MissingPageTime | PageRangeNone

  datatype Result<+T> = Ok(value: T) | Err(error: Error)
}
