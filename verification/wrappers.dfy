/** Failure-carrying values shared by every module of the model. */
module Wrappers {

  /** A Java reference that may be null. */
  datatype Option<T> = None | Some(value: T)

  /** The Java exceptions that cross a boundary of the modelled code. */
  datatype Exception =
    | NullPointer            // java.lang.NullPointerException
    | IllegalState           // Commons Pool: object not currently borrowed, or pool not open
    | NoSuchElement          // Commons Pool: no object available within the maximum wait
    | UnsupportedOperation   // counters are refused by the writer
    | RestClient             // the collector client's call failed (RestClientException)
    | IO                     // Jackson could not serialise a batch (IOException)

  /** The outcome of a Java call that either returns a value or throws. */
  datatype Result<T> = Ok(value: T) | Err(error: Exception)
}
