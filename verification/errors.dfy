/**
 The error kinds a lookup can end in, and the result type every read and
 query returns.
 */
module Errors {
  import opened Words

  datatype Error =
    | InvalidIP                        // the address text did not parse
    | UnsupportedFormat(found: byte)   // the format byte of the file is not 1
    | NoResults                        // the search ended without a containing row
    | IOFailure                        // a positioned read ran past the end of the file

  datatype Result<+T> = Ok(value: T) | Err(error: Error)
}
