/** The ways one run of the image handler can stop early.  Every one of them
    is a Python exception in the original program, and none is caught. */
module Failures {

  datatype Error =
    | ShortHeader          // struct.error: fewer than 8 bytes at offsets 16..24
    | ZeroDivision         // ZeroDivisionError: the height read from the header is 0
    | PackOutOfRange       // struct.error: a header field does not fit its packed width
    | NoSuchKey(key: string) // the object store has no object under this key

  datatype Result<T> = Ok(value: T) | Err(error: Error)
}
