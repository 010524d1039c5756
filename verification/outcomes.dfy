/** Failure-compatible result types shared by the EXIF codec model.

    Every structural error of the codec is fatal: the source aborts the whole
    read or write. The model returns `Fatal(e)` instead, naming the reason.
 */
module Outcomes {

  datatype Option<+T> = None | Some(value: T)

  /** The reasons the codec aborts. */
  datatype Error =
    | UnknownType(code: int)          // a field-type code outside 1..18
    | InlineTypeUnsupported(code: int) // a known type whose inline value has no decoder
    | Truncated                       // a read reaches past the end of the buffer
    | BadMagic                        // the segment does not start with "Exif"
    | BadHeader                       // the two bytes after "Exif" are not zero
    | BadByteOrder(marker: int)       // neither "II" nor "MM"

  datatype Result<+T> = Ok(value: T) | Fatal(error: Error) {

    predicate IsFailure() {
      Fatal?
    }

    function PropagateFailure<U>(): Result<U>
      requires Fatal?
    {
      Fatal(error)
    }

    function Extract(): T
      requires Ok?
    {
      value
    }
  }
}
