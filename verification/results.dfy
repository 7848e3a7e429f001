/** Failure-aware wrappers shared by every module of the model.

    The Go program has no error values for malformed input: an out-of-range
    slice or index panics and takes the whole process down. Each such panic
    is a `Fault` here, and an operation that can panic returns a `Result`.
 */
module Results {

  datatype Option<+T> = None | Some(value: T)

  /** The places where the Go code indexes past the end of a string or slice. */
  datatype Fault =
    /** `makeKey` sliced `text[6 : len(text)-1]` on a line shorter than 7 bytes. */
    | KeySliceOutOfRange(line: string)
    /** `text[0:6]` / `text[6:10]` on a line shorter than 10 bytes. */
    | SegmentOutOfRange(line: string)
    /** `compareString` read past the end of one of its two lines. */
    | CompareOutOfRange(source: string, target: string)
    /** `strings.Split(name, ".")[1]` on a file name with no `.`. */
    | NoTypeCode(name: string)

  datatype Result<+T> = Ok(value: T) | Err(fault: Fault) {

    predicate IsFailure() {
      Err?
    }

    function PropagateFailure<U>(): Result<U>
      requires Err?
    {
      Err(fault)
    }

    function Extract(): T
      requires Ok?
    {
      value
    }
  }
}
