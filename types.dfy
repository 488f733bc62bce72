/** Values shared by every module of the model. */
module Types {

  /** A Go byte. Go's `string` and `[]byte` are both sequences of bytes; the model
      writes each byte as the char with the same code, so ASCII text reads as itself. */
  type byte = c: char | c as int < 256

  type Bytes = seq<byte>

  datatype Option<+T> = None | Some(value: T) {
    predicate IsFailure() {
      None?
    }

    function PropagateFailure<U>(): Option<U>
      requires None?
    {
      None
    }

    function Extract(): T
      requires Some?
    {
      value
    }
  }

  /** A Go `error` value, known only by its message. */
  datatype Error = Error(message: Bytes)

  /** A Go `(T, error)` pair in which exactly one side is meaningful. */
  datatype Result<+T> = Ok(value: T) | Err(error: Error)

  /** True when the byte `b` occurs nowhere in `s`. */
  predicate Free(s: Bytes, b: byte) {
    forall i :: 0 <= i < |s| ==> s[i] != b
  }
}
