/** Option and Result types shared by the whole model, and the ways a Java
    operation of the store can throw (each becomes an explicit error value). */
module Wrappers {

  /** Java's nullable reference: `None` plays `null`. */
  datatype Option<+T> = None | Some(value: T)

  /** The exceptions the modelled code can raise. */
  datatype Fault =
    | NegativeSeek        // RandomAccessFile.seek with a negative offset
    | EndOfFile           // readInt/readLong/read past the end of the file
    | NegativeArraySize   // `new byte[n]` with n < 0
    | NullPointer         // dereferencing a null Position
    | Malformed           // a payload the deserialiser rejects

  /** The outcome of an operation that may throw. */
  datatype Result<+T> = Ok(value: T) | Err(fault: Fault) {

    predicate IsFailure() {
      Err?
    }

    function PropagateFailure<U>(): Result<U>
      requires Err?
    {
      Err(fault)
    }

    function Extract(): T
      requires Ok?
    {
      value
    }
  }
}
