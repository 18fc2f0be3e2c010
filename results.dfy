/** Errors raised by the modelled code, and a Result type that carries them as values. */
module Results {

  /** The exceptions that can leave an RSA public operation. */
  datatype Error =
    | InvalidArgument(message: string)  // Botan's Invalid_Argument
    | EncodingError                     // Botan's Encoding_Error, raised by BigInt::encode_1363

  /** Either a value or the error the source would have thrown. Usable with `:-`. */
  datatype Result<+T> = Success(value: T) | Failure(error: Error) {

    predicate IsFailure() {
      Failure?
    }

    function PropagateFailure<U>(): Result<U>
      requires Failure?
    {
      Failure(error)
    }

    function Extract(): T
      requires Success?
    {
      value
    }
  }
}
