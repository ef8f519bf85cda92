/** The failures the cipher reports, and a result that is a value or a failure. */
module Errors {

  /** `ValueError("Key must be 16 bytes")`, `ValueError("Block must be 16 bytes")`,
      `ValueError("Invalid ciphertext length")`, and the `IndexError` that
      `result[-1]` raises on an empty byte string. */
  datatype Error = InvalidKeyLength | InvalidBlockLength | InvalidCiphertextLength | IndexOutOfRange

  datatype Result<T> = Ok(value: T) | Err(error: Error)
}
