/** The exceptions the core throws, one case per class and cause.
    InvalidParameterException and DecryptionException are the library's
    own classes; \RuntimeException and \InvalidArgumentException are PHP's.
    EncryptionException and InvalidKeyException are declared by the library
    but never thrown by the modelled code, so they have no case here. */
module Errors {

  /** Why an InvalidParameterException was thrown. The size cases carry
      the size the message reports; TagLength carries the rejected tag
      length, which its message does not print. */
  datatype Problem =
    | KeySize(got: nat)          // "Invalid key size. Expected 16 bytes, got N bytes"
    | NonceSize(got: nat)        // "Invalid nonce size. Expected between 1 and 128 bytes, got N bytes"
    | TagSize(got: nat)          // "Invalid tag size. Expected 16 bytes, got N bytes"
    | EmptyIv                    // "IV cannot be empty"
    | TagLength(bits: int)       // "Invalid tag length. Must be between 32 and 128 bits and a multiple of 8"
    | MalformedEncoding          // "Invalid encoded parameters"

  /** Why a DecryptionException was thrown by the placeholder cipher. */
  datatype DecryptProblem =
    | CiphertextTooShort         // "Invalid ciphertext length"
    | AuthenticationFailed       // "Authentication failed"

  /** Why CryptoUtils::toBytes threw \InvalidArgumentException. */
  datatype HexProblem =
    | OddLength                  // "Invalid hex string length"
    | NotHex                     // "Invalid hex string"

  datatype Error =
    | InvalidParameter(problem: Problem)
    | NotInitialized             // \RuntimeException("Cipher not initialized")
    | DecryptionFailed(reason: DecryptProblem)
    | InvalidHex(hex: HexProblem)
}
