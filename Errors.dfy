/** The exceptions the wallet throws, as values. */
module Errors {

  datatype Error =
    | MissingPrefix        // "Provided fprv must start with the phrase 'fprv'."
    | InvalidChecksum      // bs58check.decode throws: bad base58 text or checksum
    | InvalidExtendedKey   // "Extended key is not a valid FPRV or FPUB"
    | MissingPrivateKey    // "Cannot sign without a derived private key"

  datatype Result<+T> = Success(value: T) | Failure(error: Error)
}
