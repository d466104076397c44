/**
 * The error values the core files return. The enum in src/errors.rs is out of date,
 * so the variants here are the ones the core files actually construct or convert into.
 */
module Errors {

  /** Errors of the encryption layer (src/crypto.rs). */
  datatype CryptoError = CouldNotEncrypt | CouldNotDecrypt

  /** Errors of the vault and file layers. */
  datatype VaultError =
    | InvalidKey
    | NameExists
    | FileExists
    | PasswordTooLong
    | CouldNotSave
    | CouldNotClose
    | CouldNotGetEntry
    | CouldNotRemoveEntry
    | VaultDoesNotExist
    | IoError              // any filesystem failure
    | EncFileError         // the AEAD library rejected a blob (legacy vault only)
    | Utf8Error            // decrypted bytes were not UTF-8 (legacy vault only)
    | JsonError            // decrypted text was not a vault in JSON form
    | CryptoFailure(cause: CryptoError)

  /** Errors of the session state machine. */
  datatype SessionError =
    | SessionActive
    | SessionInactive
    | VaultFailure(cause: VaultError)
}
