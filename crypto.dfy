/**
 * The authenticated-encryption layer as a value model. A sealed blob remembers the
 * password it was sealed under; opening it with that password gives the plaintext back,
 * and opening it with any other password, or opening a blob that was tampered with,
 * fails. Key derivation, nonces and the cipher itself are not modelled.
 */
module Crypto {
  import opened Wrappers
  import opened Errors

  /** UTF-8 text as the JSON parser sees it: a value of type T, or text that does not parse as one. */
  datatype Text<T> = Parsed(doc: T) | Unparsable

  /** What authenticated decryption yields: UTF-8 text or bytes that are not UTF-8. */
  datatype Plaintext<T> = Utf8(text: Text<T>) | NotUtf8

  /** An encrypted file's contents: sealed under a password, or bytes whose tag does not verify. */
  datatype Blob<T> = Sealed(password: string, plaintext: Plaintext<T>) | Tampered

  /** The AEAD decryption: plaintext only for the password the blob was sealed under. */
  function AeadOpen<T>(password: string, blob: Blob<T>): (r: Option<Plaintext<T>>)
    ensures r.Some? <==> blob.Sealed? && blob.password == password
    ensures r.Some? ==> r.value == blob.plaintext
  {
    match blob
    case Tampered => None
    case Sealed(p, pt) => if p == password then Some(pt) else None
  }

  /**
   * `encrypt_vault`: seal the JSON form of a value (the JSON round trip is assumed). The seal
   * is deterministic: the nonce is not modelled, so equal inputs give equal blobs.
   */
  function EncryptVault<T>(password: string, v: T): (b: Blob<T>)
    ensures AeadOpen(password, b) == Some(Utf8(Parsed(v)))
    ensures forall other :: other != password ==> AeadOpen(other, b).None?
  {
    Sealed(password, Utf8(Parsed(v)))
  }

  /** `decrypt_vault`: every AEAD failure and every UTF-8 failure is reported as CouldNotDecrypt. */
  function DecryptVault<T>(password: string, blob: Blob<T>): (r: Result<Text<T>, CryptoError>)
    ensures r.Err? ==> r.error == CouldNotDecrypt
    ensures r.Ok? <==> blob.Sealed? && blob.password == password && blob.plaintext.Utf8?
  {
    match AeadOpen(password, blob)
    case None => Err(CouldNotDecrypt)
    case Some(NotUtf8) => Err(CouldNotDecrypt)
    case Some(Utf8(text)) => Ok(text)
  }

  /** Decrypting with the password used to encrypt gives the value back. */
  lemma DecryptEncrypt<T>(password: string, v: T)
    ensures DecryptVault(password, EncryptVault(password, v)) == Ok(Parsed(v))
  {
  }

  /** Decrypting with any other password fails, and so does decrypting a tampered blob. */
  lemma DecryptRejects<T>(password: string, other: string, v: T)
    requires other != password
    ensures DecryptVault(other, EncryptVault(password, v)) == Err(CouldNotDecrypt)
    ensures DecryptVault<T>(other, Tampered) == Err(CouldNotDecrypt)
  {
  }
}
