/** Secrets at rest: authenticated encryption with associated data, of which only
    one law is used, that opening undoes sealing. */
module Secrets {
  import opened Wrappers
  import opened Utf8

  /** A key-encryption key. */
  type Kek = int

  /** AES-256-GCM, abstractly: seal and open bytes under a key, a nonce and
      associated data. */
  datatype Cipher = Cipher(
    seal: (seq<Byte>, Kek, seq<Byte>, string) -> seq<Byte>,
    open: (seq<Byte>, Kek, seq<Byte>, string) -> Option<seq<Byte>>)

  const NONCE_LENGTH := 12

  ghost predicate OpensWhatItSeals(cipher: Cipher) {
    forall message, key, nonce, aad :: |nonce| == NONCE_LENGTH
      ==> cipher.open(cipher.seal(message, key, nonce, aad), key, nonce, aad) == Some(message)
  }

  datatype EncryptedSecret = EncryptedSecret(ciphertext: seq<Byte>, nonce: seq<Byte>)

  function EncryptSecret(cipher: Cipher, secret: string, key: Kek, aad: string, nonce: seq<Byte>): EncryptedSecret {
    EncryptedSecret(cipher.seal(Encode(secret), key, nonce, aad), nonce)
  }

  /** `None` stands for a nonce of the wrong length, a failed authentication and
      a plaintext that is not UTF-8 alike. */
  function DecryptSecret(cipher: Cipher, secret: EncryptedSecret, key: Kek, aad: string): Option<string> {
    if |secret.nonce| != NONCE_LENGTH then None
    else
      match cipher.open(secret.ciphertext, key, secret.nonce, aad)
      case None => None
      case Some(bytes) => Decode(bytes)
  }

  lemma DecryptUndoesEncrypt(cipher: Cipher, secret: string, key: Kek, aad: string, nonce: seq<Byte>)
    requires OpensWhatItSeals(cipher) && |nonce| == NONCE_LENGTH
    ensures DecryptSecret(cipher, EncryptSecret(cipher, secret, key, aad, nonce), key, aad) == Some(secret)
  {
    DecodeEncode(secret);
  }

  /** When a secret decrypts: its nonce has twelve bytes, the cipher opens it, and
      what it opens to is the UTF-8 text. */
  lemma DecryptsIff(cipher: Cipher, secret: EncryptedSecret, key: Kek, aad: string, text: string)
    ensures DecryptSecret(cipher, secret, key, aad) == Some(text)
       <==> |secret.nonce| == 12 && cipher.open(secret.ciphertext, key, secret.nonce, aad) == Some(Encode(text))
  {
    DecodeEncode(text);
    var found := cipher.open(secret.ciphertext, key, secret.nonce, aad);
    if found.Some? && Decode(found.value).Some? {
      EncodeDecode(found.value);
    }
  }
}
