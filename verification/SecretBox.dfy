/** Settings secrets: AES-256-GCM framed as nonce then ciphertext, in padded base64. */
module SecretBox {
  import opened Wrappers
  import opened Octets
  import Base64

  const KEY_SIZE := 32
  const NONCE_SIZE := 12

  /** The cipher: seal and open take key, nonce and text. */
  datatype Aead = Aead(seal: (Bytes, Bytes, Bytes) -> Bytes, open: (Bytes, Bytes, Bytes) -> Option<Bytes>)

  /** Opening undoes sealing. */
  ghost predicate Opens(a: Aead) {
    forall k, n, p :: a.open(k, n, a.seal(k, n, p)) == Some(p)
  }

  /** Nothing but a sealed text opens. */
  ghost predicate Authentic(a: Aead) {
    forall k, n, c :: a.open(k, n, c).Some? ==> c == a.seal(k, n, a.open(k, n, c).value)
  }

  /** Both laws together can be met. */
  lemma SomeAeadFits() returns (a: Aead)
    ensures Opens(a) && Authentic(a)
  {
    a := Aead((k: Bytes, n: Bytes, p: Bytes) => p, (k: Bytes, n: Bytes, c: Bytes) => Some(c));
  }

  datatype CryptoError = InvalidKeySize | InvalidEncoding | InvalidCiphertext

  function Encrypt(a: Aead, plaintext: Bytes, key: Bytes, nonce: Bytes): Result<string, CryptoError>
    requires |nonce| == NONCE_SIZE
  {
    if |key| != KEY_SIZE then Err(InvalidKeySize)
    else Ok(Base64.Encode(Base64.Std, nonce + a.seal(key, nonce, plaintext)))
  }

  function Decrypt(a: Aead, text: string, key: Bytes): Result<Bytes, CryptoError> {
    if |key| != KEY_SIZE then Err(InvalidKeySize)
    else
      var data := Base64.Decode(Base64.Std, text);
      if data.None? then Err(InvalidEncoding)
      else if |data.value| < NONCE_SIZE then Err(InvalidCiphertext)
      else
        var plain := a.open(key, data.value[..NONCE_SIZE], data.value[NONCE_SIZE..]);
        if plain.None? then Err(InvalidCiphertext) else Ok(plain.value)
  }

  /** Every plaintext comes back, under every 32-byte key and every nonce. */
  lemma DecryptOfEncrypt(a: Aead, plaintext: Bytes, key: Bytes, nonce: Bytes)
    requires Opens(a)
    requires |key| == 32 && |nonce| == 12
    ensures Encrypt(a, plaintext, key, nonce).Ok?
    ensures Decrypt(a, Encrypt(a, plaintext, key, nonce).value, key) == Ok(plaintext)
  {
    var data := nonce + a.seal(key, nonce, plaintext);
    Base64.RoundTrip(Base64.Std, data);
    assert data[..NONCE_SIZE] == nonce;
    assert data[NONCE_SIZE..] == a.seal(key, nonce, plaintext);
  }

  /** A key of any other size is refused both ways. */
  lemma OtherKeysRefused(a: Aead, bytes: Bytes, text: string, key: Bytes, nonce: Bytes)
    requires |key| != 32 && |nonce| == 12
    ensures Encrypt(a, bytes, key, nonce) == Err(InvalidKeySize) && Decrypt(a, text, key) == Err(InvalidKeySize)
  {
  }

  /** Why a text does not decrypt under a key of the right size: it is no base64, or it is too short or does not open. */
  lemma DecryptRefuses(a: Aead, text: string, key: Bytes)
    requires |key| == 32
    ensures var data := Base64.Decode(Base64.Std, text); var r := Decrypt(a, text, key);
            && (r == Err(InvalidEncoding) <==> data.None?)
            && (r == Err(InvalidCiphertext) <==>
                  data.Some? && (|data.value| < 12 || a.open(key, data.value[..12], data.value[12..]).None?))
  {
  }

  /** The nonce comes first, then the sealed text. */
  lemma EncryptSpells(a: Aead, plaintext: Bytes, key: Bytes, nonce: Bytes)
    requires |key| == 32 && |nonce| == 12
    ensures Encrypt(a, plaintext, key, nonce).Ok?
    ensures Base64.Decode(Base64.Std, Encrypt(a, plaintext, key, nonce).value) == Some(nonce + a.seal(key, nonce, plaintext))
  {
    Base64.RoundTrip(Base64.Std, nonce + a.seal(key, nonce, plaintext));
  }

  /** A text decrypts to a plaintext exactly when it spells the same bytes as some encryption of it. */
  lemma DecryptExactly(a: Aead, text: string, key: Bytes, plaintext: Bytes)
    requires Opens(a) && Authentic(a) && |key| == 32
    ensures Decrypt(a, text, key) == Ok(plaintext)
            <==> exists nonce: Bytes :: |nonce| == 12
                   && Base64.Decode(Base64.Std, text)
                      == Base64.Decode(Base64.Std, Encrypt(a, plaintext, key, nonce).value)
  {
    var data := Base64.Decode(Base64.Std, text);
    if Decrypt(a, text, key) == Ok(plaintext) {
      var nonce := data.value[..NONCE_SIZE];
      Base64.RoundTrip(Base64.Std, nonce + a.seal(key, nonce, plaintext));
      assert data.value == nonce + data.value[NONCE_SIZE..];
      assert Base64.Decode(Base64.Std, Encrypt(a, plaintext, key, nonce).value) == data;
    }
    forall nonce: Bytes | |nonce| == NONCE_SIZE
                          && data == Base64.Decode(Base64.Std, Encrypt(a, plaintext, key, nonce).value)
      ensures Decrypt(a, text, key) == Ok(plaintext)
    {
      DecryptOfEncrypt(a, plaintext, key, nonce);
    }
  }
}
