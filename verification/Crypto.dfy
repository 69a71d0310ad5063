/** The cryptographic primitives as a record of unknown functions with the few laws the rest relies
    on, and the cipher switch of encryption/encryption.go. */
module Crypto {
  import opened Prelude

  const KEY_SIZE := 32
  const NONCE_SIZE := 24
  const AESGCM_NONCE_SIZE := 12
  const OVERHEAD := 16

  type Key = k: Bytes | |k| == KEY_SIZE witness Zeros(32)
  type Nonce = n: Bytes | |n| == NONCE_SIZE witness Zeros(24)
  type GcmNonce = n: Bytes | |n| == AESGCM_NONCE_SIZE witness Zeros(12)

  datatype CipherSuite = EncUnspecified | EncNull | EncAESGCM | EncSecretBox | EncNullBase64URL

  datatype Error =
    | InvalidConfig
    | DecryptFailed
    | EmptyCipherData
    | InvalidBase64
    | InvalidSegment
    | ShortNonce
    | MissingBase

  datatype PrimitivesRaw = PrimitivesRaw(
    hmacSha512: (Bytes, Bytes) -> Bytes,
    hmacSha256: (Bytes, Bytes) -> Bytes,
    gcmSeal: (Key, GcmNonce, Bytes) -> Bytes,
    gcmOpen: (Key, GcmNonce, Bytes) -> Option<Bytes>,
    boxSeal: (Key, Nonce, Bytes) -> Bytes,
    boxOpen: (Key, Nonce, Bytes) -> Option<Bytes>,
    base64Encode: Bytes -> Bytes,
    base64Decode: Bytes -> Option<Bytes>
  ) {
    /** Fixed lengths, and opening undoes sealing. Nothing is assumed about secrecy. */
    ghost predicate Lawful() {
      && (forall k, m :: |hmacSha512(k, m)| == 64)
      && (forall k, m :: |hmacSha256(k, m)| == 32)
      && (forall k, n, d :: |gcmSeal(k, n, d)| == |d| + OVERHEAD)
      && (forall k, n, d :: gcmOpen(k, n, gcmSeal(k, n, d)) == Some(d))
      && (forall k, n, c :: gcmOpen(k, n, c).Some? ==> |c| == |gcmOpen(k, n, c).value| + OVERHEAD)
      && (forall k, n, d :: |boxSeal(k, n, d)| == |d| + OVERHEAD)
      && (forall k, n, d :: boxOpen(k, n, boxSeal(k, n, d)) == Some(d))
      && (forall k, n, c :: boxOpen(k, n, c).Some? ==> |c| == |boxOpen(k, n, c).value| + OVERHEAD)
    }
  }

  /** A lawful instance, which shows that the laws are consistent. */
  const TAGGED := PrimitivesRaw(
    (k: Bytes, m: Bytes) => Zeros(64),
    (k: Bytes, m: Bytes) => Zeros(32),
    (k: Key, n: GcmNonce, d: Bytes) => d + Zeros(OVERHEAD),
    (k: Key, n: GcmNonce, c: Bytes) => Untagged(c),
    (k: Key, n: Nonce, d: Bytes) => d + Zeros(OVERHEAD),
    (k: Key, n: Nonce, c: Bytes) => Untagged(c),
    (d: Bytes) => d,
    (c: Bytes) => Some(c)
  )

  function Untagged(c: Bytes): (d: Option<Bytes>)
    ensures d.Some? ==> |c| == |d.value| + OVERHEAD
  {
    if |c| >= OVERHEAD then Some(c[..|c| - OVERHEAD]) else None
  }

  type Primitives = p: PrimitivesRaw | p.Lawful() witness TAGGED

  /** encryption.DeriveKey. */
  function DeriveKey(p: Primitives, key: Key, message: Bytes): Key {
    p.hmacSha512(key, message)[..KEY_SIZE]
  }

  function ToAESGCMNonce(nonce: Nonce): GcmNonce {
    nonce[..AESGCM_NONCE_SIZE]
  }

  function Encrypt(p: Primitives, data: Bytes, cipher: CipherSuite, key: Key, nonce: Nonce): Result<Bytes, Error> {
    if data == [] then Ok([])
    else
      match cipher
      case EncNull => Ok(data)
      case EncAESGCM => Ok(p.gcmSeal(key, ToAESGCMNonce(nonce), data))
      case EncSecretBox => Ok(p.boxSeal(key, nonce, data))
      case EncNullBase64URL => Err(InvalidConfig)
      case EncUnspecified => Err(InvalidConfig)
  }

  function Decrypt(p: Primitives, data: Bytes, cipher: CipherSuite, key: Key, nonce: Nonce): Result<Bytes, Error> {
    if data == [] then Ok([])
    else
      match cipher
      case EncNull => Ok(data)
      case EncAESGCM => Opened(p.gcmOpen(key, ToAESGCMNonce(nonce), data))
      case EncSecretBox => Opened(p.boxOpen(key, nonce, data))
      case EncNullBase64URL => Err(InvalidConfig)
      case EncUnspecified => Err(InvalidConfig)
  }

  function Opened(d: Option<Bytes>): Result<Bytes, Error> {
    match d
    case None => Err(DecryptFailed)
    case Some(plain) => Ok(plain)
  }

  /** What the cipher switch calls, and with which nonce. */
  lemma CipherSwitch(p: Primitives, data: Bytes, key: Key, nonce: Nonce)
    ensures forall c :: Encrypt(p, [], c, key, nonce) == Decrypt(p, [], c, key, nonce) == Ok([])
    ensures data != [] ==>
              && Encrypt(p, data, EncNull, key, nonce) == Decrypt(p, data, EncNull, key, nonce) == Ok(data)
              && Encrypt(p, data, EncAESGCM, key, nonce) == Ok(p.gcmSeal(key, nonce[..12], data))
              && Encrypt(p, data, EncSecretBox, key, nonce) == Ok(p.boxSeal(key, nonce, data))
              && (Decrypt(p, data, EncAESGCM, key, nonce).Ok? <==> p.gcmOpen(key, nonce[..12], data).Some?)
              && (Decrypt(p, data, EncSecretBox, key, nonce).Ok? <==> p.boxOpen(key, nonce, data).Some?)
              && Encrypt(p, data, EncNullBase64URL, key, nonce) == Encrypt(p, data, EncUnspecified, key, nonce) == Err(InvalidConfig)
  {
  }

  /** Decryption undoes encryption under every cipher that can encrypt anything, also with two nonces
      that agree on the bytes the cipher reads. */
  lemma DecryptEncrypt(p: Primitives, data: Bytes, cipher: CipherSuite, key: Key, nonce: Nonce, nonce': Nonce)
    requires cipher == EncNull || cipher == EncAESGCM || cipher == EncSecretBox
    requires if cipher == EncAESGCM then ToAESGCMNonce(nonce) == ToAESGCMNonce(nonce') else nonce == nonce'
    ensures Encrypt(p, data, cipher, key, nonce).Ok?
    ensures Decrypt(p, Encrypt(p, data, cipher, key, nonce).value, cipher, key, nonce') == Ok(data)
  {
    if data != [] {
      match cipher
      case EncNull =>
      case EncAESGCM => assert |p.gcmSeal(key, ToAESGCMNonce(nonce), data)| > 0;
      case EncSecretBox => assert |p.boxSeal(key, nonce, data)| > 0;
    }
  }
}
