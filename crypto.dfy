/**
 * The shared crypto helper (CryptoHelper.kt): AES-GCM envelope framing, the RSA
 * key-transport calls and the key store. The primitives underneath (AES-GCM as
 * NIST SP 800-38D defines it, RSAES-PKCS1-v1_5 of section 7.2 of RFC 8017, and
 * the X.509 SubjectPublicKeyInfo encoding of section 4.1.2.7 of RFC 5280) are
 * library calls. They are not defined here: they are fields of a `Primitives`
 * value, and the properties the protocol relies on are ghost predicates
 * (collected in `CryptoAxioms`) that the lemmas needing them take as hypotheses.
 */
module Crypto {
  import opened Wrappers
  import Utf8

  type Byte = Utf8.Byte
  type Bytes = seq<Byte>

  /** GCM nonce length: the 96-bit IV of section 8.2 of NIST SP 800-38D; the envelope is split here. */
  const IvBytes := 12
  /** `KeyGenerator.init(128)`: a 128-bit AES session key. */
  const AesKeyBytes := 16
  /** Modulus length of the key store's default RSA key (2048 bits). */
  const RsaModulusBytes := 256
  /** Longest message RSAES-PKCS1-v1_5 accepts under that modulus (k - 11 octets, section 7.2.1 of RFC 8017). */
  const RsaMaxPlaintext := RsaModulusBytes - 11

  /** A handle on a key pair held by the key store; the private half never leaves the store. */
  datatype KeyPair = KeyPair(serial: nat)

  /** The exceptions the helper's calls raise. */
  datatype CryptoError =
    | InvalidAesKey        // SecretKeySpec or Cipher.init refuses the raw key
    | SliceOutOfRange      // sliceArray of an envelope shorter than the IV
    | AuthenticationFailed // AEADBadTagException: GCM tag check failed
    | RsaFailure           // bad X.509 encoding, message too long, or bad PKCS#1 padding
    | KeyNotFound          // the alias is not in the key store

  /** The library primitives the helper calls. */
  datatype Primitives = Primitives(
    /** AES-GCM encryption (key, IV, plaintext) to ciphertext‖tag, with a 128-bit tag. */
    gcmSeal: (Bytes, Bytes, Bytes) -> Bytes,
    /** AES-GCM decryption (key, IV, ciphertext‖tag); None when the tag check fails. */
    gcmOpen: (Bytes, Bytes, Bytes) -> Option<Bytes>,
    /** `PublicKey.encoded`: the X.509 SubjectPublicKeyInfo of a key pair's public half. */
    encodedPublicKey: KeyPair -> Bytes,
    /** X.509 decoding followed by RSAES-PKCS1-v1_5 encryption; None when either step throws. */
    rsaEncrypt: (Bytes, Bytes) -> Option<Bytes>,
    /** RSAES-PKCS1-v1_5 decryption with a key pair's private half; None on a padding error. */
    rsaDecrypt: (KeyPair, Bytes) -> Option<Bytes>)

  /** The AES key lengths Cipher.init accepts. */
  predicate ValidAesKey(key: Bytes) {
    |key| == 16 || |key| == 24 || |key| == 32
  }

  /** `d` is `c` with the byte at position `i`, and only that byte, changed. */
  predicate ChangedAt(c: Bytes, i: int, d: Bytes) {
    && 0 <= i < |c| && |d| == |c| && d[i] != c[i]
    && forall j :: 0 <= j < |c| && j != i ==> d[j] == c[j]
  }

  /** GCM correctness: decryption under the key and IV used to encrypt gives back the plaintext. */
  ghost predicate GcmCorrect(g: Primitives) {
    forall k, iv, p :: ValidAesKey(k) && |iv| == IvBytes ==> g.gcmOpen(k, iv, g.gcmSeal(k, iv, p)) == Some(p)
  }

  /**
   * Anything that decrypts is the sealing of what it decrypts to, and nothing
   * opens under a key Cipher.init refuses.
   */
  ghost predicate GcmOpensOnlySealings(g: Primitives) {
    forall k, iv, c :: g.gcmOpen(k, iv, c).Some? ==>
      ValidAesKey(k) && c == g.gcmSeal(k, iv, g.gcmOpen(k, iv, c).value)
  }

  /**
   * The tag check catches tampering: changing any one byte of a sealing makes it
   * fail, and so does opening a sealing under another IV of the same length.
   */
  ghost predicate GcmTamperEvident(g: Primitives) {
    && (forall k, iv, p, i, d :: ChangedAt(g.gcmSeal(k, iv, p), i, d) ==> g.gcmOpen(k, iv, d).None?)
    && (forall k, iv1, iv2, p :: |iv1| == |iv2| && iv1 != iv2 ==> g.gcmOpen(k, iv2, g.gcmSeal(k, iv1, p)).None?)
  }

  /** No sealing under one valid key opens under another key. */
  ghost predicate GcmKeySeparated(g: Primitives) {
    forall k1, k2, iv, p :: ValidAesKey(k1) && k1 != k2 ==> g.gcmOpen(k2, iv, g.gcmSeal(k1, iv, p)).None?
  }

  /** What the protocol assumes of AES-GCM, in its idealised form. */
  ghost predicate GcmAxioms(g: Primitives) {
    GcmCorrect(g) && GcmOpensOnlySealings(g) && GcmTamperEvident(g) && GcmKeySeparated(g)
  }

  /**
   * What the protocol assumes of RSA with PKCS#1 v1.5 padding under a 2048-bit
   * store key: a message no longer than k - 11 octets encrypts under the encoded
   * public key and decrypts under the private half to itself; a longer one is refused.
   */
  ghost predicate RsaAxioms(g: Primitives) {
    && (forall kp, m :: |m| <= RsaMaxPlaintext ==>
          g.rsaEncrypt(g.encodedPublicKey(kp), m).Some? &&
          g.rsaDecrypt(kp, g.rsaEncrypt(g.encodedPublicKey(kp), m).value) == Some(m))
    && (forall kp, m :: |m| > RsaMaxPlaintext ==> g.rsaEncrypt(g.encodedPublicKey(kp), m).None?)
  }

  ghost predicate CryptoAxioms(g: Primitives) {
    GcmAxioms(g) && RsaAxioms(g)
  }

  // ---------------------------------------------------------------- AES-GCM envelope

  /**
   * `aesEncrypt`: seals the UTF-8 bytes of `text` and prefixes the IV the cipher
   * chose (`iv`, drawn fresh by Cipher.init; a parameter here). The envelope is
   * `iv ‖ ciphertext‖tag`.
   */
  function AesEncrypt(g: Primitives, key: Bytes, iv: Bytes, text: string): (r: Result<Bytes, CryptoError>)
    requires |iv| == IvBytes
    ensures r.Ok? <==> ValidAesKey(key)
    ensures r.Ok? ==> |r.value| >= IvBytes && r.value[..IvBytes] == iv
    ensures r.Ok? ==> r.value[IvBytes..] == g.gcmSeal(key, iv, Utf8.Encode(text))
  {
    if !ValidAesKey(key) then Err(InvalidAesKey)
    else
      var cipherText := g.gcmSeal(key, iv, Utf8.Encode(text));
      Ok(iv + cipherText)
  }

  /**
   * `aesDecrypt`: bytes 0..12 of the envelope are the IV, bytes 12.. are
   * ciphertext‖tag. The checks come in the order the calls make them: the key
   * spec refuses an empty key, the slice refuses a short envelope, Cipher.init
   * refuses a key of the wrong length, and the tag check comes last.
   */
  function AesDecrypt(g: Primitives, key: Bytes, envelope: Bytes): (r: Result<string, CryptoError>)
    ensures r.Ok? ==> ValidAesKey(key) && |envelope| >= IvBytes
    ensures |key| > 0 && |envelope| < IvBytes ==> r == Err(SliceOutOfRange)
    ensures ValidAesKey(key) && |envelope| >= IvBytes ==>
      (r.Err? <==> g.gcmOpen(key, envelope[..IvBytes], envelope[IvBytes..]).None?)
  {
    if |key| == 0 then Err(InvalidAesKey)
    else if |envelope| < IvBytes then Err(SliceOutOfRange)
    else
      var iv := envelope[..IvBytes];
      var cipherText := envelope[IvBytes..];
      if !ValidAesKey(key) then Err(InvalidAesKey)
      else match g.gcmOpen(key, iv, cipherText)
        case None => Err(AuthenticationFailed)
        case Some(plain) => Ok(Utf8.Decode(plain))
  }

  /** Every string, the empty one and multi-byte ones included, survives encryption and decryption under one key. */
  lemma AesRoundTrip(g: Primitives, key: Bytes, iv: Bytes, text: string)
    requires GcmCorrect(g) && ValidAesKey(key) && |iv| == IvBytes
    ensures AesEncrypt(g, key, iv, text).Ok?
    ensures AesDecrypt(g, key, AesEncrypt(g, key, iv, text).value) == Ok(text)
  {
    var envelope := AesEncrypt(g, key, iv, text).value;
    assert envelope[..IvBytes] == iv && envelope[IvBytes..] == g.gcmSeal(key, iv, Utf8.Encode(text));
    Utf8.RoundTrip(text);
  }

  /** An envelope sealed under one key does not decrypt under any other key. */
  lemma AesWrongKeyRejected(g: Primitives, key: Bytes, other: Bytes, iv: Bytes, text: string)
    requires GcmKeySeparated(g) && ValidAesKey(key) && |iv| == IvBytes && other != key
    ensures AesEncrypt(g, key, iv, text).Ok?
    ensures AesDecrypt(g, other, AesEncrypt(g, key, iv, text).value).Err?
  {
    var envelope := AesEncrypt(g, key, iv, text).value;
    assert envelope[..IvBytes] == iv && envelope[IvBytes..] == g.gcmSeal(key, iv, Utf8.Encode(text));
  }

  /**
   * Whatever decrypts under `key` is exactly its IV followed by the GCM sealing,
   * under `key` and that IV, of bytes that decode to the returned string.
   */
  lemma AesDecryptOnlyAuthentic(g: Primitives, key: Bytes, envelope: Bytes)
    requires GcmOpensOnlySealings(g) && AesDecrypt(g, key, envelope).Ok?
    ensures |envelope| >= IvBytes
    ensures exists plain :: envelope == envelope[..IvBytes] + g.gcmSeal(key, envelope[..IvBytes], plain)
                            && AesDecrypt(g, key, envelope).value == Utf8.Decode(plain)
  {
    var iv, cipherText := envelope[..IvBytes], envelope[IvBytes..];
    var plain := g.gcmOpen(key, iv, cipherText).value;
    assert envelope == iv + cipherText;
  }

  /**
   * Tamper rejection: changing any single byte of an envelope, in the IV or in
   * ciphertext‖tag, makes decryption under the key fail.
   */
  lemma AesTamperRejected(g: Primitives, key: Bytes, iv: Bytes, text: string, i: int, b: Byte)
    requires GcmTamperEvident(g) && ValidAesKey(key) && |iv| == IvBytes
    requires 0 <= i < |AesEncrypt(g, key, iv, text).value| && b != AesEncrypt(g, key, iv, text).value[i]
    ensures AesDecrypt(g, key, AesEncrypt(g, key, iv, text).value[i := b]).Err?
  {
    var envelope := AesEncrypt(g, key, iv, text).value;
    var sealed := g.gcmSeal(key, iv, Utf8.Encode(text));
    assert envelope == iv + sealed;
    var tampered := envelope[i := b];
    if i < IvBytes {
      assert tampered[..IvBytes][i] != iv[i];
      assert tampered[IvBytes..] == sealed;
    } else {
      assert tampered[..IvBytes] == iv;
      assert ChangedAt(sealed, i - IvBytes, tampered[IvBytes..]);
    }
  }

  // ---------------------------------------------------------------- RSA key transport

  /** `encryptWithRSA`: encrypts `data` under the public key whose X.509 encoding is `encodedKey`. */
  function EncryptWithRsa(g: Primitives, encodedKey: Bytes, data: Bytes): (r: Result<Bytes, CryptoError>)
    ensures r.Err? ==> r.error == RsaFailure
  {
    match g.rsaEncrypt(encodedKey, data)
    case None => Err(RsaFailure)
    case Some(c) => Ok(c)
  }

  /** `getRSAPublicKey().encoded`: the encoded public key stored under `alias`. */
  function RsaPublicKey(g: Primitives, entries: map<string, KeyPair>, alias: string): (r: Result<Bytes, CryptoError>)
    ensures r.Ok? <==> alias in entries
  {
    if alias !in entries then Err(KeyNotFound) else Ok(g.encodedPublicKey(entries[alias]))
  }

  /** `decryptWithRSA`: decrypts with the private key stored under `alias`. */
  function DecryptWithRsa(g: Primitives, entries: map<string, KeyPair>, alias: string, data: Bytes): (r: Result<Bytes, CryptoError>)
    ensures r.Ok? ==> alias in entries
  {
    if alias !in entries then Err(KeyNotFound)
    else match g.rsaDecrypt(entries[alias], data)
      case None => Err(RsaFailure)
      case Some(m) => Ok(m)
  }

  /**
   * Key transport: a key of at most k - 11 octets, encrypted under the public key
   * exported for `alias`, is recovered bit for bit by decrypting under that alias.
   */
  lemma RsaKeyTransport(g: Primitives, entries: map<string, KeyPair>, alias: string, data: Bytes)
    requires RsaAxioms(g) && alias in entries && |data| <= RsaMaxPlaintext
    ensures RsaPublicKey(g, entries, alias).Ok?
    ensures EncryptWithRsa(g, RsaPublicKey(g, entries, alias).value, data).Ok?
    ensures DecryptWithRsa(g, entries, alias, EncryptWithRsa(g, RsaPublicKey(g, entries, alias).value, data).value) == Ok(data)
  {
  }

  // ---------------------------------------------------------------- key store

  /** The state of `generateRSAKeyIfNeeded` after the call: a key pair is inserted only if the alias is absent. */
  function RsaKeyIfNeeded(entries: map<string, KeyPair>, alias: string, generated: KeyPair): map<string, KeyPair> {
    if alias in entries then entries else entries[alias := generated]
  }

  /** The call never replaces or removes a stored key pair, and leaves one under the alias. */
  lemma RsaKeyIfNeededKeepsEntries(entries: map<string, KeyPair>, alias: string, generated: KeyPair)
    ensures alias in RsaKeyIfNeeded(entries, alias, generated)
    ensures forall a :: a in entries ==> a in RsaKeyIfNeeded(entries, alias, generated) && RsaKeyIfNeeded(entries, alias, generated)[a] == entries[a]
    ensures RsaKeyIfNeeded(entries, alias, generated).Keys == entries.Keys + {alias}
  {
  }

  /** Idempotence: a second call, whatever key pair it would generate, changes nothing. */
  lemma RsaKeyIfNeededIdempotent(entries: map<string, KeyPair>, alias: string, generated: KeyPair, again: KeyPair)
    ensures RsaKeyIfNeeded(RsaKeyIfNeeded(entries, alias, generated), alias, again) == RsaKeyIfNeeded(entries, alias, generated)
  {
  }

  /** The AndroidKeyStore: key pairs by alias. */
  class KeyStore {
    var entries: map<string, KeyPair>

    constructor ()
      ensures entries == map[]
    {
      entries := map[];
    }
  }

  /** `CryptoHelper(keyAlias)`: the calls that use the key store under one alias. */
  class CryptoHelper {
    const g: Primitives
    const keyAlias: string
    const keyStore: KeyStore

    constructor (g: Primitives, keyAlias: string, keyStore: KeyStore)
      ensures this.g == g && this.keyAlias == keyAlias && this.keyStore == keyStore
    {
      this.g := g;
      this.keyAlias := keyAlias;
      this.keyStore := keyStore;
    }

    /** `generateRSAKeyIfNeeded`: `generated` is the key pair the generator would produce. */
    method GenerateRsaKeyIfNeeded(generated: KeyPair)
      modifies keyStore
      ensures keyStore.entries == RsaKeyIfNeeded(old(keyStore.entries), keyAlias, generated)
    {
      if keyAlias !in keyStore.entries {
        keyStore.entries := keyStore.entries[keyAlias := generated];
      }
    }

    /**
     * `storeAESKeyIfNeeded`: builds a key spec and discards it, so it never touches
     * the store (it has no modifies clause); the key spec throws on an empty key.
     */
    method StoreAesKeyIfNeeded(rawAes: Bytes) returns (error: Option<CryptoError>)
      ensures error.Some? <==> keyAlias !in keyStore.entries && |rawAes| == 0
      ensures error.Some? ==> error.value == InvalidAesKey
    {
      error := None;
      if keyAlias !in keyStore.entries {
        if |rawAes| == 0 {
          error := Some(InvalidAesKey);
        }
      }
    }

    /** `generateRawAESKey`: some 128-bit key, chosen by the generator. */
    method GenerateRawAesKey() returns (key: Bytes)
      ensures |key| == AesKeyBytes && ValidAesKey(key)
    {
      var zeros: Bytes := seq(AesKeyBytes, _ => 0);
      assert |zeros| == AesKeyBytes;
      key :| |key| == AesKeyBytes;
    }
  }
}
