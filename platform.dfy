/**
 * The cryptographic and encoding services the chat code obtains from the
 * Web Crypto API, Node's crypto module, `JSON`, `btoa`/`atob` and
 * `TextEncoder`/`TextDecoder`. They are not modelled bit for bit: a
 * `Platform` value supplies them as functions, and `Sound` states the
 * guarantees the code relies on.
 */
module Platform {
  import opened Js

  /** RSA-OAEP (2048 bits, SHA-256) key pair number `id`. */
  datatype PublicKey = PublicKey(id: nat)
  datatype PrivateKey = PrivateKey(id: nat)
  datatype KeyPair = KeyPair(publicKey: PublicKey, privateKey: PrivateKey)

  /** RSA-PSS (2048 bits, SHA-256, 32-byte salt) key pair number `id`. */
  datatype SignPublicKey = SignPublicKey(id: nat)
  datatype SignPrivateKey = SignPrivateKey(id: nat)
  datatype SignKeyPair = SignKeyPair(publicKey: SignPublicKey, privateKey: SignPrivateKey)

  /** The largest message RSA-OAEP with a 2048-bit modulus and SHA-256 accepts: 256 - 2*32 - 2 bytes. */
  const OaepMaxMessage: nat := 190

  datatype Platform = Platform(
    /** PBKDF2-HMAC-SHA-256(password, salt, iterations, length in bytes). */
    pbkdf2: (seq<byte>, seq<byte>, nat, nat) -> seq<byte>,
    /** AES-256-GCM under a raw key and IV; decryption fails on a wrong key or tag. */
    aesGcmEncrypt: (seq<byte>, seq<byte>, seq<byte>) -> seq<byte>,
    aesGcmDecrypt: (seq<byte>, seq<byte>, seq<byte>) -> Option<seq<byte>>,
    rsaOaepEncrypt: (PublicKey, seq<byte>) -> seq<byte>,
    rsaOaepDecrypt: (PrivateKey, seq<byte>) -> Option<seq<byte>>,
    pssSign: (SignPrivateKey, seq<byte>) -> seq<byte>,
    pssVerify: (SignPublicKey, seq<byte>, seq<byte>) -> bool,
    /** SPKI export as base64 text, and the matching import (None: the import rejects). */
    exportKey: PublicKey -> string,
    importKey: string -> Option<PublicKey>,
    exportSignKey: SignPublicKey -> string,
    importSignKey: string -> Option<SignPublicKey>,
    /** JSON.stringify and JSON.parse (None: SyntaxError). */
    stringify: Json -> string,
    parse: string -> Option<Json>,
    /** btoa and atob (None: InvalidCharacterError). */
    btoa: string -> Option<string>,
    atob: string -> Option<string>,
    /** TextEncoder and TextDecoder (UTF-8). */
    utf8Encode: string -> seq<byte>,
    utf8Decode: seq<byte> -> string
  )

  /** The characters btoa produces. */
  predicate IsBase64Char(c: char) {
    'A' <= c <= 'Z' || 'a' <= c <= 'z' || '0' <= c <= '9' || c == '+' || c == '/' || c == '='
  }

  predicate IsBase64(s: string) { forall i :: 0 <= i < |s| ==> IsBase64Char(s[i]) }

  /** The guarantees of the platform services that the chat code relies on. */
  ghost predicate Sound(p: Platform) {
    && (forall pw, salt, iterations, len :: |p.pbkdf2(pw, salt, iterations, len)| == len)
    && (forall key, iv, plain :: p.aesGcmDecrypt(key, iv, p.aesGcmEncrypt(key, iv, plain)) == Some(plain))
    && (forall id: nat, m: seq<byte> | |m| <= OaepMaxMessage ::
          p.rsaOaepDecrypt(PrivateKey(id), p.rsaOaepEncrypt(PublicKey(id), m)) == Some(m))
    && (forall id: nat, data :: p.pssVerify(SignPublicKey(id), data, p.pssSign(SignPrivateKey(id), data)))
    && (forall k :: p.importKey(p.exportKey(k)) == Some(k))
    && (forall k :: p.importSignKey(p.exportSignKey(k)) == Some(k))
    && (forall v :: p.parse(p.stringify(v)) == Some(v))
    && p.stringify(JNull) == "null"
    && (forall s :: IsLatin1(s) <==> p.btoa(s).Some?)
    && (forall s | IsLatin1(s) :: IsBase64(p.btoa(s).value) && p.atob(p.btoa(s).value) == Some(s))
    && (forall s :: p.utf8Decode(p.utf8Encode(s)) == s)
    && (forall s | IsAscii(s) :: |p.utf8Encode(s)| == |s|)
  }

  /**
   * Keys of different pairs do not fit each other: what one RSA-OAEP public
   * key encrypts no other private key decrypts, and what one RSA-PSS key
   * signs no other verification key accepts.
   */
  ghost predicate Separated(p: Platform) {
    && (forall i: nat, j: nat, m: seq<byte> | i != j && |m| <= OaepMaxMessage ::
          p.rsaOaepDecrypt(PrivateKey(j), p.rsaOaepEncrypt(PublicKey(i), m)) == None)
    && (forall i: nat, j: nat, data :: i != j ==> !p.pssVerify(SignPublicKey(j), data, p.pssSign(SignPrivateKey(i), data)))
  }

  /**
   * `importPublicKey(v)` and `importPublicSignKey(v)`: `atob` of `String(v)`
   * followed by an SPKI import; None when either step rejects.
   */
  function ImportPublicKey(p: Platform, v: JsValue): Option<PublicKey>
  {
    p.importKey(JsToString(v))
  }

  function ImportSignKey(p: Platform, v: JsValue): Option<SignPublicKey>
  {
    p.importSignKey(JsToString(v))
  }
}
