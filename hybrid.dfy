/**
 * `UtilsAsymetric.hybridEncrypt` / `hybridDecrypt`: a fresh 64-byte
 * secret, rendered as 128 hexadecimal characters, is encrypted under the
 * peer's RSA-OAEP key, and the payload travels in the password-keyed
 * envelope with that hexadecimal text as the password.
 */
module Hybrid {
  import opened Js
  import opened Platform
  import opened Hex
  import opened SymmetricFrame

  type Secret = s: seq<byte> | |s| == 64 witness seq(64, _ => 0)

  /** The randomness of one `hybridEncrypt` call: the secret bytes and the envelope's own draws. */
  datatype HybridNonce = HybridNonce(secret: Secret, sym: SymNonce)

  /** `{ secret: hexSecret, packet: encryptedData }`. */
  datatype Envelope = Envelope(secret: string, packet: string)

  function EnvelopeJson(e: Envelope): Json
  {
    JObj(map["secret" := JStr(e.secret), "packet" := JStr(e.packet)])
  }

  /** The envelope object after one more property is set on it (`send2.type = …`, `send.token = …`). */
  function EnvelopeWith(e: Envelope, name: string, value: Json): Json
  {
    JObj(map["secret" := JStr(e.secret), "packet" := JStr(e.packet), name := value])
  }

  /** The password of the inner envelope: the secret in hexadecimal. */
  function SecretText(n: HybridNonce): string
  {
    BytesToHex(n.secret)
  }

  /** `hybridEncrypt(publicKey, textData)`; None when the inner envelope throws. */
  function HybridEncrypt(p: Platform, publicKey: PublicKey, data: Json, n: HybridNonce): Option<Envelope>
  {
    var secret := SecretText(n);
    var encryptedSecret := p.rsaOaepEncrypt(publicKey, p.utf8Encode(secret));
    match EncryptSymmetric(p, data, secret, n.sym)
    case None => None
    case Some(packet) => Some(Envelope(BytesToHex(encryptedSecret), packet))
  }

  /**
   * `hybridDecrypt(privateKey, {secret, packet})`. Destructuring `null`
   * or `undefined` throws; a secret that is not a string is read as no
   * ciphertext, which RSA-OAEP rejects; the packet is converted with
   * `String` by `atob`.
   */
  function HybridDecrypt(p: Platform, privateKey: PrivateKey, received: JsValue): (r: Opened)
    ensures r.Value? ==> r.v != JNull
    ensures GetProp(received, "secret").None? ==> r == Thrown
  {
    match GetProp(received, "secret")
    case None => Thrown
    case Some(secret) =>
      var packet := GetProp(received, "packet").value;
      if !(secret.Val? && secret.j.JStr?) then Thrown
      else
        match p.rsaOaepDecrypt(privateKey, HexDecode(secret.j.s))
        case None => Thrown
        case Some(plain) => ReadSymmetric(p, p.utf8Decode(plain), JsToString(packet))
  }

  // ---------------------------------------------------------------------
  // Properties
  // ---------------------------------------------------------------------

  /** The secret text is 128 lower-case hexadecimal characters, which fit one RSA-OAEP block. */
  lemma SecretFitsOaep(p: Platform, n: HybridNonce)
    requires Sound(p)
    ensures |SecretText(n)| == 128 && IsLowerHex(SecretText(n))
    ensures |p.utf8Encode(SecretText(n))| <= OaepMaxMessage
  {
    BytesToHexShape(n.secret);
  }

  /** Hybrid encryption succeeds exactly when the clock text is Latin-1, and both fields are wire-safe. */
  lemma HybridSucceedsIff(p: Platform, publicKey: PublicKey, data: Json, n: HybridNonce)
    requires Sound(p)
    ensures HybridEncrypt(p, publicKey, data, n).Some? <==> IsLatin1(n.sym.clock)
    ensures HybridEncrypt(p, publicKey, data, n).Some? ==>
      IsLowerHex(HybridEncrypt(p, publicKey, data, n).value.secret) && IsBase64(HybridEncrypt(p, publicKey, data, n).value.packet)
  {
    var secret := SecretText(n);
    EncryptSucceedsIff(p, data, secret, n.sym);
    BytesToHexShape(p.rsaOaepEncrypt(publicKey, p.utf8Encode(secret)));
  }

  /**
   * The holder of the matching private key recovers the payload (JSON
   * `null` as the text "null").
   */
  lemma HybridRoundTrip(p: Platform, id: nat, data: Json, n: HybridNonce)
    requires Sound(p)
    requires IsLatin1(n.sym.clock)
    ensures HybridEncrypt(p, PublicKey(id), data, n).Some?
    ensures HybridDecrypt(p, PrivateKey(id), Val(EnvelopeJson(HybridEncrypt(p, PublicKey(id), data, n).value))) == Value(Delivered(data))
  {
    var secret := SecretText(n);
    SecretFitsOaep(p, n);
    SymmetricRoundTrip(p, data, secret, n.sym);
    var m := p.utf8Encode(secret);
    var ct := p.rsaOaepEncrypt(PublicKey(id), m);
    HexRoundTrip(ct);
    assert p.rsaOaepDecrypt(PrivateKey(id), ct) == Some(m);
    assert p.utf8Decode(m) == secret;
    var packet := EncryptSymmetric(p, data, secret, n.sym).value;
    var e := Envelope(BytesToHex(ct), packet);
    assert HybridEncrypt(p, PublicKey(id), data, n) == Some(e);
    OpenEnvelope(p, PrivateKey(id), e);
  }

  /** Reading an envelope object: the hexadecimal secret is decrypted, then the packet opened with it. */
  lemma OpenEnvelope(p: Platform, key: PrivateKey, e: Envelope)
    ensures HybridDecrypt(p, key, Val(EnvelopeJson(e))) ==
      match p.rsaOaepDecrypt(key, HexDecode(e.secret))
      case None => Thrown
      case Some(plain) => ReadSymmetric(p, p.utf8Decode(plain), e.packet)
  {
    var v := Val(EnvelopeJson(e));
    assert GetProp(v, "secret") == Some(Val(JStr(e.secret)));
    assert GetProp(v, "packet") == Some(Val(JStr(e.packet)));
    OpenFields(p, key, v, e);
  }

  /** Any value whose `secret` and `packet` are the envelope's strings is read as the envelope. */
  lemma OpenFields(p: Platform, key: PrivateKey, v: JsValue, e: Envelope)
    requires GetProp(v, "secret") == Some(Val(JStr(e.secret)))
    requires GetProp(v, "packet") == Some(Val(JStr(e.packet)))
    ensures HybridDecrypt(p, key, v) ==
      match p.rsaOaepDecrypt(key, HexDecode(e.secret))
      case None => Thrown
      case Some(plain) => ReadSymmetric(p, p.utf8Decode(plain), e.packet)
  {
    assert JsToString(Val(JStr(e.packet))) == e.packet;
  }

  /**
   * A private key of another pair cannot open the secret: RSA-OAEP
   * decryption of it fails, so the call throws.
   */
  lemma WrongKeyThrows(p: Platform, id: nat, other: nat, data: Json, n: HybridNonce)
    requires Sound(p) && Separated(p)
    requires id != other
    requires IsLatin1(n.sym.clock)
    ensures HybridEncrypt(p, PublicKey(id), data, n).Some?
    ensures HybridDecrypt(p, PrivateKey(other), Val(EnvelopeJson(HybridEncrypt(p, PublicKey(id), data, n).value))) == Thrown
  {
    SecretFitsOaep(p, n);
    HybridSucceedsIff(p, PublicKey(id), data, n);
    var ct := p.rsaOaepEncrypt(PublicKey(id), p.utf8Encode(SecretText(n)));
    assert p.rsaOaepDecrypt(PrivateKey(other), ct) == None;
    HexRoundTrip(ct);
    OpenEnvelope(p, PrivateKey(other), HybridEncrypt(p, PublicKey(id), data, n).value);
  }

  /** An extra property does not change what `hybridDecrypt` reads. */
  lemma OpenEnvelopeWith(p: Platform, key: PrivateKey, e: Envelope, name: string, value: Json)
    requires name != "secret" && name != "packet"
    ensures HybridDecrypt(p, key, Val(EnvelopeWith(e, name, value))) == HybridDecrypt(p, key, Val(EnvelopeJson(e)))
  {
    OpenEnvelope(p, key, e);
    WithFields(e, name, value);
    OpenFields(p, key, Val(EnvelopeWith(e, name, value)), e);
  }

  /** The extra property leaves both envelope fields in place. */
  lemma WithFields(e: Envelope, name: string, value: Json)
    requires name != "secret" && name != "packet"
    ensures GetProp(Val(EnvelopeWith(e, name, value)), "secret") == Some(Val(JStr(e.secret)))
    ensures GetProp(Val(EnvelopeWith(e, name, value)), "packet") == Some(Val(JStr(e.packet)))
  {
    assert "secret"[0] != "packet"[0];
    var f := map["secret" := JStr(e.secret), "packet" := JStr(e.packet), name := value];
    assert "secret" in f && f["secret"] == JStr(e.secret);
    assert "packet" in f && f["packet"] == JStr(e.packet);
  }

  /** The round trip, for an envelope that carries one more property. */
  lemma HybridRoundTripWith(p: Platform, id: nat, data: Json, n: HybridNonce, name: string, value: Json)
    requires Sound(p)
    requires IsLatin1(n.sym.clock)
    requires name != "secret" && name != "packet"
    ensures HybridEncrypt(p, PublicKey(id), data, n).Some?
    ensures HybridDecrypt(p, PrivateKey(id), Val(EnvelopeWith(HybridEncrypt(p, PublicKey(id), data, n).value, name, value))) == Value(Delivered(data))
  {
    HybridRoundTrip(p, id, data, n);
    OpenEnvelopeWith(p, PrivateKey(id), HybridEncrypt(p, PublicKey(id), data, n).value, name, value);
  }
}
