/**
 * The `Connection` class of client-html/paranoia.js: the browser side of
 * a chat. It registers with the relay, links under the session token its
 * key phrase derives, receives the relay's keys, exchanges its message
 * key with the peer (encrypted under the key phrase) and then sends and
 * receives chat messages, each wrapped twice: for the peer and for the
 * relay.
 *
 * The page around the connection is reduced to what the handlers touch:
 * the key-phrase input, the errors shown and the messages displayed.
 * Frames are JSON values (the text on the wire is `JSON.stringify` of
 * them). Each handler runs as one atomic step.
 */
module Client {
  import opened Js
  import opened Platform
  import opened Hex
  import opened SymmetricFrame
  import opened Hybrid
  import opened Protocol

  /** A field that holds a key, a string (its initial or erased value) or `null`. */
  datatype Held<K> = NullValue | Text(s: string) | Key(k: K)

  /** `{ publicKey, privateKey, public64 }`. */
  datatype KeyRecord = KeyRecord(publicKey: Held<PublicKey>, privateKey: Held<PrivateKey>, public64: string)

  /** The `socket` field: `null`, or a WebSocket that is open or closed. */
  datatype Socket = NullSocket | Open(id: nat) | Closed(id: nat)

  const EraseString: string := "XXXXXXXXXXX"
  const WrongFormat: string := "Wrong message format"
  const BadSignatureText: string := "Invalid server signature received"
  const UnknownText: string := "Message unknown received"
  const BurnedText: string := "Connection burned"

  /** The record a generated key pair is kept in, with its SPKI export. */
  function Generated(p: Platform, pair: KeyPair): KeyRecord
  {
    KeyRecord(Key(pair.publicKey), Key(pair.privateKey), p.exportKey(pair.publicKey))
  }

  /** `showError(text = '')`: an `undefined` argument shows the empty text. */
  function ErrorText(v: JsValue): string
  {
    if v == Undefined then "" else JsToString(v)
  }

  /** The LINK request: the link key's export and the session token. */
  function LinkRequestFrame(public64: string, token: string): Json
  {
    JObj(map["type" := JStr(ToLink), "key" := JStr(public64), "token" := JStr(token)])
  }

  /**
   * What `sendHandshake` sends: `{key, token}`, with `key` the message
   * key's export encrypted under the key phrase, wrapped for the relay and
   * typed HANDSHAKE. None where a step rejects (its own `catch` only logs).
   */
  function HandshakeFrame(p: Platform, public64: string, pass: string, token: string,
                          serverKey: Held<PublicKey>, sym: SymNonce, n: HybridNonce): Option<Json>
  {
    match EncryptSymmetric(p, JStr(public64), pass, sym)
    case None => None
    case Some(keyText) =>
      if !serverKey.Key? then None
      else
        match HybridEncrypt(p, serverKey.k, HandshakePayload(keyText, token), n)
        case None => None
        case Some(e) => Some(EnvelopeWith(e, "type", JStr(ToHandshake)))
  }

  function HandshakePayload(keyText: string, token: string): Json
  {
    JObj(map["key" := JStr(keyText), "token" := JStr(token)])
  }

  /**
   * What `sendChatMessage(text)` sends: the text wrapped for the peer, the
   * token added, that wrapped for the relay and typed MESSAGE.
   */
  function ChatFrame(p: Platform, otherKey: Held<PublicKey>, token: string, serverKey: Held<PublicKey>,
                     text: string, inner: HybridNonce, outer: HybridNonce): Option<Json>
  {
    if !otherKey.Key? then None
    else
      match HybridEncrypt(p, otherKey.k, JStr(text), inner)
      case None => None
      case Some(e) =>
        if !serverKey.Key? then None
        else
          match HybridEncrypt(p, serverKey.k, EnvelopeWith(e, "token", JStr(token)), outer)
          case None => None
          case Some(e2) => Some(EnvelopeWith(e2, "type", JStr(ToMessage)))
  }

  /** The peer's message key in a handshake: its `key` unwrapped with the key phrase, then imported. */
  function PeerKey(p: Platform, handshakeData: Json, pass: string): Option<PublicKey>
  {
    match GetProp(Val(handshakeData), "key")
    case None => None
    case Some(key) =>
      match ReadSymmetric(p, pass, JsToString(key))
      case Thrown => None
      case NullFrame => ImportPublicKey(p, Val(JNull))
      case Value(v) => ImportPublicKey(p, Val(v))
  }

  /** Where `onSocketMessage` sends a frame. */
  datatype Inbound =
    | ServerError(text: string)
    | RegisterOk
    | LinkOk(result: Json)
    | HandshakeData(result: Json)
    | ChatMessage(result: Json)
    | BadSignature
    | UnknownStatus
    | Rejected

  /**
   * The routing of `onSocketMessage`: ERROR shows the base64-decoded
   * result; every other status has its result parsed; REGISTER_OK and
   * LINK_OK are taken without a signature check; the rest need the
   * relay's signature over the result text. CLOSE calls an `onChatClose`
   * that does not exist, which rejects. Rejections show
   * "Wrong message format".
   */
  function Route(p: Platform, serverSignKey: Held<SignPublicKey>, frame: string): (r: Inbound)
    ensures r.HandshakeData? || r.ChatMessage? || r.UnknownStatus? ==> Signed(p, serverSignKey, frame)
    ensures r.BadSignature? ==> !Signed(p, serverSignKey, frame)
  {
    match p.parse(frame)
    case None => Rejected
    case Some(data) =>
      match GetProp(Val(data), "status")
      case None => Rejected
      case Some(status) =>
        var result := GetProp(Val(data), "result").value;
        if status == Val(JStr(FromError)) then
          match p.atob(JsToString(result))
          case None => Rejected
          case Some(text) => ServerError(text)
        else
          match p.parse(JsToString(result))
          case None => Rejected
          case Some(parsed) =>
            if status == Val(JStr(FromRegisterOk)) then RegisterOk
            else if status == Val(JStr(FromLinkOk)) then LinkOk(parsed)
            else if !serverSignKey.Key? || SignBytes(data).None? then Rejected
            else if !Signed(p, serverSignKey, frame) then BadSignature
            else if status == Val(JStr(FromHandshakeData)) then HandshakeData(parsed)
            else if status == Val(JStr(FromMessage)) then ChatMessage(parsed)
            else if status == Val(JStr(FromClose)) then Rejected
            else UnknownStatus
  }

  /**
   * `hexToBytes(data.sign)`. A string is decoded pair by pair. A number, a
   * boolean, an array of fewer than two items or an object without a
   * `length` gives a zero-length array, so no pair is read. `undefined`
   * and `null` throw on `.length`; a longer array, or an object with a
   * `length`, throws on the missing `substr` (None).
   */
  function SignBytes(data: Json): (r: Option<seq<byte>>)
    ensures data.JObj? && "sign" in data.fields && data.fields["sign"].JStr? ==> r == Some(HexDecode(data.fields["sign"].s))
    ensures r.Some? ==> data.JObj? && "sign" in data.fields && (data.fields["sign"].JStr? || r.value == [])
  {
    match GetProp(Val(data), "sign")
    case None => None
    case Some(Undefined) => None
    case Some(Val(sign)) =>
      match sign
      case JNull => None
      case JStr(s) => Some(HexDecode(s))
      case JNum(_) => Some([])
      case JBool(_) => Some([])
      case JArr(items) => if |items| < 2 then Some([]) else None
      case JObj(f) => if "length" in f then None else Some([])
  }

  /** The frame's signature verifies, under the held key, over the text of its result. */
  predicate Signed(p: Platform, serverSignKey: Held<SignPublicKey>, frame: string)
  {
    && serverSignKey.Key?
    && p.parse(frame).Some?
    && var data := p.parse(frame).value;
       && data.JObj?
       && SignBytes(data).Some?
       && var result := GetProp(Val(data), "result").value;
          p.pssVerify(serverSignKey.k, p.utf8Encode(JsToString(result)), SignBytes(data).value)
  }

  class Connection {
    const p: Platform
    var socket: Socket
    var sessionToken: string
    var meHandshakeInitiator: bool
    var success: bool
    var linkKey: KeyRecord
    var myKey: KeyRecord
    var otherPublicKey: Held<PublicKey>
    var serverEncrypt64: JsValue
    var serverEncryptKey: Held<PublicKey>
    var serverSign64: JsValue
    var serverSignKey: Held<SignPublicKey>
    /** The key-phrase input of the page. */
    var passField: string
    /** Frames given to `socket.send`. */
    var sent: seq<Json>
    /** Texts passed to `showError`. */
    var shown: seq<string>
    /** Values passed to `onChatMessage`. */
    var chatLog: seq<Json>

    constructor (p: Platform)
      ensures this.p == p && socket == NullSocket && sessionToken == ""
      ensures !meHandshakeInitiator && !success
      ensures linkKey == KeyRecord(Text(""), Text(""), "") && myKey == KeyRecord(Text(""), Text(""), "")
      ensures otherPublicKey == NullValue && serverEncryptKey == NullValue && serverSignKey == NullValue
      ensures serverEncrypt64 == Val(JStr("")) && serverSign64 == Val(JStr(""))
      ensures passField == "" && sent == [] && shown == [] && chatLog == []
    {
      this.p := p;
      socket := NullSocket;
      sessionToken := "";
      meHandshakeInitiator := false;
      success := false;
      linkKey := KeyRecord(Text(""), Text(""), "");
      myKey := KeyRecord(Text(""), Text(""), "");
      otherPublicKey := NullValue;
      serverEncrypt64 := Val(JStr(""));
      serverEncryptKey := NullValue;
      serverSign64 := Val(JStr(""));
      serverSignKey := NullValue;
      passField := "";
      sent := [];
      shown := [];
      chatLog := [];
    }

    /** The fields no handler but `burn` and `linkClient` writes are as before. */
    twostate predicate KeysKept()
      reads this
    {
      socket == old(socket) && sessionToken == old(sessionToken)
      && linkKey == old(linkKey) && myKey == old(myKey)
    }

    twostate predicate ServerKept()
      reads this
    {
      serverEncrypt64 == old(serverEncrypt64) && serverEncryptKey == old(serverEncryptKey)
      && serverSign64 == old(serverSign64) && serverSignKey == old(serverSignKey)
    }

    twostate predicate PairingKept()
      reads this
    {
      meHandshakeInitiator == old(meHandshakeInitiator) && success == old(success)
      && otherPublicKey == old(otherPublicKey) && passField == old(passField)
    }

    /** Nothing is sent and no chat message is displayed. */
    twostate predicate Quiet()
      reads this
    {
      sent == old(sent) && chatLog == old(chatLog)
    }

    /** Nothing changes but the errors shown, which grow by `texts`. */
    twostate predicate OnlyShown(texts: seq<string>)
      reads this
    {
      KeysKept() && ServerKept() && PairingKept()
      && sent == old(sent) && chatLog == old(chatLog) && shown == old(shown) + texts
    }

    /** `initSocket` once the socket is open. */
    method InitSocket(id: nat)
      modifies this
      ensures socket == Open(id)
      ensures sessionToken == old(sessionToken) && linkKey == old(linkKey) && myKey == old(myKey)
      ensures ServerKept() && PairingKept() && sent == old(sent) && shown == old(shown) && chatLog == old(chatLog)
    {
      socket := Open(id);
    }

    /** The user types the key phrase. */
    method EnterPass(pass: string)
      modifies this
      ensures passField == pass
      ensures KeysKept() && ServerKept() && sent == old(sent) && shown == old(shown) && chatLog == old(chatLog)
      ensures meHandshakeInitiator == old(meHandshakeInitiator) && success == old(success) && otherPublicKey == old(otherPublicKey)
    {
      passField := pass;
    }

    /** `socket.send`: recorded on an open socket; a `null` one throws and a closed one drops it. */
    method Send(frame: Json)
      modifies this
      ensures sent == old(sent) + (if socket.Open? then [frame] else [])
      ensures KeysKept() && ServerKept() && PairingKept() && shown == old(shown) && chatLog == old(chatLog)
    {
      if socket.Open? {
        sent := sent + [frame];
      }
    }

    /** `registerClient`: one REGISTER request. */
    method RegisterClient()
      modifies this
      ensures sent == old(sent) + (if socket.Open? then [JObj(map["type" := JStr(ToRegister)])] else [])
      ensures KeysKept() && ServerKept() && PairingKept() && shown == old(shown) && chatLog == old(chatLog)
    {
      Send(JObj(map["type" := JStr(ToRegister)]));
    }

    /**
     * `linkClient` as written: the guard reads `.success` of the boolean
     * `checkPassword` returns, which is `undefined`, so it always shows
     * the error (`.message` is `undefined` too, so the empty text) and
     * returns before anything else happens.
     */
    method LinkClientAsWritten(isoNow: string, linkPair: KeyPair, myPair: KeyPair)
      modifies this
      ensures OnlyShown([""])
    {
      var passCheck := Val(JBool(CheckPassword(passField)));
      if Truthy(GetProp(passCheck, "success").value) {
        // the rest of `linkClient` (token, key pairs, LINK) is never reached
        assert false;
      }
      shown := shown + [ErrorText(GetProp(passCheck, "message").value)];
    }

    /**
     * `linkClient` with the guard testing the boolean itself: a key phrase
     * that passes `checkPassword` sets the session token and two fresh
     * key pairs, then sends one LINK with the link key and the token.
     */
    method LinkClient(isoNow: string, linkPair: KeyPair, myPair: KeyPair)
      modifies this
      ensures !CheckPassword(old(passField)) ==> OnlyShown([""])
      ensures CheckPassword(old(passField)) ==>
        && sessionToken == DeriveSessionToken(p, old(passField), isoNow)
        && linkKey == Generated(p, linkPair) && myKey == Generated(p, myPair)
        && sent == old(sent) + (if socket.Open? then [LinkRequestFrame(linkKey.public64, sessionToken)] else [])
        && socket == old(socket) && ServerKept() && PairingKept() && shown == old(shown) && chatLog == old(chatLog)
    {
      if !CheckPassword(passField) {
        shown := shown + [""];
        return;
      }
      sessionToken := DeriveSessionToken(p, passField, isoNow);
      linkKey := Generated(p, linkPair);
      myKey := Generated(p, myPair);
      Send(LinkRequestFrame(linkKey.public64, sessionToken));
    }

    /** `sendHandshake`: at most one HANDSHAKE request; no field changes. */
    method SendHandshake(sym: SymNonce, n: HybridNonce)
      modifies this
      ensures var frame := HandshakeFrame(p, old(myKey.public64), old(passField), old(sessionToken), old(serverEncryptKey), sym, n);
        sent == old(sent) + (if socket.Open? && frame.Some? then [frame.value] else [])
      ensures KeysKept() && ServerKept() && PairingKept() && shown == old(shown) && chatLog == old(chatLog)
    {
      var frame := HandshakeFrame(p, myKey.public64, passField, sessionToken, serverEncryptKey, sym, n);
      if frame.Some? {
        Send(frame.value);
      }
    }

    /** `sendChatMessage(text)`: at most one MESSAGE request; no field changes. */
    method SendChatMessage(text: string, inner: HybridNonce, outer: HybridNonce)
      modifies this
      ensures var frame := ChatFrame(p, old(otherPublicKey), old(sessionToken), old(serverEncryptKey), text, inner, outer);
        sent == old(sent) + (if socket.Open? && frame.Some? then [frame.value] else [])
      ensures KeysKept() && ServerKept() && PairingKept() && shown == old(shown) && chatLog == old(chatLog)
    {
      var frame := ChatFrame(p, otherPublicKey, sessionToken, serverEncryptKey, text, inner, outer);
      if frame.Some? {
        Send(frame.value);
      }
    }

    /** The effect of `onLinkOk(linkData)` on a value whose two keys import. */
    twostate predicate LinkOkEffect(linkData: JsValue, sym: SymNonce, n: HybridNonce)
      reads this
      requires linkData != Undefined && linkData != Val(JNull)
    {
      var enc := GetProp(linkData, "encryptKey").value;
      var sig := GetProp(linkData, "signKey").value;
      var complete := LooseEqualsOne(GetProp(linkData, "complete").value);
      && ImportPublicKey(p, enc).Some? && ImportSignKey(p, sig).Some?
      && serverEncrypt64 == enc && serverEncryptKey == Key(ImportPublicKey(p, enc).value)
      && serverSign64 == sig && serverSignKey == Key(ImportSignKey(p, sig).value)
      && meHandshakeInitiator == (old(meHandshakeInitiator) || complete)
      && (var frame := HandshakeFrame(p, old(myKey.public64), old(passField), old(sessionToken), serverEncryptKey, sym, n);
          sent == old(sent) + (if complete && socket.Open? && frame.Some? then [frame.value] else []))
      && KeysKept() && success == old(success) && otherPublicKey == old(otherPublicKey) && passField == old(passField)
      && shown == old(shown) && chatLog == old(chatLog)
    }

    /** A rejected handler: only "Wrong message format" is shown, and no key, pairing field or outbox changes. */
    twostate predicate RejectedKeys()
      reads this
    {
      KeysKept() && PairingKept() && Quiet() && shown == old(shown) + [WrongFormat]
    }

    /**
     * The effect of `onLinkOk(linkData)` on any value. The assignments run
     * in order until `linkData` is `null` or `undefined` or a key does not
     * import; that rejects the handler, and the fields written before the
     * failure keep their new values.
     */
    twostate predicate LinkOkOutcome(linkData: JsValue, sym: SymNonce, n: HybridNonce)
      reads this
    {
      var enc := GetProp(linkData, "encryptKey");
      if enc.None? then OnlyShown([WrongFormat])
      else if ImportPublicKey(p, enc.value).None? then
        && serverEncrypt64 == enc.value && serverEncryptKey == old(serverEncryptKey)
        && serverSign64 == old(serverSign64) && serverSignKey == old(serverSignKey)
        && RejectedKeys()
      else if ImportSignKey(p, GetProp(linkData, "signKey").value).None? then
        && serverEncrypt64 == enc.value && serverEncryptKey == Key(ImportPublicKey(p, enc.value).value)
        && serverSign64 == GetProp(linkData, "signKey").value && serverSignKey == old(serverSignKey)
        && RejectedKeys()
      else LinkOkEffect(linkData, sym, n)
    }

    /**
     * `onLinkOk(linkData)`: store both relay keys; with `complete == 1`
     * become the initiator and send the handshake, otherwise wait.
     */
    method OnLinkOk(linkData: JsValue, sym: SymNonce, n: HybridNonce)
      modifies this
      ensures LinkOkOutcome(linkData, sym, n)
      ensures sent != old(sent) ==> serverEncryptKey.Key? && meHandshakeInitiator
    {
      var stored := StoreEncryptKey(linkData);
      if !stored {
        return;
      }
      stored := StoreSignKey(linkData);
      if stored && LooseEqualsOne(GetProp(linkData, "complete").value) {
        meHandshakeInitiator := true;
        SendHandshake(sym, n);
      }
    }

    /**
     * The first two assignments of `onLinkOk`; a key that does not import
     * rejects the handler, which shows "Wrong message format".
     */
    method StoreEncryptKey(linkData: JsValue) returns (ok: bool)
      modifies this
      ensures ok <==> linkData != Undefined && linkData != Val(JNull)
                      && ImportPublicKey(p, GetProp(linkData, "encryptKey").value).Some?
      ensures ok ==> && serverEncrypt64 == GetProp(linkData, "encryptKey").value
                     && serverEncryptKey == Key(ImportPublicKey(p, serverEncrypt64).value)
                     && shown == old(shown)
      ensures !ok ==> && shown == old(shown) + [WrongFormat] && serverEncryptKey == old(serverEncryptKey)
                      && serverEncrypt64 == (if linkData == Undefined || linkData == Val(JNull) then old(serverEncrypt64)
                                             else GetProp(linkData, "encryptKey").value)
      ensures serverSign64 == old(serverSign64) && serverSignKey == old(serverSignKey)
      ensures KeysKept() && PairingKept() && Quiet()
    {
      var enc := GetProp(linkData, "encryptKey");
      if enc.None? {
        shown := shown + [WrongFormat];
        return false;
      }
      serverEncrypt64 := enc.value;
      var encryptKey := ImportPublicKey(p, serverEncrypt64);
      if encryptKey.None? {
        shown := shown + [WrongFormat];
        return false;
      }
      serverEncryptKey := Key(encryptKey.value);
      return true;
    }

    /** The last two assignments of `onLinkOk`, on an object that is not `null` or `undefined`. */
    method StoreSignKey(linkData: JsValue) returns (ok: bool)
      modifies this
      requires linkData != Undefined && linkData != Val(JNull)
      ensures ok <==> ImportSignKey(p, GetProp(linkData, "signKey").value).Some?
      ensures serverSign64 == GetProp(linkData, "signKey").value
      ensures ok ==> serverSignKey == Key(ImportSignKey(p, serverSign64).value) && shown == old(shown)
      ensures !ok ==> shown == old(shown) + [WrongFormat] && serverSignKey == old(serverSignKey)
      ensures serverEncrypt64 == old(serverEncrypt64) && serverEncryptKey == old(serverEncryptKey)
      ensures KeysKept() && PairingKept() && Quiet()
    {
      serverSign64 := GetProp(linkData, "signKey").value;
      var signKey := ImportSignKey(p, serverSign64);
      if signKey.None? {
        shown := shown + [WrongFormat];
        return false;
      }
      serverSignKey := Key(signKey.value);
      return true;
    }

    /** The effect of `onHandshakeData(handshakeData)` when the peer's key opens and imports. */
    twostate predicate HandshakeEffect(otherKey: PublicKey, sym: SymNonce, n: HybridNonce)
      reads this
    {
      && otherPublicKey == Key(otherKey) && success && passField == ""
      && meHandshakeInitiator == old(meHandshakeInitiator)
      && (var frame := HandshakeFrame(p, old(myKey.public64), old(passField), old(sessionToken), old(serverEncryptKey), sym, n);
          sent == old(sent) + (if !old(meHandshakeInitiator) && socket.Open? && frame.Some? then [frame.value] else []))
      && KeysKept() && ServerKept() && shown == old(shown) && chatLog == old(chatLog)
    }

    /**
     * `onHandshakeData(handshakeData)`: store the peer's key; the side that
     * did not start the exchange answers with its own handshake; both
     * sides then succeed and clear the key-phrase input.
     */
    method OnHandshakeData(handshakeData: Json, sym: SymNonce, n: HybridNonce)
      modifies this
      ensures PeerKey(p, handshakeData, old(passField)).Some? ==> HandshakeEffect(PeerKey(p, handshakeData, old(passField)).value, sym, n)
      ensures PeerKey(p, handshakeData, old(passField)).None? ==> OnlyShown([WrongFormat])
    {
      var other := PeerKey(p, handshakeData, passField);
      if other.None? {
        shown := shown + [WrongFormat];
        return;
      }
      AcceptPeerKey(other.value, sym, n);
    }

    /** The body of `onHandshakeData` once the peer's key was read. */
    method AcceptPeerKey(other: PublicKey, sym: SymNonce, n: HybridNonce)
      modifies this
      ensures HandshakeEffect(other, sym, n)
    {
      otherPublicKey := Key(other);
      if !meHandshakeInitiator {
        SendHandshake(sym, n);
      }
      success := true;
      passField := "";
    }

    /**
     * `burn`: the twelve key and token fields become "XXXXXXXXXXX", the
     * key-phrase input is cleared, a non-null socket is closed, and the
     * connection is no longer successful.
     */
    method Burn()
      modifies this
      ensures Erased()
      ensures passField == "" && !success && meHandshakeInitiator == old(meHandshakeInitiator)
      ensures socket == (if old(socket) == NullSocket then NullSocket else Closed(old(socket).id))
      ensures shown == old(shown) + [BurnedText] && sent == old(sent) && chatLog == old(chatLog)
    {
      passField := "";
      EraseOwnKeys();
      EraseServerKeys();
      if socket != NullSocket {
        socket := Closed(socket.id);
      }
      success := false;
      shown := shown + [BurnedText];
    }

    /** The twelve key and token fields all hold the erase string. */
    predicate Erased()
      reads this
    {
      && linkKey == KeyRecord(Text(EraseString), Text(EraseString), EraseString)
      && myKey == KeyRecord(Text(EraseString), Text(EraseString), EraseString)
      && sessionToken == EraseString && otherPublicKey == Text(EraseString)
      && serverEncrypt64 == Val(JStr(EraseString)) && serverEncryptKey == Text(EraseString)
      && serverSign64 == Val(JStr(EraseString)) && serverSignKey == Text(EraseString)
    }

    method EraseOwnKeys()
      modifies this
      ensures linkKey == KeyRecord(Text(EraseString), Text(EraseString), EraseString)
      ensures myKey == KeyRecord(Text(EraseString), Text(EraseString), EraseString)
      ensures sessionToken == EraseString && otherPublicKey == Text(EraseString)
      ensures socket == old(socket) && ServerKept() && passField == old(passField)
      ensures meHandshakeInitiator == old(meHandshakeInitiator) && success == old(success)
      ensures sent == old(sent) && shown == old(shown) && chatLog == old(chatLog)
    {
      linkKey := KeyRecord(Text(EraseString), Text(EraseString), EraseString);
      myKey := KeyRecord(Text(EraseString), Text(EraseString), EraseString);
      sessionToken := EraseString;
      otherPublicKey := Text(EraseString);
    }

    method EraseServerKeys()
      modifies this
      ensures serverEncrypt64 == Val(JStr(EraseString)) && serverEncryptKey == Text(EraseString)
      ensures serverSign64 == Val(JStr(EraseString)) && serverSignKey == Text(EraseString)
      ensures KeysKept() && PairingKept() && sent == old(sent) && shown == old(shown) && chatLog == old(chatLog)
    {
      serverEncrypt64 := Val(JStr(EraseString));
      serverEncryptKey := Text(EraseString);
      serverSign64 := Val(JStr(EraseString));
      serverSignKey := Text(EraseString);
    }

    /**
     * What the LINK_OK case does with `result`: a link key that is not a key
     * or an envelope that does not open rejects; otherwise `onLinkOk` runs
     * on what opened (`null` for a packet of fewer than three fields).
     */
    twostate predicate LinkOkHandled(result: Json, sym: SymNonce, n: HybridNonce)
      reads this
    {
      if !old(linkKey.privateKey).Key? then OnlyShown([WrongFormat])
      else
        match HybridDecrypt(p, old(linkKey.privateKey).k, Val(result))
        case Thrown => OnlyShown([WrongFormat])
        case NullFrame => LinkOkOutcome(Val(JNull), sym, n)
        case Value(v) => LinkOkOutcome(Val(v), sym, n)
    }

    /** Only the chat grows, by `message`. */
    twostate predicate Displayed(message: Json)
      reads this
    {
      KeysKept() && ServerKept() && PairingKept() && sent == old(sent) && shown == old(shown)
      && chatLog == old(chatLog) + [message]
    }

    /**
     * What the MESSAGE case does with `result`: a message key that is not a
     * key or an envelope that does not open rejects; otherwise what opened
     * (`null` for a packet of fewer than three fields) is displayed.
     */
    twostate predicate ChatHandled(result: Json)
      reads this
    {
      if !old(myKey.privateKey).Key? then OnlyShown([WrongFormat])
      else
        match HybridDecrypt(p, old(myKey.privateKey).k, Val(result))
        case Thrown => OnlyShown([WrongFormat])
        case NullFrame => Displayed(JNull)
        case Value(v) => Displayed(v)
    }

    /** The LINK_OK case: the result is opened with the link key and handed to `onLinkOk`. */
    method OpenLinkOk(result: Json, sym: SymNonce, n: HybridNonce)
      modifies this
      ensures LinkOkHandled(result, sym, n)
    {
      if !linkKey.privateKey.Key? {
        shown := shown + [WrongFormat];
      } else {
        var unwrapped := HybridDecrypt(p, linkKey.privateKey.k, Val(result));
        match unwrapped {
          case Thrown => shown := shown + [WrongFormat];
          case NullFrame => OnLinkOk(Val(JNull), sym, n);
          case Value(v) => OnLinkOk(Val(v), sym, n);
        }
      }
    }

    /** The MESSAGE case: the result is opened with the message key and the text is added to the chat. */
    method OpenChatMessage(result: Json)
      modifies this
      ensures ChatHandled(result)
    {
      if !myKey.privateKey.Key? {
        shown := shown + [WrongFormat];
      } else {
        var unwrapped := HybridDecrypt(p, myKey.privateKey.k, Val(result));
        match unwrapped {
          case Thrown => shown := shown + [WrongFormat];
          case NullFrame => chatLog := chatLog + [JNull];
          case Value(v) => chatLog := chatLog + [v];
        }
      }
    }

    /**
     * `onSocketMessage(event)` for the frame text `frame`; `sym` and `n`
     * are the randomness of a handshake it may send.
     */
    method OnSocketMessage(frame: string, sym: SymNonce, n: HybridNonce)
      modifies this
      ensures var r := old(Route(p, serverSignKey, frame));
        && (r.ServerError? ==> OnlyShown([r.text]))
        && (r.RegisterOk? ==> OnlyShown([]))
        && (r.BadSignature? ==> OnlyShown([BadSignatureText]))
        && (r.UnknownStatus? ==> OnlyShown([UnknownText]))
        && (r.Rejected? ==> OnlyShown([WrongFormat]))
        && (r.LinkOk? ==> LinkOkHandled(r.result, sym, n))
        && (r.HandshakeData? ==>
              var other := PeerKey(p, r.result, old(passField));
              (other.Some? ==> HandshakeEffect(other.value, sym, n)) && (other.None? ==> OnlyShown([WrongFormat])))
        && (r.ChatMessage? ==> ChatHandled(r.result))
    {
      var r := Route(p, serverSignKey, frame);
      match r
      case ServerError(text) =>
        shown := shown + [text];
      case RegisterOk =>
      case LinkOk(result) =>
        OpenLinkOk(result, sym, n);
      case HandshakeData(result) =>
        OnHandshakeData(result, sym, n);
      case ChatMessage(result) =>
        OpenChatMessage(result);
      case BadSignature =>
        shown := shown + [BadSignatureText];
      case UnknownStatus =>
        shown := shown + [UnknownText];
      case Rejected =>
        shown := shown + [WrongFormat];
    }
  }

  // ---------------------------------------------------------------------
  // Properties
  // ---------------------------------------------------------------------

  /** The `.success` of a boolean is `undefined`, so the guard of `linkClient` as written never lets a call through. */
  lemma GuardAlwaysFails(b: bool)
    ensures GetProp(Val(JBool(b)), "success") == Some(Undefined)
    ensures !Truthy(GetProp(Val(JBool(b)), "success").value)
    ensures ErrorText(GetProp(Val(JBool(b)), "message").value) == ""
  {
  }

  /**
   * The handshake a client sends carries its message key wrapped under the
   * key phrase; a peer that typed the same phrase unwraps and imports
   * exactly that key.
   */
  lemma HandshakeKeyOpens(p: Platform, k: PublicKey, pass: string, token: string, sym: SymNonce)
    requires Sound(p)
    requires IsLatin1(sym.clock)
    ensures EncryptSymmetric(p, JStr(p.exportKey(k)), pass, sym).Some?
    ensures PeerKey(p, HandshakePayload(EncryptSymmetric(p, JStr(p.exportKey(k)), pass, sym).value, token), pass) == Some(k)
  {
    var keyText := EncryptSymmetric(p, JStr(p.exportKey(k)), pass, sym);
    SymmetricRoundTrip(p, JStr(p.exportKey(k)), pass, sym);
    PeerKeyOf(p, keyText.value, token, pass);
  }

  /** The peer key of a handshake payload is what its `key` text opens to under the phrase, imported. */
  lemma PeerKeyOf(p: Platform, keyText: string, token: string, pass: string)
    ensures PeerKey(p, HandshakePayload(keyText, token), pass) ==
      match ReadSymmetric(p, pass, keyText)
      case Thrown => None
      case NullFrame => p.importKey("null")
      case Value(v) => p.importKey(JsToString(Val(v)))
  {
    var f := map["key" := JStr(keyText), "token" := JStr(token)];
    assert "key" in f && f["key"] == JStr(keyText);
    assert JsToString(Val(JStr(keyText))) == keyText;
  }

  /**
   * With the relay's key held and Latin-1 clock texts, `sendHandshake`
   * builds a frame: the payload `{key, token}` wrapped for the relay and
   * typed HANDSHAKE.
   */
  lemma HandshakeFrameBuilt(p: Platform, public64: string, pass: string, token: string, relayId: nat,
                            sym: SymNonce, n: HybridNonce)
    requires Sound(p)
    requires IsLatin1(sym.clock) && IsLatin1(n.sym.clock)
    ensures EncryptSymmetric(p, JStr(public64), pass, sym).Some?
    ensures var payload := HandshakePayload(EncryptSymmetric(p, JStr(public64), pass, sym).value, token);
      && HybridEncrypt(p, PublicKey(relayId), payload, n).Some?
      && HandshakeFrame(p, public64, pass, token, Key(PublicKey(relayId)), sym, n)
         == Some(EnvelopeWith(HybridEncrypt(p, PublicKey(relayId), payload, n).value, "type", JStr(ToHandshake)))
  {
    EncryptSucceedsIff(p, JStr(public64), pass, sym);
    var payload := HandshakePayload(EncryptSymmetric(p, JStr(public64), pass, sym).value, token);
    HybridSucceedsIff(p, PublicKey(relayId), payload, n);
  }

  /**
   * With both keys held and Latin-1 clock texts, `sendChatMessage` builds
   * a frame: the text wrapped for the peer, the token added, that wrapped
   * for the relay and typed MESSAGE.
   */
  lemma ChatFrameBuilt(p: Platform, peerId: nat, token: string, relayId: nat, text: string,
                       inner: HybridNonce, outer: HybridNonce)
    requires Sound(p)
    requires IsLatin1(inner.sym.clock) && IsLatin1(outer.sym.clock)
    ensures HybridEncrypt(p, PublicKey(peerId), JStr(text), inner).Some?
    ensures var forPeer := EnvelopeWith(HybridEncrypt(p, PublicKey(peerId), JStr(text), inner).value, "token", JStr(token));
      && HybridEncrypt(p, PublicKey(relayId), forPeer, outer).Some?
      && ChatFrame(p, Key(PublicKey(peerId)), token, Key(PublicKey(relayId)), text, inner, outer)
         == Some(EnvelopeWith(HybridEncrypt(p, PublicKey(relayId), forPeer, outer).value, "type", JStr(ToMessage)))
  {
    HybridSucceedsIff(p, PublicKey(peerId), JStr(text), inner);
    var forPeer := EnvelopeWith(HybridEncrypt(p, PublicKey(peerId), JStr(text), inner).value, "token", JStr(token));
    HybridSucceedsIff(p, PublicKey(relayId), forPeer, outer);
  }
}
