/**
 * The relay and the browser client together: what a `Connection` makes
 * of the relay's replies, and the path of a handshake and of a chat
 * message from one client, through the relay, to the other.
 */
module Pairing {
  import opened Js
  import opened Platform
  import opened Hex
  import opened SymmetricFrame
  import opened Hybrid
  import opened Protocol
  import opened Server
  import opened Client

  function SignPair(signId: nat): SignKeyPair
  {
    SignKeyPair(SignPublicKey(signId), SignPrivateKey(signId))
  }

  function RsaPair(id: nat): KeyPair
  {
    KeyPair(PublicKey(id), PrivateKey(id))
  }

  /** The `status` and `result` of a reply object, read back from its text. */
  lemma ReplyFields(p: Platform, signId: nat, status: string, t: string)
    requires Sound(p)
    ensures var reply := ReplyMessage(p, SignPair(signId), status, JStr(t));
      && p.parse(p.stringify(reply)) == Some(reply)
      && GetProp(Val(reply), "status") == Some(Val(JStr(status)))
      && GetProp(Val(reply), "result") == Some(Val(JStr(t)))
      && SignBytes(reply).Some?
      && p.pssVerify(SignPublicKey(signId), p.utf8Encode(t), SignBytes(reply).value)
  {
    ReplySigned(p, signId, status, JStr(t));
  }

  /** How `onSocketMessage` routes a frame whose result is a string, by status and signature. */
  lemma RouteOfFrame(p: Platform, held: Held<SignPublicKey>, frame: string, data: Json,
                     status: string, t: string, payload: Json)
    requires p.parse(frame) == Some(data)
    requires GetProp(Val(data), "status") == Some(Val(JStr(status)))
    requires GetProp(Val(data), "result") == Some(Val(JStr(t)))
    requires p.parse(t) == Some(payload)
    requires status == FromHandshakeData || status == FromMessage || status == FromLinkOk
    requires status != FromLinkOk ==> held.Key? && SignBytes(data).Some?
    ensures Route(p, held, frame) ==
      if status == FromLinkOk then LinkOk(payload)
      else if !p.pssVerify(held.k, p.utf8Encode(t), SignBytes(data).value) then BadSignature
      else if status == FromHandshakeData then HandshakeData(payload)
      else ChatMessage(payload)
  {
    assert JsToString(Val(JStr(t))) == t;
  }

  /**
   * A reply the relay sends with LINK_OK, HANDSHAKE_DATA or MESSAGE is
   * routed by the client to the matching handler with the payload the
   * relay put in it. LINK_OK needs no key; the other two need the relay's
   * signing key to be the one the client holds.
   */
  lemma RelayReplyRoutes(p: Platform, signId: nat, held: Held<SignPublicKey>, status: string, payload: Json)
    requires Sound(p)
    requires status == FromLinkOk || (held == Key(SignPublicKey(signId)) && (status == FromHandshakeData || status == FromMessage))
    ensures var reply := ReplyMessage(p, SignPair(signId), status, JStr(p.stringify(payload)));
      Route(p, held, p.stringify(reply)) ==
        if status == FromLinkOk then LinkOk(payload)
        else if status == FromHandshakeData then HandshakeData(payload)
        else ChatMessage(payload)
  {
    var t := p.stringify(payload);
    ReplyFields(p, signId, status, t);
    var reply := ReplyMessage(p, SignPair(signId), status, JStr(t));
    RouteOfFrame(p, held, p.stringify(reply), reply, status, t, payload);
  }

  /**
   * A HANDSHAKE_DATA or MESSAGE reply checked against the key of another
   * pair than the relay's is reported as a bad signature and not handled.
   */
  lemma ForeignReplyRejected(p: Platform, signId: nat, otherId: nat, status: string, payload: Json)
    requires Sound(p) && Separated(p)
    requires otherId != signId
    requires status == FromHandshakeData || status == FromMessage
    ensures Route(p, Key(SignPublicKey(otherId)), p.stringify(ReplyMessage(p, SignPair(signId), status, JStr(p.stringify(payload))))) == BadSignature
  {
    var t := p.stringify(payload);
    ReplyFields(p, signId, status, t);
    var sig := p.pssSign(SignPrivateKey(signId), p.utf8Encode(t));
    assert !p.pssVerify(SignPublicKey(otherId), p.utf8Encode(t), sig);
    HexRoundTrip(sig);
    var reply := ReplyMessage(p, SignPair(signId), status, JStr(t));
    assert SignBytes(reply) == Some(sig);
    RouteOfFrame(p, Key(SignPublicKey(otherId)), p.stringify(reply), reply, status, t, payload);
  }

  /** An ERROR reply with the base64 of a Latin-1 reason shows that reason, whatever key is held. */
  lemma ErrorReplyShown(p: Platform, signId: nat, held: Held<SignPublicKey>, reason: string)
    requires Sound(p)
    requires IsLatin1(reason)
    ensures p.btoa(reason).Some?
    ensures Route(p, held, p.stringify(ReplyMessage(p, SignPair(signId), FromError, JStr(p.btoa(reason).value)))) == ServerError(reason)
  {
    var t := p.btoa(reason).value;
    ReplyFields(p, signId, FromError, t);
    assert JsToString(Val(JStr(t))) == t;
  }

  /** A request the relay rejects shows its reason at the sender: the bad token format or the missing chat. */
  lemma RejectionShown(p: Platform, relayId: nat, signId: nat, chats: map<string, Chat>, ws: nat,
                       received: Json, status: string, held: Held<SignPublicKey>)
    requires Sound(p)
    requires GetAllFromReceived(p, PrivateKey(relayId), chats, received).Invalid?
    ensures var out := ForwardDeliveries(p, RsaPair(relayId), SignPair(signId), chats, ws, received, status);
      && |out| == 1 && out[0].to == ws
      && Route(p, held, p.stringify(out[0].message))
         == ServerError(GetAllFromReceived(p, PrivateKey(relayId), chats, received).reason)
  {
    var reason := GetAllFromReceived(p, PrivateKey(relayId), chats, received).reason;
    ForwardRejected(p, RsaPair(relayId), SignPair(signId), chats, ws, received, status);
    ReasonsAreAscii();
    AsciiIsLatin1(reason);
    ErrorReplyShown(p, signId, held, reason);
  }

  /**
   * The LINK_OK path: the reply goes to the linking client, which routes
   * it to `onLinkOk` with an envelope its link key opens to `sendData`.
   */
  lemma LinkReplyDelivers(p: Platform, relayId: nat, signId: nat, ws: nat, received: Json,
                          complete: int, n: HybridNonce, id: nat, held: Held<SignPublicKey>)
    requires Sound(p)
    requires IsLatin1(n.sym.clock)
    requires received.JObj?
    requires ImportPublicKey(p, GetProp(Val(received), "key").value) == Some(PublicKey(id))
    ensures var out := LinkDeliveries(p, RsaPair(relayId), SignPair(signId), ws, received, complete, n);
      && |out| == 1 && out[0].to == ws
      && var r := Route(p, held, p.stringify(out[0].message));
         && r.LinkOk?
         && HybridDecrypt(p, PrivateKey(id), Val(r.result)) == Value(LinkData(p, RsaPair(relayId), SignPair(signId), complete))
  {
    var data := LinkData(p, RsaPair(relayId), SignPair(signId), complete);
    HybridRoundTrip(p, id, data, n);
    var e := HybridEncrypt(p, PublicKey(id), data, n).value;
    var out := LinkDeliveries(p, RsaPair(relayId), SignPair(signId), ws, received, complete, n);
    assert out == [Delivery(ws, ReplyMessage(p, SignPair(signId), FromLinkOk, JStr(p.stringify(EnvelopeJson(e)))))];
    RelayReplyRoutes(p, signId, held, FromLinkOk, EnvelopeJson(e));
    assert Route(p, held, p.stringify(out[0].message)) == LinkOk(EnvelopeJson(e));
  }

  /**
   * `sendData` holds the relay's two public keys, both of which import,
   * and a `complete` that compares equal to 1 exactly when the chat
   * already had its first client.
   */
  lemma LinkDataImports(p: Platform, relayId: nat, signId: nat, complete: int)
    requires Sound(p)
    ensures var data := LinkData(p, RsaPair(relayId), SignPair(signId), complete);
      && ImportPublicKey(p, GetProp(Val(data), "encryptKey").value) == Some(PublicKey(relayId))
      && ImportSignKey(p, GetProp(Val(data), "signKey").value) == Some(SignPublicKey(signId))
      && (LooseEqualsOne(GetProp(Val(data), "complete").value) <==> complete == 1)
  {
    var data := LinkData(p, RsaPair(relayId), SignPair(signId), complete);
    assert GetProp(Val(data), "encryptKey") == Some(Val(JStr(p.exportKey(PublicKey(relayId)))));
    assert GetProp(Val(data), "signKey") == Some(Val(JStr(p.exportSignKey(SignPublicKey(signId)))));
    assert GetProp(Val(data), "complete") == Some(Val(JNum(complete)));
  }

  /** The payload a client wraps carries its token, which is the key the relay looks up. */
  lemma PayloadTokens(keyText: string, e: Envelope, token: string)
    ensures TokenKey(HandshakePayload(keyText, token)) == token
    ensures TokenKey(EnvelopeWith(e, "token", JStr(token))) == token
  {
    assert GetProp(Val(HandshakePayload(keyText, token)), "token") == Some(Val(JStr(token)));
    assert GetProp(Val(EnvelopeWith(e, "token", JStr(token))), "token") == Some(Val(JStr(token)));
  }

  /**
   * An accepted HANDSHAKE or MESSAGE request whose chat has another
   * occupant is answered to that occupant alone, and the client there
   * routes the reply to the matching handler with the relay's payload.
   */
  lemma RelayedToPeer(p: Platform, relayId: nat, signId: nat, chats: map<string, Chat>, ws: nat,
                      frame: Json, status: string)
    requires Sound(p)
    requires status == FromHandshakeData || status == FromMessage
    requires GetAllFromReceived(p, PrivateKey(relayId), chats, frame).Valid?
    requires Peer(GetAllFromReceived(p, PrivateKey(relayId), chats, frame).chat, ws).Occupied?
    ensures var v := GetAllFromReceived(p, PrivateKey(relayId), chats, frame);
      var out := ForwardDeliveries(p, RsaPair(relayId), SignPair(signId), chats, ws, frame, status);
      && |out| == 1 && out[0].to == Peer(v.chat, ws).ws
      && Route(p, Key(SignPublicKey(signId)), p.stringify(out[0].message))
         == if status == FromHandshakeData then HandshakeData(v.data) else ChatMessage(v.data)
  {
    var v := GetAllFromReceived(p, PrivateKey(relayId), chats, frame);
    var reply := ReplyMessage(p, SignPair(signId), status, JStr(p.stringify(v.data)));
    assert ForwardDeliveries(p, RsaPair(relayId), SignPair(signId), chats, ws, frame, status)
      == [Delivery(Peer(v.chat, ws).ws, reply)];
    RelayReplyRoutes(p, signId, Key(SignPublicKey(signId)), status, v.data);
  }

  /**
   * The handshake path: a handshake carrying the token of a chat whose
   * other slot is taken reaches that other client alone, is routed to
   * `onHandshakeData`, and yields there the sender's message key when
   * both typed the same key phrase.
   */
  lemma HandshakeReachesPeer(p: Platform, relayId: nat, signId: nat, chats: map<string, Chat>, ws: nat,
                             myKey: PublicKey, pass: string, token: string, sym: SymNonce, n: HybridNonce)
    requires Sound(p)
    requires IsLatin1(sym.clock) && IsLatin1(n.sym.clock)
    requires IsTokenFormat(token) && token in chats && Peer(chats[token], ws).Occupied?
    ensures HandshakeFrame(p, p.exportKey(myKey), pass, token, Key(PublicKey(relayId)), sym, n).Some?
    ensures var frame := HandshakeFrame(p, p.exportKey(myKey), pass, token, Key(PublicKey(relayId)), sym, n).value;
      var out := ForwardDeliveries(p, RsaPair(relayId), SignPair(signId), chats, ws, frame, FromHandshakeData);
      && |out| == 1 && out[0].to == Peer(chats[token], ws).ws
      && var r := Route(p, Key(SignPublicKey(signId)), p.stringify(out[0].message));
         r.HandshakeData? && PeerKey(p, r.result, pass) == Some(myKey)
  {
    var public64 := p.exportKey(myKey);
    HandshakeFrameBuilt(p, public64, pass, token, relayId, sym, n);
    var keyText := EncryptSymmetric(p, JStr(public64), pass, sym).value;
    var payload := HandshakePayload(keyText, token);
    PayloadTokens(keyText, Envelope("", ""), token);
    ClientRequestValidation(p, relayId, chats, payload, n, ToHandshake);
    var frame := EnvelopeWith(HybridEncrypt(p, PublicKey(relayId), payload, n).value, "type", JStr(ToHandshake));
    assert GetAllFromReceived(p, PrivateKey(relayId), chats, frame) == Valid(chats[token], payload);
    RelayedToPeer(p, relayId, signId, chats, ws, frame, FromHandshakeData);
    HandshakeKeyOpens(p, myKey, pass, token, sym);
  }

  /**
   * The chat path: a message carrying the token of a chat whose other
   * slot is taken reaches that other client alone, is routed to the chat
   * handler, and opens under the peer's private key to the text sent.
   */
  lemma ChatReachesPeer(p: Platform, relayId: nat, signId: nat, chats: map<string, Chat>, ws: nat,
                        peerId: nat, token: string, text: string, inner: HybridNonce, outer: HybridNonce)
    requires Sound(p)
    requires IsLatin1(inner.sym.clock) && IsLatin1(outer.sym.clock)
    requires IsTokenFormat(token) && token in chats && Peer(chats[token], ws).Occupied?
    ensures ChatFrame(p, Key(PublicKey(peerId)), token, Key(PublicKey(relayId)), text, inner, outer).Some?
    ensures var frame := ChatFrame(p, Key(PublicKey(peerId)), token, Key(PublicKey(relayId)), text, inner, outer).value;
      var out := ForwardDeliveries(p, RsaPair(relayId), SignPair(signId), chats, ws, frame, FromMessage);
      && |out| == 1 && out[0].to == Peer(chats[token], ws).ws
      && var r := Route(p, Key(SignPublicKey(signId)), p.stringify(out[0].message));
         r.ChatMessage? && HybridDecrypt(p, PrivateKey(peerId), Val(r.result)) == Value(JStr(text))
  {
    ChatFrameBuilt(p, peerId, token, relayId, text, inner, outer);
    var e := HybridEncrypt(p, PublicKey(peerId), JStr(text), inner).value;
    var forPeer := EnvelopeWith(e, "token", JStr(token));
    PayloadTokens("", e, token);
    ClientRequestValidation(p, relayId, chats, forPeer, outer, ToMessage);
    var frame := EnvelopeWith(HybridEncrypt(p, PublicKey(relayId), forPeer, outer).value, "type", JStr(ToMessage));
    assert GetAllFromReceived(p, PrivateKey(relayId), chats, frame) == Valid(chats[token], forPeer);
    RelayedToPeer(p, relayId, signId, chats, ws, frame, FromMessage);
    HybridRoundTripWith(p, peerId, JStr(text), inner, "token", JStr(token));
  }
}
