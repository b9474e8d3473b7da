/**
 * The relay of server/server.js: a table of chats keyed by session token,
 * each holding the sockets of the two clients that linked with that token,
 * and the handlers for REGISTER, LINK, HANDSHAKE, MESSAGE and socket close.
 *
 * Sockets are numbered. A message handler runs as one atomic step: every
 * change it makes to the table happens before its first `await`. Where the
 * handler's promise rejects (a `JSON.parse` error, a property read of
 * `null`, a failed key import or decryption, a `send` on the `{}`
 * placeholder) the changes made so far stay and nothing is sent.
 */
module Server {
  import opened Js
  import opened Platform
  import opened Hex
  import opened SymmetricFrame
  import opened Hybrid
  import opened Protocol

  /** A client slot: the `{}` placeholder of a new `Chat`, or a socket. */
  datatype Slot = Vacant | Occupied(ws: nat)

  /** `Chat`: the token it was created with and its two client slots. */
  datatype Chat = Chat(token: JsValue, client1: nat, client2: Slot)

  /** One `ws.send` of a reply object (the frame is `JSON.stringify(message)`). */
  datatype Delivery = Delivery(to: nat, message: Json)

  /** One `ws.close(code, reason)`. */
  datatype Closing = Closing(ws: nat, code: nat, reason: string)

  /**
   * The names every plain object inherits from `Object.prototype`:
   * `chats[name]` is a (truthy) function or object for these even though
   * the table has no such entry.
   */
  const InheritedNames: set<string> := {
    "constructor", "__proto__", "hasOwnProperty", "isPrototypeOf",
    "propertyIsEnumerable", "toString", "toLocaleString", "valueOf",
    "__defineGetter__", "__defineSetter__", "__lookupGetter__", "__lookupSetter__"
  }

  const InvalidFormat: string := "Invalid token format received"
  const NotFound: string := "Token not found or client disconnected"
  const OtherDisconnected: string := "Other client disconnected"

  /** The request a parsed message carries, by its `type` (strict equality). */
  datatype Request = RegisterRequest | LinkRequest | HandshakeRequest | MessageRequest | Unknown

  function Classify(received: Json): (r: Request)
    ensures r != Unknown ==> received.JObj? && "type" in received.fields
    ensures r == LinkRequest <==> received.JObj? && "type" in received.fields && received.fields["type"] == JStr(ToLink)
  {
    match GetProp(Val(received), "type")
    case None => Unknown
    case Some(t) =>
      if t == Val(JStr(ToRegister)) then RegisterRequest
      else if t == Val(JStr(ToLink)) then LinkRequest
      else if t == Val(JStr(ToHandshake)) then HandshakeRequest
      else if t == Val(JStr(ToMessage)) then MessageRequest
      else Unknown
  }

  /**
   * `returnDataToClient(ws, status, dataText)`'s reply object: the text of
   * `dataText` is signed with RSA-PSS and the signature sent in hexadecimal.
   */
  function ReplyMessage(p: Platform, signKeys: SignKeyPair, status: string, dataText: Json): Json
  {
    var sign := p.pssSign(signKeys.privateKey, p.utf8Encode(JsonToString(dataText)));
    JObj(map["status" := JStr(status), "sign" := JStr(BytesToHex(sign)), "result" := dataText])
  }

  /** What `getAllFromReceived` produces, or the rejection of the handler. */
  datatype Validation = Invalid(reason: string) | Valid(chat: Chat, data: Json) | Crash

  /**
   * `getAllFromReceived(received)`: the hybrid envelope is opened with the
   * relay's key; the token it carries is checked against
   * `/^[a-f0-9]{64}$/` (on its `String` form) before it is looked up.
   */
  function GetAllFromReceived(p: Platform, key: PrivateKey, chats: map<string, Chat>, received: Json): (r: Validation)
    ensures r.Valid? ==> r.data != JNull && IsTokenFormat(TokenKey(r.data)) && TokenKey(r.data) in chats && r.chat == chats[TokenKey(r.data)]
    ensures r.Invalid? ==> r.reason == InvalidFormat || r.reason == NotFound
  {
    match HybridDecrypt(p, key, Val(received))
    case Thrown => Crash
    case NullFrame => Crash
    case Value(data) =>
      var token := TokenKey(data);
      if !IsTokenFormat(token) then Invalid(InvalidFormat)
      else if token !in chats then Invalid(NotFound)
      else Valid(chats[token], data)
  }

  /** `String(data.token)`, the key `chats[data.token]` reads. */
  function TokenKey(data: Json): string
    requires data != JNull
  {
    JsToString(GetProp(Val(data), "token").value)
  }

  /** `ws == chat.client1 ? chat.client2 : chat.client1`. */
  function Peer(chat: Chat, ws: nat): Slot
  {
    if ws == chat.client1 then chat.client2 else Occupied(chat.client1)
  }

  /** The replies of the HANDSHAKE and MESSAGE branches. */
  function ForwardDeliveries(p: Platform, encryptKeys: KeyPair, signKeys: SignKeyPair, chats: map<string, Chat>,
                             ws: nat, received: Json, status: string): seq<Delivery>
  {
    match GetAllFromReceived(p, encryptKeys.privateKey, chats, received)
    case Crash => []
    case Invalid(reason) =>
      (match p.btoa(reason)
       case None => []
       case Some(encoded) => [Delivery(ws, ReplyMessage(p, signKeys, FromError, JStr(encoded)))])
    case Valid(chat, data) =>
      (match Peer(chat, ws)
       case Vacant => []
       case Occupied(to) => [Delivery(to, ReplyMessage(p, signKeys, status, JStr(p.stringify(data))))])
  }

  /** `sendData` of the LINK branch. */
  function LinkData(p: Platform, encryptKeys: KeyPair, signKeys: SignKeyPair, complete: int): Json
  {
    JObj(map[
      "encryptKey" := JStr(p.exportKey(encryptKeys.publicKey)),
      "signKey" := JStr(p.exportSignKey(signKeys.publicKey)),
      "complete" := JNum(complete)])
  }

  /** The LINK_OK reply: `sendData` wrapped for the key the client sent, or nothing when that rejects. */
  function LinkDeliveries(p: Platform, encryptKeys: KeyPair, signKeys: SignKeyPair, ws: nat, received: Json,
                          complete: int, n: HybridNonce): seq<Delivery>
    requires received.JObj?
  {
    match ImportPublicKey(p, GetProp(Val(received), "key").value)
    case None => []
    case Some(clientKey) =>
      match HybridEncrypt(p, clientKey, LinkData(p, encryptKeys, signKeys, complete), n)
      case None => []
      case Some(send) => [Delivery(ws, ReplyMessage(p, signKeys, FromLinkOk, JStr(p.stringify(EnvelopeJson(send)))))]
  }

  /** `chats[key]` is truthy: an entry of the table or an inherited name. */
  predicate Present(chats: map<string, Chat>, key: string)
  {
    key in chats || key in InheritedNames
  }

  /** The chat occupies `ws` in one of its slots. */
  predicate Holds(chat: Chat, ws: nat)
  {
    chat.client1 == ws || chat.client2 == Occupied(ws)
  }

  /** The tokens whose chat has `ws` in both slots: the ones whose close handler calls `close`. */
  function DoubleHeld(chats: map<string, Chat>, ws: nat): set<string>
  {
    set k | k in chats && chats[k].client1 == ws && chats[k].client2 == Occupied(ws)
  }

  /** The table after `ws` closes: every chat holding it removed. */
  function WithoutSocket(chats: map<string, Chat>, ws: nat): map<string, Chat>
  {
    map k | k in chats && !Holds(chats[k], ws) :: chats[k]
  }

  function Repeat(n: nat, c: Closing): seq<Closing>
  {
    seq(n, _ => c)
  }

  /** Every entry is stored under the `String` form of its token, never under an inherited name. */
  predicate WellKeyed(chats: map<string, Chat>)
  {
    forall k | k in chats :: k !in InheritedNames && JsToString(chats[k].token) == k
  }

  /**
   * The relay's state: the key pairs it generated at start-up (the
   * start-up code and the export of the public halves are not modelled),
   * the chat table, the registration count and what it has sent and closed.
   */
  class Relay {
    const p: Platform
    const encryptKeys: KeyPair
    const signKeys: SignKeyPair
    var chats: map<string, Chat>
    var clientCont: nat
    var outbox: seq<Delivery>
    var closings: seq<Closing>

    predicate Valid()
      reads this
    {
      WellKeyed(chats)
    }

    constructor (p: Platform, encryptKeys: KeyPair, signKeys: SignKeyPair)
      ensures this.p == p && this.encryptKeys == encryptKeys && this.signKeys == signKeys
      ensures chats == map[] && clientCont == 0 && outbox == [] && closings == []
      ensures Valid()
    {
      this.p := p;
      this.encryptKeys := encryptKeys;
      this.signKeys := signKeys;
      chats := map[];
      clientCont := 0;
      outbox := [];
      closings := [];
    }

    /** The `message` handler: `message` is the frame text, `n` the randomness a LINK reply draws. */
    method OnMessage(ws: nat, message: string, n: HybridNonce)
      requires Valid()
      modifies this
      ensures Valid()
      ensures closings == old(closings)
      ensures p.parse(message).None? ==> chats == old(chats) && clientCont == old(clientCont) && outbox == old(outbox)
      ensures p.parse(message).Some? ==>
        var received := p.parse(message).value;
        match Classify(received)
        case RegisterRequest => RegisterEffect(ws)
        case LinkRequest => received.JObj? && LinkEffect(ws, received, n)
        case HandshakeRequest => ForwardEffect(ws, received, FromHandshakeData)
        case MessageRequest => ForwardEffect(ws, received, FromMessage)
        case Unknown => chats == old(chats) && clientCont == old(clientCont) && outbox == old(outbox)
    {
      match p.parse(message)
      case None =>
      case Some(received) =>
        match Classify(received)
        case RegisterRequest => OnRegister(ws);
        case LinkRequest => OnLink(ws, received, n);
        case HandshakeRequest => OnForward(ws, received, FromHandshakeData);
        case MessageRequest => OnForward(ws, received, FromMessage);
        case Unknown =>
    }

    twostate predicate RegisterEffect(ws: nat)
      reads this
    {
      && clientCont == old(clientCont) + 1
      && outbox == old(outbox) + [Delivery(ws, ReplyMessage(p, signKeys, FromRegisterOk, JNum(1)))]
      && chats == old(chats)
    }

    /** REGISTER: count the client and confirm with REGISTER_OK carrying the number 1. */
    method OnRegister(ws: nat)
      modifies this
      ensures RegisterEffect(ws) && closings == old(closings)
    {
      clientCont := clientCont + 1;
      outbox := outbox + [Delivery(ws, ReplyMessage(p, signKeys, FromRegisterOk, JNum(1)))];
    }

    twostate predicate LinkEffect(ws: nat, received: Json, n: HybridNonce)
      reads this
      requires received.JObj?
    {
      && (var token := GetProp(Val(received), "token").value;
          var key := JsToString(token);
          && (key !in old(chats) && key !in InheritedNames ==>
                chats == old(chats)[key := Chat(token, ws, Vacant)]
                && outbox == old(outbox) + LinkDeliveries(p, encryptKeys, signKeys, ws, received, 0, n))
          && (key in old(chats) ==>
                chats == old(chats)[key := old(chats)[key].(client2 := Occupied(ws))]
                && outbox == old(outbox) + LinkDeliveries(p, encryptKeys, signKeys, ws, received, 1, n))
          && (key in InheritedNames ==>
                chats == old(chats)
                && outbox == old(outbox) + LinkDeliveries(p, encryptKeys, signKeys, ws, received, 1, n)))
      && clientCont == old(clientCont)
    }

    /**
     * LINK: an absent token (its format is not checked) creates a chat with
     * the sender as `client1` and replies `complete: 0`; a present one
     * makes the sender `client2`, whoever held that slot, and replies
     * `complete: 1`. The table changes before the client's key is imported.
     */
    method OnLink(ws: nat, received: Json, n: HybridNonce)
      requires Valid()
      requires received.JObj?
      modifies this
      ensures Valid()
      ensures LinkEffect(ws, received, n) && closings == old(closings)
    {
      var token := GetProp(Val(received), "token").value;
      var key := JsToString(token);
      if !Present(chats, key) {
        chats := chats[key := Chat(token, ws, Vacant)];
        outbox := outbox + LinkDeliveries(p, encryptKeys, signKeys, ws, received, 0, n);
      } else {
        if key in chats {
          chats := chats[key := chats[key].(client2 := Occupied(ws))];
        }
        outbox := outbox + LinkDeliveries(p, encryptKeys, signKeys, ws, received, 1, n);
      }
    }

    twostate predicate ForwardEffect(ws: nat, received: Json, status: string)
      reads this
    {
      && outbox == old(outbox) + ForwardDeliveries(p, encryptKeys, signKeys, old(chats), ws, received, status)
      && chats == old(chats) && clientCont == old(clientCont)
    }

    /** HANDSHAKE and MESSAGE: validate, then forward the payload to the peer or report to the sender. */
    method OnForward(ws: nat, received: Json, status: string)
      modifies this
      ensures ForwardEffect(ws, received, status) && closings == old(closings)
    {
      outbox := outbox + ForwardDeliveries(p, encryptKeys, signKeys, chats, ws, received, status);
    }

    /**
     * The `close` handler: every chat holding `ws` in either slot is
     * deleted, others are untouched; `close` is called on the other
     * occupant only when both slots hold `ws` (so on `ws` itself).
     */
    method OnClose(ws: nat)
      requires Valid()
      modifies this
      ensures Valid()
      ensures chats == WithoutSocket(old(chats), ws)
      ensures closings == old(closings) + Repeat(|DoubleHeld(old(chats), ws)|, Closing(ws, 1000, OtherDisconnected))
      ensures outbox == old(outbox) && clientCont == old(clientCont)
    {
      var rest, calls := SweepSocket(chats, ws);
      chats := rest;
      closings := closings + Repeat(calls, Closing(ws, 1000, OtherDisconnected));
      SweepDone(old(chats), ws);
    }
  }

  /**
   * The `Object.keys(chats).forEach(…)` loop of the close handler on the
   * table alone: it deletes each chat holding `ws` and counts the
   * `close` calls it makes.
   */
  method SweepSocket(chats: map<string, Chat>, ws: nat) returns (rest: map<string, Chat>, calls: nat)
    ensures rest == WithoutSocket(chats, ws)
    ensures calls == |DoubleHeld(chats, ws)|
  {
    rest := chats;
    calls := 0;
    ghost var double := DoubleHeld(chats, ws);
    var remaining := chats.Keys;
    while remaining != {}
      invariant remaining <= chats.Keys
      invariant rest == Sweep(chats, ws, remaining)
      invariant calls == |double - remaining|
      decreases remaining
    {
      var key :| key in remaining;
      CountStep(double, remaining, key);
      SweepStep(chats, ws, remaining, key);
      var chat := rest[key];
      if chat.client1 == ws {
        if chat.client2 == Occupied(ws) {
          assert key in double;
          calls := calls + 1;
        }
        rest := rest - {key};
      } else if chat.client2 == Occupied(ws) {
        rest := rest - {key};
      }
      remaining := remaining - {key};
    }
    SweepDone(chats, ws);
  }

  /** The table part-way through the close handler: keys still to visit are kept as they were. */
  function Sweep(chats: map<string, Chat>, ws: nat, remaining: set<string>): map<string, Chat>
  {
    map k | k in chats && (k in remaining || !Holds(chats[k], ws)) :: chats[k]
  }

  /** Visiting one key deletes it exactly when its chat holds the socket. */
  lemma SweepStep(chats: map<string, Chat>, ws: nat, remaining: set<string>, key: string)
    requires key in remaining && remaining <= chats.Keys
    ensures key in Sweep(chats, ws, remaining) && Sweep(chats, ws, remaining)[key] == chats[key]
    ensures Holds(chats[key], ws) ==> Sweep(chats, ws, remaining) - {key} == Sweep(chats, ws, remaining - {key})
    ensures !Holds(chats[key], ws) ==> Sweep(chats, ws, remaining) == Sweep(chats, ws, remaining - {key})
  {
  }

  lemma SweepDone(chats: map<string, Chat>, ws: nat)
    ensures Sweep(chats, ws, {}) == WithoutSocket(chats, ws)
    ensures WellKeyed(chats) ==> WellKeyed(WithoutSocket(chats, ws))
  {
  }

  /** Taking one key out of the remaining set adds it to the processed part of `d` exactly when it is in `d`. */
  lemma CountStep(d: set<string>, remaining: set<string>, key: string)
    requires key in remaining
    ensures key in d ==> |d - (remaining - {key})| == |d - remaining| + 1
    ensures key !in d ==> d - (remaining - {key}) == d - remaining
  {
    if key in d {
      assert d - (remaining - {key}) == (d - remaining) + {key};
    }
  }

  // ---------------------------------------------------------------------
  // Properties
  // ---------------------------------------------------------------------

  /** Every reply carries its status and result, and its signature verifies over exactly the result's text. */
  lemma ReplySigned(p: Platform, id: nat, status: string, dataText: Json)
    requires Sound(p)
    ensures var m := ReplyMessage(p, SignKeyPair(SignPublicKey(id), SignPrivateKey(id)), status, dataText);
      && m.JObj? && m.fields.Keys == {"status", "sign", "result"}
      && m.fields["status"] == JStr(status) && m.fields["result"] == dataText && m.fields["sign"].JStr?
      && p.pssVerify(SignPublicKey(id), p.utf8Encode(JsonToString(dataText)), HexDecode(m.fields["sign"].s))
  {
    var sign := p.pssSign(SignPrivateKey(id), p.utf8Encode(JsonToString(dataText)));
    HexRoundTrip(sign);
  }

  lemma ReasonsAreAscii()
    ensures IsAscii(InvalidFormat) && IsAscii(NotFound)
  {
    assert forall i :: 0 <= i < |InvalidFormat| ==> InvalidFormat[i] as int < 128;
    assert forall i :: 0 <= i < |NotFound| ==> NotFound[i] as int < 128;
  }

  /** A rejected request is answered to the sender alone, with ERROR and the base64 of the reason. */
  lemma ForwardRejected(p: Platform, encryptKeys: KeyPair, signKeys: SignKeyPair, chats: map<string, Chat>,
                        ws: nat, received: Json, status: string)
    requires Sound(p)
    requires GetAllFromReceived(p, encryptKeys.privateKey, chats, received).Invalid?
    ensures var reason := GetAllFromReceived(p, encryptKeys.privateKey, chats, received).reason;
      && p.btoa(reason).Some? && p.atob(p.btoa(reason).value) == Some(reason)
      && ForwardDeliveries(p, encryptKeys, signKeys, chats, ws, received, status)
         == [Delivery(ws, ReplyMessage(p, signKeys, FromError, JStr(p.btoa(reason).value)))]
  {
    ReasonsAreAscii();
  }

  /**
   * An accepted request goes to the other slot when the sender is
   * `client1` (nowhere while that slot is still the placeholder), and to
   * `client1` for any other sender, also one in neither slot.
   */
  lemma ForwardRouting(p: Platform, encryptKeys: KeyPair, signKeys: SignKeyPair, chats: map<string, Chat>,
                       ws: nat, received: Json, status: string)
    requires GetAllFromReceived(p, encryptKeys.privateKey, chats, received).Valid?
    ensures var v := GetAllFromReceived(p, encryptKeys.privateKey, chats, received);
      var reply := ReplyMessage(p, signKeys, status, JStr(p.stringify(v.data)));
      var out := ForwardDeliveries(p, encryptKeys, signKeys, chats, ws, received, status);
      && (ws == v.chat.client1 && v.chat.client2.Occupied? ==> out == [Delivery(v.chat.client2.ws, reply)])
      && (ws == v.chat.client1 && v.chat.client2.Vacant? ==> out == [])
      && (ws != v.chat.client1 ==> out == [Delivery(v.chat.client1, reply)])
  {
  }

  /**
   * What the relay makes of a request built the way a client builds it:
   * `data` wrapped for the relay's key with a `type` added. It is accepted
   * exactly when the token's text has the session-token format and names
   * a chat, and then the chat and the payload are the ones sent.
   */
  lemma ClientRequestValidation(p: Platform, id: nat, chats: map<string, Chat>, data: Json, n: HybridNonce, kind: string)
    requires Sound(p)
    requires IsLatin1(n.sym.clock)
    requires data.JObj?
    ensures HybridEncrypt(p, PublicKey(id), data, n).Some?
    ensures var r := GetAllFromReceived(p, PrivateKey(id), chats,
                       EnvelopeWith(HybridEncrypt(p, PublicKey(id), data, n).value, "type", JStr(kind)));
      && (r.Valid? <==> IsTokenFormat(TokenKey(data)) && TokenKey(data) in chats)
      && (r.Valid? ==> r == Valid(chats[TokenKey(data)], data))
      && (!IsTokenFormat(TokenKey(data)) ==> r == Invalid(InvalidFormat))
      && (IsTokenFormat(TokenKey(data)) && TokenKey(data) !in chats ==> r == Invalid(NotFound))
  {
    HybridRoundTripWith(p, id, data, n, "type", JStr(kind));
  }

  /**
   * The LINK_OK reply to a client whose key imports: one reply, to the
   * sender, whose result text parses to an envelope that the client's
   * private key opens to the relay's two public keys and `complete`.
   */
  lemma LinkReplyOpens(p: Platform, encryptKeys: KeyPair, signKeys: SignKeyPair, ws: nat, received: Json,
                       complete: int, n: HybridNonce, id: nat)
    requires Sound(p)
    requires IsLatin1(n.sym.clock)
    requires received.JObj?
    requires ImportPublicKey(p, GetProp(Val(received), "key").value) == Some(PublicKey(id))
    ensures var out := LinkDeliveries(p, encryptKeys, signKeys, ws, received, complete, n);
      && |out| == 1 && out[0].to == ws
      && out[0].message == ReplyMessage(p, signKeys, FromLinkOk, out[0].message.fields["result"])
      && out[0].message.fields["result"].JStr?
      && var parsed := p.parse(out[0].message.fields["result"].s);
         parsed.Some? && HybridDecrypt(p, PrivateKey(id), Val(parsed.value)) == Value(LinkData(p, encryptKeys, signKeys, complete))
  {
    var data := LinkData(p, encryptKeys, signKeys, complete);
    HybridRoundTrip(p, id, data, n);
    var e := HybridEncrypt(p, PublicKey(id), data, n).value;
    assert LinkDeliveries(p, encryptKeys, signKeys, ws, received, complete, n)
      == [Delivery(ws, ReplyMessage(p, signKeys, FromLinkOk, JStr(p.stringify(EnvelopeJson(e)))))];
    assert p.parse(p.stringify(EnvelopeJson(e))) == Some(EnvelopeJson(e));
  }

  /** The close handler leaves no chat holding the socket and keeps every other chat as it was. */
  lemma CloseKeepsOthers(chats: map<string, Chat>, ws: nat)
    ensures forall k | k in WithoutSocket(chats, ws) :: !Holds(WithoutSocket(chats, ws)[k], ws)
    ensures forall k | k in chats && !Holds(chats[k], ws) :: k in WithoutSocket(chats, ws) && WithoutSocket(chats, ws)[k] == chats[k]
    ensures WithoutSocket(chats, ws).Keys <= chats.Keys
  {
  }

  /**
   * LINK's table update keeps entries stored under their token's text and
   * away from inherited names.
   */
  lemma LinkKeepsWellKeyed(chats: map<string, Chat>, token: JsValue, ws: nat)
    requires WellKeyed(chats)
    ensures var key := JsToString(token);
      && (!Present(chats, key) ==> WellKeyed(chats[key := Chat(token, ws, Vacant)]))
      && (key in chats ==> WellKeyed(chats[key := chats[key].(client2 := Occupied(ws))]))
  {
  }
}
