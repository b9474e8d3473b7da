# Paranoia chat: a verified model of its core

Paranoia chat pairs two browsers through a relay. Both users type the same
key phrase. Each browser derives a session token from the phrase and the
date, and links to the relay under that token. The relay keeps a table of
chats, each with two client slots. Once a chat has both clients, each side
sends the relay a handshake: its own message key, encrypted with the key
phrase. The relay forwards the handshake to the other side. Chat messages
are then wrapped twice. The inner envelope is for the peer's key and the
outer one is for the relay's key. The relay opens the outer envelope, looks
the token up and forwards the inner envelope. Every relay reply is signed.

A separate feature hides a key phrase in a picture. The text is written in
Base65, a 65-letter alphabet, followed by the marker `^^^^`, and stored eight
bits per character in the DCT coefficients of 8×8 pixel blocks.

The Dafny modules follow the repository's files:

- `Js` covers the JavaScript behaviour the code depends on: property reads,
  `parseInt`, `toString(radix)`, `split`/`join`, `indexOf`, ToInt32 and
  ToUint8.
- `Platform` covers the services the code calls but does not define:
  PBKDF2, AES-GCM, RSA-OAEP, RSA-PSS, SPKI export and import, JSON,
  `btoa`/`atob` and UTF-8. Each is a function field of a `Platform` value.
  The predicate `Sound(p)` states the guarantees the code relies on.
  `Separated(p)` adds that keys of different pairs do not fit each other;
  only the wrong-key lemmas assume it.
- `Hex`, `SymmetricFrame`, `Hybrid` and `Protocol` model `common/common.js`.
- `Server` models `server/server.js`. The class `Relay` holds the chat table,
  the registration counter, the replies sent and the sockets closed.
- `Client` models the `Connection` class of `client-html/paranoia.js`, whose
  fields its handlers update in place.
- `Pairing` connects the relay and the client: what one sends, the other
  reads.
- `Base65`, `Framing`, `Pixels`, `Blocks`, `StegoHtml` and `StegoClient`
  model the two `esteganography.js` files. `Blocks` and `StegoClient` are
  `client/esteganography.js`. `StegoHtml` is `client-html/esteganography.js`.
  `Base65`, `Framing` and `Pixels` are shared, because the two files agree
  there. The one exception is the client's `decode`, modelled separately.

A loop in the source is a method with a loop in the model. Each such method
is proved equal to a function that states its result, and the properties
are proved about those functions. Handlers that change state are methods on
the `Relay` and `Connection` classes. Their postconditions give the whole
new state, and the lemmas beside them say what that state means.

## Model

| member | source | states |
|---|---|---|
| Js.GetProp | client-html/paranoia.js:358-361 | Reading a property of `undefined` or `null` throws, and nothing else throws. A defined value read is an own property of the object. |
| Js.ToInt32 | client-html/esteganography.js:376 | The result is the signed 32-bit integer congruent to the argument modulo 2^32, as the bitwise operators see it. |
| Js.NatToRadixValue | common/common.js:90 | Reading back the digits of `n.toString(radix)` gives `n`. |
| Js.ParsePadded | common/common.js:97 | `parseInt` in the radix reads a zero-padded rendering of `n` back as `n`. |
| Js.ParseDecimal | common/common.js:241 | `parseInt` with no radix reads the decimal text of `n` as `n`. |
| Js.DecimalToNumber | common/common.js:213 | `Number` of the decimal text of `n` is `n`. |
| Js.IndexOf | client-html/esteganography.js:251 | The result is the first position at which the pattern occurs, or -1 when it occurs nowhere. |
| Js.SplitJoin | common/common.js:206 | Splitting a join at its separator gives the parts back when no part contains the separator. |
| Js.Utf16Length | common/common.js:279 | A string has at least as many UTF-16 code units as characters. |
| Hex.BytesToHexShape | common/common.js:89-91 | `bytesToHex` emits exactly two lower-case hexadecimal digits per byte, in byte order. |
| Hex.ByteHexDigits | common/common.js:90 | A byte renders as the hexadecimal digits of its high and low nibbles. |
| Hex.HexToBytes | common/common.js:94-100 | The loop fills a fresh array of half the text's length with the values of the successive digit pairs. |
| Hex.HexRoundTrip | common/common.js:89-100 | `hexToBytes(bytesToHex(b)) == b` for every byte sequence. |
| Hex.GenerateRandomHex | common/common.js:226-232 | The result has `2n` lower-case hexadecimal digits and decodes to the `n` random bytes drawn. |
| Hex.SessionTokenFormat | common/common.js:132-153 | A derived session token always matches the relay's pattern `/^[a-f0-9]{64}$/` (server/server.js line 45). |
| SymmetricFrame.ReadSymmetric | common/common.js:205-224 | The result is `null` exactly when the outer base64 decodes to fewer than three colon-separated parts; a value it returns is never JSON `null`. |
| SymmetricFrame.OpenFrame | common/common.js:218-223 | Decryption, UTF-8 decoding and parsing never yield `null`: JSON `null` is replaced by its text. |
| SymmetricFrame.IvTextRoundTrip | common/common.js:158-213 | The IV sent as its comma-joined decimal text is rebuilt exactly by `split(",")` and the `Uint8Array` constructor. |
| SymmetricFrame.FrameSplits | common/common.js:200-206 | A frame whose fields contain no colon splits back into exactly its three fields. |
| SymmetricFrame.EncryptSucceedsIff | common/common.js:191-203 | Encryption succeeds exactly when the locale clock text is Latin-1, and its output is then base64. |
| SymmetricFrame.SymmetricRoundTrip | common/common.js:191-224 | `readSymetricData(pass, encryptSymetricData(v, pass))` gives `v` back, except that `null` comes back as the text "null". |
| Hybrid.HybridDecrypt | common/common.js:445-450 | An envelope without a `secret` throws, and a value returned is never JSON `null`. |
| Hybrid.SecretFitsOaep | common/common.js:226-232 | The hybrid secret is 128 lower-case hexadecimal characters, and it fits one RSA-OAEP block. |
| Hybrid.HybridSucceedsIff | common/common.js:434-443 | Hybrid encryption succeeds exactly when the clock text is Latin-1, and both envelope fields are then safe to send. |
| Hybrid.HybridRoundTrip | common/common.js:434-450 | The matching private key opens a hybrid envelope to the value sealed, with `null` delivered as "null". |
| Hybrid.WrongKeyThrows | common/common.js:445-450 | The private key of any other pair cannot decrypt the secret, so `hybridDecrypt` throws. |
| Hybrid.OpenEnvelopeWith | common/common.js:445 | An extra property such as `type` or `token` does not change what `hybridDecrypt` reads. |
| Hybrid.HybridRoundTripWith | common/common.js:434-450 | The round trip holds for an envelope that carries one more property. |
| Protocol.CheckPasswordLength | common/common.js:278-281 | A key phrase passes when it has at least three characters; for text without surrogate pairs, it passes exactly then. |
| Protocol.LocalIpRanges | common/common.js:234-265 | On dotted-decimal addresses, `isLocalIp` holds exactly for 10/8, 127/8, 172.16/12 and 192.168/16. |
| Protocol.LocalIpFirstTwoParts | common/common.js:241 | Only the first two of the four parts are read. |
| Protocol.QuadParts | common/common.js:235 | The dotted quad of an address splits into its four decimal fields. |
| Server.Classify | server/server.js:80-143 | A request is taken as LINK exactly when its `type` is strictly "l", and any recognised request has a `type`. |
| Server.GetAllFromReceived | server/server.js:35-59 | An accepted request has a token of the session-token format that names a chat, and it carries that chat; a rejection gives one of the two reasons. |
| Server.ClientRequestValidation | server/server.js:35-59 | A request built as a client builds it is accepted exactly when its token has the format and names a chat. A bad format gives "Invalid token format received"; an absent token gives "Token not found or client disconnected". |
| Server.ReplySigned | server/server.js:30-33 | Every reply has exactly `status`, `sign` and `result`, and its signature verifies over exactly the text of `result`. |
| Server.Relay.OnMessage | server/server.js:76-144 | Unparseable text changes nothing. REGISTER, LINK, HANDSHAKE and MESSAGE have the effects of their handlers, and any other `type` changes nothing. The table stays keyed by token text. |
| Server.Relay.OnRegister | server/server.js:82-85 | The counter goes up by one, REGISTER_OK with 1 goes to the sender, and the table is unchanged. |
| Server.Relay.OnLink | server/server.js:86-122 | An absent token, never format-checked, creates a chat with the sender as `client1` and replies `complete: 0`. A present token makes the sender `client2`, replacing any earlier one, and replies `complete: 1`. A token naming an inherited property, such as "constructor", changes no chat and replies `complete: 1`. The table stays keyed by token text. |
| Server.LinkReplyOpens | server/server.js:95-103 | When the client's key imports, one LINK_OK goes to the sender, and its result opens under the client's key to the relay's two public keys and `complete`. |
| Server.LinkKeepsWellKeyed | server/server.js:89-109 | Both LINK updates keep every chat stored under its token's text. |
| Server.Relay.OnForward | server/server.js:123-143 | HANDSHAKE and MESSAGE add the replies of `ForwardDeliveries` and leave the table and counter unchanged. |
| Server.ForwardRejected | server/server.js:125-127 | A rejected request is answered only to the sender, with ERROR and the base64 of the reason, which decodes back. |
| Server.ForwardRouting | server/server.js:130-131 | An accepted request goes to `client2` when the sender is `client1`, and nowhere while `client2` is still the `{}` placeholder. It goes to `client1` for any other sender, including one in neither slot. |
| Server.Relay.OnClose | server/server.js:153-168 | Every chat holding the socket in either slot is removed. `close` is called once per chat holding it in both slots. Nothing is sent. |
| Server.SweepSocket | server/server.js:156-168 | The `forEach` loop leaves the table without the socket's chats and counts the chats whose two slots both hold the socket. |
| Server.SweepStep | server/server.js:157-166 | Visiting one key deletes it exactly when its chat holds the socket. |
| Server.CloseKeepsOthers | server/server.js:153-168 | After close, no chat holds the socket, and every chat that did not hold it is kept unchanged. |
| Client.Route | client-html/paranoia.js:439-486 | A handshake, chat message or unknown status is handled only after the relay's signature over the result verifies, and a bad signature is reported. CLOSE calls an `onChatClose` that does not exist, so it rejects. |
| Client.SignBytes | common/common.js:94-100 | A string `sign` is hex-decoded. A `sign` missing from the frame makes `hexToBytes` throw, and any other value that is not a string gives either an empty signature or a throw, never signature bytes. |
| Client.Connection.InitSocket | client-html/paranoia.js:425-437 | The socket is open and no other field changes. |
| Client.Connection.Send | client-html/paranoia.js:296 | A frame is recorded only on an open socket. |
| Client.Connection.RegisterClient | client-html/paranoia.js:294-297 | Exactly one REGISTER request is sent. |
| Client.Connection.LinkClientAsWritten | client-html/paranoia.js:299-308 | With the boolean `checkPassword`, every call passes the empty text to `showError`, which then displays "Error, try it again!", and changes nothing else. |
| Client.GuardAlwaysFails | client-html/paranoia.js:304-306 | The `.success` and `.message` of a boolean are `undefined`, so the guard always stops and `showError` gets its default empty text, for which it displays "Error, try it again!". |
| Client.Connection.LinkClient | client-html/paranoia.js:299-319 | Past the guard: the token and two fresh key records are stored, then exactly one LINK with the link key and the token is sent. A rejected phrase only shows an error. |
| Client.Connection.SendHandshake | client-html/paranoia.js:321-335 | At most one HANDSHAKE frame is sent, built from the message key, the key phrase, the token and the relay's key; no field changes. |
| Client.HandshakeFrameBuilt | client-html/paranoia.js:321-335 | The handshake frame is the relay-key envelope of `{key, token}` with `type` "h", where `key` is the phrase-encrypted message key. |
| Client.HandshakeKeyOpens | client-html/paranoia.js:326-377 | A handshake payload made with the same key phrase opens to the sender's message key. |
| Client.Connection.SendChatMessage | client-html/paranoia.js:337-347 | At most one MESSAGE frame is sent; no field changes. |
| Client.ChatFrameBuilt | client-html/paranoia.js:337-347 | The chat frame is the peer-key envelope of the text, with the token added, wrapped in a relay-key envelope with `type` "m". |
| Client.Connection.OnLinkOk | client-html/paranoia.js:356-371 | When both relay keys import, both are stored. The connection then becomes the initiator and sends its one handshake exactly when `complete == 1`; otherwise it sends nothing. `null` or `undefined` data, or a key that does not import, shows "Wrong message format" and sends nothing. The fields assigned before the failure keep their new values: `serverEncrypt64`, then `serverEncryptKey` and `serverSign64`. A handshake is only ever sent once the relay's key is held. |
| Client.Connection.StoreEncryptKey | client-html/paranoia.js:358-359 | The encryption key is stored when the data is not `null` or `undefined` and the key imports. Otherwise the handler rejects with "Wrong message format". `serverEncrypt64` is then still written unless the data is `null` or `undefined`. |
| Client.Connection.StoreSignKey | client-html/paranoia.js:360-361 | `serverSign64` is always written. The signing key is stored when it imports; otherwise the handler rejects with "Wrong message format". |
| Client.Connection.OnHandshakeData | client-html/paranoia.js:373-393 | When the peer key opens under the key phrase, it is stored, `success` becomes true and the key-phrase input is cleared, on both sides. Only the side that did not start the exchange sends its own handshake back. When the key does not open, the handler rejects with "Wrong message format". |
| Client.Connection.Burn | client-html/paranoia.js:399-422 | All twelve key and token fields become "XXXXXXXXXXX". `success` becomes false. The socket is closed only when it is not `null`. "Connection burned" is shown. |
| Client.Connection.OpenLinkOk | client-html/paranoia.js:455-457 | The result is opened with `linkKey.privateKey` and handed to `onLinkOk`; `null` goes in for a packet of fewer than three fields. A link key that is not a key, or an envelope that does not open, shows "Wrong message format" and changes nothing else. |
| Client.Connection.OpenChatMessage | client-html/paranoia.js:470-472 | The result is opened with `myKey.privateKey` and what it opens to is added to the chat; `null` for a packet of fewer than three fields. A message key that is not a key, or an envelope that does not open, shows "Wrong message format" and changes nothing else. |
| Client.Connection.OnSocketMessage | client-html/paranoia.js:439-486 | It dispatches on `Route`. LINK_OK is opened with `linkKey.privateKey` and MESSAGE with `myKey.privateKey`, with every failure case of both openings stated. Each other case has its handler's effect. |
| Pairing.ReplyFields | server/server.js:30-33 | A reply read back from its text has the status and result sent, and a signature that verifies. |
| Pairing.RelayReplyRoutes | client-html/paranoia.js:439-472 | The client routes a relay reply to the handler for its status, with the relay's payload. |
| Pairing.ForeignReplyRejected | client-html/paranoia.js:462-465 | A HANDSHAKE_DATA or MESSAGE reply checked against the signing key of any pair other than the relay's is reported as an invalid signature, and no handler runs. |
| Pairing.ErrorReplyShown | client-html/paranoia.js:443-446 | An ERROR reply shows its reason, whatever key is held. |
| Pairing.RejectionShown | server/server.js:124-127 | A rejected request shows its reason at the sender. |
| Pairing.LinkReplyDelivers | server/server.js:86-103 | The LINK_OK reply is routed to `onLinkOk`, and the link key opens it to the relay's `sendData`. |
| Pairing.LinkDataImports | server/server.js:95-99 | Both relay keys in `sendData` import, and `complete` equals 1 exactly for the second client. |
| Pairing.PayloadTokens | server/server.js:45-50 | The token a client attaches is the key the relay looks up. |
| Pairing.RelayedToPeer | server/server.js:129-141 | An accepted request reaches only the other occupant, and that client routes it to the matching handler. |
| Pairing.HandshakeReachesPeer | server/server.js:123-132 | A handshake for a chat whose other slot is taken reaches only the other client. With the same key phrase, it yields the sender's message key there. |
| Pairing.ChatReachesPeer | server/server.js:133-142 | A chat message reaches only the other client and opens under its private key to the text sent. |
| Base65.DigitOf | client-html/esteganography.js:403 | The lookup gives the alphabet position of a character, or -1 for a character outside the alphabet. |
| Base65.AlphabetDistinct | client-html/esteganography.js:340-341 | No letter occurs twice in the alphabet, and `_` is not part of it. |
| Base65.Encode | client-html/esteganography.js:371-390 | The bit-buffer loop emits character k = letter of sextet k of the byte stream, for ceil(8n/6) characters, the last one zero-filled. |
| Base65.EncodingCharacters | client-html/esteganography.js:381-386 | Every character of an encoding is one of the first 64 letters, so never 'z' and never `_`. |
| Base65.StripPadding | client-html/esteganography.js:398 | Exactly the trailing run of `_` is removed. |
| Base65.Decode | client-html/esteganography.js:397-416 | The bit-buffer loop outputs the whole bytes of the six-bit stream of the alphabet digits left after the trailing padding is stripped. |
| Base65.IgnoresForeign | client-html/esteganography.js:404 | A character outside the alphabet, anywhere in the text, does not change the result. |
| Base65.SeventhBitOfZ | client-html/esteganography.js:403-406 | 'z' is digit 64. Its seventh bit is ORed into the digit before it, so "0z" decodes like "10". |
| Base65.RoundTrip | client-html/esteganography.js:366-416 | `decode(encode(b)) == b` for every byte sequence. |
| Base65.StringRoundTrip | client-html/esteganography.js:348-364 | `decodeString(encodeString(text)) == text`, and the encoding uses only alphabet letters other than `_`. |
| Base65.DecodeAsWritten | client/esteganography.js:405-424 | The client's `decode` returns only when nothing is left after the padding is stripped, since its first lookup names an undefined `BASE65_ALPHABET`. |
| Base65.ClientDecodeThrows | client/esteganography.js:411 | That decoder throws on the encoding of any non-empty byte sequence. |
| Framing.CharBitsRoundTrip | client-html/esteganography.js:193 | A character below 256 becomes eight binary digits, and `parseInt(..., 2)` with `fromCharCode` reads them back as the character. |
| Framing.MessageBitsShape | client-html/esteganography.js:189-194 | The bits of a message are eight binary digits per character of its Base65 text and marker. |
| Framing.EncodedTextFrames | client-html/esteganography.js:189 | The Base65 text is Latin-1 and never contains `^`. |
| Framing.CutAtEnd | client-html/esteganography.js:251 | The text is cut at the first `^^^^`; with no marker it becomes empty. |
| Framing.CutAtMarker | client-html/esteganography.js:251 | Cutting text without `^` followed by the marker and anything else gives exactly the text. |
| Framing.HtmlMessageRoundTrip | client-html/esteganography.js:189-194 | Regrouping the message bits, followed by any further bits, in eights, then cutting, gives the Base65 text, which decodes to the message. |
| Framing.ClientMessageRoundTrip | client/esteganography.js:143-152 | The same with the client's slicing of the bits into eights. |
| Framing.ClientMessageAsWritten | client/esteganography.js:152 | With the client's decoder as written, no non-empty message comes back. |
| Pixels.Crop | client-html/esteganography.js:11-15 | Cropping an image with rows succeeds, and an empty one throws. |
| Pixels.CropShape | client/esteganography.js:12-19 | A rectangular image keeps floor(h/8)·8 rows of floor(w/8)·8 cells, each unchanged. |
| Pixels.CropIdempotent | client-html/esteganography.js:11-15 | Cropping a crop changes nothing. |
| Pixels.ImageDataToMatrix | client-html/esteganography.js:24-43 | Cell (y, x) is the pixel of RGBA components (y·w + x)·4 to (y·w + x)·4 + 3. |
| Pixels.PixelComponents | client/esteganography.js:34-40 | Those four components lie inside data of 4·w·h bytes. |
| Pixels.MatrixToImageData | client/esteganography.js:56-73 | The loops fill the data with every cell's components in row order. A zero size, or a missing cell, throws. |
| Pixels.HtmlMatrixToImageData | client-html/esteganography.js:52-69 | The same, with the size taken from the matrix. |
| Pixels.ImageDataAt | client-html/esteganography.js:58-66 | Component c of cell (y, x) is written at (y·w + x)·4 + c. |
| Pixels.ImageDataRoundTrip | client-html/esteganography.js:24-69 | Writing back a matrix read from data of 4·w·h bytes reproduces the data. |
| Pixels.SplitRGB | client-html/esteganography.js:151-164 | The three channels are the red, green and blue components of the block, in its shape. |
| Pixels.ToChannel | client-html/esteganography.js:172-174 | The value is clamped into 0..255 and rounded to the nearest integer. |
| Pixels.MergeRGB | client-html/esteganography.js:166-180 | Every cell is the rounded, clamped channels with the original alpha. |
| Pixels.MergedRange | client-html/esteganography.js:166-180 | A merged block has colours in 0..255 and keeps the original's alpha. |
| Pixels.MergeSplit | client-html/esteganography.js:151-180 | Merging the split channels of a block with byte-valued colours gives the block back. |
| Blocks.CeilBlocks | client/esteganography.js:163-164 | `Math.ceil(n / 8)` blocks cover n cells with less than one block to spare. |
| Blocks.Padded | client/esteganography.js:167-171 | The padded image is whole blocks in both directions. |
| Blocks.PaddedCells | client/esteganography.js:169 | Padding keeps every cell of the image and is 0 everywhere else. |
| Blocks.DivideIntoBlocks | client/esteganography.js:160-185 | An image with rows gives the 8×8 blocks of its padding in row-major order, and an empty one throws. |
| Blocks.DivisionLayout | client/esteganography.js:160-185 | There are (ph/8)·(pw/8) blocks, and cell (x, y) of block (i/8)·(pw/8) + j/8 is padded cell (i + x, j + y). |
| Blocks.ReconstructImageFromBlocks | client/esteganography.js:194-215 | With enough blocks, the result is h rows of w cells, each taken from its block; with too few, reading a missing block throws. |
| Blocks.ReconstructDivided | client/esteganography.js:160-215 | `reconstructImageFromBlocks(divideIntoBlocks(img), h, w) == img` for every rectangular image. |
| Blocks.DivideReconstructed | client/esteganography.js:160-215 | Dividing an image rebuilt from whole blocks gives those blocks back. |
| StegoHtml.Mark | client-html/esteganography.js:210 | Coefficient (7, 7) becomes 5 for a '1' bit and -5 otherwise, and no other coefficient changes. |
| StegoHtml.EmbedBlock | client-html/esteganography.js:201-219 | An embedded block is 8×8, has colours in 0..255 and keeps every alpha. |
| StegoHtml.Embed | client-html/esteganography.js:201-219 | Splitting, transforming, marking, transforming back and merging gives `EmbedBlock`. |
| StegoHtml.PasteBlock | client-html/esteganography.js:220-224 | The copy loops write the 8×8 block at its place and leave every other cell. |
| StegoHtml.InsertMessage | client-html/esteganography.js:188-228 | On an image of whole blocks, the array becomes `InsertedImage` of its old cells, in which block k in row-major order carries bit k. The loop returns once the bits run out. |
| StegoHtml.InsertedBlocks | client-html/esteganography.js:196-226 | Block k of the result is the embedding of bit k while k is below the number of bits, and the original block after that. |
| StegoHtml.InsertedOutside | client-html/esteganography.js:199 | Pixels outside the first |bits| blocks are unchanged. |
| StegoHtml.InsertedAlpha | client-html/esteganography.js:175 | Insertion keeps every alpha, and keeps colours in 0..255 when they were. |
| StegoHtml.BlockAt | client-html/esteganography.js:242 | The slice at row y has eight rows, or the rows left when fewer remain. |
| StegoHtml.BlockBit | client-html/esteganography.js:243-246 | A block yields a bit when it has eight rows; a shorter one throws. |
| StegoHtml.ReadBits | client-html/esteganography.js:238-248 | The bits read are one per block, up to the limit. |
| StegoHtml.ExtractBits | client-html/esteganography.js:236-248 | The two loops read the blocks in row-major order and stop at the limit. |
| StegoHtml.ExtractMessage | client-html/esteganography.js:235-253 | Extraction is `ExtractedMessage`: the bits of the first `8·messageLength` blocks, regrouped in eights, cut at `^^^^` and decoded from Base65. |
| StegoHtml.ScanWholeBlocks | client-html/esteganography.js:238-239 | On an image of whole blocks, extraction visits exactly its blocks, in row-major order. |
| StegoHtml.InsertThenExtract | client-html/esteganography.js:188-253 | For a transform that recovers the mark's sign: extracting from an inserted image gives the message back when its bits fit in the blocks and the limit. |
| StegoClient.LowBit | client/esteganography.js:134 | `c & 1` is '1' exactly when ToInt32 of c is odd. |
| StegoClient.LowBitOfSet | client/esteganography.js:102-103 | The bit written into a coefficient by rounding, `& ~1` and `|` is the bit read back by `& 1`. |
| StegoClient.MarkedBits | client/esteganography.js:98-107 | Every bit written into a block reads back from it, at its row-major position. |
| StegoClient.MarkRow | client/esteganography.js:99-106 | One row of coefficients takes the next bits while some remain, and the index moves by their number. |
| StegoClient.MarkBlock | client/esteganography.js:98-107 | A block takes up to 64 bits, and the index moves to `min(from + 64, |bits|)`. |
| StegoClient.Embedded | client/esteganography.js:95-111 | Embedding keeps the number and the 8×8 shape of the blocks, and every block past those the loop reaches is unchanged. |
| StegoClient.EmbedBlocks | client/esteganography.js:95-111 | The loop, stopping after the block in which the bits run out, gives the original blocks when the result is discarded as written, and `Embedded` when it is stored. |
| StegoClient.InsertMessageAsWritten | client/esteganography.js:81-114 | `insertMessage` as written rebuilds its unchanged blocks. |
| StegoClient.InsertAsWrittenIsCrop | client/esteganography.js:108-113 | That result is exactly `cropToMultipleOf8(image)`, whatever the message; an image of fewer than eight rows throws. |
| StegoClient.InsertMessage | client/esteganography.js:81-114 | With the transformed blocks stored back, the result is the crop rebuilt from the embedded blocks. |
| StegoClient.ReadBlockBits | client/esteganography.js:131-138 | One block adds its low bits, in row-major order, while fewer than the limit were read. |
| StegoClient.ExtractBits | client/esteganography.js:128-141 | The loop reads the first `limit` bits of the blocks, or all of them when there are fewer. |
| StegoClient.BitsToText | client/esteganography.js:144-148 | The conversion loop turns each slice of eight bits, the last one possibly shorter, into one character. |
| StegoClient.ExtractMessageAsWritten | client/esteganography.js:121-153 | `extractMessage` as written, decoding with the undefined alphabet. |
| StegoClient.ExtractMessage | client/esteganography.js:121-153 | `extractMessage` with the corrected decoder. |
| StegoClient.InsertThenExtract | client/esteganography.js:81-153 | When the transform undoes its inverse, extraction from the corrected insertion gives the message back, if its bits fit in the crop's blocks and in 2048 bits. |
| StegoClient.InsertThenExtractAsWritten | client/esteganography.js:121-153 | With the decoder as written, nothing comes back from the same image for a non-empty message. |

## Left out

- The cryptographic primitives are not modelled. These are PBKDF2, AES-GCM, RSA-OAEP, RSA-PSS, key generation, SPKI import and export, and the random sources (common/common.js:102-130, 156-189, 284-432). They are function fields of `Platform`, and `Sound` states their round-trip and verification guarantees. Random bytes and generated key pairs are parameters.
- `JSON.stringify`/`JSON.parse`, `btoa`/`atob` and UTF-8 are abstract, with round-trip guarantees. JSON numbers are integers only.
- The DCT and the inverse DCT are not modelled. They are floating point (client-html/esteganography.js:76-149, client/esteganography.js:223-268), so each is a parameter of type `Transform`. The html round trip assumes `Recovers(t)`: the sign of coefficient (7, 7) survives the inverse transform, clamping, rounding and the forward transform. The client round trip assumes `Inverts(t)`: the forward transform undoes the inverse exactly.
- The `Uint8ClampedArray` rounding of the corrected client insertion is not modelled. That insertion writes real-valued inverse-transform outputs, and `matrixToImageData` would round them, which the exact bit argument does not cover.
- StegoHtml.InsertMessage: requires height and width to be multiples of 8. On other images, edge blocks write NaN or throw. Its only caller crops first (client-html/esteganography.js:312).
- StegoHtml.BlockBit: a short edge block throws, and a NaN comparison reads as '0'.
- The client steganography works on matrices of numbers, as its doc comments say. `imageDataToMatrix` yields pixel objects, on which `dct2D` computes NaN; that combination is not modelled. Those functions take only rectangular matrices (`Rectangular`), the shape `imageDataToMatrix` produces.
- `MESSAGE_LENGTH` of client-html/esteganography.js:4 depends on `CommonConfig`, which common/common.js does not define; it is a parameter there. In the client it is 256.
- `getPixelsFromImage`, `insertMessageInHtmlImage`, `StepManager`, the canvas, `FileReader` and the rest of the DOM are user interface, and are not modelled.
- WebSocket transport, logging, start-up key generation and the interleaving of asynchronous handlers are not modelled. Each handler is one atomic step. The try/catch at server/server.js:145-150 never sees an error raised inside the unawaited async function, so it is not modelled; such an error rejects silently, as modelled.
- Pixels.MatrixToImageData: `createImageData` of a zero size throws. A missing cell throws. A short data array in `imageDataToMatrix` is not modelled: it would give `undefined` components, so PixelComponents and ImageDataRoundTrip require data of 4·w·h bytes.
- Blocks.DivideIntoBlocks: rows shorter than the first are not modelled (`IsImage`); reading past them gives `undefined`.
- Blocks.ReconstructImageFromBlocks: requires 8×8 blocks (`AllBlocks8`).
- Pixels.MergeRGB: requires the three channels and the original block to have the red channel's shape.
- Framing.TextBits: handles single-unit characters only. The Base65 text it is applied to has only those.
- Js.StringToNumber: handles only an optional sign and decimal digits, the text that reaches it. Decimal points, exponents and prefixes give NaN.
- Hex.HexToBytes: a non-string secret, which would make `hex.length` undefined, is not modelled; the call is typed with a string. The relay reply's `sign` is the exception: Client.SignBytes models `hexToBytes` of every JSON value.
- Client.SignBytes: an object `sign` with a `length` property counts as a throw. In the source, a `length` that halves to less than one gives an empty signature instead.
- `showError` is modelled by the text passed to it. For the empty text the page displays "Error, try it again!" (client-html/paranoia.js:150-158).
- Strings are sequences of code points. UTF-16 length is modelled only in `checkPassword`.
- The CLOSE status is modelled as written: `onChatClose` is not defined, so the handler rejects with "Wrong message format". The source gives no intended behaviour for CLOSE, so no corrected handler is modelled.
- The relay's start-up key export, `clog` and `cerror` are not modelled. A LINK whose token text is an inherited property name (such as "constructor") counts as present and writes nothing.

## Findings

| source | as written | input that shows it | evidently intended | confidence | as-written member | corrected member |
|---|---|---|---|---|---|---|
| client-html/paranoia.js:304-306 | tests `passCheck.success`, but `checkPassword` returns a boolean | any key phrase, e.g. "secret" | test the boolean itself | not executed | Client.Connection.LinkClientAsWritten | Client.Connection.LinkClient |
| client/esteganography.js:108 | `block = idct2D(dctBlock)` rebinds the loop variable, so `blocks` is never written | any image of 8×8 or more and any message | store the transformed block back into `blocks` | not executed | StegoClient.InsertAsWrittenIsCrop | StegoClient.InsertThenExtract |
| client/esteganography.js:411 | `BASE65_ALPHABET` without the class name is undefined | decoding "GG" (the encoding of "A") | `Base65.BASE65_ALPHABET` | not executed | Base65.ClientDecodeThrows | Base65.StringRoundTrip |
