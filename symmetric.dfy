/**
 * The password-keyed envelope of `Utils.encryptSymetricData` and
 * `Utils.readSymetricData`: a JSON value encrypted with AES-256-GCM under
 * a key derived from a password and the sender's local clock text, framed
 * as base64("base64(IV text):base64(salt):hex(ciphertext)").
 */
module SymmetricFrame {
  import opened Js
  import opened Platform
  import opened Hex

  type Iv = s: seq<byte> | |s| == 12 witness [0, 0, 0, 0, 0, 0, 0, 0, 0, 0, 0, 0]

  /**
   * What one call of `encryptSymetricData` draws from its environment: the
   * 12 random IV bytes and the text of `new Date().toLocaleString()`.
   */
  datatype SymNonce = SymNonce(iv: Iv, clock: string)

  /** What `readSymetricData` yields: a value, `null` (fewer than three parts), or an exception. */
  datatype Opened = Value(v: Json) | NullFrame | Thrown

  const KeyIterations: nat := 100000

  /** `deriveKey(password, salt)`: the 256-bit AES-GCM key from PBKDF2-SHA-256, 100000 iterations. */
  function DeriveKey(p: Platform, password: string, salt: string): seq<byte>
  {
    p.pbkdf2(p.utf8Encode(password), p.utf8Encode(salt), KeyIterations, 32)
  }

  /** `String(iv)` for a Uint8Array: the decimal values joined with commas. */
  function IvText(iv: seq<byte>): string
  {
    Join(IvParts(iv), ',')
  }

  /** The decimal text of each IV byte. */
  function IvParts(iv: seq<byte>): (parts: seq<string>)
    ensures |parts| == |iv|
  {
    seq(|iv|, i requires 0 <= i < |iv| => NatToRadix(iv[i], 10))
  }

  /** `new Uint8Array(text.split(","))`: each part converted by `Number`, stored modulo 256. */
  function ParseIv(text: string): seq<byte>
  {
    var parts := Split(text, ',');
    seq(|parts|, i requires 0 <= i < |parts| => ToUint8(StringToNumber(parts[i])))
  }

  /**
   * `encryptSymetricData(data, pass)`; None when it throws, which happens
   * when `btoa` rejects the clock text (a character above U+00FF).
   */
  function EncryptSymmetric(p: Platform, data: Json, pass: string, n: SymNonce): Option<string>
  {
    var raw := p.stringify(data);
    var ciphertext := p.aesGcmEncrypt(DeriveKey(p, pass, n.clock), n.iv, p.utf8Encode(raw));
    match p.btoa(IvText(n.iv))
    case None => None
    case Some(ivPart) =>
      match p.btoa(n.clock)
      case None => None
      case Some(saltPart) => p.btoa(FrameText(ivPart, saltPart, BytesToHex(ciphertext)))
  }

  /** The inner frame: three fields separated by colons. */
  function FrameText(ivPart: string, saltPart: string, hexPart: string): string
  {
    ivPart + ":" + saltPart + ":" + hexPart
  }

  /**
   * `readSymetricData(pass, dataString)`. A parsed JSON `null` is replaced
   * by the decrypted text itself, so a value result is never `null`.
   */
  function ReadSymmetric(p: Platform, pass: string, dataString: string): (r: Opened)
    ensures r.Value? ==> r.v != JNull
    ensures r == NullFrame <==> p.atob(dataString).Some? && |Split(p.atob(dataString).value, ':')| < 3
  {
    match p.atob(dataString)
    case None => Thrown
    case Some(text) =>
      var parts := Split(text, ':');
      if |parts| < 3 then NullFrame
      else
        match p.atob(parts[0])
        case None => Thrown
        case Some(ivText) =>
          match p.atob(parts[1])
          case None => Thrown
          case Some(salt) => OpenFrame(p, pass, ParseIv(ivText), salt, HexDecode(parts[2]))
  }

  /** Decryption, `TextDecoder` and `JSON.parse` of a split frame. */
  function OpenFrame(p: Platform, pass: string, iv: seq<byte>, salt: string, ciphertext: seq<byte>): (r: Opened)
    ensures r != NullFrame
    ensures r.Value? ==> r.v != JNull
  {
    match p.aesGcmDecrypt(DeriveKey(p, pass, salt), iv, ciphertext)
    case None => Thrown
    case Some(plain) =>
      var text := p.utf8Decode(plain);
      match p.parse(text)
      case None => Thrown
      case Some(v) => if v != JNull then Value(v) else Value(JStr(text))
  }

  /** What the receiver of `data` ends up with: JSON `null` arrives as the text "null". */
  function Delivered(data: Json): Json
  {
    if data == JNull then JStr("null") else data
  }

  // ---------------------------------------------------------------------
  // Properties
  // ---------------------------------------------------------------------

  lemma {:induction false} JoinAscii(parts: seq<string>, sep: char)
    requires sep as int < 128
    requires forall k :: 0 <= k < |parts| ==> IsAscii(parts[k])
    ensures IsAscii(Join(parts, sep))
    decreases |parts|
  {
    if |parts| > 1 {
      JoinAscii(parts[1..], sep);
    }
  }

  lemma {:induction false} DecimalAscii(n: nat)
    ensures IsAscii(NatToRadix(n, 10))
    ensures forall i :: 0 <= i < |NatToRadix(n, 10)| ==> NatToRadix(n, 10)[i] != ',' && NatToRadix(n, 10)[i] != ':'
    decreases n
  {
    if n >= 10 {
      DivShrinks(n, 10);
      DecimalAscii(n / 10);
    }
  }

  /** The IV text is plain ASCII, so `btoa` accepts it. */
  lemma IvTextAscii(iv: seq<byte>)
    ensures IsAscii(IvText(iv))
  {
    var parts := IvParts(iv);
    forall k | 0 <= k < |parts| ensures IsAscii(parts[k]) {
      DecimalAscii(iv[k]);
    }
    JoinAscii(parts, ',');
  }

  /** Reading the IV text back gives the IV (a non-empty one: `"".split(",")` is `[""]`). */
  lemma IvTextRoundTrip(iv: seq<byte>)
    requires |iv| >= 1
    ensures ParseIv(IvText(iv)) == iv
  {
    var parts := IvParts(iv);
    IvPartsHaveNoComma(iv);
    SplitJoin(parts, ',');
    IvPartsNumbers(iv);
  }

  lemma IvPartsHaveNoComma(iv: seq<byte>)
    ensures forall k, i :: 0 <= k < |IvParts(iv)| && 0 <= i < |IvParts(iv)[k]| ==> IvParts(iv)[k][i] != ','
  {
    forall k, i | 0 <= k < |IvParts(iv)| && 0 <= i < |IvParts(iv)[k]| ensures IvParts(iv)[k][i] != ',' {
      DecimalAscii(iv[k]);
    }
  }

  lemma IvPartsNumbers(iv: seq<byte>)
    ensures forall k :: 0 <= k < |iv| ==> ToUint8(StringToNumber(IvParts(iv)[k])) == iv[k]
  {
    forall k | 0 <= k < |iv| ensures ToUint8(StringToNumber(IvParts(iv)[k])) == iv[k] {
      assert IvParts(iv)[k] == NatToRadix(iv[k], 10);
      IvPartNumber(iv[k]);
    }
  }

  /** One byte written in decimal is read back by `Number` and stored unchanged. */
  lemma IvPartNumber(b: byte)
    ensures ToUint8(StringToNumber(NatToRadix(b, 10))) == b
  {
    DecimalToNumber(b);
    ByteToUint8(b as int);
  }

  lemma Base64Ascii(s: string)
    requires IsBase64(s)
    ensures IsAscii(s)
    ensures forall i :: 0 <= i < |s| ==> s[i] != ':'
  {
  }

  lemma AsciiIsLatin1(s: string)
    requires IsAscii(s)
    ensures IsLatin1(s)
  {
  }

  /** Encryption succeeds exactly when the clock text is Latin-1. */
  lemma EncryptSucceedsIff(p: Platform, data: Json, pass: string, n: SymNonce)
    requires Sound(p)
    ensures EncryptSymmetric(p, data, pass, n).Some? <==> IsLatin1(n.clock)
    ensures EncryptSymmetric(p, data, pass, n).Some? ==> IsBase64(EncryptSymmetric(p, data, pass, n).value)
  {
    IvTextAscii(n.iv);
    AsciiIsLatin1(IvText(n.iv));
    if IsLatin1(n.clock) {
      var ivPart := p.btoa(IvText(n.iv)).value;
      var saltPart := p.btoa(n.clock).value;
      var raw := p.stringify(data);
      var ct := p.aesGcmEncrypt(DeriveKey(p, pass, n.clock), n.iv, p.utf8Encode(raw));
      var hexPart := BytesToHex(ct);
      BytesToHexShape(ct);
      Base64Ascii(ivPart);
      Base64Ascii(saltPart);
      FrameAscii(ivPart, saltPart, hexPart);
      AsciiIsLatin1(FrameText(ivPart, saltPart, hexPart));
    }
  }

  lemma FrameAscii(a: string, b: string, c: string)
    requires IsAscii(a) && IsAscii(b) && IsAscii(c)
    ensures IsAscii(FrameText(a, b, c))
  {
    var f := FrameText(a, b, c);
    forall i | 0 <= i < |f| ensures f[i] as int < 128 {
      if i < |a| { assert f[i] == a[i]; }
      else if i == |a| { }
      else if i < |a| + 1 + |b| { assert f[i] == b[i - |a| - 1]; }
      else if i == |a| + 1 + |b| { }
      else { assert f[i] == c[i - |a| - |b| - 2]; }
    }
  }

  /** The frame splits back into its three fields when none contains a colon. */
  lemma FrameSplits(a: string, b: string, c: string)
    requires forall i :: 0 <= i < |a| ==> a[i] != ':'
    requires forall i :: 0 <= i < |b| ==> b[i] != ':'
    requires forall i :: 0 <= i < |c| ==> c[i] != ':'
    ensures Split(FrameText(a, b, c), ':') == [a, b, c]
  {
    assert FrameText(a, b, c) == a + [':'] + (b + [':'] + c);
    SplitAtSep(a, ':', b + [':'] + c);
    SplitAtSep(b, ':', c);
    SplitNoSep(c, ':');
  }

  /**
   * Reading an envelope with the password it was made with gives the
   * value back (JSON `null` comes back as the text "null").
   */
  lemma SymmetricRoundTrip(p: Platform, data: Json, pass: string, n: SymNonce)
    requires Sound(p)
    requires IsLatin1(n.clock)
    ensures EncryptSymmetric(p, data, pass, n).Some?
    ensures ReadSymmetric(p, pass, EncryptSymmetric(p, data, pass, n).value) == Value(Delivered(data))
  {
    EncryptSucceedsIff(p, data, pass, n);
    IvTextAscii(n.iv);
    AsciiIsLatin1(IvText(n.iv));
    var raw := p.stringify(data);
    var ct := p.aesGcmEncrypt(DeriveKey(p, pass, n.clock), n.iv, p.utf8Encode(raw));
    var ivPart := p.btoa(IvText(n.iv)).value;
    var saltPart := p.btoa(n.clock).value;
    var hexPart := BytesToHex(ct);
    var frame := FrameText(ivPart, saltPart, hexPart);
    BytesToHexShape(ct);
    Base64Ascii(ivPart);
    Base64Ascii(saltPart);
    FrameAscii(ivPart, saltPart, hexPart);
    AsciiIsLatin1(frame);
    assert EncryptSymmetric(p, data, pass, n) == p.btoa(frame);
    var sealed := p.btoa(frame).value;
    assert p.atob(sealed) == Some(frame);
    assert forall i :: 0 <= i < |hexPart| ==> hexPart[i] != ':' by {
      forall i | 0 <= i < |hexPart| ensures hexPart[i] != ':' {
        assert IsLowerHexDigit(hexPart[i]);
      }
    }
    FrameSplits(ivPart, saltPart, hexPart);
    IvTextRoundTrip(n.iv);
    HexRoundTrip(ct);
    assert ReadSymmetric(p, pass, sealed) == OpenFrame(p, pass, n.iv, n.clock, ct);
  }
}
