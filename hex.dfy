/**
 * Hexadecimal text for byte strings (`Utils.bytesToHex`, `Utils.hexToBytes`,
 * `Utils.generateRandomHex`) and the session token derived from the shared
 * password (`Utils.deriveSessionToken`).
 */
module Hex {
  import opened Js
  import opened Platform

  predicate IsLowerHexDigit(c: char) { '0' <= c <= '9' || 'a' <= c <= 'f' }

  predicate IsLowerHex(s: string) { forall i :: 0 <= i < |s| ==> IsLowerHexDigit(s[i]) }

  /** `b.toString(16).padStart(2, '0')`. */
  function ByteHex(b: byte): string
  {
    PadStart(NatToRadix(b, 16), 2, '0')
  }

  /** `bytesToHex`: the byte renderings, concatenated. */
  function BytesToHex(bytes: seq<byte>): string
  {
    if |bytes| == 0 then "" else ByteHex(bytes[0]) + BytesToHex(bytes[1..])
  }

  /**
   * What `hexToBytes` computes: one byte per two characters (an odd last
   * character is dropped), each the pair read by `parseInt(…, 16)` and
   * stored into a Uint8Array (NaN as 0, other values modulo 256).
   */
  function HexDecode(hex: string): (bytes: seq<byte>)
    ensures |bytes| == |hex| / 2
  {
    seq(|hex| / 2, i requires 0 <= i < |hex| / 2 => PairValue(hex[2 * i..2 * i + 2]))
  }

  /** `parseInt(pair, 16)` stored into a Uint8Array. */
  function PairValue(pair: string): byte
  {
    ToUint8(ParseInt(pair, 16))
  }

  /** `hexToBytes`: fills a fresh byte array of half the text's length, pair by pair. */
  method HexToBytes(hex: string) returns (bytes: array<byte>)
    ensures fresh(bytes)
    ensures bytes[..] == HexDecode(hex)
  {
    bytes := new byte[|hex| / 2];
    var i := 0;
    while i < bytes.Length
      invariant 0 <= i <= bytes.Length
      invariant forall k :: 0 <= k < i ==> bytes[k] == PairValue(hex[2 * k..2 * k + 2])
    {
      bytes[i] := PairValue(hex[i * 2..i * 2 + 2]);
      i := i + 1;
    }
  }

  /**
   * `generateRandomHex(n)`: `getRandomValues` fills an n-byte buffer
   * (`random(i)` is the value it writes at position i), which is then
   * rendered in hexadecimal.
   */
  method GenerateRandomHex(n: nat, random: nat -> byte) returns (hex: string)
    ensures |hex| == 2 * n && IsLowerHex(hex)
    ensures HexDecode(hex) == seq(n, i requires 0 <= i < n => random(i))
  {
    var randomValues := new byte[n];
    var i := 0;
    while i < n
      invariant 0 <= i <= n
      invariant randomValues[..i] == seq(i, k requires 0 <= k < i => random(k))
    {
      randomValues[i] := random(i);
      i := i + 1;
    }
    hex := BytesToHex(randomValues[..]);
    BytesToHexShape(randomValues[..]);
    HexRoundTrip(randomValues[..]);
  }

  // ---------------------------------------------------------------------
  // Properties
  // ---------------------------------------------------------------------

  /** A byte renders as its two lower-case hexadecimal digits, high nibble first. */
  lemma ByteHexDigits(b: byte)
    ensures ByteHex(b) == [DigitChar(b / 16), DigitChar(b % 16)]
    ensures IsLowerHexDigit(ByteHex(b)[0]) && IsLowerHexDigit(ByteHex(b)[1])
  {
    if b < 16 {
      assert NatToRadix(b, 16) == [DigitChar(b)];
      assert DigitChar(0) == '0';
    } else {
      assert NatToRadix(b / 16, 16) == [DigitChar(b / 16)];
    }
  }

  /** `parseInt` reads a byte's rendering back as the byte. */
  lemma ByteHexParses(b: byte)
    ensures ParseInt(ByteHex(b), 16) == Some(b)
  {
    ParsePadded(b, 16, 2);
  }

  /** A rendering has two characters per byte, all lower-case hexadecimal digits. */
  lemma {:induction false} BytesToHexShape(bytes: seq<byte>)
    ensures |BytesToHex(bytes)| == 2 * |bytes|
    ensures IsLowerHex(BytesToHex(bytes)) && IsAscii(BytesToHex(bytes))
    ensures forall i :: 0 <= i < |bytes| ==> BytesToHex(bytes)[2 * i..2 * i + 2] == ByteHex(bytes[i])
  {
    if |bytes| > 0 {
      BytesToHexShape(bytes[1..]);
      ByteHexDigits(bytes[0]);
      var h := BytesToHex(bytes);
      var t := BytesToHex(bytes[1..]);
      assert h == ByteHex(bytes[0]) + t;
      forall i | 0 <= i < |bytes|
        ensures h[2 * i..2 * i + 2] == ByteHex(bytes[i])
      {
        if i > 0 {
          assert h[2 * i..2 * i + 2] == t[2 * (i - 1)..2 * (i - 1) + 2];
        }
      }
    }
  }

  /** Decoding a text that starts with a two-character pair decodes the pair, then the rest. */
  lemma HexDecodeCons(pair: string, rest: string)
    requires |pair| == 2
    ensures HexDecode(pair + rest) == [PairValue(pair)] + HexDecode(rest)
  {
    var h := pair + rest;
    assert |h| / 2 == 1 + |rest| / 2;
    forall i | 0 <= i < |h| / 2
      ensures HexDecode(h)[i] == ([PairValue(pair)] + HexDecode(rest))[i]
    {
      if i == 0 {
        assert h[0..2] == pair;
      } else {
        assert h[2 * i..2 * i + 2] == rest[2 * (i - 1)..2 * (i - 1) + 2];
      }
    }
  }

  /** A byte's rendering decodes to the byte. */
  lemma ByteHexDecodes(b: byte)
    ensures |ByteHex(b)| == 2 && PairValue(ByteHex(b)) == b
  {
    ByteHexDigits(b);
    ByteHexParses(b);
    ByteToUint8(b as int);
  }

  /** `hexToBytes(bytesToHex(b))` is `b`. */
  lemma {:induction false} HexRoundTrip(bytes: seq<byte>)
    ensures HexDecode(BytesToHex(bytes)) == bytes
  {
    if |bytes| == 0 {
      assert HexDecode("") == [];
    } else {
      ByteHexDecodes(bytes[0]);
      HexDecodeCons(ByteHex(bytes[0]), BytesToHex(bytes[1..]));
      HexRoundTrip(bytes[1..]);
      assert [bytes[0]] + bytes[1..] == bytes;
    }
  }

  // ---------------------------------------------------------------------
  // Session token
  // ---------------------------------------------------------------------

  /** The token shape the relay accepts: `/^[a-f0-9]{64}$/`. */
  predicate IsTokenFormat(s: string) { |s| == 64 && IsLowerHex(s) }

  const SessionIterations: nat := 100000

  /**
   * `deriveSessionToken(pass)`: PBKDF2-SHA-256 over the password, salted
   * with the UTC date (`toISOString()` up to the "T"), 100000 iterations,
   * 32 bytes, in hexadecimal. The browser branch renders the bits with
   * `toString(16).padStart(2, "0")`, the Node branch with
   * `Buffer.toString("hex")`; both give this rendering.
   */
  function DeriveSessionToken(p: Platform, pass: string, isoNow: string): string
  {
    var salt := p.utf8Encode(Split(isoNow, 'T')[0]);
    BytesToHex(p.pbkdf2(p.utf8Encode(pass), salt, SessionIterations, 32))
  }

  /** Every derived session token has the format the relay accepts. */
  lemma SessionTokenFormat(p: Platform, pass: string, isoNow: string)
    requires Sound(p)
    ensures IsTokenFormat(DeriveSessionToken(p, pass, isoNow))
  {
    var salt := p.utf8Encode(Split(isoNow, 'T')[0]);
    BytesToHexShape(p.pbkdf2(p.utf8Encode(pass), salt, SessionIterations, 32));
  }
}
