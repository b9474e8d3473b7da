/**
 * `Base65` of the two steganography files: bytes become a stream of
 * six-bit digits written over a 65-character alphabet, through a
 * JavaScript bit buffer (a 32-bit two's-complement integer). Encoding
 * never produces the 65th character 'z'; decoding reads it as a 7-bit
 * value whose top bit lands in the previous digit.
 */
module Base65 {
  import opened Js
  import opened Platform

  const DigitChars: string := "0123456789"
  const UpperChars: string := "ABCDEFGHIJKLMNOPQRSTUVWXYZ"
  const SignChars: string := "+/-"
  const LowerChars: string := "abcdefghijklmnopqrstuvwxyz"

  /** `BASE65_ALPHABET`: digits, capitals, "+/-", small letters, written here in its four runs. */
  const Alphabet: string := DigitChars + UpperChars + SignChars + LowerChars

  /** `BASE65_PADDING_CHAR`. */
  const PaddingChar: char := '_'

  /** The character at position `d` of the alphabet, by ranges. */
  function AlphabetChar(d: nat): char
    requires d < 65
  {
    if d < 10 then ('0' as int + d) as char
    else if d < 36 then ('A' as int + d - 10) as char
    else if d == 36 then '+'
    else if d == 37 then '/'
    else if d == 38 then '-'
    else ('a' as int + d - 39) as char
  }

  lemma AlphabetChunks()
    ensures |Alphabet| == 65
    ensures forall i :: 0 <= i < 10 ==> DigitChars[i] as int == '0' as int + i
    ensures forall i :: 0 <= i < 26 ==> UpperChars[i] as int == 'A' as int + i
    ensures SignChars == ['+', '/', '-']
    ensures forall i :: 0 <= i < 26 ==> LowerChars[i] as int == 'a' as int + i
  {
  }

  /** The alphabet literal is the range description above. */
  lemma AlphabetAt(d: nat)
    requires d < 65
    ensures Alphabet[d] == AlphabetChar(d)
  {
    AlphabetChunks();
    var first := DigitChars + UpperChars;
    var most := first + SignChars;
    assert Alphabet == most + LowerChars;
    if d < 10 {
      assert Alphabet[d] == most[d] == first[d] == DigitChars[d];
    } else if d < 36 {
      assert Alphabet[d] == most[d] == first[d] == UpperChars[d - 10];
    } else if d < 39 {
      assert Alphabet[d] == most[d] == SignChars[d - 36];
    } else {
      assert Alphabet[d] == LowerChars[d - 39];
    }
  }

  /** No character occurs twice in the alphabet, and the padding character is not in it. */
  lemma AlphabetDistinct(d: nat, e: nat)
    requires d < 65 && e < 65
    ensures Alphabet[d] == Alphabet[e] ==> d == e
    ensures Alphabet[d] != PaddingChar
  {
    AlphabetAt(d);
    AlphabetAt(e);
    AlphabetCharPosition(d);
    AlphabetCharPosition(e);
  }

  /** Every alphabet character is ASCII, and none is the marker character '^'. */
  lemma AlphabetCharAscii(d: nat)
    requires d < 65
    ensures AlphabetChar(d) as int < 128 && AlphabetChar(d) != '^'
  {
  }

  /** Character `k` of an encoding is ASCII and not '^'. */
  lemma EncodingAscii(bytes: seq<byte>, k: nat)
    requires k < |EncodeSpec(bytes)|
    ensures EncodeSpec(bytes)[k] as int < 128 && EncodeSpec(bytes)[k] != '^'
  {
    var v := Sextet(bytes, k) as int;
    assert EncodeSpec(bytes)[k] == Alphabet[v];
    AlphabetAt(v);
    AlphabetCharAscii(v);
  }

  /** The position of a character in the range description (the inverse of `AlphabetChar`). */
  function CharPosition(c: char): int
  {
    if '0' <= c <= '9' then c as int - '0' as int
    else if 'A' <= c <= 'Z' then c as int - 'A' as int + 10
    else if c == '+' then 36
    else if c == '/' then 37
    else if c == '-' then 38
    else if 'a' <= c <= 'z' then c as int - 'a' as int + 39
    else -1
  }

  lemma AlphabetCharPosition(d: nat)
    requires d < 65
    ensures CharPosition(AlphabetChar(d)) == d
    ensures AlphabetChar(d) != PaddingChar
  {
  }

  /** `BASE65_ALPHABET.indexOf(char)`: the digit a character stands for, or -1. */
  function DigitOf(c: char): (i: int)
    ensures -1 <= i < 65
    ensures i >= 0 ==> Alphabet[i] == c
    ensures i == -1 ==> c !in Alphabet
  {
    AlphabetChunks();
    var i := IndexOf(Alphabet, [c]);
    if i >= 0 then
      assert Alphabet[i..i + 1] == [c];
      i
    else
      NotOccurring(c);
      i
  }

  lemma NotOccurring(c: char)
    requires |Alphabet| == 65
    requires forall j :: 0 <= j ==> !OccursAt(Alphabet, [c], j)
    ensures c !in Alphabet
  {
    forall d | 0 <= d < 65 ensures Alphabet[d] != c {
      assert !OccursAt(Alphabet, [c], d);
      assert Alphabet[d..d + 1] == [Alphabet[d]];
    }
  }

  /** Looking up an alphabet character gives its position back. */
  lemma DigitOfAlphabet(d: nat)
    requires d < 65
    ensures DigitOf(Alphabet[d]) == d
  {
    var i := DigitOf(Alphabet[d]);
    AlphabetDistinct(i, d);
  }

  // ---------------------------------------------------------------------
  // 32-bit buffer arithmetic
  // ---------------------------------------------------------------------

  /** A byte or a digit as a 32-bit value (counted up from zero). */
  function ToBv(n: nat): (x: bv32)
    requires n < 256
    ensures x as int == n
    ensures x < 256
  {
    if n == 0 then 0 else ToBv(n - 1) + 1
  }

  /** The low `c` bits. */
  function Mask(c: bv32): bv32
    requires c < 32
  {
    (1 << c) - 1
  }

  /** JavaScript's `x >> s` on a 32-bit integer: the sign bit is copied in from the left. */
  function Sar(x: bv32, s: bv32): bv32
    requires s < 32
  {
    if x & 0x8000_0000 == 0 then x >> s else !((!x) >> s)
  }

  /** The low bits read from a shifted buffer do not depend on how the sign is extended. */
  lemma SarLow(x: bv32, s: bv32)
    requires s <= 24
    ensures Sar(x, s) & 0x3F == (x >> s) & 0x3F
    ensures Sar(x, s) & 0xFF == (x >> s) & 0xFF
  {
  }

  // ---------------------------------------------------------------------
  // Encoding
  // ---------------------------------------------------------------------

  /** Byte `i` of the message as a 32-bit value; 0 outside it. */
  function ByteAt(bytes: seq<byte>, i: int): (x: bv32)
    ensures x < 256
  {
    if 0 <= i < |bytes| then ToBv(bytes[i]) else 0
  }

  /**
   * Digit `k` of the encoding: every three bytes give four six-bit
   * digits, most significant bits first; missing bytes count as zero.
   */
  function Sextet(bytes: seq<byte>, k: nat): (v: bv32)
    ensures v < 64
  {
    var g := 3 * (k / 4);
    var b0, b1, b2 := ByteAt(bytes, g), ByteAt(bytes, g + 1), ByteAt(bytes, g + 2);
    if k % 4 == 0 then b0 >> 2
    else if k % 4 == 1 then ((b0 & 0x3) << 4) | (b1 >> 4)
    else if k % 4 == 2 then ((b1 & 0xF) << 2) | (b2 >> 6)
    else b2 & 0x3F
  }

  /** The number of characters for `n` bytes: one per six bits, rounded up. */
  function EncodedLength(n: nat): nat
  {
    (8 * n + 5) / 6
  }

  /** `BASE65_ALPHABET[v]` for a six-bit value. */
  function DigitChar(v: bv32): char
    requires v < 64
  {
    Alphabet[v as int]
  }

  /** What `encode(bytes)` returns: the alphabet character of each digit. */
  function EncodeSpec(bytes: seq<byte>): string
  {
    seq(EncodedLength(|bytes|), k requires 0 <= k < EncodedLength(|bytes|) => DigitChar(Sextet(bytes, k)))
  }

  /** The last `c` bits of the stream of the first `n` bytes (at most 16). */
  function EncodeTail(bytes: seq<byte>, n: nat, c: bv32): bv32
    requires c <= 16
  {
    ((ByteAt(bytes, n - 2) << 8) | ByteAt(bytes, n - 1)) & Mask(c)
  }

  /** The encoder after `n` bytes: the characters written so far and the bits still in the buffer. */
  ghost predicate EncodeState(bytes: seq<byte>, n: nat, output: string, buf: bv32, count: bv32)
  {
    && count <= 12 && count & 1 == 0
    && 6 * |output| + count as int == 8 * n
    && (forall k :: 0 <= k < |output| ==> output[k] == DigitChar(Sextet(bytes, k)))
    && buf & Mask(count) == EncodeTail(bytes, n, count)
  }

  lemma CountUp(c: bv32, d: bv32)
    requires c <= 12 && d <= 8
    ensures (c + d) as int == c as int + d as int
  {
  }

  lemma CountDown(c: bv32, d: bv32)
    requires d <= c <= 12
    ensures (c - d) as int == c as int - d as int
  {
  }

  /** Shifting a byte in: the buffer then holds eight more stream bits. */
  lemma ShiftInByte(bytes: seq<byte>, n: nat, buf: bv32, count: bv32)
    requires n < |bytes| && count <= 4 && count & 1 == 0
    requires buf & Mask(count) == EncodeTail(bytes, n, count)
    ensures ((buf << 8) | ByteAt(bytes, n)) & Mask(count + 8) == EncodeTail(bytes, n + 1, count + 8)
  {
    if count == 0 {
    } else if count == 2 {
    } else {
      assert count == 4;
    }
  }

  /** Reading the top six of `c` pending bits reads them from the low `c` bits. */
  lemma TopSix(buf: bv32, c: bv32, t: bv32)
    requires 6 <= c <= 12 && c & 1 == 0
    requires buf & Mask(c) == t
    ensures Sar(buf, c - 6) & 0x3F == (t >> (c - 6)) & 0x3F
    ensures buf & Mask(c - 6) == t & Mask(c - 6)
  {
    SarLow(buf, c - 6);
    assert Mask(c) & Mask(c - 6) == Mask(c - 6);
    assert (buf >> (c - 6)) & 0x3F == ((buf & Mask(c)) >> (c - 6)) & 0x3F by {
      if c == 6 {
      } else if c == 8 {
      } else if c == 10 {
      } else {
        assert c == 12;
      }
    }
  }

  lemma TailTail(bytes: seq<byte>, n: nat, c: bv32)
    requires 6 <= c <= 12
    ensures EncodeTail(bytes, n, c) & Mask(c - 6) == EncodeTail(bytes, n, c - 6)
  {
    assert Mask(c) & Mask(c - 6) == Mask(c - 6);
  }

  /** The six bits after the first `6k` ones are digit `k`. */
  lemma TailSextet(bytes: seq<byte>, n: nat, k: nat, c: bv32)
    requires 6 <= c <= 12 && c & 1 == 0
    requires 6 * k + c as int == 8 * n
    ensures (EncodeTail(bytes, n, c) >> (c - 6)) & 0x3F == Sextet(bytes, k)
  {
    var g := k / 4;
    if c == 8 {
      assert k == 4 * g && n == 3 * g + 1;
    } else if c == 10 {
      assert k == 4 * g + 1 && n == 3 * g + 2;
    } else if c == 12 {
      assert k == 4 * g + 2 && n == 3 * g + 3;
    } else {
      assert c == 6;
      assert k == 4 * g + 3 && n == 3 * g + 3;
    }
  }

  /** The last, partial digit is the pending bits followed by zero bits. */
  lemma FinalSextet(bytes: seq<byte>, k: nat, buf: bv32, count: bv32)
    requires 0 < count < 6 && count & 1 == 0
    requires 6 * k + count as int == 8 * |bytes|
    requires buf & Mask(count) == EncodeTail(bytes, |bytes|, count)
    ensures (buf << (6 - count)) & 0x3F == Sextet(bytes, k)
  {
    var g := k / 4;
    if count == 2 {
      assert k == 4 * g + 1 && |bytes| == 3 * g + 1;
    } else {
      assert count == 4;
      assert k == 4 * g + 2 && |bytes| == 3 * g + 2;
    }
  }

  lemma AppendSextet(bytes: seq<byte>, output: string, v: bv32)
    requires forall k :: 0 <= k < |output| ==> output[k] == DigitChar(Sextet(bytes, k))
    requires v == Sextet(bytes, |output|)
    ensures var o := output + [DigitChar(v)];
      forall k :: 0 <= k < |o| ==> o[k] == DigitChar(Sextet(bytes, k))
  {
  }

  /** One byte into the buffer. */
  lemma ByteStep(bytes: seq<byte>, n: nat, output: string, buf: bv32, count: bv32)
    requires n < |bytes| && count < 6
    requires EncodeState(bytes, n, output, buf, count)
    ensures EncodeState(bytes, n + 1, output, (buf << 8) | ToBv(bytes[n]), count + 8)
  {
    ShiftInByte(bytes, n, buf, count);
    CountUp(count, 8);
  }

  /** Taking the top six of the pending bits yields the next digit. */
  lemma EmitSextet(bytes: seq<byte>, n: nat, k: nat, buf: bv32, count: bv32)
    requires 6 <= count <= 12 && count & 1 == 0
    requires 6 * k + count as int == 8 * n
    requires buf & Mask(count) == EncodeTail(bytes, n, count)
    ensures Sar(buf, count - 6) & 0x3F == Sextet(bytes, k)
  {
    TopSix(buf, count, EncodeTail(bytes, n, count));
    TailSextet(bytes, n, k, count);
  }

  /** The bits below the digit taken stay pending. */
  lemma KeepBelow(bytes: seq<byte>, n: nat, buf: bv32, count: bv32)
    requires 6 <= count <= 12 && count & 1 == 0
    requires buf & Mask(count) == EncodeTail(bytes, n, count)
    ensures buf & Mask(count - 6) == EncodeTail(bytes, n, count - 6)
  {
    TopSix(buf, count, EncodeTail(bytes, n, count));
    TailTail(bytes, n, count);
  }

  /** One character out of the buffer. */
  lemma DigitStep(bytes: seq<byte>, n: nat, output: string, buf: bv32, count: bv32)
    requires 6 <= count
    requires EncodeState(bytes, n, output, buf, count)
    ensures EncodeState(bytes, n, output + [DigitChar(Sar(buf, count - 6) & 0x3F)], buf, count - 6)
  {
    EmitSextet(bytes, n, |output|, buf, count);
    KeepBelow(bytes, n, buf, count);
    CountDown(count, 6);
    AppendSextet(bytes, output, Sar(buf, count - 6) & 0x3F);
  }

  /** After the last byte: the partial digit, when there is one, completes the encoding. */
  lemma FinalStep(bytes: seq<byte>, output: string, buf: bv32, count: bv32)
    requires count < 6
    requires EncodeState(bytes, |bytes|, output, buf, count)
    ensures count == 0 ==> output == EncodeSpec(bytes)
    ensures count > 0 ==> output + [DigitChar((buf << (6 - count)) & 0x3F)] == EncodeSpec(bytes)
  {
    if count > 0 {
      FinalSextet(bytes, |output|, buf, count);
      AppendSextet(bytes, output, (buf << (6 - count)) & 0x3F);
      CountDown(6, count);
      EncodeDone(bytes, output + [DigitChar((buf << (6 - count)) & 0x3F)], 6 - count as int);
    } else {
      EncodeDone(bytes, output, 0);
    }
  }

  lemma EncodeDone(bytes: seq<byte>, output: string, fill: nat)
    requires fill < 6
    requires 6 * |output| == 8 * |bytes| + fill
    requires forall k :: 0 <= k < |output| ==> output[k] == DigitChar(Sextet(bytes, k))
    ensures output == EncodeSpec(bytes)
  {
    assert |output| == EncodedLength(|bytes|);
  }

  /** One turn of the loop of `encode`: a byte in, then every complete digit out. */
  method EncodeByte(bytes: seq<byte>, n: nat, output: string, buf: bv32, count: bv32)
    returns (output': string, buf': bv32, count': bv32)
    requires n < |bytes| && count < 6
    requires EncodeState(bytes, n, output, buf, count)
    ensures count' < 6
    ensures EncodeState(bytes, n + 1, output', buf', count')
  {
    ByteStep(bytes, n, output, buf, count);
    output', buf', count' := output, (buf << 8) | ToBv(bytes[n]), count + 8;
    while count' >= 6
      invariant EncodeState(bytes, n + 1, output', buf', count')
      decreases count' as int
    {
      output', count' := EmitDigit(bytes, n + 1, output', buf', count');
    }
  }

  /** One turn of the inner loop of `encode`: the top six pending bits become a character. */
  method EmitDigit(ghost bytes: seq<byte>, ghost n: nat, output: string, buf: bv32, count: bv32)
    returns (output': string, count': bv32)
    requires 6 <= count
    requires EncodeState(bytes, n, output, buf, count)
    ensures EncodeState(bytes, n, output', buf, count')
    ensures count' as int == count as int - 6
  {
    DigitStep(bytes, n, output, buf, count);
    CountDown(count, 6);
    count' := count - 6;
    output' := output + [DigitChar(Sar(buf, count') & 0x3F)];
  }

  /** `encode(bytes)`. */
  method Encode(bytes: seq<byte>) returns (output: string)
    ensures output == EncodeSpec(bytes)
  {
    output := "";
    var bitBuffer: bv32 := 0;
    var bitCount: bv32 := 0;
    for i := 0 to |bytes|
      invariant EncodeState(bytes, i, output, bitBuffer, bitCount)
      invariant bitCount < 6
    {
      output, bitBuffer, bitCount := EncodeByte(bytes, i, output, bitBuffer, bitCount);
    }
    FinalStep(bytes, output, bitBuffer, bitCount);
    if bitCount > 0 {
      output := output + [DigitChar((bitBuffer << (6 - bitCount)) & 0x3F)];
    }
  }

  // ---------------------------------------------------------------------
  // Decoding
  // ---------------------------------------------------------------------

  /** `encoded.replace(/_+$/, "")`: the trailing run of padding characters removed. */
  function StripPadding(s: string): (r: string)
    ensures |r| <= |s| && r == s[..|r|]
    ensures |r| == 0 || r[|r| - 1] != PaddingChar
    ensures forall i :: |r| <= i < |s| ==> s[i] == PaddingChar
  {
    if |s| > 0 && s[|s| - 1] == PaddingChar then StripPadding(s[..|s| - 1]) else s
  }

  /** The digits `decode` feeds its buffer: the alphabet position of each character; other characters are skipped. */
  function DigitsOf(s: string): (d: seq<bv32>)
    ensures forall k :: 0 <= k < |d| ==> d[k] < 65
  {
    if |s| == 0 then []
    else
      var i := DigitOf(s[|s| - 1]);
      DigitsOf(s[..|s| - 1]) + (if i == -1 then [] else [ToBv(i)])
  }

  /** Digit `k` as a 32-bit value; 0 outside the digits. */
  function DigitAt(digits: seq<bv32>, k: int): (x: bv32)
    requires forall j :: 0 <= j < |digits| ==> digits[j] < 65
    ensures x < 65
  {
    if 0 <= k < |digits| then digits[k] else 0
  }

  /**
   * Byte `m` of the decoding: every four digits give three bytes. A digit
   * is ORed in whole, so the seventh bit of 'z' (position 64) lands on the
   * lowest bit of the digit before it.
   */
  function DecodedByte(digits: seq<bv32>, m: nat): (x: bv32)
    requires forall j :: 0 <= j < |digits| ==> digits[j] < 65
    ensures x < 256
  {
    var g := 4 * (m / 3);
    var d0, d1, d2, d3 := DigitAt(digits, g), DigitAt(digits, g + 1), DigitAt(digits, g + 2), DigitAt(digits, g + 3);
    if m % 3 == 0 then ((d0 << 2) | (d1 >> 4)) & 0xFF
    else if m % 3 == 1 then ((d1 << 4) | (d2 >> 2)) & 0xFF
    else ((d2 << 6) | d3) & 0xFF
  }

  /** The bytes of a digit sequence: one per complete eight bits; leftover bits are dropped. */
  function DecodeDigits(digits: seq<bv32>): seq<byte>
    requires forall j :: 0 <= j < |digits| ==> digits[j] < 65
  {
    seq(6 * |digits| / 8, m requires 0 <= m < 6 * |digits| / 8 => DecodedByte(digits, m) as int)
  }

  /** What `Base65.decode(encoded)` returns. */
  function DecodeSpec(encoded: string): seq<byte>
  {
    DecodeDigits(DigitsOf(StripPadding(encoded)))
  }

  /** The low `c` bits of the buffer after the given digits (at most 12). */
  function DecodeTail(digits: seq<bv32>, c: bv32): bv32
    requires forall j :: 0 <= j < |digits| ==> digits[j] < 65
    requires c <= 12
  {
    ((DigitAt(digits, |digits| - 2) << 6) | DigitAt(digits, |digits| - 1)) & Mask(c)
  }

  /** The decoder after the given digits: the bytes written so far and the bits still in the buffer. */
  ghost predicate DecodeState(digits: seq<bv32>, output: seq<byte>, buf: bv32, count: bv32)
  {
    && (forall j :: 0 <= j < |digits| ==> digits[j] < 65)
    && count <= 12 && count & 1 == 0
    && 8 * |output| + count as int == 6 * |digits|
    && (forall m :: 0 <= m < |output| ==> output[m] == DecodedByte(digits, m) as int)
    && buf & Mask(count) == DecodeTail(digits, count)
  }

  /** A byte already written does not depend on the digits after it. */
  lemma ByteStable(digits: seq<bv32>, d: bv32, m: nat)
    requires forall j :: 0 <= j < |digits| ==> digits[j] < 65
    requires d < 65
    requires 8 * m + 8 <= 6 * |digits|
    ensures DecodedByte(digits + [d], m) == DecodedByte(digits, m)
  {
    var g := 4 * (m / 3);
    var e := digits + [d];
    ByteDigitsIn(m, |digits|);
    DigitAtAppend(digits, d, g);
    DigitAtAppend(digits, d, g + 1);
    if m % 3 != 0 {
      DigitAtAppend(digits, d, g + 2);
    }
    if m % 3 == 2 {
      DigitAtAppend(digits, d, g + 3);
    }
  }

  /** The digits byte `m` is read from come before digit n when 8m + 8 bits fit in n digits. */
  lemma ByteDigitsIn(m: nat, n: nat)
    requires 8 * m + 8 <= 6 * n
    ensures 4 * (m / 3) + m % 3 + 1 < n
  {
    var q, r := m / 3, m % 3;
    assert m == 3 * q + r;
  }

  /** Appending a digit leaves the digits before it in place. */
  lemma DigitAtAppend(digits: seq<bv32>, d: bv32, k: nat)
    requires forall j :: 0 <= j < |digits| ==> digits[j] < 65
    requires d < 65 && k < |digits|
    ensures DigitAt(digits + [d], k) == DigitAt(digits, k)
  {
  }

  /** Shifting a digit in: the buffer then holds six more bits. */
  lemma ShiftInDigit(digits: seq<bv32>, d: bv32, buf: bv32, count: bv32)
    requires forall j :: 0 <= j < |digits| ==> digits[j] < 65
    requires d < 65 && count <= 6 && count & 1 == 0
    requires buf & Mask(count) == DecodeTail(digits, count)
    ensures ((buf << 6) | d) & Mask(count + 6) == DecodeTail(digits + [d], count + 6)
  {
    var e := digits + [d];
    assert DigitAt(e, |e| - 1) == d;
    assert DigitAt(e, |e| - 2) == DigitAt(digits, |digits| - 1);
    if count == 0 {
    } else if count == 2 {
    } else if count == 4 {
    } else {
      assert count == 6;
    }
  }

  /** One digit into the buffer. */
  lemma DigitInStep(digits: seq<bv32>, d: bv32, output: seq<byte>, buf: bv32, count: bv32)
    requires d < 65 && count < 8
    requires DecodeState(digits, output, buf, count)
    ensures DecodeState(digits + [d], output, (buf << 6) | d, count + 6)
  {
    ShiftInDigit(digits, d, buf, count);
    CountUp(count, 6);
    forall m | 0 <= m < |output| ensures output[m] == DecodedByte(digits + [d], m) as int {
      ByteStable(digits, d, m);
    }
  }

  /** Reading the top eight of `c` pending bits reads them from the low `c` bits. */
  lemma TopEight(buf: bv32, c: bv32, t: bv32)
    requires 8 <= c <= 12 && c & 1 == 0
    requires buf & Mask(c) == t
    ensures Sar(buf, c - 8) & 0xFF == (t >> (c - 8)) & 0xFF
    ensures buf & Mask(c - 8) == t & Mask(c - 8)
  {
    SarLow(buf, c - 8);
    ShiftedMask(buf, c, t);
    MaskOfMask(buf, c, t);
  }

  /** The eight bits above the lowest c - 8 lie within the lowest c. */
  lemma ShiftedMask(buf: bv32, c: bv32, t: bv32)
    requires 8 <= c <= 12 && c & 1 == 0
    requires buf & Mask(c) == t
    ensures (buf >> (c - 8)) & 0xFF == (t >> (c - 8)) & 0xFF
  {
    if c == 8 {
    } else if c == 10 {
    } else {
      assert c == 12;
    }
  }

  /** Masking to c bits, then to c - 8, masks to c - 8. */
  lemma MaskOfMask(buf: bv32, c: bv32, t: bv32)
    requires 8 <= c <= 12
    requires buf & Mask(c) == t
    ensures buf & Mask(c - 8) == t & Mask(c - 8)
  {
    assert Mask(c) & Mask(c - 8) == Mask(c - 8);
  }

  /** The eight bits after the first `8m` ones are byte `m`. */
  lemma TailByte(digits: seq<bv32>, m: nat, c: bv32)
    requires forall j :: 0 <= j < |digits| ==> digits[j] < 65
    requires 8 <= c <= 12 && c & 1 == 0
    requires 8 * m + c as int == 6 * |digits|
    ensures (DecodeTail(digits, c) >> (c - 8)) & 0xFF == DecodedByte(digits, m)
    ensures DecodeTail(digits, c) & Mask(c - 8) == DecodeTail(digits, c - 8)
  {
    var g := m / 3;
    assert Mask(c) & Mask(c - 8) == Mask(c - 8);
    if c == 12 {
      assert m == 3 * g && |digits| == 4 * g + 2;
    } else if c == 10 {
      assert m == 3 * g + 1 && |digits| == 4 * g + 3;
    } else {
      assert c == 8;
      assert m == 3 * g + 2 && |digits| == 4 * g + 4;
    }
  }

  /** The low eight bits of a buffer value, as the byte `output.push` stores. */
  function LowByte(x: bv32): byte
  {
    (x & 0xFF) as int
  }

  lemma AppendByte(digits: seq<bv32>, output: seq<byte>, x: bv32)
    requires forall j :: 0 <= j < |digits| ==> digits[j] < 65
    requires forall m :: 0 <= m < |output| ==> output[m] == DecodedByte(digits, m) as int
    requires x & 0xFF == DecodedByte(digits, |output|)
    ensures var o := output + [LowByte(x)];
      forall m :: 0 <= m < |o| ==> o[m] == DecodedByte(digits, m) as int
  {
  }

  /** The byte read from the top of the buffer is the next byte of the decoding. */
  lemma EmitByte(digits: seq<bv32>, output: seq<byte>, buf: bv32, count: bv32)
    requires 8 <= count
    requires DecodeState(digits, output, buf, count)
    ensures Sar(buf, count - 8) & 0xFF == DecodedByte(digits, |output|)
  {
    TopEight(buf, count, DecodeTail(digits, count));
    TailByte(digits, |output|, count);
  }

  /** The bits left below the byte read are the tail of the digits. */
  lemma KeepBelowByte(digits: seq<bv32>, output: seq<byte>, buf: bv32, count: bv32)
    requires 8 <= count
    requires DecodeState(digits, output, buf, count)
    ensures buf & Mask(count - 8) == DecodeTail(digits, count - 8)
  {
    TopEight(buf, count, DecodeTail(digits, count));
    TailByte(digits, |output|, count);
  }

  /** One byte out of the buffer. */
  lemma ByteOutStep(digits: seq<bv32>, output: seq<byte>, buf: bv32, count: bv32)
    requires 8 <= count
    requires DecodeState(digits, output, buf, count)
    ensures DecodeState(digits, output + [LowByte(Sar(buf, count - 8))], buf, count - 8)
  {
    EmitByte(digits, output, buf, count);
    KeepBelowByte(digits, output, buf, count);
    CountDown(count, 8);
    AppendByte(digits, output, Sar(buf, count - 8));
  }

  /** One turn of the loop of `decode` for an alphabet character: its digit in, then every complete byte out. */
  method DecodeDigit(ghost digits: seq<bv32>, d: bv32, output: seq<byte>, buf: bv32, count: bv32)
    returns (output': seq<byte>, buf': bv32, count': bv32)
    requires d < 65 && count < 8
    requires DecodeState(digits, output, buf, count)
    ensures count' < 8
    ensures DecodeState(digits + [d], output', buf', count')
  {
    DigitInStep(digits, d, output, buf, count);
    output', buf', count' := output, (buf << 6) | d, count + 6;
    while count' >= 8
      invariant DecodeState(digits + [d], output', buf', count')
    {
      ByteOutStep(digits + [d], output', buf', count');
      count' := count' - 8;
      output' := output' + [LowByte(Sar(buf', count'))];
    }
  }

  lemma DecodeDone(digits: seq<bv32>, output: seq<byte>, buf: bv32, count: bv32)
    requires count < 8
    requires DecodeState(digits, output, buf, count)
    ensures output == DecodeDigits(digits)
  {
    assert |output| == 6 * |digits| / 8;
  }

  /** One more character of the text: its digit, when it has one, is appended. */
  lemma DigitsOfStep(text: string, i: nat)
    requires i < |text|
    ensures DigitsOf(text[..i + 1]) ==
      DigitsOf(text[..i]) + (if DigitOf(text[i]) == -1 then [] else [ToBv(DigitOf(text[i]))])
  {
    assert text[..i + 1][..i] == text[..i];
  }

  /** One turn of the loop of `decode`: a character outside the alphabet is skipped. */
  method DecodeChar(ghost digits: seq<bv32>, c: char, output: seq<byte>, buf: bv32, count: bv32)
    returns (output': seq<byte>, buf': bv32, count': bv32)
    requires count < 8
    requires DecodeState(digits, output, buf, count)
    ensures count' < 8
    ensures DecodeState(digits + (if DigitOf(c) == -1 then [] else [ToBv(DigitOf(c))]), output', buf', count')
  {
    var index := DigitOf(c);
    if index == -1 {
      assert digits + [] == digits;
      output', buf', count' := output, buf, count;
    } else {
      output', buf', count' := DecodeDigit(digits, ToBv(index), output, buf, count);
    }
  }

  lemma DecodeStart()
    ensures DecodeState([], [], 0, 0)
  {
  }

  /** `Base65.decode(encoded)`, as `client-html/esteganography.js` writes it. */
  method Decode(encoded: string) returns (output: seq<byte>)
    ensures output == DecodeSpec(encoded)
  {
    var text := StripPadding(encoded);
    output := [];
    var bitBuffer: bv32 := 0;
    var bitCount: bv32 := 0;
    DecodeStart();
    for i := 0 to |text|
      invariant DecodeState(DigitsOf(text[..i]), output, bitBuffer, bitCount)
      invariant bitCount < 8
    {
      DigitsOfStep(text, i);
      output, bitBuffer, bitCount := DecodeChar(DigitsOf(text[..i]), text[i], output, bitBuffer, bitCount);
    }
    assert text[..|text|] == text;
    DecodeDone(DigitsOf(text), output, bitBuffer, bitCount);
  }

  // ---------------------------------------------------------------------
  // Round trip and the shape of the text
  // ---------------------------------------------------------------------

  /** Two buffer values below 256 with the same number are equal. */
  lemma SmallInjective(x: bv32, y: bv32)
    requires x < 256 && y < 256 && x as int == y as int
    ensures x == y
  {
  }

  lemma ToBvOf(x: bv32)
    requires x < 256
    ensures ToBv(x as int) == x
  {
    SmallInjective(ToBv(x as int), x);
  }

  /** The six-bit values of the first `i` characters of the encoding, as numbers. */
  function SextetDigits(bytes: seq<byte>, i: nat): (d: seq<bv32>)
    ensures |d| == i
    ensures forall k :: 0 <= k < i ==> d[k] < 65
  {
    seq(i, k requires 0 <= k < i => Sextet(bytes, k))
  }

  /** Every character the encoder writes is an alphabet character, so `decode` reads back the digits it came from. */
  lemma {:induction false} DigitsOfEncoding(bytes: seq<byte>, i: nat)
    requires i <= |EncodeSpec(bytes)|
    ensures DigitsOf(EncodeSpec(bytes)[..i]) == SextetDigits(bytes, i)
  {
    var e := EncodeSpec(bytes);
    if i == 0 {
      assert e[..0] == [];
    } else {
      DigitsOfEncoding(bytes, i - 1);
      DigitsOfStep(e, i - 1);
      EncodedDigit(bytes, i - 1);
      SextetDigitsStep(bytes, i - 1);
    }
  }

  /** Character `k` of the encoding is read back as sextet `k`. */
  lemma EncodedDigit(bytes: seq<byte>, k: nat)
    requires k < |EncodeSpec(bytes)|
    ensures DigitOf(EncodeSpec(bytes)[k]) != -1
    ensures ToBv(DigitOf(EncodeSpec(bytes)[k])) == Sextet(bytes, k)
  {
    var v := Sextet(bytes, k);
    assert EncodeSpec(bytes)[k] == Alphabet[v as int];
    DigitOfAlphabet(v as int);
    ToBvOf(v);
  }

  lemma SextetDigitsStep(bytes: seq<byte>, i: nat)
    ensures SextetDigits(bytes, i + 1) == SextetDigits(bytes, i) + [Sextet(bytes, i)]
  {
  }

  /** The first byte of a group from its first two sextets. */
  lemma GroupByte0(b0: bv32, b1: bv32, x0: bv32, x1: bv32)
    requires b0 < 256 && b1 < 256
    requires x0 == b0 >> 2 && x1 == ((b0 & 3) << 4) | (b1 >> 4)
    ensures ((x0 << 2) | (x1 >> 4)) & 0xFF == b0
  {
  }

  /** The second byte of a group from its second and third sextets. */
  lemma GroupByte1(b0: bv32, b1: bv32, b2: bv32, x1: bv32, x2: bv32)
    requires b0 < 256 && b1 < 256 && b2 < 256
    requires x1 == ((b0 & 3) << 4) | (b1 >> 4) && x2 == ((b1 & 0xF) << 2) | (b2 >> 6)
    ensures ((x1 << 4) | (x2 >> 2)) & 0xFF == b1
  {
  }

  /** The third byte of a group from its last two sextets. */
  lemma GroupByte2(b1: bv32, b2: bv32, x2: bv32, x3: bv32)
    requires b1 < 256 && b2 < 256
    requires x2 == ((b1 & 0xF) << 2) | (b2 >> 6) && x3 == b2 & 0x3F
    ensures ((x2 << 6) | x3) & 0xFF == b2
  {
  }

  lemma GroupStart(k: nat, q: nat, j: nat)
    requires j < 4 && k == 4 * q + j
    ensures 3 * (k / 4) == 3 * q && k % 4 == j
  {
  }

  /** The digits byte `m` is read from lie within the encoding. */
  lemma GroupInRange(m: nat, n: nat)
    requires m < n
    ensures 4 * (m / 3) + m % 3 + 1 < EncodedLength(n)
  {
    var q, r := m / 3, m % 3;
    assert m == 3 * q + r;
    assert 6 * (4 * q + r + 2) <= 8 * n + 5;
  }

  /** Digit `4q` of the encoding: the top six bits of byte `3q`. */
  lemma GroupDigit0(bytes: seq<byte>, q: nat)
    requires 4 * q < EncodedLength(|bytes|)
    ensures DigitAt(SextetDigits(bytes, EncodedLength(|bytes|)), 4 * q) == ByteAt(bytes, 3 * q) >> 2
  {
    GroupStart(4 * q, q, 0);
  }

  /** Digit `4q + 1`: the low two bits of byte `3q`, then the top four of byte `3q + 1`. */
  lemma GroupDigit1(bytes: seq<byte>, q: nat)
    requires 4 * q + 1 < EncodedLength(|bytes|)
    ensures DigitAt(SextetDigits(bytes, EncodedLength(|bytes|)), 4 * q + 1) ==
      ((ByteAt(bytes, 3 * q) & 3) << 4) | (ByteAt(bytes, 3 * q + 1) >> 4)
  {
    GroupStart(4 * q + 1, q, 1);
  }

  /** Digit `4q + 2`: the low four bits of byte `3q + 1`, then the top two of byte `3q + 2`. */
  lemma GroupDigit2(bytes: seq<byte>, q: nat)
    requires 4 * q + 2 < EncodedLength(|bytes|)
    ensures DigitAt(SextetDigits(bytes, EncodedLength(|bytes|)), 4 * q + 2) ==
      ((ByteAt(bytes, 3 * q + 1) & 0xF) << 2) | (ByteAt(bytes, 3 * q + 2) >> 6)
  {
    GroupStart(4 * q + 2, q, 2);
  }

  /** Digit `4q + 3`: the low six bits of byte `3q + 2`. */
  lemma GroupDigit3(bytes: seq<byte>, q: nat)
    requires 4 * q + 3 < EncodedLength(|bytes|)
    ensures DigitAt(SextetDigits(bytes, EncodedLength(|bytes|)), 4 * q + 3) == ByteAt(bytes, 3 * q + 2) & 0x3F
  {
    GroupStart(4 * q + 3, q, 3);
  }

  /** Byte `3q` of a digit sequence, from digits `4q` and `4q + 1`. */
  lemma DecodedFirst(digits: seq<bv32>, q: nat)
    requires forall j :: 0 <= j < |digits| ==> digits[j] < 65
    ensures DecodedByte(digits, 3 * q) == ((DigitAt(digits, 4 * q) << 2) | (DigitAt(digits, 4 * q + 1) >> 4)) & 0xFF
  {
  }

  /** Byte `3q + 1`, from digits `4q + 1` and `4q + 2`. */
  lemma DecodedSecond(digits: seq<bv32>, q: nat)
    requires forall j :: 0 <= j < |digits| ==> digits[j] < 65
    ensures DecodedByte(digits, 3 * q + 1) == ((DigitAt(digits, 4 * q + 1) << 4) | (DigitAt(digits, 4 * q + 2) >> 2)) & 0xFF
  {
    assert (3 * q + 1) / 3 == q;
  }

  /** Byte `3q + 2`, from digits `4q + 2` and `4q + 3`. */
  lemma DecodedThird(digits: seq<bv32>, q: nat)
    requires forall j :: 0 <= j < |digits| ==> digits[j] < 65
    ensures DecodedByte(digits, 3 * q + 2) == ((DigitAt(digits, 4 * q + 2) << 6) | DigitAt(digits, 4 * q + 3)) & 0xFF
  {
    assert (3 * q + 2) / 3 == q;
  }

  /** The first byte of group `q` comes back. */
  lemma DecodedSextets0(bytes: seq<byte>, q: nat)
    requires 3 * q < |bytes|
    ensures DecodedByte(SextetDigits(bytes, EncodedLength(|bytes|)), 3 * q) == ByteAt(bytes, 3 * q)
  {
    var d := SextetDigits(bytes, EncodedLength(|bytes|));
    GroupInRange(3 * q, |bytes|);
    GroupDigit0(bytes, q);
    GroupDigit1(bytes, q);
    DecodedFirst(d, q);
    GroupByte0(ByteAt(bytes, 3 * q), ByteAt(bytes, 3 * q + 1), DigitAt(d, 4 * q), DigitAt(d, 4 * q + 1));
  }

  /** The second byte of group `q` comes back. */
  lemma DecodedSextets1(bytes: seq<byte>, q: nat)
    requires 3 * q + 1 < |bytes|
    ensures DecodedByte(SextetDigits(bytes, EncodedLength(|bytes|)), 3 * q + 1) == ByteAt(bytes, 3 * q + 1)
  {
    var d := SextetDigits(bytes, EncodedLength(|bytes|));
    GroupInRange(3 * q + 1, |bytes|);
    GroupDigit1(bytes, q);
    GroupDigit2(bytes, q);
    DecodedSecond(d, q);
    GroupByte1(ByteAt(bytes, 3 * q), ByteAt(bytes, 3 * q + 1), ByteAt(bytes, 3 * q + 2), DigitAt(d, 4 * q + 1), DigitAt(d, 4 * q + 2));
  }

  /** The third byte of group `q` comes back. */
  lemma DecodedSextets2(bytes: seq<byte>, q: nat)
    requires 3 * q + 2 < |bytes|
    ensures DecodedByte(SextetDigits(bytes, EncodedLength(|bytes|)), 3 * q + 2) == ByteAt(bytes, 3 * q + 2)
  {
    var d := SextetDigits(bytes, EncodedLength(|bytes|));
    GroupInRange(3 * q + 2, |bytes|);
    GroupDigit2(bytes, q);
    GroupDigit3(bytes, q);
    DecodedThird(d, q);
    GroupByte2(ByteAt(bytes, 3 * q + 1), ByteAt(bytes, 3 * q + 2), DigitAt(d, 4 * q + 2), DigitAt(d, 4 * q + 3));
  }

  /** Decoding the sextets of an encoding gives back byte `m`. */
  lemma DecodedSextets(bytes: seq<byte>, m: nat)
    requires m < |bytes|
    ensures DecodedByte(SextetDigits(bytes, EncodedLength(|bytes|)), m) == ByteAt(bytes, m)
  {
    var q := m / 3;
    if m % 3 == 0 {
      assert m == 3 * q;
      DecodedSextets0(bytes, q);
    } else if m % 3 == 1 {
      assert m == 3 * q + 1;
      DecodedSextets1(bytes, q);
    } else {
      assert m == 3 * q + 2;
      DecodedSextets2(bytes, q);
    }
  }

  /** The encoder never writes the padding character, so `decode` strips nothing from its output. */
  lemma EncodingHasNoPadding(bytes: seq<byte>)
    ensures StripPadding(EncodeSpec(bytes)) == EncodeSpec(bytes)
  {
    var e := EncodeSpec(bytes);
    if |e| > 0 {
      EncodingCharacters(bytes, |e| - 1);
    }
  }

  /** `decode(encode(bytes))` gives back the bytes. */
  lemma RoundTrip(bytes: seq<byte>)
    ensures DecodeSpec(EncodeSpec(bytes)) == bytes
  {
    var e := EncodeSpec(bytes);
    EncodingHasNoPadding(bytes);
    DigitsOfEncoding(bytes, |e|);
    assert e[..|e|] == e;
    var d := SextetDigits(bytes, |e|);
    assert 6 * |d| / 8 == |bytes|;
    forall m | 0 <= m < |bytes| ensures DecodeDigits(d)[m] == bytes[m] {
      DecodedSextets(bytes, m);
    }
  }

  /** Every character of an encoding is in the alphabet, and none is 'z' or the padding character. */
  lemma EncodingCharacters(bytes: seq<byte>, k: nat)
    requires k < |EncodeSpec(bytes)|
    ensures EncodeSpec(bytes)[k] in Alphabet
    ensures EncodeSpec(bytes)[k] != 'z' && EncodeSpec(bytes)[k] != PaddingChar
  {
    var v := Sextet(bytes, k) as int;
    AlphabetDistinct(v, 64);
    AlphabetAt(64);
  }

  /** `decode` reads one character at a time, so the digits of two texts are those of each. */
  lemma {:induction false} DigitsOfAppend(s: string, t: string)
    ensures DigitsOf(s + t) == DigitsOf(s) + DigitsOf(t)
  {
    if |t| == 0 {
      assert s + t == s;
    } else {
      var t', c := t[..|t| - 1], t[|t| - 1];
      var last := if DigitOf(c) == -1 then [] else [ToBv(DigitOf(c))];
      assert DigitsOf(s + t) == DigitsOf(s + t') + last by {
        assert (s + t)[..|s + t| - 1] == s + t';
        assert (s + t)[|s + t| - 1] == c;
      }
      assert DigitsOf(s + t') == DigitsOf(s) + DigitsOf(t') by {
        DigitsOfAppend(s, t');
      }
      assert DigitsOf(t) == DigitsOf(t') + last;
      AppendAssoc(DigitsOf(s), DigitsOf(t'), last);
    }
  }

  /** Trailing padding contributes no digits: stripping it is the same as skipping it. */
  lemma {:induction false} StripPaddingDigits(s: string)
    ensures DigitsOf(StripPadding(s)) == DigitsOf(s)
  {
    if |s| > 0 && s[|s| - 1] == PaddingChar {
      StripPaddingDigits(s[..|s| - 1]);
      if DigitOf(PaddingChar) != -1 {
        AlphabetDistinct(DigitOf(PaddingChar), DigitOf(PaddingChar));
      }
    }
  }

  /** `decode` skips trailing padding like any other character outside the alphabet. */
  lemma DecodeSkipsPadding(s: string)
    ensures DecodeSpec(s) == DecodeDigits(DigitsOf(s))
  {
    StripPaddingDigits(s);
  }

  lemma ForeignNoDigits(c: char)
    requires c !in Alphabet
    ensures DigitsOf([c]) == []
  {
    assert [c][..0] == [];
  }

  /** A character outside the alphabet contributes no digit, wherever it stands. */
  lemma ForeignDigits(s: string, c: char, t: string)
    requires c !in Alphabet
    ensures DigitsOf(s + [c] + t) == DigitsOf(s + t)
  {
    ForeignNoDigits(c);
    DigitsOfAppend(s + [c], t);
    DigitsOfAppend(s, [c]);
    DigitsOfAppend(s, t);
  }

  /** A character outside the alphabet, anywhere in the text, does not change what `decode` returns. */
  lemma IgnoresForeign(s: string, c: char, t: string)
    requires c !in Alphabet
    ensures DecodeSpec(s + [c] + t) == DecodeSpec(s + t)
  {
    DecodeSkipsPadding(s + [c] + t);
    DecodeSkipsPadding(s + t);
    ForeignDigits(s, c, t);
  }

  /** 'z', which the encoder never writes, is digit 64: seven bits, the top one ORed onto the digit before it. */
  lemma SeventhBitOfZ()
    ensures DigitOf('z') == 64
    ensures DecodeDigits([0, 64]) == DecodeDigits([1, 0]) == [4]
  {
    AlphabetAt(64);
    DigitOfAlphabet(64);
    assert DigitAt([0, 64], 1) == 64;
    assert DigitAt([1, 0], 0) == 1;
  }

  // ---------------------------------------------------------------------
  // Text
  // ---------------------------------------------------------------------

  /** `Base65.encodeString(text)`: the UTF-8 bytes of the text, encoded. */
  function EncodeString(p: Platform, text: string): string
  {
    EncodeSpec(p.utf8Encode(text))
  }

  /** `Base65.decodeString(encoded)`: the decoded bytes read as UTF-8. */
  function DecodeString(p: Platform, encoded: string): string
  {
    p.utf8Decode(DecodeSpec(encoded))
  }

  /** `decodeString(encodeString(text))` gives back the text, and the encoding is alphabet characters only. */
  lemma StringRoundTrip(p: Platform, text: string)
    requires Sound(p)
    ensures DecodeString(p, EncodeString(p, text)) == text
    ensures forall k :: 0 <= k < |EncodeString(p, text)| ==>
      EncodeString(p, text)[k] in Alphabet && EncodeString(p, text)[k] != PaddingChar
  {
    RoundTrip(p.utf8Encode(text));
    forall k | 0 <= k < |EncodeString(p, text)|
      ensures EncodeString(p, text)[k] in Alphabet && EncodeString(p, text)[k] != PaddingChar
    {
      EncodingCharacters(p.utf8Encode(text), k);
    }
  }

  // ---------------------------------------------------------------------
  // `client/esteganography.js`
  // ---------------------------------------------------------------------

  /**
   * `Base65.decode` of the command-line client: its loop names the
   * alphabet without the class, a name that file never defines, so the
   * first character read throws a ReferenceError. None is that throw.
   */
  function DecodeAsWritten(encoded: string): (r: Option<seq<byte>>)
    ensures r.Some? <==> StripPadding(encoded) == []
    ensures r.Some? ==> r.value == DecodeSpec(encoded)
  {
    if StripPadding(encoded) == [] then Some([]) else None
  }

  /** `Base65.decodeString` of the command-line client. */
  function DecodeStringAsWritten(p: Platform, encoded: string): Option<string>
  {
    match DecodeAsWritten(encoded)
    case None => None
    case Some(bytes) => Some(p.utf8Decode(bytes))
  }

  /** That decoder throws on the encoding of any non-empty byte sequence, so no message comes back. */
  lemma ClientDecodeThrows(p: Platform, bytes: seq<byte>)
    requires |bytes| > 0
    ensures DecodeAsWritten(EncodeSpec(bytes)).None?
    ensures DecodeStringAsWritten(p, EncodeSpec(bytes)).None?
  {
    EncodingHasNoPadding(bytes);
  }
}
