/**
 * The bit framing of both steganography files: the Base65 text of a
 * message, followed by the `MESSAGE_END` marker, is written as eight
 * binary digits per character; extraction regroups the digits into
 * characters and cuts the text at the first marker.
 */
module Framing {
  import opened Js
  import opened Platform
  import opened Base65

  /** `Esteganography.MESSAGE_END`. */
  const MessageEnd: string := "^^^^"

  // ---------------------------------------------------------------------
  // Writing
  // ---------------------------------------------------------------------

  /** `char.charCodeAt(0).toString(2).padStart(8, "0")`. */
  function CharBits(c: char): string
  {
    PadStart(NatToRadix(c as int, 2), 8, '0')
  }

  /** `text.split("").map(CharBits).join("")`, for text of single-unit characters. */
  function TextBits(s: string): string
  {
    if |s| == 0 then "" else CharBits(s[0]) + TextBits(s[1..])
  }

  /** `binaryMessage` of `insertMessage`: the bits of the Base65 text and the marker. */
  function MessageBits(p: Platform, message: string): string
  {
    TextBits(EncodeString(p, message) + MessageEnd)
  }

  predicate IsBitText(s: string)
  {
    forall i :: 0 <= i < |s| ==> s[i] == '0' || s[i] == '1'
  }

  // ---------------------------------------------------------------------
  // Reading
  // ---------------------------------------------------------------------

  /** The complete groups of eight characters, in order; a shorter tail is dropped. */
  function CompleteGroups(bits: string): seq<string>
    decreases |bits|
  {
    if |bits| < 8 then [] else [bits[..8]] + CompleteGroups(bits[8..])
  }

  /**
   * `bits.match(/.{8}/g)` on a string of binary digits: null (None)
   * when there is not one complete group.
   */
  function MatchGroups(bits: string): (r: Option<seq<string>>)
    ensures r.Some? <==> |bits| >= 8
  {
    if |bits| < 8 then None else Some(CompleteGroups(bits))
  }

  /** `bits.slice(i, i + 8)` for i = 0, 8, 16, …: groups of eight, the last one possibly shorter. */
  function SliceGroups(bits: string): seq<string>
    decreases |bits|
  {
    if |bits| == 0 then [] else if |bits| <= 8 then [bits] else [bits[..8]] + SliceGroups(bits[8..])
  }

  /** `String.fromCharCode(parseInt(group, 2))`. */
  function GroupChar(g: string): char
  {
    FromCharCode(ParseInt(g, 2))
  }

  /** The characters of the groups, joined (`map(GroupChar).join("")`). */
  function GroupsText(gs: seq<string>): (s: string)
    ensures |s| == |gs|
  {
    if |gs| == 0 then "" else [GroupChar(gs[0])] + GroupsText(gs[1..])
  }

  /** `s.substring(0, s.indexOf(MESSAGE_END))`: everything before the first marker, or "" when there is none. */
  function CutAtEnd(s: string): (r: string)
    ensures IndexOf(s, MessageEnd) >= 0 ==> r == s[..IndexOf(s, MessageEnd)]
    ensures IndexOf(s, MessageEnd) < 0 ==> r == ""
  {
    SubstringTo(s, IndexOf(s, MessageEnd))
  }

  /**
   * The Base65 text `client-html/esteganography.js` recovers from the
   * bits it read: None when there are fewer than eight, where the null
   * from `match` makes `.map` throw.
   */
  function HtmlFramedText(bits: string): Option<string>
  {
    match MatchGroups(bits)
    case None => None
    case Some(gs) => Some(CutAtEnd(GroupsText(gs)))
  }

  /** The Base65 text `client/esteganography.js` recovers from the bits it read. */
  function ClientFramedText(bits: string): string
  {
    CutAtEnd(GroupsText(SliceGroups(bits)))
  }

  // ---------------------------------------------------------------------
  // Properties
  // ---------------------------------------------------------------------

  /** A number below 2^k has at most k binary digits. */
  lemma {:induction false} BinaryLength(n: nat, k: nat)
    requires 1 <= k
    requires n < Pow2(k)
    ensures |NatToRadix(n, 2)| <= k
    decreases n
  {
    if n >= 2 {
      DivShrinks(n, 2);
      assert Pow2(1) == 2;
      BinaryLength(n / 2, k - 1);
    }
  }

  function Pow2(k: nat): (r: nat)
    ensures r >= 1
  {
    if k == 0 then 1 else 2 * Pow2(k - 1)
  }

  /** Eight binary digits per character below 256. */
  lemma CharBitsLength(c: char)
    requires c as int < 256
    ensures |CharBits(c)| == 8
  {
    assert Pow2(8) == 256;
    BinaryLength(c as int, 8);
  }

  lemma BinaryDigit(c: char)
    requires DigitValue(c) < 2
    ensures c == '0' || c == '1'
  {
  }

  /** The rendering is made of binary digits only. */
  lemma CharBitsDigits(c: char)
    ensures IsBitText(CharBits(c))
  {
    var d := NatToRadix(c as int, 2);
    NatToRadixDigits(c as int, 2);
    forall i | 0 <= i < |CharBits(c)|
      ensures CharBits(c)[i] == '0' || CharBits(c)[i] == '1'
    {
      if |d| < 8 && i >= 8 - |d| {
        assert CharBits(c)[i] == d[i - (8 - |d|)];
        BinaryDigit(d[i - (8 - |d|)]);
      } else if |d| >= 8 {
        BinaryDigit(d[i]);
      }
    }
  }

  /** Reading the rendering of a character below 256 back gives the character. */
  lemma CharBitsValue(c: char)
    requires c as int < 256
    ensures GroupChar(CharBits(c)) == c
  {
    ParsePadded(c as int, 2, 8);
    SmallCharCode(c as int);
  }

  lemma SmallCharCode(n: int)
    requires 0 <= n < 256
    ensures FromCharCode(Some(n)) == n as char
  {
    assert n % 0x1_0000 == n;
  }

  lemma CharBitsRoundTrip(c: char)
    requires c as int < 256
    ensures |CharBits(c)| == 8 && IsBitText(CharBits(c))
    ensures GroupChar(CharBits(c)) == c
  {
    CharBitsLength(c);
    CharBitsDigits(c);
    CharBitsValue(c);
  }

  /** The bits of Latin-1 text: eight binary digits per character. */
  lemma {:induction false} TextBitsShape(s: string)
    requires IsLatin1(s)
    ensures |TextBits(s)| == 8 * |s| && IsBitText(TextBits(s))
  {
    if |s| > 0 {
      CharBitsRoundTrip(s[0]);
      TextBitsShape(s[1..]);
    }
  }

  /** A group of eight in front of any string is one group of its own. */
  lemma CompleteGroupsFront(a: string, rest: string)
    requires |a| == 8
    ensures CompleteGroups(a + rest) == [a] + CompleteGroups(rest)
  {
    assert (a + rest)[..8] == a;
    assert (a + rest)[8..] == rest;
  }

  lemma SliceGroupsFront(a: string, rest: string)
    requires |a| == 8
    ensures SliceGroups(a + rest) == [a] + SliceGroups(rest)
  {
    if |rest| == 0 {
      assert a + rest == a;
    } else {
      assert (a + rest)[..8] == a;
      assert (a + rest)[8..] == rest;
    }
  }

  lemma GroupsTextFront(g: string, gs: seq<string>)
    ensures GroupsText([g] + gs) == [GroupChar(g)] + GroupsText(gs)
  {
    assert ([g] + gs)[1..] == gs;
  }

  /** The bits of one character in front of any string regroup to that character. */
  lemma CompleteGroupsChar(c: char, rest: string)
    requires c as int < 256
    ensures GroupsText(CompleteGroups(CharBits(c) + rest)) == [c] + GroupsText(CompleteGroups(rest))
  {
    CharBitsLength(c);
    CharBitsValue(c);
    CompleteGroupsFront(CharBits(c), rest);
    GroupsTextFront(CharBits(c), CompleteGroups(rest));
  }

  lemma SliceGroupsChar(c: char, rest: string)
    requires c as int < 256
    ensures GroupsText(SliceGroups(CharBits(c) + rest)) == [c] + GroupsText(SliceGroups(rest))
  {
    CharBitsLength(c);
    CharBitsValue(c);
    SliceGroupsFront(CharBits(c), rest);
    GroupsTextFront(CharBits(c), SliceGroups(rest));
  }

  lemma TextBitsFront(s: string, rest: string)
    requires |s| > 0
    ensures TextBits(s) + rest == CharBits(s[0]) + (TextBits(s[1..]) + rest)
  {
  }

  lemma ConsAppend(s: string, t: string)
    requires |s| > 0
    ensures [s[0]] + (s[1..] + t) == s + t
  {
    assert s == [s[0]] + s[1..];
  }

  /** Regrouping the bits of Latin-1 text in complete groups gives the text back, followed by what the rest gives. */
  lemma {:induction false} CompleteGroupsText(s: string, rest: string)
    requires IsLatin1(s)
    ensures GroupsText(CompleteGroups(TextBits(s) + rest)) == s + GroupsText(CompleteGroups(rest))
  {
    if |s| == 0 {
      assert TextBits(s) + rest == rest;
    } else {
      assert IsLatin1(s[1..]);
      var tail := TextBits(s[1..]) + rest;
      TextBitsFront(s, rest);
      CompleteGroupsChar(s[0], tail);
      CompleteGroupsText(s[1..], rest);
      ConsAppend(s, GroupsText(CompleteGroups(rest)));
    }
  }

  /** The same for the slices of the command-line client. */
  lemma {:induction false} SliceGroupsText(s: string, rest: string)
    requires IsLatin1(s)
    ensures GroupsText(SliceGroups(TextBits(s) + rest)) == s + GroupsText(SliceGroups(rest))
  {
    if |s| == 0 {
      assert TextBits(s) + rest == rest;
    } else {
      assert IsLatin1(s[1..]);
      var tail := TextBits(s[1..]) + rest;
      TextBitsFront(s, rest);
      SliceGroupsChar(s[0], tail);
      SliceGroupsText(s[1..], rest);
      ConsAppend(s, GroupsText(SliceGroups(rest)));
    }
  }

  /** In text with no '^', the first marker is the one after it. */
  lemma CutAtMarker(s: string, junk: string)
    requires forall i :: 0 <= i < |s| ==> s[i] != '^'
    ensures CutAtEnd(s + MessageEnd + junk) == s
  {
    var t := s + MessageEnd + junk;
    assert t[|s|..|s| + 4] == MessageEnd;
    assert OccursAt(t, MessageEnd, |s|);
    forall j | 0 <= j < |s|
      ensures !OccursAt(t, MessageEnd, j)
    {
      assert t[j] == s[j];
      if j + 4 <= |t| {
        assert t[j..j + 4][0] == t[j];
      }
    }
    assert IndexOf(t, MessageEnd) == |s|;
    assert t[..|s|] == s;
  }

  /**
   * The browser client's framing round trip: whatever bits follow the
   * frame, the text before the marker comes back.
   */
  lemma HtmlFrameRoundTrip(s: string, extra: string)
    requires IsLatin1(s)
    requires forall i :: 0 <= i < |s| ==> s[i] != '^'
    ensures HtmlFramedText(TextBits(s + MessageEnd) + extra) == Some(s)
  {
    var f := s + MessageEnd;
    MarkedLatin1(s);
    var g := HtmlGroups(f, extra);
    CutAtMarker(s, g);
  }

  /** The end marker keeps a Latin-1 text Latin-1. */
  lemma MarkedLatin1(s: string)
    requires IsLatin1(s)
    ensures IsLatin1(s + MessageEnd)
  {
    var f := s + MessageEnd;
    forall i | 0 <= i < |f|
      ensures f[i] as int < 256
    {
      if i >= |s| {
        assert f[i] == '^';
      }
    }
  }

  /** Regrouping the bits of a non-empty text and any further bits gives the text, then the characters of those bits. */
  lemma HtmlGroups(f: string, extra: string) returns (g: string)
    requires IsLatin1(f) && |f| > 0
    ensures HtmlFramedText(TextBits(f) + extra) == Some(CutAtEnd(f + g))
  {
    TextBitsShape(f);
    g := GroupsText(CompleteGroups(extra));
    CompleteGroupsText(f, extra);
  }

  /** The command-line client's framing round trip. */
  lemma ClientFrameRoundTrip(s: string, extra: string)
    requires IsLatin1(s)
    requires forall i :: 0 <= i < |s| ==> s[i] != '^'
    ensures ClientFramedText(TextBits(s + MessageEnd) + extra) == s
  {
    var f := s + MessageEnd;
    MarkedLatin1(s);
    var bits := TextBits(f) + extra;
    var g := GroupsText(SliceGroups(extra));
    SliceGroupsText(f, extra);
    assert GroupsText(SliceGroups(bits)) == s + MessageEnd + g;
    CutAtMarker(s, g);
    assert ClientFramedText(bits) == CutAtEnd(s + MessageEnd + g);
  }

  /** Base65 text is ASCII without '^', so it survives the framing. */
  lemma EncodedTextFrames(p: Platform, message: string)
    ensures IsLatin1(EncodeString(p, message))
    ensures forall i :: 0 <= i < |EncodeString(p, message)| ==> EncodeString(p, message)[i] != '^'
  {
    var e := EncodeString(p, message);
    forall i | 0 <= i < |e|
      ensures e[i] as int < 256 && e[i] != '^'
    {
      EncodingAscii(p.utf8Encode(message), i);
    }
  }

  /** The whole message bits are binary digits, eight per character of the frame. */
  lemma MessageBitsShape(p: Platform, message: string)
    ensures |MessageBits(p, message)| == 8 * (|EncodeString(p, message)| + 4)
    ensures IsBitText(MessageBits(p, message))
  {
    EncodedTextFrames(p, message);
    TextBitsShape(EncodeString(p, message) + MessageEnd);
  }

  /**
   * The message the browser client frames comes back from its bits
   * (and any that follow them): `decodeString` of the text before the
   * marker.
   */
  lemma HtmlMessageRoundTrip(p: Platform, message: string, extra: string)
    requires Sound(p)
    ensures HtmlFramedText(MessageBits(p, message) + extra) == Some(EncodeString(p, message))
    ensures DecodeString(p, HtmlFramedText(MessageBits(p, message) + extra).value) == message
  {
    EncodedTextFrames(p, message);
    HtmlFrameRoundTrip(EncodeString(p, message), extra);
    StringRoundTrip(p, message);
  }

  /** The same frame read by the command-line client, with the corrected decoder. */
  lemma ClientMessageRoundTrip(p: Platform, message: string, extra: string)
    requires Sound(p)
    ensures ClientFramedText(MessageBits(p, message) + extra) == EncodeString(p, message)
    ensures DecodeString(p, ClientFramedText(MessageBits(p, message) + extra)) == message
  {
    EncodedTextFrames(p, message);
    ClientFrameRoundTrip(EncodeString(p, message), extra);
    StringRoundTrip(p, message);
  }

  /** With the decoder as written, the command-line client cannot read back any non-empty message. */
  lemma ClientMessageAsWritten(p: Platform, message: string, extra: string)
    requires |p.utf8Encode(message)| > 0
    ensures DecodeStringAsWritten(p, ClientFramedText(MessageBits(p, message) + extra)).None?
  {
    EncodedTextFrames(p, message);
    ClientFrameRoundTrip(EncodeString(p, message), extra);
    ClientDecodeThrows(p, p.utf8Encode(message));
  }
}
