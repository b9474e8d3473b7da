/**
 * The message type codes of `EToServer` (client to relay) and
 * `EFromServer` (relay to client), and the checks on user input and
 * addresses in `Utils`.
 */
module Protocol {
  import opened Js

  const ToRegister: string := "r"
  const ToLink: string := "l"
  const ToHandshake: string := "h"
  const ToMessage: string := "m"

  const FromError: string := "er"
  const FromRegisterOk: string := "ro"
  const FromLinkOk: string := "lo"
  const FromHandshakeData: string := "hd"
  const FromClose: string := "cl"
  const FromMessage: string := "me"

  // ---------------------------------------------------------------------
  // checkPassword
  // ---------------------------------------------------------------------

  /** `checkPassword(pass)`: a password needs at least three UTF-16 code units. */
  function CheckPassword(pass: string): bool
  {
    !(Utf16Length(pass) < 3)
  }

  predicate IsBmp(s: string) { forall i :: 0 <= i < |s| ==> s[i] as int <= 0xFFFF }

  lemma {:induction false} BmpLength(s: string)
    requires IsBmp(s)
    ensures Utf16Length(s) == |s|
    decreases |s|
  {
    if |s| > 0 {
      BmpLength(s[..|s| - 1]);
    }
  }

  /**
   * Three characters are always enough, and for text without characters
   * beyond U+FFFF checkPassword accepts exactly the passwords of three or
   * more characters.
   */
  lemma CheckPasswordLength(pass: string)
    ensures |pass| >= 3 ==> CheckPassword(pass)
    ensures IsBmp(pass) ==> (CheckPassword(pass) <==> |pass| >= 3)
  {
    if IsBmp(pass) {
      BmpLength(pass);
    }
  }

  // ---------------------------------------------------------------------
  // isLocalIp
  // ---------------------------------------------------------------------

  /**
   * `isLocalIp(ip)`: four dot-separated parts whose first two, read by
   * `parseInt` without a radix, name 10/8, 127/8, 192.168/16 or
   * 172.16/12.
   */
  function IsLocalIp(ip: string): bool
  {
    var parts := Split(ip, '.');
    if |parts| != 4 then false
    else
      var a := ParseInt(parts[0], 0);
      var b := ParseInt(parts[1], 0);
      if a == Some(10) then true
      else if a == Some(127) then true
      else if a == Some(192) && b == Some(168) then true
      else if a == Some(172) && b.Some? && b.value >= 16 && b.value <= 31 then true
      else false
  }

  /** The dotted-decimal text of an IPv4 address. */
  function DottedQuad(a: byte, b: byte, c: byte, d: byte): string
  {
    Join([NatToRadix(a, 10), NatToRadix(b, 10), NatToRadix(c, 10), NatToRadix(d, 10)], '.')
  }

  /** The 32-bit address. */
  function Address(a: byte, b: byte, c: byte, d: byte): nat
  {
    ((a * 256 + b) * 256 + c) * 256 + d
  }

  /**
   * The private-use ranges of section 3 of RFC 1918 (10.0.0.0/8,
   * 172.16.0.0/12, 192.168.0.0/16) and the loopback range 127.0.0.0/8:
   * an address is in a /n prefix when its top n bits equal the prefix's.
   */
  predicate IsPrivateOrLoopback(addr: nat)
  {
    addr / 0x100_0000 == 0x0A || addr / 0x100_0000 == 0x7F
    || addr / 0x10_0000 == 0xAC1 || addr / 0x1_0000 == 0xC0A8
  }

  lemma AddressFields(a: byte, b: byte, c: byte, d: byte)
    ensures Address(a, b, c, d) / 0x100_0000 == a
    ensures Address(a, b, c, d) / 0x10_0000 == a * 16 + b / 16
    ensures Address(a, b, c, d) / 0x1_0000 == a * 256 + b
  {
    var addr := Address(a, b, c, d);
    var low := c * 256 + d;
    assert addr == (a * 256 + b) * 0x1_0000 + low;
    assert 0 <= low < 0x1_0000;
    assert addr == a * 0x100_0000 + (b * 0x1_0000 + low);
    assert addr == (a * 16 + b / 16) * 0x10_0000 + ((b % 16) * 0x1_0000 + low);
  }

  /** The dotted quad of an address splits into its four decimal fields. */
  lemma QuadParts(a: byte, b: byte, c: byte, d: byte)
    ensures Split(DottedQuad(a, b, c, d), '.') == [NatToRadix(a, 10), NatToRadix(b, 10), NatToRadix(c, 10), NatToRadix(d, 10)]
  {
    var parts := [NatToRadix(a, 10), NatToRadix(b, 10), NatToRadix(c, 10), NatToRadix(d, 10)];
    forall k, i | 0 <= k < 4 && 0 <= i < |parts[k]| ensures parts[k][i] != '.' {
      var n: nat := if k == 0 then a else if k == 1 then b else if k == 2 then c else d;
      assert parts[k] == NatToRadix(n, 10);
      NatToRadixDigits(n, 10);
      assert DigitValue(parts[k][i]) < 10;
    }
    SplitJoin(parts, '.');
  }

  /** On dotted-decimal addresses, isLocalIp recognises exactly the private and loopback ranges. */
  lemma LocalIpRanges(a: byte, b: byte, c: byte, d: byte)
    ensures IsLocalIp(DottedQuad(a, b, c, d)) <==> IsPrivateOrLoopback(Address(a, b, c, d))
  {
    assert IsLocalIp(DottedQuad(a, b, c, d)) == LocalFields(a, b) by {
      QuadParts(a, b, c, d);
      ParseDecimal(a);
      ParseDecimal(b);
    }
    assert IsPrivateOrLoopback(Address(a, b, c, d)) == LocalFields(a, b) by {
      AddressFields(a, b, c, d);
      PrefixOf12(a, b);
    }
  }

  /** The first two fields of an address in one of the four ranges. */
  predicate LocalFields(a: byte, b: byte)
  {
    a == 10 || a == 127 || (a == 192 && b == 168) || (a == 172 && 16 <= b <= 31)
  }

  /** The top 12 bits of a.b are those of 172.16 exactly when a is 172 and b is 16 … 31. */
  lemma PrefixOf12(a: byte, b: byte)
    ensures a * 16 + b / 16 == 0xAC1 <==> a == 172 && 16 <= b <= 31
  {
    var q := b / 16;
    assert 0 <= q < 16;
    assert 16 <= b <= 31 <==> q == 1;
    if a * 16 + q == 0xAC1 {
      assert a == 172;
    }
  }

  /** Only the first two fields count: text after the leading digits of each is ignored. */
  lemma LocalIpFirstTwoParts(p0: string, p1: string, p2: string, p3: string, q2: string, q3: string)
    requires forall i :: 0 <= i < |p0| ==> p0[i] != '.'
    requires forall i :: 0 <= i < |p1| ==> p1[i] != '.'
    requires forall i :: 0 <= i < |p2| ==> p2[i] != '.'
    requires forall i :: 0 <= i < |p3| ==> p3[i] != '.'
    requires forall i :: 0 <= i < |q2| ==> q2[i] != '.'
    requires forall i :: 0 <= i < |q3| ==> q3[i] != '.'
    ensures IsLocalIp(Join([p0, p1, p2, p3], '.')) == IsLocalIp(Join([p0, p1, q2, q3], '.'))
  {
    SplitJoin([p0, p1, p2, p3], '.');
    SplitJoin([p0, p1, q2, q3], '.');
  }
}
