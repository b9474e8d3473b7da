/**
 * The slice of JavaScript value semantics the chat code relies on:
 * JSON values, property reads, `String(v)`, `parseInt`, `Number(s)`,
 * `Number.prototype.toString(radix)`, `padStart`, `split`, `join`,
 * `indexOf`, and the 32-bit and 8-bit integer conversions.
 * Strings are sequences of Unicode code points.
 */
module Js {

  type byte = x: int | 0 <= x < 256

  datatype Option<+T> = None | Some(value: T)

  /** A JSON value; numbers are restricted to integers. */
  datatype Json =
    | JNull
    | JBool(b: bool)
    | JNum(n: int)
    | JStr(s: string)
    | JArr(items: seq<Json>)
    | JObj(fields: map<string, Json>)

  /** What a property read can produce: `undefined`, or a JSON value. */
  datatype JsValue = Undefined | Val(j: Json)

  /**
   * `v.name`. Reading a property of `null` or `undefined` throws a
   * TypeError (None). Only objects carry the named properties the
   * protocol uses; every other value yields `undefined`.
   */
  function GetProp(v: JsValue, name: string): (r: Option<JsValue>)
    ensures r.None? <==> (v == Undefined || v == Val(JNull))
    ensures r.Some? && r.value.Val? ==> v.Val? && v.j.JObj? && name in v.j.fields && r.value.j == v.j.fields[name]
  {
    match v
    case Undefined => None
    case Val(JNull) => None
    case Val(JObj(f)) => Some(if name in f then Val(f[name]) else Undefined)
    case Val(_) => Some(Undefined)
  }

  /** An object literal with the given own properties. */
  function Obj(fields: map<string, Json>): Json { JObj(fields) }

  /** ToBoolean for the values the code tests. */
  predicate Truthy(v: JsValue) {
    match v
    case Undefined => false
    case Val(JNull) => false
    case Val(JBool(b)) => b
    case Val(JNum(n)) => n != 0
    case Val(JStr(s)) => |s| > 0
    case Val(_) => true
  }

  // ---------------------------------------------------------------------
  // Number.prototype.toString(radix), padStart, parseInt, Number(string)
  // ---------------------------------------------------------------------

  /** The lower-case digit for a value below 36. */
  function DigitChar(d: nat): (c: char)
    requires d < 36
    ensures DigitValue(c) == d
  {
    if d < 10 then ('0' as int + d) as char else ('a' as int + d - 10) as char
  }

  /** `n.toString(radix)` for a natural number: lower-case digits, no leading zeros. */
  function NatToRadix(n: nat, radix: nat): (s: string)
    requires 2 <= radix <= 36
    ensures 1 <= |s|
    decreases n
  {
    if n < radix then [DigitChar(n)]
    else
      DivShrinks(n, radix);
      NatToRadix(n / radix, radix) + [DigitChar(n % radix)]
  }

  /** A sequence that starts with `a` is `a` followed by the rest. */
  lemma PrefixThenRest<T>(s: seq<T>, a: seq<T>)
    requires |a| <= |s| && s[..|a|] == a
    ensures s == a + s[|a|..]
  {
    assert s == s[..|a|] + s[|a|..];
  }

  /** Concatenation is associative. */
  lemma AppendAssoc<T>(a: seq<T>, b: seq<T>, c: seq<T>)
    ensures (a + b) + c == a + (b + c)
  {
  }

  lemma DivShrinks(n: nat, d: nat)
    requires 2 <= d <= n
    ensures n / d < n && n % d < d && n == n / d * d + n % d
  {
  }

  /** `s.padStart(len, c)`. */
  function PadStart(s: string, len: nat, c: char): string
  {
    if |s| >= len then s else seq(len - |s|, _ => c) + s
  }

  /** The digit a character denotes in radix 36, or 36 when it is not a digit. */
  function DigitValue(c: char): (d: nat)
    ensures d <= 36
  {
    if '0' <= c <= '9' then c as int - '0' as int
    else if 'a' <= c <= 'z' then c as int - 'a' as int + 10
    else if 'A' <= c <= 'Z' then c as int - 'A' as int + 10
    else 36
  }

  /** StrWhiteSpaceChar: the white space and line terminators `parseInt` and `Number` skip. */
  predicate IsJsSpace(c: char) {
    var n := c as int;
    n == 0x09 || n == 0x0A || n == 0x0B || n == 0x0C || n == 0x0D || n == 0x20 || n == 0xA0
    || n == 0x1680 || (0x2000 <= n <= 0x200A) || n == 0x2028 || n == 0x2029
    || n == 0x202F || n == 0x205F || n == 0x3000 || n == 0xFEFF
  }

  function TrimStart(s: string): string
  {
    if |s| > 0 && IsJsSpace(s[0]) then TrimStart(s[1..]) else s
  }

  function TrimEnd(s: string): string
  {
    if |s| > 0 && IsJsSpace(s[|s| - 1]) then TrimEnd(s[..|s| - 1]) else s
  }

  /** The longest prefix of `w` made of digits of the radix. */
  function DigitPrefix(w: string, radix: nat): (d: string)
  {
    if |w| > 0 && DigitValue(w[0]) < radix then [w[0]] + DigitPrefix(w[1..], radix) else ""
  }

  /** The value of a digit string, most significant digit first. */
  function DigitsValue(d: string, radix: nat): nat
  {
    if |d| == 0 then 0
    else DigitsValue(d[..|d| - 1], radix) * radix + (if DigitValue(d[|d| - 1]) < 36 then DigitValue(d[|d| - 1]) else 0)
  }

  /**
   * `parseInt(s, radix)`, with radix 0 standing for an absent radix.
   * None is NaN. Leading white space and one sign are skipped; with
   * radix 16 or no radix a `0x`/`0X` prefix selects hexadecimal; the
   * longest run of digits is read and the rest ignored.
   */
  function ParseInt(s: string, radix: nat): Option<int>
  {
    var t := TrimStart(s);
    var neg := |t| > 0 && t[0] == '-';
    var u := if |t| > 0 && (t[0] == '-' || t[0] == '+') then t[1..] else t;
    var stripPrefix := radix == 0 || radix == 16;
    var hasPrefix := stripPrefix && |u| >= 2 && u[0] == '0' && (u[1] == 'x' || u[1] == 'X');
    var r := if hasPrefix then 16 else if radix == 0 then 10 else radix;
    var w := if hasPrefix then u[2..] else u;
    if r < 2 || r > 36 then None
    else
      var d := DigitPrefix(w, r);
      if |d| == 0 then None
      else Some(if neg then -(DigitsValue(d, r) as int) else DigitsValue(d, r))
  }

  /**
   * `Number(s)` for the strings this code converts: after trimming, the
   * empty string is 0 and an optionally signed run of decimal digits is
   * its value; everything else is NaN (None).
   */
  function StringToNumber(s: string): Option<int>
  {
    var t := TrimEnd(TrimStart(s));
    if |t| == 0 then Some(0)
    else
      var neg := t[0] == '-';
      var u := if t[0] == '-' || t[0] == '+' then t[1..] else t;
      if |u| > 0 && DigitPrefix(u, 10) == u then Some(if neg then -(DigitsValue(u, 10) as int) else DigitsValue(u, 10))
      else None
  }

  // ---------------------------------------------------------------------
  // Integer conversions
  // ---------------------------------------------------------------------

  const Two32: int := 0x1_0000_0000
  const Two31: int := 0x8000_0000

  /** ToInt32: the signed 32-bit integer with the same low 32 bits. */
  function ToInt32(x: int): (r: int)
    ensures -Two31 <= r < Two31
    ensures (r - x) % Two32 == 0
  {
    (x + Two31) % Two32 - Two31
  }

  /** ToUint8, as a Uint8Array element store does it; NaN becomes 0. */
  function ToUint8(n: Option<int>): byte
  {
    match n
    case None => 0
    case Some(v) => v % 256
  }

  /** Storing a number that is already a byte keeps it. */
  lemma ByteToUint8(v: int)
    requires 0 <= v < 256
    ensures ToUint8(Some(v)) as int == v
  {
  }

  /** `String.fromCharCode(n)` for one code unit; a lone surrogate is shown as U+FFFD. */
  function FromCharCode(n: Option<int>): char
  {
    var u := if n.Some? then n.value % 0x1_0000 else 0;
    if 0xD800 <= u < 0xE000 then '\U{FFFD}' else u as char
  }

  // ---------------------------------------------------------------------
  // Strings
  // ---------------------------------------------------------------------

  predicate IsLatin1(s: string) { forall i :: 0 <= i < |s| ==> s[i] as int < 256 }

  predicate IsAscii(s: string) { forall i :: 0 <= i < |s| ==> s[i] as int < 128 }

  /** `s.length`: the number of UTF-16 code units. */
  function Utf16Length(s: string): (n: nat)
    ensures n >= |s|
  {
    if |s| == 0 then 0
    else Utf16Length(s[..|s| - 1]) + (if s[|s| - 1] as int > 0xFFFF then 2 else 1)
  }

  /** `s.split(sep)` for a one-character separator. */
  function Split(s: string, sep: char): (parts: seq<string>)
    ensures |parts| >= 1
  {
    if |s| == 0 then [""]
    else if s[0] == sep then [""] + Split(s[1..], sep)
    else
      var rest := Split(s[1..], sep);
      [[s[0]] + rest[0]] + rest[1..]
  }

  /** `parts.join(sep)` for string parts. */
  function Join(parts: seq<string>, sep: char): string
  {
    if |parts| == 0 then ""
    else if |parts| == 1 then parts[0]
    else parts[0] + [sep] + Join(parts[1..], sep)
  }

  /** `s.indexOf(sub)`: the first position where `sub` occurs, or -1. */
  predicate OccursAt(s: string, sub: string, j: int) {
    0 <= j && j + |sub| <= |s| && s[j..j + |sub|] == sub
  }

  function IndexOf(s: string, sub: string): (i: int)
    ensures -1 <= i <= |s|
    ensures i >= 0 ==> OccursAt(s, sub, i)
    ensures forall j :: 0 <= j && (i < 0 || j < i) ==> !OccursAt(s, sub, j)
  {
    IndexOfFrom(s, sub, 0)
  }

  function IndexOfFrom(s: string, sub: string, from: nat): (i: int)
    ensures -1 <= i <= |s|
    ensures i >= 0 ==> from <= i && OccursAt(s, sub, i)
    ensures forall j :: from <= j && (i < 0 || j < i) ==> !OccursAt(s, sub, j)
    decreases |s| - from
  {
    if from + |sub| > |s| then -1
    else if s[from..from + |sub|] == sub then from
    else IndexOfFrom(s, sub, from + 1)
  }

  /** `s.substring(0, i)`: a negative end counts as 0. */
  function SubstringTo(s: string, i: int): string
    requires i <= |s|
  {
    if i < 0 then "" else s[..i]
  }

  // ---------------------------------------------------------------------
  // String(v)
  // ---------------------------------------------------------------------

  function IntToDecimal(n: int): string
  {
    if n < 0 then "-" + NatToRadix(-n, 10) else NatToRadix(n, 10)
  }

  /** `String(v)` for a JSON value: arrays join their elements with commas, null elements as "". */
  function JsonToString(j: Json): string
  {
    match j
    case JNull => "null"
    case JBool(b) => if b then "true" else "false"
    case JNum(n) => IntToDecimal(n)
    case JStr(s) => s
    case JArr(items) => Join(seq(|items|, i requires 0 <= i < |items| => if items[i] == JNull then "" else JsonToString(items[i])), ',')
    case JObj(_) => "[object Object]"
  }

  /** `String(v)`, also the property key a value names. */
  function JsToString(v: JsValue): string
  {
    match v
    case Undefined => "undefined"
    case Val(j) => JsonToString(j)
  }

  /** `v == 1` with JavaScript's loose equality. */
  predicate LooseEqualsOne(v: JsValue)
  {
    match v
    case Undefined => false
    case Val(JNull) => false
    case Val(JBool(b)) => b
    case Val(JNum(n)) => n == 1
    case Val(JStr(s)) => StringToNumber(s) == Some(1)
    case Val(JArr(_)) => StringToNumber(JsToString(v)) == Some(1)
    case Val(JObj(_)) => false
  }

  // ---------------------------------------------------------------------
  // Facts about the conversions
  // ---------------------------------------------------------------------

  /** Every character `toString(radix)` produces is a digit of that radix. */
  lemma {:induction false} NatToRadixDigits(n: nat, radix: nat)
    requires 2 <= radix <= 36
    ensures forall i :: 0 <= i < |NatToRadix(n, radix)| ==> DigitValue(NatToRadix(n, radix)[i]) < radix
    decreases n
  {
    if n < radix {
    } else {
      DivShrinks(n, radix);
      NatToRadixDigits(n / radix, radix);
    }
  }

  /** Reading back the digits of `toString(radix)` gives the number. */
  lemma {:induction false} NatToRadixValue(n: nat, radix: nat)
    requires 2 <= radix <= 36
    ensures DigitsValue(NatToRadix(n, radix), radix) == n
    decreases n
  {
    var s := NatToRadix(n, radix);
    if n < radix {
      assert s[..0] == "";
    } else {
      var q, m := n / radix, n % radix;
      DivShrinks(n, radix);
      assert s == NatToRadix(q, radix) + [DigitChar(m)];
      assert s[..|s| - 1] == NatToRadix(q, radix);
      NatToRadixValue(q, radix);
      assert DigitsValue(s, radix) == q * radix + m;
      assert n == q * radix + m;
    }
  }

  /** Leading zeros do not change a digit string's value. */
  lemma {:induction false} LeadingZerosValue(k: nat, d: string, radix: nat)
    ensures DigitsValue(seq(k, _ => '0') + d, radix) == DigitsValue(d, radix)
    decreases |d|, k
  {
    var z := seq(k, _ => '0');
    if |d| == 0 {
      assert z + d == z;
      if k > 0 {
        assert z[..k - 1] == seq(k - 1, _ => '0');
        LeadingZerosValue(k - 1, "", radix);
        assert seq(k - 1, _ => '0') + "" == seq(k - 1, _ => '0');
      }
    } else {
      assert (z + d)[..|z + d| - 1] == z + d[..|d| - 1];
      LeadingZerosValue(k, d[..|d| - 1], radix);
    }
  }

  /** A string made only of digits of the radix is read whole. */
  lemma {:induction false} DigitPrefixAll(w: string, radix: nat)
    requires forall i :: 0 <= i < |w| ==> DigitValue(w[i]) < radix
    ensures DigitPrefix(w, radix) == w
    decreases |w|
  {
    if |w| > 0 {
      DigitPrefixAll(w[1..], radix);
    }
  }

  lemma DigitIsNotSpace(c: char)
    requires DigitValue(c) < 36
    ensures !IsJsSpace(c) && c != '-' && c != '+'
  {
  }

  /** `parseInt` of a plain digit string (no space, sign or `0x` in front) is its value. */
  lemma ParsePlainDigits(s: string, radix: nat)
    requires 2 <= radix <= 36 && |s| > 0
    requires forall i :: 0 <= i < |s| ==> DigitValue(s[i]) < radix
    requires radix == 16 && |s| >= 2 ==> s[1] != 'x' && s[1] != 'X'
    ensures ParseInt(s, radix) == Some(DigitsValue(s, radix))
  {
    DigitIsNotSpace(s[0]);
    assert TrimStart(s) == s;
    var hasPrefix := (radix == 0 || radix == 16) && |s| >= 2 && s[0] == '0' && (s[1] == 'x' || s[1] == 'X');
    assert !hasPrefix;
    DigitPrefixAll(s, radix);
    assert |DigitPrefix(s, radix)| > 0;
  }

  /**
   * `parseInt(n.toString(radix).padStart(k, "0"), radix)` is `n` for the
   * radices the code uses with a fixed width (2 and 16).
   */
  lemma ParsePadded(n: nat, radix: nat, k: nat)
    requires radix == 2 || radix == 16
    ensures ParseInt(PadStart(NatToRadix(n, radix), k, '0'), radix) == Some(n)
  {
    var s := PadStart(NatToRadix(n, radix), k, '0');
    PaddedDigits(n, radix, k);
    if |s| >= 2 {
      assert DigitValue(s[1]) < radix;
    }
    ParsePlainDigits(s, radix);
  }

  /** A zero-padded rendering is made of digits of the radix and denotes the number. */
  lemma PaddedDigits(n: nat, radix: nat, k: nat)
    requires 2 <= radix <= 36
    ensures |PadStart(NatToRadix(n, radix), k, '0')| > 0
    ensures forall i :: 0 <= i < |PadStart(NatToRadix(n, radix), k, '0')| ==> DigitValue(PadStart(NatToRadix(n, radix), k, '0')[i]) < radix
    ensures DigitsValue(PadStart(NatToRadix(n, radix), k, '0'), radix) == n
  {
    var d := NatToRadix(n, radix);
    NatToRadixDigits(n, radix);
    NatToRadixValue(n, radix);
    if |d| < k {
      var z := seq(k - |d|, _ => '0');
      assert PadStart(d, k, '0') == z + d;
      LeadingZerosValue(k - |d|, d, radix);
      ZerosThenDigits(z, d, radix);
    }
  }

  /** Zeros followed by digits of a radix are all digits of that radix. */
  lemma ZerosThenDigits(z: string, d: string, radix: nat)
    requires 2 <= radix
    requires forall i :: 0 <= i < |z| ==> z[i] == '0'
    requires forall i :: 0 <= i < |d| ==> DigitValue(d[i]) < radix
    ensures forall i :: 0 <= i < |z + d| ==> DigitValue((z + d)[i]) < radix
  {
    forall i | 0 <= i < |z + d|
      ensures DigitValue((z + d)[i]) < radix
    {
      if i >= |z| {
        assert (z + d)[i] == d[i - |z|];
      } else {
        assert (z + d)[i] == '0';
      }
    }
  }

  /** `parseInt` without a radix reads a decimal rendering back as the number. */
  lemma ParseDecimal(n: nat)
    ensures ParseInt(NatToRadix(n, 10), 0) == Some(n)
  {
    var s := NatToRadix(n, 10);
    NatToRadixDigits(n, 10);
    NatToRadixValue(n, 10);
    DigitIsNotSpace(s[0]);
    assert TrimStart(s) == s;
    if |s| >= 2 {
      assert DigitValue(s[1]) < 10;
    }
    DigitPrefixAll(s, 10);
    assert |DigitPrefix(s, 10)| > 0;
  }

  /** `Number(n.toString(10))` is `n`. */
  lemma DecimalToNumber(n: nat)
    ensures StringToNumber(NatToRadix(n, 10)) == Some(n)
  {
    var d := NatToRadix(n, 10);
    NatToRadixDigits(n, 10);
    NatToRadixValue(n, 10);
    DigitIsNotSpace(d[0]);
    DigitIsNotSpace(d[|d| - 1]);
    assert TrimStart(d) == d;
    assert TrimEnd(d) == d;
    DigitPrefixAll(d, 10);
  }

  lemma {:induction false} SplitNoSep(a: string, sep: char)
    requires forall i :: 0 <= i < |a| ==> a[i] != sep
    ensures Split(a, sep) == [a]
    decreases |a|
  {
    if |a| > 0 {
      SplitNoSep(a[1..], sep);
      assert [a[0]] + a[1..] == a;
    }
  }

  lemma {:induction false} SplitAtSep(a: string, sep: char, b: string)
    requires forall i :: 0 <= i < |a| ==> a[i] != sep
    ensures Split(a + [sep] + b, sep) == [a] + Split(b, sep)
    decreases |a|
  {
    var s := a + [sep] + b;
    if |a| == 0 {
      assert s[1..] == b;
    } else {
      assert s[1..] == a[1..] + [sep] + b;
      SplitAtSep(a[1..], sep, b);
      assert [a[0]] + a[1..] == a;
    }
  }

  /** Splitting a join at the separator gives the parts back when no part contains it. */
  lemma {:induction false} SplitJoin(parts: seq<string>, sep: char)
    requires |parts| >= 1
    requires forall k, i :: 0 <= k < |parts| && 0 <= i < |parts[k]| ==> parts[k][i] != sep
    ensures Split(Join(parts, sep), sep) == parts
    decreases |parts|
  {
    if |parts| == 1 {
      SplitNoSep(parts[0], sep);
    } else {
      SplitJoin(parts[1..], sep);
      SplitAtSep(parts[0], sep, Join(parts[1..], sep));
      assert [parts[0]] + parts[1..] == parts;
    }
  }
}
